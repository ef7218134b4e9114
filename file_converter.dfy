/**
 * `FileConverter`: turning an uploaded file into the text the parser
 * reads.  `_clean_text` is three `re.sub` passes and a `strip()`;
 * `convert_to_text` picks a converter by file type; `_convert_docx`
 * gathers paragraphs and table rows in loops.  The PDF and DOCX
 * libraries and UTF-8 decoding are parameters.
 */
module FileConverter {
  import opened Wrappers
  import opened Text

  // ---------------------------------------------------------------------
  // Pass 1: re.sub(r'\n\s*\n', '\n', text)
  // ---------------------------------------------------------------------

  /** The last line feed in `s[lo..hi]`, if there is one. */
  function LastNewline(s: string, lo: nat, hi: nat): (r: Option<nat>)
    requires lo <= hi <= |s|
    ensures r.Some? ==> lo <= r.value < hi && s[r.value] == '\n'
    ensures r.Some? ==> forall k :: r.value < k < hi ==> s[k] != '\n'
    ensures r.None? ==> forall k :: lo <= k < hi ==> s[k] != '\n'
    decreases hi - lo
  {
    if hi == lo then None
    else if s[hi - 1] == '\n' then Some(hi - 1)
    else LastNewline(s, lo, hi - 1)
  }

  /**
   * The first pass.  At a line feed, the greedy `\s*` runs to the end of
   * the whitespace and gives characters back until a line feed follows:
   * the match ends at the last line feed of the whitespace run, and all
   * of it becomes one line feed.  Elsewhere the character is kept.
   */
  function CollapseBlankLines(s: string): (r: string)
    decreases |s|
  {
    if s == [] then []
    else if s[0] == '\n' then
      match LastNewline(s, 1, SpaceEnd(s, 1))
      case None => ['\n'] + CollapseBlankLines(s[1..])
      case Some(q) => ['\n'] + CollapseBlankLines(s[q + 1..])
    else [s[0]] + CollapseBlankLines(s[1..])
  }

  // ---------------------------------------------------------------------
  // Pass 2: re.sub(r'\s+', ' ', text)
  // ---------------------------------------------------------------------

  /** Every whitespace character of `s` is a space, and no two of them are adjacent. */
  predicate SingleSpaced(s: string)
  {
    && (forall k :: 0 <= k < |s| && IsSpace(s[k]) ==> s[k] == ' ')
    && (forall k :: 0 < k < |s| && s[k - 1] == ' ' ==> s[k] != ' ')
  }

  /** A whitespace character starts a run that ends past it. */
  lemma SpaceRunNonEmpty(s: string, i: nat)
    requires i < |s| && IsSpace(s[i])
    ensures SpaceEnd(s, i) > i
  {
    assert SpaceEnd(s, i) == SpaceEnd(s, i + 1);
  }

  /**
   * The second pass: each maximal whitespace run, line feeds included,
   * becomes a single space.  The result is single-spaced.
   */
  function Squeeze(s: string): (r: string)
    ensures SingleSpaced(r)
    ensures r == [] <==> s == []
    ensures r != [] ==> (r[0] == ' ' <==> IsSpace(s[0]))
    decreases |s|
  {
    if s == [] then []
    else if IsSpace(s[0]) then
      var j := SpaceEnd(s, 0);
      SpaceRunNonEmpty(s, 0);
      var rest := s[j..];
      assert rest != [] ==> !IsSpace(rest[0]);
      var r := [' '] + Squeeze(rest);
      assert forall k :: 0 < k < |r| ==> r[k] == Squeeze(rest)[k - 1];
      r
    else
      var rest := s[1..];
      var r := [s[0]] + Squeeze(rest);
      assert forall k :: 0 < k < |r| ==> r[k] == Squeeze(rest)[k - 1];
      r
  }

  // ---------------------------------------------------------------------
  // Pass 3: re.sub(r'[^\x20-\x7E\n]', '', text)
  // ---------------------------------------------------------------------

  /** A character the third pass keeps: printable ASCII or a line feed. */
  predicate Kept(c: char)
  {
    (' ' <= c <= '~') || c == '\n'
  }

  /** The third pass: every other character is removed. */
  function KeepPrintable(s: string): (r: string)
    ensures |r| <= |s|
    decreases |s|
  {
    if s == [] then []
    else if Kept(s[0]) then [s[0]] + KeepPrintable(s[1..])
    else KeepPrintable(s[1..])
  }

  /** The third pass keeps exactly the characters it allows. */
  lemma {:induction false} KeepPrintableChars(s: string)
    ensures forall c :: c in KeepPrintable(s) <==> c in s && Kept(c)
    decreases |s|
  {
    if s != [] {
      KeepPrintableChars(s[1..]);
      assert forall c :: c in s <==> c == s[0] || c in s[1..];
    }
  }

  // ---------------------------------------------------------------------
  // _clean_text
  // ---------------------------------------------------------------------

  /** `_clean_text`: the three passes, then `strip()`. */
  function CleanText(s: string): (r: string)
  {
    Strip(KeepPrintable(Squeeze(CollapseBlankLines(s))))
  }

  /**
   * Every character of the cleaned text is printable ASCII: the second
   * pass has turned every line feed into a space before the third pass
   * could keep one.  The text neither starts nor ends with whitespace.
   */
  lemma CleanTextPrintable(s: string)
    ensures forall c :: c in CleanText(s) ==> ' ' <= c <= '~'
    ensures CleanText(s) == [] || (!IsSpace(CleanText(s)[0]) && !IsSpace(CleanText(s)[|CleanText(s)| - 1]))
  {
    var t := Squeeze(CollapseBlankLines(s));
    assert forall k :: 0 <= k < |t| ==> t[k] != '\n';
    KeepPrintableChars(t);
    StripWithin(KeepPrintable(t));
  }


  // ---------------------------------------------------------------------
  // The first pass changes nothing the second does not undo
  // ---------------------------------------------------------------------

  /**
   * A run of whitespace in front of a string that does not start with
   * whitespace squeezes to one space, whatever its length.
   */
  lemma SqueezeSpacePrefix(w: string, u: string)
    requires w != [] && All(w, 0, |w|, IsSpace)
    requires u == [] || !IsSpace(u[0])
    ensures Squeeze(w + u) == [' '] + Squeeze(u)
  {
    var s := w + u;
    assert s[0] == w[0];
    assert All(s, 0, |w|, IsSpace);
    if u != [] {
      assert s[|w|] == u[0];
      SpaceEndAt(s, 0, |w|);
    } else {
      assert s == w;
      SkipWhileUnique(s, 0, |w|, IsSpace);
    }
    assert s[|w|..] == u;
  }

  /**
   * Over the maximal whitespace run `s[..j]` at its front, the first pass
   * writes only whitespace, and at least one character when `j > 0`;
   * from the end of the run on it works on the rest alone.
   */
  lemma {:induction false} CollapseLead(s: string, j: nat) returns (w: string)
    requires j <= |s| && All(s, 0, j, IsSpace) && (j < |s| ==> !IsSpace(s[j]))
    ensures All(w, 0, |w|, IsSpace) && (j > 0 ==> w != [])
    ensures CollapseBlankLines(s) == w + CollapseBlankLines(s[j..])
    decreases j
  {
    if j == 0 {
      w := [];
      assert s[0..] == s;
    } else {
      var k, c := CollapseFront(s, j);
      var rest := s[k..];
      RunSuffix(s, j, k);
      var w' := CollapseLead(rest, j - k);
      var tail := CollapseBlankLines(s[j..]);
      assert CollapseBlankLines(s) == [c] + (w' + tail);
      w := [c] + w';
      assert [c] + (w' + tail) == w + tail;
      assert forall x :: 0 < x < |w| ==> w[x] == w'[x - 1];
    }
  }

  /** The first pass writes one whitespace character for the front of the run `s[..j]`, then goes on from `k`. */
  lemma CollapseFront(s: string, j: nat) returns (k: nat, c: char)
    requires 0 < j <= |s| && All(s, 0, j, IsSpace) && (j < |s| ==> !IsSpace(s[j]))
    ensures 1 <= k <= j && IsSpace(c) && CollapseBlankLines(s) == [c] + CollapseBlankLines(s[k..])
  {
    if s[0] == '\n' {
      k := CollapseAtNewline(s, j);
      c := '\n';
    } else {
      k, c := 1, s[0];
    }
  }

  /** What is left of a maximal whitespace run from `k` on is a maximal run of the rest. */
  lemma RunSuffix(s: string, j: nat, k: nat)
    requires k <= j <= |s| && All(s, 0, j, IsSpace) && (j < |s| ==> !IsSpace(s[j]))
    ensures All(s[k..], 0, j - k, IsSpace) && (j - k < |s[k..]| ==> !IsSpace(s[k..][j - k]))
    ensures s[k..][j - k..] == s[j..]
  {
  }

  /**
   * At a line feed that opens the maximal whitespace run `s[..j]`, the
   * first pass writes one line feed and goes on inside the run.
   */
  lemma CollapseAtNewline(s: string, j: nat) returns (k: nat)
    requires 0 < j <= |s| && s[0] == '\n' && All(s, 0, j, IsSpace) && (j < |s| ==> !IsSpace(s[j]))
    ensures 1 <= k <= j && CollapseBlankLines(s) == ['\n'] + CollapseBlankLines(s[k..])
  {
    SkipWhileUnique(s, 1, j, IsSpace);
    match LastNewline(s, 1, j)
    case None => k := 1;
    case Some(q) => k := q + 1;
  }

  /** After the second pass, the first one has left no trace. */
  lemma {:induction false} SqueezeAbsorbsCollapse(s: string)
    ensures Squeeze(CollapseBlankLines(s)) == Squeeze(s)
    decreases |s|
  {
    if s == [] {
    } else if !IsSpace(s[0]) {
      var u := CollapseBlankLines(s[1..]);
      assert CollapseBlankLines(s) == [s[0]] + u;
      assert ([s[0]] + u)[1..] == u;
      SqueezeAbsorbsCollapse(s[1..]);
    } else {
      var e := SpaceEnd(s, 0);
      var w := CollapseLead(s, e);
      var u := CollapseBlankLines(s[e..]);
      if e < |s| {
        assert s[e..][0] == s[e];
        assert u[0] == s[e];
      }
      SqueezeSpacePrefix(w, u);
      SqueezeAbsorbsCollapse(s[e..]);
    }
  }

  /** `_clean_text` gives the same text without its first substitution. */
  lemma FirstPassRedundant(s: string)
    ensures CleanText(s) == Strip(KeepPrintable(Squeeze(s)))
  {
    SqueezeAbsorbsCollapse(s);
  }

  // ---------------------------------------------------------------------
  // What the second pass keeps
  // ---------------------------------------------------------------------

  /** The non-whitespace characters of `s`, in order. */
  function NonSpace(s: string): (r: string)
    ensures forall c :: c in r ==> !IsSpace(c)
    decreases |s|
  {
    if s == [] then []
    else if IsSpace(s[0]) then NonSpace(s[1..])
    else [s[0]] + NonSpace(s[1..])
  }

  lemma {:induction false} NonSpaceSkip(s: string, j: nat)
    requires j <= |s| && All(s, 0, j, IsSpace)
    ensures NonSpace(s) == NonSpace(s[j..])
    decreases j
  {
    if j == 0 {
      assert s[0..] == s;
    } else {
      NonSpaceSkip(s[1..], j - 1);
      assert s[1..][j - 1..] == s[j..];
    }
  }

  /** The second pass keeps every other character, in order: only whitespace runs change. */
  lemma {:induction false} SqueezeKeepsWords(s: string)
    ensures NonSpace(Squeeze(s)) == NonSpace(s)
    decreases |s|
  {
    if s == [] {
    } else if IsSpace(s[0]) {
      var e := SpaceEnd(s, 0);
      SpaceRunNonEmpty(s, 0);
      var r := Squeeze(s);
      assert r == [' '] + Squeeze(s[e..]);
      assert r[1..] == Squeeze(s[e..]);
      NonSpaceSkip(s, e);
      SqueezeKeepsWords(s[e..]);
    } else {
      var r := Squeeze(s);
      assert r[1..] == Squeeze(s[1..]);
      SqueezeKeepsWords(s[1..]);
    }
  }

  /** A single-spaced text is left as it is, so the second pass is idempotent. */
  lemma {:induction false} SqueezeFixes(s: string)
    requires SingleSpaced(s)
    ensures Squeeze(s) == s
    decreases |s|
  {
    if s == [] {
    } else if IsSpace(s[0]) {
      if |s| > 1 {
        assert s[1] != ' ';
        SpaceEndAt(s, 0, 1);
      } else {
        SkipWhileUnique(s, 0, 1, IsSpace);
      }
      SqueezeFixes(s[1..]);
    } else {
      SqueezeFixes(s[1..]);
    }
  }

  /** Squeezing twice is squeezing once. */
  lemma SqueezeIdempotent(s: string)
    ensures Squeeze(Squeeze(s)) == Squeeze(s)
  {
    SqueezeFixes(Squeeze(s));
  }

  /** A text the third pass keeps whole is left as it is. */
  lemma {:induction false} KeepPrintableFixes(s: string)
    requires forall c :: c in s ==> Kept(c)
    ensures KeepPrintable(s) == s
    decreases |s|
  {
    if s != [] {
      assert s[0] in s;
      assert forall c :: c in s[1..] ==> c in s;
      KeepPrintableFixes(s[1..]);
    }
  }

  /** A text with no line feed is left as it is by the first pass. */
  lemma {:induction false} CollapseFixes(s: string)
    requires '\n' !in s
    ensures CollapseBlankLines(s) == s
    decreases |s|
  {
    if s != [] {
      assert s[0] in s;
      assert forall c :: c in s[1..] ==> c in s;
      CollapseFixes(s[1..]);
    }
  }

  /**
   * `_clean_text` is not idempotent: a non-printable character between
   * two spaces survives the second pass and is removed by the third,
   * which leaves two spaces side by side for the next cleaning.
   */
  lemma CleanTextNotIdempotent()
    ensures CleanText("a \U{1} b") == "a  b"
    ensures CleanText("a  b") == "a b"
  {
    CleanFirstExample();
    CleanSecondExample();
  }

  lemma CleanFirstExample()
    ensures CleanText("a \U{1} b") == "a  b"
  {
    var s := "a \U{1} b";
    CollapseFixes(s);
    assert SingleSpaced(s);
    SqueezeFixes(s);
    KeepExample();
    StripNoop("a  b");
  }

  lemma CleanSecondExample()
    ensures CleanText("a  b") == "a b"
  {
    CollapseFixes("a  b");
    SqueezeExample();
    KeepPrintableFixes("a b");
    StripNoop("a b");
  }

  /** The third pass on the example removes the control character only. */
  lemma KeepExample()
    ensures KeepPrintable("a \U{1} b") == "a  b"
  {
    assert "b"[1..] == [];
    KeepCons("b");
    assert " b"[1..] == "b";
    KeepCons(" b");
    assert "\U{1} b"[1..] == " b";
    KeepCons("\U{1} b");
    assert " \U{1} b"[1..] == "\U{1} b";
    KeepCons(" \U{1} b");
    assert "a \U{1} b"[1..] == " \U{1} b";
    KeepCons("a \U{1} b");
  }

  /** One step of the third pass. */
  lemma KeepCons(s: string)
    requires s != []
    ensures KeepPrintable(s) == (if Kept(s[0]) then [s[0]] else []) + KeepPrintable(s[1..])
  {
  }

  /** The second pass on the example joins the two spaces. */
  lemma SqueezeExample()
    ensures Squeeze("a  b") == "a b"
  {
    var t := "a  b";
    SpaceEndAt(t[1..], 0, 2);
    assert t[1..] == "  b" && t[1..][2..] == "b";
    assert Squeeze("b") == "b";
    assert Squeeze("  b") == " b";
  }

  // ---------------------------------------------------------------------
  // _convert_pdf
  // ---------------------------------------------------------------------

  /**
   * What PyPDF2 yields: nothing when the reader cannot be built, or the
   * texts of the pages extracted before the first failure (all pages
   * when none fails).
   */
  datatype PdfReading = Unreadable | Pages(texts: seq<string>)

  /** `text += page.extract_text() + "\n"` over the pages. */
  function PageText(pages: seq<string>): string
    decreases |pages|
  {
    if pages == [] then [] else PageText(pages[..|pages| - 1]) + pages[|pages| - 1] + "\n"
  }

  /** The page text is the pages joined by line feeds, with one more at the end. */
  lemma {:induction false} PageTextJoin(pages: seq<string>)
    requires pages != []
    ensures PageText(pages) == Join("\n", pages) + "\n"
    decreases |pages|
  {
    if |pages| > 1 {
      var init := pages[..|pages| - 1];
      PageTextJoin(init);
      JoinSnoc("\n", init, pages[|pages| - 1]);
      assert init + [pages[|pages| - 1]] == pages;
    } else {
      assert pages[..0] == [];
    }
  }

  /** Joining one more part adds the separator and the part at the end. */
  lemma {:induction false} JoinSnoc(sep: string, parts: seq<string>, x: string)
    requires parts != []
    ensures Join(sep, parts + [x]) == Join(sep, parts) + sep + x
    decreases |parts|
  {
    if |parts| > 1 {
      assert (parts + [x])[1..] == parts[1..] + [x];
      JoinSnoc(sep, parts[1..], x);
    } else {
      assert (parts + [x])[1..] == [x];
    }
  }

  /**
   * The text before cleaning: pdfminer's, unless it failed before its
   * text was read back (`None`) or gave only whitespace; then PyPDF2's
   * pages, unless the reader could not be built, in which case the
   * earlier text stays.
   */
  function PdfRaw(miner: Option<string>, reading: PdfReading): string
  {
    var text := if miner.Some? then miner.value else "";
    if Strip(text) != [] then text
    else
      match reading
      case Unreadable => text
      case Pages(pages) => PageText(pages)
  }

  /** `_convert_pdf`: the raw text, cleaned. */
  function PdfText(miner: Option<string>, reading: PdfReading): string
  {
    CleanText(PdfRaw(miner, reading))
  }

  /**
   * PyPDF2 is consulted only when pdfminer gives nothing but whitespace,
   * and then its pages are joined by line feeds before cleaning.
   */
  lemma PdfFallback(miner: Option<string>, reading: PdfReading)
    ensures miner.Some? && Strip(miner.value) != [] ==> PdfText(miner, reading) == CleanText(miner.value)
    ensures (miner.None? || Strip(miner.value) == []) && reading.Pages? && reading.texts != [] ==>
              PdfText(miner, reading) == CleanText(Join("\n", reading.texts) + "\n")
  {
    if reading.Pages? && reading.texts != [] {
      PageTextJoin(reading.texts);
    }
  }

  /** `_convert_pdf`, with the page loop of its fallback. */
  method ConvertPdf(miner: Option<string>, reading: PdfReading) returns (text: string)
    ensures text == PdfText(miner, reading)
  {
    text := "";
    if miner.Some? {
      text := miner.value;
    }
    if Strip(text) == [] {
      if reading.Pages? {
        var pages := reading.texts;
        text := "";
        var i := 0;
        while i < |pages|
          invariant 0 <= i <= |pages|
          invariant text == PageText(pages[..i])
        {
          assert pages[..i + 1][..i] == pages[..i];
          text := text + pages[i] + "\n";
          i := i + 1;
        }
        assert pages[..i] == pages;
      }
    }
    text := CleanText(text);
  }

  // ---------------------------------------------------------------------
  // _convert_docx
  // ---------------------------------------------------------------------

  /** A table row is its cells' texts; a table is its rows. */
  type Row = seq<string>
  type Table = seq<Row>

  /** What python-docx gives: the paragraph texts and the tables, in document order. */
  datatype Document = Document(paragraphs: seq<string>, tables: seq<Table>)

  /** No whitespace at either end of `s`. */
  predicate Trimmed(s: string)
  {
    s == [] || (!IsSpace(s[0]) && !IsSpace(s[|s| - 1]))
  }

  /** `row_text`: the stripped texts of the non-blank cells, in order. */
  function NonBlankCells(cells: Row): (r: seq<string>)
    ensures |r| <= |cells|
    ensures forall k :: 0 <= k < |r| ==> r[k] != [] && Trimmed(r[k])
    decreases |cells|
  {
    if cells == [] then []
    else
      var r := NonBlankCells(cells[..|cells| - 1]);
      var t := Strip(cells[|cells| - 1]);
      if t != [] then
        assert Trimmed(t);
        var r' := r + [t];
        assert forall k :: 0 <= k < |r| ==> r'[k] == r[k];
        r'
      else r
  }

  /** The row has no non-blank cell exactly when every cell strips to nothing. */
  lemma {:induction false} NonBlankCellsEmpty(cells: Row)
    ensures NonBlankCells(cells) == [] <==> forall k :: 0 <= k < |cells| ==> Strip(cells[k]) == []
    decreases |cells|
  {
    if cells != [] {
      var init := cells[..|cells| - 1];
      NonBlankCellsEmpty(init);
      assert forall k :: 0 <= k < |init| ==> init[k] == cells[k];
    }
  }

  /** A row's line in the text: its non-blank cells joined by `" | "`, or nothing. */
  function RowText(cells: Row): Option<string>
  {
    var parts := NonBlankCells(cells);
    if parts == [] then None else Some(Join(" | ", parts))
  }

  /** A join of non-empty trimmed parts is non-empty and trimmed. */
  lemma {:induction false} JoinTrimmed(sep: string, parts: seq<string>)
    requires parts != []
    requires forall k :: 0 <= k < |parts| ==> parts[k] != [] && Trimmed(parts[k])
    ensures var j := Join(sep, parts);
            j != [] && j[0] == parts[0][0] && j[|j| - 1] == parts[|parts| - 1][|parts[|parts| - 1]| - 1]
    decreases |parts|
  {
    if |parts| > 1 {
      var rest := parts[1..];
      JoinTrimmed(sep, rest);
      var j := Join(sep, parts);
      var jr := Join(sep, rest);
      assert j == parts[0] + sep + jr;
      assert j[|j| - 1] == jr[|jr| - 1];
    }
  }

  /**
   * A row gives a line exactly when some cell is not blank, and the line
   * starts with the first non-blank cell and ends with the last, with no
   * whitespace at either end.
   */
  lemma RowTextShape(cells: Row)
    ensures RowText(cells).None? <==> forall k :: 0 <= k < |cells| ==> Strip(cells[k]) == []
    ensures RowText(cells).Some? ==>
              var t := RowText(cells).value;
              var parts := NonBlankCells(cells);
              && t != [] && Trimmed(t)
              && t[0] == parts[0][0] && t[|t| - 1] == parts[|parts| - 1][|parts[|parts| - 1]| - 1]
  {
    var parts := NonBlankCells(cells);
    NonBlankCellsEmpty(cells);
    if parts != [] {
      JoinTrimmed(" | ", parts);
    }
  }

  /** A row with a single non-blank cell gives that cell's text, stripped. */
  lemma RowTextSingle(cells: Row, i: nat)
    requires i < |cells| && Strip(cells[i]) != []
    requires forall k :: 0 <= k < |cells| && k != i ==> Strip(cells[k]) == []
    ensures RowText(cells) == Some(Strip(cells[i]))
  {
    RowTextSingleParts(cells, i);
  }

  lemma {:induction false} RowTextSingleParts(cells: Row, i: nat)
    requires i < |cells| && Strip(cells[i]) != []
    requires forall k :: 0 <= k < |cells| && k != i ==> Strip(cells[k]) == []
    ensures NonBlankCells(cells) == [Strip(cells[i])]
    decreases |cells|
  {
    var init := cells[..|cells| - 1];
    if i == |cells| - 1 {
      assert forall k :: 0 <= k < |init| ==> Strip(init[k]) == [];
      NonBlankCellsEmpty(init);
    } else {
      RowTextSingleParts(init, i);
    }
  }

  /** The lines the rows of one table add, in order. */
  function RowLines(rows: Table): seq<string>
    decreases |rows|
  {
    if rows == [] then []
    else
      RowLines(rows[..|rows| - 1]) +
      match RowText(rows[|rows| - 1])
      case None => []
      case Some(t) => [t]
  }

  /** The lines all tables add, in order. */
  function TablesLines(tables: seq<Table>): seq<string>
    decreases |tables|
  {
    if tables == [] then [] else TablesLines(tables[..|tables| - 1]) + RowLines(tables[|tables| - 1])
  }

  /** Every table line is non-empty and has no whitespace at either end. */
  lemma {:induction false} TablesLinesTrimmed(tables: seq<Table>)
    ensures forall k :: 0 <= k < |TablesLines(tables)| ==> TablesLines(tables)[k] != [] && Trimmed(TablesLines(tables)[k])
    decreases |tables|
  {
    if tables != [] {
      TablesLinesTrimmed(tables[..|tables| - 1]);
      RowLinesTrimmed(tables[|tables| - 1]);
    }
  }

  lemma {:induction false} RowLinesTrimmed(rows: Table)
    ensures forall k :: 0 <= k < |RowLines(rows)| ==> RowLines(rows)[k] != [] && Trimmed(RowLines(rows)[k])
    decreases |rows|
  {
    if rows != [] {
      RowLinesTrimmed(rows[..|rows| - 1]);
      RowTextShape(rows[|rows| - 1]);
    }
  }

  /** `full_text`: the paragraphs, then the table lines. */
  function DocxLines(d: Document): seq<string>
  {
    d.paragraphs + TablesLines(d.tables)
  }

  /** `_convert_docx`: the lines joined by line feeds and cleaned; `""` when the document cannot be read. */
  function DocxText(parsed: Option<Document>): string
  {
    match parsed
    case None => ""
    case Some(d) => CleanText(Join("\n", DocxLines(d)))
  }

  /** `_convert_docx`, with its loops over paragraphs, tables, rows and cells. */
  method ConvertDocx(parsed: Option<Document>) returns (text: string)
    ensures text == DocxText(parsed)
  {
    if parsed.None? {
      return "";
    }
    var doc := parsed.value;
    var fullText: seq<string> := [];
    var i := 0;
    while i < |doc.paragraphs|
      invariant 0 <= i <= |doc.paragraphs|
      invariant fullText == doc.paragraphs[..i]
    {
      fullText := fullText + [doc.paragraphs[i]];
      i := i + 1;
    }
    assert doc.paragraphs[..i] == doc.paragraphs;
    assert TablesLines(doc.tables[..0]) == [];
    assert fullText == doc.paragraphs + TablesLines(doc.tables[..0]);
    var t := 0;
    while t < |doc.tables|
      invariant 0 <= t <= |doc.tables|
      invariant fullText == doc.paragraphs + TablesLines(doc.tables[..t])
    {
      var before := TablesLines(doc.tables[..t]);
      fullText := AppendTableLines(fullText, doc.tables[t]);
      assert doc.tables[..t + 1][..t] == doc.tables[..t];
      assert TablesLines(doc.tables[..t + 1]) == before + RowLines(doc.tables[t]);
      AppendAssoc(doc.paragraphs, before, RowLines(doc.tables[t]));
      t := t + 1;
    }
    assert doc.tables[..t] == doc.tables;
    text := CleanText(Join("\n", fullText));
  }

  /** Concatenation regrouped, stated once so that the loops above and below need not prove it in their own context. */
  lemma AppendAssoc<T>(a: seq<T>, b: seq<T>, c: seq<T>)
    ensures (a + b) + c == a + (b + c)
  {
  }

  /** The loop over the rows of one table: each row with a non-blank cell adds its line. */
  method AppendTableLines(lines: seq<string>, table: Table) returns (out: seq<string>)
    ensures out == lines + RowLines(table)
  {
    out := lines;
    var r := 0;
    while r < |table|
      invariant 0 <= r <= |table|
      invariant out == lines + RowLines(table[..r])
    {
      var rowText := CollectCells(table[r]);
      RowLinesStep(table, r);
      if rowText != [] {
        AppendAssoc(lines, RowLines(table[..r]), [Join(" | ", rowText)]);
        out := out + [Join(" | ", rowText)];
      }
      r := r + 1;
    }
    assert table[..r] == table;
  }

  /** One more row adds its line, if it has one. */
  lemma RowLinesStep(table: Table, r: nat)
    requires r < |table|
    ensures RowLines(table[..r + 1]) == RowLines(table[..r]) + (match RowText(table[r]) case None => [] case Some(t) => [t])
  {
    assert table[..r + 1][..r] == table[..r];
    assert table[..r + 1][r] == table[r];
  }

  /** The loop over the cells of one row, building `row_text`. */
  method CollectCells(cells: Row) returns (rowText: seq<string>)
    ensures rowText == NonBlankCells(cells)
  {
    rowText := [];
    var c := 0;
    while c < |cells|
      invariant 0 <= c <= |cells|
      invariant rowText == NonBlankCells(cells[..c])
    {
      assert cells[..c + 1][..c] == cells[..c];
      var stripped := Strip(cells[c]);
      if stripped != [] {
        rowText := rowText + [stripped];
      }
      c := c + 1;
    }
    assert cells[..c] == cells;
  }

  // ---------------------------------------------------------------------
  // convert_to_text
  // ---------------------------------------------------------------------

  newtype byte = x: int | 0 <= x < 256

  /** The `ValueError` raised for a file type without a converter. */
  datatype ConvertError = UnsupportedFileType(message: string)

  /** The file types `convert_to_text` knows. */
  predicate Supported(fileType: string)
  {
    fileType == "pdf" || fileType == "docx" || fileType == "txt" || fileType == "md"
  }

  /**
   * `convert_to_text`: the converter the file type selects.  `miner` and
   * `reader` stand for pdfminer and PyPDF2 (`miner` gives the text read
   * back from pdfminer, `None` when it raised before that), `parseDocx`
   * for python-docx
   * (`None` when it raises) and `decode` for `bytes.decode('utf-8',
   * errors='replace')`.
   */
  function ConvertToText(content: seq<byte>, fileType: string,
                         miner: seq<byte> -> Option<string>, reader: seq<byte> -> PdfReading,
                         parseDocx: seq<byte> -> Option<Document>, decode: seq<byte> -> string): (r: Result<string, ConvertError>)
    ensures r.Failure? <==> !Supported(fileType)
    ensures r.Failure? ==> r.error.message == "Unsupported file type: " + fileType
  {
    if fileType == "pdf" then Success(PdfText(miner(content), reader(content)))
    else if fileType == "docx" then Success(DocxText(parseDocx(content)))
    else if fileType == "txt" || fileType == "md" then Success(decode(content))
    else Failure(UnsupportedFileType("Unsupported file type: " + fileType))
  }

  /**
   * PDF and DOCX text comes out cleaned: printable ASCII without line
   * feeds and without whitespace at either end.  Plain text and Markdown
   * come out exactly as decoded, line feeds and all.
   */
  lemma ConvertedText(content: seq<byte>, fileType: string,
                      miner: seq<byte> -> Option<string>, reader: seq<byte> -> PdfReading,
                      parseDocx: seq<byte> -> Option<Document>, decode: seq<byte> -> string)
    ensures var r := ConvertToText(content, fileType, miner, reader, parseDocx, decode);
            (fileType == "pdf" || fileType == "docx") ==>
              r.Success? && (forall c :: c in r.value ==> ' ' <= c <= '~') && Trimmed(r.value)
    ensures var r := ConvertToText(content, fileType, miner, reader, parseDocx, decode);
            (fileType == "txt" || fileType == "md") ==> r == Success(decode(content))
  {
    if fileType == "pdf" {
      CleanTextPrintable(PdfRaw(miner(content), reader(content)));
    } else if fileType == "docx" && parseDocx(content).Some? {
      CleanTextPrintable(Join("\n", DocxLines(parseDocx(content).value)));
    }
  }
}
