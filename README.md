# ResumeParser in Dafny

ResumeParser turns the text of a resume into a structured record. It has two
parts.

- `FileConverter` gets plain text out of an uploaded file. A PDF goes through
  pdfminer, with PyPDF2 as a fallback. A DOCX goes through python-docx: its
  paragraphs come first, then every table row with its non-blank cells joined
  by `" | "`. TXT and MD files are decoded as UTF-8. PDF and DOCX text then
  passes through `_clean_text`.
- `ResumeParser.parse_resume` reads that text with regular expressions and
  builds one record. Its fields are:
  - personal information: the name, the email address, the phone number and
    the location;
  - the skills from a fixed catalogue;
  - work experience, as lines `title | company | Mon YYYY - Mon YYYY`;
  - education, as lines `degree | institution`;
  - the projects of a "Project" section;
  - certifications, as lines `- ... Certified ...`.

The model follows the code, one pattern at a time. Python's `re` engine
becomes, for each pattern, a scanner (`EmailAt`, `PhoneAt`, `JobAt`, `EduAt`,
`SectionAt`, `ProjectAt`, `CertAt`). A scanner returns what the engine
returns when the pattern is tried at one position. Beside each scanner, a
ghost predicate says when the pattern matches there, following the pattern's
syntax; lemmas show that the scanner returns the match the engine prefers
(greedy or lazy, as written). `Regex.Search` and `Regex.FindAll` are
`re.search` and `re.findall` over any such scanner.

The modules are:

- `Text`: the string operations used: `strip`, `split`, `lower` and `in`.
  `\s` and `strip` use Python's exact whitespace set, Unicode spaces and
  line separators included; `\d`, `\w` (and so `\b`) and `lower` are
  ASCII.
- `Regex`: `Search` and `FindAll`.
- `PersonalInfo`: email, phone, name, location and `_extract_personal_info`.
- `Skills`, `Experience`, `Education`, `Projects`, `Certifications`: one
  extractor each.
- `FileConverter`: `_clean_text`, `_convert_pdf` and `_convert_docx`, the
  latter two with their loops as methods, and the `convert_to_text`
  dispatch.
- `ResumeParser`: `parse_resume`.

Where the code does something other than what its comments and docstrings
describe, the model follows the code:

- The phone step joins `phone_match.groups()`. When the optional country
  group did not take part, that join raises `TypeError` on `None`. The model
  returns `Failure(UnmatchedCountryCode)` there, and so does the whole parse.
  A number written without a country code is therefore an error, not a phone.
- The projects step can never return a project. Its section pattern stops
  before `\n\n` or `\n#`, so the section it captures contains no line feed
  followed by `#` and none at its end. The inner pattern needs one of those.
  The result is always `[]`.
- Work experience needs `Month YYYY - Month YYYY`, so a range ending in
  "Present" is not read: a text in which no digit follows a dash has no
  work experience at all.
- The education pattern reads every line that holds a `|`, unless an
  earlier entry has already taken it. That includes the header line and
  every work-experience line, so a resume with work experience always has
  education entries.
- The `\s*` after the education bar crosses line feeds. When a bar ends
  its line, the institution is the next non-blank line, and that line
  yields no entry of its own: "A |\nB | C" gives the one entry
  ("A", "B | C").
- The certification pattern is not anchored to the start of a line. Any
  `- ` followed later on the same line by "Certified" is read.
- The email top-level-domain class `[A-Z|a-z]` admits a literal `|`.
- `_clean_text`'s first substitution is redundant: the second one removes
  every trace of it. `_clean_text` is not idempotent either: removing a
  control character can leave two spaces next to each other.
- TXT and MD text is returned as decoded, without cleaning.
- If pdfminer yields only whitespace and PyPDF2's reader cannot be built,
  the pdfminer text is the text that gets cleaned.

## Model

| member | source | states |
|---|---|---|
| ResumeParser.ParseResume | resume_parser.py:25-37 | the parse fails exactly when the phone step raises; otherwise the record carries the name, email and phone that those steps give |
| ResumeParser.ParsedResumeFacts | resume_parser.py:25-37 | every parsed record has no project, only catalogue skills, at most half as many jobs as bars, at most as many education entries as bars, at most as many certifications as dashes, the first line's second field as location, and education entries whenever it has work experience |
| ResumeParser.JobLinesAreEducation | resume_parser.py:86-87 | wherever the job pattern matches, the education pattern matches too, with a degree no longer than the title |
| ResumeParser.JobImpliesEducation | resume_parser.py:81-110 | a text with a work-experience entry has an education entry too |
| PersonalInfo.ExtractPersonalInfo | resume_parser.py:39-61 | the personal information fails exactly when the phone step fails |
| PersonalInfo.EmailAtLongest | resume_parser.py:44 | at each position the email scanner returns the longest match of the pattern, and nothing exactly when the pattern cannot match there |
| PersonalInfo.EmailIsFirstMatch | resume_parser.py:44-45 | the email is None exactly when the pattern matches nowhere; otherwise it is the longest match at the leftmost matching position |
| PersonalInfo.EmailLooksLikeAnAddress | resume_parser.py:44 | every email match holds one `@` and ends in a dot followed by at least two domain characters |
| PersonalInfo.TldEnd | resume_parser.py:44 | the greedy `{2,}` top-level domain ends at the last word boundary it can reach, or there is none |
| PersonalInfo.DomainBacktrack | resume_parser.py:44 | backtracking over the domain finds the longest domain-dot-TLD tail, or proves there is none |
| PersonalInfo.TailsBeforeDotEndThere | resume_parser.py:44 | a top-level domain never runs across a later dot |
| PersonalInfo.PhoneAtGreediest | resume_parser.py:47-48 | at each position the phone scanner returns the match with the longest country group, and nothing exactly when the pattern cannot match there |
| PersonalInfo.PhoneLead | resume_parser.py:47 | trying country groups from the longest down gives the best match whose group is no longer than the bound, or shows that every match's group is longer |
| PersonalInfo.LeadSkipped | resume_parser.py:47 | with the country group skipped, the scanner gives the best match within that bound, or none exists |
| PersonalInfo.PhoneTail | resume_parser.py:47 | the three digit groups after the country group, with optional separators, start inside the text |
| PersonalInfo.PhoneTailForced | resume_parser.py:47 | every way the pattern can match after a given country group is the one the tail scanner finds |
| PersonalInfo.PhoneTailSound | resume_parser.py:47 | what the tail scanner finds, with a valid country group before it, is a match of the pattern |
| PersonalInfo.LeadShape | resume_parser.py:47 | a taken country group is the optional `+` and one to three of the digits after it |
| PersonalInfo.TailBest | resume_parser.py:47 | a country group of a given length that the tail can follow gives the best match for that length |
| PersonalInfo.SameLeadGroups | resume_parser.py:47 | all matches at one position with country groups of one length capture the same four groups |
| PersonalInfo.LeadBound | resume_parser.py:47 | no country group is longer than the optional `+` plus the digits after it |
| PersonalInfo.PhoneSearchLeftmost | resume_parser.py:48 | `re.search` returns the greediest match at the leftmost position where the pattern matches, and nothing when it matches nowhere |
| PersonalInfo.PhoneAbsent | resume_parser.py:49-52 | the phone is None exactly when the pattern matches nowhere |
| PersonalInfo.PhoneFails | resume_parser.py:49-50 | the join raises exactly when no match at the leftmost matching position takes the country group |
| PersonalInfo.GreediestCountry | resume_parser.py:47-50 | the greediest match leaves the country group out exactly when every match there does |
| PersonalInfo.PhoneShape | resume_parser.py:47-50 | a phone found is an optional `+` followed by 11 to 13 digits: a one- to three-digit country code and ten digits |
| PersonalInfo.PhoneJoined | resume_parser.py:50 | the phone is the four groups of the leftmost match concatenated |
| PersonalInfo.PhoneWithoutCountryCodeFails | resume_parser.py:47-50 | "555-123-4567" makes the phone step raise |
| PersonalInfo.PhoneWithCountryCode | resume_parser.py:47-50 | "+1 555 123 4567" gives the phone "+15551234567" |
| PersonalInfo.PhoneAtStart | resume_parser.py:48 | a match at the very start is the one `re.search` returns |
| PersonalInfo.Name | resume_parser.py:54-57 | the name is None exactly when no entity is labelled PERSON; otherwise it is the text of the first such entity |
| PersonalInfo.FirstLine | resume_parser.py:145 | the first line of the stripped text runs up to its first line feed and holds none |
| PersonalInfo.LocationIsSecondField | resume_parser.py:140-150 | the location is None exactly when the first line has no bar; otherwise it is the stripped text between its first and second bars |
| PersonalInfo.LocationShape | resume_parser.py:145-149 | a location holds no line feed and no bar, and has no whitespace at either end |
| PersonalInfo.LocationExample | resume_parser.py:143-149 | "A \| B" on the first line gives the location "B" |
| Skills.Found | resume_parser.py:74-77 | a keyword is found exactly when it is in the catalogue and the text mentions it |
| Skills.ExtractSkills | resume_parser.py:63-79 | every skill returned is in the catalogue |
| Skills.SkillIffOccurs | resume_parser.py:68-79 | a skill is returned exactly when it is a catalogue keyword that occurs in the lower-cased text |
| Skills.CatalogueIsLowerCase | resume_parser.py:68-71 | every keyword is its own lower case, so `skill.lower()` changes nothing |
| Skills.JavaScriptImpliesJava | resume_parser.py:74-77 | a text reported as knowing "javascript" is also reported as knowing "java" |
| Skills.EmailMentionsAi | resume_parser.py:74-77 | the text "Email" is reported as knowing "ai" |
| Experience.MonthYearForced | resume_parser.py:86 | any match of `[A-Za-z]+\s+\d{4}` is the one its scanner finds |
| Experience.DateRangeEndIff | resume_parser.py:86 | the date-range scanner finds an end exactly when the third group's pattern matches up to it |
| Experience.TailSound | resume_parser.py:86 | what the scanner for `\s*\|\s*` plus a date range finds matches that part of the pattern |
| Experience.TailForced | resume_parser.py:86 | any match of that part is the one its scanner finds |
| Experience.CompanyEnd | resume_parser.py:86 | the lazy company group ends at the first point on its line that the rest of the pattern can follow |
| Experience.TitleEnd | resume_parser.py:86 | the lazy title group ends at the first point on its line that the rest of the pattern can follow |
| Experience.JobAtFirst | resume_parser.py:86-87 | at each position the scanner returns the match with the shortest title and, for it, the shortest company; nothing exactly when the pattern cannot match there |
| Experience.JobAtShape | resume_parser.py:86 | every match has its two bars, its groups on one line and a date range as third group; each bar stands where the whitespace after the group before it stops, and the company and the duration start where the whitespace after their bar stops |
| Experience.Jobs | resume_parser.py:87 | every match `re.findall` collects starts where its groups say and has that layout |
| Experience.ExtractWorkExperience | resume_parser.py:81-95 | one entry per match; title and company are one line each, and the duration runs from a letter to a digit |
| Experience.WorkExperienceMatches | resume_parser.py:87-95 | each entry holds the stripped title and company and the whole date range of the match the scan reached: the title from the match start, the company and the duration each from where the whitespace after its bar stops |
| Experience.WorkExperienceCount | resume_parser.py:81-95 | there are at most half as many entries as bars in the text |
| Experience.JobNeedsDigitAfterDash | resume_parser.py:86 | every match has a digit somewhere after a dash, the year of its second month |
| Experience.NoDigitAfterDashNoEntry | resume_parser.py:81-95 | a text in which no digit follows a dash has no work-experience entry |
| Experience.PresentNotRead | resume_parser.py:86-87 | "Dev \| Acme \| January 2020 - Present" followed by a bullet line gives no entry |
| Education.DegreeEnd | resume_parser.py:102 | the lazy degree group ends at the first point on its line where `\s*\|` follows |
| Education.EduAtShape | resume_parser.py:102 | every match has its bar where the whitespace after the degree stops, its institution starting where the whitespace after the bar stops, and ends where its line ends |
| Education.EduAtFirst | resume_parser.py:102-103 | at each position the scanner returns the match with the shortest degree, and nothing exactly when the pattern cannot match there |
| Education.ExtractEducation | resume_parser.py:97-110 | one entry per match, and neither field spans a line break |
| Education.EducationMatches | resume_parser.py:103-110 | each entry holds the stripped degree from the match start to the first bar, and the stripped text from where the whitespace after the bar ends to the end of that line, which is a later line when the bar ends its own; each comes from the match the scan reached |
| Education.EducationCount | resume_parser.py:97-110 | there are at most as many entries as bars in the text |
| Education.NoBarNoEducation | resume_parser.py:102-103 | text without a bar has no education entry |
| Education.InstitutionOnNextLine | resume_parser.py:102-110 | "A \|" followed by the line "B \| C" gives the one entry ("A", "B \| C") |
| Projects.SectionEnd | resume_parser.py:117 | the lazy section group stops at the first `\n\n` or `\n#` lookahead |
| Projects.SectionAtFirst | resume_parser.py:117 | the section scanner returns the shortest match, and nothing exactly when the pattern cannot match there |
| Projects.ProjectEnd | resume_parser.py:120 | the lazy description stops at the first `\n###` or final-`\n` lookahead |
| Projects.NewlinesToSpaces | resume_parser.py:126 | line feeds become spaces and nothing else changes |
| Projects.ProjectsIn | resume_parser.py:120-128 | no project description holds a line feed |
| Projects.NoProjectStopInSection | resume_parser.py:117-121 | a captured section has no point where the inner lookahead holds |
| Projects.ProjectsAlwaysEmpty | resume_parser.py:112-129 | the projects list is empty for every text |
| Projects.ProjectPatternAlone | resume_parser.py:120-128 | the inner pattern alone, on "### A\nB\n", finds the project ("A", "B") |
| Certifications.CertAtIff | resume_parser.py:136 | the scanner finds a match exactly when the pattern matches, and the match runs to the end of the line |
| Certifications.ExtractCertifications | resume_parser.py:131-138 | one certification per match, each the match's group |
| Certifications.CertificationShape | resume_parser.py:136-138 | each certification contains "Certified", stays on one line, runs to its end, and follows a dash and a space |
| Certifications.CertificationsOnePerLine | resume_parser.py:136-137 | a line feed separates consecutive certifications |
| Certifications.CertificationCount | resume_parser.py:131-138 | there are at most as many certifications as dashes |
| Regex.Search | resume_parser.py:48 | the first position where the scanner matches, and none before it |
| Regex.FindAll | resume_parser.py:87 | the matches are in order, non-overlapping, and each is what the scanner returns at its start |
| Regex.FindAllBetween | resume_parser.py:87 | the scanner matches nowhere between consecutive matches |
| Regex.FindAllGaps | resume_parser.py:87 | nothing is skipped: the scanner matches nowhere before the first match, between two matches or after the last |
| Regex.FindAllBefore | resume_parser.py:87 | the scanner matches nowhere before the first match, or anywhere when there is none |
| Regex.FindAllOrdered | resume_parser.py:87 | any earlier match ends before any later one starts |
| Regex.FindAllAfter | resume_parser.py:87 | the scanner matches nowhere after the last match |
| Regex.FindAllNonEmpty | resume_parser.py:87 | a scan finds a match when the pattern matches at some position it passes |
| Regex.FindAllCount | resume_parser.py:87 | if each match holds k copies of a character, k times the match count is at most the count of that character |
| Text.Strip | resume_parser.py:91-93 | the stripped text is the original with its leading and trailing whitespace cut off, and it neither starts nor ends with whitespace |
| Text.Split | resume_parser.py:145-147 | the pieces number one more than the separators, and none holds the separator |
| Text.SplitJoin | resume_parser.py:145-147 | joining the pieces with the separator gives back the text |
| Text.Lower | resume_parser.py:76 | lower-casing keeps the length and maps each character |
| Text.Find | resume_parser.py:76 | the first occurrence at or after a position, or none |
| FileConverter.Squeeze | file_converter.py:114 | the second pass leaves single spaces only, is empty exactly when its input is, and starts with a space exactly when the input starts with whitespace |
| FileConverter.SqueezeKeepsWords | file_converter.py:114 | the second pass keeps every non-whitespace character, in order |
| FileConverter.SqueezeIdempotent | file_converter.py:114 | squeezing twice is squeezing once |
| FileConverter.KeepPrintableChars | file_converter.py:117 | the third pass keeps exactly the printable ASCII characters and line feeds |
| FileConverter.CleanTextPrintable | file_converter.py:107-119 | cleaned text is printable ASCII, with no whitespace at either end |
| FileConverter.SqueezeAbsorbsCollapse | file_converter.py:111-114 | squeezing after the first pass is the same as squeezing the original |
| FileConverter.FirstPassRedundant | file_converter.py:107-119 | `_clean_text` gives the same text without its first substitution |
| FileConverter.CleanTextNotIdempotent | file_converter.py:107-119 | cleaning "a \x01 b" gives "a  b", and cleaning that gives "a b" |
| FileConverter.PdfFallback | file_converter.py:42-78 | pdfminer's text is used when it has a non-whitespace character; otherwise PyPDF2's pages joined by line feeds |
| FileConverter.ConvertPdf | file_converter.py:42-78 | the page loop gives the text the PDF specification function describes |
| FileConverter.NonBlankCells | file_converter.py:94-97 | `row_text` holds at most one entry per cell, each non-empty and without whitespace at either end |
| FileConverter.NonBlankCellsEmpty | file_converter.py:94-98 | a row adds nothing exactly when every cell strips to nothing |
| FileConverter.RowTextShape | file_converter.py:94-99 | a row's line exists exactly when a cell is not blank; it is non-empty, trimmed, and runs from the first to the last non-blank cell |
| FileConverter.RowTextSingle | file_converter.py:94-99 | a row with one non-blank cell gives that cell stripped |
| FileConverter.TablesLinesTrimmed | file_converter.py:92-99 | every table line is non-empty and trimmed |
| FileConverter.CollectCells | file_converter.py:94-97 | the cell loop builds exactly the row's non-blank cells |
| FileConverter.AppendTableLines | file_converter.py:93-99 | the row loop appends exactly the table's row lines |
| FileConverter.ConvertDocx | file_converter.py:81-105 | the paragraph and table loops give the DOCX specification function's text, or "" when the document cannot be read |
| FileConverter.ConvertToText | file_converter.py:21-39 | the conversion fails exactly for an unsupported type, with the source's message |
| FileConverter.ConvertedText | file_converter.py:21-39 | PDF and DOCX text is printable ASCII and trimmed; TXT and MD text is exactly the decoded bytes |

## Left out

- Unicode: `\d`, `\w` (and so `\b`) and `str.lower` are modelled over
  ASCII only; Python's `str` patterns and `lower` also accept non-ASCII
  digits, letters and case mappings.
- The language model: spaCy's named entities are a parameter (`ents`) of the
  name step and of the parse; loading and downloading models (`__init__`,
  NLTK downloads) is left out.
- The file libraries: pdfminer, PyPDF2, python-docx and the UTF-8 decoder
  are parameters of `ConvertToText`. pdfminer's parameter is the text the
  source reads back at file_converter.py:59, and `None` only when a raise
  comes before that line; a raise from the two `close` calls after it
  leaves that text in place, and the parameter is then that text. The
  PyPDF2 reader is `Unreadable` when its constructor raises; otherwise it
  gives the texts of the pages read before any failure, as the source's
  loop leaves them. python-docx is `None` when it raises.
- Skills.ExtractSkills: returns a set; the order of `list(set(...))` is not
  modelled.
- The `print` diagnostics, `main` and the JSON dump, and the dictionary
  shape of the result are left out; records are datatypes.
- PersonalInfo.ExtractPersonalInfo: the `TypeError` of the phone join is a
  `Failure` value, not an exception.
- app.py is not part of this model.
