/**
 * `ResumeParser.parse_resume`: the six extractors applied to one
 * resume text.  The language model that finds the author's name is a
 * parameter: the entities it reports for the text.
 */
module ResumeParser {
  import opened Wrappers
  import opened Text
  import opened Regex
  import opened PersonalInfo
  import opened Skills
  import opened Experience
  import opened Education
  import opened Projects
  import opened Certifications

  /** The parsed resume, one field per key of the dictionary `parse_resume` builds. */
  datatype Resume = Resume(
    personalInfo: PersonalInfo,
    skills: set<string>,
    workExperience: seq<WorkExperience>,
    education: seq<EducationEntry>,
    projects: seq<Project>,
    certifications: seq<string>)

  /**
   * `parse_resume`.  The personal information is extracted first, and its
   * phone step can raise; the other extractors cannot fail.
   */
  function ParseResume(s: string, ents: seq<Entity>): (r: Result<Resume, PhoneError>)
    ensures r.Failure? <==> Phone(s).Failure?
    ensures r.Success? ==> r.value.personalInfo.name == Name(ents) && r.value.personalInfo.email == Email(s)
    ensures r.Success? ==> Phone(s) == Success(r.value.personalInfo.phone)
  {
    match ExtractPersonalInfo(s, ents)
    case Failure(e) => Failure(e)
    case Success(info) =>
      Success(Resume(info, ExtractSkills(s), ExtractWorkExperience(s), ExtractEducation(s),
                     ExtractProjects(s), ExtractCertifications(s)))
  }

  /**
   * What every parsed resume satisfies: the projects list is empty, the
   * skills come from the catalogue, work experience uses two bars per
   * entry and education one, every certification a dash, and the
   * location is the first line's second field.
   */
  lemma ParsedResumeFacts(s: string, ents: seq<Entity>)
    requires ParseResume(s, ents).Success?
    ensures var p := ParseResume(s, ents).value;
            && p.projects == []
            && (forall t :: t in p.skills ==> t in Catalogue)
            && 2 * |p.workExperience| <= Count(s, '|')
            && |p.education| <= Count(s, '|')
            && |p.certifications| <= Count(s, '-')
            && p.personalInfo.location == Location(s)
            && (p.workExperience != [] ==> p.education != [])
  {
    ProjectsAlwaysEmpty(s);
    WorkExperienceCount(s);
    EducationCount(s);
    CertificationCount(s);
    if ExtractWorkExperience(s) != [] {
      JobImpliesEducation(s);
    }
  }

  /**
   * Wherever the work-experience pattern matches, the education pattern
   * matches too, with a degree no longer than the job title: a job line
   * is also read as an education entry.
   */
  lemma JobLinesAreEducation(s: string, i: nat)
    requires JobAt(s, i).Some?
    ensures EduAt(s, i).Some? && EduAt(s, i).value.groups.e1 <= JobAt(s, i).value.groups.e1
  {
    var e1 := TitleEnd(s, i).value;
    assert JobAt(s, i).value.groups.e1 == e1;
    assert DegreeWorks(s, e1);
  }

  /** A text with a work-experience entry also has an education entry: the first job's line is read as one. */
  lemma JobImpliesEducation(s: string)
    requires ExtractWorkExperience(s) != []
    ensures ExtractEducation(s) != []
  {
    JobsWithin(s);
    var jat := (p: nat) => JobAt(s, p);
    var jobs := Jobs(s);
    assert jobs == FindAll(|s|, 0, jat);
    var i := jobs[0].start;
    assert jat(i) == Some(Hit(jobs[0].groups, jobs[0].end));
    JobLinesAreEducation(s, i);
    EdusWithin(s);
    var eat := (p: nat) => EduAt(s, p);
    FindAllNonEmpty(|s|, 0, eat, i);
    assert Edus(s) == FindAll(|s|, 0, eat);
  }
}
