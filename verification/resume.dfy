/*
 * The résumé shapes shared by the parser and the change summary.
 * Optional properties are `Option`s; everything else is required.
 */
module Resume {
  import opened Wrappers

  datatype PersonalInfo = PersonalInfo(
    name: string,
    email: string,
    phone: string,
    location: string,
    linkedin: Option<string>,
    github: Option<string>,
    website: Option<string>)

  datatype Skills = Skills(
    technical: seq<string>,
    soft: seq<string>,
    tools: seq<string>,
    languages: Option<seq<string>>)

  datatype Experience = Experience(
    title: string,
    company: string,
    duration: string,
    description: seq<string>,
    technologies: seq<string>,
    achievements: Option<seq<string>>)

  datatype Project = Project(
    name: string,
    description: string,
    technologies: seq<string>,
    achievements: seq<string>,
    url: Option<string>,
    github: Option<string>)

  datatype Education = Education(
    degree: string,
    institution: string,
    year: string,
    gpa: Option<string>,
    relevantCourses: Option<seq<string>>)

  datatype Certification = Certification(
    name: string,
    issuer: string,
    date: string,
    url: Option<string>,
    expiryDate: Option<string>)

  datatype ResumeContent = ResumeContent(
    personalInfo: PersonalInfo,
    professionalSummary: Option<string>,
    skills: Skills,
    experience: seq<Experience>,
    projects: seq<Project>,
    education: seq<Education>,
    achievements: Option<seq<string>>,
    certifications: Option<seq<Certification>>)
}
