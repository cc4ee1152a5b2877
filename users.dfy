/** The account side of the schema (backend/users/models.py): users, their two kinds of
    profile, skills and identity documents. Choice fields are closed datatypes, except the
    skill category, which the sample-data loader fills with values outside its choice list. */
module Users {
  import opened Common

  /** USER_ROLES. */
  datatype Role = JobSeeker | JobPoster | Admin

  /** VERIFICATION_STATUS. */
  datatype VerificationStatus = Pending | UnderReview | Verified | Rejected

  /** VerificationDocument.DOCUMENT_TYPES. */
  datatype DocumentType = Aadhaar | Pan | DrivingLicense | VoterId | Passport

  /** EXPERIENCE_LEVELS, shared by seeker profiles and jobs. */
  datatype ExperienceLevel = Entry | Mid | Senior | Expert

  /** JobPosterProfile.COMPANY_SIZES. */
  datatype CompanySize = Startup | Small | Medium | Large | Enterprise

  /** JobSeekerSkill.PROFICIENCY_LEVELS. */
  datatype Proficiency = Beginner | Intermediate | Advanced | Expert

  /** Skill.SKILL_CATEGORIES, as stored strings. Nothing checks a category against it on save. */
  const SkillCategories: set<string> := {
    "construction", "manufacturing", "transportation", "hospitality", "healthcare_support",
    "retail", "agriculture", "logistics", "maintenance", "other"
  }

  /** Files a verification document may hold. */
  const DocumentExtensions: set<string> := {"jpg", "jpeg", "png", "pdf"}

  /** Files a seeker's resume may hold. */
  const ResumeExtensions: set<string> := {"pdf", "doc", "docx"}

  datatype User = User(
    id: Id,
    email: string,
    username: string,
    firstName: string,
    lastName: string,
    role: Role,
    phoneNumber: Option<string>,
    isActive: bool,
    isVerified: bool,
    verificationStatus: VerificationStatus)

  datatype VerificationDocument = VerificationDocument(
    id: Id,
    user: Id,
    documentType: DocumentType,
    documentNumber: Option<string>)

  datatype JobSeekerProfile = JobSeekerProfile(
    id: Id,
    user: Id,
    bio: Option<string>,
    experienceLevel: ExperienceLevel,
    location: Option<string>,
    city: Option<string>,
    state: Option<string>,
    availability: bool)

  datatype JobPosterProfile = JobPosterProfile(
    id: Id,
    user: Id,
    companyName: string,
    companyDescription: Option<string>,
    companySize: Option<CompanySize>,
    industry: Option<string>,
    website: Option<string>,
    address: Option<string>,
    city: Option<string>,
    state: Option<string>,
    isCompanyVerified: bool)

  datatype Skill = Skill(
    id: Id,
    name: string,
    category: string,
    description: Option<string>,
    isActive: bool)

  datatype JobSeekerSkill = JobSeekerSkill(
    id: Id,
    jobSeeker: Id,
    skill: Id,
    proficiency: Proficiency,
    yearsOfExperience: nat)

  /** A user built from its required fields; every other field takes its declared default. */
  function NewUser(id: Id, email: string): (u: User)
    ensures u.id == id && u.email == email
    ensures u.role == JobSeeker && !u.isVerified && u.verificationStatus == Pending
    ensures u.isActive && u.phoneNumber.None?
  {
    User(id, email, "", "", "", JobSeeker, None, true, false, Pending)
  }

  function NewDocument(id: Id, user: Id, documentType: DocumentType): (d: VerificationDocument)
    ensures d.id == id && d.user == user && d.documentType == documentType && d.documentNumber.None?
  {
    VerificationDocument(id, user, documentType, None)
  }

  function NewSeekerProfile(id: Id, user: Id): (p: JobSeekerProfile)
    ensures p.id == id && p.user == user
    ensures p.experienceLevel == Entry && p.availability
  {
    JobSeekerProfile(id, user, None, Entry, None, None, None, true)
  }

  function NewPosterProfile(id: Id, user: Id, companyName: string): (p: JobPosterProfile)
    ensures p.id == id && p.user == user && p.companyName == companyName
    ensures p.companySize.None? && !p.isCompanyVerified
  {
    JobPosterProfile(id, user, companyName, None, None, None, None, None, None, None, false)
  }

  function NewSkill(id: Id, name: string): (s: Skill)
    ensures s.id == id && s.name == name
    ensures s.category == "other" && s.category in SkillCategories && s.isActive
  {
    Skill(id, name, "other", None, true)
  }

  function NewSeekerSkill(id: Id, jobSeeker: Id, skill: Id): (s: JobSeekerSkill)
    ensures s.id == id && s.jobSeeker == jobSeeker && s.skill == skill
    ensures s.proficiency == Beginner && s.yearsOfExperience == 0
  {
    JobSeekerSkill(id, jobSeeker, skill, Beginner, 0)
  }

  // Keys of the constraints and references, named so that every table invariant speaks of
  // the same function.

  function UserId(u: User): Id { u.id }
  function UserEmail(u: User): string { u.email }
  function DocumentId(d: VerificationDocument): Id { d.id }
  function DocumentUser(d: VerificationDocument): Id { d.user }
  function DocumentKey(d: VerificationDocument): (Id, DocumentType) { (d.user, d.documentType) }
  function SeekerProfileId(p: JobSeekerProfile): Id { p.id }
  function SeekerProfileUser(p: JobSeekerProfile): Id { p.user }
  function PosterProfileId(p: JobPosterProfile): Id { p.id }
  function PosterProfileUser(p: JobPosterProfile): Id { p.user }
  function SkillId(s: Skill): Id { s.id }
  function SkillName(s: Skill): string { s.name }
  function SeekerSkillId(s: JobSeekerSkill): Id { s.id }
  function SeekerSkillKey(s: JobSeekerSkill): (Id, Id) { (s.jobSeeker, s.skill) }
  function SeekerSkillProfile(s: JobSeekerSkill): Id { s.jobSeeker }
  function SeekerSkillSkill(s: JobSeekerSkill): Id { s.skill }
}
