/** The job side of the schema (backend/jobs/models.py): categories, jobs, skill requirements,
    bookmarks and reports, and the publication stamp that `Job.save` applies. */
module Jobs {
  import opened Common
  import Users

  /** Job.JOB_TYPES. */
  datatype JobType = FullTime | PartTime | Contract | Temporary | Internship

  /** Job.SALARY_TYPES (also the offer's salary types). */
  datatype SalaryType = Hourly | Daily | Weekly | Monthly | Yearly | Project

  /** Job.STATUS_CHOICES. */
  datatype JobStatus = Draft | Active | Paused | Closed | Expired

  /** JobSkillRequirement.REQUIREMENT_LEVELS. */
  datatype RequirementLevel = Required | Preferred | NiceToHave

  /** JobReport.REPORT_REASONS. */
  datatype ReportReason = Spam | Inappropriate | Fake | Duplicate | Misleading | Other

  /** JobReport.REPORT_STATUS. */
  datatype ReportStatus = Pending | Reviewed | Resolved | Dismissed

  datatype JobCategory = JobCategory(
    id: Id,
    name: string,
    description: Option<string>,
    icon: Option<string>,
    isActive: bool)

  datatype Job = Job(
    id: Id,
    title: string,
    category: Id,
    postedBy: Id,
    company: Id,
    jobType: JobType,
    experienceLevel: Users.ExperienceLevel,
    location: string,
    city: string,
    state: string,
    isRemote: bool,
    salaryMin: Option<int>,
    salaryMax: Option<int>,
    salaryType: SalaryType,
    applicationDeadline: Option<Time>,
    status: JobStatus,
    isFeatured: bool,
    viewsCount: nat,
    applicationsCount: nat,
    publishedAt: Option<Time>)

  datatype JobSkillRequirement = JobSkillRequirement(
    id: Id,
    job: Id,
    skill: Id,
    level: RequirementLevel,
    minExperienceYears: nat)

  datatype JobBookmark = JobBookmark(id: Id, user: Id, job: Id)

  datatype JobReport = JobReport(
    id: Id,
    job: Id,
    reportedBy: Id,
    reason: ReportReason,
    status: ReportStatus)

  function NewCategory(id: Id, name: string): (c: JobCategory)
    ensures c.id == id && c.name == name && c.isActive
    ensures c.description.None? && c.icon.None?
  {
    JobCategory(id, name, None, None, true)
  }

  /** A job built from its required fields; the rest take their declared defaults. */
  function NewJob(id: Id, title: string, category: Id, postedBy: Id, company: Id,
                  location: string, city: string, state: string): (j: Job)
    ensures j.id == id && j.title == title && j.category == category
    ensures j.postedBy == postedBy && j.company == company
    ensures j.location == location && j.city == city && j.state == state
    ensures j.status == Draft && j.viewsCount == 0 && j.applicationsCount == 0
    ensures j.publishedAt.None? && j.jobType == FullTime && j.salaryType == Monthly
    ensures j.experienceLevel == Users.Entry && !j.isFeatured && !j.isRemote
  {
    Job(id, title, category, postedBy, company, FullTime, Users.Entry, location, city, state,
        false, None, None, Monthly, None, Draft, false, 0, 0, None)
  }

  function NewRequirement(id: Id, job: Id, skill: Id): (r: JobSkillRequirement)
    ensures r.id == id && r.job == job && r.skill == skill
    ensures r.level == Required && r.minExperienceYears == 0
  {
    JobSkillRequirement(id, job, skill, Required, 0)
  }

  function NewReport(id: Id, job: Id, reportedBy: Id, reason: ReportReason): (r: JobReport)
    ensures r.id == id && r.job == job && r.reportedBy == reportedBy && r.reason == reason
    ensures r.status == Pending
  {
    JobReport(id, job, reportedBy, reason, Pending)
  }

  // Keys of the constraints and references.

  function CategoryId(c: JobCategory): Id { c.id }
  function CategoryName(c: JobCategory): string { c.name }
  function JobId(j: Job): Id { j.id }
  function JobCategoryOf(j: Job): Id { j.category }
  function JobPostedBy(j: Job): Id { j.postedBy }
  function JobCompany(j: Job): Id { j.company }
  function RequirementId(r: JobSkillRequirement): Id { r.id }
  function RequirementKey(r: JobSkillRequirement): (Id, Id) { (r.job, r.skill) }
  function RequirementJob(r: JobSkillRequirement): Id { r.job }
  function RequirementSkill(r: JobSkillRequirement): Id { r.skill }
  function BookmarkId(b: JobBookmark): Id { b.id }
  function BookmarkKey(b: JobBookmark): (Id, Id) { (b.user, b.job) }
  function BookmarkUser(b: JobBookmark): Id { b.user }
  function BookmarkJob(b: JobBookmark): Id { b.job }
  function ReportId(r: JobReport): Id { r.id }
  function ReportKey(r: JobReport): (Id, Id) { (r.job, r.reportedBy) }
  function ReportJob(r: JobReport): Id { r.job }
  function ReportBy(r: JobReport): Id { r.reportedBy }

  /** The publication time a job has after `Job.save` at time `now`: an active job that was
      never published is stamped; a stamp, once there, is never changed or cleared. */
  function PublishedOnSave(status: JobStatus, publishedAt: Option<Time>, now: Time): (r: Option<Time>)
    ensures publishedAt.Some? ==> r == publishedAt
    ensures status != Active ==> r == publishedAt
    ensures status == Active ==> r.Some?
    ensures r != publishedAt ==> r == Some(now)
  {
    if status == Active && publishedAt.None? then Some(now) else publishedAt
  }

  /** `Job.save`'s change to the instance before it is written: only `published_at` moves. */
  function StampOnSave(j: Job, now: Time): (r: Job)
    ensures r.publishedAt == PublishedOnSave(j.status, j.publishedAt, now)
    ensures r.(publishedAt := j.publishedAt) == j
  {
    j.(publishedAt := PublishedOnSave(j.status, j.publishedAt, now))
  }

  /** Saving twice is saving once: the second save finds the stamp already there. */
  lemma StampOnSaveIdempotent(j: Job, now: Time, later: Time)
    ensures StampOnSave(StampOnSave(j, now), later) == StampOnSave(j, now)
  {
  }

  /** The publication time after a sequence of saves, each with the status the instance had
      and the clock reading at that save. */
  function PublishedAfterSaves(publishedAt: Option<Time>, saves: seq<(JobStatus, Time)>): Option<Time>
    decreases |saves|
  {
    if saves == [] then publishedAt
    else PublishedAfterSaves(PublishedOnSave(saves[0].0, publishedAt, saves[0].1), saves[1..])
  }

  /** The clock reading of the first save made with status `active`, if any. */
  function FirstActivation(saves: seq<(JobStatus, Time)>): (r: Option<Time>)
    ensures r.Some? ==> exists i :: 0 <= i < |saves| && saves[i] == (Active, r.value)
    ensures r.None? <==> forall i :: 0 <= i < |saves| ==> saves[i].0 != Active
  {
    if saves == [] then None
    else if saves[0].0 == Active then Some(saves[0].1)
    else
      var r := FirstActivation(saves[1..]);
      assert forall i :: 1 <= i < |saves| ==> saves[i] == saves[1..][i - 1];
      r
  }

  /** A job that was never published is published exactly at its first save as `active`,
      whatever saves come before or after. */
  lemma {:induction false} SavesStampFirstActivation(saves: seq<(JobStatus, Time)>)
    ensures PublishedAfterSaves(None, saves) == FirstActivation(saves)
  {
    if saves != [] {
      if saves[0].0 == Active {
        SavesKeepStamp(saves[0].1, saves[1..]);
      } else {
        SavesStampFirstActivation(saves[1..]);
      }
    }
  }

  /** Once a job is published, no sequence of saves changes or clears the stamp. */
  lemma {:induction false} SavesKeepStamp(at: Time, saves: seq<(JobStatus, Time)>)
    ensures PublishedAfterSaves(Some(at), saves) == Some(at)
  {
    if saves != [] {
      SavesKeepStamp(at, saves[1..]);
    }
  }
}
