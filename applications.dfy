/** The hiring side of the schema (backend/applications/models.py): applications, their status
    history, offers and feedback. What `JobApplication.save` does to the store is modelled with
    the store, since it writes the parent job's row. */
module Applications {
  import opened Common
  import Jobs

  /** JobApplication.APPLICATION_STATUS. */
  datatype ApplicationStatus =
    | Pending | UnderReview | Shortlisted | InterviewScheduled
    | Interviewed | Selected | Rejected | Withdrawn

  /** JobOffer.OFFER_STATUS. */
  datatype OfferStatus = Pending | Accepted | Rejected | Negotiating | Expired | Withdrawn

  /** ApplicationFeedback.FEEDBACK_TYPES. */
  datatype FeedbackType = EmployerToCandidate | CandidateToEmployer | PlatformFeedback

  /** Files an application's resume may hold. */
  const ResumeExtensions: set<string> := {"pdf", "doc", "docx"}

  /** Files an application's extra documents or a message attachment may hold. */
  const AttachmentExtensions: set<string> := {"pdf", "doc", "docx", "jpg", "jpeg", "png"}

  /** Files an offer letter may hold. */
  const OfferLetterExtensions: set<string> := {"pdf"}

  datatype JobApplication = JobApplication(
    id: Id,
    job: Id,
    applicant: Id,
    seekerProfile: Id,
    coverLetter: Option<string>,
    status: ApplicationStatus,
    viewedByEmployer: bool)

  /** An entry of the audit trail; both statuses range over the application statuses. */
  datatype StatusHistory = StatusHistory(
    id: Id,
    application: Id,
    previousStatus: ApplicationStatus,
    newStatus: ApplicationStatus,
    changedBy: Id)

  datatype JobOffer = JobOffer(
    id: Id,
    application: Id,
    positionTitle: string,
    salaryOffered: int,
    salaryType: Jobs.SalaryType,
    startDate: Time,
    probationPeriodMonths: nat,
    noticePeriodDays: nat,
    status: OfferStatus,
    offerValidUntil: Time)

  datatype ApplicationFeedback = ApplicationFeedback(
    id: Id,
    application: Id,
    feedbackType: FeedbackType,
    givenBy: Id)

  /** An application built from its required fields. Its `id` is drawn at construction (the
      field's default), so the instance already has a primary key before it is first saved. */
  function NewApplication(id: Id, job: Id, applicant: Id, seekerProfile: Id): (a: JobApplication)
    ensures a.id == id && a.job == job && a.applicant == applicant
    ensures a.seekerProfile == seekerProfile
    ensures a.status == ApplicationStatus.Pending && !a.viewedByEmployer && a.coverLetter.None?
  {
    JobApplication(id, job, applicant, seekerProfile, None, ApplicationStatus.Pending, false)
  }

  function NewOffer(id: Id, application: Id, positionTitle: string, salaryOffered: int,
                    startDate: Time, offerValidUntil: Time): (o: JobOffer)
    ensures o.id == id && o.application == application && o.positionTitle == positionTitle
    ensures o.salaryOffered == salaryOffered && o.startDate == startDate
    ensures o.offerValidUntil == offerValidUntil
    ensures o.status == OfferStatus.Pending && o.salaryType == Jobs.Monthly
    ensures o.probationPeriodMonths == 3 && o.noticePeriodDays == 30
  {
    JobOffer(id, application, positionTitle, salaryOffered, Jobs.Monthly, startDate, 3, 30,
             OfferStatus.Pending, offerValidUntil)
  }

  // Keys of the constraints and references.

  function ApplicationId(a: JobApplication): Id { a.id }
  function ApplicationJob(a: JobApplication): Id { a.job }
  function ApplicationApplicant(a: JobApplication): Id { a.applicant }
  function ApplicationProfile(a: JobApplication): Id { a.seekerProfile }
  function ApplicationKey(a: JobApplication): (Id, Id) { (a.job, a.applicant) }
  function HistoryId(h: StatusHistory): Id { h.id }
  function HistoryApplication(h: StatusHistory): Id { h.application }
  function HistoryChangedBy(h: StatusHistory): Id { h.changedBy }
  function OfferId(o: JobOffer): Id { o.id }
  function OfferApplication(o: JobOffer): Id { o.application }
  function FeedbackId(f: ApplicationFeedback): Id { f.id }
  function FeedbackApplication(f: ApplicationFeedback): Id { f.application }
  function FeedbackGivenBy(f: ApplicationFeedback): Id { f.givenBy }
  function FeedbackKey(f: ApplicationFeedback): (Id, Id, FeedbackType) {
    (f.application, f.givenBy, f.feedbackType)
  }

  /** How many applications in `apps` point at job `job`. */
  function CountFor(apps: seq<JobApplication>, job: Id): nat
  {
    if apps == [] then 0
    else CountFor(apps[..|apps| - 1], job) + (if apps[|apps| - 1].job == job then 1 else 0)
  }

  /** Appending an application adds one to its own job's count and nothing to any other. */
  lemma CountForAppend(apps: seq<JobApplication>, a: JobApplication, job: Id)
    ensures CountFor(apps + [a], job) == CountFor(apps, job) + (if a.job == job then 1 else 0)
  {
    assert (apps + [a])[..|apps|] == apps;
  }

  /** The count over two runs of applications is the sum of their counts. */
  lemma {:induction false} CountForConcat(a: seq<JobApplication>, b: seq<JobApplication>, job: Id)
    ensures CountFor(a + b, job) == CountFor(a, job) + CountFor(b, job)
    decreases |b|
  {
    if b == [] {
      assert a + b == a;
    } else {
      var n := |b| - 1;
      assert (a + b)[..|a + b| - 1] == a + b[..n];
      assert (a + b)[|a + b| - 1] == b[n];
      CountForConcat(a, b[..n], job);
    }
  }

  /** A job some application points at has a count of at least one. */
  lemma {:induction false} CountForPositive(apps: seq<JobApplication>, job: Id, i: nat)
    requires i < |apps| && apps[i].job == job
    ensures CountFor(apps, job) >= 1
    decreases |apps|
  {
    var n := |apps| - 1;
    if i < n {
      assert apps[..n][i] == apps[i];
      CountForPositive(apps[..n], job, i);
    }
  }

  /** A job no application points at has a count of zero. */
  lemma {:induction false} CountForAbsent(apps: seq<JobApplication>, job: Id)
    requires forall i :: 0 <= i < |apps| ==> apps[i].job != job
    ensures CountFor(apps, job) == 0
  {
    if apps != [] {
      CountForAbsent(apps[..|apps| - 1], job);
    }
  }
}
