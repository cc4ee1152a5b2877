/** The relational store the three models files define, as one value: a table per constrained
    entity and the key counter that stands in for `uuid4`. Every insert checks the foreign keys
    and the uniqueness constraints of its table and either fails with IntegrityError, leaving
    the store as it was, or appends the row under a newly drawn key. */
module Store {
  import opened Common
  import U = Users
  import J = Jobs
  import A = Applications

  datatype Tables = Tables(
    users: seq<U.User>,
    documents: seq<U.VerificationDocument>,
    seekerProfiles: seq<U.JobSeekerProfile>,
    posterProfiles: seq<U.JobPosterProfile>,
    skills: seq<U.Skill>,
    seekerSkills: seq<U.JobSeekerSkill>,
    categories: seq<J.JobCategory>,
    jobs: seq<J.Job>,
    requirements: seq<J.JobSkillRequirement>,
    bookmarks: seq<J.JobBookmark>,
    reports: seq<J.JobReport>,
    applications: seq<A.JobApplication>,
    history: seq<A.StatusHistory>,
    offers: seq<A.JobOffer>,
    feedback: seq<A.ApplicationFeedback>,
    nextId: Id)

  const Empty: Tables := Tables([], [], [], [], [], [], [], [], [], [], [], [], [], [], [], 0)

  /** The `unique`, `unique_together` and one-to-one constraints of the three models files. */
  predicate Constraints(t: Tables) {
    && UniqueBy(t.users, U.UserEmail)
    && UniqueBy(t.documents, U.DocumentKey)
    && UniqueBy(t.seekerProfiles, U.SeekerProfileUser)
    && UniqueBy(t.posterProfiles, U.PosterProfileUser)
    && UniqueBy(t.skills, U.SkillName)
    && UniqueBy(t.seekerSkills, U.SeekerSkillKey)
    && UniqueBy(t.categories, J.CategoryName)
    && UniqueBy(t.requirements, J.RequirementKey)
    && UniqueBy(t.bookmarks, J.BookmarkKey)
    && UniqueBy(t.reports, J.ReportKey)
    && UniqueBy(t.applications, A.ApplicationKey)
    && UniqueBy(t.offers, A.OfferApplication)
    && UniqueBy(t.feedback, A.FeedbackKey)
  }

  /** Every table's primary key is unique and was drawn before `nextId`. */
  predicate PrimaryKeys(t: Tables) {
    var n := t.nextId;
    && Keys(t.users, U.UserId, n)
    && Keys(t.documents, U.DocumentId, n)
    && Keys(t.seekerProfiles, U.SeekerProfileId, n)
    && Keys(t.posterProfiles, U.PosterProfileId, n)
    && Keys(t.skills, U.SkillId, n)
    && Keys(t.seekerSkills, U.SeekerSkillId, n)
    && Keys(t.categories, J.CategoryId, n)
    && Keys(t.jobs, J.JobId, n)
    && Keys(t.requirements, J.RequirementId, n)
    && Keys(t.bookmarks, J.BookmarkId, n)
    && Keys(t.reports, J.ReportId, n)
    && Keys(t.applications, A.ApplicationId, n)
    && Keys(t.history, A.HistoryId, n)
    && Keys(t.offers, A.OfferId, n)
    && Keys(t.feedback, A.FeedbackId, n)
  }

  /** Every foreign key names an existing row. */
  predicate Refs(t: Tables) {
    && RefsTo(t.documents, U.DocumentUser, t.users, U.UserId)
    && RefsTo(t.seekerProfiles, U.SeekerProfileUser, t.users, U.UserId)
    && RefsTo(t.posterProfiles, U.PosterProfileUser, t.users, U.UserId)
    && RefsTo(t.seekerSkills, U.SeekerSkillProfile, t.seekerProfiles, U.SeekerProfileId)
    && RefsTo(t.seekerSkills, U.SeekerSkillSkill, t.skills, U.SkillId)
    && RefsTo(t.jobs, J.JobCategoryOf, t.categories, J.CategoryId)
    && RefsTo(t.jobs, J.JobPostedBy, t.users, U.UserId)
    && RefsTo(t.jobs, J.JobCompany, t.posterProfiles, U.PosterProfileId)
    && RefsTo(t.requirements, J.RequirementJob, t.jobs, J.JobId)
    && RefsTo(t.requirements, J.RequirementSkill, t.skills, U.SkillId)
    && RefsTo(t.bookmarks, J.BookmarkUser, t.users, U.UserId)
    && RefsTo(t.bookmarks, J.BookmarkJob, t.jobs, J.JobId)
    && RefsTo(t.reports, J.ReportJob, t.jobs, J.JobId)
    && RefsTo(t.reports, J.ReportBy, t.users, U.UserId)
    && RefsTo(t.applications, A.ApplicationJob, t.jobs, J.JobId)
    && RefsTo(t.applications, A.ApplicationApplicant, t.users, U.UserId)
    && RefsTo(t.applications, A.ApplicationProfile, t.seekerProfiles, U.SeekerProfileId)
    && RefsTo(t.history, A.HistoryApplication, t.applications, A.ApplicationId)
    && RefsTo(t.history, A.HistoryChangedBy, t.users, U.UserId)
    && RefsTo(t.offers, A.OfferApplication, t.applications, A.ApplicationId)
    && RefsTo(t.feedback, A.FeedbackApplication, t.applications, A.ApplicationId)
    && RefsTo(t.feedback, A.FeedbackGivenBy, t.users, U.UserId)
  }

  /** The integrity the schema declares: primary keys, uniqueness constraints, foreign keys. */
  predicate Valid(t: Tables) {
    PrimaryKeys(t) && Constraints(t) && Refs(t)
  }

  /** The denormalised counter agrees with the rows: each job's `applications_count` is the
      number of applications that point at it. */
  predicate CountersMatch(t: Tables) {
    forall i :: 0 <= i < |t.jobs| ==> t.jobs[i].applicationsCount == A.CountFor(t.applications, t.jobs[i].id)
  }

  lemma EmptyValid()
    ensures Valid(Empty) && CountersMatch(Empty)
  {
    EmptyKeys();
    EmptyConstraints();
    EmptyRefs();
  }

  lemma EmptyKeys()
    ensures PrimaryKeys(Empty)
  {
  }

  lemma EmptyConstraints()
    ensures Constraints(Empty)
  {
  }

  lemma EmptyRefs()
    ensures Refs(Empty)
  {
  }

  predicate UserExists(t: Tables, id: Id) { HasKey(t.users, U.UserId, id) }
  predicate SeekerProfileExists(t: Tables, id: Id) { HasKey(t.seekerProfiles, U.SeekerProfileId, id) }
  predicate PosterProfileExists(t: Tables, id: Id) { HasKey(t.posterProfiles, U.PosterProfileId, id) }
  predicate SkillExists(t: Tables, id: Id) { HasKey(t.skills, U.SkillId, id) }
  predicate CategoryExists(t: Tables, id: Id) { HasKey(t.categories, J.CategoryId, id) }
  predicate JobExists(t: Tables, id: Id) { HasKey(t.jobs, J.JobId, id) }
  predicate ApplicationExists(t: Tables, id: Id) { HasKey(t.applications, A.ApplicationId, id) }

  /** Moving the counter on keeps every primary key. */
  lemma PrimaryKeysNext(t: Tables)
    requires PrimaryKeys(t)
    ensures PrimaryKeys(t.(nextId := t.nextId + 1))
  {
    var n := t.nextId + 1;
    assert AllBelow(t.users, U.UserId, n);
    assert AllBelow(t.documents, U.DocumentId, n);
    assert AllBelow(t.seekerProfiles, U.SeekerProfileId, n);
    assert AllBelow(t.posterProfiles, U.PosterProfileId, n);
    assert AllBelow(t.skills, U.SkillId, n);
    assert AllBelow(t.seekerSkills, U.SeekerSkillId, n);
    assert AllBelow(t.categories, J.CategoryId, n);
    assert AllBelow(t.jobs, J.JobId, n);
    assert AllBelow(t.requirements, J.RequirementId, n);
    assert AllBelow(t.bookmarks, J.BookmarkId, n);
    assert AllBelow(t.reports, J.ReportId, n);
    assert AllBelow(t.applications, A.ApplicationId, n);
    assert AllBelow(t.history, A.HistoryId, n);
    assert AllBelow(t.offers, A.OfferId, n);
    assert AllBelow(t.feedback, A.FeedbackId, n);
  }

  /** Moving the counter further on keeps every primary key too. */
  lemma PrimaryKeysRaise(t: Tables, n: Id)
    requires PrimaryKeys(t) && t.nextId <= n
    ensures PrimaryKeys(t.(nextId := n))
  {
    assert AllBelow(t.users, U.UserId, n);
    assert AllBelow(t.documents, U.DocumentId, n);
    assert AllBelow(t.seekerProfiles, U.SeekerProfileId, n);
    assert AllBelow(t.posterProfiles, U.PosterProfileId, n);
    assert AllBelow(t.skills, U.SkillId, n);
    assert AllBelow(t.seekerSkills, U.SeekerSkillId, n);
    assert AllBelow(t.categories, J.CategoryId, n);
    assert AllBelow(t.jobs, J.JobId, n);
    assert AllBelow(t.requirements, J.RequirementId, n);
    assert AllBelow(t.bookmarks, J.BookmarkId, n);
    assert AllBelow(t.reports, J.ReportId, n);
    assert AllBelow(t.applications, A.ApplicationId, n);
    assert AllBelow(t.history, A.HistoryId, n);
    assert AllBelow(t.offers, A.OfferId, n);
    assert AllBelow(t.feedback, A.FeedbackId, n);
  }

  /** Rewriting user rows without touching their keys or e-mails keeps the integrity. */
  lemma UsersRewritten(t: Tables, users: seq<U.User>)
    requires Valid(t) && SameKeys(t.users, users, U.UserId) && SameKeys(t.users, users, U.UserEmail)
    ensures Valid(t.(users := users))
  {
    SameKeysKeep(t.users, users, U.UserId);
    SameKeysKeep(t.users, users, U.UserEmail);
    SameKeysBelow(t.users, users, U.UserId, t.nextId);
    RefsToSameTarget(t.documents, U.DocumentUser, t.users, users, U.UserId);
    RefsToSameTarget(t.seekerProfiles, U.SeekerProfileUser, t.users, users, U.UserId);
    RefsToSameTarget(t.posterProfiles, U.PosterProfileUser, t.users, users, U.UserId);
    RefsToSameTarget(t.jobs, J.JobPostedBy, t.users, users, U.UserId);
    RefsToSameTarget(t.bookmarks, J.BookmarkUser, t.users, users, U.UserId);
    RefsToSameTarget(t.reports, J.ReportBy, t.users, users, U.UserId);
    RefsToSameTarget(t.applications, A.ApplicationApplicant, t.users, users, U.UserId);
    RefsToSameTarget(t.history, A.HistoryChangedBy, t.users, users, U.UserId);
    RefsToSameTarget(t.feedback, A.FeedbackGivenBy, t.users, users, U.UserId);
  }

  /** Job rows that differ only in their counters (or other unkeyed columns) keep the integrity. */
  lemma JobsRewritten(t: Tables, jobs: seq<J.Job>)
    requires Valid(t) && SameKeys(t.jobs, jobs, J.JobId)
    requires SameKeys(t.jobs, jobs, J.JobCategoryOf) && SameKeys(t.jobs, jobs, J.JobPostedBy)
    requires SameKeys(t.jobs, jobs, J.JobCompany)
    ensures Valid(t.(jobs := jobs))
  {
    SameKeysKeep(t.jobs, jobs, J.JobId);
    SameKeysBelow(t.jobs, jobs, J.JobId, t.nextId);
    RefsToSameRows(t.jobs, jobs, J.JobCategoryOf, t.categories, J.CategoryId);
    RefsToSameRows(t.jobs, jobs, J.JobPostedBy, t.users, U.UserId);
    RefsToSameRows(t.jobs, jobs, J.JobCompany, t.posterProfiles, U.PosterProfileId);
    RefsToSameTarget(t.requirements, J.RequirementJob, t.jobs, jobs, J.JobId);
    RefsToSameTarget(t.bookmarks, J.BookmarkJob, t.jobs, jobs, J.JobId);
    RefsToSameTarget(t.reports, J.ReportJob, t.jobs, jobs, J.JobId);
    RefsToSameTarget(t.applications, A.ApplicationJob, t.jobs, jobs, J.JobId);
  }

  // ----- users/models.py -----

  /** `User.objects.get_or_create(email=..., defaults=...)`: `u` supplies every field but the key. */
  function GetOrCreateUser(t: Tables, u: U.User): (r: (Tables, U.User, bool))
    ensures var (t', row, created) := r;
      && row.email == u.email && row in t'.users
      && (created <==> !HasKey(t.users, U.UserEmail, u.email))
      && (created ==> row == u.(id := t.nextId) && t' == t.(users := t.users + [row], nextId := t.nextId + 1))
      && (!created ==> t' == t && row in t.users)
      && (Valid(t) ==> Valid(t'))
  {
    var (rows, row, created) := GetOrCreate(t.users, U.UserEmail, u.(id := t.nextId));
    var t' := if created then t.(users := rows, nextId := t.nextId + 1) else t;
    assert Valid(t) ==> Valid(t') by {
      if Valid(t) && created {
        PrimaryKeysNext(t);
        KeysInsert(t.users, U.UserId, t.nextId, row);
        RefsToAppendTarget(t.documents, U.DocumentUser, t.users, U.UserId, row);
        RefsToAppendTarget(t.seekerProfiles, U.SeekerProfileUser, t.users, U.UserId, row);
        RefsToAppendTarget(t.posterProfiles, U.PosterProfileUser, t.users, U.UserId, row);
        RefsToAppendTarget(t.jobs, J.JobPostedBy, t.users, U.UserId, row);
        RefsToAppendTarget(t.bookmarks, J.BookmarkUser, t.users, U.UserId, row);
        RefsToAppendTarget(t.reports, J.ReportBy, t.users, U.UserId, row);
        RefsToAppendTarget(t.applications, A.ApplicationApplicant, t.users, U.UserId, row);
        RefsToAppendTarget(t.history, A.HistoryChangedBy, t.users, U.UserId, row);
        RefsToAppendTarget(t.feedback, A.FeedbackGivenBy, t.users, U.UserId, row);
      }
    }
    (t', row, created)
  }

  /** `user.phone_number = phone; user.save()` on a stored user. */
  function SetUserPhone(t: Tables, id: Id, phone: string): (t': Tables)
    ensures |t'.users| == |t.users|
    ensures forall i :: 0 <= i < |t.users| ==>
      t'.users[i] == if t.users[i].id == id then t.users[i].(phoneNumber := Some(phone)) else t.users[i]
    ensures t' == t.(users := t'.users)
    ensures Valid(t) ==> Valid(t')
  {
    var users := seq(|t.users|, i requires 0 <= i < |t.users| =>
      if t.users[i].id == id then t.users[i].(phoneNumber := Some(phone)) else t.users[i]);
    var t' := t.(users := users);
    assert Valid(t) ==> Valid(t') by {
      if Valid(t) { UsersRewritten(t, users); }
    }
    t'
  }

  /** `VerificationDocument.objects.create(...)`: at most one document per (user, type). */
  function CreateDocument(t: Tables, d: U.VerificationDocument): (r: (Tables, Result<U.VerificationDocument>))
    ensures r.1.Ok? <==> UserExists(t, d.user) && !HasKey(t.documents, U.DocumentKey, U.DocumentKey(d))
    ensures r.1.Err? ==> r.0 == t && r.1.error == IntegrityError
    ensures r.1.Ok? ==> r.1.value == d.(id := t.nextId)
    ensures r.1.Ok? ==> r.0 == t.(documents := t.documents + [r.1.value], nextId := t.nextId + 1)
    ensures Valid(t) ==> Valid(r.0)
  {
    if !UserExists(t, d.user) || HasKey(t.documents, U.DocumentKey, U.DocumentKey(d)) then (t, Err(IntegrityError))
    else
      var row := d.(id := t.nextId);
      var t' := t.(documents := t.documents + [row], nextId := t.nextId + 1);
      assert Valid(t) ==> Valid(t') by {
        if Valid(t) {
          PrimaryKeysNext(t);
          KeysInsert(t.documents, U.DocumentId, t.nextId, row);
          UniqueByAppend(t.documents, U.DocumentKey, row);
          RefsToAppendRow(t.documents, U.DocumentUser, t.users, U.UserId, row);
        }
      }
      (t', Ok(row))
  }

  /** `JobSeekerProfile.objects.create(user=...)`: the profile is one-to-one with its user. */
  function CreateSeekerProfile(t: Tables, p: U.JobSeekerProfile): (r: (Tables, Result<U.JobSeekerProfile>))
    ensures r.1.Ok? <==> UserExists(t, p.user) && !HasKey(t.seekerProfiles, U.SeekerProfileUser, p.user)
    ensures r.1.Err? ==> r.0 == t && r.1.error == IntegrityError
    ensures r.1.Ok? ==> r.1.value == p.(id := t.nextId)
    ensures r.1.Ok? ==> r.0 == t.(seekerProfiles := t.seekerProfiles + [r.1.value], nextId := t.nextId + 1)
    ensures Valid(t) ==> Valid(r.0)
  {
    if !UserExists(t, p.user) || HasKey(t.seekerProfiles, U.SeekerProfileUser, p.user) then (t, Err(IntegrityError))
    else
      var row := p.(id := t.nextId);
      var t' := t.(seekerProfiles := t.seekerProfiles + [row], nextId := t.nextId + 1);
      assert Valid(t) ==> Valid(t') by {
        if Valid(t) {
          PrimaryKeysNext(t);
          KeysInsert(t.seekerProfiles, U.SeekerProfileId, t.nextId, row);
          UniqueByAppend(t.seekerProfiles, U.SeekerProfileUser, row);
          RefsToAppendRow(t.seekerProfiles, U.SeekerProfileUser, t.users, U.UserId, row);
          RefsToAppendTarget(t.seekerSkills, U.SeekerSkillProfile, t.seekerProfiles, U.SeekerProfileId, row);
          RefsToAppendTarget(t.applications, A.ApplicationProfile, t.seekerProfiles, U.SeekerProfileId, row);
        }
      }
      (t', Ok(row))
  }

  /** `JobPosterProfile.objects.create(user=...)`: the profile is one-to-one with its user. */
  function CreatePosterProfile(t: Tables, p: U.JobPosterProfile): (r: (Tables, Result<U.JobPosterProfile>))
    ensures r.1.Ok? <==> UserExists(t, p.user) && !HasKey(t.posterProfiles, U.PosterProfileUser, p.user)
    ensures r.1.Err? ==> r.0 == t && r.1.error == IntegrityError
    ensures r.1.Ok? ==> r.1.value == p.(id := t.nextId)
    ensures r.1.Ok? ==> r.0 == t.(posterProfiles := t.posterProfiles + [r.1.value], nextId := t.nextId + 1)
    ensures Valid(t) ==> Valid(r.0)
  {
    if !UserExists(t, p.user) || HasKey(t.posterProfiles, U.PosterProfileUser, p.user) then (t, Err(IntegrityError))
    else
      var row := p.(id := t.nextId);
      var t' := t.(posterProfiles := t.posterProfiles + [row], nextId := t.nextId + 1);
      assert Valid(t) ==> Valid(t') by {
        if Valid(t) {
          PrimaryKeysNext(t);
          KeysInsert(t.posterProfiles, U.PosterProfileId, t.nextId, row);
          UniqueByAppend(t.posterProfiles, U.PosterProfileUser, row);
          RefsToAppendRow(t.posterProfiles, U.PosterProfileUser, t.users, U.UserId, row);
          RefsToAppendTarget(t.jobs, J.JobCompany, t.posterProfiles, U.PosterProfileId, row);
        }
      }
      (t', Ok(row))
  }

  /** `Skill.objects.get_or_create(name=..., defaults=...)`. */
  function GetOrCreateSkill(t: Tables, s: U.Skill): (r: (Tables, U.Skill, bool))
    ensures var (t', row, created) := r;
      && row.name == s.name && row in t'.skills
      && (created <==> !HasKey(t.skills, U.SkillName, s.name))
      && (created ==> row == s.(id := t.nextId) && t' == t.(skills := t.skills + [row], nextId := t.nextId + 1))
      && (!created ==> t' == t && row in t.skills)
      && (Valid(t) ==> Valid(t'))
  {
    var (rows, row, created) := GetOrCreate(t.skills, U.SkillName, s.(id := t.nextId));
    var t' := if created then t.(skills := rows, nextId := t.nextId + 1) else t;
    assert Valid(t) ==> Valid(t') by {
      if Valid(t) && created {
        PrimaryKeysNext(t);
        KeysInsert(t.skills, U.SkillId, t.nextId, row);
        RefsToAppendTarget(t.seekerSkills, U.SeekerSkillSkill, t.skills, U.SkillId, row);
        RefsToAppendTarget(t.requirements, J.RequirementSkill, t.skills, U.SkillId, row);
      }
    }
    (t', row, created)
  }

  /** `JobSeekerSkill.objects.create(...)`: at most one row per (profile, skill). */
  function CreateSeekerSkill(t: Tables, s: U.JobSeekerSkill): (r: (Tables, Result<U.JobSeekerSkill>))
    ensures r.1.Ok? <==> SeekerProfileExists(t, s.jobSeeker) && SkillExists(t, s.skill)
                         && !HasKey(t.seekerSkills, U.SeekerSkillKey, U.SeekerSkillKey(s))
    ensures r.1.Err? ==> r.0 == t && r.1.error == IntegrityError
    ensures r.1.Ok? ==> r.1.value == s.(id := t.nextId)
    ensures r.1.Ok? ==> r.0 == t.(seekerSkills := t.seekerSkills + [r.1.value], nextId := t.nextId + 1)
    ensures Valid(t) ==> Valid(r.0)
  {
    if !SeekerProfileExists(t, s.jobSeeker) || !SkillExists(t, s.skill)
       || HasKey(t.seekerSkills, U.SeekerSkillKey, U.SeekerSkillKey(s)) then (t, Err(IntegrityError))
    else
      var row := s.(id := t.nextId);
      var t' := t.(seekerSkills := t.seekerSkills + [row], nextId := t.nextId + 1);
      assert Valid(t) ==> Valid(t') by {
        if Valid(t) {
          PrimaryKeysNext(t);
          KeysInsert(t.seekerSkills, U.SeekerSkillId, t.nextId, row);
          UniqueByAppend(t.seekerSkills, U.SeekerSkillKey, row);
          RefsToAppendRow(t.seekerSkills, U.SeekerSkillProfile, t.seekerProfiles, U.SeekerProfileId, row);
          RefsToAppendRow(t.seekerSkills, U.SeekerSkillSkill, t.skills, U.SkillId, row);
        }
      }
      (t', Ok(row))
  }

  // ----- jobs/models.py -----

  /** `JobCategory.objects.get_or_create(name=..., defaults=...)`. */
  function GetOrCreateCategory(t: Tables, c: J.JobCategory): (r: (Tables, J.JobCategory, bool))
    ensures var (t', row, created) := r;
      && row.name == c.name && row in t'.categories
      && (created <==> !HasKey(t.categories, J.CategoryName, c.name))
      && (created ==> row == c.(id := t.nextId) && t' == t.(categories := t.categories + [row], nextId := t.nextId + 1))
      && (!created ==> t' == t && row in t.categories)
      && (Valid(t) ==> Valid(t'))
  {
    var (rows, row, created) := GetOrCreate(t.categories, J.CategoryName, c.(id := t.nextId));
    var t' := if created then t.(categories := rows, nextId := t.nextId + 1) else t;
    assert Valid(t) ==> Valid(t') by {
      if Valid(t) && created {
        PrimaryKeysNext(t);
        KeysInsert(t.categories, J.CategoryId, t.nextId, row);
        RefsToAppendTarget(t.jobs, J.JobCategoryOf, t.categories, J.CategoryId, row);
      }
    }
    (t', row, created)
  }

  /** `Job.objects.create(...)`: `Job.save` stamps the instance, then the row is inserted under
      a new key. A new key is one no application points at, so the counters stay in step. */
  function CreateJob(t: Tables, j: J.Job, now: Time): (r: (Tables, Result<J.Job>))
    ensures r.1.Ok? <==> CategoryExists(t, j.category) && UserExists(t, j.postedBy) && PosterProfileExists(t, j.company)
    ensures r.1.Err? ==> r.0 == t && r.1.error == IntegrityError
    ensures r.1.Ok? ==> r.1.value == J.StampOnSave(j, now).(id := t.nextId)
    ensures r.1.Ok? ==> r.0 == t.(jobs := t.jobs + [r.1.value], nextId := t.nextId + 1)
    ensures Valid(t) ==> Valid(r.0)
    ensures Valid(t) && CountersMatch(t) && j.applicationsCount == 0 ==> CountersMatch(r.0)
  {
    if !CategoryExists(t, j.category) || !UserExists(t, j.postedBy) || !PosterProfileExists(t, j.company) then
      (t, Err(IntegrityError))
    else
      var row := J.StampOnSave(j, now).(id := t.nextId);
      var t' := t.(jobs := t.jobs + [row], nextId := t.nextId + 1);
      assert Valid(t) ==> Valid(t') by {
        if Valid(t) {
          PrimaryKeysNext(t);
          KeysInsert(t.jobs, J.JobId, t.nextId, row);
          RefsToAppendRow(t.jobs, J.JobCategoryOf, t.categories, J.CategoryId, row);
          RefsToAppendRow(t.jobs, J.JobPostedBy, t.users, U.UserId, row);
          RefsToAppendRow(t.jobs, J.JobCompany, t.posterProfiles, U.PosterProfileId, row);
          RefsToAppendTarget(t.requirements, J.RequirementJob, t.jobs, J.JobId, row);
          RefsToAppendTarget(t.bookmarks, J.BookmarkJob, t.jobs, J.JobId, row);
          RefsToAppendTarget(t.reports, J.ReportJob, t.jobs, J.JobId, row);
          RefsToAppendTarget(t.applications, A.ApplicationJob, t.jobs, J.JobId, row);
        }
      }
      assert Valid(t) && CountersMatch(t) && j.applicationsCount == 0 ==> CountersMatch(t') by {
        if Valid(t) && CountersMatch(t) && j.applicationsCount == 0 {
          forall i | 0 <= i < |t.applications| ensures t.applications[i].job != t.nextId {
            HasKeyBelow(t.jobs, J.JobId, t.nextId, A.ApplicationJob(t.applications[i]));
          }
          A.CountForAbsent(t.applications, t.nextId);
          forall i | 0 <= i < |t'.jobs|
            ensures t'.jobs[i].applicationsCount == A.CountFor(t'.applications, t'.jobs[i].id)
          {
            if i < |t.jobs| { assert t'.jobs[i] == t.jobs[i]; }
          }
        }
      }
      (t', Ok(row))
  }

  /** `JobSkillRequirement.objects.create(...)`: at most one row per (job, skill). */
  function CreateRequirement(t: Tables, q: J.JobSkillRequirement): (r: (Tables, Result<J.JobSkillRequirement>))
    ensures r.1.Ok? <==> JobExists(t, q.job) && SkillExists(t, q.skill)
                         && !HasKey(t.requirements, J.RequirementKey, J.RequirementKey(q))
    ensures r.1.Err? ==> r.0 == t && r.1.error == IntegrityError
    ensures r.1.Ok? ==> r.1.value == q.(id := t.nextId)
    ensures r.1.Ok? ==> r.0 == t.(requirements := t.requirements + [r.1.value], nextId := t.nextId + 1)
    ensures Valid(t) ==> Valid(r.0)
  {
    if !JobExists(t, q.job) || !SkillExists(t, q.skill)
       || HasKey(t.requirements, J.RequirementKey, J.RequirementKey(q)) then (t, Err(IntegrityError))
    else
      var row := q.(id := t.nextId);
      var t' := t.(requirements := t.requirements + [row], nextId := t.nextId + 1);
      assert Valid(t) ==> Valid(t') by {
        if Valid(t) {
          PrimaryKeysNext(t);
          KeysInsert(t.requirements, J.RequirementId, t.nextId, row);
          UniqueByAppend(t.requirements, J.RequirementKey, row);
          RefsToAppendRow(t.requirements, J.RequirementJob, t.jobs, J.JobId, row);
          RefsToAppendRow(t.requirements, J.RequirementSkill, t.skills, U.SkillId, row);
        }
      }
      (t', Ok(row))
  }

  /** `JobBookmark.objects.create(...)`: at most one bookmark per (user, job). */
  function CreateBookmark(t: Tables, b: J.JobBookmark): (r: (Tables, Result<J.JobBookmark>))
    ensures r.1.Ok? <==> UserExists(t, b.user) && JobExists(t, b.job)
                         && !HasKey(t.bookmarks, J.BookmarkKey, J.BookmarkKey(b))
    ensures r.1.Err? ==> r.0 == t && r.1.error == IntegrityError
    ensures r.1.Ok? ==> r.1.value == b.(id := t.nextId)
    ensures r.1.Ok? ==> r.0 == t.(bookmarks := t.bookmarks + [r.1.value], nextId := t.nextId + 1)
    ensures Valid(t) ==> Valid(r.0)
  {
    if !UserExists(t, b.user) || !JobExists(t, b.job)
       || HasKey(t.bookmarks, J.BookmarkKey, J.BookmarkKey(b)) then (t, Err(IntegrityError))
    else
      var row := b.(id := t.nextId);
      var t' := t.(bookmarks := t.bookmarks + [row], nextId := t.nextId + 1);
      assert Valid(t) ==> Valid(t') by {
        if Valid(t) {
          PrimaryKeysNext(t);
          KeysInsert(t.bookmarks, J.BookmarkId, t.nextId, row);
          UniqueByAppend(t.bookmarks, J.BookmarkKey, row);
          RefsToAppendRow(t.bookmarks, J.BookmarkUser, t.users, U.UserId, row);
          RefsToAppendRow(t.bookmarks, J.BookmarkJob, t.jobs, J.JobId, row);
        }
      }
      (t', Ok(row))
  }

  /** `JobReport.objects.create(...)`: at most one report per (job, reporter). */
  function CreateReport(t: Tables, p: J.JobReport): (r: (Tables, Result<J.JobReport>))
    ensures r.1.Ok? <==> JobExists(t, p.job) && UserExists(t, p.reportedBy)
                         && !HasKey(t.reports, J.ReportKey, J.ReportKey(p))
    ensures r.1.Err? ==> r.0 == t && r.1.error == IntegrityError
    ensures r.1.Ok? ==> r.1.value == p.(id := t.nextId)
    ensures r.1.Ok? ==> r.0 == t.(reports := t.reports + [r.1.value], nextId := t.nextId + 1)
    ensures Valid(t) ==> Valid(r.0)
  {
    if !JobExists(t, p.job) || !UserExists(t, p.reportedBy)
       || HasKey(t.reports, J.ReportKey, J.ReportKey(p)) then (t, Err(IntegrityError))
    else
      var row := p.(id := t.nextId);
      var t' := t.(reports := t.reports + [row], nextId := t.nextId + 1);
      assert Valid(t) ==> Valid(t') by {
        if Valid(t) {
          PrimaryKeysNext(t);
          KeysInsert(t.reports, J.ReportId, t.nextId, row);
          UniqueByAppend(t.reports, J.ReportKey, row);
          RefsToAppendRow(t.reports, J.ReportJob, t.jobs, J.JobId, row);
          RefsToAppendRow(t.reports, J.ReportBy, t.users, U.UserId, row);
        }
      }
      (t', Ok(row))
  }

  // ----- applications/models.py -----

  /** The INSERT that `super().save()` performs for a new application: at most one application
      per (job, applicant). */
  function InsertApplication(t: Tables, a: A.JobApplication): (r: (Tables, Result<A.JobApplication>))
    ensures r.1.Ok? <==> JobExists(t, a.job) && UserExists(t, a.applicant) && SeekerProfileExists(t, a.seekerProfile)
                         && !HasKey(t.applications, A.ApplicationKey, A.ApplicationKey(a))
    ensures r.1.Err? ==> r.0 == t && r.1.error == IntegrityError
    ensures r.1.Ok? ==> r.1.value == a.(id := t.nextId)
    ensures r.1.Ok? ==> r.0 == t.(applications := t.applications + [r.1.value], nextId := t.nextId + 1)
    ensures Valid(t) ==> Valid(r.0)
  {
    if !JobExists(t, a.job) || !UserExists(t, a.applicant) || !SeekerProfileExists(t, a.seekerProfile)
       || HasKey(t.applications, A.ApplicationKey, A.ApplicationKey(a)) then (t, Err(IntegrityError))
    else
      var row := a.(id := t.nextId);
      var t' := t.(applications := t.applications + [row], nextId := t.nextId + 1);
      assert Valid(t) ==> Valid(t') by {
        if Valid(t) {
          PrimaryKeysNext(t);
          KeysInsert(t.applications, A.ApplicationId, t.nextId, row);
          UniqueByAppend(t.applications, A.ApplicationKey, row);
          RefsToAppendRow(t.applications, A.ApplicationJob, t.jobs, J.JobId, row);
          RefsToAppendRow(t.applications, A.ApplicationApplicant, t.users, U.UserId, row);
          RefsToAppendRow(t.applications, A.ApplicationProfile, t.seekerProfiles, U.SeekerProfileId, row);
          RefsToAppendTarget(t.history, A.HistoryApplication, t.applications, A.ApplicationId, row);
          RefsToAppendTarget(t.offers, A.OfferApplication, t.applications, A.ApplicationId, row);
          RefsToAppendTarget(t.feedback, A.FeedbackApplication, t.applications, A.ApplicationId, row);
        }
      }
      (t', Ok(row))
  }

  /** Some application other than the one keyed `a.id` is by the same applicant for the same job. */
  predicate PairTaken(apps: seq<A.JobApplication>, a: A.JobApplication)
  {
    exists i :: 0 <= i < |apps| && apps[i].id != a.id && A.ApplicationKey(apps[i]) == A.ApplicationKey(a)
  }

  /** The application rows with key `a.id` replaced by `a`: the UPDATE of a full-row save. */
  function ReplaceApplication(apps: seq<A.JobApplication>, a: A.JobApplication): (r: seq<A.JobApplication>)
    ensures |r| == |apps|
    ensures forall i :: 0 <= i < |apps| ==> r[i] == if apps[i].id == a.id then a else apps[i]
  {
    seq(|apps|, i requires 0 <= i < |apps| => if apps[i].id == a.id then a else apps[i])
  }

  /** `super().save()` for an application instance whose key is `a.id`: an UPDATE of the row
      with that key when there is one, an INSERT under that key otherwise. Either way the
      database refuses a job, applicant or profile that does not exist, and a second
      application by the same applicant for the same job. */
  function SaveApplication(t: Tables, a: A.JobApplication): (r: (Tables, Result<A.JobApplication>))
    ensures r.1.Ok? <==> JobExists(t, a.job) && UserExists(t, a.applicant) && SeekerProfileExists(t, a.seekerProfile)
                         && !PairTaken(t.applications, a)
    ensures r.1.Err? ==> r.0 == t && r.1.error == IntegrityError
    ensures r.1.Ok? ==> r.1.value == a
    ensures r.1.Ok? && ApplicationExists(t, a.id) ==> r.0 == t.(applications := ReplaceApplication(t.applications, a))
    ensures r.1.Ok? && !ApplicationExists(t, a.id) ==>
      r.0 == t.(applications := t.applications + [a], nextId := NextAfter(t, a.id))
    ensures Valid(t) ==> Valid(r.0)
  {
    if !JobExists(t, a.job) || !UserExists(t, a.applicant) || !SeekerProfileExists(t, a.seekerProfile)
       || PairTaken(t.applications, a) then (t, Err(IntegrityError))
    else if ApplicationExists(t, a.id) then
      assert Valid(t) ==> Valid(t.(applications := ReplaceApplication(t.applications, a))) by {
        if Valid(t) { ApplicationReplacedValid(t, a); }
      }
      (t.(applications := ReplaceApplication(t.applications, a)), Ok(a))
    else
      assert Valid(t) ==> Valid(t.(applications := t.applications + [a], nextId := NextAfter(t, a.id))) by {
        if Valid(t) { ApplicationInsertedValid(t, a); }
      }
      (t.(applications := t.applications + [a], nextId := NextAfter(t, a.id)), Ok(a))
  }

  /** Replacing the row keyed `a.id` by `a` keeps the pairs unique when no other row holds a's pair. */
  lemma ReplacedPairsUnique(apps: seq<A.JobApplication>, a: A.JobApplication)
    requires UniqueBy(apps, A.ApplicationId) && UniqueBy(apps, A.ApplicationKey) && !PairTaken(apps, a)
    ensures UniqueBy(ReplaceApplication(apps, a), A.ApplicationKey)
  {
    var r := ReplaceApplication(apps, a);
    forall i, j | 0 <= i < j < |r| ensures A.ApplicationKey(r[i]) != A.ApplicationKey(r[j]) {
      assert A.ApplicationId(apps[i]) != A.ApplicationId(apps[j]);
    }
  }

  /** An UPDATE of a stored application whose references resolve and whose pair is free keeps
      the integrity. */
  lemma ApplicationReplacedValid(t: Tables, a: A.JobApplication)
    requires Valid(t) && !PairTaken(t.applications, a)
    requires JobExists(t, a.job) && UserExists(t, a.applicant) && SeekerProfileExists(t, a.seekerProfile)
    ensures Valid(t.(applications := ReplaceApplication(t.applications, a)))
  {
    var apps := ReplaceApplication(t.applications, a);
    assert SameKeys(t.applications, apps, A.ApplicationId);
    SameKeysKeep(t.applications, apps, A.ApplicationId);
    SameKeysBelow(t.applications, apps, A.ApplicationId, t.nextId);
    ReplacedPairsUnique(t.applications, a);
    assert RefsTo(apps, A.ApplicationJob, t.jobs, J.JobId);
    assert RefsTo(apps, A.ApplicationApplicant, t.users, U.UserId);
    assert RefsTo(apps, A.ApplicationProfile, t.seekerProfiles, U.SeekerProfileId);
    RefsToSameTarget(t.history, A.HistoryApplication, t.applications, apps, A.ApplicationId);
    RefsToSameTarget(t.offers, A.OfferApplication, t.applications, apps, A.ApplicationId);
    RefsToSameTarget(t.feedback, A.FeedbackApplication, t.applications, apps, A.ApplicationId);
  }

  /** An INSERT under a key no application holds, with the references resolving and the pair
      free, keeps the integrity. */
  lemma ApplicationInsertedValid(t: Tables, a: A.JobApplication)
    requires Valid(t) && !ApplicationExists(t, a.id) && !PairTaken(t.applications, a)
    requires JobExists(t, a.job) && UserExists(t, a.applicant) && SeekerProfileExists(t, a.seekerProfile)
    ensures Valid(t.(applications := t.applications + [a], nextId := NextAfter(t, a.id)))
  {
    var n := NextAfter(t, a.id);
    PrimaryKeysRaise(t, n);
    UniqueByAppend(t.applications, A.ApplicationId, a);
    AllBelowAppend(t.applications, A.ApplicationId, t.nextId, n, a);
    assert !HasKey(t.applications, A.ApplicationKey, A.ApplicationKey(a)) by {
      forall i | 0 <= i < |t.applications| ensures A.ApplicationKey(t.applications[i]) != A.ApplicationKey(a) {
        assert A.ApplicationId(t.applications[i]) != a.id;
      }
    }
    UniqueByAppend(t.applications, A.ApplicationKey, a);
    RefsToAppendRow(t.applications, A.ApplicationJob, t.jobs, J.JobId, a);
    RefsToAppendRow(t.applications, A.ApplicationApplicant, t.users, U.UserId, a);
    RefsToAppendRow(t.applications, A.ApplicationProfile, t.seekerProfiles, U.SeekerProfileId, a);
    RefsToAppendTarget(t.history, A.HistoryApplication, t.applications, A.ApplicationId, a);
    RefsToAppendTarget(t.offers, A.OfferApplication, t.applications, A.ApplicationId, a);
    RefsToAppendTarget(t.feedback, A.FeedbackApplication, t.applications, A.ApplicationId, a);
  }

  /** Saving an application exactly as it is stored is an UPDATE that changes nothing: in a
      store with integrity its references resolve and no other row holds its pair. */
  lemma SaveStoredApplication(t: Tables, a: A.JobApplication)
    requires Valid(t) && a in t.applications
    ensures SaveApplication(t, a) == (t, Ok(a))
  {
    var k :| 0 <= k < |t.applications| && t.applications[k] == a;
    assert JobExists(t, a.job) && UserExists(t, a.applicant) && SeekerProfileExists(t, a.seekerProfile) by {
      assert A.ApplicationJob(t.applications[k]) == a.job;
      assert A.ApplicationApplicant(t.applications[k]) == a.applicant;
      assert A.ApplicationProfile(t.applications[k]) == a.seekerProfile;
    }
    assert ApplicationExists(t, a.id) by {
      assert A.ApplicationId(t.applications[k]) == a.id;
    }
    StoredAlone(t.applications, k);
  }

  /** In rows with unique keys and unique pairs, no other row holds a stored row's pair, and
      replacing the row by itself changes nothing. */
  lemma StoredAlone(apps: seq<A.JobApplication>, k: nat)
    requires k < |apps| && UniqueBy(apps, A.ApplicationId) && UniqueBy(apps, A.ApplicationKey)
    ensures !PairTaken(apps, apps[k])
    ensures ReplaceApplication(apps, apps[k]) == apps
  {
    var a := apps[k];
    forall i | 0 <= i < |apps| && apps[i].id == a.id ensures apps[i] == a {
      assert A.ApplicationId(apps[i]) == A.ApplicationId(apps[k]);
    }
    forall i | 0 <= i < |apps| && A.ApplicationKey(apps[i]) == A.ApplicationKey(a)
      ensures apps[i].id == a.id
    {
      assert A.ApplicationKey(apps[i]) == A.ApplicationKey(apps[k]);
    }
  }

  /** The job rows with key `id` get `applications_count := c` (an update limited to that field). */
  function SetCount(jobs: seq<J.Job>, id: Id, c: nat): (r: seq<J.Job>)
    ensures |r| == |jobs|
    ensures forall i :: 0 <= i < |jobs| ==>
      r[i] == if jobs[i].id == id then jobs[i].(applicationsCount := c) else jobs[i]
  {
    seq(|jobs|, i requires 0 <= i < |jobs| =>
      if jobs[i].id == id then jobs[i].(applicationsCount := c) else jobs[i])
  }

  /** The job rows with key `id` get `applications_count + 1`, computed in the store. */
  function BumpCount(jobs: seq<J.Job>, id: Id): (r: seq<J.Job>)
    ensures |r| == |jobs|
    ensures forall i :: 0 <= i < |jobs| ==>
      r[i] == if jobs[i].id == id then jobs[i].(applicationsCount := jobs[i].applicationsCount + 1) else jobs[i]
  {
    seq(|jobs|, i requires 0 <= i < |jobs| =>
      if jobs[i].id == id then jobs[i].(applicationsCount := jobs[i].applicationsCount + 1) else jobs[i])
  }

  /** `self.job.save(update_fields=['applications_count'])`: the hook runs on the instance, and
      only its counter is written. When no row has the instance's key the update touches no
      row and the store raises DatabaseError. */
  function SaveJobCounter(t: Tables, job: J.Job, now: Time): (r: (Tables, J.Job, Result<()>))
    ensures r.1 == J.StampOnSave(job, now)
    ensures r.2.Ok? <==> JobExists(t, job.id)
    ensures r.2.Err? ==> r.0 == t && r.2.error == DatabaseError
    ensures r.2.Ok? ==> r.0 == t.(jobs := SetCount(t.jobs, job.id, job.applicationsCount))
    ensures Valid(t) ==> Valid(r.0)
  {
    var job' := J.StampOnSave(job, now);
    if !JobExists(t, job.id) then (t, job', Err(DatabaseError))
    else
      var t' := t.(jobs := SetCount(t.jobs, job.id, job.applicationsCount));
      assert Valid(t) ==> Valid(t') by {
        if Valid(t) { JobsRewritten(t, t'.jobs); }
      }
      (t', job', Ok(()))
  }

  /** The job rows with key `row.id` replaced by `row`: the UPDATE of a full-row save. */
  function ReplaceJob(jobs: seq<J.Job>, row: J.Job): (r: seq<J.Job>)
    ensures |r| == |jobs|
    ensures forall i :: 0 <= i < |jobs| ==> r[i] == if jobs[i].id == row.id then row else jobs[i]
  {
    seq(|jobs|, i requires 0 <= i < |jobs| => if jobs[i].id == row.id then row else jobs[i])
  }

  /** The key counter after a row is inserted under its own key `id`: moved past `id`, so
      that key is never drawn again. */
  function NextAfter(t: Tables, id: Id): (n: Id)
    ensures t.nextId <= n && id < n
  {
    if id < t.nextId then t.nextId else id + 1
  }

  /** `Job.save()` on an instance holding `j`: the hook stamps the instance, then every column
      is written, as an UPDATE when a row has the instance's key and as an INSERT under that key
      otherwise. Either way the database refuses a category, poster or company that does not
      exist, and the store is left as it was. */
  function SaveJob(t: Tables, j: J.Job, now: Time): (r: (Tables, J.Job, Result<()>))
    ensures r.1 == J.StampOnSave(j, now)
    ensures r.2.Ok? <==> CategoryExists(t, j.category) && UserExists(t, j.postedBy) && PosterProfileExists(t, j.company)
    ensures r.2.Err? ==> r.0 == t && r.2.error == IntegrityError
    ensures r.2.Ok? && JobExists(t, j.id) ==> r.0 == t.(jobs := ReplaceJob(t.jobs, r.1))
    ensures r.2.Ok? && !JobExists(t, j.id) ==> r.0 == t.(jobs := t.jobs + [r.1], nextId := NextAfter(t, j.id))
    ensures Valid(t) ==> Valid(r.0)
  {
    var row := J.StampOnSave(j, now);
    if !CategoryExists(t, j.category) || !UserExists(t, j.postedBy) || !PosterProfileExists(t, j.company) then
      (t, row, Err(IntegrityError))
    else if JobExists(t, j.id) then
      assert Valid(t) ==> Valid(t.(jobs := ReplaceJob(t.jobs, row))) by {
        if Valid(t) { JobReplacedValid(t, row); }
      }
      (t.(jobs := ReplaceJob(t.jobs, row)), row, Ok(()))
    else
      assert Valid(t) ==> Valid(t.(jobs := t.jobs + [row], nextId := NextAfter(t, j.id))) by {
        if Valid(t) { JobInsertedValid(t, row); }
      }
      (t.(jobs := t.jobs + [row], nextId := NextAfter(t, j.id)), row, Ok(()))
  }

  /** Saving the instance again, at any later time, after a save that succeeded, is an UPDATE
      that changes nothing: the stamp is already there and the row is already stored. */
  lemma SaveJobAgain(t: Tables, j: J.Job, now: Time, later: Time)
    requires SaveJob(t, j, now).2.Ok?
    ensures var (t1, row, _) := SaveJob(t, j, now);
      SaveJob(t1, row, later) == (t1, row, Ok(()))
  {
    var (t1, row, _) := SaveJob(t, j, now);
    J.StampOnSaveIdempotent(j, now, later);
    if JobExists(t, j.id) {
      var k :| 0 <= k < |t.jobs| && t.jobs[k].id == j.id;
      assert t1.jobs[k] == row;
    } else {
      assert t1.jobs[|t.jobs|] == row;
      assert forall i :: 0 <= i < |t.jobs| ==> J.JobId(t.jobs[i]) != j.id;
    }
    assert JobExists(t1, row.id);
    assert ReplaceJob(t1.jobs, row) == t1.jobs;
  }

  /** An UPDATE of a stored job whose references resolve keeps the integrity. */
  lemma JobReplacedValid(t: Tables, row: J.Job)
    requires Valid(t) && JobExists(t, row.id)
    requires CategoryExists(t, row.category) && UserExists(t, row.postedBy) && PosterProfileExists(t, row.company)
    ensures Valid(t.(jobs := ReplaceJob(t.jobs, row)))
  {
    var jobs := ReplaceJob(t.jobs, row);
    assert SameKeys(t.jobs, jobs, J.JobId);
    SameKeysKeep(t.jobs, jobs, J.JobId);
    SameKeysBelow(t.jobs, jobs, J.JobId, t.nextId);
    assert RefsTo(jobs, J.JobCategoryOf, t.categories, J.CategoryId);
    assert RefsTo(jobs, J.JobPostedBy, t.users, U.UserId);
    assert RefsTo(jobs, J.JobCompany, t.posterProfiles, U.PosterProfileId);
    RefsToSameTarget(t.requirements, J.RequirementJob, t.jobs, jobs, J.JobId);
    RefsToSameTarget(t.bookmarks, J.BookmarkJob, t.jobs, jobs, J.JobId);
    RefsToSameTarget(t.reports, J.ReportJob, t.jobs, jobs, J.JobId);
    RefsToSameTarget(t.applications, A.ApplicationJob, t.jobs, jobs, J.JobId);
  }

  /** An INSERT under a key no job holds, with the references resolving, keeps the integrity. */
  lemma JobInsertedValid(t: Tables, row: J.Job)
    requires Valid(t) && !JobExists(t, row.id)
    requires CategoryExists(t, row.category) && UserExists(t, row.postedBy) && PosterProfileExists(t, row.company)
    ensures Valid(t.(jobs := t.jobs + [row], nextId := NextAfter(t, row.id)))
  {
    var n := NextAfter(t, row.id);
    PrimaryKeysRaise(t, n);
    UniqueByAppend(t.jobs, J.JobId, row);
    AllBelowAppend(t.jobs, J.JobId, t.nextId, n, row);
    RefsToAppendRow(t.jobs, J.JobCategoryOf, t.categories, J.CategoryId, row);
    RefsToAppendRow(t.jobs, J.JobPostedBy, t.users, U.UserId, row);
    RefsToAppendRow(t.jobs, J.JobCompany, t.posterProfiles, U.PosterProfileId, row);
    RefsToAppendTarget(t.requirements, J.RequirementJob, t.jobs, J.JobId, row);
    RefsToAppendTarget(t.bookmarks, J.BookmarkJob, t.jobs, J.JobId, row);
    RefsToAppendTarget(t.reports, J.ReportJob, t.jobs, J.JobId, row);
    RefsToAppendTarget(t.applications, A.ApplicationJob, t.jobs, J.JobId, row);
  }

  /** `JobApplication.save`, as written: the parent job's in-memory counter is raised and
      written only when the instance has no primary key, and that happens before the INSERT
      under a freshly drawn key, which may then fail. An instance with a key `a.id` is saved
      under that key, as an UPDATE or an INSERT, and the job is left alone. The application's
      own save never writes a status-history entry. */
  function SaveApplicationAsWritten(t: Tables, a: A.JobApplication, job: J.Job, hasPk: bool, now: Time)
    : (r: (Tables, J.Job, Result<A.JobApplication>))
    ensures hasPk ==> r.1 == job && (r.0, r.2) == SaveApplication(t, a)
    ensures !hasPk ==> r.1 == J.StampOnSave(job.(applicationsCount := job.applicationsCount + 1), now)
    ensures !hasPk && JobExists(t, job.id) ==>
      var t1 := t.(jobs := SetCount(t.jobs, job.id, job.applicationsCount + 1));
      (r.0, r.2) == InsertApplication(t1, a)
    ensures !hasPk && !JobExists(t, job.id) ==> r.0 == t && r.2 == Err(DatabaseError)
    ensures r.0.history == t.history
    ensures Valid(t) ==> Valid(r.0)
  {
    if hasPk then
      var (t', res) := SaveApplication(t, a);
      (t', job, res)
    else
      var (t1, job', saved) := SaveJobCounter(t, job.(applicationsCount := job.applicationsCount + 1), now);
      if saved.Err? then (t1, job', Err(saved.error))
      else
        var (t2, res) := InsertApplication(t1, a);
        (t2, job', res)
  }

  /** The application save the counter's design calls for: insert first, and only when the
      insert succeeds raise the parent job's counter by one in the store. */
  function CreateApplication(t: Tables, a: A.JobApplication): (r: (Tables, Result<A.JobApplication>))
    ensures r.1.Ok? <==> JobExists(t, a.job) && UserExists(t, a.applicant) && SeekerProfileExists(t, a.seekerProfile)
                         && !HasKey(t.applications, A.ApplicationKey, A.ApplicationKey(a))
    ensures r.1.Err? ==> r.0 == t && r.1.error == IntegrityError
    ensures r.1.Ok? ==> r.1.value == a.(id := t.nextId)
    ensures r.1.Ok? ==> r.0 == t.(applications := t.applications + [r.1.value], nextId := t.nextId + 1,
                   jobs := BumpCount(t.jobs, a.job))
    ensures r.0.history == t.history
    ensures Valid(t) ==> Valid(r.0)
    ensures Valid(t) && CountersMatch(t) ==> CountersMatch(r.0)
  {
    var (t1, res) := InsertApplication(t, a);
    if res.Err? then (t1, res)
    else
      var t2 := t1.(jobs := BumpCount(t1.jobs, a.job));
      assert Valid(t) ==> Valid(t2) by {
        if Valid(t) { BumpKeepsValid(t1, a.job); }
      }
      assert Valid(t) && CountersMatch(t) ==> CountersMatch(t2) by {
        if Valid(t) && CountersMatch(t) { BumpMatchesCounters(t, res.value); }
      }
      (t2, res)
  }

  /** Raising a counter keeps the integrity of the store. */
  lemma BumpKeepsValid(t: Tables, id: Id)
    requires Valid(t)
    ensures Valid(t.(jobs := BumpCount(t.jobs, id)))
  {
    JobsRewritten(t, BumpCount(t.jobs, id));
  }

  /** Appending an application and raising its job's counter keeps every counter right. */
  lemma BumpMatchesCounters(t: Tables, a: A.JobApplication)
    requires CountersMatch(t)
    ensures CountersMatch(t.(applications := t.applications + [a], jobs := BumpCount(t.jobs, a.job)))
  {
    var t2 := t.(applications := t.applications + [a], jobs := BumpCount(t.jobs, a.job));
    forall i | 0 <= i < |t2.jobs|
      ensures t2.jobs[i].applicationsCount == A.CountFor(t2.applications, t2.jobs[i].id)
    {
      A.CountForAppend(t.applications, a, t.jobs[i].id);
    }
  }

  /** Finding, first half: `objects.create` builds the instance with its key already drawn, so
      `save` sees a primary key, skips the counter, and a store whose counters matched no longer
      does once the new row is inserted. */
  lemma AsWrittenSkipsCounter(t: Tables, a: A.JobApplication, job: J.Job, now: Time)
    requires Valid(t) && CountersMatch(t)
    requires !ApplicationExists(t, a.id) && SaveApplication(t, a).1.Ok?
    ensures SaveApplicationAsWritten(t, a, job, true, now).2.Ok?
    ensures !CountersMatch(SaveApplicationAsWritten(t, a, job, true, now).0)
  {
    var r := SaveApplicationAsWritten(t, a, job, true, now);
    var i :| 0 <= i < |t.jobs| && J.JobId(t.jobs[i]) == a.job;
    A.CountForAppend(t.applications, a, a.job);
    assert r.0.jobs[i] == t.jobs[i];
    assert r.0.jobs[i].applicationsCount != A.CountFor(r.0.applications, r.0.jobs[i].id);
  }

  /** Finding, second half: on the path that does raise the counter, the counter is written
      before the INSERT, so an insert refused as a duplicate leaves the job counting an
      application that does not exist. */
  lemma AsWrittenCountsRefusedInsert(t: Tables, a: A.JobApplication, job: J.Job, now: Time)
    requires CountersMatch(t)
    requires HasKey(t.applications, A.ApplicationKey, A.ApplicationKey(a))
    requires job in t.jobs && job.id == a.job
    ensures SaveApplicationAsWritten(t, a, job, false, now).2 == Err(IntegrityError)
    ensures !CountersMatch(SaveApplicationAsWritten(t, a, job, false, now).0)
  {
    var i :| 0 <= i < |t.jobs| && t.jobs[i] == job;
    assert job.applicationsCount == A.CountFor(t.applications, job.id);
    AsWrittenRefusedStore(t, a, job, now);
    var t1 := t.(jobs := SetCount(t.jobs, job.id, job.applicationsCount + 1));
    CounterAhead(t1, i);
  }

  /** A refused insert after the counter write leaves exactly the counter write behind. */
  lemma AsWrittenRefusedStore(t: Tables, a: A.JobApplication, job: J.Job, now: Time)
    requires HasKey(t.applications, A.ApplicationKey, A.ApplicationKey(a))
    requires job in t.jobs
    ensures var r := SaveApplicationAsWritten(t, a, job, false, now);
      && r.0 == t.(jobs := SetCount(t.jobs, job.id, job.applicationsCount + 1))
      && r.2 == Err(IntegrityError)
  {
    var i :| 0 <= i < |t.jobs| && t.jobs[i] == job;
    assert JobExists(t, job.id);
  }

  /** A job counting one application more than the store holds breaks the counters. */
  lemma CounterAhead(t: Tables, i: nat)
    requires i < |t.jobs| && t.jobs[i].applicationsCount == A.CountFor(t.applications, t.jobs[i].id) + 1
    ensures !CountersMatch(t)
  {
  }

  /** The corrected save keeps the counters exact through any sequence of saves, accepted or
      refused. */
  lemma {:induction false} CreateApplicationsKeepCounters(t: Tables, apps: seq<A.JobApplication>)
    requires Valid(t) && CountersMatch(t)
    ensures Valid(CreateAll(t, apps)) && CountersMatch(CreateAll(t, apps))
  {
    if apps != [] {
      CreateApplicationsKeepCounters(t, apps[..|apps| - 1]);
    }
  }

  /** The store after saving `apps` in order with the corrected save, refused ones skipped. */
  function CreateAll(t: Tables, apps: seq<A.JobApplication>): Tables
  {
    if apps == [] then t else CreateApplication(CreateAll(t, apps[..|apps| - 1]), apps[|apps| - 1]).0
  }

  /** `ApplicationStatusHistory.objects.create(...)`: an append-only audit entry. */
  function CreateStatusHistory(t: Tables, h: A.StatusHistory): (r: (Tables, Result<A.StatusHistory>))
    ensures r.1.Ok? <==> ApplicationExists(t, h.application) && UserExists(t, h.changedBy)
    ensures r.1.Err? ==> r.0 == t && r.1.error == IntegrityError
    ensures r.1.Ok? ==> r.1.value == h.(id := t.nextId)
    ensures r.1.Ok? ==> r.0 == t.(history := t.history + [r.1.value], nextId := t.nextId + 1)
    ensures Valid(t) ==> Valid(r.0)
  {
    if !ApplicationExists(t, h.application) || !UserExists(t, h.changedBy) then (t, Err(IntegrityError))
    else
      var row := h.(id := t.nextId);
      var t' := t.(history := t.history + [row], nextId := t.nextId + 1);
      assert Valid(t) ==> Valid(t') by {
        if Valid(t) {
          PrimaryKeysNext(t);
          KeysInsert(t.history, A.HistoryId, t.nextId, row);
          RefsToAppendRow(t.history, A.HistoryApplication, t.applications, A.ApplicationId, row);
          RefsToAppendRow(t.history, A.HistoryChangedBy, t.users, U.UserId, row);
        }
      }
      (t', Ok(row))
  }

  /** `JobOffer.objects.create(application=...)`: the offer is one-to-one with its application. */
  function CreateOffer(t: Tables, o: A.JobOffer): (r: (Tables, Result<A.JobOffer>))
    ensures r.1.Ok? <==> ApplicationExists(t, o.application) && !HasKey(t.offers, A.OfferApplication, o.application)
    ensures r.1.Err? ==> r.0 == t && r.1.error == IntegrityError
    ensures r.1.Ok? ==> r.1.value == o.(id := t.nextId)
    ensures r.1.Ok? ==> r.0 == t.(offers := t.offers + [r.1.value], nextId := t.nextId + 1)
    ensures Valid(t) ==> Valid(r.0)
  {
    if !ApplicationExists(t, o.application) || HasKey(t.offers, A.OfferApplication, o.application) then
      (t, Err(IntegrityError))
    else
      var row := o.(id := t.nextId);
      var t' := t.(offers := t.offers + [row], nextId := t.nextId + 1);
      assert Valid(t) ==> Valid(t') by {
        if Valid(t) {
          PrimaryKeysNext(t);
          KeysInsert(t.offers, A.OfferId, t.nextId, row);
          UniqueByAppend(t.offers, A.OfferApplication, row);
          RefsToAppendRow(t.offers, A.OfferApplication, t.applications, A.ApplicationId, row);
        }
      }
      (t', Ok(row))
  }

  /** `ApplicationFeedback.objects.create(...)`: at most one per (application, author, type). */
  function CreateFeedback(t: Tables, f: A.ApplicationFeedback): (r: (Tables, Result<A.ApplicationFeedback>))
    ensures r.1.Ok? <==> ApplicationExists(t, f.application) && UserExists(t, f.givenBy)
                         && !HasKey(t.feedback, A.FeedbackKey, A.FeedbackKey(f))
    ensures r.1.Err? ==> r.0 == t && r.1.error == IntegrityError
    ensures r.1.Ok? ==> r.1.value == f.(id := t.nextId)
    ensures r.1.Ok? ==> r.0 == t.(feedback := t.feedback + [r.1.value], nextId := t.nextId + 1)
    ensures Valid(t) ==> Valid(r.0)
  {
    if !ApplicationExists(t, f.application) || !UserExists(t, f.givenBy)
       || HasKey(t.feedback, A.FeedbackKey, A.FeedbackKey(f)) then (t, Err(IntegrityError))
    else
      var row := f.(id := t.nextId);
      var t' := t.(feedback := t.feedback + [row], nextId := t.nextId + 1);
      assert Valid(t) ==> Valid(t') by {
        if Valid(t) {
          PrimaryKeysNext(t);
          KeysInsert(t.feedback, A.FeedbackId, t.nextId, row);
          UniqueByAppend(t.feedback, A.FeedbackKey, row);
          RefsToAppendRow(t.feedback, A.FeedbackApplication, t.applications, A.ApplicationId, row);
          RefsToAppendRow(t.feedback, A.FeedbackGivenBy, t.users, U.UserId, row);
        }
      }
      (t', Ok(row))
  }
}
