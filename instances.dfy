/** In-memory model instances whose `save` changes the instance itself before writing it:
    `Job.save` stamps `published_at` on the instance, and `JobApplication.save` raises the
    counter of the job instance it holds. The store is passed in and the new store returned. */
module Instances {
  import opened Common
  import J = Jobs
  import A = Applications
  import opened Store

  /** A `Job` instance, loaded from the store or built by hand. */
  class JobInstance {
    var row: J.Job

    constructor (row: J.Job)
      ensures this.row == row
    {
      this.row := row;
    }

    /** `Job.save()`: the hook stamps the instance, then every column is written, as
        `Store.SaveJob` states: an UPDATE of the row with the instance's key, or an INSERT
        under that key when there is none, refused when a reference does not resolve. */
    method Save(t: Tables, now: Time) returns (t': Tables, r: Result<()>)
      modifies this
      ensures (t', row, r) == SaveJob(t, old(row), now)
    {
      if row.status == J.Active && row.publishedAt.None? {
        row := row.(publishedAt := Some(now));
      }
      if !CategoryExists(t, row.category) || !UserExists(t, row.postedBy) || !PosterProfileExists(t, row.company) {
        return t, Err(IntegrityError);
      }
      if JobExists(t, row.id) {
        t', r := t.(jobs := ReplaceJob(t.jobs, row)), Ok(());
      } else {
        t', r := t.(jobs := t.jobs + [row], nextId := NextAfter(t, row.id)), Ok(());
      }
    }

    /** `Job.save(update_fields=['applications_count'])`: the hook still runs on the instance,
        but only the counter reaches the store; no row with the key is a DatabaseError. */
    method SaveCounter(t: Tables, now: Time) returns (t': Tables, r: Result<()>)
      modifies this
      ensures row == J.StampOnSave(old(row), now)
      ensures (t', row, r) == SaveJobCounter(t, old(row), now)
    {
      if row.status == J.Active && row.publishedAt.None? {
        row := row.(publishedAt := Some(now));
      }
      if !JobExists(t, row.id) {
        return t, Err(DatabaseError);
      }
      t', r := t.(jobs := SetCount(t.jobs, row.id, row.applicationsCount)), Ok(());
    }
  }

  /** A `JobApplication` instance holding its job instance. */
  class ApplicationInstance {
    var row: A.JobApplication
    /** The primary key the instance carries; the key field's default fills it on construction. */
    var pk: Option<Id>
    var job: JobInstance

    /** `JobApplication(job=..., applicant=..., job_seeker_profile=...)`. */
    constructor (id: Id, job: JobInstance, applicant: Id, seekerProfile: Id)
      ensures row == A.NewApplication(id, job.row.id, applicant, seekerProfile)
      ensures pk == Some(id) && this.job == job
    {
      row := A.NewApplication(id, job.row.id, applicant, seekerProfile);
      pk := Some(id);
      this.job := job;
    }

    /** `JobApplication.save()`, as written. Without a key the job instance's counter is raised
        and saved first; then the key is drawn, given to the instance, and the row inserted
        under it. With a key the row is saved under that key, as an UPDATE or an INSERT. */
    method Save(t: Tables, now: Time) returns (t': Tables, r: Result<A.JobApplication>)
      modifies this, job
      ensures var a := if old(pk).Some? then old(row).(id := old(pk).value) else old(row);
        (t', job.row, r) == SaveApplicationAsWritten(t, a, old(job.row), old(pk).Some?, now)
      ensures old(pk).Some? ==> pk == old(pk) && row == old(row)
      ensures old(pk).None? && r != Err(DatabaseError) ==> pk == Some(t.nextId) && row == old(row).(id := t.nextId)
      ensures old(pk).None? && r == Err(DatabaseError) ==> pk == None && row == old(row)
      ensures job == old(job)
    {
      if pk.Some? {
        t', r := SaveApplication(t, row.(id := pk.value)).0, SaveApplication(t, row.(id := pk.value)).1;
        return;
      }
      job.row := job.row.(applicationsCount := job.row.applicationsCount + 1);
      var saved;
      t', saved := job.SaveCounter(t, now);
      if saved.Err? {
        return t', Err(saved.error);
      }
      pk := Some(t'.nextId);
      row := row.(id := t'.nextId);
      t', r := InsertApplication(t', row).0, InsertApplication(t', row).1;
    }
  }

  /** Every instance the constructor builds has a key, so its first save never raises the
      job's counter, and a successful save leaves the counters out of step. The key is a fresh
      `uuid4`: no stored application holds it. */
  method SaveFreshApplication(t: Tables, job: JobInstance, id: Id, applicant: Id, seekerProfile: Id, now: Time)
    returns (t': Tables, r: Result<A.JobApplication>)
    requires Valid(t) && CountersMatch(t) && !ApplicationExists(t, id)
    modifies job
    ensures job.row == old(job.row)
    ensures r.Ok? ==> !CountersMatch(t')
  {
    var app := new ApplicationInstance(id, job, applicant, seekerProfile);
    t', r := app.Save(t, now);
    if r.Ok? {
      AsWrittenSkipsCounter(t, A.NewApplication(id, job.row.id, applicant, seekerProfile), old(job.row), now);
    }
  }

  /** Saving the same instance twice: once the first save has stored it, the second is an
      UPDATE of its own row that succeeds and changes nothing, whether or not the instance had
      a key to begin with. */
  method SaveTwice(t: Tables, app: ApplicationInstance, now: Time)
    returns (t1: Tables, r1: Result<A.JobApplication>, t2: Tables, r2: Result<A.JobApplication>)
    requires Valid(t)
    modifies app, app.job
    ensures r1.Ok? ==> r2.Ok? && t2 == t1
  {
    t1, r1 := app.Save(t, now);
    if r1.Ok? {
      assert app.pk.Some? && app.row.(id := app.pk.value) == r1.value;
      assert Valid(t1) && r1.value in t1.applications;
      SaveStoredApplication(t1, r1.value);
    }
    t2, r2 := app.Save(t1, now);
  }
}
