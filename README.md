# BlueHired job board: a verified model of its data rules and seeding command

BlueHired is a job board for blue-collar work. A Django back end stores users, company and
seeker profiles, skills, job categories, job postings and job applications. A React client
queries it. This project models, in Dafny, the parts of the system that have behaviour:

- **The store.** `Store.Tables` holds one sequence of rows per table, plus a counter that hands
  out fresh primary keys in place of `uuid4`. `Store.Valid` is the conjunction of three things:
  - every primary key is unique;
  - every `unique`, `unique_together` and one-to-one constraint of the three models files holds;
  - every foreign key resolves.

  Each insert is a function. It returns the new store and either the row or an
  `IntegrityError` that leaves the store as it was. It is proved to keep `Valid`.
- **`Job.save`** (module `Jobs`, class `Instances.JobInstance`). It stamps `published_at` the
  first time a job is saved as active, and never changes a stamp once set.
- **`JobApplication.save`** (class `Instances.ApplicationInstance`, `Store.SaveApplicationAsWritten`).
  The parent job's `applications_count` is bumped and persisted only when the instance has no
  primary key, and before the row is inserted under a freshly drawn key. An instance with a key
  is saved under that key: an UPDATE of its row when there is one, an INSERT otherwise
  (`Store.SaveApplication`). Whether the instance has a key is an explicit input.
- **The `populate_sample_data` command** (module `Populate`). Each of its six phases is a
  method with the command's loop. Each method is proved equal to a fold over the phase's
  records, and the folds carry the phase's guarantees:
  - get-or-create on natural keys;
  - dependent rows only for new owners;
  - lookups that fail are skipped;
  - a job phase that is not idempotent;
  - application sampling that never duplicates a pair.

  The pure derivations the command uses (experience bucketing, city/state splitting, the
  company website slug) are in module `Derivations`.
- **The client's `jobsAPI.getJobs` query builder and request interceptor** (module `Api`).
  The builder keeps which filter entries become query parameters and in what order. The
  interceptor sets the `Authorization: Bearer` header.

The database, each reading of the clock and the random draws are parameters. The store is threaded through
by value. Times are integers (seconds), and `random.randint`, `random.choice` and
`random.sample` results are inputs restricted to the ranges those calls can return.

## Model

| member | source | states |
|---|---|---|
| Users.NewUser | backend/users/models.py:20-29 | a new user has role job_seeker, is not verified, has verification status pending and no phone number |
| Users.NewDocument | backend/users/models.py:52-59 | a new verification document belongs to the given user, has the given type and has no document number |
| Users.NewSeekerProfile | backend/users/models.py:89-104 | a new seeker profile defaults to experience level entry and is available |
| Users.NewPosterProfile | backend/users/models.py:126-140 | a new company profile has no company size and is not company-verified |
| Users.NewSkill | backend/users/models.py:165-169 | a new skill defaults to category `other`, one of the skill categories, and is active |
| Users.NewSeekerSkill | backend/users/models.py:188-192 | a new seeker skill defaults to proficiency beginner with 0 years of experience |
| Jobs.NewCategory | backend/jobs/models.py:7-11 | a new category is active with no description or icon |
| Jobs.NewJob | backend/jobs/models.py:55-96 | a new job is a draft with zero views and zero applications, unpublished, full time, paid monthly, entry level, not featured, not remote |
| Jobs.NewRequirement | backend/jobs/models.py:119-123 | a new skill requirement defaults to level required with 0 minimum years |
| Jobs.NewReport | backend/jobs/models.py:209-214 | a new report is pending |
| Jobs.PublishedOnSave | backend/jobs/models.py:101-104 | a set `published_at` is kept whatever the status; a non-active save never changes it; an active save always leaves it set; the only change a save makes is to set it to the current time |
| Jobs.StampOnSave | backend/jobs/models.py:101-105 | saving changes no field of the job but `published_at` |
| Jobs.StampOnSaveIdempotent | backend/jobs/models.py:102 | saving a job a second time, at any later time, changes nothing further |
| Jobs.FirstActivation | backend/jobs/models.py:101-104 | independent reference: the time of the first save with status active, absent exactly when no save is active |
| Jobs.SavesStampFirstActivation | backend/jobs/models.py:101-105 | over any sequence of saves of an unpublished job, `published_at` ends as the time of the first active save |
| Jobs.SavesKeepStamp | backend/jobs/models.py:102 | once `published_at` is set, no sequence of saves changes or clears it |
| Applications.NewApplication | backend/applications/models.py:19-47 | a new application is pending, not viewed by the employer, with no cover letter |
| Applications.NewOffer | backend/applications/models.py:210-235 | a new offer is pending, paid monthly, with a 3-month probation and a 30-day notice period |
| Common.Find | backend/jobs/management/commands/populate_sample_data.py:298 | `objects.get` by key returns a stored row with that key, and raises DoesNotExist exactly when no row has it |
| Common.GetOrCreate | backend/jobs/management/commands/populate_sample_data.py:86-93 | `get_or_create` creates exactly when no row has the key, returns a stored row with the key, appends only the new row, and keeps the key unique |
| Store.GetOrCreateUser | backend/users/models.py:21 | a user is created exactly when no user has the e-mail; an existing user is returned unchanged; the store keeps its integrity |
| Store.SetUserPhone | backend/jobs/management/commands/populate_sample_data.py:291-293 | only that user's phone number changes, and the store keeps its integrity |
| Store.CreateDocument | backend/users/models.py:78 | the insert succeeds exactly when the user exists and has no document of that type; a refused insert raises IntegrityError and changes nothing |
| Store.CreateSeekerProfile | backend/users/models.py:90 | the insert succeeds exactly when the user exists and has no seeker profile; otherwise IntegrityError and no change |
| Store.CreatePosterProfile | backend/users/models.py:127 | the insert succeeds exactly when the user exists and has no company profile; otherwise IntegrityError and no change |
| Store.GetOrCreateSkill | backend/users/models.py:166 | a skill is created exactly when no skill has the name; an existing skill is returned unchanged |
| Store.CreateSeekerSkill | backend/users/models.py:200 | the insert succeeds exactly when the profile and skill exist and the pair is new; otherwise IntegrityError and no change |
| Store.GetOrCreateCategory | backend/jobs/models.py:8 | a category is created exactly when no category has the name; an existing one is returned unchanged |
| Store.CreateJob | backend/jobs/models.py:101-105 | the stored job is the one the save hook stamped; the insert succeeds exactly when category, poster and company exist; a job with a zero counter keeps the counters matching |
| Store.CreateRequirement | backend/jobs/models.py:131 | the insert succeeds exactly when job and skill exist and the pair is new; otherwise IntegrityError and no change |
| Store.CreateBookmark | backend/jobs/models.py:145 | the insert succeeds exactly when user and job exist and the pair is new; otherwise IntegrityError and no change |
| Store.CreateReport | backend/jobs/models.py:231 | the insert succeeds exactly when job and reporter exist and the pair is new; otherwise IntegrityError and no change |
| Store.InsertApplication | backend/applications/models.py:71 | the row insert succeeds exactly when job, applicant and profile exist and the (job, applicant) pair is new; otherwise IntegrityError and no change |
| Store.SaveJobCounter | backend/applications/models.py:66 | `save(update_fields=['applications_count'])` runs the job's save hook on the instance and writes only the counter of the stored row; a missing row raises DatabaseError and changes nothing |
| Store.SaveApplication | backend/applications/models.py:67 | `super().save()` under the instance's key is refused with IntegrityError, changing nothing, exactly when job, applicant or profile does not exist or another row holds the (job, applicant) pair; otherwise the row with that key is replaced, or the row is inserted under that key and the key is never drawn again; `Valid` is kept |
| Store.SaveStoredApplication | backend/applications/models.py:67 | in a store with integrity, saving an application exactly as stored succeeds and changes nothing |
| Store.SaveApplicationAsWritten | backend/applications/models.py:62-67 | with a key: the row is saved under that key as `Store.SaveApplication` says and the job is untouched; without one: the job's counter is raised by one and persisted, then the row is inserted; status history is never written |
| Store.CreateApplication | backend/applications/models.py:62-67 | corrected save: insert, then raise that job's counter by one only when the insert succeeded; keeps integrity and keeps counters equal to row counts |
| Store.AsWrittenSkipsCounter | backend/applications/models.py:64 | a successful save of an instance whose key no row holds yet leaves the counters no longer matching the rows |
| Store.AsWrittenCountsRefusedInsert | backend/applications/models.py:65-67 | a save without a key for a pair that exists raises IntegrityError but leaves the counter raised |
| Store.CreateApplicationsKeepCounters | backend/applications/models.py:62-67 | any sequence of corrected saves keeps integrity and keeps every counter equal to its job's applications |
| Store.CreateStatusHistory | backend/applications/models.py:77-80 | the insert succeeds exactly when the application and the changing user exist |
| Store.CreateOffer | backend/applications/models.py:211 | the insert succeeds exactly when the application exists and has no offer yet |
| Store.CreateFeedback | backend/applications/models.py:293 | the insert succeeds exactly when application and author exist and the (application, author, type) triple is new |
| Store.SaveJob | backend/jobs/models.py:101-105 | a full save stamps the instance; it is refused with IntegrityError, changing nothing, exactly when category, poster or company does not exist; otherwise the row with the instance's key is replaced by it, or it is inserted under that key and the key is never drawn again; `Valid` is kept |
| Store.SaveJobAgain | backend/jobs/models.py:101-105 | saving the same instance again after a save that succeeded, at any later time, succeeds and changes nothing |
| Instances.JobInstance.Save | backend/jobs/models.py:101-105 | the instance is stamped in place and the store becomes what `Store.SaveJob` gives |
| Instances.JobInstance.SaveCounter | backend/applications/models.py:66 | stamps the instance in place and writes only the counter, as `Store.SaveJobCounter` |
| Instances.ApplicationInstance.constructor | backend/applications/models.py:19 | a freshly built application already holds its key, the `uuid4` default, and has the defaults of a new application |
| Instances.ApplicationInstance.Save | backend/applications/models.py:62-67 | updates the parent job instance in place and the store as `Store.SaveApplicationAsWritten` does, saving under the instance's key when it has one; an instance without a key gets the drawn key once its job's counter was written |
| Instances.SaveTwice | backend/applications/models.py:62-67 | saving the same instance a second time after a first save succeeded succeeds and leaves the store unchanged |
| Instances.SaveFreshApplication | backend/applications/models.py:19 | building and saving a new application leaves the job instance unchanged and, when the insert succeeds, the counters no longer match |
| Api.Text | frontend/src/services/api.ts:58 | `toString` of a string is itself, of a boolean is `true` or `false`, of a number starts with `-` exactly when it is negative |
| Api.JobsQuery | frontend/src/services/api.ts:53-61 | with no filters the parameter list is empty |
| Api.QueryParamsAppend | frontend/src/services/api.ts:56-59 | entries are handled one at a time, in order: the parameters of two runs of entries are the concatenation of theirs |
| Api.QueryParamsSound | frontend/src/services/api.ts:56-59 | every parameter comes from a present entry with that key and that value's text |
| Api.QueryParamsComplete | frontend/src/services/api.ts:56-59 | every present entry appears as a parameter |
| Api.QueryParamsSingle | frontend/src/services/api.ts:57-58 | one entry gives exactly one parameter when present and none otherwise |
| Api.QueryParamsFalseAndZero | frontend/src/services/api.ts:57 | `false` and `0` are kept, while undefined, null and the empty string are dropped |
| Api.QueryParamsNone | frontend/src/services/api.ts:57 | filters with no present entry give no parameters |
| Api.SearchParams.Append | frontend/src/services/api.ts:58 | `params.append` adds one pair at the end |
| Api.GetJobsParams | frontend/src/services/api.ts:53-61 | the loop appends exactly the parameters `Api.JobsQuery` specifies |
| Api.WithTokenBearer | frontend/src/services/api.ts:17-19 | with a stored token, Authorization becomes `Bearer ` + token and every other header is kept |
| Api.WithTokenNone | frontend/src/services/api.ts:16-17 | with no token, or an empty one, the headers are unchanged |
| Api.WithTokenIdempotent | frontend/src/services/api.ts:15-21 | intercepting twice gives the same headers as once |
| Api.Intercept | frontend/src/services/api.ts:15-21 | the interceptor changes the config's headers in place as `Api.WithToken` says and returns the same config |
| Derivations.BucketReaches | backend/jobs/management/commands/populate_sample_data.py:270-276 | a level above entry is reached exactly when years are at least 2, 5 or 10 for mid, senior or expert |
| Derivations.BucketMonotone | backend/jobs/management/commands/populate_sample_data.py:543-549 | more years never give a lower level |
| Derivations.Split | backend/jobs/management/commands/populate_sample_data.py:560 | `str.split` gives at least one part and no part holds the separator |
| Derivations.JoinSplit | backend/jobs/management/commands/populate_sample_data.py:560 | joining the parts with the separator gives back the text |
| Derivations.SplitJoin | backend/jobs/management/commands/populate_sample_data.py:560 | splitting parts joined by the separator gives back the parts |
| Derivations.SplitHasSecond | backend/jobs/management/commands/populate_sample_data.py:561 | a location with a comma has a second part, so indexing it never fails |
| Derivations.StripIsTrim | backend/jobs/management/commands/populate_sample_data.py:560-561 | `strip` removes only leading and trailing whitespace and leaves none at either end |
| Derivations.StripUnique | backend/jobs/management/commands/populate_sample_data.py:560-561 | any slice with only whitespace before and after it and none at its own ends is what `strip` returns, so with `StripIsTrim` this pins `strip` down completely |
| Derivations.StripTrimmed | backend/jobs/management/commands/populate_sample_data.py:560-561 | text without whitespace at its ends is left as it is |
| Derivations.StripIdempotent | backend/jobs/management/commands/populate_sample_data.py:560-561 | stripping twice is stripping once |
| Derivations.State | backend/jobs/management/commands/populate_sample_data.py:561 | a location without a comma gives the empty state |
| Derivations.CityStateRoundTrip | backend/jobs/management/commands/populate_sample_data.py:560-561 | a location written as city, comma, space, state splits back into that city and state |
| Derivations.LocationSplits | backend/jobs/management/commands/populate_sample_data.py:282 | the location written for a seeker splits at the comma into the city and the space-led state |
| Derivations.Lower | backend/jobs/management/commands/populate_sample_data.py:158 | `lower` keeps the length and maps each capital letter to its small letter |
| Derivations.RemoveAll | backend/jobs/management/commands/populate_sample_data.py:386 | `replace(pat, '')` adds no character, and removing a single character leaves none of it |
| Derivations.Slug | backend/jobs/management/commands/populate_sample_data.py:386 | the slug holds no space, no `&` and no capital letter, and only characters of the lowercased name |
| Derivations.Website | backend/jobs/management/commands/populate_sample_data.py:386 | the website is `https://www.` + slug + `.com` |
| Derivations.SlugMayKeepLtd | backend/jobs/management/commands/populate_sample_data.py:386 | one pass of `replace` can leave `ltd` in the slug |
| Populate.SeededCategories | backend/jobs/management/commands/populate_sample_data.py:85-93 | after the phase every seeded name has a category; existing rows are kept as they were and only categories are added |
| Populate.SeededCategoriesFromSeeds | backend/jobs/management/commands/populate_sample_data.py:85-93 | every added category is a seed's row with its defaults |
| Populate.SeededCategoriesValid | backend/jobs/management/commands/populate_sample_data.py:85-93 | the phase keeps the store's integrity, so each name has exactly one row |
| Populate.SeededCategoriesNoop | backend/jobs/management/commands/populate_sample_data.py:86-93 | when every name is present the phase changes nothing |
| Populate.SeededCategoriesIdempotent | backend/jobs/management/commands/populate_sample_data.py:85-93 | a rerun inserts nothing |
| Populate.CreateJobCategories | backend/jobs/management/commands/populate_sample_data.py:85-93 | the loop computes `Populate.SeededCategories` |
| Populate.SeededSkills | backend/jobs/management/commands/populate_sample_data.py:153-161 | after the phase every seeded name has a skill; existing rows are kept and only skills are added |
| Populate.SeededSkillsFromSeeds | backend/jobs/management/commands/populate_sample_data.py:153-161 | every added skill is a seed's row with the description the command writes |
| Populate.SeededSkillsValid | backend/jobs/management/commands/populate_sample_data.py:153-161 | the phase keeps the store's integrity |
| Populate.SeededSkillsNoop | backend/jobs/management/commands/populate_sample_data.py:154-161 | when every name is present the phase changes nothing |
| Populate.SeededSkillsIdempotent | backend/jobs/management/commands/populate_sample_data.py:153-161 | a rerun inserts nothing |
| Populate.CreateSkills | backend/jobs/management/commands/populate_sample_data.py:153-161 | the loop computes `Populate.SeededSkills` |
| Populate.AddedSeekerSkills | backend/jobs/management/commands/populate_sample_data.py:296-306 | the skill loop only adds seeker skills, one fresh key each |
| Populate.AddedSeekerSkillsValid | backend/jobs/management/commands/populate_sample_data.py:296-306 | the skill loop keeps the store's integrity |
| Populate.AddedSeekerSkillsRows | backend/jobs/management/commands/populate_sample_data.py:298-304 | for a new profile the loop never raises, and every added row is the profile's, for a listed skill, intermediate, with a drawn number of years |
| Populate.AddedSeekerSkillsComplete | backend/jobs/management/commands/populate_sample_data.py:296-304 | every listed skill that exists gets a row for the profile |
| Populate.AddedSeekerSkillsStopped | backend/jobs/management/commands/populate_sample_data.py:297-306 | only DoesNotExist is caught, so after an IntegrityError the loop adds nothing more |
| Populate.AddSeekerSkills | backend/jobs/management/commands/populate_sample_data.py:296-306 | the loop computes `Populate.AddedSeekerSkills` |
| Populate.SeedSeeker | backend/jobs/management/commands/populate_sample_data.py:251-306 | one record touches only users, seeker profiles and seeker skills |
| Populate.SeedSeekerKnown | backend/jobs/management/commands/populate_sample_data.py:265 | a record whose e-mail is taken changes nothing |
| Populate.SeedSeekerNew | backend/jobs/management/commands/populate_sample_data.py:253-293 | a new record adds its user, with the phone set, and that user's profile, keeping integrity |
| Populate.SeedSeekerSkills | backend/jobs/management/commands/populate_sample_data.py:296-306 | a new record's skill rows are the new profile's, for its listed skills, with between 1 and its experience years, and cover every listed skill that exists |
| Populate.SeedSeekerUsers | backend/jobs/management/commands/populate_sample_data.py:253-263 | after a record its e-mail has a user and existing users are unchanged |
| Populate.SeededSeekers | backend/jobs/management/commands/populate_sample_data.py:251-306 | the phase touches only users, seeker profiles and seeker skills |
| Populate.SeededSeekersValid | backend/jobs/management/commands/populate_sample_data.py:251-306 | on a store with integrity the phase runs to the end and keeps it |
| Populate.SeededSeekersKeepUsers | backend/jobs/management/commands/populate_sample_data.py:253-263 | existing users are never overwritten |
| Populate.SeededSeekersEmails | backend/jobs/management/commands/populate_sample_data.py:253-263 | after the phase every seeded e-mail has a user |
| Populate.SeededSeekersProfiles | backend/jobs/management/commands/populate_sample_data.py:265-289 | every added profile belongs to a user created in this run |
| Populate.SeededSeekersNoop | backend/jobs/management/commands/populate_sample_data.py:265 | when every e-mail is taken the phase changes nothing |
| Populate.SeededSeekersIdempotent | backend/jobs/management/commands/populate_sample_data.py:251-306 | a rerun, whatever it draws, adds nothing |
| Populate.SeededSeekersStopped | backend/jobs/management/commands/populate_sample_data.py:251-306 | after an uncaught error the remaining records are not reached |
| Populate.CreateJobSeekers | backend/jobs/management/commands/populate_sample_data.py:251-306 | the loop computes `Populate.SeededSeekers` |
| Populate.SeedEmployer | backend/jobs/management/commands/populate_sample_data.py:361-393 | one record touches only users and company profiles |
| Populate.SeedEmployerNew | backend/jobs/management/commands/populate_sample_data.py:363-393 | a new record adds exactly its user and that user's company profile |
| Populate.SeededEmployers | backend/jobs/management/commands/populate_sample_data.py:361-393 | the phase touches only users and company profiles |
| Populate.SeededEmployersValid | backend/jobs/management/commands/populate_sample_data.py:361-393 | on a store with integrity the phase runs to the end, keeps it and keeps existing users |
| Populate.SeededEmployersEmails | backend/jobs/management/commands/populate_sample_data.py:363-373 | after the phase every seeded e-mail has a user |
| Populate.SeededEmployersProfiles | backend/jobs/management/commands/populate_sample_data.py:375-393 | every added company profile belongs to a user created in this run |
| Populate.SeededEmployersNoop | backend/jobs/management/commands/populate_sample_data.py:375 | when every e-mail is taken the phase changes nothing |
| Populate.SeededEmployersIdempotent | backend/jobs/management/commands/populate_sample_data.py:361-393 | a rerun adds nothing |
| Populate.SeededEmployersStopped | backend/jobs/management/commands/populate_sample_data.py:361-393 | after an uncaught error the remaining records are not reached |
| Populate.CreateJobPosters | backend/jobs/management/commands/populate_sample_data.py:361-393 | the loop computes `Populate.SeededEmployers` |
| Populate.Lookups | backend/jobs/management/commands/populate_sample_data.py:536-540 | the three lookups fail exactly when the poster, the poster's company or the category is missing, and return stored rows with the right keys otherwise |
| Populate.AddedRequirements | backend/jobs/management/commands/populate_sample_data.py:573-582 | the skill loop only adds requirements, one fresh key each |
| Populate.AddedRequirementsValid | backend/jobs/management/commands/populate_sample_data.py:573-582 | the loop keeps the store's integrity |
| Populate.AddedRequirementsRows | backend/jobs/management/commands/populate_sample_data.py:576-580 | for a new job the loop never raises, and every row is the job's, for a listed skill, required, with 0 minimum years |
| Populate.AddedRequirementsComplete | backend/jobs/management/commands/populate_sample_data.py:573-580 | every listed skill that exists is required by the job |
| Populate.AddedRequirementsStopped | backend/jobs/management/commands/populate_sample_data.py:574-582 | after an IntegrityError the loop adds nothing more |
| Populate.AddRequirements | backend/jobs/management/commands/populate_sample_data.py:573-582 | the loop computes `Populate.AddedRequirements` |
| Populate.PostJob | backend/jobs/management/commands/populate_sample_data.py:552-582 | posting touches only jobs and requirements and keeps existing jobs |
| Populate.PostJobAdds | backend/jobs/management/commands/populate_sample_data.py:552-570 | posting an active unpublished job adds it with a fresh key and `published_at` set to the save hook's clock reading |
| Populate.PostJobRuns | backend/jobs/management/commands/populate_sample_data.py:572-582 | posting a job with distinct skills never raises |
| Populate.SeedJob | backend/jobs/management/commands/populate_sample_data.py:533-587 | one record touches only jobs and requirements and keeps existing jobs |
| Populate.SeedJobSkipped | backend/jobs/management/commands/populate_sample_data.py:586-587 | a record whose poster or category is missing changes nothing and the loop continues |
| Populate.SeedJobNew | backend/jobs/management/commands/populate_sample_data.py:533-570 | a record whose lookups succeed adds exactly its job: its deadline is thirty days after the clock reading taken for line 567 and its `published_at` is the save hook's later reading |
| Populate.SeedJobValid | backend/jobs/management/commands/populate_sample_data.py:533-587 | one record keeps the store's integrity and matching counters |
| Populate.SeededJobs | backend/jobs/management/commands/populate_sample_data.py:533-587 | the phase touches only jobs and requirements and keeps existing jobs |
| Populate.SeededJobsValid | backend/jobs/management/commands/populate_sample_data.py:533-587 | the phase runs to the end, keeps integrity and matching counters, and adds one job per record whose lookups succeed |
| Populate.SeededJobsRows | backend/jobs/management/commands/populate_sample_data.py:552-570 | every added job is active, on site, with zero views and zero applications, published at some record's hook reading and open until thirty days after that record's line-567 reading |
| Populate.SeededJobsWindow | backend/jobs/management/commands/populate_sample_data.py:567 | when the clock does not go back, every added job closes for applications at most thirty days after its publication |
| Populate.SeededJobsTwice | backend/jobs/management/commands/populate_sample_data.py:552 | a second run adds every resolvable job again, so the phase is not idempotent |
| Populate.SeededJobsStopped | backend/jobs/management/commands/populate_sample_data.py:574-587 | after an uncaught error the remaining records are not reached |
| Populate.CreateJobListings | backend/jobs/management/commands/populate_sample_data.py:533-587 | the loop computes `Populate.SeededJobs` |
| Populate.ApplyOnce | backend/jobs/management/commands/populate_sample_data.py:604-614 | one pick adds at most one application, touches nothing else, and counts what it added |
| Populate.ApplyOnceValid | backend/jobs/management/commands/populate_sample_data.py:605-613 | with stored seeker and job, one pick never raises and keeps integrity |
| Populate.ApplyOnceApplied | backend/jobs/management/commands/populate_sample_data.py:605-613 | after a pick the pair has an application, and any added row is the seeker's for that job |
| Populate.AppliedTo | backend/jobs/management/commands/populate_sample_data.py:603-614 | one seeker's loop adds at most one application per pick, touches nothing else, and counts what it added |
| Populate.AppliedToValid | backend/jobs/management/commands/populate_sample_data.py:603-614 | with stored rows the loop never raises and keeps integrity |
| Populate.AppliedToComplete | backend/jobs/management/commands/populate_sample_data.py:603-613 | after the loop the seeker has applied to every picked job |
| Populate.AppliedToRows | backend/jobs/management/commands/populate_sample_data.py:606-613 | every added application is the seeker's, for a listed job, unviewed, with a drawn status |
| Populate.AppliedToNoop | backend/jobs/management/commands/populate_sample_data.py:605 | when every pair exists the loop adds nothing |
| Populate.AppliedToStopped | backend/jobs/management/commands/populate_sample_data.py:603-614 | after an uncaught error the remaining picks are not reached |
| Populate.AppliedAll | backend/jobs/management/commands/populate_sample_data.py:598-614 | the nested loops only add applications, and the count equals the rows added |
| Populate.AppliedAllValid | backend/jobs/management/commands/populate_sample_data.py:598-614 | with stored rows the loops never raise and keep integrity |
| Populate.AppliedAllComplete | backend/jobs/management/commands/populate_sample_data.py:598-613 | after the loops every seeker has applied to each job picked for them |
| Populate.AppliedAllRows | backend/jobs/management/commands/populate_sample_data.py:598-613 | every added application is some seeker's, for a listed job, unviewed, and pending, under review or shortlisted |
| Populate.AppliedAllBound | backend/jobs/management/commands/populate_sample_data.py:599-601 | with at most three picks each, at most three applications per seeker are created |
| Populate.AppliedAllNoop | backend/jobs/management/commands/populate_sample_data.py:605 | when every picked pair exists the loops add nothing |
| Populate.AppliedAllStopped | backend/jobs/management/commands/populate_sample_data.py:598-614 | after an uncaught error the remaining seekers are not reached |
| Populate.ApplySeeker | backend/jobs/management/commands/populate_sample_data.py:598-614 | one pass of the outer loop computes one more step of `Populate.AppliedAll` |
| Populate.ApplyAll | backend/jobs/management/commands/populate_sample_data.py:598-614 | the nested loops compute `Populate.AppliedAll` |
| Populate.SeekerSnapshot | backend/jobs/management/commands/populate_sample_data.py:593 | the first five seeker profiles, or all when fewer |
| Populate.JobSnapshot | backend/jobs/management/commands/populate_sample_data.py:594 | the eight newest jobs, newest first, or all when fewer |
| Populate.SnapshotStored | backend/jobs/management/commands/populate_sample_data.py:593-594 | every profile and job of the snapshots is stored, with its user |
| Populate.SeededApplications | backend/jobs/management/commands/populate_sample_data.py:589-616 | the phase touches only applications, and `applications_created` equals the rows added |
| Populate.SeededApplicationsValid | backend/jobs/management/commands/populate_sample_data.py:589-616 | on a store with integrity the phase never raises, keeps integrity, writes no job, and creates at most 15 applications |
| Populate.SeededApplicationsRows | backend/jobs/management/commands/populate_sample_data.py:598-613 | every drawn pair has an application afterwards, and every new one is a snapshot seeker's, for a snapshot job, with a drawn status |
| Populate.SeededApplicationsCountersDrift | backend/jobs/management/commands/populate_sample_data.py:606-613 | once the phase creates an application, counters that matched no longer do |
| Populate.SeededApplicationsIdempotent | backend/jobs/management/commands/populate_sample_data.py:604-605 | rerun with the same draws, the phase creates nothing |
| Populate.CreateApplications | backend/jobs/management/commands/populate_sample_data.py:589-616 | the method computes `Populate.SeededApplications` |
| Populate.BeforeApplications | backend/jobs/management/commands/populate_sample_data.py:19-32 | the first five phases write no application |
| Populate.BeforeApplicationsValid | backend/jobs/management/commands/populate_sample_data.py:19-32 | on a store with integrity and matching counters the first five phases run to the end and keep both |
| Populate.PopulatedValid | backend/jobs/management/commands/populate_sample_data.py:16-37 | the command runs to the end, keeps integrity, creates at most 15 applications, and leaves counters mismatched once it creates one |
| Populate.PopulatedCountsStayZero | backend/jobs/management/commands/populate_sample_data.py:16-37 | run on an empty database, the command leaves every job's `applications_count` at zero |
| Populate.Handle | backend/jobs/management/commands/populate_sample_data.py:16-37 | the method runs the six phases in order, as `Populate.Populated` specifies |

## Left out

- The Interview, ApplicationMessage, JobView and JobAlert tables have no unique constraint and no logic, so they are not part of this model.
- Username uniqueness comes from Django's `AbstractUser`, outside these files. The e-mail doubles as the username in every row the command writes.
- Cascade deletes and `SET_NULL` are not modelled, because nothing in the core deletes.
- File-extension validation of uploads is Django's, so it is not modelled.
- Password hashing (`set_password`) and the save that follows it are not modelled. They change no field this model keeps.
- Progress messages on standard output are not modelled. Nor is `print_summary`, which `handle` never calls.
- The randomly drawn pincodes, expected salaries and company contact phone are not stored. Nothing is claimed about them, nor about the order of the minimum and maximum salary.
- The backdated `applied_at` is not modelled: the field is set by the framework on insert.
- Populate.ApplicationRow: stores no cover letter. The greeting text the command writes is not modelled.
- Populate.JobRow: does not store the job's description, requirements and benefits text.
- The command's literal records are parameters (`Populate.SampleData`), not constants. The lemmas hold for any records that have distinct skill lists, as the command's do, and for draws of years `randint` can return (`Populate.SeekerDraws`).
- Populate.SeededSeekers, Populate.CreateJobSeekers: admit no seeker record that lists skills with zero years of experience, because no draw fits it. The command raises `ValueError` from `randint(1, 0)` only when such a record's user is new and one of its skills exists, so the model also leaves out zero-year records the command runs without error: those whose e-mail is taken or whose skills are all missing. Every record of the command has at least two years.
- `choices` are not enforced on save. Skill category is therefore an open string, and the command writes `security` and `general`, which are not among the declared categories.
- Populate.SeekerSnapshot: assumes that the profile table, which declares no ordering, lists rows in insertion order.
- Populate.JobSnapshot: orders by insertion rather than `created_at`. The two agree because every insert takes a later time.
- The axios HTTP calls, endpoints and URL percent-encoding are library behaviour, so they are not modelled. `localStorage` is an input token.
- Api.Text: states only the sign of a number's text, not JavaScript's number formatting.
- Derivations.Lower: folds only ASCII letters. Python's `lower` also folds other scripts.
- Concurrency is not modelled. Each operation is one step on the store.
- The application statuses of the client's type declarations are not modelled. Only the back end's eight statuses are.

## Findings

The design intends `applications_count` to equal the number of applications for the job, kept up to
date when each application is created. The code as written does not do that.

| source | as written | input that shows it | evidently intended | confidence | as-written member | corrected member |
|---|---|---|---|---|---|---|
| backend/applications/models.py:64 | `if not self.pk` guards the counter bump, but `id` defaults to `uuid4` (line 19), so every instance built by the constructor or by `objects.create` already has a key and the job's counter is never raised; where the guard is true, the bump is persisted before the insert, so a refused duplicate still counts | any new application saved through `JobApplication.objects.create` (the loader's `create_applications` does this for every application) | raise the job's counter by one exactly when a new application row is inserted | high (not executed) | Store.AsWrittenSkipsCounter | Store.CreateApplicationsKeepCounters |

`Store.SaveApplicationAsWritten` models the save as written. `Store.AsWrittenSkipsCounter` and
`Store.AsWrittenCountsRefusedInsert` show both halves of the discrepancy. The loader runs the code
as written, and `Populate.SeededApplicationsCountersDrift` shows its counters drift.
`Store.CreateApplication` is the corrected save. `Store.CreateApplicationsKeepCounters` proves it
keeps every counter equal to its job's applications.
