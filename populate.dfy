/** The `populate_sample_data` management command: six phases run in order against the store.
    Each phase is a method with the loop the command has, proved equal to a fold over its
    records; the folds carry what each phase promises. Random draws are parameters, constrained
    to the range the draw can produce; each reading of the clock is a parameter too. */
module Populate {
  import opened Common
  import U = Users
  import J = Jobs
  import A = Applications
  import opened Store
  import D = Derivations

  // ----- job categories -----

  datatype CategorySeed = CategorySeed(name: string, description: string, icon: string)

  /** The row `get_or_create` inserts when no category has the seed's name. */
  function CategoryRow(c: CategorySeed): J.JobCategory
  {
    J.JobCategory(0, c.name, Some(c.description), Some(c.icon), true)
  }

  /** The store after `create_job_categories` over `cats`: every seeded name has a category,
      existing rows are left as they are, and the only rows added are seeded ones. */
  function SeededCategories(t: Tables, cats: seq<CategorySeed>): (t': Tables)
    ensures t' == t.(categories := t'.categories, nextId := t'.nextId)
    ensures t.categories <= t'.categories
    ensures t'.nextId == t.nextId + (|t'.categories| - |t.categories|)
    ensures forall k :: 0 <= k < |cats| ==> HasKey(t'.categories, J.CategoryName, cats[k].name)
    decreases |cats|
  {
    if cats == [] then t
    else
      var t1 := SeededCategories(t, cats[..|cats| - 1]);
      var r := GetOrCreateCategory(t1, CategoryRow(cats[|cats| - 1]));
      forall k | 0 <= k < |cats| - 1
        ensures HasKey(r.0.categories, J.CategoryName, cats[k].name)
      {
        assert cats[..|cats| - 1][k] == cats[k];
        HasKeyKept(t1.categories, r.0.categories, J.CategoryName, cats[k].name);
      }
      r.0
  }

  /** The only rows the phase adds are seeded ones, each with the seed's fields. */
  lemma {:induction false} SeededCategoriesFromSeeds(t: Tables, cats: seq<CategorySeed>, i: nat)
    requires |t.categories| <= i < |SeededCategories(t, cats).categories|
    ensures exists k :: 0 <= k < |cats| && SeededCategories(t, cats).categories[i] == CategoryRow(cats[k]).(id := SeededCategories(t, cats).categories[i].id)
    decreases |cats|
  {
    var t1 := SeededCategories(t, cats[..|cats| - 1]);
    if i < |t1.categories| {
      SeededCategoriesFromSeeds(t, cats[..|cats| - 1], i);
      var k :| 0 <= k < |cats| - 1 && t1.categories[i] == CategoryRow(cats[..|cats| - 1][k]).(id := t1.categories[i].id);
      assert cats[..|cats| - 1][k] == cats[k];
    } else {
      assert SeededCategories(t, cats).categories[i] == CategoryRow(cats[|cats| - 1]).(id := SeededCategories(t, cats).categories[i].id);
    }
  }

  /** The phase keeps the store's integrity. */
  lemma {:induction false} SeededCategoriesValid(t: Tables, cats: seq<CategorySeed>)
    requires Valid(t)
    ensures Valid(SeededCategories(t, cats))
    decreases |cats|
  {
    if cats != [] {
      SeededCategoriesValid(t, cats[..|cats| - 1]);
    }
  }

  /** When every seeded name already has a category the phase changes nothing. */
  lemma {:induction false} SeededCategoriesNoop(t: Tables, cats: seq<CategorySeed>)
    requires forall k :: 0 <= k < |cats| ==> HasKey(t.categories, J.CategoryName, cats[k].name)
    ensures SeededCategories(t, cats) == t
    decreases |cats|
  {
    if cats != [] {
      SeededCategoriesNoop(t, cats[..|cats| - 1]);
    }
  }

  /** Running the phase again adds nothing. */
  lemma SeededCategoriesIdempotent(t: Tables, cats: seq<CategorySeed>)
    ensures SeededCategories(SeededCategories(t, cats), cats) == SeededCategories(t, cats)
  {
    SeededCategoriesNoop(SeededCategories(t, cats), cats);
  }

  /** `create_job_categories`. */
  method CreateJobCategories(t: Tables, cats: seq<CategorySeed>) returns (t': Tables)
    ensures t' == SeededCategories(t, cats)
  {
    t' := t;
    var i := 0;
    while i < |cats|
      invariant 0 <= i <= |cats|
      invariant t' == SeededCategories(t, cats[..i])
    {
      assert cats[..i + 1][..i] == cats[..i];
      var r := GetOrCreateCategory(t', CategoryRow(cats[i]));
      t' := r.0;
      i := i + 1;
    }
    assert cats[..|cats|] == cats;
  }

  // ----- skills -----

  datatype SkillSeed = SkillSeed(name: string, category: string)

  /** The row `get_or_create` inserts when no skill has the seed's name. */
  function SkillRow(s: SkillSeed): U.Skill
  {
    U.Skill(0, s.name, s.category, Some("Professional skill in " + D.Lower(s.name)), true)
  }

  /** The store after `create_skills` over `skills`: every seeded name has a skill, existing
      rows are left as they are, and the only rows added are seeded ones. */
  function SeededSkills(t: Tables, skills: seq<SkillSeed>): (t': Tables)
    ensures t' == t.(skills := t'.skills, nextId := t'.nextId)
    ensures t.skills <= t'.skills
    ensures t'.nextId == t.nextId + (|t'.skills| - |t.skills|)
    ensures forall k :: 0 <= k < |skills| ==> HasKey(t'.skills, U.SkillName, skills[k].name)
    decreases |skills|
  {
    if skills == [] then t
    else
      var t1 := SeededSkills(t, skills[..|skills| - 1]);
      var r := GetOrCreateSkill(t1, SkillRow(skills[|skills| - 1]));
      forall k | 0 <= k < |skills| - 1
        ensures HasKey(r.0.skills, U.SkillName, skills[k].name)
      {
        assert skills[..|skills| - 1][k] == skills[k];
        HasKeyKept(t1.skills, r.0.skills, U.SkillName, skills[k].name);
      }
      r.0
  }

  /** The only rows the phase adds are seeded ones, each with the seed's fields. */
  lemma {:induction false} SeededSkillsFromSeeds(t: Tables, skills: seq<SkillSeed>, i: nat)
    requires |t.skills| <= i < |SeededSkills(t, skills).skills|
    ensures exists k :: 0 <= k < |skills| && SeededSkills(t, skills).skills[i] == SkillRow(skills[k]).(id := SeededSkills(t, skills).skills[i].id)
    decreases |skills|
  {
    var t1 := SeededSkills(t, skills[..|skills| - 1]);
    if i < |t1.skills| {
      SeededSkillsFromSeeds(t, skills[..|skills| - 1], i);
      var k :| 0 <= k < |skills| - 1 && t1.skills[i] == SkillRow(skills[..|skills| - 1][k]).(id := t1.skills[i].id);
      assert skills[..|skills| - 1][k] == skills[k];
    } else {
      assert SeededSkills(t, skills).skills[i] == SkillRow(skills[|skills| - 1]).(id := SeededSkills(t, skills).skills[i].id);
    }
  }

  /** The phase keeps the store's integrity. */
  lemma {:induction false} SeededSkillsValid(t: Tables, skills: seq<SkillSeed>)
    requires Valid(t)
    ensures Valid(SeededSkills(t, skills))
    decreases |skills|
  {
    if skills != [] {
      SeededSkillsValid(t, skills[..|skills| - 1]);
    }
  }

  /** When every seeded name already has a skill the phase changes nothing. */
  lemma {:induction false} SeededSkillsNoop(t: Tables, skills: seq<SkillSeed>)
    requires forall k :: 0 <= k < |skills| ==> HasKey(t.skills, U.SkillName, skills[k].name)
    ensures SeededSkills(t, skills) == t
    decreases |skills|
  {
    if skills != [] {
      SeededSkillsNoop(t, skills[..|skills| - 1]);
    }
  }

  /** Running the phase again adds nothing. */
  lemma SeededSkillsIdempotent(t: Tables, skills: seq<SkillSeed>)
    ensures SeededSkills(SeededSkills(t, skills), skills) == SeededSkills(t, skills)
  {
    SeededSkillsNoop(SeededSkills(t, skills), skills);
  }

  /** `create_skills`. */
  method CreateSkills(t: Tables, skills: seq<SkillSeed>) returns (t': Tables)
    ensures t' == SeededSkills(t, skills)
  {
    t' := t;
    var i := 0;
    while i < |skills|
      invariant 0 <= i <= |skills|
      invariant t' == SeededSkills(t, skills[..i])
    {
      SeededSkillsStep(t, skills, i);
      var r := GetOrCreateSkill(t', SkillRow(skills[i]));
      t' := r.0;
      i := i + 1;
    }
    assert skills[..|skills|] == skills;
  }

  /** One more record of the phase. */
  lemma SeededSkillsStep(t: Tables, skills: seq<SkillSeed>, i: nat)
    requires i < |skills|
    ensures SeededSkills(t, skills[..i + 1]) == GetOrCreateSkill(SeededSkills(t, skills[..i]), SkillRow(skills[i])).0
  {
    var s1 := skills[..i + 1];
    assert s1[..i] == skills[..i] && s1[i] == skills[i];
  }

  // ----- job seekers -----

  datatype SeekerSeed = SeekerSeed(
    email: string,
    firstName: string,
    lastName: string,
    phone: string,
    city: string,
    state: string,
    experienceYears: nat,
    skills: seq<string>)

  /** The user `get_or_create` inserts for a seeker: the e-mail doubles as the username. */
  function SeekerUser(s: SeekerSeed): U.User
  {
    U.User(0, s.email, s.email, s.firstName, s.lastName, U.JobSeeker, None, true, true,
           U.VerificationStatus.Pending)
  }

  function SeekerBio(s: SeekerSeed): string
  {
    "Experienced " + s.firstName + " with " + Decimal(s.experienceYears) + " years in the field."
  }

  /** The profile created for a new seeker user. */
  function SeekerProfileRow(s: SeekerSeed, user: Id): U.JobSeekerProfile
  {
    U.JobSeekerProfile(0, user, Some(SeekerBio(s)), D.ExperienceBucket(s.experienceYears),
                       Some(D.Location(s.city, s.state)), Some(s.city), Some(s.state), true)
  }

  /** The row linking a new seeker's profile to one of the seeker's skills. */
  function SeekerSkillRow(profile: Id, skill: Id, years: nat): U.JobSeekerSkill
  {
    U.JobSeekerSkill(0, profile, skill, U.Proficiency.Intermediate, years)
  }

  /** The skill id `id` names a skill whose name is one of `names`. */
  predicate NamedIn(skills: seq<U.Skill>, id: Id, names: seq<string>)
  {
    match Find(skills, U.SkillId, id)
    case Some(sk) => sk.name in names
    case None => false
  }

  /** The store after the skill loop of one new seeker: a name with a skill gets a row for
      `profile` with the drawn years, a name without one is skipped. The flag is false when an
      insert raised IntegrityError, which the loop does not catch, so the command stops there. */
  function AddedSeekerSkills(t: Tables, profile: Id, names: seq<string>, years: seq<nat>): (r: (Tables, bool))
    requires |years| == |names|
    ensures r.0 == t.(seekerSkills := r.0.seekerSkills, nextId := r.0.nextId)
    ensures t.seekerSkills <= r.0.seekerSkills
    ensures r.0.nextId == t.nextId + (|r.0.seekerSkills| - |t.seekerSkills|)
    decreases |names|
  {
    if names == [] then (t, true)
    else
      var n := |names| - 1;
      var (t1, ok) := AddedSeekerSkills(t, profile, names[..n], years[..n]);
      if !ok then (t1, false)
      else
        match Find(t1.skills, U.SkillName, names[n])
        case None => (t1, true)
        case Some(skill) =>
          var (t2, res) := CreateSeekerSkill(t1, SeekerSkillRow(profile, skill.id, years[n]));
          (t2, res.Ok?)
  }

  /** What the skill loop needs of a new seeker: a stored profile with no skills yet, and a
      skill list without repeats. */
  predicate FreshProfile(t: Tables, profile: Id, names: seq<string>)
  {
    && UniqueBy(t.skills, U.SkillId) && SeekerProfileExists(t, profile) && Distinct(names)
    && forall j :: 0 <= j < |t.seekerSkills| ==> t.seekerSkills[j].jobSeeker != profile
  }

  /** The skill loop keeps the store's integrity. */
  lemma {:induction false} AddedSeekerSkillsValid(t: Tables, profile: Id, names: seq<string>, years: seq<nat>)
    requires |years| == |names| && Valid(t)
    ensures Valid(AddedSeekerSkills(t, profile, names, years).0)
    decreases |names|
  {
    if names != [] {
      var n := |names| - 1;
      AddedSeekerSkillsValid(t, profile, names[..n], years[..n]);
    }
  }

  /** For a new seeker the skill loop never hits a duplicate, and adds only rows of that seeker,
      each for one of the listed skills, at intermediate level, with one of the drawn numbers of
      years. */
  lemma {:induction false} AddedSeekerSkillsRows(t: Tables, profile: Id, names: seq<string>, years: seq<nat>)
    requires |years| == |names| && FreshProfile(t, profile, names)
    ensures AddedSeekerSkills(t, profile, names, years).1
    ensures var rows := AddedSeekerSkills(t, profile, names, years).0.seekerSkills;
      forall j :: |t.seekerSkills| <= j < |rows| ==>
        && rows[j].jobSeeker == profile && NamedIn(t.skills, rows[j].skill, names)
        && rows[j].proficiency == U.Proficiency.Intermediate && rows[j].yearsOfExperience in years
    decreases |names|
  {
    if names != [] {
      var n := |names| - 1;
      assert Distinct(names[..n]);
      AddedSeekerSkillsRows(t, profile, names[..n], years[..n]);
      var t1 := AddedSeekerSkills(t, profile, names[..n], years[..n]).0;
      var r := AddedSeekerSkills(t, profile, names, years);
      assert forall x :: x in names[..n] ==> x in names;
      assert forall y :: y in years[..n] ==> y in years;
      match Find(t1.skills, U.SkillName, names[n])
      case None =>
      case Some(skill) =>
        var row := SeekerSkillRow(profile, skill.id, years[n]);
        FindUnique(t.skills, U.SkillId, skill);
        assert NamedIn(t.skills, skill.id, names);
        assert names[n] !in names[..n];
        forall j | 0 <= j < |t1.seekerSkills|
          ensures U.SeekerSkillKey(t1.seekerSkills[j]) != U.SeekerSkillKey(row)
        {
          if j >= |t.seekerSkills| {
            assert NamedIn(t.skills, t1.seekerSkills[j].skill, names[..n]);
          }
        }
        assert SkillExists(t1, skill.id) by {
          var i :| 0 <= i < |t1.skills| && t1.skills[i] == skill;
        }
        assert r.0.seekerSkills == t1.seekerSkills + [row.(id := t1.nextId)];
    }
  }

  /** For a new seeker every listed name that names a skill ends up linked to the seeker. */
  lemma {:induction false} AddedSeekerSkillsComplete(t: Tables, profile: Id, names: seq<string>, years: seq<nat>)
    requires |years| == |names| && FreshProfile(t, profile, names)
    ensures var rows := AddedSeekerSkills(t, profile, names, years).0.seekerSkills;
      forall k :: 0 <= k < |names| && Find(t.skills, U.SkillName, names[k]).Some? ==>
        HasKey(rows, U.SeekerSkillKey, (profile, Find(t.skills, U.SkillName, names[k]).value.id))
    decreases |names|
  {
    if names != [] {
      var n := |names| - 1;
      assert Distinct(names[..n]);
      AddedSeekerSkillsComplete(t, profile, names[..n], years[..n]);
      AddedSeekerSkillsRows(t, profile, names, years);
      var t1 := AddedSeekerSkills(t, profile, names[..n], years[..n]).0;
      var rows := AddedSeekerSkills(t, profile, names, years).0.seekerSkills;
      var extra := rows[|t1.seekerSkills|..];
      assert rows == t1.seekerSkills + extra;
      forall k | 0 <= k < |names| && Find(t.skills, U.SkillName, names[k]).Some?
        ensures HasKey(rows, U.SeekerSkillKey, (profile, Find(t.skills, U.SkillName, names[k]).value.id))
      {
        var key := (profile, Find(t.skills, U.SkillName, names[k]).value.id);
        if k < n {
          assert names[..n][k] == names[k];
          HasKeyAppend(t1.seekerSkills, U.SeekerSkillKey, extra, key);
        } else {
          assert rows == t1.seekerSkills + [rows[|rows| - 1]];
          HasKeyLast(t1.seekerSkills, U.SeekerSkillKey, rows[|rows| - 1]);
        }
      }
    }
  }

  /** One record of `create_job_seekers`: get or create the user; only a user created here gets
      a profile, a phone number and skills. The flag is false when an insert raised. */
  function SeedSeeker(t: Tables, s: SeekerSeed, years: seq<nat>): (r: (Tables, bool))
    requires |years| == |s.skills|
    ensures r.0 == t.(users := r.0.users, seekerProfiles := r.0.seekerProfiles,
                      seekerSkills := r.0.seekerSkills, nextId := r.0.nextId)
    ensures r.0.nextId >= t.nextId
  {
    var (t1, user, created) := GetOrCreateUser(t, SeekerUser(s));
    if !created then (t1, true)
    else
      var (t2, res) := CreateSeekerProfile(t1, SeekerProfileRow(s, user.id));
      if res.Err? then (t2, false)
      else AddedSeekerSkills(SetUserPhone(t2, user.id, s.phone), res.value.id, s.skills, years)
  }

  /** A record whose e-mail already has a user changes nothing. */
  lemma SeedSeekerKnown(t: Tables, s: SeekerSeed, years: seq<nat>)
    requires |years| == |s.skills| && HasKey(t.users, U.UserEmail, s.email)
    ensures SeedSeeker(t, s, years) == (t, true)
  {
  }

  /** The user, profile and phone number a new seeker record leaves behind. */
  lemma SeedSeekerNew(t: Tables, s: SeekerSeed, years: seq<nat>)
    requires |years| == |s.skills| && Valid(t) && Distinct(s.skills)
    requires !HasKey(t.users, U.UserEmail, s.email)
    ensures var r := SeedSeeker(t, s, years);
      && r.1 && Valid(r.0)
      && |r.0.users| == |t.users| + 1
      && (forall i :: 0 <= i < |t.users| ==> r.0.users[i] == t.users[i])
      && r.0.users[|t.users|] == SeekerUser(s).(id := t.nextId, phoneNumber := Some(s.phone))
      && r.0.seekerProfiles == t.seekerProfiles + [SeekerProfileRow(s, t.nextId).(id := t.nextId + 1)]
  {
    var (t1, user, created) := GetOrCreateUser(t, SeekerUser(s));
    assert UserExists(t1, user.id) by {
      assert t1.users[|t.users|] == user;
    }
    RefsBelow(t.seekerProfiles, U.SeekerProfileUser, t.users, U.UserId, t.nextId);
    FreeKey(t.seekerProfiles, U.SeekerProfileUser, t.nextId);
    var (t2, res) := CreateSeekerProfile(t1, SeekerProfileRow(s, user.id));
    var t3 := SetUserPhone(t2, user.id, s.phone);
    var p := res.value;
    assert SeekerProfileExists(t3, p.id) by {
      assert t3.seekerProfiles[|t.seekerProfiles|] == p;
    }
    RefsBelow(t.seekerSkills, U.SeekerSkillProfile, t.seekerProfiles, U.SeekerProfileId, t.nextId);
    assert FreshProfile(t3, p.id, s.skills);
    AddedSeekerSkillsValid(t3, p.id, s.skills, years);
    AddedSeekerSkillsRows(t3, p.id, s.skills, years);
    forall i | 0 <= i < |t.users| ensures t3.users[i] == t.users[i] {
      assert t1.users[i] == t.users[i];
    }
  }

  /** The skills of a new seeker record: rows only for the new profile, one per listed name that
      names a skill, each at intermediate level with between 1 and the record's years. */
  lemma SeedSeekerSkills(t: Tables, s: SeekerSeed, years: seq<nat>)
    requires |years| == |s.skills| && Valid(t) && Distinct(s.skills)
    requires !HasKey(t.users, U.UserEmail, s.email)
    requires forall k :: 0 <= k < |years| ==> 1 <= years[k] <= s.experienceYears
    ensures var rows := SeedSeeker(t, s, years).0.seekerSkills;
      && t.seekerSkills <= rows
      && (forall j :: |t.seekerSkills| <= j < |rows| ==>
            && rows[j].jobSeeker == t.nextId + 1 && NamedIn(t.skills, rows[j].skill, s.skills)
            && rows[j].proficiency == U.Proficiency.Intermediate
            && 1 <= rows[j].yearsOfExperience <= s.experienceYears)
      && (forall k :: 0 <= k < |s.skills| && Find(t.skills, U.SkillName, s.skills[k]).Some? ==>
            HasKey(rows, U.SeekerSkillKey, (t.nextId + 1, Find(t.skills, U.SkillName, s.skills[k]).value.id)))
  {
    var (t1, user, created) := GetOrCreateUser(t, SeekerUser(s));
    assert UserExists(t1, user.id) by {
      assert t1.users[|t.users|] == user;
    }
    RefsBelow(t.seekerProfiles, U.SeekerProfileUser, t.users, U.UserId, t.nextId);
    FreeKey(t.seekerProfiles, U.SeekerProfileUser, t.nextId);
    var (t2, res) := CreateSeekerProfile(t1, SeekerProfileRow(s, user.id));
    var t3 := SetUserPhone(t2, user.id, s.phone);
    var p := res.value;
    assert SeekerProfileExists(t3, p.id) by {
      assert t3.seekerProfiles[|t.seekerProfiles|] == p;
    }
    RefsBelow(t.seekerSkills, U.SeekerSkillProfile, t.seekerProfiles, U.SeekerProfileId, t.nextId);
    assert FreshProfile(t3, p.id, s.skills);
    AddedSeekerSkillsRows(t3, p.id, s.skills, years);
    AddedSeekerSkillsComplete(t3, p.id, s.skills, years);
  }

  /** Whether every record's draw of years matches its skill list, and each draw is one
      `randint(1, experience_years)` can return. A record with skills and no years has no such
      draw: there `randint` raises, and the command stops with it. */
  predicate SeekerDraws(seeds: seq<SeekerSeed>, years: seq<seq<nat>>)
  {
    |years| == |seeds| && forall i :: 0 <= i < |seeds| ==> YearsDrawn(seeds[i], years[i])
  }

  /** Whether `years` holds one draw of `randint(1, experience_years)` per skill of `s`. */
  predicate YearsDrawn(s: SeekerSeed, years: seq<nat>)
  {
    |years| == |s.skills| && forall k :: 0 <= k < |years| ==> 1 <= years[k] <= s.experienceYears
  }

  /** The draws of the first `n` records fit those records. */
  lemma SeekerDrawsPrefix(seeds: seq<SeekerSeed>, years: seq<seq<nat>>, n: nat)
    requires SeekerDraws(seeds, years) && n <= |seeds|
    ensures SeekerDraws(seeds[..n], years[..n])
  {
    var s1, y1 := seeds[..n], years[..n];
    forall i | 0 <= i < n ensures s1[i] == seeds[i] && y1[i] == years[i] {}
  }

  /** The store after `create_job_seekers` over `seeds`, with `years[i][k]` the draw of
      `randint(1, experience_years)` for the k-th skill of the i-th record. The flag is false
      when an insert raised, and the records after it are not reached. */
  function SeededSeekers(t: Tables, seeds: seq<SeekerSeed>, years: seq<seq<nat>>): (r: (Tables, bool))
    requires SeekerDraws(seeds, years)
    ensures r.0 == t.(users := r.0.users, seekerProfiles := r.0.seekerProfiles,
                      seekerSkills := r.0.seekerSkills, nextId := r.0.nextId)
    ensures r.0.nextId >= t.nextId
    decreases |seeds|
  {
    if seeds == [] then (t, true)
    else
      var n := |seeds| - 1;
      SeekerDrawsPrefix(seeds, years, n);
      var (t1, ok) := SeededSeekers(t, seeds[..n], years[..n]);
      if !ok then (t1, false) else SeedSeeker(t1, seeds[n], years[n])
  }

  /** Every record lists each of its skills once, as the command's records do. */
  predicate DistinctSkills(seeds: seq<SeekerSeed>)
  {
    forall i :: 0 <= i < |seeds| ==> Distinct(seeds[i].skills)
  }

  /** On a store with integrity the phase runs to the end and keeps the integrity. */
  lemma {:induction false} SeededSeekersValid(t: Tables, seeds: seq<SeekerSeed>, years: seq<seq<nat>>)
    requires SeekerDraws(seeds, years) && Valid(t) && DistinctSkills(seeds)
    ensures SeededSeekers(t, seeds, years).1 && Valid(SeededSeekers(t, seeds, years).0)
    decreases |seeds|
  {
    if seeds != [] {
      var n := |seeds| - 1;
      SeekerDrawsPrefix(seeds, years, n);
      assert DistinctSkills(seeds[..n]);
      SeededSeekersValid(t, seeds[..n], years[..n]);
      var t1 := SeededSeekers(t, seeds[..n], years[..n]).0;
      if !HasKey(t1.users, U.UserEmail, seeds[n].email) {
        SeedSeekerNew(t1, seeds[n], years[n]);
      }
    }
  }

  /** One record keeps the users there were and leaves its e-mail with a user. */
  lemma SeedSeekerUsers(t: Tables, s: SeekerSeed, years: seq<nat>)
    requires |years| == |s.skills| && Valid(t) && Distinct(s.skills)
    ensures var users := SeedSeeker(t, s, years).0.users;
      && HasKey(users, U.UserEmail, s.email)
      && |t.users| <= |users|
      && (forall i :: 0 <= i < |t.users| ==> users[i] == t.users[i])
  {
    if !HasKey(t.users, U.UserEmail, s.email) {
      SeedSeekerNew(t, s, years);
      assert U.UserEmail(SeedSeeker(t, s, years).0.users[|t.users|]) == s.email;
    }
  }

  /** The users that were there before the phase are left exactly as they were: a known
      e-mail is not updated from its record. */
  lemma {:induction false} SeededSeekersKeepUsers(t: Tables, seeds: seq<SeekerSeed>, years: seq<seq<nat>>)
    requires SeekerDraws(seeds, years) && Valid(t) && DistinctSkills(seeds)
    ensures var users := SeededSeekers(t, seeds, years).0.users;
      && |t.users| <= |users|
      && (forall i :: 0 <= i < |t.users| ==> users[i] == t.users[i])
    decreases |seeds|
  {
    if seeds != [] {
      var n := |seeds| - 1;
      SeekerDrawsPrefix(seeds, years, n);
      assert DistinctSkills(seeds[..n]);
      SeededSeekersValid(t, seeds[..n], years[..n]);
      SeededSeekersKeepUsers(t, seeds[..n], years[..n]);
      var t1 := SeededSeekers(t, seeds[..n], years[..n]).0;
      SeedSeekerUsers(t1, seeds[n], years[n]);
    }
  }

  /** Users kept in place keep the e-mails of the records before the last. */
  lemma EmailsKept(seeds: seq<SeekerSeed>, before: seq<SeekerSeed>, users: seq<U.User>, users': seq<U.User>)
    requires seeds != [] && before == seeds[..|seeds| - 1]
    requires forall k :: 0 <= k < |before| ==> HasKey(users, U.UserEmail, before[k].email)
    requires |users| <= |users'| && forall i :: 0 <= i < |users| ==> users'[i] == users[i]
    ensures forall k :: 0 <= k < |before| ==> HasKey(users', U.UserEmail, seeds[k].email)
  {
    forall k | 0 <= k < |before| ensures HasKey(users', U.UserEmail, seeds[k].email) {
      assert before[k] == seeds[k];
      HasKeyKept(users, users', U.UserEmail, seeds[k].email);
    }
  }

  /** After the phase every record's e-mail has a user. */
  lemma {:induction false} SeededSeekersEmails(t: Tables, seeds: seq<SeekerSeed>, years: seq<seq<nat>>)
    requires SeekerDraws(seeds, years) && Valid(t) && DistinctSkills(seeds)
    ensures forall k :: 0 <= k < |seeds| ==> HasKey(SeededSeekers(t, seeds, years).0.users, U.UserEmail, seeds[k].email)
    decreases |seeds|
  {
    if seeds != [] {
      var n := |seeds| - 1;
      SeekerDrawsPrefix(seeds, years, n);
      assert DistinctSkills(seeds[..n]);
      SeededSeekersValid(t, seeds[..n], years[..n]);
      SeededSeekersEmails(t, seeds[..n], years[..n]);
      var t1 := SeededSeekers(t, seeds[..n], years[..n]).0;
      SeedSeekerUsers(t1, seeds[n], years[n]);
      var users := SeededSeekers(t, seeds, years).0.users;
      assert users == SeedSeeker(t1, seeds[n], years[n]).0.users;
      EmailsKept(seeds, seeds[..n], t1.users, users);
      forall k | 0 <= k < |seeds| ensures HasKey(users, U.UserEmail, seeds[k].email) {
        if k < n {
          assert k < |seeds[..n]|;
          assert HasKey(users, U.UserEmail, seeds[k].email);
        } else {
          assert k == n;
          assert HasKey(users, U.UserEmail, seeds[n].email);
        }
      }
    }
  }

  /** Profiles are only created for users the phase itself created: the profiles there were are
      kept, and each added one belongs to a user that did not exist before. */
  lemma SeededSeekersProfiles(t: Tables, seeds: seq<SeekerSeed>, years: seq<seq<nat>>)
    requires SeekerDraws(seeds, years) && Valid(t) && DistinctSkills(seeds)
    ensures var profiles := SeededSeekers(t, seeds, years).0.seekerProfiles;
      && t.seekerProfiles <= profiles
      && forall j :: |t.seekerProfiles| <= j < |profiles| ==> profiles[j].user >= t.nextId && !UserExists(t, profiles[j].user)
  {
    SeededSeekersProfileUsers(t, seeds, years);
    var profiles := SeededSeekers(t, seeds, years).0.seekerProfiles;
    forall j | |t.seekerProfiles| <= j < |profiles| ensures !UserExists(t, profiles[j].user) {
      if UserExists(t, profiles[j].user) {
        HasKeyBelow(t.users, U.UserId, t.nextId, profiles[j].user);
      }
    }
  }

  /** Every profile the phase adds names a user key handed out during the phase. */
  lemma {:induction false} SeededSeekersProfileUsers(t: Tables, seeds: seq<SeekerSeed>, years: seq<seq<nat>>)
    requires SeekerDraws(seeds, years) && Valid(t) && DistinctSkills(seeds)
    ensures var profiles := SeededSeekers(t, seeds, years).0.seekerProfiles;
      && t.seekerProfiles <= profiles
      && forall j :: |t.seekerProfiles| <= j < |profiles| ==> profiles[j].user >= t.nextId
    decreases |seeds|
  {
    if seeds != [] {
      var n := |seeds| - 1;
      SeekerDrawsPrefix(seeds, years, n);
      assert DistinctSkills(seeds[..n]);
      SeededSeekersValid(t, seeds[..n], years[..n]);
      SeededSeekersProfileUsers(t, seeds[..n], years[..n]);
      var t1 := SeededSeekers(t, seeds[..n], years[..n]).0;
      assert SeededSeekers(t, seeds, years) == SeedSeeker(t1, seeds[n], years[n]);
      if HasKey(t1.users, U.UserEmail, seeds[n].email) {
        SeedSeekerKnown(t1, seeds[n], years[n]);
      } else {
        SeedSeekerNew(t1, seeds[n], years[n]);
        var profiles := SeededSeekers(t, seeds, years).0.seekerProfiles;
        assert profiles == t1.seekerProfiles + [SeekerProfileRow(seeds[n], t1.nextId).(id := t1.nextId + 1)];
        forall j | |t.seekerProfiles| <= j < |profiles| ensures profiles[j].user >= t.nextId {
          if j < |t1.seekerProfiles| {
            assert profiles[j] == t1.seekerProfiles[j];
          }
        }
      }
    }
  }

  /** When every record's e-mail already has a user the phase changes nothing. */
  lemma {:induction false} SeededSeekersNoop(t: Tables, seeds: seq<SeekerSeed>, years: seq<seq<nat>>)
    requires SeekerDraws(seeds, years)
    requires forall k :: 0 <= k < |seeds| ==> HasKey(t.users, U.UserEmail, seeds[k].email)
    ensures SeededSeekers(t, seeds, years) == (t, true)
    decreases |seeds|
  {
    if seeds != [] {
      var n := |seeds| - 1;
      SeekerDrawsPrefix(seeds, years, n);
      assert forall k :: 0 <= k < n ==> seeds[..n][k] == seeds[k];
      SeededSeekersNoop(t, seeds[..n], years[..n]);
    }
  }

  /** Running the phase again, whatever it draws, adds no user, profile or skill. */
  lemma SeededSeekersIdempotent(t: Tables, seeds: seq<SeekerSeed>, years: seq<seq<nat>>, again: seq<seq<nat>>)
    requires SeekerDraws(seeds, years) && SeekerDraws(seeds, again) && Valid(t) && DistinctSkills(seeds)
    ensures var t' := SeededSeekers(t, seeds, years).0;
      SeededSeekers(t', seeds, again) == (t', true)
  {
    SeededSeekersEmails(t, seeds, years);
    SeededSeekersNoop(SeededSeekers(t, seeds, years).0, seeds, again);
  }

  /** Once an insert has raised, the rest of the skill loop is not reached. */
  lemma {:induction false} AddedSeekerSkillsStopped(t: Tables, profile: Id, names: seq<string>, years: seq<nat>, i: nat)
    requires |years| == |names| && i <= |names|
    requires !AddedSeekerSkills(t, profile, names[..i], years[..i]).1
    ensures AddedSeekerSkills(t, profile, names, years) == AddedSeekerSkills(t, profile, names[..i], years[..i])
    decreases |names|
  {
    if i == |names| {
      assert names[..i] == names && years[..i] == years;
    } else {
      var n := |names| - 1;
      assert names[..n][..i] == names[..i] && years[..n][..i] == years[..i];
      AddedSeekerSkillsStopped(t, profile, names[..n], years[..n], i);
    }
  }

  /** Once an insert has raised, the records after it are not reached. */
  lemma {:induction false} SeededSeekersStopped(t: Tables, seeds: seq<SeekerSeed>, years: seq<seq<nat>>, i: nat)
    requires SeekerDraws(seeds, years) && i <= |seeds|
    requires SeekerDraws(seeds[..i], years[..i]) && !SeededSeekers(t, seeds[..i], years[..i]).1
    ensures SeededSeekers(t, seeds, years) == SeededSeekers(t, seeds[..i], years[..i])
    decreases |seeds|
  {
    if i == |seeds| {
      assert seeds[..i] == seeds && years[..i] == years;
    } else {
      var n := |seeds| - 1;
      assert seeds[..n][..i] == seeds[..i];
      assert years[..n][..i] == years[..i];
      SeekerDrawsPrefix(seeds, years, n);
      SeededSeekersStopped(t, seeds[..n], years[..n], i);
    }
  }

  /** The skill loop of `create_job_seekers` for one new seeker. */
  method AddSeekerSkills(t: Tables, profile: Id, names: seq<string>, years: seq<nat>) returns (t': Tables, ok: bool)
    requires |years| == |names|
    ensures (t', ok) == AddedSeekerSkills(t, profile, names, years)
  {
    t', ok := t, true;
    var i := 0;
    while i < |names|
      invariant 0 <= i <= |names|
      invariant (t', true) == AddedSeekerSkills(t, profile, names[..i], years[..i])
    {
      assert names[..i + 1][..i] == names[..i] && years[..i + 1][..i] == years[..i];
      var skill := Find(t'.skills, U.SkillName, names[i]);
      if skill.Some? {
        var r := CreateSeekerSkill(t', SeekerSkillRow(profile, skill.value.id, years[i]));
        t' := r.0;
        if r.1.Err? {
          AddedSeekerSkillsStopped(t, profile, names, years, i + 1);
          return t', false;
        }
      }
      i := i + 1;
    }
    assert names[..i] == names && years[..i] == years;
  }

  /** One more record of the phase, after the records before it ran to the end. */
  lemma SeededSeekersStep(t: Tables, seeds: seq<SeekerSeed>, years: seq<seq<nat>>, i: nat)
    requires SeekerDraws(seeds, years) && i < |seeds|
    requires SeekerDraws(seeds[..i], years[..i]) && SeededSeekers(t, seeds[..i], years[..i]).1
    ensures SeekerDraws(seeds[..i + 1], years[..i + 1])
    ensures SeededSeekers(t, seeds[..i + 1], years[..i + 1])
      == SeedSeeker(SeededSeekers(t, seeds[..i], years[..i]).0, seeds[i], years[i])
  {
    SeekerDrawsPrefix(seeds, years, i + 1);
    var s1, y1 := seeds[..i + 1], years[..i + 1];
    assert s1[..i] == seeds[..i] && s1[i] == seeds[i];
    assert y1[..i] == years[..i] && y1[i] == years[i];
  }

  /** One pass of the loop of `create_job_seekers`: the user, and for a new user the profile,
      the phone number and the skills. */
  method AddJobSeeker(t: Tables, s: SeekerSeed, years: seq<nat>) returns (t': Tables, ok: bool)
    requires |years| == |s.skills|
    ensures (t', ok) == SeedSeeker(t, s, years)
  {
    var r := GetOrCreateUser(t, SeekerUser(s));
    t', ok := r.0, true;
    if r.2 {
      var p := CreateSeekerProfile(t', SeekerProfileRow(s, r.1.id));
      t' := p.0;
      if p.1.Err? {
        return t', false;
      }
      t' := SetUserPhone(t', r.1.id, s.phone);
      t', ok := AddSeekerSkills(t', p.1.value.id, s.skills, years);
    }
  }

  /** `create_job_seekers`. */
  method CreateJobSeekers(t: Tables, seeds: seq<SeekerSeed>, years: seq<seq<nat>>) returns (t': Tables, ok: bool)
    requires SeekerDraws(seeds, years)
    ensures (t', ok) == SeededSeekers(t, seeds, years)
  {
    t', ok := t, true;
    var i := 0;
    while i < |seeds|
      invariant 0 <= i <= |seeds| && SeekerDraws(seeds[..i], years[..i])
      invariant (t', true) == SeededSeekers(t, seeds[..i], years[..i])
    {
      SeededSeekersStep(t, seeds, years, i);
      t', ok := AddJobSeeker(t', seeds[i], years[i]);
      if !ok {
        SeededSeekersStopped(t, seeds, years, i + 1);
        return;
      }
      i := i + 1;
    }
    assert seeds[..i] == seeds && years[..i] == years;
  }

  // ----- job posters -----

  datatype EmployerSeed = EmployerSeed(
    email: string,
    firstName: string,
    lastName: string,
    companyName: string,
    companyType: string,
    city: string,
    state: string)

  /** The user `get_or_create` inserts for an employer record. */
  function PosterUser(e: EmployerSeed): U.User
  {
    U.User(0, e.email, e.email, e.firstName, e.lastName, U.JobPoster, None, true, true,
           U.VerificationStatus.Pending)
  }

  /** The company profile created for a new employer user. */
  function PosterProfileRow(e: EmployerSeed, user: Id): U.JobPosterProfile
  {
    U.JobPosterProfile(0, user, e.companyName,
                       Some(e.companyName + " is a leading company in " + e.companyType + " sector."),
                       Some(U.Medium), Some(e.companyType), Some(D.Website(e.companyName)),
                       Some("Corporate Office, " + e.city), Some(e.city), Some(e.state), true)
  }

  /** One record of `create_job_posters`: get or create the user; only a user created here gets
      a company profile. The flag is false when the insert raised. */
  function SeedEmployer(t: Tables, e: EmployerSeed): (r: (Tables, bool))
    ensures r.0 == t.(users := r.0.users, posterProfiles := r.0.posterProfiles, nextId := r.0.nextId)
    ensures r.0.nextId >= t.nextId
  {
    var (t1, user, created) := GetOrCreateUser(t, PosterUser(e));
    if !created then (t1, true)
    else
      var (t2, res) := CreatePosterProfile(t1, PosterProfileRow(e, user.id));
      (t2, res.Ok?)
  }

  /** A new employer record adds its user and that user's company profile, and nothing else. */
  lemma SeedEmployerNew(t: Tables, e: EmployerSeed)
    requires Valid(t) && !HasKey(t.users, U.UserEmail, e.email)
    ensures var r := SeedEmployer(t, e);
      && r.1 && Valid(r.0)
      && r.0.users == t.users + [PosterUser(e).(id := t.nextId)]
      && r.0.posterProfiles == t.posterProfiles + [PosterProfileRow(e, t.nextId).(id := t.nextId + 1)]
  {
    var (t1, user, created) := GetOrCreateUser(t, PosterUser(e));
    assert UserExists(t1, user.id) by {
      assert t1.users[|t.users|] == user;
    }
    RefsBelow(t.posterProfiles, U.PosterProfileUser, t.users, U.UserId, t.nextId);
    FreeKey(t.posterProfiles, U.PosterProfileUser, t.nextId);
  }

  /** The store after `create_job_posters` over `seeds`; the flag is false when an insert
      raised, and the records after it are not reached. */
  function SeededEmployers(t: Tables, seeds: seq<EmployerSeed>): (r: (Tables, bool))
    ensures r.0 == t.(users := r.0.users, posterProfiles := r.0.posterProfiles, nextId := r.0.nextId)
    ensures r.0.nextId >= t.nextId
    decreases |seeds|
  {
    if seeds == [] then (t, true)
    else
      var n := |seeds| - 1;
      var (t1, ok) := SeededEmployers(t, seeds[..n]);
      if !ok then (t1, false) else SeedEmployer(t1, seeds[n])
  }

  /** On a store with integrity the phase runs to the end, keeps the integrity, and only
      appends users. */
  lemma {:induction false} SeededEmployersValid(t: Tables, seeds: seq<EmployerSeed>)
    requires Valid(t)
    ensures var r := SeededEmployers(t, seeds);
      r.1 && Valid(r.0) && t.users <= r.0.users
    decreases |seeds|
  {
    if seeds != [] {
      var n := |seeds| - 1;
      SeededEmployersValid(t, seeds[..n]);
      var t1 := SeededEmployers(t, seeds[..n]).0;
      if !HasKey(t1.users, U.UserEmail, seeds[n].email) {
        SeedEmployerNew(t1, seeds[n]);
      }
    }
  }

  /** After the phase every record's e-mail has a user. */
  lemma {:induction false} SeededEmployersEmails(t: Tables, seeds: seq<EmployerSeed>)
    requires Valid(t)
    ensures forall k :: 0 <= k < |seeds| ==> HasKey(SeededEmployers(t, seeds).0.users, U.UserEmail, seeds[k].email)
    decreases |seeds|
  {
    if seeds != [] {
      var n := |seeds| - 1;
      SeededEmployersValid(t, seeds[..n]);
      SeededEmployersEmails(t, seeds[..n]);
      var t1 := SeededEmployers(t, seeds[..n]).0;
      var users := SeededEmployers(t, seeds).0.users;
      var extra := users[|t1.users|..];
      assert SeededEmployers(t, seeds) == SeedEmployer(t1, seeds[n]);
      if !HasKey(t1.users, U.UserEmail, seeds[n].email) {
        SeedEmployerNew(t1, seeds[n]);
        HasKeyLast(t1.users, U.UserEmail, PosterUser(seeds[n]).(id := t1.nextId));
      } else {
        assert users == t1.users;
      }
      assert HasKey(users, U.UserEmail, seeds[n].email);
      assert users == t1.users + extra;
      forall k | 0 <= k < |seeds| ensures HasKey(users, U.UserEmail, seeds[k].email) {
        if k < n {
          assert seeds[..n][k] == seeds[k];
          HasKeyAppend(t1.users, U.UserEmail, extra, seeds[k].email);
          assert HasKey(users, U.UserEmail, seeds[k].email);
        } else {
          assert k == n;
        }
      }
    }
  }

  /** Company profiles are only created for users the phase itself created. */
  lemma {:induction false} SeededEmployersProfiles(t: Tables, seeds: seq<EmployerSeed>)
    requires Valid(t)
    ensures var profiles := SeededEmployers(t, seeds).0.posterProfiles;
      && t.posterProfiles <= profiles
      && forall j :: |t.posterProfiles| <= j < |profiles| ==> profiles[j].user >= t.nextId && !UserExists(t, profiles[j].user)
    decreases |seeds|
  {
    if seeds != [] {
      var n := |seeds| - 1;
      SeededEmployersValid(t, seeds[..n]);
      SeededEmployersProfiles(t, seeds[..n]);
      var t1 := SeededEmployers(t, seeds[..n]).0;
      if !HasKey(t1.users, U.UserEmail, seeds[n].email) {
        SeedEmployerNew(t1, seeds[n]);
      }
      var profiles := SeededEmployers(t, seeds).0.posterProfiles;
      forall j | |t.posterProfiles| <= j < |profiles| ensures !UserExists(t, profiles[j].user) {
        if UserExists(t, profiles[j].user) {
          HasKeyBelow(t.users, U.UserId, t.nextId, profiles[j].user);
        }
      }
    }
  }

  /** When every record's e-mail already has a user the phase changes nothing. */
  lemma {:induction false} SeededEmployersNoop(t: Tables, seeds: seq<EmployerSeed>)
    requires forall k :: 0 <= k < |seeds| ==> HasKey(t.users, U.UserEmail, seeds[k].email)
    ensures SeededEmployers(t, seeds) == (t, true)
    decreases |seeds|
  {
    if seeds != [] {
      var n := |seeds| - 1;
      assert forall k :: 0 <= k < n ==> seeds[..n][k] == seeds[k];
      SeededEmployersNoop(t, seeds[..n]);
    }
  }

  /** Running the phase again adds no user and no company profile. */
  lemma SeededEmployersIdempotent(t: Tables, seeds: seq<EmployerSeed>)
    requires Valid(t)
    ensures var t' := SeededEmployers(t, seeds).0;
      SeededEmployers(t', seeds) == (t', true)
  {
    SeededEmployersEmails(t, seeds);
    SeededEmployersNoop(SeededEmployers(t, seeds).0, seeds);
  }

  /** Once an insert has raised, the records after it are not reached. */
  lemma {:induction false} SeededEmployersStopped(t: Tables, seeds: seq<EmployerSeed>, i: nat)
    requires i <= |seeds| && !SeededEmployers(t, seeds[..i]).1
    ensures SeededEmployers(t, seeds) == SeededEmployers(t, seeds[..i])
    decreases |seeds|
  {
    if i == |seeds| {
      assert seeds[..i] == seeds;
    } else {
      var n := |seeds| - 1;
      assert seeds[..n][..i] == seeds[..i];
      SeededEmployersStopped(t, seeds[..n], i);
    }
  }

  /** One more record of the phase, after the records before it ran to the end. */
  lemma SeededEmployersStep(t: Tables, seeds: seq<EmployerSeed>, i: nat)
    requires i < |seeds| && SeededEmployers(t, seeds[..i]).1
    ensures SeededEmployers(t, seeds[..i + 1]) == SeedEmployer(SeededEmployers(t, seeds[..i]).0, seeds[i])
  {
    var s1 := seeds[..i + 1];
    assert s1[..i] == seeds[..i] && s1[i] == seeds[i];
  }

  /** One pass of the loop of `create_job_posters`: the user, and for a new user the company
      profile. */
  method AddJobPoster(t: Tables, e: EmployerSeed) returns (t': Tables, ok: bool)
    ensures (t', ok) == SeedEmployer(t, e)
  {
    var r := GetOrCreateUser(t, PosterUser(e));
    t', ok := r.0, true;
    if r.2 {
      var p := CreatePosterProfile(t', PosterProfileRow(e, r.1.id));
      t', ok := p.0, p.1.Ok?;
    }
  }

  /** `create_job_posters`. */
  method CreateJobPosters(t: Tables, seeds: seq<EmployerSeed>) returns (t': Tables, ok: bool)
    ensures (t', ok) == SeededEmployers(t, seeds)
  {
    t', ok := t, true;
    var i := 0;
    while i < |seeds|
      invariant 0 <= i <= |seeds|
      invariant (t', true) == SeededEmployers(t, seeds[..i])
    {
      SeededEmployersStep(t, seeds, i);
      t', ok := AddJobPoster(t', seeds[i]);
      if !ok {
        SeededEmployersStopped(t, seeds, i + 1);
        return;
      }
      i := i + 1;
    }
    assert seeds[..i] == seeds;
  }

  // ----- job listings -----

  datatype JobSeed = JobSeed(
    title: string,
    category: string,
    companyEmail: string,
    location: string,
    salaryMin: int,
    salaryMax: int,
    jobType: J.JobType,
    experienceRequired: int,
    skills: seq<string>)

  /** Thirty days, in seconds: the application window of a sample job. */
  const ApplicationWindow: int := 30 * 24 * 60 * 60

  /** What the command draws for one job record: the `random.choice([True, False])` for the
      featured flag, the clock reading the application deadline is counted from, and the later
      reading the save hook stamps as the publication time. */
  datatype JobDraw = JobDraw(featured: bool, created: Time, saved: Time)

  /** The job `objects.create` is given for a record whose poster, company and category were
      found: open for applications until thirty days after the first clock reading. */
  function JobRow(j: JobSeed, category: Id, user: Id, company: Id, d: JobDraw): J.Job
  {
    J.Job(0, j.title, category, user, company, j.jobType, D.ExperienceBucket(j.experienceRequired),
          j.location, D.City(j.location), D.State(j.location), false, Some(j.salaryMin),
          Some(j.salaryMax), J.Monthly, Some(d.created + ApplicationWindow), J.Active, d.featured, 0, 0, None)
  }

  /** The three lookups of a job record: the poster user by e-mail, the user's company profile,
      and the category by name; None when one raises DoesNotExist. */
  function Lookups(t: Tables, j: JobSeed): (r: Option<(U.User, U.JobPosterProfile, J.JobCategory)>)
    ensures r.Some? ==> r.value.0 in t.users && r.value.0.email == j.companyEmail
    ensures r.Some? ==> r.value.1 in t.posterProfiles && r.value.1.user == r.value.0.id
    ensures r.Some? ==> r.value.2 in t.categories && r.value.2.name == j.category
    ensures r.None? <==> (|| !HasKey(t.users, U.UserEmail, j.companyEmail)
                          || !HasKey(t.posterProfiles, U.PosterProfileUser, Find(t.users, U.UserEmail, j.companyEmail).value.id)
                          || !HasKey(t.categories, J.CategoryName, j.category))
  {
    match Find(t.users, U.UserEmail, j.companyEmail)
    case None => None
    case Some(user) =>
      match Find(t.posterProfiles, U.PosterProfileUser, user.id)
      case None => None
      case Some(company) =>
        match Find(t.categories, J.CategoryName, j.category)
        case None => None
        case Some(category) => Some((user, company, category))
  }

  /** The store after the skill loop of a new job: a name with a skill gets a requirement at
      the default level, a name without one is skipped. The flag is false when an insert raised
      IntegrityError, which nothing catches, so the command stops there. */
  function AddedRequirements(t: Tables, job: Id, names: seq<string>): (r: (Tables, bool))
    ensures r.0 == t.(requirements := r.0.requirements, nextId := r.0.nextId)
    ensures t.requirements <= r.0.requirements
    ensures r.0.nextId == t.nextId + (|r.0.requirements| - |t.requirements|)
    decreases |names|
  {
    if names == [] then (t, true)
    else
      var n := |names| - 1;
      var (t1, ok) := AddedRequirements(t, job, names[..n]);
      if !ok then (t1, false)
      else
        match Find(t1.skills, U.SkillName, names[n])
        case None => (t1, true)
        case Some(skill) =>
          var (t2, res) := CreateRequirement(t1, J.NewRequirement(0, job, skill.id));
          (t2, res.Ok?)
  }

  /** The requirement loop keeps the store's integrity. */
  lemma {:induction false} AddedRequirementsValid(t: Tables, job: Id, names: seq<string>)
    requires Valid(t)
    ensures Valid(AddedRequirements(t, job, names).0)
    decreases |names|
  {
    if names != [] {
      AddedRequirementsValid(t, job, names[..|names| - 1]);
    }
  }

  /** What the requirement loop needs of a new job: a stored job with no requirements yet, and
      a skill list without repeats. */
  predicate FreshJob(t: Tables, job: Id, names: seq<string>)
  {
    && UniqueBy(t.skills, U.SkillId) && JobExists(t, job) && Distinct(names)
    && forall j :: 0 <= j < |t.requirements| ==> t.requirements[j].job != job
  }

  /** For a new job the requirement loop never hits a duplicate, and adds only requirements of
      that job, each for one of the listed skills, at the default level. */
  lemma {:induction false} AddedRequirementsRows(t: Tables, job: Id, names: seq<string>)
    requires FreshJob(t, job, names)
    ensures AddedRequirements(t, job, names).1
    ensures var rows := AddedRequirements(t, job, names).0.requirements;
      forall j :: |t.requirements| <= j < |rows| ==>
        && rows[j].job == job && NamedIn(t.skills, rows[j].skill, names)
        && rows[j].level == J.Required && rows[j].minExperienceYears == 0
    decreases |names|
  {
    if names != [] {
      var n := |names| - 1;
      assert Distinct(names[..n]);
      AddedRequirementsRows(t, job, names[..n]);
      var t1 := AddedRequirements(t, job, names[..n]).0;
      assert forall x :: x in names[..n] ==> x in names;
      match Find(t1.skills, U.SkillName, names[n])
      case None =>
      case Some(skill) =>
        var row := J.NewRequirement(0, job, skill.id);
        FindUnique(t.skills, U.SkillId, skill);
        assert NamedIn(t.skills, skill.id, names);
        assert names[n] !in names[..n];
        forall j | 0 <= j < |t1.requirements|
          ensures J.RequirementKey(t1.requirements[j]) != J.RequirementKey(row)
        {
          if j >= |t.requirements| {
            assert NamedIn(t.skills, t1.requirements[j].skill, names[..n]);
          }
        }
        HasKeyOf(t1.skills, U.SkillId, skill);
    }
  }

  /** For a new job every listed name that names a skill ends up required by the job. */
  lemma {:induction false} AddedRequirementsComplete(t: Tables, job: Id, names: seq<string>)
    requires FreshJob(t, job, names)
    ensures var rows := AddedRequirements(t, job, names).0.requirements;
      forall k :: 0 <= k < |names| && Find(t.skills, U.SkillName, names[k]).Some? ==>
        HasKey(rows, J.RequirementKey, (job, Find(t.skills, U.SkillName, names[k]).value.id))
    decreases |names|
  {
    if names != [] {
      var n := |names| - 1;
      assert Distinct(names[..n]);
      AddedRequirementsComplete(t, job, names[..n]);
      AddedRequirementsRows(t, job, names);
      var t1 := AddedRequirements(t, job, names[..n]).0;
      var rows := AddedRequirements(t, job, names).0.requirements;
      var extra := rows[|t1.requirements|..];
      assert rows == t1.requirements + extra;
      forall k | 0 <= k < |names| && Find(t.skills, U.SkillName, names[k]).Some?
        ensures HasKey(rows, J.RequirementKey, (job, Find(t.skills, U.SkillName, names[k]).value.id))
      {
        var key := (job, Find(t.skills, U.SkillName, names[k]).value.id);
        if k < n {
          assert names[..n][k] == names[k];
          HasKeyAppend(t1.requirements, J.RequirementKey, extra, key);
        } else {
          assert rows == t1.requirements + [rows[|rows| - 1]];
          HasKeyLast(t1.requirements, J.RequirementKey, rows[|rows| - 1]);
        }
      }
    }
  }

  /** Once an insert has raised, the rest of the requirement loop is not reached. */
  lemma {:induction false} AddedRequirementsStopped(t: Tables, job: Id, names: seq<string>, i: nat)
    requires i <= |names| && !AddedRequirements(t, job, names[..i]).1
    ensures AddedRequirements(t, job, names) == AddedRequirements(t, job, names[..i])
    decreases |names|
  {
    if i == |names| {
      assert names[..i] == names;
    } else {
      var n := |names| - 1;
      assert names[..n][..i] == names[..i];
      AddedRequirementsStopped(t, job, names[..n], i);
    }
  }

  /** The job of one record with its references found: the job is created (every reference
      resolves, so this insert cannot fail) and its requirements added. The flag is false when
      a requirement insert raised. */
  function PostJob(t: Tables, row: J.Job, skills: seq<string>, now: Time): (r: (Tables, bool))
    requires CategoryExists(t, row.category) && UserExists(t, row.postedBy) && PosterProfileExists(t, row.company)
    ensures r.0 == t.(jobs := r.0.jobs, requirements := r.0.requirements, nextId := r.0.nextId)
    ensures t.jobs <= r.0.jobs && r.0.nextId >= t.nextId
  {
    var (t1, res) := CreateJob(t, row, now);
    AddedRequirements(t1, res.value.id, skills)
  }

  /** One record of `create_job_listings`: when a lookup fails the record is skipped; otherwise
      its job is posted under the user, company profile and category just found. */
  function SeedJob(t: Tables, j: JobSeed, d: JobDraw): (r: (Tables, bool))
    ensures r.0 == t.(jobs := r.0.jobs, requirements := r.0.requirements, nextId := r.0.nextId)
    ensures t.jobs <= r.0.jobs && r.0.nextId >= t.nextId
  {
    var l := Lookups(t, j);
    if l.None? then (t, true)
    else
      HasKeyOf(t.users, U.UserId, l.value.0);
      HasKeyOf(t.posterProfiles, U.PosterProfileId, l.value.1);
      HasKeyOf(t.categories, J.CategoryId, l.value.2);
      PostJob(t, JobRow(j, l.value.2.id, l.value.0.id, l.value.1.id, d), j.skills, d.saved)
  }

  /** A record with a failed lookup changes nothing. */
  lemma SeedJobSkipped(t: Tables, j: JobSeed, d: JobDraw)
    requires !HasKey(t.users, U.UserEmail, j.companyEmail) || !HasKey(t.categories, J.CategoryName, j.category)
    ensures SeedJob(t, j, d) == (t, true)
  {
  }

  /** Posting adds exactly the job, stamped as published at `now`, under the next key. */
  lemma PostJobAdds(t: Tables, row: J.Job, skills: seq<string>, now: Time)
    requires CategoryExists(t, row.category) && UserExists(t, row.postedBy) && PosterProfileExists(t, row.company)
    requires row.status == J.Active && row.publishedAt.None?
    ensures PostJob(t, row, skills, now).0.jobs == t.jobs + [row.(id := t.nextId, publishedAt := Some(now))]
  {
    var (t1, res) := CreateJob(t, row, now);
    assert J.StampOnSave(row, now) == row.(publishedAt := Some(now));
    assert t1.jobs == t.jobs + [row.(id := t.nextId, publishedAt := Some(now))];
  }

  /** Posting into a valid store runs the requirement loop to the end. */
  lemma PostJobRuns(t: Tables, row: J.Job, skills: seq<string>, now: Time)
    requires Valid(t) && Distinct(skills)
    requires CategoryExists(t, row.category) && UserExists(t, row.postedBy) && PosterProfileExists(t, row.company)
    ensures PostJob(t, row, skills, now).1
  {
    var (t1, res) := CreateJob(t, row, now);
    assert JobExists(t1, t.nextId) by {
      assert t1.jobs[|t.jobs|].id == t.nextId;
    }
    RefsBelow(t.requirements, J.RequirementJob, t.jobs, J.JobId, t.nextId);
    assert FreshJob(t1, t.nextId, skills);
    AddedRequirementsRows(t1, t.nextId, skills);
  }

  /** A record whose lookups succeed adds exactly its job, with the deadline counted from the
      first clock reading and published at the second, and its requirement loop runs to the
      end. */
  lemma SeedJobNew(t: Tables, j: JobSeed, d: JobDraw)
    requires Valid(t) && Distinct(j.skills) && Lookups(t, j).Some?
    ensures SeedJob(t, j, d).1
    ensures var l := Lookups(t, j).value;
      SeedJob(t, j, d).0.jobs
        == t.jobs + [JobRow(j, l.2.id, l.0.id, l.1.id, d).(id := t.nextId, publishedAt := Some(d.saved))]
  {
    var l := Lookups(t, j).value;
    var row := JobRow(j, l.2.id, l.0.id, l.1.id, d);
    HasKeyOf(t.users, U.UserId, l.0);
    HasKeyOf(t.posterProfiles, U.PosterProfileId, l.1);
    HasKeyOf(t.categories, J.CategoryId, l.2);
    assert SeedJob(t, j, d) == PostJob(t, row, j.skills, d.saved);
    PostJobAdds(t, row, j.skills, d.saved);
    PostJobRuns(t, row, j.skills, d.saved);
  }

  /** Every record keeps the store's integrity and its counters. */
  lemma SeedJobValid(t: Tables, j: JobSeed, d: JobDraw)
    requires Valid(t)
    ensures Valid(SeedJob(t, j, d).0)
    ensures CountersMatch(t) ==> CountersMatch(SeedJob(t, j, d).0)
  {
    if Lookups(t, j).Some? {
      var l := Lookups(t, j).value;
      var row := JobRow(j, l.2.id, l.0.id, l.1.id, d);
      var (t1, res) := CreateJob(t, row, d.saved);
      AddedRequirementsValid(t1, t.nextId, j.skills);
      var r := AddedRequirements(t1, t.nextId, j.skills).0;
      assert SeedJob(t, j, d).0 == r;
      assert r.jobs == t1.jobs && r.applications == t1.applications;
    }
  }

  /** The lookups read only users, company profiles and categories. */
  lemma LookupsSame(t: Tables, t': Tables, j: JobSeed)
    requires t'.users == t.users && t'.posterProfiles == t.posterProfiles && t'.categories == t.categories
    ensures Lookups(t', j) == Lookups(t, j)
  {
  }

  /** `create_job_listings`: the records in order, each with its draw for the featured flag and
      its two clock readings. The flag of the result is false when an insert raised IntegrityError,
      which the `except` clause does not catch. */
  function SeededJobs(t: Tables, seeds: seq<JobSeed>, draws: seq<JobDraw>): (r: (Tables, bool))
    requires |draws| == |seeds|
    ensures r.0 == t.(jobs := r.0.jobs, requirements := r.0.requirements, nextId := r.0.nextId)
    ensures t.jobs <= r.0.jobs && r.0.nextId >= t.nextId
    decreases |seeds|
  {
    if seeds == [] then (t, true)
    else
      var n := |seeds| - 1;
      var (t1, ok) := SeededJobs(t, seeds[..n], draws[..n]);
      if !ok then (t1, false) else SeedJob(t1, seeds[n], draws[n])
  }

  /** How many records find their poster, company profile and category in `t`. */
  function Resolvable(t: Tables, seeds: seq<JobSeed>): (r: nat)
    ensures r <= |seeds|
  {
    if seeds == [] then 0
    else Resolvable(t, seeds[..|seeds| - 1]) + (if Lookups(t, seeds[|seeds| - 1]).Some? then 1 else 0)
  }

  /** Every record lists each skill at most once. */
  predicate DistinctRequirements(seeds: seq<JobSeed>)
  {
    forall k :: 0 <= k < |seeds| ==> Distinct(seeds[k].skills)
  }

  /** On a store with integrity the phase runs to the end, keeps the integrity and the
      application counters, and adds one job per record whose lookups succeed. */
  lemma {:induction false} SeededJobsValid(t: Tables, seeds: seq<JobSeed>, draws: seq<JobDraw>)
    requires Valid(t) && |draws| == |seeds| && DistinctRequirements(seeds)
    ensures var r := SeededJobs(t, seeds, draws);
      r.1 && Valid(r.0) && (CountersMatch(t) ==> CountersMatch(r.0))
    ensures |SeededJobs(t, seeds, draws).0.jobs| == |t.jobs| + Resolvable(t, seeds)
    decreases |seeds|
  {
    if seeds != [] {
      var n := |seeds| - 1;
      SeededJobsValid(t, seeds[..n], draws[..n]);
      var t1 := SeededJobs(t, seeds[..n], draws[..n]).0;
      assert seeds[..n] == seeds[..|seeds| - 1];
      assert SeededJobs(t, seeds, draws) == SeedJob(t1, seeds[n], draws[n]);
      SeedJobValid(t1, seeds[n], draws[n]);
      LookupsSame(t, t1, seeds[n]);
      if Lookups(t1, seeds[n]).Some? {
        SeedJobNew(t1, seeds[n], draws[n]);
      }
    }
  }

  /** A job as this phase posts it with the draw `d`: active, published at the second clock
      reading, open for applications until thirty days after the first, not remote, and with
      neither views nor applications. */
  predicate PostedAt(job: J.Job, d: JobDraw)
  {
    && job.status == J.Active && job.publishedAt == Some(d.saved)
    && job.applicationDeadline == Some(d.created + ApplicationWindow)
    && !job.isRemote && job.viewsCount == 0 && job.applicationsCount == 0
  }

  /** The job was posted with one of the draws. */
  predicate PostedWith(job: J.Job, draws: seq<JobDraw>)
  {
    exists k :: 0 <= k < |draws| && PostedAt(job, draws[k])
  }

  /** The clock does not go back between the two readings of any record. */
  predicate ClockForward(draws: seq<JobDraw>)
  {
    forall k :: 0 <= k < |draws| ==> draws[k].created <= draws[k].saved
  }

  /** A published job whose deadline closes at most thirty days after its publication. */
  predicate OpenAtMostWindow(job: J.Job)
  {
    && job.publishedAt.Some? && job.applicationDeadline.Some?
    && job.applicationDeadline.value <= job.publishedAt.value + ApplicationWindow
  }

  /** Posting a record's row adds one job, posted with its draw. */
  lemma PostJobPosted(t: Tables, j: JobSeed, category: Id, user: Id, company: Id, d: JobDraw)
    requires CategoryExists(t, category) && UserExists(t, user) && PosterProfileExists(t, company)
    ensures var jobs := PostJob(t, JobRow(j, category, user, company, d), j.skills, d.saved).0.jobs;
      |jobs| == |t.jobs| + 1 && PostedAt(jobs[|t.jobs|], d)
  {
    var row := JobRow(j, category, user, company, d);
    PostJobAdds(t, row, j.skills, d.saved);
    var posted := row.(id := t.nextId, publishedAt := Some(d.saved));
    assert (t.jobs + [posted])[|t.jobs|] == posted;
  }

  /** One record adds only jobs posted with its draw. */
  lemma SeedJobPosted(t: Tables, j: JobSeed, d: JobDraw)
    ensures forall i :: |t.jobs| <= i < |SeedJob(t, j, d).0.jobs| ==>
      PostedAt(SeedJob(t, j, d).0.jobs[i], d)
  {
    var l := Lookups(t, j);
    if l.Some? {
      HasKeyOf(t.users, U.UserId, l.value.0);
      HasKeyOf(t.posterProfiles, U.PosterProfileId, l.value.1);
      HasKeyOf(t.categories, J.CategoryId, l.value.2);
      var row := JobRow(j, l.value.2.id, l.value.0.id, l.value.1.id, d);
      assert SeedJob(t, j, d) == PostJob(t, row, j.skills, d.saved);
      PostJobPosted(t, j, l.value.2.id, l.value.0.id, l.value.1.id, d);
      var jobs := SeedJob(t, j, d).0.jobs;
      forall i | |t.jobs| <= i < |jobs|
        ensures PostedAt(jobs[i], d)
      {
        assert i == |t.jobs|;
      }
    } else {
      assert SeedJob(t, j, d) == (t, true);
    }
  }

  /** Every job the phase adds is active, published at the second clock reading of some record
      and open until thirty days after that record's first reading, not remote, and has
      neither views nor applications. */
  lemma {:induction false} SeededJobsRows(t: Tables, seeds: seq<JobSeed>, draws: seq<JobDraw>)
    requires |draws| == |seeds|
    ensures forall i :: |t.jobs| <= i < |SeededJobs(t, seeds, draws).0.jobs| ==>
      PostedWith(SeededJobs(t, seeds, draws).0.jobs[i], draws)
    decreases |seeds|
  {
    if seeds != [] {
      var n := |seeds| - 1;
      SeededJobsRows(t, seeds[..n], draws[..n]);
      var r1 := SeededJobs(t, seeds[..n], draws[..n]);
      var jobs := SeededJobs(t, seeds, draws).0.jobs;
      if r1.1 {
        assert jobs == SeedJob(r1.0, seeds[n], draws[n]).0.jobs;
        SeedJobPosted(r1.0, seeds[n], draws[n]);
      } else {
        assert jobs == r1.0.jobs;
      }
      forall i | |t.jobs| <= i < |jobs| ensures PostedWith(jobs[i], draws) {
        if i < |r1.0.jobs| {
          assert jobs[i] == r1.0.jobs[i];
          var k :| 0 <= k < n && PostedAt(jobs[i], draws[..n][k]);
          assert draws[..n][k] == draws[k];
        } else {
          assert PostedAt(jobs[i], draws[n]);
        }
      }
    }
  }

  /** When the clock does not go back, every job the phase adds closes for applications at
      most thirty days after it was published: the deadline is counted from a reading taken
      before the save hook's. */
  lemma SeededJobsWindow(t: Tables, seeds: seq<JobSeed>, draws: seq<JobDraw>)
    requires |draws| == |seeds| && ClockForward(draws)
    ensures forall i :: |t.jobs| <= i < |SeededJobs(t, seeds, draws).0.jobs| ==>
      OpenAtMostWindow(SeededJobs(t, seeds, draws).0.jobs[i])
  {
    SeededJobsRows(t, seeds, draws);
    var jobs := SeededJobs(t, seeds, draws).0.jobs;
    forall i | |t.jobs| <= i < |jobs| ensures OpenAtMostWindow(jobs[i]) {
      var k :| 0 <= k < |draws| && PostedAt(jobs[i], draws[k]);
    }
  }

  /** Unlike the phases before it, this one is not idempotent: nothing checks for an existing
      job, so running it a second time adds every resolvable job again. */
  lemma SeededJobsTwice(t: Tables, seeds: seq<JobSeed>, draws: seq<JobDraw>, again: seq<JobDraw>)
    requires Valid(t) && |draws| == |seeds| && |again| == |seeds| && DistinctRequirements(seeds)
    ensures var t1 := SeededJobs(t, seeds, draws).0;
      |SeededJobs(t1, seeds, again).0.jobs| == |t.jobs| + 2 * Resolvable(t, seeds)
  {
    SeededJobsValid(t, seeds, draws);
    var t1 := SeededJobs(t, seeds, draws).0;
    SeededJobsValid(t1, seeds, again);
    ResolvableSame(t, t1, seeds);
  }

  /** Resolvable reads only users, company profiles and categories. */
  lemma {:induction false} ResolvableSame(t: Tables, t': Tables, seeds: seq<JobSeed>)
    requires t'.users == t.users && t'.posterProfiles == t.posterProfiles && t'.categories == t.categories
    ensures Resolvable(t', seeds) == Resolvable(t, seeds)
  {
    if seeds != [] {
      ResolvableSame(t, t', seeds[..|seeds| - 1]);
      LookupsSame(t, t', seeds[|seeds| - 1]);
    }
  }

  /** Once an insert has raised, the rest of the phase is not reached. */
  lemma {:induction false} SeededJobsStopped(t: Tables, seeds: seq<JobSeed>, draws: seq<JobDraw>, i: nat)
    requires |draws| == |seeds| && i <= |seeds|
    requires !SeededJobs(t, seeds[..i], draws[..i]).1
    ensures SeededJobs(t, seeds, draws) == SeededJobs(t, seeds[..i], draws[..i])
    decreases |seeds|
  {
    if i == |seeds| {
      assert seeds[..i] == seeds && draws[..i] == draws;
    } else {
      var n := |seeds| - 1;
      assert seeds[..n][..i] == seeds[..i] && draws[..n][..i] == draws[..i];
      SeededJobsStopped(t, seeds[..n], draws[..n], i);
    }
  }

  /** The skill loop of one job in `create_job_listings`. */
  method AddRequirements(t: Tables, job: Id, names: seq<string>) returns (t': Tables, ok: bool)
    ensures (t', ok) == AddedRequirements(t, job, names)
  {
    t', ok := t, true;
    var i := 0;
    while i < |names|
      invariant 0 <= i <= |names|
      invariant (t', true) == AddedRequirements(t, job, names[..i])
    {
      assert names[..i + 1][..i] == names[..i];
      var skill := Find(t'.skills, U.SkillName, names[i]);
      if skill.Some? {
        var r := CreateRequirement(t', J.NewRequirement(0, job, skill.value.id));
        t' := r.0;
        if r.1.Err? {
          AddedRequirementsStopped(t, job, names, i + 1);
          return t', false;
        }
      }
      i := i + 1;
    }
    assert names[..i] == names;
  }

  /** One pass of the loop of `create_job_listings`: the lookups, then the job and its
      requirements when every lookup succeeded. */
  method PostJobListing(t: Tables, j: JobSeed, d: JobDraw) returns (t': Tables, ok: bool)
    ensures (t', ok) == SeedJob(t, j, d)
  {
    var l := Lookups(t, j);
    if l.None? {
      return t, true;
    }
    HasKeyOf(t.users, U.UserId, l.value.0);
    HasKeyOf(t.posterProfiles, U.PosterProfileId, l.value.1);
    HasKeyOf(t.categories, J.CategoryId, l.value.2);
    var row := JobRow(j, l.value.2.id, l.value.0.id, l.value.1.id, d);
    var c := CreateJob(t, row, d.saved);
    t', ok := AddRequirements(c.0, c.1.value.id, j.skills);
  }

  /** One more record of the phase, after the records before it ran to the end. */
  lemma SeededJobsStep(t: Tables, seeds: seq<JobSeed>, draws: seq<JobDraw>, i: nat)
    requires |draws| == |seeds| && i < |seeds|
    requires SeededJobs(t, seeds[..i], draws[..i]).1
    ensures SeededJobs(t, seeds[..i + 1], draws[..i + 1])
      == SeedJob(SeededJobs(t, seeds[..i], draws[..i]).0, seeds[i], draws[i])
  {
    assert seeds[..i + 1][..i] == seeds[..i] && draws[..i + 1][..i] == draws[..i];
  }

  /** `create_job_listings`. */
  method CreateJobListings(t: Tables, seeds: seq<JobSeed>, draws: seq<JobDraw>)
    returns (t': Tables, ok: bool)
    requires |draws| == |seeds|
    ensures (t', ok) == SeededJobs(t, seeds, draws)
  {
    t', ok := t, true;
    var i := 0;
    while i < |seeds|
      invariant 0 <= i <= |seeds|
      invariant (t', true) == SeededJobs(t, seeds[..i], draws[..i])
    {
      SeededJobsStep(t, seeds, draws, i);
      t', ok := PostJobListing(t', seeds[i], draws[i]);
      if !ok {
        SeededJobsStopped(t, seeds, draws, i + 1);
        return;
      }
      i := i + 1;
    }
    assert seeds[..i] == seeds && draws[..i] == draws;
  }

  // ----- applications -----

  /** The statuses `random.choice` picks from for a sample application. */
  const DrawnStatuses: set<A.ApplicationStatus> :=
    {A.ApplicationStatus.Pending, A.ApplicationStatus.UnderReview, A.ApplicationStatus.Shortlisted}

  /** The application `objects.create` is given for a seeker and a job. */
  function ApplicationRow(job: J.Job, seeker: U.JobSeekerProfile, status: A.ApplicationStatus): A.JobApplication
  {
    A.JobApplication(0, job.id, seeker.user, seeker.id, None, status, false)
  }

  /** The draws for one seeker: the positions `random.sample` picked in the job list, and the
      status drawn for each. */
  predicate Picks(jobCount: nat, picks: seq<nat>, statuses: seq<A.ApplicationStatus>)
  {
    |statuses| == |picks| && forall k :: 0 <= k < |picks| ==> picks[k] < jobCount
  }

  /** One picked job of one seeker: skipped when the seeker has applied to it already,
      otherwise applied to with `objects.create`. That builds the instance with its key already
      drawn, so `JobApplication.save` takes its has-a-key path: the job's counter is left alone
      and only the row is inserted. The count is 1 when an application was created; the flag
      is false when the insert raised. */
  function ApplyOnce(t: Tables, seeker: U.JobSeekerProfile, job: J.Job, status: A.ApplicationStatus)
    : (r: (Tables, nat, bool))
    ensures r.0 == t.(applications := r.0.applications, nextId := r.0.nextId)
    ensures t.applications <= r.0.applications && r.0.nextId >= t.nextId
    ensures r.1 == |r.0.applications| - |t.applications| <= 1
  {
    if HasKey(t.applications, A.ApplicationKey, (job.id, seeker.user)) then (t, 0, true)
    else
      var (t1, res) := InsertApplication(t, ApplicationRow(job, seeker, status));
      if res.Err? then (t1, 0, false) else (t1, 1, true)
  }

  /** The inner loop of `create_applications` for one seeker, over the jobs `random.sample`
      picked. The count is the number of applications created; the flag is false when an
      insert raised. */
  function AppliedTo(t: Tables, seeker: U.JobSeekerProfile, jobs: seq<J.Job>, picks: seq<nat>,
                     statuses: seq<A.ApplicationStatus>): (r: (Tables, nat, bool))
    requires Picks(|jobs|, picks, statuses)
    ensures r.0 == t.(applications := r.0.applications, nextId := r.0.nextId)
    ensures t.applications <= r.0.applications && r.0.nextId >= t.nextId
    ensures r.1 == |r.0.applications| - |t.applications| <= |picks|
    decreases |picks|
  {
    if picks == [] then (t, 0, true)
    else
      var n := |picks| - 1;
      var (t1, c, ok) := AppliedTo(t, seeker, jobs, picks[..n], statuses[..n]);
      if !ok then (t1, c, false)
      else
        var (t2, c2, ok2) := ApplyOnce(t1, seeker, jobs[picks[n]], statuses[n]);
        (t2, c + c2, ok2)
  }

  /** Applying once to a stored job keeps the integrity and never raises: the existence check
      rules out the one constraint the insert could violate. */
  lemma ApplyOnceValid(t: Tables, seeker: U.JobSeekerProfile, job: J.Job, status: A.ApplicationStatus)
    requires Valid(t) && SeekerStored(t, seeker) && JobExists(t, job.id)
    ensures var r := ApplyOnce(t, seeker, job, status);
      r.2 && Valid(r.0)
  {
    if !HasKey(t.applications, A.ApplicationKey, (job.id, seeker.user)) {
      var a := ApplicationRow(job, seeker, status);
      assert A.ApplicationKey(a) == (job.id, seeker.user);
      var c := InsertApplication(t, a);
      assert c.1.Ok?;
      assert ApplyOnce(t, seeker, job, status) == (c.0, 1, true);
    }
  }

  lemma ApplyOnceApplied(t: Tables, seeker: U.JobSeekerProfile, job: J.Job, status: A.ApplicationStatus)
    requires ApplyOnce(t, seeker, job, status).2
    ensures HasKey(ApplyOnce(t, seeker, job, status).0.applications, A.ApplicationKey, (job.id, seeker.user))
    ensures var rows := ApplyOnce(t, seeker, job, status).0.applications;
      forall i :: |t.applications| <= i < |rows| ==>
        rows[i] == ApplicationRow(job, seeker, status).(id := t.nextId)
  {
    var a := ApplicationRow(job, seeker, status);
    if !HasKey(t.applications, A.ApplicationKey, (job.id, seeker.user)) {
      HasKeyLast(t.applications, A.ApplicationKey, a.(id := t.nextId));
    }
  }

  /** A seeker profile the phase applies with, and its user, are stored. */
  predicate SeekerStored(t: Tables, seeker: U.JobSeekerProfile)
  {
    SeekerProfileExists(t, seeker.id) && UserExists(t, seeker.user)
  }

  /** Every job of the list is stored. */
  predicate JobsStored(t: Tables, jobs: seq<J.Job>)
  {
    forall i :: 0 <= i < |jobs| ==> JobExists(t, jobs[i].id)
  }

  /** On a store with integrity and stored rows the loop runs to the end and keeps the
      integrity. */
  lemma {:induction false} AppliedToValid(t: Tables, seeker: U.JobSeekerProfile, jobs: seq<J.Job>,
                                          picks: seq<nat>, statuses: seq<A.ApplicationStatus>)
    requires Picks(|jobs|, picks, statuses)
    requires Valid(t) && SeekerStored(t, seeker) && JobsStored(t, jobs)
    ensures var r := AppliedTo(t, seeker, jobs, picks, statuses);
      r.2 && Valid(r.0)
    decreases |picks|
  {
    if picks != [] {
      var n := |picks| - 1;
      AppliedToValid(t, seeker, jobs, picks[..n], statuses[..n]);
      var t1 := AppliedTo(t, seeker, jobs, picks[..n], statuses[..n]).0;
      ApplyOnceValid(t1, seeker, jobs[picks[n]], statuses[n]);
    }
  }

  /** When the loop runs to the end, the seeker has an application to every picked job. */
  lemma {:induction false} AppliedToComplete(t: Tables, seeker: U.JobSeekerProfile, jobs: seq<J.Job>,
                                             picks: seq<nat>, statuses: seq<A.ApplicationStatus>)
    requires Picks(|jobs|, picks, statuses) && AppliedTo(t, seeker, jobs, picks, statuses).2
    ensures var rows := AppliedTo(t, seeker, jobs, picks, statuses).0.applications;
      forall k :: 0 <= k < |picks| ==> HasKey(rows, A.ApplicationKey, (jobs[picks[k]].id, seeker.user))
    decreases |picks|
  {
    if picks != [] {
      var n := |picks| - 1;
      var r1 := AppliedTo(t, seeker, jobs, picks[..n], statuses[..n]);
      assert r1.2;
      AppliedToComplete(t, seeker, jobs, picks[..n], statuses[..n]);
      ApplyOnceApplied(r1.0, seeker, jobs[picks[n]], statuses[n]);
      var rows := AppliedTo(t, seeker, jobs, picks, statuses).0.applications;
      assert rows == ApplyOnce(r1.0, seeker, jobs[picks[n]], statuses[n]).0.applications;
      forall k | 0 <= k < |picks|
        ensures HasKey(rows, A.ApplicationKey, (jobs[picks[k]].id, seeker.user))
      {
        if k < n {
          assert picks[..n][k] == picks[k];
          HasKeyKept(r1.0.applications, rows, A.ApplicationKey, (jobs[picks[k]].id, seeker.user));
        } else {
          assert k == n;
        }
      }
    }
  }

  /** The applications from position `from` on are the seeker's, for a job of the list,
      unviewed, and with one of the drawn statuses. */
  predicate AppliedBy(rows: seq<A.JobApplication>, from: nat, seeker: U.JobSeekerProfile, jobs: seq<J.Job>,
                      statuses: seq<A.ApplicationStatus>)
  {
    forall i :: from <= i < |rows| ==>
      && rows[i].applicant == seeker.user && rows[i].seekerProfile == seeker.id
      && HasKey(jobs, J.JobId, rows[i].job) && rows[i].status in statuses
      && !rows[i].viewedByEmployer
  }

  /** Every application the loop creates is the seeker's, for a picked job, unviewed, and with
      one of the drawn statuses. */
  lemma {:induction false} AppliedToRows(t: Tables, seeker: U.JobSeekerProfile, jobs: seq<J.Job>,
                                         picks: seq<nat>, statuses: seq<A.ApplicationStatus>)
    requires Picks(|jobs|, picks, statuses)
    ensures AppliedBy(AppliedTo(t, seeker, jobs, picks, statuses).0.applications, |t.applications|, seeker, jobs, statuses)
    decreases |picks|
  {
    if picks != [] {
      var n := |picks| - 1;
      AppliedToRows(t, seeker, jobs, picks[..n], statuses[..n]);
      var r1 := AppliedTo(t, seeker, jobs, picks[..n], statuses[..n]);
      var rows := AppliedTo(t, seeker, jobs, picks, statuses).0.applications;
      var a := ApplicationRow(jobs[picks[n]], seeker, statuses[n]);
      if r1.2 {
        assert rows == ApplyOnce(r1.0, seeker, jobs[picks[n]], statuses[n]).0.applications;
        if ApplyOnce(r1.0, seeker, jobs[picks[n]], statuses[n]).2 {
          ApplyOnceApplied(r1.0, seeker, jobs[picks[n]], statuses[n]);
        } else {
          assert rows == r1.0.applications;
        }
      } else {
        assert rows == r1.0.applications;
      }
      assert forall i :: |r1.0.applications| <= i < |rows| ==> rows[i] == a.(id := r1.0.nextId);
      HasKeyOf(jobs, J.JobId, jobs[picks[n]]);
      forall i | |t.applications| <= i < |rows|
        ensures rows[i].applicant == seeker.user && rows[i].seekerProfile == seeker.id
        ensures HasKey(jobs, J.JobId, rows[i].job) && rows[i].status in statuses
        ensures !rows[i].viewedByEmployer
      {
        if i < |r1.0.applications| {
          assert rows[i] == r1.0.applications[i];
          assert r1.0.applications[i].status in statuses[..n];
          var k :| 0 <= k < n && statuses[..n][k] == rows[i].status;
          assert statuses[k] == rows[i].status;
        } else {
          assert rows[i] == a.(id := r1.0.nextId);
          assert statuses[n] in statuses;
        }
      }
    }
  }

  /** A seeker who has applied to every picked job already gets nothing new. */
  lemma {:induction false} AppliedToNoop(t: Tables, seeker: U.JobSeekerProfile, jobs: seq<J.Job>,
                                         picks: seq<nat>, statuses: seq<A.ApplicationStatus>)
    requires Picks(|jobs|, picks, statuses)
    requires forall k :: 0 <= k < |picks| ==> HasKey(t.applications, A.ApplicationKey, (jobs[picks[k]].id, seeker.user))
    ensures AppliedTo(t, seeker, jobs, picks, statuses) == (t, 0, true)
    decreases |picks|
  {
    if picks != [] {
      var n := |picks| - 1;
      assert forall k :: 0 <= k < n ==> picks[..n][k] == picks[k];
      AppliedToNoop(t, seeker, jobs, picks[..n], statuses[..n]);
    }
  }

  /** Once an insert has raised, the rest of the seeker's loop is not reached. */
  lemma {:induction false} AppliedToStopped(t: Tables, seeker: U.JobSeekerProfile, jobs: seq<J.Job>,
                                            picks: seq<nat>, statuses: seq<A.ApplicationStatus>, i: nat)
    requires Picks(|jobs|, picks, statuses) && i <= |picks|
    requires !AppliedTo(t, seeker, jobs, picks[..i], statuses[..i]).2
    ensures AppliedTo(t, seeker, jobs, picks, statuses) == AppliedTo(t, seeker, jobs, picks[..i], statuses[..i])
    decreases |picks|
  {
    if i == |picks| {
      assert picks[..i] == picks && statuses[..i] == statuses;
    } else {
      var n := |picks| - 1;
      assert picks[..n][..i] == picks[..i] && statuses[..n][..i] == statuses[..i];
      AppliedToStopped(t, seeker, jobs, picks[..n], statuses[..n], i);
    }
  }

  /** The draws of the whole loop: the picks and statuses of each seeker. */
  predicate PickDraws(seekerCount: nat, jobCount: nat, picks: seq<seq<nat>>, statuses: seq<seq<A.ApplicationStatus>>)
  {
    && |picks| == seekerCount && |statuses| == seekerCount
    && forall i :: 0 <= i < seekerCount ==> Picks(jobCount, picks[i], statuses[i])
  }

  /** The outer loop of `create_applications`, over the seekers in order. The count is the
      number of applications created; the flag is false when an insert raised. */
  function AppliedAll(t: Tables, seekers: seq<U.JobSeekerProfile>, jobs: seq<J.Job>, picks: seq<seq<nat>>,
                      statuses: seq<seq<A.ApplicationStatus>>): (r: (Tables, nat, bool))
    requires PickDraws(|seekers|, |jobs|, picks, statuses)
    ensures r.0 == t.(applications := r.0.applications, nextId := r.0.nextId)
    ensures t.applications <= r.0.applications && r.0.nextId >= t.nextId
    ensures r.1 == |r.0.applications| - |t.applications|
    decreases |seekers|
  {
    if seekers == [] then (t, 0, true)
    else
      var n := |seekers| - 1;
      var (t1, c, ok) := AppliedAll(t, seekers[..n], jobs, picks[..n], statuses[..n]);
      if !ok then (t1, c, false)
      else
        var (t2, c2, ok2) := AppliedTo(t1, seekers[n], jobs, picks[n], statuses[n]);
        (t2, c + c2, ok2)
  }

  /** Every seeker has an application to every job picked for them. */
  predicate Covered(rows: seq<A.JobApplication>, seekers: seq<U.JobSeekerProfile>, jobs: seq<J.Job>, picks: seq<seq<nat>>)
  {
    forall i, k :: 0 <= i < |seekers| && i < |picks| && 0 <= k < |picks[i]| && picks[i][k] < |jobs| ==>
      HasKey(rows, A.ApplicationKey, (jobs[picks[i][k]].id, seekers[i].user))
  }

  /** On a store with integrity and stored rows the loop runs to the end and keeps the
      integrity. */
  lemma {:induction false} AppliedAllValid(t: Tables, seekers: seq<U.JobSeekerProfile>, jobs: seq<J.Job>,
                                           picks: seq<seq<nat>>, statuses: seq<seq<A.ApplicationStatus>>)
    requires PickDraws(|seekers|, |jobs|, picks, statuses)
    requires Valid(t) && JobsStored(t, jobs)
    requires forall i :: 0 <= i < |seekers| ==> SeekerStored(t, seekers[i])
    ensures AppliedAll(t, seekers, jobs, picks, statuses).2
    ensures Valid(AppliedAll(t, seekers, jobs, picks, statuses).0)
    decreases |seekers|
  {
    if seekers != [] {
      var n := |seekers| - 1;
      AppliedAllValid(t, seekers[..n], jobs, picks[..n], statuses[..n]);
      var t1 := AppliedAll(t, seekers[..n], jobs, picks[..n], statuses[..n]).0;
      AppliedToValid(t1, seekers[n], jobs, picks[n], statuses[n]);
    }
  }

  /** When the loop runs to the end, every seeker has an application to every picked job. */
  lemma {:induction false} AppliedAllComplete(t: Tables, seekers: seq<U.JobSeekerProfile>, jobs: seq<J.Job>,
                                              picks: seq<seq<nat>>, statuses: seq<seq<A.ApplicationStatus>>)
    requires PickDraws(|seekers|, |jobs|, picks, statuses) && AppliedAll(t, seekers, jobs, picks, statuses).2
    ensures Covered(AppliedAll(t, seekers, jobs, picks, statuses).0.applications, seekers, jobs, picks)
    decreases |seekers|
  {
    if seekers != [] {
      var n := |seekers| - 1;
      var r1 := AppliedAll(t, seekers[..n], jobs, picks[..n], statuses[..n]);
      assert r1.2;
      AppliedAllComplete(t, seekers[..n], jobs, picks[..n], statuses[..n]);
      AppliedToComplete(r1.0, seekers[n], jobs, picks[n], statuses[n]);
      var rows := AppliedAll(t, seekers, jobs, picks, statuses).0.applications;
      assert rows == AppliedTo(r1.0, seekers[n], jobs, picks[n], statuses[n]).0.applications;
      forall i, k | 0 <= i < |seekers| && i < |picks| && 0 <= k < |picks[i]| && picks[i][k] < |jobs|
        ensures HasKey(rows, A.ApplicationKey, (jobs[picks[i][k]].id, seekers[i].user))
      {
        if i < n {
          assert seekers[..n][i] == seekers[i] && picks[..n][i] == picks[i];
          HasKeyKept(r1.0.applications, rows, A.ApplicationKey, (jobs[picks[i][k]].id, seekers[i].user));
        } else {
          assert i == n;
        }
      }
    }
  }

  /** The applications from position `from` on belong to one of the seekers, are for a job of
      the list, are unviewed, and carry a status `random.choice` can draw. */
  predicate AppliedByAny(rows: seq<A.JobApplication>, from: nat, seekers: seq<U.JobSeekerProfile>, jobs: seq<J.Job>)
  {
    forall i :: from <= i < |rows| ==>
      && (exists s :: 0 <= s < |seekers| && rows[i].applicant == seekers[s].user && rows[i].seekerProfile == seekers[s].id)
      && HasKey(jobs, J.JobId, rows[i].job) && rows[i].status in DrawnStatuses
      && !rows[i].viewedByEmployer
  }

  /** Every status drawn is one `random.choice` can return. */
  predicate StatusDraws(statuses: seq<seq<A.ApplicationStatus>>)
  {
    forall i, k :: 0 <= i < |statuses| && 0 <= k < |statuses[i]| ==> statuses[i][k] in DrawnStatuses
  }

  /** Every application the loop creates is one of the seekers', for a picked job, unviewed,
      and pending, under review or shortlisted. */
  lemma {:induction false} AppliedAllRows(t: Tables, seekers: seq<U.JobSeekerProfile>, jobs: seq<J.Job>,
                                          picks: seq<seq<nat>>, statuses: seq<seq<A.ApplicationStatus>>)
    requires PickDraws(|seekers|, |jobs|, picks, statuses) && StatusDraws(statuses)
    ensures AppliedByAny(AppliedAll(t, seekers, jobs, picks, statuses).0.applications, |t.applications|, seekers, jobs)
    decreases |seekers|
  {
    if seekers != [] {
      var n := |seekers| - 1;
      AppliedAllRows(t, seekers[..n], jobs, picks[..n], statuses[..n]);
      var r1 := AppliedAll(t, seekers[..n], jobs, picks[..n], statuses[..n]);
      var rows := AppliedAll(t, seekers, jobs, picks, statuses).0.applications;
      if r1.2 {
        assert rows == AppliedTo(r1.0, seekers[n], jobs, picks[n], statuses[n]).0.applications;
        AppliedToRows(r1.0, seekers[n], jobs, picks[n], statuses[n]);
      } else {
        assert rows == r1.0.applications;
      }
      forall i | |t.applications| <= i < |rows|
        ensures exists s :: 0 <= s < |seekers| && rows[i].applicant == seekers[s].user && rows[i].seekerProfile == seekers[s].id
        ensures HasKey(jobs, J.JobId, rows[i].job) && rows[i].status in DrawnStatuses
        ensures !rows[i].viewedByEmployer
      {
        if i < |r1.0.applications| {
          assert rows[i] == r1.0.applications[i];
          var s :| 0 <= s < n && rows[i].applicant == seekers[..n][s].user && rows[i].seekerProfile == seekers[..n][s].id;
          assert seekers[..n][s] == seekers[s];
        } else {
          var k :| 0 <= k < |statuses[n]| && statuses[n][k] == rows[i].status;
          assert statuses[n][k] in DrawnStatuses;
          assert rows[i].applicant == seekers[n].user && rows[i].seekerProfile == seekers[n].id;
        }
      }
    }
  }

  /** With at most three picks per seeker, at most three applications per seeker are created. */
  lemma {:induction false} AppliedAllBound(t: Tables, seekers: seq<U.JobSeekerProfile>, jobs: seq<J.Job>,
                                           picks: seq<seq<nat>>, statuses: seq<seq<A.ApplicationStatus>>)
    requires PickDraws(|seekers|, |jobs|, picks, statuses)
    requires forall i :: 0 <= i < |picks| ==> |picks[i]| <= 3
    ensures AppliedAll(t, seekers, jobs, picks, statuses).1 <= 3 * |seekers|
    decreases |seekers|
  {
    if seekers != [] {
      var n := |seekers| - 1;
      AppliedAllBound(t, seekers[..n], jobs, picks[..n], statuses[..n]);
      var r1 := AppliedAll(t, seekers[..n], jobs, picks[..n], statuses[..n]);
      if r1.2 {
        var r2 := AppliedTo(r1.0, seekers[n], jobs, picks[n], statuses[n]);
        assert AppliedAll(t, seekers, jobs, picks, statuses).1 == r1.1 + r2.1;
      }
    }
  }

  /** Seekers who have applied to every job picked for them already get nothing new. */
  lemma {:induction false} AppliedAllNoop(t: Tables, seekers: seq<U.JobSeekerProfile>, jobs: seq<J.Job>,
                                          picks: seq<seq<nat>>, statuses: seq<seq<A.ApplicationStatus>>)
    requires PickDraws(|seekers|, |jobs|, picks, statuses)
    requires Covered(t.applications, seekers, jobs, picks)
    ensures AppliedAll(t, seekers, jobs, picks, statuses) == (t, 0, true)
    decreases |seekers|
  {
    if seekers != [] {
      var n := |seekers| - 1;
      var sp, pp := seekers[..n], picks[..n];
      forall i, k | 0 <= i < n && 0 <= k < |pp[i]| && pp[i][k] < |jobs|
        ensures HasKey(t.applications, A.ApplicationKey, (jobs[pp[i][k]].id, sp[i].user))
      {
        assert pp[i] == picks[i] && sp[i] == seekers[i];
      }
      assert Covered(t.applications, sp, jobs, pp);
      AppliedAllNoop(t, sp, jobs, pp, statuses[..n]);
      AppliedToNoop(t, seekers[n], jobs, picks[n], statuses[n]);
    }
  }

  /** Once an insert has raised, the rest of the loop is not reached. */
  lemma {:induction false} AppliedAllStopped(t: Tables, seekers: seq<U.JobSeekerProfile>, jobs: seq<J.Job>,
                                             picks: seq<seq<nat>>, statuses: seq<seq<A.ApplicationStatus>>, i: nat)
    requires PickDraws(|seekers|, |jobs|, picks, statuses) && i <= |seekers|
    requires !AppliedAll(t, seekers[..i], jobs, picks[..i], statuses[..i]).2
    ensures AppliedAll(t, seekers, jobs, picks, statuses) == AppliedAll(t, seekers[..i], jobs, picks[..i], statuses[..i])
    decreases |seekers|
  {
    if i == |seekers| {
      assert seekers[..i] == seekers && picks[..i] == picks && statuses[..i] == statuses;
    } else {
      var n := |seekers| - 1;
      assert seekers[..n][..i] == seekers[..i] && picks[..n][..i] == picks[..i] && statuses[..n][..i] == statuses[..i];
      AppliedAllStopped(t, seekers[..n], jobs, picks[..n], statuses[..n], i);
    }
  }

  /** The seeker profiles `create_applications` starts from: the first five. */
  function SeekerSnapshot(t: Tables): (r: seq<U.JobSeekerProfile>)
    ensures |r| == if |t.seekerProfiles| < 5 then |t.seekerProfiles| else 5
    ensures r <= t.seekerProfiles
  {
    Take(t.seekerProfiles, 5)
  }

  /** The jobs `create_applications` starts from: the eight newest, newest first, since jobs
      are listed by creation time, latest first. */
  function JobSnapshot(t: Tables): (r: seq<J.Job>)
    ensures |r| == if |t.jobs| < 8 then |t.jobs| else 8
    ensures forall i :: 0 <= i < |r| ==> r[i] == t.jobs[|t.jobs| - 1 - i]
  {
    Take(Reversed(t.jobs), 8)
  }

  /** What the random draws of `create_applications` promise: per seeker a count from
      `randint(2, 3)`, that many distinct positions from `random.sample` (or every job when
      there are fewer), and a status from `random.choice` per position. */
  predicate ApplicationDraws(t: Tables, counts: seq<int>, picks: seq<seq<nat>>, statuses: seq<seq<A.ApplicationStatus>>)
  {
    var jobCount := |JobSnapshot(t)|;
    && PickDraws(|SeekerSnapshot(t)|, jobCount, picks, statuses) && StatusDraws(statuses)
    && |counts| == |picks|
    && forall i :: 0 <= i < |picks| ==>
         && 2 <= counts[i] <= 3 && Distinct(picks[i])
         && |picks[i]| == if counts[i] < jobCount then counts[i] else jobCount
  }

  /** The draws of the first `i` seekers. */
  lemma PickDrawsPrefix(seekerCount: nat, jobCount: nat, picks: seq<seq<nat>>, statuses: seq<seq<A.ApplicationStatus>>, i: nat)
    requires PickDraws(seekerCount, jobCount, picks, statuses) && i <= seekerCount
    ensures PickDraws(i, jobCount, picks[..i], statuses[..i])
  {
    forall k | 0 <= k < i ensures Picks(jobCount, picks[..i][k], statuses[..i][k]) {
      assert picks[..i][k] == picks[k] && statuses[..i][k] == statuses[k];
    }
  }

  /** `create_applications`: the result carries the number of applications created. */
  function SeededApplications(t: Tables, picks: seq<seq<nat>>, statuses: seq<seq<A.ApplicationStatus>>)
    : (r: (Tables, nat, bool))
    requires PickDraws(|SeekerSnapshot(t)|, |JobSnapshot(t)|, picks, statuses)
    ensures r.0 == t.(applications := r.0.applications, jobs := r.0.jobs, nextId := r.0.nextId)
    ensures r.1 == |r.0.applications| - |t.applications|
  {
    AppliedAll(t, SeekerSnapshot(t), JobSnapshot(t), picks, statuses)
  }

  /** In a store with integrity every profile and job of the snapshots is stored. */
  lemma SnapshotStored(t: Tables)
    requires Valid(t)
    ensures JobsStored(t, JobSnapshot(t))
    ensures forall i :: 0 <= i < |SeekerSnapshot(t)| ==> SeekerStored(t, SeekerSnapshot(t)[i])
  {
    var jobs := JobSnapshot(t);
    forall i | 0 <= i < |jobs| ensures JobExists(t, jobs[i].id) {
      HasKeyOf(t.jobs, J.JobId, jobs[i]);
    }
    var seekers := SeekerSnapshot(t);
    forall i | 0 <= i < |seekers| ensures SeekerStored(t, seekers[i]) {
      HasKeyOf(t.seekerProfiles, U.SeekerProfileId, seekers[i]);
      assert UserExists(t, U.SeekerProfileUser(t.seekerProfiles[i]));
    }
  }

  /** On a store with integrity the phase runs to the end, keeps the integrity, writes no job
      row, and creates at most fifteen applications: five seekers, three jobs each. */
  lemma SeededApplicationsValid(t: Tables, counts: seq<int>, picks: seq<seq<nat>>, statuses: seq<seq<A.ApplicationStatus>>)
    requires Valid(t) && ApplicationDraws(t, counts, picks, statuses)
    ensures SeededApplications(t, picks, statuses).2
    ensures Valid(SeededApplications(t, picks, statuses).0)
    ensures SeededApplications(t, picks, statuses).0.jobs == t.jobs
    ensures SeededApplications(t, picks, statuses).1 <= 15
  {
    SnapshotStored(t);
    AppliedAllValid(t, SeekerSnapshot(t), JobSnapshot(t), picks, statuses);
    AppliedAllBound(t, SeekerSnapshot(t), JobSnapshot(t), picks, statuses);
  }

  /** After the phase every seeker of the snapshot has applied to each job picked for them,
      and every new application is a snapshot seeker's, for a snapshot job, unviewed and with
      a drawn status. */
  lemma SeededApplicationsRows(t: Tables, counts: seq<int>, picks: seq<seq<nat>>, statuses: seq<seq<A.ApplicationStatus>>)
    requires Valid(t) && ApplicationDraws(t, counts, picks, statuses)
    ensures Covered(SeededApplications(t, picks, statuses).0.applications, SeekerSnapshot(t), JobSnapshot(t), picks)
    ensures AppliedByAny(SeededApplications(t, picks, statuses).0.applications, |t.applications|,
                         SeekerSnapshot(t), JobSnapshot(t))
  {
    SnapshotStored(t);
    AppliedAllValid(t, SeekerSnapshot(t), JobSnapshot(t), picks, statuses);
    AppliedAllComplete(t, SeekerSnapshot(t), JobSnapshot(t), picks, statuses);
    AppliedAllRows(t, SeekerSnapshot(t), JobSnapshot(t), picks, statuses);
  }

  /** Since `objects.create` never raises a job's counter, a store whose counters matched its
      applications no longer does once the phase has created any application. */
  lemma SeededApplicationsCountersDrift(t: Tables, counts: seq<int>, picks: seq<seq<nat>>, statuses: seq<seq<A.ApplicationStatus>>)
    requires Valid(t) && CountersMatch(t) && ApplicationDraws(t, counts, picks, statuses)
    requires SeededApplications(t, picks, statuses).1 > 0
    ensures !CountersMatch(SeededApplications(t, picks, statuses).0)
  {
    SeededApplicationsValid(t, counts, picks, statuses);
    var t1 := SeededApplications(t, picks, statuses).0;
    var m := |t.applications|;
    var a := t1.applications[m];
    assert JobExists(t1, a.job) by {
      assert RefsTo(t1.applications, A.ApplicationJob, t1.jobs, J.JobId);
      assert A.ApplicationJob(t1.applications[m]) == a.job;
    }
    var ii :| 0 <= ii < |t1.jobs| && J.JobId(t1.jobs[ii]) == a.job;
    CountersDriftAt(t, t1, ii);
  }

  /** One job whose counter matched: once an application to it is appended, it no longer does. */
  lemma CountersDriftAt(t: Tables, t1: Tables, ii: nat)
    requires CountersMatch(t) && t1.jobs == t.jobs && ii < |t.jobs|
    requires t.applications < t1.applications && t1.applications[|t.applications|].job == t.jobs[ii].id
    ensures !CountersMatch(t1)
  {
    var extra := t1.applications[|t.applications|..];
    assert t1.applications == t.applications + extra;
    A.CountForConcat(t.applications, extra, t.jobs[ii].id);
    A.CountForPositive(extra, t.jobs[ii].id, 0);
    assert t1.jobs[ii].applicationsCount != A.CountFor(t1.applications, t1.jobs[ii].id);
  }

  /** Running the phase again with the same draws creates nothing: the snapshots are the same,
      and each pair is found by the existence check. */
  lemma SeededApplicationsIdempotent(t: Tables, counts: seq<int>, picks: seq<seq<nat>>, statuses: seq<seq<A.ApplicationStatus>>)
    requires Valid(t) && ApplicationDraws(t, counts, picks, statuses)
    ensures PickDraws(|SeekerSnapshot(SeededApplications(t, picks, statuses).0)|,
                      |JobSnapshot(SeededApplications(t, picks, statuses).0)|, picks, statuses)
    ensures var t1 := SeededApplications(t, picks, statuses).0;
      SeededApplications(t1, picks, statuses) == (t1, 0, true)
  {
    SeededApplicationsRows(t, counts, picks, statuses);
    var t1 := SeededApplications(t, picks, statuses).0;
    assert SeekerSnapshot(t1) == SeekerSnapshot(t) && JobSnapshot(t1) == JobSnapshot(t);
    AppliedAllNoop(t1, SeekerSnapshot(t), JobSnapshot(t), picks, statuses);
  }

  /** One more seeker of the outer loop, after the ones before ran to the end. */
  lemma AppliedAllStep(t: Tables, seekers: seq<U.JobSeekerProfile>, jobs: seq<J.Job>, picks: seq<seq<nat>>,
                       statuses: seq<seq<A.ApplicationStatus>>, i: nat)
    requires PickDraws(|seekers|, |jobs|, picks, statuses) && i < |seekers|
    requires PickDraws(i, |jobs|, picks[..i], statuses[..i])
    requires AppliedAll(t, seekers[..i], jobs, picks[..i], statuses[..i]).2
    ensures PickDraws(i + 1, |jobs|, picks[..i + 1], statuses[..i + 1])
    ensures var prev := AppliedAll(t, seekers[..i], jobs, picks[..i], statuses[..i]);
      var step := AppliedTo(prev.0, seekers[i], jobs, picks[i], statuses[i]);
      AppliedAll(t, seekers[..i + 1], jobs, picks[..i + 1], statuses[..i + 1]) == (step.0, prev.1 + step.1, step.2)
  {
    PickDrawsPrefix(|seekers|, |jobs|, picks, statuses, i + 1);
    var s1, p1, q1 := seekers[..i + 1], picks[..i + 1], statuses[..i + 1];
    assert s1[..i] == seekers[..i] && s1[i] == seekers[i];
    assert p1[..i] == picks[..i] && p1[i] == picks[i];
    assert q1[..i] == statuses[..i] && q1[i] == statuses[i];
  }

  /** One seeker of the outer loop: the inner loop over the seeker's picks, after the seekers
      before ran to the end. */
  method ApplySeeker(ghost t0: Tables, seekers: seq<U.JobSeekerProfile>, jobs: seq<J.Job>, picks: seq<seq<nat>>,
                     statuses: seq<seq<A.ApplicationStatus>>, i: nat, t: Tables, created: nat)
    returns (t': Tables, created': nat, ok: bool)
    requires PickDraws(|seekers|, |jobs|, picks, statuses) && i < |seekers|
    requires PickDraws(i, |jobs|, picks[..i], statuses[..i])
    requires (t, created, true) == AppliedAll(t0, seekers[..i], jobs, picks[..i], statuses[..i])
    ensures PickDraws(i + 1, |jobs|, picks[..i + 1], statuses[..i + 1])
    ensures (t', created', ok) == AppliedAll(t0, seekers[..i + 1], jobs, picks[..i + 1], statuses[..i + 1])
  {
    AppliedAllStep(t0, seekers, jobs, picks, statuses, i);
    var r := AppliedTo(t, seekers[i], jobs, picks[i], statuses[i]);
    t', created', ok := r.0, created + r.1, r.2;
  }

  /** The outer loop of `create_applications`. */
  method ApplyAll(t: Tables, seekers: seq<U.JobSeekerProfile>, jobs: seq<J.Job>, picks: seq<seq<nat>>,
                  statuses: seq<seq<A.ApplicationStatus>>) returns (t': Tables, created: nat, ok: bool)
    requires PickDraws(|seekers|, |jobs|, picks, statuses)
    ensures (t', created, ok) == AppliedAll(t, seekers, jobs, picks, statuses)
  {
    t', created, ok := t, 0, true;
    var i := 0;
    while i < |seekers|
      invariant 0 <= i <= |seekers|
      invariant PickDraws(i, |jobs|, picks[..i], statuses[..i])
      invariant (t', created, true) == AppliedAll(t, seekers[..i], jobs, picks[..i], statuses[..i])
    {
      t', created, ok := ApplySeeker(t, seekers, jobs, picks, statuses, i, t', created);
      if !ok {
        AppliedAllStopped(t, seekers, jobs, picks, statuses, i + 1);
        return;
      }
      i := i + 1;
    }
    assert seekers[..i] == seekers && picks[..i] == picks && statuses[..i] == statuses;
  }


  /** `create_applications`. */
  method CreateApplications(t: Tables, picks: seq<seq<nat>>, statuses: seq<seq<A.ApplicationStatus>>)
    returns (t': Tables, created: nat, ok: bool)
    requires PickDraws(|SeekerSnapshot(t)|, |JobSnapshot(t)|, picks, statuses)
    ensures (t', created, ok) == SeededApplications(t, picks, statuses)
  {
    t', created, ok := ApplyAll(t, SeekerSnapshot(t), JobSnapshot(t), picks, statuses);
  }

  // ----- the command -----

  /** The records each phase of the command works through. */
  datatype SampleData = SampleData(
    categories: seq<CategorySeed>,
    skills: seq<SkillSeed>,
    seekers: seq<SeekerSeed>,
    employers: seq<EmployerSeed>,
    jobs: seq<JobSeed>)

  /** The outcomes of the command's random draws, in the order the phases make them. */
  datatype Draws = Draws(
    years: seq<seq<nat>>,
    jobs: seq<JobDraw>,
    counts: seq<int>,
    picks: seq<seq<nat>>,
    statuses: seq<seq<A.ApplicationStatus>>)

  /** The draws the first five phases consume fit their records. */
  predicate EarlyDraws(d: SampleData, r: Draws)
  {
    SeekerDraws(d.seekers, r.years) && |r.jobs| == |d.jobs|
  }

  /** The store when `create_applications` starts; the flag is false when an earlier phase
      raised, and the command stopped there. */
  function BeforeApplications(t: Tables, d: SampleData, r: Draws): (res: (Tables, bool))
    requires EarlyDraws(d, r)
    ensures res.0.applications == t.applications
  {
    var t1 := SeededCategories(t, d.categories);
    var t2 := SeededSkills(t1, d.skills);
    var (t3, ok3) := SeededSeekers(t2, d.seekers, r.years);
    if !ok3 then (t3, false)
    else
      var (t4, ok4) := SeededEmployers(t3, d.employers);
      if !ok4 then (t4, false) else SeededJobs(t4, d.jobs, r.jobs)
  }

  /** The draws of `create_applications` fit the store that phase starts from. */
  predicate HandleDraws(t: Tables, d: SampleData, r: Draws)
  {
    && EarlyDraws(d, r)
    && var before := BeforeApplications(t, d, r).0;
       ApplicationDraws(before, r.counts, r.picks, r.statuses)
  }

  /** `handle`: the six phases in order. The result carries the number of applications
      created; its flag is false when a phase raised. */
  function Populated(t: Tables, d: SampleData, r: Draws): (res: (Tables, nat, bool))
    requires HandleDraws(t, d, r)
  {
    var (t5, ok5) := BeforeApplications(t, d, r);
    if !ok5 then (t5, 0, false) else SeededApplications(t5, r.picks, r.statuses)
  }

  /** Counters read only jobs and applications. */
  lemma CountersSame(t: Tables, t': Tables)
    requires CountersMatch(t) && t'.jobs == t.jobs && t'.applications == t.applications
    ensures CountersMatch(t')
  {
  }

  /** The first five phases run to the end on a store with integrity and counters that match,
      when no record lists a skill twice, and keep both. */
  lemma BeforeApplicationsValid(t: Tables, d: SampleData, r: Draws)
    requires Valid(t) && CountersMatch(t) && EarlyDraws(d, r)
    requires DistinctSkills(d.seekers) && DistinctRequirements(d.jobs)
    ensures BeforeApplications(t, d, r).1
    ensures Valid(BeforeApplications(t, d, r).0) && CountersMatch(BeforeApplications(t, d, r).0)
  {
    var t1 := SeededCategories(t, d.categories);
    SeededCategoriesValid(t, d.categories);
    CountersSame(t, t1);
    var t2 := SeededSkills(t1, d.skills);
    SeededSkillsValid(t1, d.skills);
    CountersSame(t1, t2);
    var t3 := SeededSeekers(t2, d.seekers, r.years).0;
    SeededSeekersValid(t2, d.seekers, r.years);
    CountersSame(t2, t3);
    var t4 := SeededEmployers(t3, d.employers).0;
    SeededEmployersValid(t3, d.employers);
    CountersSame(t3, t4);
    SeededJobsValid(t4, d.jobs, r.jobs);
  }

  /** On a store with integrity and counters that match (the empty store among them) the
      command runs to the end, keeps the integrity, and creates at most fifteen applications;
      as soon as it creates one, the counters no longer match. */
  lemma PopulatedValid(t: Tables, d: SampleData, r: Draws)
    requires Valid(t) && CountersMatch(t) && HandleDraws(t, d, r)
    requires DistinctSkills(d.seekers) && DistinctRequirements(d.jobs)
    ensures Populated(t, d, r).2 && Valid(Populated(t, d, r).0)
    ensures Populated(t, d, r).1 <= 15
    ensures Populated(t, d, r).1 > 0 ==> !CountersMatch(Populated(t, d, r).0)
  {
    BeforeApplicationsValid(t, d, r);
    var t5 := BeforeApplications(t, d, r).0;
    SeededApplicationsValid(t5, r.counts, r.picks, r.statuses);
    if Populated(t, d, r).1 > 0 {
      SeededApplicationsCountersDrift(t5, r.counts, r.picks, r.statuses);
    }
  }

  /** Run on an empty store, the command leaves every job with an `applications_count` of
      zero, whatever applications it created. */
  lemma PopulatedCountsStayZero(d: SampleData, r: Draws)
    requires HandleDraws(Empty, d, r)
    requires DistinctSkills(d.seekers) && DistinctRequirements(d.jobs)
    ensures var jobs := Populated(Empty, d, r).0.jobs;
      forall i :: 0 <= i < |jobs| ==> jobs[i].applicationsCount == 0
  {
    EmptyValid();
    BeforeApplicationsValid(Empty, d, r);
    var t5 := BeforeApplications(Empty, d, r).0;
    assert t5.applications == [];
    SeededApplicationsValid(t5, r.counts, r.picks, r.statuses);
  }

  /** `handle`. */
  method Handle(t: Tables, d: SampleData, r: Draws) returns (t': Tables, created: nat, ok: bool)
    requires HandleDraws(t, d, r)
    ensures (t', created, ok) == Populated(t, d, r)
  {
    created := 0;
    t' := CreateJobCategories(t, d.categories);
    t' := CreateSkills(t', d.skills);
    t', ok := CreateJobSeekers(t', d.seekers, r.years);
    if !ok {
      return;
    }
    t', ok := CreateJobPosters(t', d.employers);
    if !ok {
      return;
    }
    t', ok := CreateJobListings(t', d.jobs, r.jobs);
    if !ok {
      return;
    }
    t', created, ok := CreateApplications(t', r.picks, r.statuses);
  }
}
