/** The data layer of `src/utils/localStorage.ts`. Each storage key becomes a
    field of `Store`: the three collections, the signed-in user, and the
    `redirect_after_login` path the job page leaves behind. A missing key
    reads as an empty collection, which is the state a new `Store` starts in;
    every `save*` loads a collection, changes it and writes the whole of it
    back, which here is one assignment to the field. */
module Storage {
  import opened Wrappers
  import opened Entities
  import Tables
  import Text

  class Store {
    var users: seq<User>
    var jobs: seq<Job>
    var applications: seq<Application>
    var session: Option<User>
    var redirectAfterLogin: Option<string>

    /** A browser profile in which no key has been written yet. */
    constructor ()
      ensures users == [] && jobs == [] && applications == []
      ensures session == None && redirectAfterLogin == None
    {
      users, jobs, applications := [], [], [];
      session, redirectAfterLogin := None, None;
    }

    // -------------------------------------------------------------------
    // Users and the session

    /** `saveUser`: overwrite the first user with the same id, or append. */
    method SaveUser(user: User)
      modifies this`users
      ensures users == Tables.Upsert(old(users), UserId, user)
      ensures Tables.Find(users, UserId, user.id) == Some(user)
    {
      var existingIndex := Tables.FindIndex(users, UserId, user.id);
      if existingIndex >= 0 {
        users := users[existingIndex := user];
      } else {
        users := users + [user];
      }
      Tables.FindAfterUpsert(old(users), UserId, user);
    }

    /** `getUserByEmail`: the first stored user with this email. */
    function GetUserByEmail(email: string): (r: Option<User>)
      reads this
      ensures r.Some? <==> exists i :: 0 <= i < |users| && users[i].email == email
      ensures r.Some? ==> r.value.email == email
      ensures r.Some? ==> r.value == users[Tables.FindIndex(users, UserEmail, email)]
    {
      Tables.Find(users, UserEmail, email)
    }

    /** `getCurrentUser`: the stored copy of the signed-in user, if any. */
    function GetCurrentUser(): Option<User>
      reads this
    {
      session
    }

    /** `authenticateUser`: succeeds only when the first user with this email
        has exactly this password; then that user becomes the session.
        An unknown email and a wrong password fail alike and leave the
        session as it was. */
    method AuthenticateUser(email: string, password: string) returns (r: Option<User>)
      modifies this`session
      ensures r.Some? <==> GetUserByEmail(email).Some? && GetUserByEmail(email).value.password == password
      ensures r.Some? ==> r == GetUserByEmail(email) && GetCurrentUser() == r
      ensures r.None? ==> session == old(session)
    {
      var user := GetUserByEmail(email);
      if user.Some? && user.value.password == password {
        session := user;
        return user;
      }
      return None;
    }

    /** `logoutUser`: removes the session key. */
    method LogoutUser()
      modifies this`session
      ensures GetCurrentUser() == None
    {
      session := None;
    }

    // -------------------------------------------------------------------
    // Jobs

    /** `saveJob`: overwrite the first job with the same id, or append; a
        lookup by that id afterwards finds the job just saved. */
    method SaveJob(job: Job)
      modifies this`jobs
      ensures jobs == Tables.Upsert(old(jobs), JobId, job)
      ensures GetJobById(job.id) == Some(job)
    {
      var existingIndex := Tables.FindIndex(jobs, JobId, job.id);
      if existingIndex >= 0 {
        jobs := jobs[existingIndex := job];
      } else {
        jobs := jobs + [job];
      }
      Tables.FindAfterUpsert(old(jobs), JobId, job);
    }

    /** `getJobById`: the first stored job with this id. */
    function GetJobById(id: string): (r: Option<Job>)
      reads this
      ensures r.Some? <==> exists i :: 0 <= i < |jobs| && jobs[i].id == id
      ensures r.Some? ==> r.value.id == id
      ensures r.Some? ==> r.value == jobs[Tables.FindIndex(jobs, JobId, id)]
    {
      Tables.Find(jobs, JobId, id)
    }

    /** `getJobsByEmployer`: the employer's jobs, in stored order. */
    function GetJobsByEmployer(employerId: string): (r: seq<Job>)
      reads this
      ensures forall i :: 0 <= i < |r| ==> r[i] in jobs && r[i].employerId == employerId
      ensures forall i :: 0 <= i < |jobs| && jobs[i].employerId == employerId ==> jobs[i] in r
      ensures Tables.IsSubsequence(r, jobs)
      ensures forall x {:trigger multiset(r)[x]} | x in jobs :: multiset(r)[x] == if x.employerId == employerId then multiset(jobs)[x] else 0
    {
      Tables.FilterCounts(jobs, Tables.HasKey(JobEmployer, employerId));
      Tables.Filter(jobs, Tables.HasKey(JobEmployer, employerId))
    }

    /** `deleteJob`: keeps every job whose id differs, in order; afterwards no
        job has the id, and deleting an absent id changes nothing. */
    method DeleteJob(id: string)
      modifies this`jobs
      ensures jobs == Tables.RemoveKey(old(jobs), JobId, id)
      ensures GetJobById(id) == None
      ensures forall x {:trigger multiset(jobs)[x]} | x in old(jobs) :: multiset(jobs)[x] == if x.id != id then multiset(old(jobs))[x] else 0
      ensures Tables.IsSubsequence(jobs, old(jobs))
      ensures (forall i :: 0 <= i < |old(jobs)| ==> old(jobs)[i].id != id) ==> jobs == old(jobs)
    {
      Tables.RemoveKeySpec(jobs, JobId, id);
      jobs := Tables.Filter(jobs, Tables.LacksKey(JobId, id));
    }

    // -------------------------------------------------------------------
    // Applications

    /** `saveApplication`: overwrite the first application with the same id,
        or append; afterwards the candidate counts as having applied. */
    method SaveApplication(application: Application)
      modifies this`applications
      ensures applications == Tables.Upsert(old(applications), ApplicationId, application)
      ensures HasUserApplied(application.jobId, application.candidateId)
    {
      var existingIndex := Tables.FindIndex(applications, ApplicationId, application.id);
      if existingIndex >= 0 {
        applications := applications[existingIndex := application];
        assert applications[existingIndex] == application;
      } else {
        applications := applications + [application];
        assert applications[|applications| - 1] == application;
      }
    }

    /** `getApplicationsByJob`: the job's applications, in stored order. */
    function GetApplicationsByJob(jobId: string): (r: seq<Application>)
      reads this
      ensures forall i :: 0 <= i < |r| ==> r[i] in applications && r[i].jobId == jobId
      ensures forall i :: 0 <= i < |applications| && applications[i].jobId == jobId ==> applications[i] in r
      ensures Tables.IsSubsequence(r, applications)
      ensures forall x {:trigger multiset(r)[x]} | x in applications :: multiset(r)[x] == if x.jobId == jobId then multiset(applications)[x] else 0
    {
      Tables.FilterCounts(applications, Tables.HasKey(ApplicationJob, jobId));
      Tables.Filter(applications, Tables.HasKey(ApplicationJob, jobId))
    }

    /** `getApplicationsByCandidate`: the candidate's applications, in stored order. */
    function GetApplicationsByCandidate(candidateId: string): (r: seq<Application>)
      reads this
      ensures forall i :: 0 <= i < |r| ==> r[i] in applications && r[i].candidateId == candidateId
      ensures forall i :: 0 <= i < |applications| && applications[i].candidateId == candidateId ==> applications[i] in r
      ensures Tables.IsSubsequence(r, applications)
      ensures forall x {:trigger multiset(r)[x]} | x in applications :: multiset(r)[x] == if x.candidateId == candidateId then multiset(applications)[x] else 0
    {
      Tables.FilterCounts(applications, Tables.HasKey(ApplicationCandidate, candidateId));
      Tables.Filter(applications, Tables.HasKey(ApplicationCandidate, candidateId))
    }

    /** `hasUserApplied`: some stored application pairs this job with this candidate. */
    function HasUserApplied(jobId: string, candidateId: string): (b: bool)
      reads this
      ensures b <==> exists i :: 0 <= i < |applications| &&
                       applications[i].jobId == jobId && applications[i].candidateId == candidateId
    {
      Tables.Any(applications, AppliedBy(jobId, candidateId))
    }

    // -------------------------------------------------------------------
    // Seeding

    /** `initializeSampleData`: when no job is stored, saves the ten sample
        jobs one by one; otherwise leaves the jobs alone. */
    method InitializeSampleData(now: int)
      modifies this`jobs
      ensures old(jobs) != [] ==> jobs == old(jobs)
      ensures old(jobs) == [] ==> jobs == SampleJobs(now)
    {
      if |jobs| == 0 {
        SampleIdsDistinct(now);
        SaveEach(SampleJobs(now));
      }
    }

    /** `forEach(job => saveJob(job))` on an empty store: with distinct ids
        every save appends, so the store ends up holding the jobs in order. */
    method SaveEach(js: seq<Job>)
      requires jobs == [] && Tables.UniqueKeys(js, JobId)
      modifies this`jobs
      ensures jobs == js
    {
      var i := 0;
      while i < |js|
        invariant 0 <= i <= |js|
        invariant jobs == js[..i]
      {
        PrefixLacksNextId(js, i);
        SaveJob(js[i]);
        assert js[..i + 1] == js[..i] + [js[i]];
        i := i + 1;
      }
    }
  }

  // -----------------------------------------------------------------------
  // The ten sample jobs, column by column. Their descriptions and
  // requirement lists are not reproduced.

  const SampleTitles: seq<string> := [
    "Senior Software Engineer", "Product Manager", "UX Designer", "DevOps Engineer",
    "Frontend Developer", "Data Scientist", "Marketing Manager", "Mobile App Developer",
    "Full Stack Developer", "AI/ML Engineer"]

  const SampleCompanies: seq<string> := [
    "TechCorp", "StartupXYZ", "DesignStudio", "CloudTech", "WebSolutions",
    "DataCorp", "GrowthCo", "AppStudio", "InnovateTech", "AITech Solutions"]

  const SampleLocations: seq<string> := [
    "San Francisco, CA", "New York, NY", "Remote", "Austin, TX", "Remote",
    "Seattle, WA", "Los Angeles, CA", "Chicago, IL", "Boston, MA", "Palo Alto, CA"]

  const SampleTypes: seq<string> := [
    "Full-time", "Full-time", "Contract", "Full-time", "Part-time",
    "Full-time", "Full-time", "Contract", "Full-time", "Full-time"]

  const SampleSalaries: seq<string> := [
    "$120k - $180k", "$90k - $130k", "$70k - $90k", "$100k - $140k", "$60k - $80k",
    "$110k - $160k", "$80k - $110k", "$85k - $115k", "$95k - $135k", "$130k - $190k"]

  /** How many days before seeding each sample job was posted. */
  const SampleDaysOld: seq<nat> := [2, 1, 3, 4, 5, 6, 7, 8, 9, 10]

  const SampleFeatured: seq<bool> := [true, false, true, false, true, false, false, false, false, true]

  /** Sample job number `k + 1`, posted relative to `now`. */
  function SampleJob(k: nat, now: int): (j: Job)
    requires k < 10
    ensures j.id == Text.NatToString(k + 1)
  {
    Job(Text.NatToString(k + 1), SampleTitles[k], SampleCompanies[k], SampleLocations[k],
        SampleTypes[k], SampleSalaries[k], "", Some(""),
        "sample-employer-" + Text.NatToString(k + 1),
        now - SampleDaysOld[k] * MS_PER_DAY, SampleFeatured[k])
  }

  /** The seed list: ten jobs whose ids are "1" to "10" in that order. */
  function SampleJobs(now: int): (r: seq<Job>)
    ensures |r| == 10
    ensures forall k :: 0 <= k < 10 ==> r[k].id == Text.NatToString(k + 1)
  {
    seq(10, k requires 0 <= k < 10 => SampleJob(k, now))
  }

  /** The sample ids are pairwise distinct, so seeding appends every job. */
  lemma SampleIdsDistinct(now: int)
    ensures Tables.UniqueKeys(SampleJobs(now), JobId)
  {
    var r := SampleJobs(now);
    forall i, j | 0 <= i < j < |r|
      ensures JobId(r[i]) != JobId(r[j])
    {
      Text.NatToStringInjective(i + 1, j + 1);
    }
  }

  /** With distinct ids, no job before position `i` has the id of job `i`. */
  lemma PrefixLacksNextId(s: seq<Job>, i: nat)
    requires Tables.UniqueKeys(s, JobId) && i < |s|
    ensures !Tables.Present(s[..i], JobId, s[i].id)
  {
    forall k | 0 <= k < i
      ensures JobId(s[..i][k]) != s[i].id
    {
      assert s[..i][k] == s[k];
    }
  }

  /** The first and the last seeded ids are "1" and "10". */
  lemma SampleIdsEnds(now: int)
    ensures SampleJobs(now)[0].id == "1" && SampleJobs(now)[9].id == "10"
  {
  }
}
