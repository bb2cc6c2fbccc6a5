/** The companies page (`src/pages/Companies.tsx`): the stored jobs grouped
    by company name, each group with the location of its first job, its job
    count and its jobs in stored order. */
module Companies {
  import opened Wrappers
  import opened Entities
  import Tables

  datatype Company = Company(name: string, location: string, jobCount: nat, jobs: seq<Job>)

  /** The company names that occur in `jobs`. */
  function CompanyNames(jobs: seq<Job>): set<string> {
    set i | 0 <= i < |jobs| :: jobs[i].company
  }

  /** The jobs of one company, in stored order. */
  function CompanyJobs(jobs: seq<Job>, name: string): seq<Job> {
    Tables.Filter(jobs, Tables.HasKey(JobCompany, name))
  }

  /** The entry a company should get: its name, the location of its first
      job, the number of its jobs and those jobs. */
  function CompanyEntry(jobs: seq<Job>, name: string): Company
    requires name in CompanyNames(jobs)
  {
    NamePresent(jobs, name);
    var js := CompanyJobs(jobs, name);
    Company(name, Tables.Find(jobs, JobCompany, name).value.location, |js|, js)
  }

  /** What an entry states: the name it is filed under; the location of the
      first job with that company; exactly the jobs with that company, in
      stored order; and a count equal to their number. */
  lemma CompanyEntryFacts(jobs: seq<Job>, name: string)
    requires name in CompanyNames(jobs)
    ensures var c := CompanyEntry(jobs, name);
      && c.name == name
      && c.jobCount == |c.jobs|
      && (exists i :: 0 <= i < |jobs| && jobs[i].company == name && c.location == jobs[i].location
                      && forall j :: 0 <= j < i ==> jobs[j].company != name)
      && (forall i :: 0 <= i < |c.jobs| ==> c.jobs[i] in jobs && c.jobs[i].company == name)
      && (forall i :: 0 <= i < |jobs| && jobs[i].company == name ==> jobs[i] in c.jobs)
      && Tables.IsSubsequence(c.jobs, jobs)
      && (forall x {:trigger multiset(c.jobs)[x]} | x in jobs ::
            multiset(c.jobs)[x] == if x.company == name then multiset(jobs)[x] else 0)
  {
    NamePresent(jobs, name);
    Tables.FilterCounts(jobs, Tables.HasKey(JobCompany, name));
    var first := Tables.FindIndex(jobs, JobCompany, name);
    assert forall j :: 0 <= j < first ==> JobCompany(jobs[j]) != name;
  }

  /** One step of the `reduce`: create the entry on the company's first job,
      then count the job and append it. */
  function AddJob(m: map<string, Company>, job: Job): (r: map<string, Company>)
    ensures r.Keys == m.Keys + {job.company}
    ensures forall n | n in m && n != job.company :: r[n] == m[n]
    ensures job.company !in m ==> r[job.company] == Company(job.company, job.location, 1, [job])
    ensures job.company in m ==>
              var c := m[job.company];
              r[job.company] == Company(c.name, c.location, c.jobCount + 1, c.jobs + [job])
  {
    var c := if job.company in m then m[job.company] else Company(job.company, job.location, 0, []);
    m[job.company := c.(jobCount := c.jobCount + 1, jobs := c.jobs + [job])]
  }

  /** The dictionary the `reduce` builds, starting from `{}`. */
  function Reduce(jobs: seq<Job>): map<string, Company> {
    if jobs == [] then map[] else AddJob(Reduce(jobs[..|jobs| - 1]), jobs[|jobs| - 1])
  }

  /** The dictionary holds one entry per distinct company name, and that
      entry is the one the company should get. */
  predicate Describes(m: map<string, Company>, jobs: seq<Job>) {
    && m.Keys == CompanyNames(jobs)
    && forall name :: name in m ==> m[name] == CompanyEntry(jobs, name)
  }

  lemma CompanyNamesSnoc(jobs: seq<Job>, job: Job)
    ensures CompanyNames(jobs + [job]) == CompanyNames(jobs) + {job.company}
  {
    var js := jobs + [job];
    assert js[|jobs|] == job;
    forall n | n in CompanyNames(js) ensures n in CompanyNames(jobs) + {job.company} {
      var i :| 0 <= i < |js| && js[i].company == n;
      if i < |jobs| { assert js[i] == jobs[i]; }
    }
    forall n | n in CompanyNames(jobs) ensures n in CompanyNames(js) {
      var i :| 0 <= i < |jobs| && jobs[i].company == n;
      assert js[i] == jobs[i];
    }
  }

  /** A name occurs in `jobs` exactly when some job has it as company key. */
  lemma NamePresent(jobs: seq<Job>, n: string)
    ensures n in CompanyNames(jobs) <==> Tables.Present(jobs, JobCompany, n)
  {
    if n in CompanyNames(jobs) {
      var i :| 0 <= i < |jobs| && jobs[i].company == n;
      assert JobCompany(jobs[i]) == n;
    }
    if Tables.Present(jobs, JobCompany, n) {
      var i :| 0 <= i < |jobs| && JobCompany(jobs[i]) == n;
      assert jobs[i].company in CompanyNames(jobs);
    }
  }

  /** The entry of a company already seen gains the job when the job is
      that company's; a new company's entry holds the job alone. */
  lemma CompanyEntrySnoc(jobs: seq<Job>, job: Job, n: string)
    requires n in CompanyNames(jobs + [job])
    ensures n in CompanyNames(jobs) && n != job.company ==>
              CompanyEntry(jobs + [job], n) == CompanyEntry(jobs, n)
    ensures n in CompanyNames(jobs) && n == job.company ==>
              var c := CompanyEntry(jobs, n);
              CompanyEntry(jobs + [job], n) == c.(jobCount := c.jobCount + 1, jobs := c.jobs + [job])
    ensures n !in CompanyNames(jobs) ==>
              CompanyEntry(jobs + [job], n) == Company(n, job.location, 1, [job])
  {
    if n !in CompanyNames(jobs) {
      EntrySnocNew(jobs, job, n);
    } else if n != job.company {
      EntrySnocOther(jobs, job, n);
    } else {
      EntrySnocSame(jobs, job, n);
    }
  }

  /** A job of another company leaves an entry as it was. */
  lemma EntrySnocOther(jobs: seq<Job>, job: Job, n: string)
    requires n in CompanyNames(jobs) && n != job.company
    ensures n in CompanyNames(jobs + [job])
    ensures CompanyEntry(jobs + [job], n) == CompanyEntry(jobs, n)
  {
    CompanyNamesSnoc(jobs, job);
    NamePresent(jobs, n);
    Tables.FilterSnoc(jobs, job, Tables.HasKey(JobCompany, n));
    Tables.FindSnoc(jobs, job, JobCompany, n);
  }

  /** A further job of a company already seen is counted and appended. */
  lemma EntrySnocSame(jobs: seq<Job>, job: Job, n: string)
    requires n in CompanyNames(jobs) && n == job.company
    ensures n in CompanyNames(jobs + [job])
    ensures var c := CompanyEntry(jobs, n);
            CompanyEntry(jobs + [job], n) == c.(jobCount := c.jobCount + 1, jobs := c.jobs + [job])
  {
    CompanyNamesSnoc(jobs, job);
    NamePresent(jobs, n);
    Tables.FilterSnoc(jobs, job, Tables.HasKey(JobCompany, n));
    Tables.FindSnoc(jobs, job, JobCompany, n);
  }

  /** The first job of a company makes an entry holding that job alone. */
  lemma EntrySnocNew(jobs: seq<Job>, job: Job, n: string)
    requires n in CompanyNames(jobs + [job]) && n !in CompanyNames(jobs)
    ensures CompanyEntry(jobs + [job], n) == Company(n, job.location, 1, [job])
  {
    CompanyNamesSnoc(jobs, job);
    NamePresent(jobs, n);
    assert n == job.company;
    var p := Tables.HasKey(JobCompany, n);
    assert forall i :: 0 <= i < |jobs| ==> !p(jobs[i]);
    Tables.FilterNone(jobs, p);
    Tables.FilterSnoc(jobs, job, p);
    assert p(job) && [] + [job] == [job];
    assert CompanyJobs(jobs + [job], n) == [job];
    Tables.FindSnoc(jobs, job, JobCompany, n);
    assert Tables.Find(jobs + [job], JobCompany, n) == Some(job);
  }

  /** Folding one more job keeps the dictionary describing the jobs seen. */
  lemma DescribesSnoc(m: map<string, Company>, jobs: seq<Job>, job: Job)
    requires Describes(m, jobs)
    ensures Describes(AddJob(m, job), jobs + [job])
  {
    CompanyNamesSnoc(jobs, job);
    var b := AddJob(m, job);
    forall n | n in b
      ensures b[n] == CompanyEntry(jobs + [job], n)
    {
      DescribesSnocAt(m, jobs, job, n);
    }
  }

  lemma DescribesSnocAt(m: map<string, Company>, jobs: seq<Job>, job: Job, n: string)
    requires Describes(m, jobs)
    requires n in CompanyNames(jobs + [job])
    ensures n in AddJob(m, job) && AddJob(m, job)[n] == CompanyEntry(jobs + [job], n)
  {
    CompanyNamesSnoc(jobs, job);
    if n in CompanyNames(jobs) {
      AddJobKnown(m, jobs, job, n);
    } else {
      AddJobFresh(m, jobs, job);
    }
  }

  /** A step on a company already in the dictionary with its right entry
      gives the right entry for one more job. */
  lemma AddJobKnown(m: map<string, Company>, jobs: seq<Job>, job: Job, n: string)
    requires n in CompanyNames(jobs) && n in m && m[n] == CompanyEntry(jobs, n)
    ensures n in CompanyNames(jobs + [job])
    ensures n in AddJob(m, job) && AddJob(m, job)[n] == CompanyEntry(jobs + [job], n)
  {
    if n != job.company {
      assert AddJob(m, job)[n] == m[n];
      EntrySnocOther(jobs, job, n);
    } else {
      assert AddJob(m, job)[n] == m[n].(jobCount := m[n].jobCount + 1, jobs := m[n].jobs + [job]);
      EntrySnocSame(jobs, job, n);
    }
  }

  /** A step on a company not yet seen creates its right entry. */
  lemma AddJobFresh(m: map<string, Company>, jobs: seq<Job>, job: Job)
    requires job.company !in m && job.company !in CompanyNames(jobs)
    ensures job.company in CompanyNames(jobs + [job])
    ensures job.company in AddJob(m, job)
    ensures AddJob(m, job)[job.company] == CompanyEntry(jobs + [job], job.company)
  {
    CompanyNamesSnoc(jobs, job);
    assert [] + [job] == [job];
    EntrySnocNew(jobs, job, job.company);
  }

  /** The `reduce` gives one entry per distinct company name, each holding
      the location of the company's first job, the number of its jobs and
      those jobs in stored order. */
  lemma {:induction false} ReduceDescribes(jobs: seq<Job>)
    ensures Describes(Reduce(jobs), jobs)
    decreases |jobs|
  {
    if jobs == [] {
      assert CompanyNames(jobs) == {};
    } else {
      var prefix, job := jobs[..|jobs| - 1], jobs[|jobs| - 1];
      assert prefix + [job] == jobs;
      assert Reduce(jobs) == AddJob(Reduce(prefix), job);
      ReduceDescribes(prefix);
      DescribesSnoc(Reduce(prefix), prefix, job);
    }
  }

  /** The `reduce` over the stored jobs, one job at a time. */
  method GroupByCompany(jobs: seq<Job>) returns (companies: map<string, Company>)
    ensures companies == Reduce(jobs)
    ensures Describes(companies, jobs)
  {
    companies := map[];
    for i := 0 to |jobs|
      invariant companies == Reduce(jobs[..i])
    {
      var job := jobs[i];
      if job.company !in companies {
        companies := companies[job.company := Company(job.company, job.location, 0, [])];
      }
      var c := companies[job.company];
      companies := companies[job.company := c.(jobCount := c.jobCount + 1, jobs := c.jobs + [job])];
      assert jobs[..i + 1][..i] == jobs[..i];
    }
    assert jobs[..|jobs|] == jobs;
    ReduceDescribes(jobs);
  }

  // -----------------------------------------------------------------------
  // The company list

  /** `list` is an enumeration of the dictionary's values, as
      `Object.values` returns them: every entry once, in some order. */
  predicate ValuesOf(list: seq<Company>, m: map<string, Company>) {
    && (forall i :: 0 <= i < |list| ==> list[i].name in m && m[list[i].name] == list[i])
    && (forall i, j :: 0 <= i < j < |list| ==> list[i].name != list[j].name)
    && (forall name :: name in m ==> exists i :: 0 <= i < |list| && list[i].name == name)
  }

  function SumCounts(list: seq<Company>): nat {
    if list == [] then 0 else list[0].jobCount + SumCounts(list[1..])
  }

  function Names(list: seq<Company>): (names: seq<string>)
    ensures |names| == |list| && forall i :: 0 <= i < |list| ==> names[i] == list[i].name
  {
    seq(|list|, i requires 0 <= i < |list| => list[i].name)
  }

  /** The number of jobs of each company in `names`, added up. */
  function SumOver(jobs: seq<Job>, names: seq<string>): nat {
    if names == [] then 0 else |CompanyJobs(jobs, names[0])| + SumOver(jobs, names[1..])
  }

  function Occurrences(names: seq<string>, n: string): nat {
    if names == [] then 0 else (if names[0] == n then 1 else 0) + Occurrences(names[1..], n)
  }

  /** One more job adds one to the count of its company for each time the
      company is listed. */
  lemma {:induction false} SumOverSnoc(jobs: seq<Job>, job: Job, names: seq<string>)
    ensures SumOver(jobs + [job], names) == SumOver(jobs, names) + Occurrences(names, job.company)
  {
    if names != [] {
      var p := Tables.HasKey(JobCompany, names[0]);
      Tables.FilterSnoc(jobs, job, p);
      assert p(job) <==> job.company == names[0];
      assert |CompanyJobs(jobs + [job], names[0])| ==
             |CompanyJobs(jobs, names[0])| + (if job.company == names[0] then 1 else 0);
      SumOverSnoc(jobs, job, names[1..]);
    }
  }

  /** A name listed once, among distinct names, occurs once. */
  lemma {:induction false} OccursOnce(names: seq<string>, n: string)
    requires forall i, j :: 0 <= i < j < |names| ==> names[i] != names[j]
    ensures Occurrences(names, n) == (if n in names then 1 else 0)
  {
    if names != [] {
      OccursOnce(names[1..], n);
      assert names == [names[0]] + names[1..];
      if names[0] == n {
        assert n !in names[1..];
      }
    }
  }

  /** Counting each company's jobs over a list of distinct names that covers
      every company counts every job once. */
  lemma {:induction false} SumOverCovers(jobs: seq<Job>, names: seq<string>)
    requires forall i, j :: 0 <= i < j < |names| ==> names[i] != names[j]
    requires forall i :: 0 <= i < |jobs| ==> jobs[i].company in names
    ensures SumOver(jobs, names) == |jobs|
    decreases |jobs|
  {
    if jobs == [] {
      SumOverEmpty(names);
    } else {
      var prefix, job := jobs[..|jobs| - 1], jobs[|jobs| - 1];
      assert prefix + [job] == jobs;
      SumOverCovers(prefix, names);
      SumOverSnoc(prefix, job, names);
      OccursOnce(names, job.company);
    }
  }

  lemma {:induction false} SumOverEmpty(names: seq<string>)
    ensures SumOver([], names) == 0
  {
    if names != [] {
      SumOverEmpty(names[1..]);
    }
  }

  /** A list of entries counts what `SumOver` counts for its names. */
  lemma {:induction false} SumCountsOfEntries(jobs: seq<Job>, list: seq<Company>)
    requires forall i :: 0 <= i < |list| ==> list[i].jobCount == |CompanyJobs(jobs, list[i].name)|
    ensures SumCounts(list) == SumOver(jobs, Names(list))
  {
    if list != [] {
      SumCountsOfEntries(jobs, list[1..]);
      assert Names(list)[1..] == Names(list[1..]);
    }
  }

  /** The job counts of the listed companies add up to the number of jobs,
      for the dictionary `GroupByCompany` returns and any order of its values. */
  lemma CompanyCountsSum(jobs: seq<Job>, m: map<string, Company>, list: seq<Company>)
    requires Describes(m, jobs)
    requires ValuesOf(list, m)
    ensures SumCounts(list) == |jobs|
  {
    forall i | 0 <= i < |list|
      ensures list[i].jobCount == |CompanyJobs(jobs, list[i].name)|
    {
      assert list[i] == CompanyEntry(jobs, list[i].name);
    }
    SumCountsOfEntries(jobs, list);
    var names := Names(list);
    forall i | 0 <= i < |jobs|
      ensures jobs[i].company in names
    {
      assert jobs[i].company in CompanyNames(jobs);
    }
    SumOverCovers(jobs, names);
  }

  /** The names on the cards the page renders from `Object.values`. */
  function CardNames(list: seq<Company>): set<string> {
    set i | 0 <= i < |list| :: list[i].name
  }

  /** The cards the page renders from `Object.values`: one per company name
      occurring in the jobs, each name once, each card that company's entry,
      so there are as many cards as distinct company names. */
  lemma CompanyListEntries(jobs: seq<Job>, m: map<string, Company>, list: seq<Company>)
    requires Describes(m, jobs)
    requires ValuesOf(list, m)
    ensures CardNames(list) == CompanyNames(jobs)
    ensures forall i :: 0 <= i < |list| ==>
              list[i].name in CompanyNames(jobs) && list[i] == CompanyEntry(jobs, list[i].name)
    ensures |list| == |CompanyNames(jobs)|
  {
    CardNamesAreKeys(m, list);
    DistinctCardsCount(list);
  }

  /** Every key of the dictionary is on exactly the cards listing it. */
  lemma CardNamesAreKeys(m: map<string, Company>, list: seq<Company>)
    requires ValuesOf(list, m)
    ensures CardNames(list) == m.Keys
  {
    forall n | n in m ensures n in CardNames(list) {
      var i :| 0 <= i < |list| && list[i].name == n;
    }
  }

  /** Cards with distinct names are as many as their names. */
  lemma {:induction false} DistinctCardsCount(list: seq<Company>)
    requires forall i, j :: 0 <= i < j < |list| ==> list[i].name != list[j].name
    ensures |CardNames(list)| == |list|
  {
    if list != [] {
      DistinctCardsCount(list[1..]);
      CardNamesCons(list);
    }
  }

  /** The names of a non-empty list of cards: the first card's name and the
      names of the rest, which does not hold the first when all differ. */
  lemma CardNamesCons(list: seq<Company>)
    requires list != []
    requires forall i, j :: 0 <= i < j < |list| ==> list[i].name != list[j].name
    ensures CardNames(list) == CardNames(list[1..]) + {list[0].name}
    ensures list[0].name !in CardNames(list[1..])
  {
    var rest := list[1..];
    forall n | n in CardNames(list) ensures n in CardNames(rest) + {list[0].name} {
      var i :| 0 <= i < |list| && list[i].name == n;
      if i > 0 { assert rest[i - 1].name == n; }
    }
    forall n | n in CardNames(rest) ensures n in CardNames(list) {
      var i :| 0 <= i < |rest| && rest[i].name == n;
      assert list[i + 1].name == n;
    }
  }

  /** The badge word: "job" for a count of one, "jobs" otherwise. */
  function JobWord(count: nat): (word: string)
    ensures word == "job" <==> count == 1
    ensures word != "job" ==> word == "jobs"
  {
    if count == 1 then "job" else "jobs"
  }

  // -----------------------------------------------------------------------
  // The accumulator as written

  /** The properties every object literal inherits from `Object.prototype`:
      `acc[name]` reads one of these even on the empty accumulator `{}`. */
  const InheritedNames: set<string> := {
    "constructor", "__proto__", "toString", "toLocaleString", "valueOf", "hasOwnProperty",
    "isPrototypeOf", "propertyIsEnumerable", "__defineGetter__", "__defineSetter__",
    "__lookupGetter__", "__lookupSetter__"}

  /** How the page's `reduce` ends: with the dictionary, or with the
      `TypeError` thrown while folding in a job of the named company. */
  datatype Outcome = Grouped(companies: map<string, Company>) | TypeError(company: string)

  /** The `reduce` as written, seeded with `{}`. For a company named like an
      inherited property, `!acc[job.company]` is false (the inherited value
      is a function or an object), so no entry is created; `jobCount++`
      then writes `NaN` onto that value and `.jobs.push` reads `undefined`
      and throws. */
  function ReduceAsWritten(jobs: seq<Job>): (r: Outcome)
    ensures r.TypeError? ==> r.company in InheritedNames
  {
    if jobs == [] then Grouped(map[])
    else
      match ReduceAsWritten(jobs[..|jobs| - 1])
      case TypeError(name) => TypeError(name)
      case Grouped(m) =>
        var job := jobs[|jobs| - 1];
        if job.company !in m && job.company in InheritedNames then TypeError(job.company)
        else Grouped(AddJob(m, job))
  }

  /** The page throws exactly when some job's company is an inherited
      property name, and then for the first such job. */
  lemma {:induction false} AsWrittenThrows(jobs: seq<Job>)
    ensures ReduceAsWritten(jobs).TypeError? <==>
              exists i :: 0 <= i < |jobs| && jobs[i].company in InheritedNames
    ensures ReduceAsWritten(jobs).TypeError? ==>
              exists i :: 0 <= i < |jobs| && jobs[i].company == ReduceAsWritten(jobs).company
                          && jobs[i].company in InheritedNames
                          && forall j :: 0 <= j < i ==> jobs[j].company !in InheritedNames
    ensures ReduceAsWritten(jobs).Grouped? ==> ReduceAsWritten(jobs).companies == Reduce(jobs)
    decreases |jobs|
  {
    if jobs != [] {
      var prefix, job := jobs[..|jobs| - 1], jobs[|jobs| - 1];
      AsWrittenThrows(prefix);
      assert forall i :: 0 <= i < |prefix| ==> prefix[i] == jobs[i];
      var r := ReduceAsWritten(prefix);
      if r.Grouped? {
        ReduceKeysFree(prefix);
      }
    }
  }

  /** Every key of the corrected dictionary is a company name of `jobs`;
      with no inherited name among them, none of the keys is inherited. */
  lemma {:induction false} ReduceKeysFree(jobs: seq<Job>)
    requires forall i :: 0 <= i < |jobs| ==> jobs[i].company !in InheritedNames
    ensures forall name :: name in Reduce(jobs) ==> name !in InheritedNames
    decreases |jobs|
  {
    if jobs != [] {
      var prefix := jobs[..|jobs| - 1];
      assert forall i :: 0 <= i < |prefix| ==> prefix[i] == jobs[i];
      ReduceKeysFree(prefix);
    }
  }

  /** A single job of a company named "constructor" makes the page throw. */
  lemma ConstructorCompanyThrows(job: Job)
    requires job.company == "constructor"
    ensures ReduceAsWritten([job]) == TypeError("constructor")
  {
    assert [job][..0] == [];
  }
}
