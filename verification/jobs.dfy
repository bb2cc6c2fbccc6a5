/** The job list page (`src/pages/Jobs.tsx`): the three filters, the two sort
    orders, the page state they read, and the sidebar's market figures. */
module Jobs {
  import opened Wrappers
  import opened Entities
  import Tables
  import Text
  import Sorting
  import Storage

  // -----------------------------------------------------------------------
  // Filters

  /** Free-text filter: an empty term matches; otherwise the lower-cased term
      must occur in the lower-cased title, company or description. */
  predicate MatchesSearch(job: Job, searchTerm: string) {
    var term := Text.Lower(searchTerm);
    searchTerm == ""
    || Text.Includes(Text.Lower(job.title), term)
    || Text.Includes(Text.Lower(job.company), term)
    || Text.Includes(Text.Lower(job.description), term)
  }

  /** Location filter: an empty term matches; otherwise the lower-cased term
      must occur in the lower-cased location. */
  predicate MatchesLocation(job: Job, location: string) {
    location == "" || Text.Includes(Text.Lower(job.location), Text.Lower(location))
  }

  /** Type filter: "all" matches; otherwise the tag must be equal, case included. */
  predicate MatchesType(job: Job, jobType: string) {
    jobType == "all" || job.jobType == jobType
  }

  /** The callback handed to `jobs.filter`. */
  function Criteria(searchTerm: string, location: string, jobType: string): Job -> bool {
    (job: Job) => MatchesSearch(job, searchTerm) && MatchesLocation(job, location) && MatchesType(job, jobType)
  }

  /** The filtered list: the jobs passing all three filters, in stored order. */
  function FilterJobs(jobs: seq<Job>, searchTerm: string, location: string, jobType: string): (r: seq<Job>)
    ensures forall i :: 0 <= i < |r| ==>
              (r[i] in jobs && MatchesSearch(r[i], searchTerm) && MatchesLocation(r[i], location)
               && MatchesType(r[i], jobType))
    ensures forall i :: 0 <= i < |jobs| &&
              MatchesSearch(jobs[i], searchTerm) && MatchesLocation(jobs[i], location) && MatchesType(jobs[i], jobType)
              ==> jobs[i] in r
    ensures Tables.IsSubsequence(r, jobs)
    ensures forall x {:trigger multiset(r)[x]} | x in jobs :: multiset(r)[x] ==
              if MatchesSearch(x, searchTerm) && MatchesLocation(x, location) && MatchesType(x, jobType)
              then multiset(jobs)[x] else 0
  {
    Tables.FilterCounts(jobs, Criteria(searchTerm, location, jobType));
    Tables.Filter(jobs, Criteria(searchTerm, location, jobType))
  }

  /** A non-empty search term matches exactly the jobs in whose lower-cased
      title, company or description the lower-cased term occurs. */
  lemma SearchSemantics(job: Job, searchTerm: string)
    requires searchTerm != ""
    ensures var term := Text.Lower(searchTerm);
      MatchesSearch(job, searchTerm) <==>
        (exists k :: Text.OccursAt(Text.Lower(job.title), term, k))
        || (exists k :: Text.OccursAt(Text.Lower(job.company), term, k))
        || (exists k :: Text.OccursAt(Text.Lower(job.description), term, k))
  {
    var term := Text.Lower(searchTerm);
    Text.IncludesIffOccurs(Text.Lower(job.title), term);
    Text.IncludesIffOccurs(Text.Lower(job.company), term);
    Text.IncludesIffOccurs(Text.Lower(job.description), term);
    assert MatchesSearch(job, searchTerm) ==
      (Text.Includes(Text.Lower(job.title), term)
       || Text.Includes(Text.Lower(job.company), term)
       || Text.Includes(Text.Lower(job.description), term));
  }

  /** A non-empty location term matches exactly the jobs in whose lower-cased
      location the lower-cased term occurs. */
  lemma LocationSemantics(job: Job, location: string)
    requires location != ""
    ensures MatchesLocation(job, location) <==>
              exists k :: Text.OccursAt(Text.Lower(job.location), Text.Lower(location), k)
  {
    Text.IncludesIffOccurs(Text.Lower(job.location), Text.Lower(location));
    assert MatchesLocation(job, location) == Text.Includes(Text.Lower(job.location), Text.Lower(location));
  }

  /** The text filters ignore the case of what is typed. */
  lemma FiltersIgnoreCase(job: Job, searchTerm: string, location: string)
    ensures MatchesSearch(job, searchTerm) == MatchesSearch(job, Text.Lower(searchTerm))
    ensures MatchesLocation(job, location) == MatchesLocation(job, Text.Lower(location))
  {
    Text.LowerIdempotent(searchTerm);
    Text.LowerIdempotent(location);
  }

  /** With every filter cleared, the filtered list is the whole stored list. */
  lemma {:induction false} ClearedFiltersKeepAll(jobs: seq<Job>)
    ensures FilterJobs(jobs, "", "", "all") == jobs
  {
    Tables.FilterAll(jobs, Criteria("", "", "all"));
  }

  // -----------------------------------------------------------------------
  // Sorting

  function PostedAt(job: Job): int {
    job.postedAt
  }

  /** `parseInt(job.salary.replace(/\D/g, ''))`: every digit of the salary,
      read as one number ("$120k - $180k" gives 120180); `None` is `NaN`. */
  function SalaryKey(job: Job): (k: Option<nat>)
    ensures k.None? <==> forall i :: 0 <= i < |job.salary| ==> !Text.IsDigit(job.salary[i])
  {
    Text.ParseDigits(job.salary)
  }

  /** The key the salary order sorts by: the parsed number, or 0 where the
      source would compare `NaN`. */
  function SalaryRank(job: Job): int {
    SalaryKey(job).GetOr(0)
  }

  /** Every job's salary yields a number, so the salary comparator is consistent. */
  predicate AllSalariesParse(jobs: seq<Job>) {
    forall i :: 0 <= i < |jobs| ==> SalaryKey(jobs[i]).Some?
  }

  /** A salary written as a range, the way every sample salary is: "$120k - $180k". */
  function SalaryRange(low: nat, high: nat): string {
    "$" + Text.NatToString(low) + "k - $" + Text.NatToString(high) + "k"
  }

  /** Stripping non-digits, step by step along a concatenation. */
  lemma DigitsOnlyAppend(x: string, y: string, dx: string, dy: string)
    requires Text.DigitsOnly(x) == dx && Text.DigitsOnly(y) == dy
    ensures Text.DigitsOnly(x + y) == dx + dy
  {
    Text.DigitsOnlyConcat(x, y);
  }

  /** Digits separated by digit-free text are stripped down to the digits
      written one after the other. */
  lemma JoinDigits(p: string, b: string, m: string, d: string, q: string)
    requires Text.DigitsOnly(p) == [] && Text.DigitsOnly(m) == [] && Text.DigitsOnly(q) == []
    requires Text.AllDigits(b) && Text.AllDigits(d)
    ensures Text.DigitsOnly(p + b + m + d + q) == b + d
  {
    Text.DigitsOnlyOfDigits(b);
    Text.DigitsOnlyOfDigits(d);
    DigitsOnlyAppend(p, b, [], b);
    assert [] + b == b;
    DigitsOnlyAppend(p + b, m, b, []);
    assert b + [] == b;
    DigitsOnlyAppend(p + b + m, d, b, d);
    DigitsOnlyAppend(p + b + m + d, q, b + d, []);
    assert b + d + [] == b + d;
  }

  /** Stripping the non-digits of a range leaves the digits of both ends,
      written together. */
  lemma SalaryRangeDigits(low: nat, high: nat)
    ensures Text.DigitsOnly(SalaryRange(low, high)) == Text.NatToString(low) + Text.NatToString(high)
  {
    SeparatorsDigitFree();
    JoinDigits("$", Text.NatToString(low), "k - $", Text.NatToString(high), "k");
  }

  /** The text around the numbers of a range holds no digit. */
  lemma SeparatorsDigitFree()
    ensures Text.DigitsOnly("$") == [] && Text.DigitsOnly("k - $") == [] && Text.DigitsOnly("k") == []
  {
  }

  /** The salary key of a range does not compare ranges: it is the low end
      shifted left by the number of digits of the high end, plus the high end. */
  lemma SalaryKeyJoinsRange(low: nat, high: nat)
    ensures Text.ParseDigits(SalaryRange(low, high)) ==
              Some(low * Text.Pow10(|Text.NatToString(high)|) + high)
  {
    var b, d := Text.NatToString(low), Text.NatToString(high);
    SalaryRangeDigits(low, high);
    Text.DecimalValueConcat(b, d);
    Text.DecimalValueOfNatToString(low);
    Text.DecimalValueOfNatToString(high);
  }

  /** The first sample job's salary is the range from 120 to 180. */
  lemma SampleSalaryIsRange(now: int)
    ensures Storage.SampleJob(0, now).salary == SalaryRange(120, 180)
  {
    assert Text.NatToString(120) == "120";
    assert Text.NatToString(180) == "180";
  }

  /** ... so "$120k - $180k" sorts as 120180. */
  lemma SampleSalaryKey(now: int)
    ensures SalaryKey(Storage.SampleJob(0, now)) == Some(120180)
  {
    SampleSalaryIsRange(now);
    SampleRangeKey();
  }

  lemma SampleRangeKey()
    ensures Text.ParseDigits(SalaryRange(120, 180)) == Some(120180)
  {
    SalaryKeyJoinsRange(120, 180);
    assert |Text.NatToString(180)| == 3;
    assert Text.Pow10(3) == 1000;
  }

  /** The filter-then-sort pass of the page: filter the stored jobs, copy the
      result into an array, sort it in place by the chosen order. */
  method FilterAndSort(jobs: seq<Job>, searchTerm: string, location: string, jobType: string, sortBy: string)
    returns (r: seq<Job>)
    ensures multiset(r) == multiset(FilterJobs(jobs, searchTerm, location, jobType))
    ensures sortBy == "newest" ==> Sorting.SortedDesc(r, PostedAt)
    ensures sortBy == "salary" ==> Sorting.SortedDesc(r, SalaryRank)
    ensures sortBy == "salary" && AllSalariesParse(r) ==>
              forall i, j :: 0 <= i < j < |r| ==> SalaryKey(r[i]).value >= SalaryKey(r[j]).value
    ensures sortBy != "newest" && sortBy != "salary" ==> r == FilterJobs(jobs, searchTerm, location, jobType)
  {
    var filtered := FilterJobs(jobs, searchTerm, location, jobType);
    var a := new Job[|filtered|](i requires 0 <= i < |filtered| => filtered[i]);
    assert a[..] == filtered;
    if sortBy == "newest" {
      Sorting.SortDescending(a, PostedAt);
    } else if sortBy == "salary" {
      Sorting.SortDescending(a, SalaryRank);
    }
    r := a[..];
  }

  /** Any arrangement the "newest" order allows of three jobs posted at
      T1 < T2 < T3 is the one order [T3, T2, T1]. */
  lemma NewestOfThree(r: seq<Job>, j1: Job, j2: Job, j3: Job)
    requires Sorting.SortedDesc(r, PostedAt)
    requires multiset(r) == multiset([j1, j2, j3])
    requires j1.postedAt < j2.postedAt < j3.postedAt
    ensures r == [j3, j2, j1]
  {
    assert |r| == |multiset(r)| == 3;
    assert forall i :: 0 <= i < 3 ==> r[i] in multiset([j1, j2, j3]);
    assert j3 in multiset(r) && j2 in multiset(r) && j1 in multiset(r);
    assert r[0] == j3;
    assert r[2] == j1;
  }

  // -----------------------------------------------------------------------
  // Page state

  class JobsPage {
    var jobs: seq<Job>
    var searchTerm: string
    var location: string
    var jobType: string
    var sortBy: string
    var filteredJobs: seq<Job>

    /** Mounting the page: the stored jobs, every filter at its default, and
        the unfiltered list shown until the filter effect runs. */
    constructor (store: Storage.Store)
      ensures jobs == store.jobs && filteredJobs == store.jobs
      ensures searchTerm == "" && location == "" && jobType == "all" && sortBy == "newest"
    {
      jobs := store.jobs;
      searchTerm, location, jobType, sortBy := "", "", "all", "newest";
      filteredJobs := store.jobs;
    }

    /** The filter effect: recompute `filteredJobs` from the jobs and the
        current filter fields. */
    method Refresh()
      modifies this`filteredJobs
      ensures multiset(filteredJobs) == multiset(FilterJobs(jobs, searchTerm, location, jobType))
      ensures sortBy == "newest" ==> Sorting.SortedDesc(filteredJobs, PostedAt)
      ensures sortBy == "salary" ==> Sorting.SortedDesc(filteredJobs, SalaryRank)
      ensures sortBy != "newest" && sortBy != "salary" ==>
                filteredJobs == FilterJobs(jobs, searchTerm, location, jobType)
    {
      filteredJobs := FilterAndSort(jobs, searchTerm, location, jobType, sortBy);
    }

    /** `clearFilters`: every filter back to its default. */
    method ClearFilters()
      modifies this`searchTerm, this`location, this`jobType, this`sortBy
      ensures searchTerm == "" && location == "" && jobType == "all" && sortBy == "newest"
      ensures FilterJobs(jobs, searchTerm, location, jobType) == jobs
    {
      searchTerm, location, jobType, sortBy := "", "", "all", "newest";
      ClearedFiltersKeepAll(jobs);
    }
  }

  // -----------------------------------------------------------------------
  // Sidebar figures

  datatype MarketFigures = MarketFigures(totalJobs: nat, newThisWeek: nat, remoteJobs: nat, featuredJobs: nat)

  /** Posted no earlier than seven days before now. */
  function PostedThisWeek(now: int): Job -> bool {
    (job: Job) => job.postedAt >= now - 7 * MS_PER_DAY
  }

  /** The location contains "Remote", case included. */
  function IsRemote(job: Job): bool {
    Text.Includes(job.location, "Remote")
  }

  function IsFeatured(job: Job): bool {
    job.featured
  }

  /** "Total Jobs", "New This Week", "Remote Jobs" and "Featured Jobs". */
  function Figures(jobs: seq<Job>, now: int): (f: MarketFigures)
    ensures f.totalJobs == |jobs|
    ensures f.newThisWeek <= f.totalJobs && f.remoteJobs <= f.totalJobs && f.featuredJobs <= f.totalJobs
    ensures f.newThisWeek == 0 <==> forall i :: 0 <= i < |jobs| ==> jobs[i].postedAt < now - 7 * MS_PER_DAY
    ensures f.remoteJobs == 0 <==> forall i :: 0 <= i < |jobs| ==> !Text.Includes(jobs[i].location, "Remote")
    ensures f.featuredJobs == 0 <==> forall i :: 0 <= i < |jobs| ==> !jobs[i].featured
  {
    MarketFigures(|jobs|,
                  |Tables.Filter(jobs, PostedThisWeek(now))|,
                  |Tables.Filter(jobs, IsRemote)|,
                  |Tables.Filter(jobs, IsFeatured)|)
  }

  /** The figures of two job lists put together are the sums of their figures. */
  lemma FiguresAdd(a: seq<Job>, b: seq<Job>, now: int)
    ensures var fa, fb, f := Figures(a, now), Figures(b, now), Figures(a + b, now);
      f == MarketFigures(fa.totalJobs + fb.totalJobs, fa.newThisWeek + fb.newThisWeek,
                         fa.remoteJobs + fb.remoteJobs, fa.featuredJobs + fb.featuredJobs)
  {
    Tables.FilterConcat(a, b, PostedThisWeek(now));
    Tables.FilterConcat(a, b, IsRemote);
    Tables.FilterConcat(a, b, IsFeatured);
  }

  /** A single job counts once in the total, and once in each of the other
      three figures exactly when it was posted in the last seven days, its
      location contains "Remote", or it is featured. With `FiguresAdd`, this
      fixes the figures of every job list. */
  lemma FiguresOne(job: Job, now: int)
    ensures Figures([job], now) ==
              MarketFigures(1,
                            if job.postedAt >= now - 7 * MS_PER_DAY then 1 else 0,
                            if Text.Includes(job.location, "Remote") then 1 else 0,
                            if job.featured then 1 else 0)
  {
    assert [job][1..] == [];
  }

  /** The scenario of the first sample job ("Senior Software Engineer" at
      TechCorp in San Francisco, full time): the search "senior", in any case,
      finds it. */
  lemma SampleJobFoundBySearch(now: int)
    ensures MatchesSearch(Storage.SampleJob(0, now), "senior")
    ensures MatchesSearch(Storage.SampleJob(0, now), "SENIOR")
  {
    var title := Text.Lower(Storage.SampleJob(0, now).title);
    assert title[..6] == "senior";
    assert Text.Lower("SENIOR") == "senior";
  }

  /** The same job is left out by the location "new york" and by the type
      "Contract". */
  lemma SampleJobExcludedByLocationAndType(now: int)
    ensures !MatchesLocation(Storage.SampleJob(0, now), "new york")
    ensures !MatchesType(Storage.SampleJob(0, now), "Contract")
    ensures MatchesType(Storage.SampleJob(0, now), "Full-time")
    ensures !MatchesType(Storage.SampleJob(0, now), "full-time")
  {
    var place := Text.Lower(Storage.SampleJob(0, now).location);
    assert Text.Lower("new york") == "new york";
    assert forall i :: 0 <= i < |place| ==> place[i] != 'w';
    Text.MissingCharExcludes(place, "new york", 2);
  }
}
