/** The home page (`src/pages/Index.tsx`): the three newest jobs it features
    and the "Active Jobs" figure. Its `formatPostedAt` has the body of the job
    list's and is `PostedAge.FormatPostedAt`. */
module Index {
  import opened Wrappers
  import opened Entities
  import Text
  import Sorting
  import Storage
  import Jobs

  /** How many jobs the home page features: three, or all when fewer are stored. */
  function ShownCount(n: nat): nat {
    if n < 3 then n else 3
  }

  /** The effect on mounting: sort the loaded jobs newest first, in place,
      and keep the first three. Nothing left out is newer than the last job
      shown, and something is left out only when three are shown. */
  method LatestJobs(jobs: seq<Job>) returns (latest: seq<Job>)
    ensures |latest| == ShownCount(|jobs|)
    ensures Sorting.SortedDesc(latest, Jobs.PostedAt)
    ensures multiset(latest) <= multiset(jobs)
    ensures forall j | j in multiset(jobs) - multiset(latest) ::
              |latest| == 3 && j.postedAt <= latest[2].postedAt
  {
    var a := new Job[|jobs|](i requires 0 <= i < |jobs| => jobs[i]);
    assert a[..] == jobs;
    Sorting.SortDescending(a, Jobs.PostedAt);
    var sorted := a[..];
    latest := sorted[..ShownCount(|sorted|)];
    TakeNewest(jobs, sorted);
  }

  /** The first three of a newest-first arrangement of `jobs` are its newest
      three: whatever is left out is no newer than the third. */
  lemma TakeNewest(jobs: seq<Job>, sorted: seq<Job>)
    requires Sorting.SortedDesc(sorted, Jobs.PostedAt)
    requires multiset(sorted) == multiset(jobs)
    ensures var latest := sorted[..ShownCount(|sorted|)];
      && |latest| == ShownCount(|jobs|)
      && Sorting.SortedDesc(latest, Jobs.PostedAt)
      && multiset(latest) <= multiset(jobs)
      && forall j | j in multiset(jobs) - multiset(latest) ::
           |latest| == 3 && j.postedAt <= latest[2].postedAt
  {
    assert |sorted| == |multiset(sorted)| == |multiset(jobs)| == |jobs|;
    var n := ShownCount(|sorted|);
    SplitMultiset(sorted, n);
    RestNotNewer(sorted, n);
  }

  /** Cutting a sequence in two splits its multiset in two. */
  lemma SplitMultiset(s: seq<Job>, n: nat)
    requires n <= |s|
    ensures multiset(s) == multiset(s[..n]) + multiset(s[n..])
  {
    assert s == s[..n] + s[n..];
  }

  /** In a newest-first sequence, nothing after the first `n` is newer than
      the `n`-th; and something comes after them only when `n` is three. */
  lemma RestNotNewer(sorted: seq<Job>, n: nat)
    requires Sorting.SortedDesc(sorted, Jobs.PostedAt)
    requires n == ShownCount(|sorted|)
    ensures forall j | j in multiset(sorted[n..]) :: n == 3 && j.postedAt <= sorted[2].postedAt
  {
    forall j | j in multiset(sorted[n..])
      ensures n == 3 && j.postedAt <= sorted[2].postedAt
    {
      var k :| 0 <= k < |sorted[n..]| && sorted[n..][k] == j;
      assert sorted[n + k] == j;
    }
  }

  /** The "Active Jobs" figure: the stored count followed by "+". */
  function ActiveJobsLabel(jobs: seq<Job>): (figure: string)
    ensures |figure| >= 2 && figure[|figure| - 1] == '+'
    ensures Text.ParseDigits(figure) == Some(|jobs|)
  {
    var count := Text.NatToString(|jobs|);
    Text.DigitsOnlyConcat(count, "+");
    Text.DigitsOnlyOfDigits(count);
    assert Text.DigitsOnly("+") == [];
    assert count + [] == count;
    Text.ParseDigitsOfNatToString(|jobs|);
    count + "+"
  }

  /** The page state: the jobs it features. */
  class HomePage {
    var latestJobs: seq<Job>

    /** The initial state: the first three stored jobs, unsorted. */
    constructor (store: Storage.Store)
      ensures latestJobs == store.jobs[..ShownCount(|store.jobs|)]
    {
      latestJobs := store.jobs[..ShownCount(|store.jobs|)];
    }

    /** The mount effect: the three newest stored jobs. The sort works on
        the parsed copy, so the store itself is not reordered. */
    method Refresh(store: Storage.Store)
      modifies this`latestJobs
      ensures |latestJobs| == ShownCount(|store.jobs|)
      ensures Sorting.SortedDesc(latestJobs, Jobs.PostedAt)
      ensures multiset(latestJobs) <= multiset(store.jobs)
      ensures forall j | j in multiset(store.jobs) - multiset(latestJobs) ::
                |latestJobs| == 3 && j.postedAt <= latestJobs[2].postedAt
    {
      latestJobs := LatestJobs(store.jobs);
    }
  }
}
