/** `formatPostedAt`, which the job list and the home page both define with
    the same body: the distance between the posting time and now, rounded up
    to whole days, shown in one of four buckets. */
module PostedAge {
  import opened Entities
  import Text

  function Abs(x: int): nat {
    if x < 0 then -x else x
  }

  /** `Math.ceil(Math.abs(now - posted) / MS_PER_DAY)`. */
  function DiffDays(posted: int, now: int): (d: nat)
    ensures Abs(now - posted) <= d * MS_PER_DAY
    ensures d > 0 ==> (d - 1) * MS_PER_DAY < Abs(now - posted)
  {
    (Abs(now - posted) + MS_PER_DAY - 1) / MS_PER_DAY
  }

  /** The label shown under a job: "1 day ago", "N days ago", "1 week ago"
      or "N weeks ago"; always a count in digits followed by " ago". */
  function FormatPostedAt(posted: int, now: int): (age: string)
    ensures |age| > 4 && age[|age| - 4..] == " ago"
    ensures Text.IsDigit(age[0])
  {
    var diffDays := DiffDays(posted, now);
    if diffDays == 1 then "1 day ago"
    else if diffDays < 7 then Text.NatToString(diffDays) + " days ago"
    else if diffDays < 14 then "1 week ago"
    else Text.NatToString(diffDays / 7) + " weeks ago"
  }

  /** The buckets in terms of elapsed time: the same instant reads "0 days ago";
      anything up to one day "1 day ago"; more than n - 1 and at most n days,
      for n from 2 to 6, "n days ago"; more than six and at most thirteen days
      "1 week ago"; beyond that "w weeks ago" for the w of at least 2 with
      7w - 1 days < t <= 7w + 6 days. */
  lemma {:induction false} AgeBuckets(posted: int, now: int)
    ensures var t := Abs(now - posted);
      && (t == 0 ==> FormatPostedAt(posted, now) == "0 days ago")
      && (0 < t <= MS_PER_DAY ==> FormatPostedAt(posted, now) == "1 day ago")
      && (forall n: nat :: 2 <= n <= 6 && (n - 1) * MS_PER_DAY < t <= n * MS_PER_DAY ==>
            FormatPostedAt(posted, now) == Text.NatToString(n) + " days ago")
      && (6 * MS_PER_DAY < t <= 13 * MS_PER_DAY ==> FormatPostedAt(posted, now) == "1 week ago")
      && (13 * MS_PER_DAY < t ==>
            exists w: nat :: w >= 2 && (7 * w - 1) * MS_PER_DAY < t <= (7 * w + 6) * MS_PER_DAY &&
              FormatPostedAt(posted, now) == Text.NatToString(w) + " weeks ago")
  {
    ShortBuckets(posted, now);
    DaysBucket(posted, now);
    LongBuckets(posted, now);
  }

  /** The same instant, and anything up to one day. */
  lemma ShortBuckets(posted: int, now: int)
    ensures var t := Abs(now - posted);
      && (t == 0 ==> FormatPostedAt(posted, now) == "0 days ago")
      && (0 < t <= MS_PER_DAY ==> FormatPostedAt(posted, now) == "1 day ago")
  {
    var t, d := Abs(now - posted), DiffDays(posted, now);
    if t == 0 {
      assert d == 0;
      assert Text.NatToString(0) == "0";
    } else if t <= MS_PER_DAY {
      DayCountIs(t, d, 1);
    }
  }

  /** From two to six days. */
  lemma DaysBucket(posted: int, now: int)
    ensures var t := Abs(now - posted);
      forall n: nat :: 2 <= n <= 6 && (n - 1) * MS_PER_DAY < t <= n * MS_PER_DAY ==>
        FormatPostedAt(posted, now) == Text.NatToString(n) + " days ago"
  {
    var t, d := Abs(now - posted), DiffDays(posted, now);
    forall n: nat | 2 <= n <= 6 && (n - 1) * MS_PER_DAY < t <= n * MS_PER_DAY
      ensures FormatPostedAt(posted, now) == Text.NatToString(n) + " days ago"
    {
      DayCountIs(t, d, n);
    }
  }

  /** One week, and whole weeks beyond. */
  lemma LongBuckets(posted: int, now: int)
    ensures var t := Abs(now - posted);
      && (6 * MS_PER_DAY < t <= 13 * MS_PER_DAY ==> FormatPostedAt(posted, now) == "1 week ago")
      && (13 * MS_PER_DAY < t ==>
            exists w: nat :: w >= 2 && (7 * w - 1) * MS_PER_DAY < t <= (7 * w + 6) * MS_PER_DAY &&
              FormatPostedAt(posted, now) == Text.NatToString(w) + " weeks ago")
  {
    var t, d := Abs(now - posted), DiffDays(posted, now);
    if 13 * MS_PER_DAY < t {
      WeeksBucket(t, d);
      assert FormatPostedAt(posted, now) == Text.NatToString(d / 7) + " weeks ago";
    }
  }

  /** Beyond thirteen days, the rounded-up day count `d` falls in week
      `d / 7`, which is at least 2, and the distance lies in that week's
      range. */
  lemma WeeksBucket(t: nat, d: nat)
    requires t <= d * MS_PER_DAY
    requires d > 0 ==> (d - 1) * MS_PER_DAY < t
    requires 13 * MS_PER_DAY < t
    ensures d >= 14
    ensures var w := d / 7; w >= 2 && (7 * w - 1) * MS_PER_DAY < t <= (7 * w + 6) * MS_PER_DAY
  {
    var w := d / 7;
    assert d >= 14;
    assert 7 * w <= d <= 7 * w + 6;
    assert (7 * w - 1) * MS_PER_DAY <= (d - 1) * MS_PER_DAY < t;
    assert t <= d * MS_PER_DAY <= (7 * w + 6) * MS_PER_DAY;
  }

  /** The rounded-up day count is the n with (n - 1) days < t <= n days. */
  lemma DayCountIs(t: nat, d: nat, n: nat)
    requires t <= d * MS_PER_DAY
    requires d > 0 ==> (d - 1) * MS_PER_DAY < t
    requires n > 0 && (n - 1) * MS_PER_DAY < t <= n * MS_PER_DAY
    ensures d == n
  {
  }

  /** The label depends only on the distance to now, so a date as far in the
      future reads like one as far in the past. */
  lemma FormatPostedAtSymmetric(now: int, delta: int)
    ensures FormatPostedAt(now - delta, now) == FormatPostedAt(now + delta, now)
  {
  }
}
