/** The volunteer profile page: progress from the last milestone reached to
    the next one on the fixed ladder 1, 5, 15, 30, 50 hours, and the split
    of the badge list into earned badges and the next three to earn. */
module Profile {
  import opened Common
  import Seqs

  const Milestones: seq<int> := [1, 5, 15, 30, 50]

  /** The milestones go up strictly and start above zero. */
  ghost predicate Ladder(ms: seq<int>)
  {
    (forall i :: 0 <= i < |ms| ==> ms[i] > 0)
    && forall i, j :: 0 <= i < j < |ms| ==> ms[i] < ms[j]
  }

  /** `ms.find(m => m > hours)`: the first milestone above `hours`. */
  function FindAbove(ms: seq<int>, hours: int): (r: Option<int>)
    ensures r.Some? ==> r.value in ms && r.value > hours
    ensures r.None? <==> forall i :: 0 <= i < |ms| ==> ms[i] <= hours
    decreases |ms|
  {
    if ms == [] then None
    else if ms[0] > hours then Some(ms[0])
    else FindAbove(ms[1..], hours)
  }

  /** `ms.filter(m => m <= hours).pop()`: the last milestone not above `hours`. */
  function LastAtMost(ms: seq<int>, hours: int): Option<int>
  {
    var below := Seqs.Filter(ms, m => m <= hours);
    if below == [] then None else Some(below[|below| - 1])
  }

  /** `milestones.find(m => m > totalHours) || 50` */
  function NextMilestone(hours: int): int
  {
    NumberOr(FindAbove(Milestones, hours), 50)
  }

  /** `milestones.filter(m => m <= totalHours).pop() || 0` */
  function PrevMilestone(hours: int): int
  {
    NumberOr(LastAtMost(Milestones, hours), 0)
  }

  /** What `getProgressToNext` returns. */
  datatype Progress = Progress(current: int, total: int, next: int)

  function ProgressToNext(hours: int): (p: Progress)
    ensures p.next in Milestones
    ensures 0 <= hours < 50 ==> 0 <= p.current < p.total
  {
    var next := NextMilestone(hours);
    var prev := PrevMilestone(hours);
    Progress(hours - prev, next - prev, next)
  }

  /** The "You need N more volunteer hours" figure. */
  function HoursNeeded(p: Progress): int
  {
    p.total - p.current
  }

  /** The progress bar's value, `current / total * 100`; JavaScript yields NaN
      or Infinity when `total` is 0, which this model excludes. */
  function ProgressPercent(p: Progress): real
    requires p.total != 0
  {
    (p.current as real / p.total as real) * 100.0
  }

  // ---------------------------------------------------------------------
  // The ladder lookups

  /** On a ladder the first milestone above `hours` is the least one above it. */
  lemma {:induction false} FindAboveIsLeast(ms: seq<int>, hours: int)
    requires Ladder(ms)
    ensures FindAbove(ms, hours).Some? ==>
      forall i :: 0 <= i < |ms| && ms[i] > hours ==> FindAbove(ms, hours).value <= ms[i]
    decreases |ms|
  {
    if ms != [] && ms[0] <= hours {
      assert Ladder(ms[1..]) by {
        forall i, j | 0 <= i < j < |ms[1..]| ensures ms[1..][i] < ms[1..][j] {
          assert ms[1..][i] == ms[i + 1] && ms[1..][j] == ms[j + 1];
        }
      }
      FindAboveIsLeast(ms[1..], hours);
      forall i | 0 <= i < |ms| && ms[i] > hours ensures FindAbove(ms, hours).value <= ms[i] {
        assert i > 0 && ms[i] == ms[1..][i - 1];
      }
    }
  }

  /** Filtering a ladder gives a ladder. */
  lemma {:induction false} FilterLadder(ms: seq<int>, p: int -> bool)
    requires Ladder(ms)
    ensures Ladder(Seqs.Filter(ms, p))
    decreases |ms|
  {
    if ms != [] {
      assert Ladder(ms[1..]) by {
        forall i, j | 0 <= i < j < |ms[1..]| ensures ms[1..][i] < ms[1..][j] {
          assert ms[1..][i] == ms[i + 1] && ms[1..][j] == ms[j + 1];
        }
      }
      FilterLadder(ms[1..], p);
      var rest := Seqs.Filter(ms[1..], p);
      if p(ms[0]) {
        var r := Seqs.Filter(ms, p);
        assert r == [ms[0]] + rest;
        forall k | 0 <= k < |rest| ensures ms[0] < rest[k] {
          Seqs.FilterMembership(ms[1..], p, rest[k]);
          var j :| 0 <= j < |ms[1..]| && ms[1..][j] == rest[k];
          assert ms[j + 1] == rest[k];
        }
        forall i, j | 0 <= i < j < |r| ensures r[i] < r[j] {
          if i == 0 {
            assert r[j] == rest[j - 1];
          } else {
            assert r[i] == rest[i - 1] && r[j] == rest[j - 1];
          }
        }
      }
    }
  }

  /** On a ladder the last milestone not above `hours` is the greatest one. */
  lemma LastAtMostIsGreatest(ms: seq<int>, hours: int)
    requires Ladder(ms)
    ensures LastAtMost(ms, hours).None? <==> forall i :: 0 <= i < |ms| ==> ms[i] > hours
    ensures LastAtMost(ms, hours).Some? ==>
      var r := LastAtMost(ms, hours).value;
      r in ms && r <= hours && r > 0 && forall i :: 0 <= i < |ms| && ms[i] <= hours ==> ms[i] <= r
  {
    var p := (m: int) => m <= hours;
    var below := Seqs.Filter(ms, p);
    FilterLadder(ms, p);
    forall i | 0 <= i < |ms| && ms[i] <= hours ensures ms[i] in below && ms[i] <= below[|below| - 1] {
      Seqs.FilterMembership(ms, p, ms[i]);
      var k :| 0 <= k < |below| && below[k] == ms[i];
      assert k <= |below| - 1;
    }
    if below != [] {
      Seqs.FilterMembership(ms, p, below[|below| - 1]);
    }
  }

  lemma MilestonesAreLadder()
    ensures Ladder(Milestones)
    ensures forall i :: 0 <= i < |Milestones| ==> Milestones[i] <= 50
    ensures Milestones[0] == 1 && Milestones[|Milestones| - 1] == 50
  {
  }

  // ---------------------------------------------------------------------
  // What the page promises

  /** Below 50 hours the next milestone is the least milestone above the
      hours; from 50 hours on it stays at 50. */
  lemma NextMilestoneIsLeastAbove(hours: int)
    ensures hours < 50 ==>
      NextMilestone(hours) in Milestones && NextMilestone(hours) > hours
      && forall i :: 0 <= i < |Milestones| && Milestones[i] > hours ==> NextMilestone(hours) <= Milestones[i]
    ensures hours >= 50 ==> NextMilestone(hours) == 50
  {
    MilestonesAreLadder();
    FindAboveIsLeast(Milestones, hours);
    if hours < 50 {
      assert Milestones[4] > hours;
    }
  }

  /** The previous milestone is the greatest milestone reached, or 0 before
      the first one. */
  lemma PrevMilestoneIsGreatestReached(hours: int)
    ensures hours >= 1 ==>
      PrevMilestone(hours) in Milestones && PrevMilestone(hours) <= hours
      && forall i :: 0 <= i < |Milestones| && Milestones[i] <= hours ==> Milestones[i] <= PrevMilestone(hours)
    ensures hours < 1 ==> PrevMilestone(hours) == 0
  {
    MilestonesAreLadder();
    LastAtMostIsGreatest(Milestones, hours);
    if hours >= 1 {
      assert Milestones[0] <= hours;
    }
  }

  /** Between 0 and 50 hours the hours lie in [prev, next), so the progress
      shown is within its bar and some hours are still needed. */
  lemma ProgressBelowTop(hours: int)
    requires 0 <= hours < 50
    ensures PrevMilestone(hours) <= hours < NextMilestone(hours)
    ensures var p := ProgressToNext(hours);
      0 <= p.current < p.total && p.next == NextMilestone(hours)
      && HoursNeeded(p) == NextMilestone(hours) - hours > 0
  {
    NextMilestoneIsLeastAbove(hours);
    PrevMilestoneIsGreatestReached(hours);
  }

  /** From 50 hours on both milestones are 50: the bar's total is 0 and the
      "hours needed" figure is zero or negative. */
  lemma ProgressAtTop(hours: int)
    requires hours >= 50
    ensures var p := ProgressToNext(hours);
      p.next == 50 && p.total == 0 && p.current == hours - 50 && HoursNeeded(p) == 50 - hours
  {
    NextMilestoneIsLeastAbove(hours);
    PrevMilestoneIsGreatestReached(hours);
    MilestonesAreLadder();
    assert PrevMilestone(hours) == 50 by {
      assert Milestones[4] == 50 && Milestones[4] <= hours;
    }
  }

  /** The progress ratio is defined exactly below 50 hours (also for a
      negative total, where the next milestone is 1 and the previous 0). */
  lemma ProgressPercentDefinedBelowTop(hours: int)
    ensures ProgressToNext(hours).total != 0 <==> hours < 50
  {
    if hours < 0 {
      NextMilestoneIsLeastAbove(hours);
      PrevMilestoneIsGreatestReached(hours);
      MilestonesAreLadder();
      assert Milestones[0] == 1;
    } else if hours < 50 {
      ProgressBelowTop(hours);
    } else {
      ProgressAtTop(hours);
    }
  }

  lemma RatioPercentBelowHundred(c: real, t: real)
    requires 0.0 <= c < t
    ensures 0.0 <= (c / t) * 100.0 < 100.0
  {
    var q := c / t;
    assert q * t == c;
    assert 0.0 <= q < 1.0;
  }

  /** Between 0 and 50 hours the progress bar reads at least 0 and below 100. */
  lemma ProgressPercentInRange(hours: int)
    requires 0 <= hours < 50
    ensures ProgressToNext(hours).total != 0
    ensures 0.0 <= ProgressPercent(ProgressToNext(hours)) < 100.0
  {
    ProgressBelowTop(hours);
    var p := ProgressToNext(hours);
    RatioPercentBelowHundred(p.current as real, p.total as real);
  }

  // ---------------------------------------------------------------------
  // Badges

  datatype Badge = Badge(name: string, description: string, earned: bool, icon: string, category: string)

  /** `badges.filter(badge => badge.earned)` */
  function EarnedBadges(badges: seq<Badge>): seq<Badge>
  {
    Seqs.Filter(badges, (b: Badge) => b.earned)
  }

  /** `badges.filter(badge => !badge.earned)` */
  function UnearnedBadges(badges: seq<Badge>): seq<Badge>
  {
    Seqs.Filter(badges, (b: Badge) => !b.earned)
  }

  /** `badges.filter(badge => !badge.earned).slice(0, 3)` */
  function NextBadges(badges: seq<Badge>): seq<Badge>
  {
    var unearned := UnearnedBadges(badges);
    if |unearned| <= 3 then unearned else unearned[..3]
  }

  /** Earned and unearned badges split the list: each keeps the list's
      order, and together they hold every badge exactly as often. */
  lemma EarnedUnearnedPartition(badges: seq<Badge>)
    ensures forall b :: b in EarnedBadges(badges) <==> b in badges && b.earned
    ensures forall b :: b in UnearnedBadges(badges) <==> b in badges && !b.earned
    ensures Seqs.IsSubsequence(EarnedBadges(badges), badges)
    ensures Seqs.IsSubsequence(UnearnedBadges(badges), badges)
    ensures |EarnedBadges(badges)| + |UnearnedBadges(badges)| == |badges|
    ensures multiset(EarnedBadges(badges)) + multiset(UnearnedBadges(badges)) == multiset(badges)
  {
    var earned := (b: Badge) => b.earned;
    var unearned := (b: Badge) => !b.earned;
    forall b ensures b in EarnedBadges(badges) <==> b in badges && b.earned {
      Seqs.FilterMembership(badges, earned, b);
    }
    forall b ensures b in UnearnedBadges(badges) <==> b in badges && !b.earned {
      Seqs.FilterMembership(badges, unearned, b);
    }
    Seqs.FilterIsSubsequence(badges, earned);
    Seqs.FilterIsSubsequence(badges, unearned);
    Seqs.FilterComplement(badges, earned, unearned);
  }

  /** The "next badges" are the first (at most) three unearned badges in
      list order; fewer than three are shown only when that is all of them. */
  lemma NextBadgesAreFirstUnearned(badges: seq<Badge>)
    ensures |NextBadges(badges)| <= 3
    ensures forall i :: 0 <= i < |NextBadges(badges)| ==> !NextBadges(badges)[i].earned && NextBadges(badges)[i] in badges
    ensures NextBadges(badges) == UnearnedBadges(badges)[..|NextBadges(badges)|]
    ensures |NextBadges(badges)| < 3 ==> NextBadges(badges) == UnearnedBadges(badges)
  {
    EarnedUnearnedPartition(badges);
    var u := UnearnedBadges(badges);
    var r := NextBadges(badges);
    forall i | 0 <= i < |r| ensures !r[i].earned && r[i] in badges {
      assert r[i] == u[i] && u[i] in u;
    }
  }
}
