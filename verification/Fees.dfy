/** Fee consensus: per-tier medians over several sources, the tier-order repair, and the decaying
    cache used when too few sources answer.
  */
module Fees {
  import opened Prelude

  // ---------------------------------------------------------------------------------------
  // Estimates and their order
  // ---------------------------------------------------------------------------------------

  datatype Tier = Fastest | HalfHour | Hour | Economy | Minimum

  /** The values of an estimate, in sat/vB. */
  datatype Tiers = Tiers(fastest: nat, halfHour: nat, hour: nat, economy: nat, minimum: nat) {
    function At(tier: Tier): nat {
      match tier
      case Fastest => fastest
      case HalfHour => halfHour
      case Hour => hour
      case Economy => economy
      case Minimum => minimum
    }
  }

  const FALLBACK_FEES := Tiers(20, 15, 10, 5, 1)

  ghost predicate TierOrdered(t: Tiers) {
    t.fastest >= t.halfHour >= t.hour >= t.economy >= t.minimum >= 1
  }

  ghost predicate AtLeast(a: Tiers, b: Tiers) {
    forall tier: Tier :: a.At(tier) >= b.At(tier)
  }

  function Max(a: nat, b: nat): nat {
    if a >= b then a else b
  }

  function Sanitized(t: Tiers): Tiers {
    var minimum := Max(1, t.minimum);
    var economy := Max(minimum, t.economy);
    var hour := Max(economy, t.hour);
    var halfHour := Max(hour, t.halfHour);
    Tiers(Max(halfHour, t.fastest), halfHour, hour, economy, minimum)
  }

  class FeeEstimate {
    var fastestFee: nat
    var halfHourFee: nat
    var hourFee: nat
    var economyFee: nat
    var minimumFee: nat

    constructor (t: Tiers)
      ensures Values() == t
    {
      fastestFee, halfHourFee, hourFee, economyFee, minimumFee := t.fastest, t.halfHour, t.hour, t.economy, t.minimum;
    }

    function Values(): Tiers
      reads this
    {
      Tiers(fastestFee, halfHourFee, hourFee, economyFee, minimumFee)
    }

    method Sanitize()
      modifies this
      ensures Values() == Sanitized(old(Values()))
    {
      minimumFee := Max(1, minimumFee);
      economyFee := Max(minimumFee, economyFee);
      hourFee := Max(economyFee, hourFee);
      halfHourFee := Max(hourFee, halfHourFee);
      fastestFee := Max(halfHourFee, fastestFee);
    }
  }

  /** Sanitizing gives the least tier-ordered estimate that is nowhere below its input. */
  lemma SanitizedIsLeast(t: Tiers)
    ensures TierOrdered(Sanitized(t)) && AtLeast(Sanitized(t), t)
    ensures forall u: Tiers | TierOrdered(u) && AtLeast(u, t) :: AtLeast(u, Sanitized(t))
    ensures TierOrdered(t) ==> Sanitized(t) == t
  {
    forall u: Tiers | TierOrdered(u) && AtLeast(u, t) ensures AtLeast(u, Sanitized(t)) {
      assert u.At(Fastest) >= t.fastest && u.At(HalfHour) >= t.halfHour && u.At(Hour) >= t.hour
          && u.At(Economy) >= t.economy && u.At(Minimum) >= t.minimum;
    }
  }

  // ---------------------------------------------------------------------------------------
  // Sorting and ranks
  // ---------------------------------------------------------------------------------------

  function Inserted(x: nat, s: seq<nat>): (r: seq<nat>)
    ensures |r| == |s| + 1
  {
    if s == [] || x <= s[0] then [x] + s else [s[0]] + Inserted(x, s[1..])
  }

  /** The sorted order of the values, as the library sort leaves them. */
  function Sort(s: seq<nat>): (r: seq<nat>)
    ensures |r| == |s|
  {
    if s == [] then [] else Inserted(s[0], Sort(s[1..]))
  }

  predicate Ascending(s: seq<nat>) {
    forall i, j | 0 <= i < j < |s| :: s[i] <= s[j]
  }

  lemma {:induction false} InsertedAscending(x: nat, s: seq<nat>)
    requires Ascending(s)
    ensures Ascending(Inserted(x, s))
    ensures forall y | y in Inserted(x, s) :: y == x || y in s
  {
    if s != [] && x > s[0] {
      InsertedAscending(x, s[1..]);
      var r := Inserted(x, s[1..]);
      assert forall y | y in r :: s[0] <= y;
      forall i, j | 0 <= i < j < |r| + 1 ensures ([s[0]] + r)[i] <= ([s[0]] + r)[j] {
        assert r[j - 1] in r;
      }
    }
  }

  lemma {:induction false} SortAscending(s: seq<nat>)
    ensures Ascending(Sort(s))
  {
    if s != [] {
      SortAscending(s[1..]);
      InsertedAscending(s[0], Sort(s[1..]));
    }
  }

  /** How many values are at most `y`. */
  function CountUpTo(s: seq<nat>, y: int): (n: nat)
    ensures n <= |s|
  {
    if s == [] then 0 else CountUpTo(s[1..], y) + if s[0] <= y then 1 else 0
  }

  lemma {:induction false} InsertedCount(x: nat, s: seq<nat>, y: int)
    ensures CountUpTo(Inserted(x, s), y) == CountUpTo(s, y) + if x <= y then 1 else 0
  {
    if s == [] || x <= s[0] {
      assert ([x] + s)[1..] == s;
    } else {
      InsertedCount(x, s[1..], y);
      assert ([s[0]] + Inserted(x, s[1..]))[1..] == Inserted(x, s[1..]);
    }
  }

  lemma {:induction false} SortCount(s: seq<nat>, y: int)
    ensures CountUpTo(Sort(s), y) == CountUpTo(s, y)
  {
    if s != [] {
      SortCount(s[1..], y);
      InsertedCount(s[0], Sort(s[1..]), y);
    }
  }

  lemma {:induction false} AscendingRank(s: seq<nat>, k: nat, y: int)
    requires Ascending(s) && k < |s|
    ensures s[k] <= y <==> CountUpTo(s, y) > k
  {
    if s[0] > y {
      NoneUpTo(s, y);
    } else if k > 0 {
      AscendingRank(s[1..], k - 1, y);
    }
  }

  lemma {:induction false} NoneUpTo(s: seq<nat>, y: int)
    requires forall i | 0 <= i < |s| :: s[i] > y
    ensures CountUpTo(s, y) == 0
  {
    if s != [] {
      NoneUpTo(s[1..], y);
    }
  }

  /** The value at rank `k` is at most `y` exactly when more than `k` values are. */
  lemma SortRank(s: seq<nat>, k: nat, y: int)
    requires k < |s|
    ensures Sort(s)[k] <= y <==> CountUpTo(s, y) > k
  {
    SortAscending(s);
    SortCount(s, y);
    AscendingRank(Sort(s), k, y);
  }

  lemma {:induction false} CountMonotone(u: seq<nat>, v: seq<nat>, y: int)
    requires |u| == |v| && forall i | 0 <= i < |u| :: u[i] <= v[i]
    ensures CountUpTo(v, y) <= CountUpTo(u, y)
  {
    if u != [] {
      CountMonotone(u[1..], v[1..], y);
    }
  }

  lemma {:induction false} CountSplit(a: seq<nat>, b: seq<nat>, y: int)
    ensures CountUpTo(a + b, y) == CountUpTo(a, y) + CountUpTo(b, y)
  {
    if a == [] {
      assert a + b == b;
    } else {
      CountSplit(a[1..], b, y);
      assert (a + b)[1..] == a[1..] + b;
    }
  }

  // ---------------------------------------------------------------------------------------
  // The median
  // ---------------------------------------------------------------------------------------

  function CeilHalf(n: nat): nat {
    (n + 1) / 2
  }

  function MedianOf(values: seq<nat>): nat
    requires values != []
  {
    var sorted, n := Sort(values), |values|;
    if n % 2 == 1 then sorted[n / 2] else CeilHalf(sorted[n / 2 - 1] + sorted[n / 2])
  }

  /** The sum of the two middle values, which the code forms for an even number of values. */
  function MiddleSum(values: seq<nat>): nat
    requires values != []
  {
    if |values| % 2 == 1 then 0 else Sort(values)[|values| / 2 - 1] + Sort(values)[|values| / 2]
  }

  /** The median as a release build computes it: the sum wraps around at 64 bits. */
  function WrappedMedian(values: seq<nat>): nat
    requires values != []
  {
    if |values| % 2 == 1 then Sort(values)[|values| / 2] else CeilHalf(MiddleSum(values) % TWO_64)
  }

  /** `x` is the value at rank `k`: at most `k` values are smaller, and more than `k` at most `x`. */
  predicate IsRank(values: seq<nat>, k: nat, x: nat) {
    CountUpTo(values, x - 1) <= k < CountUpTo(values, x)
  }

  lemma RankExact(values: seq<nat>, k: nat, x: nat)
    requires k < |values|
    ensures IsRank(values, k, x) <==> x == Sort(values)[k]
  {
    hide Sort, CountUpTo;
    SortRank(values, k, x);
    SortRank(values, k, x - 1);
  }

  /** The median is half of the sum of the two middle values, rounded up; of an odd number of
      values the middle one counts twice. */
  lemma MedianExact(values: seq<nat>, a: nat, b: nat, m: nat)
    requires values != [] && IsRank(values, (|values| - 1) / 2, a) && IsRank(values, |values| / 2, b)
    ensures MedianOf(values) == m <==> a + b <= 2 * m <= a + b + 1
  {
    hide Sort, IsRank;
    RankExact(values, (|values| - 1) / 2, a);
    RankExact(values, |values| / 2, b);
  }

  /** The wrapped median is the median exactly when the middle sum fits 64 bits. */
  lemma WrapExact(values: seq<nat>)
    requires values != []
    ensures WrappedMedian(values) == MedianOf(values) <==> MiddleSum(values) < TWO_64
  {
    hide Sort;
  }

  function Column(estimates: seq<Tiers>, tier: Tier): (c: seq<nat>)
    ensures |c| == |estimates| && forall i | 0 <= i < |c| :: c[i] == estimates[i].At(tier)
  {
    seq(|estimates|, i requires 0 <= i < |estimates| => estimates[i].At(tier))
  }

  function MedianTiers(estimates: seq<Tiers>): Tiers
    requires estimates != []
  {
    Tiers(MedianOf(Column(estimates, Fastest)), MedianOf(Column(estimates, HalfHour)),
          MedianOf(Column(estimates, Hour)),
          MedianOf(Column(estimates, Economy)), MedianOf(Column(estimates, Minimum)))
  }

  function MedianFee(estimates: seq<Tiers>): Option<Tiers> {
    if estimates == [] then None else Some(Sanitized(MedianTiers(estimates)))
  }

  function WrappedTiers(estimates: seq<Tiers>): Tiers
    requires estimates != []
  {
    Tiers(WrappedMedian(Column(estimates, Fastest)), WrappedMedian(Column(estimates, HalfHour)),
          WrappedMedian(Column(estimates, Hour)), WrappedMedian(Column(estimates, Economy)),
          WrappedMedian(Column(estimates, Minimum)))
  }

  /** The consensus as a release build computes it. */
  function ConsensusFee(estimates: seq<Tiers>): Option<Tiers> {
    if estimates == [] then None else Some(Sanitized(WrappedTiers(estimates)))
  }

  /** In no tier does the sum of the two middle values leave 64 bits. */
  ghost predicate SumsFit(estimates: seq<Tiers>) {
    estimates != [] ==> forall tier: Tier :: MiddleSum(Column(estimates, tier)) < TWO_64
  }

  lemma ConsensusIsMedian(estimates: seq<Tiers>)
    requires SumsFit(estimates)
    ensures ConsensusFee(estimates) == MedianFee(estimates)
    ensures estimates != [] ==> WrappedTiers(estimates) == MedianTiers(estimates)
  {
    hide MedianOf, WrappedMedian, Column, Sanitized;
    if estimates != [] {
      forall tier: Tier ensures WrappedMedian(Column(estimates, tier)) == MedianOf(Column(estimates, tier)) {
        WrapExact(Column(estimates, tier));
      }
    }
  }

  /** Collects one tier, sorts it and picks the middle, rounding the mean of two up. */
  method MedianColumn(estimates: seq<Tiers>, tier: Tier) returns (median: nat)
    requires estimates != []
    ensures median == WrappedMedian(Column(estimates, tier))
  {
    hide Sort;
    var vals: seq<nat> := [];
    for i := 0 to |estimates|
      invariant vals == Column(estimates, tier)[..i]
    {
      vals := vals + [estimates[i].At(tier)];
    }
    assert vals == Column(estimates, tier);
    vals := Sort(vals);
    var len := |vals|;
    if len % 2 == 1 {
      median := vals[len / 2];
    } else {
      var mid1, mid2 := vals[len / 2 - 1], vals[len / 2];
      median := CeilHalf((mid1 + mid2) % TWO_64);
    }
  }

  method ComputeMedianFee(estimates: seq<Tiers>) returns (r: Option<Tiers>)
    ensures r == ConsensusFee(estimates)
  {
    if |estimates| == 0 {
      return None;
    }
    if |estimates| == 1 {
      var only := new FeeEstimate(estimates[0]);
      only.Sanitize();
      MedianOfOne(estimates);
      return Some(only.Values());
    }
    var fastest := MedianColumn(estimates, Fastest);
    var halfHour := MedianColumn(estimates, HalfHour);
    var hour := MedianColumn(estimates, Hour);
    var economy := MedianColumn(estimates, Economy);
    var minimum := MedianColumn(estimates, Minimum);
    var est := new FeeEstimate(Tiers(fastest, halfHour, hour, economy, minimum));
    est.Sanitize();
    return Some(est.Values());
  }

  lemma SortOne(x: nat)
    ensures Sort([x]) == [x]
  {
    assert [x][1..] == [];
    assert Inserted(x, []) == [x];
  }

  lemma MedianOfOne(estimates: seq<Tiers>)
    requires |estimates| == 1
    ensures WrappedTiers(estimates) == estimates[0]
  {
    forall tier: Tier ensures WrappedMedian(Column(estimates, tier)) == estimates[0].At(tier) {
      assert Column(estimates, tier) == [estimates[0].At(tier)];
      SortOne(estimates[0].At(tier));
    }
  }

  /** A pointwise larger column has a larger or equal median. */
  lemma MedianMonotone(u: seq<nat>, v: seq<nat>)
    requires |u| == |v| > 0 && forall i | 0 <= i < |u| :: u[i] <= v[i]
    ensures MedianOf(u) <= MedianOf(v)
  {
    RankMonotone(u, v, |u| / 2);
    if |u| % 2 == 0 {
      RankMonotone(u, v, |u| / 2 - 1);
    }
  }

  lemma RankMonotone(u: seq<nat>, v: seq<nat>, k: nat)
    requires |u| == |v| > k && forall i | 0 <= i < |u| :: u[i] <= v[i]
    ensures Sort(u)[k] <= Sort(v)[k]
  {
    var y := Sort(v)[k];
    CountMonotone(u, v, y);
    SortRank(u, k, y);
    SortRank(v, k, y);
  }

  ghost predicate AllOrdered(estimates: seq<Tiers>) {
    forall e | e in estimates :: TierOrdered(e)
  }

  /** The medians of tier-ordered estimates are already tier-ordered, so the final repair changes
      nothing. */
  lemma MedianKeepsOrder(estimates: seq<Tiers>)
    requires estimates != [] && AllOrdered(estimates)
    ensures TierOrdered(MedianTiers(estimates))
    ensures MedianFee(estimates) == Some(MedianTiers(estimates))
  {
    forall i | 0 <= i < |estimates| ensures TierOrdered(estimates[i]) {
      assert estimates[i] in estimates;
    }
    MedianMonotone(Column(estimates, HalfHour), Column(estimates, Fastest));
    MedianMonotone(Column(estimates, Hour), Column(estimates, HalfHour));
    MedianMonotone(Column(estimates, Economy), Column(estimates, Hour));
    MedianMonotone(Column(estimates, Minimum), Column(estimates, Economy));
    AllHonest(|estimates|);
    MedianInRange(Column(estimates, Minimum), seq(|estimates|, _ => true), 1, HighestOf(Column(estimates, Minimum)));
    hide MedianOf, Column;
    SanitizedIsLeast(MedianTiers(estimates));
  }

  function HighestOf(s: seq<nat>): (m: nat)
    ensures forall i | 0 <= i < |s| :: s[i] <= m
  {
    if s == [] then 0 else Max(s[0], HighestOf(s[1..]))
  }

  // ---------------------------------------------------------------------------------------
  // Dishonest sources and arrival order
  // ---------------------------------------------------------------------------------------

  function CountFalse(flags: seq<bool>): (n: nat)
    ensures n <= |flags|
  {
    if flags == [] then 0 else CountFalse(flags[1..]) + if flags[0] then 0 else 1
  }

  lemma {:induction false} AllHonest(n: nat)
    ensures CountFalse(seq(n, _ => true)) == 0
  {
    if n > 0 {
      AllHonest(n - 1);
      assert seq(n, _ => true)[1..] == seq(n - 1, _ => true);
    }
  }

  lemma {:induction false} HonestCounts(values: seq<nat>, honest: seq<bool>, lo: nat, hi: nat)
    requires |values| == |honest|
    requires forall i | 0 <= i < |values| && honest[i] :: lo <= values[i] <= hi
    ensures CountUpTo(values, hi) >= |values| - CountFalse(honest)
    ensures CountUpTo(values, lo - 1) <= CountFalse(honest)
  {
    if values != [] {
      HonestCounts(values[1..], honest[1..], lo, hi);
    }
  }

  /** With fewer than half of the values out of control, the median lies between the honest
      ones. */
  lemma MedianInRange(values: seq<nat>, honest: seq<bool>, lo: nat, hi: nat)
    requires |values| == |honest| > 0 && 2 * CountFalse(honest) < |values|
    requires forall i | 0 <= i < |values| && honest[i] :: lo <= values[i] <= hi
    ensures lo <= MedianOf(values) <= hi
  {
    hide Sort, CountUpTo;
    HonestCounts(values, honest, lo, hi);
    var n := |values|;
    SortRank(values, n / 2, hi);
    SortRank(values, n / 2, lo - 1);
    if n % 2 == 0 {
      SortRank(values, n / 2 - 1, hi);
      SortRank(values, n / 2 - 1, lo - 1);
    }
  }

  /** Byzantine range: with n sanitized sources, fewer than half of them dishonest, every tier of
      the consensus lies between the smallest and the largest honest value of that tier. */
  lemma ConsensusInHonestRange(estimates: seq<Tiers>, honest: seq<bool>, tier: Tier, lo: nat, hi: nat)
    requires |estimates| == |honest| > 0 && 2 * CountFalse(honest) < |estimates| && AllOrdered(estimates)
    requires forall i | 0 <= i < |estimates| && honest[i] :: lo <= estimates[i].At(tier) <= hi
    ensures MedianFee(estimates).Some? && lo <= MedianFee(estimates).value.At(tier) <= hi
  {
    MedianKeepsOrder(estimates);
    MedianInRange(Column(estimates, tier), honest, lo, hi);
    hide MedianOf, Column;
  }

  /** With fewer than half of the values out of control, the middle sum is at most twice the
      largest honest value. */
  lemma MiddleInRange(values: seq<nat>, honest: seq<bool>, hi: nat)
    requires |values| == |honest| > 0 && 2 * CountFalse(honest) < |values|
    requires forall i | 0 <= i < |values| && honest[i] :: values[i] <= hi
    ensures MiddleSum(values) <= 2 * hi
  {
    hide Sort, CountUpTo;
    HonestCounts(values, honest, 0, hi);
    var n := |values|;
    SortRank(values, n / 2, hi);
    if n % 2 == 0 {
      SortRank(values, n / 2 - 1, hi);
    }
  }

  /** So dishonest sources cannot make a sum overflow as long as the honest values stay below half
      of the 64-bit range, and the computed consensus lies in the honest range too. */
  lemma {:induction false} ComputedInHonestRange(estimates: seq<Tiers>, honest: seq<bool>, tier: Tier, lo: nat, hi: nat)
    requires |estimates| == |honest| > 0 && 2 * CountFalse(honest) < |estimates| && AllOrdered(estimates)
    requires forall i | 0 <= i < |estimates| && honest[i] :: lo <= estimates[i].At(tier) <= hi
    requires forall i, t: Tier | 0 <= i < |estimates| && honest[i] :: estimates[i].At(t) < TWO_63
    ensures SumsFit(estimates)
    ensures ConsensusFee(estimates).Some? && lo <= ConsensusFee(estimates).value.At(tier) <= hi
  {
    hide MiddleSum, Column, MedianFee, ConsensusFee;
    forall t: Tier ensures MiddleSum(Column(estimates, t)) < TWO_64 {
      MiddleInRange(Column(estimates, t), honest, TWO_63 - 1);
    }
    ConsensusIsMedian(estimates);
    ConsensusInHonestRange(estimates, honest, tier, lo, hi);
  }

  /** The same value in every tier. */
  function Level(value: nat): Tiers {
    Tiers(value, value, value, value, value)
  }

  lemma {:induction false} LevelCount(value: nat, n: nat, tier: Tier, y: int)
    ensures CountUpTo(Column(seq(n, _ => Level(value)), tier), y) == if value <= y then n else 0
  {
    var column := Column(seq(n, _ => Level(value)), tier);
    if n > 0 {
      LevelCount(value, n - 1, tier, y);
      assert column[1..] == Column(seq(n - 1, _ => Level(value)), tier);
    }
  }

  lemma {:induction false} CountBelow(s: seq<nat>, y: int)
    requires exists i :: 0 <= i < |s| && s[i] > y
    ensures CountUpTo(s, y) < |s|
  {
    if s[0] <= y {
      var i :| 0 <= i < |s| && s[i] > y;
      assert s[1..][i - 1] == s[i];
      CountBelow(s[1..], y);
    }
  }

  lemma LevelsOrdered(value: nat, n: nat)
    requires value >= 1
    ensures AllOrdered(seq(n, _ => Level(value)))
  {
  }

  lemma OrderedConcat(a: seq<Tiers>, b: seq<Tiers>)
    requires AllOrdered(a) && AllOrdered(b)
    ensures AllOrdered(a + b)
  {
  }

  lemma TierAt(estimates: seq<Tiers>, tier: Tier)
    requires estimates != []
    ensures MedianTiers(estimates).At(tier) == MedianOf(Column(estimates, tier))
  {
    hide MedianOf, Column;
  }

  /** Half of the values are above `hi`, and of the others one is `hi`. */
  lemma HalfCounts(honest: seq<Tiers>, dishonest: seq<Tiers>, tier: Tier, hi: nat)
    requires dishonest == seq(|honest|, _ => Level(hi + 1))
    requires exists e :: e in honest && e.At(tier) == hi
    ensures CountUpTo(Column(honest + dishonest, tier), hi) <= |honest|
    ensures CountUpTo(Column(honest + dishonest, tier), hi - 1) < |honest|
  {
    hide CountUpTo;
    var mine, theirs := Column(honest, tier), Column(dishonest, tier);
    var e :| e in honest && e.At(tier) == hi;
    var i :| 0 <= i < |honest| && honest[i] == e;
    assert mine[i] == hi;
    CountBelow(mine, hi - 1);
    LevelCount(hi + 1, |honest|, tier, hi);
    LevelCount(hi + 1, |honest|, tier, hi - 1);
    assert Column(honest + dishonest, tier) == mine + theirs;
    CountSplit(mine, theirs, hi);
    CountSplit(mine, theirs, hi - 1);
  }

  lemma MedianAbove(values: seq<nat>, n: nat, hi: nat)
    requires n > 0 && |values| == 2 * n
    requires CountUpTo(values, hi) <= n && CountUpTo(values, hi - 1) < n
    ensures MedianOf(values) > hi
  {
    hide Sort, CountUpTo;
    SortRank(values, n, hi);
    SortRank(values, n - 1, hi - 1);
  }

  lemma {:induction false} AllUpTo(s: seq<nat>, y: int)
    requires forall i | 0 <= i < |s| :: s[i] <= y
    ensures CountUpTo(s, y) == |s|
  {
    if s != [] {
      AllUpTo(s[1..], y);
    }
  }

  /** With honest values below half of the 64-bit range, and as many others just one above an
      honest one, the middle sum fits 64 bits. */
  lemma MiddleFits(honest: seq<Tiers>, dishonest: seq<Tiers>, tier: Tier, level: nat)
    requires honest != [] && dishonest == seq(|honest|, _ => Level(level))
    requires level <= TWO_63 && forall e | e in honest :: e.At(tier) < TWO_63
    ensures MiddleSum(Column(honest + dishonest, tier)) < TWO_64
  {
    hide Sort, CountUpTo;
    var mine, theirs, n := Column(honest, tier), Column(dishonest, tier), |honest|;
    assert Column(honest + dishonest, tier) == mine + theirs;
    AllUpTo(mine, TWO_63 - 1);
    AllUpTo(mine + theirs, TWO_63);
    CountSplit(mine, theirs, TWO_63 - 1);
    SortRank(mine + theirs, n - 1, TWO_63 - 1);
    SortRank(mine + theirs, n, TWO_63);
  }

  lemma SumsFitWith(honest: seq<Tiers>, dishonest: seq<Tiers>, level: nat)
    requires honest != [] && dishonest == seq(|honest|, _ => Level(level)) && level <= TWO_63
    requires forall e, t: Tier | e in honest :: e.At(t) < TWO_63
    ensures SumsFit(honest + dishonest)
  {
    hide MiddleSum, Column;
    forall t: Tier ensures MiddleSum(Column(honest + dishonest, t)) < TWO_64 {
      MiddleFits(honest, dishonest, t, level);
    }
  }

  lemma LevelsFit(value: nat, n: nat)
    requires value <= TWO_63
    ensures forall e, t: Tier | e in seq(n, _ => Level(value)) :: e.At(t) <= U64_MAX
  {
  }

  /** Half is not enough: whatever the honest estimates, as many dishonest ones - each in order,
      and just one above an honest value of a tier - push that tier above this value. They fit 64
      bits, and so do the sums, when the honest values stay below half of that range. */
  lemma HalfDishonestIsTooMany(honest: seq<Tiers>, tier: Tier, hi: nat) returns (dishonest: seq<Tiers>)
    requires AllOrdered(honest) && exists e :: e in honest && e.At(tier) == hi
    ensures |dishonest| == |honest| && AllOrdered(dishonest)
    ensures MedianFee(honest + dishonest).Some? && MedianFee(honest + dishonest).value.At(tier) > hi
    ensures (forall e, t: Tier | e in honest :: e.At(t) < TWO_63) ==>
              (forall e, t: Tier | e in dishonest :: e.At(t) <= U64_MAX) && SumsFit(honest + dishonest)
              && ConsensusFee(honest + dishonest) == MedianFee(honest + dishonest)
  {
    hide *;
    var n := |honest|;
    dishonest := seq(n, _ => Level(hi + 1));
    LevelsOrdered(hi + 1, n);
    OrderedConcat(honest, dishonest);
    MedianKeepsOrder(honest + dishonest);
    HalfCounts(honest, dishonest, tier, hi);
    MedianAbove(Column(honest + dishonest, tier), n, hi);
    TierAt(honest + dishonest, tier);
    if forall e, t: Tier | e in honest :: e.At(t) < TWO_63 {
      LevelsFit(hi + 1, n);
      SumsFitWith(honest, dishonest, hi + 1);
      ConsensusIsMedian(honest + dishonest);
    }
  }

  /** Every tier of the consensus of ordered estimates, by ranks. */
  lemma ConsensusExact(estimates: seq<Tiers>, tier: Tier, a: nat, b: nat)
    requires estimates != [] && AllOrdered(estimates) && SumsFit(estimates)
    requires IsRank(Column(estimates, tier), (|estimates| - 1) / 2, a)
    requires IsRank(Column(estimates, tier), |estimates| / 2, b)
    ensures ConsensusFee(estimates).Some? && a + b <= 2 * ConsensusFee(estimates).value.At(tier) <= a + b + 1
  {
    hide *;
    MedianKeepsOrder(estimates);
    ConsensusIsMedian(estimates);
    TierAt(estimates, tier);
    ColumnSize(estimates, tier);
    MedianExact(Column(estimates, tier), a, b, MedianOf(Column(estimates, tier)));
  }

  lemma ColumnSize(estimates: seq<Tiers>, tier: Tier)
    ensures |Column(estimates, tier)| == |estimates|
  {
  }

  lemma {:induction false} CountPermuted(a: seq<Tiers>, b: seq<Tiers>, tier: Tier, y: int)
    requires multiset(a) == multiset(b)
    ensures CountUpTo(Column(a, tier), y) == CountUpTo(Column(b, tier), y)
    decreases |a|
  {
    if a == [] {
      assert |multiset(b)| == 0;
      assert Column(a, tier) == Column(b, tier);
    } else {
      var j := SameWithout(a, b);
      CountPermuted(a[1..], b[..j] + b[j + 1..], tier, y);
      CountWithout(b, j, tier, y);
      assert Column(a, tier)[1..] == Column(a[1..], tier);
    }
  }

  lemma SameWithout<T>(a: seq<T>, b: seq<T>) returns (j: nat)
    requires a != [] && multiset(a) == multiset(b)
    ensures j < |b| && b[j] == a[0] && multiset(a[1..]) == multiset(b[..j] + b[j + 1..])
  {
    hide *;
    j := IndexOf(b, a[0]);
    MultisetTail(a);
    MultisetAround(b, j);
  }

  lemma IndexOf<T>(s: seq<T>, x: T) returns (j: nat)
    requires x in multiset(s)
    ensures j < |s| && s[j] == x
  {
    hide *;
    j :| 0 <= j < |s| && s[j] == x;
  }

  lemma MultisetTail<T>(s: seq<T>)
    requires s != []
    ensures multiset(s[1..]) == multiset(s) - multiset{s[0]}
  {
    hide *;
    assert s == [s[0]] + s[1..];
  }

  lemma MultisetAround<T>(s: seq<T>, j: nat)
    requires j < |s|
    ensures multiset(s[..j] + s[j + 1..]) == multiset(s) - multiset{s[j]}
  {
    hide *;
    assert s == s[..j] + [s[j]] + s[j + 1..];
  }

  lemma CountCons(x: nat, s: seq<nat>, y: int)
    ensures CountUpTo([x] + s, y) == CountUpTo(s, y) + if x <= y then 1 else 0
  {
    assert ([x] + s)[1..] == s;
  }

  lemma CountWithout(b: seq<Tiers>, j: nat, tier: Tier, y: int)
    requires j < |b|
    ensures CountUpTo(Column(b, tier), y)
         == CountUpTo(Column(b[..j] + b[j + 1..], tier), y) + if b[j].At(tier) <= y then 1 else 0
  {
    hide CountUpTo, Tiers.At;
    var l, r := Column(b[..j], tier), Column(b[j + 1..], tier);
    assert Column(b, tier) == l + ([b[j].At(tier)] + r);
    assert Column(b[..j] + b[j + 1..], tier) == l + r;
    CountSplit(l, [b[j].At(tier)] + r, y);
    CountSplit(l, r, y);
    CountCons(b[j].At(tier), r, y);
  }

  lemma MedianPermuted(a: seq<Tiers>, b: seq<Tiers>, tier: Tier)
    requires |a| == |b| > 0
    requires forall y: int :: CountUpTo(Column(a, tier), y) == CountUpTo(Column(b, tier), y)
    ensures MedianOf(Column(a, tier)) == MedianOf(Column(b, tier))
    ensures WrappedMedian(Column(a, tier)) == WrappedMedian(Column(b, tier))
  {
    var u, v := Column(a, tier), Column(b, tier);
    forall k: nat | k < |u| ensures Sort(u)[k] == Sort(v)[k] {
      SortRank(u, k, Sort(v)[k]);
      SortRank(v, k, Sort(v)[k]);
      SortRank(u, k, Sort(u)[k]);
      SortRank(v, k, Sort(u)[k]);
    }
    assert Sort(u) == Sort(v);
  }

  /** The consensus is the same for every order in which the sources answer. */
  lemma ArrivalOrderIrrelevant(a: seq<Tiers>, b: seq<Tiers>)
    requires multiset(a) == multiset(b)
    ensures MedianFee(a) == MedianFee(b) && ConsensusFee(a) == ConsensusFee(b)
  {
    assert |a| == |multiset(a)| == |multiset(b)| == |b|;
    if a != [] {
      forall tier: Tier
        ensures MedianOf(Column(a, tier)) == MedianOf(Column(b, tier))
        ensures WrappedMedian(Column(a, tier)) == WrappedMedian(Column(b, tier))
      {
        forall y: int ensures CountUpTo(Column(a, tier), y) == CountUpTo(Column(b, tier), y) {
          CountPermuted(a, b, tier, y);
        }
        MedianPermuted(a, b, tier);
      }
      hide MedianOf, WrappedMedian, Column;
    }
  }

  // ---------------------------------------------------------------------------------------
  // Decay towards the fallback
  // ---------------------------------------------------------------------------------------

  /** The weighted sum of the cached and the fallback value, scaled by the staleness limit. */
  function Blend(cached: nat, fallback: nat, elapsed: nat, limit: nat): nat
    requires elapsed <= limit
  {
    cached * (limit - elapsed) + fallback * elapsed
  }

  /** `scaled / limit`, rounded to the nearest whole number with halves going up. */
  function RoundScaled(scaled: nat, limit: nat): nat
    requires limit > 0
  {
    (2 * scaled + limit) / (2 * limit)
  }

  function DecayField(cached: nat, fallback: nat, elapsed: nat, limit: nat): nat
    requires elapsed <= limit && limit > 0
  {
    Max(1, RoundScaled(Blend(cached, fallback, elapsed, limit), limit))
  }

  function DecayTiers(cached: Tiers, elapsed: nat, limit: nat): Tiers
    requires elapsed <= limit && limit > 0
  {
    Tiers(DecayField(cached.fastest, FALLBACK_FEES.fastest, elapsed, limit),
          DecayField(cached.halfHour, FALLBACK_FEES.halfHour, elapsed, limit),
          DecayField(cached.hour, FALLBACK_FEES.hour, elapsed, limit),
          DecayField(cached.economy, FALLBACK_FEES.economy, elapsed, limit),
          DecayField(cached.minimum, FALLBACK_FEES.minimum, elapsed, limit))
  }

  function DecayEstimate(cached: Tiers, elapsed: nat, limit: nat): Tiers {
    if limit == 0 || elapsed >= limit then FALLBACK_FEES
    else Sanitized(DecayTiers(cached, elapsed, limit))
  }

  lemma RoundMonotone(a: nat, b: nat, limit: nat)
    requires a <= b && limit > 0
    ensures RoundScaled(a, limit) <= RoundScaled(b, limit)
  {
    var d := 2 * limit;
    var p, q := (2 * a + limit) / d, (2 * b + limit) / d;
    if p > q {
      ProductMonotone(q + 1, p, d);
    }
  }

  lemma ProductMonotone(a: nat, b: nat, c: nat)
    requires a <= b
    ensures a * c <= b * c
  {
  }

  lemma RoundWhole(value: nat, limit: nat)
    requires limit > 0
    ensures RoundScaled(value * limit, limit) == value
  {
    var d := 2 * limit;
    assert 2 * (value * limit) + limit == value * d + limit;
    DivideBelow(value, limit, d);
  }

  lemma DivideBelow(q: nat, r: nat, d: nat)
    requires r < d
    ensures (q * d + r) / d == q
  {
    var p := (q * d + r) / d;
    if p < q {
      ProductMonotone(p + 1, q, d);
    } else if p > q {
      ProductMonotone(q + 1, p, d);
    }
  }

  lemma BlendMonotone(c1: nat, c2: nat, f1: nat, f2: nat, elapsed: nat, limit: nat)
    requires elapsed <= limit && c1 <= c2 && f1 <= f2
    ensures Blend(c1, f1, elapsed, limit) <= Blend(c2, f2, elapsed, limit)
  {
    ProductMonotone(c1, c2, limit - elapsed);
    ProductMonotone(f1, f2, elapsed);
  }

  lemma BlendSame(value: nat, elapsed: nat, limit: nat)
    requires elapsed <= limit
    ensures Blend(value, value, elapsed, limit) == value * limit
  {
  }

  /** A later blend is the earlier one with weight moved from the cached to the fallback value. */
  lemma BlendLater(cached: nat, fallback: nat, e1: nat, e2: nat, limit: nat)
    requires e1 <= e2 <= limit
    ensures cached <= fallback ==> Blend(cached, fallback, e1, limit) <= Blend(cached, fallback, e2, limit)
    ensures cached >= fallback ==> Blend(cached, fallback, e1, limit) >= Blend(cached, fallback, e2, limit)
  {
    var d := e2 - e1;
    assert cached * (limit - e1) == cached * (limit - e2) + cached * d;
    assert fallback * e2 == fallback * e1 + fallback * d;
    if cached <= fallback {
      ProductMonotone(cached, fallback, d);
    } else {
      ProductMonotone(fallback, cached, d);
    }
  }

  lemma DecayFieldMonotone(c1: nat, c2: nat, f1: nat, f2: nat, elapsed: nat, limit: nat)
    requires elapsed <= limit && limit > 0 && c1 <= c2 && f1 <= f2
    ensures DecayField(c1, f1, elapsed, limit) <= DecayField(c2, f2, elapsed, limit)
  {
    BlendMonotone(c1, c2, f1, f2, elapsed, limit);
    RoundMonotone(Blend(c1, f1, elapsed, limit), Blend(c2, f2, elapsed, limit), limit);
    hide Blend, RoundScaled;
  }

  lemma DecayFieldSame(value: nat, elapsed: nat, limit: nat)
    requires elapsed <= limit && limit > 0 && value >= 1
    ensures DecayField(value, value, elapsed, limit) == value
  {
    BlendSame(value, elapsed, limit);
    RoundWhole(value, limit);
    hide Blend, RoundScaled;
  }

  /** A decayed value lies between the cached and the fallback value, starts at the cached one,
      and moves only towards the fallback as time passes. */
  lemma DecayMovesToFallback(cached: nat, fallback: nat, e1: nat, e2: nat, limit: nat)
    requires e1 <= e2 <= limit && limit > 0 && cached >= 1 && fallback >= 1
    ensures DecayField(cached, fallback, 0, limit) == cached
    ensures DecayField(cached, fallback, limit, limit) == fallback
    ensures cached <= fallback ==>
              cached <= DecayField(cached, fallback, e1, limit) <= DecayField(cached, fallback, e2, limit) <= fallback
    ensures cached >= fallback ==>
              cached >= DecayField(cached, fallback, e1, limit) >= DecayField(cached, fallback, e2, limit) >= fallback
  {
    DecayFieldSame(cached, e1, limit);
    DecayFieldSame(fallback, e2, limit);
    DecayEnds(cached, fallback, limit);
    BlendLater(cached, fallback, e1, e2, limit);
    if cached <= fallback {
      DecayFieldMonotone(cached, cached, cached, fallback, e1, limit);
      DecayFieldMonotone(cached, fallback, fallback, fallback, e2, limit);
      RoundMonotone(Blend(cached, fallback, e1, limit), Blend(cached, fallback, e2, limit), limit);
    }
    if cached >= fallback {
      DecayFieldMonotone(cached, cached, fallback, cached, e1, limit);
      DecayFieldMonotone(fallback, cached, fallback, fallback, e2, limit);
      RoundMonotone(Blend(cached, fallback, e2, limit), Blend(cached, fallback, e1, limit), limit);
    }
    hide Blend, RoundScaled;
  }

  lemma DecayEnds(cached: nat, fallback: nat, limit: nat)
    requires limit > 0 && cached >= 1 && fallback >= 1
    ensures DecayField(cached, fallback, 0, limit) == cached
    ensures DecayField(cached, fallback, limit, limit) == fallback
  {
    assert Blend(cached, fallback, 0, limit) == cached * limit;
    assert Blend(cached, fallback, limit, limit) == fallback * limit;
    RoundWhole(cached, limit);
    RoundWhole(fallback, limit);
    hide Blend, RoundScaled;
  }

  /** `d` is the whole number nearest to the weighted mean of both values, halves going up, but at
      least 1: the cached value weighs as much as time is left, the fallback as much as has gone. */
  predicate IsNearest(d: nat, cached: nat, fallback: nat, elapsed: nat, limit: nat)
    requires elapsed <= limit
  {
    var scaled := cached * (limit - elapsed) + fallback * elapsed;
    if 2 * scaled < limit then d == 1 else 2 * scaled < limit * (2 * d + 1) && limit * (2 * d) <= 2 * scaled + limit
  }

  lemma RoundNearest(scaled: nat, limit: nat, d: nat)
    requires limit > 0
    ensures RoundScaled(scaled, limit) == d
        <==> 2 * scaled < limit * (2 * d + 1) && limit * (2 * d) <= 2 * scaled + limit
  {
    var q := RoundScaled(scaled, limit);
    var r := (2 * scaled + limit) % (2 * limit);
    assert 2 * scaled + limit == (2 * limit) * q + r;
    assert limit * (2 * q) == (2 * limit) * q && limit * (2 * q + 1) == limit * (2 * q) + limit;
    assert limit * (2 * d + 1) == limit * (2 * d) + limit;
    if d > q {
      Doubled(q + 1, d, limit);
    } else if d < q {
      Doubled(d + 1, q, limit);
    }
  }

  lemma Doubled(a: nat, b: nat, limit: nat)
    requires a <= b
    ensures limit * (2 * a) <= limit * (2 * b) && limit * (2 * a) == limit * (2 * (a - 1)) + 2 * limit
  {
    ProductMonotone(2 * a, 2 * b, limit);
  }

  /** A decayed value is the nearest whole number to the weighted mean. */
  lemma DecayNearest(cached: nat, fallback: nat, elapsed: nat, limit: nat, d: nat)
    requires elapsed <= limit && limit > 0
    ensures DecayField(cached, fallback, elapsed, limit) == d
        <==> d >= 1 && IsNearest(d, cached, fallback, elapsed, limit)
  {
    var scaled := Blend(cached, fallback, elapsed, limit);
    var q := RoundScaled(scaled, limit);
    assert scaled == cached * (limit - elapsed) + fallback * elapsed;
    RoundNearest(scaled, limit, q);
    RoundNearest(scaled, limit, d);
    RoundNearest(scaled, limit, 0);
    hide Blend, RoundScaled;
  }

  /** Tier order survives decay, so the repair after it changes nothing. */
  lemma DecayKeepsOrder(cached: Tiers, elapsed: nat, limit: nat)
    requires TierOrdered(cached)
    ensures TierOrdered(DecayEstimate(cached, elapsed, limit))
    ensures elapsed < limit ==> DecayEstimate(cached, elapsed, limit) == DecayTiers(cached, elapsed, limit)
  {
    if elapsed < limit {
      DecayFieldMonotone(cached.halfHour, cached.fastest, 15, 20, elapsed, limit);
      DecayFieldMonotone(cached.hour, cached.halfHour, 10, 15, elapsed, limit);
      DecayFieldMonotone(cached.economy, cached.hour, 5, 10, elapsed, limit);
      DecayFieldMonotone(cached.minimum, cached.economy, 1, 5, elapsed, limit);
      assert DecayField(cached.minimum, 1, elapsed, limit) >= 1;
      hide DecayField;
      SanitizedIsLeast(DecayTiers(cached, elapsed, limit));
    }
  }

  // ---------------------------------------------------------------------------------------
  // The consensus routine and its cache
  // ---------------------------------------------------------------------------------------

  datatype CachedEstimate = CachedEstimate(estimate: Tiers, timestamp: nat, sourcesUsed: seq<string>)

  datatype Config = Config(sources: nat, minSources: nat, maxStaleness: nat)

  datatype Report = Report(
    estimate: Tiers,
    timestamp: nat,
    sourcesQueried: nat,
    sourcesSucceeded: nat,
    sourceNames: seq<string>,
    isFromCache: bool,
    isDecayed: bool)

  /** One source's answer, in the order the answers arrive; estimates come sanitized from the
      source readers. */
  datatype Answer = Answer(name: string, estimate: Option<Tiers>)

  function Estimates(answers: seq<Answer>): seq<Tiers> {
    if answers == [] then []
    else
      var rest := Estimates(answers[..|answers| - 1]);
      var last := answers[|answers| - 1];
      if last.estimate.Some? then rest + [last.estimate.value] else rest
  }

  function Names(answers: seq<Answer>): seq<string> {
    if answers == [] then []
    else
      var rest := Names(answers[..|answers| - 1]);
      var last := answers[|answers| - 1];
      if last.estimate.Some? then rest + [last.name] else rest
  }

  function Elapsed(now: nat, timestamp: nat): nat {
    if now >= timestamp then now - timestamp else 0
  }

  /** The fresh consensus, when enough sources answered. */
  function Fresh(answers: seq<Answer>, config: Config): Option<Tiers> {
    if |Estimates(answers)| >= config.minSources then ConsensusFee(Estimates(answers)) else None
  }

  function NextCache(cache: Option<CachedEstimate>, now: nat, answers: seq<Answer>,
          config: Config): Option<CachedEstimate> {
    if Fresh(answers, config).Some? then Some(CachedEstimate(Fresh(answers, config).value, now, Names(answers)))
    else cache
  }

  function Outcome(cache: Option<CachedEstimate>, now: nat, answers: seq<Answer>, config: Config): Report {
    var n := |Estimates(answers)|;
    if Fresh(answers, config).Some? then
      Report(Fresh(answers, config).value, now, config.sources, n, Names(answers), false, false)
    else if cache.Some? && Elapsed(now, cache.value.timestamp) < config.maxStaleness then
      var elapsed := Elapsed(now, cache.value.timestamp);
      Report(DecayEstimate(cache.value.estimate, elapsed, config.maxStaleness), cache.value.timestamp, config.sources,
             n,
             cache.value.sourcesUsed, true, elapsed > 0)
    else
      Report(FALLBACK_FEES, now, config.sources, n, ["FallbackFees"], false, false)
  }

  class FeeEngine {
    var cache: Option<CachedEstimate>

    constructor ()
      ensures cache == None
    {
      cache := None;
    }

    method FetchConsensusFee(now: nat, answers: seq<Answer>, config: Config) returns (report: Report)
      modifies this
      ensures report == Outcome(old(cache), now, answers, config)
      ensures cache == NextCache(old(cache), now, answers, config)
    {
      var successful: seq<Tiers> := [];
      var used: seq<string> := [];
      for i := 0 to |answers|
        invariant successful == Estimates(answers[..i]) && used == Names(answers[..i])
      {
        assert answers[..i + 1][..i] == answers[..i];
        if answers[i].estimate.Some? {
          used := used + [answers[i].name];
          successful := successful + [answers[i].estimate.value];
        }
      }
      assert answers[..|answers|] == answers;

      if |successful| >= config.minSources {
        var consensus := ComputeMedianFee(successful);
        if consensus.Some? {
          cache := Some(CachedEstimate(consensus.value, now, used));
          return Report(consensus.value, now, config.sources, |successful|, used, false, false);
        }
      }

      if cache.Some? {
        var elapsed := Elapsed(now, cache.value.timestamp);
        if elapsed < config.maxStaleness {
          var decayed := DecayEstimate(cache.value.estimate, elapsed, config.maxStaleness);
          return Report(decayed, cache.value.timestamp, config.sources, |successful|, cache.value.sourcesUsed, true,
                        elapsed > 0);
        }
      }
      return Report(FALLBACK_FEES, now, config.sources, |successful|, ["FallbackFees"], false, false);
    }
  }

  datatype Fetch = Fetch(now: nat, answers: seq<Answer>, config: Config)

  function CacheAfter(run: seq<Fetch>, n: nat): Option<CachedEstimate>
    requires n <= |run|
  {
    if n == 0 then None
    else NextCache(CacheAfter(run, n - 1), run[n - 1].now, run[n - 1].answers, run[n - 1].config)
  }

  function ReportAt(run: seq<Fetch>, k: nat): Report
    requires k < |run|
  {
    Outcome(CacheAfter(run, k), run[k].now, run[k].answers, run[k].config)
  }

  /** Every answer is tier-ordered and no middle sum overflows. */
  ghost predicate SourcesSanitized(run: seq<Fetch>) {
    forall f | f in run :: AllOrdered(Estimates(f.answers)) && SumsFit(Estimates(f.answers))
  }

  /** What a fetch reports before any repair of the tier order. */
  function Unrepaired(cache: Option<CachedEstimate>, now: nat, answers: seq<Answer>, config: Config): Tiers {
    if Fresh(answers, config).Some? then MedianTiers(Estimates(answers))
    else if cache.Some? && Elapsed(now, cache.value.timestamp) < config.maxStaleness then
      DecayTiers(cache.value.estimate, Elapsed(now, cache.value.timestamp), config.maxStaleness)
    else FALLBACK_FEES
  }

  lemma FreshOrdered(answers: seq<Answer>, config: Config)
    ensures Fresh(answers, config).Some? ==> TierOrdered(Fresh(answers, config).value)
  {
    hide Estimates, WrappedTiers;
    if Estimates(answers) != [] {
      SanitizedIsLeast(WrappedTiers(Estimates(answers)));
    }
  }

  lemma FreshIsMedian(answers: seq<Answer>, config: Config)
    requires AllOrdered(Estimates(answers)) && SumsFit(Estimates(answers))
    ensures Fresh(answers, config).Some? ==> Fresh(answers, config).value == MedianTiers(Estimates(answers))
  {
    hide Estimates, MedianTiers, WrappedTiers, SumsFit;
    if Estimates(answers) != [] {
      MedianKeepsOrder(Estimates(answers));
      ConsensusIsMedian(Estimates(answers));
    }
  }

  lemma {:induction false} CacheOrdered(run: seq<Fetch>, n: nat)
    requires n <= |run|
    ensures CacheAfter(run, n).Some? ==> TierOrdered(CacheAfter(run, n).value.estimate)
  {
    hide Fresh;
    if n > 0 {
      CacheOrdered(run, n - 1);
      FreshOrdered(run[n - 1].answers, run[n - 1].config);
    }
  }

  /** In every run of sanitized sources the tier order needs no repair: every report is ordered
      and is the fresh medians, the decayed cache or the fallback just as they come. */
  lemma ReportsNeedNoRepair(run: seq<Fetch>, k: nat)
    requires k < |run| && SourcesSanitized(run)
    ensures TierOrdered(ReportAt(run, k).estimate)
    ensures ReportAt(run, k).estimate == Unrepaired(CacheAfter(run, k), run[k].now, run[k].answers, run[k].config)
  {
    hide Fresh, CacheAfter, DecayEstimate, DecayTiers, MedianTiers, Estimates;
    CacheOrdered(run, k);
    FreshOrdered(run[k].answers, run[k].config);
    FreshIsMedian(run[k].answers, run[k].config);
    var cache := CacheAfter(run, k);
    if cache.Some? {
      DecayKeepsOrder(cache.value.estimate, Elapsed(run[k].now, cache.value.timestamp), run[k].config.maxStaleness);
    }
  }

  /** The cache holds the latest fresh consensus, with the time of the fetch that reached it. */
  lemma {:induction false} CacheHasOrigin(run: seq<Fetch>, n: nat) returns (origin: nat)
    requires n <= |run| && CacheAfter(run, n).Some?
    ensures origin < n
    ensures Fresh(run[origin].answers, run[origin].config) == Some(CacheAfter(run, n).value.estimate)
    ensures run[origin].now == CacheAfter(run, n).value.timestamp
    ensures forall i | origin < i < n :: Fresh(run[i].answers, run[i].config).None?
  {
    hide Fresh;
    if Fresh(run[n - 1].answers, run[n - 1].config).Some? {
      origin := n - 1;
    } else {
      origin := CacheHasOrigin(run, n - 1);
    }
  }

  lemma OrderedPositive(t: Tiers, tier: Tier)
    requires TierOrdered(t)
    ensures t.At(tier) >= 1
  {
  }

  lemma FallbackPositive(tier: Tier)
    ensures FALLBACK_FEES.At(tier) >= 1
  {
  }

  /** Every report that comes from the cache lies, tier by tier, between the fallback and a
      consensus that an earlier fetch of the same run reached. */
  lemma StaleReportsBetween(run: seq<Fetch>, k: nat, tier: Tier) returns (origin: nat)
    requires k < |run| && ReportAt(run, k).isFromCache
    ensures origin < k && Fresh(run[origin].answers, run[origin].config).Some?
    ensures Elapsed(run[k].now, run[origin].now) < run[k].config.maxStaleness
    ensures var (agreed, reported, fallback) := (Fresh(run[origin].answers, run[origin].config).value.At(tier),
                                           ReportAt(run, k).estimate.At(tier), FALLBACK_FEES.At(tier));
            agreed <= reported <= fallback || fallback <= reported <= agreed
  {
    hide Fresh, CacheAfter, DecayField, TierOrdered, Sanitized;
    FallbackPositive(tier);
    origin := CacheHasOrigin(run, k);
    CacheOrdered(run, k);
    OrderedPositive(CacheAfter(run, k).value.estimate, tier);
    var cache := CacheAfter(run, k).value;
    var elapsed, limit := Elapsed(run[k].now, cache.timestamp), run[k].config.maxStaleness;
    DecayKeepsOrder(cache.estimate, elapsed, limit);
    DecayMovesToFallback(cache.estimate.At(tier), FALLBACK_FEES.At(tier), elapsed, elapsed, limit);
  }

  /** What a report from the cache says: the staleness limit has not passed since the latest fetch
      that reached a consensus, and every tier is the weighted mean of that consensus and the
      fallback of 20, 15, 10, 5 and 1, to the nearest whole number. It counts as decayed once any
      time has passed. */
  lemma StaleReportExact(run: seq<Fetch>, k: nat) returns (origin: nat)
    requires k < |run| && ReportAt(run, k).isFromCache
    ensures origin < k && forall i | origin < i <= k :: Fresh(run[i].answers, run[i].config).None?
    ensures Fresh(run[origin].answers, run[origin].config).Some?
    ensures var report := ReportAt(run, k);
            var elapsed := if run[k].now >= run[origin].now then run[k].now - run[origin].now else 0;
            && report.timestamp == run[origin].now && report.sourceNames == Names(run[origin].answers)
            && elapsed < run[k].config.maxStaleness && (report.isDecayed <==> elapsed > 0)
            && forall tier: Tier ::
                 IsNearest(report.estimate.At(tier), Fresh(run[origin].answers, run[origin].config).value.At(tier),
                           Tiers(20, 15, 10, 5, 1).At(tier), elapsed, run[k].config.maxStaleness)
  {
    hide Fresh, CacheAfter, DecayEstimate, TierOrdered, IsNearest, Names;
    origin := CacheHasOrigin(run, k);
    CacheNames(run, k, origin);
    CacheOrdered(run, k);
    var cache := CacheAfter(run, k).value;
    var elapsed, limit := Elapsed(run[k].now, cache.timestamp), run[k].config.maxStaleness;
    forall tier: Tier
      ensures IsNearest(DecayEstimate(cache.estimate, elapsed, limit).At(tier), cache.estimate.At(tier),
                        FALLBACK_FEES.At(tier), elapsed, limit)
    {
      TierDecays(cache.estimate, elapsed, limit, tier);
    }
  }

  lemma TierDecays(cached: Tiers, elapsed: nat, limit: nat, tier: Tier)
    requires TierOrdered(cached) && elapsed < limit
    ensures IsNearest(DecayEstimate(cached, elapsed, limit).At(tier), cached.At(tier), FALLBACK_FEES.At(tier), elapsed,
                      limit)
  {
    DecayKeepsOrder(cached, elapsed, limit);
    hide DecayEstimate, TierOrdered, IsNearest, DecayField;
    var d := DecayField(cached.At(tier), FALLBACK_FEES.At(tier), elapsed, limit);
    DecayNearest(cached.At(tier), FALLBACK_FEES.At(tier), elapsed, limit, d);
  }

  lemma {:induction false} CacheNames(run: seq<Fetch>, n: nat, origin: nat)
    requires origin < n <= |run| && Fresh(run[origin].answers, run[origin].config).Some?
    requires forall i | origin < i < n :: Fresh(run[i].answers, run[i].config).None?
    ensures CacheAfter(run, n).Some? && CacheAfter(run, n).value.sourcesUsed == Names(run[origin].answers)
  {
    hide Fresh, Names;
    if n > origin + 1 {
      CacheNames(run, n - 1, origin);
    }
  }

  /** Which fetch reports what: a fresh consensus when enough sources answered, else the cache while
      it is not stale, else the fallback. */
  lemma ReportExact(run: seq<Fetch>, k: nat)
    requires k < |run|
    ensures var (f, report) := (run[k], ReportAt(run, k));
            var found := Estimates(f.answers);
            && report.sourcesQueried == f.config.sources && report.sourcesSucceeded == |found|
            && if found != [] && |found| >= f.config.minSources then
                 !report.isFromCache && !report.isDecayed && Some(report.estimate) == ConsensusFee(found)
                 && report.timestamp == f.now && report.sourceNames == Names(f.answers)
               else if exists i: nat :: IsLastFresh(run, i, k) && OnTime(run[i].now, f.now, f.config.maxStaleness)
               then report.isFromCache
               else
                 report == Report(Tiers(20, 15, 10, 5, 1), f.now, f.config.sources, |found|, ["FallbackFees"], false,
                                  false)
  {
    hide Fresh, CacheAfter, DecayEstimate, ConsensusFee, Estimates, Names;
    var f := run[k];
    FreshExact(f.answers, f.config);
    if CacheAfter(run, k).Some? {
      var origin := CacheHasOrigin(run, k);
      assert IsLastFresh(run, origin, k);
    }
    forall i: nat | IsLastFresh(run, i, k)
      ensures CacheAfter(run, k).Some? && CacheAfter(run, k).value.timestamp == run[i].now
    {
      CacheNames(run, k, i);
      var origin := CacheHasOrigin(run, k);
      assert origin == i;
    }
  }

  /** Less than `limit` has passed, by a clock that may have been set back. */
  predicate OnTime(reached: nat, now: nat, limit: nat) {
    limit > 0 && now < reached + limit
  }

  /** Fetch `i` is the latest before fetch `k` that reached a consensus. */
  ghost predicate IsLastFresh(run: seq<Fetch>, i: nat, k: nat) {
    && i < k <= |run| && Fresh(run[i].answers, run[i].config).Some?
    && forall j | i < j < k :: Fresh(run[j].answers, run[j].config).None?
  }

  lemma FreshExact(answers: seq<Answer>, config: Config)
    ensures var found := Estimates(answers);
            Fresh(answers, config)
            == if found != [] && |found| >= config.minSources then ConsensusFee(found) else None
    ensures Fresh(answers, config).Some? <==> Estimates(answers) != [] && |Estimates(answers)| >= config.minSources
  {
    hide Estimates, WrappedTiers, Sanitized;
  }
}
