/** Urgency ranking of found tasks: the reference instant and the elapsed-window
    ratio by which the lists from `find` are ordered, most urgent first. */
module Urgency {
  import opened Records
  import opened Selection

  const DayMs: int := 86400000
  const MinuteMs: int := 60000

  /** JavaScript's `clock % 86400000`: the remainder of division truncated
      toward zero, which takes the sign of the dividend (Dafny's `%` never goes
      negative). */
  function DayRemainder(clock: int): (r: int)
    ensures -DayMs < r < DayMs
    ensures clock >= 0 ==> r >= 0
    ensures clock < 0 ==> r <= 0
    ensures (clock - r) % DayMs == 0
  {
    if clock >= 0 then clock % DayMs else -((-clock) % DayMs)
  }

  /** `now + (86400000 - now % 86400000)`: the first whole multiple of a day
      after `clock`, for every clock at or after the epoch. */
  function NextDayBoundary(clock: int): (m: int)
    ensures m % DayMs == 0
    ensures clock < m
    ensures clock >= 0 ==> m <= clock + DayMs
  {
    clock + (DayMs - DayRemainder(clock))
  }

  /** No multiple of a day lies strictly between a non-negative clock and its
      next day boundary. */
  lemma NextDayBoundaryIsLeast(clock: int, k: int)
    requires clock >= 0
    requires k % DayMs == 0 && clock < k
    ensures NextDayBoundary(clock) <= k
  {
    var qc, qk := clock / DayMs, k / DayMs;
    assert k == qk * DayMs;
    assert qc * DayMs <= clock;
    assert qc < qk;
    assert NextDayBoundary(clock) == (qc + 1) * DayMs;
  }

  /** Before the epoch, at a clock that is not a whole day, the truncating
      remainder skips a boundary: the result is two days after the whole day
      below the clock, so the boundary one day after it is passed over. */
  lemma NextDayBoundaryBeforeEpoch(clock: int)
    requires clock < 0 && clock % DayMs != 0
    ensures NextDayBoundary(clock) == clock - clock % DayMs + 2 * DayMs
    ensures clock < clock - clock % DayMs + DayMs < NextDayBoundary(clock)
  {
  }

  /** `nowInner`: the next day boundary moved by the local timezone offset
      (minutes, as the platform reports them). */
  function ReferenceInstant(clock: int, tzOffset: int): (ref: int)
    ensures (ref - tzOffset * MinuteMs) % DayMs == 0
    ensures clock + tzOffset * MinuteMs < ref
    ensures clock >= 0 ==> ref <= clock + DayMs + tzOffset * MinuteMs
  {
    NextDayBoundary(clock) + tzOffset * MinuteMs
  }

  /** The fraction of the task's window that has elapsed at `ref`: zero when the
      window opens, one when it closes. */
  function Ratio(v: TaskView, ref: int): (r: real)
    requires v.end != v.start
    ensures ref == v.start ==> r == 0.0
    ensures ref == v.end ==> r == 1.0
  {
    var p, d := (ref - v.start) as real, (v.end - v.start) as real;
    assert p / d * d == p;
    p / d
  }

  /** For a window that opens before it closes, the ratio is negative exactly
      before the window, between zero and one inside it, and above one exactly
      after it. */
  lemma RatioLocatesInstant(v: TaskView, ref: int)
    requires v.start < v.end
    ensures Ratio(v, ref) < 0.0 <==> ref < v.start
    ensures Ratio(v, ref) > 1.0 <==> ref > v.end
    ensures v.start <= ref <= v.end <==> 0.0 <= Ratio(v, ref) <= 1.0
  {
    var p, d := (ref - v.start) as real, (v.end - v.start) as real;
    var r := Ratio(v, ref);
    assert r * d == p;
    assert (r - 1.0) * d == p - d;
    if r < 0.0 { assert r * d < 0.0; }
    if p < 0.0 { assert r < 0.0; }
    if r > 1.0 { assert (r - 1.0) * d > 0.0; }
    if p > d { assert r > 1.0; }
  }

  /** For windows that open before they close, comparing ratios is comparing
      the cross-multiplied integer quantities. */
  lemma RatioOrderCrossMultiplied(a: TaskView, b: TaskView, ref: int)
    requires a.start < a.end && b.start < b.end
    ensures Ratio(a, ref) >= Ratio(b, ref)
        <==> (ref - a.start) * (b.end - b.start) >= (ref - b.start) * (a.end - a.start)
  {
    var pa, pb := (ref - a.start) as real, (ref - b.start) as real;
    var da, db := (a.end - a.start) as real, (b.end - b.start) as real;
    assert da > 0.0 && db > 0.0;
    assert Ratio(a, ref) * da == pa;
    assert Ratio(b, ref) * db == pb;
    assert ((ref - a.start) * (b.end - b.start)) as real == pa * db;
    assert ((ref - b.start) * (a.end - a.start)) as real == pb * da;
    assert pa * db - pb * da == (Ratio(a, ref) - Ratio(b, ref)) * (da * db);
    assert da * db > 0.0;
  }

  /** Shifting a window and the reference instant by the same amount leaves the
      ratio as it was. */
  lemma RatioShiftInvariant(v: TaskView, ref: int, d: int)
    requires v.end != v.start
    ensures Ratio(v.(start := v.start + d, end := v.end + d), ref + d) == Ratio(v, ref)
  {
  }

  /** Every view has a window whose ratio is defined. */
  predicate Rankable(vs: seq<TaskView>) {
    forall v :: v in vs ==> v.end != v.start
  }

  /** Non-increasing ratio: the most urgent task first. */
  predicate RankedDesc(vs: seq<TaskView>, ref: int)
    requires Rankable(vs)
  {
    forall i, j :: 0 <= i < j < |vs| ==> Ratio(vs[i], ref) >= Ratio(vs[j], ref)
  }

  /** Puts `v` in front of the first element that is not more urgent than it. */
  function Place(v: TaskView, s: seq<TaskView>, ref: int): (r: seq<TaskView>)
    requires v.end != v.start && Rankable(s)
    ensures multiset(r) == multiset(s) + multiset{v}
    ensures forall x :: x in r <==> x == v || x in s
    decreases |s|
  {
    if s == [] || Ratio(v, ref) >= Ratio(s[0], ref) then [v] + s
    else
      assert s == [s[0]] + s[1..];
      [s[0]] + Place(v, s[1..], ref)
  }

  /** A ranked list stays ranked under an element at least as urgent as all of it. */
  lemma ConsKeepsRanked(x: TaskView, rest: seq<TaskView>, ref: int)
    requires x.end != x.start && Rankable(rest) && RankedDesc(rest, ref)
    requires forall y :: y in rest ==> Ratio(x, ref) >= Ratio(y, ref)
    ensures Rankable([x] + rest) && RankedDesc([x] + rest, ref)
  {
    var r := [x] + rest;
    forall i, j | 0 <= i < j < |r| ensures Ratio(r[i], ref) >= Ratio(r[j], ref) {
      assert r[j] == rest[j - 1];
      if i > 0 {
        assert r[i] == rest[i - 1];
      }
    }
  }

  /** Placing into a ranked list gives a ranked list. */
  lemma {:induction false} PlaceKeepsRanked(v: TaskView, s: seq<TaskView>, ref: int)
    requires v.end != v.start && Rankable(s) && RankedDesc(s, ref)
    ensures Rankable(Place(v, s, ref)) && RankedDesc(Place(v, s, ref), ref)
    decreases |s|
  {
    if s == [] || Ratio(v, ref) >= Ratio(s[0], ref) {
      forall y | y in s ensures Ratio(v, ref) >= Ratio(y, ref) {
        var k :| 0 <= k < |s| && s[k] == y;
      }
      ConsKeepsRanked(v, s, ref);
    } else {
      assert s == [s[0]] + s[1..];
      var rest := Place(v, s[1..], ref);
      PlaceKeepsRanked(v, s[1..], ref);
      forall x | x in rest ensures Ratio(s[0], ref) >= Ratio(x, ref) {
        if x != v {
          var k :| 0 <= k < |s[1..]| && s[1..][k] == x;
          assert s[k + 1] == x;
        }
      }
      ConsKeepsRanked(s[0], rest, ref);
    }
  }

  /** The comparator sort: a permutation of its input ordered by non-increasing
      ratio. */
  function Rank(vs: seq<TaskView>, ref: int): (r: seq<TaskView>)
    requires Rankable(vs)
    ensures multiset(r) == multiset(vs)
    ensures Rankable(r)
    ensures RankedDesc(r, ref)
    decreases |vs|
  {
    if vs == [] then []
    else
      assert vs == [vs[0]] + vs[1..];
      var rest := Rank(vs[1..], ref);
      PlaceKeepsRanked(vs[0], rest, ref);
      Place(vs[0], rest, ref)
  }

  /** Ranking an already ranked list changes nothing. */
  lemma {:induction false} RankOfRankedIsIdentity(vs: seq<TaskView>, ref: int)
    requires Rankable(vs) && RankedDesc(vs, ref)
    ensures Rank(vs, ref) == vs
  {
    if vs != [] {
      assert vs == [vs[0]] + vs[1..];
      assert Rankable(vs[1..]) && RankedDesc(vs[1..], ref);
      RankOfRankedIsIdentity(vs[1..], ref);
      assert vs[1..] == [] || Ratio(vs[0], ref) >= Ratio(vs[1..][0], ref);
    }
  }

  /** Running the ranking twice gives the order of running it once. */
  lemma RankIdempotent(vs: seq<TaskView>, ref: int)
    requires Rankable(vs)
    ensures Rank(Rank(vs, ref), ref) == Rank(vs, ref)
  {
    RankOfRankedIsIdentity(Rank(vs, ref), ref);
  }

  /** Two tasks of equal urgency stay in the order the collection returned them. */
  lemma RankKeepsTiedPair(a: TaskView, b: TaskView, ref: int)
    requires a.end != a.start && b.end != b.start
    requires Ratio(a, ref) == Ratio(b, ref)
    ensures Rank([a, b], ref) == [a, b]
  {
    assert [a, b][1..] == [b];
    assert [b][1..] == [];
  }

  lemma {:induction false} PlaceKeepsIdsDistinct(v: TaskView, s: seq<TaskView>, ref: int)
    requires v.end != v.start && Rankable(s)
    requires IdsDistinct(s) && forall x :: x in s ==> x.id != v.id
    ensures IdsDistinct(Place(v, s, ref))
    decreases |s|
  {
    if s != [] && Ratio(v, ref) < Ratio(s[0], ref) {
      assert s == [s[0]] + s[1..];
      PlaceKeepsIdsDistinct(v, s[1..], ref);
      var rest := Place(v, s[1..], ref);
      forall x | x in rest ensures x.id != s[0].id {
        if x != v {
          var k :| 0 <= k < |s[1..]| && s[1..][k] == x;
          assert s[k + 1] == x;
        }
      }
    }
  }

  /** Ranking never merges or duplicates records: distinct identifiers stay
      distinct. */
  lemma {:induction false} RankKeepsIdsDistinct(vs: seq<TaskView>, ref: int)
    requires Rankable(vs) && IdsDistinct(vs)
    ensures IdsDistinct(Rank(vs, ref))
    decreases |vs|
  {
    if vs != [] {
      assert vs == [vs[0]] + vs[1..];
      RankKeepsIdsDistinct(vs[1..], ref);
      var rest := Rank(vs[1..], ref);
      forall x | x in rest ensures x.id != vs[0].id {
        assert x in multiset(vs[1..]);
        var k :| 0 <= k < |vs[1..]| && vs[1..][k] == x;
        assert vs[k + 1] == x;
      }
      PlaceKeepsIdsDistinct(vs[0], rest, ref);
    }
  }
}
