/** UTC with leap seconds: `utc_clock` and `is_leap_second` of `Include/date/tz.h`, over any list
    of leap seconds. Times are counted in ticks, of which a second has `f`. `leaps[k]` is the system
    time, a whole second, right before which the `k`-th leap second was inserted. */
module LeapSeconds {
  import opened CppArith

  predicate LeapList(leaps: seq<int>, f: nat) {
    && f > 0 && WholeSeconds(leaps, f)
    && forall i, j :: 0 <= i < j < |leaps| ==> leaps[i] < leaps[j]
  }

  predicate WholeSeconds(leaps: seq<int>, f: nat)
    requires f > 0
  {
    forall i :: 0 <= i < |leaps| ==> leaps[i] % f == 0
  }

  /** `n` seconds, in ticks. */
  function Seconds(n: int, f: nat): int {
    n * f
  }

  /** `std::upper_bound(leaps.begin(), leaps.end(), t) - leaps.begin()`. */
  function UpperBound(leaps: seq<int>, t: int): (n: nat)
    ensures n <= |leaps|
    ensures forall i :: 0 <= i < n ==> leaps[i] <= t
    ensures n < |leaps| ==> leaps[n] > t
  {
    if leaps == [] || leaps[0] > t then 0 else 1 + UpperBound(leaps[1..], t)
  }

  function FromSys(leaps: seq<int>, f: nat, st: int): int {
    st + Seconds(UpperBound(leaps, st), f)
  }

  /** Whether `ut` lies in a leap second, and the seconds inserted so far. */
  function IsLeapSecond(leaps: seq<int>, f: nat, ut: int): (bool, int) {
    var n := UpperBound(leaps, ut);
    var tp := ut - Seconds(n, f);
    if n > 0 && tp < leaps[n - 1]
    then (if tp >= leaps[n - 1] - f then (true, n) else (false, n - 1))
    else (false, n)
  }

  function ToSys(leaps: seq<int>, f: nat, ut: int): int
    requires f > 0
  {
    var ls := IsLeapSecond(leaps, f, ut);
    var tp := ut - Seconds(ls.1, f);
    if ls.0 then Floor(tp, f) + f - 1 else tp
  }

  function Floor(tp: int, f: nat): int
    requires f > 0
  {
    tp / f * f
  }

  /** `ut` lies in the `k`-th inserted second. */
  predicate Inserted(leaps: seq<int>, f: nat, ut: int, k: int) {
    0 <= k < |leaps| && leaps[k] + Seconds(k, f) <= ut < leaps[k] + Seconds(k + 1, f)
  }

  /** Leap second `k + 1` comes at least `k + slack` seconds after leap second `k`. */
  predicate Spaced(leaps: seq<int>, f: nat, slack: int) {
    forall k :: 0 <= k < |leaps| - 1 ==> Gap(leaps, k) >= Seconds(k + slack, f)
  }

  function Gap(leaps: seq<int>, k: int): int
    requires 0 <= k < |leaps| - 1
  {
    leaps[k + 1] - leaps[k]
  }

  // ----- lists and seconds

  lemma SecondsAdd(m: int, n: int, f: nat)
    ensures Seconds(m + n, f) == Seconds(m, f) + Seconds(n, f)
    ensures Seconds(0, f) == 0 && Seconds(1, f) == f
    ensures m <= n ==> Seconds(m, f) <= Seconds(n, f)
  {}

  lemma WholeSecondsApart(a: int, b: int, f: nat)
    requires f > 0 && a % f == 0 && b % f == 0 && a < b
    ensures b - a >= f
  {
    var d := b / f - a / f;
    assert d * f == b - a;
    MulAtLeast(d, f);
    MulAtLeast(-d + 1, f);
    assert d <= 0 ==> d * f <= 0;
  }

  lemma {:induction false} Apart(leaps: seq<int>, f: nat, i: int, j: int)
    requires LeapList(leaps, f) && 0 <= i <= j < |leaps|
    ensures leaps[j] - leaps[i] >= Seconds(j - i, f)
    decreases j - i
  {
    if i < j {
      Apart(leaps, f, i, j - 1);
      WholeSecondsApart(leaps[j - 1], leaps[j], f);
      SecondsAdd(j - 1 - i, 1, f);
    }
  }

  /** The index between the last element not above `t` and the first above it. */
  lemma UpperBoundIs(leaps: seq<int>, f: nat, t: int, n: int)
    requires LeapList(leaps, f) && 0 <= n <= |leaps|
    requires n > 0 ==> leaps[n - 1] <= t
    requires n < |leaps| ==> leaps[n] > t
    ensures UpperBound(leaps, t) == n
  {}

  // ----- the round trip from system time

  lemma RoundTripAt(leaps: seq<int>, f: nat, st: int)
    requires LeapList(leaps, f)
    requires var m := UpperBound(leaps, st); m + 1 < |leaps| ==> leaps[m + 1] > st + Seconds(m, f)
    ensures ToSys(leaps, f, FromSys(leaps, f, st)) == st
    ensures !IsLeapSecond(leaps, f, FromSys(leaps, f, st)).0
  {
    hide Seconds, Floor, LeapList, UpperBound;
    var m := UpperBound(leaps, st);
    var ut := st + Seconds(m, f);
    SecondsAdd(m, 1, f);
    SecondsAdd(0, m, f);
    if m < |leaps| && leaps[m] <= ut {
      UpperBoundIs(leaps, f, ut, m + 1);
      assert IsLeapSecond(leaps, f, ut) == (false, m);
    } else {
      UpperBoundIs(leaps, f, ut, m);
    }
  }

  /** System time survives the trip to UTC and back exactly for the lists that keep this distance. */
  lemma RoundTripIffSpaced(leaps: seq<int>, f: nat)
    requires LeapList(leaps, f)
    ensures Spaced(leaps, f, 0) <==> forall st :: ToSys(leaps, f, FromSys(leaps, f, st)) == st
  {
    hide Seconds, ToSys, FromSys;
    if Spaced(leaps, f, 0) {
      forall st ensures ToSys(leaps, f, FromSys(leaps, f, st)) == st {
        var m := UpperBound(leaps, st);
        if m + 1 < |leaps| {
          assert Gap(leaps, m) >= Seconds(m, f);
        }
        RoundTripAt(leaps, f, st);
      }
    } else {
      var k :| 0 <= k < |leaps| - 1 && Gap(leaps, k) < Seconds(k, f);
      RoundTripFails(leaps, f, k);
    }
  }

  lemma CrowdedCount(leaps: seq<int>, f: nat, k: int, ut: int)
    requires LeapList(leaps, f) && 0 <= k < |leaps| - 1 && leaps[k + 1] <= ut < leaps[k] + Seconds(k + 1, f)
    ensures !IsLeapSecond(leaps, f, ut).0 && IsLeapSecond(leaps, f, ut).1 > k
  {
    hide Seconds;
    var n := UpperBound(leaps, ut);
    assert n >= k + 2;
    Apart(leaps, f, k, n - 1);
    SecondsAdd(k, n - 1 - k, f);
    SecondsAdd(n - 1, 1, f);
    SecondsAdd(k, 1, f);
    SecondsAdd(k + 1, n - 1, f);
  }

  /** The last tick before leap second `k` is mapped back too early when the next comes too soon. */
  lemma RoundTripFails(leaps: seq<int>, f: nat, k: int)
    requires LeapList(leaps, f) && 0 <= k < |leaps| - 1 && Gap(leaps, k) < Seconds(k, f)
    ensures ToSys(leaps, f, FromSys(leaps, f, leaps[k] - 1)) != leaps[k] - 1
  {
    hide Seconds;
    var st := leaps[k] - 1;
    UpperBoundIs(leaps, f, st, k);
    var ut := st + Seconds(k, f);
    SecondsAdd(k, 1, f);
    CrowdedCount(leaps, f, k, ut);
    SecondsAdd(k + 1, IsLeapSecond(leaps, f, ut).1, f);
  }

  // ----- the leap seconds themselves

  lemma InsertedIsLeap(leaps: seq<int>, f: nat, ut: int, k: int)
    requires LeapList(leaps, f) && Inserted(leaps, f, ut, k)
    requires k + 1 < |leaps| ==> leaps[k + 1] > ut
    ensures IsLeapSecond(leaps, f, ut) == (true, k + 1)
    ensures ToSys(leaps, f, ut) == leaps[k] - 1
  {
    hide Seconds, Floor;
    SecondsAdd(k, 1, f);
    SecondsAdd(0, k, f);
    UpperBoundIs(leaps, f, ut, k + 1);
    FloorBelow(leaps[k], ut - Seconds(k + 1, f), f);
  }

  lemma FloorBelow(a: int, tp: int, f: nat)
    requires f > 0 && a % f == 0 && a - f <= tp < a
    ensures Floor(tp, f) == a - f
  {
    assert a == a / f * f;
    assert (a / f - 1) * f == a - f;
    DivUnique(tp, f, a / f - 1);
  }

  /** `is_leap_second` is true exactly on the inserted seconds, for the lists that keep this distance
      and for no others. */
  lemma LeapFlagIffSpaced(leaps: seq<int>, f: nat)
    requires LeapList(leaps, f)
    ensures Spaced(leaps, f, 1) <==>
            forall ut :: IsLeapSecond(leaps, f, ut).0 <==> exists k :: Inserted(leaps, f, ut, k)
  {
    hide Seconds, IsLeapSecond, Inserted;
    if Spaced(leaps, f, 1) {
      forall ut ensures IsLeapSecond(leaps, f, ut).0 <==> exists k :: Inserted(leaps, f, ut, k) {
        LeapFlag(leaps, f, ut);
      }
    } else {
      var k :| 0 <= k < |leaps| - 1 && Gap(leaps, k) < Seconds(k + 1, f);
      LeapFlagFails(leaps, f, k);
    }
  }

  lemma LeapFlag(leaps: seq<int>, f: nat, ut: int)
    requires LeapList(leaps, f) && Spaced(leaps, f, 1)
    ensures IsLeapSecond(leaps, f, ut).0 <==> exists k :: Inserted(leaps, f, ut, k)
  {
    hide Seconds;
    if IsLeapSecond(leaps, f, ut).0 {
      var n := UpperBound(leaps, ut);
      SecondsAdd(n - 1, 1, f);
      assert Inserted(leaps, f, ut, n - 1);
    }
    if k :| Inserted(leaps, f, ut, k) {
      if k + 1 < |leaps| {
        assert Gap(leaps, k) >= Seconds(k + 1, f);
      }
      InsertedIsLeap(leaps, f, ut, k);
    }
  }

  lemma LeapFlagFails(leaps: seq<int>, f: nat, k: int)
    requires LeapList(leaps, f) && 0 <= k < |leaps| - 1 && Gap(leaps, k) < Seconds(k + 1, f)
    ensures exists ut :: Inserted(leaps, f, ut, k) && !IsLeapSecond(leaps, f, ut).0
  {
    hide Seconds, IsLeapSecond;
    SecondsAdd(k, 1, f);
    var ut := if leaps[k + 1] > leaps[k] + Seconds(k, f) then leaps[k + 1] else leaps[k] + Seconds(k, f);
    assert Inserted(leaps, f, ut, k);
    CrowdedCount(leaps, f, k, ut);
  }

  // ----- order

  /** Seconds inserted before `ut`, the one `ut` may lie in left out. */
  lemma Place(leaps: seq<int>, f: nat, ut: int) returns (k: int)
    requires LeapList(leaps, f) && Spaced(leaps, f, 1)
    ensures 0 <= k <= |leaps|
    ensures k > 0 ==> leaps[k - 1] + Seconds(k, f) <= ut
    ensures k < |leaps| ==> ut < leaps[k] + Seconds(k + 1, f)
    ensures k < |leaps| && leaps[k] + Seconds(k, f) <= ut ==> ToSys(leaps, f, ut) == leaps[k] - 1
    ensures k == |leaps| || ut < leaps[k] + Seconds(k, f) ==> ToSys(leaps, f, ut) == ut - Seconds(k, f)
  {
    hide Seconds, ToSys, IsLeapSecond, WholeSeconds;
    k := FirstAfter(leaps, f, ut, 0);
    if k < |leaps| && leaps[k] + Seconds(k, f) <= ut {
      if k + 1 < |leaps| {
        assert Gap(leaps, k) >= Seconds(k + 1, f);
      }
      InsertedIsLeap(leaps, f, ut, k);
    } else {
      var st := ut - Seconds(k, f);
      UpperBoundIs(leaps, f, st, k);
      if k + 1 < |leaps| {
        assert Gap(leaps, k) >= Seconds(k + 1, f);
        SecondsAdd(k, 1, f);
      }
      RoundTripAt(leaps, f, st);
    }
  }

  lemma FirstAfter(leaps: seq<int>, f: nat, ut: int, from: nat) returns (k: int)
    requires from <= |leaps| && (from > 0 ==> leaps[from - 1] + Seconds(from, f) <= ut)
    ensures from <= k <= |leaps|
    ensures k > 0 ==> leaps[k - 1] + Seconds(k, f) <= ut
    ensures k < |leaps| ==> ut < leaps[k] + Seconds(k + 1, f)
    decreases |leaps| - from
  {
    hide Seconds;
    if from == |leaps| || ut < leaps[from] + Seconds(from + 1, f) {
      k := from;
    } else {
      k := FirstAfter(leaps, f, ut, from + 1);
    }
  }

  /** `to_sys` keeps the order of times, through leap seconds too. */
  lemma ToSysMonotone(leaps: seq<int>, f: nat, s: int, t: int)
    requires LeapList(leaps, f) && Spaced(leaps, f, 1) && s <= t
    ensures ToSys(leaps, f, s) <= ToSys(leaps, f, t)
  {
    hide Seconds, ToSys, Spaced;
    var j := Place(leaps, f, s);
    var k := Place(leaps, f, t);
    if j > k {
      PlacesOrdered(leaps, f, k, j - 1);
    }
    SecondsAdd(k, 1, f);
    SecondsAdd(j, 1, f);
    if j < k {
      assert j == k - 1 || leaps[j] < leaps[k - 1];
    }
  }

  /** `to_sys` keeps the order of times exactly for these lists, unless times are whole seconds: then
      it does for all. */
  lemma MonotoneIffSpaced(leaps: seq<int>, f: nat)
    requires LeapList(leaps, f)
    ensures (f == 1 || Spaced(leaps, f, 1)) <==> forall s, t :: s <= t ==> ToSys(leaps, f, s) <= ToSys(leaps, f, t)
  {
    hide ToSys, LeapList, Gap;
    PositiveTicks(leaps, f);
    if f == 1 {
      forall s, t | s <= t ensures ToSys(leaps, f, s) <= ToSys(leaps, f, t) {
        WholeSecondsMonotone(leaps, s, t);
      }
    } else if Spaced(leaps, f, 1) {
      forall s, t | s <= t ensures ToSys(leaps, f, s) <= ToSys(leaps, f, t) {
        ToSysMonotone(leaps, f, s, t);
      }
    } else {
      var k :| 0 <= k < |leaps| - 1 && Gap(leaps, k) < Seconds(k + 1, f);
      OrderFails(leaps, f, k);
      assert leaps[k + 1] - 1 <= leaps[k + 1];
    }
  }

  lemma PositiveTicks(leaps: seq<int>, f: nat)
    requires LeapList(leaps, f)
    ensures f > 0
  {}

  /** The tick at which a leap second is entered too soon is mapped to an earlier time than the one
      before it. */
  lemma OrderFails(leaps: seq<int>, f: nat, k: int)
    requires LeapList(leaps, f) && 0 <= k < |leaps| - 1 && Gap(leaps, k) < Seconds(k + 1, f) && f > 1
    ensures ToSys(leaps, f, leaps[k + 1] - 1) > ToSys(leaps, f, leaps[k + 1])
  {
    hide Seconds, Floor;
    UpperBoundIs(leaps, f, leaps[k + 1] - 1, k + 1);
    UpperBoundIs(leaps, f, leaps[k + 1], k + 2);
    SecondsAdd(k, 1, f);
    SecondsAdd(k + 1, 1, f);
    SecondsAdd(0, k, f);
    WholeGap(leaps, f, k);
  }

  lemma WholeGap(leaps: seq<int>, f: nat, k: int)
    requires LeapList(leaps, f) && 0 <= k < |leaps| - 1 && Gap(leaps, k) < Seconds(k + 1, f)
    ensures Gap(leaps, k) <= Seconds(k, f)
  {
    hide LeapList;
    assert f > 0 && leaps[k] % f == 0 && leaps[k + 1] % f == 0 by { WholeEntries(leaps, f, k); }
    var d := leaps[k + 1] / f - leaps[k] / f;
    assert Gap(leaps, k) == d * f;
    MulAtLeast(d - k, f);
    assert (d - k) * f == d * f - k * f && Seconds(k + 1, f) == k * f + f;
  }

  lemma WholeEntries(leaps: seq<int>, f: nat, k: int)
    requires LeapList(leaps, f) && 0 <= k < |leaps| - 1
    ensures f > 0 && leaps[k] % f == 0 && leaps[k + 1] % f == 0
  {}

  lemma {:induction false} WholeSecondsMonotone(leaps: seq<int>, s: int, t: int)
    requires LeapList(leaps, 1) && s <= t
    ensures ToSys(leaps, 1, s) <= ToSys(leaps, 1, t)
    decreases t - s
  {
    hide ToSys;
    if s < t {
      WholeSecondStep(leaps, s);
      WholeSecondsMonotone(leaps, s + 1, t);
    }
  }

  lemma WholeSecondStep(leaps: seq<int>, s: int)
    requires LeapList(leaps, 1)
    ensures ToSys(leaps, 1, s) <= ToSys(leaps, 1, s + 1)
  {
    var n := UpperBound(leaps, s);
    if n < |leaps| && leaps[n] == s + 1 {
      UpperBoundIs(leaps, 1, s + 1, n + 1);
    } else {
      UpperBoundIs(leaps, 1, s + 1, n);
    }
  }

  lemma PlacesOrdered(leaps: seq<int>, f: nat, i: int, j: int)
    requires LeapList(leaps, f) && 0 <= i <= j < |leaps|
    ensures leaps[i] + Seconds(i + 1, f) <= leaps[j] + Seconds(j + 1, f)
  {
    hide Seconds;
    SecondsAdd(i + 1, j + 1, f);
  }

  /** Outside leap seconds the trip from UTC and back is exact too. */
  lemma FromSysOfToSys(leaps: seq<int>, f: nat, ut: int)
    requires LeapList(leaps, f) && Spaced(leaps, f, 1)
    ensures FromSys(leaps, f, ToSys(leaps, f, ut)) == ut <==> !IsLeapSecond(leaps, f, ut).0
  {
    hide Seconds, ToSys, IsLeapSecond, Spaced;
    var k := Place(leaps, f, ut);
    LeapFlag(leaps, f, ut);
    SecondsAdd(k, 1, f);
    if k < |leaps| && leaps[k] + Seconds(k, f) <= ut {
      assert Inserted(leaps, f, ut, k);
      UpperBoundIs(leaps, f, leaps[k] - 1, k);
    } else {
      UpperBoundIs(leaps, f, ut - Seconds(k, f), k);
      forall i ensures !Inserted(leaps, f, ut, i) {
        NotInserted(leaps, f, ut, k, i);
      }
    }
  }

  /** This, too, characterises the lists. */
  lemma UtcRoundTripIffSpaced(leaps: seq<int>, f: nat)
    requires LeapList(leaps, f)
    ensures Spaced(leaps, f, 1)
            <==> forall ut :: FromSys(leaps, f, ToSys(leaps, f, ut)) == ut <==> !IsLeapSecond(leaps, f, ut).0
  {
    hide ToSys, FromSys, IsLeapSecond, LeapList, Gap;
    PositiveTicks(leaps, f);
    if Spaced(leaps, f, 1) {
      forall ut ensures FromSys(leaps, f, ToSys(leaps, f, ut)) == ut <==> !IsLeapSecond(leaps, f, ut).0 {
        FromSysOfToSys(leaps, f, ut);
      }
    } else {
      var k :| 0 <= k < |leaps| - 1 && Gap(leaps, k) < Seconds(k + 1, f);
      UtcRoundTripFails(leaps, f, k);
    }
  }

  lemma Increasing(leaps: seq<int>, f: nat, k: int)
    requires LeapList(leaps, f) && 0 <= k < |leaps| - 1
    ensures leaps[k] < leaps[k + 1] && (k + 2 < |leaps| ==> leaps[k + 1] < leaps[k + 2])
  {}

  lemma UtcRoundTripFails(leaps: seq<int>, f: nat, k: int)
    requires LeapList(leaps, f) && 0 <= k < |leaps| - 1 && Gap(leaps, k) < Seconds(k + 1, f)
    ensures var ut := leaps[k + 1];
            FromSys(leaps, f, ToSys(leaps, f, ut)) != ut && !IsLeapSecond(leaps, f, ut).0
  {
    hide Seconds, Floor, UpperBound, LeapList;
    PositiveTicks(leaps, f);
    Increasing(leaps, f, k);
    UpperBoundIs(leaps, f, leaps[k + 1], k + 2);
    SecondsAdd(k, 1, f);
    SecondsAdd(k + 1, 1, f);
    SecondsAdd(0, k, f);
    WholeGap(leaps, f, k);
    var n := UpperBound(leaps, leaps[k + 1] - Seconds(k + 1, f));
    assert n <= k;
    SecondsAdd(n, k, f);
  }

  lemma NotInserted(leaps: seq<int>, f: nat, ut: int, k: int, i: int)
    requires LeapList(leaps, f) && 0 <= k <= |leaps|
    requires k > 0 ==> leaps[k - 1] + Seconds(k, f) <= ut
    requires k < |leaps| ==> ut < leaps[k] + Seconds(k, f)
    ensures !Inserted(leaps, f, ut, i)
  {
    hide Seconds;
    SecondsAdd(i, 1, f);
    if 0 <= i < k {
      PlacesOrdered(leaps, f, i, k - 1);
    } else {
      SecondsAdd(k, i, f);
    }
  }
}
