// The timer's delta list as a value: what its relative times mean as absolute deadlines, and when
// insertion keeps that meaning.

module Deadlines {
  import opened Words

  /** A sleeping thread and its time relative to the sleeper before it. */
  datatype Sleeper = Sleeper(tid: nat, rel: Word)

  /** A sleeping thread and the time it is due. */
  datatype Wake = Wake(tid: nat, at: nat)

  /** The deadlines a delta list denotes, counted from `base`. */
  function WakesFrom(ts: seq<Sleeper>, base: nat): (ws: seq<Wake>)
    ensures |ws| == |ts|
  {
    if ts == [] then [] else [Wake(ts[0].tid, base + ts[0].rel)] + WakesFrom(ts[1..], base + ts[0].rel)
  }

  function Wakes(ts: seq<Sleeper>): seq<Wake> { WakesFrom(ts, 0) }

  // ----- what add_to_sleep does -----

  /** The walk and the insertion after it; `sum` is the 64-bit running sum. */
  function InsertFrom(ts: seq<Sleeper>, delta: Word, tid: nat, sum: Word): seq<Sleeper>
    requires sum <= delta
  {
    if ts == [] || Add(sum, ts[0].rel) > delta then [Sleeper(tid, delta - sum)] + ts
    else [ts[0]] + InsertFrom(ts[1..], delta, tid, Add(sum, ts[0].rel))
  }

  /** The list after add_to_sleep: only an insertion at the head shortens the successor. */
  function Insert(ts: seq<Sleeper>, delta: Word, tid: nat): seq<Sleeper> {
    if ts == [] then [Sleeper(tid, delta)]
    else if ts[0].rel > delta then [Sleeper(tid, delta), Sleeper(ts[0].tid, ts[0].rel - delta)] + ts[1..]
    else InsertFrom(ts, delta, tid, 0)
  }

  // ----- what it should do -----

  /** Stable insertion into a sorted list of deadlines. */
  function Scheduled(ws: seq<Wake>, w: Wake): seq<Wake> {
    if ws == [] || ws[0].at > w.at then [w] + ws else [ws[0]] + Scheduled(ws[1..], w)
  }

  ghost predicate AllIn(ws: seq<Wake>, bound: nat) { forall w :: w in ws ==> w.at < bound }

  /** delta lies before all the deadlines ds, not before any of them, or on one of them. */
  ghost predicate Outside(ds: set<nat>, delta: nat) {
    (forall d :: d in ds ==> delta < d) || (forall d :: d in ds ==> d <= delta) || delta in ds
  }

  function Times(ws: seq<Wake>): set<nat> { set w | w in ws :: w.at }

  ghost predicate Harmless(ws: seq<Wake>, delta: nat) { Outside(Times(ws), delta) }

  ghost predicate HarmlessFrom(ws: seq<Wake>, delta: nat, sum: nat) {
    || delta == sum
    || (forall w :: w in ws ==> w.at <= delta)
    || (exists w :: w in ws && w.at == delta)
  }

  lemma WakesOf(ts: seq<Sleeper>, base: nat)
    requires ts != []
    ensures var at := base + ts[0].rel;
            && WakesFrom(ts, base) == [Wake(ts[0].tid, at)] + WakesFrom(ts[1..], at)
            && WakesFrom(ts, base)[1..] == WakesFrom(ts[1..], at)
  {
  }

  lemma InsertFromStep(ts: seq<Sleeper>, delta: Word, tid: nat, sum: Word)
    requires ts != [] && sum <= delta && sum + ts[0].rel < SPACE
    ensures var at := sum + ts[0].rel;
            InsertFrom(ts, delta, tid, sum) ==
            if at > delta then [Sleeper(tid, delta - sum)] + ts else [ts[0]] + InsertFrom(ts[1..], delta, tid, at)
  {
  }

  lemma ScheduledStep(ws: seq<Wake>, w: Wake)
    requires ws != []
    ensures Scheduled(ws, w) == if ws[0].at > w.at then [w] + ws else [ws[0]] + Scheduled(ws[1..], w)
  {
  }

  lemma IntoNothing(delta: Word, tid: nat, sum: Word)
    requires sum <= delta
    ensures WakesFrom(InsertFrom([], delta, tid, sum), sum) == Scheduled(WakesFrom([], sum), Wake(tid, delta))
    ensures HarmlessFrom(WakesFrom([], sum), delta, sum)
  {
  }

  lemma {:induction false} WalkExact(ts: seq<Sleeper>, delta: Word, tid: nat, sum: Word)
    requires sum <= delta && AllIn(WakesFrom(ts, sum), SPACE)
    ensures WakesFrom(InsertFrom(ts, delta, tid, sum), sum) == Scheduled(WakesFrom(ts, sum), Wake(tid, delta))
            <==> HarmlessFrom(WakesFrom(ts, sum), delta, sum)
  {
    hide *;
    var ws := WakesFrom(ts, sum);
    Bounded(ws);
    if ts == [] {
      IntoNothing(delta, tid, sum);
    } else {
      var at := sum + ts[0].rel;
      var rest := WakesFrom(ts[1..], at);
      WakesOf(ts, sum);
      InsertFromStep(ts, delta, tid, sum);
      ScheduledStep(ws, Wake(tid, delta));
      if at > delta {
        StopExact(ts, delta, tid, sum);
      } else {
        var walked := InsertFrom(ts[1..], delta, tid, at);
        WalkExact(ts[1..], delta, tid, at);
        PassOn(ws, rest, delta, sum, at);
        Passed(ts[0], walked, sum);
        SamePrefix(ws[0], WakesFrom(walked, at), Scheduled(rest, Wake(tid, delta)));
      }
    }
  }

  lemma Bounded(ws: seq<Wake>)
    requires AllIn(ws, SPACE)
    ensures ws != [] ==> ws[0].at < SPACE && AllIn(ws[1..], SPACE)
  {
    assert ws != [] ==> ws[0] in ws;
  }

  lemma Passed(t: Sleeper, walked: seq<Sleeper>, sum: nat)
    ensures WakesFrom([t] + walked, sum) == [Wake(t.tid, sum + t.rel)] + WakesFrom(walked, sum + t.rel)
  {
    assert ([t] + walked)[1..] == walked;
  }

  /** Where the walk stops the rest of the list is counted from the new deadline. */
  lemma StopExact(ts: seq<Sleeper>, delta: Word, tid: nat, sum: Word)
    requires ts != [] && sum <= delta < sum + ts[0].rel
    ensures WakesFrom([Sleeper(tid, delta - sum)] + ts, sum) == [Wake(tid, delta)] + WakesFrom(ts, delta)
    ensures WakesFrom([Sleeper(tid, delta - sum)] + ts, sum) == [Wake(tid, delta)] + WakesFrom(ts, sum)
            <==> HarmlessFrom(WakesFrom(ts, sum), delta, sum)
  {
    hide *;
    Passed(Sleeper(tid, delta - sum), ts, sum);
    SamePrefix(Wake(tid, delta), WakesFrom(ts, delta), WakesFrom(ts, sum));
    WakesOf(ts, delta);
    WakesOf(ts, sum);
    StopHarms(ts, delta, sum);
  }

  lemma StopHarms(ts: seq<Sleeper>, delta: nat, sum: nat)
    requires ts != [] && sum <= delta < sum + ts[0].rel
    ensures HarmlessFrom(WakesFrom(ts, sum), delta, sum) <==> delta == sum
  {
    var ws, at := WakesFrom(ts, sum), sum + ts[0].rel;
    assert ws[0] == Wake(ts[0].tid, at) && ws[0] in ws;
    WakesSorted(ts[1..], at);
    assert forall w :: w in ws ==> w == ws[0] || w in WakesFrom(ts[1..], at);
  }

  lemma SamePrefix(w: Wake, a: seq<Wake>, b: seq<Wake>)
    ensures [w] + a == [w] + b <==> a == b
  {
    assert ([w] + a)[1..] == a && ([w] + b)[1..] == b;
  }

  lemma PassOn(ws: seq<Wake>, rest: seq<Wake>, delta: nat, sum: nat, at: nat)
    requires sum <= at <= delta && |ws| > 0 && ws[0].at == at && ws == [ws[0]] + rest
    ensures HarmlessFrom(ws, delta, sum) <==> HarmlessFrom(rest, delta, at)
  {
    assert ws[0] in ws;
    assert forall w :: w in ws <==> w == ws[0] || w in rest;
  }

  lemma {:induction false} WakesSorted(ts: seq<Sleeper>, base: nat)
    ensures forall w :: w in WakesFrom(ts, base) ==> w.at >= base
  {
    if ts != [] { WakesSorted(ts[1..], base + ts[0].rel); }
  }

  /**
   * Insertion denotes stable insertion into the sorted deadlines, every other deadline kept,
   * exactly when the new deadline lies before, after or on the others.
   */
  lemma InsertExact(ts: seq<Sleeper>, delta: Word, tid: nat)
    requires AllIn(Wakes(ts), SPACE)
    ensures Wakes(Insert(ts, delta, tid)) == Scheduled(Wakes(ts), Wake(tid, delta)) <==> Harmless(Wakes(ts), delta)
  {
    if ts != [] {
      var rest := WakesFrom(ts[1..], ts[0].rel);
      assert Wakes(ts) == [Wake(ts[0].tid, ts[0].rel)] + rest && Wakes(ts)[0] in Wakes(ts);
      WakesSorted(ts[1..], ts[0].rel);
      if ts[0].rel > delta {
        var new_ := Insert(ts, delta, tid);
        assert new_[1..] == [Sleeper(ts[0].tid, ts[0].rel - delta)] + ts[1..] && new_[1..][1..] == ts[1..];
        assert WakesFrom(new_[1..], delta) == Wakes(ts);
        assert Wakes(new_) == [Wake(tid, delta)] + Wakes(ts);
        assert forall w :: w in Wakes(ts) ==> w == Wakes(ts)[0] || w in rest;
      } else {
        HeadPassed(Wakes(ts), delta);
        WalkExact(ts, delta, tid, 0);
      }
    }
  }

  lemma HeadPassed(ws: seq<Wake>, delta: nat)
    requires |ws| > 0 && ws[0].at <= delta
    ensures Harmless(ws, delta) <==> HarmlessFrom(ws, delta, 0)
  {
    assert ws[0] in ws && ws[0].at in Times(ws);
    assert forall w :: w in ws ==> w.at in Times(ws);
  }

  /** A deadline between two others makes every later sleeper late. */
  lemma MiddleIsLate()
    ensures var ts := [Sleeper(1, 10), Sleeper(2, 20)];
            Wakes(ts) == [Wake(1, 10), Wake(2, 30)] &&
            Wakes(Insert(ts, 15, 3)) == [Wake(1, 10), Wake(3, 15), Wake(2, 35)]
  {
    var ts := [Sleeper(1, 10), Sleeper(2, 20)];
    assert ts[1..] == [Sleeper(2, 20)] && ts[1..][1..] == [];
    assert WakesFrom([Sleeper(2, 20)], 10) == [Wake(2, 30)];
    assert WakesFrom([Sleeper(2, 20)], 15) == [Wake(2, 35)];
    var mid := [Sleeper(3, 5), Sleeper(2, 20)];
    assert mid[1..] == [Sleeper(2, 20)];
    assert InsertFrom(ts[1..], 15, 3, 10) == mid;
    assert WakesFrom(mid, 10) == [Wake(3, 15), Wake(2, 35)];
    var new_ := [Sleeper(1, 10), Sleeper(3, 5), Sleeper(2, 20)];
    assert Insert(ts, 15, 3) == new_ && new_[1..] == mid;
  }

  // ----- the whole history of a list -----

  /** Thread tid asks at time `at` to be woken `delta` ticks later. */
  datatype Request = Request(tid: nat, delta: Word, at: nat)

  /** The list after these requests, none of them due yet. */
  function AddAll(rs: seq<Request>): seq<Sleeper> {
    if rs == [] then [] else Insert(AddAll(rs[..|rs| - 1]), rs[|rs| - 1].delta, rs[|rs| - 1].tid)
  }

  /** The requests sorted by their deltas, equal ones in order of arrival. */
  function SortDeltas(rs: seq<Request>): seq<Wake> {
    if rs == [] then []
    else Scheduled(SortDeltas(rs[..|rs| - 1]), Wake(rs[|rs| - 1].tid, rs[|rs| - 1].delta))
  }

  /** The deadlines asked for by the first j requests. */
  function Deltas(rs: seq<Request>, j: nat): set<nat>
    requires j <= |rs|
  {
    set i | 0 <= i < j :: rs[i].delta
  }

  /** Request j lies before, after or on the requests made before it. */
  ghost predicate Extremal(rs: seq<Request>, j: nat)
    requires j < |rs|
  {
    Outside(Deltas(rs, j), rs[j].delta)
  }

  function Total(ws: seq<Wake>): nat { if ws == [] then 0 else ws[0].at + Total(ws[1..]) }

  function Asked(rs: seq<Request>): nat { if rs == [] then 0 else Asked(rs[..|rs| - 1]) + rs[|rs| - 1].delta }

  lemma {:induction false} ScheduledTotal(ws: seq<Wake>, w: Wake)
    ensures Total(Scheduled(ws, w)) == Total(ws) + w.at
  {
    if ws == [] || ws[0].at > w.at {
      assert Scheduled(ws, w)[1..] == ws;
    } else {
      ScheduledTotal(ws[1..], w);
      assert Scheduled(ws, w)[1..] == Scheduled(ws[1..], w);
    }
  }

  lemma {:induction false} ScheduledHolds(ws: seq<Wake>, w: Wake)
    ensures forall x :: x in Scheduled(ws, w) <==> x == w || x in ws
  {
    if ws == [] || ws[0].at > w.at {
    } else {
      ScheduledHolds(ws[1..], w);
      assert ws == [ws[0]] + ws[1..];
      assert forall x :: x in ws <==> x == ws[0] || x in ws[1..];
    }
  }

  lemma {:induction false} LaterTotal(ts: seq<Sleeper>, base: nat, later: nat)
    requires base <= later
    ensures Total(WakesFrom(ts, base)) <= Total(WakesFrom(ts, later))
    decreases |ts|
  {
    if ts != [] { LaterTotal(ts[1..], base + ts[0].rel, later + ts[0].rel); }
  }

  /** Wherever the walk stops, even after the running sum wrapped, nobody becomes earlier. */
  lemma {:induction false} WalkTotal(ts: seq<Sleeper>, delta: Word, tid: nat, sum: Word, base: nat)
    requires sum <= delta && sum <= base
    ensures Total(WakesFrom(InsertFrom(ts, delta, tid, sum), base)) >= Total(WakesFrom(ts, base)) + delta
  {
    hide Total, WakesFrom;
    if ts == [] || Add(sum, ts[0].rel) > delta {
      Passed(Sleeper(tid, delta - sum), ts, base);
      LaterTotal(ts, base, base + (delta - sum));
      TotalOf(Wake(tid, base + (delta - sum)), WakesFrom(ts, base + (delta - sum)));
    } else {
      var walked, next := InsertFrom(ts[1..], delta, tid, Add(sum, ts[0].rel)), base + ts[0].rel;
      WalkTotal(ts[1..], delta, tid, Add(sum, ts[0].rel), next);
      assert ts == [ts[0]] + ts[1..];
      Passed(ts[0], walked, base);
      Passed(ts[0], ts[1..], base);
      TotalOf(Wake(ts[0].tid, next), WakesFrom(walked, next));
      TotalOf(Wake(ts[0].tid, next), WakesFrom(ts[1..], next));
    }
  }

  lemma InsertTotal(ts: seq<Sleeper>, delta: Word, tid: nat)
    ensures Total(Wakes(Insert(ts, delta, tid))) >= Total(Wakes(ts)) + delta
  {
    if ts != [] && ts[0].rel > delta {
      var new_ := Insert(ts, delta, tid);
      assert new_[1..] == [Sleeper(ts[0].tid, ts[0].rel - delta)] + ts[1..] && new_[1..][1..] == ts[1..];
      assert WakesFrom(new_[1..], delta) == Wakes(ts);
      assert Wakes(new_)[1..] == Wakes(ts);
    } else if ts != [] {
      WalkTotal(ts, delta, tid, 0, 0);
    }
  }

  lemma HarmfulFacts(ws: seq<Wake>, delta: nat, sum: nat)
    requires !HarmlessFrom(ws, delta, sum) && AllIn(ws, SPACE)
    ensures ws != [] && delta != sum && ws[0].at < SPACE && AllIn(ws[1..], SPACE)
  {
    assert ws != [] ==> ws[0] in ws;
  }

  /** A harmful insertion pushes some deadline back. */
  lemma {:induction false} WalkLate(ts: seq<Sleeper>, delta: Word, tid: nat, sum: Word)
    requires sum <= delta && AllIn(WakesFrom(ts, sum), SPACE) && !HarmlessFrom(WakesFrom(ts, sum), delta, sum)
    ensures Total(WakesFrom(InsertFrom(ts, delta, tid, sum), sum)) > Total(WakesFrom(ts, sum)) + delta
  {
    hide *;
    var ws := WakesFrom(ts, sum);
    HarmfulFacts(ws, delta, sum);
    var at := sum + ts[0].rel;
    var rest := WakesFrom(ts[1..], at);
    WakesOf(ts, sum);
    InsertFromStep(ts, delta, tid, sum);
    TotalOf(Wake(ts[0].tid, at), rest);
    if at > delta {
      StopExact(ts, delta, tid, sum);
      LaterTotal(ts[1..], at, delta + ts[0].rel);
      WakesOf(ts, delta);
      TotalOf(Wake(tid, delta), WakesFrom(ts, delta));
      TotalOf(Wake(ts[0].tid, delta + ts[0].rel), WakesFrom(ts[1..], delta + ts[0].rel));
    } else {
      var walked := InsertFrom(ts[1..], delta, tid, at);
      PassOn(ws, rest, delta, sum, at);
      WalkLate(ts[1..], delta, tid, at);
      Passed(ts[0], walked, sum);
      TotalOf(Wake(ts[0].tid, at), WakesFrom(walked, at));
    }
  }

  lemma TotalOf(w: Wake, ws: seq<Wake>)
    ensures Total([w] + ws) == w.at + Total(ws)
  {
    assert ([w] + ws)[1..] == ws;
  }

  lemma InsertLate(ts: seq<Sleeper>, delta: Word, tid: nat)
    requires AllIn(Wakes(ts), SPACE) && !Harmless(Wakes(ts), delta)
    ensures Total(Wakes(Insert(ts, delta, tid))) > Total(Wakes(ts)) + delta
  {
    if ts != [] {
      assert Wakes(ts) == [Wake(ts[0].tid, ts[0].rel)] + WakesFrom(ts[1..], ts[0].rel) && Wakes(ts)[0] in Wakes(ts);
      WakesSorted(ts[1..], ts[0].rel);
      assert forall w :: w in Wakes(ts) ==> w == Wakes(ts)[0] || w in WakesFrom(ts[1..], ts[0].rel);
      WalkLate(ts, delta, tid, 0);
    }
  }

  lemma {:induction false} SortDeltasTotal(rs: seq<Request>)
    ensures Total(SortDeltas(rs)) == Asked(rs)
  {
    if rs != [] {
      var k := |rs| - 1;
      SortDeltasTotal(rs[..k]);
      ScheduledTotal(SortDeltas(rs[..k]), Wake(rs[k].tid, rs[k].delta));
    }
  }

  lemma ExtremalIsHarmless(rs: seq<Request>)
    requires |rs| > 0
    ensures Extremal(rs, |rs| - 1) <==> Harmless(SortDeltas(rs[..|rs| - 1]), rs[|rs| - 1].delta)
    ensures AllIn(SortDeltas(rs[..|rs| - 1]), SPACE)
  {
    hide SortDeltas, Outside;
    SortDeltasTimes(rs[..|rs| - 1]);
    SameDeltas(rs, rs[..|rs| - 1], |rs| - 1);
  }

  lemma SameDeltas(rs: seq<Request>, before: seq<Request>, j: nat)
    requires j <= |rs| && j <= |before| && rs[..j] == before[..j]
    ensures Deltas(rs, j) == Deltas(before, j)
  {
    forall i | 0 <= i < j ensures rs[i] == before[i] { assert rs[..j][i] == before[..j][i]; }
  }

  lemma {:induction false} SortDeltasTimes(rs: seq<Request>)
    ensures Times(SortDeltas(rs)) == Deltas(rs, |rs|) && AllIn(SortDeltas(rs), SPACE)
  {
    if rs != [] {
      var k := |rs| - 1;
      var ws, w := SortDeltas(rs[..k]), Wake(rs[k].tid, rs[k].delta);
      SortDeltasTimes(rs[..k]);
      ScheduledHolds(ws, w);
      SameDeltas(rs, rs[..k], k);
      ScheduledTimes(ws, w);
      assert Deltas(rs, k + 1) == Deltas(rs, k) + {rs[k].delta};
    }
  }

  lemma ScheduledTimes(ws: seq<Wake>, w: Wake)
    ensures Times(Scheduled(ws, w)) == Times(ws) + {w.at}
  {
    ScheduledHolds(ws, w);
    assert w in Scheduled(ws, w);
  }

  /**
   * For requests made at one instant: the list is their stable sort if and only if no request fell
   * strictly between two earlier ones.
   */
  lemma {:induction false} InstantExact(rs: seq<Request>)
    ensures Wakes(AddAll(rs)) == SortDeltas(rs) <==> forall j :: 0 <= j < |rs| ==> Extremal(rs, j)
    ensures Wakes(AddAll(rs)) != SortDeltas(rs) ==> Total(Wakes(AddAll(rs))) > Asked(rs)
  {
    hide AllIn, Outside, Extremal, Harmless, Total, Scheduled;
    if rs != [] {
      var k := |rs| - 1;
      var before, r := rs[..k], rs[k];
      InstantExact(before);
      SortDeltasTotal(rs);
      SortDeltasTotal(before);
      assert forall j :: 0 <= j < k ==> (Extremal(rs, j) <==> Extremal(before, j)) by { SameBefore(rs); }
      InsertTotal(AddAll(before), r.delta, r.tid);
      ExtremalIsHarmless(rs);
      if Wakes(AddAll(before)) == SortDeltas(before) {
        InsertExact(AddAll(before), r.delta, r.tid);
        if !Harmless(SortDeltas(before), r.delta) { InsertLate(AddAll(before), r.delta, r.tid); }
      }
    }
  }

  lemma SameBefore(rs: seq<Request>)
    requires |rs| > 0
    ensures forall j :: 0 <= j < |rs| - 1 ==> (Extremal(rs, j) <==> Extremal(rs[..|rs| - 1], j))
  {
    hide Outside;
    forall j | 0 <= j < |rs| - 1 ensures Extremal(rs, j) <==> Extremal(rs[..|rs| - 1], j) {
      SameDeltas(rs, rs[..|rs| - 1], j);
    }
  }

  // ----- the interrupt the timer is set to -----

  /** The timer after these requests: only an insertion at the head of a list sets it. */
  function TimerAfter(rs: seq<Request>, set_: Word): Word {
    if rs == [] then set_
    else
      var before, r := rs[..|rs| - 1], rs[|rs| - 1];
      if AddAll(before) != [] && AddAll(before)[0].rel > r.delta then r.delta else TimerAfter(before, set_)
  }

  ghost predicate Sooner(rs: seq<Request>, j: nat) { 0 < j < |rs| && rs[j].delta < rs[0].delta }

  lemma InsertHead(ts: seq<Sleeper>, delta: Word, tid: nat)
    ensures var out := Insert(ts, delta, tid);
            out != [] && out[0].rel == if ts == [] || ts[0].rel > delta then delta else ts[0].rel
  {
  }

  lemma {:induction false} HeadIsEarliest(rs: seq<Request>)
    requires rs != []
    ensures AddAll(rs) != []
    ensures forall i :: 0 <= i < |rs| ==> AddAll(rs)[0].rel <= rs[i].delta
    ensures AddAll(rs)[0].rel == rs[0].delta || exists j :: Sooner(rs, j)
  {
    hide Insert;
    var k := |rs| - 1;
    var before := rs[..k];
    InsertHead(AddAll(before), rs[k].delta, rs[k].tid);
    if before != [] {
      HeadIsEarliest(before);
      assert before[0] == rs[0];
      EarliestStep(before, rs, AddAll(before)[0].rel, AddAll(rs)[0].rel);
    } else {
      assert AddAll(before) == [];
    }
  }

  /** The minimum, one request later. */
  lemma EarliestStep(before: seq<Request>, rs: seq<Request>, was: Word, now: Word)
    requires |rs| > 1 && before == rs[..|rs| - 1] && now == if was > rs[|rs| - 1].delta then rs[|rs| - 1].delta else was
    requires forall i :: 0 <= i < |before| ==> was <= before[i].delta
    requires was == rs[0].delta || exists j :: Sooner(before, j)
    ensures forall i :: 0 <= i < |rs| ==> now <= rs[i].delta
    ensures now == rs[0].delta || exists j :: Sooner(rs, j)
  {
    var k := |rs| - 1;
    forall i | 0 <= i < |rs| ensures now <= rs[i].delta { if i < k { assert before[i] == rs[i]; } }
    if was > rs[k].delta {
      assert before[0] == rs[0];
      if rs[k].delta != rs[0].delta { assert Sooner(rs, k); }
    } else if j: nat :| Sooner(before, j) {
      assert Sooner(rs, j);
    }
  }

  /**
   * The timer is set for the earliest sleeper exactly when it already was, or when someone
   * earlier came after the first: sleeping alone never sets it.
   */
  lemma {:induction false} TimerExact(rs: seq<Request>, set_: Word)
    requires rs != []
    ensures AddAll(rs) != []
    ensures TimerAfter(rs, set_) == AddAll(rs)[0].rel <==> (exists j :: Sooner(rs, j)) || set_ == rs[0].delta
  {
    var k := |rs| - 1;
    var before := rs[..k];
    HeadIsEarliest(rs);
    if before == [] {
      assert AddAll(before) == [];
    } else {
      TimerExact(before, set_);
      HeadIsEarliest(before);
      assert before[0] == rs[0];
      if AddAll(before)[0].rel > rs[k].delta {
        assert Sooner(rs, k);
      } else {
        assert forall j :: Sooner(before, j) ==> Sooner(rs, j);
        if j: nat :| Sooner(rs, j) {
          if j < k { assert Sooner(before, j); }
        }
      }
    }
  }

  // ----- what the interrupt owes -----

  /** The sleepers due together with the first. */
  function DueNow(ts: seq<Sleeper>): (n: nat)
    ensures n <= |ts|
  {
    if |ts| < 2 || ts[1].rel != 0 then (if ts == [] then 0 else 1) else 1 + DueNow(ts[1..])
  }

  /** DueNow counts exactly the sleepers with the first deadline. */
  lemma {:induction false} DueNowMeaning(ts: seq<Sleeper>, base: nat, i: nat)
    requires i < |ts|
    ensures i < DueNow(ts) <==> WakesFrom(ts, base)[i].at == WakesFrom(ts, base)[0].at
  {
    if i > 0 {
      var ws := WakesFrom(ts, base);
      var b := base + ts[0].rel;
      var rest := WakesFrom(ts[1..], b);
      assert ws[i] == rest[i - 1] && ts[1..][0] == ts[1];
      if ts[1].rel == 0 {
        DueNowMeaning(ts[1..], b, i - 1);
      } else {
        WakesSorted(ts[1..][1..], b + ts[1].rel);
        assert rest == [Wake(ts[1].tid, b + ts[1].rel)] + WakesFrom(ts[1..][1..], b + ts[1].rel);
        if i > 1 { assert rest[i - 1] in WakesFrom(ts[1..][1..], b + ts[1].rel); }
      }
    }
  }

  function Tids(ts: seq<Sleeper>): (r: seq<nat>)
    ensures |r| == |ts|
  {
    seq(|ts|, i requires 0 <= i < |ts| => ts[i].tid)
  }

  /** Whom the interrupt owes to wake. */
  function DueTids(ts: seq<Sleeper>): seq<nat> { Tids(ts[..DueNow(ts)]) }

  /** Everybody but those due keeps the time at which he is due, counted on from the interrupt. */
  lemma {:induction false} RestKeepsTimes(ts: seq<Sleeper>, base: nat)
    requires ts != []
    ensures WakesFrom(ts, base)[DueNow(ts)..] == WakesFrom(ts[DueNow(ts)..], base + ts[0].rel)
  {
    var ws, b := WakesFrom(ts, base), base + ts[0].rel;
    assert ws[1..] == WakesFrom(ts[1..], b);
    if |ts| > 1 && ts[1].rel == 0 {
      var n := DueNow(ts[1..]);
      RestKeepsTimes(ts[1..], b);
      assert ws[n + 1..] == ws[1..][n..] && ts[n + 1..] == ts[1..][n..];
    }
  }
}
