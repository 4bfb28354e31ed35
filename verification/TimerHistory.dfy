// Histories of requests to sleep, made at different times: when every thread is due at the time
// it asked for.

module TimerHistory {
  import opened Words
  import opened Deadlines

  /** What the thread asked for. */
  function Wanted(r: Request): Wake { Wake(r.tid, r.at + r.delta) }

  /** All requests sorted by the time asked for, equal ones in order of arrival. */
  function SortAll(rs: seq<Request>): seq<Wake> {
    if rs == [] then [] else Scheduled(SortAll(rs[..|rs| - 1]), Wanted(rs[|rs| - 1]))
  }

  /** Whether the request is put before all others. */
  predicate AtHead(ts: seq<Sleeper>, delta: Word) { ts == [] || ts[0].rel > delta }

  /**
   * The time the list counts from.  It is the time of the last insertion at the head, which sets the
   * timer anew without regard to the time gone by.
   */
  function BaseOf(rs: seq<Request>): nat {
    if rs == [] then 0
    else
      var before, r := rs[..|rs| - 1], rs[|rs| - 1];
      if AtHead(AddAll(before), r.delta) then r.at else BaseOf(before)
  }

  /** When each thread is due. */
  function DueAll(rs: seq<Request>): seq<Wake> { WakesFrom(AddAll(rs), BaseOf(rs)) }

  /** Requests come in order of time. */
  ghost predicate Ordered(rs: seq<Request>) { forall i, j :: 0 <= i <= j < |rs| ==> rs[i].at <= rs[j].at }

  /** Nobody is due before a later request is made. */
  ghost predicate Pending(rs: seq<Request>) {
    forall j :: 0 < j < |rs| ==> NotDueYet(rs[..j], rs[j].at)
  }

  ghost predicate NotDueYet(rs: seq<Request>, now: nat) {
    AddAll(rs) != [] && now <= BaseOf(rs) + AddAll(rs)[0].rel
  }

  /** A thread asks while it runs, so it is not waiting already. */
  ghost predicate Distinct(rs: seq<Request>) { forall i, j :: 0 <= i < j < |rs| ==> rs[i].tid != rs[j].tid }

  /** All requests are made at one instant. */
  ghost predicate AtOnce(rs: seq<Request>) { forall i :: 0 <= i < |rs| ==> rs[i].at == rs[0].at }

  // ----- requests at one instant -----

  function Shift(ws: seq<Wake>, t: nat): (r: seq<Wake>)
    ensures |r| == |ws|
  {
    if ws == [] then [] else [Wake(ws[0].tid, ws[0].at + t)] + Shift(ws[1..], t)
  }

  lemma ShiftHead(ws: seq<Wake>, t: nat)
    requires ws != []
    ensures Shift(ws, t)[0] == Wake(ws[0].tid, ws[0].at + t) && Shift(ws, t)[1..] == Shift(ws[1..], t)
  {
  }

  lemma {:induction false} ShiftInjective(a: seq<Wake>, b: seq<Wake>, t: nat)
    ensures Shift(a, t) == Shift(b, t) <==> a == b
  {
    hide Shift;
    if a != [] && b != [] {
      ShiftInjective(a[1..], b[1..], t);
      ShiftHead(a, t);
      ShiftHead(b, t);
      if Shift(a, t) == Shift(b, t) {
        assert a == [a[0]] + a[1..] && b == [b[0]] + b[1..];
      }
    }
  }

  lemma {:induction false} WakesShift(ts: seq<Sleeper>, b: nat, t: nat)
    ensures WakesFrom(ts, b + t) == Shift(WakesFrom(ts, b), t)
  {
    if ts != [] {
      WakesShift(ts[1..], b + ts[0].rel, t);
      assert WakesFrom(ts, b)[1..] == WakesFrom(ts[1..], b + ts[0].rel);
    }
  }

  lemma {:induction false} ScheduledShift(ws: seq<Wake>, w: Wake, t: nat)
    ensures Scheduled(Shift(ws, t), Wake(w.tid, w.at + t)) == Shift(Scheduled(ws, w), t)
  {
    if ws == [] || ws[0].at > w.at {
      assert ([w] + ws)[1..] == ws;
    } else {
      ScheduledShift(ws[1..], w, t);
      assert Shift(ws, t)[1..] == Shift(ws[1..], t);
      assert ([ws[0]] + Scheduled(ws[1..], w))[1..] == Scheduled(ws[1..], w);
    }
  }

  lemma {:induction false} SortShift(rs: seq<Request>, t: nat)
    requires forall i :: 0 <= i < |rs| ==> rs[i].at == t
    ensures SortAll(rs) == Shift(SortDeltas(rs), t)
  {
    if rs != [] {
      var r := rs[|rs| - 1];
      SortShift(rs[..|rs| - 1], t);
      ScheduledShift(SortDeltas(rs[..|rs| - 1]), Wake(r.tid, r.delta), t);
    }
  }

  lemma {:induction false} BaseAtOnce(rs: seq<Request>, t: nat)
    requires rs != [] && forall i :: 0 <= i < |rs| ==> rs[i].at == t
    ensures BaseOf(rs) == t
  {
    if |rs| > 1 { BaseAtOnce(rs[..|rs| - 1], t); } else { assert AddAll(rs[..0]) == []; }
  }

  lemma AtOnceExact(rs: seq<Request>)
    requires rs != [] && AtOnce(rs)
    ensures DueAll(rs) == SortAll(rs) <==> forall j :: 0 <= j < |rs| ==> Extremal(rs, j)
  {
    hide Extremal, Shift, WakesFrom, AddAll, BaseOf, SortAll, SortDeltas;
    var t := rs[0].at;
    BaseAtOnce(rs, t);
    SortShift(rs, t);
    WakesShift(AddAll(rs), 0, t);
    ShiftInjective(Wakes(AddAll(rs)), SortDeltas(rs), t);
    InstantExact(rs);
  }

  // ----- what later requests do to earlier sleepers -----

  /** Every sleeper of ws is in vs, due at the same time or later. */
  ghost predicate NoneEarlier(ws: seq<Wake>, vs: seq<Wake>) {
    forall w :: w in ws ==> exists v :: v in vs && v.tid == w.tid && v.at >= w.at
  }

  lemma {:induction false} LaterBase(ts: seq<Sleeper>, b: nat, c: nat)
    requires b <= c
    ensures NoneEarlier(WakesFrom(ts, b), WakesFrom(ts, c))
    decreases |ts|
  {
    if ts != [] {
      LaterBase(ts[1..], b + ts[0].rel, c + ts[0].rel);
      Extends(Wake(ts[0].tid, b + ts[0].rel), WakesFrom(ts[1..], b + ts[0].rel),
              Wake(ts[0].tid, c + ts[0].rel), WakesFrom(ts[1..], c + ts[0].rel));
    }
  }

  lemma Extends(w: Wake, ws: seq<Wake>, v: Wake, vs: seq<Wake>)
    requires w.tid == v.tid && w.at <= v.at && NoneEarlier(ws, vs)
    ensures NoneEarlier([w] + ws, [v] + vs)
  {
    forall x | x in [w] + ws ensures exists y :: y in [v] + vs && y.tid == x.tid && y.at >= x.at {
      if x == w {
        assert v in [v] + vs;
      } else {
        var y :| y in vs && y.tid == x.tid && y.at >= x.at;
        assert y in [v] + vs;
      }
    }
  }

  lemma Behind(ws: seq<Wake>, v: Wake, vs: seq<Wake>)
    requires NoneEarlier(ws, vs)
    ensures NoneEarlier(ws, [v] + vs)
  {
    forall x | x in ws ensures exists y :: y in [v] + vs && y.tid == x.tid && y.at >= x.at {
      var y :| y in vs && y.tid == x.tid && y.at >= x.at;
      assert y in [v] + vs;
    }
  }

  lemma {:induction false} WalkDelays(ts: seq<Sleeper>, delta: Word, tid: nat, sum: Word, b: nat)
    requires sum <= delta
    ensures NoneEarlier(WakesFrom(ts, b), WakesFrom(InsertFrom(ts, delta, tid, sum), b))
  {
    hide NoneEarlier, WakesFrom;
    if ts == [] || Add(sum, ts[0].rel) > delta {
      Passed(Sleeper(tid, delta - sum), ts, b);
      LaterBase(ts, b, b + (delta - sum));
      Behind(WakesFrom(ts, b), Wake(tid, b + (delta - sum)), WakesFrom(ts, b + (delta - sum)));
    } else {
      var walked, c := InsertFrom(ts[1..], delta, tid, Add(sum, ts[0].rel)), b + ts[0].rel;
      WalkDelays(ts[1..], delta, tid, Add(sum, ts[0].rel), c);
      Passed(ts[0], walked, b);
      Passed(ts[0], ts[1..], b);
      assert ts == [ts[0]] + ts[1..];
      Extends(Wake(ts[0].tid, c), WakesFrom(ts[1..], c), Wake(ts[0].tid, c), WakesFrom(walked, c));
    }
  }

  /** An insertion at the head at time `now`: the others keep their times after a base that has moved. */
  lemma HeadWakes(ts: seq<Sleeper>, delta: Word, tid: nat, now: nat)
    requires AtHead(ts, delta)
    ensures WakesFrom(Insert(ts, delta, tid), now) == [Wake(tid, now + delta)] + WakesFrom(ts, now)
  {
    if ts == [] {
      assert Insert(ts, delta, tid)[1..] == [];
    } else {
      var shortened := [Sleeper(ts[0].tid, ts[0].rel - delta)] + ts[1..];
      Passed(Sleeper(tid, delta), shortened, now);
      Passed(Sleeper(ts[0].tid, ts[0].rel - delta), ts[1..], now + delta);
      assert Insert(ts, delta, tid) == [Sleeper(tid, delta)] + shortened;
    }
  }

  /** A request at time `now` makes nobody earlier who is counted from `base`. */
  lemma RequestDelays(ts: seq<Sleeper>, r: Request, base: nat)
    requires base <= r.at
    ensures var moved := if AtHead(ts, r.delta) then r.at else base;
            NoneEarlier(WakesFrom(ts, base), WakesFrom(Insert(ts, r.delta, r.tid), moved))
  {
    if AtHead(ts, r.delta) {
      HeadWakes(ts, r.delta, r.tid, r.at);
      LaterBase(ts, base, r.at);
      Behind(WakesFrom(ts, base), Wake(r.tid, r.at + r.delta), WakesFrom(ts, r.at));
    } else {
      WalkDelays(ts, r.delta, r.tid, 0, base);
    }
  }

  // ----- threads that are due too late -----

  /** Some thread is due later than it asked for. */
  ghost predicate Late(rs: seq<Request>, ws: seq<Wake>) { exists i, w :: IsLate(rs, ws, i, w) }

  ghost predicate IsLate(rs: seq<Request>, ws: seq<Wake>, i: int, w: Wake) {
    0 <= i < |rs| && w in ws && w.tid == rs[i].tid && w.at > rs[i].at + rs[i].delta
  }

  /** Once late, always late. */
  lemma LateStays(rs: seq<Request>, ws: seq<Wake>, r: Request, vs: seq<Wake>)
    requires Late(rs, ws) && NoneEarlier(ws, vs)
    ensures Late(rs + [r], vs)
  {
    var i, w :| IsLate(rs, ws, i, w);
    var v :| v in vs && v.tid == w.tid && v.at >= w.at;
    assert IsLate(rs + [r], vs, i, v);
  }

  lemma AddsNothing(rs: seq<Request>)
    ensures rs == [] ==> AddAll(rs) == []
  {
  }

  /** The first thread of the list is due when it asked to be. */
  lemma {:induction false} HeadExact(rs: seq<Request>) returns (i: nat)
    requires rs != []
    ensures AddAll(rs) != [] && i < |rs| && DueAll(rs)[0] == Wanted(rs[i])
  {
    var k := |rs| - 1;
    if AtHead(AddAll(rs[..k]), rs[k].delta) {
      i := k;
      HeadWakes(AddAll(rs[..k]), rs[k].delta, rs[k].tid, rs[k].at);
    } else {
      AddsNothing(rs[..k]);
      i := HeadExact(rs[..k]);
    }
  }

  /** An insertion at the head after time has passed makes the thread that was first late. */
  lemma HeadMakesLate(rs: seq<Request>, r: Request)
    requires rs != [] && AtHead(AddAll(rs), r.delta) && r.at > BaseOf(rs)
    ensures Late(rs + [r], DueAll(rs + [r]))
  {
    var i := HeadExact(rs);
    var ts, all := AddAll(rs), rs + [r];
    assert all[..|rs|] == rs && all[|rs|] == r && all[i] == rs[i];
    HeadWakes(ts, r.delta, r.tid, r.at);
    var w := WakesFrom(ts, r.at)[0];
    assert w == Wake(ts[0].tid, r.at + ts[0].rel) && w in DueAll(all);
    assert DueAll(rs)[0] == Wake(ts[0].tid, BaseOf(rs) + ts[0].rel);
    assert IsLate(all, DueAll(all), i, w);
  }

  lemma BaseStep(rs: seq<Request>)
    requires rs != []
    ensures var before, r := rs[..|rs| - 1], rs[|rs| - 1];
            && BaseOf(rs) == (if AtHead(AddAll(before), r.delta) then r.at else BaseOf(before))
            && AddAll(rs) == Insert(AddAll(before), r.delta, r.tid)
  {
  }

  lemma OrderedPrefix(rs: seq<Request>)
    requires Ordered(rs) && |rs| > 1
    ensures Ordered(rs[..|rs| - 1]) && rs[|rs| - 2].at <= rs[|rs| - 1].at && rs[..|rs| - 1][|rs| - 2] == rs[|rs| - 2]
  {
  }

  lemma {:induction false} BaseBounds(rs: seq<Request>)
    requires rs != [] && Ordered(rs)
    ensures rs[0].at <= BaseOf(rs) <= rs[|rs| - 1].at
  {
    var k := |rs| - 1;
    if !AtHead(AddAll(rs[..k]), rs[k].delta) {
      AddsNothing(rs[..k]);
      BaseBounds(rs[..k]);
    }
  }

  /** When the base has moved, somebody is late. */
  lemma {:induction false} MovedIsLate(rs: seq<Request>)
    requires rs != [] && Ordered(rs) && BaseOf(rs) > rs[0].at
    ensures Late(rs, DueAll(rs))
  {
    var k := |rs| - 1;
    var before, r := rs[..k], rs[k];
    assert rs == before + [r];
    AddsNothing(before);
    if before != [] {
      hide AddAll, Late, Ordered, NoneEarlier, AtHead;
      BaseStep(rs);
      OrderedPrefix(rs);
      BaseBounds(before);
      if BaseOf(before) > rs[0].at {
        MovedIsLate(before);
        RequestDelays(AddAll(before), r, BaseOf(before));
        LateStays(before, DueAll(before), r, DueAll(rs));
      } else {
        HeadMakesLate(before, r);
      }
    }
  }

  /** Where the new thread ends up when the walk counts from the base instead of from now. */
  lemma {:induction false} WalkNew(ts: seq<Sleeper>, delta: Word, tid: nat, sum: Word, b: nat) returns (w: Wake, c: nat)
    requires sum <= delta && sum <= b
    ensures w in WakesFrom(InsertFrom(ts, delta, tid, sum), b) && w == Wake(tid, b - sum + delta + c * SPACE)
  {
    if ts == [] || Add(sum, ts[0].rel) > delta {
      w, c := Wake(tid, b + (delta - sum)), 0;
      Passed(Sleeper(tid, delta - sum), ts, b);
    } else {
      var next := Add(sum, ts[0].rel);
      w, c := WalkNew(ts[1..], delta, tid, next, b + ts[0].rel);
      Passed(ts[0], InsertFrom(ts[1..], delta, tid, next), b);
      if sum + ts[0].rel >= SPACE { c := c + 1; }
    }
  }

  // ----- the exact condition -----

  /** Some thread is due at another time than it asked for. */
  ghost predicate Wrong(rs: seq<Request>, ws: seq<Wake>) { exists i, w :: IsWrong(rs, ws, i, w) }

  ghost predicate IsWrong(rs: seq<Request>, ws: seq<Wake>, i: int, w: Wake) {
    0 <= i < |rs| && w in ws && w.tid == rs[i].tid && w != Wanted(rs[i])
  }

  lemma {:induction false} SortAllHolds(rs: seq<Request>, w: Wake)
    requires w in SortAll(rs)
    ensures exists i :: 0 <= i < |rs| && w == Wanted(rs[i])
  {
    var k := |rs| - 1;
    ScheduledHolds(SortAll(rs[..k]), Wanted(rs[k]));
    if w != Wanted(rs[k]) {
      SortAllHolds(rs[..k], w);
      var i :| 0 <= i < |rs[..k]| && w == Wanted(rs[..k][i]);
      assert rs[i] == rs[..k][i];
    }
  }

  lemma SortedIsWanted(rs: seq<Request>, i: nat, w: Wake)
    requires Distinct(rs) && w in SortAll(rs) && i < |rs| && w.tid == rs[i].tid
    ensures w == Wanted(rs[i])
  {
    SortAllHolds(rs, w);
    var j :| 0 <= j < |rs| && w == Wanted(rs[j]);
    assert i == j;
  }

  lemma WrongIsNotSorted(rs: seq<Request>)
    requires Distinct(rs) && Wrong(rs, DueAll(rs))
    ensures DueAll(rs) != SortAll(rs)
  {
    var i, w :| IsWrong(rs, DueAll(rs), i, w);
    if w in SortAll(rs) {
      SortedIsWanted(rs, i, w);
      assert false;
    }
  }

  /** As soon as time passes between requests, some thread is due at the wrong time, and stays so. */
  lemma ElapsedIsWrong(rs: seq<Request>)
    requires rs != [] && Ordered(rs) && Pending(rs) && !AtOnce(rs)
    ensures Wrong(rs, DueAll(rs))
  {
    hide AddAll, BaseOf, Late, Wrong, NoneEarlier, AtHead;
    var k := |rs| - 1;
    var before, r := rs[..k], rs[k];
    assert rs == before + [r] && before != [];
    BaseStep(rs);
    OrderedPrefix(rs);
    BaseBounds(before);
    assert NotDueYet(rs[..k], rs[k].at);
    if r.at == BaseOf(before) {
      MovedIsLate(before);
      RequestDelays(AddAll(before), r, BaseOf(before));
      LateStays(before, DueAll(before), r, DueAll(rs));
      LateIsWrong(rs);
    } else if AtHead(AddAll(before), r.delta) {
      HeadMakesLate(before, r);
      LateIsWrong(rs);
    } else {
      WalkIsWrong(rs);
    }
  }

  lemma WalkIsWrong(rs: seq<Request>)
    requires |rs| > 1 && !AtHead(AddAll(rs[..|rs| - 1]), rs[|rs| - 1].delta)
    requires NotDueYet(rs[..|rs| - 1], rs[|rs| - 1].at)
    requires rs[|rs| - 1].at > BaseOf(rs[..|rs| - 1])
    ensures Wrong(rs, DueAll(rs))
  {
    var k := |rs| - 1;
    var before, r := rs[..k], rs[k];
    var w, c := WalkNew(AddAll(before), r.delta, r.tid, 0, BaseOf(before));
    assert IsWrong(rs, DueAll(rs), k, w);
  }

  lemma LateIsWrong(rs: seq<Request>)
    requires Late(rs, DueAll(rs))
    ensures Wrong(rs, DueAll(rs))
  {
    var i, w :| IsLate(rs, DueAll(rs), i, w);
    assert IsWrong(rs, DueAll(rs), i, w);
  }

  /**
   * Over every history of requests none of which is due yet: every thread is due when it asked to
   * be, equal times in order of arrival, if and only if no time passes between the requests and
   * none of them falls strictly between two earlier ones.
   */
  lemma {:induction false} HistoryExact(rs: seq<Request>)
    requires rs != [] && Ordered(rs) && Pending(rs) && Distinct(rs)
    ensures DueAll(rs) == SortAll(rs) <==> AtOnce(rs) && forall j :: 0 <= j < |rs| ==> Extremal(rs, j)
  {
    if AtOnce(rs) {
      AtOnceExact(rs);
    } else {
      ElapsedIsWrong(rs);
      WrongIsNotSorted(rs);
    }
  }

  /** Two requests 50 ticks apart: the second thread is due 50 ticks before it asked to be. */
  lemma SecondIsEarly()
    ensures var rs := [Request(1, 100, 0), Request(2, 150, 50)];
            DueAll(rs) == [Wake(1, 100), Wake(2, 150)] && SortAll(rs) == [Wake(1, 100), Wake(2, 200)]
  {
    var r1, r2 := Request(1, 100, 0), Request(2, 150, 50);
    assert [r1, r2][..1] == [r1] && [r1][..0] == [] && AddAll([]) == [] && SortAll([]) == [];
    assert AddAll([r1]) == [Sleeper(1, 100)] && BaseOf([r1]) == 0 && SortAll([r1]) == [Wake(1, 100)];
    var ts := [Sleeper(1, 100), Sleeper(2, 50)];
    assert [Sleeper(1, 100)][1..] == [] && InsertFrom([], 150, 2, 100) == [Sleeper(2, 50)];
    assert AddAll([r1, r2]) == ts && BaseOf([r1, r2]) == 0;
    assert ts[1..] == [Sleeper(2, 50)] && ts[1..][1..] == [];
    assert WakesFrom(ts[1..], 100) == [Wake(2, 150)];
    assert [Wake(1, 100)][1..] == [] && Scheduled([], Wake(2, 200)) == [Wake(2, 200)];
  }

  // ----- the reference is the stable sort -----

  /** Those due at time d, in list order. */
  function DueAt(ws: seq<Wake>, d: nat): seq<nat> {
    if ws == [] then [] else (if ws[0].at == d then [ws[0].tid] else []) + DueAt(ws[1..], d)
  }

  function AskedAt(rs: seq<Request>, d: nat): seq<nat> {
    if rs == [] then []
    else
      var before, r := rs[..|rs| - 1], rs[|rs| - 1];
      AskedAt(before, d) + (if r.at + r.delta == d then [r.tid] else [])
  }

  ghost predicate Ascending(ws: seq<Wake>) { forall i, j :: 0 <= i < j < |ws| ==> ws[i].at <= ws[j].at }

  /** SortAll is the stable sort of the requests. */
  lemma {:induction false} SortAllMeaning(rs: seq<Request>, d: nat)
    ensures Ascending(SortAll(rs)) && |SortAll(rs)| == |rs|
    ensures DueAt(SortAll(rs), d) == AskedAt(rs, d)
  {
    if rs != [] {
      SortAllMeaning(rs[..|rs| - 1], d);
      ScheduledMeaning(SortAll(rs[..|rs| - 1]), Wanted(rs[|rs| - 1]), d);
    }
  }

  lemma {:induction false} ScheduledMeaning(ws: seq<Wake>, w: Wake, d: nat)
    requires Ascending(ws)
    ensures Ascending(Scheduled(ws, w)) && |Scheduled(ws, w)| == |ws| + 1
    ensures DueAt(Scheduled(ws, w), d) == DueAt(ws, d) + (if w.at == d then [w.tid] else [])
  {
    if ws == [] {
      assert Scheduled(ws, w)[1..] == [];
    } else if ws[0].at > w.at {
      assert Scheduled(ws, w)[1..] == ws;
      if w.at == d { NoneDue(ws, d); }
    } else {
      var rest := Scheduled(ws[1..], w);
      ScheduledMeaning(ws[1..], w, d);
      ScheduledHolds(ws[1..], w);
      assert Scheduled(ws, w) == [ws[0]] + rest && Scheduled(ws, w)[1..] == rest;
      forall j | 0 <= j < |rest| ensures ws[0].at <= rest[j].at {
        assert rest[j] in rest;
        if rest[j] != w { assert rest[j] in ws[1..]; }
      }
    }
  }

  lemma {:induction false} NoneDue(ws: seq<Wake>, d: nat)
    requires Ascending(ws) && (ws != [] ==> ws[0].at > d)
    ensures DueAt(ws, d) == []
  {
    if |ws| > 1 {
      NoneDue(ws[1..], d);
    } else if |ws| == 1 {
      assert ws[1..] == [];
    }
  }

  // ----- the interrupt the timer is set to -----

  /** When the timer fires: at `first` until an insertion at the head of a list sets it. */
  function Alarm(rs: seq<Request>, first: nat): nat {
    if rs == [] then first
    else
      var before, r := rs[..|rs| - 1], rs[|rs| - 1];
      if AddAll(before) != [] && AtHead(AddAll(before), r.delta) then r.at + r.delta else Alarm(before, first)
  }

  /**
   * The timer fires when the first sleeper is due exactly when it did so before, or when someone came with a
   * shorter time.
   */
  lemma {:induction false} AlarmExact(rs: seq<Request>, first: nat)
    requires rs != []
    ensures AddAll(rs) != []
    ensures Alarm(rs, first) == BaseOf(rs) + AddAll(rs)[0].rel <==>
        (exists j :: Sooner(rs, j)) || first == rs[0].at + rs[0].delta
  {
    var k := |rs| - 1;
    var before := rs[..k];
    HeadIsEarliest(rs);
    if before == [] {
      assert AddAll(before) == [];
    } else {
      AlarmExact(before, first);
      HeadIsEarliest(before);
      assert before[0] == rs[0];
      if AtHead(AddAll(before), rs[k].delta) {
        assert Sooner(rs, k);
      } else {
        assert forall j :: Sooner(before, j) ==> Sooner(rs, j);
        if j: nat :| Sooner(rs, j) {
          if j < k { assert Sooner(before, j); }
        }
      }
    }
  }
}
