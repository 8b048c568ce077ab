// The timers of lwip/sys.c: a list in which each timer counts from the one
// before it, against a list of the times that remain.
module Timers {
  import opened Words

  const SYS_ARCH_TIMEOUT := 0xffff_ffff

  /** One timer: the time it counts, its handler and argument, and when on the clock it was asked for. */
  datatype Entry = Entry(time: nat, h: nat, arg: nat, due: int)

  // ----- The two lists

  /** The time that remains until each timer of a list that begins `base` from now. */
  function Remaining(ds: seq<Entry>, base: nat): (r: seq<Entry>)
    ensures |r| == |ds|
  {
    if ds == [] then [] else [ds[0].(time := base + ds[0].time)] + Remaining(ds[1..], base + ds[0].time)
  }

  /** The time until the last timer of the list. */
  function Total(ds: seq<Entry>): nat {
    if ds == [] then 0 else ds[0].time + Total(ds[1..])
  }

  /** By the times that remain. */
  ghost predicate Sorted(rs: seq<Entry>) {
    forall i, j :: 0 <= i < j < |rs| ==> rs[i].time <= rs[j].time
  }

  /** A timer in front of the first that is due later: behind those due at the same time. */
  function Insert(rs: seq<Entry>, e: Entry): seq<Entry> {
    if rs == [] || rs[0].time > e.time then [e] + rs else [rs[0]] + Insert(rs[1..], e)
  }

  predicate Matches(e: Entry, h: nat, arg: nat) {
    e.h == h && e.arg == arg
  }

  /** Without the first timer of that handler and argument. */
  function Remove(rs: seq<Entry>, h: nat, arg: nat): seq<Entry> {
    if rs == [] then []
    else if Matches(rs[0], h, arg) then rs[1..]
    else [rs[0]] + Remove(rs[1..], h, arg)
  }

  /** `sys_timeout`, on the list of differences */
  function InsertDelta(ds: seq<Entry>, e: Entry): seq<Entry> {
    if ds == [] then [e]
    else if ds[0].time > e.time then [e, ds[0].(time := ds[0].time - e.time)] + ds[1..]
    else [ds[0]] + InsertDelta(ds[1..], e.(time := e.time - ds[0].time))
  }

  /** `sys_untimeout`, on the list of differences */
  function RemoveDelta(ds: seq<Entry>, h: nat, arg: nat): seq<Entry> {
    if ds == [] then []
    else if Matches(ds[0], h, arg) then
      if |ds| == 1 then [] else [ds[1].(time := ds[1].time + ds[0].time)] + ds[2..]
    else [ds[0]] + RemoveDelta(ds[1..], h, arg)
  }

  /** What a wait that brought a message after `time` takes off. */
  function Elapsed(ds: seq<Entry>, time: nat): seq<Entry> {
    if ds == [] then [] else [ds[0].(time := if time <= ds[0].time then ds[0].time - time else 0)] + ds[1..]
  }

  // ----- The one refines the other

  lemma {:induction false} RemainingFrom(ds: seq<Entry>, base: nat)
    ensures forall i :: 0 <= i < |ds| ==> Remaining(ds, base)[i].time >= base
  {
    if ds != [] { RemainingFrom(ds[1..], base + ds[0].time); }
  }

  lemma {:induction false} RemainingSorted(ds: seq<Entry>, base: nat)
    ensures Sorted(Remaining(ds, base))
  {
    if ds != [] {
      RemainingSorted(ds[1..], base + ds[0].time);
      RemainingFrom(ds[1..], base + ds[0].time);
    }
  }

  /** Setting a timer puts it at its place, behind timers due at the same time, and changes no other one's remaining time. */
  lemma {:induction false} InsertRefines(ds: seq<Entry>, e: Entry, base: nat)
    ensures Remaining(InsertDelta(ds, e), base) == Insert(Remaining(ds, base), e.(time := base + e.time))
  {
    if ds == [] {
      assert Remaining([e], base) == [e.(time := base + e.time)] + Remaining([], base + e.time);
    } else if ds[0].time > e.time {
      var rest := [ds[0].(time := ds[0].time - e.time)] + ds[1..];
      assert [e, ds[0].(time := ds[0].time - e.time)] + ds[1..] == [e] + rest;
      assert rest[1..] == ds[1..];
      assert ([e] + rest)[1..] == rest;
    } else {
      var e' := e.(time := e.time - ds[0].time);
      InsertRefines(ds[1..], e', base + ds[0].time);
      assert e'.(time := base + ds[0].time + e'.time) == e.(time := base + e.time);
      assert ([ds[0]] + InsertDelta(ds[1..], e'))[1..] == InsertDelta(ds[1..], e');
      assert Remaining(ds, base)[1..] == Remaining(ds[1..], base + ds[0].time);
    }
  }

  /** Cancelling takes away the first match and changes no other one's remaining time. */
  lemma {:induction false} RemoveRefines(ds: seq<Entry>, h: nat, arg: nat, base: nat)
    ensures Remaining(RemoveDelta(ds, h, arg), base) == Remove(Remaining(ds, base), h, arg)
  {
    if ds != [] {
      assert Remaining(ds, base)[1..] == Remaining(ds[1..], base + ds[0].time);
      if Matches(ds[0], h, arg) {
        if |ds| > 1 {
          var r := [ds[1].(time := ds[1].time + ds[0].time)] + ds[2..];
          assert r[1..] == ds[1..][1..];
        }
      } else {
        RemoveRefines(ds[1..], h, arg, base + ds[0].time);
        assert ([ds[0]] + RemoveDelta(ds[1..], h, arg))[1..] == RemoveDelta(ds[1..], h, arg);
      }
    }
  }

  /** `a` is timer `b`, but sooner by `less`. */
  ghost predicate Sooner(a: Entry, b: Entry, less: nat) {
    b == a.(time := a.time + less)
  }

  /** All remaining times less by the same amount. */
  lemma {:induction false} RemainingShifts(ds: seq<Entry>, base: nat, less: nat)
    requires less <= base
    ensures forall i :: 0 <= i < |ds| ==>
              Sooner(Remaining(ds, base - less)[i], Remaining(ds, base)[i], less)
  {
    if ds != [] { RemainingShifts(ds[1..], base + ds[0].time, less); }
  }

  /** Taking off the first timer, or what a wait took, takes the same off every other one's remaining time. */
  lemma {:induction false} ElapsedRefines(ds: seq<Entry>, time: nat)
    requires ds != []
    ensures var took := Min(time, ds[0].time); var rs, es := Remaining(ds, 0), Remaining(Elapsed(ds, time), 0);
            |es| == |ds| && forall i :: 0 <= i < |ds| ==> Sooner(es[i], rs[i], took)
    ensures var rs, ps := Remaining(ds, 0), Remaining(ds[1..], 0);
            forall i :: 0 <= i < |ds| - 1 ==> Sooner(ps[i], rs[i + 1], ds[0].time)
  {
    var took := Min(time, ds[0].time);
    RemainingShifts(ds[1..], ds[0].time, took);
    RemainingShifts(ds[1..], ds[0].time, ds[0].time);
    assert Elapsed(ds, time)[1..] == ds[1..];
  }

  // ----- What the two operations on times that remain do

  /** `k` is the place of a timer due after `time`: behind all that are due by then, in front of the first that is not. */
  ghost predicate PlaceOf(rs: seq<Entry>, time: nat, k: nat) {
    && k <= |rs|
    && (forall i :: 0 <= i < k ==> rs[i].time <= time)
    && (forall i :: k <= i < |rs| ==> time < rs[i].time)
  }

  /** A timer set is put at its place; all the others stay. */
  lemma {:induction false} InsertPlaces(rs: seq<Entry>, e: Entry) returns (k: nat)
    requires Sorted(rs)
    ensures PlaceOf(rs, e.time, k) && Insert(rs, e) == rs[..k] + [e] + rs[k..]
  {
    k := 0;
    if rs != [] && rs[0].time <= e.time {
      var j := InsertPlaces(rs[1..], e);
      k := j + 1;
      assert rs[..k] == [rs[0]] + rs[1..][..j] && rs[k..] == rs[1..][j..];
    }
  }

  /** A timer cancelled is the first of its handler and argument; all the others stay, and nothing changes if there is none. */
  lemma {:induction false} RemovePlaces(rs: seq<Entry>, h: nat, arg: nat) returns (k: nat)
    ensures k <= |rs| && forall i :: 0 <= i < k ==> rs[i].h != h || rs[i].arg != arg
    ensures if k < |rs| then rs[k].h == h && rs[k].arg == arg && Remove(rs, h, arg) == rs[..k] + rs[k + 1..]
            else Remove(rs, h, arg) == rs
  {
    k := 0;
    if rs != [] && !Matches(rs[0], h, arg) {
      var j := RemovePlaces(rs[1..], h, arg);
      k := j + 1;
      assert rs == [rs[0]] + rs[1..];
      if j < |rs| - 1 { assert rs[..k] + rs[k + 1..] == [rs[0]] + (rs[1..][..j] + rs[1..][j + 1..]); }
    }
  }

  // ----- 32 bits

  lemma {:induction false} TotalIsLast(ds: seq<Entry>, base: nat)
    requires ds != []
    ensures Remaining(ds, base)[|ds| - 1].time == base + Total(ds)
  {
    if |ds| > 1 { TotalIsLast(ds[1..], base + ds[0].time); } else { assert ds[1..] == []; }
  }

  /** The last timer is due no later than before, or when the new one is. */
  lemma {:induction false} InsertTotal(ds: seq<Entry>, e: Entry)
    ensures Total(InsertDelta(ds, e)) == Max(Total(ds), e.time)
  {
    if ds == [] {
      assert [e][1..] == [];
    } else if ds[0].time > e.time {
      var rest := [ds[0].(time := ds[0].time - e.time)] + ds[1..];
      assert [e, ds[0].(time := ds[0].time - e.time)] + ds[1..] == [e] + rest;
      assert rest[1..] == ds[1..] && ([e] + rest)[1..] == rest;
    } else {
      var e' := e.(time := e.time - ds[0].time);
      InsertTotal(ds[1..], e');
      assert ([ds[0]] + InsertDelta(ds[1..], e'))[1..] == InsertDelta(ds[1..], e');
    }
  }

  lemma {:induction false} RemoveTotal(ds: seq<Entry>, h: nat, arg: nat)
    ensures Total(RemoveDelta(ds, h, arg)) <= Total(ds)
  {
    if ds != [] {
      if Matches(ds[0], h, arg) {
        if |ds| > 1 {
          var r := [ds[1].(time := ds[1].time + ds[0].time)] + ds[2..];
          assert r[1..] == ds[1..][1..];
        }
      } else {
        RemoveTotal(ds[1..], h, arg);
        assert ([ds[0]] + RemoveDelta(ds[1..], h, arg))[1..] == RemoveDelta(ds[1..], h, arg);
      }
    }
  }

  // ----- Whole runs

  /** The clock, and the list. */
  datatype World = World(now: int, ds: seq<Entry>)

  /**
   * A timer set or cancelled; a wait that brings a message after `elapsed` on the clock but says `time`;
   * a wait that times out after `elapsed`, and the first timer's handler is called; time that passes otherwise.
   */
  datatype Event =
    | Set(msecs: u32, h: nat, arg: nat)
    | Cancel(h: nat, arg: nat)
    | Message(time: u32, elapsed: nat)
    | Fire(elapsed: nat)
    | Pass(elapsed: nat)

  /** A wait times out no earlier than asked, and says no more than has elapsed. */
  ghost predicate Possible(w: World, e: Event) {
    match e
    case Message(time, elapsed) => time <= elapsed && time != SYS_ARCH_TIMEOUT
    case Fire(elapsed) => w.ds != [] && elapsed >= w.ds[0].time
    case _ => true
  }

  /** The clock and the reported times agree, and no wait runs past the first timer. */
  ghost predicate Exact(w: World, e: Event) {
    match e
    case Message(time, elapsed) => time == elapsed && (w.ds != [] ==> time <= w.ds[0].time)
    case Fire(elapsed) => w.ds != [] && elapsed == w.ds[0].time
    case Pass(elapsed) => elapsed == 0 || w.ds == []
    case _ => true
  }

  function Step(w: World, e: Event): World {
    match e
    case Set(msecs, h, arg) => w.(ds := InsertDelta(w.ds, Entry(msecs, h, arg, w.now + msecs)))
    case Cancel(h, arg) => w.(ds := RemoveDelta(w.ds, h, arg))
    case Message(time, elapsed) => World(w.now + elapsed, Elapsed(w.ds, time))
    case Fire(elapsed) => World(w.now + elapsed, if w.ds == [] then [] else w.ds[1..])
    case Pass(elapsed) => w.(now := w.now + elapsed)
  }

  lemma {:induction false} InsertMembers(rs: seq<Entry>, e: Entry)
    ensures forall x :: x in Insert(rs, e) ==> x in rs || x == e
  {
    if rs != [] && rs[0].time <= e.time { InsertMembers(rs[1..], e); }
  }

  lemma {:induction false} RemoveMembers(rs: seq<Entry>, h: nat, arg: nat)
    ensures forall x :: x in Remove(rs, h, arg) ==> x in rs
  {
    if rs != [] && !Matches(rs[0], h, arg) { RemoveMembers(rs[1..], h, arg); }
  }

  /** `x` ends when it is due, or later, or just then. */
  ghost predicate Ends(now: int, x: Entry, exact: bool) {
    if exact then now + x.time == x.due else now + x.time >= x.due
  }

  lemma StepEnds(w: World, e: Event, exact: bool)
    requires Possible(w, e) && (exact ==> Exact(w, e))
    requires forall x :: x in Remaining(w.ds, 0) ==> Ends(w.now, x, exact)
    ensures forall x :: x in Remaining(Step(w, e).ds, 0) ==> Ends(Step(w, e).now, x, exact)
  {
    var rs, w' := Remaining(w.ds, 0), Step(w, e);
    match e
    case Set(msecs, h, arg) =>
      InsertRefines(w.ds, Entry(msecs, h, arg, w.now + msecs), 0);
      InsertMembers(rs, Entry(msecs, h, arg, w.now + msecs));
    case Cancel(h, arg) =>
      RemoveRefines(w.ds, h, arg, 0);
      RemoveMembers(rs, h, arg);
    case Message(time, elapsed) =>
      if w.ds != [] {
        ElapsedRefines(w.ds, time);
        forall x | x in Remaining(w'.ds, 0) ensures Ends(w'.now, x, exact) {
          var i :| 0 <= i < |w.ds| && Remaining(w'.ds, 0)[i] == x;
          assert rs[i] in rs && Ends(w.now, rs[i], exact);
        }
      }
    case Fire(elapsed) =>
      ElapsedRefines(w.ds, 0);
      forall x | x in Remaining(w'.ds, 0) ensures Ends(w'.now, x, exact) {
        var i :| 0 <= i < |w.ds| - 1 && Remaining(w'.ds, 0)[i] == x;
        assert rs[i + 1] in rs && Ends(w.now, rs[i + 1], exact);
      }
    case Pass(elapsed) =>
  }

  lemma ElapsedTotal(ds: seq<Entry>, time: nat)
    ensures Total(Elapsed(ds, time)) <= Total(ds) && (ds != [] ==> Total(ds[1..]) <= Total(ds))
  {
    if ds != [] { assert Elapsed(ds, time)[1..] == ds[1..]; }
  }

  lemma StepTotal(w: World, e: Event)
    requires Total(w.ds) <= 0xffff_ffff
    ensures Total(Step(w, e).ds) <= 0xffff_ffff
  {
    match e
    case Set(msecs, h, arg) => InsertTotal(w.ds, Entry(msecs, h, arg, w.now + msecs));
    case Cancel(h, arg) => RemoveTotal(w.ds, h, arg);
    case Message(time, elapsed) => ElapsedTotal(w.ds, time);
    case Fire(elapsed) => ElapsedTotal(w.ds, 0);
    case Pass(elapsed) =>
  }

  ghost predicate Run(ws: seq<World>, es: seq<Event>) {
    && |ws| == |es| + 1 && ws[0].ds == []
    && forall i :: 0 <= i < |es| ==> Possible(ws[i], es[i]) && ws[i + 1] == Step(ws[i], es[i])
  }

  lemma {:induction false} RunEnds(ws: seq<World>, es: seq<Event>, n: nat, exact: bool)
    requires Run(ws, es) && n < |ws| && (exact ==> forall i :: 0 <= i < n ==> Exact(ws[i], es[i]))
    ensures forall x :: x in Remaining(ws[n].ds, 0) ==> Ends(ws[n].now, x, exact)
    ensures Total(ws[n].ds) <= 0xffff_ffff
  {
    if n > 0 {
      RunEnds(ws, es, n - 1, exact);
      StepEnds(ws[n - 1], es[n - 1], exact);
      StepTotal(ws[n - 1], es[n - 1]);
    }
  }

  /** In every run, no timer fires before the time it was asked for. */
  lemma NeverEarly(ws: seq<World>, es: seq<Event>, n: nat)
    requires Run(ws, es) && n < |es| && es[n].Fire?
    ensures ws[n + 1].now >= ws[n].ds[0].due
  {
    RunEnds(ws, es, n, false);
    assert Ends(ws[n].now, ws[n].ds[0], false);
  }

  /** If the waits say exactly what has elapsed, every timer fires just then. */
  lemma OnTime(ws: seq<World>, es: seq<Event>, n: nat)
    requires Run(ws, es) && n < |es| && es[n].Fire? && forall i :: 0 <= i <= n ==> Exact(ws[i], es[i])
    ensures ws[n + 1].now == ws[n].ds[0].due
  {
    RunEnds(ws, es, n, true);
    assert Ends(ws[n].now, ws[n].ds[0], true);
    assert Exact(ws[n], es[n]);
  }
}
