// The timers of lwip/sys.c as linked nodes, whose times and links are changed
// in place, proved against the lists of module Timers.  The sequence `nodes`
// names the nodes in list order; each link leads to the next of them, no node
// occurs twice, and their times add up to no more than 32 bits hold.  Every method
// says what the list of entries is afterwards, and so that no time underflows.
module TimerList {
  import opened Words
  import opened Timers

  /** `struct sys_timeout` */
  class Timeout {
    var next: Timeout?
    var time: u32
    const h: nat
    const arg: nat
    ghost const due: int

    constructor (msecs: u32, h: nat, arg: nat, ghost due: int)
      ensures next == null && AsEntry() == Entry(msecs, h, arg, due)
    {
      next := null;
      time := msecs;
      this.h := h;
      this.arg := arg;
      this.due := due;
    }

    ghost function AsEntry(): Entry
      reads this`time
    {
      Entry(time, h, arg, due)
    }
  }

  /** The node at place `i` of a list, null behind its end. */
  ghost function NodeAt(nodes: seq<Timeout>, i: nat): Timeout? {
    if i < |nodes| then nodes[i] else null
  }

  ghost predicate Linked(nodes: seq<Timeout>, i: nat)
    reads nodes`next
  {
    i < |nodes| ==> nodes[i].next == NodeAt(nodes, i + 1)
  }

  ghost predicate Distinct(nodes: seq<Timeout>) {
    forall i, j :: 0 <= i < j < |nodes| ==> nodes[i] != nodes[j]
  }

  ghost function Entries(nodes: seq<Timeout>): (r: seq<Entry>)
    reads nodes`time
    ensures |r| == |nodes| && forall i :: 0 <= i < |nodes| ==> r[i] == nodes[i].AsEntry()
  {
    if nodes == [] then [] else [nodes[0].AsEntry()] + Entries(nodes[1..])
  }

  /** The list without the node at place `i`. */
  ghost function Without(ns: seq<Timeout>, i: nat): (r: seq<Timeout>)
    requires Distinct(ns) && i < |ns|
    ensures |r| == |ns| - 1 && Distinct(r) && (forall k :: 0 <= k < |r| ==> r[k] == ns[if k < i then k else k + 1])
    ensures forall t :: t in r ==> t in ns
  {
    ns[..i] + ns[i + 1..]
  }

  /** The list with a node behind the one at place `i`. */
  ghost function With(ns: seq<Timeout>, i: nat, t: Timeout): (r: seq<Timeout>)
    requires Distinct(ns) && i < |ns| && t !in ns
    ensures |r| == |ns| + 1 && Distinct(r) && r[i + 1] == t
    ensures forall k :: 0 <= k < |r| && k != i + 1 ==> r[k] == ns[if k <= i then k else k - 1]
    ensures forall x :: x in r ==> x in ns || x == t
  {
    ns[..i + 1] + [t] + ns[i + 1..]
  }

  /** `struct sys_timeouts` */
  class Timeouts {
    var next: Timeout?
    ghost var nodes: seq<Timeout>

    ghost predicate Valid()
      reads this, nodes
    {
      && next == NodeAt(nodes, 0)
      && (forall i :: 0 <= i < |nodes| ==> Linked(nodes, i))
      && Distinct(nodes)
      && Total(List()) <= 0xffff_ffff
    }

    ghost function List(): seq<Entry>
      reads this`nodes, nodes`time
    {
      Entries(nodes)
    }

    constructor ()
      ensures Valid() && List() == []
    {
      next := null;
      nodes := [];
    }

    /** `sys_timeout`; `alloc` says whether memory for the node can be had, and `now` is what the clock says. */
    method SysTimeout(msecs: u32, h: nat, arg: nat, alloc: bool, ghost now: int)
      requires Valid()
      modifies this, nodes
      ensures Valid() && List() == if alloc then InsertDelta(old(List()), Entry(msecs, h, arg, now + msecs)) else old(List())
      ensures forall t :: t in nodes ==> t in old(nodes) || fresh(t)
    {
      if alloc {
        var timeout := new Timeout(msecs, h, arg, now + msecs);
        InsertTotal(List(), timeout.AsEntry());
        if next == null {
          next := timeout;
          nodes := [timeout];
        } else {
          assert Linked(nodes, 0);
          if next.time > msecs {
            InFront(timeout);
          } else {
            Behind(timeout);
          }
        }
      }
    }

    /** The new timer is due before all others. */
    method InFront(timeout: Timeout)
      requires Valid() && next != null && timeout !in nodes && next.time > timeout.time
      requires Total(InsertDelta(List(), timeout.AsEntry())) <= 0xffff_ffff
      modifies this, nodes, timeout
      ensures Valid() && List() == InsertDelta(old(List()), old(timeout.AsEntry())) && nodes == [timeout] + old(nodes)
    {
      ghost var ns := nodes;
      next.time := next.time - timeout.time;
      timeout.next := next;
      next := timeout;
      nodes := [timeout] + nodes;
      forall i | 0 <= i < |nodes| ensures Linked(nodes, i) { assert i > 0 ==> old(Linked(ns, i - 1)); }
      assert List() == InsertDelta(old(List()), old(timeout.AsEntry()));
    }

    /** The new timer goes behind the first one after which there is none, or one due later. */
    method Behind(timeout: Timeout)
      requires Valid() && next != null && timeout !in nodes && next.time <= timeout.time
      requires Total(InsertDelta(List(), timeout.AsEntry())) <= 0xffff_ffff
      modifies this, nodes, timeout
      ensures Valid() && List() == InsertDelta(old(List()), old(timeout.AsEntry()))
      ensures forall t :: t in nodes ==> t in old(nodes) || t == timeout
    {
      var t;
      ghost var i;
      t, i := FindPlace(timeout);
      hide InsertDelta, Total, Linked, Distinct;
      Splice(timeout, t, i);
    }

    /** The loop of `sys_timeout`: what `timeout` counts from the timer that it is to follow. */
    method FindPlace(timeout: Timeout) returns (t: Timeout, ghost i: nat)
      requires Valid() && next != null && timeout !in nodes && next.time <= timeout.time
      modifies timeout`time
      ensures i < |nodes| && t == nodes[i] && (t.next != null ==> t.next in nodes && t.next.time > timeout.time)
      ensures Follows(List(), old(timeout.AsEntry()), i, timeout.AsEntry())
    {
      ghost var ns, ds, e := nodes, List(), timeout.AsEntry();
      i := 0;
      t := next;
      assert ds[0] == t.AsEntry() && Linked(ns, 0);
      timeout.time := timeout.time - t.time;
      hide InsertDelta, Total, Distinct, Follows;
      while t.next != null && t.next.time <= timeout.time
        invariant 0 <= i < |ns| && t == ns[i] && t.next == NodeAt(ns, i + 1)
        invariant timeout.AsEntry() == e.(time := timeout.time)
        invariant Follows(ds, e, i, timeout.AsEntry())
        decreases |ns| - i
        modifies timeout`time
      {
        assert ds[i + 1] == t.next.AsEntry() && Linked(ns, i + 1);
        InsertSkip(ds, e, i, timeout.AsEntry());
        t := t.next;
        i := i + 1;
        timeout.time := timeout.time - t.time;
      }
    }

    /** The node goes in behind `t`. */
    method Splice(timeout: Timeout, t: Timeout, ghost i: nat)
      requires Valid() && timeout !in nodes && i < |nodes| && t == nodes[i]
      requires t.next != null ==> t.next in nodes && t.next.time > timeout.time
      requires Total(List()[..i + 1] + InsertDelta(List()[i + 1..], timeout.AsEntry())) <= 0xffff_ffff
      modifies this`nodes, nodes, timeout
      ensures Valid() && List() == old(List()[..i + 1] + InsertDelta(List()[i + 1..], timeout.AsEntry()))
      ensures forall t :: t in nodes ==> t in old(nodes) || t == timeout
    {
      ghost var ds, e := List(), timeout.AsEntry();
      assert Linked(nodes, i);
      if t.next != null { assert ds[i + 1] == t.next.AsEntry(); }
      Shorten(t, timeout.time, i);
      ghost var mid := List();
      LinkBehind(timeout, t, i);
      hide InsertDelta, Total, Linked, Distinct;
      SplicedIs(ds, mid, List(), i, e);
    }

    /** The timer behind `t` counts from the new one. */
    method Shorten(t: Timeout, time: u32, ghost i: nat)
      requires Distinct(nodes) && i < |nodes| && t == nodes[i] && t.next == NodeAt(nodes, i + 1)
      requires t.next != null ==> t.next.time > time
      modifies nodes`time
      ensures |List()| == old(|List()|)
      ensures forall k :: 0 <= k < |nodes| && k != i + 1 ==> List()[k] == old(List())[k]
      ensures i + 1 < |nodes| ==> old(List()[i + 1]).time >= time
      ensures i + 1 < |nodes| ==> List()[i + 1] == old(List()[i + 1]).(time := old(List()[i + 1]).time - time)
    {
      ghost var ds := List();
      if t.next != null {
        assert ds[i + 1] == t.next.AsEntry();
        t.next.time := t.next.time - time;
        forall k | 0 <= k < |nodes| && k != i + 1 ensures List()[k] == ds[k] { assert nodes[k] != t.next; }
      }
    }

    method LinkBehind(timeout: Timeout, t: Timeout, ghost i: nat)
      requires next == NodeAt(nodes, 0) && (forall i :: 0 <= i < |nodes| ==> Linked(nodes, i)) && Distinct(nodes)
      requires i < |nodes| && t == nodes[i] && timeout !in nodes
      modifies this`nodes, nodes`next, timeout`next
      ensures nodes == With(old(nodes), i, timeout)
      ensures next == NodeAt(nodes, 0) && (forall i :: 0 <= i < |nodes| ==> Linked(nodes, i)) && Distinct(nodes)
      ensures List()[i + 1] == timeout.AsEntry()
      ensures forall k :: 0 <= k < |nodes| && k != i + 1 ==> List()[k] == old(List())[if k <= i then k else k - 1]
    {
      ghost var ns := nodes;
      assert Linked(ns, i);
      timeout.next := t.next;
      t.next := timeout;
      nodes := With(ns, i, timeout);
      hide With;
      forall k | 0 <= k < |nodes| ensures Linked(nodes, k) { assert old(Linked(ns, if k <= i then k else k - 1)); }
    }

    /** `sys_untimeout` */
    method SysUntimeout(h: nat, arg: nat)
      requires Valid()
      modifies this, nodes
      ensures Valid() && List() == RemoveDelta(old(List()), h, arg)
      ensures forall t :: t in nodes ==> t in old(nodes)
    {
      ghost var ns, ds := nodes, List();
      ghost var i := 0;
      RemoveTotal(ds, h, arg);
      var t, prev: Timeout? := next, null;
      assert ds[0..] == ds;
      hide RemoveDelta, Total;
      while t != null && !(t.h == h && t.arg == arg)
        invariant 0 <= i <= |ns| && t == NodeAt(ns, i) && prev == (if i == 0 then null else ns[i - 1])
        invariant RemoveDelta(ds, h, arg) == ds[..i] + RemoveDelta(ds[i..], h, arg)
        decreases |ns| - i
        modifies {}
      {
        assert Linked(ns, i);
        RemoveSkip(ds, i, h, arg);
        prev := t;
        t := t.next;
        i := i + 1;
      }
      if t != null {
        Unlink(t, prev, i);
      } else {
        assert i == |ds|;
      }
    }

    /** The match is unlinked, and its time given back to the next. */
    method Unlink(t: Timeout, prev: Timeout?, ghost i: nat)
      requires Valid() && i < |nodes| && t == nodes[i] && prev == (if i == 0 then null else nodes[i - 1])
      requires Total(List()[..i] + RemoveDelta(List()[i..], t.h, t.arg)) <= 0xffff_ffff
      modifies this, nodes
      ensures Valid() && List() == old(List()[..i] + RemoveDelta(List()[i..], t.h, t.arg))
      ensures forall t :: t in nodes ==> t in old(nodes)
    {
      hide RemoveDelta, Total, Distinct;
      ghost var ds := List();
      TwoFit(ds, i);
      assert Linked(nodes, i);
      GiveBack(t, i);
      ghost var mid := List();
      CutLink(t, prev, i);
      UnlinkedIs(ds, mid, List(), i, t.h, t.arg);
    }

    /** The timer behind `t` now counts from the one before it. */
    method GiveBack(t: Timeout, ghost i: nat)
      requires Distinct(nodes) && i < |nodes| && t == nodes[i] && t.next == NodeAt(nodes, i + 1)
      requires i + 1 < |nodes| ==> List()[i].time + List()[i + 1].time <= 0xffff_ffff
      modifies nodes`time
      ensures forall k :: 0 <= k < |nodes| && k != i + 1 ==> List()[k] == old(List())[k]
      ensures i + 1 < |nodes| ==> List()[i + 1] == old(List()[i + 1].(time := List()[i + 1].time + List()[i].time))
    {
      ghost var ds := List();
      if t.next != null {
        assert ds[i] == t.AsEntry() && ds[i + 1] == t.next.AsEntry();
        t.next.time := t.next.time + t.time;
        forall k | 0 <= k < |nodes| && k != i + 1 ensures List()[k] == ds[k] { assert nodes[k] != t.next; }
      }
    }

    /** Takes `t` out of the chain of links. */
    method CutLink(t: Timeout, prev: Timeout?, ghost i: nat)
      requires next == NodeAt(nodes, 0) && (forall i :: 0 <= i < |nodes| ==> Linked(nodes, i)) && Distinct(nodes)
      requires i < |nodes| && t == nodes[i] && prev == (if i == 0 then null else nodes[i - 1])
      modifies this`next, this`nodes, nodes`next
      ensures nodes == Without(old(nodes), i)
      ensures next == NodeAt(nodes, 0) && (forall i :: 0 <= i < |nodes| ==> Linked(nodes, i)) && Distinct(nodes)
      ensures forall k :: 0 <= k < |nodes| ==> List()[k] == old(List())[if k < i then k else k + 1]
    {
      ghost var ns := nodes;
      assert Linked(ns, i);
      if prev == null { next := t.next; } else { prev.next := t.next; }
      nodes := Without(ns, i);
      hide Without;
      forall k | 0 <= k < |nodes| ensures Linked(nodes, k) {
        assert old(Linked(ns, if k < i then k else k + 1));
      }
    }

    /**
     * One turn of `sys_mbox_fetch` or `sys_sem_wait`: what the wait returned, if there was one, and whether
     * a timer's handler was called.
     */
    method Turn(result: u32) returns (fired: bool, h: nat, arg: nat)
      requires Valid()
      modifies this, nodes
      ensures Valid()
      ensures fired <==> old(List()) != [] && (old(List())[0].time == 0 || result == SYS_ARCH_TIMEOUT)
      ensures fired ==> List() == old(List())[1..] && Matches(old(List())[0], h, arg)
      ensures !fired ==> List() == Elapsed(old(List()), result)
      ensures forall t :: t in nodes ==> t in old(nodes)
    {
      ghost var ds := List();
      fired, h, arg := false, 0, 0;
      if next != null {
        assert ds[0] == next.AsEntry();
        var time := if next.time > 0 then result else SYS_ARCH_TIMEOUT;
        if time == SYS_ARCH_TIMEOUT {
          fired, h, arg := true, next.h, next.arg;
          Expire();
        } else {
          Count(result);
        }
      }
    }

    /** The first timer has run out: its node goes. */
    method Expire()
      requires Valid() && next != null
      modifies this
      ensures Valid() && List() == old(List())[1..] && nodes == old(nodes)[1..]
    {
      hide Total;
      ghost var ns := nodes;
      ElapsedTotal(List(), 0);
      assert Linked(ns, 0);
      next := next.next;
      nodes := ns[1..];
      forall i | 0 <= i < |nodes| ensures Linked(nodes, i) { assert old(Linked(ns, i + 1)); }
      assert List() == old(List())[1..];
    }

    /** A message came after `time`: the first timer has that much less to go. */
    method Count(time: u32)
      requires Valid() && next != null
      modifies nodes`time
      ensures Valid() && List() == Elapsed(old(List()), time)
    {
      ghost var ds := List();
      ElapsedTotal(ds, time);
      hide Total;
      assert ds[0] == next.AsEntry();
      if time <= next.time { next.time := next.time - time; } else { next.time := 0; }
      forall k | 1 <= k < |nodes| ensures List()[k] == ds[k] { assert nodes[k] != nodes[0]; }
      assert List() == Elapsed(ds, time);
    }
  }

  /** The new timer `e` goes behind timer `i`, or further on, with `rest` to count from there. */
  ghost predicate Follows(ds: seq<Entry>, e: Entry, i: nat, rest: Entry) {
    i < |ds| && InsertDelta(ds, e) == ds[..i + 1] + InsertDelta(ds[i + 1..], rest)
  }

  /** One more timer is passed on the way to the new one's place. */
  lemma InsertSkip(ds: seq<Entry>, e: Entry, i: nat, rest: Entry)
    requires i + 1 < |ds| && ds[i + 1].time <= rest.time
    requires Follows(ds, e, i, rest)
    ensures Follows(ds, e, i + 1, rest.(time := rest.time - ds[i + 1].time))
  {
    var more := ds[i + 1..];
    assert InsertDelta(more, rest) == [more[0]] + InsertDelta(more[1..], rest.(time := rest.time - more[0].time));
    hide InsertDelta;
    assert more[1..] == ds[i + 2..] && more[..1] == [ds[i + 1]];
    assert ds[..i + 1] + [ds[i + 1]] == ds[..i + 2];
  }

  lemma InsertHere(more: seq<Entry>, e: Entry)
    requires more != [] ==> more[0].time > e.time
    ensures InsertDelta(more, e) == [e] + if more == [] then [] else [more[0].(time := more[0].time - e.time)] + more[1..]
  {
  }

  /** One more timer is passed on the way to the match. */
  lemma RemoveSkip(ds: seq<Entry>, i: nat, h: nat, arg: nat)
    requires i < |ds| && !Matches(ds[i], h, arg) && RemoveDelta(ds, h, arg) == ds[..i] + RemoveDelta(ds[i..], h, arg)
    ensures RemoveDelta(ds, h, arg) == ds[..i + 1] + RemoveDelta(ds[i + 1..], h, arg)
  {
    hide Matches;
    var more := ds[i..];
    assert more[0] == ds[i] && more[1..] == ds[i + 1..];
    var rest := RemoveDelta(more[1..], h, arg);
    assert RemoveDelta(more, h, arg) == [ds[i]] + rest;
    hide RemoveDelta;
    assert ds[..i] + ([ds[i]] + rest) == (ds[..i] + [ds[i]]) + rest;
    assert ds[..i] + [ds[i]] == ds[..i + 1];
  }

  lemma RemoveHere(ds: seq<Entry>, i: nat, h: nat, arg: nat)
    requires i < |ds| && Matches(ds[i], h, arg)
    ensures RemoveDelta(ds[i..], h, arg)
            == if i + 1 < |ds| then [ds[i + 1].(time := ds[i + 1].time + ds[i].time)] + ds[i + 2..] else []
  {
    assert i + 1 < |ds| ==> ds[i..][2..] == ds[i + 2..];
  }

  /** The times after timer `i` has given its time to the next and is gone. */
  lemma UnlinkedIs(ds: seq<Entry>, mid: seq<Entry>, r: seq<Entry>, i: nat, h: nat, arg: nat)
    requires i < |ds| == |mid| == |r| + 1 && Matches(ds[i], h, arg)
    requires forall k :: 0 <= k < |mid| && k != i + 1 ==> mid[k] == ds[k]
    requires i + 1 < |ds| ==> mid[i + 1] == ds[i + 1].(time := ds[i + 1].time + ds[i].time)
    requires forall k :: 0 <= k < |r| ==> r[k] == mid[if k < i then k else k + 1]
    ensures r == ds[..i] + RemoveDelta(ds[i..], h, arg)
  {
    RemoveHere(ds, i, h, arg);
    hide RemoveDelta;
  }

  /** The times after a timer has been put behind timer `i`, and the next one counts from it. */
  lemma SplicedIs(ds: seq<Entry>, mid: seq<Entry>, r: seq<Entry>, i: nat, e: Entry)
    requires i < |ds| == |mid| && |r| == |ds| + 1 && (i + 1 < |ds| ==> ds[i + 1].time > e.time)
    requires forall k :: 0 <= k < |mid| && k != i + 1 ==> mid[k] == ds[k]
    requires i + 1 < |ds| ==> mid[i + 1] == ds[i + 1].(time := ds[i + 1].time - e.time)
    requires r[i + 1] == e && forall k :: 0 <= k < |r| && k != i + 1 ==> r[k] == mid[if k <= i then k else k - 1]
    ensures r == ds[..i + 1] + InsertDelta(ds[i + 1..], e)
  {
    InsertHere(ds[i + 1..], e);
    hide InsertDelta;
  }

  /** Two neighbours' times still fit 32 bits when added. */
  lemma {:induction false} TwoFit(ds: seq<Entry>, i: nat)
    requires i < |ds|
    ensures i + 1 < |ds| ==> ds[i].time + ds[i + 1].time <= Total(ds)
  {
    if i > 0 {
      TwoFit(ds[1..], i - 1);
    }
  }
}
