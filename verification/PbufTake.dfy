// `pbuf_take` of lwip/pbuf.c: every pbuf of a chain that only refers to its
// payload is replaced by one that has a copy.
//
// One turn of its loop allocates the new pbuf, moves the link to the rest of the
// chain over to it, hangs it behind the pbuf before, and gives up the old one.
// Counts are wrong in between; the lemmas go from one exact state to the next
// with the reference in question held outside.  What was replaced so far belongs
// to the caller alone, which is why the old pbuf takes nothing with it, and what
// is still to come keeps its lengths and bytes.
module PbufTake {
  import opened Words
  import opened PbufModel
  import opened PbufCycles
  import opened PbufPool
  import opened PbufShrink

  /** One pbuf linked in for another, which keeps no link. */
  function Swapped(m: map<Addr, Pbuf>, done: seq<Addr>, p: Addr, q: Addr, kind: Kind): map<Addr, Pbuf>
    requires p in m
  {
    var m1 := m[q := Pbuf(m[p].next, m[p].data, m[p].tot, kind, 1)][p := m[p].(next := None)];
    if done != [] && done[|done| - 1] in m1 then m1[done[|done| - 1] := m1[done[|done| - 1]].(next := Some(q))] else m1
  }

  /** `q`, with the fields and the payload of `p`, takes the place of `p` in the chain behind `done`; `p` is freed. */
  function Replaced(s: State, done: seq<Addr>, p: Addr, q: Addr, kind: Kind): State
    requires p in s.m
  {
    Release(s.(m := Swapped(s.m, done, p, q, kind)), Some(p))
  }

  /**
   * `pbuf_take` of the chain `done + path`, from `path` on, with the addresses that `mem_malloc` has left
   * to give: the state, and the new chain, empty for NULL.
   */
  function TakeFrom(s: State, room: seq<Addr>, done: seq<Addr>, path: seq<Addr>): (r: (State, seq<Addr>))
    decreases |path|
  {
    if path == [] || path[0] !in s.m then (s, done)
    else
      var p, x := path[0], s.m[path[0]];
      if !x.kind.Ref? then TakeFrom(s, room, done + [p], path[1..])
      else if |x.data| <= PBUF_POOL_BUFSIZE && s.pool != [] then
        TakeFrom(Replaced(s.(pool := s.pool[1..]), done, p, s.pool[0], Pool), room, done + [s.pool[0]], path[1..])
      else if room != [] then
        TakeFrom(Replaced(s, done, p, room[0], Ram), room[1..], done + [room[0]], path[1..])
      else (Release(s, Some((done + path)[0])), [])
  }

  /** The caller's reference, once the chain's head may have been replaced. */
  ghost function HeldAfter(held: multiset<Addr>, done: seq<Addr>, p: Addr, q: Addr): multiset<Addr> {
    if done == [] then held - multiset{p} + multiset{q} else held
  }

  /** A reference let go of and taken again. */
  lemma MovedBack(held: multiset<Addr>, x: Option<Addr>)
    ensures Moved(Moved(held, x, None), None, x) == held
    ensures x.Some? ==> x.value in Moved(held, x, None)
  {
  }

  lemma HandOverMaps(m: map<Addr, Pbuf>, p: Addr, q: Addr, y: Pbuf)
    requires p in m && q !in m
    ensures var a := m[q := y]; var b := a[p := a[p].(next := None)];
            && b[q] == y && a[p] == m[p]
            && b[q := b[q].(next := m[p].next)] == m[q := y.(next := m[p].next)][p := m[p].(next := None)]
  {
  }

  /** The link of `p` goes over to the new pbuf `q`. */
  lemma HandOver(m: map<Addr, Pbuf>, held: multiset<Addr>, p: Addr, q: Addr, kind: Kind)
    requires Counted(m, held) && p in m && q !in m
    ensures Counted(m[q := Pbuf(m[p].next, m[p].data, m[p].tot, kind, 1)][p := m[p].(next := None)], held + multiset{q})
  {
    var next, y := m[p].next, Pbuf(None, m[p].data, m[p].tot, kind, 1);
    AddCounted(m, held, q, y);
    HandOverMaps(m, p, q, y);
    var a := m[q := y];
    assert a[p].next == next;
    hide *;
    LinkCounted(a, held + multiset{q}, p, None);
    TakeUp(a[p := a[p].(next := None)], held + multiset{q}, q, next);
  }

  lemma TakeUp(m: map<Addr, Pbuf>, held: multiset<Addr>, q: Addr, next: Option<Addr>)
    requires Counted(m, Moved(held, next, None)) && q in m && m[q].next.None?
    ensures Counted(m[q := m[q].(next := next)], held)
  {
    MovedBack(held, next);
    hide *;
    LinkCounted(m, Moved(held, next, None), q, next);
  }

  lemma SwappedCounted(m: map<Addr, Pbuf>, held: multiset<Addr>, done: seq<Addr>, path: seq<Addr>, q: Addr, kind: Kind)
    requires Counted(m, held) && path != [] && Path(m, (done + path)[0], done + path) && q !in m
    requires path[0] in m && (done == [] ==> path[0] in held)
    ensures Counted(Swapped(m, done, path[0], q, kind), HeldAfter(held, done, path[0], q) + multiset{path[0]})
  {
    var p := path[0];
    HandOver(m, held, p, q, kind);
    hide Counted;
    if done != [] {
      RelinkPrev(m, held, done, path, q, kind);
    } else {
      assert held - multiset{p} + multiset{q} + multiset{p} == held + multiset{q};
    }
  }

  lemma RelinkPrev(m: map<Addr, Pbuf>, held: multiset<Addr>, done: seq<Addr>, path: seq<Addr>, q: Addr, kind: Kind)
    requires path != [] && done != [] && Path(m, (done + path)[0], done + path) && q !in m && path[0] in m
    requires Counted(m[q := Pbuf(m[path[0]].next, m[path[0]].data, m[path[0]].tot, kind, 1)][path[0] := m[path[0]].(next := None)],
                     held + multiset{q})
    ensures Counted(Swapped(m, done, path[0], q, kind), held + multiset{path[0]})
  {
    hide Counted;
    var p, prev := path[0], done[|done| - 1];
    var m1 := m[q := Pbuf(m[p].next, m[p].data, m[p].tot, kind, 1)][p := m[p].(next := None)];
    assert Linked(m, done + path, |done| - 1);
    hide Path;
    PathDistinct(m, (done + path)[0], done + path, |done| - 1, |done|);
    assert m1[prev] == m[prev] && m[prev].next == Some(p);
    LinkCounted(m1, held + multiset{q}, prev, Some(q));
    assert Moved(held + multiset{q}, Some(p), Some(q)) == held + multiset{p};
  }

  /** Where the links lead after a replacement. */
  lemma SwappedNext(m: map<Addr, Pbuf>, done: seq<Addr>, path: seq<Addr>, q: Addr, kind: Kind, a: Addr)
    requires path != [] && Path(m, (done + path)[0], done + path) && q !in m && path[0] in m
    ensures var m' := Swapped(m, done, path[0], q, kind); var p := path[0];
            && (a in m' <==> a in m || a == q)
            && (a in m' ==> m'[a].next == if a == p then None
                                          else if a == q then m[p].next
                                          else if m'[a].next == Some(q) then Some(q) else m[a].next)
            && (a in m' && a != q && m'[a].next == Some(q) ==> m[a].next == Some(p) || m[a].next == Some(q))
  {
    if done != [] {
      assert Linked(m, done + path, |done| - 1);
      PathDistinct(m, (done + path)[0], done + path, |done| - 1, |done|);
    }
  }

  /** The replacement of a pbuf in a chain. */
  lemma SwappedAcyclic(m: map<Addr, Pbuf>, held: multiset<Addr>, done: seq<Addr>, path: seq<Addr>, q: Addr, kind: Kind)
    requires Counted(m, held) && Acyclic(m) && path != [] && Path(m, (done + path)[0], done + path) && q !in m && path[0] in m
    ensures Acyclic(Swapped(m, done, path[0], q, kind))
  {
    var rank: map<Addr, nat> :| Ranked(m, rank);
    var p := path[0];
    assert RankedAt(m, rank, p);
    var up := rank[q := rank[p]];
    var m' := Swapped(m, done, p, q, kind);
    hide Path, Into;
    forall a | a in m' ensures RankedAt(m', up, a) {
      SwappedNext(m, done, path, q, kind, a);
      if m'[a].next.Some? { SwappedNext(m, done, path, q, kind, m'[a].next.value); }
      hide Swapped;
      if a in m { assert RankedAt(m, rank, a); }
    }
    assert Ranked(m', up);
  }

  lemma ReplacedCounted(s: State, held: multiset<Addr>, done: seq<Addr>, path: seq<Addr>, q: Addr, kind: Kind)
    requires Counted(s.m, held) && path != [] && Path(s.m, (done + path)[0], done + path) && q !in s.m
    requires path[0] in s.m && (done == [] ==> path[0] in held)
    ensures Counted(Replaced(s, done, path[0], q, kind).m, HeldAfter(held, done, path[0], q))
  {
    SwappedCounted(s.m, held, done, path, q, kind);
    var p, h := path[0], HeldAfter(held, done, path[0], q);
    hide Counted, Release, HeldAfter;
    assert p in h + multiset{p};
    ReleaseCounted(s.(m := Swapped(s.m, done, p, q, kind)), h + multiset{p}, p);
    assert h + multiset{p} - multiset{p} == h;
  }

  // ----- The chain afterwards

  /** All pbufs but `p` are as they were, apart from the new one and the link to it. */
  lemma ReplacedAt(s: State, done: seq<Addr>, path: seq<Addr>, q: Addr, kind: Kind, i: nat)
    requires path != [] && Path(s.m, (done + path)[0], done + path) && q !in s.m && path[0] in s.m
    requires i < |done + path|
    ensures var r := Replaced(s, done, path[0], q, kind).m; var chain := done + [q] + path[1..]; var was := done + path;
            && was[i] in s.m && chain[i] in r && Linked(r, chain, i)
            && r[chain[i]].data == s.m[was[i]].data && r[chain[i]].tot == s.m[was[i]].tot
            && (i != |done| ==> chain[i] == was[i] && r[chain[i]].kind == s.m[was[i]].kind)
            && (i == |done| ==> chain[i] == q && r[q].kind == kind)
  {
    var was, chain, p := done + path, done + [q] + path[1..], path[0];
    var t := s.(m := Swapped(s.m, done, p, q, kind));
    assert Linked(s.m, was, i);
    if i < |done| { PathDistinct(s.m, was[0], was, i, |done|); }
    if i > |done| { PathDistinct(s.m, was[0], was, |done|, i); assert was[i] == chain[i] == path[i - |done|]; }
    if done != [] {
      assert Linked(s.m, was, |done| - 1);
      PathDistinct(s.m, was[0], was, |done| - 1, |done|);
      if i < |done| - 1 { PathDistinct(s.m, was[0], was, i, |done| - 1); }
      if i > |done| - 1 { PathDistinct(s.m, was[0], was, |done| - 1, i); }
    }
    if i + 1 < |was| { assert i + 1 != |done| ==> chain[i + 1] == was[i + 1]; }
    LoneRelease(t, p, chain[i]);
  }

  /** A pbuf without a link, given up, takes nothing else with it. */
  lemma LoneRelease(s: State, p: Addr, a: Addr)
    requires p in s.m && s.m[p].next.None? && a in s.m && a != p
    ensures a in Release(s, Some(p)).m && Release(s, Some(p)).m[a] == s.m[a]
  {
  }

  /** The two chains have the same lengths and bytes, pbuf by pbuf. */
  ghost predicate Alike(m: map<Addr, Pbuf>, was: seq<Addr>, m': map<Addr, Pbuf>, chain: seq<Addr>) {
    |chain| == |was| && forall i :: 0 <= i < |was| ==> AlikeAt(m, was, m', chain, i)
  }

  ghost predicate AlikeAt(m: map<Addr, Pbuf>, was: seq<Addr>, m': map<Addr, Pbuf>, chain: seq<Addr>, i: nat) {
    DataAt(m', chain, i) == DataAt(m, was, i) && TotAt(m', chain, i) == TotAt(m, was, i)
  }

  lemma {:induction false} AlikeBytes(m: map<Addr, Pbuf>, was: seq<Addr>, m': map<Addr, Pbuf>, chain: seq<Addr>)
    requires Alike(m, was, m', chain)
    ensures Bytes(m', chain) == Bytes(m, was)
  {
    if was != [] {
      assert AlikeAt(m, was, m', chain, 0);
      forall i | 0 <= i < |was| - 1 ensures AlikeAt(m, was[1..], m', chain[1..], i) { assert AlikeAt(m, was, m', chain, i + 1); }
      AlikeBytes(m, was[1..], m', chain[1..]);
    }
  }

  lemma AlikeTwice(m: map<Addr, Pbuf>, a: seq<Addr>, m': map<Addr, Pbuf>, b: seq<Addr>, m'': map<Addr, Pbuf>, c: seq<Addr>)
    requires Alike(m, a, m', b) && Alike(m', b, m'', c)
    ensures Alike(m, a, m'', c)
  {
    forall i | 0 <= i < |a| ensures AlikeAt(m, a, m'', c, i) {
      assert AlikeAt(m, a, m', b, i) && AlikeAt(m', b, m'', c, i);
    }
  }

  /** None of the pbufs only refers to its payload. */
  ghost predicate Own(m: map<Addr, Pbuf>, chain: seq<Addr>) {
    forall i :: 0 <= i < |chain| ==> OwnAt(m, chain, i)
  }

  ghost predicate OwnAt(m: map<Addr, Pbuf>, chain: seq<Addr>, i: nat) {
    i < |chain| && chain[i] in m && !m[chain[i]].kind.Ref?
  }

  /** One replacement leaves the chain with the same bytes, and one more pbuf of its own. */
  lemma ReplacedChain(s: State, done: seq<Addr>, path: seq<Addr>, q: Addr, kind: Kind)
    requires path != [] && Path(s.m, (done + path)[0], done + path) && q !in s.m && path[0] in s.m && !kind.Ref?
    requires Own(s.m, done)
    ensures var r := Replaced(s, done, path[0], q, kind).m; var chain := (done + [q]) + path[1..];
            Path(r, chain[0], chain) && Alike(s.m, done + path, r, chain) && Own(r, done + [q])
  {
    var r, was := Replaced(s, done, path[0], q, kind).m, done + path;
    var chain := (done + [q]) + path[1..];
    assert chain == done + [q] + path[1..];
    ReplacedAt(s, done, path, q, kind, 0);
    hide Replaced;
    forall i | 0 <= i < |chain| ensures Linked(r, chain, i) { ReplacedAt(s, done, path, q, kind, i); }
    forall i | 0 <= i < |was| ensures AlikeAt(s.m, was, r, chain, i) { ReplacedAt(s, done, path, q, kind, i); }
    forall i | 0 <= i < |done| + 1 ensures OwnAt(r, done + [q], i) {
      ReplacedAt(s, done, path, q, kind, i);
      if i < |done| { assert OwnAt(s.m, done, i); }
    }
  }

  /** What `mem_malloc` will give: addresses outside the pool, each once, where no pbuf lives. */
  ghost predicate RoomOk(s: State, room: seq<Addr>) {
    Distinct(room) && forall a :: a in room ==> a >= PBUF_POOL_SIZE && a !in s.m
  }

  lemma SwappedRam(s: State, done: seq<Addr>, p: Addr, q: Addr)
    requires PoolOk(s) && p in s.m && s.m[p].kind.Ref? && q !in s.m && q >= PBUF_POOL_SIZE
    ensures PoolOk(s.(m := Swapped(s.m, done, p, q, Ram)))
  {
  }

  lemma SwappedPool(s: State, done: seq<Addr>, p: Addr)
    requires PoolOk(s) && p in s.m && s.m[p].kind.Ref? && s.pool != []
    ensures PoolOk(State(Swapped(s.m, done, p, s.pool[0], Pool), s.pool[1..]))
  {
    var q, rest := s.pool[0], s.pool[1..];
    assert s.pool == [q] + rest;
    assert q in s.pool;
    forall a ensures var r := Swapped(s.m, done, p, q, Pool);
                     (a in r <==> a in s.m || a == q) && (a in r ==> r[a].kind == if a == q then Pool else s.m[a].kind)
    {
    }
    hide Swapped;
    forall a | a in rest ensures a in s.pool && a != q {
      var i :| 0 <= i < |rest| && rest[i] == a;
      assert s.pool[0] != s.pool[i + 1];
    }
    forall i, j | 0 <= i < j < |rest| ensures rest[i] != rest[j] {
      assert s.pool[i + 1] != s.pool[j + 1];
    }
  }

  lemma ReplacedRoom(s: State, done: seq<Addr>, p: Addr, q: Addr, kind: Kind, room: seq<Addr>)
    requires p in s.m && RoomOk(s, room) && q !in room
    ensures RoomOk(Replaced(s, done, p, q, kind), room)
  {
    forall a | a in room ensures a !in Replaced(s, done, p, q, kind).m {
      ReleaseShrinks(s.(m := Swapped(s.m, done, p, q, kind)), Some(p), a);
    }
  }

  /** What `pbuf_take` promises of its result. */
  ghost predicate Taken(s: State, held: multiset<Addr>, was: seq<Addr>, r: State, chain: seq<Addr>) {
    && PoolOk(r) && Acyclic(r.m) && was != []
    && if chain == [] then Counted(r.m, held - multiset{was[0]})
       else Path(r.m, chain[0], chain) && Alike(s.m, was, r.m, chain) && Own(r.m, chain)
            && Counted(r.m, held - multiset{was[0]} + multiset{chain[0]})
  }

  lemma TakenMore(s: State, held: multiset<Addr>, was: seq<Addr>, s': State, held': multiset<Addr>, was': seq<Addr>,
                                     r: State, chain: seq<Addr>)
    requires Taken(s', held', was', r, chain) && Alike(s.m, was, s'.m, was')
    requires was != [] && held' - multiset{was'[0]} == held - multiset{was[0]}
    ensures Taken(s, held, was, r, chain)
  {
    if chain != [] { AlikeTwice(s.m, was, s'.m, was', r.m, chain); }
  }

  /**
   * `pbuf_take` returns a chain of the same lengths and bytes with no PBUF_REF pbuf in it, for which the
   * caller holds the reference that it had of the old one, or gives the chain up and returns NULL.
   */
  lemma {:induction false} TakeGood(s: State, held: multiset<Addr>, room: seq<Addr>, done: seq<Addr>, path: seq<Addr>)
    requires PoolOk(s) && RoomOk(s, room) && Counted(s.m, held) && Acyclic(s.m) && done + path != []
    requires Path(s.m, (done + path)[0], done + path) && (done + path)[0] in held && Own(s.m, done)
    ensures var r := TakeFrom(s, room, done, path); Taken(s, held, done + path, r.0, r.1)
    decreases |path|
  {
    hide Counted, Acyclic, Own, Taken;
    if path == [] {
      assert done + path == done;
      hide *;
      TakeNone(s, held, done);
    } else {
      var p := path[0];
      assert Linked(s.m, done + path, |done|);
      assert p in s.m;
      hide TakeFrom, Path;
      TakeFromIs(s, room, done, path);
      hide *;
      if !s.m[p].kind.Ref? {
        assert (done + [p]) + path[1..] == done + path;
        OwnMore(s.m, done, p);
        TakeGood(s, held, room, done + [p], path[1..]);
      } else if |s.m[p].data| <= PBUF_POOL_BUFSIZE && s.pool != [] {
        SwappedPool(s, done, p);
        TakeStep(s, s.(pool := s.pool[1..]), held, room, done, path, s.pool[0], Pool);
      } else if room != [] {
        RoomTail(s, room);
        SwappedRam(s, done, p, room[0]);
        TakeStep(s, s, held, room[1..], done, path, room[0], Ram);
      } else {
        TakeFails(s, held, done + path);
      }
    }
  }

  /** One turn of the loop. */
  lemma TakeFromIs(s: State, room: seq<Addr>, done: seq<Addr>, path: seq<Addr>)
    requires path != [] && path[0] in s.m
    ensures var p, x := path[0], s.m[path[0]];
            TakeFrom(s, room, done, path) ==
            if !x.kind.Ref? then TakeFrom(s, room, done + [p], path[1..])
            else if |x.data| <= PBUF_POOL_BUFSIZE && s.pool != [] then
              TakeFrom(Replaced(s.(pool := s.pool[1..]), done, p, s.pool[0], Pool), room, done + [s.pool[0]], path[1..])
            else if room != [] then
              TakeFrom(Replaced(s, done, p, room[0], Ram), room[1..], done + [room[0]], path[1..])
            else (Release(s, Some((done + path)[0])), [])
  {
  }

  lemma TakeNone(s: State, held: multiset<Addr>, done: seq<Addr>)
    requires PoolOk(s) && Counted(s.m, held) && Acyclic(s.m) && done != []
    requires Path(s.m, done[0], done) && done[0] in held && Own(s.m, done)
    ensures Taken(s, held, done, s, done)
  {
    assert held - multiset{done[0]} + multiset{done[0]} == held;
    forall i | 0 <= i < |done| ensures AlikeAt(s.m, done, s.m, done, i) { }
    hide Counted, PoolOk, Path, Own;
  }

  lemma TakeFails(s: State, held: multiset<Addr>, was: seq<Addr>)
    requires PoolOk(s) && Counted(s.m, held) && Acyclic(s.m) && was != [] && was[0] in held
    ensures Taken(s, held, was, Release(s, Some(was[0])), [])
  {
    hide Release;
    ReleaseCounted(s, held, was[0]);
    ReleasePool(s, Some(was[0]));
    ReleaseAcyclic(s, Some(was[0]));
  }

  lemma RoomTail(s: State, room: seq<Addr>)
    requires RoomOk(s, room) && room != []
    ensures RoomOk(s, room[1..]) && room[0] !in room[1..] && room[0] !in s.m && room[0] >= PBUF_POOL_SIZE
  {
    assert room[0] in room;
    assert forall a :: a in room[1..] ==> a in room;
  }

  lemma OwnMore(m: map<Addr, Pbuf>, done: seq<Addr>, p: Addr)
    requires Own(m, done) && p in m && !m[p].kind.Ref?
    ensures Own(m, done + [p])
  {
    forall i | 0 <= i < |done| + 1 ensures OwnAt(m, done + [p], i) {
      if i < |done| { assert OwnAt(m, done, i); }
    }
  }

  /** `done + path` is a chain, whose front has been dealt with. */
  ghost predicate Taking(s: State, room: seq<Addr>, done: seq<Addr>, path: seq<Addr>) {
    PoolOk(s) && RoomOk(s, room) && done + path != [] && Path(s.m, (done + path)[0], done + path) && Own(s.m, done)
  }

  /** One replacement leaves everything ready for the next. */
  lemma TakeTurn(t: State, room: seq<Addr>, done: seq<Addr>, path: seq<Addr>, q: Addr, kind: Kind)
    requires path != [] && path[0] in t.m && PoolOk(t.(m := Swapped(t.m, done, path[0], q, kind)))
    requires RoomOk(t, room) && q !in room && q !in t.m && !kind.Ref?
    requires Path(t.m, (done + path)[0], done + path) && Own(t.m, done)
    ensures Taking(Replaced(t, done, path[0], q, kind), room, done + [q], path[1..])
    ensures Alike(t.m, done + path, Replaced(t, done, path[0], q, kind).m, (done + [q]) + path[1..])
  {
    ReplacedChain(t, done, path, q, kind);
    ReplacedRoom(t, done, path[0], q, kind, room);
    ReleasePool(t.(m := Swapped(t.m, done, path[0], q, kind)), Some(path[0]));
    hide Path, PoolOk, RoomOk, Own, Release, Alike;
  }

  /** A replacement, and the rest of the chain. */
  lemma TakeStep(s: State, t: State, held: multiset<Addr>, room: seq<Addr>, done: seq<Addr>, path: seq<Addr>, q: Addr, kind: Kind)
    requires t.m == s.m && path != [] && path[0] in s.m && PoolOk(t.(m := Swapped(t.m, done, path[0], q, kind)))
    requires RoomOk(t, room) && q !in room && q !in t.m && !kind.Ref?
    requires Counted(s.m, held) && Acyclic(s.m)
    requires Path(s.m, (done + path)[0], done + path) && (done + path)[0] in held && Own(s.m, done)
    ensures var r := TakeFrom(Replaced(t, done, path[0], q, kind), room, done + [q], path[1..]);
            Taken(s, held, done + path, r.0, r.1)
    decreases |path|, 0
  {
    var p, was := path[0], done + path;
    var t', held' := Replaced(t, done, p, q, kind), HeldAfter(held, done, p, q);
    var was' := (done + [q]) + path[1..];
    assert done == [] ==> was[0] == p;
    TakeTurn(t, room, done, path, q, kind);
    ReplacedCounted(t, held, done, path, q, kind);
    SwappedAcyclic(t.m, held, done, path, q, kind);
    ReleaseAcyclic(t.(m := Swapped(t.m, done, p, q, kind)), Some(p));
    assert was'[0] == if done == [] then q else done[0];
    assert was'[0] in held' && held' - multiset{was'[0]} == held - multiset{was[0]};
    hide Replaced, HeldAfter, PoolOk, Acyclic, RoomOk, Counted, Path, Alike, Own, TakeFrom, Taken;
    TakeGood(t', held', room, done + [q], path[1..]);
    var r := TakeFrom(t', room, done + [q], path[1..]);
    TakenMore(s, held, was, t', held', was', r.0, r.1);
  }

  // ----- When it gives up

  /** How many pbufs of a chain only refer to their payload, and fit a pbuf of the pool, or do not. */
  function Refs(m: map<Addr, Pbuf>, path: seq<Addr>, small: bool): nat {
    if path == [] then 0
    else
      (if path[0] in m && m[path[0]].kind.Ref? && (|m[path[0]].data| <= PBUF_POOL_BUFSIZE <==> small) then 1 else 0)
      + Refs(m, path[1..], small)
  }

  lemma {:induction false} RefsSame(m: map<Addr, Pbuf>, m': map<Addr, Pbuf>, path: seq<Addr>, small: bool)
    requires forall i :: 0 <= i < |path| ==>
               path[i] in m && path[i] in m' && m'[path[i]].kind == m[path[i]].kind && m'[path[i]].data == m[path[i]].data
    ensures Refs(m', path, small) == Refs(m, path, small)
  {
    if path != [] {
      assert path[0] in m;
      forall i | 0 <= i < |path| - 1 ensures path[1..][i] == path[i + 1] { }
      RefsSame(m, m', path[1..], small);
    }
  }

  /** A replacement leaves the rest of the chain and the pool alone. */
  lemma ReplacedRest(s: State, done: seq<Addr>, path: seq<Addr>, q: Addr, kind: Kind, small: bool)
    requires path != [] && Path(s.m, (done + path)[0], done + path) && q !in s.m && path[0] in s.m && s.m[path[0]].kind.Ref?
    ensures var r := Replaced(s, done, path[0], q, kind); Refs(r.m, path[1..], small) == Refs(s.m, path[1..], small) && r.pool == s.pool
  {
    var r, was, n := Replaced(s, done, path[0], q, kind), done + path, |done|;
    forall i | 0 <= i < |path| - 1
      ensures var a := path[1..][i];
              a in s.m && a in r.m && r.m[a].kind == s.m[a].kind && r.m[a].data == s.m[a].data
    {
      ReplacedAt(s, done, path, q, kind, n + 1 + i);
      hide Path, Replaced;
      assert was[n + 1 + i] == path[1..][i];
    }
    if done != [] { PathDistinct(s.m, was[0], was, n - 1, n); }
    hide Path;
    LonePool(s.(m := Swapped(s.m, done, path[0], q, kind)), path[0]);
    hide Swapped, Release, Refs;
    RefsSame(s.m, r.m, path[1..], small);
  }

  lemma LonePool(s: State, p: Addr)
    requires p in s.m && s.m[p].next.None? && !s.m[p].kind.Pool?
    ensures Release(s, Some(p)).pool == s.pool
  {
  }

  /**
   * `pbuf_take` gives up if and only if memory does not suffice for the PBUF_REF pbufs that are too large for the
   * pool, and for those that the pool has no pbuf for.
   */
  lemma {:induction false} TakeGivesUpIff(s: State, room: seq<Addr>, done: seq<Addr>, path: seq<Addr>)
    requires Taking(s, room, done, path)
    ensures TakeFrom(s, room, done, path).1 == [] <==>
            Refs(s.m, path, false) + Max(0, Refs(s.m, path, true) - |s.pool|) > |room|
    decreases |path|
  {
    hide Taking, Refs, Replaced, TakeFrom;
    if path == [] {
      TakeEnds(s, room, done);
    } else {
      var p := path[0];
      PassedOver(s, room, done, path);
      TakeFromIs(s, room, done, path);
      RefsStep(s.m, path, false);
      RefsStep(s.m, path, true);
      if !s.m[p].kind.Ref? {
        TakeGivesUpIff(s, room, done + [p], path[1..]);
      } else if |s.m[p].data| <= PBUF_POOL_BUFSIZE && s.pool != [] {
        PoolTurn(s, room, done, path);
        TakeGivesUpIff(Replaced(s.(pool := s.pool[1..]), done, p, s.pool[0], Pool), room, done + [s.pool[0]], path[1..]);
      } else if room != [] {
        RoomTurn(s, room, done, path);
        TakeGivesUpIff(Replaced(s, done, p, room[0], Ram), room[1..], done + [room[0]], path[1..]);
      }
    }
  }

  lemma TakeEnds(s: State, room: seq<Addr>, done: seq<Addr>)
    requires Taking(s, room, done, [])
    ensures TakeFrom(s, room, done, []) == (s, done) && done != []
    ensures Refs(s.m, [], false) == Refs(s.m, [], true) == 0
  {
  }

  /** A pbuf that has its own payload is passed over. */
  lemma PassedOver(s: State, room: seq<Addr>, done: seq<Addr>, path: seq<Addr>)
    requires Taking(s, room, done, path) && path != []
    ensures path[0] in s.m && (!s.m[path[0]].kind.Ref? ==> Taking(s, room, done + [path[0]], path[1..]))
  {
    assert Linked(s.m, done + path, |done|);
    assert (done + path)[|done|] == path[0] && (done + [path[0]]) + path[1..] == done + path;
    hide Path, PoolOk, RoomOk, Own;
    if !s.m[path[0]].kind.Ref? { OwnMore(s.m, done, path[0]); }
  }

  lemma RefsStep(m: map<Addr, Pbuf>, path: seq<Addr>, small: bool)
    requires path != [] && path[0] in m
    ensures Refs(m, path, small) == Refs(m, path[1..], small)
              + if m[path[0]].kind.Ref? && (|m[path[0]].data| <= PBUF_POOL_BUFSIZE <==> small) then 1 else 0
  {
  }

  lemma PoolTurn(s: State, room: seq<Addr>, done: seq<Addr>, path: seq<Addr>)
    requires Taking(s, room, done, path) && path != [] && path[0] in s.m && s.m[path[0]].kind.Ref? && s.pool != []
    ensures var q, t := s.pool[0], s.(pool := s.pool[1..]);
            var r := Replaced(t, done, path[0], q, Pool);
            && Taking(r, room, done + [q], path[1..]) && r.pool == t.pool
            && Refs(r.m, path[1..], true) == Refs(s.m, path[1..], true) && Refs(r.m, path[1..], false) == Refs(s.m, path[1..], false)
  {
    var q, t := s.pool[0], s.(pool := s.pool[1..]);
    assert q in s.pool && q !in room;
    SwappedPool(s, done, path[0]);
    hide Path, PoolOk, Own, Replaced, Refs, Swapped;
    TakeTurn(t, room, done, path, q, Pool);
    ReplacedRest(t, done, path, q, Pool, true);
    ReplacedRest(t, done, path, q, Pool, false);
  }

  lemma RoomTurn(s: State, room: seq<Addr>, done: seq<Addr>, path: seq<Addr>)
    requires Taking(s, room, done, path) && path != [] && path[0] in s.m && s.m[path[0]].kind.Ref? && room != []
    ensures var q := room[0];
            var r := Replaced(s, done, path[0], q, Ram);
            && Taking(r, room[1..], done + [q], path[1..]) && r.pool == s.pool
            && Refs(r.m, path[1..], true) == Refs(s.m, path[1..], true) && Refs(r.m, path[1..], false) == Refs(s.m, path[1..], false)
  {
    var q := room[0];
    RoomTail(s, room);
    SwappedRam(s, done, path[0], q);
    hide Path, PoolOk, RoomOk, Own, Replaced, Refs, Swapped;
    TakeTurn(s, room[1..], done, path, q, Ram);
    ReplacedRest(s, done, path, q, Ram, true);
    ReplacedRest(s, done, path, q, Ram, false);
  }

  /** A replacement leaves a pbuf outside the chain alone. */
  lemma ReplacedOutside(s: State, done: seq<Addr>, path: seq<Addr>, q: Addr, kind: Kind, a: Addr)
    requires path != [] && path[0] in s.m && a in s.m && a !in done + path && q !in s.m
    requires Path(s.m, (done + path)[0], done + path)
    ensures var r := Replaced(s, done, path[0], q, kind).m; a in r && r[a] == s.m[a]
  {
    assert a != path[0] by { assert (done + path)[|done|] == path[0]; }
    if done != [] {
      PathDistinct(s.m, (done + path)[0], done + path, |done| - 1, |done|);
      assert (done + path)[|done| - 1] == done[|done| - 1];
    }
    hide Path;
    LoneRelease(s.(m := Swapped(s.m, done, path[0], q, kind)), path[0], a);
  }

  /** `pbuf_take` touches no pbuf outside the chain. */
  lemma {:induction false} TakeElsewhere(s: State, room: seq<Addr>, done: seq<Addr>, path: seq<Addr>, a: Addr)
    requires Taking(s, room, done, path) && a in s.m && a !in done + path
    ensures var r := TakeFrom(s, room, done, path).0; a in r.m && r.m[a] == s.m[a]
    decreases |path|
  {
    if path != [] {
      var p := path[0];
      assert Linked(s.m, done + path, |done|);
      TakeFromIs(s, room, done, path);
      hide TakeFrom, Path, PoolOk, RoomOk, Own, Replaced;
      if !s.m[p].kind.Ref? {
        assert (done + [p]) + path[1..] == done + path;
        OwnMore(s.m, done, p);
        TakeElsewhere(s, room, done + [p], path[1..], a);
      } else if |s.m[p].data| <= PBUF_POOL_BUFSIZE && s.pool != [] {
        PoolTurn(s, room, done, path);
        PoolHead(s);
        TakeOutside(s.(pool := s.pool[1..]), room, done, path, s.pool[0], Pool, a);
      } else if room != [] {
        RoomTurn(s, room, done, path);
        RoomTail(s, room);
        TakeOutside(s, room[1..], done, path, room[0], Ram, a);
      } else {
        ReleaseElsewhere(s, (done + path)[0], done + path, a);
      }
    }
  }

  lemma PoolHead(s: State)
    requires PoolOk(s) && s.pool != []
    ensures s.pool[0] !in s.m
  {
    assert s.pool[0] in s.pool;
  }

  lemma TakeOutside(t: State, room: seq<Addr>, done: seq<Addr>, path: seq<Addr>, q: Addr, kind: Kind, a: Addr)
    requires path != [] && path[0] in t.m && a in t.m && a !in done + path && q !in t.m
    requires Path(t.m, (done + path)[0], done + path) && Taking(Replaced(t, done, path[0], q, kind), room, done + [q], path[1..])
    ensures var r := TakeFrom(Replaced(t, done, path[0], q, kind), room, done + [q], path[1..]).0;
            a in r.m && r.m[a] == t.m[a]
    decreases |path|, 0
  {
    ReplacedOutside(t, done, path, q, kind, a);
    hide Replaced, TakeFrom, Path, Taking;
    assert forall x :: x in path[1..] ==> x in path;
    TakeElsewhere(Replaced(t, done, path[0], q, kind), room, done + [q], path[1..], a);
  }
}
