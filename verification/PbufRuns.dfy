// Whole runs of lwip/pbuf.c.
module PbufRuns {
  import opened Words
  import opened PbufModel
  import opened PbufCycles
  import opened PbufPool
  import opened PbufShrink
  import opened PbufTake

  /** The pool and the counts are exact, and the links make no cycle. */
  ghost predicate Good(s: State, held: multiset<Addr>) {
    PoolOk(s) && Counted(s.m, held) && Acyclic(s.m)
  }

  /** A call of one of the operations; chains are given by the addresses of their pbufs. */
  datatype Event =
    | AllocChain(length: u16, offset: nat, junk: seq<u8>)
    | AllocOne(a: Addr, data: seq<u8>, kind: Kind)
    | Drop(p: Addr)
    | Hold(p: Addr)
    | Concat(h: seq<Addr>, t: seq<Addr>)
    | Link(h: seq<Addr>, t: seq<Addr>)
    | Unlink(p: Addr)
    | Shrink(path: seq<Addr>, newLen: u16)
    | Copy(path: seq<Addr>, room: seq<Addr>)

  /** What the operations demand of their callers. */
  ghost predicate Possible(s: State, held: multiset<Addr>, e: Event) {
    match e
    case AllocChain(length, offset, junk) => offset <= PBUF_POOL_BUFSIZE && length <= |junk|
    case AllocOne(a, data, kind) => a >= PBUF_POOL_SIZE && a !in s.m && |data| < 0x1_0000 && !kind.Pool?
    case Drop(p) => p in held
    case Hold(p) => p in s.m && s.m[p].ref != 0xffff
    case Concat(h, t) => Joinable(s.m, held, h, t)
    case Link(h, t) => Joinable(s.m, held, h, t) && s.m[t[0]].ref != 0xffff
    case Unlink(p) => p in s.m
    case Shrink(path, _) => path != [] && Path(s.m, path[0], path)
    case Copy(path, room) => path != [] && Path(s.m, path[0], path) && path[0] in held && RoomOk(s, room)
  }

  /** Two chains with nothing in common, the second one held by the caller. */
  ghost predicate Joinable(m: map<Addr, Pbuf>, held: multiset<Addr>, h: seq<Addr>, t: seq<Addr>) {
    h != [] && t != [] && Path(m, h[0], h) && Path(m, t[0], t) && t[0] in held && t[0] in m && forall x :: x in h ==> x !in t
  }

  /** The state after a call, and what is held outside then. */
  ghost function Step(s: State, held: multiset<Addr>, e: Event): (State, multiset<Addr>)
    requires Possible(s, held, e) && Counted(s.m, held)
  {
    match e
    case AllocChain(length, offset, junk) =>
      var r := AllocPool(s, length, offset, junk);
      (r.0, if r.1.Some? then held + multiset{r.1.value} else held)
    case AllocOne(a, data, kind) => (s.(m := s.m[a := Pbuf(None, data, |data|, kind, 1)]), held + multiset{a})
    case Drop(p) => (Release(s, Some(p)), held - multiset{p})
    case Hold(p) => (s.(m := RefUp(s.m, p)), held + multiset{p})
    case Concat(h, t) => (s.(m := Cat(s.m, h, t[0])), held - multiset{t[0]})
    case Link(h, t) => (s.(m := Chain(s.m, h, t[0])), held)
    case Unlink(p) => (Dechain(s, p).0, held)
    case Shrink(path, newLen) => (Realloc(s, path, newLen), held)
    case Copy(path, room) =>
      var r := TakeFrom(s, room, [], path);
      (r.0, if r.1 == [] then held - multiset{path[0]} else held - multiset{path[0]} + multiset{r.1[0]})
  }

  lemma CatGood(s: State, held: multiset<Addr>, h: seq<Addr>, t: seq<Addr>)
    requires Good(s, held) && Joinable(s.m, held, h, t)
    ensures Good(s.(m := Cat(s.m, h, t[0])), held - multiset{t[0]})
  {
    CatCounted(s.m, held, h[0], h, t[0]);
    CatAcyclic(s.m, h, t);
    assert SameKinds(s.m, Cat(s.m, h, t[0]));
    KindsPool(s, Cat(s.m, h, t[0]));
  }

  lemma RefUpGood(s: State, held: multiset<Addr>, p: Addr)
    requires Good(s, held) && p in s.m && s.m[p].ref != 0xffff
    ensures Good(s.(m := RefUp(s.m, p)), held + multiset{p})
  {
    RefCountedIff(s.m, held, p);
    assert Fewer(RefUp(s.m, p), s.m);
    FewerAcyclic(RefUp(s.m, p), s.m);
    KindsPool(s, RefUp(s.m, p));
  }

  lemma DechainGood(s: State, held: multiset<Addr>, p: Addr)
    requires Good(s, held) && p in s.m
    ensures Good(Dechain(s, p).0, held)
  {
    assert s.m[p].next.Some? ==> s.m[p].next.value in s.m;
    DechainCounted(s, held, p);
    hide PoolOk, Acyclic, Counted, Decoupled, Release;
    if s.m[p].next.Some? {
      var d := s.(m := Decoupled(s.m, p));
      DecoupledGood(s, p);
      ReleasePool(d, s.m[p].next);
      ReleaseAcyclic(d, s.m[p].next);
    }
  }

  lemma DecoupledGood(s: State, p: Addr)
    requires PoolOk(s) && Acyclic(s.m) && p in s.m && s.m[p].next.Some? && s.m[p].next.value in s.m
    ensures PoolOk(s.(m := Decoupled(s.m, p))) && Acyclic(Decoupled(s.m, p))
  {
    var m' := Decoupled(s.m, p);
    assert SameKinds(s.m, m') && Fewer(m', s.m);
    hide Decoupled, PoolOk, Acyclic, SameKinds, Fewer;
    KindsPool(s, m');
    FewerAcyclic(m', s.m);
  }

  lemma ReallocGood(s: State, held: multiset<Addr>, path: seq<Addr>, newLen: u16)
    requires Good(s, held) && path != [] && Path(s.m, path[0], path)
    ensures Good(Realloc(s, path, newLen), held)
  {
    ReallocCounted(s, held, path, newLen);
    hide PoolOk, Acyclic, Counted, Stop, Left, CutOff, Trimmed;
    if newLen < s.m[path[0]].tot {
      var j, left, grow := Stop(s.m, path, newLen), Left(s.m, path, newLen), newLen - s.m[path[0]].tot;
      TrimmedGood(s, path, j, left, grow);
      CutOffGood(s.(m := Trimmed(s.m, path, j, left, grow)), path[j]);
    }
  }

  lemma TrimmedGood(s: State, path: seq<Addr>, j: nat, left: nat, grow: int)
    requires PoolOk(s) && Acyclic(s.m) && j < |path|
    ensures var m' := Trimmed(s.m, path, j, left, grow); PoolOk(s.(m := m')) && Acyclic(m')
  {
    var m' := Trimmed(s.m, path, j, left, grow);
    assert SameKinds(s.m, m') && Fewer(m', s.m);
    hide Trimmed, PoolOk, Acyclic;
    KindsPool(s, m');
    FewerAcyclic(m', s.m);
  }

  lemma CutOffGood(s: State, q: Addr)
    requires PoolOk(s) && Acyclic(s.m)
    ensures PoolOk(CutOff(s, q)) && Acyclic(CutOff(s, q).m)
  {
    if q in s.m {
      var r := Release(s, s.m[q].next);
      ReleasePool(s, s.m[q].next);
      ReleaseAcyclic(s, s.m[q].next);
      hide Release;
      if q in r.m {
        var m' := r.m[q := r.m[q].(next := None)];
        KindsPool(r, m');
        FewerAcyclic(m', r.m);
      }
    }
  }

  lemma AllocOneGood(s: State, held: multiset<Addr>, a: Addr, x: Pbuf)
    requires Good(s, held) && a >= PBUF_POOL_SIZE && a !in s.m && x.next.None? && x.ref == 1 && !x.kind.Pool?
    ensures Good(s.(m := s.m[a := x]), held + multiset{a})
  {
    AddCounted(s.m, held, a, x);
    AddAcyclic(s.m, a, x);
  }

  lemma StepGood(s: State, held: multiset<Addr>, e: Event)
    requires Good(s, held) && Possible(s, held, e)
    ensures Good(Step(s, held, e).0, Step(s, held, e).1)
  {
    hide PoolOk, Counted, Acyclic, Release, Realloc, TakeFrom, AllocPool, Dechain, Cat, RefUp, Path, RoomOk;
    match e
    case AllocChain(length, offset, junk) => AllocPoolGood(s, held, length, offset, junk);
    case AllocOne(a, data, kind) => AllocOneGood(s, held, a, Pbuf(None, data, |data|, kind, 1));
    case Drop(p) => DropGood(s, held, p);
    case Hold(p) => RefUpGood(s, held, p);
    case Concat(h, t) => CatGood(s, held, h, t);
    case Link(h, t) => ChainGood(s, held, h, t);
    case Unlink(p) => DechainGood(s, held, p);
    case Shrink(path, newLen) => ReallocGood(s, held, path, newLen);
    case Copy(path, room) => TakeAllGood(s, held, path, room);
  }

  lemma DropGood(s: State, held: multiset<Addr>, p: Addr)
    requires Good(s, held) && p in held
    ensures Good(Release(s, Some(p)), held - multiset{p})
  {
    hide Release, PoolOk, Acyclic;
    ReleaseCounted(s, held, p);
    ReleasePool(s, Some(p));
    ReleaseAcyclic(s, Some(p));
  }

  lemma ChainGood(s: State, held: multiset<Addr>, h: seq<Addr>, t: seq<Addr>)
    requires Good(s, held) && Joinable(s.m, held, h, t) && s.m[t[0]].ref != 0xffff
    ensures Good(s.(m := Chain(s.m, h, t[0])), held)
  {
    CatGood(s, held, h, t);
    assert t[0] !in h;
    assert Cat(s.m, h, t[0])[t[0]] == s.m[t[0]];
    hide Good, Cat, RefUp;
    RefUpGood(s.(m := Cat(s.m, h, t[0])), held - multiset{t[0]}, t[0]);
    assert held - multiset{t[0]} + multiset{t[0]} == held;
  }

  lemma TakeAllGood(s: State, held: multiset<Addr>, path: seq<Addr>, room: seq<Addr>)
    requires Good(s, held) && path != [] && Path(s.m, path[0], path) && path[0] in held && RoomOk(s, room)
    ensures var r := TakeFrom(s, room, [], path);
            Taken(s, held, path, r.0, r.1)
            && Good(r.0, if r.1 == [] then held - multiset{path[0]} else held - multiset{path[0]} + multiset{r.1[0]})
  {
    assert [] + path == path;
    hide TakeFrom, PoolOk, Acyclic, RoomOk, Path, Counted;
    TakeGood(s, held, room, [], path);
  }

  ghost predicate Run(ss: seq<State>, hs: seq<multiset<Addr>>, es: seq<Event>) {
    && |ss| == |hs| == |es| + 1 && Good(ss[0], hs[0])
    && forall i :: 0 <= i < |es| ==> Happens(ss, hs, es, i)
  }

  ghost predicate Happens(ss: seq<State>, hs: seq<multiset<Addr>>, es: seq<Event>, i: nat)
    requires |ss| == |hs| == |es| + 1 && i < |es|
  {
    Counted(ss[i].m, hs[i]) && Possible(ss[i], hs[i], es[i]) && (ss[i + 1], hs[i + 1]) == Step(ss[i], hs[i], es[i])
  }

  lemma {:induction false} RunGood(ss: seq<State>, hs: seq<multiset<Addr>>, es: seq<Event>, n: nat)
    requires Run(ss, hs, es) && n < |ss|
    ensures Good(ss[n], hs[n])
  {
    hide Good, Step, Possible, Counted;
    if n > 0 {
      RunGood(ss, hs, es, n - 1);
      assert Happens(ss, hs, es, n - 1);
      StepGood(ss[n - 1], hs[n - 1], es[n - 1]);
    }
  }

  /**
   * In every state of every run the counts are exact, the free and the used pbufs of the pool total
   * PBUF_POOL_SIZE, and the live pbufs are exactly those that somebody outside can reach.
   */
  lemma RunExact(ss: seq<State>, hs: seq<multiset<Addr>>, es: seq<Event>, n: nat)
    requires Run(ss, hs, es) && n < |ss|
    ensures Counted(ss[n].m, hs[n]) && |ss[n].pool| + |InUse(ss[n])| == PBUF_POOL_SIZE
    ensures forall b :: b in ss[n].m <==> Held(ss[n].m, hs[n], b)
  {
    RunGood(ss, hs, es, n);
    var s, held := ss[n], hs[n];
    assert Good(s, held);
    hide PoolOk, Counted, Acyclic, Held, Run, InUse;
    PoolTotal(s);
    forall b ensures b in s.m <==> Held(s.m, held, b) { LiveIffHeld(s.m, held, b); }
  }

  /** What `pbuf_init` leaves is a state to start from. */
  lemma InitGood()
    ensures Good(Init(), multiset{})
  {
    var none: map<Addr, nat> := map[];
    assert Ranked(Init().m, none);
    forall a: Addr | a < PBUF_POOL_SIZE ensures a in Init().pool { assert Init().pool[a] == a; }
  }

  /** Nothing leaks: once nobody holds a pbuf any more, none is live, and the whole pool is free again. */
  lemma NothingLeaks(ss: seq<State>, hs: seq<multiset<Addr>>, es: seq<Event>, n: nat)
    requires Run(ss, hs, es) && n < |ss| && |hs[n]| == 0
    ensures ss[n].m == map[] && |ss[n].pool| == PBUF_POOL_SIZE
  {
    RunExact(ss, hs, es, n);
    var s := ss[n];
    hide Run, Counted;
    forall b ensures b !in s.m { assert !Held(s.m, hs[n], b); }
    assert InUse(s) == {};
  }
}
