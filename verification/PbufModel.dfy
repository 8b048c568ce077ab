// The packet buffers of lwip/pbuf.c: reference counts, chains and the pool,
// over a memory that maps the address of each live pbuf to its fields.
module PbufModel {
  import opened Words

  const PBUF_POOL_SIZE := 128
  const PBUF_POOL_BUFSIZE := 128

  type Addr = nat

  datatype Kind = Ram | Rom | Ref | Pool

  /** `struct pbuf`, with the `len` bytes at `payload` as `data`. */
  datatype Pbuf = Pbuf(next: Option<Addr>, data: seq<u8>, tot: u16, kind: Kind, ref: u16)

  /** The live pbufs, and the list of free ones in the pool. */
  datatype State = State(m: map<Addr, Pbuf>, pool: seq<Addr>)

  // ----- Reference counts

  /** The pbufs whose `next` is `a`. */
  ghost function Into(m: map<Addr, Pbuf>, a: Addr): set<Addr> {
    set b | b in m && m[b].next == Some(a)
  }

  /** The count of each pbuf is the number of `next` links into it and of outside holders, and no pointer dangles. */
  ghost predicate Counted(m: map<Addr, Pbuf>, held: multiset<Addr>) {
    && (forall a :: a in m ==> m[a].ref == |Into(m, a)| + held[a] && m[a].ref > 0)
    && (forall a :: a in m && m[a].next.Some? ==> m[a].next.value in m)
    && (forall a :: a in held ==> a in m)
  }

  lemma IntoUpdate(m: map<Addr, Pbuf>, q: Addr, x: Pbuf, a: Addr)
    requires q in m
    ensures |Into(m[q := x], a)| == |Into(m, a)| - (if m[q].next == Some(a) then 1 else 0) + (if x.next == Some(a) then 1 else 0)
  {
    assert Into(m[q := x], a) == Into(m, a) - {q} + if x.next == Some(a) then {q} else {};
  }

  lemma IntoAdd(m: map<Addr, Pbuf>, q: Addr, x: Pbuf, a: Addr)
    requires q !in m
    ensures |Into(m[q := x], a)| == |Into(m, a)| + (if x.next == Some(a) then 1 else 0)
  {
    assert Into(m[q := x], a) == Into(m, a) + if x.next == Some(a) then {q} else {};
  }

  lemma IntoRemove(m: map<Addr, Pbuf>, q: Addr, a: Addr)
    requires q in m
    ensures |Into(m - {q}, a)| == |Into(m, a)| - (if m[q].next == Some(a) then 1 else 0)
  {
    assert Into(m - {q}, a) == Into(m, a) - {q};
  }

  // ----- pbuf_free

  /** `pbuf_free`: from `p` on, pbufs are given back while their count drops to zero. */
  function Release(s: State, p: Option<Addr>): State
    decreases |s.m|
  {
    if p.None? || p.value !in s.m then s
    else
      var x := s.m[p.value];
      if x.ref != 1 then s.(m := s.m[p.value := x.(ref := ToU16(x.ref - 1))])
      else Release(State(s.m - {p.value}, if x.kind.Pool? then [p.value] + s.pool else s.pool), x.next)
  }

  /** The number of pbufs it gives back. */
  function Gone(m: map<Addr, Pbuf>, p: Option<Addr>): nat
    decreases |m|
  {
    if p.None? || p.value !in m || m[p.value].ref != 1 then 0 else 1 + Gone(m - {p.value}, m[p.value].next)
  }

  /** That many fewer are live afterwards. */
  lemma {:induction false} GoneCounts(s: State, p: Option<Addr>)
    ensures Gone(s.m, p) == |s.m| - |Release(s, p).m|
    decreases |s.m|
  {
    if p.Some? && p.value in s.m {
      var a, x := p.value, s.m[p.value];
      if x.ref == 1 {
        assert (s.m - {a}).Keys == s.m.Keys - {a};
        GoneCounts(State(s.m - {a}, if x.kind.Pool? then [a] + s.pool else s.pool), x.next);
      } else {
        assert s.m[a := x.(ref := ToU16(x.ref - 1))].Keys == s.m.Keys;
      }
    }
  }

  /** A pbuf with one reference, given back: its link becomes a reference held outside. */
  lemma GiveBackCounted(m: map<Addr, Pbuf>, held: multiset<Addr>, p: Addr)
    requires Counted(m, held) && p in held && m[p].ref == 1
    ensures Counted(m - {p}, held - multiset{p} + if m[p].next.Some? then multiset{m[p].next.value} else multiset{})
  {
    var m' := m - {p};
    assert Into(m, p) == {};
    forall b | b in m ensures m[b].next != Some(p) { assert (b in Into(m, p)) == (m[b].next == Some(p)); }
    forall a | a in m' ensures m'[a].ref == |Into(m', a)| + (held - multiset{p} + if m[p].next.Some? then multiset{m[p].next.value} else multiset{})[a] {
      IntoRemove(m, p, a);
    }
  }

  function One(next: Option<Addr>, a: Addr): nat {
    if next == Some(a) then 1 else 0
  }

  /** What a change of one pbuf has to balance. */
  ghost predicate Balanced(m: map<Addr, Pbuf>, held': multiset<Addr>, q: Addr, x: Pbuf, a: Addr)
    requires q in m && a in m
  {
    (if a == q then x.ref else m[a].ref) == |Into(m, a)| - One(m[q].next, a) + One(x.next, a) + held'[a]
    && (a == q ==> x.ref > 0)
  }

  /** The count of one pbuf after a change of pbuf `q`. */
  lemma SetCount(m: map<Addr, Pbuf>, held: multiset<Addr>, held': multiset<Addr>, q: Addr, x: Pbuf, a: Addr)
    requires Counted(m, held) && q in m && a in m && Balanced(m, held', q, x, a)
    ensures m[q := x][a].ref == |Into(m[q := x], a)| + held'[a] && m[q := x][a].ref > 0
  {
    IntoUpdate(m, q, x, a);
    hide Into;
  }

  lemma SetCounted(m: map<Addr, Pbuf>, held: multiset<Addr>, held': multiset<Addr>, q: Addr, x: Pbuf)
    requires Counted(m, held) && q in m && (x.next.Some? ==> x.next.value in m)
    requires forall a :: a in m ==> Balanced(m, held', q, x, a)
    requires forall a :: a in held' ==> a in m
    ensures Counted(m[q := x], held')
  {
    var m' := m[q := x];
    hide Into, Balanced, One;
    forall a | a in m' ensures m'[a].ref == |Into(m', a)| + held'[a] && m'[a].ref > 0 {
      SetCount(m, held, held', q, x, a);
    }
  }

  lemma DropCounted(m: map<Addr, Pbuf>, held: multiset<Addr>, p: Addr)
    requires Counted(m, held) && p in held && m[p].ref != 1
    ensures Counted(m[p := m[p].(ref := ToU16(m[p].ref - 1))], held - multiset{p})
  {
    hide Into;
    var x := m[p].(ref := ToU16(m[p].ref - 1));
    forall a | a in m ensures Balanced(m, held - multiset{p}, p, x, a) {
    }
    SetCounted(m, held, held - multiset{p}, p, x);
  }

  /** Giving up a reference leaves every count exact, and no pointer to anything given back. */
  lemma {:induction false} ReleaseCounted(s: State, held: multiset<Addr>, p: Addr)
    requires Counted(s.m, held) && p in held
    ensures Counted(Release(s, Some(p)).m, held - multiset{p})
    decreases |s.m|
  {
    var x := s.m[p];
    if x.ref != 1 {
      DropCounted(s.m, held, p);
    } else {
      GiveBackCounted(s.m, held, p);
      var held' := held - multiset{p} + if x.next.Some? then multiset{x.next.value} else multiset{};
      if x.next.Some? {
        ReleaseCounted(State(s.m - {p}, if x.kind.Pool? then [p] + s.pool else s.pool), held', x.next.value);
        assert held' - multiset{x.next.value} == held - multiset{p};
      } else {
        assert held' == held - multiset{p};
      }
    }
  }

  // ----- Chains

  /** `path` is the chain that starts at `p`. */
  ghost predicate Path(m: map<Addr, Pbuf>, p: Addr, path: seq<Addr>) {
    && path != [] && path[0] == p && p in m
    && (forall i :: 0 <= i < |path| ==> Linked(m, path, i))
  }

  ghost predicate Linked(m: map<Addr, Pbuf>, path: seq<Addr>, i: nat) {
    i < |path| && path[i] in m && m[path[i]].next == After(path, i)
  }

  function After(path: seq<Addr>, i: nat): Option<Addr> {
    if i + 1 < |path| then Some(path[i + 1]) else None
  }

  lemma PathIn(m: map<Addr, Pbuf>, p: Addr, path: seq<Addr>, x: Addr)
    requires Path(m, p, path) && x in path
    ensures x in m
  {
    var i :| 0 <= i < |path| && path[i] == x;
    assert Linked(m, path, i);
  }

  /** A chain never comes back to a pbuf. */
  lemma {:induction false} PathDistinct(m: map<Addr, Pbuf>, p: Addr, path: seq<Addr>, i: nat, j: nat)
    requires Path(m, p, path) && i < j < |path|
    ensures path[i] != path[j]
    decreases |path| - j
  {
    assert Linked(m, path, i) && Linked(m, path, j);
    if j + 1 < |path| { PathDistinct(m, p, path, i + 1, j + 1); }
  }

  lemma PathTail(m: map<Addr, Pbuf>, p: Addr, path: seq<Addr>, k: nat)
    requires Path(m, p, path) && k < |path|
    ensures Path(m, path[k], path[k..])
  {
    var tail := path[k..];
    assert Linked(m, path, k);
    forall i | 0 <= i < |tail| ensures Linked(m, tail, i) { assert Linked(m, path, k + i); }
  }

  /** Giving up a chain touches only that chain. */
  lemma {:induction false} ReleaseElsewhere(s: State, p: Addr, path: seq<Addr>, a: Addr)
    requires Path(s.m, p, path) && a in s.m && a !in path
    ensures a in Release(s, Some(p)).m && Release(s, Some(p)).m[a] == s.m[a]
    decreases |path|
  {
    var x := s.m[p];
    assert Linked(s.m, path, 0);
    if x.ref == 1 && x.next.Some? {
      PathWithout(s.m, p, path);
      ReleaseElsewhere(State(s.m - {p}, if x.kind.Pool? then [p] + s.pool else s.pool), path[1], path[1..], a);
    }
  }

  lemma PathWithout(m: map<Addr, Pbuf>, p: Addr, path: seq<Addr>)
    requires Path(m, p, path) && |path| > 1
    ensures Path(m - {p}, path[1], path[1..])
  {
    var tail := path[1..];
    PathDistinct(m, p, path, 0, 1);
    assert Linked(m, path, 1);
    forall i | 0 <= i < |tail| ensures Linked(m - {p}, tail, i) {
      PathDistinct(m, p, path, 0, i + 1);
      assert Linked(m, path, i + 1);
    }
  }

  // ----- The other operations

  /** The same counts and links. */
  ghost predicate SameLinks(m: map<Addr, Pbuf>, m': map<Addr, Pbuf>) {
    && (forall a :: a in m <==> a in m')
    && (forall a :: a in m ==> m'[a].next == m[a].next && m'[a].ref == m[a].ref)
  }

  lemma SameInto(m: map<Addr, Pbuf>, m': map<Addr, Pbuf>, a: Addr)
    requires SameLinks(m, m')
    ensures Into(m', a) == Into(m, a)
  {
  }

  lemma SameCounted(m: map<Addr, Pbuf>, m': map<Addr, Pbuf>, held: multiset<Addr>)
    requires Counted(m, held) && SameLinks(m, m')
    ensures Counted(m', held)
  {
    hide Into;
    forall a | a in m ensures Into(m', a) == Into(m, a) { SameInto(m, m', a); }
  }

  /** `pbuf_ref` */
  function RefUp(m: map<Addr, Pbuf>, p: Addr): map<Addr, Pbuf>
    requires p in m
  {
    m[p := m[p].(ref := ToU16(m[p].ref + 1))]
  }

  /** The count is still exact with the new holder, unless the 16 bits overflow. */
  lemma RefCountedIff(m: map<Addr, Pbuf>, held: multiset<Addr>, p: Addr)
    requires Counted(m, held) && p in m
    ensures Counted(RefUp(m, p), held + multiset{p}) <==> m[p].ref != 0xffff
  {
    hide Counted, Into;
    if m[p].ref != 0xffff {
      OneMoreCounted(m, held, p);
      assert RefUp(m, p) == m[p := m[p].(ref := m[p].ref + 1)];
    } else {
      ZeroNotCounted(RefUp(m, p), held + multiset{p}, p);
    }
  }

  /** 65535 holders and one more: the count is 0 while 65536 hold the pbuf. */
  lemma RefWraps(a: Addr, data: seq<u8>)
    requires |data| < 0x1_0000
    ensures var m := map[a := Pbuf(None, data, |data|, Ram, 0xffff)]; var held := multiset{}[a := 0xffff];
            Counted(m, held) && RefUp(m, a)[a].ref == 0 && !Counted(RefUp(m, a), held + multiset{a})
  {
    var m, held := map[a := Pbuf(None, data, |data|, Ram, 0xffff)], multiset{}[a := 0xffff];
    assert Into(m, a) == {};
    RefCountedIff(m, held, a);
  }

  lemma ZeroNotCounted(m: map<Addr, Pbuf>, held: multiset<Addr>, p: Addr)
    requires p in m && m[p].ref == 0
    ensures !Counted(m, held)
  {
  }

  lemma OneMoreCounted(m: map<Addr, Pbuf>, held: multiset<Addr>, p: Addr)
    requires Counted(m, held) && p in m && m[p].ref != 0xffff
    ensures Counted(m[p := m[p].(ref := m[p].ref + 1)], held + multiset{p})
  {
    hide Into;
    var x := m[p].(ref := m[p].ref + 1);
    forall a | a in m ensures Balanced(m, held + multiset{p}, p, x, a) { }
    hide *;
    SetCounted(m, held, held + multiset{p}, p, x);
  }

  /** `pbuf_cat` of the chain `path` and the one at `t` */
  function Cat(m: map<Addr, Pbuf>, path: seq<Addr>, t: Addr): map<Addr, Pbuf>
    requires path != [] && t in m
  {
    map a | a in m ::
      if a in path then
        m[a].(tot := ToU16(m[a].tot + m[t].tot), next := if a == path[|path| - 1] then Some(t) else m[a].next)
      else m[a]
  }

  /** Another `next` for one pbuf: the old one's reference is now outside, the new one's was. */
  lemma LinkCounted(m: map<Addr, Pbuf>, held: multiset<Addr>, q: Addr, next: Option<Addr>)
    requires Counted(m, held) && q in m && (next.Some? ==> next.value in held || m[q].next == next)
    ensures Counted(m[q := m[q].(next := next)], Moved(held, m[q].next, next))
  {
    var held' := Moved(held, m[q].next, next);
    var x := m[q].(next := next);
    forall a | a in m ensures Balanced(m, held', q, x, a) { LinkBalanced(m, held, q, next, a); }
    forall a | a in held' ensures a in m { MovedCount(held, m[q].next, next, a); }
    hide Moved, Into, Balanced;
    SetCounted(m, held, held', q, x);
  }

  lemma LinkBalanced(m: map<Addr, Pbuf>, held: multiset<Addr>, q: Addr, next: Option<Addr>, a: Addr)
    requires Counted(m, held) && q in m && a in m && (next.Some? ==> next.value in held || m[q].next == next)
    ensures Balanced(m, Moved(held, m[q].next, next), q, m[q].(next := next), a)
  {
    MovedCount(held, m[q].next, next, a);
    hide Moved, Into, One;
  }

  /** A reference that goes from `now` to `was`. */
  ghost function Moved(held: multiset<Addr>, was: Option<Addr>, now: Option<Addr>): multiset<Addr> {
    held + (if was.Some? then multiset{was.value} else multiset{}) - (if now.Some? then multiset{now.value} else multiset{})
  }

  lemma CatLinks(m: map<Addr, Pbuf>, path: seq<Addr>, t: Addr)
    requires path != [] && path[|path| - 1] in m && t in m
    ensures var last := path[|path| - 1]; SameLinks(m[last := m[last].(next := Some(t))], Cat(m, path, t))
  {
  }

  lemma MovedCount(held: multiset<Addr>, was: Option<Addr>, now: Option<Addr>, a: Addr)
    requires now.Some? ==> now.value in held || was == now
    ensures Moved(held, was, now)[a] == held[a] + One(was, a) - One(now, a)
  {
  }

  /** `pbuf_cat` takes over the caller's reference of the tail. */
  lemma CatCounted(m: map<Addr, Pbuf>, held: multiset<Addr>, h: Addr, path: seq<Addr>, t: Addr)
    requires Counted(m, held) && Path(m, h, path) && t in held
    ensures Counted(Cat(m, path, t), held - multiset{t})
  {
    var last := path[|path| - 1];
    assert Linked(m, path, |path| - 1);
    LinkCounted(m, held, last, Some(t));
    CatLinks(m, path, t);
    hide Counted, Cat, SameLinks;
    assert Moved(held, None, Some(t)) == held - multiset{t};
    SameCounted(m[last := m[last].(next := Some(t))], Cat(m, path, t), held - multiset{t});
  }

  /** `pbuf_chain` */
  function Chain(m: map<Addr, Pbuf>, path: seq<Addr>, t: Addr): map<Addr, Pbuf>
    requires path != [] && t in m
  {
    RefUp(Cat(m, path, t), t)
  }

  /** `pbuf_chain` leaves the caller its reference of the tail. */
  lemma ChainCounted(m: map<Addr, Pbuf>, held: multiset<Addr>, h: Addr, path: seq<Addr>, t: Addr)
    requires Counted(m, held) && Path(m, h, path) && t in held && m[t].ref != 0xffff
    ensures Counted(Chain(m, path, t), held)
  {
    CatCounted(m, held, h, path, t);
    RefCountedIff(Cat(m, path, t), held - multiset{t}, t);
    assert held - multiset{t} + multiset{t} == held;
  }

  /** `p` alone, and the rest with the length that it then has. */
  function Decoupled(m: map<Addr, Pbuf>, p: Addr): map<Addr, Pbuf>
    requires p in m && m[p].next.Some? && m[p].next.value in m
  {
    var q := m[p].next.value;
    var m1 := m[q := m[q].(tot := ToU16(m[p].tot - |m[p].data|))];
    m1[p := m1[p].(next := None, tot := ToU16(|m1[p].data|))]
  }

  /** `pbuf_dechain`: the state, and what it returns */
  function Dechain(s: State, p: Addr): (r: (State, Option<Addr>))
    requires p in s.m && (s.m[p].next.Some? ==> s.m[p].next.value in s.m)
  {
    if s.m[p].next.None? then (s, None)
    else
      var d := s.(m := Decoupled(s.m, p));
      (Release(d, s.m[p].next), if ToU8(Gone(d.m, s.m[p].next)) > 0 then None else s.m[p].next)
  }

  lemma DecoupledLinks(m: map<Addr, Pbuf>, p: Addr)
    requires p in m && m[p].next.Some? && m[p].next.value in m
    ensures SameLinks(m[p := m[p].(next := None)], Decoupled(m, p))
  {
  }

  lemma DecoupledCounted(m: map<Addr, Pbuf>, held: multiset<Addr>, p: Addr)
    requires Counted(m, held) && p in m && m[p].next.Some?
    ensures Counted(Decoupled(m, p), held + multiset{m[p].next.value})
  {
    var q := m[p].next.value;
    var m1 := m[p := m[p].(next := None)];
    assert q in m;
    hide Counted, Decoupled, SameLinks, Into;
    DecoupledLinks(m, p);
    LinkCounted(m, held, p, None);
    assert Moved(held, Some(q), None) == held + multiset{q};
    SameCounted(m1, Decoupled(m, p), held + multiset{q});
  }

  lemma DechainCounted(s: State, held: multiset<Addr>, p: Addr)
    requires Counted(s.m, held) && p in s.m
    ensures Counted(Dechain(s, p).0.m, held)
  {
    if s.m[p].next.Some? {
      var q := s.m[p].next.value;
      DecoupledCounted(s.m, held, p);
      hide Decoupled, Release, Gone, ToU8;
      var d := s.(m := Decoupled(s.m, p));
      assert q in held + multiset{q};
      ReleaseCounted(d, held + multiset{q}, q);
      assert held + multiset{q} - multiset{q} == held;
    }
  }

  // ----- The bytes of a chain

  function DataAt(m: map<Addr, Pbuf>, path: seq<Addr>, i: nat): seq<u8> {
    if i < |path| && path[i] in m then m[path[i]].data else []
  }

  function TotAt(m: map<Addr, Pbuf>, path: seq<Addr>, i: nat): u16 {
    if i < |path| && path[i] in m then m[path[i]].tot else 0
  }

  /** The total length at every pbuf of the chain is its own length and the total behind it. */
  ghost predicate Whole(m: map<Addr, Pbuf>, path: seq<Addr>) {
    forall i :: 0 <= i < |path| ==> WholeAt(m, path, i)
  }

  predicate WholeAt(m: map<Addr, Pbuf>, path: seq<Addr>, i: nat) {
    TotAt(m, path, i) == |DataAt(m, path, i)| + TotAt(m, path, i + 1)
  }

  function Bytes(m: map<Addr, Pbuf>, path: seq<Addr>): seq<u8> {
    if path == [] then [] else DataAt(m, path, 0) + Bytes(m, path[1..])
  }

  lemma WholeTail(m: map<Addr, Pbuf>, path: seq<Addr>)
    requires Whole(m, path) && path != []
    ensures Whole(m, path[1..]) && TotAt(m, path, 0) == |DataAt(m, path, 0)| + TotAt(m, path[1..], 0)
  {
    var tail := path[1..];
    forall i | 0 <= i < |tail| ensures WholeAt(m, tail, i) { assert WholeAt(m, path, i + 1); }
    assert WholeAt(m, path, 0);
  }

  /** The first `tot` is the number of bytes. */
  lemma {:induction false} WholeBytes(m: map<Addr, Pbuf>, path: seq<Addr>)
    requires Whole(m, path)
    ensures |Bytes(m, path)| == TotAt(m, path, 0)
  {
    if path != [] {
      WholeTail(m, path);
      WholeBytes(m, path[1..]);
    }
  }

  lemma {:induction false} BytesJoin(m: map<Addr, Pbuf>, a: seq<Addr>, b: seq<Addr>)
    ensures Bytes(m, a + b) == Bytes(m, a) + Bytes(m, b)
  {
    if a == [] {
      assert a + b == b;
    } else {
      assert (a + b)[1..] == a[1..] + b;
      BytesJoin(m, a[1..], b);
    }
  }

  lemma {:induction false} BytesSame(m: map<Addr, Pbuf>, m': map<Addr, Pbuf>, path: seq<Addr>)
    requires forall a :: a in path ==> a in m && a in m' && m'[a].data == m[a].data
    ensures Bytes(m', path) == Bytes(m, path)
  {
    if path != [] { BytesSame(m, m', path[1..]); }
  }

  // ----- pbuf_cat joins

  /** Two chains with no pbuf in common become one, with the bytes of both. */
  lemma CatJoins(m: map<Addr, Pbuf>, h: Addr, a: seq<Addr>, t: Addr, b: seq<Addr>)
    requires Path(m, h, a) && Path(m, t, b) && forall x :: x in a ==> x !in b
    ensures var m' := Cat(m, a, t); Path(m', h, a + b) && Bytes(m', a + b) == Bytes(m, a) + Bytes(m, b)
  {
    var m' := Cat(m, a, t);
    var r := a + b;
    assert Linked(m, b, 0);
    forall i | 0 <= i < |r| ensures Linked(m', r, i) {
      if i < |a| {
        assert Linked(m, a, i);
        if i < |a| - 1 { PathDistinct(m, h, a, i, |a| - 1); }
      } else {
        assert Linked(m, b, i - |a|);
        assert b[i - |a|] !in a;
      }
    }
    forall x | x in r ensures x in m && x in m' && m'[x].data == m[x].data {
      if x in a { PathIn(m, h, a, x); } else { PathIn(m, t, b, x); }
    }
    BytesSame(m, m', r);
    BytesJoin(m, a, b);
  }

  lemma CatFields(m: map<Addr, Pbuf>, h: Addr, a: seq<Addr>, t: Addr, b: seq<Addr>, i: nat)
    requires Path(m, h, a) && Path(m, t, b) && (forall x :: x in a ==> x !in b) && i < |a + b|
    ensures var m' := Cat(m, a, t); var r := a + b;
            && DataAt(m', r, i) == (if i < |a| then DataAt(m, a, i) else DataAt(m, b, i - |a|))
            && TotAt(m', r, i) == (if i < |a| then ToU16(TotAt(m, a, i) + m[t].tot) else TotAt(m, b, i - |a|))
  {
    var r := a + b;
    assert Linked(m, b, 0);
    if i < |a| { assert Linked(m, a, i); } else { assert Linked(m, b, i - |a|) && b[i - |a|] !in a; }
  }

  /** Joining touches only the pbufs of the first chain, and the count of the tail. */
  lemma JoinElsewhere(m: map<Addr, Pbuf>, path: seq<Addr>, t: Addr, a: Addr)
    requires path != [] && t in m && a !in path
    ensures a in Cat(m, path, t) <==> a in m
    ensures a in m ==> Cat(m, path, t)[a] == m[a] && (a != t ==> a in Chain(m, path, t) && Chain(m, path, t)[a] == m[a])
  {
  }

  /** So does `pbuf_chain`, and the tail has one reference more than before. */
  lemma ChainJoins(m: map<Addr, Pbuf>, h: Addr, a: seq<Addr>, t: Addr, b: seq<Addr>)
    requires Path(m, h, a) && Path(m, t, b) && (forall x :: x in a ==> x !in b) && m[t].ref != 0xffff
    ensures var m' := Chain(m, a, t);
            Path(m', h, a + b) && Bytes(m', a + b) == Bytes(m, a) + Bytes(m, b) && m'[t].ref == m[t].ref + 1
  {
    CatJoins(m, h, a, t, b);
    var c, m' := Cat(m, a, t), Chain(m, a, t);
    assert Linked(m, b, 0) && b[0] == t && t !in a;
    forall i | 0 <= i < |a + b| ensures Linked(m', a + b, i) { assert Linked(c, a + b, i); }
    forall x | x in a + b ensures x in c && x in m' && m'[x].data == c[x].data { PathIn(c, h, a + b, x); }
    BytesSame(c, m', a + b);
  }

  /** The lengths of the joined chain are right exactly if they fit 16 bits. */
  lemma CatWholeIff(m: map<Addr, Pbuf>, h: Addr, a: seq<Addr>, t: Addr, b: seq<Addr>)
    requires Path(m, h, a) && Path(m, t, b) && (forall x :: x in a ==> x !in b) && Whole(m, a) && Whole(m, b)
    ensures Whole(Cat(m, a, t), a + b) <==> m[h].tot + m[t].tot <= 0xffff
  {
    var m' := Cat(m, a, t);
    var r := a + b;
    assert Linked(m, a, 0) && Linked(m, b, 0);
    assert TotAt(m, a, 0) == m[h].tot && TotAt(m, b, 0) == m[t].tot;
    WholeBytes(m, a);
    WholeBytes(m, b);
    CatJoins(m, h, a, t, b);
    CatFields(m, h, a, t, b, 0);
    if m[h].tot + m[t].tot <= 0xffff {
      forall i | 0 <= i < |r| ensures WholeAt(m', r, i) {
        CatTot(m, h, a, t, b, i);
      }
    } else if Whole(m', r) {
      WholeBytes(m', r);
    }
  }

  /** Two pbufs of 40000 bytes joined: the total says 14464. */
  lemma CatWraps(a: Addr, b: Addr)
    requires a != b
    ensures var x := Pbuf(None, Zeros(40000), 40000, Ram, 1); var m := map[a := x, b := x];
            && Path(m, a, [a]) && Path(m, b, [b]) && Whole(m, [a]) && Whole(m, [b])
            && Cat(m, [a], b)[a].tot == 14464 && !Whole(Cat(m, [a], b), [a] + [b])
  {
    var x := Pbuf(None, Zeros(40000), 40000, Ram, 1);
    var m := map[a := x, b := x];
    assert Linked(m, [a], 0) && Linked(m, [b], 0);
    CatWholeIff(m, a, [a], b, [b]);
  }

  lemma CatTot(m: map<Addr, Pbuf>, h: Addr, a: seq<Addr>, t: Addr, b: seq<Addr>, i: nat)
    requires Path(m, h, a) && Path(m, t, b) && (forall x :: x in a ==> x !in b) && Whole(m, a) && Whole(m, b)
    requires i < |a + b| && TotAt(m, a, 0) + TotAt(m, b, 0) <= 0xffff
    ensures WholeAt(Cat(m, a, t), a + b, i)
  {
    CatFields(m, h, a, t, b, i);
    if i + 1 < |a + b| { CatFields(m, h, a, t, b, i + 1); }
    assert Linked(m, b, 0) && m[t].tot == TotAt(m, b, 0);
    hide Cat, Path;
    if i < |a| {
      assert WholeAt(m, a, i);
      TotFalls(m, a, i);
    } else {
      assert WholeAt(m, b, i - |a|);
    }
  }

  lemma {:induction false} TotFalls(m: map<Addr, Pbuf>, path: seq<Addr>, i: nat)
    requires Whole(m, path) && i < |path|
    ensures TotAt(m, path, i) <= TotAt(m, path, 0)
  {
    if i > 0 {
      TotFalls(m, path, i - 1);
      assert WholeAt(m, path, i - 1);
    }
  }
}
