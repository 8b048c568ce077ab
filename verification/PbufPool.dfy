// The pbuf pool of lwip/pbuf.c: every pbuf of it is either free or in use, and
// `pbuf_alloc` takes a chain of free ones, fills them one after the other, or
// gives back what it has taken.
module PbufPool {
  import opened Words
  import opened PbufModel
  import opened PbufCycles

  /** The pool's pbufs have the addresses below PBUF_POOL_SIZE: each is live or in the free list, once. */
  ghost predicate PoolOk(s: State) {
    && Distinct(s.pool)
    && (forall a :: a in s.pool ==> a < PBUF_POOL_SIZE && a !in s.m)
    && (forall a :: a in s.m ==> (a < PBUF_POOL_SIZE <==> s.m[a].kind.Pool?))
    && (forall a: Addr :: a < PBUF_POOL_SIZE ==> a in s.m || a in s.pool)
  }

  /** The pool as `pbuf_init` links it together; no pbuf is in use. */
  function Init(): State {
    State(map[], seq(PBUF_POOL_SIZE, i => i))
  }

  ghost predicate Distinct(p: seq<Addr>) {
    forall i, j :: 0 <= i < j < |p| ==> p[i] != p[j]
  }

  ghost function InUse(s: State): set<Addr> {
    set a | a in s.m && s.m[a].kind.Pool?
  }

  /** The addresses below `n`. */
  ghost function Below(n: nat): (r: set<Addr>)
    ensures |r| == n && forall a: nat :: a in r <==> a < n
  {
    if n == 0 then {} else Below(n - 1) + {n - 1}
  }

  lemma {:induction false} DistinctSize(p: seq<Addr>)
    requires Distinct(p)
    ensures |Members(p)| == |p|
  {
    if p != [] {
      var q, x := p[..|p| - 1], p[|p| - 1];
      DistinctSize(q);
      assert x !in q;
      assert p == q + [x];
      assert Members(p) == Members(q) + {x};
    }
  }

  /** Free and used pbufs of the pool always total PBUF_POOL_SIZE. */
  lemma PoolTotal(s: State)
    requires PoolOk(s)
    ensures |s.pool| + |InUse(s)| == PBUF_POOL_SIZE
  {
    DistinctSize(s.pool);
    PoolSplits(s, PBUF_POOL_SIZE);
  }

  lemma PoolSplits(s: State, n: nat)
    requires PoolOk(s) && n == PBUF_POOL_SIZE
    ensures |Members(s.pool)| + |InUse(s)| == n
  {
    var free, used := Members(s.pool), InUse(s);
    assert free !! used;
    assert Below(n) == free + used;
  }

  /** `pbuf_free` puts the pool's own pbufs back into the pool. */
  lemma {:induction false} ReleasePool(s: State, p: Option<Addr>)
    requires PoolOk(s)
    ensures PoolOk(Release(s, p))
    decreases |s.m|
  {
    if p.Some? && p.value in s.m && s.m[p.value].ref == 1 {
      ReleasePool(State(s.m - {p.value}, if s.m[p.value].kind.Pool? then [p.value] + s.pool else s.pool), s.m[p.value].next);
    }
  }

  ghost predicate SameKinds(m: map<Addr, Pbuf>, m': map<Addr, Pbuf>) {
    (forall a :: a in m <==> a in m') && forall a :: a in m ==> m'[a].kind == m[a].kind
  }

  lemma KindsPool(s: State, m': map<Addr, Pbuf>)
    requires PoolOk(s) && SameKinds(s.m, m')
    ensures PoolOk(s.(m := m'))
  {
  }

  // ----- pbuf_alloc of a chain from the pool

  /** The bytes that the pbufs before number `k` hold: the first leaves `offset` bytes for headers. */
  function Before(offset: nat, k: nat): nat
    requires offset <= PBUF_POOL_BUFSIZE
  {
    if k == 0 then 0 else PBUF_POOL_BUFSIZE * k - offset
  }

  /** How many pbufs `length` bytes take; at least one. */
  function Need(length: nat, offset: nat): (n: nat)
    requires offset <= PBUF_POOL_BUFSIZE
    ensures n >= 1
    ensures length <= Before(offset, n) && (n > 1 ==> Before(offset, n - 1) < length)
  {
    if length <= PBUF_POOL_BUFSIZE - offset then 1
    else 1 + (length + offset - 1) / PBUF_POOL_BUFSIZE
  }

  /** Pbuf number `k` of the chain; `junk` is what the buffers happen to hold. */
  function Cell(length: u16, offset: nat, junk: seq<u8>, k: nat): Pbuf
    requires offset <= PBUF_POOL_BUFSIZE && k < Need(length, offset) && length <= |junk|
  {
    var done, full := Before(offset, k), Before(offset, k + 1);
    Pbuf(None, junk[done..Min(full, length)], length - done, Pool, 1)
  }

  /** The memory once `k` pbufs of the chain are there. */
  function Grown(m: map<Addr, Pbuf>, pool: seq<Addr>, length: u16, offset: nat, junk: seq<u8>, k: nat): map<Addr, Pbuf>
    requires offset <= PBUF_POOL_BUFSIZE && k <= Need(length, offset) && k <= |pool| && length <= |junk|
  {
    if k == 0 then m
    else
      var g := Grown(m, pool, length, offset, junk, k - 1);
      var l := if k > 1 && pool[k - 2] in g then g[pool[k - 2] := g[pool[k - 2]].(next := Some(pool[k - 1]))] else g;
      l[pool[k - 1] := Cell(length, offset, junk, k - 1)]
  }

  function Reversed(p: seq<Addr>): seq<Addr> {
    if p == [] then [] else Reversed(p[1..]) + [p[0]]
  }

  /** `pbuf_alloc` from the pool: the state and the new chain's address */
  function AllocPool(s: State, length: u16, offset: nat, junk: seq<u8>): (State, Option<Addr>)
    requires offset <= PBUF_POOL_BUFSIZE && length <= |junk|
  {
    var n := Need(length, offset);
    if n <= |s.pool| then (State(Grown(s.m, s.pool, length, offset, junk, n), s.pool[n..]), Some(s.pool[0]))
    else (s.(pool := Reversed(s.pool)), None)
  }

  /** The addresses and fields of a chain under construction. */
  lemma {:induction false} GrownAt(s: State, length: u16, offset: nat, junk: seq<u8>, k: nat, i: nat)
    requires PoolOk(s) && offset <= PBUF_POOL_BUFSIZE && k <= Need(length, offset) && k <= |s.pool| && length <= |junk|
    requires i < k
    ensures var g := Grown(s.m, s.pool, length, offset, junk, k);
            s.pool[i] in g && g[s.pool[i]] == Cell(length, offset, junk, i).(next := if i + 1 < k then Some(s.pool[i + 1]) else None)
  {
    if i < k - 1 { GrownAt(s, length, offset, junk, k - 1, i); }
    if k > 1 { GrownAt(s, length, offset, junk, k - 1, k - 2); }
    hide Need, Before, Cell;
  }

  lemma {:induction false} GrownElsewhere(s: State, length: u16, offset: nat, junk: seq<u8>, k: nat, a: Addr)
    requires PoolOk(s) && offset <= PBUF_POOL_BUFSIZE && k <= Need(length, offset) && k <= |s.pool| && length <= |junk|
    requires a !in s.pool[..k]
    ensures var g := Grown(s.m, s.pool, length, offset, junk, k); (a in g <==> a in s.m) && (a in g ==> g[a] == s.m[a])
  {
    if k > 0 {
      assert s.pool[..k - 1] <= s.pool[..k];
      GrownElsewhere(s, length, offset, junk, k - 1, a);
    }
  }

  lemma GrownPath(s: State, length: u16, offset: nat, junk: seq<u8>, k: nat)
    requires PoolOk(s) && offset <= PBUF_POOL_BUFSIZE && 0 < k <= Need(length, offset) && k <= |s.pool| && length <= |junk|
    ensures Path(Grown(s.m, s.pool, length, offset, junk, k), s.pool[0], s.pool[..k])
  {
    var g, path := Grown(s.m, s.pool, length, offset, junk, k), s.pool[..k];
    GrownAt(s, length, offset, junk, k, 0);
    forall i | 0 <= i < k ensures Linked(g, path, i) { GrownAt(s, length, offset, junk, k, i); }
  }

  /** A new pbuf that nothing refers to yet. */
  lemma AddCounted(m: map<Addr, Pbuf>, held: multiset<Addr>, q: Addr, x: Pbuf)
    requires Counted(m, held) && q !in m && x.next.None? && x.ref == 1
    ensures Counted(m[q := x], held + multiset{q})
  {
    var m' := m[q := x];
    assert Into(m, q) == {};
    forall a | a in m' ensures m'[a].ref == |Into(m', a)| + (held + multiset{q})[a] {
      IntoAdd(m, q, x, a);
      hide Into;
    }
  }

  /** One more pbuf behind the chain that ends at `p`. */
  lemma ExtendCounted(m: map<Addr, Pbuf>, held: multiset<Addr>, p: Addr, q: Addr, x: Pbuf)
    requires Counted(m, held) && p in m && m[p].next.None? && q !in m && x.next.None? && x.ref == 1
    ensures Counted(m[p := m[p].(next := Some(q))][q := x], held)
  {
    AddCounted(m, held, q, x);
    var h := m[q := x];
    assert h[p] == m[p];
    hide Counted;
    LinkCounted(h, held + multiset{q}, p, Some(q));
    assert h[p := h[p].(next := Some(q))] == m[p := m[p].(next := Some(q))][q := x];
    assert Moved(held + multiset{q}, None, Some(q)) == held;
  }

  lemma {:induction false} GrownCounted(s: State, held: multiset<Addr>, length: u16, offset: nat, junk: seq<u8>, k: nat)
    requires PoolOk(s) && offset <= PBUF_POOL_BUFSIZE && 0 < k <= Need(length, offset) && k <= |s.pool| && length <= |junk|
    requires Counted(s.m, held)
    ensures Counted(Grown(s.m, s.pool, length, offset, junk, k), held + multiset{s.pool[0]})
  {
    var q, x := s.pool[k - 1], Cell(length, offset, junk, k - 1);
    if k == 1 {
      AddCounted(s.m, held, q, x);
    } else {
      GrownCounted(s, held, length, offset, junk, k - 1);
      GrownElsewhere(s, length, offset, junk, k - 1, q);
      GrownAt(s, length, offset, junk, k - 1, k - 2);
      hide Cell, Counted, Need, Before;
      ExtendCounted(Grown(s.m, s.pool, length, offset, junk, k - 1), held + multiset{s.pool[0]}, s.pool[k - 2], q, x);
    }
  }

  lemma {:induction false} GrownAcyclic(s: State, held: multiset<Addr>, length: u16, offset: nat, junk: seq<u8>, k: nat)
    requires PoolOk(s) && offset <= PBUF_POOL_BUFSIZE && k <= Need(length, offset) && k <= |s.pool| && length <= |junk|
    requires Counted(s.m, held) && Acyclic(s.m)
    ensures Acyclic(Grown(s.m, s.pool, length, offset, junk, k))
  {
    if k > 0 {
      GrownAcyclic(s, held, length, offset, junk, k - 1);
      GrownElsewhere(s, length, offset, junk, k - 1, s.pool[k - 1]);
      GrownOnce(s, held, length, offset, junk, k);
    }
  }

  lemma GrownOnce(s: State, held: multiset<Addr>, length: u16, offset: nat, junk: seq<u8>, k: nat)
    requires PoolOk(s) && offset <= PBUF_POOL_BUFSIZE && 0 < k <= Need(length, offset) && k <= |s.pool| && length <= |junk|
    requires Counted(s.m, held) && Acyclic(Grown(s.m, s.pool, length, offset, junk, k - 1))
    requires s.pool[k - 1] !in Grown(s.m, s.pool, length, offset, junk, k - 1)
    ensures Acyclic(Grown(s.m, s.pool, length, offset, junk, k))
  {
    var q, x := s.pool[k - 1], Cell(length, offset, junk, k - 1);
    var g := Grown(s.m, s.pool, length, offset, junk, k - 1);
    hide Acyclic, Need, Before, Counted, PoolOk;
    if k > 1 {
      GrownCounted(s, held, length, offset, junk, k - 1);
      GrownAt(s, length, offset, junk, k - 1, k - 2);
      ExtendAcyclic(g, s.pool[k - 2], q, x);
    } else {
      AddAcyclic(g, q, x);
    }
  }

  /** The chain is whole, and what its buffers happen to hold is `length` bytes long. */
  lemma GrownWhole(s: State, length: u16, offset: nat, junk: seq<u8>)
    requires PoolOk(s) && offset <= PBUF_POOL_BUFSIZE && Need(length, offset) <= |s.pool| && length <= |junk|
    ensures var n := Need(length, offset); var g := Grown(s.m, s.pool, length, offset, junk, n);
            Whole(g, s.pool[..n]) && |Bytes(g, s.pool[..n])| == length
  {
    var n := Need(length, offset);
    var g, path := Grown(s.m, s.pool, length, offset, junk, n), s.pool[..n];
    forall i | 0 <= i < n ensures WholeAt(g, path, i) {
      GrownAt(s, length, offset, junk, n, i);
      if i + 1 < n { GrownAt(s, length, offset, junk, n, i + 1); }
    }
    GrownAt(s, length, offset, junk, n, 0);
    WholeBytes(g, path);
  }

  /** A chain of the pool's pbufs with one reference each, given up, is pushed on the free list one by one. */
  lemma {:induction false} ReleaseFresh(s: State, path: seq<Addr>)
    requires path != [] && Path(s.m, path[0], path)
    requires forall a :: a in path && a in s.m ==> s.m[a].ref == 1 && s.m[a].kind.Pool?
    ensures Release(s, Some(path[0])) == State(s.m - Members(path), Reversed(path) + s.pool)
    decreases |path|
  {
    var p := path[0];
    assert Linked(s.m, path, 0);
    var t := State(s.m - {p}, [p] + s.pool);
    if |path| > 1 {
      PathWithout(s.m, p, path);
      ReleaseFresh(t, path[1..]);
      assert Reversed(path[1..]) + ([p] + s.pool) == Reversed(path) + s.pool;
      assert s.m - {p} - Members(path[1..]) == s.m - Members(path);
    } else {
      assert path[1..] == [];
      assert Reversed(path) == [p];
      assert Members(path) == {p};
    }
  }

  /** When the pool runs out, giving the chain back restores the memory and the set of free pbufs. */
  lemma OutOfPool(s: State, length: u16, offset: nat, junk: seq<u8>)
    requires PoolOk(s) && offset <= PBUF_POOL_BUFSIZE && 0 < |s.pool| < Need(length, offset) && length <= |junk|
    ensures Release(State(Grown(s.m, s.pool, length, offset, junk, |s.pool|), []), Some(s.pool[0])) == s.(pool := Reversed(s.pool))
  {
    var n := |s.pool|;
    var g := Grown(s.m, s.pool, length, offset, junk, n);
    assert s.pool[..n] == s.pool;
    GrownPath(s, length, offset, junk, n);
    forall a | a in s.pool && a in g ensures g[a].ref == 1 && g[a].kind.Pool? {
      var i :| 0 <= i < n && s.pool[i] == a;
      GrownAt(s, length, offset, junk, n, i);
    }
    forall a | a !in s.pool ensures (a in g <==> a in s.m) && (a in g ==> g[a] == s.m[a]) {
      GrownElsewhere(s, length, offset, junk, n, a);
    }
    hide Grown, Release, Path;
    ReleaseFresh(State(g, []), s.pool);
    assert g - Members(s.pool) == s.m;
  }

  lemma {:induction false} ReversedSame(p: seq<Addr>)
    ensures |Reversed(p)| == |p| && forall i :: 0 <= i < |p| ==> Reversed(p)[i] == p[|p| - 1 - i]
  {
    if p != [] { ReversedSame(p[1..]); }
  }

  /**
   * `pbuf_alloc` from the pool keeps the pool and the counts, fails exactly if the pool has too few
   * pbufs, and a chain that it returns is whole and of the length asked for.
   */
  lemma AllocPoolGood(s: State, held: multiset<Addr>, length: u16, offset: nat, junk: seq<u8>)
    requires PoolOk(s) && Counted(s.m, held) && Acyclic(s.m) && offset <= PBUF_POOL_BUFSIZE && length <= |junk|
    ensures var r := AllocPool(s, length, offset, junk); var path := s.pool[..Min(Need(length, offset), |s.pool|)];
            && PoolOk(r.0) && Acyclic(r.0.m) && (r.1.None? <==> |s.pool| < Need(length, offset))
            && (r.1.None? ==> r.0.m == s.m && Counted(r.0.m, held))
            && (r.1.Some? ==> Counted(r.0.m, held + multiset{r.1.value}) && Path(r.0.m, r.1.value, path)
                              && Whole(r.0.m, path) && |Bytes(r.0.m, path)| == length)
  {
    var n := Need(length, offset);
    if n <= |s.pool| {
      GrownCounted(s, held, length, offset, junk, n);
      GrownPath(s, length, offset, junk, n);
      GrownWhole(s, length, offset, junk);
      GrownPool(s, length, offset, junk);
      GrownAcyclic(s, held, length, offset, junk, n);
    } else {
      ReversedSame(s.pool);
      ReversedPool(s);
    }
  }

  lemma ReversedPool(s: State)
    requires PoolOk(s)
    ensures PoolOk(s.(pool := Reversed(s.pool)))
  {
    var r := Reversed(s.pool);
    ReversedSame(s.pool);
    forall a | a in s.pool ensures a in r {
      var i :| 0 <= i < |s.pool| && s.pool[i] == a;
      assert r[|r| - 1 - i] == a;
    }
    forall a | a in r ensures a in s.pool { }
  }

  lemma GrownPool(s: State, length: u16, offset: nat, junk: seq<u8>)
    requires PoolOk(s) && offset <= PBUF_POOL_BUFSIZE && Need(length, offset) <= |s.pool| && length <= |junk|
    ensures var n := Need(length, offset); PoolOk(State(Grown(s.m, s.pool, length, offset, junk, n), s.pool[n..]))
  {
    var n := Need(length, offset);
    var g := Grown(s.m, s.pool, length, offset, junk, n);
    forall a | a in s.pool[..n] ensures a in g && g[a].kind.Pool? {
      var i :| 0 <= i < n && s.pool[i] == a;
      GrownAt(s, length, offset, junk, n, i);
    }
    forall a | a !in s.pool[..n] ensures (a in g <==> a in s.m) && (a in g ==> g[a] == s.m[a]) {
      GrownElsewhere(s, length, offset, junk, n, a);
    }
    hide Grown, Need;
    PoolTaken(s, n, g);
  }

  /** The first `n` free pbufs become live ones. */
  lemma PoolTaken(s: State, n: nat, g: map<Addr, Pbuf>)
    requires PoolOk(s) && n <= |s.pool|
    requires forall a :: a in s.pool[..n] ==> a in g && g[a].kind.Pool?
    requires forall a :: a !in s.pool[..n] ==> (a in g <==> a in s.m) && (a in g ==> g[a] == s.m[a])
    ensures PoolOk(State(g, s.pool[n..]))
  {
    var front, rest := s.pool[..n], s.pool[n..];
    SplitMembers(s.pool, n);
    forall a | a in rest ensures a < PBUF_POOL_SIZE && a !in g { }
    forall a | a in g ensures a < PBUF_POOL_SIZE <==> g[a].kind.Pool? {
      if a in front { assert a in s.pool; }
    }
    forall a: Addr | a < PBUF_POOL_SIZE ensures a in g || a in rest {
      if a !in front && a !in s.m { assert a in s.pool; }
    }
  }

  /** Both parts of a list of distinct addresses. */
  lemma SplitMembers(p: seq<Addr>, n: nat)
    requires Distinct(p) && n <= |p|
    ensures Distinct(p[n..])
    ensures forall a :: a in p[n..] ==> a in p && a !in p[..n]
    ensures forall a :: a in p ==> a in p[..n] || a in p[n..]
    ensures forall a :: a in p[..n] ==> a in p
  {
    var rest := p[n..];
    forall i, j | 0 <= i < j < |rest| ensures rest[i] != rest[j] { assert p[n + i] != p[n + j]; }
    forall a | a in rest ensures a in p && a !in p[..n] {
      var i :| 0 <= i < |rest| && rest[i] == a;
      assert p[n + i] == a;
    }
    forall a | a in p ensures a in p[..n] || a in rest {
      var i :| 0 <= i < |p| && p[i] == a;
      if i >= n { assert rest[i - n] == a; } else { assert p[..n][i] == a; }
    }
  }

  /** How much room the pbufs of the pool have: the first leaves `offset` bytes for headers. */
  function RoomIn(offset: nat, i: nat): int {
    PBUF_POOL_BUFSIZE - if i == 0 then offset else 0
  }

  /** A chain from the pool fills one pbuf after the other, the last one as far as it goes; all others stay as they are. */
  lemma AllocPoolFills(s: State, length: u16, offset: nat, junk: seq<u8>, i: nat, a: Addr)
    requires PoolOk(s) && offset <= PBUF_POOL_BUFSIZE && length <= |junk| && i < Need(length, offset) <= |s.pool| && a in s.m
    ensures var r := AllocPool(s, length, offset, junk).0; var n := Need(length, offset);
            && s.pool[i] in r.m && |r.m[s.pool[i]].data| <= RoomIn(offset, i)
            && (i < n - 1 ==> |r.m[s.pool[i]].data| == RoomIn(offset, i))
            && (i > 0 ==> r.m[s.pool[i]].data != [])
            && a in r.m && r.m[a] == s.m[a] && r.pool == s.pool[n..]
  {
    var n := Need(length, offset);
    GrownAt(s, length, offset, junk, n, i);
    assert a !in s.pool[..n];
    GrownElsewhere(s, length, offset, junk, n, a);
    hide Grown, PoolOk;
  }
}
