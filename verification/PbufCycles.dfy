// The links of lwip/pbuf.c make no cycle; with exact counts, a pbuf therefore
// lives exactly as long as somebody outside can still reach it.
module PbufCycles {
  import opened Words
  import opened PbufModel

  // ----- No cycles

  ghost predicate Ranked(m: map<Addr, Pbuf>, rank: map<Addr, nat>) {
    forall a :: a in m ==> RankedAt(m, rank, a)
  }

  ghost predicate RankedAt(m: map<Addr, Pbuf>, rank: map<Addr, nat>, a: Addr)
    requires a in m
  {
    && a in rank
    && (m[a].next.Some? && m[a].next.value in m ==> m[a].next.value in rank && rank[m[a].next.value] < rank[a])
  }

  ghost predicate Acyclic(m: map<Addr, Pbuf>) {
    exists rank: map<Addr, nat> :: Ranked(m, rank)
  }

  /** `n` steps along the links lead from `a` to `b`. */
  ghost predicate Reaches(m: map<Addr, Pbuf>, a: Addr, b: Addr, n: nat)
    decreases n
  {
    a in m && if n == 0 then a == b else m[a].next.Some? && Reaches(m, m[a].next.value, b, n - 1)
  }

  ghost predicate CanReach(m: map<Addr, Pbuf>, a: Addr, b: Addr) {
    exists n: nat :: Reaches(m, a, b, n)
  }

  /** Somebody outside holds a pbuf from which the links lead to `b`. */
  ghost predicate Held(m: map<Addr, Pbuf>, held: multiset<Addr>, b: Addr) {
    exists h :: h in held && CanReach(m, h, b)
  }

  lemma {:induction false} ReachesOn(m: map<Addr, Pbuf>, a: Addr, c: Addr, n: nat, b: Addr)
    requires Reaches(m, a, c, n) && c in m && m[c].next == Some(b) && b in m
    ensures Reaches(m, a, b, n + 1)
    decreases n
  {
    if n > 0 {
      ReachesOn(m, m[a].next.value, c, n - 1, b);
    } else {
      assert Reaches(m, b, b, 0);
    }
  }

  lemma {:induction false} ReachesLive(m: map<Addr, Pbuf>, a: Addr, b: Addr, n: nat)
    requires Reaches(m, a, b, n)
    ensures b in m
    decreases n
  {
    if n > 0 { ReachesLive(m, m[a].next.value, b, n - 1); }
  }

  ghost function Above(m: map<Addr, Pbuf>, rank: map<Addr, nat>, b: Addr): set<Addr>
    requires b in rank
  {
    set a | a in m && a in rank && rank[a] > rank[b]
  }

  lemma {:induction false} LiveIsHeld(m: map<Addr, Pbuf>, held: multiset<Addr>, rank: map<Addr, nat>, b: Addr)
    requires Counted(m, held) && Ranked(m, rank) && b in m && b in rank
    ensures Held(m, held, b)
    decreases |Above(m, rank, b)|
  {
    if b in held {
      assert Reaches(m, b, b, 0);
      assert CanReach(m, b, b);
    } else {
      assert |Into(m, b)| > 0;
      var c :| c in Into(m, b);
      assert RankedAt(m, rank, c);
      assert Above(m, rank, c) < Above(m, rank, b) by { assert c in Above(m, rank, b) && c !in Above(m, rank, c); }
      Smaller(Above(m, rank, c), Above(m, rank, b));
      LiveIsHeld(m, held, rank, c);
      var h :| h in held && CanReach(m, h, c);
      var n: nat :| Reaches(m, h, c, n);
      ReachesOn(m, h, c, n, b);
      assert CanReach(m, h, b);
    }
  }

  lemma Smaller(a: set<Addr>, b: set<Addr>)
    requires a < b
    ensures |a| < |b|
  {
    assert b == a + (b - a);
    assert |b| == |a| + |b - a|;
    assert b - a != {};
  }

  /** No pbuf is given back too early, and none is lost: the live ones are exactly those that a holder can reach. */
  lemma LiveIffHeld(m: map<Addr, Pbuf>, held: multiset<Addr>, b: Addr)
    requires Counted(m, held) && Acyclic(m)
    ensures b in m <==> Held(m, held, b)
  {
    if b in m {
      var rank: map<Addr, nat> :| Ranked(m, rank);
      assert RankedAt(m, rank, b);
      LiveIsHeld(m, held, rank, b);
    }
    if Held(m, held, b) {
      var h :| h in held && CanReach(m, h, b);
      var n: nat :| Reaches(m, h, b, n);
      ReachesLive(m, h, b, n);
    }
  }

  // ----- The operations make no cycle

  /** Fewer pbufs and fewer links. */
  ghost predicate Fewer(m': map<Addr, Pbuf>, m: map<Addr, Pbuf>) {
    forall a :: a in m' ==> a in m && (m'[a].next == m[a].next || m'[a].next.None?)
  }

  lemma FewerAcyclic(m': map<Addr, Pbuf>, m: map<Addr, Pbuf>)
    requires Fewer(m', m) && Acyclic(m)
    ensures Acyclic(m')
  {
    var rank: map<Addr, nat> :| Ranked(m, rank);
    forall a | a in m' ensures RankedAt(m', rank, a) {
      assert RankedAt(m, rank, a);
      if m'[a].next.Some? && m'[a].next.value in m' { assert RankedAt(m, rank, m'[a].next.value); }
    }
    assert Ranked(m', rank);
  }

  lemma {:induction false} ReleaseFewer(s: State, p: Option<Addr>)
    ensures Fewer(Release(s, p).m, s.m)
    decreases |s.m|
  {
    if p.Some? && p.value in s.m && s.m[p.value].ref == 1 {
      ReleaseFewer(State(s.m - {p.value}, if s.m[p.value].kind.Pool? then [p.value] + s.pool else s.pool), s.m[p.value].next);
    }
  }

  lemma ReleaseAcyclic(s: State, p: Option<Addr>)
    requires Acyclic(s.m)
    ensures Acyclic(Release(s, p).m)
  {
    ReleaseFewer(s, p);
    FewerAcyclic(Release(s, p).m, s.m);
  }

  lemma {:induction false} PathReaches(m: map<Addr, Pbuf>, path: seq<Addr>, i: nat, x: Addr, n: nat)
    requires path != [] && Path(m, path[0], path) && i < |path| && Reaches(m, path[i], x, n)
    ensures x in path
    decreases n
  {
    assert Linked(m, path, i);
    if n > 0 { PathReaches(m, path, i + 1, x, n - 1); }
  }

  /** Joining two chains that have nothing in common. */
  lemma CatAcyclic(m: map<Addr, Pbuf>, a: seq<Addr>, b: seq<Addr>)
    requires a != [] && b != [] && Path(m, a[0], a) && Path(m, b[0], b) && Acyclic(m) && forall x :: x in a ==> x !in b
    ensures Acyclic(Cat(m, a, b[0]))
  {
    var rank: map<Addr, nat> :| Ranked(m, rank);
    var last, t := a[|a| - 1], b[0];
    assert Linked(m, a, |a| - 1) && RankedAt(m, rank, t);
    var up := map x | x in m && x in rank :: if CanReach(m, x, last) then rank[x] + rank[t] + 1 else rank[x];
    var m' := Cat(m, a, t);
    forall x | x in m' ensures RankedAt(m', up, x) {
      assert RankedAt(m, rank, x);
      if x == last {
        assert Reaches(m, last, last, 0);
        if CanReach(m, t, last) {
          var n: nat :| Reaches(m, t, last, n);
          PathReaches(m, b, 0, last, n);
        }
      } else if m[x].next.Some? && m[x].next.value in m {
        var y := m[x].next.value;
        assert RankedAt(m, rank, y);
        if CanReach(m, y, last) {
          var n: nat :| Reaches(m, y, last, n);
          assert Reaches(m, x, last, n + 1);
        }
      }
    }
    assert Ranked(m', up);
  }

  /** A new pbuf without a link, or one that takes over the link of another. */
  lemma AddAcyclic(m: map<Addr, Pbuf>, q: Addr, x: Pbuf)
    requires Acyclic(m) && q !in m && x.next.None? && forall a :: a in m ==> m[a].next != Some(q)
    ensures Acyclic(m[q := x])
  {
    var rank: map<Addr, nat> :| Ranked(m, rank);
    var up := rank[q := 0];
    var m' := m[q := x];
    forall a | a in m' ensures RankedAt(m', up, a) {
      if a in m { assert RankedAt(m, rank, a); }
    }
    assert Ranked(m', up);
  }

  /** One more pbuf behind the end of a chain. */
  lemma ExtendAcyclic(m: map<Addr, Pbuf>, p: Addr, q: Addr, x: Pbuf)
    requires Acyclic(m) && p in m && m[p].next.None? && q !in m && x.next.None? && forall a :: a in m ==> m[a].next != Some(q)
    ensures Acyclic(m[p := m[p].(next := Some(q))][q := x])
  {
    var rank: map<Addr, nat> :| Ranked(m, rank);
    var up := (map a | a in rank :: rank[a] + 1)[q := 0];
    var m' := m[p := m[p].(next := Some(q))][q := x];
    forall a | a in m' ensures RankedAt(m', up, a) {
      if a in m { assert RankedAt(m, rank, a); }
    }
    assert Ranked(m', up);
  }
}
