// `pbuf_realloc` and `pbuf_dechain` of lwip/pbuf.c: what they leave of a chain, what
// they give back of it, and that they touch nothing else.  Both rest on when the
// rest of a chain goes with its first pbuf and when it stays.
module PbufShrink {
  import opened Words
  import opened PbufModel

  /** The index of the new last pbuf, for `rem` bytes to keep. */
  function Stop(m: map<Addr, Pbuf>, path: seq<Addr>, rem: nat): (j: nat)
    ensures path != [] ==> j < |path|
  {
    if |path| <= 1 || rem <= |DataAt(m, path, 0)| then 0
    else 1 + Stop(m, path[1..], rem - |DataAt(m, path, 0)|)
  }

  /** The bytes to keep of it. */
  function Left(m: map<Addr, Pbuf>, path: seq<Addr>, rem: nat): nat {
    if |path| <= 1 || rem <= |DataAt(m, path, 0)| then rem
    else Left(m, path[1..], rem - |DataAt(m, path, 0)|)
  }

  /** The lengths of the pbufs that stay, `path[j]` the last of them. */
  function Trimmed(m: map<Addr, Pbuf>, path: seq<Addr>, j: nat, left: nat, grow: int): map<Addr, Pbuf>
    requires j < |path|
  {
    map a | a in m ::
      if a in path[..j] then m[a].(tot := ToU16(m[a].tot + grow))
      else if a == path[j] then m[a].(data := if left <= |m[a].data| then m[a].data[..left] else m[a].data, tot := ToU16(left))
      else m[a]
  }

  /** `pbuf_free` of the rest while `q` still points at it, then the end of the chain at `q`. */
  function CutOff(s: State, q: Addr): State {
    if q !in s.m then s
    else
      var r := Release(s, s.m[q].next);
      if q in r.m then r.(m := r.m[q := r.m[q].(next := None)]) else r
  }

  /** `pbuf_realloc` of the chain `path` */
  function Realloc(s: State, path: seq<Addr>, newLen: u16): State
    requires path != [] && path[0] in s.m
  {
    if newLen >= s.m[path[0]].tot then s
    else
      var j := Stop(s.m, path, newLen);
      CutOff(s.(m := Trimmed(s.m, path, j, Left(s.m, path, newLen), newLen - s.m[path[0]].tot)), path[j])
  }

  // ----- Reference counts

  /** The order does not matter: the rest is given back the same with the link already cut. */
  lemma {:induction false} ReleaseCommutes(s: State, p: Addr, path: seq<Addr>, q: Addr)
    requires Path(s.m, p, path) && q in s.m && q !in path
    ensures q in Release(s, Some(p)).m
    ensures var r := Release(s, Some(p)); var c := Release(s.(m := s.m[q := s.m[q].(next := None)]), Some(p));
            c == r.(m := r.m[q := r.m[q].(next := None)])
    decreases |path|
  {
    var x := s.m[p];
    var s' := s.(m := s.m[q := s.m[q].(next := None)]);
    assert p != q;
    if x.ref != 1 {
      assert s'.m[p := x.(ref := ToU16(x.ref - 1))] == s.m[p := x.(ref := ToU16(x.ref - 1))][q := s.m[q].(next := None)];
    } else {
      assert Linked(s.m, path, 0);
      var t := State(s.m - {p}, if x.kind.Pool? then [p] + s.pool else s.pool);
      assert s'.m - {p} == t.m[q := t.m[q].(next := None)];
      if |path| > 1 {
        PathWithout(s.m, p, path);
        ReleaseCommutes(t, path[1], path[1..], q);
      }
    }
  }

  lemma CutOffCounted(s: State, held: multiset<Addr>, path: seq<Addr>)
    requires Counted(s.m, held) && path != [] && Path(s.m, path[0], path)
    ensures Counted(CutOff(s, path[0]).m, held)
  {
    var q := path[0];
    assert Linked(s.m, path, 0);
    hide Release;
    LinkCounted(s.m, held, q, None);
    hide Counted;
    if |path| > 1 {
      var t := path[1];
      PathTail(s.m, q, path, 1);
      ApartFromTail(s.m, path, 0, 1);
      hide Path;
      ReleaseCommutes(s, t, path[1..], q);
      assert Moved(held, Some(t), None) == held + multiset{t};
      hide Moved;
      ReleaseCounted(s.(m := s.m[q := s.m[q].(next := None)]), held + multiset{t}, t);
      assert held + multiset{t} - multiset{t} == held;
    } else {
      assert Moved(held, None, None) == held;
    }
  }

  /** Links alone decide what a chain is. */
  lemma PathSame(m: map<Addr, Pbuf>, m': map<Addr, Pbuf>, p: Addr, path: seq<Addr>)
    requires Path(m, p, path) && SameLinks(m, m')
    ensures Path(m', p, path)
  {
    forall i | 0 <= i < |path| ensures Linked(m', path, i) { assert Linked(m, path, i); }
  }

  lemma TrimmedLinks(m: map<Addr, Pbuf>, path: seq<Addr>, j: nat, left: nat, grow: int)
    requires j < |path|
    ensures SameLinks(m, Trimmed(m, path, j, left, grow))
  {
  }

  lemma ReallocCounted(s: State, held: multiset<Addr>, path: seq<Addr>, newLen: u16)
    requires Counted(s.m, held) && path != [] && Path(s.m, path[0], path)
    ensures Counted(Realloc(s, path, newLen).m, held)
  {
    if newLen < s.m[path[0]].tot {
      var j := Stop(s.m, path, newLen);
      var m' := Trimmed(s.m, path, j, Left(s.m, path, newLen), newLen - s.m[path[0]].tot);
      TrimmedLinks(s.m, path, j, Left(s.m, path, newLen), newLen - s.m[path[0]].tot);
      hide Trimmed, CutOff, Stop, Left, Counted, SameLinks, Path;
      assert path[j..] != [] && path[j..][0] == path[j];
      SameCounted(s.m, m', held);
      PathSame(s.m, m', path[0], path);
      PathTail(m', path[0], path, j);
      CutOffCounted(s.(m := m'), held, path[j..]);
    }
  }

  // ----- What is left

  /** The pbufs in front and the part of the last one are the first `rem` bytes. */
  lemma {:induction false} StopBytes(m: map<Addr, Pbuf>, path: seq<Addr>, rem: nat)
    requires path != [] && rem <= |Bytes(m, path)|
    ensures KeptFront(m, path, rem)
    decreases |path|
  {
    var d := DataAt(m, path, 0);
    if |path| > 1 && rem > |d| {
      BytesFront(m, path, 0);
      StopBytes(m, path[1..], rem - |d|);
      StopFurther(m, path, rem);
    } else {
      hide Bytes, DataAt;
    }
  }

  ghost predicate KeptFront(m: map<Addr, Pbuf>, path: seq<Addr>, rem: nat)
    requires path != []
  {
    var j, left := Stop(m, path, rem), Left(m, path, rem);
    && left <= |DataAt(m, path, j)| && rem <= |Bytes(m, path)|
    && Bytes(m, path[..j]) + DataAt(m, path, j)[..left] == Bytes(m, path)[..rem]
  }

  lemma StopFurther(m: map<Addr, Pbuf>, path: seq<Addr>, rem: nat)
    requires |path| > 1 && rem > |DataAt(m, path, 0)| && rem <= |Bytes(m, path)|
    requires KeptFront(m, path[1..], rem - |DataAt(m, path, 0)|)
    ensures KeptFront(m, path, rem)
  {
    hide Bytes;
    var d := DataAt(m, path, 0);
    var j, left := Stop(m, path[1..], rem - |d|), Left(m, path[1..], rem - |d|);
    BytesFront(m, path, j);
    assert DataAt(m, path, j + 1) == DataAt(m, path[1..], j);
    hide DataAt;
    Regroup(d, Bytes(m, path[1..][..j]), DataAt(m, path, j + 1)[..left], Bytes(m, path[1..]), rem);
  }

  lemma Regroup(d: seq<u8>, a: seq<u8>, b: seq<u8>, tail: seq<u8>, rem: nat)
    requires |d| <= rem <= |d| + |tail| && a + b == tail[..rem - |d|]
    ensures d + a + b == (d + tail)[..rem]
  {
    assert d + a + b == d + (a + b);
  }

  lemma BytesFront(m: map<Addr, Pbuf>, path: seq<Addr>, j: nat)
    requires j < |path|
    ensures Bytes(m, path) == DataAt(m, path, 0) + Bytes(m, path[1..])
    ensures Bytes(m, path[..j + 1]) == DataAt(m, path, 0) + Bytes(m, path[1..][..j])
  {
    assert path[..j + 1][1..] == path[1..][..j];
  }

  /** `tot` of each pbuf that stays, plus the growth, is what is to keep from there on. */
  lemma {:induction false} StopTot(m: map<Addr, Pbuf>, path: seq<Addr>, rem: nat, i: nat)
    requires path != [] && Whole(m, path) && i <= Stop(m, path, rem)
    ensures TotAt(m, path, i) - TotAt(m, path, 0) + rem >= 0
    ensures i == Stop(m, path, rem) ==> TotAt(m, path, i) - TotAt(m, path, 0) + rem == Left(m, path, rem)
  {
    if |path| > 1 && rem > |DataAt(m, path, 0)| && i > 0 {
      WholeTail(m, path);
      StopTot(m, path[1..], rem - |DataAt(m, path, 0)|, i - 1);
      assert TotAt(m, path, i) == TotAt(m, path[1..], i - 1);
    }
  }

  /** What a pbuf that stays looks like afterwards. */
  lemma StaysAs(s: State, path: seq<Addr>, newLen: u16, i: nat)
    requires path != [] && Path(s.m, path[0], path) && newLen < s.m[path[0]].tot && i <= Stop(s.m, path, newLen)
    ensures var r := Realloc(s, path, newLen).m; var j := Stop(s.m, path, newLen); var left := Left(s.m, path, newLen);
            && path[i] in s.m && path[i] in r
            && r[path[i]].next == (if i < j then Some(path[i + 1]) else None)
            && r[path[i]].tot == (if i < j then ToU16(s.m[path[i]].tot + newLen - s.m[path[0]].tot) else ToU16(left))
            && r[path[i]].data == (if i < j || left > |s.m[path[j]].data| then s.m[path[i]].data else s.m[path[j]].data[..left])
  {
    var j, left, grow := Stop(s.m, path, newLen), Left(s.m, path, newLen), newLen - s.m[path[0]].tot;
    var m' := Trimmed(s.m, path, j, left, grow);
    TrimmedAt(s.m, path, j, left, grow, i);
    TrimmedLinks(s.m, path, j, left, grow);
    PathSame(s.m, m', path[0], path);
    hide Stop, Left, Trimmed, CutOff, Path, SameLinks;
    CutOffKeeps(s.(m := m'), path, j, i);
  }

  lemma TrimmedAt(m: map<Addr, Pbuf>, path: seq<Addr>, j: nat, left: nat, grow: int, i: nat)
    requires path != [] && Path(m, path[0], path) && i <= j < |path|
    ensures var r := Trimmed(m, path, j, left, grow);
            && path[i] in m && path[i] in r && m[path[i]].next == After(path, i)
            && r[path[i]] == if i < j then m[path[i]].(tot := ToU16(m[path[i]].tot + grow))
                             else m[path[i]].(data := if left <= |m[path[i]].data| then m[path[i]].data[..left] else m[path[i]].data,
                                              tot := ToU16(left))
  {
    assert Linked(m, path, i);
    if i < j {
      assert path[..j][i] == path[i];
    } else {
      forall k | 0 <= k < j ensures path[k] != path[j] { PathDistinct(m, path[0], path, k, j); }
    }
  }

  lemma CutOffKeeps(s: State, path: seq<Addr>, j: nat, i: nat)
    requires path != [] && Path(s.m, path[0], path) && i <= j < |path|
    ensures path[i] in s.m && path[i] in CutOff(s, path[j]).m
    ensures CutOff(s, path[j]).m[path[i]] == if i < j then s.m[path[i]] else s.m[path[j]].(next := None)
  {
    assert Linked(s.m, path, i) && Linked(s.m, path, j);
    if i < j { PathDistinct(s.m, path[0], path, i, j); }
    hide Release;
    if j + 1 < |path| {
      PathTail(s.m, path[0], path, j + 1);
      ApartFromTail(s.m, path, i, j + 1);
      ApartFromTail(s.m, path, j, j + 1);
      ReleaseElsewhere(s, path[j + 1], path[j + 1..], path[i]);
      ReleaseElsewhere(s, path[j + 1], path[j + 1..], path[j]);
    }
  }

  lemma ApartFromTail(m: map<Addr, Pbuf>, path: seq<Addr>, i: nat, k: nat)
    requires path != [] && Path(m, path[0], path) && i < k <= |path|
    ensures path[i] !in path[k..]
  {
    forall x | k <= x < |path| ensures path[x] != path[i] { PathDistinct(m, path[0], path, i, x); }
  }

  /** `pbuf_realloc` of a whole chain leaves a whole chain with exactly the first `newLen` bytes. */
  lemma ReallocKeeps(s: State, path: seq<Addr>, newLen: u16)
    requires path != [] && Path(s.m, path[0], path) && Whole(s.m, path) && newLen < s.m[path[0]].tot
    ensures var r := Realloc(s, path, newLen).m; var kept := path[..Stop(s.m, path, newLen) + 1];
            && Path(r, path[0], kept) && Whole(r, kept)
            && newLen <= |Bytes(s.m, path)| && Bytes(r, kept) == Bytes(s.m, path)[..newLen]
  {
    hide Realloc, Stop, Left, Bytes;
    var r, j := Realloc(s, path, newLen).m, Stop(s.m, path, newLen);
    var kept := path[..j + 1];
    WholeBytes(s.m, path);
    assert TotAt(s.m, path, 0) == s.m[path[0]].tot;
    StaysAs(s, path, newLen, 0);
    forall i | 0 <= i < |kept| ensures Linked(r, kept, i) { StaysAs(s, path, newLen, i); }
    forall i | 0 <= i < |kept| ensures WholeAt(r, kept, i) { StaysWhole(s, path, newLen, i); }
    KeptBytes(s, path, newLen);
  }

  /** No pbuf more stays than it takes, and nothing happens to a chain that is short enough. */
  lemma ReallocShortest(s: State, path: seq<Addr>, newLen: u16)
    requires path != [] && Path(s.m, path[0], path) && Whole(s.m, path)
    ensures newLen >= s.m[path[0]].tot ==> Realloc(s, path, newLen) == s
    ensures newLen < s.m[path[0]].tot ==> var j := Stop(s.m, path, newLen); j == 0 || |Bytes(s.m, path[..j])| < newLen
  {
    if newLen < s.m[path[0]].tot {
      WholeBytes(s.m, path);
      assert TotAt(s.m, path, 0) == s.m[path[0]].tot;
      StopShort(s.m, path, newLen);
    }
  }

  lemma {:induction false} StopShort(m: map<Addr, Pbuf>, path: seq<Addr>, rem: nat)
    requires path != [] && rem <= |Bytes(m, path)|
    ensures var j := Stop(m, path, rem); j < |path| && (j == 0 || |Bytes(m, path[..j])| < rem)
    decreases |path|
  {
    var j := Stop(m, path, rem);
    if j > 0 {
      StopShort(m, path[1..], rem - |DataAt(m, path, 0)|);
      assert path[..j][1..] == path[1..][..j - 1];
      assert DataAt(m, path[..j], 0) == DataAt(m, path, 0);
    }
  }

  lemma OneBytes(m: map<Addr, Pbuf>, a: Addr)
    requires a in m
    ensures Bytes(m, [a]) == m[a].data
  {
    assert [a][1..] == [] && Bytes(m, [a][1..]) == [];
  }

  lemma KeptBytes(s: State, path: seq<Addr>, newLen: u16)
    requires path != [] && Path(s.m, path[0], path) && Whole(s.m, path) && newLen < s.m[path[0]].tot
    requires newLen <= |Bytes(s.m, path)|
    ensures Bytes(Realloc(s, path, newLen).m, path[..Stop(s.m, path, newLen) + 1]) == Bytes(s.m, path)[..newLen]
  {
    hide Realloc, Stop, Left, Whole, Bytes;
    var r, j, left := Realloc(s, path, newLen).m, Stop(s.m, path, newLen), Left(s.m, path, newLen);
    StopBytes(s.m, path, newLen);
    StaysAs(s, path, newLen, j);
    OneBytes(r, path[j]);
    assert path[..j + 1] == path[..j] + [path[j]];
    BytesJoin(r, path[..j], [path[j]]);
    forall a | a in path[..j] ensures a in s.m && a in r && r[a].data == s.m[a].data {
      var i :| 0 <= i < j && path[i] == a;
      StaysAs(s, path, newLen, i);
    }
    BytesSame(s.m, r, path[..j]);
  }

  lemma StopFits(m: map<Addr, Pbuf>, path: seq<Addr>, rem: nat)
    requires path != [] && Whole(m, path) && rem <= TotAt(m, path, 0)
    ensures Left(m, path, rem) <= |DataAt(m, path, Stop(m, path, rem))|
  {
    WholeBytes(m, path);
    StopBytes(m, path, rem);
  }

  lemma StaysTot(s: State, path: seq<Addr>, newLen: u16, i: nat)
    requires path != [] && Path(s.m, path[0], path) && Whole(s.m, path) && newLen < s.m[path[0]].tot
    requires i <= Stop(s.m, path, newLen)
    ensures var r := Realloc(s, path, newLen).m; var j := Stop(s.m, path, newLen);
            && path[i] in s.m && path[i] in r && s.m[path[0]].tot == TotAt(s.m, path, 0)
            && r[path[i]].tot == TotAt(s.m, path, i) - TotAt(s.m, path, 0) + newLen
            && |r[path[i]].data| == if i < j then |DataAt(s.m, path, i)| else r[path[i]].tot
  {
    hide Realloc, Stop, Left, Bytes, Whole;
    StaysAs(s, path, newLen, i);
    StopTot(s.m, path, newLen, i);
    StopFits(s.m, path, newLen);
    TotFalls(s.m, path, i);
  }

  lemma StaysWhole(s: State, path: seq<Addr>, newLen: u16, i: nat)
    requires path != [] && Path(s.m, path[0], path) && Whole(s.m, path) && newLen < s.m[path[0]].tot
    requires i <= Stop(s.m, path, newLen)
    ensures WholeAt(Realloc(s, path, newLen).m, path[..Stop(s.m, path, newLen) + 1], i)
  {
    hide Realloc, Stop, Left, Bytes, Path;
    var j := Stop(s.m, path, newLen);
    StaysTot(s, path, newLen, i);
    assert WholeAt(s.m, path, i);
    if i < j { StaysTot(s, path, newLen, i + 1); }
  }

  // ----- pbuf_dechain splits

  /**
   * `pbuf_dechain` leaves the first pbuf a whole chain of its own, and the rest a whole chain with the
   * other bytes if somebody else holds it; if nobody does, it is given back.
   */
  lemma {:induction false} DechainSplits(s: State, path: seq<Addr>)
    requires |path| > 1 && Path(s.m, path[0], path) && Whole(s.m, path)
    requires path[1] in s.m && s.m[path[0]].next == Some(path[1])
    ensures var p, q, r := path[0], path[1], Dechain(s, path[0]).0.m; var d := DataAt(s.m, path, 0);
            && Path(r, p, [p]) && Whole(r, [p]) && Bytes(r, [p]) == d
            && (q in r <==> s.m[q].ref != 1)
            && (q in r ==> Path(r, q, path[1..]) && Whole(r, path[1..]) && d + Bytes(r, path[1..]) == Bytes(s.m, path))
  {
    var p, q, tail := path[0], path[1], path[1..];
    assert Linked(s.m, path, 0) && Linked(s.m, path, 1);
    PathDistinct(s.m, p, path, 0, 1);
    ApartFromTail(s.m, path, 0, 1);
    DecoupledTail(s.m, path);
    var d := Decoupled(s.m, p);
    assert WholeAt(s.m, path, 0);
    ReleaseFirst(s.(m := d), q);
    ReleaseElsewhere(s.(m := d), q, tail, p);
    var r := Release(s.(m := d), Some(q)).m;
    assert Dechain(s, p).0.m == r;
    assert WholeAt(r, [p], 0) && Linked(r, [p], 0);
    BytesFront(s.m, path, 0);
    if q in r {
      hide Release, Bytes;
      RefDown(d, q, tail);
    }
  }

  /** The first pbuf given up goes or stays by its own count. */
  lemma ReleaseFirst(s: State, q: Addr)
    requires q in s.m
    ensures if s.m[q].ref != 1 then Release(s, Some(q)).m == s.m[q := s.m[q].(ref := ToU16(s.m[q].ref - 1))]
            else q !in Release(s, Some(q)).m
  {
    if s.m[q].ref == 1 {
      ReleaseShrinks(State(s.m - {q}, if s.m[q].kind.Pool? then [q] + s.pool else s.pool), s.m[q].next, q);
    }
  }

  lemma {:induction false} ReleaseShrinks(s: State, p: Option<Addr>, a: Addr)
    requires a !in s.m
    ensures a !in Release(s, p).m
    decreases |s.m|
  {
    if p.Some? && p.value in s.m && s.m[p.value].ref == 1 {
      ReleaseShrinks(State(s.m - {p.value}, if s.m[p.value].kind.Pool? then [p.value] + s.pool else s.pool), s.m[p.value].next, a);
    }
  }

  /** Taking a chain apart, or shortening it, touches no pbuf outside it. */
  lemma ChainOnly(s: State, path: seq<Addr>, newLen: u16, a: Addr)
    requires path != [] && Path(s.m, path[0], path) && a in s.m && a !in path
    ensures var r := Realloc(s, path, newLen).m; a in r && r[a] == s.m[a]
    ensures s.m[path[0]].next.Some? ==> s.m[path[0]].next.value in s.m
    ensures var r := Dechain(s, path[0]).0.m; a in r && r[a] == s.m[a]
  {
    var p := path[0];
    assert Linked(s.m, path, 0);
    if |path| > 1 {
      assert Linked(s.m, path, 1);
      DechainOnly(s, path, a);
    }
    ReallocOnly(s, path, newLen, a);
  }

  lemma DechainOnly(s: State, path: seq<Addr>, a: Addr)
    requires |path| > 1 && Path(s.m, path[0], path) && a in s.m && a !in path
    ensures s.m[path[0]].next == Some(path[1]) && path[1] in s.m
    ensures var r := Dechain(s, path[0]).0.m; a in r && r[a] == s.m[a]
  {
    assert Linked(s.m, path, 0) && Linked(s.m, path, 1);
    var d := s.(m := Decoupled(s.m, path[0]));
    DecoupledRest(s.m, path);
    hide Release, Path;
    assert a !in path[1..] && a in d.m && d.m[a] == s.m[a];
    ReleaseElsewhere(d, path[1], path[1..], a);
  }

  lemma DecoupledRest(m: map<Addr, Pbuf>, path: seq<Addr>)
    requires |path| > 1 && Path(m, path[0], path) && m[path[0]].next == Some(path[1]) && path[1] in m
    ensures Path(Decoupled(m, path[0]), path[1], path[1..])
  {
    PathTail(m, path[0], path, 1);
    ApartFromTail(m, path, 0, 1);
    forall i | 0 <= i < |path| - 1 ensures Linked(Decoupled(m, path[0]), path[1..], i) { assert Linked(m, path[1..], i); }
  }

  lemma ReallocOnly(s: State, path: seq<Addr>, newLen: u16, a: Addr)
    requires path != [] && Path(s.m, path[0], path) && a in s.m && a !in path
    ensures var r := Realloc(s, path, newLen).m; a in r && r[a] == s.m[a]
  {
    if newLen < s.m[path[0]].tot {
      var j := Stop(s.m, path, newLen);
      var t := s.(m := Trimmed(s.m, path, j, Left(s.m, path, newLen), newLen - s.m[path[0]].tot));
      TrimmedLinks(s.m, path, j, Left(s.m, path, newLen), newLen - s.m[path[0]].tot);
      PathSame(s.m, t.m, path[0], path);
      assert a in t.m && t.m[a] == s.m[a];
      hide Trimmed, Stop, Left;
      CutOffOnly(t, path, j, a);
    }
  }

  lemma CutOffOnly(s: State, path: seq<Addr>, j: nat, a: Addr)
    requires j < |path| && Path(s.m, path[0], path) && a in s.m && a !in path
    ensures var r := CutOff(s, path[j]).m; a in r && r[a] == s.m[a]
  {
    assert Linked(s.m, path, j);
    if j + 1 < |path| {
      PathTail(s.m, path[0], path, j + 1);
      hide Release, Path;
      assert a !in path[j + 1..];
      ReleaseElsewhere(s, path[j + 1], path[j + 1..], a);
    }
  }

  /** Whatever the lengths said before: the rest is told the length behind the first pbuf. */
  lemma DechainLengths(s: State, p: Addr)
    requires p in s.m && s.m[p].next.Some? && s.m[p].next.value in s.m && s.m[p].next.value != p
    requires s.m[s.m[p].next.value].ref > 1
    ensures var q, r := s.m[p].next.value, Dechain(s, p).0.m;
            && p in r && r[p].next == None && r[p].tot == ToU16(|s.m[p].data|)
            && q in r && r[q].tot == ToU16(s.m[p].tot - |s.m[p].data|) && r[q].ref == s.m[q].ref - 1
  {
  }

  /** What `pbuf_dechain` returns is the tail if that is still live, and NULL if not, unless the 8-bit count wraps to 0. */
  lemma DechainRightIff(s: State, p: Addr)
    requires p in s.m && s.m[p].next.Some? && s.m[p].next.value in s.m
    ensures var r := Dechain(s, p); var q := s.m[p].next; var gone := Gone(Decoupled(s.m, p), q);
            r.1 == (if q.value in r.0.m then q else None) <==> gone == 0 || gone % 0x100 != 0
  {
    var q := s.m[p].next.value;
    ReleaseFirst(s.(m := Decoupled(s.m, p)), q);
    hide Release, Decoupled;
  }

  /** The pbufs at the addresses from `a` on form a chain of `n`, with one reference each. */
  ghost predicate Row(m: map<Addr, Pbuf>, a: Addr, n: nat) {
    forall b :: a <= b < a + n ==> b in m && m[b].ref == 1 && m[b].next == if b + 1 < a + n then Some(b + 1) else None
  }

  lemma {:induction false} RowGone(m: map<Addr, Pbuf>, a: Addr, n: nat)
    requires Row(m, a, n) && n > 0
    ensures Gone(m, Some(a)) == n
    decreases n
  {
    if n > 1 {
      assert Row(m - {a}, a + 1, n - 1);
      RowGone(m - {a}, a + 1, n - 1);
    }
  }

  /** A tail of 256 pbufs that nobody else holds: all of it is given back, and its address is returned. */
  lemma DechainReturnsFreed(s: State, a: Addr)
    requires a in s.m && s.m[a].next == Some(a + 1) && Row(s.m, a + 1, 256)
    ensures var r := Dechain(s, a); r.1 == Some(a + 1) && a + 1 !in r.0.m
  {
    assert Row(Decoupled(s.m, a), a + 1, 256);
    RowGone(Decoupled(s.m, a), a + 1, 256);
    DechainRightIff(s, a);
    hide Release, Decoupled, Row;
  }

  lemma DecoupledTail(m: map<Addr, Pbuf>, path: seq<Addr>)
    requires |path| > 1 && Path(m, path[0], path) && Whole(m, path) && path[1] in m && m[path[0]].next == Some(path[1])
    ensures var d, tail := Decoupled(m, path[0]), path[1..];
            Path(d, path[1], tail) && Whole(d, tail) && Bytes(d, tail) == Bytes(m, tail)
  {
    var p, q, tail := path[0], path[1], path[1..];
    var d := Decoupled(m, p);
    PathDistinct(m, p, path, 0, 1);
    ApartFromTail(m, path, 0, 1);
    PathTail(m, p, path, 1);
    WholeTail(m, path);
    hide Bytes;
    assert TotAt(m, tail, 0) == m[q].tot && TotAt(m, path, 0) == m[p].tot && |DataAt(m, path, 0)| == |m[p].data|;
    assert d[q] == m[q];
    forall x | x in tail ensures x in m && x in d && d[x] == m[x] { PathIn(m, q, tail, x); }
    forall i | 0 <= i < |tail| ensures Linked(d, tail, i) { assert Linked(m, tail, i); }
    forall i | 0 <= i < |tail| ensures WholeAt(d, tail, i) { assert WholeAt(m, tail, i); }
    BytesSame(m, d, tail);
  }

  lemma RefDown(d: map<Addr, Pbuf>, q: Addr, tail: seq<Addr>)
    requires Path(d, q, tail) && Whole(d, tail)
    ensures var r := d[q := d[q].(ref := ToU16(d[q].ref - 1))];
            Path(r, q, tail) && Whole(r, tail) && Bytes(r, tail) == Bytes(d, tail)
  {
    var r := d[q := d[q].(ref := ToU16(d[q].ref - 1))];
    forall x | x in tail ensures x in d { PathIn(d, q, tail, x); }
    hide Bytes;
    forall i | 0 <= i < |tail| ensures Linked(r, tail, i) { assert Linked(d, tail, i); }
    forall i | 0 <= i < |tail| ensures WholeAt(r, tail, i) { assert WholeAt(d, tail, i); }
    BytesSame(d, r, tail);
  }
}
