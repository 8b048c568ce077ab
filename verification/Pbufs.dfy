// lwip/pbuf.c on its own terms: loops that walk the chains and change counts,
// lengths and links in place, each proved against the functions of PbufModel,
// PbufPool, PbufShrink and PbufTake.
//
// The memory of the class is a map from addresses to pbufs, and the pool a list
// of addresses.  A walk along a chain is given the addresses of its pbufs as a
// ghost, so that its invariant can say which of them it has dealt with.  The
// lemmas behind the class say of each single turn of a loop what it leaves to be
// done, and of each group of stores which function of the specification they
// amount to.
module Pbufs {
  import opened Words
  import opened PbufModel
  import opened PbufPool
  import opened PbufShrink
  import opened PbufTake

  /** The lengths once `pbuf_realloc` has stepped over the first `i` pbufs, or `pbuf_cat` past them. */
  function Bumped(m: map<Addr, Pbuf>, path: seq<Addr>, i: nat, grow: int): map<Addr, Pbuf>
    requires i <= |path|
  {
    map a | a in m :: if a in path[..i] then m[a].(tot := ToU16(m[a].tot + grow)) else m[a]
  }

  class Pbufs {
    /** What is at the address of each live pbuf. */
    var m: map<Addr, Pbuf>
    /** `pbuf_pool` and the links behind it. */
    var pool: seq<Addr>

    ghost function St(): State
      reads this
    {
      State(m, pool)
    }

    /** `pbuf_init` */
    constructor ()
      ensures St() == Init()
    {
      m, pool := map[], [];
      new;
      var i := 0;
      while i < PBUF_POOL_SIZE
        invariant i <= PBUF_POOL_SIZE && m == map[] && pool == seq(i, k => k)
      {
        pool := pool + [i];
        i := i + 1;
      }
    }

    /** `pbuf_free` */
    method Free(p0: Option<Addr>, ghost path0: seq<Addr>) returns (count: u8)
      requires p0.Some? ==> Path(m, p0.value, path0)
      modifies this
      ensures St() == Release(old(St()), p0) && count == ToU8(Gone(old(m), p0))
    {
      var p := p0;
      ghost var path := path0;
      count := 0;
      hide Release, Gone, ToU8, Path;
      while p.Some?
        invariant p.Some? ==> Path(m, p.value, path)
        invariant Release(St(), p) == Release(old(St()), p0)
        invariant ToU8(count + Gone(m, p)) == ToU8(Gone(old(m), p0))
        decreases if p.Some? then |path| + 1 else 0
      {
        FreeStep(St(), p.value, path);
        var a := p.value;
        if m[a].ref == 1 {
          FreeGone(St(), a, path, count);
          var q := m[a].next;
          if m[a].kind.Pool? { pool := [a] + pool; }
          m := m - {a};
          count := ToU8(count + 1);
          p := q;
          path := path[1..];
        } else {
          FreeKept(St(), a);
          m := m[a := m[a].(ref := ToU16(m[a].ref - 1))];
          p := None;
        }
      }
    }

    /** `pbuf_ref` */
    method RefUp(p: Option<Addr>)
      requires p.Some? ==> p.value in m
      modifies this`m
      ensures m == if p.Some? then PbufModel.RefUp(old(m), p.value) else old(m)
    {
      if p.Some? { m := m[p.value := m[p.value].(ref := ToU16(m[p.value].ref + 1))]; }
    }

    /** `pbuf_cat` of two chains with nothing in common */
    method Cat(h: Addr, t: Addr, ghost path: seq<Addr>)
      requires Path(m, h, path) && t in m && t !in path
      modifies this`m
      ensures m == PbufModel.Cat(old(m), path, t)
    {
      var p := h;
      ghost var i, m0 := 0, m;
      assert Linked(m0, path, 0);
      while m[p].next.Some?
        invariant 0 <= i < |path| && p == path[i] && p in m
        invariant m == Bumped(m0, path, i, m0[t].tot)
        invariant m[p].next == m0[p].next == After(path, i)
        decreases |path| - i
      {
        BumpMore(m0, h, path, i, m0[t].tot);
        assert Linked(m0, path, i) && Linked(m0, path, i + 1);
        m := m[p := m[p].(tot := ToU16(m[p].tot + m[t].tot))];
        p := m[p].next.value;
        i := i + 1;
      }
      BumpMore(m0, h, path, i, m0[t].tot);
      m := m[p := m[p].(tot := ToU16(m[p].tot + m[t].tot))];
      m := m[p := m[p].(next := Some(t))];
      BumpedCat(m0, h, path, t);
    }

    /** `pbuf_chain` */
    method Chain(h: Addr, t: Addr, ghost path: seq<Addr>)
      requires Path(m, h, path) && t in m && t !in path
      modifies this`m
      ensures m == PbufModel.Chain(old(m), path, t)
    {
      Cat(h, t, path);
      RefUp(Some(t));
    }

    /** `pbuf_dechain` */
    method Dechain(p: Addr, ghost path: seq<Addr>) returns (r: Option<Addr>)
      requires Path(m, p, path) && Linked(m, path, 0) && (|path| > 1 ==> path[1] in m)
      modifies this
      ensures St() == PbufModel.Dechain(old(St()), p).0 && r == PbufModel.Dechain(old(St()), p).1
    {
      var gone: u8 := 1;
      var q := m[p].next;
      if q.Some? {
        ghost var m0 := m;
        m := m[q.value := m[q.value].(tot := ToU16(m[p].tot - |m[p].data|))];
        m := m[p := m[p].(next := None)];
        m := m[p := m[p].(tot := ToU16(|m[p].data|))];
        assert m == Decoupled(m0, p);
        DecoupledPath(m0, path);
        gone := Free(q, path[1..]);
      }
      r := if gone > 0 then None else q;
    }

    /** `pbuf_realloc` of a whole chain */
    method Realloc(p: Addr, newLen: u16, ghost path: seq<Addr>)
      requires Path(m, p, path) && Whole(m, path)
      modifies this
      ensures St() == PbufShrink.Realloc(old(St()), path, newLen)
    {
      ghost var m0 := m;
      assert Linked(m0, path, 0);
      hide Stop, Left, Bumped, Trimmed, CutOff, Release, ToU16, Path, Whole;
      if newLen < m[p].tot {
        var grow := newLen - m[p].tot;
        ghost var i;
        var q, rem;
        q, rem, i := StepOver(p, newLen, grow, path);
        TrimmedIs(m0, p, path, i, rem, grow);
        m := m[q := m[q].(data := m[q].data[..rem])];
        m := m[q := m[q].(tot := |m[q].data|)];
        EndOfChain(q, path, i);
      }
    }

    /** The walk to the pbuf in which the new length ends, adjusting the totals on the way. */
    method StepOver(p: Addr, newLen: u16, grow: int, ghost path: seq<Addr>) returns (q: Addr, rem: nat, ghost i: nat)
      requires Path(m, p, path) && Whole(m, path) && p in m && newLen < m[p].tot
      modifies this`m
      ensures i < |path| && q == path[i] && q in old(m) && m == Bumped(old(m), path, i, grow) && rem <= |old(m)[q].data|
      ensures i == Stop(old(m), path, newLen) && rem == Left(old(m), path, newLen) <= newLen
    {
      ghost var m0 := m;
      q, rem := p, newLen;
      i := 0;
      assert path[0..] == path && path[0] == p && TotAt(m0, path, 0) == m[p].tot;
      assert m == Bumped(m0, path, 0, grow);
      hide Stop, Left, Bumped, ToU16, Path, TotAt, Whole;
      while rem > |m[q].data|
        invariant 0 <= i < |path| && q == path[i] && q in m && q in m0 && 0 <= rem < TotAt(m0, path, i) && rem <= newLen
        invariant m == Bumped(m0, path, i, grow) && m[q] == m0[q]
        invariant Stop(m0, path, newLen) == i + Stop(m0, path[i..], rem)
        invariant Left(m0, path, newLen) == Left(m0, path[i..], rem)
        decreases |path| - i
      {
        BumpMore(m0, p, path, i, grow);
        StopStep(m0, p, path, i, rem);
        rem := rem - |m[q].data|;
        m := m[q := m[q].(tot := ToU16(m[q].tot + grow))];
        q := m[q].next.value;
        i := i + 1;
      }
      StopStep(m0, p, path, i, rem);
    }

    /** Gives back what is behind the new last pbuf, and unlinks it. */
    method EndOfChain(q: Addr, ghost path: seq<Addr>, ghost i: nat)
      requires i < |path| && path[i] == q && Path(m, path[0], path)
      modifies this
      ensures St() == CutOff(old(St()), q)
    {
      ghost var s := St();
      assert Linked(m, path, i);
      CutOffKeeps(s, path, i, i);
      hide Release;
      if m[q].next.Some? {
        PathTail(m, path[0], path, i + 1);
        var gone := Free(m[q].next, path[i + 1..]);
      }
      m := m[q := m[q].(next := None)];
    }

    /** `pbuf_pool_alloc` */
    method PoolAlloc() returns (p: Option<Addr>)
      modifies this`pool
      ensures if old(pool) == [] then p == None && pool == [] else p == Some(old(pool)[0]) && pool == old(pool)[1..]
    {
      if pool != [] {
        p := Some(pool[0]);
        pool := pool[1..];
      } else {
        p := None;
      }
    }

    /** Gives the unfinished chain back to the pool. */
    method BailOut(p: Addr, ghost s: State, ghost length: u16, ghost offset: nat, ghost junk: seq<u8>)
      requires PoolOk(s) && offset < PBUF_POOL_BUFSIZE && length <= |junk| && 0 < |s.pool| < Need(length, offset)
      requires St() == State(Grown(s.m, s.pool, length, offset, junk, |s.pool|), []) && p == s.pool[0]
      modifies this
      ensures St() == s.(pool := Reversed(s.pool))
    {
      assert s.pool[..|s.pool|] == s.pool;
      GrownPath(s, length, offset, junk, |s.pool|);
      OutOfPool(s, length, offset, junk);
      hide Grown, Need, PoolOk, Release, Path;
      var gone := Free(Some(p), s.pool);
    }

    /** `pbuf_alloc` from the pool, with `offset` bytes for headers; `junk` is what the buffers happen to hold. */
    method Alloc(length: u16, offset: nat, junk: seq<u8>) returns (p: Option<Addr>)
      requires PoolOk(St()) && offset < PBUF_POOL_BUFSIZE && length <= |junk|
      modifies this
      ensures (St(), p) == AllocPool(old(St()), length, offset, junk)
    {
      ghost var s, all := St(), pool;
      NeedAt(length, offset, 0);
      p := PoolAlloc();
      if p.Some? {
        var len := Min(length, PBUF_POOL_BUFSIZE - offset);
        m := m[p.value := Pbuf(None, junk[..len], length, Pool, 1)];
        assert m == Grown(s.m, all, length, offset, junk, 1);
        NeedAt(length, offset, 1);
        hide Grown, Cell, Before, Reversed;
        var ok := AllocTail(p.value, length - len, length, offset, junk, s);
        if !ok { p := None; }
      }
    }

    /** The pbufs behind the first, until the length is reached or the pool is empty. */
    method AllocTail(p: Addr, rest: nat, length: u16, offset: nat, junk: seq<u8>, ghost s: State) returns (ok: bool)
      requires PoolOk(s) && offset < PBUF_POOL_BUFSIZE && length <= |junk| && |s.pool| > 0 && p == s.pool[0]
      requires rest == Max(0, length - Before(offset, 1)) && (rest > 0 <==> 1 < Need(length, offset)) && rest <= length
      requires St() == State(Grown(s.m, s.pool, length, offset, junk, 1), s.pool[1..])
      modifies this
      ensures ok <==> Need(length, offset) <= |s.pool|
      ensures ok ==> St() == State(Grown(s.m, s.pool, length, offset, junk, Need(length, offset)), s.pool[Need(length, offset)..])
      ensures !ok ==> St() == s.(pool := Reversed(s.pool))
    {
      var r, rem := p, rest;
      ghost var k, all := 1, s.pool;
      ok := true;
      hide Grown, Cell, Need, Before, Release, Reversed, Path, PoolOk;
      while rem > 0 && ok
        invariant 1 <= k <= |all| && 0 <= rem <= length
        invariant ok ==> pool == all[k..] && k <= Need(length, offset) && r == all[k - 1]
        invariant ok ==> rem == Max(0, length - Before(offset, k)) && (rem > 0 <==> k < Need(length, offset))
        invariant ok ==> m == Grown(s.m, all, length, offset, junk, k)
        invariant !ok ==> |all| < Need(length, offset) && St() == s.(pool := Reversed(all))
        decreases |all| - k, ok
      {
        var q := PoolAlloc();
        if q.None? {
          BailOut(p, s, length, offset, junk);
          ok := false;
        } else {
          GrownAt(s, length, offset, junk, k, k - 1);
          GrownNext(s.m, all, length, offset, junk, k);
          CellIs(length, offset, junk, k);
          NeedAt(length, offset, k + 1);
          m := m[r := m[r].(next := q)];
          var len := Min(rem, PBUF_POOL_BUFSIZE);
          m := m[q.value := Pbuf(None, junk[length - rem..length - rem + len], rem, Pool, 1)];
          rem := rem - len;
          r := q.value;
          k := k + 1;
        }
      }
    }

    /** Where `pbuf_take` gets a buffer: from the pool if it is large enough, or else in RAM. */
    method GetBuffer(len: nat, room: seq<Addr>) returns (q: Option<Addr>, kind: Kind, room': seq<Addr>)
      modifies this`pool
      ensures if len <= PBUF_POOL_BUFSIZE && old(pool) != [] then
                q == Some(old(pool)[0]) && kind == Pool && pool == old(pool)[1..] && room' == room
              else
                pool == old(pool) && kind == Ram && if room != [] then q == Some(room[0]) && room' == room[1..] else q == None
    {
      q, kind, room' := None, Pool, room;
      if len <= PBUF_POOL_BUFSIZE { q := PoolAlloc(); }
      if q.None? {
        kind := Ram;
        if room != [] { q, room' := Some(room[0]), room[1..]; }
      }
    }

    /** The new pbuf at `q` takes the place of the one at `p`. */
    method Replace(p: Addr, prev: Option<Addr>, q: Addr, kind: Kind, ghost done: seq<Addr>)
      requires p in m && q !in m && prev == (if done == [] then None else Some(done[|done| - 1]))
      requires prev.Some? ==> prev.value in m && prev.value != p
      modifies this
      ensures St() == Replaced(old(St()), done, p, q, kind)
    {
      ghost var m0 := m;
      m := m[q := Pbuf(None, seq(|m[p].data|, _ => 0), |m[p].data| % 0x1_0000, kind, 1)];
      m := m[q := m[q].(next := m[p].next)];
      m := m[p := m[p].(next := None)];
      if prev.Some? { m := m[prev.value := m[prev.value].(next := Some(q))]; }
      m := m[q := m[q].(data := m[p].data)];
      m := m[q := m[q].(tot := m[p].tot)];
      StoresSwap(m0, m, done, p, q, kind, prev);
      hide Swapped, Path, Release;
      var gone := Free(Some(p), [p]);
    }

    /** `pbuf_take`; `room0` are the addresses that `mem_malloc` has left to give. */
    method Take(p0: Addr, room0: seq<Addr>, ghost path0: seq<Addr>) returns (head: Option<Addr>)
      requires PoolOk(St()) && RoomOk(St(), room0) && Path(m, p0, path0)
      modifies this
      ensures var t := TakeFrom(old(St()), room0, [], path0);
              St() == t.0 && head == if t.1 == [] then None else Some(t.1[0])
    {
      head := Some(p0);
      var prev, p, room := None, Some(p0), room0;
      ghost var done, path := [], path0;
      TakingStart(St(), p0, room0, path0);
      hide Taking, Path, TakeFrom, PoolOk, RoomOk, Replaced, Release;
      while p.Some?
        invariant head.Some? ==> Taking(St(), room, done, path) && head == Some((done + path)[0])
        invariant head.Some? ==> prev == (if done == [] then None else Some(done[|done| - 1]))
        invariant head.Some? ==> p == (if path == [] then None else Some(path[0]))
        invariant head.Some? ==> TakeFrom(St(), room, done, path) == TakeFrom(old(St()), room0, [], path0)
        invariant head.None? ==> p.None? && (St(), []) == TakeFrom(old(St()), room0, [], path0)
        decreases |path|, p
      {
        head, prev, p, room, done, path := TakeOne(head.value, prev, p.value, room, done, path);
      }
    }

    /** The body of the loop of `pbuf_take`. */
    method TakeOne(head0: Addr, prev0: Option<Addr>, p0: Addr, room0: seq<Addr>, ghost done0: seq<Addr>, ghost path0: seq<Addr>)
      returns (head: Option<Addr>, prev: Option<Addr>, p: Option<Addr>, room: seq<Addr>, ghost done: seq<Addr>, ghost path: seq<Addr>)
      requires Taking(St(), room0, done0, path0) && path0 != [] && p0 == path0[0] && head0 == (done0 + path0)[0]
      requires prev0 == if done0 == [] then None else Some(done0[|done0| - 1])
      modifies this
      ensures |path| < |path0|
      ensures head.Some? ==> Taking(St(), room, done, path) && head == Some((done + path)[0]) && done != []
                             && prev == Some(done[|done| - 1]) && p == (if path == [] then None else Some(path[0]))
                             && TakeFrom(St(), room, done, path) == TakeFrom(old(St()), room0, done0, path0)
      ensures head.None? ==> p.None? && (St(), []) == TakeFrom(old(St()), room0, done0, path0)
    {
      ghost var s := St();
      TakingAt(s, room0, done0, path0);
      TakeFromIs(s, room0, done0, path0);
      hide Taking, Path, TakeFrom, PoolOk, RoomOk, Replaced, Release, Swapped, Own, Linked;
      head, prev, p, room := Some(head0), prev0, Some(p0), room0;
      done, path := done0 + [p0], path0[1..];
      if m[p0].kind.Ref? {
        var q, kind, rest := GetBuffer(|m[p0].data|, room0);
        ghost var t := St();
        if q.Some? {
          TakingNext(s, room0, done0, path0);
          Replace(p0, prev0, q.value, kind, done0);
          room := rest;
          if prev0.None? { head := q; }
          p := q;
          done := done0 + [q.value];
        } else {
          var gone := Free(head, done0 + path0);
          head := None;
          p := None;
        }
      } else {
        TakingSkip(s, room0, done0, path0);
      }
      if head.Some? {
        TakingEnd(St(), room, done, path);
        prev := p;
        p := m[p.value].next;
      }
    }
  }

  /** What the stores of `pbuf_take` come to. */
  lemma StoresSwap(m0: map<Addr, Pbuf>, m: map<Addr, Pbuf>, done: seq<Addr>, p: Addr, q: Addr, kind: Kind, prev: Option<Addr>)
    requires p in m0 && q !in m0 && prev == (if done == [] then None else Some(done[|done| - 1]))
    requires prev.Some? ==> prev.value in m0 && prev.value != p
    requires forall a :: a in m <==> a in m0 || a == q
    requires forall a :: a in m0 ==> m[a] == if a == p then m0[p].(next := None)
                                             else if prev == Some(a) then m0[a].(next := Some(q)) else m0[a]
    requires m[q] == Pbuf(m0[p].next, m0[p].data, m0[p].tot, kind, 1)
    ensures m == Swapped(m0, done, p, q, kind) && Path(m, p, [p])
  {
    assert Linked(m, [p], 0);
  }

  lemma TakingStart(s: State, p: Addr, room: seq<Addr>, path: seq<Addr>)
    requires PoolOk(s) && RoomOk(s, room) && Path(s.m, p, path)
    ensures Taking(s, room, [], path) && path != [] && ([] + path)[0] == p == path[0]
  {
    assert [] + path == path;
  }

  lemma TakingAt(s: State, room: seq<Addr>, done: seq<Addr>, path: seq<Addr>)
    requires Taking(s, room, done, path) && path != []
    ensures path[0] in s.m && Path(s.m, (done + path)[0], done + path)
    ensures done != [] ==> done[|done| - 1] in s.m && done[|done| - 1] != path[0]
  {
    assert Linked(s.m, done + path, |done|);
    if done != [] {
      assert Linked(s.m, done + path, |done| - 1);
      PathDistinct(s.m, (done + path)[0], done + path, |done| - 1, |done|);
    }
  }

  /** Where the loop goes on after the last pbuf dealt with. */
  lemma TakingEnd(s: State, room: seq<Addr>, done: seq<Addr>, path: seq<Addr>)
    requires Taking(s, room, done, path) && done != []
    ensures done[|done| - 1] in s.m
    ensures s.m[done[|done| - 1]].next == if path == [] then None else Some(path[0])
  {
    assert Linked(s.m, done + path, |done| - 1);
  }

  lemma TakingSkip(s: State, room: seq<Addr>, done: seq<Addr>, path: seq<Addr>)
    requires Taking(s, room, done, path) && path != [] && path[0] in s.m && !s.m[path[0]].kind.Ref?
    ensures Taking(s, room, done + [path[0]], path[1..]) && (done + [path[0]] + path[1..])[0] == (done + path)[0]
  {
    assert done + [path[0]] + path[1..] == done + path;
    OwnMore(s.m, done, path[0]);
  }

  /** Either kind of new buffer leaves everything ready for the next pbuf. */
  lemma TakingNext(s: State, room: seq<Addr>, done: seq<Addr>, path: seq<Addr>)
    requires Taking(s, room, done, path) && path != [] && path[0] in s.m && s.m[path[0]].kind.Ref?
    ensures s.pool != [] ==>
              s.pool[0] !in s.m && Taking(Replaced(s.(pool := s.pool[1..]), done, path[0], s.pool[0], Pool), room, done + [s.pool[0]], path[1..])
    ensures room != [] ==>
              room[0] !in s.m && Taking(Replaced(s, done, path[0], room[0], Ram), room[1..], done + [room[0]], path[1..])
  {
    hide Taking, Replaced, Swapped;
    assert PoolOk(s) && RoomOk(s, room) && Path(s.m, (done + path)[0], done + path) && Own(s.m, done) by { TakingIs(s, room, done, path); }
    hide PoolOk, RoomOk, Path, Own;
    if s.pool != [] {
      SwappedPool(s, done, path[0]);
      TakeTurn(s.(pool := s.pool[1..]), room, done, path, s.pool[0], Pool);
    }
    if room != [] {
      RoomTail(s, room);
      SwappedRam(s, done, path[0], room[0]);
      TakeTurn(s, room[1..], done, path, room[0], Ram);
    }
  }

  lemma TakingIs(s: State, room: seq<Addr>, done: seq<Addr>, path: seq<Addr>)
    requires Taking(s, room, done, path)
    ensures PoolOk(s) && RoomOk(s, room) && done + path != [] && Path(s.m, (done + path)[0], done + path) && Own(s.m, done)
  {
  }

  /** There is more to allocate exactly while fewer pbufs than needed are there. */
  lemma NeedAt(length: u16, offset: nat, k: nat)
    requires offset < PBUF_POOL_BUFSIZE
    ensures k > 0 ==> (length - Before(offset, k) > 0 <==> k < Need(length, offset))
    ensures k > 0 ==> Before(offset, k + 1) == Before(offset, k) + PBUF_POOL_BUFSIZE
    ensures Before(offset, 1) == PBUF_POOL_BUFSIZE - offset && Need(length, offset) >= 1
  {
  }

  lemma CellIs(length: u16, offset: nat, junk: seq<u8>, k: nat)
    requires offset < PBUF_POOL_BUFSIZE && length <= |junk| && 0 < k < Need(length, offset)
    ensures var rem := length - Before(offset, k); var len := Min(rem, PBUF_POOL_BUFSIZE);
            0 < rem <= length && Cell(length, offset, junk, k) == Pbuf(None, junk[length - rem..length - rem + len], rem, Pool, 1)
    ensures length - Before(offset, k) - Min(length - Before(offset, k), PBUF_POOL_BUFSIZE) == Max(0, length - Before(offset, k + 1))
  {
    NeedAt(length, offset, k);
  }

  lemma GrownNext(m: map<Addr, Pbuf>, pool: seq<Addr>, length: u16, offset: nat, junk: seq<u8>, k: nat)
    requires offset <= PBUF_POOL_BUFSIZE && 0 < k < Need(length, offset) && k < |pool| && length <= |junk|
    requires pool[k - 1] in Grown(m, pool, length, offset, junk, k)
    ensures var g := Grown(m, pool, length, offset, junk, k);
            Grown(m, pool, length, offset, junk, k + 1)
            == g[pool[k - 1] := g[pool[k - 1]].(next := Some(pool[k]))][pool[k] := Cell(length, offset, junk, k)]
  {
  }

  /** One turn of the loop of `pbuf_free`. */
  lemma FreeStep(s: State, p: Addr, path: seq<Addr>)
    requires Path(s.m, p, path)
    ensures p in s.m && path != []
  {
    assert Linked(s.m, path, 0);
  }

  /** The pbuf at `p` goes, and its link is given up in its place. */
  lemma FreeGone(s: State, p: Addr, path: seq<Addr>, count: u8)
    requires Path(s.m, p, path) && p in s.m && s.m[p].ref == 1 && path != []
    ensures var x := s.m[p]; var t := State(s.m - {p}, if x.kind.Pool? then [p] + s.pool else s.pool);
            && Release(s, Some(p)) == Release(t, x.next)
            && ToU8(ToU8(count + 1) + Gone(t.m, x.next)) == ToU8(count + Gone(s.m, Some(p)))
            && (x.next.Some? ==> Path(t.m, x.next.value, path[1..]))
  {
    assert Linked(s.m, path, 0);
    if |path| > 1 { PathWithout(s.m, p, path); }
    assert Gone(s.m, Some(p)) == 1 + Gone(s.m - {p}, s.m[p].next);
    hide Gone, Path;
  }

  /** The pbuf at `p` stays, with one reference less. */
  lemma FreeKept(s: State, p: Addr)
    requires p in s.m && s.m[p].ref != 1
    ensures Release(s, Some(p)) == s.(m := s.m[p := s.m[p].(ref := ToU16(s.m[p].ref - 1))]) && Gone(s.m, Some(p)) == 0
    ensures forall t: State :: Release(t, None) == t && Gone(t.m, None) == 0
  {
  }

  /** One step of the walk to the new last pbuf. */
  lemma StopStep(m: map<Addr, Pbuf>, p: Addr, path: seq<Addr>, i: nat, rem: nat)
    requires Path(m, p, path) && i < |path| && Whole(m, path) && rem < TotAt(m, path, i)
    ensures path[i] in m
    ensures var d := |m[path[i]].data|;
            if rem > d then
              i + 1 < |path| && m[path[i]].next == Some(path[i + 1]) && rem - d < TotAt(m, path, i + 1)
              && Stop(m, path[i..], rem) == 1 + Stop(m, path[i + 1..], rem - d) && Left(m, path[i..], rem) == Left(m, path[i + 1..], rem - d)
            else Stop(m, path[i..], rem) == 0 && Left(m, path[i..], rem) == rem
  {
    assert Linked(m, path, i) && WholeAt(m, path, i);
    assert DataAt(m, path[i..], 0) == DataAt(m, path, i);
    if i + 1 < |path| { assert path[i..][1..] == path[i + 1..]; }
  }

  lemma TrimmedIs(m: map<Addr, Pbuf>, p: Addr, path: seq<Addr>, i: nat, rem: nat, grow: int)
    requires Path(m, p, path) && i < |path| && path[i] in m && rem <= |m[path[i]].data| && rem <= 0xffff
    ensures var b, q := Bumped(m, path, i, grow), path[i];
            && q in b && b[q] == m[q]
            && Trimmed(m, path, i, rem, grow) == b[q := b[q].(data := b[q].data[..rem])][q := b[q].(data := b[q].data[..rem], tot := rem)]
            && Path(Trimmed(m, path, i, rem, grow), p, path)
  {
    hide Path;
    BumpMore(m, p, path, i, grow);
    assert path[i] !in path[..i] by {
      forall k | 0 <= k < i ensures path[k] != path[i] { PathDistinct(m, p, path, k, i); }
    }
    TrimmedLinks(m, path, i, rem, grow);
    PathSame(m, Trimmed(m, path, i, rem, grow), p, path);
  }

  lemma BumpMore(m: map<Addr, Pbuf>, h: Addr, path: seq<Addr>, i: nat, grow: int)
    requires Path(m, h, path) && i < |path|
    ensures path[i] in m && path[i] in Bumped(m, path, i, grow) && Bumped(m, path, i, grow)[path[i]] == m[path[i]]
    ensures Bumped(m, path, i + 1, grow) ==
            Bumped(m, path, i, grow)[path[i] := m[path[i]].(tot := ToU16(m[path[i]].tot + grow))]
    ensures i + 1 < |path| ==> path[i + 1] in m && Bumped(m, path, i + 1, grow)[path[i + 1]] == m[path[i + 1]]
  {
    assert Linked(m, path, i);
    forall k | 0 <= k < i ensures path[k] != path[i] { PathDistinct(m, h, path, k, i); }
    assert path[..i + 1] == path[..i] + [path[i]];
    if i + 1 < |path| {
      assert Linked(m, path, i + 1);
      forall k | 0 <= k < i + 1 ensures path[k] != path[i + 1] { PathDistinct(m, h, path, k, i + 1); }
    }
  }

  lemma BumpedCat(m: map<Addr, Pbuf>, h: Addr, path: seq<Addr>, t: Addr)
    requires Path(m, h, path) && t in m
    ensures var last := path[|path| - 1]; var b := Bumped(m, path, |path|, m[t].tot);
            last in b && b[last := b[last].(next := Some(t))] == PbufModel.Cat(m, path, t)
  {
    assert Linked(m, path, |path| - 1);
    assert path[..|path|] == path;
  }

  lemma DecoupledPath(m: map<Addr, Pbuf>, path: seq<Addr>)
    requires |path| > 1 && Path(m, path[0], path) && path[1] in m && m[path[0]].next == Some(path[1])
    ensures Path(Decoupled(m, path[0]), path[1], path[1..])
  {
    var d, tail := Decoupled(m, path[0]), path[1..];
    PathDistinct(m, path[0], path, 0, 1);
    forall i | 0 <= i < |tail| ensures Linked(d, tail, i) {
      assert Linked(m, path, i + 1);
      PathDistinct(m, path[0], path, 0, i + 1);
    }
  }
}
