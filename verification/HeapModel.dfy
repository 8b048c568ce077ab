// The heap of lwip/mem.c as a row of blocks: first fit from `lfree`, splitting,
// joining.  Module Heap ties it to the headers in the array.
module HeapModel {
  import opened Words

  const MEM_SIZE := 10000
  const MEM_ALIGNMENT := 2
  /** `sizeof(struct mem)`: three 16-bit fields. */
  const HEADER := 6
  const MIN_SIZE := 12

  /** The block whose header stands at `at`, up to the header at `end`. */
  datatype Block = Block(at: nat, end: nat, used: bool) {
    /** Bytes behind the header. */
    function Room(): int { end - at - HEADER }
    /** `x` is a byte that belongs to whoever allocated the block. */
    predicate Payload(x: int) { at + HEADER <= x < end }
  }

  /** All blocks in address order, and the address in `lfree`. */
  datatype State = State(bs: seq<Block>, lfree: nat)

  const Init := State([Block(0, MEM_SIZE, false)], 0)

  /** The size rounded up to the alignment, in 16 bits, where 65535 wraps to nothing. */
  function Aligned(size: u16): u16 {
    if size % MEM_ALIGNMENT != 0 then ToU16(size + MEM_ALIGNMENT - (size + HEADER) % MEM_ALIGNMENT) else size
  }

  /** The blocks tile the array, each with room for its header. */
  ghost predicate Tiled(bs: seq<Block>) {
    && bs != [] && bs[0].at == 0 && bs[|bs| - 1].end == MEM_SIZE
    && (forall i :: 0 <= i < |bs| ==> bs[i].at + HEADER <= bs[i].end)
    && (forall i :: 0 <= i < |bs| - 1 ==> bs[i].end == bs[i + 1].at)
  }

  /** No two neighbours are both free. */
  ghost predicate Coalesced(bs: seq<Block>) {
    forall i :: 0 <= i < |bs| - 1 ==> bs[i].used || bs[i + 1].used
  }

  /** `at` is the header of a free block. */
  ghost predicate FreeAt(bs: seq<Block>, at: nat) {
    exists i :: 0 <= i < |bs| && bs[i].at == at && !bs[i].used
  }

  ghost predicate Good(h: State) {
    Tiled(h.bs) && Coalesced(h.bs) && FreeAt(h.bs, h.lfree)
  }

  /** `lfree` is the lowest free block, as its comment in the source says. */
  ghost predicate Lowest(h: State) {
    forall i :: 0 <= i < |h.bs| && !h.bs[i].used ==> h.lfree <= h.bs[i].at
  }

  /** Addresses grow along the row. */
  lemma {:induction false} TiledOrdered(bs: seq<Block>, i: nat, j: nat)
    requires Tiled(bs) && i < j < |bs|
    ensures bs[i].end <= bs[j].at && bs[j].end <= MEM_SIZE
    decreases |bs| - i
  {
    TiledEnds(bs, j);
    if i + 1 < j { TiledOrdered(bs, i + 1, j); }
  }

  lemma {:induction false} TiledEnds(bs: seq<Block>, j: nat)
    requires Tiled(bs) && j < |bs|
    ensures bs[j].end <= MEM_SIZE
    decreases |bs| - j
  {
    if j + 1 < |bs| { TiledEnds(bs, j + 1); }
  }

  // ----- The operations

  /** A free block that holds `size` bytes and two headers. */
  predicate Holds(b: Block, size: u16) {
    !b.used && b.Room() >= size + HEADER
  }

  /** First fit among the blocks at or above address `from`; |bs| if there is none. */
  function FirstFit(bs: seq<Block>, i: nat, from: nat, size: u16): (k: nat)
    requires i <= |bs|
    ensures i <= k <= |bs|
    ensures k < |bs| ==> Holds(bs[k], size) && from <= bs[k].at
    ensures forall j :: i <= j < k && from <= bs[j].at ==> !Holds(bs[j], size)
    decreases |bs| - i
  {
    if i == |bs| then i
    else if from <= bs[i].at && Holds(bs[i], size) then i
    else FirstFit(bs, i + 1, from, size)
  }

  /** Block `k` cut at address `cut`: a used block, then a free one. */
  function Cut(bs: seq<Block>, k: nat, cut: nat): seq<Block>
    requires k < |bs|
  {
    bs[..k] + [Block(bs[k].at, cut, true), Block(cut, bs[k].end, false)] + bs[k + 1..]
  }

  /** Blocks `k` and `k + 1` made one, with the state of the first. */
  function Joined(bs: seq<Block>, k: nat): seq<Block>
    requires k + 1 < |bs|
  {
    bs[..k] + [Block(bs[k].at, bs[k + 1].end, bs[k].used)] + bs[k + 2..]
  }

  function PlugForward(h: State, k: nat): State
    requires k < |h.bs|
  {
    if k + 1 < |h.bs| && !h.bs[k + 1].used then
      State(Joined(h.bs, k), if h.lfree == h.bs[k + 1].at then h.bs[k].at else h.lfree)
    else h
  }

  function PlugBackward(h: State, k: nat): State
    requires k < |h.bs|
  {
    if k > 0 && !h.bs[k - 1].used then
      State(Joined(h.bs, k - 1), if h.lfree == h.bs[k].at then h.bs[k - 1].at else h.lfree)
    else h
  }

  /** `plug_holes` on block `k` */
  function PlugHoles(h: State, k: nat): (r: State)
    requires k < |h.bs|
  {
    PlugBackward(PlugForward(h, k), k)
  }

  /** The index of the block that `mem_malloc` takes, or |bs| for NULL. */
  function Taken(h: State, size: u16): (k: nat)
    ensures k <= |h.bs|
  {
    if size == 0 || Aligned(size) > MEM_SIZE then |h.bs| else FirstFit(h.bs, 0, h.lfree, Aligned(size))
  }

  function Malloc(h: State, size: u16): State {
    var k := Taken(h, size);
    if k == |h.bs| then h
    else
      var cut := h.bs[k].at + HEADER + Aligned(size);
      State(Cut(h.bs, k, cut), if h.lfree == h.bs[k].at then cut else h.lfree)
  }

  /** The state `mem_free` hands to `plug_holes`. */
  function Freed(h: State, k: nat): State
    requires k < |h.bs|
  {
    State(h.bs[k := h.bs[k].(used := false)], if h.bs[k].at < h.lfree then h.bs[k].at else h.lfree)
  }

  /** `mem_free` of the block `k` */
  function Free(h: State, k: nat): State
    requires k < |h.bs|
  {
    PlugHoles(Freed(h, k), k)
  }

  /** Whether `mem_realloc` of block `k` to `newsize` bytes gives anything back. */
  predicate Shrinks(h: State, k: nat, newsize: u16)
    requires k < |h.bs|
  {
    Aligned(newsize) <= MEM_SIZE && Aligned(newsize) + HEADER + MIN_SIZE < h.bs[k].Room()
  }

  function Realloc(h: State, k: nat, newsize: u16): State
    requires k < |h.bs|
  {
    if Shrinks(h, k, newsize) then
      PlugHoles(h.(bs := Cut(h.bs, k, h.bs[k].at + HEADER + Aligned(newsize))), k + 1)
    else h
  }

  // ----- Every operation keeps the invariant

  /** What stands at each place of the row after a cut. */
  lemma CutIs(bs: seq<Block>, k: nat, cut: nat)
    requires k < |bs|
    ensures var r := Cut(bs, k, cut);
            && |r| == |bs| + 1 && r[k] == Block(bs[k].at, cut, true) && r[k + 1] == Block(cut, bs[k].end, false)
            && (forall i {:trigger r[i]} :: 0 <= i < k ==> r[i] == bs[i])
            && (forall i {:trigger r[i]} :: k + 1 < i < |r| ==> r[i] == bs[i - 1])
  {
  }

  /** A block may be cut wherever both parts can have a header. */
  lemma CutTiled(bs: seq<Block>, k: nat, cut: nat)
    requires Tiled(bs) && k < |bs| && bs[k].at + HEADER <= cut && cut + HEADER <= bs[k].end
    ensures Tiled(Cut(bs, k, cut)) && |Cut(bs, k, cut)| == |bs| + 1
    ensures Cut(bs, k, cut)[k + 1] == Block(cut, bs[k].end, false)
  {
    CutIs(bs, k, cut);
    hide Cut;
  }

  lemma JoinedTiled(bs: seq<Block>, k: nat)
    requires Tiled(bs) && k + 1 < |bs|
    ensures Tiled(Joined(bs, k))
  {
  }

  lemma CutCoalesced(bs: seq<Block>, k: nat, cut: nat)
    requires Coalesced(bs) && k < |bs| && (k + 1 < |bs| ==> bs[k + 1].used)
    ensures Coalesced(Cut(bs, k, cut))
  {
  }

  /** After the cut the free part stands for the block, and every other free block is still there. */
  lemma CutFree(bs: seq<Block>, k: nat, cut: nat, at: nat)
    requires k < |bs| && FreeAt(bs, at)
    ensures FreeAt(Cut(bs, k, cut), cut)
    ensures at != bs[k].at ==> FreeAt(Cut(bs, k, cut), at)
  {
    var i :| 0 <= i < |bs| && bs[i].at == at && !bs[i].used;
    var r := Cut(bs, k, cut);
    CutIs(bs, k, cut);
    hide Cut;
    assert !r[k + 1].used;
    if i != k { assert r[if i < k then i else i + 1] == bs[i]; }
  }

  /** A taken block is free, has room for both headers, and its neighbours are in use. */
  lemma TakenFits(h: State, size: u16)
    requires Good(h) && Taken(h, size) < |h.bs|
    ensures var k := Taken(h, size); var b := h.bs[k];
            && !b.used && b.at + HEADER + Aligned(size) + HEADER <= b.end && h.lfree <= b.at
            && (k + 1 < |h.bs| ==> h.bs[k + 1].used)
  {
    hide Aligned, Tiled, FreeAt;
  }

  lemma CutGood(h: State, k: nat, cut: nat)
    requires Good(h) && k < |h.bs| && (k + 1 < |h.bs| ==> h.bs[k + 1].used)
    requires h.bs[k].at + HEADER <= cut && cut + HEADER <= h.bs[k].end
    ensures Good(State(Cut(h.bs, k, cut), if h.lfree == h.bs[k].at then cut else h.lfree))
  {
    hide Cut, Tiled, Coalesced, FreeAt;
    CutTiled(h.bs, k, cut);
    CutCoalesced(h.bs, k, cut);
    CutFree(h.bs, k, cut, h.lfree);
  }

  /** Taking part of a free block leaves `lfree` on a free block. */
  lemma MallocGood(h: State, size: u16)
    requires Good(h)
    ensures Good(Malloc(h, size))
  {
    hide Taken, Aligned, Cut, Good;
    var k := Taken(h, size);
    if k < |h.bs| {
      TakenFits(h, size);
      CutGood(h, k, h.bs[k].at + HEADER + Aligned(size));
    }
  }

  /** Neighbours are never both free, but for the pairs that block `k` is in. */
  ghost predicate CoalescedBut(bs: seq<Block>, k: nat) {
    forall i :: 0 <= i < |bs| - 1 && i != k && i + 1 != k ==> bs[i].used || bs[i + 1].used
  }

  lemma JoinedFree(bs: seq<Block>, k: nat, at: nat)
    requires k + 1 < |bs| && !bs[k].used && FreeAt(bs, at)
    ensures FreeAt(Joined(bs, k), bs[k].at)
    ensures at != bs[k + 1].at ==> FreeAt(Joined(bs, k), at)
  {
    var i :| 0 <= i < |bs| && bs[i].at == at && !bs[i].used;
    var r := Joined(bs, k);
    assert r[k] == Block(bs[k].at, bs[k + 1].end, false);
    if i != k && i != k + 1 { assert r[if i < k then i else i - 1] == bs[i]; }
  }

  lemma PlugForwardGood(h: State, k: nat)
    requires Tiled(h.bs) && k < |h.bs| && !h.bs[k].used && CoalescedBut(h.bs, k) && FreeAt(h.bs, h.lfree)
    ensures var r := PlugForward(h, k);
            && Tiled(r.bs) && k < |r.bs| && !r.bs[k].used && CoalescedBut(r.bs, k) && FreeAt(r.bs, r.lfree)
            && r.bs[k].at == h.bs[k].at && r.bs[..k] == h.bs[..k] && (k + 1 < |r.bs| ==> r.bs[k + 1].used)
  {
    if k + 1 < |h.bs| && !h.bs[k + 1].used {
      JoinedTiled(h.bs, k);
      JoinedFree(h.bs, k, h.lfree);
      hide Tiled, FreeAt, CoalescedBut, Joined;
    }
  }

  /** Joining two free blocks leaves no free neighbours, if the one after them is used. */
  lemma JoinedCoalesced(bs: seq<Block>, k: nat)
    requires k + 1 < |bs| && !bs[k].used && CoalescedBut(bs, k + 1) && (k + 2 < |bs| ==> bs[k + 2].used)
    ensures Coalesced(Joined(bs, k))
  {
    var r := Joined(bs, k);
    forall i | 0 <= i < |r| - 1 ensures r[i].used || r[i + 1].used {
      if i < k {
        assert r[i] == bs[i] && r[i + 1].used == bs[i + 1].used;
      } else if i == k {
        assert r[i + 1] == bs[k + 2];
      } else {
        assert r[i] == bs[i + 1] && r[i + 1] == bs[i + 2];
      }
    }
  }

  lemma LastGap(bs: seq<Block>, k: nat)
    requires k < |bs| && CoalescedBut(bs, k) && (k + 1 < |bs| ==> bs[k + 1].used) && (k > 0 ==> bs[k - 1].used)
    ensures Coalesced(bs)
  {
  }

  lemma PlugBackwardGood(h: State, k: nat)
    requires Tiled(h.bs) && k < |h.bs| && !h.bs[k].used && CoalescedBut(h.bs, k) && FreeAt(h.bs, h.lfree)
    requires k + 1 < |h.bs| ==> h.bs[k + 1].used
    ensures Good(PlugBackward(h, k))
  {
    hide Tiled, FreeAt, CoalescedBut, Joined, Coalesced;
    if k == 0 || h.bs[k - 1].used {
      LastGap(h.bs, k);
    } else {
      JoinedTiled(h.bs, k - 1);
      JoinedFree(h.bs, k - 1, h.lfree);
      JoinedCoalesced(h.bs, k - 1);
    }
  }

  /** `plug_holes` joins a block that has become free to its free neighbours. */
  lemma PlugHolesGood(h: State, k: nat)
    requires Tiled(h.bs) && k < |h.bs| && !h.bs[k].used && CoalescedBut(h.bs, k) && FreeAt(h.bs, h.lfree)
    ensures Good(PlugHoles(h, k))
  {
    PlugForwardGood(h, k);
    PlugBackwardGood(PlugForward(h, k), k);
  }

  lemma FreedReady(h: State, k: nat)
    requires Good(h) && k < |h.bs| && h.bs[k].used
    ensures var g := Freed(h, k); Tiled(g.bs) && CoalescedBut(g.bs, k) && FreeAt(g.bs, g.lfree)
  {
    var g := Freed(h, k);
    var i :| 0 <= i < |h.bs| && h.bs[i].at == h.lfree && !h.bs[i].used;
    assert g.bs[i] == h.bs[i] && g.bs[k].at == h.bs[k].at;
  }

  lemma FreeGood(h: State, k: nat)
    requires Good(h) && k < |h.bs| && h.bs[k].used
    ensures Good(Free(h, k))
  {
    FreedReady(h, k);
    hide Good, Tiled, CoalescedBut, FreeAt, PlugHoles;
    PlugHolesGood(Freed(h, k), k);
  }

  lemma GivenBackGood(h: State, k: nat, cut: nat)
    requires Good(h) && k < |h.bs| && h.bs[k].used && h.bs[k].at + HEADER <= cut && cut + HEADER <= h.bs[k].end
    ensures Good(PlugHoles(h.(bs := Cut(h.bs, k, cut)), k + 1))
  {
    hide Cut, Tiled, Coalesced, CoalescedBut, FreeAt, PlugHoles;
    CutTiled(h.bs, k, cut);
    CutFree(h.bs, k, cut, h.lfree);
    CutCoalescedBut(h.bs, k, cut);
    LfreeElsewhere(h, k);
    PlugHolesGood(h.(bs := Cut(h.bs, k, cut)), k + 1);
  }

  lemma ReallocGood(h: State, k: nat, newsize: u16)
    requires Good(h) && k < |h.bs| && h.bs[k].used
    ensures Good(Realloc(h, k, newsize))
  {
    hide Good, Aligned;
    if Shrinks(h, k, newsize) { GivenBackGood(h, k, h.bs[k].at + HEADER + Aligned(newsize)); }
  }

  lemma CutCoalescedBut(bs: seq<Block>, k: nat, cut: nat)
    requires Coalesced(bs) && k < |bs|
    ensures CoalescedBut(Cut(bs, k, cut), k + 1)
  {
  }

  lemma LfreeElsewhere(h: State, k: nat)
    requires Good(h) && k < |h.bs| && h.bs[k].used
    ensures h.lfree != h.bs[k].at
  {
    var i :| 0 <= i < |h.bs| && h.bs[i].at == h.lfree && !h.bs[i].used;
    if i < k { TiledOrdered(h.bs, i, k); } else { TiledOrdered(h.bs, k, i); }
  }

  // ----- Where lfree points

  /** With only mem_malloc and mem_free, `lfree` stays the lowest free block. */
  lemma MallocLowest(h: State, size: u16)
    requires Good(h) && Lowest(h)
    ensures Lowest(Malloc(h, size))
  {
    var k := Taken(h, size);
    if k < |h.bs| {
      var cut := h.bs[k].at + HEADER + Aligned(size);
      var r := Cut(h.bs, k, cut);
      TakenFits(h, size);
      CutIs(h.bs, k, cut);
      var m := Malloc(h, size);
      assert m.bs == r && m.lfree == if h.lfree == h.bs[k].at then cut else h.lfree;
      hide Taken, Cut, Aligned, Tiled, Coalesced, FreeAt, Malloc;
      forall i | 0 <= i < |r| && !r[i].used ensures m.lfree <= r[i].at {
        if i > k + 1 {
          assert r[i] == h.bs[i - 1];
          TiledOrdered(h.bs, k, i - 1);
        } else if i < k {
          assert r[i] == h.bs[i];
          TiledOrdered(h.bs, i, k);
        }
      }
    }
  }

  lemma PlugForwardLowest(h: State, k: nat)
    requires Tiled(h.bs) && k < |h.bs| && !h.bs[k].used && Lowest(h)
    ensures Lowest(PlugForward(h, k))
  {
    if k + 1 < |h.bs| && !h.bs[k + 1].used {
      var r := Joined(h.bs, k);
      forall i | 0 <= i < |r| && !r[i].used ensures h.lfree <= r[i].at {
        if i != k { assert r[i] == h.bs[if i < k then i else i + 1]; }
      }
    }
  }

  lemma PlugBackwardLowest(h: State, k: nat)
    requires Tiled(h.bs) && k < |h.bs| && !h.bs[k].used && Lowest(h)
    ensures Lowest(PlugBackward(h, k))
  {
    if k > 0 && !h.bs[k - 1].used { PlugForwardLowest(h, k - 1); }
  }

  lemma FreedLowest(h: State, k: nat)
    requires Lowest(h) && k < |h.bs|
    ensures Lowest(Freed(h, k))
  {
    var g := Freed(h, k);
    forall i | 0 <= i < |g.bs| && !g.bs[i].used ensures g.lfree <= g.bs[i].at {
      assert i == k || g.bs[i] == h.bs[i];
    }
  }

  lemma FreeLowest(h: State, k: nat)
    requires Good(h) && Lowest(h) && k < |h.bs| && h.bs[k].used
    ensures Lowest(Free(h, k))
  {
    var g := Freed(h, k);
    FreedTiled(h.bs, k);
    FreedLowest(h, k);
    hide Tiled, Lowest, Good;
    PlugForwardLowest(g, k);
    PlugForwardTiled(g, k);
    PlugBackwardLowest(PlugForward(g, k), k);
  }

  lemma FreedTiled(bs: seq<Block>, k: nat)
    requires Tiled(bs) && k < |bs|
    ensures Tiled(bs[k := bs[k].(used := false)])
  {
  }

  lemma PlugForwardTiled(h: State, k: nat)
    requires Tiled(h.bs) && k < |h.bs|
    ensures var r := PlugForward(h, k); Tiled(r.bs) && k < |r.bs| && r.bs[k].used == h.bs[k].used
  {
    if k + 1 < |h.bs| && !h.bs[k + 1].used { JoinedTiled(h.bs, k); }
  }

  /** The shrink that leaves a free block below `lfree`: it gives back bytes below it that no free block adjoins. */
  ghost predicate LeavesLower(h: State, k: nat, newsize: u16)
    requires k < |h.bs|
  {
    && Shrinks(h, k, newsize)
    && h.bs[k].at + HEADER + Aligned(newsize) < h.lfree
    && (k + 1 < |h.bs| ==> h.bs[k + 1].used || h.bs[k + 1].at != h.lfree)
  }

  /** The row that a shrink leaves: the rest of the block is free, and `lfree` only follows a join. */
  lemma ShrunkShape(h: State, k: nat, cut: nat)
    requires Tiled(h.bs) && k < |h.bs| && h.bs[k].used && h.bs[k].at + HEADER <= cut && cut + HEADER <= h.bs[k].end
    ensures var g := h.(bs := Cut(h.bs, k, cut));
            k + 1 < |g.bs| &&
            var r := PlugHoles(g, k + 1);
            && r == PlugForward(g, k + 1) && k + 1 < |r.bs| && r.bs[k + 1].at == cut && !r.bs[k + 1].used
            && r.lfree == if k + 1 < |h.bs| && !h.bs[k + 1].used && h.bs[k + 1].at == h.lfree then cut else h.lfree
  {
    var g := h.(bs := Cut(h.bs, k, cut));
    CutTiled(h.bs, k, cut);
    assert g.bs[k] == Block(h.bs[k].at, cut, true);
    assert k + 1 < |h.bs| ==> g.bs[k + 2] == h.bs[k + 1] && h.bs[k + 1].at == h.bs[k].end;
    hide Tiled, Cut;
    var r := PlugForward(g, k + 1);
    assert r.bs[k] == g.bs[k] && r.bs[k + 1].at == cut;
  }

  /** `mem_realloc` does not look at `lfree`: it stays the lowest free block exactly outside that case. */
  lemma ReallocLowestIff(h: State, k: nat, newsize: u16)
    requires Good(h) && Lowest(h) && k < |h.bs| && h.bs[k].used
    ensures Lowest(Realloc(h, k, newsize)) <==> !LeavesLower(h, k, newsize)
  {
    hide Cut, PlugForward, PlugHoles, Coalesced, FreeAt, Tiled, Aligned;
    if Shrinks(h, k, newsize) {
      var cut := h.bs[k].at + HEADER + Aligned(newsize);
      ShrunkShape(h, k, cut);
      if !LeavesLower(h, k, newsize) { StaysLowest(h, k, cut, PlugForward(h.(bs := Cut(h.bs, k, cut)), k + 1)); }
    }
  }

  lemma StaysLowest(h: State, k: nat, cut: nat, r: State)
    requires Good(h) && Lowest(h) && k < |h.bs| && h.bs[k].used && h.bs[k].at + HEADER <= cut && cut + HEADER <= h.bs[k].end
    requires r == PlugForward(h.(bs := Cut(h.bs, k, cut)), k + 1)
    requires cut < h.lfree ==> k + 1 < |h.bs| && !h.bs[k + 1].used && h.bs[k + 1].at == h.lfree
    ensures Lowest(r)
  {
    var g := Cut(h.bs, k, cut);
    assert g[k + 1] == Block(cut, h.bs[k].end, false);
    forall i | 0 <= i < |r.bs| && !r.bs[i].used ensures r.lfree <= r.bs[i].at {
      if i < k {
        assert r.bs[i] == h.bs[i];
        TiledOrdered(h.bs, i, k);
      } else if i > k + 1 {
        assert r.bs[i] in h.bs;
        var j :| 0 <= j < |h.bs| && h.bs[j] == r.bs[i];
        assert h.lfree <= h.bs[j].at;
        assert k + 1 < |h.bs| ==> g[k + 2] == h.bs[k + 1];
      }
    }
  }

  // ----- When a request fails

  /** What rounding up makes of a size: the next even number, but for 65535. */
  lemma AlignedIs(size: u16)
    ensures Aligned(size) == if size == 65535 then 0 else size + size % 2
  {
  }

  /** A granted block holds the bytes asked for, unless 65535 were: rounding those up leaves a size of zero. */
  lemma GrantedHoldsIff(h: State, size: u16)
    requires Good(h) && Taken(h, size) < |h.bs|
    ensures var k := Taken(h, size); var b := Malloc(h, size).bs[k];
            && b.used && b.at == h.bs[k].at && (size <= b.Room() <==> size != 65535)
  {
    CutIs(h.bs, Taken(h, size), h.bs[Taken(h, size)].at + HEADER + Aligned(size));
    hide Taken, Good;
  }

  /** On a fresh heap the first `mem_malloc(65535)` is granted a block of no bytes at all. */
  lemma GrantedNothing()
    ensures Taken(Init, 65535) == 0 && Malloc(Init, 65535).bs == [Block(0, HEADER, true), Block(HEADER, MEM_SIZE, false)]
    ensures Block(0, HEADER, true).Room() == 0
  {
    assert Aligned(65535) == 0;
    assert FirstFit(Init.bs, 0, 0, 0) == 0;
  }

  /** The block taken is the first of those that do, from `lfree` on. */
  lemma TakenIsFirst(h: State, size: u16)
    requires Good(h) && Taken(h, size) < |h.bs| && size < 65535
    ensures var k := Taken(h, size);
            && h.lfree <= h.bs[k].at && !h.bs[k].used && size + size % 2 + HEADER <= h.bs[k].Room()
            && forall j :: 0 <= j < k && h.lfree <= h.bs[j].at ==> h.bs[j].used || h.bs[j].Room() < size + size % 2 + HEADER
  {
    AlignedIs(size);
    hide Aligned, Good;
    assert forall j :: 0 <= j < |h.bs| ==> (!Holds(h.bs[j], Aligned(size)) <==> h.bs[j].used || h.bs[j].Room() < HEADER + Aligned(size));
  }

  /** With `lfree` lowest, a request fails exactly if it is empty, too large, or no free block holds it. */
  lemma FailsIff(h: State, size: u16)
    requires Good(h) && Lowest(h)
    ensures Taken(h, size) == |h.bs| <==>
            || size == 0 || MEM_SIZE < size < 65535
            || forall i :: 0 <= i < |h.bs| ==> h.bs[i].used || h.bs[i].Room() < HEADER + if size == 65535 then 0 else size + size % 2
  {
    AlignedIs(size);
    hide Aligned;
    assert forall i :: 0 <= i < |h.bs| ==> (!Holds(h.bs[i], Aligned(size)) <==> h.bs[i].used || h.bs[i].Room() < HEADER + Aligned(size));
  }

  // ----- What is allocated

  /** The blocks in use. */
  ghost function Live(bs: seq<Block>): set<Block> {
    set b | b in bs && b.used
  }

  lemma Distinct(bs: seq<Block>, i: nat, j: nat)
    requires Tiled(bs) && i < |bs| && j < |bs| && bs[i] == bs[j]
    ensures i == j
  {
    if i < j { TiledOrdered(bs, i, j); }
    if j < i { TiledOrdered(bs, j, i); }
  }

  lemma CutLive(bs: seq<Block>, k: nat, cut: nat)
    requires Tiled(bs) && k < |bs|
    ensures Live(Cut(bs, k, cut)) == Live(bs) - {bs[k]} + {Block(bs[k].at, cut, true)}
  {
    hide Cut, Tiled;
    var r := Cut(bs, k, cut);
    CutIs(bs, k, cut);
    forall b | b in Live(bs) - {bs[k]} ensures b in r {
      var i :| 0 <= i < |bs| && bs[i] == b;
      assert r[if i < k then i else i + 1] == b;
    }
    forall b | b in r && b.used && b != r[k] ensures b in Live(bs) - {bs[k]} {
      var i :| 0 <= i < |r| && r[i] == b;
      var j := if i < k then i else i - 1;
      assert b == bs[j];
      if b == bs[k] { Distinct(bs, k, j); }
    }
  }

  lemma JoinedLive(bs: seq<Block>, k: nat)
    requires k + 1 < |bs| && !bs[k].used && !bs[k + 1].used
    ensures Live(Joined(bs, k)) == Live(bs)
  {
    var r := Joined(bs, k);
    forall b | b in Live(bs) ensures b in r {
      var i :| 0 <= i < |bs| && bs[i] == b;
      assert r[if i < k then i else i - 1] == b;
    }
    forall b | b in r && b.used ensures b in bs {
      var i :| 0 <= i < |r| && r[i] == b;
      assert b == bs[if i < k then i else i + 1];
    }
  }

  lemma PlugHolesLive(h: State, k: nat)
    requires k < |h.bs| && !h.bs[k].used
    ensures Live(PlugHoles(h, k).bs) == Live(h.bs)
  {
    var f := PlugForward(h, k);
    if k + 1 < |h.bs| && !h.bs[k + 1].used { JoinedLive(h.bs, k); }
    if k > 0 && !f.bs[k - 1].used { JoinedLive(f.bs, k - 1); }
  }

  /** A granted request adds one block of the aligned size, and every other allocation stays where it is. */
  lemma MallocLive(h: State, size: u16)
    requires Good(h)
    ensures var k := Taken(h, size);
            Live(Malloc(h, size).bs) == if k == |h.bs| then Live(h.bs)
                                        else Live(h.bs) + {Block(h.bs[k].at, h.bs[k].at + HEADER + Aligned(size), true)}
  {
    var k := Taken(h, size);
    if k < |h.bs| {
      TakenFits(h, size);
      hide Taken, Aligned, Cut, Tiled, Coalesced, FreeAt;
      CutLive(h.bs, k, h.bs[k].at + HEADER + Aligned(size));
    }
  }

  /** Freeing takes away the one block. */
  lemma FreeLive(h: State, k: nat)
    requires Good(h) && k < |h.bs| && h.bs[k].used
    ensures Live(Free(h, k).bs) == Live(h.bs) - {h.bs[k]}
  {
    var bs := h.bs[k := h.bs[k].(used := false)];
    PlugHolesLive(Freed(h, k), k);
    forall b | b in Live(h.bs) - {h.bs[k]} ensures b in bs {
      var i :| 0 <= i < |h.bs| && h.bs[i] == b;
      assert bs[i] == b;
    }
    forall b | b in Live(bs) ensures b in Live(h.bs) - {h.bs[k]} {
      var i :| 0 <= i < |bs| && bs[i] == b;
      assert i != k && h.bs[i] == b;
      if b == h.bs[k] { Distinct(h.bs, i, k); }
    }
  }

  lemma GivenBackLive(h: State, k: nat, cut: nat)
    requires Tiled(h.bs) && k < |h.bs|
    ensures Live(PlugHoles(h.(bs := Cut(h.bs, k, cut)), k + 1).bs) == Live(h.bs) - {h.bs[k]} + {Block(h.bs[k].at, cut, true)}
  {
    CutIs(h.bs, k, cut);
    hide Cut, PlugHoles, Tiled, Live;
    CutLive(h.bs, k, cut);
    PlugHolesLive(h.(bs := Cut(h.bs, k, cut)), k + 1);
  }

  /** Shrinking replaces the one block by a shorter one at the same place. */
  lemma ReallocLive(h: State, k: nat, newsize: u16)
    requires Good(h) && k < |h.bs| && h.bs[k].used
    ensures Live(Realloc(h, k, newsize).bs) ==
            if Shrinks(h, k, newsize) then
              Live(h.bs) - {h.bs[k]} + {Block(h.bs[k].at, h.bs[k].at + HEADER + Aligned(newsize), true)}
            else Live(h.bs)
  {
    hide Cut, PlugHoles, Aligned, Tiled, Coalesced, FreeAt, Live, Shrinks;
    if Shrinks(h, k, newsize) { GivenBackLive(h, k, h.bs[k].at + HEADER + Aligned(newsize)); }
  }

  /** Rounding up to whole words, in 16 bits. */
  lemma RoundedUp(size: u16)
    ensures if size == 65535 then Aligned(size) == 0 else size <= Aligned(size) <= size + 1
  {
  }

  /** A block that `mem_realloc` hands back holds what it held of the bytes asked for, unless 65535 were asked for. */
  lemma ResizedHoldsIff(h: State, k: nat, newsize: u16) returns (b: Block)
    requires Good(h) && k < |h.bs| && h.bs[k].used && Aligned(newsize) <= MEM_SIZE
    ensures b in Live(Realloc(h, k, newsize).bs) && b.at == h.bs[k].at
    ensures Min(newsize, h.bs[k].Room()) <= b.Room() <==> newsize != 65535 || h.bs[k].Room() <= HEADER + MIN_SIZE
  {
    ReallocLive(h, k, newsize);
    RoundedUp(newsize);
    hide Realloc, Good, Aligned, Live;
    b := if Shrinks(h, k, newsize) then Block(h.bs[k].at, h.bs[k].at + HEADER + Aligned(newsize), true) else h.bs[k];
    assert h.bs[k] in Live(h.bs) by { LiveAt(h.bs, k); }
  }

  /** 100 bytes are allocated, and `mem_realloc` to 65535 takes them all away. */
  lemma ResizedToNothing()
    ensures var h := State([Block(0, 106, true), Block(106, MEM_SIZE, false)], 106);
            && Malloc(Init, 100) == h
            && Realloc(h, 0, 65535) == State([Block(0, HEADER, true), Block(HEADER, MEM_SIZE, false)], HEADER)
  {
    var h := State([Block(0, 106, true), Block(106, MEM_SIZE, false)], 106);
    assert FirstFit(Init.bs, 0, 0, 100) == 0 && Malloc(Init, 100) == h;
    var cut := [Block(0, 6, true), Block(6, 106, false), Block(106, MEM_SIZE, false)];
    assert Aligned(65535) == 0 && Cut(h.bs, 0, 6) == cut;
    assert Joined(cut, 1) == [Block(0, 6, true), Block(6, MEM_SIZE, false)];
  }

  /**
   * `mem_realloc` leaves the block where it is, shortened to the size rounded up if more than 18 bytes can be
   * given back, and of the size it had otherwise.
   */
  lemma ReallocRoom(h: State, k: nat, newsize: u16) returns (b: Block)
    requires Good(h) && k < |h.bs| && h.bs[k].used && newsize + newsize % 2 <= MEM_SIZE
    ensures b in Realloc(h, k, newsize).bs && b.used && b.at == h.bs[k].at
    ensures b.Room() == if newsize + newsize % 2 + 18 < h.bs[k].Room() then newsize + newsize % 2 else h.bs[k].Room()
  {
    AlignedIs(newsize);
    ReallocLive(h, k, newsize);
    hide Realloc, Good, Aligned;
    b := if Shrinks(h, k, newsize) then Block(h.bs[k].at, h.bs[k].at + HEADER + Aligned(newsize), true) else h.bs[k];
    LiveAt(h.bs, k);
    assert b in Live(Realloc(h, k, newsize).bs);
  }

  lemma LiveAt(bs: seq<Block>, k: nat)
    requires k < |bs| && bs[k].used
    ensures bs[k] in Live(bs)
  {
  }

  // ----- Whole runs

  /** A request, or an operation on the `k`-th block, which is in use. */
  datatype Event = Allocate(size: u16) | Release(k: nat) | Resize(k: nat, newsize: u16)

  predicate Possible(h: State, e: Event) {
    !e.Allocate? ==> e.k < |h.bs| && h.bs[e.k].used
  }

  function Step(h: State, e: Event): State
    requires Possible(h, e)
  {
    match e
    case Allocate(size) => Malloc(h, size)
    case Release(k) => Free(h, k)
    case Resize(k, newsize) => Realloc(h, k, newsize)
  }

  ghost predicate Run(hs: seq<State>, es: seq<Event>) {
    && |hs| == |es| + 1 && hs[0] == Init
    && forall i :: 0 <= i < |es| ==> Possible(hs[i], es[i]) && hs[i + 1] == Step(hs[i], es[i])
  }

  /** In every state of every run the blocks tile the heap, free neighbours are joined, and `lfree` is a free block. */
  lemma {:induction false} RunGood(hs: seq<State>, es: seq<Event>, n: nat)
    requires Run(hs, es) && n < |hs|
    ensures Good(hs[n])
  {
    if n == 0 {
      assert Init.bs[0] == Block(0, MEM_SIZE, false);
    } else {
      RunGood(hs, es, n - 1);
      var h, e := hs[n - 1], es[n - 1];
      assert hs[n] == Step(h, e);
      match e
      case Allocate(size) => MallocGood(h, size);
      case Release(k) => FreeGood(h, k);
      case Resize(k, newsize) => ReallocGood(h, k, newsize);
    }
  }

  /** In every run without a shrink that leaves a lower block, a request fails only for want of a block that holds it. */
  lemma {:induction false} RunLowest(hs: seq<State>, es: seq<Event>, n: nat)
    requires Run(hs, es) && n < |hs|
    requires forall i :: 0 <= i < n && es[i].Resize? ==> !LeavesLower(hs[i], es[i].k, es[i].newsize)
    ensures Good(hs[n]) && Lowest(hs[n])
  {
    RunGood(hs, es, n);
    if n > 0 {
      RunLowest(hs, es, n - 1);
      var h, e := hs[n - 1], es[n - 1];
      assert hs[n] == Step(h, e);
      match e
      case Allocate(size) => MallocLowest(h, size);
      case Release(k) => FreeLowest(h, k);
      case Resize(k, newsize) => ReallocLowestIff(h, k, newsize);
    }
  }

  /** The claim of `lfree` at fault: two allocations, the first shrunk, and a block is missed that would do. */
  lemma MissedBlock()
    ensures var h := State([Block(0, 16, true), Block(16, 106, false), Block(106, 9918, true), Block(9918, MEM_SIZE, false)], 9918);
            && Realloc(State([Block(0, 106, true), Block(106, 9918, true), Block(9918, MEM_SIZE, false)], 9918), 0, 10) == h
            && Malloc(Malloc(Init, 100), 9806) == State([Block(0, 106, true), Block(106, 9918, true), Block(9918, MEM_SIZE, false)], 9918)
            && Holds(h.bs[1], 76) && Taken(h, 76) == |h.bs|
  {
    var a := State([Block(0, 106, true), Block(106, MEM_SIZE, false)], 106);
    assert Malloc(Init, 100) == a;
    assert FirstFit(a.bs, 0, 106, 9806) == 1;
    var b := State([Block(0, 106, true), Block(106, 9918, true), Block(9918, MEM_SIZE, false)], 9918);
    assert Malloc(a, 9806) == b;
    var h := State([Block(0, 16, true), Block(16, 106, false), Block(106, 9918, true), Block(9918, MEM_SIZE, false)], 9918);
    assert Cut(b.bs, 0, 16) == h.bs;
    assert FirstFit(h.bs, 4, 9918, 76) == FirstFit(h.bs, 3, 9918, 76) == FirstFit(h.bs, 2, 9918, 76) == 4;
  }

  // ----- Alignment

  /** Every block starts at an even address, and so do the bytes behind its header. */
  ghost predicate Even(bs: seq<Block>) {
    forall i :: 0 <= i < |bs| ==> bs[i].at % 2 == 0
  }

  lemma CutEven(bs: seq<Block>, k: nat, size: u16)
    requires Even(bs) && k < |bs|
    ensures Even(Cut(bs, k, bs[k].at + HEADER + Aligned(size)))
  {
    AlignedIs(size);
    CutIs(bs, k, bs[k].at + HEADER + Aligned(size));
    hide Cut, Aligned;
  }

  lemma PlugHolesEven(h: State, k: nat)
    requires Even(h.bs) && k < |h.bs|
    ensures Even(PlugHoles(h, k).bs)
  {
    assert Even(PlugForward(h, k).bs);
  }

  /** In every state of every run: what `mem_malloc` hands out is aligned. */
  lemma {:induction false} RunEven(hs: seq<State>, es: seq<Event>, n: nat)
    requires Run(hs, es) && n < |hs|
    ensures Even(hs[n].bs)
  {
    hide Cut, PlugHoles, Aligned, Taken;
    if n > 0 {
      RunEven(hs, es, n - 1);
      var h, e := hs[n - 1], es[n - 1];
      assert hs[n] == Step(h, e);
      match e
      case Allocate(size) => if Taken(h, size) < |h.bs| { CutEven(h.bs, Taken(h, size), size); }
      case Release(k) => PlugHolesEven(Freed(h, k), k);
      case Resize(k, newsize) =>
        CutEven(h.bs, k, newsize);
        if Shrinks(h, k, newsize) {
          var g := h.(bs := Cut(h.bs, k, h.bs[k].at + HEADER + Aligned(newsize)));
          CutIs(h.bs, k, h.bs[k].at + HEADER + Aligned(newsize));
          PlugHolesEven(g, k + 1);
        }
    }
  }
}
