// lwip/mem.c on its own terms: the array `ram`, with every block's header
// stored in front of it as three 16-bit little-endian fields, and `lfree`.
//
// A row of blocks is laid out in the array if there is a header at the start of
// each block that names its neighbours and whether it is in use.  The lemmas in
// front of the class say what the few stores of `mem_malloc`, `mem_realloc` and
// `plug_holes` turn one layout into, and that they miss every allocated byte.
// The class keeps the row as a ghost beside the array, and each of its methods
// changes both as module HeapModel says.
module Heap {
  import opened Words
  import opened HeapModel

  const RAM_SIZE := MEM_SIZE + HEADER + MEM_ALIGNMENT

  /** The 16-bit field at address `a`. */
  function Field(s: seq<u8>, a: nat): u16
    requires a + 1 < |s|
  {
    var lo: int, hi: int := s[a], s[a + 1];
    lo + 0x100 * hi
  }

  function Next(s: seq<u8>, at: nat): u16
    requires at + HEADER <= |s|
  {
    Field(s, at)
  }

  function Prev(s: seq<u8>, at: nat): u16
    requires at + HEADER <= |s|
  {
    Field(s, at + 2)
  }

  predicate Used(s: seq<u8>, at: nat)
    requires at + HEADER <= |s|
  {
    Field(s, at + 4) != 0
  }

  /** The first block is its own predecessor. */
  ghost function PrevOf(bs: seq<Block>, i: nat): nat
    requires i < |bs|
  {
    if i == 0 then bs[0].at else bs[i - 1].at
  }

  ghost predicate HeaderIs(s: seq<u8>, b: Block, prev: nat) {
    && b.at + HEADER <= |s|
    && Next(s, b.at) == b.end && Prev(s, b.at) == prev && (Used(s, b.at) <==> b.used)
  }

  /** The header of block `i` describes it and the block before it. */
  ghost predicate Described(s: seq<u8>, bs: seq<Block>, i: nat) {
    i < |bs| && HeaderIs(s, bs[i], PrevOf(bs, i))
  }

  /** The headers in the array describe the row of blocks, up to the one at `ram_end`. */
  ghost predicate Laid(s: seq<u8>, bs: seq<Block>) {
    && |s| == RAM_SIZE
    && (forall i :: 0 <= i < |bs| ==> Described(s, bs, i))
    && Next(s, MEM_SIZE) == MEM_SIZE && Used(s, MEM_SIZE)
  }

  /** `s'` agrees with `s` outside the listed headers. */
  ghost predicate SameBut(s: seq<u8>, s': seq<u8>, a: nat, b: nat, c: nat) {
    && |s'| == |s|
    && forall x {:trigger s'[x]} :: 0 <= x < |s| && !(a <= x < a + HEADER) && !(b <= x < b + HEADER) && !(c + 2 <= x < c + 4) ==> s'[x] == s[x]
  }

  predicate Apart(a: nat, b: nat) {
    a + HEADER <= b || b + HEADER <= a
  }

  lemma KeepsHeader(s: seq<u8>, s': seq<u8>, a: nat, b: nat, c: nat, blk: Block, prev: nat)
    requires SameBut(s, s', a, b, c) && HeaderIs(s, blk, prev)
    requires Apart(blk.at, a) && Apart(blk.at, b) && Apart(blk.at, c)
    ensures HeaderIs(s', blk, prev)
  {
  }

  /** The header at `c` has its `prev` field changed, and nothing else. */
  lemma MovesPrev(s: seq<u8>, s': seq<u8>, a: nat, b: nat, blk: Block, prev: nat)
    requires SameBut(s, s', a, b, blk.at) && HeaderIs(s, blk, prev)
    requires Apart(blk.at, a) && Apart(blk.at, b)
    ensures HeaderIs(s', blk, Prev(s', blk.at))
  {
  }

  lemma KeepsRamEnd(s: seq<u8>, s': seq<u8>, bs: seq<Block>, a: nat, b: nat, c: nat)
    requires SameBut(s, s', a, b, c) && Laid(s, bs)
    requires a + HEADER <= MEM_SIZE && b + HEADER <= MEM_SIZE && (c == MEM_SIZE || c + HEADER <= MEM_SIZE)
    ensures |s'| == RAM_SIZE && Next(s', MEM_SIZE) == MEM_SIZE && Used(s', MEM_SIZE)
  {
  }

  lemma TiledApart(bs: seq<Block>, i: nat, j: nat)
    requires Tiled(bs) && i < |bs| && j < |bs| && i != j
    ensures Apart(bs[i].at, bs[j].at)
  {
    if i < j { TiledOrdered(bs, i, j); } else { TiledOrdered(bs, j, i); }
  }

  /** A header elsewhere is apart from everything a cut writes, but for the block after it. */
  lemma ApartFromCut(bs: seq<Block>, k: nat, cut: nat, i: nat)
    requires Tiled(bs) && k < |bs| && i < |bs| && i != k
    requires bs[k].at + HEADER <= cut && cut + HEADER <= bs[k].end
    ensures Apart(bs[i].at, bs[k].at) && Apart(bs[i].at, cut)
    ensures i == k + 1 ==> bs[i].at == bs[k].end
    ensures i != k + 1 ==> Apart(bs[i].at, bs[k].end)
  {
    if i < k { TiledOrdered(bs, i, k); } else { TiledOrdered(bs, k, i); }
    if i > k + 1 { TiledApart(bs, k + 1, i); }
  }

  /** What stands at each place of the row after a cut, and before it. */
  lemma CutAt(bs: seq<Block>, k: nat, cut: nat, i: nat)
    requires k < |bs| && i <= |bs|
    ensures var r := Cut(bs, k, cut);
            && |r| == |bs| + 1
            && (i < k ==> r[i] == bs[i] && PrevOf(r, i) == PrevOf(bs, i))
            && (i == k ==> r[i] == Block(bs[k].at, cut, true) && PrevOf(r, i) == PrevOf(bs, i))
            && (i == k + 1 ==> r[i] == Block(cut, bs[k].end, false) && PrevOf(r, i) == bs[k].at)
            && (i > k + 1 ==> r[i] == bs[i - 1] && PrevOf(r, i) == if i == k + 2 then cut else PrevOf(bs, i - 1))
  {
  }

  lemma CutHeaderAfter(s: seq<u8>, s': seq<u8>, bs: seq<Block>, k: nat, cut: nat, j: nat)
    requires Tiled(bs) && k < j < |bs| && bs[k].at + HEADER <= cut && cut + HEADER <= bs[k].end
    requires HeaderIs(s, bs[j], PrevOf(bs, j)) && SameBut(s, s', bs[k].at, cut, bs[k].end)
    requires bs[j].at + HEADER <= |s'|
    requires j == k + 1 ==> Prev(s', bs[j].at) == cut
    ensures HeaderIs(s', bs[j], if j == k + 1 then cut else PrevOf(bs, j))
  {
    ApartFromCut(bs, k, cut, j);
    hide Next, Prev, Used, SameBut, HeaderIs, Apart, Tiled;
    if j == k + 1 {
      MovesPrev(s, s', bs[k].at, cut, bs[j], PrevOf(bs, j));
    } else {
      KeepsHeader(s, s', bs[k].at, cut, bs[k].end, bs[j], PrevOf(bs, j));
    }
  }

  lemma CutHeaderBefore(s: seq<u8>, s': seq<u8>, bs: seq<Block>, k: nat, cut: nat, j: nat)
    requires Tiled(bs) && j < k < |bs| && bs[k].at + HEADER <= cut && cut + HEADER <= bs[k].end
    requires HeaderIs(s, bs[j], PrevOf(bs, j)) && SameBut(s, s', bs[k].at, cut, bs[k].end)
    ensures HeaderIs(s', bs[j], PrevOf(bs, j))
  {
    ApartFromCut(bs, k, cut, j);
    hide Next, Prev, Used, SameBut, HeaderIs, Apart, Tiled;
    KeepsHeader(s, s', bs[k].at, cut, bs[k].end, bs[j], PrevOf(bs, j));
  }

  /** A cut rewrites two headers and the link back from the block after. */
  ghost predicate CutWritten(s: seq<u8>, s': seq<u8>, bs: seq<Block>, k: nat, cut: nat) {
    && k < |bs| && bs[k].at + HEADER <= cut && cut + HEADER <= bs[k].end <= MEM_SIZE
    && SameBut(s, s', bs[k].at, cut, bs[k].end)
    && HeaderIs(s', Block(bs[k].at, cut, true), PrevOf(bs, k))
    && HeaderIs(s', Block(cut, bs[k].end, false), bs[k].at)
    && (k + 1 < |bs| ==> bs[k + 1].at + HEADER <= |s'| && Prev(s', bs[k + 1].at) == cut)
  }

  lemma CutDescribed(s: seq<u8>, s': seq<u8>, bs: seq<Block>, k: nat, cut: nat, i: nat)
    requires Tiled(bs) && CutWritten(s, s', bs, k, cut) && i <= |bs|
    requires if i <= k then Described(s, bs, i) else Described(s, bs, i - 1)
    requires |s'| == |s| == RAM_SIZE
    ensures Described(s', Cut(bs, k, cut), i)
  {
    CutAt(bs, k, cut, i);
    hide Next, Prev, Used, SameBut, HeaderIs, Apart, Tiled, Cut, PrevOf;
    if i < k {
      CutHeaderBefore(s, s', bs, k, cut, i);
    } else if i > k + 1 {
      HeaderFits(bs, i - 1);
      CutHeaderAfter(s, s', bs, k, cut, i - 1);
    }
  }

  /** The headers after block `k` is cut at `cut`, whether it was free before or in use. */
  lemma CutLaid(s: seq<u8>, s': seq<u8>, bs: seq<Block>, k: nat, cut: nat)
    requires Tiled(bs) && Laid(s, bs) && CutWritten(s, s', bs, k, cut)
    ensures Laid(s', Cut(bs, k, cut))
  {
    EndFits(bs, k);
    KeepsRamEnd(s, s', bs, bs[k].at, cut, bs[k].end);
    hide CutWritten, Described, Tiled;
    var r := Cut(bs, k, cut);
    forall i | 0 <= i < |r| ensures Described(s', r, i) {
      CutDescribed(s, s', bs, k, cut, i);
    }
  }

  /** A block ends at the next header, or at `ram_end`. */
  lemma EndFits(bs: seq<Block>, i: nat)
    requires Tiled(bs) && i < |bs|
    ensures bs[i].at + HEADER <= bs[i].end
    ensures bs[i].end == MEM_SIZE || bs[i].end + HEADER <= MEM_SIZE
  {
    if i + 1 < |bs| { TiledEnds(bs, i + 1); }
  }

  lemma HeaderFits(bs: seq<Block>, i: nat)
    requires Tiled(bs) && i < |bs|
    ensures bs[i].at + HEADER <= bs[i].end <= MEM_SIZE
  {
    TiledEnds(bs, i);
  }

  /** What stands at each place of the row after a join, and before it. */
  lemma JoinAt(bs: seq<Block>, k: nat, i: nat)
    requires k + 1 < |bs| && i + 1 < |bs|
    ensures var r := Joined(bs, k);
            && |r| == |bs| - 1
            && (i < k ==> r[i] == bs[i] && PrevOf(r, i) == PrevOf(bs, i))
            && (i == k ==> r[i] == Block(bs[k].at, bs[k + 1].end, bs[k].used) && PrevOf(r, i) == PrevOf(bs, i))
            && (i > k ==> r[i] == bs[i + 1] && PrevOf(r, i) == if i == k + 1 then bs[k].at else PrevOf(bs, i + 1))
  {
  }

  lemma JoinHeader(s: seq<u8>, s': seq<u8>, bs: seq<Block>, k: nat, j: nat)
    requires Tiled(bs) && k + 1 < |bs| && j < |bs| && j != k && j != k + 1
    requires HeaderIs(s, bs[j], PrevOf(bs, j)) && SameBut(s, s', bs[k].at, bs[k].at, bs[k + 1].end)
    requires bs[j].at + HEADER <= |s'|
    requires j == k + 2 ==> Prev(s', bs[j].at) == bs[k].at
    ensures HeaderIs(s', bs[j], if j == k + 2 then bs[k].at else PrevOf(bs, j))
  {
    ApartFromJoin(bs, k, j);
    hide Next, Prev, Used, SameBut, HeaderIs, Apart, Tiled;
    if j == k + 2 {
      MovesPrev(s, s', bs[k].at, bs[k].at, bs[j], PrevOf(bs, j));
    } else {
      KeepsHeader(s, s', bs[k].at, bs[k].at, bs[k + 1].end, bs[j], PrevOf(bs, j));
    }
  }

  /** A join rewrites one header and the link back from the block after. */
  ghost predicate JoinWritten(s: seq<u8>, s': seq<u8>, bs: seq<Block>, k: nat) {
    && k + 1 < |bs| && bs[k].at + HEADER <= bs[k + 1].at && bs[k + 1].end <= MEM_SIZE
    && SameBut(s, s', bs[k].at, bs[k].at, bs[k + 1].end)
    && HeaderIs(s', Block(bs[k].at, bs[k + 1].end, bs[k].used), PrevOf(bs, k))
    && (k + 2 < |bs| ==> bs[k + 2].at + HEADER <= |s'| && Prev(s', bs[k + 2].at) == bs[k].at)
  }

  lemma JoinDescribed(s: seq<u8>, s': seq<u8>, bs: seq<Block>, k: nat, i: nat)
    requires Tiled(bs) && JoinWritten(s, s', bs, k) && i + 1 < |bs|
    requires if i <= k then Described(s, bs, i) else Described(s, bs, i + 1)
    requires |s'| == |s| == RAM_SIZE
    ensures Described(s', Joined(bs, k), i)
  {
    JoinAt(bs, k, i);
    hide Next, Prev, Used, SameBut, HeaderIs, Apart, Tiled, Joined, PrevOf;
    if i < k {
      HeaderFits(bs, i);
      JoinHeader(s, s', bs, k, i);
    } else if i > k {
      HeaderFits(bs, i + 1);
      JoinHeader(s, s', bs, k, i + 1);
    }
  }

  /** The headers after blocks `k` and `k + 1` are joined. */
  lemma JoinLaid(s: seq<u8>, s': seq<u8>, bs: seq<Block>, k: nat)
    requires Tiled(bs) && Laid(s, bs) && JoinWritten(s, s', bs, k) && HEADER <= bs[k + 1].end - bs[k].at
    ensures Laid(s', Joined(bs, k))
  {
    EndFits(bs, k + 1);
    KeepsRamEnd(s, s', bs, bs[k].at, bs[k].at, bs[k + 1].end);
    hide JoinWritten, Described, Tiled;
    var r := Joined(bs, k);
    forall i | 0 <= i < |r| ensures Described(s', r, i) {
      JoinDescribed(s, s', bs, k, i);
    }
  }

  lemma ApartFromJoin(bs: seq<Block>, k: nat, i: nat)
    requires Tiled(bs) && k + 1 < |bs| && i < |bs| && i != k && i != k + 1
    ensures Apart(bs[i].at, bs[k].at)
    ensures i == k + 2 ==> bs[i].at == bs[k + 1].end
    ensures i != k + 2 ==> Apart(bs[i].at, bs[k + 1].end)
  {
    TiledApart(bs, i, k);
    if i < k { TiledOrdered(bs, i, k + 1); TiledOrdered(bs, k, k + 1); }
    if i > k + 2 { TiledApart(bs, k + 2, i); }
  }

  // ----- What the writes leave alone

  /** Every byte of the blocks in `live` is as it was. */
  ghost predicate Kept(s: seq<u8>, s': seq<u8>, live: set<Block>) {
    && |s'| == |s|
    && forall b, x {:trigger b in live, s'[x]} :: b in live && b.Payload(x) && x < |s| ==> s'[x] == s[x]
  }

  /** Writes to headers of a row, and to the link behind one of its blocks, keep all its allocated bytes. */
  lemma HeadersKeep(s: seq<u8>, s': seq<u8>, r: seq<Block>, i: nat, j: nat)
    requires Tiled(r) && i < |r| && j < |r| && SameBut(s, s', r[i].at, r[j].at, r[j].end)
    ensures Kept(s, s', Live(r))
  {
    forall b, x | b in Live(r) && b.Payload(x) && x < |s| ensures s'[x] == s[x] {
      var m :| 0 <= m < |r| && r[m] == b;
      Clear(r, m, i);
      Clear(r, m, j);
    }
  }

  lemma Clear(r: seq<Block>, m: nat, i: nat)
    requires Tiled(r) && m < |r| && i < |r|
    ensures r[m].end <= r[i].at || r[i].at <= r[m].at
    ensures r[m].end <= r[i].end || r[i].end <= r[m].at
  {
    if m < i { TiledOrdered(r, m, i); }
    if i < m { TiledOrdered(r, i, m); }
  }

  // ----- Single stores

  ghost predicate Stored(s: seq<u8>, s': seq<u8>, a: nat, v: u16) {
    && |s'| == |s| && a + 1 < |s| && Field(s', a) == v
    && forall x {:trigger s'[x]} :: 0 <= x < |s| && x != a && x != a + 1 ==> s'[x] == s[x]
  }

  lemma StoredElsewhere(s: seq<u8>, s': seq<u8>, a: nat, v: u16, b: nat)
    requires Stored(s, s', a, v) && b + 1 < |s| && (b + 1 < a || a + 1 < b)
    ensures |s'| == |s| && Field(s', b) == Field(s, b)
  {
  }

  /** The six stores of mem_malloc, one after the other. */
  ghost predicate SplitStored(s: seq<u8>, s6: seq<u8>, at: nat, cut: nat, end: nat) {
    exists s1, s2, s3, s4, s5 :: SplitBy(s, s1, s2, s3, s4, s5, s6, at, cut, end)
  }

  ghost predicate SplitBy(s: seq<u8>, s1: seq<u8>, s2: seq<u8>, s3: seq<u8>, s4: seq<u8>, s5: seq<u8>, s6: seq<u8>,
                          at: nat, cut: nat, end: nat)
  {
    && at < 0x1_0000 && cut < 0x1_0000 && end < 0x1_0000
    && Stored(s, s1, cut + 2, at) && Stored(s1, s2, cut, end) && Stored(s2, s3, at, cut)
    && (if end != MEM_SIZE then Stored(s3, s4, end + 2, cut) else s4 == s3)
    && Stored(s4, s5, cut + 4, 0) && Stored(s5, s6, at + 4, 1)
  }

  lemma SixStores(s: seq<u8>, s6: seq<u8>, bs: seq<Block>, k: nat, cut: nat)
    requires Tiled(bs) && Laid(s, bs) && k < |bs| && bs[k].at + HEADER <= cut && cut + HEADER <= bs[k].end <= MEM_SIZE
    requires SplitStored(s, s6, bs[k].at, cut, bs[k].end)
    ensures Laid(s6, Cut(bs, k, cut)) && Kept(s, s6, Live(Cut(bs, k, cut)))
  {
    EndFits(bs, k);
    assert Described(s, bs, k);
    if k + 1 < |bs| { HeaderFits(bs, k + 1); }
    assert CutWritten(s, s6, bs, k, cut) by {
      hide Tiled, Laid, PrevOf;
      var s1, s2, s3, s4, s5 :| SplitBy(s, s1, s2, s3, s4, s5, s6, bs[k].at, cut, bs[k].end);
    }
    hide *;
    CutLaid(s, s6, bs, k, cut);
    CutKeeps(s, s6, bs, k, cut);
  }

  /** The five stores of mem_realloc. */
  ghost predicate ShrinkStored(s: seq<u8>, s5: seq<u8>, at: nat, cut: nat, end: nat) {
    exists s1, s2, s3, s4 :: ShrunkBy(s, s1, s2, s3, s4, s5, at, cut, end)
  }

  ghost predicate ShrunkBy(s: seq<u8>, s1: seq<u8>, s2: seq<u8>, s3: seq<u8>, s4: seq<u8>, s5: seq<u8>,
                           at: nat, cut: nat, end: nat)
  {
    && at < 0x1_0000 && cut < 0x1_0000 && end < 0x1_0000
    && Stored(s, s1, cut + 4, 0) && Stored(s1, s2, cut, end) && Stored(s2, s3, cut + 2, at)
    && Stored(s3, s4, at, cut) && if end != MEM_SIZE then Stored(s4, s5, end + 2, cut) else s5 == s4
  }

  lemma FiveStores(s: seq<u8>, s5: seq<u8>, bs: seq<Block>, k: nat, cut: nat)
    requires Tiled(bs) && Laid(s, bs) && k < |bs| && bs[k].at + HEADER <= cut && cut + HEADER <= bs[k].end <= MEM_SIZE
    requires bs[k].used && ShrinkStored(s, s5, bs[k].at, cut, bs[k].end)
    ensures Laid(s5, Cut(bs, k, cut)) && Kept(s, s5, Live(Cut(bs, k, cut)))
  {
    EndFits(bs, k);
    assert Described(s, bs, k);
    if k + 1 < |bs| { HeaderFits(bs, k + 1); }
    assert CutWritten(s, s5, bs, k, cut) by {
      hide Tiled, Laid, PrevOf;
      var s1, s2, s3, s4 :| ShrunkBy(s, s1, s2, s3, s4, s5, bs[k].at, cut, bs[k].end);
    }
    hide *;
    CutLaid(s, s5, bs, k, cut);
    CutKeeps(s, s5, bs, k, cut);
  }

  lemma TwoStores(s: seq<u8>, s1: seq<u8>, s2: seq<u8>, bs: seq<Block>, k: nat)
    requires Tiled(bs) && Laid(s, bs) && k + 1 < |bs| && bs[k + 1].end <= MEM_SIZE
    requires Stored(s, s1, bs[k].at, bs[k + 1].end) && Stored(s1, s2, bs[k + 1].end + 2, bs[k].at)
    ensures JoinWritten(s, s2, bs, k)
  {
    TiledOrdered(bs, k, k + 1);
    assert Described(s, bs, k);
    if k + 2 < |bs| { HeaderFits(bs, k + 2); }
    hide Tiled, Laid, PrevOf;
  }

  lemma JoinKeeps(s: seq<u8>, s': seq<u8>, bs: seq<Block>, k: nat)
    requires Tiled(bs) && JoinWritten(s, s', bs, k) && !bs[k].used && !bs[k + 1].used
    ensures Kept(s, s', Live(bs))
  {
    JoinedTiled(bs, k);
    JoinAt(bs, k, k);
    JoinedLive(bs, k);
    hide Tiled, SameBut, Joined, Live;
    HeadersKeep(s, s', Joined(bs, k), k, k);
  }

  lemma CutKeeps(s: seq<u8>, s': seq<u8>, bs: seq<Block>, k: nat, cut: nat)
    requires Tiled(bs) && CutWritten(s, s', bs, k, cut)
    ensures Kept(s, s', Live(Cut(bs, k, cut)))
  {
    CutTiled(bs, k, cut);
    CutAt(bs, k, cut, k);
    CutAt(bs, k, cut, k + 1);
    hide Tiled, SameBut, Cut, Live;
    HeadersKeep(s, s', Cut(bs, k, cut), k, k + 1);
  }

  lemma KeptItself(s: seq<u8>, live: set<Block>)
    ensures Kept(s, s, live)
  {
  }

  lemma PlugForwardLive(h: State, k: nat)
    requires k < |h.bs| && !h.bs[k].used
    ensures Live(HeapModel.PlugForward(h, k).bs) == Live(h.bs)
  {
    if k + 1 < |h.bs| && !h.bs[k + 1].used { JoinedLive(h.bs, k); }
  }

  lemma FreedLaid(s: seq<u8>, s': seq<u8>, bs: seq<Block>, k: nat)
    requires Tiled(bs) && Laid(s, bs) && k < |bs| && Stored(s, s', bs[k].at + 4, 0)
    ensures var r := bs[k := bs[k].(used := false)]; Laid(s', r) && Kept(s, s', Live(r))
  {
    var r := bs[k := bs[k].(used := false)];
    assert Tiled(r) by { FreedTiled(bs, k); }
    EndFits(bs, k);
    assert SameBut(s, s', bs[k].at, bs[k].at, bs[k].end);
    KeepsRamEnd(s, s', bs, bs[k].at, bs[k].at, bs[k].end);
    forall i | 0 <= i < |r| ensures Described(s', r, i) { FreedDescribed(s, s', bs, k, i); }
    hide *;
    HeadersKeep(s, s', r, k, k);
  }

  lemma FreedDescribed(s: seq<u8>, s': seq<u8>, bs: seq<Block>, k: nat, i: nat)
    requires Tiled(bs) && k < |bs| && i < |bs| && Described(s, bs, i) && Stored(s, s', bs[k].at + 4, 0)
    ensures Described(s', bs[k := bs[k].(used := false)], i)
  {
    HeaderFits(bs, i);
    HeaderFits(bs, k);
    if i != k { TiledApart(bs, i, k); }
  }

  lemma CutLinks(bs: seq<Block>, k: nat, cut: nat)
    requires Tiled(bs) && k < |bs| && bs[k].at + HEADER <= cut && cut + HEADER <= bs[k].end
    ensures var r := Cut(bs, k, cut); Tiled(r) && k + 1 < |r| && r[k] == Block(bs[k].at, cut, true) && r[k + 1] == Block(cut, bs[k].end, false)
  {
    CutTiled(bs, k, cut);
    CutIs(bs, k, cut);
  }

  /** Starting the search at `lfree` is starting it at the first block at or above `lfree`. */
  lemma SearchFrom(bs: seq<Block>, i: nat, j: nat, from: nat, size: u16)
    requires i <= j < |bs| && Tiled(bs) && bs[j].at == from
    ensures FirstFit(bs, i, from, size) == FirstFit(bs, j, from, size)
    decreases j - i
  {
    if i < j {
      TiledOrdered(bs, i, j);
      SearchFrom(bs, i + 1, j, from, size);
    }
  }

  /** What the search loop does at one block. */
  lemma SearchStep(bs: seq<Block>, i: nat, from: nat, size: u16)
    requires i < |bs| && from <= bs[i].at
    ensures FirstFit(bs, i, from, size) == if Holds(bs[i], size) then i else FirstFit(bs, i + 1, from, size)
  {
  }

  lemma TakenLinks(s: seq<u8>, h: State, i: nat)
    requires Good(h) && Laid(s, h.bs) && i < |h.bs|
    ensures var b := h.bs[i];
            && b.at + HEADER <= |s| && Next(s, b.at) == b.end && (Used(s, b.at) <==> b.used)
            && b.at + HEADER <= b.end <= MEM_SIZE
            && if i + 1 < |h.bs| then b.end == h.bs[i + 1].at < MEM_SIZE else b.end == MEM_SIZE
  {
    Links(s, h.bs, i);
  }

  /** The test of `mem_malloc` on one block, in the source's unsigned arithmetic. */
  predicate Fits(s: seq<u8>, ptr: nat, need: u16)
    requires ptr + HEADER <= |s|
  {
    !Used(s, ptr) && ToU32(Next(s, ptr) - (ptr + HEADER)) >= need + HEADER
  }

  lemma FitsIff(s: seq<u8>, h: State, i: nat, need: u16)
    requires Good(h) && Laid(s, h.bs) && i < |h.bs|
    ensures h.bs[i].at + HEADER <= |s| && (Fits(s, h.bs[i].at, need) <==> Holds(h.bs[i], need))
    ensures h.bs[i].at < MEM_SIZE
  {
    TakenLinks(s, h, i);
    hide Next, Used, Good, Laid;
  }

  /** The test of `mem_realloc`, in the source's 16-bit arithmetic. */
  predicate GivesBack(s: seq<u8>, ptr: nat, size: u16)
    requires ptr + HEADER <= |s|
  {
    size + HEADER + MIN_SIZE < ToU16(Next(s, ptr) - ptr - HEADER)
  }

  lemma ShrinksIff(s: seq<u8>, h: State, k: nat, newsize: u16)
    requires Good(h) && Laid(s, h.bs) && k < |h.bs| && Aligned(newsize) <= MEM_SIZE
    ensures h.bs[k].at + HEADER <= |s| && (GivesBack(s, h.bs[k].at, Aligned(newsize)) <==> Shrinks(h, k, newsize))
  {
    TakenLinks(s, h, k);
    hide Next, Used, Good, Laid, Aligned;
  }

  /** What `mem_realloc` comes to, by its test. */
  lemma ShrinkCases(s: seq<u8>, h: State, k: nat, newsize: u16)
    requires Good(h) && Laid(s, h.bs) && k < |h.bs| && Aligned(newsize) <= MEM_SIZE
    ensures var ptr := h.bs[k].at;
            var cut := ptr + HEADER + Aligned(newsize);
            && ptr + HEADER <= |s|
            && if GivesBack(s, ptr, Aligned(newsize)) then
                 cut + HEADER <= h.bs[k].end && HeapModel.Realloc(h, k, newsize) == HeapModel.PlugHoles(h.(bs := Cut(h.bs, k, cut)), k + 1)
               else HeapModel.Realloc(h, k, newsize) == h && Kept(s, s, Live(h.bs))
  {
    hide *;
    ShrinksIff(s, h, k, newsize);
    ResizedIs(h, k, newsize);
    KeptItself(s, Live(h.bs));
  }

  lemma ResizedIs(h: State, k: nat, newsize: u16)
    requires k < |h.bs|
    ensures var cut := h.bs[k].at + HEADER + Aligned(newsize);
            if Shrinks(h, k, newsize) then
              cut + HEADER <= h.bs[k].end && HeapModel.Realloc(h, k, newsize) == HeapModel.PlugHoles(h.(bs := Cut(h.bs, k, cut)), k + 1)
            else HeapModel.Realloc(h, k, newsize) == h
  {
    hide HeapModel.PlugHoles, Cut, Aligned;
  }

  /** The loop of `mem_malloc` has come to block `k`, or to MEM_SIZE, and nothing in front of it fits. */
  ghost predicate Searched(h: State, k: nat, ptr: nat, need: u16) {
    && (if k < |h.bs| then h.lfree <= ptr == h.bs[k].at else k == |h.bs| && ptr == MEM_SIZE)
    && FirstFit(h.bs, 0, h.lfree, need) == FirstFit(h.bs, k, h.lfree, need)
  }

  /** The search starts at a block, the one that `lfree` names. */
  lemma SearchStarts(h: State, need: u16) returns (k: nat)
    requires Good(h)
    ensures k <= |h.bs| && Searched(h, k, h.lfree, need)
  {
    k :| 0 <= k < |h.bs| && h.bs[k].at == h.lfree && !h.bs[k].used;
    SearchFrom(h.bs, 0, k, h.lfree, need);
  }

  /** One turn of the search: it ends at a block that holds the request, or goes on to the next one. */
  lemma SearchTurn(s: seq<u8>, h: State, k: nat, ptr: nat, need: u16)
    requires Good(h) && Laid(s, h.bs) && Searched(h, k, ptr, need)
    ensures if k < |h.bs| then
              && ptr == h.bs[k].at < MEM_SIZE && ptr + HEADER <= |s|
              && (if Fits(s, ptr, need) then FirstFit(h.bs, 0, h.lfree, need) == k else Searched(h, k + 1, Next(s, ptr), need))
            else ptr == MEM_SIZE && FirstFit(h.bs, 0, h.lfree, need) == k == |h.bs|
  {
    if k < |h.bs| {
      FitsIff(s, h, k, need);
      TakenLinks(s, h, k);
      SearchStep(h.bs, k, h.lfree, need);
    }
    hide Good, Laid, Fits, Holds, Next, Used;
  }

  lemma TakenIs(h: State, size: u16)
    requires size != 0 && Aligned(size) <= MEM_SIZE
    ensures Taken(h, size) == FirstFit(h.bs, 0, h.lfree, Aligned(size))
  {
  }

  lemma MallocIs(h: State, size: u16)
    ensures var k := Taken(h, size);
            HeapModel.Malloc(h, size) ==
            if k == |h.bs| then h
            else var cut := h.bs[k].at + HEADER + Aligned(size);
                 State(Cut(h.bs, k, cut), if h.lfree == h.bs[k].at then cut else h.lfree)
  {
  }

  /** Keeping the new row keeps the old one, whose block `b` was free. */
  lemma KeptFewer(s: seq<u8>, s': seq<u8>, more: set<Block>, live: set<Block>, b: Block)
    requires Kept(s, s', more) && live - {b} <= more && b !in live
    ensures Kept(s, s', live)
  {
    assert live <= more;
  }

  lemma KeptTwice(s: seq<u8>, s': seq<u8>, s'': seq<u8>, live: set<Block>)
    requires Kept(s, s', live) && Kept(s', s'', live)
    ensures Kept(s, s'', live)
  {
  }

  /** What a header says of the neighbours. */
  lemma Links(s: seq<u8>, bs: seq<Block>, k: nat)
    requires Tiled(bs) && Laid(s, bs) && k < |bs|
    ensures bs[k].at + HEADER <= bs[k].end <= MEM_SIZE && |s| == RAM_SIZE
    ensures Next(s, bs[k].at) == bs[k].end && Prev(s, bs[k].at) == PrevOf(bs, k) && (Used(s, bs[k].at) <==> bs[k].used)
    ensures if k + 1 < |bs| then bs[k].end == bs[k + 1].at && (Used(s, bs[k].end) <==> bs[k + 1].used) && bs[k].end < MEM_SIZE
            else bs[k].end == MEM_SIZE && Used(s, MEM_SIZE) && Next(s, MEM_SIZE) == MEM_SIZE
    ensures if k > 0 then PrevOf(bs, k) == bs[k - 1].at < bs[k].at && bs[k - 1].end == bs[k].at
                          && (Used(s, bs[k - 1].at) <==> bs[k - 1].used)
            else PrevOf(bs, k) == bs[k].at
  {
    assert Described(s, bs, k);
    HeaderFits(bs, k);
    if k + 1 < |bs| { HeaderFits(bs, k + 1); assert Described(s, bs, k + 1); }
    if k > 0 { HeaderFits(bs, k - 1); assert Described(s, bs, k - 1); }
    hide Next, Prev, Used;
  }

  /** `struct mem *` into the heap, or NULL; outside the heap it is any other number. */
  datatype Pointer = Null | At(a: int)

  /** What `mem_malloc` returns: the bytes behind the header of the block that it takes. */
  function Granted(h: State, size: u16): Pointer {
    var k := Taken(h, size);
    if k == |h.bs| then Null else At(h.bs[k].at + HEADER)
  }

  /** The block whose bytes a granted request points to is in use from then on. */
  lemma GrantedIs(h: State, size: u16)
    ensures var k, bs := Taken(h, size), HeapModel.Malloc(h, size).bs;
            if k < |h.bs| then k < |bs| && bs[k].used && Granted(h, size) == At(bs[k].at + HEADER) else Granted(h, size) == Null
  {
    var k := Taken(h, size);
    if k < |h.bs| { CutIs(h.bs, k, h.bs[k].at + HEADER + Aligned(size)); }
  }

  class Heap {
    const ram: array<u8>
    var lfree: nat
    /** The same heap as a row of blocks. */
    ghost var h: State

    ghost predicate Valid()
      reads this, ram
    {
      Good(h) && Linked()
    }

    /** The bytes and `lfree` say what the row says. */
    ghost predicate Linked()
      reads this, ram
    {
      Laid(ram[..], h.bs) && lfree == h.lfree
    }

    lemma ValidMeans()
      requires Valid()
      ensures Good(h) && Laid(ram[..], h.bs) && lfree == h.lfree
    {
    }

    method Store(a: nat, v: u16)
      requires a + 1 < ram.Length
      modifies ram
      ensures Stored(old(ram[..]), ram[..], a, v)
    {
      ram[a], ram[a + 1] := v % 0x100, v / 0x100;
    }

    /** `first` takes over the space of the block behind it. */
    method Absorb(first: nat, second: nat, ghost k: nat)
      requires Tiled(h.bs) && Laid(ram[..], h.bs) && k + 1 < |h.bs| && !h.bs[k].used && !h.bs[k + 1].used
      requires h.bs[k].at == first && h.bs[k + 1].at == second
      modifies ram
      ensures Laid(ram[..], Joined(h.bs, k)) && Kept(old(ram[..]), ram[..], Live(h.bs))
    {
      Links(ram[..], h.bs, k);
      Links(ram[..], h.bs, k + 1);
      hide Laid, Tiled, Field, Kept, Joined, Live;
      ghost var s := ram[..];
      var next := Next(ram[..], second);
      Store(first, next);
      ghost var s1 := ram[..];
      Store(next + 2, first);
      TwoStores(s, s1, ram[..], h.bs, k);
      hide Stored;
      JoinLaid(s, ram[..], h.bs, k);
      JoinKeeps(s, ram[..], h.bs, k);
    }

    /** `plug_holes`, "plug hole forward" */
    method PlugForward(mem: nat, ghost k: nat)
      requires Tiled(h.bs) && Linked() && k < |h.bs| && h.bs[k].at == mem && !h.bs[k].used
      modifies this, ram
      ensures h == HeapModel.PlugForward(old(h), k) && Linked()
      ensures Kept(old(ram[..]), ram[..], Live(old(h.bs)))
    {
      Links(ram[..], h.bs, k);
      KeptItself(ram[..], Live(h.bs));
      hide Laid, Tiled, Kept, Joined, Live, HeapModel.FreeAt;
      var nmem := Next(ram[..], mem);
      if mem != nmem && !Used(ram[..], nmem) && nmem != MEM_SIZE {
        if lfree == nmem { lfree := mem; }
        Absorb(mem, nmem, k);
        h := HeapModel.PlugForward(h, k);
      }
    }

    /** `plug_holes`, "plug hole backward" */
    method PlugBackward(mem: nat, ghost k: nat)
      requires Tiled(h.bs) && Linked() && k < |h.bs| && h.bs[k].at == mem && !h.bs[k].used
      modifies this, ram
      ensures h == HeapModel.PlugBackward(old(h), k) && Linked()
      ensures Kept(old(ram[..]), ram[..], Live(old(h.bs)))
    {
      Links(ram[..], h.bs, k);
      KeptItself(ram[..], Live(h.bs));
      hide Laid, Tiled, Kept, Joined, Live;
      var pmem := Prev(ram[..], mem);
      if pmem != mem && !Used(ram[..], pmem) {
        if lfree == mem { lfree := pmem; }
        Absorb(pmem, mem, k - 1);
        h := HeapModel.PlugBackward(h, k);
      }
    }

    method PlugHoles(mem: nat, ghost k: nat)
      requires Tiled(h.bs) && Linked() && k < |h.bs| && h.bs[k].at == mem && !h.bs[k].used
      requires CoalescedBut(h.bs, k) && FreeAt(h.bs, h.lfree)
      modifies this, ram
      ensures h == HeapModel.PlugHoles(old(h), k) && Valid()
      ensures Kept(old(ram[..]), ram[..], Live(old(h.bs)))
    {
      PlugHolesGood(h, k);
      PlugForwardGood(h, k);
      PlugForwardLive(h, k);
      hide HeapModel.PlugForward, HeapModel.PlugBackward, Laid, Tiled, Coalesced, CoalescedBut, FreeAt, Kept, Live;
      ghost var s, live := ram[..], Live(h.bs);
      PlugForward(mem, k);
      ghost var s1 := ram[..];
      PlugBackward(mem, k);
      KeptTwice(s, s1, ram[..], live);
    }

    /** `mem_init` */
    constructor ()
      ensures Valid() && h == Init && fresh(ram)
    {
      ram := new u8[RAM_SIZE](_ => 0);
      lfree := 0;
      h := Init;
      new;
      Store(0, MEM_SIZE);
      Store(2, 0);
      Store(4, 0);
      Store(MEM_SIZE + 4, 1);
      Store(MEM_SIZE, MEM_SIZE);
      Store(MEM_SIZE + 2, MEM_SIZE);
      assert Described(ram[..], h.bs, 0);
      assert h.bs[0] == Block(0, MEM_SIZE, false);
    }

    /** `rmem` points behind the header of block `k`, which is in use. */
    ghost predicate Allocated(rmem: Pointer, k: nat)
      reads this
    {
      rmem.At? && k < |h.bs| && h.bs[k].used && rmem.a == h.bs[k].at + HEADER
    }

    /** NULL, or not in the heap at all. */
    static predicate Foreign(rmem: Pointer) {
      rmem == Null || rmem.a < 0 || rmem.a >= MEM_SIZE
    }

    /** `mem_free` */
    method Free(rmem: Pointer, ghost k: nat)
      requires Valid() && (Foreign(rmem) || Allocated(rmem, k))
      modifies this, ram
      ensures Valid()
      ensures h == if Foreign(rmem) then old(h) else HeapModel.Free(old(h), k)
      ensures Kept(old(ram[..]), ram[..], Live(h.bs))
    {
      KeptItself(ram[..], Live(h.bs));
      if rmem == Null { return; }
      if rmem.a < 0 || rmem.a >= MEM_SIZE { return; }
      var mem := rmem.a - HEADER;
      ghost var g, s := h, ram[..];
      FreedReady(g, k);
      HeaderFits(g.bs, k);
      hide Good, Laid, Tiled, Coalesced, CoalescedBut, FreeAt, Kept, Live, HeapModel.PlugHoles;
      Store(mem + 4, 0);
      FreedLaid(s, ram[..], g.bs, k);
      if mem < lfree { lfree := mem; }
      h := Freed(g, k);
      ghost var s1 := ram[..];
      PlugHolesLive(h, k);
      PlugHoles(mem, k);
      KeptTwice(s, s1, ram[..], Live(h.bs));
    }

    /** `mem_realloc` */
    method Realloc(rmem: Pointer, newsize: u16, ghost k: nat) returns (r: Pointer)
      requires Valid() && (Foreign(rmem) || Allocated(rmem, k))
      modifies this, ram
      ensures Valid()
      ensures r == if Aligned(newsize) > MEM_SIZE then Null else rmem
      ensures h == if Foreign(rmem) then old(h) else HeapModel.Realloc(old(h), k, newsize)
      ensures Kept(old(ram[..]), ram[..], Live(h.bs))
    {
      KeptItself(ram[..], Live(h.bs));
      var size := Aligned(newsize);
      r := Null;
      if size <= MEM_SIZE {
        r := rmem;
        if rmem != Null && 0 <= rmem.a < MEM_SIZE { Shrink(rmem.a - HEADER, newsize, size, k); }
      }
    }

    /** `mem_realloc` of a block in the heap. */
    method Shrink(ptr: nat, newsize: u16, size: u16, ghost k: nat)
      requires Valid() && k < |h.bs| && h.bs[k].used && h.bs[k].at == ptr && size == Aligned(newsize) <= MEM_SIZE
      modifies this, ram
      ensures Valid() && h == HeapModel.Realloc(old(h), k, newsize)
      ensures Kept(old(ram[..]), ram[..], Live(h.bs))
    {
      hide Valid, Good, Laid, Kept, Live, Aligned, Cut, GivesBack, HeapModel.PlugHoles, HeapModel.Realloc;
      ValidMeans();
      ShrinkCases(ram[..], h, k, newsize);
      if GivesBack(ram[..], ptr, size) { GiveBack(ptr, ptr + HEADER + size, k); }
    }

    /** The end of `mem_realloc`: what is above `ptr2` becomes a free block. */
    method GiveBack(ptr: nat, ptr2: nat, ghost k: nat)
      requires Valid() && k < |h.bs| && h.bs[k].used && h.bs[k].at == ptr
      requires ptr + HEADER <= ptr2 && ptr2 + HEADER <= h.bs[k].end
      modifies this, ram
      ensures Valid() && h == HeapModel.PlugHoles(old(h).(bs := Cut(old(h.bs), k, ptr2)), k + 1)
      ensures Kept(old(ram[..]), ram[..], Live(h.bs))
    {
      ghost var g, s := h, ram[..];
      Links(s, h.bs, k);
      CutFree(h.bs, k, ptr2, h.lfree);
      CutCoalescedBut(h.bs, k, ptr2);
      LfreeElsewhere(h, k);
      CutLinks(h.bs, k, ptr2);
      Carve(ptr, ptr2, k);
      hide Good, Laid, Tiled, Coalesced, CoalescedBut, FreeAt, Kept, Live, HeapModel.PlugHoles, Cut;
      h := g.(bs := Cut(g.bs, k, ptr2));
      ghost var s1 := ram[..];
      PlugHolesLive(h, k + 1);
      PlugHoles(ptr2, k + 1);
      KeptTwice(s, s1, ram[..], Live(h.bs));
    }

    method Carve(ptr: nat, ptr2: nat, ghost k: nat)
      requires Tiled(h.bs) && Laid(ram[..], h.bs) && k < |h.bs| && h.bs[k].used && h.bs[k].at == ptr
      requires ptr + HEADER <= ptr2 && ptr2 + HEADER <= h.bs[k].end
      modifies ram
      ensures Laid(ram[..], Cut(h.bs, k, ptr2)) && Kept(old(ram[..]), ram[..], Live(Cut(h.bs, k, ptr2)))
    {
      ghost var s, bs := ram[..], h.bs;
      Links(s, bs, k);
      hide *;
      StoreFive(ptr, ptr2, bs[k].end);
      FiveStores(s, ram[..], bs, k, ptr2);
    }

    method StoreFive(ptr: nat, ptr2: nat, ghost end: nat)
      requires ram.Length == RAM_SIZE && ptr + HEADER <= ptr2 && ptr2 + HEADER <= end <= MEM_SIZE && Next(ram[..], ptr) == end
      modifies ram
      ensures ShrinkStored(old(ram[..]), ram[..], ptr, ptr2, end)
    {
      ghost var s := ram[..];
      hide Field, Stored;
      Store(ptr2 + 4, 0);
      ghost var s1 := ram[..];
      StoredElsewhere(s, s1, ptr2 + 4, 0, ptr);
      var next := Next(ram[..], ptr);
      Store(ptr2, next);
      ghost var s2 := ram[..];
      Store(ptr2 + 2, ptr);
      ghost var s3 := ram[..];
      ghost var s4 := Relink(ptr, ptr2, next);
      assert ShrunkBy(s, s1, s2, s3, s4, ram[..], ptr, ptr2, end);
    }

    /** The links of the neighbours of the new block at `ptr2`. */
    method Relink(ptr: nat, ptr2: u16, next: nat) returns (ghost s: seq<u8>)
      requires ram.Length == RAM_SIZE && ptr + 1 < MEM_SIZE && next <= MEM_SIZE
      modifies ram
      ensures Stored(old(ram[..]), s, ptr, ptr2)
      ensures if next != MEM_SIZE then Stored(s, ram[..], next + 2, ptr2) else ram[..] == s
    {
      hide Field, Stored;
      Store(ptr, ptr2);
      s := ram[..];
      if next != MEM_SIZE { Store(next + 2, ptr2); }
    }

    /** `mem_malloc` */
    method Malloc(size: u16) returns (p: Pointer)
      requires Valid()
      modifies this, ram
      ensures Valid() && h == HeapModel.Malloc(old(h), size)
      ensures p == Granted(old(h), size)
      ensures p.At? <==> Allocated(p, Taken(old(h), size))
      ensures Kept(old(ram[..]), ram[..], Live(old(h.bs)))
    {
      KeptItself(ram[..], Live(h.bs));
      GrantedIs(h, size);
      p := Null;
      if size != 0 && Aligned(size) <= MEM_SIZE {
        TakenIs(h, size);
        hide Taken, HeapModel.Malloc, Kept, Live, Aligned, FirstFit;
        p := Allocate(size, Aligned(size));
      }
    }

    /** `mem_malloc` of a size that is neither nothing nor too large. */
    method Allocate(size: u16, need: u16) returns (p: Pointer)
      requires Valid() && need == Aligned(size) && Taken(h, size) == FirstFit(h.bs, 0, h.lfree, need)
      modifies this, ram
      ensures Valid() && h == HeapModel.Malloc(old(h), size)
      ensures p == Granted(old(h), size)
      ensures Kept(old(ram[..]), ram[..], Live(old(h.bs)))
    {
      ghost var g := h;
      hide Valid, Good, Laid, Kept, Live, Aligned, FirstFit, Cut, Taken, HeapModel.Malloc;
      ValidMeans();
      KeptItself(ram[..], Live(g.bs));
      MallocIs(g, size);
      p := Null;
      ghost var k;
      var ptr;
      ptr, k := Search(need);
      if ptr < MEM_SIZE {
        TakenFits(g, size);
        Take(ptr, ptr + HEADER + need, k);
        p := At(ptr + HEADER);
      }
    }

    /** The loop of `mem_malloc`: where it finds a block, or MEM_SIZE. */
    method Search(need: u16) returns (ptr: nat, ghost k: nat)
      requires Valid()
      ensures k == FirstFit(h.bs, 0, h.lfree, need)
      ensures if k < |h.bs| then ptr == h.bs[k].at < MEM_SIZE else ptr == MEM_SIZE
    {
      ghost var g, s := h, ram[..];
      hide Valid, Good, Laid, FirstFit, Fits, Next, Searched;
      ValidMeans();
      ptr := lfree;
      k := SearchStarts(g, need);
      SearchTurn(s, g, k, ptr, need);
      while ptr < MEM_SIZE && !Fits(ram[..], ptr, need)
        invariant k <= |g.bs| && h == g && ram[..] == s && Searched(g, k, ptr, need)
        invariant if k < |g.bs| then ptr < MEM_SIZE && ptr + HEADER <= |s| else ptr == MEM_SIZE
        decreases |g.bs| - k
      {
        SearchTurn(s, g, k, ptr, need);
        ptr := Next(ram[..], ptr);
        k := k + 1;
        SearchTurn(s, g, k, ptr, need);
      }
      SearchTurn(s, g, k, ptr, need);
    }

    /** The body of the search loop once a block fits. */
    method Take(ptr: nat, ptr2: nat, ghost k: nat)
      requires Valid() && k < |h.bs| && !h.bs[k].used && h.bs[k].at == ptr && (k + 1 < |h.bs| ==> h.bs[k + 1].used)
      requires ptr + HEADER <= ptr2 && ptr2 + HEADER <= h.bs[k].end
      modifies this, ram
      ensures Valid() && h == State(Cut(old(h.bs), k, ptr2), if old(h.lfree) == ptr then ptr2 else old(h.lfree))
      ensures Kept(old(ram[..]), ram[..], Live(old(h.bs)))
    {
      ghost var g := h;
      CutGood(g, k, ptr2);
      CutLinks(g.bs, k, ptr2);
      CutLive(g.bs, k, ptr2);
      hide Laid, Tiled, Coalesced, FreeAt, Kept, Live, Cut;
      Split(ptr, ptr2, k);
      KeptFewer(old(ram[..]), ram[..], Live(Cut(g.bs, k, ptr2)), Live(g.bs), g.bs[k]);
      h := State(Cut(g.bs, k, ptr2), if g.lfree == ptr then ptr2 else g.lfree);
      hide Good;
      if ptr == lfree { AdvanceFree(k); }
    }

    /** Moves `lfree` on to the rest of the block that was cut. */
    method AdvanceFree(ghost k: nat)
      requires Tiled(h.bs) && Laid(ram[..], h.bs) && k + 1 < |h.bs|
      requires h.bs[k].used && !h.bs[k + 1].used && lfree == h.bs[k].at
      modifies this`lfree
      ensures lfree == h.bs[k + 1].at
    {
      Links(ram[..], h.bs, k);
      Links(ram[..], h.bs, k + 1);
      hide Laid, Tiled, Used, Next;
      while lfree + HEADER <= ram.Length && Used(ram[..], lfree) && lfree != MEM_SIZE
        invariant lfree == h.bs[k].at || lfree == h.bs[k + 1].at
        decreases h.bs[k + 1].at - lfree
      {
        lfree := Next(ram[..], lfree);
      }
    }

    method Split(ptr: nat, ptr2: nat, ghost k: nat)
      requires Tiled(h.bs) && Laid(ram[..], h.bs) && k < |h.bs| && h.bs[k].at == ptr
      requires ptr + HEADER <= ptr2 && ptr2 + HEADER <= h.bs[k].end
      modifies ram
      ensures Laid(ram[..], Cut(h.bs, k, ptr2)) && Kept(old(ram[..]), ram[..], Live(Cut(h.bs, k, ptr2)))
    {
      ghost var s, bs := ram[..], h.bs;
      Links(s, bs, k);
      hide *;
      StoreSix(ptr, ptr2, bs[k].end);
      SixStores(s, ram[..], bs, k, ptr2);
    }

    method StoreSix(ptr: nat, ptr2: nat, ghost end: nat)
      requires ram.Length == RAM_SIZE && ptr + HEADER <= ptr2 && ptr2 + HEADER <= end <= MEM_SIZE && Next(ram[..], ptr) == end
      modifies ram
      ensures SplitStored(old(ram[..]), ram[..], ptr, ptr2, end)
    {
      ghost var s := ram[..];
      hide Field, Stored;
      ghost var s1, s2, s3 := LinkIn(ptr, ptr2, end);
      ghost var s4 := ram[..];
      hide Next;
      Store(ptr2 + 4, 0);
      ghost var s5 := ram[..];
      Store(ptr + 4, 1);
      assert SplitBy(s, s1, s2, s3, s4, s5, ram[..], ptr, ptr2, end);
    }

    /** The block at `ptr2` goes between the one at `ptr` and its successor. */
    method LinkIn(ptr: nat, ptr2: nat, ghost end: nat) returns (ghost s1: seq<u8>, ghost s2: seq<u8>, ghost s3: seq<u8>)
      requires ram.Length == RAM_SIZE && ptr + HEADER <= ptr2 && ptr2 + HEADER <= end <= MEM_SIZE && Next(ram[..], ptr) == end
      modifies ram
      ensures Stored(old(ram[..]), s1, ptr2 + 2, ptr) && Stored(s1, s2, ptr2, end) && Stored(s2, s3, ptr, ptr2)
      ensures if end != MEM_SIZE then Stored(s3, ram[..], end + 2, ptr2) else ram[..] == s3
    {
      hide Field, Stored;
      ghost var s := ram[..];
      Store(ptr2 + 2, ptr);
      s1 := ram[..];
      StoredElsewhere(s, s1, ptr2 + 2, ptr, ptr);
      var next := Next(ram[..], ptr);
      Store(ptr2, next);
      s2 := ram[..];
      s3 := Relink(ptr, ptr2, next);
    }
  }
}
