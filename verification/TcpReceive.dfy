// The receiving half of TCP: trimming, delivery and the queue `ooseq`.
module TcpReceive {
  import opened Words

  // Positions are unbounded here; module TcpReceiver ties them to the 32-bit
  // sequence numbers of lwip/tcp_in.c.

  /** A segment on `ooseq`: its position, its `len` field and the bytes of its pbuf chain. */
  datatype Seg = Seg(pos: int, len: u16, data: seq<u8>)

  /** `rcv_nxt`, `rcv_wnd` and `ooseq`. */
  datatype State = State(nxt: int, wnd: u16, queue: seq<Seg>)

  datatype Outcome = Outcome(state: State, bytes: seq<u8>)

  const TCP_WND: u16 := 512

  /** `pbuf_realloc`: shrinks a chain, and never grows it. */
  function Resized(data: seq<u8>, len: u16): seq<u8> {
    if len >= |data| then data else data[..len]
  }

  /** `seg->len = bound - seqno; pbuf_realloc(seg->p, seg->len)`. */
  function Cut(s: Seg, bound: int): Seg {
    var len := ToU16(bound - s.pos);
    Seg(s.pos, len, Resized(s.data, len))
  }

  /** Trims the end of a segment that reaches beyond `bound`. */
  function Clip(s: Seg, bound: int): Seg {
    if s.pos + s.len > bound then Cut(s, bound) else s
  }

  /** The walk along a nonempty `ooseq` from index `i`; `alloc` tells whether `tcp_seg_copy` finds memory. */
  function Walk(q: seq<Seg>, i: nat, s: Seg, alloc: bool): seq<Seg>
    decreases |q| - i
  {
    if i >= |q| then q
    else if s.pos == q[i].pos then
      if s.len > q[i].len && alloc then q[..i] + [s] + q[i + 1..] else q
    else if i == 0 && s.pos < q[i].pos then
      if alloc then q[..i] + [Clip(s, q[i].pos)] + q[i..] else q
    else if i > 0 && q[i - 1].pos < s.pos < q[i].pos then
      if alloc then q[..i - 1] + [Clip(q[i - 1], s.pos), Clip(s, q[i].pos)] + q[i..] else q
    else if i == |q| - 1 && s.pos > q[i].pos then
      if alloc then q[..i] + [Clip(q[i], s.pos), s] + q[i + 1..] else q
    else
      Walk(q, i + 1, s, alloc)
  }

  function Insert(q: seq<Seg>, s: Seg, alloc: bool): seq<Seg> {
    if q != [] then Walk(q, 0, s, alloc) else if alloc then [s] else []
  }

  function Shrunk(wnd: u16, len: u16): u16 {
    if wnd < len then 0 else wnd - len
  }

  /** The state once the head of the queue is handed up. */
  function AfterHead(st: State): State
    requires st.queue != []
  {
    State(st.nxt + st.queue[0].len, Shrunk(st.wnd, st.queue[0].len), st.queue[1..])
  }

  /** Hands up the segments at the head of `ooseq` that are now in sequence. */
  function Drain(st: State): Outcome
    decreases |st.queue|
  {
    if st.queue != [] && st.queue[0].pos == st.nxt then
      var rest := Drain(AfterHead(st));
      Outcome(rest.state, st.queue[0].data + rest.bytes)
    else
      Outcome(st, [])
  }

  /** The arriving segment after its first edge is trimmed to `rcv_nxt`. */
  function FrontTrimmed(nxt: int, pos: int, data: seq<u8>): Seg
    requires |data| < 0x1_0000
  {
    if pos < nxt < pos + |data| then Seg(nxt, |data| - (nxt - pos), data[nxt - pos..]) else Seg(pos, |data|, data)
  }

  /** The arriving segment cut at the first queued one, if it reaches that far. */
  function BackTrimmed(q: seq<Seg>, s: Seg): Seg {
    if q != [] && q[0].pos <= s.pos + s.len then Cut(s, q[0].pos) else s
  }

  /** The next segment in sequence: trimmed against the queue, delivered, and the queue drained behind it. */
  function InSequence(st: State, s: Seg): Outcome {
    var t := BackTrimmed(st.queue, s);
    var drained := Drain(State(st.nxt + t.len, Shrunk(st.wnd, t.len), st.queue));
    Outcome(drained.state, t.data + drained.bytes)
  }

  /** `tcp_receive` on a data segment that starts at position `pos`. */
  function Receive(st: State, pos: int, data: seq<u8>, alloc: bool): Outcome
    requires |data| < 0x1_0000
  {
    var s := FrontTrimmed(st.nxt, pos, data);
    if |data| == 0 || !(st.nxt <= s.pos < st.nxt + st.wnd) then Outcome(st, [])
    else if s.pos == st.nxt then InSequence(st, s)
    else Outcome(st.(queue := Insert(st.queue, s, alloc)), [])
  }

  // ----- The receiver's invariant

  ghost predicate Fits(s: Seg) {
    1 <= |s.data| == s.len
  }

  /** Segments are whole, in order and disjoint. */
  ghost predicate Ordered(q: seq<Seg>) {
    && (forall i :: 0 <= i < |q| ==> Fits(q[i]))
    && (forall i, j :: 0 <= i < j < |q| ==> q[i].pos + q[i].len <= q[j].pos)
  }

  /** Queued segments start at or above `lo`, and less than 2^16 above `rcv_nxt`. */
  ghost predicate Above(st: State, lo: int) {
    forall i :: 0 <= i < |st.queue| ==> lo <= st.queue[i].pos < st.nxt + 0x1_0000
  }

  /** `ooseq` is ordered and strictly above `rcv_nxt`: nothing in it is deliverable yet. */
  ghost predicate Tiled(st: State) {
    Ordered(st.queue) && Above(st, st.nxt + 1)
  }

  /** `data` placed at `pos` holds the sender's bytes. */
  ghost predicate Agrees(stream: int -> u8, pos: int, data: seq<u8>) {
    forall i :: 0 <= i < |data| ==> data[i] == stream(pos + i)
  }

  /** As `Agrees`, but only for the bytes from `nxt` on. */
  ghost predicate AgreesFrom(stream: int -> u8, nxt: int, pos: int, data: seq<u8>) {
    forall i :: 0 <= i < |data| && nxt <= pos + i ==> data[i] == stream(pos + i)
  }

  ghost predicate Buffered(stream: int -> u8, q: seq<Seg>) {
    forall i :: 0 <= i < |q| ==> Agrees(stream, q[i].pos, q[i].data)
  }

  /** The stretch [a, b) of the sender's stream. */
  ghost function Slice(stream: int -> u8, a: int, b: int): (s: seq<u8>)
    requires a <= b
  {
    seq(b - a, i => stream(a + i))
  }

  /** Where a segment at `pos` belongs: every segment before index `k` starts below it, no later one does. */
  ghost predicate Place(q: seq<Seg>, pos: int, k: nat) {
    && k <= |q|
    && (forall i :: 0 <= i < k ==> q[i].pos < pos)
    && (forall i :: k <= i < |q| ==> pos <= q[i].pos)
  }

  lemma PlaceExists(q: seq<Seg>, pos: int) returns (k: nat)
    requires forall i, j :: 0 <= i < j < |q| ==> q[i].pos <= q[j].pos
    ensures Place(q, pos, k)
  {
    k := 0;
    while k < |q| && q[k].pos < pos
      invariant k <= |q| && forall i :: 0 <= i < k ==> q[i].pos < pos
    {
      k := k + 1;
    }
  }

  /** The queue with the segment before index `k` trimmed to end at `bound`. */
  ghost function Trimmed(q: seq<Seg>, k: nat, bound: int): (r: seq<Seg>)
    requires k <= |q|
    ensures |r| == |q|
  {
    if k > 0 then q[k - 1 := Clip(q[k - 1], bound)] else q
  }

  /** A queue with `s` put in at index `k`, the neighbours trimmed to make room. */
  ghost function Placed(q: seq<Seg>, s: Seg, k: nat): seq<Seg>
    requires k <= |q|
  {
    if k < |q| && q[k].pos == s.pos then
      if s.len > q[k].len then q[k := s] else q
    else
      var t := Trimmed(q, k, s.pos);
      t[..k] + [if k < |q| then Clip(s, q[k].pos) else s] + t[k..]
  }

  /** On a sorted queue the walk puts the segment at its one place, or leaves the queue alone for want of memory. */
  lemma {:induction false} WalkFindsPlace(q: seq<Seg>, i: nat, s: Seg, alloc: bool, k: nat)
    requires Place(q, s.pos, k)
    requires i <= k && i < |q|
    ensures Walk(q, i, s, alloc) == if alloc then Placed(q, s, k) else q
    decreases |q| - i
  {
    if i < k && i + 1 < |q| {
      WalkFindsPlace(q, i + 1, s, alloc, k);
    } else if i < k {
      assert q[k - 1..] == [q[k - 1]] && q[k..] == [];
    }
  }

  lemma InsertFindsPlace(q: seq<Seg>, s: Seg, alloc: bool, k: nat)
    requires Place(q, s.pos, k)
    ensures Insert(q, s, alloc) == if alloc then Placed(q, s, k) else q
  {
    if q != [] {
      WalkFindsPlace(q, 0, s, alloc, k);
    }
  }

  /**
   * The arrival that the code mishandles: a longer resend of a queued segment that
   * reaches past the start of the next queued one replaces it untrimmed.
   */
  ghost predicate Overruns(st: State, pos: int, data: seq<u8>, alloc: bool) {
    && alloc
    && st.nxt < pos < st.nxt + st.wnd
    && exists k :: 0 <= k < |st.queue| - 1 && st.queue[k].pos == pos && st.queue[k + 1].pos < pos + |data|
  }

  /** Cutting a whole segment inside its extent leaves a whole segment that ends there. */
  lemma CutFits(s: Seg, bound: int, stream: int -> u8)
    requires Fits(s) && s.pos < bound <= s.pos + s.len
    ensures var c := Cut(s, bound); Fits(c) && c.pos == s.pos && c.pos + c.len == bound && c.data == s.data[..bound - s.pos]
    ensures Agrees(stream, s.pos, s.data) ==> Agrees(stream, s.pos, Cut(s, bound).data)
  {
  }

  lemma TrimmedTiled(st: State, k: nat, bound: int, stream: int -> u8)
    requires Tiled(st) && Place(st.queue, bound, k)
    ensures Tiled(st.(queue := Trimmed(st.queue, k, bound))) && Place(Trimmed(st.queue, k, bound), bound, k)
    ensures k > 0 ==> var t := Trimmed(st.queue, k, bound); t[k - 1].pos + t[k - 1].len <= bound
    ensures Buffered(stream, st.queue) ==> Buffered(stream, Trimmed(st.queue, k, bound))
  {
    if k > 0 && st.queue[k - 1].pos + st.queue[k - 1].len > bound { CutFits(st.queue[k - 1], bound, stream); }
  }

  /** A whole segment put into a gap that is wide enough. */
  lemma GapOrdered(q: seq<Seg>, s: Seg, k: nat)
    requires Ordered(q) && Fits(s) && k <= |q|
    requires k > 0 ==> q[k - 1].pos + q[k - 1].len <= s.pos
    requires k < |q| ==> s.pos + s.len <= q[k].pos
    ensures Ordered(q[..k] + [s] + q[k..])
  {
    var r := q[..k] + [s] + q[k..];
    forall i | 0 <= i < k ensures q[i].pos + q[i].len <= s.pos {
      if i < k - 1 { assert q[i].pos + q[i].len <= q[k - 1].pos; }
    }
    forall i | k <= i < |q| ensures s.pos + s.len <= q[i].pos {
      if k < i { assert q[k].pos + q[k].len <= q[i].pos; }
    }
    forall i | 0 <= i < |r| ensures Fits(r[i]) && r[i] == Picked(q, s, k, i) {}
    hide Fits;
    forall i, j | 0 <= i < j < |r| ensures r[i].pos + r[i].len <= r[j].pos {
      assert r[i] == Picked(q, s, k, i) && r[j] == Picked(q, s, k, j);
    }
  }

  /** The element at index `i` once `s` is put in at index `k`. */
  ghost function Picked(q: seq<Seg>, s: Seg, k: nat, i: nat): Seg
    requires k <= |q| && i <= |q|
  {
    if i < k then q[i] else if i == k then s else q[i - 1]
  }

  lemma GapTiled(st: State, s: Seg, k: nat, stream: int -> u8)
    requires Tiled(st) && Fits(s) && k <= |st.queue|
    requires st.nxt < s.pos < st.nxt + 0x1_0000
    requires k > 0 ==> st.queue[k - 1].pos + st.queue[k - 1].len <= s.pos
    requires k < |st.queue| ==> s.pos + s.len <= st.queue[k].pos
    ensures var q := st.queue[..k] + [s] + st.queue[k..];
            Tiled(st.(queue := q)) && (Buffered(stream, st.queue) && Agrees(stream, s.pos, s.data) ==> Buffered(stream, q))
  {
    GapOrdered(st.queue, s, k);
    GapBuffered(st, s, k, stream);
  }

  lemma GapBuffered(st: State, s: Seg, k: nat, stream: int -> u8)
    requires k <= |st.queue|
    ensures var q := st.queue[..k] + [s] + st.queue[k..];
            && (Above(st, st.nxt + 1) && st.nxt < s.pos < st.nxt + 0x1_0000 ==> Above(st.(queue := q), st.nxt + 1))
            && (Buffered(stream, st.queue) && Agrees(stream, s.pos, s.data) ==> Buffered(stream, q))
  {
    hide Agrees;
    var q := st.queue[..k] + [s] + st.queue[k..];
    assert forall i :: 0 <= i < |q| ==> q[i] == Picked(st.queue, s, k, i);
  }

  lemma PlacedTiled(st: State, s: Seg, k: nat, stream: int -> u8)
    requires Tiled(st) && Place(st.queue, s.pos, k) && Fits(s)
    requires st.nxt < s.pos < st.nxt + 0x1_0000
    requires k + 1 < |st.queue| && st.queue[k].pos == s.pos ==> s.pos + s.len <= st.queue[k + 1].pos
    ensures Tiled(st.(queue := Placed(st.queue, s, k)))
    ensures Buffered(stream, st.queue) && Agrees(stream, s.pos, s.data) ==> Buffered(stream, Placed(st.queue, s, k))
  {
    var q := st.queue;
    if k < |q| && q[k].pos == s.pos {
      if k + 1 < |q| {
        forall j | k + 1 < j < |q| ensures s.pos + s.len <= q[j].pos { assert q[k + 1].pos + q[k + 1].len <= q[j].pos; }
      }
    } else {
      TrimmedTiled(st, k, s.pos, stream);
      if k < |q| && s.pos + s.len > q[k].pos { CutFits(s, q[k].pos, stream); }
      GapTiled(st.(queue := Trimmed(q, k, s.pos)), if k < |q| then Clip(s, q[k].pos) else s, k, stream);
    }
  }

  // ----- What the queue holds after an insertion

  /** Some queued segment holds the byte at position `x`. */
  ghost predicate Covers(q: seq<Seg>, x: int) {
    exists i :: 0 <= i < |q| && q[i].pos <= x < q[i].pos + q[i].len
  }

  /** Some queued segment starts above `pos`, but not above `x`. */
  ghost predicate Beyond(q: seq<Seg>, pos: int, x: int) {
    exists i :: 0 <= i < |q| && pos < q[i].pos <= x
  }

  /**
   * Insertion holds on to everything below the new segment and from the next queued start on.
   * In between it keeps only the new segment and an old one with the same start: what an earlier
   * segment had there beyond the end of the new one is given up.
   */
  lemma PlacedCovers(st: State, s: Seg, k: nat, x: int)
    requires Tiled(st) && Place(st.queue, s.pos, k) && Fits(s)
    requires k + 1 < |st.queue| && st.queue[k].pos == s.pos ==> s.pos + s.len <= st.queue[k + 1].pos
    ensures var q := st.queue;
            Covers(Placed(q, s, k), x) <==>
            if x < s.pos || Beyond(q, s.pos, x) then Covers(q, x)
            else x < s.pos + s.len || (k < |q| && q[k].pos == s.pos && x < q[k].pos + q[k].len)
  {
    if k < |st.queue| && st.queue[k].pos == s.pos {
      CoversAtStart(st, s, k, x);
    } else {
      CoversInGap(st, s, k, x);
    }
  }

  lemma CoversAtStart(st: State, s: Seg, k: nat, x: int)
    requires Tiled(st) && Fits(s) && k < |st.queue| && st.queue[k].pos == s.pos
    requires k + 1 < |st.queue| ==> s.pos + s.len <= st.queue[k + 1].pos
    ensures var q := st.queue;
            Covers(Placed(q, s, k), x) <==>
            if x < s.pos || Beyond(q, s.pos, x) then Covers(q, x) else x < s.pos + s.len || x < q[k].pos + q[k].len
  {
    var q, r := st.queue, Placed(st.queue, s, k);
    assert |r| == |q| && forall i :: 0 <= i < |q| && i != k ==> r[i] == q[i];
    assert r[k].pos == s.pos && r[k].len == Max(s.len, q[k].len);
    CoversSplit(q, k, x);
    CoversSplit(r, k, x);
    ElseApart(q, k, s.pos + Max(s.len, q[k].len), x);
    assert CoversElse(q, k, x) <==> CoversElse(r, k, x);
    hide Placed, Fits, Tiled, Ordered, Covers, CoversElse, Beyond;
  }

  /** A segment other than the `k`-th holds `x`. */
  ghost predicate CoversElse(q: seq<Seg>, k: nat, x: int) {
    exists i :: 0 <= i < |q| && i != k && q[i].pos <= x < q[i].pos + q[i].len
  }

  lemma CoversSplit(q: seq<Seg>, k: nat, x: int)
    requires k < |q|
    ensures Covers(q, x) <==> CoversElse(q, k, x) || q[k].pos <= x < q[k].pos + q[k].len
  {
  }

  /** The others lie below the `k`-th segment, or beyond `end` if the next one does. */
  lemma ElseApart(q: seq<Seg>, k: nat, end: int, x: int)
    requires Ordered(q) && k < |q| && q[k].pos + q[k].len <= end && (k + 1 < |q| ==> end <= q[k + 1].pos)
    ensures CoversElse(q, k, x) ==> x < q[k].pos || Beyond(q, q[k].pos, x)
    ensures Beyond(q, q[k].pos, x) ==> end <= x
  {
    forall i | k < i < |q| ensures end <= q[i].pos {
      if k + 1 < i { InOrder(q, k + 1, i); }
    }
    forall i | 0 <= i < k ensures q[i].pos < q[i].pos + q[i].len <= q[k].pos { InOrder(q, i, k); }
    assert q[k].pos < end;
    hide Ordered;
    if CoversElse(q, k, x) && x >= q[k].pos {
      var i :| 0 <= i < |q| && i != k && q[i].pos <= x < q[i].pos + q[i].len;
      assert k < i && q[k].pos < q[i].pos <= x;
    }
  }

  /** The segments of the queue after an insertion into a gap, one by one. */
  lemma GapShape(q: seq<Seg>, s: Seg, k: nat)
    requires k <= |q| && (k < |q| ==> q[k].pos != s.pos)
    ensures var r := Placed(q, s, k);
            && |r| == |q| + 1
            && (forall i :: 0 <= i < k - 1 ==> r[i] == q[i])
            && (k > 0 ==> r[k - 1] == Clip(q[k - 1], s.pos))
            && r[k] == (if k < |q| then Clip(s, q[k].pos) else s)
            && (forall i :: k <= i < |q| ==> r[i + 1] == q[i])
  {
  }

  lemma ClipEnd(s: Seg, bound: int)
    requires Fits(s) && s.pos < bound
    ensures Clip(s, bound).pos == s.pos && s.pos + Clip(s, bound).len == Min(s.pos + s.len, bound)
  {
    if s.pos + s.len > bound { CutFits(s, bound, i => 0); }
  }

  /** A segment before the gap that held `x` still does, if `x` lies below the gap. */
  lemma StillCovered(st: State, s: Seg, k: nat, x: int, i: nat)
    requires Tiled(st) && Place(st.queue, s.pos, k) && (k < |st.queue| ==> st.queue[k].pos != s.pos)
    requires i < |st.queue| && st.queue[i].pos <= x < st.queue[i].pos + st.queue[i].len
    requires i < k ==> x < s.pos
    ensures Covers(Placed(st.queue, s, k), x)
  {
    var q, r := st.queue, Placed(st.queue, s, k);
    GapShape(q, s, k);
    if k > 0 { ClipEnd(q[k - 1], s.pos); }
    assert if i < k then r[i].pos <= x < r[i].pos + r[i].len else r[i + 1].pos <= x < r[i + 1].pos + r[i + 1].len;
  }

  lemma PlaceEdges(st: State, pos: int, k: nat)
    requires Tiled(st) && Place(st.queue, pos, k)
    ensures k <= |st.queue| && (k > 0 ==> st.queue[k - 1].pos < pos && Fits(st.queue[k - 1]))
    ensures k < |st.queue| ==> pos <= st.queue[k].pos
  {
  }

  /** What is held after the insertion was held before, or belongs to the new segment. */
  lemma OnlyCovered(st: State, s: Seg, k: nat, x: int, i: nat)
    requires Tiled(st) && Place(st.queue, s.pos, k) && Fits(s) && (k < |st.queue| ==> st.queue[k].pos != s.pos)
    requires var r := Placed(st.queue, s, k); i < |r| && r[i].pos <= x < r[i].pos + r[i].len
    ensures i < k ==> x < s.pos && Covers(st.queue, x)
    ensures i == k ==> s.pos <= x < s.pos + s.len && (k < |st.queue| ==> x < st.queue[k].pos)
    ensures i > k ==> k < |st.queue| && st.queue[k].pos <= x && Covers(st.queue, x)
  {
    hide Clip, Placed, Covers, Place, Ordered, Above;
    var q := st.queue;
    PlaceEdges(st, s.pos, k);
    GapShape(q, s, k);
    if 0 < k { ClipEnd(q[k - 1], s.pos); }
    if k < |q| { ClipEnd(s, q[k].pos); }
    if i < k {
      Holder(q, i, x);
      if i < k - 1 { InOrder(q, i, k - 1); }
    } else if i > k {
      Holder(q, i - 1, x);
      if k < i - 1 { InOrder(q, k, i - 1); }
    }
  }

  lemma Holder(q: seq<Seg>, i: nat, x: int)
    requires i < |q| && q[i].pos <= x < q[i].pos + q[i].len
    ensures Covers(q, x)
  {
  }

  lemma InOrder(q: seq<Seg>, i: nat, j: nat)
    requires Ordered(q) && i < j < |q|
    ensures q[i].pos < q[i].pos + q[i].len <= q[j].pos
  {
  }

  lemma CoversInGap(st: State, s: Seg, k: nat, x: int)
    requires Tiled(st) && Place(st.queue, s.pos, k) && Fits(s)
    requires k < |st.queue| ==> st.queue[k].pos != s.pos
    ensures var q := st.queue;
            Covers(Placed(q, s, k), x) <==>
            if x < s.pos || Beyond(q, s.pos, x) then Covers(q, x) else x < s.pos + s.len
  {
    hide Placed, Fits;
    var q, r := st.queue, Placed(st.queue, s, k);
    var beyond := k < |q| && q[k].pos <= x;
    assert Beyond(q, s.pos, x) <==> beyond by {
      if Beyond(q, s.pos, x) {
        var i :| 0 <= i < |q| && s.pos < q[i].pos <= x;
        if k < i { assert q[k].pos + q[k].len <= q[i].pos; }
      }
    }
    if Covers(r, x) {
      var i :| 0 <= i < |r| && r[i].pos <= x < r[i].pos + r[i].len;
      OnlyCovered(st, s, k, x, i);
    }
    assert beyond ==> forall i :: 0 <= i < k ==> q[i].pos + q[i].len <= q[k].pos;
    if (x < s.pos || beyond) && Covers(q, x) {
      var i :| 0 <= i < |q| && q[i].pos <= x < q[i].pos + q[i].len;
      StillCovered(st, s, k, x, i);
    }
    if s.pos <= x < s.pos + s.len && !beyond {
      GapShape(q, s, k);
      if k < |q| { ClipEnd(s, q[k].pos); }
      assert r[k].pos <= x < r[k].pos + r[k].len;
    }
  }

  // ----- One step

  lemma SliceJoins(stream: int -> u8, a: int, b: int, c: int)
    requires a <= b <= c
    ensures Slice(stream, a, b) + Slice(stream, b, c) == Slice(stream, a, c)
  {
  }

  /** The end of the first `m` queued segments, which start at `nxt` when there are any. */
  ghost function EndOf(q: seq<Seg>, m: nat, nxt: int): int
    requires m <= |q|
  {
    if m == 0 then nxt else q[m - 1].pos + q[m - 1].len
  }

  /** The first `m` queued segments abut one another from `nxt` on. */
  ghost predicate Abut(q: seq<Seg>, m: nat, nxt: int)
    requires m <= |q|
  {
    forall i :: 0 <= i < m ==> q[i].pos == EndOf(q, i, nxt)
  }

  lemma AbutStep(st: State, n: nat)
    requires st.queue != [] && st.queue[0].pos == st.nxt && n < |st.queue|
    requires Abut(AfterHead(st).queue, n, AfterHead(st).nxt)
    ensures Abut(st.queue, n + 1, st.nxt)
    ensures EndOf(AfterHead(st).queue, n, AfterHead(st).nxt) == EndOf(st.queue, n + 1, st.nxt)
    ensures AfterHead(st).queue[n..] == st.queue[n + 1..]
  {
    var next := AfterHead(st);
    forall i | 0 <= i < n + 1 ensures st.queue[i].pos == EndOf(st.queue, i, st.nxt) {
      if i > 0 { assert next.queue[i - 1].pos == EndOf(next.queue, i - 1, next.nxt); }
    }
  }

  lemma AfterHeadReady(st: State)
    requires Ordered(st.queue) && Above(st, st.nxt) && st.queue != [] && st.queue[0].pos == st.nxt
    ensures var next := AfterHead(st); Ordered(next.queue) && Above(next, next.nxt) && st.nxt < next.nxt
  {
    forall i | 1 <= i < |st.queue| ensures st.queue[0].pos + st.queue[0].len <= st.queue[i].pos { InOrder(st.queue, 0, i); }
  }

  /**
   * The drain takes the longest run of queued segments that abut one another from `rcv_nxt`
   * on, leaves the rest as they were, and moves `rcv_nxt` to the end of the run.
   */
  lemma {:induction false} DrainTakes(st: State) returns (m: nat)
    requires Ordered(st.queue) && Above(st, st.nxt)
    ensures var r := Drain(st).state;
            && m <= |st.queue| && r.queue == st.queue[m..] && r.nxt == EndOf(st.queue, m, st.nxt)
            && Abut(st.queue, m, st.nxt)
            && st.nxt <= r.nxt && Tiled(r)
    decreases |st.queue|
  {
    m := 0;
    if st.queue != [] && st.queue[0].pos == st.nxt {
      var next := AfterHead(st);
      AfterHeadReady(st);
      var n := DrainTakes(next);
      m := n + 1;
      AbutStep(st, n);
      assert Drain(st).state == Drain(next).state;
      hide Drain, Abut, EndOf, Ordered, Above;
    } else if st.queue != [] {
      assert forall i :: 0 < i < |st.queue| ==> st.queue[0].pos + st.queue[0].len <= st.queue[i].pos;
    }
  }

  /** What the drain hands up is exactly the stream from the old to the new `rcv_nxt`. */
  lemma {:induction false} DrainDelivers(st: State, stream: int -> u8)
    requires Ordered(st.queue) && Above(st, st.nxt) && Buffered(stream, st.queue)
    ensures var r := Drain(st);
            && st.nxt <= r.state.nxt && r.bytes == Slice(stream, st.nxt, r.state.nxt)
            && Buffered(stream, r.state.queue)
    decreases |st.queue|
  {
    if st.queue != [] && st.queue[0].pos == st.nxt {
      var head, next := st.queue[0], AfterHead(st);
      DrainDelivers(next, stream);
      SliceJoins(stream, st.nxt, next.nxt, Drain(next).state.nxt);
    }
  }

  /** Trimming the first edge yields a whole segment of the sender's bytes. */
  lemma FrontTrimmedAgrees(nxt: int, pos: int, data: seq<u8>, stream: int -> u8)
    requires 0 < |data| < 0x1_0000
    ensures var s := FrontTrimmed(nxt, pos, data);
            && Fits(s) && s.pos + s.len == pos + |data|
            && (nxt <= s.pos && AgreesFrom(stream, nxt, pos, data) ==> Agrees(stream, s.pos, s.data))
  {
  }

  lemma BackTrimmedReady(st: State, s: Seg, stream: int -> u8)
    requires Tiled(st) && Fits(s) && s.pos == st.nxt
    ensures var t := BackTrimmed(st.queue, s);
            && Fits(t) && t.pos == st.nxt && Above(State(st.nxt + t.len, 0, st.queue), st.nxt + t.len)
            && (Agrees(stream, s.pos, s.data) ==> Agrees(stream, t.pos, t.data))
            && (st.queue != [] && st.queue[0].pos <= s.pos + s.len ==> t.pos + t.len == st.queue[0].pos)
  {
    if st.queue != [] {
      assert forall i :: 0 < i < |st.queue| ==> st.queue[0].pos + st.queue[0].len <= st.queue[i].pos;
      if st.queue[0].pos <= s.pos + s.len { CutFits(s, st.queue[0].pos, stream); }
    }
  }

  /**
   * A segment in sequence moves `rcv_nxt` to the end of the data that is now contiguous:
   * the segment alone, or up to the first queued one and then as far as queued segments abut.
   */
  lemma InSequenceTakes(st: State, s: Seg) returns (m: nat)
    requires Tiled(st) && Fits(s) && s.pos == st.nxt
    ensures var r := InSequence(st, s).state;
            && m <= |st.queue| && r.queue == st.queue[m..]
            && (m > 0 <==> st.queue != [] && st.queue[0].pos <= s.pos + s.len)
            && r.nxt == EndOf(st.queue, m, s.pos + s.len)
            && (m > 0 ==> Abut(st.queue, m, st.queue[0].pos))
            && st.nxt < r.nxt && Tiled(r)
  {
    hide Cut, Shrunk, Fits, Agrees, Drain, Ordered;
    BackTrimmedReady(st, s, i => 0);
    var t := BackTrimmed(st.queue, s);
    var next := State(st.nxt + t.len, Shrunk(st.wnd, t.len), st.queue);
    assert Above(next, next.nxt);
    m := DrainTakes(next);
    hide Tiled, Ordered, Above;
    if m > 0 { assert st.queue[0].pos == EndOf(st.queue, 0, next.nxt); }
  }

  lemma InSequenceDelivers(st: State, s: Seg, stream: int -> u8)
    requires Tiled(st) && Fits(s) && s.pos == st.nxt
    requires Buffered(stream, st.queue) && Agrees(stream, s.pos, s.data)
    ensures var r := InSequence(st, s);
            && st.nxt <= r.state.nxt && r.bytes == Slice(stream, st.nxt, r.state.nxt)
            && Buffered(stream, r.state.queue)
  {
    BackTrimmedReady(st, s, stream);
    var t := BackTrimmed(st.queue, s);
    var next := State(st.nxt + t.len, Shrunk(st.wnd, t.len), st.queue);
    DrainDelivers(next, stream);
    SliceJoins(stream, st.nxt, next.nxt, Drain(next).state.nxt);
  }

  /** Every arrival hands up exactly the stream between the old and the new `rcv_nxt`, and keeps the queue ordered. */
  lemma ReceiveDelivers(st: State, pos: int, data: seq<u8>, alloc: bool, stream: int -> u8)
    requires |data| < 0x1_0000
    requires Tiled(st) && !Overruns(st, pos, data, alloc)
    ensures var r := Receive(st, pos, data, alloc);
            && st.nxt <= r.state.nxt && Tiled(r.state)
            && (Buffered(stream, st.queue) && AgreesFrom(stream, st.nxt, pos, data) ==>
                  r.bytes == Slice(stream, st.nxt, r.state.nxt) && Buffered(stream, r.state.queue))
            && (st.nxt < r.state.nxt <==> pos <= st.nxt < pos + |data| && 0 < st.wnd)
  {
    if |data| != 0 {
      FrontTrimmedAgrees(st.nxt, pos, data, stream);
      var s := FrontTrimmed(st.nxt, pos, data);
      if s.pos == st.nxt && 0 < st.wnd {
        var m := InSequenceTakes(st, s);
        if Buffered(stream, st.queue) && Agrees(stream, s.pos, s.data) { InSequenceDelivers(st, s, stream); }
      } else if st.nxt < s.pos < st.nxt + st.wnd {
        var k := PlaceExists(st.queue, s.pos);
        InsertFindsPlace(st.queue, s, alloc, k);
        if alloc { PlacedTiled(st, s, k, stream); }
      }
    }
  }

  /** `t` starts where `u` does and ends no later. */
  predicate Within(t: Seg, u: Seg) {
    t.pos == u.pos && t.pos + t.len <= u.pos + u.len
  }

  lemma GapOrigins(q: seq<Seg>, s: Seg, k: nat, i: nat)
    requires k <= |q| && (k < |q| ==> s.pos < q[k].pos) && (k > 0 ==> q[k - 1].pos < s.pos)
    requires Fits(s) && (forall j :: 0 <= j < |q| ==> Fits(q[j])) && i <= |q|
    ensures var t := Placed(q, s, k)[i]; Within(t, s) || exists u :: u in q && Within(t, u)
  {
    GapShape(q, s, k);
    var t := Placed(q, s, k)[i];
    if k < |q| { ClipEnd(s, q[k].pos); }
    if k > 0 { ClipEnd(q[k - 1], s.pos); }
    hide Clip, Placed;
    if i != k {
      var u := q[if i < k then i else i - 1];
      assert Within(t, u) && u in q;
    }
  }

  lemma PlacedOrigins(st: State, s: Seg, k: nat, t: Seg)
    requires Tiled(st) && Place(st.queue, s.pos, k) && Fits(s) && t in Placed(st.queue, s, k)
    ensures Within(t, s) || exists u :: u in st.queue && Within(t, u)
  {
    var q, r := st.queue, Placed(st.queue, s, k);
    var i :| 0 <= i < |r| && r[i] == t;
    if k < |q| && q[k].pos == s.pos {
      assert t == s || t == q[i];
      assert Within(t, t);
    } else {
      GapShape(q, s, k);
      GapOrigins(q, s, k, i);
    }
  }

  /** What is queued after an arrival was queued before or has just arrived, possibly cut short. */
  lemma QueueOrigins(st: State, pos: int, data: seq<u8>, alloc: bool, t: Seg)
    requires |data| < 0x1_0000 && Tiled(st) && t in Receive(st, pos, data, alloc).state.queue
    ensures Within(t, Seg(pos, |data|, data)) || exists u :: u in st.queue && Within(t, u)
  {
    var s := FrontTrimmed(st.nxt, pos, data);
    if |data| != 0 && s.pos == st.nxt && 0 < st.wnd {
      FrontTrimmedAgrees(st.nxt, pos, data, i => 0);
      var m := InSequenceTakes(st, s);
      assert t in st.queue;
    } else if |data| != 0 && st.nxt < s.pos < st.nxt + st.wnd {
      var k := PlaceExists(st.queue, s.pos);
      InsertFindsPlace(st.queue, s, alloc, k);
      if alloc { PlacedOrigins(st, s, k, t); }
    }
  }

  /** The overrunning segment stands in the queue as it arrived. */
  lemma OverrunPlaced(st: State, pos: int, data: seq<u8>, k: nat)
    requires |data| < 0x1_0000 && Tiled(st) && st.nxt < pos < st.nxt + st.wnd
    requires k + 1 < |st.queue| && st.queue[k].pos == pos && st.queue[k + 1].pos < pos + |data|
    ensures Receive(st, pos, data, true).state.queue == st.queue[k := Seg(pos, |data|, data)]
  {
    InOrder(st.queue, k, k + 1);
    assert Place(st.queue, pos, k);
    InsertFindsPlace(st.queue, Seg(pos, |data|, data), true, k);
    hide Tiled, Insert;
  }

  /** An overrun leaves two queued segments overlapping. */
  lemma OverrunBreaksOrder(st: State, pos: int, data: seq<u8>, alloc: bool)
    requires |data| < 0x1_0000 && Tiled(st) && Overruns(st, pos, data, alloc)
    ensures !Tiled(Receive(st, pos, data, alloc).state)
  {
    hide Receive, Fits, Above;
    var k :| 0 <= k < |st.queue| - 1 && st.queue[k].pos == pos && st.queue[k + 1].pos < pos + |data|;
    OverrunPlaced(st, pos, data, k);
    var q := Receive(st, pos, data, alloc).state.queue;
    assert q[k].pos + q[k].len > q[k + 1].pos;
  }

  /** The queue stays in order exactly when the arrival is not an untrimmed longer resend. */
  lemma OrderKeptIffNoOverrun(st: State, pos: int, data: seq<u8>, alloc: bool)
    requires |data| < 0x1_0000 && Tiled(st)
    ensures Tiled(Receive(st, pos, data, alloc).state) <==> !Overruns(st, pos, data, alloc)
  {
    if Overruns(st, pos, data, alloc) {
      OverrunBreaksOrder(st, pos, data, alloc);
    } else {
      ReceiveDelivers(st, pos, data, alloc, i => 0);
    }
  }

  /** A segment with nothing new, or with nothing for the window, changes nothing and hands nothing up. */
  lemma ReceiveIgnores(st: State, pos: int, data: seq<u8>, alloc: bool)
    requires |data| < 0x1_0000
    requires data == [] || pos + |data| <= st.nxt || st.nxt + st.wnd <= pos || st.wnd == 0
    ensures Receive(st, pos, data, alloc) == Outcome(st, [])
  {
  }

  /** The drain takes from the window what it hands up, down to nothing. */
  lemma {:induction false} DrainWindow(st: State)
    requires Ordered(st.queue) && Above(st, st.nxt)
    ensures var r := Drain(st).state; r.wnd == Max(0, st.wnd - (r.nxt - st.nxt)) && st.nxt <= r.nxt
    decreases |st.queue|
  {
    if st.queue != [] && st.queue[0].pos == st.nxt {
      AfterHeadReady(st);
      hide Ordered, Above;
      DrainWindow(AfterHead(st));
    }
  }

  /**
   * A segment that is due: `rcv_nxt` moves to its end, or, if it reaches the queue, to the end of the queued
   * segments that abut from there on; these leave the queue, and the window shrinks by what was handed up.
   */
  lemma ReceiveTakes(st: State, pos: int, data: seq<u8>, alloc: bool) returns (m: nat)
    requires |data| < 0x1_0000 && Tiled(st) && pos <= st.nxt < pos + |data| && 0 < st.wnd
    ensures var q, r := st.queue, Receive(st, pos, data, alloc);
            && m <= |q| && r.state.queue == q[m..]
            && (m > 0 <==> q != [] && q[0].pos <= pos + |data|)
            && (m > 0 ==> Abut(q, m, q[0].pos))
            && r.state.nxt == EndOf(q, m, pos + |data|)
            && (m < |q| ==> r.state.nxt < q[m].pos)
            && r.state.wnd == Max(0, st.wnd - (r.state.nxt - st.nxt))
  {
    var s := FrontTrimmed(st.nxt, pos, data);
    FrontTrimmedAgrees(st.nxt, pos, data, i => 0);
    m := InSequenceTakes(st, s);
    InSequenceWindow(st, s);
    hide InSequence, FrontTrimmed, Abut, Fits, Ordered;
    assert m < |st.queue| ==> Receive(st, pos, data, alloc).state.queue[0] == st.queue[m];
  }

  lemma InSequenceWindow(st: State, s: Seg)
    requires Tiled(st) && Fits(s) && s.pos == st.nxt
    ensures var r := InSequence(st, s).state; r.wnd == Max(0, st.wnd - (r.nxt - st.nxt))
  {
    BackTrimmedReady(st, s, i => 0);
    hide BackTrimmed, Fits, Ordered;
    var t := BackTrimmed(st.queue, s);
    DrainWindow(State(st.nxt + t.len, Shrunk(st.wnd, t.len), st.queue));
  }

  /** The queued segment that starts at `pos`, if there is one, holds the byte at `x`. */
  ghost predicate StartsOver(q: seq<Seg>, pos: int, x: int) {
    exists i :: 0 <= i < |q| && q[i].pos == pos && x < pos + q[i].len
  }

  /**
   * A segment ahead of its turn is queued if there is memory for it: byte for byte, the queue then holds what it
   * held below the segment and from the next queued start on, and in between what the segment brings.
   */
  lemma ReceiveQueues(st: State, pos: int, data: seq<u8>, alloc: bool, x: int)
    requires |data| < 0x1_0000 && data != [] && Tiled(st) && st.nxt < pos < st.nxt + st.wnd
    requires !Overruns(st, pos, data, alloc)
    ensures var q, r := st.queue, Receive(st, pos, data, alloc);
            && r.bytes == [] && r.state.nxt == st.nxt && r.state.wnd == st.wnd && (!alloc ==> r.state.queue == q)
            && (alloc ==> (Covers(r.state.queue, x) <==>
                           if x < pos || Beyond(q, pos, x) then Covers(q, x)
                           else x < pos + |data| || StartsOver(q, pos, x)))
  {
    var s := Seg(pos, |data|, data);
    var k := PlaceExists(st.queue, pos);
    InsertFindsPlace(st.queue, s, alloc, k);
    if alloc {
      StartAtPlace(st, pos, k, x);
      if k + 1 < |st.queue| && st.queue[k].pos == pos { OverrunsAt(st, pos, data, k); }
      hide Placed, Insert, Covers, Beyond, Overruns, StartsOver;
      PlacedCovers(st, s, k, x);
    }
  }

  /** Only the segment at the place of `pos` can start there. */
  lemma StartAtPlace(st: State, pos: int, k: nat, x: int)
    requires Tiled(st) && Place(st.queue, pos, k)
    ensures StartsOver(st.queue, pos, x) <==> k < |st.queue| && st.queue[k].pos == pos && x < pos + st.queue[k].len
  {
    forall i | k < i < |st.queue| ensures pos < st.queue[i].pos { InOrder(st.queue, k, i); }
  }

  lemma OverrunsAt(st: State, pos: int, data: seq<u8>, k: nat)
    requires !Overruns(st, pos, data, true) && st.nxt < pos < st.nxt + st.wnd
    requires k + 1 < |st.queue| && st.queue[k].pos == pos
    ensures pos + |data| <= st.queue[k + 1].pos
  {
  }

  /** An arrival adds one segment to the queue at most, and only if there is memory for it. */
  lemma QueueGrowsByOne(st: State, pos: int, data: seq<u8>, alloc: bool)
    requires |data| < 0x1_0000
    ensures |Receive(st, pos, data, alloc).state.queue| <= |st.queue| + if alloc then 1 else 0
  {
    var s := FrontTrimmed(st.nxt, pos, data);
    hide Clip, Drain;
    WalkGrows(st.queue, 0, s, alloc);
    forall t: State ensures |Drain(t).state.queue| <= |t.queue| { DrainShrinks(t); }
  }

  lemma {:induction false} WalkGrows(q: seq<Seg>, i: nat, s: Seg, alloc: bool)
    ensures |Walk(q, i, s, alloc)| <= |q| + if alloc then 1 else 0
    decreases |q| - i
  {
    if i < |q| { WalkGrows(q, i + 1, s, alloc); }
  }

  lemma {:induction false} DrainShrinks(st: State)
    ensures |Drain(st).state.queue| <= |st.queue|
    decreases |st.queue|
  {
    if st.queue != [] { DrainShrinks(AfterHead(st)); }
  }

  // ----- Whole runs

  /** What happens to a receiver: a segment arrives, the application reads, or a timeout drops `ooseq`. */
  datatype Event =
    | Arrive(seqno: u32, data: seq<u8>, alloc: bool)
    | Recved(len: u16)
    | DropQueue

  type Segment = e: Event | e.Arrive? ==> |e.data| < 0x1_0000 witness DropQueue

  /** The position a segment has for this receiver. */
  function PosOf(st: State, e: Segment): int
    requires e.Arrive?
  {
    Nearest(st.nxt, e.seqno)
  }

  function Step(st: State, e: Segment): Outcome {
    match e
    case Arrive(_, data, alloc) => Receive(st, PosOf(st, e), data, alloc)
    case Recved(len) => Outcome(st.(wnd := if st.wnd + len > TCP_WND then TCP_WND else st.wnd + len), [])
    case DropQueue => Outcome(st.(queue := []), [])
  }

  /** What the application has read is window again, up to TCP_WND; nothing else changes. */
  lemma RecvedOpens(st: State, len: u16)
    ensures var r := Step(st, Recved(len)); r.bytes == [] && r.state == st.(wnd := Min(TCP_WND, st.wnd + len))
  {
  }

  function Run(st: State, es: seq<Segment>): Outcome
    decreases |es|
  {
    if es == [] then Outcome(st, [])
    else
      var first := Step(st, es[0]);
      var rest := Run(first.state, es[1..]);
      Outcome(rest.state, first.bytes + rest.bytes)
  }

  /** Every segment of the run carries the sender's bytes, in any order, overlapping or repeated. */
  ghost predicate Truthful(st: State, es: seq<Segment>, stream: int -> u8)
    decreases |es|
  {
    es == [] ||
    (&& (es[0].Arrive? ==> AgreesFrom(stream, st.nxt, PosOf(st, es[0]), es[0].data))
     && Truthful(Step(st, es[0]).state, es[1..], stream))
  }

  ghost predicate OverrunFree(st: State, es: seq<Segment>)
    decreases |es|
  {
    es == [] ||
    (&& !(es[0].Arrive? && Overruns(st, PosOf(st, es[0]), es[0].data, es[0].alloc))
     && OverrunFree(Step(st, es[0]).state, es[1..]))
  }

  /**
   * Over every run the application is handed exactly the sender's stream from the first
   * `rcv_nxt` to the last: no gap, no repetition, whatever the order of arrival.
   */
  lemma {:induction false} RunDeliversStream(st: State, es: seq<Segment>, stream: int -> u8)
    requires Tiled(st) && Buffered(stream, st.queue)
    requires Truthful(st, es, stream) && OverrunFree(st, es)
    ensures var r := Run(st, es);
            && st.nxt <= r.state.nxt && r.bytes == Slice(stream, st.nxt, r.state.nxt)
            && Tiled(r.state) && Buffered(stream, r.state.queue)
    decreases |es|
  {
    if es != [] {
      if es[0].Arrive? { ReceiveDelivers(st, PosOf(st, es[0]), es[0].data, es[0].alloc, stream); }
      var next := Step(st, es[0]).state;
      RunDeliversStream(next, es[1..], stream);
      SliceJoins(stream, st.nxt, next.nxt, Run(next, es[1..]).state.nxt);
    }
  }

  lemma {:induction false} ZerosTruthful(st: State, es: seq<Segment>)
    requires forall e :: e in es && e.Arrive? ==> e.data == Zeros(|e.data|)
    ensures Truthful(st, es, i => 0)
    decreases |es|
  {
    if es != [] { ZerosTruthful(Step(st, es[0]).state, es[1..]); }
  }

  lemma RunUnfolds(st: State, es: seq<Segment>)
    requires es != []
    ensures var first := Step(st, es[0]);
            var rest := Run(first.state, es[1..]);
            Run(st, es) == Outcome(rest.state, first.bytes + rest.bytes)
  {
  }

  lemma OverrunStep1(a: Seg, b: Seg, c: Seg)
    requires a == Seg(10, 2, Zeros(2)) && b == Seg(20, 2, Zeros(2)) && c == Seg(10, 20, Zeros(20))
    ensures Receive(State(0, TCP_WND, [a, b]), 10, Zeros(20), true) == Outcome(State(0, TCP_WND, [c, b]), [])
  {
    InsertFindsPlace([a, b], c, true, 0);
  }

  lemma OverrunStep2(b: Seg, c: Seg)
    requires b == Seg(20, 2, Zeros(2)) && c == Seg(10, 20, Zeros(20))
    ensures var r := Receive(State(0, TCP_WND, [c, b]), 0, Zeros(10), true);
            r.state == State(30, 482, [b]) && |r.bytes| == 30
  {
    assert Drain(State(30, 482, [b])) == Outcome(State(30, 482, [b]), []);
    var st := State(10, 502, [c, b]);
    assert AfterHead(st) == State(30, 482, [b]);
  }

  lemma OverrunStep3(b: Seg, es: seq<Segment>)
    requires b == Seg(20, 2, Zeros(2)) && es == [Arrive(30, Zeros(1), true)]
    ensures var r := Run(State(30, 482, [b]), es); r.state == State(65556, 0, [b]) && |r.bytes| == 1
  {
    var st := State(30, 482, [b]);
    assert Step(st, es[0]).state == State(65556, 0, [b]) && |Step(st, es[0]).bytes| == 1;
    RunUnfolds(st, es);
    assert es[1..] == [];
  }

  lemma OverrunSteps23(b: Seg, c: Seg, es: seq<Segment>)
    requires b == Seg(20, 2, Zeros(2)) && c == Seg(10, 20, Zeros(20))
    requires es == [Arrive(0, Zeros(10), true), Arrive(30, Zeros(1), true)]
    ensures var r := Run(State(0, TCP_WND, [c, b]), es); r.state == State(65556, 0, [b]) && |r.bytes| == 31
  {
    OverrunStep2(b, c);
    OverrunStep3(b, es[1..]);
    RunUnfolds(State(0, TCP_WND, [c, b]), es);
  }

  lemma OverrunStart(st: State)
    requires st == State(0, TCP_WND, [Seg(10, 2, Zeros(2)), Seg(20, 2, Zeros(2))])
    ensures Tiled(st) && Buffered(i => 0, st.queue)
  {
  }

  lemma OverrunRun(st: State, es: seq<Segment>)
    requires st == State(0, TCP_WND, [Seg(10, 2, Zeros(2)), Seg(20, 2, Zeros(2))])
    requires es == [Arrive(10, Zeros(20), true), Arrive(0, Zeros(10), true), Arrive(30, Zeros(1), true)]
    ensures |Run(st, es).bytes| == 31 && Run(st, es).state.nxt == 65556
  {
    var a, b, c := Seg(10, 2, Zeros(2)), Seg(20, 2, Zeros(2)), Seg(10, 20, Zeros(20));
    OverrunStep1(a, b, c);
    assert Step(st, es[0]) == Outcome(State(0, TCP_WND, [c, b]), []);
    OverrunSteps23(b, c, es[1..]);
    RunUnfolds(st, es);
  }

  /**
   * The overrun at work, on a stream of zeros: with [10,12) and [20,22) queued, [10,30) replaces
   * the first untrimmed, then [0,10) and [30,31) arrive.  31 bytes are handed up, and `rcv_nxt`
   * stands at 65556, because the length of the last segment was cut to 20 - 30 modulo 2^16.
   */
  lemma OverrunLosesCount(st: State, es: seq<Segment>)
    requires st == State(0, TCP_WND, [Seg(10, 2, Zeros(2)), Seg(20, 2, Zeros(2))])
    requires es == [Arrive(10, Zeros(20), true), Arrive(0, Zeros(10), true), Arrive(30, Zeros(1), true)]
    ensures Tiled(st) && Buffered(i => 0, st.queue) && Truthful(st, es, i => 0)
    ensures |Run(st, es).bytes| == 31 && Run(st, es).state.nxt == 65556
  {
    hide Run, Truthful, Tiled, Buffered, Step;
    OverrunStart(st);
    ZerosTruthful(st, es);
    OverrunRun(st, es);
  }
}
