// The sending half of TCP: `unsent` and `unacked`, over unbounded positions.
module TcpSend {
  import opened Words

  // The queues of lwip/tcp_out.c and lwip/tcp_in.c are filled by `tcp_enqueue`,
  // moved by `tcp_output` and `tcp_rexmit`, and emptied by acknowledgements.
  // Module TcpSender ties the positions to 32-bit sequence numbers.

  /** One unit of sequence space: a byte, or the SYN or FIN of a control segment. */
  datatype Token = Byte(b: u8) | Control

  /** A queued segment; `pbufs` is the length of its pbuf chain. */
  datatype Seg = Seg(pos: int, data: seq<u8>, ctl: bool, pbufs: nat) {
    /** `TCP_TCPLEN` */
    function Span(): nat { |data| + if ctl then 1 else 0 }
    function End(): int { pos + Span() }
  }

  /** `lastack`, `snd_nxt`, `snd_max`, `snd_lbb`, `snd_buf`, `snd_queuelen` and the two queues. */
  datatype State = State(una: int, nxt: int, max: int, lbb: int, buf: u16, qlen: u8,
                         unacked: seq<Seg>, unsent: seq<Seg>)
  {
    function Queue(): seq<Seg> { unacked + unsent }
  }

  const TCP_SND_BUF := 256
  const TCP_MSS := 128
  /** `4 * TCP_SND_BUF/TCP_MSS` */
  const TCP_SND_QUEUELEN := 4 * TCP_SND_BUF / TCP_MSS

  /** A fresh control block with initial sequence number `iss`. */
  function Fresh(iss: int): State {
    State(iss, iss, iss, iss, TCP_SND_BUF, 0, [], [])
  }

  /** What `tcp_enqueue` is given: tcp_write passes data and no flag, tcp_send_ctrl a SYN or FIN and no data. */
  datatype Request = Request(data: seq<u8>, ctl: bool, pbufs: nat) {
    predicate Valid() { |data| < 0x1_0000 && (ctl <==> data == []) && 1 <= pbufs <= 2 }
    function Span(): nat { |data| + if ctl then 1 else 0 }
  }

  /** The data cut into segments of at most `mss` bytes. */
  function Split(pos: int, r: Request, mss: u16): seq<Seg>
    requires mss > 0
    decreases |r.data|
  {
    if |r.data| <= mss then [Seg(pos, r.data, r.ctl, r.pbufs)]
    else [Seg(pos, r.data[..mss], r.ctl, r.pbufs)] + Split(pos + mss, r.(data := r.data[mss..]), mss)
  }

  predicate Merges(unsent: seq<Seg>, first: Seg, mss: u16) {
    unsent != [] &&
    var last := unsent[|unsent| - 1];
    last.Span() != 0 && !last.ctl && !first.ctl && |last.data| + |first.data| <= mss
  }

  function Merged(last: Seg, first: Seg): Seg {
    last.(data := last.data + first.data, pbufs := last.pbufs + first.pbufs)
  }

  /** New segments joined to the end of `unsent`; the first is chained to the last one there if both fit in one. */
  function Append(unsent: seq<Seg>, segs: seq<Seg>, mss: u16): seq<Seg>
    requires segs != []
  {
    if Merges(unsent, segs[0], mss) then
      unsent[..|unsent| - 1] + [Merged(unsent[|unsent| - 1], segs[0])] + segs[1..]
    else unsent + segs
  }

  /** Whether `tcp_enqueue` takes the request; `room` is the number of segments there is memory for. */
  predicate Accepts(st: State, r: Request, mss: u16, room: nat)
    requires mss > 0
  {
    var n := |Split(st.lbb, r, mss)|;
    && |r.data| <= st.buf
    && st.qlen < TCP_SND_QUEUELEN
    && st.qlen + n * r.pbufs <= TCP_SND_QUEUELEN
    && n <= room
  }

  function Enqueue(st: State, r: Request, mss: u16, room: nat): State
    requires mss > 0
  {
    if !Accepts(st, r, mss, room) then st
    else
      var segs := Split(st.lbb, r, mss);
      st.(unsent := Append(st.unsent, segs, mss), lbb := st.lbb + r.Span(), buf := ToU16(st.buf - r.Span()),
          qlen := st.qlen + |segs| * r.pbufs)
  }

  /** The head of `unsent` goes out. */
  function SendHead(st: State): State
    requires st.unsent != []
  {
    var seg := st.unsent[0];
    st.(unsent := st.unsent[1..], nxt := seg.End(), max := Max(st.max, seg.End()),
        unacked := if seg.Span() > 0 then st.unacked + [seg] else st.unacked)
  }

  predicate Sendable(st: State, wnd: u32) {
    st.unsent != [] && st.unsent[0].pos - st.una + |st.unsent[0].data| <= wnd
  }

  /** The send loop of `tcp_output`: the new state and the segments put on the wire. */
  function Output(st: State, wnd: u32): (State, seq<Seg>)
    decreases |st.unsent|
  {
    if Sendable(st, wnd) then
      var rest := Output(SendHead(st), wnd);
      (rest.0, [st.unsent[0]] + rest.1)
    else (st, [])
  }

  /** The relinking of `tcp_rexmit`, before it calls `tcp_output`. */
  function Requeue(st: State): State {
    if st.unacked == [] then st
    else st.(unsent := st.unacked + st.unsent, unacked := [], nxt := st.unacked[0].pos)
  }

  function Pbufs(q: seq<Seg>): nat {
    if q == [] then 0 else q[0].pbufs + Pbufs(q[1..])
  }

  /** The head of `unacked` is freed. */
  function PopUnacked(st: State): State
    requires st.unacked != []
  {
    st.(unacked := st.unacked[1..], qlen := ToU8(st.qlen - st.unacked[0].pbufs))
  }

  /** The head of `unsent` is freed; `snd_nxt` follows the queue as long as there is one. */
  function PopUnsent(st: State): State
    requires st.unsent != []
  {
    st.(unsent := st.unsent[1..], qlen := ToU8(st.qlen - st.unsent[0].pbufs),
        nxt := if |st.unsent| > 1 then st.unsent[1].pos else st.nxt)
  }

  /** The removal of acknowledged segments from `unacked`. */
  function DropUnacked(st: State, ack: int): State
    decreases |st.unacked|
  {
    if st.unacked != [] && st.unacked[0].End() <= ack then
      DropUnacked(PopUnacked(st), ack)
    else st
  }

  /** The same for `unsent`. */
  function DropUnsent(st: State, ack: int): State
    decreases |st.unsent|
  {
    if st.unsent != [] && st.unsent[0].End() <= ack then
      DropUnsent(PopUnsent(st), ack)
    else st
  }

  /** Up to the loop over `unsent`: a duplicate may requeue, new data retires segments of `unacked`. */
  function AckUnacked(st: State, ack: int, fast: bool): State {
    if ack == st.una then if fast then Requeue(st) else st
    else if st.una < ack <= st.max then
      DropUnacked(st.(una := ack, buf := ToU16(st.buf + ToU16(ack - st.una))), ack)
    else st
  }

  /** An acknowledgement of position `ack`; `fast` on the duplicate that starts a fast retransmit. */
  function Ack(st: State, ack: int, fast: bool): State {
    var s := AckUnacked(st, ack, fast);
    if ack <= s.max then DropUnsent(s, ack) else s
  }

  // ----- What an acknowledgement number does

  /** `TCP_SEQ_LEQ` on the words of two positions. */
  predicate WordsLeq(a: int, b: int) {
    SeqLeq(ToU32(a), ToU32(b))
  }

  /** The loop over `unacked`, with its comparison on words. */
  function FreeUnacked(st: State, ack: int): State
    decreases |st.unacked|
  {
    if st.unacked != [] && WordsLeq(st.unacked[0].End(), ack) then
      FreeUnacked(PopUnacked(st), ack)
    else st
  }

  /** The guard of the loop over `unsent`, on words. */
  predicate Frees(end: int, ack: int, max: int) {
    WordsLeq(end, ack) && WordsLeq(ack, max)
  }

  /** The loop over `unsent`, with its comparisons on words. */
  function FreeUnsent(st: State, ack: int): State
    decreases |st.unsent|
  {
    if st.unsent != [] && Frees(st.unsent[0].End(), ack, st.max) then
      FreeUnsent(PopUnsent(st), ack)
    else st
  }

  /** The test for an acknowledgement of new data, on words. */
  predicate Newer(una: int, ack: int, max: int) {
    SeqLt(ToU32(una), ToU32(ack)) && WordsLeq(ack, max)
  }

  /** What `tcp_receive` does about any acknowledgement number, before its loop over `unsent`. */
  function RetireUnacked(st: State, ack: int, fast: bool): State {
    if ack == st.una then if fast then Requeue(st) else st
    else if Newer(st.una, ack, st.max) then
      FreeUnacked(st.(una := ack, buf := ToU16(st.buf + ToU16(ack - st.una))), ack)
    else st
  }

  /** What `tcp_receive` does about any acknowledgement number. */
  function Acknowledged(st: State, ackno: u32, fast: bool): State {
    var ack := Nearest(st.una, ackno);
    FreeUnsent(RetireUnacked(st, ack, fast), ack)
  }

  /**
   * An acknowledgement number that the comparisons on words take for an acknowledgement of segments that
   * were never sent: half the sequence space behind `snd_max`, or up to as far behind the end of `unsent`'s head.
   */
  predicate Misread(st: State, ackno: u32) {
    var ack := Nearest(st.una, ackno);
    || (ack == st.una - 0x8000_0000 && st.max == st.una)
    || (st.unsent != [] && st.max - 0x8000_0000 <= ack <= st.unsent[0].End() - 0x8000_0000)
  }

  // ----- What the queues hold

  /** Segments of nonzero length that follow one another from `from` to `to`. */
  ghost predicate Tiles(q: seq<Seg>, from: int, to: int)
    decreases |q|
  {
    if q == [] then from == to
    else q[0].pos == from && q[0].Span() > 0 && Tiles(q[1..], q[0].End(), to)
  }

  lemma {:induction false} TilesJoin(p: seq<Seg>, q: seq<Seg>, a: int, b: int, c: int)
    requires Tiles(p, a, b) && Tiles(q, b, c)
    ensures Tiles(p + q, a, c)
    decreases |p|
  {
    if p == [] {
      assert p + q == q;
    } else {
      TilesJoin(p[1..], q, p[0].End(), b, c);
      assert (p + q)[1..] == p[1..] + q;
    }
  }

  /** Splitting a tiling after `n` segments. */
  lemma {:induction false} TilesSplit(q: seq<Seg>, n: nat, a: int, c: int) returns (b: int)
    requires Tiles(q, a, c) && n <= |q|
    ensures Tiles(q[..n], a, b) && Tiles(q[n..], b, c) && a <= b <= c
    ensures n < |q| ==> b == q[n].pos
    ensures n > 0 ==> b == q[n - 1].End() > a
    decreases |q|
  {
    if n == 0 {
      b := a;
      assert q[..0] == [] && q[0..] == q;
      TilesSpan(q, a, c);
    } else {
      b := TilesSplit(q[1..], n - 1, q[0].End(), c);
      assert q[..n][1..] == q[1..][..n - 1] && q[n..] == q[1..][n - 1..];
    }
  }

  lemma {:induction false} TilesSpan(q: seq<Seg>, a: int, c: int)
    requires Tiles(q, a, c)
    ensures a <= c && |q| <= c - a
    decreases |q|
  {
    if q != [] { TilesSpan(q[1..], q[0].End(), c); }
  }

  lemma {:induction false} PbufsJoin(p: seq<Seg>, q: seq<Seg>)
    ensures Pbufs(p + q) == Pbufs(p) + Pbufs(q)
    decreases |p|
  {
    if p == [] {
      assert p + q == q;
    } else {
      PbufsJoin(p[1..], q);
      assert (p + q)[1..] == p[1..] + q;
    }
  }

  lemma TilesOrdered(q: seq<Seg>, a: int, c: int, i: nat)
    requires Tiles(q, a, c) && i < |q|
    ensures a <= q[i].pos < q[i].End() <= c
    ensures forall j :: i < j < |q| ==> q[i].End() <= q[j].pos
  {
    var b := TilesSplit(q, i, a, c);
    forall j | i < j < |q| ensures q[i].End() <= q[j].pos {
      var d := TilesSplit(q[i..], 1, b, c);
      var e := TilesSplit(q[i..][1..], j - i - 1, d, c);
    }
    TilesSpan(q[i..][1..], q[i].End(), c);
  }

  // ----- The sender's invariant

  /** The sender with what was ever written to it and ever sent by it. */
  datatype Conn = Conn(iss: int, st: State, written: seq<Token>, sent: seq<Seg>)

  /** Queued segments are no longer than `mss`, hold data or a flag, and own at least one pbuf. */
  ghost predicate Sized(q: seq<Seg>, mss: u16) {
    forall i :: 0 <= i < |q| ==> |q[i].data| <= mss && (q[i].ctl ==> q[i].data == []) && q[i].pbufs >= 1
  }

  /** `s` carries the tokens that were written at its position. */
  ghost predicate Carries(iss: int, written: seq<Token>, s: Seg) {
    && iss <= s.pos && s.End() <= iss + |written|
    && (forall i :: 0 <= i < |s.data| ==> written[s.pos - iss + i] == Byte(s.data[i]))
    && (s.ctl ==> written[s.pos - iss + |s.data|] == Control)
  }

  /** Where the queues start: at their first segment, or at `snd_lbb` when there is none. */
  ghost function Base(st: State): int {
    if st.Queue() == [] then st.lbb else st.Queue()[0].pos
  }

  /** The queues hold, in order and without a gap, what was written from `Base` to `snd_lbb`. */
  ghost predicate Queued(c: Conn, mss: u16) {
    && c.st.lbb == c.iss + |c.written|
    && c.iss <= Base(c.st)
    && Tiles(c.st.Queue(), Base(c.st), c.st.lbb)
    && Sized(c.st.Queue(), mss)
    && (forall s :: s in c.st.Queue() ==> Carries(c.iss, c.written, s))
  }

  /** No queued segment ends at or before `lastack`, and everything before it is retired. */
  ghost predicate Retired(st: State) {
    && st.una <= st.max <= st.lbb
    && (if st.Queue() == [] then st.una == st.lbb else st.Queue()[0].pos <= st.una < st.Queue()[0].End())
  }

  /** `snd_queuelen` counts the queued pbufs; `snd_buf` and the bytes outstanding add up to the send buffer. */
  ghost predicate Counted(st: State) {
    && st.qlen == Pbufs(st.Queue()) <= TCP_SND_QUEUELEN
    && ToU16(st.buf + (st.lbb - st.una)) == TCP_SND_BUF
  }

  /** Of two segments that start apart, the earlier ends before the later starts. */
  ghost predicate Apart(s: Seg, t: Seg) {
    && (s.pos < t.pos ==> s.End() <= t.pos)
    && (t.pos < s.pos ==> t.End() <= s.pos)
  }

  /** `snd_max` is where the furthest segment sent ends. */
  ghost predicate MaxReached(c: Conn) {
    c.st.max == c.iss || exists s :: s in c.sent && s.End() == c.st.max
  }

  /**
   * Every segment ever put on the wire carries what was written, lies below `snd_max`, and
   * overlaps another one, sent or queued, only if both start at the same place.
   */
  ghost predicate Sent(c: Conn) {
    && MaxReached(c)
    && (forall s :: s in c.sent ==>
          Carries(c.iss, c.written, s) && s.Span() > 0 && |s.data| < 0x1_0000 && s.End() <= c.st.max)
    && (forall s, t :: s in c.sent && t in c.sent ==> Apart(s, t))
    && (forall s, t :: s in c.sent && t in c.st.Queue() ==> Apart(s, t))
  }

  ghost predicate Good(c: Conn, mss: u16) {
    Queued(c, mss) && Retired(c.st) && Counted(c.st) && Sent(c)
  }

  lemma FreshGood(iss: int, mss: u16)
    ensures Good(Conn(iss, Fresh(iss), [], []), mss)
  {
    assert Fresh(iss).Queue() == [];
  }

  // ----- tcp_enqueue

  /** What a request adds to the stream. */
  ghost function Tokens(r: Request): seq<Token> {
    seq(|r.data|, i requires 0 <= i < |r.data| => Byte(r.data[i])) + if r.ctl then [Control] else []
  }

  lemma {:induction false} SplitTiles(pos: int, r: Request, mss: u16)
    requires mss > 0 && r.Span() > 0 && (r.ctl ==> r.data == []) && r.pbufs >= 1
    ensures var q := Split(pos, r, mss);
            q != [] && q[0].pos == pos && Tiles(q, pos, pos + r.Span()) && Sized(q, mss) && Pbufs(q) == |q| * r.pbufs
    decreases |r.data|
  {
    var q := Split(pos, r, mss);
    if |r.data| <= mss {
      assert q[1..] == [];
    } else {
      var r' := r.(data := r.data[mss..]);
      SplitTiles(pos + mss, r', mss);
      assert q[1..] == Split(pos + mss, r', mss);
      assert Pbufs(q) == r.pbufs + Pbufs(q[1..]);
      OneMore(|q[1..]|, r.pbufs);
    }
  }

  lemma OneMore(n: nat, pbufs: nat)
    ensures pbufs + n * pbufs == (n + 1) * pbufs
  {
  }

  /** How many segments of at most `mss` bytes it takes; a request without data takes one. */
  function SegmentsFor(len: nat, mss: u16): nat
    requires mss > 0
  {
    if len == 0 then 1 else (len - 1) / mss + 1
  }

  lemma Divides(a: nat, m: nat)
    requires m > 0
    ensures 0 <= a - (a / m) * m < m
  {
  }

  lemma Grows(x: int, y: int, m: nat)
    requires x <= y
    ensures x * m <= y * m
  {
  }

  lemma OneMoreFits(a: nat, m: nat)
    requires m > 0
    ensures (a + m) / m == a / m + 1
  {
    var q, k := a / m, (a + m) / m;
    Divides(a, m);
    Divides(a + m, m);
    if k <= q { Grows(k, q, m); }
    if k >= q + 2 { Grows(q + 2, k, m); }
  }

  /** No more segments than it takes: all but the last are full. */
  lemma {:induction false} SplitFull(pos: int, r: Request, mss: u16)
    requires mss > 0
    ensures var q := Split(pos, r, mss);
            && |q| == SegmentsFor(|r.data|, mss)
            && (forall i :: 0 <= i < |q| - 1 ==> |q[i].data| == mss)
            && (forall i :: 0 <= i < |q| ==> q[i].ctl == r.ctl && q[i].pbufs == r.pbufs)
    decreases |r.data|
  {
    if |r.data| > mss {
      SplitFull(pos + mss, r.(data := r.data[mss..]), mss);
      OneMoreFits(|r.data| - 1 - mss, mss);
    }
  }

  /** `tcp_enqueue` refuses only what does not fit the send buffer, the limit of 8 pbufs, or memory. */
  lemma AcceptsIff(st: State, r: Request, mss: u16, room: nat)
    requires mss > 0
    ensures Accepts(st, r, mss, room) <==>
            var n := SegmentsFor(|r.data|, mss);
            |r.data| <= st.buf && st.qlen < 8 && st.qlen + n * r.pbufs <= 8 && n <= room
  {
    SplitFull(st.lbb, r, mss);
  }

  /** The segments of a request carry its tokens, once these stand at its position in the stream. */
  lemma {:induction false} SplitCarries(iss: int, written: seq<Token>, pos: int, r: Request, mss: u16, s: Seg)
    requires mss > 0 && (r.ctl ==> r.data == [])
    requires iss <= pos && pos + r.Span() <= iss + |written|
    requires forall i :: 0 <= i < r.Span() ==> written[pos - iss + i] == Tokens(r)[i]
    requires s in Split(pos, r, mss)
    ensures Carries(iss, written, s)
    decreases |r.data|
  {
    if |r.data| > mss && s != Split(pos, r, mss)[0] {
      var r' := r.(data := r.data[mss..]);
      forall i | 0 <= i < r'.Span() ensures written[pos + mss - iss + i] == Tokens(r')[i] {
        assert written[pos - iss + (mss + i)] == Tokens(r)[mss + i];
      }
      SplitCarries(iss, written, pos + mss, r', mss, s);
    } else {
      forall i | 0 <= i < |s.data| ensures written[s.pos - iss + i] == Byte(s.data[i]) {
        assert written[pos - iss + i] == Tokens(r)[i];
      }
      if s.ctl { assert written[pos - iss] == Tokens(r)[0]; }
    }
  }

  /** Chaining two adjacent segments changes neither the range nor the pbuf count. */
  lemma MergedTiles(last: Seg, segs: seq<Seg>, mss: u16, a: int, b: int, c: int)
    requires Tiles([last], a, b) && Tiles(segs, b, c) && segs != []
    requires Merges([last], segs[0], mss) && Sized([last], mss) && Sized(segs, mss)
    ensures var q := [Merged(last, segs[0])] + segs[1..];
            Tiles(q, a, c) && Sized(q, mss) && Pbufs(q) == last.pbufs + Pbufs(segs)
  {
    var m, q := Merged(last, segs[0]), [Merged(last, segs[0])] + segs[1..];
    assert [last][0] == last && [last][1..] == [];
    assert q[0] == m && q[1..] == segs[1..];
    assert m.End() == segs[0].End();
  }

  lemma AppendShape(unsent: seq<Seg>, segs: seq<Seg>, mss: u16)
    requires segs != [] && Merges(unsent, segs[0], mss)
    ensures var n := |unsent| - 1;
            && unsent == unsent[..n] + [unsent[n]] && unsent[n..] == [unsent[n]]
            && Append(unsent, segs, mss) == unsent[..n] + ([Merged(unsent[n], segs[0])] + segs[1..])
  {
  }

  /** Joining new segments to `unsent` extends the tiling, whether or not the first is chained. */
  lemma AppendTiles(unsent: seq<Seg>, segs: seq<Seg>, mss: u16, a: int, b: int, c: int)
    requires Tiles(unsent, a, b) && Tiles(segs, b, c) && segs != []
    requires Sized(unsent, mss) && Sized(segs, mss)
    ensures var q := Append(unsent, segs, mss);
            Tiles(q, a, c) && Sized(q, mss) && q != [] && Pbufs(q) == Pbufs(unsent) + Pbufs(segs)
  {
    if Merges(unsent, segs[0], mss) {
      AppendShape(unsent, segs, mss);
      var n := |unsent| - 1;
      var init, tail := unsent[..n], [Merged(unsent[n], segs[0])] + segs[1..];
      var d := TilesSplit(unsent, n, a, b);
      MergedTiles(unsent[n], segs, mss, d, b, c);
      TilesJoin(init, tail, a, d, c);
      PbufsJoin(init, tail);
      PbufsJoin(init, [unsent[n]]);
      assert Pbufs([unsent[n]]) == unsent[n].pbufs + Pbufs([unsent[n]][1..]);
    } else {
      TilesJoin(unsent, segs, a, b, c);
      PbufsJoin(unsent, segs);
    }
  }

  /** The first new segment shares the last unsent one exactly if both hold data and fit in one segment together. */
  lemma AppendChainsIff(unsent: seq<Seg>, segs: seq<Seg>, mss: u16)
    requires segs != [] && forall s :: s in unsent + segs ==> s.Span() > 0 && (s.ctl ==> s.data == [])
    ensures var n := |unsent|;
            |Append(unsent, segs, mss)| ==
            n + |segs| - if n > 0 && unsent[n - 1].data != [] && segs[0].data != []
                            && |unsent[n - 1].data| + |segs[0].data| <= mss then 1 else 0
  {
    assert segs[0] in unsent + segs;
    if unsent != [] { assert unsent[|unsent| - 1] in unsent + segs; }
  }

  /** The two queues tile adjoining ranges. */
  lemma HalvesTile(st: State, base: int, mss: u16) returns (mid: int)
    requires Tiles(st.Queue(), base, st.lbb) && Sized(st.Queue(), mss)
    ensures Tiles(st.unacked, base, mid) && Tiles(st.unsent, mid, st.lbb)
    ensures Sized(st.unacked, mss) && Sized(st.unsent, mss)
  {
    mid := TilesParts(st.unacked, st.unsent, base, st.lbb);
    SizedParts(st.unacked, st.unsent, mss);
  }

  lemma TilesParts(p: seq<Seg>, q: seq<Seg>, a: int, c: int) returns (b: int)
    requires Tiles(p + q, a, c)
    ensures Tiles(p, a, b) && Tiles(q, b, c)
  {
    b := TilesSplit(p + q, |p|, a, c);
    assert (p + q)[..|p|] == p && (p + q)[|p|..] == q;
  }

  lemma SizedParts(p: seq<Seg>, q: seq<Seg>, mss: u16)
    requires Sized(p + q, mss)
    ensures Sized(p, mss) && Sized(q, mss)
  {
    assert forall i :: 0 <= i < |p| ==> p[i] == (p + q)[i];
    assert forall i :: 0 <= i < |q| ==> q[i] == (p + q)[|p| + i];
  }

  /** The queues joined by segments that start at `snd_lbb`: still a tiling, now up to their end. */
  lemma QueueGrows(st: State, segs: seq<Seg>, to: int, mss: u16)
    requires Tiles(st.Queue(), Base(st), st.lbb) && Sized(st.Queue(), mss)
    requires Tiles(segs, st.lbb, to) && Sized(segs, mss) && segs != []
    ensures var q := st.unacked + Append(st.unsent, segs, mss);
            Tiles(q, Base(st), to) && Sized(q, mss) && q != [] && Pbufs(q) == Pbufs(st.Queue()) + Pbufs(segs)
  {
    var mid := HalvesTile(st, Base(st), mss);
    AppendTiles(st.unsent, segs, mss, mid, st.lbb, to);
    var app := Append(st.unsent, segs, mss);
    TilesJoin(st.unacked, app, Base(st), mid, to);
    PbufsJoin(st.unacked, app);
    PbufsJoin(st.unacked, st.unsent);
  }

  /** Segments of the grown queue: an old one, the old last one made longer, or a new one. */
  lemma GrownSegments(st: State, segs: seq<Seg>, mss: u16, t: Seg)
    requires segs != [] && t in st.unacked + Append(st.unsent, segs, mss)
    ensures || t in st.Queue() || t in segs
            || (Merges(st.unsent, segs[0], mss) && t == Merged(st.unsent[|st.unsent| - 1], segs[0]))
  {
  }

  lemma LastEnds(q: seq<Seg>, a: int, c: int)
    requires Tiles(q, a, c) && q != []
    ensures q[|q| - 1].End() == c && q[|q| - 1].pos < c
  {
    var d := TilesSplit(q, |q|, a, c);
    assert q[|q|..] == [] && q[..|q|] == q;
    TilesOrdered(q, a, c, |q| - 1);
  }

  /** The connection after `tcp_enqueue`; the tokens count as written if the request is taken. */
  ghost function Write(c: Conn, r: Request, mss: u16, room: nat): Conn
    requires mss > 0
  {
    c.(st := Enqueue(c.st, r, mss, room),
       written := c.written + if Accepts(c.st, r, mss, room) then Tokens(r) else [])
  }

  lemma ApartAbove(c: Conn, t: Seg)
    requires Sent(c) && c.st.max <= t.pos
    ensures forall s :: s in c.sent ==> Apart(s, t)
  {
    hide Carries;
  }

  lemma SplitAbove(pos: int, r: Request, mss: u16, t: Seg)
    requires mss > 0 && r.Valid() && t in Split(pos, r, mss)
    ensures pos <= t.pos
  {
    var segs := Split(pos, r, mss);
    hide Split, Tiles, Sized, Pbufs;
    SplitTiles(pos, r, mss);
    var i :| 0 <= i < |segs| && segs[i] == t;
    TilesOrdered(segs, pos, pos + r.Span(), i);
  }

  lemma {:induction false} NewSegment(c: Conn, r: Request, mss: u16, t: Seg)
    requires mss > 0 && r.Valid() && c.st.lbb == c.iss + |c.written| && c.st.max <= c.st.lbb && Sent(c)
    requires t in Split(c.st.lbb, r, mss)
    ensures Carries(c.iss, c.written + Tokens(r), t)
    ensures forall s :: s in c.sent ==> Apart(s, t)
  {
    hide Carries, Split, Sent, Apart;
    SplitCarries(c.iss, c.written + Tokens(r), c.st.lbb, r, mss, t);
    SplitAbove(c.st.lbb, r, mss, t);
    ApartAbove(c, t);
  }

  lemma MergedSegment(c: Conn, written: seq<Token>, last: Seg, first: Seg)
    requires c.st.max <= c.st.lbb && Sent(c) && last in c.st.Queue() && last.End() == c.st.lbb == first.pos
    requires last.pos < c.st.lbb && !last.ctl && !first.ctl
    requires Carries(c.iss, written, last) && Carries(c.iss, written, first)
    ensures Carries(c.iss, written, Merged(last, first))
    ensures forall s :: s in c.sent ==> Apart(s, Merged(last, first))
  {
    var t := Merged(last, first);
    forall i | 0 <= i < |t.data| ensures written[t.pos - c.iss + i] == Byte(t.data[i]) {
      if i >= |last.data| { assert written[first.pos - c.iss + (i - |last.data|)] == Byte(first.data[i - |last.data|]); }
    }
    forall s | s in c.sent ensures Apart(s, t) { assert Apart(s, last); }
  }

  /** A segment of the grown queue carries what was written, and lies apart from every sent one. */
  lemma GrownSegment(c: Conn, r: Request, mss: u16, t: Seg)
    requires mss > 0 && r.Valid() && Queued(c, mss) && c.st.max <= c.st.lbb && Sent(c)
    requires t in c.st.unacked + Append(c.st.unsent, Split(c.st.lbb, r, mss), mss)
    ensures Carries(c.iss, c.written + Tokens(r), t)
    ensures forall s :: s in c.sent ==> Apart(s, t)
  {
    var segs, q := Split(c.st.lbb, r, mss), c.st.Queue();
    SplitTiles(c.st.lbb, r, mss);
    GrownSegments(c.st, segs, mss, t);
    if t in segs {
      NewSegment(c, r, mss, t);
    } else if t !in q {
      assert q[|q| - 1] == c.st.unsent[|c.st.unsent| - 1];
      LastEnds(q, Base(c.st), c.st.lbb);
      NewSegment(c, r, mss, segs[0]);
      MergedSegment(c, c.written + Tokens(r), q[|q| - 1], segs[0]);
    }
  }

  lemma WriteKeepsSent(c: Conn, r: Request, mss: u16, room: nat)
    requires mss > 0 && r.Valid() && Good(c, mss) && Accepts(c.st, r, mss, room)
    ensures var c' := Write(c, r, mss, room);
            Sent(c') && forall t :: t in c'.st.Queue() ==> Carries(c'.iss, c'.written, t)
  {
    var c' := Write(c, r, mss, room);
    hide Apart, Tiles, Append, Tokens, Counted, Retired;
    forall t | t in c'.st.Queue() ensures Carries(c.iss, c'.written, t) && forall s :: s in c.sent ==> Apart(s, t) {
      GrownSegment(c, r, mss, t);
    }
  }

  lemma WriteKeepsQueued(c: Conn, r: Request, mss: u16, room: nat)
    requires mss > 0 && r.Valid() && Good(c, mss) && Accepts(c.st, r, mss, room)
    ensures var c' := Write(c, r, mss, room);
            Queued(c', mss) && Retired(c'.st) && Pbufs(c'.st.Queue()) == c'.st.qlen
  {
    hide Sent, Carries, Split, Pbufs;
    WriteKeepsSent(c, r, mss, room);
    var c', segs := Write(c, r, mss, room), Split(c.st.lbb, r, mss);
    var q, q' := c.st.Queue(), c'.st.Queue();
    SplitTiles(c.st.lbb, r, mss);
    QueueGrows(c.st, segs, c'.st.lbb, mss);
    TilesOrdered(q', Base(c.st), c'.st.lbb, 0);
    if q != [] {
      assert q'[0] == q[0] || (c.st.unacked == [] && q'[0] == Merged(q[0], segs[0]));
    }
  }

  /** What is queued moves from the buffer space to the bytes outstanding. */
  lemma SpaceTaken(buf: u16, outstanding: int, queued: nat)
    ensures ToU16(ToU16(buf - queued) + (outstanding + queued)) == ToU16(buf + outstanding)
  {
  }

  /** `tcp_enqueue` keeps the invariant; when it fails it changes nothing. */
  lemma WriteGood(c: Conn, r: Request, mss: u16, room: nat)
    requires mss > 0 && r.Valid() && Good(c, mss)
    ensures Good(Write(c, r, mss, room), mss)
    ensures !Accepts(c.st, r, mss, room) ==> Write(c, r, mss, room) == c
  {
    hide Queued, Retired, Sent, Split, Append, Tokens, ToU16;
    if Accepts(c.st, r, mss, room) {
      SpaceTaken(c.st.buf, c.st.lbb - c.st.una, r.Span());
      WriteKeepsQueued(c, r, mss, room);
      WriteKeepsSent(c, r, mss, room);
    } else {
      assert c.written + [] == c.written;
    }
  }

  /** It touches nothing that was sent: only `unsent` grows. */
  lemma WriteOnlyAppends(c: Conn, r: Request, mss: u16, room: nat)
    requires mss > 0 && r.Valid() && Good(c, mss)
    ensures var st, st' := c.st, Write(c, r, mss, room).st;
            && st'.unacked == st.unacked && st'.una == st.una && st'.nxt == st.nxt && st'.max == st.max
            && |st'.unsent| >= |st.unsent| && (forall i :: 0 <= i < |st.unsent| - 1 ==> st'.unsent[i] == st.unsent[i])
            && (st.unsent != [] ==> st'.unsent[|st.unsent| - 1].pos == st.unsent[|st.unsent| - 1].pos)
  {
    SplitTiles(c.st.lbb, r, mss);
    hide Good, Split, Tokens, Tiles;
  }

  // ----- tcp_output and tcp_rexmit

  ghost function Transmit(c: Conn, wnd: u32): Conn {
    var (st, segs) := Output(c.st, wnd);
    c.(st := st, sent := c.sent + segs)
  }

  lemma SendHeadGood(c: Conn, mss: u16)
    requires Good(c, mss) && c.st.unsent != []
    ensures Good(c.(st := SendHead(c.st), sent := c.sent + [c.st.unsent[0]]), mss)
    ensures SendHead(c.st).Queue() == c.st.Queue()
  {
    hide Carries;
    var head, q, n := c.st.unsent[0], c.st.Queue(), |c.st.unacked|;
    var c' := c.(st := SendHead(c.st), sent := c.sent + [head]);
    assert q[n] == head;
    TilesOrdered(q, Base(c.st), c.st.lbb, n);
    assert c'.st.Queue() == q;
    forall s | s in c.sent ensures Apart(head, s) { assert Apart(s, head); }
    forall t | t in q ensures Apart(head, t) {
      var i :| 0 <= i < |q| && q[i] == t;
      TilesOrdered(q, Base(c.st), c.st.lbb, i);
    }
  }

  /** `tcp_output` sends the longest head of `unsent` that the window admits, in order, and then stops. */
  lemma {:induction false} OutputSendsWindow(st: State, wnd: u32)
    requires forall s :: s in st.unsent ==> s.Span() > 0
    ensures var (st', segs) := Output(st, wnd);
            && segs + st'.unsent == st.unsent && st'.unacked == st.unacked + segs
            && (forall s :: s in segs ==> s.pos + |s.data| - st.una <= wnd)
            && (st'.unsent != [] ==> st'.unsent[0].pos + |st'.unsent[0].data| - st.una > wnd)
            && st'.max >= st.max && (forall s :: s in segs ==> s.End() <= st'.max)
            && (st'.max == st.max || exists s :: s in segs && s.End() == st'.max)
            && st'.nxt == (if segs == [] then st.nxt else segs[|segs| - 1].End())
            && st'.una == st.una && st'.lbb == st.lbb && st'.buf == st.buf && st'.qlen == st.qlen
    decreases |st.unsent|
  {
    if Sendable(st, wnd) {
      OutputSendsWindow(SendHead(st), wnd);
      var (st', segs) := Output(SendHead(st), wnd);
      Joins([st.unsent[0]], segs, st'.unsent);
      Joins(st.unacked, [st.unsent[0]], segs);
    }
  }

  lemma Joins<T>(a: seq<T>, b: seq<T>, c: seq<T>)
    ensures (a + b) + c == a + (b + c)
  {
  }

  /** One turn of the send loop. */
  lemma TransmitStep(c: Conn, wnd: u32)
    ensures Transmit(c, wnd) == if Sendable(c.st, wnd)
              then Transmit(c.(st := SendHead(c.st), sent := c.sent + [c.st.unsent[0]]), wnd) else c
  {
    hide SendHead;
    if Sendable(c.st, wnd) {
      Joins(c.sent, [c.st.unsent[0]], Output(SendHead(c.st), wnd).1);
    } else {
      assert c.sent + [] == c.sent;
    }
  }

  lemma {:induction false} TransmitGood(c: Conn, wnd: u32, mss: u16)
    requires Good(c, mss)
    ensures Good(Transmit(c, wnd), mss)
    ensures Transmit(c, wnd).st.Queue() == c.st.Queue()
    decreases |c.st.unsent|
  {
    hide Good, Transmit;
    TransmitStep(c, wnd);
    if Sendable(c.st, wnd) {
      SendHeadGood(c, mss);
      TransmitGood(c.(st := SendHead(c.st), sent := c.sent + [c.st.unsent[0]]), wnd, mss);
    }
  }

  /** The invariant does not mind how the queue is divided between `unacked` and `unsent`. */
  lemma SameQueueGood(c: Conn, st: State, mss: u16)
    requires Good(c, mss) && st.Queue() == c.st.Queue()
    requires st.una == c.st.una && st.max == c.st.max && st.lbb == c.st.lbb && st.buf == c.st.buf && st.qlen == c.st.qlen
    ensures Good(c.(st := st), mss)
  {
  }

  lemma RequeueQueue(st: State)
    ensures Requeue(st).Queue() == st.Queue()
  {
    assert [] + (st.unacked + st.unsent) == st.unacked + st.unsent;
  }

  lemma RequeueGood(c: Conn, mss: u16)
    requires Good(c, mss)
    ensures Good(c.(st := Requeue(c.st)), mss)
    ensures Requeue(c.st).Queue() == c.st.Queue()
  {
    RequeueQueue(c.st);
    SameQueueGood(c, Requeue(c.st), mss);
  }

  // ----- Acknowledgements

  /** The number of segments at the head of `q` that end at or before `ack`. */
  ghost function Acked(q: seq<Seg>, ack: int): (n: nat)
    ensures n <= |q|
  {
    if q != [] && q[0].End() <= ack then 1 + Acked(q[1..], ack) else 0
  }

  /** How far into a tiling an acknowledgement reaches. */
  lemma {:induction false} AckedReaches(q: seq<Seg>, a: int, c: int, ack: int)
    requires Tiles(q, a, c)
    ensures var n := Acked(q, ack);
            && (n > 0 ==> q[n - 1].End() <= ack)
            && (n < |q| ==> ack < q[n].End())
            && (forall i :: n <= i < |q| ==> ack < q[i].End())
    decreases |q|
  {
    if q != [] {
      if q[0].End() <= ack {
        AckedReaches(q[1..], q[0].End(), c, ack);
      } else {
        TilesOrdered(q, a, c, 0);
        forall i | 0 <= i < |q| ensures ack < q[i].End() { TilesOrdered(q, a, c, i); }
      }
    }
  }

  lemma {:induction false} AckedJoins(p: seq<Seg>, q: seq<Seg>, ack: int)
    ensures Acked(p + q, ack) == if Acked(p, ack) == |p| then |p| + Acked(q, ack) else Acked(p, ack)
    decreases |p|
  {
    if p == [] {
      assert p + q == q;
    } else {
      AckedJoins(p[1..], q, ack);
      assert (p + q)[1..] == p[1..] + q;
    }
  }

  /** The loop over `unsent` only removes segments once `unacked` is empty. */
  lemma LoopsInOrder(st: State, ack: int, mss: u16)
    requires Tiles(st.Queue(), Base(st), st.lbb) && Sized(st.Queue(), mss)
    ensures Acked(st.unsent, ack) > 0 ==> Acked(st.unacked, ack) == |st.unacked|
  {
    var mid := HalvesTile(st, Base(st), mss);
    AckedReaches(st.unacked, Base(st), mid, ack);
    AckedReaches(st.unsent, mid, st.lbb, ack);
    var k := Acked(st.unacked, ack);
    if k < |st.unacked| && st.unsent != [] {
      TilesOrdered(st.unacked, Base(st), mid, k);
      TilesOrdered(st.unsent, mid, st.lbb, 0);
    }
  }

  /** The scalar fields that the removal loops leave alone. */
  ghost predicate SameRanges(st: State, st': State) {
    st'.una == st.una && st'.max == st.max && st'.lbb == st.lbb && st'.buf == st.buf
  }

  lemma {:induction false} DropUnackedKeeps(st: State, ack: int)
    ensures DropUnacked(st, ack).unsent == st.unsent && SameRanges(st, DropUnacked(st, ack))
    decreases |st.unacked|
  {
    if st.unacked != [] && st.unacked[0].End() <= ack {
      DropUnackedKeeps(PopUnacked(st), ack);
    }
  }

  lemma {:induction false} DropUnackedDrops(st: State, ack: int)
    requires Pbufs(st.unacked) <= st.qlen
    ensures var st' := DropUnacked(st, ack);
            && st'.unacked == st.unacked[Acked(st.unacked, ack)..] && st'.unsent == st.unsent
            && st.qlen - Pbufs(st.unacked) == st'.qlen - Pbufs(st'.unacked) && SameRanges(st, st')
    decreases |st.unacked|
  {
    if st.unacked != [] && st.unacked[0].End() <= ack {
      DropUnackedDrops(PopUnacked(st), ack);
    }
  }

  lemma {:induction false} DropUnsentDrops(st: State, ack: int)
    requires Pbufs(st.unsent) <= st.qlen
    ensures var st' := DropUnsent(st, ack);
            && st'.unsent == st.unsent[Acked(st.unsent, ack)..] && st'.unacked == st.unacked
            && st.qlen - Pbufs(st.unsent) == st'.qlen - Pbufs(st'.unsent) && SameRanges(st, st')
    decreases |st.unsent|
  {
    if st.unsent != [] && st.unsent[0].End() <= ack {
      DropUnsentDrops(PopUnsent(st), ack);
    }
  }

  /** The two removal loops together drop the acknowledged head of the whole queue. */
  lemma LoopsDrop(st: State, ack: int, mss: u16)
    requires Tiles(st.Queue(), Base(st), st.lbb) && Sized(st.Queue(), mss) && st.qlen == Pbufs(st.Queue())
    ensures var st' := DropUnsent(DropUnacked(st, ack), ack);
            && st'.Queue() == st.Queue()[Acked(st.Queue(), ack)..] && st'.qlen == Pbufs(st'.Queue()) && SameRanges(st, st')
  {
    hide DropUnacked, DropUnsent, Tiles, Sized, Pbufs, Acked;
    var mid, st' := DropUnacked(st, ack), DropUnsent(DropUnacked(st, ack), ack);
    PbufsJoin(st.unacked, st.unsent);
    DropUnackedDrops(st, ack);
    DropUnsentDrops(mid, ack);
    PbufsJoin(st'.unacked, st'.unsent);
    LoopsInOrder(st, ack, mss);
    AckedJoins(st.unacked, st.unsent, ack);
    SuffixesJoin(st.unacked, st.unsent, Acked(st.unacked, ack), Acked(st.unsent, ack));
  }

  lemma SuffixesJoin(p: seq<Seg>, q: seq<Seg>, k: nat, m: nat)
    requires k <= |p| && m <= |q| && (m > 0 ==> k == |p|)
    ensures (p + q)[k + m..] == p[k..] + q[m..]
  {
  }

  /** What is left of a tiling after an acknowledgement starts at or before it and ends after it. */
  lemma DropTiles(q: seq<Seg>, a: int, c: int, ack: int) returns (b: int)
    requires Tiles(q, a, c) && a <= ack <= c
    ensures var r := q[Acked(q, ack)..];
            && Tiles(r, b, c) && a <= b <= ack
            && (if r == [] then b == c else b == r[0].pos && ack < r[0].End())
  {
    var n := Acked(q, ack);
    AckedReaches(q, a, c, ack);
    b := TilesSplit(q, n, a, c);
  }

  lemma SuffixKeeps(c: Conn, st': State, n: nat, mss: u16)
    requires Sized(c.st.Queue(), mss) && (forall s :: s in c.st.Queue() ==> Carries(c.iss, c.written, s)) && Sent(c)
    requires n <= |c.st.Queue()| && st'.Queue() == c.st.Queue()[n..] && st'.max == c.st.max
    ensures Sized(st'.Queue(), mss) && (forall s :: s in st'.Queue() ==> Carries(c.iss, c.written, s)) && Sent(c.(st := st'))
  {
    var q' := st'.Queue();
    assert forall i :: 0 <= i < |q'| ==> q'[i] == c.st.Queue()[n + i];
    assert forall s :: s in q' ==> s in c.st.Queue();
  }

  /** What an acknowledgement of data in flight leaves. */
  lemma NewAckDrops(st: State, ack: int, fast: bool, mss: u16)
    requires Tiles(st.Queue(), Base(st), st.lbb) && Sized(st.Queue(), mss) && st.qlen == Pbufs(st.Queue())
    requires Base(st) <= st.una < ack <= st.max <= st.lbb
    ensures var st' := Ack(st, ack, fast);
            && st'.Queue() == st.Queue()[Acked(st.Queue(), ack)..] && st'.qlen == Pbufs(st'.Queue())
            && SameRanges(st.(una := ack, buf := ToU16(st.buf + ToU16(ack - st.una))), st')
            && Tiles(st'.Queue(), Base(st'), st.lbb) && Base(st) <= Base(st') && Retired(st')
  {
    var s := st.(una := ack, buf := ToU16(st.buf + ToU16(ack - st.una)));
    assert s.Queue() == st.Queue() && Base(s) == Base(st);
    LoopsDrop(s, ack, mss);
    var b := DropTiles(st.Queue(), Base(st), st.lbb, ack);
    PbufsJoin(st.unacked, st.unsent);
    DropUnackedDrops(s, ack);
  }

  lemma PbufsShrink(q: seq<Seg>, n: nat)
    requires n <= |q|
    ensures Pbufs(q[n..]) <= Pbufs(q)
  {
    assert q == q[..n] + q[n..];
    PbufsJoin(q[..n], q[n..]);
  }

  /** An acknowledgement of data in flight keeps the invariant. */
  lemma NewAckGood(c: Conn, ack: int, fast: bool, mss: u16)
    requires Good(c, mss) && c.st.una < ack <= c.st.max
    ensures var st := Ack(c.st, ack, fast);
            Good(c.(st := st), mss) && st.una == ack && st.Queue() == c.st.Queue()[Acked(c.st.Queue(), ack)..]
  {
    hide Ack, Apart, Carries, Tiles, Sized, Pbufs, Acked, ToU16;
    NewAckDrops(c.st, ack, fast, mss);
    SuffixKeeps(c, Ack(c.st, ack, fast), Acked(c.st.Queue(), ack), mss);
    PbufsShrink(c.st.Queue(), Acked(c.st.Queue(), ack));
    SpaceBack(c.st.buf, c.st.lbb - c.st.una, ack - c.st.una);
  }

  /** What is acknowledged moves from the bytes outstanding to the buffer space. */
  lemma SpaceBack(buf: u16, outstanding: int, acked: int)
    ensures ToU16(ToU16(buf + ToU16(acked)) + (outstanding - acked)) == ToU16(buf + outstanding)
  {
  }

  /** An old acknowledgement retires nothing. */
  lemma NothingAcked(st: State, ack: int, mss: u16)
    requires Tiles(st.Queue(), Base(st), st.lbb) && Sized(st.Queue(), mss) && Retired(st) && ack <= st.una
    ensures DropUnsent(st, ack) == st
  {
    if st.unsent != [] {
      var q, n := st.Queue(), |st.unacked|;
      assert q[n] == st.unsent[0];
      TilesOrdered(q, Base(st), st.lbb, 0);
      TilesOrdered(q, Base(st), st.lbb, n);
    }
  }

  /** An acknowledgement of nothing new: a duplicate may put everything back to be sent, and that is all. */
  lemma OldAckIs(c: Conn, ack: int, fast: bool, mss: u16)
    requires Good(c, mss) && !(c.st.una < ack <= c.st.max)
    ensures Ack(c.st, ack, fast) == if ack == c.st.una && fast then Requeue(c.st) else c.st
  {
    hide Sent, Counted, DropUnacked, DropUnsent, Carries, Tiles, Sized;
    var s := if ack == c.st.una && fast then Requeue(c.st) else c.st;
    RequeueGood(c, mss);
    assert Retired(s) && s.max == c.st.max;
    if ack <= c.st.max { NothingAcked(s, ack, mss); }
  }

  /** An acknowledgement keeps the invariant; one that is not for data in flight retires nothing. */
  lemma AckGood(c: Conn, ack: int, fast: bool, mss: u16)
    requires Good(c, mss)
    ensures var st := Ack(c.st, ack, fast);
            && Good(c.(st := st), mss)
            && (if c.st.una < ack <= c.st.max then st.una == ack
                else st.una == c.st.una && st.Queue() == c.st.Queue())
  {
    hide Good, Ack;
    if c.st.una < ack <= c.st.max {
      NewAckGood(c, ack, fast, mss);
    } else {
      OldAckIs(c, ack, fast, mss);
      RequeueGood(c, mss);
    }
  }

  /** What an acknowledgement of data in flight leaves stays where it was, in flight or unsent. */
  lemma NewAckPlaces(c: Conn, ack: int, fast: bool, mss: u16)
    requires Good(c, mss) && c.st.una < ack <= c.st.max
    ensures var st, r := c.st, Ack(c.st, ack, fast);
            r.unacked == st.unacked[Acked(st.unacked, ack)..] && r.unsent == st.unsent[Acked(st.unsent, ack)..]
  {
    var st := c.st;
    var w := st.(una := ack, buf := ToU16(st.buf + ToU16(ack - st.una)));
    hide Sent, Queued, Retired, Acked, DropUnacked, DropUnsent, ToU16;
    PbufsJoin(st.unacked, st.unsent);
    hide Pbufs;
    DropUnackedDrops(w, ack);
    DropUnsentDrops(DropUnacked(w, ack), ack);
  }

  /** The duplicate that starts a fast retransmit puts all that is in flight back in front of what is unsent. */
  lemma FastResends(c: Conn, mss: u16)
    requires Good(c, mss)
    ensures var r := Ack(c.st, c.st.una, true);
            r.unacked == [] && r.unsent == c.st.Queue() && r.nxt == if c.st.unacked == [] then c.st.nxt else c.st.unacked[0].pos
    ensures Ack(c.st, c.st.una, false) == c.st
  {
    hide Good, Ack;
    OldAckIs(c, c.st.una, true, mss);
    OldAckIs(c, c.st.una, false, mss);
  }

  /** Numbers that are old, or for what was never sent, change nothing. */
  lemma StrayAcks(c: Conn, ack: int, fast: bool, mss: u16)
    requires Good(c, mss) && (ack < c.st.una || c.st.max < ack)
    ensures Ack(c.st, ack, fast) == c.st
  {
    hide Good, Ack;
    OldAckIs(c, ack, fast, mss);
    UnaBelowMax(c, mss);
  }

  lemma UnaBelowMax(c: Conn, mss: u16)
    requires Good(c, mss)
    ensures c.st.una <= c.st.max
  {
  }

  // ----- Acknowledgement numbers

  /** Everything the sender compares lies close to `lastack`. */
  ghost predicate Close(st: State) {
    && st.una <= st.max <= st.una + 0x10_0000
    && (forall i :: 0 <= i < |st.unsent| ==> CloseSeg(st.una, st.unsent[i]))
    && (forall i :: 0 <= i < |st.unacked| ==> CloseSeg(st.una, st.unacked[i]))
  }

  ghost predicate CloseSeg(una: int, s: Seg) {
    -0x10_0000 <= s.pos - una && una < s.End() <= una + 0x10_0000
  }

  lemma GoodIsClose(c: Conn, mss: u16)
    requires Good(c, mss) && mss > 0
    ensures Close(c.st)
  {
    var q, n := c.st.Queue(), |c.st.unacked|;
    OutstandingBounded(c, mss);
    forall i | 0 <= i < |q| ensures CloseSeg(c.st.una, q[i]) {
      TilesOrdered(q, Base(c.st), c.st.lbb, i);
      TilesOrdered(q, Base(c.st), c.st.lbb, 0);
    }
    assert forall i :: 0 <= i < |c.st.unsent| ==> c.st.unsent[i] == q[n + i];
    assert forall i :: 0 <= i < n ==> c.st.unacked[i] == q[i];
  }

  /** The guard of the loop over `unsent` is right about every position but those of one interval. */
  lemma FreesExactIff(una: int, s: Seg, ack: int, max: int)
    requires CloseSeg(una, s) && una <= max <= una + 0x10_0000 && -0x8000_0000 <= ack - una < 0x8000_0000
    ensures (Frees(s.End(), ack, max) <==> s.End() <= ack <= max) <==>
            !(max - 0x8000_0000 <= ack <= s.End() - 0x8000_0000)
  {
    SeqWraps(s.End(), ack);
    SeqWraps(ack, max);
  }

  /** The test for new data is right but at one position. */
  lemma NewerExactIff(una: int, ack: int, max: int)
    requires una <= max <= una + 0x10_0000 && -0x8000_0000 <= ack - una < 0x8000_0000
    ensures (Newer(una, ack, max) <==> una < ack <= max) <==> !(ack == una - 0x8000_0000 && max == una)
  {
    SeqWraps(una, ack);
    SeqWraps(ack, max);
  }

  lemma {:induction false} FreeUnackedExact(una: int, st: State, ack: int)
    requires (forall i :: 0 <= i < |st.unacked| ==> CloseSeg(una, st.unacked[i])) && una < ack <= una + 0x10_0000
    ensures FreeUnacked(st, ack) == DropUnacked(st, ack)
    decreases |st.unacked|
  {
    if st.unacked != [] {
      SeqExact(st.unacked[0].End(), ack);
      if st.unacked[0].End() <= ack {
        FreeUnackedExact(una, PopUnacked(st), ack);
      }
    }
  }

  lemma {:induction false} FreeUnsentExact(una: int, st: State, ack: int)
    requires forall i :: 0 <= i < |st.unsent| ==> CloseSeg(una, st.unsent[i])
    requires una <= st.max <= una + 0x10_0000 && -0x8000_0000 <= ack - una < 0x8000_0000
    requires st.unsent != [] ==> !(st.max - 0x8000_0000 <= ack <= st.unsent[0].End() - 0x8000_0000)
    ensures FreeUnsent(st, ack) == if ack <= st.max then DropUnsent(st, ack) else st
    decreases |st.unsent|
  {
    if st.unsent != [] {
      FreesExactIff(una, st.unsent[0], ack, st.max);
      hide Frees;
      if st.unsent[0].End() <= ack <= st.max {
        FreeUnsentExact(una, PopUnsent(st), ack);
      }
    }
  }

  /** No number is misread that stands for a position less than 0x7000_0000 behind `lastack`. */
  lemma NearNotMisread(c: Conn, ackno: u32, mss: u16)
    requires mss > 0 && Good(c, mss) && Nearest(c.st.una, ackno) > c.st.una - 0x7000_0000
    ensures !Misread(c.st, ackno)
  {
    hide Good, Nearest;
    GoodIsClose(c, mss);
  }

  /** A number that is not misread does what an acknowledgement of its position should do. */
  lemma AcknowledgedExact(st: State, ackno: u32, fast: bool)
    requires Close(st) && !Misread(st, ackno)
    ensures Acknowledged(st, ackno, fast) == Ack(st, Nearest(st.una, ackno), fast)
  {
    var ack := Nearest(st.una, ackno);
    NewerExactIff(st.una, ack, st.max);
    var s := AckUnacked(st, ack, fast);
    hide Newer, Nearest;
    if st.una < ack <= st.max {
      var w := st.(una := ack, buf := ToU16(st.buf + ToU16(ack - st.una)));
      FreeUnackedExact(st.una, w, ack);
      DropUnackedKeeps(w, ack);
    }
    FreeUnsentExact(st.una, s, ack);
  }

  /** A misread number frees all of `unsent`. */
  lemma {:induction false} FreeUnsentAll(st: State, una: int, ack: int)
    requires forall i :: 0 <= i < |st.unsent| ==> CloseSeg(una, st.unsent[i]) && ack <= st.unsent[i].End() - 0x8000_0000
    requires una <= st.max <= una + 0x10_0000 && una - 0x8000_0000 <= ack && st.max - 0x8000_0000 <= ack
    ensures var s := FreeUnsent(st, ack); s.unsent == [] && s.unacked == st.unacked && SameRanges(st, s)
    decreases |st.unsent|
  {
    if st.unsent != [] {
      SeqWraps(st.unsent[0].End(), ack);
      SeqWraps(ack, st.max);
      assert Frees(st.unsent[0].End(), ack, st.max);
      hide Frees;
      FreeUnsentAll(PopUnsent(st), una, ack);
    }
  }

  lemma EndsGrow(st: State, mss: u16)
    requires Tiles(st.Queue(), Base(st), st.lbb) && Sized(st.Queue(), mss)
    ensures forall i :: 0 <= i < |st.unsent| ==> st.unsent[i].End() >= st.unsent[0].End()
  {
    var q, n := st.Queue(), |st.unacked|;
    forall i | 0 <= i < |st.unsent| ensures st.unsent[i].End() >= st.unsent[0].End() {
      assert q[n + i] == st.unsent[i] && q[n] == st.unsent[0];
      TilesOrdered(q, Base(st), st.lbb, n);
      TilesOrdered(q, Base(st), st.lbb, n + i);
    }
  }

  lemma {:induction false} FreeUnackedAll(st: State, una: int)
    requires forall i :: 0 <= i < |st.unacked| ==> CloseSeg(una, st.unacked[i])
    ensures var s := FreeUnacked(st, una - 0x8000_0000); s.unacked == [] && s.unsent == st.unsent && SameRanges(st, s)
    decreases |st.unacked|
  {
    if st.unacked != [] {
      SeqWraps(st.unacked[0].End(), una - 0x8000_0000);
      FreeUnackedAll(PopUnacked(st), una);
    }
  }

  /** `lastack` thrown back by half the sequence space. */
  function Jumped(st: State): State {
    st.(una := st.una - 0x8000_0000, buf := ToU16(st.buf + ToU16(-0x8000_0000)))
  }

  lemma JumpRetires(st: State, fast: bool)
    requires st.max == st.una
    ensures RetireUnacked(st, st.una - 0x8000_0000, fast) == FreeUnacked(Jumped(st), st.una - 0x8000_0000)
    ensures Jumped(st).buf == st.buf
  {
    hide Newer, FreeUnacked, Requeue;
    NewerExactIff(st.una, st.una - 0x8000_0000, st.max);
  }

  /** Half the sequence space behind `lastack`, with nothing in flight: `lastack` jumps, and both queues are freed. */
  lemma MisreadJumps(st: State, fast: bool)
    requires Close(st) && st.max == st.una
    ensures var s := FreeUnsent(RetireUnacked(st, st.una - 0x8000_0000, fast), st.una - 0x8000_0000);
            s.unsent == [] && s.unacked == [] && SameRanges(st.(una := st.una - 0x8000_0000), s)
  {
    hide RetireUnacked, FreeUnacked, FreeUnsent, ToU16;
    var ack, w := st.una - 0x8000_0000, Jumped(st);
    JumpRetires(st, fast);
    FreeUnackedAll(w, st.una);
    FreeUnsentAll(FreeUnacked(w, ack), st.una, ack);
  }

  /** From half the sequence space behind `snd_max` on: all of `unsent` is freed. */
  lemma MisreadFrees(st: State, ack: int, fast: bool)
    requires Close(st) && !(ack == st.una - 0x8000_0000 && st.max == st.una)
    requires st.unsent != [] && st.max - 0x8000_0000 <= ack <= st.unsent[0].End() - 0x8000_0000
    requires forall i :: 0 <= i < |st.unsent| ==> st.unsent[i].End() >= st.unsent[0].End()
    ensures var s := FreeUnsent(RetireUnacked(st, ack, fast), ack);
            s.unsent == [] && s.unacked == st.unacked && SameRanges(st, s)
  {
    NewerExactIff(st.una, ack, st.max);
    assert RetireUnacked(st, ack, fast) == st;
    hide RetireUnacked, FreeUnsent, Newer;
    FreeUnsentAll(st, st.una, ack);
  }

  /** What a misread number does: `unsent` is lost, and nothing else moves unless it stands for `lastack` itself. */
  lemma MisreadLoses(c: Conn, ackno: u32, fast: bool, mss: u16)
    requires mss > 0 && Good(c, mss) && Misread(c.st, ackno)
    ensures var st := Acknowledged(c.st, ackno, fast);
            && st.unsent == [] && st.max == c.st.max && st.lbb == c.st.lbb && st.buf == c.st.buf
            && (if Nearest(c.st.una, ackno) == c.st.una - 0x8000_0000 && c.st.max == c.st.una
                then st.una == c.st.una - 0x8000_0000 && st.unacked == []
                else st.una == c.st.una && st.unacked == c.st.unacked && c.st.unsent != [])
  {
    var st, ack := c.st, Nearest(c.st.una, ackno);
    GoodIsClose(c, mss);
    EndsGrow(st, mss);
    hide Nearest, Good, FreeUnsent, RetireUnacked;
    if ack == st.una - 0x8000_0000 && st.max == st.una {
      MisreadJumps(st, fast);
    } else {
      MisreadFrees(st, ack, fast);
    }
  }

  /** An acknowledgement number keeps the invariant if and only if it is not misread. */
  lemma AcknowledgedGoodIff(c: Conn, ackno: u32, fast: bool, mss: u16)
    requires mss > 0 && Good(c, mss)
    ensures Good(c.(st := Acknowledged(c.st, ackno, fast)), mss) <==> !Misread(c.st, ackno)
  {
    if Misread(c.st, ackno) {
      MisreadLoses(c, ackno, fast, mss);
      hide Misread, Nearest;
      LostIsNotGood(c, Acknowledged(c.st, ackno, fast), mss);
    } else {
      GoodIsClose(c, mss);
      AcknowledgedExact(c.st, ackno, fast);
      hide Misread, Nearest, Good, Close;
      AckGood(c, Nearest(c.st.una, ackno), fast, mss);
    }
  }

  /** Without its `unsent`, or with `lastack` half the sequence space back, the queue no longer reaches `snd_lbb`. */
  lemma LostIsNotGood(c: Conn, st: State, mss: u16)
    requires Good(c, mss) && st.unsent == [] && st.lbb == c.st.lbb
    requires if st.una == c.st.una then st.unacked == c.st.unacked && c.st.unsent != []
             else st.una < c.st.una && st.unacked == []
    ensures !Good(c.(st := st), mss)
  {
    if st.unacked != [] {
      var a := Base(c.st);
      var b := HalvesTile(c.st, a, mss);
      assert st.Queue() == st.unacked && Base(st) == a;
      TilesOrdered(c.st.unsent, b, c.st.lbb, 0);
      if Tiles(st.unacked, a, st.lbb) { EndsOnce(st.unacked, a, b, st.lbb); }
    } else if st.una == c.st.una {
      assert c.st.Queue() == c.st.unsent;
      TilesOrdered(c.st.unsent, Base(c.st), c.st.lbb, 0);
    }
  }

  lemma {:induction false} EndsOnce(q: seq<Seg>, a: int, b: int, c: int)
    requires Tiles(q, a, b) && Tiles(q, a, c)
    ensures b == c
    decreases |q|
  {
    if q != [] { EndsOnce(q[1..], q[0].End(), b, c); }
  }

  // ----- Whole runs

  datatype Event =
    | Submit(r: Request, room: nat)
    | Emit(wnd: u32)
    | Rexmit
    | Acknowledge(ackno: u32, fast: bool)
  {
    predicate Valid() { Submit? ==> r.Valid() }
  }

  /** What the invariant takes: callers' requests as they should be, and acknowledgement numbers that are not misread. */
  predicate Sound(c: Conn, e: Event) {
    e.Valid() && (e.Acknowledge? ==> !Misread(c.st, e.ackno))
  }

  ghost function Step(c: Conn, e: Event, mss: u16): Conn
    requires mss > 0
  {
    match e
    case Submit(r, room) => Write(c, r, mss, room)
    case Emit(wnd) => Transmit(c, wnd)
    case Rexmit => c.(st := Requeue(c.st))
    case Acknowledge(ackno, fast) => c.(st := Acknowledged(c.st, ackno, fast))
  }

  ghost function Run(c: Conn, es: seq<Event>, mss: u16): Conn
    requires mss > 0
    decreases |es|
  {
    if es == [] then c else Run(Step(c, es[0], mss), es[1..], mss)
  }

  lemma StepGood(c: Conn, e: Event, mss: u16)
    requires mss > 0 && Good(c, mss) && Sound(c, e)
    ensures var c' := Step(c, e, mss); Good(c', mss) && c'.iss == c.iss && c.written <= c'.written && c.sent <= c'.sent
  {
    hide Good;
    match e
    case Submit(r, room) => WriteGood(c, r, mss, room);
    case Emit(wnd) => TransmitGood(c, wnd, mss);
    case Rexmit => RequeueGood(c, mss);
    case Acknowledge(ackno, fast) => AcknowledgedGoodIff(c, ackno, fast, mss);
  }

  lemma {:induction false} OutputRanges(st: State, wnd: u32)
    ensures var r := Output(st, wnd).0; r.una == st.una && r.lbb == st.lbb && r.max >= st.max
    decreases |st.unsent|
  {
    if Sendable(st, wnd) { OutputRanges(SendHead(st), wnd); }
  }

  /** Only acknowledgements move `lastack`, and `snd_max` never goes back. */
  lemma StepRanges(c: Conn, e: Event, mss: u16)
    requires mss > 0 && !e.Acknowledge?
    ensures var c' := Step(c, e, mss); c'.st.una == c.st.una && c'.st.max >= c.st.max
  {
    match e
    case Emit(wnd) => OutputRanges(c.st, wnd);
    case _ => hide Accepts, Append, Split;
  }

  lemma RequeuesAll(st: State)
    ensures var r := Requeue(st);
            r.unacked == [] && r.unsent == st.Queue() && r.una == st.una && r.max == st.max && r.lbb == st.lbb
  {
  }

  /** A window that covers `unsent` lets all of it out. */
  lemma WideOpen(st: State, wnd: u32)
    requires forall s :: s in st.unsent ==> s.Span() > 0 && s.End() - st.una <= wnd
    ensures var r := Output(st, wnd); r.1 == st.unsent && r.0.unsent == []
  {
    hide Output;
    OutputSendsWindow(st, wnd);
    var (r, segs) := Output(st, wnd);
    assert forall s :: s in st.unsent ==> s.pos + |s.data| - st.una <= wnd;
    assert forall s :: s in r.unsent ==> s in segs + r.unsent;
    assert segs + [] == segs;
  }

  /** Once all that is queued was sent, `snd_max` is `snd_lbb`. */
  lemma AllSentMax(c: Conn, mss: u16)
    requires Good(c, mss) && forall s :: s in c.st.Queue() ==> s in c.sent
    ensures c.st.max == c.st.lbb
  {
    var q := c.st.Queue();
    if q != [] {
      hide Tiles, Carries, Apart;
      LastEnds(q, Base(c.st), c.st.lbb);
      assert q[|q| - 1] in c.sent;
    }
  }

  lemma QueuedSpans(c: Conn, mss: u16)
    requires Good(c, mss)
    ensures forall s :: s in c.st.Queue() ==> s.Span() > 0 && s.End() <= c.st.lbb
  {
    var q := c.st.Queue();
    forall s | s in q ensures s.Span() > 0 && s.End() <= c.st.lbb {
      var i :| 0 <= i < |q| && q[i] == s;
      TilesOrdered(q, Base(c.st), c.st.lbb, i);
    }
  }

  /** `tcp_rexmit` and a window that covers the queue send all of it, in order. */
  lemma ResendsAll(c: Conn, wnd: u32, mss: u16)
    requires mss > 0 && Good(c, mss) && c.st.lbb - c.st.una <= wnd
    ensures var r := Step(Step(c, Rexmit, mss), Emit(wnd), mss);
            && Good(r, mss) && r.sent == c.sent + c.st.Queue() && r.st.Queue() == c.st.Queue()
            && r.written == c.written && r.iss == c.iss && r.st.una == c.st.una && r.st.max == r.st.lbb == c.st.lbb
  {
    hide Good, Output, Requeue;
    var c1 := c.(st := Requeue(c.st));
    RequeueGood(c, mss);
    RequeuesAll(c.st);
    TransmitGood(c1, wnd, mss);
    QueuedSpans(c1, mss);
    WideOpen(c1.st, wnd);
    OutputRanges(c1.st, wnd);
    AllSentMax(Transmit(c1, wnd), mss);
  }

  ghost predicate AllSound(c: Conn, es: seq<Event>, mss: u16)
    requires mss > 0
    decreases |es|
  {
    es == [] || (Sound(c, es[0]) && AllSound(Step(c, es[0], mss), es[1..], mss))
  }

  /**
   * Over every run of a passively opened connection the queues tile the sequence space up to
   * `snd_lbb`, nothing acknowledged stays queued, the buffer space and the queue length are
   * accounted for, and every segment ever sent carries the bytes written at its position.
   */
  lemma {:induction false} RunGood(c: Conn, es: seq<Event>, mss: u16)
    requires mss > 0 && Good(c, mss) && AllSound(c, es, mss)
    ensures Good(Run(c, es, mss), mss) && c.written <= Run(c, es, mss).written
    decreases |es|
  {
    if es != [] {
      StepGood(c, es[0], mss);
      RunGood(Step(c, es[0], mss), es[1..], mss);
    }
  }

  // ----- snd_nxt

  /** Where what has not gone out, or is to go out once more, starts. */
  ghost function ToSend(st: State): int {
    if st.unsent == [] then st.lbb else st.unsent[0].pos
  }

  /**
   * `snd_nxt` is where the next segment to go out starts.  It lags behind only when an acknowledgement has
   * emptied both queues in the middle of a retransmission, and until something new goes out.
   */
  ghost predicate Numbered(st: State) {
    st.nxt == ToSend(st) || (st.unacked == [] && st.nxt < ToSend(st) == st.una == st.max)
  }

  lemma WriteNumbered(c: Conn, r: Request, mss: u16, room: nat)
    requires mss > 0 && r.Valid() && Good(c, mss) && Numbered(c.st)
    ensures Numbered(Write(c, r, mss, room).st)
  {
    SplitTiles(c.st.lbb, r, mss);
    hide Good, Split, Tokens;
  }

  /** The end of the head of `unsent` is where the rest of it starts. */
  lemma NextStarts(st: State, mss: u16)
    requires Tiles(st.Queue(), Base(st), st.lbb) && Sized(st.Queue(), mss) && st.unsent != []
    ensures st.unsent[0].End() == if |st.unsent| > 1 then st.unsent[1].pos else st.lbb
  {
    var mid := HalvesTile(st, Base(st), mss);
  }

  lemma {:induction false} TransmitNumbered(c: Conn, wnd: u32, mss: u16)
    requires Good(c, mss) && Numbered(c.st)
    ensures Numbered(Transmit(c, wnd).st)
    decreases |c.st.unsent|
  {
    TransmitStep(c, wnd);
    if Sendable(c.st, wnd) {
      SendHeadGood(c, mss);
      NextStarts(c.st, mss);
      hide Good, Transmit, Tiles;
      TransmitNumbered(c.(st := SendHead(c.st), sent := c.sent + [c.st.unsent[0]]), wnd, mss);
    }
  }

  /** Where `snd_nxt` stands after the loop over `unsent`: at its new head, or at the last segment it freed. */
  lemma {:induction false} DropUnsentNxt(st: State, ack: int)
    requires st.unsent != [] && st.nxt == st.unsent[0].pos
    ensures var r := DropUnsent(st, ack);
            && (r.unsent == [] ==> r.nxt == st.unsent[|st.unsent| - 1].pos && st.unsent[|st.unsent| - 1].End() <= ack)
            && (r.unsent != [] ==> r.nxt == r.unsent[0].pos)
    decreases |st.unsent|
  {
    if st.unsent[0].End() <= ack && |st.unsent| > 1 { DropUnsentNxt(PopUnsent(st), ack); }
  }

  lemma {:induction false} DropUnackedNxt(st: State, ack: int)
    ensures DropUnacked(st, ack).nxt == st.nxt
    decreases |st.unacked|
  {
    if st.unacked != [] && st.unacked[0].End() <= ack { DropUnackedNxt(PopUnacked(st), ack); }
  }

  /** Once everything is acknowledged, nothing is queued. */
  lemma NothingLeft(c: Conn, mss: u16)
    requires Good(c, mss) && c.st.una == c.st.lbb
    ensures c.st.Queue() == []
  {
    if c.st.Queue() != [] { TilesOrdered(c.st.Queue(), Base(c.st), c.st.lbb, 0); }
  }

  /** The end of the last unsent segment is the end of all that was written. */
  lemma LastUnsent(c: Conn, mss: u16)
    requires Good(c, mss) && c.st.unsent != []
    ensures var t := c.st.unsent[|c.st.unsent| - 1]; t.pos < t.End() == c.st.lbb && c.st.una <= c.st.max <= c.st.lbb
  {
    var q := c.st.Queue();
    assert q[|q| - 1] == c.st.unsent[|c.st.unsent| - 1];
    LastEnds(q, Base(c.st), c.st.lbb);
  }

  lemma AckIs(st: State, ack: int, fast: bool)
    requires st.una < ack <= st.max
    ensures var w := st.(una := ack, buf := ToU16(st.buf + ToU16(ack - st.una)));
            var s := DropUnacked(w, ack);
            && Ack(st, ack, fast) == DropUnsent(s, ack) && s.unsent == st.unsent && s.nxt == st.nxt
            && s.max == st.max && s.lbb == st.lbb
  {
    var w := st.(una := ack, buf := ToU16(st.buf + ToU16(ack - st.una)));
    DropUnackedKeeps(w, ack);
    DropUnackedNxt(w, ack);
    hide DropUnacked, DropUnsent, ToU16;
  }

  lemma NewAckNumbered(c: Conn, ack: int, fast: bool, mss: u16)
    requires Good(c, mss) && c.st.una < ack <= c.st.max && Numbered(c.st)
    ensures Numbered(Ack(c.st, ack, fast))
  {
    hide Good, Ack, DropUnacked, ToU16;
    var st, r := c.st, Ack(c.st, ack, fast);
    var s := DropUnacked(st.(una := ack, buf := ToU16(st.buf + ToU16(ack - st.una))), ack);
    AckIs(st, ack, fast);
    NewAckGood(c, ack, fast, mss);
    AckRanges(st, ack, fast);
    if st.unsent != [] {
      LastUnsent(c, mss);
      DropUnsentNxt(s, ack);
      if r.unsent == [] { NothingLeft(c.(st := r), mss); }
    } else {
      assert r == s;
    }
  }

  lemma AckRanges(st: State, ack: int, fast: bool)
    ensures var r := Ack(st, ack, fast); r.max == st.max && r.lbb == st.lbb
  {
    hide DropUnacked, DropUnsent;
    forall s: State ensures DropUnacked(s, ack).max == s.max && DropUnacked(s, ack).lbb == s.lbb { DropUnackedKeeps(s, ack); }
    forall s: State ensures DropUnsent(s, ack).max == s.max && DropUnsent(s, ack).lbb == s.lbb { DropUnsentRanges(s, ack); }
  }

  lemma {:induction false} DropUnsentRanges(st: State, ack: int)
    ensures var r := DropUnsent(st, ack); r.max == st.max && r.lbb == st.lbb
    decreases |st.unsent|
  {
    if st.unsent != [] && st.unsent[0].End() <= ack { DropUnsentRanges(PopUnsent(st), ack); }
  }

  /** Every step that is not a misread number keeps it. */
  lemma StepNumbered(c: Conn, e: Event, mss: u16)
    requires mss > 0 && Good(c, mss) && Numbered(c.st) && Sound(c, e)
    ensures Numbered(Step(c, e, mss).st)
  {
    match e
    case Submit(r, room) => WriteNumbered(c, r, mss, room);
    case Emit(wnd) => TransmitNumbered(c, wnd, mss);
    case Rexmit =>
    case Acknowledge(ackno, fast) =>
      var ack := Nearest(c.st.una, ackno);
      GoodIsClose(c, mss);
      AcknowledgedExact(c.st, ackno, fast);
      if c.st.una < ack <= c.st.max {
        NewAckNumbered(c, ack, fast, mss);
      } else {
        OldAckNumbered(c, ack, fast, mss);
      }
  }

  lemma RequeueNumbered(st: State)
    requires Numbered(st)
    ensures Numbered(Requeue(st))
  {
  }

  lemma OldAckNumbered(c: Conn, ack: int, fast: bool, mss: u16)
    requires Good(c, mss) && !(c.st.una < ack <= c.st.max) && Numbered(c.st)
    ensures Numbered(Ack(c.st, ack, fast))
  {
    hide Good, Ack, Numbered, Requeue;
    OldAckIs(c, ack, fast, mss);
    RequeueNumbered(c.st);
  }

  lemma {:induction false} RunNumbered(c: Conn, es: seq<Event>, mss: u16)
    requires mss > 0 && Good(c, mss) && Numbered(c.st) && AllSound(c, es, mss)
    ensures Numbered(Run(c, es, mss).st)
    decreases |es|
  {
    hide Good, Numbered, Step, Sound;
    if es != [] {
      StepGood(c, es[0], mss);
      StepNumbered(c, es[0], mss);
      RunNumbered(Step(c, es[0], mss), es[1..], mss);
    }
  }

  /**
   * A misread number at work: a SYN is sent and acknowledged, ten bytes are written, and the number half the
   * sequence space ahead of `lastack` frees them before they were ever sent.
   */
  lemma BytesLost(c: Conn, es: seq<Event>, data: seq<u8>)
    requires c == Conn(0, Fresh(0), [], []) && |data| == 10
    requires es == [Submit(Request([], true, 1), 1), Emit(1000), Acknowledge(1, false),
                    Submit(Request(data, false, 1), 1), Acknowledge(0x8000_0001, false)]
    ensures var r := Run(c, es, TCP_MSS);
            && r.st.Queue() == [] && r.sent == [Seg(0, [], true, 1)] && r.written == [Control] + Tokens(Request(data, false, 1))
  {
    hide Tokens, Step, Run;
    var written := [Control] + Tokens(Request(data, false, 1));
    var syn, seg := Seg(0, [], true, 1), Seg(1, data, false, 1);
    var c1 := Conn(0, State(0, 0, 0, 1, 255, 1, [], [syn]), [Control], []);
    var c2 := Conn(0, State(0, 1, 1, 1, 255, 1, [syn], []), [Control], [syn]);
    var c3 := Conn(0, State(1, 1, 1, 1, 256, 0, [], []), [Control], [syn]);
    var c4 := Conn(0, State(1, 1, 1, 11, 246, 1, [], [seg]), written, [syn]);
    var c5 := Conn(0, State(1 - 0x8000_0000, 1, 1, 11, 246, 0, [], []), written, [syn]);
    SynWritten(c, c1);
    SynSent(c1, c2, syn);
    SynRetired(c2, c3, syn);
    DataWritten(c3, c4, data);
    DataLost(c4, c5, seg);
    RunIs([c, c1, c2, c3, c4, c5], es, TCP_MSS);
  }

  lemma SynWritten(c: Conn, c1: Conn)
    requires c == Conn(0, Fresh(0), [], [])
    requires c1 == Conn(0, State(0, 0, 0, 1, 255, 1, [], [Seg(0, [], true, 1)]), [Control], [])
    ensures Step(c, Submit(Request([], true, 1), 1), TCP_MSS) == c1
  {
  }

  lemma DataWritten(c: Conn, c': Conn, data: seq<u8>)
    requires c == Conn(0, State(1, 1, 1, 1, 256, 0, [], []), [Control], [Seg(0, [], true, 1)]) && |data| == 10
    requires c' == Conn(0, State(1, 1, 1, 11, 246, 1, [], [Seg(1, data, false, 1)]),
                        [Control] + Tokens(Request(data, false, 1)), c.sent)
    ensures Step(c, Submit(Request(data, false, 1), 1), TCP_MSS) == c'
  {
    var r := Request(data, false, 1);
    assert Split(1, r, TCP_MSS) == [Seg(1, data, false, 1)];
    hide Tokens, Split;
  }

  lemma SynSent(c: Conn, c': Conn, syn: Seg)
    requires syn == Seg(0, [], true, 1) && c == Conn(0, State(0, 0, 0, 1, 255, 1, [], [syn]), [Control], [])
    requires c' == Conn(0, State(0, 1, 1, 1, 255, 1, [syn], []), [Control], [syn])
    ensures Step(c, Emit(1000), TCP_MSS) == c'
  {
    assert c.st.unsent[1..] == [] && SendHead(c.st) == c'.st;
    assert Output(c'.st, 1000) == (c'.st, []);
    assert [syn] + Output(c'.st, 1000).1 == [syn];
    assert Output(c.st, 1000) == (c'.st, [syn]);
  }

  lemma OneIsNew(buf: u16)
    requires buf == 255
    ensures Newer(0, 1, 1) && WordsLeq(1, 1) && Nearest(0, 1) == 1 && ToU16(buf + ToU16(1)) == 256
  {
  }

  lemma SynRetired(c: Conn, c': Conn, syn: Seg)
    requires syn == Seg(0, [], true, 1) && c.st == State(0, 1, 1, 1, 255, 1, [syn], [])
    requires c' == c.(st := State(1, 1, 1, 1, 256, 0, [], []))
    ensures Step(c, Acknowledge(1, false), TCP_MSS) == c'
  {
    hide Newer, WordsLeq, Nearest, ToU16;
    var st, w, gone := c.st, State(1, 1, 1, 1, 256, 1, [syn], []), c'.st;
    OneIsNew(st.buf);
    assert RetireUnacked(st, 1, false) == FreeUnacked(w, 1);
    assert w.unacked[1..] == [];
    assert FreeUnacked(w, 1) == FreeUnacked(gone, 1) == gone;
    assert FreeUnsent(gone, 1) == gone;
  }

  lemma LostIsFreed(st: State, ack: int, seg: Seg)
    requires seg.pos == 1 && seg.Span() == 10 && ack == 1 - 0x8000_0000
    ensures Newer(1, ack, 1) && Frees(seg.End(), ack, 1) && Nearest(1, 0x8000_0001) == ack
    ensures ToU16(st.buf + ToU16(ack - 1)) == st.buf
  {
    NewerExactIff(1, ack, 1);
    FreesExactIff(1, seg, ack, 1);
  }

  lemma DataLost(c: Conn, c': Conn, seg: Seg)
    requires seg.pos == 1 && seg.Span() == 10 && seg.pbufs == 1 && c.st == State(1, 1, 1, 11, 246, 1, [], [seg])
    requires c' == c.(st := State(1 - 0x8000_0000, 1, 1, 11, 246, 0, [], []))
    ensures Step(c, Acknowledge(0x8000_0001, false), TCP_MSS) == c'
  {
    hide Newer, Frees, Nearest, ToU16;
    var st, ack := c.st, 1 - 0x8000_0000;
    LostIsFreed(st, ack, seg);
    var w, gone := st.(una := ack), c'.st;
    assert RetireUnacked(st, ack, false) == FreeUnacked(w, ack) == w;
    assert w.unsent[1..] == [] && Frees(w.unsent[0].End(), ack, w.max);
    assert FreeUnsent(w, ack) == FreeUnsent(gone, ack) == gone;
  }

  lemma {:induction false} RunIs(cs: seq<Conn>, es: seq<Event>, mss: u16)
    requires mss > 0 && |cs| == |es| + 1 && forall i :: 0 <= i < |es| ==> cs[i + 1] == Step(cs[i], es[i], mss)
    ensures Run(cs[0], es, mss) == cs[|es|]
    decreases |es|
  {
    hide Step;
    if es != [] { RunIs(cs[1..], es[1..], mss); }
  }

  /** The tokens in a queue, from its first segment to its last. */
  ghost function Content(q: seq<Seg>): seq<Token> {
    if q == [] then [] else Tokens(Request(q[0].data, q[0].ctl, 1)) + Content(q[1..])
  }

  /** The queues hold exactly what was written and is not yet retired. */
  lemma QueueHoldsUnretired(c: Conn, mss: u16)
    requires Good(c, mss)
    ensures Content(c.st.Queue()) == c.written[Base(c.st) - c.iss..]
  {
    ContentIsWritten(c.iss, c.written, c.st.Queue(), Base(c.st));
  }

  lemma {:induction false} ContentIsWritten(iss: int, written: seq<Token>, q: seq<Seg>, a: int)
    requires iss <= a && Tiles(q, a, iss + |written|) && forall s :: s in q ==> Carries(iss, written, s)
    ensures a <= iss + |written| && Content(q) == written[a - iss..]
    decreases |q|
  {
    hide Tokens, Carries;
    if q != [] {
      var s, e := q[0], q[0].End();
      assert Carries(iss, written, s);
      CarriedTokens(iss, written, s);
      ContentIsWritten(iss, written, q[1..], e);
      assert Content(q) == Tokens(Request(s.data, s.ctl, 1)) + Content(q[1..]);
      hide Content, Tiles;
      CutAt(written, a - iss, e - iss);
    }
  }

  lemma CarriedTokens(iss: int, written: seq<Token>, s: Seg)
    requires Carries(iss, written, s)
    ensures Tokens(Request(s.data, s.ctl, 1)) == written[s.pos - iss..s.End() - iss]
  {
  }

  lemma CutAt<T>(s: seq<T>, i: nat, j: nat)
    requires i <= j <= |s|
    ensures s[i..j] + s[j..] == s[i..]
  {
  }

  /** What is outstanding is bounded by the pbuf limit, far below the range of signed 32-bit differences. */
  lemma OutstandingBounded(c: Conn, mss: u16)
    requires Good(c, mss) && 0 < mss
    ensures 0 <= c.st.lbb - Base(c.st) <= TCP_SND_QUEUELEN * 0x1_0000
  {
    SpanBounded(c.st.Queue(), Base(c.st), c.st.lbb, mss);
  }

  lemma {:induction false} SpanBounded(q: seq<Seg>, a: int, b: int, mss: u16)
    requires Tiles(q, a, b) && Sized(q, mss) && 0 < mss
    ensures a <= b <= a + Pbufs(q) * 0x1_0000 && |q| <= Pbufs(q)
    decreases |q|
  {
    if q != [] {
      assert q[0].pbufs >= 1;
      assert forall i :: 0 <= i < |q[1..]| ==> q[1..][i] == q[i + 1];
      SpanBounded(q[1..], q[0].End(), b, mss);
    }
  }
}
