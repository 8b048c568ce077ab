// The receive fields of a TCP control block as the program keeps them: 32-bit
// sequence numbers, 16-bit lengths and window.  Each method is proved equal to
// the receiver over unbounded positions of module TcpReceive.
module TcpReceiver {
  import opened Words
  import R = TcpReceive

  /** `struct tcp_seg`: the header's `seqno`, the `len` field and the bytes of the pbuf chain. */
  datatype WireSeg = WireSeg(seqno: u32, len: u16, data: seq<u8>)

  function Wire(s: R.Seg): WireSeg {
    WireSeg(ToU32(s.pos), s.len, s.data)
  }

  class Pcb {
    var rcvNxt: u32
    var rcvWnd: u16
    var ooseq: seq<WireSeg>
    ghost var st: R.State

    /** The words in memory are the positions of `st`, truncated. */
    ghost predicate Matches()
      reads this
    {
      && rcvNxt == ToU32(st.nxt) && rcvWnd == st.wnd
      && |ooseq| == |st.queue|
      && forall i :: 0 <= i < |ooseq| ==> ooseq[i] == Wire(st.queue[i])
    }

    /** Queued segments lie close enough to `rcv_nxt` for signed differences to order them. */
    ghost predicate Valid()
      reads this
    {
      && Matches() && |ooseq| <= SEGMENTS
      && forall i :: 0 <= i < |st.queue| ==> -0x4000_0000 < st.queue[i].pos - st.nxt < 0x4000_0000
    }

    constructor (irs: u32)
      ensures Valid() && st == R.State(irs, R.TCP_WND, []) && R.Tiled(st)
    {
      rcvNxt, rcvWnd, ooseq := irs, R.TCP_WND, [];
      st := R.State(irs, R.TCP_WND, []);
    }

    /** Relinks `ooseq`: the segments from `lo` to `hi` give way to `segs`. */
    method Splice(lo: nat, hi: nat, segs: seq<WireSeg>, ghost abs: seq<R.Seg>)
      requires Matches() && lo <= hi <= |ooseq|
      requires |segs| == |abs| && forall i :: 0 <= i < |segs| ==> segs[i] == Wire(abs[i])
      modifies this
      ensures Matches() && st == old(st).(queue := old(st).queue[..lo] + abs + old(st).queue[hi..])
    {
      ooseq := ooseq[..lo] + segs + ooseq[hi..];
      st := st.(queue := st.queue[..lo] + abs + st.queue[hi..]);
    }

    /** The walk along `ooseq` for the place of an out-of-sequence segment. */
    method Insert(s: WireSeg, alloc: bool, ghost abs: R.Seg)
      requires Valid() && s == Wire(abs) && 0 <= abs.pos - st.nxt < 0x1_0000
      modifies this
      ensures Matches() && st == old(st).(queue := R.Insert(old(st).queue, abs, alloc))
    {
      hide ToU32, Diff, SeqLt, SeqGt, R.Clip, ClipWire;
      ghost var q := st.queue;
      if ooseq == [] {
        if alloc { Splice(0, 0, [s], [abs]); }
        return;
      }
      var i := 0;
      while i < |ooseq|
        invariant i <= |ooseq| && unchanged(this)
        invariant R.Walk(q, i, abs, alloc) == R.Walk(q, 0, abs, alloc)
      {
        var next := ooseq[i];
        CompareExact(abs, q[i]);
        CompareExact(q[i], abs);
        if i > 0 { CompareExact(q[i - 1], abs); }
        if s.seqno == next.seqno {
          if s.len > next.len && alloc { Splice(i, i + 1, [s], [abs]); }
          return;
        } else if i == 0 && SeqLt(s.seqno, next.seqno) {
          if alloc { Splice(0, 0, [ClipWire(s, next.seqno)], [R.Clip(abs, q[i].pos)]); }
          return;
        } else if i > 0 && SeqLt(ooseq[i - 1].seqno, s.seqno) && SeqLt(s.seqno, next.seqno) {
          if alloc {
            Splice(i - 1, i, [ClipWire(ooseq[i - 1], s.seqno), ClipWire(s, next.seqno)],
                   [R.Clip(q[i - 1], abs.pos), R.Clip(abs, q[i].pos)]);
          }
          return;
        } else if i == |ooseq| - 1 && SeqGt(s.seqno, next.seqno) {
          if alloc { Splice(i, i + 1, [ClipWire(next, s.seqno), s], [R.Clip(q[i], abs.pos), abs]); }
          return;
        }
        i := i + 1;
      }
    }

    /** Chains the queued segments that are now in sequence onto the received data. */
    method Drain(recvData: seq<u8>) returns (r: seq<u8>)
      requires Matches() && |ooseq| <= SEGMENTS
      requires forall i :: 0 <= i < |st.queue| ==> -0x5000_0000 < st.queue[i].pos - st.nxt < 0x5000_0000
      modifies this
      ensures Matches() && R.Outcome(st, r) == (var d := R.Drain(old(st)); R.Outcome(d.state, recvData + d.bytes))
    {
      hide ToU32, Diff;
      r := recvData;
      ghost var nxt := st.nxt;
      while ooseq != [] && ooseq[0].seqno == rcvNxt
        invariant Matches() && |ooseq| <= SEGMENTS && nxt <= st.nxt <= nxt + 0x1_0000 * (SEGMENTS - |ooseq|)
        invariant forall i :: 0 <= i < |st.queue| ==> -0x5000_0000 < st.queue[i].pos - nxt < 0x5000_0000
        invariant (var d := R.Drain(st); R.Outcome(d.state, r + d.bytes)) == (var d := R.Drain(old(st)); R.Outcome(d.state, recvData + d.bytes))
        decreases |ooseq|
      {
        var head := ooseq[0];
        assert st.queue[0].pos == st.nxt by { SeqExact(st.queue[0].pos, st.nxt); }
        AddWraps(st.nxt, head.len);
        ghost var rest := R.Drain(R.AfterHead(st)).bytes;
        assert (r + head.data) + rest == r + (head.data + rest);
        rcvNxt, rcvWnd := ToU32(rcvNxt + head.len), if rcvWnd < head.len then 0 else rcvWnd - head.len;
        r, ooseq := r + head.data, ooseq[1..];
        st := R.AfterHead(st);
      }
      if ooseq != [] { SeqExact(st.queue[0].pos, st.nxt); }
      assert r + [] == r;
    }

    /** The next segment in sequence: trimmed, counted, and the queue drained behind it. */
    method InSequence(s: WireSeg, ghost abs: R.Seg) returns (recvData: seq<u8>)
      requires Valid() && s == Wire(abs) && abs.pos == st.nxt
      modifies this
      ensures Matches() && R.Outcome(st, recvData) == R.InSequence(old(st), abs)
    {
      hide ToU32, Diff;
      var len, data := s.len, s.data;
      ghost var q := st.queue;
      AddWraps(abs.pos, abs.len);
      if ooseq != [] {
        SeqExact(q[0].pos, abs.pos + abs.len);
        SubWraps(q[0].pos, abs.pos);
        LowBits(q[0].pos - abs.pos);
      }
      if ooseq != [] && SeqLeq(ooseq[0].seqno, ToU32(s.seqno + len)) {
        len := ToU16(ToU32(ooseq[0].seqno - s.seqno));
        data := R.Resized(data, len);
      }
      AddWraps(st.nxt, len);
      rcvNxt, rcvWnd := ToU32(rcvNxt + len), if rcvWnd < len then 0 else rcvWnd - len;
      st := R.State(st.nxt + len, R.Shrunk(st.wnd, len), q);
      recvData := Drain(data);
    }

    /** Trims what was received before off the front of a segment. */
    method TrimFront(wireSeqno: u32, payload: seq<u8>) returns (s: WireSeg)
      requires Matches() && 0 < |payload| < 0x1_0000
      ensures s == Wire(R.FrontTrimmed(st.nxt, Nearest(st.nxt, wireSeqno), payload))
    {
      hide ToU32, Diff;
      ghost var pos := Nearest(st.nxt, wireSeqno);
      var seqno, len, data := wireSeqno, |payload|, payload;
      SeqExact(pos, st.nxt);
      AddWraps(pos, len);
      if SeqLt(seqno, rcvNxt) {
        SeqExact(st.nxt, pos + len);
        if SeqLt(rcvNxt, ToU32(seqno + len)) {
          DiffExact(st.nxt, pos);
          var off := Diff(rcvNxt, seqno);
          data, len, seqno := data[off..], len - off, rcvNxt;
        }
      }
      s := WireSeg(seqno, len, data);
    }

    /** `tcp_receive` on a segment without SYN or FIN; `alloc` tells whether a segment can be allocated. */
    method Receive(wireSeqno: u32, payload: seq<u8>, alloc: bool) returns (recvData: seq<u8>)
      requires Valid() && |payload| < 0x1_0000
      requires alloc ==> |ooseq| < SEGMENTS
      modifies this
      ensures Matches()
      ensures R.Outcome(st, recvData) == R.Receive(old(st), Nearest(old(st).nxt, wireSeqno), payload, alloc)
      ensures R.Tiled(st) ==> Valid()
    {
      hide ToU32, Diff, R.FrontTrimmed, R.InSequence, R.Insert, R.Tiled;
      R.QueueGrowsByOne(st, Nearest(st.nxt, wireSeqno), payload, alloc);
      recvData := [];
      if |payload| != 0 {
        ghost var s := R.FrontTrimmed(st.nxt, Nearest(st.nxt, wireSeqno), payload);
        var seg := TrimFront(wireSeqno, payload);
        TrimmedIsNear(st.nxt, wireSeqno, payload);
        SeqExact(s.pos, st.nxt);
        if SeqGeq(seg.seqno, rcvNxt) {
          AddWraps(st.nxt, rcvWnd);
          SeqExact(s.pos, st.nxt + rcvWnd);
          if SeqLt(seg.seqno, ToU32(rcvNxt + rcvWnd)) {
            if rcvNxt == seg.seqno {
              recvData := InSequence(seg, s);
            } else {
              Insert(seg, alloc, s);
            }
          }
        }
      }
      TiledIsNear(st);
    }

    /** `tcp_recved`: the application has consumed `len` bytes. */
    method Recved(len: u16)
      requires Valid()
      modifies this
      ensures Valid() && st == R.Step(old(st), R.Recved(len)).state
    {
      rcvWnd := if rcvWnd + len > R.TCP_WND then R.TCP_WND else rcvWnd + len;
      st := st.(wnd := rcvWnd);
    }
  }

  /** In a tiled queue all segments lie near `rcv_nxt`. */
  lemma TiledIsNear(st: R.State)
    ensures R.Tiled(st) ==> forall i :: 0 <= i < |st.queue| ==> -0x4000_0000 < st.queue[i].pos - st.nxt < 0x4000_0000
  {
  }

  lemma TrimmedIsNear(nxt: int, seqno: u32, payload: seq<u8>)
    requires 0 < |payload| < 0x1_0000
    ensures var s := R.FrontTrimmed(nxt, Nearest(nxt, seqno), payload);
            -0x8000_0000 <= s.pos - nxt < 0x8000_0000
  {
  }

  /** `MEMP_NUM_TCP_SEG`: no more segments than this can be allocated at a time. */
  const SEGMENTS := 64

  /** `if (TCP_SEQ_GT(seqno + len, bound)) { len = bound - seqno; pbuf_realloc(p, len); }` */
  function ClipWire(s: WireSeg, bound: u32): WireSeg {
    if SeqGt(ToU32(s.seqno + s.len), bound) then
      var len := ToU16(ToU32(bound - s.seqno));
      WireSeg(s.seqno, len, R.Resized(s.data, len))
    else s
  }

  /** Comparing and trimming on 32-bit words is exact for segments that lie near each other. */
  lemma CompareExact(a: R.Seg, b: R.Seg)
    requires -0x7000_0000 < a.pos - b.pos < 0x7000_0000
    ensures Wire(a).seqno == Wire(b).seqno <==> a.pos == b.pos
    ensures SeqLt(Wire(a).seqno, Wire(b).seqno) <==> a.pos < b.pos
    ensures SeqGt(Wire(a).seqno, Wire(b).seqno) <==> a.pos > b.pos
    ensures ClipWire(Wire(a), Wire(b).seqno) == Wire(R.Clip(a, b.pos))
  {
    SeqExact(a.pos, b.pos);
    SeqExact(a.pos + a.len, b.pos);
    AddWraps(a.pos, a.len);
    SubWraps(b.pos, a.pos);
    LowBits(b.pos - a.pos);
  }
}
