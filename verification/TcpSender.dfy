// The send fields of a TCP control block as the program keeps them, in 32-bit,
// 16-bit and 8-bit words.  Each method is proved equal to the sender over
// unbounded positions of module TcpSend, whose invariant every method keeps.
module TcpSender {
  import opened Words
  import S = TcpSend

  /** A queued `struct tcp_seg`: sequence number, payload, SYN or FIN flag and length of the pbuf chain. */
  datatype WireSeg = WireSeg(seqno: u32, data: seq<u8>, ctl: bool, pbufs: nat) {
    function Span(): nat { |data| + if ctl then 1 else 0 }
    /** The sequence number after the segment. */
    function End(): u32 { ToU32(seqno + Span()) }
  }

  function Wire(s: S.Seg): WireSeg {
    WireSeg(ToU32(s.pos), s.data, s.ctl, s.pbufs)
  }

  ghost predicate Encodes(ws: seq<WireSeg>, q: seq<S.Seg>) {
    |ws| == |q| && forall i :: 0 <= i < |ws| ==> ws[i] == Wire(q[i])
  }

  lemma EncodesMore(ws: seq<WireSeg>, q: seq<S.Seg>, s: S.Seg)
    requires Encodes(ws, q)
    ensures Encodes(ws + [Wire(s)], q + [s]) && |ws| == |q|
  {
  }

  lemma EndWraps(s: S.Seg)
    ensures Wire(s).End() == ToU32(s.End())
  {
    AddWraps(s.pos, s.Span());
  }

  /** The window test in wrapping arithmetic is the test on positions. */
  lemma WindowExact(una: int, s: S.Seg, wnd: u32)
    requires S.CloseSeg(una, s)
    ensures InWindow(Wire(s), ToU32(una), wnd) <==> s.pos - una + |s.data| <= wnd
  {
    SubWraps(s.pos, una);
    AddWraps(s.pos - una, |s.data|);
  }

  /** `ntohl(seg->tcphdr->seqno) - pcb->lastack + seg->len <= wnd` */
  predicate InWindow(seg: WireSeg, lastack: u32, wnd: u32) {
    ToU32(ToU32(seg.seqno - lastack) + |seg.data|) <= wnd
  }

  /** The send fields of `struct tcp_pcb`. */
  class Pcb {
    const mss: u16
    var lastack: u32
    var sndNxt: u32
    var sndMax: u32
    var sndLbb: u32
    var sndBuf: u16
    var sndQueuelen: u8
    var unsent: seq<WireSeg>
    var unacked: seq<WireSeg>
    ghost var st: S.State
    ghost var conn: S.Conn

    /** The words in memory are the positions of `st`, truncated. */
    ghost predicate Matches()
      reads this
    {
      && lastack == ToU32(st.una) && sndNxt == ToU32(st.nxt) && sndMax == ToU32(st.max) && sndLbb == ToU32(st.lbb)
      && sndBuf == st.buf && sndQueuelen == st.qlen
      && Encodes(unsent, st.unsent) && Encodes(unacked, st.unacked)
    }

    ghost predicate Valid()
      reads this
    {
      mss > 0 && Matches() && st == conn.st && S.Good(conn, mss)
    }

    constructor (iss: u32)
      ensures Valid() && conn == S.Conn(iss, S.Fresh(iss), [], []) && mss == S.TCP_MSS
    {
      mss := S.TCP_MSS;
      lastack, sndNxt, sndMax, sndLbb := iss, iss, iss, iss;
      sndBuf, sndQueuelen, unsent, unacked := S.TCP_SND_BUF, 0, [], [];
      st := S.Fresh(iss);
      conn := S.Conn(iss, S.Fresh(iss), [], []);
      S.FreshGood(iss, S.TCP_MSS);
    }

    /** The relinking of `tcp_rexmit`. */
    method Requeue()
      requires Matches()
      modifies this`unsent, this`unacked, this`sndNxt, this`st
      ensures Matches() && st == S.Requeue(old(st))
    {
      if unacked == [] { return; }
      unsent, unacked := unacked + unsent, [];
      sndNxt := unsent[0].seqno;
      st := S.Requeue(st);
    }

    /** The head of `unsent` moves to `unacked`. */
    method SendHead()
      requires Matches() && S.Close(st) && unsent != []
      modifies this`unsent, this`unacked, this`sndNxt, this`sndMax, this`st
      ensures Matches() && S.Close(st) && st == S.SendHead(old(st))
    {
      var seg := unsent[0];
      EndWraps(st.unsent[0]);
      SeqExact(st.max, st.unsent[0].End());
      unsent := unsent[1..];
      sndNxt := seg.End();
      if SeqLt(sndMax, sndNxt) { sndMax := sndNxt; }
      if seg.Span() > 0 { unacked := unacked + [seg]; }
      st := S.SendHead(st);
    }

    /** The send loop of `tcp_output` under a window of `wnd` bytes; returns what goes on the wire. */
    method SendLoop(wnd: u32) returns (wire: seq<WireSeg>)
      requires Matches() && S.Close(st)
      modifies this`unsent, this`unacked, this`sndNxt, this`sndMax, this`st
      ensures Matches() && st == S.Output(old(st), wnd).0 && Encodes(wire, S.Output(old(st), wnd).1)
    {
      wire := [];
      ghost var out: seq<S.Seg> := [];
      while unsent != [] && InWindow(unsent[0], lastack, wnd)
        invariant Matches() && S.Close(st) && Encodes(wire, out)
        invariant S.Output(st, wnd).0 == S.Output(old(st), wnd).0
        invariant out + S.Output(st, wnd).1 == S.Output(old(st), wnd).1
        decreases |unsent|
      {
        WindowExact(st.una, st.unsent[0], wnd);
        ghost var head, rest := st.unsent[0], S.Output(S.SendHead(st), wnd).1;
        assert out + ([head] + rest) == (out + [head]) + rest;
        wire, out := wire + [unsent[0]], out + [head];
        SendHead();
      }
      if unsent != [] { WindowExact(st.una, st.unsent[0], wnd); }
    }

    /** The loop that frees acknowledged segments of `unacked`. */
    method DropUnacked(ackno: u32, ghost ack: int)
      requires Matches() && ackno == ToU32(ack)
      modifies this`unacked, this`sndQueuelen, this`st
      ensures Matches() && st == S.FreeUnacked(old(st), ack)
    {
      while unacked != [] && SeqLeq(unacked[0].End(), ackno)
        invariant Matches() && S.FreeUnacked(st, ack) == S.FreeUnacked(old(st), ack)
        decreases |unacked|
      {
        EndWraps(st.unacked[0]);
        st := S.PopUnacked(st);
        sndQueuelen := ToU8(sndQueuelen - unacked[0].pbufs);
        unacked := unacked[1..];
      }
      if unacked != [] { EndWraps(st.unacked[0]); }
    }

    /** The loop that frees acknowledged segments of `unsent`, which a retransmission may have put there. */
    method DropUnsent(ackno: u32, ghost ack: int)
      requires Matches() && ackno == ToU32(ack)
      modifies this`unsent, this`sndQueuelen, this`sndNxt, this`st
      ensures Matches() && st == S.FreeUnsent(old(st), ack)
    {
      while unsent != [] && SeqLeq(unsent[0].End(), ackno) && SeqLeq(ackno, sndMax)
        invariant Matches() && S.FreeUnsent(st, ack) == S.FreeUnsent(old(st), ack)
        decreases |unsent|
      {
        EndWraps(st.unsent[0]);
        st := S.PopUnsent(st);
        sndQueuelen := ToU8(sndQueuelen - unsent[0].pbufs);
        unsent := unsent[1..];
        if unsent != [] { sndNxt := unsent[0].seqno; }
      }
      if unsent != [] { EndWraps(st.unsent[0]); }
    }

    /** The acknowledgement of new data: buffer space comes back, and acknowledged segments go. */
    method NewAck(ackno: u32, ghost ack: int)
      requires Matches() && ackno == ToU32(ack)
      modifies this`lastack, this`sndBuf, this`unacked, this`sndQueuelen, this`st
      ensures Matches() && var s := old(st); st == S.FreeUnacked(s.(una := ack, buf := ToU16(s.buf + ToU16(ack - s.una))), ack)
    {
      SubWraps(ack, st.una);
      LowBits(ack - st.una);
      var acked := ToU16(ToU32(ackno - lastack));
      sndBuf, lastack := ToU16(sndBuf + acked), ackno;
      st := st.(una := ack, buf := ToU16(st.buf + acked));
      DropUnacked(ackno, ack);
    }

    /** The acknowledgement half of `tcp_receive` up to its loop over `unsent`. */
    method AckUnacked(ackno: u32, fast: bool, ghost ack: int)
      requires Matches() && ack == Nearest(st.una, ackno)
      modifies this`lastack, this`sndBuf, this`unsent, this`unacked, this`sndQueuelen, this`sndNxt, this`st
      ensures Matches() && st == S.RetireUnacked(old(st), ack, fast)
    {
      SeqExact(ack, st.una);
      hide ToU32, Diff, Nearest;
      if lastack == ackno {
        if fast { Requeue(); }
      } else if SeqLt(lastack, ackno) && SeqLeq(ackno, sndMax) {
        NewAck(ackno, ack);
      }
    }

    /** The acknowledgement half of `tcp_receive`; `fast` on the duplicate that starts a fast retransmit. */
    method ProcessAck(ackno: u32, fast: bool)
      requires Matches()
      modifies this`lastack, this`sndBuf, this`unsent, this`unacked, this`sndQueuelen, this`sndNxt, this`st
      ensures Matches() && st == S.Acknowledged(old(st), ackno, fast)
    {
      ghost var ack := Nearest(st.una, ackno);
      AckUnacked(ackno, fast, ack);
      DropUnsent(ackno, ack);
    }

    // ----- The operations of the connection

    /** `tcp_output` */
    method Output(wnd: u32) returns (wire: seq<WireSeg>)
      requires Valid()
      modifies this
      ensures Valid() && conn == S.Transmit(old(conn), wnd) && Encodes(wire, S.Output(old(conn).st, wnd).1)
    {
      hide S.Good, S.Output, S.Close;
      S.GoodIsClose(conn, mss);
      S.TransmitGood(conn, wnd, mss);
      ghost var after := S.Transmit(conn, wnd);
      assert after.st == S.Output(conn.st, wnd).0;
      wire := SendLoop(wnd);
      conn := after;
    }

    /** `tcp_rexmit` up to its call of `tcp_output` */
    method Rexmit()
      requires Valid()
      modifies this
      ensures Valid() && conn == old(conn).(st := S.Requeue(old(conn).st))
    {
      hide S.Good, S.Requeue;
      S.RequeueGood(conn, mss);
      ghost var after := conn.(st := S.Requeue(conn.st));
      Requeue();
      conn := after;
    }

    /**
     * The removal of acknowledged segments, for every acknowledgement number.  One that is not misread does what
     * an acknowledgement of its position should do; exactly the others leave a queue that is no longer sound.
     */
    method Acknowledge(ackno: u32, fast: bool)
      requires Valid()
      modifies this
      ensures Matches() && st == conn.st && conn == old(conn).(st := S.Acknowledged(old(conn).st, ackno, fast))
      ensures Valid() <==> !S.Misread(old(conn).st, ackno)
      ensures Valid() ==> conn.st == S.Ack(old(conn).st, Nearest(old(conn).st.una, ackno), fast)
    {
      hide S.Good, S.Ack, S.Acknowledged, Nearest, S.Close, S.Misread;
      S.GoodIsClose(conn, mss);
      S.AcknowledgedGoodIff(conn, ackno, fast, mss);
      if !S.Misread(conn.st, ackno) { S.AcknowledgedExact(conn.st, ackno, fast); }
      ghost var after := conn.(st := S.Acknowledged(conn.st, ackno, fast));
      ProcessAck(ackno, fast);
      conn := after;
    }

    /** `tcp_enqueue`: ERR_MEM as `false`.  `room` is the number of segments there is memory for. */
    method Enqueue(r: S.Request, room: nat) returns (ok: bool)
      requires Valid() && r.Valid()
      modifies this
      ensures Valid() && conn == S.Write(old(conn), r, mss, room)
      ensures ok <==> S.Accepts(old(conn).st, r, mss, room)
      ensures !ok ==> conn == old(conn)
    {
      hide S.Good, S.Enqueue, S.Accepts;
      S.WriteGood(conn, r, mss, room);
      ghost var after := S.Write(conn, r, mss, room);
      ok := Append(r, room);
      conn := after;
    }

    /** Breaks the data up into segments; fails when memory or the queue limit runs out. */
    method BreakUp(r: S.Request, room: nat) returns (ok: bool, queue: seq<WireSeg>, queuelen: u8)
      requires Matches() && r.Valid() && mss > 0 && sndQueuelen < S.TCP_SND_QUEUELEN
      ensures var all := S.Split(st.lbb, r, mss);
              && (ok <==> |all| <= room && InAll(st.qlen, |all|, r.pbufs) <= S.TCP_SND_QUEUELEN)
              && (ok ==> queue != [] && Encodes(queue, all) && queuelen == InAll(st.qlen, |all|, r.pbufs))
    {
      hide ToU32, S.Split, InAll, CutInto, Encodes;
      ghost var cut := Cut(S.Split(st.lbb, r, mss), [], st.lbb);
      var left, seqno := r.data, sndLbb;
      queuelen, queue, ok := sndQueuelen, [], true;
      NothingCut(st.lbb, r, mss, room, st.qlen);
      while ok && (queue == [] || left != [])
        invariant cut.all == S.Split(st.lbb, r, mss)
        invariant if ok then CutInto(cut, queue, queuelen, seqno, left, r, mss, room, st.qlen)
                  else |cut.all| > room || InAll(st.qlen, |cut.all|, r.pbufs) > S.TCP_SND_QUEUELEN
        decreases |left|, queue == [], ok
      {
        var seglen := if |left| > mss then mss else |left|;
        CutOneMore(cut, queue, queuelen, seqno, left, r, mss, room, st.qlen);
        if |queue| == room || queuelen + r.pbufs > S.TCP_SND_QUEUELEN {
          ok := false;
        } else {
          cut := cut.(out := cut.out + [S.Seg(cut.pos, left[..seglen], r.ctl, r.pbufs)], pos := cut.pos + seglen);
          queuelen, queue := queuelen + r.pbufs, queue + [WireSeg(seqno, left[..seglen], r.ctl, r.pbufs)];
          left, seqno := left[seglen..], ToU32(seqno + seglen);
        }
      }
      if ok { AllCut(cut, queue, queuelen, seqno, r, mss, room, st.qlen); }
    }

    /** Joins the new segments to `unsent` and accounts for them. */
    method Append(r: S.Request, room: nat) returns (ok: bool)
      requires Matches() && r.Valid() && mss > 0
      modifies this`unsent, this`sndQueuelen, this`sndLbb, this`sndBuf, this`st
      ensures Matches() && st == S.Enqueue(old(st), r, mss, room)
      ensures ok <==> S.Accepts(old(st), r, mss, room)
    {
      hide ToU32, ToU16, S.Split, S.Accepts, S.Enqueue, S.Append, InAll, Encodes;
      ok := |r.data| <= sndBuf && sndQueuelen < S.TCP_SND_QUEUELEN;
      ghost var all := S.Split(st.lbb, r, mss);
      AcceptsIs(st, r, mss, room);
      if ok {
        var queue, queuelen;
        ok, queue, queuelen := BreakUp(r, room);
        if ok {
          JoinUnsent(queue, st.unsent, all);
          var len := if r.ctl then 1 else |r.data|;
          AddWraps(st.lbb, len);
          sndLbb, sndBuf, sndQueuelen := ToU32(sndLbb + len), ToU16(sndBuf - len), queuelen;
          st := S.Enqueue(st, r, mss, room);
        }
      }
    }

    /** The new segments go behind `unsent`, the first one chained to the last there if both fit in one. */
    method JoinUnsent(queue: seq<WireSeg>, ghost q: seq<S.Seg>, ghost segs: seq<S.Seg>)
      requires Encodes(unsent, q) && Encodes(queue, segs) && queue != []
      modifies this`unsent
      ensures Encodes(unsent, S.Append(q, segs, mss))
    {
      AppendEncodes(unsent, q, queue, segs, mss);
      var last := |unsent| - 1;
      if unsent != [] && unsent[last].Span() != 0 && !unsent[last].ctl && !queue[0].ctl && |unsent[last].data| + |queue[0].data| <= mss {
        unsent := unsent[..last] + [Chained(unsent[last], queue[0])] + queue[1..];
      } else {
        unsent := unsent + queue;
      }
    }
  }

  lemma AcceptsIs(st: S.State, r: S.Request, mss: u16, room: nat)
    requires mss > 0
    ensures var all := S.Split(st.lbb, r, mss);
            && (S.Accepts(st, r, mss, room) <==>
                  |r.data| <= st.buf && st.qlen < S.TCP_SND_QUEUELEN
                  && |all| <= room && InAll(st.qlen, |all|, r.pbufs) <= S.TCP_SND_QUEUELEN)
            && (S.Accepts(st, r, mss, room) ==>
                  S.Enqueue(st, r, mss, room)
                  == st.(unsent := S.Append(st.unsent, all, mss), lbb := st.lbb + r.Span(), buf := ToU16(st.buf - r.Span()),
                         qlen := InAll(st.qlen, |all|, r.pbufs)))
            && (!S.Accepts(st, r, mss, room) ==> S.Enqueue(st, r, mss, room) == st)
  {
  }

  /** Words and positions agree on whether the first new segment is chained, and on what comes of it. */
  lemma AppendEncodes(ws: seq<WireSeg>, q: seq<S.Seg>, queue: seq<WireSeg>, segs: seq<S.Seg>, mss: u16)
    requires Encodes(ws, q) && Encodes(queue, segs) && queue != []
    ensures var n := |ws| - 1;
            if ws != [] && ws[n].Span() != 0 && !ws[n].ctl && !queue[0].ctl && |ws[n].data| + |queue[0].data| <= mss then
              Encodes(ws[..n] + [Chained(ws[n], queue[0])] + queue[1..], S.Append(q, segs, mss))
            else Encodes(ws + queue, S.Append(q, segs, mss))
  {
  }

  /** `pbuf_cat` of two segments' chains. */
  function Chained(last: WireSeg, first: WireSeg): WireSeg {
    last.(data := last.data + first.data, pbufs := last.pbufs + first.pbufs)
  }

  /** The segments that a request makes, those of them that are cut off already, and where the next one starts. */
  datatype Cut = Cut(all: seq<S.Seg>, out: seq<S.Seg>, pos: int)

  /** What `queue` is while a request is broken up: the segments cut off, with `left` of the data still to be cut. */
  ghost predicate CutInto(c: Cut, queue: seq<WireSeg>, queuelen: int, seqno: u32, left: seq<u8>,
                          r: S.Request, mss: u16, room: nat, qlen: u8)
  {
    && mss > 0 && 1 <= r.pbufs <= 2 && seqno == ToU32(c.pos) && Encodes(queue, c.out) && |queue| <= room
    && queuelen == InAll(qlen, |queue|, r.pbufs) && (queue != [] ==> queuelen <= S.TCP_SND_QUEUELEN)
    && if queue != [] && left == [] then c.out == c.all else c.out + S.Split(c.pos, r.(data := left), mss) == c.all
  }

  lemma NothingCut(pos: int, r: S.Request, mss: u16, room: nat, qlen: u8)
    requires mss > 0 && r.Valid()
    ensures CutInto(Cut(S.Split(pos, r, mss), [], pos), [], qlen, ToU32(pos), r.data, r, mss, room, qlen)
  {
    hide S.Split, ToU32;
    assert r.(data := r.data) == r;
    assert 0 * r.pbufs == 0;
  }

  /** One more segment cut off: what remains is cut the same way, unless memory or the queue limit stops it. */
  lemma CutOneMore(c: Cut, queue: seq<WireSeg>, queuelen: int, seqno: u32, left: seq<u8>,
                   r: S.Request, mss: u16, room: nat, qlen: u8)
    requires CutInto(c, queue, queuelen, seqno, left, r, mss, room, qlen) && (queue == [] || left != [])
    ensures |queue| <= room && mss > 0 && 1 <= r.pbufs <= 2
    ensures var n := if |left| > mss then mss else |left|;
            if |queue| == room || queuelen + r.pbufs > S.TCP_SND_QUEUELEN then
              |c.all| > room || InAll(qlen, |c.all|, r.pbufs) > S.TCP_SND_QUEUELEN
            else
              CutInto(c.(out := c.out + [S.Seg(c.pos, left[..n], r.ctl, r.pbufs)], pos := c.pos + n),
                      queue + [WireSeg(seqno, left[..n], r.ctl, r.pbufs)], queuelen + r.pbufs, ToU32(seqno + n), left[n..],
                      r, mss, room, qlen)
  {
    hide S.Split, ToU32, InAll, Encodes;
    var n := if |left| > mss then mss else |left|;
    var seg := S.Seg(c.pos, left[..n], r.ctl, r.pbufs);
    AddWraps(c.pos, n);
    EncodesMore(queue, c.out, seg);
    NextCut(c.out, c.pos, r, left, mss, c.all);
    OneMoreInAll(qlen, |queue|, |c.all|, r.pbufs);
    var more := c.(out := c.out + [seg], pos := c.pos + n);
    assert more.out != [] && |more.out| == |queue| + 1;
    if |queue| < room && queuelen + r.pbufs <= S.TCP_SND_QUEUELEN {
      assert if left[n..] == [] then more.out == c.all else more.out + S.Split(more.pos, r.(data := left[n..]), mss) == c.all;
    }
  }

  lemma NextCut(out: seq<S.Seg>, pos: int, r: S.Request, left: seq<u8>, mss: u16, all: seq<S.Seg>)
    requires mss > 0 && out + S.Split(pos, r.(data := left), mss) == all
    ensures var n := if |left| > mss then mss else |left|;
            var more := out + [S.Seg(pos, left[..n], r.ctl, r.pbufs)];
            |out| < |all| && if left[n..] == [] then more == all else more + S.Split(pos + n, r.(data := left[n..]), mss) == all
  {
    if |left| <= mss { assert left[..|left|] == left; }
  }

  lemma AllCut(c: Cut, queue: seq<WireSeg>, queuelen: int, seqno: u32, r: S.Request, mss: u16, room: nat, qlen: u8)
    requires CutInto(c, queue, queuelen, seqno, [], r, mss, room, qlen) && queue != []
    ensures |c.all| <= room && Encodes(queue, c.all) && queuelen == InAll(qlen, |c.all|, r.pbufs) <= S.TCP_SND_QUEUELEN
  {
    hide InAll;
  }

  /** The pbufs of `n` segments with `pbufs` each, behind `qlen` others. */
  ghost function InAll(qlen: nat, n: nat, pbufs: nat): nat {
    qlen + n * pbufs
  }

  lemma OneMoreInAll(qlen: nat, n: nat, all: nat, pbufs: nat)
    requires n < all && 1 <= pbufs <= 2
    ensures InAll(qlen, n, pbufs) + pbufs == InAll(qlen, n + 1, pbufs) <= InAll(qlen, all, pbufs)
  {
  }
}
