// The sender of module TcpSend feeding the receiver of module TcpReceive over
// a network that may lose, repeat, delay and reorder what it is given.
module TcpEndToEnd {
  import opened Words
  import S = TcpSend
  import R = TcpReceive

  /** Both ends, the position `start` of the first byte to hand up, and what was handed up so far. */
  datatype World = World(c: S.Conn, r: R.State, start: int, got: seq<u8>)

  /** A step of the sender, the arrival of any segment sent so far, or a step of the receiving application. */
  datatype Event =
    | Sender(e: S.Event)
    | Deliver(k: nat, alloc: bool)
    | Recved(len: u16)
    | DropQueue

  /**
   * The sender is given no acknowledgement number that it misreads.  The network hands over data segments
   * that were sent, none of them 2^31 or more away from what the receiver expects: section 3.3 of RFC 793
   * rules such old duplicates out.
   */
  ghost predicate Possible(w: World, e: Event) {
    match e
    case Sender(se) => S.Sound(w.c, se)
    case Deliver(k, _) =>
      k < |w.c.sent| && !w.c.sent[k].ctl && |w.c.sent[k].data| < 0x1_0000 && -0x8000_0000 <= w.c.sent[k].pos - w.r.nxt < 0x8000_0000
    case _ => true
  }

  /** The segment delivered is one that was sent. */
  predicate Defined(w: World, e: Event) {
    e.Deliver? ==> e.k < |w.c.sent| && |w.c.sent[e.k].data| < 0x1_0000
  }

  ghost function Step(w: World, e: Event, mss: u16): World
    requires mss > 0 && Defined(w, e)
  {
    match e
    case Sender(se) => w.(c := S.Step(w.c, se, mss))
    case Deliver(k, alloc) =>
      var s := w.c.sent[k];
      var o := R.Step(w.r, R.Arrive(ToU32(s.pos), s.data, alloc));
      w.(r := o.state, got := w.got + o.bytes)
    case Recved(len) => w.(r := R.Step(w.r, R.Recved(len)).state)
    case DropQueue => w.(r := R.Step(w.r, R.DropQueue).state)
  }

  /** `b` is the byte written at position `x`. */
  ghost predicate HeldAt(c: S.Conn, x: int, b: u8) {
    0 <= x - c.iss < |c.written| && c.written[x - c.iss] == S.Byte(b)
  }

  /** `data` is what was written at position `pos`. */
  ghost predicate Holds(c: S.Conn, pos: int, data: seq<u8>) {
    forall i :: 0 <= i < |data| ==> HeldAt(c, pos + i, data[i])
  }

  lemma HoldsJoins(c: S.Conn, pos: int, a: seq<u8>, b: seq<u8>)
    requires Holds(c, pos, a) && Holds(c, pos + |a|, b)
    ensures Holds(c, pos, a + b)
  {
    forall i | 0 <= i < |a + b| ensures HeldAt(c, pos + i, (a + b)[i]) {
      if i >= |a| { assert HeldAt(c, pos + |a| + (i - |a|), b[i - |a|]); }
    }
  }

  ghost predicate FromSent(c: S.Conn, t: R.Seg) {
    exists s :: s in c.sent && t.pos == s.pos && t.pos + t.len <= s.End()
  }

  /** The receiver has handed up exactly what was written so far from `start` on, and queues pieces of sent segments. */
  ghost predicate Good(w: World, mss: u16) {
    && S.Good(w.c, mss) && R.Tiled(w.r)
    && w.r.nxt == w.start + |w.got| && Holds(w.c, w.start, w.got)
    && (forall t :: t in w.r.queue ==> Holds(w.c, t.pos, t.data) && FromSent(w.c, t))
  }

  /** The written bytes as a stream, with `fill` where no byte is written. */
  ghost function StreamAt(c: S.Conn, fill: u8, x: int): u8 {
    if 0 <= x - c.iss < |c.written| && c.written[x - c.iss].Byte? then c.written[x - c.iss].b else fill
  }

  ghost function Stream(c: S.Conn, fill: u8): int -> u8 {
    x => StreamAt(c, fill, x)
  }

  /** Agreeing with the stream whatever fills its holes means holding written bytes only. */
  lemma TwoFills(c: S.Conn, pos: int, data: seq<u8>)
    requires R.Agrees(Stream(c, 0), pos, data) && R.Agrees(Stream(c, 1), pos, data)
    ensures Holds(c, pos, data)
  {
    forall i | 0 <= i < |data| ensures HeldAt(c, pos + i, data[i]) {
      assert data[i] == Stream(c, 0)(pos + i) == Stream(c, 1)(pos + i);
    }
  }

  lemma HoldsAgrees(c: S.Conn, pos: int, data: seq<u8>, fill: u8)
    requires Holds(c, pos, data)
    ensures R.Agrees(Stream(c, fill), pos, data)
  {
    forall i | 0 <= i < |data| ensures data[i] == Stream(c, fill)(pos + i) { assert HeldAt(c, pos + i, data[i]); }
  }

  /** Segments of this sender never overrun: those that start apart lie apart. */
  lemma NeverOverruns(w: World, k: nat, alloc: bool, mss: u16)
    requires Good(w, mss) && k < |w.c.sent|
    ensures !R.Overruns(w.r, w.c.sent[k].pos, w.c.sent[k].data, alloc)
  {
    var s, q := w.c.sent[k], w.r.queue;
    forall j | 0 <= j < |q| - 1 && q[j].pos == s.pos ensures q[j + 1].pos >= s.pos + |s.data| {
      assert q[j].pos + q[j].len <= q[j + 1].pos;
      assert FromSent(w.c, q[j + 1]);
      var t :| t in w.c.sent && q[j + 1].pos == t.pos && q[j + 1].pos + q[j + 1].len <= t.End();
      assert S.Apart(s, t);
    }
  }

  /** An arriving segment leaves pieces of sent segments in the queue. */
  lemma OriginsKept(w: World, k: nat, alloc: bool, mss: u16, t: R.Seg)
    requires Good(w, mss) && k < |w.c.sent| && |w.c.sent[k].data| < 0x1_0000
    requires t in R.Receive(w.r, w.c.sent[k].pos, w.c.sent[k].data, alloc).state.queue
    ensures FromSent(w.c, t)
  {
    var s := w.c.sent[k];
    R.QueueOrigins(w.r, s.pos, s.data, alloc, t);
    if !R.Within(t, R.Seg(s.pos, |s.data|, s.data)) {
      var u :| u in w.r.queue && R.Within(t, u);
      assert FromSent(w.c, u);
    }
  }

  /** Handing up a slice of the stream that agrees for both fills hands up written bytes. */
  lemma SliceHolds(c: S.Conn, a: int, b: int, bytes: seq<u8>)
    requires a <= b && bytes == R.Slice(Stream(c, 0), a, b) && bytes == R.Slice(Stream(c, 1), a, b)
    ensures Holds(c, a, bytes)
  {
    assert R.Agrees(Stream(c, 0), a, bytes) && R.Agrees(Stream(c, 1), a, bytes);
    TwoFills(c, a, bytes);
  }

  lemma DeliverUnder(w: World, k: nat, alloc: bool, mss: u16, fill: u8)
    requires mss > 0 && Good(w, mss) && Possible(w, Deliver(k, alloc))
    ensures var s := w.c.sent[k];
            var o := R.Receive(w.r, s.pos, s.data, alloc);
            && o.state.nxt >= w.r.nxt && R.Tiled(o.state)
            && o.bytes == R.Slice(Stream(w.c, fill), w.r.nxt, o.state.nxt)
            && R.Buffered(Stream(w.c, fill), o.state.queue)
  {
    var s := w.c.sent[k];
    NeverOverruns(w, k, alloc, mss);
    HoldsAgrees(w.c, s.pos, s.data, fill);
    forall i | 0 <= i < |w.r.queue| ensures R.Agrees(Stream(w.c, fill), w.r.queue[i].pos, w.r.queue[i].data) {
      HoldsAgrees(w.c, w.r.queue[i].pos, w.r.queue[i].data, fill);
    }
    R.ReceiveDelivers(w.r, s.pos, s.data, alloc, Stream(w.c, fill));
  }

  lemma DeliverGood(w: World, k: nat, alloc: bool, mss: u16)
    requires mss > 0 && Good(w, mss) && Possible(w, Deliver(k, alloc))
    ensures Good(Step(w, Deliver(k, alloc), mss), mss)
  {
    var s := w.c.sent[k];
    var o := R.Receive(w.r, s.pos, s.data, alloc);
    NearestInverts(w.r.nxt, s.pos);
    DeliverUnder(w, k, alloc, mss, 0);
    DeliverUnder(w, k, alloc, mss, 1);
    SliceHolds(w.c, w.r.nxt, o.state.nxt, o.bytes);
    HoldsJoins(w.c, w.start, w.got, o.bytes);
    forall t | t in o.state.queue ensures Holds(w.c, t.pos, t.data) && FromSent(w.c, t) {
      OriginsKept(w, k, alloc, mss, t);
      TwoFills(w.c, t.pos, t.data);
    }
  }

  /** What is written stays written. */
  lemma HoldsGrows(c: S.Conn, c': S.Conn, pos: int, data: seq<u8>)
    requires Holds(c, pos, data) && c.iss == c'.iss && c.written <= c'.written
    ensures Holds(c', pos, data)
  {
    forall i | 0 <= i < |data| ensures HeldAt(c', pos + i, data[i]) { assert HeldAt(c, pos + i, data[i]); }
  }

  lemma SenderGood(w: World, e: S.Event, mss: u16)
    requires mss > 0 && Good(w, mss) && S.Sound(w.c, e)
    ensures Good(Step(w, Sender(e), mss), mss)
  {
    S.StepGood(w.c, e, mss);
    var c' := S.Step(w.c, e, mss);
    HoldsGrows(w.c, c', w.start, w.got);
    forall t | t in w.r.queue ensures Holds(c', t.pos, t.data) && FromSent(c', t) {
      HoldsGrows(w.c, c', t.pos, t.data);
      var s :| s in w.c.sent && t.pos == s.pos && t.pos + t.len <= s.End();
      assert s in c'.sent;
    }
  }

  lemma StepGood(w: World, e: Event, mss: u16)
    requires mss > 0 && Good(w, mss) && Possible(w, e)
    ensures Good(Step(w, e, mss), mss)
  {
    match e
    case Sender(se) => SenderGood(w, se, mss);
    case Deliver(k, alloc) => DeliverGood(w, k, alloc, mss);
    case _ =>
  }

  /** A run: a sequence of worlds, each a possible step after the one before. */
  ghost predicate Run(ws: seq<World>, es: seq<Event>, mss: u16)
    requires mss > 0
  {
    && |ws| == |es| + 1
    && forall i :: 0 <= i < |es| ==> Possible(ws[i], es[i]) && ws[i + 1] == Step(ws[i], es[i], mss)
  }

  ghost predicate Initial(w: World) {
    && w.c == S.Conn(w.c.iss, S.Fresh(w.c.iss), [], [])
    && w.r == R.State(w.start, R.TCP_WND, []) && w.got == [] && w.c.iss <= w.start
  }

  ghost function AsTokens(data: seq<u8>): seq<S.Token> {
    seq(|data|, i requires 0 <= i < |data| => S.Byte(data[i]))
  }

  /** What was handed up is what was written. */
  lemma GotIsWritten(w: World, mss: u16)
    requires Good(w, mss) && w.got != []
    ensures var skip := w.start - w.c.iss;
            0 <= skip && skip + |w.got| <= |w.c.written| && AsTokens(w.got) == w.c.written[skip..skip + |w.got|]
  {
    assert HeldAt(w.c, w.start + 0, w.got[0]) && HeldAt(w.c, w.start + (|w.got| - 1), w.got[|w.got| - 1]);
    forall i | 0 <= i < |w.got| ensures w.c.written[w.start - w.c.iss + i] == S.Byte(w.got[i]) {
      assert HeldAt(w.c, w.start + i, w.got[i]);
    }
  }

  lemma {:induction false} RunGood(ws: seq<World>, es: seq<Event>, mss: u16, n: nat)
    requires mss > 0 && Run(ws, es, mss) && Initial(ws[0]) && n < |ws|
    ensures Good(ws[n], mss) && ws[n].start == ws[0].start && ws[n].c.iss == ws[0].c.iss
  {
    if n == 0 {
      S.FreshGood(ws[0].c.iss, mss);
    } else {
      RunGood(ws, es, mss, n - 1);
      StepGood(ws[n - 1], es[n - 1], mss);
      assert ws[n] == Step(ws[n - 1], es[n - 1], mss);
    }
  }

  /**
   * Whatever the network and the two applications do, at every moment the bytes handed up are
   * exactly what the sending application wrote, in order, from `start` on.
   */
  lemma ReceivedIsPrefixOfWritten(ws: seq<World>, es: seq<Event>, mss: u16, n: nat)
    requires mss > 0 && Run(ws, es, mss) && Initial(ws[0]) && n < |ws| && ws[n].got != []
    ensures var w := ws[n];
            var skip := w.start - w.c.iss;
            0 <= skip && skip + |w.got| <= |w.c.written| && AsTokens(w.got) == w.c.written[skip..skip + |w.got|]
  {
    RunGood(ws, es, mss, n);
    GotIsWritten(ws[n], mss);
  }
}
