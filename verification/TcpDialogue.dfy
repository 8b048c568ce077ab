// A pair of these stacks talking, over a network that treats acknowledgements like everything else.
module TcpDialogue {
  import opened Words
  import S = TcpSend
  import R = TcpReceive
  import E = TcpEndToEnd

  // The sender of module TcpEndToEnd hears of nothing but the acknowledgements that its own
  // receiver sent, which the network may lose, repeat, delay and reorder.

  /** Both ends, and the `rcv_nxt` of each acknowledgement sent so far. */
  datatype Talk = Talk(w: E.World, acks: seq<int>)

  /** A step that is not about acknowledgements, the sending of one, or the arrival of one sent before. */
  datatype Event =
    | Other(e: E.Event)
    | AckSent
    | AckArrives(k: nat, fast: bool)

  /**
   * The receiver speaks once the SYN is out, and the network forgets what is about 2^31 bytes old, as section 3.3
   * of RFC 793 has it.  Nothing else is asked of acknowledgement numbers.
   */
  ghost predicate Possible(t: Talk, e: Event) {
    var c := t.w.c;
    match e
    case Other(Sender(se)) => se.Valid() && !se.Acknowledge?
    case Other(Deliver(k, _)) => E.Defined(t.w, e.e) && !c.sent[k].ctl && c.sent[k].pos >= t.w.r.nxt - 0x8000_0000
    case Other(_) => true
    case AckSent => t.w.start <= c.st.max
    case AckArrives(k, _) => k < |t.acks| && t.acks[k] > c.st.una - 0x7000_0000
  }

  ghost function Step(t: Talk, e: Event, mss: u16): Talk
    requires mss > 0 && Possible(t, e)
  {
    match e
    case Other(oe) => t.(w := E.Step(t.w, oe, mss))
    case AckSent => t.(acks := t.acks + [t.w.r.nxt])
    case AckArrives(k, fast) => t.(w := E.Step(t.w, E.Sender(S.Acknowledge(ToU32(t.acks[k]), fast)), mss))
  }

  /** Nothing unreceived is retired, nothing unsent is acknowledged. */
  ghost predicate Good(t: Talk, mss: u16) {
    var w := t.w;
    && E.Good(w, mss) && w.start == w.c.iss + 1
    && w.c.st.una <= w.r.nxt <= Max(w.start, w.c.st.max)
    && forall a :: a in t.acks ==> a <= w.r.nxt && a <= w.c.st.max
  }

  lemma GoodMeans(t: Talk, mss: u16)
    requires Good(t, mss)
    ensures S.Good(t.w.c, mss) && t.w.r.nxt == t.w.start + |t.w.got| && t.w.start == t.w.c.iss + 1
    ensures t.w.c.st.una <= t.w.r.nxt <= Max(t.w.start, t.w.c.st.max) && t.w.c.st.lbb == t.w.c.iss + |t.w.c.written|
  {
  }

  // ----- Every run

  /** No acknowledgement of this receiver that the network still remembers is misread. */
  lemma NeverMisread(t: Talk, k: nat, mss: u16)
    requires mss > 0 && Good(t, mss) && k < |t.acks| && t.acks[k] > t.w.c.st.una - 0x7000_0000
    ensures var ackno := ToU32(t.acks[k]);
            !S.Misread(t.w.c.st, ackno) && Nearest(t.w.c.st.una, ackno) == t.acks[k]
  {
    hide S.Misread, S.Good, S.Close, R.Tiled;
    S.GoodIsClose(t.w.c, mss);
    assert t.acks[k] <= t.w.c.st.max <= t.w.c.st.una + 0x10_0000 by { assert t.acks[k] in t.acks; CloseMax(t.w.c.st); }
    NearestInverts(t.w.c.st.una, t.acks[k]);
    S.NearNotMisread(t.w.c, ToU32(t.acks[k]), mss);
  }

  lemma CloseMax(st: S.State)
    requires S.Close(st)
    ensures st.una <= st.max <= st.una + 0x10_0000
  {
  }

  /** What is received was sent: `rcv_nxt` never passes `snd_max`. */
  lemma NxtWasSent(w: E.World, k: nat, alloc: bool, mss: u16)
    requires E.Good(w, mss) && E.Defined(w, E.Deliver(k, alloc))
    ensures var r := R.Receive(w.r, w.c.sent[k].pos, w.c.sent[k].data, alloc).state;
            w.r.nxt <= r.nxt <= Max(w.r.nxt, w.c.st.max)
  {
    var p, q := w.c.sent[k], w.r.queue;
    var s := R.FrontTrimmed(w.r.nxt, p.pos, p.data);
    if |p.data| != 0 && s.pos == w.r.nxt && 0 < w.r.wnd {
      R.FrontTrimmedAgrees(w.r.nxt, p.pos, p.data, i => 0);
      var m := R.InSequenceTakes(w.r, s);
      if m > 0 { assert E.FromSent(w.c, q[m - 1]); }
    }
  }

  lemma DeliverKeeps(t: Talk, k: nat, alloc: bool, mss: u16)
    requires mss > 0 && Good(t, mss) && Possible(t, Other(E.Deliver(k, alloc)))
    ensures Good(Step(t, Other(E.Deliver(k, alloc)), mss), mss)
  {
    var e := E.Deliver(k, alloc);
    hide E.Good, R.Receive;
    SentNear(t, k, mss);
    E.StepGood(t.w, e, mss);
    assert E.Good(t.w, mss);
    NearestInverts(t.w.r.nxt, t.w.c.sent[k].pos);
    NxtWasSent(t.w, k, alloc, mss);
  }

  /** Nothing sent lies 2^31 or more above `rcv_nxt`. */
  lemma SentNear(t: Talk, k: nat, mss: u16)
    requires mss > 0 && Good(t, mss) && k < |t.w.c.sent|
    ensures t.w.c.sent[k].pos < t.w.r.nxt + 0x8000_0000
  {
    S.GoodIsClose(t.w.c, mss);
    CloseMax(t.w.c.st);
    assert t.w.c.sent[k] in t.w.c.sent;
  }

  lemma AckKeeps(t: Talk, k: nat, fast: bool, mss: u16)
    requires mss > 0 && Good(t, mss) && Possible(t, AckArrives(k, fast))
    ensures var t' := Step(t, AckArrives(k, fast), mss);
            && Good(t', mss) && t'.w.c.st.una == Max(t.w.c.st.una, t.acks[k]) && t'.w.c.st.max == t.w.c.st.max
  {
    hide E.Good, S.Ack, S.Acknowledged, S.Close, S.Misread, Nearest, ToU32;
    var c, ackno := t.w.c, ToU32(t.acks[k]);
    GoodMeans(t, mss);
    assert t.acks[k] in t.acks;
    NeverMisread(t, k, mss);
    E.StepGood(t.w, E.Sender(S.Acknowledge(ackno, fast)), mss);
    S.GoodIsClose(c, mss);
    S.AcknowledgedExact(c.st, ackno, fast);
    S.AckGood(c, t.acks[k], fast, mss);
    S.AckRanges(c.st, t.acks[k], fast);
  }

  lemma SenderKeeps(t: Talk, se: S.Event, mss: u16)
    requires mss > 0 && Good(t, mss) && se.Valid() && !se.Acknowledge?
    ensures Good(Step(t, Other(E.Sender(se)), mss), mss)
  {
    hide E.Good, S.Step;
    assert E.Good(t.w, mss);
    E.StepGood(t.w, E.Sender(se), mss);
    S.StepRanges(t.w.c, se, mss);
    SameStart(t.w.c, se, mss);
  }

  lemma SameStart(c: S.Conn, se: S.Event, mss: u16)
    requires mss > 0
    ensures S.Step(c, se, mss).iss == c.iss
  {
  }

  /** Every step keeps it all, without a condition on acknowledgement numbers. */
  lemma StepGood(t: Talk, e: Event, mss: u16)
    requires mss > 0 && Good(t, mss) && Possible(t, e)
    ensures Good(Step(t, e, mss), mss)
  {
    match e
    case Other(Sender(se)) => SenderKeeps(t, se, mss);
    case Other(Deliver(k, alloc)) => DeliverKeeps(t, k, alloc, mss);
    case Other(_) => E.StepGood(t.w, e.e, mss);
    case AckSent =>
    case AckArrives(k, fast) => AckKeeps(t, k, fast, mss);
  }

  ghost predicate AllPossible(t: Talk, es: seq<Event>, mss: u16)
    requires mss > 0
    decreases |es|
  {
    es == [] || (Possible(t, es[0]) && AllPossible(Step(t, es[0], mss), es[1..], mss))
  }

  ghost function Run(t: Talk, es: seq<Event>, mss: u16): Talk
    requires mss > 0 && AllPossible(t, es, mss)
    decreases |es|
  {
    if es == [] then t else Run(Step(t, es[0], mss), es[1..], mss)
  }

  /** Both ends before anything is sent; the receiver waits for the byte behind the SYN. */
  ghost predicate Initial(t: Talk) {
    E.Initial(t.w) && t.w.start == t.w.c.iss + 1 && t.acks == []
  }

  lemma InitialGood(t: Talk, mss: u16)
    requires Initial(t)
    ensures Good(t, mss)
  {
    S.FreshGood(t.w.c.iss, mss);
  }

  lemma {:induction false} RunGood(t: Talk, es: seq<Event>, mss: u16)
    requires mss > 0 && Good(t, mss) && AllPossible(t, es, mss)
    ensures Good(Run(t, es, mss), mss)
    decreases |es|
  {
    hide Good;
    if es != [] {
      StepGood(t, es[0], mss);
      RunGood(Step(t, es[0], mss), es[1..], mss);
    }
  }

  /** What is handed up is what was written behind the SYN. */
  lemma Handed(t: Talk, mss: u16)
    requires Good(t, mss) && t.w.got != []
    ensures 1 + |t.w.got| <= |t.w.c.written| && E.AsTokens(t.w.got) == t.w.c.written[1..1 + |t.w.got|]
  {
    E.GotIsWritten(t.w, mss);
  }

  /** In every run of the pair, what is handed up is exactly what was written behind the SYN, in order. */
  lemma TalkDelivers(t: Talk, es: seq<Event>, mss: u16)
    requires mss > 0 && Initial(t) && AllPossible(t, es, mss)
    ensures var w := Run(t, es, mss).w;
            w.got != [] ==> 1 + |w.got| <= |w.c.written| && E.AsTokens(w.got) == w.c.written[1..1 + |w.got|]
  {
    hide Good, Initial, E.AsTokens;
    InitialGood(t, mss);
    RunGood(t, es, mss);
    if Run(t, es, mss).w.got != [] { Handed(Run(t, es, mss), mss); }
  }

  // ----- Progress

  lemma RunMore(t: Talk, e: Event, es: seq<Event>, mss: u16)
    requires mss > 0 && Possible(t, e) && AllPossible(Step(t, e, mss), es, mss)
    ensures AllPossible(t, [e] + es, mss) && Run(t, [e] + es, mss) == Run(Step(t, e, mss), es, mss)
  {
    hide Possible, Step;
    assert ([e] + es)[1..] == es;
  }

  lemma RunTwo(t: Talk, e: Event, f: Event, mss: u16)
    requires mss > 0 && Possible(t, e) && Possible(Step(t, e, mss), f)
    ensures AllPossible(t, [e, f], mss) && Run(t, [e, f], mss) == Step(Step(t, e, mss), f, mss)
  {
    hide Possible, Step;
    var t1 := Step(t, e, mss);
    var t2 := Step(t1, f, mss);
    assert AllPossible(t2, [], mss) && Run(t2, [], mss) == t2;
    hide AllPossible, Run;
    RunMore(t1, f, [], mss);
    assert [f] + [] == [f] && [e] + [f] == [e, f];
    RunMore(t, e, [f], mss);
  }

  lemma {:induction false} RunJoins(t: Talk, es: seq<Event>, fs: seq<Event>, mss: u16)
    requires mss > 0 && AllPossible(t, es, mss) && AllPossible(Run(t, es, mss), fs, mss)
    ensures AllPossible(t, es + fs, mss) && Run(t, es + fs, mss) == Run(Run(t, es, mss), fs, mss)
    decreases |es|
  {
    hide Possible, Step;
    if es == [] {
      assert es + fs == fs;
    } else {
      assert (es + fs)[1..] == es[1..] + fs;
      RunJoins(Step(t, es[0], mss), es[1..], fs, mss);
    }
  }

  /** Everything written from position `x` on is bytes, no SYN or FIN. */
  ghost predicate BytesFrom(c: S.Conn, x: int) {
    forall i :: 0 <= i < |c.written| && x <= c.iss + i ==> c.written[i].Byte?
  }

  /** The receiver's queue starts behind every segment of this sender that starts at `rcv_nxt` or before. */
  lemma QueueBehind(w: E.World, k: nat, mss: u16)
    requires E.Good(w, mss) && k < |w.c.sent| && w.c.sent[k].pos <= w.r.nxt
    ensures R.Tiled(w.r) && (w.r.queue != [] ==> w.c.sent[k].End() <= w.r.queue[0].pos)
  {
    var q := w.r.queue;
    if q != [] {
      assert E.FromSent(w.c, q[0]);
      var u :| u in w.c.sent && q[0].pos == u.pos && q[0].pos + q[0].len <= u.End();
      assert S.Apart(w.c.sent[k], u);
    }
  }

  /** A segment of this sender that reaches beyond `rcv_nxt` but starts at it or before is taken whole. */
  lemma TakenWhole(w: E.World, k: nat, mss: u16)
    requires E.Good(w, mss) && E.Defined(w, E.Deliver(k, true)) && 0 < w.r.wnd
    requires !w.c.sent[k].ctl && w.c.sent[k].pos <= w.r.nxt < w.c.sent[k].End()
    ensures R.Receive(w.r, w.c.sent[k].pos, w.c.sent[k].data, true).state.nxt >= w.c.sent[k].End()
  {
    hide E.Good, R.Tiled, R.InSequence, R.Fits, R.Abut, R.Agrees, R.AgreesFrom;
    var p, q := w.c.sent[k], w.r.queue;
    QueueBehind(w, k, mss);
    R.FrontTrimmedAgrees(w.r.nxt, p.pos, p.data, i => 0);
    var m := R.InSequenceTakes(w.r, R.FrontTrimmed(w.r.nxt, p.pos, p.data));
    if m > 0 { EndsBehind(w.r, m); }
  }

  lemma EndsBehind(r: R.State, m: nat)
    requires R.Tiled(r) && 0 < m <= |r.queue|
    ensures r.queue[0].pos <= R.EndOf(r.queue, m, 0) == r.queue[m - 1].pos + r.queue[m - 1].len
  {
    if m > 1 { R.InOrder(r.queue, 0, m - 1); }
  }

  /** A sent segment beyond `rcv_nxt` holds data, if only bytes are written there. */
  lemma HoldsData(c: S.Conn, s: S.Seg, x: int)
    requires BytesFrom(c, x) && S.Carries(c.iss, c.written, s) && x < s.End()
    ensures !s.ctl
  {
  }

  /** A segment that is due may arrive, and moves `rcv_nxt` to its end at least. */
  lemma DueArrives(t: Talk, k: nat, mss: u16)
    requires mss > 0 && Good(t, mss) && k < |t.w.c.sent| && 0 < t.w.r.wnd && BytesFrom(t.w.c, t.w.r.nxt)
    requires t.w.c.sent[k].pos <= t.w.r.nxt < t.w.c.sent[k].End()
    ensures var e := Other(E.Deliver(k, true));
            && Possible(t, e)
            && var t' := Step(t, e, mss);
               t'.w.c == t.w.c && t'.acks == t.acks && t'.w.start == t.w.start && t'.w.r.nxt >= t.w.c.sent[k].End()
  {
    hide R.Receive, R.Tiled;
    var s := t.w.c.sent[k];
    assert s in t.w.c.sent;
    HoldsData(t.w.c, s, t.w.r.nxt);
    TakenWhole(t.w, k, mss);
    NearestInverts(t.w.r.nxt, s.pos);
  }

  /** The arrival of a segment that is due, and the application's reading. */
  lemma TakesNext(t: Talk, k: nat, mss: u16)
    requires mss > 0 && Good(t, mss) && k < |t.w.c.sent| && 0 < t.w.r.wnd && BytesFrom(t.w.c, t.w.r.nxt)
    requires t.w.c.sent[k].pos <= t.w.r.nxt < t.w.c.sent[k].End()
    ensures var es := [Other(E.Deliver(k, true)), Other(E.Recved(R.TCP_WND))];
            AllPossible(t, es, mss) &&
            var t' := Run(t, es, mss);
            && Good(t', mss) && t'.w.c == t.w.c && t'.acks == t.acks && t'.w.start == t.w.start
            && t'.w.r.wnd == R.TCP_WND && t'.w.r.nxt >= t.w.c.sent[k].End()
  {
    hide Good, BytesFrom, R.Receive, AllPossible, Run;
    var e, f := Other(E.Deliver(k, true)), Other(E.Recved(R.TCP_WND));
    DueArrives(t, k, mss);
    StepGood(t, e, mss);
    StepGood(Step(t, e, mss), f, mss);
    RunTwo(t, e, f, mss);
  }

  /** The sent segments from `k` on that tile what is left arrive in order: everything is handed up. */
  lemma {:induction false} ArriveInOrder(t: Talk, q: seq<S.Seg>, k: nat, a: int, mss: u16) returns (es: seq<Event>)
    requires mss > 0 && Good(t, mss) && BytesFrom(t.w.c, t.w.r.nxt) && 0 < t.w.r.wnd
    requires k + |q| <= |t.w.c.sent| && t.w.c.sent[k..k + |q|] == q && S.Tiles(q, a, t.w.c.st.lbb) && a <= t.w.r.nxt
    ensures AllPossible(t, es, mss)
    ensures var t' := Run(t, es, mss); Good(t', mss) && t'.w.c == t.w.c && t'.acks == t.acks && t'.w.r.nxt >= t.w.c.st.lbb
    decreases |q|
  {
    if q == [] {
      es := [];
    } else if q[0].End() <= t.w.r.nxt {
      es := ArriveInOrder(t, q[1..], k + 1, q[0].End(), mss);
    } else {
      TakesNext(t, k, mss);
      var now := [Other(E.Deliver(k, true)), Other(E.Recved(R.TCP_WND))];
      var rest := ArriveInOrder(Run(t, now, mss), q[1..], k + 1, q[0].End(), mss);
      RunJoins(t, now, rest, mss);
      es := now + rest;
    }
  }

  /** Retransmission through an open window, and the application's reading. */
  lemma Resend(t: Talk, wnd: u32, mss: u16)
    requires mss > 0 && Good(t, mss) && t.w.c.st.lbb - t.w.c.st.una <= wnd
    ensures var es := [Other(E.Sender(S.Rexmit)), Other(E.Sender(S.Emit(wnd))), Other(E.Recved(R.TCP_WND))];
            AllPossible(t, es, mss) &&
            var w, w' := t.w, Run(t, es, mss).w;
            && Good(Run(t, es, mss), mss) && w'.r == w.r.(wnd := R.TCP_WND) && w'.start == w.start
            && w'.c.sent == w.c.sent + w.c.st.Queue() && w'.c.written == w.c.written && w'.c.iss == w.c.iss
            && w'.c.st.una == w.c.st.una && w'.c.st.max == w'.c.st.lbb == w.c.st.lbb
  {
    hide Good, S.Good, S.Step, AllPossible, Run;
    var e, f, g := Other(E.Sender(S.Rexmit)), Other(E.Sender(S.Emit(wnd))), Other(E.Recved(R.TCP_WND));
    var t1 := Step(t, e, mss);
    var t2 := Step(t1, f, mss);
    StepGood(t, e, mss);
    StepGood(t1, f, mss);
    StepGood(t2, g, mss);
    GoodMeans(t, mss);
    S.ResendsAll(t.w.c, wnd, mss);
    RunTwo(t1, f, g, mss);
    assert [e] + [f, g] == [e, f, g];
    RunMore(t, e, [f, g], mss);
  }

  /** The queue starts at `lastack` or before. */
  lemma QueueStarts(c: S.Conn, mss: u16)
    requires S.Good(c, mss)
    ensures S.Tiles(c.st.Queue(), S.Base(c.st), c.st.lbb) && S.Base(c.st) <= c.st.una <= c.st.max <= c.st.lbb
    ensures c.st.una == c.st.lbb ==> c.st.Queue() == [] && c.st.qlen == 0 && c.st.buf == S.TCP_SND_BUF
  {
    if c.st.Queue() != [] { S.TilesOrdered(c.st.Queue(), S.Base(c.st), c.st.lbb, 0); }
  }

  /** Once everything has arrived, one acknowledgement settles it. */
  lemma Settles(t: Talk, mss: u16)
    requires mss > 0 && Good(t, mss) && t.w.r.nxt >= t.w.c.st.lbb == t.w.c.st.max && t.w.start <= t.w.c.st.lbb
    ensures var es := [AckSent, AckArrives(|t.acks|, false)];
            AllPossible(t, es, mss) &&
            var t' := Run(t, es, mss);
            && Good(t', mss) && t'.w.c.st.una == t'.w.c.st.lbb == t.w.c.st.lbb && t'.w.r == t.w.r
            && t'.w.c.written == t.w.c.written && t'.w.c.iss == t.w.c.iss && t'.w.got == t.w.got
  {
    hide Good, S.Good, S.Step, AllPossible, Run;
    GoodMeans(t, mss);
    QueueStarts(t.w.c, mss);
    var e, f := AckSent, AckArrives(|t.acks|, false);
    StepGood(t, e, mss);
    var t1 := Step(t, e, mss);
    AckKeeps(t1, |t.acks|, false, mss);
    AckOnlySender(t1, |t.acks|, mss);
    GoodMeans(Step(t1, f, mss), mss);
    RunTwo(t, e, f, mss);
  }

  lemma AckOnlySender(t: Talk, k: nat, mss: u16)
    requires mss > 0 && Possible(t, AckArrives(k, false))
    ensures var w, w' := t.w, Step(t, AckArrives(k, false), mss).w;
            w'.r == w.r && w'.got == w.got && w'.start == w.start && w'.c.written == w.c.written && w'.c.iss == w.c.iss
  {
    hide S.Acknowledged;
  }

  /**
   * The pair is never stuck.  Whatever has happened, if only bytes are left to be received, there is a way
   * to go on after which everything written is handed up and acknowledged, and both queues are empty: the
   * sender retransmits through a window that covers its queue, what it sent arrives in order and is read,
   * and an acknowledgement comes back.
   */
  lemma Progress(t: Talk, wnd: u32, mss: u16) returns (es: seq<Event>)
    requires mss > 0 && Good(t, mss) && BytesFrom(t.w.c, t.w.r.nxt) && t.w.c.written != []
    requires t.w.c.st.lbb - t.w.c.st.una <= wnd
    ensures AllPossible(t, es, mss)
    ensures var w := Run(t, es, mss).w;
            && w.c.written == t.w.c.written && 1 + |w.got| == |w.c.written|
            && (w.got != [] ==> E.AsTokens(w.got) == w.c.written[1..])
            && w.c.st.Queue() == [] && w.c.st.una == w.c.st.lbb && w.c.st.qlen == 0 && w.c.st.buf == S.TCP_SND_BUF
  {
    hide Good, S.Good, Possible, Step;
    var c := t.w.c;
    GoodMeans(t, mss);
    QueueStarts(c, mss);
    Resend(t, wnd, mss);
    var resend := [Other(E.Sender(S.Rexmit)), Other(E.Sender(S.Emit(wnd))), Other(E.Recved(R.TCP_WND))];
    var t1 := Run(t, resend, mss);
    var q := c.st.Queue();
    assert t1.w.c.sent[|c.sent|..|c.sent| + |q|] == q;
    var arrive := ArriveInOrder(t1, q, |c.sent|, S.Base(c.st), mss);
    var t2 := Run(t1, arrive, mss);
    GoodMeans(t2, mss);
    Settles(t2, mss);
    var settle := [AckSent, AckArrives(|t2.acks|, false)];
    RunJoins(t1, arrive, settle, mss);
    RunJoins(t, resend, arrive + settle, mss);
    es := resend + (arrive + settle);
    var t3 := Run(t2, settle, mss);
    GoodMeans(t3, mss);
    QueueStarts(t3.w.c, mss);
    if t3.w.got != [] { Handed(t3, mss); }
  }
}
