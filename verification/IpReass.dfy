// IP reassembly, lwip/ip_frag.c (section 3.2 of RFC 791): the units received, as a
// set; module IpReassembler ties it to the bitmap.
module IpReass {
  import opened Words

  const IP_HLEN := 20
  const IP_REASS_BUFSIZE := 5760
  const IP_REASS_MAXAGE := 30

  /** What says which datagram a fragment belongs to. */
  datatype Key = Key(src: u32, dst: u32, id: u16)

  datatype Frag = Frag(key: Key, offset: nat, data: seq<u8>, more: bool) {
    function End(): nat { offset + |data| }
  }

  /** The module's variables; `tmr` is 0 when no datagram is in the buffer. */
  datatype State = State(tmr: nat, key: Key, buf: seq<u8>, units: set<nat>, last: bool, len: nat)

  /** Unit `u` lies between two byte positions, as the bitmap counts them. */
  predicate Covers(lo: nat, hi: nat, u: nat) {
    lo / 8 <= u < hi / 8
  }

  function Units(lo: nat, hi: nat): set<nat> {
    set u: nat | u < hi / 8 && Covers(lo, hi, u)
  }

  /** The units that the scan looks at: it stops one bitmap byte short, then looks at the last one. */
  predicate Passes(units: set<nat>, len: nat) {
    && (forall u: nat :: u < len / 8 && u / 8 != len / 64 - 1 ==> u in units)
    && (forall u: nat :: len / 8 <= u < 8 * (len / 64) + 8 ==> u !in units)
  }

  function Begin(s: State, f: Frag): State {
    if s.tmr == 0 then s.(tmr := IP_REASS_MAXAGE, key := f.key, units := {}, last := false) else s
  }

  /** The fragment in the buffer and in the bitmap. */
  function Placed(s: State, f: Frag): State
    requires |s.buf| == IP_REASS_BUFSIZE && f.End() <= IP_REASS_BUFSIZE
  {
    s.(buf := Blit(s.buf, f.offset, f.data), units := s.units + Units(f.offset, f.End()),
       last := s.last || !f.more, len := if f.more then s.len else f.End())
  }

  /** `ip_reass`: the state after one fragment, and the payload if the datagram is taken to be whole. */
  function Receive(s: State, f: Frag): (r: (State, Option<seq<u8>>))
    requires |s.buf| == IP_REASS_BUFSIZE
    ensures |r.0.buf| == IP_REASS_BUFSIZE
  {
    var b := Begin(s, f);
    if b.key != f.key then (b, None)
    else if f.End() > IP_REASS_BUFSIZE then (b.(tmr := 0), None)
    else
      var m := Placed(b, f);
      if m.last && m.len <= IP_REASS_BUFSIZE && Passes(m.units, m.len) then
        (m.(tmr := 0, len := m.len + IP_HLEN), Some(m.buf[..m.len]))
      else (m, None)
  }

  /** `ip_reass_timer` */
  function Tick(s: State): State {
    s.(tmr := if s.tmr > 0 then s.tmr - 1 else 0)
  }

  // ----- What a delivery says of the units received

  /** Every whole unit of `len` bytes was received. */
  ghost predicate Whole(units: set<nat>, len: nat) {
    forall u: nat :: u < len / 8 ==> u in units
  }

  /** The units of the one bitmap byte that the scan does not look at. */
  ghost predicate SkippedByteFull(units: set<nat>, len: nat) {
    forall u: nat :: u < len / 8 && u / 8 == len / 64 - 1 ==> u in units
  }

  /** A delivery is of a whole datagram exactly if the byte of the bitmap that is not looked at is full. */
  lemma WholeIff(units: set<nat>, len: nat)
    requires Passes(units, len)
    ensures Whole(units, len) <==> SkippedByteFull(units, len)
  {
  }

  /** A unit that was received but lies behind the end, in the same byte of the bitmap, keeps the datagram back. */
  lemma BeyondBlocks(s: State, f: Frag, u: nat)
    requires |s.buf| == IP_REASS_BUFSIZE && Begin(s, f).key == f.key && f.End() <= IP_REASS_BUFSIZE
    requires var m := Placed(Begin(s, f), f); m.last && u in m.units && m.len / 8 <= u && u / 8 == m.len / 64
    ensures Receive(s, f) == (Placed(Begin(s, f), f), None)
  {
    hide Units, Blit;
  }

  /** Of the fragments let into the buffer, exactly those that end at its end write behind the bitmap's 90 bytes. */
  lemma BitmapIndexIff(f: Frag)
    requires f.End() <= IP_REASS_BUFSIZE
    ensures f.End() / 64 < IP_REASS_BUFSIZE / 64 <==> f.End() != IP_REASS_BUFSIZE
  {
  }

  /** Eight bytes at the end of the buffer are let in, and their bits belong to the byte behind the bitmap. */
  lemma EndsBehindBitmap(f: Frag)
    requires f.offset == 5752 && f.data == Zeros(8)
    ensures f.End() <= IP_REASS_BUFSIZE && f.End() / 64 == 90 == IP_REASS_BUFSIZE / 64
  {
    BitmapIndexIff(f);
  }

  // ----- Fragments of one datagram, in any order

  /** `f` is a piece of the payload `d` of the datagram `key`. */
  ghost predicate PieceOf(f: Frag, key: Key, d: seq<u8>) {
    && f.key == key && f.offset % 8 == 0 && f.End() <= |d| && f.data == d[f.offset..f.End()]
    && (!f.more ==> f.End() == |d|)
  }

  /** What is received of datagram `key` is what `d` has there. */
  ghost predicate Holds(s: State, key: Key, d: seq<u8>) {
    && |s.buf| == IP_REASS_BUFSIZE
    && (s.tmr > 0 && s.key == key ==>
          && (forall u :: u in s.units ==> 8 * u + 8 <= |d|)
          && (forall x {:trigger s.buf[x]} :: 0 <= x < |d| && x < |s.buf| && x / 8 in s.units ==> s.buf[x] == d[x])
          && (s.last ==> s.len == |d| <= |s.buf| && forall x {:trigger s.buf[x]} :: |d| - |d| % 8 <= x < |d| ==> s.buf[x] == d[x]))
  }

  /** A fragment of another datagram, or a tick of the timer, or a piece of `d`. */
  datatype Event = Arrive(f: Frag) | Timeout

  ghost predicate Possible(e: Event, key: Key, d: seq<u8>) {
    e.Arrive? && e.f.key == key ==> PieceOf(e.f, key, d)
  }

  function Step(s: State, e: Event): (r: (State, Option<seq<u8>>))
    requires |s.buf| == IP_REASS_BUFSIZE
    ensures |r.0.buf| == IP_REASS_BUFSIZE
  {
    match e
    case Arrive(f) => Receive(s, f)
    case Timeout => (Tick(s), None)
  }

  lemma InUnits(lo: nat, hi: nat, u: nat)
    ensures u in Units(lo, hi) <==> Covers(lo, hi, u)
  {
  }

  lemma PlacedByte(s: State, f: Frag, d: seq<u8>, x: nat)
    requires Holds(s, f.key, d) && s.key == f.key && s.tmr > 0 && PieceOf(f, f.key, d) && f.End() <= IP_REASS_BUFSIZE
    requires x < |d| && x < |s.buf| && x / 8 in s.units + Units(f.offset, f.End())
    ensures Placed(s, f).buf[x] == d[x]
  {
    InUnits(f.offset, f.End(), x / 8);
    hide Units;
  }

  lemma PlacedHolds(s: State, f: Frag, d: seq<u8>)
    requires Holds(s, f.key, d) && s.key == f.key && s.tmr > 0 && PieceOf(f, f.key, d) && f.End() <= IP_REASS_BUFSIZE
    ensures Holds(Placed(s, f), f.key, d)
  {
    hide Units;
    var m := Placed(s, f);
    forall u | u in m.units ensures 8 * u + 8 <= |d| { InUnits(f.offset, f.End(), u); }
    forall x {:trigger m.buf[x]} | 0 <= x < |d| && x < |m.buf| && x / 8 in m.units ensures m.buf[x] == d[x] {
      PlacedByte(s, f, d, x);
    }
  }

  /**
   * Pieces of `d` in any order, lost or repeated, among other datagrams and ticks: what is delivered
   * for `key` has the length of `d`, and its bytes wherever a unit was received and in the last partial unit.
   */
  lemma StepHolds(s: State, e: Event, key: Key, d: seq<u8>)
    requires Holds(s, key, d) && Possible(e, key, d)
    ensures Holds(Step(s, e).0, key, d)
    ensures e.Arrive? && e.f.key == key && Step(s, e).1.Some? ==>
              var out := Step(s, e).1.value; var units := Step(s, e).0.units;
              && |out| == |d| && Passes(units, |d|)
              && (forall x :: 0 <= x < |d| && (x / 8 in units || x >= |d| - |d| % 8) ==> out[x] == d[x])
              && (SkippedByteFull(units, |d|) ==> out == d)
  {
    if e.Arrive? && e.f.key == key {
      var b := Begin(s, e.f);
      if b.key == key && e.f.End() <= IP_REASS_BUFSIZE { PlacedHolds(b, e.f, d); }
    }
  }

  ghost predicate Run(ss: seq<State>, es: seq<Event>) {
    && |ss| == |es| + 1
    && (forall i :: 0 <= i < |ss| ==> |ss[i].buf| == IP_REASS_BUFSIZE)
    && (forall i :: 0 <= i < |es| ==> ss[i + 1] == Step(ss[i], es[i]).0)
  }

  lemma {:induction false} RunHolds(ss: seq<State>, es: seq<Event>, n: nat, key: Key, d: seq<u8>)
    requires Run(ss, es) && n < |ss| && ss[0].tmr == 0
    requires forall i :: 0 <= i < |es| ==> Possible(es[i], key, d)
    ensures Holds(ss[n], key, d)
  {
    if n > 0 {
      RunHolds(ss, es, n - 1, key, d);
      StepHolds(ss[n - 1], es[n - 1], key, d);
    }
  }

  /** In every run, whatever was in the buffer before: a delivery whose skipped byte is full is the payload itself. */
  lemma RunDelivers(ss: seq<State>, es: seq<Event>, n: nat, key: Key, d: seq<u8>)
    requires Run(ss, es) && n < |es| && ss[0].tmr == 0
    requires forall i :: 0 <= i < |es| ==> Possible(es[i], key, d)
    requires es[n].Arrive? && es[n].f.key == key && Step(ss[n], es[n]).1.Some?
    ensures var out := Step(ss[n], es[n]).1.value; var units := ss[n + 1].units;
            && |out| == |d| && Passes(units, |d|)
            && (forall x :: 0 <= x < |d| && (x / 8 in units || x >= |d| - |d| % 8) ==> out[x] == d[x])
            && (SkippedByteFull(units, |d|) ==> out == d)
  {
    RunHolds(ss, es, n, key, d);
    StepHolds(ss[n], es[n], key, d);
  }

  // ----- How long a datagram waits

  function Ticks(s: State, n: nat): State {
    if n == 0 then s else Tick(Ticks(s, n - 1))
  }

  /** The first fragment of a datagram that is not whole yet gives the rest 30 ticks to arrive, and no more. */
  lemma {:induction false} WaitsIff(s: State, f: Frag, n: nat)
    requires |s.buf| == IP_REASS_BUFSIZE && s.tmr == 0 && f.End() <= IP_REASS_BUFSIZE && Receive(s, f).1.None?
    ensures var r := Ticks(Receive(s, f).0, n);
            && (r.tmr > 0 <==> n < 30) && r.tmr <= 30 && (n < 30 ==> r.tmr == 30 - n)
            && r.key == f.key && r.units == Units(f.offset, f.End()) && (r.last <==> !f.more)
  {
    hide Units, Blit;
    if n > 0 { WaitsIff(s, f, n - 1); }
  }

  /** A fragment that does not complete it is recorded, and gains no time; one that does ends the wait. */
  lemma ArrivalCounts(s: State, f: Frag)
    requires |s.buf| == IP_REASS_BUFSIZE && s.tmr > 0 && f.key == s.key && f.End() <= IP_REASS_BUFSIZE
    ensures var r := Receive(s, f);
            && r.0.tmr == (if r.1.Some? then 0 else s.tmr) && r.0.key == s.key
            && r.0.units == s.units + Units(f.offset, f.End()) && (r.0.last <==> s.last || !f.more)
  {
    hide Units, Blit;
  }

  /** A fragment of another datagram, while one is waited for, changes nothing; one of the same that goes beyond the buffer ends it. */
  lemma OthersDropped(s: State, f: Frag)
    requires |s.buf| == IP_REASS_BUFSIZE && s.tmr > 0
    ensures f.key != s.key ==> Receive(s, f) == (s, None)
    ensures f.key == s.key && f.End() > IP_REASS_BUFSIZE ==> Receive(s, f) == (s.(tmr := 0), None)
  {
  }

  // ----- Every datagram is delivered in the end

  /** The last fragment was seen before `f` or is `f`, and so was every unit of `d`. */
  ghost predicate Completes(s: State, f: Frag, d: seq<u8>) {
    && ((s.tmr > 0 && s.last) || !f.more)
    && forall u: nat :: u < |d| / 8 ==> (s.tmr > 0 && u in s.units) || Covers(f.offset, f.End(), u)
  }

  /** The fragment that completes a datagram delivers it, whichever of its fragments that is. */
  lemma CompletionDelivers(s: State, f: Frag, d: seq<u8>)
    requires Holds(s, f.key, d) && PieceOf(f, f.key, d) && f.End() <= IP_REASS_BUFSIZE && (s.tmr > 0 ==> s.key == f.key)
    requires Completes(s, f, d)
    ensures Receive(s, f).1 == Some(d)
  {
    var b := Begin(s, f);
    var m := Placed(b, f);
    PlacedHolds(b, f, d);
    forall u: nat | u < |d| / 8 ensures u in m.units { InUnits(f.offset, f.End(), u); }
    hide Units, Covers;
    assert m.buf[..|d|] == d;
  }

  /** `f` arrived before event `n`. */
  ghost predicate Seen(es: seq<Event>, n: nat, f: Frag)
    requires n <= |es|
  {
    exists i :: 0 <= i < n && es[i] == Arrive(f)
  }

  /** Up to event `n` the datagram of `key` is in the buffer, and neither delivered nor given up. */
  ghost predicate Waiting(ss: seq<State>, es: seq<Event>, n: nat, key: Key)
    requires Run(ss, es) && n < |ss|
  {
    && (forall i :: 0 < i <= n ==> ss[i].tmr > 0 && ss[i].key == key)
    && forall i :: 0 <= i < n ==> Step(ss[i], es[i]).1.None?
  }

  /** While a datagram waits, all that has arrived of it is recorded. */
  lemma {:induction false} SeenRecorded(ss: seq<State>, es: seq<Event>, n: nat, key: Key, d: seq<u8>, f: Frag)
    requires Run(ss, es) && n < |ss| && ss[0].tmr == 0 && |d| <= IP_REASS_BUFSIZE
    requires forall i :: 0 <= i < |es| ==> Possible(es[i], key, d)
    requires Waiting(ss, es, n, key) && f.key == key && Seen(es, n, f)
    ensures Units(f.offset, f.End()) <= ss[n].units && (!f.more ==> ss[n].last)
  {
    hide Units;
    var m := n - 1;
    assert ss[n] == Step(ss[m], es[m]).0 && Step(ss[m], es[m]).1.None?;
    if es[m] != Arrive(f) {
      assert Seen(es, m, f);
      SeenRecorded(ss, es, m, key, d, f);
    }
  }

  ghost predicate CoveredBy(fs: set<Frag>, u: nat) {
    exists f :: f in fs && Covers(f.offset, f.End(), u)
  }

  /** All that there is of `d` is among the pieces `fs`. */
  ghost predicate Complete(fs: set<Frag>, d: seq<u8>) {
    (exists f :: f in fs && !f.more) && forall u: nat :: u < |d| / 8 ==> CoveredBy(fs, u)
  }

  /**
   * In every run: pieces of a datagram in any order, repeated, overlapping, among other datagrams and ticks.  With
   * the arrival after which nothing of it is missing it is delivered, unless it was delivered or given up before.
   */
  lemma RunCompletes(ss: seq<State>, es: seq<Event>, n: nat, key: Key, d: seq<u8>, fs: set<Frag>)
    requires Run(ss, es) && n < |es| && ss[0].tmr == 0 && |d| <= IP_REASS_BUFSIZE
    requires forall i :: 0 <= i < |es| ==> Possible(es[i], key, d)
    requires Waiting(ss, es, n, key) && es[n].Arrive? && es[n].f.key == key
    requires Complete(fs, d) && forall f :: f in fs ==> f.key == key && Seen(es, n + 1, f)
    ensures Step(ss[n], es[n]).1 == Some(d)
  {
    var s, g := ss[n], es[n].f;
    RunHolds(ss, es, n, key, d);
    forall f | f in fs && f != g ensures n > 0 && Units(f.offset, f.End()) <= s.units && (!f.more ==> s.last) {
      assert Seen(es, n, f);
      SeenRecorded(ss, es, n, key, d, f);
    }
    forall u: nat | u < |d| / 8 ensures (s.tmr > 0 && u in s.units) || Covers(g.offset, g.End(), u) {
      assert CoveredBy(fs, u);
      var f :| f in fs && Covers(f.offset, f.End(), u);
      InUnits(f.offset, f.End(), u);
    }
    CompletionDelivers(s, g, d);
  }

  /** Where the scan falls short: 56 bytes of a 128-byte payload that were never received are delivered with it. */
  lemma DeliversUnreceived(s: State, key: Key, d: seq<u8>)
    requires s.tmr == 0 && |s.buf| == IP_REASS_BUFSIZE && |d| == 128
    ensures var a := Receive(s, Frag(key, 0, d[..64], true)).0;
            var r := Receive(a, Frag(key, 120, d[120..], false));
            && PieceOf(Frag(key, 0, d[..64], true), key, d) && PieceOf(Frag(key, 120, d[120..], false), key, d)
            && r.1 == Some(d[..64] + s.buf[64..120] + d[120..])
  {
    var a := Receive(s, Frag(key, 0, d[..64], true)).0;
    assert a.units == Units(0, 64);
    var m := Placed(a, Frag(key, 120, d[120..], false));
    assert Passes(m.units, 128);
    assert m.buf[..128] == d[..64] + s.buf[64..120] + d[120..];
  }
}
