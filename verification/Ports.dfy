// The searches for a free local port in lwip/tcp.c and lwip/udp.c.  Both go
// through the same range of ports, the one round and round from the last port
// given out, the other from the start at every clash.
module Ports {
  import opened Words

  const RANGE_START := 4096
  const RANGE_END := 0x7fff

  predicate InRange(p: int) {
    RANGE_START <= p <= RANGE_END
  }

  /** `++port`, and back to the start behind the end. */
  function Next(port: u16): u16 {
    if port + 1 > RANGE_END then RANGE_START else ToU16(port + 1)
  }

  /** How many steps of the cyclic search lead from `port` to `p`; a whole round if they are the same. */
  function Steps(port: int, p: int): int {
    if p > port then p - port else p - port + (RANGE_END - RANGE_START + 1)
  }

  // ----- Pigeonholes

  lemma {:induction false} FewMembers(s: seq<u16>)
    ensures |Members(s)| <= |s|
  {
    if s != [] {
      var q := s[..|s| - 1];
      FewMembers(q);
      assert s == q + [s[|s| - 1]];
      assert Members(s) == Members(q) + {s[|s| - 1]};
    }
  }

  /** The ports from `lo` to before `hi`. */
  ghost function Between(lo: int, hi: int): (r: set<int>)
    requires lo <= hi
    ensures |r| == hi - lo && forall p: int :: p in r <==> lo <= p < hi
    decreases hi - lo
  {
    if lo == hi then {} else Between(lo, hi - 1) + {hi - 1}
  }

  lemma Contained(a: set<int>, b: set<int>)
    requires a <= b
    ensures |a| <= |b|
  {
    assert b == a + (b - a);
  }

  /** Fewer ports in use than there are: one is free. */
  lemma Pigeonhole(used: seq<u16>, lo: int, hi: int) returns (free: int)
    requires |used| < hi - lo
    ensures lo <= free < hi && forall p :: p in used ==> p != free
  {
    FewMembers(used);
    var all := Between(lo, hi);
    if all <= Members(used) {
      Contained(all, Members(used));
    }
    free :| free in all && free !in Members(used);
  }

  // ----- lwip/tcp.c

  /** The local ports of one list of PCBs. */
  method Clashes(ports: seq<u16>, port: u16) returns (r: bool)
    ensures r <==> port in ports
  {
    var i := 0;
    while i < |ports| && ports[i] != port
      invariant 0 <= i <= |ports| && port !in ports[..i]
    {
      i := i + 1;
    }
    r := i < |ports|;
  }

  predicate Taken(p: int, active: seq<u16>, tw: seq<u16>, listen: seq<u16>) {
    (exists i :: 0 <= i < |active| && active[i] == p) || (exists i :: 0 <= i < |tw| && tw[i] == p)
    || exists i :: 0 <= i < |listen| && listen[i] == p
  }

  /** Some port of the range is on none of the three lists. */
  ghost predicate SomeFree(active: seq<u16>, tw: seq<u16>, listen: seq<u16>) {
    exists p: u16 :: InRange(p) && !Taken(p, active, tw, listen)
  }

  /** Fewer PCBs than ports leave one free. */
  lemma FewLeaveSomeFree(active: seq<u16>, tw: seq<u16>, listen: seq<u16>)
    requires |active| + |tw| + |listen| < RANGE_END - RANGE_START + 1
    ensures SomeFree(active, tw, listen)
  {
    var used := active + tw + listen;
    var free := Pigeonhole(used, RANGE_START, RANGE_END + 1);
    var p: u16 := free;
    assert (forall i :: 0 <= i < |active| ==> active[i] in used) && (forall i :: 0 <= i < |tw| ==> tw[i] in used)
           && forall i :: 0 <= i < |listen| ==> listen[i] in used;
    assert InRange(p) && !Taken(p, active, tw, listen);
  }

  class TcpPorts {
    var port: u16

    constructor ()
      ensures port == RANGE_START
    {
      port := RANGE_START;
    }

    /**
     * `tcp_new_port`: the first port after the last one given out that no PCB of the three lists has.  It goes
     * round and round for ever if there is none.
     */
    method TcpNewPort(active: seq<u16>, tw: seq<u16>, listen: seq<u16>) returns (r: u16)
      requires InRange(port) && SomeFree(active, tw, listen)
      modifies this
      ensures r == port && InRange(r) && !Taken(r, active, tw, listen)
      ensures forall p: u16 :: InRange(p) && Steps(old(port), p) < Steps(old(port), r) ==> Taken(p, active, tw, listen)
    {
      ghost var free: u16 :| InRange(free) && !Taken(free, active, tw, listen);
      ghost var from, tried := port, 0;
      var again := true;
      hide Taken, SomeFree;
      while again
        invariant InRange(port) && 0 <= tried <= Steps(from, free)
        invariant tried > 0 ==> Steps(from, port) == tried
        invariant tried == 0 ==> port == from && again
        invariant again ==> tried < Steps(from, free)
        invariant forall p: u16 :: InRange(p) && Steps(from, p) < tried + (if again then 1 else 0) ==> Taken(p, active, tw, listen)
        invariant !again ==> !Taken(port, active, tw, listen)
        decreases Steps(from, free) - tried, again
      {
        port := Next(port);
        tried := tried + 1;
        again := ClashesAny(port, active, tw, listen);
      }
      r := port;
    }

    /** The three loops over the lists of PCBs. */
    method ClashesAny(port: u16, active: seq<u16>, tw: seq<u16>, listen: seq<u16>) returns (again: bool)
      ensures again <==> Taken(port, active, tw, listen)
    {
      again := Clashes(active, port);
      if !again { again := Clashes(tw, port); }
      if !again { again := Clashes(listen, port); }
    }
  }

  // ----- lwip/udp.c

  /**
   * The search of `udp_bind`: it starts over at every clash, and gives the lowest port that no PCB has,
   * or none if all but the last port of the range are taken; it never looks at the last one.
   */
  method UdpFreePort(pcbs: seq<u16>) returns (r: Option<u16>)
    ensures r.None? <==> forall p: u16 :: RANGE_START <= p < RANGE_END ==> p in pcbs
    ensures r.Some? ==> RANGE_START <= r.value < RANGE_END && r.value !in pcbs
                        && forall p: u16 :: RANGE_START <= p < r.value ==> p in pcbs
  {
    var port: u16, i := RANGE_START, 0;
    while i < |pcbs| && port != RANGE_END
      invariant RANGE_START <= port <= RANGE_END && 0 <= i <= |pcbs| && port !in pcbs[..i]
      invariant forall p: u16 :: RANGE_START <= p < port ==> p in pcbs
      invariant port == RANGE_END ==> i < |pcbs|
      decreases RANGE_END - port, |pcbs| - i
    {
      if pcbs[i] == port {
        port := port + 1;
        i := 0;
      } else {
        i := i + 1;
      }
    }
    assert pcbs[..|pcbs|] == pcbs;
    r := if i < |pcbs| then None else Some(port);
  }

  /** The input on which `udp_bind` finds no port although one is free: all but the last are taken. */
  lemma LastPortMissed(pcbs: seq<u16>)
    requires pcbs == seq(RANGE_END - RANGE_START, i requires 0 <= i < RANGE_END - RANGE_START => RANGE_START + i)
    ensures (forall p: u16 :: RANGE_START <= p < RANGE_END ==> p in pcbs) && InRange(RANGE_END) && RANGE_END !in pcbs
  {
    forall p: u16 | RANGE_START <= p < RANGE_END ensures p in pcbs { assert pcbs[p - RANGE_START] == p; }
  }
}
