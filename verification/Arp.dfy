// The ARP cache of lwip/etharp.c, built with ARP_QUEUEING 0 and
// ETHARP_ALWAYS_INSERT 1.
module Arp {
  import opened Words

  const ARP_TABLE_SIZE := 64
  const ARP_MAXAGE := 120
  const ARP_MAXPENDING := 2

  datatype Phase = Empty | Pending | Stable

  /** `struct etharp_entry`; the six bytes of an Ethernet address count as one number. */
  datatype Entry = Entry(ip: u32, eth: nat, phase: Phase, ctime: u8)

  // ----- The operations on a table

  /** The first entry in use for `ip`, |t| if there is none. */
  function Match(t: seq<Entry>, ip: u32, i: nat): (r: nat)
    requires i <= |t|
    ensures i <= r <= |t|
    ensures r < |t| ==> t[r].ip == ip && !t[r].phase.Empty?
    ensures forall k :: i <= k < r ==> t[k].ip != ip || t[k].phase.Empty?
    decreases |t| - i
  {
    if i == |t| || (t[i].ip == ip && !t[i].phase.Empty?) then i else Match(t, ip, i + 1)
  }

  /** The loop of `find_arp_entry`: `j` is the oldest stable entry so far. */
  function Scan(t: seq<Entry>, i: nat, j: nat, maxtime: u8): (r: nat)
    requires i <= |t| && j <= |t|
    ensures r <= |t|
    decreases |t| - i
  {
    if i == |t| then j
    else if t[i].phase.Empty? then i
    else if t[i].phase.Stable? && t[i].ctime >= maxtime then Scan(t, i + 1, i, t[i].ctime)
    else Scan(t, i + 1, j, maxtime)
  }

  /** The entry that `find_arp_entry` gives out, |t| for ERR_MEM. */
  function Pick(t: seq<Entry>): (r: nat)
    ensures r <= |t|
  {
    Scan(t, 0, |t|, 0)
  }

  function Cleaned(e: Entry): Entry {
    if e.phase.Stable? then e.(phase := Empty, ctime := 0) else e
  }

  /** `update_arp_entry` */
  function Update(t: seq<Entry>, ip: u32, eth: nat): (r: seq<Entry>)
    ensures |r| == |t|
  {
    var m := Match(t, ip, 0);
    var p := Pick(t);
    if ip == 0 then t
    else if m < |t| then t[m := Entry(ip, eth, Stable, 0)]
    else if p < |t| then t[p := Entry(ip, eth, Stable, 0)]
    else t
  }

  /** The table after `etharp_query`: a pending entry keeps whatever `ctime` its place had. */
  function Query(t: seq<Entry>, ip: u32): (r: seq<Entry>)
    ensures |r| == |t|
  {
    var m := Match(t, ip, 0);
    var p := Pick(t);
    if m < |t| || p == |t| then t else t[p := Cleaned(t[p]).(phase := Pending, ip := ip)]
  }

  function Aged(e: Entry): Entry {
    var c := ToU8(e.ctime + 1);
    if (e.phase.Stable? && c >= ARP_MAXAGE) || (e.phase.Pending? && c >= ARP_MAXPENDING) then e.(phase := Empty, ctime := c)
    else e.(ctime := c)
  }

  /** `etharp_tmr` */
  function Tick(t: seq<Entry>): (r: seq<Entry>)
    ensures |r| == |t| && forall i :: 0 <= i < |t| ==> r[i] == Aged(t[i])
  {
    seq(|t|, i requires 0 <= i < |t| => Aged(t[i]))
  }

  /** The table lookup of `etharp_output` */
  function Lookup(t: seq<Entry>, ip: u32, i: nat): (r: Option<nat>)
    requires i <= |t|
    ensures r.Some? ==> exists k :: 0 <= k < |t| && t[k].phase.Stable? && t[k].ip == ip && t[k].eth == r.value
    decreases |t| - i
  {
    if i == |t| then None
    else if t[i].phase.Stable? && t[i].ip == ip then Some(t[i].eth)
    else Lookup(t, ip, i + 1)
  }

  // ----- Which entry is given out

  /** The first empty entry, or a stable one than which no other is older, or none. */
  ghost predicate Picked(t: seq<Entry>, p: nat) {
    if p < |t| && t[p].phase.Empty? then forall k :: 0 <= k < p ==> !t[k].phase.Empty?
    else
      && (forall k :: 0 <= k < |t| ==> !t[k].phase.Empty?)
      && if p < |t| then t[p].phase.Stable? && forall k :: 0 <= k < |t| && t[k].phase.Stable? ==> t[k].ctime <= t[p].ctime
         else forall k :: 0 <= k < |t| ==> t[k].phase.Pending?
  }

  lemma {:induction false} ScanPicks(t: seq<Entry>, i: nat, j: nat, maxtime: u8)
    requires i <= |t| && j <= |t| && forall k :: 0 <= k < i ==> !t[k].phase.Empty?
    requires forall k :: 0 <= k < i && t[k].phase.Stable? ==> t[k].ctime <= maxtime
    requires if j < |t| then j < i && t[j].phase.Stable? && t[j].ctime == maxtime
             else maxtime == 0 && forall k :: 0 <= k < i ==> t[k].phase.Pending?
    ensures Picked(t, Scan(t, i, j, maxtime))
    decreases |t| - i
  {
    if i < |t| && !t[i].phase.Empty? {
      if t[i].phase.Stable? && t[i].ctime >= maxtime {
        ScanPicks(t, i + 1, i, t[i].ctime);
      } else {
        ScanPicks(t, i + 1, j, maxtime);
      }
    }
  }

  /** A full table recycles a stable entry of the greatest age; only a table full of pending entries has none to give. */
  lemma PickPicks(t: seq<Entry>)
    ensures Picked(t, Pick(t))
  {
    ScanPicks(t, 0, |t|, 0);
  }

  /** No operation takes a pending entry's place: it stays, or becomes stable for its own address. */
  lemma PendingKept(t: seq<Entry>, ip: u32, eth: nat, i: nat)
    requires i < |t| && t[i].phase.Pending?
    ensures Update(t, ip, eth)[i] == t[i] || (t[i].ip == ip && Update(t, ip, eth)[i] == Entry(ip, eth, Stable, 0))
    ensures Query(t, ip)[i] == t[i]
  {
    PickPicks(t);
  }

  // ----- What every run keeps

  /** No two entries in use have the same address. */
  ghost predicate Unique(t: seq<Entry>) {
    forall i, j :: 0 <= i < j < |t| && !t[i].phase.Empty? && !t[j].phase.Empty? ==> t[i].ip != t[j].ip
  }

  /** Every stable entry has the Ethernet address last learned for its address. */
  ghost predicate Learned(t: seq<Entry>, know: map<u32, nat>) {
    forall i :: 0 <= i < |t| && t[i].phase.Stable? ==> t[i].ip in know && know[t[i].ip] == t[i].eth
  }

  /** There is an entry for the address, or one that may be given to it. */
  ghost predicate HasRoom(t: seq<Entry>, ip: u32) {
    exists i :: 0 <= i < |t| && (!t[i].phase.Pending? || t[i].ip == ip)
  }

  /** `p` is the place of `ip` in a table: the entry it has already, or else the one given out. */
  function PlaceFor(t: seq<Entry>, ip: u32): nat {
    if Match(t, ip, 0) < |t| then Match(t, ip, 0) else Pick(t)
  }

  lemma {:induction false} LookupFinds(t: seq<Entry>, ip: u32, i: nat, k: nat)
    requires Unique(t) && i <= k < |t| && t[k].phase.Stable? && t[k].ip == ip
    ensures Lookup(t, ip, i) == Some(t[k].eth)
    decreases |t| - i
  {
    if i < k { LookupFinds(t, ip, i + 1, k); }
  }

  /** What is learned is found from then on, if and only if the address has an entry or one can be had for it. */
  lemma UpdateLearnsIff(t: seq<Entry>, ip: u32, eth: nat)
    requires Unique(t) && ip != 0
    ensures Lookup(Update(t, ip, eth), ip, 0) == Some(eth) <==> HasRoom(t, ip)
  {
    PickPicks(t);
    var p, r := PlaceFor(t, ip), Update(t, ip, eth);
    if p < |t| {
      assert r == t[p := Entry(ip, eth, Stable, 0)];
      LookupFinds(r, ip, 0, p);
    } else {
      assert forall i :: 0 <= i < |t| ==> t[i].phase.Pending?;
    }
  }

  /** An update or a query changes one entry at most: the address's own, or else the one given out. */
  lemma OthersKept(t: seq<Entry>, ip: u32, eth: nat, i: nat)
    requires i < |t| && i != PlaceFor(t, ip)
    ensures Update(t, ip, eth)[i] == t[i] && Query(t, ip)[i] == t[i]
  {
  }

  /** A query leaves the address with an entry in use, if and only if it has one or one can be had. */
  lemma QueryFindsIff(t: seq<Entry>, ip: u32)
    ensures Match(Query(t, ip), ip, 0) < |t| <==> HasRoom(t, ip)
    ensures Match(t, ip, 0) < |t| ==> Query(t, ip) == t
    ensures Match(t, ip, 0) == |t| && HasRoom(t, ip) ==> var r := Query(t, ip)[Pick(t)]; r.phase.Pending? && r.ip == ip
  {
    PickPicks(t);
    var r := Query(t, ip);
    MatchMisses(r, ip, 0);
    MatchMisses(t, ip, 0);
    var m, p := Match(t, ip, 0), Pick(t);
    if m == |t| && p < |t| {
      assert !t[p].phase.Pending? && r[p].ip == ip && !r[p].phase.Empty?;
    } else if m == |t| {
      assert forall i :: 0 <= i < |t| ==> t[i].phase.Pending? && t[i].ip != ip;
    }
  }

  lemma MatchMisses(t: seq<Entry>, ip: u32, i: nat)
    requires i <= |t|
    ensures Match(t, ip, i) == |t| <==> forall k :: i <= k < |t| ==> t[k].ip != ip || t[k].phase.Empty?
  {
  }

  datatype Event = Learn(ip: u32, eth: nat) | Ask(ip: u32) | Timer

  function Step(t: seq<Entry>, e: Event): (r: seq<Entry>)
    ensures |r| == |t|
  {
    match e
    case Learn(ip, eth) => Update(t, ip, eth)
    case Ask(ip) => Query(t, ip)
    case Timer => Tick(t)
  }

  /** What has been learned, the last for each address. */
  function Knowing(know: map<u32, nat>, e: Event): map<u32, nat> {
    if e.Learn? && e.ip != 0 then know[e.ip := e.eth] else know
  }

  lemma StepGood(t: seq<Entry>, know: map<u32, nat>, e: Event)
    requires Unique(t) && Learned(t, know)
    ensures Unique(Step(t, e)) && Learned(Step(t, e), Knowing(know, e))
  {
    if !e.Timer? { PickPicks(t); }
  }

  ghost predicate Run(ts: seq<seq<Entry>>, knows: seq<map<u32, nat>>, es: seq<Event>) {
    && |ts| == |knows| == |es| + 1 && |ts[0]| == ARP_TABLE_SIZE
    && (forall i :: 0 <= i < |ts[0]| ==> ts[0][i].phase.Empty?)
    && (forall i :: 0 <= i < |es| ==> ts[i + 1] == Step(ts[i], es[i]) && knows[i + 1] == Knowing(knows[i], es[i]))
  }

  /** In every run no address has two entries, and a hit gives the Ethernet address last learned for it. */
  lemma {:induction false} RunGood(ts: seq<seq<Entry>>, knows: seq<map<u32, nat>>, es: seq<Event>, n: nat)
    requires Run(ts, knows, es) && n < |ts|
    ensures |ts[n]| == ARP_TABLE_SIZE && Unique(ts[n]) && Learned(ts[n], knows[n])
    ensures forall ip :: Lookup(ts[n], ip, 0).Some? ==> ip in knows[n] && Lookup(ts[n], ip, 0).value == knows[n][ip]
  {
    if n > 0 {
      RunGood(ts, knows, es, n - 1);
      assert ts[n] == Step(ts[n - 1], es[n - 1]);
      StepGood(ts[n - 1], knows[n - 1], es[n - 1]);
    }
  }

  // ----- How long entries live

  function Ticks(t: seq<Entry>, n: nat): (r: seq<Entry>)
    ensures |r| == |t|
  {
    if n == 0 then t else Tick(Ticks(t, n - 1))
  }

  /** An entry just learned is given up after exactly ARP_MAXAGE ticks. */
  lemma {:induction false} StableLivesIff(t: seq<Entry>, i: nat, n: nat)
    requires i < |t| && t[i].phase.Stable? && t[i].ctime == 0 && n <= 0xff
    ensures Ticks(t, n)[i].phase.Stable? <==> n < ARP_MAXAGE
    ensures Ticks(t, n)[i].ctime == n && !Ticks(t, n)[i].phase.Pending?
  {
    if n > 0 { StableLivesIff(t, i, n - 1); }
  }

  /**
   * A pending entry should live until the second tick.  It keeps the `ctime` of an empty place, which every
   * tick counts up: it outlives the first tick exactly if its place was recycled, or had counted to 0 or 255.
   */
  lemma PendingLivesIff(t: seq<Entry>, ip: u32)
    requires Match(t, ip, 0) == |t| && Pick(t) < |t|
    ensures var p := Pick(t);
            Tick(Query(t, ip))[p].phase.Pending? <==> t[p].phase.Stable? || t[p].ctime == 0 || t[p].ctime == 0xff
  {
    PickPicks(t);
  }

  /** On a table ticked once since `etharp_init`, a query's entry is gone after one tick. */
  lemma PendingGoneAtOnce(t: seq<Entry>, ip: u32)
    requires t == Tick(seq(ARP_TABLE_SIZE, _ => Entry(0, 0, Empty, 0)))
    ensures Query(t, ip)[0].phase.Pending? && Tick(Query(t, ip))[0].phase.Empty?
  {
    PickPicks(t);
    assert Pick(t) == 0;
  }
}
