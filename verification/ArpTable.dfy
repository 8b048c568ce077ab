// lwip/etharp.c on its own terms: one table, changed in place.  Its loops over
// the entries are proved against the functions of module Arp, which treat the
// table as a sequence.
module ArpTable {
  import opened Words
  import opened Arp

  class ArpTable {
    const table: array<Entry>

    ghost predicate Valid()
      reads this
    {
      table.Length == ARP_TABLE_SIZE
    }

    /** `etharp_init` */
    constructor ()
      ensures Valid() && fresh(table) && forall i :: 0 <= i < table.Length ==> table[i].phase.Empty?
    {
      table := new Entry[ARP_TABLE_SIZE](_ => Entry(0, 0, Empty, 0));
    }

    /** `find_arp_entry`; ARP_TABLE_SIZE stands for ERR_MEM. */
    method FindArpEntry() returns (r: nat)
      requires Valid()
      modifies table
      ensures r == Pick(old(table[..]))
      ensures table[..] == if r < ARP_TABLE_SIZE then old(table[..])[r := Cleaned(old(table[..])[r])] else old(table[..])
    {
      ghost var t := table[..];
      var i, j, maxtime: u8 := 0, ARP_TABLE_SIZE, 0;
      while i < ARP_TABLE_SIZE && !table[i].phase.Empty?
        invariant 0 <= i <= ARP_TABLE_SIZE && 0 <= j <= ARP_TABLE_SIZE && table[..] == t
        invariant Scan(t, i, j, maxtime) == Pick(t)
      {
        if table[i].phase.Stable? && table[i].ctime >= maxtime {
          j := i;
          maxtime := table[i].ctime;
        }
        i := i + 1;
      }
      if i == ARP_TABLE_SIZE { i := j; }
      if i < ARP_TABLE_SIZE && table[i].phase.Stable? {
        table[i] := table[i].(phase := Empty, ctime := 0);
      }
      r := i;
    }

    /** The walks of `update_arp_entry` and `etharp_query` */
    method Walk(ip: u32) returns (i: nat)
      requires Valid()
      ensures i == Match(table[..], ip, 0)
    {
      i := 0;
      while i < ARP_TABLE_SIZE && !(table[i].ip == ip && !table[i].phase.Empty?)
        invariant 0 <= i <= ARP_TABLE_SIZE && Match(table[..], ip, i) == Match(table[..], ip, 0)
      {
        i := i + 1;
      }
    }

    /** `update_arp_entry` */
    method UpdateArpEntry(ip: u32, eth: nat)
      requires Valid()
      modifies table
      ensures table[..] == Update(old(table[..]), ip, eth)
    {
      if ip != 0 {
        var i := Walk(ip);
        if i < ARP_TABLE_SIZE {
          table[i] := table[i].(phase := Stable);
          table[i] := table[i].(eth := eth);
          table[i] := table[i].(ctime := 0);
        } else {
          i := FindArpEntry();
          if i < ARP_TABLE_SIZE {
            table[i] := table[i].(ip := ip, eth := eth);
            table[i] := table[i].(ctime := 0, phase := Stable);
          }
        }
      }
    }

    /** The table part of `etharp_query` */
    method EtharpQuery(ip: u32) returns (i: nat)
      requires Valid()
      modifies table
      ensures table[..] == Query(old(table[..]), ip)
      ensures i < ARP_TABLE_SIZE <==> Match(old(table[..]), ip, 0) < ARP_TABLE_SIZE || Pick(old(table[..])) < ARP_TABLE_SIZE
      ensures i < ARP_TABLE_SIZE ==> table[i].ip == ip && !table[i].phase.Empty?
    {
      i := Walk(ip);
      if i == ARP_TABLE_SIZE {
        i := FindArpEntry();
        if i < ARP_TABLE_SIZE {
          table[i] := table[i].(phase := Pending);
          table[i] := table[i].(ip := ip);
        }
      }
    }

    /** `etharp_tmr` */
    method EtharpTmr()
      requires Valid()
      modifies table
      ensures table[..] == Tick(old(table[..]))
    {
      ghost var t := table[..];
      var i := 0;
      while i < ARP_TABLE_SIZE
        invariant 0 <= i <= ARP_TABLE_SIZE
        invariant forall k :: 0 <= k < table.Length ==> table[k] == if k < i then Aged(t[k]) else t[k]
      {
        table[i] := table[i].(ctime := ToU8(table[i].ctime + 1));
        if (table[i].phase.Stable? && table[i].ctime >= ARP_MAXAGE)
           || (table[i].phase.Pending? && table[i].ctime >= ARP_MAXPENDING) {
          table[i] := table[i].(phase := Empty);
        }
        i := i + 1;
      }
    }

    /** The lookup of `etharp_output` */
    method EtharpLookup(ip: u32) returns (dest: Option<nat>)
      requires Valid()
      ensures dest == Lookup(table[..], ip, 0)
    {
      var i := 0;
      while i < ARP_TABLE_SIZE && !(table[i].phase.Stable? && table[i].ip == ip)
        invariant 0 <= i <= ARP_TABLE_SIZE && Lookup(table[..], ip, i) == Lookup(table[..], ip, 0)
      {
        i := i + 1;
      }
      dest := if i < ARP_TABLE_SIZE then Some(table[i].eth) else None;
    }
  }
}
