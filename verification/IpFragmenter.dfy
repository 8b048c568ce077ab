// `ip_frag` on its own terms: one static buffer, refilled for every fragment,
// behind one header that is changed in place.  Its packets, read back as
// `ip_reass` reads them, are the pieces that module IpFrag cuts a payload into.
module IpFragmenter {
  import opened Words
  import opened Chains
  import opened IpReass
  import opened IpFrag
  import opened IpReassembler

  /** The packets are the first fragments of `fs`, each fits `mtu`, and reassembly can take them. */
  ghost predicate Emits(out: seq<Packet>, fs: seq<Frag>, mtu: nat) {
    && |out| <= |fs|
    && forall i :: 0 <= i < |out| ==> Decode(out[i]) == fs[i] && Sane(out[i]) && out[i].len <= mtu
  }

  class Fragmenter {
    const buf: array<u8>

    constructor ()
      ensures buf.Length == MAX_MTU && fresh(buf)
    {
      buf := new u8[MAX_MTU](_ => 0);
    }

    /**
     * The packets given to the interface, for a datagram whose header has no options: read back as
     * fragments they are `Pieces`, each fits `mtu`, and reassembly can take them.
     */
    method Frag(p: Packet, mtu: u16) returns (out: seq<Packet>)
      requires buf.Length == MAX_MTU && IP_HLEN + 8 <= mtu <= MAX_MTU
      requires p.hl == 5 && p.chain != [] && IP_HLEN <= |p.chain[0]| && |Flat(p.chain)| < 0x1_0000
      modifies buf
      ensures var fs := Pieces(p.key, Flat(p.chain)[IP_HLEN..], p.frag % 0x2000, p.frag / 0x2000 % 2 == 1, mtu);
              |out| == |fs| && Emits(out, fs, mtu)
    {
      ghost var d := Flat(p.chain)[IP_HLEN..];
      var ofo: u16, omf := p.frag % 0x2000, p.frag / 0x2000 % 2 == 1;
      ghost var fs := Pieces(p.key, d, ofo, omf, mtu);
      var left := |Flat(p.chain)| - IP_HLEN;
      var chain, poff: nat, nfb := p.chain, IP_HLEN, 0;
      out := [];
      HeadFits(p.chain);
      assert Stands(chain, poff, d);
      CuttingStart(p.key, d, ofo, omf, mtu);
      hide Pieces, Flat, Sane, Decode, Body, Emits, FragField, ToU16, Cutting, Stands;
      ghost var rest := d;
      while left > 0
        invariant 0 <= left == |rest| && Stands(chain, poff, rest)
        invariant 0 <= nfb && (left > 0 ==> ofo + nfb + left / 8 <= 0x4000)
        invariant Cutting(p.key, fs, out, rest, ofo + nfb, omf, mtu)
        decreases left
      {
        SmallStays(ofo + nfb);
        ofo := ToU16(ofo + nfb);
        nfb := (mtu - IP_HLEN) / 8;
        var q, cop;
        q, chain, poff, cop := Fill(p.key, ofo, omf, mtu, chain, poff, left, rest);
        CuttingStep(p.key, fs, out, rest, ofo, omf, mtu, q, cop);
        out := out + [q];
        Eighths(left, cop, nfb);
        rest := rest[cop..];
        left := left - cop;
      }
      assert rest == [];
      CuttingEnd(p.key, fs, out, ofo + nfb, omf, mtu);
    }

    /** One turn of the loop of `ip_frag`. */
    method Fill(key: Key, ofo: u16, omf: bool, mtu: u16, chain: seq<seq<u8>>, poff: nat, left: nat, ghost rest: seq<u8>)
      returns (q: Packet, chain': seq<seq<u8>>, poff': nat, cop: nat)
      requires buf.Length == MAX_MTU && IP_HLEN + 8 <= mtu <= MAX_MTU && Stands(chain, poff, rest) && 0 < left == |rest|
      modifies buf
      ensures cop == (if left <= mtu - IP_HLEN then left else (mtu - IP_HLEN) / 8 * 8) && 0 < cop <= left
      ensures Stands(chain', poff', rest[cop..]) && Sane(q) && q.len == cop + IP_HLEN
      ensures var field := FragField(ofo, omf || left > mtu - IP_HLEN);
              Decode(q) == IpReass.Frag(key, field % 0x2000 * 8, rest[..cop], field / 0x2000 % 2 == 1)
    {
      var last := left <= mtu - IP_HLEN;
      cop := if last then left else (mtu - IP_HLEN) / 8 * 8;
      hide Stands, Flat, Sane, Decode, Body, FragField;
      q, chain', poff' := Emit(key, FragField(ofo, omf || !last), chain, poff, cop, if last then left + IP_HLEN else mtu, rest);
    }

    /** One fragment: `cop` bytes are copied behind the header, and `size` bytes of the buffer go out. */
    method Emit(key: Key, frag: u16, chain: seq<seq<u8>>, poff: nat, cop: nat, size: nat, ghost rest: seq<u8>)
      returns (q: Packet, chain': seq<seq<u8>>, poff': nat)
      requires buf.Length == MAX_MTU && Stands(chain, poff, rest) && 0 < cop <= |rest|
      requires cop + IP_HLEN <= size <= MAX_MTU
      modifies buf
      ensures Stands(chain', poff', rest[cop..])
      ensures Sane(q) && q.len == cop + IP_HLEN
      ensures Decode(q) == IpReass.Frag(key, frag % 0x2000 * 8, rest[..cop], frag / 0x2000 % 2 == 1)
    {
      hide Flat, Sane, Decode, Body;
      chain', poff' := CopyFromPbuf(chain, poff, buf, IP_HLEN, cop);
      HeadFits(chain');
      q := Packet(key, 5, cop + IP_HLEN, frag, [buf[..size]]);
      BlitSlice(old(buf[..]), IP_HLEN, Flat(chain)[poff..poff + cop], size);
      assert rest[..cop] == Flat(chain)[poff..poff + cop];
      assert rest[cop..] == Flat(chain)[poff + cop..];
      Emitted(q, rest, cop);
    }
  }

  /** `copy_from_pbuf` stands before the bytes `rest` of the chain. */
  ghost predicate Stands(chain: seq<seq<u8>>, poff: nat, rest: seq<u8>) {
    chain != [] && poff <= |chain[0]| <= |Flat(chain)| && Flat(chain)[poff..] == rest
  }

  /** The packets so far, and the fragments that the rest of the payload still makes. */
  ghost predicate Cutting(key: Key, fs: seq<Frag>, out: seq<Packet>, rest: seq<u8>, ofo: nat, omf: bool, mtu: nat) {
    mtu >= IP_HLEN + 8 && Emits(out, fs, mtu) && fs[|out|..] == Pieces(key, rest, ofo, omf, mtu)
  }

  lemma CuttingStart(key: Key, d: seq<u8>, ofo: nat, omf: bool, mtu: nat)
    requires mtu >= IP_HLEN + 8
    ensures Cutting(key, Pieces(key, d, ofo, omf, mtu), [], d, ofo, omf, mtu)
  {
  }

  lemma CuttingEnd(key: Key, fs: seq<Frag>, out: seq<Packet>, ofo: nat, omf: bool, mtu: nat)
    requires Cutting(key, fs, out, [], ofo, omf, mtu)
    ensures |out| == |fs| && Emits(out, fs, mtu)
  {
    PiecesEnd(key, ofo, omf, mtu);
  }

  lemma CuttingStep(key: Key, fs: seq<Frag>, out: seq<Packet>, rest: seq<u8>, ofo: u16, omf: bool, mtu: nat, q: Packet, cop: nat)
    requires Cutting(key, fs, out, rest, ofo, omf, mtu) && rest != []
    requires cop == if |rest| <= mtu - IP_HLEN then |rest| else (mtu - IP_HLEN) / 8 * 8
    requires var field := FragField(ofo, omf || |rest| > mtu - IP_HLEN);
             Decode(q) == Frag(key, field % 0x2000 * 8, rest[..cop], field / 0x2000 % 2 == 1)
    requires Sane(q) && q.len == cop + IP_HLEN
    ensures Cutting(key, fs, out + [q], rest[cop..], ofo + (mtu - IP_HLEN) / 8, omf, mtu)
  {
    PiecesStep(key, rest, ofo, omf, mtu);
    hide Pieces, FragField, Decode, Sane;
    Advance(fs, |out|);
  }

  /** The offset field: 13 bits of offset, and the More Fragments flag above them. */
  function FragField(ofo: u16, more: bool): u16 {
    ofo % 0x2000 + if more then 0x2000 else 0
  }

  lemma SmallStays(x: int)
    requires 0 <= x < 0x1_0000
    ensures ToU16(x) == x
  {
  }

  lemma Eighths(left: nat, cop: nat, nfb: nat)
    requires cop == left || (cop == nfb * 8 && cop <= left)
    ensures left - cop > 0 ==> (left - cop) / 8 == left / 8 - nfb
  {
  }

  lemma BlitSlice(b: seq<u8>, at: nat, data: seq<u8>, size: nat)
    requires at + |data| <= size <= |b|
    ensures Blit(b, at, data)[..size][at..at + |data|] == data
  {
    var r := Blit(b, at, data);
    forall i | 0 <= i < |data| ensures r[..size][at..at + |data|][i] == data[i] { assert r[at + i] == data[i]; }
  }

  lemma Advance(fs: seq<Frag>, n: nat)
    requires n < |fs|
    ensures fs[n] == fs[n..][0] && fs[n + 1..] == fs[n..][1..]
  {
  }

  lemma HeadFits(chain: seq<seq<u8>>)
    requires chain != []
    ensures |chain[0]| <= |Flat(chain)|
  {
  }

  /** A packet whose buffer holds `cop` bytes of `rest` behind the header carries just those. */
  lemma Emitted(q: Packet, rest: seq<u8>, cop: nat)
    requires cop <= |rest| && q.hl == 5 && q.len == cop + IP_HLEN
    requires |q.chain| == 1 && cop + IP_HLEN <= |q.chain[0]| && q.chain[0][IP_HLEN..IP_HLEN + cop] == rest[..cop]
    ensures Sane(q) && Decode(q) == Frag(q.key, q.frag % 0x2000 * 8, rest[..cop], q.frag / 0x2000 % 2 == 1)
  {
  }
}
