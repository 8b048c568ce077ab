// `ip_reass` on its own terms: the buffer, the bitmap with its table of byte
// masks, and the copy out of a pbuf chain, all proved against module IpReass.
// A bit of the bitmap stands for a unit of eight bytes, the highest bit of a byte
// for the first one.  The lemmas in front of the class say of each mask that the
// program uses which units it stands for, first bit by bit, then byte by byte.
// The class keeps the set of units received as a ghost beside the bitmap.
module IpReassembler {
  import opened Words
  import opened Chains
  import opened IpReass

  const BITMAP_SIZE := IP_REASS_BUFSIZE / 64

  /** `bitmap_bits[k]`: unit `k` of a bitmap byte and those after it. */
  const BITMAP_BITS: seq<bv8> := [0xff, 0x7f, 0x3f, 0x1f, 0x0f, 0x07, 0x03, 0x01]

  const ONE: seq<bv8> := [0x80, 0x40, 0x20, 0x10, 0x08, 0x04, 0x02, 0x01]

  /** Unit `j` of a bitmap byte, counted from its high bit. */
  predicate Bit(b: bv8, j: nat)
    requires j < 8
  {
    b & ONE[j] != 0
  }

  /** The bitmap is exactly the set of units. */
  ghost predicate Shows(bm: seq<bv8>, units: set<nat>) {
    && |bm| == BITMAP_SIZE
    && forall i, j {:trigger Bit(bm[i], j)} :: 0 <= i < |bm| && 0 <= j < 8 ==> (Bit(bm[i], j) <==> 8 * i + j in units)
  }

  // ----- Bits

  lemma BitsFrom(k: nat, j: nat)
    requires k < 8 && j < 8
    ensures Bit(BITMAP_BITS[k], j) <==> k <= j
  {
    assert k == 0 || k == 1 || k == 2 || k == 3 || k == 4 || k == 5 || k == 6 || k == 7;
    assert j == 0 || j == 1 || j == 2 || j == 3 || j == 4 || j == 5 || j == 6 || j == 7;
  }

  lemma OneBit(j: nat)
    requires j < 8
    ensures ONE[j] in {0x80, 0x40, 0x20, 0x10, 0x08, 0x04, 0x02, 0x01}
  {
    assert j == 0 || j == 1 || j == 2 || j == 3 || j == 4 || j == 5 || j == 6 || j == 7;
  }

  lemma BitOps(a: bv8, b: bv8, j: nat)
    requires j < 8
    ensures Bit(a | b, j) <==> Bit(a, j) || Bit(b, j)
    ensures Bit(a & b, j) <==> Bit(a, j) && Bit(b, j)
    ensures Bit(!a, j) <==> !Bit(a, j)
    ensures Bit(0xff, j) && !Bit(0, j)
  {
    OneBit(j);
    NotMask(a, ONE[j]);
  }

  lemma NotMask(a: bv8, m: bv8)
    requires m in {0x80, 0x40, 0x20, 0x10, 0x08, 0x04, 0x02, 0x01}
    ensures !a & m != 0 <==> a & m == 0
    ensures 0xff & m != 0
  {
  }

  /** A byte is its bits. */
  lemma SameBits(a: bv8, b: bv8)
    requires forall j {:trigger Bit(a, j)} :: 0 <= j < 8 ==> (Bit(a, j) <==> Bit(b, j))
    ensures a == b
  {
    assert forall j: nat :: j < 8 ==> (Bit(a, j) <==> Bit(b, j));
    assert Bit(a, 0) <==> Bit(b, 0);
    assert Bit(a, 1) <==> Bit(b, 1);
    assert Bit(a, 2) <==> Bit(b, 2);
    assert Bit(a, 3) <==> Bit(b, 3);
    assert Bit(a, 4) <==> Bit(b, 4);
    assert Bit(a, 5) <==> Bit(b, 5);
    assert Bit(a, 6) <==> Bit(b, 6);
    assert Bit(a, 7) <==> Bit(b, 7);
  }

  /** What the masks add to bitmap byte `i` for the bytes from `lo` to `hi`. */
  function Added(lo: nat, hi: nat, i: nat): bv8 {
    var from := BITMAP_BITS[lo / 8 % 8];
    var to := !BITMAP_BITS[hi / 8 % 8];
    if i < lo / 64 || i > hi / 64 then 0
    else (if i == lo / 64 then from else 0xff) & (if i == hi / 64 then to else 0xff)
  }

  lemma AddedUnits(lo: nat, hi: nat, i: nat, j: nat)
    requires lo <= hi && j < 8
    ensures Bit(Added(lo, hi, i), j) <==> Covers(lo, hi, 8 * i + j)
  {
    ByBytes(lo, hi, i, j);
    hide Covers;
    if i < lo / 64 || i > hi / 64 {
      BitOps(0, 0, j);
    } else {
      MaskBit(lo / 8 % 8, hi / 8 % 8, i == lo / 64, i == hi / 64, j);
    }
    hide Bit, Added;
  }

  lemma ByBytes(lo: nat, hi: nat, i: nat, j: nat)
    requires lo <= hi && j < 8
    ensures Covers(lo, hi, 8 * i + j) <==>
            lo / 64 <= i <= hi / 64 && (i == lo / 64 ==> lo / 8 % 8 <= j) && (i == hi / 64 ==> j < hi / 8 % 8)
  {
    Split(lo);
    Split(hi);
  }

  lemma MaskBit(k: nat, m: nat, first: bool, final: bool, j: nat)
    requires k < 8 && m < 8 && j < 8
    ensures Bit((if first then BITMAP_BITS[k] else 0xff) & (if final then !BITMAP_BITS[m] else 0xff), j)
            <==> (first ==> k <= j) && (final ==> j < m)
  {
    var a := if first then BITMAP_BITS[k] else 0xff;
    var b := if final then !BITMAP_BITS[m] else 0xff;
    FinalBit(m, final, j);
    hide Bit;
    BitOps(a, b, j);
  }

  lemma FinalBit(m: nat, final: bool, j: nat)
    requires m < 8 && j < 8
    ensures Bit(if final then !BITMAP_BITS[m] else 0xff, j) <==> (final ==> j < m)
  {
    if final {
      BitsFrom(m, j);
      BitOps(BITMAP_BITS[m], 0, j);
    } else {
      BitOps(0, 0, j);
    }
    hide Bit;
  }

  lemma Split(x: nat)
    ensures x / 8 == 8 * (x / 64) + x / 8 % 8 && x / 64 == x / 8 / 8
  {
  }

  /** `b'` is `b` with the masks of the fragment added. */
  ghost predicate Grown(b: bv8, b': bv8, lo: nat, hi: nat, i: nat) {
    b' == b | Added(lo, hi, i)
  }

  lemma GrownOutside(b: bv8, lo: nat, hi: nat, i: nat)
    requires lo <= hi && (i < lo / 64 || i > hi / 64)
    ensures Grown(b, b, lo, hi, i)
  {
  }

  lemma GrownBetween(b: bv8, lo: nat, hi: nat, i: nat)
    requires lo / 64 < i < hi / 64
    ensures Grown(b, 0xff, lo, hi, i)
  {
  }

  lemma GrownAlone(b: bv8, lo: nat, hi: nat)
    requires lo <= hi && lo / 64 == hi / 64
    ensures Grown(b, b | (BITMAP_BITS[lo / 8 % 8] & !BITMAP_BITS[hi / 8 % 8]), lo, hi, lo / 64)
  {
  }

  lemma GrownFirst(b: bv8, lo: nat, hi: nat)
    requires lo / 64 < hi / 64
    ensures Grown(b, b | BITMAP_BITS[lo / 8 % 8], lo, hi, lo / 64)
  {
  }

  lemma GrownFinal(b: bv8, lo: nat, hi: nat)
    requires lo / 64 < hi / 64
    ensures Grown(b, b | !BITMAP_BITS[hi / 8 % 8], lo, hi, hi / 64)
  {
  }

  /** The bitmap bytes below `i` have grown, and the others are as they were. */
  ghost predicate GrownTo(bm: seq<bv8>, bm': seq<bv8>, lo: nat, hi: nat, i: nat) {
    && |bm'| == |bm|
    && (forall x :: 0 <= x < |bm| && x < i ==> Grown(bm[x], bm'[x], lo, hi, x))
    && (forall x :: i <= x < |bm| ==> bm'[x] == bm[x])
  }

  lemma GrownBelow(bm: seq<bv8>, lo: nat, hi: nat)
    requires lo <= hi
    ensures GrownTo(bm, bm, lo, hi, lo / 64)
  {
    hide Grown;
    forall x | 0 <= x < |bm| && x < lo / 64 ensures Grown(bm[x], bm[x], lo, hi, x) { GrownOutside(bm[x], lo, hi, x); }
  }

  /** A bitmap to which the masks were added shows the units of the fragment as well. */
  lemma AddedShows(bm: seq<bv8>, bm': seq<bv8>, units: set<nat>, lo: nat, hi: nat)
    requires Shows(bm, units) && lo <= hi && |bm'| == |bm|
    requires GrownTo(bm, bm', lo, hi, |bm|)
    ensures Shows(bm', units + Units(lo, hi))
  {
    forall i, j {:trigger Bit(bm'[i], j)} | 0 <= i < |bm| && 0 <= j < 8
      ensures Bit(bm'[i], j) <==> 8 * i + j in units + Units(lo, hi)
    {
      BitOps(bm[i], Added(lo, hi, i), j);
      AddedUnits(lo, hi, i, j);
      hide Bit, Added;
    }
  }

  // ----- pbuf chains

  /** A datagram as `ip_input` hands it on: what is read of its header, and the chain it arrived in. */
  datatype Packet = Packet(key: Key, hl: nat, len: u16, frag: u16, chain: seq<seq<u8>>)

  /** The first pbuf holds the header: `ip_input` drops other packets. */
  ghost predicate Headed(p: Packet) {
    p.hl < 16 && p.chain != [] && 4 * p.hl <= |p.chain[0]|
  }

  /** What `ip_input` hands to `ip_reass`: of those, the packets with an offset or the flag for more fragments. */
  ghost predicate Handed(p: Packet) {
    Headed(p) && p.frag % 0x4000 != 0
  }

  /** The chain holds the length that the header gives as well.  Nothing sees to that. */
  ghost predicate Sane(p: Packet) {
    Headed(p) && p.len <= |Flat(p.chain)|
  }

  /** The payload; a length field below the header's own length wraps, and no such payload fits the buffer. */
  function Body(p: Packet): seq<u8> {
    var n := Count(p);
    if p.hl < 16 && 4 * p.hl + n <= |Flat(p.chain)| then Flat(p.chain)[4 * p.hl..4 * p.hl + n] else seq(n, _ => 0)
  }

  function Decode(p: Packet): Frag {
    Frag(p.key, p.frag % 0x2000 * 8, Body(p), p.frag / 0x2000 % 2 == 1)
  }

  /** The layout of RFC 791, section 3.1: three flags, of which the third says more, and thirteen bits of offset. */
  lemma DecodeReads(p: Packet, reserved: bool, dont: bool, more: bool, units: nat)
    requires units < 0x2000
    requires p.frag == (if reserved then 0x8000 else 0) + (if dont then 0x4000 else 0) + (if more then 0x2000 else 0) + units
    ensures Decode(p).offset == 8 * units && Decode(p).more == more && Decode(p).key == p.key
  {
    hide Body;
  }

  /** The number of bytes to copy, in 16 bits. */
  function Count(p: Packet): u16 {
    ToU16(p.len - 4 * p.hl)
  }

  /** `ip_reass` gets as far as copying out of the packet: it is the datagram's, and its end lies in the buffer. */
  ghost predicate Copies(s: State, p: Packet) {
    Begin(s, Decode(p)).key == p.key && p.frag % 0x2000 * 8 + Count(p) <= IP_REASS_BUFSIZE
  }

  /** Whenever bytes are copied, the copy stays inside the chain if and only if that is as long as the header says. */
  lemma CopyInsideIff(s: State, p: Packet)
    requires Headed(p) && Copies(s, p)
    ensures 4 * p.hl + Count(p) <= |Flat(p.chain)| <==> p.len <= |Flat(p.chain)|
  {
  }

  /** A header alone, whose length field speaks of 80 bytes behind it: an idle `ip_reass` goes on to copy them. */
  lemma CopiesBeyond(s: State, p: Packet)
    requires s.tmr == 0 && p.hl == 5 && p.len == 100 && p.frag == 0x2000 && |p.chain| == 1 && |p.chain[0]| == 20
    ensures Handed(p) && Copies(s, p) && 4 * p.hl + Count(p) > |Flat(p.chain)|
  {
    assert Flat(p.chain[1..]) == [];
  }

  /** `copy_from_pbuf`: `len` bytes from `offset` on, and where the next call goes on. */
  method CopyFromPbuf(chain: seq<seq<u8>>, offset: nat, buffer: array<u8>, at: nat, len: nat)
    returns (rest: seq<seq<u8>>, offset': nat)
    requires chain != [] && offset <= |chain[0]| && offset + len <= |Flat(chain)| && at + len <= buffer.Length
    modifies buffer
    ensures buffer[..] == Blit(old(buffer[..]), at, Flat(chain)[offset..offset + len])
    ensures rest != [] && offset' <= |rest[0]| && (len > 0 ==> Flat(rest)[offset'..] == Flat(chain)[offset + len..])
  {
    hide Blit;
    ghost var was, all := buffer[..], Flat(chain)[offset..];
    rest := [chain[0][offset..]] + chain[1..];
    assert Flat(rest) == all;
    offset' := 0;
    var n := 0;
    while n < len
      invariant 0 <= n <= len && rest != [] && offset' <= |rest[0]|
      invariant n < len ==> Flat(rest) == all[n..]
      invariant n == len > 0 ==> Flat(rest)[offset'..] == all[n..]
      invariant forall x :: 0 <= x < buffer.Length ==> buffer[x] == if at <= x < at + n then all[x - at] else was[x]
      decreases |rest|, len - n
    {
      var l := Min(len - n, |rest[0]|);
      forall i | 0 <= i < l { buffer[at + n + i] := rest[0][i]; }
      n := n + l;
      if n < len {
        rest := rest[1..];
        offset' := 0;
      } else {
        offset' := l;
      }
    }
    assert buffer[..] == Blit(was, at, Flat(chain)[offset..offset + len]);
  }

  class Reassembler {
    const buf: array<u8>
    const bitmap: array<bv8>
    var key: Key
    var len: u16
    var last: bool
    var tmr: u8
    ghost var units: set<nat>

    ghost predicate Valid()
      reads this, buf, bitmap
    {
      && buf.Length == IP_REASS_BUFSIZE && bitmap.Length == BITMAP_SIZE
      && (tmr > 0 ==> Shows(bitmap[..], units) && (last ==> len < IP_REASS_BUFSIZE))
    }

    ghost function St(): State
      reads this, buf
    {
      State(tmr, key, buf[..], units, last, len)
    }

    /** Records the bytes from `offset` on, `n` of them, in the bitmap. */
    method Mark(offset: nat, n: nat)
      requires Shows(bitmap[..], units) && offset + n < IP_REASS_BUFSIZE
      modifies bitmap, this`units
      ensures units == old(units) + Units(offset, offset + n) && Shows(bitmap[..], units)
    {
      ghost var was := bitmap[..];
      hide Added, Shows, Bit, Grown, GrownTo;
      var hi := offset + n;
      if offset / 64 == hi / 64 {
        MarkByte(offset, hi);
      } else {
        MarkBytes(offset, hi);
      }
      AddedShows(was, bitmap[..], units, offset, hi);
      units := units + Units(offset, hi);
    }

    /** The masks of a fragment that starts and ends in the same bitmap byte. */
    method MarkByte(lo: nat, hi: nat)
      requires lo <= hi && lo / 64 == hi / 64 < bitmap.Length
      modifies bitmap
      ensures GrownTo(old(bitmap[..]), bitmap[..], lo, hi, hi / 64 + 1)
    {
      hide Grown;
      GrownBelow(bitmap[..], lo, hi);
      GrownAlone(bitmap[lo / 64], lo, hi);
      bitmap[lo / 64] := bitmap[lo / 64] | (BITMAP_BITS[lo / 8 % 8] & !BITMAP_BITS[hi / 8 % 8]);
    }

    /** The masks of a fragment that spans several bitmap bytes. */
    method MarkBytes(lo: nat, hi: nat)
      requires lo / 64 < hi / 64 < bitmap.Length
      modifies bitmap
      ensures GrownTo(old(bitmap[..]), bitmap[..], lo, hi, hi / 64 + 1)
    {
      hide Grown;
      ghost var was := bitmap[..];
      GrownBelow(was, lo, hi);
      GrownFirst(was[lo / 64], lo, hi);
      bitmap[lo / 64] := bitmap[lo / 64] | BITMAP_BITS[lo / 8 % 8];
      var i := 1 + lo / 64;
      while i < hi / 64
        invariant 1 + lo / 64 <= i <= hi / 64
        invariant GrownTo(was, bitmap[..], lo, hi, i)
      {
        GrownBetween(was[i], lo, hi, i);
        bitmap[i] := 0xff;
        i := i + 1;
      }
      GrownFinal(was[i], lo, hi);
      bitmap[i] := bitmap[i] | !BITMAP_BITS[hi / 8 % 8];
    }

    /** Decides whether the datagram is taken to be whole. */
    method Scan() returns (ok: bool)
      requires Shows(bitmap[..], units) && len < IP_REASS_BUFSIZE
      ensures ok <==> Passes(units, len)
    {
      ghost var bm := bitmap[..];
      ok := true;
      var i := 0;
      while ok && i < len / 64 - 1
        invariant 0 <= i && (ok ==> i <= Max(0, len / 64 - 1))
        invariant ok ==> forall u: nat :: u < 8 * i ==> u in units
        invariant !ok ==> !Passes(units, len)
      {
        FullByte(bm, units, i);
        ok := bitmap[i] == 0xff;
        i := i + 1;
      }
      LastByte(bm, units, len);
      ok := ok && bitmap[len / 64] == !BITMAP_BITS[len / 8 % 8];
    }

    /** `ip_reass_timer` */
    method Tick()
      requires Valid()
      modifies this`tmr
      ensures Valid() && St() == IpReass.Tick(old(St()))
    {
      if tmr > 1 {
        tmr := tmr - 1;
      } else if tmr == 1 {
        tmr := 0;
      }
    }

    /** `ip_reass`; `alloc` says whether the pbuf for the whole datagram can be had. */
    method Reass(p: Packet, alloc: bool) returns (r: Option<seq<u8>>)
      requires Valid() && Headed(p) && (Copies(St(), p) ==> p.len <= |Flat(p.chain)|)
      requires Begin(St(), Decode(p)).key == p.key ==> Decode(p).End() != IP_REASS_BUFSIZE
      modifies this, buf, bitmap
      ensures Valid() && St() == Receive(old(St()), Decode(p)).0
      ensures r == if alloc then Receive(old(St()), Decode(p)).1 else None
    {
      r := None;
      ghost var s, f := St(), Decode(p);
      if tmr == 0 {
        key := p.key;
        tmr := IP_REASS_MAXAGE;
        last := false;
        ClearBitmap();
      }
      ghost var b := Begin(s, f);
      assert St() == b && Shows(bitmap[..], units);
      if key == p.key {
        var n := Count(p);
        var offset := p.frag % 0x2000 * 8;
        if offset > IP_REASS_BUFSIZE || offset + n > IP_REASS_BUFSIZE {
          tmr := 0;
        } else {
          Take(p, offset, n);
          if last {
            var ok := Scan();
            if ok {
              if alloc { r := Some(buf[..len]); }
              len := len + IP_HLEN;
              tmr := 0;
            }
          }
        }
      }
    }

    /** The fragment goes into the buffer and into the bitmap. */
    method Take(p: Packet, offset: nat, n: nat)
      requires Valid() && tmr > 0 && Sane(p) && Decode(p).offset == offset && |Body(p)| == n && offset + n < IP_REASS_BUFSIZE
      modifies this, buf, bitmap
      ensures Valid() && St() == Placed(old(St()), Decode(p))
    {
      hide Shows, Flat, Blit, Units, Body;
      SaneBody(p);
      var rest, o := CopyFromPbuf(p.chain, 4 * p.hl, buf, offset, n);
      Mark(offset, n);
      if p.frag / 0x2000 % 2 == 0 {
        last := true;
        len := offset + n;
      }
    }

    /** Forgets every unit. */
    method ClearBitmap()
      requires bitmap.Length == BITMAP_SIZE
      modifies bitmap, this`units
      ensures units == {} && Shows(bitmap[..], units)
    {
      forall i | 0 <= i < bitmap.Length { bitmap[i] := 0; }
      units := {};
      forall j | 0 <= j < 8 ensures !Bit(0, j) { BitOps(0, 0, j); }
    }
  }

  lemma SaneBody(p: Packet)
    requires Sane(p) && |Body(p)| < IP_REASS_BUFSIZE
    ensures 4 * p.hl + |Body(p)| <= |Flat(p.chain)| && Body(p) == Flat(p.chain)[4 * p.hl..4 * p.hl + |Body(p)|]
  {
  }

  lemma FullByte(bm: seq<bv8>, units: set<nat>, i: nat)
    requires Shows(bm, units) && i < |bm|
    ensures bm[i] == 0xff <==> forall u: nat :: u / 8 == i ==> u in units
  {
    forall j | 0 <= j < 8 ensures Bit(0xff, j) && (Bit(bm[i], j) <==> 8 * i + j in units) { BitOps(0, 0, j); }
    if forall u: nat :: u / 8 == i ==> u in units {
      SameBits(bm[i], 0xff);
    }
    if bm[i] == 0xff {
      forall u: nat | u / 8 == i ensures u in units { assert Bit(bm[i], u % 8); }
    }
  }

  /** The last byte is compared with the bits of exactly the units below `len`. */
  lemma LastByte(bm: seq<bv8>, units: set<nat>, len: nat)
    requires Shows(bm, units) && len / 64 < |bm|
    ensures bm[len / 64] == !BITMAP_BITS[len / 8 % 8] <==>
            forall u: nat :: u / 8 == len / 64 ==> (u in units <==> u < len / 8)
  {
    var i, k := len / 64, len / 8 % 8;
    Split(len);
    forall j | 0 <= j < 8 ensures (Bit(!BITMAP_BITS[k], j) <==> j < k) && (Bit(bm[i], j) <==> 8 * i + j in units) {
      BitsFrom(k, j);
      BitOps(BITMAP_BITS[k], 0, j);
    }
    if forall u: nat :: u / 8 == i ==> (u in units <==> u < len / 8) {
      SameBits(bm[i], !BITMAP_BITS[k]);
    }
    if bm[i] == !BITMAP_BITS[k] {
      forall u: nat | u / 8 == i ensures u in units <==> u < len / 8 { assert Bit(bm[i], u % 8) <==> 8 * i + u % 8 in units; }
    }
  }
}
