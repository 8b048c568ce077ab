// The checksum routines of lwip/inet.c and etherboot/core/xbox_misc.c as the
// loops they are, in 32 bits, proved equal to the checksum of module OnesSum
// for data of every length and parity.
module Checksums {
  import opened Words
  import opened Chains
  import opened OnesSum

  // ----- lwip/inet.c

  lemma WordSumFits(data: seq<u8>)
    requires |data| <= 0xffff
    ensures WordSum(data) < 0x1_0000_0000
  {
    SumsBounded(data);
  }

  lemma TwoFolds(acc: u32)
    ensures var a := Fold(acc);
            a < 0x1_0000_0000 && (if a >= 0x1_0000 then Fold(a) else a) == Carried(acc)
  {
    FoldSame(acc);
    FoldSame(Fold(acc));
  }

  /** `lwip_chksum`: two folds are enough for every length that fits 16 bits. */
  method LwipChksum(data: seq<u8>) returns (r: u16)
    requires |data| <= 0xffff
    ensures r == Carried(WordSum(data))
  {
    hide WordSum, Fold, Carried;
    var acc: u32, i := 0, 0;
    WordSumFits(data);
    while |data| - i > 1
      invariant 0 <= i <= |data| && i % 2 == 0
      invariant acc + WordSum(data[i..]) == WordSum(data)
      decreases |data| - i
    {
      WordAhead(data, i);
      acc := acc + Word(data[i], data[i + 1]);
      i := i + 2;
    }
    LastWord(data[i..]);
    if |data| - i == 1 {
      var last: int := data[i];
      acc := acc + Swap(last * 0x100);
    }
    TwoFolds(acc);
    acc := Fold(acc);
    if acc >= 0x1_0000 { acc := Fold(acc); }
    r := acc;
  }

  lemma WordAhead(data: seq<u8>, i: nat)
    requires i + 1 < |data|
    ensures WordSum(data[i..]) == Word(data[i], data[i + 1]) + WordSum(data[i + 2..])
  {
    assert data[i..] == [data[i], data[i + 1]] + data[i + 2..];
    TwoBytes(data[i], data[i + 1], data[i + 2..]);
  }

  lemma LastWord(rest: seq<u8>)
    requires |rest| <= 1
    ensures WordSum(rest) == if rest == [] then 0 else rest[0]
  {
    if rest != [] {
      assert rest[1..] == [];
      assert Evens(rest[1..]) == 0 && Odds(rest[1..]) == 0;
    }
  }

  /** `inet_chksum` */
  method InetChksum(data: seq<u8>) returns (r: u16)
    requires |data| <= 0xffff
    ensures r == Checksum(data)
  {
    var sum := LwipChksum(data);
    var acc := FoldAll(sum);
    CarriedAdds(WordSum(data), 0);
    r := 0xffff - acc;
  }

  /** The folds that bring a sum back into 16 bits. */
  method FoldAll(n: u32) returns (acc: u32)
    ensures acc == Carried(n)
  {
    acc := n;
    while acc >= 0x1_0000
      invariant Carried(acc) == Carried(n)
      decreases acc
    {
      FoldSame(acc);
      acc := Fold(acc);
    }
  }

  /** The twelve bytes that TCP and UDP add in front, with the addresses as they lie in memory. */
  function PseudoHeader(src: seq<u8>, dest: seq<u8>, proto: u8, len: u16): seq<u8>
    requires |src| == 4 && |dest| == 4
  {
    src + dest + [0, proto, len / 0x100, len % 0x100]
  }

  /** The two 16-bit halves of an address that was loaded as a little-endian word. */
  function Halves(addr: seq<u8>): nat
    requires |addr| == 4
  {
    var lo: nat, hi: nat := Word(addr[0], addr[1]), Word(addr[2], addr[3]);
    lo + hi
  }

  lemma FourAhead(data: seq<u8>, i: nat)
    requires i + 4 <= |data|
    ensures WordSum(data[i..]) == Word(data[i], data[i + 1]) + Word(data[i + 2], data[i + 3]) + WordSum(data[i + 4..])
  {
    hide WordSum;
    WordAhead(data, i);
    WordAhead(data, i + 2);
  }

  lemma PseudoSum(src: seq<u8>, dest: seq<u8>, proto: u8, len: u16, flat: seq<u8>)
    requires |src| == 4 && |dest| == 4
    ensures WordSum(PseudoHeader(src, dest, proto, len) + flat)
            == Halves(src) + Halves(dest) + Swap(proto) + Swap(len) + WordSum(flat)
  {
    hide WordSum;
    var h := PseudoHeader(src, dest, proto, len) + flat;
    assert h[0..] == h && h[12..] == flat && |h| >= 12;
    FourAhead(h, 0);
    FourAhead(h, 4);
    FourAhead(h, 8);
  }

  /** What the accumulator holds after the pbufs in front: their sum, shifted by a byte if they are of odd length together. */
  function Running(front: seq<u8>): u16 {
    Carried(if |front| % 2 == 0 then WordSum(front) else 0x100 * WordSum(front))
  }

  lemma RunningAdds(front: seq<u8>, q: seq<u8>)
    ensures var acc := Carried(Running(front) + Carried(WordSum(q)));
            Running(front + q) == if |q| % 2 == 0 then acc else Swap(acc)
  {
    hide WordSum, Carried, Swap;
    var n := if |front| % 2 == 0 then WordSum(front) else 0x100 * WordSum(front);
    CarriedAdds(n, Carried(WordSum(q)));
    CarriedAdds(n, WordSum(q));
    JoinCarries(front, q);
    SwapCarries(n + WordSum(q));
    if |q| % 2 == 1 { JoinShifts(front, q); } else { JoinKeeps(front, q); }
  }

  /** Behind the pbufs in front, an even number of bytes more. */
  lemma JoinKeeps(front: seq<u8>, q: seq<u8>)
    requires |q| % 2 == 0
    ensures Running(front + q) == Carried((if |front| % 2 == 0 then WordSum(front) else 0x100 * WordSum(front)) + WordSum(q))
  {
    hide WordSum, Carried;
    if |front| % 2 == 0 {
      EvenJoin(front, q);
    } else {
      JoinCarries(front, q);
    }
  }

  /** Behind the pbufs in front, an odd number of bytes more. */
  lemma JoinShifts(front: seq<u8>, q: seq<u8>)
    requires |q| % 2 == 1
    ensures Running(front + q)
            == Carried(0x100 * ((if |front| % 2 == 0 then WordSum(front) else 0x100 * WordSum(front)) + WordSum(q)))
  {
    hide WordSum, Carried;
    JoinCarries(front, q);
    if |front| % 2 == 0 { EvenJoin(front, q); }
    ShiftTwice(WordSum(front), WordSum(q));
  }

  lemma EvenJoin(front: seq<u8>, q: seq<u8>)
    requires |front| % 2 == 0
    ensures WordSum(front + q) == WordSum(front) + WordSum(q)
  {
    SumsJoin(front, q);
  }

  lemma ShiftTwice(a: nat, b: nat)
    ensures Carried(0x100 * (0x100 * a + b)) == Carried(a + 0x100 * b)
  {
    assert 0x100 * (0x100 * a + b) == a + 0x100 * b + a * 0xffff;
    AddMultiple(a + 0x100 * b, a);
    SameCarried(a + 0x100 * b + a * 0xffff, a + 0x100 * b);
  }

  /** `inet_chksum_pseudo`, for a chain of pbufs of any lengths, odd ones anywhere. */
  method InetChksumPseudo(chain: seq<seq<u8>>, src: seq<u8>, dest: seq<u8>, proto: u8, protoLen: u16) returns (r: u16)
    requires |src| == 4 && |dest| == 4 && forall q :: q in chain ==> |q| <= 0xffff
    ensures r == Checksum(PseudoHeader(src, dest, proto, protoLen) + Flat(chain))
  {
    var acc: u32, swapped, i := 0, 0, 0;
    assert Flat(chain[..0]) == [] && Running([]) == 0;
    hide WordSum, Carried, Running, Swap, Flat;
    while i < |chain|
      invariant 0 <= i <= |chain| && acc == Running(Flat(chain[..i])) && swapped == |Flat(chain[..i])| % 2
    {
      assert chain[..i + 1] == chain[..i] + [chain[i]];
      FlatLast(chain[..i], chain[i]);
      acc, swapped := AddPbuf(acc, swapped, chain[i], Flat(chain[..i]));
      i := i + 1;
    }
    assert chain[..i] == chain;
    r := PseudoTail(acc, swapped, Flat(chain), src, dest, proto, protoLen);
  }

  /** The body of the loop: one more pbuf. */
  method AddPbuf(acc0: u32, swapped0: nat, q: seq<u8>, ghost front: seq<u8>) returns (acc: u32, swapped: nat)
    requires |q| <= 0xffff && acc0 == Running(front) && swapped0 == |front| % 2
    ensures acc == Running(front + q) && swapped == |front + q| % 2
  {
    RunningAdds(front, q);
    hide WordSum, Carried, Running, Swap;
    var sum := LwipChksum(q);
    acc := FoldAll(acc0 + sum);
    swapped := swapped0;
    if |q| % 2 != 0 {
      swapped := 1 - swapped;
      acc := Swap(acc);
    }
  }

  /** The end of `inet_chksum_pseudo`: the bytes are swapped back, and the pseudo header is added. */
  method PseudoTail(acc0: u32, swapped: nat, ghost flat: seq<u8>, src: seq<u8>, dest: seq<u8>, proto: u8, protoLen: u16)
    returns (r: u16)
    requires |src| == 4 && |dest| == 4 && acc0 == Running(flat) && swapped == |flat| % 2
    ensures r == Checksum(PseudoHeader(src, dest, proto, protoLen) + flat)
  {
    var acc := acc0;
    ghost var n := WordSum(flat);
    if swapped == 1 {
      SwapCarries(0x100 * n);
      BackInPlace(n);
      acc := Swap(acc);
    }
    assert acc == Carried(n);
    hide WordSum, Carried, PseudoHeader;
    ghost var more := Halves(src) + Halves(dest) + Swap(proto) + Swap(protoLen);
    var total: u32 := acc + Word(src[0], src[1]);
    total := total + Word(src[2], src[3]);
    total := total + Word(dest[0], dest[1]);
    total := total + Word(dest[2], dest[3]);
    total := total + Swap(proto);
    total := total + Swap(protoLen);
    CarriedAdds(n, more);
    PseudoSum(src, dest, proto, protoLen, flat);
    total := FoldAll(total);
    r := 0xffff - total;
  }

  /** Two shifts by a byte bring a sum back. */
  lemma BackInPlace(n: nat)
    ensures Carried(0x100 * (0x100 * n)) == Carried(n)
  {
    assert 0x100 * (0x100 * n) == n + n * 0xffff;
    AddMultiple(n, n);
    SameCarried(n + n * 0xffff, n);
  }

  // ----- etherboot/core/xbox_misc.c

  /** What the end-around carry of a 16-bit sum leaves after one more addition. */
  function EndAround(sum: u32): u32 {
    if sum > 0xffff then (sum + sum / 0x1_0000) % 0x1_0000 else sum
  }

  lemma EndAroundCarries(n: u16, value: u16)
    ensures EndAround(n + value) == Carried(n + value)
  {
  }

  lemma ByteCarries(data: seq<u8>, i: nat, value: u16)
    requires i < |data| && value == if i % 2 == 1 then Word(0, data[i]) else data[i]
    ensures EndAround(Carried(WordSum(data[..i])) + value) == Carried(WordSum(data[..i + 1]))
  {
    hide WordSum, EndAround, Carried;
    EndAroundCarries(Carried(WordSum(data[..i])), value);
    ByteBehind(data, i);
    CarriedAdds(WordSum(data[..i]), value);
  }

  /** `ipchksum`, byte by byte, for any length. */
  method IpChksum(data: seq<u8>) returns (r: u16)
    ensures r == Checksum(data)
  {
    hide WordSum, Carried;
    LastWord(data[..0]);
    var sum: u32, i := 0, 0;
    while i < |data|
      invariant 0 <= i <= |data| && sum == Carried(WordSum(data[..i]))
    {
      var value: int := data[i];
      if i % 2 == 1 { value := value * 0x100; }
      ByteCarries(data, i, value);
      sum := sum + value;
      if sum > 0xffff { sum := (sum + sum / 0x1_0000) % 0x1_0000; }
      i := i + 1;
    }
    assert data[..i] == data;
    r := 0xffff - sum;
  }

  lemma ByteBehind(data: seq<u8>, i: nat)
    requires i < |data|
    ensures WordSum(data[..i + 1]) == WordSum(data[..i]) + if i % 2 == 1 then Word(0, data[i]) else data[i]
  {
    assert data[..i + 1] == data[..i] + [data[i]];
    SumsJoin(data[..i], [data[i]]);
    assert [data[i]][1..] == [];
  }

  /** `add_ipchksums` */
  function AddIpChksums(offset: nat, sum: u16, new_: u16): (r: u16) {
    var s := 0xffff - sum;
    var n := if offset % 2 == 1 then Swap(0xffff - new_) else 0xffff - new_;
    var checksum := if s + n > 0xffff then s + n - 0xffff else s + n;
    0xffff - checksum
  }

  /** Adding the checksums of two parts gives the checksum of the whole, whatever their lengths. */
  lemma AddIpChksumsJoins(a: seq<u8>, b: seq<u8>)
    ensures AddIpChksums(|a|, Checksum(a), Checksum(b)) == Checksum(a + b)
  {
    var x, y := WordSum(a), WordSum(b);
    JoinCarries(a, b);
    SwapCarries(y);
    var z := if |a| % 2 == 1 then 0x100 * y else y;
    CarriedAdds(x, Carried(z));
    CarriedAdds(x, z);
    SmallSum(Carried(x) + Carried(z));
  }

  lemma SmallSum(n: nat)
    requires n <= 0x1_fffe
    ensures (if n > 0xffff then n - 0xffff else n) == Carried(n)
  {
    if n > 0xffff { SameCarried(n, n - 0xffff); }
  }

  // ----- etherboot/core/elf_loader.c

  /** A segment of the image: whether it is PT_LOAD, and the `p_memsz` bytes it has in memory. */
  datatype Segment = Segment(load: bool, bytes: seq<u8>)

  /** The bytes of the loaded segments, one after the other. */
  function Loaded(segs: seq<Segment>): seq<u8> {
    if segs == [] then [] else Loaded(segs[..|segs| - 1]) + if segs[|segs| - 1].load then segs[|segs| - 1].bytes else []
  }

  /** Of a row of segments it is the bytes of those in front and then of those behind; of one, its bytes if it is loaded. */
  lemma {:induction false} LoadedJoins(a: seq<Segment>, b: seq<Segment>)
    ensures Loaded(a + b) == Loaded(a) + Loaded(b)
    ensures |b| == 1 ==> Loaded(b) == if b[0].load then b[0].bytes else []
    decreases |b|
  {
    hide Loaded;
    LoadedNone();
    if b == [] {
      assert a + b == a;
    } else {
      var c, last := b[..|b| - 1], b[|b| - 1];
      LoadedJoins(a, c);
      assert b == c + [last] && (a + c) + [last] == a + b;
      LoadedLast(c, last);
      LoadedLast(a + c, last);
      assert |b| == 1 ==> c == [];
    }
  }

  lemma LoadedLast(a: seq<Segment>, last: Segment)
    ensures Loaded(a + [last]) == Loaded(a) + if last.load then last.bytes else []
  {
    assert (a + [last])[..|a|] == a;
  }

  lemma LoadedNone()
    ensures Loaded([]) == []
  {
  }

  /** The image check: the checksum compared with the note is that of header, program headers and segments in a row. */
  method ImageChecksum(ehdr: seq<u8>, phdrs: seq<u8>, segs: seq<Segment>) returns (sum: u16)
    ensures sum == Checksum(ehdr + phdrs + Loaded(segs))
  {
    sum := IpChksum(ehdr);
    var bytes: u32 := |ehdr| % 0x1_0000_0000;
    var newSum := IpChksum(phdrs);
    AddIpChksumsJoins(ehdr, phdrs);
    OffsetParity(|ehdr|, sum, newSum);
    sum := AddIpChksums(bytes, sum, newSum);
    bytes := ToU32(bytes + |phdrs|);
    var i := 0;
    ghost var whole := ehdr + phdrs;
    assert Loaded(segs[..0]) == [] && whole + [] == whole;
    hide Checksum, Loaded, AddIpChksums, ToU32;
    while i < |segs|
      invariant 0 <= i <= |segs| && whole == ehdr + phdrs + Loaded(segs[..i])
      invariant sum == Checksum(whole) && bytes == ToU32(|whole|)
    {
      LoadedMore(segs, i, ehdr + phdrs);
      if segs[i].load {
        newSum := IpChksum(segs[i].bytes);
        AddIpChksumsJoins(whole, segs[i].bytes);
        OffsetParity(|whole|, sum, newSum);
        sum := AddIpChksums(bytes, sum, newSum);
        AddWraps(|whole|, |segs[i].bytes|);
        bytes := ToU32(bytes + |segs[i].bytes|);
        whole := whole + segs[i].bytes;
      }
      i := i + 1;
    }
    assert segs[..i] == segs;
  }

  lemma LoadedMore(segs: seq<Segment>, i: nat, front: seq<u8>)
    requires i < |segs|
    ensures front + Loaded(segs[..i + 1]) == front + Loaded(segs[..i]) + if segs[i].load then segs[i].bytes else []
  {
    assert segs[..i + 1][..i] == segs[..i];
  }

  /** Only the parity of the offset matters, and it survives 32 bits. */
  lemma OffsetParity(offset: nat, sum: u16, newSum: u16)
    ensures AddIpChksums(ToU32(offset), sum, newSum) == AddIpChksums(offset, sum, newSum)
  {
    SameParity(offset);
    hide Swap, ToU32;
  }

  lemma SameParity(x: nat)
    ensures ToU32(x) % 2 == x % 2
  {
    var q, r: int := x / 0x1_0000_0000, ToU32(x);
    assert x == 0x1_0000_0000 * q + r;
    hide ToU32;
    EvenPart(0x8000_0000 * q, r);
  }

  lemma EvenPart(n: nat, r: int)
    requires r >= 0
    ensures (2 * n + r) % 2 == r % 2
  {
  }

  // ----- An example

  lemma TwoSum(x: u8, y: u8, back: seq<u8>)
    ensures WordSum([x, y] + back) == Word(x, y) + WordSum(back)
  {
    TwoBytes(x, y, back);
  }

  /** The example of section 3 of RFC 1071: the words add up to ddf2, whose complement is 220d. */
  lemma Rfc1071Example()
    ensures Checksum([0x00, 0x01, 0xf2, 0x03, 0xf4, 0xf5, 0xf6, 0xf7]) == Word(0x22, 0x0d)
  {
    hide WordSum;
    var none: seq<u8> := [];
    LastWord(none);
    TwoSum(0xf6, 0xf7, none);
    TwoSum(0xf4, 0xf5, [0xf6, 0xf7] + none);
    TwoSum(0xf2, 0x03, [0xf4, 0xf5] + ([0xf6, 0xf7] + none));
    TwoSum(0x00, 0x01, [0xf2, 0x03] + ([0xf4, 0xf5] + ([0xf6, 0xf7] + none)));
    assert [0x00 as u8, 0x01] + ([0xf2, 0x03] + ([0xf4, 0xf5] + ([0xf6, 0xf7] + none)))
           == [0x00, 0x01, 0xf2, 0x03, 0xf4, 0xf5, 0xf6, 0xf7];
  }
}
