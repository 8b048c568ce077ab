// `zlib_adler32` of include/zutil.h against section 2.2 of RFC 1950.
module Adler {
  import opened Words

  // Two 32-bit sums are reduced once per NMAX bytes; the definition reduces at
  // every byte.

  const BASE := 65521
  const NMAX := 5552

  /** The two sums after `buf`, reduced at every byte. */
  function Sums(s1: nat, s2: nat, buf: seq<u8>): (r: (nat, nat))
    ensures s1 < BASE && s2 < BASE ==> r.0 < BASE && r.1 < BASE
    decreases |buf|
  {
    if buf == [] then (s1, s2)
    else
      var b: int := buf[0];
      Sums((s1 + b) % BASE, (s2 + (s1 + b) % BASE) % BASE, buf[1..])
  }

  /** The two sums in one word. */
  function Packed(s: (nat, nat)): nat {
    s.1 * 0x1_0000 + s.0
  }

  function Unpacked(adler: u32): (nat, nat) {
    (adler % 0x1_0000, adler / 0x1_0000 % 0x1_0000)
  }

  /** A start value whose halves are reduced. */
  predicate Reduced(adler: u32) {
    Unpacked(adler).0 < BASE && Unpacked(adler).1 < BASE
  }

  /** Adler-32 of `buf`, started from `adler` */
  function Adler32(adler: u32, buf: seq<u8>): (r: u32)
    requires Reduced(adler)
    ensures Reduced(r)
  {
    var s := Sums(Unpacked(adler).0, Unpacked(adler).1, buf);
    PackedBack(s);
    Packed(s)
  }

  lemma {:induction false} SumsJoin(s1: nat, s2: nat, a: seq<u8>, b: seq<u8>)
    ensures Sums(s1, s2, a + b) == Sums(Sums(s1, s2, a).0, Sums(s1, s2, a).1, b)
    decreases |a|
  {
    if a == [] {
      assert a + b == b;
    } else {
      var x: int := a[0];
      assert (a + b)[1..] == a[1..] + b;
      SumsJoin((s1 + x) % BASE, (s2 + (s1 + x) % BASE) % BASE, a[1..], b);
    }
  }

  /** The Adler-32 of two parts in a row is that of the second, started from that of the first. */
  lemma Adler32Joins(adler: u32, a: seq<u8>, b: seq<u8>)
    requires Reduced(adler)
    ensures Adler32(adler, a + b) == Adler32(Adler32(adler, a), b)
  {
    var s := Unpacked(adler);
    SumsJoin(s.0, s.1, a, b);
    PackedBack(Sums(s.0, s.1, a));
    hide Sums, Packed, Unpacked;
  }

  lemma PackedBack(s: (nat, nat))
    requires s.0 < BASE && s.1 < BASE
    ensures Packed(s) < 0x1_0000_0000 && Unpacked(Packed(s)) == s
  {
  }

  // ----- Reducing late

  /** The sums without any reduction. */
  function Raw(s1: nat, s2: nat, buf: seq<u8>): (nat, nat)
    decreases |buf|
  {
    if buf == [] then (s1, s2)
    else
      var b: int := buf[|buf| - 1];
      var r := Raw(s1, s2, buf[..|buf| - 1]);
      (r.0 + b, r.1 + r.0 + b)
  }

  lemma RawMore(s1: nat, s2: nat, buf: seq<u8>, i: nat)
    requires i < |buf|
    ensures var b: int := buf[i]; var r := Raw(s1, s2, buf[..i]);
            Raw(s1, s2, buf[..i + 1]) == (r.0 + b, r.1 + r.0 + b)
  {
    assert buf[..i + 1][..i] == buf[..i];
  }

  /** What the second sum can reach in `n` bytes. */
  function Reach(n: nat): nat {
    if n == 0 then BASE - 1 else Reach(n - 1) + (BASE - 1) + 255 * n
  }

  lemma {:induction false} ReachIs(n: nat)
    ensures 2 * Reach(n) == 2 * (BASE - 1) * (n + 1) + 255 * (n * (n + 1))
  {
    if n > 0 {
      ReachIs(n - 1);
    }
  }

  lemma {:induction false} ReachGrows(i: nat, j: nat)
    requires i <= j
    ensures Reach(i) <= Reach(j)
    decreases j - i
  {
    if i < j { ReachGrows(i, j - 1); }
  }

  /** What the comment on NMAX claims: blocks of that length, and no longer ones, stay below 2^32. */
  lemma NmaxLargest(n: nat)
    ensures Reach(n) <= 0xffff_ffff <==> n <= NMAX
  {
    ReachIs(NMAX);
    ReachIs(NMAX + 1);
    if n <= NMAX { ReachGrows(n, NMAX); } else { ReachGrows(NMAX + 1, n); }
  }

  lemma {:induction false} RawBounded(s1: nat, s2: nat, buf: seq<u8>)
    requires s1 < BASE && s2 < BASE
    ensures Raw(s1, s2, buf).0 <= BASE - 1 + 255 * |buf| && Raw(s1, s2, buf).1 <= Reach(|buf|)
    decreases |buf|
  {
    if buf != [] { RawBounded(s1, s2, buf[..|buf| - 1]); }
  }

  /** Reducing at the end gives what reducing at every byte gives. */
  lemma {:induction false} RawReduces(s1: nat, s2: nat, buf: seq<u8>)
    requires s1 < BASE && s2 < BASE
    ensures Raw(s1, s2, buf).0 % BASE == Sums(s1, s2, buf).0 && Raw(s1, s2, buf).1 % BASE == Sums(s1, s2, buf).1
    decreases |buf|
  {
    if buf != [] {
      var i := |buf| - 1;
      var b: int := buf[i];
      RawReduces(s1, s2, buf[..i]);
      assert buf == buf[..i] + [buf[i]];
      SumsJoin(s1, s2, buf[..i], [buf[i]]);
      var r := Raw(s1, s2, buf[..i]);
      LateMod(r.0, r.1, b);
    }
  }

  lemma LateMod(a: nat, c: nat, b: nat)
    ensures (a + b) % BASE == (a % BASE + b) % BASE
    ensures (c + a + b) % BASE == (c % BASE + (a % BASE + b) % BASE) % BASE
  {
  }

  // ----- The loops

  /** `DO1`, `n` times from the front of a block of at most NMAX bytes. */
  method Block(s10: u32, s20: u32, buf: seq<u8>) returns (s1: u32, s2: u32)
    requires s10 < BASE && s20 < BASE && |buf| <= NMAX
    ensures (s1, s2) == Sums(s10, s20, buf)
  {
    s1, s2 := s10, s20;
    var i, k := 0, |buf|;
    while k >= 16
      invariant 0 <= i && 0 <= k && i + k == |buf| && (s1, s2) == Raw(s10, s20, buf[..i])
    {
      s1, s2 := Do16(s1, s2, buf, i, s10, s20);
      i := i + 16;
      k := k - 16;
    }
    while k != 0
      invariant 0 <= i && 0 <= k && i + k == |buf| && (s1, s2) == Raw(s10, s20, buf[..i])
      decreases k
    {
      s1, s2 := Do1(s1, s2, buf, i, s10, s20);
      i := i + 1;
      k := k - 1;
    }
    assert buf[..i] == buf;
    RawReduces(s10, s20, buf);
    s1, s2 := s1 % BASE, s2 % BASE;
  }

  /** `DO1`: no sum passes 32 bits. */
  method Do1(s1: u32, s2: u32, buf: seq<u8>, i: nat, ghost s10: nat, ghost s20: nat) returns (r1: u32, r2: u32)
    requires s10 < BASE && s20 < BASE && i < |buf| <= NMAX && (s1, s2) == Raw(s10, s20, buf[..i])
    ensures (r1, r2) == Raw(s10, s20, buf[..i + 1])
  {
    RawMore(s10, s20, buf, i);
    RawBounded(s10, s20, buf[..i + 1]);
    NmaxLargest(i + 1);
    r1 := s1 + buf[i];
    r2 := s2 + r1;
  }

  /** `DO16` */
  method Do16(s1: u32, s2: u32, buf: seq<u8>, i: nat, ghost s10: nat, ghost s20: nat) returns (r1: u32, r2: u32)
    requires s10 < BASE && s20 < BASE && i + 16 <= |buf| <= NMAX && (s1, s2) == Raw(s10, s20, buf[..i])
    ensures (r1, r2) == Raw(s10, s20, buf[..i + 16])
  {
    r1, r2 := s1, s2;
    for j := 0 to 16
      invariant (r1, r2) == Raw(s10, s20, buf[..i + j])
    {
      r1, r2 := Do1(r1, r2, buf, i + j, s10, s20);
    }
  }

  /** `zlib_adler32`; no buffer asks for the start value. */
  method ZlibAdler32(adler: u32, hasBuf: bool, buf: seq<u8>) returns (r: u32)
    requires Reduced(adler)
    ensures r == if hasBuf then Adler32(adler, buf) else 1
  {
    var s1: u32, s2: u32 := Unpacked(adler).0, Unpacked(adler).1;
    if !hasBuf { return 1; }
    var i, len := 0, |buf|;
    assert buf[..0] == [];
    while len > 0
      invariant 0 <= i && 0 <= len && i + len == |buf| && s1 < BASE && s2 < BASE
      invariant (s1, s2) == Sums(Unpacked(adler).0, Unpacked(adler).1, buf[..i])
    {
      var k := Min(len, NMAX);
      len := len - k;
      assert buf[..i + k] == buf[..i] + buf[i..i + k];
      SumsJoin(Unpacked(adler).0, Unpacked(adler).1, buf[..i], buf[i..i + k]);
      s1, s2 := Block(s1, s2, buf[i..i + k]);
      i := i + k;
    }
    assert buf[..i] == buf;
    r := s2 * 0x1_0000 + s1;
  }

  /** The Adler-32 of "abc". */
  lemma AdlerOfAbc()
    ensures Adler32(1, [97, 98, 99]) == 0x024d_0127
  {
    hide Sums;
    var abc: seq<u8>, bc: seq<u8>, c: seq<u8> := [97, 98, 99], [98, 99], [99];
    SumsStep(1, 0, abc, bc);
    SumsStep(98, 98, bc, c);
    SumsStep(196, 294, c, []);
    SumsNone(295, 589);
    assert Unpacked(1) == (1, 0) && abc[0] == 97 && bc[0] == 98 && c[0] == 99;
  }

  lemma SumsStep(s1: nat, s2: nat, buf: seq<u8>, rest: seq<u8>)
    requires buf != [] && rest == buf[1..]
    ensures var b: int := buf[0]; Sums(s1, s2, buf) == Sums((s1 + b) % BASE, (s2 + (s1 + b) % BASE) % BASE, rest)
  {
  }

  lemma SumsNone(s1: nat, s2: nat)
    ensures Sums(s1, s2, []) == (s1, s2)
  {
  }
}
