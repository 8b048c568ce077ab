// The Internet checksum as arithmetic (section 2 of RFC 1071): sums of 16-bit
// words with end-around carry, and what splitting them, swapping their bytes and
// folding them does to the result.
module OnesSum {
  import opened Words

  /** The one's complement sum: the value in 1..65535 of the same residue, and 0 only for 0. */
  function Carried(n: nat): (r: u16)
    ensures r == 0 <==> n == 0
    ensures n < 0x1_0000 ==> r == n
  {
    if n == 0 then 0 else (n - 1) % 0xffff + 1
  }

  /** A little-endian 16-bit word. */
  function Word(lo: u8, hi: u8): u16 {
    var l: int, h: int := lo, hi;
    l + 0x100 * h
  }

  /** The sum of the bytes at even indices. */
  function Evens(s: seq<u8>): nat {
    if s == [] then 0 else var b: int := s[0]; b + Odds(s[1..])
  }

  /** The sum of the bytes at odd indices. */
  function Odds(s: seq<u8>): nat {
    if s == [] then 0 else Evens(s[1..])
  }

  /** The sum of the little-endian 16-bit words, an odd last byte filled up with a zero. */
  function WordSum(s: seq<u8>): nat {
    Evens(s) + 0x100 * Odds(s)
  }

  /** The checksum that the stack and the loader should compute. */
  function Checksum(s: seq<u8>): u16 {
    0xffff - Carried(WordSum(s))
  }

  /** `htons` on a little-endian machine, and `bswap_16` */
  function Swap(x: u16): u16 {
    x % 0x100 * 0x100 + x / 0x100
  }

  /** One fold of the upper half into the lower one. */
  function Fold(x: nat): nat {
    x / 0x1_0000 + x % 0x1_0000
  }

  // ----- Carries

  /** The same one's complement sum. */
  predicate Same(a: nat, b: nat) {
    a % 0xffff == b % 0xffff && (a == 0 <==> b == 0)
  }

  lemma CarriedIs(a: nat)
    requires a > 0
    ensures Carried(a) == if a % 0xffff == 0 then 0xffff else a % 0xffff
  {
    var q, r := a / 0xffff, a % 0xffff;
    assert a - 1 == if r == 0 then 0xffff * (q - 1) + 0xfffe else 0xffff * q + (r - 1);
  }

  lemma SameCarried(a: nat, b: nat)
    requires Same(a, b)
    ensures Carried(a) == Carried(b)
  {
    hide Carried;
    if a > 0 {
      CarriedIs(a);
      CarriedIs(b);
    }
  }

  lemma CarriedSame(a: nat)
    ensures Same(Carried(a), a)
  {
  }

  /** Sums already carried can be added on. */
  lemma CarriedAdds(a: nat, b: nat)
    ensures Carried(Carried(a) + b) == Carried(a + b)
    ensures Carried(a + Carried(b)) == Carried(a + b)
  {
    CarriedSame(a);
    CarriedSame(b);
    SameAdds(Carried(a), a, b);
    SameAdds(Carried(b), b, a);
    SameCarried(Carried(a) + b, a + b);
    SameCarried(a + Carried(b), a + b);
  }

  lemma SameAdds(a: nat, a': nat, b: nat)
    requires Same(a, a')
    ensures Same(a + b, a' + b)
  {
  }

  lemma AddMultiple(x: nat, q: nat)
    ensures (x + q * 0xffff) % 0xffff == x % 0xffff
  {
  }

  /** A fold keeps the one's complement sum. */
  lemma FoldSame(x: nat)
    ensures Same(Fold(x), x) && Carried(Fold(x)) == Carried(x)
    ensures x >= 0x1_0000 ==> Fold(x) < x
  {
    var h, l := x / 0x1_0000, x % 0x1_0000;
    assert x == (h + l) + h * 0xffff;
    AddMultiple(h + l, h);
    SameCarried(Fold(x), x);
  }

  /** Shifting a sum by a byte is swapping its bytes. */
  lemma SwapCarries(n: nat)
    ensures Swap(Carried(n)) == Carried(0x100 * n)
  {
    var c: int := Carried(n);
    var h, l := c / 0x100, c % 0x100;
    CarriedSame(n);
    assert 0x100 * c == (0x100 * l + h) + h * 0xffff;
    AddMultiple(0x100 * l + h, h);
    assert Same(Swap(c), 0x100 * c);
    ShiftSame(c, n);
    SameCarried(Swap(c), 0x100 * n);
  }

  lemma ShiftSame(a: nat, b: nat)
    requires Same(a, b)
    ensures Same(0x100 * a, 0x100 * b)
  {
    var p, q, r := a / 0xffff, b / 0xffff, a % 0xffff;
    assert 0x100 * a == 0x100 * r + 0x100 * p * 0xffff && 0x100 * b == 0x100 * r + 0x100 * q * 0xffff;
    AddMultiple(0x100 * r, 0x100 * p);
    AddMultiple(0x100 * r, 0x100 * q);
  }

  // ----- Concatenation

  lemma {:induction false} SumsJoin(a: seq<u8>, b: seq<u8>)
    ensures Evens(a + b) == Evens(a) + if |a| % 2 == 0 then Evens(b) else Odds(b)
    ensures Odds(a + b) == Odds(a) + if |a| % 2 == 0 then Odds(b) else Evens(b)
  {
    if a == [] {
      assert a + b == b;
    } else {
      assert (a + b)[1..] == a[1..] + b;
      SumsJoin(a[1..], b);
    }
  }

  /** Behind an even number of bytes the sums add up; behind an odd number the second one's bytes trade places. */
  lemma JoinCarries(a: seq<u8>, b: seq<u8>)
    ensures Carried(WordSum(a + b)) == Carried(WordSum(a) + if |a| % 2 == 0 then WordSum(b) else 0x100 * WordSum(b))
    ensures |a| % 2 == 1 ==> Carried(0x100 * WordSum(a + b)) == Carried(0x100 * WordSum(a) + WordSum(b))
  {
    SumsJoin(a, b);
    if |a| % 2 == 1 { TradePlaces(Evens(a), Odds(a), Evens(b), Odds(b)); }
  }

  lemma TradePlaces(e: nat, o: nat, e': nat, o': nat)
    ensures Carried(e + o' + 0x100 * (o + e')) == Carried(e + 0x100 * o + 0x100 * (e' + 0x100 * o'))
    ensures Carried(0x100 * (e + o' + 0x100 * (o + e'))) == Carried(0x100 * (e + 0x100 * o) + (e' + 0x100 * o'))
  {
    hide Carried;
    var x, y := e + o' + 0x100 * (o + e'), 0x100 * (e + 0x100 * o) + (e' + 0x100 * o');
    assert e + 0x100 * o + 0x100 * (e' + 0x100 * o') == x + o' * 0xffff;
    AddMultiple(x, o');
    SameCarried(x + o' * 0xffff, x);
    assert 0x100 * x == y + e' * 0xffff;
    AddMultiple(y, e');
    SameCarried(y + e' * 0xffff, y);
  }

  lemma {:induction false} SumsBounded(s: seq<u8>)
    ensures Evens(s) <= 0xff * ((|s| + 1) / 2) && Odds(s) <= 0xff * (|s| / 2)
  {
    if s != [] { SumsBounded(s[1..]); }
  }

  // ----- What the checksum is for

  /** `s` with a 16-bit little-endian field at `at`. */
  function Stored(s: seq<u8>, at: nat, v: u16): seq<u8>
    requires at + 1 < |s|
  {
    s[at := v % 0x100][at + 1 := v / 0x100]
  }

  lemma StoredSum(s: seq<u8>, at: nat, v: u16)
    requires at + 1 < |s| && at % 2 == 0 && s[at] == 0 && s[at + 1] == 0
    ensures WordSum(Stored(s, at, v)) == WordSum(s) + v
  {
    var front, back := s[..at], s[at + 2..];
    var lo: u8, hi: u8 := v % 0x100, v / 0x100;
    assert s == front + ([0, 0] + back);
    assert Stored(s, at, v) == front + ([lo, hi] + back);
    SumsJoin(front, [0, 0] + back);
    SumsJoin(front, [lo, hi] + back);
    TwoBytes(0, 0, back);
    TwoBytes(lo, hi, back);
  }

  lemma TwoBytes(x: u8, y: u8, back: seq<u8>)
    ensures Evens([x, y] + back) == x + Evens(back) && Odds([x, y] + back) == y + Odds(back)
  {
    assert ([x, y] + back)[1..] == [y] + back;
    assert ([y] + back)[1..] == back;
  }

  /** Whoever finds the checksum in the field that was zero computes zero. */
  lemma ReceiverSeesZero(s: seq<u8>, at: nat)
    requires at + 1 < |s| && at % 2 == 0 && s[at] == 0 && s[at + 1] == 0
    ensures Checksum(Stored(s, at, Checksum(s))) == 0
  {
    var n, c := WordSum(s), Checksum(s);
    StoredSum(s, at, c);
    CarriedSame(n);
    if n > 0 {
      var q := (n - 1) / 0xffff;
      assert n + c == 0xffff * (q + 1);
      assert n + c == 0xffff + q * 0xffff;
      AddMultiple(0xffff, q);
      SameCarried(n + c, 0xffff);
    }
  }
}
