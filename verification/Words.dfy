// Fixed-width machine words, as ranges of unbounded integers, and the serial
// number arithmetic that TCP builds on them (section 3.3 of RFC 793).
// At its end are a few definitions that several modules share.
module Words {

  type u8 = x: int | 0 <= x < 0x100
  type u16 = x: int | 0 <= x < 0x1_0000
  type u32 = x: int | 0 <= x < 0x1_0000_0000

  /** The conversion of a C integer to `u8_t`: reduction modulo 2^8. */
  function ToU8(x: int): u8 {
    x % 0x100
  }

  /** The conversion of a C integer to `u16_t`: reduction modulo 2^16. */
  function ToU16(x: int): u16 {
    x % 0x1_0000
  }

  /** The conversion of a C integer to `u32_t`: reduction modulo 2^32. */
  function ToU32(x: int): u32 {
    x % 0x1_0000_0000
  }

  /** `(s32_t)(a - b)` for two 32-bit words. */
  function Diff(a: u32, b: u32): int {
    var d := ToU32(a - b);
    if d < 0x8000_0000 then d else d - 0x1_0000_0000
  }

  predicate SeqLt(a: u32, b: u32) { Diff(a, b) < 0 }
  predicate SeqLeq(a: u32, b: u32) { Diff(a, b) <= 0 }
  predicate SeqGt(a: u32, b: u32) { Diff(a, b) > 0 }
  predicate SeqGeq(a: u32, b: u32) { Diff(a, b) >= 0 }

  /** The unbounded position nearest to `near` that is written as `seqno` on the wire. */
  function Nearest(near: int, seqno: u32): (pos: int)
    ensures ToU32(pos) == seqno
    ensures -0x8000_0000 <= pos - near < 0x8000_0000
  {
    near + Diff(seqno, ToU32(near))
  }

  /** `Nearest` undoes the truncation to 32 bits of every position in its window. */
  lemma NearestInverts(near: int, pos: int)
    requires -0x8000_0000 <= pos - near < 0x8000_0000
    ensures Nearest(near, ToU32(pos)) == pos
  {
  }

  /** Signed 32-bit differences are exact for positions less than 2^31 apart. */
  lemma DiffExact(a: int, b: int)
    requires -0x8000_0000 <= a - b < 0x8000_0000
    ensures Diff(ToU32(a), ToU32(b)) == a - b
  {
  }

  /** Serial comparison is comparison of positions, for positions less than 2^31 apart. */
  lemma SeqExact(a: int, b: int)
    requires -0x8000_0000 <= a - b < 0x8000_0000
    ensures SeqLt(ToU32(a), ToU32(b)) <==> a < b
    ensures SeqLeq(ToU32(a), ToU32(b)) <==> a <= b
    ensures SeqGt(ToU32(a), ToU32(b)) <==> a > b
    ensures SeqGeq(ToU32(a), ToU32(b)) <==> a >= b
    ensures ToU32(a) == ToU32(b) <==> a == b
  {
    DiffExact(a, b);
  }

  /** Serial comparison of positions less than 2^32 apart: half the space ahead, it takes the later for the earlier. */
  lemma SeqWraps(a: int, b: int)
    requires -0x1_0000_0000 < a - b < 0x1_0000_0000
    ensures SeqLeq(ToU32(a), ToU32(b)) <==> -0x8000_0000 <= a - b <= 0 || 0x8000_0000 <= a - b
    ensures SeqLt(ToU32(a), ToU32(b)) <==> -0x8000_0000 <= a - b < 0 || 0x8000_0000 <= a - b
  {
  }

  lemma AddWraps(a: int, n: int)
    ensures ToU32(ToU32(a) + n) == ToU32(a + n)
  {
  }

  lemma SubWraps(a: int, b: int)
    ensures ToU32(ToU32(a) - ToU32(b)) == ToU32(a - b)
  {
  }

  /** A 16-bit truncation of a 32-bit difference sees the same low bits. */
  lemma LowBits(x: int)
    ensures ToU16(ToU32(x)) == ToU16(x)
  {
  }

  // ----- Shared definitions

  datatype Option<T> = None | Some(value: T)

  /** `n` zero bytes. */
  function Zeros(n: nat): (z: seq<u8>)
    ensures |z| == n && forall i :: 0 <= i < n ==> z[i] == 0
  {
    seq(n, _ => 0)
  }

  /** `buf` with `data` written over it from `at` on. */
  function Blit(buf: seq<u8>, at: nat, data: seq<u8>): (r: seq<u8>)
    requires at + |data| <= |buf|
    ensures |r| == |buf|
    ensures forall x :: 0 <= x < |buf| ==> r[x] == if at <= x < at + |data| then data[x - at] else buf[x]
  {
    buf[..at] + data + buf[at + |data|..]
  }

  ghost function Members<T>(s: seq<T>): set<T> {
    set x | x in s
  }

  function Min(a: int, b: int): int { if a < b then a else b }
  function Max(a: int, b: int): int { if a < b then b else a }
}
