// The options of DHCP messages in lwip/dhcp.c: the writers and the trailer, the
// copy out of a pbuf chain, and the lookup (section 2 of RFC 2132).  A field is
// a row of options, each a code, a length and that many bytes, and an END.
module DhcpOptions {
  import opened Words
  import opened Chains

  const OPTION_OVERLOAD: u8 := 52
  const OPTION_END: u8 := 255
  const OPTIONS_LEN := 68
  const MIN_OPTIONS_LEN := 68
  /** `sizeof(struct dhcp_msg) - DHCP_OPTIONS_LEN` */
  const MSG_LEN := 240

  datatype DhcpOption = DhcpOption(code: u8, data: seq<u8>)

  /** An option as it stands in a message. */
  function Encoded(o: DhcpOption): seq<u8>
    requires |o.data| <= 0xff
  {
    [o.code, |o.data|] + o.data
  }

  predicate Plain(o: DhcpOption) {
    o.code != OPTION_END && o.code != OPTION_OVERLOAD && |o.data| <= 0xff
  }

  predicate AllPlain(os: seq<DhcpOption>) {
    forall i :: 0 <= i < |os| ==> Plain(os[i])
  }

  function Body(os: seq<DhcpOption>): seq<u8>
    requires AllPlain(os)
  {
    if os == [] then [] else Encoded(os[0]) + Body(os[1..])
  }

  /** The padding behind the END option: up to the least length, and to a multiple of four. */
  function Padded(n: nat): (r: nat)
    ensures n <= r && r >= MIN_OPTIONS_LEN && r % 4 == 0
    ensures n >= MIN_OPTIONS_LEN ==> r < n + 4
  {
    if n < MIN_OPTIONS_LEN then MIN_OPTIONS_LEN else n + (4 - n % 4) % 4
  }

  /** What the writers and the trailer leave of `os`. */
  function Field(os: seq<DhcpOption>): seq<u8>
    requires AllPlain(os)
  {
    var b := Body(os) + [OPTION_END];
    b + seq(Padded(|b|) - |b|, _ => 0)
  }

  // ----- The search

  /** Where `dhcp_get_option_ptr` finds `code` from `offset` on, in a field without overloading. */
  function Find(s: seq<u8>, offset: nat, code: u8): Option<nat>
    decreases |s| - offset
  {
    if offset >= |s| || s[offset] == OPTION_END then None
    else if s[offset] == code then Some(offset)
    else if offset + 1 >= |s| then None
    else var len: int := s[offset + 1]; Find(s, offset + 2 + len, code)
  }

  /** From `offset` to the END option, or to the end, there are only whole options, and none of them is OVERLOAD. */
  predicate Regular(s: seq<u8>, offset: nat)
    decreases |s| - offset
  {
    offset >= |s| || s[offset] == OPTION_END
    || (s[offset] != OPTION_OVERLOAD && offset + 1 < |s| && var len: int := s[offset + 1];
        offset + 2 + len <= |s| && Regular(s, offset + 2 + len))
  }

  /** The index of the first option of that code; |os| if there is none. */
  function First(os: seq<DhcpOption>, code: u8): (k: nat)
    ensures k <= |os|
    ensures k < |os| ==> os[k].code == code
    ensures forall i :: 0 <= i < k ==> os[i].code != code
  {
    if os == [] || os[0].code == code then 0 else 1 + First(os[1..], code)
  }

  /** The end of a field: nothing, or an END option and whatever follows it. */
  predicate Ending(rest: seq<u8>) {
    rest == [] || rest[0] == OPTION_END
  }

  /** Whatever follows the END option, the first occurrence is found, and nothing else. */
  lemma {:induction false} FindBody(front: seq<u8>, os: seq<DhcpOption>, rest: seq<u8>, code: u8)
    requires AllPlain(os) && Ending(rest) && code != OPTION_END
    ensures Find(front + (Body(os) + rest), |front|, code)
            == if First(os, code) == |os| then None else Some(|front| + |Body(os[..First(os, code)])|)
    decreases |os|
  {
    var s := front + (Body(os) + rest);
    if os == [] {
      assert rest != [] ==> s[|front|] == OPTION_END;
    } else {
      var o, e := os[0], Encoded(os[0]);
      assert Plain(o);
      assert s[|front|] == e[0] == o.code && s[|front| + 1] == e[1] == |o.data|;
      if o.code == code {
        assert os[..0] == [];
      } else {
        FindBody(front + e, os[1..], rest, code);
        assert s == (front + e) + (Body(os[1..]) + rest);
        var k := First(os[1..], code);
        if k < |os| - 1 {
          assert os[..k + 1][1..] == os[1..][..k];
          assert Body(os[..k + 1]) == e + Body(os[1..][..k]);
        }
      }
    }
  }

  lemma {:induction false} BodyRegular(front: seq<u8>, os: seq<DhcpOption>, rest: seq<u8>)
    requires AllPlain(os) && Ending(rest)
    ensures Regular(front + (Body(os) + rest), |front|)
    decreases |os|
  {
    var s := front + (Body(os) + rest);
    if os == [] {
      assert rest != [] ==> s[|front|] == OPTION_END;
    } else {
      var o, e := os[0], Encoded(os[0]);
      assert Plain(o);
      assert s[|front|] == e[0] == o.code && s[|front| + 1] == e[1] == |o.data|;
      BodyRegular(front + e, os[1..], rest);
      assert s == (front + e) + (Body(os[1..]) + rest);
    }
  }

  /** A regular field is a row of options and an end, and nothing else is. */
  lemma {:induction false} RegularParses(s: seq<u8>, offset: nat) returns (os: seq<DhcpOption>, rest: seq<u8>)
    requires offset <= |s| && Regular(s, offset)
    ensures AllPlain(os) && Ending(rest) && s[offset..] == Body(os) + rest
    decreases |s| - offset
  {
    if offset == |s| || s[offset] == OPTION_END {
      os, rest := [], s[offset..];
    } else {
      var len: int := s[offset + 1];
      var o := DhcpOption(s[offset], s[offset + 2..offset + 2 + len]);
      var more;
      more, rest := RegularParses(s, offset + 2 + len);
      os := [o] + more;
      assert os[1..] == more && s[offset..] == Encoded(o) + s[offset + 2 + len..];
    }
  }

  /** In every regular field, whoever wrote it, the first option of the code asked for is found, or none is there. */
  lemma FindsInRegular(s: seq<u8>, code: u8) returns (os: seq<DhcpOption>, rest: seq<u8>)
    requires Regular(s, 0) && code != OPTION_END
    ensures AllPlain(os) && Ending(rest) && s == Body(os) + rest
    ensures var k := First(os, code); var r := Find(s, 0, code);
            if k == |os| then r == None
            else r == Some(|Body(os[..k])|) && r.value + |Encoded(os[k])| <= |s|
                 && s[r.value..r.value + |Encoded(os[k])|] == Encoded(os[k])
  {
    hide Body, Encoded, Find, First, Ending, Regular;
    os, rest := RegularParses(s, 0);
    assert s[0..] == s && [] + (Body(os) + rest) == s;
    FindBody([], os, rest, code);
    var k := First(os, code);
    if k < |os| {
      BodySplit(os, k);
      Middle(Body(os[..k]), Encoded(os[k]), Body(os[k + 1..]), rest);
    }
  }

  lemma Middle(a: seq<u8>, e: seq<u8>, b: seq<u8>, rest: seq<u8>)
    ensures var s := a + e + b + rest; |a| + |e| <= |s| && s[|a|..|a| + |e|] == e
  {
  }

  /** Each requested code is found at its first occurrence, with its bytes behind it, or reported absent. */
  lemma FindsFirst(os: seq<DhcpOption>, code: u8)
    requires AllPlain(os) && code != OPTION_END
    ensures Regular(Field(os), 0)
    ensures var k := First(os, code); var r := Find(Field(os), 0, code);
            if k == |os| then r == None
            else r.Some? && r.value + |Encoded(os[k])| <= |Field(os)|
                 && Field(os)[r.value..r.value + |Encoded(os[k])|] == Encoded(os[k])
  {
    var b := Body(os) + [OPTION_END];
    var tail := seq(Padded(|b|) - |b|, _ => 0 as u8);
    assert Field(os) == [] + (Body(os) + ([OPTION_END] + tail));
    FindBody([], os, [OPTION_END] + tail, code);
    BodyRegular([], os, [OPTION_END] + tail);
    var k := First(os, code);
    if k < |os| {
      BodySplit(os, k);
      assert Field(os) == Body(os[..k]) + Encoded(os[k]) + (Body(os[k + 1..]) + [OPTION_END] + tail);
    }
  }

  lemma {:induction false} BodySplit(os: seq<DhcpOption>, k: nat)
    requires AllPlain(os) && k < |os|
    ensures Body(os) == Body(os[..k]) + Encoded(os[k]) + Body(os[k + 1..])
  {
    if k == 0 {
      assert os[..0] == [];
    } else {
      BodySplit(os[1..], k - 1);
      assert os[..k][1..] == os[1..][..k - 1] && os[1..][k - 1 + 1..] == os[k + 1..];
    }
  }

  lemma {:induction false} BodyMore(os: seq<DhcpOption>, o: DhcpOption)
    requires AllPlain(os) && Plain(o)
    ensures AllPlain(os + [o]) && Body(os + [o]) == Body(os) + Encoded(o)
  {
    var r := os + [o];
    if os == [] {
      assert r == [o] && r[1..] == [];
    } else {
      assert r[0] == os[0] && r[1..] == os[1..] + [o];
      BodyMore(os[1..], o);
      assert Body(r) == Encoded(os[0]) + (Body(os[1..]) + Encoded(o));
      hide Encoded, Plain;
    }
  }

  // ----- The writers

  class Message {
    const options: array<u8>
    var outLen: nat

    ghost predicate Valid()
      reads this
    {
      options.Length == OPTIONS_LEN && outLen <= OPTIONS_LEN
    }

    ghost function Out(): seq<u8>
      requires Valid()
      reads this, options
    {
      options[..outLen]
    }

    constructor ()
      ensures Valid() && Out() == [] && fresh(options)
    {
      options := new u8[OPTIONS_LEN](_ => 0);
      outLen := 0;
    }

    /** `dhcp_option_byte` */
    method OptionByte(value: u8)
      requires Valid() && outLen < OPTIONS_LEN
      modifies this`outLen, options
      ensures Valid() && Out() == old(Out()) + [value]
    {
      options[outLen] := value;
      outLen := outLen + 1;
    }

    /** `dhcp_option` */
    method Option(code: u8, len: u8)
      requires Valid() && outLen + 2 + len <= OPTIONS_LEN
      modifies this`outLen, options
      ensures Valid() && Out() == old(Out()) + [code, len]
    {
      OptionByte(code);
      OptionByte(len);
    }

    /** `dhcp_option_short` */
    method OptionShort(value: u16)
      requires Valid() && outLen + 2 <= OPTIONS_LEN
      modifies this`outLen, options
      ensures Valid() && Out() == old(Out()) + [value / 0x100, value % 0x100]
    {
      OptionByte(value / 0x100);
      OptionByte(value % 0x100);
    }

    /** `dhcp_option_long` */
    method OptionLong(value: u32)
      requires Valid() && outLen + 4 <= OPTIONS_LEN
      modifies this`outLen, options
      ensures Valid()
      ensures Out() == old(Out()) + [value / 0x100_0000, value / 0x1_0000 % 0x100, value / 0x100 % 0x100, value % 0x100]
    {
      OptionByte(value / 0x100_0000);
      OptionByte(value / 0x1_0000 % 0x100);
      OptionByte(value / 0x100 % 0x100);
      OptionByte(value % 0x100);
    }

    /** One option: its header, and its bytes one by one. */
    method Append(o: DhcpOption, ghost os: seq<DhcpOption>)
      requires Valid() && AllPlain(os) && Plain(o) && Out() == Body(os) && outLen + 2 + |o.data| <= OPTIONS_LEN
      modifies this`outLen, options
      ensures Valid() && AllPlain(os + [o]) && Out() == Body(os + [o])
    {
      Option(o.code, |o.data|);
      ghost var out := Out();
      var i := 0;
      while i < |o.data|
        invariant Valid() && 0 <= i <= |o.data| && outLen + |o.data| - i <= OPTIONS_LEN && Out() == out + o.data[..i]
      {
        OptionByte(o.data[i]);
        assert o.data[..i + 1] == o.data[..i] + [o.data[i]];
        i := i + 1;
      }
      assert o.data[..i] == o.data;
      BodyMore(os, o);
      assert Out() == Body(os) + Encoded(o);
    }

    /** `dhcp_option_trailer` */
    method OptionTrailer(ghost os: seq<DhcpOption>)
      requires Valid() && outLen < OPTIONS_LEN && AllPlain(os) && Out() == Body(os)
      modifies this`outLen, options
      ensures Valid() && Out() == Field(os)
    {
      OptionByte(OPTION_END);
      ghost var b := Out();
      while outLen < MIN_OPTIONS_LEN || outLen % 4 != 0
        invariant Valid() && |b| <= outLen <= Padded(|b|) <= OPTIONS_LEN
        invariant Out() == b + seq(outLen - |b|, _ => 0 as u8)
        decreases OPTIONS_LEN - outLen
      {
        OptionByte(0);
      }
    }
  }

  // ----- The reader

  ghost predicate NonEmpty(chain: seq<seq<u8>>) {
    forall i :: 0 <= i < |chain| ==> chain[i] != []
  }

  /** `j` is a byte of the chain's first pbuf, or the chain is at its end. */
  ghost predicate Inside(chain: seq<seq<u8>>, j: nat) {
    NonEmpty(chain) && if chain == [] then j == 0 else j < |chain[0]|
  }

  /** The copy loop of `dhcp_unfold_reply`: `n` bytes from byte `j` of the chain's first pbuf on, and where it stands then. */
  method CopyOut(chain: seq<seq<u8>>, j0: nat, n: nat) returns (out: seq<u8>, rest: seq<seq<u8>>, j: nat)
    requires Inside(chain, j0) && j0 + n <= |Flat(chain)|
    ensures out == Flat(chain)[j0..j0 + n] && j <= |Flat(rest)| && Flat(rest)[j..] == Flat(chain)[j0 + n..]
    ensures Inside(rest, j)
  {
    ghost var all := Flat(chain)[j0..];
    out, rest, j := [], chain, j0;
    var i := 0;
    while i < n
      invariant 0 <= i <= n && out == all[..i] && j <= |Flat(rest)| && Flat(rest)[j..] == all[i..]
      invariant Inside(rest, j)
    {
      assert Flat(rest)[j] == Flat(rest)[j..][0] == all[i];
      out := out + [rest[0][j]];
      assert Flat(rest)[j + 1..] == all[i + 1..];
      j := j + 1;
      if j == |rest[0]| {
        rest := rest[1..];
        j := 0;
      }
      i := i + 1;
    }
  }

  /** `dhcp_unfold_reply`, for any chain of pbufs that are not empty; the options are None if the message has none. */
  method UnfoldReply(chain: seq<seq<u8>>) returns (msg: seq<u8>, options: Option<seq<u8>>)
    requires NonEmpty(chain) && MSG_LEN <= |Flat(chain)| < 0x1_0000
    ensures msg == Flat(chain)[..MSG_LEN]
    ensures options == if |Flat(chain)| > MSG_LEN then Some(Flat(chain)[MSG_LEN..]) else None
  {
    var rest, j;
    msg, rest, j := CopyOut(chain, 0, MSG_LEN);
    options := None;
    if |Flat(chain)| > MSG_LEN {
      var out;
      ghost var tail := Flat(rest)[j..];
      assert |tail| == |Flat(chain)| - MSG_LEN;
      ghost var before, at := Flat(rest), j;
      out, rest, j := CopyOut(rest, j, |Flat(chain)| - MSG_LEN);
      assert out == before[at..at + |tail|] == tail;
      options := Some(out);
    }
  }

  /** `dhcp_get_option_ptr` on a field without overloading */
  method GetOptionPtr(options: seq<u8>, code: u8) returns (r: Option<nat>)
    requires |options| < 0x1_0000 && Regular(options, 0)
    ensures r == Find(options, 0, code)
  {
    var offset: u16 := 0;
    while offset < |options| && options[offset] != OPTION_END && options[offset] != code
      invariant Regular(options, offset) && Find(options, offset, code) == Find(options, 0, code)
      decreases |options| - offset
    {
      var len: int := options[offset + 1];
      offset := offset + 1;
      offset := offset + 1 + len;
    }
    r := if offset < |options| && options[offset] != OPTION_END then Some(offset) else None;
  }
}
