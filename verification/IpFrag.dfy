// Fragmentation, `ip_frag` of lwip/ip_frag.c, and the round trip through
// reassembly (section 3.2 of RFC 791).
module IpFrag {
  import opened Words
  import opened IpReass

  const MAX_MTU := 1500

  /**
   * The fragments of payload `d`, whose own offset field is `ofo` and whose own More Fragments flag is
   * `omf`: `mtu - 20` bytes rounded down to units of 8, until the rest fits.
   */
  function Pieces(key: Key, d: seq<u8>, ofo: nat, omf: bool, mtu: nat): seq<Frag>
    requires mtu >= IP_HLEN + 8
    decreases |d|
  {
    if d == [] then []
    else if |d| <= mtu - IP_HLEN then [Frag(key, 8 * (ofo % 0x2000), d, omf)]
    else
      var nfb := (mtu - IP_HLEN) / 8;
      [Frag(key, 8 * (ofo % 0x2000), d[..8 * nfb], true)] + Pieces(key, d[8 * nfb..], ofo + nfb, omf, mtu)
  }

  /** The fragments cut `d` from byte `pos` on into consecutive parts, with More Fragments on all but the last. */
  ghost predicate Partition(fs: seq<Frag>, key: Key, d: seq<u8>, pos: nat, mtu: nat) {
    && pos < |d| && fs != [] && fs[0].offset == pos && fs[|fs| - 1].End() == |d|
    && (forall i :: 0 <= i < |fs| ==> PieceOf(fs[i], key, d) && 0 < |fs[i].data| <= mtu - IP_HLEN && (fs[i].more <==> i < |fs| - 1))
    && (forall i :: 0 <= i < |fs| - 1 ==> fs[i + 1].offset == fs[i].End())
  }

  /** The first fragment, and what is left to cut. */
  lemma PiecesStep(key: Key, d: seq<u8>, ofo: nat, omf: bool, mtu: nat)
    requires mtu >= IP_HLEN + 8 && d != []
    ensures var fs := Pieces(key, d, ofo, omf, mtu);
            var last := |d| <= mtu - IP_HLEN; var nfb := (mtu - IP_HLEN) / 8; var cop := if last then |d| else 8 * nfb;
            && 0 < cop <= |d| && fs != []
            && fs[0] == Frag(key, 8 * (ofo % 0x2000), d[..cop], omf || !last)
            && fs[1..] == Pieces(key, d[cop..], ofo + nfb, omf, mtu)
  {
  }

  lemma PiecesEnd(key: Key, ofo: nat, omf: bool, mtu: nat)
    requires mtu >= IP_HLEN + 8
    ensures Pieces(key, [], ofo, omf, mtu) == []
  {
  }

  /** A piece in front of a partition of the rest. */
  lemma PartitionCons(f: Frag, fs: seq<Frag>, key: Key, d: seq<u8>, mtu: nat)
    requires PieceOf(f, key, d) && f.more && 0 < |f.data| <= mtu - IP_HLEN && Partition(fs, key, d, f.End(), mtu)
    ensures Partition([f] + fs, key, d, f.offset, mtu)
  {
    var r := [f] + fs;
    forall i | 0 <= i < |r|
      ensures PieceOf(r[i], key, d) && 0 < |r[i].data| <= mtu - IP_HLEN && (r[i].more <==> i < |r| - 1)
    {
      if i > 0 { assert r[i] == fs[i - 1]; }
    }
    forall i | 0 <= i < |r| - 1 ensures r[i + 1].offset == r[i].End() {
      assert r[i + 1] == fs[i];
      if i > 0 { assert r[i] == fs[i - 1]; }
    }
  }

  lemma {:induction false} PiecesPartition(key: Key, d: seq<u8>, ofo: nat, mtu: nat)
    requires mtu >= IP_HLEN + 8 && 8 * ofo < |d| < 0x1_0000
    ensures Partition(Pieces(key, d[8 * ofo..], ofo, false, mtu), key, d, 8 * ofo, mtu)
    decreases |d| - 8 * ofo
  {
    hide Pieces;
    var rest := d[8 * ofo..];
    var fs := Pieces(key, rest, ofo, false, mtu);
    PiecesStep(key, rest, ofo, false, mtu);
    if |rest| <= mtu - IP_HLEN {
      assert rest == d[8 * ofo..|d|];
      PiecesEnd(key, ofo + (mtu - IP_HLEN) / 8, false, mtu);
      assert rest[|rest|..] == [] && fs == [fs[0]] + fs[1..];
    } else {
      hide Partition;
      var nfb := (mtu - IP_HLEN) / 8;
      assert rest[8 * nfb..] == d[8 * (ofo + nfb)..];
      assert rest[..8 * nfb] == d[8 * ofo..8 * ofo + 8 * nfb];
      PiecesPartition(key, d, ofo + nfb, mtu);
      PartitionCons(fs[0], fs[1..], key, d, mtu);
      assert fs == [fs[0]] + fs[1..];
    }
  }

  /**
   * No more fragments than it takes: each but the last holds as many units of 8 bytes as the MTU admits,
   * and no two neighbours would fit in one.
   */
  lemma {:induction false} PiecesFull(key: Key, d: seq<u8>, ofo: nat, omf: bool, mtu: nat, i: nat)
    requires mtu >= IP_HLEN + 8 && i + 1 < |Pieces(key, d, ofo, omf, mtu)|
    ensures var fs := Pieces(key, d, ofo, omf, mtu);
            var n := |fs[i].data|;
            n % 8 == 0 && n <= mtu - 20 < n + 8 && mtu - 20 < n + |fs[i + 1].data|
    decreases |d|
  {
    PiecesStep(key, d, ofo, omf, mtu);
    var nfb := (mtu - IP_HLEN) / 8;
    if i > 0 {
      PiecesFull(key, d[8 * nfb..], ofo + nfb, omf, mtu, i - 1);
    } else {
      PiecesStep(key, d[8 * nfb..], ofo + nfb, omf, mtu);
    }
  }

  /** A fragment cut up once more: only the last piece tells, and it says what the fragment said. */
  lemma {:induction false} PiecesOfFragment(key: Key, d: seq<u8>, ofo: nat, mtu: nat)
    requires mtu >= IP_HLEN + 8 && d != []
    ensures var fs := Pieces(key, d, ofo, false, mtu);
            fs != [] && Pieces(key, d, ofo, true, mtu) == fs[|fs| - 1 := fs[|fs| - 1].(more := true)]
    decreases |d|
  {
    PiecesStep(key, d, ofo, false, mtu);
    PiecesStep(key, d, ofo, true, mtu);
    if |d| > mtu - IP_HLEN {
      var nfb := (mtu - IP_HLEN) / 8;
      PiecesOfFragment(key, d[8 * nfb..], ofo + nfb, mtu);
    }
  }

  /** What reassembly returns for each fragment of a sequence. */
  function Feed(s: State, fs: seq<Frag>): (outs: seq<Option<seq<u8>>>)
    requires |s.buf| == IP_REASS_BUFSIZE
    ensures |outs| == |fs|
    decreases |fs|
  {
    if fs == [] then []
    else
      var r := Receive(s, fs[0]);
      [r.1] + Feed(r.0, fs[1..])
  }

  /** Reassembly has the first `pos` bytes of `d`, and nothing else of it. */
  ghost predicate HasFront(s: State, key: Key, d: seq<u8>, pos: nat) {
    && |s.buf| == IP_REASS_BUFSIZE && pos <= |d| && pos <= |s.buf|
    && if s.tmr == 0 then pos == 0
       else s.key == key && !s.last && s.units == Units(0, pos) && s.buf[..pos] == d[..pos]
  }

  lemma NextPiece(s: State, key: Key, d: seq<u8>, f: Frag)
    requires HasFront(s, key, d, f.offset) && PieceOf(f, key, d) && f.more && f.End() % 8 == 0 && |d| < IP_REASS_BUFSIZE
    ensures Receive(s, f).1 == None && HasFront(Receive(s, f).0, key, d, f.End())
    ensures |f.data| > 0 ==> Receive(s, f).0.tmr > 0
  {
    var b := Begin(s, f);
    assert b.units == Units(0, f.offset);
    assert Units(0, f.offset) + Units(f.offset, f.End()) == Units(0, f.End());
    var m := Placed(b, f);
    assert m.buf[..f.End()] == d[..f.End()];
  }

  lemma LastPiece(s: State, key: Key, d: seq<u8>, f: Frag)
    requires HasFront(s, key, d, f.offset) && PieceOf(f, key, d) && !f.more && |d| < IP_REASS_BUFSIZE
    ensures Receive(s, f).1 == Some(d)
  {
    var b := Begin(s, f);
    assert b.units == Units(0, f.offset);
    var m := Placed(b, f);
    assert m.units == Units(0, |d|);
    assert m.buf[..|d|] == d;
    forall u: nat | u < |d| / 8 ensures u in m.units { assert Covers(0, |d|, u); }
    forall u: nat | |d| / 8 <= u ensures u !in m.units { assert !Covers(0, |d|, u); }
  }

  lemma {:induction false} FeedPartition(s: State, key: Key, d: seq<u8>, fs: seq<Frag>, pos: nat, mtu: nat)
    requires Partition(fs, key, d, pos, mtu) && HasFront(s, key, d, pos) && |d| < IP_REASS_BUFSIZE
    ensures var outs := Feed(s, fs);
            outs[|fs| - 1] == Some(d) && forall i :: 0 <= i < |fs| - 1 ==> outs[i] == None
    decreases |fs|
  {
    if |fs| == 1 {
      LastPiece(s, key, d, fs[0]);
    } else {
      assert PieceOf(fs[1], key, d);
      NextPiece(s, key, d, fs[0]);
      FeedPartition(Receive(s, fs[0]).0, key, d, fs[1..], fs[1].offset, mtu);
    }
  }

  /**
   * Fed in order to an idle reassembly, the fragments of any payload that fits its buffer give the
   * payload back at the last one, and nothing before.
   */
  lemma RoundTrip(s: State, key: Key, d: seq<u8>, mtu: nat)
    requires |s.buf| == IP_REASS_BUFSIZE && s.tmr == 0 && 0 < |d| < IP_REASS_BUFSIZE && mtu >= IP_HLEN + 8
    ensures var fs := Pieces(key, d, 0, false, mtu); var outs := Feed(s, fs);
            && |outs| == |fs| > 0 && outs[|fs| - 1] == Some(d) && forall i :: 0 <= i < |fs| - 1 ==> outs[i] == None
  {
    assert d[8 * 0..] == d;
    PiecesPartition(key, d, 0, mtu);
    FeedPartition(s, key, d, Pieces(key, d, 0, false, mtu), 0, mtu);
  }
}
