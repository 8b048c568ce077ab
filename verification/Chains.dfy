// The bytes of a pbuf chain, given as the payloads of its pbufs.
module Chains {
  import opened Words

  function Flat(chain: seq<seq<u8>>): seq<u8> {
    if chain == [] then [] else chain[0] + Flat(chain[1..])
  }

  lemma {:induction false} FlatLast(chain: seq<seq<u8>>, q: seq<u8>)
    ensures Flat(chain + [q]) == Flat(chain) + q
  {
    if chain == [] {
      assert [] + [q] == [q];
    } else {
      assert (chain + [q])[1..] == chain[1..] + [q];
      FlatLast(chain[1..], q);
    }
  }
}
