/** Octets and the little-endian words the wire formats are built from. */
module Bytes {
  type Byte = x: int | 0 <= x < 256

  /** The 16-bit word whose low octet comes first. */
  function Word16(lo: Byte, hi: Byte): (w: nat)
    ensures w < 0x1_0000
  {
    lo + 256 * hi
  }

  /** Bitwise conjunction of the low w bits. */
  function AndBits(a: nat, b: nat, w: nat): (c: nat)
    ensures c <= a
  {
    if w == 0 then 0
    else (if a % 2 == 1 && b % 2 == 1 then 1 else 0) + 2 * AndBits(a / 2, b / 2, w - 1)
  }

  function And(a: Byte, b: Byte): Byte {
    AndBits(a, b, 8)
  }

  function Pow2(w: nat): (p: nat)
    ensures p > 0
  {
    if w == 0 then 1 else 2 * Pow2(w - 1)
  }

  lemma {:induction false} AndLaws(a: nat, b: nat, w: nat)
    requires a < Pow2(w)
    ensures AndBits(a, a, w) == a
    ensures AndBits(a, AndBits(a, b, w), w) == AndBits(a, b, w)
  {
    if w > 0 {
      AndLaws(a / 2, b / 2, w - 1);
    }
  }

  lemma {:induction false} AndOnes(b: nat, w: nat)
    requires b < Pow2(w)
    ensures AndBits(Pow2(w) - 1, b, w) == b
  {
    if w > 0 {
      AndOnes(b / 2, w - 1);
      assert (Pow2(w) - 1) / 2 == Pow2(w - 1) - 1;
    }
  }

  lemma JoinAssociates<T>(a: seq<T>, b: seq<T>, c: seq<T>)
    ensures (a + b) + c == a + (b + c)
  {
  }

  /** The concatenation of all blocks, in order. */
  ghost function Flat<T>(blocks: seq<seq<T>>): seq<T> {
    if blocks == [] then [] else Flat(blocks[..|blocks| - 1]) + blocks[|blocks| - 1]
  }

  lemma FlatSnoc<T>(blocks: seq<seq<T>>, last: seq<T>)
    ensures Flat(blocks + [last]) == Flat(blocks) + last
  {
    assert (blocks + [last])[..|blocks|] == blocks;
  }

  lemma {:induction false} FlatSplit<T>(blocks: seq<seq<T>>, i: nat)
    requires i <= |blocks|
    ensures Flat(blocks) == Flat(blocks[..i]) + Flat(blocks[i..])
    decreases |blocks|
  {
    if i == |blocks| {
      assert blocks[..i] == blocks;
    } else {
      var n := |blocks| - 1;
      var init := blocks[..n];
      FlatSplit(init, i);
      assert init[..i] == blocks[..i];
      assert blocks[i..] == init[i..] + [blocks[n]];
      FlatSnoc(init[i..], blocks[n]);
      calc {
        Flat(blocks);
        Flat(init) + blocks[n];
        (Flat(init[..i]) + Flat(init[i..])) + blocks[n];
        Flat(init[..i]) + (Flat(init[i..]) + blocks[n]);
      }
    }
  }

  lemma FlatCons<T>(first: seq<T>, blocks: seq<seq<T>>)
    ensures Flat([first] + blocks) == first + Flat(blocks)
  {
    var all := [first] + blocks;
    FlatSplit(all, 1);
    assert all[..1] == [first] && all[1..] == blocks;
    FlatSnoc<T>([], first);
    assert [] + [first] == [first];
  }
}
