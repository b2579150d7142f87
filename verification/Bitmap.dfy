/** The packed bitmap: eight flags a byte, most significant bit first. */
module Bitmap {

  function Indexer(bit: nat): bv8
    requires bit < 8
  {
    (0x80 as bv8) >> bit
  }

  predicate GetBit(b: bv8, bit: nat)
    requires bit < 8
  {
    b & Indexer(bit) > 0
  }

  function SetBit(b: bv8, bit: nat, value: bool): bv8
    requires bit < 8
  {
    var cleared := b & !Indexer(bit);
    if value then cleared | Indexer(bit) else cleared
  }

  lemma {:induction false} SetThenGet(b: bv8, i: nat, j: nat, value: bool)
    requires i < 8 && j < 8
    ensures GetBit(SetBit(b, i, value), j) == if i == j then value else GetBit(b, j)
  {
    IndexersDiffer(i, j);
    MaskThenTest(b, Indexer(i), Indexer(j), value);
  }

  lemma IndexerValues()
    ensures Indexer(0) == 0x80 && Indexer(1) == 0x40 && Indexer(2) == 0x20 && Indexer(3) == 0x10
    ensures Indexer(4) == 0x08 && Indexer(5) == 0x04 && Indexer(6) == 0x02 && Indexer(7) == 0x01
  {
  }

  lemma {:induction false} IndexersDiffer(i: nat, j: nat)
    requires i < 8 && j < 8
    ensures Indexer(i) != 0
    ensures i != j ==> Indexer(i) & Indexer(j) == 0 && Indexer(i) != Indexer(j)
  {
    IndexerValues();
    assert i == 0 || i == 1 || i == 2 || i == 3 || i == 4 || i == 5 || i == 6 || i == 7;
    assert j == 0 || j == 1 || j == 2 || j == 3 || j == 4 || j == 5 || j == 6 || j == 7;
  }

  lemma MaskThenTest(b: bv8, m: bv8, n: bv8, value: bool)
    requires m != 0 && (m == n || m & n == 0)
    ensures var c := b & !m;
            var d := if value then c | m else c;
            (d & n > 0) == if m == n then value else b & n > 0
  {
  }

  /** Flag `i` is what its bit in the byte string says. */
  ghost predicate Agrees(bits: seq<bool>, bytes: seq<bv8>, i: nat)
    requires i < |bits| == 8 * |bytes|
  {
    bits[i] == GetBit(bytes[i / 8], i % 8)
  }

  /** The flags a byte string stands for, in index order. */
  ghost predicate Packs(bytes: seq<bv8>, bits: seq<bool>) {
    |bits| == 8 * |bytes| &&
    forall i {:trigger Agrees(bits, bytes, i)} :: 0 <= i < |bits| ==> Agrees(bits, bytes, i)
  }

  class Bitmap {
    const buffer: array<bv8>
    ghost var bits: seq<bool>  // the flags, in index order

    ghost predicate Valid()
      reads this, buffer
    {
      Packs(buffer[..], bits)
    }

    constructor (size: nat)
      ensures Valid() && |bits| == 8 * size && fresh(buffer)
      ensures forall i :: 0 <= i < |bits| ==> !bits[i]
    {
      buffer := new bv8[size](_ => 0);
      new;
      bits := seq(8 * size, _ => false);
      assert forall i | 0 <= i < 8 :: !GetBit(0, i);
    }

    method Get(index: nat) returns (value: bool)
      requires Valid() && index < |bits|
      ensures value == bits[index]
    {
      assert Agrees(bits, buffer[..], index);
      value := GetBit(buffer[index / 8], index % 8);
    }

    method Set(index: nat, value: bool)
      requires Valid() && index < |bits|
      modifies this, buffer
      ensures Valid() && bits == old(bits)[index := value]
    {
      var i, bit := index / 8, index % 8;
      ghost var was := buffer[..];
      buffer[i] := SetBit(buffer[i], bit, value);
      bits := bits[index := value];
      forall k | 0 <= k < 8 * |was|
        ensures Agrees(bits, buffer[..], k)
      {
        assert Agrees(old(bits), was, k);
        SetThenGet(was[i], bit, k % 8, value);
      }
    }
  }
}
