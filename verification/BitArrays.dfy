/** The bit-array macros of the memory utilities library, on bytes as naturals. */
module BitArrays {
  import opened MachineWords

  type Byte = b: nat | b < 256

  /** x >> k. */
  function ShiftRight(x: nat, k: nat): nat {
    if k == 0 then x else ShiftRight(x / 2, k - 1)
  }

  /** The set of numbers that a bit array stands for. */
  ghost function Members(bits: seq<Byte>): set<nat> {
    set n: nat | n < 8 * |bits| && Bit(bits[n / 8], n % 8)
  }

  lemma {:induction false} PowerBit(j: nat, k: nat)
    ensures Bit(Pow2(j), k) <==> j == k
  {
    if j > 0 && k > 0 {
      PowerBit(j - 1, k - 1);
    } else if k > 0 {
      ZeroHasNoBits(k - 1);
    }
  }

  /** Complementing a word of w bits flips each of them. */
  lemma {:induction false} ComplementBit(m: nat, w: nat, k: nat)
    requires m < Pow2(w) && k < w
    ensures Bit(Pow2(w) - 1 - m, k) <==> !Bit(m, k)
  {
    assert (Pow2(w) - 1 - m) / 2 == Pow2(w - 1) - 1 - m / 2;
    assert (Pow2(w) - 1 - m) % 2 == 1 - m % 2;
    if k > 0 { ComplementBit(m / 2, w - 1, k - 1); }
  }

  lemma {:induction false} StaysInWidth(x: nat, y: nat, w: nat)
    requires x < Pow2(w) && y < Pow2(w)
    ensures And(x, y) < Pow2(w) && Or(x, y) < Pow2(w) && Xor(x, y) < Pow2(w)
  {
    if w > 0 { StaysInWidth(x / 2, y / 2, w - 1); }
  }

  lemma {:induction false} ShiftedBit(x: nat, k: nat)
    ensures And(ShiftRight(x, k), 1) == if Bit(x, k) then 1 else 0
  {
    if k > 0 {
      ShiftedBit(x / 2, k - 1);
    } else {
      AndLowMask(x, 1);
      assert Pow2(1) == 2;
    }
  }

  lemma ByteWidth() returns (w: nat)
    ensures w == 8 && Pow2(w) == 256
  {
    w := 8;
  }

  lemma BitMask(j: nat)
    requires j < 8
    ensures Pow2(j) < 256
  {
    var w := ByteWidth();
    Pow2Monotone(j, w);
  }

  /** What the three updates do to every bit of a byte. */
  lemma ByteUpdates(x: Byte, j: nat, k: nat)
    requires j < 8 && k < 8 && Pow2(j) < 256
    ensures Bit(Or(x, Pow2(j)), k) <==> Bit(x, k) || k == j
    ensures Bit(And(x, 255 - Pow2(j)), k) <==> Bit(x, k) && k != j
    ensures Bit(Xor(x, Pow2(j)), k) <==> Bit(x, k) != (k == j)
  {
    var w := ByteWidth();
    PowerBit(j, k);
    ComplementBit(Pow2(j), w, k);
    BitwiseOperators(x, Pow2(j), k);
    BitwiseOperators(x, 255 - Pow2(j), k);
  }

  lemma ByteRange(x: Byte, y: Byte)
    ensures And(x, y) < 256 && Or(x, y) < 256 && Xor(x, y) < 256
  {
    var w := ByteWidth();
    StaysInWidth(x, y, w);
  }

  /** Replacing byte i changes membership of its eight numbers only. */
  lemma MembersUpdate(bits: seq<Byte>, i: nat, b: Byte, after: set<nat>)
    requires i < |bits|
    requires forall n: nat :: n in after <==>
               n < 8 * |bits| && if n / 8 == i then Bit(b, n % 8) else Bit(bits[n / 8], n % 8)
    ensures Members(bits[i := b]) == after
  {}

  /** memory_utils_bit_set. */
  method BitSet(bits: array<Byte>, bit: nat)
    requires bit / 8 < bits.Length
    modifies bits
    ensures Members(bits[..]) == old(Members(bits[..])) + {bit}
    ensures bits[..] == old(bits[..])[bit / 8 := bits[bit / 8]]
    ensures bits[bit / 8] == Or(old(bits[bit / 8]), Pow2(bit % 8))
  {
    ghost var before := bits[..];
    BitMask(bit % 8);
    ByteRange(bits[bit / 8], Pow2(bit % 8));
    forall k: nat | k < 8 { ByteUpdates(bits[bit / 8], bit % 8, k); }
    bits[bit / 8] := Or(bits[bit / 8], Pow2(bit % 8));
    assert bits[..] == before[bit / 8 := bits[bit / 8]];
    MembersUpdate(before, bit / 8, bits[bit / 8], Members(before) + {bit});
  }

  /** memory_utils_bit_clear. */
  method BitClear(bits: array<Byte>, bit: nat)
    requires bit / 8 < bits.Length
    modifies bits
    ensures Members(bits[..]) == old(Members(bits[..])) - {bit}
    ensures bits[..] == old(bits[..])[bit / 8 := bits[bit / 8]]
  {
    ghost var before := bits[..];
    BitMask(bit % 8);
    ByteRange(bits[bit / 8], 255 - Pow2(bit % 8));
    forall k: nat | k < 8 { ByteUpdates(bits[bit / 8], bit % 8, k); }
    bits[bit / 8] := And(bits[bit / 8], 255 - Pow2(bit % 8));
    assert bits[..] == before[bit / 8 := bits[bit / 8]];
    MembersUpdate(before, bit / 8, bits[bit / 8], Members(before) - {bit});
  }

  /** memory_utils_bit_toggle. */
  method BitToggle(bits: array<Byte>, bit: nat)
    requires bit / 8 < bits.Length
    modifies bits
    ensures Members(bits[..]) == if bit in old(Members(bits[..])) then old(Members(bits[..])) - {bit}
                                 else old(Members(bits[..])) + {bit}
    ensures bits[..] == old(bits[..])[bit / 8 := bits[bit / 8]]
    ensures bits[bit / 8] == Xor(old(bits[bit / 8]), Pow2(bit % 8))
  {
    ghost var before := bits[..];
    BitMask(bit % 8);
    ByteRange(bits[bit / 8], Pow2(bit % 8));
    forall k: nat | k < 8 { ByteUpdates(bits[bit / 8], bit % 8, k); }
    bits[bit / 8] := Xor(bits[bit / 8], Pow2(bit % 8));
    assert bits[..] == before[bit / 8 := bits[bit / 8]];
    MembersUpdate(before, bit / 8, bits[bit / 8],
                  if bit in Members(before) then Members(before) - {bit} else Members(before) + {bit});
  }

  /** memory_utils_bit_test. */
  method BitTest(bits: array<Byte>, bit: nat) returns (r: nat)
    requires bit / 8 < bits.Length
    ensures r == if bit in Members(bits[..]) then 1 else 0
    ensures r == bits[bit / 8] / Pow2(bit % 8) % 2
  {
    ShiftedBit(bits[bit / 8], bit % 8);
    BitIsQuotient(bits[bit / 8], bit % 8);
    r := And(ShiftRight(bits[bit / 8], bit % 8), 1);
    assert bit in Members(bits[..]) <==> Bit(bits[..][bit / 8], bit % 8);
  }
}
