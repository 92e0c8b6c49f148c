/** Bytes, byte streams and the XOR that the expansion protocol's checksum is made of. */
module Streams {

  type byte = x: int | 0 <= x < 256

  type Bytes = seq<byte>

  datatype Option<+T> = None | Some(value: T)

  /** The stream obtained by writing the given pieces one after the other. */
  function Concat(parts: seq<Bytes>): (r: Bytes)
  {
    if parts == [] then [] else parts[0] + Concat(parts[1..])
  }

  lemma Assoc<T>(x: seq<T>, y: seq<T>, z: seq<T>)
    ensures (x + y) + z == x + (y + z)
  {
  }

  lemma {:induction false} ConcatSplit(a: seq<Bytes>, b: seq<Bytes>)
    ensures Concat(a + b) == Concat(a) + Concat(b)
  {
    if a == [] {
      assert a + b == b;
    } else {
      assert (a + b)[1..] == a[1..] + b;
      ConcatSplit(a[1..], b);
    }
  }

  function Pow2(bits: nat): (r: nat)
    ensures r >= 1
  {
    if bits == 0 then 1 else 2 * Pow2(bits - 1)
  }

  /** Exclusive or of the lowest `bits` bits: the bit of the result is set where exactly one operand's is. */
  function XorBits(a: nat, b: nat, bits: nat): (r: nat)
    ensures r < Pow2(bits)
  {
    if bits == 0 then 0
    else (if a % 2 == b % 2 then 0 else 1) + 2 * XorBits(a / 2, b / 2, bits - 1)
  }

  function Xor(a: byte, b: byte): (r: byte)
  {
    assert Pow2(8) == 256;
    XorBits(a, b, 8)
  }

  lemma {:induction false} XorBitsCancel(a: nat, b: nat, c: nat, bits: nat)
    requires a < Pow2(bits) && b < Pow2(bits)
    requires XorBits(a, c, bits) == XorBits(b, c, bits)
    ensures a == b
  {
    if bits != 0 {
      XorBitsCancel(a / 2, b / 2, c / 2, bits - 1);
    }
  }

  lemma {:induction false} XorBitsCommutes(a: nat, b: nat, bits: nat)
    ensures XorBits(a, b, bits) == XorBits(b, a, bits)
  {
    if bits != 0 {
      XorBitsCommutes(a / 2, b / 2, bits - 1);
    }
  }

  /** Each operand of an XOR is determined by the other operand and the result. */
  lemma XorCancel(a: byte, b: byte, c: byte)
    ensures Xor(a, c) == Xor(b, c) ==> a == b
    ensures Xor(c, a) == Xor(c, b) ==> a == b
  {
    assert Pow2(8) == 256;
    if Xor(a, c) == Xor(b, c) {
      XorBitsCancel(a, b, c, 8);
    }
    if Xor(c, a) == Xor(c, b) {
      XorBitsCommutes(a, c, 8);
      XorBitsCommutes(b, c, 8);
      XorBitsCancel(a, b, c, 8);
    }
  }

  // ----- what XOR is

  /** Bit `k` of `x`. */
  predicate Bit(x: nat, k: nat)
  {
    if k == 0 then x % 2 == 1 else Bit(x / 2, k - 1)
  }

  /** A bit of the result is set exactly if it is set in one operand and not in the other. */
  lemma {:induction false} XorBitsBit(a: nat, b: nat, bits: nat, k: nat)
    requires k < bits
    ensures Bit(XorBits(a, b, bits), k) <==> Bit(a, k) != Bit(b, k)
  {
    if k > 0 {
      XorBitsBit(a / 2, b / 2, bits - 1, k - 1);
    }
  }

  lemma {:induction false} XorBitsZero(a: nat, bits: nat)
    requires a < Pow2(bits)
    ensures XorBits(a, 0, bits) == a && XorBits(a, a, bits) == 0
  {
    if bits != 0 {
      XorBitsZero(a / 2, bits - 1);
    }
  }

  lemma {:induction false} XorBitsAssociates(a: nat, b: nat, c: nat, bits: nat)
    ensures XorBits(XorBits(a, b, bits), c, bits) == XorBits(a, XorBits(b, c, bits), bits)
  {
    if bits != 0 {
      XorBitsAssociates(a / 2, b / 2, c / 2, bits - 1);
    }
  }

  /** XOR is a commutative group in which every byte is its own inverse. */
  lemma XorLaws(a: byte, b: byte, c: byte)
    ensures Xor(a, 0) == a && Xor(a, a) == 0
    ensures Xor(a, b) == Xor(b, a)
    ensures Xor(Xor(a, b), c) == Xor(a, Xor(b, c))
  {
    assert Pow2(8) == 256;
    XorBitsZero(a, 8);
    XorBitsCommutes(a, b, 8);
    XorBitsAssociates(a, b, c, 8);
  }

  lemma XorBit(a: byte, b: byte, k: nat)
    requires k < 8
    ensures Bit(Xor(a, b), k) <==> Bit(a, k) != Bit(b, k)
  {
    XorBitsBit(a, b, 8, k);
  }
}
