/** Octet strings read as streams of bits, most significant bit first. */
module Bits {

  type Byte = b: int | 0 <= b < 256

  type Bit = b: int | 0 <= b < 2

  type Stream = nat -> Bit

  function Min(a: int, b: int): int {
    if a < b then a else b
  }

  function Pow2(n: nat): (p: nat)
    ensures p > 0
  {
    if n == 0 then 1 else 2 * Pow2(n - 1)
  }

  /** The low `n` bits of a number: masking with `(1 << n) - 1`. */
  function Low(x: nat, n: nat): (r: nat) {
    if n == 0 then 0 else 2 * Low(x / 2, n - 1) + x % 2
  }

  /** A right shift by `n`. */
  function High(x: nat, n: nat): (r: nat) {
    if n == 0 then x else High(x / 2, n - 1)
  }

  /** Bit `k` of an octet; bit 0 is the top one. */
  function OctetBit(b: Byte, k: nat): (bit: Bit)
    requires k < 8
  {
    if k < 4 then NibbleBit(b / 16, k) else NibbleBit(b % 16, k - 4)
  }

  function NibbleBit(x: nat, k: nat): (bit: Bit)
    requires x < 16 && k < 4
  {
    if k == 0 then x / 8 else if k == 1 then x / 4 % 2 else if k == 2 then x / 2 % 2 else x % 2
  }

  /** `bits` spells out the octets, eight bits each. */
  ghost predicate Spells(bits: Stream, bytes: seq<Byte>) {
    forall k: nat, i: nat :: k < |bytes| && i < 8 ==> OctetBit(bytes[k], i) == bits(8 * k + i)
  }

  /** The bits of an octet string; what follows its last octet is left open. */
  ghost function StreamOf(bytes: seq<Byte>): (bits: Stream)
    ensures Spells(bits, bytes)
  {
    SpellingExists(bytes);
    var bits: Stream :| Spells(bits, bytes);
    bits
  }

  lemma StreamAt(bytes: seq<Byte>, k: nat, i: nat)
    ensures k < |bytes| && i < 8 ==> StreamOf(bytes)(8 * k + i) == OctetBit(bytes[k], i)
  {
  }

  lemma SpellingExists(bytes: seq<Byte>)
    ensures exists bits: Stream :: Spells(bits, bytes)
  {
    var bits: Stream := (j: nat) => if j / 8 < |bytes| then OctetBit(bytes[j / 8], j % 8) else 0;
    assert Spells(bits, bytes);
  }

  /** The `n` bits that start at bit `from`, read as a big-endian number. */
  function Field(bits: Stream, from: nat, n: nat): (v: nat) {
    if n == 0 then 0 else 2 * Field(bits, from, n - 1) + bits(from + n - 1)
  }

  lemma {:induction false} FieldBound(bits: Stream, from: nat, n: nat)
    ensures Field(bits, from, n) < Pow2(n)
  {
    if n > 0 {
      FieldBound(bits, from, n - 1);
    }
  }

  /** A field splits into its first and its last bits. */
  lemma {:induction false} FieldSplit(bits: Stream, from: nat, a: nat, b: nat)
    ensures Field(bits, from, a + b) == Field(bits, from, a) * Pow2(b) + Field(bits, from + a, b)
  {
    if b > 0 {
      FieldSplit(bits, from, a, b - 1);
      Doubled(Field(bits, from, a), Pow2(b - 1));
    }
  }

  lemma Doubled(x: int, p: int)
    ensures x * (2 * p) == 2 * (x * p)
  {
  }

  /** Masking a field keeps its last bits. */
  lemma {:induction false} FieldLow(bits: Stream, from: nat, n: nat, k: nat)
    requires k <= n
    ensures Low(Field(bits, from, n), k) == Field(bits, from + n - k, k)
  {
    if k > 0 {
      FieldLow(bits, from, n - 1, k - 1);
    }
  }

  /** Shifting a field right keeps its first bits. */
  lemma {:induction false} FieldHigh(bits: Stream, from: nat, n: nat, k: nat)
    requires k <= n
    ensures High(Field(bits, from, n), k) == Field(bits, from, n - k)
  {
    if k > 0 {
      FieldHigh(bits, from, n - 1, k - 1);
    }
  }

  /** A mask at least as wide as the field changes nothing. */
  lemma {:induction false} FieldMasked(bits: Stream, from: nat, n: nat, k: nat)
    requires n <= k
    ensures Low(Field(bits, from, n), k) == Field(bits, from, n)
  {
    if n > 0 {
      FieldMasked(bits, from, n - 1, k - 1);
    } else {
      LowOfZero(k);
    }
  }

  lemma {:induction false} LowOfZero(k: nat)
    ensures Low(0, k) == 0
  {
    if k > 0 {
      LowOfZero(k - 1);
    }
  }

  /** Eight bits appended to a field. */
  lemma FieldPlusEight(bits: Stream, from: nat, k: nat, b: Byte)
    requires forall i: nat :: i < 8 ==> OctetBit(b, i) == bits(from + k + i)
    ensures Field(bits, from, k + 8) == Field(bits, from, k) * 256 + b
  {
    FieldPlusFour(bits, from, k, OctetBit(b, 0), OctetBit(b, 1), OctetBit(b, 2), OctetBit(b, 3));
    FieldPlusFour(bits, from, k + 4, OctetBit(b, 4), OctetBit(b, 5), OctetBit(b, 6), OctetBit(b, 7));
    OctetBits(b);
  }

  lemma FieldPlusFour(bits: Stream, from: nat, k: nat, b0: Bit, b1: Bit, b2: Bit, b3: Bit)
    requires bits(from + k) == b0 && bits(from + k + 1) == b1 && bits(from + k + 2) == b2 && bits(from + k + 3) == b3
    ensures Field(bits, from, k + 4) == Field(bits, from, k) * 16 + 8 * b0 + 4 * b1 + 2 * b2 + b3
  {
    assert Field(bits, from, k + 2) == 4 * Field(bits, from, k) + 2 * b0 + b1;
  }

  lemma OctetBits(b: Byte)
    ensures b == 128 * OctetBit(b, 0) + 64 * OctetBit(b, 1) + 32 * OctetBit(b, 2) + 16 * OctetBit(b, 3)
               + 8 * OctetBit(b, 4) + 4 * OctetBit(b, 5) + 2 * OctetBit(b, 6) + OctetBit(b, 7)
  {
    NibbleBits(b / 16);
    NibbleBits(b % 16);
  }

  lemma NibbleBits(x: nat)
    ensures x < 16 ==> x == 8 * NibbleBit(x, 0) + 4 * NibbleBit(x, 1) + 2 * NibbleBit(x, 2) + NibbleBit(x, 3)
  {
  }

  lemma FieldAppend(bytes: seq<Byte>, pos: nat, k: nat)
    requires pos < |bytes| && k <= 8 * pos
    ensures Field(StreamOf(bytes), 8 * pos - k, k + 8) == Field(StreamOf(bytes), 8 * pos - k, k) * 256 + bytes[pos]
  {
    var bits := StreamOf(bytes);
    forall i: nat | i < 8
      ensures OctetBit(bytes[pos], i) == bits(8 * pos - k + k + i)
    {
      assert 8 * pos - k + k + i == 8 * pos + i;
      StreamAt(bytes, pos, i);
    }
    FieldPlusEight(bits, 8 * pos - k, k, bytes[pos]);
  }

  lemma WordSize()
    ensures Pow2(32) == 0x1_0000_0000
  {
    assert Pow2(8) == 256;
    assert Pow2(16) == 256 * 256;
    assert Pow2(24) == 256 * 65536;
  }

  /** `i * width`, as the sum that a loop over `i` values builds up. */
  function Times(i: nat, width: nat): (t: nat) {
    if i == 0 then 0 else Times(i - 1, width) + width
  }

  lemma {:induction false} TimesIsProduct(i: nat, width: nat)
    ensures Times(i, width) == i * width
  {
    if i > 0 {
      TimesIsProduct(i - 1, width);
    }
  }

  lemma {:induction false} TimesMonotone(i: nat, count: nat, width: nat)
    requires i < count
    ensures Times(i, width) + width <= Times(count, width)
    decreases count
  {
    if i < count - 1 {
      TimesMonotone(i, count - 1, width);
    }
  }
}
