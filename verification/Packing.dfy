/** The packer that the unpacker has to undo, and the widths and indices for which the readers are right. */
module Packing {
  import opened Bits
  import opened Unpack

  /** Bit `j` of the stream that packs `values` at `width` bits each, padded with zeros. */
  function PackedBit(values: seq<nat>, width: nat, j: nat): (b: Bit) {
    if values == [] then 0
    else if j < width then High(values[0], width - 1 - j) % 2
    else PackedBit(values[1..], width, j - width)
  }

  function Nibble(b0: Bit, b1: Bit, b2: Bit, b3: Bit): (x: nat)
    ensures x < 16
    ensures NibbleBit(x, 0) == b0 && NibbleBit(x, 1) == b1 && NibbleBit(x, 2) == b2 && NibbleBit(x, 3) == b3
  {
    8 * b0 + 4 * b1 + 2 * b2 + b3
  }

  function PackedNibble(values: seq<nat>, width: nat, j: nat): (x: nat)
    ensures x < 16
    ensures forall i: nat :: i < 4 ==> NibbleBit(x, i) == PackedBit(values, width, j + i)
  {
    Nibble(PackedBit(values, width, j), PackedBit(values, width, j + 1),
           PackedBit(values, width, j + 2), PackedBit(values, width, j + 3))
  }

  function PackedOctet(values: seq<nat>, width: nat, k: nat): (b: Byte)
    ensures b / 16 == PackedNibble(values, width, 8 * k) && b % 16 == PackedNibble(values, width, 8 * k + 4)
  {
    16 * PackedNibble(values, width, 8 * k) + PackedNibble(values, width, 8 * k + 4)
  }

  /** FM 92 GRIB edition 1, Section 4: values packed one after the other, most significant bit first. */
  function Pack(values: seq<nat>, width: nat): (bytes: seq<Byte>)
    ensures |bytes| == OctetsFor(Times(|values|, width))
  {
    seq(OctetsFor(Times(|values|, width)), k requires 0 <= k => PackedOctet(values, width, k))
  }

  lemma OctetSpells(values: seq<nat>, width: nat, k: nat, i: nat)
    requires i < 8
    ensures OctetBit(PackedOctet(values, width, k), i) == PackedBit(values, width, 8 * k + i)
  {
    if i < 4 {
      assert NibbleBit(PackedNibble(values, width, 8 * k), i) == PackedBit(values, width, 8 * k + i);
    } else {
      assert NibbleBit(PackedNibble(values, width, 8 * k + 4), i - 4) == PackedBit(values, width, 8 * k + 4 + (i - 4));
    }
  }

  lemma PackSpells(values: seq<nat>, width: nat, j: nat)
    requires j < 8 * |Pack(values, width)|
    ensures StreamOf(Pack(values, width))(j) == PackedBit(values, width, j)
  {
    var k, i := j / 8, j % 8;
    assert j == 8 * k + i;
    StreamAt(Pack(values, width), k, i);
    OctetSpells(values, width, k, i);
  }

  lemma {:induction false} PackedBitAt(values: seq<nat>, width: nat, i: nat, k: nat)
    requires i < |values| && k < width
    ensures PackedBit(values, width, Times(i, width) + k) == High(values[i], width - 1 - k) % 2
  {
    if i > 0 {
      PackedBitAt(values[1..], width, i - 1, k);
    }
  }

  lemma {:induction false} HighNext(x: nat, n: nat)
    ensures High(x, n) == 2 * High(x, n + 1) + High(x, n) % 2
  {
    if n > 0 {
      HighNext(x / 2, n - 1);
    }
  }

  lemma {:induction false} HighOfSmall(x: nat, n: nat)
    requires x < Pow2(n)
    ensures High(x, n) == 0
  {
    if n > 0 {
      HighOfSmall(x / 2, n - 1);
    }
  }

  lemma {:induction false} PackedPrefix(values: seq<nat>, width: nat, i: nat, n: nat)
    requires i < |values| && n <= width && values[i] < Pow2(width)
    ensures Field(StreamOf(Pack(values, width)), Times(i, width), n) == High(values[i], width - n)
  {
    if n == 0 {
      HighOfSmall(values[i], width);
    } else {
      PackedPrefix(values, width, i, n - 1);
      HighNext(values[i], width - n);
      PackedBitAt(values, width, i, n - 1);
      TimesMonotone(i, |values|, width);
      PackSpells(values, width, Times(i, width) + n - 1);
    }
  }

  /** Cutting the packed octets into slices gives the values back, for every width and every number of values. */
  lemma PackThenSlice(values: seq<nat>, width: nat, i: nat)
    requires i < |values| && values[i] < Pow2(width)
    ensures Slice(Pack(values, width), 0, i, width) == values[i]
  {
    PackedPrefix(values, width, i, width);
  }

  /** The `i`-th value lies within the octets. */
  predicate Fits(bytes: seq<Byte>, start: nat, i: nat, width: nat) {
    8 * start + Times(i, width) + width <= 8 * |bytes|
  }

  /** A 32-bit accumulator never loses a bit of these widths. */
  predicate SafeWidth(width: nat) {
    width <= 26 || width == 28
  }

  lemma LeftoverOf(used: nat, q: nat, r: nat)
    requires used == 8 * q + r && r < 8
    ensures Leftover(used) == if r == 0 then 0 else 8 - r
  {
    assert used % 8 == r;
  }

  lemma EvenLeftover(k: nat)
    ensures Leftover(2 * k) <= 6
  {
    LeftoverOf(2 * k, k / 4, 2 * (k % 4));
  }

  lemma FourfoldLeftover(k: nat)
    ensures Leftover(4 * k) <= 4
  {
    LeftoverOf(4 * k, k / 2, 4 * (k % 2));
  }

  /** An even width leaves an even rest, and a multiple of four a multiple of four. */
  lemma NothingLost(width: nat, i: nat)
    requires SafeWidth(width)
    ensures Lost(i, width) == 0
  {
    TimesIsProduct(i + 1, width);
    if width == 26 {
      EvenLeftover(13 * (i + 1));
    } else if width == 28 {
      FourfoldLeftover(7 * (i + 1));
    }
  }

  /** With the other widths the third value at the latest loses its top bit. */
  lemma SomethingLost(width: nat) returns (i: nat)
    requires width <= 30 && !SafeWidth(width)
    ensures Lost(i, width) > 0
  {
    if width == 27 {
      i := 2;
      assert Times(3, 27) == 81 && Leftover(81) == 7;
    } else {
      i := 1;
      assert Times(2, 29) == 58 && Leftover(58) == 6;
      assert Times(2, 30) == 60 && Leftover(60) == 4;
    }
  }

  lemma LostMatters(bits: Stream, from: nat, n: nat, lost: nat)
    requires 0 < lost <= n && Field(bits, from, n) == Pow2(n - 1)
    ensures Field(bits, from + lost, n - lost) != Field(bits, from, n)
  {
    FieldBound(bits, from + lost, n - lost);
    Pow2Monotone(n - lost, n - 1);
  }

  lemma UnpackedIsSlice(bytes: seq<Byte>, start: nat, i: nat, width: nat)
    requires SafeWidth(width)
    ensures Unpacked(bytes, start, i, width) == Slice(bytes, start, i, width)
  {
    NothingLost(width, i);
  }

  /** The streaming unpacker is right on every buffer exactly for the safe widths. */
  lemma StreamExactIff(width: nat)
    requires 1 <= width <= 30
    ensures SafeWidth(width)
       <==> forall bytes: seq<Byte>, start: nat, i: nat :: Fits(bytes, start, i, width) ==>
              Unpacked(bytes, start, i, width) == Slice(bytes, start, i, width)
  {
    if SafeWidth(width) {
      forall bytes: seq<Byte>, start: nat, i: nat | Fits(bytes, start, i, width)
        ensures Unpacked(bytes, start, i, width) == Slice(bytes, start, i, width)
      {
        UnpackedIsSlice(bytes, start, i, width);
      }
    } else {
      var i := SomethingLost(width);
      var values := seq(i + 1, _ => Pow2(width - 1));
      var bytes := Pack(values, width);
      PackThenSlice(values, width, i);
      LostMatters(StreamOf(bytes), Times(i, width), width, Lost(i, width));
      assert Fits(bytes, 0, i, width);
    }
  }

  /** The machine undoes the packer. */
  lemma PackThenUnpack(values: seq<nat>, width: nat, i: nat)
    requires SafeWidth(width) && i < |values| && values[i] < Pow2(width)
    ensures Unpacked(Pack(values, width), 0, i, width) == values[i]
  {
    PackThenSlice(values, width, i);
    UnpackedIsSlice(Pack(values, width), 0, i, width);
  }

  lemma {:induction false} FieldOfZeros(bits: Stream, from: nat, n: nat)
    requires forall j: nat :: from <= j < from + n ==> bits(j) == 0
    ensures Field(bits, from, n) == 0
  {
    if n > 0 {
      FieldOfZeros(bits, from, n - 1);
    }
  }

  /** A buffer in which only one bit is set. */
  lemma OneBit(at: nat) returns (bytes: seq<Byte>)
    ensures at < 8 * |bytes|
    ensures forall j: nat :: j <= at ==> StreamOf(bytes)(j) == if j == at then 1 else 0
  {
    var values: seq<nat> := seq(at + 1, j => if j == at then 1 else 0);
    bytes := Pack(values, 1);
    TimesIsProduct(at + 1, 1);
    forall j: nat | j <= at
      ensures StreamOf(bytes)(j) == if j == at then 1 else 0
    {
      PackSpells(values, 1, j);
      PackedBitAt(values, 1, j, 0);
      TimesIsProduct(j, 1);
    }
  }

  lemma FieldEndsIn(bits: Stream, from: nat, n: nat)
    ensures n > 0 ==> Field(bits, from, n) % 2 == bits(from + n - 1)
  {
  }

  /** A buffer that holds two fields of which only the later one ends in a bit that is set. */
  lemma Distinguished(a: nat, b: nat, width: nat) returns (bytes: seq<Byte>)
    requires a != b && width > 0
    ensures a + width <= 8 * |bytes| && b + width <= 8 * |bytes|
    ensures Field(StreamOf(bytes), a, width) != Field(StreamOf(bytes), b, width)
  {
    var lower, upper := if a < b then a else b, if a < b then b else a;
    bytes := OneBit(upper + width - 1);
    FieldOfZeros(StreamOf(bytes), lower, width);
    FieldEndsIn(StreamOf(bytes), upper, width);
  }

  /** The single-value reader and the stream agree on the `n`-th value of the buffer, if it holds both. */
  ghost predicate Agree(bytes: seq<Byte>, width: nat, n: nat)
    requires n >= 1
  {
    Fits(bytes, 0, n - 1, width) && 16 * (n - 1) + width <= 8 * |bytes| ==>
      Slice(bytes, 0, n - 1, width) == Field(StreamOf(bytes), 16 * (n - 1), width)
  }

  /** The single-value reader finds the `n`-th value of the stream, on every buffer that holds both, exactly when
      it asks for the first one or the width is sixteen. */
  lemma RandomAccessExactIff(width: nat, n: nat)
    requires 1 <= width && n >= 1
    ensures (n == 1 || width == 16) <==> forall bytes: seq<Byte> :: Agree(bytes, width, n)
  {
    if n == 1 || width == 16 {
      SamePlace(width, n);
    } else {
      var bytes := SomewhereElse(width, n);
      assert !Agree(bytes, width, n);
    }
  }

  lemma SamePlace(width: nat, n: nat)
    requires n >= 1 && (n == 1 || width == 16)
    ensures forall bytes: seq<Byte> :: Agree(bytes, width, n)
  {
    TimesIsProduct(n - 1, width);
    assert Times(n - 1, width) == 16 * (n - 1);
  }

  lemma SomewhereElse(width: nat, n: nat) returns (bytes: seq<Byte>)
    requires 1 <= width != 16 && n > 1
    ensures !Agree(bytes, width, n)
  {
    TimesIsProduct(n - 1, width);
    Apart(width, n - 1);
    bytes := Distinguished(Times(n - 1, width), 16 * (n - 1), width);
  }

  lemma Apart(width: nat, k: nat)
    requires width != 16 && k > 0
    ensures k * width != 16 * k
  {
    assert k * (width - 16) != 0;
  }
}
