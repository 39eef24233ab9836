/** The data octets of a GRIB1 message: the streaming unpacker and the random-access reader. */
module Unpack {
  import opened Bits

  const WORD := 32

  /** Bits left over in the last octet read once `used` bits have been consumed. */
  function Leftover(used: nat): (t: nat)
    ensures t < 8 && (used + t) % 8 == 0
  {
    (8 - used % 8) % 8
  }

  /** Octets that hold the first `used` bits. */
  function OctetsFor(used: nat): (k: nat)
    ensures 8 * k == used + Leftover(used)
  {
    (used + 7) / 8
  }

  lemma LeftoverIs(used: nat, t: nat)
    ensures t < 8 && (used + t) % 8 == 0 ==> t == Leftover(used)
  {
  }

  /** The `i`-th value of the packed stream, as FM 92 GRIB edition 1, Section 4, defines it. */
  ghost function Slice(bytes: seq<Byte>, start: nat, i: nat, width: nat): (v: nat) {
    Field(StreamOf(bytes), 8 * start + Times(i, width), width)
  }

  /** The top bits of the `i`-th value that have left a 32-bit accumulator when the value is taken from it. */
  function Lost(i: nat, width: nat): (n: nat) {
    var excess := width + Leftover(Times(i + 1, width)) - WORD;
    if 0 < excess then Min(excess, width) else 0
  }

  /** What the accumulator yields for the `i`-th value. */
  ghost function Unpacked(bytes: seq<Byte>, start: nat, i: nat, width: nat): (v: nat) {
    Field(StreamOf(bytes), 8 * start + Times(i, width) + Lost(i, width), width - Lost(i, width))
  }

  /** The accumulator holds the bits read since octet `start`, or the last 32 of them. */
  ghost predicate Holds(bytes: seq<Byte>, start: nat, pos: nat, tbits: nat) {
    start <= pos <= |bytes| &&
    var c := Min(WORD, 8 * (pos - start));
    tbits == Field(StreamOf(bytes), 8 * pos - c, c)
  }

  /** Shifting one octet into the accumulator, with the wrap-around of `unsigned int`. */
  function Shift8(tbits: nat, b: Byte): (r: nat) {
    (tbits * 256 + b) % 0x1_0000_0000
  }

  lemma WordRemainder(high: nat, low: nat)
    ensures low < 0x1_0000_0000 ==> (high * 0x1_0000_0000 + low) % 0x1_0000_0000 == low
  {
  }

  lemma ShiftPartial(bits: Stream, from: nat, c: nat)
    requires c + 8 <= WORD
    ensures Field(bits, from, c + 8) % 0x1_0000_0000 == Field(bits, from, c + 8)
  {
    FieldBound(bits, from, c + 8);
    Pow2Monotone(c + 8, WORD);
    WordSize();
  }

  lemma ShiftFull(bits: Stream, from: nat)
    ensures Field(bits, from, WORD + 8) % 0x1_0000_0000 == Field(bits, from + 8, WORD)
  {
    FieldSplit(bits, from, 8, WORD);
    FieldBound(bits, from + 8, WORD);
    WordSize();
    WordRemainder(Field(bits, from, 8), Field(bits, from + 8, WORD));
  }

  lemma ShiftHolds(bytes: seq<Byte>, start: nat, pos: nat, tbits: nat)
    requires pos < |bytes| && Holds(bytes, start, pos, tbits)
    ensures Holds(bytes, start, pos + 1, Shift8(tbits, bytes[pos]))
  {
    if pos < start + 4 {
      ShiftFirst(bytes, start, pos);
    } else {
      ShiftLater(bytes, pos);
    }
  }

  /** The first four octets fit the word. */
  lemma ShiftFirst(bytes: seq<Byte>, start: nat, pos: nat)
    requires start <= pos < |bytes| && pos < start + 4
    ensures Shift8(Field(StreamOf(bytes), 8 * start, 8 * (pos - start)), bytes[pos])
         == Field(StreamOf(bytes), 8 * start, 8 * (pos - start) + 8)
  {
    FieldAppend(bytes, pos, 8 * (pos - start));
    ShiftPartial(StreamOf(bytes), 8 * start, 8 * (pos - start));
  }

  /** Every later one pushes the oldest out. */
  lemma ShiftLater(bytes: seq<Byte>, pos: nat)
    requires 4 <= pos < |bytes|
    ensures Shift8(Field(StreamOf(bytes), 8 * pos - WORD, WORD), bytes[pos])
         == Field(StreamOf(bytes), 8 * pos + 8 - WORD, WORD)
  {
    FieldAppend(bytes, pos, WORD);
    ShiftFull(StreamOf(bytes), 8 * pos - WORD);
  }

  lemma {:induction false} Pow2Monotone(a: nat, b: nat)
    requires a <= b
    ensures Pow2(a) <= Pow2(b)
    decreases b
  {
    if a < b {
      Pow2Monotone(a, b - 1);
    }
  }

  /** Reading two octets at once is reading them one after the other. */
  lemma Shift16(tbits: nat, b0: Byte, b1: Byte)
    ensures (tbits * 65536 + b0 * 256 + b1) % 0x1_0000_0000 == Shift8(Shift8(tbits, b0), b1)
  {
    var once := tbits * 256 + b0;
    var q, r := once / 0x1_0000_0000, once % 0x1_0000_0000;
    WordShift(q * 256, r * 256 + b1);
    assert tbits * 65536 + b0 * 256 + b1 == once * 256 + b1;
  }

  lemma WordShift(q: nat, x: nat)
    ensures (q * 0x1_0000_0000 + x) % 0x1_0000_0000 == x % 0x1_0000_0000
  {
  }

  /** Shifting and masking take the value out, except for the bits that have left the word. */
  lemma TakeValue(bytes: seq<Byte>, start: nat, pos: nat, tbits: nat, rest: nat, width: nat)
    requires Holds(bytes, start, pos, tbits) && width + rest <= 8 * (pos - start) && rest < 8 && width <= WORD
    ensures var m := Min(width, WORD - rest);
            Low(High(tbits, rest), width) == Field(StreamOf(bytes), 8 * pos - rest - m, m)
  {
    var bits, c := StreamOf(bytes), Min(WORD, 8 * (pos - start));
    FieldHigh(bits, 8 * pos - c, c, rest);
    Masked(bits, 8 * pos - c, c - rest, width);
    assert Min(width, c - rest) == Min(width, WORD - rest);
  }

  lemma Masked(bits: Stream, from: nat, c: nat, width: nat)
    ensures Low(Field(bits, from, c), width) == Field(bits, from + c - Min(width, c), Min(width, c))
  {
    if width <= c {
      FieldLow(bits, from, c, width);
    } else {
      FieldMasked(bits, from, c, width);
    }
  }

  lemma ValueTaken(bytes: seq<Byte>, start: nat, i: nat, width: nat, pos: nat, tbits: nat, rest: nat)
    requires Holds(bytes, start, pos, tbits) && rest < 8 && 1 <= width <= WORD
    requires 8 * pos == 8 * start + Times(i + 1, width) + rest
    ensures Low(High(tbits, rest), width) == Unpacked(bytes, start, i, width)
  {
    LeftoverIs(Times(i + 1, width), rest);
    TakeValue(bytes, start, pos, tbits, rest, width);
  }

  /** The refill that both readers share: two octets at once if more than eight bits are missing, then one
      octet at a time. */
  method Refill(bytes: seq<Byte>, ghost start: nat, pos0: nat, tbits0: nat, tBits0: nat, width: nat)
    returns (pos: nat, tbits: nat, tBits: nat)
    requires Holds(bytes, start, pos0, tbits0) && tBits0 < 8
    requires 8 * pos0 - tBits0 + width <= 8 * |bytes|
    ensures Holds(bytes, start, pos, tbits)
    ensures 8 * pos - tBits == 8 * pos0 - tBits0 && width <= tBits < width + 8
  {
    pos, tbits, tBits := pos0, tbits0, tBits0;
    if width - tBits > 8 {
      ShiftHolds(bytes, start, pos, tbits);
      ShiftHolds(bytes, start, pos + 1, Shift8(tbits, bytes[pos]));
      Shift16(tbits, bytes[pos], bytes[pos + 1]);
      var b0: int, b1: int := bytes[pos], bytes[pos + 1];
      tbits := (tbits * 65536 + b0 * 256 + b1) % 0x1_0000_0000;
      pos, tBits := pos + 2, tBits + 16;
    }
    while tBits < width
      invariant 8 * pos - tBits == 8 * pos0 - tBits0 && tBits < width + 8
      invariant Holds(bytes, start, pos, tbits)
    {
      ShiftHolds(bytes, start, pos, tbits);
      tbits := Shift8(tbits, bytes[pos]);
      pos, tBits := pos + 1, tBits + 8;
    }
  }

  /** `Message::extract_all` without a bitmap: the raw integers before they are scaled. `start` is the octet
      at which the data begin, and `used` counts the octets the read pointer has moved over. */
  method ExtractAll(bytes: seq<Byte>, start: nat, width: nat, count: nat) returns (result: array<nat>, used: nat)
    requires 1 <= width <= 30
    requires 8 * start + Times(count, width) <= 8 * |bytes|
    ensures result.Length == count && used == OctetsFor(Times(count, width))
    ensures forall i: nat :: i < count ==> result[i] == Unpacked(bytes, start, i, width)
  {
    var tBits: nat, tbits: nat, pos: nat, i: nat := 0, 0, start, 0;
    result := new nat[count];
    while i < count
      invariant i <= count
      invariant tBits < 8 && 8 * pos == 8 * start + Times(i, width) + tBits
      invariant Holds(bytes, start, pos, tbits)
      invariant forall j: nat :: j < i ==> result[j] == Unpacked(bytes, start, j, width)
    {
      TimesMonotone(i, count, width);
      pos, tbits, tBits := Refill(bytes, start, pos, tbits, tBits, width);
      tBits := tBits - width;
      ValueTaken(bytes, start, i, width, pos, tbits, tBits);
      result[i] := Low(High(tbits, tBits), width);
      i := i + 1;
    }
    used := pos - start;
    LeftoverIs(Times(count, width), tBits);
  }

  /** The first value read into an empty word fits it with the bits that are left over. */
  lemma FirstFits(octets: nat, width: nat, tBits: nat)
    ensures tBits == 8 * octets && width <= tBits < width + 8 && width <= 30 ==> octets <= 4 && tBits <= WORD
  {
  }

  /** `Message::extract_value` without a bitmap: the raw integer. The read pointer is moved by two octets a
      value whatever the width is. */
  method ExtractValue(bytes: seq<Byte>, start: nat, n: nat, width: nat) returns (raw: nat)
    requires n >= 1 && 1 <= width <= 30 && 8 * (start + 2 * (n - 1)) + width <= 8 * |bytes|
    ensures raw == Field(StreamOf(bytes), 8 * (start + 2 * (n - 1)), width)
  {
    var at := start + 2 * (n - 1);
    var pos, tbits, tBits := Refill(bytes, at, at, 0, 0, width);
    FirstFits(pos - at, width, tBits);
    TakeValue(bytes, at, pos, tbits, tBits - width, width);
    raw := Low(High(tbits, tBits - width), width);
  }
}
