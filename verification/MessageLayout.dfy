/** Messages put together as FM 92 GRIB edition 1 lays them out, and taken apart again. */
module MessageLayout {
  import opened Bits
  import opened GribFile
  import opened Wrappers

  const LIMIT24 := 0x100_0000

  /** A length in three octets, the most significant first. */
  function Number24(n: nat): (r: seq<Byte>)
    requires n < LIMIT24
    ensures |r| == 3
  {
    [n / 65536, n / 256 % 256, n % 256]
  }

  /** What a message is made of. Section 1 has four octets between its length and its flags. */
  datatype Parts = Parts(edition: Byte, head: seq<Byte>, flags: Byte, rest: seq<Byte>, grid: Option<seq<Byte>>,
                         bitmap: Option<seq<Byte>>, data: seq<Byte>)

  /** A section begins with its length. */
  function Section(body: seq<Byte>): (s: seq<Byte>)
    requires |body| + 3 < LIMIT24
    ensures |s| == |body| + 3
  {
    Number24(|body| + 3) + body
  }

  function OptionalSection(body: Option<seq<Byte>>): (s: seq<Byte>)
    requires body.Some? ==> |body.value| + 3 < LIMIT24
  {
    if body.Some? then Section(body.value) else []
  }

  function Size(p: Parts): nat {
    8 + (3 + |p.head| + 1 + |p.rest|) + (if p.grid.Some? then |p.grid.value| + 3 else 0)
    + (if p.bitmap.Some? then |p.bitmap.value| + 3 else 0) + (|p.data| + 3) + 4
  }

  /** The first bit of the flags says whether section 2 is there, and the second whether section 3 is. */
  predicate Coherent(p: Parts) {
    && Size(p) < LIMIT24 && |p.head| == 4
    && (OctetBit(p.flags, 0) == 1 <==> p.grid.Some?)
    && (OctetBit(p.flags, 1) == 1 <==> p.bitmap.Some?)
  }

  function Section1(p: Parts): (s: seq<Byte>)
    requires Coherent(p)
    ensures |s| == |p.rest| + 8
  {
    Section(p.head + [p.flags] + p.rest)
  }

  /** Sections 0 to 4, and the trailer. */
  function Pieces(p: Parts): (pieces: seq<seq<Byte>>)
    requires Coherent(p)
    ensures |pieces| == 6
  {
    [ [0x47, 0x52, 0x49, 0x42] + Number24(Size(p)) + [p.edition],
      Section1(p),
      OptionalSection(p.grid),
      OptionalSection(p.bitmap),
      Section(p.data),
      [0x37, 0x37, 0x37, 0x37] ]
  }

  /** The octets of the message. */
  function Encoded(p: Parts): (m: seq<Byte>)
    requires Coherent(p)
  {
    Concat(Pieces(p))
  }

  /** Where a piece begins. */
  function Begins(p: Parts, k: nat): nat
    requires Coherent(p) && k <= 6
  {
    |Concat(Pieces(p)[..k])|
  }

  /** `piece` stands in the file at `at`. */
  ghost predicate HasAt(file: seq<Byte>, at: nat, piece: seq<Byte>) {
    at + |piece| <= |file| && file[at..at + |piece|] == piece
  }

  lemma HasInside(before: seq<Byte>, piece: seq<Byte>, after: seq<Byte>)
    ensures HasAt(before + piece + after, |before|, piece)
  {
  }

  lemma PieceIsThere(p: Parts, k: nat)
    requires Coherent(p) && k < 6
    ensures Begins(p, k + 1) == Begins(p, k) + |Pieces(p)[k]| && HasAt(Encoded(p), Begins(p, k), Pieces(p)[k])
  {
    var pieces: seq<seq<Byte>> := Pieces(p);
    var upTo: seq<seq<Byte>> := pieces[..k + 1];
    ConcatSplit(pieces, k);
    ConcatSplit(upTo, k);
    assert upTo[..k] == pieces[..k];
    assert |upTo[k + 1..]| == 0;
    HasInside(Concat(pieces[..k]), pieces[k], Concat(pieces[k + 1..]));
  }

  lemma NumberIsRead(file: seq<Byte>, at: nat, n: nat)
    requires n < LIMIT24 && HasAt(file, at, Number24(n))
    ensures Length24(file, at) == n
  {
    var r := file[at..at + 3];
    assert file[at] == r[0] && file[at + 1] == r[1] && file[at + 2] == r[2];
    Digits(n);
  }

  lemma Digits(n: nat)
    ensures 65536 * (n / 65536) + 256 * (n / 256 % 256) + n % 256 == n
  {
    assert n / 256 == 256 * (n / 65536) + n / 256 % 256;
  }

  lemma SectionIsRead(file: seq<Byte>, at: nat, body: seq<Byte>)
    requires |body| + 3 < LIMIT24 && HasAt(file, at, Section(body))
    ensures Length24(file, at) == |body| + 3
  {
    assert file[at..at + 3] == file[at..at + |body| + 3][..3];
    NumberIsRead(file, at, |body| + 3);
  }

  lemma FlagsAreRead(b: Byte)
    ensures OctetBit(b, 0) == b / 128 % 2 && OctetBit(b, 1) == b / 64 % 2
  {
  }

  lemma PlacesOf(p: Parts)
    requires Coherent(p)
    ensures Begins(p, 0) == 0 && Begins(p, 1) == 8 && Begins(p, 6) == |Encoded(p)| == Size(p)
  {
    PieceIsThere(p, 0);
    PieceIsThere(p, 1);
    PieceIsThere(p, 2);
    PieceIsThere(p, 3);
    PieceIsThere(p, 4);
    PieceIsThere(p, 5);
    assert Pieces(p)[..6] == Pieces(p) && |Pieces(p)[..0]| == 0;
  }

  lemma HeaderIsRead(p: Parts)
    requires Coherent(p)
    ensures MessageLength(Encoded(p), 0) == |Encoded(p)|
    ensures Length24(Encoded(p), 8) == |Pieces(p)[1]|
  {
    var m := Encoded(p);
    PlacesOf(p);
    PieceIsThere(p, 0);
    PieceIsThere(p, 1);
    assert m[4..7] == m[0..8][4..7] == Number24(Size(p));
    NumberIsRead(m, 4, Size(p));
    SectionIsRead(m, 8, p.head + [p.flags] + p.rest);
  }

  /** The flags say which sections there are. */
  lemma FlagsAreFound(p: Parts)
    requires Coherent(p)
    ensures HasGrid(Encoded(p), 0) == p.grid.Some? && HasBitmap(Encoded(p), 0) == p.bitmap.Some?
  {
    var m, section := Encoded(p), Pieces(p)[1];
    PlacesOf(p);
    PieceIsThere(p, 1);
    assert m[15] == m[8..8 + |section|][7] == section[7];
    FlagsAreRead(p.flags);
  }

  /** Section 2, or none, is as long as what was put there, and the same for sections 3 and 4. */
  lemma LengthsAreFound(p: Parts)
    requires Coherent(p)
    ensures p.grid.Some? ==> Length24(Encoded(p), Begins(p, 2)) == |Pieces(p)[2]|
    ensures p.bitmap.Some? ==> Length24(Encoded(p), Begins(p, 3)) == |Pieces(p)[3]|
    ensures Length24(Encoded(p), Begins(p, 4)) == |Pieces(p)[4]|
  {
    var m := Encoded(p);
    PieceIsThere(p, 2);
    PieceIsThere(p, 3);
    PieceIsThere(p, 4);
    if p.grid.Some? {
      SectionIsRead(m, Begins(p, 2), p.grid.value);
    }
    if p.bitmap.Some? {
      SectionIsRead(m, Begins(p, 3), p.bitmap.value);
    }
    SectionIsRead(m, Begins(p, 4), p.data);
  }

  /** The sections begin where they were put. */
  lemma StartsAreRead(p: Parts)
    requires Coherent(p)
    ensures var m := Encoded(p);
            && Start1(0) == Begins(p, 1) && Start2(m, 0) == Begins(p, 2) && Start3(m, 0) == Begins(p, 3)
            && Start4(m, 0) == Begins(p, 4) && Start5(m, 0) == Begins(p, 5)
  {
    PlacesOf(p);
    HeaderIsRead(p);
    FlagsAreFound(p);
    LengthsAreFound(p);
    PieceIsThere(p, 1);
    PieceIsThere(p, 2);
    PieceIsThere(p, 3);
    PieceIsThere(p, 4);
  }

  /** A message laid out by the standard passes the check of the lengths, and each of its sections and the trailer is
      found exactly where it was put, with the octets that were put there. */
  lemma LayoutIsRead(p: Parts, k: nat, b: nat)
    requires Coherent(p) && k < 6
    ensures IsMessage(Encoded(p))
    ensures InPart(Encoded(p), 0, k, b) <==> Begins(p, k) <= b < Begins(p, k + 1)
    ensures Begins(p, k + 1) == Begins(p, k) + |Pieces(p)[k]| && HasAt(Encoded(p), Begins(p, k), Pieces(p)[k])
  {
    PlacesOf(p);
    HeaderIsRead(p);
    StartsAreRead(p);
    PieceIsThere(p, 5);
    PieceIsThere(p, k);
  }

  /** The number that `n` octets spell, the most significant first. */
  function BigEndian(file: seq<Byte>, at: nat, n: nat): (v: nat)
    requires at + n <= |file|
  {
    if n == 0 then 0 else 256 * BigEndian(file, at, n - 1) + file[at + n - 1]
  }

  lemma {:induction false} BigEndianIsField(file: seq<Byte>, at: nat, n: nat)
    requires at + n <= |file|
    ensures BigEndian(file, at, n) == Field(StreamOf(file), 8 * at, 8 * n)
  {
    if n > 0 {
      BigEndianIsField(file, at, n - 1);
      FieldAppend(file, at + n - 1, 8 * (n - 1));
      assert 8 * (at + n - 1) - 8 * (n - 1) == 8 * at && 8 * (n - 1) + 8 == 8 * n;
    }
  }

  lemma LengthIsBigEndian(file: seq<Byte>, at: nat)
    requires at + 3 <= |file|
    ensures Length24(file, at) == BigEndian(file, at, 3)
  {
    var a: nat, b: nat := file[at], file[at + 1];
    assert BigEndian(file, at, 1) == a;
    assert BigEndian(file, at, 2) == 256 * a + b;
  }

  /** A length inside the file is the 24 bits there, the most significant first. */
  lemma LengthIsField(file: seq<Byte>, at: nat)
    requires at + 3 <= |file|
    ensures Length24(file, at) == Field(StreamOf(file), 8 * at, 24)
  {
    LengthIsBigEndian(file, at);
    BigEndianIsField(file, at, 3);
  }
}
