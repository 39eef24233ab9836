/** GRIB1 messages laid out one after the other in a file, and the cursor that walks them. */
module GribFile {
  import opened Bits

  const SECTION0 := 8
  const TRAILER := 4

  /** An octet of the mapped file. What lies behind its end is read as zero. */
  function At(file: seq<Byte>, p: nat): Byte {
    if p < |file| then file[p] else 0
  }

  function Length24(file: seq<Byte>, p: nat): nat {
    65536 * At(file, p) + 256 * At(file, p + 1) + At(file, p + 2)
  }

  function MessageLength(file: seq<Byte>, p: nat): nat {
    Length24(file, p + 4)
  }

  function Start1(p: nat): nat {
    p + SECTION0
  }

  function HasGrid(file: seq<Byte>, p: nat): bool {
    At(file, Start1(p) + 7) / 128 % 2 == 1
  }

  function HasBitmap(file: seq<Byte>, p: nat): bool {
    At(file, Start1(p) + 7) / 64 % 2 == 1
  }

  function Start2(file: seq<Byte>, p: nat): nat {
    Start1(p) + Length24(file, Start1(p))
  }

  function Start3(file: seq<Byte>, p: nat): nat {
    Start2(file, p) + if HasGrid(file, p) then Length24(file, Start2(file, p)) else 0
  }

  function Start4(file: seq<Byte>, p: nat): nat {
    Start3(file, p) + if HasBitmap(file, p) then Length24(file, Start3(file, p)) else 0
  }

  function Start5(file: seq<Byte>, p: nat): nat {
    Start4(file, p) + Length24(file, Start4(file, p))
  }

  /** The check of the `Message` constructor: the sections and the trailer add up to the length in section 0. */
  predicate Consistent(file: seq<Byte>, p: nat) {
    SECTION0 + Length24(file, Start1(p)) + (Start3(file, p) - Start2(file, p)) + (Start4(file, p) - Start3(file, p))
      + Length24(file, Start4(file, p)) + TRAILER == MessageLength(file, p)
  }

  /** A chain of records: where it ends, how long the record at an offset is, and whether it is sound. */
  datatype Links = Links(end: nat, length: nat -> nat, sound: nat -> bool)

  predicate Chain(l: Links, p: nat)
    decreases l.end - p
  {
    p == l.end ||
    (p < l.end && l.sound(p) && l.length(p) > 0 && p + l.length(p) <= l.end && Chain(l, p + l.length(p)))
  }

  /** Where the records of a chain begin. */
  function Offsets(l: Links, p: nat): (ps: seq<nat>)
    requires Chain(l, p)
    decreases l.end - p
  {
    if p == l.end then [] else [p] + Offsets(l, p + l.length(p))
  }

  /** The offsets rise by the length of each record and stay in the file. */
  lemma {:induction false} OffsetsRise(l: Links, p: nat)
    requires Chain(l, p)
    ensures forall i: nat :: i < |Offsets(l, p)| ==> p <= Offsets(l, p)[i] < l.end && l.sound(Offsets(l, p)[i])
    ensures forall i: nat, j: nat :: i < j < |Offsets(l, p)| ==>
              Offsets(l, p)[i] + l.length(Offsets(l, p)[i]) <= Offsets(l, p)[j]
    decreases l.end - p
  {
    if p != l.end {
      OffsetsRise(l, p + l.length(p));
    }
  }

  ghost predicate Covers(l: Links, from: nat, p: nat, b: nat)
    requires Chain(l, from)
  {
    p in Offsets(l, from) && p <= b < p + l.length(p)
  }

  lemma {:induction false} CoverExists(l: Links, from: nat, b: nat) returns (p: nat)
    requires Chain(l, from) && from <= b < l.end
    ensures Covers(l, from, p, b)
    decreases l.end - from
  {
    if b < from + l.length(from) {
      p := from;
    } else {
      p := CoverExists(l, from + l.length(from), b);
    }
  }

  lemma CoverIsUnique(l: Links, from: nat, p: nat, p': nat, b: nat)
    requires Chain(l, from) && Covers(l, from, p, b) && Covers(l, from, p', b)
    ensures p == p'
  {
    OffsetsRise(l, from);
    var i: nat :| i < |Offsets(l, from)| && Offsets(l, from)[i] == p;
    var j: nat :| j < |Offsets(l, from)| && Offsets(l, from)[j] == p';
    assert !(i < j) && !(j < i);
  }

  /** `l` links the messages of a file by the lengths in their indicator sections. */
  ghost predicate LinksMessages(l: Links, file: seq<Byte>) {
    && l.end == |file|
    && (forall p: nat {:trigger MessageLength(file, p)} :: l.length(p) == MessageLength(file, p))
    && (forall p: nat {:trigger Consistent(file, p)} :: l.sound(p) == Consistent(file, p))
  }

  ghost function Messages(file: seq<Byte>): (l: Links)
    ensures LinksMessages(l, file)
  {
    LinksExist(file);
    var l: Links :| LinksMessages(l, file);
    l
  }

  lemma LinksExist(file: seq<Byte>)
    ensures exists l: Links :: LinksMessages(l, file)
  {
    var l := Links(|file|, (p: nat) => MessageLength(file, p), (p: nat) => Consistent(file, p));
    assert LinksMessages(l, file);
  }

  ghost predicate WellFormed(file: seq<Byte>) {
    file != [] && Chain(Messages(file), 0)
  }

  /** Following the lengths from `p` on, sound or not, leads to the end or past it. */
  predicate Ends(l: Links, p: nat)
    decreases l.end - p
  {
    p < l.end && l.length(p) > 0 && (p + l.length(p) < l.end ==> Ends(l, p + l.length(p)))
  }

  /** The offsets on the way. */
  function Visited(l: Links, p: nat): (ps: seq<nat>)
    requires Ends(l, p)
    decreases l.end - p
  {
    [p] + if p + l.length(p) < l.end then Visited(l, p + l.length(p)) else []
  }

  lemma {:induction false} VisitedRise(l: Links, p: nat)
    requires Ends(l, p)
    ensures forall i: nat :: i < |Visited(l, p)| ==> p <= Visited(l, p)[i] < l.end
    ensures forall i: nat, j: nat :: i < j < |Visited(l, p)| ==>
              Visited(l, p)[i] < Visited(l, p)[i] + l.length(Visited(l, p)[i]) <= Visited(l, p)[j]
    decreases l.end - p
  {
    if p + l.length(p) < l.end {
      VisitedRise(l, p + l.length(p));
    }
  }

  /** On a chain these are the offsets of its records. */
  lemma {:induction false} ChainIsVisited(l: Links, p: nat)
    requires Chain(l, p) && p < l.end
    ensures Ends(l, p) && Visited(l, p) == Offsets(l, p)
    decreases l.end - p
  {
    if p + l.length(p) < l.end {
      ChainIsVisited(l, p + l.length(p));
    }
  }

  /** The walk over the messages of a file ends: no length on the way is zero. */
  ghost predicate Walkable(file: seq<Byte>) {
    Ends(Messages(file), 0)
  }

  lemma WellFormedIsWalkable(file: seq<Byte>)
    requires WellFormed(file)
    ensures Walkable(file) && Visited(Messages(file), 0) == Offsets(Messages(file), 0)
  {
    ChainIsVisited(Messages(file), 0);
  }

  /** Part `k` of the message at `p`: sections 0 to 4, and the trailer as part 5. */
  ghost predicate InPart(file: seq<Byte>, p: nat, k: nat, b: nat) {
    match k
    case 0 => p <= b < Start1(p)
    case 1 => Start1(p) <= b < Start2(file, p)
    case 2 => Start2(file, p) <= b < Start3(file, p)
    case 3 => Start3(file, p) <= b < Start4(file, p)
    case 4 => Start4(file, p) <= b < Start5(file, p)
    case 5 => Start5(file, p) <= b < Start5(file, p) + TRAILER
    case _ => false
  }

  /** The parts of a consistent message tile it. */
  lemma PartsTile(file: seq<Byte>, p: nat, b: nat)
    requires Consistent(file, p)
    ensures (exists k: nat :: InPart(file, p, k, b)) <==> p <= b < p + MessageLength(file, p)
    ensures forall k: nat, k': nat :: InPart(file, p, k, b) && InPart(file, p, k', b) ==> k == k'
  {
    if p <= b < p + MessageLength(file, p) {
      var k := if b < Start1(p) then 0 else if b < Start2(file, p) then 1 else if b < Start3(file, p) then 2
               else if b < Start4(file, p) then 3 else if b < Start5(file, p) then 4 else 5;
      assert InPart(file, p, k, b);
    }
  }

  /** Octet `b` lies in part `k` of the message at `p`. */
  ghost predicate Owns(file: seq<Byte>, p: nat, k: nat, b: nat)
    requires WellFormed(file)
  {
    p in Offsets(Messages(file), 0) && InPart(file, p, k, b)
  }

  lemma OwnerCovers(file: seq<Byte>, p: nat, k: nat, b: nat)
    requires WellFormed(file) && Owns(file, p, k, b)
    ensures Consistent(file, p) && Covers(Messages(file), 0, p, b)
  {
    OffsetIsMessage(file, p);
    PartsTile(file, p, b);
  }

  lemma OffsetIsMessage(file: seq<Byte>, p: nat)
    requires WellFormed(file) && p in Offsets(Messages(file), 0)
    ensures Consistent(file, p) && Messages(file).length(p) == MessageLength(file, p)
  {
    OffsetsRise(Messages(file), 0);
    assert Messages(file).sound(p) == Consistent(file, p);
    assert Messages(file).length(p) == MessageLength(file, p);
  }

  /** Every octet of a well-formed file lies in exactly one part of exactly one message. */
  lemma OctetsArePartitioned(file: seq<Byte>, b: nat)
    requires WellFormed(file) && b < |file|
    ensures exists p: nat, k: nat :: Owns(file, p, k, b)
    ensures forall p: nat, k: nat, p': nat, k': nat ::
              Owns(file, p, k, b) && Owns(file, p', k', b) ==> p == p' && k == k'
  {
    var p := CoverExists(Messages(file), 0, b);
    OwnedPart(file, p, b);
    forall p: nat, k: nat, p': nat, k': nat | Owns(file, p, k, b) && Owns(file, p', k', b)
      ensures p == p' && k == k'
    {
      OwnerCovers(file, p, k, b);
      OwnerCovers(file, p', k', b);
      CoverIsUnique(Messages(file), 0, p, p', b);
      PartsTile(file, p, b);
    }
  }

  lemma OwnedPart(file: seq<Byte>, p: nat, b: nat)
    requires WellFormed(file) && Covers(Messages(file), 0, p, b)
    ensures exists k: nat :: Owns(file, p, k, b)
  {
    OffsetIsMessage(file, p);
    PartsTile(file, p, b);
    var k: nat :| InPart(file, p, k, b);
    assert Owns(file, p, k, b);
  }

  /** A message on its own: its lengths add up. */
  predicate IsMessage(block: seq<Byte>) {
    Consistent(block, 0) && |block| == MessageLength(block, 0)
  }

  function Concat(blocks: seq<seq<Byte>>): (file: seq<Byte>) {
    if blocks == [] then [] else blocks[0] + Concat(blocks[1..])
  }

  /** A message that ends before its flags has nothing behind section 1 but the trailer, whatever the flags are taken
      to be. */
  lemma ShortMessage(block: seq<Byte>)
    requires IsMessage(block) && |block| <= Start1(0) + 7
    ensures Length24(block, Start2(block, 0)) == 0 && Start2(block, 0) + TRAILER == |block|
  {
    var n, next := Length24(block, Start1(0)), Length24(block, Start2(block, 0));
    assert At(block, 15) == 0;
    assert n + next <= 3;
    assert At(block, 8) == 0 && At(block, 9) == 0 && At(block, 10) == n;
    assert n == 1 ==> next >= 256;
    assert n == 2 ==> next >= 65536;
  }

  lemma SameSections(file: seq<Byte>, p: nat, block: seq<Byte>)
    requires IsMessage(block) && forall i: nat :: i < |block| ==> At(block, i) == At(file, p + i)
    ensures Consistent(file, p) && MessageLength(file, p) == |block|
  {
    SameLength(file, p, block, 4);
    SameLength(file, p, block, 8);
    assert Start2(file, p) == p + Start2(block, 0);
    if |block| <= Start1(0) + 7 {
      ShortMessage(block);
      SameLength(file, p, block, Start2(block, 0));
      return;
    }
    assert At(file, Start1(p) + 7) == At(block, Start1(0) + 7);
    if HasGrid(block, 0) {
      SameLength(file, p, block, Start2(block, 0));
    }
    if HasBitmap(block, 0) {
      SameLength(file, p, block, Start3(block, 0));
    }
    SameLength(file, p, block, Start4(block, 0));
  }

  lemma SameLength(file: seq<Byte>, p: nat, block: seq<Byte>, i: nat)
    requires i + 3 <= |block| && forall i: nat :: i < |block| ==> At(block, i) == At(file, p + i)
    ensures Length24(file, p + i) == Length24(block, i)
  {
    assert At(file, p + (i + 1)) == At(block, i + 1) && At(file, p + (i + 2)) == At(block, i + 2);
  }

  /** The chain finds the messages of a concatenation where they were put. */
  lemma {:induction false} ConcatIsChain(l: Links, p: nat, blocks: seq<seq<Byte>>)
    requires l.end == p + |Concat(blocks)|
    requires forall i: nat :: i < |blocks| ==>
               l.sound(p + |Concat(blocks[..i])|) && l.length(p + |Concat(blocks[..i])|) == |blocks[i]| > 0
    ensures Chain(l, p)
    ensures |Offsets(l, p)| == |blocks|
    ensures forall i: nat :: i < |blocks| ==> Offsets(l, p)[i] == p + |Concat(blocks[..i])|
    decreases |blocks|
  {
    if blocks != [] {
      var rest := blocks[1..];
      assert |Concat(blocks[..0])| == 0;
      forall i: nat | i < |rest|
        ensures |Concat(blocks[..i + 1])| == |blocks[0]| + |Concat(rest[..i])| && rest[i] == blocks[i + 1]
      {
        assert blocks[..i + 1][1..] == rest[..i];
      }
      ConcatIsChain(l, p + |blocks[0]|, rest);
    }
  }

  lemma {:induction false} ConcatSplit(blocks: seq<seq<Byte>>, i: nat)
    requires i < |blocks|
    ensures Concat(blocks) == Concat(blocks[..i]) + blocks[i] + Concat(blocks[i + 1..])
  {
    if i > 0 {
      ConcatSplit(blocks[1..], i - 1);
      assert blocks[..i][1..] == blocks[1..][..i - 1] && blocks[i + 1..] == blocks[1..][i..];
    }
  }

  lemma BlockIsFound(blocks: seq<seq<Byte>>, i: nat)
    ensures i < |blocks| && IsMessage(blocks[i]) ==>
              var l, p := Messages(Concat(blocks)), |Concat(blocks[..i])|;
              l.sound(p) && l.length(p) == |blocks[i]| > 0
  {
    if i < |blocks| && IsMessage(blocks[i]) {
      var file, p := Concat(blocks), |Concat(blocks[..i])|;
      ConcatSplit(blocks, i);
      assert forall j: nat :: j < |blocks[i]| ==> At(blocks[i], j) == At(file, p + j);
      SameSections(file, p, blocks[i]);
      assert Messages(file).sound(p) == Consistent(file, p);
    }
  }

  /** A concatenation of messages is a well-formed file with the messages at their offsets. */
  lemma ConcatIsWellFormed(blocks: seq<seq<Byte>>)
    requires blocks != [] && forall i: nat :: i < |blocks| ==> IsMessage(blocks[i])
    ensures WellFormed(Concat(blocks))
    ensures |Offsets(Messages(Concat(blocks)), 0)| == |blocks|
    ensures forall i: nat :: i < |blocks| ==> Offsets(Messages(Concat(blocks)), 0)[i] == |Concat(blocks[..i])|
  {
    forall i: nat | i < |blocks|
      ensures Messages(Concat(blocks)).sound(|Concat(blocks[..i])|)
      ensures Messages(Concat(blocks)).length(|Concat(blocks[..i])|) == |blocks[i]| > 0
    {
      BlockIsFound(blocks, i);
    }
    ConcatIsChain(Messages(Concat(blocks)), 0, blocks);
    assert |blocks[0]| > 0;
  }

  /** The range of `ptrdiff_t` */
  predicate IsPtrDiff(x: int) {
    -0x8000_0000_0000_0000 <= x < 0x8000_0000_0000_0000
  }

  /** `HGrib1`: a mapped file and the message under the cursor. The message is a view of the octets at `cur`. */
  class Cursor {
    const file: seq<Byte>
    var cur: nat
    var open: bool

    constructor (file: seq<Byte>)
      ensures this.file == file && !open && cur == 0
    {
      this.file, cur, open := file, 0, false;
    }

    /** `open_grib` on a mapped file: the message is made first, then four octets near its end are compared. The
        comparison is inverted and one octet early, so the file is refused if they do read "7777". */
    method Open() returns (refused: bool)
      requires MessageLength(file, 0) >= 5
      modifies this
      ensures cur == 0 && open && refused == Refused(file)
    {
      cur, open := 0, true;
      var q := MessageLength(file, 0) - 5;
      refused := At(file, q) == At(file, q + 1) == At(file, q + 2) == At(file, q + 3) == SEVEN;
    }

    /** `next_message` */
    method NextMessage() returns (moved: bool)
      modifies this
      ensures open == old(open)
      ensures moved <==> old(open) && old(cur) + MessageLength(file, old(cur)) < |file|
      ensures cur == old(cur) + if moved then MessageLength(file, old(cur)) else 0
    {
      if open {
        if cur + MessageLength(file, cur) < |file| {
          cur := cur + MessageLength(file, cur);
          return true;
        }
        return false;
      }
      return false;
    }

    /** `set_message`: the comparison with the file size is unsigned. */
    method SetMessage(pos: int) returns (found: bool)
      requires IsPtrDiff(pos) && |file| < 0x8000_0000_0000_0000
      modifies this
      ensures found <==> 0 <= pos < |file|
      ensures if found then cur == pos && open else cur == old(cur) && open == old(open)
    {
      if pos % 0x1_0000_0000_0000_0000 >= |file| {
        return false;
      }
      cur, open := pos, true;
      return true;
    }
  }

  const SEVEN: Byte := 0x37

  predicate Refused(file: seq<Byte>) {
    var q := MessageLength(file, 0) - 5;
    q >= 0 && At(file, q) == SEVEN && At(file, q + 1) == SEVEN && At(file, q + 2) == SEVEN && At(file, q + 3) == SEVEN
  }

  predicate EndsInSevens(file: seq<Byte>, p: nat) {
    var q := p + MessageLength(file, p);
    q >= 4 &&
    At(file, q - 4) == SEVEN && At(file, q - 3) == SEVEN && At(file, q - 2) == SEVEN && At(file, q - 1) == SEVEN
  }

  lemma FirstIsLong(file: seq<Byte>)
    requires WellFormed(file)
    ensures MessageLength(file, 0) >= SECTION0 + TRAILER
  {
    assert Messages(file).sound(0) == Consistent(file, 0);
  }

  /** The four octets that are compared are the last but four to the last but one of the first message. */
  lemma RefusedIsText(file: seq<Byte>)
    requires 5 <= MessageLength(file, 0) <= |file|
    ensures Refused(file) <==> file[MessageLength(file, 0) - 5..MessageLength(file, 0) - 1] == [0x37, 0x37, 0x37, 0x37]
  {
    var q := MessageLength(file, 0) - 5;
    var text := file[q..q + 4];
    assert text[0] == file[q] && text[1] == file[q + 1] && text[2] == file[q + 2] && text[3] == file[q + 3];
  }

  /** A file whose first message ends as it should is refused exactly if its last data octet is a '7' too. */
  lemma RefusedIff(file: seq<Byte>)
    requires WellFormed(file) && EndsInSevens(file, 0)
    ensures MessageLength(file, 0) >= 5 && (Refused(file) <==> At(file, MessageLength(file, 0) - 5) == SEVEN)
  {
    FirstIsLong(file);
  }

  /** A message with sections 0, 1 and 4 of 8, 28 and 12 octets, the last one a '7'. */
  function SampleOctet(i: nat): Byte {
    if i < 4 then [0x47, 0x52, 0x49, 0x42][i]
    else if i == 6 then 52
    else if i == 7 then 1
    else if i == 10 then 28
    else if i == 38 then 12
    else if i >= 47 then SEVEN
    else 0
  }

  lemma SampleIsMessage(file: seq<Byte>)
    requires |file| == 52 && forall i: nat :: i < 52 ==> At(file, i) == SampleOctet(i)
    ensures IsMessage(file)
  {
    assert Length24(file, 4) == 52 && Length24(file, 8) == 28 && At(file, 15) == 0;
    assert Length24(file, 36) == 12;
  }

  /** There are such files. */
  lemma SoundFileIsRefused() returns (file: seq<Byte>)
    ensures WellFormed(file) && EndsInSevens(file, 0) && Refused(file)
  {
    file := seq<Byte>(52, i requires 0 <= i => SampleOctet(i));
    assert forall i: nat :: i < 52 ==> At(file, i) == SampleOctet(i);
    SampleIsMessage(file);
    assert [file][1..] == [] && Concat([file]) == file;
    ConcatIsWellFormed([file]);
    assert MessageLength(file, 0) == 52;
  }
}
