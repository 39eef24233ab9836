/** Extraction from one file: by a full scan that filters each message, and by positions from an index. */
module Extraction {
  import opened Bits
  import opened GribFile
  import opened Series
  import opened Sorting
  import opened Wrappers

  datatype Coord = Coord(lat: real, lon: real)

  /** `GridInfo`: the kind of a grid and its decoded fields. */
  datatype Grid = NoGrid | Grid(kind: Byte, fields: seq<int>)

  datatype Forecast = Forecast(frame: Byte, indicator: Byte, p1: Byte, p2: Byte)

  datatype Level = Level(tag: Byte, first: Byte, second: Byte)

  datatype CommonKey = CommonKey(center: Byte, tableVersion: Byte, parameter: Byte)

  /** `GribMsgDataInfo`; `sound` says that the message carries no error. */
  datatype MsgInfo = MsgInfo(
    grid: Grid, date: int, pos: nat, size: nat, common: CommonKey, forecast: Forecast, level: Level, sound: bool)

  /** Decoding that is not modelled: which grid the octets of section 2 describe, whether a place lies in it, the
      reference time and the value at a place. */
  datatype Decoder = Decoder(
    defineGrid: seq<Byte> -> Grid,
    inGrid: (Coord, Grid) -> bool,
    referenceTime: seq<Byte> -> int,
    valueAt: (seq<Byte>, Coord) -> real)

  /** `SearchProperties` */
  datatype Query = Query(
    center: Option<Byte>, parameters: set<(Byte, Byte)>, forecast: Option<Forecast>, gridType: Option<Byte>,
    position: Coord, from: int, to: int)

  function Octets(file: seq<Byte>, from: nat, to: nat): seq<Byte>
    requires from <= to
  {
    seq<Byte>(to - from, i requires 0 <= i => At(file, from + i))
  }

  function GridAt(dec: Decoder, file: seq<Byte>, p: nat): Grid {
    if HasGrid(file, p) then dec.defineGrid(Octets(file, Start2(file, p), Start3(file, p))) else NoGrid
  }

  /** What is read from the message at `p`; the offsets are those of FM 92 GRIB edition 1, Section 1. */
  function InfoAt(dec: Decoder, file: seq<Byte>, p: nat): MsgInfo {
    var s1 := Start1(p);
    MsgInfo(GridAt(dec, file, p), dec.referenceTime(Octets(file, s1, s1 + 25)), p, MessageLength(file, p),
            CommonKey(At(file, s1 + 4), At(file, s1 + 3), At(file, s1 + 8)),
            Forecast(At(file, s1 + 17), At(file, s1 + 20), At(file, s1 + 18), At(file, s1 + 19)),
            Level(At(file, s1 + 9), At(file, s1 + 10), At(file, s1 + 11)),
            Consistent(file, p))
  }

  /** The filter of the scan. Date and place count only if a grid type is asked for. */
  predicate Passes(dec: Decoder, q: Query, info: MsgInfo) {
    && (q.center.None? || q.center.value == info.common.center)
    && (q.parameters == {} || (info.common.parameter, info.common.tableVersion) in q.parameters)
    && (q.forecast.None? || q.forecast.value == info.forecast)
    && (q.gridType.Some? ==>
        && info.grid.Grid?
        && info.grid.kind == q.gridType.value
        && q.from <= info.date <= q.to
        && dec.inGrid(q.position, info.grid))
  }

  /** What is taken from a message whose grid is known. */
  function Extract(dec: Decoder, place: Coord, file: seq<Byte>, info: MsgInfo): seq<(CommonKey, Sample)> {
    if info.grid.Grid?
    then [(info.common, Sample(info.date, dec.valueAt(Octets(file, info.pos, info.pos + info.size), place)))]
    else []
  }

  /** The messages of a file seen through a query: whether the message at an offset passes, and what is extracted
      from it. */
  datatype View = View(passes: nat -> bool, items: nat -> seq<(CommonKey, Sample)>)

  ghost predicate Shows(v: View, dec: Decoder, q: Query, file: seq<Byte>) {
    forall p: nat {:trigger InfoAt(dec, file, p)} ::
      && v.passes(p) == Passes(dec, q, InfoAt(dec, file, p))
      && v.items(p) == Extract(dec, q.position, file, InfoAt(dec, file, p))
  }

  ghost function ViewOf(dec: Decoder, q: Query, file: seq<Byte>): (v: View)
    ensures Shows(v, dec, q, file)
  {
    ViewExists(dec, q, file);
    var v: View :| Shows(v, dec, q, file);
    v
  }

  lemma ViewExists(dec: Decoder, q: Query, file: seq<Byte>)
    ensures exists v: View :: Shows(v, dec, q, file)
  {
    var v := View((p: nat) => Passes(dec, q, InfoAt(dec, file, p)),
                  (p: nat) => Extract(dec, q.position, file, InfoAt(dec, file, p)));
    assert Shows(v, dec, q, file);
  }

  /** What the scan extracts from the message at `p`. */
  function ItemsFrom(v: View, p: nat): seq<(CommonKey, Sample)> {
    if v.passes(p) then v.items(p) else []
  }

  /** What the scan extracts from the messages at `ps`. */
  function ScanItems(v: View, ps: seq<nat>): seq<(CommonKey, Sample)> {
    if ps == [] then []
    else ItemsFrom(v, ps[0]) + ScanItems(v, ps[1..])
  }

  /** What extraction by positions extracts from a file of the given size. */
  function ItemsAt(v: View, size: nat, positions: seq<int>): seq<(CommonKey, Sample)> {
    if positions == [] then []
    else (if 0 <= positions[0] < size then v.items(positions[0]) else []) + ItemsAt(v, size, positions[1..])
  }

  /** The positions an exact index finds for a query, in file order. */
  function Matching(v: View, ps: seq<nat>): (m: seq<int>) {
    if ps == [] then [] else (if v.passes(ps[0]) then [ps[0]] else []) + Matching(v, ps[1..])
  }

  lemma ScanStep(v: View, p: nat, rest: seq<nat>, m: map<CommonKey, Column>)
    ensures Collect(m, ScanItems(v, [p] + rest))
         == Collect(Collect(m, ItemsFrom(v, p)), ScanItems(v, rest))
  {
    assert ([p] + rest)[1..] == rest;
    CollectConcat(m, ItemsFrom(v, p), ScanItems(v, rest));
  }

  lemma ItemsStep(v: View, size: nat, positions: seq<int>, i: nat, m: map<CommonKey, Column>)
    requires i < |positions|
    ensures Collect(m, ItemsAt(v, size, positions[i..]))
         == Collect(if 0 <= positions[i] < size then Collect(m, v.items(positions[i])) else m,
                    ItemsAt(v, size, positions[i + 1..]))
  {
    assert positions[i..][1..] == positions[i + 1..];
    var rest := ItemsAt(v, size, positions[i + 1..]);
    if 0 <= positions[i] < size {
      CollectConcat(m, v.items(positions[i]), rest);
    } else {
      assert ItemsAt(v, size, positions[i..]) == rest;
    }
  }

  function Position(p: int): int {
    p
  }

  /** `f` gives what is read from the message at an offset. */
  ghost predicate Reads(f: nat -> MsgInfo, dec: Decoder, file: seq<Byte>) {
    forall p: nat {:trigger InfoAt(dec, file, p)} :: f(p) == InfoAt(dec, file, p)
  }

  ghost function InfoOf(dec: Decoder, file: seq<Byte>): (f: nat -> MsgInfo)
    ensures Reads(f, dec, file)
  {
    var f0: nat -> MsgInfo := (p: nat) => InfoAt(dec, file, p);
    assert Reads(f0, dec, file);
    var f: nat -> MsgInfo :| Reads(f, dec, file);
    f
  }

  ghost function InfoFor(dec: Decoder, file: seq<Byte>, p: nat): MsgInfo {
    InfoOf(dec, file)(p)
  }

  ghost function Infos(dec: Decoder, file: seq<Byte>, ps: seq<nat>): (infos: seq<MsgInfo>)
    ensures |infos| == |ps| && forall i: nat :: i < |ps| ==> infos[i] == InfoFor(dec, file, ps[i])
  {
    seq(|ps|, i requires 0 <= i < |ps| => InfoFor(dec, file, ps[i]))
  }

  lemma InfosOneMore(dec: Decoder, file: seq<Byte>, ps: seq<nat>, p: nat)
    ensures Infos(dec, file, ps + [p]) == Infos(dec, file, ps) + [InfoFor(dec, file, p)]
  {
  }

  ghost function FileOffsets(file: seq<Byte>): seq<nat>
    requires Walkable(file)
  {
    Visited(Messages(file), 0)
  }

  /** The offsets from the cursor's message on are its own and those after it. */
  lemma VisitedUnfold(file: seq<Byte>, p: nat)
    requires Ends(Messages(file), p)
    ensures var next := p + MessageLength(file, p);
            && p < next && p < |file|
            && (next < |file| ==> Ends(Messages(file), next))
            && Visited(Messages(file), p) == [p] + if next < |file| then Visited(Messages(file), next) else []
  {
    assert Messages(file).length(p) == MessageLength(file, p);
  }

  /** The cursor either reaches the next message or has seen the last one. */
  method MoveOn(c: Cursor) returns (moved: bool)
    requires c.open && Ends(Messages(c.file), c.cur)
    modifies c
    ensures c.open && Ends(Messages(c.file), c.cur)
    ensures c.cur == old(c.cur) + if moved then MessageLength(c.file, old(c.cur)) else 0
    ensures moved <==> old(c.cur) + MessageLength(c.file, old(c.cur)) < |c.file|
  {
    VisitedUnfold(c.file, c.cur);
    moved := c.NextMessage();
  }

  /** What the walk records from `p` on, after what it has recorded. */
  ghost function RecordFrom(dec: Decoder, file: seq<Byte>, p: nat, infos: seq<MsgInfo>): seq<MsgInfo>
    requires Ends(Messages(file), p)
    decreases |file| - p
  {
    VisitedUnfold(file, p);
    var next, more := p + MessageLength(file, p), infos + [InfoFor(dec, file, p)];
    if next < |file| then RecordFrom(dec, file, next, more) else more
  }

  lemma RecordFromStep(dec: Decoder, file: seq<Byte>, p: nat, infos: seq<MsgInfo>)
    requires Ends(Messages(file), p)
    ensures var next, more := p + MessageLength(file, p), infos + [InfoFor(dec, file, p)];
            && p < next && p < |file|
            && (next < |file| ==> Ends(Messages(file), next))
            && RecordFrom(dec, file, p, infos) == if next < |file| then RecordFrom(dec, file, next, more) else more
  {
    VisitedUnfold(file, p);
  }

  lemma {:induction false} RecordFromIs(dec: Decoder, file: seq<Byte>, p: nat, seen: seq<nat>)
    requires Ends(Messages(file), p)
    ensures RecordFrom(dec, file, p, Infos(dec, file, seen)) == Infos(dec, file, seen + Visited(Messages(file), p))
    decreases |file| - p
  {
    RecordFromStep(dec, file, p, Infos(dec, file, seen));
    InfosOneMore(dec, file, seen, p);
    VisitedUnfold(file, p);
    var next := p + MessageLength(file, p);
    if next < |file| {
      RecordFromIs(dec, file, next, seen + [p]);
      OneBefore(seen, p, Visited(Messages(file), next));
    }
  }

  lemma OneBefore(seen: seq<nat>, p: nat, rest: seq<nat>)
    ensures seen + ([p] + rest) == seen + [p] + rest
  {
  }

  /** One turn of the walk. */
  method RecordTurn(c: Cursor, dec: Decoder, infos0: seq<MsgInfo>) returns (infos: seq<MsgInfo>, moved: bool)
    requires c.open && Ends(Messages(c.file), c.cur)
    modifies c
    ensures c.open && Ends(Messages(c.file), c.cur)
    ensures if moved then old(c.cur) < c.cur else c.cur == old(c.cur)
    ensures RecordFrom(dec, c.file, old(c.cur), infos0)
         == if moved then RecordFrom(dec, c.file, c.cur, infos) else infos
  {
    RecordFromStep(dec, c.file, c.cur, infos0);
    var info := ReadInfo(c, dec);
    infos := infos0 + [info];
    moved := MoveOn(c);
  }

  method ReadInfo(c: Cursor, dec: Decoder) returns (info: MsgInfo)
    ensures info == InfoFor(dec, c.file, c.cur)
  {
    info := InfoAt(dec, c.file, c.cur);
  }

  /** `process_file`: the walk over the file that the index is made from. */
  method ProcessFile(c: Cursor, dec: Decoder) returns (infos: seq<MsgInfo>)
    requires Walkable(c.file) && c.open && c.cur == 0
    modifies c
    ensures infos == Infos(dec, c.file, FileOffsets(c.file))
  {
    infos := [];
    RecordFromIs(dec, c.file, 0, []);
    assert [] + FileOffsets(c.file) == FileOffsets(c.file);
    ghost var goal := RecordFrom(dec, c.file, 0, []);
    var moved := true;
    while moved
      invariant c.open && Ends(Messages(c.file), c.cur)
      invariant goal == if moved then RecordFrom(dec, c.file, c.cur, infos) else infos
      decreases |c.file| - c.cur, if moved then 1 else 0
    {
      infos, moved := RecordTurn(c, dec, infos);
    }
  }

  /** One message of the scan. */
  method ScanMessage(c: Cursor, dec: Decoder, q: Query, ghost v: View, result0: map<CommonKey, Column>)
    returns (result: map<CommonKey, Column>)
    requires Shows(v, dec, q, c.file)
    ensures result == Collect(result0, ItemsFrom(v, c.cur))
  {
    result := result0;
    if Passes(dec, q, InfoAt(dec, c.file, c.cur)) {
      result := AppendMessage(c, dec, q, v, result);
    }
  }

  method AppendMessage(c: Cursor, dec: Decoder, q: Query, ghost v: View, result0: map<CommonKey, Column>)
    returns (result: map<CommonKey, Column>)
    requires Shows(v, dec, q, c.file)
    ensures result == Collect(result0, v.items(c.cur))
  {
    result := result0;
    var info := InfoAt(dec, c.file, c.cur);
    if info.grid.Grid? {
      var value := dec.valueAt(Octets(c.file, info.pos, info.pos + info.size), q.position);
      result := Append(result, info.common, Sample(info.date, value));
    }
  }

  /** What a scan that stands at `p` makes of what it has collected. */
  ghost function FromHere(v: View, file: seq<Byte>, p: nat, m: map<CommonKey, Column>): map<CommonKey, Column>
    requires Ends(Messages(file), p)
    decreases |file| - p
  {
    VisitedUnfold(file, p);
    var next, m' := p + MessageLength(file, p), Collect(m, ItemsFrom(v, p));
    if next < |file| then FromHere(v, file, next, m') else m'
  }

  lemma FromHereStep(v: View, file: seq<Byte>, p: nat, m: map<CommonKey, Column>)
    requires Ends(Messages(file), p)
    ensures var next, m' := p + MessageLength(file, p), Collect(m, ItemsFrom(v, p));
            && p < next && p < |file|
            && (next < |file| ==> Ends(Messages(file), next))
            && FromHere(v, file, p, m) == if next < |file| then FromHere(v, file, next, m') else m'
  {
    VisitedUnfold(file, p);
  }

  lemma {:induction false} FromHereCollects(v: View, file: seq<Byte>, p: nat, m: map<CommonKey, Column>)
    requires Ends(Messages(file), p)
    ensures FromHere(v, file, p, m) == Collect(m, ScanItems(v, Visited(Messages(file), p)))
    decreases |file| - p
  {
    VisitedUnfold(file, p);
    FromHereStep(v, file, p, m);
    var next, m' := p + MessageLength(file, p), Collect(m, ItemsFrom(v, p));
    if next < |file| {
      FromHereCollects(v, file, next, m');
      ScanStep(v, p, Visited(Messages(file), next), m);
    } else {
      ScanStep(v, p, [], m);
      assert ScanItems(v, []) == [];
    }
  }

  /** One turn of the scan. */
  method ScanTurn(c: Cursor, dec: Decoder, q: Query, ghost v: View, result0: map<CommonKey, Column>)
    returns (result: map<CommonKey, Column>, moved: bool)
    requires c.open && Ends(Messages(c.file), c.cur) && Shows(v, dec, q, c.file)
    modifies c
    ensures c.open && Ends(Messages(c.file), c.cur)
    ensures if moved then old(c.cur) < c.cur else c.cur == old(c.cur)
    ensures FromHere(v, c.file, old(c.cur), result0) == if moved then FromHere(v, c.file, c.cur, result) else result
  {
    FromHereStep(v, c.file, c.cur, result0);
    result := ScanMessage(c, dec, q, v, result0);
    moved := MoveOn(c);
  }

  /** The scan of `__extract__` over an opened file. */
  method Scan(c: Cursor, dec: Decoder, q: Query, ghost v: View, result0: map<CommonKey, Column>)
    returns (result: map<CommonKey, Column>)
    requires Walkable(c.file) && c.open && c.cur == 0 && Shows(v, dec, q, c.file)
    modifies c
    ensures result == Collect(result0, ScanItems(v, FileOffsets(c.file)))
  {
    result := result0;
    FromHereCollects(v, c.file, 0, result0);
    ghost var goal := FromHere(v, c.file, 0, result0);
    var moved := true;
    while moved
      invariant c.open && Ends(Messages(c.file), c.cur)
      invariant goal == if moved then FromHere(v, c.file, c.cur, result) else result
      decreases |c.file| - c.cur, if moved then 1 else 0
    {
      result, moved := ScanTurn(c, dec, q, v, result);
    }
  }

  /** `__extract__` by scan: a file that is refused when it is opened adds nothing. */
  method ExtractByScan(c: Cursor, dec: Decoder, q: Query, result0: map<CommonKey, Column>)
    returns (result: map<CommonKey, Column>)
    requires MessageLength(c.file, 0) >= 5 && (Refused(c.file) || Walkable(c.file))
    modifies c
    ensures result == ScanResult(dec, q, c.file, result0)
  {
    var refused := c.Open();
    if refused {
      return result0;
    }
    result := Scan(c, dec, q, ViewOf(dec, q, c.file), result0);
  }

  ghost function ScanResult(dec: Decoder, q: Query, file: seq<Byte>, result0: map<CommonKey, Column>)
    : map<CommonKey, Column>
    requires Refused(file) || Walkable(file)
  {
    Collect(result0, ScanItems(ViewOf(dec, q, file), Recorded(file)))
  }

  /** `__index_file__` */
  method IndexFile(c: Cursor, dec: Decoder) returns (infos: seq<MsgInfo>)
    requires MessageLength(c.file, 0) >= 5 && (Refused(c.file) || Walkable(c.file))
    modifies c
    ensures infos == Infos(dec, c.file, Recorded(c.file))
  {
    var refused := c.Open();
    if refused {
      return [];
    }
    infos := ProcessFile(c, dec);
  }

  /** The messages that indexing records: none if the file is refused. */
  ghost function Recorded(file: seq<Byte>): seq<nat>
    requires Refused(file) || Walkable(file)
  {
    if Refused(file) then [] else FileOffsets(file)
  }

  /** The position-driven `__extract__`, after the sort in `execute`. Here the refusal to open goes unnoticed. */
  method ExtractByPositions(c: Cursor, dec: Decoder, q: Query, matched: seq<int>, result0: map<CommonKey, Column>)
    returns (result: map<CommonKey, Column>)
    requires MessageLength(c.file, 0) >= 5 && |c.file| < 0x8000_0000_0000_0000
    requires forall p :: p in multiset(matched) ==>
               IsPtrDiff(p) && (0 <= p < |c.file| ==> MessageLength(c.file, p) > 0)
    modifies c
    ensures result == Collect(result0, ItemsAt(ViewOf(dec, q, c.file), |c.file|, Sort(matched, Position)))
  {
    SortProperties(matched, Position);
    var positions := Sort(matched, Position);
    ghost var v, size := ViewOf(dec, q, c.file), |c.file|;
    var _ := c.Open();
    result := result0;
    for i := 0 to |positions|
      invariant c.open
      invariant Collect(result, ItemsAt(v, size, positions[i..])) == Collect(result0, ItemsAt(v, size, positions))
    {
      var pos := positions[i];
      ItemsStep(v, size, positions, i, result);
      assert pos in multiset(positions);
      if pos >= 0 {
        var found := c.SetMessage(pos);
        if found {
          result := AppendMessage(c, dec, q, v, result);
        }
      }
    }
  }

  lemma {:induction false} MatchingItems(v: View, size: nat, ps: seq<nat>)
    requires forall i: nat :: i < |ps| ==> ps[i] < size
    ensures ItemsAt(v, size, Matching(v, ps)) == ScanItems(v, ps)
  {
    if ps != [] {
      MatchingItems(v, size, ps[1..]);
      if v.passes(ps[0]) {
        assert Matching(v, ps)[1..] == Matching(v, ps[1..]);
      } else {
        assert Matching(v, ps) == Matching(v, ps[1..]);
      }
    }
  }

  lemma {:induction false} MatchingRises(v: View, ps: seq<nat>, low: int)
    requires forall i: nat :: i < |ps| ==> low <= ps[i]
    requires forall i: nat, j: nat :: i < j < |ps| ==> ps[i] < ps[j]
    ensures Rising(Matching(v, ps), Position)
    ensures forall i: nat :: i < |Matching(v, ps)| ==> low <= Matching(v, ps)[i]
  {
    if ps != [] {
      MatchingRises(v, ps[1..], ps[0] + 1);
    }
  }

  lemma RecordedRises(file: seq<Byte>)
    requires Refused(file) || Walkable(file)
    ensures forall i: nat :: i < |Recorded(file)| ==> Recorded(file)[i] < |file|
    ensures forall i: nat, j: nat :: i < j < |Recorded(file)| ==> Recorded(file)[i] < Recorded(file)[j]
  {
    if !Refused(file) {
      VisitedRise(Messages(file), 0);
    }
  }

  /** Whatever order the index delivers the matching positions in, extraction by positions and the full scan give
      the same series under the same keys, in the same order. */
  lemma PositionsAgreeWithScan(dec: Decoder, q: Query, file: seq<Byte>, matched: seq<int>,
                               result0: map<CommonKey, Column>)
    requires Refused(file) || Walkable(file)
    requires multiset(matched) == multiset(Matching(ViewOf(dec, q, file), Recorded(file)))
    ensures Collect(result0, ItemsAt(ViewOf(dec, q, file), |file|, Sort(matched, Position)))
         == ScanResult(dec, q, file, result0)
  {
    var v, ps := ViewOf(dec, q, file), Recorded(file);
    RecordedRises(file);
    MatchingRises(v, ps, 0);
    SortUndoesShuffle(Matching(v, ps), matched, Position);
    MatchingItems(v, |file|, ps);
  }
}
