/** What the scan takes from a file, and what the index lists, in terms of the octets. */
module ScanLaw {
  import opened Bits
  import opened Extraction
  import opened GribFile
  import opened Index
  import opened IndexedExtraction
  import opened Series
  import opened Wrappers

  /** Octet `n` of section 1 of the message at `p`, counted from one as FM 92 GRIB edition 1 does. */
  function Octet(file: seq<Byte>, p: nat, n: nat): Byte
    requires n > 0
  {
    At(file, p + 8 + n - 1)
  }

  function KeyOctets(file: seq<Byte>, p: nat): CommonKey {
    CommonKey(Octet(file, p, 5), Octet(file, p, 4), Octet(file, p, 9))
  }

  function ForecastOctets(file: seq<Byte>, p: nat): Forecast {
    Forecast(Octet(file, p, 18), Octet(file, p, 21), Octet(file, p, 19), Octet(file, p, 20))
  }

  function LevelOctets(file: seq<Byte>, p: nat): Level {
    Level(Octet(file, p, 10), Octet(file, p, 11), Octet(file, p, 12))
  }

  /** The grid, decoded from section 2 if the first bit of octet 8 says that there is one. */
  function GridOctets(dec: Decoder, file: seq<Byte>, p: nat): Grid {
    if OctetBit(Octet(file, p, 8), 0) == 1 then dec.defineGrid(Octets(file, Start2(file, p), Start3(file, p)))
    else NoGrid
  }

  function DateOctets(dec: Decoder, file: seq<Byte>, p: nat): int {
    dec.referenceTime(Octets(file, p + 8, p + 33))
  }

  lemma OctetsAreSlice(file: seq<Byte>, from: nat, to: nat)
    requires from <= to <= |file|
    ensures Octets(file, from, to) == file[from..to]
  {
    assert |Octets(file, from, to)| == to - from;
    assert forall i: nat :: i < to - from ==> Octets(file, from, to)[i] == At(file, from + i) == file[from..to][i];
  }

  /** A message meets each part of a query that is given: the centre, the parameters, the forecast, and the kind of the
      grid with the dates and the place. */
  ghost predicate Meets(dec: Decoder, q: Query, file: seq<Byte>, p: nat) {
    && (forall c: Byte :: q.center == Some(c) ==> Octet(file, p, 5) == c)
    && (q.parameters != {} ==> (Octet(file, p, 9), Octet(file, p, 4)) in q.parameters)
    && (forall f: Forecast :: q.forecast == Some(f) ==> ForecastOctets(file, p) == f)
    && (forall kind: Byte :: q.gridType == Some(kind) ==>
          && GridOctets(dec, file, p).Grid? && GridOctets(dec, file, p).kind == kind
          && q.from <= DateOctets(dec, file, p) && DateOctets(dec, file, p) <= q.to
          && dec.inGrid(q.position, GridOctets(dec, file, p)))
  }

  lemma InfoIsOctets(dec: Decoder, file: seq<Byte>, p: nat)
    ensures InfoAt(dec, file, p)
         == MsgInfo(GridOctets(dec, file, p), DateOctets(dec, file, p), p, MessageLength(file, p), KeyOctets(file, p),
                    ForecastOctets(file, p), LevelOctets(file, p), Consistent(file, p))
  {
    FlagIsBit(Octet(file, p, 8));
  }

  lemma FlagIsBit(b: Byte)
    ensures OctetBit(b, 0) == b / 128 % 2
  {
  }

  lemma PassesMeets(dec: Decoder, q: Query, file: seq<Byte>, p: nat)
    ensures Passes(dec, q, InfoAt(dec, file, p)) <==> Meets(dec, q, file, p)
  {
    InfoIsOctets(dec, file, p);
  }

  /** The scan takes a value under `k` from the message at `p`. */
  ghost predicate Takes(dec: Decoder, q: Query, file: seq<Byte>, k: CommonKey, p: nat) {
    Meets(dec, q, file, p) && KeyOctets(file, p) == k && GridOctets(dec, file, p).Grid?
  }

  /** The date of a message and its value at the place. */
  function SampleOctets(dec: Decoder, q: Query, file: seq<Byte>, p: nat): Sample {
    Sample(DateOctets(dec, file, p), dec.valueAt(Octets(file, p, p + MessageLength(file, p)), q.position))
  }

  lemma ItemsAreOctets(dec: Decoder, q: Query, file: seq<Byte>, k: CommonKey, p: nat)
    ensures Samples(ItemsFrom(ViewOf(dec, q, file), p), k)
         == if Takes(dec, q, file, k, p) then [SampleOctets(dec, q, file, p)] else []
  {
    InfoIsOctets(dec, file, p);
    PassesMeets(dec, q, file, p);
    var v, info := ViewOf(dec, q, file), InfoAt(dec, file, p);
    assert v.passes(p) == Passes(dec, q, info) && v.items(p) == Extract(dec, q.position, file, info);
    var items := ItemsFrom(v, p);
    if items != [] {
      assert items == [items[0]] && items[1..] == [];
    }
  }

  /** `chosen` lists, in order, the messages among `ps` that the scan takes a value under `k` from. */
  ghost predicate Chosen(dec: Decoder, q: Query, file: seq<Byte>, k: CommonKey, ps: seq<nat>, chosen: seq<nat>) {
    && (forall p: nat :: p in chosen <==> p in ps && Takes(dec, q, file, k, p))
    && (forall i: nat, j: nat :: i < j < |chosen| ==> chosen[i] < chosen[j])
  }

  ghost predicate Rise(ps: seq<nat>) {
    forall i: nat, j: nat :: i < j < |ps| ==> ps[i] < ps[j]
  }

  lemma ChosenFirst(dec: Decoder, q: Query, file: seq<Byte>, k: CommonKey, ps: seq<nat>, rest: seq<nat>)
    requires ps != [] && Rise(ps) && Chosen(dec, q, file, k, ps[1..], rest)
    ensures Chosen(dec, q, file, k, ps, (if Takes(dec, q, file, k, ps[0]) then [ps[0]] else []) + rest)
  {
    assert forall p: nat :: p in ps <==> p == ps[0] || p in ps[1..];
    forall i: nat | i < |rest|
      ensures ps[0] < rest[i]
    {
      assert rest[i] in rest && rest[i] in ps[1..];
    }
  }

  function SamplesAt(dec: Decoder, q: Query, file: seq<Byte>, ps: seq<nat>): (c: Column) {
    seq(|ps|, i requires 0 <= i < |ps| => SampleOctets(dec, q, file, ps[i]))
  }

  lemma SamplesAtFirst(dec: Decoder, q: Query, file: seq<Byte>, p: nat, rest: seq<nat>)
    ensures SamplesAt(dec, q, file, [p] + rest) == [SampleOctets(dec, q, file, p)] + SamplesAt(dec, q, file, rest)
    ensures SamplesAt(dec, q, file, [] + rest) == SamplesAt(dec, q, file, rest)
  {
    assert [] + rest == rest;
  }

  lemma {:induction false} ScanChooses(dec: Decoder, q: Query, file: seq<Byte>, k: CommonKey, ps: seq<nat>)
    returns (chosen: seq<nat>)
    requires Rise(ps)
    ensures Chosen(dec, q, file, k, ps, chosen)
    ensures Samples(ScanItems(ViewOf(dec, q, file), ps), k) == SamplesAt(dec, q, file, chosen)
  {
    if ps == [] {
      chosen := [];
    } else {
      var v := ViewOf(dec, q, file);
      var rest := ScanChooses(dec, q, file, k, ps[1..]);
      ChosenFirst(dec, q, file, k, ps, rest);
      ItemsAreOctets(dec, q, file, k, ps[0]);
      SamplesConcat(ItemsFrom(v, ps[0]), ScanItems(v, ps[1..]), k);
      SamplesAtFirst(dec, q, file, ps[0], rest);
      chosen := (if Takes(dec, q, file, k, ps[0]) then [ps[0]] else []) + rest;
    }
  }

  /** The series that a scan adds under a key are, in file order, the dates and values of exactly those messages with
      the key that have a grid and meet every part of the query that is given. */
  lemma ScanTakes(dec: Decoder, q: Query, file: seq<Byte>, k: CommonKey, result0: map<CommonKey, Column>)
    returns (chosen: seq<nat>)
    requires Refused(file) || Walkable(file)
    ensures Chosen(dec, q, file, k, Recorded(file), chosen)
    ensures Get(ScanResult(dec, q, file, result0), k)
         == Get(result0, k) + SamplesAt(dec, q, file, chosen)
  {
    RecordedRises(file);
    chosen := ScanChooses(dec, q, file, k, Recorded(file));
    CollectByKey(result0, ScanItems(ViewOf(dec, q, file), Recorded(file)), k);
  }

  /** With a grid type given, no date outside the interval is taken. */
  lemma ScanKeepsDates(dec: Decoder, q: Query, file: seq<Byte>, k: CommonKey, s: Sample)
    requires (Refused(file) || Walkable(file)) && q.gridType.Some? && s in Get(ScanResult(dec, q, file, map[]), k)
    ensures q.from <= s.time <= q.to
  {
    var chosen := ScanTakes(dec, q, file, k, map[]);
    var i: nat :| i < |chosen| && s == SampleOctets(dec, q, file, chosen[i]);
    assert chosen[i] in chosen && q.gridType == Some(q.gridType.value);
  }

  /** The message at `p` is recorded and free of errors. */
  ghost predicate Listed(file: seq<Byte>, p: nat)
    requires Refused(file) || Walkable(file)
  {
    p in Recorded(file) && Consistent(file, p)
  }

  lemma {:induction false} ListHas<K(!new)>(dec: Decoder, file: seq<Byte>, ps: seq<nat>, keyOf: MsgInfo -> K, k: K,
                                            p: nat)
    ensures p in PositionsWith(Infos(dec, file, ps), keyOf, k)
       <==> p in ps && Consistent(file, p) && keyOf(InfoAt(dec, file, p)) == k
  {
    if ps != [] {
      var before, last := ps[..|ps| - 1], ps[|ps| - 1];
      ListHas(dec, file, before, keyOf, k, p);
      assert ps == before + [last];
      InfosOneMore(dec, file, before, last);
      WithOneMore(Infos(dec, file, before), InfoFor(dec, file, last), keyOf, k);
      InfoIs(dec, file, last);
    }
  }

  lemma RiseLast(list: seq<nat>, last: nat)
    requires Rise(list) && forall i: nat :: i < |list| ==> list[i] < last
    ensures Rise(list + [last])
  {
  }

  lemma {:induction false} ListRises<K(!new)>(dec: Decoder, file: seq<Byte>, ps: seq<nat>, keyOf: MsgInfo -> K, k: K)
    requires Rise(ps)
    ensures Rise(PositionsWith(Infos(dec, file, ps), keyOf, k))
  {
    if ps != [] {
      var before, last := ps[..|ps| - 1], ps[|ps| - 1];
      ListRises(dec, file, before, keyOf, k);
      assert ps == before + [last];
      InfosOneMore(dec, file, before, last);
      WithOneMore(Infos(dec, file, before), InfoFor(dec, file, last), keyOf, k);
      InfoIs(dec, file, last);
      var list := PositionsWith(Infos(dec, file, before), keyOf, k);
      forall i: nat | i < |list|
        ensures list[i] < last
      {
        ListHas(dec, file, before, keyOf, k, list[i]);
        var j: nat :| j < |before| && before[j] == list[i];
        assert ps[j] == before[j];
      }
      RiseLast(list, last);
    }
  }

  lemma LookupHas<K(!new)>(index: Postings<K>, log: Log, path: Path, dec: Decoder, file: seq<Byte>,
                           keyOf: MsgInfo -> K, k: K, p: nat)
    requires Refused(file) || Walkable(file)
    requires Exact(index, log, keyOf) && path in log && log[path] == Indexed(dec, file)
    ensures p in Lookup(index, k, path) <==> Listed(file, p) && keyOf(InfoAt(dec, file, p)) == k
    ensures Rise(Lookup(index, k, path))
  {
    ExactAt(index, log, keyOf, k, path);
    RecordedRises(file);
    ListHas(dec, file, Recorded(file), keyOf, k, p);
    ListRises(dec, file, Recorded(file), keyOf, k);
  }

  /** The index of a file lists under a centre, table version and parameter, under a forecast, under a grid and under a
      level exactly the error-free messages with these octets, in file order. */
  lemma IndicesListOctets(common: Postings<CommonKey>, forecast: Postings<Forecast>, grid: Postings<Grid>,
                          level: Postings<Level>, log: Log, path: Path, dec: Decoder, file: seq<Byte>,
                          key: CommonKey, f: Forecast, g: Grid, l: Level, p: nat)
    requires Refused(file) || Walkable(file)
    requires Exact(common, log, CommonOf) && Exact(forecast, log, ForecastOf)
    requires Exact(grid, log, GridOf) && Exact(level, log, LevelOf)
    requires path in log && log[path] == Indexed(dec, file)
    ensures p in Lookup(common, key, path) <==> Listed(file, p) && KeyOctets(file, p) == key
    ensures p in Lookup(forecast, f, path) <==> Listed(file, p) && ForecastOctets(file, p) == f
    ensures p in Lookup(grid, g, path) <==> Listed(file, p) && GridOctets(dec, file, p) == g
    ensures p in Lookup(level, l, path) <==> Listed(file, p) && LevelOctets(file, p) == l
    ensures Rise(Lookup(common, key, path)) && Rise(Lookup(forecast, f, path))
    ensures Rise(Lookup(grid, g, path)) && Rise(Lookup(level, l, path))
  {
    InfoIsOctets(dec, file, p);
    LookupHas(common, log, path, dec, file, CommonOf, key, p);
    LookupHas(forecast, log, path, dec, file, ForecastOf, f, p);
    LookupHas(grid, log, path, dec, file, GridOf, g, p);
    LookupHas(level, log, path, dec, file, LevelOf, l, p);
  }
}
