/** From the file to the index and back: what a lookup finds is what a scan would have taken. */
module IndexedExtraction {
  import opened Bits
  import opened Extraction
  import opened GribFile
  import opened Index
  import opened Series
  import opened Sorting
  import opened Wrappers

  lemma InfoIs(dec: Decoder, file: seq<Byte>, p: nat)
    ensures InfoFor(dec, file, p) == InfoAt(dec, file, p)
  {
  }

  /** What indexing passes on for a file. */
  ghost function Indexed(dec: Decoder, file: seq<Byte>): (msgs: seq<MsgInfo>)
    requires Refused(file) || Walkable(file)
  {
    Infos(dec, file, Recorded(file))
  }

  lemma {:induction false} AllSound(dec: Decoder, file: seq<Byte>, ps: seq<nat>)
    requires forall i: nat :: i < |ps| ==> Consistent(file, ps[i])
    ensures SoundPositions(Infos(dec, file, ps)) == ps
  {
    if ps != [] {
      var before, p := ps[..|ps| - 1], ps[|ps| - 1];
      AllSound(dec, file, before);
      InfoIs(dec, file, p);
      InfosOneMore(dec, file, before, p);
      assert ps == before + [p];
      SoundOneMore(Infos(dec, file, before), InfoFor(dec, file, p));
    }
  }

  lemma RecordedAreMessages(file: seq<Byte>)
    requires WellFormed(file)
    ensures Walkable(file)
    ensures forall i: nat :: i < |Recorded(file)| ==> Consistent(file, Recorded(file)[i])
  {
    WellFormedIsWalkable(file);
    forall i: nat | i < |Recorded(file)|
      ensures Consistent(file, Recorded(file)[i])
    {
      OffsetIsMessage(file, Recorded(file)[i]);
    }
  }

  /** The messages of a file have distinct positions, and the list that the index keeps for the file is that of all
      its messages, from the first octet to the last. */
  lemma IndexedPositions(dec: Decoder, file: seq<Byte>)
    requires WellFormed(file)
    ensures Walkable(file)
    ensures SoundPositions(Indexed(dec, file)) == Recorded(file) && DistinctPositions(Indexed(dec, file))
  {
    RecordedAreMessages(file);
    RecordedRises(file);
    AllSound(dec, file, Recorded(file));
    forall i: nat | i < |Recorded(file)|
      ensures Indexed(dec, file)[i].pos == Recorded(file)[i]
    {
      InfoIs(dec, file, Recorded(file)[i]);
    }
  }

  /** The positions of the error-free messages that pass. */
  ghost function SoundMatching(v: View, file: seq<Byte>, ps: seq<nat>): (m: seq<int>) {
    if ps == [] then []
    else (if Consistent(file, ps[0]) && v.passes(ps[0]) then [ps[0]] else []) + SoundMatching(v, file, ps[1..])
  }

  /** What the scan extracts from the error-free messages. */
  ghost function SoundItems(v: View, file: seq<Byte>, ps: seq<nat>): seq<(CommonKey, Sample)> {
    if ps == [] then []
    else (if Consistent(file, ps[0]) then ItemsFrom(v, ps[0]) else []) + SoundItems(v, file, ps[1..])
  }

  lemma {:induction false} SoundMatchingOneMore(v: View, file: seq<Byte>, ps: seq<nat>, p: nat)
    ensures SoundMatching(v, file, ps + [p])
         == SoundMatching(v, file, ps) + if Consistent(file, p) && v.passes(p) then [p] else []
  {
    if ps == [] {
      assert ps + [p] == [p];
    } else {
      assert (ps + [p])[1..] == ps[1..] + [p];
      SoundMatchingOneMore(v, file, ps[1..], p);
    }
  }

  lemma {:induction false} SoundMatchingRises(v: View, file: seq<Byte>, ps: seq<nat>, low: int)
    requires forall i: nat :: i < |ps| ==> low <= ps[i]
    requires forall i: nat, j: nat :: i < j < |ps| ==> ps[i] < ps[j]
    ensures Rising(SoundMatching(v, file, ps), Position)
    ensures forall i: nat :: i < |SoundMatching(v, file, ps)| ==> low <= SoundMatching(v, file, ps)[i]
  {
    if ps != [] {
      SoundMatchingRises(v, file, ps[1..], ps[0] + 1);
    }
  }

  lemma {:induction false} SoundMatchingItems(v: View, file: seq<Byte>, size: nat, ps: seq<nat>)
    requires forall i: nat :: i < |ps| ==> ps[i] < size
    ensures ItemsAt(v, size, SoundMatching(v, file, ps)) == SoundItems(v, file, ps)
  {
    if ps != [] {
      SoundMatchingItems(v, file, size, ps[1..]);
      if Consistent(file, ps[0]) && v.passes(ps[0]) {
        assert SoundMatching(v, file, ps)[1..] == SoundMatching(v, file, ps[1..]);
      } else {
        assert SoundMatching(v, file, ps) == SoundMatching(v, file, ps[1..]);
      }
    }
  }

  /** The query asks for just these keys of an index. */
  ghost predicate AsksFor<K(!new)>(dec: Decoder, q: Query, keyOf: MsgInfo -> K, keys: seq<K>) {
    forall m: MsgInfo :: Passes(dec, q, m) <==> keyOf(m) in keys
  }

  ghost predicate Distinct<K>(keys: seq<K>) {
    forall i: nat, j: nat :: i < j < |keys| ==> keys[i] != keys[j]
  }

  /** The lists under several keys, one after the other. */
  function WithAny<K(==)>(msgs: seq<MsgInfo>, keyOf: MsgInfo -> K, keys: seq<K>): (ps: seq<int>) {
    if keys == [] then [] else PositionsWith(msgs, keyOf, keys[0]) + WithAny(msgs, keyOf, keys[1..])
  }

  function Lookups<K>(index: Postings<K>, keys: seq<K>, path: Path): (ps: seq<int>) {
    if keys == [] then [] else Lookup(index, keys[0], path) + Lookups(index, keys[1..], path)
  }

  lemma {:induction false} WithAnyOneMore<K>(msgs: seq<MsgInfo>, m: MsgInfo, keyOf: MsgInfo -> K, keys: seq<K>)
    requires Distinct(keys)
    ensures multiset(WithAny(msgs + [m], keyOf, keys))
         == multiset(WithAny(msgs, keyOf, keys)) + if m.sound && keyOf(m) in keys then multiset{m.pos} else multiset{}
  {
    if keys != [] {
      WithOneMore(msgs, m, keyOf, keys[0]);
      WithAnyOneMore(msgs, m, keyOf, keys[1..]);
      assert keyOf(m) in keys <==> keyOf(m) == keys[0] || keyOf(m) in keys[1..];
      assert keys[0] !in keys[1..];
      var mine: seq<int> := PositionsWith(msgs, keyOf, keys[0]);
      var more: seq<int> := if m.sound && keyOf(m) == keys[0] then [m.pos] else [];
      assert multiset(mine + more) == multiset(mine) + multiset(more);
    }
  }

  lemma {:induction false} WithAnyOfNone<K>(keyOf: MsgInfo -> K, keys: seq<K>)
    ensures WithAny([], keyOf, keys) == []
  {
    if keys != [] {
      WithAnyOfNone(keyOf, keys[1..]);
    }
  }

  /** The positions under the keys are, in some order, those of the error-free messages that pass the query for them,
      and each of these just once. */
  lemma {:induction false} PositionsMatch<K(!new)>(dec: Decoder, q: Query, file: seq<Byte>, ps: seq<nat>,
                                                   keyOf: MsgInfo -> K, keys: seq<K>)
    requires AsksFor(dec, q, keyOf, keys) && Distinct(keys)
    ensures multiset(WithAny(Infos(dec, file, ps), keyOf, keys))
         == multiset(SoundMatching(ViewOf(dec, q, file), file, ps))
  {
    if ps == [] {
      WithAnyOfNone(keyOf, keys);
    } else {
      var before, p := ps[..|ps| - 1], ps[|ps| - 1];
      PositionsMatch(dec, q, file, before, keyOf, keys);
      assert ps == before + [p];
      InfoIs(dec, file, p);
      InfosOneMore(dec, file, before, p);
      WithAnyOneMore(Infos(dec, file, before), InfoFor(dec, file, p), keyOf, keys);
      SoundMatchingOneMore(ViewOf(dec, q, file), file, before, p);
      assert ViewOf(dec, q, file).passes(p) == Passes(dec, q, InfoAt(dec, file, p));
    }
  }

  /** Every message that the scan takes a value from is free of errors. */
  ghost predicate NothingUnsound(v: View, file: seq<Byte>, ps: seq<nat>) {
    forall i: nat :: i < |ps| ==> Consistent(file, ps[i]) || ItemsFrom(v, ps[i]) == []
  }

  lemma {:induction false} AllItemsSound(v: View, file: seq<Byte>, ps: seq<nat>)
    requires NothingUnsound(v, file, ps)
    ensures SoundItems(v, file, ps) == ScanItems(v, ps)
  {
    if ps != [] {
      AllItemsSound(v, file, ps[1..]);
    }
  }

  lemma {:induction false} SoundItemsAreFewer(v: View, file: seq<Byte>, ps: seq<nat>, k: CommonKey)
    ensures |Samples(SoundItems(v, file, ps), k)| <= |Samples(ScanItems(v, ps), k)|
    ensures (exists i: nat :: i < |ps| && !Consistent(file, ps[i]) && Samples(ItemsFrom(v, ps[i]), k) != []) ==>
              |Samples(SoundItems(v, file, ps), k)| < |Samples(ScanItems(v, ps), k)|
  {
    if ps != [] {
      var first, rest := ItemsFrom(v, ps[0]), ps[1..];
      SoundItemsAreFewer(v, file, rest, k);
      SamplesConcat(first, ScanItems(v, rest), k);
      SamplesConcat(if Consistent(file, ps[0]) then first else [], SoundItems(v, file, rest), k);
      if i: nat :| i < |ps| && !Consistent(file, ps[i]) && Samples(ItemsFrom(v, ps[i]), k) != [] {
        if i > 0 {
          assert rest[i - 1] == ps[i];
        }
      }
    }
  }

  /** Leaving out the messages with errors makes a difference if and only if the scan takes a value from one. */
  lemma SoundItemsCollectIff(v: View, file: seq<Byte>, ps: seq<nat>, m: map<CommonKey, Column>)
    ensures Collect(m, SoundItems(v, file, ps)) == Collect(m, ScanItems(v, ps)) <==> NothingUnsound(v, file, ps)
  {
    if NothingUnsound(v, file, ps) {
      AllItemsSound(v, file, ps);
    } else {
      var i: nat :| i < |ps| && !Consistent(file, ps[i]) && ItemsFrom(v, ps[i]) != [];
      var k := ItemsFrom(v, ps[i])[0].0;
      assert Samples(ItemsFrom(v, ps[i]), k) != [];
      SoundItemsAreFewer(v, file, ps, k);
      CollectByKey(m, SoundItems(v, file, ps), k);
      CollectByKey(m, ScanItems(v, ps), k);
    }
  }

  lemma {:induction false} LookupsAre<K(!new)>(index: Postings<K>, log: Log, path: Path, keyOf: MsgInfo -> K,
                                               keys: seq<K>)
    requires Exact(index, log, keyOf) && path in log
    ensures Lookups(index, keys, path) == WithAny(log[path], keyOf, keys)
  {
    if keys != [] {
      ExactAt(index, log, keyOf, keys[0], path);
      LookupsAre(index, log, path, keyOf, keys[1..]);
    }
  }

  /** What extraction by positions collects from the error-free messages that pass, in whatever order they come. */
  lemma SoundAgreesIff(v: View, file: seq<Byte>, ps: seq<nat>, found: seq<int>, m: map<CommonKey, Column>)
    requires forall i: nat :: i < |ps| ==> ps[i] < |file|
    requires forall i: nat, j: nat :: i < j < |ps| ==> ps[i] < ps[j]
    requires multiset(found) == multiset(SoundMatching(v, file, ps))
    ensures Collect(m, ItemsAt(v, |file|, Sort(found, Position))) == Collect(m, ScanItems(v, ps))
       <==> NothingUnsound(v, file, ps)
  {
    SoundMatchingRises(v, file, ps, 0);
    SortUndoesShuffle(SoundMatching(v, file, ps), found, Position);
    SoundMatchingItems(v, file, |file|, ps);
    SoundItemsCollectIff(v, file, ps, m);
  }

  /** Looking keys up in an exact index, putting their lists together in any order and extracting at the positions
      sorted gives the same series as scanning the file for the messages with these keys, if and only if the scan takes
      no value from a message with an error: the index leaves these out, and the scan does not look. */
  lemma LookupAgreesWithScanIff<K(!new)>(index: Postings<K>, log: Log, path: Path, dec: Decoder, file: seq<Byte>,
                                         q: Query, keyOf: MsgInfo -> K, keys: seq<K>, found: seq<int>,
                                         result0: map<CommonKey, Column>)
    requires Refused(file) || Walkable(file)
    requires Exact(index, log, keyOf) && path in log && log[path] == Indexed(dec, file)
    requires AsksFor(dec, q, keyOf, keys) && Distinct(keys)
    requires multiset(found) == multiset(Lookups(index, keys, path))
    ensures var v := ViewOf(dec, q, file);
            var byPositions := Collect(result0, ItemsAt(v, |file|, Sort(found, Position)));
            byPositions == ScanResult(dec, q, file, result0) <==> NothingUnsound(v, file, Recorded(file))
  {
    LookupsAre(index, log, path, keyOf, keys);
    PositionsMatch(dec, q, file, Recorded(file), keyOf, keys);
    RecordedRises(file);
    SoundAgreesIff(ViewOf(dec, q, file), file, Recorded(file), found, result0);
  }

  /** In a well-formed file no message has an error. */
  lemma WellFormedIsSound(v: View, file: seq<Byte>)
    requires WellFormed(file)
    ensures Walkable(file) && NothingUnsound(v, file, Recorded(file))
  {
    RecordedAreMessages(file);
  }

  /** The query for some parameters of one centre, and that for one forecast. */
  ghost function CommonQuery(center: Byte, keys: seq<CommonKey>, place: Coord): Query {
    Query(Some(center), set k | k in keys :: (k.parameter, k.tableVersion), None, None, place, 0, 0)
  }

  function ForecastQuery(f: Forecast, place: Coord): Query {
    Query(None, {}, Some(f), None, place, 0, 0)
  }

  lemma QueriesAskForKeys(dec: Decoder, center: Byte, keys: seq<CommonKey>, f: Forecast, place: Coord)
    requires keys != [] && forall i: nat :: i < |keys| ==> keys[i].center == center
    ensures AsksFor(dec, CommonQuery(center, keys, place), CommonOf, keys)
    ensures AsksFor(dec, ForecastQuery(f, place), ForecastOf, [f])
  {
    var q := CommonQuery(center, keys, place);
    assert (keys[0].parameter, keys[0].tableVersion) in q.parameters;
    forall m: MsgInfo
      ensures Passes(dec, q, m) <==> CommonOf(m) in keys
    {
      if (m.common.parameter, m.common.tableVersion) in q.parameters && m.common.center == center {
        var k :| k in keys && (k.parameter, k.tableVersion) == (m.common.parameter, m.common.tableVersion);
        assert k == m.common;
      }
    }
  }
}
