/** The inverted indices from a property to the files and the positions of the messages that have it. */
module Index {
  import opened Extraction

  type Path = string

  type Postings<!K> = map<K, map<Path, seq<nat>>>

  function Lookup<K>(index: Postings<K>, k: K, path: Path): seq<nat> {
    if k in index && path in index[k] then index[k][path] else []
  }

  /** The lambda of `add_data`: one more position under a key and a path. */
  function Post<K>(index: Postings<K>, k: K, path: Path, pos: nat): Postings<K> {
    if k in index then index[k := index[k][path := Lookup(index, k, path) + [pos]]]
    else index[k := map[path := [pos]]]
  }

  /** The positions of the error-free messages. */
  function SoundPositions(msgs: seq<MsgInfo>): (ps: seq<nat>) {
    if msgs == [] then []
    else
      var last := msgs[|msgs| - 1];
      SoundPositions(msgs[..|msgs| - 1]) + if last.sound then [last.pos] else []
  }

  /** The positions of the error-free messages with a given key, in file order. */
  function PositionsWith<K(==)>(msgs: seq<MsgInfo>, keyOf: MsgInfo -> K, k: K): (ps: seq<nat>) {
    if msgs == [] then []
    else
      var last := msgs[|msgs| - 1];
      PositionsWith(msgs[..|msgs| - 1], keyOf, k) + if last.sound && keyOf(last) == k then [last.pos] else []
  }

  function CommonOf(m: MsgInfo): CommonKey { m.common }

  function ForecastOf(m: MsgInfo): Forecast { m.forecast }

  function GridOf(m: MsgInfo): Grid { m.grid }

  function LevelOf(m: MsgInfo): Level { m.level }

  /** `after` is `before` with the error-free messages of `path` filed at the end of their lists. */
  ghost predicate Posted<K(!new)>(before: Postings<K>, after: Postings<K>, path: Path, msgs: seq<MsgInfo>,
                                  keyOf: MsgInfo -> K)
  {
    && (forall k: K, p: Path :: Lookup(after, k, p)
          == Lookup(before, k, p) + if p == path then PositionsWith(msgs, keyOf, k) else [])
    && (NoneEmpty(before) ==> NoneEmpty(after))
  }

  /** No list of positions is empty. */
  ghost predicate NoneEmpty<K(!new)>(index: Postings<K>) {
    forall k: K, p: Path :: k in index && p in index[k] ==> index[k][p] != []
  }

  lemma PostedNothing<K(!new)>(index: Postings<K>, path: Path, keyOf: MsgInfo -> K)
    ensures Posted(index, index, path, [], keyOf)
  {
    forall k: K, p: Path
      ensures Lookup(index, k, p) == Lookup(index, k, p) + if p == path then PositionsWith([], keyOf, k) else []
    {
    }
  }

  lemma NextTurn(positions: map<Path, seq<nat>>, path: Path, msgs: seq<MsgInfo>, i: nat, a: seq<nat>, b: seq<nat>)
    ensures positions[path := a][path := b] == positions[path := b]
    ensures i < |msgs| ==> msgs[..i + 1] == msgs[..i] + [msgs[i]]
  {
  }

  lemma SoundOneMore(msgs: seq<MsgInfo>, m: MsgInfo)
    ensures SoundPositions(msgs + [m]) == SoundPositions(msgs) + if m.sound then [m.pos] else []
  {
    assert (msgs + [m])[..|msgs|] == msgs;
  }

  lemma WithOneMore<K>(msgs: seq<MsgInfo>, m: MsgInfo, keyOf: MsgInfo -> K, k: K)
    ensures PositionsWith(msgs + [m], keyOf, k)
         == PositionsWith(msgs, keyOf, k) + if m.sound && keyOf(m) == k then [m.pos] else []
  {
    assert (msgs + [m])[..|msgs|] == msgs;
  }

  lemma PostLookup<K>(now: Postings<K>, key: K, path: Path, pos: nat, k: K, p: Path)
    ensures Lookup(Post(now, key, path, pos), k, p)
         == Lookup(now, k, p) + if k == key && p == path then [pos] else []
  {
  }

  lemma PostedOneMore<K(!new)>(before: Postings<K>, now: Postings<K>, path: Path, msgs: seq<MsgInfo>, m: MsgInfo,
                               keyOf: MsgInfo -> K)
    requires Posted(before, now, path, msgs, keyOf)
    ensures Posted(before, if m.sound then Post(now, keyOf(m), path, m.pos) else now, path, msgs + [m], keyOf)
  {
    var after := if m.sound then Post(now, keyOf(m), path, m.pos) else now;
    forall k: K, p: Path
      ensures Lookup(after, k, p)
           == Lookup(before, k, p) + if p == path then PositionsWith(msgs + [m], keyOf, k) else []
    {
      WithOneMore(msgs, m, keyOf, k);
      PostedAt(before, now, path, msgs, keyOf, k, p);
      if m.sound {
        PostLookup(now, keyOf(m), path, m.pos, k, p);
      }
    }
    if m.sound && NoneEmpty(before) {
      PostNoneEmpty(now, keyOf(m), path, m.pos);
    }
  }

  lemma PostNoneEmpty<K(!new)>(index: Postings<K>, key: K, path: Path, pos: nat)
    ensures NoneEmpty(index) ==> NoneEmpty(Post(index, key, path, pos))
  {
  }

  /** Files one message under its key, unless it carries an error. */
  method FileMessage<K(!new, ==)>(ghost before: Postings<K>, now: Postings<K>, path: Path, ghost msgs: seq<MsgInfo>,
                                  m: MsgInfo, keyOf: MsgInfo -> K)
    returns (after: Postings<K>)
    requires Posted(before, now, path, msgs, keyOf)
    ensures Posted(before, after, path, msgs + [m], keyOf)
  {
    PostedOneMore(before, now, path, msgs, m, keyOf);
    after := now;
    if m.sound {
      after := Post(now, keyOf(m), path, m.pos);
    }
  }

  datatype Indices = Indices(
    common: Postings<CommonKey>, forecast: Postings<Forecast>, grid: Postings<Grid>, level: Postings<Level>)

  /** `DataStruct`, without the index by date, which is never filled. */
  class DataStruct {
    var positions: map<Path, seq<nat>>
    var byCommon: Postings<CommonKey>
    var byForecast: Postings<Forecast>
    var byGrid: Postings<Grid>
    var byLevel: Postings<Level>

    constructor ()
      ensures positions == map[] && byCommon == map[] && byForecast == map[] && byGrid == map[] && byLevel == map[]
    {
      positions, byCommon, byForecast, byGrid, byLevel := map[], map[], map[], map[], map[];
    }

    /** The four indices hold what they held before, and the messages `done` of `path`. */
    ghost predicate Holds(before: Indices, path: Path, done: seq<MsgInfo>)
      reads this
    {
      && Posted(before.common, byCommon, path, done, CommonOf)
      && Posted(before.forecast, byForecast, path, done, ForecastOf)
      && Posted(before.grid, byGrid, path, done, GridOf)
      && Posted(before.level, byLevel, path, done, LevelOf)
    }

    ghost function Snapshot(): Indices
      reads this
    {
      Indices(byCommon, byForecast, byGrid, byLevel)
    }

    lemma NothingPosted(path: Path)
      ensures Holds(Snapshot(), path, [])
    {
      PostedNothing(byCommon, path, CommonOf);
      PostedNothing(byForecast, path, ForecastOf);
      PostedNothing(byGrid, path, GridOf);
      PostedNothing(byLevel, path, LevelOf);
    }

    /** The loop body of `add_data`. */
    method AddMessage(path: Path, m: MsgInfo, ghost before: Indices, ghost done: seq<MsgInfo>)
      requires path in positions && Holds(before, path, done)
      modifies this
      ensures positions == old(positions)[path := old(positions[path]) + if m.sound then [m.pos] else []]
      ensures Holds(before, path, done + [m])
    {
      if m.sound {
        positions := positions[path := positions[path] + [m.pos]];
      } else {
        assert positions[path] + [] == positions[path];
      }
      byCommon := FileMessage(before.common, byCommon, path, done, m, CommonOf);
      byForecast := FileMessage(before.forecast, byForecast, path, done, m, ForecastOf);
      byGrid := FileMessage(before.grid, byGrid, path, done, m, GridOf);
      byLevel := FileMessage(before.level, byLevel, path, done, m, LevelOf);
    }

    /** `add_data` for the messages of one file. The list of the file is started anew; those of the keys are not. */
    method AddFile(path: Path, msgs: seq<MsgInfo>)
      modifies this
      ensures positions == old(positions)[path := SoundPositions(msgs)]
      ensures Holds(old(Snapshot()), path, msgs)
    {
      positions := positions[path := []];
      ghost var before := Snapshot();
      NothingPosted(path);
      for i := 0 to |msgs|
        invariant positions == old(positions)[path := SoundPositions(msgs[..i])]
        invariant Holds(before, path, msgs[..i])
      {
        SoundOneMore(msgs[..i], msgs[i]);
        NextTurn(old(positions), path, msgs, i, SoundPositions(msgs[..i]), SoundPositions(msgs[..i + 1]));
        AddMessage(path, msgs[i], before, msgs[..i]);
      }
      assert msgs[..|msgs|] == msgs;
    }

    /** `add_data` for another index: its lists replace those under the same key and path. */
    method Merge(other: DataStruct)
      modifies this
      ensures positions == old(positions) + old(other.positions)
      ensures Merged(old(byCommon), old(other.byCommon), byCommon)
      ensures Merged(old(byForecast), old(other.byForecast), byForecast)
      ensures Merged(old(byGrid), old(other.byGrid), byGrid)
      ensures Merged(old(byLevel), old(other.byLevel), byLevel)
    {
      positions := MergePaths(positions, other.positions);
      byCommon := MergePostings(byCommon, other.byCommon);
      byForecast := MergePostings(byForecast, other.byForecast);
      byGrid := MergePostings(byGrid, other.byGrid);
      byLevel := MergePostings(byLevel, other.byLevel);
    }
  }

  function PathsOf<K>(index: Postings<K>, k: K): map<Path, seq<nat>> {
    if k in index then index[k] else map[]
  }

  ghost predicate Merged<K(!new)>(mine: Postings<K>, theirs: Postings<K>, result: Postings<K>) {
    && result.Keys == mine.Keys + theirs.Keys
    && forall k: K :: PathsOf(result, k) == PathsOf(mine, k) + PathsOf(theirs, k)
  }

  method MergePostings<K(!new, ==)>(mine: Postings<K>, theirs: Postings<K>) returns (result: Postings<K>)
    ensures Merged(mine, theirs, result)
  {
    result := mine;
    var keys := theirs.Keys;
    while keys != {}
      invariant keys <= theirs.Keys
      invariant Merged(mine, theirs - keys, result)
      decreases keys
    {
      var k :| k in keys;
      var merged := MergePaths(PathsOf(result, k), theirs[k]);
      ghost var before := result;
      var rest := keys - {k};
      result := result[k := merged];
      assert (theirs - rest).Keys == (theirs - keys).Keys + {k};
      forall k': K
        ensures PathsOf(result, k') == PathsOf(mine, k') + PathsOf(theirs - rest, k')
      {
        assert PathsOf(before, k') == PathsOf(mine, k') + PathsOf(theirs - keys, k');
        assert PathsOf(mine, k) + map[] == PathsOf(mine, k);
      }
      keys := rest;
    }
    assert theirs - {} == theirs;
  }

  method MergePaths(mine: map<Path, seq<nat>>, theirs: map<Path, seq<nat>>) returns (result: map<Path, seq<nat>>)
    ensures result == mine + theirs
  {
    result := mine;
    var paths := theirs.Keys;
    while paths != {}
      invariant paths <= theirs.Keys && result == mine + (theirs - paths)
      decreases paths
    {
      var path :| path in paths;
      paths := paths - {path};
      result := result[path := theirs[path]];
    }
  }

  /** What has been indexed: the messages of each file. */
  type Log = map<Path, seq<MsgInfo>>

  ghost function Expected<K>(log: Log, keyOf: MsgInfo -> K, k: K, p: Path): seq<nat> {
    if p in log then PositionsWith(log[p], keyOf, k) else []
  }

  /** The index finds exactly the error-free messages with a key, in file order. */
  ghost predicate Exact<K(!new)>(index: Postings<K>, log: Log, keyOf: MsgInfo -> K) {
    && NoneEmpty(index)
    && forall k: K, p: Path :: Lookup(index, k, p) == Expected(log, keyOf, k, p)
  }

  lemma {:induction false} SoundHasKey<K>(msgs: seq<MsgInfo>, keyOf: MsgInfo -> K) returns (k: K)
    requires SoundPositions(msgs) != []
    ensures PositionsWith(msgs, keyOf, k) != []
  {
    var last := msgs[|msgs| - 1];
    if last.sound {
      k := keyOf(last);
    } else {
      k := SoundHasKey(msgs[..|msgs| - 1], keyOf);
    }
  }

  lemma {:induction false} NoneSound<K>(msgs: seq<MsgInfo>, keyOf: MsgInfo -> K, k: K)
    requires SoundPositions(msgs) == []
    ensures PositionsWith(msgs, keyOf, k) == []
  {
    if msgs != [] {
      NoneSound(msgs[..|msgs| - 1], keyOf, k);
    }
  }

  lemma RepeatedIsInexact<K(!new)>(before: Postings<K>, after: Postings<K>, log: Log, path: Path,
                                   msgs: seq<MsgInfo>, keyOf: MsgInfo -> K)
    requires Exact(before, log, keyOf) && Posted(before, after, path, msgs, keyOf)
    requires path in log && SoundPositions(log[path]) != []
    ensures !Exact(after, log[path := msgs], keyOf)
  {
    var k := SoundHasKey(log[path], keyOf);
    assert Lookup(after, k, path) == Lookup(before, k, path) + PositionsWith(msgs, keyOf, k);
    assert |Lookup(after, k, path)| > |PositionsWith(msgs, keyOf, k)|;
  }

  lemma FirstTimeIsExact<K(!new)>(before: Postings<K>, after: Postings<K>, log: Log, path: Path,
                                  msgs: seq<MsgInfo>, keyOf: MsgInfo -> K)
    requires Exact(before, log, keyOf) && Posted(before, after, path, msgs, keyOf)
    requires path !in log || SoundPositions(log[path]) == []
    ensures Exact(after, log[path := msgs], keyOf)
  {
    forall k: K, p: Path
      ensures Lookup(after, k, p) == Expected(log[path := msgs], keyOf, k, p)
    {
      ExactAt(before, log, keyOf, k, p);
      PostedAt(before, after, path, msgs, keyOf, k, p);
      if p == path && path in log {
        NoneSound(log[path], keyOf, k);
      }
    }
  }

  lemma ExactAt<K(!new)>(index: Postings<K>, log: Log, keyOf: MsgInfo -> K, k: K, p: Path)
    ensures Exact(index, log, keyOf) ==> Lookup(index, k, p) == Expected(log, keyOf, k, p)
  {
  }

  lemma PostedAt<K(!new)>(before: Postings<K>, after: Postings<K>, path: Path, msgs: seq<MsgInfo>,
                          keyOf: MsgInfo -> K, k: K, p: Path)
    ensures Posted(before, after, path, msgs, keyOf) ==>
              Lookup(after, k, p) == Lookup(before, k, p) + if p == path then PositionsWith(msgs, keyOf, k) else []
  {
  }

  /** Indexing a file keeps the index exact if and only if the file had no error-free message in it before. */
  lemma AddFileExactIff<K(!new)>(before: Postings<K>, after: Postings<K>, log: Log, path: Path, msgs: seq<MsgInfo>,
                                 keyOf: MsgInfo -> K)
    requires Exact(before, log, keyOf) && Posted(before, after, path, msgs, keyOf)
    ensures Exact(after, log[path := msgs], keyOf) <==> path !in log || SoundPositions(log[path]) == []
  {
    if path in log && SoundPositions(log[path]) != [] {
      RepeatedIsInexact(before, after, log, path, msgs, keyOf);
    } else {
      FirstTimeIsExact(before, after, log, path, msgs, keyOf);
    }
  }

  ghost predicate DistinctPositions(msgs: seq<MsgInfo>) {
    forall i: nat, j: nat :: i < j < |msgs| ==> msgs[i].pos != msgs[j].pos
  }

  lemma {:induction false} PositionHasOwner<K>(msgs: seq<MsgInfo>, keyOf: MsgInfo -> K, k: K, pos: nat)
    ensures pos in PositionsWith(msgs, keyOf, k)
       <==> exists i: nat :: i < |msgs| && msgs[i].sound && msgs[i].pos == pos && keyOf(msgs[i]) == k
  {
    if msgs != [] {
      PositionHasOwner(msgs[..|msgs| - 1], keyOf, k, pos);
    }
  }

  lemma {:induction false} SoundHasOwner(msgs: seq<MsgInfo>, pos: nat)
    ensures pos in SoundPositions(msgs) <==> exists i: nat :: i < |msgs| && msgs[i].sound && msgs[i].pos == pos
  {
    if msgs != [] {
      SoundHasOwner(msgs[..|msgs| - 1], pos);
    }
  }

  /** Over all keys, the lists of a file partition its list of positions. */
  lemma KeysPartition<K(!new)>(msgs: seq<MsgInfo>, keyOf: MsgInfo -> K, pos: nat)
    requires DistinctPositions(msgs)
    ensures pos in SoundPositions(msgs) <==> exists k: K :: pos in PositionsWith(msgs, keyOf, k)
    ensures forall k: K, k': K ::
              pos in PositionsWith(msgs, keyOf, k) && pos in PositionsWith(msgs, keyOf, k') ==> k == k'
  {
    SoundHasOwner(msgs, pos);
    forall k: K
      ensures pos in PositionsWith(msgs, keyOf, k)
         <==> exists i: nat :: i < |msgs| && msgs[i].sound && msgs[i].pos == pos && keyOf(msgs[i]) == k
    {
      PositionHasOwner(msgs, keyOf, k, pos);
    }
    if pos in SoundPositions(msgs) {
      var i: nat :| i < |msgs| && msgs[i].sound && msgs[i].pos == pos;
      assert pos in PositionsWith(msgs, keyOf, keyOf(msgs[i]));
    }
  }

  lemma MergedLookup<K(!new)>(mine: Postings<K>, theirs: Postings<K>, result: Postings<K>, k: K, p: Path)
    requires Merged(mine, theirs, result) && NoneEmpty(theirs)
    ensures Lookup(result, k, p) == if Lookup(theirs, k, p) != [] then Lookup(theirs, k, p) else Lookup(mine, k, p)
  {
    assert PathsOf(result, k) == PathsOf(mine, k) + PathsOf(theirs, k);
    assert Lookup(result, k, p) == if p in PathsOf(result, k) then PathsOf(result, k)[p] else [];
  }

  lemma MergedNoneEmpty<K(!new)>(mine: Postings<K>, theirs: Postings<K>, result: Postings<K>)
    requires Merged(mine, theirs, result) && NoneEmpty(mine) && NoneEmpty(theirs)
    ensures NoneEmpty(result)
  {
    forall k: K, p: Path | k in result && p in result[k]
      ensures result[k][p] != []
    {
      assert PathsOf(result, k) == PathsOf(mine, k) + PathsOf(theirs, k);
    }
  }

  /** A key under which the first index lists a shared file must be one under which the second lists it too. */
  ghost predicate NoStaleKey<K(!new)>(mine: Postings<K>, theirs: Postings<K>, shared: set<Path>) {
    forall k: K, p: Path :: p in shared && Lookup(mine, k, p) != [] ==> Lookup(theirs, k, p) != []
  }

  /** A merge of exact indices is exact if and only if no stale key is left over for a file they share. */
  lemma MergeExactIff<K(!new)>(mine: Postings<K>, theirs: Postings<K>, result: Postings<K>, log: Log, log': Log,
                               keyOf: MsgInfo -> K)
    requires Exact(mine, log, keyOf) && Exact(theirs, log', keyOf) && Merged(mine, theirs, result)
    ensures Exact(result, log + log', keyOf) <==> NoStaleKey(mine, theirs, log.Keys * log'.Keys)
  {
    MergedNoneEmpty(mine, theirs, result);
    forall k: K, p: Path
      ensures Lookup(result, k, p) == (if p in log + log' then PositionsWith((log + log')[p], keyOf, k) else [])
         <==> (p in log.Keys * log'.Keys && Lookup(mine, k, p) != [] ==> Lookup(theirs, k, p) != [])
    {
      MergedLookup(mine, theirs, result, k, p);
      assert Lookup(theirs, k, p) == if p in log' then PositionsWith(log'[p], keyOf, k) else [];
      assert Lookup(mine, k, p) == if p in log then PositionsWith(log[p], keyOf, k) else [];
    }
  }

  /** With disjoint files the merge is exact, and each lookup is that of the side which holds the file. */
  lemma DisjointMerge<K(!new)>(mine: Postings<K>, theirs: Postings<K>, result: Postings<K>, log: Log, log': Log,
                               keyOf: MsgInfo -> K, k: K, p: Path)
    requires Exact(mine, log, keyOf) && Exact(theirs, log', keyOf) && Merged(mine, theirs, result)
    requires log.Keys !! log'.Keys
    ensures Exact(result, log + log', keyOf)
    ensures Lookup(result, k, p) == if p in log' then Lookup(theirs, k, p) else Lookup(mine, k, p)
  {
    MergeExactIff(mine, theirs, result, log, log', keyOf);
    MergedLookup(mine, theirs, result, k, p);
    assert Lookup(theirs, k, p) == if p in log' then PositionsWith(log'[p], keyOf, k) else [];
    assert Lookup(mine, k, p) == if p in log then PositionsWith(log[p], keyOf, k) else [];
  }
}
