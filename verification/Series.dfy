/** Time series by key, as the extraction builds them. */
module Series {
  datatype Sample = Sample(time: int, value: real)

  type Column = seq<Sample>

  function Get<K>(m: map<K, Column>, k: K): Column {
    if k in m then m[k] else []
  }

  /** `result[key].emplace_back(sample)` */
  function Append<K>(m: map<K, Column>, k: K, s: Sample): map<K, Column> {
    m[k := Get(m, k) + [s]]
  }

  function Collect<K>(m: map<K, Column>, items: seq<(K, Sample)>): (r: map<K, Column>)
    decreases |items|
  {
    if items == [] then m else Collect(Append(m, items[0].0, items[0].1), items[1..])
  }

  /** The samples with key `k`, in order. */
  function Samples<K(==)>(items: seq<(K, Sample)>, k: K): (c: Column) {
    if items == [] then []
    else (if items[0].0 == k then [items[0].1] else []) + Samples(items[1..], k)
  }

  lemma {:induction false} CollectConcat<K>(m: map<K, Column>, first: seq<(K, Sample)>, rest: seq<(K, Sample)>)
    ensures Collect(m, first + rest) == Collect(Collect(m, first), rest)
    decreases |first|
  {
    if first == [] {
      assert first + rest == rest;
    } else {
      assert (first + rest)[1..] == first[1..] + rest;
      CollectConcat(Append(m, first[0].0, first[0].1), first[1..], rest);
    }
  }

  /** Every key keeps its series and gains its own samples in order, and nothing else happens to it. */
  lemma {:induction false} CollectByKey<K>(m: map<K, Column>, items: seq<(K, Sample)>, k: K)
    ensures Get(Collect(m, items), k) == Get(m, k) + Samples(items, k)
    ensures k in Collect(m, items) <==> k in m || Samples(items, k) != []
    decreases |items|
  {
    if items != [] {
      CollectByKey(Append(m, items[0].0, items[0].1), items[1..], k);
    }
  }

  lemma {:induction false} SamplesConcat<K>(a: seq<(K, Sample)>, b: seq<(K, Sample)>, k: K)
    ensures Samples(a + b, k) == Samples(a, k) + Samples(b, k)
  {
    if a == [] {
      assert a + b == b;
    } else {
      assert (a + b)[1..] == a[1..] + b;
      SamplesConcat(a[1..], b, k);
      var head := if a[0].0 == k then [a[0].1] else [];
      assert Samples(a + b, k) == head + (Samples(a[1..], k) + Samples(b, k));
    }
  }
}
