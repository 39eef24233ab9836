/** What the text files hold, in terms of the columns that are given to the writer. */
module WrittenRows {
  import opened Merge
  import opened Series
  import opened Sorting
  import opened TextWriter
  import opened Wrappers

  /** No column has a time twice. */
  ghost predicate NoRepeats(columns: seq<Column>) {
    forall c: nat :: c < |columns| ==> Unrepeated(columns[c])
  }

  ghost predicate Unrepeated(col: Column) {
    forall i: nat, j: nat :: i < j < |col| ==> TimeOf(col[i]) != TimeOf(col[j])
  }

  lemma SortKeeps(col: Column, s: Sample)
    ensures s in Sort(col, TimeOf) <==> s in col
  {
    SortProperties(col, TimeOf);
    assert s in Sort(col, TimeOf) <==> s in multiset(Sort(col, TimeOf));
    assert s in col <==> s in multiset(col);
  }

  lemma {:induction false} InsertRises(x: Sample, s: Column)
    requires Rising(s, TimeOf) && forall y :: y in s ==> TimeOf(y) != TimeOf(x)
    ensures Rising(Insert(x, s, TimeOf), TimeOf)
  {
    if s != [] && TimeOf(x) > TimeOf(s[0]) {
      InsertRises(x, s[1..]);
      InsertPermutes(x, s[1..], TimeOf);
      var rest := Insert(x, s[1..], TimeOf);
      forall j: nat | j < |rest|
        ensures TimeOf(s[0]) < TimeOf(rest[j])
      {
        assert rest[j] in multiset(rest);
        assert rest[j] == x || rest[j] in s[1..];
      }
    }
  }

  /** Sorting a column without repeated times leaves it strictly rising. */
  lemma {:induction false} SortRises(col: Column)
    requires Unrepeated(col)
    ensures Rising(Sort(col, TimeOf), TimeOf)
  {
    if col != [] {
      SortRises(col[1..]);
      forall y | y in Sort(col[1..], TimeOf)
        ensures TimeOf(y) != TimeOf(col[0])
      {
        SortKeeps(col[1..], y);
        var j: nat :| j < |col[1..]| && col[1..][j] == y;
        assert col[j + 1] == y;
      }
      InsertRises(col[0], Sort(col[1..], TimeOf));
    }
  }

  lemma {:induction false} ChosenAreColumns(columns: seq<Column>, n: nat, c: nat) returns (k: nat)
    requires n <= |columns| && c < |NonEmptyOf(columns, n)|
    ensures k < n && columns[k] == NonEmptyOf(columns, n)[c]
    decreases n
  {
    if c < |NonEmptyOf(columns, n - 1)| {
      k := ChosenAreColumns(columns, n - 1, c);
    } else {
      k := n - 1;
    }
  }

  /** The written columns stand in the order of the given ones. */
  lemma {:induction false} ChosenInOrder(columns: seq<Column>, n: nat, c: nat, d: nat) returns (k: nat, l: nat)
    requires n <= |columns| && c < d < |NonEmptyOf(columns, n)|
    ensures k < l < n && columns[k] == NonEmptyOf(columns, n)[c] && columns[l] == NonEmptyOf(columns, n)[d]
    decreases n
  {
    if d < |NonEmptyOf(columns, n - 1)| {
      k, l := ChosenInOrder(columns, n - 1, c, d);
    } else {
      k := ChosenAreColumns(columns, n - 1, c);
      l := n - 1;
    }
  }

  lemma {:induction false} NonEmptyIsChosen(columns: seq<Column>, n: nat, k: nat) returns (c: nat)
    requires k < n <= |columns| && columns[k] != []
    ensures c < |NonEmptyOf(columns, n)| && NonEmptyOf(columns, n)[c] == columns[k]
    decreases n
  {
    if k == n - 1 {
      c := |NonEmptyOf(columns, n - 1)|;
    } else {
      c := NonEmptyIsChosen(columns, n - 1, k);
    }
  }

  lemma {:induction false} MaxLengthIs(columns: seq<Column>, n: nat)
    requires n <= |columns|
    ensures forall c: nat :: c < n ==> |columns[c]| <= MaxLengthOf(columns, n)
    ensures MaxLengthOf(columns, n) > 0 ==> exists c: nat :: c < n && |columns[c]| == MaxLengthOf(columns, n)
    decreases n
  {
    if n > 0 {
      MaxLengthIs(columns, n - 1);
    }
  }

  /** As many rows are written as the longest of the written columns has values. */
  lemma LongestIsWritten(columns: seq<Column>) returns (longest: nat)
    requires MaxLength(columns) > 0
    ensures longest < |NonEmpty(columns)| && |NonEmpty(columns)[longest]| == MaxLength(columns)
  {
    MaxLengthIs(columns, |columns|);
    var k: nat :| k < |columns| && |columns[k]| == MaxLength(columns);
    longest := NonEmptyIsChosen(columns, |columns|, k);
  }

  lemma WrittenColumn(columns: seq<Column>, c: nat)
    requires InRange(columns) && NoRepeats(columns) && c < |NonEmpty(SortAll(columns))|
    ensures var col := NonEmpty(SortAll(columns))[c];
            Rising(col, TimeOf) && forall i: nat :: i < |col| ==> col[i].time <= MAX_TIME
  {
    var sorted := SortAll(columns);
    var k := ChosenAreColumns(sorted, |sorted|, c);
    SortRises(columns[k]);
    forall i: nat | i < |sorted[k]|
      ensures sorted[k][i].time <= MAX_TIME
    {
      SortKeeps(columns[k], sorted[k][i]);
    }
  }

  /** For columns without repeated times the merge is given what its laws ask for, empty columns or not. */
  lemma WriterIsReady(columns: seq<Column>) returns (longest: nat)
    requires InRange(columns) && NoRepeats(columns) && MaxLength(SortAll(columns)) > 0
    ensures Ready(NonEmpty(SortAll(columns)), longest, MaxLength(SortAll(columns)))
  {
    longest := LongestIsWritten(SortAll(columns));
    var cols := NonEmpty(SortAll(columns));
    forall c: nat | c < |cols|
      ensures Rising(cols[c], TimeOf) && forall i: nat :: i < |cols[c]| ==> cols[c][i].time <= MAX_TIME
    {
      WrittenColumn(columns, c);
    }
  }

  /** Some column has a value at this time. */
  ghost predicate AnyAt(columns: seq<Column>, t: int) {
    exists c: nat, s: Sample :: c < |columns| && s in columns[c] && s.time == t
  }

  lemma SourceIsColumn(columns: seq<Column>, t: int)
    requires InRange(columns) && NoRepeats(columns)
    ensures HasSource(NonEmpty(SortAll(columns)), t) <==> AnyAt(columns, t)
  {
    var sorted := SortAll(columns);
    var cols := NonEmpty(sorted);
    if c: nat :| c < |cols| && ValueAt(cols[c], t).Some? {
      WrittenColumn(columns, c);
      var s := Sample(t, ValueAt(cols[c], t).value);
      ValueAtIsMember(cols[c], t, s.value);
      var k := ChosenAreColumns(sorted, |sorted|, c);
      SortKeeps(columns[k], s);
      assert s in columns[k];
    }
    if k: nat, s: Sample :| k < |columns| && s in columns[k] && s.time == t {
      SortKeeps(columns[k], s);
      var c := NonEmptyIsChosen(sorted, |sorted|, k);
      WrittenColumn(columns, c);
      ValueAtIsMember(cols[c], t, s.value);
      assert ValueAt(cols[c], t).Some?;
    }
  }

  /** The files of the text writer, one after the other, have strictly rising rows, as many as the longest column has
      values, at exactly the first times that occur in any column. */
  lemma FilesHaveFirstTimes(columns: seq<Column>, files: seq<seq<Row>>, t: int)
    requires InRange(columns) && NoRepeats(columns)
    requires Flatten(files) == Rows(NonEmpty(SortAll(columns)), MaxLength(SortAll(columns)))
    ensures |Flatten(files)| == MaxLength(SortAll(columns)) && RowsRise(Flatten(files))
    ensures Written(Flatten(files), t) <==> AnyAt(columns, t) && !AllBefore(Flatten(files), t)
  {
    if MaxLength(SortAll(columns)) > 0 {
      var cols, n := NonEmpty(SortAll(columns)), MaxLength(SortAll(columns));
      var longest := WriterIsReady(columns);
      TimesRise(cols, longest, n);
      RowsAreFirstTimes(cols, longest, n, t);
      SourceIsColumn(columns, t);
    }
  }

  /** In each row of the files the cell of a written column is its value at that time, or a hole if it has none. */
  lemma FilesHaveValues(columns: seq<Column>, files: seq<seq<Row>>, i: nat, c: nat, v: real)
    requires InRange(columns) && NoRepeats(columns) && i < |Flatten(files)| && c < |NonEmpty(SortAll(columns))|
    requires Flatten(files) == Rows(NonEmpty(SortAll(columns)), MaxLength(SortAll(columns)))
    ensures var row, col := Flatten(files)[i], NonEmpty(SortAll(columns))[c];
            c < |row.cells| && (row.cells[c] == Some(v) <==> Sample(row.time, v) in col)
  {
    var cols, n := NonEmpty(SortAll(columns)), MaxLength(SortAll(columns));
    var longest := WriterIsReady(columns);
    CellsAreValues(cols, longest, n, i, c);
    WrittenColumn(columns, c);
    ValueAtIsMember(cols[c], Rows(cols, n)[i].time, v);
  }
}
