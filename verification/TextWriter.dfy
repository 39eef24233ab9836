/** The text writer: merged rows, rolled over from file to file. */
module TextWriter {
  import opened Merge
  import opened Series
  import opened Sorting
  import opened Wrappers

  /** What is left of the columns from the given rows on. */
  function Left(cols: seq<Column>, at: seq<nat>): (left: seq<Column>)
    requires |at| == |cols| && forall c: nat :: c < |cols| ==> at[c] <= |cols[c]|
  {
    seq(|cols|, c requires 0 <= c < |cols| => cols[c][at[c]..])
  }

  function SortAll(cols: seq<Column>): (sorted: seq<Column>) {
    seq(|cols|, c requires 0 <= c < |cols| => Sort(cols[c], TimeOf))
  }

  function NonEmptyOf(cols: seq<Column>, n: nat): (r: seq<Column>)
    requires n <= |cols|
    decreases n
  {
    if n == 0 then [] else NonEmptyOf(cols, n - 1) + if cols[n - 1] == [] then [] else [cols[n - 1]]
  }

  /** The columns that are written. */
  function NonEmpty(cols: seq<Column>): (r: seq<Column>) {
    NonEmptyOf(cols, |cols|)
  }

  function MaxLengthOf(cols: seq<Column>, n: nat): (m: nat)
    requires n <= |cols|
    decreases n
  {
    if n == 0 then 0
    else
      var m, last := MaxLengthOf(cols, n - 1), |cols[n - 1]|;
      if m < last then last else m
  }

  function MaxLength(cols: seq<Column>): (m: nat) {
    MaxLengthOf(cols, |cols|)
  }

  function Flatten(files: seq<seq<Row>>): (rows: seq<Row>) {
    if files == [] then [] else Flatten(files[..|files| - 1]) + files[|files| - 1]
  }

  /** All rows of a file lie in the period that its first row opens. */
  ghost predicate InPeriod(file: seq<Row>, next: int -> int) {
    file != [] && forall i: nat :: i < |file| ==> file[0].time <= file[i].time < next(file[0].time)
  }

  /** Each file covers its period, and every later file opens after it. */
  ghost predicate RolledOver(files: seq<seq<Row>>, next: int -> int) {
    && (forall f: nat :: f < |files| ==> InPeriod(files[f], next))
    && (forall f: nat, g: nat :: f < g < |files| ==> next(files[f][0].time) <= files[g][0].time)
  }

  ghost predicate Within(cols: seq<Column>, at: seq<nat>) {
    |at| == |cols| && forall c: nat :: c < |cols| ==> at[c] <= |cols[c]|
  }

  /** The minimum over the columns that are not finished. */
  method EarliestTime(cols: seq<Column>, rows: array<nat>) returns (t: int)
    requires Within(cols, rows[..])
    ensures t == Earliest(Left(cols, rows[..]))
  {
    t := MAX_TIME;
    ghost var left := Left(cols, rows[..]);
    for col := 0 to |cols|
      invariant t == EarliestOf(left, col)
    {
      assert HeadTime(left[col]) == if rows[col] < |cols[col]| then cols[col][rows[col]].time else MAX_TIME;
      if rows[col] < |cols[col]| {
        t := if cols[col][rows[col]].time < t then cols[col][rows[col]].time else t;
      }
    }
  }

  /** One row: the values of the columns that are due, and a hole for each of the others. */
  method EmitRow(cols: seq<Column>, rows: array<nat>, t: int) returns (row: Row)
    requires Within(cols, rows[..])
    modifies rows
    ensures Within(cols, rows[..])
    ensures row == Row(t, Cells(Left(cols, old(rows[..])), t))
    ensures Left(cols, rows[..]) == Advance(Left(cols, old(rows[..])), t)
  {
    var cells := [];
    ghost var before := rows[..];
    ghost var left := Left(cols, before);
    for col := 0 to |cols|
      invariant Within(cols, rows[..])
      invariant cells == Cells(left, t)[..col]
      invariant forall c: nat :: c < col ==> cols[c][rows[c]..] == Rest(left[c], t)
      invariant forall c: nat :: col <= c < |cols| ==> rows[c] == before[c]
    {
      if rows[col] < |cols[col]| {
        if cols[col][rows[col]].time == t {
          cells := cells + [Some(cols[col][rows[col]].value)];
          rows[col] := rows[col] + 1;
        } else {
          cells := cells + [None];
        }
      } else {
        cells := cells + [None];
      }
    }
    row := Row(t, cells);
  }

  lemma RowsStep(cols: seq<Column>, n: nat)
    ensures Rows(cols, n + 1)
         == Rows(cols, n) + [Row(Earliest(After(cols, n)), Cells(After(cols, n), Earliest(After(cols, n))))]
    ensures After(cols, n + 1) == Advance(After(cols, n), Earliest(After(cols, n)))
  {
    RowsSplit(cols, n);
  }

  lemma SortedRest(col: Column, t: int)
    requires Sorted(col, TimeOf) && t <= HeadTime(col)
    ensures Sorted(Rest(col, t), TimeOf) && (Rest(col, t) != [] ==> t <= Rest(col, t)[0].time)
  {
    if |col| > 1 {
      assert TimeOf(col[0]) <= TimeOf(col[1]);
    }
  }

  /** In sorted columns no row comes before an earlier one. */
  lemma NotEarlier(cols: seq<Column>)
    requires AllSorted(cols)
    ensures AllSorted(Advance(cols, Earliest(cols)))
    ensures Earliest(cols) <= Earliest(Advance(cols, Earliest(cols)))
  {
    var t := Earliest(cols);
    var rest := Advance(cols, t);
    forall c: nat | c < |cols|
      ensures Sorted(rest[c], TimeOf) && t <= HeadTime(rest[c])
    {
      EarliestBelow(cols, |cols|, c);
      SortedRest(cols[c], t);
    }
    if Earliest(rest) < MAX_TIME {
      var c := EarliestAttained(rest, |rest|);
      assert t <= HeadTime(rest[c]);
    }
  }

  lemma {:induction false} AfterSorted(cols: seq<Column>, n: nat)
    requires AllSorted(cols)
    ensures AllSorted(After(cols, n))
    decreases n
  {
    if n > 0 {
      NotEarlier(cols);
      AfterSorted(Advance(cols, Earliest(cols)), n - 1);
    }
  }

  lemma FlattenAppend(files: seq<seq<Row>>, row: Row)
    ensures Flatten(files + [[row]]) == Flatten(files) + [row]
    ensures files != [] ==>
              Flatten(files[|files| - 1 := files[|files| - 1] + [row]]) == Flatten(files) + [row]
  {
    assert (files + [[row]])[..|files|] == files;
    if files != [] {
      var last := |files| - 1;
      assert files[last := files[last] + [row]][..last] == files[..last];
    }
  }

  lemma NewFile(files: seq<seq<Row>>, row: Row, next: int -> int)
    requires RolledOver(files, next) && row.time < next(row.time)
    requires files != [] ==> next(files[|files| - 1][0].time) <= row.time
    ensures RolledOver(files + [[row]], next)
  {
    var longer: seq<seq<Row>> := files + [[row]];
    forall f: nat, g: nat | f < g < |longer|
      ensures next(longer[f][0].time) <= longer[g][0].time
    {
      if g == |files| && f < |files| - 1 {
        assert next(files[f][0].time) <= files[|files| - 1][0].time;
        assert InPeriod(files[|files| - 1], next);
      }
    }
  }

  lemma SameFile(files: seq<seq<Row>>, row: Row, next: int -> int)
    requires RolledOver(files, next) && files != []
    requires files[|files| - 1][0].time <= row.time < next(files[|files| - 1][0].time)
    ensures RolledOver(files[|files| - 1 := files[|files| - 1] + [row]], next)
  {
    var last := |files| - 1;
    var longer := files[last] + [row];
    assert InPeriod(longer, next);
  }

  /** `std::sort` on each column in place. The writers sort a column just before they look at its ends. */
  method SortColumns(columns: array<Column>)
    modifies columns
    ensures columns[..] == SortAll(old(columns[..]))
  {
    for i := 0 to columns.Length
      invariant forall c: nat :: c < columns.Length ==>
                  columns[c] == if c < i then Sort(old(columns[c]), TimeOf) else old(columns[c])
    {
      columns[i] := Sort(columns[i], TimeOf);
    }
  }

  /** Sorts the columns, picks out those that are written, and finds the earliest time and the longest column. */
  method Prepare(columns: array<Column>) returns (cols: seq<Column>, first: int, maxLength: nat)
    modifies columns
    ensures columns[..] == SortAll(old(columns[..]))
    ensures cols == NonEmpty(columns[..]) && maxLength == MaxLength(columns[..])
    ensures first == Earliest(columns[..])
  {
    SortColumns(columns);
    cols, first, maxLength := Summary(columns[..]);
  }

  method Summary(sorted: seq<Column>) returns (cols: seq<Column>, first: int, maxLength: nat)
    ensures cols == NonEmpty(sorted) && maxLength == MaxLength(sorted) && first == Earliest(sorted)
  {
    cols, first, maxLength := [], MAX_TIME, 0;
    for i := 0 to |sorted|
      invariant cols == NonEmptyOf(sorted, i)
      invariant maxLength == MaxLengthOf(sorted, i)
      invariant first == EarliestOf(sorted, i)
    {
      var col := sorted[i];
      if col != [] {
        first := if col[0].time < first then col[0].time else first;
        cols := cols + [col];
      } else {
        assert cols + [] == cols;
      }
      maxLength := if maxLength < |col| then |col| else maxLength;
    }
  }

  lemma {:induction false} NonEmptyKeeps(cols: seq<Column>, n: nat)
    requires AllSorted(cols) && n <= |cols|
    ensures AllSorted(NonEmptyOf(cols, n))
    ensures forall c: nat :: c < |NonEmptyOf(cols, n)| ==> NonEmptyOf(cols, n)[c] != []
    decreases n
  {
    if n > 0 {
      NonEmptyKeeps(cols, n - 1);
    }
  }

  lemma SortAllSorts(cols: seq<Column>)
    ensures AllSorted(SortAll(cols))
  {
    forall c: nat | c < |cols|
      ensures Sorted(SortAll(cols)[c], TimeOf)
    {
      SortProperties(cols[c], TimeOf);
    }
  }

  /** The row indices stand where `n` rows of the merge have left them. */
  ghost predicate Stands(cols: seq<Column>, at: seq<nat>, n: nat) {
    Within(cols, at) && Left(cols, at) == After(cols, n)
  }

  lemma WrittenSorted(columns: seq<Column>)
    ensures AllSorted(NonEmpty(SortAll(columns)))
  {
    SortAllSorts(columns);
    NonEmptyKeeps(SortAll(columns), |columns|);
  }

  /** One turn of the row loop. */
  method NextRow(cols: seq<Column>, rows: array<nat>, ghost n: nat) returns (r: Row)
    requires AllSorted(cols) && Stands(cols, rows[..], n)
    modifies rows
    ensures Stands(cols, rows[..], n + 1)
    ensures Rows(cols, n + 1) == Rows(cols, n) + [r]
    ensures r.time == Earliest(After(cols, n)) <= Earliest(After(cols, n + 1))
  {
    var currentTime := EarliestTime(cols, rows);
    RowsStep(cols, n);
    AfterSorted(cols, n);
    NotEarlier(After(cols, n));
    r := EmitRow(cols, rows, currentTime);
  }

  /** The time of the first row of the last file. */
  function LastStart(files: seq<seq<Row>>): int {
    if files != [] && files[|files| - 1] != [] then files[|files| - 1][0].time else MAX_TIME
  }

  /** A row opens a new file if it is the first one, or has reached the end of the period. */
  method PutRow(files0: seq<seq<Row>>, r: Row, fileEndTime0: int, isFirst: bool, next: int -> int)
    returns (files: seq<seq<Row>>, fileEndTime: int)
    requires RolledOver(files0, next) && r.time < next(r.time)
    requires isFirst <==> files0 == []
    requires !isFirst ==> LastStart(files0) <= r.time && fileEndTime0 == next(LastStart(files0))
    ensures RolledOver(files, next) && Flatten(files) == Flatten(files0) + [r]
    ensures files != [] && fileEndTime == next(LastStart(files)) && LastStart(files) <= r.time
  {
    FlattenAppend(files0, r);
    if r.time >= fileEndTime0 || isFirst {
      NewFile(files0, r, next);
      files, fileEndTime := files0 + [[r]], next(r.time);
    } else {
      SameFile(files0, r, next);
      files, fileEndTime := files0[|files0| - 1 := files0[|files0| - 1] + [r]], fileEndTime0;
    }
  }

  /** The row loop over the sorted columns. */
  method WriteRows(cols: seq<Column>, first: int, maxLength: nat, next: int -> int) returns (files: seq<seq<Row>>)
    requires AllSorted(cols) && forall t: int :: t < next(t)
    ensures Flatten(files) == Rows(cols, maxLength) && RolledOver(files, next)
  {
    files := [];
    var rows := new nat[|cols|](_ => 0);
    assert Left(cols, rows[..]) == cols;
    var fileEndTime := next(first);
    for row := 0 to maxLength
      invariant Stands(cols, rows[..], row)
      invariant Flatten(files) == Rows(cols, row) && RolledOver(files, next)
      invariant row == 0 <==> files == []
      invariant row > 0 ==> fileEndTime == next(LastStart(files))
      invariant row > 0 ==> LastStart(files) <= Earliest(After(cols, row))
    {
      var r := NextRow(cols, rows, row);
      files, fileEndTime := PutRow(files, r, fileEndTime, row == 0, next);
    }
  }

  /** `write_txt_file`: the rows of each file that is written. `next` is `get_next_tp` of the period. */
  method WriteTxt(columns: array<Column>, next: int -> int) returns (files: seq<seq<Row>>)
    requires forall t: int :: t < next(t)
    modifies columns
    ensures columns[..] == SortAll(old(columns[..]))
    ensures Flatten(files) == Rows(NonEmpty(columns[..]), MaxLength(columns[..]))
    ensures forall f: nat :: f < |files| ==> files[f] != []
    ensures forall f: nat, i: nat :: f < |files| && i < |files[f]| ==>
              files[f][0].time <= files[f][i].time < next(files[f][0].time)
    ensures forall f: nat, g: nat :: f < g < |files| ==> next(files[f][0].time) <= files[g][0].time
  {
    var cols, first, maxLength := Prepare(columns);
    WrittenSorted(old(columns[..]));
    files := WriteRows(cols, first, maxLength, next);
    assert forall f: nat :: f < |files| ==> InPeriod(files[f], next);
  }
}
