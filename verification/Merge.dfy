/** Merging sorted columns into rows: at each row the earliest time that is still unwritten. */
module Merge {
  import opened Series
  import opened Sorting
  import opened Wrappers

  datatype Row = Row(time: int, cells: seq<Option<real>>)

  /** `utc_tp::max()` in nanoseconds */
  const MAX_TIME: int := 0x7FFF_FFFF_FFFF_FFFF

  function TimeOf(s: Sample): int {
    s.time
  }

  function HeadTime(col: Column): int {
    if col == [] then MAX_TIME else col[0].time
  }

  /** The minimum over the first `n` columns, from the sentinel down. */
  function EarliestOf(cols: seq<Column>, n: nat): (t: int)
    requires n <= |cols|
    ensures t <= MAX_TIME
    decreases n
  {
    if n == 0 then MAX_TIME
    else
      var t, h := EarliestOf(cols, n - 1), HeadTime(cols[n - 1]);
      if h < t then h else t
  }

  function Earliest(cols: seq<Column>): (t: int)
    ensures t <= MAX_TIME
  {
    EarliestOf(cols, |cols|)
  }

  lemma {:induction false} EarliestBelow(cols: seq<Column>, n: nat, c: nat)
    requires c < n <= |cols|
    ensures EarliestOf(cols, n) <= HeadTime(cols[c])
    decreases n
  {
    if c < n - 1 {
      EarliestBelow(cols, n - 1, c);
    }
  }

  lemma {:induction false} EarliestAttained(cols: seq<Column>, n: nat) returns (c: nat)
    requires n <= |cols| && EarliestOf(cols, n) < MAX_TIME
    ensures c < n && cols[c] != [] && cols[c][0].time == EarliestOf(cols, n)
    decreases n
  {
    if EarliestOf(cols, n) == HeadTime(cols[n - 1]) {
      c := n - 1;
    } else {
      c := EarliestAttained(cols, n - 1);
    }
  }

  predicate Due(col: Column, t: int) {
    col != [] && col[0].time == t
  }

  function Cell(col: Column, t: int): Option<real> {
    if Due(col, t) then Some(col[0].value) else None
  }

  function Rest(col: Column, t: int): Column {
    if Due(col, t) then col[1..] else col
  }

  function Cells(cols: seq<Column>, t: int): (cells: seq<Option<real>>) {
    seq(|cols|, c requires 0 <= c < |cols| => Cell(cols[c], t))
  }

  function Advance(cols: seq<Column>, t: int): (rest: seq<Column>) {
    seq(|cols|, c requires 0 <= c < |cols| => Rest(cols[c], t))
  }

  /** The first `n` rows. */
  function Rows(cols: seq<Column>, n: nat): (rows: seq<Row>)
    ensures |rows| == n
    decreases n
  {
    if n == 0 then []
    else
      var t := Earliest(cols);
      [Row(t, Cells(cols, t))] + Rows(Advance(cols, t), n - 1)
  }

  /** What is left of the columns after `n` rows. */
  function After(cols: seq<Column>, n: nat): (rest: seq<Column>)
    ensures |rest| == |cols|
    decreases n
  {
    if n == 0 then cols else After(Advance(cols, Earliest(cols)), n - 1)
  }

  predicate Wide(rows: seq<Row>, c: nat) {
    forall i: nat :: i < |rows| ==> c < |rows[i].cells|
  }

  /** The series that the rows hold for column `c`. */
  function Emitted(rows: seq<Row>, c: nat): (col: Column)
    requires Wide(rows, c)
  {
    if rows == [] then []
    else (if rows[0].cells[c].Some? then [Sample(rows[0].time, rows[0].cells[c].value)] else []) + Emitted(rows[1..], c)
  }

  lemma {:induction false} RowsWidth(cols: seq<Column>, n: nat)
    ensures forall i: nat :: i < n ==> |Rows(cols, n)[i].cells| == |cols|
    decreases n
  {
    if n > 0 {
      RowsWidth(Advance(cols, Earliest(cols)), n - 1);
    }
  }

  lemma {:induction false} RowsSplit(cols: seq<Column>, n: nat)
    ensures Rows(cols, n + 1) == Rows(cols, n) + Rows(After(cols, n), 1)
    ensures After(cols, n + 1) == After(After(cols, n), 1)
    decreases n
  {
    if n > 0 {
      RowsSplit(Advance(cols, Earliest(cols)), n - 1);
    }
  }

  lemma EmittedCons(row: Row, rows: seq<Row>, c: nat)
    requires c < |row.cells| && Wide(rows, c)
    ensures Emitted([row] + rows, c)
         == (if row.cells[c].Some? then [Sample(row.time, row.cells[c].value)] else []) + Emitted(rows, c)
  {
    assert ([row] + rows)[1..] == rows;
  }

  lemma CellThenRest(col: Column, t: int, emitted: Column, left: Column)
    requires emitted + left == Rest(col, t)
    ensures (if Cell(col, t).Some? then [Sample(t, Cell(col, t).value)] else []) + emitted + left == col
  {
  }

  /** Each column is written in order and once: what the rows hold of it and what is left make it up. */
  lemma {:induction false} EmittedThenRest(cols: seq<Column>, n: nat, c: nat)
    requires c < |cols|
    ensures Wide(Rows(cols, n), c)
    ensures Emitted(Rows(cols, n), c) + After(cols, n)[c] == cols[c]
    decreases n
  {
    RowsWidth(cols, n);
    if n > 0 {
      var t := Earliest(cols);
      var rest := Advance(cols, t);
      RowsWidth(rest, n - 1);
      EmittedThenRest(rest, n - 1, c);
      EmittedCons(Row(t, Cells(cols, t)), Rows(rest, n - 1), c);
      CellThenRest(cols[c], t, Emitted(Rows(rest, n - 1), c), After(rest, n - 1)[c]);
    }
  }

  /** A column loses at most one sample a row, so the longest one lasts. */
  lemma {:induction false} RestIsLong(cols: seq<Column>, n: nat, c: nat)
    requires c < |cols|
    ensures |After(cols, n)[c]| >= |cols[c]| - n
    decreases n
  {
    if n > 0 {
      RestIsLong(Advance(cols, Earliest(cols)), n - 1, c);
    }
  }

  ghost predicate InRange(cols: seq<Column>) {
    forall c: nat, i: nat :: c < |cols| && i < |cols[c]| ==> cols[c][i].time <= MAX_TIME
  }

  lemma SomeoneIsFirst(cols: seq<Column>, longest: nat) returns (c: nat)
    requires InRange(cols) && longest < |cols| && cols[longest] != []
    ensures c < |cols| && cols[c] != [] && cols[c][0].time == Earliest(cols)
  {
    EarliestBelow(cols, |cols|, longest);
    c := longest;
    if Earliest(cols) < MAX_TIME {
      c := EarliestAttained(cols, |cols|);
    }
  }

  ghost predicate AllRising(cols: seq<Column>) {
    forall c: nat :: c < |cols| ==> Rising(cols[c], TimeOf)
  }

  ghost predicate AllSorted(cols: seq<Column>) {
    forall c: nat :: c < |cols| ==> Sorted(cols[c], TimeOf)
  }

  /** The value a column has at a time. */
  function ValueAt(col: Column, t: int): Option<real> {
    if col == [] then None else if col[0].time == t then Some(col[0].value) else ValueAt(col[1..], t)
  }

  lemma {:induction false} ValueAtIsMember(col: Column, t: int, v: real)
    requires Rising(col, TimeOf)
    ensures ValueAt(col, t) == Some(v) <==> Sample(t, v) in col
  {
    if col != [] {
      assert Rising(col[1..], TimeOf);
      ValueAtIsMember(col[1..], t, v);
      assert Sample(t, v) in col <==> Sample(t, v) == col[0] || Sample(t, v) in col[1..];
      if Sample(t, v) in col[1..] {
        assert TimeOf(col[0]) < t;
      }
    }
  }

  lemma StepColumn(col: Column, t: int)
    requires Rising(col, TimeOf) && t <= HeadTime(col)
    ensures Rising(Rest(col, t), TimeOf) && Cell(col, t) == ValueAt(col, t)
    ensures forall s :: s in Rest(col, t) ==> t < s.time
  {
    if col != [] {
      assert forall i: nat :: 0 < i < |col| ==> TimeOf(col[0]) < TimeOf(col[i]);
      if col[0].time != t {
        NoValueBefore(col, t);
      }
    }
  }

  lemma {:induction false} NoValueBefore(col: Column, t: int)
    requires forall i: nat :: i < |col| ==> t != col[i].time
    ensures ValueAt(col, t) == None
  {
    if col != [] {
      NoValueBefore(col[1..], t);
    }
  }

  /** Later lookups do not see what a row has taken. */
  lemma LaterValue(col: Column, t: int, u: int)
    ensures t < u ==> ValueAt(Rest(col, t), u) == ValueAt(col, u)
  {
  }

  ghost predicate RowsRise(rows: seq<Row>) {
    forall i: nat, j: nat :: i < j < |rows| ==> rows[i].time < rows[j].time
  }

  ghost predicate Written(rows: seq<Row>, t: int) {
    exists i: nat :: i < |rows| && rows[i].time == t
  }

  ghost predicate AllBefore(rows: seq<Row>, t: int) {
    forall i: nat :: i < |rows| ==> rows[i].time < t
  }

  /** A cell is the column's value at the time of the row, or none. */
  ghost predicate CellIs(row: Row, c: nat, col: Column) {
    c < |row.cells| && row.cells[c] == ValueAt(col, row.time)
  }

  /** Some column has a value at this time. */
  ghost predicate HasSource(cols: seq<Column>, t: int) {
    exists c: nat :: c < |cols| && ValueAt(cols[c], t).Some?
  }

  /** The columns rise in time, and one of them has a sample left for each of `n` rows. */
  ghost predicate Ready(cols: seq<Column>, longest: nat, n: nat) {
    AllRising(cols) && InRange(cols) && longest < |cols| && n <= |cols[longest]|
  }

  function Next(cols: seq<Column>): (rest: seq<Column>)
    ensures |rest| == |cols|
    ensures forall c: nat :: c < |cols| ==> rest[c] == Rest(cols[c], Earliest(cols))
  {
    Advance(cols, Earliest(cols))
  }

  function FirstRow(cols: seq<Column>): (row: Row)
    ensures row.time == Earliest(cols) && |row.cells| == |cols|
    ensures forall c: nat :: c < |cols| ==> row.cells[c] == Cell(cols[c], Earliest(cols))
  {
    Row(Earliest(cols), Cells(cols, Earliest(cols)))
  }

  lemma RowsUnfold(cols: seq<Column>, n: nat)
    ensures n > 0 ==> Rows(cols, n) == [FirstRow(cols)] + Rows(Next(cols), n - 1)
  {
  }

  lemma RowAt(cols: seq<Column>, n: nat, i: nat)
    ensures i == 0 < n ==> Rows(cols, n)[i] == FirstRow(cols)
    ensures 0 < i < n ==> Rows(cols, n)[i] == Rows(Next(cols), n - 1)[i - 1]
  {
  }

  lemma StepReady(cols: seq<Column>, longest: nat, n: nat)
    requires Ready(cols, longest, n) && n > 0
    ensures Ready(Next(cols), longest, n - 1)
  {
    forall c: nat | c < |cols|
      ensures Rising(Next(cols)[c], TimeOf)
      ensures forall i: nat :: i < |Next(cols)[c]| ==> Next(cols)[c][i].time <= MAX_TIME
    {
      EarliestBelow(cols, |cols|, c);
      StepColumn(cols[c], Earliest(cols));
    }
  }

  lemma StepLater(cols: seq<Column>, longest: nat, n: nat)
    requires Ready(cols, longest, n) && n > 1
    ensures Earliest(cols) < Earliest(Next(cols))
  {
    var t, rest := Earliest(cols), Next(cols);
    if Earliest(rest) == MAX_TIME {
      EarliestBelow(cols, |cols|, longest);
      StepColumn(cols[longest], t);
      assert rest[longest][0] in rest[longest] && rest[longest][0].time <= MAX_TIME by { StepReady(cols, longest, n); }
    } else {
      var c := EarliestAttained(rest, |rest|);
      EarliestBelow(cols, |cols|, c);
      StepColumn(cols[c], t);
      assert rest[c][0] in rest[c];
    }
  }

  lemma {:induction false} RowAfterFirst(cols: seq<Column>, longest: nat, n: nat, i: nat)
    requires Ready(cols, longest, n) && 0 < i < n
    ensures Earliest(cols) < Rows(cols, n)[i].time
    decreases n
  {
    RowsUnfold(cols, n);
    StepReady(cols, longest, n);
    StepLater(cols, longest, n);
    RowsUnfold(Next(cols), n - 1);
    if i > 1 {
      RowAfterFirst(Next(cols), longest, n - 1, i - 1);
    }
  }

  lemma RiseCons(row: Row, tail: seq<Row>)
    requires RowsRise(tail) && (tail != [] ==> row.time < tail[0].time)
    ensures RowsRise([row] + tail)
  {
    forall j: nat | j < |tail|
      ensures row.time < tail[j].time
    {
      assert j > 0 ==> tail[0].time < tail[j].time;
    }
  }

  /** The row times strictly rise. */
  lemma {:induction false} TimesRise(cols: seq<Column>, longest: nat, n: nat)
    requires Ready(cols, longest, n)
    ensures RowsRise(Rows(cols, n))
    decreases n
  {
    if n > 0 {
      StepReady(cols, longest, n);
      TimesRise(Next(cols), longest, n - 1);
      if n > 1 {
        StepLater(cols, longest, n);
        RowsUnfold(Next(cols), n - 1);
      }
      RowsUnfold(cols, n);
      RiseCons(FirstRow(cols), Rows(Next(cols), n - 1));
    }
  }

  /** The minimum is the time of a sample, never the bare sentinel. */
  lemma SomeoneDue(cols: seq<Column>, longest: nat)
    requires InRange(cols) && longest < |cols| && cols[longest] != []
    ensures HasSource(cols, Earliest(cols))
  {
    var t := Earliest(cols);
    if t == MAX_TIME {
      EarliestBelow(cols, |cols|, longest);
      assert ValueAt(cols[longest], t).Some?;
    } else {
      var c := EarliestAttained(cols, |cols|);
      assert ValueAt(cols[c], t).Some?;
    }
  }

  lemma SourceBefore(cols: seq<Column>, u: int)
    requires HasSource(Next(cols), u) && Earliest(cols) < u
    ensures HasSource(cols, u)
  {
    var c: nat :| c < |cols| && ValueAt(Next(cols)[c], u).Some?;
    LaterValue(cols[c], Earliest(cols), u);
  }

  lemma {:induction false} TimesHaveSource(cols: seq<Column>, longest: nat, n: nat, i: nat)
    requires Ready(cols, longest, n) && i < n
    ensures HasSource(cols, Rows(cols, n)[i].time)
    decreases n
  {
    RowAt(cols, n, i);
    if i == 0 {
      SomeoneDue(cols, longest);
    } else {
      var u := Rows(cols, n)[i].time;
      assert HasSource(Next(cols), u) by {
        StepReady(cols, longest, n);
        TimesHaveSource(Next(cols), longest, n - 1, i - 1);
      }
      RowAfterFirst(cols, longest, n, i);
      SourceBefore(cols, u);
    }
  }

  lemma FirstCell(cols: seq<Column>, c: nat)
    requires c < |cols| && Rising(cols[c], TimeOf)
    ensures CellIs(FirstRow(cols), c, cols[c])
  {
    EarliestBelow(cols, |cols|, c);
    StepColumn(cols[c], Earliest(cols));
  }

  /** Every cell is the column's value at the time of its row, or none. */
  lemma {:induction false} CellsAreValues(cols: seq<Column>, longest: nat, n: nat, i: nat, c: nat)
    requires Ready(cols, longest, n) && i < n && c < |cols|
    ensures CellIs(Rows(cols, n)[i], c, cols[c])
    decreases n
  {
    RowAt(cols, n, i);
    if i == 0 {
      FirstCell(cols, c);
    } else {
      StepReady(cols, longest, n);
      CellsAreValues(Next(cols), longest, n - 1, i - 1, c);
      RowAfterFirst(cols, longest, n, i);
      LaterValue(cols[c], Earliest(cols), Rows(cols, n)[i].time);
    }
  }

  /** The rows do not skip the time: one of them has it, or all come before it. */
  ghost predicate Accounted(rows: seq<Row>, t: int) {
    Written(rows, t) || AllBefore(rows, t)
  }

  lemma AccountedCons(row: Row, tail: seq<Row>, t: int)
    requires row.time == t || (row.time < t && Accounted(tail, t))
    ensures Accounted([row] + tail, t)
  {
    var rows := [row] + tail;
    if row.time == t {
      assert rows[0].time == t;
    } else if Written(tail, t) {
      var i: nat :| i < |tail| && tail[i].time == t;
      assert rows[i + 1].time == t;
    }
  }

  lemma AccountedFirst(cols: seq<Column>, n: nat, t: int)
    requires n > 0
    requires t == Earliest(cols) || (Earliest(cols) < t && Accounted(Rows(Next(cols), n - 1), t))
    ensures Accounted(Rows(cols, n), t)
  {
    RowsUnfold(cols, n);
    AccountedCons(FirstRow(cols), Rows(Next(cols), n - 1), t);
  }

  lemma StillThere(cols: seq<Column>, c: nat, s: Sample)
    requires c < |cols| && Rising(cols[c], TimeOf) && s in cols[c] && s.time != Earliest(cols)
    ensures s in Next(cols)[c] && Earliest(cols) < s.time
  {
    EarliestBelow(cols, |cols|, c);
    StepColumn(cols[c], Earliest(cols));
  }

  /** No time is passed over: each time of a column is the time of a row, or comes after all of them. */
  lemma {:induction false} NothingSkipped(cols: seq<Column>, longest: nat, n: nat, c: nat, s: Sample)
    requires Ready(cols, longest, n) && c < |cols| && s in cols[c]
    ensures Accounted(Rows(cols, n), s.time)
    decreases n
  {
    if n > 0 {
      var next := Next(cols);
      if s.time != Earliest(cols) {
        StillThere(cols, c, s);
        StepReady(cols, longest, n);
        NothingSkipped(next, longest, n - 1, c, s);
      }
      AccountedFirst(cols, n, s.time);
    }
  }

  /** The rows have exactly the first times of the union of all columns: a time is written if and only if some column
      has it and it does not come after all rows. */
  lemma RowsAreFirstTimes(cols: seq<Column>, longest: nat, n: nat, t: int)
    requires Ready(cols, longest, n)
    ensures Written(Rows(cols, n), t) <==> HasSource(cols, t) && !AllBefore(Rows(cols, n), t)
  {
    if i: nat :| i < n && Rows(cols, n)[i].time == t {
      TimesHaveSource(cols, longest, n, i);
    }
    if c: nat :| c < |cols| && ValueAt(cols[c], t).Some? {
      ValueAtIsMember(cols[c], t, ValueAt(cols[c], t).value);
      NothingSkipped(cols, longest, n, c, Sample(t, ValueAt(cols[c], t).value));
    }
  }
}
