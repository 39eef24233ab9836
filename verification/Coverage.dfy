/** When the rows hold everything: the writer stops after as many rows as the longest column has samples. */
module Coverage {
  import opened Merge
  import opened Series
  import opened Sorting
  import opened TextWriter

  /** How often a column has a time. */
  function CountAt(col: Column, t: int): (n: nat) {
    if col == [] then 0 else (if col[0].time == t then 1 else 0) + CountAt(col[1..], t)
  }

  /** The longest column has every time at least as often as each of the others. */
  ghost predicate Contained(cols: seq<Column>, longest: nat)
    requires longest < |cols|
  {
    forall c: nat, t: int :: c < |cols| ==> CountAt(cols[c], t) <= CountAt(cols[longest], t)
  }

  /** The columns are sorted, and one of them has a sample left for each of `n` rows. */
  ghost predicate Lasting(cols: seq<Column>, longest: nat, n: nat) {
    AllSorted(cols) && InRange(cols) && longest < |cols| && n <= |cols[longest]|
  }

  lemma {:induction false} NoneEarlier(col: Column, t: int)
    requires forall i: nat :: i < |col| ==> t < TimeOf(col[i])
    ensures CountAt(col, t) == 0
  {
    if col != [] {
      NoneEarlier(col[1..], t);
    }
  }

  lemma NotDue(col: Column, t: int)
    requires Sorted(col, TimeOf) && t <= HeadTime(col) && !Due(col, t)
    ensures CountAt(col, t) == 0
  {
    if col != [] {
      assert forall i: nat :: 0 < i < |col| ==> TimeOf(col[0]) <= TimeOf(col[i]);
      NoneEarlier(col, t);
    }
  }

  lemma CountRest(col: Column, t: int, u: int)
    ensures CountAt(Rest(col, t), u) == CountAt(col, u) - if Due(col, t) && u == t then 1 else 0
  {
  }

  lemma LongestIsDue(cols: seq<Column>, longest: nat, n: nat)
    requires Lasting(cols, longest, n) && n > 0 && Contained(cols, longest)
    ensures Due(cols[longest], Earliest(cols))
  {
    var t := Earliest(cols);
    EarliestBelow(cols, |cols|, longest);
    if t < MAX_TIME && !Due(cols[longest], t) {
      NotDue(cols[longest], t);
      var _ := EarliestAttained(cols, |cols|);
    }
  }

  lemma LastingStep(cols: seq<Column>, longest: nat, n: nat)
    requires Lasting(cols, longest, n) && n > 0
    ensures Lasting(Next(cols), longest, n - 1)
  {
    NotEarlier(cols);
  }

  lemma ContainedStep(cols: seq<Column>, longest: nat, n: nat)
    requires Lasting(cols, longest, n) && n > 0 && Contained(cols, longest)
    ensures Contained(Next(cols), longest)
  {
    var t := Earliest(cols);
    LongestIsDue(cols, longest, n);
    forall c: nat, u: int | c < |cols|
      ensures CountAt(Next(cols)[c], u) <= CountAt(Next(cols)[longest], u)
    {
      CountRest(cols[c], t, u);
      CountRest(cols[longest], t, u);
      assert CountAt(cols[c], u) <= CountAt(cols[longest], u);
      if !Due(cols[c], t) {
        EarliestBelow(cols, |cols|, c);
        NotDue(cols[c], t);
      }
    }
  }

  lemma LongestNotEmpty(cols: seq<Column>, longest: nat, c: nat)
    requires longest < |cols| && Contained(cols, longest) && c < |cols|
    ensures cols[c] != [] ==> cols[longest] != []
  {
    if cols[c] != [] {
      var t := cols[c][0].time;
      assert 0 < CountAt(cols[c], t) <= CountAt(cols[longest], t);
    }
  }

  /** If the longest column has all the times, it sets the pace, and all columns end with it. */
  lemma {:induction false} ContainedEnds(cols: seq<Column>, longest: nat, n: nat, c: nat)
    requires Lasting(cols, longest, n) && n == |cols[longest]| && Contained(cols, longest) && c < |cols|
    ensures After(cols, n)[c] == []
    decreases n
  {
    if n == 0 {
      LongestNotEmpty(cols, longest, c);
    } else {
      LongestIsDue(cols, longest, n);
      ContainedStep(cols, longest, n);
      LastingStep(cols, longest, n);
      ContainedEnds(Next(cols), longest, n - 1, c);
    }
  }

  lemma {:induction false} EmittedLength(rows: seq<Row>, c: nat)
    requires Wide(rows, c)
    ensures |Emitted(rows, c)| <= |rows|
    ensures |Emitted(rows, c)| == |rows| ==> forall i: nat :: i < |rows| ==> rows[i].cells[c].Some?
  {
    if rows != [] {
      EmittedLength(rows[1..], c);
    }
  }

  /** How many rows have a time. */
  function RowsAt(rows: seq<Row>, t: int): (n: nat) {
    if rows == [] then 0 else (if rows[0].time == t then 1 else 0) + RowsAt(rows[1..], t)
  }

  lemma {:induction false} EmittedCount(rows: seq<Row>, c: nat, t: int)
    requires Wide(rows, c)
    ensures CountAt(Emitted(rows, c), t) <= RowsAt(rows, t)
    ensures (forall i: nat :: i < |rows| ==> rows[i].cells[c].Some?) ==>
              CountAt(Emitted(rows, c), t) == RowsAt(rows, t)
  {
    if rows != [] {
      EmittedCount(rows[1..], c, t);
      var rest := Emitted(rows[1..], c);
      if rows[0].cells[c].Some? {
        assert Emitted(rows, c)[1..] == rest;
      } else {
        assert Emitted(rows, c) == rest;
      }
    }
  }

  /** The rows hold the whole of every column if and only if the longest column has all their times. */
  lemma WholeIff(cols: seq<Column>, longest: nat, n: nat)
    requires Lasting(cols, longest, n) && n == |cols[longest]|
    ensures forall c: nat :: c < |cols| ==> Wide(Rows(cols, n), c)
    ensures (forall c: nat :: c < |cols| ==> Emitted(Rows(cols, n), c) == cols[c]) <==> Contained(cols, longest)
  {
    var rows := Rows(cols, n);
    RowsWidth(cols, n);
    if Contained(cols, longest) {
      forall c: nat | c < |cols|
        ensures Emitted(rows, c) == cols[c]
      {
        ContainedEnds(cols, longest, n, c);
        EmittedThenRest(cols, n, c);
      }
    }
    if forall c: nat :: c < |cols| ==> Emitted(rows, c) == cols[c] {
      EmittedLength(rows, longest);
      forall c: nat, t: int | c < |cols|
        ensures CountAt(cols[c], t) <= CountAt(cols[longest], t)
      {
        EmittedCount(rows, c, t);
        EmittedCount(rows, longest, t);
      }
    }
  }

  lemma {:induction false} CountOfRising(col: Column, t: int)
    requires Rising(col, TimeOf)
    ensures CountAt(col, t) == if exists i: nat :: i < |col| && col[i].time == t then 1 else 0
  {
    if col != [] {
      var rest := col[1..];
      assert Rising(rest, TimeOf);
      CountOfRising(rest, t);
      assert forall i: nat :: i < |rest| ==> rest[i] == col[i + 1] && TimeOf(col[0]) < TimeOf(col[i + 1]);
      if i: nat :| i < |col| && col[i].time == t {
        assert i > 0 ==> rest[i - 1].time == t;
      }
    }
  }

  ghost predicate HasTime(col: Column, t: int) {
    exists i: nat :: i < |col| && col[i].time == t
  }

  /** In columns without repeated times, to have them as often is to have them. */
  lemma ContainedTimes(cols: seq<Column>, longest: nat)
    requires AllRising(cols) && longest < |cols|
    ensures Contained(cols, longest)
       <==> forall c: nat, t: int :: c < |cols| && HasTime(cols[c], t) ==> HasTime(cols[longest], t)
  {
    forall c: nat, t: int | c < |cols|
      ensures CountAt(cols[c], t) == if HasTime(cols[c], t) then 1 else 0
    {
      CountOfRising(cols[c], t);
    }
  }
}
