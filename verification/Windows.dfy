/** The JSON and binary writers: one file for each window of time, from the earliest first sample on. */
module Windows {
  import opened Merge
  import opened Series
  import opened Sorting
  import opened TextWriter

  /** `utc_tp::min()` in nanoseconds */
  const MIN_TIME: int := -0x8000_0000_0000_0000

  /** `std::lower_bound`: the first sample not before `t`. */
  function LowerBound(col: Column, t: int): (i: nat)
    ensures i <= |col|
  {
    if col == [] || col[0].time >= t then 0 else 1 + LowerBound(col[1..], t)
  }

  /** `std::upper_bound`: the first sample after `t`. */
  function UpperBound(col: Column, t: int): (i: nat)
    ensures i <= |col|
  {
    if col == [] || col[0].time > t then 0 else 1 + UpperBound(col[1..], t)
  }

  /** The samples from `lower` to `upper`, both included. */
  function Between(col: Column, lower: int, upper: int): (r: Column) {
    if col == [] then []
    else
      var rest := Between(col[1..], lower, upper);
      if lower <= col[0].time <= upper then [col[0]] + rest else rest
  }

  lemma {:induction false} NoneAfter(col: Column, lower: int, upper: int)
    requires Sorted(col, TimeOf) && (col != [] ==> upper < col[0].time)
    ensures Between(col, lower, upper) == []
  {
    if col != [] {
      assert forall i: nat :: 0 < i < |col| ==> TimeOf(col[0]) <= TimeOf(col[i]);
      NoneAfter(col[1..], lower, upper);
    }
  }

  /** In a sorted column the two searches cut out exactly the samples of the window. */
  lemma {:induction false} WindowIsFilter(col: Column, lower: int, upper: int)
    requires Sorted(col, TimeOf) && lower <= upper
    ensures LowerBound(col, lower) <= UpperBound(col, upper)
    ensures col[LowerBound(col, lower)..UpperBound(col, upper)] == Between(col, lower, upper)
  {
    if col != [] {
      WindowIsFilter(col[1..], lower, upper);
      if upper < col[0].time {
        NoneAfter(col, lower, upper);
      } else if col[0].time < lower {
        assert col[LowerBound(col, lower)..UpperBound(col, upper)]
            == col[1..][LowerBound(col[1..], lower)..UpperBound(col[1..], upper)];
      } else {
        StartsInside(col, lower);
        assert col[..UpperBound(col, upper)] == [col[0]] + col[1..][..UpperBound(col[1..], upper)];
      }
    }
  }

  lemma StartsInside(col: Column, lower: int)
    requires Sorted(col, TimeOf) && col != [] && lower <= col[0].time
    ensures LowerBound(col, lower) == 0 && LowerBound(col[1..], lower) == 0
  {
    assert |col| > 1 ==> TimeOf(col[0]) <= TimeOf(col[1]);
  }

  ghost predicate Advances(next: int -> int) {
    forall t: int :: t < next(t)
  }

  /** The beginnings of the windows: each starts where the one before it ends, as long as that is not after `last`. */
  ghost function Starts(lower: int, last: int, next: int -> int): (starts: seq<int>)
    requires Advances(next)
    decreases if lower > last then 0 else last - lower + 1
  {
    if lower > last then [] else [lower] + Starts(next(lower), last, next)
  }

  datatype File = File(lower: int, upper: int, values: seq<Column>)

  ghost function FileOf(cols: seq<Column>, lower: int, next: int -> int): File {
    File(lower, next(lower), seq(|cols|, c requires 0 <= c < |cols| => Between(cols[c], lower, next(lower))))
  }

  ghost function FilesOf(cols: seq<Column>, starts: seq<int>, next: int -> int): seq<File> {
    seq(|starts|, i requires 0 <= i < |starts| => FileOf(cols, starts[i], next))
  }

  /** The latest of the first samples, not of all of them. */
  function LatestFirstOf(cols: seq<Column>, n: nat): (t: int)
    requires n <= |cols|
    decreases n
  {
    if n == 0 then MIN_TIME
    else
      var t := LatestFirstOf(cols, n - 1);
      if cols[n - 1] != [] && t < cols[n - 1][0].time then cols[n - 1][0].time else t
  }

  function LatestFirst(cols: seq<Column>): int {
    LatestFirstOf(cols, |cols|)
  }

  /** Sorts the columns in place and finds the earliest and the latest first sample. */
  method SortAndBound(columns: array<Column>) returns (minTime: int, maxTime: int)
    modifies columns
    ensures columns[..] == SortAll(old(columns[..]))
    ensures minTime == Earliest(columns[..]) && maxTime == LatestFirst(columns[..])
  {
    SortColumns(columns);
    minTime, maxTime := MAX_TIME, MIN_TIME;
    var sorted := columns[..];
    for i := 0 to |sorted|
      invariant minTime == EarliestOf(sorted, i) && columns[..] == sorted
      invariant maxTime == LatestFirstOf(sorted, i)
    {
      var col := sorted[i];
      if col != [] {
        minTime := if col[0].time < minTime then col[0].time else minTime;
        maxTime := if maxTime < col[0].time then col[0].time else maxTime;
      }
    }
  }

  /** The values of one window, column by column. */
  method CutWindow(cols: seq<Column>, lower: int, upper: int) returns (values: seq<Column>)
    requires AllSorted(cols) && lower <= upper
    ensures values == seq(|cols|, c requires 0 <= c < |cols| => Between(cols[c], lower, upper))
  {
    values := [];
    for c := 0 to |cols|
      invariant |values| == c && forall i: nat :: i < c ==> values[i] == Between(cols[i], lower, upper)
    {
      WindowIsFilter(cols[c], lower, upper);
      values := values + [cols[c][LowerBound(cols[c], lower)..UpperBound(cols[c], upper)]];
    }
  }

  /** The window loop of `write_json_file`. */
  method WriteWindows(cols: seq<Column>, minTime: int, maxTime: int, next: int -> int) returns (files: seq<File>)
    requires AllSorted(cols) && Advances(next)
    ensures files == FilesOf(cols, Starts(minTime, maxTime, next), next)
  {
    files := [];
    ghost var done: seq<int> := [];
    var lower, upper := minTime, next(minTime);
    while lower <= maxTime
      invariant upper == next(lower)
      invariant files == FilesOf(cols, done, next)
      invariant done + Starts(lower, maxTime, next) == Starts(minTime, maxTime, next)
      decreases maxTime - lower
    {
      var values := CutWindow(cols, lower, upper);
      files := files + [File(lower, upper, values)];
      done := done + [lower];
      lower := upper;
      upper := next(upper);
    }
  }

  /** `write_json_file` */
  method WriteJson(columns: array<Column>, next: int -> int) returns (files: seq<File>)
    requires Advances(next)
    modifies columns
    ensures columns[..] == SortAll(old(columns[..]))
    ensures files == FilesOf(columns[..], Starts(Earliest(columns[..]), LatestFirst(columns[..]), next), next)
  {
    var minTime, maxTime := SortAndBound(columns);
    SortAllSorts(old(columns[..]));
    var cols := columns[..];
    files := WriteWindows(cols, minTime, maxTime, next);
    assert columns[..] == cols;
  }

  /** A window as the binary writer stores it: only the columns that have a value in it. */
  datatype BinFile = BinFile(lower: int, upper: int, series: seq<(nat, Column)>)

  function Present(values: seq<Column>, n: nat): (series: seq<(nat, Column)>)
    requires n <= |values|
    decreases n
  {
    if n == 0 then [] else Present(values, n - 1) + if values[n - 1] == [] then [] else [(n - 1, values[n - 1])]
  }

  function PackedFile(file: File): (r: BinFile)
    ensures r.lower == file.lower && r.upper == file.upper
  {
    BinFile(file.lower, file.upper, Present(file.values, |file.values|))
  }

  ghost function Packed(files: seq<File>): (r: seq<BinFile>) {
    seq(|files|, i requires 0 <= i < |files| => PackedFile(files[i]))
  }

  /** Leaves out the columns without a value in the window. */
  method KeepPresent(values: seq<Column>) returns (series: seq<(nat, Column)>)
    ensures series == Present(values, |values|)
  {
    series := [];
    for c := 0 to |values|
      invariant series == Present(values, c)
    {
      if values[c] != [] {
        series := series + [(c as nat, values[c])];
      }
    }
  }

  method PackWindow(cols: seq<Column>, lower: int, upper: int, ghost next: int -> int) returns (file: BinFile)
    requires AllSorted(cols) && Advances(next) && upper == next(lower)
    ensures file == PackedFile(FileOf(cols, lower, next))
  {
    var values := CutWindow(cols, lower, upper);
    assert values == FileOf(cols, lower, next).values;
    var series := KeepPresent(values);
    file := BinFile(lower, upper, series);
  }

  lemma PackedOneMore(cols: seq<Column>, starts: seq<int>, lower: int, next: int -> int)
    ensures Packed(FilesOf(cols, starts + [lower], next))
         == Packed(FilesOf(cols, starts, next)) + [PackedFile(FileOf(cols, lower, next))]
  {
    assert FilesOf(cols, starts + [lower], next) == FilesOf(cols, starts, next) + [FileOf(cols, lower, next)];
  }

  /** The window loop of `write_bin_file`. */
  method WriteBinWindows(cols: seq<Column>, minTime: int, maxTime: int, next: int -> int)
    returns (files: seq<BinFile>)
    requires AllSorted(cols) && Advances(next)
    ensures files == Packed(FilesOf(cols, Starts(minTime, maxTime, next), next))
  {
    files := [];
    ghost var done: seq<int> := [];
    var lower, upper := minTime, next(minTime);
    while lower <= maxTime
      invariant upper == next(lower)
      invariant files == Packed(FilesOf(cols, done, next))
      invariant done + Starts(lower, maxTime, next) == Starts(minTime, maxTime, next)
      decreases maxTime - lower
    {
      var file := PackWindow(cols, lower, upper, next);
      PackedOneMore(cols, done, lower, next);
      files := files + [file];
      done := done + [lower];
      lower := upper;
      upper := next(upper);
    }
  }

  /** `write_bin_file` */
  method WriteBin(columns: array<Column>, next: int -> int) returns (files: seq<BinFile>)
    requires Advances(next)
    modifies columns
    ensures columns[..] == SortAll(old(columns[..]))
    ensures files
         == Packed(FilesOf(columns[..], Starts(Earliest(columns[..]), LatestFirst(columns[..]), next), next))
  {
    var minTime, maxTime := SortAndBound(columns);
    SortAllSorts(old(columns[..]));
    var cols := columns[..];
    files := WriteBinWindows(cols, minTime, maxTime, next);
    assert columns[..] == cols;
  }

  /** In how many windows a time lies. */
  ghost function Windows(starts: seq<int>, next: int -> int, t: int): (n: nat) {
    if starts == [] then 0
    else (if starts[0] <= t <= next(starts[0]) then 1 else 0) + Windows(starts[1..], next, t)
  }

  lemma {:induction false} BeforeStarts(lower: int, last: int, next: int -> int, t: int)
    requires Advances(next) && t < lower
    ensures Windows(Starts(lower, last, next), next, t) == 0 && t !in Starts(lower, last, next)
    decreases if lower > last then 0 else last - lower + 1
  {
    if lower <= last {
      BeforeStarts(next(lower), last, next, t);
    }
  }

  /** The end of the last window. */
  ghost function End(lower: int, last: int, next: int -> int): int
    requires Advances(next) && lower <= last
  {
    var starts := Starts(lower, last, next);
    next(starts[|starts| - 1])
  }

  /** A time from the first window on lies in no window if it comes after the end, in two if it is a boundary between
      windows, and in one otherwise. */
  lemma {:induction false} WindowCount(lower: int, last: int, next: int -> int, t: int)
    requires Advances(next) && lower <= last && lower <= t
    ensures Windows(Starts(lower, last, next), next, t)
         == if t > End(lower, last, next) then 0 else if t in Starts(lower, last, next)[1..] then 2 else 1
    decreases last - lower
  {
    var starts, up := Starts(lower, last, next), next(lower);
    assert starts[1..] == Starts(up, last, next);
    if up > last {
    } else if t < up {
      BeforeStarts(up, last, next, t);
      EndIsLater(up, last, next);
    } else {
      WindowCount(up, last, next, t);
      EndIsLater(up, last, next);
      var rest := Starts(up, last, next);
      assert rest[0] == up;
      assert t in rest <==> t == up || t in rest[1..];
      if t == up {
        BeforeStarts(next(up), last, next, t);
        assert rest[1..] == Starts(next(up), last, next);
      }
    }
  }

  lemma {:induction false} EndIsLater(lower: int, last: int, next: int -> int)
    requires Advances(next) && lower <= last
    ensures End(lower, last, next) > last >= lower
    decreases last - lower
  {
    var starts := Starts(lower, last, next);
    assert starts[1..] == Starts(next(lower), last, next);
    if next(lower) <= last {
      EndIsLater(next(lower), last, next);
      var rest := starts[1..];
      assert starts[|starts| - 1] == rest[|rest| - 1];
    }
  }

  lemma {:induction false} BetweenHas(col: Column, lower: int, upper: int, s: Sample)
    ensures s in Between(col, lower, upper) <==> s in col && lower <= s.time <= upper
  {
    if col != [] {
      BetweenHas(col[1..], lower, upper, s);
      assert s in col <==> s == col[0] || s in col[1..];
    }
  }

  lemma {:induction false} SomeWindow(starts: seq<int>, next: int -> int, t: int)
    ensures Windows(starts, next, t) > 0 <==> exists i: nat :: i < |starts| && starts[i] <= t <= next(starts[i])
  {
    if starts != [] {
      SomeWindow(starts[1..], next, t);
      if Windows(starts[1..], next, t) > 0 {
        var i: nat :| i < |starts[1..]| && starts[1..][i] <= t <= next(starts[1..][i]);
        assert starts[i + 1] == starts[1..][i];
      }
      if i: nat :| i < |starts| && starts[i] <= t <= next(starts[i]) {
        if i > 0 {
          assert starts[1..][i - 1] == starts[i];
        }
      }
    }
  }

  ghost predicate InSomeFile(files: seq<File>, c: nat, s: Sample) {
    exists i: nat :: i < |files| && c < |files[i].values| && s in files[i].values[c]
  }

  lemma WrittenToEnd(cols: seq<Column>, next: int -> int, c: nat, s: Sample)
    requires Advances(next) && AllSorted(cols) && c < |cols| && s in cols[c]
    ensures Earliest(cols) <= LatestFirst(cols)
    ensures InSomeFile(FilesOf(cols, Starts(Earliest(cols), LatestFirst(cols), next), next), c, s)
       <==> s.time <= End(Earliest(cols), LatestFirst(cols), next)
  {
    BoundsMeet(cols, c);
    var starts := Starts(Earliest(cols), LatestFirst(cols), next);
    var files := FilesOf(cols, starts, next);
    NotBeforeFirst(cols, c, s);
    WindowCount(Earliest(cols), LatestFirst(cols), next, s.time);
    SomeWindow(starts, next, s.time);
    forall i: nat | i < |files|
      ensures s in files[i].values[c] <==> starts[i] <= s.time <= next(starts[i])
    {
      BetweenHas(cols[c], starts[i], next(starts[i]), s);
    }
    if i: nat :| i < |starts| && starts[i] <= s.time <= next(starts[i]) {
      assert s in files[i].values[c];
    }
  }

  lemma NotBeforeFirst(cols: seq<Column>, c: nat, s: Sample)
    requires AllSorted(cols) && c < |cols| && s in cols[c]
    ensures Earliest(cols) <= s.time
  {
    EarliestBelow(cols, |cols|, c);
    var i: nat :| i < |cols[c]| && cols[c][i] == s;
    assert i > 0 ==> TimeOf(cols[c][0]) <= TimeOf(cols[c][i]);
  }

  lemma {:induction false} FirstNotAfterLatest(cols: seq<Column>, n: nat, c: nat)
    requires c < n <= |cols| && cols[c] != []
    ensures cols[c][0].time <= LatestFirstOf(cols, n)
    decreases n
  {
    if c < n - 1 {
      FirstNotAfterLatest(cols, n - 1, c);
    }
  }

  lemma BoundsMeet(cols: seq<Column>, c: nat)
    requires c < |cols| && cols[c] != []
    ensures Earliest(cols) <= LatestFirst(cols)
  {
    EarliestBelow(cols, |cols|, c);
    FirstNotAfterLatest(cols, |cols|, c);
  }

  /** In how many files a column has a sample. */
  ghost function FilesWith(files: seq<File>, c: nat, s: Sample): (n: nat) {
    if files == [] then 0
    else (if c < |files[0].values| && s in files[0].values[c] then 1 else 0) + FilesWith(files[1..], c, s)
  }

  lemma {:induction false} FilesAreWindows(cols: seq<Column>, starts: seq<int>, next: int -> int, c: nat, s: Sample)
    requires c < |cols| && s in cols[c]
    ensures FilesWith(FilesOf(cols, starts, next), c, s) == Windows(starts, next, s.time)
  {
    if starts != [] {
      var files := FilesOf(cols, starts, next);
      FilesAreWindows(cols, starts[1..], next, c, s);
      BetweenHas(cols[c], starts[0], next(starts[0]), s);
      assert files[1..] == FilesOf(cols, starts[1..], next);
      assert files[0].values[c] == Between(cols[c], starts[0], next(starts[0]));
    }
  }

  /** No time is below that of `utc_tp::min()`, or above that of `utc_tp::max()`. */
  ghost predicate Representable(cols: seq<Column>) {
    InRange(cols) && forall c: nat, i: nat :: c < |cols| && i < |cols[c]| ==> MIN_TIME <= cols[c][i].time
  }

  lemma {:induction false} NoneIsFirst(cols: seq<Column>, n: nat)
    requires n <= |cols| && forall c: nat :: c < n ==> cols[c] == []
    ensures LatestFirstOf(cols, n) == MIN_TIME && EarliestOf(cols, n) == MAX_TIME
    decreases n
  {
    if n > 0 {
      NoneIsFirst(cols, n - 1);
    }
  }

  /** The latest first time is one of them. */
  lemma {:induction false} SomeoneIsLatest(cols: seq<Column>, n: nat, k: nat) returns (c: nat)
    requires Representable(cols) && k < n <= |cols| && cols[k] != []
    ensures c < n && cols[c] != [] && cols[c][0].time == LatestFirstOf(cols, n)
    decreases n
  {
    c := n - 1;
    if cols[n - 1] == [] || cols[n - 1][0].time <= LatestFirstOf(cols, n - 1) {
      if j: nat :| j < n - 1 && cols[j] != [] {
        c := SomeoneIsLatest(cols, n - 1, j);
      } else {
        NoneIsFirst(cols, n - 1);
      }
    }
  }

  lemma {:induction false} LastStart(lower: int, last: int, next: int -> int)
    requires Advances(next) && lower <= last
    ensures var starts := Starts(lower, last, next);
            && starts != [] && starts[0] == lower && starts[|starts| - 1] <= last
            && forall i: nat :: i + 1 < |starts| ==> starts[i + 1] == next(starts[i])
    decreases last - lower
  {
    var starts := Starts(lower, last, next);
    assert starts[1..] == Starts(next(lower), last, next);
    if next(lower) <= last {
      LastStart(next(lower), last, next);
      forall i: nat | i + 1 < |starts|
        ensures starts[i + 1] == next(starts[i])
      {
        if i > 0 {
          assert starts[i] == starts[1..][i - 1];
        }
      }
    }
  }

  /** `t` is the time of the first sample of some column. */
  ghost predicate IsFirst(cols: seq<Column>, t: int) {
    exists c: nat :: c < |cols| && cols[c] != [] && cols[c][0].time == t
  }

  /** The windows follow one another. They begin with the earliest first time of a column, and the last one is the one
      that the latest first time lies in. */
  ghost predicate CoverFirsts(files: seq<File>, cols: seq<Column>, next: int -> int) {
    && files != []
    && (forall i: nat :: i < |files| ==> files[i].upper == next(files[i].lower))
    && (forall i: nat :: i + 1 < |files| ==> files[i + 1].lower == files[i].upper)
    && IsFirst(cols, files[0].lower)
    && (forall t: int :: IsFirst(cols, t) ==> files[0].lower <= t < files[|files| - 1].upper)
    && (exists t: int :: IsFirst(cols, t) && files[|files| - 1].lower <= t)
  }

  /** The files that both writers make. */
  ghost predicate WrittenBy(files: seq<File>, cols: seq<Column>, next: int -> int)
    requires Advances(next)
  {
    files == FilesOf(cols, Starts(Earliest(cols), LatestFirst(cols), next), next)
  }

  lemma FilesCoverFirsts(files: seq<File>, cols: seq<Column>, next: int -> int)
    requires Advances(next) && Representable(cols) && WrittenBy(files, cols, next)
    ensures if exists c: nat :: c < |cols| && cols[c] != [] then CoverFirsts(files, cols, next) else files == []
  {
    if c: nat :| c < |cols| && cols[c] != [] {
      BoundsMeet(cols, c);
      LastStart(Earliest(cols), LatestFirst(cols), next);
      EndIsLater(Earliest(cols), LatestFirst(cols), next);
      var early := SomeoneIsFirst(cols, c);
      var late := SomeoneIsLatest(cols, |cols|, c);
      assert IsFirst(cols, cols[early][0].time) && IsFirst(cols, cols[late][0].time);
      forall t: int | IsFirst(cols, t)
        ensures Earliest(cols) <= t <= LatestFirst(cols)
      {
        var k: nat :| k < |cols| && cols[k] != [] && cols[k][0].time == t;
        EarliestBelow(cols, |cols|, k);
        FirstNotAfterLatest(cols, |cols|, k);
      }
    } else {
      NoneIsFirst(cols, |cols|);
    }
  }

  /** A sample is written if and only if it does not come after the last window: the one that the latest first time of
      a column lies in, whatever comes later in the columns. */
  lemma WrittenIff(files: seq<File>, cols: seq<Column>, next: int -> int, c: nat, s: Sample)
    requires Advances(next) && AllSorted(cols) && Representable(cols) && c < |cols| && s in cols[c]
    requires WrittenBy(files, cols, next)
    ensures CoverFirsts(files, cols, next)
    ensures InSomeFile(files, c, s) <==> s.time <= files[|files| - 1].upper
  {
    FilesCoverFirsts(files, cols, next);
    WrittenToEnd(cols, next, c, s);
  }

  /** A sample is in no file if it comes after the last window, in two if it lies on the boundary of two windows, and
      in one otherwise. */
  lemma FileCount(files: seq<File>, cols: seq<Column>, next: int -> int, c: nat, s: Sample)
    requires Advances(next) && AllSorted(cols) && Representable(cols) && c < |cols| && s in cols[c]
    requires WrittenBy(files, cols, next)
    ensures CoverFirsts(files, cols, next)
    ensures FilesWith(files, c, s)
         == if s.time > files[|files| - 1].upper then 0
            else if exists i: nat :: 0 < i < |files| && files[i].lower == s.time then 2
            else 1
  {
    FilesCoverFirsts(files, cols, next);
    NotBeforeFirst(cols, c, s);
    var starts := Starts(Earliest(cols), LatestFirst(cols), next);
    FilesAreWindows(cols, starts, next, c, s);
    WindowCount(Earliest(cols), LatestFirst(cols), next, s.time);
    if i: nat :| 0 < i < |files| && files[i].lower == s.time {
      assert starts[1..][i - 1] == s.time;
    }
    if s.time in starts[1..] {
      var i: nat :| i < |starts[1..]| && starts[1..][i] == s.time;
      assert files[i + 1].lower == s.time;
    }
  }

  ghost predicate SeriesHas(series: seq<(nat, Column)>, c: nat, s: Sample) {
    exists i: nat :: i < |series| && series[i].0 == c && s in series[i].1
  }

  lemma {:induction false} PresentHas(values: seq<Column>, n: nat, c: nat, s: Sample)
    requires n <= |values|
    ensures SeriesHas(Present(values, n), c, s) <==> c < n && s in values[c]
    decreases n
  {
    if n > 0 {
      PresentHas(values, n - 1, c, s);
      var before := Present(values, n - 1);
      assert forall i: nat :: i < |before| ==> Present(values, n)[i] == before[i];
      if c == n - 1 && s in values[c] {
        assert Present(values, n)[|before|] == (c, values[c]);
      }
    }
  }

  /** In how many files of the binary writer a column has a sample. */
  ghost function BinFilesWith(files: seq<BinFile>, c: nat, s: Sample): (n: nat) {
    if files == [] then 0
    else (if SeriesHas(files[0].series, c, s) then 1 else 0) + BinFilesWith(files[1..], c, s)
  }

  /** As many as of the JSON writer: leaving columns out of a file loses no sample. */
  lemma {:induction false} BinFilesAsMany(files: seq<File>, c: nat, s: Sample)
    ensures BinFilesWith(Packed(files), c, s) == FilesWith(files, c, s)
  {
    if files != [] {
      BinFilesAsMany(files[1..], c, s);
      PresentHas(files[0].values, |files[0].values|, c, s);
      assert Packed(files)[1..] == Packed(files[1..]);
    }
  }

  /** A binary file keeps the columns that have a value in the window, each whole, under its number and in order. */
  lemma {:induction false} PresentKeeps(values: seq<Column>, n: nat)
    requires n <= |values|
    ensures forall i: nat :: i < |Present(values, n)| ==>
              Present(values, n)[i].0 < n && Present(values, n)[i].1 == values[Present(values, n)[i].0] != []
    ensures forall i: nat, j: nat :: i < j < |Present(values, n)| ==>
              Present(values, n)[i].0 < Present(values, n)[j].0
    ensures forall c: nat :: c < n && values[c] != [] ==> (c, values[c]) in Present(values, n)
    decreases n
  {
    if n > 0 {
      PresentKeeps(values, n - 1);
    }
  }

}
