/** Writing text files and reading them back. */
module RoundTrip {
  import opened Coverage
  import opened Merge
  import opened Series
  import opened TextReader
  import opened TextWriter
  import opened WrittenRows
  import opened Wrappers

  lemma {:induction false} EmittedConcat(a: seq<Row>, b: seq<Row>, c: nat)
    requires Wide(a, c) && Wide(b, c)
    ensures Wide(a + b, c) && Emitted(a + b, c) == Emitted(a, c) + Emitted(b, c)
  {
    if a == [] {
      assert a + b == b;
    } else {
      var rest := a[1..];
      assert a + b == [a[0]] + (rest + b) && a == [a[0]] + rest;
      EmittedConcat(rest, b, c);
      EmittedCons(a[0], rest + b, c);
      EmittedCons(a[0], rest, c);
    }
  }

  ghost predicate OfWidth(rows: seq<Row>, n: nat) {
    forall i: nat :: i < |rows| ==> |rows[i].cells| == n
  }

  lemma {:induction false} WordsAreWords(s: string, i: nat)
    requires i < |Words(s)|
    ensures IsWord(Words(s)[i])
    decreases |s|
  {
    if IsSep(s[0]) {
      WordsAreWords(s[1..], i);
    } else if i == 0 {
      WordIsWord(s);
    } else {
      WordsAreWords(s[WordEnd(s)..], i - 1);
    }
  }

  lemma {:induction false} WordIsWord(s: string)
    ensures forall i: nat :: i < WordEnd(s) ==> !IsSep(s[i])
  {
    if s != "" && !IsSep(s[0]) {
      WordIsWord(s[1..]);
    }
  }

  lemma {:induction false} WordsOfLine(s: string, i: nat)
    requires IsLine(s) && i < |Words(s)|
    ensures IsLine(Words(s)[i])
    decreases |s|
  {
    if IsSep(s[0]) {
      WordsOfLine(s[1..], i);
    } else if i > 0 {
      WordsOfLine(s[WordEnd(s)..], i - 1);
    }
  }

  /** The line of column names: the time in 18 places, the names in 10 each. */
  function NamesLine(names: seq<string>): string {
    Pad("Time", 18) + "\t" + Body(names, 10)
  }

  /** The data section of a file. */
  function DataSection(f: Format, names: seq<string>, rows: seq<Row>): string {
    "\\data" + "\n" + (NamesLine(names) + "\n" + FileText(f, rows))
  }

  lemma {:induction false} LineOfIsLine(s: string)
    ensures forall i: nat :: i < LineEnd(s) ==> s[i] != '\n'
  {
    if s != "" && s[0] != '\n' {
      LineOfIsLine(s[1..]);
    }
  }

  lemma TimeIsWord()
    ensures IsWord("Time")
  {
    var s := "Time";
    assert |s| == 4 && s[0] == 'T' && s[1] == 'i' && s[2] == 'm' && s[3] == 'e';
  }

  /** A name that the reader can find again: one word on one line. */
  predicate IsName(s: string) {
    IsWord(s) && IsLine(s)
  }

  predicate AreNames(names: seq<string>) {
    forall i: nat :: i < |names| ==> IsName(names[i])
  }

  lemma NamesLineIsLine(names: seq<string>)
    requires AreNames(names)
    ensures IsLine(NamesLine(names)) && Words(NamesLine(names)) == ["Time"] + names
  {
    TimeIsWord();
    WordsCons("Time", 18, Body(names, 10));
    BodyWords(names, 10);
    BodyIsLine(names, 10);
    SpacesAre(18 - |"Time"|);
    assert IsLine("Time");
  }

  /** The table has these names for the keys. */
  ghost predicate Named<K>(keys: seq<K>, table: K -> Option<string>, names: seq<string>) {
    |keys| == |names| && forall i: nat :: i < |keys| ==> table(keys[i]) == Some(names[i])
  }

  lemma SectionHead(f: Format, names: seq<string>, rows: seq<Row>)
    ensures AfterLine(DataSection(f, names, rows)) == NamesLine(names) + "\n" + FileText(f, rows)
    ensures HasHead(DataSection(f, names, rows))
    ensures AreNames(names) ==>
              && Words(LineOf(AfterLine(DataSection(f, names, rows)))) == ["Time"] + names
              && AfterLine(AfterLine(DataSection(f, names, rows))) == FileText(f, rows)
  {
    assert IsLine("\\data");
    LineThenRest("\\data", NamesLine(names) + "\n" + FileText(f, rows));
    if AreNames(names) {
      NamesLineIsLine(names);
      LineThenRest(NamesLine(names), FileText(f, rows));
    }
  }

  /** The reader accepts the writer's column names if and only if each of them is one word on one line. */
  lemma NamesReadBackIff<K>(keys: seq<K>, table: K -> Option<string>, f: Format, names: seq<string>, rows: seq<Row>)
    requires Named(keys, table, names)
    ensures NamesFit(keys, table, Words(LineOf(AfterLine(DataSection(f, names, rows))))) <==> AreNames(names)
  {
    SectionHead(f, names, rows);
    var line := LineOf(AfterLine(DataSection(f, names, rows)));
    if NamesFit(keys, table, Words(line)) {
      LineOfIsLine(AfterLine(DataSection(f, names, rows)));
      forall i: nat | i < |names|
        ensures IsName(names[i])
      {
        assert table(keys[i]) == Some(Words(line)[i + 1]);
        WordsAreWords(line, i + 1);
        WordsOfLine(line, i + 1);
      }
    }
  }

  lemma SectionIsText<K>(keys: seq<K>, table: K -> Option<string>, f: Format, names: seq<string>, rows: seq<Row>)
    requires Named(keys, table, names) && AreNames(names)
    ensures ReadSection(keys, table, f, DataSection(f, names, rows)) == ReadText(keys, f, FileText(f, rows), map[])
  {
    SectionHead(f, names, rows);
    NamesReadBackIff(keys, table, f, names, rows);
  }

  /** The series under `k` in the text of one file, or none if it cannot be read. */
  ghost function ReadFile<K>(keys: seq<K>, table: K -> Option<string>, f: Format, text: string, k: K): Column {
    var r := ReadSection(keys, table, f, text);
    if r.Ok? then Get(r.value, k) else []
  }

  /** The series under `k` in all files, one after the other. */
  ghost function ReadFiles<K>(keys: seq<K>, table: K -> Option<string>, f: Format, texts: seq<string>, k: K): Column {
    if texts == [] then []
    else ReadFiles(keys, table, f, texts[..|texts| - 1], k) + ReadFile(keys, table, f, texts[|texts| - 1], k)
  }

  /** The data sections of all files. */
  function Texts(f: Format, names: seq<string>, files: seq<seq<Row>>): (texts: seq<string>) {
    seq(|files|, i requires 0 <= i < |files| => DataSection(f, names, files[i]))
  }

  lemma {:induction false} FilesReadBack<K>(keys: seq<K>, table: K -> Option<string>, f: Format, names: seq<string>,
                                            files: seq<seq<Row>>, c: nat)
    requires Named(keys, table, names) && AreNames(names) && Distinct(keys) && c < |keys|
    requires Faithful(f) && AllPrintable(f, Flatten(files)) && OfWidth(Flatten(files), |keys|)
    ensures ReadFiles(keys, table, f, Texts(f, names, files), keys[c]) == TruncatedAll(Emitted(Flatten(files), c))
    ensures CutToSeconds(Emitted(Flatten(files), c), ReadFiles(keys, table, f, Texts(f, names, files), keys[c]))
  {
    TruncatedCuts(Emitted(Flatten(files), c));
    if files != [] {
      var before, last := files[..|files| - 1], files[|files| - 1];
      assert Texts(f, names, files)[..|files| - 1] == Texts(f, names, before);
      WidthSplit(Flatten(before), last, |keys|);
      PrintableSplit(f, Flatten(before), last);
      FilesReadBack(keys, table, f, names, before, c);
      FileReadsBack(keys, f, last, c);
      SectionIsText(keys, table, f, names, last);
      EmittedConcat(Flatten(before), last, c);
      TruncatedConcat(Emitted(Flatten(before), c), Emitted(last, c));
    }
  }

  lemma PrintableSplit(f: Format, a: seq<Row>, b: seq<Row>)
    requires AllPrintable(f, a + b)
    ensures AllPrintable(f, a) && AllPrintable(f, b)
  {
    assert forall i: nat :: i < |a| ==> (a + b)[i] == a[i];
    forall i: nat | i < |b|
      ensures Printable(f, b[i])
    {
      assert (a + b)[|a| + i] == b[i];
    }
  }

  lemma WidthSplit(a: seq<Row>, b: seq<Row>, n: nat)
    requires OfWidth(a + b, n)
    ensures OfWidth(a, n) && OfWidth(b, n)
  {
    assert forall i: nat :: i < |a| ==> (a + b)[i] == a[i];
    forall i: nat | i < |b|
      ensures |b[i].cells| == n
    {
      assert (a + b)[|a| + i] == b[i];
    }
  }

  lemma {:induction false} AllWritten(cols: seq<Column>, n: nat)
    requires n <= |cols| && forall c: nat :: c < |cols| ==> cols[c] != []
    ensures NonEmptyOf(cols, n) == cols[..n]
    decreases n
  {
    if n > 0 {
      AllWritten(cols, n - 1);
    }
  }

  /** What the text writer guarantees of its files, for columns that are sorted already. */
  ghost predicate WrittenFrom(files: seq<seq<Row>>, columns: seq<Column>) {
    Flatten(files) == Rows(NonEmpty(columns), MaxLength(columns))
  }

  /** All values and times have a text. */
  ghost predicate ColumnsPrintable(f: Format, columns: seq<Column>) {
    forall c: nat, s: Sample :: c < |columns| && s in columns[c] ==> f.has(s.value) && f.hasTime(Truncated(s.time))
  }

  lemma FirstPrintable(f: Format, cols: seq<Column>, longest: nat)
    requires ColumnsPrintable(f, cols) && InRange(cols) && longest < |cols| && cols[longest] != []
    ensures Printable(f, FirstRow(cols))
  {
    var row := FirstRow(cols);
    forall c: nat | c < |row.cells| && row.cells[c].Some?
      ensures f.has(row.cells[c].value)
    {
      assert cols[c][0] in cols[c];
    }
    var c := SomeoneIsFirst(cols, longest);
    assert cols[c][0] in cols[c];
  }

  lemma RestPrintable(f: Format, cols: seq<Column>)
    requires ColumnsPrintable(f, cols) && InRange(cols)
    ensures ColumnsPrintable(f, Next(cols)) && InRange(Next(cols))
  {
    forall c: nat, s: Sample | c < |cols| && s in Next(cols)[c]
      ensures s in cols[c]
    {
    }
  }

  lemma {:induction false} RowsPrintable(f: Format, cols: seq<Column>, longest: nat, n: nat)
    requires ColumnsPrintable(f, cols) && InRange(cols) && longest < |cols| && n <= |cols[longest]|
    ensures AllPrintable(f, Rows(cols, n))
    decreases n
  {
    if n > 0 {
      FirstPrintable(f, cols, longest);
      RestPrintable(f, cols);
      RowsPrintable(f, Next(cols), longest, n - 1);
      RowsUnfold(cols, n);
    }
  }

  /** The columns can be written so that they can be read. */
  ghost predicate Writable<K>(columns: seq<Column>, keys: seq<K>, table: K -> Option<string>, f: Format,
                              names: seq<string>)
  {
    && Named(keys, table, names) && AreNames(names) && Distinct(keys)
    && Faithful(f) && ColumnsPrintable(f, columns) && InRange(columns)
    && |keys| == |columns| && forall c: nat :: c < |columns| ==> columns[c] != []
  }

  lemma ReadsBackTruncated<K>(columns: seq<Column>, files: seq<seq<Row>>, keys: seq<K>, table: K -> Option<string>,
                              f: Format, names: seq<string>, c: nat)
    requires Writable(columns, keys, table, f, names) && WrittenFrom(files, columns) && c < |columns|
    ensures Wide(Rows(columns, MaxLength(columns)), c)
    ensures ReadFiles(keys, table, f, Texts(f, names, files), keys[c])
         == TruncatedAll(Emitted(Rows(columns, MaxLength(columns)), c))
    ensures Emitted(Rows(columns, MaxLength(columns)), c) <= columns[c]
  {
    AllWritten(columns, |columns|);
    assert NonEmpty(columns) == columns;
    MaxLengthIs(columns, |columns|);
    var longest: nat :| longest < |columns| && |columns[longest]| == MaxLength(columns);
    RowsPrintable(f, columns, longest, MaxLength(columns));
    RowsWidth(columns, MaxLength(columns));
    FilesReadBack(keys, table, f, names, files, c);
    EmittedThenRest(columns, MaxLength(columns), c);
  }

  lemma PrefixIsCut(emitted: Column, col: Column)
    requires emitted <= col
    ensures CutToSeconds(col[..|emitted|], TruncatedAll(emitted))
  {
    TruncatedCuts(emitted);
  }

  /** Reading the files back gives, of every column, the part that was written: value by value the first of the column,
      each at the whole second that its time lies in. */
  lemma ReadsBack<K>(columns: seq<Column>, files: seq<seq<Row>>, keys: seq<K>, table: K -> Option<string>, f: Format,
                     names: seq<string>, c: nat)
    requires Writable(columns, keys, table, f, names) && WrittenFrom(files, columns) && c < |columns|
    ensures Wide(Rows(columns, MaxLength(columns)), c)
    ensures var written := Emitted(Rows(columns, MaxLength(columns)), c);
            && written <= columns[c]
            && CutToSeconds(columns[c][..|written|], ReadFiles(keys, table, f, Texts(f, names, files), keys[c]))
  {
    ReadsBackTruncated(columns, files, keys, table, f, names, c);
    PrefixIsCut(Emitted(Rows(columns, MaxLength(columns)), c), columns[c]);
  }

  lemma TruncatedIff(t: int)
    ensures Truncated(t) == t <==> t % NANOS == 0
  {
  }

  ghost predicate WholeSeconds(columns: seq<Column>) {
    forall c: nat, i: nat :: c < |columns| && i < |columns[c]| ==> columns[c][i].time % NANOS == 0
  }

  lemma TruncatedPrefix(a: Column, b: Column)
    requires a <= b
    ensures TruncatedAll(a) == b <==> a == b && forall i: nat :: i < |b| ==> b[i].time % NANOS == 0
  {
    forall i: nat | i < |a|
      ensures TruncatedAll(a)[i] == b[i] <==> b[i].time % NANOS == 0
    {
      TruncatedIff(a[i].time);
    }
  }

  /** The files restore every sorted column if and only if all times are whole seconds and the longest column has
      each time as often as the others: the writer stops after as many rows as the longest column has samples. */
  lemma TextRoundTripIff<K>(columns: seq<Column>, files: seq<seq<Row>>, keys: seq<K>, table: K -> Option<string>,
                            f: Format, names: seq<string>, longest: nat)
    requires Writable(columns, keys, table, f, names) && WrittenFrom(files, columns) && AllSorted(columns)
    requires longest < |columns| && |columns[longest]| == MaxLength(columns)
    ensures (forall c: nat :: c < |columns| ==>
               ReadFiles(keys, table, f, Texts(f, names, files), keys[c]) == columns[c])
       <==> Contained(columns, longest) && WholeSeconds(columns)
  {
    var rows := Rows(columns, MaxLength(columns));
    WholeIff(columns, longest, MaxLength(columns));
    forall c: nat | c < |columns|
      ensures Wide(rows, c)
      ensures ReadFiles(keys, table, f, Texts(f, names, files), keys[c]) == columns[c]
         <==> Emitted(rows, c) == columns[c] && forall i: nat :: i < |columns[c]| ==> columns[c][i].time % NANOS == 0
    {
      ReadsBackTruncated(columns, files, keys, table, f, names, c);
      TruncatedPrefix(Emitted(rows, c), columns[c]);
    }
  }

  lemma {:induction false} SomeMissing(cols: seq<Column>, n: nat)
    requires n <= |cols|
    ensures |NonEmptyOf(cols, n)| <= n
    ensures |NonEmptyOf(cols, n)| == n <==> forall c: nat :: c < n ==> cols[c] != []
    decreases n
  {
    if n > 0 {
      SomeMissing(cols, n - 1);
    }
  }

  /** The header lists every key but the rows leave empty columns out, so a file with rows can be read if and only
      if no column is empty. */
  lemma ReadableIff<K>(columns: seq<Column>, keys: seq<K>, table: K -> Option<string>, f: Format, names: seq<string>,
                       rows: seq<Row>)
    requires Named(keys, table, names) && AreNames(names) && Faithful(f) && AllPrintable(f, rows)
    requires |keys| == |columns| && rows != [] && OfWidth(rows, |NonEmpty(columns)|)
    ensures ReadSection(keys, table, f, DataSection(f, names, rows)).Ok?
       <==> forall c: nat :: c < |columns| ==> columns[c] != []
  {
    SectionIsText(keys, table, f, names, rows);
    SomeMissing(columns, |columns|);
    if |NonEmpty(columns)| == |columns| {
      RowsReadBack(keys, f, rows, map[]);
    } else {
      RowTakenOff(f, rows[0], FileText(f, rows[1..]));
      RowWords(f, rows[0]);
    }
  }
}
