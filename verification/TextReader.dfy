/** The text of the rows, and the reader that takes it apart again. */
module TextReader {
  import opened Merge
  import opened Series
  import opened Wrappers

  predicate IsSep(ch: char) {
    ch == ' ' || ch == '\t'
  }

  predicate IsWord(s: string) {
    s != "" && forall i: nat :: i < |s| ==> !IsSep(s[i])
  }

  /** The length of the word at the beginning. */
  function WordEnd(s: string): (n: nat)
    ensures n <= |s|
  {
    if s == "" || IsSep(s[0]) then 0 else 1 + WordEnd(s[1..])
  }

  /** The words between the separators. */
  function Words(s: string): (words: seq<string>)
    decreases |s|
  {
    if s == "" then []
    else if IsSep(s[0]) then Words(s[1..])
    else [s[..WordEnd(s)]] + Words(s[WordEnd(s)..])
  }

  /** The length of the separators at the beginning. */
  function SepEnd(s: string): (n: nat)
    ensures n <= |s|
  {
    if s == "" || !IsSep(s[0]) then 0 else 1 + SepEnd(s[1..])
  }

  lemma {:induction false} WordsSkip(s: string)
    ensures Words(s) == Words(s[SepEnd(s)..])
  {
    if s != "" && IsSep(s[0]) {
      WordsSkip(s[1..]);
      assert s[1..][SepEnd(s[1..])..] == s[SepEnd(s)..];
    }
  }

  lemma {:induction false} SepEndIsWord(s: string)
    ensures SepEnd(s) < |s| ==> !IsSep(s[SepEnd(s)])
  {
    if s != "" && IsSep(s[0]) {
      SepEndIsWord(s[1..]);
    }
  }

  /** The first `std::find_if`: the next character that is no separator. */
  method FindWord(input: string, from: nat) returns (beg: nat)
    requires from <= |input|
    ensures from <= beg <= |input| && (beg < |input| ==> !IsSep(input[beg]))
    ensures Words(input[from..]) == Words(input[beg..])
  {
    ghost var rest := input[from..];
    beg := from + SepEnd(input[from..]);
    WordsSkip(rest);
    SepEndIsWord(rest);
    assert rest[SepEnd(rest)..] == input[beg..];
  }

  /** The second one: the separator after the word, or the end. */
  method FindEnd(input: string, beg: nat) returns (end: nat)
    requires beg <= |input| && (beg < |input| ==> !IsSep(input[beg]))
    ensures beg <= end <= |input| && (beg == end <==> beg == |input|)
    ensures beg < end ==> Words(input[beg..]) == [input[beg..end]] + Words(input[end..])
  {
    ghost var rest := input[beg..];
    end := beg + WordEnd(input[beg..]);
    assert rest[..WordEnd(rest)] == input[beg..end];
    assert rest[WordEnd(rest)..] == input[end..];
  }

  /** `split_ignore`: each turn skips the separators and takes the characters up to the next one. */
  method SplitIgnore(input: string) returns (result: seq<string>)
    ensures result == Words(input)
  {
    result := [];
    var beg, end := 0, 0;
    while true
      invariant 0 <= end <= |input|
      invariant result + Words(input[end..]) == Words(input)
      decreases |input| - end
    {
      beg := FindWord(input, end);
      end := FindEnd(input, beg);
      if beg == end {
        break;
      }
      result := result + [input[beg..end]];
    }
  }

  /** `setw` with left alignment */
  function Spaces(n: int): string
    decreases n
  {
    if n <= 0 then "" else " " + Spaces(n - 1)
  }

  function Pad(s: string, width: int): string {
    s + Spaces(width - |s|)
  }

  /** Texts set in columns, each followed by a tab. */
  function Body(texts: seq<string>, width: int): string {
    if texts == [] then "" else Pad(texts[0], width) + "\t" + Body(texts[1..], width)
  }

  lemma {:induction false} WordThenSep(w: string, s: string)
    requires IsWord(w) && s != "" && IsSep(s[0])
    ensures WordEnd(w + s) == |w|
    decreases |w|
  {
    assert (w + s)[1..] == w[1..] + s;
    if |w| > 1 {
      WordThenSep(w[1..], s);
    } else {
      assert w[1..] + s == s;
    }
  }

  lemma SepSkipped(c: char, s: string)
    requires IsSep(c)
    ensures Words([c] + s) == Words(s)
  {
    assert ([c] + s)[1..] == s;
  }

  lemma {:induction false} SpacesSkipped(n: int, s: string)
    ensures Words(Spaces(n) + s) == Words(s)
    decreases n
  {
    if n <= 0 {
      assert Spaces(n) + s == s;
    } else {
      SpacesSkipped(n - 1, s);
      SepSkipped(' ', Spaces(n - 1) + s);
      assert Spaces(n) + s == [' '] + (Spaces(n - 1) + s);
    }
  }

  /** The words of a text: spaces and tabulators separate them, and nothing else does. */
  lemma WordsAre(w: string, s: string)
    requires w != "" && forall i: nat :: i < |w| ==> w[i] != ' ' && w[i] != '\t'
    requires s == "" || s[0] == ' ' || s[0] == '\t'
    ensures Words(w + s) == [w] + Words(s)
    ensures Words("") == [] && Words(" " + s) == Words(s) == Words("\t" + s)
  {
    SepSkipped(' ', s);
    SepSkipped('\t', s);
    if s == "" {
      assert w + s == w;
      WholeWord(w);
      assert w[|w|..] == "";
    } else {
      WordThenSep(w, s);
      assert (w + s)[..|w|] == w && (w + s)[|w|..] == s;
    }
  }

  lemma {:induction false} WholeWord(w: string)
    requires forall i: nat :: i < |w| ==> !IsSep(w[i])
    ensures WordEnd(w) == |w|
  {
    if w != "" {
      WholeWord(w[1..]);
    }
  }

  lemma {:induction false} SpacesAre(n: int)
    ensures |Spaces(n)| == (if n < 0 then 0 else n) && forall i: nat :: i < |Spaces(n)| ==> Spaces(n)[i] == ' '
    decreases n
  {
    if n > 0 {
      SpacesAre(n - 1);
    }
  }

  /** A text set in a column stands at its left and is filled up with spaces. */
  lemma PadFills(s: string, width: nat)
    ensures |Pad(s, width)| == (if |s| < width then width else |s|) && s <= Pad(s, width)
    ensures forall i: nat :: |s| <= i < |Pad(s, width)| ==> Pad(s, width)[i] == ' '
  {
    if |s| < width {
      SpacesAre(width - |s|);
    }
  }

  lemma WordsCons(w: string, width: int, rest: string)
    requires IsWord(w)
    ensures Words(Pad(w, width) + "\t" + rest) == [w] + Words(rest)
  {
    var gap := Spaces(width - |w|);
    var tail := gap + ("\t" + rest);
    assert Pad(w, width) + "\t" + rest == w + tail;
    assert tail[0] == if gap == "" then '\t' else ' ';
    WordThenSep(w, tail);
    assert (w + tail)[..|w|] == w && (w + tail)[|w|..] == tail;
    SpacesSkipped(width - |w|, "\t" + rest);
    assert ("\t" + rest)[1..] == rest;
  }

  /** Splitting a line of words set in columns gives the words back. */
  lemma {:induction false} BodyWords(texts: seq<string>, width: int)
    requires forall i: nat :: i < |texts| ==> IsWord(texts[i])
    ensures Words(Body(texts, width)) == texts
  {
    if texts != [] {
      BodyWords(texts[1..], width);
      WordsCons(texts[0], width, Body(texts[1..], width));
    }
  }

  /** The end of the line: where the next line feed stands, or the end of the text. */
  function LineEnd(s: string): (n: nat)
    ensures n <= |s|
  {
    if s == "" || s[0] == '\n' then 0 else 1 + LineEnd(s[1..])
  }

  /** What `std::getline` reads, and what it leaves. It fails only on an empty text. */
  function LineOf(s: string): string {
    s[..LineEnd(s)]
  }

  function AfterLine(s: string): (rest: string)
    ensures s != "" ==> |rest| < |s|
  {
    if LineEnd(s) < |s| then s[LineEnd(s) + 1..] else ""
  }

  predicate IsLine(s: string) {
    forall i: nat :: i < |s| ==> s[i] != '\n'
  }

  lemma {:induction false} LineThenRest(line: string, rest: string)
    requires IsLine(line)
    ensures LineOf(line + "\n" + rest) == line && AfterLine(line + "\n" + rest) == rest
    decreases |line|
  {
    var s := line + "\n" + rest;
    if line == "" {
      assert s == "\n" + rest;
    } else {
      LineThenRest(line[1..], rest);
      assert s[1..] == line[1..] + "\n" + rest;
      assert s[..LineEnd(s)] == [s[0]] + s[1..][..LineEnd(s[1..])];
    }
  }

  /** What parsing a time at the beginning of a text gives: the time and how many characters it took, or a failure at
      the end of the text or before it. */
  datatype TimeParse = Time(time: int, used: nat) | Ended | Malformed

  /** Printing and parsing: of the numbers and times that have a text at all. */
  datatype Format = Format(
    has: real -> bool, print_: real -> string, parse: string -> Option<real>,
    hasTime: int -> bool, printTime: int -> string, takeTime: string -> TimeParse)

  const HOLE := "NaN"

  /** What is printed is read again. */
  ghost predicate Faithful(f: Format) {
    && (forall v: real :: f.has(v) ==>
          IsWord(f.print_(v)) && IsLine(f.print_(v)) && f.print_(v) != HOLE && f.parse(f.print_(v)) == Some(v))
    && (forall t: int, rest: string :: f.hasTime(t) ==>
          f.takeTime(f.printTime(t) + ("\t" + rest)) == Time(t, |f.printTime(t)|))
    && f.takeTime("") == Ended
  }

  /** There are such formats; this one has a few numbers and times. */
  lemma SomeFormatIsFaithful() returns (f: Format)
    ensures Faithful(f) && f.has(0.0) && f.has(1.0) && f.hasTime(0) && f.hasTime(NANOS)
  {
    f := Format(
      v => v == 0.0 || v == 1.0,
      v => if v == 0.0 then "0" else "1",
      s => if s == "0" then Some(0.0) else if s == "1" then Some(1.0) else None,
      t => t == 0 || t == NANOS,
      t => if t == 0 then "0" else "1",
      s => if s == "" then Ended
           else if s[0] == '0' then Time(0, 1)
           else if s[0] == '1' then Time(NANOS, 1)
           else Malformed);
    assert HOLE[0] == 'N';
    forall t: int, rest: string | f.hasTime(t)
      ensures f.takeTime(f.printTime(t) + ("\t" + rest)) == Time(t, |f.printTime(t)|)
    {
      assert (f.printTime(t) + ("\t" + rest))[0] == if t == 0 then '0' else '1';
    }
  }

  /** `max_digits10` of a `float` */
  const CELL_WIDTH := 9

  const NANOS: int := 1_000_000_000

  /** `time_point_cast` to seconds, back in nanoseconds: the time that is printed. */
  function Truncated(t: int): int {
    if t >= 0 then NANOS * (t / NANOS) else -(NANOS * (-t / NANOS))
  }

  /** `r` is the whole second that `t` lies in, on the side of zero. */
  predicate InSecond(t: int, r: int) {
    && r % 1_000_000_000 == 0
    && (t >= 0 ==> r <= t < r + 1_000_000_000)
    && (t <= 0 ==> r - 1_000_000_000 < t <= r)
  }

  lemma TruncatedIsInSecond(t: int)
    ensures InSecond(t, Truncated(t))
  {
  }

  function CellText(f: Format, cell: Option<real>): string {
    if cell.Some? then f.print_(cell.value) else HOLE
  }

  function CellTexts(f: Format, cells: seq<Option<real>>): (texts: seq<string>) {
    seq(|cells|, c requires 0 <= c < |cells| => CellText(f, cells[c]))
  }

  /** What the writer prints after the time of a row. */
  function RowCells(f: Format, row: Row): string {
    "\t" + Body(CellTexts(f, row.cells), CELL_WIDTH)
  }

  /** The text of the rows of a file. */
  function FileText(f: Format, rows: seq<Row>): string {
    if rows == [] then ""
    else f.printTime(Truncated(rows[0].time)) + (RowCells(f, rows[0]) + "\n" + FileText(f, rows[1..]))
  }

  /** The time and the values of a row have a text. */
  ghost predicate Printable(f: Format, row: Row) {
    && f.hasTime(Truncated(row.time))
    && forall c: nat :: c < |row.cells| && row.cells[c].Some? ==> f.has(row.cells[c].value)
  }

  ghost predicate AllPrintable(f: Format, rows: seq<Row>) {
    forall i: nat :: i < |rows| ==> Printable(f, rows[i])
  }

  lemma FaithfulAt(f: Format, v: real)
    ensures Faithful(f) && f.has(v) ==>
              IsWord(f.print_(v)) && IsLine(f.print_(v)) && f.print_(v) != HOLE && f.parse(f.print_(v)) == Some(v)
  {
  }

  lemma CellTextsAreWords(f: Format, row: Row)
    requires Faithful(f) && Printable(f, row)
    ensures forall c: nat :: c < |row.cells| ==>
              IsWord(CellTexts(f, row.cells)[c]) && IsLine(CellTexts(f, row.cells)[c])
  {
    assert |HOLE| == 3 && HOLE[0] == 'N' && HOLE[1] == 'a' && HOLE[2] == 'N';
    forall c: nat | c < |row.cells|
      ensures IsWord(CellText(f, row.cells[c])) && IsLine(CellText(f, row.cells[c]))
    {
      if row.cells[c].Some? {
        FaithfulAt(f, row.cells[c].value);
      }
    }
  }

  lemma {:induction false} BodyIsLine(texts: seq<string>, width: int)
    requires forall i: nat :: i < |texts| ==> IsLine(texts[i])
    ensures IsLine(Body(texts, width))
  {
    if texts != [] {
      BodyIsLine(texts[1..], width);
      SpacesAre(width - |texts[0]|);
    }
  }

  /** The words of a printed line are the texts of its cells, and it is one line. */
  lemma RowWords(f: Format, row: Row)
    requires Faithful(f) && Printable(f, row)
    ensures Words(RowCells(f, row)) == CellTexts(f, row.cells) && IsLine(RowCells(f, row))
  {
    var body := Body(CellTexts(f, row.cells), CELL_WIDTH);
    assert ("\t" + body)[1..] == body;
    CellTextsAreWords(f, row);
    BodyWords(CellTexts(f, row.cells), CELL_WIDTH);
    BodyIsLine(CellTexts(f, row.cells), CELL_WIDTH);
  }

  ghost predicate Distinct<K>(keys: seq<K>) {
    forall i: nat, j: nat :: i < j < |keys| ==> keys[i] != keys[j]
  }

  /** What the reader makes of the cells of one line from the `i`-th on. */
  function ReadCells<K>(keys: seq<K>, f: Format, time: int, words: seq<string>, i: nat, m: map<K, Column>)
    : Result<map<K, Column>>
    requires |keys| <= |words| && i <= |keys|
    decreases |keys| - i
  {
    if i == |keys| then Ok(m)
    else if words[i] == HOLE then ReadCells(keys, f, time, words, i + 1, m)
    else if f.parse(words[i]).None? then Err("invalid reading value as floating point")
    else ReadCells(keys, f, time, words, i + 1, Append(m, keys[i], Sample(time, f.parse(words[i]).value)))
  }

  /** What a line does: it can be read if and only if each of its words is a hole or a number, and then each key gains
      the number in its place, and no other key anything. */
  lemma {:induction false} CellsRead<K>(keys: seq<K>, f: Format, time: int, words: seq<string>, i: nat,
                                        m: map<K, Column>, k: K)
    requires |keys| <= |words| && i <= |keys| && Distinct(keys)
    ensures ReadCells(keys, f, time, words, i, m).Ok?
       <==> forall j: nat :: i <= j < |keys| ==> words[j] == "NaN" || f.parse(words[j]).Some?
    ensures ReadCells(keys, f, time, words, i, m).Ok? ==>
              var r := ReadCells(keys, f, time, words, i, m).value;
              && (k !in keys[i..] ==> Get(r, k) == Get(m, k))
              && (forall j: nat :: i <= j < |keys| && keys[j] == k ==>
                    Get(r, k) == Get(m, k) + if words[j] == "NaN" then [] else [Sample(time, f.parse(words[j]).value)])
    decreases |keys| - i
  {
    if i < |keys| {
      assert forall x: K :: x in keys[i..] <==> x == keys[i] || x in keys[i + 1..];
      assert keys[i] !in keys[i + 1..];
      if words[i] == HOLE {
        CellsRead(keys, f, time, words, i + 1, m, k);
      } else if f.parse(words[i]).Some? {
        var m' := Append(m, keys[i], Sample(time, f.parse(words[i]).value));
        CellsRead(keys, f, time, words, i + 1, m', k);
        assert Get(m', k) == if k == keys[i] then Get(m, k) + [Sample(time, f.parse(words[i]).value)] else Get(m, k);
      }
    }
  }

  function Drop(s: string, n: nat): (rest: string)
    ensures |rest| <= |s|
  {
    if n <= |s| then s[n..] else ""
  }

  /** What the reader makes of the lines that are left. */
  function ReadText<K>(keys: seq<K>, f: Format, s: string, m: map<K, Column>): Result<map<K, Column>>
    decreases |s|
  {
    match f.takeTime(s)
    case Ended => Ok(m)
    case Malformed => Err("incorrect time format")
    case Time(time, used) =>
      var rest := Drop(s, used);
      if rest == "" then Err("at reading data values")
      else
        var words := Words(LineOf(rest));
        if |words| < |keys| then Err("incorrect number of values in data section's string")
        else
          var r := ReadCells(keys, f, time, words, 0, m);
          if r.Err? then r else ReadText(keys, f, AfterLine(rest), r.value)
  }

  /** The reader accepts a line of column names: as many as there are keys, and each the one the table has. */
  predicate NamesFit<K>(keys: seq<K>, table: K -> Option<string>, words: seq<string>) {
    |words| == |keys| + 1 &&
    forall i: nat :: i < |keys| ==> table(keys[i]).None? || table(keys[i]) == Some(words[i + 1])
  }

  /** The names are right if there is one for the time and one for each key, and each key that the table knows has its
      own; a key that it does not know may have any name. */
  lemma NamesAre<K>(keys: seq<K>, table: K -> Option<string>, words: seq<string>)
    ensures NamesFit(keys, table, words)
       <==> |words| == 1 + |keys| && forall i: nat, name: string :: i < |keys| && table(keys[i]) == Some(name) ==>
                                       words[1 + i] == name
  {
    if |words| == 1 + |keys| && !NamesFit(keys, table, words) {
      var i: nat :| i < |keys| && table(keys[i]).Some? && table(keys[i]) != Some(words[i + 1]);
      assert table(keys[i]) == Some(table(keys[i]).value) && words[1 + i] != table(keys[i]).value;
    }
  }

  /** The section has its two head lines; whatever the first one says, it is passed over. */
  predicate HasHead(input: string) {
    input != "" && AfterLine(input) != ""
  }

  /** What the reader makes of the data section. */
  function ReadSection<K(==)>(keys: seq<K>, table: K -> Option<string>, f: Format, input: string)
    : Result<map<K, Column>>
  {
    if HasHead(input) && NamesFit(keys, table, Words(LineOf(AfterLine(input))))
    then ReadText(keys, f, AfterLine(AfterLine(input)), map[])
    else Err("no such section")
  }

  /** One line of values. */
  method ReadLine<K(==)>(keys: seq<K>, f: Format, time: int, line: string, m0: map<K, Column>)
    returns (result: Result<map<K, Column>>)
    ensures var words := Words(line);
            result == if |words| < |keys| then Err("incorrect number of values in data section's string")
                      else ReadCells(keys, f, time, words, 0, m0)
  {
    var values := SplitIgnore(line);
    if |values| < |keys| {
      return Err("incorrect number of values in data section's string");
    }
    var m := m0;
    for i := 0 to |keys|
      invariant ReadCells(keys, f, time, values, 0, m0) == ReadCells(keys, f, time, values, i, m)
    {
      if values[i] != HOLE {
        var value := f.parse(values[i]);
        if value.None? {
          return Err("invalid reading value as floating point");
        }
        m := Append(m, keys[i], Sample(time, value.value));
      }
    }
    return Ok(m);
  }

  /** The check of the column names. */
  method CheckNames<K(==)>(keys: seq<K>, table: K -> Option<string>, names: string) returns (fit: bool)
    ensures fit <==> NamesFit(keys, table, Words(names))
  {
    var headNames := SplitIgnore(names);
    if |keys| != |headNames| - 1 {
      return false;
    }
    for i := 0 to |keys|
      invariant forall j: nat :: j < i ==> table(keys[j]).None? || table(keys[j]) == Some(headNames[j + 1])
    {
      if table(keys[i]).Some? && headNames[i + 1] != table(keys[i]).value {
        return false;
      }
    }
    return true;
  }

  /** `read_data`: the section from the line that opens it on. */
  method ReadData<K(==)>(keys: seq<K>, table: K -> Option<string>, f: Format, input: string)
    returns (result: Result<map<K, Column>>)
    ensures result.Ok? <==> ReadSection(keys, table, f, input).Ok?
    ensures result.Ok? ==> result == ReadSection(keys, table, f, input)
  {
    if input == "" {
      return Err("no data section");
    }
    var s := AfterLine(input);
    if s == "" {
      return Err("no column names");
    }
    var fit := CheckNames(keys, table, LineOf(s));
    if !fit {
      return Err("invalid parameters number, or incorrect order of parameters in data section");
    }
    s := AfterLine(s);
    result := ReadRows(keys, f, s);
  }

  /** The loop over the lines of values. */
  method ReadRows<K(==)>(keys: seq<K>, f: Format, input: string) returns (result: Result<map<K, Column>>)
    ensures result == ReadText(keys, f, input, map[])
  {
    var s, m: map<K, Column> := input, map[];
    while true
      invariant ReadText(keys, f, input, map[]) == ReadText(keys, f, s, m)
      decreases |s|
    {
      var parsed := f.takeTime(s);
      if parsed.Ended? {
        return Ok(m);
      }
      if parsed.Malformed? {
        return Err("incorrect time format");
      }
      var rest := Drop(s, parsed.used);
      if rest == "" {
        return Err("at reading data values");
      }
      var r := ReadLine(keys, f, parsed.time, LineOf(rest), m);
      if r.Err? {
        return r;
      }
      s, m := AfterLine(rest), r.value;
    }
  }

  /** The samples of a row under their keys, with the times that are printed. */
  function RowItems<K>(keys: seq<K>, row: Row, i: nat): seq<(K, Sample)>
    requires i <= |keys| == |row.cells|
    decreases |keys| - i
  {
    if i == |keys| then []
    else
      var rest := RowItems(keys, row, i + 1);
      if row.cells[i].Some? then [(keys[i], Sample(Truncated(row.time), row.cells[i].value))] + rest else rest
  }

  lemma {:induction false} CellsReadBack<K>(keys: seq<K>, f: Format, row: Row, i: nat, m: map<K, Column>)
    requires Faithful(f) && Printable(f, row) && i <= |keys| == |row.cells|
    ensures ReadCells(keys, f, Truncated(row.time), CellTexts(f, row.cells), i, m)
         == Ok(Collect(m, RowItems(keys, row, i)))
    decreases |keys| - i
  {
    if i < |keys| {
      var items, texts := RowItems(keys, row, i), CellTexts(f, row.cells);
      if row.cells[i].Some? {
        var value := row.cells[i].value;
        FaithfulAt(f, value);
        assert texts[i] != HOLE && f.parse(texts[i]) == Some(value);
        var m' := Append(m, keys[i], Sample(Truncated(row.time), value));
        assert items[0] == (keys[i], Sample(Truncated(row.time), value)) && items[1..] == RowItems(keys, row, i + 1);
        assert Collect(m, items) == Collect(m', RowItems(keys, row, i + 1));
        CellsReadBack(keys, f, row, i + 1, m');
      } else {
        assert texts[i] == HOLE && items == RowItems(keys, row, i + 1);
        CellsReadBack(keys, f, row, i + 1, m);
      }
    }
  }

  function Items<K>(keys: seq<K>, rows: seq<Row>): seq<(K, Sample)>
    requires forall i: nat :: i < |rows| ==> |rows[i].cells| == |keys|
  {
    if rows == [] then [] else RowItems(keys, rows[0], 0) + Items(keys, rows[1..])
  }

  /** The reader takes the first row off the text again. */
  lemma RowTakenOff(f: Format, row: Row, more: string)
    requires Faithful(f) && Printable(f, row)
    ensures var time := f.printTime(Truncated(row.time));
            var s := time + (RowCells(f, row) + "\n" + more);
            var rest := RowCells(f, row) + "\n" + more;
            && f.takeTime(s) == Time(Truncated(row.time), |time|) && Drop(s, |time|) == rest && rest != ""
            && LineOf(rest) == RowCells(f, row) && AfterLine(rest) == more
  {
    var body := Body(CellTexts(f, row.cells), CELL_WIDTH);
    RowWords(f, row);
    LineThenRest(RowCells(f, row), more);
    assert RowCells(f, row) + "\n" + more == "\t" + (body + "\n" + more);
  }

  lemma {:induction false} RowsReadBack<K>(keys: seq<K>, f: Format, rows: seq<Row>, m: map<K, Column>)
    requires Faithful(f) && AllPrintable(f, rows) && forall i: nat :: i < |rows| ==> |rows[i].cells| == |keys|
    ensures ReadText(keys, f, FileText(f, rows), m) == Ok(Collect(m, Items(keys, rows)))
    decreases |rows|
  {
    if rows != [] {
      RowTakenOff(f, rows[0], FileText(f, rows[1..]));
      RowWords(f, rows[0]);
      CellsReadBack(keys, f, rows[0], 0, m);
      var m' := Collect(m, RowItems(keys, rows[0], 0));
      RowsReadBack(keys, f, rows[1..], m');
      CollectConcat(m, RowItems(keys, rows[0], 0), Items(keys, rows[1..]));
    }
  }

  /** The text of good rows is read, and what follows it decides. */
  lemma {:induction false} RowsThenTail<K>(keys: seq<K>, f: Format, rows: seq<Row>, tail: string, m: map<K, Column>)
    requires Faithful(f) && AllPrintable(f, rows) && forall i: nat :: i < |rows| ==> |rows[i].cells| == |keys|
    ensures ReadText(keys, f, FileText(f, rows) + tail, m) == ReadText(keys, f, tail, Collect(m, Items(keys, rows)))
    decreases |rows|
  {
    if rows == [] {
      assert FileText(f, rows) + tail == tail;
    } else {
      var more := FileText(f, rows[1..]) + tail;
      var time := f.printTime(Truncated(rows[0].time));
      assert FileText(f, rows) + tail == time + (RowCells(f, rows[0]) + "\n" + more);
      RowTakenOff(f, rows[0], more);
      RowWords(f, rows[0]);
      CellsReadBack(keys, f, rows[0], 0, m);
      RowsThenTail(keys, f, rows[1..], tail, Collect(m, RowItems(keys, rows[0], 0)));
      CollectConcat(m, RowItems(keys, rows[0], 0), Items(keys, rows[1..]));
    }
  }

  /** A line that cannot be read: its time is malformed, nothing follows it, there are too few words, or one is neither
      a hole nor a number. */
  ghost predicate Unreadable<K>(keys: seq<K>, f: Format, s: string) {
    match f.takeTime(s)
    case Ended => false
    case Malformed => true
    case Time(_, used) =>
      || used >= |s|
      || |Words(LineOf(s[used..]))| < |keys|
      || exists j: nat :: j < |keys| && var w := Words(LineOf(s[used..]))[j]; w != "NaN" && f.parse(w).None?
  }

  /** A line that can be read, with words to spare or not, is taken, and the next one decides. */
  lemma GoodLineGoesOn<K>(keys: seq<K>, f: Format, s: string, m: map<K, Column>, j: nat) returns (m': map<K, Column>)
    requires f.takeTime(s).Time? && !Unreadable(keys, f, s) && Distinct(keys) && j < |keys|
    ensures ReadText(keys, f, s, m) == ReadText(keys, f, AfterLine(s[f.takeTime(s).used..]), m')
    ensures var word := Words(LineOf(s[f.takeTime(s).used..]))[j];
            Get(m', keys[j]) == Get(m, keys[j])
              + if word == "NaN" then [] else [Sample(f.takeTime(s).time, f.parse(word).value)]
  {
    var time, rest := f.takeTime(s).time, s[f.takeTime(s).used..];
    CellsRead(keys, f, time, Words(LineOf(rest)), 0, m, keys[j]);
    m' := ReadCells(keys, f, time, Words(LineOf(rest)), 0, m).value;
  }

  /** One such line after any good rows spoils the whole text, whatever comes after it; without one, the text ends where
      no time is left. */
  lemma BadLineSpoils<K>(keys: seq<K>, f: Format, rows: seq<Row>, tail: string)
    requires Faithful(f) && AllPrintable(f, rows) && Distinct(keys)
    requires forall i: nat :: i < |rows| ==> |rows[i].cells| == |keys|
    ensures Unreadable(keys, f, tail) ==> ReadText(keys, f, FileText(f, rows) + tail, map[]).Err?
    ensures f.takeTime(tail).Ended? ==> ReadText(keys, f, FileText(f, rows) + tail, map[]).Ok?
  {
    var m := Collect(map[], Items(keys, rows));
    RowsThenTail(keys, f, rows, tail, map[]);
    if Unreadable(keys, f, tail) && f.takeTime(tail).Time? && f.takeTime(tail).used < |tail| {
      var words := Words(LineOf(tail[f.takeTime(tail).used..]));
      if |words| >= |keys| {
        var j: nat :| j < |keys| && words[j] != "NaN" && f.parse(words[j]).None?;
        CellsRead(keys, f, f.takeTime(tail).time, words, 0, m, keys[j]);
      }
    }
  }

  /** Value by value the same, each at the whole second of its time. */
  ghost predicate CutToSeconds(col: Column, read: Column) {
    && |read| == |col|
    && forall i: nat :: i < |col| ==> read[i].value == col[i].value && InSecond(col[i].time, read[i].time)
  }

  lemma TruncatedCuts(col: Column)
    ensures CutToSeconds(col, TruncatedAll(col))
  {
    forall i: nat | i < |col|
      ensures InSecond(col[i].time, TruncatedAll(col)[i].time)
    {
      TruncatedIsInSecond(col[i].time);
    }
  }

  function TruncatedAll(col: Column): (r: Column) {
    seq(|col|, i requires 0 <= i < |col| => Sample(Truncated(col[i].time), col[i].value))
  }

  lemma TruncatedConcat(a: Column, b: Column)
    ensures TruncatedAll(a + b) == TruncatedAll(a) + TruncatedAll(b)
  {
  }

  lemma {:induction false} SamplesOfRow<K>(keys: seq<K>, row: Row, i: nat, c: nat)
    requires Distinct(keys) && i <= |keys| == |row.cells| && c < |keys|
    ensures Samples(RowItems(keys, row, i), keys[c])
         == if i <= c && row.cells[c].Some? then [Sample(Truncated(row.time), row.cells[c].value)] else []
    decreases |keys| - i
  {
    if i < |keys| {
      SamplesOfRow(keys, row, i + 1, c);
      if row.cells[i].Some? {
        assert RowItems(keys, row, i)[1..] == RowItems(keys, row, i + 1);
      }
    }
  }

  lemma TruncatedStep(rows: seq<Row>, c: nat)
    requires rows != [] && Wide(rows, c)
    ensures TruncatedAll(Emitted(rows, c))
         == (if rows[0].cells[c].Some? then [Sample(Truncated(rows[0].time), rows[0].cells[c].value)] else [])
            + TruncatedAll(Emitted(rows[1..], c))
  {
    var row := rows[0];
    var head := if row.cells[c].Some? then [Sample(row.time, row.cells[c].value)] else [];
    assert Emitted(rows, c) == head + Emitted(rows[1..], c);
    TruncatedConcat(head, Emitted(rows[1..], c));
  }

  lemma {:induction false} SamplesOfRows<K>(keys: seq<K>, rows: seq<Row>, c: nat)
    requires Distinct(keys) && c < |keys| && forall i: nat :: i < |rows| ==> |rows[i].cells| == |keys|
    ensures Samples(Items(keys, rows), keys[c]) == TruncatedAll(Emitted(rows, c))
  {
    if rows != [] {
      SamplesConcat(RowItems(keys, rows[0], 0), Items(keys, rows[1..]), keys[c]);
      SamplesOfRow(keys, rows[0], 0, c);
      SamplesOfRows(keys, rows[1..], c);
      TruncatedStep(rows, c);
    }
  }

  /** A file reads back as the series its rows hold, at whole seconds. */
  lemma FileReadsBack<K>(keys: seq<K>, f: Format, rows: seq<Row>, c: nat)
    requires Faithful(f) && AllPrintable(f, rows) && Distinct(keys) && c < |keys|
    requires forall i: nat :: i < |rows| ==> |rows[i].cells| == |keys|
    ensures ReadText(keys, f, FileText(f, rows), map[]).Ok?
    ensures Get(ReadText(keys, f, FileText(f, rows), map[]).value, keys[c]) == TruncatedAll(Emitted(rows, c))
    ensures CutToSeconds(Emitted(rows, c), Get(ReadText(keys, f, FileText(f, rows), map[]).value, keys[c]))
  {
    TruncatedCuts(Emitted(rows, c));
    RowsReadBack(keys, f, rows, map[]);
    CollectByKey(map[], Items(keys, rows), keys[c]);
    SamplesOfRows(keys, rows, c);
  }
}
