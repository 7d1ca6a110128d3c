/**
 * `CSVSerializer` (src/common/CSVSerializer.js): the CSV text deserializer, which turns
 * each line after the header into an object keyed by column title, and the loader
 * whose status field the file reader's events move from `NONE` to a final status.
 */
module CSVSerializer {
  import opened Wrappers
  import opened JsStrings
  import opened JsNumbers
  import opened JsValues
  import opened Utility
  import opened Sequences

  // ---------------------------------------------------------------------------
  // Deserializing

  /** One deserialized line: an object from column titles to cell values. */
  type Row = Entries<Value>

  /** The non-blank lines of the text, trimmed. */
  function Lines(text: string): seq<string> {
    Sanitized(Present(Split(text, '\n')))
  }

  /** The non-blank comma-separated fields of a line, trimmed. */
  function Columns(line: string): seq<string> {
    Sanitized(Present(Split(line, ',')))
  }

  /** The key a field gets when there is no title for it: `[line][field]`, both 1-based. */
  function GeneratedTitle(i: nat, j: nat): string {
    "[" + NatToString(i + 1) + "][" + NatToString(j + 1) + "]"
  }

  /** The key of field `j` of line `i`: its column title, or the generated one. */
  function ColumnTitle(titles: seq<string>, i: nat, j: nat): string {
    if j < |titles| then titles[j] else GeneratedTitle(i, j)
  }

  /** A cell as stored: `true`/`false` as booleans, numeric text as a number, else the text. */
  function Coerce(cell: string): Value {
    if cell == "true" || cell == "false" then Bool(cell == "true")
    else if IsNumeric(cell) then Num(StringToNumber(cell).value)
    else Str(cell)
  }

  /** The keys of the first `n` fields of line `i`. */
  function LineKeys(titles: seq<string>, i: nat, n: nat): (keys: seq<string>)
    ensures |keys| == n && forall j | 0 <= j < n :: keys[j] == ColumnTitle(titles, i, j)
  {
    seq(n, j requires 0 <= j < n => ColumnTitle(titles, i, j))
  }

  /** The stored values of the fields. */
  function Cells(fields: seq<string>): (values: seq<Value>)
    ensures |values| == |fields| && forall j | 0 <= j < |fields| :: values[j] == Coerce(fields[j])
  {
    seq(|fields|, j requires 0 <= j < |fields| => Coerce(fields[j]))
  }

  /** An object built by writing each value, in order, under the key at the same position. */
  function Record(keys: seq<string>, values: seq<Value>): Row
    requires |keys| == |values|
  {
    if keys == [] then []
    else
      var j := |keys| - 1;
      Put(Record(keys[..j], values[..j]), keys[j], values[j])
  }

  /** The object of the fields of line `i`. */
  function RowOf(titles: seq<string>, i: nat, fields: seq<string>): Row {
    Record(LineKeys(titles, i, |fields|), Cells(fields))
  }

  /** The fields of each line. */
  function LineFields(lines: seq<string>): (fields: seq<seq<string>>)
    ensures |fields| == |lines| && forall k | 0 <= k < |lines| :: fields[k] == Columns(lines[k])
  {
    seq(|lines|, k requires 0 <= k < |lines| => Columns(lines[k]))
  }

  /**
   * The rows of the lines' fields: the first line's fields are the titles, and every
   * later line `i` gives the row `rowOf(titles, i, fields)`, in order.
   */
  function Table<R>(fields: seq<seq<string>>, rowOf: (seq<string>, nat, seq<string>) -> R): seq<R>
    decreases |fields|
  {
    if |fields| <= 1 then []
    else
      var i := |fields| - 1;
      Table(fields[..i], rowOf) + [rowOf(fields[0], i, fields[i])]
  }

  /** The table of one more line: the first line alone gives no row, every later one a row. */
  lemma TableStep<R>(fields: seq<seq<string>>, rowOf: (seq<string>, nat, seq<string>) -> R, i: nat)
    requires i < |fields|
    ensures i == 0 ==> Table(fields[..i + 1], rowOf) == []
    ensures i >= 1 ==>
      Table(fields[..i + 1], rowOf) == Table(fields[..i], rowOf) + [rowOf(fields[0], i, fields[i])]
  {
    PrefixStep(fields, i);
  }

  /** A table extended by the row of the next line is the table of one more line. */
  lemma TableAppend<R>(fields: seq<seq<string>>, rowOf: (seq<string>, nat, seq<string>) -> R, i: nat, before: seq<R>, row: R)
    requires 1 <= i < |fields|
    requires before == Table(fields[..i], rowOf) && row == rowOf(fields[0], i, fields[i])
    ensures before + [row] == Table(fields[..i + 1], rowOf)
  {
    TableStep(fields, rowOf, i);
  }

  /** There is one row per line after the first, in order of the lines. */
  lemma {:induction false} TableRows<R>(fields: seq<seq<string>>, rowOf: (seq<string>, nat, seq<string>) -> R)
    ensures |Table(fields, rowOf)| == if fields == [] then 0 else |fields| - 1
    ensures forall k | 0 <= k < |Table(fields, rowOf)| ::
      Table(fields, rowOf)[k] == rowOf(fields[0], k + 1, fields[k + 1])
    decreases |fields|
  {
    if |fields| > 1 {
      var n := |fields| - 1;
      var init := fields[..n];
      TableRows(init, rowOf);
      var last := rowOf(fields[0], n, fields[n]);
      assert Table(fields, rowOf) == Table(init, rowOf) + [last];
      forall k | 0 <= k < |Table(fields, rowOf)|
        ensures Table(fields, rowOf)[k] == rowOf(fields[0], k + 1, fields[k + 1])
      {
        AppendIndex(Table(init, rowOf), last, k);
        if k < n - 1 {
          assert init[0] == fields[0] && init[k + 1] == fields[k + 1];
        }
      }
    }
  }

  /** What `deserializeCSV(text)` returns. */
  function Deserialize(text: string): seq<Row> {
    Table(LineFields(Lines(text)), RowOf)
  }

  /**
   * `deserializeCSV(text)`: the first line's fields become the titles; every later
   * line becomes the object built field by field.
   */
  method DeserializeCSV(text: string) returns (csvData: seq<Row>)
    ensures csvData == Deserialize(text)
  {
    var lines := SanitizeStringArray(Present(Split(text, '\n')));
    csvData := DeserializeLines(lines);
  }

  /**
   * The loop of `deserializeCSV` over the sanitised lines: the first line's fields
   * become the titles, and every later line is appended as its row.
   */
  method DeserializeLines(lines: seq<string>) returns (csvData: seq<Row>)
    ensures csvData == Table(LineFields(lines), RowOf)
  {
    ghost var fields := LineFields(lines);
    var columnTitles: seq<string> := [];
    csvData := [];
    for i := 0 to |lines|
      invariant i >= 1 ==> columnTitles == fields[0]
      invariant csvData == Table(fields[..i], RowOf)
    {
      var columns := SanitizeStringArray(Present(Split(lines[i], ',')));
      assert columns == fields[i];
      if i == 0 {
        TableStep(fields, RowOf, i);
        columnTitles := columns;
        continue;
      }
      var rowData := RowData(columnTitles, i, columns);
      TableAppend(fields, RowOf, i, csvData, rowData);
      csvData := csvData + [rowData];
    }
    PrefixFull(fields);
  }

  /**
   * The inner loop of `deserializeCSV`: each field of line `i`, coerced, written under
   * its title or under the generated `[line][field]` key.
   */
  method RowData(columnTitles: seq<string>, i: nat, columns: seq<string>) returns (rowData: Row)
    ensures rowData == RowOf(columnTitles, i, columns)
  {
    rowData := [];
    ghost var keys := LineKeys(columnTitles, i, |columns|);
    ghost var cells := Cells(columns);
    for j := 0 to |columns|
      invariant rowData == Record(keys[..j], cells[..j])
    {
      RecordStep(keys, cells, j);
      var columnTitle := if j < |columnTitles| then columnTitles[j] else GeneratedTitle(i, j);
      var cell: Value;
      if columns[j] == "true" || columns[j] == "false" {
        cell := Bool(columns[j] == "true");
      } else if IsNumeric(columns[j]) {
        cell := Num(StringToNumber(columns[j]).value);
      } else {
        cell := Str(columns[j]);
      }
      assert columnTitle == keys[j] && cell == cells[j];
      rowData := Put(rowData, columnTitle, cell);
    }
    PrefixFull(keys);
    PrefixFull(cells);
  }

  /** The record of one more key and value: that value written over the record before. */
  lemma RecordStep(keys: seq<string>, values: seq<Value>, j: nat)
    requires j < |keys| == |values|
    ensures Record(keys[..j + 1], values[..j + 1]) == Put(Record(keys[..j], values[..j]), keys[j], values[j])
  {
    PrefixStep(keys, j);
    PrefixStep(values, j);
  }

  /** The property `key` of every row, in order; `undefined` where a row lacks it. */
  function Column(rows: seq<Row>, key: string): (vs: seq<Value>)
    ensures |vs| == |rows| && forall k | 0 <= k < |rows| :: vs[k] == Get(rows[k], key)
  {
    seq(|rows|, k requires 0 <= k < |rows| => Get(rows[k], key))
  }

  // ---------------------------------------------------------------------------
  // Properties of the deserializer

  /** The rows of a text: one per non-blank line after the first, in order. */
  lemma DeserializeRows(text: string)
    ensures |Deserialize(text)| == if |Lines(text)| == 0 then 0 else |Lines(text)| - 1
    ensures forall k | 0 <= k < |Deserialize(text)| ::
      Deserialize(text)[k] == RowOf(Columns(Lines(text)[0]), k + 1, Columns(Lines(text)[k + 1]))
  {
    TableRows(LineFields(Lines(text)), RowOf);
  }

  /** The keys of a record are exactly its keys, each once. */
  lemma RecordKeys(keys: seq<string>, values: seq<Value>, key: string)
    requires |keys| == |values|
    ensures UniqueKeys(Record(keys, values))
    ensures key in Keys(Record(keys, values)) <==> key in keys
  {
    RecordUnique(keys, values);
    RecordHasKey(keys, values, key);
  }

  lemma {:induction false} RecordUnique(keys: seq<string>, values: seq<Value>)
    requires |keys| == |values|
    ensures UniqueKeys(Record(keys, values))
    decreases |keys|
  {
    if keys != [] {
      var j := |keys| - 1;
      RecordUnique(keys[..j], values[..j]);
      PutUnique(Record(keys[..j], values[..j]), keys[j], values[j]);
    }
  }

  lemma {:induction false} RecordHasKey(keys: seq<string>, values: seq<Value>, key: string)
    requires |keys| == |values|
    ensures key in Keys(Record(keys, values)) <==> key in keys
    decreases |keys|
  {
    if keys != [] {
      var j := |keys| - 1;
      var r := Record(keys[..j], values[..j]);
      RecordHasKey(keys[..j], values[..j], key);
      HasKeyPut(r, keys[j], values[j], key);
      InSnoc(keys, key);
    }
  }

  /** Of the positions holding the same key, the value at the last one is stored. */
  lemma {:induction false} RecordLastWins(keys: seq<string>, values: seq<Value>, j: nat)
    requires |keys| == |values| && j < |keys|
    requires forall j' | j < j' < |keys| :: keys[j'] != keys[j]
    ensures Lookup(Record(keys, values), keys[j]) == Some(values[j])
    decreases |keys|
  {
    var n := |keys| - 1;
    LookupPut(Record(keys[..n], values[..n]), keys[n], values[n], keys[j]);
    if j < n {
      RecordLastWins(keys[..n], values[..n], j);
    }
  }

  /** With distinct keys, the record is the keys paired with the values, in order. */
  lemma {:induction false} RecordDistinct(keys: seq<string>, values: seq<Value>)
    requires |keys| == |values|
    requires forall a, b | 0 <= a < b < |keys| :: keys[a] != keys[b]
    ensures |Record(keys, values)| == |keys|
    ensures forall j | 0 <= j < |keys| :: Record(keys, values)[j] == (keys[j], values[j])
    decreases |keys|
  {
    if keys != [] {
      var n := |keys| - 1;
      RecordDistinct(keys[..n], values[..n]);
      RecordKeys(keys[..n], values[..n], keys[n]);
      PutFresh(Record(keys[..n], values[..n]), keys[n], values[n]);
    }
  }

  /** The keys of a row are exactly the keys of its fields, each once. */
  lemma RowKeys(titles: seq<string>, i: nat, fields: seq<string>, key: string)
    ensures UniqueKeys(RowOf(titles, i, fields))
    ensures key in Keys(RowOf(titles, i, fields)) <==>
      exists j | 0 <= j < |fields| :: ColumnTitle(titles, i, j) == key
  {
    var keys := LineKeys(titles, i, |fields|);
    RecordKeys(keys, Cells(fields), key);
    if key in keys {
      var j :| 0 <= j < |keys| && keys[j] == key;
      assert ColumnTitle(titles, i, j) == key;
    }
  }

  /** A key that no field of the row maps to is absent from the row: there is no null fill. */
  lemma MissingKey(titles: seq<string>, i: nat, fields: seq<string>, key: string)
    requires forall j | 0 <= j < |fields| :: ColumnTitle(titles, i, j) != key
    ensures Lookup(RowOf(titles, i, fields), key) == None
  {
    RowKeys(titles, i, fields, key);
  }

  /** Of the fields that map to the same key, the last one's value is the one stored. */
  lemma LastFieldWins(titles: seq<string>, i: nat, fields: seq<string>, j: nat)
    requires j < |fields|
    requires forall j' | j < j' < |fields| :: ColumnTitle(titles, i, j') != ColumnTitle(titles, i, j)
    ensures Lookup(RowOf(titles, i, fields), ColumnTitle(titles, i, j)) == Some(Coerce(fields[j]))
  {
    RecordLastWins(LineKeys(titles, i, |fields|), Cells(fields), j);
  }

  /** When all keys differ, field `j` sits at position `j` under its key. */
  lemma RowOfDistinct(titles: seq<string>, i: nat, fields: seq<string>)
    requires forall j, j' | 0 <= j < j' < |fields| :: ColumnTitle(titles, i, j) != ColumnTitle(titles, i, j')
    ensures |RowOf(titles, i, fields)| == |fields|
    ensures forall j | 0 <= j < |fields| :: RowOf(titles, i, fields)[j] == (ColumnTitle(titles, i, j), Coerce(fields[j]))
  {
    RecordDistinct(LineKeys(titles, i, |fields|), Cells(fields));
  }

  /** With distinct titles, a line with fewer fields than titles lacks the later titles. */
  lemma ShortLine(titles: seq<string>, i: nat, fields: seq<string>, k: nat)
    requires forall a, b | 0 <= a < b < |titles| :: titles[a] != titles[b]
    requires |fields| <= k < |titles|
    ensures Lookup(RowOf(titles, i, fields), titles[k]) == None
  {
    MissingKey(titles, i, fields, titles[k]);
  }

  /** Generated keys of one line differ from each other: they name their field. */
  lemma GeneratedTitleInjective(i: nat, j: nat, j': nat)
    requires GeneratedTitle(i, j) == GeneratedTitle(i, j')
    ensures j == j'
  {
    var p := "[" + NatToString(i + 1) + "][";
    var x, y := NatToString(j + 1), NatToString(j' + 1);
    assert GeneratedTitle(i, j) == p + x + "]";
    assert GeneratedTitle(i, j') == p + y + "]";
    BracketedInjective(p, x, y);
  }

  lemma BracketedInjective(p: string, x: string, y: string)
    requires p + x + "]" == p + y + "]"
    ensures x == y
  {
    var a := p + x + "]";
    assert |x| == |y|;
    assert forall k | 0 <= k < |x| :: x[k] == a[|p| + k] == y[k];
  }

  /** The lines of a text written as separate pieces are those pieces, sanitised. */
  lemma LinesOfJoin(parts: seq<string>)
    requires |parts| >= 1 && forall k | 0 <= k < |parts| :: '\n' !in parts[k]
    ensures Lines(Join(parts, '\n')) == Sanitized(Present(parts))
  {
    SplitJoin(parts, '\n');
  }

  /**
   * A blank line anywhere in the text, including between data lines, is dropped as if
   * it were not there: it neither counts as a line nor gives a row.
   */
  lemma BlankLineIgnored(parts: seq<string>, k: nat)
    requires 2 <= |parts| && k < |parts| && AllWhiteSpace(parts[k])
    requires forall m | 0 <= m < |parts| :: '\n' !in parts[m]
    ensures Lines(Join(parts, '\n')) == Lines(Join(parts[..k] + parts[k + 1..], '\n'))
    ensures Deserialize(Join(parts, '\n')) == Deserialize(Join(parts[..k] + parts[k + 1..], '\n'))
  {
    var rest := parts[..k] + parts[k + 1..];
    RemovedPiece(parts, k, '\n');
    LinesOfJoin(parts);
    LinesOfJoin(rest);
    SanitizedWithoutBlank(parts, k);
  }

  /** Removing one piece keeps every remaining piece free of a character none contained. */
  lemma RemovedPiece(parts: seq<string>, k: nat, c: char)
    requires k < |parts| && forall m | 0 <= m < |parts| :: c !in parts[m]
    ensures var rest := parts[..k] + parts[k + 1..];
      |rest| == |parts| - 1 && forall m | 0 <= m < |rest| :: c !in rest[m]
  {
    var rest := parts[..k] + parts[k + 1..];
    forall m | 0 <= m < |rest| ensures c !in rest[m] {
      if m < k { assert rest[m] == parts[m]; } else { assert rest[m] == parts[m + 1]; }
    }
  }

  /** Dropping a white-space entry from an array does not change what it sanitises to. */
  lemma SanitizedWithoutBlank(parts: seq<string>, k: nat)
    requires k < |parts| && AllWhiteSpace(parts[k])
    ensures Sanitized(Present(parts)) == Sanitized(Present(parts[..k] + parts[k + 1..]))
  {
    var before, w, after := parts[..k], parts[k], parts[k + 1..];
    assert parts == before + [w] + after;
    PresentConcat(before + [w], after);
    PresentConcat(before, [w]);
    PresentConcat(before, after);
    assert Present([w]) == [Some(w)];
    assert Present(parts) == Present(before) + [Some(w)] + Present(after);
    SanitizedDropsBlank(Present(before), Some(w), Present(after));
  }

  /** The entries of two arrays are the entries of the first, then of the second. */
  lemma PresentConcat(xs: seq<string>, ys: seq<string>)
    ensures Present(xs + ys) == Present(xs) + Present(ys)
  {
  }

  /** An entry that does not survive sanitising leaves the result as if it were absent. */
  lemma SanitizedDropsBlank(a: seq<Option<string>>, x: Option<string>, b: seq<Option<string>>)
    requires SanitizeString(x).None?
    ensures Sanitized(a + [x] + b) == Sanitized(a + b)
  {
    SanitizedConcat(a + [x], b);
    SanitizedConcat(a, [x]);
    SanitizedConcat(a, b);
    SanitizedSingle(x);
  }

  /**
   * A field beyond the titles is always stored under its generated `[line][field]`
   * key: no later field can take that key from it.
   */
  lemma OverflowFieldKept(titles: seq<string>, i: nat, fields: seq<string>, j: nat)
    requires |titles| <= j < |fields|
    ensures Lookup(RowOf(titles, i, fields), GeneratedTitle(i, j)) == Some(Coerce(fields[j]))
  {
    forall j' | j < j' < |fields| ensures ColumnTitle(titles, i, j') != ColumnTitle(titles, i, j) {
      if GeneratedTitle(i, j') == GeneratedTitle(i, j) { GeneratedTitleInjective(i, j', j); }
    }
    LastFieldWins(titles, i, fields, j);
  }

  /** A line with as many fields as there are distinct titles has exactly the titles as keys, in order. */
  lemma FullLineKeys(titles: seq<string>, i: nat, fields: seq<string>)
    requires forall a, b | 0 <= a < b < |titles| :: titles[a] != titles[b]
    requires |fields| == |titles|
    ensures Keys(RowOf(titles, i, fields)) == titles
    ensures forall j | 0 <= j < |fields| :: RowOf(titles, i, fields)[j] == (titles[j], Coerce(fields[j]))
  {
    RowOfDistinct(titles, i, fields);
  }

  /**
   * A header and one data line with as many fields as the header's distinct titles
   * give one row, whose keys are the titles in order.
   */
  lemma HeaderAndRow(text: string)
    requires |Lines(text)| == 2
    requires var titles := Columns(Lines(text)[0]);
      && (forall a, b | 0 <= a < b < |titles| :: titles[a] != titles[b])
      && |Columns(Lines(text)[1])| == |titles|
    ensures |Deserialize(text)| == 1
    ensures Keys(Deserialize(text)[0]) == Columns(Lines(text)[0])
  {
    DeserializeRows(text);
    FullLineKeys(Columns(Lines(text)[0]), 1, Columns(Lines(text)[1]));
  }

  /** Blank fields are dropped, so a line of commas and white space has no fields. */
  lemma BlankFields(line: string)
    requires forall k | 0 <= k < |line| :: line[k] == ',' || IsWhiteSpace(line[k])
    ensures Columns(line) == []
  {
    var parts := Split(line, ',');
    SplitPieces(line, ',');
    forall k | 0 <= k < |parts| ensures AllWhiteSpace(parts[k]) {
      forall m | 0 <= m < |parts[k]| ensures IsWhiteSpace(parts[k][m]) {
        var c := parts[k][m];
        assert c in line;
        var idx :| 0 <= idx < |line| && line[idx] == c;
        assert c != ',';
      }
    }
    SanitizedOfBlanks(Present(parts));
  }

  /** Every piece of a split consists of characters of the split string. */
  lemma {:induction false} SplitPieces(s: string, sep: char)
    ensures forall k, m | 0 <= k < |Split(s, sep)| && 0 <= m < |Split(s, sep)[k]| :: Split(s, sep)[k][m] in s
    decreases |s|
  {
    var i := IndexOf(s, sep);
    if i != -1 {
      SplitPieces(s[i + 1..], sep);
      assert forall c | c in s[i + 1..] :: c in s;
      assert forall m | 0 <= m < i :: s[..i][m] in s;
    } else {
      assert forall m | 0 <= m < |s| :: s[m] in s;
    }
  }

  /** Entries made only of white space all disappear. */
  lemma {:induction false} SanitizedOfBlanks(a: seq<Option<string>>)
    requires forall k | 0 <= k < |a| :: a[k].Some? && AllWhiteSpace(a[k].value)
    ensures Sanitized(a) == []
    decreases |a|
  {
    if a != [] {
      SanitizedOfBlanks(a[..|a| - 1]);
    }
  }

  /** A line of only commas yields a row with no keys. */
  lemma CommasOnlyLine(titles: seq<string>, i: nat, line: string)
    requires forall k | 0 <= k < |line| :: line[k] == ','
    ensures RowOf(titles, i, Columns(line)) == []
  {
    BlankFields(line);
  }

  /** Exactly `true` and `false` become booleans. */
  lemma CoerceBoolean(cell: string)
    ensures Coerce(cell).Bool? <==> cell == "true" || cell == "false"
    ensures Coerce(cell) == Bool(true) <==> cell == "true"
  {
  }

  /**
   * Any other spelling of a boolean stays text: in particular a cell starting with a
   * capital letter, such as `True` or `FALSE`.
   */
  lemma CoerceCapitalized(cell: string)
    requires |cell| >= 1 && 'A' <= cell[0] <= 'Z'
    ensures Coerce(cell) == Str(cell)
  {
    assert cell != "true" && cell != "false";
    NonNumericLead(cell);
  }

  /** A numeric cell becomes its number, a non-numeric one stays the same text. */
  lemma CoerceNumeric(cell: string)
    requires cell != "true" && cell != "false"
    ensures IsNumeric(cell) ==> Coerce(cell) == Num(StringToNumber(cell).value)
    ensures !IsNumeric(cell) ==> Coerce(cell) == Str(cell)
  {
  }

  /** A field written as an integer is stored as that integer. */
  lemma CoerceInteger(i: int)
    ensures Coerce(IntToString(i)) == Num(i as real)
  {
    IntToStringRoundTrip(i);
    var s := IntToString(i);
    if i < 0 {
      assert s[0] == '-';
    } else {
      assert IsDigit(s[0]);
    }
  }

  /** A header-only text has no rows. */
  lemma HeaderOnly(text: string)
    requires |Lines(text)| == 1
    ensures Deserialize(text) == []
  {
    DeserializeRows(text);
  }

  // ---------------------------------------------------------------------------
  // Loading

  /** The reader statuses the serializer keeps in `_status`. */
  datatype Status = NONE | LOADING | LOADED | ABORTED | ERROR

  /** `_csvData`: the empty object `{}` until a file has been read, then the rows. */
  datatype CSVData = EmptyObject | Rows(rows: seq<Row>)

  /** The file reader's events the serializer listens to. */
  datatype Event = LoadStart | Abort | Load | Error

  datatype LoaderState = LoaderState(status: Status, data: CSVData)

  /** Still reading: `readAsync` keeps waiting in these statuses. */
  predicate Reading(s: LoaderState) {
    s.status == NONE || s.status == LOADING
  }

  /** The effect of one event, where `loaded` is what the file deserializes to. */
  function Step(loaded: seq<Row>, s: LoaderState, e: Event): LoaderState {
    match e
    case LoadStart => s.(status := LOADING)
    case Abort => s.(status := ABORTED)
    case Error => s.(status := ERROR)
    case Load => LoaderState(LOADED, Rows(loaded))
  }

  /**
   * What `readAsync` does when the events arrive one per poll: the state once the
   * status has left `NONE` and `LOADING`, with the data returned, or the state after
   * the last event and `None` when it is still waiting then.
   */
  function Replay(loaded: seq<Row>, s: LoaderState, events: seq<Event>): (LoaderState, Option<CSVData>)
    decreases |events|
  {
    if !Reading(s) then (s, Some(s.data))
    else if events == [] then (s, None)
    else Replay(loaded, Step(loaded, s, events[0]), events[1..])
  }

  /** The state of a serializer that has not been read yet. */
  const Initial := LoaderState(NONE, EmptyObject)

  class Serializer {
    var status: Status
    var csvData: CSVData
    const csvFile: string

    function State(): LoaderState
      reads this
    {
      LoaderState(status, csvData)
    }

    /** A serializer of the given file: status `NONE`, data `{}`. */
    constructor(csvFile: string)
      ensures State() == Initial && this.csvFile == csvFile
    {
      status := NONE;
      this.csvFile := csvFile;
      csvData := EmptyObject;
    }

    /** The `load` handler: stores the deserialized text, and only then sets `LOADED`. */
    method OnFileLoaded()
      modifies this
      ensures State() == Step(Deserialize(csvFile), old(State()), Load)
    {
      var rows := DeserializeCSV(csvFile);
      csvData := Rows(rows);
      status := LOADED;
    }

    /** The `loadstart` handler. */
    method OnFileLoadStarted()
      modifies this
      ensures State() == Step(Deserialize(csvFile), old(State()), LoadStart)
    {
      status := LOADING;
    }

    /** The `abort` handler. */
    method OnFileLoadAborted()
      modifies this
      ensures State() == Step(Deserialize(csvFile), old(State()), Abort)
    {
      status := ABORTED;
    }

    /** The `error` handler. */
    method OnFileLoadError()
      modifies this
      ensures State() == Step(Deserialize(csvFile), old(State()), Error)
    {
      status := ERROR;
    }

    /** The listener each event is delivered to. */
    method Handle(e: Event)
      modifies this
      ensures State() == Step(Deserialize(csvFile), old(State()), e)
    {
      match e
      case LoadStart => OnFileLoadStarted();
      case Abort => OnFileLoadAborted();
      case Load => OnFileLoaded();
      case Error => OnFileLoadError();
    }

    /**
     * `readAsync()`: waits while the status is `NONE` or `LOADING`, one event arriving
     * per wait, then returns the stored data; `None` when the events run out first.
     */
    method ReadAsync(events: seq<Event>) returns (r: Option<CSVData>)
      modifies this
      ensures (State(), r) == Replay(Deserialize(csvFile), old(State()), events)
    {
      ghost var loaded := Deserialize(csvFile);
      var i := 0;
      while status == NONE || status == LOADING
        invariant 0 <= i <= |events|
        invariant Replay(loaded, old(State()), events) == Replay(loaded, State(), events[i..])
        decreases |events| - i
      {
        if i == |events| { return None; }
        assert events[i..][1..] == events[i + 1..];
        Handle(events[i]);
        i := i + 1;
      }
      r := Some(csvData);
    }
  }

  // ---------------------------------------------------------------------------
  // Properties of the loader

  /** The handlers change the status only; the data changes on `load` alone. */
  lemma StepEffects(loaded: seq<Row>, s: LoaderState, e: Event)
    ensures Step(loaded, s, e).status == match e
      case LoadStart => LOADING
      case Abort => ABORTED
      case Error => ERROR
      case Load => LOADED
    ensures e != Load ==> Step(loaded, s, e).data == s.data
    ensures e == Load ==> Step(loaded, s, e).data == Rows(loaded)
  {
  }

  /** `readAsync` returns only once the status is final, and then returns the stored data. */
  lemma {:induction false} ReplaySettles(loaded: seq<Row>, s: LoaderState, events: seq<Event>)
    ensures var (t, r) := Replay(loaded, s, events);
      (r.Some? <==> !Reading(t)) && (r.Some? ==> r.value == t.data)
    decreases |events|
  {
    if Reading(s) && events != [] {
      ReplaySettles(loaded, Step(loaded, s, events[0]), events[1..]);
    }
  }

  /** A read that ends `LOADED` returns the rows of the file, never data from before. */
  lemma {:induction false} LoadedIsFresh(loaded: seq<Row>, s: LoaderState, events: seq<Event>)
    requires Reading(s)
    requires Replay(loaded, s, events).0.status == LOADED
    ensures Replay(loaded, s, events).1 == Some(Rows(loaded))
    decreases |events|
  {
    var t := Step(loaded, s, events[0]);
    if Reading(t) {
      LoadedIsFresh(loaded, t, events[1..]);
    }
  }

  /** A read without a `load` event keeps the data from before, and returns it if it returns. */
  lemma {:induction false} NoLoadKeepsData(loaded: seq<Row>, s: LoaderState, events: seq<Event>)
    requires forall k | 0 <= k < |events| :: events[k] != Load
    ensures Replay(loaded, s, events).0.data == s.data
    ensures Replay(loaded, s, events).1.Some? ==> Replay(loaded, s, events).1.value == s.data
    decreases |events|
  {
    if Reading(s) && events != [] {
      NoLoadKeepsData(loaded, Step(loaded, s, events[0]), events[1..]);
    }
  }

  /**
   * An aborted or failed read returns the empty object, which differs from the empty
   * list a header-only file gives.
   */
  lemma AbortedRead(loaded: seq<Row>, e: Event)
    requires e == Abort || e == Error
    ensures Replay(loaded, Initial, [LoadStart, e]).1 == Some(EmptyObject)
    ensures Replay(loaded, Initial, [LoadStart, e]).0.status == if e == Abort then ABORTED else ERROR
    ensures EmptyObject != Rows([])
  {
    var s1 := Step(loaded, Initial, LoadStart);
    var s2 := Step(loaded, s1, e);
    assert [LoadStart, e][1..] == [e];
    assert Replay(loaded, Initial, [LoadStart, e]) == Replay(loaded, s1, [e]);
    assert Replay(loaded, s1, [e]) == Replay(loaded, s2, [e][1..]);
  }

  /**
   * Any read that ends ABORTED or ERROR without a `load` event returns the initial
   * empty object, not `[]`.
   */
  lemma FailedRead(loaded: seq<Row>, events: seq<Event>)
    requires forall k | 0 <= k < |events| :: events[k] != Load
    requires Replay(loaded, Initial, events).0.status == ABORTED || Replay(loaded, Initial, events).0.status == ERROR
    ensures Replay(loaded, Initial, events).1 == Some(EmptyObject)
  {
    NoLoadKeepsData(loaded, Initial, events);
    ReplaySettles(loaded, Initial, events);
  }

  /** A successful read of a file returns its rows. */
  lemma LoadedRead(loaded: seq<Row>)
    ensures Replay(loaded, Initial, [LoadStart, Load]) == (LoaderState(LOADED, Rows(loaded)), Some(Rows(loaded)))
  {
    var s1 := Step(loaded, Initial, LoadStart);
    var s2 := Step(loaded, s1, Load);
    assert [LoadStart, Load][1..] == [Load];
    assert Replay(loaded, Initial, [LoadStart, Load]) == Replay(loaded, s1, [Load]);
    assert Replay(loaded, s1, [Load]) == Replay(loaded, s2, [Load][1..]);
  }
}
