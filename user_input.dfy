/**
 * The wizard page `UserInput` (src/pages/user-input/UserInput.jsx): the X/Y/Z range
 * found in the loaded rows and its validation, the step and project information read
 * from the URL's query string, the input handlers, and the address the form submits to.
 */
module UserInput {
  import opened Wrappers
  import opened JsStrings
  import opened JsNumbers
  import opened JsValues
  import opened UriComponent
  import opened Utility
  import opened Sequences
  import opened CSVSerializer

  /** `ValidationError(propertyName, message)`. */
  datatype ValidationError = ValidationError(propertyName: string, message: string)

  const RangeMessage := "Minimum value must be less than the maximum value."

  /** A JavaScript object that is updated in place and may be shared. */
  class JsObject {
    var entries: Entries<Value>

    constructor(entries: Entries<Value>)
      ensures this.entries == entries
    {
      this.entries := entries;
    }
  }

  // ---------------------------------------------------------------------------
  // The X, Y and Z range

  datatype XYZRange = XYZRange(
    minimumX: Value, maximumX: Value,
    minimumY: Value, maximumY: Value,
    minimumZ: Value, maximumZ: Value)

  /** `DEFAULT_XYZ_RANGE`: -1 to 0 on every axis. */
  const DefaultRange := XYZRange(Num(-1.0), Num(0.0), Num(-1.0), Num(0.0), Num(-1.0), Num(0.0))

  /** The range as the object the page keeps, its properties in declaration order. */
  function RangeEntries(r: XYZRange): Entries<Value> {
    [("minimumX", r.minimumX), ("maximumX", r.maximumX),
     ("minimumY", r.minimumY), ("maximumY", r.maximumY),
     ("minimumZ", r.minimumZ), ("maximumZ", r.maximumZ)]
  }

  /**
   * The lower and upper bound after visiting the values in order: a value replaces the
   * lower bound when it is `<` it, and the upper bound when it is `>` it.
   */
  function Scan(lo: Value, hi: Value, vs: seq<Value>): (Value, Value)
    decreases |vs|
  {
    if vs == [] then (lo, hi)
    else
      var (l, h) := Scan(lo, hi, vs[..|vs| - 1]);
      var v := vs[|vs| - 1];
      (if Less(v, l) then v else l, if Less(h, v) then v else h)
  }

  /** The bounds of a non-empty column, starting from its first value. */
  function Extent(vs: seq<Value>): (Value, Value)
    requires vs != []
  {
    Scan(vs[0], vs[0], vs)
  }

  /**
   * What `findXYZRange(csvData)` returns: the default range for no rows, each axis's
   * bounds otherwise, and a `TypeError` for the empty object (it has no `length`, so
   * its first row is read).
   */
  function RangeOf(csvData: CSVData): Result<XYZRange, TypeError> {
    match csvData
    case EmptyObject => Err(TypeError)
    case Rows(rows) =>
      if rows == [] then Ok(DefaultRange)
      else
        var (x0, x1) := Extent(Column(rows, "X"));
        var (y0, y1) := Extent(Column(rows, "Y"));
        var (z0, z1) := Extent(Column(rows, "Z"));
        Ok(XYZRange(x0, x1, y0, y1, z0, z1))
  }

  /** `findXYZRange(csvData)`: one pass over the rows updating all six bounds. */
  method FindXYZRange(csvData: CSVData) returns (r: Result<XYZRange, TypeError>)
    ensures r == RangeOf(csvData)
  {
    if csvData.EmptyObject? { return Err(TypeError); }
    var rows := csvData.rows;
    if |rows| == 0 { return Ok(DefaultRange); }
    ghost var xs, ys, zs := Column(rows, "X"), Column(rows, "Y"), Column(rows, "Z");
    var first := rows[0];
    var xyzRange := XYZRange(
      Get(first, "X"), Get(first, "X"),
      Get(first, "Y"), Get(first, "Y"),
      Get(first, "Z"), Get(first, "Z"));
    for k := 0 to |rows|
      invariant (xyzRange.minimumX, xyzRange.maximumX) == Scan(xs[0], xs[0], xs[..k])
      invariant (xyzRange.minimumY, xyzRange.maximumY) == Scan(ys[0], ys[0], ys[..k])
      invariant (xyzRange.minimumZ, xyzRange.maximumZ) == Scan(zs[0], zs[0], zs[..k])
    {
      PrefixStep(xs, k);
      PrefixStep(ys, k);
      PrefixStep(zs, k);
      var rowData := rows[k];
      if Less(Get(rowData, "X"), xyzRange.minimumX) { xyzRange := xyzRange.(minimumX := Get(rowData, "X")); }
      if Less(xyzRange.maximumX, Get(rowData, "X")) { xyzRange := xyzRange.(maximumX := Get(rowData, "X")); }
      if Less(Get(rowData, "Y"), xyzRange.minimumY) { xyzRange := xyzRange.(minimumY := Get(rowData, "Y")); }
      if Less(xyzRange.maximumY, Get(rowData, "Y")) { xyzRange := xyzRange.(maximumY := Get(rowData, "Y")); }
      if Less(Get(rowData, "Z"), xyzRange.minimumZ) { xyzRange := xyzRange.(minimumZ := Get(rowData, "Z")); }
      if Less(xyzRange.maximumZ, Get(rowData, "Z")) { xyzRange := xyzRange.(maximumZ := Get(rowData, "Z")); }
    }
    PrefixFull(xs);
    PrefixFull(ys);
    PrefixFull(zs);
    r := Ok(xyzRange);
  }

  predicate AllNumbers(vs: seq<Value>) {
    forall k | 0 <= k < |vs| :: vs[k].Num?
  }

  /** Two numbers in order. */
  predicate NumLe(a: Value, b: Value) {
    a.Num? && b.Num? && a.n <= b.n
  }

  /** On numbers the scan keeps bounds that enclose every value and are values it saw. */
  lemma {:induction false} ScanNumbers(lo: Value, hi: Value, vs: seq<Value>)
    requires NumLe(lo, hi) && AllNumbers(vs)
    ensures var (l, h) := Scan(lo, hi, vs);
      && NumLe(l, lo) && NumLe(hi, h)
      && (forall k | 0 <= k < |vs| :: NumLe(l, vs[k]) && NumLe(vs[k], h))
      && (l == lo || l in vs) && (h == hi || h in vs)
    decreases |vs|
  {
    if vs != [] {
      var init := vs[..|vs| - 1];
      ScanNumbers(lo, hi, init);
      assert forall k | 0 <= k < |init| :: vs[k] == init[k];
    }
  }

  /**
   * For a column of numbers the bounds are numbers of the column, the lower at most
   * every value and the upper at least every value.
   */
  lemma ExtentOfNumbers(vs: seq<Value>)
    requires vs != [] && AllNumbers(vs)
    ensures var (l, h) := Extent(vs);
      && NumLe(l, h)
      && (forall k | 0 <= k < |vs| :: NumLe(l, vs[k]) && NumLe(vs[k], h))
      && l in vs && h in vs
  {
    ScanNumbers(vs[0], vs[0], vs);
  }

  /** The range of numeric X, Y and Z columns encloses every row, axis by axis. */
  lemma RangeOfNumbers(rows: seq<Row>)
    requires rows != []
    requires AllNumbers(Column(rows, "X")) && AllNumbers(Column(rows, "Y")) && AllNumbers(Column(rows, "Z"))
    ensures RangeOf(Rows(rows)).Ok?
    ensures var r := RangeOf(Rows(rows)).value;
      && NumLe(r.minimumX, r.maximumX) && NumLe(r.minimumY, r.maximumY) && NumLe(r.minimumZ, r.maximumZ)
      && (forall k | 0 <= k < |rows| ::
           && NumLe(r.minimumX, Get(rows[k], "X")) && NumLe(Get(rows[k], "X"), r.maximumX)
           && NumLe(r.minimumY, Get(rows[k], "Y")) && NumLe(Get(rows[k], "Y"), r.maximumY)
           && NumLe(r.minimumZ, Get(rows[k], "Z")) && NumLe(Get(rows[k], "Z"), r.maximumZ))
      && r.minimumX in Column(rows, "X") && r.maximumX in Column(rows, "X")
      && r.minimumY in Column(rows, "Y") && r.maximumY in Column(rows, "Y")
      && r.minimumZ in Column(rows, "Z") && r.maximumZ in Column(rows, "Z")
  {
    ExtentOfNumbers(Column(rows, "X"));
    ExtentOfNumbers(Column(rows, "Y"));
    ExtentOfNumbers(Column(rows, "Z"));
  }

  /** The lower and upper bound a range holds for the axis `X`, `Y` or `Z`. */
  function AxisBounds(r: XYZRange, axis: string): (Value, Value) {
    if axis == "X" then (r.minimumX, r.maximumX)
    else if axis == "Y" then (r.minimumY, r.maximumY)
    else (r.minimumZ, r.maximumZ)
  }

  /**
   * Each axis depends on its own column only: its bounds are that column's extent, so
   * rows that agree on one axis give the same bounds for it, whatever the other axes hold.
   */
  lemma AxesIndependent(rows: seq<Row>, rows': seq<Row>, axis: string)
    requires axis == "X" || axis == "Y" || axis == "Z"
    requires rows != [] && Column(rows, axis) == Column(rows', axis)
    ensures AxisBounds(RangeOf(Rows(rows)).value, axis) == Extent(Column(rows, axis))
    ensures AxisBounds(RangeOf(Rows(rows)).value, axis) == AxisBounds(RangeOf(Rows(rows')).value, axis)
  {
    assert |rows'| == |rows|;
  }

  /** No rows give the default range. */
  lemma NoRowsDefaultRange()
    ensures RangeOf(Rows([])) == Ok(DefaultRange)
  {
  }

  // ---------------------------------------------------------------------------
  // Validating the range

  /** `Number(a) <= Number(b)`, false when either is NaN. */
  predicate AtMost(a: Value, b: Value) {
    match (ToNumber(a), ToNumber(b))
    case (Some(x), Some(y)) => x <= y
    case _ => false
  }

  /** On numbers, `AtMost` is the order of the reals. */
  lemma AtMostNumbers(a: Value, b: Value)
    requires a.Num? && b.Num?
    ensures AtMost(a, b) <==> a.n <= b.n
  {
  }

  /**
   * `validateXYZRange(xyzRange)`: fails on the first axis, in the order X, Y, Z, whose
   * maximum is at most its minimum, naming that axis's minimum.
   */
  function ValidateXYZRange(e: Entries<Value>): (r: Result<(), ValidationError>)
    ensures r.Err? ==> r.error.message == RangeMessage
  {
    if AtMost(Get(e, "maximumX"), Get(e, "minimumX")) then Err(ValidationError("minimumX", RangeMessage))
    else if AtMost(Get(e, "maximumY"), Get(e, "minimumY")) then Err(ValidationError("minimumY", RangeMessage))
    else if AtMost(Get(e, "maximumZ"), Get(e, "minimumZ")) then Err(ValidationError("minimumZ", RangeMessage))
    else Ok(())
  }

  /** An axis passes when its bounds, as numbers, are in order. */
  predicate AxisValid(e: Entries<Value>, axis: string) {
    !AtMost(Get(e, "maximum" + axis), Get(e, "minimum" + axis))
  }

  /** The validation passes exactly when every axis does, and otherwise names the first one that does not. */
  lemma ValidateAxes(e: Entries<Value>)
    ensures ValidateXYZRange(e).Ok? <==> AxisValid(e, "X") && AxisValid(e, "Y") && AxisValid(e, "Z")
    ensures ValidateXYZRange(e) == Err(ValidationError("minimumX", RangeMessage)) <==> !AxisValid(e, "X")
    ensures ValidateXYZRange(e) == Err(ValidationError("minimumY", RangeMessage)) <==>
      AxisValid(e, "X") && !AxisValid(e, "Y")
    ensures ValidateXYZRange(e) == Err(ValidationError("minimumZ", RangeMessage)) <==>
      AxisValid(e, "X") && AxisValid(e, "Y") && !AxisValid(e, "Z")
  {
    assert "maximum" + "X" == "maximumX" && "minimum" + "X" == "minimumX";
    assert "maximum" + "Y" == "maximumY" && "minimum" + "Y" == "minimumY";
    assert "maximum" + "Z" == "maximumZ" && "minimum" + "Z" == "minimumZ";
  }

  /** For numeric bounds, the validation passes exactly when every minimum is below its maximum. */
  lemma ValidateNumbers(e: Entries<Value>)
    requires Get(e, "minimumX").Num? && Get(e, "maximumX").Num?
    requires Get(e, "minimumY").Num? && Get(e, "maximumY").Num?
    requires Get(e, "minimumZ").Num? && Get(e, "maximumZ").Num?
    ensures ValidateXYZRange(e).Ok? <==>
      && Get(e, "minimumX").n < Get(e, "maximumX").n
      && Get(e, "minimumY").n < Get(e, "maximumY").n
      && Get(e, "minimumZ").n < Get(e, "maximumZ").n
  {
    AtMostNumbers(Get(e, "maximumX"), Get(e, "minimumX"));
    AtMostNumbers(Get(e, "maximumY"), Get(e, "minimumY"));
    AtMostNumbers(Get(e, "maximumZ"), Get(e, "minimumZ"));
  }

  /** The properties of the range object are the six bounds. */
  lemma RangeLookups(r: XYZRange)
    ensures Get(RangeEntries(r), "minimumX") == r.minimumX && Get(RangeEntries(r), "maximumX") == r.maximumX
    ensures Get(RangeEntries(r), "minimumY") == r.minimumY && Get(RangeEntries(r), "maximumY") == r.maximumY
    ensures Get(RangeEntries(r), "minimumZ") == r.minimumZ && Get(RangeEntries(r), "maximumZ") == r.maximumZ
  {
    var e := RangeEntries(r);
    assert UniqueKeys(e) by {
      forall i, j | 0 <= i < j < |e| ensures e[i].0 != e[j].0 {
        assert e[i].0[1] != e[j].0[1] || e[i].0[7] != e[j].0[7];
      }
    }
    LookupUnique(e, 0);
    LookupUnique(e, 1);
    LookupUnique(e, 2);
    LookupUnique(e, 3);
    LookupUnique(e, 4);
    LookupUnique(e, 5);
  }

  /** The default range passes. */
  lemma DefaultRangeValid()
    ensures ValidateXYZRange(RangeEntries(DefaultRange)) == Ok(())
  {
    RangeLookups(DefaultRange);
    ValidateNumbers(RangeEntries(DefaultRange));
  }

  /** The bounds of a single number are that number twice. */
  lemma SingleExtent(v: Value)
    requires v.Num?
    ensures Extent([v]) == (v, v)
  {
    assert [v][..0] == [];
    assert Scan(v, v, []) == (v, v);
    assert !Less(v, v);
  }

  /** A single row gives the range whose X bounds are both its X. */
  lemma SingleRowRange(row: Row)
    requires Get(row, "X").Num?
    ensures RangeOf(Rows([row])).Ok?
    ensures RangeOf(Rows([row])).value.minimumX == Get(row, "X")
    ensures RangeOf(Rows([row])).value.maximumX == Get(row, "X")
  {
    var xs := Column([row], "X");
    assert xs == [Get(row, "X")];
    SingleExtent(Get(row, "X"));
  }

  /** A single row of numbers gives equal bounds, which the validation rejects on X. */
  lemma SingleRowRejected(row: Row)
    requires Get(row, "X").Num?
    ensures RangeOf(Rows([row])).Ok?
    ensures ValidateXYZRange(RangeEntries(RangeOf(Rows([row])).value)).Err?
    ensures ValidateXYZRange(RangeEntries(RangeOf(Rows([row])).value)).error.propertyName == "minimumX"
  {
    SingleRowRange(row);
    var r := RangeOf(Rows([row])).value;
    RangeLookups(r);
    AtMostNumbers(r.maximumX, r.minimumX);
  }

  // ---------------------------------------------------------------------------
  // Reading the query string

  /** A property that is a non-empty string, the only kind JavaScript's `&&` lets through. */
  predicate Truthy(v: Option<string>) {
    v.Some? && v.value != ""
  }

  /**
   * `getCurrentStep(queryParameters)`: 0 when `step` is missing or empty, its number
   * when it is numeric, and the text itself otherwise.
   */
  function GetCurrentStep(queryParameters: Entries<string>): (step: Value)
    ensures !Truthy(Lookup(queryParameters, "step")) ==> step == Num(0.0)
  {
    var s := Lookup(queryParameters, "step");
    if Truthy(s) then
      if IsNumeric(s.value) then Num(StringToNumber(s.value).value) else Str(s.value)
    else Num(0.0)
  }

  /** A present step is read as its number, or kept as text when it is not numeric. */
  lemma StepOfParameter(queryParameters: Entries<string>, s: string)
    requires Lookup(queryParameters, "step") == Some(s) && s != ""
    ensures IsNumeric(s) ==> GetCurrentStep(queryParameters) == Num(StringToNumber(s).value)
    ensures !IsNumeric(s) ==> GetCurrentStep(queryParameters) == Str(s)
  {
  }

  /** An integer step is read as that integer. */
  lemma IntegerStep(queryParameters: Entries<string>, i: int)
    requires Lookup(queryParameters, "step") == Some(IntToString(i))
    ensures GetCurrentStep(queryParameters) == Num(i as real)
  {
    IntToStringRoundTrip(i);
    var s := IntToString(i);
    if i < 0 { assert s[0] == '-'; } else { assert |s| >= 1; }
  }

  /** The four properties of the project information, in declaration order. */
  const ProjectFields: seq<string> := ["name", "description", "client", "contractor"]

  /** `DEFAULT_PROJECT_INFORMATION` as declared: every field the empty string. */
  const DefaultProjectInformation: Entries<Value> :=
    [("name", Str("")), ("description", Str("")), ("client", Str("")), ("contractor", Str(""))]

  /** `info.key = queryParameters.key` when that parameter is a non-empty string. */
  function CopyParameter(info: Entries<Value>, queryParameters: Entries<string>, key: string): Entries<Value> {
    var p := Lookup(queryParameters, key);
    if Truthy(p) then Put(info, key, Str(p.value)) else info
  }

  /** The project information after copying the four parameters over it, in order. */
  function Informed(info: Entries<Value>, queryParameters: Entries<string>): Entries<Value> {
    var a := CopyParameter(info, queryParameters, "name");
    var b := CopyParameter(a, queryParameters, "description");
    var c := CopyParameter(b, queryParameters, "client");
    CopyParameter(c, queryParameters, "contractor")
  }

  /** Copying a parameter sets that key when the parameter is non-empty, and keeps it otherwise. */
  lemma CopyParameterSame(info: Entries<Value>, queryParameters: Entries<string>, key: string)
    ensures Lookup(CopyParameter(info, queryParameters, key), key) ==
      if Truthy(Lookup(queryParameters, key)) then Some(Str(Lookup(queryParameters, key).value))
      else Lookup(info, key)
  {
    var p := Lookup(queryParameters, key);
    if Truthy(p) { LookupPut(info, key, Str(p.value), key); }
  }

  /** Copying a parameter leaves every other key as it was. */
  lemma CopyParameterOther(info: Entries<Value>, queryParameters: Entries<string>, key: string, other: string)
    requires other != key
    ensures Lookup(CopyParameter(info, queryParameters, key), other) == Lookup(info, other)
  {
    var p := Lookup(queryParameters, key);
    if Truthy(p) { LookupPut(info, key, Str(p.value), other); }
  }

  /**
   * Each of the four fields holds its parameter when that is non-empty and keeps what
   * it held otherwise; any other key is untouched.
   */
  lemma InformedLookup(info: Entries<Value>, queryParameters: Entries<string>, key: string)
    ensures Lookup(Informed(info, queryParameters), key) ==
      if key in ProjectFields && Truthy(Lookup(queryParameters, key)) then Some(Str(Lookup(queryParameters, key).value))
      else Lookup(info, key)
  {
    var a := CopyParameter(info, queryParameters, "name");
    var b := CopyParameter(a, queryParameters, "description");
    var c := CopyParameter(b, queryParameters, "client");
    assert key in ProjectFields <==> key == "name" || key == "description" || key == "client" || key == "contractor";
    if key == "name" {
      CopyParameterSame(info, queryParameters, key);
      CopyParameterOther(a, queryParameters, "description", key);
      CopyParameterOther(b, queryParameters, "client", key);
      CopyParameterOther(c, queryParameters, "contractor", key);
    } else if key == "description" {
      CopyParameterOther(info, queryParameters, "name", key);
      CopyParameterSame(a, queryParameters, key);
      CopyParameterOther(b, queryParameters, "client", key);
      CopyParameterOther(c, queryParameters, "contractor", key);
    } else if key == "client" {
      CopyParameterOther(info, queryParameters, "name", key);
      CopyParameterOther(a, queryParameters, "description", key);
      CopyParameterSame(b, queryParameters, key);
      CopyParameterOther(c, queryParameters, "contractor", key);
    } else {
      CopyParameterOther(info, queryParameters, "name", key);
      CopyParameterOther(a, queryParameters, "description", key);
      CopyParameterOther(b, queryParameters, "client", key);
      if key == "contractor" {
        CopyParameterSame(c, queryParameters, key);
      } else {
        CopyParameterOther(c, queryParameters, "contractor", key);
      }
    }
  }

  /** The step `loadDataFromQueryParameters` settles on. */
  function LoadedStep(queryParameters: Entries<string>, info: Entries<Value>): Value {
    if Lookup(info, "name") == Some(Str("")) || Lookup(info, "description") == Some(Str(""))
       || Lookup(info, "client") == Some(Str("")) || Lookup(info, "contractor") == Some(Str(""))
    then Num(0.0)
    else GetCurrentStep(queryParameters)
  }

  /** Every field of the default information is the empty string. */
  lemma DefaultFieldsEmpty(k: nat)
    requires k < |ProjectFields|
    ensures Lookup(DefaultProjectInformation, ProjectFields[k]) == Some(Str(""))
  {
    var e := DefaultProjectInformation;
    assert UniqueKeys(e) by {
      forall i, j | 0 <= i < j < |e| ensures e[i].0 != e[j].0 {
        assert e[i].0[0] != e[j].0[0] || e[i].0[1] != e[j].0[1];
      }
    }
    assert e[k].0 == ProjectFields[k];
    LookupUnique(e, k);
  }

  /** A query string that fills all four fields keeps the requested step, whatever the fields held. */
  lemma CompleteQueryKeepsStep(queryParameters: Entries<string>, info: Entries<Value>)
    requires forall k | 0 <= k < |ProjectFields| :: Truthy(Lookup(queryParameters, ProjectFields[k]))
    ensures LoadedStep(queryParameters, Informed(info, queryParameters)) == GetCurrentStep(queryParameters)
  {
    assert Truthy(Lookup(queryParameters, ProjectFields[0]));
    assert Truthy(Lookup(queryParameters, ProjectFields[1]));
    assert Truthy(Lookup(queryParameters, ProjectFields[2]));
    assert Truthy(Lookup(queryParameters, ProjectFields[3]));
    InformedLookup(info, queryParameters, "name");
    InformedLookup(info, queryParameters, "description");
    InformedLookup(info, queryParameters, "client");
    InformedLookup(info, queryParameters, "contractor");
  }

  /**
   * A field that is empty and that the query string leaves out or empty sends the wizard
   * to step 0; the defaults are empty in every field.
   */
  lemma MissingFieldForcesStart(queryParameters: Entries<string>, info: Entries<Value>, key: string)
    requires key in ProjectFields && Lookup(info, key) == Some(Str(""))
    requires !Truthy(Lookup(queryParameters, key))
    ensures LoadedStep(queryParameters, Informed(info, queryParameters)) == Num(0.0)
  {
    InformedLookup(info, queryParameters, key);
    assert key == "name" || key == "description" || key == "client" || key == "contractor";
  }

  /** What a submitted form's address holds: the query string's parameters, as strings. */
  function FormTarget(step: Value, info: Entries<Value>, xyzRange: Entries<Value>): string {
    if step == Num(0.0) then "/" + QueryString(Some(Put(info, "step", Num(1.0))))
    else "/result" + QueryString(Some(Assign(info, xyzRange)))
  }

  /**
   * From step 0 the form moves to the same page with the project information and
   * `step=1`, which the next page's query string reads back, for plain distinct keys.
   */
  lemma FirstStepSubmitted(info: Entries<Value>, xyzRange: Entries<Value>)
    requires UniqueKeys(info) && PlainKeys(info)
    ensures QueryParameters(FormTarget(Num(0.0), info, xyzRange), true) == Ok(Stringified(Put(info, "step", Num(1.0))))
  {
    var d := Put(info, "step", Num(1.0));
    PutUnique(info, "step", Num(1.0));
    PutPlain(info, "step", Num(1.0));
    assert FormTarget(Num(0.0), info, xyzRange) == AppendQueryString("/", Some(d));
    QueryStringRoundTrip("/", d);
  }

  /** The step read back from that address is 1. */
  lemma FirstStepReadsOne(info: Entries<Value>)
    ensures GetCurrentStep(Stringified(Put(info, "step", Num(1.0)))) == Num(1.0)
  {
    var d := Put(info, "step", Num(1.0));
    StringifiedLookup(d, "step");
    LookupPut(info, "step", Num(1.0), "step");
    IntegralNumberToString(1);
    assert ToString(Num(1.0)) == IntToString(1);
    IntegerStep(Stringified(d), 1);
  }

  /** Reading a stringified object reads the stringified value. */
  lemma {:induction false} StringifiedLookup(d: Entries<Value>, key: string)
    ensures Lookup(Stringified(d), key) == match Lookup(d, key) case Some(v) => Some(ToString(v)) case None => None
  {
    var s := Stringified(d);
    var i := KeyIndex(d, key);
    assert Keys(s) == Keys(d);
    if i != -1 {
      KeyIndexAt(s, key, i);
    }
  }

  // ---------------------------------------------------------------------------
  // The page

  /**
   * The page's state: `step`, `csvData`, `projectInformation` (an object that starts
   * out as the shared `DEFAULT_PROJECT_INFORMATION` object) and `xyzRange`.
   */
  class UserInputPage {
    /** The module-level `DEFAULT_PROJECT_INFORMATION` object, shared by every use. */
    const defaultProjectInformation: JsObject
    var step: Value
    var csvData: CSVData
    var projectInformation: JsObject
    var xyzRange: Entries<Value>

    /** The initial state: step 0, no rows, the shared default information and the default range. */
    constructor(defaultProjectInformation: JsObject)
      ensures this.defaultProjectInformation == defaultProjectInformation
      ensures step == Num(0.0) && csvData == Rows([])
      ensures projectInformation == defaultProjectInformation
      ensures xyzRange == RangeEntries(DefaultRange)
    {
      this.defaultProjectInformation := defaultProjectInformation;
      step := Num(0.0);
      csvData := Rows([]);
      projectInformation := defaultProjectInformation;
      xyzRange := RangeEntries(DefaultRange);
    }

    /**
     * `getProjectInformation(queryParameters)`: writes the non-empty parameters into the
     * shared default object itself and returns that object, so the page's information
     * changes with it while it is still that object.
     */
    method GetProjectInformation(queryParameters: Entries<string>) returns (info: JsObject)
      modifies defaultProjectInformation
      ensures info == defaultProjectInformation
      ensures info.entries == Informed(old(defaultProjectInformation.entries), queryParameters)
      ensures old(projectInformation) == defaultProjectInformation ==>
        projectInformation.entries == Informed(old(projectInformation.entries), queryParameters)
    {
      info := defaultProjectInformation;
      var name := Lookup(queryParameters, "name");
      if Truthy(name) { info.entries := Put(info.entries, "name", Str(name.value)); }
      var description := Lookup(queryParameters, "description");
      if Truthy(description) { info.entries := Put(info.entries, "description", Str(description.value)); }
      var client := Lookup(queryParameters, "client");
      if Truthy(client) { info.entries := Put(info.entries, "client", Str(client.value)); }
      var contractor := Lookup(queryParameters, "contractor");
      if Truthy(contractor) { info.entries := Put(info.entries, "contractor", Str(contractor.value)); }
    }

    /**
     * `loadDataFromQueryParameters()` for the address `url`: the step and the project
     * information the query string gives, the step forced to 0 while a field is empty.
     * Fails, before writing anything, when a value cannot be decoded.
     */
    method LoadDataFromQueryParameters(url: string) returns (r: Result<(Value, JsObject), UriError>)
      modifies defaultProjectInformation
      ensures QueryParameters(url, true).Err? ==>
        r == Err(QueryParameters(url, true).error) && unchanged(defaultProjectInformation)
      ensures QueryParameters(url, true).Ok? ==>
        var queryParameters := QueryParameters(url, true).value;
        var info := Informed(old(defaultProjectInformation.entries), queryParameters);
        && defaultProjectInformation.entries == info
        && r == Ok((LoadedStep(queryParameters, info), defaultProjectInformation))
    {
      var parsed := ParseQueryString(url, true);
      if parsed.Err? { return Err(parsed.error); }
      var queryParameters := parsed.value;
      var step := GetCurrentStep(queryParameters);
      var projectInformation := GetProjectInformation(queryParameters);
      var e := projectInformation.entries;
      if Lookup(e, "name") == Some(Str("")) || Lookup(e, "description") == Some(Str(""))
         || Lookup(e, "client") == Some(Str("")) || Lookup(e, "contractor") == Some(Str("")) {
        step := Num(0.0);
      }
      r := Ok((step, projectInformation));
    }

    /**
     * `onFormSubmitted`: the address the wizard moves to and, past step 0, the rows it
     * hands to the store first.
     */
    method OnFormSubmitted() returns (target: string, dispatched: Option<CSVData>)
      ensures target == FormTarget(step, projectInformation.entries, xyzRange)
      ensures dispatched == if step == Num(0.0) then None else Some(csvData)
    {
      if step == Num(0.0) {
        var queryString := PrepareQueryString(Some(Put(projectInformation.entries, "step", Num(1.0))));
        return "/" + queryString, None;
      }
      var queryString := PrepareQueryString(Some(Assign(projectInformation.entries, xyzRange)));
      target, dispatched := "/result" + queryString, Some(csvData);
    }

    /** `onCSVFileChanged`: keeps the rows and their range; the empty object throws first. */
    method OnCSVFileChanged(data: CSVData) returns (r: Result<(), TypeError>)
      modifies this
      ensures RangeOf(data).Err? ==> r == Err(TypeError) && unchanged(this)
      ensures RangeOf(data).Ok? ==>
        && r == Ok(())
        && csvData == data && xyzRange == RangeEntries(RangeOf(data).value)
        && step == old(step) && projectInformation == old(projectInformation)
    {
      var range := FindXYZRange(data);
      if range.Err? { return Err(range.error); }
      csvData := data;
      xyzRange := RangeEntries(range.value);
      r := Ok(());
    }

    /**
     * `onProjectInformationInputValueChanged`: a new object with the named field set to
     * the input's value; the shared default object is left alone.
     */
    method OnProjectInformationInputValueChanged(name: string, value: string)
      modifies this
      ensures fresh(projectInformation)
      ensures projectInformation.entries == Put(old(projectInformation.entries), name, Str(value))
      ensures step == old(step) && csvData == old(csvData) && xyzRange == old(xyzRange)
    {
      projectInformation := new JsObject(Put(projectInformation.entries, name, Str(value)));
    }

    /** `onXYZRangeInputValueChanged`: the range with the named bound set to the input's value. */
    method OnXYZRangeInputValueChanged(name: string, value: string)
      modifies this
      ensures xyzRange == Put(old(xyzRange), name, Str(value))
      ensures step == old(step) && csvData == old(csvData) && projectInformation == old(projectInformation)
    {
      xyzRange := Put(xyzRange, name, Str(value));
    }
  }

  /** An input change replaces exactly the named key and leaves every other key as it was. */
  lemma InputChangeReplacesKey(e: Entries<Value>, name: string, value: string, other: string)
    ensures Lookup(Put(e, name, Str(value)), name) == Some(Str(value))
    ensures other != name ==> Lookup(Put(e, name, Str(value)), other) == Lookup(e, other)
    ensures Keys(Put(e, name, Str(value))) == if name in Keys(e) then Keys(e) else Keys(e) + [name]
  {
    LookupPut(e, name, Str(value), other);
    KeysPut(e, name, Str(value));
  }
}
