/**
 * The result page `Result` (src/pages/result/Result.jsx): the series the graph is drawn
 * from, and the condition under which the graph is shown.
 */
module ResultPage {
  import opened Wrappers
  import opened JsValues
  import opened CSVSerializer

  /** A point `{x, y}` of the data set. */
  datatype Point = Point(x: Value, y: Value)

  /** The graph options `{xAxis, dataSet}`. */
  datatype GraphOptions = GraphOptions(xAxis: seq<Value>, dataSet: seq<Point>)

  /** The graph of the rows: each row's `KP` on the x-axis, and the point (KP, X). */
  predicate Plots(g: GraphOptions, rows: seq<Row>) {
    && |g.xAxis| == |rows| && |g.dataSet| == |rows|
    && forall i | 0 <= i < |rows| ::
         g.xAxis[i] == Get(rows[i], "KP") && g.dataSet[i] == Point(Get(rows[i], "KP"), Get(rows[i], "X"))
  }

  /** What `for (const row of csvData)` iterates over: a missing argument is `[]`, and `{}` throws. */
  function Iterated(csvData: Option<CSVData>): (r: Result<seq<Row>, TypeError>)
    ensures r.Err? <==> csvData == Some(EmptyObject)
  {
    match csvData
    case None => Ok([])
    case Some(EmptyObject) => Err(TypeError)
    case Some(Rows(rows)) => Ok(rows)
  }

  /**
   * `prepareGraphOptions(csvData)`: for each row in order, its `KP` value on the x-axis
   * and the point (KP, X) in the data set. A missing argument is `[]`; the empty object
   * `{}` is not iterable, so the loop throws.
   */
  method PrepareGraphOptions(csvData: Option<CSVData>) returns (r: Result<GraphOptions, TypeError>)
    ensures r.Err? <==> csvData == Some(EmptyObject)
    ensures r.Ok? ==> Plots(r.value, Iterated(csvData).value)
    ensures r.Ok? ==> forall i | 0 <= i < |r.value.dataSet| :: r.value.dataSet[i].x == r.value.xAxis[i]
  {
    var iterated := Iterated(csvData);
    if iterated.Err? { return Err(TypeError); }
    var graphData := GraphSeries(iterated.value);
    PlotsSharesKP(graphData, iterated.value);
    r := Ok(graphData);
  }

  /** The loop of `prepareGraphOptions`, pushing one x-axis value and one point per row. */
  method GraphSeries(rows: seq<Row>) returns (g: GraphOptions)
    ensures Plots(g, rows)
  {
    var xAxis: seq<Value> := [];
    var dataSet: seq<Point> := [];
    for i := 0 to |rows|
      invariant |xAxis| == i && |dataSet| == i
      invariant forall k | 0 <= k < i ::
        xAxis[k] == Get(rows[k], "KP") && dataSet[k] == Point(Get(rows[k], "KP"), Get(rows[k], "X"))
    {
      var row := rows[i];
      var kp := Get(row, "KP");
      var x := Get(row, "X");
      xAxis := xAxis + [kp];
      dataSet := dataSet + [Point(kp, x)];
    }
    g := GraphOptions(xAxis, dataSet);
  }

  /** Every point of the data set stands at the x-axis value of its row. */
  lemma PlotsSharesKP(g: GraphOptions, rows: seq<Row>)
    requires Plots(g, rows)
    ensures forall i | 0 <= i < |g.dataSet| :: g.dataSet[i].x == g.xAxis[i]
  {
    forall i | 0 <= i < |g.dataSet| ensures g.dataSet[i].x == g.xAxis[i] {
      assert g.dataSet[i] == Point(Get(rows[i], "KP"), Get(rows[i], "X"));
    }
  }

  /**
   * `this.props?.csvData?.length !== 0`: the graph is drawn unless the stored data is an
   * empty list; `undefined` and `{}` have no length, and `undefined !== 0`.
   */
  predicate ShowsGraph(csvData: Option<CSVData>) {
    match csvData
    case None => true
    case Some(EmptyObject) => true
    case Some(Rows(rows)) => |rows| != 0
  }

  /** The graph is hidden exactly for the empty list. */
  lemma HiddenOnlyWhenEmpty(csvData: Option<CSVData>)
    ensures !ShowsGraph(csvData) <==> csvData == Some(Rows([]))
  {
  }
}
