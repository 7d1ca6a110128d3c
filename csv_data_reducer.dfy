/**
 * The store's `csvData` reducer (src/redux/reducers/CSVData.js): a `CSV_DATA` action
 * replaces the stored rows with its payload; every other action leaves them alone.
 */
module CSVDataReducer {
  import opened Wrappers
  import opened CSVSerializer
  import opened ResultPage

  /** A dispatched action `{type, payload}`. */
  datatype Action = Action(actionType: string, payload: CSVData)

  const CSVDataType := "CSV_DATA"

  /** `DEFAULT_ACTION`: no type, and the empty object as payload. */
  const DefaultAction := Action("", EmptyObject)

  /**
   * `csvData(state, action)`: a missing state is `[]`, a missing action the default
   * action; the payload of a `CSV_DATA` action, and otherwise the state.
   */
  function Reduce(state: Option<CSVData>, action: Option<Action>): (r: CSVData)
    ensures action.Some? && action.value.actionType == CSVDataType ==> r == action.value.payload
    ensures (action.None? || action.value.actionType != CSVDataType) ==>
      r == if state.Some? then state.value else Rows([])
  {
    var s := if state.Some? then state.value else Rows([]);
    var a := if action.Some? then action.value else DefaultAction;
    if a.actionType == CSVDataType then a.payload else s
  }

  /** The store starts out with no rows. */
  lemma InitialState(action: Option<Action>)
    requires action.None? || action.value.actionType != CSVDataType
    ensures Reduce(None, action) == Rows([])
  {
  }

  /** Reducing with no action keeps the state. */
  lemma DefaultActionKeeps(state: CSVData)
    ensures Reduce(Some(state), None) == state
  {
  }

  /** Applying the same action twice is applying it once. */
  lemma ReduceIdempotent(state: Option<CSVData>, action: Action)
    ensures Reduce(Some(Reduce(state, Some(action))), Some(action)) == Reduce(state, Some(action))
  {
  }

  /** After rows are stored the result page draws the graph exactly when there are some. */
  lemma GraphAfterStore(state: Option<CSVData>, rows: seq<Row>)
    ensures ShowsGraph(Some(Reduce(state, Some(Action(CSVDataType, Rows(rows)))))) <==> rows != []
  {
  }
}
