/**
 * The records of the cross-stream query engine: a parsed `Query`, its
 * `Condition`s and comparison operators, the `StreamEvent` every connector
 * emits, and the result of running a query.
 */
module QueryTypes {
  import opened Wrappers
  import opened Widths
  import opened JsonValues

  datatype CompareOp = Eq | Neq | Gt | Gte | Lt | Lte | Contains | StartsWith

  datatype Condition = Condition(field: string, op: CompareOp, value: Json)

  datatype Query = Query(
    from: seq<string>,
    conditions: seq<Condition>,
    since: Option<string>,
    until: Option<string>,
    limit: nat,
    offset: nat)

  /** A normalised event from any connector. */
  datatype StreamEvent = StreamEvent(
    id: string,
    connectorId: string,
    stream: string,
    sequence: u64,
    timestamp: string,
    payload: Json,
    metadata: map<string, string>)

  /** What `execute` returns, without the elapsed-time field. */
  datatype QueryResult = QueryResult(
    events: seq<StreamEvent>,
    total: nat,
    streamsSearched: seq<string>)
}
