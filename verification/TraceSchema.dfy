/** One row of a trace. */
module TraceSchema {
  import opened Strings

  datatype TraceRecord = TraceRecord(
    chatId: int,
    parentChatId: int,
    timestamp: real,
    inputLength: nat,
    outputLength: nat,
    turn: nat,
    hashIds: seq<int>,
    sessionId: Option<string>,
    timeToParentChat: Option<real>)

  /** No two rows share a chat id. */
  ghost predicate UniqueIds(records: seq<TraceRecord>) {
    forall a, b :: 0 <= a < b < |records| ==> records[a].chatId != records[b].chatId
  }
}
