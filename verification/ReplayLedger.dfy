/**
 The replay and its two ledgers.  Sessions run concurrently; between two suspension points a
 session takes one of the steps below, in any order among the sessions, and a deadline may
 cancel whatever is pending at any moment.  Afterwards the rows that are missing are filled in.
 */
module ReplayLedger {
  import opened Strings
  import opened Sequences
  import opened StableSort

  /** The chat ids of the turns of every session, in order. */
  type Plan = seq<seq<int>>

  datatype Outcome = Completed(ok: bool) | OverlongSkipped | ReplayCancelled | DeadlineSkipped

  datatype Row = Row(session: nat, turn: nat, chatId: int, outcome: Outcome)

  /** A request that was offered, as recorded before it waits for anything. */
  datatype Start = Start(session: nat, turn: nat, chatId: int)

  /** A session: its rows so far, and whether a request of it is under way. */
  datatype Session = Session(metrics: seq<Row>, inFlight: bool)

  datatype State = State(sessions: seq<Session>, sink: seq<Row>, starts: seq<Start>, cancelled: bool)

  datatype Event =
    | Skip(session: nat)
    | Dispatch(session: nat)
    | Complete(session: nat, ok: bool)
    | Deadline

  // ---------- the steps ----------

  function Init(plan: Plan): State {
    State(seq(|plan|, i requires 0 <= i < |plan| => Session([], false)), [], [], false)
  }

  predicate Enabled(plan: Plan, s: State, e: Event) {
    && |s.sessions| == |plan| && !s.cancelled
    && match e
       case Skip(i) => i < |plan| && !s.sessions[i].inFlight && |s.sessions[i].metrics| < |plan[i]|
       case Dispatch(i) => i < |plan| && !s.sessions[i].inFlight && |s.sessions[i].metrics| < |plan[i]|
       case Complete(i, ok) => i < |plan| && s.sessions[i].inFlight && |s.sessions[i].metrics| < |plan[i]|
       case Deadline => true
  }

  /** A terminal row goes to the sink and to the session's own list. */
  function Finish(plan: Plan, s: State, i: nat, outcome: Outcome): State
    requires i < |plan| == |s.sessions| && |s.sessions[i].metrics| < |plan[i]|
  {
    var k := |s.sessions[i].metrics|;
    var row := Row(i, k, plan[i][k], outcome);
    s.(sessions := s.sessions[i := Session(s.sessions[i].metrics + [row], false)], sink := s.sink + [row])
  }

  function Next(plan: Plan, s: State, e: Event): State
    requires Enabled(plan, s, e)
  {
    match e
    case Skip(i) => Finish(plan, s, i, OverlongSkipped)
    case Dispatch(i) =>
      var k := |s.sessions[i].metrics|;
      s.(sessions := s.sessions[i := Session(s.sessions[i].metrics, true)],
         starts := s.starts + [Start(i, k, plan[i][k])])
    case Complete(i, ok) => Finish(plan, s, i, Completed(ok))
    case Deadline => s.(cancelled := true)
  }

  /** `s` can be reached: some order of enabled steps leads to it. */
  ghost predicate IsRun(plan: Plan, events: seq<Event>, states: seq<State>) {
    && |states| == |events| + 1 && states[0] == Init(plan)
    && forall j | 0 <= j < |events| ::
         Enabled(plan, states[j], events[j]) && states[j + 1] == Next(plan, states[j], events[j])
  }

  // ---------- what every reachable state keeps ----------

  function OfSession(i: nat): Row -> bool {
    (r: Row) => r.session == i
  }

  /** The rows of session `i` so far are its first turns, in order, and the sink has them in that order. */
  ghost predicate SessionOK(plan: Plan, s: State, i: nat)
    requires i < |plan| == |s.sessions|
  {
    var m := s.sessions[i].metrics;
    && |m| <= |plan[i]|
    && (s.sessions[i].inFlight ==> |m| < |plan[i]|)
    && (forall k :: 0 <= k < |m| ==> m[k].session == i && m[k].turn == k && m[k].chatId == plan[i][k])
    && (forall k :: 0 <= k < |m| ==> m[k].outcome.Completed? || m[k].outcome.OverlongSkipped?)
    && Filter(s.sink, OfSession(i)) == m
  }

  /** Turn `k` of session `i` has been offered. */
  ghost predicate Offered(s: State, i: nat, k: nat)
    requires i < |s.sessions|
  {
    var m := s.sessions[i].metrics;
    if k < |m| then m[k].outcome.Completed? else k == |m| && s.sessions[i].inFlight
  }

  /** The start ledger records exactly the turns that have been offered. */
  ghost predicate StartsOK(plan: Plan, s: State)
    requires |plan| == |s.sessions|
  {
    && (forall st :: st in s.starts ==>
          st.session < |plan| && st.turn < |plan[st.session]| && st.chatId == plan[st.session][st.turn]
          && Offered(s, st.session, st.turn))
    && (forall i, k | 0 <= i < |plan| && 0 <= k < |plan[i]| && Offered(s, i, k) ::
          Start(i, k, plan[i][k]) in s.starts)
  }

  ghost predicate OK(plan: Plan, s: State) {
    && |s.sessions| == |plan|
    && (forall i :: 0 <= i < |plan| ==> SessionOK(plan, s, i))
    && StartsOK(plan, s)
  }

  lemma InitOK(plan: Plan)
    ensures OK(plan, Init(plan))
  {}

  lemma FilterSnoc(sink: seq<Row>, row: Row, i: nat)
    ensures Filter(sink + [row], OfSession(i)) == Filter(sink, OfSession(i)) + if row.session == i then [row] else []
  {
    FilterConcat(sink, [row], OfSession(i));
  }

  lemma FinishSessions(plan: Plan, s: State, i: nat, outcome: Outcome, j: nat)
    requires OK(plan, s) && i < |plan| && j < |plan| && |s.sessions[i].metrics| < |plan[i]|
    requires outcome.Completed? || outcome.OverlongSkipped?
    ensures SessionOK(plan, Finish(plan, s, i, outcome), j)
  {
    assert SessionOK(plan, s, i) && SessionOK(plan, s, j);
    FilterSnoc(s.sink, Row(i, |s.sessions[i].metrics|, plan[i][|s.sessions[i].metrics|], outcome), j);
  }

  /** Completing what was offered, or skipping what was not, changes nothing about who has been offered. */
  lemma FinishOffered(plan: Plan, s: State, i: nat, outcome: Outcome, j: nat, k: nat)
    requires OK(plan, s) && i < |plan| && j < |plan| && |s.sessions[i].metrics| < |plan[i]|
    requires if s.sessions[i].inFlight then outcome.Completed? else outcome.OverlongSkipped?
    ensures Offered(Finish(plan, s, i, outcome), j, k) <==> Offered(s, j, k)
  {}

  lemma FinishOK(plan: Plan, s: State, i: nat, outcome: Outcome)
    requires OK(plan, s) && i < |plan| && |s.sessions[i].metrics| < |plan[i]|
    requires if s.sessions[i].inFlight then outcome.Completed? else outcome.OverlongSkipped?
    ensures OK(plan, Finish(plan, s, i, outcome))
  {
    var s' := Finish(plan, s, i, outcome);
    forall j | 0 <= j < |plan| ensures SessionOK(plan, s', j) { FinishSessions(plan, s, i, outcome, j); }
    forall j, k | 0 <= j < |plan| && 0 <= k < |plan[j]| ensures Offered(s', j, k) <==> Offered(s, j, k) {
      FinishOffered(plan, s, i, outcome, j, k);
    }
  }

  lemma DispatchOK(plan: Plan, s: State, i: nat)
    requires OK(plan, s) && Enabled(plan, s, Dispatch(i))
    ensures OK(plan, Next(plan, s, Dispatch(i)))
  {
    var s', n := Next(plan, s, Dispatch(i)), |s.sessions[i].metrics|;
    forall j | 0 <= j < |plan| ensures SessionOK(plan, s', j) { assert SessionOK(plan, s, j); }
    forall j, k | 0 <= j < |plan| && 0 <= k < |plan[j]|
      ensures Offered(s', j, k) <==> Offered(s, j, k) || (j == i && k == n)
    {}
    forall st | st in s'.starts
      ensures st.session < |plan| && st.turn < |plan[st.session]| && st.chatId == plan[st.session][st.turn]
              && Offered(s', st.session, st.turn)
    {
      assert st in s.starts || st == Start(i, n, plan[i][n]);
    }
    forall j, k | 0 <= j < |plan| && 0 <= k < |plan[j]| && Offered(s', j, k)
      ensures Start(j, k, plan[j][k]) in s'.starts
    {
      assert Offered(s, j, k) ==> Start(j, k, plan[j][k]) in s.starts;
      assert s'.starts[|s.starts|] == Start(i, n, plan[i][n]);
    }
  }

  lemma NextOK(plan: Plan, s: State, e: Event)
    requires OK(plan, s) && Enabled(plan, s, e)
    ensures OK(plan, Next(plan, s, e))
  {
    match e
    case Skip(i) => FinishOK(plan, s, i, OverlongSkipped);
    case Dispatch(i) => DispatchOK(plan, s, i);
    case Complete(i, ok) => FinishOK(plan, s, i, Completed(ok));
    case Deadline =>
      forall j | 0 <= j < |plan| ensures SessionOK(plan, Next(plan, s, e), j) { assert SessionOK(plan, s, j); }
      assert forall j, k | 0 <= j < |plan| && 0 <= k < |plan[j]| ::
               Offered(Next(plan, s, e), j, k) <==> Offered(s, j, k);
  }

  lemma {:induction false} RunOK(plan: Plan, events: seq<Event>, states: seq<State>, j: nat)
    requires IsRun(plan, events, states) && j < |states|
    ensures OK(plan, states[j])
  {
    if j == 0 {
      InitOK(plan);
    } else {
      RunOK(plan, events, states, j - 1);
      NextOK(plan, states[j - 1], events[j - 1]);
    }
  }

  // ---------- the ledgers are a record of the events ----------

  /** How a step ends a turn of its session, if it does: a request that is over keeps its result. */
  function Ending(e: Event): Option<(nat, Outcome)> {
    match e
    case Skip(i) => Some((i, OverlongSkipped))
    case Complete(i, ok) => Some((i, Completed(ok)))
    case _ => None
  }

  /** All turns ended, in the order in which they ended. */
  function Endings(events: seq<Event>): seq<(nat, Outcome)> {
    if events == [] then []
    else
      Endings(events[..|events| - 1])
      + match Ending(events[|events| - 1]) case Some(x) => [x] case None => []
  }

  /** How the turns of one session ended, first to last. */
  function OutcomesOf(events: seq<Event>, i: nat): seq<Outcome> {
    if events == [] then []
    else
      OutcomesOf(events[..|events| - 1], i)
      + match Ending(events[|events| - 1])
        case Some((session, outcome)) => if session == i then [outcome] else []
        case None => []
  }

  /** The sessions that offered a request, in the order in which they did, each with the turn it was at. */
  function OffersOf(events: seq<Event>): seq<(nat, nat)> {
    if events == [] then []
    else
      var before := events[..|events| - 1];
      OffersOf(before)
      + match events[|events| - 1] case Dispatch(i) => [(i, |OutcomesOf(before, i)|)] case _ => []
  }

  function Marks(rows: seq<Row>): seq<(nat, Outcome)> {
    seq(|rows|, k requires 0 <= k < |rows| => (rows[k].session, rows[k].outcome))
  }

  function Outcomes(rows: seq<Row>): seq<Outcome> {
    seq(|rows|, k requires 0 <= k < |rows| => rows[k].outcome)
  }

  function Places(starts: seq<Start>): seq<(nat, nat)> {
    seq(|starts|, k requires 0 <= k < |starts| => (starts[k].session, starts[k].turn))
  }

  /** The state tells the events: who ended how and when, and who offered what and when. */
  ghost predicate Tells(plan: Plan, s: State, events: seq<Event>) {
    && |s.sessions| == |plan|
    && Marks(s.sink) == Endings(events) && Places(s.starts) == OffersOf(events)
    && forall i :: 0 <= i < |plan| ==> Outcomes(s.sessions[i].metrics) == OutcomesOf(events, i)
  }

  lemma FinishTells(plan: Plan, s: State, events: seq<Event>, e: Event, i: nat, outcome: Outcome)
    requires Tells(plan, s, events) && i < |plan| && |s.sessions[i].metrics| < |plan[i]|
    requires Ending(e) == Some((i, outcome)) && !e.Dispatch?
    ensures Tells(plan, Finish(plan, s, i, outcome), events + [e])
  {
    assert (events + [e])[..|events|] == events;
    var s' := Finish(plan, s, i, outcome);
    assert Marks(s'.sink) == Marks(s.sink) + [(i, outcome)];
    assert Outcomes(s'.sessions[i].metrics) == Outcomes(s.sessions[i].metrics) + [outcome];
  }

  lemma NextTells(plan: Plan, s: State, events: seq<Event>, e: Event)
    requires Tells(plan, s, events) && Enabled(plan, s, e)
    ensures Tells(plan, Next(plan, s, e), events + [e])
  {
    match e
    case Skip(i) => FinishTells(plan, s, events, e, i, OverlongSkipped);
    case Complete(i, ok) => FinishTells(plan, s, events, e, i, Completed(ok));
    case Dispatch(i) =>
      assert (events + [e])[..|events|] == events;
      assert |Outcomes(s.sessions[i].metrics)| == |s.sessions[i].metrics|;
      assert Places(Next(plan, s, e).starts) == Places(s.starts) + [(i, |s.sessions[i].metrics|)];
    case Deadline => assert (events + [e])[..|events|] == events;
  }

  /** In every run: every row says how its turn ended, and both ledgers are in the order of the events. */
  lemma {:induction false} LedgersTell(plan: Plan, events: seq<Event>, states: seq<State>, j: nat)
    requires IsRun(plan, events, states) && j < |states|
    ensures Tells(plan, states[j], events[..j])
  {
    hide Tells, Next;
    if j == 0 {
      NothingTold(plan);
    } else {
      LedgersTell(plan, events, states, j - 1);
      NextTells(plan, states[j - 1], events[..j - 1], events[j - 1]);
      assert events[..j] == events[..j - 1] + [events[j - 1]];
    }
  }

  lemma NothingTold(plan: Plan)
    ensures Tells(plan, Init(plan), [])
  {}

  // ---------- filling in what is missing ----------

  /** Request ids are looked up by chat id; of several starts with one request id the last is kept. */
  ghost function LastStart(starts: seq<Start>, chatId: int): Option<Start> {
    if starts == [] then None
    else if starts[|starts| - 1].chatId == chatId then Some(starts[|starts| - 1])
    else LastStart(starts[..|starts| - 1], chatId)
  }

  lemma {:induction false} LastStartIn(starts: seq<Start>, chatId: int)
    ensures LastStart(starts, chatId).Some? <==> exists st :: st in starts && st.chatId == chatId
    ensures LastStart(starts, chatId).Some? ==>
              LastStart(starts, chatId).value in starts && LastStart(starts, chatId).value.chatId == chatId
  {
    if starts != [] {
      var rest, last := starts[..|starts| - 1], starts[|starts| - 1];
      LastStartIn(rest, chatId);
      assert forall st :: st in starts <==> st in rest || st == last by { assert starts == rest + [last]; }
    }
  }

  /** A cancelled row is a copy of the start it is found by, whichever turn that start was of. */
  function CancelledRow(st: Start): Row {
    Row(st.session, st.turn, st.chatId, ReplayCancelled)
  }

  ghost function Missing(plan: Plan, s: State, i: nat, k: nat): Row
    requires i < |plan| && k < |plan[i]|
  {
    match LastStart(s.starts, plan[i][k])
    case Some(st) => CancelledRow(st)
    case None => Row(i, k, plan[i][k], DeadlineSkipped)
  }

  ghost function MissingRows(plan: Plan, s: State, i: nat): seq<Row>
    requires i < |plan| == |s.sessions| && |s.sessions[i].metrics| <= |plan[i]|
  {
    var n := |s.sessions[i].metrics|;
    seq(|plan[i]| - n, k requires 0 <= k < |plan[i]| - n => Missing(plan, s, i, n + k))
  }

  lemma MissingAt(plan: Plan, s: State, i: nat, k: nat)
    requires i < |plan| == |s.sessions| && |s.sessions[i].metrics| <= k < |plan[i]|
    ensures MissingRows(plan, s, i)[k - |s.sessions[i].metrics|] == Missing(plan, s, i, k)
  {
    var n := |s.sessions[i].metrics|;
    assert n + (k - n) == k;
  }

  /** All rows of session `i` in the end. */
  ghost function FinalRows(plan: Plan, s: State, i: nat): seq<Row>
    requires i < |plan| == |s.sessions| && |s.sessions[i].metrics| <= |plan[i]|
  {
    s.sessions[i].metrics + MissingRows(plan, s, i)
  }

  ghost predicate Fits(plan: Plan, s: State) {
    |plan| == |s.sessions| && forall i :: 0 <= i < |plan| ==> |s.sessions[i].metrics| <= |plan[i]|
  }

  ghost function AllMetrics(s: State): seq<seq<Row>> {
    seq(|s.sessions|, i requires 0 <= i < |s.sessions| => s.sessions[i].metrics)
  }

  ghost function AllMissing(plan: Plan, s: State): seq<seq<Row>>
    requires Fits(plan, s)
  {
    seq(|plan|, i requires 0 <= i < |plan| => MissingRows(plan, s, i))
  }

  /** The sink in the end. */
  ghost function Output(plan: Plan, s: State): seq<Row>
    requires Fits(plan, s)
  {
    s.sink + Joined(AllMissing(plan, s), |plan|)
  }

  /** The start ledger read back: a later line with the same request id replaces an earlier one. */
  method ReadStarts(starts: seq<Start>) returns (byId: map<int, Start>)
    ensures forall c :: LastStart(starts, c) == if c in byId then Some(byId[c]) else None
  {
    byId := map[];
    for i := 0 to |starts|
      invariant forall c :: LastStart(starts[..i], c) == if c in byId then Some(byId[c]) else None
    {
      assert starts[..i + 1][..i] == starts[..i];
      byId := byId[starts[i].chatId := starts[i]];
    }
    assert starts[..|starts|] == starts;
  }

  /** The tail of the replay: rows of the sessions, then a row for every turn that has none. */
  method Settle(plan: Plan, s: State) returns (flat: seq<Row>, sink: seq<Row>)
    requires Fits(plan, s)
    ensures flat == Joined(AllMetrics(s), |plan|) + Joined(AllMissing(plan, s), |plan|)
    ensures sink == Output(plan, s)
  {
    flat := [];
    for i := 0 to |plan|
      invariant flat == Joined(AllMetrics(s), i)
    {
      flat := flat + s.sessions[i].metrics;
    }
    var starts := ReadStarts(s.starts);
    var skipped: seq<Row> := [];
    for i := 0 to |plan|
      invariant skipped == Joined(AllMissing(plan, s), i)
    {
      var n := |s.sessions[i].metrics|;
      ghost var before := skipped;
      for k := n to |plan[i]|
        invariant skipped == before + MissingRows(plan, s, i)[..k - n]
      {
        var c := plan[i][k];
        var row := if c in starts then CancelledRow(starts[c]) else Row(i, k, c, DeadlineSkipped);
        MissingAt(plan, s, i, k);
        skipped := skipped + [row];
      }
      assert MissingRows(plan, s, i)[..|plan[i]| - n] == MissingRows(plan, s, i);
    }
    flat, sink := flat + skipped, s.sink + skipped;
  }

  // ---------- as many rows as turns ----------

  lemma OKFits(plan: Plan, s: State)
    requires OK(plan, s)
    ensures Fits(plan, s)
  {
    forall i | 0 <= i < |plan| ensures |s.sessions[i].metrics| <= |plan[i]| {
      assert SessionOK(plan, s, i);
    }
  }

  function Total(plan: Plan): nat {
    if plan == [] then 0 else |plan[|plan| - 1]| + Total(plan[..|plan| - 1])
  }

  lemma {:induction false} JoinedLengths(plan: Plan, s: State, n: nat)
    requires Fits(plan, s) && n <= |plan|
    ensures |Joined(AllMetrics(s), n)| + |Joined(AllMissing(plan, s), n)| == Total(plan[..n])
  {
    if n > 0 {
      JoinedLengths(plan, s, n - 1);
      assert plan[..n][..n - 1] == plan[..n - 1];
    }
  }

  /** The length check at the end of the replay cannot fail. */
  lemma LengthCheckHolds(plan: Plan, events: seq<Event>, states: seq<State>, j: nat)
    requires IsRun(plan, events, states) && j < |states|
    ensures Fits(plan, states[j])
    ensures |Joined(AllMetrics(states[j]), |plan|) + Joined(AllMissing(plan, states[j]), |plan|)| == Total(plan)
  {
    RunOK(plan, events, states, j);
    OKFits(plan, states[j]);
    JoinedLengths(plan, states[j], |plan|);
    assert plan[..|plan|] == plan;
  }

  // ---------- with distinct chat ids: one row per turn, and it says what happened ----------

  ghost predicate ChatIdsDistinct(plan: Plan) {
    forall i, k, j, l | 0 <= i < |plan| && 0 <= k < |plan[i]| && 0 <= j < |plan| && 0 <= l < |plan[j]| ::
      plan[i][k] == plan[j][l] ==> i == j && k == l
  }

  /** Then the start found by a turn's chat id is its own. */
  lemma MissingOwn(plan: Plan, s: State, i: nat, k: nat)
    requires OK(plan, s) && ChatIdsDistinct(plan) && i < |plan| && k < |plan[i]|
    ensures var outcome := if Offered(s, i, k) then ReplayCancelled else DeadlineSkipped;
            Missing(plan, s, i, k) == Row(i, k, plan[i][k], outcome)
  {
    var c := plan[i][k];
    LastStartIn(s.starts, c);
    if Offered(s, i, k) { assert Start(i, k, c) in s.starts; }
  }

  lemma FilterNothing(i: nat)
    ensures Filter([], OfSession(i)) == []
  {}

  lemma MissingFilter(plan: Plan, s: State, m: nat, i: nat)
    requires OK(plan, s) && ChatIdsDistinct(plan) && Fits(plan, s) && m < |plan|
    ensures Filter(MissingRows(plan, s, m), OfSession(i)) == if i == m then MissingRows(plan, s, m) else []
  {
    hide OK, ChatIdsDistinct, Missing;
    var rows := MissingRows(plan, s, m);
    forall x | x in rows ensures x.session == m {
      var k :| 0 <= k < |rows| && rows[k] == x;
      MissingAt(plan, s, m, |s.sessions[m].metrics| + k);
      MissingOwn(plan, s, m, |s.sessions[m].metrics| + k);
    }
    FilterAll(rows, OfSession(i));
  }

  lemma {:induction false} FilterJoined(plan: Plan, s: State, i: nat, n: nat)
    requires OK(plan, s) && ChatIdsDistinct(plan) && Fits(plan, s) && n <= |plan| && i < |plan|
    ensures Filter(Joined(AllMissing(plan, s), n), OfSession(i)) == if i < n then MissingRows(plan, s, i) else []
  {
    hide OK, ChatIdsDistinct, MissingRows, Filter;
    if n == 0 {
      FilterNothing(i);
    } else {
      FilterJoined(plan, s, i, n - 1);
      FilterConcat(Joined(AllMissing(plan, s), n - 1), MissingRows(plan, s, n - 1), OfSession(i));
      MissingFilter(plan, s, n - 1, i);
    }
  }

  /** The rows of a session are one per turn, in turn order. */
  ghost predicate OnePerTurn(plan: Plan, rows: seq<Row>, i: nat)
    requires i < |plan|
  {
    && |rows| == |plan[i]|
    && forall k :: 0 <= k < |rows| ==> rows[k].session == i && rows[k].turn == k && rows[k].chatId == plan[i][k]
  }

  /** The sink has for every session exactly one row per turn. */
  ghost predicate Accounted(plan: Plan, s: State) {
    Fits(plan, s) && forall i :: 0 <= i < |plan| ==> OnePerTurn(plan, Filter(Output(plan, s), OfSession(i)), i)
  }

  lemma SessionOutput(plan: Plan, s: State, i: nat)
    requires OK(plan, s) && ChatIdsDistinct(plan) && i < |plan|
    ensures Fits(plan, s) && Filter(Output(plan, s), OfSession(i)) == FinalRows(plan, s, i)
    ensures OnePerTurn(plan, FinalRows(plan, s, i), i)
  {
    hide Missing, ChatIdsDistinct;
    OKFits(plan, s);
    assert SessionOK(plan, s, i);
    forall k | |s.sessions[i].metrics| <= k < |plan[i]|
      ensures var r := FinalRows(plan, s, i)[k]; r.session == i && r.turn == k && r.chatId == plan[i][k]
    {
      MissingAt(plan, s, i, k);
      MissingOwn(plan, s, i, k);
    }
    FilterConcat(s.sink, Joined(AllMissing(plan, s), |plan|), OfSession(i));
    FilterJoined(plan, s, i, |plan|);
  }

  /** Whatever the schedule and wherever the run is stopped, the sink ends up with one row per turn, in turn order. */
  lemma OneRowPerTurn(plan: Plan, events: seq<Event>, states: seq<State>, j: nat)
    requires IsRun(plan, events, states) && j < |states| && ChatIdsDistinct(plan)
    ensures Accounted(plan, states[j])
  {
    RunOK(plan, events, states, j);
    OKFits(plan, states[j]);
    forall i | 0 <= i < |plan| ensures OnePerTurn(plan, Filter(Output(plan, states[j]), OfSession(i)), i) {
      SessionOutput(plan, states[j], i);
    }
  }

  ghost predicate LabelRight(plan: Plan, s: State, i: nat, k: nat)
    requires i < |plan| == |s.sessions| && k < |plan[i]|
  {
    Missing(plan, s, i, k).outcome == ReplayCancelled <==> Offered(s, i, k)
  }

  /** A missing row is a cancellation exactly if its turn had been offered. */
  ghost predicate LabelledRight(plan: Plan, s: State) {
    |s.sessions| == |plan| ==>
      forall i, k :: 0 <= i < |plan| && |s.sessions[i].metrics| <= k < |plan[i]| ==> LabelRight(plan, s, i, k)
  }

  lemma DistinctLabels(plan: Plan, s: State)
    requires OK(plan, s) && ChatIdsDistinct(plan)
    ensures LabelledRight(plan, s)
  {
    forall i, k | 0 <= i < |plan| && |s.sessions[i].metrics| <= k < |plan[i]| ensures LabelRight(plan, s, i, k) {
      MissingOwn(plan, s, i, k);
    }
  }

  /** Completed or filtered turns, then at most one cancellation, then only turns never offered. */
  ghost predicate WellShaped(rows: seq<Row>, done: nat, inFlight: bool) {
    && done <= |rows|
    && (forall k :: 0 <= k < done ==> rows[k].outcome.Completed? || rows[k].outcome.OverlongSkipped?)
    && (forall k :: done <= k < |rows| ==>
          rows[k].outcome == if k == done && inFlight then ReplayCancelled else DeadlineSkipped)
  }

  /** With distinct chat ids, whatever the schedule and wherever the deadline falls. */
  lemma SessionRowsShaped(plan: Plan, events: seq<Event>, states: seq<State>, j: nat, i: nat)
    requires IsRun(plan, events, states) && j < |states| && i < |plan| && ChatIdsDistinct(plan)
    ensures Fits(plan, states[j])
    ensures var session := states[j].sessions[i];
            WellShaped(Filter(Output(plan, states[j]), OfSession(i)), |session.metrics|, session.inFlight)
  {
    var s := states[j];
    RunOK(plan, events, states, j);
    SessionOutput(plan, s, i);
    assert SessionOK(plan, s, i);
    var rows, n := FinalRows(plan, s, i), |s.sessions[i].metrics|;
    forall k | n <= k < |rows|
      ensures rows[k].outcome == if k == n && s.sessions[i].inFlight then ReplayCancelled else DeadlineSkipped
    {
      MissingAt(plan, s, i, k);
      MissingOwn(plan, s, i, k);
    }
  }

  /** And the finished ones say how they finished, turn by turn as the events had it. */
  lemma SessionRowsTell(plan: Plan, events: seq<Event>, states: seq<State>, j: nat, i: nat)
    requires IsRun(plan, events, states) && j < |states| && i < |plan| && ChatIdsDistinct(plan)
    ensures Fits(plan, states[j])
    ensures OutcomesOf(events[..j], i) <= Outcomes(Filter(Output(plan, states[j]), OfSession(i)))
    ensures |OutcomesOf(events[..j], i)| == |states[j].sessions[i].metrics|
  {
    hide IsRun, ChatIdsDistinct, Output, Fits;
    var s := states[j];
    RunOK(plan, events, states, j);
    LedgersTell(plan, events, states, j);
    SessionOutput(plan, s, i);
    var m := s.sessions[i].metrics;
    assert Outcomes(FinalRows(plan, s, i))[..|m|] == Outcomes(m);
  }

  // ---------- every start is accounted for ----------

  lemma {:induction false} InJoined(rows: seq<seq<Row>>, n: nat, i: nat, k: nat)
    requires i < n <= |rows| && k < |rows[i]|
    ensures rows[i][k] in Joined(rows, n)
  {
    if i == n - 1 {
      assert Joined(rows, n)[|Joined(rows, n - 1)| + k] == rows[i][k];
    } else {
      InJoined(rows, n - 1, i, k);
      var m :| 0 <= m < |Joined(rows, n - 1)| && Joined(rows, n - 1)[m] == rows[i][k];
      assert Joined(rows, n)[m] == rows[i][k];
    }
  }

  lemma MissingInOutput(plan: Plan, s: State, i: nat, k: nat)
    requires Fits(plan, s) && i < |plan| && |s.sessions[i].metrics| <= k < |plan[i]|
    ensures Missing(plan, s, i, k) in Output(plan, s)
  {
    hide Missing;
    var all := AllMissing(plan, s);
    MissingAt(plan, s, i, k);
    InJoined(all, |plan|, i, k - |s.sessions[i].metrics|);
    InEither(s.sink, Joined(all, |plan|), Missing(plan, s, i, k));
  }

  lemma {:induction false} FilterIn(rows: seq<Row>, i: nat, k: nat)
    requires k < |Filter(rows, OfSession(i))|
    ensures Filter(rows, OfSession(i))[k] in rows
  {
    FilterMember(rows, OfSession(i), k);
  }

  /** Every request that was offered has a row with its request id that says so: completed, or cancelled. */
  lemma StartedHasTerminalRow(plan: Plan, events: seq<Event>, states: seq<State>, j: nat, st: Start) returns (r: Row)
    requires IsRun(plan, events, states) && j < |states| && st in states[j].starts
    ensures Fits(plan, states[j]) && r in Output(plan, states[j])
    ensures r.chatId == st.chatId && (r.outcome.Completed? || r.outcome == ReplayCancelled)
    ensures ChatIdsDistinct(plan) ==> r.session == st.session && r.turn == st.turn
  {
    var s, i, k := states[j], st.session, st.turn;
    RunOK(plan, events, states, j);
    OKFits(plan, s);
    assert SessionOK(plan, s, i) && Offered(s, i, k);
    if k < |s.sessions[i].metrics| {
      r := s.sessions[i].metrics[k];
      FilterIn(s.sink, i, k);
      InEither(s.sink, Joined(AllMissing(plan, s), |plan|), r);
    } else {
      r := Missing(plan, s, i, k);
      LastStartIn(s.starts, st.chatId);
      MissingInOutput(plan, s, i, k);
      if ChatIdsDistinct(plan) { MissingOwn(plan, s, i, k); }
    }
  }

  // ---------- with a shared chat id a turn can lose its row ----------

  /** Session `i` has completed its first `n` turns and nothing else has happened. */
  ghost predicate OnlyRan(plan: Plan, s: State, i: nat, n: nat) {
    && |s.sessions| == |plan| && i < |plan| && n <= |plan[i]|
    && (forall j :: 0 <= j < |plan| ==> |s.sessions[j].metrics| == (if j == i then n else 0) && !s.sessions[j].inFlight)
    && (forall k :: 0 <= k < n ==> Start(i, k, plan[i][k]) in s.starts)
    && (forall st :: st in s.starts ==> st.session == i && st.turn < n)
    && (forall r :: r in s.sink ==> r.session == i && r.turn < n)
  }

  lemma Extend(plan: Plan, events: seq<Event>, states: seq<State>, e: Event)
    requires IsRun(plan, events, states) && Enabled(plan, states[|events|], e)
    ensures IsRun(plan, events + [e], states + [Next(plan, states[|events|], e)])
  {}

  /** One more turn of the session. */
  lemma RunsOne(plan: Plan, s: State, i: nat, n: nat)
    requires OnlyRan(plan, s, i, n) && n < |plan[i]| && !s.cancelled
    ensures Enabled(plan, s, Dispatch(i)) && Enabled(plan, Next(plan, s, Dispatch(i)), Complete(i, true))
    ensures var s' := Next(plan, Next(plan, s, Dispatch(i)), Complete(i, true));
            OnlyRan(plan, s', i, n + 1) && !s'.cancelled
  {
    var s1 := Next(plan, s, Dispatch(i));
    var s' := Next(plan, s1, Complete(i, true));
    SnocMembers(s.starts, Start(i, n, plan[i][n]));
    SnocMembers(s.sink, Row(i, n, plan[i][n], Completed(true)));
  }

  lemma {:induction false} RunThrough(plan: Plan, i: nat, n: nat) returns (events: seq<Event>, states: seq<State>)
    requires i < |plan| && n <= |plan[i]|
    ensures IsRun(plan, events, states) && OnlyRan(plan, states[|events|], i, n) && !states[|events|].cancelled
  {
    if n == 0 {
      events, states := [], [Init(plan)];
    } else {
      hide OnlyRan, Enabled, Next;
      events, states := RunThrough(plan, i, n - 1);
      var s := states[|events|];
      RunsHere(plan, s, i, n - 1);
      RunsOne(plan, s, i, n - 1);
      Extend(plan, events, states, Dispatch(i));
      events, states := events + [Dispatch(i)], states + [Next(plan, s, Dispatch(i))];
      Extend(plan, events, states, Complete(i, true));
      events, states := events + [Complete(i, true)], states + [Next(plan, states[|events|], Complete(i, true))];
    }
  }

  lemma RunsHere(plan: Plan, s: State, i: nat, n: nat)
    requires OnlyRan(plan, s, i, n)
    ensures i < |plan|
  {}

  /** In such a state the row of turn (`j`, `l`), which shares the id of a finished turn, is nowhere in the output. */
  lemma NoRowFor(plan: Plan, s: State, i: nat, n: nat, k: nat, j: nat, l: nat, r: Row)
    requires OnlyRan(plan, s, i, n) && Fits(plan, s) && k < n && j < |plan| && l < |plan[j]| && plan[i][k] == plan[j][l]
    requires i != j || n <= l
    requires r in Output(plan, s)
    ensures !(r.session == j && r.turn == l)
  {
    InEither(s.sink, Joined(AllMissing(plan, s), |plan|), r);
    if r !in s.sink {
      var a, b := FromMissing(plan, s, |plan|, r);
      LastStartIn(s.starts, plan[a][b]);
      assert Start(i, k, plan[i][k]) in s.starts;
    }
  }

  lemma {:induction false} FromMissing(plan: Plan, s: State, n: nat, r: Row) returns (i: nat, k: nat)
    requires Fits(plan, s) && n <= |plan| && r in Joined(AllMissing(plan, s), n)
    ensures i < |plan| && k < |plan[i]| && r == Missing(plan, s, i, k)
  {
    hide Missing;
    InEither(Joined(AllMissing(plan, s), n - 1), MissingRows(plan, s, n - 1), r);
    if r in Joined(AllMissing(plan, s), n - 1) {
      i, k := FromMissing(plan, s, n - 1, r);
    } else {
      var rows := MissingRows(plan, s, n - 1);
      var m :| 0 <= m < |rows| && rows[m] == r;
      i, k := n - 1, |s.sessions[n - 1].metrics| + m;
      MissingAt(plan, s, i, k);
    }
  }

  /**
   Two turns that share a chat id: run the first, hit the deadline, and the second, which was never
   offered, is called cancelled, under the name of the first; no row is left that bears its own.
   */
  lemma SharedIdLosesRow(plan: Plan, i: nat, k: nat, j: nat, l: nat) returns (events: seq<Event>, states: seq<State>)
    requires i < |plan| && k < |plan[i]| && j < |plan| && l < |plan[j]| && plan[i][k] == plan[j][l]
    requires i != j || k < l
    ensures IsRun(plan, events, states) && !LabelledRight(plan, states[|events|]) && Fits(plan, states[|events|])
    ensures forall r :: r in Output(plan, states[|events|]) ==> !(r.session == j && r.turn == l)
  {
    events, states := RunThrough(plan, i, k + 1);
    var s := states[|events|];
    Extend(plan, events, states, Deadline);
    events, states := events + [Deadline], states + [Next(plan, s, Deadline)];
    var last := states[|events|];
    assert OnlyRan(plan, last, i, k + 1);
    assert Start(i, k, plan[i][k]) in last.starts;
    LastStartIn(last.starts, plan[j][l]);
    assert !LabelRight(plan, last, j, l);
    RunOK(plan, events, states, |events|);
    OKFits(plan, last);
    forall r | r in Output(plan, last) ensures !(r.session == j && r.turn == l) {
      NoRowFor(plan, last, i, k + 1, k, j, l, r);
    }
  }

  /** So such a run is not complete. */
  lemma LostRowIncomplete(plan: Plan, s: State, j: nat, l: nat)
    requires Fits(plan, s) && j < |plan| && l < |plan[j]|
    requires forall r :: r in Output(plan, s) ==> !(r.session == j && r.turn == l)
    ensures !Accounted(plan, s)
  {
    var rows := Filter(Output(plan, s), OfSession(j));
    if l < |rows| {
      FilterIn(Output(plan, s), j, l);
      assert rows[l] in Output(plan, s);
    }
  }

  /** Of a plan that shares a chat id, a run that mislabels a turn and loses its row. */
  lemma SharedIdFails(plan: Plan) returns (events: seq<Event>, states: seq<State>)
    requires !ChatIdsDistinct(plan)
    ensures IsRun(plan, events, states) && !LabelledRight(plan, states[|events|]) && !Accounted(plan, states[|events|])
  {
    var i, k, j, l :| 0 <= i < |plan| && 0 <= k < |plan[i]| && 0 <= j < |plan| && 0 <= l < |plan[j]| &&
                      plan[i][k] == plan[j][l] && !(i == j && k == l);
    if i != j || k < l {
      events, states := SharedIdLosesRow(plan, i, k, j, l);
      LostRowIncomplete(plan, states[|events|], j, l);
    } else {
      events, states := SharedIdLosesRow(plan, j, l, i, k);
      LostRowIncomplete(plan, states[|events|], i, k);
    }
  }

  /** Every run leaves one row per turn of each session if and only if no two turns share a chat id. */
  lemma OneRowPerTurnIff(plan: Plan)
    ensures ChatIdsDistinct(plan) <==>
            (forall events, states :: IsRun(plan, events, states) ==> Accounted(plan, states[|events|]))
  {
    if ChatIdsDistinct(plan) {
      forall events, states | IsRun(plan, events, states) ensures Accounted(plan, states[|events|]) {
        OneRowPerTurn(plan, events, states, |events|);
      }
    } else {
      var events, states := SharedIdFails(plan);
    }
  }

  /** The labels are right in every run if and only if no two turns share a chat id. */
  lemma LabelsRightIff(plan: Plan)
    ensures ChatIdsDistinct(plan) <==>
            (forall events, states :: IsRun(plan, events, states) ==> LabelledRight(plan, states[|events|]))
  {
    if ChatIdsDistinct(plan) {
      forall events, states | IsRun(plan, events, states) ensures LabelledRight(plan, states[|events|]) {
        RunOK(plan, events, states, |events|);
        DistinctLabels(plan, states[|events|]);
      }
    } else {
      var events, states := SharedIdFails(plan);
    }
  }
}
