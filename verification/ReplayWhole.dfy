/** From a loaded trace to the final ledger: the parts of the replay put together. */
module ReplayWhole {
  import opened Strings
  import opened Sequences
  import opened StableSort
  import opened TraceSchema
  import opened TraceLoader
  import opened ReplayLedger
  import Ladder = AdmissionLadder
  import opened ImportedIds
  import CodexTrial

  /** Request ids by chat id: the last row with a chat id names it.  The row's index stands for the id it ends. */
  method RequestIds(records: seq<TraceRecord>) returns (ids: map<int, nat>)
    ensures forall k :: 0 <= k < |records| ==> records[k].chatId in ids && k <= ids[records[k].chatId]
    ensures forall c :: c in ids ==> ids[c] < |records| && records[ids[c]].chatId == c
    ensures forall c, d :: c in ids && d in ids && ids[c] == ids[d] ==> c == d
  {
    ids := map[];
    for i := 0 to |records|
      invariant forall k :: 0 <= k < i ==> records[k].chatId in ids && k <= ids[records[k].chatId]
      invariant forall c :: c in ids ==> ids[c] < i && records[ids[c]].chatId == c
    {
      ids := ids[records[i].chatId := i];
    }
  }

  function ChatIds(turns: seq<TraceRecord>): seq<int> {
    seq(|turns|, k requires 0 <= k < |turns| => turns[k].chatId)
  }

  /** The sessions in the order they are started in. */
  function PlanOf(sessions: seq<string>, groups: Groups): Plan {
    if sessions == [] then []
    else PlanOf(sessions[..|sessions| - 1], groups) + [ChatIds(TurnsOf(groups, sessions[|sessions| - 1]))]
  }

  function TurnsOf(groups: Groups, sid: string): seq<TraceRecord> {
    if sid in groups then groups[sid] else []
  }

  /** Sessions are started by the time of their first turn. */
  function StartsBefore(groups: Groups): (string, string) -> bool {
    (a: string, b: string) => FirstTime(groups, a) <= FirstTime(groups, b)
  }

  function FirstTime(groups: Groups, sid: string): real {
    if TurnsOf(groups, sid) == [] then 0.0 else TurnsOf(groups, sid)[0].timestamp
  }

  lemma {:induction false} PlanTotal(sessions: seq<string>, groups: Groups, records: seq<TraceRecord>)
    requires forall sid :: sid in sessions ==> sid in groups && |groups[sid]| == |Members(records, sid)|
    ensures Total(PlanOf(sessions, groups)) == MemberTotal(records, sessions)
  {
    hide MemberTotal, Members;
    if sessions == [] {
      NothingTotal(records);
    } else {
      var rest, last := sessions[..|sessions| - 1], sessions[|sessions| - 1];
      PlanTotal(rest, groups, records);
      var plan := PlanOf(sessions, groups);
      assert plan[..|plan| - 1] == PlanOf(rest, groups);
      MemberTotalLast(records, rest, last);
      assert sessions == rest + [last];
    }
  }

  lemma NothingTotal(records: seq<TraceRecord>)
    ensures MemberTotal(records, []) == 0
  {}

  lemma {:induction false} MemberTotalLast(records: seq<TraceRecord>, order: seq<string>, sid: string)
    ensures MemberTotal(records, order + [sid]) == MemberTotal(records, order) + |Members(records, sid)|
  {
    if order == [] {
      assert order + [sid] == [sid];
    } else {
      assert (order + [sid])[1..] == order[1..] + [sid];
      MemberTotalLast(records, order[1..], sid);
    }
  }

  lemma GroupSizes(records: seq<TraceRecord>, order: seq<string>, groups: Groups, sid: string)
    requires AreGroups(records, order, groups) && sid in groups
    ensures |groups[sid]| == |Members(records, sid)|
  {
    EarlierIsPreorder();
    SortSorts(Members(records, sid), Earlier);
    BagMembers(groups[sid], Members(records, sid));
  }

  /** However the sessions are ordered, the plan has one turn per record of the trace. */
  lemma PlanCoversTrace(records: seq<TraceRecord>, order: seq<string>, groups: Groups, sessions: seq<string>)
    requires AreGroups(records, order, groups) && multiset(sessions) == multiset(order)
    ensures Total(PlanOf(sessions, groups)) == |records|
  {
    BagMembers(sessions, order);
    BagDistinct(order, sessions);
    forall sid | sid in sessions ensures |groups[sid]| == |Members(records, sid)| {
      GroupSizes(records, order, groups, sid);
    }
    PlanTotal(sessions, groups, records);
    MembersPartition(records, sessions);
  }

  /** For every trace, every schedule and every deadline the final list has as many rows as the trace has records. */
  lemma AssertionNeverFails(records: seq<TraceRecord>, order: seq<string>, groups: Groups,
                            events: seq<Event>, states: seq<State>, j: nat)
    requires AreGroups(records, order, groups)
    requires IsRun(PlanOf(Sort(order, StartsBefore(groups)), groups), events, states) && j < |states|
    ensures var plan := PlanOf(Sort(order, StartsBefore(groups)), groups);
            Fits(plan, states[j]) &&
            |Joined(AllMetrics(states[j]), |plan|) + Joined(AllMissing(plan, states[j]), |plan|)| == |records|
  {
    var sessions := Sort(order, StartsBefore(groups));
    SortSorts(order, StartsBefore(groups));
    PlanCoversTrace(records, order, groups, sessions);
    LengthCheckHolds(PlanOf(sessions, groups), events, states, j);
  }

  // ---------- chat ids from the trace to the plan ----------

  lemma {:induction false} PlanAt(sessions: seq<string>, groups: Groups)
    ensures |PlanOf(sessions, groups)| == |sessions|
    ensures forall i :: 0 <= i < |sessions| ==> PlanOf(sessions, groups)[i] == ChatIds(TurnsOf(groups, sessions[i]))
  {
    if sessions != [] { PlanAt(sessions[..|sessions| - 1], groups); }
  }

  /** A group has every row of its session, as often as the trace has it. */
  lemma GroupBag(records: seq<TraceRecord>, order: seq<string>, groups: Groups, sid: string, x: TraceRecord)
    requires AreGroups(records, order, groups) && sid in groups
    ensures multiset(groups[sid])[x] == if x.sessionId == Some(sid) then multiset(records)[x] else 0
  {
    EarlierIsPreorder();
    SortSorts(Members(records, sid), Earlier);
    FilterBag(records, InSession(sid), x);
  }

  lemma UniqueIdsSplit(records: seq<TraceRecord>)
    ensures UniqueIds(records) <==>
            Distinct(records) && forall x, y :: x in records && y in records && x.chatId == y.chatId ==> x == y
  {
    if UniqueIds(records) {
      forall x, y | x in records && y in records && x.chatId == y.chatId ensures x == y {
        var a :| 0 <= a < |records| && records[a] == x;
        var b :| 0 <= b < |records| && records[b] == y;
      }
    }
  }

  lemma UniqueGroup(records: seq<TraceRecord>, order: seq<string>, groups: Groups, sid: string)
    requires AreGroups(records, order, groups) && sid in groups && Distinct(records)
    ensures Distinct(groups[sid])
  {
    DistinctBag(records);
    forall x ensures multiset(groups[sid])[x] <= 1 { GroupBag(records, order, groups, sid, x); }
    DistinctBag(groups[sid]);
  }

  /** The row at a place of the plan is a row of the trace and of that session. */
  lemma TurnIsRow(records: seq<TraceRecord>, order: seq<string>, groups: Groups, sid: string, k: nat)
    requires AreGroups(records, order, groups) && sid in groups && k < |groups[sid]|
    ensures groups[sid][k] in records && groups[sid][k].sessionId == Some(sid)
  {
    GroupBag(records, order, groups, sid, groups[sid][k]);
    assert groups[sid][k] in multiset(groups[sid]);
    assert groups[sid][k] in multiset(records);
  }

  /** And the other way round. */
  lemma RowIsTurn(records: seq<TraceRecord>, order: seq<string>, groups: Groups, x: TraceRecord) returns (k: nat)
    requires AreGroups(records, order, groups) && x in records
    ensures x.sessionId.Some? && x.sessionId.value in groups
    ensures k < |groups[x.sessionId.value]| && groups[x.sessionId.value][k] == x
  {
    var a :| 0 <= a < |records| && records[a] == x;
    var group := groups[x.sessionId.value];
    GroupBag(records, order, groups, x.sessionId.value, x);
    assert x in multiset(records);
    assert x in multiset(group);
    k :| 0 <= k < |group| && group[k] == x;
  }

  lemma UniqueIdsDistinctPlan(records: seq<TraceRecord>, order: seq<string>, groups: Groups, sessions: seq<string>)
    requires AreGroups(records, order, groups) && multiset(sessions) == multiset(order) && UniqueIds(records)
    ensures ChatIdsDistinct(PlanOf(sessions, groups))
  {
    hide AreGroups, PlanOf, UniqueIds;
    var plan := PlanOf(sessions, groups);
    PlanAt(sessions, groups);
    SessionsGrouped(records, order, groups, sessions);
    UniqueIdsSplit(records);
    forall i, k, j, l | 0 <= i < |plan| && 0 <= k < |plan[i]| && 0 <= j < |plan| && 0 <= l < |plan[j]|
                        && plan[i][k] == plan[j][l]
      ensures i == j && k == l
    {
      TurnIsRow(records, order, groups, sessions[i], k);
      TurnIsRow(records, order, groups, sessions[j], l);
      assert groups[sessions[i]][k] == groups[sessions[j]][l];
      UniqueGroup(records, order, groups, sessions[i]);
    }
  }

  lemma SessionsGrouped(records: seq<TraceRecord>, order: seq<string>, groups: Groups, sessions: seq<string>)
    requires AreGroups(records, order, groups) && multiset(sessions) == multiset(order)
    ensures Distinct(sessions) && forall sid :: sid in sessions <==> sid in groups
  {
    BagMembers(sessions, order);
    BagDistinct(order, sessions);
  }

  lemma DistinctPlanUniqueIds(records: seq<TraceRecord>, order: seq<string>, groups: Groups, sessions: seq<string>)
    requires AreGroups(records, order, groups) && multiset(sessions) == multiset(order)
    requires ChatIdsDistinct(PlanOf(sessions, groups))
    ensures UniqueIds(records)
  {
    hide AreGroups, PlanOf, UniqueIds, Distinct;
    PlanAt(sessions, groups);
    SessionsGrouped(records, order, groups, sessions);
    forall x, y | x in records && y in records && x.chatId == y.chatId ensures x == y {
      var k := RowIsTurn(records, order, groups, x);
      var l := RowIsTurn(records, order, groups, y);
      SamePlace(sessions, groups, x.sessionId.value, k, y.sessionId.value, l);
    }
    forall x ensures multiset(records)[x] <= 1 {
      if x in multiset(records) {
        var k := RowIsTurn(records, order, groups, x);
        var sid := x.sessionId.value;
        GroupBag(records, order, groups, sid, x);
        GroupDistinct(sessions, groups, sid);
        DistinctBag(groups[sid]);
      }
    }
    DistinctBag(records);
    UniqueIdsSplit(records);
  }

  lemma SamePlace(sessions: seq<string>, groups: Groups, sid: string, k: nat, sid': string, l: nat)
    requires ChatIdsDistinct(PlanOf(sessions, groups))
    requires sid in sessions && sid' in sessions && sid in groups && sid' in groups
    requires k < |groups[sid]| && l < |groups[sid']| && groups[sid][k].chatId == groups[sid'][l].chatId
    ensures sid == sid' && k == l
  {
    PlanAt(sessions, groups);
    var i :| 0 <= i < |sessions| && sessions[i] == sid;
    var j :| 0 <= j < |sessions| && sessions[j] == sid';
    var plan := PlanOf(sessions, groups);
    assert plan[i][k] == plan[j][l];
  }

  lemma GroupDistinct(sessions: seq<string>, groups: Groups, sid: string)
    requires ChatIdsDistinct(PlanOf(sessions, groups)) && sid in sessions && sid in groups
    ensures Distinct(groups[sid])
  {
    hide ChatIdsDistinct, PlanOf;
    forall k, l | 0 <= k < l < |groups[sid]| ensures groups[sid][k] != groups[sid][l] {
      if groups[sid][k] == groups[sid][l] { SamePlace(sessions, groups, sid, k, sid, l); }
    }
  }

  /** The plan of a loaded trace. */
  ghost function PlanFor(order: seq<string>, groups: Groups): Plan {
    PlanOf(Sort(order, StartsBefore(groups)), groups)
  }

  /**
   Whatever the trace: in every run each turn gets exactly one row of its own, and every missing row
   says truly whether its turn was offered, if and only if no two rows of the trace share a chat id.
   */
  lemma LedgerRightIff(records: seq<TraceRecord>, order: seq<string>, groups: Groups)
    requires AreGroups(records, order, groups)
    ensures UniqueIds(records) <==>
            (forall events, states :: IsRun(PlanFor(order, groups), events, states) ==>
               && Accounted(PlanFor(order, groups), states[|events|])
               && LabelledRight(PlanFor(order, groups), states[|events|]))
  {
    hide AreGroups, UniqueIds, ChatIdsDistinct, Accounted, LabelledRight, PlanOf, Sort;
    var sessions := Sort(order, StartsBefore(groups));
    SortSorts(order, StartsBefore(groups));
    if ChatIdsDistinct(PlanFor(order, groups)) {
      DistinctPlanUniqueIds(records, order, groups, sessions);
    }
    if UniqueIds(records) {
      UniqueIdsDistinctPlan(records, order, groups, sessions);
    }
    OneRowPerTurnIff(PlanFor(order, groups));
    LabelsRightIff(PlanFor(order, groups));
  }

  // ---------- imported traces ----------

  lemma LoadedIds(rows: seq<TraceRecord>, name: int -> string, records: seq<TraceRecord>)
    requires Loaded(rows, name, records)
    ensures UniqueIds(rows) ==> UniqueIds(records)
    ensures |records| == |rows| && UniqueIds(records) ==> UniqueIds(rows)
  {
    assert forall k :: 0 <= k < |records| ==> records[k].chatId == rows[k].chatId;
  }

  /**
   An imported trace, loaded and grouped: in every run each turn gets exactly one row of its own and is
   labelled right, if and only if the id ranges of the imported sessions are apart.
   */
  lemma ImportedLedgerRightIff(c: Ladder.Config, replicas: nat, sessions: Option<nat>, trace: seq<Ladder.Row>,
                               name: int -> string, records: seq<TraceRecord>, order: seq<string>,
                               groups: Groups)
    requires CodexTrial.TimeMoves(c.params) && Ladder.IsImport(c, replicas, sessions, trace)
    requires Loaded(Ladder.Records(trace), name, records) && |records| == |trace| && AreGroups(records, order, groups)
    ensures IdsApart(c, Ladder.Order(c, replicas), Ladder.Admitted(c, replicas, sessions)) <==>
            (forall events, states :: IsRun(PlanFor(order, groups), events, states) ==>
               && Accounted(PlanFor(order, groups), states[|events|])
               && LabelledRight(PlanFor(order, groups), states[|events|]))
  {
    hide AreGroups, IsRun, Accounted, LabelledRight, UniqueIds, Loaded, IdsApart, Ladder.IsTrace,
         Ladder.Order, Ladder.Pool, PlanOf;
    ImportedIdsUniqueIff(c, replicas, Ladder.Keep(sessions, |Ladder.Pool(c.trials, replicas)|), trace);
    LoadedIds(Ladder.Records(trace), name, records);
    LedgerRightIff(records, order, groups);
  }

  /** Ranges that are apart are enough for any number of rows loaded. */
  lemma ImportedLedgerRight(c: Ladder.Config, replicas: nat, sessions: Option<nat>, trace: seq<Ladder.Row>,
                            name: int -> string, records: seq<TraceRecord>, order: seq<string>,
                            groups: Groups, events: seq<Event>, states: seq<State>)
    requires CodexTrial.TimeMoves(c.params) && Ladder.IsImport(c, replicas, sessions, trace)
    requires IdsApart(c, Ladder.Order(c, replicas), Ladder.Admitted(c, replicas, sessions))
    requires Loaded(Ladder.Records(trace), name, records) && AreGroups(records, order, groups)
    requires IsRun(PlanFor(order, groups), events, states)
    ensures Accounted(PlanFor(order, groups), states[|events|])
    ensures LabelledRight(PlanFor(order, groups), states[|events|])
  {
    hide AreGroups, IsRun, Accounted, LabelledRight, UniqueIds, Loaded, IdsApart, Ladder.IsTrace,
         Ladder.Order, Ladder.Pool, PlanOf;
    ImportedIdsUniqueIff(c, replicas, Ladder.Keep(sessions, |Ladder.Pool(c.trials, replicas)|), trace);
    LoadedIds(Ladder.Records(trace), name, records);
    LedgerRightIff(records, order, groups);
  }

  // ---------- the order of the sessions ----------

  /** Sessions are started in the order of their first turns. */
  lemma SessionsByStart(records: seq<TraceRecord>, order: seq<string>, groups: Groups, i: nat, j: nat)
    requires AreGroups(records, order, groups) && i < j < |order|
    ensures var sessions := Sort(order, StartsBefore(groups));
            && |sessions| == |order| && sessions[i] in groups && sessions[j] in groups
            && groups[sessions[i]][0].timestamp <= groups[sessions[j]][0].timestamp
  {
    hide Sort;
    var sessions := Sort(order, StartsBefore(groups));
    SortSorts(order, StartsBefore(groups));
    SessionsGrouped(records, order, groups, sessions);
    BagMembers(sessions, order);
    assert sessions[i] in sessions && sessions[j] in sessions;
  }
}
