/** Resolving the session of every row of a trace, and grouping the rows by session. */
module TraceLoader {
  import opened Strings
  import opened Sequences
  import opened StableSort
  import opened TraceSchema

  // ---------- sessions along parent chains ----------

  /** The latest row before `k` with this chat id. */
  ghost function LatestBefore(rows: seq<TraceRecord>, k: nat, chatId: int): Option<nat>
    requires k <= |rows|
    ensures LatestBefore(rows, k, chatId).Some? ==> LatestBefore(rows, k, chatId).value < k
  {
    if k == 0 then None
    else if rows[k - 1].chatId == chatId then Some(k - 1)
    else LatestBefore(rows, k - 1, chatId)
  }

  /** The session of row `k`: its own, its parent's, or one named after the root or the missing parent. */
  ghost function SessionOf(rows: seq<TraceRecord>, k: nat, name: int -> string): string
    requires k < |rows|
  {
    var r := rows[k];
    if r.sessionId.Some? then r.sessionId.value
    else if r.parentChatId < 0 then name(r.chatId)
    else
      match LatestBefore(rows, k, r.parentChatId)
      case None => name(r.parentChatId)
      case Some(j) => SessionOf(rows, j, name)
  }

  ghost predicate Resolves(rows: seq<TraceRecord>, k: nat, name: int -> string, seen: map<int, string>)
    requires k <= |rows|
  {
    forall c :: match LatestBefore(rows, k, c)
                case None => c !in seen
                case Some(j) => c in seen && seen[c] == SessionOf(rows, j, name)
  }

  method ResolveSessionId(chatId: int, parentChatId: int, seen: map<int, string>, name: int -> string)
    returns (session: string, seen': map<int, string>)
    ensures parentChatId < 0 ==> session == name(chatId)
    ensures parentChatId >= 0 ==> session == if parentChatId in seen then seen[parentChatId] else name(parentChatId)
    ensures seen' == seen[chatId := session]
  {
    if parentChatId < 0 {
      session := name(chatId);
    } else if parentChatId in seen {
      session := seen[parentChatId];
    } else {
      session := name(parentChatId);
    }
    seen' := seen[chatId := session];
  }

  /** The records are the first rows of the file, each with its session. */
  ghost predicate Loaded(rows: seq<TraceRecord>, name: int -> string, records: seq<TraceRecord>) {
    && |records| <= |rows|
    && forall k :: 0 <= k < |records| ==> records[k] == rows[k].(sessionId := Some(SessionOf(rows, k, name)))
  }

  /** Every loaded record has its session; apart from that and the limit the rows are as they were. */
  method LoadTrace(rows: seq<TraceRecord>, limit: Option<nat>, name: int -> string) returns (records: seq<TraceRecord>)
    ensures |records| == if limit.Some? && limit.value < |rows| then limit.value else |rows|
    ensures Loaded(rows, name, records)
  {
    var seen: map<int, string> := map[];
    records := [];
    for k := 0 to |rows|
      invariant |records| == k && (limit.Some? ==> k <= limit.value)
      invariant Resolves(rows, k, name, seen)
      invariant forall j :: 0 <= j < k ==> records[j] == rows[j].(sessionId := Some(SessionOf(rows, j, name)))
    {
      if limit.Some? && |records| >= limit.value {
        break;
      }
      var rec := rows[k];
      if rec.sessionId.Some? {
        seen := seen[rec.chatId := rec.sessionId.value];
      } else {
        var session;
        session, seen := ResolveSessionId(rec.chatId, rec.parentChatId, seen, name);
        rec := rec.(sessionId := Some(session));
      }
      records := records + [rec];
    }
  }

  /** A row without a session of its own is in the session of its parent, wherever that came from. */
  lemma JoinsParent(rows: seq<TraceRecord>, name: int -> string, records: seq<TraceRecord>, j: nat, k: nat)
    requires Loaded(rows, name, records) && j < k < |records|
    requires rows[k].sessionId.None? && rows[k].parentChatId == rows[j].chatId >= 0
    requires forall l :: j < l < k ==> rows[l].chatId != rows[j].chatId
    ensures records[k].sessionId == records[j].sessionId
  {
    LatestIs(rows, k, j);
  }

  lemma {:induction false} LatestIs(rows: seq<TraceRecord>, k: nat, j: nat)
    requires j < k <= |rows| && forall l :: j < l < k ==> rows[l].chatId != rows[j].chatId
    ensures LatestBefore(rows, k, rows[j].chatId) == Some(j)
  {
    if j < k - 1 { LatestIs(rows, k - 1, j); }
  }

  lemma RootNamesSession(rows: seq<TraceRecord>, name: int -> string, k: nat)
    requires k < |rows| && rows[k].sessionId.None? && rows[k].parentChatId < 0
    ensures SessionOf(rows, k, name) == name(rows[k].chatId)
  {}

  /** The rows are one conversation, each turn the child of the turn before. */
  predicate OneConversation(rows: seq<TraceRecord>) {
    && (forall k :: 0 <= k < |rows| ==> rows[k].sessionId.None? && rows[k].chatId >= 0)
    && (forall j, k :: 0 <= j < k < |rows| ==> rows[j].chatId != rows[k].chatId)
    && (rows != [] ==> rows[0].parentChatId == -1)
    && forall k :: 0 < k < |rows| ==> rows[k].parentChatId == rows[k - 1].chatId
  }

  /** A conversation is one session, however long, named after its first turn. */
  lemma {:induction false} ConversationIsOneSession(rows: seq<TraceRecord>, name: int -> string,
                                                    records: seq<TraceRecord>, k: nat)
    requires Loaded(rows, name, records) && OneConversation(rows) && k < |records|
    ensures records[k].sessionId == Some(name(rows[0].chatId))
  {
    hide SessionOf;
    if k == 0 {
      RootNamesSession(rows, name, k);
      assert records[k].sessionId == Some(SessionOf(rows, k, name));
    } else {
      ConversationIsOneSession(rows, name, records, k - 1);
      JoinsParent(rows, name, records, k - 1, k);
    }
  }

  // ---------- grouping ----------

  /** The rows of every session. */
  type Groups = map<string, seq<TraceRecord>>

  /** Turns come by turn number, then by time. */
  predicate Earlier(a: TraceRecord, b: TraceRecord) {
    a.turn < b.turn || (a.turn == b.turn && a.timestamp <= b.timestamp)
  }

  lemma EarlierIsPreorder()
    ensures TotalPreorder(Earlier)
  {}

  function InSession(sid: string): TraceRecord -> bool {
    (r: TraceRecord) => r.sessionId == Some(sid)
  }

  function Members(records: seq<TraceRecord>, sid: string): seq<TraceRecord> {
    Filter(records, InSession(sid))
  }

  ghost predicate Seen(records: seq<TraceRecord>, sid: string) {
    exists k :: 0 <= k < |records| && records[k].sessionId == Some(sid)
  }

  /** Some row of session `a` comes before every row of session `b`. */
  ghost predicate SeenBefore(records: seq<TraceRecord>, a: string, b: string) {
    exists k :: FirstRow(records, k, a, b)
  }

  ghost predicate FirstRow(records: seq<TraceRecord>, k: int, a: string, b: string) {
    && 0 <= k < |records| && records[k].sessionId == Some(a)
    && forall l :: 0 <= l <= k ==> records[l].sessionId != Some(b)
  }

  /** The sessions stand in the order of their first rows. */
  ghost predicate FirstSeen(records: seq<TraceRecord>, order: seq<string>) {
    forall i, j :: 0 <= i < j < |order| ==> SeenBefore(records, order[i], order[j])
  }

  lemma FirstSeenLater(records: seq<TraceRecord>, order: seq<string>, rec: TraceRecord)
    requires FirstSeen(records, order)
    ensures FirstSeen(records + [rec], order)
  {
    forall i, j | 0 <= i < j < |order| ensures SeenBefore(records + [rec], order[i], order[j]) {
      assert SeenBefore(records, order[i], order[j]);
      var m :| FirstRow(records, m, order[i], order[j]);
      assert FirstRow(records + [rec], m, order[i], order[j]);
    }
  }

  /** A session not seen before comes last. */
  lemma FirstSeenSnoc(records: seq<TraceRecord>, order: seq<string>, sid: string)
    requires FirstSeen(records, order)
    requires forall k :: 0 <= k < |records| ==> records[k].sessionId != Some(sid)
    requires forall i :: 0 <= i < |order| ==> Seen(records, order[i])
    ensures FirstSeen(records, order + [sid])
  {
    forall i, j | 0 <= i < j < |order + [sid]| ensures SeenBefore(records, (order + [sid])[i], (order + [sid])[j]) {
      if j == |order| {
        var k :| 0 <= k < |records| && records[k].sessionId == Some(order[i]);
        assert FirstRow(records, k, order[i], sid);
      } else {
        assert SeenBefore(records, order[i], order[j]);
      }
    }
  }

  /** The sessions in the order of their first rows, each with its own rows in turn order. */
  ghost predicate AreGroups(records: seq<TraceRecord>, order: seq<string>, groups: Groups) {
    && Distinct(order) && FirstSeen(records, order) && (forall sid :: sid in order <==> sid in groups)
    && (forall k :: 0 <= k < |records| ==> records[k].sessionId.Some? && records[k].sessionId.value in groups)
    && (forall sid :: sid in groups ==> groups[sid] == Sort(Members(records, sid), Earlier) && groups[sid] != [])
  }

  /** What the first pass has after some rows: every session seen, in order, with its rows as they came. */
  ghost predicate Collected(records: seq<TraceRecord>, order: seq<string>, groups: Groups) {
    && Distinct(order) && FirstSeen(records, order) && (forall sid :: sid in order <==> sid in groups)
    && (forall k :: 0 <= k < |records| ==> records[k].sessionId.Some? && records[k].sessionId.value in groups)
    && (forall sid :: Members(records, sid) == if sid in groups then groups[sid] else [])
    && (forall sid :: sid in groups ==> groups[sid] != [])
  }

  /** One more row of a session that has been seen. */
  lemma CollectSeen(records: seq<TraceRecord>, order: seq<string>, groups: Groups, rec: TraceRecord)
    requires Collected(records, order, groups) && rec.sessionId.Some? && rec.sessionId.value in groups
    ensures Collected(records + [rec], order, groups[rec.sessionId.value := groups[rec.sessionId.value] + [rec]])
  {
    hide Members, Distinct, FirstSeen;
    MembersSnoc(records, rec);
    FirstSeenLater(records, order, rec);
  }

  /** The first row of a new session. */
  lemma CollectNew(records: seq<TraceRecord>, order: seq<string>, groups: Groups, rec: TraceRecord)
    requires Collected(records, order, groups) && rec.sessionId.Some? && rec.sessionId.value !in groups
    ensures Collected(records + [rec], order + [rec.sessionId.value], groups[rec.sessionId.value := [rec]])
  {
    hide Members, Distinct, FirstSeen;
    var sid := rec.sessionId.value;
    MembersSnoc(records, rec);
    SnocDistinct(order, sid);
    SnocMembers(order, sid);
    NewSession(records, order, groups, sid);
    FirstSeenLater(records, order + [sid], rec);
  }

  lemma NothingCollected()
    ensures Collected([], [], map[])
  {}

  /** The first pass: rows appended to their session's list. */
  method Collect(records: seq<TraceRecord>) returns (order: seq<string>, groups: Groups)
    requires forall k :: 0 <= k < |records| ==> records[k].sessionId.Some?
    ensures Collected(records, order, groups)
  {
    hide Collected;
    order, groups := [], map[];
    NothingCollected();
    assert records[..0] == [];
    for k := 0 to |records|
      invariant Collected(records[..k], order, groups)
    {
      var rec := records[k];
      var sid := rec.sessionId.value;
      assert records[..k + 1] == records[..k] + [rec];
      if sid !in groups {
        CollectNew(records[..k], order, groups, rec);
        order := order + [sid];
        groups := groups[sid := [rec]];
      } else {
        CollectSeen(records[..k], order, groups, rec);
        groups := groups[sid := groups[sid] + [rec]];
      }
    }
    assert records[..|records|] == records;
  }

  lemma NewSession(records: seq<TraceRecord>, order: seq<string>, groups: Groups, sid: string)
    requires FirstSeen(records, order) && sid !in groups
    requires forall k :: 0 <= k < |records| ==> records[k].sessionId.Some? && records[k].sessionId.value in groups
    requires forall i :: 0 <= i < |order| ==> Members(records, order[i]) != []
    ensures FirstSeen(records, order + [sid])
  {
    forall i | 0 <= i < |order| ensures Seen(records, order[i]) {
      FilterMember(records, InSession(order[i]), 0);
      var k :| 0 <= k < |records| && records[k] == Members(records, order[i])[0];
    }
    FirstSeenSnoc(records, order, sid);
  }

  lemma MembersSnoc(records: seq<TraceRecord>, rec: TraceRecord)
    requires rec.sessionId.Some?
    ensures forall sid :: Members(records + [rec], sid) ==
                          Members(records, sid) + if rec.sessionId == Some(sid) then [rec] else []
  {
    forall sid ensures Members(records + [rec], sid) ==
                       Members(records, sid) + if rec.sessionId == Some(sid) then [rec] else []
    {
      FilterConcat(records, [rec], InSession(sid));
    }
  }

  method GroupBySession(records: seq<TraceRecord>) returns (order: seq<string>, groups: Groups)
    requires forall k :: 0 <= k < |records| ==> records[k].sessionId.Some?
    ensures AreGroups(records, order, groups)
  {
    hide Collected, AreGroups, Sort, Members;
    order, groups := Collect(records);
    ghost var unsorted := groups;
    CollectedKeys(records, order, groups);
    for i := 0 to |order|
      invariant groups.Keys == unsorted.Keys
      invariant forall j :: 0 <= j < i ==> groups[order[j]] == Sort(unsorted[order[j]], Earlier)
      invariant forall j :: i <= j < |order| ==> groups[order[j]] == unsorted[order[j]]
    {
      groups := groups[order[i] := Sort(groups[order[i]], Earlier)];
    }
    SortedGroups(records, order, unsorted, groups);
  }

  lemma CollectedKeys(records: seq<TraceRecord>, order: seq<string>, groups: Groups)
    requires Collected(records, order, groups)
    ensures Distinct(order) && forall sid :: sid in order <==> sid in groups
  {}

  /** Collected and then sorted, one by one, they are the groups. */
  lemma SortedGroups(records: seq<TraceRecord>, order: seq<string>, unsorted: Groups, groups: Groups)
    requires Collected(records, order, unsorted) && groups.Keys == unsorted.Keys
    requires forall j | 0 <= j < |order| ::
               order[j] in groups && groups[order[j]] == Sort(unsorted[order[j]], Earlier)
    ensures AreGroups(records, order, groups)
  {
    hide Sort, FirstSeen, Distinct, Members;
    forall sid | sid in groups ensures groups[sid] == Sort(Members(records, sid), Earlier) && groups[sid] != [] {
      assert sid in order;
      var i :| 0 <= i < |order| && order[i] == sid;
      assert Members(records, sid) == unsorted[sid];
      EarlierIsPreorder();
      SortSorts(unsorted[sid], Earlier);
      BagMembers(groups[sid], unsorted[sid]);
    }
  }

  // ---------- the groups are a partition ----------

  function TotalLength(order: seq<string>, groups: Groups): nat
    requires forall sid :: sid in order ==> sid in groups
  {
    if order == [] then 0 else |groups[order[0]]| + TotalLength(order[1..], groups)
  }

  ghost function MemberTotal(records: seq<TraceRecord>, order: seq<string>): nat {
    if order == [] then 0 else |Members(records, order[0])| + MemberTotal(records, order[1..])
  }

  /** One more record lengthens exactly the one list it belongs to. */
  lemma {:induction false} MemberTotalNext(records: seq<TraceRecord>, rec: TraceRecord, order: seq<string>)
    requires Distinct(order) && rec.sessionId.Some?
    ensures var more := if rec.sessionId.value in order then 1 else 0;
            MemberTotal([rec] + records, order) == MemberTotal(records, order) + more
  {
    if order != [] {
      assert ([rec] + records)[1..] == records;
      assert Distinct(order[1..]);
      MemberTotalNext(records, rec, order[1..]);
      assert rec.sessionId.value in order <==> rec.sessionId.value == order[0] || rec.sessionId.value in order[1..];
      assert order[0] !in order[1..];
    }
  }

  lemma {:induction false} MembersPartition(records: seq<TraceRecord>, order: seq<string>)
    requires Distinct(order)
    requires forall k :: 0 <= k < |records| ==> records[k].sessionId.Some? && records[k].sessionId.value in order
    ensures MemberTotal(records, order) == |records|
  {
    if records == [] {
      EmptyTotal(order);
    } else {
      MembersPartition(records[1..], order);
      MemberTotalNext(records[1..], records[0], order);
      assert records == [records[0]] + records[1..];
    }
  }

  lemma {:induction false} EmptyTotal(order: seq<string>)
    ensures MemberTotal([], order) == 0
  {
    if order != [] { EmptyTotal(order[1..]); }
  }

  lemma {:induction false} GroupsHaveMembers(records: seq<TraceRecord>, order: seq<string>, groups: Groups)
    requires forall sid :: sid in order ==> sid in groups && groups[sid] == Sort(Members(records, sid), Earlier)
    ensures TotalLength(order, groups) == MemberTotal(records, order)
  {
    if order != [] {
      GroupsHaveMembers(records, order[1..], groups);
      var sid := order[0];
      EarlierIsPreorder();
      SortSorts(Members(records, sid), Earlier);
      assert |multiset(groups[sid])| == |groups[sid]| && |multiset(Members(records, sid))| == |Members(records, sid)|;
    }
  }

  /** No row is lost and none is in two sessions: the groups together have as many rows as the trace. */
  lemma GroupingConserves(records: seq<TraceRecord>, order: seq<string>, groups: Groups)
    requires AreGroups(records, order, groups)
    ensures TotalLength(order, groups) == |records|
  {
    GroupsHaveMembers(records, order, groups);
    MembersPartition(records, order);
  }

  /** Within a group turns come in their order, and rows of one turn in the order of time. */
  lemma GroupInOrder(records: seq<TraceRecord>, order: seq<string>, groups: Groups, sid: string, i: nat, j: nat)
    requires AreGroups(records, order, groups) && sid in groups && i < j < |groups[sid]|
    ensures var (a, b) := (groups[sid][i], groups[sid][j]);
            a.turn <= b.turn && (a.turn == b.turn ==> a.timestamp <= b.timestamp)
  {
    EarlierIsPreorder();
    SortSorts(Members(records, sid), Earlier);
  }
}
