/** What the replayer gets of an imported session once the trace has been loaded and grouped. */
module ImportedSessions {
  import opened Strings
  import opened Sequences
  import opened StableSort
  import opened TraceSchema
  import opened TraceLoader
  import opened BlockChain
  import opened Prompts
  import opened ReplaySession
  import opened CodexTrial
  import opened AdmissionLadder
  import opened ImportedIds
  import Names

  /** The rows of an admitted session. */
  ghost function SessionRows(c: Config, replicas: nat, key: Key): seq<TraceRecord>
    requires key in Order(c, replicas)
  {
    RowsOf(c, key, Arrival(c, Order(c, replicas), key))
  }

  function NameOf(key: Key): string {
    Names.SessionName(key.trial, key.replica)
  }

  /** Rows name their sessions, so loading changes nothing. */
  lemma LoadedAsWritten(trace: seq<Row>, name: int -> string, records: seq<TraceRecord>)
    requires Loaded(Records(trace), name, records) && |records| == |trace| && forall row :: row in trace ==> Named(row)
    ensures records == Records(trace)
  {
    forall k | 0 <= k < |trace| ensures records[k] == Records(trace)[k] { assert trace[k] in trace; }
  }

  /** A record tells its row. */
  lemma RecordTells(x: Row, y: Row)
    requires Named(x) && Named(y) && x.record.sessionId == y.record.sessionId
    ensures x.key == y.key
  {
    Names.SessionNameInjective(x.key.trial, x.key.replica, y.key.trial, y.key.replica);
  }

  lemma RecordsDistinct(trace: seq<Row>)
    requires Distinct(trace) && forall row :: row in trace ==> Named(row)
    ensures Distinct(Records(trace))
  {
    forall i, j | 0 <= i < j < |trace| ensures Records(trace)[i] != Records(trace)[j] {
      assert trace[i] in trace && trace[j] in trace;
      if trace[i].record == trace[j].record { RecordTells(trace[i], trace[j]); }
    }
  }

  /** The records under a session's name are its rows. */
  lemma RecordsOfSession(c: Config, replicas: nat, keep: nat, trace: seq<Row>, key: Key, r: TraceRecord)
    requires TimeMoves(c.params) && IsTrace(c, replicas, keep, trace) && key in Order(c, replicas)[..keep]
    ensures r in Records(trace) && r.sessionId == Some(NameOf(key)) <==> r in SessionRows(c, replicas, key)
  {
    hide Sort, RowsFor, RowsOf, OfTurn, Arrival;
    var order := Order(c, replicas);
    TraceRows(c, replicas, keep, trace);
    TraceNamed(c, replicas, keep, trace);
    KeptTurns(c, order, key);
    if r in SessionRows(c, replicas, key) {
      assert FromTurn(c, order, order[..keep], Row(key, r));
      var i :| 0 <= i < |trace| && trace[i] == Row(key, r);
      assert Records(trace)[i] == r && Named(trace[i]);
    }
    if r in Records(trace) && r.sessionId == Some(NameOf(key)) {
      var i :| 0 <= i < |trace| && Records(trace)[i] == r;
      assert trace[i] in trace;
      RecordTells(trace[i], Row(key, r));
      assert FromTurn(c, order, order[..keep], trace[i]);
    }
  }

  lemma MembersAre(records: seq<TraceRecord>, sid: string)
    requires Distinct(records)
    ensures Distinct(Members(records, sid))
    ensures forall r :: r in Members(records, sid) <==> r in records && r.sessionId == Some(sid)
  {
    DistinctBag(records);
    forall r ensures multiset(Members(records, sid))[r] <= 1 { FilterBag(records, InSession(sid), r); }
    DistinctBag(Members(records, sid));
    forall r ensures r in Members(records, sid) <==> r in records && r.sessionId == Some(sid) {
      FilterBag(records, InSession(sid), r);
      assert r in records <==> r in multiset(records);
      assert r in Members(records, sid) <==> r in multiset(Members(records, sid));
    }
  }

  lemma SessionSorted(c: Config, replicas: nat, key: Key)
    requires TimeMoves(c.params) && key in Order(c, replicas)
    ensures var rows := SessionRows(c, replicas, key);
            && Sorted(rows, Earlier)
            && forall x, y :: x in rows && y in rows && Earlier(x, y) && Earlier(y, x) ==> x == y
  {
    hide RowAt, KeptRows, Arrival, FirstKept, Order;
    var p, messages, arrival := c.params, c.messages(key.trial), Arrival(c, Order(c, replicas), key);
    var rows, first := SessionRows(c, replicas, key), First(c, Order(c, replicas), key);
    KeptFromFirst(p, key, messages, arrival);
    forall i | 0 <= i < |rows| ensures rows[i].turn == first + i + 1 {
      RowLabels(p, key, messages, arrival, first + i);
    }
  }

  /** The group of an imported session is exactly its kept rows, in turn order; without rows it has no group. */
  lemma GroupIsSession(c: Config, replicas: nat, keep: nat, trace: seq<Row>, name: int -> string,
                       records: seq<TraceRecord>, order: seq<string>, groups: Groups, key: Key)
    requires TimeMoves(c.params) && IsTrace(c, replicas, keep, trace) && key in Order(c, replicas)[..keep]
    requires Loaded(Records(trace), name, records) && |records| == |trace| && AreGroups(records, order, groups)
    ensures NameOf(key) in groups <==> SessionRows(c, replicas, key) != []
    ensures NameOf(key) in groups ==> groups[NameOf(key)] == SessionRows(c, replicas, key)
  {
    hide IsTrace, Loaded, Sort, RowsOf, Order, Members, Earlier;
    var sid, rows := NameOf(key), SessionRows(c, replicas, key);
    TraceNamed(c, replicas, keep, trace);
    TraceRows(c, replicas, keep, trace);
    LoadedAsWritten(trace, name, records);
    RecordsDistinct(trace);
    MembersAre(records, sid);
    forall r ensures r in Members(records, sid) <==> r in rows { RecordsOfSession(c, replicas, keep, trace, key, r); }
    if rows != [] {
      assert rows[0] in Members(records, sid);
      var k :| 0 <= k < |records| && records[k] == rows[0];
    }
    if sid in groups {
      GroupSorts(records, order, groups, sid);
      SessionSorted(c, replicas, key);
      KeptTurns(c, Order(c, replicas), key);
      SameBag(Members(records, sid), rows);
      BagMembers(rows, groups[sid]);
      SortedUnique(rows, groups[sid], Earlier);
    }
  }

  lemma GroupSorts(records: seq<TraceRecord>, order: seq<string>, groups: Groups, sid: string)
    requires AreGroups(records, order, groups) && sid in groups
    ensures Sorted(groups[sid], Earlier) && groups[sid] != []
    ensures multiset(groups[sid]) == multiset(Members(records, sid))
  {
    EarlierIsPreorder();
    SortSorts(Members(records, sid), Earlier);
  }

  /** So what is proved of sessions whose inputs contain their history holds of every imported session as replayed. */
  lemma ImportedPrompts(c: Config, replicas: nat, keep: nat, trace: seq<Row>, name: int -> string,
                        records: seq<TraceRecord>, order: seq<string>, groups: Groups, key: Key,
                        draw: Draws, answers: seq<Answer>, window: Option<nat>, k: nat)
    requires TimeMoves(c.params) && IsTrace(c, replicas, keep, trace) && key in Order(c, replicas)[..keep]
    requires Loaded(Records(trace), name, records) && |records| == |trace| && AreGroups(records, order, groups)
    requires NameOf(key) in groups && k < |groups[NameOf(key)]|
    requires AllAnswered(draw, groups[NameOf(key)], answers, window)
    ensures var turns := groups[NameOf(key)];
            && |turns| == |answers|
            && |PromptAt(draw, turns, answers, window, k)| == turns[k].inputLength + SilentTurns(turns, k)
            && (k > 0 && Recorded(turns, k) > 0 ==>
                  answers[k - 1].Answered? && Carries(draw, turns, answers, window, k))
  {
    hide IsTrace, Loaded, AreGroups, PromptAt, Overlong, Order, Arrival, KeptRows, ContainsHistory;
    var turns, messages := groups[NameOf(key)], c.messages(key.trial);
    GroupIsSession(c, replicas, keep, trace, name, records, order, groups, key);
    ImportedContainsHistory(c.params, key, messages, Arrival(c, Order(c, replicas), key), |messages| / 2);
    EffectiveLength(draw, turns, answers, window, k);
    if k > 0 && Recorded(turns, k) > 0 { PromptsCarryHistory(draw, turns, answers, window, k); }
  }

  /**
   From conversations to replayed prompts: short of collisions the prompts rebuilt from two rows share their
   first `m` blocks if and only if the conversations do, from the shared head on, and past the head the
   sessions are of one replica.
   */
  lemma RowsShareIff(p: Params, draw: Draws, a: Key, messages: seq<seq<int>>, arrival: real, j: nat,
                     b: Key, messages': seq<seq<int>>, arrival': real, k: nat, m: nat)
    requires 2 * j + 1 < |messages| && 2 * k + 1 < |messages'|
    requires var (x, y) := (Joined(messages, 2 * j + 1), Joined(messages', 2 * k + 1));
             var (shared, s, s') :=
               (p.sharedPrefixTokens / BLOCK_TOKENS, Names.ReplicaSalt(a.replica), Names.ReplicaSalt(b.replica));
             && CollisionFreeOn(p.hashes, shared, Inputs(p.hashes, x, shared, s) + Inputs(p.hashes, y, shared, s'))
             && TellsApart(draw, IdSet(IdsOf(p, a, x)) + IdSet(IdsOf(p, b, y)))
             && m <= |IdsOf(p, a, x)| && m <= |IdsOf(p, b, y)|
    ensures var (x, y) := (Joined(messages, 2 * j + 1), Joined(messages', 2 * k + 1));
            var (f, g) := (PromptOf(draw, RowAt(p, a, messages, arrival, j)),
                           PromptOf(draw, RowAt(p, b, messages', arrival', k)));
            var shared := p.sharedPrefixTokens / BLOCK_TOKENS;
            && |f| == |x| && |g| == |y| && m * BLOCK_TOKENS <= |f| && m * BLOCK_TOKENS <= |g|
            && (f[..m * BLOCK_TOKENS] == g[..m * BLOCK_TOKENS] <==>
                  SameTail(x, y, shared, m) && (shared < m ==> a.replica == b.replica))
  {
    hide RowAt, Joined, CollisionFreeOn, Inputs, TellsApart, SameTail, PromptOf;
    var x, y, shared := Joined(messages, 2 * j + 1), Joined(messages', 2 * k + 1), p.sharedPrefixTokens / BLOCK_TOKENS;
    RowIds(p, a, messages, arrival, j);
    RowIds(p, b, messages', arrival', k);
    if Names.ReplicaSalt(a.replica) == Names.ReplicaSalt(b.replica) {
      Names.ReplicaSaltInjective(a.replica, b.replica);
    }
    PromptsShareIff(p.hashes, draw, x, y, shared, Names.ReplicaSalt(a.replica), Names.ReplicaSalt(b.replica),
                    RowAt(p, a, messages, arrival, j), RowAt(p, b, messages', arrival', k),
                    IdsOf(p, a, x), IdsOf(p, b, y), m);
  }
}
