/**
 Chat ids of a whole imported trace.  Every session takes a range of consecutive ids, and the
 strides that keep the ranges apart are only wide enough for dumps of a certain size.
 */
module ImportedIds {
  import opened Strings
  import opened Sequences
  import opened StableSort
  import opened TraceSchema
  import opened CodexTrial
  import opened AdmissionLadder

  function Turns(c: Config, key: Key): nat {
    |c.messages(key.trial)| / 2
  }

  ghost function First(c: Config, order: seq<Key>, key: Key): nat
    requires key in order
  {
    FirstKept(c.params, key, c.messages(key.trial), Arrival(c, order, key), 0)
  }

  /** One of the sessions has no row, or the ids of one end before those of the other begin. */
  ghost predicate RangesApart(c: Config, order: seq<Key>, a: Key, b: Key)
    requires a in order && b in order
  {
    || First(c, order, a) == Turns(c, a) || First(c, order, b) == Turns(c, b)
    || ChatId(a, Turns(c, a)) <= ChatId(b, First(c, order, b))
    || ChatId(b, Turns(c, b)) <= ChatId(a, First(c, order, a))
  }

  ghost predicate IdsApart(c: Config, order: seq<Key>, keys: seq<Key>)
    requires forall key :: key in keys ==> key in order
  {
    forall a, b :: a in keys && b in keys && a != b ==> RangesApart(c, order, a, b)
  }

  // ---------- which rows there are ----------

  /** The row is that of a kept turn of one of the sessions. */
  ghost predicate FromTurn(c: Config, order: seq<Key>, keys: seq<Key>, row: Row) {
    row.key in keys && row.key in order && OfTurn(c, order, row.key, row.record)
  }

  ghost predicate OfTurn(c: Config, order: seq<Key>, key: Key, record: TraceRecord)
    requires key in order
  {
    && First(c, order, key) < record.turn <= Turns(c, key)
    && record == RowAt(c.params, key, c.messages(key.trial), Arrival(c, order, key), record.turn - 1)
  }

  lemma KeptTurns(c: Config, order: seq<Key>, key: Key)
    requires TimeMoves(c.params) && key in order
    ensures var rows := RowsOf(c, key, Arrival(c, order, key));
            Distinct(rows) && forall r :: r in rows <==> OfTurn(c, order, key, r)
  {
    hide RowAt, KeptRows, FirstKept, Arrival;
    var p, messages, arrival := c.params, c.messages(key.trial), Arrival(c, order, key);
    var rows, first := RowsOf(c, key, arrival), First(c, order, key);
    KeptFromFirst(p, key, messages, arrival);
    forall i | 0 <= i < |rows| ensures rows[i].turn == first + i + 1 {
      RowLabels(p, key, messages, arrival, first + i);
    }
    forall r | OfTurn(c, order, key, r) ensures r in rows { assert rows[r.turn - 1 - first] == r; }
  }

  lemma TagTurns(c: Config, order: seq<Key>, key: Key)
    requires TimeMoves(c.params) && key in order
    ensures var rows := Tag(key, RowsOf(c, key, Arrival(c, order, key)));
            Distinct(rows) && forall row :: row in rows <==> row.key == key && OfTurn(c, order, key, row.record)
  {
    hide Arrival, RowsOf, OfTurn;
    var records := RowsOf(c, key, Arrival(c, order, key));
    var rows := Tag(key, records);
    KeptTurns(c, order, key);
    forall row: Row | row.key == key && row.record in records ensures row in rows {
      var i :| 0 <= i < |records| && records[i] == row.record;
      assert rows[i] == row;
    }
  }

  lemma {:induction false} RowsFromTurns(c: Config, order: seq<Key>, keys: seq<Key>)
    requires TimeMoves(c.params) && Distinct(keys) && forall k :: k in keys ==> k in order
    ensures Distinct(RowsFor(c, order, keys))
    ensures forall row :: row in RowsFor(c, order, keys) <==> FromTurn(c, order, keys, row)
  {
    hide Arrival, RowsOf, OfTurn, Tag;
    if keys != [] {
      var rest, last := keys[..|keys| - 1], keys[|keys| - 1];
      var a, b := RowsFor(c, order, rest), Tag(last, RowsOf(c, last, Arrival(c, order, last)));
      RowsFromTurns(c, order, rest);
      TagTurns(c, order, last);
      assert keys == rest + [last];
      SnocMembers(rest, last);
      DistinctAppend(a, b);
      forall row ensures row in a + b <==> FromTurn(c, order, keys, row) { InEither(a, b, row); }
    }
  }

  lemma TraceRows(c: Config, replicas: nat, keep: nat, trace: seq<Row>)
    requires TimeMoves(c.params) && IsTrace(c, replicas, keep, trace)
    ensures Distinct(trace)
    ensures forall row :: row in trace <==> FromTurn(c, Order(c, replicas), Order(c, replicas)[..keep], row)
  {
    hide Sort, RowsFor, Pool, OfTurn;
    var order, keys := Order(c, replicas), Selected(c, replicas, keep);
    var rows := RowsFor(c, order, keys);
    SelectedFacts(c, replicas, keep);
    SelectedDistinct(c, replicas, keep);
    RowsFromTurns(c, order, keys);
    RowPreorder();
    SortSorts(rows, RowLe);
    BagMembers(trace, rows);
    BagDistinct(rows, trace);
  }

  // ---------- when ids repeat ----------

  lemma RowOwnId(c: Config, order: seq<Key>, keys: seq<Key>, row: Row)
    requires FromTurn(c, order, keys, row)
    ensures row.record.turn >= 1 && row.record.chatId == ChatId(row.key, row.record.turn - 1)
  {
    hide RowAt, ChatId, Arrival, FirstKept;
    RowLabels(c.params, row.key, c.messages(row.key.trial), Arrival(c, order, row.key), row.record.turn - 1);
  }

  /** Rows of different sessions whose ranges are apart have different ids, and so have rows of one session. */
  lemma RowTold(c: Config, order: seq<Key>, keys: seq<Key>, x: Row, y: Row)
    requires FromTurn(c, order, keys, x) && FromTurn(c, order, keys, y) && x.record.chatId == y.record.chatId
    requires x.key != y.key ==> RangesApart(c, order, x.key, y.key)
    ensures x == y
  {
    hide RowAt, Arrival, First;
    RowOwnId(c, order, keys, x);
    RowOwnId(c, order, keys, y);
  }

  lemma MakesRow(c: Config, order: seq<Key>, keys: seq<Key>, key: Key, k: nat) returns (row: Row)
    requires key in keys && key in order && First(c, order, key) <= k < Turns(c, key)
    ensures FromTurn(c, order, keys, row) && row.key == key && row.record.chatId == ChatId(key, k)
  {
    hide RowAt, Arrival, First, ChatId;
    var p, messages, arrival := c.params, c.messages(key.trial), Arrival(c, order, key);
    RowLabels(p, key, messages, arrival, k);
    row := Row(key, RowAt(p, key, messages, arrival, k));
  }

  /** Where two ranges overlap there are two rows with one id. */
  lemma OverlapRepeats(c: Config, order: seq<Key>, keys: seq<Key>, a: Key, b: Key) returns (x: Row, y: Row)
    requires a in keys && a in order && b in keys && b in order && a != b && !RangesApart(c, order, a, b)
    requires First(c, order, a) <= Turns(c, a) && First(c, order, b) <= Turns(c, b)
    ensures FromTurn(c, order, keys, x) && FromTurn(c, order, keys, y) && x != y && x.record.chatId == y.record.chatId
  {
    hide First, FromTurn;
    var lo, lo' := ChatId(a, First(c, order, a)), ChatId(b, First(c, order, b));
    var id := if lo < lo' then lo' else lo;
    x := MakesRow(c, order, keys, a, First(c, order, a) + (id - lo));
    y := MakesRow(c, order, keys, b, First(c, order, b) + (id - lo'));
  }

  lemma {:induction false} FirstInRange(p: Params, key: Key, messages: Messages, arrival: real, k: nat)
    requires 2 * k <= |messages|
    ensures FirstKept(p, key, messages, arrival, k) <= |messages| / 2
    decreases |messages| - 2 * k
  {
    hide Kept;
    if !(2 * k == |messages| || Kept(p, key, messages, arrival, k)) { FirstInRange(p, key, messages, arrival, k + 1); }
  }

  lemma UniqueRows(trace: seq<Row>)
    ensures UniqueIds(Records(trace)) <==>
            Distinct(trace) && forall x, y :: x in trace && y in trace && x.record.chatId == y.record.chatId ==> x == y
  {
    if UniqueIds(Records(trace)) {
      forall x, y | x in trace && y in trace && x.record.chatId == y.record.chatId ensures x == y {
        var a :| 0 <= a < |trace| && trace[a] == x;
        var b :| 0 <= b < |trace| && trace[b] == y;
        assert Records(trace)[a].chatId == Records(trace)[b].chatId;
      }
      forall a, b | 0 <= a < b < |trace| ensures trace[a] != trace[b] {
        assert Records(trace)[a].chatId != Records(trace)[b].chatId;
      }
    }
  }

  /**
   No two rows of an imported trace share a chat id if and only if the id ranges of its sessions, from
   the first turn that is kept to the last, are apart.
   */
  lemma ImportedIdsUniqueIff(c: Config, replicas: nat, keep: nat, trace: seq<Row>)
    requires TimeMoves(c.params) && IsTrace(c, replicas, keep, trace)
    ensures UniqueIds(Records(trace)) <==> IdsApart(c, Order(c, replicas), Order(c, replicas)[..keep])
  {
    hide Sort, RowsFor, UniqueIds, FromTurn, RangesApart, Distinct, First;
    var order, keys := Order(c, replicas), Order(c, replicas)[..keep];
    TraceRows(c, replicas, keep, trace);
    UniqueRows(trace);
    if IdsApart(c, order, keys) {
      forall x, y | x in trace && y in trace && x.record.chatId == y.record.chatId ensures x == y {
        RowKeyed(c, order, keys, x);
        RowKeyed(c, order, keys, y);
        RowTold(c, order, keys, x, y);
      }
    } else {
      var a, b :| a in keys && b in keys && a != b && !RangesApart(c, order, a, b);
      FirstFits(c, order, a);
      FirstFits(c, order, b);
      var x, y := OverlapRepeats(c, order, keys, a, b);
    }
  }

  lemma RowKeyed(c: Config, order: seq<Key>, keys: seq<Key>, row: Row)
    requires FromTurn(c, order, keys, row)
    ensures row.key in keys && row.key in order
  {}

  lemma FirstFits(c: Config, order: seq<Key>, key: Key)
    requires key in order
    ensures First(c, order, key) <= Turns(c, key)
  {
    FirstInRange(c.params, key, c.messages(key.trial), Arrival(c, order, key), 0);
  }

  // ---------- dumps that fit ----------

  /** The strides leave room for every turn of these sessions. */
  ghost predicate StridesFit(c: Config, keys: seq<Key>) {
    forall key, k: nat :: key in keys && k < Turns(c, key) ==> WithinStrides(key, k)
  }

  /** Within the strides the ranges are apart. */
  lemma StridesFitApart(c: Config, order: seq<Key>, keys: seq<Key>)
    requires StridesFit(c, keys) && forall key :: key in keys ==> key in order
    ensures IdsApart(c, order, keys)
  {
    hide First, WithinStrides;
    forall a, b | a in keys && b in keys && a != b ensures RangesApart(c, order, a, b) {
      FirstFits(c, order, a);
      FirstFits(c, order, b);
      if !RangesApart(c, order, a, b) {
        var x, y := OverlapRepeats(c, order, keys, a, b);
        TurnOf(c, order, keys, x);
        TurnOf(c, order, keys, y);
        assert WithinStrides(x.key, x.record.turn - 1) && WithinStrides(y.key, y.record.turn - 1);
        OneRow(c, order, keys, x, y);
      }
    }
  }

  lemma TurnOf(c: Config, order: seq<Key>, keys: seq<Key>, row: Row)
    requires FromTurn(c, order, keys, row)
    ensures row.key in keys && 1 <= row.record.turn && row.record.turn - 1 < Turns(c, row.key)
  {}

  lemma OneRow(c: Config, order: seq<Key>, keys: seq<Key>, x: Row, y: Row)
    requires FromTurn(c, order, keys, x) && FromTurn(c, order, keys, y) && x.record.chatId == y.record.chatId
    requires WithinStrides(x.key, x.record.turn - 1) && WithinStrides(y.key, y.record.turn - 1)
    ensures x == y
  {
    hide RowAt, Arrival, First, ChatId, WithinStrides;
    RowOwnId(c, order, keys, x);
    RowOwnId(c, order, keys, y);
    ChatIdsDistinct(x.key, x.record.turn - 1, y.key, y.record.turn - 1);
  }

  /** Without replicas only the turns of a trial are limited, not the number of trials. */
  lemma OneReplicaApart(c: Config, order: seq<Key>, keys: seq<Key>)
    requires forall key :: key in keys ==> key in order && key.replica == 0 && Turns(c, key) <= CHAT_ID_STRIDE
    ensures IdsApart(c, order, keys)
  {
    hide First;
  }

  // ---------- dumps that do not ----------

  lemma {:induction false} InPool(trials: nat, replicas: nat, key: Key)
    requires key.trial < trials && key.replica < replicas
    ensures key in Pool(trials, replicas)
  {
    var a, b := Pool(trials, replicas - 1), ReplicaPool(trials, replicas - 1);
    InEither(a, b, key);
    if key.replica == replicas - 1 {
      assert b[key.trial] == key;
    } else {
      InPool(trials, replicas - 1, key);
    }
  }

  /** Every configuration and all knobs have an import. */
  lemma SomeImport(c: Config, replicas: nat, sessions: Option<nat>) returns (trace: seq<Row>)
    ensures IsImport(c, replicas, sessions, trace)
  {
    hide Sort, Pool, RowsFor;
    OrderFacts(c, replicas);
    var keep := Keep(sessions, |Pool(c.trials, replicas)|);
    SelectedFacts(c, replicas, keep);
    trace := Sort(RowsFor(c, Order(c, replicas), Selected(c, replicas, keep)), RowLe);
  }

  /** A session whose ids run into those of another one: an import of everything repeats an id. */
  lemma OverrunRepeats(c: Config, replicas: nat, trace: seq<Row>, a: Key, b: Key)
    requires TimeMoves(c.params) && c.params.replayPreRoll && IsImport(c, replicas, None, trace)
    requires a.trial < c.trials && a.replica < replicas && b.trial < c.trials && b.replica < replicas
    requires a != b && Turns(c, b) > 0 && ChatId(a, 0) <= ChatId(b, 0) < ChatId(a, Turns(c, a))
    ensures !UniqueIds(Records(trace))
  {
    hide Sort, Pool, IsTrace, UniqueIds;
    var order := Order(c, replicas);
    OrderFacts(c, replicas);
    InPool(c.trials, replicas, a);
    InPool(c.trials, replicas, b);
    assert order[..|order|] == order;
    ImportedIdsUniqueIff(c, replicas, |order|, trace);
    assert !RangesApart(c, order, a, b);
  }

  /** A dump without draws of its own. */
  function Dump(p: Params, trials: nat, messages: nat -> Messages): Config {
    Config(trials, messages, p, _ => 0.0, _ => 0.0, false, 1.0, 0.0)
  }

  function Silence(turns: nat): Messages {
    seq(2 * turns, _ => [])
  }

  /** A trial of 1001 turns and one more trial. */
  function LongTrial(p: Params): Config {
    Dump(p, 2, LongFirst)
  }

  function LongFirst(trial: nat): Messages {
    if trial == 0 then Silence(CHAT_ID_STRIDE + 1) else Silence(1)
  }

  /** Its last turn has the id of the other trial's first. */
  lemma TurnStrideOverrun(p: Params) returns (trace: seq<Row>)
    requires TimeMoves(p) && p.replayPreRoll
    ensures IsImport(LongTrial(p), 1, None, trace) && !UniqueIds(Records(trace))
  {
    hide IsImport, UniqueIds;
    trace := SomeImport(LongTrial(p), 1, None);
    OverrunRepeats(LongTrial(p), 1, trace, Key(0, 0), Key(1, 0));
  }

  /** 10,001 trials of one turn each. */
  function ManyTrials(p: Params): Config {
    Dump(p, 10_001, _ => Silence(1))
  }

  /** Imported once they have different ids, imported twice the last trial has the id of the first one's replica. */
  lemma ReplicaStrideOverrun(p: Params) returns (once: seq<Row>, twice: seq<Row>)
    requires TimeMoves(p) && p.replayPreRoll
    ensures IsImport(ManyTrials(p), 1, None, once) && UniqueIds(Records(once))
    ensures IsImport(ManyTrials(p), 2, None, twice) && !UniqueIds(Records(twice))
  {
    hide UniqueIds, Sort, Pool, IsTrace, RangesApart;
    var c := ManyTrials(p);
    once := SomeImport(c, 1, None);
    var order := Order(c, 1);
    OrderFacts(c, 1);
    PoolFacts(c.trials, 1);
    assert order[..|order|] == order;
    OneReplicaApart(c, order, order);
    ImportedIdsUniqueIff(c, 1, |order|, once);
    twice := SomeImport(c, 2, None);
    OverrunRepeats(c, 2, twice, Key(10_000, 0), Key(0, 1));
  }
}
