/** The arrivals of an import as the rows of its trace have them. */
module ImportedArrivals {
  import opened Strings
  import opened Sequences
  import opened StableSort
  import opened TraceSchema
  import opened CodexTrial
  import opened AdmissionLadder
  import opened ImportedIds
  import opened VanDerCorput

  /** The session has a turn, and its first one is not cropped. */
  ghost predicate StartsInTrace(c: Config, order: seq<Key>, key: Key)
    requires key in order
  {
    Turns(c, key) > 0 && (Arrival(c, order, key) >= 0.0 || c.params.replayPreRoll)
  }

  /** A first turn in the trace is at the arrival of its session. */
  lemma FirstTurnAtArrival(c: Config, replicas: nat, keep: nat, trace: seq<Row>, row: Row)
    requires TimeMoves(c.params) && IsTrace(c, replicas, keep, trace) && row in trace && row.record.turn == 1
    ensures row.key in Order(c, replicas)[..keep] && row.key in Order(c, replicas)
    ensures row.record.timestamp == c.params.round6(Arrival(c, Order(c, replicas), row.key))
  {
    hide Sort, RowsFor, RowAt, Arrival, FirstKept;
    var order := Order(c, replicas);
    TraceRows(c, replicas, keep, trace);
    assert FromTurn(c, order, order[..keep], row);
    RowClock(c.params, row.key, c.messages(row.key.trial), Arrival(c, order, row.key), 0);
    assert Waits(c.params, row.key, c.messages(row.key.trial), 0) == [];
  }

  /** A session that starts in the trace has a first turn there, and one only. */
  lemma HasFirstTurn(c: Config, replicas: nat, keep: nat, trace: seq<Row>, key: Key) returns (row: Row)
    requires TimeMoves(c.params) && IsTrace(c, replicas, keep, trace)
    requires key in Order(c, replicas)[..keep] && key in Order(c, replicas) && StartsInTrace(c, Order(c, replicas), key)
    ensures row in trace && row.key == key && row.record.turn == 1
    ensures forall other :: other in trace && other.key == key && other.record.turn == 1 ==> other == row
  {
    hide Sort, RowsFor, RowAt, Arrival;
    var order := Order(c, replicas);
    var p, messages, arrival := c.params, c.messages(key.trial), Arrival(c, order, key);
    TraceRows(c, replicas, keep, trace);
    FirstKeptIs(p, key, messages, arrival, 0, 0);
    RowLabels(p, key, messages, arrival, 0);
    row := Row(key, RowAt(p, key, messages, arrival, 0));
    assert FromTurn(c, order, order[..keep], row);
    forall other | other in trace && other.key == key && other.record.turn == 1 ensures other == row {
      assert FromTurn(c, order, order[..keep], other);
    }
  }

  /**
   In the trace of a stratified import: of every aligned block of `2^m` sessions that start in it, exactly
   one has its first row at an arrival in the `j`-th of the `2^m` equal parts of the time there is.
   */
  lemma StratifiedRows(c: Config, replicas: nat, sessions: Option<nat>, trace: seq<Row>, block: nat, j: nat, m: nat)
    returns (row: Row, r: nat)
    requires TimeMoves(c.params) && IsImport(c, replicas, sessions, trace)
    requires c.stratified && c.preRoll + c.span > 0.0 && j < Pow2(m)
    requires (block + 1) * Pow2(m) <= |Admitted(c, replicas, sessions)| <= |Order(c, replicas)|
    requires forall l | block * Pow2(m) <= l < (block + 1) * Pow2(m) ::
               StartsInTrace(c, Order(c, replicas), Order(c, replicas)[l])
    ensures var order := Order(c, replicas);
            && block * Pow2(m) <= r < (block + 1) * Pow2(m)
            && row in trace && row.record.turn == 1 && row.key == order[r]
            && InPart(c, Arrival(c, order, order[r]), j, m)
            && row.record.timestamp == c.params.round6(Arrival(c, order, order[r]))
            && forall l, other | block * Pow2(m) <= l < (block + 1) * Pow2(m) && other in trace ::
                 other.key == order[l] && other.record.turn == 1 && InPart(c, Arrival(c, order, order[l]), j, m)
                 ==> other == row
  {
    hide Sort, RowsFor, Pool, InPart, Arrival, StartsInTrace, Pow2;
    var order, keep := Order(c, replicas), Keep(sessions, |Pool(c.trials, replicas)|);
    r := StratifiedArrivals(c, replicas, sessions, block, j, m);
    assert order[r] == Admitted(c, replicas, sessions)[r];
    row := HasFirstTurn(c, replicas, keep, trace, order[r]);
    FirstTurnAtArrival(c, replicas, keep, trace, row);
  }
}
