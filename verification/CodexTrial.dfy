/**
 The rows of one imported session.  Think times, service times, rounding and the hash functions
 are given from outside; messages are already token ids, prompt parts and answers alternating.
 */
module CodexTrial {
  import opened Arithmetic
  import opened Names
  import opened Sequences
  import opened Strings
  import opened BlockChain
  import opened TraceSchema
  import opened ReplaySession

  const CHAT_ID_STRIDE: nat := 1000
  const REPLICA_CHAT_ID_STRIDE: nat := 10_000_000

  /** A session: a trial of the source, or a replica of one. */
  datatype Key = Key(trial: nat, replica: nat)

  /** The messages of a trial: what goes in and what comes out, in turn. */
  type Messages = m: seq<seq<int>> | |m| % 2 == 0

  datatype Params = Params(
    hashes: Hashes,
    sharedPrefixTokens: nat,
    replayPreRoll: bool,
    think: (Key, nat) -> real,
    service: (nat, nat) -> real,
    round6: real -> real)

  function ChatId(key: Key, k: nat): nat {
    key.replica * REPLICA_CHAT_ID_STRIDE + key.trial * CHAT_ID_STRIDE + k
  }

  // ---------- what turn `k` looks like ----------

  ghost function TimeAt(p: Params, key: Key, messages: seq<seq<int>>, arrival: real, k: nat): real
    requires 2 * k <= |messages|
  {
    if k == 0 then arrival
    else
      TimeAt(p, key, messages, arrival, k - 1) + p.think(key, k - 1)
      + p.service(|messages[2 * k - 2]|, |messages[2 * k - 1]|)
  }

  ghost function IdsOf(p: Params, key: Key, context: seq<int>): (ids: seq<nat>)
    ensures AreBlockIds(p.hashes, context, p.sharedPrefixTokens / BLOCK_TOKENS, ReplicaSalt(key.replica), ids)
  {
    seq(|context| / BLOCK_TOKENS, i requires 0 <= i < |context| / BLOCK_TOKENS =>
      BlockId(p.hashes, context, p.sharedPrefixTokens / BLOCK_TOKENS, ReplicaSalt(key.replica), i))
  }

  ghost function RowAt(p: Params, key: Key, messages: seq<seq<int>>, arrival: real, k: nat): TraceRecord
    requires 2 * k + 1 < |messages|
  {
    var context := Joined(messages, 2 * k + 1);
    TraceRecord(
      ChatId(key, k),
      if k == 0 then -1 else ChatId(key, k - 1),
      p.round6(TimeAt(p, key, messages, arrival, k)),
      |context|,
      |messages[2 * k + 1]|,
      k + 1,
      IdsOf(p, key, context),
      Some(SessionName(key.trial, key.replica)),
      if k == 0 then None else Some(p.round6(p.think(key, k - 1))))
  }

  lemma RowLabels(p: Params, key: Key, messages: seq<seq<int>>, arrival: real, k: nat)
    requires 2 * k + 1 < |messages|
    ensures var r := RowAt(p, key, messages, arrival, k);
            && r.chatId == ChatId(key, k) && r.turn == k + 1 && r.sessionId == Some(SessionName(key.trial, key.replica))
            && r.inputLength == |Joined(messages, 2 * k + 1)| && r.outputLength == |messages[2 * k + 1]|
  {
    hide TimeAt, IdsOf, ChatId, SessionName, Joined;
  }

  /** Turns before time zero are only replayed on request. */
  ghost predicate Kept(p: Params, key: Key, messages: seq<seq<int>>, arrival: real, k: nat)
    requires 2 * k <= |messages|
  {
    TimeAt(p, key, messages, arrival, k) >= 0.0 || p.replayPreRoll
  }

  ghost function KeptRows(p: Params, key: Key, messages: seq<seq<int>>, arrival: real, k: nat): seq<TraceRecord>
    requires 2 * k <= |messages|
  {
    if k == 0 then []
    else KeptRows(p, key, messages, arrival, k - 1) +
         if Kept(p, key, messages, arrival, k - 1) then [RowAt(p, key, messages, arrival, k - 1)] else []
  }

  // ---------- the loop ----------

  method HashContext(p: Params, key: Key, context: seq<int>) returns (ids: seq<int>)
    ensures ids == IdsOf(p, key, context)
  {
    ids := BlockHashes(p.hashes, context, p.sharedPrefixTokens / BLOCK_TOKENS, ReplicaSalt(key.replica));
  }

  method EmitRow(p: Params, key: Key, messages: seq<seq<int>>, ghost arrival: real, k: nat,
                 context: seq<int>, timestamp: real, parent: int, think: Option<real>) returns (row: TraceRecord)
    requires 2 * k + 1 < |messages| && context == Joined(messages, 2 * k + 1)
    requires timestamp == TimeAt(p, key, messages, arrival, k)
    requires parent == if k == 0 then -1 else ChatId(key, k - 1)
    requires think == if k == 0 then None else Some(p.think(key, k - 1))
    ensures row == RowAt(p, key, messages, arrival, k)
  {
    var ids := HashContext(p, key, context);
    row := TraceRecord(ChatId(key, k), parent, p.round6(timestamp), |context|, |messages[2 * k + 1]|, k + 1, ids,
                       Some(SessionName(key.trial, key.replica)),
                       if think.None? then None else Some(p.round6(think.value)));
  }

  method TrialRows(p: Params, key: Key, messages: seq<seq<int>>, arrival: real) returns (rows: seq<TraceRecord>)
    requires |messages| % 2 == 0
    ensures rows == KeptRows(p, key, messages, arrival, |messages| / 2)
  {
    hide RowAt;
    rows := [];
    var context: seq<int>, timestamp, parent: int, previousService := [], arrival, -1, 0.0;
    for k := 0 to |messages| / 2
      invariant context == Joined(messages, 2 * k) && rows == KeptRows(p, key, messages, arrival, k)
      invariant parent == (if k == 0 then -1 else ChatId(key, k - 1))
      invariant k == 0 ==> timestamp == arrival
      invariant k > 0 ==> timestamp == TimeAt(p, key, messages, arrival, k - 1)
      invariant k > 0 ==> previousService == p.service(|messages[2 * k - 2]|, |messages[2 * k - 1]|)
    {
      var newTokens, outputTokens := messages[2 * k], messages[2 * k + 1];
      context := context + newTokens;
      var chatId := ChatId(key, k);
      var think := if parent < 0 then None else Some(p.think(key, k - 1));
      if think.Some? {
        timestamp := timestamp + think.value + previousService;
      }
      assert timestamp == TimeAt(p, key, messages, arrival, k) && context == Joined(messages, 2 * k + 1);
      previousService := p.service(|newTokens|, |outputTokens|);
      if !(timestamp < 0.0 && !p.replayPreRoll) {
        var row := EmitRow(p, key, messages, arrival, k, context, timestamp, parent, think);
        rows := rows + [row];
      }
      context := context + outputTokens;
      parent := chatId;
    }
  }

  // ---------- clocks and links ----------

  /** How long after each of the first `k` turns the next one comes: its think time and the service before it. */
  function Waits(p: Params, key: Key, messages: seq<seq<int>>, k: nat): seq<real>
    requires 2 * k <= |messages|
  {
    seq(k, j requires 0 <= j < k => p.think(key, j) + p.service(|messages[2 * j]|, |messages[2 * j + 1]|))
  }

  /** A turn comes at the session's arrival and all the waits before it. */
  lemma {:induction false} TimeIsArrivalAndWaits(p: Params, key: Key, messages: seq<seq<int>>, arrival: real, k: nat)
    requires 2 * k <= |messages|
    ensures TimeAt(p, key, messages, arrival, k) == arrival + Sum(Waits(p, key, messages, k))
  {
    if k > 0 {
      TimeIsArrivalAndWaits(p, key, messages, arrival, k - 1);
      assert Waits(p, key, messages, k)[..k - 1] == Waits(p, key, messages, k - 1);
    }
  }

  /** When turn `k` comes. */
  function Comes(p: Params, key: Key, messages: seq<seq<int>>, arrival: real, k: nat): real
    requires 2 * k <= |messages|
  {
    arrival + Sum(Waits(p, key, messages, k))
  }

  /** From one turn to the next it is the think time and the service time of the turn before. */
  lemma ComesNext(p: Params, key: Key, messages: seq<seq<int>>, arrival: real, k: nat)
    requires 0 < k && 2 * k <= |messages|
    ensures Comes(p, key, messages, arrival, k) - Comes(p, key, messages, arrival, k - 1) ==
            p.think(key, k - 1) + p.service(|messages[2 * k - 2]|, |messages[2 * k - 1]|)
  {
    assert Waits(p, key, messages, k)[..k - 1] == Waits(p, key, messages, k - 1);
  }

  /** The clock and the links of a row: its time, the turn before it, and the think time between them. */
  lemma RowClock(p: Params, key: Key, messages: seq<seq<int>>, arrival: real, k: nat)
    requires 2 * k + 1 < |messages|
    ensures var r := RowAt(p, key, messages, arrival, k);
            && r.timestamp == p.round6(Comes(p, key, messages, arrival, k))
            && (k == 0 ==> r.parentChatId == -1 && r.timeToParentChat == None)
            && (k > 0 ==>
                  && r.parentChatId == RowAt(p, key, messages, arrival, k - 1).chatId
                  && r.timeToParentChat == Some(p.round6(p.think(key, k - 1))))
  {
    hide IdsOf, ChatId, SessionName, Joined, Sum, TimeAt;
    TimeIsArrivalAndWaits(p, key, messages, arrival, k);
  }

  /** A turn is kept exactly if it does not come before time zero, or pre-roll is replayed. */
  lemma KeptIff(p: Params, key: Key, messages: seq<seq<int>>, arrival: real, k: nat)
    requires 2 * k + 1 < |messages|
    ensures RowAt(p, key, messages, arrival, k) in KeptRows(p, key, messages, arrival, |messages| / 2) <==>
            Comes(p, key, messages, arrival, k) >= 0.0 || p.replayPreRoll
  {
    TimeIsArrivalAndWaits(p, key, messages, arrival, k);
    KeptAmong(p, key, messages, arrival, |messages| / 2, k);
  }

  lemma {:induction false} KeptAmong(p: Params, key: Key, messages: seq<seq<int>>, arrival: real, n: nat, k: nat)
    requires 2 * n <= |messages| && 2 * k + 1 < |messages|
    ensures RowAt(p, key, messages, arrival, k) in KeptRows(p, key, messages, arrival, n) <==>
            k < n && Kept(p, key, messages, arrival, k)
  {
    hide RowAt, Kept;
    if n > 0 {
      KeptAmong(p, key, messages, arrival, n - 1, k);
      RowsDiffer(p, key, messages, arrival, n - 1, k);
      SnocMembers(KeptRows(p, key, messages, arrival, n - 1), RowAt(p, key, messages, arrival, n - 1));
    }
  }

  lemma RowsDiffer(p: Params, key: Key, messages: seq<seq<int>>, arrival: real, j: nat, k: nat)
    requires 2 * j + 1 < |messages| && 2 * k + 1 < |messages|
    ensures RowAt(p, key, messages, arrival, j) == RowAt(p, key, messages, arrival, k) ==> j == k
  {
    hide RowAt;
    RowLabels(p, key, messages, arrival, j);
    RowLabels(p, key, messages, arrival, k);
  }

  /** Every row of a session but its first links to the row before it. */
  lemma RowsLinked(p: Params, key: Key, messages: Messages, arrival: real, i: nat)
    requires TimeMoves(p) && 0 < i < |KeptRows(p, key, messages, arrival, |messages| / 2)|
    ensures var rows := KeptRows(p, key, messages, arrival, |messages| / 2);
            && rows[i].parentChatId == rows[i - 1].chatId && rows[i].turn == rows[i - 1].turn + 1
            && rows[i - 1].turn > 0
            && rows[i].timeToParentChat == Some(p.round6(p.think(key, rows[i - 1].turn - 1)))
  {
    hide RowAt, Kept, KeptRows, Comes;
    var k := FirstKept(p, key, messages, arrival, 0) + i;
    KeptFromFirst(p, key, messages, arrival);
    RowClock(p, key, messages, arrival, k);
    RowLabels(p, key, messages, arrival, k);
    RowLabels(p, key, messages, arrival, k - 1);
  }

  /** A session whose first turn is kept starts, with its first row, at its arrival. */
  lemma FirstRowAtArrival(p: Params, key: Key, messages: Messages, arrival: real)
    requires TimeMoves(p) && messages != [] && (arrival >= 0.0 || p.replayPreRoll)
    ensures var rows := KeptRows(p, key, messages, arrival, |messages| / 2);
            && |rows| == |messages| / 2 && rows != []
            && rows[0].timestamp == p.round6(arrival) && rows[0].turn == 1 && rows[0].parentChatId == -1
  {
    hide RowAt, KeptRows;
    FirstKeptIs(p, key, messages, arrival, 0, 0);
    KeptFromFirst(p, key, messages, arrival);
    RowClock(p, key, messages, arrival, 0);
    RowLabels(p, key, messages, arrival, 0);
    assert Waits(p, key, messages, 0) == [];
  }

  // ---------- what every imported session promises ----------

  /** Think and service times are not negative. */
  ghost predicate TimeMoves(p: Params) {
    (forall key, j :: p.think(key, j) >= 0.0) && (forall a, b :: p.service(a, b) >= 0.0)
  }

  /** Once a turn is kept, so is every later one. */
  lemma KeptStays(p: Params, key: Key, messages: seq<seq<int>>, arrival: real, k: nat)
    requires TimeMoves(p) && 2 * (k + 1) <= |messages| && Kept(p, key, messages, arrival, k)
    ensures Kept(p, key, messages, arrival, k + 1)
  {}

  /** The kept rows are the rows of the turns from `first` on. */
  ghost predicate RowsFrom(p: Params, key: Key, messages: seq<seq<int>>, arrival: real,
                           first: nat, k: nat, rows: seq<TraceRecord>)
    requires 2 * k <= |messages|
  {
    && first <= k && |rows| == k - first
    && forall i :: 0 <= i < |rows| ==> rows[i] == RowAt(p, key, messages, arrival, first + i)
  }

  /** Cropping the time before zero cuts whole turns off the front and nothing else. */
  lemma {:induction false} CropIsSuffix(p: Params, key: Key, messages: seq<seq<int>>, arrival: real, k: nat)
    returns (first: nat)
    requires TimeMoves(p) && 2 * k <= |messages|
    ensures RowsFrom(p, key, messages, arrival, first, k, KeptRows(p, key, messages, arrival, k))
    ensures forall j :: 0 <= j < first ==> !Kept(p, key, messages, arrival, j)
    ensures first < k ==> Kept(p, key, messages, arrival, first) && Kept(p, key, messages, arrival, k - 1)
  {
    hide RowAt, TimeAt, Kept;
    if k == 0 {
      first := 0;
    } else {
      first := CropIsSuffix(p, key, messages, arrival, k - 1);
      if first < k - 1 {
        KeptStays(p, key, messages, arrival, k - 2);
      } else if !Kept(p, key, messages, arrival, k - 1) {
        first := k;
      }
    }
  }

  /** The first turn from `k` on that is kept; the number of turns if none is. */
  ghost function FirstKept(p: Params, key: Key, messages: Messages, arrival: real, k: nat): nat
    requires 2 * k <= |messages|
    decreases |messages| - 2 * k
  {
    if 2 * k == |messages| || Kept(p, key, messages, arrival, k) then k else FirstKept(p, key, messages, arrival, k + 1)
  }

  lemma {:induction false} FirstKeptIs(p: Params, key: Key, messages: Messages, arrival: real, k: nat, first: nat)
    requires k <= first && 2 * first <= |messages|
    requires forall j :: k <= j < first ==> !Kept(p, key, messages, arrival, j)
    requires 2 * first < |messages| ==> Kept(p, key, messages, arrival, first)
    ensures FirstKept(p, key, messages, arrival, k) == first
    decreases first - k
  {
    if k < first { FirstKeptIs(p, key, messages, arrival, k + 1, first); }
  }

  /** A session's rows are those of its turns from the first kept one on. */
  lemma KeptFromFirst(p: Params, key: Key, messages: Messages, arrival: real)
    requires TimeMoves(p)
    ensures var n := |messages| / 2;
            RowsFrom(p, key, messages, arrival, FirstKept(p, key, messages, arrival, 0), n,
                     KeptRows(p, key, messages, arrival, n))
  {
    hide RowAt, Kept, KeptRows;
    var first := CropIsSuffix(p, key, messages, arrival, |messages| / 2);
    FirstKeptIs(p, key, messages, arrival, 0, first);
  }

  lemma InputsGrow(p: Params, key: Key, messages: seq<seq<int>>, arrival: real, j: nat)
    requires 0 < j && 2 * j + 1 < |messages|
    ensures var before := RowAt(p, key, messages, arrival, j - 1);
            before.inputLength + before.outputLength <= RowAt(p, key, messages, arrival, j).inputLength
  {
    hide RowAt, Joined;
    RowLabels(p, key, messages, arrival, j - 1);
    RowLabels(p, key, messages, arrival, j);
    JoinedNext(messages, 2 * j - 1);
    JoinedNext(messages, 2 * j);
  }

  /** Every recorded prompt of an imported session contains the conversation recorded before it. */
  lemma ImportedContainsHistory(p: Params, key: Key, messages: seq<seq<int>>, arrival: real, k: nat)
    requires TimeMoves(p) && 2 * k <= |messages|
    ensures ContainsHistory(KeptRows(p, key, messages, arrival, k))
  {
    hide TimeAt, KeptRows, RowAt;
    var rows := KeptRows(p, key, messages, arrival, k);
    var first := CropIsSuffix(p, key, messages, arrival, k);
    forall i | 0 < i < |rows| ensures rows[i - 1].inputLength + rows[i - 1].outputLength <= rows[i].inputLength {
      InputsGrow(p, key, messages, arrival, first + i);
    }
  }

  /** The ids of a row and its length, as ids and length of the conversation up to its input. */
  lemma RowIds(p: Params, key: Key, messages: seq<seq<int>>, arrival: real, k: nat)
    requires 2 * k + 1 < |messages|
    ensures var r := RowAt(p, key, messages, arrival, k);
            && r.hashIds == IdsOf(p, key, Joined(messages, 2 * k + 1))
            && r.inputLength == |Joined(messages, 2 * k + 1)|
  {
    hide TimeAt, Joined, IdsOf, ChatId;
  }

  lemma TurnExtendsIds(p: Params, key: Key, messages: seq<seq<int>>, k: nat)
    requires 0 < k && 2 * k + 1 < |messages|
    ensures IdsOf(p, key, Joined(messages, 2 * k - 1)) <= IdsOf(p, key, Joined(messages, 2 * k + 1))
  {
    hide IdsOf;
    var a, more := Joined(messages, 2 * k - 1), messages[2 * k - 1] + messages[2 * k];
    assert Joined(messages, 2 * k + 1) == a + more;
    GrowthExtendsIds(p.hashes, a, more, p.sharedPrefixTokens / BLOCK_TOKENS, ReplicaSalt(key.replica),
                     IdsOf(p, key, a), IdsOf(p, key, a + more));
  }

  /** Block ids of a later turn extend those of an earlier one: the session's prefix is reused. */
  lemma {:induction false} LaterTurnExtendsIds(p: Params, key: Key, messages: seq<seq<int>>, arrival: real,
                                               j: nat, k: nat)
    requires j <= k && 2 * k + 1 < |messages|
    ensures RowAt(p, key, messages, arrival, j).hashIds <= RowAt(p, key, messages, arrival, k).hashIds
    decreases k - j
  {
    hide RowAt, IdsOf, Joined;
    if j < k {
      LaterTurnExtendsIds(p, key, messages, arrival, j, k - 1);
      RowIds(p, key, messages, arrival, k - 1);
      RowIds(p, key, messages, arrival, k);
      TurnExtendsIds(p, key, messages, k);
    }
  }

  /** Short of collisions a replica shares no block with the trial past the canonical head, whatever its tokens. */
  lemma ReplicasApart(p: Params, a: Key, b: Key, contextA: seq<int>, contextB: seq<int>, i: nat, j: nat)
    requires a.replica != b.replica
    requires var shared := p.sharedPrefixTokens / BLOCK_TOKENS;
             && shared <= i < |IdsOf(p, a, contextA)| && shared <= j < |IdsOf(p, b, contextB)|
             && CollisionFreeOn(p.hashes, shared, Inputs(p.hashes, contextA, shared, ReplicaSalt(a.replica))
                                                  + Inputs(p.hashes, contextB, shared, ReplicaSalt(b.replica)))
    ensures IdsOf(p, a, contextA)[i] != IdsOf(p, b, contextB)[j]
  {
    hide CollisionFreeOn, Inputs;
    EqualIdsEqualTokens(p.hashes, contextA, contextB, p.sharedPrefixTokens / BLOCK_TOKENS, ReplicaSalt(a.replica),
                        ReplicaSalt(b.replica), IdsOf(p, a, contextA), IdsOf(p, b, contextB), i, j);
    if ReplicaSalt(a.replica) == ReplicaSalt(b.replica) { ReplicaSaltInjective(a.replica, b.replica); }
  }

  // ---------- chat ids ----------

  /** The strides leave room for this turn of this trial. */
  predicate WithinStrides(key: Key, k: nat) {
    k < CHAT_ID_STRIDE && key.trial * CHAT_ID_STRIDE + k < REPLICA_CHAT_ID_STRIDE
  }

  /** Within the strides a chat id tells its session and its turn. */
  lemma ChatIdsDistinct(a: Key, j: nat, b: Key, k: nat)
    requires WithinStrides(a, j) && WithinStrides(b, k) && ChatId(a, j) == ChatId(b, k)
    ensures a == b && j == k
  {
    Digits(a.replica, a.trial * CHAT_ID_STRIDE + j, b.replica, b.trial * CHAT_ID_STRIDE + k, REPLICA_CHAT_ID_STRIDE);
    Digits(a.trial, j, b.trial, k, CHAT_ID_STRIDE);
  }
}
