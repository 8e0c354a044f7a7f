/**
 One session of a mixed replay, turn by turn: a turn's prompt is the history the engine really
 produced followed by the new part of the recorded prompt.  What the engine answers is given
 from outside.
 */
module ReplaySession {
  import opened Strings
  import opened TraceSchema
  import opened Prompts

  datatype Result<+T> = Ok(value: T) | Err(message: string)

  /** A request that came back without an error, with its tokens, or one that failed. */
  datatype Answer = Answered(tokens: seq<int>) | Failed

  function ApplyRealizedPrefix(prompt: seq<int>, realized: seq<int>, historyLength: int): (r: Result<seq<int>>)
    ensures r.Ok? <==> historyLength >= 0
  {
    if historyLength < 0 then Err("trace_history_length must be non-negative")
    else if historyLength == 0 || historyLength > |prompt| then Ok(prompt)
    else Ok(realized + prompt[historyLength..])
  }

  /** What a session carries from turn to turn. */
  datatype History = History(realized: Option<seq<int>>, length: nat)

  function Effective(draw: Draws, rec: TraceRecord, h: History): seq<int> {
    if h.realized.None? then PromptOf(draw, rec)
    else ApplyRealizedPrefix(PromptOf(draw, rec), h.realized.value, h.length).value
  }

  function Requested(rec: TraceRecord): nat {
    if rec.outputLength < 1 then 1 else rec.outputLength
  }

  /** The prompt and the output it asks for exceed the model's window. */
  predicate Overlong(rec: TraceRecord, effective: seq<int>, window: Option<nat>) {
    window.Some? && |effective| + Requested(rec) > window.value
  }

  function After(rec: TraceRecord, effective: seq<int>, window: Option<nat>, answer: Answer): History {
    var length := rec.inputLength + rec.outputLength;
    if Overlong(rec, effective, window) || answer.Failed? then History(None, length)
    else History(Some(effective + answer.tokens), length)
  }

  /** The history before turn `k`. */
  ghost function HistoryAt(draw: Draws, turns: seq<TraceRecord>, answers: seq<Answer>, window: Option<nat>,
                          k: nat): History
    requires k <= |turns| == |answers|
  {
    if k == 0 then History(None, 0)
    else
      var h := HistoryAt(draw, turns, answers, window, k - 1);
      After(turns[k - 1], Effective(draw, turns[k - 1], h), window, answers[k - 1])
  }

  /** The prompt of turn `k`. */
  ghost function PromptAt(draw: Draws, turns: seq<TraceRecord>, answers: seq<Answer>, window: Option<nat>,
                          k: nat): seq<int>
    requires k < |turns| == |answers|
  {
    Effective(draw, turns[k], HistoryAt(draw, turns, answers, window, k))
  }

  /** One turn: the prompt that goes out and what is kept for the next turn. */
  method RunTurn(builder: PromptBuilder, rec: TraceRecord, answer: Answer, window: Option<nat>,
                 realized: Option<seq<int>>, historyLength: nat)
    returns (ids: seq<int>, realized': Option<seq<int>>, historyLength': nat)
    requires builder.Valid()
    modifies builder
    ensures builder.Valid() && ids == Effective(builder.draw, rec, History(realized, historyLength))
    ensures History(realized', historyLength') == After(rec, ids, window, answer)
  {
    ids := builder.BuildPromptTokenIds(rec);
    if realized.Some? {
      ids := ApplyRealizedPrefix(ids, realized.value, historyLength).value;
    }
    if Overlong(rec, ids, window) {
      realized' := None;
    } else if answer.Answered? {
      realized' := Some(ids + answer.tokens);
    } else {
      realized' := None;
    }
    historyLength' := rec.inputLength + rec.outputLength;
  }

  /** The session's loop. */
  method RunTurns(builder: PromptBuilder, turns: seq<TraceRecord>, answers: seq<Answer>, window: Option<nat>)
    returns (prompts: seq<seq<int>>)
    requires builder.Valid() && |turns| == |answers|
    modifies builder
    ensures builder.Valid() && |prompts| == |turns|
    ensures forall k :: 0 <= k < |turns| ==> prompts[k] == PromptAt(builder.draw, turns, answers, window, k)
  {
    hide Effective, After;
    prompts := [];
    var realized: Option<seq<int>>, historyLength: nat := None, 0;
    for k := 0 to |turns|
      invariant builder.Valid() && |prompts| == k
      invariant History(realized, historyLength) == HistoryAt(builder.draw, turns, answers, window, k)
      invariant forall j :: 0 <= j < k ==> prompts[j] == PromptAt(builder.draw, turns, answers, window, j)
    {
      var ids;
      ids, realized, historyLength := RunTurn(builder, turns[k], answers[k], window, realized, historyLength);
      prompts := prompts + [ids];
    }
  }

  /** A turn is skipped exactly if its prompt leaves no room for the output it asks for, of at least one token. */
  lemma OverlongIff(rec: TraceRecord, effective: seq<int>, window: nat)
    ensures Overlong(rec, effective, Some(window)) <==>
            forall tokens: seq<int> ::
              |tokens| >= 1 && |tokens| >= rec.outputLength ==> |effective + tokens| > window
    ensures !Overlong(rec, effective, None)
  {
    var tokens := seq(Requested(rec), _ => 0);
    assert |effective + tokens| == |effective| + Requested(rec);
  }

  // ---------- every session ----------

  /** The recorded length of the conversation before turn `k`. */
  function Recorded(turns: seq<TraceRecord>, k: nat): nat
    requires 0 < k <= |turns|
  {
    turns[k - 1].inputLength + turns[k - 1].outputLength
  }

  /** Turn `k` can continue from what the engine produced: the turn before it fitted and was answered, and the
      recorded prompt contains a recorded conversation. */
  ghost predicate Continues(draw: Draws, turns: seq<TraceRecord>, answers: seq<Answer>, window: Option<nat>, k: nat)
    requires 0 < k < |turns| == |answers|
  {
    && !Overlong(turns[k - 1], PromptAt(draw, turns, answers, window, k - 1), window) && answers[k - 1].Answered?
    && 0 < Recorded(turns, k) <= turns[k].inputLength
  }

  /** The next prompt is the last prompt, its real output and the new input, or else the recorded prompt, cold. */
  lemma NextPrompt(draw: Draws, turns: seq<TraceRecord>, answers: seq<Answer>, window: Option<nat>, k: nat)
    requires 0 < k < |turns| == |answers|
    ensures |PromptOf(draw, turns[k])| == turns[k].inputLength
    ensures PromptAt(draw, turns, answers, window, k) ==
            if Continues(draw, turns, answers, window, k)
            then PromptAt(draw, turns, answers, window, k - 1) + answers[k - 1].tokens
                 + PromptOf(draw, turns[k])[Recorded(turns, k)..]
            else PromptOf(draw, turns[k])
  {
    PromptShape(draw, turns[k], 0);
  }

  // ---------- sessions that go well ----------

  /** Every turn is answered in full with token ids and fits the window. */
  ghost predicate AllAnswered(draw: Draws, turns: seq<TraceRecord>, answers: seq<Answer>, window: Option<nat>) {
    && |turns| == |answers|
    && forall k :: 0 <= k < |turns| ==>
         && answers[k].Answered? && |answers[k].tokens| == Requested(turns[k])
         && !Overlong(turns[k], PromptAt(draw, turns, answers, window, k), window)
  }

  /** Every recorded prompt contains the recorded conversation before it. */
  ghost predicate ContainsHistory(turns: seq<TraceRecord>) {
    forall k :: 0 < k < |turns| ==> turns[k - 1].inputLength + turns[k - 1].outputLength <= turns[k].inputLength
  }

  /** The next prompt starts with this one and its real output. */
  ghost predicate Carries(draw: Draws, turns: seq<TraceRecord>, answers: seq<Answer>, window: Option<nat>, k: nat)
    requires 0 < k < |turns| == |answers| && answers[k - 1].Answered?
  {
    PromptAt(draw, turns, answers, window, k - 1) + answers[k - 1].tokens <= PromptAt(draw, turns, answers, window, k)
  }

  /** Each prompt of a session that goes well starts with the previous prompt and its actual output. */
  lemma PromptsCarryHistory(draw: Draws, turns: seq<TraceRecord>, answers: seq<Answer>, window: Option<nat>, k: nat)
    requires AllAnswered(draw, turns, answers, window) && ContainsHistory(turns)
    requires 0 < k < |turns| && Recorded(turns, k) > 0
    ensures answers[k - 1].Answered? && Carries(draw, turns, answers, window, k)
  {
    NextPrompt(draw, turns, answers, window, k);
    assert turns[k - 1].inputLength + turns[k - 1].outputLength <= turns[k].inputLength;
  }

  /** With no recorded conversation before a turn there was none before any earlier turn either. */
  lemma {:induction false} EmptySoFar(turns: seq<TraceRecord>, k: nat, j: nat)
    requires ContainsHistory(turns) && 0 < k <= |turns| && Recorded(turns, k) == 0 && j < k
    ensures turns[j].inputLength == 0
  {
    if j < k - 1 { EmptySoFar(turns, k - 1, j); }
  }

  lemma ColdPrompt(draw: Draws, turns: seq<TraceRecord>, answers: seq<Answer>, window: Option<nat>, k: nat)
    requires |turns| == |answers| && k < |turns| && (k == 0 || Recorded(turns, k) == 0)
    ensures PromptAt(draw, turns, answers, window, k) == PromptOf(draw, turns[k])
    ensures |PromptAt(draw, turns, answers, window, k)| == turns[k].inputLength
  {
    PromptShape(draw, turns[k], 0);
  }

  /** Only then is the promise broken: for some answer the next prompt does not carry it. */
  lemma ForgetsWithoutRecord(draw: Draws, turns: seq<TraceRecord>, k: nat) returns (answers: seq<Answer>)
    requires ContainsHistory(turns) && 0 < k < |turns| && Recorded(turns, k) == 0
    ensures AllAnswered(draw, turns, answers, None)
    ensures answers[k - 1].Answered? && !Carries(draw, turns, answers, None, k)
  {
    var prompt := PromptOf(draw, turns[k]);
    var other := if prompt == [] then 0 else prompt[0] + 1;
    answers := seq(|turns|, i requires 0 <= i < |turns| => Answered(seq(Requested(turns[i]), j => other)));
    EmptySoFar(turns, k, k - 1);
    ColdPrompt(draw, turns, answers, None, k);
    ColdPrompt(draw, turns, answers, None, k - 1);
    var start := PromptAt(draw, turns, answers, None, k - 1) + answers[k - 1].tokens;
    assert start[0] == other;
  }

  /**
   Whatever the engine answers and whatever the window, turn `k` carries the turn before it, if and only if
   some conversation is recorded before turn `k`.
   */
  lemma CarriesHistoryIff(draw: Draws, turns: seq<TraceRecord>, k: nat)
    requires ContainsHistory(turns) && 0 < k < |turns|
    ensures Recorded(turns, k) > 0 <==>
            (forall answers: seq<Answer>, window :: AllAnswered(draw, turns, answers, window) ==>
               answers[k - 1].Answered? && Carries(draw, turns, answers, window, k))
  {
    hide PromptAt;
    if Recorded(turns, k) > 0 {
      forall answers: seq<Answer>, window | AllAnswered(draw, turns, answers, window)
        ensures answers[k - 1].Answered? && Carries(draw, turns, answers, window, k)
      {
        PromptsCarryHistory(draw, turns, answers, window, k);
      }
    } else {
      var answers := ForgetsWithoutRecord(draw, turns, k);
    }
  }

  /** How many of the first `k` turns have an input but no recorded output, although one token is always requested. */
  function SilentTurns(turns: seq<TraceRecord>, k: nat): nat
    requires k <= |turns|
  {
    if k == 0 then 0 else SilentTurns(turns, k - 1) + if Silent(turns[k - 1]) then 1 else 0
  }

  predicate Silent(rec: TraceRecord) {
    rec.inputLength > 0 && rec.outputLength == 0
  }

  lemma {:induction false} NoSilentTurns(turns: seq<TraceRecord>, k: nat)
    requires k <= |turns|
    ensures SilentTurns(turns, k) == 0 <==> forall j :: 0 <= j < k ==> !Silent(turns[j])
  {
    if k > 0 { NoSilentTurns(turns, k - 1); }
  }

  /** A prompt exceeds the recorded length by one token for every silent turn before it. */
  lemma {:induction false} EffectiveLength(draw: Draws, turns: seq<TraceRecord>, answers: seq<Answer>,
                                           window: Option<nat>, k: nat)
    requires AllAnswered(draw, turns, answers, window) && ContainsHistory(turns) && k < |turns|
    ensures |PromptAt(draw, turns, answers, window, k)| == turns[k].inputLength + SilentTurns(turns, k)
  {
    hide PromptAt, HistoryAt, PromptOf;
    if k == 0 || Recorded(turns, k) == 0 {
      ColdPrompt(draw, turns, answers, window, k);
      NoSilentTurns(turns, k);
      forall j | 0 <= j < k ensures !Silent(turns[j]) { EmptySoFar(turns, k, j); }
    } else {
      EffectiveLength(draw, turns, answers, window, k - 1);
      NextPrompt(draw, turns, answers, window, k);
      assert Continues(draw, turns, answers, window, k);
    }
  }

  /** A prompt has the recorded length if and only if no turn before it had an input but recorded no output. */
  lemma LengthAsRecorded(draw: Draws, turns: seq<TraceRecord>, answers: seq<Answer>, window: Option<nat>, k: nat)
    requires AllAnswered(draw, turns, answers, window) && ContainsHistory(turns) && k < |turns|
    ensures var length := |PromptAt(draw, turns, answers, window, k)|;
            length == turns[k].inputLength <==> (forall j :: 0 <= j < k ==> !Silent(turns[j]))
  {
    EffectiveLength(draw, turns, answers, window, k);
    NoSilentTurns(turns, k);
  }

  // ---------- the smallest sessions for which the promises fail ----------

  function Plain(chatId: int, inputLength: nat, outputLength: nat): TraceRecord {
    TraceRecord(chatId, -1, 0.0, inputLength, outputLength, 1, [], None, None)
  }

  /** A turn that records no output makes the next prompt one token too long. */
  lemma SilentTurnLengthens(draw: Draws)
    ensures var turns, answers := [Plain(0, 1, 0), Plain(1, 1, 0)], [Answered([7]), Answered([7])];
            && AllAnswered(draw, turns, answers, None) && ContainsHistory(turns)
            && |PromptAt(draw, turns, answers, None, 1)| == turns[1].inputLength + 1
  {
    var turns, answers := [Plain(0, 1, 0), Plain(1, 1, 0)], [Answered([7]), Answered([7])];
    EffectiveLength(draw, turns, answers, None, 1);
    assert SilentTurns(turns, 0) == 0;
  }
}
