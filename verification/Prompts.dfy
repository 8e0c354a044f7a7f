/**
 Prompts rebuilt from a trace: every block id expands to the same 512 tokens wherever it
 occurs, the rest is padding drawn per request.  The random generator is a parameter: the
 `k`-th draw of a generator seeded with `seed`.
 */
module Prompts {
  import opened BlockChain
  import opened TraceSchema

  type Draws = (int, nat) -> int

  function Drawn(draw: Draws, seed: int, n: nat): seq<int> {
    seq(n, k requires 0 <= k < n => draw(seed, k))
  }

  /** The tokens of a block. */
  function BlockTokens(draw: Draws, id: int): seq<int> {
    Drawn(draw, id, BLOCK_TOKENS)
  }

  function Expand(draw: Draws, ids: seq<int>): seq<int> {
    if ids == [] then [] else Expand(draw, ids[..|ids| - 1]) + BlockTokens(draw, ids[|ids| - 1])
  }

  /** The prompt a record stands for: its blocks, padded or cut to the recorded length. */
  function PromptOf(draw: Draws, rec: TraceRecord): seq<int> {
    var blocks := Expand(draw, rec.hashIds);
    if rec.inputLength <= |blocks| then blocks[..rec.inputLength]
    else blocks + Drawn(draw, rec.chatId, rec.inputLength - |blocks|)
  }

  /** Expands ids to tokens, remembering every block it has made. */
  class PromptBuilder {
    const draw: Draws
    var cache: map<int, seq<int>>

    ghost predicate Valid()
      reads this
    {
      forall id :: id in cache ==> cache[id] == BlockTokens(draw, id)
    }

    constructor (draw: Draws)
      ensures Valid() && this.draw == draw
    {
      this.draw, cache := draw, map[];
    }

    /** The cache never shows: the tokens are those of a fresh expansion. */
    method HashIdToTokenIds(id: int) returns (ids: seq<int>)
      requires Valid()
      modifies this
      ensures Valid() && ids == BlockTokens(draw, id)
      ensures |ids| == BLOCK_TOKENS && forall k :: 0 <= k < BLOCK_TOKENS ==> ids[k] == draw(id, k)
      ensures cache == old(cache)[id := ids]
    {
      if id in cache {
        return cache[id];
      }
      ids := [];
      for k := 0 to BLOCK_TOKENS
        invariant ids == Drawn(draw, id, k) && cache == old(cache)
      {
        ids := ids + [draw(id, k)];
      }
      cache := cache[id := ids];
    }

    method BuildPromptTokenIds(rec: TraceRecord) returns (ids: seq<int>)
      requires Valid()
      modifies this
      ensures Valid() && ids == PromptOf(draw, rec)
    {
      ids := [];
      for i := 0 to |rec.hashIds|
        invariant Valid() && ids == Expand(draw, rec.hashIds[..i])
      {
        var block := HashIdToTokenIds(rec.hashIds[i]);
        ids := ids + block;
        assert rec.hashIds[..i + 1][..i] == rec.hashIds[..i];
      }
      assert rec.hashIds[..|rec.hashIds|] == rec.hashIds;
      ghost var blocks := ids;
      var drawn := 0;
      while |ids| < rec.inputLength
        invariant ids == blocks + Drawn(draw, rec.chatId, drawn)
        invariant drawn == 0 || |ids| <= rec.inputLength
      {
        ids := ids + [draw(rec.chatId, drawn)];
        drawn := drawn + 1;
      }
      ids := ids[..rec.inputLength];
    }
  }

  lemma {:induction false} ExpandLength(draw: Draws, ids: seq<int>)
    ensures |Expand(draw, ids)| == |ids| * BLOCK_TOKENS
  {
    if ids != [] { ExpandLength(draw, ids[..|ids| - 1]); }
  }

  lemma {:induction false} ExpandPrefix(draw: Draws, ids: seq<int>, m: nat)
    requires m <= |ids|
    ensures m * BLOCK_TOKENS <= |Expand(draw, ids)|
    ensures Expand(draw, ids)[..m * BLOCK_TOKENS] == Expand(draw, ids[..m])
  {
    ExpandLength(draw, ids);
    if m < |ids| {
      var rest := ids[..|ids| - 1];
      ExpandPrefix(draw, rest, m);
      assert rest[..m] == ids[..m];
    } else {
      assert ids[..m] == ids;
    }
  }

  /** A prompt has exactly the recorded length, and starts with as many of its blocks as fit. */
  lemma PromptShape(draw: Draws, rec: TraceRecord, m: nat)
    requires m <= |rec.hashIds| && m * BLOCK_TOKENS <= rec.inputLength
    ensures |PromptOf(draw, rec)| == rec.inputLength
    ensures PromptOf(draw, rec)[..m * BLOCK_TOKENS] == Expand(draw, rec.hashIds[..m])
  {
    ExpandPrefix(draw, rec.hashIds, m);
    var blocks := Expand(draw, rec.hashIds);
    assert PromptOf(draw, rec)[..m * BLOCK_TOKENS] == blocks[..m * BLOCK_TOKENS];
  }

  // ---------- token by token ----------

  lemma {:induction false} ExpandAt(draw: Draws, ids: seq<int>, x: nat)
    requires x < |ids| * BLOCK_TOKENS
    ensures |Expand(draw, ids)| == |ids| * BLOCK_TOKENS
    ensures Expand(draw, ids)[x] == draw(ids[x / BLOCK_TOKENS], x % BLOCK_TOKENS)
  {
    ExpandLength(draw, ids);
    var rest := ids[..|ids| - 1];
    ExpandLength(draw, rest);
    if x < |rest| * BLOCK_TOKENS {
      ExpandAt(draw, rest, x);
    } else {
      assert x / BLOCK_TOKENS == |rest|;
    }
  }

  /**
   Every token of a prompt: within the blocks it is the draw at its place from the generator seeded with
   its block's id, after them from the one seeded with the request's chat id.
   */
  lemma PromptToken(draw: Draws, rec: TraceRecord, x: nat)
    requires x < rec.inputLength
    ensures |PromptOf(draw, rec)| == rec.inputLength
    ensures PromptOf(draw, rec)[x] ==
            if x < |rec.hashIds| * BLOCK_TOKENS then draw(rec.hashIds[x / BLOCK_TOKENS], x % BLOCK_TOKENS)
            else draw(rec.chatId, x - |rec.hashIds| * BLOCK_TOKENS)
  {
    hide Expand;
    ExpandLength(draw, rec.hashIds);
    if x < |rec.hashIds| * BLOCK_TOKENS { ExpandAt(draw, rec.hashIds, x); }
  }

  /** The generator gives different seeds different blocks. */
  ghost predicate TellsApart(draw: Draws, ids: set<int>) {
    forall i, j :: i in ids && j in ids && i != j ==> Differ(draw, i, j)
  }

  ghost predicate Differ(draw: Draws, i: int, j: int) {
    exists k: nat :: k < BLOCK_TOKENS && draw(i, k) != draw(j, k)
  }

  ghost function IdSet(ids: seq<int>): set<int> {
    set i | i in ids
  }

  /** Where seeds are told apart, two prompts share their first `m` blocks if and only if the ids do. */
  lemma BlocksSharedIff(draw: Draws, a: TraceRecord, b: TraceRecord, m: nat)
    requires TellsApart(draw, IdSet(a.hashIds) + IdSet(b.hashIds))
    requires m <= |a.hashIds| && m * BLOCK_TOKENS <= a.inputLength
    requires m <= |b.hashIds| && m * BLOCK_TOKENS <= b.inputLength
    ensures |PromptOf(draw, a)| == a.inputLength && |PromptOf(draw, b)| == b.inputLength
    ensures PromptOf(draw, a)[..m * BLOCK_TOKENS] == PromptOf(draw, b)[..m * BLOCK_TOKENS] <==>
            a.hashIds[..m] == b.hashIds[..m]
  {
    hide PromptOf;
    PromptShape(draw, a, m);
    PromptShape(draw, b, m);
    if PromptOf(draw, a)[..m * BLOCK_TOKENS] == PromptOf(draw, b)[..m * BLOCK_TOKENS] {
      forall i | 0 <= i < m ensures a.hashIds[i] == b.hashIds[i] {
        if a.hashIds[i] != b.hashIds[i] { BlocksDiffer(draw, a, b, m, i); }
      }
    }
  }

  lemma BlocksDiffer(draw: Draws, a: TraceRecord, b: TraceRecord, m: nat, i: nat)
    requires i < m <= |a.hashIds| && m * BLOCK_TOKENS <= a.inputLength == |PromptOf(draw, a)|
    requires m <= |b.hashIds| && m * BLOCK_TOKENS <= b.inputLength == |PromptOf(draw, b)|
    requires TellsApart(draw, IdSet(a.hashIds) + IdSet(b.hashIds)) && a.hashIds[i] != b.hashIds[i]
    ensures PromptOf(draw, a)[..m * BLOCK_TOKENS] != PromptOf(draw, b)[..m * BLOCK_TOKENS]
  {
    hide PromptOf;
    assert Differ(draw, a.hashIds[i], b.hashIds[i]);
    var k: nat :| k < BLOCK_TOKENS && draw(a.hashIds[i], k) != draw(b.hashIds[i], k);
    var x := i * BLOCK_TOKENS + k;
    PromptToken(draw, a, x);
    PromptToken(draw, b, x);
    assert x / BLOCK_TOKENS == i && x % BLOCK_TOKENS == k;
    assert PromptOf(draw, a)[..m * BLOCK_TOKENS][x] != PromptOf(draw, b)[..m * BLOCK_TOKENS][x];
  }

  /**
   From contexts to prompts: two contexts with the same salt and head that agree on their
   first `m` whole blocks give prompts that agree on the tokens of these blocks, each prompt as
   long as its context.
   */
  lemma ContextsShareSoPromptsShare(h: Hashes, draw: Draws, a: seq<int>, b: seq<int>, shared: nat, salt: string,
                                    recA: TraceRecord, recB: TraceRecord, idsA: seq<nat>, idsB: seq<nat>, m: nat)
    requires AreBlockIds(h, a, shared, salt, idsA) && AreBlockIds(h, b, shared, salt, idsB)
    requires recA.hashIds == idsA && recA.inputLength == |a| && recB.hashIds == idsB && recB.inputLength == |b|
    requires m * BLOCK_TOKENS <= |a| && m * BLOCK_TOKENS <= |b|
    requires a[..m * BLOCK_TOKENS] == b[..m * BLOCK_TOKENS]
    ensures |PromptOf(draw, recA)| == |a| && |PromptOf(draw, recB)| == |b|
    ensures PromptOf(draw, recA)[..m * BLOCK_TOKENS] == PromptOf(draw, recB)[..m * BLOCK_TOKENS]
  {
    SharedPrefixSharesIds(h, a, b, shared, salt, idsA, idsB, m);
    PromptShape(draw, recA, m);
    PromptShape(draw, recB, m);
    assert recA.hashIds[..m] == recB.hashIds[..m];
  }

  /**
   And back: where hashes do not collide and seeds are told apart, two prompts share their first `m` blocks
   if and only if the contexts have the same tokens from the head up to there and, past the head, the same
   salt.  The replay shares no more prefix than the source did.
   */
  lemma PromptsShareIff(h: Hashes, draw: Draws, a: seq<int>, b: seq<int>, shared: nat, saltA: string, saltB: string,
                        recA: TraceRecord, recB: TraceRecord, idsA: seq<nat>, idsB: seq<nat>, m: nat)
    requires AreBlockIds(h, a, shared, saltA, idsA) && AreBlockIds(h, b, shared, saltB, idsB)
    requires CollisionFreeOn(h, shared, Inputs(h, a, shared, saltA) + Inputs(h, b, shared, saltB))
    requires recA.hashIds == idsA && recA.inputLength == |a| && recB.hashIds == idsB && recB.inputLength == |b|
    requires TellsApart(draw, IdSet(recA.hashIds) + IdSet(recB.hashIds)) && m <= |idsA| && m <= |idsB|
    ensures |PromptOf(draw, recA)| == |a| && |PromptOf(draw, recB)| == |b|
    ensures m * BLOCK_TOKENS <= |a| && m * BLOCK_TOKENS <= |b|
    ensures PromptOf(draw, recA)[..m * BLOCK_TOKENS] == PromptOf(draw, recB)[..m * BLOCK_TOKENS] <==>
            SameTail(a, b, shared, m) && (shared < m ==> saltA == saltB)
  {
    hide CollisionFreeOn, Inputs, TellsApart, SameTail, PromptOf;
    SameIdsIff(h, a, b, shared, saltA, saltB, idsA, idsB, m);
    BlocksSharedIff(draw, recA, recB, m);
    assert recA.hashIds[..m] == recB.hashIds[..m] <==> idsA[..m] == idsB[..m];
  }
}
