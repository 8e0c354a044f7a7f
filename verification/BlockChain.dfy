/**
 Block ids of a trace: hashes of whole 512-token blocks, each chained to the one before, with
 an optional canonical head shared by all sessions.  The hash functions are parameters.
 */
module BlockChain {

  const BLOCK_TOKENS: nat := 512

  /** Ids keep the lowest 62 bits of a digest. */
  const ID_RANGE: nat := 0x4000_0000_0000_0000

  type Digest = nat

  /** What goes into one block hash: the digest before, the salt, the tokens. */
  datatype Input = Input(parent: Digest, salt: string, tokens: seq<int>)

  datatype Hashes = Hashes(block: Input -> Digest, head: (Digest, nat) -> Digest)

  function Block(tokens: seq<int>, i: nat): seq<int>
    requires (i + 1) * BLOCK_TOKENS <= |tokens|
  {
    tokens[i * BLOCK_TOKENS..(i + 1) * BLOCK_TOKENS]
  }

  /** The digest after `i` blocks: the first `shared` come from the canonical head. */
  ghost function DigestAfter(h: Hashes, tokens: seq<int>, shared: nat, salt: string, i: nat): Digest
    requires i * BLOCK_TOKENS <= |tokens|
  {
    if i == 0 then 0
    else if i <= shared then h.head(DigestAfter(h, tokens, shared, salt, i - 1), i - 1)
    else h.block(Input(DigestAfter(h, tokens, shared, salt, i - 1), salt, Block(tokens, i - 1)))
  }

  ghost function BlockId(h: Hashes, tokens: seq<int>, shared: nat, salt: string, i: nat): nat
    requires (i + 1) * BLOCK_TOKENS <= |tokens|
  {
    DigestAfter(h, tokens, shared, salt, i + 1) % ID_RANGE
  }

  /** One id per whole block, in order; the trailing part of a block has none. */
  ghost predicate AreBlockIds(h: Hashes, tokens: seq<int>, shared: nat, salt: string, ids: seq<nat>) {
    && |ids| == |tokens| / BLOCK_TOKENS
    && forall i :: 0 <= i < |ids| ==> ids[i] == BlockId(h, tokens, shared, salt, i)
  }

  /** The digests and ids of the canonical head depend on nothing but its length. */
  ghost function HeadDigest(h: Hashes, i: nat): Digest {
    if i == 0 then 0 else h.head(HeadDigest(h, i - 1), i - 1)
  }

  method CanonicalHead(h: Hashes, n: nat) returns (ids: seq<nat>, parent: Digest)
    ensures |ids| == n && parent == HeadDigest(h, n)
    ensures forall i :: 0 <= i < n ==> ids[i] == HeadDigest(h, i + 1) % ID_RANGE
  {
    ids, parent := [], 0;
    for i := 0 to n
      invariant |ids| == i && parent == HeadDigest(h, i)
      invariant forall j :: 0 <= j < i ==> ids[j] == HeadDigest(h, j + 1) % ID_RANGE
    {
      parent := h.head(parent, i);
      ids := ids + [parent % ID_RANGE];
    }
  }

  lemma {:induction false} HeadIsCanonical(h: Hashes, tokens: seq<int>, shared: nat, salt: string, i: nat)
    requires i * BLOCK_TOKENS <= |tokens| && i <= shared
    ensures DigestAfter(h, tokens, shared, salt, i) == HeadDigest(h, i)
  {
    if i > 0 { HeadIsCanonical(h, tokens, shared, salt, i - 1); }
  }

  method BlockHashes(h: Hashes, tokens: seq<int>, shared: nat, salt: string) returns (ids: seq<nat>)
    ensures AreBlockIds(h, tokens, shared, salt, ids)
  {
    var n := |tokens| / BLOCK_TOKENS;
    var head := if shared < n then shared else n;
    var parent;
    ids, parent := CanonicalHead(h, head);
    forall i | 0 <= i <= head ensures DigestAfter(h, tokens, shared, salt, i) == HeadDigest(h, i) {
      HeadIsCanonical(h, tokens, shared, salt, i);
    }
    for i := head to n
      invariant |ids| == i && parent == DigestAfter(h, tokens, shared, salt, i)
      invariant forall j :: 0 <= j < i ==> ids[j] == BlockId(h, tokens, shared, salt, j)
    {
      parent := h.block(Input(parent, salt, Block(tokens, i)));
      ids := ids + [parent % ID_RANGE];
    }
  }

  // ---------- a shared prefix gives shared ids ----------

  /** Past the canonical head two contexts have the same tokens up to the end of block `i - 1`. */
  predicate SameTail(a: seq<int>, b: seq<int>, shared: nat, i: nat) {
    && i * BLOCK_TOKENS <= |a| && i * BLOCK_TOKENS <= |b|
    && (shared < i ==> a[shared * BLOCK_TOKENS..i * BLOCK_TOKENS] == b[shared * BLOCK_TOKENS..i * BLOCK_TOKENS])
  }

  /** One block more or less. */
  lemma SameTailStep(a: seq<int>, b: seq<int>, shared: nat, i: nat)
    requires shared <= i && (i + 1) * BLOCK_TOKENS <= |a| && (i + 1) * BLOCK_TOKENS <= |b|
    ensures SameTail(a, b, shared, i + 1) <==> SameTail(a, b, shared, i) && Block(a, i) == Block(b, i)
  {
    var lo, mid, hi := shared * BLOCK_TOKENS, i * BLOCK_TOKENS, (i + 1) * BLOCK_TOKENS;
    assert a[lo..hi] == a[lo..mid] + Block(a, i) && b[lo..hi] == b[lo..mid] + Block(b, i);
    if a[lo..hi] == b[lo..hi] {
      assert a[lo..mid] == a[lo..hi][..mid - lo] && b[lo..mid] == b[lo..hi][..mid - lo];
      assert Block(a, i) == a[lo..hi][mid - lo..] && Block(b, i) == b[lo..hi][mid - lo..];
    }
  }

  lemma {:induction false} SameTailSameDigest(h: Hashes, a: seq<int>, b: seq<int>, shared: nat, salt: string, i: nat)
    requires SameTail(a, b, shared, i)
    ensures DigestAfter(h, a, shared, salt, i) == DigestAfter(h, b, shared, salt, i)
  {
    if i <= shared {
      HeadIsCanonical(h, a, shared, salt, i);
      HeadIsCanonical(h, b, shared, salt, i);
    } else {
      SameTailStep(a, b, shared, i - 1);
      SameTailSameDigest(h, a, b, shared, salt, i - 1);
    }
  }

  lemma SliceOfPrefix(a: seq<int>, b: seq<int>, n: nat, lo: nat, hi: nat)
    requires n <= |a| && n <= |b| && a[..n] == b[..n] && lo <= hi <= n
    ensures a[lo..hi] == b[lo..hi]
  {
    forall x | lo <= x < hi ensures a[x] == b[x] { assert a[..n][x] == b[..n][x]; }
  }

  /** Contexts that agree on their first `m` whole blocks have the same first `m` ids. */
  lemma SharedPrefixSharesIds(h: Hashes, a: seq<int>, b: seq<int>, shared: nat, salt: string,
                              idsA: seq<nat>, idsB: seq<nat>, m: nat)
    requires AreBlockIds(h, a, shared, salt, idsA) && AreBlockIds(h, b, shared, salt, idsB)
    requires m * BLOCK_TOKENS <= |a| && m * BLOCK_TOKENS <= |b|
    requires a[..m * BLOCK_TOKENS] == b[..m * BLOCK_TOKENS]
    ensures m <= |idsA| && m <= |idsB| && idsA[..m] == idsB[..m]
  {
    forall i | 0 <= i < m ensures idsA[i] == idsB[i] {
      if shared <= i { SliceOfPrefix(a, b, m * BLOCK_TOKENS, shared * BLOCK_TOKENS, (i + 1) * BLOCK_TOKENS); }
      SameTailSameDigest(h, a, b, shared, salt, i + 1);
    }
  }

  /** Growing a context only appends ids: a session's later ids extend its earlier ones. */
  lemma GrowthExtendsIds(h: Hashes, a: seq<int>, more: seq<int>, shared: nat, salt: string,
                         idsA: seq<nat>, idsB: seq<nat>)
    requires AreBlockIds(h, a, shared, salt, idsA) && AreBlockIds(h, a + more, shared, salt, idsB)
    ensures idsA <= idsB
  {
    var m := |idsA|;
    assert (a + more)[..m * BLOCK_TOKENS] == a[..m * BLOCK_TOKENS];
    SharedPrefixSharesIds(h, a, a + more, shared, salt, idsA, idsB, m);
  }

  // ---------- and, short of collisions, only a shared prefix does ----------

  /** No two of these inputs have the same block id, and none hashes to the digest the chains start from. */
  ghost predicate CollisionFreeOn(h: Hashes, shared: nat, inputs: set<Input>) {
    && (forall x, y :: x in inputs && y in inputs && h.block(x) % ID_RANGE == h.block(y) % ID_RANGE ==> x == y)
    && (forall x :: x in inputs ==> h.block(x) != HeadDigest(h, shared))
  }

  ghost function InputAt(h: Hashes, tokens: seq<int>, shared: nat, salt: string, i: nat): Input
    requires (i + 1) * BLOCK_TOKENS <= |tokens|
  {
    Input(DigestAfter(h, tokens, shared, salt, i), salt, Block(tokens, i))
  }

  /** All that is hashed for the blocks of a context after the canonical head. */
  ghost function Inputs(h: Hashes, tokens: seq<int>, shared: nat, salt: string): set<Input> {
    set i | shared <= i < |tokens| / BLOCK_TOKENS :: InputAt(h, tokens, shared, salt, i)
  }

  /** A digest of the chain is either the one it starts from or that of an input. */
  lemma DigestBefore(h: Hashes, tokens: seq<int>, shared: nat, salt: string, i: nat)
    requires shared <= i && i * BLOCK_TOKENS <= |tokens|
    ensures i == shared ==> DigestAfter(h, tokens, shared, salt, i) == HeadDigest(h, shared)
    ensures i > shared ==> InputAt(h, tokens, shared, salt, i - 1) in Inputs(h, tokens, shared, salt)
    ensures i > shared ==> DigestAfter(h, tokens, shared, salt, i) == h.block(InputAt(h, tokens, shared, salt, i - 1))
  {
    if i == shared { HeadIsCanonical(h, tokens, shared, salt, i); }
  }

  lemma {:induction false} EqualBlocksEqualChains(h: Hashes, a: seq<int>, b: seq<int>, shared: nat,
                                                  saltA: string, saltB: string, i: nat, j: nat)
    requires shared <= i && (i + 1) * BLOCK_TOKENS <= |a| && shared <= j && (j + 1) * BLOCK_TOKENS <= |b|
    requires CollisionFreeOn(h, shared, Inputs(h, a, shared, saltA) + Inputs(h, b, shared, saltB))
    requires BlockId(h, a, shared, saltA, i) == BlockId(h, b, shared, saltB, j)
    ensures i == j && saltA == saltB && SameTail(a, b, shared, i + 1)
    decreases i
  {
    hide DigestAfter, Inputs, SameTail;
    DigestBefore(h, a, shared, saltA, i + 1);
    DigestBefore(h, b, shared, saltB, j + 1);
    assert InputAt(h, a, shared, saltA, i) == InputAt(h, b, shared, saltB, j);
    DigestBefore(h, a, shared, saltA, i);
    DigestBefore(h, b, shared, saltB, j);
    if i > shared && j > shared {
      EqualBlocksEqualChains(h, a, b, shared, saltA, saltB, i - 1, j - 1);
    } else {
      assert i == j == shared;
      NoTail(a, b, shared);
    }
    SameTailStep(a, b, shared, i);
  }

  lemma NoTail(a: seq<int>, b: seq<int>, shared: nat)
    requires shared * BLOCK_TOKENS <= |a| && shared * BLOCK_TOKENS <= |b|
    ensures SameTail(a, b, shared, shared)
  {}

  /**
   Short of collisions two blocks past the canonical head, at whatever positions in whatever contexts,
   have the same id if and only if they are at the same position, under the same salt, and the contexts
   have the same tokens from the head up to and including them.
   */
  lemma EqualIdsEqualTokens(h: Hashes, a: seq<int>, b: seq<int>, shared: nat, saltA: string, saltB: string,
                            idsA: seq<nat>, idsB: seq<nat>, i: nat, j: nat)
    requires AreBlockIds(h, a, shared, saltA, idsA) && AreBlockIds(h, b, shared, saltB, idsB)
    requires CollisionFreeOn(h, shared, Inputs(h, a, shared, saltA) + Inputs(h, b, shared, saltB))
    requires shared <= i < |idsA| && shared <= j < |idsB|
    ensures idsA[i] == idsB[j] <==> i == j && saltA == saltB && SameTail(a, b, shared, i + 1)
    ensures idsA[i] == idsB[j] && shared == 0 ==> a[..(i + 1) * BLOCK_TOKENS] == b[..(i + 1) * BLOCK_TOKENS]
  {
    if idsA[i] == idsB[j] {
      EqualBlocksEqualChains(h, a, b, shared, saltA, saltB, i, j);
      assert shared == 0 ==> a[..(i + 1) * BLOCK_TOKENS] == a[0..(i + 1) * BLOCK_TOKENS];
    } else if i == j && saltA == saltB && SameTail(a, b, shared, i + 1) {
      SameTailSameDigest(h, a, b, shared, saltA, i + 1);
    }
  }

  /** A shorter stretch of the same tokens. */
  lemma SameTailShorter(a: seq<int>, b: seq<int>, shared: nat, i: nat, m: nat)
    requires SameTail(a, b, shared, m) && i <= m
    ensures SameTail(a, b, shared, i)
  {
    if shared < i {
      var lo, hi, end := shared * BLOCK_TOKENS, i * BLOCK_TOKENS, m * BLOCK_TOKENS;
      forall x | lo <= x < hi ensures a[x] == b[x] { assert a[lo..end][x - lo] == b[lo..end][x - lo]; }
    }
  }

  /**
   Short of collisions two contexts have the same first `m` ids if and only if they have the same tokens
   from the head up to there and, past the head, the same salt.
   */
  lemma SameIdsIff(h: Hashes, a: seq<int>, b: seq<int>, shared: nat, saltA: string, saltB: string,
                   idsA: seq<nat>, idsB: seq<nat>, m: nat)
    requires AreBlockIds(h, a, shared, saltA, idsA) && AreBlockIds(h, b, shared, saltB, idsB)
    requires CollisionFreeOn(h, shared, Inputs(h, a, shared, saltA) + Inputs(h, b, shared, saltB))
    requires m <= |idsA| && m <= |idsB|
    ensures idsA[..m] == idsB[..m] <==> SameTail(a, b, shared, m) && (shared < m ==> saltA == saltB)
  {
    hide CollisionFreeOn, Inputs, DigestAfter, SameTail;
    if idsA[..m] == idsB[..m] {
      if shared < m {
        assert idsA[..m][m - 1] == idsB[..m][m - 1];
        EqualIdsEqualTokens(h, a, b, shared, saltA, saltB, idsA, idsB, m - 1, m - 1);
      } else {
        NoTailYet(a, b, shared, m);
      }
    }
    if SameTail(a, b, shared, m) && (shared < m ==> saltA == saltB) {
      forall i | 0 <= i < m ensures idsA[i] == idsB[i] {
        SameTailShorter(a, b, shared, i + 1, m);
        if shared < m {
          SameTailSameDigest(h, a, b, shared, saltA, i + 1);
        } else {
          HeadIsCanonical(h, a, shared, saltA, i + 1);
          HeadIsCanonical(h, b, shared, saltB, i + 1);
        }
      }
    }
  }

  lemma NoTailYet(a: seq<int>, b: seq<int>, shared: nat, m: nat)
    requires m <= shared && m * BLOCK_TOKENS <= |a| && m * BLOCK_TOKENS <= |b|
    ensures SameTail(a, b, shared, m)
  {}

  // ---------- the head is a chain, too ----------

  /** What follows a changed step of the head is changed all the way. */
  lemma {:induction false} HeadIsChained(h: Hashes, h': Hashes, i: nat, j: nat)
    requires i <= j && HeadDigest(h, i) != HeadDigest(h', i)
    requires forall d: nat, k: nat :: h'.head(d, k) == h.head(d, k) || k < i
    requires forall d: nat, e: nat, k: nat :: h.head(d, k) == h.head(e, k) ==> d == e
    ensures HeadDigest(h, j) != HeadDigest(h', j)
    decreases j
  {
    if i < j { HeadIsChained(h, h', i, j - 1); }
  }
}
