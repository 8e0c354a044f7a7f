/**
 Choosing a worker for a key: a ring of virtual nodes, looked up by wrapping successor, and
 rendezvous hashing.  The hash function is a parameter; nothing is assumed of it.
 */
module HashRing {
  import opened Strings

  type Url = string

  // ---------- building the ring ----------

  /** Where a virtual node sits: `hash(url, i)` is the hash of the url with the index appended. */
  type VirtualHash = (Url, nat) -> nat

  /** The last worker of the list with a virtual node at `h`: later insertions overwrite earlier ones. */
  ghost function Owner(workers: seq<Url>, virtualNodes: nat, hash: VirtualHash, h: nat): Option<Url> {
    if workers == [] then None
    else if HasNode(workers[|workers| - 1], virtualNodes, hash, h) then Some(workers[|workers| - 1])
    else Owner(workers[..|workers| - 1], virtualNodes, hash, h)
  }

  ghost predicate HasNode(url: Url, virtualNodes: nat, hash: VirtualHash, h: nat) {
    exists i: nat :: i < virtualNodes && hash(url, i) == h
  }

  /** The ring holds at every position exactly the owner of that position. */
  ghost predicate IsRing(ring: map<nat, Url>, workers: seq<Url>, virtualNodes: nat, hash: VirtualHash) {
    forall h: nat :: RingAt(ring, h) == Owner(workers, virtualNodes, hash, h)
  }

  ghost function RingAt(ring: map<nat, Url>, h: nat): Option<Url> {
    if h in ring then Some(ring[h]) else None
  }

  lemma HasNodeNext(url: Url, i: nat, hash: VirtualHash, h: nat)
    ensures HasNode(url, i + 1, hash, h) <==> HasNode(url, i, hash, h) || h == hash(url, i)
  {
    if HasNode(url, i, hash, h) {
      var j: nat :| j < i && hash(url, j) == h;
      assert j < i + 1;
    }
  }

  /** The virtual nodes of one worker go in, over whatever was at their positions. */
  method Place(ring: map<nat, Url>, url: Url, virtualNodes: nat, hash: VirtualHash) returns (r: map<nat, Url>)
    ensures forall h: nat :: RingAt(r, h) == if HasNode(url, virtualNodes, hash, h) then Some(url) else RingAt(ring, h)
  {
    r := ring;
    for i := 0 to virtualNodes
      invariant forall h: nat :: RingAt(r, h) == if HasNode(url, i, hash, h) then Some(url) else RingAt(ring, h)
    {
      ghost var before := r;
      r := r[hash(url, i) := url];
      forall h: nat ensures RingAt(r, h) == if HasNode(url, i + 1, hash, h) then Some(url) else RingAt(ring, h) {
        HasNodeNext(url, i, hash, h);
        assert RingAt(before, h) == if HasNode(url, i, hash, h) then Some(url) else RingAt(ring, h);
      }
    }
  }

  method BuildRing(workers: seq<Url>, virtualNodes: nat, hash: VirtualHash) returns (ring: map<nat, Url>)
    ensures IsRing(ring, workers, virtualNodes, hash)
  {
    ring := map[];
    for k := 0 to |workers|
      invariant IsRing(ring, workers[..k], virtualNodes, hash)
    {
      ring := Place(ring, workers[k], virtualNodes, hash);
      assert workers[..k + 1][..k] == workers[..k];
    }
    assert workers[..|workers|] == workers;
  }

  // ---------- looking a key up ----------

  /** `at` is the first position of the ring at or after `h`, wrapping round to the first of all. */
  ghost predicate IsSuccessor(ring: map<nat, Url>, h: nat, at: nat) {
    && at in ring
    && (if at >= h then forall k :: k in ring && k >= h ==> at <= k
        else (forall k :: k in ring ==> k < h) && (forall k :: k in ring ==> at <= k))
  }

  lemma SuccessorUnique(ring: map<nat, Url>, h: nat, a: nat, b: nat)
    requires IsSuccessor(ring, h, a) && IsSuccessor(ring, h, b)
    ensures a == b
  {}

  /** The least element of a non-empty set of positions. */
  method Least(s: set<nat>) returns (m: nat)
    requires s != {}
    ensures m in s && forall k :: k in s ==> m <= k
  {
    m :| m in s;
    var rest := s - {m};
    while rest != {}
      invariant m in s && rest <= s && forall k :: k in s && k !in rest ==> m <= k
    {
      var k :| k in rest;
      if k < m { m := k; }
      rest := rest - {k};
    }
  }

  method Lookup(ring: map<nat, Url>, h: nat) returns (url: Url)
    requires ring != map[]
    ensures exists at: nat :: IsSuccessor(ring, h, at) && url == ring[at]
  {
    var later := set k | k in ring && k >= h;
    assert forall j :: j in ring && j >= h ==> j in later;
    var k;
    if later != {} {
      k := Least(later);
    } else {
      assert ring.Keys != {};
      k := Least(ring.Keys);
    }
    url := ring[k];
    assert IsSuccessor(ring, h, k);
  }

  function Without(workers: seq<Url>, gone: Url): seq<Url> {
    if workers == [] then []
    else if workers[|workers| - 1] == gone then Without(workers[..|workers| - 1], gone)
    else Without(workers[..|workers| - 1], gone) + [workers[|workers| - 1]]
  }

  /** Positions owned by a worker that stays keep their owner; no position appears out of nowhere. */
  lemma {:induction false} OwnerAfterRemoval(workers: seq<Url>, virtualNodes: nat, hash: VirtualHash, gone: Url, h: nat)
    ensures var before := Owner(workers, virtualNodes, hash, h);
            var after := Owner(Without(workers, gone), virtualNodes, hash, h);
            && (before != Some(gone) ==> after == before)
            && (after.Some? ==> before.Some?)
            && after != Some(gone)
  {
    if workers != [] {
      var rest, last := workers[..|workers| - 1], workers[|workers| - 1];
      OwnerAfterRemoval(rest, virtualNodes, hash, gone, h);
      if last != gone {
        assert Without(workers, gone)[..|Without(workers, gone)| - 1] == Without(rest, gone);
      }
    }
  }

  /** Removing a worker that was not chosen leaves the choice where it was. */
  lemma RingMinimalDisruption(workers: seq<Url>, virtualNodes: nat, hash: VirtualHash, gone: Url,
                              ring: map<nat, Url>, smaller: map<nat, Url>, key: nat, at: nat, at': nat)
    requires IsRing(ring, workers, virtualNodes, hash) && IsRing(smaller, Without(workers, gone), virtualNodes, hash)
    requires IsSuccessor(ring, key, at) && IsSuccessor(smaller, key, at')
    requires ring[at] != gone
    ensures at' == at && smaller[at'] == ring[at]
  {
    forall h: nat
      ensures h in smaller ==> h in ring
      ensures h in ring && ring[h] != gone ==> h in smaller && smaller[h] == ring[h]
    {
      OwnerAfterRemoval(workers, virtualNodes, hash, gone, h);
      assert RingAt(ring, h) == Owner(workers, virtualNodes, hash, h);
      assert RingAt(smaller, h) == Owner(Without(workers, gone), virtualNodes, hash, h);
    }
    assert IsSuccessor(smaller, key, at);
    SuccessorUnique(smaller, key, at, at');
  }

  /** Put the other way round: a new worker takes keys over, but never moves a key between old workers. */
  lemma NewWorkerOnlyClaims(workers: seq<Url>, virtualNodes: nat, hash: VirtualHash, added: Url,
                            ring: map<nat, Url>, larger: map<nat, Url>, key: nat, at: nat, at': nat)
    requires added !in workers
    requires IsRing(ring, workers, virtualNodes, hash) && IsRing(larger, workers + [added], virtualNodes, hash)
    requires IsSuccessor(ring, key, at) && IsSuccessor(larger, key, at')
    ensures larger[at'] == added || larger[at'] == ring[at]
  {
    WithoutNew(workers, added);
    if larger[at'] != added {
      RingMinimalDisruption(workers + [added], virtualNodes, hash, added, larger, ring, key, at', at);
    }
  }

  lemma {:induction false} WithoutAbsent(workers: seq<Url>, gone: Url)
    requires gone !in workers
    ensures Without(workers, gone) == workers
  {
    if workers != [] {
      WithoutAbsent(workers[..|workers| - 1], gone);
    }
  }

  lemma WithoutNew(workers: seq<Url>, added: Url)
    requires added !in workers
    ensures Without(workers + [added], added) == workers
  {
    assert (workers + [added])[..|workers|] == workers;
    WithoutAbsent(workers, added);
  }

  // ---------- rendezvous ----------

  /** The last index with the highest score. */
  ghost predicate IsLastMax(workers: seq<Url>, score: Url -> nat, k: nat) {
    && k < |workers|
    && (forall j :: 0 <= j < |workers| ==> score(workers[j]) <= score(workers[k]))
    && (forall j :: k < j < |workers| ==> score(workers[j]) < score(workers[k]))
  }

  method Rendezvous(workers: seq<Url>, score: Url -> nat) returns (url: Url)
    requires workers != []
    ensures exists k: nat :: IsLastMax(workers, score, k) && url == workers[k]
  {
    url := workers[0];
    ghost var k: nat := 0;
    for i := 1 to |workers|
      invariant IsLastMax(workers[..i], score, k) && url == workers[k]
    {
      if score(workers[i]) >= score(url) {
        url, k := workers[i], i;
      }
    }
    assert workers[..|workers|] == workers;
  }

  /** Every worker that stays is found again, and in the same order. */
  lemma {:induction false} WithoutIndex(workers: seq<Url>, gone: Url, k: nat) returns (k': nat)
    requires k < |workers| && workers[k] != gone
    ensures k' < |Without(workers, gone)| && Without(workers, gone)[k'] == workers[k]
    ensures forall j | k' < j < |Without(workers, gone)| ::
              exists i :: k < i < |workers| && workers[i] == Without(workers, gone)[j]
    ensures forall j :: 0 <= j < |Without(workers, gone)| ==> Without(workers, gone)[j] in workers
  {
    var n := |workers| - 1;
    var rest, last := workers[..n], workers[n];
    var w := Without(workers, gone);
    WithoutMembers(workers, gone);
    if k == n {
      k' := |w| - 1;
    } else {
      k' := WithoutIndex(rest, gone, k);
      forall j | k' < j < |w| ensures exists i :: k < i < |workers| && workers[i] == w[j] {
        if j == |Without(rest, gone)| {
          assert workers[n] == w[j];
        } else {
          assert w[j] == Without(rest, gone)[j];
          var i :| k < i < |rest| && rest[i] == Without(rest, gone)[j];
          assert workers[i] == w[j];
        }
      }
    }
  }

  lemma {:induction false} WithoutMembers(workers: seq<Url>, gone: Url)
    ensures forall j :: 0 <= j < |Without(workers, gone)| ==> Without(workers, gone)[j] in workers
  {
    if workers != [] {
      WithoutMembers(workers[..|workers| - 1], gone);
    }
  }

  /** Removing a worker that did not win leaves the winner. */
  lemma RendezvousMinimalDisruption(workers: seq<Url>, score: Url -> nat, gone: Url, k: nat, k': nat)
    requires IsLastMax(workers, score, k) && IsLastMax(Without(workers, gone), score, k')
    requires workers[k] != gone
    ensures Without(workers, gone)[k'] == workers[k]
  {
    var w := Without(workers, gone);
    var l := WithoutIndex(workers, gone, k);
    assert w[k'] in workers;
  }

  // ---------- what is on the ring ----------

  lemma {:induction false} OwnedBy(workers: seq<Url>, virtualNodes: nat, hash: VirtualHash, h: nat)
    ensures Owner(workers, virtualNodes, hash, h).Some? <==>
            exists k: nat, i: nat :: k < |workers| && i < virtualNodes && hash(workers[k], i) == h
    ensures Owner(workers, virtualNodes, hash, h).Some? ==>
            var url := Owner(workers, virtualNodes, hash, h).value;
            url in workers && exists i: nat :: i < virtualNodes && hash(url, i) == h
  {
    if workers != [] {
      var rest, last := workers[..|workers| - 1], workers[|workers| - 1];
      OwnedBy(rest, virtualNodes, hash, h);
      if HasNode(last, virtualNodes, hash, h) {
        var i: nat :| i < virtualNodes && hash(last, i) == h;
        assert hash(workers[|workers| - 1], i) == h;
      } else if Owner(rest, virtualNodes, hash, h).Some? {
        var k: nat, i: nat :| k < |rest| && i < virtualNodes && hash(rest[k], i) == h;
        assert hash(workers[k], i) == h;
      }
      forall k: nat, i: nat | k < |workers| && i < virtualNodes && hash(workers[k], i) == h
        ensures Owner(workers, virtualNodes, hash, h).Some?
      {
        if k < |rest| { assert hash(rest[k], i) == h; }
      }
    }
  }

  /** Every virtual node of every worker has its position, and every position belongs to a worker with a node there. */
  lemma RingIsAllNodes(workers: seq<Url>, virtualNodes: nat, hash: VirtualHash, ring: map<nat, Url>)
    requires IsRing(ring, workers, virtualNodes, hash)
    ensures forall k: nat, i: nat :: k < |workers| && i < virtualNodes ==> hash(workers[k], i) in ring
    ensures forall h: nat :: h in ring ==>
              ring[h] in workers && exists i: nat :: i < virtualNodes && hash(ring[h], i) == h
  {
    forall k: nat, i: nat | k < |workers| && i < virtualNodes ensures hash(workers[k], i) in ring {
      OwnedBy(workers, virtualNodes, hash, hash(workers[k], i));
      assert RingAt(ring, hash(workers[k], i)) == Owner(workers, virtualNodes, hash, hash(workers[k], i));
    }
    forall h: nat | h in ring ensures ring[h] in workers && exists i: nat :: i < virtualNodes && hash(ring[h], i) == h {
      OwnedBy(workers, virtualNodes, hash, h);
      assert RingAt(ring, h) == Owner(workers, virtualNodes, hash, h);
    }
  }
}
