/** Removal of a tenant: from its leaves upwards, a queue of the nodes at which it currently ends. */
module RadixRemove {
  import opened Sequences
  import opened Strings
  import opened RadixTree
  import opened RadixDetach

  /** The queue lists the leaves of `t`, each once. */
  ghost predicate Queued(n: Nodes, queue: seq<Path>, t: Tenant) {
    && Linked(n) && TenantClosed(n) && Distinct(queue)
    && (forall p {:trigger IsLeaf(n, p, t)} {:trigger p in queue} :: p in queue <==> IsLeaf(n, p, t))
  }

  /** The queue after its first node has been dealt with. */
  ghost function Advance(n: Nodes, queue: seq<Path>, t: Tenant): seq<Path>
    requires queue != [] && queue[0] in n
  {
    var up := n[queue[0]].parent;
    if up.Some? && IsLeaf(Detach(n, queue[0], t), up.value, t) then queue[1..] + [up.value]
    else queue[1..]
  }

  /** Only holdings of `t` have gone since `n0`. */
  ghost predicate OnlyLost(n0: Nodes, n: Nodes, t: Tenant) {
    && (forall x, o :: Holds(n, x, o) ==> Holds(n0, x, o) && n[x].tenants[o] == n0[x].tenants[o])
    && (forall x, o :: o != t && Holds(n0, x, o) ==> Holds(n, x, o))
    && Remaining(n0, n)
  }

  lemma AdvanceKeeps(n: Nodes, queue: seq<Path>, t: Tenant)
    requires Queued(n, queue, t) && queue != []
    ensures queue[0] in n && Queued(Detach(n, queue[0], t), Advance(n, queue, t), t)
    ensures |Pairs(Detach(n, queue[0], t))| < |Pairs(n)|
  {
    var p := queue[0];
    assert p in queue;
    var n', queue' := Detach(n, p, t), Advance(n, queue, t);
    DetachKeeps(n, p, t);
    LeavesPairs(n, n', t, p);
    forall x ensures x in queue' <==> IsLeaf(n', x, t) {
      DetachLeaves(n, p, t, x, t);
      assert x in queue[1..] <==> x in queue && x != p;
    }
    if n[p].parent.Some? {
      DetachLeaves(n, p, t, n[p].parent.value, t);
      assert n[p].parent.value !in queue;
    }
  }

  lemma DetachOnlyLost(n0: Nodes, n: Nodes, p: Path, t: Tenant)
    requires Linked(n) && TenantClosed(n) && IsLeaf(n, p, t) && OnlyLost(n0, n, t)
    ensures OnlyLost(n0, Detach(n, p, t), t)
  {
    DetachKeeps(n, p, t);
    DetachRemaining(n, p, t);
    forall x, o | Holds(Detach(n, p, t), x, o)
      ensures Holds(n0, x, o) && Detach(n, p, t)[x].tenants[o] == n0[x].tenants[o]
    {
      DetachStamps(n, p, t, x, o);
    }
  }

  lemma NothingLost(n: Nodes, t: Tenant)
    ensures OnlyLost(n, n, t)
  {}

  lemma AdvanceLoses(n0: Nodes, n: Nodes, queue: seq<Path>, t: Tenant)
    requires Queued(n, queue, t) && queue != [] && OnlyLost(n0, n, t)
    ensures queue[0] in n && OnlyLost(n0, Detach(n, queue[0], t), t)
  {
    assert queue[0] in queue;
    DetachOnlyLost(n0, n, queue[0], t);
  }

  lemma QueueEmptyGone(n: Nodes, t: Tenant)
    requires Queued(n, [], t)
    ensures forall p :: !Holds(n, p, t)
  {
    forall p | Holds(n, p, t) ensures false {
      var leaf := HasLeaf(n, p, t);
    }
  }

  ghost function Removed(s: TreeVal, n: Nodes, t: Tenant): TreeVal {
    TreeVal(n, s.counts - {t}, s.epoch)
  }

  lemma OnlyLostOthers(n0: Nodes, n: Nodes, t: Tenant, o: Tenant)
    requires OnlyLost(n0, n, t) && o != t
    ensures LangKept(n0, n, o)
  {
    forall x ensures x in Lang(n, o) <==> x in Lang(n0, o) {
      LangMember(n, o, x);
      LangMember(n0, o, x);
      if x in Lang(n0, o) {
        var y :| Holds(n0, y, o) && x <= y;
        assert Holds(n, y, o);
      }
    }
  }

  lemma GoneLang(n: Nodes, t: Tenant)
    requires forall p :: !Holds(n, p, t)
    ensures Lang(n, t) == {}
  {
    forall x ensures x !in Lang(n, t) { LangMember(n, t, x); }
  }

  /** Once the queue is empty the tenant is gone without trace and no other tenant has changed. */
  lemma RemovalComplete(s: TreeVal, n: Nodes, t: Tenant)
    requires WF(s) && Queued(n, [], t) && OnlyLost(s.nodes, n, t)
    ensures WF(Removed(s, n, t)) && Lang(n, t) == {}
    ensures forall o {:trigger LangKept(s.nodes, n, o)} :: o != t ==> LangKept(s.nodes, n, o)
  {
    hide Linked, TenantClosed, Stamped, OnlyLost, Lang;
    QueueEmptyGone(n, t);
    GoneLang(n, t);
    forall o ensures o != t ==> LangKept(s.nodes, n, o) {
      if o != t { OnlyLostOthers(s.nodes, n, t, o); }
    }
    forall o ensures Tallied(Removed(s, n, t), o) {
      assert Tallied(s, o);
      if o != t { assert LangKept(s.nodes, n, o); }
    }
    OnlyLostCovered(s, n, t);
  }

  lemma OnlyLostCovered(s: TreeVal, n: Nodes, t: Tenant)
    requires WF(s) && Linked(n) && TenantClosed(n) && OnlyLost(s.nodes, n, t) && forall p :: !Holds(n, p, t)
    ensures forall p, o :: p != [] && Holds(n, p, o) ==> o in s.counts - {t}
    ensures forall o :: o in s.counts - {t} ==> Holds(n, [], o)
    ensures Stamped(Removed(s, n, t))
  {
    forall p | p in n ensures p in s.nodes.Keys {
      if p != [] {
        assert Inherits(n, p);
        var o :| o in n[p].tenants;
        assert Holds(n, p, o);
      }
    }
  }
}
