/**
 What other tenants do to a text that was accessed last: their insertions, alone or racing, may
 split its node, but the copies a split makes lie on the way to it.
 */
module RadixRecency {
  import opened Strings
  import opened RadixTree
  import opened RadixInsert
  import opened RadixThreads

  /** Every access time of `t` in `n'` is one that `n` has there or further down. */
  ghost predicate Copied(n: Nodes, n': Nodes, p: Path, t: Tenant)
    requires Holds(n', p, t)
  {
    exists m :: Holds(n, m, t) && p <= m && n'[p].tenants[t] == n[m].tenants[t]
  }

  ghost predicate StampsStay(n: Nodes, n': Nodes, t: Tenant) {
    && (forall p :: Holds(n, p, t) ==> Holds(n', p, t) && n'[p].tenants[t] == n[p].tenants[t])
    && (forall p {:trigger Copied(n, n', p, t)} :: Holds(n', p, t) ==> Copied(n, n', p, t))
  }

  lemma StaysNewest(n: Nodes, n': Nodes, text: Path, t: Tenant)
    requires NewestAt(n, text, t) && StampsStay(n, n', t)
    ensures NewestAt(n', text, t)
  {
    forall p | !(p <= text) && Holds(n', p, t) ensures n'[p].tenants[t] < n'[text].tenants[t] {
      assert Copied(n, n', p, t);
      var m :| Holds(n, m, t) && p <= m && n'[p].tenants[t] == n[m].tenants[t];
      assert !(m <= text);
    }
  }

  lemma SameStamps(n: Nodes, n': Nodes, t: Tenant)
    requires forall p :: Holds(n', p, t) ==> Holds(n, p, t)
    requires forall p :: Holds(n, p, t) ==> Holds(n', p, t) && n'[p].tenants[t] == n[p].tenants[t]
    ensures StampsStay(n, n', t)
  {
    forall p | Holds(n', p, t) ensures Copied(n, n', p, t) { assert Holds(n, p, t) && p <= p; }
  }

  lemma StampStays(n: Nodes, n': Nodes, p: Path, u: Tenant, ts: nat, t: Tenant)
    requires IsStamp(n, n', p, u, ts) && u != t
    ensures StampsStay(n, n', t)
  {
    SameStamps(n, n', t);
  }

  lemma LeafStays(n: Nodes, n': Nodes, q: Path, p: Path, u: Tenant, ts: nat, t: Tenant)
    requires IsLeafAdd(n, n', q, p, u, ts) && u != t
    ensures StampsStay(n, n', t)
  {
    SameStamps(n, n', t);
  }

  /** The new node of a split has the access times of the node below it. */
  lemma SplitStays(n: Nodes, n': Nodes, q: Path, m: Path, mid: Path, t: Tenant)
    requires IsSplit(n, n', q, m, mid)
    ensures StampsStay(n, n', t)
  {
    SplitHolds(n, n', q, m, mid);
    forall p | Holds(n', p, t) ensures Copied(n, n', p, t) {
      var from := if p == mid then m else p;
      assert Holds(n, from, t) && p <= from;
    }
  }

  lemma AttachStays(s: TreeVal, p: Path, u: Tenant, t: Tenant)
    requires p in s.nodes && u != t
    ensures StampsStay(s.nodes, Attach(s, p, u).nodes, t)
  {
    SameStamps(s.nodes, Attach(s, p, u).nodes, t);
  }

  lemma IterateKeepsNewest(s: TreeVal, th: Thread, text: Path, t: Tenant)
    requires WF(s) && ThreadOK(s, th) && th.phase == Walking && th.remaining != [] && th.tenant != t
    requires NewestAt(s.nodes, text, t)
    ensures NewestAt(Iterate(s, th).0.nodes, text, t)
  {
    hide NewestAt, StampsStay, Accounted, Stamped, TenantClosed;
    var n, q, r, u := s.nodes, th.at, th.remaining, th.tenant;
    if r[0] !in n[q].children {
      LeafShape(s, q, r, u);
      LeafStays(n, AddLeaf(s, q, r, u).nodes, q, q + r, u, s.epoch, t);
      StaysNewest(n, AddLeaf(s, q, r, u).nodes, text, t);
    } else {
      MeetsChild(n, q, r);
      var m := n[q].children[r[0]];
      var k := Lcp(r, n[m].text.str);
      if k < n[m].text.charCount {
        SplitMid(n, q, r, m, k);
        SplitShape(n, q, m, k);
        var split := s.(nodes := SplitNode(n, q, m, k));
        SplitStays(n, split.nodes, q, m, m[..|q| + k], t);
        StaysNewest(n, split.nodes, text, t);
        AttachStays(split, q + r[..k], u, t);
        StaysNewest(split.nodes, Attach(split, q + r[..k], u).nodes, text, t);
      } else {
        AttachStays(s, m, u, t);
        StaysNewest(n, Attach(s, m, u).nodes, text, t);
      }
    }
  }

  /** No step of another tenant's insertion makes the text less recent. */
  lemma StepKeepsNewest(s: TreeVal, th: Thread, text: Path, t: Tenant)
    requires WF(s) && ThreadOK(s, th) && th.tenant != t && NewestAt(s.nodes, text, t)
    ensures NewestAt(Step(s, th).0.nodes, text, t)
  {
    hide NewestAt, StampsStay, Accounted, Stamped, TenantClosed, Iterate;
    var n, u := s.nodes, th.tenant;
    match th.phase
    case Fresh =>
      if u !in n[[]].tenants {
        StampStays(n, Stamp(n, [], u, 0), [], u, 0, t);
        StaysNewest(n, Stamp(n, [], u, 0), text, t);
      }
    case Enrolled =>
    case Walking =>
      if th.remaining == [] {
        StampStays(n, Stamp(n, th.at, u, s.epoch), th.at, u, s.epoch, t);
        StaysNewest(n, Stamp(n, th.at, u, s.epoch), text, t);
      } else {
        IterateKeepsNewest(s, th, text, t);
      }
    case Done =>
  }

  /** The tenant is counted, and the text, if it has any characters, is its latest. */
  ghost predicate Recent(s: TreeVal, text: Path, t: Tenant) {
    t in s.counts && (text != [] ==> NewestAt(s.nodes, text, t))
  }

  lemma RecentHeld(s: TreeVal, text: Path, t: Tenant)
    requires WF(s) && Recent(s, text, t)
    ensures text in Lang(s.nodes, t)
  {
    LangMember(s.nodes, t, text);
    assert Holds(s.nodes, text, t) && text <= text;
  }

  lemma StepKeepsRecent(s: TreeVal, th: Thread, text: Path, t: Tenant)
    requires WF(s) && ThreadOK(s, th) && th.tenant != t && Recent(s, text, t)
    ensures Recent(Step(s, th).0, text, t)
  {
    hide WF, ThreadOK, NewestAt;
    if text != [] { StepKeepsNewest(s, th, text, t); }
    if th.phase != Done { StepKeeps(s, th); }
  }

  lemma {:induction false} FinishKeepsRecent(s: TreeVal, th: Thread, text: Path, t: Tenant)
    requires WF(s) && ThreadOK(s, th) && th.tenant != t && Recent(s, text, t)
    ensures Recent(Finish(s, th), text, t)
    decreases Rank(th)
  {
    hide WF, ThreadOK, Recent, Step;
    if th.phase != Done {
      StepKeeps(s, th);
      StepKeepsRecent(s, th, text, t);
      FinishKeepsRecent(Step(s, th).0, Step(s, th).1, text, t);
    }
  }

  // ---------- races ----------

  lemma {:induction false} RaceKeepsRecent(sys: System, schedule: seq<nat>, text: Path, t: Tenant)
    requires SysOK(sys) && ValidSchedule(schedule, |sys.threads|) && Recent(sys.tree, text, t)
    requires forall i :: 0 <= i < |sys.threads| ==> sys.threads[i].tenant != t
    ensures Recent(Run(sys, schedule).tree, text, t)
    decreases |schedule|
  {
    hide WF, ThreadOK, Recent, Step;
    if schedule != [] {
      var before, last := schedule[..|schedule| - 1], schedule[|schedule| - 1];
      RaceKeepsRecent(sys, before, text, t);
      RunKeepsJobs(sys, before, last);
      var mid := Run(sys, before);
      StepKeepsRecent(mid.tree, mid.threads[last], text, t);
    }
  }

  /** The step that finishes an insertion makes its text recent. */
  lemma LastStepRecent(s: TreeVal, th: Thread)
    requires WF(s) && ThreadOK(s, th) && th.phase != Done && Step(s, th).1.phase == Done
    ensures Recent(Step(s, th).0, th.text, th.tenant)
  {
    hide WF, NewestAt;
    StepKeeps(s, th);
    FinishIsNewest(s, th);
  }

  /** Thread `i` races only insertions of other tenants: once it has finished, its text is and stays recent. */
  lemma {:induction false} RacerIsRecent(sys: System, schedule: seq<nat>, i: nat)
    requires SysOK(sys) && ValidSchedule(schedule, |sys.threads|) && i < |sys.threads| && sys.threads[i].phase != Done
    requires forall j :: 0 <= j < |sys.threads| && j != i ==> sys.threads[j].tenant != sys.threads[i].tenant
    ensures Run(sys, schedule).threads[i].phase == Done ==>
              Recent(Run(sys, schedule).tree, sys.threads[i].text, sys.threads[i].tenant)
    decreases |schedule|
  {
    hide WF, ThreadOK, Recent, Step;
    if schedule != [] {
      var before, last := schedule[..|schedule| - 1], schedule[|schedule| - 1];
      var mid := Run(sys, before);
      RacerIsRecent(sys, before, i);
      RunKeepsJobs(sys, before, i);
      RunKeepsJobs(sys, before, last);
      RacerTurn(mid, last, i);
    }
  }

  lemma RacerTurn(sys: System, j: nat, i: nat)
    requires SysOK(sys) && i < |sys.threads| && j < |sys.threads|
    requires j != i ==> sys.threads[j].tenant != sys.threads[i].tenant
    requires sys.threads[i].phase == Done ==> Recent(sys.tree, sys.threads[i].text, sys.threads[i].tenant)
    ensures Turn(sys, j).threads[i].phase == Done ==>
              Recent(Turn(sys, j).tree, sys.threads[i].text, sys.threads[i].tenant)
  {
    hide WF, ThreadOK, Recent;
    if sys.threads[i].phase == Done {
      if j != i { StepKeepsRecent(sys.tree, sys.threads[j], sys.threads[i].text, sys.threads[i].tenant); }
    } else if j == i && Turn(sys, j).threads[i].phase == Done {
      LastStepRecent(sys.tree, sys.threads[i]);
    }
  }

  // ---------- the access times of an insertion ----------

  /** An access time is zero, or one the tenant had before, there or further down. */
  ghost predicate FromBefore(n: Nodes, n': Nodes, p: Path, o: Tenant)
    requires Holds(n', p, o)
  {
    n'[p].tenants[o] == 0 || Copied(n, n', p, o)
  }

  /** Except at one place, the access times of `o` stay, and new ones are zero or copies. */
  ghost predicate Quiet(n: Nodes, n': Nodes, o: Tenant, but: Option<Path>) {
    && (forall p :: but != Some(p) && Holds(n, p, o) ==> Holds(n', p, o) && n'[p].tenants[o] == n[p].tenants[o])
    && (forall p {:trigger FromBefore(n, n', p, o)} :: but != Some(p) && Holds(n', p, o) ==> FromBefore(n, n', p, o))
  }

  lemma QuietTrans(n: Nodes, n1: Nodes, n2: Nodes, o: Tenant, but: Option<Path>)
    requires Quiet(n, n1, o, None) && Quiet(n1, n2, o, but)
    ensures Quiet(n, n2, o, but)
  {
    forall p | but != Some(p) && Holds(n2, p, o) ensures FromBefore(n, n2, p, o) {
      assert FromBefore(n1, n2, p, o);
      if n2[p].tenants[o] != 0 {
        var m :| Holds(n1, m, o) && p <= m && n2[p].tenants[o] == n1[m].tenants[o];
        assert FromBefore(n, n1, m, o);
        var m' :| Holds(n, m', o) && m <= m' && n1[m].tenants[o] == n[m'].tenants[o];
        assert p <= m';
      }
    }
  }

  /** Where nothing is new nothing has to be explained. */
  lemma SameQuiet(n: Nodes, n': Nodes, o: Tenant, but: Option<Path>)
    requires forall p :: but != Some(p) && Holds(n', p, o) ==> Holds(n, p, o)
    requires forall p :: but != Some(p) && Holds(n, p, o) ==> Holds(n', p, o) && n'[p].tenants[o] == n[p].tenants[o]
    ensures Quiet(n, n', o, but)
  {
    forall p | but != Some(p) && Holds(n', p, o) ensures FromBefore(n, n', p, o) { assert Holds(n, p, o) && p <= p; }
  }

  lemma StampQuiet(n: Nodes, n': Nodes, p: Path, t: Tenant, ts: nat, o: Tenant)
    requires IsStamp(n, n', p, t, ts)
    ensures Quiet(n, n', o, if o == t then Some(p) else None)
  {
    hide Quiet;
    StampHolds(n, n', p, t, ts);
    SameQuiet(n, n', o, if o == t then Some(p) else None);
  }

  /** A tenant that comes to a node without an access time. */
  lemma ZeroQuiet(n: Nodes, n': Nodes, p: Path, t: Tenant, o: Tenant)
    requires IsStamp(n, n', p, t, 0) && !Holds(n, p, t)
    ensures Quiet(n, n', o, None)
  {
    hide Copied;
    StampQuiet(n, n', p, t, 0, o);
    forall x | Holds(n', x, o) ensures FromBefore(n, n', x, o) {
      if x == p && o == t { assert n'[x].tenants[o] == 0; }
    }
  }

  lemma LeafQuiet(n: Nodes, n': Nodes, q: Path, p: Path, t: Tenant, ts: nat, o: Tenant)
    requires IsLeafAdd(n, n', q, p, t, ts)
    ensures Quiet(n, n', o, if o == t then Some(p) else None)
  {
    hide Quiet;
    SameQuiet(n, n', o, if o == t then Some(p) else None);
  }

  lemma SplitQuiet(n: Nodes, n': Nodes, q: Path, m: Path, mid: Path, o: Tenant)
    requires IsSplit(n, n', q, m, mid)
    ensures Quiet(n, n', o, None)
  {
    SplitStays(n, n', q, m, mid, o);
    forall x | Holds(n', x, o) ensures FromBefore(n, n', x, o) { assert Copied(n, n', x, o); }
  }

  lemma AttachQuiet(s: TreeVal, p: Path, t: Tenant, o: Tenant)
    requires p in s.nodes
    ensures Quiet(s.nodes, Attach(s, p, t).nodes, o, None)
  {
    if t in s.nodes[p].tenants {
      SameQuiet(s.nodes, s.nodes, o, None);
    } else {
      ZeroQuiet(s.nodes, Attach(s, p, t).nodes, p, t, o);
    }
  }

  /** A step that goes on is quiet; the one that ends the insertion gives the text the epoch it draws. */
  ghost predicate StepTimes(s: TreeVal, th: Thread, s': TreeVal, th': Thread, o: Tenant) {
    if th'.phase != Done then Quiet(s.nodes, s'.nodes, o, None) && s'.epoch == s.epoch
    else
      && Quiet(s.nodes, s'.nodes, o, if o == th.tenant then Some(th.text) else None)
      && s'.epoch == s.epoch + 1
      && Holds(s'.nodes, th.text, th.tenant) && s'.nodes[th.text].tenants[th.tenant] == s.epoch
  }

  lemma IterateTimes(s: TreeVal, th: Thread, o: Tenant)
    requires WF(s) && ThreadOK(s, th) && th.phase == Walking && th.remaining != []
    ensures StepTimes(s, th, Iterate(s, th).0, Iterate(s, th).1, o)
  {
    hide Quiet, Accounted, Stamped, TenantClosed, Hangs, Edge, SplitNode;
    var n, q, r, u := s.nodes, th.at, th.remaining, th.tenant;
    if r[0] !in n[q].children {
      LeafShape(s, q, r, u);
      LeafQuiet(n, AddLeaf(s, q, r, u).nodes, q, th.text, u, s.epoch, o);
    } else {
      MeetsChild(n, q, r);
      var m := n[q].children[r[0]];
      var k := Lcp(r, n[m].text.str);
      if k < n[m].text.charCount {
        SplitMid(n, q, r, m, k);
        SplitShape(n, q, m, k);
        var split := s.(nodes := SplitNode(n, q, m, k));
        SplitQuiet(n, split.nodes, q, m, m[..|q| + k], o);
        AttachQuiet(split, q + r[..k], u, o);
        QuietTrans(n, split.nodes, Attach(split, q + r[..k], u).nodes, o, None);
      } else {
        AttachQuiet(s, m, u, o);
      }
    }
  }

  lemma StepTime(s: TreeVal, th: Thread, o: Tenant)
    requires WF(s) && ThreadOK(s, th) && th.phase != Done
    ensures StepTimes(s, th, Step(s, th).0, Step(s, th).1, o)
  {
    hide Quiet, Accounted, Stamped, TenantClosed, Hangs, Edge, Iterate;
    var n, u := s.nodes, th.tenant;
    match th.phase
    case Fresh =>
      SameQuiet(n, n, o, None);
      if u !in n[[]].tenants { ZeroQuiet(n, Stamp(n, [], u, 0), [], u, o); }
    case Enrolled => SameQuiet(n, n, o, None);
    case Walking =>
      if th.remaining == [] {
        assert th.at == th.text;
        StampQuiet(n, Stamp(n, th.at, u, s.epoch), th.at, u, s.epoch, o);
      } else {
        IterateTimes(s, th, o);
      }
  }

  /**
   Of all access times an insertion sets one: the text gets the epoch it draws.  All others stay; where
   the tenant newly passes, the time is zero, and where an edge is split, the upper part has the times
   of the lower.
   */
  lemma {:induction false} InsertTimes(s: TreeVal, th: Thread, o: Tenant)
    requires WF(s) && ThreadOK(s, th) && th.phase != Done
    ensures StepTimes(s, th, Finish(s, th), th.(phase := Done), o)
    decreases Rank(th)
  {
    hide WF, ThreadOK, Quiet, Step;
    StepKeeps(s, th);
    StepTime(s, th, o);
    var (s', th') := Step(s, th);
    if th'.phase != Done {
      InsertTimes(s', th', o);
      QuietTrans(s.nodes, s'.nodes, Finish(s, th).nodes, o, if o == th.tenant then Some(th.text) else None);
    }
  }
}
