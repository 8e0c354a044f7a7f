/**
 Concurrent insertion.  A thread is an insertion in progress; one step of it is one atomic
 update of the source: entering the tenant at the root, opening its count, one iteration of
 the loop under the guard of the child entry it looks up, or the closing time stamp.
 Any number of threads step in any order over one tree.
 */
module RadixThreads {
  import opened Strings
  import opened RadixTree
  import opened RadixInsert

  datatype Phase = Fresh | Enrolled | Walking | Done

  datatype Thread = Thread(text: string, tenant: Tenant, phase: Phase, at: Path, remaining: string)

  function Begin(text: string, t: Tenant): Thread {
    Thread(text, t, Fresh, [], text)
  }

  /** What a thread may rely on between its steps, whatever the other threads do. */
  ghost predicate ThreadOK(s: TreeVal, th: Thread) {
    match th.phase
    case Fresh => th.at == [] && th.remaining == th.text
    case Enrolled => Holds(s.nodes, [], th.tenant) && th.at == [] && th.remaining == th.text
    case Walking =>
      Holds(s.nodes, th.at, th.tenant) && th.tenant in s.counts && th.at + th.remaining == th.text
    case Done => Holds(s.nodes, th.text, th.tenant)
  }

  // ---------- one step of one thread ----------

  /** The child met under the next character, and how much of its text is shared. */
  lemma MeetsChild(n: Nodes, q: Path, r: string)
    requires Linked(n) && q in n && r != [] && r[0] in n[q].children
    ensures var m := n[q].children[r[0]];
            && m in n && m != [] && n[m].parent == Some(q) && n[m].text.Valid()
            && q < m && n[m].text.str == m[|q|..]
            && 0 < Lcp(r, n[m].text.str) <= |n[m].text.str|
            && (Lcp(r, n[m].text.str) < |n[m].text.str| ==> Splittable(n, q, m, Lcp(r, n[m].text.str)))
  {
    var m := n[q].children[r[0]];
    assert Edge(n, q, r[0]) && Hangs(n, m);
  }

  ghost function Iterate(s: TreeVal, th: Thread): (TreeVal, Thread)
    requires Linked(s.nodes) && th.at in s.nodes && th.remaining != []
  {
    var q, r, t := th.at, th.remaining, th.tenant;
    if r[0] !in s.nodes[q].children then
      (AddLeaf(s, q, r, t), th.(phase := Done))
    else
      MeetsChild(s.nodes, q, r);
      var m := s.nodes[q].children[r[0]];
      var k := Lcp(r, s.nodes[m].text.str);
      if k < s.nodes[m].text.charCount then
        var split := s.(nodes := SplitNode(s.nodes, q, m, k));
        SplitMid(s.nodes, q, r, m, k);
        (Attach(split, q + r[..k], t), th.(at := q + r[..k], remaining := r[k..]))
      else
        (Attach(s, m, t), th.(at := m, remaining := r[k..]))
  }

  ghost function Step(s: TreeVal, th: Thread): (TreeVal, Thread)
    requires WF(s) && ThreadOK(s, th)
  {
    match th.phase
    case Fresh => (Enroll(s, th.tenant), th.(phase := Enrolled))
    case Enrolled => (OpenCount(s, th.tenant), th.(phase := Walking))
    case Walking =>
      if th.remaining == [] then (Touch(s, th.at, th.tenant), th.(phase := Done))
      else Iterate(s, th)
    case Done => (s, th)
  }

  lemma SplitMid(n: Nodes, q: Path, r: string, m: Path, k: nat)
    requires Splittable(n, q, m, k) && k <= |r| && r[..k] == n[m].text.str[..k]
    ensures |q| + k < |m| && q + r[..k] == m[..|q| + k]
    ensures q + r[..k] in SplitNode(n, q, m, k)
    ensures SplitNode(n, q, m, k)[q + r[..k]].parent == Some(q)
    ensures SplitNode(n, q, m, k)[q + r[..k]].tenants == n[m].tenants
    ensures SplitNode(n, q, m, k)[q].tenants == n[q].tenants
  {
    SplitShape(n, q, m, k);
    SplitTexts(n, q, m, k);
    assert Hangs(n, m);
    assert m[|q|..][..k] == m[|q|..|q| + k];
  }

  /** Holders and counted tenants only accumulate. */
  ghost predicate Grows(s: TreeVal, s': TreeVal) {
    && (forall p, o :: Holds(s.nodes, p, o) ==> Holds(s'.nodes, p, o))
    && s.counts.Keys <= s'.counts.Keys
  }

  /** How far the thread has carried its tenant. */
  function Reach(th: Thread): Path {
    if th.phase == Done then th.text else th.at
  }

  /** Steps a thread still needs. */
  function Rank(th: Thread): nat {
    match th.phase
    case Fresh => |th.text| + 3
    case Enrolled => |th.text| + 2
    case Walking => |th.remaining| + 1
    case Done => 0
  }

  /** A good step: every invariant kept, the tenant's language carried to where the thread now is. */
  ghost predicate GoodStep(s: TreeVal, th: Thread, s': TreeVal, th': Thread) {
    && WF(s') && ThreadOK(s', th') && Grows(s, s')
    && Gains(s.nodes, s'.nodes, th.tenant, Reach(th'))
    && th'.text == th.text && th'.tenant == th.tenant
    && th'.phase != Fresh && Rank(th') < Rank(th) && Reach(th) <= Reach(th')
  }

  lemma IterateLeaf(s: TreeVal, th: Thread)
    requires WF(s) && ThreadOK(s, th) && th.phase == Walking && th.remaining != []
    requires th.remaining[0] !in s.nodes[th.at].children
    ensures GoodStep(s, th, AddLeaf(s, th.at, th.remaining, th.tenant), th.(phase := Done))
  {
    AddLeafWF(s, th.at, th.remaining, th.tenant);
    AddLeafGrows(s, th.at, th.remaining, th.tenant);
  }

  lemma IterateFull(s: TreeVal, th: Thread, m: Path, k: nat)
    requires WF(s) && ThreadOK(s, th) && th.phase == Walking && th.remaining != []
    requires m in s.nodes && m != [] && s.nodes[m].parent == Some(th.at)
    requires 0 < k <= |th.remaining| && th.remaining[..k] == s.nodes[m].text.str
    ensures GoodStep(s, th, Attach(s, m, th.tenant), th.(at := m, remaining := th.remaining[k..]))
  {
    AttachWF(s, m, th.tenant);
    AttachGrows(s, m, th.tenant);
    var q, r := th.at, th.remaining;
    assert Hangs(s.nodes, m);
    assert m == q + r[..k];
    assert m + r[k..] == q + r;
  }

  lemma IterateSplit(s: TreeVal, th: Thread, m: Path, k: nat)
    requires WF(s) && ThreadOK(s, th) && th.phase == Walking && th.remaining != []
    requires Splittable(s.nodes, th.at, m, k) && k <= |th.remaining| && th.remaining[..k] == s.nodes[m].text.str[..k]
    ensures var n' := SplitNode(s.nodes, th.at, m, k);
            var mid := th.at + th.remaining[..k];
            && mid in n'
            && GoodStep(s, th, Attach(s.(nodes := n'), mid, th.tenant), th.(at := mid, remaining := th.remaining[k..]))
  {
    hide TenantClosed, Accounted, Stamped, Gains, Grows, SplitNode, Attach, Hangs, Edge;
    var q, r := th.at, th.remaining;
    var s1 := s.(nodes := SplitNode(s.nodes, q, m, k));
    SplitMid(s.nodes, q, r, m, k);
    SplitWF(s, q, m, k);
    SplitGrows(s, q, m, k);
    AttachAfter(s, s1, q + r[..k], q, th.tenant);
    assert r == r[..k] + r[k..];
  }

  lemma IterateKeeps(s: TreeVal, th: Thread)
    requires WF(s) && ThreadOK(s, th) && th.phase == Walking && th.remaining != []
    ensures GoodStep(s, th, Iterate(s, th).0, Iterate(s, th).1)
  {
    var q, r := th.at, th.remaining;
    if r[0] !in s.nodes[q].children {
      IterateLeaf(s, th);
    } else {
      MeetsChild(s.nodes, q, r);
      var m := s.nodes[q].children[r[0]];
      var k := Lcp(r, s.nodes[m].text.str);
      if k < s.nodes[m].text.charCount {
        IterateSplit(s, th, m, k);
      } else {
        IterateFull(s, th, m, k);
      }
    }
  }

  lemma StepFresh(s: TreeVal, th: Thread)
    requires WF(s) && ThreadOK(s, th) && th.phase == Fresh
    ensures GoodStep(s, th, Enroll(s, th.tenant), th.(phase := Enrolled))
  {
    EnrollWF(s, th.tenant);
    EnrollGrows(s, th.tenant);
  }

  lemma EnrollGrows(s: TreeVal, t: Tenant)
    requires [] in s.nodes
    ensures Grows(s, Enroll(s, t)) && Holds(Enroll(s, t).nodes, [], t)
  {}

  lemma StepEnrolled(s: TreeVal, th: Thread)
    requires WF(s) && ThreadOK(s, th) && th.phase == Enrolled
    ensures GoodStep(s, th, OpenCount(s, th.tenant), th.(phase := Walking))
  {
    OpenCountWF(s, th.tenant);
    HeldPrefixes(s.nodes, [], th.tenant);
  }

  lemma StepClosing(s: TreeVal, th: Thread)
    requires WF(s) && ThreadOK(s, th) && th.phase == Walking && th.remaining == []
    ensures GoodStep(s, th, Touch(s, th.at, th.tenant), th.(phase := Done))
  {
    TouchWF(s, th.at, th.tenant);
    TouchGains(s, th.at, th.tenant);
    StampHolds(s.nodes, Touch(s, th.at, th.tenant).nodes, th.at, th.tenant, s.epoch);
    assert th.text == th.at;
  }

  lemma StepKeeps(s: TreeVal, th: Thread)
    requires WF(s) && ThreadOK(s, th) && th.phase != Done
    ensures GoodStep(s, th, Step(s, th).0, Step(s, th).1)
  {
    match th.phase
    case Fresh => StepFresh(s, th);
    case Enrolled => StepEnrolled(s, th);
    case Walking => if th.remaining == [] { StepClosing(s, th); } else { IterateKeeps(s, th); }
  }

  lemma TouchGains(s: TreeVal, p: Path, t: Tenant)
    requires Holds(s.nodes, p, t)
    ensures Gains(s.nodes, Touch(s, p, t).nodes, t, p)
  {
    StampHolds(s.nodes, Touch(s, p, t).nodes, p, t, s.epoch);
    JoinGains(s.nodes, Touch(s, p, t).nodes, t, p);
  }

  lemma SplitGrows(s: TreeVal, q: Path, m: Path, k: nat)
    requires Splittable(s.nodes, q, m, k)
    ensures Grows(s, s.(nodes := SplitNode(s.nodes, q, m, k)))
  {
    SplitShape(s.nodes, q, m, k);
    SplitHolds(s.nodes, SplitNode(s.nodes, q, m, k), q, m, m[..|q| + k]);
  }

  lemma AttachAfter(s: TreeVal, s1: TreeVal, p: Path, q: Path, t: Tenant)
    requires WF(s1) && SameLangs(s.nodes, s1.nodes) && Grows(s, s1) && t in s.counts
    requires p in s1.nodes && p != [] && s1.nodes[p].parent == Some(q) && Holds(s.nodes, q, t)
    ensures var s' := Attach(s1, p, t);
            && WF(s') && Holds(s'.nodes, p, t) && t in s'.counts && Grows(s, s')
            && Gains(s.nodes, s'.nodes, t, p)
  {
    assert Holds(s1.nodes, q, t);
    AttachWF(s1, p, t);
    AttachGrows(s1, p, t);
    GainsAfterSame(s.nodes, s1.nodes, Attach(s1, p, t).nodes, t, p);
    GrowsTrans(s, s1, Attach(s1, p, t));
  }

  lemma GrowsTrans(s: TreeVal, s1: TreeVal, s2: TreeVal)
    requires Grows(s, s1) && Grows(s1, s2)
    ensures Grows(s, s2)
  {
    forall p, o | Holds(s.nodes, p, o) ensures Holds(s2.nodes, p, o) {
      assert Holds(s1.nodes, p, o);
    }
  }

  lemma GainsAfterSame(n: Nodes, n1: Nodes, n2: Nodes, t: Tenant, p: Path)
    requires SameLangs(n, n1) && Gains(n1, n2, t, p)
    ensures Gains(n, n2, t, p)
  {
    forall o ensures LangStep(n, n2, t, p, o) {
      assert LangKept(n, n1, o) && LangStep(n1, n2, t, p, o);
    }
  }

  lemma AddLeafGrows(s: TreeVal, q: Path, r: string, t: Tenant)
    requires Linked(s.nodes) && q in s.nodes && r != [] && r[0] !in s.nodes[q].children
    ensures Grows(s, AddLeaf(s, q, r, t)) && Holds(AddLeaf(s, q, r, t).nodes, q + r, t)
  {
    LeafShape(s, q, r, t);
  }

  lemma AttachGrows(s: TreeVal, p: Path, t: Tenant)
    requires p in s.nodes
    ensures Grows(s, Attach(s, p, t)) && Holds(Attach(s, p, t).nodes, p, t)
  {}

  // ---------- any number of threads, in any order ----------

  datatype System = System(tree: TreeVal, threads: seq<Thread>)

  ghost predicate SysOK(sys: System) {
    WF(sys.tree) && forall i :: 0 <= i < |sys.threads| ==> ThreadOK(sys.tree, sys.threads[i])
  }

  ghost predicate AllFresh(sys: System) {
    forall i :: 0 <= i < |sys.threads| ==> sys.threads[i].phase == Fresh
  }

  ghost predicate AllDone(sys: System) {
    forall i :: 0 <= i < |sys.threads| ==> sys.threads[i].phase == Done
  }

  ghost predicate ValidSchedule(schedule: seq<nat>, n: nat) {
    forall j :: 0 <= j < |schedule| ==> schedule[j] < n
  }

  lemma GrowthUndisturbed(s: TreeVal, s': TreeVal, th: Thread)
    requires ThreadOK(s, th) && Grows(s, s')
    ensures ThreadOK(s', th)
  {}

  /** Whatever step one thread takes, a split included, every other thread still stands where it stood. */
  lemma OthersUndisturbed(s: TreeVal, th: Thread, other: Thread)
    requires WF(s) && ThreadOK(s, th) && th.phase != Done && ThreadOK(s, other)
    ensures ThreadOK(Step(s, th).0, other)
  {
    hide WF, Step, ThreadOK, Grows;
    StepKeeps(s, th);
    GrowthUndisturbed(s, Step(s, th).0, other);
  }

  /** Thread `i` takes one step. */
  ghost function Turn(sys: System, i: nat): (r: System)
    requires SysOK(sys) && i < |sys.threads|
    ensures SysOK(r) && |r.threads| == |sys.threads|
  {
    var (s', th') := Step(sys.tree, sys.threads[i]);
    var r := System(s', sys.threads[i := th']);
    assert SysOK(r) by {
      if sys.threads[i].phase != Done {
        StepKeeps(sys.tree, sys.threads[i]);
        forall j | 0 <= j < |r.threads| ensures ThreadOK(r.tree, r.threads[j]) {
          if j != i { GrowthUndisturbed(sys.tree, s', sys.threads[j]); }
        }
      }
    }
    r
  }

  ghost function Run(sys: System, schedule: seq<nat>): (r: System)
    requires SysOK(sys) && ValidSchedule(schedule, |sys.threads|)
    ensures SysOK(r) && |r.threads| == |sys.threads|
  {
    if schedule == [] then sys
    else Turn(Run(sys, schedule[..|schedule| - 1]), schedule[|schedule| - 1])
  }

  /** Some thread of tenant `t` has carried it at least as far as `x`. */
  ghost predicate Carried(sys: System, t: Tenant, x: string) {
    exists i :: 0 <= i < |sys.threads| && CarriedBy(sys.threads[i], t, x)
  }

  ghost predicate CarriedBy(th: Thread, t: Tenant, x: string) {
    th.tenant == t && th.phase != Fresh && x <= Reach(th)
  }

  /** Every language is what it was, plus what the threads have carried so far. */
  ghost predicate Explained(start: TreeVal, sys: System, t: Tenant, x: string) {
    x in Lang(sys.tree.nodes, t) <==> x in Lang(start.nodes, t) || Carried(sys, t, x)
  }

  lemma TurnCarries(sys: System, i: nat, t: Tenant, x: string)
    requires SysOK(sys) && i < |sys.threads| && sys.threads[i].phase != Done
    ensures Carried(Turn(sys, i), t, x) <==> Carried(sys, t, x) || CarriedBy(Turn(sys, i).threads[i], t, x)
  {
    var r := Turn(sys, i);
    StepKeeps(sys.tree, sys.threads[i]);
    if Carried(sys, t, x) {
      var j :| 0 <= j < |sys.threads| && CarriedBy(sys.threads[j], t, x);
      assert CarriedBy(r.threads[j], t, x);
    }
    if Carried(r, t, x) {
      var j :| 0 <= j < |r.threads| && CarriedBy(r.threads[j], t, x);
      assert j == i || CarriedBy(sys.threads[j], t, x);
    }
  }

  lemma TurnExplains(start: TreeVal, sys: System, i: nat, t: Tenant, x: string)
    requires SysOK(sys) && i < |sys.threads| && Explained(start, sys, t, x)
    ensures Explained(start, Turn(sys, i), t, x)
  {
    var th, r := sys.threads[i], Turn(sys, i);
    if th.phase == Done {
      assert r.threads == sys.threads;
    } else {
      StepKeeps(sys.tree, th);
      TurnCarries(sys, i, t, x);
      assert LangStep(sys.tree.nodes, r.tree.nodes, th.tenant, Reach(r.threads[i]), t);
      PrefixesMember(Reach(r.threads[i]), x);
    }
  }

  /**
   At every point of every interleaving each tenant's language is exactly what it was at the
   start plus what its insertions have carried so far.  (That every point is well-formed and
   fully accounted for is the postcondition of `Run`.)
   */
  lemma {:induction false} RunExplains(sys: System, schedule: seq<nat>, t: Tenant, x: string)
    requires SysOK(sys) && AllFresh(sys) && ValidSchedule(schedule, |sys.threads|)
    ensures Explained(sys.tree, Run(sys, schedule), t, x)
    decreases |schedule|
  {
    if schedule != [] {
      var before := schedule[..|schedule| - 1];
      RunExplains(sys, before, t, x);
      TurnExplains(sys.tree, Run(sys, before), schedule[|schedule| - 1], t, x);
    }
  }

  /** A thread's text and tenant never change. */
  lemma TurnLowersRank(sys: System, j: nat, i: nat)
    requires SysOK(sys) && j < |sys.threads| && i < |sys.threads|
    ensures Rank(Turn(sys, j).threads[i]) <= Rank(sys.threads[i])
    ensures i == j ==> Rank(Turn(sys, j).threads[i]) < Rank(sys.threads[i]) || Rank(sys.threads[i]) == 0
    ensures Turn(sys, j).threads[i].text == sys.threads[i].text
    ensures Turn(sys, j).threads[i].tenant == sys.threads[i].tenant
  {
    if sys.threads[j].phase != Done { StepKeeps(sys.tree, sys.threads[j]); }
  }

  lemma {:induction false} RunKeepsJobs(sys: System, schedule: seq<nat>, i: nat)
    requires SysOK(sys) && ValidSchedule(schedule, |sys.threads|) && i < |sys.threads|
    ensures Run(sys, schedule).threads[i].text == sys.threads[i].text
    ensures Run(sys, schedule).threads[i].tenant == sys.threads[i].tenant
    decreases |schedule|
  {
    hide Turn, WF;
    if schedule != [] {
      var before, last := schedule[..|schedule| - 1], schedule[|schedule| - 1];
      RunKeepsJobs(sys, before, i);
      TurnLowersRank(Run(sys, before), last, i);
    }
  }

  /** When all insertions have finished, a tenant has gained the prefixes of its texts and nothing else. */
  lemma InterleavedInserts(sys: System, schedule: seq<nat>, t: Tenant, x: string)
    requires SysOK(sys) && AllFresh(sys) && ValidSchedule(schedule, |sys.threads|)
    requires AllDone(Run(sys, schedule))
    ensures x in Lang(Run(sys, schedule).tree.nodes, t) <==>
              x in Lang(sys.tree.nodes, t) ||
              exists i :: 0 <= i < |sys.threads| && sys.threads[i].tenant == t && x <= sys.threads[i].text
  {
    var r := Run(sys, schedule);
    RunExplains(sys, schedule, t, x);
    forall i | 0 <= i < |sys.threads|
      ensures CarriedBy(r.threads[i], t, x) <==> sys.threads[i].tenant == t && x <= sys.threads[i].text
    {
      RunKeepsJobs(sys, schedule, i);
    }
  }

  /** The order of the steps leaves no trace in the languages or the counts. */
  lemma ScheduleIrrelevant(sys: System, one: seq<nat>, two: seq<nat>, t: Tenant)
    requires SysOK(sys) && AllFresh(sys)
    requires ValidSchedule(one, |sys.threads|) && ValidSchedule(two, |sys.threads|)
    requires AllDone(Run(sys, one)) && AllDone(Run(sys, two))
    ensures Lang(Run(sys, one).tree.nodes, t) == Lang(Run(sys, two).tree.nodes, t)
    ensures Count(Run(sys, one).tree.counts, t) == Count(Run(sys, two).tree.counts, t)
  {
    hide Run, Lang, Linked, TenantClosed, Stamped, ThreadOK;
    forall x ensures x in Lang(Run(sys, one).tree.nodes, t) <==> x in Lang(Run(sys, two).tree.nodes, t) {
      InterleavedInserts(sys, one, t, x);
      InterleavedInserts(sys, two, t, x);
    }
    assert Tallied(Run(sys, one).tree, t) && Tallied(Run(sys, two).tree, t);
  }

  // ---------- one insertion from start to end ----------

  ghost function Finish(s: TreeVal, th: Thread): TreeVal
    requires WF(s) && ThreadOK(s, th)
    decreases Rank(th)
  {
    if th.phase == Done then s
    else
      StepKeeps(s, th);
      Finish(Step(s, th).0, Step(s, th).1)
  }

  lemma GainsTrans(n: Nodes, n1: Nodes, n2: Nodes, t: Tenant, p: Path, q: Path)
    requires Gains(n, n1, t, p) && Gains(n1, n2, t, q) && p <= q
    ensures Gains(n, n2, t, q)
  {
    forall o ensures LangStep(n, n2, t, q, o) {
      assert LangStep(n, n1, t, p, o) && LangStep(n1, n2, t, q, o);
      forall x | x in Prefixes(p) ensures x in Prefixes(q) {
        PrefixesMember(p, x);
        PrefixesMember(q, x);
      }
    }
  }

  /** The step that ends an insertion gives the end of the text the latest access time of its tenant. */
  lemma FinishIsNewest(s: TreeVal, th: Thread)
    requires WF(s) && ThreadOK(s, th) && th.phase == Walking && Step(s, th).1.phase == Done
    ensures NewestAt(Step(s, th).0.nodes, th.text, th.tenant)
  {
    hide TenantClosed, Accounted, Hangs, Edge;
    var s', t := Step(s, th).0, th.tenant;
    if th.remaining == [] {
      assert th.at == th.text;
      StampHolds(s.nodes, s'.nodes, th.at, t, s.epoch);
    } else {
      LeafShape(s, th.at, th.remaining, t);
    }
    forall p | !(p <= th.text) && Holds(s'.nodes, p, t)
      ensures s'.nodes[p].tenants[t] < s'.nodes[th.text].tenants[t]
    {
      assert Holds(s.nodes, p, t);
      assert p in s.nodes.Keys;
    }
  }

  /** Insertion adds exactly the prefixes of the text, for this tenant only, and leaves them newest. */
  lemma {:induction false} FinishMeaning(s: TreeVal, th: Thread)
    requires WF(s) && ThreadOK(s, th) && th.phase != Done
    ensures WF(Finish(s, th)) && Gains(s.nodes, Finish(s, th).nodes, th.tenant, th.text)
    ensures NewestAt(Finish(s, th).nodes, th.text, th.tenant)
    ensures th.tenant in Finish(s, th).counts
    decreases Rank(th)
  {
    StepKeeps(s, th);
    var (s', th') := Step(s, th);
    if th'.phase == Done {
      FinishIsNewest(s, th);
    } else {
      FinishMeaning(s', th');
      GainsTrans(s.nodes, s'.nodes, Finish(s', th').nodes, th.tenant, Reach(th'), th.text);
    }
  }
}
