/**
 Whom a match answers with.  Every node remembers a tenant; the node on whose edge a matched
 prefix ends decides, so what matters is what is remembered there.
 */
module RadixAffinity {
  import opened Strings
  import opened RadixTree
  import opened RadixInsert
  import opened RadixThreads
  import opened RadixMatch
  import opened RadixDetach
  import opened RadixEvict
  import opened RadixRemove
  import opened RadixWalk
  import opened RadixHistory

  /** `q` ends on the edge into the node at `m`. */
  ghost predicate EndsOn(n: Nodes, m: Path, q: string) {
    m in n && q <= m && (n[m].parent.Some? ==> |n[m].parent.value| < |q|)
  }

  ghost predicate AnswersAt(n: Nodes, m: Path, q: string, a: Tenant) {
    EndsOn(n, m, q) && n[m].last == Some(a) && a in n[m].tenants
  }

  /** Where `q` ends, `a` is remembered and present. */
  ghost predicate Answers(n: Nodes, q: string, a: Tenant) {
    exists m :: AnswersAt(n, m, q, a)
  }

  /** Nobody holds `q`. */
  ghost predicate Unheld(n: Nodes, q: string) {
    forall o :: q !in Lang(n, o)
  }

  // ---------- one node decides ----------

  lemma EndsOnUnique(n: Nodes, m: Path, m': Path, q: string)
    requires Linked(n) && q != [] && EndsOn(n, m, q) && EndsOn(n, m', q)
    ensures m == m'
  {
    assert Hangs(n, m) && Hangs(n, m');
    if |n[m].parent.value| <= |n[m'].parent.value| {
      OneEdgeOrdered(n, m, m', q);
    } else {
      OneEdgeOrdered(n, m', m, q);
    }
  }

  /** Above any node that extends `q` there is the one on whose edge `q` ends. */
  lemma {:induction false} EdgeAbove(n: Nodes, p: Path, q: string) returns (m: Path)
    requires Linked(n) && p in n && q != [] && q <= p
    ensures EndsOn(n, m, q) && m <= p
    decreases |p|
  {
    assert Hangs(n, p);
    var u := n[p].parent.value;
    if |u| < |q| {
      m := p;
    } else {
      PrefixesCompare(q, u, p);
      m := EdgeAbove(n, u, q);
    }
  }

  /** A match that ends where `a` is remembered answers with `a`. */
  lemma MatchAnswers(s: TreeVal, end: Path, x: string, k: nat, u: Tenant, a: Tenant)
    requires WF(s) && end in s.nodes && Decides(s.nodes[end], end, x, k) && k > 0 && Picks(s.nodes[end], u)
    requires Answers(s.nodes, x[..k], a)
    ensures u == a
  {
    var m :| AnswersAt(s.nodes, m, x[..k], a);
    EndsOnUnique(s.nodes, m, end, x[..k]);
  }

  // ---------- insertions, whoever's ----------

  lemma StampAnswers(n: Nodes, n': Nodes, p: Path, u: Tenant, ts: nat, q: string, a: Tenant)
    requires IsStamp(n, n', p, u, ts) && Answers(n, q, a)
    ensures Answers(n', q, a)
  {
    var m :| AnswersAt(n, m, q, a);
    assert AnswersAt(n', m, q, a);
  }

  lemma LeafAnswers(n: Nodes, n': Nodes, at: Path, p: Path, u: Tenant, ts: nat, q: string, a: Tenant)
    requires IsLeafAdd(n, n', at, p, u, ts) && Answers(n, q, a)
    ensures Answers(n', q, a)
  {
    var m :| AnswersAt(n, m, q, a);
    assert AnswersAt(n', m, q, a);
  }

  lemma AttachAnswers(s: TreeVal, p: Path, u: Tenant, q: string, a: Tenant)
    requires p in s.nodes && Answers(s.nodes, q, a)
    ensures Answers(Attach(s, p, u).nodes, q, a)
  {
    var m :| AnswersAt(s.nodes, m, q, a);
    assert AnswersAt(Attach(s, p, u).nodes, m, q, a);
  }

  /** The upper part of a split remembers what the whole did. */
  lemma SplitAnswers(n: Nodes, n': Nodes, u: Path, below: Path, mid: Path, q: string, a: Tenant)
    requires IsSplit(n, n', u, below, mid) && Answers(n, q, a)
    ensures Answers(n', q, a)
  {
    var m :| AnswersAt(n, m, q, a);
    if m == below && |q| <= |mid| {
      PrefixesCompare(q, mid, below);
      assert AnswersAt(n', mid, q, a);
    } else {
      assert AnswersAt(n', m, q, a);
    }
  }

  lemma IterateAnswers(s: TreeVal, th: Thread, q: string, a: Tenant)
    requires WF(s) && ThreadOK(s, th) && th.phase == Walking && th.remaining != [] && Answers(s.nodes, q, a)
    ensures Answers(Iterate(s, th).0.nodes, q, a)
  {
    hide Answers, Accounted, Stamped, TenantClosed;
    var n, p, r, u := s.nodes, th.at, th.remaining, th.tenant;
    if r[0] !in n[p].children {
      LeafShape(s, p, r, u);
      LeafAnswers(n, AddLeaf(s, p, r, u).nodes, p, p + r, u, s.epoch, q, a);
    } else {
      MeetsChild(n, p, r);
      var m := n[p].children[r[0]];
      var k := Lcp(r, n[m].text.str);
      if k < n[m].text.charCount {
        SplitMid(n, p, r, m, k);
        SplitShape(n, p, m, k);
        var split := s.(nodes := SplitNode(n, p, m, k));
        SplitAnswers(n, split.nodes, p, m, m[..|p| + k], q, a);
        AttachAnswers(split, p + r[..k], u, q, a);
      } else {
        AttachAnswers(s, m, u, q, a);
      }
    }
  }

  /** No step of any insertion, of whatever tenant, changes whom a prefix is answered with. */
  lemma StepAnswers(s: TreeVal, th: Thread, q: string, a: Tenant)
    requires WF(s) && ThreadOK(s, th) && Answers(s.nodes, q, a)
    ensures Answers(Step(s, th).0.nodes, q, a)
  {
    hide Answers, Accounted, Stamped, TenantClosed, Iterate;
    var n, u := s.nodes, th.tenant;
    match th.phase
    case Fresh => if u !in n[[]].tenants { StampAnswers(n, Stamp(n, [], u, 0), [], u, 0, q, a); }
    case Enrolled =>
    case Walking =>
      if th.remaining == [] {
        StampAnswers(n, Stamp(n, th.at, u, s.epoch), th.at, u, s.epoch, q, a);
      } else {
        IterateAnswers(s, th, q, a);
      }
    case Done =>
  }

  lemma {:induction false} FinishAnswers(s: TreeVal, th: Thread, q: string, a: Tenant)
    requires WF(s) && ThreadOK(s, th) && Answers(s.nodes, q, a)
    ensures Answers(Finish(s, th).nodes, q, a)
    decreases Rank(th)
  {
    hide WF, ThreadOK, Answers, Step;
    if th.phase != Done {
      StepKeeps(s, th);
      StepAnswers(s, th, q, a);
      FinishAnswers(Step(s, th).0, Step(s, th).1, q, a);
    }
  }

  lemma {:induction false} RaceAnswers(sys: System, schedule: seq<nat>, q: string, a: Tenant)
    requires SysOK(sys) && ValidSchedule(schedule, |sys.threads|) && Answers(sys.tree.nodes, q, a)
    ensures Answers(Run(sys, schedule).tree.nodes, q, a)
    decreases |schedule|
  {
    hide WF, ThreadOK, Answers, Step;
    if schedule != [] {
      var before, last := schedule[..|schedule| - 1], schedule[|schedule| - 1];
      RaceAnswers(sys, before, q, a);
      var mid := Run(sys, before);
      StepAnswers(mid.tree, mid.threads[last], q, a);
    }
  }

  // ---------- the first insertion of a prefix ----------

  /** No node extends `q`. */
  ghost predicate Beyond(n: Nodes, q: string) {
    forall p :: p in n ==> !(q <= p)
  }

  lemma UnheldBeyond(s: TreeVal, q: string)
    requires WF(s) && q != [] && Unheld(s.nodes, q)
    ensures Beyond(s.nodes, q)
  {
    forall p | p in s.nodes ensures !(q <= p) {
      if p != [] {
        SomeTenant(s.nodes, p);
        var o :| o in s.nodes[p].tenants;
        LangMember(s.nodes, o, q);
        assert Holds(s.nodes, p, o);
      }
    }
  }

  lemma SplitBeyond(n: Nodes, n': Nodes, u: Path, below: Path, mid: Path, q: string)
    requires IsSplit(n, n', u, below, mid) && Beyond(n, q)
    ensures Beyond(n', q)
  {}

  lemma AttachBeyond(s: TreeVal, p: Path, t: Tenant, q: string)
    requires p in s.nodes && Beyond(s.nodes, q)
    ensures Beyond(Attach(s, p, t).nodes, q)
  {}

  lemma IterateFirst(s: TreeVal, th: Thread, q: string)
    requires WF(s) && ThreadOK(s, th) && th.phase == Walking && th.remaining != []
    requires q <= th.text && Beyond(s.nodes, q)
    ensures var (s', th') := Iterate(s, th);
            if th'.phase == Done then Answers(s'.nodes, q, th.tenant) else Beyond(s'.nodes, q)
  {
    hide Accounted, Stamped, TenantClosed, Answers, Beyond, Hangs, Edge, SplitNode, Attach, AddLeaf, IsLeafAdd;
    var n, p, r := s.nodes, th.at, th.remaining;
    if r[0] !in n[p].children {
      LeafShape(s, p, r, th.tenant);
      LeafFirst(n, AddLeaf(s, p, r, th.tenant).nodes, p, th.text, th.tenant, s.epoch, q);
    } else {
      MeetsChild(n, p, r);
      var m := n[p].children[r[0]];
      var k := Lcp(r, n[m].text.str);
      if k < n[m].text.charCount {
        SplitMid(n, p, r, m, k);
        SplitShape(n, p, m, k);
        SplitBeyond(n, SplitNode(n, p, m, k), p, m, m[..|p| + k], q);
        AttachBeyond(s.(nodes := SplitNode(n, p, m, k)), p + r[..k], th.tenant, q);
      } else {
        AttachBeyond(s, m, th.tenant, q);
      }
    }
  }

  /** A step of the insertion leaves the prefix beyond the tree, or it makes the leaf that remembers its tenant. */
  lemma StepFirst(s: TreeVal, th: Thread, q: string)
    requires WF(s) && ThreadOK(s, th) && th.phase != Done && q != [] && q <= th.text && Beyond(s.nodes, q)
    ensures var (s', th') := Step(s, th);
            if th'.phase == Done then Answers(s'.nodes, q, th.tenant) else Beyond(s'.nodes, q)
  {
    hide Accounted, Stamped, TenantClosed, Answers, Hangs, Edge, Iterate;
    assert th.phase == Walking && th.remaining == [] ==> th.at == th.text;
    if th.phase == Walking && th.remaining != [] { IterateFirst(s, th, q); }
  }

  lemma LeafFirst(n: Nodes, n': Nodes, at: Path, p: Path, t: Tenant, ts: nat, q: string)
    requires IsLeafAdd(n, n', at, p, t, ts) && Beyond(n, q) && q <= p
    ensures Answers(n', q, t)
  {
    if |q| <= |at| { PrefixesCompare(q, at, p); }
    assert AnswersAt(n', p, q, t);
  }

  lemma {:induction false} FinishFirst(s: TreeVal, th: Thread, q: string)
    requires WF(s) && ThreadOK(s, th) && th.phase != Done && q != [] && q <= th.text && Beyond(s.nodes, q)
    ensures Answers(Finish(s, th).nodes, q, th.tenant)
    decreases Rank(th)
  {
    hide WF, ThreadOK, Answers, Step, Beyond;
    StepKeeps(s, th);
    StepFirst(s, th, q);
    var (s', th') := Step(s, th);
    if th'.phase != Done { FinishFirst(s', th', q); }
  }

  /** Every prefix of the text that nobody held before is from now on answered with its first inserter. */
  lemma FirstInserterRemembered(s: TreeVal, text: string, t: Tenant, q: string)
    requires WF(s) && q != [] && q <= text && Unheld(s.nodes, q)
    ensures Answers(Finish(s, Begin(text, t)).nodes, q, t)
  {
    hide WF, Answers, Finish, Unheld, Beyond;
    UnheldBeyond(s, q);
    FinishFirst(s, Begin(text, t), q);
  }

  /** In a tree that held nothing, any match after the first insertion answers with its tenant. */
  lemma OnlyInserterAnswers(s: TreeVal, text: string, t: Tenant, end: Path, u: Tenant)
    requires WF(s) && Unheld(s.nodes, [])
    requires var s' := Finish(s, Begin(text, t)); end in s'.nodes && Picks(s'.nodes[end], u)
    ensures u == t
  {
    hide Finish, Lang, Picks, Accounted, Stamped;
    var s' := Finish(s, Begin(text, t));
    FinishMeaning(s, Begin(text, t));
    HolderHasPrefix(s'.nodes, t, text, []);
    AncestorHolds(s'.nodes, [], text, t);
    Vouches(s', end, end, |end|, u);
    HolderHasPrefix(s'.nodes, u, end, []);
    assert LangStep(s.nodes, s'.nodes, t, text, u);
  }

  // ---------- losses ----------

  /** Of the nodes only some are left, and `a` still holds `q`: then it still answers for it. */
  lemma LossAnswers(n: Nodes, s': TreeVal, q: string, a: Tenant)
    requires Linked(n) && WF(s') && Remaining(n, s'.nodes) && q != []
    requires Answers(n, q, a) && q in Lang(s'.nodes, a)
    ensures Answers(s'.nodes, q, a)
  {
    hide Accounted, Stamped, Lang;
    var n' := s'.nodes;
    LangMember(n', a, q);
    var p :| Holds(n', p, a) && q <= p;
    var m' := EdgeAbove(n', p, q);
    AncestorHolds(n', m', p, a);
    var m :| AnswersAt(n, m, q, a);
    EndsOnUnique(n, m, m', q);
    assert AnswersAt(n', m', q, a);
  }

  /** Eviction leaves what the remaining nodes remember alone. */
  lemma {:induction false} EvictionRemaining(run: seq<Pass>, picks: seq<Entry>, max: nat, i: nat)
    requires EvictRun(run, picks, max) && i < |run|
    ensures Remaining(run[0].tree.nodes, run[i].tree.nodes)
  {
    hide WF, Detach;
    if i > 0 {
      EvictionRemaining(run, picks, max, i - 1);
      RunKeeps(run, picks, max, i - 1);
      assert RunStep(run, picks, max, i - 1);
      PopRemaining(run[i - 1], picks[i - 1], max);
    }
  }

  lemma PopRemaining(st: Pass, e: Entry, max: nat)
    requires PassOK(st, max) && e in st.heap
    ensures Remaining(st.tree.nodes, Pop(st, e, max).tree.nodes)
  {
    hide Linked, TenantClosed, Accounted, Stamped, Detach;
    if Evicts(st, e, max) { DetachRemaining(st.tree.nodes, e.node, e.tenant); }
  }

  // ---------- whole histories ----------

  lemma MatchedAnswers(s: TreeVal, end: Path, u: Tenant, q: string, a: Tenant)
    requires WF(s) && end in s.nodes && Picks(s.nodes[end], u) && Answers(s.nodes, q, a)
    ensures Answers(MatchEffect(s, end, u).nodes, q, a)
  {
    hide WF, MatchEffect;
    var m :| AnswersAt(s.nodes, m, q, a);
    MatchRemembers(s, end, u);
    MatchRefreshes(s, end, u);
    assert Holds(s.nodes, m, a);
    assert AnswersAt(MatchEffect(s, end, u).nodes, m, q, a);
  }

  /** No operation changes whom a prefix is answered with, as long as that tenant holds it. */
  lemma OpAnswers(s: TreeVal, op: Op, s': TreeVal, q: string, a: Tenant)
    requires WF(s) && WF(s') && Does(s, op, s') && q != [] && Answers(s.nodes, q, a) && q in Lang(s'.nodes, a)
    ensures Answers(s'.nodes, q, a)
  {
    hide TenantClosed, Accounted, Stamped, Answers, Lang, Finish, Run, MatchEffect, Queued, Picks;
    match op
    case Inserted(text, t) => FinishAnswers(s, Begin(text, t), q, a);
    case Raced(jobs, schedule) => RaceAnswers(System(s, jobs), schedule, q, a);
    case Matched(end, u) => MatchedAnswers(s, end, u, q, a);
    case Refreshed(end, u) =>
      if Holds(s.nodes, end, u) { StampAnswers(s.nodes, s'.nodes, end, u, s.epoch, q, a); }
    case Trimmed(max, run, picks) =>
      EvictionRemaining(run, picks, max, |run| - 1);
      LossAnswers(s.nodes, s', q, a);
    case Dropped(_, left) => LossAnswers(s.nodes, s', q, a);
    case Elsewhere(_) =>
  }

  lemma {:induction false} AnswerSticks(states: seq<TreeVal>, ops: seq<Op>, i: nat, j: nat, q: string, a: Tenant)
    requires IsHistory(states, ops) && i <= j <= |ops| && q != [] && Answers(states[i].nodes, q, a)
    requires forall k :: i < k <= j ==> q in Lang(states[k].nodes, a)
    ensures Answers(states[j].nodes, q, a)
  {
    hide WF, Does, Answers, Lang;
    if i < j {
      AnswerSticks(states, ops, i, j - 1, q, a);
      HistoryWF(states, ops, j - 1);
      HistoryWF(states, ops, j);
      assert HistoryStep(states, ops, j - 1);
      OpAnswers(states[j - 1], ops[j - 1], states[j], q, a);
    }
  }

  /**
   A prefix that nobody held is inserted by `t`, alone.  As long as `t` holds it, whatever else happens,
   every match that ends with it answers `t`.
   */
  lemma FirstInserterAnswers(states: seq<TreeVal>, ops: seq<Op>, i: nat, j: nat, text: string, t: Tenant,
                             x: string, k: nat, end: Path, u: Tenant)
    requires IsHistory(states, ops) && i < j < |ops| && ops[i] == Inserted(text, t) && ops[j] == Matched(end, u)
    requires end in states[j].nodes && Decides(states[j].nodes[end], end, x, k)
    requires k > 0 && x[..k] <= text && Unheld(states[i].nodes, x[..k])
    requires forall l :: i < l <= j ==> x[..k] in Lang(states[l].nodes, t)
    ensures u == t
  {
    hide WF, Answers, Lang, Unheld, Finish, Picks, MatchEffect;
    var q := x[..k];
    HistoryWF(states, ops, i);
    HistoryWF(states, ops, j);
    assert HistoryStep(states, ops, i) && HistoryStep(states, ops, j);
    FirstInserterRemembered(states[i], text, t, q);
    AnswerSticks(states, ops, i + 1, j, q, t);
    MatchAnswers(states[j], end, x, k, u, t);
  }

  /** So a text that nobody held, once inserted, is matched to its end and answered with its inserter while held. */
  lemma InsertedTextAnswers(states: seq<TreeVal>, ops: seq<Op>, i: nat, j: nat, text: string, t: Tenant,
                            k: nat, end: Path, u: Tenant)
    requires IsHistory(states, ops) && i < j < |ops| && ops[i] == Inserted(text, t) && ops[j] == Matched(end, u)
    requires end in states[j].nodes && Decides(states[j].nodes[end], end, text, k)
    requires NoneBeyond(states[j].nodes, t, text, k)
    requires text != "" && Unheld(states[i].nodes, text)
    requires forall l :: i < l <= j ==> text in Lang(states[l].nodes, t)
    ensures k == |text| && u == t
  {
    hide Lang, Unheld;
    assert text[..|text|] == text;
    FirstInserterAnswers(states, ops, i, j, text, t, text, |text|, end, u);
  }

  /**
   A prefix is matched twice, and in between its first answer never lost it: the second match answers
   the same.
   */
  lemma MatchesAgree(states: seq<TreeVal>, ops: seq<Op>, i: nat, j: nat, x: string, k: nat,
                     end: Path, t: Tenant, x': string, end': Path, u: Tenant)
    requires IsHistory(states, ops) && i < j < |ops| && ops[i] == Matched(end, t) && ops[j] == Matched(end', u)
    requires end in states[i].nodes && Decides(states[i].nodes[end], end, x, k)
    requires end' in states[j].nodes && Decides(states[j].nodes[end'], end', x', k)
    requires k > 0 && x[..k] == x'[..k] && forall l :: i < l <= j ==> x[..k] in Lang(states[l].nodes, t)
    ensures u == t
  {
    hide WF, Answers, Lang, MatchEffect;
    HistoryWF(states, ops, i);
    HistoryWF(states, ops, j);
    assert HistoryStep(states, ops, i) && HistoryStep(states, ops, j);
    MatchIsRemembered(states[i], end, x, k, t);
    AnswerSticks(states, ops, i + 1, j, x[..k], t);
    MatchAnswers(states[j], end', x', k, u, t);
  }

  lemma MatchIsRemembered(s: TreeVal, end: Path, x: string, k: nat, t: Tenant)
    requires WF(s) && end in s.nodes && Decides(s.nodes[end], end, x, k) && k > 0 && Picks(s.nodes[end], t)
    ensures Answers(MatchEffect(s, end, t).nodes, x[..k], t)
  {
    hide MatchEffect;
    PickedHere(s, end, t);
    hide WF;
    MatchRemembers(s, end, t);
    MatchRefreshes(s, end, t);
    assert Holds(s.nodes, end, t);
    assert AnswersAt(MatchEffect(s, end, t).nodes, end, x[..k], t);
  }

  /** Both at once: the answer is the one remembered, and is remembered. */
  lemma MatchAffinity(s: TreeVal, end: Path, x: string, k: nat, t: Tenant)
    requires WF(s) && end in s.nodes && Decides(s.nodes[end], end, x, k) && Picks(s.nodes[end], t)
    ensures forall a :: k > 0 && Answers(s.nodes, x[..k], a) ==> t == a
    ensures k > 0 ==> Answers(MatchEffect(s, end, t).nodes, x[..k], t)
  {
    hide WF, Answers, Picks, MatchEffect;
    if k > 0 {
      forall a | Answers(s.nodes, x[..k], a) ensures t == a { MatchAnswers(s, end, x, k, t, a); }
      MatchIsRemembered(s, end, x, k, t);
    }
  }
}
