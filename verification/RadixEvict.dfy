/**
 Eviction by size: leaves are taken from a priority queue, oldest access first, until every
 tenant is within the limit.  A run is the sequence of states between the pops; ties in the
 queue may be broken either way, so the theorems speak of every run.
 */
module RadixEvict {
  import opened Strings
  import opened RadixTree
  import opened RadixDetach

  datatype Entry = Entry(stamp: nat, tenant: Tenant, node: Path)

  datatype Pass = Pass(tree: TreeVal, heap: multiset<Entry>)

  predicate WithinBudget(s: TreeVal, t: Tenant, max: nat) {
    t in s.counts && s.counts[t] <= max
  }

  /** The entry tells a leaf and its access time. */
  ghost predicate Current(n: Nodes, e: Entry) {
    IsLeaf(n, e.node, e.tenant) && e.stamp == n[e.node].tenants[e.tenant]
  }

  /** The queue before the first pop: every leaf of every tenant, once. */
  ghost predicate Gathered(st: Pass) {
    forall e :: st.heap[e] == if Current(st.tree.nodes, e) then 1 else 0
  }

  function SaturatingSub(a: nat, b: nat): nat {
    if b <= a then a - b else 0
  }

  function Charge(counts: map<Tenant, nat>, t: Tenant, k: nat): map<Tenant, nat> {
    if t in counts then counts[t := SaturatingSub(counts[t], k)] else counts
  }

  /** What one pop does with the entry it takes. */
  ghost function Pop(st: Pass, e: Entry, max: nat): Pass
    requires e in st.heap
  {
    var n, t, rest := st.tree.nodes, e.tenant, st.heap - multiset{e};
    if WithinBudget(st.tree, t, max) || !IsLeaf(n, e.node, t) then st.(heap := rest)
    else
      var n' := Detach(n, e.node, t);
      var s' := TreeVal(n', Charge(st.tree.counts, t, n[e.node].text.charCount), st.tree.epoch);
      if n[e.node].parent.Some? && IsLeaf(n', n[e.node].parent.value, t) then
        var u := n[e.node].parent.value;
        Pass(s', rest + multiset{Entry(n'[u].tenants[t], t, u)})
      else Pass(s', rest)
  }

  /** The pop removes something. */
  ghost predicate Evicts(st: Pass, e: Entry, max: nat) {
    !WithinBudget(st.tree, e.tenant, max) && IsLeaf(st.tree.nodes, e.node, e.tenant)
  }

  ghost predicate Oldest(heap: multiset<Entry>, e: Entry) {
    e in heap && forall f :: f in heap ==> e.stamp <= f.stamp
  }

  // ---------- the invariant of the loop ----------

  ghost predicate Listed(st: Pass, p: Path, t: Tenant, max: nat) {
    IsLeaf(st.tree.nodes, p, t) && !WithinBudget(st.tree, t, max) ==>
      Entry(st.tree.nodes[p].tenants[t], t, p) in st.heap
  }

  ghost predicate Sound(st: Pass, e: Entry) {
    e in st.heap ==> st.heap[e] == 1 && Current(st.tree.nodes, e)
  }

  /** Every queued entry is a leaf, queued once; every leaf of a tenant over its limit is queued. */
  ghost predicate PassOK(st: Pass, max: nat) {
    && WF(st.tree)
    && (forall e {:trigger Sound(st, e)} :: Sound(st, e))
    && (forall p, t {:trigger Listed(st, p, t, max)} :: Listed(st, p, t, max))
  }

  lemma GatheredOK(st: Pass, max: nat)
    requires WF(st.tree) && Gathered(st)
    ensures PassOK(st, max)
  {
    forall p, t ensures Listed(st, p, t, max) {
      if IsLeaf(st.tree.nodes, p, t) {
        assert Current(st.tree.nodes, Entry(st.tree.nodes[p].tenants[t], t, p));
      }
    }
  }

  // ---------- one pop ----------

  ghost function Evicted(s: TreeVal, p: Path, t: Tenant): TreeVal
    requires p in s.nodes
  {
    TreeVal(Detach(s.nodes, p, t), Charge(s.counts, t, s.nodes[p].text.charCount), s.epoch)
  }

  lemma EvictedTally(s: TreeVal, p: Path, t: Tenant, o: Tenant)
    requires WF(s) && IsLeaf(s.nodes, p, t)
    ensures Tallied(Evicted(s, p, t), o)
  {
    hide Linked, TenantClosed, Stamped, Detach, Leaves, Lang;
    var n, n' := s.nodes, Detach(s.nodes, p, t);
    DetachKeeps(n, p, t);
    assert Tallied(s, o);
    if o == t {
      LeavesCount(n, n', t, p);
    } else {
      LeavesOthers(n, n', t, p, o);
      assert LangKept(n, n', o);
    }
  }

  /** The subtraction never saturates. */
  lemma ChargeIsExact(s: TreeVal, p: Path, t: Tenant)
    requires WF(s) && IsLeaf(s.nodes, p, t)
    ensures s.nodes[p].text.charCount <= Count(s.counts, t)
  {
    var n' := Detach(s.nodes, p, t);
    DetachKeeps(s.nodes, p, t);
    LeavesCount(s.nodes, n', t, p);
    assert Tallied(s, t);
  }

  /** A counted tenant over its limit does not end at the root. */
  lemma OverBudgetNotAtRoot(s: TreeVal, t: Tenant, max: nat)
    requires WF(s) && t in s.counts && !WithinBudget(s, t, max)
    ensures !IsLeaf(s.nodes, [], t)
  {
    assert Tallied(s, t);
    if IsLeaf(s.nodes, [], t) {
      RootLeafAlone(s.nodes, t);
    }
  }

  lemma EvictedStamped(s: TreeVal, p: Path, t: Tenant)
    requires WF(s) && IsLeaf(s.nodes, p, t)
    ensures Stamped(Evicted(s, p, t))
  {
    var n' := Detach(s.nodes, p, t);
    DetachKeeps(s.nodes, p, t);
    DetachShape(s.nodes, p, t);
    forall x, o | Holds(n', x, o) ensures n'[x].tenants[o] == 0 || n'[x].tenants[o] < s.epoch {
      DetachStamps(s.nodes, p, t, x, o);
    }
  }

  lemma EvictedWF(s: TreeVal, p: Path, t: Tenant, max: nat)
    requires WF(s) && IsLeaf(s.nodes, p, t) && !WithinBudget(s, t, max)
    ensures WF(Evicted(s, p, t))
  {
    var s' := Evicted(s, p, t);
    DetachKeeps(s.nodes, p, t);
    forall o ensures Tallied(s', o) { EvictedTally(s, p, t, o); }
    if t in s.counts { OverBudgetNotAtRoot(s, t, max); }
    EvictedStamped(s, p, t);
    EvictedCovered(s, s', p, t);
  }

  lemma EvictedCovered(s: TreeVal, s': TreeVal, p: Path, t: Tenant)
    requires Accounted(s) && Leaves(s.nodes, s'.nodes, t, p) && s'.counts.Keys == s.counts.Keys
    requires p == [] ==> t !in s.counts
    ensures forall x, o :: x != [] && Holds(s'.nodes, x, o) ==> o in s'.counts
    ensures forall o :: o in s'.counts ==> Holds(s'.nodes, [], o)
  {}

  lemma PopKeepsSound(st: Pass, e: Entry, max: nat, f: Entry)
    requires PassOK(st, max) && e in st.heap && Evicts(st, e, max)
    ensures Sound(Pop(st, e, max), f)
  {
    var n, st' := st.tree.nodes, Pop(st, e, max);
    var n' := st'.tree.nodes;
    assert Sound(st, e) && Sound(st, f);
    DetachLeaves(n, e.node, e.tenant, f.node, f.tenant);
    if n[e.node].parent.Some? {
      DetachLeaves(n, e.node, e.tenant, n[e.node].parent.value, e.tenant);
    }
    if f in st'.heap && f in st.heap {
      assert f != e;
      DetachStamps(n, e.node, e.tenant, f.node, f.tenant);
    }
  }

  lemma PopKeepsListed(st: Pass, e: Entry, max: nat, p: Path, t: Tenant)
    requires PassOK(st, max) && e in st.heap && Evicts(st, e, max)
    ensures Listed(Pop(st, e, max), p, t, max)
  {
    var n, st' := st.tree.nodes, Pop(st, e, max);
    var n' := st'.tree.nodes;
    if IsLeaf(n', p, t) && !WithinBudget(st'.tree, t, max) {
      DetachLeaves(n, e.node, e.tenant, p, t);
      DetachStamps(n, e.node, e.tenant, p, t);
      DetachKeeps(n, e.node, e.tenant);
      if IsLeaf(n, p, t) {
        assert Listed(st, p, t, max);
        assert Entry(n[p].tenants[t], t, p) != e;
      }
    }
  }

  lemma SkipKeeps(st: Pass, e: Entry, max: nat)
    requires PassOK(st, max) && e in st.heap && !Evicts(st, e, max)
    ensures PassOK(Pop(st, e, max), max)
  {
    var st' := Pop(st, e, max);
    assert Sound(st, e);
    forall f ensures Sound(st', f) { assert Sound(st, f); }
    forall p, t ensures Listed(st', p, t, max) { assert Listed(st, p, t, max); }
  }

  lemma PopKeeps(st: Pass, e: Entry, max: nat)
    requires PassOK(st, max) && e in st.heap
    ensures PassOK(Pop(st, e, max), max)
  {
    if Evicts(st, e, max) {
      EvictedWF(st.tree, e.node, e.tenant, max);
      forall f ensures Sound(Pop(st, e, max), f) { PopKeepsSound(st, e, max, f); }
      forall p, t ensures Listed(Pop(st, e, max), p, t, max) { PopKeepsListed(st, e, max, p, t); }
    } else {
      SkipKeeps(st, e, max);
    }
  }

  // ---------- whole runs ----------

  /** `run[i + 1]` is what popping `picks[i]`, an oldest entry, makes of `run[i]`. */
  ghost predicate EvictRun(run: seq<Pass>, picks: seq<Entry>, max: nat) {
    && |run| == |picks| + 1
    && WF(run[0].tree) && Gathered(run[0])
    && (forall i :: 0 <= i < |picks| ==> RunStep(run, picks, max, i))
  }

  ghost predicate RunStep(run: seq<Pass>, picks: seq<Entry>, max: nat, i: nat)
    requires |run| == |picks| + 1 && i < |picks|
  {
    Oldest(run[i].heap, picks[i]) && run[i + 1] == Pop(run[i], picks[i], max)
  }

  lemma RunGrows(run: seq<Pass>, picks: seq<Entry>, max: nat, e: Entry)
    requires EvictRun(run, picks, max) && Oldest(run[|run| - 1].heap, e)
    ensures EvictRun(run + [Pop(run[|run| - 1], e, max)], picks + [e], max)
  {
    var run', picks' := run + [Pop(run[|run| - 1], e, max)], picks + [e];
    forall i | 0 <= i < |picks'| ensures RunStep(run', picks', max, i) {
      if i < |picks| { assert RunStep(run, picks, max, i); }
    }
  }

  ghost predicate Drained(run: seq<Pass>) {
    run != [] && run[|run| - 1].heap == multiset{}
  }

  lemma {:induction false} RunKeeps(run: seq<Pass>, picks: seq<Entry>, max: nat, i: nat)
    requires EvictRun(run, picks, max) && i < |run|
    ensures PassOK(run[i], max)
  {
    if i == 0 {
      GatheredOK(run[0], max);
    } else {
      RunKeeps(run, picks, max, i - 1);
      assert RunStep(run, picks, max, i - 1);
      PopKeeps(run[i - 1], picks[i - 1], max);
    }
  }

  /** On exit every count is within the limit, and nobody is in the tree uncounted. */
  lemma EvictionBounds(run: seq<Pass>, picks: seq<Entry>, max: nat, t: Tenant)
    requires EvictRun(run, picks, max) && Drained(run)
    ensures var s := run[|run| - 1].tree;
            && WF(s) && Count(s.counts, t) <= max
            && (Holds(s.nodes, [], t) ==> t in s.counts)
  {
    var st := run[|run| - 1];
    RunKeeps(run, picks, max, |run| - 1);
    if Holds(st.tree.nodes, [], t) {
      var leaf := HasLeaf(st.tree.nodes, [], t);
      assert Listed(st, leaf, t, max);
    }
  }

  /** The recheck before a removal never fails: a queued pair is a leaf when it is popped. */
  lemma RecheckNeverFails(run: seq<Pass>, picks: seq<Entry>, max: nat, i: nat)
    requires EvictRun(run, picks, max) && i < |picks|
    ensures IsLeaf(run[i].tree.nodes, picks[i].node, picks[i].tenant)
  {
    RunKeeps(run, picks, max, i);
    assert RunStep(run, picks, max, i);
    assert Sound(run[i], picks[i]);
  }

  /** Each victim is the least recently used of all the leaves of all tenants over their limit. */
  lemma EvictionIsLRU(run: seq<Pass>, picks: seq<Entry>, max: nat, i: nat, p: Path, t: Tenant)
    requires EvictRun(run, picks, max) && i < |picks| && Evicts(run[i], picks[i], max)
    requires IsLeaf(run[i].tree.nodes, p, t) && !WithinBudget(run[i].tree, t, max)
    ensures run[i].tree.nodes[picks[i].node].tenants[picks[i].tenant] <= run[i].tree.nodes[p].tenants[t]
  {
    RunKeeps(run, picks, max, i);
    assert RunStep(run, picks, max, i);
    assert Sound(run[i], picks[i]) && Listed(run[i], p, t, max);
  }

  // ---------- no more than necessary ----------

  lemma PopOthers(st: Pass, e: Entry, max: nat, t: Tenant)
    requires PassOK(st, max) && e in st.heap && !(e.tenant == t && Evicts(st, e, max))
    ensures LangKept(st.tree.nodes, Pop(st, e, max).tree.nodes, t)
    ensures Count(Pop(st, e, max).tree.counts, t) == Count(st.tree.counts, t)
    ensures Pop(st, e, max).tree.counts.Keys == st.tree.counts.Keys
  {
    if Evicts(st, e, max) {
      DetachKeeps(st.tree.nodes, e.node, e.tenant);
      LeavesOthers(st.tree.nodes, Pop(st, e, max).tree.nodes, e.tenant, e.node, t);
    }
  }

  /** A tenant within its limit at entry is not touched. */
  lemma {:induction false} WithinBudgetUntouched(run: seq<Pass>, picks: seq<Entry>, max: nat, t: Tenant, i: nat)
    requires EvictRun(run, picks, max) && i < |run| && WithinBudget(run[0].tree, t, max)
    ensures Lang(run[i].tree.nodes, t) == Lang(run[0].tree.nodes, t)
    ensures WithinBudget(run[i].tree, t, max) && run[i].tree.counts[t] == run[0].tree.counts[t]
  {
    if i > 0 {
      WithinBudgetUntouched(run, picks, max, t, i - 1);
      RunKeeps(run, picks, max, i - 1);
      assert RunStep(run, picks, max, i - 1);
      PopOthers(run[i - 1], picks[i - 1], max, t);
      assert LangKept(run[i - 1].tree.nodes, run[i].tree.nodes, t);
    }
  }

  /** Pop `j` takes `t` off a node of `k` characters while `t` is over its limit. */
  ghost predicate Trims(run: seq<Pass>, picks: seq<Entry>, max: nat, t: Tenant, j: nat, k: nat) {
    && j < |picks| && j < |run| && picks[j].tenant == t
    && Evicts(run[j], picks[j], max)
    && k == run[j].tree.nodes[picks[j].node].text.charCount
  }

  lemma TrimCounts(st: Pass, e: Entry, max: nat)
    requires PassOK(st, max) && e in st.heap && Evicts(st, e, max)
    ensures Count(Pop(st, e, max).tree.counts, e.tenant) + st.tree.nodes[e.node].text.charCount
              == Count(st.tree.counts, e.tenant)
    ensures e.tenant in st.tree.counts ==> Count(st.tree.counts, e.tenant) > max
  {
    ChargeIsExact(st.tree, e.node, e.tenant);
  }

  /** Pop `j` is the last one before state `i` that trims `t`. */
  ghost predicate LastTrim(run: seq<Pass>, picks: seq<Entry>, max: nat, t: Tenant, j: nat, k: nat, i: nat) {
    && j < i <= |picks| && i < |run| && Trims(run, picks, max, t, j, k)
    && (forall l :: j < l < i ==> !(picks[l].tenant == t && Evicts(run[l], picks[l], max)))
  }

  /** With its last victim back the tenant would exceed `max`. */
  ghost predicate JustTrimmed(run: seq<Pass>, picks: seq<Entry>, max: nat, t: Tenant, i: nat, c: nat) {
    exists j: nat, k: nat :: LastTrim(run, picks, max, t, j, k, i) && c + k > max
  }

  lemma JustTrimmedLasts(run: seq<Pass>, picks: seq<Entry>, max: nat, t: Tenant, i: nat, c: nat)
    requires JustTrimmed(run, picks, max, t, i, c) && i < |picks| && i + 1 < |run|
    requires !(picks[i].tenant == t && Evicts(run[i], picks[i], max))
    ensures JustTrimmed(run, picks, max, t, i + 1, c)
  {
    var j: nat, k: nat :| LastTrim(run, picks, max, t, j, k, i) && c + k > max;
    assert LastTrim(run, picks, max, t, j, k, i + 1);
  }

  lemma TrimIsJust(run: seq<Pass>, picks: seq<Entry>, max: nat, i: nat)
    requires i < |picks| && i + 1 < |run| && PassOK(run[i], max) && picks[i] in run[i].heap
    requires Evicts(run[i], picks[i], max) && run[i + 1] == Pop(run[i], picks[i], max)
    requires picks[i].tenant in run[i].tree.counts
    ensures JustTrimmed(run, picks, max, picks[i].tenant, i + 1, Count(run[i + 1].tree.counts, picks[i].tenant))
  {
    TrimCounts(run[i], picks[i], max);
    assert LastTrim(run, picks, max, picks[i].tenant, i, run[i].tree.nodes[picks[i].node].text.charCount, i + 1);
  }

  /** A pop that does not trim `t` leaves it as it was. */
  lemma UntrimmedStays(run: seq<Pass>, picks: seq<Entry>, max: nat, t: Tenant, i: nat, c: nat)
    requires i < |picks| && i + 1 < |run| && PassOK(run[i], max) && picks[i] in run[i].heap
    requires run[i + 1] == Pop(run[i], picks[i], max) && !(picks[i].tenant == t && Evicts(run[i], picks[i], max))
    requires t in run[i].tree.counts && run[i].tree.counts[t] == c
    ensures t in run[i + 1].tree.counts && run[i + 1].tree.counts[t] == c
    ensures JustTrimmed(run, picks, max, t, i, c) ==> JustTrimmed(run, picks, max, t, i + 1, c)
  {
    hide PassOK, Pop, LastTrim, Evicts;
    PopOthers(run[i], picks[i], max, t);
    if JustTrimmed(run, picks, max, t, i, c) { JustTrimmedLasts(run, picks, max, t, i, c); }
  }

  /** A tenant is trimmed only while it is over its limit, and no further. */
  lemma {:induction false} NeverOvertrims(run: seq<Pass>, picks: seq<Entry>, max: nat, t: Tenant, i: nat)
    requires EvictRun(run, picks, max) && i < |run| && t in run[0].tree.counts
    ensures t in run[i].tree.counts
    ensures run[i].tree.counts[t] == run[0].tree.counts[t] ||
            JustTrimmed(run, picks, max, t, i, run[i].tree.counts[t])
  {
    hide PassOK, Pop, JustTrimmed, Evicts;
    if i > 0 {
      NeverOvertrims(run, picks, max, t, i - 1);
      RunKeeps(run, picks, max, i - 1);
      assert RunStep(run, picks, max, i - 1);
      if picks[i - 1].tenant == t && Evicts(run[i - 1], picks[i - 1], max) {
        TrimIsJust(run, picks, max, i - 1);
        PopCounted(run[i - 1], picks[i - 1], max);
      } else {
        UntrimmedStays(run, picks, max, t, i - 1, run[i - 1].tree.counts[t]);
      }
    }
  }

  lemma PopCounted(st: Pass, e: Entry, max: nat)
    requires e in st.heap
    ensures Pop(st, e, max).tree.counts.Keys == st.tree.counts.Keys
  {}

  // ---------- termination ----------

  ghost function Measure(st: Pass): nat {
    2 * |Pairs(st.tree.nodes)| + |st.heap|
  }

  /** A removal may queue the parent, but it uses up a holder; any other pop only shortens the queue. */
  lemma PopShrinks(st: Pass, e: Entry, max: nat)
    requires PassOK(st, max) && e in st.heap
    ensures Measure(Pop(st, e, max)) < Measure(st)
  {
    var st' := Pop(st, e, max);
    assert |st.heap - multiset{e}| == |st.heap| - 1;
    if Evicts(st, e, max) {
      var n, n' := st.tree.nodes, st'.tree.nodes;
      DetachKeeps(n, e.node, e.tenant);
      LeavesPairs(n, n', e.tenant, e.node);
    }
  }

  /** No run is longer than twice the holders plus the leaves it starts with. */
  lemma {:induction false} RunsAreBounded(run: seq<Pass>, picks: seq<Entry>, max: nat, i: nat)
    requires EvictRun(run, picks, max) && i < |run|
    ensures Measure(run[i]) + i <= Measure(run[0])
  {
    hide PassOK, Pop, Measure, WF;
    if i > 0 {
      RunsAreBounded(run, picks, max, i - 1);
      RunKeeps(run, picks, max, i - 1);
      assert RunStep(run, picks, max, i - 1);
      PopShrinks(run[i - 1], picks[i - 1], max);
    }
  }

  // ---------- what was just inserted survives ----------

  /** A tenant over a limit that would admit `text` has a leaf off the path of `text`. */
  lemma LeafElsewhere(s: TreeVal, text: Path, t: Tenant, max: nat) returns (leaf: Path)
    requires WF(s) && |text| <= max && Count(s.counts, t) > max
    ensures IsLeaf(s.nodes, leaf, t) && !(leaf <= text)
  {
    hide Linked, TenantClosed, Stamped, IsLeaf, Lang, Segment;
    assert Tallied(s, t);
    var short := Segment(text, 0, |text|);
    SegmentSize(text, 0, |text|);
    if Keys(s.nodes, t) <= short {
      SubsetSize(Keys(s.nodes, t), short);
      assert false;
    }
    var x :| x in Keys(s.nodes, t) && x !in short;
    LangMember(s.nodes, t, x);
    var y :| Holds(s.nodes, y, t) && x <= y;
    leaf := HasLeaf(s.nodes, y, t);
    SegmentMember(text, x);
  }

  lemma SubsetSize<T>(a: set<T>, b: set<T>)
    requires a <= b
    ensures |a| <= |b|
  {
    assert b == a + (b - a);
  }

  lemma OlderElsewhere(st: Pass, max: nat, text: Path, t: Tenant) returns (f: Entry)
    requires PassOK(st, max) && NewestAt(st.tree.nodes, text, t) && text != [] && |text| <= max
    requires !WithinBudget(st.tree, t, max)
    ensures f in st.heap && f.stamp < st.tree.nodes[text].tenants[t]
  {
    var leaf := LeafElsewhere(st.tree, text, t, max);
    f := Entry(st.tree.nodes[leaf].tenants[t], t, leaf);
    assert Listed(st, leaf, t, max);
  }

  lemma NewestNotTaken(st: Pass, e: Entry, max: nat, text: Path, t: Tenant)
    requires PassOK(st, max) && Oldest(st.heap, e) && NewestAt(st.tree.nodes, text, t) && text != [] && |text| <= max
    ensures NewestAt(Pop(st, e, max).tree.nodes, text, t)
  {
    hide Linked, TenantClosed, Accounted, Stamped, Detach;
    var s := st.tree;
    assert Sound(st, e);
    if Evicts(st, e, max) {
      if e.node == text && e.tenant == t {
        var f := OlderElsewhere(st, max, text, t);
        assert false;
      }
      DetachKeeps(s.nodes, e.node, e.tenant);
      forall p | Holds(Pop(st, e, max).tree.nodes, p, t)
        ensures Pop(st, e, max).tree.nodes[p].tenants[t] == s.nodes[p].tenants[t]
      {
        DetachStamps(s.nodes, e.node, e.tenant, p, t);
      }
    }
  }

  /** The newest text of a tenant is still there in full after an eviction whose limit it fits. */
  lemma {:induction false} NewestSurvives(run: seq<Pass>, picks: seq<Entry>, max: nat, text: Path, t: Tenant, i: nat)
    requires EvictRun(run, picks, max) && i < |run|
    requires NewestAt(run[0].tree.nodes, text, t) && text != [] && |text| <= max
    ensures NewestAt(run[i].tree.nodes, text, t)
  {
    if i > 0 {
      NewestSurvives(run, picks, max, text, t, i - 1);
      RunKeeps(run, picks, max, i - 1);
      assert RunStep(run, picks, max, i - 1);
      NewestNotTaken(run[i - 1], picks[i - 1], max, text, t);
    }
  }
}
