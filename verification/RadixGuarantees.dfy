/** Promises that take more than one operation of the tree to state. */
module RadixGuarantees {
  import opened Strings
  import opened RadixTree
  import opened RadixInsert
  import opened RadixThreads
  import opened RadixMatch
  import opened RadixEvict

  /** A prompt just inserted survives an eviction whose limit it fits, in full. */
  lemma InsertedSurvives(s: TreeVal, text: string, t: Tenant, run: seq<Pass>, picks: seq<Entry>, max: nat)
    requires WF(s) && EvictRun(run, picks, max) && run[0].tree == Finish(s, Begin(text, t))
    requires |text| <= max
    ensures text in Lang(run[|run| - 1].tree.nodes, t)
  {
    hide Finish, Lang, Gains, NewestAt;
    var last := |run| - 1;
    FinishMeaning(s, Begin(text, t));
    RunKeeps(run, picks, max, last);
    LangMember(run[last].tree.nodes, t, text);
    if text == [] {
      NeverOvertrims(run, picks, max, t, last);
    } else {
      NewestSurvives(run, picks, max, text, t, last);
      NewestHolds(run[last].tree.nodes, text, t);
    }
  }

  lemma NewestHolds(n: Nodes, text: Path, t: Tenant)
    requires NewestAt(n, text, t)
    ensures Holds(n, text, t) && text <= text
  {}

  /** A second eviction with the same limit finds nothing to do. */
  lemma EvictionSettles(one: seq<Pass>, picks1: seq<Entry>, two: seq<Pass>, picks2: seq<Entry>, max: nat, t: Tenant)
    requires EvictRun(one, picks1, max) && Drained(one) && EvictRun(two, picks2, max)
    requires two[0].tree == one[|one| - 1].tree
    ensures Lang(two[|two| - 1].tree.nodes, t) == Lang(two[0].tree.nodes, t)
  {
    hide Lang, WF;
    var s := two[0].tree;
    EvictionBounds(one, picks1, max, t);
    if t in s.counts {
      WithinBudgetUntouched(two, picks2, max, t, |two| - 1);
    } else {
      AbsentHasNothing(s, t);
      UncountedStaysOut(two, picks2, max, t, |two| - 1);
    }
  }

  lemma AbsentHasNothing(s: TreeVal, t: Tenant)
    requires WF(s) && !Holds(s.nodes, [], t)
    ensures Lang(s.nodes, t) == {}
  {
    forall x ensures x !in Lang(s.nodes, t) {
      LangMember(s.nodes, t, x);
      forall p | Holds(s.nodes, p, t) ensures false { AncestorHolds(s.nodes, [], p, t); }
    }
  }

  lemma {:induction false} UncountedStaysOut(run: seq<Pass>, picks: seq<Entry>, max: nat, t: Tenant, i: nat)
    requires EvictRun(run, picks, max) && i < |run| && Lang(run[0].tree.nodes, t) == {}
    ensures Lang(run[i].tree.nodes, t) == {}
  {
    hide Lang, WF;
    if i > 0 {
      UncountedStaysOut(run, picks, max, t, i - 1);
      RunKeeps(run, picks, max, i - 1);
      assert RunStep(run, picks, max, i - 1);
      var st, e := run[i - 1], picks[i - 1];
      assert Sound(st, e);
      LangMember(st.tree.nodes, t, []);
      PopOthers(st, e, max, t);
    }
  }

  /** After an insertion a match is the better of the old match and the overlap with the new text. */
  lemma InsertRaisesMatch(n: Nodes, n': Nodes, t: Tenant, text: string, x: string, before: nat, after: nat)
    requires Gains(n, n', t, text) && IsLongest(n, t, x, before) && IsLongest(n', t, x, after)
    ensures after == if before < Lcp(x, text) then Lcp(x, text) else before
  {
    hide Lang;
    assert LangStep(n, n', t, text, t);
    var k := Lcp(x, text);
    var best := if before < k then k else before;
    PrefixesMember(text, x[..k]);
    PrefixesMember(text, x[..after]);
    assert best == 0 || x[..best] in Lang(n', t);
    if x[..after] <= text { OverlapBound(x, text, after); }
    assert after <= k || x[..after] in Lang(n, t);
  }

  lemma OverlapBound(x: string, text: string, j: nat)
    requires j <= |x| && x[..j] <= text
    ensures j <= Lcp(x, text)
  {
    assert forall i :: 0 <= i < j ==> x[..j][i] == text[i];
  }
}
