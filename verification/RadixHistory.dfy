/**
 Whole histories of a tree: any sequence of insertions, alone or racing each other, matches,
 evictions and removals, from the empty tree on.
 */
module RadixHistory {
  import opened Strings
  import opened RadixTree
  import opened RadixInsert
  import opened RadixThreads
  import opened RadixRecency
  import opened RadixMatch
  import opened RadixDetach
  import opened RadixEvict
  import opened RadixRemove
  import opened RadixGuarantees

  datatype Op =
    | Inserted(text: string, tenant: Tenant)
    | Raced(jobs: seq<Thread>, schedule: seq<nat>)
    | Matched(end: Path, tenant: Tenant)
    | Refreshed(end: Path, tenant: Tenant)
    | Trimmed(max: nat, run: seq<Pass>, picks: seq<Entry>)
    | Dropped(tenant: Tenant, left: Nodes)
    | Elsewhere(draws: nat)

  /** What each operation may do to a well-formed tree. */
  ghost predicate Does(s: TreeVal, op: Op, s': TreeVal)
    requires WF(s)
  {
    match op
    case Inserted(text, t) => s' == Finish(s, Begin(text, t))
    case Raced(jobs, schedule) => Races(s, jobs, schedule, s')
    case Matched(end, t) => end in s.nodes && Picks(s.nodes[end], t) && s' == MatchEffect(s, end, t)
    case Refreshed(end, t) => s' == if Holds(s.nodes, end, t) then Touch(s, end, t) else s
    case Trimmed(max, run, picks) =>
      EvictRun(run, picks, max) && Drained(run) && run[0].tree == s && run[|run| - 1].tree == s'
    case Dropped(t, left) => Queued(left, [], t) && OnlyLost(s.nodes, left, t) && s' == Removed(s, left, t)
    case Elsewhere(draws) => s' == Later(s, draws)
  }

  /** The epoch counter is shared by all trees of the process; the others have drawn from it. */
  function Later(s: TreeVal, draws: nat): TreeVal {
    s.(epoch := s.epoch + draws)
  }

  lemma LaterWF(s: TreeVal, draws: nat)
    requires WF(s)
    ensures WF(Later(s, draws))
  {
    hide Linked, TenantClosed;
    forall o ensures Tallied(Later(s, draws), o) { assert Tallied(s, o); }
  }

  /** Fresh insertions are interleaved by the schedule until all have finished. */
  ghost predicate Races(s: TreeVal, jobs: seq<Thread>, schedule: seq<nat>, s': TreeVal) {
    var sys := System(s, jobs);
    && SysOK(sys) && AllFresh(sys) && ValidSchedule(schedule, |jobs|)
    && AllDone(Run(sys, schedule)) && s' == Run(sys, schedule).tree
  }

  /** Nothing is said about a step from a tree that is not well-formed; there is none. */
  ghost predicate HistoryStep(states: seq<TreeVal>, ops: seq<Op>, i: nat)
    requires i < |ops| < |states|
  {
    WF(states[i]) ==> Does(states[i], ops[i], states[i + 1])
  }

  ghost predicate IsHistory(states: seq<TreeVal>, ops: seq<Op>) {
    && |states| == |ops| + 1 && states[0] == Empty(states[0].epoch)
    && forall i :: 0 <= i < |ops| ==> HistoryStep(states, ops, i)
  }

  // ---------- what a tenant ought to hold ----------

  /** The texts an operation inserts for a tenant. */
  ghost function Texts(op: Op, t: Tenant): set<string> {
    match op
    case Inserted(text, u) => if u == t then {text} else {}
    case Raced(jobs, _) => set i | 0 <= i < |jobs| && jobs[i].tenant == t :: jobs[i].text
    case _ => {}
  }

  ghost predicate Covered(texts: set<string>, x: string) {
    exists text :: text in texts && x <= text
  }

  predicate Erases(op: Op, t: Tenant) { op.Dropped? && op.tenant == t }

  /** The texts inserted for a tenant since it was last removed. */
  ghost function Claimed(ops: seq<Op>, t: Tenant): set<string> {
    if ops == [] then {}
    else
      var last := ops[|ops| - 1];
      if Erases(last, t) then {} else Claimed(ops[..|ops| - 1], t) + Texts(last, t)
  }

  /** What one operation does to one non-empty string of one tenant; only an eviction may lose it. */
  ghost predicate Moves(n: Nodes, op: Op, n': Nodes, t: Tenant, x: string) {
    && (x in Lang(n', t) ==> (x in Lang(n, t) && !Erases(op, t)) || Covered(Texts(op, t), x))
    && (!op.Trimmed? && ((x in Lang(n, t) && !Erases(op, t)) || Covered(Texts(op, t), x)) ==> x in Lang(n', t))
  }

  lemma {:induction false} EvictionOnlyTakes(run: seq<Pass>, picks: seq<Entry>, max: nat, t: Tenant, i: nat, p: Path)
    requires EvictRun(run, picks, max) && i < |run| && Holds(run[i].tree.nodes, p, t)
    ensures Holds(run[0].tree.nodes, p, t)
  {
    hide WF, Detach, Holds;
    if i > 0 {
      RunKeeps(run, picks, max, i - 1);
      assert RunStep(run, picks, max, i - 1);
      PopOnlyTakes(run[i - 1], picks[i - 1], max, t, p);
      EvictionOnlyTakes(run, picks, max, t, i - 1, p);
    }
  }

  lemma PopOnlyTakes(st: Pass, e: Entry, max: nat, t: Tenant, p: Path)
    requires PassOK(st, max) && e in st.heap && Holds(Pop(st, e, max).tree.nodes, p, t)
    ensures Holds(st.tree.nodes, p, t)
  {
    hide Linked, TenantClosed, Accounted, Stamped, Detach;
    if Evicts(st, e, max) { DetachKeeps(st.tree.nodes, e.node, e.tenant); }
  }

  lemma TrimMoves(s: TreeVal, op: Op, s': TreeVal, t: Tenant, x: string)
    requires WF(s) && op.Trimmed? && Does(s, op, s')
    ensures WF(s') && Moves(s.nodes, op, s'.nodes, t, x)
  {
    hide WF, Lang, Holds;
    EvictionBounds(op.run, op.picks, op.max, t);
    if x in Lang(s'.nodes, t) {
      LangMember(s'.nodes, t, x);
      var p :| Holds(s'.nodes, p, t) && x <= p;
      EvictionOnlyTakes(op.run, op.picks, op.max, t, |op.run| - 1, p);
      LangMember(s.nodes, t, x);
    }
  }

  lemma InsertMoves(s: TreeVal, op: Op, s': TreeVal, t: Tenant, x: string)
    requires WF(s) && op.Inserted? && Does(s, op, s')
    ensures WF(s') && Moves(s.nodes, op, s'.nodes, t, x)
  {
    hide WF, Lang, Finish;
    FinishMeaning(s, Begin(op.text, op.tenant));
    assert LangStep(s.nodes, s'.nodes, op.tenant, op.text, t);
    PrefixesMember(op.text, x);
    if t == op.tenant { assert op.text in Texts(op, t); }
  }

  lemma RaceMoves(s: TreeVal, op: Op, s': TreeVal, t: Tenant, x: string)
    requires WF(s) && op.Raced? && Does(s, op, s')
    ensures WF(s') && Moves(s.nodes, op, s'.nodes, t, x)
  {
    hide WF, Lang, Run;
    InterleavedInserts(System(s, op.jobs), op.schedule, t, x);
    if Covered(Texts(op, t), x) {
      var text :| text in Texts(op, t) && x <= text;
      var i :| 0 <= i < |op.jobs| && op.jobs[i].tenant == t && op.jobs[i].text == text;
    }
    forall i | 0 <= i < |op.jobs| && op.jobs[i].tenant == t && x <= op.jobs[i].text ensures Covered(Texts(op, t), x) {
      assert op.jobs[i].text in Texts(op, t);
    }
  }

  lemma MatchMoves(s: TreeVal, op: Op, s': TreeVal, t: Tenant, x: string)
    requires WF(s) && (op.Matched? || op.Refreshed?) && Does(s, op, s') && x != []
    ensures WF(s') && Moves(s.nodes, op, s'.nodes, t, x)
  {
    hide WF, Lang, MatchEffect, Touch;
    if op.Matched? {
      PickedHere(s, op.end, op.tenant);
      MatchEffectWF(s, op.end, op.tenant);
      assert KeysKept(s.nodes, s'.nodes, t);
    } else if Holds(s.nodes, op.end, op.tenant) {
      TouchWF(s, op.end, op.tenant);
      assert LangKept(s.nodes, s'.nodes, t);
    }
    assert x in Lang(s.nodes, t) <==> x in Lang(s'.nodes, t) by {
      assert x in Keys(s.nodes, t) <==> x in Lang(s.nodes, t);
      assert x in Keys(s'.nodes, t) <==> x in Lang(s'.nodes, t);
    }
  }

  lemma DropMoves(s: TreeVal, op: Op, s': TreeVal, t: Tenant, x: string)
    requires WF(s) && op.Dropped? && Does(s, op, s')
    ensures WF(s') && Moves(s.nodes, op, s'.nodes, t, x)
  {
    hide WF, Lang, Queued, OnlyLost;
    RemovalComplete(s, op.left, op.tenant);
    if t != op.tenant { assert LangKept(s.nodes, s'.nodes, t); }
  }

  lemma LaterMoves(s: TreeVal, op: Op, s': TreeVal, t: Tenant, x: string)
    requires WF(s) && op.Elsewhere? && Does(s, op, s')
    ensures WF(s') && Moves(s.nodes, op, s'.nodes, t, x)
  {
    hide WF, Lang;
    LaterWF(s, op.draws);
  }

  /** Every operation keeps the invariant and moves every string as it should. */
  lemma OpMoves(s: TreeVal, op: Op, s': TreeVal, t: Tenant, x: string)
    requires WF(s) && Does(s, op, s') && x != []
    ensures WF(s') && Moves(s.nodes, op, s'.nodes, t, x)
  {
    hide *;
    match op
    case Inserted(_, _) => InsertMoves(s, op, s', t, x);
    case Raced(_, _) => RaceMoves(s, op, s', t, x);
    case Matched(_, _) => MatchMoves(s, op, s', t, x);
    case Refreshed(_, _) => MatchMoves(s, op, s', t, x);
    case Trimmed(_, _, _) => TrimMoves(s, op, s', t, x);
    case Dropped(_, _) => DropMoves(s, op, s', t, x);
    case Elsewhere(draws) => LaterMoves(s, op, s', t, x);
  }

  // ---------- every history ----------

  lemma {:induction false} HistoryWF(states: seq<TreeVal>, ops: seq<Op>, i: nat)
    requires IsHistory(states, ops) && i < |states|
    ensures WF(states[i])
  {
    hide WF, Does;
    if i == 0 {
      EmptyWF(states[0].epoch);
    } else {
      HistoryWF(states, ops, i - 1);
      assert HistoryStep(states, ops, i - 1);
      OpMoves(states[i - 1], ops[i - 1], states[i], "", "x");
    }
  }

  lemma EmptyHoldsNothing(epoch: nat, t: Tenant, x: string)
    ensures x !in Lang(Empty(epoch).nodes, t)
  {
    LangMember(Empty(epoch).nodes, t, x);
  }

  lemma ClaimedNext(ops: seq<Op>, i: nat, t: Tenant, x: string)
    requires i < |ops|
    ensures Covered(Claimed(ops[..i + 1], t), x) <==>
            !Erases(ops[i], t) && (Covered(Claimed(ops[..i], t), x) || Covered(Texts(ops[i], t), x))
  {
    hide Texts;
    assert ops[..i + 1][..i] == ops[..i];
    var before, texts := Claimed(ops[..i], t), Texts(ops[i], t);
    forall text | text in before + texts ensures text in before || text in texts {}
    if Covered(before, x) && !Erases(ops[i], t) {
      var text :| text in before && x <= text;
      assert text in before + texts;
    }
    if Covered(texts, x) && !Erases(ops[i], t) {
      var text :| text in texts && x <= text;
      assert text in before + texts;
    }
  }

  /** Whatever is in the tree was inserted for that tenant after it was last removed. */
  lemma {:induction false} NothingInvented(states: seq<TreeVal>, ops: seq<Op>, i: nat, t: Tenant, x: string)
    requires IsHistory(states, ops) && i < |states| && x != []
    ensures x in Lang(states[i].nodes, t) ==> Covered(Claimed(ops[..i], t), x)
  {
    hide WF, Does, Lang, Claimed, Covered, Texts;
    if i == 0 {
      EmptyHoldsNothing(states[0].epoch, t, x);
    } else {
      NothingInvented(states, ops, i - 1, t, x);
      HistoryWF(states, ops, i - 1);
      assert HistoryStep(states, ops, i - 1);
      OpMoves(states[i - 1], ops[i - 1], states[i], t, x);
      ClaimedNext(ops, i - 1, t, x);
      ErasesOrAdds(ops[i - 1], t, x);
    }
  }

  lemma ErasesOrAdds(op: Op, t: Tenant, x: string)
    ensures Erases(op, t) ==> !Covered(Texts(op, t), x)
  {}

  predicate NoEviction(ops: seq<Op>) {
    forall op :: op in ops ==> !op.Trimmed?
  }

  /** Until something is evicted the tree holds all of it. */
  lemma {:induction false} NothingForgotten(states: seq<TreeVal>, ops: seq<Op>, i: nat, t: Tenant, x: string)
    requires IsHistory(states, ops) && i < |states| && x != [] && NoEviction(ops[..i])
    ensures x in Lang(states[i].nodes, t) <==> Covered(Claimed(ops[..i], t), x)
  {
    hide WF, Does, Lang, Claimed, Covered, Texts;
    NothingInvented(states, ops, i, t, x);
    if i == 0 {
      NothingClaimed(t, x);
    } else {
      assert ops[..i] == ops[..i - 1] + [ops[i - 1]];
      NothingForgotten(states, ops, i - 1, t, x);
      HistoryWF(states, ops, i - 1);
      assert HistoryStep(states, ops, i - 1);
      OpMoves(states[i - 1], ops[i - 1], states[i], t, x);
      ClaimedNext(ops, i - 1, t, x);
    }
  }

  lemma NothingClaimed(t: Tenant, x: string)
    ensures !Covered(Claimed([], t), x)
  {}

  /** So a match is the best overlap with any text inserted for the tenant and not removed since. */
  lemma MatchIsBestOverlap(states: seq<TreeVal>, ops: seq<Op>, i: nat, t: Tenant, text: string, k: nat)
    requires IsHistory(states, ops) && i < |states| && NoEviction(ops[..i]) && IsLongest(states[i].nodes, t, text, k)
    ensures forall c :: c in Claimed(ops[..i], t) ==> Lcp(text, c) <= k
    ensures k > 0 ==> exists c :: c in Claimed(ops[..i], t) && Lcp(text, c) == k
  {
    hide WF, Does, Lang, Claimed, NoEviction;
    forall c | c in Claimed(ops[..i], t) ensures Lcp(text, c) <= k {
      var x := text[..Lcp(text, c)];
      assert x <= c;
      if x != [] { NothingForgotten(states, ops, i, t, x); }
    }
    if k > 0 {
      NothingForgotten(states, ops, i, t, text[..k]);
      var c :| c in Claimed(ops[..i], t) && text[..k] <= c;
      OverlapBound(text, c, k);
    }
  }

  // ---------- a text in use survives evictions ----------

  /**
   The operation is an access to the text by the tenant: its insertion, in a race as the only one of
   that tenant, a match that is decided at its node in an epoch that counts, or a match for the tenant.
   */
  ghost predicate Places(s: TreeVal, op: Op, text: string, t: Tenant) {
    match op
    case Inserted(x, u) => x == text && u == t
    case Raced(jobs, _) => exists i :: PlacedBy(jobs, i, text, t)
    case Matched(end, u) => end == text && u == t && t in s.counts && s.epoch % 8 == 0
    case Refreshed(end, u) => end == text && u == t && t in s.counts && Holds(s.nodes, end, t)
    case _ => false
  }

  predicate PlacedBy(jobs: seq<Thread>, i: int, text: string, t: Tenant) {
    && 0 <= i < |jobs| && jobs[i].text == text && jobs[i].tenant == t
    && forall j :: 0 <= j < |jobs| && j != i ==> jobs[j].tenant != t
  }

  /** The operation is another tenant's, or a match on the way to the text, or an eviction the text fits. */
  predicate Spares(op: Op, text: string, t: Tenant) {
    match op
    case Inserted(_, u) => u != t
    case Raced(jobs, _) => forall j :: 0 <= j < |jobs| ==> jobs[j].tenant != t
    case Matched(end, u) => u != t || end <= text
    case Refreshed(end, u) => u != t || end <= text
    case Trimmed(max, _, _) => |text| <= max
    case Dropped(u, _) => u != t
    case Elsewhere(_) => true
  }

  lemma PlacedIsRecent(s: TreeVal, op: Op, s': TreeVal, text: string, t: Tenant)
    requires WF(s) && Does(s, op, s') && Places(s, op, text, t)
    ensures Recent(s', text, t)
  {
    hide WF, NewestAt, Finish, Run, MatchEffect;
    match op
    case Inserted(_, _) => FinishMeaning(s, Begin(text, t));
    case Raced(jobs, schedule) =>
      var i :| PlacedBy(jobs, i, text, t);
      RacerIsRecent(System(s, jobs), schedule, i);
    case Matched(end, u) => MatchRefreshes(s, end, u);
    case Refreshed(end, u) => TouchIsNewest(s, end, u);
  }

  /** A refresh on the way to the text, or of another tenant. */
  lemma TouchKeepsNewest(s: TreeVal, end: Path, u: Tenant, text: string, t: Tenant)
    requires WF(s) && end in s.nodes && NewestAt(s.nodes, text, t) && (u != t || end <= text)
    ensures NewestAt(Touch(s, end, u).nodes, text, t)
  {
    hide Linked, TenantClosed, Accounted;
    var n, n' := s.nodes, Touch(s, end, u).nodes;
    StampHolds(n, n', end, u, s.epoch);
    if u != t {
      StampStays(n, n', end, u, s.epoch, t);
      StaysNewest(n, n', text, t);
    } else {
      forall p | !(p <= text) && Holds(n', p, t) ensures n'[p].tenants[t] < n'[text].tenants[t] {
        assert Holds(n, p, t) && p != end;
        assert n'[p] == n[p] && n[p].tenants[t] < n[text].tenants[t];
      }
    }
  }

  lemma TrimKeepsRecent(s: TreeVal, op: Op, s': TreeVal, text: string, t: Tenant)
    requires WF(s) && op.Trimmed? && Does(s, op, s') && Spares(op, text, t) && Recent(s, text, t)
    ensures Recent(s', text, t)
  {
    hide WF, NewestAt;
    var last := |op.run| - 1;
    NeverOvertrims(op.run, op.picks, op.max, t, last);
    if text != [] { NewestSurvives(op.run, op.picks, op.max, text, t, last); }
  }

  lemma DropKeepsRecent(s: TreeVal, op: Op, s': TreeVal, text: string, t: Tenant)
    requires WF(s) && op.Dropped? && Does(s, op, s') && Spares(op, text, t) && Recent(s, text, t)
    ensures Recent(s', text, t)
  {
    hide WF, Queued;
    if text != [] {
      SameStamps(s.nodes, op.left, t);
      StaysNewest(s.nodes, op.left, text, t);
    }
  }

  lemma TouchKeepsRecent(s: TreeVal, end: Path, u: Tenant, text: string, t: Tenant)
    requires WF(s) && end in s.nodes && Recent(s, text, t) && (u != t || end <= text)
    ensures Recent(Touch(s, end, u), text, t)
  {
    hide WF, NewestAt;
    if text != [] { TouchKeepsNewest(s, end, u, text, t); }
  }

  lemma MatchKeepsRecent(s: TreeVal, end: Path, u: Tenant, text: string, t: Tenant)
    requires WF(s) && end in s.nodes && Recent(s, text, t) && (u != t || end <= text)
    ensures Recent(MatchEffect(s, end, u), text, t)
  {
    hide WF, Touch, Remember;
    var s1 := s.(nodes := Remember(s.nodes, end, u));
    RememberWF(s, end, u);
    RememberHolds(s.nodes, end, u);
    if text != [] { RememberNewest(s.nodes, end, u, text, t); }
    if s.epoch % 8 == 0 { TouchKeepsRecent(s1, end, u, text, t); }
  }

  lemma RememberNewest(n: Nodes, end: Path, u: Tenant, text: string, t: Tenant)
    requires end in n && NewestAt(n, text, t)
    ensures NewestAt(Remember(n, end, u), text, t)
  {
    assert forall x, o :: Holds(Remember(n, end, u), x, o) <==> Holds(n, x, o);
  }

  /** No operation that spares the text makes it less recent. */
  lemma SparedStaysRecent(s: TreeVal, op: Op, s': TreeVal, text: string, t: Tenant)
    requires WF(s) && Does(s, op, s') && Spares(op, text, t) && Recent(s, text, t)
    ensures Recent(s', text, t)
  {
    hide WF, NewestAt, Finish, Run, Touch, Queued, OnlyLost, MatchEffect;
    match op
    case Inserted(x, u) => FinishKeepsRecent(s, Begin(x, u), text, t);
    case Raced(jobs, schedule) => RaceKeepsRecent(System(s, jobs), schedule, text, t);
    case Matched(end, u) => MatchKeepsRecent(s, end, u, text, t);
    case Refreshed(end, u) => if Holds(s.nodes, end, u) { TouchKeepsRecent(s, end, u, text, t); }
    case Trimmed(_, _, _) => TrimKeepsRecent(s, op, s', text, t);
    case Dropped(_, _) => DropKeepsRecent(s, op, s', text, t);
    case Elsewhere(_) =>
  }

  lemma {:induction false} StaysRecent(states: seq<TreeVal>, ops: seq<Op>, i: nat, j: nat, text: string, t: Tenant)
    requires IsHistory(states, ops) && i < j <= |ops| && Places(states[i], ops[i], text, t)
    requires forall k :: i < k < j ==> Spares(ops[k], text, t)
    ensures Recent(states[j], text, t)
  {
    hide WF, Does, Places, Spares, Recent;
    HistoryWF(states, ops, j - 1);
    assert HistoryStep(states, ops, j - 1);
    if j == i + 1 {
      PlacedIsRecent(states[i], ops[i], states[j], text, t);
    } else {
      StaysRecent(states, ops, i, j - 1, text, t);
      SparedStaysRecent(states[j - 1], ops[j - 1], states[j], text, t);
    }
  }

  /**
   After a text has been accessed, by an insertion alone or in a race or by a match, anything may happen
   that is not this tenant's own: other tenants' insertions, races, matches and removals, matches on the
   way to the text, and any number of evictions the text fits.  The text is still held in full.
   */
  lemma RecentSurvives(states: seq<TreeVal>, ops: seq<Op>, i: nat, j: nat, text: string, t: Tenant)
    requires IsHistory(states, ops) && i < j <= |ops| && Places(states[i], ops[i], text, t)
    requires forall k :: i < k < j ==> Spares(ops[k], text, t)
    ensures text in Lang(states[j].nodes, t)
  {
    hide WF, Does, Places, Spares, Recent, Lang;
    StaysRecent(states, ops, i, j, text, t);
    HistoryWF(states, ops, j);
    RecentHeld(states[j], text, t);
  }

}
