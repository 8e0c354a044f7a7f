/**
 The tree as it is kept in memory: nodes that point to their children and to their parent and
 are updated in place.  `Abs` reads the value of module RadixTree off the heap; every method is
 proved against it.
 */
module RadixHeap {
  import opened Strings
  import opened RadixTree
  import opened RadixInsert
  import opened RadixThreads
  import opened RadixMatch
  import opened RadixDetach
  import opened RadixEvict
  import opened RadixRemove
  import opened RadixWalk
  import opened RadixHistory
  import opened RadixAffinity
  import opened Sequences

  class Node {
    var text: NodeText
    var children: map<char, Node>
    var tenants: map<Tenant, nat>
    var parent: Node?
    var lastTenant: Option<Tenant>
    ghost const path: Path

    constructor (text: NodeText, children: map<char, Node>, tenants: map<Tenant, nat>, parent: Node?,
                 lastTenant: Option<Tenant>, ghost path: Path)
      ensures this.text == text && this.children == children && this.tenants == tenants
      ensures this.parent == parent && this.lastTenant == lastTenant && this.path == path
    {
      this.text, this.children, this.tenants := text, children, tenants;
      this.parent, this.lastTenant, this.path := parent, lastTenant, path;
    }

    ghost function Val(): NodeVal
      reads this
    {
      NodeVal(text,
              if parent == null then None else Some(parent.path),
              map c | c in children :: children[c].path,
              tenants,
              lastTenant)
    }
  }

  const NO_TENANTS: map<Tenant, nat> := map[]

  lemma TwoUpdates(n: Nodes, n': Nodes, q: Path, v: NodeVal, p: Path, w: NodeVal)
    requires n'.Keys == n.Keys + {p} && q in n && p !in n && n'[q] == v && n'[p] == w
    requires forall x :: x in n && x != q ==> n'[x] == n[x]
    ensures n' == n[q := v][p := w]
  {}

  lemma ThreeUpdates(n: Nodes, n': Nodes, q: Path, v: NodeVal, p: Path, w: NodeVal, m: Path, u: NodeVal)
    requires n'.Keys == n.Keys + {p} && q in n && m in n && q != m && p !in n
    requires n'[q] == v && n'[p] == w && n'[m] == u
    requires forall x :: x in n && x != q && x != m ==> n'[x] == n[x]
    ensures n' == n[q := v][p := w][m := u]
  {}

  lemma OneDropped(n: Nodes, n': Nodes, p: Path, u: Path, v: NodeVal)
    requires n'.Keys == n.Keys - {p} && p in n && u in n && u != p && n'[u] == v
    requires forall x :: x in n' && x != u ==> n'[x] == n[x]
    ensures n' == (n - {p})[u := v]
  {}

  /** Where a new node goes: below the node at `parent`, at `path`, under the character `key`. */
  datatype Site = Site(parent: Path, path: Path, key: char)

  /** A new node that also takes over an existing one. */
  datatype Splice = Splice(site: Site, below: Path, belowKey: char)

  /** What the eviction queue holds. */
  datatype HeapEntry = HeapEntry(stamp: nat, tenant: Tenant, node: Node)

  datatype InsertStep = Finished | Continue(next: Node, advance: nat)

  class Tree {
    const root: Node
    var counts: map<Tenant, nat>
    var epoch: nat
    ghost var at: map<Path, Node>
    ghost var repr: set<Node>

    /** A new tree, in a process that has drawn `epoch` epochs already. */
    constructor (epoch: nat)
      ensures Valid() && fresh(repr) && Abs() == Empty(epoch)
    {
      var r := new Node(NodeText.Of([]), map[], map[], null, None, []);
      root, counts, this.epoch, at, repr := r, map[], epoch, map[[] := r], {r};
      new;
      EmptyWF(epoch);
      assert Abs() == Empty(epoch);
    }

    /** Other trees of the process draw epochs from the same counter. */
    method DrawnElsewhere(draws: nat)
      requires Valid()
      modifies this`epoch
      ensures Valid() && epoch == old(epoch) + draws && Does(old(Abs()), Elsewhere(draws), Abs())
    {
      hide WF;
      LaterWF(Abs(), draws);
      epoch := epoch + draws;
      assert NodeVals() == old(NodeVals());
    }

    ghost predicate Live(x: Node)
      reads this`at
    {
      x.path in at && at[x.path] == x
    }

    ghost predicate Anchored(x: Node)
      reads this`at, x
    {
      && (x.parent != null ==> Live(x.parent))
      && (forall c :: c in x.children ==> Live(x.children[c]))
    }

    ghost predicate Shape()
      reads this`at, this`repr, at.Values
    {
      && [] in at && at[[]] == root
      && (forall p :: p in at ==> at[p].path == p && at[p] in repr)
      && (forall p {:trigger Anchored(at[p])} :: p in at ==> Anchored(at[p]))
    }

    ghost function NodeVals(): Nodes
      reads this`at, at.Values
    {
      map p | p in at :: at[p].Val()
    }

    ghost function Abs(): TreeVal
      reads this, at.Values
    {
      TreeVal(NodeVals(), counts, epoch)
    }

    ghost predicate Valid()
      reads this, at.Values
    {
      Shape() && WF(Abs())
    }

    // ---------- what an update of a few nodes leaves alone ----------

    twostate predicate Untouched(p: Path)
      reads this`at, at.Values
    {
      && p in old(at) && p in at && at[p] == old(at[p]) && at[p].Val() == old(at[p].Val())
      && at[p].children == old(at[p].children) && at[p].parent == old(at[p].parent)
    }

    /** Nodes were added or relinked and nothing was dropped: it is enough to look at the relinked ones. */
    twostate lemma Regrown()
      requires old(Shape()) && forall p :: p in old(at) ==> p in at && at[p] == old(at[p])
      requires forall p :: p in at ==> at[p].path == p && at[p] in repr
      requires forall p :: p in at ==> Untouched(p) || Anchored(at[p])
      ensures Shape()
    {
      forall p | p in at ensures Anchored(at[p]) {
        if Untouched(p) { assert old(Anchored(at[p])); }
      }
    }

    // ---------- updates of single nodes ----------

    method SetStamp(x: Node, t: Tenant, ts: nat)
      requires Shape() && Live(x)
      modifies x`tenants
      ensures Shape() && NodeVals() == Stamp(old(NodeVals()), x.path, t, ts)
    {
      x.tenants := x.tenants[t := ts];
      forall p | p in at ensures p == x.path || Untouched(p) {}
      assert Anchored(x) by { assert old(Anchored(at[x.path])); }
      Regrown();
    }

    method SetLast(x: Node, t: Tenant)
      requires Shape() && Live(x)
      modifies x`lastTenant
      ensures Shape() && x.path in old(NodeVals()) && NodeVals() == Remember(old(NodeVals()), x.path, t)
    {
      ghost var v := x.Val();
      x.lastTenant := Some(t);
      assert x.Val() == v.(last := Some(t));
      forall p | p in at ensures p == x.path || Untouched(p) {}
      assert Anchored(x) by { assert old(Anchored(at[x.path])); }
      Regrown();
    }

    /** The tenant joins a node, unless it is there already. */
    method Join(x: Node, t: Tenant)
      requires Shape() && Live(x)
      modifies this`counts, x`tenants
      ensures Shape() && Abs() == Attach(old(Abs()), x.path, t)
    {
      if t !in x.tenants {
        counts := Bump(counts, t, x.text.charCount);
        SetStamp(x, t, 0);
      }
    }

    /** A vacant entry: hang a leaf with the remaining text. */
    method HangLeaf(prev: Node, remaining: string, t: Tenant, ts: nat)
      requires Shape() && Live(prev) && remaining != [] && prev.path + remaining !in at
      modifies this`at, this`repr, prev`children
      ensures Shape() && fresh(repr - old(repr))
      ensures NodeVals() == WithLeaf(old(NodeVals()), prev.path, remaining, t, ts)
    {
      var leaf := new Node(NodeText.Of(remaining), map[], NO_TENANTS[t := ts], prev, Some(t), prev.path + remaining);
      prev.children := prev.children[remaining[0] := leaf];
      at, repr := at[leaf.path := leaf], repr + {leaf};
      forall x | x in old(at) && x != prev.path ensures Untouched(x) {}
      HungShape(Site(prev.path, leaf.path, remaining[0]));
      HungVals(Site(prev.path, leaf.path, remaining[0]));
    }

    /** The node at `q` is as before except for the child it now has at the site. */
    twostate predicate Rechilded(site: Site)
      reads this`at, at.Values
    {
      var Site(q, p, c) := site;
      && q in old(at) && q in at && p in at && at[q] == old(at[q])
      && at[q].children == old(at[q].children)[c := at[p]]
      && at[q].parent == old(at[q].parent) && at[q].text == old(at[q].text) && at[q].tenants == old(at[q].tenants)
      && at[q].lastTenant == old(at[q].lastTenant)
    }

    /** A leaf has been hung at the site. */
    twostate predicate Hung(site: Site)
      reads this`at, this`repr, at.Values
    {
      var Site(q, p, c) := site;
      && p !in old(at) && p in at && at == old(at)[p := at[p]] && repr == old(repr) + {at[p]}
      && Rechilded(site)
      && at[p].path == p && at[p].children == map[] && at[p].parent == at[q]
      && (forall x :: x in old(at) && x != q ==> Untouched(x))
    }

    twostate lemma HungShape(site: Site)
      requires old(Shape()) && Hung(site)
      ensures Shape()
    {
      var q := site.parent;
      assert Anchored(at[q]) by { assert old(Anchored(at[q])); }
      Regrown();
    }

    twostate lemma HungVals(site: Site)
      requires old(Shape()) && Hung(site)
      ensures var (n, q, p) := (old(NodeVals()), site.parent, site.path);
              NodeVals() == n[q := n[q].(children := n[q].children[site.key := p])]
                             [p := NodeVal(at[p].text, Some(q), map[], at[p].tenants, at[p].lastTenant)]
    {
      var Site(q, p, c) := site;
      assert at[p].Val() == NodeVal(at[p].text, Some(q), map[], at[p].tenants, at[p].lastTenant);
      assert at[q].Val() == old(at[q].Val()).(children := old(at[q].Val()).children[c := p]);
      forall x | x in old(at) && x != q ensures at[x].Val() == old(at[x].Val()) {
        assert Untouched(x);
      }
      TwoUpdates(old(NodeVals()), NodeVals(), q, at[q].Val(), p, at[p].Val());
    }

    /** A child that shares only `k` characters is split; the new node takes its place below `prev`. */
    method SplitChild(prev: Node, matched: Node, k: nat) returns (mid: Node)
      requires Shape() && Live(prev) && Live(matched) && prev != matched
      requires matched.text.Valid() && 0 < k < |matched.text.str|
      requires prev.path + matched.text.str[..k] !in at
      modifies this`at, this`repr, prev`children, matched`text, matched`parent
      ensures Shape() && NodeVals() == SplitNode(old(NodeVals()), prev.path, matched.path, k)
      ensures Live(mid) && mid.path == prev.path + old(matched.text.str)[..k]
      ensures fresh(mid) && fresh(repr - old(repr))
    {
      var (upper, lower) := SplitAtChar(matched.text, k);
      ghost var p := prev.path + upper.str;
      mid := new Node(upper, map[lower.str[0] := matched], matched.tenants, prev, matched.lastTenant, p);
      prev.children := prev.children[upper.str[0] := mid];
      matched.text := lower;
      matched.parent := mid;
      at, repr := at[p := mid], repr + {mid};
      forall x | x in old(at) && x != prev.path && x != matched.path ensures Untouched(x) {}
      ghost var splice := Splice(Site(prev.path, p, upper.str[0]), matched.path, lower.str[0]);
      SplicedShape(splice);
      SplicedVals(splice);
    }

    /** A node has been put at the site, between the parent and the child at `below`. */
    twostate predicate Spliced(splice: Splice)
      reads this`at, this`repr, at.Values
    {
      var Splice(Site(q, p, c), m, d) := splice;
      && p !in old(at) && p in at && at == old(at)[p := at[p]] && repr == old(repr) + {at[p]}
      && Rechilded(splice.site) && q != m && m in old(at)
      && at[p].path == p && at[p].children == map[d := at[m]] && at[p].parent == at[q]
      && at[m].parent == at[p] && at[m].children == old(at[m].children) && at[m].tenants == old(at[m].tenants)
      && at[m].lastTenant == old(at[m].lastTenant)
      && (forall x :: x in old(at) && x != q && x != m ==> Untouched(x))
    }

    twostate lemma SplicedShape(splice: Splice)
      requires old(Shape()) && Spliced(splice)
      ensures Shape()
    {
      var q, m := splice.site.parent, splice.below;
      assert Anchored(at[q]) by { assert old(Anchored(at[q])); }
      assert Anchored(at[m]) by { assert old(Anchored(at[m])); }
      Regrown();
    }

    twostate lemma SplicedVals(splice: Splice)
      requires old(Shape()) && Spliced(splice)
      ensures var (n, q, p, m) := (old(NodeVals()), splice.site.parent, splice.site.path, splice.below);
              NodeVals() == n[q := n[q].(children := n[q].children[splice.site.key := p])]
                             [p := NodeVal(at[p].text, Some(q), map[splice.belowKey := m], at[p].tenants,
                                           at[p].lastTenant)]
                             [m := n[m].(text := at[m].text, parent := Some(p))]
    {
      var Splice(Site(q, p, c), m, d) := splice;
      assert at[p].Val() == NodeVal(at[p].text, Some(q), map[d := m], at[p].tenants, at[p].lastTenant);
      assert at[q].Val() == old(at[q].Val()).(children := old(at[q].Val()).children[c := p]);
      forall x | x in old(at) && x != q && x != m ensures at[x].Val() == old(at[x].Val()) {
        assert Untouched(x);
      }
      ThreeUpdates(old(NodeVals()), NodeVals(), q, at[q].Val(), p, at[p].Val(), m, at[m].Val());
    }

    // ---------- insertion ----------

    lemma PathOf(x: Node)
      requires Shape() && Live(x)
      ensures x.path in NodeVals() && NodeVals()[x.path] == x.Val()
    {}

    method Vacant(prev: Node, remaining: string, t: Tenant)
      requires Shape() && Linked(NodeVals()) && Live(prev) && remaining != [] && remaining[0] !in prev.children
      modifies this, prev`children
      ensures Shape() && fresh(repr - old(repr))
      ensures Abs() == AddLeaf(old(Abs()), prev.path, remaining, t)
    {
      PathOf(prev);
      LeafFresh(NodeVals(), prev.path, remaining);
      HangLeaf(prev, remaining, t, epoch);
      ghost var nodes := NodeVals();
      counts, epoch := Bump(counts, t, |remaining|), epoch + 1;
      assert NodeVals() == nodes;
    }

    method Partial(prev: Node, matched: Node, shared: nat, t: Tenant) returns (mid: Node)
      requires Shape() && Live(prev) && Live(matched) && Splittable(NodeVals(), prev.path, matched.path, shared)
      modifies this, prev`children, matched`text, matched`parent
      ensures Shape() && fresh(repr - old(repr)) && Live(mid)
      ensures mid.path == prev.path + old(matched.text.str)[..shared]
      ensures mid.path in SplitNode(old(NodeVals()), prev.path, matched.path, shared)
      ensures var split := SplitNode(old(NodeVals()), prev.path, matched.path, shared);
              Abs() == Attach(old(Abs()).(nodes := split), mid.path, t)
    {
      PathOf(matched);
      SplitTexts(NodeVals(), prev.path, matched.path, shared);
      SplitFresh(NodeVals(), prev.path, matched.path, shared);
      mid := SplitChild(prev, matched, shared);
      Join(mid, t);
    }

    /** One iteration of the loop of `insert`. */
    method Iteration(prev: Node, remaining: string, t: Tenant, ghost th: Thread) returns (step: InsertStep)
      requires Valid() && Live(prev) && ThreadOK(Abs(), th)
      requires th.phase == Walking && th.tenant == t && th.at == prev.path && th.remaining == remaining != []
      modifies this, repr
      ensures Shape() && fresh(repr - old(repr))
      ensures Abs() == Iterate(old(Abs()), th).0
      ensures step == Finished ==> Iterate(old(Abs()), th).1.phase == Done
      ensures step.Continue? ==>
        && 0 < step.advance <= |remaining| && Live(step.next)
        && Iterate(old(Abs()), th).1 == th.(at := step.next.path, remaining := remaining[step.advance..])
    {
      PathOf(prev);
      if remaining[0] !in prev.children {
        Vacant(prev, remaining, t);
        return Finished;
      }
      var matched := prev.children[remaining[0]];
      MeetsChild(Abs().nodes, prev.path, remaining);
      assert Live(matched) by { assert Anchored(at[prev.path]); }
      PathOf(matched);
      var shared := Lcp(remaining, matched.text.str);
      if shared < matched.text.charCount {
        var mid := Partial(prev, matched, shared, t);
        return Continue(mid, shared);
      } else {
        Join(matched, t);
        return Continue(matched, shared);
      }
    }
  
    /** The tenant is entered at the root and its count is opened. */
    method Register(t: Tenant)
      requires Shape()
      modifies this`counts, root`tenants
      ensures Shape() && Abs() == OpenCount(Enroll(old(Abs()), t), t)
    {
      counts := Bump(counts, t, 0);
      if t !in root.tenants {
        SetStamp(root, t, 0);
      }
    }

    /** The access time of `t` at a node becomes the next epoch. */
    method Refresh(x: Node, t: Tenant)
      requires Shape() && Live(x)
      modifies this`epoch, x`tenants
      ensures Shape() && Abs() == Touch(old(Abs()), x.path, t) && epoch == old(epoch) + 1
    {
      hide Shape, NodeVals, Stamp;
      SetStamp(x, t, epoch);
      epoch := epoch + 1;
    }

    method Begun(text: string, t: Tenant)
      requires Valid()
      modifies this`counts, root`tenants
      ensures Shape() && at == old(at) && repr == old(repr)
      ensures OnCourse(Abs(), Thread(text, t, Walking, [], text), Finish(old(Abs()), Begin(text, t)))
    {
      hide WF, OnCourse, Finish;
      RegisterOnCourse(Abs(), text, t);
      Register(t);
    }

    method Guided(prev: Node, remaining: string, t: Tenant, ghost th: Thread, ghost goal: TreeVal)
      returns (step: InsertStep, ghost th': Thread)
      requires Shape() && Live(prev) && OnCourse(Abs(), th, goal)
      requires th == Thread(th.text, t, Walking, prev.path, remaining) && remaining != []
      modifies this, repr
      ensures Shape() && fresh(repr - old(repr)) && OnCourse(Abs(), th', goal)
      ensures step == Finished ==> Abs() == goal
      ensures step.Continue? ==>
        && 0 < step.advance <= |remaining| && Live(step.next)
        && th' == Thread(th.text, t, Walking, step.next.path, remaining[step.advance..])
    {
      IterateOnCourse(Abs(), th, goal);
      th' := Iterate(Abs(), th).1;
      step := Iteration(prev, remaining, t, th);
    }

    method Close(prev: Node, t: Tenant, ghost th: Thread, ghost goal: TreeVal)
      requires Shape() && Live(prev) && OnCourse(Abs(), th, goal)
      requires th == Thread(th.text, t, Walking, prev.path, [])
      modifies this`epoch, prev`tenants
      ensures Shape() && Abs() == goal
    {
      TouchOnCourse(Abs(), th, goal);
      Refresh(prev, t);
    }

    /** The loop of `insert` and the time stamp after it. */
    method Descend(text: string, t: Tenant, ghost goal: TreeVal)
      requires Shape() && OnCourse(Abs(), Thread(text, t, Walking, [], text), goal)
      modifies this, repr
      ensures Shape() && Abs() == goal && fresh(repr - old(repr))
    {
      hide OnCourse;
      var remaining, prev := text, root;
      ghost var th := Thread(text, t, Walking, [], text);
      while remaining != []
        invariant Shape() && Live(prev) && fresh(repr - old(repr))
        invariant th == Thread(text, t, Walking, prev.path, remaining) && OnCourse(Abs(), th, goal)
        decreases |remaining|
      {
        ghost var before := repr;
        var step;
        step, th := Guided(prev, remaining, t, th, goal);
        assert repr - old(repr) <= (repr - before) + (before - old(repr));
        if step == Finished { return; }
        prev, remaining := step.next, remaining[step.advance..];
      }
      Close(prev, t, th, goal);
    }

    method Insert(text: string, t: Tenant)
      requires Valid()
      modifies this, repr
      ensures Valid() && fresh(repr - old(repr))
      ensures Gains(old(NodeVals()), NodeVals(), t, text)
      ensures NewestAt(NodeVals(), text, t) && t in counts
      ensures Does(old(Abs()), Inserted(text, t), Abs())
      ensures forall q {:trigger Answers(NodeVals(), q, t)} ::
        q != [] && q <= text && Unheld(old(NodeVals()), q) ==> Answers(NodeVals(), q, t)
    {
      hide WF, OnCourse, Gains, NewestAt, Finish, Answers, Unheld;
      ghost var goal := Finish(Abs(), Begin(text, t));
      Begun(text, t);
      Descend(text, t, goal);
      FinishMeaning(old(Abs()), Begin(text, t));
      forall q | q != [] && q <= text && Unheld(old(NodeVals()), q) ensures Answers(NodeVals(), q, t) {
        FirstInserterRemembered(old(Abs()), text, t, q);
      }
    }

    // ---------- matching ----------

    lemma RootLive()
      requires Valid()
      ensures Live(root) && root.path == [] && root.parent == null
    {}

    /** The walk stops: no child under the next character. */
    lemma EndsHere(x: Node, text: string, t: Tenant)
      requires Valid() && Live(x) && x.path < text && text[|x.path|] !in x.children
      ensures NoneBeyond(NodeVals(), t, text, |x.path|)
    {
      PathOf(x);
      NoChild(NodeVals(), t, x.path, text);
    }

    /** The child under the next character, and how it compares with the text. */
    lemma Meets(x: Node, text: string)
      requires Valid() && Live(x) && x.path < text && text[|x.path|] in x.children
      ensures var y := x.children[text[|x.path|]];
              && Live(y) && y.path in NodeVals() && y.parent != null && y.parent.path == x.path
              && var k := Lcp(text[|x.path|..], y.text.str);
              && 0 < k <= y.text.charCount && |x.path| + k <= |text| && text[..|x.path| + k] <= y.path
              && (k == y.text.charCount ==> y.path <= text && |y.path| == |x.path| + k)
    {
      var y := x.children[text[|x.path|]];
      assert Anchored(at[x.path]);
      PathOf(x);
      PathOf(y);
      ChildMeets(NodeVals(), x.path, text);
    }

    /** The walk stops: the tenant is not at the child. */
    lemma NotHeld(x: Node, text: string, t: Tenant)
      requires Valid() && Live(x) && x.path < text && text[|x.path|] in x.children
      requires t !in x.children[text[|x.path|]].tenants
      ensures NoneBeyond(NodeVals(), t, text, |x.path|)
    {
      Meets(x, text);
      PathOf(x);
      ChildNotHeld(NodeVals(), t, x.path, text);
    }

    /** The walk stops: the text parts from the child's text. */
    lemma Diverges(x: Node, text: string, t: Tenant)
      requires Valid() && Live(x) && x.path < text && text[|x.path|] in x.children
      requires var y := x.children[text[|x.path|]];
               Lcp(text[|x.path|..], y.text.str) < y.text.charCount
      ensures NoneBeyond(NodeVals(), t, text, |x.path| + Lcp(text[|x.path|..], x.children[text[|x.path|]].text.str))
    {
      Meets(x, text);
      PathOf(x);
      ChildDiverges(NodeVals(), t, x.path, text);
    }

    lemma HolderMatches(x: Node, t: Tenant, s: string)
      requires Valid() && Live(x) && t in x.tenants && s <= x.path
      ensures s in Lang(NodeVals(), t)
    {
      PathOf(x);
      HolderHasPrefix(NodeVals(), t, x.path, s);
    }

    /** The walk for one tenant: the matched length and the last node it reached. */
    method PrefixMatchTenantState(text: string, t: Tenant) returns (matched: nat, last: Node)
      requires Valid()
      ensures IsLongest(NodeVals(), t, text, matched)
      ensures Live(last) && (matched > 0 ==> t in last.tenants) && text[..matched] <= last.path
      ensures matched <= |text| && (matched > 0 <==> last.path != [])
      ensures last.parent != null ==> |last.parent.path| < matched
    {
      hide Valid, NodeVals, NoneBeyond, Lcp, Lang;
      var remaining := text;
      matched, last := 0, root;
      RootLive();
      while remaining != []
        invariant Live(last) && last.path <= text && remaining == text[|last.path|..] && matched == |last.path|
        invariant (matched > 0 ==> t in last.tenants) && (last.parent != null ==> |last.parent.path| < matched)
        decreases |remaining|
      {
        if matched > 0 { HolderMatches(last, t, text[..matched]); }
        if remaining[0] !in last.children {
          EndsHere(last, text, t);
          return;
        }
        var node := last.children[remaining[0]];
        Meets(last, text);
        if t !in node.tenants {
          NotHeld(last, text, t);
          return;
        }
        var shared := Lcp(remaining, node.text.str);
        HolderMatches(node, t, text[..matched + shared]);
        matched := matched + shared;
        if shared != node.text.charCount {
          Diverges(last, text, t);
          last := node;
          return;
        }
        last := node;
        remaining := remaining[shared..];
      }
      if matched > 0 { HolderMatches(last, t, text[..matched]); }
      TextExhausted(NodeVals(), t, text);
    }

    /** The walk for whoever has the most: the matched length and the node that decides the tenant. */
    method Deepest(text: string) returns (matched: nat, curr: Node)
      requires Valid()
      ensures forall o :: NoneBeyond(NodeVals(), o, text, matched)
      ensures matched <= |text| && Live(curr) && text[..matched] <= curr.path
      ensures matched > 0 <==> curr.path != []
      ensures curr.parent != null ==> |curr.parent.path| < matched
    {
      hide Valid, NodeVals, NoneBeyond;
      var remaining := text;
      matched, curr := 0, root;
      RootLive();
      while remaining != []
        invariant Live(curr) && curr.path <= text && remaining == text[|curr.path|..] && matched == |curr.path|
        invariant curr.parent != null ==> |curr.parent.path| < matched
        decreases |remaining|
      {
        if remaining[0] !in curr.children {
          forall o ensures NoneBeyond(NodeVals(), o, text, matched) { EndsHere(curr, text, o); }
          return;
        }
        var node := curr.children[remaining[0]];
        Meets(curr, text);
        var shared := Lcp(remaining, node.text.str);
        matched := matched + shared;
        if shared != node.text.charCount {
          forall o ensures NoneBeyond(NodeVals(), o, text, matched) { Diverges(curr, text, o); }
          curr := node;
          return;
        }
        curr := node;
        remaining := remaining[shared..];
      }
      forall o ensures NoneBeyond(NodeVals(), o, text, matched) { TextExhausted(NodeVals(), o, text); }
    }

    /** The cached tenant if it is still at the node, else any tenant there, else the name "empty". */
    method PickTenant(curr: Node) returns (t: Tenant)
      requires Valid() && Live(curr)
      modifies curr`lastTenant
      ensures Shape() && Picks(old(curr.Val()), t)
      ensures curr.path in old(NodeVals()) && NodeVals() == Remember(old(NodeVals()), curr.path, t)
    {
      hide Shape;
      PathOf(curr);
      if curr.lastTenant.Some? && curr.lastTenant.value in curr.tenants {
        t := curr.lastTenant.value;
      } else {
        if curr.tenants != map[] {
          t :| t in curr.tenants;
        } else {
          t := "empty";
        }
        SetLast(curr, t);
      }
    }

    /** The epoch drawn by a match, and the access time it may become. */
    method Record(curr: Node, t: Tenant)
      requires Shape() && Live(curr)
      modifies this`epoch, curr`tenants
      ensures Shape() && at == old(at) && (old(epoch) % 8 != 0 ==> curr.tenants == old(curr.tenants))
      ensures Abs() == if old(epoch) % 8 == 0 then Touch(old(Abs()), curr.path, t) else Later(old(Abs()), 1)
    {
      hide Touch;
      if epoch % 8 == 0 {
        Refresh(curr, t);
      } else {
        epoch := epoch + 1;
      }
    }

    /** The most any tenant matches, a tenant with that match, and the node that decides it. */
    method PrefixMatchWithCounts(text: string) returns (tenant: Tenant, matched: nat, input: nat, ghost end: Path)
      requires Valid()
      modifies this, repr
      ensures Valid() && at == old(at) && repr == old(repr) && counts == old(counts)
      ensures end in old(NodeVals()) && Decides(old(NodeVals())[end], end, text, matched)
      ensures Does(old(Abs()), Matched(end, tenant), Abs())
      ensures input == |text| && IsLongest(old(NodeVals()), tenant, text, matched)
      ensures forall o :: NoneBeyond(old(NodeVals()), o, text, matched)
      ensures SameKeys(old(NodeVals()), NodeVals())
      ensures SameLangs(old(NodeVals()), NodeVals()) <==> old(root.tenants) != map[] || old(epoch) % 8 != 0
      ensures forall a :: matched > 0 && Answers(old(NodeVals()), text[..matched], a) ==> tenant == a
      ensures matched > 0 ==> Answers(NodeVals(), text[..matched], tenant)
      ensures epoch == old(epoch) + 1 && (old(epoch) % 8 == 0 ==> NewestAt(NodeVals(), end, tenant))
      ensures old(epoch) % 8 != 0 ==> forall p :: p in at ==> at[p].tenants == old(at[p].tenants)
    {
      hide WF, NodeVals, NoneBeyond, SameKeys, SameLangs, Holds, Lang, NewestAt, Picks, Touch, Remember, Answers;
      var curr;
      matched, curr := Deepest(text);
      PathOf(curr);
      PathOf(root);
      ghost var s := Abs();
      end := curr.path;
      tenant := PickTenant(curr);
      Vouches(s, end, text, matched, tenant);
      MatchEffectWF(s, end, tenant);
      MatchRefreshes(s, end, tenant);
      MatchAffinity(s, end, text, matched, tenant);
      Record(curr, tenant);
      input := |text|;
    }

    /** The character count alone: the tree is only read. */
    method PrefixMatchTenantCharCount(text: string, t: Tenant) returns (matched: nat)
      requires Valid()
      ensures IsLongest(NodeVals(), t, text, matched)
    {
      var last;
      matched, last := PrefixMatchTenantState(text, t);
    }

    /** As the count, and the match refreshes the access time of the last node if the tenant is there. */
    method PrefixMatchTenant(text: string, t: Tenant) returns (prefix: string, ghost end: Path)
      requires Valid()
      modifies this, repr
      ensures Valid() && at == old(at) && repr == old(repr) && counts == old(counts)
      ensures prefix <= text && IsLongest(old(NodeVals()), t, text, |prefix|)
      ensures end in old(NodeVals()) && Decides(old(NodeVals())[end], end, text, |prefix|)
      ensures Does(old(Abs()), Refreshed(end, t), Abs())
      ensures if old(t in at[end].tenants) then NewestAt(NodeVals(), end, t) && epoch == old(epoch) + 1
              else Abs() == old(Abs())
      ensures SameLangs(old(NodeVals()), NodeVals())
    {
      hide WF, NodeVals, IsLongest, SameLangs, Touch, NewestAt;
      var matched, last := PrefixMatchTenantState(text, t);
      LongestFits(NodeVals(), t, text, matched);
      PathOf(last);
      end := last.path;
      SameLangsRefl(NodeVals());
      if t in last.tenants {
        TouchWF(Abs(), last.path, t);
        TouchIsNewest(Abs(), last.path, t);
        Refresh(last, t);
      }
      prefix := text[..matched];
    }

    // ---------- taking a tenant off a node ----------

    method Release(x: Node, t: Tenant)
      requires Shape() && Live(x)
      modifies x`tenants
      ensures Shape() && NodeVals() == Unstamp(old(NodeVals()), x.path, t)
    {
      x.tenants := x.tenants - {t};
      forall p | p in at ensures p == x.path || Untouched(p) {}
      assert Anchored(x) by { assert old(Anchored(at[x.path])); }
      Regrown();
    }

    /** No link leads to a childless node but the one from its parent. */
    lemma OnlyParentLinks(x: Node, p: Path)
      requires Shape() && Linked(NodeVals()) && Live(x) && x.children == map[] && x.parent != null && x.text.str != []
      requires p in at && p != x.path
      ensures at[p].parent != x
      ensures forall c :: c in at[p].children && at[p].children[c] == x ==> at[p] == x.parent && c == x.text.str[0]
    {
      assert Anchored(x) by { assert Anchored(at[x.path]); }
      PathOf(x);
      PathOf(at[p]);
      assert Hangs(NodeVals(), x.path);
      if p != [] { assert Hangs(NodeVals(), p); }
      forall c | c in at[p].children && at[p].children[c] == x ensures at[p] == x.parent && c == x.text.str[0] {
        assert Edge(NodeVals(), p, c);
      }
    }

    lemma ParentLive(x: Node)
      requires Shape() && Linked(NodeVals()) && Live(x) && x.parent != null
      ensures Live(x.parent) && x.parent != x && x.parent in repr && x.path != []
    {
      PathOf(x);
      assert Anchored(at[x.path]);
      assert Hangs(NodeVals(), x.path);
    }

    method Unhook(x: Node)
      requires Shape() && Linked(NodeVals()) && Live(x) && x.children == map[] && x.tenants == map[]
      requires x.parent != null && x.text.str != []
      modifies this`at, x.parent`children
      ensures Shape() && at == old(at) - {x.path}
      ensures x.path in old(NodeVals()) && Deserted(old(NodeVals())[x.path]) && x.parent.path in old(NodeVals())
      ensures NodeVals() == Unhang(old(NodeVals()), x.path)
    {
      hide Linked, NodeVals;
      var u := x.parent;
      PathOf(x);
      ParentLive(x);
      forall p | p in at && p != x.path
        ensures at[p].parent != x
        ensures forall c :: c in at[p].children && at[p].children[c] == x ==> at[p] == u && c == x.text.str[0]
      {
        OnlyParentLinks(x, p);
      }
      u.children := u.children - {x.text.str[0]};
      at := at - {x.path};
      forall p | p in at && p != u.path ensures Untouched(p) {}
      UnhookedShape(x.path);
      UnhookedVals(x.path);
    }

    /** The childless node at `p` has been taken out, and its entry at its parent with it. */
    twostate predicate Unhooked(p: Path)
      reads this`at, this`repr, at.Values
    {
      && p in old(at) && at == old(at) - {p} && repr == old(repr)
      && old(at[p].parent != null && at[p].text.str != [])
      && var (u, c) := (old(at[p].parent.path), old(at[p].text.str[0]));
      && u in at && u in old(at) && at[u].children == old(at[u].children) - {c}
      && at[u].parent == old(at[u].parent) && at[u].text == old(at[u].text) && at[u].tenants == old(at[u].tenants)
      && at[u].lastTenant == old(at[u].lastTenant)
      && (forall x :: x in at && x != u ==> Untouched(x))
      && (forall x :: x in at ==> at[x].parent != old(at[p]))
      && (forall x, d :: x in at && d in at[x].children ==> at[x].children[d] != old(at[p]))
    }

    twostate lemma UnhookedShape(p: Path)
      requires old(Shape()) && p != [] && Unhooked(p)
      ensures Shape()
    {
      forall x | x in at ensures Anchored(at[x]) {
        assert old(Anchored(at[x]));
        assert x != old(at[p].parent.path) ==> Untouched(x);
      }
    }

    twostate lemma UnhookedVals(p: Path)
      requires old(Shape()) && Unhooked(p)
      ensures var (n, u, c) := (old(NodeVals()), old(at[p].parent.path), old(at[p].text.str[0]));
              u in n && NodeVals() == (n - {p})[u := n[u].(children := n[u].children - {c})]
    {
      var u, c := old(at[p].parent.path), old(at[p].text.str[0]);
      assert at[u].Val() == old(at[u].Val()).(children := old(at[u].Val()).children - {c});
      forall x | x in at && x != u ensures at[x].Val() == old(at[x].Val()) {
        assert Untouched(x);
      }
      OneDropped(old(NodeVals()), NodeVals(), p, u, at[u].Val());
    }

    /** The tenant leaves the node; the node goes when nothing is left at it. */
    method Drop(x: Node, t: Tenant)
      requires Shape() && Linked(NodeVals()) && Live(x)
      modifies this`at, repr
      ensures Shape() && NodeVals() == Detach(old(NodeVals()), x.path, t)
      ensures repr == old(repr) && (at == old(at) || at == old(at) - {x.path})
    {
      hide Linked, NodeVals;
      PathOf(x);
      UnstampLinked(NodeVals(), x.path, t);
      if x.parent != null { ParentLive(x); }
      Release(x, t);
      PathOf(x);
      if x.children == map[] && x.tenants == map[] && x.parent != null && x.text.str != [] {
        Unhook(x);
      }
    }

    // ---------- visiting every node ----------

    ghost function PathsOf(xs: seq<Node>): seq<Path> {
      seq(|xs|, i requires 0 <= i < |xs| => xs[i].path)
    }

    ghost predicate AllLive(xs: seq<Node>)
      reads this`at
    {
      forall i :: 0 <= i < |xs| ==> Live(xs[i])
    }

    /** The children of a node, in some order. */
    method Kids(x: Node) returns (kids: seq<Node>)
      requires Shape() && Linked(NodeVals()) && Live(x)
      ensures AllLive(kids) && x.path in NodeVals() && AreKids(NodeVals(), x.path, PathsOf(kids))
    {
      PathOf(x);
      kids := [];
      var todo := x.children.Keys;
      while todo != {}
        invariant todo <= x.children.Keys && AllLive(kids)
        invariant forall p ::
          p in PathsOf(kids) <==> exists c :: c in x.children && c !in todo && x.children[c].path == p
        invariant Distinct(PathsOf(kids))
      {
        var c :| c in todo;
        var y := x.children[c];
        ghost var before := PathsOf(kids);
        assert Live(y) by { assert Anchored(at[x.path]); }
        KidIsNew(x, c, todo, before);
        kids, todo := kids + [y], todo - {c};
        assert PathsOf(kids) == before + [y.path];
        DistinctAppend(before, [y.path]);
        forall p ensures p in PathsOf(kids) <==> p in before || p == y.path { InEither(before, [y.path], p); }
      }
      KidsRead(x, PathsOf(kids));
    }

    lemma KidsRead(x: Node, paths: seq<Path>)
      requires Shape() && Live(x) && Distinct(paths)
      requires forall p :: p in paths <==> exists c :: c in x.children && x.children[c].path == p
      ensures x.path in NodeVals() && AreKids(NodeVals(), x.path, paths)
    {
      PathOf(x);
      var m := NodeVals()[x.path].children;
      assert m == map c | c in x.children :: x.children[c].path;
      forall p ensures p in paths <==> exists c :: c in m && m[c] == p {
        if p in paths {
          var c :| c in x.children && x.children[c].path == p;
          assert c in m && m[c] == p;
        }
        if exists c :: c in m && m[c] == p {
          var c :| c in m && m[c] == p;
          assert c in x.children && x.children[c].path == p;
        }
      }
    }

    /** Children under different characters have different paths. */
    lemma KidIsNew(x: Node, c: char, todo: set<char>, done: seq<Path>)
      requires Shape() && Linked(NodeVals()) && Live(x) && c in x.children && c in todo
      requires forall p :: p in done ==> exists d :: d in x.children && d !in todo && x.children[d].path == p
      ensures x.children[c].path !in done
    {
      PathOf(x);
      assert Edge(NodeVals(), x.path, c);
      forall d | d in x.children && d !in todo ensures x.children[d].path != x.children[c].path {
        assert Edge(NodeVals(), x.path, d);
      }
    }

    /** Every node of the tree, once. */
    ghost predicate Listing(xs: seq<Node>)
      reads this`at
    {
      AllLive(xs) && Distinct(PathsOf(xs)) && forall p :: p in at ==> p in PathsOf(xs)
    }

    /** The walk with a stack that eviction, removal and the recount share. */
    method Walk() returns (order: seq<Node>)
      requires Shape() && Linked(NodeVals())
      ensures Listing(order)
    {
      hide Linked, NodeVals, Exploring, AreKids;
      order := [];
      var stack := [root];
      ghost var seen: set<Path> := {};
      ExploreStart(NodeVals());
      assert PathsOf(stack) == [[]];
      while stack != []
        invariant AllLive(stack) && AllLive(order) && Exploring(NodeVals(), seen, PathsOf(stack))
        invariant Distinct(PathsOf(order)) && forall p :: p in seen <==> p in PathsOf(order)
        decreases NodeVals().Keys - seen
      {
        var x := stack[|stack| - 1];
        var rest := stack[..|stack| - 1];
        var kids := Kids(x);
        assert PathsOf(stack) == PathsOf(rest) + [x.path];
        ExploreNext(NodeVals(), seen, PathsOf(rest), x.path, PathsOf(kids));
        assert PathsOf(rest + kids) == PathsOf(rest) + PathsOf(kids);
        Visited(order, x, seen);
        stack, order, seen := rest + kids, order + [x], seen + {x.path};
      }
      assert PathsOf(stack) == [];
      forall p | p in at ensures p in PathsOf(order) {
        PathOf(at[p]);
        ExploredAll(NodeVals(), seen, p);
      }
    }

    lemma Visited(order: seq<Node>, x: Node, seen: set<Path>)
      requires Distinct(PathsOf(order)) && x.path !in seen && forall p :: p in seen <==> p in PathsOf(order)
      ensures Distinct(PathsOf(order + [x])) && forall p :: p in seen + {x.path} <==> p in PathsOf(order + [x])
    {
      assert PathsOf(order + [x]) == PathsOf(order) + [x.path];
      DistinctAppend(PathsOf(order), [x.path]);
      forall p ensures p in PathsOf(order + [x]) <==> p in seen || p == x.path {
        InEither(PathsOf(order), [x.path], p);
      }
    }

    // ---------- the recount ----------

    /** Every tenant at the node is credited with the characters of its text. */
    method Credit(sizes: map<Tenant, nat>, x: Node) returns (r: map<Tenant, nat>)
      ensures r.Keys == sizes.Keys + x.tenants.Keys
      ensures forall t :: Count(r, t) == Count(sizes, t) + if t in x.tenants then x.text.charCount else 0
    {
      r := sizes;
      var todo := x.tenants.Keys;
      while todo != {}
        invariant todo <= x.tenants.Keys && r.Keys == sizes.Keys + (x.tenants.Keys - todo)
        invariant forall t ::
          Count(r, t) == Count(sizes, t) + if t in x.tenants && t !in todo then x.text.charCount else 0
      {
        var t :| t in todo;
        r := Bump(r, t, x.text.charCount);
        todo := todo - {t};
      }
    }

    /** Sizes by a walk over the tree: the same as the maintained counts, zero entries aside. */
    method GetUsedSizePerTenant() returns (sizes: map<Tenant, nat>)
      requires Valid()
      ensures sizes.Keys == root.tenants.Keys
      ensures forall t :: t in sizes ==> sizes[t] == |Keys(NodeVals(), t)|
      ensures forall t :: Count(sizes, t) == Count(counts, t)
      ensures sizes == counts <==> root.tenants.Keys == counts.Keys
    {
      hide Linked, TenantClosed, Stamped, NodeVals, TextSum, Keys;
      var order := Walk();
      sizes := map[];
      ghost var v: set<Path> := {};
      EmptySum(NodeVals());
      for i := 0 to |order|
        invariant v == (set j | 0 <= j < i :: order[j].path) && Summed(NodeVals(), v, sizes)
      {
        VisitSums(order, i, v);
        var after := Credit(sizes, order[i]);
        SumNext(NodeVals(), v, order[i].path, sizes, after);
        sizes, v := after, v + {order[i].path};
      }
      AllVisited(order, v);
      RootLive();
      PathOf(root);
      SummedAll(Abs(), sizes);
    }

    lemma VisitSums(order: seq<Node>, i: nat, v: set<Path>)
      requires Shape() && Listing(order) && i < |order| && v == set j | 0 <= j < i :: order[j].path
      ensures order[i].path in NodeVals() && order[i].path !in v && v <= NodeVals().Keys
      ensures NodeVals()[order[i].path] == order[i].Val()
    {
      PathOf(order[i]);
      forall j | 0 <= j < i ensures order[j].path in at && order[j].path != order[i].path {
        assert Live(order[j]) && PathsOf(order)[j] != PathsOf(order)[i];
      }
    }

    lemma AllVisited(order: seq<Node>, v: set<Path>)
      requires Shape() && Listing(order) && v == set j | 0 <= j < |order| :: order[j].path
      ensures v == NodeVals().Keys
    {
      forall p | p in at ensures p in v {
        var i :| 0 <= i < |order| && PathsOf(order)[i] == p;
      }
    }

    // ---------- removing a tenant ----------

    predicate HasChildWith(x: Node, t: Tenant)
      reads x, x.children.Values
    {
      exists c :: c in x.children && t in x.children[c].tenants
    }

    lemma LeafRead(x: Node, t: Tenant)
      requires Shape() && Live(x)
      ensures IsLeaf(NodeVals(), x.path, t) <==> t in x.tenants && !HasChildWith(x, t)
    {
      PathOf(x);
      var n := NodeVals();
      assert n[x.path].children == map c | c in x.children :: x.children[c].path;
      forall c | c in x.children ensures Holds(n, x.children[c].path, t) <==> t in x.children[c].tenants {
        assert Live(x.children[c]) by { assert Anchored(at[x.path]); }
        PathOf(x.children[c]);
      }
      if !HasChildWith(x, t) {
        forall c | c in n[x.path].children ensures !Holds(n, n[x.path].children[c], t) {
          assert c in x.children;
        }
      } else {
        var c :| c in x.children && t in x.children[c].tenants;
        assert c in n[x.path].children && Holds(n, n[x.path].children[c], t);
      }
    }

    lemma PathsSnoc(xs: seq<Node>, x: Node)
      ensures PathsOf(xs + [x]) == PathsOf(xs) + [x.path]
      ensures forall p :: p in PathsOf(xs + [x]) <==> p in PathsOf(xs) || p == x.path
    {
      SnocMembers(PathsOf(xs), x.path);
      assert PathsOf(xs + [x]) == PathsOf(xs) + [x.path];
    }

    /** The nodes at which the tenant ends. */
    method LeavesOf(t: Tenant) returns (queue: seq<Node>)
      requires Valid()
      ensures AllLive(queue) && Queued(NodeVals(), PathsOf(queue), t)
    {
      hide Linked, TenantClosed, Accounted, Stamped, NodeVals, IsLeaf;
      var order := Walk();
      queue := [];
      ghost var paths := PathsOf(order);
      for i := 0 to |order|
        invariant AllLive(queue) && Distinct(PathsOf(queue))
        invariant forall p :: p in PathsOf(queue) <==> p in paths[..i] && IsLeaf(NodeVals(), p, t)
      {
        var x := order[i];
        LeafRead(x, t);
        PrefixSnoc(paths, i);
        SnocMembers(paths[..i], x.path);
        if t in x.tenants && !HasChildWith(x, t) {
          PathsSnoc(queue, x);
          SnocDistinct(PathsOf(queue), x.path);
          queue := queue + [x];
        }
      }
      assert paths[..|order|] == paths;
      LeavesListed(order, PathsOf(queue), t);
    }

    lemma LeavesListed(order: seq<Node>, queue: seq<Path>, t: Tenant)
      requires Valid() && Listing(order) && Distinct(queue)
      requires forall p :: p in queue <==> p in PathsOf(order) && IsLeaf(NodeVals(), p, t)
      ensures Queued(NodeVals(), queue, t)
    {
      forall p ensures p in queue <==> IsLeaf(NodeVals(), p, t) {
        if IsLeaf(NodeVals(), p, t) { assert p in at; }
      }
    }

    /** The node leaves; its parent is queued if the tenant now ends there. */
    method RemoveStep(queue: seq<Node>, t: Tenant) returns (queue': seq<Node>)
      requires Shape() && AllLive(queue) && queue != [] && Queued(NodeVals(), PathsOf(queue), t)
      modifies this`at, repr
      ensures Shape() && repr == old(repr) && AllLive(queue')
      ensures PathsOf(queue)[0] in old(NodeVals())
      ensures NodeVals() == Detach(old(NodeVals()), PathsOf(queue)[0], t)
      ensures PathsOf(queue') == Advance(old(NodeVals()), PathsOf(queue), t)
    {
      hide TenantClosed, NodeVals, IsLeaf, Detach;
      var x := queue[0];
      var up := x.parent;
      PathOf(x);
      if up != null { ParentLive(x); }
      Drop(x, t);
      queue' := queue[1..];
      assert PathsOf(queue') == PathsOf(queue)[1..];
      assert AllLive(queue') by {
        forall i | 0 <= i < |queue'| ensures Live(queue'[i]) {
          assert PathsOf(queue)[0] != PathsOf(queue)[i + 1];
        }
      }
      if up != null { LeafRead(up, t); }
      if up != null && t in up.tenants && !HasChildWith(up, t) {
        PathsSnoc(queue', up);
        queue' := queue' + [up];
      }
    }

    method RemoveTenant(t: Tenant)
      requires Valid()
      modifies this, repr
      ensures Valid() && repr == old(repr) && epoch == old(epoch)
      ensures counts == old(counts) - {t} && Lang(NodeVals(), t) == {}
      ensures Does(old(Abs()), Dropped(t, NodeVals()), Abs())
      ensures forall o {:trigger LangKept(old(NodeVals()), NodeVals(), o)} ::
        o != t ==> LangKept(old(NodeVals()), NodeVals(), o)
    {
      hide WF, NodeVals, Queued, OnlyLost, LangKept, Lang;
      var queue := LeavesOf(t);
      ghost var s := Abs();
      NothingLost(s.nodes, t);
      while queue != []
        invariant Shape() && repr == old(repr) && AllLive(queue) && counts == s.counts && epoch == s.epoch
        invariant Queued(NodeVals(), PathsOf(queue), t) && OnlyLost(s.nodes, NodeVals(), t)
        decreases |Pairs(NodeVals())|
      {
        AdvanceKeeps(NodeVals(), PathsOf(queue), t);
        AdvanceLoses(s.nodes, NodeVals(), PathsOf(queue), t);
        queue := RemoveStep(queue, t);
      }
      assert PathsOf(queue) == [];
      RemovalComplete(s, NodeVals(), t);
      ghost var n := NodeVals();
      counts := counts - {t};
      assert NodeVals() == n;
    }

    // ---------- eviction ----------

    /** The tenants that end at the node: at it, and at none of its children. */
    method LeafOf(x: Node) returns (leaves: set<Tenant>)
      requires Shape() && Live(x)
      ensures forall t :: t in leaves <==> IsLeaf(NodeVals(), x.path, t)
    {
      var candidates := map t | t in x.tenants :: true;
      var todo := x.children.Keys;
      while todo != {}
        invariant todo <= x.children.Keys && x.tenants.Keys <= candidates.Keys
        invariant forall t :: t in candidates ==>
          (candidates[t] <==>
             t in x.tenants && forall c :: c in x.children && c !in todo ==> t !in x.children[c].tenants)
      {
        var c :| c in todo;
        candidates := candidates + map t | t in x.children[c].tenants :: false;
        todo := todo - {c};
      }
      leaves := set t | t in candidates && candidates[t];
      forall t ensures t in leaves <==> IsLeaf(NodeVals(), x.path, t) {
        LeafRead(x, t);
      }
    }

    ghost function EntriesOf(pq: seq<HeapEntry>): seq<Entry> {
      seq(|pq|, i requires 0 <= i < |pq| => Entry(pq[i].stamp, pq[i].tenant, pq[i].node.path))
    }

    ghost function Bag(pq: seq<HeapEntry>): multiset<Entry> {
      multiset(EntriesOf(pq))
    }

    lemma BagSnoc(pq: seq<HeapEntry>, e: HeapEntry)
      ensures Bag(pq + [e]) == Bag(pq) + multiset{Entry(e.stamp, e.tenant, e.node.path)}
    {
      assert EntriesOf(pq + [e]) == EntriesOf(pq) + [Entry(e.stamp, e.tenant, e.node.path)];
    }

    ghost predicate QueueLive(pq: seq<HeapEntry>)
      reads this`at
    {
      forall i :: 0 <= i < |pq| ==> Live(pq[i].node)
    }

    ghost predicate QueuedFor(e: Entry, x: Node, ts: set<Tenant>)
      reads x
    {
      e.node == x.path && e.tenant in ts && e.tenant in x.tenants && e.stamp == x.tenants[e.tenant]
    }

    method GatherNode(pq: seq<HeapEntry>, x: Node) returns (pq': seq<HeapEntry>)
      requires Shape() && Live(x) && QueueLive(pq)
      ensures QueueLive(pq')
      ensures forall e :: Bag(pq')[e] == Bag(pq)[e] + if e.node == x.path && Current(NodeVals(), e) then 1 else 0
    {
      hide IsLeaf, Bag;
      PathOf(x);
      var leaves := LeafOf(x);
      forall t | t in leaves ensures t in x.tenants { LeafRead(x, t); }
      pq' := pq;
      var todo := leaves;
      while todo != {}
        invariant todo <= leaves && QueueLive(pq')
        invariant forall e :: Bag(pq')[e] == Bag(pq)[e] + if QueuedFor(e, x, leaves - todo) then 1 else 0
      {
        var t :| t in todo;
        var e := HeapEntry(x.tenants[t], t, x);
        BagSnoc(pq', e);
        pq', todo := pq' + [e], todo - {t};
      }
    }

    /** Every leaf of every tenant goes into the queue, once. */
    method Gather() returns (pq: seq<HeapEntry>)
      requires Valid()
      ensures QueueLive(pq) && Gathered(Pass(Abs(), Bag(pq)))
    {
      hide Linked, TenantClosed, Accounted, Stamped, NodeVals, Current, Bag;
      var order := Walk();
      ghost var paths := PathsOf(order);
      pq := [];
      EmptyBag();
      for i := 0 to |order|
        invariant QueueLive(pq)
        invariant forall e :: Bag(pq)[e] == if e.node in paths[..i] && Current(NodeVals(), e) then 1 else 0
      {
        PrefixSnoc(paths, i);
        SnocMembers(paths[..i], order[i].path);
        pq := GatherNode(pq, order[i]);
      }
      assert paths[..|order|] == paths;
      forall e | Current(NodeVals(), e) ensures e.node in paths { CurrentLive(e); }
    }

    lemma EmptyBag()
      ensures Bag([]) == multiset{}
    {}

    lemma CurrentLive(e: Entry)
      requires Current(NodeVals(), e)
      ensures e.node in at
    {}

    /** The index of an entry with the least time stamp. */
    method OldestIndex(pq: seq<HeapEntry>) returns (k: nat)
      requires pq != []
      ensures k < |pq| && forall i :: 0 <= i < |pq| ==> pq[k].stamp <= pq[i].stamp
    {
      k := 0;
      for i := 1 to |pq|
        invariant k < |pq| && forall j :: 0 <= j < i ==> pq[k].stamp <= pq[j].stamp
      {
        if pq[i].stamp < pq[k].stamp { k := i; }
      }
    }

    lemma OldestInBag(pq: seq<HeapEntry>, k: nat)
      requires k < |pq| && forall i :: 0 <= i < |pq| ==> pq[k].stamp <= pq[i].stamp
      ensures Oldest(Bag(pq), EntriesOf(pq)[k])
      ensures Bag(Without(pq, k)) == Bag(pq) - multiset{EntriesOf(pq)[k]}
    {
      var es := EntriesOf(pq);
      assert es[k] in es;
      forall f | f in Bag(pq) ensures es[k].stamp <= f.stamp {
        assert f in es;
      }
      WithoutBag(es, k);
      assert EntriesOf(Without(pq, k)) == Without(es, k);
    }

    /** The victim leaves its node and is charged off; the parent is queued if the tenant now ends there. */
    method Evict(e: HeapEntry, rest: seq<HeapEntry>) returns (pq: seq<HeapEntry>)
      requires Valid() && Live(e.node) && IsLeaf(NodeVals(), e.node.path, e.tenant)
      modifies this, repr
      ensures Shape() && repr == old(repr) && (at == old(at) || at == old(at) - {e.node.path})
      ensures e.node.path in old(NodeVals())
      ensures Abs() == Evicted(old(Abs()), e.node.path, e.tenant)
      ensures var up := old(e.node.Val()).parent;
              if up.Some? && IsLeaf(NodeVals(), up.value, e.tenant) then
                var stamp := NodeVals()[up.value].tenants[e.tenant];
                Live(old(e.node.parent)) && pq == rest + [HeapEntry(stamp, e.tenant, old(e.node.parent))]
              else pq == rest
    {
      hide Linked, TenantClosed, Accounted, Stamped, NodeVals, IsLeaf, Detach;
      var x, t := e.node, e.tenant;
      var up := x.parent;
      PathOf(x);
      if up != null { ParentLive(x); }
      counts := Charge(counts, t, x.text.charCount);
      Drop(x, t);
      pq := rest;
      if up != null {
        LeafRead(up, t);
        PathOf(up);
        if t in up.tenants && !HasChildWith(up, t) {
          pq := pq + [HeapEntry(up.tenants[t], t, up)];
        }
      }
    }

    /** One round of the eviction loop, for the entry at `k`. */
    method EvictRound(pq: seq<HeapEntry>, k: nat, max: nat) returns (pq': seq<HeapEntry>)
      requires Shape() && QueueLive(pq) && PassOK(Pass(Abs(), Bag(pq)), max)
      requires k < |pq| && forall i :: 0 <= i < |pq| ==> pq[k].stamp <= pq[i].stamp
      modifies this, repr
      ensures Shape() && repr == old(repr) && EntriesOf(pq)[k] in Bag(pq)
      ensures Pass(Abs(), Bag(pq')) == Pop(Pass(old(Abs()), Bag(pq)), EntriesOf(pq)[k], max)
      ensures forall i :: 0 <= i < |pq'| && pq'[i].node.path in at ==> Live(pq'[i].node)
    {
      hide Linked, TenantClosed, Accounted, Stamped, NodeVals, IsLeaf, Detach, Bag, Sound, Listed;
      var e := pq[k];
      pq' := Without(pq, k);
      OldestInBag(pq, k);
      LeafRead(e.node, e.tenant);
      if e.tenant in counts && counts[e.tenant] <= max {
        return;
      }
      if !(e.tenant in e.node.tenants && !HasChildWith(e.node, e.tenant)) {
        return;
      }
      PathOf(e.node);
      pq' := Evict(e, pq');
      ghost var rest := Without(pq, k);
      if pq' != rest {
        BagSnoc(rest, pq'[|rest|]);
      }
    }

    lemma StillLive(pq: seq<HeapEntry>, max: nat)
      requires Shape() && PassOK(Pass(Abs(), Bag(pq)), max)
      requires forall i :: 0 <= i < |pq| && pq[i].node.path in at ==> Live(pq[i].node)
      ensures QueueLive(pq)
    {
      forall i | 0 <= i < |pq| ensures Live(pq[i].node) {
        assert EntriesOf(pq)[i] in EntriesOf(pq);
        assert Sound(Pass(Abs(), Bag(pq)), EntriesOf(pq)[i]);
        CurrentLive(EntriesOf(pq)[i]);
      }
    }

    /**
     Leaves are evicted, oldest first, until every tenant is within `max`.  The ghost results
     are the run this was, to which all the theorems about eviction runs apply.
     */
    method EvictTenantBySize(max: nat) returns (ghost run: seq<Pass>, ghost picks: seq<Entry>)
      requires Valid()
      modifies this, repr
      ensures Valid() && repr == old(repr)
      ensures Does(old(Abs()), Trimmed(max, run, picks), Abs())
      ensures forall t :: Count(counts, t) <= max && (t in root.tenants ==> t in counts)
    {
      hide WF, NodeVals, Gathered, Bag, Pop, Oldest, Listed, Sound;
      var pq := Gather();
      run, picks := [Pass(Abs(), Bag(pq))], [];
      GatheredOK(run[0], max);
      while pq != []
        invariant Shape() && repr == old(repr) && QueueLive(pq)
        invariant EvictRun(run, picks, max) && run[0].tree == old(Abs()) && run[|run| - 1] == Pass(Abs(), Bag(pq))
        invariant PassOK(Pass(Abs(), Bag(pq)), max)
        decreases Measure(Pass(Abs(), Bag(pq)))
      {
        var k := OldestIndex(pq);
        OldestInBag(pq, k);
        ghost var st, e := Pass(Abs(), Bag(pq)), EntriesOf(pq)[k];
        PopKeeps(st, e, max);
        PopShrinks(st, e, max);
        RunGrows(run, picks, max, e);
        pq := EvictRound(pq, k, max);
        StillLive(pq, max);
        run, picks := run + [Pass(Abs(), Bag(pq))], picks + [e];
      }
      EmptyBag();
      RootRead();
      forall t ensures Count(counts, t) <= max && (t in root.tenants ==> t in counts) {
        EvictionBounds(run, picks, max, t);
      }
    }

    lemma RootRead()
      requires Shape()
      ensures forall t :: Holds(NodeVals(), [], t) <==> t in root.tenants
    {
      PathOf(root);
    }
  }

  /** The insertion, continued from here, ends in `goal`. */
  ghost predicate OnCourse(s: TreeVal, th: Thread, goal: TreeVal) {
    WF(s) && ThreadOK(s, th) && Finish(s, th) == goal
  }

  lemma RegisterOnCourse(s: TreeVal, text: string, t: Tenant)
    requires WF(s)
    ensures OnCourse(OpenCount(Enroll(s, t), t), Thread(text, t, Walking, [], text), Finish(s, Begin(text, t)))
  {
    var th := Begin(text, t);
    StepKeeps(s, th);
    var (s1, th1) := Step(s, th);
    StepKeeps(s1, th1);
  }

  lemma IterateOnCourse(s: TreeVal, th: Thread, goal: TreeVal)
    requires OnCourse(s, th, goal) && th.phase == Walking && th.remaining != []
    ensures OnCourse(Iterate(s, th).0, Iterate(s, th).1, goal)
    ensures Iterate(s, th).1.phase == Done ==> Iterate(s, th).0 == goal
  {
    StepKeeps(s, th);
  }

  lemma TouchOnCourse(s: TreeVal, th: Thread, goal: TreeVal)
    requires OnCourse(s, th, goal) && th.phase == Walking && th.remaining == []
    ensures Touch(s, th.at, th.tenant) == goal
  {
    StepKeeps(s, th);
    var (s', th') := Step(s, th);
    assert Finish(s', th') == s';
  }
}
