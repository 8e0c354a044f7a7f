/**
 Visiting the whole tree with a stack, and recounting every tenant's characters on the way.
 The recount adds up the texts of the nodes a tenant holds; it equals the number of distinct
 non-empty strings in the tenant's language, which is what the maintained counts say.
 */
module RadixWalk {
  import opened Sequences
  import opened Strings
  import opened RadixTree

  // ---------- the stack ----------

  /** Everything below a seen node is seen or can be reached from the stack, and nothing is there twice. */
  ghost predicate Exploring(n: Nodes, seen: set<Path>, stack: seq<Path>) {
    && Distinct(stack) && seen <= n.Keys
    && (forall p :: p in stack ==> p in n && p !in seen)
    && ([] in seen || [] in stack)
    && (forall p, c :: p in seen && c in n[p].children ==> n[p].children[c] in seen || n[p].children[c] in stack)
    && (forall p :: p in seen || p in stack ==> ParentSeen(n, seen, p))
  }

  ghost predicate ParentSeen(n: Nodes, seen: set<Path>, p: Path) {
    p in n && p != [] ==> n[p].parent.Some? && n[p].parent.value in seen
  }

  ghost predicate AreKids(n: Nodes, p: Path, kids: seq<Path>)
    requires p in n
  {
    Distinct(kids) && forall x :: x in kids <==> exists c :: c in n[p].children && n[p].children[c] == x
  }

  lemma ExploreStart(n: Nodes)
    requires Linked(n)
    ensures Exploring(n, {}, [[]])
  {}

  /** The children of a node on top of the stack are new. */
  lemma KidsAreNew(n: Nodes, seen: set<Path>, stack: seq<Path>, p: Path, kids: seq<Path>, x: Path)
    requires Linked(n) && Exploring(n, seen, stack + [p]) && p in n && p !in seen && AreKids(n, p, kids) && x in kids
    ensures x in n && x != [] && n[x].parent == Some(p) && x !in seen && x !in stack && x != p
  {
    var c :| c in n[p].children && n[p].children[c] == x;
    assert Edge(n, p, c);
    InEither(stack, [p], x);
    assert x in seen || x in stack + [p] ==> ParentSeen(n, seen, x);
  }

  lemma TopIsFresh(n: Nodes, seen: set<Path>, stack: seq<Path>, p: Path)
    requires Exploring(n, seen, stack + [p])
    ensures p in n && p !in seen && p !in stack && Distinct(stack)
  {
    var all := stack + [p];
    assert all[|stack|] == p;
    assert forall i :: 0 <= i < |stack| ==> all[i] == stack[i];
  }

  lemma ExploreNext(n: Nodes, seen: set<Path>, stack: seq<Path>, p: Path, kids: seq<Path>)
    requires Linked(n) && Exploring(n, seen, stack + [p]) && p in n && AreKids(n, p, kids)
    ensures p !in seen && Exploring(n, seen + {p}, stack + kids)
  {
    TopIsFresh(n, seen, stack, p);
    forall x ensures x in stack + [p] <==> x in stack || x == p { InEither(stack, [p], x); }
    forall x ensures x in stack + kids <==> x in stack || x in kids { InEither(stack, kids, x); }
    forall x | x in kids
      ensures x in n && x != [] && n[x].parent == Some(p) && x !in seen && x !in stack && x != p
    {
      KidsAreNew(n, seen, stack, p, kids, x);
    }
    DistinctAppend(stack, kids);
    forall x | x in seen + {p} || x in stack + kids ensures ParentSeen(n, seen + {p}, x) {
      if x !in kids { assert ParentSeen(n, seen, x); }
    }
  }

  lemma {:induction false} ExploredAll(n: Nodes, seen: set<Path>, p: Path)
    requires Linked(n) && Exploring(n, seen, []) && p in n
    ensures p in seen
    decreases |p|
  {
    if p != [] {
      assert Hangs(n, p);
      ExploredAll(n, seen, n[p].parent.value);
    }
  }

  // ---------- adding up the texts ----------

  function Weight(n: Nodes, t: Tenant, p: Path): nat
    requires p in n
  {
    if t in n[p].tenants then n[p].text.charCount else 0
  }

  ghost function TextSum(n: Nodes, t: Tenant, v: set<Path>): nat
    requires v <= n.Keys
  {
    if v == {} then 0
    else
      var p :| p in v;
      Weight(n, t, p) + TextSum(n, t, v - {p})
  }

  lemma {:induction false} TextSumAdd(n: Nodes, t: Tenant, v: set<Path>, p: Path)
    requires v <= n.Keys && p in n && p !in v
    ensures TextSum(n, t, v + {p}) == Weight(n, t, p) + TextSum(n, t, v)
    decreases |v|
  {
    var w := v + {p};
    var q :| q in w && TextSum(n, t, w) == Weight(n, t, q) + TextSum(n, t, w - {q});
    if q == p {
      assert w - {p} == v;
    } else {
      assert w - {q} == (v - {q}) + {p};
      TextSumAdd(n, t, v - {q}, p);
      TextSumAdd(n, t, v - {q}, q);
      assert (v - {q}) + {q} == v;
    }
  }

  /** The strings that end inside the text of a node in `v` held by `t`. */
  ghost function EdgeStrings(n: Nodes, t: Tenant, v: set<Path>): set<string> {
    set p, k | p in v && 0 <= k <= |p| && EndsIn(n, t, p, k) :: p[..k]
  }

  ghost predicate EndsIn(n: Nodes, t: Tenant, p: Path, k: int) {
    Holds(n, p, t) && n[p].parent.Some? && |n[p].parent.value| < k <= |p|
  }

  /** A string ends inside the text of at most one node; here the case of the node hung higher. */
  lemma OneEdgeOrdered(n: Nodes, p: Path, q: Path, x: string)
    requires Linked(n) && p in n && q in n && p != [] && q != []
    requires x <= p && x <= q
    requires n[p].parent.Some? && n[q].parent.Some?
    requires |n[p].parent.value| <= |n[q].parent.value| < |x|
    ensures p == q
  {
    assert Hangs(n, p) && Hangs(n, q);
    var u, w := n[p].parent.value, n[q].parent.value;
    PrefixesCompare(u, x, p);
    PrefixesCompare(w, x, q);
    PrefixesCompare(u, w, x);
    if u != w {
      Routed(n, u, w);
      assert false;
    }
  }

  lemma EdgesAdd(n: Nodes, t: Tenant, v: set<Path>, p: Path)
    requires Linked(n) && v <= n.Keys && p in n && p !in v
    ensures |EdgeStrings(n, t, v + {p})| == |EdgeStrings(n, t, v)| + Weight(n, t, p)
  {
    if p == [] || !Holds(n, p, t) {
      assert EdgeStrings(n, t, v + {p}) == EdgeStrings(n, t, v);
    } else {
      assert Hangs(n, p);
      var own := Segment(p, |n[p].parent.value|, |p|);
      SegmentSize(p, |n[p].parent.value|, |p|);
      EdgesSplit(n, t, v, p);
      forall x | x in EdgeStrings(n, t, v) ensures x !in own {
        var q, k :| q in v && 0 <= k <= |q| && EndsIn(n, t, q, k) && x == q[..k];
        if x in own {
          assert q != [];
          assert Hangs(n, q);
          if |n[p].parent.value| <= |n[q].parent.value| {
            OneEdgeOrdered(n, p, q, x);
          } else {
            OneEdgeOrdered(n, q, p, x);
          }
          assert false;
        }
      }
    }
  }

  lemma EdgesSplit(n: Nodes, t: Tenant, v: set<Path>, p: Path)
    requires Holds(n, p, t) && n[p].parent.Some? && |n[p].parent.value| <= |p|
    ensures EdgeStrings(n, t, v + {p}) == EdgeStrings(n, t, v) + Segment(p, |n[p].parent.value|, |p|)
  {
    var own := Segment(p, |n[p].parent.value|, |p|);
    forall x ensures x in EdgeStrings(n, t, v + {p}) <==> x in EdgeStrings(n, t, v) || x in own {
      if x in EdgeStrings(n, t, v + {p}) {
        var q, k :| q in v + {p} && 0 <= k <= |q| && EndsIn(n, t, q, k) && x == q[..k];
      }
      if x in own {
        var k :| |n[p].parent.value| < k <= |p| && x == p[..k];
        assert EndsIn(n, t, p, k);
      }
    }
  }

  lemma {:induction false} SumIsEdges(n: Nodes, t: Tenant, v: set<Path>)
    requires Linked(n) && v <= n.Keys
    ensures TextSum(n, t, v) == |EdgeStrings(n, t, v)|
    decreases |v|
  {
    if v == {} {
      assert EdgeStrings(n, t, v) == {};
    } else {
      var p :| p in v;
      assert v == (v - {p}) + {p};
      SumIsEdges(n, t, v - {p});
      TextSumAdd(n, t, v - {p}, p);
      EdgesAdd(n, t, v - {p}, p);
    }
  }

  /** Climbing from a holder of `x` finds the node inside whose text `x` ends. */
  lemma {:induction false} EdgeOf(n: Nodes, t: Tenant, x: string, y: Path) returns (p: Path)
    requires Linked(n) && TenantClosed(n) && Holds(n, y, t) && x <= y && x != []
    ensures EndsIn(n, t, p, |x|) && x == p[..|x|] && p in n
    decreases |y|
  {
    assert Hangs(n, y) && Inherits(n, y);
    var u := n[y].parent.value;
    if |u| < |x| {
      p := y;
    } else {
      PrefixesCompare(x, u, y);
      p := EdgeOf(n, t, x, u);
    }
  }

  /** The texts of the nodes a tenant holds add up to the number of distinct non-empty strings it has. */
  lemma TextsAreKeys(n: Nodes, t: Tenant)
    requires Linked(n) && TenantClosed(n)
    ensures TextSum(n, t, n.Keys) == |Keys(n, t)|
  {
    SumIsEdges(n, t, n.Keys);
    forall x ensures x in EdgeStrings(n, t, n.Keys) <==> x in Keys(n, t) {
      LangMember(n, t, x);
      if x in EdgeStrings(n, t, n.Keys) {
        var p, k :| p in n.Keys && 0 <= k <= |p| && EndsIn(n, t, p, k) && x == p[..k];
        assert Holds(n, p, t) && x <= p;
      }
      if x in Keys(n, t) {
        var y :| Holds(n, y, t) && x <= y;
        var p := EdgeOf(n, t, x, y);
      }
    }
    assert EdgeStrings(n, t, n.Keys) == Keys(n, t);
  }

  // ---------- the running sums of the recount ----------

  ghost predicate SumIs(n: Nodes, v: set<Path>, sizes: map<Tenant, nat>, t: Tenant)
    requires v <= n.Keys
  {
    && Count(sizes, t) == TextSum(n, t, v)
    && (t in sizes <==> exists p :: p in v && Holds(n, p, t))
  }

  /** `sizes` has the sum of the texts of the nodes in `v` for every tenant met there. */
  ghost predicate Summed(n: Nodes, v: set<Path>, sizes: map<Tenant, nat>) {
    v <= n.Keys && forall t {:trigger SumIs(n, v, sizes, t)} :: SumIs(n, v, sizes, t)
  }

  lemma EmptySum(n: Nodes)
    ensures Summed(n, {}, map[])
  {}

  lemma SumNext(n: Nodes, v: set<Path>, p: Path, sizes: map<Tenant, nat>, after: map<Tenant, nat>)
    requires Summed(n, v, sizes) && p in n && p !in v
    requires after.Keys == sizes.Keys + n[p].tenants.Keys
    requires forall t :: Count(after, t) == Count(sizes, t) + if t in n[p].tenants then n[p].text.charCount else 0
    ensures Summed(n, v + {p}, after)
  {
    forall t ensures SumIs(n, v + {p}, after, t) {
      assert SumIs(n, v, sizes, t);
      TextSumAdd(n, t, v, p);
      if t in after {
        if t in n[p].tenants {
          assert Holds(n, p, t);
        } else {
          var q :| q in v && Holds(n, q, t);
          assert q in v + {p};
        }
      }
    }
  }

  /** Once every node is summed, the sums are the counts. */
  lemma SummedAll(s: TreeVal, sizes: map<Tenant, nat>)
    requires WF(s) && Summed(s.nodes, s.nodes.Keys, sizes)
    ensures [] in s.nodes && sizes.Keys == s.nodes[[]].tenants.Keys
    ensures forall t :: t in sizes ==> sizes[t] == |Keys(s.nodes, t)|
    ensures forall t :: Count(sizes, t) == Count(s.counts, t)
    ensures sizes == s.counts <==> s.nodes[[]].tenants.Keys == s.counts.Keys
  {
    forall t ensures Count(sizes, t) == |Keys(s.nodes, t)| == Count(s.counts, t) {
      assert SumIs(s.nodes, s.nodes.Keys, sizes, t) && Tallied(s, t);
      TextsAreKeys(s.nodes, t);
    }
    forall t ensures t in sizes <==> Holds(s.nodes, [], t) {
      assert SumIs(s.nodes, s.nodes.Keys, sizes, t);
      if t in sizes {
        var p :| p in s.nodes.Keys && Holds(s.nodes, p, t);
        AncestorHolds(s.nodes, [], p, t);
      }
    }
    if s.nodes[[]].tenants.Keys == s.counts.Keys {
      forall t | t in sizes ensures sizes[t] == s.counts[t] {
        assert Count(sizes, t) == Count(s.counts, t);
      }
    }
  }
}
