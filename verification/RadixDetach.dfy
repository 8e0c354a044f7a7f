/**
 Taking a tenant off a node at which it ends, and unhooking the node when nobody is left.
 Eviction and tenant removal are both built from this update.
 */
module RadixDetach {
  import opened Strings
  import opened RadixTree

  ghost predicate NoChildHolds(n: Nodes, p: Path, t: Tenant)
    requires p in n
  {
    forall c :: c in n[p].children ==> !Holds(n, n[p].children[c], t)
  }

  /** The tenant is at the node and at none of its children. */
  ghost predicate IsLeaf(n: Nodes, p: Path, t: Tenant) {
    Holds(n, p, t) && NoChildHolds(n, p, t)
  }

  predicate Deserted(v: NodeVal) {
    v.children == map[] && v.tenants == map[] && v.parent.Some? && v.text.str != []
  }

  ghost predicate IsUnstamp(n: Nodes, n': Nodes, p: Path, t: Tenant) {
    && p in n && n'.Keys == n.Keys
    && (forall x :: x in n && x != p ==> n'[x] == n[x])
    && n'[p] == n[p].(tenants := n[p].tenants - {t})
  }

  function Unstamp(n: Nodes, p: Path, t: Tenant): (n': Nodes)
    requires p in n
    ensures IsUnstamp(n, n', p, t)
  {
    n[p := n[p].(tenants := n[p].tenants - {t})]
  }

  function Unhang(n: Nodes, p: Path): Nodes
    requires p in n && Deserted(n[p]) && n[p].parent.value in n
  {
    var u := n[p].parent.value;
    (n - {p})[u := n[u].(children := n[u].children - {n[p].text.str[0]})]
  }

  function Detach(n: Nodes, p: Path, t: Tenant): Nodes
    requires p in n
  {
    var n1 := Unstamp(n, p, t);
    if Deserted(n1[p]) && n1[p].parent.value in n1 then Unhang(n1, p) else n1
  }

  // ---------- the two shapes of the result ----------

  ghost predicate IsRelease(n: Nodes, n': Nodes, p: Path, t: Tenant) {
    IsUnstamp(n, n', p, t) && (p != [] ==> n[p].tenants - {t} != map[])
  }

  ghost predicate IsPrune(n: Nodes, n': Nodes, u: Path, p: Path) {
    && p in n && u in n && u < p && n[p].children == map[] && n[p].parent == Some(u)
    && n'.Keys == n.Keys - {p}
    && (forall x :: x in n && x != p && x != u ==> n'[x] == n[x])
    && n'[u] == n[u].(children := n[u].children - {p[|u|]})
  }

  /** A child has a tenant, and shares it with its parent. */
  lemma ChildTenant(n: Nodes, p: Path, c: char) returns (o: Tenant)
    requires Linked(n) && TenantClosed(n) && p in n && c in n[p].children
    ensures Holds(n, n[p].children[c], o) && Holds(n, p, o)
  {
    assert Edge(n, p, c);
    assert Inherits(n, n[p].children[c]);
    o :| o in n[n[p].children[c]].tenants;
  }

  /** A node whose last tenant leaves has no children, so it is unhooked. */
  lemma LastTenantNoChildren(n: Nodes, p: Path, t: Tenant)
    requires Linked(n) && TenantClosed(n) && IsLeaf(n, p, t) && n[p].tenants.Keys == {t}
    ensures n[p].children == map[]
  {
    forall c | c in n[p].children ensures false {
      var o := ChildTenant(n, p, c);
    }
  }

  lemma DetachShape(n: Nodes, p: Path, t: Tenant)
    requires Linked(n) && TenantClosed(n) && IsLeaf(n, p, t)
    ensures IsRelease(n, Detach(n, p, t), p, t) ||
            (p != [] && n[p].parent.Some? && n[p].tenants.Keys == {t}
             && IsPrune(n, Detach(n, p, t), n[p].parent.value, p))
  {
    assert (n[p].tenants - {t}).Keys == n[p].tenants.Keys - {t};
    if n[p].tenants - {t} == map[] {
      assert n[p].tenants.Keys - {t} == {};
      LastTenantNoChildren(n, p, t);
    }
    if p != [] {
      assert Hangs(n, p);
    }
  }

  lemma UnstampLinked(n: Nodes, p: Path, t: Tenant)
    requires Linked(n) && p in n
    ensures Linked(Unstamp(n, p, t))
  {
    var n' := Unstamp(n, p, t);
    forall x | x in n' && x != [] ensures Hangs(n', x) { assert Hangs(n, x); }
    forall x, c | x in n' && c in n'[x].children ensures Edge(n', x, c) { assert Edge(n, x, c); }
  }

  lemma ReleaseLinked(n: Nodes, n': Nodes, p: Path, t: Tenant)
    requires Linked(n) && IsRelease(n, n', p, t)
    ensures Linked(n')
  {
    forall x | x in n' && x != [] ensures Hangs(n', x) { assert Hangs(n, x); }
    ReleaseEdges(n, n', p, t);
  }

  lemma ReleaseEdges(n: Nodes, n': Nodes, p: Path, t: Tenant)
    requires Linked(n) && IsRelease(n, n', p, t)
    ensures forall x, c {:trigger Edge(n', x, c)} :: x in n' && c in n'[x].children ==> Edge(n', x, c)
  {
    forall x, c | x in n' && c in n'[x].children ensures Edge(n', x, c) { assert Edge(n, x, c); }
  }

  lemma PruneLinked(n: Nodes, n': Nodes, u: Path, p: Path)
    requires Linked(n) && IsPrune(n, n', u, p)
    ensures Linked(n')
  {
    assert Hangs(n, p);
    forall x | x in n' && x != [] ensures Hangs(n', x) { assert Hangs(n, x); }
    PruneEdges(n, n', u, p);
  }

  lemma PruneEdges(n: Nodes, n': Nodes, u: Path, p: Path)
    requires Linked(n) && IsPrune(n, n', u, p)
    ensures forall x, c {:trigger Edge(n', x, c)} :: x in n' && c in n'[x].children ==> Edge(n', x, c)
  {
    assert Hangs(n, p);
    forall x, c | x in n' && c in n'[x].children ensures Edge(n', x, c) { assert Edge(n, x, c); }
  }

  /** The holders that are left: all but `t` at `p`. */
  ghost predicate Leaves(n: Nodes, n': Nodes, t: Tenant, p: Path) {
    forall x, o :: Holds(n', x, o) <==> Holds(n, x, o) && !(x == p && o == t)
  }

  lemma ReleaseKeepsTenants(n: Nodes, n': Nodes, p: Path, t: Tenant)
    requires Linked(n) && TenantClosed(n) && IsLeaf(n, p, t) && IsRelease(n, n', p, t)
    ensures TenantClosed(n')
  {
    forall x | x in n' && x != [] ensures Inherits(n', x) {
      assert Inherits(n, x) && Hangs(n, x);
      if n[x].parent.value == p {
        assert !Holds(n, x, t);
      }
    }
  }

  lemma PruneKeepsTenants(n: Nodes, n': Nodes, u: Path, p: Path)
    requires Linked(n) && TenantClosed(n) && IsPrune(n, n', u, p)
    ensures TenantClosed(n')
  {
    forall x | x in n' && x != [] ensures Inherits(n', x) {
      assert Inherits(n, x) && Hangs(n, x);
    }
  }

  lemma DetachKeeps(n: Nodes, p: Path, t: Tenant)
    requires Linked(n) && TenantClosed(n) && IsLeaf(n, p, t)
    ensures Linked(Detach(n, p, t)) && TenantClosed(Detach(n, p, t))
    ensures Leaves(n, Detach(n, p, t), t, p)
  {
    var n' := Detach(n, p, t);
    DetachShape(n, p, t);
    if IsRelease(n, n', p, t) {
      ReleaseLinked(n, n', p, t);
      ReleaseKeepsTenants(n, n', p, t);
    } else {
      PruneLinked(n, n', n[p].parent.value, p);
      PruneKeepsTenants(n, n', n[p].parent.value, p);
    }
  }

  lemma DetachStamps(n: Nodes, p: Path, t: Tenant, x: Path, o: Tenant)
    requires Linked(n) && TenantClosed(n) && IsLeaf(n, p, t) && Holds(Detach(n, p, t), x, o)
    ensures Holds(n, x, o) && Detach(n, p, t)[x].tenants[o] == n[x].tenants[o]
  {
    DetachShape(n, p, t);
  }

  /** The nodes that remain hang where they hung and remember whom they remembered. */
  ghost predicate Remaining(n: Nodes, n': Nodes) {
    forall x :: x in n' ==> x in n && n'[x].parent == n[x].parent && n'[x].last == n[x].last
  }

  lemma DetachRemaining(n: Nodes, p: Path, t: Tenant)
    requires Linked(n) && TenantClosed(n) && IsLeaf(n, p, t)
    ensures Remaining(n, Detach(n, p, t))
  {
    DetachShape(n, p, t);
  }

  /** Whether a tenant ends at a node changes only for the pair removed and its parent. */
  lemma DetachLeaves(n: Nodes, p: Path, t: Tenant, x: Path, o: Tenant)
    requires Linked(n) && TenantClosed(n) && IsLeaf(n, p, t)
    ensures IsLeaf(Detach(n, p, t), x, o) ==> IsLeaf(n, x, o) || (o == t && n[p].parent == Some(x))
    ensures IsLeaf(n, x, o) ==> IsLeaf(Detach(n, p, t), x, o) || (x == p && o == t)
    ensures n[p].parent == Some(x) && o == t ==> !IsLeaf(n, x, o)
  {
    var n' := Detach(n, p, t);
    DetachKeeps(n, p, t);
    DetachShape(n, p, t);
    if p != [] { assert Hangs(n, p); }
    if IsLeaf(n', x, o) && !(o == t && n[p].parent == Some(x)) {
      forall c | c in n[x].children ensures !Holds(n, n[x].children[c], o) {
        assert Edge(n, x, c);
        if n[x].children[c] != p {
          assert c in n'[x].children && n'[x].children[c] == n[x].children[c];
        }
      }
    }
    if IsLeaf(n, x, o) && !(x == p && o == t) {
      forall c | c in n'[x].children ensures !Holds(n', n'[x].children[c], o) {
        assert n[x].children[c] == n'[x].children[c];
      }
    }
  }

  /** All pairs of a node and a tenant at it. */
  ghost function Pairs(n: Nodes): set<(Path, Tenant)> {
    set p, t | p in n && t in n[p].tenants :: (p, t)
  }

  lemma LeavesPairs(n: Nodes, n': Nodes, t: Tenant, p: Path)
    requires Leaves(n, n', t, p) && Holds(n, p, t)
    ensures |Pairs(n')| == |Pairs(n)| - 1
  {
    forall x, o ensures (x, o) in Pairs(n') <==> (x, o) in Pairs(n) - {(p, t)} {
      assert Holds(n', x, o) <==> Holds(n, x, o) && !(x == p && o == t);
    }
    assert Pairs(n') == Pairs(n) - {(p, t)};
  }

  // ---------- what happens to the languages ----------

  lemma LeavesOthers(n: Nodes, n': Nodes, t: Tenant, p: Path, o: Tenant)
    requires Leaves(n, n', t, p) && o != t
    ensures LangKept(n, n', o)
  {
    forall x ensures x in Lang(n', o) <==> x in Lang(n, o) {
      LangMember(n, o, x);
      LangMember(n', o, x);
      if x in Lang(n, o) {
        var y :| Holds(n, y, o) && x <= y;
        assert Holds(n', y, o);
      }
    }
  }

  /** A leaf's own text is not shared with any other node of the tenant. */
  lemma LeafAlone(n: Nodes, u: Path, p: Path, t: Tenant, y: Path)
    requires Linked(n) && TenantClosed(n) && IsLeaf(n, p, t)
    requires n[p].parent == Some(u) && u < p && Holds(n, y, t) && u < y && y[|u|] == p[|u|]
    ensures y == p
  {
    assert Hangs(n, p);
    Routed(n, u, y);
    if p != y {
      Routed(n, p, y);
      var c := y[|p|];
      assert Edge(n, p, c);
      AncestorHolds(n, n[p].children[c], y, t);
      assert false;
    }
  }

  /** The tenant loses exactly the strings that end inside the text of the node it leaves. */
  lemma LeavesLang(n: Nodes, n': Nodes, t: Tenant, u: Path, p: Path)
    requires Linked(n) && TenantClosed(n) && IsLeaf(n, p, t) && Leaves(n, n', t, p)
    requires p != [] && n[p].parent == Some(u)
    ensures u < p && Segment(p, |u|, |p|) <= Keys(n, t)
    ensures Lang(n', t) == Lang(n, t) - Segment(p, |u|, |p|)
  {
    assert Hangs(n, p) && Inherits(n, p);
    var lost := Segment(p, |u|, |p|);
    forall x | x in lost ensures x in Keys(n, t) {
      LangMember(n, t, x);
      assert x <= p;
    }
    forall x ensures x in Lang(n', t) <==> x in Lang(n, t) && x !in lost {
      LangMember(n, t, x);
      LangMember(n', t, x);
      if x in Lang(n', t) {
        var y :| Holds(n', y, t) && x <= y;
        assert Holds(n, y, t);
        if x in lost {
          assert u < y && y[|u|] == p[|u|];
          LeafAlone(n, u, p, t, y);
          assert false;
        }
      }
      if x in Lang(n, t) && x !in lost {
        var y :| Holds(n, y, t) && x <= y;
        if y == p {
          assert x == p[..|x|];
          PrefixesCompare(x, u, p);
          assert Holds(n', u, t);
        } else {
          assert Holds(n', y, t);
        }
      }
    }
  }

  lemma LeavesCount(n: Nodes, n': Nodes, t: Tenant, p: Path)
    requires Linked(n) && TenantClosed(n) && IsLeaf(n, p, t) && Leaves(n, n', t, p)
    ensures |Keys(n', t)| == |Keys(n, t)| - n[p].text.charCount
    ensures n[p].text.charCount <= |Keys(n, t)|
  {
    if p == [] {
      RootLeafAlone(n, t);
      assert Keys(n', t) == {} by {
        forall x | x in Keys(n', t) ensures false { LangMember(n', t, x); }
      }
    } else {
      assert Hangs(n, p);
      var u := n[p].parent.value;
      LeavesLang(n, n', t, u, p);
      SegmentSize(p, |u|, |p|);
      assert Keys(n', t) == Keys(n, t) - Segment(p, |u|, |p|);
    }
  }

  /** A tenant that ends at the root has no strings but the empty one. */
  lemma RootLeafAlone(n: Nodes, t: Tenant)
    requires Linked(n) && TenantClosed(n) && IsLeaf(n, [], t)
    ensures forall y :: Holds(n, y, t) ==> y == []
    ensures Keys(n, t) == {}
  {
    forall y | Holds(n, y, t) && y != [] ensures false {
      Routed(n, [], y);
      assert Edge(n, [], y[0]);
      AncestorHolds(n, n[[]].children[y[0]], y, t);
    }
    forall x | x in Keys(n, t) ensures false { LangMember(n, t, x); }
  }

  /** Whoever holds a node at all has a leaf, at or below it. */
  lemma {:induction false} HasLeaf(n: Nodes, p: Path, t: Tenant) returns (leaf: Path)
    requires Linked(n) && Holds(n, p, t)
    ensures IsLeaf(n, leaf, t) && p <= leaf
    decreases |n.Keys - Above(n, p)|
  {
    if NoChildHolds(n, p, t) {
      leaf := p;
    } else {
      var c :| c in n[p].children && Holds(n, n[p].children[c], t);
      assert Edge(n, p, c);
      var m := n[p].children[c];
      assert m in n.Keys - Above(n, p) && m !in n.Keys - Above(n, m);
      assert n.Keys - Above(n, m) < n.Keys - Above(n, p);
      SmallerSet(n.Keys - Above(n, m), n.Keys - Above(n, p));
      leaf := HasLeaf(n, m, t);
    }
  }

  ghost function Above(n: Nodes, p: Path): set<Path> { set x | x in n && x <= p }

  lemma SmallerSet<T>(a: set<T>, b: set<T>)
    requires a < b
    ensures |a| < |b|
  {
    assert |b| == |a| + |b - a| by { assert b == a + (b - a); }
    assert b - a != {};
  }
}
