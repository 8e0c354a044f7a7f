/**
 The state of the multi-tenant radix tree, as a value.

 A node is addressed by its path, the string spelled from the root to it.  Splitting a node
 changes its text and its parent but never its path, so a path is a stable name for a node;
 module RadixHeap carries the same structure with object references and ties the two together.
 */
module RadixTree {
  import opened Strings

  type Tenant = string
  type Path = string

  /** Node text with its cached number of characters. */
  datatype NodeText = NodeText(str: string, charCount: nat) {
    static function Of(str: string): NodeText { NodeText(str, |str|) }

    predicate Valid() { charCount == |str| }
  }

  datatype NodeVal = NodeVal(
    text: NodeText,
    parent: Option<Path>,
    children: map<char, Path>,
    tenants: map<Tenant, nat>,
    last: Option<Tenant>)

  type Nodes = map<Path, NodeVal>

  datatype TreeVal = TreeVal(nodes: Nodes, counts: map<Tenant, nat>, epoch: nat)

  // ---------- structure ----------

  /** `p` hangs below the node its parent link names, under its first character. */
  ghost predicate Hangs(n: Nodes, p: Path)
    requires p in n
  {
    && n[p].parent.Some?
    && var u := n[p].parent.value;
    && u in n && u < p
    && n[p].text.str == p[|u|..]
    && p[|u|] in n[u].children && n[u].children[p[|u|]] == p
  }

  ghost predicate Edge(n: Nodes, p: Path, c: char)
    requires p in n && c in n[p].children
  {
    var m := n[p].children[c];
    m in n && n[m].parent == Some(p) && p < m && m[|p|] == c
  }

  /** The radix invariant: every link of the tree is exact, in both directions. */
  ghost predicate Linked(n: Nodes) {
    && [] in n && n[[]].parent == None && n[[]].text.str == []
    && (forall p :: p in n ==> n[p].text.Valid())
    && (forall p {:trigger Hangs(n, p)} :: p in n && p != [] ==> Hangs(n, p))
    && (forall p, c {:trigger Edge(n, p, c)} :: p in n && c in n[p].children ==> Edge(n, p, c))
  }

  /** The local form of ancestor closure, and no node without a tenant below the root. */
  ghost predicate Inherits(n: Nodes, p: Path)
    requires p in n
  {
    && n[p].tenants != map[]
    && n[p].parent.Some?
    && n[p].parent.value in n
    && n[p].tenants.Keys <= n[n[p].parent.value].tenants.Keys
  }

  ghost predicate TenantClosed(n: Nodes) {
    forall p {:trigger Inherits(n, p)} :: p in n && p != [] ==> Inherits(n, p)
  }

  ghost predicate Holds(n: Nodes, p: Path, t: Tenant) {
    p in n && t in n[p].tenants
  }

  // ---------- what the tree stands for ----------

  /** The prefix-closed language of a tenant: all prefixes of the paths of the nodes holding it. */
  ghost function Lang(n: Nodes, t: Tenant): set<string> {
    set p, k | p in n && t in n[p].tenants && 0 <= k <= |p| :: p[..k]
  }

  ghost function Prefixes(s: string): set<string> {
    set k | 0 <= k <= |s| :: s[..k]
  }

  ghost predicate LangKept(n: Nodes, n': Nodes, o: Tenant) { Lang(n', o) == Lang(n, o) }

  ghost predicate SameLangs(n: Nodes, n': Nodes) {
    forall o {:trigger LangKept(n, n', o)} :: LangKept(n, n', o)
  }

  /** The non-empty strings of a tenant's language: what its character count counts. */
  ghost function Keys(n: Nodes, t: Tenant): set<string> {
    Lang(n, t) - {[]}
  }

  /** The maintained count, an absent entry reading as zero. */
  function Count(counts: map<Tenant, nat>, t: Tenant): nat {
    if t in counts then counts[t] else 0
  }

  ghost predicate Tallied(s: TreeVal, t: Tenant) {
    Count(s.counts, t) == |Keys(s.nodes, t)|
  }

  /** Every count is exact; holders below the root are counted; counted tenants are at the root. */
  ghost predicate Accounted(s: TreeVal) {
    && (forall t {:trigger Tallied(s, t)} :: Tallied(s, t))
    && (forall p, t :: p != [] && Holds(s.nodes, p, t) ==> t in s.counts)
    && (forall t :: t in s.counts ==> Holds(s.nodes, [], t))
  }

  /** Access times lie below the epoch counter; a node below the root used up an epoch. */
  ghost predicate Stamped(s: TreeVal) {
    && (forall p, t :: Holds(s.nodes, p, t) ==> s.nodes[p].tenants[t] == 0 || s.nodes[p].tenants[t] < s.epoch)
    && (s.epoch == 0 ==> s.nodes.Keys == {[]})
  }

  ghost predicate WF(s: TreeVal) {
    Linked(s.nodes) && TenantClosed(s.nodes) && Accounted(s) && Stamped(s)
  }

  /** The node at `text` was accessed later than every node of `t` off the way to it. */
  ghost predicate NewestAt(n: Nodes, text: Path, t: Tenant) {
    && Holds(n, text, t)
    && forall p :: !(p <= text) && Holds(n, p, t) ==> n[p].tenants[t] < n[text].tenants[t]
  }

  // ---------- consequences of the local invariants ----------

  lemma LangMember(n: Nodes, t: Tenant, s: string)
    ensures s in Lang(n, t) <==> exists p :: Holds(n, p, t) && s <= p
  {
    if s in Lang(n, t) {
      var p, k :| p in n && t in n[p].tenants && 0 <= k <= |p| && s == p[..k];
      assert Holds(n, p, t) && s <= p;
    }
    if exists p :: Holds(n, p, t) && s <= p {
      var p :| Holds(n, p, t) && s <= p;
      assert s == p[..|s|];
    }
  }

  lemma PrefixesMember(s: string, x: string)
    ensures x in Prefixes(s) <==> x <= s
  {
    if x <= s { assert x == s[..|x|]; }
  }

  lemma EmptyPrefixes()
    ensures Prefixes([]) == {[]}
  {
    forall x ensures x in Prefixes([]) <==> x == [] { PrefixesMember([], x); }
  }

  /** From any node, the child named by the next character is on the way to every node below it. */
  lemma {:induction false} Routed(n: Nodes, p: Path, q: Path)
    requires Linked(n) && p in n && q in n && p < q
    ensures q[|p|] in n[p].children
    ensures n[p].children[q[|p|]] <= q
    decreases |q|
  {
    assert Hangs(n, q);
    var u := n[q].parent.value;
    if |p| < |u| {
      PrefixesCompare(p, u, q);
      Routed(n, p, u);
    } else if |u| < |p| {
      PrefixesCompare(u, p, q);
      Routed(n, u, p);
      assert false;
    } else {
      assert u == p;
    }
  }

  /** A node below `p` other than a child of `p` has its parent below `p` as well. */
  lemma ParentAbove(n: Nodes, p: Path, q: Path)
    requires Linked(n) && p in n && q in n && p < q
    ensures n[q].parent.Some? && n[q].parent.value in n
    ensures p <= n[q].parent.value < q
  {
    assert Hangs(n, q);
    var u := n[q].parent.value;
    if |u| < |p| {
      PrefixesCompare(u, p, q);
      Routed(n, u, p);
      assert false;
    } else {
      PrefixesCompare(p, u, q);
    }
  }

  /** Ancestor closure: whoever holds a node holds every node above it. */
  lemma {:induction false} AncestorHolds(n: Nodes, p: Path, q: Path, t: Tenant)
    requires Linked(n) && TenantClosed(n) && p in n && p <= q && Holds(n, q, t)
    ensures Holds(n, p, t)
    decreases |q|
  {
    if p != q {
      ParentAbove(n, p, q);
      assert Inherits(n, q);
      AncestorHolds(n, p, n[q].parent.value, t);
    }
  }

  /** No string of the language passes through a character for which the node has no child. */
  lemma NoChildNoString(n: Nodes, t: Tenant, p: Path, s: string)
    requires Linked(n) && p in n && p < s && s[|p|] !in n[p].children
    ensures s !in Lang(n, t)
  {
    LangMember(n, t, s);
    forall q | Holds(n, q, t) && s <= q ensures false {
      assert p < q && q[|p|] == s[|p|];
      Routed(n, p, q);
    }
  }

  /** A string that leaves `p` towards its child `m` is a tenant's only if the tenant holds `m`. */
  lemma ThroughChild(n: Nodes, t: Tenant, p: Path, s: string)
    requires Linked(n) && TenantClosed(n) && p in n && p < s && s[|p|] in n[p].children
    ensures s in Lang(n, t) ==> Holds(n, n[p].children[s[|p|]], t)
    ensures s in Lang(n, t) && |s| <= |n[p].children[s[|p|]]| ==> s <= n[p].children[s[|p|]]
    ensures s <= n[p].children[s[|p|]] && Holds(n, n[p].children[s[|p|]], t) ==> s in Lang(n, t)
  {
    LangMember(n, t, s);
    var m := n[p].children[s[|p|]];
    assert Edge(n, p, s[|p|]);
    if s in Lang(n, t) {
      var q :| Holds(n, q, t) && s <= q;
      assert p < q && q[|p|] == s[|p|];
      Routed(n, p, q);
      AncestorHolds(n, m, q, t);
      if |s| <= |m| { PrefixesCompare(s, m, q); }
    }
  }

  /** The tree before anything has happened to it; the epoch counter is shared by all trees. */
  function Empty(epoch: nat): TreeVal {
    TreeVal(map[[] := NodeVal(NodeText.Of([]), None, map[], map[], None)], map[], epoch)
  }

  lemma EmptyWF(epoch: nat)
    ensures WF(Empty(epoch))
  {
    forall t ensures Tallied(Empty(epoch), t) {
      assert Keys(Empty(epoch).nodes, t) == {};
    }
  }
}
