/**
 Insertion: the updates one loop iteration makes, and what each of them keeps.
 An iteration stands at a node with the remaining text in hand and either hangs a new leaf
 below it, splits the child it meets, or moves on to that child.
 */
module RadixInsert {
  import opened Strings
  import opened RadixTree

  // ---------- the text of a node cut in two ----------

  function SplitAtChar(x: NodeText, k: nat): (r: (NodeText, NodeText))
    requires x.Valid()
    ensures r.0.str + r.1.str == x.str && r.0.Valid() && r.1.Valid()
    ensures r.0.charCount == if k < x.charCount then k else x.charCount
  {
    if k == 0 then (NodeText.Of([]), x)
    else if k >= x.charCount then (x, NodeText.Of([]))
    else (NodeText(x.str[..k], k), NodeText(x.str[k..], x.charCount - k))
  }

  // ---------- the updates ----------

  function Bump(counts: map<Tenant, nat>, t: Tenant, k: nat): map<Tenant, nat> {
    counts[t := Count(counts, t) + k]
  }

  /** The tenant joins an existing node, unless it is there already. */
  function Attach(s: TreeVal, p: Path, t: Tenant): TreeVal
    requires p in s.nodes
  {
    if t in s.nodes[p].tenants then s
    else
      var v := s.nodes[p];
      TreeVal(s.nodes[p := v.(tenants := v.tenants[t := 0])], Bump(s.counts, t, v.text.charCount), s.epoch)
  }

  /** A new leaf with all of the remaining text. */
  function WithLeaf(n: Nodes, q: Path, r: string, t: Tenant, ts: nat): Nodes
    requires q in n && r != []
  {
    n[q := n[q].(children := n[q].children[r[0] := q + r])]
     [q + r := NodeVal(NodeText.Of(r), Some(q), map[], map[t := ts], Some(t))]
  }

  function AddLeaf(s: TreeVal, q: Path, r: string, t: Tenant): TreeVal
    requires q in s.nodes && r != []
  {
    TreeVal(WithLeaf(s.nodes, q, r, t, s.epoch), Bump(s.counts, t, |r|), s.epoch + 1)
  }

  /** The child `m` of `q` keeps its lower part; a new node takes its first `k` characters. */
  function SplitNode(n: Nodes, q: Path, m: Path, k: nat): Nodes
    requires q in n && m in n && n[m].text.Valid() && 0 < k < |n[m].text.str|
  {
    var (upper, lower) := SplitAtChar(n[m].text, k);
    var mid := q + upper.str;
    var v := n[q];
    n[q := v.(children := v.children[upper.str[0] := mid])]
     [mid := NodeVal(upper, Some(q), map[lower.str[0] := m], n[m].tenants, n[m].last)]
     [m := n[m].(text := lower, parent := Some(mid))]
  }

  // ---------- splitting ----------

  ghost predicate Splittable(n: Nodes, q: Path, m: Path, k: nat) {
    && Linked(n) && q in n && m in n && n[m].parent == Some(q)
    && 0 < k < |n[m].text.str|
  }

  lemma SplitFresh(n: Nodes, q: Path, m: Path, k: nat)
    requires Splittable(n, q, m, k)
    ensures |q| + k < |m|
    ensures q < m[..|q| + k] < m
    ensures m[..|q| + k] !in n
  {
    assert Hangs(n, m);
    var mid := m[..|q| + k];
    if mid in n {
      Routed(n, q, mid);
      assert false;
    }
  }

  /** `n'` is `n` with `m`, a child of `q`, split at the path `mid`. */
  ghost predicate IsSplit(n: Nodes, n': Nodes, q: Path, m: Path, mid: Path) {
    && q in n && m in n && mid !in n && q < mid < m && n[m].parent == Some(q)
    && n'.Keys == n.Keys + {mid}
    && (forall p :: p in n && p != q && p != m ==> n'[p] == n[p])
    && n'[q] == n[q].(children := n[q].children[mid[|q|] := mid])
    && n'[mid] == NodeVal(NodeText.Of(mid[|q|..]), Some(q), map[m[|mid|] := m], n[m].tenants, n[m].last)
    && n'[m] == n[m].(text := NodeText.Of(m[|mid|..]), parent := Some(mid))
  }

  lemma SplitTexts(n: Nodes, q: Path, m: Path, k: nat)
    requires Splittable(n, q, m, k)
    ensures |q| + k < |m|
    ensures SplitAtChar(n[m].text, k) == (NodeText.Of(m[|q|..|q| + k]), NodeText.Of(m[|q| + k..]))
    ensures q + m[|q|..|q| + k] == m[..|q| + k]
  {
    assert Hangs(n, m);
    assert m[|q|..][..k] == m[|q|..|q| + k];
    assert m[|q|..][k..] == m[|q| + k..];
    assert q == m[..|q|];
  }

  lemma SplitShape(n: Nodes, q: Path, m: Path, k: nat)
    requires Splittable(n, q, m, k)
    ensures |q| + k < |m|
    ensures IsSplit(n, SplitNode(n, q, m, k), q, m, m[..|q| + k])
  {
    SplitFresh(n, q, m, k);
    SplitTexts(n, q, m, k);
    var mid := m[..|q| + k];
    assert mid[|q|..] == m[|q|..|q| + k];
  }

  lemma SplitHangs(n: Nodes, n': Nodes, q: Path, m: Path, mid: Path, p: Path)
    requires Linked(n) && IsSplit(n, n', q, m, mid) && p in n' && p != []
    ensures Hangs(n', p)
  {
    assert Hangs(n, m);
    if p != mid && p != m {
      assert Hangs(n, p);
    }
  }

  lemma SplitEdge(n: Nodes, n': Nodes, q: Path, m: Path, mid: Path, p: Path, c: char)
    requires Linked(n) && IsSplit(n, n', q, m, mid) && p in n' && c in n'[p].children
    ensures Edge(n', p, c)
  {
    assert Hangs(n, m);
    if p != mid && !(p == q && c == mid[|q|]) {
      assert Edge(n, p, c);
    }
  }

  lemma SplitLinked(n: Nodes, n': Nodes, q: Path, m: Path, mid: Path)
    requires Linked(n) && IsSplit(n, n', q, m, mid)
    ensures Linked(n')
  {
    hide Hangs, Edge;
    forall p | p in n' && p != [] ensures Hangs(n', p) {
      SplitHangs(n, n', q, m, mid, p);
    }
    forall p, c | p in n' && c in n'[p].children ensures Edge(n', p, c) {
      SplitEdge(n, n', q, m, mid, p, c);
    }
  }

  lemma SplitKeepsTenants(n: Nodes, n': Nodes, q: Path, m: Path, mid: Path)
    requires TenantClosed(n) && IsSplit(n, n', q, m, mid)
    ensures TenantClosed(n')
  {
    assert Inherits(n, m);
    forall p | p in n' && p != [] ensures Inherits(n', p) {
      if p != mid && p != m {
        assert Inherits(n, p);
      }
    }
  }

  lemma SplitKeepsLang(n: Nodes, n': Nodes, q: Path, m: Path, mid: Path, t: Tenant)
    requires IsSplit(n, n', q, m, mid)
    ensures Lang(n', t) == Lang(n, t)
  {
    forall x ensures x in Lang(n', t) <==> x in Lang(n, t) {
      LangMember(n, t, x);
      LangMember(n', t, x);
      if x in Lang(n', t) {
        var p :| Holds(n', p, t) && x <= p;
        assert if p == mid then Holds(n, m, t) && x <= m else Holds(n, p, t);
      }
      if x in Lang(n, t) {
        var p :| Holds(n, p, t) && x <= p;
        assert Holds(n', p, t);
      }
    }
  }

  // ---------- hanging a new leaf ----------

  /** `n'` is `n` with a leaf at `p` below `q`, held by `t`. */
  ghost predicate IsLeafAdd(n: Nodes, n': Nodes, q: Path, p: Path, t: Tenant, ts: nat) {
    && q in n && p !in n && q < p && p[|q|] !in n[q].children
    && n'.Keys == n.Keys + {p}
    && (forall x :: x in n && x != q ==> n'[x] == n[x])
    && n'[q] == n[q].(children := n[q].children[p[|q|] := p])
    && n'[p] == NodeVal(NodeText.Of(p[|q|..]), Some(q), map[], map[t := ts], Some(t))
  }

  lemma LeafFresh(n: Nodes, q: Path, r: string)
    requires Linked(n) && q in n && r != [] && r[0] !in n[q].children
    ensures q + r !in n
  {
    if q + r in n {
      Routed(n, q, q + r);
      assert false;
    }
  }

  lemma LeafShape(s: TreeVal, q: Path, r: string, t: Tenant)
    requires Linked(s.nodes) && q in s.nodes && r != [] && r[0] !in s.nodes[q].children
    ensures IsLeafAdd(s.nodes, AddLeaf(s, q, r, t).nodes, q, q + r, t, s.epoch)
  {
    assert (q + r)[|q|..] == r;
    LeafFresh(s.nodes, q, r);
  }

  lemma LeafHangs(n: Nodes, n': Nodes, q: Path, p: Path, t: Tenant, ts: nat, x: Path)
    requires Linked(n) && IsLeafAdd(n, n', q, p, t, ts) && x in n' && x != []
    ensures Hangs(n', x)
  {
    if x != p { assert Hangs(n, x); }
  }

  lemma LeafEdge(n: Nodes, n': Nodes, q: Path, p: Path, t: Tenant, ts: nat, x: Path, c: char)
    requires Linked(n) && IsLeafAdd(n, n', q, p, t, ts) && x in n' && c in n'[x].children
    ensures Edge(n', x, c)
  {
    if !(x == q && c == p[|q|]) { assert Edge(n, x, c); }
  }

  lemma LeafLinked(n: Nodes, n': Nodes, q: Path, p: Path, t: Tenant, ts: nat)
    requires Linked(n) && IsLeafAdd(n, n', q, p, t, ts)
    ensures Linked(n')
  {
    hide Hangs, Edge;
    forall x | x in n' && x != [] ensures Hangs(n', x) { LeafHangs(n, n', q, p, t, ts, x); }
    forall x, c | x in n' && c in n'[x].children ensures Edge(n', x, c) { LeafEdge(n, n', q, p, t, ts, x, c); }
  }

  lemma LeafKeepsTenants(n: Nodes, n': Nodes, q: Path, p: Path, t: Tenant, ts: nat)
    requires TenantClosed(n) && IsLeafAdd(n, n', q, p, t, ts) && Holds(n, q, t)
    ensures TenantClosed(n')
  {
    forall x | x in n' && x != [] ensures Inherits(n', x) {
      if x == p { assert t in n'[p].tenants; } else { assert Inherits(n, x); }
    }
  }

  /** How `o`'s language changes when `t` comes to hold the path `p`. */
  ghost predicate LangStep(n: Nodes, n': Nodes, t: Tenant, p: Path, o: Tenant) {
    Lang(n', o) == if o == t then Lang(n, o) + Prefixes(p) else Lang(n, o)
  }

  /** Only `t`'s language changes, and it gains exactly the prefixes of `p`. */
  ghost predicate Gains(n: Nodes, n': Nodes, t: Tenant, p: Path) {
    forall o {:trigger LangStep(n, n', t, p, o)} :: LangStep(n, n', t, p, o)
  }

  /** The holders of `n'` are those of `n`, and `t` at `p`. */
  ghost predicate Joins(n: Nodes, n': Nodes, t: Tenant, p: Path) {
    forall x, o :: Holds(n', x, o) <==> Holds(n, x, o) || (x == p && o == t)
  }

  lemma JoinGains(n: Nodes, n': Nodes, t: Tenant, p: Path)
    requires Joins(n, n', t, p)
    ensures Gains(n, n', t, p)
  {
    forall o ensures LangStep(n, n', t, p, o) {
      forall x ensures x in Lang(n', o) <==> x in Lang(n, o) || (o == t && x in Prefixes(p)) {
        LangMember(n, o, x);
        LangMember(n', o, x);
        PrefixesMember(p, x);
        if x in Lang(n', o) {
          var y :| Holds(n', y, o) && x <= y;
          assert Holds(n, y, o) || (y == p && o == t);
        }
        if x in Lang(n, o) {
          var y :| Holds(n, y, o) && x <= y;
          assert Holds(n', y, o);
        }
        if o == t && x in Prefixes(p) {
          assert Holds(n', p, t);
        }
      }
    }
  }

  // ---------- a tenant joining a node ----------

  function Stamp(n: Nodes, p: Path, t: Tenant, ts: nat): (n': Nodes)
    requires p in n
    ensures IsStamp(n, n', p, t, ts)
  {
    n[p := n[p].(tenants := n[p].tenants[t := ts])]
  }

  ghost predicate IsStamp(n: Nodes, n': Nodes, p: Path, t: Tenant, ts: nat) {
    && p in n && n'.Keys == n.Keys
    && (forall x :: x in n && x != p ==> n'[x] == n[x])
    && n'[p] == n[p].(tenants := n[p].tenants[t := ts])
  }

  lemma StampLinked(n: Nodes, n': Nodes, p: Path, t: Tenant, ts: nat)
    requires Linked(n) && IsStamp(n, n', p, t, ts)
    ensures Linked(n')
  {
    forall x | x in n' && x != [] ensures Hangs(n', x) { assert Hangs(n, x); }
    forall x, c | x in n' && c in n'[x].children ensures Edge(n', x, c) { assert Edge(n, x, c); }
  }

  lemma StampKeepsTenants(n: Nodes, n': Nodes, p: Path, t: Tenant, ts: nat)
    requires TenantClosed(n) && IsStamp(n, n', p, t, ts)
    requires p == [] || (n[p].parent.Some? && n[p].parent.value != p && Holds(n, n[p].parent.value, t))
    ensures TenantClosed(n')
  {
    forall x | x in n' && x != [] ensures Inherits(n', x) {
      assert Inherits(n, x);
    }
  }

  lemma StampHolds(n: Nodes, n': Nodes, p: Path, t: Tenant, ts: nat)
    requires IsStamp(n, n', p, t, ts)
    ensures Joins(n, n', t, p)
  {}

  lemma StampStamped(s: TreeVal, s': TreeVal, p: Path, t: Tenant, ts: nat)
    requires Stamped(s) && IsStamp(s.nodes, s'.nodes, p, t, ts)
    requires s.epoch <= s'.epoch && (ts == 0 || ts < s'.epoch)
    ensures Stamped(s')
  {
    StampHolds(s.nodes, s'.nodes, p, t, ts);
  }

  lemma LeafStamped(s: TreeVal, s': TreeVal, q: Path, p: Path, t: Tenant)
    requires Stamped(s) && IsLeafAdd(s.nodes, s'.nodes, q, p, t, s.epoch) && s'.epoch == s.epoch + 1
    ensures Stamped(s')
  {
    assert forall x, o :: Holds(s'.nodes, x, o) ==> Holds(s.nodes, x, o) || x == p;
  }

  // ---------- accounting ----------

  /** Strings below a node the tenant holds, towards a path it does not have yet, are all new. */
  lemma NewKeys(n: Nodes, q: Path, p: Path, t: Tenant)
    requires Linked(n) && TenantClosed(n) && Holds(n, q, t) && q < p
    requires p[|q|] in n[q].children ==> n[q].children[p[|q|]] == p && !Holds(n, p, t)
    ensures |(Lang(n, t) + Prefixes(p)) - {[]}| == |Keys(n, t)| + |p| - |q|
  {
    var added := Segment(p, |q|, |p|);
    SegmentSize(p, |q|, |p|);
    forall x | x in added ensures x !in Keys(n, t) {
      assert q < x && x[|q|] == p[|q|];
      if p[|q|] in n[q].children {
        ThroughChild(n, t, q, x);
      } else {
        NoChildNoString(n, t, q, x);
      }
    }
    forall x ensures x in (Lang(n, t) + Prefixes(p)) - {[]} <==> x in Keys(n, t) + added {
      PrefixesMember(p, x);
      LangMember(n, t, x);
      if x <= p && |x| <= |q| {
        PrefixesCompare(x, q, p);
      }
      if x <= p && |q| < |x| {
        assert x == p[..|x|];
      }
    }
    assert (Lang(n, t) + Prefixes(p)) - {[]} == Keys(n, t) + added;
    assert Keys(n, t) !! added;
  }

  lemma AccountStep(s: TreeVal, s': TreeVal, t: Tenant, p: Path, k: nat)
    requires Accounted(s) && Joins(s.nodes, s'.nodes, t, p) && Gains(s.nodes, s'.nodes, t, p)
    requires s'.counts == Bump(s.counts, t, k)
    requires |(Lang(s.nodes, t) + Prefixes(p)) - {[]}| == |Keys(s.nodes, t)| + k
    requires Holds(s.nodes, [], t)
    ensures Accounted(s')
  {
    forall o ensures Tallied(s', o) {
      assert Tallied(s, o);
      assert LangStep(s.nodes, s'.nodes, t, p, o);
    }
  }

  lemma SameAccount(s: TreeVal, s': TreeVal)
    requires Accounted(s) && s'.counts == s.counts && SameKeys(s.nodes, s'.nodes)
    requires forall x, o :: x != [] && Holds(s'.nodes, x, o) ==> exists y :: y != [] && Holds(s.nodes, y, o)
    requires forall o :: Holds(s.nodes, [], o) ==> Holds(s'.nodes, [], o)
    ensures Accounted(s')
  {
    forall o ensures Tallied(s', o) {
      assert Tallied(s, o);
      assert KeysKept(s.nodes, s'.nodes, o);
    }
  }

  ghost predicate KeysKept(n: Nodes, n': Nodes, o: Tenant) { Keys(n', o) == Keys(n, o) }

  ghost predicate SameKeys(n: Nodes, n': Nodes) {
    forall o {:trigger KeysKept(n, n', o)} :: KeysKept(n, n', o)
  }

  // ---------- each update keeps the whole invariant and moves the languages as promised ----------

  lemma HeldPrefixes(n: Nodes, p: Path, t: Tenant)
    requires Holds(n, p, t)
    ensures Gains(n, n, t, p)
  {
    JoinGains(n, n, t, p);
  }

  lemma AttachWF(s: TreeVal, p: Path, t: Tenant)
    requires WF(s) && p in s.nodes && p != []
    requires s.nodes[p].parent.Some? && Holds(s.nodes, s.nodes[p].parent.value, t)
    ensures WF(Attach(s, p, t)) && Gains(s.nodes, Attach(s, p, t).nodes, t, p)
  {
    if Holds(s.nodes, p, t) {
      HeldPrefixes(s.nodes, p, t);
    } else {
      AttachNewWF(s, p, t);
    }
  }

  lemma AttachNewWF(s: TreeVal, p: Path, t: Tenant)
    requires WF(s) && p in s.nodes && p != []
    requires s.nodes[p].parent.Some? && Holds(s.nodes, s.nodes[p].parent.value, t)
    requires !Holds(s.nodes, p, t)
    ensures WF(Attach(s, p, t)) && Gains(s.nodes, Attach(s, p, t).nodes, t, p)
  {
    var n, s' := s.nodes, Attach(s, p, t);
    var n', q := s'.nodes, n[p].parent.value;
    assert Hangs(n, p);
    assert n' == Stamp(n, p, t, 0);
    StampLinked(n, n', p, t, 0);
    StampKeepsTenants(n, n', p, t, 0);
    JoinGains(n, n', t, p);
    NewKeys(n, q, p, t);
    AncestorHolds(n, [], q, t);
    AccountStep(s, s', t, p, n[p].text.charCount);
    StampStamped(s, s', p, t, 0);
  }

  lemma AddLeafWF(s: TreeVal, q: Path, r: string, t: Tenant)
    requires WF(s) && Holds(s.nodes, q, t) && r != [] && r[0] !in s.nodes[q].children
    ensures WF(AddLeaf(s, q, r, t)) && Gains(s.nodes, AddLeaf(s, q, r, t).nodes, t, q + r)
  {
    var n, s' := s.nodes, AddLeaf(s, q, r, t);
    var n', p := s'.nodes, q + r;
    LeafShape(s, q, r, t);
    LeafLinked(n, n', q, p, t, s.epoch);
    LeafKeepsTenants(n, n', q, p, t, s.epoch);
    JoinGains(n, n', t, p);
    NewKeys(n, q, p, t);
    AncestorHolds(n, [], q, t);
    AccountStep(s, s', t, p, |r|);
    LeafStamped(s, s', q, p, t);
  }

  lemma SplitWF(s: TreeVal, q: Path, m: Path, k: nat)
    requires WF(s) && Splittable(s.nodes, q, m, k)
    ensures WF(s.(nodes := SplitNode(s.nodes, q, m, k)))
    ensures SameLangs(s.nodes, SplitNode(s.nodes, q, m, k))
  {
    var n, n' := s.nodes, SplitNode(s.nodes, q, m, k);
    SplitShape(n, q, m, k);
    var mid := m[..|q| + k];
    SplitLinked(n, n', q, m, mid);
    SplitKeepsTenants(n, n', q, m, mid);
    SplitSameLangs(n, n', q, m, mid);
    SplitHolds(n, n', q, m, mid);
    SameAccount(s, s.(nodes := n'));
  }

  lemma SplitSameLangs(n: Nodes, n': Nodes, q: Path, m: Path, mid: Path)
    requires IsSplit(n, n', q, m, mid)
    ensures SameLangs(n, n') && SameKeys(n, n')
  {
    forall o ensures LangKept(n, n', o) && KeysKept(n, n', o) {
      SplitKeepsLang(n, n', q, m, mid, o);
    }
  }

  lemma SplitHolds(n: Nodes, n': Nodes, q: Path, m: Path, mid: Path)
    requires IsSplit(n, n', q, m, mid)
    ensures forall x, o :: Holds(n', x, o) <==> if x == mid then Holds(n, m, o) else Holds(n, x, o)
  {}

  // ---------- the bookkeeping steps before and after the loop ----------

  /** The tenant is entered at the root, whose access time is of no interest. */
  function Enroll(s: TreeVal, t: Tenant): TreeVal
    requires [] in s.nodes
  {
    if t in s.nodes[[]].tenants then s else s.(nodes := Stamp(s.nodes, [], t, 0))
  }

  function OpenCount(s: TreeVal, t: Tenant): TreeVal {
    s.(counts := Bump(s.counts, t, 0))
  }

  /** The access time of a holder becomes the next epoch. */
  function Touch(s: TreeVal, p: Path, t: Tenant): TreeVal
    requires p in s.nodes
  {
    TreeVal(Stamp(s.nodes, p, t, s.epoch), s.counts, s.epoch + 1)
  }

  /** Giving a tenant a stamp at the root adds at most the empty string to its language. */
  lemma RootStampWF(s: TreeVal, t: Tenant, ts: nat, e: nat)
    requires WF(s) && s.epoch <= e && (ts == 0 || ts < e)
    ensures WF(TreeVal(Stamp(s.nodes, [], t, ts), s.counts, e))
    ensures Gains(s.nodes, Stamp(s.nodes, [], t, ts), t, [])
  {
    var n, n' := s.nodes, Stamp(s.nodes, [], t, ts);
    StampLinked(n, n', [], t, ts);
    StampKeepsTenants(n, n', [], t, ts);
    JoinGains(n, n', t, []);
    forall o ensures KeysKept(n, n', o) {
      assert LangStep(n, n', t, [], o);
      EmptyPrefixes();
    }
    StampHolds(n, n', [], t, ts);
    SameAccount(s, TreeVal(n', s.counts, e));
    StampStamped(s, TreeVal(n', s.counts, e), [], t, ts);
  }

  lemma EnrollWF(s: TreeVal, t: Tenant)
    requires WF(s)
    ensures WF(Enroll(s, t)) && Gains(s.nodes, Enroll(s, t).nodes, t, [])
  {
    if t in s.nodes[[]].tenants {
      HeldPrefixes(s.nodes, [], t);
    } else {
      RootStampWF(s, t, 0, s.epoch);
    }
  }

  lemma OpenCountWF(s: TreeVal, t: Tenant)
    requires WF(s) && Holds(s.nodes, [], t)
    ensures WF(OpenCount(s, t))
  {
    forall o ensures Tallied(OpenCount(s, t), o) { assert Tallied(s, o); }
  }

  lemma TouchWF(s: TreeVal, p: Path, t: Tenant)
    requires WF(s) && Holds(s.nodes, p, t)
    ensures WF(Touch(s, p, t)) && SameLangs(s.nodes, Touch(s, p, t).nodes)
  {
    var n, n' := s.nodes, Touch(s, p, t).nodes;
    StampLinked(n, n', p, t, s.epoch);
    if p != [] { assert Hangs(n, p) && Inherits(n, p); }
    StampKeepsTenants(n, n', p, t, s.epoch);
    StampSameLangs(n, n', p, t, s.epoch);
    StampHolds(n, n', p, t, s.epoch);
    SameAccount(s, Touch(s, p, t));
    StampStamped(s, Touch(s, p, t), p, t, s.epoch);
  }

  lemma StampSameLangs(n: Nodes, n': Nodes, p: Path, t: Tenant, ts: nat)
    requires IsStamp(n, n', p, t, ts) && Holds(n, p, t)
    ensures SameLangs(n, n') && SameKeys(n, n')
  {
    JoinGains(n, n', t, p);
    HeldPrefixes(n, p, t);
    forall o ensures LangKept(n, n', o) && KeysKept(n, n', o) {
      assert LangStep(n, n', t, p, o) && LangStep(n, n, t, p, o);
    }
  }
}
