/** Prefix matching: what each way of leaving the matching loop says about the languages. */
module RadixMatch {
  import opened Strings
  import opened RadixTree
  import opened RadixInsert

  /** No prefix of `text` longer than `k` is in the tenant's language. */
  ghost predicate NoneBeyond(n: Nodes, t: Tenant, text: string, k: nat) {
    forall j :: k < j <= |text| ==> text[..j] !in Lang(n, t)
  }

  /** `k` is the length of the longest prefix of `text` in the tenant's language, zero if there is none. */
  ghost predicate IsLongest(n: Nodes, t: Tenant, text: string, k: nat) {
    k <= |text| && (k > 0 ==> text[..k] in Lang(n, t)) && NoneBeyond(n, t, text, k)
  }

  lemma LongestUnique(n: Nodes, t: Tenant, text: string, k: nat, l: nat)
    requires IsLongest(n, t, text, k) && IsLongest(n, t, text, l)
    ensures k == l
  {
    var a, b := text[..k], text[..l];
  }

  lemma LongestFits(n: Nodes, t: Tenant, text: string, k: nat)
    requires IsLongest(n, t, text, k)
    ensures k <= |text|
  {}

  lemma SameLangsRefl(n: Nodes)
    ensures SameLangs(n, n)
  {
    forall o ensures LangKept(n, n, o) {}
  }

  lemma HolderHasPrefix(n: Nodes, t: Tenant, p: Path, x: string)
    requires Holds(n, p, t) && x <= p
    ensures x in Lang(n, t)
  {
    LangMember(n, t, x);
  }

  /** The text ends at the node. */
  lemma TextExhausted(n: Nodes, t: Tenant, text: string)
    ensures NoneBeyond(n, t, text, |text|)
  {}

  lemma NoChild(n: Nodes, t: Tenant, q: Path, text: string)
    requires Linked(n) && q in n && q < text && text[|q|] !in n[q].children
    ensures NoneBeyond(n, t, text, |q|)
  {
    forall j | |q| < j <= |text| ensures text[..j] !in Lang(n, t) {
      NoChildNoString(n, t, q, text[..j]);
    }
  }

  lemma ChildNotHeld(n: Nodes, t: Tenant, q: Path, text: string)
    requires Linked(n) && TenantClosed(n) && q in n && q < text && text[|q|] in n[q].children
    requires !Holds(n, n[q].children[text[|q|]], t)
    ensures NoneBeyond(n, t, text, |q|)
  {
    forall j | |q| < j <= |text| ensures text[..j] !in Lang(n, t) {
      ThroughChild(n, t, q, text[..j]);
    }
  }

  /** How the child met under the next character compares with the text. */
  lemma ChildMeets(n: Nodes, q: Path, text: string)
    requires Linked(n) && q in n && q < text && text[|q|] in n[q].children
    ensures var m := n[q].children[text[|q|]];
            && m in n && q < m && n[m].parent == Some(q) && n[m].text.Valid() && n[m].text.str == m[|q|..]
            && var k := Lcp(text[|q|..], n[m].text.str);
            && 0 < k <= n[m].text.charCount && |q| + k <= |text|
            && text[..|q| + k] <= m
            && (k == n[m].text.charCount ==> |m| == |q| + k && m <= text)
            && (k < n[m].text.charCount ==> |q| + k < |m| && (|q| + k < |text| ==> text[|q| + k] != m[|q| + k]))
  {
    var m := n[q].children[text[|q|]];
    assert Edge(n, q, text[|q|]) && Hangs(n, m);
    var k := Lcp(text[|q|..], m[|q|..]);
    assert text[..|q| + k] == q + text[|q|..][..k];
    assert m[..|q| + k] == q + m[|q|..][..k];
  }

  /** The text leaves the tree inside the child's text. */
  lemma ChildDiverges(n: Nodes, t: Tenant, q: Path, text: string)
    requires Linked(n) && TenantClosed(n) && q in n && q < text && text[|q|] in n[q].children
    requires n[q].children[text[|q|]] in n
    requires Lcp(text[|q|..], n[n[q].children[text[|q|]]].text.str) < n[n[q].children[text[|q|]]].text.charCount
    ensures NoneBeyond(n, t, text, |q| + Lcp(text[|q|..], n[n[q].children[text[|q|]]].text.str))
  {
    ChildMeets(n, q, text);
    var m := n[q].children[text[|q|]];
    var k := |q| + Lcp(text[|q|..], n[m].text.str);
    forall j | k < j <= |text| ensures text[..j] !in Lang(n, t) {
      LangMember(n, t, text[..j]);
      forall y | Holds(n, y, t) && text[..j] <= y ensures false {
        assert q < y && y[|q|] == text[|q|] && y[k] == text[k];
        Routed(n, q, y);
      }
    }
  }

  // ---------- what a match does to the tree ----------

  /** The node a walk over `text` ends at after `matched` characters: they end on the edge into it. */
  ghost predicate Decides(v: NodeVal, end: Path, text: string, matched: nat) {
    && matched <= |text| && text[..matched] <= end && (matched > 0 <==> end != [])
    && (v.parent.Some? ==> |v.parent.value| < matched)
  }

  /** The tenant a node answers with: the one it remembers if that is still there, else any, else the name "empty". */
  ghost predicate Picks(v: NodeVal, t: Tenant) {
    if v.last.Some? && v.last.value in v.tenants then t == v.last.value
    else if v.tenants != map[] then t in v.tenants
    else t == "empty"
  }

  /** The node remembers the tenant. */
  function Remember(n: Nodes, p: Path, t: Tenant): (n': Nodes)
    requires p in n
    ensures n'.Keys == n.Keys && forall x :: x in n && x != p ==> n'[x] == n[x]
  {
    n[p := n[p].(last := Some(t))]
  }

  /**
   A match draws an epoch and is remembered at its node; one epoch in eight becomes the access
   time of the tenant it answers with.
   */
  function MatchEffect(s: TreeVal, p: Path, t: Tenant): TreeVal
    requires p in s.nodes
  {
    var s1 := s.(nodes := Remember(s.nodes, p, t));
    if s.epoch % 8 == 0 then Touch(s1, p, t) else s1.(epoch := s.epoch + 1)
  }

  lemma RememberLinked(n: Nodes, p: Path, t: Tenant)
    requires Linked(n) && p in n
    ensures Linked(Remember(n, p, t))
  {
    var n' := Remember(n, p, t);
    forall x | x in n' && x != [] ensures Hangs(n', x) { assert Hangs(n, x); }
    forall x, c | x in n' && c in n'[x].children ensures Edge(n', x, c) { assert Edge(n, x, c); }
  }

  lemma RememberLangs(n: Nodes, p: Path, t: Tenant)
    requires p in n
    ensures SameLangs(n, Remember(n, p, t)) && SameKeys(n, Remember(n, p, t))
  {
    var n' := Remember(n, p, t);
    forall o ensures LangKept(n, n', o) && KeysKept(n, n', o) {
      forall x ensures x in Lang(n', o) <==> x in Lang(n, o) {
        LangMember(n, o, x);
        LangMember(n', o, x);
        assert forall y :: Holds(n', y, o) <==> Holds(n, y, o);
      }
    }
  }

  lemma RememberHolds(n: Nodes, p: Path, t: Tenant)
    requires p in n
    ensures p in Remember(n, p, t) && Remember(n, p, t).Keys == n.Keys
    ensures forall x :: x in n ==> Remember(n, p, t)[x].tenants == n[x].tenants
    ensures forall x, o :: Holds(Remember(n, p, t), x, o) <==> Holds(n, x, o)
  {}

  lemma RememberTenants(n: Nodes, p: Path, t: Tenant)
    requires TenantClosed(n) && p in n
    ensures TenantClosed(Remember(n, p, t))
  {
    var n' := Remember(n, p, t);
    forall x | x in n' && x != [] ensures Inherits(n', x) { assert Inherits(n, x); }
  }

  lemma RememberAccounted(s: TreeVal, p: Path, t: Tenant)
    requires Accounted(s) && Stamped(s) && p in s.nodes
    ensures Accounted(s.(nodes := Remember(s.nodes, p, t))) && Stamped(s.(nodes := Remember(s.nodes, p, t)))
  {
    hide Remember;
    var n, s1 := s.nodes, s.(nodes := Remember(s.nodes, p, t));
    RememberHolds(n, p, t);
    RememberLangs(n, p, t);
    forall o ensures Tallied(s1, o) { assert Tallied(s, o) && KeysKept(n, s1.nodes, o); }
  }

  /** What a node remembers is nobody's access. */
  lemma RememberWF(s: TreeVal, p: Path, t: Tenant)
    requires WF(s) && p in s.nodes
    ensures WF(s.(nodes := Remember(s.nodes, p, t)))
  {
    hide Linked, TenantClosed, Accounted, Stamped, Remember;
    RememberLinked(s.nodes, p, t);
    RememberTenants(s.nodes, p, t);
    RememberAccounted(s, p, t);
  }

  /** A stamp for a tenant that was not at the root gives it the empty string. */
  lemma RootStampTells(s: TreeVal, t: Tenant, ts: nat)
    requires WF(s) && !Holds(s.nodes, [], t)
    ensures [] in s.nodes && !SameLangs(s.nodes, Stamp(s.nodes, [], t, ts))
  {
    var n, n' := s.nodes, Stamp(s.nodes, [], t, ts);
    LangMember(n, t, []);
    HolderHasPrefix(n', t, [], []);
    forall p | Holds(n, p, t) ensures false { AncestorHolds(n, [], p, t); }
    assert !LangKept(n, n', t);
  }

  /** The node a walk ends at vouches for the tenant picked there. */
  lemma Vouches(s: TreeVal, end: Path, text: string, matched: nat, t: Tenant)
    requires WF(s) && end in s.nodes && Picks(s.nodes[end], t)
    requires matched <= |text| && text[..matched] <= end && (matched > 0 <==> end != [])
    ensures matched > 0 ==> text[..matched] in Lang(s.nodes, t)
    ensures Holds(s.nodes, end, t) || end == []
    ensures [] in s.nodes && (s.nodes[[]].tenants != map[] <==> Holds(s.nodes, end, t))
  {
    var n := s.nodes;
    if end != [] {
      SomeTenant(n, end);
      HolderHasPrefix(n, t, end, text[..matched]);
    }
    if t in n[end].tenants { RootTenants(n, end, t); }
  }

  lemma PickedHere(s: TreeVal, end: Path, t: Tenant)
    requires WF(s) && end in s.nodes && Picks(s.nodes[end], t)
    ensures Holds(s.nodes, end, t) || end == []
  {
    if end != [] { SomeTenant(s.nodes, end); }
  }

  lemma DrawnWF(s: TreeVal)
    requires WF(s)
    ensures WF(s.(epoch := s.epoch + 1))
  {
    hide Linked, TenantClosed;
    var s' := s.(epoch := s.epoch + 1);
    forall o ensures Tallied(s', o) { assert Tallied(s, o); }
  }

  /** Nothing changes but access times; only an empty root can gain a tenant, and no characters with it. */
  lemma MatchEffectWF(s: TreeVal, p: Path, t: Tenant)
    requires WF(s) && p in s.nodes && (Holds(s.nodes, p, t) || p == [])
    ensures WF(MatchEffect(s, p, t)) && SameKeys(s.nodes, MatchEffect(s, p, t).nodes)
    ensures SameLangs(s.nodes, MatchEffect(s, p, t).nodes) <==> Holds(s.nodes, p, t) || s.epoch % 8 != 0
  {
    hide WF, Stamp, Remember, SameLangs, SameKeys;
    var n, s1 := s.nodes, s.(nodes := Remember(s.nodes, p, t));
    RememberWF(s, p, t);
    RememberLangs(n, p, t);
    RememberHolds(n, p, t);
    if s.epoch % 8 != 0 {
      DrawnWF(s1);
    } else if Holds(n, p, t) {
      TouchWF(s1, p, t);
      StampSameLangs(s1.nodes, Touch(s1, p, t).nodes, p, t, s.epoch);
      SameThrough(n, s1.nodes, Touch(s1, p, t).nodes);
    } else {
      RootStampWF(s1, t, s.epoch, s.epoch + 1);
      RootStampKeys(s1, t);
      RootStampTells(s1, t, s.epoch);
      SameThrough(n, s1.nodes, Touch(s1, p, t).nodes);
    }
  }

  lemma SameThrough(n: Nodes, n1: Nodes, n2: Nodes)
    requires SameLangs(n, n1) && SameKeys(n, n1)
    ensures SameLangs(n, n2) <==> SameLangs(n1, n2)
    ensures SameKeys(n, n2) <==> SameKeys(n1, n2)
  {
    if SameLangs(n, n2) {
      forall o ensures LangKept(n1, n2, o) { assert LangKept(n, n1, o) && LangKept(n, n2, o); }
    }
    if SameLangs(n1, n2) {
      forall o ensures LangKept(n, n2, o) { assert LangKept(n, n1, o) && LangKept(n1, n2, o); }
    }
    if SameKeys(n, n2) {
      forall o ensures KeysKept(n1, n2, o) { assert KeysKept(n, n1, o) && KeysKept(n, n2, o); }
    }
    if SameKeys(n1, n2) {
      forall o ensures KeysKept(n, n2, o) { assert KeysKept(n, n1, o) && KeysKept(n1, n2, o); }
    }
  }

  lemma RootStampKeys(s: TreeVal, t: Tenant)
    requires WF(s)
    ensures SameKeys(s.nodes, Touch(s, [], t).nodes)
  {
    RootStampWF(s, t, s.epoch, s.epoch + 1);
    forall o ensures KeysKept(s.nodes, Touch(s, [], t).nodes, o) {
      assert LangStep(s.nodes, Touch(s, [], t).nodes, t, [], o);
      EmptyPrefixes();
    }
  }

  // ---------- a match is an access ----------

  /** The refreshed node is accessed later than everything else of its tenant. */
  lemma TouchIsNewest(s: TreeVal, p: Path, t: Tenant)
    requires WF(s) && p in s.nodes
    ensures NewestAt(Touch(s, p, t).nodes, p, t)
  {
    hide Linked, TenantClosed, Accounted;
    var n, n' := s.nodes, Touch(s, p, t).nodes;
    StampHolds(n, n', p, t, s.epoch);
    forall x | !(x <= p) && Holds(n', x, t) ensures n'[x].tenants[t] < n'[p].tenants[t] {
      assert Holds(n, x, t) && n'[x] == n[x];
      assert x in s.nodes.Keys;
    }
  }

  /**
   What a match does to access times, pair by pair: one epoch in eight refreshes the pair it
   answers with, which is then its tenant's latest; no other access time ever changes.
   */
  lemma MatchRefreshes(s: TreeVal, p: Path, t: Tenant)
    requires WF(s) && p in s.nodes
    ensures var (n, n', hit) := (s.nodes, MatchEffect(s, p, t).nodes, s.epoch % 8 == 0);
            && MatchEffect(s, p, t).epoch == s.epoch + 1 && MatchEffect(s, p, t).counts == s.counts
            && (hit ==> NewestAt(n', p, t) && n'[p].tenants[t] == s.epoch)
            && (forall x, o :: Holds(n', x, o) <==> Holds(n, x, o) || (hit && x == p && o == t))
            && (forall x, o | Holds(n, x, o) && !(hit && x == p && o == t) :: n'[x].tenants[o] == n[x].tenants[o])
  {
    hide WF, NewestAt, Remember;
    var s1 := s.(nodes := Remember(s.nodes, p, t));
    RememberWF(s, p, t);
    RememberHolds(s.nodes, p, t);
    if s.epoch % 8 == 0 {
      TouchIsNewest(s1, p, t);
      StampHolds(s1.nodes, Touch(s1, p, t).nodes, p, t, s.epoch);
    }
  }

  /** And what it does to memories: its node remembers its answer, and no other node notices. */
  lemma MatchRemembers(s: TreeVal, p: Path, t: Tenant)
    requires p in s.nodes
    ensures var (n, n') := (s.nodes, MatchEffect(s, p, t).nodes);
            && n'.Keys == n.Keys && n'[p].last == Some(t)
            && forall x :: x in n ==> n'[x].parent == n[x].parent && (x != p ==> n'[x] == n[x])
  {}

  /** The first match on a new tree, if its epoch is one in eight, enters the name "empty" at the root. */
  lemma FirstMatchEnters(epoch: nat)
    ensures var (s, s') := (Empty(epoch), MatchEffect(Empty(epoch), [], "empty"));
            && Lang(s.nodes, "empty") == {}
            && "empty" !in s'.counts
            && (if epoch % 8 == 0 then [] in Lang(s'.nodes, "empty") else Lang(s'.nodes, "empty") == {})
  {
    var s' := MatchEffect(Empty(epoch), [], "empty");
    if epoch % 8 == 0 {
      HolderHasPrefix(s'.nodes, "empty", [], []);
    }
  }

  /** A tree without a tenant at the root has no other node and no tenant at all. */
  lemma RootTenants(n: Nodes, p: Path, t: Tenant)
    requires Linked(n) && TenantClosed(n) && Holds(n, p, t)
    ensures [] in n && n[[]].tenants != map[]
  {
    AncestorHolds(n, [], p, t);
  }

  /** A tenant is at every node below the root. */
  lemma SomeTenant(n: Nodes, p: Path)
    requires TenantClosed(n) && p in n && p != []
    ensures n[p].tenants != map[]
  {
    assert Inherits(n, p);
  }
}
