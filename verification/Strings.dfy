/** Character strings, their prefixes, and the longest common prefix of two strings. */
module Strings {

  datatype Option<+T> = None | Some(value: T)

  /** The number of leading elements on which `a` and `b` agree. */
  function Lcp<T(==)>(a: seq<T>, b: seq<T>): (k: nat)
    ensures k <= |a| && k <= |b|
    ensures a[..k] == b[..k]
    ensures k < |a| && k < |b| ==> a[k] != b[k]
  {
    if a == [] || b == [] || a[0] != b[0] then 0
    else
      var k := Lcp(a[1..], b[1..]);
      assert a[..k + 1] == [a[0]] + a[1..][..k];
      assert b[..k + 1] == [b[0]] + b[1..][..k];
      k + 1
  }

  lemma LcpUnique<T>(a: seq<T>, b: seq<T>, k: nat)
    requires k <= |a| && k <= |b| && a[..k] == b[..k]
    requires k < |a| && k < |b| ==> a[k] != b[k]
    ensures Lcp(a, b) == k
  {
    var l := Lcp(a, b);
    assert forall i :: 0 <= i < k ==> a[..k][i] == b[..k][i];
    assert forall i :: 0 <= i < l ==> a[..l][i] == b[..l][i];
  }

  /** The prefixes of `s` whose length lies in `(lo, hi]`. */
  ghost function Segment(s: string, lo: nat, hi: nat): set<string>
    requires lo <= hi <= |s|
  {
    set k | lo < k <= hi :: s[..k]
  }

  lemma {:induction false} SegmentSize(s: string, lo: nat, hi: nat)
    requires lo <= hi <= |s|
    ensures |Segment(s, lo, hi)| == hi - lo
    decreases hi - lo
  {
    if lo == hi {
      assert Segment(s, lo, hi) == {};
    } else {
      SegmentSize(s, lo, hi - 1);
      assert |s[..hi]| == hi;
      assert s[..hi] !in Segment(s, lo, hi - 1);
      assert Segment(s, lo, hi) == Segment(s, lo, hi - 1) + {s[..hi]};
    }
  }

  lemma SegmentMember(s: string, x: string)
    ensures x in Segment(s, 0, |s|) <==> x != [] && x <= s
  {
    if x <= s { assert x == s[..|x|]; }
  }

  /** Two prefixes of one string are comparable. */
  lemma PrefixesCompare(a: string, b: string, s: string)
    requires a <= s && b <= s && |a| <= |b|
    ensures a <= b
    ensures |a| < |b| ==> a < b && b[|a|] == s[|a|]
  {
    assert a == s[..|a|] && b == s[..|b|];
    assert b[..|a|] == a;
  }
}
