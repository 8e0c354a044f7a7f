/** Decimal numerals, and the names an import makes of them. */
module Names {

  const DIGITS := "0123456789"

  function Decimal(n: nat): string {
    if n < 10 then [DIGITS[n]] else Decimal(n / 10) + [DIGITS[n % 10]]
  }

  predicate Numeral(s: string) {
    s != [] && forall i :: 0 <= i < |s| ==> '0' <= s[i] <= '9'
  }

  lemma DigitChar(d: nat)
    requires d < 10
    ensures '0' <= DIGITS[d] <= '9' && DIGITS[d] as int == d + '0' as int
  {}

  lemma {:induction false} DecimalNumeral(n: nat)
    ensures Numeral(Decimal(n))
  {
    DigitChar(n % 10);
    if n >= 10 { DecimalNumeral(n / 10); }
  }

  /** Different numbers have different numerals. */
  lemma {:induction false} DecimalInjective(a: nat, b: nat)
    requires Decimal(a) == Decimal(b)
    ensures a == b
  {
    LastDigit(a);
    LastDigit(b);
    DigitChar(a % 10);
    DigitChar(b % 10);
    if a >= 10 && b >= 10 {
      DecimalInjective(a / 10, b / 10);
    }
  }

  lemma LastDigit(n: nat)
    ensures var s := Decimal(n);
            && s != [] && s[|s| - 1] == DIGITS[n % 10]
            && (if n < 10 then s[..|s| - 1] == [] else s[..|s| - 1] == Decimal(n / 10) && s[..|s| - 1] != [])
  {
    if n >= 10 { DecimalNumeral(n / 10); }
  }

  /** A numeral before a letter, or at the end, is told apart from what follows it. */
  lemma NumeralEnds(x: string, u: string, y: string, v: string)
    requires Numeral(x) && Numeral(y) && (u == [] || u[0] == 'r') && (v == [] || v[0] == 'r') && x + u == y + v
    ensures x == y && u == v
  {
    var w := x + u;
    assert forall i :: 0 <= i < |y| ==> w[i] == y[i];
    assert u != [] ==> w[|x|] == 'r';
    assert v != [] ==> w[|y|] == 'r';
    assert |x| == |y|;
    assert x == (x + u)[..|x|] && y == (y + v)[..|y|];
    assert u == (x + u)[|x|..] && v == (y + v)[|y|..];
  }

  function SessionSuffix(replica: nat): string {
    if replica == 0 then "" else "r" + Decimal(replica)
  }

  /** The session of a trial, or of a replica of it. */
  function SessionName(trial: nat, replica: nat): string {
    "codex" + (Decimal(trial) + SessionSuffix(replica))
  }

  /** What keeps the blocks of a replica apart from those of the trial. */
  function ReplicaSalt(replica: nat): string {
    if replica == 0 then "" else "replica" + Decimal(replica)
  }

  lemma SuffixInjective(r: nat, r': nat)
    requires SessionSuffix(r) == SessionSuffix(r')
    ensures r == r'
  {
    if r != 0 && r' != 0 {
      assert Decimal(r) == SessionSuffix(r)[1..] && Decimal(r') == SessionSuffix(r')[1..];
      DecimalInjective(r, r');
    }
  }

  /** The name tells the trial and the replica. */
  lemma SessionNameInjective(t: nat, r: nat, t': nat, r': nat)
    requires SessionName(t, r) == SessionName(t', r')
    ensures t == t' && r == r'
  {
    var x, y := Decimal(t) + SessionSuffix(r), Decimal(t') + SessionSuffix(r');
    assert x == SessionName(t, r)[5..] && y == SessionName(t', r')[5..];
    DecimalNumeral(t);
    DecimalNumeral(t');
    NumeralEnds(Decimal(t), SessionSuffix(r), Decimal(t'), SessionSuffix(r'));
    DecimalInjective(t, t');
    SuffixInjective(r, r');
  }

  lemma ReplicaSaltInjective(r: nat, r': nat)
    requires ReplicaSalt(r) == ReplicaSalt(r')
    ensures r == r'
  {
    if r != 0 && r' != 0 {
      assert Decimal(r) == ReplicaSalt(r)[7..] && Decimal(r') == ReplicaSalt(r')[7..];
      DecimalInjective(r, r');
    }
  }
}
