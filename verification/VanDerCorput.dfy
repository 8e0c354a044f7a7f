/**
 The low-discrepancy sequence that spreads arrivals.  The source computes it in binary
 floating point; here it is computed over the reals.
 */
module VanDerCorput {
  import opened Arithmetic

  function Pow2(m: nat): (p: nat)
    ensures p > 0
  {
    if m == 0 then 1 else 2 * Pow2(m - 1)
  }

  /** `x` doubled, and halved, `m` times. */
  ghost function Scale(x: real, m: nat): real
    decreases m
  {
    if m == 0 then x else Scale(x + x, m - 1)
  }

  ghost function Unscale(x: real, m: nat): real
    decreases m
  {
    if m == 0 then x else Unscale(x / 2.0, m - 1)
  }

  lemma {:induction false} ScaleAdd(x: real, y: real, m: nat)
    ensures Scale(x + y, m) == Scale(x, m) + Scale(y, m)
    decreases m
  {
    if m > 0 {
      ScaleAdd(x + x, y + y, m - 1);
      assert (x + y) + (x + y) == (x + x) + (y + y);
    }
  }

  lemma {:induction false} ScaleIsTimes(k: nat, m: nat)
    ensures Scale(k as real, m) == (k * Pow2(m)) as real
    decreases m
  {
    if m > 0 {
      ScaleIsTimes(k + k, m - 1);
      assert (k + k) * Pow2(m - 1) == k * Pow2(m);
    }
  }

  lemma {:induction false} ScaleIsProduct(x: real, m: nat)
    ensures Scale(x, m) == x * Pow2(m) as real
    decreases m
  {
    if m > 0 {
      ScaleIsProduct(x + x, m - 1);
      var q := Pow2(m - 1) as real;
      assert Pow2(m) as real == q + q;
      assert (x + x) * q == x * (q + q);
    }
  }

  lemma {:induction false} UnscaleAdd(x: real, y: real, m: nat)
    ensures Unscale(x + y, m) == Unscale(x, m) + Unscale(y, m)
    decreases m
  {
    if m > 0 {
      UnscaleAdd(x / 2.0, y / 2.0, m - 1);
      assert (x + y) / 2.0 == x / 2.0 + y / 2.0;
    }
  }

  lemma {:induction false} UnscaleHalf(x: real, m: nat)
    ensures Unscale(x, m) / 2.0 == Unscale(x, m + 1)
    decreases m
  {
    if m > 0 { UnscaleHalf(x / 2.0, m - 1); }
  }

  // ---------- the loop ----------

  /** The binary digits of `k`, mirrored at the point: the last digit counts one half. */
  ghost function Mirror(k: nat): real {
    if k == 0 then 0.0 else (Digit(k) + Mirror(k / 2)) / 2.0
  }

  function Digit(k: nat): real {
    if k % 2 == 1 then 1.0 else 0.0
  }

  method Compute(k: nat) returns (value: real)
    ensures value == Mirror(k)
  {
    var rest, scale := k, 0.5;
    value := 0.0;
    ghost var i := 0;
    while rest != 0
      invariant scale == Unscale(0.5, i) && value + Unscale(Mirror(rest), i) == Mirror(k)
    {
      NextDigit(rest, i);
      value := value + (if rest % 2 == 1 then scale else 0.0);
      rest := rest / 2;
      UnscaleHalf(0.5, i);
      scale := scale / 2.0;
      i := i + 1;
    }
    UnscaleZero(i);
  }

  lemma NextDigit(rest: nat, i: nat)
    requires rest != 0
    ensures var digit := if rest % 2 == 1 then Unscale(0.5, i) else 0.0;
            Unscale(Mirror(rest), i) == digit + Unscale(Mirror(rest / 2), i + 1)
  {
    UnscaleAdd(Digit(rest) / 2.0, Mirror(rest / 2) / 2.0, i);
    assert Mirror(rest) == Digit(rest) / 2.0 + Mirror(rest / 2) / 2.0;
    UnscaleZero(i);
  }

  lemma {:induction false} UnscaleZero(m: nat)
    ensures Unscale(0.0, m) == 0.0
  {
    if m > 0 { UnscaleZero(m - 1); }
  }

  lemma {:induction false} MirrorRange(k: nat)
    ensures 0.0 <= Mirror(k) < 1.0
  {
    if k != 0 { MirrorRange(k / 2); }
  }

  // ---------- bit reversal ----------

  /** The lowest `m` binary digits of `k`, in reverse order. */
  function Reverse(k: nat, m: nat): nat {
    if m == 0 then 0 else k % 2 * Pow2(m - 1) + Reverse(k / 2, m - 1)
  }

  /** `k` without its lowest `m` binary digits. */
  function High(k: nat, m: nat): nat {
    if m == 0 then k else High(k / 2, m - 1)
  }

  /** The lowest `m` binary digits of `k`, in order. */
  function Low(k: nat, m: nat): nat {
    if m == 0 then 0 else k % 2 + 2 * Low(k / 2, m - 1)
  }

  lemma {:induction false} HighLow(k: nat, m: nat)
    ensures k == High(k, m) * Pow2(m) + Low(k, m) && Low(k, m) < Pow2(m)
  {
    if m > 0 {
      HighLow(k / 2, m - 1);
      DoubleTimes(High(k / 2, m - 1), Pow2(m - 1));
      assert k == 2 * (k / 2) + k % 2;
    }
  }

  lemma {:induction false} ReverseRange(k: nat, m: nat)
    ensures Reverse(k, m) < Pow2(m)
  {
    if m > 0 {
      ReverseRange(k / 2, m - 1);
      assert k % 2 == 0 || k % 2 == 1;
      assert k % 2 * Pow2(m - 1) <= Pow2(m - 1);
    }
  }

  /** Scaled to `m` digits, the value is the reversal of the low digits plus what the high digits leave over. */
  lemma {:induction false} MirrorSplits(k: nat, m: nat)
    ensures Scale(Mirror(k), m) == Reverse(k, m) as real + Mirror(High(k, m))
    decreases m
  {
    if m > 0 {
      MirrorSplits(k / 2, m - 1);
      assert Mirror(k) + Mirror(k) == (k % 2) as real + Mirror(k / 2);
      ScaleAdd((k % 2) as real, Mirror(k / 2), m - 1);
      ScaleIsTimes(k % 2, m - 1);
    }
  }

  /** The stratum of the value among `2^m` equal ones is the reversal of the low digits of the rank. */
  lemma StratumOf(k: nat, m: nat)
    ensures Scale(Mirror(k), m).Floor == Reverse(k, m)
  {
    MirrorSplits(k, m);
    MirrorRange(High(k, m));
  }

  /** Ranks below `2^m` land exactly on the multiples of `2^-m`. */
  lemma OnTheGrid(k: nat, m: nat)
    requires k < Pow2(m)
    ensures Scale(Mirror(k), m) == Reverse(k, m) as real
  {
    MirrorSplits(k, m);
    SameBlock(k, 0, m);
  }

  // ---------- each stratum once ----------

  lemma {:induction false} ReverseInjective(a: nat, b: nat, m: nat)
    requires Reverse(a, m) == Reverse(b, m)
    ensures Low(a, m) == Low(b, m)
    decreases m
  {
    if m > 0 {
      ReverseRange(a / 2, m - 1);
      ReverseRange(b / 2, m - 1);
      Digits(a % 2, Reverse(a / 2, m - 1), b % 2, Reverse(b / 2, m - 1), Pow2(m - 1));
      ReverseInjective(a / 2, b / 2, m - 1);
    }
  }

  /** Some number below `2^m` has any given reversal, whatever its higher digits. */
  lemma {:induction false} ReverseOnto(j: nat, h: nat, m: nat) returns (k: nat)
    requires j < Pow2(m)
    ensures Reverse(k, m) == j && High(k, m) == h
  {
    if m == 0 {
      k := h;
    } else {
      var p := Pow2(m - 1);
      var top := if j < p then 0 else 1;
      var k' := ReverseOnto(j - top * p, h, m - 1);
      k := top + 2 * k';
      assert k / 2 == k' && k % 2 == top;
    }
  }

  /**
   Any `2^m` consecutive ranks that start at a multiple of `2^m` put exactly one arrival into
   each of the `2^m` strata, for every `m`: in particular the first `2^m` ranks do.
   */
  lemma OneArrivalPerStratum(block: nat, j: nat, m: nat) returns (k: nat)
    requires j < Pow2(m)
    ensures block * Pow2(m) <= k < (block + 1) * Pow2(m)
    ensures Scale(Mirror(k), m).Floor == j
    ensures forall l: nat :: block * Pow2(m) <= l < (block + 1) * Pow2(m) && Scale(Mirror(l), m).Floor == j ==> l == k
  {
    k := ReverseOnto(j, block, m);
    StratumOf(k, m);
    HighLow(k, m);
    assert (block + 1) * Pow2(m) == block * Pow2(m) + Pow2(m);
    forall l: nat | block * Pow2(m) <= l < (block + 1) * Pow2(m) && Scale(Mirror(l), m).Floor == j ensures l == k {
      StratumOf(l, m);
      ReverseInjective(l, k, m);
      HighLow(l, m);
      SameBlock(l, block, m);
    }
  }

  lemma SameBlock(l: nat, block: nat, m: nat)
    requires block * Pow2(m) <= l < block * Pow2(m) + Pow2(m)
    ensures High(l, m) == block
  {
    hide Pow2, High, Low;
    HighLow(l, m);
    var p := Pow2(m);
    var d := High(l, m) - block;
    assert d * p == High(l, m) * p - block * p;
    if d != 0 { MulBig(p, d); }
  }
}
