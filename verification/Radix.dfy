/**
 Numbers and their digits in a radix.
 */
module Radix {
  lemma QuotientSmaller(n: nat, base: nat)
    requires base > 1 && n > 0
    ensures n / base < n
  {
    var q := n / base;
    assert n == q * base + n % base;
    assert q * (base - 2) >= 0;
  }

  lemma {:induction false} MulMono(a: nat, b: nat, base: nat)
    requires a < b
    ensures a * base + base <= b * base
    decreases b
  {
    assert b * base == (b - 1) * base + base;
    if a < b - 1 { MulMono(a, b - 1, base); }
  }

  function Quot(n: nat, base: nat): (q: nat)
    requires base > 1
    ensures n > 0 ==> q < n
    ensures n == q * base + n % base
  {
    if n > 0 then QuotientSmaller(n, base); n / base else 0
  }

  lemma DivideBack(base: nat, q: nat, r: nat)
    requires base > 1 && r < base
    ensures q * base + r >= 0 && Quot(q * base + r, base) == q && (q * base + r) % base == r
  {
    hide Quot;
    var n := q * base + r;
    var d := Quot(n, base);
    if d < q { MulMono(d, q, base); } else if q < d { MulMono(q, d, base); }
  }

  /** The number that the digits `ds` spell, most significant first. */
  function Num(base: nat, ds: seq<nat>): nat {
    if ds == [] then 0 else Num(base, ds[..|ds| - 1]) * base + ds[|ds| - 1]
  }

  /** The digits of `n`, without leading zeros. */
  function Rep(base: nat, n: nat): (ds: seq<nat>)
    requires base > 1
    ensures forall i :: 0 <= i < |ds| ==> ds[i] < base
    ensures n == 0 <==> ds == []
    ensures ds != [] ==> ds[0] != 0
  {
    if n == 0 then [] else Rep(base, Quot(n, base)) + [n % base]
  }

  lemma {:induction false} NumOfRep(base: nat, n: nat)
    requires base > 1
    ensures Num(base, Rep(base, n)) == n
  {
    hide Quot;
    if n > 0 {
      NumOfRep(base, Quot(n, base));
      assert Rep(base, n)[..|Rep(base, n)| - 1] == Rep(base, Quot(n, base));
    }
  }

  lemma RepStep(base: nat, q: nat, r: nat)
    requires base > 1 && r < base && (q > 0 || r > 0)
    ensures q * base + r > 0 && Rep(base, q * base + r) == Rep(base, q) + [r]
  {
    if q > 0 { MulMono(0, q, base); }
    DivideBack(base, q, r);
    hide Quot;
  }

  /** Digits that do not begin with zero are the digits of their number. */
  lemma {:induction false} RepOfNum(base: nat, ds: seq<nat>)
    requires base > 1 && (ds != [] ==> ds[0] != 0) && forall i :: 0 <= i < |ds| ==> ds[i] < base
    ensures Rep(base, Num(base, ds)) == ds
  {
    hide Quot;
    if ds != [] {
      var front, last := ds[..|ds| - 1], ds[|ds| - 1];
      hide Rep;
      RepOfNum(base, front);
      RepStep(base, Num(base, front), last);
      assert front + [last] == ds;
    }
  }

  function Zeros(k: nat): (z: seq<nat>)
    ensures |z| == k && forall i :: 0 <= i < k ==> z[i] == 0
  {
    seq(k, _ => 0)
  }

  lemma {:induction false} NumZeros(base: nat, k: nat, ds: seq<nat>)
    ensures Num(base, Zeros(k) + ds) == Num(base, ds)
    decreases k + |ds|
  {
    var all := Zeros(k) + ds;
    if ds != [] {
      assert all[..|all| - 1] == Zeros(k) + ds[..|ds| - 1];
      NumZeros(base, k, ds[..|ds| - 1]);
    } else if k > 0 {
      assert all[..|all| - 1] == Zeros(k - 1) + [];
      NumZeros(base, k - 1, []);
    }
  }

  function Pow(base: nat, k: nat): nat {
    if k == 0 then 1 else Pow(base, k - 1) * base
  }

  /** A number has at most `k` digits exactly when it is below the `k`-th power of the radix. */
  lemma {:induction false} RepLength(base: nat, n: nat, k: nat)
    requires base > 1
    ensures |Rep(base, n)| <= k <==> n < Pow(base, k)
  {
    hide Quot;
    if k > 0 && n > 0 {
      var q, p := Quot(n, base), Pow(base, k - 1);
      RepLength(base, q, k - 1);
      if q < p { MulMono(q, p, base); } else if p < q { MulMono(p, q, base); }
    } else if n == 0 {
      PowPositive(base, k);
    }
  }

  lemma {:induction false} PowPositive(base: nat, k: nat)
    requires base > 0
    ensures Pow(base, k) > 0
  {
    if k > 0 { PowPositive(base, k - 1); }
  }

  function LeadingZeros(ds: seq<nat>): (k: nat)
    ensures k <= |ds| && ds[..k] == Zeros(k) && (k < |ds| ==> ds[k] != 0)
  {
    if ds != [] && ds[0] == 0 then
      var k := 1 + LeadingZeros(ds[1..]);
      assert forall i :: 1 <= i < k ==> ds[i] == ds[1..k][i - 1];
      k
    else 0
  }

  /** A sequence of digits is known from its leading zeros and its number. */
  lemma DigitsKnown(base: nat, ds: seq<nat>)
    requires base > 1 && forall i :: 0 <= i < |ds| ==> ds[i] < base
    ensures ds == Zeros(LeadingZeros(ds)) + Rep(base, Num(base, ds))
  {
    var k := LeadingZeros(ds);
    assert ds == Zeros(k) + ds[k..];
    NumZeros(base, k, ds[k..]);
    RepOfNum(base, ds[k..]);
  }

  /** Digits in front count multiples of the power that the digits behind them span. */
  lemma {:induction false} NumConcat(base: nat, ds: seq<nat>, es: seq<nat>)
    ensures Num(base, ds + es) == Num(base, ds) * Pow(base, |es|) + Num(base, es)
  {
    if es == [] {
      assert ds + es == ds;
    } else {
      var front, n := es[..|es| - 1], |es| - 1;
      assert (ds + es)[..|ds + es| - 1] == ds + front;
      NumConcat(base, ds, front);
      OnePlace(Num(base, ds), Pow(base, n), Num(base, front), base);
    }
  }

  lemma OnePlace(x: nat, p: nat, y: nat, base: nat)
    ensures (x * p + y) * base == x * (p * base) + y * base
  {
    MulAssoc(x, p, base);
  }

  // ----- Powers -----

  lemma MulLe(a: nat, b: nat, x: nat, y: nat)
    requires a <= b && x <= y
    ensures x * a <= y * b
  {
    assert (y - x) * a >= 0;
    assert y * (b - a) >= 0;
  }

  lemma {:induction false} PowMono(a: nat, b: nat, k: nat)
    requires a <= b
    ensures Pow(a, k) <= Pow(b, k)
  {
    if k > 0 {
      PowMono(a, b, k - 1);
      MulLe(a, b, Pow(a, k - 1), Pow(b, k - 1));
    }
  }

  lemma MulAssoc(x: nat, y: nat, a: nat)
    ensures x * y * a == x * (y * a)
  {
  }

  lemma {:induction false} PowAdd(a: nat, i: nat, j: nat)
    ensures Pow(a, i + j) == Pow(a, i) * Pow(a, j)
  {
    if j > 0 {
      PowAdd(a, i, j - 1);
      MulAssoc(Pow(a, i), Pow(a, j - 1), a);
    }
  }

  lemma {:induction false} PowPow(a: nat, i: nat, j: nat)
    ensures Pow(Pow(a, i), j) == Pow(a, i * j)
  {
    if j > 0 {
      PowPow(a, i, j - 1);
      PowAdd(a, i * (j - 1), i);
      assert i * (j - 1) + i == i * j;
    }
  }
}
