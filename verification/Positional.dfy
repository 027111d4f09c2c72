/**
 Numbers written with digits in a base, most significant digit first.
 */
module Positional {

  function Pow(b: nat, k: nat): nat {
    if k == 0 then 1 else b * Pow(b, k - 1)
  }

  predicate InBase(ds: seq<nat>, b: nat) {
    forall i :: 0 <= i < |ds| ==> ds[i] < b
  }

  function Value(ds: seq<nat>, b: nat): nat {
    if ds == [] then 0 else Value(ds[..|ds| - 1], b) * b + ds[|ds| - 1]
  }

  /** The n lowest digits of v. */
  function ToDigits(v: nat, n: nat, b: nat): (ds: seq<nat>)
    requires b > 0
    ensures |ds| == n
    decreases n
  {
    if n == 0 then [] else ToDigits(v / b, n - 1, b) + [v % b]
  }

  lemma {:induction false} DigitsInBase(v: nat, n: nat, b: nat)
    requires b > 0
    ensures InBase(ToDigits(v, n, b), b)
    decreases n
  {
    if n == 0 {
    } else {
      var r := v % b;
      assert r < b;
      DigitsInBase(v / b, n - 1, b);
    }
  }

  lemma Mono(x: nat, y: nat, z: nat)
    ensures x <= y ==> z * x <= z * y
  {
  }

  lemma {:induction false} PowPositive(b: nat, k: nat)
    requires b > 0
    ensures Pow(b, k) > 0
    decreases k
  {
    if k == 0 {
    } else {
      PowPositive(b, k - 1);
      MulPositive(b, Pow(b, k - 1));
    }
  }

  lemma MulPositive(x: nat, y: nat)
    requires x > 0 && y > 0
    ensures x * y > 0
  {
  }

  lemma MulLess(x: nat, y: nat, b: nat, d: nat)
    requires x < y && d < b
    ensures x * b + d < b * y
  {
    assert (x + 1) * b <= y * b;
  }

  /** n digits denote a number below b^n. */
  lemma {:induction false} ValueBound(ds: seq<nat>, b: nat)
    requires b > 0 && InBase(ds, b)
    ensures Value(ds, b) < Pow(b, |ds|)
    decreases |ds|
  {
    if ds == [] {
    } else {
      var init := ds[..|ds| - 1];
      ValueBound(init, b);
      MulLess(Value(init, b), Pow(b, |init|), b, ds[|ds| - 1]);
    }
  }

  lemma DivSmaller(v: nat, b: nat, p: nat)
    requires b > 0 && v < b * p
    ensures v / b < p && v / b * b + v % b == v
  {
    var q, r := v / b, v % b;
    assert v == b * q + r;
    Mono(p, q, b);
  }

  /** A number below b^n is the value of its n digits. */
  lemma {:induction false} ValueOfDigits(v: nat, n: nat, b: nat)
    requires b > 0 && v < Pow(b, n)
    ensures Value(ToDigits(v, n, b), b) == v
    decreases n
  {
    if n == 0 {
    } else {
      DivSmaller(v, b, Pow(b, n - 1));
      ValueOfDigits(v / b, n - 1, b);
      var ds := ToDigits(v, n, b);
      assert ds[..n - 1] == ToDigits(v / b, n - 1, b);
    }
  }

  lemma DivModOf(q: nat, b: nat, r: nat)
    requires r < b
    ensures (q * b + r) / b == q && (q * b + r) % b == r
  {
    var v := q * b + r;
    var q', r' := v / b, v % b;
    assert v == b * q' + r';
    Mono(q' + 1, q, b);
    Mono(q + 1, q', b);
  }

  lemma ModShift(q: nat, m: nat, x: nat)
    requires m > 0
    ensures (q * m + x) % m == x % m
  {
    var k, r := x / m, x % m;
    assert q * m + x == (q + k) * m + r;
    DivModOf(q + k, m, r);
  }

  /** Digits are determined by the number they denote. */
  lemma {:induction false} DigitsOfValue(ds: seq<nat>, b: nat)
    requires b > 0 && InBase(ds, b)
    ensures ToDigits(Value(ds, b), |ds|, b) == ds
    decreases |ds|
  {
    if ds == [] {
    } else {
      var init, d := ds[..|ds| - 1], ds[|ds| - 1];
      DivModOf(Value(init, b), b, d);
      DigitsOfValue(init, b);
      assert ds == init + [d];
    }
  }

  /** Fewer digits are the last ones of more digits. */
  lemma {:induction false} DigitsSuffix(v: nat, n: nat, m: nat, b: nat)
    requires b > 0 && m <= n
    ensures ToDigits(v, n, b)[n - m..] == ToDigits(v, m, b)
    decreases m
  {
    if m == 0 {
    } else {
      DigitsSuffix(v / b, n - 1, m - 1, b);
      var a := ToDigits(v / b, n - 1, b);
      assert (a + [v % b])[n - m..] == a[n - m..] + [v % b];
    }
  }

  /** The leading digit weighs b^(n-1). */
  lemma {:induction false} ValueFirst(ds: seq<nat>, b: nat)
    requires ds != []
    ensures Value(ds, b) == ds[0] * Pow(b, |ds| - 1) + Value(ds[1..], b)
    decreases |ds|
  {
    if |ds| == 1 {
      assert ds[..0] == [] && ds[1..] == [];
    } else {
      var init, d := ds[..|ds| - 1], ds[|ds| - 1];
      ValueFirst(init, b);
      var tail := ds[1..];
      assert tail[..|tail| - 1] == init[1..] && tail[|tail| - 1] == d;
      ScaleUp(ds[0], Pow(b, |init| - 1), Value(init[1..], b), b);
    }
  }

  lemma ScaleUp(x: nat, p: nat, v: nat, b: nat)
    ensures (x * p + v) * b == x * (b * p) + v * b
  {
    assert (x * p + v) * b == x * p * b + v * b;
    assert x * p * b == x * (b * p);
  }

  lemma DivSplit(v: nat, a: nat) returns (q: nat, r: nat)
    requires a > 0
    ensures q == v / a && v == a * q + r && r < a
  {
    q, r := v / a, v % a;
  }

  lemma Nested(a: nat, b: nat, q: nat, s: nat, r: nat)
    requires s < b && r < a
    ensures a * (b * q + s) + r == q * (a * b) + (a * s + r) && a * s + r < a * b
  {
    Rearrange(a, b, q, s, r);
    Mono(s + 1, b, a);
  }

  lemma DivDiv(v: nat, a: nat, b: nat)
    requires a > 0 && b > 0
    ensures a * b > 0 && v / a / b == v / (a * b)
  {
    MulPositive(a, b);
    var q, r := DivSplit(v, a);
    var q2, r2 := DivSplit(q, b);
    Nested(a, b, q2, r2, r);
    DivModOf(q2, a * b, a * r2 + r);
  }

  lemma Rearrange(a: nat, b: nat, q: nat, s: nat, r: nat)
    ensures a * (b * q + s) + r == q * (a * b) + (a * s + r)
  {
    assert a * (b * q + s) == a * (b * q) + a * s;
    assert a * (b * q) == q * (a * b);
  }

  /** The digit at a place, counted from the least significant one. */
  lemma {:induction false} DigitAt(v: nat, n: nat, i: nat, b: nat)
    requires b > 0 && i < n
    ensures Pow(b, i) > 0 && ToDigits(v, n, b)[n - 1 - i] == v / Pow(b, i) % b
    decreases i
  {
    PowPositive(b, i);
    if i == 0 {
    } else {
      PowPositive(b, i - 1);
      DigitAt(v / b, n - 1, i - 1, b);
      DivDiv(v, b, Pow(b, i - 1));
    }
  }
}
