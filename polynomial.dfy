/** Polynomial evaluation (`polyeval`) and the design matrix that `polyfit`
    builds before its least-squares solve. Doubles are modelled as exact
    `real` numbers; coefficients are in ascending powers. */
module Polynomial {

  /** `pow(x, i)` for a natural exponent; `Pow(0.0, 0) == 1.0` as in C++. */
  function Pow(x: real, n: nat): real {
    if n == 0 then 1.0 else Pow(x, n - 1) * x
  }

  /** The values C++ `pow` gives at the edges: 0 to a positive power is 0,
      and 1 to any power is 1 (any x to the power 0 is 1 by definition,
      0^0 included). */
  lemma {:induction false} PowEdges(n: nat)
    ensures n > 0 ==> Pow(0.0, n) == 0.0
    ensures Pow(1.0, n) == 1.0
  {
    if n > 0 {
      PowEdges(n - 1);
    }
  }

  /** The value of the polynomial: the sum of `coeffs[i] * x^i` over every
      index, added in increasing order of `i`. */
  function PolySum(coeffs: seq<real>, x: real): real {
    if coeffs == [] then 0.0
    else PolySum(coeffs[..|coeffs| - 1], x) + coeffs[|coeffs| - 1] * Pow(x, |coeffs| - 1)
  }

  /** Horner's rule: an independent definition of the polynomial's value. */
  function Horner(coeffs: seq<real>, x: real): real {
    if coeffs == [] then 0.0 else coeffs[0] + x * Horner(coeffs[1..], x)
  }

  /** `polyeval(coeffs, x)`: accumulates `coeffs[i] * pow(x, i)` for
      `i = 0 .. coeffs.size() - 1`. */
  method PolyEval(coeffs: seq<real>, x: real) returns (result: real)
    ensures result == PolySum(coeffs, x)
    ensures result == Horner(coeffs, x)
  {
    result := 0.0;
    var i := 0;
    while i < |coeffs|
      invariant 0 <= i <= |coeffs|
      invariant result == PolySum(coeffs[..i], x)
    {
      assert coeffs[..i + 1][..i] == coeffs[..i];
      result := result + coeffs[i] * Pow(x, i);
      i := i + 1;
    }
    assert coeffs[..i] == coeffs;
    SumIsHorner(coeffs, x);
  }

  /** Appending a top coefficient `a` to a polynomial of degree below `n`
      adds `a * x^n` to its Horner value. */
  lemma {:induction false} HornerSnoc(coeffs: seq<real>, a: real, x: real)
    ensures Horner(coeffs + [a], x) == Horner(coeffs, x) + a * Pow(x, |coeffs|)
  {
    if coeffs == [] {
      assert ([] + [a])[1..] == [];
    } else {
      var rest := coeffs[1..];
      assert (coeffs + [a])[1..] == rest + [a];
      HornerSnoc(rest, a, x);
      HornerStep(Horner(rest + [a], x), Horner(rest, x), Pow(x, |rest|), coeffs[0], a, x);
    }
  }

  /** The arithmetic of one Horner step: `c + x * (h + a * p) == (c + x * h) + a * (p * x)`. */
  lemma HornerStep(hs: real, h: real, p: real, c: real, a: real, x: real)
    requires hs == h + a * p
    ensures c + x * hs == (c + x * h) + a * (p * x)
  {
  }

  /** The summed definition and Horner's rule agree everywhere. */
  lemma {:induction false} SumIsHorner(coeffs: seq<real>, x: real)
    ensures PolySum(coeffs, x) == Horner(coeffs, x)
  {
    if coeffs != [] {
      var n := |coeffs|;
      var init := coeffs[..n - 1];
      assert coeffs == init + [coeffs[n - 1]];
      SumIsHorner(init, x);
      HornerSnoc(init, coeffs[n - 1], x);
    }
  }

  /** At `x = 0` the polynomial's value is its constant coefficient — the
      cross-track error `polyeval(coeffs, 0)` of the fitted curve. */
  lemma PolySumAtZero(coeffs: seq<real>)
    requires |coeffs| >= 1
    ensures PolySum(coeffs, 0.0) == coeffs[0]
  {
  }

  /** The design matrix of `polyfit`: `xvals.size()` rows and `order + 1`
      columns, column 0 set to 1 and each later column the previous one times
      the row's x. The asserts on the inputs are the preconditions. */
  method DesignMatrix(xvals: seq<real>, yvals: seq<real>, order: int) returns (A: array2<real>)
    requires |xvals| == |yvals|
    requires 1 <= order <= |xvals| - 1
    ensures fresh(A)
    ensures A.Length0 == |xvals| && A.Length1 == order + 1
    ensures forall j, i :: 0 <= j < A.Length0 && 0 <= i < A.Length1 ==> A[j, i] == Pow(xvals[j], i)
  {
    A := new real[|xvals|, order + 1];
    var i := 0;
    while i < |xvals|
      invariant 0 <= i <= |xvals|
      invariant forall k :: 0 <= k < i ==> A[k, 0] == 1.0
    {
      A[i, 0] := 1.0;
      i := i + 1;
    }
    var j := 0;
    while j < |xvals|
      invariant 0 <= j <= |xvals|
      invariant forall k :: 0 <= k < |xvals| ==> A[k, 0] == 1.0
      invariant forall k, c :: 0 <= k < j && 0 <= c <= order ==> A[k, c] == Pow(xvals[k], c)
    {
      var c := 0;
      while c < order
        invariant 0 <= c <= order
        invariant forall k :: 0 <= k < |xvals| ==> A[k, 0] == 1.0
        invariant forall k, c' :: 0 <= k < j && 0 <= c' <= order ==> A[k, c'] == Pow(xvals[k], c')
        invariant forall c' :: 0 <= c' <= c ==> A[j, c'] == Pow(xvals[j], c')
      {
        assert Pow(xvals[j], c + 1) == Pow(xvals[j], c) * xvals[j];
        A[j, c + 1] := A[j, c] * xvals[j];
        c := c + 1;
      }
      j := j + 1;
    }
  }

  /** The inner product of two equally long vectors. */
  function Dot(u: seq<real>, v: seq<real>): real
    requires |u| == |v|
  {
    if u == [] then 0.0 else Dot(u[..|u| - 1], v[..|v| - 1]) + u[|u| - 1] * v[|v| - 1]
  }

  /** A row of the design matrix times a coefficient vector is the value of
      that polynomial at the row's x: the least-squares residual of point j
      is `yvals[j] - polyeval(coeffs, xvals[j])`. */
  lemma {:induction false} DesignRowIsPolySum(row: seq<real>, coeffs: seq<real>, x: real)
    requires |row| == |coeffs|
    requires forall i :: 0 <= i < |row| ==> row[i] == Pow(x, i)
    ensures Dot(row, coeffs) == PolySum(coeffs, x)
  {
    if row != [] {
      var n := |row|;
      DesignRowIsPolySum(row[..n - 1], coeffs[..n - 1], x);
    }
  }
}
