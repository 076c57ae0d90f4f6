/** What the telemetry handler does with the fitted curve and the solver's
    result: the initial state handed to the solver, and the split of the
    solver's flat result vector into the predicted x and y coordinates. */
module Trajectory {
  import opened Polynomial

  /** The state vector passed to the solver: position and heading are zero
      in the car's own frame. */
  datatype State = State(x: real, y: real, psi: real, v: real, cte: real, epsi: real)

  /** The initial state of one tick: `cte = polyeval(coeffs, 0)`. The heading
      error `-atan(coeffs[1])` is trigonometry and arrives as `epsi`. */
  method InitialState(v: real, coeffs: seq<real>, epsi: real) returns (s: State)
    ensures s.x == 0.0 && s.y == 0.0 && s.psi == 0.0
    ensures s.v == v && s.epsi == epsi
    ensures |coeffs| >= 1 ==> s.cte == coeffs[0]
    ensures coeffs == [] ==> s.cte == 0.0
  {
    var cte := PolyEval(coeffs, 0.0);
    if |coeffs| >= 1 {
      PolySumAtZero(coeffs);
    }
    s := State(0.0, 0.0, 0.0, v, cte, epsi);
  }

  /** Merges the two coordinate sequences back into one, alternating
      `xs[0], ys[0], xs[1], ys[1], ...`; `xs` holds the extra element when
      the lengths differ. */
  function Interleave<T>(xs: seq<T>, ys: seq<T>): seq<T>
    requires |ys| <= |xs| <= |ys| + 1
    decreases |xs|
  {
    if xs == [] then []
    else if ys == [] then [xs[0]]
    else [xs[0], ys[0]] + Interleave(xs[1..], ys[1..])
  }

  /** Appending an x to equally long sequences appends it to their merge. */
  lemma {:induction false} InterleaveAppendX<T>(xs: seq<T>, ys: seq<T>, a: T)
    requires |xs| == |ys|
    ensures Interleave(xs + [a], ys) == Interleave(xs, ys) + [a]
  {
    if xs != [] {
      assert (xs + [a])[1..] == xs[1..] + [a];
      InterleaveAppendX(xs[1..], ys[1..], a);
    }
  }

  /** Appending a y when `xs` is one longer appends it to their merge. */
  lemma {:induction false} InterleaveAppendY<T>(xs: seq<T>, ys: seq<T>, b: T)
    requires |xs| == |ys| + 1
    ensures Interleave(xs, ys + [b]) == Interleave(xs, ys) + [b]
  {
    if ys != [] {
      assert (ys + [b])[1..] == ys[1..] + [b];
      InterleaveAppendY(xs[1..], ys[1..], b);
    } else {
      assert xs[1..] == [];
    }
  }

  /** The loop that fills `mpc_x_vals` and `mpc_y_vals`: from index 2 of
      the solver's result on, even indices are x coordinates and odd indices
      y coordinates; the actuator values at indices 0 and 1 are skipped. */
  method SplitPredicted<T>(result: seq<T>) returns (mpcX: seq<T>, mpcY: seq<T>)
    ensures |result| < 2 ==> mpcX == [] && mpcY == []
    ensures |result| >= 2 ==> |mpcX| == (|result| - 1) / 2 && |mpcY| == (|result| - 2) / 2
    ensures forall k :: 0 <= k < |mpcX| ==> 2 + 2 * k < |result| && mpcX[k] == result[2 + 2 * k]
    ensures forall k :: 0 <= k < |mpcY| ==> 3 + 2 * k < |result| && mpcY[k] == result[3 + 2 * k]
    ensures |mpcY| <= |mpcX| <= |mpcY| + 1
    ensures |result| >= 2 ==> Interleave(mpcX, mpcY) == result[2..]
  {
    mpcX, mpcY := [], [];
    var i := 2;
    while i < |result|
      invariant |result| >= 2 ==> 2 <= i <= |result|
      invariant |result| < 2 ==> i == 2 && mpcX == [] && mpcY == []
      invariant |mpcX| == (i - 1) / 2 && |mpcY| == (i - 2) / 2
      invariant forall k :: 0 <= k < |mpcX| ==> mpcX[k] == result[2 + 2 * k]
      invariant forall k :: 0 <= k < |mpcY| ==> mpcY[k] == result[3 + 2 * k]
      invariant |result| >= 2 ==> Interleave(mpcX, mpcY) == result[2..i]
    {
      assert result[2..i + 1] == result[2..i] + [result[i]];
      if i % 2 == 0 {
        InterleaveAppendX(mpcX, mpcY, result[i]);
        mpcX := mpcX + [result[i]];
      } else {
        InterleaveAppendY(mpcX, mpcY, result[i]);
        mpcY := mpcY + [result[i]];
      }
      i := i + 1;
    }
  }
}
