/** The error-diffusion arithmetic of the Riemersma ditherer: the ramp of
    weights, the window of the most recent quantisation errors, and the
    black-or-white decision for one pixel. Luminances and errors are
    real numbers (the source uses floating point). */
module ErrorWindow {

  /** Number of errors remembered while traversing the image. */
  const WindowSize: nat := 48

  /** Ratio of the largest weight to the smallest (up to the 0.5 offset); it
      also divides the weighted error sum. */
  const WeightDiff: nat := 8

  /** m^n, computed as the running product of the weight loop. */
  function Pow(m: real, n: nat): real
  {
    if n == 0 then 1.0 else Pow(m, n - 1) * m
  }

  lemma {:induction false} PowAtLeastOne(m: real, n: nat)
    requires m >= 1.0
    ensures Pow(m, n) >= 1.0
  {
    if n > 0 {
      PowAtLeastOne(m, n - 1);
    }
  }

  /** Powers of a ratio above one increase strictly. */
  lemma {:induction false} PowIncreasing(m: real, i: nat, j: nat)
    requires m > 1.0 && i < j
    ensures Pow(m, i) < Pow(m, j)
    decreases j
  {
    PowAtLeastOne(m, j - 1);
    if i < j - 1 {
      PowIncreasing(m, i, j - 1);
    }
  }

  /** The weight ramp for ratio m: weights[i] = m^i + 0.5. */
  function Weights(m: real): (w: seq<real>)
    ensures |w| == WindowSize && w[0] == 1.5
    ensures forall i :: 0 < i < WindowSize ==> w[i] - 0.5 == (w[i - 1] - 0.5) * m
  {
    seq(WindowSize, i requires 0 <= i < WindowSize => Pow(m, i) + 0.5)
  }

  /** The ramp starts at 1.5, grows strictly when m > 1, so the most recent
      error (the last slot) weighs most, and ends at WeightDiff + 0.5 when
      m^(WindowSize - 1) = WeightDiff, the value exp(log 8 / 47) is chosen for. */
  lemma WeightsRamp(m: real)
    requires m > 1.0
    ensures |Weights(m)| == WindowSize
    ensures Weights(m)[0] == 1.5
    ensures forall i, j :: 0 <= i < j < WindowSize ==> Weights(m)[i] < Weights(m)[j]
    ensures Pow(m, WindowSize - 1) == WeightDiff as real ==> Weights(m)[WindowSize - 1] == 8.5
  {
    forall i, j | 0 <= i < j < WindowSize ensures Weights(m)[i] < Weights(m)[j] {
      PowIncreasing(m, i, j);
    }
  }

  /** errors[0] * weights[0] + ... + errors[n - 1] * weights[n - 1], summed from
      the front; a window of zero errors adds nothing. */
  function WeightedSum(errors: seq<real>, weights: seq<real>, n: nat): (r: real)
    requires n <= |errors| && n <= |weights|
    ensures (forall i :: 0 <= i < n ==> errors[i] == 0.0) ==> r == 0.0
  {
    if n == 0 then 0.0 else WeightedSum(errors, weights, n - 1) + errors[n - 1] * weights[n - 1]
  }

  /** The initial window: WindowSize zero errors. */
  function Zeros(): (z: seq<real>)
    ensures |z| == WindowSize
    ensures forall i :: 0 <= i < WindowSize ==> z[i] == 0.0
  {
    seq(WindowSize, _ => 0.0)
  }

  /** Threshold at one half: the result is black (0) or white (1), and white
      exactly when v reaches one half. */
  function Quantize(v: real): (r: real)
    ensures r == 0.0 || r == 1.0
    ensures r == 1.0 <==> v >= 0.5
  {
    if v >= 0.5 then 1.0 else 0.0
  }

  /** The luminance a pixel of luminance `luminance` is dithered to, given the
      window of past errors: its luminance corrected by the weighted error sum
      over WeightDiff, then thresholded. */
  function DitherValue(luminance: real, errors: seq<real>, weights: seq<real>): (r: real)
    requires |errors| == WindowSize && |weights| == WindowSize
    ensures r == 0.0 || r == 1.0
    ensures r == 1.0 <==>
      luminance + WeightedSum(errors, weights, WindowSize) / WeightDiff as real >= 0.5
  {
    Quantize(luminance + WeightedSum(errors, weights, WindowSize) / WeightDiff as real)
  }

  /** The first pixel of a run, dithered against the zero window, is plain
      thresholding at one half. */
  lemma FirstPixel(luminance: real, weights: seq<real>)
    requires |weights| == WindowSize
    ensures DitherValue(luminance, Zeros(), weights) == 1.0 <==> luminance >= 0.5
  {
  }

  /** The window after one error is recorded: the oldest entry is dropped from
      the front and the new one appended at the back. */
  function Shift(window: seq<real>, e: real): (w: seq<real>)
    requires |window| >= 1
    ensures |w| == |window|
  {
    window[1..] + [e]
  }

  /** The window after the errors es are recorded one by one. */
  function ShiftAll(window: seq<real>, es: seq<real>): (w: seq<real>)
    requires |window| >= 1
    ensures |w| == |window|
    decreases |es|
  {
    if es == [] then window else ShiftAll(Shift(window, es[0]), es[1..])
  }

  /** The window is a first-in first-out queue of fixed length: after any
      number of errors it holds the latest |window| entries of the old window
      followed by the new errors, in order. */
  lemma {:induction false} WindowHoldsLatest(window: seq<real>, es: seq<real>)
    requires |window| >= 1
    ensures ShiftAll(window, es) == (window + es)[|es|..]
    decreases |es|
  {
    if es != [] {
      WindowHoldsLatest(Shift(window, es[0]), es[1..]);
      assert Shift(window, es[0]) + es[1..] == (window + es)[1..];
    }
  }

  /** Once WindowSize errors have been recorded, the window holds exactly the
      last WindowSize of them, whatever it held before. */
  lemma FullWindow(window: seq<real>, es: seq<real>)
    requires |window| == WindowSize && |es| >= WindowSize
    ensures ShiftAll(window, es) == es[|es| - WindowSize..]
  {
    WindowHoldsLatest(window, es);
    assert (window + es)[|es|..] == es[|es| - WindowSize..];
  }
}
