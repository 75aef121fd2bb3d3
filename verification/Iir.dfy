/** Four ways to run the same recursive filter, over real numbers. `c` are the feed-forward and `d` the feed-backward
    coefficients; d[0] is not used. */
module Iir {
  import opened Arithmetic

  /** One lag's share of an output sample. */
  function Term(c: real, x: real, d: real, y: real): real {
    c * x + d * y
  }

  function Gain(c: real, x: real): real {
    c * x
  }

  /** The sample `lag` steps back, silence before the first one. */
  function Back(h: seq<real>, lag: nat): real
    requires lag > 0
  {
    if lag <= |h| then h[|h| - lag] else 0.0
  }

  predicate Coefficients(c: seq<real>, d: seq<real>, order: nat) {
    order > 0 && |c| == |d| == order + 1
  }

  /** `start` plus the shares of lags 1 to `lags`, given all earlier inputs and outputs. */
  function Feed(c: seq<real>, d: seq<real>, xs: seq<real>, ys: seq<real>, start: real, lags: nat): real
    requires lags < |c| && lags < |d|
  {
    if lags == 0 then start
    else Feed(c, d, xs, ys, start, lags - 1) + Term(c[lags], Back(xs, lags), d[lags], Back(ys, lags))
  }

  /** The recursion that defines the filter. */
  function Output(c: seq<real>, d: seq<real>, order: nat, xs: seq<real>, ys: seq<real>, x: real): real
    requires Coefficients(c, d, order)
  {
    Feed(c, d, xs, ys, Gain(c[0], x), order)
  }

  /** All outputs for a signal, from zero history. */
  function Response(c: seq<real>, d: seq<real>, order: nat, signal: seq<real>): (ys: seq<real>)
    requires Coefficients(c, d, order)
    ensures |ys| == |signal|
  {
    if signal == [] then []
    else
      var xs := signal[..|signal| - 1];
      var ys := Response(c, d, order, xs);
      ys + [Output(c, d, order, xs, ys, signal[|signal| - 1])]
  }

  lemma {:induction false} ResponseIsCausal(c: seq<real>, d: seq<real>, order: nat, signal: seq<real>, n: nat)
    requires Coefficients(c, d, order) && n <= |signal|
    ensures Response(c, d, order, signal)[..n] == Response(c, d, order, signal[..n])
    decreases |signal|
  {
    if n < |signal| {
      var xs := signal[..|signal| - 1];
      ResponseIsCausal(c, d, order, xs, n);
      assert xs[..n] == signal[..n];
      assert Response(c, d, order, signal)[..n] == Response(c, d, order, xs)[..n];
    } else {
      assert signal[..n] == signal;
    }
  }

  lemma ResponseGrows(c: seq<real>, d: seq<real>, order: nat, xs: seq<real>, x: real)
    requires Coefficients(c, d, order)
    ensures Response(c, d, order, xs + [x])
         == Response(c, d, order, xs) + [Output(c, d, order, xs, Response(c, d, order, xs), x)]
  {
    assert (xs + [x])[..|xs|] == xs;
  }

  /** The difference equation, lag by lag: every output sample follows from its own past only. */
  lemma ResponseObeysRecursion(c: seq<real>, d: seq<real>, order: nat, signal: seq<real>, n: nat)
    requires Coefficients(c, d, order) && n < |signal|
    ensures var ys := Response(c, d, order, signal);
            ys[n] == Output(c, d, order, signal[..n], ys[..n], signal[n])
  {
    ResponseIsCausal(c, d, order, signal, n + 1);
    ResponseIsCausal(c, d, order, signal, n);
    ResponseGrows(c, d, order, signal[..n], signal[n]);
    assert signal[..n + 1] == signal[..n] + [signal[n]];
    var ys := Response(c, d, order, signal);
    assert ys[n] == ys[..n + 1][n];
  }

  /** Sample i of a signal that is silent outside its bounds. */
  function Sample(h: seq<real>, i: int): real {
    if 0 <= i < |h| then h[i] else 0.0
  }

  /** c[0] x[n] and, for every lag up to `lags`, c[lag] x[n - lag] + d[lag] y[n - lag]. */
  function Convolution(c: seq<real>, d: seq<real>, xs: seq<real>, ys: seq<real>, n: nat, lags: nat): real
    requires lags < |c| && lags < |d|
  {
    if lags == 0 then c[0] * Sample(xs, n)
    else Convolution(c, d, xs, ys, n, lags - 1) + (c[lags] * Sample(xs, n - lags) + d[lags] * Sample(ys, n - lags))
  }

  lemma {:induction false} FeedIsConvolution(
      c: seq<real>, d: seq<real>, xs: seq<real>, ys: seq<real>, n: nat, lags: nat)
    requires lags < |c| && lags < |d| && n < |xs| && n <= |ys|
    ensures Feed(c, d, xs[..n], ys[..n], Gain(c[0], xs[n]), lags) == Convolution(c, d, xs, ys, n, lags)
    decreases lags
  {
    if lags > 0 {
      FeedIsConvolution(c, d, xs, ys, n, lags - 1);
      assert Back(xs[..n], lags) == Sample(xs, n - lags) && Back(ys[..n], lags) == Sample(ys, n - lags);
    }
  }

  /** The filter is what its coefficients say: every output is the explicit sum over its inputs and earlier outputs. */
  lemma ResponseIsConvolution(c: seq<real>, d: seq<real>, order: nat, signal: seq<real>, n: nat)
    requires Coefficients(c, d, order) && n < |signal|
    ensures var ys := Response(c, d, order, signal);
            ys[n] == Convolution(c, d, signal, ys, n, order)
  {
    hide Feed, Gain, Convolution, Response;
    ResponseObeysRecursion(c, d, order, signal, n);
    FeedIsConvolution(c, d, signal, Response(c, d, order, signal), n, order);
  }

  function Decay(a: real, n: nat): real {
    if n == 0 then 1.0 else a * Decay(a, n - 1)
  }

  /** A filter that only feeds back its last output decays from an impulse by that factor at each step. */
  lemma {:induction false} ImpulseDecays(a: real, signal: seq<real>, n: nat)
    requires n < |signal| && signal[0] == 1.0 && forall i | 1 <= i < |signal| :: signal[i] == 0.0
    ensures Response([1.0, 0.0], [0.0, a], 1, signal)[n] == Decay(a, n)
  {
    hide Response;
    var c, d := [1.0, 0.0], [0.0, a];
    var ys := Response(c, d, 1, signal);
    ResponseIsConvolution(c, d, 1, signal, n);
    assert Convolution(c, d, signal, ys, n, 1)
        == Convolution(c, d, signal, ys, n, 0) + (c[1] * Sample(signal, n - 1) + d[1] * Sample(ys, n - 1));
    if n > 0 {
      ImpulseDecays(a, signal, n - 1);
    }
  }

  function Sum(a: seq<real>, b: seq<real>): seq<real>
    requires |a| == |b|
  {
    seq(|a|, i requires 0 <= i < |a| => a[i] + b[i])
  }

  lemma TermAdds(c: real, x: real, x': real, d: real, y: real, y': real)
    ensures Term(c, x + x', d, y + y') == Term(c, x, d, y) + Term(c, x', d, y')
    ensures Gain(c, x + x') == Gain(c, x) + Gain(c, x')
  {
  }

  lemma {:induction false} FeedAdds(
      c: seq<real>, d: seq<real>, xs: seq<real>, xs': seq<real>, ys: seq<real>, ys': seq<real>,
      start: real, start': real, lags: nat)
    requires lags < |c| && lags < |d| && |xs| == |xs'| && |ys| == |ys'|
    ensures Feed(c, d, Sum(xs, xs'), Sum(ys, ys'), start + start', lags)
         == Feed(c, d, xs, ys, start, lags) + Feed(c, d, xs', ys', start', lags)
  {
    hide Term;
    if lags > 0 {
      FeedAdds(c, d, xs, xs', ys, ys', start, start', lags - 1);
      assert Back(Sum(xs, xs'), lags) == Back(xs, lags) + Back(xs', lags);
      assert Back(Sum(ys, ys'), lags) == Back(ys, lags) + Back(ys', lags);
      TermAdds(c[lags], Back(xs, lags), Back(xs', lags), d[lags], Back(ys, lags), Back(ys', lags));
    }
  }

  /** Superposition: the filter of a sum is the sum of the filters. */
  lemma {:induction false} ResponseAdds(c: seq<real>, d: seq<real>, order: nat, a: seq<real>, b: seq<real>)
    requires Coefficients(c, d, order) && |a| == |b|
    ensures Response(c, d, order, Sum(a, b)) == Sum(Response(c, d, order, a), Response(c, d, order, b))
    decreases |a|
  {
    if a != [] {
      hide Feed, Gain, Term;
      var n := |a| - 1;
      ResponseAdds(c, d, order, a[..n], b[..n]);
      assert Sum(a, b)[..n] == Sum(a[..n], b[..n]);
      var ya, yb := Response(c, d, order, a[..n]), Response(c, d, order, b[..n]);
      FeedAdds(c, d, a[..n], b[..n], ya, yb, Gain(c[0], a[n]), Gain(c[0], b[n]), order);
      TermAdds(c[0], a[n], b[n], 0.0, 0.0, 0.0);
    }
  }

  /** A history array that holds the newest sample first. */
  ghost predicate Newest(history: seq<real>, h: seq<real>) {
    forall i | 0 <= i < |history| :: history[i] == Back(h, i + 1)
  }

  lemma NewestShifts(history: seq<real>, h: seq<real>, v: real)
    requires Newest(history, h) && history != []
    ensures Newest([v] + history[..|history| - 1], h + [v])
  {
  }

  // ---------- Calculate, then shift ----------

  class ShiftFilter {
    const order: nat
    const c: seq<real>
    const d: seq<real>
    const xHistory: array<real>
    const yHistory: array<real>
    ghost var signal: seq<real>

    ghost predicate Valid()
      reads this, xHistory, yHistory
    {
      && Coefficients(c, d, order)
      && xHistory.Length == yHistory.Length == order && xHistory != yHistory
      && Newest(xHistory[..], signal)
      && Newest(yHistory[..], Response(c, d, order, signal))
    }

    constructor (order: nat, c: seq<real>, d: seq<real>)
      requires Coefficients(c, d, order)
      ensures Valid() && signal == [] && this.order == order && this.c == c && this.d == d
      ensures fresh(xHistory) && fresh(yHistory)
    {
      this.order, this.c, this.d := order, c, d;
      xHistory := new real[order](_ => 0.0);
      yHistory := new real[order](_ => 0.0);
      signal := [];
    }

    /** iir_shift_history_scalar. */
    method Shift(input: real, output: real)
      requires order > 0 && xHistory.Length == yHistory.Length == order && xHistory != yHistory
      modifies xHistory, yHistory
      ensures xHistory[..] == [input] + old(xHistory[..order - 1])
      ensures yHistory[..] == [output] + old(yHistory[..order - 1])
    {
      ghost var xs0, ys0 := xHistory[..], yHistory[..];
      var i := order - 1;
      while order > 1 && i > 0
        invariant 0 <= i < order
        invariant forall k | 0 <= k <= i :: xHistory[k] == xs0[k] && yHistory[k] == ys0[k]
        invariant forall k | i < k < order :: xHistory[k] == xs0[k - 1] && yHistory[k] == ys0[k - 1]
      {
        xHistory[i] := xHistory[i - 1];
        yHistory[i] := yHistory[i - 1];
        i := i - 1;
      }
      xHistory[0] := input;
      yHistory[0] := output;
    }

    /** iir_filter_scalar. */
    method Filter(input: real) returns (output: real)
      requires Valid()
      modifies this`signal, xHistory, yHistory
      ensures Valid() && signal == old(signal) + [input]
      ensures Response(c, d, order, signal) == Response(c, d, order, old(signal)) + [output]
    {
      hide Response, Gain, Term;
      ghost var ys := Response(c, d, order, signal);
      output := Gain(c[0], input);
      for i := 0 to order
        invariant output == Feed(c, d, signal, ys, Gain(c[0], input), i)
      {
        output := output + Term(c[i + 1], xHistory[i], d[i + 1], yHistory[i]);
      }
      ResponseGrows(c, d, order, signal, input);
      NewestShifts(xHistory[..], signal, input);
      NewestShifts(yHistory[..], ys, output);
      assert output == Output(c, d, order, signal, ys, input);
      Shift(input, output);
      signal := signal + [input];
    }
  }

  // ---------- One pass that rotates while it sums ----------

  class RotatingFilter {
    const order: nat
    const c: seq<real>
    const d: seq<real>
    const xHistory: array<real>
    const yHistory: array<real>
    ghost var signal: seq<real>

    ghost predicate Valid()
      reads this, xHistory, yHistory
    {
      && Coefficients(c, d, order)
      && xHistory.Length == yHistory.Length == order && xHistory != yHistory
      && Newest(xHistory[..], signal)
      && Newest(yHistory[..], Response(c, d, order, signal))
    }

    constructor (order: nat, c: seq<real>, d: seq<real>)
      requires Coefficients(c, d, order)
      ensures Valid() && signal == [] && this.order == order && this.c == c && this.d == d
      ensures fresh(xHistory) && fresh(yHistory)
    {
      this.order, this.c, this.d := order, c, d;
      xHistory := new real[order](_ => 0.0);
      yHistory := new real[order](_ => 0.0);
      signal := [];
    }

    /** filterSingleWithHistory. */
    method Filter(x: real) returns (output: real)
      requires Valid()
      modifies this`signal, xHistory, yHistory
      ensures Valid() && signal == old(signal) + [x]
      ensures Response(c, d, order, signal) == Response(c, d, order, old(signal)) + [output]
    {
      hide Response, Gain, Term, Back;
      ghost var ys := Response(c, d, order, signal);
      ghost var xs0, ys0 := xHistory[..], yHistory[..];
      assert Newest(xs0, signal) && Newest(ys0, ys);
      var nextX, nextY := x, 0.0;
      output := Gain(c[0], x);
      for i := 0 to order
        invariant signal == old(signal)
        invariant output == Feed(c, d, signal, ys, Gain(c[0], x), i)
        invariant nextX == if i == 0 then x else xs0[i - 1]
        invariant nextY == if i == 0 then 0.0 else ys0[i - 1]
        invariant forall k | i <= k < order :: xHistory[k] == xs0[k] && yHistory[k] == ys0[k]
        invariant forall k | 0 < k < i :: xHistory[k] == xs0[k - 1] && yHistory[k] == ys0[k - 1]
        invariant i > 0 ==> xHistory[0] == x
      {
        var oldX, oldY := xHistory[i], yHistory[i];
        assert xs0[i] == Back(signal, i + 1) && ys0[i] == Back(ys, i + 1);
        xHistory[i] := nextX;
        nextX := oldX;
        yHistory[i] := nextY;
        nextY := oldY;
        output := output + Term(c[i + 1], oldX, d[i + 1], oldY);
      }
      yHistory[0] := output;
      ResponseGrows(c, d, order, signal, x);
      NewestShifts(xs0, signal, x);
      NewestShifts(ys0, ys, output);
      assert xHistory[..] == [x] + xs0[..order - 1];
      assert yHistory[..] == [output] + ys0[..order - 1];
      signal := signal + [x];
    }
  }

  // ---------- Circular history ----------

  class CircularFilter {
    const order: nat
    const c: seq<real>
    const d: seq<real>
    const inHistory: array<real>
    const outHistory: array<real>
    var historyPtr: nat
    ghost var signal: seq<real>

    /** The slot of the sample `lag` steps back. */
    ghost function SlotOf(lag: nat): int
      reads this
    {
      if historyPtr + lag - 1 < order then historyPtr + lag - 1 else historyPtr + lag - 1 - order
    }

    ghost predicate Valid()
      reads this, inHistory, outHistory
    {
      && Coefficients(c, d, order)
      && inHistory.Length == outHistory.Length == order && inHistory != outHistory
      && historyPtr < order
      && (forall lag | 0 < lag <= order ::
            inHistory[SlotOf(lag)] == Back(signal, lag)
            && outHistory[SlotOf(lag)] == Back(Response(c, d, order, signal), lag))
    }

    constructor (order: nat, c: seq<real>, d: seq<real>)
      requires Coefficients(c, d, order)
      ensures Valid() && signal == [] && this.order == order && this.c == c && this.d == d
      ensures fresh(inHistory) && fresh(outHistory)
    {
      this.order, this.c, this.d := order, c, d;
      inHistory := new real[order](_ => 0.0);
      outHistory := new real[order](_ => 0.0);
      historyPtr, signal := 0, [];
    }

    /** The sum over the history, walking around the ring. */
    method SumHistory(input: real) returns (output: real)
      requires Valid()
      ensures output == Output(c, d, order, signal, Response(c, d, order, signal), input)
    {
      hide Response, Gain, Term;
      ghost var ys := Response(c, d, order, signal);
      output := Gain(c[0], input);
      var h := historyPtr;
      for i := 1 to order + 1
        invariant 0 <= h < order && (h == if i <= order then SlotOf(i) else historyPtr)
        invariant output == Feed(c, d, signal, ys, Gain(c[0], input), i - 1)
      {
        output := output + Term(c[i], inHistory[h], d[i], outHistory[h]);
        NextOnRing(h, order);
        h := (h + 1) % order;
      }
    }

    /** iir_calculate_output_vector_with_history_pointer, for one row. */
    method Filter(input: real) returns (output: real)
      requires Valid()
      modifies this`signal, this`historyPtr, inHistory, outHistory
      ensures Valid() && signal == old(signal) + [input]
      ensures Response(c, d, order, signal) == Response(c, d, order, old(signal)) + [output]
    {
      hide Response, Output;
      output := SumHistory(input);
      historyPtr := if historyPtr > 0 then historyPtr - 1 else order - 1;
      inHistory[historyPtr] := input;
      outHistory[historyPtr] := output;
      ResponseGrows(c, d, order, signal, input);
      signal := signal + [input];
      forall lag | 0 < lag <= order
        ensures inHistory[SlotOf(lag)] == Back(signal, lag)
        ensures outHistory[SlotOf(lag)] == Back(Response(c, d, order, signal), lag)
      {
        if lag > 1 {
          assert SlotOf(lag) == old(SlotOf(lag - 1)) != historyPtr;
          assert old(inHistory[SlotOf(lag - 1)]) == Back(old(signal), lag - 1);
        }
      }
    }
  }

  // ---------- Whole blocks ----------

  /** unsafeSingleChannelRampUpIterations: the first `order` samples, with as many lags as there are samples. */
  method RampUp(c: seq<real>, d: seq<real>, order: nat, y: array<real>, x: array<real>)
    requires Coefficients(c, d, order) && x.Length == y.Length && x != y
    modifies y
    ensures var end := if order < x.Length then order else x.Length;
            y[..end] == Response(c, d, order, x[..end]) && y[end..] == old(y[end..])
  {
    hide Response, Gain, Term;
    var end := if order < x.Length then order else x.Length;
    for n := 0 to end
      invariant y[..n] == Response(c, d, order, x[..n]) && y[end..] == old(y[end..])
    {
      var yN := Gain(c[0], x[n]);
      var j := 1;
      while n - j >= 0 && j <= order
        invariant 1 <= j <= order + 1 && j <= n + 1
        invariant yN == Feed(c, d, x[..n], y[..n], Gain(c[0], x[n]), j - 1)
      {
        yN := yN + Term(c[j], x[n - j], d[j], y[n - j]);
        j := j + 1;
      }
      SilentLags(c, d, x[..n], y[..n], Gain(c[0], x[n]), j - 1, order);
      ResponseGrows(c, d, order, x[..n], x[n]);
      assert x[..n + 1] == x[..n] + [x[n]];
      y[n] := yN;
      assert y[..n + 1] == y[..n] + [y[n]];
    }
  }

  /** Lags that reach before the first sample contribute nothing. */
  lemma {:induction false} SilentLags(
      c: seq<real>, d: seq<real>, xs: seq<real>, ys: seq<real>, start: real, lags: nat, all: nat)
    requires all < |c| && all < |d| && lags <= all && |xs| == |ys|
    requires lags < all ==> |xs| <= lags
    ensures Feed(c, d, xs, ys, start, all) == Feed(c, d, xs, ys, start, lags)
  {
    if lags < all {
      SilentLags(c, d, xs, ys, start, lags, all - 1);
      assert Term(c[all], 0.0, d[all], 0.0) == 0.0;
    }
  }

  /** unsafeSingleChannelIterations: the samples from `order` on. */
  method Steady(c: seq<real>, d: seq<real>, order: nat, y: array<real>, x: array<real>)
    requires Coefficients(c, d, order) && x.Length == y.Length && x != y
    requires order <= x.Length ==> y[..order] == Response(c, d, order, x[..order])
    modifies y
    ensures order <= x.Length ==> y[..] == Response(c, d, order, x[..])
    ensures x.Length < order ==> y[..] == old(y[..])
  {
    hide Response, Gain, Term;
    var n := order;
    while n < x.Length
      invariant order <= n && (order <= x.Length ==> n <= x.Length)
      invariant order <= x.Length ==> y[..n] == Response(c, d, order, x[..n])
      invariant x.Length < order ==> y[..] == old(y[..])
    {
      var yN := Gain(c[0], x[n]);
      for j := 1 to order + 1
        invariant yN == Feed(c, d, x[..n], y[..n], Gain(c[0], x[n]), j - 1)
      {
        yN := yN + Term(c[j], x[n - j], d[j], y[n - j]);
      }
      ResponseGrows(c, d, order, x[..n], x[n]);
      assert x[..n + 1] == x[..n] + [x[n]];
      y[n] := yN;
      assert y[..n + 1] == y[..n] + [y[n]];
      n := n + 1;
    }
    assert order <= x.Length ==> x[..n] == x[..] && y[..n] == y[..];
  }

  /** filterSingleChannelHistoryZero. */
  method FilterBlock(c: seq<real>, d: seq<real>, order: nat, y: array<real>, x: array<real>)
    requires Coefficients(c, d, order) && x.Length == y.Length && x != y
    modifies y
    ensures y[..] == Response(c, d, order, x[..])
  {
    RampUp(c, d, order, y, x);
    if x.Length <= order {
      assert x[..x.Length] == x[..] && y[..x.Length] == y[..];
    }
    Steady(c, d, order, y, x);
  }
}
