/** The look-ahead limiter over real numbers. Envelopes are parameters with values in [0, 1]. */
module Limiter {
  import opened Arithmetic

  type Factor = x: real | 0.0 <= x <= 1.0 witness 0.0

  /** The fields of the limiter. `peaks` is a circular buffer that is read backwards, so that the slot just written
      is read again after `attackSamples` steps; only its first `attackSamples` elements are used. */
  datatype Limiter = Limiter(
    threshold: real, attack: seq<Factor>, release: seq<Factor>, attackSamples: nat,
    peaks: seq<real>, at: nat, releaseCount: nat, currentPeak: real)
  {
    predicate Valid() {
      threshold > 0.0 && |attack| > 0 && 0 < attackSamples <= |peaks| && at < attackSamples && currentPeak >= 0.0
    }
  }

  function NextSlot(n: nat, t: nat): (r: nat)
    requires t < n
    ensures r < n
  {
    if t < n - 1 then t + 1 else 0
  }

  /** The first position from `i` on where the projected attack curve does not exceed the stored prediction. */
  function Clash(l: Limiter, relative: real, i: nat, t: nat): (clash: nat)
    requires l.Valid() && t < l.attackSamples && i <= |l.attack|
    ensures i <= clash <= |l.attack|
    decreases |l.attack| - i
  {
    var next := NextSlot(l.attackSamples, t);
    if i == |l.attack| || Scale(relative, l.attack[i]) <= l.peaks[next] then i
    else Clash(l, relative, i + 1, next)
  }

  /** The attack envelope has `prediction` entries; squeezed into `clash` positions, position i uses this one. */
  function CompressedIndex(i: nat, prediction: nat, clash: nat): (index: nat)
    requires i < clash && prediction > 0
    ensures index < prediction
  {
    ProductOfNaturals(i, prediction - 1);
    ProductMonotone(i, clash, prediction - 1);
    assert clash * (prediction - 1) == prediction * clash - clash;
    QuotientBelow(i * (prediction - 1), clash, prediction);
    i * (prediction - 1) / clash
  }

  function BlendFactor(l: Limiter, i: nat, clash: nat): Factor
    requires l.Valid() && i < clash
  {
    l.attack[CompressedIndex(i, |l.attack|, clash)]
  }

  function Mix(factor: Factor, relative: real, stored: real): real {
    relative * factor + (1.0 - factor) * stored
  }

  /** The buffer after blending positions i up to `clash`. */
  function Blend(l: Limiter, relative: real, i: nat, t: nat, clash: nat, peaks: seq<real>): (blended: seq<real>)
    requires l.Valid() && t < l.attackSamples && i <= clash && |peaks| == |l.peaks|
    ensures |blended| == |peaks|
    decreases clash - i
  {
    if i == clash then peaks
    else
      var next := NextSlot(l.attackSamples, t);
      Blend(l, relative, i + 1, next, clash, peaks[next := Mix(BlendFactor(l, i, clash), relative, peaks[next])])
  }

  function Scale(peak: real, factor: Factor): real {
    peak * factor
  }

  function ReleaseCurve(l: Limiter): real {
    if l.releaseCount < |l.release| then Scale(l.currentPeak, l.release[l.releaseCount]) else 0.0
  }

  function Amplification(threshold: real, peak: real): real
    requires threshold + peak != 0.0
  {
    threshold / (threshold + peak)
  }

  function StepBack(l: Limiter): (at: nat)
    requires l.Valid()
    ensures at < l.attackSamples
  {
    (l.at + l.attackSamples - 1) % l.attackSamples
  }

  /** One sample without its result. */
  function Submit(l: Limiter, peak: real): (m: Limiter)
    requires l.Valid()
    ensures m.Valid() && |m.peaks| == |l.peaks|
    ensures m.threshold == l.threshold && m.attack == l.attack && m.release == l.release
    ensures m.attackSamples == l.attackSamples && m.at == StepBack(l)
  {
    var relative, curve := peak - l.threshold, ReleaseCurve(l);
    ReleaseCurveRange(l);
    if relative < curve then
      l.(releaseCount := if l.releaseCount < |l.release| then l.releaseCount + 1 else l.releaseCount,
         peaks := l.peaks[l.at := curve], at := StepBack(l))
    else
      var blended := Blended(l, relative);
      l.(releaseCount := 0, currentPeak := relative, peaks := blended[l.at := relative], at := StepBack(l))
  }

  function Blended(l: Limiter, relative: real): (blended: seq<real>)
    requires l.Valid()
    ensures |blended| == |l.peaks|
  {
    Blend(l, relative, 0, l.at, Clash(l, relative, 0, l.at), l.peaks)
  }

  /** The prediction that determines the amplification of this step. */
  function Predicted(l: Limiter, peak: real): real
    requires l.Valid()
  {
    var relative := peak - l.threshold;
    if relative < ReleaseCurve(l) then l.peaks[l.at] else Blended(l, relative)[l.at]
  }

  function Run(l: Limiter, peaks: seq<real>): (m: Limiter)
    requires l.Valid()
    ensures m.Valid() && m.threshold == l.threshold && m.attackSamples == l.attackSamples
    decreases |peaks|
  {
    if peaks == [] then l else Run(Submit(l, peaks[0]), peaks[1..])
  }

  // ---------- The blend dominates the old curve ----------

  lemma Scaled(a: real, factor: real)
    requires a >= 0.0 && 0.0 <= factor <= 1.0
    ensures 0.0 <= factor * a <= a
  {
    RealProduct(factor, a);
    RealProduct(1.0 - factor, a);
    assert (1.0 - factor) * a == a - factor * a;
  }

  lemma MixBetween(factor: Factor, relative: real, stored: real)
    requires stored <= relative
    ensures stored <= Mix(factor, relative, stored) <= relative
  {
    MixAbove(factor, stored, relative - stored);
  }

  lemma MixAbove(factor: Factor, stored: real, gap: real)
    requires gap >= 0.0
    ensures stored <= Mix(factor, stored + gap, stored) <= stored + gap
  {
    Scaled(gap, factor);
    assert Mix(factor, stored + gap, stored) == stored + factor * gap;
  }

  /** Slots that Clash walks over before it stops hold less than the new peak. */
  predicate WalkBelow(l: Limiter, relative: real, i: nat, t: nat, clash: nat, peaks: seq<real>)
    requires l.Valid() && t < l.attackSamples && i <= clash && |peaks| == |l.peaks|
    decreases clash - i
  {
    i == clash ||
    (var next := NextSlot(l.attackSamples, t);
     peaks[next] <= relative && WalkBelow(l, relative, i + 1, next, clash, peaks))
  }

  lemma {:induction false} ClashWalksBelow(l: Limiter, relative: real, i: nat, t: nat)
    requires l.Valid() && t < l.attackSamples && i <= |l.attack| && relative >= 0.0
    ensures WalkBelow(l, relative, i, t, Clash(l, relative, i, t), l.peaks)
    decreases |l.attack| - i
  {
    var next := NextSlot(l.attackSamples, t);
    if i < |l.attack| && Scale(relative, l.attack[i]) > l.peaks[next] {
      Scaled(relative, l.attack[i]);
      ClashWalksBelow(l, relative, i + 1, next);
    }
  }

  lemma {:induction false} RaisingKeepsWalk(
      l: Limiter, relative: real, i: nat, t: nat, clash: nat, peaks: seq<real>, slot: nat, value: real)
    requires l.Valid() && t < l.attackSamples && i <= clash && |peaks| == |l.peaks|
    requires WalkBelow(l, relative, i, t, clash, peaks) && slot < |peaks| && value <= relative
    ensures WalkBelow(l, relative, i, t, clash, peaks[slot := value])
    decreases clash - i
  {
    if i < clash {
      RaisingKeepsWalk(l, relative, i + 1, NextSlot(l.attackSamples, t), clash, peaks, slot, value);
    }
  }

  lemma {:induction false} BlendDominates(
      l: Limiter, relative: real, i: nat, t: nat, clash: nat, peaks: seq<real>, j: nat)
    requires l.Valid() && t < l.attackSamples && i <= clash && |peaks| == |l.peaks| && j < |peaks|
    requires WalkBelow(l, relative, i, t, clash, peaks)
    ensures var b := Blend(l, relative, i, t, clash, peaks);
            peaks[j] <= b[j] && (b[j] == peaks[j] || b[j] <= relative)
    decreases clash - i
  {
    if i < clash {
      var next := NextSlot(l.attackSamples, t);
      var mixed := Mix(BlendFactor(l, i, clash), relative, peaks[next]);
      MixBetween(BlendFactor(l, i, clash), relative, peaks[next]);
      RaisingKeepsWalk(l, relative, i + 1, next, clash, peaks, next, mixed);
      BlendDominates(l, relative, i + 1, next, clash, peaks[next := mixed], j);
    }
  }

  lemma ReleaseCurveRange(l: Limiter)
    requires l.Valid()
    ensures 0.0 <= ReleaseCurve(l) <= l.currentPeak
  {
    if l.releaseCount < |l.release| {
      Scaled(l.currentPeak, l.release[l.releaseCount]);
    }
  }

  /** The claim in the source's comment: blending a new peak never lowers a stored prediction, and a prediction that
      it raises does not exceed the peak. */
  lemma BlendNeverLowers(l: Limiter, relative: real, j: nat)
    requires l.Valid() && relative >= ReleaseCurve(l) && j < |l.peaks|
    ensures l.peaks[j] <= Blended(l, relative)[j]
    ensures Blended(l, relative)[j] == l.peaks[j] || Blended(l, relative)[j] <= relative
  {
    ReleaseCurveRange(l);
    ClashWalksBelow(l, relative, 0, l.at);
    BlendDominates(l, relative, 0, l.at, Clash(l, relative, 0, l.at), l.peaks, j);
  }

  // ---------- What the blend stores ----------

  function EnvelopeAt(envelope: seq<Factor>, k: int): Factor {
    if 0 <= k < |envelope| then envelope[k] else 0.0
  }

  /** Where position i of the blend lies: i + 1 places ahead of the slot that is due. */
  function SlotAhead(l: Limiter, i: nat): (slot: nat)
    requires l.Valid()
    ensures slot < l.attackSamples
  {
    (l.at + i + 1) % l.attackSamples
  }

  /** What slot j holds after the first `count` of `clash` positions are blended, position by position. A slot is met
      again when the blend goes round the whole buffer. */
  function SlotAfter(l: Limiter, relative: real, clash: nat, j: nat, count: nat): real
    requires l.Valid() && j < |l.peaks| && count <= clash
  {
    if count == 0 then l.peaks[j]
    else
      var i, before := count - 1, SlotAfter(l, relative, clash, j, count - 1);
      if SlotAhead(l, i) != j then before
      else relative * Weight(l, i, clash) + (1.0 - Weight(l, i, clash)) * before
  }

  /** The attack envelope squeezed into `clash` positions, at position i. */
  function Weight(l: Limiter, i: nat, clash: nat): Factor
    requires l.Valid() && i < clash
  {
    EnvelopeAt(l.attack, i * (|l.attack| - 1) / clash)
  }

  lemma SlotsAheadApart(l: Limiter, i: nat, k: nat)
    requires l.Valid() && i != k && i < l.attackSamples && k < l.attackSamples
    ensures SlotAhead(l, i) != SlotAhead(l, k)
  {
    if i < k {
      RingApart(l.at + 1, i, k, l.attackSamples);
    } else {
      RingApart(l.at + 1, k, i, l.attackSamples);
    }
  }

  lemma WalkIsAhead(l: Limiter, i: nat)
    requires l.Valid()
    ensures NextSlot(l.attackSamples, (l.at + i) % l.attackSamples) == SlotAhead(l, i)
  {
    var n, t := l.attackSamples, (l.at + i) % l.attackSamples;
    NextOnRing(t, n);
    var q := (l.at + i) / n;
    assert l.at + i == q * n + t;
    if t + 1 == n {
      assert l.at + i + 1 == (q + 1) * n;
      DivModUnique(l.at + i + 1, n, q + 1, 0);
    } else {
      DivModUnique(l.at + i + 1, n, q, t + 1);
    }
  }

  lemma BlendStep(l: Limiter, relative: real, clash: nat, i: nat, peaks: seq<real>, j: nat)
    requires l.Valid() && i < clash && |peaks| == |l.peaks| && j < |peaks|
    ensures var next := SlotAhead(l, i);
            peaks[j] == SlotAfter(l, relative, clash, j, i)
            && peaks[next] == SlotAfter(l, relative, clash, next, i) ==>
              peaks[next := Mix(BlendFactor(l, i, clash), relative, peaks[next])][j]
                == SlotAfter(l, relative, clash, j, i + 1)
  {
    hide SlotAhead;
    var index := CompressedIndex(i, |l.attack|, clash);
    assert BlendFactor(l, i, clash) == Weight(l, i, clash);
  }

  lemma {:induction false} BlendIsExplicit(l: Limiter, relative: real, clash: nat, i: nat, peaks: seq<real>, j: nat)
    requires l.Valid() && i <= clash && |peaks| == |l.peaks| && j < |peaks|
    requires forall s | 0 <= s < |peaks| :: peaks[s] == SlotAfter(l, relative, clash, s, i)
    ensures Blend(l, relative, i, (l.at + i) % l.attackSamples, clash, peaks)[j]
         == SlotAfter(l, relative, clash, j, clash)
    decreases clash - i
  {
    hide SlotAfter, SlotAhead, Mix, BlendFactor, NextSlot;
    if i < clash {
      var next := SlotAhead(l, i);
      WalkIsAhead(l, i);
      var mixed := peaks[next := Mix(BlendFactor(l, i, clash), relative, peaks[next])];
      forall s | 0 <= s < |peaks|
        ensures mixed[s] == SlotAfter(l, relative, clash, s, i + 1)
      {
        BlendStep(l, relative, clash, i, peaks, s);
      }
      AheadIsNext(l, i);
      BlendIsExplicit(l, relative, clash, i + 1, mixed, j);
    }
  }

  lemma AheadIsNext(l: Limiter, i: nat)
    requires l.Valid()
    ensures SlotAhead(l, i) == (l.at + (i + 1)) % l.attackSamples
  {
  }

  lemma StartOfWalk(l: Limiter)
    requires l.Valid()
    ensures (l.at + 0) % l.attackSamples == l.at
  {
    DivModUnique(l.at, l.attackSamples, 0, l.at);
  }

  lemma BlendIsExplicitEverywhere(l: Limiter, relative: real, clash: nat)
    requires l.Valid()
    ensures var blended := Blend(l, relative, 0, l.at, clash, l.peaks);
            forall j | 0 <= j < |blended| :: blended[j] == SlotAfter(l, relative, clash, j, clash)
  {
    hide Blend;
    StartOfWalk(l);
    forall j | 0 <= j < |l.peaks|
      ensures Blend(l, relative, 0, l.at, clash, l.peaks)[j] == SlotAfter(l, relative, clash, j, clash)
    {
      BlendIsExplicit(l, relative, clash, 0, l.peaks, j);
    }
  }

  /** The whole curve after a peak, slot by slot. */
  lemma BlendedIsExplicit(l: Limiter, relative: real, j: nat)
    requires l.Valid() && j < |l.peaks|
    ensures var clash := Clash(l, relative, 0, l.at);
            Blended(l, relative)[j] == SlotAfter(l, relative, clash, j, clash)
  {
    hide Blend, Clash;
    var clash := Clash(l, relative, 0, l.at);
    StartOfWalk(l);
    BlendIsExplicit(l, relative, clash, 0, l.peaks, j);
  }

  /** The clash is the first place where the projected curve does not exceed what is stored. */
  lemma {:induction false} ClashIsFirst(l: Limiter, relative: real, from: nat, t: nat, i: nat)
    requires l.Valid() && from <= i && from <= |l.attack| && t == (l.at + from) % l.attackSamples
    ensures var clash := Clash(l, relative, from, t);
            && (i < clash ==> relative * l.attack[i] > l.peaks[SlotAhead(l, i)])
            && (i == clash < |l.attack| ==> relative * l.attack[i] <= l.peaks[SlotAhead(l, i)])
    decreases |l.attack| - from
  {
    hide SlotAhead, NextSlot, Scale;
    if from < |l.attack| {
      ScaleIsProduct(relative, l.attack[from]);
      WalkIsAhead(l, from);
      AheadIsNext(l, from);
      if from < i {
        ClashIsFirst(l, relative, from + 1, SlotAhead(l, from), i);
      }
    }
  }

  lemma ScaleIsProduct(peak: real, factor: Factor)
    ensures Scale(peak, factor) == peak * factor
  {
  }

  lemma FirstOf(l: Limiter, relative: real, clash: nat)
    requires l.Valid() && clash == Clash(l, relative, 0, l.at)
    ensures forall i | 0 <= i < clash :: relative * l.attack[i] > l.peaks[SlotAhead(l, i)]
    ensures clash < |l.attack| ==> relative * l.attack[clash] <= l.peaks[SlotAhead(l, clash)]
  {
    hide Clash, SlotAhead;
    StartOfWalk(l);
    forall i | 0 <= i < clash
      ensures relative * l.attack[i] > l.peaks[SlotAhead(l, i)]
    {
      ClashIsFirst(l, relative, 0, l.at, i);
    }
    ClashIsFirst(l, relative, 0, l.at, clash);
  }

  lemma {:induction false} MetAtMostOnce(l: Limiter, relative: real, clash: nat, i: nat, count: nat)
    requires l.Valid() && i < clash <= l.attackSamples && count <= clash
    ensures var j, f := SlotAhead(l, i), Weight(l, i, clash);
            SlotAfter(l, relative, clash, j, count) ==
              if i < count then relative * f + (1.0 - f) * l.peaks[j] else l.peaks[j]
    decreases count
  {
    hide SlotAhead, Weight;
    if count > 0 {
      MetAtMostOnce(l, relative, clash, i, count - 1);
      if count - 1 != i {
        SlotsAheadApart(l, count - 1, i);
      }
    }
  }

  lemma {:induction false} NotMet(l: Limiter, relative: real, clash: nat, i: nat, count: nat)
    requires l.Valid() && count <= clash <= i < l.attackSamples
    ensures SlotAfter(l, relative, clash, SlotAhead(l, i), count) == l.peaks[SlotAhead(l, i)]
    decreases count
  {
    hide SlotAhead, Weight;
    if count > 0 {
      NotMet(l, relative, clash, i, count - 1);
      SlotsAheadApart(l, count - 1, i);
    }
  }

  /** When the clash lies within one turn of the buffer, position i before it holds the peak and the old prediction
      mixed by the compressed attack envelope, and all other slots are as they were. */
  lemma BlendWithinOneTurn(l: Limiter, relative: real, i: nat)
    requires l.Valid() && i < l.attackSamples && Clash(l, relative, 0, l.at) <= l.attackSamples
    ensures var clash, slot := Clash(l, relative, 0, l.at), SlotAhead(l, i);
            Blended(l, relative)[slot] ==
              if i < clash then
                var f := EnvelopeAt(l.attack, i * (|l.attack| - 1) / clash);
                relative * f + (1.0 - f) * l.peaks[slot]
              else l.peaks[slot]
  {
    hide Blended, Clash, SlotAfter, SlotAhead, EnvelopeAt;
    var clash := Clash(l, relative, 0, l.at);
    BlendedIsExplicit(l, relative, SlotAhead(l, i));
    if i < clash {
      MetAtMostOnce(l, relative, clash, i, clash);
    } else {
      NotMet(l, relative, clash, i, clash);
    }
  }

  // ---------- A peak alone ----------

  /** The prediction read k + 1 steps after a peak, when only samples below the threshold follow: first the blended
      curve, then the peak itself, then the release envelope from the peak. */
  function LonePrediction(l: Limiter, relative: real, k: nat): real
    requires l.Valid()
  {
    var n, clash := l.attackSamples, Clash(l, relative, 0, l.at);
    if k + 1 < n then SlotAfter(l, relative, clash, SlotAhead(l, n - 2 - k), clash)
    else if k + 1 == n then relative
    else relative * EnvelopeAt(l.release, k - n)
  }

  /** The limiter m is k quiet samples after the peak. */
  predicate AfterLonePeak(l: Limiter, relative: real, m: Limiter, k: nat)
    requires l.Valid()
  {
    && m.Valid() && m.threshold == l.threshold && m.attackSamples == l.attackSamples && m.release == l.release
    && m.currentPeak == relative && m.releaseCount == (if k < |l.release| then k else |l.release|)
    && forall j | 0 <= j < l.attackSamples :: m.peaks[j] == LonePrediction(l, relative, k + Distance(m, j))
  }

  lemma SlotAtDistance(l: Limiter, j: nat)
    requires l.Valid() && j < l.attackSamples && j != l.at
    ensures var n := l.attackSamples;
            var d := if j < l.at then l.at - 1 - j else l.at - 1 - j + n;
            0 <= d <= n - 2 && SlotAhead(l, n - 2 - d) == j
  {
    var n := l.attackSamples;
    if j < l.at {
      assert l.at + (n - 2 - (l.at - 1 - j)) + 1 == n + j;
      DivModUnique(n + j, n, 1, j);
    } else {
      DivModUnique(j, n, 0, j);
    }
  }

  lemma LonePeakStarts(l: Limiter, p: real, relative: real)
    requires l.Valid() && relative == p - l.threshold && relative >= ReleaseCurve(l)
    ensures AfterLonePeak(l, relative, Submit(l, p), 0)
  {
    hide Blended, Clash, SlotAfter, SlotAhead, StepBack;
    var m := Submit(l, p);
    ReleaseCurveRange(l);
    StepBackIsPrevious(l);
    forall j | 0 <= j < l.attackSamples
      ensures m.peaks[j] == LonePrediction(l, relative, Distance(m, j))
    {
      if j != l.at {
        SlotAtDistance(l, j);
        BlendedIsExplicit(l, relative, j);
      }
    }
  }

  lemma QuietSample(l: Limiter, relative: real, m: Limiter, k: nat, q: real)
    requires l.Valid() && AfterLonePeak(l, relative, m, k) && q < l.threshold
    ensures AfterLonePeak(l, relative, Submit(m, q), k + 1)
    ensures Predicted(m, q) == LonePrediction(l, relative, k)
    ensures Submit(m, q).peaks[m.at] == LonePrediction(l, relative, k + l.attackSamples)
  {
    hide Clash, SlotAfter, SlotAhead, StepBack, Blended;
    ReleaseCurveRange(m);
    StepBackIsPrevious(m);
    var after := Submit(m, q);
    assert ReleaseCurve(m) == relative * EnvelopeAt(l.release, k);
    forall j | 0 <= j < l.attackSamples
      ensures after.peaks[j] == LonePrediction(l, relative, k + 1 + Distance(after, j))
    {
      if j != m.at {
        assert Distance(after, j) + 1 == Distance(m, j);
      }
    }
  }

  lemma {:induction false} QuietSamples(
      l: Limiter, relative: real, m: Limiter, k: nat, quiet: seq<real>, total: nat)
    requires l.Valid() && m.Valid() && AfterLonePeak(l, relative, m, k) && total == k + |quiet|
    requires forall i | 0 <= i < |quiet| :: quiet[i] < l.threshold
    ensures AfterLonePeak(l, relative, Run(m, quiet), total)
    decreases |quiet|
  {
    hide AfterLonePeak, Submit, StepBack;
    if quiet != [] {
      QuietSample(l, relative, m, k, quiet[0]);
      QuietSamples(l, relative, Submit(m, quiet[0]), k + 1, quiet[1..], total);
    }
  }

  /** The whole course of a peak that the release curve does not cover, from any state, while only samples below the
      threshold follow: what step k after the peak reads and what it stores. */
  lemma CourseOfLonePeak(l: Limiter, p: real, relative: real, quiet: seq<real>, k: nat, q: real)
    requires l.Valid() && relative == p - l.threshold && relative >= ReleaseCurve(l) && q < l.threshold
    requires k == |quiet| && forall i | 0 <= i < k :: quiet[i] < l.threshold
    ensures var m := Run(Submit(l, p), quiet);
            && Predicted(m, q) == LonePrediction(l, relative, k)
            && Submit(m, q).peaks[m.at] == LonePrediction(l, relative, k + l.attackSamples)
  {
    hide LonePrediction, AfterLonePeak, Submit, Predicted, Run, StepBack;
    LonePeakStarts(l, p, relative);
    QuietSamples(l, relative, Submit(l, p), 0, quiet, k);
    QuietSample(l, relative, Run(Submit(l, p), quiet), k, q);
  }

  /** After a lone peak and k quiet samples the value stored is the peak's excess times entry k of the release
      envelope. */
  lemma ReleaseOfLonePeak(l: Limiter, relative: real, k: nat)
    requires l.Valid()
    ensures LonePrediction(l, relative, k + l.attackSamples) == relative * EnvelopeAt(l.release, k)
  {
    hide Clash, SlotAfter, EnvelopeAt;
  }

  /** In a silent buffer the curve on the way to the peak is the compressed attack envelope times the peak's excess,
      and nothing before that. */
  lemma AttackFromSilence(l: Limiter, relative: real, k: nat)
    requires l.Valid() && relative > 0.0 && k + 1 < l.attackSamples
    requires forall j | 0 <= j < l.attackSamples :: l.peaks[j] == 0.0
    requires Clash(l, relative, 0, l.at) <= l.attackSamples
    ensures var i, clash := l.attackSamples - 2 - k, Clash(l, relative, 0, l.at);
            LonePrediction(l, relative, k) ==
              if i < clash then relative * EnvelopeAt(l.attack, i * (|l.attack| - 1) / clash) else 0.0
    ensures var clash := Clash(l, relative, 0, l.at);
            && (clash < |l.attack| ==> l.attack[clash] == 0.0)
            && forall i | 0 <= i < clash :: l.attack[i] > 0.0
  {
    hide Clash, SlotAfter, SlotAhead, Blended;
    var i, clash := l.attackSamples - 2 - k, Clash(l, relative, 0, l.at);
    if i < clash {
      MetAtMostOnce(l, relative, clash, i, clash);
    } else {
      NotMet(l, relative, clash, i, clash);
    }
    StartOfWalk(l);
    if clash < |l.attack| {
      ClashIsFirst(l, relative, 0, l.at, clash);
      ZeroFactor(relative, l.attack[clash]);
    }
    forall e | 0 <= e < clash
      ensures l.attack[e] > 0.0
    {
      ClashIsFirst(l, relative, 0, l.at, e);
      ZeroFactor(relative, l.attack[e]);
    }
  }

  lemma ZeroFactor(relative: real, factor: Factor)
    requires relative > 0.0
    ensures relative * factor <= 0.0 <==> factor == 0.0
  {
    if factor > 0.0 {
      RealProductStrict(factor, 0.0, relative);
    }
  }

  // ---------- Look-ahead bound ----------

  /** Steps until `slot` is the one that is read. */
  function Distance(l: Limiter, slot: nat): int {
    if slot <= l.at then l.at - slot else l.at - slot + l.attackSamples
  }

  lemma StepBackIsPrevious(l: Limiter)
    requires l.Valid()
    ensures StepBack(l) == if l.at == 0 then l.attackSamples - 1 else l.at - 1
  {
    PreviousOnRing(l.at, l.attackSamples);
  }

  lemma StepBackDepends(l: Limiter, m: Limiter)
    requires l.Valid() && m.Valid() && l.at == m.at && l.attackSamples == m.attackSamples
    ensures StepBack(l) == StepBack(m)
  {
  }

  /** A prediction only grows until it is read. */
  lemma {:induction false} PredictionPersists(l: Limiter, stream: seq<real>, slot: nat)
    requires l.Valid() && slot < l.attackSamples && |stream| == Distance(l, slot)
    ensures Run(l, stream).at == slot && Run(l, stream).peaks[slot] >= l.peaks[slot]
    decreases |stream|
  {
    if stream != [] {
      StepBackIsPrevious(l);
      var m := Submit(l, stream[0]);
      if stream[0] - l.threshold >= ReleaseCurve(l) {
        BlendNeverLowers(l, stream[0] - l.threshold, slot);
      }
      PredictionPersists(m, stream[1..], slot);
    }
  }

  lemma {:induction false} RunSplits(l: Limiter, first: seq<real>, second: seq<real>)
    requires l.Valid()
    ensures Run(l, first + second) == Run(Run(l, first), second)
    decreases |first|
  {
    if first == [] {
      assert first + second == second;
    } else {
      assert (first + second)[1..] == first[1..] + second;
      RunSplits(Submit(l, first[0]), first[1..], second);
    }
  }

  /** The prediction that is read while the last element of `stream` is submitted. */
  function PredictionAtEnd(l: Limiter, stream: seq<real>): real
    requires l.Valid() && stream != []
  {
    Predicted(Run(l, stream[..|stream| - 1]), stream[|stream| - 1])
  }

  lemma SubmitStoresPeak(l: Limiter, p: real)
    requires l.Valid()
    ensures var m := Submit(l, p);
            m.peaks[l.at] >= 0.0 && m.peaks[l.at] >= p - l.threshold && Distance(m, l.at) == l.attackSamples - 1
  {
    ReleaseCurveRange(l);
    StepBackIsPrevious(l);
  }

  lemma PredictedIsNotLess(l: Limiter, q: real)
    requires l.Valid()
    ensures Predicted(l, q) >= l.peaks[l.at]
  {
    if q - l.threshold >= ReleaseCurve(l) {
      BlendNeverLowers(l, q - l.threshold, l.at);
    }
  }

  /** What is stored for a peak is still there, or more, when its slot is read. */
  lemma StoredUntilRead(l: Limiter, p: real, between: seq<real>, q: real)
    requires l.Valid() && |between| == l.attackSamples - 1
    ensures var pk := Predicted(Run(Submit(l, p), between), q);
            pk >= 0.0 && pk >= p - l.threshold
  {
    SubmitStoresPeak(l, p);
    PredictionPersists(Submit(l, p), between, l.at);
    PredictedIsNotLess(Run(Submit(l, p), between), q);
  }

  lemma RunThrough(l: Limiter, stream: seq<real>, n: nat, last: nat)
    requires l.Valid() && n < last <= |stream|
    ensures Run(l, stream[..last]) == Run(Submit(Run(l, stream[..n]), stream[n]), stream[n + 1..last])
  {
    var between := stream[n + 1..last];
    assert stream[..last] == stream[..n] + ([stream[n]] + between);
    assert ([stream[n]] + between)[1..] == between;
    RunSplits(l, stream[..n], [stream[n]] + between);
  }

  lemma PredictionCoversPeak(l: Limiter, stream: seq<real>, n: nat)
    requires l.Valid() && n + l.attackSamples == |stream| - 1
    ensures PredictionAtEnd(l, stream) >= 0.0 && PredictionAtEnd(l, stream) >= stream[n] - l.threshold
  {
    var last := |stream| - 1;
    RunThrough(l, stream, n, last);
    StoredUntilRead(Run(l, stream[..n]), stream[n], stream[n + 1..last], stream[last]);
  }

  /** For every stream of any length and any initial buffer contents: the amplification returned attackSamples steps
      after a peak brings that peak below the threshold. */
  lemma LookAheadBound(l: Limiter, stream: seq<real>, n: nat)
    requires l.Valid() && n + l.attackSamples == |stream| - 1
    ensures l.threshold + PredictionAtEnd(l, stream) > 0.0
    ensures var amp := Amplification(l.threshold, PredictionAtEnd(l, stream));
            0.0 < amp <= 1.0 && stream[n] * amp <= l.threshold
  {
    PredictionCoversPeak(l, stream, n);
    AmplificationBounds(l.threshold, PredictionAtEnd(l, stream), stream[n]);
  }

  lemma AmplificationBounds(threshold: real, peak: real, p: real)
    requires threshold > 0.0 && peak >= 0.0 && p <= threshold + peak
    ensures 0.0 < Amplification(threshold, peak) <= 1.0
    ensures p * Amplification(threshold, peak) <= threshold
  {
    QuotientBounds(threshold, threshold + peak, p);
  }

  lemma QuotientTimes(a: real, b: real)
    requires b != 0.0
    ensures (a / b) * b == a
  {
  }

  lemma QuotientBounds(threshold: real, level: real, p: real)
    requires 0.0 < threshold <= level && p <= level
    ensures 0.0 < threshold / level <= 1.0
    ensures (threshold / level) * level == threshold && p * (threshold / level) <= threshold
  {
    var amp := threshold / level;
    assert amp * level == threshold;
    assert amp > 0.0;
    RealCancel(amp, 1.0, level);
    RealProductMonotone(p, level, amp);
  }

  // ---------- Nothing is limited more than the largest peak requires ----------

  /** The held peak, and the predictions in the slots written by the last `submitted` steps, lie within `limit`. What
      is in the other slots, which the source does not initialise, does not matter. */
  predicate Settled(l: Limiter, limit: real, submitted: nat)
    requires l.Valid()
  {
    && l.currentPeak <= limit
    && forall j | 0 <= j < l.attackSamples && Distance(l, j) >= l.attackSamples - submitted ::
        0.0 <= l.peaks[j] <= limit
  }

  predicate PeaksWithin(stream: seq<real>, threshold: real, limit: real) {
    forall n | 0 <= n < |stream| :: stream[n] - threshold <= limit
  }

  /** A slot that was settled stays so until it is read, and the slot read is written. */
  lemma SubmitSettles(l: Limiter, peak: real, limit: real, submitted: nat)
    requires l.Valid() && Settled(l, limit, submitted) && peak - l.threshold <= limit
    ensures Settled(Submit(l, peak), limit, submitted + 1)
    ensures submitted >= l.attackSamples ==> 0.0 <= Predicted(l, peak) <= limit
  {
    ReleaseCurveRange(l);
    StepBackIsPrevious(l);
    var relative := peak - l.threshold;
    if relative >= ReleaseCurve(l) {
      forall j | 0 <= j < l.attackSamples && Distance(l, j) >= l.attackSamples - submitted
        ensures 0.0 <= Blended(l, relative)[j] <= limit
      {
        BlendNeverLowers(l, relative, j);
      }
    }
    var m := Submit(l, peak);
    forall j | 0 <= j < m.attackSamples && Distance(m, j) >= m.attackSamples - (submitted + 1)
      ensures 0.0 <= m.peaks[j] <= limit
    {
      if j != l.at {
        assert Distance(l, j) == Distance(m, j) + 1;
      }
    }
  }

  lemma {:induction false} RunSettles(l: Limiter, stream: seq<real>, limit: real, submitted: nat)
    requires l.Valid() && Settled(l, limit, submitted) && PeaksWithin(stream, l.threshold, limit)
    ensures Settled(Run(l, stream), limit, submitted + |stream|)
    decreases |stream|
  {
    if stream != [] {
      SubmitSettles(l, stream[0], limit, submitted);
      RunSettles(Submit(l, stream[0]), stream[1..], limit, submitted + 1);
    }
  }

  /** Every prediction read from a slot that is settled by then lies between 0 and the largest relative peak. */
  lemma PredictionStaysWithin(l: Limiter, stream: seq<real>, limit: real, submitted: nat)
    requires l.Valid() && l.attackSamples < submitted + |stream| && stream != []
    requires Settled(l, limit, submitted) && PeaksWithin(stream, l.threshold, limit)
    ensures 0.0 <= PredictionAtEnd(l, stream) <= limit
  {
    var last := |stream| - 1;
    RunSettles(l, stream[..last], limit, submitted);
    SubmitSettles(Run(l, stream[..last]), stream[last], limit, submitted + last);
  }

  /** In a limiter that is in use, with its last `submitted` predictions settled, the amplification does not fall below
      what the largest relative peak calls for once attackSamples steps are complete. */
  lemma FloorInUse(l: Limiter, stream: seq<real>, limit: real, submitted: nat)
    requires l.Valid() && l.attackSamples < submitted + |stream| && stream != []
    requires Settled(l, limit, submitted) && PeaksWithin(stream, l.threshold, limit)
    ensures l.threshold + limit > 0.0 && l.threshold + PredictionAtEnd(l, stream) > 0.0
    ensures l.threshold / (l.threshold + limit) <= Amplification(l.threshold, PredictionAtEnd(l, stream)) <= 1.0
  {
    PredictionStaysWithin(l, stream, limit, submitted);
    AmplificationBounds(l.threshold, PredictionAtEnd(l, stream), 0.0);
    FloorArithmetic(l.threshold, PredictionAtEnd(l, stream), limit);
  }

  /** So from any buffer contents, uninitialised ones included, the amplification after the first attackSamples steps
      never falls below what the largest relative peak of the stream calls for. */
  lemma AmplificationFloor(l: Limiter, stream: seq<real>, limit: real)
    requires l.Valid() && l.attackSamples < |stream|
    requires l.currentPeak <= limit && PeaksWithin(stream, l.threshold, limit)
    ensures l.threshold + limit > 0.0 && l.threshold + PredictionAtEnd(l, stream) > 0.0
    ensures l.threshold / (l.threshold + limit) <= Amplification(l.threshold, PredictionAtEnd(l, stream)) <= 1.0
  {
    FloorInUse(l, stream, limit, 0);
  }

  lemma FloorArithmetic(threshold: real, peak: real, limit: real)
    requires threshold > 0.0 && 0.0 <= peak <= limit
    ensures threshold / (threshold + limit) <= threshold / (threshold + peak)
  {
    QuotientAntitone(threshold, threshold + peak, threshold + limit);
  }

  lemma QuotientAntitone(a: real, low: real, high: real)
    requires a > 0.0 && 0.0 < low <= high
    ensures a / high <= a / low
  {
    var x, y := a / high, a / low;
    assert x * high == a && y * low == a && y > 0.0;
    RealProductMonotone(low, high, y);
    assert (y - x) * high >= 0.0;
  }

  // ---------- The objects ----------

  class PredictiveSmoothEnvelopeLimiter {
    const threshold: real
    const attackEnvelope: array<Factor>
    const releaseEnvelope: array<Factor>
    const attackSamples: nat
    const peaks: array<real>
    var releaseCount: nat
    var currentPeak: real
    var currentSample: nat

    ghost function View(): Limiter
      reads this, attackEnvelope, releaseEnvelope, peaks
    {
      Limiter(threshold, attackEnvelope[..], releaseEnvelope[..], attackSamples,
              peaks[..], currentSample, releaseCount, currentPeak)
    }

    /** The prediction buffer is left as it comes. */
    constructor (threshold: real, attack: array<Factor>, release: array<Factor>, attackSamples: nat)
      requires threshold > 0.0 && 0 < attackSamples <= attack.Length
      ensures View().Valid() && fresh(peaks) && currentPeak == 0.0 && currentSample == 0 && releaseCount == 0
      ensures this.threshold == threshold && this.attackSamples == attackSamples
      ensures attackEnvelope == attack && releaseEnvelope == release
    {
      this.threshold := threshold;
      attackEnvelope := attack;
      releaseEnvelope := release;
      this.attackSamples := attackSamples;
      peaks := new real[attack.Length];
      releaseCount, currentPeak, currentSample := 0, 0.0, 0;
    }

    method GetAmpAndMoveToNextSample(newValue: real) returns (amp: real)
      requires View().Valid() && threshold + peaks[currentSample] != 0.0
      modifies this`currentSample, peaks
      ensures amp == Amplification(threshold, old(peaks[currentSample]))
      ensures amp * (threshold + old(peaks[currentSample])) == threshold
      ensures View() == old(View()).(peaks := old(peaks[..])[old(currentSample) := newValue],
                                     at := StepBack(old(View())))
    {
      var pk := peaks[currentSample];
      peaks[currentSample] := newValue;
      currentSample := (currentSample + attackSamples - 1) % attackSamples;
      amp := threshold / (threshold + pk);
      QuotientTimes(threshold, threshold + pk);
    }

    /** The first loop of the source: how far the projected attack curve stays above the predictions. */
    method FindClash(relative: real) returns (tClash: nat)
      requires View().Valid()
      ensures tClash == Clash(View(), relative, 0, currentSample) <= attackEnvelope.Length
      ensures forall i | 0 <= i < tClash :: relative * attackEnvelope[i] > peaks[SlotAhead(View(), i)]
      ensures tClash < attackEnvelope.Length ==>
          relative * attackEnvelope[tClash] <= peaks[SlotAhead(View(), tClash)]
    {
      var t: nat := currentSample;
      tClash := 0;
      while tClash < attackEnvelope.Length
        invariant tClash <= attackEnvelope.Length && t < attackSamples
        invariant Clash(View(), relative, tClash, t) == Clash(View(), relative, 0, currentSample)
      {
        t := if t < attackSamples - 1 then t + 1 else 0;
        if Scale(relative, attackEnvelope[tClash]) <= peaks[t] {
          break;
        }
        tClash := tClash + 1;
      }
      FirstOf(View(), relative, tClash);
    }

    /** The second loop: blending the peak into the predictions before the clash. */
    method BlendPeak(relative: real, tClash: nat)
      requires View().Valid()
      modifies peaks
      ensures peaks[..] == Blend(old(View()), relative, 0, currentSample, tClash, old(peaks[..]))
      ensures forall j | 0 <= j < peaks.Length ::
          peaks[j] == SlotAfter(old(View()), relative, tClash, j, tClash)
    {
      ghost var start := View();
      var prediction := attackEnvelope.Length;
      var t: nat := currentSample;
      for i := 0 to tClash
        invariant t < attackSamples
        invariant Blend(start, relative, i, t, tClash, peaks[..])
               == Blend(start, relative, 0, currentSample, tClash, old(peaks[..]))
      {
        t := if t < attackSamples - 1 then t + 1 else 0;
        var blendFactor := attackEnvelope[CompressedIndex(i, prediction, tClash)];
        ghost var before := peaks[..];
        peaks[t] := Mix(blendFactor, relative, peaks[t]);
        assert peaks[..] == before[t := Mix(BlendFactor(start, i, tClash), relative, before[t])];
      }
      BlendIsExplicitEverywhere(start, relative, tClash);
      assert forall j | 0 <= j < peaks.Length :: peaks[j] == peaks[..][j];
    }

    /** limiter_submit_peak_return_amplification. */
    method SubmitPeak(samplePeak: real) returns (amp: real)
      requires View().Valid() && threshold + Predicted(View(), samplePeak) != 0.0
      modifies this`releaseCount, this`currentPeak, this`currentSample, peaks
      ensures View() == Submit(old(View()), samplePeak)
      ensures amp == Amplification(threshold, old(Predicted(View(), samplePeak)))
      ensures amp * (threshold + old(Predicted(View(), samplePeak))) == threshold
    {
      hide Blend, Clash, Scale, SlotAfter, SlotAhead, StepBack, Amplification;
      ghost var start := View();
      var relative := samplePeak - threshold;
      var withinRelease := releaseCount < releaseEnvelope.Length;
      var curve := if withinRelease then Scale(currentPeak, releaseEnvelope[releaseCount]) else 0.0;
      if relative < curve {
        if withinRelease {
          releaseCount := releaseCount + 1;
        }
        StepBackDepends(start, View());
        amp := GetAmpAndMoveToNextSample(curve);
        return;
      }
      var tClash := FindClash(relative);
      BlendPeak(relative, tClash);
      assert peaks[..] == Blended(start, relative);
      assert peaks[currentSample] == Predicted(start, samplePeak);
      ReleaseCurveRange(start);
      releaseCount := 0;
      currentPeak := relative;
      StepBackDepends(start, View());
      amp := GetAmpAndMoveToNextSample(relative);
    }
  }

  /** One step of an integrator. */
  function Integrate(multiplier: Factor, from: real, to: real): real {
    from + multiplier * (to - from)
  }

  lemma Released(multiplier: Factor, from: real, to: real)
    requires to <= from
    ensures to <= Integrate(multiplier, from, to) <= from
  {
    ReleasedBy(multiplier, from, from - to);
  }

  lemma ReleasedBy(multiplier: Factor, from: real, gap: real)
    requires gap >= 0.0
    ensures from - gap <= Integrate(multiplier, from, from - gap) <= from
  {
    Scaled(gap, multiplier);
    assert Integrate(multiplier, from, from - gap) == from - multiplier * gap;
  }

  /** The limiter without prediction: two cascaded release integrators that a new peak overrides. */
  class ZeroPredictionHardAttackLimiter {
    const inputMultiplier: Factor
    const threshold: real
    var integrated1: real
    var integrated2: real

    ghost predicate Valid()
      reads this
    {
      0.0 < threshold <= integrated1 <= integrated2
    }

    constructor (threshold: real, inputMultiplier: Factor)
      requires threshold > 0.0
      ensures Valid() && this.threshold == threshold && this.inputMultiplier == inputMultiplier
      ensures integrated1 == integrated2 == threshold
    {
      this.threshold := threshold;
      this.inputMultiplier := inputMultiplier;
      integrated1, integrated2 := threshold, threshold;
    }

    /** The gain brings this very sample below the threshold, never amplifies, and limits no more than the larger of
        this sample and what was held before calls for. */
    method GetGain(sample: real) returns (gain: real)
      requires Valid()
      modifies this`integrated1, this`integrated2
      ensures Valid() && 0.0 < gain <= 1.0 && sample * gain <= threshold
      ensures gain * integrated2 == threshold
      ensures var peak := if sample > threshold then sample else threshold;
              if peak >= old(integrated1) then integrated1 == integrated2 == peak
              else
                && integrated1 == old(integrated1) + inputMultiplier * (peak - old(integrated1))
                && integrated2 == old(integrated2) + inputMultiplier * (integrated1 - old(integrated2))
      ensures integrated2 <= (if sample > old(integrated2) then sample else old(integrated2))
    {
      var peak := if sample < threshold then threshold else sample;
      if peak >= integrated1 {
        integrated1, integrated2 := peak, peak;
      } else {
        Released(inputMultiplier, integrated1, peak);
        integrated1 := Integrate(inputMultiplier, integrated1, peak);
        Released(inputMultiplier, integrated2, integrated1);
        integrated2 := Integrate(inputMultiplier, integrated2, integrated1);
      }
      gain := threshold / integrated2;
      QuotientBounds(threshold, integrated2, sample);
    }
  }
}
