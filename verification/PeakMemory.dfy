/** The two-level sliding maximum: a ring of windows, of which one call scans a single one. */
module PeakMemory {
  import opened Arithmetic
  import opened Levels

  /** The largest of 0 and all samples. */
  function MaxOver(samples: seq<real>): (m: real)
    ensures m >= 0.0
  {
    if samples == [] then 0.0 else Max(MaxOver(samples[..|samples| - 1]), samples[|samples| - 1])
  }

  /** The last `length` samples, or all of them if there are fewer. */
  function Last(samples: seq<real>, length: nat): seq<real> {
    if length <= |samples| then samples[|samples| - length..] else samples
  }

  lemma {:induction false} MaxOverMeaning(samples: seq<real>)
    ensures MaxOver(samples) >= 0.0
    ensures forall i | 0 <= i < |samples| :: samples[i] <= MaxOver(samples)
    ensures MaxOver(samples) == 0.0 || MaxOver(samples) in samples
  {
    if samples != [] {
      MaxOverMeaning(samples[..|samples| - 1]);
    }
  }

  lemma {:induction false} MaxOverJoins(a: seq<real>, b: seq<real>)
    ensures MaxOver(a + b) == Max(MaxOver(a), MaxOver(b))
    decreases |b|
  {
    if b == [] {
      assert a + b == a;
      MaxOverMeaning(a);
    } else {
      assert (a + b)[..|a + b| - 1] == a + b[..|b| - 1];
      MaxOverJoins(a, b[..|b| - 1]);
    }
  }

  lemma {:induction false} MaxOfSilence(samples: seq<real>)
    requires forall i | 0 <= i < |samples| :: samples[i] == 0.0
    ensures MaxOver(samples) == 0.0
  {
    if samples != [] {
      MaxOfSilence(samples[..|samples| - 1]);
    }
  }

  // ---------- History in blocks of one window ----------

  predicate Blocks(past: seq<seq<real>>, size: nat) {
    forall i | 0 <= i < |past| :: |past[i]| == size
  }

  function Silence(size: nat): (s: seq<real>)
    ensures |s| == size
  {
    seq(size, _ => 0.0)
  }

  /** Block i, where everything before the first sample is silence. */
  function BlockAt(past: seq<seq<real>>, size: nat, i: int): (b: seq<real>)
    requires Blocks(past, size) && i < |past|
    ensures |b| == size
  {
    if i >= 0 then past[i] else Silence(size)
  }

  function Flatten(past: seq<seq<real>>): seq<real> {
    if past == [] then [] else past[0] + Flatten(past[1..])
  }

  /** The maximum over the last `count` blocks. */
  function MaxBlocks(past: seq<seq<real>>, size: nat, count: nat): (m: real)
    requires Blocks(past, size)
    ensures m >= 0.0
  {
    if count == 0 then 0.0
    else Max(MaxBlocks(past, size, count - 1), MaxOver(BlockAt(past, size, |past| - count)))
  }

  /** size * count */
  function Total(size: nat, count: nat): nat {
    if count == 0 then 0 else Total(size, count - 1) + size
  }

  lemma {:induction false} TotalGrows(size: nat, a: nat, b: nat)
    requires a <= b
    ensures Total(size, a) <= Total(size, b)
  {
    if a < b {
      TotalGrows(size, a, b - 1);
    }
  }

  lemma {:induction false} TotalIsProduct(size: nat, count: nat)
    ensures Total(size, count) == size * count
  {
    if count > 0 {
      TotalIsProduct(size, count - 1);
      assert size * count == size * (count - 1) + size;
    }
  }

  lemma {:induction false} FlattenLength(past: seq<seq<real>>, size: nat)
    requires Blocks(past, size)
    ensures |Flatten(past)| == Total(size, |past|)
  {
    if past != [] {
      FlattenLength(past[1..], size);
    }
  }

  lemma {:induction false} FlattenSplits(past: seq<seq<real>>, i: nat)
    requires i <= |past|
    ensures Flatten(past) == Flatten(past[..i]) + Flatten(past[i..])
  {
    if i == 0 {
      assert past[..0] == [] && past[0..] == past;
    } else {
      assert past[1..][..i - 1] == past[..i][1..] && past[1..][i - 1..] == past[i..];
      FlattenSplits(past[1..], i - 1);
    }
  }

  lemma FlattenAppend(past: seq<seq<real>>, block: seq<real>)
    ensures Flatten(past + [block]) == Flatten(past) + block
  {
    var longer := past + [block];
    FlattenSplits(longer, |past|);
    assert longer[..|past|] == past && longer[|past|..] == [block];
    assert Flatten([block]) == block + Flatten([]);
  }

  lemma BlocksAppend(past: seq<seq<real>>, size: nat, block: seq<real>)
    requires Blocks(past, size) && |block| == size
    ensures Blocks(past + [block], size) && BlockAt(past + [block], size, |past|) == block
    ensures forall i | i < |past| :: BlockAt(past + [block], size, i) == BlockAt(past, size, i)
  {
  }

  lemma {:induction false} MaxBlocksMeaning(past: seq<seq<real>>, size: nat, count: nat)
    requires Blocks(past, size)
    ensures MaxBlocks(past, size, count)
         == MaxOver(Flatten(past[if count <= |past| then |past| - count else 0..]))
  {
    if count == 0 {
      assert past[|past|..] == [];
    } else {
      MaxBlocksMeaning(past, size, count - 1);
      var i := |past| - count;
      if i >= 0 {
        assert past[i..][1..] == past[i + 1..];
        MaxOverJoins(past[i], Flatten(past[i + 1..]));
      } else {
        MaxOfSilence(Silence(size));
        MaxOverMeaning(Flatten(past));
        assert past[0..] == past;
      }
    }
  }

  /** What addSampleGetPeak combines: the newest window, what is left of the oldest one, and the windows in between. */
  function Combined(past: seq<seq<real>>, current: seq<real>, size: nat, windows: nat): real
    requires Blocks(past, size) && 0 < |current| <= size && windows >= 2
  {
    Max(Max(MaxOver(current), MaxOver(BlockAt(past, size, |past| - windows + 1)[|current| - 1..])),
        MaxBlocks(past, size, windows - 2))
  }

  function Span(size: nat, windows: nat): nat
    requires windows >= 1
  {
    Total(size, windows - 1) + 1
  }

  /** The length of the history that the peak is taken over. */
  lemma SpanIsSizeTimesCount(size: nat, windows: nat)
    requires windows >= 1
    ensures Span(size, windows) == size * (windows - 1) + 1
  {
    TotalIsProduct(size, windows - 1);
  }

  lemma FlattenAround(past: seq<seq<real>>, i: nat)
    requires i < |past|
    ensures Flatten(past) == Flatten(past[..i]) + past[i] + Flatten(past[i + 1..])
  {
    FlattenSplits(past, i);
    assert past[i..][1..] == past[i + 1..];
  }

  lemma SpanInBlocks(size: nat, windows: nat)
    requires windows >= 2
    ensures Span(size, windows) == Total(size, windows - 2) + size + 1
  {
    hide Total;
    TotalNext(size, windows - 2);
  }

  lemma TotalNext(size: nat, count: nat)
    ensures Total(size, count + 1) == Total(size, count) + size
  {
  }

  lemma CoverWhenFull(past: seq<seq<real>>, current: seq<real>, size: nat, windows: nat)
    requires Blocks(past, size) && 0 < |current| <= size && windows >= 2 && |past| >= windows - 1
    ensures Combined(past, current, size, windows) == MaxOver(Last(Flatten(past) + current, Span(size, windows)))
  {
    hide MaxOver, Flatten, MaxBlocks, Last, Span, Total;
    SpanInBlocks(size, windows);
    var k, i := |current| - 1, |past| - windows + 1;
    var head, later := Flatten(past[..i]), Flatten(past[i + 1..]);
    FlattenAround(past, i);
    FlattenLength(past[i + 1..], size);
    TailOfFour(head, past[i], later, current, k);
    MaxBlocksMeaning(past, size, windows - 2);
    MaxOverJoins(past[i][k..] + later, current);
    MaxOverJoins(past[i][k..], later);
  }

  lemma TailOfFour(a: seq<real>, b: seq<real>, c: seq<real>, d: seq<real>, k: nat)
    requires k <= |b|
    ensures Last(a + b + c + d, |b| - k + |c| + |d|) == b[k..] + c + d
  {
  }

  lemma BeforeTheFirstIsSilent(past: seq<seq<real>>, size: nat, i: int, k: nat)
    requires Blocks(past, size) && i < 0 && k <= size
    ensures MaxOver(BlockAt(past, size, i)[k..]) == 0.0
  {
    MaxOfSilence(Silence(size)[k..]);
  }

  lemma ShortHistoryIsWhole(past: seq<seq<real>>, current: seq<real>, size: nat, windows: nat)
    requires Blocks(past, size) && |current| <= size && windows >= 2 && |past| < windows - 1
    ensures Last(Flatten(past) + current, Span(size, windows)) == Flatten(past) + current
  {
    hide Flatten, Total, Span;
    FlattenLength(past, size);
    TotalGrows(size, |past|, windows - 2);
    SpanInBlocks(size, windows);
  }

  lemma CoverWhenShort(past: seq<seq<real>>, current: seq<real>, size: nat, windows: nat)
    requires Blocks(past, size) && 0 < |current| <= size && windows >= 2 && |past| < windows - 1
    ensures Combined(past, current, size, windows) == MaxOver(Last(Flatten(past) + current, Span(size, windows)))
  {
    hide MaxOver, Flatten, MaxBlocks, Last, Span, BlockAt;
    ShortHistoryIsWhole(past, current, size, windows);
    MaxBlocksMeaning(past, size, windows - 2);
    assert past[0..] == past;
    MaxOverJoins(Flatten(past), current);
    BeforeTheFirstIsSilent(past, size, |past| - windows + 1, |current| - 1);
  }

  /** Together these are the last windowSize * (windowCount - 1) + 1 samples. */
  lemma WindowsCoverLast(past: seq<seq<real>>, current: seq<real>, size: nat, windows: nat)
    requires Blocks(past, size) && 0 < |current| <= size && windows >= 2
    ensures Combined(past, current, size, windows) == MaxOver(Last(Flatten(past) + current, Span(size, windows)))
  {
    if |past| >= windows - 1 {
      CoverWhenFull(past, current, size, windows);
    } else {
      CoverWhenShort(past, current, size, windows);
    }
  }

  // ---------- The ring of windows ----------

  /** The sliding maximum, sample by sample: none of the last size * (windows - 1) + 1 samples is larger, and it is one
      of them unless it is 0. */
  lemma PeakIsLargest(h: seq<real>, size: nat, windows: nat, length: nat)
    requires windows >= 2 && length == size * (windows - 1) + 1
    ensures var peak, from := MaxOver(Last(h, Span(size, windows))), if |h| > length then |h| - length else 0;
            && peak >= 0.0 && (forall i | from <= i < |h| :: h[i] <= peak)
            && (peak == 0.0 || exists i :: from <= i < |h| && h[i] == peak)
  {
    hide MaxOver, Span;
    SpanIsSizeTimesCount(size, windows);
    var last, from := Last(h, Span(size, windows)), if |h| > length then |h| - length else 0;
    MaxOverMeaning(last);
    assert last == h[from..];
    assert forall i | from <= i < |h| :: h[i] == last[i - from];
    var peak := MaxOver(last);
    if peak != 0.0 {
      var i :| 0 <= i < |last| && last[i] == peak;
      assert h[from + i] == peak;
    }
  }

  class PeakMemory {
    const windowCount: nat
    const windowSize: nat
    const data: array2<real>
    const maximum: array<real>
    const startAt: array<nat>
    var recent: nat
    var oldest: nat
    var between: real
    var inWindow: nat
    ghost var past: seq<seq<real>>      // complete windows, in order
    ghost var current: seq<real>        // what the newest window holds so far

    /** How many windows ago window w was filled. */
    ghost function Age(w: nat): int
      reads this
    {
      if w <= recent then recent - w else recent - w + windowCount
    }

    ghost predicate Shape()
      reads this
    {
      && windowCount >= 2 && windowSize >= 1
      && data.Length0 == windowCount && data.Length1 == windowSize
      && maximum.Length == windowCount && startAt.Length == windowCount && maximum as object != startAt
      && recent < windowCount && oldest == (if recent + 1 == windowCount then 0 else recent + 1)
      && Blocks(past, windowSize)
    }

    /** Every window but the newest holds a whole block. */
    ghost predicate Stored()
      reads this, data
      requires Shape()
    {
      && (forall w, i | 0 <= w < windowCount && w != recent && 0 <= i < windowSize ::
            data[w, i] == BlockAt(past, windowSize, |past| - Age(w))[i])
      && |current| <= windowSize
      && (forall i | 0 <= i < |current| :: data[recent, i] == current[i])
    }

    ghost predicate Maxima()
      reads this, maximum
      requires Shape()
    {
      && maximum[recent] == MaxOver(current)
      && (forall w | 0 <= w < windowCount && w != recent && w != oldest ::
            maximum[w] == MaxOver(BlockAt(past, windowSize, |past| - Age(w))))
    }

    ghost predicate Valid()
      reads this, data, maximum, startAt
    {
      && Shape() && Stored() && Maxima()
      && inWindow == |current| < windowSize
      && startAt[recent] == startAt[oldest] == inWindow
      && between == MaxBlocks(past, windowSize, windowCount - 2)
    }

    /** All samples added so far. */
    ghost function History(): seq<real>
      reads this
    {
      Flatten(past) + current
    }

    constructor (windowCount: nat, windowSize: nat)
      requires windowCount >= 2 && windowSize >= 1
      ensures Valid() && History() == []
      ensures this.windowCount == windowCount && this.windowSize == windowSize
      ensures fresh(data) && fresh(maximum) && fresh(startAt)
    {
      this.windowCount, this.windowSize := windowCount, windowSize;
      data := new real[windowCount, windowSize]((_, _) => 0.0);
      maximum := new real[windowCount](_ => 0.0);
      startAt := new nat[windowCount](_ => 0);
      recent, oldest, between, inWindow := 0, 1 % windowCount, 0.0, 0;
      past, current := [], [];
      new;
      NextOnRing(0, windowCount);
      MaxOfSilence(Silence(windowSize));
      SilentBlocks(windowSize, windowCount - 2);
    }

    /** addToMostRecentGetMaximum of the newest window. */
    method AddToRecent(sample: real) returns (m: real)
      requires Valid()
      modifies this`current, data, maximum, startAt
      ensures current == old(current) + [sample] && m == MaxOver(current)
      ensures Shape() && Stored() && Maxima()
      ensures startAt[recent] == inWindow + 1 && startAt[oldest] == inWindow
    {
      hide Flatten, MaxBlocks, BlockAt;
      data[recent, startAt[recent]] := sample;
      startAt[recent] := startAt[recent] + 1;
      maximum[recent] := Max(maximum[recent], sample);
      m := maximum[recent];
      current := current + [sample];
      assert current[..|current| - 1] == old(current);
    }

    /** removeFromOldestGetMaximum of the oldest window: the only scan. */
    method RemoveFromOldest() returns (m: real)
      requires Shape() && Stored() && Maxima() && startAt[oldest] < windowSize
      modifies maximum, startAt
      ensures m == MaxOver(BlockAt(past, windowSize, |past| - windowCount + 1)[old(startAt[oldest])..])
      ensures Shape() && Stored() && Maxima()
      ensures startAt[oldest] == old(startAt[oldest]) + 1 && startAt[recent] == old(startAt[recent])
    {
      hide Flatten, MaxBlocks, BlockAt;
      ghost var block := BlockAt(past, windowSize, |past| - windowCount + 1);
      var first := startAt[oldest];
      m := 0.0;
      for i := first to windowSize
        invariant m == MaxOver(block[first..i])
      {
        m := Max(m, data[oldest, i]);
        assert block[first..i + 1][..i - first] == block[first..i];
      }
      assert block[first..windowSize] == block[first..];
      startAt[oldest] := startAt[oldest] + 1;
      maximum[oldest] := m;
    }

    /** The loop of initNewSamples over the windows strictly between the oldest and the newest. */
    method MaximumBetween() returns (max: real)
      requires Shape()
      requires forall w | 0 <= w < windowCount && w != recent && w != oldest ::
          maximum[w] == MaxOver(BlockAt(past, windowSize, |past| - Age(w)))
      ensures max == MaxBlocks(past, windowSize, windowCount - 2)
    {
      hide MaxOver, BlockAt;
      max := 0.0;
      NextOnRing(oldest, windowCount);
      var ptr := (oldest + 1) % windowCount;
      ghost var blocks := windowCount - 2;
      while ptr != recent
        invariant 0 <= ptr < windowCount && Age(ptr) == blocks && 0 <= blocks <= windowCount - 2
        invariant max >= 0.0
        invariant Max(max, MaxBlocks(past, windowSize, blocks)) == MaxBlocks(past, windowSize, windowCount - 2)
        decreases blocks
      {
        max := Max(max, maximum[ptr]);
        NextOnRing(ptr, windowCount);
        ptr := (ptr + 1) % windowCount;
        blocks := blocks - 1;
      }
    }

    /** initNewSamples. */
    method InitNewSamples()
      requires Shape() && Stored() && current == []
      requires forall w | 0 <= w < windowCount && w != recent && w != oldest ::
          maximum[w] == MaxOver(BlockAt(past, windowSize, |past| - Age(w)))
      modifies this`between, maximum, startAt
      ensures Shape() && Stored() && Maxima()
      ensures between == MaxBlocks(past, windowSize, windowCount - 2)
      ensures startAt[recent] == startAt[oldest] == 0
    {
      hide MaxOver, Flatten, BlockAt, MaxBlocks;
      MaxOfSilence([]);
      maximum[recent], startAt[recent] := 0.0, 0;
      maximum[oldest], startAt[oldest] := 0.0, 0;
      between := MaximumBetween();
    }

    method Next()
      requires Shape() && Stored() && Maxima() && |current| == windowSize
      modifies this`recent, this`oldest, this`between, this`inWindow, this`past, this`current, maximum, startAt
      ensures Valid() && History() == old(History())
    {
      hide MaxOver, Flatten, MaxBlocks, BlockAt;
      NextOnRing(recent, windowCount);
      NextOnRing(oldest, windowCount);
      recent := (recent + 1) % windowCount;
      oldest := (oldest + 1) % windowCount;
      inWindow := 0;
      FlattenAppend(past, current);
      BlocksAppend(past, windowSize, current);
      past := past + [current];
      current := [];
      assert Flatten(past) + current == old(Flatten(past) + current);
      forall w | 0 <= w < windowCount && w != recent
        ensures Age(w) == old(Age(w)) + 1
        ensures forall i | 0 <= i < windowSize :: data[w, i] == BlockAt(past, windowSize, |past| - Age(w))[i]
        ensures w != oldest ==> maximum[w] == MaxOver(BlockAt(past, windowSize, |past| - Age(w)))
      {
      }
      InitNewSamples();
    }

    /** The sliding maximum over the last windowSize * (windowCount - 1) + 1 samples, where samples before the first one
        count as 0. */
    method AddSampleGetPeak(sample: real) returns (peak: real)
      requires Valid()
      modifies this`recent, this`oldest, this`between, this`inWindow, this`past, this`current, data, maximum, startAt
      ensures Valid() && History() == old(History()) + [sample]
      ensures peak == MaxOver(Last(History(), Span(windowSize, windowCount)))
    {
      hide MaxOver, Flatten, MaxBlocks, Last, Span, BlockAt;
      var newest := AddToRecent(sample);
      var oldMax := RemoveFromOldest();
      peak := Max(Max(newest, oldMax), between);
      WindowsCoverLast(past, current, windowSize, windowCount);
      assert Flatten(past) + current == old(History()) + [sample];
      inWindow := inWindow + 1;
      if inWindow == windowSize {
        Next();
      }
    }
  }

  lemma {:induction false} SilentBlocks(size: nat, count: nat)
    ensures MaxBlocks([], size, count) == 0.0
  {
    if count > 0 {
      SilentBlocks(size, count - 1);
      MaxOfSilence(Silence(size));
    }
  }
}
