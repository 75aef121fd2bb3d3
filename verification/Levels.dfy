/** Signal levels and frame counts measured by the processor, and how they are merged. */
module Levels {

  function Max(a: real, b: real): (m: real)
    ensures m >= a && m >= b && (m == a || m == b)
  {
    if a < b then b else a
  }

  /** One call of addValues: a detected (squared) signal for one group. */
  datatype Reading = Reading(group: nat, value: real)

  /** The readings taken while one audio frame is processed. */
  type Frame = seq<Reading>

  /** The state of a DynamicProcessorLevels object: one maximum per channel and a frame count. */
  datatype Levels = Levels(signal: seq<real>, count: nat)

  predicate FrameFits(channels: nat, frame: Frame) {
    forall i | 0 <= i < |frame| :: frame[i].group < channels
  }

  predicate FramesFit(channels: nat, frames: seq<Frame>) {
    forall k | 0 <= k < |frames| :: FrameFits(channels, frames[k])
  }

  function Zero(channels: nat): Levels {
    Levels(seq(channels, _ => 0.0), 0)
  }

  function AddValue(l: Levels, r: Reading): Levels
    requires r.group < |l.signal|
  {
    l.(signal := l.signal[r.group := Max(l.signal[r.group], r.value)])
  }

  function AddReadings(l: Levels, frame: Frame): (m: Levels)
    requires FrameFits(|l.signal|, frame)
    ensures |m.signal| == |l.signal| && m.count == l.count
  {
    if frame == [] then l
    else AddValue(AddReadings(l, frame[..|frame| - 1]), frame[|frame| - 1])
  }

  function AddFrame(l: Levels, frame: Frame): (m: Levels)
    requires FrameFits(|l.signal|, frame)
    ensures |m.signal| == |l.signal| && m.count == l.count + 1
  {
    var added := AddReadings(l, frame);
    added.(count := added.count + 1)
  }

  /** The levels of an epoch: everything measured since the last reset. */
  function Epoch(channels: nat, frames: seq<Frame>): (m: Levels)
    requires FramesFit(channels, frames)
    ensures |m.signal| == channels && m.count == |frames|
  {
    if frames == [] then Zero(channels)
    else AddFrame(Epoch(channels, frames[..|frames| - 1]), frames[|frames| - 1])
  }

  /** The frames of consecutive epochs, one after the other. */
  function AllFrames(epochs: seq<seq<Frame>>): seq<Frame> {
    if epochs == [] then [] else AllFrames(epochs[..|epochs| - 1]) + epochs[|epochs| - 1]
  }

  function Merge(l: Levels, other: Levels): Levels {
    Levels(
      seq(|l.signal|, i requires 0 <= i < |l.signal| =>
        if i < |other.signal| then Max(l.signal[i], other.signal[i]) else l.signal[i]),
      l.count + other.count)
  }

  /** `value` occurs as a reading of `group` somewhere in `frames`. */
  ghost predicate Measured(frames: seq<Frame>, group: nat, value: real) {
    exists k, i :: 0 <= k < |frames| && 0 <= i < |frames[k]| && frames[k][i] == Reading(group, value)
  }

  /** Reference meaning of an epoch: frames are counted, and each channel holds the largest of 0 and its readings. */
  ghost predicate IsMaximumOver(l: Levels, channels: nat, frames: seq<Frame>) {
    && |l.signal| == channels
    && l.count == |frames|
    && (forall g | 0 <= g < channels :: l.signal[g] >= 0.0)
    && (forall k, i | 0 <= k < |frames| && 0 <= i < |frames[k]| && frames[k][i].group < channels
        :: frames[k][i].value <= l.signal[frames[k][i].group])
    && (forall g | 0 <= g < channels :: l.signal[g] == 0.0 || Measured(frames, g, l.signal[g]))
  }

  lemma {:induction false} AddReadingsIsMaximum(l: Levels, frame: Frame)
    requires FrameFits(|l.signal|, frame)
    ensures var m := AddReadings(l, frame);
            && (forall g | 0 <= g < |l.signal| :: m.signal[g] >= l.signal[g])
            && (forall i | 0 <= i < |frame| :: frame[i].value <= m.signal[frame[i].group])
            && (forall g | 0 <= g < |l.signal| ::
                  m.signal[g] == l.signal[g] || exists i :: 0 <= i < |frame| && frame[i] == Reading(g, m.signal[g]))
  {
    if frame != [] {
      var rest, last := frame[..|frame| - 1], frame[|frame| - 1];
      AddReadingsIsMaximum(l, rest);
      var before, m := AddReadings(l, rest), AddReadings(l, frame);
      forall i | 0 <= i < |frame|
        ensures frame[i].value <= m.signal[frame[i].group]
      {
        if i < |rest| { assert rest[i] == frame[i]; }
      }
      forall g | 0 <= g < |l.signal| && m.signal[g] != l.signal[g]
        ensures exists i :: 0 <= i < |frame| && frame[i] == Reading(g, m.signal[g])
      {
        if m.signal[g] == before.signal[g] {
          var i :| 0 <= i < |rest| && rest[i] == Reading(g, before.signal[g]);
          assert frame[i] == Reading(g, m.signal[g]);
        } else {
          assert frame[|frame| - 1] == Reading(g, m.signal[g]);
        }
      }
    }
  }

  lemma AddFrameKeepsMaximum(l: Levels, channels: nat, frames: seq<Frame>, frame: Frame)
    requires IsMaximumOver(l, channels, frames) && FrameFits(channels, frame)
    ensures IsMaximumOver(AddFrame(l, frame), channels, frames + [frame])
  {
    var m, n := AddFrame(l, frame), |frames|;
    var all: seq<Frame> := frames + [frame];
    AddReadingsIsMaximum(l, frame);
    hide AddFrame, AddReadings;
    forall k, i | 0 <= k < |all| && 0 <= i < |all[k]| && all[k][i].group < channels
      ensures all[k][i].value <= m.signal[all[k][i].group]
    {
      if k < n {
        assert frames[k][i].value <= l.signal[frames[k][i].group];
      }
    }
    forall g | 0 <= g < channels && m.signal[g] != 0.0
      ensures Measured(all, g, m.signal[g])
    {
      if m.signal[g] == l.signal[g] {
        var k, i :| 0 <= k < n && 0 <= i < |frames[k]| && frames[k][i] == Reading(g, m.signal[g]);
        assert all[k][i] == Reading(g, m.signal[g]);
      } else {
        var i :| 0 <= i < |frame| && frame[i] == Reading(g, m.signal[g]);
        assert all[n][i] == Reading(g, m.signal[g]);
      }
    }
  }

  lemma {:induction false} EpochIsMaximum(channels: nat, frames: seq<Frame>)
    requires FramesFit(channels, frames)
    ensures IsMaximumOver(Epoch(channels, frames), channels, frames)
  {
    if frames != [] {
      var n := |frames| - 1;
      EpochIsMaximum(channels, frames[..n]);
      AddFrameKeepsMaximum(Epoch(channels, frames[..n]), channels, frames[..n], frames[n]);
      assert frames == frames[..n] + [frames[n]];
    }
  }

  /** The reference meaning leaves no choice, so Epoch is the only levels value with that meaning. */
  lemma MaximumIsUnique(l: Levels, m: Levels, channels: nat, frames: seq<Frame>)
    requires IsMaximumOver(l, channels, frames) && IsMaximumOver(m, channels, frames)
    ensures l == m
  {
    forall g | 0 <= g < channels
      ensures l.signal[g] == m.signal[g]
    {
      OneSided(l, m, channels, frames, g);
      OneSided(m, l, channels, frames, g);
    }
  }

  lemma OneSided(l: Levels, m: Levels, channels: nat, frames: seq<Frame>, g: nat)
    requires IsMaximumOver(l, channels, frames) && IsMaximumOver(m, channels, frames) && g < channels
    ensures l.signal[g] <= m.signal[g]
  {
    if l.signal[g] != 0.0 {
      var k, i :| 0 <= k < |frames| && 0 <= i < |frames[k]| && frames[k][i] == Reading(g, l.signal[g]);
      assert frames[k][i].value <= m.signal[frames[k][i].group];
    }
  }

  lemma MeasuredInPart(first: seq<Frame>, second: seq<Frame>, group: nat, value: real)
    requires Measured(first, group, value) || Measured(second, group, value)
    ensures Measured(first + second, group, value)
  {
    var all := first + second;
    if Measured(first, group, value) {
      var k, i :| 0 <= k < |first| && 0 <= i < |first[k]| && first[k][i] == Reading(group, value);
      assert all[k][i] == Reading(group, value);
    } else {
      var k, i :| 0 <= k < |second| && 0 <= i < |second[k]| && second[k][i] == Reading(group, value);
      assert all[|first| + k][i] == Reading(group, value);
    }
  }

  /** Merging the levels of two epochs, which may have different numbers of channels: each channel of the first holds
      the largest of 0 and everything measured on it in either epoch, and all frames are counted. */
  lemma MergeCoversBoth(channels: nat, others: nat, first: seq<Frame>, second: seq<Frame>)
    requires FramesFit(channels, first) && FramesFit(others, second)
    ensures IsMaximumOver(Merge(Epoch(channels, first), Epoch(others, second)), channels, first + second)
  {
    hide Epoch;
    var l, m := Epoch(channels, first), Epoch(others, second);
    EpochIsMaximum(channels, first);
    EpochIsMaximum(others, second);
    var joined, all := Merge(l, m), first + second;
    forall g | 0 <= g < channels && joined.signal[g] != 0.0
      ensures Measured(all, g, joined.signal[g])
    {
      MeasuredInPart(first, second, g, joined.signal[g]);
    }
    forall k, i | 0 <= k < |all| && 0 <= i < |all[k]| && all[k][i].group < channels
      ensures all[k][i].value <= joined.signal[all[k][i].group]
    {
      if k >= |first| {
        assert all[k] == second[k - |first|];
      }
    }
  }

  /** Merging the levels of two consecutive epochs gives the levels of the joined epoch. */
  lemma MergeJoinsEpochs(channels: nat, first: seq<Frame>, second: seq<Frame>)
    requires FramesFit(channels, first) && FramesFit(channels, second)
    ensures FramesFit(channels, first + second)
    ensures Merge(Epoch(channels, first), Epoch(channels, second)) == Epoch(channels, first + second)
  {
    hide Epoch, Merge, IsMaximumOver;
    MergeCoversBoth(channels, channels, first, second);
    EpochIsMaximum(channels, first + second);
    MaximumIsUnique(Merge(Epoch(channels, first), Epoch(channels, second)), Epoch(channels, first + second),
                    channels, first + second);
  }

  /** The object that the processor updates in place. */
  class DynamicProcessorLevels {
    var signalSquare: array<real>
    var channels: nat
    var count: nat

    ghost predicate Valid()
      reads this
    {
      channels <= signalSquare.Length
    }

    ghost function View(): Levels
      reads this, signalSquare
      requires Valid()
    {
      Levels(signalSquare[..channels], count)
    }

    constructor (groups: nat, capacity: nat)
      requires groups < capacity
      ensures Valid() && fresh(signalSquare) && channels == groups + 1 && View().count == 0
    {
      signalSquare := new real[capacity];
      channels := groups + 1;
      count := 0;
    }

    method AddValues(group: nat, signal: real)
      requires Valid() && group < channels
      modifies signalSquare
      ensures View() == AddValue(old(View()), Reading(group, signal))
    {
      signalSquare[group] := Max(signalSquare[group], signal);
    }

    method Next()
      requires Valid()
      modifies this`count
      ensures View() == old(View()).(count := old(View()).count + 1)
    {
      count := count + 1;
    }

    method Reset()
      requires Valid()
      modifies this`count, signalSquare
      ensures View() == Zero(channels)
    {
      for limiter := 0 to channels
        invariant forall i | 0 <= i < limiter :: signalSquare[i] == 0.0
      {
        signalSquare[limiter] := 0.0;
      }
      count := 0;
    }

    /** operator+= of the source. */
    method Add(levels: DynamicProcessorLevels)
      requires Valid() && levels.Valid() && levels != this && levels.signalSquare != signalSquare
      modifies this`count, signalSquare
      ensures View() == Merge(old(View()), old(levels.View()))
    {
      var common := if channels < levels.channels then channels else levels.channels;
      for i := 0 to common
        invariant count == old(count)
        invariant forall j | 0 <= j < i :: signalSquare[j] == Max(old(signalSquare[j]), old(levels.signalSquare[j]))
        invariant forall j | i <= j < signalSquare.Length :: signalSquare[j] == old(signalSquare[j])
      {
        signalSquare[i] := Max(signalSquare[i], levels.signalSquare[i]);
      }
      count := count + levels.count;
      assert View().signal == Merge(old(View()), old(levels.View())).signal;
    }

    /** All readings of one frame followed by next(), as the processor does per frame. */
    method ProcessFrame(frame: Frame)
      requires Valid() && FrameFits(channels, frame)
      modifies this`count, signalSquare
      ensures View() == AddFrame(old(View()), frame)
    {
      for i := 0 to |frame|
        invariant View() == AddReadings(old(View()), frame[..i])
      {
        AddValues(frame[i].group, frame[i].value);
        assert frame[..i + 1][..i] == frame[..i];
      }
      assert frame[..|frame|] == frame;
      Next();
    }
  }
}
