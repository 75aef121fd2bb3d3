/** Delay lines of several channels that share one buffer. */
module Delay {
  import opened Arithmetic

  /** Element of channel c in slot k, when every slot has one element per channel. */
  function Pos(channels: nat, c: nat, k: nat): nat {
    ProductOfNaturals(channels, k);
    c + channels * k
  }

  lemma PosIsInjective(channels: nat, c: nat, k: nat, c': nat, k': nat)
    requires c < channels && c' < channels && Pos(channels, c, k) == Pos(channels, c', k')
    ensures c == c' && k == k'
  {
    DivModUnique(Pos(channels, c, k), channels, k, c);
    DivModUnique(Pos(channels, c', k'), channels, k', c');
  }

  lemma PosBelow(channels: nat, c: nat, k: nat, slots: nat)
    requires c < channels && k < slots
    ensures Pos(channels, c, k) < channels * slots
  {
    ProductMonotone(k + 1, slots, channels);
    assert channels * k + channels == (k + 1) * channels;
  }

  /** The slot `j` places after `slot` on a ring. */
  function Ahead(slot: nat, j: nat, ring: nat): (k: nat)
    requires slot < ring && j <= ring
    ensures k < ring
  {
    if slot + j < ring then slot + j else slot + j - ring
  }

  lemma PosIs(channels: nat, c: nat, k: nat)
    ensures Pos(channels, c, k) == c + channels * k == c + k * channels
  {
  }

  /** Sample i of a history, silence outside of it. */
  function At(h: seq<real>, i: int): real {
    if 0 <= i < |h| then h[i] else 0.0
  }

  /** A channel's newest `delay` samples lie in the slots from `slot` on, around a ring of `ring` slots. */
  ghost predicate Line(
      buffer: seq<real>, channels: nat, c: nat, ring: nat, delay: nat, slot: nat, h: seq<real>)
  {
    && c < channels && slot < ring && delay < ring
    && channels * ring <= |buffer|
    && forall j | 0 <= j < delay ::
         Pos(channels, c, Ahead(slot, j, ring)) < |buffer|
         && buffer[Pos(channels, c, Ahead(slot, j, ring))] == At(h, |h| - delay + j)
  }

  /** Writing the newest sample `delay` slots ahead: the current slot then holds the sample from `delay` steps ago, and
      the line starts one slot further. */
  lemma LineAdvances(
      buffer: seq<real>, channels: nat, c: nat, ring: nat, delay: nat, slot: nat, h: seq<real>, v: real)
    requires Line(buffer, channels, c, ring, delay, slot, h)
    ensures Pos(channels, c, Ahead(slot, delay, ring)) < |buffer| && Pos(channels, c, slot) < |buffer|
    ensures var after := buffer[Pos(channels, c, Ahead(slot, delay, ring)) := v];
            && after[Pos(channels, c, slot)] == At(h + [v], |h| - delay)
            && Line(after, channels, c, ring, delay, Ahead(slot, 1, ring), h + [v])
  {
    hide Pos;
    var to, next := Ahead(slot, delay, ring), Ahead(slot, 1, ring);
    PosBelow(channels, c, to, ring);
    PosBelow(channels, c, slot, ring);
    var at := Pos(channels, c, to);
    var after := buffer[at := v];
    if delay > 0 {
      assert Ahead(slot, 0, ring) == slot;
      if Pos(channels, c, slot) == at {
        PosIsInjective(channels, c, slot, c, to);
      }
    }
    forall j | 0 <= j < delay
      ensures Pos(channels, c, Ahead(next, j, ring)) < |after|
      ensures after[Pos(channels, c, Ahead(next, j, ring))] == At(h + [v], |h + [v]| - delay + j)
    {
      var k := Ahead(next, j, ring);
      assert k == Ahead(slot, j + 1, ring);
      PosBelow(channels, c, k, ring);
      if j + 1 < delay && Pos(channels, c, k) == at {
        PosIsInjective(channels, c, k, c, to);
      }
    }
  }

  /** Channels do not disturb each other, whatever their delays. */
  lemma OtherLineUnchanged(
      buffer: seq<real>, channels: nat, c: nat, ring: nat, delay: nat, slot: nat, h: seq<real>,
      c': nat, k': nat, v: real)
    requires Line(buffer, channels, c, ring, delay, slot, h) && c' < channels && c' != c
    requires Pos(channels, c', k') < |buffer|
    ensures Line(buffer[Pos(channels, c', k') := v], channels, c, ring, delay, slot, h)
  {
    hide Pos;
    forall j | 0 <= j < delay
      ensures Pos(channels, c, Ahead(slot, j, ring)) != Pos(channels, c', k')
    {
      if Pos(channels, c, Ahead(slot, j, ring)) == Pos(channels, c', k') {
        PosIsInjective(channels, c, Ahead(slot, j, ring), c', k');
      }
    }
  }

  lemma SilentLine(buffer: seq<real>, channels: nat, c: nat, ring: nat, delay: nat)
    requires c < channels && delay < ring && channels * ring <= |buffer|
    requires forall i | 0 <= i < |buffer| :: buffer[i] == 0.0
    ensures Line(buffer, channels, c, ring, delay, 0, [])
  {
    hide Pos;
    forall j | 0 <= j < delay
      ensures Pos(channels, c, Ahead(0, j, ring)) < |buffer|
    {
      PosBelow(channels, c, j, ring);
    }
  }

  /** (index + channels) % end, on a ring of delay + 1 slots. */
  lemma PosNext(channels: nat, c: nat, k: nat, slots: nat)
    requires c < channels && k < slots
    ensures channels * slots > 0
    ensures (Pos(channels, c, k) + channels) % (channels * slots) == Pos(channels, c, Ahead(k, 1, slots))
  {
    var end := channels * slots;
    PosBelow(channels, c, k, slots);
    if k + 1 < slots {
      PosBelow(channels, c, k + 1, slots);
      DivModUnique(Pos(channels, c, k) + channels, end, 0, Pos(channels, c, k + 1));
    } else {
      ProductMonotone(1, slots, channels);
      DivModUnique(Pos(channels, c, k) + channels, end, 1, c);
    }
  }

  // ---------- Every channel with a delay of its own ----------

  class MultiChannelAndTimeDelay {
    const channels: nat
    const maxDelay: nat
    const buffer: array<real>
    const read: array<nat>
    const write: array<nat>
    const end: array<nat>
    const delays: array<nat>
    ghost var steps: nat
    ghost var lines: seq<seq<real>>     // everything written to each channel
    ghost var slots: seq<nat>           // the slot that `read` points to

    ghost predicate Shape()
      reads this, read, write, end, delays
    {
      && read.Length == write.Length == end.Length == delays.Length == |lines| == |slots| == channels
      && read != write && read != end && read != delays && write != end && write != delays && end != delays
      && channels * (maxDelay + 1) <= buffer.Length
    }

    ghost predicate EntryOk(c: nat)
      reads this, read, write, end, delays
      requires Shape() && c < channels
    {
      && delays[c] <= maxDelay && slots[c] <= delays[c]
      && end[c] == channels * (delays[c] + 1)
      && read[c] == Pos(channels, c, slots[c])
      && write[c] == Pos(channels, c, Ahead(slots[c], delays[c], delays[c] + 1))
    }

    ghost predicate LineOk(c: nat)
      reads this, read, write, end, delays, buffer
      requires Shape() && c < channels
    {
      && slots[c] <= delays[c]
      && (|lines[c]| == steps || |lines[c]| == steps + 1)
      && Line(buffer[..], channels, c, delays[c] + 1, delays[c],
              if |lines[c]| == steps then slots[c] else Ahead(slots[c], 1, delays[c] + 1), lines[c])
    }

    ghost predicate Valid()
      reads this, read, write, end, delays, buffer
    {
      Shape() && forall c | 0 <= c < channels :: EntryOk(c) && LineOk(c)
    }

    /** Nothing was written yet. */
    ghost predicate Untouched()
      reads this, buffer
    {
      steps == 0 && (forall c | 0 <= c < |lines| :: lines[c] == [])
      && (forall c | 0 <= c < |slots| :: slots[c] == 0)
      && (forall i | 0 <= i < buffer.Length :: buffer[i] == 0.0)
    }

    constructor (maxChannels: nat, maxDelay: nat)
      requires maxChannels > 0 && maxDelay > 0
      ensures Valid() && Untouched() && channels == maxChannels && this.maxDelay == maxDelay
      ensures forall c | 0 <= c < channels :: delays[c] == 0
      ensures fresh(buffer) && fresh(read) && fresh(write) && fresh(end) && fresh(delays)
    {
      channels, this.maxDelay := maxChannels, maxDelay;
      ProductOfNaturals(maxChannels, maxDelay + 1);
      buffer := new real[maxChannels * (maxDelay + 1)](_ => 0.0);
      read := new nat[maxChannels](c => c);
      write := new nat[maxChannels](c => c);
      end := new nat[maxChannels](_ => maxChannels);
      delays := new nat[maxChannels](_ => 0);
      steps, lines, slots := 0, seq(maxChannels, _ => []), seq(maxChannels, _ => 0);
      new;
      forall c | 0 <= c < channels
        ensures EntryOk(c) && LineOk(c)
      {
        ProductMonotone(1, maxDelay + 1, channels);
        SilentLine(buffer[..], channels, c, 1, 0);
      }
    }

    /** Setting a delay before anything is written; the source refuses delays above the maximum. */
    method SetDelay(channel: nat, delay: nat) returns (ok: bool)
      requires Valid() && Untouched() && channel < channels
      modifies read, write, end, delays
      ensures Valid() && Untouched()
      ensures ok <==> delay <= maxDelay
      ensures delays[..] == if ok then old(delays[..])[channel := delay] else old(delays[..])
    {
      if delay > maxDelay {
        return false;
      }
      ok := true;
      hide Pos, Line;
      ProductOfNaturals(delay, channels);
      ProductMonotone(delay + 1, maxDelay + 1, channels);
      PosIs(channels, channel, 0);
      PosIs(channels, channel, delay);
      SilentLine(buffer[..], channels, channel, delay + 1, delay);
      read[channel] := channel;
      write[channel] := read[channel] + delay * channels;
      end[channel] := channels * (delay + 1);
      delays[channel] := delay;
      assert EntryOk(channel) && LineOk(channel);
      forall c | 0 <= c < channels && c != channel
        ensures EntryOk(c) && LineOk(c)
      {
        assert old(EntryOk(c) && LineOk(c));
      }
    }

    /** The output is the channel's own input from `delays[channel]` steps earlier, and silence before that. */
    method SetAndGet(channel: nat, value: real) returns (delayed: real)
      requires Valid() && channel < channels && |lines[channel]| == steps
      modifies this`lines, buffer
      ensures Valid() && lines == old(lines)[channel := old(lines[channel]) + [value]]
      ensures delayed == At(lines[channel], |lines[channel]| - 1 - delays[channel])
    {
      hide Pos, Line;
      ghost var before := buffer[..];
      ghost var h := lines[channel];
      assert EntryOk(channel) && LineOk(channel);
      LineAdvances(before, channels, channel, delays[channel] + 1, delays[channel], slots[channel], h, value);
      buffer[write[channel]] := value;
      assert buffer[..] == before[write[channel] := value];
      delayed := buffer[read[channel]];
      lines := lines[channel := h + [value]];
      forall c | 0 <= c < channels
        ensures EntryOk(c) && LineOk(c)
      {
        assert old(EntryOk(c) && LineOk(c));
        if c != channel {
          OtherLineUnchanged(before, channels, c, delays[c] + 1, delays[c],
                             if |lines[c]| == steps then slots[c] else Ahead(slots[c], 1, delays[c] + 1), lines[c],
                             channel, Ahead(slots[channel], delays[channel], delays[channel] + 1), value);
        }
      }
    }

    /** Entry.next of one channel. */
    method NextEntry(channel: nat)
      requires Shape() && channel < channels && EntryOk(channel)
      modifies this`slots, read, write
      ensures Shape() && EntryOk(channel)
      ensures slots == old(slots)[channel := Ahead(old(slots[channel]), 1, delays[channel] + 1)]
      ensures forall c | 0 <= c < channels && c != channel :: read[c] == old(read[c]) && write[c] == old(write[c])
    {
      hide Pos, Line;
      var ring := delays[channel] + 1;
      ghost var slot := slots[channel];
      PosNext(channels, channel, slot, ring);
      PosNext(channels, channel, Ahead(slot, delays[channel], ring), ring);
      read[channel] := (read[channel] + channels) % end[channel];
      write[channel] := (write[channel] + channels) % end[channel];
      slots := slots[channel := Ahead(slot, 1, ring)];
    }

    /** Ends a step in which every channel was written once. */
    method Next()
      requires Valid() && forall c | 0 <= c < channels :: |lines[c]| == steps + 1
      modifies this`steps, this`slots, read, write
      ensures Valid() && steps == old(steps) + 1
    {
      hide Pos, Line;
      forall c | 0 <= c < channels
        ensures slots[c] <= delays[c]
      {
        assert EntryOk(c);
      }
      for channel := 0 to channels
        invariant Shape() && steps == old(steps)
        invariant forall c | 0 <= c < channels :: old(slots[c]) <= delays[c]
        invariant forall c | 0 <= c < channel :: slots[c] == Ahead(old(slots[c]), 1, delays[c] + 1)
        invariant forall c | channel <= c < channels :: slots[c] == old(slots[c])
        invariant forall c | 0 <= c < channels :: EntryOk(c)
      {
        label before:
        NextEntry(channel);
        forall c | 0 <= c < channels
          ensures EntryOk(c)
        {
          assert old@before(EntryOk(c));
        }
      }
      label moved:
      steps := steps + 1;
      forall c | 0 <= c < channels
        ensures EntryOk(c) && LineOk(c)
      {
        assert old@moved(EntryOk(c));
        assert old(LineOk(c));
        assert slots[c] == Ahead(old(slots[c]), 1, delays[c] + 1);
      }
    }
  }

  // ---------- One delay for all channels ----------

  /** An offset of MultiChannelDelay that starts at `from`, after n calls of next: it wraps only past the end. */
  function OffsetAfter(channels: nat, delay: nat, from: nat, n: nat): int {
    if n == 0 then from
    else
      var w := OffsetAfter(channels, delay, from, n - 1) + channels;
      if w > channels * (delay + 1) then 0 else w
  }

  /** Where reading and writing start. */
  function ReadOffset(channels: nat, delay: nat, n: nat): int { OffsetAfter(channels, delay, 0, n) }

  function WriteOffset(channels: nat, delay: nat, n: nat): int { OffsetAfter(channels, delay, channels * delay, n) }

  lemma {:induction false} OffsetOnRing(channels: nat, delay: nat, slot: nat, n: nat) returns (k: nat)
    requires channels > 0 && slot <= delay + 1
    ensures k <= delay + 1 && OffsetAfter(channels, delay, Pos(channels, 0, slot), n) == Pos(channels, 0, k)
  {
    if n == 0 {
      k := slot;
    } else {
      var m := OffsetOnRing(channels, delay, slot, n - 1);
      PosIs(channels, 0, m + 1);
      PosIs(channels, 0, m);
      assert channels * (m + 1) == channels * m + channels;
      k := StepPastEnd(channels, delay, m);
    }
  }

  lemma OffsetInside(channels: nat, delay: nat, slot: nat, n: nat, size: nat)
    requires channels > 0 && slot <= delay + 1 && channels * (delay + 2) <= size
    ensures OffsetAfter(channels, delay, Pos(channels, 0, slot), n) + channels <= size
  {
    var k := OffsetOnRing(channels, delay, slot, n);
    PosIs(channels, 0, k);
    ProductMonotone(k, delay + 1, channels);
    assert channels * (delay + 2) == channels * (delay + 1) + channels;
  }

  /** Where a step from slot m leads when the offset wraps only past the end. */
  lemma StepPastEnd(channels: nat, delay: nat, m: nat) returns (k: nat)
    requires channels > 0 && m <= delay + 1
    ensures var w := Pos(channels, 0, m) + channels;
            k == Ahead(m, 1, delay + 2) && Pos(channels, 0, k) == if w > channels * (delay + 1) then 0 else w
  {
    k := Ahead(m, 1, delay + 2);
    PosIs(channels, 0, m);
    PosIs(channels, 0, k);
    if m <= delay {
      ProductMonotone(m + 1, delay + 1, channels);
      assert channels * (m + 1) == channels * m + channels;
    } else {
      assert channels * (delay + 1) == channels * m;
    }
  }

  /** The frame that step n reads and the frame that it writes both lie inside a buffer of `size` samples. */
  predicate StepInside(channels: nat, delay: nat, n: nat, size: nat) {
    && 0 <= ReadOffset(channels, delay, n) && ReadOffset(channels, delay, n) + channels <= size
    && 0 <= WriteOffset(channels, delay, n) && WriteOffset(channels, delay, n) + channels <= size
  }

  /** The ring has delay + 2 slots, so all reads and writes of all steps stay inside the buffer exactly when those
      fit. */
  lemma OffsetsFitIff(channels: nat, delay: nat, size: nat)
    requires channels > 0
    ensures (forall n: nat :: StepInside(channels, delay, n, size)) <==> channels * (delay + 2) <= size
  {
    if channels * (delay + 2) <= size {
      forall n: nat
        ensures StepInside(channels, delay, n, size)
      {
        PosIs(channels, 0, 0);
        PosIs(channels, 0, delay);
        OffsetInside(channels, delay, 0, n, size);
        OffsetInside(channels, delay, delay, n, size);
        var r := OffsetOnRing(channels, delay, 0, n);
        var w := OffsetOnRing(channels, delay, delay, n);
      }
    }
    if forall n: nat :: StepInside(channels, delay, n, size) {
      var last := channels * (delay + 1);
      assert StepInside(channels, delay, 1, size);
      assert WriteOffset(channels, delay, 1) == last by {
        assert OffsetAfter(channels, delay, channels * delay, 0) == channels * delay;
        assert channels * delay + channels == last;
      }
      assert channels * (delay + 2) == last + channels;
    }
  }

  /** With all channels in use, the buffer that the constructor allocates is large enough exactly for delays below the
      maximum, although setDelay also accepts the maximum itself. */
  lemma FitsIffBelowMaximum(channels: nat, delay: nat, maxDelay: nat)
    requires channels > 0 && delay <= maxDelay
    ensures channels * (delay + 2) <= channels * (maxDelay + 1) <==> delay < maxDelay
  {
    if delay < maxDelay {
      ProductMonotone(delay + 2, maxDelay + 1, channels);
    } else {
      assert channels * (delay + 2) == channels * (maxDelay + 1) + channels;
    }
  }

  class MultiChannelDelay {
    const buffer: array<real>
    const maxChannels: nat
    const maxDelay: nat
    var read: nat
    var write: nat
    var channels: nat
    var delay: nat
    var end: nat
    ghost var steps: nat
    ghost var lines: seq<seq<real>>
    ghost var slot: nat

    ghost predicate Shape()
      reads this
    {
      && 0 < channels <= maxChannels && delay <= maxDelay && |lines| == channels
      && maxChannels * (maxDelay + 1) <= buffer.Length
      && end == channels * (delay + 1)
      && slot < delay + 2
      && read == Pos(channels, 0, slot) && write == Pos(channels, 0, Ahead(slot, delay, delay + 2))
      && read == ReadOffset(channels, delay, steps) && write == WriteOffset(channels, delay, steps)
    }

    /** The ring fits: true for every delay below the maximum, and for the maximum when channels are left unused. */
    ghost predicate Fits()
      reads this
    {
      channels * (delay + 2) <= buffer.Length
    }

    ghost predicate LineOk(c: nat)
      reads this, buffer
      requires Shape() && c < channels
    {
      && (|lines[c]| == steps || |lines[c]| == steps + 1)
      && Line(buffer[..], channels, c, delay + 2, delay,
              if |lines[c]| == steps then slot else Ahead(slot, 1, delay + 2), lines[c])
    }

    ghost predicate Valid()
      reads this, buffer
    {
      Shape() && Fits() && forall c | 0 <= c < channels :: LineOk(c)
    }

    constructor (maxChannels: nat, maxDelay: nat)
      requires maxChannels > 0 && maxDelay > 0
      ensures Valid() && fresh(buffer) && channels == maxChannels && delay == 0 && this.maxDelay == maxDelay
      ensures this.maxChannels == maxChannels && buffer.Length == maxChannels * (maxDelay + 1)
      ensures forall c | 0 <= c < channels :: lines[c] == []
    {
      this.maxChannels, this.maxDelay := maxChannels, maxDelay;
      ProductOfNaturals(maxChannels, maxDelay + 1);
      buffer := new real[maxChannels * (maxDelay + 1)](_ => 0.0);
      read, write, channels, delay, end := 0, 0, maxChannels, 0, maxChannels;
      steps, slot, lines := 0, 0, seq(maxChannels, _ => []);
      new;
      hide Pos, Line;
      PosIs(channels, 0, 0);
      FitsIffBelowMaximum(maxChannels, 0, maxDelay);
      forall c | 0 <= c < channels
        ensures LineOk(c)
      {
        SilentLine(buffer[..], channels, c, 2, 0);
      }
    }

    /** setMetrics: zeroes the buffer and restarts the lines. */
    method SetMetrics(newChannels: nat, newDelay: nat)
      requires maxChannels * (maxDelay + 1) <= buffer.Length
      requires 0 < newChannels <= maxChannels && newDelay <= maxDelay
      modifies this, buffer
      ensures Shape() && channels == newChannels && delay == newDelay
      ensures Fits() ==> Valid()
      ensures forall c | 0 <= c < channels :: lines[c] == []
    {
      hide Pos, Line;
      for i := 0 to buffer.Length
        invariant forall j | 0 <= j < i :: buffer[j] == 0.0
      {
        buffer[i] := 0.0;
      }
      ProductOfNaturals(newChannels, newDelay);
      PosIs(newChannels, 0, 0);
      PosIs(newChannels, 0, newDelay);
      channels := newChannels;
      delay := newDelay;
      read := 0;
      write := channels * delay;
      end := channels * (delay + 1);
      steps, slot, lines := 0, 0, seq(newChannels, _ => []);
      if Fits() {
        forall c | 0 <= c < channels
          ensures LineOk(c)
        {
          SilentLine(buffer[..], channels, c, delay + 2, delay);
        }
      }
    }

    /** setDelay: refuses delays above the maximum. The lines are usable afterwards when the ring fits. */
    method SetDelay(newDelay: nat) returns (ok: bool)
      requires Valid()
      modifies this, buffer
      ensures ok <==> newDelay <= maxDelay
      ensures !ok ==> Valid() && lines == old(lines) && delay == old(delay)
      ensures ok ==> Shape() && channels == old(channels) && delay == newDelay && (Fits() ==> Valid())
      ensures ok ==> forall c | 0 <= c < channels :: lines[c] == []
    {
      ok := newDelay <= maxDelay;
      if ok {
        SetMetrics(channels, newDelay);
      }
    }

    /** The output is the channel's input from `delay` steps earlier, and silence before that. */
    method SetAndGet(channel: nat, value: real) returns (delayed: real)
      requires Valid() && channel < channels && |lines[channel]| == steps
      modifies this`lines, buffer
      ensures Valid() && lines == old(lines)[channel := old(lines[channel]) + [value]]
      ensures delayed == At(lines[channel], |lines[channel]| - 1 - delay)
    {
      hide Line;
      ghost var before, h, to := buffer[..], lines[channel], Ahead(slot, delay, delay + 2);
      assert LineOk(channel);
      LineAdvances(before, channels, channel, delay + 2, delay, slot, h, value);
      assert write + channel == Pos(channels, channel, to) && read + channel == Pos(channels, channel, slot);
      hide Pos;
      buffer[write + channel] := value;
      assert buffer[..] == before[write + channel := value];
      delayed := buffer[read + channel];
      lines := lines[channel := h + [value]];
      forall c | 0 <= c < channels
        ensures LineOk(c)
      {
        assert old(LineOk(c));
        if c != channel {
          OtherLineUnchanged(before, channels, c, delay + 2, delay,
                             if |lines[c]| == steps then slot else Ahead(slot, 1, delay + 2), lines[c],
                             channel, to, value);
        }
      }
    }

    method Next()
      requires Valid() && forall c | 0 <= c < channels :: |lines[c]| == steps + 1
      modifies this`steps, this`slot, this`read, this`write
      ensures Valid() && steps == old(steps) + 1
    {
      hide Pos, Line;
      var _ := StepPastEnd(channels, delay, slot);
      var _ := StepPastEnd(channels, delay, Ahead(slot, delay, delay + 2));
      write := write + channels;
      if write > end {
        write := 0;
      }
      read := read + channels;
      if read > end {
        read := 0;
      }
      slot := Ahead(slot, 1, delay + 2);
      steps := steps + 1;
      forall c | 0 <= c < channels
        ensures LineOk(c)
      {
        assert old(LineOk(c));
      }
    }
  }
}
