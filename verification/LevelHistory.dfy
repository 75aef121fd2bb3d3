/** The web server's ring of the last 128 level measurements, written backwards and read forwards. */
module LevelHistory {
  import opened Levels

  const SIZE: nat := 128
  const WRAP: nat := 0x1_0000_0000_0000_0000

  datatype Entry = Entry(levels: Levels, isSet: bool, stamp: int)

  /** Place in the ring, `k` steps after `at`. */
  function Place(at: nat, k: nat): (p: nat)
    ensures p < SIZE
  {
    (at + k) % SIZE
  }

  /** How many of the entries behind the newest are merged, newest first: they are in use, newer than the stamp, and
      in the ring. */
  function Merged(puts: seq<Entry>, stamp: int, from: nat): (n: nat)
    requires from <= |puts|
    ensures from <= n <= |puts| && (n <= SIZE || n == from)
    decreases |puts| - from
  {
    if from < |puts| && from < SIZE && puts[from].stamp > stamp then Merged(puts, stamp, from + 1) else from
  }

  function MergeAll(puts: seq<Entry>): Levels
    requires puts != []
  {
    if |puts| == 1 then puts[0].levels
    else Merge(MergeAll(puts[..|puts| - 1]), puts[|puts| - 1].levels)
  }

  /** How many of the newest entries a reader gets. */
  function Covered(puts: seq<Entry>, stamp: int): (n: nat)
    requires puts != []
    ensures 1 <= n <= |puts| && n <= SIZE
  {
    if stamp <= 0 then 1 else Merged(puts, stamp, 1)
  }

  /** Stamps never run backwards; `puts` has the newest first. */
  ghost predicate Ordered(puts: seq<Entry>) {
    forall i, j | 0 <= i < j < |puts| :: puts[i].stamp >= puts[j].stamp
  }

  /** With ordered stamps the entries merged are exactly the ones newer than the stamp, as far back as the ring goes. */
  lemma {:induction false} MergedIsNewer(puts: seq<Entry>, stamp: int, from: nat)
    requires Ordered(puts) && 1 <= from <= |puts|
    ensures forall k | from <= k < |puts| && k < SIZE :: puts[k].stamp > stamp <==> k < Merged(puts, stamp, from)
    decreases |puts| - from
  {
    if from < |puts| && from < SIZE && puts[from].stamp > stamp {
      MergedIsNewer(puts, stamp, from + 1);
    }
  }

  lemma CoveredIsNewer(puts: seq<Entry>, stamp: int)
    requires Ordered(puts) && puts != [] && stamp > 0
    ensures forall k | 1 <= k < |puts| :: k < Covered(puts, stamp) <==> k < 128 && puts[k].stamp > stamp
  {
    MergedIsNewer(puts, stamp, 1);
    var c := Covered(puts, stamp);
    assert c == Merged(puts, stamp, 1) <= SIZE;
    forall k | 1 <= k < |puts|
      ensures k < c <==> k < SIZE && puts[k].stamp > stamp
    {
      if k < SIZE {
        assert puts[k].stamp > stamp <==> k < Merged(puts, stamp, 1);
      }
    }
  }

  /** A second reading after the first, with the stamp the first one returned, covers exactly what was put in between
      if and only if something was put, the ring still has it all, and no entry behind the newest shares that stamp. */
  lemma NextReadingIsExact(puts: seq<Entry>, since: seq<Entry>)
    requires puts != [] && puts[0].stamp > 0 && Ordered(since + puts)
    ensures var exact := Covered(since + puts, puts[0].stamp) == |since|;
            exact <==> 0 < |since| <= SIZE && (|since| == 1 || since[|since| - 1].stamp > puts[0].stamp)
  {
    var all, n := since + puts, |since|;
    CoveredIsNewer(all, puts[0].stamp);
    assert all[n] == puts[0];
    if n > 0 {
      assert all[n - 1] == since[n - 1];
    }
  }

  /** When each entry holds the levels of its own frames, the merged entry holds those of all these frames: the count
      is their number, and each level the largest measured in any of them. */
  lemma {:induction false} MergeAllCoversFrames(puts: seq<Entry>, epochs: seq<seq<Frame>>, channels: nat)
    requires puts != [] && |epochs| == |puts|
    requires forall k | 0 <= k < |puts| :: FramesFit(channels, epochs[k])
    requires forall k | 0 <= k < |puts| :: puts[k].levels == Epoch(channels, epochs[k])
    ensures FramesFit(channels, AllFrames(epochs))
    ensures MergeAll(puts) == Epoch(channels, AllFrames(epochs))
    ensures IsMaximumOver(MergeAll(puts), channels, AllFrames(epochs))
  {
    hide Epoch, Merge, IsMaximumOver;
    var n := |puts| - 1;
    var earlier, last := AllFrames(epochs[..n]), epochs[n];
    if n == 0 {
      assert earlier == [] && AllFrames(epochs) == last;
    } else {
      MergeAllCoversFrames(puts[..n], epochs[..n], channels);
      MergeJoinsEpochs(channels, earlier, last);
    }
    EpochIsMaximum(channels, AllFrames(epochs));
  }

  lemma PlaceNext(at: nat, k: nat)
    ensures Place(at, k + 1) == (Place(at, k) + 1) % SIZE
    ensures at < SIZE ==> Place(at, 0) == at
  {
  }

  /** Every place before the next entry to be written, seen from there, is one further on. */
  lemma PlaceBefore(at: nat, k: nat)
    requires at < SIZE
    ensures Place((at + SIZE - 1) % SIZE, k + 1) == Place(at, k)
  {
  }

  lemma PlacesApart(at: nat, j: nat, k: nat)
    requires at < SIZE && j < k < SIZE
    ensures Place(at, j) != Place(at, k)
  {
  }

  /** The ring `entries`, read forwards from `wr`, has the newest of `puts` first and then entries never used. */
  ghost predicate Holds(entries: seq<Entry>, puts: seq<Entry>, wr: nat, k: nat)
    requires |entries| == SIZE
  {
    if k < |puts| then entries[Place(wr, k)] == puts[k] else !entries[Place(wr, k)].isSet
  }

  ghost predicate HoldsAll(entries: seq<Entry>, puts: seq<Entry>, wr: nat) {
    && |entries| == SIZE
    && (forall k | 0 <= k < SIZE :: Holds(entries, puts, wr, k))
    && (puts == [] ==> forall i | 0 <= i < SIZE :: !entries[i].isSet)
  }

  lemma PutHolds(entries: seq<Entry>, puts: seq<Entry>, wr: nat, at: nat, e: Entry)
    requires HoldsAll(entries, puts, wr) && (puts != [] ==> wr < SIZE)
    requires at < SIZE && (wr < SIZE ==> at == (wr + SIZE - 1) % SIZE)
    ensures HoldsAll(entries[at := e], [e] + puts, at)
  {
    hide Place;
    var entries', puts' := entries[at := e], [e] + puts;
    forall k | 0 <= k < SIZE
      ensures Holds(entries', puts', at, k)
    {
      PlaceNext(at, 0);
      if k > 0 {
        PlacesApart(at, 0, k);
        if puts != [] {
          PlaceBefore(wr, k - 1);
          assert Holds(entries, puts, wr, k - 1);
        }
      }
    }
  }

  class LevelEntryBuffer {
    const entries: array<Entry>
    var wr: nat
    /** Everything put, newest first. */
    ghost var puts: seq<Entry>

    ghost predicate Valid()
      reads this, entries
    {
      && entries.Length == SIZE && wr < WRAP
      && (puts != [] ==> wr < SIZE)
      && (forall k | 0 <= k < |puts| :: puts[k].isSet)
      && HoldsAll(entries[..], puts, wr)
    }

    /** The write position is not initialised by the source: `anywhere` stands for whatever it is. */
    constructor (blank: Entry, anywhere: nat)
      requires !blank.isSet && anywhere < WRAP
      ensures Valid() && puts == []
    {
      entries := new Entry[SIZE](_ => blank);
      wr := anywhere;
      puts := [];
    }

    method Put(levels: Levels, now: int)
      requires Valid()
      modifies this`wr, this`puts, entries
      ensures Valid() && puts == [Entry(levels, true, now)] + old(puts)
    {
      ghost var before, was := entries[..], wr;
      wr := (wr + SIZE - 1) % WRAP % SIZE;
      entries[wr] := Entry(levels, true, now);
      PutHolds(before, puts, was, wr, entries[wr]);
      assert entries[..] == before[wr := entries[wr]];
      puts := [entries[wr]] + puts;
    }

    /** The newest entry, merged with all newer than the stamp that the ring still has. */
    method Get(lastChecked: int) returns (target: Entry)
      requires Valid() && wr < SIZE
      ensures puts == [] ==> !target.isSet
      ensures puts != [] && lastChecked <= 0 ==> target == puts[0]
      ensures puts != [] ==>
          target == puts[0].(levels := MergeAll(puts[..Covered(puts, lastChecked)]))
    {
      assert Holds(entries[..], puts, wr, 0);
      PlaceNext(wr, 0);
      target := entries[wr];
      if puts != [] {
        assert puts[..1] == [puts[0]];
      }
      if lastChecked <= 0 {
        return;
      }
      var read := (wr + 1) % SIZE;
      var entry := entries[read];
      ghost var k := 1;
      while read != wr && entry.isSet && entry.stamp > lastChecked
        invariant 1 <= k <= SIZE && read == Place(wr, k) && entry == entries[read]
        invariant puts == [] ==> k == 1 && !target.isSet
        invariant puts != [] ==> k <= |puts| && target == puts[0].(levels := MergeAll(puts[..k]))
        invariant puts != [] ==> Merged(puts, lastChecked, 1) == Merged(puts, lastChecked, k)
        decreases SIZE - k
      {
        PlaceWhole(wr, k);
        assert Holds(entries[..], puts, wr, k);
        target := target.(levels := Merge(target.levels, entry.levels));
        PlaceNext(wr, k);
        read := (read + 1) % SIZE;
        entry := entries[read];
        assert puts[..k + 1][..k] == puts[..k];
        k := k + 1;
      }
      PlaceWhole(wr, k);
      if k < SIZE {
        assert Holds(entries[..], puts, wr, k);
      }
    }
  }

  lemma PlaceWhole(at: nat, k: nat)
    requires at < SIZE && 1 <= k <= SIZE
    ensures Place(at, k) == at <==> k == SIZE
  {
  }
}
