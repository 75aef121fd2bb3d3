/** The table of managed threads: 128 slots, numbers that wrap, scans that stop early. */
module ThreadTable {

  const SLOTS: nat := 128
  const WRAP: nat := 0x1_0000_0000_0000_0000

  /** A slot holds a thread number, or 0 when it is free. */
  function Occupied(ids: seq<nat>): (n: nat)
    ensures n <= |ids|
  {
    if ids == [] then 0
    else Occupied(ids[..|ids| - 1]) + (if ids[|ids| - 1] != 0 then 1 else 0)
  }

  ghost predicate Distinct(ids: seq<nat>) {
    forall i, j | 0 <= i < j < |ids| && ids[i] != 0 :: ids[i] != ids[j]
  }

  ghost function Numbers(ids: seq<nat>): set<nat> {
    set i | 0 <= i < |ids| && ids[i] != 0 :: ids[i]
  }

  /** The number reached from `start` by `k` wrapping increments. */
  function Counted(start: nat, k: nat): (n: nat)
    ensures n < WRAP
  {
    (start + k) % WRAP
  }

  predicate Fresh(ids: seq<nat>, number: nat) {
    number != 0 && number !in ids
  }

  lemma {:induction false} OccupiedMonotone(ids: seq<nat>, k: nat)
    requires k <= |ids|
    ensures Occupied(ids[..k]) <= Occupied(ids)
    ensures Occupied(ids[..k]) == Occupied(ids) ==> forall i | k <= i < |ids| :: ids[i] == 0
    decreases |ids|
  {
    if k < |ids| {
      var rest := ids[..|ids| - 1];
      OccupiedMonotone(rest, k);
      assert rest[..k] == ids[..k];
      assert forall i | 0 <= i < |rest| :: ids[i] == rest[i];
    } else {
      assert ids[..k] == ids;
    }
  }

  lemma OccupiedStep(ids: seq<nat>, k: nat)
    requires k < |ids|
    ensures Occupied(ids[..k + 1]) == Occupied(ids[..k]) + (if ids[k] != 0 then 1 else 0)
  {
    assert ids[..k + 1][..k] == ids[..k];
  }

  /** Writing one slot changes the number of occupied ones by that slot alone. */
  lemma {:induction false} OccupiedUpdate(ids: seq<nat>, slot: nat, id: nat)
    requires slot < |ids|
    ensures Occupied(ids[slot := id]) + (if ids[slot] != 0 then 1 else 0) == Occupied(ids) + (if id != 0 then 1 else 0)
    decreases |ids|
  {
    var n := |ids| - 1;
    var other := ids[slot := id];
    if slot < n {
      OccupiedUpdate(ids[..n], slot, id);
      assert other[..n] == ids[..n][slot := id];
    } else {
      assert other[..n] == ids[..n];
    }
  }

  /** A table is full exactly when no slot is free. */
  lemma {:induction false} FullIffNoneFree(ids: seq<nat>)
    ensures Occupied(ids) == |ids| <==> 0 !in ids
  {
    if ids != [] {
      var rest := ids[..|ids| - 1];
      FullIffNoneFree(rest);
      assert ids == rest + [ids[|ids| - 1]];
    }
  }

  /** The occupied count is the number of different thread numbers in use. */
  lemma {:induction false} CountIsNumbers(ids: seq<nat>)
    requires Distinct(ids)
    ensures |Numbers(ids)| == Occupied(ids)
  {
    if ids != [] {
      var n := |ids| - 1;
      var rest, id := ids[..n], ids[n];
      CountIsNumbers(rest);
      assert ids == rest + [id];
      NumbersGrow(rest, id);
    }
  }

  lemma NumbersGrow(rest: seq<nat>, id: nat)
    ensures Numbers(rest + [id]) == if id == 0 then Numbers(rest) else Numbers(rest) + {id}
  {
    var ids := rest + [id];
    forall x | x in Numbers(rest)
      ensures x in Numbers(ids)
    {
      var i :| 0 <= i < |rest| && rest[i] == x && rest[i] != 0;
      assert ids[i] == x;
    }
    assert id != 0 ==> ids[|rest|] in Numbers(ids);
  }

  lemma CountedApart(start: nat, j: nat, k: nat)
    requires j < k < j + WRAP
    ensures Counted(start, j) != Counted(start, k)
  {
    var a, b := start + j, start + k;
    assert a == WRAP * (a / WRAP) + a % WRAP && b == WRAP * (b / WRAP) + b % WRAP;
  }

  lemma CountedNext(start: nat, k: nat)
    ensures Counted(start, k + 1) == (Counted(start, k) + 1) % WRAP
    ensures start < WRAP ==> Counted(start, 0) == start
  {
  }

  /** Numbers the search can run into: zero and those in use. */
  ghost function Taken(ids: seq<nat>): set<nat> { Numbers(ids) + {0} }

  lemma TakenOrFresh(ids: seq<nat>, number: nat)
    ensures number in Taken(ids) <==> !Fresh(ids, number)
  {
    if number != 0 && number in ids {
      var i :| 0 <= i < |ids| && ids[i] == number;
    }
  }

  /** Pigeonhole: numbers passed over so far are different taken numbers, so there are no more of them than that. */
  lemma {:induction false} PassedAreTaken(ids: seq<nat>, start: nat, k: nat)
    requires k < WRAP && forall j | 1 <= j <= k :: !Fresh(ids, Counted(start, j))
    ensures k <= |Taken(ids)|
  {
    var passed := set j | 1 <= j <= k :: Counted(start, j);
    DistinctCount(start, k);
    forall x | x in passed
      ensures x in Taken(ids)
    {
      var j :| 1 <= j <= k && x == Counted(start, j);
      TakenOrFresh(ids, x);
    }
    SubsetSize(passed, Taken(ids));
  }

  lemma {:induction false} DistinctCount(start: nat, k: nat)
    requires k < WRAP
    ensures |set j | 1 <= j <= k :: Counted(start, j)| == k
  {
    if k > 0 {
      DistinctCount(start, k - 1);
      var before, all := set j | 1 <= j <= k - 1 :: Counted(start, j), set j | 1 <= j <= k :: Counted(start, j);
      assert Counted(start, k) !in before by {
        forall j | 1 <= j <= k - 1 ensures Counted(start, j) != Counted(start, k) {
          CountedApart(start, j, k);
        }
      }
      assert all == before + {Counted(start, k)};
    }
  }

  lemma {:induction false} SubsetSize(a: set<nat>, b: set<nat>)
    requires a <= b
    ensures |a| <= |b|
  {
    if a != {} {
      var x :| x in a;
      SubsetSize(a - {x}, b - {x});
    }
  }

  /** Wherever the counter stands, one of the next numbers is fresh: 0 and those in use cannot fill more. */
  lemma FreshIsNear(ids: seq<nat>, start: nat)
    requires |ids| == SLOTS && Distinct(ids)
    ensures exists k :: 1 <= k <= Occupied(ids) + 2 && Fresh(ids, Counted(start, k))
  {
    CountIsNumbers(ids);
    var k := Occupied(ids) + 2;
    if forall j | 1 <= j <= k :: !Fresh(ids, Counted(start, j)) {
      PassedAreTaken(ids, start, k);
      assert false;
    }
  }

  /** Numbers between the counter and the number found, going up and round once, are all taken. */
  ghost predicate FirstFresh(ids: seq<nat>, counter: nat, number: nat) {
    && Fresh(ids, number)
    && (number > counter ==> forall m | counter < m < number :: !Fresh(ids, m))
    && (number <= counter ==>
          (forall m | counter < m < WRAP :: !Fresh(ids, m)) && (forall m | 0 <= m < number :: !Fresh(ids, m)))
  }

  lemma CountedAt(start: nat, k: nat)
    requires start < WRAP && k < WRAP
    ensures Counted(start, k) == if start + k < WRAP then start + k else start + k - WRAP
  {
  }

  lemma SearchFindsFirst(ids: seq<nat>, start: nat, k: nat)
    requires start < WRAP && 1 <= k < WRAP && Fresh(ids, Counted(start, k))
    requires forall j | 1 <= j < k :: !Fresh(ids, Counted(start, j))
    ensures FirstFresh(ids, start, Counted(start, k))
  {
    hide Fresh, Counted;
    var number := Counted(start, k);
    CountedAt(start, k);
    forall m | start < m < (if number > start then number else WRAP)
      ensures !Fresh(ids, m)
    {
      CountedAt(start, m - start);
    }
    if number <= start {
      forall m | 0 <= m < number
        ensures !Fresh(ids, m)
      {
        CountedAt(start, m + WRAP - start);
      }
    }
  }

  datatype Added = Added(id: nat) | TooMany

  class ThreadEntries {
    var active: nat
    var numbers: nat
    const entry: array<nat>

    ghost predicate Valid()
      reads this, entry
    {
      && entry.Length == SLOTS && numbers < WRAP
      && active == Occupied(entry[..])
      && Distinct(entry[..])
      && forall i | 0 <= i < entry.Length :: entry[i] < WRAP
    }

    constructor ()
      ensures Valid() && fresh(entry) && active == 0 && Numbers(entry[..]) == {}
    {
      active, numbers := 0, 0;
      entry := new nat[SLOTS](_ => 0);
      new;
      NoneOccupied(entry[..]);
    }

    /** The early-exit scan is exact. */
    method IsActiveNumber(number: nat) returns (found: bool)
      requires Valid()
      ensures found <==> !Fresh(entry[..], number)
    {
      if number == 0 {
        return true;
      }
      var seen, i := 0, 0;
      while i < SLOTS && seen < active
        invariant i <= SLOTS && seen == Occupied(entry[..i])
        invariant number !in entry[..i]
      {
        var id := entry[i];
        OccupiedStep(entry[..], i);
        assert entry[..][..i + 1] == entry[..i + 1] == entry[..i] + [id] && entry[..][..i] == entry[..i];
        if id == number {
          assert entry[..][i] == number;
          return true;
        } else if id != 0 {
          seen := seen + 1;
        }
        i := i + 1;
      }
      OccupiedMonotone(entry[..], i);
      assert entry[..][..i] == entry[..i];
      assert forall j | 0 <= j < i :: entry[j] == entry[..i][j];
      return false;
    }

    /** The next fresh number, found although the counter wraps and passes zero. */
    method NextNumber() returns (number: nat)
      requires Valid()
      modifies this`numbers
      ensures Valid() && numbers == number && Fresh(entry[..], number)
      ensures exists k :: 1 <= k <= active + 2 && number == Counted(old(numbers), k)
                          && forall j | 1 <= j < k :: !Fresh(entry[..], Counted(old(numbers), j))
      ensures FirstFresh(entry[..], old(numbers), number) && number < WRAP
    {
      hide Counted, Occupied, Distinct;
      ghost var start, k, ids := numbers, 1, entry[..];
      FreshIsNear(ids, start);
      ghost var last :| 1 <= last <= active + 2 && Fresh(ids, Counted(start, last));
      CountedNext(start, 0);
      numbers := (numbers + 1) % WRAP;
      number := numbers;
      var used := false;
      if number != 0 {
        used := IsActiveNumber(number);
      }
      while number == 0 || used
        invariant Valid() && entry[..] == ids && active == old(active)
        invariant number == numbers == Counted(start, k)
        invariant number != 0 ==> (used <==> !Fresh(ids, number))
        invariant 1 <= k <= last
        invariant forall j | 1 <= j < k :: !Fresh(ids, Counted(start, j))
        decreases last - k
      {
        CountedNext(start, k);
        numbers := (numbers + 1) % WRAP;
        number := numbers;
        k := k + 1;
        if number != 0 {
          used := IsActiveNumber(number);
        }
      }
      SearchFindsFirst(ids, start, k);
    }

    /** add_thread: the first free slot gets a fresh number, or there is none and nothing changes. */
    method AddThread() returns (r: Added)
      requires Valid()
      modifies this`numbers, this`active, entry
      ensures Valid()
      ensures r.TooMany? <==> 0 !in old(entry[..])
      ensures r.TooMany? ==> entry[..] == old(entry[..]) && numbers == old(numbers) && active == old(active)
      ensures r.Added? ==> FirstFresh(old(entry[..]), old(numbers), r.id) && numbers == r.id
      ensures r.Added? ==> exists slot :: 0 <= slot < SLOTS && entry[..] == old(entry[..])[slot := r.id]
                              && old(entry[..])[slot] == 0 && 0 !in old(entry[..])[..slot]
      ensures r.Added? ==> Numbers(entry[..]) == Numbers(old(entry[..])) + {r.id}
      ensures active == |Numbers(entry[..])|
    {
      ghost var ids := entry[..];
      FullIffNoneFree(ids);
      CountIsNumbers(ids);
      if active < SLOTS {
        var id := NextNumber();
        var slot := 0;
        while slot < SLOTS
          invariant slot <= SLOTS && entry[..] == ids && 0 !in ids[..slot]
        {
          if entry[slot] == 0 {
            assert ids[slot] == 0;
            entry[slot] := id;
            active := active + 1;
            assert entry[..] == ids[slot := id];
            Placed(ids, slot, id);
            return Added(id);
          }
          assert ids[..slot + 1] == ids[..slot] + [ids[slot]];
          slot := slot + 1;
        }
        assert false;
      }
      return TooMany;
    }

    /** remove_thread. For number 0 it would take a free slot for a match, and miscount: see the last clause. */
    method RemoveThread(id: nat) returns (found: bool)
      requires Valid()
      modifies this`active, entry
      ensures found <==> id in old(entry[..])
      ensures id != 0 ==> Numbers(entry[..]) == Numbers(old(entry[..])) - {id}
      ensures id != 0 ==> active == |Numbers(entry[..])|
      ensures !found ==> entry[..] == old(entry[..]) && active == old(active)
      ensures Valid() <==> id != 0 || 0 !in old(entry[..])
    {
      hide Occupied, Distinct;
      ghost var ids := entry[..];
      CountIsNumbers(ids);
      var slot := 0;
      while slot < SLOTS
        invariant slot <= SLOTS && entry[..] == ids && id !in ids[..slot]
      {
        if entry[slot] == id {
          assert ids[slot] == id;
          entry[slot] := 0;
          active := if active == 0 then WRAP - 1 else active - 1;
          assert entry[..] == ids[slot := 0];
          Cleared(ids, slot);
          return true;
        }
        assert ids[..slot + 1] == ids[..slot] + [ids[slot]];
        slot := slot + 1;
      }
      assert ids[..slot] == ids;
      assert id !in Numbers(ids);
      return false;
    }
  }

  lemma {:induction false} NoneOccupied(ids: seq<nat>)
    requires forall i | 0 <= i < |ids| :: ids[i] == 0
    ensures Occupied(ids) == 0
  {
    if ids != [] {
      NoneOccupied(ids[..|ids| - 1]);
    }
  }

  /** A fresh number in a free slot keeps numbers distinct and adds exactly itself. */
  lemma Placed(ids: seq<nat>, slot: nat, id: nat)
    requires Distinct(ids) && slot < |ids| && ids[slot] == 0 && Fresh(ids, id)
    ensures Distinct(ids[slot := id])
    ensures Numbers(ids[slot := id]) == Numbers(ids) + {id}
    ensures Occupied(ids[slot := id]) == Occupied(ids) + 1 == |Numbers(ids[slot := id])|
  {
    var after := ids[slot := id];
    OccupiedUpdate(ids, slot, id);
    assert Distinct(after);
    forall x | x in Numbers(ids) + {id}
      ensures x in Numbers(after)
    {
      if x == id {
        assert after[slot] == x;
      } else {
        var i :| 0 <= i < |ids| && ids[i] == x && ids[i] != 0;
        assert after[i] == x;
      }
    }
    CountIsNumbers(after);
  }

  lemma Cleared(ids: seq<nat>, slot: nat)
    requires Distinct(ids) && slot < |ids|
    ensures Distinct(ids[slot := 0])
    ensures Numbers(ids[slot := 0]) == Numbers(ids) - {ids[slot]}
    ensures Occupied(ids[slot := 0]) == Occupied(ids) - (if ids[slot] == 0 then 0 else 1)
    ensures Occupied(ids[slot := 0]) == |Numbers(ids[slot := 0])|
  {
    var after := ids[slot := 0];
    OccupiedUpdate(ids, slot, 0);
    assert Distinct(after);
    forall x | x in Numbers(ids) - {ids[slot]}
      ensures x in Numbers(after)
    {
      var i :| 0 <= i < |ids| && ids[i] == x && ids[i] != 0;
      assert after[i] == x;
    }
    CountIsNumbers(after);
  }
}
