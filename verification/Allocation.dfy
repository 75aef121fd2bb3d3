/** The bump allocator behind operator new and delete, and the linked list of its arenas. Addresses are numbers. */
module Allocation {
  import opened Arithmetic

  /** sizeof(max_align_t) on 64-bit Intel; only its being positive matters. */
  const ALIGNMENT: nat := 32

  predicate Aligned(n: nat) { n % ALIGNMENT == 0 }

  /** The smallest multiple of the alignment that is not below `value`. */
  function RoundUp(value: nat): (r: nat)
    requires value > 0
    ensures r >= value && r < value + ALIGNMENT && Aligned(r)
  {
    var k := (value - 1) / ALIGNMENT;
    DivModUnique(ALIGNMENT * (1 + k), ALIGNMENT, 1 + k, 0);
    ALIGNMENT * (1 + k)
  }

  /** Requests of size 0 are not modelled. */
  type Size = n: int | n > 0 witness 1

  /** The bytes that a number of requests take together, each rounded up. */
  function Needed(requests: seq<Size>): nat {
    if requests == [] then 0 else Needed(requests[..|requests| - 1]) + RoundUp(requests[|requests| - 1])
  }

  lemma NeededGrows(requests: seq<Size>, size: Size)
    ensures Needed(requests + [size]) == Needed(requests) + RoundUp(size)
  {
    hide RoundUp;
    assert (requests + [size])[..|requests|] == requests;
  }

  lemma MultiplesAdd(a: nat, b: nat)
    requires Aligned(a) && Aligned(b)
    ensures Aligned(a + b)
  {
  }

  lemma {:induction false} NeededMonotone(requests: seq<Size>, k: nat)
    requires k <= |requests|
    ensures Needed(requests[..k]) <= Needed(requests)
    decreases |requests|
  {
    if k < |requests| {
      var n := |requests| - 1;
      NeededMonotone(requests[..n], k);
      assert requests[..n][..k] == requests[..k];
    } else {
      assert requests[..k] == requests;
    }
  }

  /** All of a number of further requests fit, each at its turn, exactly when all of them together do. */
  lemma AllFitIff(earlier: seq<Size>, requests: seq<Size>, capacity: nat)
    requires requests != []
    ensures var all := earlier + requests;
            (forall k | |earlier| < k <= |all| :: Needed(all[..k]) <= capacity) <==> Needed(all) <= capacity
  {
    var all := earlier + requests;
    assert all[..|all|] == all;
    forall k | |earlier| < k <= |all|
      ensures Needed(all[..k]) <= Needed(all)
    {
      NeededMonotone(all, k);
    }
  }

  /** A piece of an arena that was handed out; `size` is the requested size. */
  datatype Block = Block(at: nat, size: nat) {
    function End(): nat { at + size }
  }

  predicate Apart(a: Block, b: Block) {
    a.End() <= b.at || b.End() <= a.at
  }

  datatype ResetResult = AlreadyClosed | NotOwned | StillInUse | Restarted

  const NO_THREAD: nat := 0

  class Handle {
    const dataStart: nat
    const allocStart: nat
    const allocEnd: nat
    var nextAlloc: nat
    var owner: nat
    var closed: bool
    var allocations: int
    var threadId: nat
    var prev: Handle?
    var next: Handle?
    ghost var live: set<Block>      // handed out and not yet freed
    ghost var spilled: bool         // a request did not fit since the last reset
    ghost var requests: seq<Size>   // those of the entered thread since the last reset

    ghost predicate Valid()
      reads this`nextAlloc, this`allocations, this`live, this`spilled, this`requests
    {
      && Aligned(allocStart) && Aligned(nextAlloc)
      && allocStart <= allocEnd && allocStart <= nextAlloc
      && (spilled <==> nextAlloc > allocEnd)
      && nextAlloc == allocStart + Needed(requests)
      && allocations == |live|
      && (forall b | b in live ::
            b.size > 0 && allocStart <= b.at && b.End() <= allocEnd && b.End() <= nextAlloc && Aligned(b.at))
      && (forall a, b | a in live && b in live && a != b :: Apart(a, b))
    }

    /** The malloc of the source gave `address`; when that is not aligned, the realloc gave `larger`, with room for
        the alignment. */
    constructor (address: nat, larger: nat, blockSize: nat)
      requires larger > 0
      ensures Valid() && live == {} && !spilled && !closed && owner == 0 && threadId == NO_THREAD
      ensures prev == null && next == null && requests == [] && nextAlloc == allocStart
      ensures allocEnd == allocStart + blockSize
      ensures Aligned(address) ==> dataStart == allocStart == address
      ensures !Aligned(address) ==>
          dataStart == larger && larger <= allocStart && allocEnd <= larger + blockSize + ALIGNMENT
    {
      var aligned := if address % ALIGNMENT == 0 then address else RoundUp(larger);
      dataStart := if address % ALIGNMENT == 0 then address else larger;
      allocStart := aligned;
      allocEnd := aligned + blockSize;
      nextAlloc := aligned;
      owner, closed, allocations, threadId := 0, false, 0, NO_THREAD;
      prev, next := null, null;
      live, spilled, requests := {}, false, [];
    }

    predicate BelongsTo(address: nat)
    {
      allocStart <= address < allocEnd
    }

    predicate IsConsecutive()
      reads this
    {
      nextAlloc <= allocEnd
    }

    /** allocate: `fallback` is what the default allocator would return. The pointer moves on by the rounded size, for a
        request that does not fit as well. */
    method Allocate(size: Size, thread: nat, fallback: nat) returns (address: nat, inside: bool)
      requires Valid()
      modifies this`nextAlloc, this`allocations, this`live, this`spilled, this`requests
      ensures Valid()
      ensures closed || threadId != thread ==> !inside && nextAlloc == old(nextAlloc) && requests == old(requests)
      ensures !closed && threadId == thread ==>
          && nextAlloc == old(nextAlloc) + RoundUp(size) && requests == old(requests) + [size]
          && (inside <==> Needed(requests) <= allocEnd - allocStart)
      ensures inside ==> address == old(nextAlloc) && live == old(live) + {Block(address, size)}
      ensures inside ==> Block(address, size) !in old(live) && BelongsTo(address)
      ensures inside ==> forall a | a in old(live) :: Apart(a, Block(address, size))
      ensures !inside ==> address == fallback && live == old(live)
    {
      hide RoundUp, Needed, Aligned;
      var newNext := nextAlloc + RoundUp(size);
      MultiplesAdd(nextAlloc, RoundUp(size));
      NeededGrows(requests, size);
      if closed || threadId != thread {
        return fallback, false;
      }
      requests := requests + [size];
      if newNext <= allocEnd {
        address, inside := nextAlloc, true;
        nextAlloc := newNext;
        allocations := allocations + 1;
        live := live + {Block(address, size)};
      } else {
        nextAlloc := newNext;
        spilled := true;
        return fallback, false;
      }
    }

    /** free_ptr for an address inside the arena, which the caller got from Allocate. */
    method FreeInside(block: Block)
      requires Valid() && block in live
      modifies this`allocations, this`live
      ensures Valid() && live == old(live) - {block}
    {
      allocations := allocations - 1;
      live := live - {block};
    }

    /** reset, after its wait for the thread to leave. Memory is reused only when nothing in it is alive. */
    method Reset(requester: nat) returns (result: ResetResult)
      requires Valid() && (!closed && owner == requester ==> threadId == NO_THREAD)
      modifies this`nextAlloc, this`spilled, this`requests
      ensures Valid() && live == old(live)
      ensures result == if closed then AlreadyClosed else if owner != requester then NotOwned
                        else if live != {} then StillInUse else Restarted
      ensures result == Restarted ==> nextAlloc == allocStart && !spilled && requests == []
      ensures result != Restarted ==>
          nextAlloc == old(nextAlloc) && spilled == old(spilled) && requests == old(requests)
    {
      if closed {
        return AlreadyClosed;
      }
      if owner != requester {
        return NotOwned;
      }
      if allocations != 0 {
        return StillInUse;
      }
      nextAlloc := allocStart;
      spilled, requests := false, [];
      return Restarted;
    }

    /** is_consecutive is true exactly when all requests of the entered thread since the last reset fit together. */
    lemma ConsecutiveUnlessSpilled()
      requires Valid()
      ensures IsConsecutive() <==> !spilled
      ensures IsConsecutive() <==> Needed(requests) <= allocEnd - allocStart
    {
    }

    /** A sequence of requests of the entered thread, made one after the other: all are served inside the arena exactly
        when together with the earlier ones they fit into it. */
    method AllocateAll(sizes: seq<Size>, thread: nat) returns (allInside: bool)
      requires Valid() && !closed && threadId == thread
      modifies this`nextAlloc, this`allocations, this`live, this`spilled, this`requests
      ensures Valid() && requests == old(requests) + sizes
      ensures nextAlloc == old(nextAlloc) + (Needed(requests) - Needed(old(requests)))
      ensures sizes != [] ==> (allInside <==> Needed(requests) <= allocEnd - allocStart)
    {
      hide Apart, Needed, RoundUp, Aligned;
      allInside := true;
      ghost var all := old(requests) + sizes;
      for i := 0 to |sizes|
        invariant Valid() && requests == old(requests) + sizes[..i]
        invariant i > 0 ==> (allInside <==> Needed(requests) <= allocEnd - allocStart)
        invariant i == 0 ==> allInside
      {
        ghost var before := requests;
        var _, inside := Allocate(sizes[i], thread, 0);
        assert sizes[..i] + [sizes[i]] == sizes[..i + 1];
        assert requests[..|before|] == before;
        NeededMonotone(requests, |before|);
        allInside := allInside && inside;
      }
      assert sizes[..|sizes|] == sizes;
    }
  }

  // ---------- The list of all arenas ----------

  predicate ArenasApart(a: Handle, b: Handle) {
    a.allocEnd <= b.allocStart || b.allocEnd <= a.allocStart
  }

  predicate ArenasDisjoint(list: seq<Handle>) {
    forall i, j | 0 <= i < j < |list| :: ArenasApart(list[i], list[j])
  }

  /** `list` without its element k. */
  function Without(list: seq<Handle>, k: nat): (rest: seq<Handle>)
    requires k < |list|
    ensures |rest| == |list| - 1 && forall i | 0 <= i < |rest| :: rest[i] == list[if i < k then i else i + 1]
  {
    list[..k] + list[k + 1..]
  }

  lemma DisjointWithout(list: seq<Handle>, k: nat)
    requires k < |list| && ArenasDisjoint(list)
    ensures ArenasDisjoint(Without(list, k))
  {
    hide Without, ArenasApart;
    var rest := Without(list, k);
    forall i, j | 0 <= i < j < |rest|
      ensures ArenasApart(rest[i], rest[j])
    {
      assert ArenasApart(list[if i < k then i else i + 1], list[if j < k then j else j + 1]);
    }
  }

  class Registry {
    var linked: Handle?
    ghost var list: seq<Handle>

    /** The links of handle i, given its place in the list. */
    ghost predicate Node(i: nat)
      reads this, list`prev, list`next
      requires i < |list|
    {
      && list[i].prev == (if i == 0 then null else list[i - 1])
      && list[i].next == (if i == |list| - 1 then null else list[i + 1])
    }

    ghost predicate Linked()
      reads this, list`prev, list`next
    {
      && linked == (if list == [] then null else list[0])
      && (forall i, j | 0 <= i < j < |list| :: list[i] != list[j])
      && (forall i | 0 <= i < |list| :: Node(i))
    }

    ghost predicate Sound()
      reads this, list`nextAlloc, list`allocations, list`live, list`spilled, list`requests
    {
      ArenasDisjoint(list) && forall i | 0 <= i < |list| :: list[i].Valid()
    }

    ghost predicate Valid()
      reads this, list`prev, list`next, list`nextAlloc, list`allocations, list`live, list`spilled, list`requests
    {
      Linked() && Sound()
    }

    constructor ()
      ensures Valid() && list == []
    {
      linked, list := null, [];
    }

    /** link_handle: puts a new handle first. */
    method Link(me: Handle)
      requires Linked() && me !in list
      modifies this, me`prev, me`next, list`prev
      ensures Linked() && list == [me] + old(list)
      ensures old(Valid() && me.Valid() && forall i | 0 <= i < |list| :: ArenasApart(me, list[i])) ==> Valid()
    {
      hide Handle.Valid;
      ghost var before := list;
      assert forall i | 0 <= i < |before| :: before[i] != me;
      assert list != [] ==> Node(0);
      if linked == null {
        linked := me;
        me.prev, me.next := null, null;
      } else {
        var walk := linked;
        linked := me;
        walk.prev := me;
        me.next := walk;
        me.prev := null;
      }
      list := [me] + list;
      forall i | 0 <= i < |list|
        ensures Node(i)
      {
        if i > 0 {
          assert list[i] == before[i - 1] && old(Node(i - 1));
        }
      }
      if old(Valid() && me.Valid() && forall i | 0 <= i < |list| :: ArenasApart(me, list[i])) {
        forall i | 0 <= i < |list|
          ensures list[i].Valid()
        {
          if i > 0 {
            assert old(list[i - 1].Valid());
          }
        }
      }
    }

    /** unlink_handle; `k` is where the handle is. The error of the source cannot occur for a linked handle. */
    method Unlink(me: Handle, ghost k: nat) returns (wrongLinking: bool)
      requires Linked() && k < |list| && list[k] == me
      modifies this, list`prev, list`next
      ensures !wrongLinking && Linked() && list == Without(old(list), k)
      ensures old(Valid()) ==> Valid()
    {
      hide Handle.Valid, Without, ArenasDisjoint;
      ghost var before := list;
      assert Node(k);
      if me.prev == null {
        if me != linked {
          return true;
        }
        linked := me.next;
      }
      if me.prev != null {
        me.prev.next := me.next;
      }
      if me.next != null {
        me.next.prev := me.prev;
      }
      list := Without(list, k);
      wrongLinking := false;
      forall i | 0 <= i < |list|
        ensures Node(i)
      {
        var was := if i < k then i else i + 1;
        assert list[i] == before[was] && old(Node(was));
      }
      if old(Valid()) {
        DisjointWithout(before, k);
        forall i | 0 <= i < |list|
          ensures list[i].Valid()
        {
          var was := if i < k then i else i + 1;
          assert list[i] == before[was] && old(list[was].Valid());
        }
      }
    }

    /** belongs_to_any: walks the list. */
    method BelongsToAny(address: nat) returns (found: Handle?)
      requires Linked()
      ensures found == null ==>
          forall i | 0 <= i < |list| :: !(list[i].allocStart <= address < list[i].allocEnd)
      ensures found != null ==> found in list && found.allocStart <= address < found.allocEnd
    {
      found := linked;
      ghost var k := 0;
      while found != null
        invariant 0 <= k <= |list| && found == (if k == |list| then null else list[k])
        invariant forall i | 0 <= i < k :: !list[i].BelongsTo(address)
        decreases |list| - k
      {
        if found.BelongsTo(address) {
          return;
        }
        assert Node(k);
        found := found.next;
        k := k + 1;
      }
    }

    /** Disjoint arenas claim an address at most once. */
    lemma OneArenaPerAddress(address: nat, a: Handle, b: Handle)
      requires ArenasDisjoint(list) && a in list && b in list && a.BelongsTo(address) && b.BelongsTo(address)
      ensures a == b
    {
      var i :| 0 <= i < |list| && list[i] == a;
      var j :| 0 <= j < |list| && list[j] == b;
    }

    /** No two blocks alive anywhere overlap. */
    lemma LiveBlocksApart(g: Handle, h: Handle, a: Block, b: Block)
      requires Valid() && g in list && h in list && a in g.live && b in h.live && (g != h || a != b)
      ensures Apart(a, b)
    {
      var i :| 0 <= i < |list| && list[i] == g;
      var j :| 0 <= j < |list| && list[j] == h;
      assert g.Valid() && h.Valid();
      if i < j {
        assert ArenasApart(g, h);
      } else if j < i {
        assert ArenasApart(h, g);
      }
    }

    /** allocate_static: `current` is the handle that the thread has entered, if any. A block from an arena overlaps
        nothing alive in this arena or in any other. */
    method AllocateStatic(current: Handle?, disabled: bool, size: Size, thread: nat, fallback: nat)
      returns (address: nat, inside: bool)
      requires Valid() && (current != null ==> current in list)
      modifies list`nextAlloc, list`allocations, list`live, list`spilled, list`requests
      ensures Valid()
      ensures forall h | h in list && h != current :: h.live == old(h.live)
      ensures inside <==> !disabled && current != null && !current.closed && current.threadId == thread
                          && Needed(old(current.requests) + [size]) <= current.allocEnd - current.allocStart
      ensures inside ==> current.live == old(current.live) + {Block(address, size)} && current.BelongsTo(address)
      ensures inside ==> forall h, b | h in list && b in old(h.live) :: Apart(b, Block(address, size))
      ensures !inside ==> address == fallback && (current != null ==> current.live == old(current.live))
    {
      hide Handle.Valid, Apart, ArenasDisjoint, ArenasApart, Linked, Needed, RoundUp;
      if disabled || current == null {
        return fallback, false;
      }
      assert current.Valid();
      address, inside := current.Allocate(size, thread, fallback);
      forall i | 0 <= i < |list|
        ensures list[i].Valid()
      {
        assert old(list[i].Valid());
      }
      if inside {
        forall h, b | h in list && b in old(h.live)
          ensures Apart(b, Block(address, size))
        {
          if h != current {
            LiveBlocksApart(h, current, b, Block(address, size));
          }
        }
      }
    }

    /** reset of a linked handle. */
    method ResetLinked(handle: Handle, requester: nat) returns (result: ResetResult)
      requires Valid() && handle in list
      requires !handle.closed && handle.owner == requester ==> handle.threadId == NO_THREAD
      modifies handle`nextAlloc, handle`spilled, handle`requests
      ensures Valid() && forall h | h in list :: h.live == old(h.live)
      ensures result == Restarted ==> handle.live == {} && handle.IsConsecutive()
    {
      hide Handle.Valid;
      assert handle.Valid();
      result := handle.Reset(requester);
      handle.ConsecutiveUnlessSpilled();
      forall i | 0 <= i < |list|
        ensures Node(i) && list[i].Valid()
      {
        assert old(Node(i) && list[i].Valid());
      }
    }

    /** free_static for a block that `issuer` handed out: with disjoint arenas it always reaches the issuer, and no
        other arena changes. */
    method FreeStatic(block: Block, ghost issuer: Handle) returns (toDefault: bool)
      requires Valid() && issuer in list && block in issuer.live
      modifies issuer`allocations, issuer`live
      ensures Valid() && !toDefault && issuer.live == old(issuer.live) - {block}
    {
      assert issuer.Valid() && issuer.BelongsTo(block.at);
      var handle := BelongsToAny(block.at);
      if handle == null {
        return true;
      }
      OneArenaPerAddress(block.at, handle, issuer);
      handle.FreeInside(block);
      toDefault := false;
      forall i | 0 <= i < |list|
        ensures Node(i) && list[i].Valid()
      {
        assert old(Node(i) && list[i].Valid());
      }
    }

    /** An address outside all arenas goes to the default allocator. */
    method FreeDefault(address: nat) returns (toDefault: bool)
      requires Valid()
      ensures toDefault <==> forall i | 0 <= i < |list| :: !(list[i].allocStart <= address < list[i].allocEnd)
    {
      var handle := BelongsToAny(address);
      toDefault := handle == null;
    }
  }
}
