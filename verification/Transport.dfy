/** The two-slot exchange between a thread that never locks and threads that do, as interleaved atomic steps.
    Steps are sequentially consistent; there is one lock-free thread, and the mutex admits one locking thread. */
module Transport {

  /** Where the lock-free thread is. A section opens with two reads of write_: one chooses the data reference,
      the other is kept as the section's own flag. Either may come first. */
  datatype Reader =
    | Outside
    | SlotSampled(slot: bool)
    | FlagSampled(flag: bool)
    | Inside(slot: bool, flag: bool)

  /** Where the thread that holds the mutex is inside getAndSet. */
  datatype Writer<D> =
    | Unlocked
    | Waiting(next: D)
    | Passed(next: D)
    | Taken(next: D, got: D)
    | Stored(got: D)

  /** `sent` and `seen` are history: the values whose storing was completed by a flip, and the slot contents
      met by each section that opened modified. */
  datatype State<D> = State(
    read: bool, write: bool, slot0: D, slot1: D,
    reader: Reader, writer: Writer<D>,
    sent: seq<D>, seen: seq<D>)
  {
    function Slot(which: bool): D {
      if which then slot1 else slot0
    }

    function WithSlot(which: bool, d: D): State<D> {
      if which then this.(slot1 := d) else this.(slot0 := d)
    }

    /** The lock-free thread holds a reference to a slot. */
    predicate Holds(which: bool) {
      (reader.SlotSampled? || reader.Inside?) && reader.slot == which
    }

    /** modified(), evaluated inside a section. */
    predicate Modified() {
      reader.Inside? && reader.flag != read
    }

    /** getAndSet is past its last test and before its flip: it reads and then overwrites a slot. */
    predicate Exchanging() {
      writer.Passed? || writer.Taken? || writer.Stored?
    }
  }

  /** The slot that getAndSet reads and overwrites. */
  function WriterSlot<D>(s: State<D>): bool {
    !s.write
  }

  function Init<D>(original: D, startModified: bool): State<D> {
    State(startModified, false, original, original, Outside, Unlocked,
          if startModified then [original] else [], [])
  }

  datatype Event<D> =
    | SampleSlot
    | SampleFlag
    | Update(value: D)
    | Close
    | Lock(next: D)
    | GiveUp
    | Pass
    | Take
    | Put
    | Flip

  predicate Enabled<D>(s: State<D>, e: Event<D>) {
    match e
    case SampleSlot => s.reader.Outside? || s.reader.FlagSampled?
    case SampleFlag => s.reader.Outside? || s.reader.SlotSampled?
    case Update(_) => s.reader.Inside?
    case Close => s.reader.Inside?
    case Lock(_) => s.writer.Unlocked?
    case GiveUp => s.writer.Waiting? && s.write != s.read
    case Pass => s.writer.Waiting? && s.write == s.read
    case Take => s.writer.Passed?
    case Put => s.writer.Taken?
    case Flip => s.writer.Stored?
  }

  function Enter<D>(s: State<D>, slot: bool, flag: bool): State<D> {
    s.(reader := Inside(slot, flag),
       seen := if flag != s.read then s.seen + [s.Slot(slot)] else s.seen)
  }

  function Apply<D>(s: State<D>, e: Event<D>): State<D>
    requires Enabled(s, e)
  {
    match e
    case SampleSlot =>
      if s.reader.FlagSampled? then Enter(s, s.write, s.reader.flag) else s.(reader := SlotSampled(s.write))
    case SampleFlag =>
      if s.reader.SlotSampled? then Enter(s, s.reader.slot, s.write) else s.(reader := FlagSampled(s.write))
    case Update(d) => s.WithSlot(s.reader.slot, d)
    case Close => s.(reader := Outside, read := if s.Modified() then s.reader.flag else s.read)
    case Lock(next) => s.(writer := Waiting(next))
    case GiveUp => s.(writer := Unlocked)
    case Pass => s.(writer := Passed(s.writer.next))
    case Take => s.(writer := Taken(s.writer.next, s.Slot(WriterSlot(s))))
    case Put => s.WithSlot(WriterSlot(s), s.writer.next).(writer := Stored(s.writer.got))
    case Flip => s.(write := !s.write, writer := Unlocked, sent := s.sent + [s.Slot(WriterSlot(s))])
  }

  /** `events` can be taken one after the other from `s`. */
  predicate Runs<D>(s: State<D>, events: seq<Event<D>>)
    decreases |events|
  {
    events == [] || (Enabled(s, events[0]) && Runs(Apply(s, events[0]), events[1..]))
  }

  function After<D>(s: State<D>, events: seq<Event<D>>): State<D>
    requires Runs(s, events)
    decreases |events|
  {
    if events == [] then s else After(Apply(s, events[0]), events[1..])
  }

  // ---------- Slot exclusion, for every interleaving and every tear ----------

  /** While the flags agree, whatever the open section sampled is the current flag; getAndSet exchanges only then. */
  predicate Guarded<D>(s: State<D>) {
    && (s.Exchanging() ==> s.read == s.write)
    && (s.read == s.write && (s.reader.SlotSampled? || s.reader.Inside?) ==> s.reader.slot == s.write)
    && (s.read == s.write && (s.reader.FlagSampled? || s.reader.Inside?) ==> s.reader.flag == s.write)
  }

  lemma {:induction false} RunsStayGuarded<D>(s: State<D>, events: seq<Event<D>>)
    requires Guarded(s) && Runs(s, events)
    ensures Guarded(After(s, events))
    decreases |events|
  {
    if events != [] {
      RunsStayGuarded(Apply(s, events[0]), events[1..]);
    }
  }

  /** In no interleaving does the lock-free side hold the slot that getAndSet reads or overwrites. */
  lemma SlotExclusion<D>(original: D, startModified: bool, events: seq<Event<D>>)
    requires Runs(Init(original, startModified), events)
    ensures var s := After(Init(original, startModified), events);
            s.Exchanging() ==> !s.Holds(WriterSlot(s))
  {
    RunsStayGuarded(Init(original, startModified), events);
  }

  /** At most one flip falls between the two samples of a section: a second one would need a Close in between. */
  predicate FlipFree<D>(events: seq<Event<D>>) {
    forall i | 0 <= i < |events| :: !events[i].Flip?
  }

  predicate WriterOnly<D>(events: seq<Event<D>>) {
    forall i | 0 <= i < |events| ::
      events[i].Lock? || events[i].GiveUp? || events[i].Pass? || events[i].Take? || events[i].Put? || events[i].Flip?
  }

  /** Between the two samples only getAndSet moves. The samples then differ exactly when a flip fell in between,
      so a torn section is one whose slot and flag disagree. */
  lemma {:induction false} TornMeansFlipped<D>(s: State<D>, events: seq<Event<D>>)
    requires Guarded(s) && Runs(s, events) && WriterOnly(events)
    ensures After(s, events).read == s.read && After(s, events).reader == s.reader
    ensures After(s, events).write == s.write <==> FlipFree(events)
    ensures s.read != s.write && !s.Exchanging() ==> FlipFree(events)
    decreases |events|
  {
    if events != [] {
      var e, rest := events[0], events[1..];
      var t := Apply(s, e);
      TornMeansFlipped(t, rest);
      assert FlipFree(events) <==> !e.Flip? && FlipFree(rest);
    }
  }

  // ---------- Delivery, when write_ is sampled once per section ----------

  /** The section open in `s`, if any, saw one value of write_. */
  predicate SingleSample<D>(s: State<D>) {
    s.reader.Inside? ==> s.reader.slot == s.reader.flag
  }

  predicate RunsUntorn<D>(s: State<D>, events: seq<Event<D>>)
    decreases |events|
  {
    SingleSample(s) &&
    (events == [] || (Enabled(s, events[0]) && RunsUntorn(Apply(s, events[0]), events[1..])))
  }

  /** A stored value waits in the slot of write_ for its section. */
  predicate Pending<D>(s: State<D>) {
    s.write != s.read && !s.Modified()
  }

  /** The sections that opened modified saw exactly the stored values, each once and in order; the only one
      still missing is the value that is waiting. */
  ghost predicate Delivered<D>(s: State<D>) {
    s.sent == s.seen + (if Pending(s) then [s.Slot(s.write)] else [])
  }

  ghost predicate DeliveryInvariant<D>(s: State<D>) {
    && Guarded(s)
    && SingleSample(s)
    && Delivered(s)
    && (s.writer.Taken? ==> s.writer.got == s.Slot(WriterSlot(s)))
  }

  lemma {:induction false} DeliveryKept<D>(s: State<D>, events: seq<Event<D>>)
    requires DeliveryInvariant(s) && RunsUntorn(s, events)
    ensures Runs(s, events) && DeliveryInvariant(After(s, events))
    decreases |events|
  {
    if events != [] {
      DeliveryKept(Apply(s, events[0]), events[1..]);
    }
  }

  /** The value that the thread inside getAndSet was called with, if any. */
  datatype Call<D> = NoCall | CalledWith(next: D)

  /** The arguments of the getAndSet calls that came to their flip, in order, from the steps alone. */
  function Exchanged<D>(call: Call<D>, events: seq<Event<D>>): seq<D>
    decreases |events|
  {
    if events == [] then []
    else
      match events[0]
      case Lock(next) => Exchanged(CalledWith(next), events[1..])
      case GiveUp => Exchanged(NoCall, events[1..])
      case Flip => (if call.CalledWith? then [call.next] else []) + Exchanged(NoCall, events[1..])
      case _ => Exchanged(call, events[1..])
  }

  /** `call` is the call under way; once stored, its value lies in the writer's slot. */
  ghost predicate UnderWay<D>(s: State<D>, call: Call<D>) {
    match s.writer
    case Unlocked => call == NoCall
    case Waiting(next) => call == CalledWith(next)
    case Passed(next) => call == CalledWith(next)
    case Taken(next, _) => call == CalledWith(next)
    case Stored(_) => call == CalledWith(s.Slot(WriterSlot(s)))
  }

  /** A flip makes available exactly the value that its call was given: in every interleaving, torn or not. */
  lemma {:induction false} SentIsExchanged<D>(s: State<D>, call: Call<D>, events: seq<Event<D>>)
    requires Guarded(s) && UnderWay(s, call) && Runs(s, events)
    ensures After(s, events).sent == s.sent + Exchanged(call, events)
    decreases |events|
  {
    if events != [] {
      var e, t := events[0], Apply(s, events[0]);
      var next := match e
        case Lock(n) => CalledWith(n)
        case GiveUp => NoCall
        case Flip => NoCall
        case _ => call;
      StepKeepsCall(s, call, e);
      SentIsExchanged(t, next, events[1..]);
    }
  }

  lemma StepKeepsCall<D>(s: State<D>, call: Call<D>, e: Event<D>)
    requires Guarded(s) && UnderWay(s, call) && Enabled(s, e)
    ensures Guarded(Apply(s, e))
    ensures UnderWay(Apply(s, e), match e case Lock(n) => CalledWith(n) case GiveUp => NoCall case Flip => NoCall
                                         case _ => call)
    ensures e.Flip? ==> call.CalledWith? && Apply(s, e).sent == s.sent + [call.next]
    ensures !e.Flip? ==> Apply(s, e).sent == s.sent
  {
  }

  /** What the sections of a run find in their slots when they open modified. */
  function Found<D>(s: State<D>, events: seq<Event<D>>): seq<D>
    requires Runs(s, events)
    decreases |events|
  {
    if events == [] then []
    else
      var t := Apply(s, events[0]);
      (if !s.reader.Inside? && t.reader.Inside? && t.reader.flag != t.read
       then [if t.reader.slot then t.slot1 else t.slot0] else [])
      + Found(t, events[1..])
  }

  lemma {:induction false} SeenIsFound<D>(s: State<D>, events: seq<Event<D>>)
    requires Runs(s, events)
    ensures After(s, events).seen == s.seen + Found(s, events)
    decreases |events|
  {
    if events != [] {
      StepSees(s, events[0]);
      SeenIsFound(Apply(s, events[0]), events[1..]);
    }
  }

  lemma StepSees<D>(s: State<D>, e: Event<D>)
    requires Enabled(s, e)
    ensures var t := Apply(s, e);
            t.seen == s.seen + (if !s.reader.Inside? && t.reader.Inside? && t.reader.flag != t.read
                                then [if t.reader.slot then t.slot1 else t.slot0] else [])
  {
  }

  /** Exactly-once, in-order delivery: what the modified sections find is the original, if the start is modified, and
      then the arguments of the successful calls, each once and in order, up to the one that may still wait. A caller
      that waits can go on exactly when everything was found and the section that found it has ended. */
  lemma ExactlyOnceInOrder<D>(original: D, startModified: bool, events: seq<Event<D>>)
    requires RunsUntorn(Init(original, startModified), events)
    ensures Runs(Init(original, startModified), events)
    ensures var s, found := After(Init(original, startModified), events), Found(Init(original, startModified), events);
            var given := (if startModified then [original] else []) + Exchanged(NoCall, events);
            && (given == found ||
                (given != [] && found == given[..|given| - 1] && s.Slot(s.write) == given[|given| - 1]))
            && (given == found <==> !Pending(s))
            && (s.writer.Waiting? ==> (Enabled(s, Pass) <==> given == found && !s.Modified()))
            && (s.writer.Waiting? ==> (Enabled(s, GiveUp) <==> !Enabled(s, Pass)))
            && (s.Exchanging() ==> given == found && !s.Modified())
  {
    var start := Init(original, startModified);
    DeliveryKept(start, events);
    SentIsExchanged(start, NoCall, events);
    SeenIsFound(start, events);
    var s := After(start, events);
    assert s.sent == s.seen + (if Pending(s) then [s.Slot(s.write)] else []);
    assert [] + Found(start, events) == Found(start, events);
  }

  /** A section whose slot was sampled before a flip and whose flag was sampled after it counts as modified but looks
      at the other slot. Delivery survives it exactly when both slots hold the same value. */
  lemma SlotFirstTear<D>(s: State<D>)
    requires DeliveryInvariant(s) && s.reader.Outside? && s.writer.Stored?
    ensures var tear := [SampleSlot, Flip, SampleFlag, Close];
            && Runs(s, tear)
            && (Delivered(After(s, tear)) <==> s.slot0 == s.slot1)
            && After(s, tear).read == After(s, tear).write
  {
    var a := Apply(s, SampleSlot);
    var b := Apply(a, Flip);
    var c := Apply(b, SampleFlag);
    var d := Apply(c, Close);
    RunsFour(s, SampleSlot, Flip, SampleFlag, Close);
    var before, stored := s.Slot(s.write), s.Slot(!s.write);
    assert d.sent == s.seen + [stored] && d.seen == s.seen + [before];
    if d.sent == d.seen {
      assert d.sent[|s.seen|] == d.seen[|s.seen|];
    }
  }

  /** In the other order the section holds the new slot without knowing that it is modified. What it writes there is
      what the next section sees, so delivery survives exactly when it writes back the value it found. */
  lemma FlagFirstTear<D>(s: State<D>, x: D)
    requires DeliveryInvariant(s) && s.reader.Outside? && s.writer.Stored?
    ensures var tear := [SampleFlag, Flip, SampleSlot, Update(x)];
            && Runs(s, tear)
            && (Delivered(After(s, tear)) <==> x == s.Slot(!s.write))
            && Pending(After(s, tear))
  {
    var a := Apply(s, SampleFlag);
    var b := Apply(a, Flip);
    var c := Apply(b, SampleSlot);
    var d := Apply(c, Update(x));
    RunsFour(s, SampleFlag, Flip, SampleSlot, Update(x));
    var stored := s.Slot(!s.write);
    assert d.sent == s.seen + [stored] && d.seen == s.seen && d.Slot(d.write) == x;
    if d.sent == d.seen + [x] {
      assert d.sent[|s.seen|] == (d.seen + [x])[|s.seen|];
    }
  }

  lemma RunsCons<D>(s: State<D>, e: Event<D>, rest: seq<Event<D>>)
    requires Enabled(s, e) && Runs(Apply(s, e), rest)
    ensures Runs(s, [e] + rest) && After(s, [e] + rest) == After(Apply(s, e), rest)
  {
    assert ([e] + rest)[1..] == rest;
  }

  lemma RunsFour<D>(s: State<D>, e0: Event<D>, e1: Event<D>, e2: Event<D>, e3: Event<D>)
    requires Enabled(s, e0) && Enabled(Apply(s, e0), e1) && Enabled(Apply(Apply(s, e0), e1), e2)
    requires Enabled(Apply(Apply(Apply(s, e0), e1), e2), e3)
    ensures Runs(s, [e0, e1, e2, e3])
    ensures After(s, [e0, e1, e2, e3]) == Apply(Apply(Apply(Apply(s, e0), e1), e2), e3)
  {
    var a, b := Apply(s, e0), Apply(Apply(s, e0), e1);
    var c := Apply(b, e2);
    RunsCons(c, e3, []);
    RunsCons(b, e2, [e3]);
    RunsCons(a, e1, [e2, e3]);
    RunsCons(s, e0, [e1, e2, e3]);
    assert [e3] + [] == [e3] && [e2] + [e3] == [e2, e3] && [e1] + [e2, e3] == [e1, e2, e3];
    assert [e0] + [e1, e2, e3] == [e0, e1, e2, e3];
  }

  // ---------- The object ----------

  /** The fields of the source. Its methods are the runs of steps that one thread takes undisturbed. */
  class Transport<D(0)> {
    var read_: bool
    var write_: bool
    var data: array<D>

    ghost predicate Valid()
      reads this
    {
      data.Length == 2
    }

    /** The fields as a model state, at a moment when nobody is inside. */
    ghost function View(reader: Reader): State<D>
      reads this, data
      requires Valid()
    {
      State(read_, write_, data[0], data[1], reader, Unlocked, [], [])
    }

    constructor (original: D, startModified: bool)
      ensures Valid() && fresh(data)
      ensures View(Outside) == Init(original, startModified).(sent := [])
      ensures data[0] == data[1] == original && !write_ && read_ == startModified
    {
      read_ := startModified;
      write_ := false;
      data := new D[2](_ => original);
    }

    /** getLockFree: the data reference and the section's own flag. */
    method GetLockFree() returns (slot: bool, flag: bool)
      requires Valid()
      ensures View(Inside(slot, flag)) ==
              Apply(Apply(View(Outside), SampleSlot), SampleFlag).(seen := [])
      ensures slot == flag == write_
    {
      slot := write_;
      flag := write_;
    }

    /** The destructor of the section. */
    method Release(ghost slot: bool, flag: bool)
      requires Valid()
      modifies this`read_
      ensures View(Outside) == Apply(old(View(Inside(slot, flag))), Close)
      ensures read_ == flag
    {
      if flag != read_ {
        read_ := flag;
      }
    }

    /** getAndSet: the value given replaces the content of the slot that the other side does not use, which is
        returned, and the slots change roles. This is what follows its wait, which ends with the flags equal, by the
        clock or by shutdown. */
    method GetAndSet(next: D, ghost reader: Reader) returns (ok: bool, get: D)
      requires Valid()
      modifies this`write_, data
      ensures ok == old(read_ == write_)
      ensures !ok ==> View(reader) == old(View(reader))
      ensures !ok ==> data[0] == old(data[0]) && data[1] == old(data[1]) && write_ == old(write_)
      ensures ok ==>
          var taken, other := if old(write_) then 0 else 1, if old(write_) then 1 else 0;
          && get == old(data[taken]) && data[taken] == next && data[other] == old(data[other])
          && write_ == !old(write_)
      ensures ok ==> var s := Apply(Apply(old(View(reader)), Lock(next)), Pass);
                     && get == Apply(s, Take).writer.got
                     && View(reader) == Apply(Apply(Apply(s, Take), Put), Flip).(sent := [])
    {
      if write_ != read_ {
        ok := false;
        get := next;
        return;
      }
      var which := if write_ then 0 else 1;
      get := data[which];
      data[which] := next;
      write_ := !write_;
      ok := true;
    }
  }
}
