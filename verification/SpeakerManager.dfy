/** The two clients of the transport: the audio callback, which measures levels, and the control thread, which
    stores configurations and collects levels. */
module SpeakerManager {
  import opened Levels
  import opened Transport

  /** What travels through the transport; a configuration is an opaque number here. */
  datatype TransportData = TransportData(config: int, levels: Levels, configChanged: bool)

  /** `config` and `levels` belong to the processor, `prepared` to the control thread. `published` says that the open
      section has copied its levels into its slot. `epochs` and `returned` are history: the frames processed between
      two resets, and the levels handed out by successful exchanges. */
  datatype Manager = Manager(
    t: State<TransportData>, config: int, levels: Levels, published: bool, prepared: int,
    epochs: seq<seq<Frame>>, returned: seq<Levels>)

  datatype Action =
    | Open(slotSample: bool)      // one of the two reads of write_ in getLockFreeNoFence
    | Process(frame: Frame)
    | Publish
    | Leave
    | GetLevels                   // lock and prepare, then exchange
    | ApplyConfig(config: int)
    | Exchange(step: Event<TransportData>)

  function Sampling(a: Action): Event<TransportData>
    requires a.Open?
  {
    if a.slotSample then SampleSlot else SampleFlag
  }

  function Publishing(m: Manager): Event<TransportData>
    requires m.t.reader.Inside?
  {
    Update(m.t.Slot(m.t.reader.slot).(levels := m.levels))
  }

  predicate Possible(m: Manager, a: Action) {
    match a
    case Open(_) => Enabled(m.t, Sampling(a))
    case Process(frame) => m.t.reader.Inside? && !m.published && FrameFits(|m.levels.signal|, frame)
    case Publish => m.t.reader.Inside? && !m.published
    case Leave => m.t.reader.Inside? && m.published
    case GetLevels => m.t.writer.Unlocked?
    case ApplyConfig(_) => m.t.writer.Unlocked?
    case Exchange(step) =>
      (step.GiveUp? || step.Pass? || step.Take? || step.Put? || step.Flip?) && Enabled(m.t, step)
  }

  /** The start of process: a modified section resets the levels and takes over a changed configuration. */
  function Begin(channels: nat, m: Manager): Manager {
    if !m.t.Modified() then m.(published := false)
    else
      var data := m.t.Slot(m.t.reader.slot);
      m.(published := false, levels := Zero(channels), epochs := m.epochs + [[]],
         config := if data.configChanged then data.config else m.config)
  }

  function Extended(epochs: seq<seq<Frame>>, frame: Frame): seq<seq<Frame>> {
    var last := |epochs| - 1;
    if epochs == [] then [[frame]] else epochs[last := epochs[last] + [frame]]
  }

  function Act(channels: nat, m: Manager, a: Action): Manager
    requires Possible(m, a)
  {
    match a
    case Open(_) =>
      var sampled := m.(t := Apply(m.t, Sampling(a)));
      if sampled.t.reader.Inside? then Begin(channels, sampled) else sampled
    case Process(frame) =>
      m.(levels := AddFrame(m.levels, frame), epochs := Extended(m.epochs, frame))
    case Publish => m.(t := Apply(m.t, Publishing(m)), published := true)
    case Leave => m.(t := Apply(m.t, Close))
    case GetLevels => m.(t := Apply(m.t, Lock(TransportData(m.prepared, Zero(channels), false))))
    case ApplyConfig(c) => m.(t := Apply(m.t, Lock(TransportData(c, Zero(channels), true))), prepared := c)
    case Exchange(step) =>
      var t := Apply(m.t, step);
      m.(t := t, returned := if step.Flip? then m.returned + [m.t.writer.got.levels] else m.returned)
  }

  /** onMetricsUpdate: both slots hold `original`, and the first section starts modified. */
  function Start(original: TransportData, config: int, levels: Levels): Manager {
    Manager(Init(original, true), config, levels, false, original.config, [], [])
  }

  /** Every section of the run sampled write_ once. */
  predicate Untorn(channels: nat, m: Manager, actions: seq<Action>)
    decreases |actions|
  {
    SingleSample(m.t) &&
    (actions == [] ||
     (Possible(m, actions[0]) && Untorn(channels, Act(channels, m, actions[0]), actions[1..])))
  }

  function End(channels: nat, m: Manager, actions: seq<Action>): Manager
    requires Untorn(channels, m, actions)
    decreases |actions|
  {
    if actions == [] then m else End(channels, Act(channels, m, actions[0]), actions[1..])
  }

  // ---------- What every step keeps ----------

  /** The slot that the running epoch is published in. */
  function HomeSlot(t: State<TransportData>): bool {
    if t.Modified() then t.write else t.read
  }

  /** Levels of the epoch before the running one, wherever they are: in the other slot, or already taken out. */
  function FinishedLevels(t: State<TransportData>): Levels {
    if t.writer.Stored? then t.writer.got.levels else t.Slot(!HomeSlot(t)).levels
  }

  function EpochBefore(channels: nat, original: TransportData, epochs: seq<seq<Frame>>, n: nat): Levels
    requires n <= |epochs| && forall k | 0 <= k < n :: FramesFit(channels, epochs[k])
  {
    if n == 0 then original.levels else Epoch(channels, epochs[n - 1])
  }

  ghost predicate Collected(channels: nat, original: TransportData, epochs: seq<seq<Frame>>, returned: seq<Levels>)
    requires |returned| <= |epochs| && forall k | 0 <= k < |epochs| :: FramesFit(channels, epochs[k])
  {
    forall r | 0 <= r < |returned| :: returned[r] == EpochBefore(channels, original, epochs, r)
  }

  ghost predicate Consistent(channels: nat, original: TransportData, m: Manager) {
    var e := |m.epochs|;
    && DeliveryInvariant(m.t)
    && (forall k | 0 <= k < e :: FramesFit(channels, m.epochs[k]))
    && |m.t.seen| == e
    && |m.t.sent| == |m.returned| + 1
    && (e > 0 ==> m.levels == Epoch(channels, m.epochs[e - 1]))
    && |m.returned| <= e
    && Collected(channels, original, m.epochs, m.returned)
    && (m.t.reader.Inside? ==> e > 0)
    && (e == 0 ==> m.t.slot0.levels == m.t.slot1.levels == original.levels)
    && (e > 0 && (m.t.reader.Inside? ==> m.published) ==> m.t.Slot(HomeSlot(m.t)).levels == m.levels)
    && (!Pending(m.t) ==> FinishedLevels(m.t) == EpochBefore(channels, original, m.epochs, e - 1))
  }

  /** The first of the two samples, or a section that opens unmodified. */
  lemma PlainOpenKeeps(channels: nat, original: TransportData, m: Manager, a: Action)
    requires Consistent(channels, original, m) && Possible(m, a) && SingleSample(Act(channels, m, a).t)
    requires a.Open? && !Apply(m.t, Sampling(a)).Modified()
    ensures Consistent(channels, original, Act(channels, m, a))
  {
    hide Epoch, AddFrame, Collected, EpochBefore;
  }

  lemma ModifiedOpenKeeps(channels: nat, original: TransportData, m: Manager, a: Action)
    requires Consistent(channels, original, m) && Possible(m, a) && SingleSample(Act(channels, m, a).t)
    requires a.Open? && Apply(m.t, Sampling(a)).Modified()
    ensures Consistent(channels, original, Act(channels, m, a))
  {
    hide AddFrame;
    var n := Act(channels, m, a);
    assert Pending(m.t) && n.epochs == m.epochs + [[]] && n.levels == Epoch(channels, []);
    assert m.t.Slot(m.t.read).levels == EpochBefore(channels, original, n.epochs, |m.epochs|);
    assert forall r | 0 <= r < |m.returned| ::
        EpochBefore(channels, original, n.epochs, r) == EpochBefore(channels, original, m.epochs, r);
  }

  lemma ProcessKeeps(channels: nat, original: TransportData, m: Manager, a: Action)
    requires Consistent(channels, original, m) && Possible(m, a) && SingleSample(Act(channels, m, a).t)
    requires a.Process?
    ensures Consistent(channels, original, Act(channels, m, a))
  {
    var grown := m.epochs[|m.epochs| - 1] + [a.frame];
    assert grown[..|grown| - 1] == m.epochs[|m.epochs| - 1];
  }

  lemma PublishKeeps(channels: nat, original: TransportData, m: Manager, a: Action)
    requires Consistent(channels, original, m) && Possible(m, a) && SingleSample(Act(channels, m, a).t)
    requires a.Publish?
    ensures Consistent(channels, original, Act(channels, m, a))
  {
    hide Epoch, AddFrame, Collected, EpochBefore;
  }

  lemma LeaveKeeps(channels: nat, original: TransportData, m: Manager, a: Action)
    requires Consistent(channels, original, m) && Possible(m, a) && SingleSample(Act(channels, m, a).t)
    requires a.Leave?
    ensures Consistent(channels, original, Act(channels, m, a))
  {
    hide Epoch, AddFrame, Collected, EpochBefore;
  }

  lemma LockKeeps(channels: nat, original: TransportData, m: Manager, a: Action)
    requires Consistent(channels, original, m) && Possible(m, a) && SingleSample(Act(channels, m, a).t)
    requires a.GetLevels? || a.ApplyConfig?
    ensures Consistent(channels, original, Act(channels, m, a))
  {
    hide Epoch, AddFrame, Collected, EpochBefore;
  }

  lemma FlipKeeps(channels: nat, original: TransportData, m: Manager, a: Action)
    requires Consistent(channels, original, m) && Possible(m, a) && SingleSample(Act(channels, m, a).t)
    requires a.Exchange? && a.step.Flip?
    ensures Consistent(channels, original, Act(channels, m, a))
  {
    hide AddFrame;
  }

  lemma ExchangeKeeps(channels: nat, original: TransportData, m: Manager, a: Action)
    requires Consistent(channels, original, m) && Possible(m, a) && SingleSample(Act(channels, m, a).t)
    requires a.Exchange? && !a.step.Flip?
    ensures Consistent(channels, original, Act(channels, m, a))
  {
    hide Epoch, AddFrame, Collected, EpochBefore;
  }

  lemma StepKeepsConsistent(channels: nat, original: TransportData, m: Manager, a: Action)
    requires Consistent(channels, original, m) && Possible(m, a) && SingleSample(Act(channels, m, a).t)
    ensures Consistent(channels, original, Act(channels, m, a))
  {
    match a
    case Open(_) =>
      if Apply(m.t, Sampling(a)).Modified() {
        ModifiedOpenKeeps(channels, original, m, a);
      } else {
        PlainOpenKeeps(channels, original, m, a);
      }
    case Process(_) => ProcessKeeps(channels, original, m, a);
    case Publish => PublishKeeps(channels, original, m, a);
    case Leave => LeaveKeeps(channels, original, m, a);
    case GetLevels => LockKeeps(channels, original, m, a);
    case ApplyConfig(_) => LockKeeps(channels, original, m, a);
    case Exchange(step) =>
      if step.Flip? {
        FlipKeeps(channels, original, m, a);
      } else {
        ExchangeKeeps(channels, original, m, a);
      }
  }

  lemma {:induction false} RunKeepsConsistent(channels: nat, original: TransportData, m: Manager, actions: seq<Action>)
    requires Consistent(channels, original, m) && Untorn(channels, m, actions)
    ensures Consistent(channels, original, End(channels, m, actions))
    decreases |actions|
  {
    if actions != [] {
      StepKeepsConsistent(channels, original, m, actions[0]);
      RunKeepsConsistent(channels, original, Act(channels, m, actions[0]), actions[1..]);
    }
  }

  // ---------- Conservation over whole runs ----------

  function FrameOf(a: Action): seq<Frame> {
    if a.Process? then [a.frame] else []
  }

  function FramesOf(actions: seq<Action>): seq<Frame> {
    if actions == [] then [] else FrameOf(actions[0]) + FramesOf(actions[1..])
  }

  function CountSum(returned: seq<Levels>): nat {
    if returned == [] then 0 else CountSum(returned[..|returned| - 1]) + returned[|returned| - 1].count
  }

  /** Frame counts handed out, waiting to be collected, and still running. */
  function Accounted(m: Manager): nat {
    CountSum(m.returned)
    + (if Pending(m.t) then 0 else FinishedLevels(m.t).count)
    + (if m.epochs == [] then 0 else m.levels.count)
  }

  lemma AllFramesGrow(epochs: seq<seq<Frame>>, frame: Frame)
    ensures AllFrames(epochs + [[]]) == AllFrames(epochs)
    ensures AllFrames(Extended(epochs, frame)) == AllFrames(epochs) + [frame]
  {
    assert (epochs + [[]])[..|epochs|] == epochs;
    var longer := Extended(epochs, frame);
    if epochs == [] {
      assert AllFrames([[frame]]) == AllFrames([]) + [frame];
    } else {
      assert longer[..|longer| - 1] == epochs[..|epochs| - 1];
    }
  }

  lemma AppendInParts(a: seq<Frame>, b: seq<Frame>, c: seq<Frame>)
    ensures a + b + c == a + (b + c)
  {
  }

  lemma ActExtendsFrames(channels: nat, m: Manager, a: Action)
    requires Possible(m, a)
    ensures AllFrames(Act(channels, m, a).epochs) == AllFrames(m.epochs) + FrameOf(a)
  {
    hide Apply, AddFrame, Extended, AllFrames;
    AllFramesGrow(m.epochs, if a.Process? then a.frame else []);
    assert AllFrames(m.epochs) + [] == AllFrames(m.epochs);
  }

  lemma {:induction false} EpochsAreTheFrames(channels: nat, m: Manager, actions: seq<Action>)
    requires Untorn(channels, m, actions)
    ensures AllFrames(End(channels, m, actions).epochs) == AllFrames(m.epochs) + FramesOf(actions)
    decreases |actions|
  {
    if actions != [] {
      hide Act, Possible, SingleSample, AllFrames, FrameOf;
      ActExtendsFrames(channels, m, actions[0]);
      EpochsAreTheFrames(channels, Act(channels, m, actions[0]), actions[1..]);
      AppendInParts(AllFrames(m.epochs), FrameOf(actions[0]), FramesOf(actions[1..]));
    }
  }

  lemma {:induction false} CountsOfEpochs(
      channels: nat, original: TransportData, epochs: seq<seq<Frame>>, returned: seq<Levels>)
    requires original.levels.count == 0 && |returned| <= |epochs|
    requires forall k | 0 <= k < |epochs| :: FramesFit(channels, epochs[k])
    requires Collected(channels, original, epochs, returned)
    ensures CountSum(returned) == if returned == [] then 0 else |AllFrames(epochs[..|returned| - 1])|
  {
    var r := |returned|;
    if r > 1 {
      CountsOfEpochs(channels, original, epochs, returned[..r - 1]);
      assert epochs[..r - 1][..r - 2] == epochs[..r - 2];
    }
  }

  /** In a consistent state no frame is lost and none is counted twice. */
  lemma ConsistentIsBalanced(channels: nat, original: TransportData, m: Manager)
    requires Consistent(channels, original, m) && original.levels.count == 0
    ensures Accounted(m) == |AllFrames(m.epochs)|
  {
    var e, r := |m.epochs|, |m.returned|;
    CountsOfEpochs(channels, original, m.epochs, m.returned);
    hide Epoch, Collected, CountSum;
    if e > 0 {
      assert m.epochs[..e - 1] + [m.epochs[e - 1]] == m.epochs;
      if e > 1 {
        assert m.epochs[..e - 1][..e - 2] == m.epochs[..e - 2];
      }
      assert r == if Pending(m.t) then e else e - 1;
    }
  }

  lemma StartIsConsistent(channels: nat, original: TransportData, config: int, levels: Levels)
    ensures Consistent(channels, original, Start(original, config, levels))
  {
  }

  /** Frames processed = counts returned by successful exchanges + the finished epoch not yet collected + the running
      epoch, after any run; the epochs are the processed frames in order; each returned value after the first holds
      exactly the maxima and the count of its own epoch, and the first one is the initial value. Exchanges that give
      up are part of these runs. */
  lemma LevelsAreConserved(
      channels: nat, original: TransportData, config: int, levels: Levels, actions: seq<Action>)
    requires original.levels.count == 0
    requires Untorn(channels, Start(original, config, levels), actions)
    ensures var m := End(channels, Start(original, config, levels), actions);
            && |FramesOf(actions)| == Accounted(m)
            && AllFrames(m.epochs) == FramesOf(actions)
            && |m.returned| <= |m.epochs|
            && (m.returned != [] ==> m.returned[0] == original.levels)
            && (forall r | 1 <= r < |m.returned| :: IsMaximumOver(m.returned[r], channels, m.epochs[r - 1]))
  {
    var start := Start(original, config, levels);
    StartIsConsistent(channels, original, config, levels);
    RunKeepsConsistent(channels, original, start, actions);
    EpochsAreTheFrames(channels, start, actions);
    var m := End(channels, start, actions);
    ConsistentIsBalanced(channels, original, m);
    forall r | 1 <= r < |m.returned|
      ensures IsMaximumOver(m.returned[r], channels, m.epochs[r - 1])
    {
      EpochIsMaximum(channels, m.epochs[r - 1]);
    }
  }

  // ---------- A torn section breaks the balance ----------

  function Processing(frames: seq<Frame>): seq<Action> {
    if frames == [] then [] else [Process(frames[0])] + Processing(frames[1..])
  }

  /** A section with a flip between its two samples that processes a block, and the opening of an ordinary one. */
  function Tear(slotFirst: bool, frames: seq<Frame>): seq<Action> {
    [Open(slotFirst), Exchange(Flip), Open(!slotFirst)]
    + ((Processing(frames) + [Publish, Leave]) + [Open(true), Open(false)])
  }

  predicate Follows(channels: nat, m: Manager, actions: seq<Action>)
    decreases |actions|
  {
    actions == [] ||
    (Possible(m, actions[0]) && Follows(channels, Act(channels, m, actions[0]), actions[1..]))
  }

  function Outcome(channels: nat, m: Manager, actions: seq<Action>): Manager
    requires Follows(channels, m, actions)
    decreases |actions|
  {
    if actions == [] then m else Outcome(channels, Act(channels, m, actions[0]), actions[1..])
  }

  lemma {:induction false} OutcomeSplit(channels: nat, m: Manager, first: seq<Action>, second: seq<Action>)
    requires Follows(channels, m, first) && Follows(channels, Outcome(channels, m, first), second)
    ensures Follows(channels, m, first + second)
    ensures Outcome(channels, m, first + second) == Outcome(channels, Outcome(channels, m, first), second)
    decreases |first|
  {
    if first == [] {
      assert first + second == second;
    } else {
      assert (first + second)[1..] == first[1..] + second;
      OutcomeSplit(channels, Act(channels, m, first[0]), first[1..], second);
    }
  }

  lemma OutcomeCons(channels: nat, m: Manager, a: Action, rest: seq<Action>)
    requires Possible(m, a) && Follows(channels, Act(channels, m, a), rest)
    ensures Follows(channels, m, [a] + rest)
    ensures Outcome(channels, m, [a] + rest) == Outcome(channels, Act(channels, m, a), rest)
  {
    assert ([a] + rest)[1..] == rest;
  }

  /** What the three steps of a torn opening do. */
  lemma TornOpening(channels: nat, original: TransportData, m: Manager, slotFirst: bool)
    requires Consistent(channels, original, m)
    requires m.t.reader.Outside? && m.t.writer.Stored?
    ensures var open := [Open(slotFirst), Exchange(Flip), Open(!slotFirst)];
            Follows(channels, m, open) &&
            var n := Outcome(channels, m, open);
            && n.t.read == m.t.read && n.t.write == !m.t.write && n.t.slot0 == m.t.slot0 && n.t.slot1 == m.t.slot1
            && n.t.reader == (if slotFirst then Inside(m.t.write, !m.t.write) else Inside(!m.t.write, m.t.write))
            && n.t.writer == Unlocked && !n.published
            && n.returned == m.returned + [m.t.writer.got.levels]
            && n.levels == (if slotFirst then Zero(channels) else m.levels)
            && n.epochs == (if slotFirst then m.epochs + [[]] else m.epochs)
  {
    var a, b, c := Open(slotFirst), Exchange(Flip), Open(!slotFirst);
    var n1 := Act(channels, m, a);
    var n2 := Act(channels, n1, b);
    OutcomeCons(channels, n2, c, []);
    OutcomeCons(channels, n1, b, [c]);
    OutcomeCons(channels, m, a, [b, c]);
    assert [c] + [] == [c] && [b] + [c] == [b, c] && [a] + [b, c] == [a, b, c];
  }

  /** A block of frames adds its length to the running epoch and changes nothing else. */
  lemma {:induction false} BlockOutcome(channels: nat, m: Manager, frames: seq<Frame>)
    requires m.t.reader.Inside? && !m.published && m.epochs != []
    requires |m.levels.signal| == channels && FramesFit(channels, frames)
    ensures Follows(channels, m, Processing(frames))
    ensures var n := Outcome(channels, m, Processing(frames));
            && n == m.(levels := n.levels, epochs := n.epochs) && n.epochs != []
            && n.levels.count == m.levels.count + |frames|
            && |n.levels.signal| == channels
            && AllFrames(n.epochs) == AllFrames(m.epochs) + frames
    decreases |frames|
  {
    if frames != [] {
      var a := Process(frames[0]);
      var n := Act(channels, m, a);
      ActExtendsFrames(channels, m, a);
      hide AddFrame, AllFrames;
      BlockOutcome(channels, n, frames[1..]);
      OutcomeCons(channels, m, a, Processing(frames[1..]));
      AppendInParts(AllFrames(m.epochs), [frames[0]], frames[1..]);
      assert [frames[0]] + frames[1..] == frames;
    }
  }

  /** The block is published into the slot of the section, and the section is left. */
  lemma PublishAndLeave(channels: nat, m: Manager)
    requires m.t.reader.Inside? && !m.published
    ensures var steps := [Publish, Leave];
            Follows(channels, m, steps) &&
            var n := Outcome(channels, m, steps);
            && n.t.read == m.t.reader.flag && n.t.write == m.t.write && n.t.reader == Outside
            && n.t.writer == m.t.writer && n.returned == m.returned
            && n.t.Slot(m.t.reader.slot).levels == m.levels
            && n.t.Slot(!m.t.reader.slot) == m.t.Slot(!m.t.reader.slot)
            && n.levels == m.levels && n.epochs == m.epochs
  {
    var n1 := Act(channels, m, Publish);
    OutcomeCons(channels, n1, Leave, []);
    OutcomeCons(channels, m, Publish, [Leave]);
    assert [Leave] + [] == [Leave] && [Publish] + [Leave] == [Publish, Leave];
  }

  lemma BlockSection(channels: nat, m: Manager, frames: seq<Frame>)
    requires m.t.reader.Inside? && !m.published && m.epochs != []
    requires |m.levels.signal| == channels && FramesFit(channels, frames)
    ensures var steps := Processing(frames) + [Publish, Leave];
            Follows(channels, m, steps) &&
            var n := Outcome(channels, m, steps);
            && n.t.read == m.t.reader.flag && n.t.write == m.t.write && n.t.reader == Outside
            && n.t.writer == m.t.writer && n.returned == m.returned
            && n.t.Slot(m.t.reader.slot).levels == n.levels
            && n.t.Slot(!m.t.reader.slot) == m.t.Slot(!m.t.reader.slot)
            && n.levels.count == m.levels.count + |frames| && n.epochs != []
            && AllFrames(n.epochs) == AllFrames(m.epochs) + frames
  {
    hide Act, Follows, Outcome, Processing, AllFrames;
    BlockOutcome(channels, m, frames);
    PublishAndLeave(channels, Outcome(channels, m, Processing(frames)));
    OutcomeSplit(channels, m, Processing(frames), [Publish, Leave]);
  }

  lemma PlainOpening(channels: nat, m: Manager)
    requires m.t.reader.Outside?
    ensures var steps := [Open(true), Open(false)];
            Follows(channels, m, steps) &&
            var n := Outcome(channels, m, steps);
            && n.t.read == m.t.read && n.t.write == m.t.write && n.t.reader == Inside(m.t.write, m.t.write)
            && n.t.slot0 == m.t.slot0 && n.t.slot1 == m.t.slot1
            && n.t.writer == m.t.writer && n.returned == m.returned
            && n.levels == (if m.t.read != m.t.write then Zero(channels) else m.levels)
            && n.epochs == (if m.t.read != m.t.write then m.epochs + [[]] else m.epochs)
  {
    var n1 := Act(channels, m, Open(true));
    OutcomeCons(channels, n1, Open(false), []);
    OutcomeCons(channels, m, Open(true), [Open(false)]);
    assert [Open(false)] + [] == [Open(false)] && [Open(true)] + [Open(false)] == [Open(true), Open(false)];
  }

  /** The state after a tear, from the state before its flip. */
  lemma TearOutcome(channels: nat, original: TransportData, m: Manager, slotFirst: bool, frames: seq<Frame>)
    requires Consistent(channels, original, m)
    requires m.t.reader.Outside? && m.t.writer.Stored? && m.epochs != [] && FramesFit(channels, frames)
    ensures Follows(channels, m, Tear(slotFirst, frames))
    ensures var n := Outcome(channels, m, Tear(slotFirst, frames));
            && m.t.read == m.t.write && n.t.write == !m.t.write && n.t.read == (slotFirst != m.t.write)
            && n.t.reader == Inside(n.t.write, n.t.write) && n.t.writer == Unlocked
            && n.returned == m.returned + [m.t.writer.got.levels] && n.epochs != []
            && |AllFrames(n.epochs)| == |AllFrames(m.epochs)| + |frames|
            && (if slotFirst then n.levels.count == |frames| && n.t.Slot(m.t.write).levels == n.levels
                else n.levels == Zero(channels) && n.t.Slot(m.t.write).levels == m.levels)
  {
    hide Act, Apply, Begin, Epoch, AddFrame, Extended, Follows, Outcome, Possible, Collected, EpochBefore, AllFrames,
      Processing;
    TornOpening(channels, original, m, slotFirst);
    var first := [Open(slotFirst), Exchange(Flip), Open(!slotFirst)];
    var block, last := Processing(frames) + [Publish, Leave], [Open(true), Open(false)];
    var torn := Outcome(channels, m, first);
    AllFramesGrow(m.epochs, []);
    BlockSection(channels, torn, frames);
    var left := Outcome(channels, torn, block);
    PlainOpening(channels, left);
    AllFramesGrow(left.epochs, []);
    OutcomeSplit(channels, torn, block, last);
    OutcomeSplit(channels, m, first, block + last);
    assert Tear(slotFirst, frames) == first + (block + last);
  }

  /** Single sampling is needed. Flag first: the torn section publishes into the new slot and none of its frames is
      ever accounted for. Slot first: the torn section overwrites the finished epoch, and the books balance only by
      the coincidence that this epoch was as long as the block. */
  lemma TornSectionUnbalances(
      channels: nat, original: TransportData, m: Manager, slotFirst: bool, frames: seq<Frame>)
    requires Consistent(channels, original, m) && original.levels.count == 0
    requires m.t.reader.Outside? && m.t.writer.Stored? && m.epochs != [] && FramesFit(channels, frames)
    ensures Follows(channels, m, Tear(slotFirst, frames))
    ensures var n := Outcome(channels, m, Tear(slotFirst, frames));
            if slotFirst then Accounted(n) == |AllFrames(n.epochs)| <==> m.levels.count == |frames|
            else Accounted(n) + |frames| == |AllFrames(n.epochs)|
  {
    hide Follows, Outcome, Tear, Consistent, AllFrames;
    TearOutcome(channels, original, m, slotFirst, frames);
    ConsistentIsBalanced(channels, original, m);
    var n := Outcome(channels, m, Tear(slotFirst, frames));
    assert n.returned[..|m.returned|] == m.returned;
  }

  // ---------- The configuration in force ----------

  function LastConfig(config: int, seen: seq<TransportData>): int {
    if seen == [] then config
    else
      var last := seen[|seen| - 1];
      if last.configChanged then last.config else LastConfig(config, seen[..|seen| - 1])
  }

  lemma {:induction false} ConfigFollowsSeen(channels: nat, config: int, m: Manager, actions: seq<Action>)
    requires Untorn(channels, m, actions) && m.config == LastConfig(config, m.t.seen)
    ensures var n := End(channels, m, actions);
            n.config == LastConfig(config, n.t.seen)
    decreases |actions|
  {
    if actions != [] {
      var n := Act(channels, m, actions[0]);
      ActFollowsSeen(channels, config, m, actions[0]);
      hide Act, LastConfig;
      ConfigFollowsSeen(channels, config, n, actions[1..]);
    }
  }

  lemma OnlyOpeningsSee(t: State<TransportData>, e: Event<TransportData>)
    requires Enabled(t, e) && !e.SampleSlot? && !e.SampleFlag?
    ensures Apply(t, e).seen == t.seen
  {
  }

  lemma OpeningSees(t: State<TransportData>, e: Event<TransportData>)
    requires Enabled(t, e) && (e.SampleSlot? || e.SampleFlag?)
    ensures var s := Apply(t, e);
            s.seen == if s.Modified() then t.seen + [s.Slot(s.reader.slot)] else t.seen
  {
  }

  lemma LastConfigGrows(config: int, seen: seq<TransportData>, data: TransportData)
    ensures LastConfig(config, seen + [data]) ==
            if data.configChanged then data.config else LastConfig(config, seen)
  {
    assert (seen + [data])[..|seen|] == seen;
  }

  lemma ActFollowsSeen(channels: nat, config: int, m: Manager, a: Action)
    requires Possible(m, a) && m.config == LastConfig(config, m.t.seen)
    ensures var n := Act(channels, m, a); n.config == LastConfig(config, n.t.seen)
  {
    hide AddFrame, Extended, Zero, Apply, LastConfig;
    match a
    case Open(_) =>
      OpeningSees(m.t, Sampling(a));
      var t := Apply(m.t, Sampling(a));
      if t.Modified() {
        LastConfigGrows(config, m.t.seen, t.Slot(t.reader.slot));
      }
    case Process(_) =>
    case Publish => OnlyOpeningsSee(m.t, Publishing(m));
    case Leave => OnlyOpeningsSee(m.t, Close);
    case GetLevels => OnlyOpeningsSee(m.t, Lock(TransportData(m.prepared, Zero(channels), false)));
    case ApplyConfig(c) => OnlyOpeningsSee(m.t, Lock(TransportData(c, Zero(channels), true)));
    case Exchange(step) => OnlyOpeningsSee(m.t, step);
  }

  /** What the control thread asks for: levels only, or levels together with a new configuration. */
  datatype Request = NoRequest | LevelsOnly | NewConfig(config: int)

  /** The requests whose exchange came to its flip, in order, from the actions alone. */
  function Succeeded(request: Request, actions: seq<Action>): seq<Request>
    decreases |actions|
  {
    if actions == [] then []
    else
      match actions[0]
      case GetLevels => Succeeded(LevelsOnly, actions[1..])
      case ApplyConfig(config) => Succeeded(NewConfig(config), actions[1..])
      case Exchange(step) =>
        if step.Flip? then [request] + Succeeded(NoRequest, actions[1..])
        else Succeeded(if step.GiveUp? then NoRequest else request, actions[1..])
      case _ => Succeeded(request, actions[1..])
  }

  /** The last configuration asked for; asking for levels changes none. */
  function LastAsked(config: int, requests: seq<Request>): int {
    if requests == [] then config
    else
      var last := requests[|requests| - 1];
      if last.NewConfig? then last.config else LastAsked(config, requests[..|requests| - 1])
  }

  /** The data carries what the request asks for. */
  predicate Carries(data: TransportData, request: Request) {
    match request
    case NoRequest => false
    case LevelsOnly => !data.configChanged
    case NewConfig(config) => data.configChanged && data.config == config
  }

  predicate Carry(sent: seq<TransportData>, requests: seq<Request>) {
    |sent| == |requests| && forall k | 0 <= k < |sent| :: Carries(sent[k], requests[k])
  }

  /** `request` is the one under way; once stored, the writer's slot carries it. */
  predicate Asking(t: State<TransportData>, request: Request) {
    match t.writer
    case Unlocked => request == NoRequest
    case Waiting(next) => Carries(next, request)
    case Passed(next) => Carries(next, request)
    case Taken(next, _) => Carries(next, request)
    case Stored(_) => Carries(t.Slot(WriterSlot(t)), request)
  }

  function NextRequest(request: Request, a: Action): Request {
    match a
    case GetLevels => LevelsOnly
    case ApplyConfig(config) => NewConfig(config)
    case Exchange(step) => if step.Flip? || step.GiveUp? then NoRequest else request
    case _ => request
  }

  lemma StepKeepsAsking(
      t: State<TransportData>, request: Request, e: Event<TransportData>, next: Request)
    requires Guarded(t) && Asking(t, request) && Enabled(t, e)
    requires if e.Lock? then Carries(e.next, next)
             else next == if e.GiveUp? || e.Flip? then NoRequest else request
    ensures Guarded(Apply(t, e)) && Asking(Apply(t, e), next)
    ensures e.Flip? ==> Apply(t, e).sent == t.sent + [t.Slot(WriterSlot(t))] && Carries(t.Slot(WriterSlot(t)), request)
    ensures !e.Flip? ==> Apply(t, e).sent == t.sent
  {
    hide Carries;
  }

  lemma ActKeepsAsking(channels: nat, m: Manager, request: Request, a: Action)
    requires Guarded(m.t) && Asking(m.t, request) && Possible(m, a)
    ensures Guarded(Act(channels, m, a).t)
    ensures Asking(Act(channels, m, a).t, NextRequest(request, a))
    ensures var flips := a.Exchange? && a.step.Flip?;
            && (flips ==> Act(channels, m, a).t.sent == m.t.sent + [m.t.Slot(WriterSlot(m.t))]
                          && Carries(m.t.Slot(WriterSlot(m.t)), request))
            && (!flips ==> Act(channels, m, a).t.sent == m.t.sent)
  {
    hide AddFrame, Extended, Zero, Apply, Guarded, Asking;
    var next := NextRequest(request, a);
    match a
    case Open(_) => StepKeepsAsking(m.t, request, Sampling(a), next);
    case Process(_) =>
    case Publish => StepKeepsAsking(m.t, request, Publishing(m), next);
    case Leave => StepKeepsAsking(m.t, request, Close, next);
    case GetLevels => StepKeepsAsking(m.t, request, Lock(TransportData(m.prepared, Zero(channels), false)), next);
    case ApplyConfig(c) => StepKeepsAsking(m.t, request, Lock(TransportData(c, Zero(channels), true)), next);
    case Exchange(step) => StepKeepsAsking(m.t, request, step, next);
  }

  /** Every value that a run sends carries the request that succeeded with it. */
  lemma {:induction false} SentCarriesRequests(
      channels: nat, m: Manager, request: Request, done: seq<Request>, actions: seq<Action>)
    requires Guarded(m.t) && Asking(m.t, request) && m.t.sent != [] && Carry(m.t.sent[1..], done)
    requires Untorn(channels, m, actions)
    ensures var sent := End(channels, m, actions).t.sent;
            sent != [] && sent[0] == m.t.sent[0] && Carry(sent[1..], done + Succeeded(request, actions))
    decreases |actions|
  {
    hide Act, Asking, Guarded, Carries;
    if actions == [] {
      assert done + [] == done;
    } else {
      var a, rest := actions[0], actions[1..];
      var n := Act(channels, m, a);
      ActKeepsAsking(channels, m, request, a);
      var more := if a.Exchange? && a.step.Flip? then [request] else [];
      assert done + more + Succeeded(NextRequest(request, a), rest) == done + Succeeded(request, actions);
      if more != [] {
        assert n.t.sent[1..] == m.t.sent[1..] + [m.t.Slot(WriterSlot(m.t))];
      }
      SentCarriesRequests(channels, n, NextRequest(request, a), done + more, rest);
    }
  }

  lemma {:induction false} LastOfCarried(config: int, sent: seq<TransportData>, requests: seq<Request>)
    requires sent != [] && Carry(sent[1..], requests)
    ensures LastConfig(config, sent)
         == LastAsked(if sent[0].configChanged then sent[0].config else config, requests)
    decreases |requests|
  {
    var n := |sent| - 1;
    if requests != [] {
      assert sent[..n][1..] == sent[1..][..n - 1];
      assert Carries(sent[1..][n - 1], requests[n - 1]);
      LastOfCarried(config, sent[..n], requests[..n - 1]);
    } else {
      assert sent[..0] == [];
    }
  }

  /** The processor runs with the last configuration that the control thread successfully asked for, or with the
      initial one before any, except that the last request may still wait for its section. */
  lemma ConfigInForce(channels: nat, original: TransportData, config: int, levels: Levels, actions: seq<Action>)
    requires Untorn(channels, Start(original, config, levels), actions)
    ensures var m, asked := End(channels, Start(original, config, levels), actions), Succeeded(NoRequest, actions);
            var first := if original.configChanged then original.config else config;
            m.config == if !Pending(m.t) then LastAsked(first, asked)
                        else if asked == [] then config
                        else LastAsked(first, asked[..|asked| - 1])
  {
    var start, asked := Start(original, config, levels), Succeeded(NoRequest, actions);
    StartIsConsistent(channels, original, config, levels);
    RunKeepsConsistent(channels, original, start, actions);
    ConfigFollowsSeen(channels, config, start, actions);
    assert [] + asked == asked;
    SentCarriesRequests(channels, start, NoRequest, [], actions);
    var m := End(channels, start, actions);
    var sent := m.t.sent;
    assert m.t.seen == if Pending(m.t) then sent[..|sent| - 1] else sent;
    if !Pending(m.t) {
      LastOfCarried(config, sent, asked);
    } else if asked != [] {
      var n := |sent| - 1;
      assert sent[..n][1..] == sent[1..][..n - 1];
      LastOfCarried(config, sent[..n], asked[..n - 1]);
    }
  }

  // ---------- The callback ----------

  function AddFrames(l: Levels, frames: seq<Frame>): (m: Levels)
    requires FramesFit(|l.signal|, frames)
    ensures |m.signal| == |l.signal|
  {
    if frames == [] then l
    else AddFrame(AddFrames(l, frames[..|frames| - 1]), frames[|frames| - 1])
  }

  /** A block of frames extends the running epoch. */
  lemma {:induction false} BlockExtendsEpoch(channels: nat, before: seq<Frame>, frames: seq<Frame>)
    requires FramesFit(channels, before) && FramesFit(channels, frames)
    ensures FramesFit(channels, before + frames)
    ensures AddFrames(Epoch(channels, before), frames) == Epoch(channels, before + frames)
  {
    if frames == [] {
      assert before + frames == before;
    } else {
      var rest := frames[..|frames| - 1];
      BlockExtendsEpoch(channels, before, rest);
      assert (before + frames)[..|before + frames| - 1] == before + rest;
    }
  }

  /** process of the source, between the opening of its section and the destructor. */
  method ProcessBlock(levels: DynamicProcessorLevels, modified: bool, frames: seq<Frame>) returns (published: Levels)
    requires levels.Valid() && FramesFit(levels.channels, frames)
    modifies levels`count, levels.signalSquare
    ensures published == levels.View()
    ensures published == AddFrames(if modified then Zero(levels.channels) else old(levels.View()), frames)
  {
    if modified {
      levels.Reset();
    }
    ghost var start := levels.View();
    for i := 0 to |frames|
      invariant levels.View() == AddFrames(start, frames[..i])
    {
      levels.ProcessFrame(frames[i]);
      assert frames[..i + 1][..i] == frames[..i];
    }
    assert frames[..|frames|] == frames;
    published := Levels(levels.signalSquare[..levels.channels], levels.count);
  }
}
