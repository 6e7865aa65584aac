/** The RTSP feeder thread: the gated loop that drains the encoded-frame queue into appsrc.

    `FeederLoop` is the loop itself, run against whatever its reads return. `FeederProtocol`
    below puts the thread next to the producer, the appsrc callbacks and `shutdown`, with every
    read of shared state a step of its own.
 */
module RtspFeeder {

  /** GST_CLOCK_TIME_NONE: the value `base_pts` holds until the first frame is offered. */
  const CLOCK_TIME_NONE: nat := 0xFFFF_FFFF_FFFF_FFFF

  datatype EncodedFrame = EncodedFrame(data: seq<bv8>, ptsNs: nat, keyframe: bool)

  datatype Flow = FlowOk | FlowFlushing | FlowOther

  /** What one iteration that popped `item` read from the outside: the gate, whether an appsrc
      was attached, the time since the thread started and the result of push-buffer. */
  datatype Reading = Reading(item: EncodedFrame, gate: bool, client: bool, elapsed: nat, flow: Flow)

  /** One buffer offered to appsrc. */
  datatype Offer = Offer(item: EncodedFrame, pts: nat, deltaUnit: bool)

  datatype Feeder = Feeder(basePts: nat, served: nat, offers: seq<Offer>)

  const FRESH := Feeder(CLOCK_TIME_NONE, 0, [])

  predicate Passes(r: Reading) {
    (r.gate || r.item.keyframe) && r.client
  }

  function Emit(f: Feeder, r: Reading): Feeder {
    var base := if f.basePts == CLOCK_TIME_NONE then r.item.ptsNs else f.basePts;
    var pts := if r.item.ptsNs >= base then r.item.ptsNs - base else r.elapsed;
    Feeder(base,
           f.served + (if r.flow == FlowOk then 1 else 0),
           f.offers + [Offer(r.item, pts, !r.item.keyframe)])
  }

  function Feed(f: Feeder, r: Reading): Feeder {
    if Passes(r) then Emit(f, r) else f
  }

  function FeedAll(f: Feeder, rs: seq<Reading>): Feeder {
    if rs == [] then f else Feed(FeedAll(f, rs[..|rs| - 1]), rs[|rs| - 1])
  }

  function Passing(rs: seq<Reading>): seq<Reading> {
    if rs == [] then []
    else Passing(rs[..|rs| - 1]) + (if Passes(rs[|rs| - 1]) then [rs[|rs| - 1]] else [])
  }

  /** An iteration in which pop returned a frame, one in which it returned nothing because the
      queue was closed, or one whose loop test found `running_` false. */
  datatype Iteration = Got(reading: Reading) | QueueClosed | Stopped

  /** The loop of the feeder thread. The readings it handled are those before the first
      iteration that ends it. */
  method FeederLoop(iterations: seq<Iteration>) returns (f: Feeder, handled: seq<Reading>)
    ensures |handled| <= |iterations|
    ensures forall i :: 0 <= i < |handled| ==> iterations[i] == Got(handled[i])
    ensures |handled| < |iterations| ==> !iterations[|handled|].Got?
    ensures f == FeedAll(FRESH, handled)
  {
    var basePts, served, offers := CLOCK_TIME_NONE, 0, [];
    handled := [];
    var k := 0;
    while k < |iterations|
      invariant 0 <= k <= |iterations| && |handled| == k
      invariant forall i :: 0 <= i < k ==> iterations[i] == Got(handled[i])
      invariant Feeder(basePts, served, offers) == FeedAll(FRESH, handled)
    {
      if !iterations[k].Got? {
        break;
      }
      var r := iterations[k].reading;
      assert (handled + [r])[..k] == handled;
      handled := handled + [r];
      k := k + 1;
      if !r.gate {
        if !r.item.keyframe {
          continue;
        }
      }
      if !r.client {
        continue;
      }
      if basePts == CLOCK_TIME_NONE {
        basePts := r.item.ptsNs;
      }
      var pts := if r.item.ptsNs >= basePts then r.item.ptsNs - basePts else r.elapsed;
      offers := offers + [Offer(r.item, pts, !r.item.keyframe)];
      if r.flow == FlowOk {
        served := served + 1;
      }
    }
    f := Feeder(basePts, served, offers);
  }

  /** How many of these push-buffer calls were accepted. */
  function CountOk(rs: seq<Reading>): nat {
    if rs == [] then 0 else CountOk(rs[..|rs| - 1]) + (if rs[|rs| - 1].flow == FlowOk then 1 else 0)
  }

  /** Exactly the passing iterations are offered, in order, and flagged by keyframe. */
  lemma {:induction false} OffersArePassing(rs: seq<Reading>)
    ensures var f := FeedAll(FRESH, rs);
      && |f.offers| == |Passing(rs)|
      && (forall k :: 0 <= k < |f.offers| ==>
            && f.offers[k].item == Passing(rs)[k].item
            && f.offers[k].deltaUnit == !f.offers[k].item.keyframe
            && Passes(Passing(rs)[k]) && Passing(rs)[k] in rs
            && (f.offers[k].deltaUnit ==> Passing(rs)[k].gate))
  {
    if rs == [] {
    } else {
      OffersArePassing(rs[..|rs| - 1]);
    }
  }

  /** The iterations to be offered: with a client, every keyframe, and delta frames with the gate
      open. */
  ghost function Wanted(rs: seq<Reading>): (at: seq<nat>)
    ensures forall i: nat :: i in at <==> i < |rs| && rs[i].client && (rs[i].item.keyframe || rs[i].gate)
    ensures forall k :: 0 <= k < |at| ==> at[k] < |rs|
    ensures forall k, l :: 0 <= k < l < |at| ==> at[k] < at[l]
  {
    if rs == [] then []
    else
      var n := |rs| - 1;
      Wanted(rs[..n])
      + (if rs[n].client && rs[n].item.keyframe then [n] else if rs[n].client && rs[n].gate then [n] else [])
  }

  lemma {:induction false} PassingIsWanted(rs: seq<Reading>)
    ensures |Passing(rs)| == |Wanted(rs)|
    ensures forall k :: 0 <= k < |Wanted(rs)| ==> Wanted(rs)[k] < |rs| && Passing(rs)[k] == rs[Wanted(rs)[k]]
  {
    if rs == [] {
    } else {
      var n := |rs| - 1;
      PassingIsWanted(rs[..n]);
      assert rs == rs[..n] + [rs[n]];
    }
  }

  /** Offered are exactly these, in order. */
  lemma OffersAreWanted(rs: seq<Reading>)
    ensures var offers, at := FeedAll(FRESH, rs).offers, Wanted(rs);
      && |offers| == |at|
      && (forall k :: 0 <= k < |at| ==> at[k] < |rs| && offers[k].item == rs[at[k]].item)
  {
    OffersArePassing(rs);
    PassingIsWanted(rs);
  }

  lemma CountOkSnoc(rs: seq<Reading>, r: Reading)
    ensures CountOk(rs + [r]) == CountOk(rs) + (if r.flow == FlowOk then 1 else 0)
  {
    assert (rs + [r])[..|rs|] == rs;
  }

  /** The served counter is the number of offers that were accepted: all of them exactly if every
      call returned ok, none exactly if no call did. */
  lemma {:induction false} ServedCounts(rs: seq<Reading>)
    ensures FeedAll(FRESH, rs).served == CountOk(Passing(rs)) <= |Passing(rs)|
    ensures FeedAll(FRESH, rs).served == |Passing(rs)| <==>
      forall k :: 0 <= k < |Passing(rs)| ==> Passing(rs)[k].flow == FlowOk
    ensures FeedAll(FRESH, rs).served == 0 <==>
      forall k :: 0 <= k < |Passing(rs)| ==> Passing(rs)[k].flow != FlowOk
  {
    if rs == [] {
    } else {
      var n := |rs| - 1;
      var before := Passing(rs[..n]);
      ServedCounts(rs[..n]);
      if Passes(rs[n]) {
        CountOkSnoc(before, rs[n]);
        assert Passing(rs) == before + [rs[n]];
      } else {
        assert Passing(rs) == before + [] == before;
      }
    }
  }

  /** The first timestamp that is one, or none. */
  function FirstValid(rs: seq<Reading>): nat {
    if rs == [] then CLOCK_TIME_NONE
    else if rs[0].item.ptsNs != CLOCK_TIME_NONE then rs[0].item.ptsNs
    else FirstValid(rs[1..])
  }

  lemma {:induction false} FirstValidSnoc(rs: seq<Reading>, r: Reading)
    ensures FirstValid(rs + [r]) ==
      if FirstValid(rs) == CLOCK_TIME_NONE then r.item.ptsNs else FirstValid(rs)
  {
    if rs != [] {
      FirstValidSnoc(rs[1..], r);
      assert (rs + [r])[1..] == rs[1..] + [r];
    }
  }

  /** The base in force for the offer at `k`: the first valid timestamp up to and including it. */
  function BaseAt(p: seq<Reading>, k: nat): nat
    requires k < |p|
  {
    FirstValid(p[..k + 1])
  }

  /** Distance from the base, or the wall clock for a frame older than it. */
  function Rebased(r: Reading, base: nat): nat {
    if r.item.ptsNs >= base then r.item.ptsNs - base else r.elapsed
  }

  /** Each offered frame is stamped with its distance from the first valid timestamp offered up to
      then; only a frame older than that gets the wall clock, and while no timestamp has been
      valid yet frames go out at 0. */
  lemma {:induction false} TimestampsRebased(rs: seq<Reading>)
    ensures var f, p := FeedAll(FRESH, rs), Passing(rs);
      && f.basePts == FirstValid(p) && |f.offers| == |p|
      && (forall k :: 0 <= k < |p| ==> f.offers[k].pts == Rebased(p[k], BaseAt(p, k)))
      && (forall k :: 0 <= k < |p| && BaseAt(p, k) == CLOCK_TIME_NONE ==> f.offers[k].pts == 0)
  {
    if rs == [] {
    } else {
      var r, p := rs[|rs| - 1], Passing(rs[..|rs| - 1]);
      TimestampsRebased(rs[..|rs| - 1]);
      if Passes(r) {
        FirstValidSnoc(p, r);
        BasesSnoc(p, r);
        assert Passing(rs) == p + [r];
      } else {
        assert Passing(rs) == p + [] == p;
      }
    }
  }

  lemma BasesSnoc(p: seq<Reading>, r: Reading)
    ensures forall k :: 0 <= k < |p| ==> BaseAt(p + [r], k) == BaseAt(p, k)
    ensures BaseAt(p + [r], |p|) == FirstValid(p + [r])
  {
    assert (p + [r])[..|p| + 1] == p + [r];
    forall k | 0 <= k < |p| ensures BaseAt(p + [r], k) == BaseAt(p, k) {
      assert (p + [r])[..k + 1] == p[..k + 1];
    }
  }

  ghost predicate NonDecreasingPts(rs: seq<Reading>) {
    && (forall i :: 0 <= i < |rs| ==> rs[i].item.ptsNs < CLOCK_TIME_NONE)
    && (forall i, j :: 0 <= i < j < |rs| ==> rs[i].item.ptsNs <= rs[j].item.ptsNs)
  }

  lemma {:induction false} PassingKeepsOrder(rs: seq<Reading>)
    requires NonDecreasingPts(rs)
    ensures NonDecreasingPts(Passing(rs))
    ensures forall k :: 0 <= k < |Passing(rs)| ==> Passing(rs)[k] in rs
  {
    if rs == [] {
    } else {
      PassingKeepsOrder(rs[..|rs| - 1]);
    }
  }

  /** For input timestamps in order, every difference between offered frames is preserved. */
  lemma DifferencesPreserved(rs: seq<Reading>, i: nat, j: nat)
    requires NonDecreasingPts(rs)
    requires i <= j < |FeedAll(FRESH, rs).offers|
    ensures var o := FeedAll(FRESH, rs).offers;
      && o[0].pts == 0
      && o[j].pts - o[i].pts == o[j].item.ptsNs - o[i].item.ptsNs >= 0
  {
    TimestampsRebased(rs);
    OffersArePassing(rs);
    PassingKeepsOrder(rs);
    var p := Passing(rs);
    assert BaseAt(p, 0) == BaseAt(p, i) == BaseAt(p, j) == p[0].item.ptsNs;
  }
}

/** The feeder thread in every interleaving with the producer, the appsrc callbacks, another
    closer of the queue and `shutdown`. */
module FeederProtocol {
  import opened Sequences
  import opened FrameQueues
  import opened RtspFeeder

  /** Where the feeder thread is: `Asleep` in the wait of `pop`, `Awake` when notified or awake by
      itself and about to take the lock again. A frame in hand carries its position among accepted frames. */
  datatype Pc =
    | AtTest
    | AtPop
    | Asleep
    | Awake
    | AtGate(index: nat, item: EncodedFrame)
    | AtClient(index: nat, item: EncodedFrame, gate: bool)
    | AtPushBuffer(index: nat, item: EncodedFrame, gate: bool)
    | Exited

  /** What became of a popped frame. */
  datatype Outcome = SkippedByGate | NoClient | Offered(gate: bool)
  datatype Decision = Decision(index: nat, item: EncodedFrame, outcome: Outcome)

  /** `owedOne` and `owedAll` count the notifications of pushes and closes that have released the
      lock but not notified yet. `log`, `readings`, `attached`, `attachedAt` and `stoppedAt` only
      record the run: the fate of each popped frame, the reads behind each offer, whether a client
      was ever attached, and how many decisions and offers had been made when the first one was
      and when `running_` became false. */
  datatype Sys = Sys(view: View<EncodedFrame>, running: bool, feeding: bool, client: bool,
                     owedOne: nat, owedAll: nat,
                     pc: Pc, feeder: Feeder, log: seq<Decision>, readings: seq<Reading>,
                     attached: bool, attachedAt: nat, stoppedAt: nat)

  datatype Step =
    | Push(x: EncodedFrame)
    | CloseQueue
    | NotifyOne
    | NotifyAll
    | WakeSpuriously
    | NeedData
    | EnoughData
    | AttachClient
    | StoreStop
    | DetachClient
    | TestRunning
    | PopFrame
    | ReadGate
    | ReadClient
    | PushBuffer(elapsed: nat, flow: Flow)

  const INITIAL := Sys(Empty(), true, false, false, 0, 0, AtTest, FRESH, [], [], false, 0, 0)

  /** `DetachClient` happens in `shutdown` after the thread was joined. */
  predicate Enabled(s: Sys, step: Step) {
    match step
    case Push(_) => true
    case CloseQueue => true
    case NotifyOne => s.owedOne > 0
    case NotifyAll => s.owedAll > 0
    case WakeSpuriously => s.pc.Asleep?
    case NeedData => true
    case EnoughData => true
    case AttachClient => true
    case StoreStop => true
    case DetachClient => s.pc.Exited?
    case TestRunning => s.pc.AtTest?
    case PopFrame => s.pc.AtPop? || s.pc.Awake?
    case ReadGate => s.pc.AtGate?
    case ReadClient => s.pc.AtClient?
    case PushBuffer(_, _) => s.pc.AtPushBuffer?
  }

  function Decide(s: Sys, outcome: Outcome): Sys
    requires s.pc.AtGate? || s.pc.AtClient? || s.pc.AtPushBuffer?
  {
    s.(pc := AtTest, log := s.log + [Decision(s.pc.index, s.pc.item, outcome)])
  }

  function Wake(s: Sys): Sys {
    if s.pc.Asleep? then s.(pc := Awake) else s
  }

  function Next(s: Sys, capacity: nat, step: Step): Sys
    requires capacity >= 1 && Enabled(s, step)
  {
    match step
    case Push(x) =>
      if s.view.closed then s else s.(view := PushView(s.view, capacity, x), owedOne := s.owedOne + 1)
    case CloseQueue => s.(view := CloseView(s.view), owedAll := s.owedAll + 1)
    case NotifyOne => Wake(s).(owedOne := s.owedOne - 1)
    case NotifyAll => Wake(s).(owedAll := s.owedAll - 1)
    case WakeSpuriously => Wake(s)
    case NeedData => s.(feeding := true)
    case EnoughData => s.(feeding := false)
    case AttachClient =>
      s.(client := true, attached := true, attachedAt := if s.attached then s.attachedAt else |s.log|)
    case StoreStop => if s.running then s.(running := false, stoppedAt := |s.feeder.offers|) else s
    case DetachClient => s.(client := false)
    case TestRunning => s.(pc := if s.running then AtPop else Exited)
    case PopFrame =>
      if s.view.contents == [] then s.(pc := if s.view.closed then Exited else Asleep)
      else s.(pc := AtGate(|s.view.removed|, s.view.contents[0]), view := PopView(s.view))
    case ReadGate =>
      if !s.feeding && !s.pc.item.keyframe then Decide(s, SkippedByGate)
      else s.(pc := AtClient(s.pc.index, s.pc.item, s.feeding))
    case ReadClient =>
      if !s.client then Decide(s, NoClient)
      else s.(pc := AtPushBuffer(s.pc.index, s.pc.item, s.pc.gate))
    case PushBuffer(elapsed, flow) =>
      var r := Reading(s.pc.item, s.pc.gate, true, elapsed, flow);
      Decide(s, Offered(s.pc.gate)).(feeder := Feed(s.feeder, r), readings := s.readings + [r])
  }

  ghost predicate IsRun(s: Sys, capacity: nat, steps: seq<Step>)
    requires capacity >= 1
    decreases |steps|
  {
    steps != [] ==> Enabled(s, steps[0]) && IsRun(Next(s, capacity, steps[0]), capacity, steps[1..])
  }

  ghost function End(s: Sys, capacity: nat, steps: seq<Step>): Sys
    requires capacity >= 1 && IsRun(s, capacity, steps)
    decreases |steps|
  {
    if steps == [] then s else End(Next(s, capacity, steps[0]), capacity, steps[1..])
  }

  // ----- the invariant

  predicate InHand(pc: Pc) {
    pc.AtGate? || pc.AtClient? || pc.AtPushBuffer?
  }

  ghost function InFlight(pc: Pc): seq<nat> {
    if InHand(pc) then [pc.index] else []
  }

  ghost function Indices(log: seq<Decision>): (r: seq<nat>)
    ensures |r| == |log|
    ensures forall k :: 0 <= k < |r| ==> r[k] == log[k].index
  {
    if log == [] then [] else Indices(log[..|log| - 1]) + [log[|log| - 1].index]
  }

  /** The frames offered according to the log, and where they stand among accepted frames. */
  ghost function OfferedItems(log: seq<Decision>): seq<EncodedFrame> {
    if log == [] then []
    else OfferedItems(log[..|log| - 1])
         + (if log[|log| - 1].outcome.Offered? then [log[|log| - 1].item] else [])
  }

  ghost function OfferedIndices(log: seq<Decision>): seq<nat> {
    if log == [] then []
    else OfferedIndices(log[..|log| - 1])
         + (if log[|log| - 1].outcome.Offered? then [log[|log| - 1].index] else [])
  }

  ghost function Items(offers: seq<Offer>): (r: seq<EncodedFrame>)
    ensures |r| == |offers|
    ensures forall k :: 0 <= k < |r| ==> r[k] == offers[k].item
  {
    if offers == [] then [] else Items(offers[..|offers| - 1]) + [offers[|offers| - 1].item]
  }

  /** The rule of the gate as far as a decision shows it: only delta frames are skipped, and a
      delta frame is offered only with the gate read open. */
  predicate FollowsGate(d: Decision) {
    match d.outcome
    case SkippedByGate => !d.item.keyframe
    case NoClient => true
    case Offered(gate) => gate || d.item.keyframe
  }

  /** The log is the full account of the queue's pops: each popped frame, in order, is decided
      or still in hand, and is the frame accepted at that position. */
  ghost predicate Accounted(s: Sys) {
    && PoppedIndices(s.view.removed) == Indices(s.log) + InFlight(s.pc)
    && (forall k :: 0 <= k < |s.log| ==>
          s.log[k].index < |s.view.accepted| && s.view.accepted[s.log[k].index] == s.log[k].item)
    && (InHand(s.pc) ==> s.pc.index < |s.view.accepted| && s.view.accepted[s.pc.index] == s.pc.item)
  }

  ghost predicate Gated(s: Sys) {
    && (forall k :: 0 <= k < |s.log| ==> FollowsGate(s.log[k]))
    && (s.pc.AtClient? || s.pc.AtPushBuffer? ==> s.pc.gate || s.pc.item.keyframe)
    && Items(s.feeder.offers) == OfferedItems(s.log)
    && s.feeder.served <= |s.feeder.offers|
  }

  /** The buffers offered are those the loop produces from what was read for them. */
  ghost predicate Emitted(s: Sys) {
    && s.feeder == FeedAll(FRESH, s.readings)
    && |s.feeder.offers| == |s.readings|
    && (forall i :: 0 <= i < |s.readings| ==> s.readings[i].item == s.feeder.offers[i].item)
  }

  /** Before a client is attached no frame is offered, and afterwards none is turned away for want
      of one. */
  ghost predicate ClientSeen(s: Sys) {
    && (s.attached ==> s.attachedAt <= |s.log|)
    && (forall k :: 0 <= k < |s.log| ==>
          if s.attached && s.attachedAt <= k then s.log[k].outcome != NoClient
          else !s.log[k].outcome.Offered?)
    && (s.client ==> s.attached)
    && (s.attached && !s.pc.Exited? ==> s.client)
    && (s.pc.AtPushBuffer? ==> s.client)
  }

  /** While the thread sleeps every queued frame is matched by a notification still to come, and a
      closed queue still owes its broadcast. */
  ghost predicate NoLostWakeup(s: Sys) {
    s.pc.Asleep? ==> |s.view.contents| <= s.owedOne && (s.view.closed ==> s.owedAll > 0)
  }

  /** After `running_` is cleared the thread offers at most the one frame it was already after. */
  ghost predicate StopsSoon(s: Sys) {
    !s.running ==>
      s.stoppedAt <= |s.feeder.offers|
      <= s.stoppedAt + (if s.pc.AtTest? || s.pc.Exited? then 1 else 0)
  }

  ghost predicate Inv(s: Sys, capacity: nat) {
    && Consistent(s.view, capacity) && NoLostWakeup(s)
    && Accounted(s) && Gated(s) && Emitted(s) && ClientSeen(s) && StopsSoon(s)
  }

  lemma LogSnoc(log: seq<Decision>, d: Decision)
    ensures Indices(log + [d]) == Indices(log) + [d.index]
    ensures OfferedItems(log + [d]) == OfferedItems(log) + (if d.outcome.Offered? then [d.item] else [])
    ensures OfferedIndices(log + [d]) == OfferedIndices(log) + (if d.outcome.Offered? then [d.index] else [])
  {
    assert (log + [d])[..|log|] == log;
  }

  lemma ItemsSnoc(offers: seq<Offer>, o: Offer)
    ensures Items(offers + [o]) == Items(offers) + [o.item]
  {
    assert (offers + [o])[..|offers|] == offers;
  }

  /** The queue's own steps never change which frames have been popped. */
  lemma QueueStepPopped(v: View<EncodedFrame>, capacity: nat, x: EncodedFrame)
    requires capacity >= 1
    ensures PoppedIndices(PushView(v, capacity, x).removed) == PoppedIndices(v.removed)
    ensures v.accepted <= PushView(v, capacity, x).accepted
  {
    if !v.closed && |v.contents| >= capacity {
      FramesSnoc(v.removed, Removal(v.contents[0], Dropped, |v.accepted|));
    }
  }

  lemma GrowAccounted(s: Sys, v: View<EncodedFrame>)
    requires Accounted(s) && PoppedIndices(v.removed) == PoppedIndices(s.view.removed)
    requires s.view.accepted <= v.accepted
    ensures Accounted(s.(view := v))
  {
    var t := s.(view := v);
    forall k | 0 <= k < |s.log|
      ensures t.log[k].index < |v.accepted| && v.accepted[t.log[k].index] == t.log[k].item
    {
      assert s.view.accepted[s.log[k].index] == s.log[k].item;
    }
  }

  lemma PopAccounted(s: Sys, capacity: nat)
    requires Consistent(s.view, capacity) && Accounted(s) && !InHand(s.pc) && s.view.contents != []
    ensures Accounted(s.(pc := AtGate(|s.view.removed|, s.view.contents[0]), view := PopView(s.view)))
  {
    var n, x := |s.view.removed|, s.view.contents[0];
    var t := s.(pc := AtGate(n, x), view := PopView(s.view));
    FramesSnoc(s.view.removed, Removal(x, Popped, |s.view.accepted|));
    assert PoppedIndices(t.view.removed) == Indices(t.log) + InFlight(t.pc) by {
      assert PoppedIndices(s.view.removed) == Indices(s.log) + InFlight(s.pc) == Indices(s.log);
    }
    assert t.view.accepted[n] == (Frames(s.view.removed) + s.view.contents)[n] == x;
  }

  lemma DecideAccounted(s: Sys, outcome: Outcome)
    requires Accounted(s) && InHand(s.pc)
    ensures Accounted(Decide(s, outcome))
  {
    LogSnoc(s.log, Decision(s.pc.index, s.pc.item, outcome));
  }

  /** `Accounted` looks only at the queue, the log and the frame in hand. */
  lemma SameAccount(s: Sys, t: Sys)
    requires Accounted(s) && t.view == s.view && t.log == s.log
    requires InHand(t.pc) == InHand(s.pc)
    requires InHand(t.pc) ==> t.pc.index == s.pc.index && t.pc.item == s.pc.item
    ensures Accounted(t)
  {
    assert InFlight(t.pc) == InFlight(s.pc);
  }

  lemma QueueStepAccounted(s: Sys, capacity: nat, step: Step)
    requires capacity >= 1 && Accounted(s) && (step.Push? || step.CloseQueue?)
    ensures Accounted(Next(s, capacity, step))
  {
    var s' := Next(s, capacity, step);
    if step.Push? {
      QueueStepPopped(s.view, capacity, step.x);
    }
    GrowAccounted(s, s'.view);
    SameAccount(s.(view := s'.view), s');
  }

  lemma OfferAccounted(s: Sys, capacity: nat, step: Step)
    requires capacity >= 1 && Accounted(s) && s.pc.AtPushBuffer? && step.PushBuffer?
    ensures Accounted(Next(s, capacity, step))
  {
    DecideAccounted(s, Offered(s.pc.gate));
    SameAccount(Decide(s, Offered(s.pc.gate)), Next(s, capacity, step));
  }

  lemma GateAccounted(s: Sys, capacity: nat)
    requires capacity >= 1 && Accounted(s) && s.pc.AtGate?
    ensures Accounted(Next(s, capacity, ReadGate))
  {
    if !s.feeding && !s.pc.item.keyframe {
      DecideAccounted(s, SkippedByGate);
    } else {
      SameAccount(s, Next(s, capacity, ReadGate));
    }
  }

  lemma ClientAccounted(s: Sys, capacity: nat)
    requires capacity >= 1 && Accounted(s) && s.pc.AtClient?
    ensures Accounted(Next(s, capacity, ReadClient))
  {
    if !s.client {
      DecideAccounted(s, NoClient);
    } else {
      SameAccount(s, Next(s, capacity, ReadClient));
    }
  }

  lemma PopStepAccounted(s: Sys, capacity: nat)
    requires capacity >= 1 && Consistent(s.view, capacity) && Accounted(s) && (s.pc.AtPop? || s.pc.Awake?)
    ensures Accounted(Next(s, capacity, PopFrame))
  {
    if s.view.contents != [] {
      PopAccounted(s, capacity);
    } else {
      SameAccount(s, Next(s, capacity, PopFrame));
    }
  }

  /** Flags, notifications and wakeups: steps that touch neither the queue nor the account. */
  predicate Outside(step: Step) {
    && !step.Push? && !step.CloseQueue? && !step.PopFrame?
    && !step.ReadGate? && !step.ReadClient? && !step.PushBuffer?
  }

  lemma OutsideKeeps(s: Sys, capacity: nat, step: Step)
    requires capacity >= 1 && Enabled(s, step) && Outside(step)
    ensures var t := Next(s, capacity, step);
      && t.view == s.view && t.log == s.log && t.feeder == s.feeder && t.readings == s.readings
      && InHand(t.pc) == InHand(s.pc) && (InHand(t.pc) ==> t.pc == s.pc)
  {
  }

  lemma OutsideAccounted(s: Sys, capacity: nat, step: Step)
    requires capacity >= 1 && Accounted(s) && Enabled(s, step) && Outside(step)
    ensures Accounted(Next(s, capacity, step))
  {
    OutsideKeeps(s, capacity, step);
    SameAccount(s, Next(s, capacity, step));
  }

  lemma StepAccounted(s: Sys, capacity: nat, step: Step)
    requires capacity >= 1 && Consistent(s.view, capacity) && Accounted(s) && Enabled(s, step)
    ensures Accounted(Next(s, capacity, step))
  {
    match step {
      case Push(_) => QueueStepAccounted(s, capacity, step);
      case CloseQueue => QueueStepAccounted(s, capacity, step);
      case PopFrame => PopStepAccounted(s, capacity);
      case ReadGate => GateAccounted(s, capacity);
      case ReadClient => ClientAccounted(s, capacity);
      case PushBuffer(_, _) => OfferAccounted(s, capacity, step);
      case _ => OutsideAccounted(s, capacity, step);
    }
  }

  lemma DecideGated(s: Sys, outcome: Outcome)
    requires Gated(s) && InHand(s.pc) && !outcome.Offered?
    requires FollowsGate(Decision(s.pc.index, s.pc.item, outcome))
    ensures Gated(Decide(s, outcome))
  {
    LogSnoc(s.log, Decision(s.pc.index, s.pc.item, outcome));
  }

  lemma OfferGated(s: Sys, capacity: nat, step: Step)
    requires capacity >= 1 && Gated(s) && s.pc.AtPushBuffer? && step.PushBuffer?
    ensures Gated(Next(s, capacity, step))
  {
    var d := Decision(s.pc.index, s.pc.item, Offered(s.pc.gate));
    LogSnoc(s.log, d);
    var t := Next(s, capacity, step);
    var o := t.feeder.offers[|s.feeder.offers|];
    ItemsSnoc(s.feeder.offers, o);
    assert t.feeder.offers == s.feeder.offers + [o] && t.log == s.log + [d];
  }

  lemma ReadGated(s: Sys, capacity: nat, step: Step)
    requires capacity >= 1 && Gated(s) && Enabled(s, step) && (step.ReadGate? || step.ReadClient?)
    ensures Gated(Next(s, capacity, step))
  {
    if step.ReadGate? && !s.feeding && !s.pc.item.keyframe {
      DecideGated(s, SkippedByGate);
    } else if step.ReadClient? && !s.client {
      DecideGated(s, NoClient);
    }
  }

  /** A step that only moves the frames of the queue, or none. */
  lemma QueueKeeps(s: Sys, capacity: nat, step: Step)
    requires capacity >= 1 && Enabled(s, step) && (step.Push? || step.CloseQueue? || step.PopFrame?)
    ensures var t := Next(s, capacity, step);
      && t.log == s.log && t.feeder == s.feeder && t.readings == s.readings
      && (t.pc == s.pc || (!InHand(s.pc) && !t.pc.AtClient? && !t.pc.AtPushBuffer?))
  {
  }

  lemma StepGated(s: Sys, capacity: nat, step: Step)
    requires capacity >= 1 && Gated(s) && Enabled(s, step)
    ensures Gated(Next(s, capacity, step))
  {
    if step.ReadGate? || step.ReadClient? {
      ReadGated(s, capacity, step);
    } else if step.PushBuffer? {
      OfferGated(s, capacity, step);
    } else if Outside(step) {
      OutsideKeeps(s, capacity, step);
    } else {
      QueueKeeps(s, capacity, step);
    }
  }

  lemma OfferEmitted(s: Sys, capacity: nat, step: Step)
    requires capacity >= 1 && Emitted(s) && s.pc.AtPushBuffer? && step.PushBuffer?
    requires s.pc.gate || s.pc.item.keyframe
    ensures Emitted(Next(s, capacity, step))
  {
    var r := Reading(s.pc.item, s.pc.gate, true, step.elapsed, step.flow);
    assert (s.readings + [r])[..|s.readings|] == s.readings;
  }

  lemma ReadKeeps(s: Sys, capacity: nat, step: Step)
    requires capacity >= 1 && Enabled(s, step) && !step.PushBuffer?
    ensures var t := Next(s, capacity, step); t.feeder == s.feeder && t.readings == s.readings
  {
  }

  lemma StepEmitted(s: Sys, capacity: nat, step: Step)
    requires capacity >= 1 && Emitted(s) && Enabled(s, step)
    requires s.pc.AtPushBuffer? ==> s.pc.gate || s.pc.item.keyframe
    ensures Emitted(Next(s, capacity, step))
  {
    if step.PushBuffer? {
      OfferEmitted(s, capacity, step);
    } else {
      ReadKeeps(s, capacity, step);
    }
  }

  lemma StepConsistent(s: Sys, capacity: nat, step: Step)
    requires capacity >= 1 && Consistent(s.view, capacity) && Enabled(s, step)
    ensures Consistent(Next(s, capacity, step).view, capacity)
  {
    PopConsistent(s.view, capacity);
    if step.Push? {
      PushConsistent(s.view, capacity, step.x);
    }
  }

  lemma StepClientSeen(s: Sys, capacity: nat, step: Step)
    requires capacity >= 1 && ClientSeen(s) && Enabled(s, step)
    ensures ClientSeen(Next(s, capacity, step))
  {
  }

  lemma StepNoLostWakeup(s: Sys, capacity: nat, step: Step)
    requires capacity >= 1 && NoLostWakeup(s) && Enabled(s, step)
    ensures NoLostWakeup(Next(s, capacity, step))
  {
  }

  lemma StepStopsSoon(s: Sys, capacity: nat, step: Step)
    requires capacity >= 1 && StopsSoon(s) && Enabled(s, step)
    ensures StopsSoon(Next(s, capacity, step))
  {
  }

  lemma OneSection(s: Sys, capacity: nat, step: Step)
    requires capacity >= 1 && Enabled(s, step)
    ensures Next(s, capacity, step).view == Run(s.view, capacity, Section(step))
  {
    if Section(step) != [] {
      assert Section(step)[1..] == [];
    }
  }

  lemma StepKeepsInv(s: Sys, capacity: nat, step: Step)
    requires capacity >= 1 && Inv(s, capacity) && Enabled(s, step)
    ensures Inv(Next(s, capacity, step), capacity)
    ensures Next(s, capacity, step).view == Run(s.view, capacity, Section(step))
    ensures step.ReadGate? ==> (|Next(s, capacity, step).log| > |s.log| <==> !s.feeding && !s.pc.item.keyframe)
    ensures step.ReadClient? ==> (|Next(s, capacity, step).log| > |s.log| <==> !s.client)
  {
    OneSection(s, capacity, step);
    StepConsistent(s, capacity, step);
    StepNoLostWakeup(s, capacity, step);
    StepAccounted(s, capacity, step);
    StepGated(s, capacity, step);
    StepEmitted(s, capacity, step);
    StepClientSeen(s, capacity, step);
    StepStopsSoon(s, capacity, step);
  }

  lemma {:induction false} RunKeepsInv(s: Sys, capacity: nat, steps: seq<Step>)
    requires capacity >= 1 && Inv(s, capacity) && IsRun(s, capacity, steps)
    ensures Inv(End(s, capacity, steps), capacity)
    decreases |steps|
  {
    if steps == [] {
    } else {
      StepKeepsInv(s, capacity, steps[0]);
      RunKeepsInv(Next(s, capacity, steps[0]), capacity, steps[1..]);
    }
  }

  // ----- what it means, over every run

  /** Positions in the log at which a frame was offered. */
  ghost function OfferedAt(log: seq<Decision>): (at: seq<nat>)
    ensures forall i :: 0 <= i < |at| ==> at[i] < |log| && log[at[i]].outcome.Offered?
    ensures forall i, j :: 0 <= i < j < |at| ==> at[i] < at[j]
  {
    if log == [] then []
    else
      var n := |log| - 1;
      OfferedAt(log[..n]) + (if log[n].outcome.Offered? then [n] else [])
  }

  lemma {:induction false} OfferedPick(log: seq<Decision>)
    ensures |OfferedItems(log)| == |OfferedIndices(log)| == |OfferedAt(log)| <= |log|
    ensures forall i :: 0 <= i < |OfferedAt(log)| ==>
      && OfferedItems(log)[i] == log[OfferedAt(log)[i]].item
      && OfferedIndices(log)[i] == log[OfferedAt(log)[i]].index
  {
    if log == [] {
    } else {
      var n := |log| - 1;
      OfferedPick(log[..n]);
      assert log == log[..n] + [log[n]];
    }
  }

  lemma OffersEmbed(s: Sys)
    requires Accounted(s) && Gated(s)
    ensures Embeds(Items(s.feeder.offers), s.view.accepted, OfferedIndices(s.log))
    ensures |s.feeder.offers| <= CountFate(s.view.removed, Popped)
  {
    LogIncreases(s);
    OfferedPick(s.log);
    var at, items, picks := OfferedAt(s.log), Items(s.feeder.offers), OfferedIndices(s.log);
    forall i | 0 <= i < |picks| ensures picks[i] < |s.view.accepted| && s.view.accepted[picks[i]] == items[i] {
      assert s.log[at[i]].index == picks[i] && s.log[at[i]].item == items[i];
    }
    forall i, j | 0 <= i < j < |picks| ensures picks[i] < picks[j] {
      assert at[i] < at[j];
    }
  }

  /** Whatever the interleaving: what reached appsrc is a subsequence of what was pushed, and
      served <= offered <= popped <= accepted. */
  lemma EveryRun(capacity: nat, steps: seq<Step>)
    requires capacity >= 1 && IsRun(INITIAL, capacity, steps)
    ensures var s := End(INITIAL, capacity, steps);
      && Subsequence(Items(s.feeder.offers), s.view.accepted)
      && s.feeder.served <= |s.feeder.offers| <= CountFate(s.view.removed, Popped) <= |s.view.accepted|
  {
    RunKeepsInv(INITIAL, capacity, steps);
    var s := End(INITIAL, capacity, steps);
    FatesPartition(s.view.removed);
    OffersEmbed(s);
  }

  lemma ReadingsInOrder(s: Sys)
    requires Accounted(s) && Gated(s) && Emitted(s) && InOrder(s.view.accepted)
    ensures NonDecreasingPts(s.readings)
  {
    OffersEmbed(s);
    var picks := OfferedIndices(s.log);
    assert forall m :: 0 <= m < |s.readings| ==> s.readings[m].item == s.view.accepted[picks[m]];
  }

  ghost predicate InOrder(a: seq<EncodedFrame>) {
    && (forall m :: 0 <= m < |a| ==> a[m].ptsNs < CLOCK_TIME_NONE)
    && (forall m, n :: 0 <= m < n < |a| ==> a[m].ptsNs <= a[n].ptsNs)
  }

  /** If frames are pushed in timestamp order, then in every run the first buffer offered goes
      out at 0 and all differences between offered buffers are those between the pushed frames. */
  lemma EveryTimestamp(capacity: nat, steps: seq<Step>, i: nat, j: nat)
    requires capacity >= 1 && IsRun(INITIAL, capacity, steps)
    requires InOrder(End(INITIAL, capacity, steps).view.accepted)
    requires i <= j < |End(INITIAL, capacity, steps).feeder.offers|
    ensures var o := End(INITIAL, capacity, steps).feeder.offers;
      && o[0].pts == 0
      && o[j].pts - o[i].pts == o[j].item.ptsNs - o[i].item.ptsNs >= 0
  {
    RunKeepsInv(INITIAL, capacity, steps);
    var s := End(INITIAL, capacity, steps);
    ReadingsInOrder(s);
    DifferencesPreserved(s.readings, i, j);
  }

  lemma LogIncreases(s: Sys)
    requires Accounted(s)
    ensures forall i, j :: 0 <= i < j < |s.log| ==> s.log[i].index < s.log[j].index
    ensures |s.log| <= CountFate(s.view.removed, Popped)
  {
    var p := PoppedIndices(s.view.removed);
    forall i, j | 0 <= i < j < |s.log| ensures s.log[i].index < s.log[j].index {
      assert p[i] == s.log[i].index && p[j] == s.log[j].index;
    }
  }

  // ----- what a run comes to, from its steps alone

  lemma {:induction false} EndSnoc(s: Sys, capacity: nat, steps: seq<Step>, step: Step)
    requires capacity >= 1 && IsRun(s, capacity, steps + [step])
    ensures IsRun(s, capacity, steps) && Enabled(End(s, capacity, steps), step)
    ensures End(s, capacity, steps + [step]) == Next(End(s, capacity, steps), capacity, step)
    decreases |steps|
  {
    if steps == [] {
      assert [step][1..] == [];
    } else {
      assert (steps + [step])[1..] == steps[1..] + [step];
      EndSnoc(Next(s, capacity, steps[0]), capacity, steps[1..], step);
    }
  }

  /** The locked section of the queue a step performs, if any. */
  function Section(step: Step): seq<Op<EncodedFrame>> {
    if step.Push? then [Op.Push(step.x)]
    else if step.CloseQueue? then [Op.Close]
    else if step.PopFrame? then [Op.Pop]
    else []
  }

  ghost function Sections(steps: seq<Step>): seq<Op<EncodedFrame>> {
    if steps == [] then [] else Sections(steps[..|steps| - 1]) + Section(steps[|steps| - 1])
  }

  /** The gate: open after a need-data, closed after an enough-data and at first. */
  ghost predicate GateOpen(steps: seq<Step>) {
    steps != [] &&
    var last := steps[|steps| - 1];
    last.NeedData? || (!last.EnoughData? && GateOpen(steps[..|steps| - 1]))
  }

  /** A client is there from its attachment to its detachment. */
  ghost predicate ClientThere(steps: seq<Step>) {
    steps != [] &&
    var last := steps[|steps| - 1];
    last.AttachClient? || (!last.DetachClient? && ClientThere(steps[..|steps| - 1]))
  }

  ghost predicate Stopped(steps: seq<Step>) {
    steps != [] && (steps[|steps| - 1].StoreStop? || Stopped(steps[..|steps| - 1]))
  }

  /** What the gate was each time it was read, and whether a client was there each time that was
      read. */
  ghost function GateReads(steps: seq<Step>): seq<bool> {
    if steps == [] then []
    else
      var before := steps[..|steps| - 1];
      if steps[|steps| - 1].ReadGate? then GateReads(before) + [GateOpen(before)] else GateReads(before)
  }

  ghost function ClientReads(steps: seq<Step>): seq<bool> {
    if steps == [] then []
    else
      var before := steps[..|steps| - 1];
      if steps[|steps| - 1].ReadClient? then ClientReads(before) + [ClientThere(before)] else ClientReads(before)
  }

  /** Time and result of each push-buffer call. */
  ghost function Replies(steps: seq<Step>): seq<(nat, Flow)> {
    if steps == [] then []
    else
      var before, last := steps[..|steps| - 1], steps[|steps| - 1];
      if last.PushBuffer? then Replies(before) + [(last.elapsed, last.flow)] else Replies(before)
  }

  /** Rounds of the loop begun, that is tests of `running_` that found it set. */
  ghost function Rounds(steps: seq<Step>): nat {
    if steps == [] then 0
    else
      var before := steps[..|steps| - 1];
      Rounds(before) + (if steps[|steps| - 1].TestRunning? && !Stopped(before) then 1 else 0)
  }

  /** Decisions that got past the gate. */
  ghost function Passed(log: seq<Decision>): nat {
    if log == [] then 0
    else Passed(log[..|log| - 1]) + (if log[|log| - 1].outcome == SkippedByGate then 0 else 1)
  }

  lemma StepsSnoc(steps: seq<Step>, step: Step)
    ensures var all := steps + [step];
      && Sections(all) == Sections(steps) + Section(step)
      && GateOpen(all) == (step.NeedData? || (!step.EnoughData? && GateOpen(steps)))
      && ClientThere(all) == (step.AttachClient? || (!step.DetachClient? && ClientThere(steps)))
      && Stopped(all) == (step.StoreStop? || Stopped(steps))
      && GateReads(all) == (if step.ReadGate? then GateReads(steps) + [GateOpen(steps)] else GateReads(steps))
      && ClientReads(all) ==
           (if step.ReadClient? then ClientReads(steps) + [ClientThere(steps)] else ClientReads(steps))
      && Rounds(all) == Rounds(steps) + (if step.TestRunning? && !Stopped(steps) then 1 else 0)
      && Replies(all) ==
           (if step.PushBuffer? then Replies(steps) + [(step.elapsed, step.flow)] else Replies(steps))
  {
    assert (steps + [step])[..|steps|] == steps;
  }

  /** The flags the threads share. */
  ghost predicate Flags(s: Sys, gate: bool, client: bool, stopped: bool) {
    s.feeding == gate && s.client == client && s.running == !stopped
  }

  /** The thread ends only when told to, or when the queue is closed and empty. */
  ghost predicate EndsForAReason(s: Sys) {
    s.pc.Exited? ==> !s.running || (s.view.closed && s.view.contents == [])
  }

  /** Every round but the one under way decided one frame, unless it found the queue closed. */
  ghost predicate OneFramePerRound(s: Sys, rounds: nat) {
    match s.pc
    case AtTest => rounds == |s.log|
    case Exited => |s.log| <= rounds <= |s.log| + (if s.view.closed && s.view.contents == [] then 1 else 0)
    case _ => rounds == |s.log| + 1
  }

  /** A frame is skipped exactly if it is a delta frame and the gate was read closed. */
  ghost predicate ByGate(d: Decision, open: bool) {
    && (d.outcome == SkippedByGate <==> !d.item.keyframe && !open)
    && (d.outcome.Offered? ==> d.outcome.gate == open)
  }

  ghost predicate GateTraced(log: seq<Decision>, pc: Pc, seen: seq<bool>) {
    && |seen| == |log| + (if pc.AtClient? || pc.AtPushBuffer? then 1 else 0)
    && (forall k :: 0 <= k < |log| ==> ByGate(log[k], seen[k]))
    && (pc.AtClient? || pc.AtPushBuffer? ==> pc.gate == seen[|log|] && (pc.gate || pc.item.keyframe))
  }

  /** A frame past the gate is turned away exactly if no client was there when that was read. */
  ghost predicate ByClient(d: Decision, there: bool) {
    d.outcome == NoClient <==> !there
  }

  ghost predicate ClientTraced(log: seq<Decision>, pc: Pc, seen: seq<bool>) {
    && |seen| == Passed(log) + (if pc.AtPushBuffer? then 1 else 0)
    && (forall k :: 0 <= k < |log| && log[k].outcome != SkippedByGate ==>
          Passed(log[..k]) < |seen| && ByClient(log[k], seen[Passed(log[..k])]))
    && (pc.AtPushBuffer? ==> seen[Passed(log)])
  }

  ghost predicate RepliesTraced(readings: seq<Reading>, replies: seq<(nat, Flow)>) {
    && |readings| == |replies|
    && (forall k :: 0 <= k < |readings| ==> (readings[k].elapsed, readings[k].flow) == replies[k])
  }

  ghost predicate Traced(s: Sys, capacity: nat, steps: seq<Step>)
    requires capacity >= 1
  {
    && s.view == Run(Empty(), capacity, Sections(steps))
    && Flags(s, GateOpen(steps), ClientThere(steps), Stopped(steps))
    && EndsForAReason(s) && OneFramePerRound(s, Rounds(steps))
    && GateTraced(s.log, s.pc, GateReads(steps))
    && ClientTraced(s.log, s.pc, ClientReads(steps))
    && RepliesTraced(s.readings, Replies(steps))
  }

  lemma StepRuns(s: Sys, capacity: nat, step: Step, ops: seq<Op<EncodedFrame>>)
    requires capacity >= 1 && Enabled(s, step) && s.view == Run(Empty(), capacity, ops)
    ensures Next(s, capacity, step).view == Run(Empty(), capacity, ops + Section(step))
  {
    if Section(step) == [] {
      assert ops + [] == ops;
    } else {
      RunSnoc(Empty(), capacity, ops, Section(step)[0]);
    }
  }

  lemma StepFlags(s: Sys, capacity: nat, step: Step, gate: bool, client: bool, stopped: bool)
    requires capacity >= 1 && Enabled(s, step) && Flags(s, gate, client, stopped)
    ensures Flags(Next(s, capacity, step), step.NeedData? || (!step.EnoughData? && gate),
                  step.AttachClient? || (!step.DetachClient? && client), step.StoreStop? || stopped)
  {
  }

  lemma StepEnds(s: Sys, capacity: nat, step: Step)
    requires capacity >= 1 && Enabled(s, step) && EndsForAReason(s)
    ensures EndsForAReason(Next(s, capacity, step))
  {
  }

  lemma StepRounds(s: Sys, capacity: nat, step: Step, rounds: nat)
    requires capacity >= 1 && Enabled(s, step) && OneFramePerRound(s, rounds)
    ensures OneFramePerRound(Next(s, capacity, step),
      rounds + (if step.TestRunning? && s.running then 1 else 0))
  {
  }

  predicate Ahead(pc: Pc) { pc.AtClient? || pc.AtPushBuffer? }

  /** Steps other than the two reads and push-buffer neither decide nor bring a frame past the gate. */
  lemma ElseKeeps(s: Sys, capacity: nat, step: Step)
    requires capacity >= 1 && Enabled(s, step) && !step.ReadGate? && !step.ReadClient? && !step.PushBuffer?
    ensures var t := Next(s, capacity, step);
      t.log == s.log && (t.pc == s.pc || (!Ahead(t.pc) && !Ahead(s.pc)))
  {
    if Outside(step) {
      OutsideKeeps(s, capacity, step);
    } else {
      QueueKeeps(s, capacity, step);
    }
  }

  lemma ReadGateTraced(s: Sys, capacity: nat, seen: seq<bool>)
    requires capacity >= 1 && s.pc.AtGate? && GateTraced(s.log, s.pc, seen)
    ensures var t := Next(s, capacity, ReadGate); GateTraced(t.log, t.pc, seen + [s.feeding])
  {
  }

  lemma DecideTraced(s: Sys, capacity: nat, step: Step, seen: seq<bool>)
    requires capacity >= 1 && Enabled(s, step) && (step.ReadClient? || step.PushBuffer?)
    requires GateTraced(s.log, s.pc, seen)
    ensures var t := Next(s, capacity, step); GateTraced(t.log, t.pc, seen)
  {
  }

  lemma StepGateTraced(s: Sys, capacity: nat, step: Step, seen: seq<bool>)
    requires capacity >= 1 && Enabled(s, step) && GateTraced(s.log, s.pc, seen)
    ensures var t := Next(s, capacity, step);
      GateTraced(t.log, t.pc, if step.ReadGate? then seen + [s.feeding] else seen)
  {
    if step.ReadGate? {
      ReadGateTraced(s, capacity, seen);
    } else if step.ReadClient? || step.PushBuffer? {
      DecideTraced(s, capacity, step, seen);
    } else {
      ElseKeeps(s, capacity, step);
    }
  }

  lemma PassedSnoc(log: seq<Decision>, d: Decision)
    ensures Passed(log + [d]) == Passed(log) + (if d.outcome == SkippedByGate then 0 else 1)
  {
    assert (log + [d])[..|log|] == log;
  }

  lemma DecideClientTraced(log: seq<Decision>, d: Decision, seen: seq<bool>, seen': seq<bool>)
    requires ClientTraced(log, AtTest, seen)
    requires seen' == if d.outcome == SkippedByGate then seen else seen + [d.outcome != NoClient]
    ensures ClientTraced(log + [d], AtTest, seen')
  {
    PassedSnoc(log, d);
    var all := log + [d];
    forall k | 0 <= k < |all| && all[k].outcome != SkippedByGate
      ensures Passed(all[..k]) < |seen'| && ByClient(all[k], seen'[Passed(all[..k])])
    {
      assert all[..k] == log[..k];
      if k == |log| {
        assert log[..k] == log;
      }
    }
  }

  lemma ReadClientTraced(s: Sys, capacity: nat, seen: seq<bool>)
    requires capacity >= 1 && s.pc.AtClient? && ClientTraced(s.log, s.pc, seen)
    ensures var t := Next(s, capacity, ReadClient); ClientTraced(t.log, t.pc, seen + [s.client])
  {
    if !s.client {
      DecideClientTraced(s.log, Decision(s.pc.index, s.pc.item, NoClient), seen, seen + [false]);
    }
  }

  lemma SkipClientTraced(s: Sys, capacity: nat, seen: seq<bool>)
    requires capacity >= 1 && s.pc.AtGate? && ClientTraced(s.log, s.pc, seen)
    ensures var t := Next(s, capacity, ReadGate); ClientTraced(t.log, t.pc, seen)
  {
    if !s.feeding && !s.pc.item.keyframe {
      DecideClientTraced(s.log, Decision(s.pc.index, s.pc.item, SkippedByGate), seen, seen);
    }
  }

  lemma StepClientTraced(s: Sys, capacity: nat, step: Step, seen: seq<bool>)
    requires capacity >= 1 && Enabled(s, step) && ClientTraced(s.log, s.pc, seen)
    ensures var t := Next(s, capacity, step);
      ClientTraced(t.log, t.pc, if step.ReadClient? then seen + [s.client] else seen)
  {
    if step.ReadGate? {
      SkipClientTraced(s, capacity, seen);
    } else if step.ReadClient? {
      ReadClientTraced(s, capacity, seen);
    } else if step.PushBuffer? {
      OfferClientTraced(s.log, Decision(s.pc.index, s.pc.item, Offered(s.pc.gate)), s.pc, seen);
    } else {
      ElseKeeps(s, capacity, step);
    }
  }

  lemma OfferClientTraced(log: seq<Decision>, d: Decision, pc: Pc, seen: seq<bool>)
    requires ClientTraced(log, pc, seen) && pc.AtPushBuffer? && d.outcome.Offered?
    ensures ClientTraced(log + [d], AtTest, seen)
  {
    var n := Passed(log);
    var before := seen[..n];
    PassedBelow(log);
    assert seen == before + [seen[n]];
    assert ClientTraced(log, AtTest, before);
    DecideClientTraced(log, d, before, seen);
  }

  lemma {:induction false} PassedBelow(log: seq<Decision>)
    ensures forall k :: 0 <= k < |log| && log[k].outcome != SkippedByGate ==> Passed(log[..k]) < Passed(log)
  {
    if log != [] {
      var init, d := log[..|log| - 1], log[|log| - 1];
      assert log == init + [d];
      PassedBelow(init);
      PassedSnoc(init, d);
      forall k | 0 <= k < |log| && log[k].outcome != SkippedByGate ensures Passed(log[..k]) < Passed(log) {
        assert log[..k] == init[..k];
        if k == |init| {
          assert init[..k] == init;
        }
      }
    }
  }

  lemma StepReplies(s: Sys, capacity: nat, step: Step, replies: seq<(nat, Flow)>)
    requires capacity >= 1 && Enabled(s, step) && RepliesTraced(s.readings, replies)
    ensures RepliesTraced(Next(s, capacity, step).readings,
      if step.PushBuffer? then replies + [(step.elapsed, step.flow)] else replies)
  {
  }

  /** In every run, everything the thread saw and decided follows from the steps alone: the queue
      is what its locked sections make of it, the flags are what the callbacks and `shutdown` last
      stored, each round took one frame, which met the gate and the client as they then were, and
      the thread ended only for a reason. */
  lemma {:induction false} EveryTrace(capacity: nat, steps: seq<Step>)
    requires capacity >= 1 && IsRun(INITIAL, capacity, steps)
    ensures Traced(End(INITIAL, capacity, steps), capacity, steps)
    decreases |steps|
  {
    if steps == [] {
    } else {
      var before, step := steps[..|steps| - 1], steps[|steps| - 1];
      assert steps == before + [step];
      EndSnoc(INITIAL, capacity, before, step);
      EveryTrace(capacity, before);
      TraceStep(End(INITIAL, capacity, before), capacity, before, step);
    }
  }

  lemma TraceStep(s: Sys, capacity: nat, before: seq<Step>, step: Step)
    requires capacity >= 1 && Traced(s, capacity, before) && Enabled(s, step)
    ensures Traced(Next(s, capacity, step), capacity, before + [step])
  {
    StepsSnoc(before, step);
    StepRuns(s, capacity, step, Sections(before));
    StepFlags(s, capacity, step, GateOpen(before), ClientThere(before), Stopped(before));
    StepEnds(s, capacity, step);
    StepRounds(s, capacity, step, Rounds(before));
    StepGateTraced(s, capacity, step, GateReads(before));
    StepClientTraced(s, capacity, step, ClientReads(before));
    StepReplies(s, capacity, step, Replies(before));
  }

  /** Every popped frame but the one in hand has been decided. The gate skipped it exactly if it is
      a delta frame and the gate was closed when read for it; past the gate it was turned away
      exactly if no client was there when that was read, which is never again once one was
      attached; otherwise it was offered. */
  lemma EveryDecision(capacity: nat, steps: seq<Step>, k: nat)
    requires capacity >= 1 && IsRun(INITIAL, capacity, steps)
    requires k < |End(INITIAL, capacity, steps).log|
    ensures var s := End(INITIAL, capacity, steps);
      var d := s.log[k];
      && PoppedIndices(s.view.removed) == Indices(s.log) + InFlight(s.pc)
      && d.index < |s.view.accepted| && s.view.accepted[d.index] == d.item
      && k < |GateReads(steps)|
      && (d.outcome == SkippedByGate <==> !d.item.keyframe && !GateReads(steps)[k])
      && (d.outcome != SkippedByGate ==>
            && Passed(s.log[..k]) < |ClientReads(steps)|
            && (d.outcome == NoClient <==> !ClientReads(steps)[Passed(s.log[..k])]))
      && (d.outcome.Offered? <==> s.attached && s.attachedAt <= k && d.outcome != SkippedByGate)
      && (d.outcome.Offered? ==> d.outcome.gate == GateReads(steps)[k])
  {
    RunKeepsInv(INITIAL, capacity, steps);
    EveryTrace(capacity, steps);
    var s := End(INITIAL, capacity, steps);
    assert ByGate(s.log[k], GateReads(steps)[k]);
    if s.log[k].outcome != SkippedByGate {
      assert ByClient(s.log[k], ClientReads(steps)[Passed(s.log[..k])]);
    }
  }

  // ----- shutting down

  predicate FeederStep(step: Step) {
    step.TestRunning? || step.PopFrame? || step.ReadGate? || step.ReadClient? || step.PushBuffer?
  }

  /** Steps of its own the feeder still takes once stopped. */
  function ToExit(pc: Pc): nat {
    match pc
    case AtPop => 5
    case Asleep => 5
    case Awake => 5
    case AtGate(_, _) => 4
    case AtClient(_, _, _) => 3
    case AtPushBuffer(_, _, _) => 2
    case AtTest => 1
    case Exited => 0
  }

  /** After `shutdown` has cleared `running_` and closed the queue every step of the thread brings
      it closer to its exit, it never goes back to sleep, and nothing anybody else does sets it
      back. */
  lemma ShutdownProgress(s: Sys, capacity: nat, step: Step)
    requires capacity >= 1 && !s.running && s.view.closed && Enabled(s, step)
    ensures var s' := Next(s, capacity, step);
      && !s'.running && s'.view.closed
      && (FeederStep(step) ==> ToExit(s'.pc) < ToExit(s.pc))
      && (!FeederStep(step) ==> ToExit(s'.pc) == ToExit(s.pc))
      && (s'.pc.Asleep? ==> s.pc.Asleep?)
  {
  }

  /** On a closed queue the thread has exited, or can move, or sleeps while a broadcast that wakes
      it is still to come. Once no broadcast is owed it is not asleep. */
  lemma ShutdownNeverBlocks(s: Sys, capacity: nat) returns (step: Step)
    requires capacity >= 1 && Inv(s, capacity) && s.view.closed && !s.pc.Exited?
    ensures Enabled(s, step)
    ensures if s.pc.Asleep? then step == NotifyAll && Next(s, capacity, step).pc == Awake else FeederStep(step)
    ensures s.owedAll == 0 ==> !s.pc.Asleep?
  {
    match s.pc {
      case AtTest => step := TestRunning;
      case AtPop => step := PopFrame;
      case Asleep => step := NotifyAll;
      case Awake => step := PopFrame;
      case AtGate(_, _) => step := ReadGate;
      case AtClient(_, _, _) => step := ReadClient;
      case AtPushBuffer(_, _, _) => step := PushBuffer(0, FlowOk);
    }
  }

  /** From every reachable state after `shutdown` the thread exits by its own steps and at most one
      broadcast, so the join returns. */
  lemma {:induction false} ShutdownExits(s: Sys, capacity: nat) returns (steps: seq<Step>)
    requires capacity >= 1 && Inv(s, capacity) && !s.running && s.view.closed
    ensures IsRun(s, capacity, steps) && End(s, capacity, steps).pc.Exited?
    ensures |steps| == OwnSteps(steps) + if s.pc.Asleep? then 1 else 0
    ensures OwnSteps(steps) <= 5
    decreases ToExit(s.pc), s.pc.Asleep?
  {
    if s.pc.Exited? {
      steps := [];
    } else {
      var step := ShutdownNeverBlocks(s, capacity);
      StepKeepsInv(s, capacity, step);
      ShutdownProgress(s, capacity, step);
      var rest := ShutdownExits(Next(s, capacity, step), capacity);
      steps := [step] + rest;
      assert steps[1..] == rest;
      ShutdownRun(s, capacity, steps);
    }
  }

  ghost function OwnSteps(steps: seq<Step>): nat {
    if steps == [] then 0 else (if FeederStep(steps[0]) then 1 else 0) + OwnSteps(steps[1..])
  }

  lemma {:induction false} ShutdownRun(s: Sys, capacity: nat, steps: seq<Step>)
    requires capacity >= 1 && !s.running && s.view.closed && IsRun(s, capacity, steps)
    ensures OwnSteps(steps) + ToExit(End(s, capacity, steps).pc) <= ToExit(s.pc) <= 5
    decreases |steps|
  {
    if steps == [] {
    } else {
      ShutdownProgress(s, capacity, steps[0]);
      ShutdownRun(Next(s, capacity, steps[0]), capacity, steps[1..]);
    }
  }

  /** At most one frame is offered after `running_` was cleared. */
  lemma OffersAfterStop(capacity: nat, steps: seq<Step>)
    requires capacity >= 1 && IsRun(INITIAL, capacity, steps)
    ensures var s := End(INITIAL, capacity, steps);
      !s.running ==> s.stoppedAt <= |s.feeder.offers| <= s.stoppedAt + 1
  {
    FirstState(capacity);
    RunKeepsInv(INITIAL, capacity, steps);
    assert StopsSoon(End(INITIAL, capacity, steps));
  }

  lemma FirstState(capacity: nat)
    requires capacity >= 1
    ensures Inv(INITIAL, capacity)
  {
  }
}
