/** The queue shared by any number of threads.

    Everything done while the mutex is held is one step; `notify_one` and `notify_all` run after
    the lock is released, so they are steps of their own and anything may happen in between. A
    thread that is notified, or that wakes spuriously, must take the lock again before it looks
    at the queue. Every thread may push, pop, try to pop and close.
 */
module QueueProtocol {
  import opened FrameQueues

  datatype Pc =
    | Idle           // outside the queue
    | OwesNotifyOne  // pushed a frame, lock released, notify_one still to come
    | OwesNotifyAll  // closed the queue, lock released, notify_all still to come
    | Waiting        // asleep in pop
    | Woken          // notified or spuriously awake, lock not yet taken

  datatype State<T> = State(view: View<T>, pc: map<nat, Pc>)

  datatype Step<T> =
    | PushLocked(t: nat, x: T)
    | NotifyOne(t: nat, chosen: set<nat>)  // the condition variable picks which sleeper, if any
    | CloseLocked(t: nat)
    | NotifyAll(t: nat)
    | PopLocked(t: nat)
    | TryPop(t: nat)
    | Resume(t: nat)
    | WakeSpuriously(t: nat)

  function At<T>(s: State<T>, p: Pc): set<nat> {
    set t | t in s.pc && s.pc[t] == p
  }

  predicate Is<T>(s: State<T>, t: nat, p: Pc) {
    t in s.pc && s.pc[t] == p
  }

  predicate Enabled<T>(s: State<T>, step: Step<T>) {
    match step
    case PushLocked(t, _) => Is(s, t, Idle)
    case NotifyOne(t, chosen) =>
      && Is(s, t, OwesNotifyOne)
      && chosen <= At(s, Waiting)
      && |chosen| == if At(s, Waiting) == {} then 0 else 1
    case CloseLocked(t) => Is(s, t, Idle)
    case NotifyAll(t) => Is(s, t, OwesNotifyAll)
    case PopLocked(t) => Is(s, t, Idle)
    case TryPop(t) => Is(s, t, Idle)
    case Resume(t) => Is(s, t, Woken)
    case WakeSpuriously(t) => Is(s, t, Waiting)
  }

  function Go<T>(s: State<T>, t: nat, p: Pc): State<T> {
    s.(pc := s.pc[t := p])
  }

  function WakeAll<T>(s: State<T>, ts: set<nat>): State<T> {
    s.(pc := map t | t in s.pc :: if t in ts then Woken else s.pc[t])
  }

  /** The body of `pop` under the lock: return with or without a frame, or go (back) to sleep. */
  function PopOrWait<T>(s: State<T>, t: nat): State<T> {
    if s.view.contents != [] || s.view.closed
    then Go(s.(view := PopView(s.view)), t, Idle)
    else Go(s, t, Waiting)
  }

  function Next<T>(s: State<T>, capacity: nat, step: Step<T>): State<T>
    requires capacity >= 1 && Enabled(s, step)
  {
    match step
    case PushLocked(t, x) =>
      if s.view.closed then s
      else Go(s.(view := PushView(s.view, capacity, x)), t, OwesNotifyOne)
    case NotifyOne(t, chosen) => WakeAll(Go(s, t, Idle), chosen)
    case CloseLocked(t) => Go(s.(view := CloseView(s.view)), t, OwesNotifyAll)
    case NotifyAll(t) => WakeAll(Go(s, t, Idle), At(s, Waiting))
    case PopLocked(t) => PopOrWait(s, t)
    case TryPop(t) => s.(view := PopView(s.view))
    case Resume(t) => PopOrWait(s, t)
    case WakeSpuriously(t) => Go(s, t, Woken)
  }

  // ----- runs

  function Start<T>(threads: set<nat>): State<T> {
    State(Empty(), map t | t in threads :: Idle)
  }

  ghost predicate IsRun<T>(s: State<T>, capacity: nat, steps: seq<Step<T>>)
    requires capacity >= 1
    decreases |steps|
  {
    steps != [] ==> Enabled(s, steps[0]) && IsRun(Next(s, capacity, steps[0]), capacity, steps[1..])
  }

  ghost function End<T>(s: State<T>, capacity: nat, steps: seq<Step<T>>): State<T>
    requires capacity >= 1 && IsRun(s, capacity, steps)
    decreases |steps|
  {
    if steps == [] then s else End(Next(s, capacity, steps[0]), capacity, steps[1..])
  }

  // ----- the invariant

  /** While somebody sleeps, every queued frame is matched by a notification still to be sent or
      a thread already on its way, and a closed queue still owes its broadcast. */
  ghost predicate NoLostWakeup<T>(s: State<T>) {
    At(s, Waiting) != {} ==>
      && |s.view.contents| <= |At(s, OwesNotifyOne)| + |At(s, Woken)|
      && (s.view.closed ==> At(s, OwesNotifyAll) != {})
  }

  ghost predicate Inv<T>(s: State<T>, capacity: nat) {
    NoLostWakeup(s) && Consistent(s.view, capacity)
  }

  lemma GoMoves<T>(s: State<T>, t: nat, p: Pc)
    requires t in s.pc && s.pc[t] != p
    ensures At(Go(s, t, p), p) == At(s, p) + {t} && t !in At(s, p)
    ensures At(Go(s, t, p), s.pc[t]) == At(s, s.pc[t]) - {t} && t in At(s, s.pc[t])
    ensures forall q :: q != p && q != s.pc[t] ==> At(Go(s, t, p), q) == At(s, q)
  {
  }

  lemma WakeAllMoves<T>(s: State<T>, ts: set<nat>)
    requires ts <= At(s, Waiting)
    ensures At(WakeAll(s, ts), Woken) == At(s, Woken) + ts && At(s, Woken) !! ts
    ensures At(WakeAll(s, ts), Waiting) == At(s, Waiting) - ts
    ensures forall q :: q != Woken && q != Waiting ==> At(WakeAll(s, ts), q) == At(s, q)
  {
  }

  lemma PopOrWaitKeeps<T>(s: State<T>, t: nat)
    requires NoLostWakeup(s) && (Is(s, t, Idle) || Is(s, t, Woken))
    ensures NoLostWakeup(PopOrWait(s, t))
  {
    var s' := s.(view := PopView(s.view));
    assert forall p :: At(s', p) == At(s, p);
    if s.view.contents != [] || s.view.closed {
      if s.pc[t] != Idle {
        GoMoves(s', t, Idle);
      } else {
        assert Go(s', t, Idle).pc == s.pc;
      }
    } else {
      GoMoves(s, t, Waiting);
    }
  }

  lemma NotifyKeeps<T>(s: State<T>, step: Step<T>, capacity: nat)
    requires capacity >= 1 && NoLostWakeup(s) && Enabled(s, step)
    requires step.NotifyOne? || step.NotifyAll?
    ensures NoLostWakeup(Next(s, capacity, step))
  {
    GoMoves(s, step.t, Idle);
    var chosen := if step.NotifyOne? then step.chosen else At(s, Waiting);
    WakeAllMoves(Go(s, step.t, Idle), chosen);
  }

  lemma PushKeeps<T>(s: State<T>, capacity: nat, t: nat, x: T)
    requires capacity >= 1 && NoLostWakeup(s) && Is(s, t, Idle) && !s.view.closed
    ensures NoLostWakeup(Go(s.(view := PushView(s.view, capacity, x)), t, OwesNotifyOne))
  {
    var s' := s.(view := PushView(s.view, capacity, x));
    assert forall p :: At(s', p) == At(s, p);
    assert |s'.view.contents| <= |s.view.contents| + 1;
    GoMoves(s', t, OwesNotifyOne);
  }

  lemma CloseKeeps<T>(s: State<T>, t: nat)
    requires NoLostWakeup(s) && Is(s, t, Idle)
    ensures NoLostWakeup(Go(s.(view := CloseView(s.view)), t, OwesNotifyAll))
  {
    var s' := s.(view := CloseView(s.view));
    assert forall p :: At(s', p) == At(s, p);
    GoMoves(s', t, OwesNotifyAll);
  }

  lemma StepKeepsNoLostWakeup<T>(s: State<T>, capacity: nat, step: Step<T>)
    requires capacity >= 1 && NoLostWakeup(s) && Enabled(s, step)
    ensures NoLostWakeup(Next(s, capacity, step))
  {
    match step {
      case PushLocked(t, x) => if !s.view.closed { PushKeeps(s, capacity, t, x); }
      case NotifyOne(_, _) => NotifyKeeps(s, step, capacity);
      case CloseLocked(t) => CloseKeeps(s, t);
      case NotifyAll(_) => NotifyKeeps(s, step, capacity);
      case PopLocked(t) => PopOrWaitKeeps(s, t);
      case TryPop(t) => assert forall p :: At(s.(view := PopView(s.view)), p) == At(s, p);
      case Resume(t) => PopOrWaitKeeps(s, t);
      case WakeSpuriously(t) => GoMoves(s, t, Woken);
    }
  }

  /** Threads only touch the queue through its locked sections, and none appears or vanishes. */
  lemma StepOnView<T>(s: State<T>, capacity: nat, step: Step<T>)
    requires capacity >= 1 && Enabled(s, step)
    ensures Next(s, capacity, step).pc.Keys == s.pc.Keys
    ensures var v := Next(s, capacity, step).view;
      v == s.view || v == PopView(s.view) || v == CloseView(s.view)
      || (step.PushLocked? && v == PushView(s.view, capacity, step.x))
  {
  }

  lemma StepKeepsInv<T>(s: State<T>, capacity: nat, step: Step<T>)
    requires capacity >= 1 && Inv(s, capacity) && Enabled(s, step)
    ensures Inv(Next(s, capacity, step), capacity)
    ensures Next(s, capacity, step).pc.Keys == s.pc.Keys
    ensures Next(s, capacity, step).view == Run(s.view, capacity, Section(step))
  {
    OneSection(s, capacity, step);
    StepKeepsNoLostWakeup(s, capacity, step);
    StepOnView(s, capacity, step);
    PopConsistent(s.view, capacity);
    if step.PushLocked? {
      PushConsistent(s.view, capacity, step.x);
    }
  }

  lemma OneSection<T>(s: State<T>, capacity: nat, step: Step<T>)
    requires capacity >= 1 && Enabled(s, step)
    ensures Next(s, capacity, step).view == Run(s.view, capacity, Section(step))
  {
    if Section(step) != [] {
      assert Section(step)[1..] == [];
    }
  }

  lemma {:induction false} RunKeepsInv<T>(s: State<T>, capacity: nat, steps: seq<Step<T>>)
    requires capacity >= 1 && Inv(s, capacity) && IsRun(s, capacity, steps)
    ensures Inv(End(s, capacity, steps), capacity)
    ensures End(s, capacity, steps).pc.Keys == s.pc.Keys
    decreases |steps|
  {
    if steps == [] {
    } else {
      StepKeepsInv(s, capacity, steps[0]);
      RunKeepsInv(Next(s, capacity, steps[0]), capacity, steps[1..]);
    }
  }

  /** No lost wakeup, in every interleaving of any set of threads, on the very queue their locked
      sections make. */
  lemma EveryInterleaving<T>(threads: set<nat>, capacity: nat, steps: seq<Step<T>>)
    requires capacity >= 1 && IsRun(Start<T>(threads), capacity, steps)
    ensures Inv(End(Start<T>(threads), capacity, steps), capacity)
    ensures Determined(End(Start<T>(threads), capacity, steps).view, capacity, Sections(steps))
  {
    EveryView(threads, capacity, steps);
    assert At(Start<T>(threads), Waiting) == {};
    RunKeepsInv(Start<T>(threads), capacity, steps);
  }

  // ----- what a run comes to, from its steps alone

  /** The locked section a step performs on the queue, if any. A pop that goes to sleep found
      nothing and takes nothing. */
  function Section<T>(step: Step<T>): seq<Op<T>> {
    match step
    case PushLocked(_, x) => [Push(x)]
    case CloseLocked(_) => [Close]
    case PopLocked(_) => [Pop]
    case TryPop(_) => [Pop]
    case Resume(_) => [Pop]
    case NotifyOne(_, _) => []
    case NotifyAll(_) => []
    case WakeSpuriously(_) => []
  }

  ghost function Sections<T>(steps: seq<Step<T>>): seq<Op<T>> {
    if steps == [] then [] else Sections(steps[..|steps| - 1]) + Section(steps[|steps| - 1])
  }

  lemma {:induction false} EndSnoc<T>(s: State<T>, capacity: nat, steps: seq<Step<T>>, step: Step<T>)
    requires capacity >= 1 && IsRun(s, capacity, steps + [step])
    ensures IsRun(s, capacity, steps) && Enabled(End(s, capacity, steps), step)
    ensures End(s, capacity, steps + [step]) == Next(End(s, capacity, steps), capacity, step)
    decreases |steps|
  {
    if steps == [] {
      assert [step][1..] == [];
    } else {
      assert (steps + [step])[1..] == steps[1..] + [step];
      EndSnoc(Next(s, capacity, steps[0]), capacity, steps[1..], step);
    }
  }

  lemma SectionsSnoc<T>(steps: seq<Step<T>>, step: Step<T>)
    ensures Sections(steps + [step]) == Sections(steps) + Section(step)
  {
    assert (steps + [step])[..|steps|] == steps;
  }

  lemma StepRuns<T>(s: State<T>, capacity: nat, step: Step<T>, ops: seq<Op<T>>)
    requires capacity >= 1 && Enabled(s, step) && s.view == Run(Empty<T>(), capacity, ops)
    ensures Next(s, capacity, step).view == Run(Empty<T>(), capacity, ops + Section(step))
  {
    if Section(step) == [] {
      assert ops + [] == ops;
    } else {
      RunSnoc(Empty<T>(), capacity, ops, Section(step)[0]);
    }
  }

  /** In every interleaving the queue is what its locked sections make of it, one after the other:
      it has accepted exactly the frames pushed before the close, holds the newest of them, and
      every pop that found something got the oldest. */
  lemma {:induction false} EveryView<T>(threads: set<nat>, capacity: nat, steps: seq<Step<T>>)
    requires capacity >= 1 && IsRun(Start<T>(threads), capacity, steps)
    ensures var v := End(Start<T>(threads), capacity, steps).view;
      v == Run(Empty<T>(), capacity, Sections(steps)) && Determined(v, capacity, Sections(steps))
    decreases |steps|
  {
    if steps == [] {
    } else {
      var before, step := steps[..|steps| - 1], steps[|steps| - 1];
      assert steps == before + [step];
      EndSnoc(Start<T>(threads), capacity, before, step);
      EveryView(threads, capacity, before);
      StepRuns(End(Start<T>(threads), capacity, before), capacity, step, Sections(before));
    }
    RunDetermined(capacity, Sections(steps));
  }

  /** Calls of `pop` so far. */
  ghost function Calls<T>(steps: seq<Step<T>>): nat {
    if steps == [] then 0
    else Calls(steps[..|steps| - 1]) + (if steps[|steps| - 1].PopLocked? then 1 else 0)
  }

  /** Calls of `try_pop` that found a frame. */
  ghost function TryHits<T>(capacity: nat, steps: seq<Step<T>>): nat {
    if steps == [] then 0
    else
      var before := steps[..|steps| - 1];
      TryHits(capacity, before)
      + (if steps[|steps| - 1].TryPop? && Size(capacity, Sections(before)) > 0 then 1 else 0)
  }

  /** Times a pop found the queue empty and closed. */
  ghost function EmptyHanded<T>(capacity: nat, steps: seq<Step<T>>): nat {
    if steps == [] then 0
    else
      var before, step := steps[..|steps| - 1], steps[|steps| - 1];
      EmptyHanded(capacity, before)
      + (if (step.PopLocked? || step.Resume?) && Size(capacity, Sections(before)) == 0
            && HasClose(Sections(before)) then 1 else 0)
  }

  /** Threads inside `pop`. */
  ghost function Inside<T>(s: State<T>): nat {
    |At(s, Waiting)| + |At(s, Woken)|
  }

  lemma PopOrWaitInside<T>(s: State<T>, t: nat)
    requires Is(s, t, Idle) || Is(s, t, Woken)
    ensures var stays := s.view.contents == [] && !s.view.closed;
      Inside(PopOrWait(s, t)) + (if s.pc[t] == Woken then 1 else 0) == Inside(s) + (if stays then 1 else 0)
  {
    var s' := s.(view := PopView(s.view));
    assert forall p :: At(s', p) == At(s, p);
    if s.view.contents != [] || s.view.closed {
      if s.pc[t] != Idle {
        GoMoves(s', t, Idle);
      } else {
        assert Go(s', t, Idle).pc == s.pc;
      }
    } else {
      GoMoves(s, t, Waiting);
    }
  }

  lemma WakeInside<T>(s: State<T>, t: nat, chosen: set<nat>)
    requires (Is(s, t, OwesNotifyOne) || Is(s, t, OwesNotifyAll)) && chosen <= At(s, Waiting)
    ensures Inside(WakeAll(Go(s, t, Idle), chosen)) == Inside(s)
  {
    GoMoves(s, t, Idle);
    WakeAllMoves(Go(s, t, Idle), chosen);
    assert At(s, Waiting) == (At(s, Waiting) - chosen) + chosen;
  }

  lemma LeaveInside<T>(s: State<T>, v: View<T>, t: nat, p: Pc)
    requires Is(s, t, Idle) && p != Idle && p != Waiting && p != Woken
    ensures Inside(Go(s.(view := v), t, p)) == Inside(s)
  {
    var s' := s.(view := v);
    assert forall q :: At(s', q) == At(s, q);
    GoMoves(s', t, p);
  }

  lemma StepInside<T>(s: State<T>, capacity: nat, step: Step<T>)
    requires capacity >= 1 && Enabled(s, step)
    ensures var stays := s.view.contents == [] && !s.view.closed;
      Inside(Next(s, capacity, step)) + (if step.Resume? then 1 else 0)
      == Inside(s) + (if (step.PopLocked? || step.Resume?) && stays then 1 else 0)
  {
    match step {
      case PushLocked(t, x) =>
        if !s.view.closed { LeaveInside(s, PushView(s.view, capacity, x), t, OwesNotifyOne); }
      case NotifyOne(t, chosen) => WakeInside(s, t, chosen);
      case CloseLocked(t) => LeaveInside(s, CloseView(s.view), t, OwesNotifyAll);
      case NotifyAll(t) => WakeInside(s, t, At(s, Waiting));
      case PopLocked(t) => PopOrWaitInside(s, t);
      case TryPop(t) => assert forall p :: At(s.(view := PopView(s.view)), p) == At(s, p);
      case Resume(t) => PopOrWaitInside(s, t);
      case WakeSpuriously(t) => GoMoves(s, t, Woken);
    }
  }

  lemma StepPopped<T>(s: State<T>, capacity: nat, step: Step<T>)
    requires capacity >= 1 && Enabled(s, step)
    ensures var pops := step.PopLocked? || step.TryPop? || step.Resume?;
      CountFate(Next(s, capacity, step).view.removed, Popped)
      == CountFate(s.view.removed, Popped) + (if pops && s.view.contents != [] then 1 else 0)
  {
    if s.view.contents != [] {
      FramesSnoc(s.view.removed, Removal(s.view.contents[0], Popped, |s.view.accepted|));
      FramesSnoc(s.view.removed, Removal(s.view.contents[0], Dropped, |s.view.accepted|));
    }
  }

  /** In every interleaving a call of `pop` has returned with a frame, has returned without one
      from a closed queue, or is still inside: it never gives up while the queue is open. */
  lemma {:induction false} PopsBlock<T>(threads: set<nat>, capacity: nat, steps: seq<Step<T>>)
    requires capacity >= 1 && IsRun(Start<T>(threads), capacity, steps)
    ensures var s := End(Start<T>(threads), capacity, steps);
      Calls(steps) + TryHits(capacity, steps)
      == CountFate(s.view.removed, Popped) + EmptyHanded(capacity, steps) + Inside(s)
    decreases |steps|
  {
    if steps == [] {
      assert At(Start<T>(threads), Waiting) == {} && At(Start<T>(threads), Woken) == {};
    } else {
      var before, step := steps[..|steps| - 1], steps[|steps| - 1];
      assert steps == before + [step];
      EndSnoc(Start<T>(threads), capacity, before, step);
      PopsBlock(threads, capacity, before);
      EveryView(threads, capacity, before);
      var s := End(Start<T>(threads), capacity, before);
      StepInside(s, capacity, step);
      StepPopped(s, capacity, step);
    }
  }

  // ----- settling: delivering what is owed takes boundedly many steps and leaves nobody stuck

  /** Steps that only deliver an owed notification or let a woken thread look at the queue. */
  predicate Delivers<T>(step: Step<T>) {
    step.NotifyOne? || step.NotifyAll? || step.Resume?
  }

  ghost function Owed<T>(s: State<T>): nat {
    |At(s, OwesNotifyOne)| + |At(s, OwesNotifyAll)|
  }

  /** An upper bound on the number of delivering steps still possible. */
  ghost function Work<T>(s: State<T>): nat {
    Owed(s) * (|s.pc.Keys| + 1) + |At(s, Woken)|
  }

  ghost predicate Quiet<T>(s: State<T>) {
    At(s, OwesNotifyOne) == {} && At(s, OwesNotifyAll) == {} && At(s, Woken) == {}
  }

  lemma SubsetSize(a: set<nat>, b: set<nat>)
    requires a <= b
    ensures |a| <= |b|
  {
    assert b == a + (b - a);
  }

  lemma ResumeMoves<T>(s: State<T>, t: nat)
    requires Is(s, t, Woken)
    ensures Owed(PopOrWait(s, t)) == Owed(s)
    ensures |At(PopOrWait(s, t), Woken)| < |At(s, Woken)|
  {
    var s' := s.(view := PopView(s.view));
    assert forall p :: At(s', p) == At(s, p);
    if s.view.contents != [] || s.view.closed {
      GoMoves(s', t, Idle);
    } else {
      GoMoves(s, t, Waiting);
    }
  }

  lemma NotifyMoves<T>(s: State<T>, t: nat, chosen: set<nat>)
    requires Is(s, t, OwesNotifyOne) || Is(s, t, OwesNotifyAll)
    requires chosen <= At(s, Waiting)
    ensures Owed(WakeAll(Go(s, t, Idle), chosen)) == Owed(s) - 1
    ensures |At(WakeAll(Go(s, t, Idle), chosen), Woken)| <= |At(s, Woken)| + |s.pc.Keys|
  {
    GoMoves(s, t, Idle);
    WakeAllMoves(Go(s, t, Idle), chosen);
    SubsetSize(chosen, s.pc.Keys);
  }

  lemma DeliveryProgress<T>(s: State<T>, capacity: nat, step: Step<T>)
    requires capacity >= 1 && Enabled(s, step) && Delivers(step)
    ensures Work(Next(s, capacity, step)) < Work(s)
  {
    var n := |s.pc.Keys|;
    var s1 := Next(s, capacity, step);
    StepOnView(s, capacity, step);
    if step.Resume? {
      ResumeMoves(s, step.t);
    } else {
      NotifyMoves(s, step.t, if step.NotifyOne? then step.chosen else At(s, Waiting));
      assert Owed(s) * (n + 1) == Owed(s1) * (n + 1) + (n + 1);
    }
  }

  /** While the state is not quiet some delivering step can be taken. */
  lemma NotQuietCanDeliver<T>(s: State<T>) returns (step: Step<T>)
    requires !Quiet(s)
    ensures Delivers(step) && Enabled(s, step)
  {
    if t :| t in At(s, Woken) {
      step := Resume(t);
    } else if t :| t in At(s, OwesNotifyAll) {
      step := NotifyAll(t);
    } else {
      var t :| t in At(s, OwesNotifyOne);
      if w :| w in At(s, Waiting) {
        step := NotifyOne(t, {w});
      } else {
        step := NotifyOne(t, {});
      }
    }
  }

  /** However deliveries are scheduled there are at most `Work` of them; once none is left,
      whoever still sleeps does so on an empty, open queue. */
  lemma {:induction false} Settles<T>(s: State<T>, capacity: nat, steps: seq<Step<T>>)
    requires capacity >= 1 && Inv(s, capacity) && IsRun(s, capacity, steps)
    requires forall i :: 0 <= i < |steps| ==> Delivers(steps[i])
    ensures |steps| + Work(End(s, capacity, steps)) <= Work(s)
    ensures var e := End(s, capacity, steps);
      Quiet(e) && At(e, Waiting) != {} ==> e.view.contents == [] && !e.view.closed
    decreases |steps|
  {
    if steps == [] {
    } else {
      DeliveryProgress(s, capacity, steps[0]);
      StepKeepsInv(s, capacity, steps[0]);
      Settles(Next(s, capacity, steps[0]), capacity, steps[1..]);
    }
  }

  /** Every reachable state can be settled, by some schedule of at most `Work` deliveries. */
  lemma {:induction false} CanSettle<T>(s: State<T>, capacity: nat) returns (steps: seq<Step<T>>)
    requires capacity >= 1 && Inv(s, capacity)
    ensures IsRun(s, capacity, steps) && Quiet(End(s, capacity, steps))
    ensures |steps| <= Work(s)
    ensures var e := End(s, capacity, steps);
      At(e, Waiting) != {} ==> e.view.contents == [] && !e.view.closed
    decreases Work(s)
  {
    if Quiet(s) {
      steps := [];
    } else {
      var step := NotQuietCanDeliver(s);
      DeliveryProgress(s, capacity, step);
      StepKeepsInv(s, capacity, step);
      var rest := CanSettle(Next(s, capacity, step), capacity);
      steps := [step] + rest;
      assert steps[1..] == rest;
    }
  }
}
