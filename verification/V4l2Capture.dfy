/** Which side owns each V4L2 buffer, and how many frames were lost.

    The driver is an environment: it answers a dequeue with an index it holds, and it refuses to
    queue a buffer it already holds. STREAMOFF takes every buffer out of its queues, as the Linux
    user-space API says of VIDIOC_STREAMON and VIDIOC_STREAMOFF.
 */
module V4l2Capture {
  import opened Arithmetic
  import opened Sequences

  // ----- drop accounting

  /** What one frame adds to the drop counter, given the sequence number before it. */
  function Missed(last: nat, next: nat): nat {
    var expected := (last + 1) % TWO32;
    if next > expected then next - expected else 0
  }

  /** The drop count of a session that delivered these sequence numbers. */
  function Dropped(seqs: seq<nat>): nat {
    if |seqs| < 2 then 0
    else Dropped(seqs[..|seqs| - 1]) + Missed(seqs[|seqs| - 2], seqs[|seqs| - 1])
  }

  ghost predicate Increasing(s: seq<nat>) {
    forall i, j :: 0 <= i < j < |s| ==> s[i] < s[j]
  }

  /** Without wrap-around, captured plus dropped accounts for every frame of the session. */
  lemma {:induction false} DropsTelescope(seqs: seq<nat>)
    requires seqs != [] && Increasing(seqs) && seqs[|seqs| - 1] < TWO32
    ensures |seqs| + Dropped(seqs) == seqs[|seqs| - 1] - seqs[0] + 1
  {
    if |seqs| == 1 {
    } else {
      var init := seqs[..|seqs| - 1];
      assert init[|init| - 1] == seqs[|seqs| - 2] < seqs[|seqs| - 1];
      DropsTelescope(init);
    }
  }

  /** The 32-bit numbers the driver reports for a true, unbounded frame counter. */
  ghost function Reported(counters: seq<nat>): (r: seq<nat>)
    ensures |r| == |counters|
    ensures forall i :: 0 <= i < |r| ==> r[i] == counters[i] % TWO32
  {
    if counters == [] then []
    else Reported(counters[..|counters| - 1]) + [counters[|counters| - 1] % TWO32]
  }

  /** Frames really lost between the first and the last counter. */
  ghost function TrulyLost(counters: seq<nat>): int {
    if |counters| < 2 then 0
    else TrulyLost(counters[..|counters| - 1]) + counters[|counters| - 1] - counters[|counters| - 2] - 1
  }

  /** Counter `i + 1` is later than counter `i`, by at most 2^32. */
  ghost predicate Plausible(c: seq<nat>, i: nat)
    requires i + 1 < |c|
  {
    c[i] < c[i + 1] <= c[i] + TWO32
  }

  /** Frames were lost from before a wrap of the 32-bit number to after it. */
  ghost predicate Straddles(a: nat, b: nat) {
    b > a + 1 && (a + 1) / TWO32 != b / TWO32
  }

  ghost predicate Clean(c: seq<nat>, i: nat)
    requires i + 1 < |c|
  {
    !Straddles(c[i], c[i + 1])
  }

  ghost predicate AllPlausible(c: seq<nat>) {
    forall i: nat :: i + 1 < |c| ==> Plausible(c, i)
  }

  ghost predicate AllClean(c: seq<nat>) {
    forall i: nat :: i + 1 < |c| ==> Clean(c, i)
  }

  lemma OneGap(a: nat, b: nat)
    requires a < b <= a + TWO32
    ensures Missed(a % TWO32, b % TWO32) == if Straddles(a, b) then 0 else b - a - 1
  {
    var e := a + 1;
    assert (a % TWO32 + 1) % TWO32 == e % TWO32;
    assert e == TWO32 * (e / TWO32) + e % TWO32;
    assert b == TWO32 * (b / TWO32) + b % TWO32;
    assert b / TWO32 == e / TWO32 || b / TWO32 == e / TWO32 + 1;
  }

  lemma InitOf(c: seq<nat>)
    requires |c| >= 2 && AllPlausible(c)
    ensures var init := c[..|c| - 1];
      AllPlausible(init) && (AllClean(c) <==> AllClean(init) && Clean(c, |c| - 2))
  {
    var init := c[..|c| - 1];
    forall i: nat | i + 1 < |init| ensures Plausible(init, i) && Clean(init, i) == Clean(c, i) {
      assert Plausible(c, i);
    }
  }

  lemma DroppedInit(c: seq<nat>)
    requires |c| >= 2
    ensures Dropped(Reported(c)) == Dropped(Reported(c[..|c| - 1])) + Missed(c[|c| - 2] % TWO32, c[|c| - 1] % TWO32)
  {
    var r := Reported(c);
    assert r[..|c| - 1] == Reported(c[..|c| - 1]);
    assert r[|c| - 2] == c[|c| - 2] % TWO32 && r[|c| - 1] == c[|c| - 1] % TWO32;
  }

  /** The counter never exceeds the frames really lost, and equals them exactly when no loss
      straddles the wrap of the 32-bit sequence number. */
  lemma {:induction false} DropsNeverOvercount(c: seq<nat>)
    requires AllPlausible(c)
    ensures Dropped(Reported(c)) <= TrulyLost(c)
    ensures Dropped(Reported(c)) == TrulyLost(c) <==> AllClean(c)
  {
    if |c| < 2 {
    } else {
      var n := |c| - 1;
      InitOf(c);
      DropsNeverOvercount(c[..n]);
      DroppedInit(c);
      assert Plausible(c, n - 1);
      OneGap(c[n - 1], c[n]);
    }
  }

  lemma {:induction false} TrulyLostTotal(c: seq<nat>)
    requires c != []
    ensures c[0] + |c| + TrulyLost(c) == c[|c| - 1] + 1
  {
    if |c| == 1 {
    } else {
      TrulyLostTotal(c[..|c| - 1]);
    }
  }

  // ----- the capture object

  datatype Slot = Slot(start: nat, dmabufFd: int)

  datatype Frame = Frame(data: nat, bytes: nat, index: nat, sequence: nat, dmabufFd: int, hadError: bool)

  /** What poll and DQBUF answer. */
  datatype Answer =
    | TimedOut                                                         // poll timeout or EAGAIN
    | Failed                                                           // poll or DQBUF error
    | Buffer(index: nat, sequence: nat, bytesUsed: nat, errorFlag: bool)

  datatype Outcome = NoFrame | Thrown | Got(frame: Frame)

  ghost function Range(n: nat): (r: set<nat>)
    ensures forall i: nat :: i in r <==> i < n
  {
    if n == 0 then {} else Range(n - 1) + {n - 1}
  }

  lemma {:induction false} RangeSize(n: nat)
    ensures |Range(n)| == n
  {
    if n == 0 {
    } else {
      RangeSize(n - 1);
    }
  }

  class Capture {
    var slots: seq<Slot>
    var streaming: bool
    var lastSequence: nat
    var haveLastSequence: bool
    var framesCaptured: nat
    var framesDropped: nat
    var framesErrored: nat
    var bytesCaptured: nat
    var queued: set<nat>                     // the kernel's side: buffers the driver holds
    ghost var outstanding: map<nat, Frame>   // frames handed out and not yet released
    ghost var session: seq<nat>              // sequence numbers delivered since start
    ghost var droppedBefore: nat             // counters when the session began
    ghost var capturedBefore: nat

    /** The counters account for the session, and every frame out there points at its own slot. */
    ghost predicate Valid()
      reads this
    {
      && queued <= Range(|slots|)
      && outstanding.Keys <= Range(|slots|) && outstanding.Keys !! queued
      && (forall i :: i in outstanding ==> PointsAt(outstanding[i], i))
      && Counting()
    }

    ghost predicate PointsAt(f: Frame, i: nat)
      reads this
    {
      i < |slots| && f.index == i && f.data == slots[i].start && f.dmabufFd == slots[i].dmabufFd
    }

    ghost predicate Counting()
      reads this
    {
      && haveLastSequence == (session != [])
      && (session != [] ==> lastSequence == session[|session| - 1])
      && (forall i :: 0 <= i < |session| ==> session[i] < TWO32)
      && framesDropped == droppedBefore + Dropped(session)
      && framesCaptured == capturedBefore + |session|
    }

    /** Every buffer is with the driver or with the application, none with both. */
    ghost predicate Partition()
      reads this
    {
      queued + outstanding.Keys == Range(|slots|) && queued !! outstanding.Keys
    }

    constructor ()
      ensures Valid() && slots == [] && session == [] && outstanding == map[] && !streaming
      ensures framesCaptured == 0 && framesDropped == 0
    {
      slots, streaming, lastSequence, haveLastSequence := [], false, 0, false;
      framesCaptured, framesDropped, framesErrored, bytesCaptured := 0, 0, 0, 0;
      queued, outstanding, session, droppedBefore, capturedBefore := {}, map[], [], 0, 0;
    }

    /** VIDIOC_QBUF: refused for an unknown buffer or one the driver already holds. */
    method QueueBuffer(index: nat) returns (ok: bool)
      requires Valid()
      modifies `queued, `outstanding
      ensures Valid() && (old(Partition()) ==> Partition())
      ensures ok <==> index < |slots| && index !in old(queued)
      ensures queued == if ok then old(queued) + {index} else old(queued)
      ensures outstanding == if ok then old(outstanding) - {index} else old(outstanding)
    {
      ok := index < |slots| && index !in queued;
      if ok {
        queued := queued + {index};
        outstanding := outstanding - {index};
      }
    }

    /** The buffer part of `open`: fewer than two granted buffers is an error, otherwise all of
        them are mapped and end up with the driver. */
    method Open(granted: seq<Slot>) returns (ok: bool)
      requires Valid() && slots == [] && outstanding == map[]
      modifies `slots, `queued, `outstanding
      ensures Valid() && outstanding == map[]
      ensures ok == (|granted| >= 2)
      ensures ok ==> slots == granted && queued == Range(|granted|) && Partition()
      ensures !ok ==> slots == [] && queued == old(queued)
    {
      if |granted| < 2 {
        return false;
      }
      assert queued <= Range(0);
      slots := granted;
      var i := 0;
      while i < |slots|
        invariant 0 <= i <= |slots| && slots == granted && outstanding == map[]
        invariant queued == Range(i) && Valid()
      {
        var done := QueueBuffer(i);
        i := i + 1;
      }
      return true;
    }

    /** VIDIOC_STREAMON; a new session starts counting gaps afresh. */
    method Start(driverOk: bool) returns (ok: bool)
      requires Valid()
      modifies `streaming, `haveLastSequence, `session, `droppedBefore, `capturedBefore
      ensures Valid() && ok == driverOk
      ensures ok ==> streaming && session == []
      ensures !ok ==> streaming == old(streaming) && session == old(session)
    {
      if !driverOk {
        return false;
      }
      streaming := true;
      haveLastSequence := false;
      session, droppedBefore, capturedBefore := [], framesDropped, framesCaptured;
      return true;
    }

    /** The driver only ever answers with a buffer it holds. */
    ghost predicate DriverMay(a: Answer)
      reads this
    {
      a.Buffer? ==> a.index in queued && a.sequence < TWO32
    }

    /** The accounting of `next` for a frame with this sequence number. */
    method Account(sequence: nat)
      requires Counting() && sequence < TWO32
      modifies `session, `lastSequence, `haveLastSequence, `framesCaptured, `framesDropped
      ensures Counting() && session == old(session) + [sequence]
    {
      DroppedSnoc(session, sequence);
      if haveLastSequence {
        var expected := (lastSequence + 1) % TWO32;
        if sequence > expected {
          framesDropped := framesDropped + (sequence - expected);
        }
      }
      lastSequence := sequence;
      haveLastSequence := true;
      framesCaptured := framesCaptured + 1;
      session := session + [sequence];
    }

    /** `next`: ownership of one buffer passes to the caller. */
    method Next(a: Answer) returns (out: Outcome)
      requires Valid() && DriverMay(a)
      modifies `queued, `outstanding, `session, `lastSequence, `haveLastSequence,
               `framesCaptured, `framesDropped, `framesErrored, `bytesCaptured
      ensures Valid() && (old(Partition()) ==> Partition())
      ensures a.TimedOut? ==> out == NoFrame
      ensures a.Failed? ==> out == Thrown
      ensures !a.Buffer? ==>
        && queued == old(queued) && outstanding == old(outstanding) && session == old(session)
        && framesErrored == old(framesErrored) && bytesCaptured == old(bytesCaptured)
      ensures a.Buffer? ==>
        && out.Got? && PointsAt(out.frame, a.index) && out.frame.sequence == a.sequence
        && out.frame.bytes == a.bytesUsed && out.frame.hadError == a.errorFlag
        && queued == old(queued) - {a.index}
        && outstanding == old(outstanding)[a.index := out.frame]
        && session == old(session) + [a.sequence]
        && framesErrored == old(framesErrored) + (if a.errorFlag then 1 else 0)
        && bytesCaptured == old(bytesCaptured) + a.bytesUsed
    {
      if a.TimedOut? {
        return NoFrame;
      }
      if a.Failed? {
        return Thrown;
      }
      if a.errorFlag {
        framesErrored := framesErrored + 1;
      }
      Account(a.sequence);
      bytesCaptured := bytesCaptured + a.bytesUsed;
      var f := Frame(slots[a.index].start, a.bytesUsed, a.index, a.sequence, slots[a.index].dmabufFd, a.errorFlag);
      queued := queued - {a.index};
      outstanding := outstanding[a.index := f];
      return Got(f);
    }

    /** `release`: while ownership is a partition it succeeds exactly for a frame still out there,
        so a second release of the same frame is refused. */
    method Release(f: Frame) returns (ok: bool)
      requires Valid()
      modifies `queued, `outstanding
      ensures Valid() && (old(Partition()) ==> Partition())
      ensures ok <==> f.index < |slots| && f.index !in old(queued)
      ensures old(Partition()) ==> (ok <==> f.index in old(outstanding))
      ensures ok ==> queued == old(queued) + {f.index} && outstanding == old(outstanding) - {f.index}
      ensures !ok ==> queued == old(queued) && outstanding == old(outstanding)
    {
      ok := QueueBuffer(f.index);
    }

    /** `stop`: STREAMOFF empties the driver's queues, and nothing is queued again. A failing
        STREAMOFF is only logged. */
    method Stop(driverOk: bool)
      requires Valid()
      modifies `streaming, `queued
      ensures Valid() && !streaming
      ensures queued == if old(streaming) && driverOk then {} else old(queued)
    {
      if !streaming {
        return;
      }
      if driverOk {
        queued := {};
      }
      streaming := false;
    }

    /** Contrary to the comment in the header, `stop` followed by `start` leaves the driver without
        a single buffer, so no further frame can be delivered until the client queues one. */
    method Restart() returns (ok: bool)
      requires Valid() && streaming
      modifies `streaming, `queued, `haveLastSequence, `session, `droppedBefore, `capturedBefore
      ensures ok && Valid() && streaming && queued == {}
      ensures forall a: Answer :: DriverMay(a) ==> !a.Buffer?
      ensures |slots| > |outstanding| ==> !Partition()
    {
      Stop(true);
      ok := Start(true);
      assert outstanding.Keys == Range(|slots|) ==> |outstanding.Keys| == |slots| by { RangeSize(|slots|); }
      assert |outstanding| == |outstanding.Keys|;
    }
  }

  lemma DroppedSnoc(s: seq<nat>, x: nat)
    ensures Dropped(s + [x]) == Dropped(s) + (if s == [] then 0 else Missed(s[|s| - 1], x))
  {
    assert (s + [x])[..|s|] == s;
  }

  // ----- any client

  datatype Act = Take(answer: Answer) | GiveBack(frame: Frame)

  /** Whatever a client takes and gives back, in whatever order and however often, every buffer
      stays on exactly one side and every frame out there points at its own slot. */
  method AnyClient(cap: Capture, script: seq<Act>)
    requires cap.Valid() && cap.Partition()
    modifies cap
    ensures cap.Valid() && cap.Partition() && cap.slots == old(cap.slots)
    ensures |cap.queued| + |cap.outstanding.Keys| == |cap.slots|
  {
    var k := 0;
    while k < |script|
      invariant 0 <= k <= |script|
      invariant cap.Valid() && cap.Partition() && cap.slots == old(cap.slots)
    {
      match script[k] {
        case Take(a) =>
          if a.Buffer? ==> a.index in cap.queued && a.sequence < TWO32 {
            var out := cap.Next(a);
          }
        case GiveBack(f) =>
          var ok := cap.Release(f);
      }
      k := k + 1;
    }
    RangeSize(|cap.slots|);
    assert |cap.queued + cap.outstanding.Keys| == |cap.queued| + |cap.outstanding.Keys|;
  }

  // ----- the program's capture loop

  ghost predicate Answers(answers: seq<Answer>, n: nat) {
    forall i :: 0 <= i < |answers| && answers[i].Buffer? ==> answers[i].index < n && answers[i].sequence < TWO32
  }

  /** All buffers are with the driver, none with the program. */
  ghost predicate AtRest(cap: Capture)
    reads cap
  {
    cap.Valid() && cap.outstanding == map[] && cap.queued == Range(|cap.slots|)
  }

  /** One iteration: take a frame, use it, hand it straight back. `low` is the number of buffers
      the driver had in between. */
  method GrabOne(cap: Capture, a: Answer) returns (out: Outcome, ghost low: nat)
    requires AtRest(cap) && |cap.slots| >= 1
    requires a.Buffer? ==> a.index < |cap.slots| && a.sequence < TWO32
    modifies cap
    ensures AtRest(cap) && cap.slots == old(cap.slots)
    ensures low >= |cap.slots| - 1
    ensures cap.session == old(cap.session) + (if a.Buffer? then [a.sequence] else [])
    ensures out.Got? <==> a.Buffer?
    ensures out.Thrown? <==> a.Failed?
    ensures cap.droppedBefore == old(cap.droppedBefore) && cap.capturedBefore == old(cap.capturedBefore)
  {
    RangeSize(|cap.slots|);
    out := cap.Next(a);
    low := |cap.queued|;
    if out.Got? {
      ThereAndBack(Range(|cap.slots|), a.index, out.frame);
      var ok := cap.Release(out.frame);
    }
  }

  lemma ThereAndBack(all: set<nat>, i: nat, f: Frame)
    requires i in all
    ensures (all - {i}) + {i} == all && |all - {i}| == |all| - 1
    ensures var none: map<nat, Frame> := map[]; none[i := f] - {i} == none
  {
  }

  /** The sequence numbers of the buffers among the first `n` answers. */
  function Delivered(answers: seq<Answer>, n: nat): seq<nat>
    requires n <= |answers|
  {
    if n == 0 then []
    else
      var a := answers[n - 1];
      Delivered(answers, n - 1) + (if a.Buffer? then [a.sequence] else [])
  }

  /** What the counters of a session come to when its sequence numbers increase. */
  lemma SessionAccounts(cap: Capture)
    requires cap.Valid()
    ensures cap.framesCaptured == cap.capturedBefore + |cap.session|
    ensures cap.session == [] ==> cap.framesDropped == cap.droppedBefore
    ensures cap.session != [] && Increasing(cap.session) ==>
      cap.session[0] + (cap.framesDropped - cap.droppedBefore) + |cap.session|
         == cap.session[|cap.session| - 1] + 1
  {
    if cap.session != [] && Increasing(cap.session) {
      DropsTelescope(cap.session);
    }
  }

  /** The loop of `main`. `answers` is everything the driver says until the program is told to
      stop; `low` is the fewest buffers the driver ever had. */
  method GrabAll(cap: Capture, answers: seq<Answer>, framesToGrab: int)
    returns (grabbed: nat, thrown: bool, used: nat, ghost low: nat)
    requires AtRest(cap) && |cap.slots| >= 1 && cap.session == [] && Answers(answers, |cap.slots|)
    modifies cap
    ensures AtRest(cap) && cap.slots == old(cap.slots) && low >= |cap.slots| - 1
    ensures cap.droppedBefore == old(cap.droppedBefore) && cap.capturedBefore == old(cap.capturedBefore)
    ensures used <= |answers| && cap.session == Delivered(answers, used) && |cap.session| == grabbed
    ensures thrown <==> used > 0 && answers[used - 1].Failed?
    ensures forall i :: 0 <= i < used - 1 ==> !answers[i].Failed?
    ensures !thrown ==> used == |answers| || (framesToGrab > 0 && grabbed == framesToGrab)
    ensures framesToGrab > 0 ==> grabbed <= framesToGrab
  {
    grabbed, thrown, used := 0, false, 0;
    low := |cap.slots|;
    while used < |answers| && (framesToGrab <= 0 || grabbed < framesToGrab)
      invariant 0 <= used <= |answers| && !thrown
      invariant forall i :: 0 <= i < used ==> !answers[i].Failed?
      invariant cap.slots == old(cap.slots) && AtRest(cap)
      invariant cap.droppedBefore == old(cap.droppedBefore) && cap.capturedBefore == old(cap.capturedBefore)
      invariant cap.session == Delivered(answers, used) && |cap.session| == grabbed
      invariant framesToGrab > 0 ==> grabbed <= framesToGrab
      invariant low >= |cap.slots| - 1
    {
      var out;
      ghost var now;
      out, now := GrabOne(cap, answers[used]);
      low := Min(low, now);
      used := used + 1;
      if out.Thrown? {
        thrown := true;
        break;
      }
      if out.NoFrame? {
        continue;
      }
      grabbed := grabbed + 1;
    }
  }

  /** The program never holds more than one frame, so the driver is never starved; it stops for
      one of three reasons; and the counters account for the session. */
  method CaptureLoop(cap: Capture, answers: seq<Answer>, framesToGrab: int)
    returns (grabbed: nat, thrown: bool, used: nat, ghost low: nat)
    requires AtRest(cap) && |cap.slots| >= 2 && cap.session == [] && Answers(answers, |cap.slots|)
    modifies cap
    ensures AtRest(cap) && cap.slots == old(cap.slots)
    ensures low >= |cap.slots| - 1 >= 1
    ensures used <= |answers| && cap.session == Delivered(answers, used)
    ensures thrown <==> used > 0 && answers[used - 1].Failed?
    ensures forall i :: 0 <= i < used - 1 ==> !answers[i].Failed?
    ensures !thrown ==> used == |answers| || (framesToGrab > 0 && grabbed == framesToGrab)
    ensures |cap.session| == grabbed && cap.framesCaptured == old(cap.framesCaptured) + grabbed
    ensures framesToGrab > 0 ==> grabbed <= framesToGrab
    ensures Increasing(cap.session) && grabbed > 0 ==>
      cap.session[0] + (cap.framesDropped - old(cap.framesDropped)) + grabbed == cap.session[grabbed - 1] + 1
  {
    SessionAccounts(cap);
    grabbed, thrown, used, low := GrabAll(cap, answers, framesToGrab);
    SessionAccounts(cap);
  }
}
