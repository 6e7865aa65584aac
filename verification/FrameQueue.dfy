/** The bounded drop-oldest frame queue.

    `View` is what a run of the queue has done so far: the frames it holds, every frame it
    ever accepted and every frame that ever left it. `PushView`, `PopView` and `CloseView` are
    the effects of the three locked sections; the class below performs them in place, and the
    lemmas state what holds after every sequence of them.
 */
module FrameQueues {
  import opened Arithmetic
  import opened Sequences

  /** The counters are 64 bits wide. */
  const U64: nat := 0x1_0000_0000_0000_0000

  datatype Fate = Popped | Dropped

  /** A frame that left the queue, why, and how many frames had been accepted by then. */
  datatype Removal<T> = Removal(frame: T, fate: Fate, acceptedThen: nat)

  datatype View<T> = View(contents: seq<T>, closed: bool, accepted: seq<T>, removed: seq<Removal<T>>)

  function Empty<T>(): View<T> {
    View([], false, [], [])
  }

  function Remove<T>(v: View<T>, fate: Fate): View<T>
    requires v.contents != []
  {
    v.(contents := v.contents[1..],
       removed := v.removed + [Removal(v.contents[0], fate, |v.accepted|)])
  }

  function PushView<T>(v: View<T>, capacity: nat, x: T): View<T>
    requires capacity >= 1
  {
    if v.closed then v
    else
      var w := if |v.contents| >= capacity then Remove(v, Dropped) else v;
      w.(contents := w.contents + [x], accepted := w.accepted + [x])
  }

  function PopView<T>(v: View<T>): View<T> {
    if v.contents == [] then v else Remove(v, Popped)
  }

  function CloseView<T>(v: View<T>): View<T> {
    v.(closed := true)
  }

  // ----- what every reachable view satisfies

  ghost function Frames<T>(removed: seq<Removal<T>>): (fs: seq<T>)
    ensures |fs| == |removed|
    ensures forall i :: 0 <= i < |fs| ==> fs[i] == removed[i].frame
  {
    if removed == [] then []
    else Frames(removed[..|removed| - 1]) + [removed[|removed| - 1].frame]
  }

  ghost function CountFate<T>(removed: seq<Removal<T>>, fate: Fate): nat {
    if removed == [] then 0
    else CountFate(removed[..|removed| - 1], fate) + (if removed[|removed| - 1].fate == fate then 1 else 0)
  }

  /** The positions, among all accepted frames, of those a consumer received. */
  ghost function PoppedIndices<T>(removed: seq<Removal<T>>): (picks: seq<nat>)
    ensures |picks| == CountFate(removed, Popped)
    ensures forall i :: 0 <= i < |picks| ==> picks[i] < |removed| && removed[picks[i]].fate == Popped
    ensures forall i, j :: 0 <= i < j < |picks| ==> picks[i] < picks[j]
  {
    if removed == [] then []
    else
      var n := |removed| - 1;
      PoppedIndices(removed[..n]) + (if removed[n].fate == Popped then [n] else [])
  }

  /** The frames consumers received, in the order they received them. */
  ghost function PoppedFrames<T>(removed: seq<Removal<T>>): seq<T> {
    if removed == [] then []
    else
      var n := |removed| - 1;
      PoppedFrames(removed[..n]) + (if removed[n].fate == Popped then [removed[n].frame] else [])
  }

  /** The k-th frame to leave was, when it left, among the newest `capacity`; if it was dropped it
      was the oldest of them, with a full queue behind it. */
  ghost predicate Timely<T>(r: Removal<T>, k: nat, accepted: nat, capacity: nat) {
    && k < r.acceptedThen <= accepted
    && r.acceptedThen - k <= capacity
    && (r.fate == Dropped ==> r.acceptedThen - k == capacity)
  }

  ghost predicate AllTimely<T>(removed: seq<Removal<T>>, accepted: nat, capacity: nat) {
    forall k :: 0 <= k < |removed| ==> Timely(removed[k], k, accepted, capacity)
  }

  /** Frames leave strictly in arrival order, and timely. */
  ghost predicate Consistent<T>(v: View<T>, capacity: nat) {
    && |v.contents| <= capacity
    && v.accepted == Frames(v.removed) + v.contents
    && AllTimely(v.removed, |v.accepted|, capacity)
  }

  lemma FramesSnoc<T>(removed: seq<Removal<T>>, r: Removal<T>)
    ensures Frames(removed + [r]) == Frames(removed) + [r.frame]
    ensures forall f :: CountFate(removed + [r], f) == CountFate(removed, f) + (if r.fate == f then 1 else 0)
    ensures PoppedIndices(removed + [r])
         == PoppedIndices(removed) + (if r.fate == Popped then [|removed|] else [])
    ensures PoppedFrames(removed + [r])
         == PoppedFrames(removed) + (if r.fate == Popped then [r.frame] else [])
  {
    assert (removed + [r])[..|removed|] == removed;
  }

  lemma MoveHead<T>(done: seq<T>, contents: seq<T>)
    requires contents != []
    ensures done + contents == (done + [contents[0]]) + contents[1..]
  {
  }

  lemma RemoveConsistent<T>(v: View<T>, capacity: nat, fate: Fate)
    requires Consistent(v, capacity) && v.contents != []
    requires fate == Dropped ==> |v.contents| == capacity
    ensures Consistent(Remove(v, fate), capacity)
  {
    var r := Removal(v.contents[0], fate, |v.accepted|);
    FramesSnoc(v.removed, r);
    MoveHead(Frames(v.removed), v.contents);
    assert |v.accepted| == |v.removed| + |v.contents|;
    assert Timely(r, |v.removed|, |v.accepted|, capacity);
  }

  lemma AcceptConsistent<T>(v: View<T>, capacity: nat, x: T)
    requires Consistent(v, capacity) && |v.contents| < capacity
    ensures Consistent(v.(contents := v.contents + [x], accepted := v.accepted + [x]), capacity)
  {
    assert Frames(v.removed) + v.contents + [x] == Frames(v.removed) + (v.contents + [x]);
    forall k | 0 <= k < |v.removed| ensures Timely(v.removed[k], k, |v.accepted| + 1, capacity) {
      assert Timely(v.removed[k], k, |v.accepted|, capacity);
    }
  }

  lemma PushConsistent<T>(v: View<T>, capacity: nat, x: T)
    requires capacity >= 1 && Consistent(v, capacity)
    ensures Consistent(PushView(v, capacity, x), capacity)
  {
    if !v.closed {
      if |v.contents| >= capacity {
        RemoveConsistent(v, capacity, Dropped);
        AcceptConsistent(Remove(v, Dropped), capacity, x);
      } else {
        AcceptConsistent(v, capacity, x);
      }
    }
  }

  lemma PopConsistent<T>(v: View<T>, capacity: nat)
    requires Consistent(v, capacity)
    ensures Consistent(PopView(v), capacity)
  {
    if v.contents != [] {
      RemoveConsistent(v, capacity, Popped);
    }
  }

  // ----- whole runs

  datatype Op<T> = Push(x: T) | Pop | Close

  function Apply<T>(v: View<T>, capacity: nat, op: Op<T>): View<T>
    requires capacity >= 1
  {
    match op
    case Push(x) => PushView(v, capacity, x)
    case Pop => PopView(v)
    case Close => CloseView(v)
  }

  function Run<T>(v: View<T>, capacity: nat, ops: seq<Op<T>>): View<T>
    requires capacity >= 1
    decreases |ops|
  {
    if ops == [] then v
    else Run(Apply(v, capacity, ops[0]), capacity, ops[1..])
  }

  lemma {:induction false} RunConsistent<T>(v: View<T>, capacity: nat, ops: seq<Op<T>>)
    requires capacity >= 1 && Consistent(v, capacity)
    ensures Consistent(Run(v, capacity, ops), capacity)
    decreases |ops|
  {
    if ops == [] {
    } else {
      match ops[0] {
        case Push(x) => PushConsistent(v, capacity, x);
        case Pop => PopConsistent(v, capacity);
        case Close =>
      }
      RunConsistent(Apply(v, capacity, ops[0]), capacity, ops[1..]);
    }
  }

  /** Conservation and order, after every run from the empty queue. */
  lemma EveryRun<T>(capacity: nat, ops: seq<Op<T>>)
    requires capacity >= 1
    ensures var v := Run(Empty<T>(), capacity, ops);
      && v.accepted == Frames(v.removed) + v.contents
      && |v.accepted| == CountFate(v.removed, Popped) + CountFate(v.removed, Dropped) + |v.contents|
      && |v.contents| <= capacity
      && Subsequence(PoppedFrames(v.removed), v.accepted)
  {
    RunConsistent(Empty<T>(), capacity, ops);
    var v := Run(Empty<T>(), capacity, ops);
    FatesPartition(v.removed);
    PopsEmbed(v, capacity);
  }

  /** Every frame handed to a consumer was, when handed over, one of the last `capacity` accepted. */
  lemma EveryPopIsFresh<T>(capacity: nat, ops: seq<Op<T>>, k: nat)
    requires capacity >= 1
    requires k < |Run(Empty<T>(), capacity, ops).removed|
    ensures var v := Run(Empty<T>(), capacity, ops);
      var r := v.removed[k];
      && r.acceptedThen <= |v.accepted|
      && r.acceptedThen - capacity <= k < r.acceptedThen
      && v.accepted[k] == r.frame
      && (r.fate == Dropped ==> k == r.acceptedThen - capacity)
  {
    RunConsistent(Empty<T>(), capacity, ops);
    var v := Run(Empty<T>(), capacity, ops);
    assert Timely(v.removed[k], k, |v.accepted|, capacity);
    assert v.accepted[k] == Frames(v.removed)[k];
  }

  lemma {:induction false} FatesPartition<T>(removed: seq<Removal<T>>)
    ensures |removed| == CountFate(removed, Popped) + CountFate(removed, Dropped)
  {
    if removed == [] {
    } else {
      FatesPartition(removed[..|removed| - 1]);
    }
  }

  lemma {:induction false} PoppedFramesAt<T>(removed: seq<Removal<T>>)
    ensures |PoppedFrames(removed)| == |PoppedIndices(removed)|
    ensures forall i :: 0 <= i < |PoppedFrames(removed)| ==>
      PoppedFrames(removed)[i] == removed[PoppedIndices(removed)[i]].frame
  {
    if removed == [] {
    } else {
      var n := |removed| - 1;
      PoppedFramesAt(removed[..n]);
      assert removed == removed[..n] + [removed[n]];
      FramesSnoc(removed[..n], removed[n]);
    }
  }

  lemma PopsEmbed<T>(v: View<T>, capacity: nat)
    requires Consistent(v, capacity)
    ensures Embeds(PoppedFrames(v.removed), v.accepted, PoppedIndices(v.removed))
    ensures Subsequence(PoppedFrames(v.removed), v.accepted)
  {
    PoppedFramesAt(v.removed);
    assert Embeds(PoppedFrames(v.removed), v.accepted, PoppedIndices(v.removed));
  }

  // ----- what a run comes to, from its operations alone

  ghost predicate HasClose<T>(ops: seq<Op<T>>) {
    exists i :: 0 <= i < |ops| && ops[i].Close?
  }

  /** The frames pushed before the queue was closed. */
  ghost function Pushes<T>(ops: seq<Op<T>>): seq<T> {
    if ops == [] then []
    else
      var before, op := ops[..|ops| - 1], ops[|ops| - 1];
      Pushes(before) + (if op.Push? && !HasClose(before) then [op.x] else [])
  }

  /** How many frames are waiting: one more per push, up to the capacity, one less per pop. */
  ghost function Size<T>(capacity: nat, ops: seq<Op<T>>): (n: nat)
    ensures n <= capacity && n <= |Pushes(ops)|
  {
    if ops == [] then 0
    else
      var before := ops[..|ops| - 1];
      var n := Size(capacity, before);
      match ops[|ops| - 1]
      case Push(_) => if HasClose(before) then n else Min(n + 1, capacity)
      case Pop => Max(n - 1, 0)
      case Close => n
  }

  /** What the pops return, in order: each the oldest frame then waiting, if any. */
  ghost function Received<T>(capacity: nat, ops: seq<Op<T>>): seq<T> {
    if ops == [] then []
    else
      var before := ops[..|ops| - 1];
      var n := Size(capacity, before);
      Received(capacity, before)
      + (if ops[|ops| - 1].Pop? && n > 0 then [Pushes(before)[|Pushes(before)| - n]] else [])
  }

  lemma {:induction false} RunSnoc<T>(v: View<T>, capacity: nat, ops: seq<Op<T>>, op: Op<T>)
    requires capacity >= 1
    ensures Run(v, capacity, ops + [op]) == Apply(Run(v, capacity, ops), capacity, op)
    decreases |ops|
  {
    if ops == [] {
      assert [op][1..] == [];
    } else {
      RunSnoc(Apply(v, capacity, ops[0]), capacity, ops[1..], op);
      assert (ops + [op])[1..] == ops[1..] + [op];
    }
  }

  lemma HasCloseSnoc<T>(ops: seq<Op<T>>, op: Op<T>)
    ensures HasClose(ops + [op]) == (HasClose(ops) || op.Close?)
  {
    assert (ops + [op])[|ops|] == op;
    forall i | 0 <= i < |ops| ensures (ops + [op])[i] == ops[i] {
    }
  }

  /** `v` has accepted `pushes`, holds the last `n` of them and has handed out `got`. */
  ghost predicate Matches<T>(v: View<T>, closed: bool, pushes: seq<T>, n: nat, got: seq<T>) {
    && v.closed == closed && v.accepted == pushes && n <= |pushes|
    && v.contents == pushes[|pushes| - n..]
    && PoppedFrames(v.removed) == got
  }

  lemma RemoveMatches<T>(v: View<T>, fate: Fate, pushes: seq<T>, n: nat, got: seq<T>)
    requires Matches(v, v.closed, pushes, n, got) && n > 0
    ensures v.contents != []
    ensures Matches(Remove(v, fate), v.closed, pushes, n - 1,
                    got + (if fate == Popped then [pushes[|pushes| - n]] else []))
  {
    FramesSnoc(v.removed, Removal(v.contents[0], fate, |v.accepted|));
    assert v.contents[1..] == pushes[|pushes| - n + 1..];
  }

  lemma AcceptMatches<T>(v: View<T>, pushes: seq<T>, n: nat, got: seq<T>, x: T)
    requires Matches(v, v.closed, pushes, n, got)
    ensures Matches(v.(contents := v.contents + [x], accepted := v.accepted + [x]), v.closed,
                    pushes + [x], n + 1, got)
  {
    assert v.contents + [x] == (pushes + [x])[|pushes| - n..];
  }

  lemma PushMatches<T>(v: View<T>, capacity: nat, pushes: seq<T>, n: nat, got: seq<T>, x: T)
    requires capacity >= 1 && Matches(v, false, pushes, n, got) && n <= capacity
    ensures Matches(PushView(v, capacity, x), false, pushes + [x], Min(n + 1, capacity), got)
  {
    if n >= capacity {
      RemoveMatches(v, Dropped, pushes, n, got);
      assert got + [] == got;
      AcceptMatches(Remove(v, Dropped), pushes, n - 1, got, x);
    } else {
      AcceptMatches(v, pushes, n, got, x);
    }
  }

  /** `v` is what the operations alone say. */
  ghost predicate Determined<T>(v: View<T>, capacity: nat, ops: seq<Op<T>>) {
    Matches(v, HasClose(ops), Pushes(ops), Size(capacity, ops), Received(capacity, ops))
  }

  lemma OpsSnoc<T>(capacity: nat, ops: seq<Op<T>>, op: Op<T>)
    ensures var n, open := Size(capacity, ops), !HasClose(ops);
      && HasClose(ops + [op]) == (HasClose(ops) || op.Close?)
      && Pushes(ops + [op]) == (if op.Push? && open then Pushes(ops) + [op.x] else Pushes(ops))
      && Size(capacity, ops + [op]) ==
           (if op.Push? && open then Min(n + 1, capacity) else if op.Pop? then Max(n - 1, 0) else n)
      && Received(capacity, ops + [op]) ==
           (if op.Pop? && n > 0 then Received(capacity, ops) + [Pushes(ops)[|Pushes(ops)| - n]]
            else Received(capacity, ops))
  {
    assert (ops + [op])[..|ops|] == ops;
    HasCloseSnoc(ops, op);
  }

  lemma ApplyDetermined<T>(v: View<T>, capacity: nat, ops: seq<Op<T>>, op: Op<T>)
    requires capacity >= 1 && Determined(v, capacity, ops)
    ensures Determined(Apply(v, capacity, op), capacity, ops + [op])
  {
    var p, n, got := Pushes(ops), Size(capacity, ops), Received(capacity, ops);
    OpsSnoc(capacity, ops, op);
    if op.Push? && !v.closed {
      PushMatches(v, capacity, p, n, got, op.x);
    } else if op.Pop? && n > 0 {
      RemoveMatches(v, Popped, p, n, got);
    }
  }

  /** The queue is determined by the operations: it has accepted every push before the close and
      nothing else, holds the newest of them, and every pop got the oldest frame then waiting. */
  lemma {:induction false} RunDetermined<T>(capacity: nat, ops: seq<Op<T>>)
    requires capacity >= 1
    ensures Determined(Run(Empty<T>(), capacity, ops), capacity, ops)
    decreases |ops|
  {
    if ops == [] {
    } else {
      var before, op := ops[..|ops| - 1], ops[|ops| - 1];
      assert ops == before + [op];
      RunDetermined(capacity, before);
      RunSnoc(Empty<T>(), capacity, before, op);
      ApplyDetermined(Run(Empty<T>(), capacity, before), capacity, before, op);
    }
  }

  ghost function CountPops<T>(ops: seq<Op<T>>): nat {
    if ops == [] then 0 else (if ops[0].Pop? then 1 else 0) + CountPops(ops[1..])
  }

  /** `w` is `v` after its first `k` frames (all of them, if fewer) have left. */
  ghost predicate TookFirst<T>(v: View<T>, w: View<T>, k: nat) {
    var n := Min(k, |v.contents|);
    && w.closed && w.accepted == v.accepted
    && w.contents == v.contents[n..]
    && Frames(w.removed) == Frames(v.removed) + v.contents[..n]
  }

  lemma SplitLater<T>(c: seq<T>, n: nat)
    requires n < |c|
    ensures c[1..][n..] == c[n + 1..] && [c[0]] + c[1..][..n] == c[..n + 1]
  {
  }

  lemma TookOneMore<T>(v: View<T>, w: View<T>, k: nat)
    requires v.closed && v.contents != []
    requires TookFirst(PopView(v), w, k)
    ensures TookFirst(v, w, k + 1)
  {
    FramesSnoc(v.removed, Removal(v.contents[0], Popped, |v.accepted|));
    var n := Min(k, |v.contents| - 1);
    SplitLater(v.contents, n);
    assert Frames(w.removed) == Frames(v.removed) + ([v.contents[0]] + v.contents[1..][..n]);
  }

  /** Once closed, whoever does what, nothing is accepted and k pops take exactly the first k
      frames. So `size` pops still deliver and the next one finds the queue empty and closed. */
  lemma {:induction false} ClosedRun<T>(v: View<T>, capacity: nat, ops: seq<Op<T>>)
    requires capacity >= 1 && v.closed
    ensures TookFirst(v, Run(v, capacity, ops), CountPops(ops))
    decreases |ops|
  {
    if ops == [] {
    } else {
      ClosedRun(Apply(v, capacity, ops[0]), capacity, ops[1..]);
      if ops[0].Pop? && v.contents != [] {
        TookOneMore(v, Run(v, capacity, ops), CountPops(ops[1..]));
      }
    }
  }

  // ----- the queue itself

  /** One atomic increment of a 64-bit counter. */
  function Tick(c: nat): nat {
    if c + 1 == U64 then 0 else c + 1
  }

  /** A counter incremented `n` times from zero. */
  ghost function Ticks(n: nat): nat {
    n % U64
  }

  lemma TicksNext(n: nat)
    ensures Ticks(n + 1) == Tick(Ticks(n))
  {
  }

  /** The counters hold the number of frames accepted, popped and dropped, modulo 2^64. */
  ghost predicate Counting<T>(v: View<T>, pushed: nat, popped: nat, dropped: nat) {
    && pushed == Ticks(|v.accepted|)
    && popped == Ticks(CountFate(v.removed, Popped))
    && dropped == Ticks(CountFate(v.removed, Dropped))
  }

  lemma CountSnoc<T>(removed: seq<Removal<T>>, r: Removal<T>, fate: Fate)
    ensures CountFate(removed + [r], fate) == CountFate(removed, fate) + (if r.fate == fate then 1 else 0)
  {
    assert (removed + [r])[..|removed|] == removed;
  }

  /** Counting one removal more, for one fate. */
  lemma TickSnoc<T>(removed: seq<Removal<T>>, r: Removal<T>, fate: Fate)
    ensures Ticks(CountFate(removed + [r], fate))
         == if r.fate == fate then Tick(Ticks(CountFate(removed, fate))) else Ticks(CountFate(removed, fate))
  {
    CountSnoc(removed, r, fate);
    TicksNext(CountFate(removed, fate));
  }

  lemma CountRemove<T>(v: View<T>, fate: Fate, pushed: nat, popped: nat, dropped: nat)
    requires Counting(v, pushed, popped, dropped) && v.contents != []
    ensures Counting(Remove(v, fate), pushed, if fate == Popped then Tick(popped) else popped,
                     if fate == Dropped then Tick(dropped) else dropped)
  {
    var r := Removal(v.contents[0], fate, |v.accepted|);
    TickSnoc(v.removed, r, Popped);
    TickSnoc(v.removed, r, Dropped);
    assert Remove(v, fate).removed == v.removed + [r];
  }

  lemma TicksAgree(pushed: nat, popped: nat, dropped: nat, size: nat)
    requires pushed == popped + dropped + size
    ensures Ticks(pushed) == (Ticks(popped) + Ticks(dropped) + size) % U64
  {
    ModuloOfSum(popped, dropped % U64 + size, U64);
    ModuloOfSum(dropped, popped + size, U64);
    assert popped % U64 + (dropped % U64 + size) == popped % U64 + dropped % U64 + size;
    assert popped + (dropped % U64 + size) == dropped % U64 + (popped + size);
  }

  lemma TicksAgreeExactly(pushed: nat, popped: nat, dropped: nat, size: nat)
    requires pushed == popped + dropped + size < U64
    ensures Ticks(pushed) == Ticks(popped) + Ticks(dropped) + size
  {
  }

  lemma CountAccept<T>(v: View<T>, x: T, pushed: nat, popped: nat, dropped: nat)
    requires Counting(v, pushed, popped, dropped)
    ensures Counting(v.(contents := v.contents + [x], accepted := v.accepted + [x]), Tick(pushed), popped, dropped)
  {
    TicksNext(|v.accepted|);
  }

  class FrameQueue<T> {
    const capacity: nat
    var q: seq<T>
    var closed: bool
    var pushed: nat
    var popped: nat
    var dropped: nat
    ghost var accepted: seq<T>
    ghost var removed: seq<Removal<T>>

    ghost function Abs(): View<T>
      reads this
    {
      View(q, closed, accepted, removed)
    }

    ghost predicate Valid()
      reads this
    {
      && capacity >= 1
      && Consistent(Abs(), capacity)
      && Counting(Abs(), pushed, popped, dropped)
    }

    constructor (capacity: nat)
      requires capacity >= 1
      ensures Valid() && this.capacity == capacity && Abs() == Empty()
    {
      this.capacity := capacity;
      q, closed := [], false;
      pushed, popped, dropped := 0, 0, 0;
      accepted, removed := [], [];
    }

    /** Take the oldest frame out. */
    method RemoveFront(ghost fate: Fate) returns (x: T)
      requires q != []
      modifies `q, `removed
      ensures Abs() == Remove(old(Abs()), fate) && x == old(q)[0]
    {
      x := q[0];
      removed := removed + [Removal(q[0], fate, |accepted|)];
      q := q[1..];
    }

    /** `ok` is false both on a closed queue and when the oldest frame had to make room. */
    method Push(x: T) returns (ok: bool)
      requires Valid()
      modifies this
      ensures Valid()
      ensures Abs() == PushView(old(Abs()), capacity, x)
      ensures ok <==> !old(closed) && |old(q)| < capacity
      ensures dropped == if !old(closed) && !ok then Tick(old(dropped)) else old(dropped)
    {
      ghost var v := Abs();
      PushConsistent(v, capacity, x);
      var evict := false;
      if closed {
        return false;
      }
      if |q| >= capacity {
        CountRemove(v, Dropped, pushed, popped, dropped);
        var oldest := RemoveFront(Dropped);
        evict := true;
        dropped := Tick(dropped);
      }
      CountAccept(Abs(), x, pushed, popped, dropped);
      q := q + [x];
      accepted := accepted + [x];
      pushed := Tick(pushed);
      assert Abs() == PushView(v, capacity, x);
      return !evict;
    }

    /** The locked section of both `pop` (whose wait ends only when the queue is non-empty or
        closed) and `try_pop`. */
    method Take() returns (r: seq<T>)
      requires Valid()
      modifies this
      ensures Valid()
      ensures Abs() == PopView(old(Abs()))
      ensures r == if old(q) == [] then [] else [old(q)[0]]
    {
      ghost var v := Abs();
      PopConsistent(v, capacity);
      if q == [] {
        return [];
      }
      CountRemove(v, Popped, pushed, popped, dropped);
      var x := RemoveFront(Popped);
      r := [x];
      popped := Tick(popped);
    }

    method Close()
      requires Valid()
      modifies this
      ensures Valid()
      ensures Abs() == CloseView(old(Abs()))
    {
      closed := true;
    }

    /** A consumer that pops until it is told there is nothing more, on a closed queue. */
    method Drain() returns (received: seq<T>, iterations: nat)
      requires Valid() && closed
      modifies this
      ensures Valid() && closed && q == []
      ensures received == old(q)
      ensures iterations == |old(q)| + 1
      ensures accepted == old(accepted)
    {
      received, iterations := [], 0;
      while true
        invariant Valid() && closed && accepted == old(accepted)
        invariant received + q == old(q)
        invariant iterations == |received|
        decreases |q|
      {
        ghost var before := q;
        var item := Take();
        assert before == item + q;
        assert received + before == (received + item) + q;
        iterations := iterations + 1;
        if item == [] {
          return;
        }
        received := received + item;
      }
    }

    /** Whatever the interleaving, the three counters and the size agree modulo 2^64. */
    lemma CountersAgree()
      requires Valid()
      ensures pushed == (popped + dropped + |q|) % U64
      ensures |accepted| < U64 ==> pushed == popped + dropped + |q|
    {
      FatesPartition(removed);
      TicksAgree(|accepted|, CountFate(removed, Popped), CountFate(removed, Dropped), |q|);
      if |accepted| < U64 {
        TicksAgreeExactly(|accepted|, CountFate(removed, Popped), CountFate(removed, Dropped), |q|);
      }
    }
  }
}
