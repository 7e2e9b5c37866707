// CCycleQueue: a mutex-protected ring of frames that overwrites its oldest frame when full.

/** The ring without its locks, as a value. */
module Rings {
  import opened Sequences

  datatype Ring<T> = Ring(slots: seq<T>, front: nat, tail: nat) {

    ghost predicate Valid() {
      |slots| >= 2 && front < |slots| && tail < |slots|
    }

    /** Position i counted round the ring. */
    function Wrap(i: nat): (j: nat)
      requires i < 2 * |slots|
      ensures j < |slots|
    {
      if i < |slots| then i else i - |slots|
    }

    /** The slot after slot i. */
    function After(i: nat): (j: nat)
      requires i < |slots|
      ensures j < |slots|
    {
      Wrap(i + 1)
    }

    function Size(): (n: nat)
      requires front < |slots| && tail < |slots|
      ensures n < |slots|
    {
      if tail > front then tail - front
      else if tail < front then |slots| + tail - front
      else 0
    }

    function Capacity(): (n: int) {
      |slots| - 1
    }

    predicate Full()
      requires front < |slots| && tail < |slots|
    {
      After(tail) == front
    }

    /** The queued values, oldest first. */
    ghost function Contents(): (s: seq<T>)
      requires Valid()
      ensures |s| == Size()
      ensures forall i :: 0 <= i < |s| ==> s[i] == slots[Wrap(front + i)]
    {
      seq(Size(), i requires 0 <= i < Size() => slots[Wrap(front + i)])
    }

    function Push(x: T): (r: Ring<T>)
      requires front < |slots| && tail < |slots|
    {
      Ring(slots[tail := x], if Full() then After(front) else front, After(tail))
    }

    function Pop(): (r: Ring<T>)
      requires front < |slots|
    {
      Ring(slots, After(front), tail)
    }

    function Clear(): (r: Ring<T>) {
      Ring(slots, 0, 0)
    }
  }

  lemma WrapIsMod(i: nat, n: nat)
    requires 0 < n && i < 2 * n
    ensures i % n == if i < n then i else i - n
  {
    var d, r := i / n, i % n;
    assert i == d * n + r;
    if d >= 2 {
      NonNegativeProduct(d - 2, n);
    } else if d < 0 {
      NonNegativeProduct(-d, n);
    }
  }

  /** The class counts with a remainder. */
  lemma AfterIsMod<T>(r: Ring<T>, i: nat)
    requires i < |r.slots|
    ensures r.After(i) == (i + 1) % |r.slots|
  {
    WrapIsMod(i + 1, |r.slots|);
  }

  lemma NonNegativeProduct(a: nat, b: nat)
    ensures a * b >= 0
  {
  }

  lemma PushSize<T>(r: Ring<T>, x: T)
    requires r.Valid()
    ensures r.Push(x).Valid() && |r.Push(x).slots| == |r.slots|
    ensures r.Full() <==> r.Size() == r.Capacity()
    ensures r.Push(x).Size() == if r.Full() then r.Size() else r.Size() + 1
  {
  }

  /** A value that a push keeps stays in its slot; the new one goes behind them. */
  lemma PushSlots<T>(r: Ring<T>, x: T, i: nat)
    requires r.Valid() && i <= r.Size() && (r.Full() ==> i > 0)
    ensures var p, k := r.Push(x), if r.Full() then i - 1 else i;
            && k < p.Size()
            && p.Wrap(p.front + k) == r.Wrap(r.front + i)
            && (r.Wrap(r.front + i) == r.tail <==> i == r.Size())
  {
  }

  /** Value i of a ring after a push. */
  lemma PushAt<T>(r: Ring<T>, x: T, i: nat)
    requires r.Valid() && i <= r.Size() && (r.Full() ==> i > 0)
    ensures var p, k := r.Push(x), if r.Full() then i - 1 else i;
            k < |p.Contents()| && p.Contents()[k] == if i < r.Size() then r.Contents()[i] else x
  {
    PushSlots(r, x, i);
  }

  /** A push appends; a full ring first gives up its oldest value. */
  lemma PushRefines<T>(r: Ring<T>, x: T)
    requires r.Valid()
    ensures r.Push(x).Valid() && |r.Push(x).slots| == |r.slots|
    ensures r.Full() <==> r.Size() == r.Capacity()
    ensures r.Push(x).Contents() == (if r.Full() then r.Contents()[1..] else r.Contents()) + [x]
  {
    PushSize(r, x);
    var p, s := r.Push(x), r.Contents();
    var c := (if r.Full() then s[1..] else s) + [x];
    forall k | 0 <= k < |c|
      ensures p.Contents()[k] == c[k]
    {
      PushAt(r, x, if r.Full() then k + 1 else k);
    }
  }

  /** A pop of a non-empty ring takes the oldest value off. */
  lemma PopRefines<T>(r: Ring<T>)
    requires r.Valid() && r.Size() > 0
    ensures r.Pop().Valid() && r.Pop().Size() == r.Size() - 1
    ensures r.slots[r.front] == r.Contents()[0]
    ensures r.Pop().Contents() == r.Contents()[1..]
  {
  }

  /** A pop of an empty ring makes it look full. */
  lemma PopOfEmpty<T>(r: Ring<T>)
    requires r.Valid() && r.Size() == 0
    ensures r.Pop().Valid() && r.Pop().Size() == r.Capacity()
  {
  }
}

/** The class, one method call at a time. */
module CycleQueue {
  import opened Bytes
  import opened Rings

  const DEFAULT_QUEUE_SIZE: nat := 8
  const MAX_FRAME_SIZE: int := 1920 * 1080 * 4 + 4096 * 128

  class CycleQueue {
    var frameSize: int
    var queueSize: int
    var frames: array?<seq<byte>>
    var front: nat
    var tail: nat

    ghost predicate Valid()
      reads this, frames
    {
      && (frames == null ==> front == 0 && tail == 0)
      && (frames != null ==>
            && frameSize <= MAX_FRAME_SIZE
            && frames.Length == queueSize >= 2
            && front < queueSize
            && tail < queueSize)
    }

    /** The ring of an initialised queue. */
    ghost function State(): (r: Ring<seq<byte>>)
      requires Valid() && frames != null
      reads this, frames
      ensures r.Valid()
    {
      Ring(frames[..], front, tail)
    }

    /** The queued frames, oldest first. */
    ghost function Contents(): seq<seq<byte>>
      requires Valid()
      reads this, frames
    {
      if frames == null then [] else State().Contents()
    }

    constructor ()
      ensures Valid() && frames == null
    {
      frameSize := 0;
      queueSize := 0;
      frames := null;
      front := 0;
      tail := 0;
    }

    method DestroyQueue()
      modifies this`frames, this`front, this`tail
      ensures Valid() && frames == null
    {
      if frames != null {
        frames := null;
      }
      front := 0;
      tail := 0;
    }

    method InitQueue(nFrameSize: int, nQueueSize: int) returns (ok: bool)
      requires nQueueSize < 0x7FFF_FFFF
      modifies this
      ensures Valid() && Contents() == []
      ensures ok <==> nFrameSize <= 8818688
      ensures ok <==> frames != null
      ensures ok ==> fresh(frames) && State().Capacity() == if nQueueSize > 0 then nQueueSize else 8
      ensures frameSize == nFrameSize
    {
      DestroyQueue();
      queueSize := if nQueueSize > 0 then nQueueSize + 1 else DEFAULT_QUEUE_SIZE + 1;
      frameSize := nFrameSize;
      if frameSize > MAX_FRAME_SIZE {
        return false;
      }
      frames := new seq<byte>[queueSize];
      return true;
    }

    /** Writes a frame into the tail slot and moves the tail on. */
    method Append(frameData: seq<byte>)
      requires Valid() && frames != null
      modifies this`tail, frames
      ensures Valid()
      ensures State() == Ring(old(State()).slots[old(tail) := frameData], front, old(State()).After(old(tail)))
    {
      ghost var was := State();
      AfterIsMod(was, tail);
      frames[tail] := frameData;
      tail := tail + 1;
      tail := tail % queueSize;
    }

    method PushBack(frameData: seq<byte>, nFrameSize: int) returns (ok: bool, nRs: int)
      requires Valid() && |frameData| == nFrameSize
      requires nFrameSize == frameSize ==> frames != null
      modifies this`front, this`tail, frames
      ensures Valid()
      ensures ok <==> nFrameSize == frameSize
      ensures !ok ==> nRs == 0 && Contents() == old(Contents()) && front == old(front) && tail == old(tail)
      ensures ok ==>
                var dropped := |old(Contents())| == State().Capacity();
                && State().Capacity() == old(State().Capacity())
                && nRs == (if dropped then 1 else 0)
                && Contents() == (if dropped then old(Contents())[1..] else old(Contents())) + [frameData]
      ensures ok ==> frames != null && frames == old(frames) && State() == old(State()).Push(frameData)
    {
      nRs := 0;
      if frameSize != nFrameSize {
        return false, nRs;
      }
      ghost var was := State();
      PushRefines(was, frameData);
      AfterIsMod(was, tail);
      AfterIsMod(was, front);
      if (tail + 1) % queueSize == front {
        front := front + 1;
        front := front % queueSize;
        nRs := 1;
      }
      assert State() == Ring(was.slots, if was.Full() then was.After(was.front) else was.front, was.tail);
      Append(frameData);
      assert State() == was.Push(frameData);
      return true, nRs;
    }

    function Size(): (n: nat)
      requires Valid()
      reads this, frames
      ensures n == |Contents()|
    {
      if tail > front then tail - front
      else if tail < front then queueSize + tail - front
      else 0
    }

    function IsEmpty(): (r: bool)
      requires Valid()
      reads this, frames
      ensures r <==> Contents() == []
    {
      !(Size() > 0)
    }

    /** With nobody else between the check and the read, GetFront delivers the oldest frame. */
    method GetFront() returns (ok: bool, frameData: seq<byte>, nFrameSize: int)
      requires Valid()
      modifies this`front
      ensures Valid()
      ensures ok <==> old(Contents()) != []
      ensures !ok ==> Contents() == [] && front == old(front)
      ensures ok ==> frameData == old(Contents())[0] && nFrameSize == frameSize
                     && Contents() == old(Contents())[1..]
      ensures ok ==> frames != null && State() == old(State()).Pop()
    {
      frameData, nFrameSize := [], 0;
      if IsEmpty() {
        return false, frameData, nFrameSize;
      }
      ghost var was := State();
      PopRefines(was);
      AfterIsMod(was, front);
      nFrameSize := frameSize;
      frameData := frames[front];
      front := front + 1;
      front := front % queueSize;
      assert State() == was.Pop();
      return true, frameData, nFrameSize;
    }

    method Clear()
      requires Valid()
      modifies this`front, this`tail
      ensures Valid() && Contents() == []
      ensures frames != null ==> State() == old(State()).Clear()
    {
      front := 0;
      tail := 0;
    }
  }
}

/** The same operations as interleaved critical sections: a push and a clear are one each, a GetFront
    is two. */
module QueueInterleaving {
  import opened Sequences
  import opened Rings

  datatype Label<T> = Push(x: T) | Clear | Check(consumer: nat) | Read(consumer: nat)

  /** The shared ring, for each consumer whether its non-empty check has succeeded and its read is
      still to come, and what has happened so far: the frames accepted and delivered, and how many
      were dropped by a push into a full ring or thrown away by a clear. */
  datatype State<T> = State(ring: Ring<T>, checked: seq<bool>, accepted: seq<T>, delivered: seq<T>,
                            drops: nat, cleared: nat)

  predicate Enabled<T>(s: State<T>, l: Label<T>) {
    match l
    case Push(_) => true
    case Clear => true
    case Check(c) => c < |s.checked| && !s.checked[c]
    case Read(c) => c < |s.checked| && s.checked[c]
  }

  /** One critical section. */
  ghost function Step<T>(s: State<T>, l: Label<T>): (s': State<T>)
    requires s.ring.Valid() && Enabled(s, l)
    ensures s'.ring.Valid() && |s'.checked| == |s.checked|
  {
    match l
    case Push(x) =>
      s.(ring := s.ring.Push(x), accepted := s.accepted + [x], drops := s.drops + if s.ring.Full() then 1 else 0)
    case Clear =>
      s.(ring := s.ring.Clear(), cleared := s.cleared + s.ring.Size())
    case Check(c) =>
      s.(checked := s.checked[c := s.ring.Size() > 0])
    case Read(c) =>
      s.(ring := s.ring.Pop(), checked := s.checked[c := false],
         delivered := s.delivered + [s.ring.slots[s.ring.front]])
  }

  ghost predicate IsRun<T>(s: State<T>, run: seq<Label<T>>)
    requires s.ring.Valid()
    decreases |run|
  {
    run != [] ==> Enabled(s, run[0]) && IsRun(Step(s, run[0]), run[1..])
  }

  ghost function After<T>(s: State<T>, run: seq<Label<T>>): (s': State<T>)
    requires s.ring.Valid() && IsRun(s, run)
    ensures s'.ring.Valid() && |s'.checked| == |s.checked|
    decreases |run|
  {
    if run == [] then s else After(Step(s, run[0]), run[1..])
  }

  /** No consumer is between its check and its read. */
  ghost predicate Idle<T>(s: State<T>) {
    forall c :: 0 <= c < |s.checked| ==> !s.checked[c]
  }

  /** A queue that has just been initialised, with all consumers idle. */
  ghost predicate Initial<T>(s: State<T>) {
    && s.ring.Valid() && s.ring.front == s.ring.tail
    && Idle(s)
    && s.accepted == [] && s.delivered == [] && s.drops == 0 && s.cleared == 0
  }

  /** No consumer is about to read from an empty ring. */
  ghost predicate Safe<T>(s: State<T>)
    requires s.ring.Valid()
  {
    forall c :: 0 <= c < |s.checked| && s.checked[c] ==> s.ring.Size() > 0
  }

  /** How the queued frames, the history of accepted and delivered frames and the number of lost
      frames fit together. */
  ghost predicate History<T>(queued: seq<T>, accepted: seq<T>, delivered: seq<T>, lost: nat) {
    var past := |accepted| - |queued|;
    && past >= 0
    && queued == accepted[past..]
    && past == |delivered| + lost
    && IsSubsequence(delivered, accepted[..past])
  }

  /** What every state of a run keeps as long as reads are safe. */
  ghost predicate Consistent<T>(s: State<T>)
    requires s.ring.Valid()
  {
    && s.ring.Size() <= s.ring.Capacity()
    && History(s.ring.Contents(), s.accepted, s.delivered, s.drops + s.cleared)
  }

  lemma HistoryPush<T>(q: seq<T>, a: seq<T>, d: seq<T>, lost: nat, x: T)
    requires History(q, a, d, lost)
    ensures History(q + [x], a + [x], d, lost)
  {
    var past := |a| - |q|;
    assert (a + [x])[past..] == a[past..] + [x] && (a + [x])[..past] == a[..past];
  }

  lemma HistoryDrop<T>(q: seq<T>, a: seq<T>, d: seq<T>, lost: nat)
    requires History(q, a, d, lost) && q != []
    ensures History(q[1..], a, d, lost + 1)
  {
    var past := |a| - |q|;
    assert a[past..][1..] == a[past + 1..] && a[..past + 1] == a[..past] + [a[past]];
    SubsequenceSkip(d, a[..past], [a[past]]);
  }

  lemma HistoryRead<T>(q: seq<T>, a: seq<T>, d: seq<T>, lost: nat)
    requires History(q, a, d, lost) && q != []
    ensures History(q[1..], a, d + [q[0]], lost)
  {
    var past := |a| - |q|;
    assert a[past..][1..] == a[past + 1..] && a[..past + 1] == a[..past] + [q[0]];
    SubsequenceSnoc(d, a[..past], q[0]);
  }

  lemma HistoryClear<T>(q: seq<T>, a: seq<T>, d: seq<T>, lost: nat)
    requires History(q, a, d, lost)
    ensures History([], a, d, lost + |q|)
  {
    var past := |a| - |q|;
    assert a[..past] + a[past..] == a == a[..|a|];
    SubsequenceSkip(d, a[..past], a[past..]);
  }

  lemma PushStep<T>(s: State<T>, x: T)
    requires s.ring.Valid() && Consistent(s)
    ensures Consistent(Step(s, Push(x)))
  {
    PushRefines(s.ring, x);
    var q, lost := s.ring.Contents(), s.drops + s.cleared;
    if s.ring.Full() {
      HistoryDrop(q, s.accepted, s.delivered, lost);
      HistoryPush(q[1..], s.accepted, s.delivered, lost + 1, x);
    } else {
      HistoryPush(q, s.accepted, s.delivered, lost, x);
    }
  }

  lemma ClearStep<T>(s: State<T>)
    requires s.ring.Valid() && Consistent(s)
    ensures Consistent(Step(s, Clear))
  {
    assert s.ring.Clear().Contents() == [];
    HistoryClear(s.ring.Contents(), s.accepted, s.delivered, s.drops + s.cleared);
  }

  lemma ReadStep<T>(s: State<T>, c: nat)
    requires s.ring.Valid() && Consistent(s) && Enabled(s, Read(c)) && s.ring.Size() > 0
    ensures Consistent(Step(s, Read(c)))
    ensures Step(s, Read(c)).delivered == s.delivered + [s.ring.Contents()[0]]
  {
    PopRefines(s.ring);
    HistoryRead(s.ring.Contents(), s.accepted, s.delivered, s.drops + s.cleared);
  }

  /** One step with at most one consumer keeps everything, unless it is a clear between that
      consumer's check and its read. A push never empties the ring, so a successful check stays
      valid until the read. */
  lemma SingleConsumerStep<T>(s: State<T>, l: Label<T>)
    requires s.ring.Valid() && Enabled(s, l) && |s.checked| <= 1
    requires l.Clear? ==> Idle(s)
    requires Safe(s) && Consistent(s)
    ensures Safe(Step(s, l)) && Consistent(Step(s, l))
    ensures l.Read? ==> s.ring.Size() > 0 && Step(s, l).delivered == s.delivered + [s.ring.Contents()[0]]
  {
    match l
    case Push(x) =>
      PushRefines(s.ring, x);
      PushStep(s, x);
    case Clear =>
      ClearStep(s);
    case Check(_) =>
    case Read(c) =>
      ReadStep(s, c);
  }

  /** In the run every clear comes while no consumer is between its check and its read. */
  ghost predicate ClearsWhenIdle<T>(s: State<T>, run: seq<Label<T>>)
    requires s.ring.Valid() && IsRun(s, run)
    decreases |run|
  {
    run != [] ==> (run[0].Clear? ==> Idle(s)) && ClearsWhenIdle(Step(s, run[0]), run[1..])
  }

  /** Every run with any number of producers and at most one consumer. */
  lemma {:induction false} SingleConsumerRun<T>(s: State<T>, run: seq<Label<T>>)
    requires s.ring.Valid() && IsRun(s, run) && |s.checked| <= 1
    requires ClearsWhenIdle(s, run)
    requires Safe(s) && Consistent(s)
    ensures Safe(After(s, run)) && Consistent(After(s, run))
    decreases |run|
  {
    if run != [] {
      SingleConsumerStep(s, run[0]);
      SingleConsumerRun(Step(s, run[0]), run[1..]);
    }
  }

  lemma InitialConsistent<T>(s: State<T>)
    requires Initial(s)
    ensures Safe(s) && Consistent(s)
  {
  }

  ghost predicate HasNoClear<T>(run: seq<Label<T>>) {
    forall i :: 0 <= i < |run| ==> !run[i].Clear?
  }

  lemma {:induction false} NoClearIsIdle<T>(s: State<T>, run: seq<Label<T>>)
    requires s.ring.Valid() && IsRun(s, run) && HasNoClear(run)
    ensures ClearsWhenIdle(s, run)
    decreases |run|
  {
    if run != [] {
      NoClearIsIdle(Step(s, run[0]), run[1..]);
    }
  }

  ghost predicate AlwaysSafe<T(!new)>(s: State<T>)
    requires s.ring.Valid()
  {
    forall run: seq<Label<T>> :: IsRun(s, run) ==> Safe(After(s, run))
  }

  ghost predicate SafeWhenClearsAreIdle<T(!new)>(s: State<T>)
    requires s.ring.Valid()
  {
    forall run: seq<Label<T>> :: IsRun(s, run) && ClearsWhenIdle(s, run) ==> Safe(After(s, run))
  }

  ghost predicate SafeWithoutClears<T(!new)>(s: State<T>)
    requires s.ring.Valid()
  {
    forall run: seq<Label<T>> :: IsRun(s, run) && HasNoClear(run) ==> Safe(After(s, run))
  }

  lemma RunCons<T>(s: State<T>, l: Label<T>, s': State<T>, rest: seq<Label<T>>, run: seq<Label<T>>)
    requires s.ring.Valid() && Enabled(s, l) && s' == Step(s, l) && IsRun(s', rest)
    requires run == [l] + rest
    ensures IsRun(s, run) && After(s, run) == After(s', rest)
  {
    assert run[1..] == rest;
  }

  /** Two checks before the first read: the second read is of an empty ring. */
  function Race<T>(x: T): seq<Label<T>> {
    [Push(x), Check(0), Check(1), Read(0)]
  }

  lemma RaceIsUnsafe<T>(s: State<T>, x: T)
    requires Initial(s) && |s.checked| >= 2
    ensures IsRun(s, Race(x)) && HasNoClear(Race(x))
    ensures var s' := After(s, Race(x));
            && s'.ring.Size() == 0 && s'.checked[1] && !Safe(s')
            && Step(s', Read(1)).ring.Size() == s.ring.Capacity()
  {
    PushRefines(s.ring, x);
    var s1 := Step(s, Push(x));
    RaceAfterPush(s1);
    RunCons(s, Push(x), s1, [Check(0), Check(1), Read(0)], Race(x));
  }

  lemma RaceAfterPush<T>(s1: State<T>)
    requires s1.ring.Valid() && s1.ring.Size() == 1
    requires |s1.checked| >= 2 && !s1.checked[0] && !s1.checked[1]
    ensures var run: seq<Label<T>> := [Check(0), Check(1), Read(0)];
            && IsRun(s1, run)
            && var s' := After(s1, run);
            && s'.ring.Size() == 0 && s'.checked[1] && s'.ring.Capacity() == s1.ring.Capacity()
            && Step(s', Read(1)).ring.Size() == s1.ring.Capacity()
  {
    var s2 := Step(s1, Check(0));
    var s3 := Step(s2, Check(1));
    PopRefines(s3.ring);
    var s4 := Step(s3, Read(0));
    PopOfEmpty(s4.ring);
    RunCons(s3, Read(0), s4, [], [Read(0)]);
    RunCons(s2, Check(1), s3, [Read(0)], [Check(1), Read(0)]);
    RunCons(s1, Check(0), s2, [Check(1), Read(0)], [Check(0), Check(1), Read(0)]);
  }

  /** A clear between the check and the read of the only consumer: the read is of an empty ring. */
  function ClearRace<T>(x: T): seq<Label<T>> {
    [Push(x), Check(0), Clear]
  }

  lemma ClearRaceIsUnsafe<T>(s: State<T>, x: T)
    requires Initial(s) && |s.checked| >= 1
    ensures IsRun(s, ClearRace(x))
    ensures var s' := After(s, ClearRace(x));
            && s'.ring.Size() == 0 && s'.checked[0] && !Safe(s')
            && Step(s', Read(0)).ring.Size() == s.ring.Capacity()
  {
    PushRefines(s.ring, x);
    var s1 := Step(s, Push(x));
    var s2 := Step(s1, Check(0));
    var s3 := Step(s2, Clear);
    PopOfEmpty(s3.ring);
    RunCons(s2, Clear, s3, [], [Clear]);
    RunCons(s1, Check(0), s2, [Clear], [Check(0), Clear]);
    RunCons(s, Push(x), s1, [Check(0), Clear], ClearRace(x));
  }

  /** Exactly when GetFront is safe in every interleaving: without a clear, or with clears that wait
      until no consumer is between its check and its read, when there is at most one consumer; with
      clears at any time, only when nobody consumes at all. */
  lemma SafeIff<T(!new)>(s: State<T>, x: T)
    requires Initial(s)
    ensures SafeWithoutClears(s) <==> |s.checked| <= 1
    ensures SafeWhenClearsAreIdle(s) <==> |s.checked| <= 1
    ensures AlwaysSafe(s) <==> |s.checked| == 0
  {
    if |s.checked| <= 1 {
      OneConsumerIsSafe(s);
    } else {
      RaceIsUnsafe(s, x);
      NoClearIsIdle(s, Race(x));
    }
    if |s.checked| >= 1 {
      ClearRaceIsUnsafe(s, x);
    }
  }

  lemma OneConsumerIsSafe<T(!new)>(s: State<T>)
    requires Initial(s) && |s.checked| <= 1
    ensures SafeWithoutClears(s) && SafeWhenClearsAreIdle(s)
    ensures |s.checked| == 0 ==> AlwaysSafe(s)
  {
    InitialConsistent(s);
    forall run: seq<Label<T>> | IsRun(s, run) && ClearsWhenIdle(s, run)
      ensures Safe(After(s, run))
    {
      SingleConsumerRun(s, run);
    }
    forall run: seq<Label<T>> | IsRun(s, run) && HasNoClear(run)
      ensures ClearsWhenIdle(s, run)
    {
      NoClearIsIdle(s, run);
    }
  }
}
