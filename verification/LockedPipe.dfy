/**
 * The locked pipe of exp1/exp1.5.c, for any number of children and any frame length. Each child
 * locks the write end, writes its frame, unlocks and exits; the parent alternates wait and read.
 * A frame goes into the pipe one byte at a time, so whole frames are a consequence of the lock.
 * The pipe has room for `room` bytes and a write blocks while it is full; room for one frame turns out
 * to be exactly what the program needs. `fork`, `pipe` and `lockf` succeed.
 */
module LockedPipe {
  import opened Common
  import opened Counting

  type Byte = char

  /** `Holding(sent)`: owns the lock and has put `sent` bytes of its frame into the pipe. */
  datatype Process =
    | Unborn
    | AtLock
    | Holding(sent: nat)
    | AtExit
    | Zombie
    | Reaped

  datatype Parent =
    | Forking(next: nat)
    | AtWait(turn: nat)
    | AtRead(turn: nat)
    | Finished

  /** `order` lists the children as they took the lock; the program does not keep it. */
  datatype State = State(
    lock: Option<nat>,
    pipe: seq<Byte>,
    children: seq<Process>,
    parent: Parent,
    received: seq<seq<Byte>>,
    order: seq<nat>)

  /** `Reap(c)`: the parent's wait returns for child c; wait(0) accepts any exited child. */
  datatype Actor = ParentMoves | Reap(child: nat) | ChildMoves(id: nat)

  /** Child c sends frames[c]; every frame is `length` bytes (50 in the program), and the pipe holds `room`. */
  datatype Setup = Setup(frames: seq<seq<Byte>>, length: nat, room: nat)
  {
    ghost predicate Valid()
    {
      forall c :: 0 <= c < |frames| ==> |frames[c]| == length
    }

    /** One frame fits into the empty pipe. */
    predicate Fits()
    {
      frames == [] || length <= room
    }
  }

  // ---- the program ----

  function WaitFrom(n: nat, turn: nat): Parent
  {
    if turn == n then Finished else AtWait(turn)
  }

  function ForkFrom(n: nat, i: nat): Parent
  {
    if i == n then WaitFrom(n, 0) else Forking(i)
  }

  function Start(p: Setup): State
  {
    State(None, [], seq(|p.frames|, _ => Unborn), ForkFrom(|p.frames|, 0), [], [])
  }

  /**
   * A lock blocks while another child holds it; a write blocks on a full pipe; a wait blocks without a
   * zombie; a read blocks on an empty pipe.
   */
  predicate Enabled(p: Setup, s: State, a: Actor)
  {
    match a
    case ParentMoves =>
      (match s.parent
       case Forking(i) => i < |s.children| && s.children[i].Unborn?
       case AtRead(_) => p.length == 0 || s.pipe != []
       case AtWait(_) | Finished => false)
    case Reap(c) => s.parent.AtWait? && c < |s.children| && s.children[c].Zombie?
    case ChildMoves(c) =>
      && c < |s.children|
      && (match s.children[c]
          case AtLock => s.lock.None?
          case Holding(sent) => sent < p.length ==> |s.pipe| < p.room
          case AtExit => true
          case Unborn | Zombie | Reaped => false)
  }

  /** `read(fd, buf, length)` takes what is there, up to `length` bytes. */
  function ParentStep(p: Setup, s: State): State
    requires Enabled(p, s, ParentMoves)
  {
    match s.parent
    case Forking(i) => s.(children := s.children[i := AtLock], parent := ForkFrom(|s.children|, i + 1))
    case AtRead(turn) =>
      var got := if |s.pipe| < p.length then |s.pipe| else p.length;
      s.(pipe := s.pipe[got..], received := s.received + [s.pipe[..got]], parent := WaitFrom(|s.children|, turn + 1))
  }

  function ChildStep(p: Setup, s: State, c: nat): State
    requires p.Valid() && |s.children| == |p.frames| && Enabled(p, s, ChildMoves(c))
  {
    match s.children[c]
    case AtLock => s.(lock := Some(c), children := s.children[c := Holding(0)], order := s.order + [c])
    case Holding(sent) =>
      if sent < p.length then
        s.(pipe := s.pipe + [p.frames[c][sent]], children := s.children[c := Holding(sent + 1)])
      else
        s.(lock := None, children := s.children[c := AtExit])
    case AtExit => s.(children := s.children[c := Zombie])
  }

  function Step(p: Setup, s: State, a: Actor): State
    requires p.Valid() && |s.children| == |p.frames| && Enabled(p, s, a)
  {
    match a
    case ParentMoves => ParentStep(p, s)
    case Reap(c) => s.(children := s.children[c := Reaped], parent := AtRead(s.parent.turn))
    case ChildMoves(c) => ChildStep(p, s, c)
  }

  /** The state a schedule leads to, or None when it names an actor that is blocked or done. */
  function After(p: Setup, schedule: seq<Actor>): (r: Option<State>)
    requires p.Valid()
    ensures r.Some? ==> |r.value.children| == |p.frames|
  {
    if schedule == [] then Some(Start(p)) else
      var last := |schedule| - 1;
      match After(p, schedule[..last])
      case None => None
      case Some(s) => if Enabled(p, s, schedule[last]) then Some(Step(p, s, schedule[last])) else None
  }

  // ---- what is claimed about it ----

  predicate Ids(n: nat, order: seq<nat>)
  {
    forall i :: 0 <= i < |order| ==> order[i] < n
  }

  /** The frames of the listed children, end to end. */
  function Frames(p: Setup, order: seq<nat>): seq<Byte>
    requires Ids(|p.frames|, order)
  {
    if order == [] then [] else p.frames[order[0]] + Frames(p, order[1..])
  }

  function Concat(parts: seq<seq<Byte>>): seq<Byte>
  {
    if parts == [] then [] else parts[0] + Concat(parts[1..])
  }

  predicate Distinct(order: seq<nat>)
  {
    forall i, j :: 0 <= i < j < |order| ==> order[i] != order[j]
  }

  function Written(c: Process): nat
  {
    if c.AtExit? || c.Zombie? || c.Reaped? then 1 else 0
  }

  function Collected(c: Process): nat
  {
    if c.Reaped? then 1 else 0
  }

  /** How many children in `order` have written their whole frame and unlocked. */
  function Whole(s: State): int
  {
    if s.lock.Some? then |s.order| - 1 else |s.order|
  }

  ghost predicate OrderInv(s: State)
  {
    && Distinct(s.order)
    && Ids(|s.children|, s.order)
    && (forall c :: 0 <= c < |s.children| ==>
          (c in s.order <==> s.children[c].Holding? || Written(s.children[c]) == 1))
    && Total(Written, s.children) == Whole(s)
  }

  ghost predicate LockInv(p: Setup, s: State)
  {
    && (forall c :: 0 <= c < |s.children| && s.children[c].Holding? ==> s.lock == Some(c))
    && (s.lock.Some? ==>
          && s.order != [] && s.order[|s.order| - 1] == s.lock.value
          && s.lock.value < |s.children|
          && s.children[s.lock.value].Holding?
          && s.children[s.lock.value].sent <= p.length)
  }

  /** What the current lock holder has put into the pipe so far. */
  ghost function Partial(p: Setup, s: State): seq<Byte>
    requires p.Valid() && |s.children| == |p.frames| && LockInv(p, s)
  {
    if s.lock.None? then [] else p.frames[s.lock.value][..s.children[s.lock.value].sent]
  }

  ghost predicate PipeInv(p: Setup, s: State)
    requires p.Valid() && |s.children| == |p.frames| && LockInv(p, s) && OrderInv(s)
  {
    && |s.received| <= Whole(s)
    && (forall k :: 0 <= k < |s.received| ==> s.received[k] == p.frames[s.order[k]])
    && s.pipe == Frames(p, s.order[|s.received|..Whole(s)]) + Partial(p, s)
    && |s.pipe| <= p.room
  }

  /** Forks, waits and reads the parent has done. */
  function Forked(n: nat, parent: Parent): nat
  {
    if parent.Forking? then parent.next else n
  }

  function Waited(n: nat, parent: Parent): nat
  {
    match parent
    case Forking(_) => 0
    case AtWait(k) => k
    case AtRead(k) => k + 1
    case Finished => n
  }

  function HasRead(n: nat, parent: Parent): nat
  {
    if parent.AtRead? then parent.turn else Waited(n, parent)
  }

  predicate ParentBounds(n: nat, parent: Parent)
  {
    match parent
    case Forking(i) => i < n
    case AtWait(k) => k < n
    case AtRead(k) => k < n
    case Finished => true
  }

  ghost predicate ParentInv(s: State)
  {
    var n := |s.children|;
    && ParentBounds(n, s.parent)
    && |s.received| == HasRead(n, s.parent)
    && Total(Collected, s.children) == Waited(n, s.parent)
    && forall c :: 0 <= c < n ==> (s.children[c].Unborn? <==> Forked(n, s.parent) <= c)
  }

  ghost predicate Inv(p: Setup, s: State)
  {
    && p.Valid() && |s.children| == |p.frames|
    && LockInv(p, s) && OrderInv(s) && PipeInv(p, s) && ParentInv(s)
  }

  lemma StartOrder(p: Setup)
    requires p.Valid()
    ensures LockInv(p, Start(p)) && OrderInv(Start(p))
  {
    TotalUniform(Written, Start(p).children, 0);
  }

  lemma StartParent(p: Setup)
    ensures ParentInv(Start(p))
  {
    TotalUniform(Collected, Start(p).children, 0);
  }

  lemma StartInv(p: Setup)
    requires p.Valid()
    ensures Inv(p, Start(p))
  {
    StartOrder(p);
    StartParent(p);
  }

  lemma {:induction false} FramesAppend(p: Setup, a: seq<nat>, b: seq<nat>)
    requires Ids(|p.frames|, a)
    requires Ids(|p.frames|, b)
    ensures Frames(p, a + b) == Frames(p, a) + Frames(p, b)
  {
    if a == [] {
      assert a + b == b;
    } else {
      assert (a + b)[1..] == a[1..] + b;
      FramesAppend(p, a[1..], b);
    }
  }

  /** After the k-th wait at least k + 1 whole frames have been written. */
  lemma WaitMeansWritten(s: State)
    ensures Total(Collected, s.children) <= Total(Written, s.children)
  {
    TotalBelow(Collected, Written, s.children);
  }

  /** A whole frame at the front of the pipe, so the read takes exactly that frame. */
  lemma ReadTakesAFrame(p: Setup, s: State)
    requires Inv(p, s) && s.parent.AtRead?
    ensures |s.received| < Whole(s) && |s.pipe| >= p.length
    ensures Enabled(p, s, ParentMoves)
    ensures s.pipe[..p.length] == p.frames[s.order[|s.received|]]
    ensures s.pipe[p.length..] == Frames(p, s.order[|s.received| + 1..Whole(s)]) + Partial(p, s)
  {
    WaitMeansWritten(s);
    var rest := s.order[|s.received|..Whole(s)];
    assert rest[1..] == s.order[|s.received| + 1..Whole(s)];
    assert Frames(p, rest) == p.frames[rest[0]] + Frames(p, rest[1..]);
  }

  lemma ReadInv(p: Setup, s: State)
    requires Inv(p, s) && s.parent.AtRead? && Enabled(p, s, ParentMoves)
    ensures Inv(p, ParentStep(p, s))
  {
    ReadTakesAFrame(p, s);
  }

  lemma ForkInv(p: Setup, s: State)
    requires Inv(p, s) && s.parent.Forking? && Enabled(p, s, ParentMoves)
    ensures Inv(p, ParentStep(p, s))
  {
    TotalUpdate(Written, s.children, s.parent.next, AtLock);
    TotalUpdate(Collected, s.children, s.parent.next, AtLock);
  }

  lemma ReapInv(p: Setup, s: State, c: nat)
    requires Inv(p, s) && Enabled(p, s, Reap(c))
    ensures Inv(p, Step(p, s, Reap(c)))
  {
    TotalUpdate(Written, s.children, c, Reaped);
    TotalUpdate(Collected, s.children, c, Reaped);
  }

  lemma ChildLock(p: Setup, s: State, c: nat)
    requires p.Valid() && |s.children| == |p.frames| && Enabled(p, s, ChildMoves(c)) && LockInv(p, s)
    ensures LockInv(p, ChildStep(p, s, c))
  {
  }

  lemma LockOrder(p: Setup, s: State, c: nat)
    requires p.Valid() && |s.children| == |p.frames| && Enabled(p, s, ChildMoves(c)) && s.children[c].AtLock?
    requires OrderInv(s)
    ensures OrderInv(ChildStep(p, s, c))
  {
    var s' := ChildStep(p, s, c);
    TotalUpdate(Written, s.children, c, s'.children[c]);
    assert forall d :: d in s'.order <==> d in s.order || d == c;
  }

  lemma KeepOrder(p: Setup, s: State, c: nat)
    requires p.Valid() && |s.children| == |p.frames| && Enabled(p, s, ChildMoves(c)) && !s.children[c].AtLock?
    requires LockInv(p, s) && OrderInv(s)
    ensures OrderInv(ChildStep(p, s, c))
  {
    TotalUpdate(Written, s.children, c, ChildStep(p, s, c).children[c]);
  }

  lemma ChildOrder(p: Setup, s: State, c: nat)
    requires p.Valid() && |s.children| == |p.frames| && Enabled(p, s, ChildMoves(c))
    requires LockInv(p, s) && OrderInv(s)
    ensures OrderInv(ChildStep(p, s, c))
  {
    if s.children[c].AtLock? {
      LockOrder(p, s, c);
    } else {
      KeepOrder(p, s, c);
    }
  }

  lemma ChildParent(p: Setup, s: State, c: nat)
    requires p.Valid() && |s.children| == |p.frames| && Enabled(p, s, ChildMoves(c)) && ParentInv(s)
    ensures ParentInv(ChildStep(p, s, c))
  {
    TotalUpdate(Collected, s.children, c, ChildStep(p, s, c).children[c]);
  }

  lemma UnlockPipe(p: Setup, s: State, c: nat)
    requires p.Valid() && |s.children| == |p.frames| && LockInv(p, s) && OrderInv(s) && PipeInv(p, s)
    requires Enabled(p, s, ChildMoves(c)) && s.children[c].Holding? && s.children[c].sent >= p.length
    requires LockInv(p, ChildStep(p, s, c)) && OrderInv(ChildStep(p, s, c))
    ensures PipeInv(p, ChildStep(p, s, c))
  {
    var done := s.order[|s.received|..Whole(s)];
    assert s.order[|s.received|..|s.order|] == done + [c];
    FramesAppend(p, done, [c]);
    assert Frames(p, [c]) == p.frames[c] == Partial(p, s);
  }

  lemma WritePipe(p: Setup, s: State, c: nat)
    requires p.Valid() && |s.children| == |p.frames| && LockInv(p, s) && OrderInv(s) && PipeInv(p, s)
    requires Enabled(p, s, ChildMoves(c)) && s.children[c].Holding? && s.children[c].sent < p.length
    requires LockInv(p, ChildStep(p, s, c)) && OrderInv(ChildStep(p, s, c))
    ensures PipeInv(p, ChildStep(p, s, c))
  {
    var whole, next := Frames(p, s.order[|s.received|..Whole(s)]), [p.frames[c][s.children[c].sent]];
    assert Partial(p, ChildStep(p, s, c)) == Partial(p, s) + next;
    Regroup(whole, Partial(p, s), next);
  }

  lemma QuietPipe(p: Setup, s: State, c: nat)
    requires p.Valid() && |s.children| == |p.frames| && LockInv(p, s) && OrderInv(s) && PipeInv(p, s)
    requires Enabled(p, s, ChildMoves(c)) && !s.children[c].Holding?
    requires LockInv(p, ChildStep(p, s, c)) && OrderInv(ChildStep(p, s, c))
    ensures PipeInv(p, ChildStep(p, s, c))
  {
    var s', k := ChildStep(p, s, c), |s.received|;
    if s.children[c].AtLock? {
      assert Whole(s') == Whole(s) == |s.order| && s'.order == s.order + [c];
      assert s'.order[k..|s.order|] == s.order[k..|s.order|];
      assert Partial(p, s') == [];
    } else {
      assert s'.order == s.order && s'.lock == s.lock;
      assert s.lock.Some? ==> s'.children[s.lock.value] == s.children[s.lock.value];
    }
  }

  lemma StepInv(p: Setup, s: State, a: Actor)
    requires Inv(p, s) && Enabled(p, s, a)
    ensures Inv(p, Step(p, s, a))
  {
    match a {
      case ParentMoves => if s.parent.AtRead? { ReadInv(p, s); } else { ForkInv(p, s); }
      case Reap(c) => ReapInv(p, s, c);
      case ChildMoves(c) =>
        ChildLock(p, s, c);
        ChildOrder(p, s, c);
        ChildParent(p, s, c);
        if !s.children[c].Holding? {
          QuietPipe(p, s, c);
        } else if s.children[c].sent < p.length {
          WritePipe(p, s, c);
        } else {
          UnlockPipe(p, s, c);
        }
    }
  }

  lemma {:induction false} Reachable(p: Setup, schedule: seq<Actor>)
    requires p.Valid() && After(p, schedule).Some?
    ensures Inv(p, After(p, schedule).value)
  {
    if schedule == [] {
      StartInv(p);
    } else {
      var last := |schedule| - 1;
      Reachable(p, schedule[..last]);
      StepInv(p, After(p, schedule[..last]).value, schedule[last]);
    }
  }

  // ---- framing ----

  /**
   * At every moment the bytes read so far followed by the bytes in the pipe are the whole frames of
   * the children that have unlocked, in lock order, and then a prefix of the lock holder's frame.
   */
  lemma StreamIsFramed(p: Setup, schedule: seq<Actor>)
    requires p.Valid() && After(p, schedule).Some?
    ensures var s := After(p, schedule).value;
      && Distinct(s.order) && Ids(|p.frames|, s.order) && LockInv(p, s)
      && Concat(s.received) + s.pipe == Frames(p, s.order[..Whole(s)]) + Partial(p, s)
  {
    Reachable(p, schedule);
    FramedState(p, After(p, schedule).value);
  }

  lemma FramedState(p: Setup, s: State)
    requires Inv(p, s)
    ensures Concat(s.received) + s.pipe == Frames(p, s.order[..Whole(s)]) + Partial(p, s)
  {
    var k, w := |s.received|, Whole(s);
    ReceivedFrames(p, s.received, s.order);
    FramesSplit(p, s.order, k, w);
    Regroup(Frames(p, s.order[..k]), Frames(p, s.order[k..w]), Partial(p, s));
  }

  lemma FramesSplit(p: Setup, order: seq<nat>, k: nat, w: nat)
    requires Ids(|p.frames|, order) && k <= w <= |order|
    ensures Frames(p, order[..w]) == Frames(p, order[..k]) + Frames(p, order[k..w])
  {
    FramesAppend(p, order[..k], order[k..w]);
    assert order[..k] + order[k..w] == order[..w];
  }

  lemma {:induction false} ReceivedFrames(p: Setup, received: seq<seq<Byte>>, order: seq<nat>)
    requires Ids(|p.frames|, order) && |received| <= |order|
    requires forall k :: 0 <= k < |received| ==> received[k] == p.frames[order[k]]
    ensures Concat(received) == Frames(p, order[..|received|])
  {
    if received != [] {
      ReceivedFrames(p, received[1..], order[1..]);
      assert order[..|received|][1..] == order[1..][..|received| - 1];
    }
  }

  /** After its k-th wait the parent's k-th read does not block and returns the k-th locker's whole frame. */
  lemma ReadReturnsAFrame(p: Setup, schedule: seq<Actor>)
    requires p.Valid() && After(p, schedule).Some? && After(p, schedule).value.parent.AtRead?
    ensures var s := After(p, schedule).value;
      && s.parent.turn == |s.received| < |s.order| && Ids(|p.frames|, s.order)
      && Enabled(p, s, ParentMoves)
      && ParentStep(p, s).received == s.received + [p.frames[s.order[s.parent.turn]]]
  {
    Reachable(p, schedule);
    ReadTakesAFrame(p, After(p, schedule).value);
  }

  lemma AllReaped(p: Setup, s: State)
    requires Inv(p, s) && s.parent.Finished?
    ensures forall c :: 0 <= c < |s.children| ==> s.children[c].Reaped?
  {
    forall c | 0 <= c < |s.children|
      ensures s.children[c].Reaped?
    {
      TotalFull(Collected, s.children, c);
    }
  }

  lemma FinishedState(p: Setup, s: State)
    requires Inv(p, s) && s.parent.Finished?
    ensures |s.received| == |s.order| == |p.frames| && s.lock.None? && s.pipe == []
    ensures forall c :: 0 <= c < |p.frames| ==> c in s.order
  {
    AllReaped(p, s);
    TotalUniform(Written, s.children, 1);
    assert s.lock.None? && |s.order| == |s.children|;
    assert s.order[|s.received|..Whole(s)] == [];
  }

  /** A finished run has received every child's frame exactly once, in the order the children took the lock. */
  lemma AllFramesReceived(p: Setup, schedule: seq<Actor>)
    requires p.Valid() && After(p, schedule).Some? && After(p, schedule).value.parent.Finished?
    ensures var s := After(p, schedule).value;
      && |s.received| == |s.order| == |p.frames|
      && Distinct(s.order) && Ids(|p.frames|, s.order)
      && (forall c :: 0 <= c < |p.frames| ==> c in s.order)
      && (forall k :: 0 <= k < |p.frames| ==> s.received[k] == p.frames[s.order[k]])
      && s.pipe == [] && s.lock.None?
  {
    Reachable(p, schedule);
    FinishedState(p, After(p, schedule).value);
  }

  // ---- every schedule stops ----

  function Rank(length: nat): Process -> nat
  {
    (c: Process) =>
      match c
      case Unborn | AtLock => length + 3
      case Holding(sent) => if sent <= length then length - sent + 2 else 0
      case AtExit => 1
      case Zombie | Reaped => 0
  }

  function ParentRank(n: nat, parent: Parent): int
  {
    match parent
    case Forking(i) => 3 * n - i
    case AtWait(k) => 2 * (n - k)
    case AtRead(k) => 2 * (n - k) - 1
    case Finished => 0
  }

  function StepsLeft(p: Setup, s: State): int
  {
    Total(Rank(p.length), s.children) + ParentRank(|s.children|, s.parent)
  }

  lemma ParentCountsDown(p: Setup, s: State, a: Actor)
    requires p.Valid() && |s.children| == |p.frames| && ParentInv(s) && Enabled(p, s, a) && !a.ChildMoves?
    ensures StepsLeft(p, Step(p, s, a)) == StepsLeft(p, s) - 1
  {
    if a.Reap? {
      TotalUpdate(Rank(p.length), s.children, a.child, Reaped);
    } else if s.parent.Forking? {
      TotalUpdate(Rank(p.length), s.children, s.parent.next, AtLock);
    }
  }

  lemma ChildCountsDown(p: Setup, s: State, c: nat)
    requires p.Valid() && |s.children| == |p.frames| && LockInv(p, s) && Enabled(p, s, ChildMoves(c))
    ensures StepsLeft(p, ChildStep(p, s, c)) == StepsLeft(p, s) - 1
  {
    TotalUpdate(Rank(p.length), s.children, c, ChildStep(p, s, c).children[c]);
  }

  function RunLength(p: Setup): nat
  {
    |p.frames| * (p.length + 3) + 3 * |p.frames|
  }

  lemma {:induction false} ScheduleLength(p: Setup, schedule: seq<Actor>)
    requires p.Valid() && After(p, schedule).Some?
    ensures |schedule| + StepsLeft(p, After(p, schedule).value) == RunLength(p)
  {
    if schedule == [] {
      TotalUniform(Rank(p.length), Start(p).children, p.length + 3);
    } else {
      var last := |schedule| - 1;
      Reachable(p, schedule[..last]);
      ScheduleLength(p, schedule[..last]);
      match schedule[last] {
        case ChildMoves(c) => ChildCountsDown(p, After(p, schedule[..last]).value, c);
        case _ => ParentCountsDown(p, After(p, schedule[..last]).value, schedule[last]);
      }
    }
  }

  /** While the parent waits and everyone who unlocked is reaped, the pipe holds only the lock holder's bytes. */
  lemma NothingUnread(p: Setup, s: State)
    requires Inv(p, s) && s.parent.AtWait?
    requires forall x :: x in s.children ==> !x.Zombie? && !x.AtExit?
    ensures s.pipe == Partial(p, s)
  {
    TotalBelow(Collected, Written, s.children);
    TotalBelow(Written, Collected, s.children);
    assert s.order[|s.received|..Whole(s)] == [];
  }

  lemma CanMove(p: Setup, s: State) returns (a: Actor)
    requires Inv(p, s) && p.Fits() && !s.parent.Finished?
    ensures Enabled(p, s, a)
  {
    a := ParentMoves;
    if s.parent.AtRead? {
      ReadTakesAFrame(p, s);
    } else if s.parent.AtWait? {
      a := CanMoveAtWait(p, s);
    }
  }

  lemma CanMoveAtWait(p: Setup, s: State) returns (a: Actor)
    requires Inv(p, s) && p.Fits() && s.parent.AtWait?
    ensures Enabled(p, s, a)
  {
    if c: nat :| c < |s.children| && s.children[c].Zombie? {
      a := Reap(c);
    } else if c: nat :| c < |s.children| && s.children[c].AtExit? {
      a := ChildMoves(c);
    } else if s.lock.Some? {
      NothingUnread(p, s);
      a := ChildMoves(s.lock.value);
    } else {
      var c := TotalShort(Collected, s.children);
      a := ChildMoves(c);
    }
  }

  /** No deadlock: with room for one frame, while the parent has not finished, someone can move. */
  lemma SomeoneCanMove(p: Setup, schedule: seq<Actor>) returns (a: Actor)
    requires p.Valid() && p.Fits() && After(p, schedule).Some? && !After(p, schedule).value.parent.Finished?
    ensures Enabled(p, After(p, schedule).value, a)
  {
    Reachable(p, schedule);
    a := CanMove(p, After(p, schedule).value);
  }

  /** Nobody can move. */
  ghost predicate Stuck(p: Setup, s: State)
  {
    forall a :: !Enabled(p, s, a)
  }

  lemma FinishedIsStuck(p: Setup, s: State)
    requires Inv(p, s)
    ensures StepsLeft(p, s) >= 0
    ensures s.parent.Finished? <==> StepsLeft(p, s) == 0
    ensures s.parent.Finished? ==> Stuck(p, s)
  {
    if s.parent.Finished? {
      AllReaped(p, s);
      TotalUniform(Rank(p.length), s.children, 0);
    }
  }

  /**
   * Every schedule is finite, whatever the room, and has finished after exactly RunLength steps; with room
   * for one frame, every schedule that cannot go on has finished.
   */
  lemma EveryRunStops(p: Setup, schedule: seq<Actor>)
    requires p.Valid() && After(p, schedule).Some?
    ensures |schedule| <= RunLength(p)
    ensures After(p, schedule).value.parent.Finished? <==> |schedule| == RunLength(p)
    ensures After(p, schedule).value.parent.Finished? ==> Stuck(p, After(p, schedule).value)
    ensures p.Fits() && Stuck(p, After(p, schedule).value) ==> After(p, schedule).value.parent.Finished?
  {
    Reachable(p, schedule);
    ScheduleLength(p, schedule);
    FinishedIsStuck(p, After(p, schedule).value);
    if p.Fits() && !After(p, schedule).value.parent.Finished? {
      var _ := SomeoneCanMove(p, schedule);
    }
  }

  /** Any schedule can be continued until nobody can move; the lock order so far stays a prefix. */
  lemma {:induction false} RunUntilStuck(p: Setup, schedule: seq<Actor>) returns (longer: seq<Actor>)
    requires p.Valid() && After(p, schedule).Some?
    ensures schedule <= longer && After(p, longer).Some? && Stuck(p, After(p, longer).value)
    ensures After(p, schedule).value.order <= After(p, longer).value.order
    decreases RunLength(p) - |schedule|
  {
    longer := schedule;
    EveryRunStops(p, schedule);
    if a :| Enabled(p, After(p, schedule).value, a) {
      Extend(p, schedule, a);
      EveryRunStops(p, schedule + [a]);
      longer := RunUntilStuck(p, schedule + [a]);
    }
  }

  /** From wherever a schedule has led, the program can be run to its end; the lock order so far stays a prefix. */
  lemma CanFinish(p: Setup, schedule: seq<Actor>) returns (longer: seq<Actor>)
    requires p.Valid() && p.Fits() && After(p, schedule).Some?
    ensures schedule <= longer && After(p, longer).Some? && After(p, longer).value.parent.Finished?
    ensures After(p, schedule).value.order <= After(p, longer).value.order
  {
    longer := RunUntilStuck(p, schedule);
    EveryRunStops(p, longer);
  }

  lemma Extend(p: Setup, schedule: seq<Actor>, a: Actor)
    requires p.Valid() && After(p, schedule).Some? && Enabled(p, After(p, schedule).value, a)
    ensures After(p, schedule + [a]) == Some(Step(p, After(p, schedule).value, a))
    ensures After(p, schedule).value.order <= After(p, schedule + [a]).value.order
  {
    assert (schedule + [a])[..|schedule|] == schedule;
  }

  // ---- which orders can happen ----

  lemma {:induction false} ForkThem(p: Setup, i: nat)
    requires p.Valid() && i <= |p.frames|
    ensures After(p, seq(i, _ => ParentMoves)) == Some(State(None, [],
      seq(|p.frames|, c => if c < i then AtLock else Unborn), ForkFrom(|p.frames|, i), [], []))
  {
    var made := seq(|p.frames|, c => if c < i then AtLock else Unborn);
    if i == 0 {
      assert Start(p).children == made;
    } else {
      ForkThem(p, i - 1);
      var before := seq(|p.frames|, c => if c < i - 1 then AtLock else Unborn);
      assert before[i - 1 := AtLock] == made;
      Extend(p, seq(i - 1, _ => ParentMoves), ParentMoves);
      assert seq(i - 1, _ => ParentMoves) + [ParentMoves] == seq(i, _ => ParentMoves);
    }
  }

  /** The lock holder, left alone with an otherwise empty pipe, writes the rest of its frame and unlocks. */
  lemma {:induction false} WriteOut(p: Setup, schedule: seq<Actor>, c: nat) returns (longer: seq<Actor>)
    requires p.Valid() && p.Fits() && After(p, schedule).Some? && c < |p.frames|
    requires var s := After(p, schedule).value;
      && s.children[c].Holding? && s.children[c].sent <= p.length
      && s.pipe == p.frames[c][..s.children[c].sent]
    ensures After(p, longer).Some?
    ensures var s := After(p, schedule).value;
      After(p, longer).value == s.(lock := None, pipe := p.frames[c], children := s.children[c := AtExit])
    decreases p.length - After(p, schedule).value.children[c].sent
  {
    var s := After(p, schedule).value;
    Extend(p, schedule, ChildMoves(c));
    longer := schedule + [ChildMoves(c)];
    if s.children[c].sent < p.length {
      longer := WriteOut(p, longer, c);
      assert After(p, longer).value.children == s.children[c := AtExit];
    }
  }

  /** A child's side of a turn: lock, write, unlock, exit. */
  lemma SendFrame(p: Setup, schedule: seq<Actor>, c: nat) returns (longer: seq<Actor>)
    requires p.Valid() && p.Fits() && After(p, schedule).Some? && c < |p.frames|
    requires var s := After(p, schedule).value; s.lock.None? && s.pipe == [] && s.children[c].AtLock?
    ensures After(p, longer).Some?
    ensures var s := After(p, schedule).value;
      After(p, longer).value ==
      s.(pipe := p.frames[c], children := s.children[c := Zombie], order := s.order + [c])
  {
    var s := After(p, schedule).value;
    Extend(p, schedule, ChildMoves(c));
    var written := WriteOut(p, schedule + [ChildMoves(c)], c);
    Extend(p, written, ChildMoves(c));
    longer := written + [ChildMoves(c)];
    assert s.children[c := Holding(0)][c := AtExit][c := Zombie] == s.children[c := Zombie];
  }

  /** The parent's side: it reaps the child and reads the frame that is alone in the pipe. */
  lemma CollectFrame(p: Setup, schedule: seq<Actor>, c: nat) returns (longer: seq<Actor>)
    requires p.Valid() && After(p, schedule).Some? && c < |p.frames|
    requires var s := After(p, schedule).value;
      s.pipe == p.frames[c] && s.parent.AtWait? && s.children[c].Zombie?
    ensures After(p, longer).Some?
    ensures var s, s' := After(p, schedule).value, After(p, longer).value;
      && s'.lock == s.lock && s'.pipe == [] && s'.order == s.order
      && s'.children == s.children[c := Reaped] && s'.parent == WaitFrom(|p.frames|, s.parent.turn + 1)
  {
    Extend(p, schedule, Reap(c));
    Extend(p, schedule + [Reap(c)], ParentMoves);
    longer := schedule + [Reap(c)] + [ParentMoves];
  }

  predicate IsOrder(p: Setup, order: seq<nat>)
  {
    |order| == |p.frames| && Distinct(order) && Ids(|p.frames|, order)
  }

  lemma {:induction false} TakeTurns(p: Setup, order: seq<nat>, k: nat) returns (schedule: seq<Actor>)
    requires p.Valid() && p.Fits() && IsOrder(p, order) && k <= |order|
    ensures After(p, schedule).Some?
    ensures var s := After(p, schedule).value;
      && s.lock.None? && s.pipe == [] && s.order == order[..k] && s.parent == WaitFrom(|order|, k)
      && forall j :: k <= j < |order| ==> s.children[order[j]].AtLock?
  {
    if k == 0 {
      ForkThem(p, |p.frames|);
      schedule := seq(|p.frames|, _ => ParentMoves);
    } else {
      var before := TakeTurns(p, order, k - 1);
      var sent := SendFrame(p, before, order[k - 1]);
      schedule := CollectFrame(p, sent, order[k - 1]);
      assert order[..k] == order[..k - 1] + [order[k - 1]];
    }
  }

  /** Every order of the children is the order in which some complete run takes the lock and receives the frames. */
  lemma AnyOrderCanHappen(p: Setup, order: seq<nat>) returns (schedule: seq<Actor>)
    requires p.Valid() && p.Fits() && IsOrder(p, order)
    ensures After(p, schedule).Some?
    ensures var s := After(p, schedule).value;
      && s.parent.Finished? && s.order == order && |s.received| == |order|
      && forall k :: 0 <= k < |order| ==> s.received[k] == p.frames[order[k]]
  {
    schedule := TakeTurns(p, order, |order|);
    AllFramesReceived(p, schedule);
    assert order[..|order|] == order;
  }

  // ---- how much room the pipe needs ----

  /** When no frame fits into the pipe, no wait ever returns: the parent reads nothing and does not finish. */
  lemma {:induction false} TooSmallNeverReads(p: Setup, schedule: seq<Actor>)
    requires p.Valid() && !p.Fits() && After(p, schedule).Some?
    ensures var s := After(p, schedule).value;
      s.received == [] && (s.parent.Forking? || s.parent == AtWait(0))
  {
    if schedule != [] {
      var last := |schedule| - 1;
      TooSmallNeverReads(p, schedule[..last]);
      Reachable(p, schedule);
      if After(p, schedule).value.parent.AtRead? {
        ReadTakesAFrame(p, After(p, schedule).value);
      }
    }
  }

  ghost predicate DeadlockFree(p: Setup)
    requires p.Valid()
  {
    forall schedule :: After(p, schedule).Some? && Stuck(p, After(p, schedule).value) ==>
      After(p, schedule).value.parent.Finished?
  }

  ghost predicate CanComplete(p: Setup)
    requires p.Valid()
  {
    exists schedule :: After(p, schedule).Some? && After(p, schedule).value.parent.Finished?
  }

  /** Room for one frame is enough and needed: without it every run ends in a deadlock and none is complete. */
  lemma RoomForOneFrame(p: Setup)
    requires p.Valid()
    ensures DeadlockFree(p) <==> p.Fits()
    ensures CanComplete(p) <==> p.Fits()
  {
    if p.Fits() {
      forall schedule | After(p, schedule).Some? && Stuck(p, After(p, schedule).value)
        ensures After(p, schedule).value.parent.Finished?
      {
        EveryRunStops(p, schedule);
      }
      var complete := CanFinish(p, []);
    } else {
      var dead := RunUntilStuck(p, []);
      TooSmallNeverReads(p, dead);
      forall schedule | After(p, schedule).Some?
        ensures !After(p, schedule).value.parent.Finished?
      {
        TooSmallNeverReads(p, schedule);
      }
    }
  }

  lemma StuckShape(p: Setup, s: State)
    requires Inv(p, s) && !p.Fits() && Stuck(p, s) && s.received == [] && (s.parent.Forking? || s.parent == AtWait(0))
    ensures s.lock.Some? && s.lock.value < |p.frames| && s.parent == AtWait(0)
    ensures s.pipe == p.frames[s.lock.value][..p.room]
    ensures forall c :: 0 <= c < |p.frames| ==>
      s.children[c] == if c == s.lock.value then Holding(p.room) else AtLock
  {
    assert !Enabled(p, s, ParentMoves);
    forall c: nat | c < |s.children|
      ensures s.lock.Some? && (s.children[c].AtLock? || s.lock.value == c)
    {
      assert !Enabled(p, s, ChildMoves(c)) && !Enabled(p, s, Reap(c));
      TotalMember(Collected, s.children, c);
    }
    NothingUnread(p, s);
    assert 0 < |s.children| && s.lock.Some?;
    assert !Enabled(p, s, ChildMoves(s.lock.value));
  }

  /** Where it stops: the lock holder has filled the pipe with part of its frame, and all others wait for the lock. */
  lemma DeadlockState(p: Setup, schedule: seq<Actor>)
    requires p.Valid() && !p.Fits() && After(p, schedule).Some? && Stuck(p, After(p, schedule).value)
    ensures var s := After(p, schedule).value;
      && s.lock.Some? && s.lock.value < |p.frames| && s.parent == AtWait(0)
      && s.pipe == p.frames[s.lock.value][..p.room]
      && forall c :: 0 <= c < |p.frames| ==>
           s.children[c] == if c == s.lock.value then Holding(p.room) else AtLock
  {
    Reachable(p, schedule);
    TooSmallNeverReads(p, schedule);
    StuckShape(p, After(p, schedule).value);
  }

  // ---- the program's two children ----

  /**
   * What the parent receives from two children with different frames: first child 1's and then
   * child 2's exactly when child 1 took the lock first. Nothing makes it so: see ChildTwoFirst.
   */
  lemma TwoChildren(p: Setup, schedule: seq<Actor>)
    requires p.Valid() && |p.frames| == 2 && p.frames[0] != p.frames[1]
    requires After(p, schedule).Some? && After(p, schedule).value.parent.Finished?
    ensures var s := After(p, schedule).value;
      && |s.order| == 2
      && (s.received == [p.frames[0], p.frames[1]] <==> s.order[0] == 0)
      && (s.received == [p.frames[1], p.frames[0]] <==> s.order[0] == 1)
  {
    AllFramesReceived(p, schedule);
    var s := After(p, schedule).value;
    assert s.received == [s.received[0], s.received[1]];
  }

  lemma ChildTwoFirst(p: Setup) returns (schedule: seq<Actor>)
    requires p.Valid() && p.Fits() && |p.frames| == 2
    ensures After(p, schedule).Some? && After(p, schedule).value.parent.Finished?
    ensures After(p, schedule).value.received == [p.frames[1], p.frames[0]]
  {
    schedule := AnyOrderCanHappen(p, [1, 0]);
  }
}
