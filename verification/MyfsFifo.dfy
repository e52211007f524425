/**
 * The one 64-byte queue behind every file of course_design/myfs_kernel.c that uses
 * myfs_file_operations. kfifo is taken by its contract: a bounded byte queue whose user copies move
 * what fits or what is there, and stop early, keeping what was moved, when the user's memory faults.
 */
module MyfsFifo {
  import opened Common

  type Byte = char

  const CAPACITY: nat := 64

  /** What a call returns: a byte count, or -EIO. */
  datatype Return = Count(n: nat) | EIO

  function Min(a: nat, b: nat): nat
  {
    if a < b then a else b
  }

  /** `fault` is how many bytes the user copy manages when it faults. */
  function Moved(len: nat, fault: Option<nat>): nat
  {
    if fault.Some? then Min(fault.value, len) else len
  }

  predicate Faulted(len: nat, fault: Option<nat>)
  {
    fault.Some? && fault.value < len
  }

  class Queue {
    var bytes: seq<Byte>

    constructor ()
      ensures bytes == []
    {
      bytes := [];
    }

    method FileWrite(file: nat, buf: seq<Byte>, fault: Option<nat>) returns (r: Return)
      requires |bytes| <= CAPACITY
      modifies this
      ensures |bytes| <= CAPACITY
      ensures var room := CAPACITY - |old(bytes)|;
        var len := if |buf| < room then |buf| else room;
        if fault.Some? && fault.value < len then r == EIO && bytes == old(bytes) + buf[..fault.value]
        else r == Count(len) && bytes == old(bytes) + buf[..len]
      ensures var step := Apply(old(bytes), Write(file, buf, fault));
        bytes == step.queue && r == step.ret && bytes == old(bytes) + step.moved
    {
      var room := CAPACITY - |bytes|;
      var len := if |buf| > room then room else |buf|;
      var copied := len;
      r := Count(len);
      if fault.Some? && fault.value < len {
        copied := fault.value;
        r := EIO;
      }
      bytes := bytes + buf[..copied];
    }

    method FileRead(file: nat, count: nat, fault: Option<nat>) returns (buf: seq<Byte>, r: Return)
      requires |bytes| <= CAPACITY
      modifies this
      ensures |bytes| <= CAPACITY
      ensures buf + bytes == old(bytes)
      ensures var len := if count < |old(bytes)| then count else |old(bytes)|;
        if fault.Some? && fault.value < len then r == EIO && |buf| == fault.value
        else r == Count(len) && |buf| == len
      ensures var step := Apply(old(bytes), Read(file, count, fault));
        bytes == step.queue && r == step.ret && buf == step.moved
    {
      var len := if count > |bytes| then |bytes| else count;
      var copied := len;
      r := Count(len);
      if fault.Some? && fault.value < len {
        copied := fault.value;
        r := EIO;
      }
      buf, bytes := bytes[..copied], bytes[copied..];
    }
  }

  // ---- histories over any of the files ----

  datatype Op =
    | Write(file: nat, data: seq<Byte>, writeFault: Option<nat>)
    | Read(file: nat, count: nat, readFault: Option<nat>)

  datatype Step = Step(queue: seq<Byte>, moved: seq<Byte>, ret: Return)

  /** Which file a call comes through makes no difference: all of them share the queue. */
  function Apply(queue: seq<Byte>, op: Op): (s: Step)
    requires |queue| <= CAPACITY
    ensures |s.queue| <= CAPACITY
  {
    match op
    case Write(_, data, fault) =>
      var len := Min(|data|, CAPACITY - |queue|);
      var moved := data[..Moved(len, fault)];
      Step(queue + moved, moved, if Faulted(len, fault) then EIO else Count(len))
    case Read(_, count, fault) =>
      var len := Min(count, |queue|);
      var n := Moved(len, fault);
      Step(queue[n..], queue[..n], if Faulted(len, fault) then EIO else Count(len))
  }

  /**
   * A call that does not fault returns exactly the number of bytes by which the queue grew or fell: what
   * was asked for, as far as there was room or as far as bytes were there.
   */
  lemma CountIsGrowth(queue: seq<Byte>, op: Op)
    requires |queue| <= CAPACITY
    ensures var step := Apply(queue, op);
      && (step.ret.Count? && op.Write? ==>
            && step.ret.n == |step.queue| - |queue| == |step.moved|
            && step.ret.n == if |op.data| + |queue| <= CAPACITY then |op.data| else CAPACITY - |queue|)
      && (step.ret.Count? && op.Read? ==>
            && step.ret.n == |queue| - |step.queue| == |step.moved|
            && step.ret.n == if op.count <= |queue| then op.count else |queue|)
  {
  }

  /** The queue after a history, with all bytes that entered and left it, and those the callers were told of. */
  datatype History = History(
    queue: seq<Byte>,
    entered: seq<Byte>, left: seq<Byte>,
    accepted: seq<Byte>, returned: seq<Byte>)

  function After(ops: seq<Op>): (h: History)
    ensures |h.queue| <= CAPACITY
  {
    if ops == [] then History([], [], [], [], []) else
      var h, op := After(ops[..|ops| - 1]), ops[|ops| - 1];
      var step := Apply(h.queue, op);
      var told := if step.ret.Count? then step.moved else [];
      match op
      case Write(_, _, _) => h.(queue := step.queue, entered := h.entered + step.moved, accepted := h.accepted + told)
      case Read(_, _, _) => h.(queue := step.queue, left := h.left + step.moved, returned := h.returned + told)
  }

  /** First in, first out, nothing lost or made up: over every history, faults included. */
  lemma {:induction false} Conservation(ops: seq<Op>)
    ensures After(ops).left + After(ops).queue == After(ops).entered
    ensures |After(ops).queue| <= CAPACITY
  {
    if ops != [] {
      var h, op := After(ops[..|ops| - 1]), ops[|ops| - 1];
      Conservation(ops[..|ops| - 1]);
      StepConserves(h.queue, op);
      var step := Apply(h.queue, op);
      if op.Read? {
        Regroup(h.left, step.moved, step.queue);
      } else {
        Regroup(h.left, h.queue, step.moved);
      }
    }
  }

  lemma StepConserves(queue: seq<Byte>, op: Op)
    requires |queue| <= CAPACITY
    ensures op.Read? ==> Apply(queue, op).moved + Apply(queue, op).queue == queue
    ensures op.Write? ==> queue + Apply(queue, op).moved == Apply(queue, op).queue
  {
  }

  /** How many bytes are pending, from the calls' sizes and faults alone. */
  function Level(ops: seq<Op>): (n: nat)
    ensures n <= CAPACITY
  {
    if ops == [] then 0 else
      var n := Level(ops[..|ops| - 1]);
      match ops[|ops| - 1]
      case Write(_, data, fault) => n + Moved(Min(|data|, CAPACITY - n), fault)
      case Read(_, count, fault) => n - Moved(Min(count, n), fault)
  }

  lemma {:induction false} LevelIsPending(ops: seq<Op>)
    ensures Level(ops) == |After(ops).queue|
  {
    if ops != [] {
      LevelIsPending(ops[..|ops| - 1]);
    }
  }

  /** With `level` bytes pending, the user's memory faults after the first byte to be moved and before the last. */
  predicate Partway(level: nat, op: Op)
    requires level <= CAPACITY
  {
    match op
    case Write(_, data, fault) => fault.Some? && 0 < fault.value < Min(|data|, CAPACITY - level)
    case Read(_, count, fault) => fault.Some? && 0 < fault.value < Min(count, level)
  }

  /** No call of the history faults part way. */
  predicate Clean(ops: seq<Op>)
  {
    ops == [] || (Clean(ops[..|ops| - 1]) && !Partway(Level(ops[..|ops| - 1]), ops[|ops| - 1]))
  }

  /** What the callers were told is what moved exactly when no call faults part way; otherwise they were told less. */
  lemma {:induction false} ToldIsTrue(ops: seq<Op>)
    ensures Clean(ops) <==> After(ops).accepted == After(ops).entered && After(ops).returned == After(ops).left
    ensures !Clean(ops) ==>
      |After(ops).accepted| + |After(ops).returned| < |After(ops).entered| + |After(ops).left|
  {
    if ops != [] {
      ToldIsTrue(ops[..|ops| - 1]);
      LevelIsPending(ops[..|ops| - 1]);
    }
  }

  /** All bytes returned so far followed by the pending ones are all bytes accepted so far. */
  predicate Balanced(h: History)
  {
    h.returned + h.queue == h.accepted
  }

  /** A call that faults part way moves bytes its caller does not hear of. */
  lemma PartwayMoves(queue: seq<Byte>, op: Op)
    requires |queue| <= CAPACITY
    ensures Partway(|queue|, op) ==> Apply(queue, op).ret.EIO? && |Apply(queue, op).moved| > 0
    ensures |Apply(queue, op).queue| ==
      if op.Write? then |queue| + |Apply(queue, op).moved| else |queue| - |Apply(queue, op).moved|
  {
  }

  lemma PartwayUnbalances(ops: seq<Op>)
    requires ops != [] && Balanced(After(ops[..|ops| - 1]))
    requires Partway(Level(ops[..|ops| - 1]), ops[|ops| - 1])
    ensures !Balanced(After(ops))
  {
    var before := ops[..|ops| - 1];
    var h := After(before);
    LevelIsPending(before);
    PartwayMoves(h.queue, ops[|ops| - 1]);
    assert |h.returned + h.queue| == |h.accepted|;
    assert |h.returned + After(ops).queue| != |h.accepted|;
  }

  /** One call after a clean history keeps the balance exactly when it does not fault part way. */
  lemma BalanceStep(ops: seq<Op>)
    requires ops != [] && Clean(ops[..|ops| - 1])
    ensures Balanced(After(ops)) <==> !Partway(Level(ops[..|ops| - 1]), ops[|ops| - 1])
  {
    var before := ops[..|ops| - 1];
    if Partway(Level(before), ops[|ops| - 1]) {
      Conservation(before);
      ToldIsTrue(before);
      PartwayUnbalances(ops);
    } else {
      Conservation(ops);
      ToldIsTrue(ops);
    }
  }

  /** The balance holds at every moment of a history if and only if no call of the history faults part way. */
  lemma {:induction false} BalancedIffClean(ops: seq<Op>)
    ensures (forall n :: 0 <= n <= |ops| ==> Balanced(After(ops[..n]))) <==> Clean(ops)
  {
    assert ops[..|ops|] == ops;
    if ops != [] {
      var before := ops[..|ops| - 1];
      BalancedIffClean(before);
      assert forall n :: 0 <= n <= |before| ==> before[..n] == ops[..n];
      if Clean(before) {
        BalanceStep(ops);
      }
    }
  }

  lemma ReturnedThenPending(ops: seq<Op>)
    requires Clean(ops)
    ensures After(ops).returned + After(ops).queue == After(ops).accepted
  {
    BalancedIffClean(ops);
    assert ops[..|ops|] == ops;
  }

  // ---- the counts alone ----

  function Reported(r: Return): nat
  {
    if r.Count? then r.n else 0
  }

  /** The sum of what the history's writes returned. */
  function CountedIn(ops: seq<Op>): nat
  {
    if ops == [] then 0 else
      var before, op := ops[..|ops| - 1], ops[|ops| - 1];
      CountedIn(before) + if op.Write? then Reported(Apply(After(before).queue, op).ret) else 0
  }

  /** The sum of what its reads returned. */
  function CountedOut(ops: seq<Op>): nat
  {
    if ops == [] then 0 else
      var before, op := ops[..|ops| - 1], ops[|ops| - 1];
      CountedOut(before) + if op.Read? then Reported(Apply(After(before).queue, op).ret) else 0
  }

  /** The counts the callers got add up to the bytes they were told of. */
  lemma {:induction false} CountsAreLengths(ops: seq<Op>)
    ensures CountedIn(ops) == |After(ops).accepted| && CountedOut(ops) == |After(ops).returned|
  {
    if ops != [] {
      var before, op := ops[..|ops| - 1], ops[|ops| - 1];
      CountsAreLengths(before);
      CountIsGrowth(After(before).queue, op);
    }
  }

  /** What the callers' counts say is pending is what is pending. */
  predicate Reconciled(ops: seq<Op>)
  {
    CountedIn(ops) == CountedOut(ops) + |After(ops).queue|
  }

  lemma ReconcileStep(ops: seq<Op>)
    requires ops != [] && Clean(ops[..|ops| - 1])
    ensures Reconciled(ops) <==> !Partway(Level(ops[..|ops| - 1]), ops[|ops| - 1])
  {
    var before := ops[..|ops| - 1];
    CountsAreLengths(ops);
    if Partway(Level(before), ops[|ops| - 1]) {
      var h := After(before);
      ReturnedThenPending(before);
      LevelIsPending(before);
      PartwayMoves(h.queue, ops[|ops| - 1]);
      assert |h.returned + h.queue| == |h.accepted|;
    } else {
      ReturnedThenPending(ops);
      assert |After(ops).returned + After(ops).queue| == |After(ops).accepted|;
    }
  }

  /** The counts reconcile with the queue at every moment of a history if and only if no call faults part way. */
  lemma {:induction false} CountsReconcileIffClean(ops: seq<Op>)
    ensures (forall n :: 0 <= n <= |ops| ==> Reconciled(ops[..n])) <==> Clean(ops)
  {
    assert ops[..|ops|] == ops;
    if ops != [] {
      var before := ops[..|ops| - 1];
      CountsReconcileIffClean(before);
      assert forall n :: 0 <= n <= |before| ==> before[..n] == ops[..n];
      if Clean(before) {
        ReconcileStep(ops);
      }
    }
  }

  /** A write that faults part way, and a read after it: bytes are returned that no writer was told were accepted. */
  lemma PartialWriteUnreported(a: nat, b: nat, data: seq<Byte>, k: nat, count: nat)
    requires 0 < k < |data| <= CAPACITY && count >= k
    ensures var h := After([Write(a, data, Some(k))]);
      h.accepted == [] && h.entered == data[..k] == h.queue && !Balanced(h)
    ensures var h := After([Write(a, data, Some(k)), Read(b, count, None)]);
      h.accepted == [] && h.returned == data[..k] && h.queue == [] && !Balanced(h)
  {
    var w := [Write(a, data, Some(k))];
    assert w[..0] == [];
    assert After(w).queue == data[..k];
    var r := [Write(a, data, Some(k)), Read(b, count, None)];
    assert r[..1] == w;
    assert |data[..k]| == k;
  }

  /** On an empty queue, what is written through one file is read back through any other, as far as it was accepted. */
  lemma WriteThenRead(ops: seq<Op>, a: nat, b: nat, data: seq<Byte>, count: nat)
    requires After(ops).queue == [] && count >= CAPACITY
    ensures var n := Min(|data|, CAPACITY);
      var h := After(ops + [Write(a, data, None)] + [Read(b, count, None)]);
      && h.accepted == After(ops).accepted + data[..n]
      && h.returned == After(ops).returned + data[..n]
      && h.queue == []
  {
    var n, w := Min(|data|, CAPACITY), ops + [Write(a, data, None)];
    assert w[..|w| - 1] == ops && w[|w| - 1] == Write(a, data, None);
    assert [] + data[..n] == data[..n];
    assert After(w).queue == data[..n] && After(w).accepted == After(ops).accepted + data[..n];
    var r := w + [Read(b, count, None)];
    assert r[..|r| - 1] == w && r[|r| - 1] == Read(b, count, None);
    assert data[..n][..n] == data[..n] && data[..n][n..] == [];
  }
}
