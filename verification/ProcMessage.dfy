/**
 * The /proc message of exp3/exp3.1.c: a 256-byte buffer that writes overwrite in place, and reads
 * governed by one module-wide `finished` flag that makes every other read report the end.
 */
module ProcMessage {
  import opened Common

  const LEN: nat := 256

  datatype Return = Count(n: nat) | EINVAL | EFAULT

  /** The C string at the start of a buffer: everything before the first NUL. */
  function CString(s: string): string
  {
    if s == [] || s[0] == '\0' then [] else [s[0]] + CString(s[1..])
  }

  lemma {:induction false} CStringStops(s: string, k: nat)
    requires k < |s| && s[k] == '\0'
    ensures |CString(s)| <= k && CString(s) <= s && s[|CString(s)|] == '\0'
    ensures '\0' !in CString(s)
  {
    if s[0] != '\0' {
      CStringStops(s[1..], k - 1);
    }
  }

  lemma {:induction false} CStringOfMessage(data: string, rest: string)
    ensures CString(data + ['\0'] + rest) == CString(data)
    ensures '\0' !in data ==> CString(data) == data
  {
    if data == [] {
      assert data + ['\0'] + rest == ['\0'] + rest;
    } else {
      CStringOfMessage(data[1..], rest);
      assert (data + ['\0'] + rest)[1..] == data[1..] + ['\0'] + rest;
    }
  }

  // ---- the module's state ----

  datatype State = State(msg: string, finished: bool)

  ghost predicate Good(s: State)
  {
    |s.msg| == LEN && s.msg[LEN - 1] == '\0'
  }

  /**
   * `data` is what the user's buffer holds. A user copy that fails leaves the bytes it was given to
   * fill in some state, `residue`; the bytes beyond them are untouched.
   */
  function Write(s: State, data: string, residue: Option<string>): (State, Return)
    requires Good(s) && (residue.Some? ==> |residue.value| == |data|)
  {
    if |data| > LEN - 1 then (s, EINVAL)
    else if residue.Some? then (s.(msg := residue.value + s.msg[|data|..]), EFAULT)
    else (s.(msg := data + ['\0'] + s.msg[|data| + 1..]), Count(|data|))
  }

  /**
   * The caller asks for `count` bytes; the module does not look at it. The third result is what has been
   * copied into the caller's buffer: with `fault == Some(k)` the byte at k of that buffer cannot be
   * written, so a longer copy stops there.
   */
  function Read(s: State, count: nat, fault: Option<nat>): (State, Return, string)
  {
    var text := CString(s.msg);
    if s.finished then (s.(finished := false), Count(0), [])
    else if fault.Some? && fault.value < |text| then (s.(finished := true), EFAULT, text[..fault.value])
    else (s.(finished := true), Count(|text|), text)
  }

  const GREETING: string := "Hello, World!\n"

  /** The initial buffer: the greeting, and NULs up to the end. */
  function Initial(): (s: string)
    ensures |s| == LEN
  {
    GREETING + seq(LEN - 14, _ => '\0')
  }

  lemma Padded(text: string, n: nat)
    requires n > 0 && '\0' !in text
    ensures CString(text + seq(n, _ => '\0')) == text
  {
    var nuls := seq(n, _ => '\0');
    assert nuls == ['\0'] + nuls[1..];
    assert text + nuls == text + ['\0'] + nuls[1..];
    CStringOfMessage(text, nuls[1..]);
  }

  lemma InitialText()
    ensures CString(Initial()) == GREETING && Initial()[LEN - 1] == '\0'
  {
    Padded(GREETING, LEN - 14);
  }

  class ProcFile {
    const msg: array<char>
    var finished: bool

    ghost function Value(): State
      reads this, msg
    {
      State(msg[..], finished)
    }

    constructor ()
      ensures Good(Value()) && !finished && CString(msg[..]) == GREETING
    {
      msg := new char[LEN](i requires 0 <= i < LEN => Initial()[i]);
      finished := false;
      new;
      InitialText();
      assert msg[..] == Initial();
    }

    method ProcWrite(data: string, residue: Option<string>) returns (r: Return)
      requires Good(Value()) && (residue.Some? ==> |residue.value| == |data|)
      modifies msg
      ensures (Value(), r) == Write(old(Value()), data, residue)
      ensures Good(Value())
      ensures |data| > 255 ==> r == EINVAL && msg[..] == old(msg[..])
      ensures |data| <= 255 && residue.Some? ==> r == EFAULT && msg[..] == residue.value + old(msg[..])[|data|..]
      ensures |data| <= 255 && residue.None? ==>
        && r == Count(|data|) && msg[..|data|] == data && msg[|data|] == '\0'
        && msg[|data| + 1..] == old(msg[..])[|data| + 1..]
    {
      if |data| > LEN - 1 {
        return EINVAL;
      }
      CopyIn(if residue.Some? then residue.value else data);
      if residue.Some? {
        return EFAULT;
      }
      msg[|data|] := '\0';
      assert msg[..] == data + ['\0'] + old(msg[..])[|data| + 1..];
      return Count(|data|);
    }

    /** What copy_from_user stores at the start of the buffer. */
    method CopyIn(bytes: string)
      requires |bytes| <= msg.Length
      modifies msg
      ensures msg[..] == bytes + old(msg[..])[|bytes|..]
    {
      for k := 0 to |bytes|
        invariant forall j :: 0 <= j < msg.Length ==> msg[j] == if j < k then bytes[j] else old(msg[j])
      {
        msg[k] := bytes[k];
      }
    }

    /** `data` is what the caller's buffer received; `pos` is the file position before the call and `pos'` after it. */
    method ProcRead(count: nat, pos: nat, fault: Option<nat>) returns (r: Return, data: string, pos': nat)
      requires Good(Value())
      modifies this
      ensures (Value(), r, data) == Read(old(Value()), count, fault)
      ensures msg[..] == old(msg[..]) && finished == !old(finished)
      ensures old(finished) ==> r == Count(0) && data == []
      ensures var text := CString(msg[..]);
        !old(finished) ==>
          if fault.Some? && fault.value < |text| then r == EFAULT && data == text[..fault.value]
          else r == Count(|text|) && data == text
      ensures pos' == if r.Count? then pos + r.n else pos
    {
      data, pos' := [], pos;
      if finished {
        finished := false;
        return Count(0), data, pos';
      }
      finished := true;
      data := CString(msg[..]);
      if fault.Some? && fault.value < |data| {
        return EFAULT, data[..fault.value], pos';
      }
      pos' := pos + |data|;
      return Count(|data|), data, pos';
    }
  }

  // ---- every run ----

  datatype Op = WriteOp(data: string, residue: Option<string>) | ReadOp(count: nat, fault: Option<nat>)

  predicate Sensible(op: Op)
  {
    op.WriteOp? && op.residue.Some? ==> |op.residue.value| == |op.data|
  }

  /** Whatever is written and however copies fail, the last byte stays NUL. */
  function Run(s: State, ops: seq<Op>): (r: State)
    requires Good(s) && forall k :: 0 <= k < |ops| ==> Sensible(ops[k])
    ensures Good(r)
    decreases |ops|
  {
    if ops == [] then s else
      assert Sensible(ops[0]);
      match ops[0]
      case WriteOp(data, residue) => Run(Write(s, data, residue).0, ops[1..])
      case ReadOp(count, fault) => Run(Read(s, count, fault).0, ops[1..])
  }

  /** So after every run a successful read returns at most 255 bytes, a NUL-free prefix of the buffer. */
  lemma ReadIsPrefix(s: State, ops: seq<Op>, count: nat)
    requires Good(s) && forall k :: 0 <= k < |ops| ==> Sensible(ops[k])
    ensures var now := Run(s, ops);
      var (_, r, data) := Read(now, count, None);
      && r == Count(|data|) && |data| <= LEN - 1
      && data <= now.msg && '\0' !in data
      && (!now.finished ==> now.msg[|data|] == '\0')
  {
    CStringStops(Run(s, ops).msg, LEN - 1);
  }

  /**
   * After every run, a read writes no more than the caller asked for if and only if the flag is set, the
   * message is no longer than that, or a fault stops the copy in time; so every read of 255 bytes or
   * more stays within the count.
   */
  lemma CountRespectedIff(s: State, ops: seq<Op>, count: nat, fault: Option<nat>)
    requires Good(s) && forall k :: 0 <= k < |ops| ==> Sensible(ops[k])
    ensures var now := Run(s, ops);
      |Read(now, count, fault).2| <= count <==>
      now.finished || |CString(now.msg)| <= count || (fault.Some? && fault.value <= count)
    ensures count >= LEN - 1 ==> |Read(Run(s, ops), count, fault).2| <= count
  {
    CStringStops(Run(s, ops).msg, LEN - 1);
  }

  /**
   * The overrun happens: the first read of the loaded module puts the whole greeting into a buffer of any
   * smaller size, and a fault beyond the end of that buffer is reported only after writing up to it.
   */
  lemma GreetingOverruns(count: nat, k: nat)
    requires count < k < |GREETING|
    ensures var s := State(Initial(), false);
      && Good(s)
      && Read(s, count, None).1 == Count(|GREETING|) && Read(s, count, None).2 == GREETING
      && Read(s, count, Some(k)).1 == EFAULT && Read(s, count, Some(k)).2 == GREETING[..k]
      && count < |Read(s, count, Some(k)).2| < |Read(s, count, None).2|
  {
    InitialText();
  }

  // ---- what the callers are told ----

  /** What each call of a run returns. */
  function Returns(s: State, ops: seq<Op>): (r: seq<Return>)
    requires Good(s) && forall k :: 0 <= k < |ops| ==> Sensible(ops[k])
    ensures |r| == |ops|
    decreases |ops|
  {
    if ops == [] then [] else
      assert Sensible(ops[0]);
      match ops[0]
      case WriteOp(data, residue) =>
        [Write(s, data, residue).1] + Returns(Write(s, data, residue).0, ops[1..])
      case ReadOp(count, fault) =>
        [Read(s, count, fault).1] + Returns(Read(s, count, fault).0, ops[1..])
  }

  /** A write is told its own length exactly when it was neither too long nor failed to copy. */
  lemma {:induction false} WriteReturns(s: State, ops: seq<Op>, k: nat)
    requires Good(s) && forall j :: 0 <= j < |ops| ==> Sensible(ops[j])
    requires k < |ops| && ops[k].WriteOp?
    ensures Returns(s, ops)[k] ==
      if |ops[k].data| > 255 then EINVAL else if ops[k].residue.Some? then EFAULT else Count(|ops[k].data|)
    decreases |ops|
  {
    if k > 0 {
      assert Sensible(ops[0]);
      WriteReturns(Run(s, ops[..1]), ops[1..], k - 1);
      FirstStep(s, ops);
    }
  }

  function ReadsIn(ops: seq<Op>): nat
  {
    if ops == [] then 0 else (if ops[0].ReadOp? then 1 else 0) + ReadsIn(ops[1..])
  }

  /** The run of a list by its first call. */
  lemma FirstStep(s: State, ops: seq<Op>)
    requires Good(s) && ops != [] && forall j :: 0 <= j < |ops| ==> Sensible(ops[j])
    ensures Run(s, ops) == Run(Run(s, ops[..1]), ops[1..])
    ensures Returns(s, ops)[1..] == Returns(Run(s, ops[..1]), ops[1..])
    ensures Run(s, ops[..1]).finished == (if ops[0].ReadOp? then !s.finished else s.finished)
    ensures ops[0].ReadOp? ==> Run(s, ops[..1]).msg == s.msg
  {
    assert Sensible(ops[0]) && ops[..1][1..] == [];
  }

  /** Every read turns the flag over, whatever it returns, and no write touches it. */
  lemma {:induction false} FlagIsParity(s: State, ops: seq<Op>)
    requires Good(s) && forall j :: 0 <= j < |ops| ==> Sensible(ops[j])
    ensures Run(s, ops).finished <==> s.finished != (ReadsIn(ops) % 2 == 1)
    decreases |ops|
  {
    if ops != [] {
      FirstStep(s, ops);
      FlagIsParity(Run(s, ops[..1]), ops[1..]);
    }
  }

  lemma {:induction false} RunSplits(s: State, ops: seq<Op>, k: nat)
    requires Good(s) && k <= |ops| && forall j :: 0 <= j < |ops| ==> Sensible(ops[j])
    ensures Run(s, ops) == Run(Run(s, ops[..k]), ops[k..])
    decreases |ops|
  {
    if k > 0 {
      FirstStep(s, ops);
      FirstStep(s, ops[..k]);
      RunSplits(Run(s, ops[..1]), ops[1..], k - 1);
      assert ops[..k][..1] == ops[..1] && ops[..k][1..] == ops[1..][..k - 1] && ops[1..][k - 1..] == ops[k..];
    }
  }

  /** Only writes that the module takes change the buffer. */
  lemma {:induction false} RefusedWritesKeep(s: State, ops: seq<Op>)
    requires Good(s) && forall j :: 0 <= j < |ops| ==> Sensible(ops[j])
    requires forall j :: 0 <= j < |ops| && ops[j].WriteOp? ==> Returns(s, ops)[j] == EINVAL
    ensures Run(s, ops).msg == s.msg
    decreases |ops|
  {
    if ops != [] {
      FirstStep(s, ops);
      assert Sensible(ops[0]) && ops[..1][1..] == [];
      var rest := ops[1..];
      forall j | 0 <= j < |rest| && rest[j].WriteOp?
        ensures Returns(Run(s, ops[..1]), rest)[j] == EINVAL
      {
        assert Returns(s, ops)[1..][j] == Returns(s, ops)[j + 1] && rest[j] == ops[j + 1];
      }
      if ops[0].WriteOp? {
        assert Returns(s, ops)[0] == EINVAL;
      }
      RefusedWritesKeep(Run(s, ops[..1]), rest);
    }
  }

  /** Too-long writes are refused in whatever state they find, so a tail of them can be cut off. */
  lemma TailKeeps(s: State, ops: seq<Op>, k: nat)
    requires Good(s) && k <= |ops| && forall j :: 0 <= j < |ops| ==> Sensible(ops[j])
    requires forall j :: k <= j < |ops| && ops[j].WriteOp? ==> Returns(s, ops)[j] == EINVAL
    ensures Run(s, ops).msg == Run(s, ops[..k]).msg
  {
    var now, tail := Run(s, ops[..k]), ops[k..];
    RunSplits(s, ops, k);
    forall j | 0 <= j < |tail| && tail[j].WriteOp?
      ensures Returns(now, tail)[j] == EINVAL
    {
      WriteReturns(s, ops, k + j);
      WriteReturns(now, tail, j);
    }
    RefusedWritesKeep(now, tail);
  }

  /**
   * The message is that of the last write that was told its own length, if every write after it was told
   * it is too long; a NUL-free one is there in full.
   */
  lemma LastTakenWrite(s: State, ops: seq<Op>, k: nat)
    requires Good(s) && k < |ops| && forall j :: 0 <= j < |ops| ==> Sensible(ops[j])
    requires ops[k].WriteOp? && Returns(s, ops)[k] == Count(|ops[k].data|)
    requires forall j :: k < j < |ops| && ops[j].WriteOp? ==> Returns(s, ops)[j] == EINVAL
    ensures CString(Run(s, ops).msg) == CString(ops[k].data)
    ensures '\0' !in ops[k].data ==> CString(Run(s, ops).msg) == ops[k].data
  {
    TailKeeps(s, ops, k + 1);
    var now, data := Run(s, ops[..k]), ops[k].data;
    WriteReturns(s, ops, k);
    RunSplits(s, ops[..k + 1], k);
    assert ops[..k + 1][..k] == ops[..k] && ops[..k + 1][k..] == [ops[k]];
    assert [ops[k]][1..] == [];
    assert Run(now, [ops[k]]) == Write(now, data, None).0;
    CStringOfMessage(data, now.msg[|data| + 1..]);
  }

  lemma {:induction false} ReadReturnAt(s: State, ops: seq<Op>, k: nat)
    requires Good(s) && k < |ops| && ops[k].ReadOp? && forall j :: 0 <= j < |ops| ==> Sensible(ops[j])
    ensures Returns(s, ops)[k] == Read(Run(s, ops[..k]), ops[k].count, ops[k].fault).1
    decreases |ops|
  {
    if k > 0 {
      FirstStep(s, ops);
      FirstStep(s, ops[..k]);
      ReadReturnAt(Run(s, ops[..1]), ops[1..], k - 1);
      assert ops[..k][..1] == ops[..1] && ops[..k][1..] == ops[1..][..k - 1];
    }
  }

  /**
   * What a read is told: after an odd number of reads, from a clear flag, that there is nothing, and after
   * an even number the length of the message, or that the copy faulted.
   */
  lemma ReadReturns(s: State, ops: seq<Op>, k: nat)
    requires Good(s) && k < |ops| && ops[k].ReadOp? && forall j :: 0 <= j < |ops| ==> Sensible(ops[j])
    ensures var length, fault := |CString(Run(s, ops[..k]).msg)|, ops[k].fault;
      Returns(s, ops)[k] ==
      if s.finished != (ReadsIn(ops[..k]) % 2 == 1) then Count(0)
      else if fault.Some? && fault.value < length then EFAULT else Count(length)
  {
    ReadReturnAt(s, ops, k);
    FlagIsParity(s, ops[..k]);
  }

  // ---- reading until the end, as cat does ----

  /** A buffer that every message fits. */
  const BUFFER: nat := 4096

  function ReadAll(s: State): (State, string)
    decreases if s.finished then 0 else 1
  {
    var (s', r, data) := Read(s, BUFFER, None);
    if r == Count(0) then (s', []) else
      var (end, more) := ReadAll(s');
      (end, data + more)
  }

  /** A pass that starts in step returns the message once; only an empty message leaves the flag set behind it. */
  lemma OnePass(s: State)
    ensures !s.finished ==> ReadAll(s) == (s.(finished := CString(s.msg) == []), CString(s.msg))
    ensures s.finished ==> ReadAll(s) == (s.(finished := false), [])
  {
    if !s.finished && CString(s.msg) != [] {
      var (s', r, data) := Read(s, BUFFER, None);
      assert ReadAll(s') == (s, []);
      assert data + [] == data;
    }
  }

  /** A history of accepted writes and complete passes. */
  datatype Event = Wrote(data: string) | Pass

  predicate Accepted(events: seq<Event>)
  {
    forall k :: 0 <= k < |events| && events[k].Wrote? ==> |events[k].data| <= LEN - 1
  }

  /** The module's state after a history, and what its passes returned. */
  function Session(s: State, events: seq<Event>): (State, seq<string>)
    requires Good(s) && Accepted(events)
    decreases |events|
  {
    if events == [] then (s, []) else
      match events[0]
      case Wrote(data) => Session(Write(s, data, None).0, events[1..])
      case Pass =>
        OnePass(s);
        var (end, rest) := Session(ReadAll(s).0, events[1..]);
        (end, [ReadAll(s).1] + rest)
  }

  /** What they should return: the latest message, as a plain variable would hold it. */
  function Latest(message: string, events: seq<Event>): seq<string>
    decreases |events|
  {
    if events == [] then [] else
      match events[0]
      case Wrote(data) => Latest(CString(data), events[1..])
      case Pass => [message] + Latest(message, events[1..])
  }

  /**
   * Which message lists the passes can follow: a pass over an empty message leaves the flag set, and
   * the pass after it then returns nothing, so its message must be empty as well.
   */
  predicate InStep(stale: bool, messages: seq<string>)
    decreases |messages|
  {
    messages == [] ||
    if stale then messages[0] == [] && InStep(false, messages[1..])
    else InStep(messages[0] == [], messages[1..])
  }

  /** Every pass returns the latest message exactly when the messages are in step with the flag. */
  lemma {:induction false} FaithfulIffInStep(s: State, events: seq<Event>)
    requires Good(s) && Accepted(events)
    ensures Session(s, events).1 == Latest(CString(s.msg), events)
       <==> InStep(s.finished, Latest(CString(s.msg), events))
    decreases |events|
  {
    if events != [] {
      match events[0] {
        case Wrote(data) =>
          CStringOfMessage(data, s.msg[|data| + 1..]);
          FaithfulIffInStep(Write(s, data, None).0, events[1..]);
        case Pass =>
          OnePass(s);
          FaithfulIffInStep(ReadAll(s).0, events[1..]);
          var rest, want := Session(ReadAll(s).0, events[1..]).1, Latest(CString(s.msg), events[1..]);
          assert ([ReadAll(s).1] + rest)[1..] == rest && ([CString(s.msg)] + want)[1..] == want;
      }
    }
  }

  predicate Messages(events: seq<Event>)
  {
    forall k :: 0 <= k < |events| && events[k].Wrote? ==> events[k].data != [] && '\0' !in events[k].data
  }

  /**
   * Non-empty NUL-free messages are always in step: each pass returns exactly the latest one, and the
   * flag is clear after it.
   */
  lemma {:induction false} NonEmptyFaithful(s: State, events: seq<Event>)
    requires Good(s) && Accepted(events) && Messages(events) && !s.finished && CString(s.msg) != []
    ensures Session(s, events).1 == Latest(CString(s.msg), events)
    ensures !Session(s, events).0.finished
    decreases |events|
  {
    if events != [] {
      match events[0] {
        case Wrote(data) =>
          CStringOfMessage(data, s.msg[|data| + 1..]);
          NonEmptyFaithful(Write(s, data, None).0, events[1..]);
        case Pass =>
          OnePass(s);
          NonEmptyFaithful(s, events[1..]);
      }
    }
  }

  /** The events of a list one by one. */
  lemma SessionStep(s: State, e: Event, rest: seq<Event>)
    requires Good(s) && Accepted([e] + rest)
    ensures Accepted(rest)
    ensures Good(ReadAll(s).0) && (e.Wrote? ==> Good(Write(s, e.data, None).0))
    ensures e.Wrote? ==> Session(s, [e] + rest) == Session(Write(s, e.data, None).0, rest)
    ensures e.Pass? ==> Session(s, [e] + rest).1 == [ReadAll(s).1] + Session(ReadAll(s).0, rest).1
  {
    assert ([e] + rest)[1..] == rest;
    assert forall k :: 0 <= k < |rest| ==> rest[k] == ([e] + rest)[k + 1];
    OnePass(s);
  }

  /** An empty message, a pass, a new message: the next pass returns nothing, and the one after it the message. */
  lemma EmptyMessageHidesNext(s: State, next: string)
    requires Good(s) && !s.finished && 0 < |next| <= LEN - 1 && '\0' !in next
    ensures Session(s, [Wrote([]), Pass, Wrote(next), Pass, Pass]).1 == [[], [], next]
    ensures Session(s, [Wrote([]), Pass, Wrote(next), Pass]).1 == [[], []]
  {
    HiddenOnce(s, next, []);
    HiddenOnce(s, next, [Pass]);
    assert [Wrote([]), Pass, Wrote(next), Pass] + [] == [Wrote([]), Pass, Wrote(next), Pass];
    assert [Wrote([]), Pass, Wrote(next), Pass] + [Pass] == [Wrote([]), Pass, Wrote(next), Pass, Pass];
    var now := Write(s, next, None).0;
    CStringOfMessage(next, s.msg[|next| + 1..]);
    OnePass(now);
    SessionStep(now, Pass, []);
  }

  /** The state after the empty message, the pass over it and the next message. */
  lemma FlagLeftBehind(s: State, next: string)
    requires Good(s) && !s.finished && 0 < |next| <= LEN - 1
    ensures var empty := Write(s, [], None).0;
      ReadAll(empty) == (empty.(finished := true), [])
    ensures var late := Write(Write(s, [], None).0.(finished := true), next, None).0;
      late == Write(s, next, None).0.(finished := true) && ReadAll(late) == (Write(s, next, None).0, [])
  {
    var empty := Write(s, [], None).0;
    CStringOfMessage([], s.msg[1..]);
    assert [] + ['\0'] == ['\0'];
    OnePass(empty);
    assert empty.msg[|next| + 1..] == s.msg[|next| + 1..];
    OnePass(Write(empty.(finished := true), next, None).0);
  }

  /** Whatever follows finds the new message with the flag clear, after two passes that returned nothing. */
  lemma HiddenOnce(s: State, next: string, rest: seq<Event>)
    requires Good(s) && !s.finished && 0 < |next| <= LEN - 1 && Accepted(rest)
    ensures Accepted([Wrote([]), Pass, Wrote(next), Pass] + rest)
    ensures var now := Write(s, next, None).0;
      Good(now) && Session(s, [Wrote([]), Pass, Wrote(next), Pass] + rest).1 == [[], []] + Session(now, rest).1
  {
    var r1 := [Pass] + rest;
    var r2 := [Wrote(next)] + r1;
    var r3 := [Pass] + r2;
    assert [Wrote([])] + r3 == [Wrote([]), Pass, Wrote(next), Pass] + rest;
    FlagLeftBehind(s, next);
    var empty := Write(s, [], None).0;
    SessionStep(s, Wrote([]), r3);
    SessionStep(empty, Pass, r2);
    SessionStep(empty.(finished := true), Wrote(next), r1);
    SessionStep(Write(s, next, None).0.(finished := true), Pass, rest);
  }
}
