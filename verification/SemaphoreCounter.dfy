/**
 * The semaphore-guarded counter of exp3/exp3.2.c and exp1/exp1.4.c, for any number of worker
 * threads. Worker i leaves its loop once the shared counter is at least thresholds[i].
 * `sharedData++` is a separate load and store, so that a lost update is possible unless the
 * semaphore excludes it. The machine is scheduled freely: a schedule names who moves next, and
 * nothing assumes fairness.
 */
module SemaphoreCounter {
  import opened Common
  import opened Counting

  datatype Semaphore = Uninitialised | Live(value: nat) | Destroyed

  datatype Worker =
    | Unborn
    | AtWait
    | AtCheck
    | AtLoad
    | AtStore(seen: int)
    | AtPost
    | AtExitPost
    | Exited

  datatype MainThread =
    | AtInit
    | Creating(next: nat)
    | Joining(next: nat)
    | AtDestroy
    | AtPrint
    | Finished(printed: int)

  /** `made[i]` counts the increments worker i has stored; the program does not keep it. */
  datatype State = State(
    sem: Semaphore,
    sharedData: int,
    workers: seq<Worker>,
    main: MainThread,
    made: seq<nat>)

  datatype Actor = Main | Work(id: nat)

  // ---- the program ----

  function JoinFrom(n: nat, i: nat): MainThread
  {
    if i == n then AtDestroy else Joining(i)
  }

  function CreateFrom(n: nat, i: nat): MainThread
  {
    if i == n then JoinFrom(n, 0) else Creating(i)
  }

  function Start(thresholds: seq<int>): State
  {
    State(Uninitialised, 0, seq(|thresholds|, _ => Unborn), AtInit, seq(|thresholds|, _ => 0))
  }

  /** Whether an actor can move. A wait blocks on zero; a join blocks until its worker has exited. */
  predicate Enabled(s: State, a: Actor)
  {
    match a
    case Main =>
      (match s.main
       case AtInit => s.sem.Uninitialised?
       case Creating(i) => i < |s.workers| && s.workers[i].Unborn?
       case Joining(i) => i < |s.workers| && s.workers[i].Exited?
       case AtDestroy => s.sem.Live?
       case AtPrint => true
       case Finished(_) => false)
    case Work(i) =>
      && i < |s.workers|
      && (match s.workers[i]
          case Unborn | Exited => false
          case AtWait => s.sem.Live? && s.sem.value > 0
          case AtPost | AtExitPost => s.sem.Live?
          case AtCheck | AtLoad | AtStore(_) => true)
  }

  function MainStep(s: State): State
    requires Enabled(s, Main)
  {
    var n := |s.workers|;
    match s.main
    case AtInit => s.(sem := Live(1), main := CreateFrom(n, 0))
    case Creating(i) => s.(workers := s.workers[i := AtWait], main := CreateFrom(n, i + 1))
    case Joining(i) => s.(main := JoinFrom(n, i + 1))
    case AtDestroy => s.(sem := Destroyed, main := AtPrint)
    case AtPrint => s.(main := Finished(s.sharedData))
  }

  function WorkerStep(thresholds: seq<int>, s: State, i: nat): State
    requires Enabled(s, Work(i)) && |thresholds| == |s.workers| == |s.made|
  {
    match s.workers[i]
    case AtWait => s.(sem := Live(s.sem.value - 1), workers := s.workers[i := AtCheck])
    case AtCheck =>
      s.(workers := s.workers[i := if s.sharedData >= thresholds[i] then AtExitPost else AtLoad])
    case AtLoad => s.(workers := s.workers[i := AtStore(s.sharedData)])
    case AtStore(seen) =>
      s.(sharedData := seen + 1, workers := s.workers[i := AtPost], made := s.made[i := s.made[i] + 1])
    case AtPost => s.(sem := Live(s.sem.value + 1), workers := s.workers[i := AtWait])
    case AtExitPost => s.(sem := Live(s.sem.value + 1), workers := s.workers[i := Exited])
  }

  function Step(thresholds: seq<int>, s: State, a: Actor): State
    requires Enabled(s, a) && |thresholds| == |s.workers| == |s.made|
  {
    match a
    case Main => MainStep(s)
    case Work(i) => WorkerStep(thresholds, s, i)
  }

  /** The state a schedule leads to, or None when it names an actor that is blocked or done. */
  function After(thresholds: seq<int>, schedule: seq<Actor>): (r: Option<State>)
    ensures r.Some? ==> |r.value.workers| == |r.value.made| == |thresholds|
  {
    if schedule == [] then Some(Start(thresholds)) else
      var last := |schedule| - 1;
      match After(thresholds, schedule[..last])
      case None => None
      case Some(s) => if Enabled(s, schedule[last]) then Some(Step(thresholds, s, schedule[last])) else None
  }

  // ---- what is claimed about it ----

  /** The largest threshold, or 0 when every threshold is negative or there is no worker. */
  function Highest(thresholds: seq<int>): (m: int)
    ensures m >= 0
    ensures forall t :: t in thresholds ==> t <= m
    ensures m == 0 || m in thresholds
  {
    if thresholds == [] then 0 else
      var rest := Highest(thresholds[1..]);
      assert thresholds == [thresholds[0]] + thresholds[1..];
      if thresholds[0] > rest then thresholds[0] else rest
  }

  /** Weight 1 between a completed wait and the matching post. */
  function Critical(w: Worker): nat
  {
    match w
    case AtCheck | AtLoad | AtStore(_) | AtPost | AtExitPost => 1
    case Unborn | AtWait | Exited => 0
  }

  function Same(n: nat): nat { n }

  ghost predicate MainInv(s: State)
  {
    var n := |s.workers|;
    match s.main
    case AtInit => s.sem.Uninitialised? && forall j :: 0 <= j < n ==> s.workers[j].Unborn?
    case Creating(i) => i < n && forall j :: 0 <= j < n ==> (s.workers[j].Unborn? <==> i <= j)
    case Joining(i) =>
      && i < n
      && (forall j :: 0 <= j < n ==> !s.workers[j].Unborn?)
      && (forall j :: 0 <= j < i ==> s.workers[j].Exited?)
    case AtDestroy | AtPrint => forall j :: 0 <= j < n ==> s.workers[j].Exited?
    case Finished(v) => v == s.sharedData && forall j :: 0 <= j < n ==> s.workers[j].Exited?
  }

  /** The semaphore's life follows main, and while it lives its value plus the threads inside is 1. */
  ghost predicate SemInv(s: State)
  {
    match s.main
    case AtInit => s.sem == Uninitialised
    case Creating(_) | Joining(_) | AtDestroy => s.sem.Live? && s.sem.value + Total(Critical, s.workers) == 1
    case AtPrint | Finished(_) => s.sem == Destroyed
  }

  /** What worker i knows of the counter at each point of its loop. */
  predicate Knows(threshold: int, data: int, w: Worker)
  {
    match w
    case AtLoad => data < threshold
    case AtStore(seen) => seen == data < threshold
    case AtExitPost | Exited => data >= threshold
    case Unborn | AtWait | AtCheck | AtPost => true
  }

  ghost predicate DataInv(thresholds: seq<int>, s: State)
  {
    && |s.workers| == |s.made| == |thresholds|
    && 0 <= s.sharedData <= Highest(thresholds)
    && s.sharedData == Total(Same, s.made)
    && (forall j :: 0 <= j < |s.workers| ==> Knows(thresholds[j], s.sharedData, s.workers[j]))
    && (forall j :: 0 <= j < |s.made| ==> s.made[j] > 0 ==> s.made[j] <= thresholds[j])
  }

  ghost predicate Inv(thresholds: seq<int>, s: State)
  {
    MainInv(s) && SemInv(s) && DataInv(thresholds, s)
  }

  lemma {:induction false} StartInv(thresholds: seq<int>)
    ensures Inv(thresholds, Start(thresholds))
  {
    TotalUniform(Same, Start(thresholds).made, 0);
  }

  /** Mutual exclusion, as a consequence of the semaphore law. */
  lemma OneInside(s: State, i: nat, j: nat)
    requires SemInv(s) && s.sem.Live?
    requires i < |s.workers| && j < |s.workers| && i != j && Critical(s.workers[i]) == 1
    ensures Critical(s.workers[j]) == 0
  {
    if i < j {
      TotalPair(Critical, s.workers, i, j);
    } else {
      TotalPair(Critical, s.workers, j, i);
    }
  }

  lemma MainStepInv(thresholds: seq<int>, s: State)
    requires Inv(thresholds, s) && Enabled(s, Main)
    ensures Inv(thresholds, MainStep(s))
  {
    match s.main {
      case AtInit => TotalUniform(Critical, s.workers, 0);
      case Creating(i) => TotalUpdate(Critical, s.workers, i, AtWait);
      case _ =>
    }
  }

  /** A worker that can move runs while main is creating or joining, so the semaphore is live. */
  lemma WorkerRunsLive(s: State, i: nat)
    requires MainInv(s) && SemInv(s) && Enabled(s, Work(i))
    ensures s.main.Creating? || s.main.Joining?
    ensures s.sem.Live? && s.sem.value + Total(Critical, s.workers) == 1
  {
  }

  lemma WorkerStepControl(thresholds: seq<int>, s: State, i: nat)
    requires Inv(thresholds, s) && Enabled(s, Work(i))
    ensures MainInv(WorkerStep(thresholds, s, i)) && SemInv(WorkerStep(thresholds, s, i))
  {
    WorkerRunsLive(s, i);
    TotalUpdate(Critical, s.workers, i, WorkerStep(thresholds, s, i).workers[i]);
  }

  lemma StoreKeepsData(thresholds: seq<int>, s: State, i: nat)
    requires Inv(thresholds, s) && Enabled(s, Work(i)) && s.workers[i].AtStore?
    ensures DataInv(thresholds, WorkerStep(thresholds, s, i))
  {
    WorkerRunsLive(s, i);
    TotalUpdate(Same, s.made, i, s.made[i] + 1);
    TotalMember(Same, s.made, i);
    assert thresholds[i] in thresholds && Knows(thresholds[i], s.sharedData, s.workers[i]);
    var s' := WorkerStep(thresholds, s, i);
    forall j | 0 <= j < |s.workers|
      ensures Knows(thresholds[j], s'.sharedData, s'.workers[j])
    {
      if j != i {
        OneInside(s, i, j);
        assert Knows(thresholds[j], s.sharedData, s.workers[j]);
      }
    }
  }

  lemma WorkerStepInv(thresholds: seq<int>, s: State, i: nat)
    requires Inv(thresholds, s) && Enabled(s, Work(i))
    ensures Inv(thresholds, WorkerStep(thresholds, s, i))
  {
    WorkerStepControl(thresholds, s, i);
    if s.workers[i].AtStore? {
      StoreKeepsData(thresholds, s, i);
    } else {
      assert forall j :: 0 <= j < |s.workers| ==> Knows(thresholds[j], s.sharedData, s.workers[j]);
    }
  }

  lemma {:induction false} Reachable(thresholds: seq<int>, schedule: seq<Actor>)
    requires After(thresholds, schedule).Some?
    ensures Inv(thresholds, After(thresholds, schedule).value)
  {
    if schedule == [] {
      StartInv(thresholds);
    } else {
      var last := |schedule| - 1;
      Reachable(thresholds, schedule[..last]);
      var s := After(thresholds, schedule[..last]).value;
      match schedule[last] {
        case Main => MainStepInv(thresholds, s);
        case Work(i) => WorkerStepInv(thresholds, s, i);
      }
    }
  }

  // ---- every schedule stops, after a number of steps fixed by the thresholds ----

  function Rank(w: Worker): nat
  {
    match w
    case Unborn | AtWait => 3
    case AtCheck => 2
    case AtLoad | AtExitPost => 1
    case AtStore(_) | Exited => 0
    case AtPost => 4
  }

  function MainRank(n: nat, m: MainThread): int
  {
    match m
    case AtInit => 2 * n + 3
    case Creating(i) => 2 * n + 2 - i
    case Joining(i) => n + 2 - i
    case AtDestroy => 2
    case AtPrint => 1
    case Finished(_) => 0
  }

  /** Steps left to take, whoever takes them. */
  function StepsLeft(thresholds: seq<int>, s: State): int
  {
    5 * (Highest(thresholds) - s.sharedData) + Total(Rank, s.workers) + MainRank(|s.workers|, s.main)
  }

  lemma MainCountsDown(thresholds: seq<int>, s: State)
    requires MainInv(s) && Enabled(s, Main)
    ensures StepsLeft(thresholds, MainStep(s)) == StepsLeft(thresholds, s) - 1
  {
    if s.main.Creating? {
      TotalUpdate(Rank, s.workers, s.main.next, AtWait);
    }
  }

  /** One trip round a worker's loop is five steps and one increment; the last, shorter trip is three. */
  lemma WorkerCountsDown(thresholds: seq<int>, s: State, i: nat)
    requires Enabled(s, Work(i)) && |thresholds| == |s.workers| == |s.made|
    requires Knows(thresholds[i], s.sharedData, s.workers[i])
    ensures StepsLeft(thresholds, WorkerStep(thresholds, s, i)) == StepsLeft(thresholds, s) - 1
  {
    TotalUpdate(Rank, s.workers, i, WorkerStep(thresholds, s, i).workers[i]);
  }

  lemma {:induction false} ScheduleLength(thresholds: seq<int>, schedule: seq<Actor>)
    requires After(thresholds, schedule).Some?
    ensures |schedule| + StepsLeft(thresholds, After(thresholds, schedule).value)
         == 5 * Highest(thresholds) + 5 * |thresholds| + 3
  {
    if schedule == [] {
      TotalUniform(Rank, Start(thresholds).workers, 3);
    } else {
      var last := |schedule| - 1;
      var s := After(thresholds, schedule[..last]).value;
      Reachable(thresholds, schedule[..last]);
      ScheduleLength(thresholds, schedule[..last]);
      match schedule[last] {
        case Main => MainCountsDown(thresholds, s);
        case Work(i) => WorkerCountsDown(thresholds, s, i);
      }
    }
  }

  /** No deadlock: while main has not finished, someone can move. */
  lemma SomeoneCanMove(thresholds: seq<int>, schedule: seq<Actor>) returns (a: Actor)
    requires After(thresholds, schedule).Some? && !After(thresholds, schedule).value.main.Finished?
    ensures Enabled(After(thresholds, schedule).value, a)
  {
    var s := After(thresholds, schedule).value;
    Reachable(thresholds, schedule);
    a := Main;
    if s.main.Joining? && !s.workers[s.main.next].Exited? {
      if s.sem.value == 0 {
        var holder := TotalPositive(Critical, s.workers);
        a := Work(holder);
      } else {
        a := Work(s.main.next);
        TotalMember(Critical, s.workers, s.main.next);
      }
    }
  }

  /**
   * Termination without fairness: no schedule is longer than the bound, a schedule cannot be
   * extended exactly when main has finished, and then its length is exactly the bound.
   */
  lemma EveryRunStops(thresholds: seq<int>, schedule: seq<Actor>)
    requires After(thresholds, schedule).Some?
    ensures |schedule| <= 5 * Highest(thresholds) + 5 * |thresholds| + 3
    ensures After(thresholds, schedule).value.main.Finished?
       <==> |schedule| == 5 * Highest(thresholds) + 5 * |thresholds| + 3
    ensures After(thresholds, schedule).value.main.Finished?
       <==> forall a :: !Enabled(After(thresholds, schedule).value, a)
  {
    var s := After(thresholds, schedule).value;
    Reachable(thresholds, schedule);
    ScheduleLength(thresholds, schedule);
    if s.main.Finished? {
      FinalValue(thresholds, schedule);
      TotalUniform(Rank, s.workers, 0);
    } else {
      var _ := SomeoneCanMove(thresholds, schedule);
    }
  }

  lemma OneMore(thresholds: seq<int>, schedule: seq<Actor>) returns (longer: seq<Actor>)
    requires After(thresholds, schedule).Some? && !After(thresholds, schedule).value.main.Finished?
    ensures schedule < longer && After(thresholds, longer).Some?
    ensures |longer| <= 5 * Highest(thresholds) + 5 * |thresholds| + 3
  {
    var a := SomeoneCanMove(thresholds, schedule);
    longer := schedule + [a];
    assert longer[..|schedule|] == schedule;
    EveryRunStops(thresholds, longer);
  }

  /** From wherever a schedule has led, the program can still be run to its end. */
  lemma {:induction false} CanFinish(thresholds: seq<int>, schedule: seq<Actor>) returns (longer: seq<Actor>)
    requires After(thresholds, schedule).Some?
    ensures schedule <= longer
    ensures After(thresholds, longer).Some? && After(thresholds, longer).value.main.Finished?
    decreases 5 * Highest(thresholds) + 5 * |thresholds| + 3 - |schedule|
  {
    longer := schedule;
    if !After(thresholds, schedule).value.main.Finished? {
      var next := OneMore(thresholds, schedule);
      longer := CanFinish(thresholds, next);
    }
  }

  // ---- what a finished run has computed ----

  /** Main prints the largest threshold, under every schedule; all workers exited, the semaphore is gone. */
  lemma FinalValue(thresholds: seq<int>, schedule: seq<Actor>)
    requires After(thresholds, schedule).Some? && After(thresholds, schedule).value.main.Finished?
    ensures After(thresholds, schedule).value.main.printed == Highest(thresholds)
    ensures After(thresholds, schedule).value.sharedData == Highest(thresholds)
    ensures After(thresholds, schedule).value.sem == Destroyed
    ensures forall w :: w in After(thresholds, schedule).value.workers ==> w.Exited?
  {
    var s := After(thresholds, schedule).value;
    Reachable(thresholds, schedule);
    if Highest(thresholds) in thresholds {
      var k :| 0 <= k < |thresholds| && thresholds[k] == Highest(thresholds);
      assert Knows(thresholds[k], s.sharedData, s.workers[k]);
    }
  }

  /** While the semaphore lives, its value plus the threads between wait and post is 1, so at most one is inside. */
  lemma SemaphoreLaw(thresholds: seq<int>, schedule: seq<Actor>)
    requires After(thresholds, schedule).Some? && After(thresholds, schedule).value.sem.Live?
    ensures var s := After(thresholds, schedule).value;
      && s.sem.value + Total(Critical, s.workers) == 1
      && forall i, j :: 0 <= i < j < |s.workers| ==> Critical(s.workers[i]) + Critical(s.workers[j]) <= 1
  {
    var s := After(thresholds, schedule).value;
    Reachable(thresholds, schedule);
    forall i, j | 0 <= i < j < |s.workers|
      ensures Critical(s.workers[i]) + Critical(s.workers[j]) <= 1
    {
      TotalPair(Critical, s.workers, i, j);
    }
  }

  /** sem_destroy happens only once every worker has exited, and the value it destroys is 1. */
  lemma DestroyedWhenIdle(thresholds: seq<int>, schedule: seq<Actor>)
    requires After(thresholds, schedule).Some? && After(thresholds, schedule).value.main.AtDestroy?
    ensures After(thresholds, schedule).value.sem == Live(1)
    ensures forall w :: w in After(thresholds, schedule).value.workers ==> w.Exited?
  {
    var s := After(thresholds, schedule).value;
    Reachable(thresholds, schedule);
    TotalUniform(Critical, s.workers, 0);
  }

  /** No update is lost, and no worker stores more increments than its own threshold. */
  lemma NoLostUpdate(thresholds: seq<int>, schedule: seq<Actor>)
    requires After(thresholds, schedule).Some?
    ensures var s := After(thresholds, schedule).value;
      && s.sharedData == Total(Same, s.made)
      && 0 <= s.sharedData <= Highest(thresholds)
      && forall i :: 0 <= i < |s.made| ==> s.made[i] == 0 || s.made[i] <= thresholds[i]
  {
    Reachable(thresholds, schedule);
  }

  // ---- which threads make the increments ----

  lemma Extend(thresholds: seq<int>, schedule: seq<Actor>, a: Actor)
    requires After(thresholds, schedule).Some? && Enabled(After(thresholds, schedule).value, a)
    ensures After(thresholds, schedule + [a]) == Some(Step(thresholds, After(thresholds, schedule).value, a))
  {
    assert (schedule + [a])[..|schedule|] == schedule;
  }

  /** Main initialises the semaphore and creates the first i workers before any of them moves. */
  lemma {:induction false} CreateThem(thresholds: seq<int>, i: nat) returns (schedule: seq<Actor>)
    requires i <= |thresholds|
    ensures After(thresholds, schedule).Some?
    ensures var s := After(thresholds, schedule).value;
      && s.sem == Live(1) && s.sharedData == 0 && s.main == CreateFrom(|thresholds|, i)
      && (forall j :: 0 <= j < |thresholds| ==> s.workers[j] == if j < i then AtWait else Unborn)
      && (forall j :: 0 <= j < |thresholds| ==> s.made[j] == 0)
  {
    if i == 0 {
      Extend(thresholds, [], Main);
      schedule := [] + [Main];
    } else {
      var before := CreateThem(thresholds, i - 1);
      Extend(thresholds, before, Main);
      schedule := before + [Main];
    }
  }

  /** The state after worker i, alone, has gone m times round its loop. */
  function Incremented(s: State, i: nat, m: nat): State
    requires i < |s.made|
  {
    s.(sharedData := s.sharedData + m, made := s.made[i := s.made[i] + m])
  }

  lemma IncrementedAgain(s: State, i: nat, m: nat)
    requires i < |s.made|
    ensures Incremented(s, i, 0) == s
    ensures Incremented(Incremented(s, i, 1), i, m) == Incremented(s, i, m + 1)
  {
    assert s.made[i := s.made[i] + 0] == s.made;
    assert s.made[i := s.made[i] + 1][i := s.made[i] + 1 + m] == s.made[i := s.made[i] + (m + 1)];
  }

  lemma RoundTheLoop(thresholds: seq<int>, schedule: seq<Actor>, i: nat) returns (longer: seq<Actor>)
    requires After(thresholds, schedule).Some? && i < |thresholds|
    requires var s := After(thresholds, schedule).value;
      s.sem == Live(1) && s.workers[i].AtWait? && s.sharedData < thresholds[i]
    ensures After(thresholds, longer) == Some(Incremented(After(thresholds, schedule).value, i, 1))
  {
    var s := After(thresholds, schedule).value;
    var in2 := Halfway(thresholds, schedule, i);
    Extend(thresholds, in2, Work(i));
    Extend(thresholds, in2 + [Work(i)], Work(i));
    longer := in2 + [Work(i)] + [Work(i)];
    assert s.workers[i := AtStore(s.sharedData)][i := AtPost][i := AtWait] == s.workers;
  }

  lemma Halfway(thresholds: seq<int>, schedule: seq<Actor>, i: nat) returns (longer: seq<Actor>)
    requires After(thresholds, schedule).Some? && i < |thresholds|
    requires var s := After(thresholds, schedule).value;
      s.sem == Live(1) && s.workers[i].AtWait? && s.sharedData < thresholds[i]
    ensures var s := After(thresholds, schedule).value;
      After(thresholds, longer) == Some(s.(sem := Live(0), workers := s.workers[i := AtStore(s.sharedData)]))
  {
    var s := After(thresholds, schedule).value;
    Extend(thresholds, schedule, Work(i));
    Extend(thresholds, schedule + [Work(i)], Work(i));
    Extend(thresholds, schedule + [Work(i)] + [Work(i)], Work(i));
    longer := schedule + [Work(i)] + [Work(i)] + [Work(i)];
    assert s.workers[i := AtCheck][i := AtLoad][i := AtStore(s.sharedData)] == s.workers[i := AtStore(s.sharedData)];
  }

  lemma {:induction false} RoundAndRound(thresholds: seq<int>, schedule: seq<Actor>, i: nat, m: nat)
    returns (longer: seq<Actor>)
    requires After(thresholds, schedule).Some? && i < |thresholds|
    requires var s := After(thresholds, schedule).value;
      s.sem == Live(1) && s.workers[i].AtWait? && (m > 0 ==> s.sharedData + m <= thresholds[i])
    ensures After(thresholds, longer) == Some(Incremented(After(thresholds, schedule).value, i, m))
    decreases m
  {
    if m == 0 {
      longer := schedule;
      IncrementedAgain(After(thresholds, schedule).value, i, 0);
    } else {
      IncrementedAgain(After(thresholds, schedule).value, i, m - 1);
      var once := RoundTheLoop(thresholds, schedule, i);
      longer := RoundAndRound(thresholds, once, i, m - 1);
    }
  }

  /** Increments are never taken back. */
  lemma {:induction false} MadeGrows(thresholds: seq<int>, schedule: seq<Actor>, longer: seq<Actor>)
    requires schedule <= longer && After(thresholds, longer).Some?
    ensures After(thresholds, schedule).Some?
    ensures forall i :: 0 <= i < |thresholds| ==>
      After(thresholds, schedule).value.made[i] <= After(thresholds, longer).value.made[i]
    decreases |longer|
  {
    if schedule != longer {
      var before := longer[..|longer| - 1];
      assert schedule <= before;
      MadeGrows(thresholds, schedule, before);
    } else {
      assert schedule == longer;
    }
  }

  predicate Split(thresholds: seq<int>, a: nat, b: nat)
    requires |thresholds| == 2
  {
    a + b == Highest(thresholds) && (a == 0 || a <= thresholds[0]) && (b == 0 || b <= thresholds[1])
  }

  /** With two workers, every finished run splits the increments within the workers' own thresholds. */
  lemma SplitIsBounded(thresholds: seq<int>, schedule: seq<Actor>)
    requires |thresholds| == 2
    requires After(thresholds, schedule).Some? && After(thresholds, schedule).value.main.Finished?
    ensures var made := After(thresholds, schedule).value.made; Split(thresholds, made[0], made[1])
  {
    var s := After(thresholds, schedule).value;
    FinalValue(thresholds, schedule);
    NoLostUpdate(thresholds, schedule);
    assert Total(Same, s.made[1..]) == s.made[1] + Total(Same, s.made[2..]);
  }

  /** The worker with the lower threshold makes its increments first, then the other. */
  lemma OneThenTheOther(thresholds: seq<int>, start: seq<Actor>, i: nat, j: nat, a: nat, b: nat)
    returns (schedule: seq<Actor>)
    requires i < |thresholds| && j < |thresholds| && i != j && After(thresholds, start).Some?
    requires var s := After(thresholds, start).value;
      s.sem == Live(1) && s.sharedData == 0 && s.workers[i].AtWait? && s.workers[j].AtWait?
    requires (a == 0 || a <= thresholds[i]) && (b == 0 || a + b <= thresholds[j])
    ensures After(thresholds, schedule).Some?
    ensures var s, s' := After(thresholds, start).value, After(thresholds, schedule).value;
      s'.made[i] == s.made[i] + a && s'.made[j] == s.made[j] + b
  {
    var first := RoundAndRound(thresholds, start, i, a);
    schedule := RoundAndRound(thresholds, first, j, b);
  }

  lemma MakeSplit(thresholds: seq<int>, a: nat, b: nat) returns (schedule: seq<Actor>)
    requires |thresholds| == 2 && Split(thresholds, a, b)
    ensures After(thresholds, schedule).Some?
    ensures After(thresholds, schedule).value.made[0] == a && After(thresholds, schedule).value.made[1] == b
  {
    var start := CreateThem(thresholds, 2);
    assert Highest(thresholds) == 0 || Highest(thresholds) in [thresholds[0], thresholds[1]] by {
      assert thresholds == [thresholds[0], thresholds[1]];
    }
    if thresholds[0] <= thresholds[1] {
      schedule := OneThenTheOther(thresholds, start, 0, 1, a, b);
    } else {
      schedule := OneThenTheOther(thresholds, start, 1, 0, b, a);
    }
  }

  /** And every such split is the outcome of some complete run. */
  lemma SplitCanHappen(thresholds: seq<int>, a: nat, b: nat) returns (schedule: seq<Actor>)
    requires |thresholds| == 2 && Split(thresholds, a, b)
    ensures After(thresholds, schedule).Some? && After(thresholds, schedule).value.main.Finished?
    ensures After(thresholds, schedule).value.made == [a, b]
  {
    var all := MakeSplit(thresholds, a, b);
    schedule := CanFinish(thresholds, all);
    MadeGrows(thresholds, all, schedule);
    SplitIsBounded(thresholds, schedule);
  }

  // ---- the two programs ----

  const EXP3_2: seq<int> := [100, 5]
  const EXP1_4: seq<int> := [5, 5]

  /** exp3.2 prints 100; its second thread made at most 5 of the increments, its first at least 95. */
  lemma Exp32(schedule: seq<Actor>)
    requires After(EXP3_2, schedule).Some? && After(EXP3_2, schedule).value.main.Finished?
    ensures After(EXP3_2, schedule).value.main.printed == 100
    ensures After(EXP3_2, schedule).value.made[1] <= 5 && After(EXP3_2, schedule).value.made[0] >= 95
    ensures |schedule| == 513
  {
    var s := After(EXP3_2, schedule).value;
    FinalValue(EXP3_2, schedule);
    NoLostUpdate(EXP3_2, schedule);
    EveryRunStops(EXP3_2, schedule);
    assert 100 in EXP3_2;
    assert Total(Same, s.made[1..]) == s.made[1] + Total(Same, s.made[2..]);
  }

  /** The bounds are tight: every split with 0 to 5 increments by the second thread happens in some run. */
  lemma Exp32Splits(b: nat) returns (schedule: seq<Actor>)
    requires b <= 5
    ensures After(EXP3_2, schedule).Some? && After(EXP3_2, schedule).value.main.Finished?
    ensures After(EXP3_2, schedule).value.made == [100 - b, b]
  {
    assert EXP3_2[0] == 100 && EXP3_2[0] in EXP3_2;
    schedule := SplitCanHappen(EXP3_2, 100 - b, b);
  }

  /** exp1.4 prints 5. */
  lemma Exp14(schedule: seq<Actor>)
    requires After(EXP1_4, schedule).Some? && After(EXP1_4, schedule).value.main.Finished?
    ensures After(EXP1_4, schedule).value.main.printed == 5
    ensures |schedule| == 38
  {
    FinalValue(EXP1_4, schedule);
    EveryRunStops(EXP1_4, schedule);
    assert EXP1_4[0] == 5;
    assert 5 in EXP1_4;
  }
}
