/**
 * The doorbell of the BiscuitOS PCI MSI-X device as a protocol: any number of
 * MMIO writes, the interrupt thread and the device's removal take their steps
 * in any order.  A step is one call or one access of shared state.
 */
module Doorbell {

  import opened Memory

  datatype Agent = Writer(i: nat) | Worker | Remover

  /** A write to the doorbell register: the test, then the critical section. */
  datatype WriterPc = Idle | WantLock | AtOr | AtSignal | AtUnlock

  /**
   * The interrupt thread.  Waiting is inside qemu_cond_wait without a signal
   * yet; Woken has to take the mutex again.  WantIo and AtIoUnlock are around
   * the interrupt, under the iothread lock.
   */
  datatype WorkerPc =
    | Top | Testing | Waiting | Woken | StopTest | StopUnlock | GoUnlock
    | AtClear | WantIo | AtRaise | AtIoUnlock | Done

  /** The device's removal. */
  datatype RemoverPc = NotYet | RWantLock | AtStop | RUnlock | RSignal | Joining | Joined

  /**
   * owner holds the mutex, and io the iothread lock.  Whether the removal is
   * called under the iothread lock is up to its caller: underIo.  accepted
   * counts the writes that set the flag, merged those that found it set by
   * another write after their own test had found it clear.
   */
  datatype State = State(
    owner: Option<Agent>, io: Option<Agent>, underIo: bool, computing: bool, stopping: bool,
    writers: seq<WriterPc>, worker: WorkerPc, remover: RemoverPc,
    accepted: nat, merged: nat, raised: nat)

  /** Spurious is a return of qemu_cond_wait nobody signalled. */
  datatype Action = Write(i: nat) | Work | Spurious | Remove

  function Init(n: nat, underIo: bool): State
  {
    State(None, None, underIo, false, false, seq(n, _ => Idle), Top, NotYet, 0, 0, 0)
  }

  /** qemu_cond_signal: only the interrupt thread ever waits. */
  function Signalled(w: WorkerPc): WorkerPc
  {
    if w == Waiting then Woken else w
  }

  // ----------------------------------------------------------------- the steps

  function WriteStep(s: State, i: nat): Option<State>
    requires i < |s.writers|
  {
    match s.writers[i]
    case Idle => if s.computing then Some(s) else Some(s.(writers := s.writers[i := WantLock]))
    case WantLock =>
      if s.owner.Some? then None else Some(s.(owner := Some(Writer(i)), writers := s.writers[i := AtOr]))
    case AtOr =>
      Some(s.(computing := true, accepted := s.accepted + 1, merged := s.merged + (if s.computing then 1 else 0),
              writers := s.writers[i := AtSignal]))
    case AtSignal => Some(s.(worker := Signalled(s.worker), writers := s.writers[i := AtUnlock]))
    case AtUnlock => Some(s.(owner := None, writers := s.writers[i := Idle]))
  }

  function WorkStep(s: State): Option<State>
  {
    match s.worker
    case Top => if s.owner.Some? then None else Some(s.(owner := Some(Worker), worker := Testing))
    case Testing =>
      if !s.computing && !s.stopping then Some(s.(owner := None, worker := Waiting)) else Some(s.(worker := StopTest))
    case Waiting => None
    case Woken => if s.owner.Some? then None else Some(s.(owner := Some(Worker), worker := Testing))
    case StopTest => Some(s.(worker := if s.stopping then StopUnlock else GoUnlock))
    case StopUnlock => Some(s.(owner := None, worker := Done))
    case GoUnlock => Some(s.(owner := None, worker := AtClear))
    case AtClear => Some(s.(computing := false, worker := WantIo))
    case WantIo => if s.io.Some? then None else Some(s.(io := Some(Worker), worker := AtRaise))
    case AtRaise => Some(s.(raised := s.raised + 1, worker := AtIoUnlock))
    case AtIoUnlock => Some(s.(io := None, worker := Top))
    case Done => None
  }

  function RemoveStep(s: State): Option<State>
  {
    match s.remover
    case NotYet =>
      if !s.underIo then Some(s.(remover := RWantLock))
      else if s.io.Some? then None
      else Some(s.(io := Some(Remover), remover := RWantLock))
    case RWantLock => if s.owner.Some? then None else Some(s.(owner := Some(Remover), remover := AtStop))
    case AtStop => Some(s.(stopping := true, remover := RUnlock))
    case RUnlock => Some(s.(owner := None, remover := RSignal))
    case RSignal => Some(s.(worker := Signalled(s.worker), remover := Joining))
    case Joining => if s.worker == Done then Some(s.(remover := Joined)) else None
    case Joined => None
  }

  function Step(s: State, a: Action): Option<State>
  {
    match a
    case Write(i) => if i < |s.writers| then WriteStep(s, i) else None
    case Work => WorkStep(s)
    case Spurious => if s.worker == Waiting then Some(s.(worker := Woken)) else None
    case Remove => RemoveStep(s)
  }

  /** The state after a schedule, if every step of it can be taken. */
  function After(s: State, run: seq<Action>): Option<State>
    decreases |run|
  {
    if run == [] then Some(s) else
    var t := After(s, run[..|run| - 1]);
    if t == None then None else Step(t.value, run[|run| - 1])
  }

  // --------------------------------------------------------------- invariants

  predicate Holds(s: State, g: Agent)
  {
    match g
    case Writer(i) => i < |s.writers| && (s.writers[i].AtOr? || s.writers[i].AtSignal? || s.writers[i].AtUnlock?)
    case Worker => (s.worker.Testing? || s.worker.StopTest? || s.worker.StopUnlock? || s.worker.GoUnlock?)
    case Remover => (s.remover.AtStop? || s.remover.RUnlock?)
  }

  function One(b: bool): nat { if b then 1 else 0 }

  /** The mutex is held by whoever is inside a critical section. */
  ghost predicate MutexOk(s: State)
  {
    forall g: Agent {:trigger Holds(s, g)} :: Holds(s, g) <==> s.owner == Some(g)
  }

  /** The iothread lock is with the thread around the interrupt, or with the removal. */
  predicate IoOk(s: State)
  {
    && (s.io == Some(Worker) <==> (s.worker.AtRaise? || s.worker.AtIoUnlock?))
    && (s.io == Some(Remover) <==> s.underIo && s.remover != NotYet)
    && (s.io.Some? ==> !s.io.value.Writer?)
  }

  lemma IoWrite(s: State, i: nat)
    requires IoOk(s) && i < |s.writers| && WriteStep(s, i).Some?
    ensures IoOk(WriteStep(s, i).value)
  {
    match s.writers[i]
    case AtSignal => assert WriteStep(s, i).value.worker.Waiting? ==> false;
    case _ =>
  }

  lemma IoWork(s: State)
    requires IoOk(s) && WorkStep(s).Some?
    ensures IoOk(WorkStep(s).value)
  {
  }

  lemma IoRemove(s: State)
    requires IoOk(s) && RemoveStep(s).Some?
    ensures IoOk(RemoveStep(s).value)
  {
  }

  ghost predicate Inv(s: State)
  {
    && MutexOk(s) && IoOk(s)
    // Every doorbell accepted is raised, pending, being raised, or merged into a pending one.
    && s.accepted == s.raised + s.merged + One(s.computing) + One((s.worker.WantIo? || s.worker.AtRaise?))
    // The flag stays up until the thread clears it.
    && ((s.worker.GoUnlock? || s.worker.AtClear?) ==> s.computing)
    && (s.worker == StopTest ==> s.computing || s.stopping)
    // No wake-up is lost.
    && (s.worker == Waiting && s.computing ==> s.owner.Some? && s.owner.value.Writer? && Holds(s, s.owner.value)
                                               && s.writers[s.owner.value.i] == AtSignal)
    && (s.worker == Waiting && s.stopping ==> (s.remover.RUnlock? || s.remover.RSignal?))
    // Removal.
    && (s.stopping <==> (s.remover.RUnlock? || s.remover.RSignal? || s.remover.Joining? || s.remover.Joined?))
    && ((s.worker.StopUnlock? || s.worker.Done?) ==> s.stopping)
    && (s.remover == Joined ==> s.worker == Done)
  }

  lemma InitInv(n: nat, underIo: bool)
    ensures Inv(Init(n, underIo))
  {
  }

  lemma StepInv(s: State, a: Action)
    requires Inv(s) && Step(s, a).Some?
    ensures Inv(Step(s, a).value)
  {
    match a
    case Write(i) => WriteInv(s, i);
    case Work => WorkInv(s);
    case Spurious =>
      var t := Step(s, a).value;
      assert forall g: Agent {:trigger Holds(t, g)} :: Holds(t, g) <==> Holds(s, g);
    case Remove => RemoveInv(s);
  }

  lemma WriteInv(s: State, i: nat)
    requires Inv(s) && i < |s.writers| && WriteStep(s, i).Some?
    ensures Inv(WriteStep(s, i).value)
  {
    assert Holds(s, Writer(i)) <==> s.owner == Some(Writer(i));
    assert Holds(s, Worker) <==> s.owner == Some(Worker);
    IoWrite(s, i);
    MutexWrite(s, i);
    hide IoOk, MutexOk;
  }

  lemma MutexWrite(s: State, i: nat)
    requires MutexOk(s) && i < |s.writers| && WriteStep(s, i).Some?
    ensures MutexOk(WriteStep(s, i).value)
  {
    var t := WriteStep(s, i).value;
    assert Holds(s, Writer(i)) <==> s.owner == Some(Writer(i));
    forall g: Agent ensures Holds(t, g) <==> t.owner == Some(g) {
      assert Holds(s, g) <==> s.owner == Some(g);
    }
  }

  lemma WorkInv(s: State)
    requires Inv(s) && WorkStep(s).Some?
    ensures Inv(WorkStep(s).value)
  {
    assert Holds(s, Worker) <==> s.owner == Some(Worker);
    assert Holds(s, Remover) <==> s.owner == Some(Remover);
    IoWork(s);
    MutexWork(s);
    hide IoOk, MutexOk;
  }

  lemma MutexWork(s: State)
    requires MutexOk(s) && WorkStep(s).Some?
    ensures MutexOk(WorkStep(s).value)
  {
    var t := WorkStep(s).value;
    assert Holds(s, Worker) <==> s.owner == Some(Worker);
    forall g: Agent ensures Holds(t, g) <==> t.owner == Some(g) {
      assert Holds(s, g) <==> s.owner == Some(g);
    }
  }

  lemma RemoveInv(s: State)
    requires Inv(s) && RemoveStep(s).Some?
    ensures Inv(RemoveStep(s).value)
  {
    assert Holds(s, Worker) <==> s.owner == Some(Worker);
    assert Holds(s, Remover) <==> s.owner == Some(Remover);
    IoRemove(s);
    MutexRemove(s);
    hide IoOk, MutexOk;
  }

  lemma MutexRemove(s: State)
    requires MutexOk(s) && RemoveStep(s).Some?
    ensures MutexOk(RemoveStep(s).value)
  {
    var t := RemoveStep(s).value;
    assert Holds(s, Remover) <==> s.owner == Some(Remover);
    forall g: Agent ensures Holds(t, g) <==> t.owner == Some(g) {
      assert Holds(s, g) <==> s.owner == Some(g);
    }
  }

  /** Every state of every schedule. */
  lemma {:induction false} EverySchedule(n: nat, underIo: bool, run: seq<Action>)
    requires After(Init(n, underIo), run).Some?
    ensures Inv(After(Init(n, underIo), run).value)
  {
    hide Inv, Step;
    if run == [] {
      InitInv(n, underIo);
    } else {
      EverySchedule(n, underIo, run[..|run| - 1]);
      StepInv(After(Init(n, underIo), run[..|run| - 1]).value, run[|run| - 1]);
    }
  }

  // -------------------------------------------------- writes one after another

  /** MMIO writes are serialised: one starts only when no other is under way. */
  ghost predicate InTurn(s: State, a: Action)
  {
    a.Write? && a.i < |s.writers| && s.writers[a.i] == Idle ==> forall k :: 0 <= k < |s.writers| ==> s.writers[k] == Idle
  }

  ghost predicate Serial(s: State, run: seq<Action>)
  {
    forall k {:trigger run[k]} :: 0 <= k < |run| && After(s, run[..k]).Some? ==> InTurn(After(s, run[..k]).value, run[k])
  }

  /** At most one write under way, and the flag still down until it sets it. */
  ghost predicate OneWriter(s: State)
  {
    && s.merged == 0
    && (forall j, k :: 0 <= j < k < |s.writers| ==> s.writers[j] == Idle || s.writers[k] == Idle)
    && (forall k :: 0 <= k < |s.writers| && (s.writers[k].WantLock? || s.writers[k].AtOr?) ==> !s.computing)
  }

  lemma OneWriterStep(s: State, a: Action)
    requires OneWriter(s) && InTurn(s, a) && Step(s, a).Some?
    ensures OneWriter(Step(s, a).value)
  {
    if a.Write? { OneWriterWrite(s, a.i); }
    hide WriteStep;
  }

  lemma OneWriterWrite(s: State, i: nat)
    requires OneWriter(s) && InTurn(s, Write(i)) && i < |s.writers| && WriteStep(s, i).Some?
    ensures OneWriter(WriteStep(s, i).value)
  {
  }

  lemma {:induction false} SerialSchedule(n: nat, underIo: bool, run: seq<Action>)
    requires After(Init(n, underIo), run).Some? && Serial(Init(n, underIo), run)
    ensures OneWriter(After(Init(n, underIo), run).value)
  {
    if run != [] {
      var most := run[..|run| - 1];
      forall k | 0 <= k < |most| && After(Init(n, underIo), most[..k]).Some? ensures InTurn(After(Init(n, underIo), most[..k]).value, most[k]) {
        assert most[..k] == run[..k] && run[k] == most[k];
      }
      SerialSchedule(n, underIo, most);
      assert run[|run| - 1] == run[|run| - 1];
      OneWriterStep(After(Init(n, underIo), most).value, run[|run| - 1]);
    }
  }

  /** Every doorbell accepted so far was raised, is pending, or is being raised. */
  predicate Conserved(s: State)
  {
    s.accepted == s.raised + One(s.computing) + One((s.worker.WantIo? || s.worker.AtRaise?))
  }

  /** A write sets the flag that is set already: another write came between its test and its critical section. */
  predicate Merges(s: State, a: Action)
  {
    a.Write? && a.i < |s.writers| && s.writers[a.i] == AtOr && s.computing
  }

  ghost predicate NoMerge(s: State, run: seq<Action>)
  {
    forall k {:trigger run[k]} :: 0 <= k < |run| && After(s, run[..k]).Some? ==> !Merges(After(s, run[..k]).value, run[k])
  }

  lemma MergedStep(s: State, a: Action)
    requires Step(s, a).Some?
    ensures Step(s, a).value.merged == s.merged + One(Merges(s, a))
  {
  }

  lemma {:induction false} MergedCounts(n: nat, underIo: bool, run: seq<Action>)
    requires After(Init(n, underIo), run).Some?
    ensures After(Init(n, underIo), run).value.merged == 0 <==> NoMerge(Init(n, underIo), run)
  {
    hide Step, Merges;
    if run != [] {
      var m := |run| - 1;
      var most := run[..m];
      MergedCounts(n, underIo, most);
      MergedStep(After(Init(n, underIo), most).value, run[m]);
      forall k | 0 <= k < m ensures run[..k] == most[..k] && run[k] == most[k] { }
      if NoMerge(Init(n, underIo), run) {
        forall k | 0 <= k < m && After(Init(n, underIo), most[..k]).Some? ensures !Merges(After(Init(n, underIo), most[..k]).value, most[k]) {
          assert run[k] == most[k];
        }
        assert !Merges(After(Init(n, underIo), run[..m]).value, run[m]);
      }
      if NoMerge(Init(n, underIo), most) && !Merges(After(Init(n, underIo), most).value, run[m]) {
        forall k | 0 <= k < |run| && After(Init(n, underIo), run[..k]).Some? ensures !Merges(After(Init(n, underIo), run[..k]).value, run[k]) {
          if k < m { assert most[k] == run[k]; }
        }
      }
    }
  }

  /** No doorbell is lost, before or after the stop, if and only if no write sets a flag already set. */
  lemma DoorbellsConserved(n: nat, underIo: bool, run: seq<Action>)
    requires After(Init(n, underIo), run).Some?
    ensures Conserved(After(Init(n, underIo), run).value) <==> NoMerge(Init(n, underIo), run)
  {
    EverySchedule(n, underIo, run);
    MergedCounts(n, underIo, run);
  }

  /** Serialised writes never do. */
  lemma SerialConserves(n: nat, underIo: bool, run: seq<Action>)
    requires After(Init(n, underIo), run).Some? && Serial(Init(n, underIo), run)
    ensures Conserved(After(Init(n, underIo), run).value) && NoMerge(Init(n, underIo), run)
  {
    EverySchedule(n, underIo, run);
    SerialSchedule(n, underIo, run);
    MergedCounts(n, underIo, run);
  }

  lemma Go(s0: State, run: seq<Action>, s: State, a: Action) returns (more: seq<Action>, t: State)
    requires After(s0, run) == Some(s) && Step(s, a).Some?
    ensures After(s0, more) == Some(t) && Some(t) == Step(s, a)
  {
    more, t := run + [a], Step(s, a).value;
    assert more[..|run|] == run;
  }

  /** Conservation fails of writes that overlap: two can pass the test before either sets the flag. */
  lemma OverlapMerges() returns (run: seq<Action>)
    ensures After(Init(2, false), run).Some?
    ensures var s := After(Init(2, false), run).value;
            s.accepted == 2 && s.merged == 1 && s.raised == 0 && s.computing && s.worker == Top && !Conserved(s)
  {
    var s0 := Init(2, false);
    var s;
    assert After(s0, []) == Some(s0);
    hide After;
    run, s := Go(s0, [], s0, Write(0));
    run, s := Go(s0, run, s, Write(1));
    run, s := Go(s0, run, s, Write(0));
    run, s := Go(s0, run, s, Write(0));
    run, s := Go(s0, run, s, Write(0));
    run, s := Go(s0, run, s, Write(0));
    run, s := Go(s0, run, s, Write(1));
    run, s := Go(s0, run, s, Write(1));
  }

  /** The same step k times. */
  function Times(a: Action, k: nat): seq<Action>
  {
    seq(k, _ => a)
  }

  lemma TimesMore(s0: State, a: Action, k: nat, s: State)
    requires After(s0, Times(a, k)) == Some(s)
    ensures After(s0, Times(a, k + 1)) == Step(s, a)
  {
    assert Times(a, k + 1)[..k] == Times(a, k);
  }

  lemma RingSteps(s: State, i: nat) returns (t1: State, t2: State, t3: State, t4: State)
    requires i < |s.writers| && s.writers[i] == Idle && s.owner == None && !s.computing
    ensures var w := Write(i);
            Step(s, w) == Some(t1) && Step(t1, w) == Some(t2) && Step(t2, w) == Some(t3) && Step(t3, w) == Some(t4)
    ensures Step(t4, Write(i)) == Some(s.(computing := true, accepted := s.accepted + 1, worker := Signalled(s.worker)))
  {
    t1 := s.(writers := s.writers[i := WantLock]);
    t2 := s.(owner := Some(Writer(i)), writers := s.writers[i := AtOr]);
    var done := s.(owner := Some(Writer(i)), computing := true, accepted := s.accepted + 1);
    t3 := done.(writers := s.writers[i := AtSignal]);
    t4 := done.(worker := Signalled(s.worker), writers := s.writers[i := AtUnlock]);
    assert t1.writers[i := AtOr] == t2.writers;
    assert t2.writers[i := AtSignal] == t3.writers;
    assert t3.writers[i := AtUnlock] == t4.writers;
    assert t4.writers[i := Idle] == s.writers;
  }

  /**
   * A write that meets no other: with the flag up its one step does nothing; with the flag down its
   * five steps have it accepted, even after the stop request, and a waiting thread awake.
   */
  lemma RingAlone(s: State, i: nat)
    requires i < |s.writers| && s.writers[i] == Idle && s.owner == None
    ensures s.computing ==> After(s, Times(Write(i), 1)) == Some(s)
    ensures !s.computing ==>
              After(s, Times(Write(i), 5)) == Some(s.(computing := true, accepted := s.accepted + 1,
                                                      worker := if s.worker == Waiting then Woken else s.worker))
  {
    var w := Write(i);
    assert After(s, Times(w, 0)) == Some(s);
    hide After, Times;
    TimesMore(s, w, 0, s);
    if !s.computing {
      hide Step;
      var t1, t2, t3, t4 := RingSteps(s, i);
      TimesMore(s, w, 1, t1);
      TimesMore(s, w, 2, t2);
      TimesMore(s, w, 3, t3);
      TimesMore(s, w, 4, t4);
    }
  }

  lemma OneMore(s0: State, run: seq<Action>, a: Action)
    requires After(s0, run).Some?
    ensures After(s0, run + [a]) == Step(After(s0, run).value, a)
  {
    assert (run + [a])[..|run|] == run;
  }

  /** The thread may wake for nothing; finding neither flag nor stop request it waits again, and nothing was raised. */
  lemma WokenForNothing(s: State) returns (run: seq<Action>)
    requires s.worker == Waiting && s.owner == None && !s.computing && !s.stopping
    ensures |run| == 3 && run[0] == Spurious && run[1] == Work && run[2] == Work && After(s, run) == Some(s)
  {
    run := [];
    assert After(s, run) == Some(s);
    hide After;
    OneMore(s, run, Spurious);
    run := run + [Spurious];
    OneMore(s, run, Work);
    run := run + [Work];
    OneMore(s, run, Work);
    run := run + [Work];
  }

  // ------------------------------------------------------- waiting and stopping

  /**
   * The thread never waits for a wake-up that was already due: with the flag
   * or the stop request set, whoever set it has yet to signal.
   */
  lemma NoLostWakeup(n: nat, underIo: bool, run: seq<Action>)
    requires After(Init(n, underIo), run).Some?
    ensures var s := After(Init(n, underIo), run).value;
            s.worker == Waiting && (s.computing || s.stopping) ==>
              (s.remover.RUnlock? || s.remover.RSignal?) || exists i :: 0 <= i < |s.writers| && s.writers[i] == AtSignal
  {
    EverySchedule(n, underIo, run);
  }

  /** How many steps the thread has left once the stop is requested. */
  function StepsLeft(w: WorkerPc): nat
  {
    match w
    case GoUnlock => 9
    case AtClear => 8
    case WantIo => 7
    case AtRaise => 6
    case AtIoUnlock => 5
    case Waiting => 5
    case Woken => 4
    case Top => 4
    case Testing => 3
    case StopTest => 2
    case StopUnlock => 1
    case Done => 0
  }

  /** After the stop request each step of the thread brings it nearer its end; nothing else sets it back. */
  lemma StopProgress(s: State, a: Action)
    requires Inv(s) && s.stopping && Step(s, a).Some?
    ensures var t := Step(s, a).value;
            t.stopping && StepsLeft(t.worker) <= StepsLeft(s.worker) &&
            (a == Work ==> StepsLeft(t.worker) < StepsLeft(s.worker))
  {
  }

  /** The step of the agent inside the critical section. */
  function Owner(s: State): Action
    requires s.owner.Some?
  {
    match s.owner.value
    case Writer(i) => Write(i)
    case Worker => Work
    case Remover => Remove
  }

  /** Anything but a fresh write. */
  predicate Finishing(s: State, a: Action)
  {
    a.Write? ==> a.i < |s.writers| && s.writers[a.i] != Idle
  }

  lemma OwnerRuns(s: State)
    requires Inv(s) && s.owner.Some?
    ensures Step(s, Owner(s)).Some? && Finishing(s, Owner(s))
  {
    assert Holds(s, s.owner.value);
  }

  /** The thread wants the lock the removal holds, the removal waits for the thread, and nothing else is under way. */
  ghost predicate Stuck(s: State)
  {
    s.worker == WantIo && s.io == Some(Remover) && s.remover == Joining && forall i :: 0 <= i < |s.writers| ==> s.writers[i] == Idle
  }

  /** Until the join returns, some step can be taken that is not a fresh write, unless the two wait for each other. */
  lemma NoDeadlock(s: State)
    requires Inv(s) && s.remover != Joined
    ensures (exists a: Action :: Finishing(s, a) && Step(s, a).Some?) <==> !Stuck(s)
  {
    if s.owner.Some? {
      OwnerRuns(s);
    } else if s.worker == WantIo && s.io == Some(Remover) && s.remover == Joining {
      if i :| 0 <= i < |s.writers| && s.writers[i] != Idle { WriterRuns(s, i); }
    } else {
      assert Finishing(s, Remove) && Finishing(s, Work);
      assert Step(s, Remove).Some? || Step(s, Work).Some?;
    }
  }

  lemma WriterRuns(s: State, i: nat)
    requires Inv(s) && s.owner == None && i < |s.writers| && s.writers[i] != Idle
    ensures Finishing(s, Write(i)) && Step(s, Write(i)).Some?
  {
    assert !Holds(s, Writer(i));
  }

  function RemoverLeft(r: RemoverPc): nat
  {
    match r
    case NotYet => 6
    case RWantLock => 5
    case AtStop => 4
    case RUnlock => 3
    case RSignal => 2
    case Joining => 1
    case Joined => 0
  }

  function WritersLeft(ws: seq<WriterPc>): nat
  {
    if ws == [] then 0 else
    (match ws[0] case Idle => 0 case WantLock => 4 case AtOr => 3 case AtSignal => 2 case AtUnlock => 1) + WritersLeft(ws[1..])
  }

  lemma {:induction false} WritersLeftAt(ws: seq<WriterPc>, i: nat, w: WriterPc)
    requires i < |ws|
    ensures WritersLeft(ws[i := w]) + WritersLeft([ws[i]]) == WritersLeft(ws) + WritersLeft([w])
  {
    if i == 0 {
      assert ws[0 := w][1..] == ws[1..];
    } else {
      WritersLeftAt(ws[1..], i - 1, w);
      assert ws[i := w][1..] == ws[1..][i - 1 := w];
    }
  }

  /** Bounds every schedule after the stop request, short of fresh writes. */
  function Left(s: State): nat
  {
    StepsLeft(s.worker) + RemoverLeft(s.remover) + WritersLeft(s.writers)
  }

  lemma WriterLess(s: State, i: nat)
    requires i < |s.writers| && s.writers[i] != Idle && WriteStep(s, i).Some?
    ensures var t := WriteStep(s, i).value;
            WritersLeft(t.writers) < WritersLeft(s.writers) && t.remover == s.remover && t.stopping == s.stopping
  {
    WritersLeftAt(s.writers, i, WriteStep(s, i).value.writers[i]);
  }

  lemma RemoverLess(s: State)
    requires RemoveStep(s).Some?
    ensures var t := RemoveStep(s).value; RemoverLeft(t.remover) < RemoverLeft(s.remover) && t.writers == s.writers
  {
  }

  lemma ThreadOnly(s: State)
    requires WorkStep(s).Some?
    ensures var t := WorkStep(s).value; t.remover == s.remover && t.writers == s.writers && t.stopping == s.stopping
  {
  }

  lemma LeftStep(s: State, a: Action)
    requires Inv(s) && s.stopping && Finishing(s, a) && Step(s, a).Some?
    ensures Left(Step(s, a).value) < Left(s) && Step(s, a).value.stopping
  {
    StopProgress(s, a);
    hide Inv, WriteStep, WorkStep, RemoveStep, WritersLeft, RemoverLeft;
    match a
    case Write(i) => WriterLess(s, i);
    case Work => ThreadOnly(s);
    case Spurious =>
    case Remove => RemoverLess(s);
  }

  ghost predicate Finishes(s: State, run: seq<Action>)
  {
    forall k {:trigger run[k]} :: 0 <= k < |run| && After(s, run[..k]).Some? ==> Finishing(After(s, run[..k]).value, run[k])
  }

  /** The stop came too late for the thread to see it before it wants the lock the removal holds. */
  predicate Doomed(s: State)
  {
    s.underIo && (s.worker.GoUnlock? || s.worker.AtClear? || s.worker.WantIo?)
  }

  lemma DoomedStep(s: State, a: Action)
    requires Inv(s) && s.stopping && Step(s, a).Some?
    ensures Step(s, a).value.stopping && (Doomed(Step(s, a).value) <==> Doomed(s))
  {
  }

  /** It stays so, or it never comes to it; doomed removals do not complete. */
  lemma {:induction false} DoomedRuns(s: State, run: seq<Action>)
    requires Inv(s) && s.stopping && After(s, run).Some?
    ensures var t := After(s, run).value; Inv(t) && t.stopping && (Doomed(t) <==> Doomed(s)) && (Doomed(s) ==> t.remover != Joined)
    decreases |run|
  {
    hide Inv, Step, Doomed;
    if run != [] {
      DoomedRuns(s, run[..|run| - 1]);
      var m := After(s, run[..|run| - 1]).value;
      DoomedStep(m, run[|run| - 1]);
      StepInv(m, run[|run| - 1]);
    }
    var t := After(s, run).value;
    assert Inv(t) && (Doomed(t) <==> Doomed(s));
    if Doomed(t) { NotJoined(t); }
  }

  lemma NotJoined(s: State)
    requires Inv(s) && Doomed(s)
    ensures s.remover != Joined
  {
  }

  /**
   * Once the stop is requested, no schedule without fresh writes is longer
   * than Left; and unless the removal is doomed none ends before the join.
   */
  lemma {:induction false} RemovalEnds(s: State, run: seq<Action>)
    requires Inv(s) && s.stopping && After(s, run).Some? && Finishes(s, run)
    ensures var t := After(s, run).value; Inv(t) && t.stopping && |run| + Left(t) <= Left(s)
    ensures !Doomed(s) ==> After(s, run).value.remover == Joined
                           || exists a: Action :: Finishing(After(s, run).value, a) && Step(After(s, run).value, a).Some?
    decreases |run|
  {
    hide Inv, Step, Left, Doomed;
    if run != [] {
      var most := run[..|run| - 1];
      forall k | 0 <= k < |most| && After(s, most[..k]).Some? ensures Finishing(After(s, most[..k]).value, most[k]) {
        assert most[..k] == run[..k] && run[k] == most[k];
      }
      RemovalEnds(s, most);
      var m := After(s, most).value;
      assert Finishing(m, run[|run| - 1]);
      LeftStep(m, run[|run| - 1]);
      StepInv(m, run[|run| - 1]);
    }
    DoomedRuns(s, run);
    var t := After(s, run).value;
    if t.remover != Joined {
      NoDeadlock(t);
      if Stuck(t) { StuckDoomed(t); }
    }
  }

  lemma StuckDoomed(s: State)
    requires Inv(s) && Stuck(s)
    ensures Doomed(s)
  {
  }

  /** A schedule in which the removal, called under the iothread lock, and the thread wait for each other. */
  lemma LockedOut() returns (run: seq<Action>)
    ensures After(Init(1, true), run).Some?
    ensures var s := After(Init(1, true), run).value;
            Stuck(s) && s.stopping && s.accepted == 1 && s.raised == 0 && forall a: Action :: Finishing(s, a) ==> Step(s, a).None?
  {
    var s0 := Init(1, true);
    hide After;
    var s;
    run, s := RingOnce(s0);
    run, s := SetOut(s0, run, s);
    run, s := Retire(s0, run, s);
    run, s := Go(s0, run, s, Work);
  }

  /** The thread finds the flag and leaves its critical section. */
  lemma SetOut(s0: State, run: seq<Action>, s: State) returns (more: seq<Action>, t: State)
    requires After(s0, run) == Some(s) && s == Init(1, true).(computing := true, accepted := 1)
    ensures After(s0, more) == Some(t) && t == s.(worker := AtClear)
  {
    hide After;
    more, t := Go(s0, run, s, Work);
    more, t := Go(s0, more, t, Work);
    more, t := Go(s0, more, t, Work);
    more, t := Go(s0, more, t, Work);
  }

  /** The removal, up to the join. */
  lemma Retire(s0: State, run: seq<Action>, s: State) returns (more: seq<Action>, t: State)
    requires After(s0, run) == Some(s) && s == Init(1, true).(computing := true, accepted := 1, worker := AtClear)
    ensures After(s0, more) == Some(t) && t == s.(io := Some(Remover), stopping := true, remover := Joining)
  {
    hide After;
    more, t := Go(s0, run, s, Remove);
    more, t := Go(s0, more, t, Remove);
    more, t := Go(s0, more, t, Remove);
    more, t := Go(s0, more, t, Remove);
    more, t := Go(s0, more, t, Remove);
  }

  /** One write from its test to its unlock. */
  lemma RingOnce(s0: State) returns (run: seq<Action>, s: State)
    requires s0 == Init(1, true)
    ensures After(s0, run) == Some(s) && s == s0.(computing := true, accepted := 1)
  {
    assert After(s0, []) == Some(s0);
    hide After;
    run, s := Go(s0, [], s0, Write(0));
    run, s := Go(s0, run, s, Write(0));
    run, s := Go(s0, run, s, Write(0));
    run, s := Go(s0, run, s, Write(0));
    run, s := Go(s0, run, s, Write(0));
    assert s.writers == s0.writers;
  }

  lemma {:induction false} AfterTwo(s: State, run: seq<Action>, more: seq<Action>)
    requires After(s, run).Some? && After(After(s, run).value, more).Some?
    ensures After(s, run + more) == After(After(s, run).value, more)
    decreases |more|
  {
    if more == [] {
      assert run + more == run;
    } else {
      AfterTwo(s, run, more[..|more| - 1]);
      assert (run + more)[..|run + more| - 1] == run + more[..|more| - 1];
    }
  }

  /** A removal that is not doomed can be brought to its end. */
  lemma {:induction false} Completes(s: State) returns (run: seq<Action>)
    requires Inv(s) && s.stopping && !Doomed(s)
    ensures After(s, run).Some? && After(s, run).value.remover == Joined
    decreases Left(s)
  {
    hide Inv, Step, Left, Doomed, Stuck;
    run := [];
    if s.remover != Joined {
      NoDeadlock(s);
      if Stuck(s) { StuckDoomed(s); }
      var a: Action :| Finishing(s, a) && Step(s, a).Some?;
      var t := Step(s, a).value;
      LeftStep(s, a);
      DoomedStep(s, a);
      StepInv(s, a);
      var rest := Completes(t);
      assert [a][..0] == [];
      assert After(s, [a]) == Step(s, a);
      AfterTwo(s, [a], rest);
      run := [a] + rest;
    }
  }

  /**
   * When a removal can complete: if and only if its caller does not hold the
   * iothread lock, or the stop request finds the thread not on its way to raise.
   */
  lemma RemovalCompletes(n: nat, underIo: bool, before: seq<Action>)
    requires After(Init(n, underIo), before).Some? && After(Init(n, underIo), before).value.stopping
    ensures var s := After(Init(n, underIo), before).value;
            (exists run :: After(s, run).Some? && After(s, run).value.remover == Joined) <==> !Doomed(s)
  {
    EverySchedule(n, underIo, before);
    var s := After(Init(n, underIo), before).value;
    hide Inv, Doomed;
    if Doomed(s) {
      forall run | After(s, run).Some? ensures After(s, run).value.remover != Joined { DoomedRuns(s, run); }
    } else {
      var run := Completes(s);
    }
  }

  function PastTest(w: WorkerPc): nat
  {
    One((w.GoUnlock? || w.AtClear? || w.WantIo? || w.AtRaise?))
  }

  lemma LateStep(s: State, a: Action)
    requires Inv(s) && s.stopping && Step(s, a).Some?
    ensures var t := Step(s, a).value; t.stopping && t.raised + PastTest(t.worker) <= s.raised + PastTest(s.worker)
  {
    if a.Work? { LateWork(s); }
    hide WorkStep;
  }

  lemma LateWork(s: State)
    requires s.stopping && WorkStep(s).Some?
    ensures var t := WorkStep(s).value; t.stopping && t.raised + PastTest(t.worker) <= s.raised + PastTest(s.worker)
  {
  }

  lemma LateRuns(s: State, run: seq<Action>)
    requires Inv(s) && s.stopping && After(s, run).Some?
    ensures var t := After(s, run).value;
            Inv(t) && t.stopping && t.raised + PastTest(t.worker) <= s.raised + PastTest(s.worker)
            && (s.remover == Joined ==> t.remover == Joined && t.raised == s.raised)
    decreases |run|
  {
    if run != [] {
      LateRuns(s, run[..|run| - 1]);
      var m := After(s, run[..|run| - 1]).value;
      StepInv(m, run[|run| - 1]);
      LateStep(m, run[|run| - 1]);
    }
  }

  /** After the stop request at most one more interrupt is raised, and after the join none. */
  lemma NoneAfterJoin(n: nat, underIo: bool, before: seq<Action>, run: seq<Action>)
    requires After(Init(n, underIo), before).Some? && After(Init(n, underIo), before).value.stopping
    requires After(After(Init(n, underIo), before).value, run).Some?
    ensures var s, t := After(Init(n, underIo), before).value, After(After(Init(n, underIo), before).value, run).value;
            t.raised <= s.raised + 1 && (s.remover == Joined ==> t.raised == s.raised)
  {
    EverySchedule(n, underIo, before);
    LateRuns(After(Init(n, underIo), before).value, run);
  }
}
