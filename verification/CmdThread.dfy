/** The command queue, its thread (core/rtw_cmd.c) and everybody who shares the power lock with
    it, as one interleaving of atomic steps.  A step is one locked section or one read of shared
    state; a step that is not enabled leaves the system unchanged. */
module CmdThread {
  import opened PwrCtrl

  type CmdId = nat

  /** Where the command thread is in its loop. */
  datatype Pc =
    | Wait                 // at down(cmd_queue_sema)
    | AfterDown            // about to read stop_req
    | QueueCheck           // about to test the queue for empty
    | Registering          // about to call rtw_register_cmd_alive
    | Next                 // about to dequeue
    | Process(cmd: CmdId)  // running a dequeued command
    | Unregistering        // about to call rtw_unregister_cmd_alive
    | Drain                // loop left: dropping what is queued
    | DrainUnregister
    | Done

  /** Where the RPWM time-out work item is. */
  datatype Work = Idle | Checked | FoundAwake | FoundAsleep

  datatype Queue = Queue(
    pc: Pc,
    list: seq<CmdId>,
    sema: nat,
    pendingUps: nat,       // enqueuers between their insert and their up
    stopReq: bool,
    inserted: seq<CmdId>,  // history: everything inserted, in order
    executed: seq<CmdId>,  // history: commands run to the end
    dropped: seq<CmdId>)   // history: commands freed by the drain loop

  /** `lowReport` is history: some accepted CPWM report was below S2. */
  datatype System = System(q: Queue, pwr: Power, work: Work, lowReport: bool)

  const START := System(Queue(Wait, [], 0, 0, false, [], [], []), INITIAL, Idle, false)

  datatype Step =
    | Enqueue(cmd: CmdId, pass: bool)  // rtw_cmd_filter, then the locked list insert
    | Up
    | RequestStop
    | Thread(semaFails: bool, hold: bool)
    | Other(event: PowerEvent)
    | Irq(state: nat)
    | Timeout(hwAwake: bool)

  /** Everybody else who takes the power lock. */
  datatype PowerEvent =
    | TxRegister
    | TxUnregister(hold: bool)
    | BtRegister
    | BtUnregister(hold: bool)
    | RxMark(on: bool)
    | EvtMark(on: bool)
    | PsMode(req: PsRequest)

  /** One move of the command thread; `ok` is what rtw_register_cmd_alive answers. */
  function ThreadMove(q: Queue, semaFails: bool, ok: bool): Queue {
    match q.pc
    case Wait =>
      if semaFails then q.(pc := Drain)
      else if q.sema == 0 then q
      else q.(sema := q.sema - 1, pc := AfterDown)
    case AfterDown => q.(pc := if q.stopReq then Drain else QueueCheck)
    case QueueCheck => q.(pc := if q.list == [] then Wait else Registering)
    case Registering => q.(pc := if ok then Next else Wait)
    case Next =>
      if q.list == [] then q.(pc := Unregistering)
      else q.(pc := Process(q.list[0]), list := q.list[1..])
    case Process(c) => q.(executed := q.executed + [c], pc := Next)
    case Unregistering => q.(pc := Wait)
    case Drain =>
      if q.list == [] then q.(pc := DrainUnregister)
      else q.(dropped := q.dropped + [q.list[0]], list := q.list[1..])
    case DrainUnregister => q.(pc := Done)
    case Done => q
  }

  /** What that move does under the power lock; `hold` is Bluetooth or P2P power save asking for S2. */
  function ThreadPower(p: Power, pc: Pc, hold: bool): Power {
    match pc
    case Registering => Register(p, RUNNING, Cmd)
    case Unregistering => Unregister(p, RUNNING, Cmd, hold)
    case DrainUnregister => Unregister(p, RUNNING, Cmd, hold)
    case _ => p
  }

  function Insert(q: Queue, c: CmdId, pass: bool): Queue {
    if !pass || q.pc.Done? then q
    else q.(list := q.list + [c], inserted := q.inserted + [c], pendingUps := q.pendingUps + 1)
  }

  function DoUp(q: Queue): Queue {
    if q.pendingUps == 0 then q else q.(pendingUps := q.pendingUps - 1, sema := q.sema + 1)
  }

  /** rtw_stop_cmd_thread sets stop_req and then ups the semaphore. */
  function Stop(q: Queue): Queue {
    if q.stopReq || q.pc.Done? then q else q.(stopReq := true, pendingUps := q.pendingUps + 1)
  }

  function ApplyPower(p: Power, e: PowerEvent): Power {
    match e
    case TxRegister => Register(p, RUNNING, Xmit)
    case TxUnregister(hold) => Unregister(p, RUNNING, Xmit, hold)
    case BtRegister => Register(p, RUNNING, BtCoex)
    case BtUnregister(hold) => Unregister(p, RUNNING, BtCoex, hold)
    case RxMark(on) => Mark(p, Recv, on)
    case EvtMark(on) => Mark(p, Evt, on)
    case PsMode(r) => SetPsMode(p, RUNNING, r)
  }

  function AfterIrq(s: System, state: nat): System {
    s.(pwr := CpwmInt(s.pwr, state),
       q := if CpwmWakes(s.pwr, state, Cmd) then s.q.(sema := s.q.sema + 1) else s.q,
       lowReport := s.lowReport || (s.pwr.rpwm >= S2 && LevelOf(state) < S2))
  }

  /** rpwmtimeout_workitem_callback: test under the lock, read the register without it, then
      either report S2 to cpwm_int_hdl or test again under the lock and repeat the request. */
  function TimeoutStep(s: System, hwAwake: bool): System {
    match s.work
    case Idle => if CpwmDone(s.pwr) then s else s.(work := Checked)
    case Checked => s.(work := if hwAwake then FoundAwake else FoundAsleep)
    case FoundAwake => AfterIrq(s, S2).(work := Idle)
    case FoundAsleep => s.(pwr := RpwmRetry(s.pwr, RUNNING), work := Idle)
  }

  function Apply(s: System, step: Step): System {
    match step
    case Enqueue(c, pass) => s.(q := Insert(s.q, c, pass))
    case Up => s.(q := DoUp(s.q))
    case RequestStop => s.(q := Stop(s.q))
    case Thread(f, hold) => s.(q := ThreadMove(s.q, f, RegisterOk(s.pwr)), pwr := ThreadPower(s.pwr, s.q.pc, hold))
    case Other(e) => s.(pwr := ApplyPower(s.pwr, e))
    case Irq(state) => AfterIrq(s, state)
    case Timeout(awake) => TimeoutStep(s, awake)
  }

  function Run(s: System, steps: seq<Step>): System
    decreases |steps|
  {
    if steps == [] then s else Run(Apply(s, steps[0]), steps[1..])
  }

  // ---------------------------------------------------------------- what must hold

  function InHand(q: Queue): seq<CmdId> {
    if q.pc.Process? then [q.pc.cmd] else []
  }

  /** The thread sleeps although there is work and nobody is about to wake it. */
  predicate Asleep(q: Queue) {
    q.pc.Wait? && q.sema == 0 && q.pendingUps == 0 && q.list != []
  }

  predicate LoopLeft(pc: Pc) {
    pc.Drain? || pc.DrainUnregister? || pc.Done?
  }

  /** `alive`: the thread is registered; `out`: its wake request stands. */
  predicate WakeInv(q: Queue, alive: bool, out: bool) {
    && (Asleep(q) ==> out)
    && (q.pc.Unregistering? && q.list != [] ==> q.sema > 0 || q.pendingUps > 0)
    && (q.pc.Next? || q.pc.Process? || q.pc.Unregistering? ==> alive)
    && (q.stopReq && !q.pc.AfterDown? && !LoopLeft(q.pc) ==> q.sema > 0 || q.pendingUps > 0)
  }

  predicate FifoInv(q: Queue) {
    && q.inserted == q.executed + InHand(q) + q.dropped + q.list
    && (q.dropped != [] ==> LoopLeft(q.pc))
  }

  predicate SysInv(s: System) {
    && LevelInv(s.pwr)
    && WakeInv(s.q, Cmd in s.pwr.alives, Outstanding(s.pwr))
    && FifoInv(s.q)
    && TraceInv(s.pwr)
    && (!s.lowReport ==> AckInv(s.pwr))
  }

  /** A thread move is safe when registering leaves it registered and, if refused, with a request. */
  lemma ThreadMoveKeepsWake(q: Queue, f: bool, ok: bool, alive: bool, out: bool, alive': bool, out': bool)
    requires WakeInv(q, alive, out)
    requires q.pc.Registering? ==> alive' && (!ok ==> out')
    requires !q.pc.Registering? && !q.pc.Unregistering? && !q.pc.DrainUnregister? ==> alive' == alive && out' == out
    ensures WakeInv(ThreadMove(q, f, ok), alive', out')
  {}

  lemma ThreadMoveKeepsFifo(q: Queue, f: bool, ok: bool)
    requires FifoInv(q)
    ensures FifoInv(ThreadMove(q, f, ok))
  {
    var e, d, l := q.executed, q.dropped, q.list;
    match q.pc
    case Next =>
      if l != [] {
        assert d == [];
        HeadTaken(e, l);
      }
    case Process(c) =>
      HeadDone(e, c, d, l);
    case Drain =>
      if l != [] {
        HeadDropped(e, d, l);
      }
    case _ =>
  }

  lemma HeadTaken(e: seq<CmdId>, l: seq<CmdId>)
    requires l != []
    ensures e + [] + [] + l == e + [l[0]] + [] + l[1..]
  {}

  lemma HeadDone(e: seq<CmdId>, c: CmdId, d: seq<CmdId>, l: seq<CmdId>)
    ensures e + [c] + d + l == (e + [c]) + [] + d + l
  {}

  lemma HeadDropped(e: seq<CmdId>, d: seq<CmdId>, l: seq<CmdId>)
    requires l != []
    ensures e + [] + d + l == e + [] + (d + [l[0]]) + l[1..]
  {}

  lemma InsertKeepsFifo(q: Queue, c: CmdId, pass: bool)
    requires FifoInv(q)
    ensures FifoInv(Insert(q, c, pass))
  {}

  lemma ThreadPowerKeeps(p: Power, pc: Pc, hold: bool)
    requires LevelInv(p)
    ensures LevelInv(ThreadPower(p, pc, hold))
    ensures pc.Registering? ==> Cmd in ThreadPower(p, pc, hold).alives && (!RegisterOk(p) ==> Outstanding(ThreadPower(p, pc, hold)))
    ensures TraceInv(p) ==> TraceInv(ThreadPower(p, pc, hold))
    ensures AckInv(p) ==> AckInv(ThreadPower(p, pc, hold))
  {
    RegisterKeeps(p, Cmd);
    RefusalRequestsWake(p, Cmd);
    UnregisterKeeps(p, Cmd, hold);
  }

  lemma ApplyPowerKeeps(p: Power, e: PowerEvent)
    requires LevelInv(p) && TraceInv(p)
    ensures LevelInv(ApplyPower(p, e)) && TraceInv(ApplyPower(p, e))
    ensures KeepsRequest(p, ApplyPower(p, e))
    ensures AckInv(p) ==> AckInv(ApplyPower(p, e))
  {
    match e
    case TxRegister => RegisterKeeps(p, Xmit);
    case TxUnregister(hold) => UnregisterKeeps(p, Xmit, hold);
    case BtRegister => RegisterKeeps(p, BtCoex);
    case BtUnregister(hold) => UnregisterKeeps(p, BtCoex, hold);
    case PsMode(r) => SetPsModeKeeps(p, r);
    case _ =>
  }

  lemma AfterIrqKeeps(s: System, state: nat)
    requires SysInv(s)
    ensures SysInv(AfterIrq(s, state))
  {}

  /** A section of somebody else that leaves the command thread's request alone. */
  lemma SectionKeeps(s: System, p: Power)
    requires SysInv(s) && LevelInv(p) && TraceInv(p) && (AckInv(s.pwr) ==> AckInv(p)) && KeepsRequest(s.pwr, p)
    ensures SysInv(s.(pwr := p))
  {
    hide LevelInv, FifoInv, TraceInv, AckInv, Outstanding, Asleep;
  }

  lemma WorkIsFree(s: System, w: Work)
    ensures SysInv(s.(work := w)) <==> SysInv(s)
  {
    hide LevelInv, WakeInv, FifoInv, TraceInv, AckInv, Outstanding;
  }

  lemma TimeoutStepKeeps(s: System, awake: bool)
    requires SysInv(s)
    ensures SysInv(TimeoutStep(s, awake))
  {
    var t := TimeoutStep(s, awake);
    match s.work
    case FoundAwake =>
      AfterIrqKeeps(s, S2);
      hide SysInv, AfterIrq;
      WorkIsFree(AfterIrq(s, S2), Idle);
    case FoundAsleep =>
      RpwmRetryKeeps(s.pwr);
      SectionKeeps(s, RpwmRetry(s.pwr, RUNNING));
      hide SysInv, RpwmRetry;
      WorkIsFree(s.(pwr := RpwmRetry(s.pwr, RUNNING)), Idle);
    case _ =>
      hide SysInv;
      WorkIsFree(s, t.work);
  }

  lemma StepKeeps(s: System, step: Step)
    requires SysInv(s)
    ensures SysInv(Apply(s, step))
  {
    match step
    case Enqueue(c, pass) => InsertKeepsFifo(s.q, c, pass);
    case Thread(f, hold) =>
      var ok, p' := RegisterOk(s.pwr), ThreadPower(s.pwr, s.q.pc, hold);
      ThreadMoveKeepsWake(s.q, f, ok, Cmd in s.pwr.alives, Outstanding(s.pwr), Cmd in p'.alives, Outstanding(p'));
      ThreadMoveKeepsFifo(s.q, f, ok);
      ThreadPowerKeeps(s.pwr, s.q.pc, hold);
    case Other(e) =>
      ApplyPowerKeeps(s.pwr, e);
      SectionKeeps(s, ApplyPower(s.pwr, e));
      hide SysInv, ApplyPower;
    case Irq(state) => AfterIrqKeeps(s, state);
    case Timeout(awake) => TimeoutStepKeeps(s, awake);
    case _ =>
  }

  lemma {:induction false} RunKeeps(s: System, steps: seq<Step>)
    requires SysInv(s)
    ensures SysInv(Run(s, steps))
    decreases |steps|
  {
    if steps != [] {
      StepKeeps(s, steps[0]);
      RunKeeps(Apply(s, steps[0]), steps[1..]);
    }
  }

  // ---------------------------------------------------------------- main results

  /** No lost wake-up, in every interleaving. */
  lemma NoLostWakeup(steps: seq<Step>)
    ensures var s := Run(START, steps);
            s.q.pc.Wait? && s.q.sema == 0 && s.q.pendingUps == 0 && s.q.list != [] ==>
              && Cmd in s.pwr.alives && s.pwr.rpwm >= 2 && s.pwr.cpwm < 2
              && s.pwr.writes != [] && (!s.lowReport ==> s.pwr.writes[|s.pwr.writes| - 1].ack)
  {
    RunKeeps(START, steps);
  }

  /** The thread's next five moves after an awake report, as seen by the queue. */
  lemma FiveMoves(q: Queue)
    requires q.pc.Wait? && q.sema == 1 && q.list != [] && !q.stopReq
    ensures var n := (x: Queue) => ThreadMove(x, false, true);
            n(n(n(n(n(q))))) == q.(sema := 0, pc := Process(q.list[0]), list := q.list[1..])
  {}

  /** ... and the report that answers the request gets the head of the queue dequeued by the thread alone. */
  lemma AnswerIsDelivered(steps: seq<Step>, state: nat, hold: bool)
    requires Asleep(Run(START, steps).q) && LevelOf(state) >= S2
    ensures var s, t := Run(START, steps), Thread(false, hold);
            var u := Apply(Apply(Apply(Apply(Apply(Apply(s, Irq(state)), t), t), t), t), t);
            u.q == s.q.(pc := Process(s.q.list[0]), list := s.q.list[1..])
  {
    RunKeeps(START, steps);
    var s := Run(START, steps);
    AnswerWakes(s, state);
    hide Run, SysInv, AfterIrq;
    FiveSteps(Apply(s, Irq(state)), hold);
  }

  /** The answer ups the semaphore and lets the next registration succeed. */
  lemma AnswerWakes(s: System, state: nat)
    requires SysInv(s) && Asleep(s.q) && LevelOf(state) >= S2
    ensures var u := Apply(s, Irq(state)); u.q == s.q.(sema := 1) && !u.q.stopReq && RegisterOk(u.pwr)
  {}

  lemma FiveSteps(s: System, hold: bool)
    requires s.q.pc.Wait? && s.q.sema == 1 && s.q.list != [] && !s.q.stopReq && RegisterOk(s.pwr)
    ensures var t := Thread(false, hold);
            Apply(Apply(Apply(Apply(Apply(s, t), t), t), t), t).q
            == s.q.(sema := 0, pc := Process(s.q.list[0]), list := s.q.list[1..])
  {
    var t := Thread(false, hold);
    var s1 := Apply(s, t);
    var s2 := Apply(s1, t);
    var s3 := Apply(s2, t);
    assert s3.q.pc == Registering && s3.pwr == s.pwr;
    hide Register;
    var s4 := Apply(s3, t);
    assert s4.q.pc == Next;
    hide RegisterOk;
  }

  /** Commands leave the queue in insertion order, each once: run, in hand, dropped or still queued. */
  lemma FifoOnce(steps: seq<Step>)
    ensures var q := Run(START, steps).q;
            && q.inserted == q.executed + InHand(q) + q.dropped + q.list
            && (q.dropped != [] ==> LoopLeft(q.pc))
  {
    RunKeeps(START, steps);
  }

  /** Firmware in power save is asked to stay awake for every registered user; the bytes written to
      the register alternate their toggle bit and the last one carries the level the driver recorded. */
  lemma WakeRequestsRespectUsers(steps: seq<Step>)
    ensures var p := Run(START, steps).pwr;
            && (p.fwInPs && (Cmd in p.alives || Xmit in p.alives || BtCoex in p.alives || p.cpwm >= 2) ==> p.rpwm >= 2)
            && p.writes != [] && p.writes[|p.writes| - 1].level == p.rpwm
            && forall i :: 0 < i < |p.writes| ==> p.writes[i].toggle != p.writes[i - 1].toggle
  {
    RunKeeps(START, steps);
    var p := Run(START, steps).pwr;
    forall i | 0 < i < |p.writes| ensures p.writes[i].toggle != p.writes[i - 1].toggle {
      assert p.writes[i].toggle == FlipToggle(p.writes[i - 1].toggle);
    }
  }

  /** A command runs only while its thread is registered, so with the firmware asked to stay awake. */
  lemma CommandsRunRegistered(steps: seq<Step>)
    ensures var s := Run(START, steps);
            s.q.pc.Process? ==> Cmd in s.pwr.alives && (s.pwr.fwInPs ==> s.pwr.rpwm >= S2)
  {
    RunKeeps(START, steps);
  }

  /** The driver takes the firmware to be out of power save although it has not reported awake. */
  predicate Behind(p: Power) {
    !p.fwInPs && p.cpwm < S2
  }

  /** Power save is left before the firmware reported awake, or the firmware reports low outside power save. */
  predicate FallsBehind(s: System, step: Step) {
    match step
    case Other(PsMode(r)) => r.mode == MODE_ACTIVE && s.pwr.mode != MODE_ACTIVE && r.mayLeave && s.pwr.cpwm < S2
    case Irq(state) => !s.pwr.fwInPs && s.pwr.rpwm >= S2 && LevelOf(state) < S2
    case _ => false
  }

  /** An awake report is accepted, from the interrupt or from the time-out, or power save is entered again. */
  predicate CatchesUp(s: System, step: Step) {
    match step
    case Other(PsMode(r)) => r.mode != MODE_ACTIVE && r.mode <= MODE_CARD_DISABLE && r.mayEnter
    case Irq(state) => s.pwr.rpwm >= S2 && LevelOf(state) >= S2
    case Timeout(_) => s.work.FoundAwake? && s.pwr.rpwm >= S2
    case _ => false
  }

  lemma BehindStep(s: System, step: Step)
    requires LevelInv(s.pwr)
    ensures Behind(Apply(s, step).pwr) <==> FallsBehind(s, step) || (Behind(s.pwr) && !CatchesUp(s, step))
  {
    match step
    case Thread(f, hold) => UsersKeepBehind(s.pwr, Cmd, hold);
    case Other(e) => BehindByEvent(s, e);
    case _ =>
  }

  lemma BehindByEvent(s: System, e: PowerEvent)
    requires LevelInv(s.pwr)
    ensures Behind(ApplyPower(s.pwr, e)) <==> FallsBehind(s, Other(e)) || (Behind(s.pwr) && !CatchesUp(s, Other(e)))
  {
    match e
    case TxRegister => UsersKeepBehind(s.pwr, Xmit, false);
    case TxUnregister(hold) => UsersKeepBehind(s.pwr, Xmit, hold);
    case BtRegister => UsersKeepBehind(s.pwr, BtCoex, false);
    case BtUnregister(hold) => UsersKeepBehind(s.pwr, BtCoex, hold);
    case _ =>
  }

  /** Outside power save users coming and going request nothing. */
  lemma UsersKeepBehind(p: Power, task: Task, hold: bool)
    ensures Behind(Register(p, RUNNING, task)) <==> Behind(p)
    ensures Behind(Unregister(p, RUNNING, task, hold)) <==> Behind(p)
  {}

  lemma {:induction false} RunSnoc(s: System, steps: seq<Step>, step: Step)
    ensures Run(s, steps + [step]) == Apply(Run(s, steps), step)
    decreases |steps|
  {
    if steps == [] {
      assert Run(Apply(s, step), []) == Apply(s, step);
    } else {
      assert (steps + [step])[1..] == steps[1..] + [step];
      RunSnoc(Apply(s, steps[0]), steps[1..], step);
    }
  }

  /** Some step of the run set a condition, and none since has cleared it. */
  predicate SetSince(steps: seq<Step>, sets: (System, Step) -> bool, clears: (System, Step) -> bool, i: nat) {
    && i < |steps| && sets(Run(START, steps[..i]), steps[i])
    && forall j {:trigger steps[..j]} :: i < j < |steps| ==> !clears(Run(START, steps[..j]), steps[j])
  }

  /** The runs at whose end a condition holds, when each step is known to set, clear or keep it. */
  lemma {:induction false} HeldIff(steps: seq<Step>, on: Power -> bool, sets: (System, Step) -> bool, clears: (System, Step) -> bool)
    requires !on(START.pwr)
    requires forall s, step :: SysInv(s) ==> (on(Apply(s, step).pwr) <==> sets(s, step) || (on(s.pwr) && !clears(s, step)))
    ensures on(Run(START, steps).pwr) <==> exists i: nat :: SetSince(steps, sets, clears, i)
  {
    if steps != [] {
      var k := |steps| - 1;
      var front, s := steps[..k], Run(START, steps[..k]);
      assert steps == front + [steps[k]];
      HeldIff(front, on, sets, clears);
      RunSnoc(START, front, steps[k]);
      RunKeeps(START, front);
      hide Run, Apply, SysInv;
      if i: nat :| SetSince(front, sets, clears, i) && !clears(s, steps[k]) {
        SetSinceStep(steps, sets, clears, i);
        assert SetSince(steps, sets, clears, i);
      }
      if sets(s, steps[k]) {
        assert SetSince(steps, sets, clears, k);
      }
      if i: nat :| SetSince(steps, sets, clears, i) {
        if i < k {
          SetSinceStep(steps, sets, clears, i);
          assert SetSince(front, sets, clears, i);
        }
      }
    }
  }

  lemma SetSinceStep(steps: seq<Step>, sets: (System, Step) -> bool, clears: (System, Step) -> bool, i: nat)
    requires i < |steps| - 1
    ensures var k := |steps| - 1;
            SetSince(steps, sets, clears, i) <==> SetSince(steps[..k], sets, clears, i) && !clears(Run(START, steps[..k]), steps[k])
  {
    var k := |steps| - 1;
    hide Run;
    assert steps[..k][..i] == steps[..i];
    assert forall j {:trigger steps[..j]} :: i < j < k ==> steps[..k][..j] == steps[..j];
    assert forall j {:trigger steps[..k][..j]} :: i < j < k ==> steps[..k][..j] == steps[..j];
  }

  /** The runs that leave the driver behind. */
  lemma BehindIff(steps: seq<Step>)
    ensures Behind(Run(START, steps).pwr) <==> exists i: nat :: SetSince(steps, FallsBehind, CatchesUp, i)
  {
    forall s, step | SysInv(s)
      ensures Behind(Apply(s, step).pwr) <==> FallsBehind(s, step) || (Behind(s.pwr) && !CatchesUp(s, step))
    {
      BehindStep(s, step);
    }
    assert !Behind(START.pwr);
    hide Run, Apply, SysInv, Behind, FallsBehind, CatchesUp;
    HeldIff(steps, Behind, FallsBehind, CatchesUp);
  }

  /** The comment of rtw_register_task_alive promises hardware that is ready for I/O on success.  A success falls
      short of that exactly in the runs that left power save before the firmware reported awake, or saw a low
      report outside power save, and since then neither accepted an awake report nor entered power save ... */
  lemma SuccessFallsShortIff(steps: seq<Step>, task: Task)
    ensures var p := Run(START, steps).pwr;
            RegisterOk(p) && Register(p, RUNNING, task).cpwm < S2 <==> exists i: nat :: SetSince(steps, FallsBehind, CatchesUp, i)
  {
    RunKeeps(START, steps);
    RefusalRequestsWake(Run(START, steps).pwr, task);
    BehindIff(steps);
  }

  /** ... and entering and leaving power save before the firmware answers makes it succeed while asleep. */
  lemma SuccessWhileAsleep()
    ensures exists steps :: var p := Run(START, steps).pwr; RegisterOk(p) && p.cpwm < S2
  {
    var enter, leave := Other(PsMode(PsRequest(1, true, true, false))), Other(PsMode(PsRequest(0, true, true, false)));
    var s1 := Apply(START, enter);
    var s2 := Apply(s1, leave);
    assert Run(START, [enter, leave]) == s2 by {
      assert [enter, leave][1..] == [leave] && [leave][1..] == [];
      assert Run(s1, [leave]) == s2;
    }
  }

  // ---------------------------------------------------------------- when the chip may sleep

  /** In this step the user leaves, with or without a hold of Bluetooth or P2P. */
  predicate Leaves(s: System, step: Step, task: Task, hold: bool) {
    match step
    case Thread(_, h) => h == hold && task == Cmd && (s.q.pc.Unregistering? || s.q.pc.DrainUnregister?)
    case Other(TxUnregister(h)) => h == hold && task == Xmit
    case Other(BtUnregister(h)) => h == hold && task == BtCoex
    case _ => false
  }

  lemma LeavesIs(s: System, step: Step, task: Task, hold: bool)
    requires Leaves(s, step, task, hold)
    ensures Apply(s, step).pwr == Unregister(s.pwr, RUNNING, task, hold)
  {}

  /** Whoever leaves last while the firmware is in power save and has answered lets the chip sleep, in every run:
      that level is written exactly then.  With the hold nothing is ever written. */
  lemma LastLeavingSleeps(steps: seq<Step>, step: Step, task: Task, hold: bool)
    requires Leaves(Run(START, steps), step, task, hold)
    ensures var p, q := Run(START, steps).pwr, Run(START, steps + [step]).pwr;
            var sleep := !hold && p.fwInPs && p.alives <= {task} && p.cpwm > 1;
            && q.alives == p.alives - {task} && q.fwInPs == p.fwInPs
            && q.writes == (if sleep then p.writes + [RpwmWrite(1, p.tog, false)] else p.writes)
            && q.rpwm == if sleep then 1 else p.rpwm
  {
    var p := Run(START, steps).pwr;
    RunKeeps(START, steps);
    assert LevelInv(p);
    RunSnoc(START, steps, step);
    LeavesIs(Run(START, steps), step, task, hold);
    hide Run, Apply, Leaves, Unregister, SysInv;
    LeavingAsks(p, task, hold);
  }

  /** Entering power save asks for sleep exactly if nobody is registered and nobody holds the clock; leaving it, for
      an awake level. */
  lemma EnteringSleepsIff(steps: seq<Step>, r: PsRequest)
    ensures var p, q := Run(START, steps).pwr, Run(START, steps + [Other(PsMode(r))]).pwr;
            && (1 <= r.mode <= 10 && r.mayEnter ==> q.fwInPs && (q.rpwm == 1 <==> p.alives == {} && !r.hold))
            && (1 <= r.mode <= 10 && r.mayEnter && (p.alives != {} || r.hold) ==> q.rpwm >= 2)
            && (r.mode == 0 && p.fwInPs && r.mayLeave ==> !q.fwInPs && q.rpwm >= 2)
  {
    var p := Run(START, steps).pwr;
    RunKeeps(START, steps);
    assert LevelInv(p);
    RunSnoc(START, steps, Other(PsMode(r)));
    assert Run(START, steps + [Other(PsMode(r))]).pwr == SetPsMode(p, RUNNING, r);
    hide Run, Apply, SetPsMode, SysInv;
    ModeChangeAsks(p, r);
  }

  /** The firmware is in power save, nobody needs the chip, and still an awake level is asked for. */
  predicate AwakeForNobody(p: Power) {
    p.fwInPs && p.alives == {} && p.rpwm >= S2
  }

  /** The last user leaves under a hold or before the firmware answered. */
  predicate LeftAwake(p: Power, task: Task, hold: bool) {
    p.fwInPs && p.alives == {task} && p.rpwm >= S2 && (hold || p.cpwm < S2)
  }

  /** The last user is left like this, power save is entered under a hold, or the last mark of the receive or event
      path is cleared. */
  predicate BecomesIdle(s: System, step: Step) {
    match step
    case Thread(_, hold) => (s.q.pc.Unregistering? || s.q.pc.DrainUnregister?) && LeftAwake(s.pwr, Cmd, hold)
    case Other(TxUnregister(hold)) => LeftAwake(s.pwr, Xmit, hold)
    case Other(BtUnregister(hold)) => LeftAwake(s.pwr, BtCoex, hold)
    case Other(RxMark(on)) => !on && LeftAwake(s.pwr, Recv, true)
    case Other(EvtMark(on)) => !on && LeftAwake(s.pwr, Evt, true)
    case Other(PsMode(r)) => 1 <= r.mode <= MODE_CARD_DISABLE && r.mayEnter && r.hold && s.pwr.alives == {}
    case _ => false
  }

  /** Somebody registers, a user leaves without a hold after the firmware answered, or power save is left, or
      entered without a hold. */
  predicate EndsIdle(s: System, step: Step) {
    match step
    case Thread(_, hold) =>
      s.q.pc.Registering? || ((s.q.pc.Unregistering? || s.q.pc.DrainUnregister?) && !hold && s.pwr.cpwm >= S2)
    case Other(TxUnregister(hold)) => !hold && s.pwr.cpwm >= S2
    case Other(BtUnregister(hold)) => !hold && s.pwr.cpwm >= S2
    case Other(RxMark(on)) => on
    case Other(EvtMark(on)) => on
    case Other(PsMode(r)) => if r.mode == MODE_ACTIVE then r.mayLeave else r.mode <= MODE_CARD_DISABLE && r.mayEnter && !r.hold
    case Other(_) => true
    case _ => false
  }

  /** The runs after which an awake level is asked for although nobody needs the chip. */
  lemma AwakeForNobodyIff(steps: seq<Step>)
    ensures AwakeForNobody(Run(START, steps).pwr) <==> exists i: nat :: SetSince(steps, BecomesIdle, EndsIdle, i)
  {
    forall s, step | SysInv(s)
      ensures AwakeForNobody(Apply(s, step).pwr) <==> BecomesIdle(s, step) || (AwakeForNobody(s.pwr) && !EndsIdle(s, step))
    {
      IdleStep(s, step);
    }
    assert !AwakeForNobody(START.pwr);
    hide Run, Apply, SysInv, AwakeForNobody, BecomesIdle, EndsIdle;
    HeldIff(steps, AwakeForNobody, BecomesIdle, EndsIdle);
  }

  lemma IdleStep(s: System, step: Step)
    requires LevelInv(s.pwr)
    ensures AwakeForNobody(Apply(s, step).pwr) <==> BecomesIdle(s, step) || (AwakeForNobody(s.pwr) && !EndsIdle(s, step))
  {
    match step
    case Thread(f, hold) =>
      LeavesIdle(s.pwr, Cmd, hold);
      hide Unregister, LevelInv;
    case Other(e) => IdleByEvent(s, e);
    case _ =>
  }

  lemma IdleByEvent(s: System, e: PowerEvent)
    requires LevelInv(s.pwr)
    ensures AwakeForNobody(ApplyPower(s.pwr, e)) <==> BecomesIdle(s, Other(e)) || (AwakeForNobody(s.pwr) && !EndsIdle(s, Other(e)))
  {
    match e
    case TxUnregister(hold) =>
      LeavesIdle(s.pwr, Xmit, hold);
      hide Unregister;
    case BtUnregister(hold) =>
      LeavesIdle(s.pwr, BtCoex, hold);
      hide Unregister;
    case _ =>
  }

  lemma LeavesIdle(p: Power, task: Task, hold: bool)
    requires LevelInv(p)
    ensures AwakeForNobody(Unregister(p, RUNNING, task, hold)) <==>
              LeftAwake(p, task, hold) || (AwakeForNobody(p) && (hold || p.cpwm < S2))
  {
    assert p.alives - {task} == {} <==> p.alives == {} || p.alives == {task};
  }

  /** A user that comes and goes before the firmware answers leaves the chip awake for nobody: the answer that
      arrives later is nobody's. */
  lemma UnansweredStaysAwake()
    ensures exists steps :: var p := Run(START, steps).pwr; p.fwInPs && p.alives == {} && p.rpwm == 2 && p.cpwm == 2
  {
    var e := Other(PsMode(PsRequest(1, true, true, false)));
    var s1 := Apply(START, e);
    var s2 := Apply(s1, Other(BtRegister));
    var s3 := Apply(s2, Other(BtUnregister(false)));
    var s4 := Apply(s3, Irq(2));
    assert s2.pwr.rpwm == 2 && s2.pwr.cpwm == 1 && s3.pwr.alives == {};
    RunSnoc(START, [], e);
    RunSnoc(START, [e], Other(BtRegister));
    RunSnoc(START, [e] + [Other(BtRegister)], Other(BtUnregister(false)));
    RunSnoc(START, [e] + [Other(BtRegister)] + [Other(BtUnregister(false))], Irq(2));
    assert [] + [e] == [e];
    assert Run(START, [e] + [Other(BtRegister)] + [Other(BtUnregister(false))] + [Irq(2)]) == s4;
  }

  // ---------------------------------------------------------------- single steps

  /** A command that passes the filter goes to the tail of the queue until the thread has ended, and the semaphore
      is raised behind it; a filtered one leaves no trace. */
  lemma EnqueueThenUp(s: System, c: CmdId, pass: bool)
    ensures var t := Apply(s, Enqueue(c, pass));
            && (!pass || s.q.pc.Done? ==> t == s)
            && (pass && !s.q.pc.Done? ==>
                  && t.q.list == s.q.list + [c] && t.q.inserted == s.q.inserted + [c] && t.q.pc == s.q.pc && t.pwr == s.pwr
                  && t.q.sema == s.q.sema && Apply(t, Up).q.sema == s.q.sema + 1 && Apply(t, Up).q.list == t.q.list)
  {}

  /** What the time-out does from its first test to its end.  If the register shows the chip awake, S2 is taken in as
      if reported, and wakes the registered command thread; if not, the request is written again unless it has
      been answered. */
  lemma TimeoutRun(s: System, shows: bool, b: bool)
    requires s.work.Idle?
    ensures var t := Apply(Apply(Apply(s, Timeout(b)), Timeout(shows)), Timeout(b));
            var p, taken := s.pwr, s.pwr.rpwm != s.pwr.cpwm && s.pwr.cpwm < 2;
            && (!taken ==> t == s)
            && (taken && shows ==>
                  && t.work.Idle? && t.pwr == (if p.rpwm >= 2 then p.(cpwm := 2, cpwmTog := 0) else p)
                  && t.q == (if p.rpwm >= 2 && Cmd in p.alives then s.q.(sema := s.q.sema + 1) else s.q))
            && (taken && !shows ==> t.work.Idle? && t.pwr == RpwmRetry(p, RUNNING) && t.q == s.q)
  {}

  function Moves(s: System, hold: bool, n: nat): System
    decreases n
  {
    if n == 0 then s else Moves(Apply(s, Thread(false, hold)), hold, n - 1)
  }

  /** A stop request ends the thread by its own moves: what is queued is dropped, and the alive bit is cleared. */
  lemma StopDrains(s: System, hold: bool)
    requires s.q.pc.Wait? && s.q.stopReq && s.q.sema > 0
    ensures var t := Moves(s, hold, |s.q.list| + 4);
            && t.q.pc.Done? && t.q.list == [] && t.q.dropped == s.q.dropped + s.q.list && t.q.executed == s.q.executed
            && t.pwr == Unregister(s.pwr, RUNNING, Cmd, hold)
  {
    var t1 := Apply(s, Thread(false, hold));
    var t2 := Apply(t1, Thread(false, hold));
    assert t2 == s.(q := s.q.(sema := s.q.sema - 1, pc := Drain));
    DrainMoves(t2, hold);
    hide Unregister, Register;
    assert Moves(t1, hold, |s.q.list| + 3) == Moves(t2, hold, |s.q.list| + 2);
  }

  lemma {:induction false} DrainMoves(s: System, hold: bool)
    requires s.q.pc.Drain?
    ensures var t := Moves(s, hold, |s.q.list| + 2);
            && t.q.pc.Done? && t.q.list == [] && t.q.dropped == s.q.dropped + s.q.list && t.q.executed == s.q.executed
            && t.pwr == Unregister(s.pwr, RUNNING, Cmd, hold)
    decreases |s.q.list|
  {
    var t := Apply(s, Thread(false, hold));
    hide Unregister, Register;
    if s.q.list == [] {
      var u := Apply(t, Thread(false, hold));
      assert Moves(s, hold, 2) == Moves(t, hold, 1) == Moves(u, hold, 0) == u;
    } else {
      DrainMoves(t, hold);
      assert s.q.dropped + s.q.list == t.q.dropped + t.q.list;
    }
  }

  /** A registered thread left to itself runs everything queued, in order, then gives up its alive bit and waits. */
  lemma {:induction false} RunsAllThenUnregisters(s: System, hold: bool)
    requires s.q.pc.Next?
    ensures var t := Moves(s, hold, 2 * |s.q.list| + 2);
            && t.q == s.q.(pc := Wait, list := [], executed := s.q.executed + s.q.list)
            && t.pwr == Unregister(s.pwr, RUNNING, Cmd, hold)
    decreases |s.q.list|
  {
    hide Unregister, Register;
    var t := Apply(s, Thread(false, hold));
    var u := Apply(t, Thread(false, hold));
    if s.q.list == [] {
      assert Moves(s, hold, 2) == Moves(t, hold, 1) == Moves(u, hold, 0) == u;
    } else {
      RunsAllThenUnregisters(u, hold);
      assert s.q.executed + s.q.list == u.q.executed + u.q.list;
      var n := 2 * |u.q.list| + 2;
      assert Moves(s, hold, n + 2) == Moves(t, hold, n + 1) == Moves(u, hold, n);
    }
  }
}
