/** Power-state requests of the driver and reports of the firmware (core/rtw_pwrctrl.c).

    `Power` is the value of the fields the power lock protects; the functions on it say what
    each locked section does, and `PwrCtrlPriv` is the record that the driver updates in place. */
module PwrCtrl {

  /** Power levels (include/rtw_pwrctrl.h): S0 may sleep, S2 and above is awake. */
  const S0: nat := 1
  const S2: nat := 2
  const S4: nat := 12

  const MODE_ACTIVE: nat := 0
  const MODE_CARD_DISABLE: nat := 10

  /** The bits of `alives`: who needs the chip awake. */
  datatype Task = Xmit | Recv | Cmd | Evt | BtCoex

  /** One byte written to the RPWM register: level, toggle bit, acknowledge request. */
  datatype RpwmWrite = RpwmWrite(level: nat, toggle: nat, ack: bool)

  datatype Power = Power(
    rpwm: nat, cpwm: nat, tog: nat, cpwmTog: nat,
    mode: nat, fwInPs: bool, alives: set<Task>,
    retry: bool,              // brpwmtimeout
    writes: seq<RpwmWrite>)   // everything written to the RPWM register so far

  /** Device conditions read by rtw_set_rpwm. */
  datatype Device = Device(ready: bool, stopped: bool)

  const RUNNING := Device(true, false)

  function LevelOf(state: nat): (level: nat)
    ensures level < 16
  {
    state % 16
  }

  function FlipToggle(tog: nat): nat {
    (tog + 128) % 256
  }

  /** State left by rtw_init_pwrctrl_priv; the register is initialised with the byte 0. */
  const INITIAL := Power(0, S4, 128, 0, MODE_ACTIVE, false, {}, false, [RpwmWrite(0, 0, false)])

  predicate NeedsAck(p: Power, level: nat) {
    p.cpwm < S2 && level >= S2
  }

  function SetRpwm(p: Power, dev: Device, want: nat): Power {
    var level := LevelOf(want);
    if !p.retry && (p.rpwm == level || (p.rpwm >= S2 && level >= S2)) then
      p
    else if !dev.ready then
      p.(cpwm := S4)
    else if dev.stopped && level < S2 then
      p
    else
      p.(rpwm := level,
         cpwm := if NeedsAck(p, level) then p.cpwm else level,
         tog := FlipToggle(p.tog),
         writes := p.writes + [RpwmWrite(level, p.tog, NeedsAck(p, level))])
  }

  /** A call of rtw_set_ps_mode.  `mayLeave` and `mayEnter` are the association, Bluetooth and
      P2P conditions, `hold` is Bluetooth asking for the clock to stay on. */
  datatype PsRequest = PsRequest(mode: nat, mayLeave: bool, mayEnter: bool, hold: bool)

  function SetPsMode(p: Power, dev: Device, r: PsRequest): Power {
    if r.mode > MODE_CARD_DISABLE || (p.mode == r.mode && r.mode == MODE_ACTIVE) then
      p
    else if r.mode == MODE_ACTIVE then
      if r.mayLeave then SetRpwm(p.(mode := r.mode), dev, S4).(fwInPs := false) else p
    else if r.mayEnter then
      SetRpwm(p.(fwInPs := true, mode := r.mode), dev, if p.alives == {} && !r.hold then S0 else S2)
    else
      p
  }

  /** rtw_register_cmd_alive, rtw_register_tx_alive and rtw_register_task_alive. */
  function Register(p: Power, dev: Device, task: Task): Power {
    var q := p.(alives := p.alives + {task});
    if q.fwInPs && q.cpwm < S2 && q.rpwm < S2 then SetRpwm(q, dev, S2) else q
  }

  predicate RegisterOk(p: Power) {
    !(p.fwInPs && p.cpwm < S2)
  }

  /** rtw_unregister_cmd_alive, rtw_unregister_tx_alive and rtw_unregister_task_alive;
      `hold` is Bluetooth (or P2P power save) asking for S2 instead of S0. */
  function Unregister(p: Power, dev: Device, task: Task, hold: bool): Power {
    var q := p.(alives := p.alives - {task});
    var level := if hold then S2 else S0;
    if q.mode != MODE_ACTIVE && q.fwInPs && q.cpwm > level && (level >= S2 || q.alives == {})
    then SetRpwm(q, dev, level)
    else q
  }

  /** rtw_register_rx_alive, rtw_register_evt_alive and their counterparts only touch the bitmap. */
  function Mark(p: Power, task: Task, on: bool): Power {
    p.(alives := if on then p.alives + {task} else p.alives - {task})
  }

  function CpwmInt(p: Power, state: nat): Power {
    if p.rpwm < S2 then p else p.(cpwm := LevelOf(state), cpwmTog := if state / 128 % 2 == 1 then 128 else 0)
  }

  /** Which semaphores the CPWM handler ups: that of a task which is registered when the report is awake. */
  predicate CpwmWakes(p: Power, state: nat, task: Task) {
    p.rpwm >= S2 && LevelOf(state) >= S2 && task in p.alives
  }

  /** The test that the RPWM time-out work item makes each time it holds the lock. */
  predicate CpwmDone(p: Power) {
    p.rpwm == p.cpwm || p.cpwm >= S2
  }

  /** Second locked section of rpwmtimeout_workitem_callback: ask again. */
  function RpwmRetry(p: Power, dev: Device): Power {
    if CpwmDone(p) then p else SetRpwm(p.(retry := true), dev, p.rpwm).(retry := false)
  }

  // ---------------------------------------------------------------- invariant

  predicate Alternating(ws: seq<RpwmWrite>) {
    forall i :: 0 < i < |ws| ==> ws[i].toggle == FlipToggle(ws[i - 1].toggle) && ws[i].toggle in {0, 128}
  }

  /** How the requested and the reported level go together while the device is running. */
  predicate LevelInv(p: Power) {
    && !p.retry && (p.fwInPs <==> p.mode != MODE_ACTIVE)
    && (p.rpwm == 0 || p.rpwm == S0 || S2 <= p.rpwm)
    && (p.rpwm == 0 ==> !p.fwInPs && p.cpwm == S4)
    && (p.rpwm == S0 ==> p.fwInPs && p.cpwm == S0 && Xmit !in p.alives && Cmd !in p.alives && BtCoex !in p.alives)
    && p.rpwm < 16
  }

  /** The register trace: the last byte carries the recorded level, toggle bits alternate. */
  predicate TraceInv(p: Power) {
    && p.writes != [] && p.writes[|p.writes| - 1].level == p.rpwm
    && p.writes[|p.writes| - 1].toggle in {0, 128}
    && p.tog == FlipToggle(p.writes[|p.writes| - 1].toggle)
    && Alternating(p.writes)
  }

  /** An awake request that is not yet answered was written with the acknowledge bit. */
  predicate AckInv(p: Power) {
    p.rpwm >= S2 && p.cpwm < S2 ==> p.writes != [] && p.writes[|p.writes| - 1].ack
  }

  /** A wake request of the command thread stands: the handler that ends it also ups its semaphore. */
  predicate Outstanding(p: Power) {
    Cmd in p.alives && p.rpwm >= S2 && p.cpwm < S2
  }

  /** What a section that neither serves the command thread nor handles a report leaves alone. */
  predicate KeepsRequest(p: Power, q: Power) {
    (Cmd in p.alives <==> Cmd in q.alives) && (Outstanding(p) ==> Outstanding(q))
  }

  lemma SetRpwmKeepsTrace(p: Power, want: nat)
    requires TraceInv(p)
    ensures TraceInv(SetRpwm(p, RUNNING, want))
  {
    var ws, w := p.writes, RpwmWrite(LevelOf(want), p.tog, NeedsAck(p, LevelOf(want)));
    forall i | 0 < i < |ws + [w]|
      ensures (ws + [w])[i].toggle == FlipToggle((ws + [w])[i - 1].toggle) && (ws + [w])[i].toggle in {0, 128}
    {
      if i < |ws| {
        assert ws[i].toggle == FlipToggle(ws[i - 1].toggle);
      }
    }
  }

  // Each locked section is a change of the other fields, one SetRpwm, and another such change.

  lemma SetPsModeKeeps(p: Power, r: PsRequest)
    ensures LevelInv(p) ==> LevelInv(SetPsMode(p, RUNNING, r))
    ensures TraceInv(p) ==> TraceInv(SetPsMode(p, RUNNING, r))
    ensures AckInv(p) ==> AckInv(SetPsMode(p, RUNNING, r))
    ensures LevelInv(p) ==> KeepsRequest(p, SetPsMode(p, RUNNING, r))
  {
    if TraceInv(p) {
      SetRpwmKeepsTrace(p.(mode := r.mode), S4);
      SetRpwmKeepsTrace(p.(fwInPs := true, mode := r.mode), if p.alives == {} && !r.hold then S0 else S2);
    }
  }

  lemma RegisterKeeps(p: Power, task: Task)
    ensures LevelInv(p) ==> LevelInv(Register(p, RUNNING, task))
    ensures TraceInv(p) ==> TraceInv(Register(p, RUNNING, task))
    ensures AckInv(p) ==> AckInv(Register(p, RUNNING, task))
    ensures LevelInv(p) && task != Cmd ==> KeepsRequest(p, Register(p, RUNNING, task))
  {
    if TraceInv(p) {
      SetRpwmKeepsTrace(p.(alives := p.alives + {task}), S2);
    }
  }

  /** A refused registration has left a request for S2 behind. */
  lemma RefusalRequestsWake(p: Power, task: Task)
    requires LevelInv(p)
    ensures var q := Register(p, RUNNING, task);
            task in q.alives && q.cpwm == p.cpwm && (!RegisterOk(p) ==> q.rpwm >= S2 && q.cpwm < S2)
  {}

  lemma UnregisterKeeps(p: Power, task: Task, hold: bool)
    ensures LevelInv(p) ==> LevelInv(Unregister(p, RUNNING, task, hold))
    ensures TraceInv(p) ==> TraceInv(Unregister(p, RUNNING, task, hold))
    ensures AckInv(p) ==> AckInv(Unregister(p, RUNNING, task, hold))
    ensures LevelInv(p) && task != Cmd ==> KeepsRequest(p, Unregister(p, RUNNING, task, hold))
  {
    if TraceInv(p) {
      SetRpwmKeepsTrace(p.(alives := p.alives - {task}), if hold then S2 else S0);
    }
  }

  /** Bluetooth's hold is honoured: with it neither entering power save nor the last user leaving asks for sleep. */
  lemma HoldKeepsAwake(p: Power, r: PsRequest, task: Task)
    requires !p.retry
    ensures var q := SetPsMode(p, RUNNING, r); r.hold && q.fwInPs && q.rpwm < S2 ==> q.rpwm == p.rpwm && p.fwInPs
    ensures var q := Unregister(p, RUNNING, task, true); q.rpwm < S2 ==> q.rpwm == p.rpwm
  {}

  lemma RpwmRetryKeeps(p: Power)
    requires LevelInv(p)
    ensures LevelInv(RpwmRetry(p, RUNNING))
    ensures KeepsRequest(p, RpwmRetry(p, RUNNING))
    ensures TraceInv(p) ==> TraceInv(RpwmRetry(p, RUNNING))
    ensures AckInv(p) ==> AckInv(RpwmRetry(p, RUNNING))
  {
    if TraceInv(p) {
      SetRpwmKeepsTrace(p.(retry := true), p.rpwm);
    }
  }

  // ---------------------------------------------------------------- which requests are written

  /** The one place that writes the register: what is skipped, what is dropped, and what the byte holds. */
  lemma WritesExactly(p: Power, dev: Device, want: nat)
    ensures var q, level := SetRpwm(p, dev, want), want % 16;
            var skipped := !p.retry && (p.rpwm == level || (p.rpwm >= 2 && level >= 2));
            && (q.writes != p.writes <==> !skipped && dev.ready && (!dev.stopped || level >= 2))
            && (q.writes != p.writes ==>
                  && q.writes == p.writes + [RpwmWrite(level, p.tog, p.cpwm < 2 && level >= 2)] && q.rpwm == level
                  && q.tog == (p.tog + 128) % 256 && q.cpwm == if p.cpwm < 2 && level >= 2 then p.cpwm else level)
            && (q.writes == p.writes ==> q == p.(cpwm := if !skipped && !dev.ready then 12 else p.cpwm))
            && q.alives == p.alives && q.fwInPs == p.fwInPs && q.mode == p.mode && q.retry == p.retry
            && q.cpwmTog == p.cpwmTog
  {}

  /** A user that leaves asks for sleep exactly if it was the last one, nobody holds the clock, the firmware is in
      power save, has answered and is not asked to sleep yet.  With the hold it asks for S2, whoever is left. */
  lemma LeavingAsks(p: Power, task: Task, hold: bool)
    requires !p.retry
    ensures var q := Unregister(p, RUNNING, task, hold);
            var inPs := p.mode != 0 && p.fwInPs;
            var sleep := !hold && inPs && p.cpwm > 1 && p.alives <= {task} && p.rpwm != 1;
            var clock := hold && inPs && p.cpwm > 2 && p.rpwm < 2;
            && q.alives == p.alives - {task} && q.fwInPs == p.fwInPs && q.mode == p.mode && !q.retry
            && (sleep ==> q.writes == p.writes + [RpwmWrite(1, p.tog, false)] && q.rpwm == 1 && q.cpwm == 1)
            && (clock ==> q.writes == p.writes + [RpwmWrite(2, p.tog, false)] && q.rpwm == 2 && q.cpwm == 2)
            && (!sleep && !clock ==> q.writes == p.writes && q.rpwm == p.rpwm && q.cpwm == p.cpwm && q.tog == p.tog)
  {
    assert p.alives - {task} == {} <==> p.alives <= {task};
  }

  /** A user that comes asks for S2, with an acknowledgement, exactly if the firmware sleeps and is not asked yet. */
  lemma ComingAsks(p: Power, task: Task)
    requires !p.retry
    ensures var q := Register(p, RUNNING, task);
            var wake := p.fwInPs && p.cpwm < 2 && p.rpwm < 2;
            && q.alives == p.alives + {task} && q.fwInPs == p.fwInPs && q.mode == p.mode && !q.retry
            && (wake ==> q.writes == p.writes + [RpwmWrite(2, p.tog, true)] && q.rpwm == 2)
            && (!wake ==> q.writes == p.writes && q.rpwm == p.rpwm)
            && q.cpwm == p.cpwm
            && (RegisterOk(p) <==> !p.fwInPs || p.cpwm >= 2)
  {}

  /** Entering power save asks for sleep exactly if nobody is registered and nobody holds the clock, and for S2
      otherwise; leaving it asks for S4; what is already asked for is not written again. */
  lemma ModeChangeAsks(p: Power, r: PsRequest)
    requires !p.retry
    ensures var q := SetPsMode(p, RUNNING, r);
            var enters, leaves := 1 <= r.mode <= 10 && r.mayEnter, r.mode == 0 && p.mode != 0 && r.mayLeave;
            var level := if leaves then 12 else if p.alives == {} && !r.hold then 1 else 2;
            var asks := (enters || leaves) && if level == 1 then p.rpwm != 1 else p.rpwm < 2;
            && (enters ==> q.fwInPs && q.mode == r.mode) && (leaves ==> !q.fwInPs && q.mode == 0)
            && q.writes == (if asks then p.writes + [RpwmWrite(level, p.tog, p.cpwm < 2 && level >= 2)] else p.writes)
            && q.rpwm == (if asks then level else p.rpwm)
            && q.cpwm == (if asks && (p.cpwm >= 2 || level == 1) then level else p.cpwm)
            && q.alives == p.alives && !q.retry && (!enters && !leaves ==> q == p)
  {}

  /** The repetition of a request goes out although it asks for nothing new, if it is not answered by now. */
  lemma RetryAsks(p: Power)
    requires !p.retry
    ensures var q := RpwmRetry(p, RUNNING);
            && (p.rpwm == p.cpwm || p.cpwm >= 2 ==> q == p)
            && (p.rpwm != p.cpwm && p.cpwm < 2 ==>
                  && q.writes == p.writes + [RpwmWrite(p.rpwm % 16, p.tog, p.rpwm % 16 >= 2)]
                  && q.rpwm == p.rpwm % 16 && q.cpwm == (if p.rpwm % 16 >= 2 then p.cpwm else p.rpwm % 16))
            && !q.retry && q.alives == p.alives && q.fwInPs == p.fwInPs && q.mode == p.mode
  {}

  /** A report is taken in exactly if an awake level is asked for; it wakes the registered users if it is awake. */
  lemma ReportTaken(p: Power, state: nat)
    ensures var q := CpwmInt(p, state);
            && (p.rpwm < 2 ==> q == p)
            && (p.rpwm >= 2 ==> q == p.(cpwm := state % 16, cpwmTog := state / 128 % 2 * 128))
    ensures forall t :: CpwmWakes(p, state, t) <==> p.rpwm >= 2 && state % 16 >= 2 && t in p.alives
  {}

  // ---------------------------------------------------------------- the record updated in place

  class PwrCtrlPriv {
    var rpwm: nat
    var cpwm: nat
    var tog: nat
    var cpwmTog: nat
    var mode: nat
    var fwInPs: bool
    var alives: set<Task>
    var retry: bool
    var writes: seq<RpwmWrite>
    var cmdSema: nat
    var xmitSema: nat

    ghost function View(): Power
      reads this
    {
      Power(rpwm, cpwm, tog, cpwmTog, mode, fwInPs, alives, retry, writes)
    }

    constructor ()
      ensures View() == INITIAL && LevelInv(View()) && TraceInv(View())
      ensures cmdSema == 0 && xmitSema == 0
    {
      rpwm, cpwm, tog, cpwmTog := 0, S4, 128, 0;
      mode, fwInPs, alives, retry := MODE_ACTIVE, false, {}, false;
      writes := [RpwmWrite(0, 0, false)];
      cmdSema, xmitSema := 0, 0;
    }

    method SetRpwmLevel(dev: Device, want: nat)
      modifies this`rpwm, this`cpwm, this`tog, this`writes
      ensures View() == SetRpwm(old(View()), dev, want)
    {
      var level := want % 16;
      if !retry {
        if rpwm == level || (rpwm >= S2 && level >= S2) {
          return;
        }
      }
      if !dev.ready {
        cpwm := S4;
        return;
      }
      if dev.stopped {
        if level < S2 {
          return;
        }
      }
      var ack := cpwm < S2 && level >= S2;
      rpwm := level;
      writes := writes + [RpwmWrite(level, tog, ack)];
      tog := (tog + 128) % 256;
      if !ack {
        cpwm := level;
      }
    }

    method SetMode(dev: Device, r: PsRequest)
      modifies this`rpwm, this`cpwm, this`tog, this`writes, this`mode, this`fwInPs
      ensures View() == SetPsMode(old(View()), dev, r)
    {
      if r.mode > MODE_CARD_DISABLE {
        return;
      }
      if mode == r.mode && r.mode == MODE_ACTIVE {
        return;
      }
      if r.mode == MODE_ACTIVE {
        if r.mayLeave {
          mode := r.mode;
          SetRpwmLevel(dev, S4);
          fwInPs := false;
        }
      } else if r.mayEnter {
        fwInPs := true;
        mode := r.mode;
        var level := S2;
        if alives == {} {
          level := S0;
        }
        if r.hold {
          level := S2;
        }
        SetRpwmLevel(dev, level);
      }
    }

    method RegisterAlive(dev: Device, task: Task) returns (ok: bool)
      modifies this`rpwm, this`cpwm, this`tog, this`writes, this`alives
      ensures View() == Register(old(View()), dev, task)
      ensures ok == RegisterOk(old(View()))
    {
      ok := true;
      alives := alives + {task};
      if fwInPs {
        if cpwm < S2 {
          ok := false;
          if rpwm < S2 {
            SetRpwmLevel(dev, S2);
          }
        }
      }
    }

    method UnregisterAlive(dev: Device, task: Task, hold: bool)
      modifies this`rpwm, this`cpwm, this`tog, this`writes, this`alives
      ensures View() == Unregister(old(View()), dev, task, hold)
      ensures dev == RUNNING && !old(retry) && !hold && old(mode) != 0 && old(fwInPs) && old(cpwm) > 1 && alives == {} ==> rpwm == 1
      ensures alives != {} && !hold ==> writes == old(writes)
      ensures dev == RUNNING && hold && old(mode) != 0 && old(fwInPs) && old(cpwm) > 2 ==> rpwm >= 2
    {
      var level := S0;
      if hold {
        level := S2;
      }
      alives := alives - {task};
      if mode != MODE_ACTIVE && fwInPs {
        if cpwm > level {
          if level >= S2 || alives == {} {
            SetRpwmLevel(dev, level);
          }
        }
      }
    }

    method CpwmInterrupt(state: nat)
      modifies this`cpwm, this`cpwmTog, this`cmdSema, this`xmitSema
      ensures View() == CpwmInt(old(View()), state)
      ensures cmdSema == old(cmdSema) + if old(CpwmWakes(View(), state, Cmd)) then 1 else 0
      ensures xmitSema == old(xmitSema) + if old(CpwmWakes(View(), state, Xmit)) then 1 else 0
      ensures cmdSema == old(cmdSema) + if old(rpwm) >= 2 && state % 16 >= 2 && Cmd in alives then 1 else 0
      ensures xmitSema == old(xmitSema) + if old(rpwm) >= 2 && state % 16 >= 2 && Xmit in alives then 1 else 0
    {
      if rpwm < S2 {
        return;
      }
      cpwm := state % 16;
      cpwmTog := if state / 128 % 2 == 1 then 128 else 0;
      if cpwm >= S2 {
        if Cmd in alives {
          cmdSema := cmdSema + 1;
        }
        if Xmit in alives {
          xmitSema := xmitSema + 1;
        }
      }
    }

    /** The last locked section of the time-out work item. */
    method RetryRpwm(dev: Device)
      modifies this`rpwm, this`cpwm, this`tog, this`writes, this`retry
      ensures View() == RpwmRetry(old(View()), dev)
    {
      if rpwm == cpwm || cpwm >= S2 {
        return;
      }
      retry := true;
      SetRpwmLevel(dev, rpwm);
      retry := false;
    }
  }
}
