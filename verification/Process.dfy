/** One process: kernel/Process.cpp. */
module ProcessModel {
  import opened Basics

  datatype State = Ready | Sleeping | Waiting | Stopped

  datatype Timer = Timer(frequency: nat, ticks: nat)

  /** Timer::isExpired; a timer without a frequency never expires. */
  predicate IsExpired(t: Timer, now: nat) {
    t.frequency != 0 && now >= t.ticks
  }

  datatype Result = Success | WakeupPending | InvalidArgument

  /** The part of a process that scheduling depends on, as a value. */
  datatype Proc = Proc(state: State, parent: nat, waitId: nat, waitResult: nat, wakeups: nat, sleepTimer: Timer) {

    function Wait(id: nat): (Result, Proc) {
      if state != Ready then (InvalidArgument, this)
      else (Success, this.(state := Waiting, waitId := id))
    }

    function Join(result: nat): (Result, Proc) {
      if state != Waiting then (InvalidArgument, this)
      else (Success, this.(state := Ready, waitResult := result))
    }

    function Stop(): (Result, Proc) {
      if state == Waiting then (InvalidArgument, this)
      else (Success, this.(state := Stopped))
    }

    function Resume(): (Result, Proc) {
      if state != Stopped then (InvalidArgument, this)
      else (Success, this.(state := Ready))
    }

    function Wakeup(): (Result, Proc) {
      if state == Sleeping then
        (Success, this.(wakeups := wakeups + 1, state := Ready, sleepTimer := Timer(0, 0)))
      else
        (WakeupPending, this.(wakeups := wakeups + 1))
    }

    function Sleep(timer: Option<Timer>, ignoreWakeups: bool): (Result, Proc) {
      if state != Ready then (InvalidArgument, this)
      else if wakeups == 0 || ignoreWakeups then
        (Success, this.(state := Sleeping, sleepTimer := if timer.Some? then timer.value else sleepTimer))
      else
        (WakeupPending, this.(wakeups := 0))
    }
  }

  /** A freshly created process. */
  function NewProc(parent: nat): Proc {
    Proc(Stopped, parent, 0, 0, 0, Timer(0, 0))
  }

  class Process {
    const id: nat
    var state: State
    var parent: nat
    var waitId: nat
    var waitResult: nat
    var wakeups: nat
    var sleepTimer: Timer

    ghost function View(): Proc
      reads this
    {
      Proc(state, parent, waitId, waitResult, wakeups, sleepTimer)
    }

    constructor (id: nat)
      ensures this.id == id && View() == NewProc(0)
    {
      this.id := id;
      state, parent, waitId, waitResult, wakeups, sleepTimer := Stopped, 0, 0, 0, 0, Timer(0, 0);
    }

    method Wait(target: nat) returns (r: Result)
      modifies this
      ensures (r, View()) == old(View()).Wait(target)
    {
      if state != Ready {
        return InvalidArgument;
      }
      state := Waiting;
      waitId := target;
      r := Success;
    }

    method Join(result: nat) returns (r: Result)
      modifies this
      ensures (r, View()) == old(View()).Join(result)
    {
      if state != Waiting {
        return InvalidArgument;
      }
      waitResult := result;
      state := Ready;
      r := Success;
    }

    method Stop() returns (r: Result)
      modifies this
      ensures (r, View()) == old(View()).Stop()
    {
      if state != Ready && state != Sleeping && state != Stopped {
        return InvalidArgument;
      }
      state := Stopped;
      r := Success;
    }

    method Resume() returns (r: Result)
      modifies this
      ensures (r, View()) == old(View()).Resume()
    {
      if state != Stopped {
        return InvalidArgument;
      }
      state := Ready;
      r := Success;
    }

    method Wakeup() returns (r: Result)
      modifies this
      ensures (r, View()) == old(View()).Wakeup()
    {
      wakeups := wakeups + 1;
      if state == Sleeping {
        state := Ready;
        sleepTimer := Timer(0, 0);
        return Success;
      } else {
        return WakeupPending;
      }
    }

    method Sleep(timer: Option<Timer>, ignoreWakeups: bool) returns (r: Result)
      modifies this
      ensures (r, View()) == old(View()).Sleep(timer, ignoreWakeups)
    {
      if state != Ready {
        return InvalidArgument;
      }
      if wakeups == 0 || ignoreWakeups {
        state := Sleeping;
        if timer.Some? {
          sleepTimer := timer.value;
        }
        return Success;
      }
      wakeups := 0;
      r := WakeupPending;
    }
  }
}
