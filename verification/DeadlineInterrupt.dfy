/**
 The deadline of a blocking XDMA system call: a repeating per-thread timer raises a signal whose
 handler only sets a flag. The kernel's side of the protocol is a state in which the timer may expire
 at any moment between two steps.
 */
module DeadlineInterrupt {
  import opened Results

  /** An armed timer expires after `initial` and then every `interval` nanoseconds. */
  datatype Timer = Absent | Disarmed | Armed(initial: nat, interval: nat)

  /** What a timed wait for the signal reports: it took one, found none, or failed. */
  datatype Wait = Took | Interrupted | Empty | Failed

  /** How the guarded system call came back. */
  datatype Submission = Moved(bytes: nat) | Cut | Refused

  /** One system call that was made: what it was asked to move, and how it came back. */
  datatype Submitted = Submitted(size: nat, outcome: Submission)

  /** The largest byte count a system call can return. */
  const MAXIMUM_TRANSFER: nat := 0x7fff_ffff_ffff_ffff

  /** Exactly one call was made, and it was for the whole packet. */
  predicate OneMade(before: seq<Submitted>, after: seq<Submitted>, size: nat) {
    |after| == |before| + 1 && before < after && after[|before|].size == size
  }

  /**
   The thread's signal mask, its pending notification, its handler and its one timer. It will see
   `patience` more expirations and interruptions. `killed` records a delivery without a handler, which
   ends the process; `expiries` counts expirations and `failures` failed calls, `neglected` records the
   failure of one whose result the driver ignores, and `submissions` the guarded calls that were made.
   */
  class Thread {
    var blocked: bool
    var pending: bool
    var handler: bool
    var fired: bool
    var timer: Timer
    var patience: nat
    ghost var expiries: nat
    ghost var failures: nat
    ghost var killed: bool
    ghost var neglected: bool
    ghost var submissions: seq<Submitted>

    constructor (blocked: bool, handler: bool, patience: nat)
      ensures Valid() && timer == Absent && !pending && !killed && !neglected && submissions == []
      ensures this.blocked == blocked && this.handler == handler
    {
      this.blocked, this.handler, this.patience := blocked, handler, patience;
      pending, fired, timer := false, false, Absent;
      expiries, failures, killed, neglected, submissions := 0, 0, false, false, [];
    }

    /** A notification waits only behind the mask, and a timer exists only behind the handler. */
    predicate Valid()
      reads this
    {
      && (pending ==> blocked)
      && (timer != Absent ==> handler)
    }

    /** Nothing is left that could still raise the signal or wait for delivery. */
    predicate Quiescent()
      reads this
    {
      timer == Absent && !pending
    }

    /** Time passes: an armed timer may expire. */
    method Tick()
      requires Valid()
      modifies this`pending, this`fired, this`expiries, this`patience
      ensures Valid() && expiries >= old(expiries) && patience <= old(patience)
      ensures !timer.Armed? ==> pending == old(pending) && fired == old(fired) && expiries == old(expiries)
      ensures blocked ==> fired == old(fired)
      ensures pending && !old(pending) ==> expiries > old(expiries)
      ensures fired && !old(fired) ==> expiries > old(expiries)
      ensures pending ==> old(pending) || handler
      ensures old(pending) ==> pending
      ensures pending && !old(pending) ==> patience < old(patience)
    {
      var expires: bool := *;
      if expires && timer.Armed? && patience > 0 {
        patience := patience - 1;
        expiries := expiries + 1;
        if blocked {
          pending := true;
        } else {
          fired := true;
        }
      }
    }

    method Block() returns (ok: bool, previous: bool)
      requires Valid()
      modifies this`blocked, this`pending, this`fired, this`expiries, this`patience, this`failures
      ensures Valid() && expiries >= old(expiries) && previous == old(blocked)
      ensures if ok then blocked else blocked == old(blocked)
      ensures failures == old(failures) + if ok then 0 else 1
      ensures !timer.Armed? ==> pending == old(pending) && fired == old(fired) && expiries == old(expiries)
      ensures old(blocked) ==> fired == old(fired)
      ensures pending && !old(pending) ==> expiries > old(expiries)
      ensures fired && !old(fired) ==> expiries > old(expiries)
      ensures pending ==> old(pending) || handler
    {
      Tick();
      previous := blocked;
      ok := *;
      if ok {
        blocked := true;
      } else {
        failures := failures + 1;
      }
    }

    /** Unblocking delivers a waiting notification at once. */
    method Restore(previous: bool, ignored: bool) returns (ok: bool)
      requires Valid() && blocked
      modifies this`blocked, this`pending, this`fired, this`expiries, this`patience
      modifies this`killed, this`neglected, this`failures
      ensures Valid() && expiries >= old(expiries)
      ensures failures == old(failures) + if ok then 0 else 1
      ensures ok ==> blocked == previous && neglected == old(neglected)
      ensures !ok ==> blocked && neglected == (old(neglected) || ignored) && fired == old(fired)
      ensures !timer.Armed? && (blocked || !old(pending)) ==> pending == old(pending) && fired == old(fired)
      ensures handler || !old(pending) || previous ==> killed == old(killed)
      ensures fired && !old(fired) ==> expiries > old(expiries) || old(pending)
    {
      Tick();
      ok := *;
      if !ok {
        failures := failures + 1;
        neglected := neglected || ignored;
        return;
      }
      blocked := previous;
      if !blocked && pending {
        killed := killed || !handler;
        fired, pending := true, false;
      }
    }

    /** Consumes a waiting notification. */
    method TimedWait() returns (outcome: Wait)
      requires Valid()
      modifies this`pending, this`fired, this`expiries, this`patience, this`failures
      ensures Valid() && expiries >= old(expiries)
      ensures failures == old(failures) + if outcome == Failed then 1 else 0
      ensures blocked ==> fired == old(fired)
      ensures outcome == Empty && !timer.Armed? ==> !pending
      ensures !timer.Armed? ==> expiries == old(expiries) && (pending ==> old(pending))
      ensures !timer.Armed? && outcome == Took ==> old(pending)
      ensures pending ==> old(pending) || handler
      ensures outcome == Took || outcome == Interrupted ==>
        patience < old(patience) || (patience == old(patience) && old(pending) && !pending)
      ensures patience < old(patience) || (patience == old(patience) && (pending ==> old(pending)))
    {
      Tick();
      var interrupted, fails: bool := *, *;
      if interrupted && patience > 0 {
        patience := patience - 1;
        return Interrupted;
      }
      if fails {
        failures := failures + 1;
        return Failed;
      }
      if !pending {
        return Empty;
      }
      pending := false;
      return Took;
    }

    method InstallHandler() returns (ok: bool)
      requires Valid()
      modifies this`handler, this`failures
      ensures Valid() && (if ok then handler else handler == old(handler))
      ensures failures == old(failures) + if ok then 0 else 1
    {
      ok := *;
      handler := handler || ok;
      if !ok {
        failures := failures + 1;
      }
    }

    method CreateTimer() returns (ok: bool)
      requires Valid() && timer == Absent && handler
      modifies this`timer, this`failures
      ensures Valid() && timer == if ok then Disarmed else Absent
      ensures failures == old(failures) + if ok then 0 else 1
    {
      ok := *;
      if ok {
        timer := Disarmed;
      } else {
        failures := failures + 1;
      }
    }

    /** An initial expiration of zero leaves the timer disarmed. */
    method ArmTimer(initial: nat, interval: nat) returns (ok: bool)
      requires Valid() && timer == Disarmed
      modifies this`timer, this`failures
      ensures Valid() && timer == if ok && initial > 0 then Armed(initial, interval) else Disarmed
      ensures failures == old(failures) + if ok then 0 else 1
    {
      ok := *;
      if !ok {
        failures := failures + 1;
      } else if initial > 0 {
        timer := Armed(initial, interval);
      }
    }

    method DeleteTimer()
      requires Valid()
      modifies this`timer, this`pending, this`fired, this`expiries, this`patience, this`neglected, this`failures
      ensures Valid() && expiries >= old(expiries) && failures >= old(failures)
      ensures neglected && !old(neglected) ==> failures > old(failures)
      ensures blocked ==> fired == old(fired)
      ensures fired && !old(fired) ==> expiries > old(expiries)
      ensures !neglected ==> timer == Absent && !old(neglected)
      ensures old(timer) == Absent ==>
        timer == Absent && pending == old(pending) && fired == old(fired) && neglected == old(neglected)
      ensures old(neglected) ==> neglected
      ensures pending ==> old(pending) || handler
    {
      Tick();
      var fails: bool := *;
      if fails && timer != Absent {
        failures := failures + 1;
        neglected := true;
      } else {
        timer := Absent;
      }
    }

    /** A blocking write of `size` bytes, during which the timer may expire any number of times. */
    method Write(size: nat) returns (outcome: Submission)
      requires Valid()
      modifies this`pending, this`fired, this`expiries, this`patience, this`submissions
      ensures Valid() && expiries >= old(expiries)
      ensures !timer.Armed? ==> pending == old(pending) && fired == old(fired) && expiries == old(expiries)
      ensures pending ==> old(pending) || handler
      ensures fired && !old(fired) ==> expiries > old(expiries)
      ensures outcome.Moved? ==> outcome.bytes <= size
      ensures submissions == old(submissions) + [Submitted(size, outcome)]
    {
      var some: int := *;
      var moments := if some < 0 then 0 else some;
      for i := 0 to moments
        invariant Valid() && expiries >= old(expiries)
        invariant !timer.Armed? ==> pending == old(pending) && fired == old(fired) && expiries == old(expiries)
        invariant pending ==> old(pending) || handler
        invariant fired && !old(fired) ==> expiries > old(expiries)
        invariant submissions == old(submissions)
      {
        Tick();
      }
      var bytes: nat := *;
      var cut: bool := *;
      outcome := if bytes <= size then Moved(bytes) else if cut then Cut else Refused;
      submissions := submissions + [Submitted(size, outcome)];
    }
  }

  /** The guard object: `timerCreated` is what its destructor goes by. */
  class DriverDeadlineInterrupt {
    const thread: Thread
    var timerCreated: bool

    constructor (thread: Thread)
      ensures this.thread == thread && !timerCreated
    {
      this.thread, timerCreated := thread, false;
    }

    /** The thread and the guard agree on the timer, up to a clean-up call that failed. */
    ghost predicate Valid()
      reads this, thread
    {
      thread.Valid() && (thread.neglected || (timerCreated <==> thread.timer != Absent))
    }

    /** Empties the pending set; an ignored failure is recorded as such. */
    method Drain(throwOnError: bool) returns (ok: bool)
      requires thread.Valid() && thread.blocked
      modifies thread`pending, thread`fired, thread`expiries, thread`patience, thread`neglected, thread`failures
      ensures thread.Valid() && thread.fired == old(thread.fired) && thread.expiries >= old(thread.expiries)
      ensures !thread.timer.Armed? ==> thread.expiries == old(thread.expiries)
      ensures !thread.timer.Armed? && thread.pending ==> old(thread.pending)
      ensures ok && !thread.neglected && !thread.timer.Armed? ==> !thread.pending
      ensures throwOnError ==> thread.neglected == old(thread.neglected)
      ensures throwOnError ==> (ok <==> thread.failures == old(thread.failures))
      ensures !throwOnError ==> ok && (old(thread.neglected) ==> thread.neglected)
      ensures thread.neglected && !old(thread.neglected) ==> thread.failures > old(thread.failures)
      ensures thread.pending ==> old(thread.pending) || thread.handler
      ensures thread.failures >= old(thread.failures)
    {
      var outcome := thread.TimedWait();
      while outcome == Took || outcome == Interrupted
        invariant thread.Valid() && thread.fired == old(thread.fired) && thread.expiries >= old(thread.expiries)
        invariant !thread.timer.Armed? ==> thread.expiries == old(thread.expiries)
        invariant !thread.timer.Armed? && thread.pending ==> old(thread.pending)
        invariant outcome == Empty && !thread.timer.Armed? ==> !thread.pending
        invariant thread.neglected == old(thread.neglected)
        invariant thread.failures == old(thread.failures) + if outcome == Failed then 1 else 0
        decreases thread.patience, thread.pending, outcome == Took || outcome == Interrupted
      {
        outcome := thread.TimedWait();
      }
      if outcome == Empty {
        return true;
      }
      thread.neglected := thread.neglected || !throwOnError;
      return !throwOnError;
    }

    method Disarm()
      requires Valid()
      modifies this`timerCreated, thread`timer, thread`pending, thread`fired
      modifies thread`expiries, thread`patience, thread`neglected, thread`failures
      ensures Valid() && !timerCreated && thread.expiries >= old(thread.expiries)
      ensures thread.failures >= old(thread.failures)
      ensures thread.neglected && !old(thread.neglected) ==> thread.failures > old(thread.failures)
      ensures thread.blocked ==> thread.fired == old(thread.fired)
      ensures thread.fired && !old(thread.fired) ==> thread.expiries > old(thread.expiries)
      ensures old(thread.neglected) ==> thread.neglected
      ensures !thread.neglected ==> thread.timer == Absent
      ensures !old(timerCreated) ==> thread.pending == old(thread.pending)
      ensures thread.pending ==> old(thread.pending) || thread.handler
    {
      if timerCreated {
        thread.DeleteTimer();
        timerCreated := false;
      }
    }

    /** The clean-up of a failed construction. */
    method Undo(previous: bool)
      requires Valid() && thread.blocked && !previous && !thread.fired
      requires thread.pending ==> thread.handler
      modifies this`timerCreated, thread
      ensures Valid() && thread.killed == old(thread.killed) && thread.expiries >= old(thread.expiries)
      ensures thread.submissions == old(thread.submissions) && thread.failures >= old(thread.failures)
      ensures thread.neglected && !old(thread.neglected) ==> thread.failures > old(thread.failures)
      ensures old(thread.neglected) ==> thread.neglected
      ensures !thread.neglected ==> thread.Quiescent() && thread.blocked == previous && !thread.fired
    {
      Disarm();
      var _ := Drain(false);
      var _ := thread.Restore(previous, true);
    }

    /**
     On success the mask is the caller's, the handler is in place and the timer runs; a flag that is
     already up was raised by this guard's own timer. On failure nothing remains, and either the caller
     had blocked the signal or a call failed.
     */
    static method Create(thread: Thread, timeoutMs: int, installed: bool) returns (r: Result<DriverDeadlineInterrupt>)
      requires thread.Valid() && thread.timer == Absent && (installed ==> thread.handler)
      modifies thread
      ensures thread.Valid() && thread.killed == old(thread.killed) && thread.expiries >= old(thread.expiries)
      ensures thread.submissions == old(thread.submissions) && thread.failures >= old(thread.failures)
      ensures thread.neglected && !old(thread.neglected) ==> thread.failures > old(thread.failures)
      ensures r.Ok? ==> fresh(r.value) && r.value.thread == thread && r.value.Valid()
      ensures r.Ok? ==> thread.blocked == old(thread.blocked) && thread.pending == old(thread.pending)
      ensures r.Ok? ==> (r.value.timerCreated <==> timeoutMs >= 0) && thread.neglected == old(thread.neglected)
      ensures r.Ok? && timeoutMs >= 0 ==> !thread.blocked
      ensures r.Ok? && timeoutMs >= 0 ==>
        thread.timer == Armed(if timeoutMs == 0 then 1 else timeoutMs * 1_000_000, 1_000_000)
      ensures r.Ok? && timeoutMs < 0 ==> thread.timer == Absent && !thread.fired
      ensures r.Ok? && thread.fired ==> thread.expiries > old(thread.expiries)
      ensures r.Err? && !thread.neglected ==> thread.timer == Absent && !thread.fired
      ensures r.Err? && !thread.neglected ==>
        thread.blocked == old(thread.blocked) && thread.pending == old(thread.pending)
      ensures old(thread.neglected) ==> thread.neglected
      ensures r.Err? ==> timeoutMs >= 0 && (r.error == SignalBlocked || r.error == SystemFailure)
      ensures r == Err(SignalBlocked) ==> old(thread.blocked)
      ensures r == Err(SystemFailure) ==> thread.failures > old(thread.failures)
    {
      var guard := new DriverDeadlineInterrupt(thread);
      thread.fired := false;
      if timeoutMs < 0 {
        return Ok(guard);
      }
      var ok, previous := thread.Block();
      if !ok {
        return Err(SystemFailure);
      }
      if previous {
        var _ := thread.Restore(previous, true);
        return Err(SignalBlocked);
      }
      var armed := guard.Arm(timeoutMs, installed);
      if !armed {
        guard.Undo(previous);
        return Err(SystemFailure);
      }
      ok := thread.Restore(previous, false);
      if !ok {
        guard.Undo(previous);
        return Err(SystemFailure);
      }
      return Ok(guard);
    }

    /** Everything that runs behind the mask: drain, install the handler once, create and start the timer. */
    method Arm(timeoutMs: nat, installed: bool) returns (ok: bool)
      requires Valid() && thread.blocked && !thread.pending && !thread.fired && thread.timer == Absent && !timerCreated
      requires installed ==> thread.handler
      modifies this`timerCreated, thread`pending, thread`fired, thread`expiries, thread`patience
      modifies thread`neglected, thread`handler, thread`timer, thread`failures
      ensures Valid() && !thread.fired && !thread.pending && thread.neglected == old(thread.neglected)
      ensures thread.expiries == old(thread.expiries)
      ensures ok <==> thread.failures == old(thread.failures)
      ensures thread.failures >= old(thread.failures)
      ensures ok ==> timerCreated
      ensures ok ==> thread.timer == Armed(if timeoutMs == 0 then 1 else timeoutMs * 1_000_000, 1_000_000)
    {
      ok := Drain(true);
      if !ok {
        return;
      }
      if !installed {
        ok := thread.InstallHandler();
        if !ok {
          return;
        }
      }
      ok := thread.CreateTimer();
      if !ok {
        return;
      }
      timerCreated := true;
      var nanoseconds := if timeoutMs * 1_000_000 < 1 then 1 else timeoutMs * 1_000_000;
      ok := thread.ArmTimer(nanoseconds, 1_000_000);
    }

    /** Stops the timer and swallows what it still had to say, before the mask opens again. */
    method Destroy()
      requires Valid()
      modifies this`timerCreated, thread
      ensures thread.Valid() && thread.killed == old(thread.killed) && thread.expiries >= old(thread.expiries)
      ensures thread.submissions == old(thread.submissions) && thread.failures >= old(thread.failures)
      ensures thread.neglected && !old(thread.neglected) ==> thread.failures > old(thread.failures)
      ensures old(thread.neglected) ==> thread.neglected
      ensures !thread.neglected ==> thread.timer == Absent && thread.blocked == old(thread.blocked)
      ensures !thread.neglected && old(timerCreated) ==> !thread.pending && !thread.fired
      ensures !old(timerCreated) ==> thread.pending == old(thread.pending) && thread.fired == old(thread.fired)
    {
      if !timerCreated {
        return;
      }
      var ok, previous := thread.Block();
      Disarm();
      if !ok {
        thread.neglected := true;
        return;
      }
      var _ := Drain(false);
      thread.fired := false;
      var _ := thread.Restore(previous, true);
    }

    /**
     The body of a guarded write. A flag that is up already stops it before anything is submitted;
     otherwise exactly one call is made, and its outcome together with the flag decides.
     */
    method Attempt(size: nat) returns (r: Result<nat>)
      requires Valid()
      modifies thread`pending, thread`fired, thread`expiries, thread`patience, thread`submissions
      ensures Valid() && thread.expiries >= old(thread.expiries)
      ensures !thread.timer.Armed? ==> thread.pending == old(thread.pending) && thread.fired == old(thread.fired)
      ensures thread.pending ==> old(thread.pending) || thread.handler
      ensures thread.fired && !old(thread.fired) ==> thread.expiries > old(thread.expiries)
      ensures old(thread.fired) ==> thread.submissions == old(thread.submissions) && r == Err(Timeout) && thread.fired
      ensures !old(thread.fired) ==> OneMade(old(thread.submissions), thread.submissions, size)
      ensures !old(thread.fired) ==>
        var outcome := thread.submissions[|old(thread.submissions)|].outcome;
        && (r.Ok? <==> outcome == Moved(size) && !thread.fired)
        && (r.Ok? ==> r.value == size)
        && (r == Err(Timeout) <==> outcome != Refused && thread.fired)
        && (r.Err? ==> r.error == Timeout || r.error == TransferFailed)
    {
      if thread.fired {
        return Err(Timeout);
      }
      var outcome := thread.Write(size);
      if outcome == Cut {
        return if thread.fired then Err(Timeout) else Err(TransferFailed);
      }
      if outcome == Refused {
        return Err(TransferFailed);
      }
      if thread.fired {
        return Err(Timeout);
      }
      if outcome != Moved(size) {
        return Err(TransferFailed);
      }
      return Ok(size);
    }

    /**
     `XDMAStream::writeH2C`. Success means that one call was made and moved the whole packet; a failed
     transfer is one call that did not; a timeout is reported only after this call's own timer expired,
     before the call or without its being refused; and nothing is ever submitted twice. The thread is
     left as it was found.
     */
    static method WriteH2C(thread: Thread, size: nat, timeoutMs: int, installed: bool) returns (r: Result<nat>)
      requires thread.Valid() && thread.timer == Absent && (installed ==> thread.handler)
      modifies thread
      ensures thread.Valid() && thread.killed == old(thread.killed)
      ensures !thread.neglected ==> thread.timer == Absent && (r != Err(LengthOverflow) ==> !thread.fired)
      ensures !thread.neglected ==> thread.blocked == old(thread.blocked) && thread.pending == old(thread.pending)
      ensures thread.neglected && !old(thread.neglected) ==> thread.failures > old(thread.failures)
      ensures r == Err(LengthOverflow) <==> size > 0x7fff_ffff_ffff_ffff
      ensures
        || thread.submissions == old(thread.submissions)
        || OneMade(old(thread.submissions), thread.submissions, size)
      ensures r.Ok? ==>
        r.value == size && thread.submissions == old(thread.submissions) + [Submitted(size, Moved(size))]
      ensures r == Err(TransferFailed) ==>
        && OneMade(old(thread.submissions), thread.submissions, size)
        && thread.submissions[|old(thread.submissions)|].outcome != Moved(size)
      ensures r == Err(Timeout) ==> timeoutMs >= 0 && thread.expiries > old(thread.expiries)
      ensures r == Err(Timeout) && thread.submissions != old(thread.submissions) ==>
        thread.submissions[|old(thread.submissions)|].outcome != Refused
      ensures timeoutMs < 0 && r != Err(LengthOverflow) ==> thread.submissions != old(thread.submissions)
      ensures r == Err(SignalBlocked) || r == Err(SystemFailure) ==> thread.submissions == old(thread.submissions)
      ensures r == Err(SignalBlocked) ==> timeoutMs >= 0 && old(thread.blocked)
      ensures r == Err(SystemFailure) ==> timeoutMs >= 0 && thread.failures > old(thread.failures)
      ensures r.Err? ==> r.error in {LengthOverflow, TransferFailed, Timeout, SignalBlocked, SystemFailure}
    {
      if size > MAXIMUM_TRANSFER {
        return Err(LengthOverflow);
      }
      var created := Create(thread, timeoutMs, installed);
      if created.Err? {
        return Err(created.error);
      }
      var guard := created.value;
      r := guard.Attempt(size);
      guard.Destroy();
    }
  }
}
