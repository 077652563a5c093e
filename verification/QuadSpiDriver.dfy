/**
 The AXI Quad SPI driver: one `Transfer` is one complete flash command of at most 256 bytes.

 `Ran` and `Cut` are what a transfer means to the flash, free of registers and FIFOs: the flash
 saw exactly the command (or a prefix of it), and the result is what it drove for that command.
 */
module QuadSpiDriver {
  import opened Results
  import opened Bytes
  import opened Clocks
  import opened NorFlash
  import opened FlashHistory
  import opened QuadSpiCore

  /** The flash received `cmd` in one selection and answered `response`, going from `f` to `g`. */
  ghost predicate Ran(f: Nor, cmd: seq<byte>, response: seq<byte>, g: Nor)
    requires Conforming(f)
  {
    && |response| == |cmd|
    && exists h, x ::
         && Evolves(f, h) && Conforming(h) && Answered(f, h, cmd, 0, response)
         && Executed(h, cmd, x) && Evolves(x, g)
  }

  /** The flash was not selected at all, or deselected after some prefix of `cmd`. */
  ghost predicate Cut(f: Nor, cmd: seq<byte>, g: Nor) {
    Evolves(f, g) || exists n, h, x :: 0 <= n <= |cmd| && CutAt(f, cmd, n, h, x) && Evolves(x, g)
  }

  ghost predicate CutAt(f: Nor, cmd: seq<byte>, n: nat, h: Nor, x: Nor)
    requires n <= |cmd|
  {
    Evolves(f, h) && Conforming(h) && Executed(h, cmd[..n], x)
  }

  /** No slave is selected and the core may not shift. */
  predicate Parked(s: CoreState) {
    s.control & INHIBIT != 0 && !Selected(s)
  }

  /** Idle, deselected, with empty FIFOs: everything but the flash and the other interrupts is as in `a`. */
  ghost predicate Cleared(a: CoreState, b: CoreState) {
    && b == a.(control := IDLE, select := b.select, pending := b.pending, tx := [], rx := [], flash := b.flash)
    && Evolves(a.flash, b.flash)
  }

  /** A parked core holds exactly `bytes` to send, nothing to receive, and no latched event. */
  ghost predicate Queued(bytes: seq<byte>, s: CoreState) {
    s.control == 0x186 && s.select == SELECT_NONE && s.tx == bytes && s.rx == [] && s.pending & EVENTS == 0
  }

  /** One command: the flash is selected with all of it queued, and then the core is let run. */
  function CommandTrace(bytes: seq<byte>): seq<Event> {
    [Selection(bytes), Started(true, bytes)]
  }

  ghost predicate Unselected(f: Nor, trace: seq<Event>, s: CoreState) {
    !Selected(s) && !Resetting(s) && s.trace == trace && Evolves(f, s.flash)
  }

  /** `cmd` is being exchanged with the flash, which was `f` when it was selected. */
  ghost predicate Exchanging(f: Nor, cmd: seq<byte>, s: CoreState) {
    && |cmd| <= FIFO_DEPTH
    && s.select == SELECT_FLASH
    && !Resetting(s)
    && s.mosi + s.tx == cmd
    && |s.rx| == |s.mosi|
    && Conforming(f) && Conforming(s.flash) && Evolves(f, s.flash)
    && Answered(f, s.flash, cmd, 0, s.rx)
    && (EmptySeen(s.pending) ==> s.tx == [])
  }

  lemma AnsweredLater(f: Nor, g: Nor, h: Nor, sent: seq<byte>, replies: seq<byte>)
    requires Conforming(f) && Conforming(g) && Conforming(h)
    requires Evolves(f, g) && Evolves(g, h) && |replies| <= |sent|
    requires Answered(f, g, sent, 0, replies)
    ensures Answered(f, h, sent, 0, replies)
  {
    EvolvesTransitive(f, g, h);
    forall i | 0 <= i < |replies|
      ensures Sampled(f, h, sent[..i], replies[i])
    {
      assert sent[..0 + i] == sent[..i];
      assert Sampled(f, g, sent[..0 + i], replies[i]);
    }
  }

  /** Shifting, or waiting inhibited, keeps the exchange intact. */
  lemma ExchangeDrifts(f: Nor, cmd: seq<byte>, a: CoreState, b: CoreState)
    requires Exchanging(f, cmd, a) && Drift(a, b)
    ensures Exchanging(f, cmd, b)
    ensures b.control == a.control && b.trace == a.trace && (a.tx == [] ==> b.tx == [])
    ensures !Running(a) ==> b.tx == a.tx && b.rx == a.rx && b.mosi == a.mosi
  {
    hide Evolves, Conforming, Answered, ShiftDrift;
    EvolvesTransitive(f, a.flash, b.flash);
    if Running(a) {
      ExchangeShifts(f, cmd, a, b);
    } else {
      AnsweredLater(f, a.flash, b.flash, cmd, a.rx);
    }
  }

  lemma ExchangeShifts(f: Nor, cmd: seq<byte>, a: CoreState, b: CoreState)
    requires Exchanging(f, cmd, a) && Evolves(a.flash, b.flash) && Conforming(b.flash) && ShiftDrift(a, b)
    ensures Exchanging(f, cmd, b)
    ensures b.control == a.control && b.trace == a.trace && (a.tx == [] ==> b.tx == [])
  {
    hide Evolves, Conforming, Answered;
    EvolvesTransitive(f, a.flash, b.flash);
    AnsweredLater(f, a.flash, b.flash, cmd, a.rx);
    var n := |a.tx| - |b.tx|;
    assert a.tx == a.tx[..n] + a.tx[n..];
    assert b.mosi + b.tx == cmd;
    MoreAnswered(f, a.flash, b.flash, cmd, a.rx, b.rx);
  }

  lemma MoreAnswered(f: Nor, g: Nor, h: Nor, cmd: seq<byte>, before: seq<byte>, after: seq<byte>)
    requires Conforming(f) && Conforming(g) && Conforming(h) && Evolves(f, g) && Evolves(g, h)
    requires |before| <= |after| <= |cmd| && after[..|before|] == before
    requires Answered(f, h, cmd, 0, before) && Answered(g, h, cmd, |before|, after[|before|..])
    ensures Answered(f, h, cmd, 0, after)
  {
    EvolvesTransitive(f, g, h);
    forall i | 0 <= i < |after|
      ensures Sampled(f, h, cmd[..0 + i], after[i])
    {
      if i < |before| {
        assert after[i] == before[i];
        assert Sampled(f, h, cmd[..0 + i], before[i]);
      } else {
        var rest := after[|before|..];
        assert rest[i - |before|] == after[i];
        assert Sampled(g, h, cmd[..|before| + (i - |before|)], rest[i - |before|]);
      }
    }
  }

  lemma UnselectedDrift(f: Nor, trace: seq<Event>, a: CoreState, b: CoreState)
    requires Conforming(a.flash) && Unselected(f, trace, a) && Drift(a, b)
    ensures Unselected(f, trace, b) && b.control == a.control && Conforming(b.flash)
  {
    EvolvesTransitive(f, a.flash, b.flash);
  }

  /** Neither select nor reset nor start: the idle control word, or the value that selects nothing. */
  predicate SelectsNothing(offset: word, value: word) {
    (offset == SPI_CONTROL && value == IDLE) || (offset == SLAVE_SELECT && value == SELECT_NONE)
  }

  lemma UnselectedWrite(f: Nor, trace: seq<Event>, m: CoreState, offset: word, value: word, t: CoreState)
    requires Conforming(m.flash) && Unselected(f, trace, m) && Poked(m, offset, value, t)
    requires SelectsNothing(offset, value)
    ensures Unselected(f, trace, t) && t.control == if offset == SPI_CONTROL then value else m.control
  {
  }

  /** A parked or inhibited core lets the flash move on, and shifts nothing. */
  lemma InhibitedDrift(a: CoreState, b: CoreState)
    requires Conforming(a.flash) && Drift(a, b) && a.control == IDLE
    ensures b == a.(flash := b.flash, pending := b.pending) && b.pending & EVENTS == a.pending & EVENTS
    ensures Evolves(a.flash, b.flash) && Conforming(b.flash)
  {
  }

  lemma ByteTaken(m: CoreState, value: word)
    requires Peeked(m, DATA_RECEIVE, value) && m.rx != []
    ensures (value & 0xff) as byte == m.rx[0]
  {
  }

  class AxiQuadSpi {
    const core: RegisterWindow
    const timeout: nat

    /** What the constructor stores before it touches the hardware. */
    constructor (core: RegisterWindow, timeout: nat)
      ensures this.core == core && this.timeout == timeout
    {
      this.core, this.timeout := core, timeout;
    }

    ghost predicate Valid()
      reads this, core
    {
      core.Valid() && Parked(core.s)
    }

    /**
     What there is to see after a command failed that was begun when `past` was all: a latched command
     error in the status that was polled last, neither that nor an empty transmit FIFO, or a FIFO reset
     that has not ended, the last two after the time allowed for it.
     */
    ghost predicate Shows(past: seq<Nor>, e: Error)
      reads this, core
    {
      match e
      case CommandRejected(_) => ErrorSeen(core.polled)
      case TransmitTimeout => !ErrorSeen(core.polled) && !EmptySeen(core.polled) && Elapsed(past, core.past, timeout)
      case FifoResetTimeout => Resetting(core.s) && Elapsed(past, core.past, timeout)
      case _ => false
    }

    /** Construction, which hands the SPI clock over to the core and may fail. */
    static method Create(core: RegisterWindow, timeoutMs: int) returns (r: Result<AxiQuadSpi>)
      requires core.Valid() && !Selected(core.s)
      modifies core
      ensures core.Valid()
      ensures Extends(old(core.past), core.past)
      ensures Evolves(old(core.s.flash), core.s.flash)
      ensures r.Ok? ==> core.s.trace == old(core.s.trace) + [Started(false, [0x9f, 0, 0]), SoftwareReset]
      ensures r == Err(InvalidArgument) <==> timeoutMs <= 0
      ensures r == Err(InvalidArgument) ==> core.s == old(core.s)
      ensures r.Ok? ==> r.value.core == core && r.value.Valid() && Queued([], core.s)
      ensures r.Ok? ==> r.value.timeout == timeoutMs * 1_000_000
      ensures r.Err? && r.error != InvalidArgument ==>
        && r.error == FifoResetTimeout && Resetting(core.s) && Parked(core.s)
        && Elapsed(old(core.past), core.past, timeoutMs * 1_000_000)
    {
      hide Extends, EndsAt;
      ExtensionsChain();
      if timeoutMs <= 0 {
        return Err(InvalidArgument);
      }
      var spi := new AxiQuadSpi(core, timeoutMs * MILLISECOND);
      var _ :- spi.PrimeStartupClock();
      return Ok(spi);
    }

    /** Clock three bytes out with no slave selected, discard what came back, and start afresh. */
    method PrimeStartupClock() returns (r: Result<()>)
      requires core.Valid() && !Selected(core.s)
      modifies core
      ensures core.Valid() && Parked(core.s)
      ensures Extends(old(core.past), core.past)
      ensures Evolves(old(core.s.flash), core.s.flash)
      ensures r.Ok? ==> Queued([], core.s)
      ensures r.Ok? ==> core.s.trace == old(core.s.trace) + [Started(false, [0x9f, 0, 0]), SoftwareReset]
      ensures r.Err? ==> r.error == FifoResetTimeout && Shows(old(core.past), FifoResetTimeout)
    {
      hide Extends, EndsAt, Elapsed, ErrorSeen, EmptySeen, Conforming, Queued;
      ExtensionsChain();
      ghost var f := core.s.flash;
      var _ :- Prepare();
      ghost var g := core.s.flash;
      Queue([READ_ID, 0, 0]);
      EvolvesTransitive(f, g, core.s.flash);
      ghost var trace := core.s.trace + [Started(false, [READ_ID, 0, 0])];
      ClockOut(f, [READ_ID, 0, 0]);
      DiscardReplies(f, trace);
      g := core.s.flash;
      r := Reset();
      EvolvesTransitive(f, g, core.s.flash);
    }

    /** Let the core shift what is queued, with nothing selected. */
    method ClockOut(ghost f: Nor, ghost bytes: seq<byte>)
      requires core.Valid() && Queued(bytes, core.s) && Evolves(f, core.s.flash)
      modifies core
      ensures core.Valid() && Unselected(f, old(core.s.trace) + [Started(false, bytes)], core.s)
      ensures Extends(old(core.past), core.past)
    {
      hide Extends, EndsAt, Drift, Conforming;
      ghost var before := core.s;
      ghost var m := core.Write(SPI_CONTROL, RUN);
      InhibitedDrift(before, m);
      EvolvesTransitive(f, before.flash, core.s.flash);
    }

    /** Stop the core, and take up to two of the bytes that came back. */
    method DiscardReplies(ghost f: Nor, ghost trace: seq<Event>)
      requires core.Valid() && Unselected(f, trace, core.s)
      modifies core
      ensures core.Valid() && Unselected(f, trace, core.s)
      ensures Extends(old(core.past), core.past)
    {
      hide Extends, EndsAt, Unselected;
      ExtensionsChain();
      var value := ReadUnselected(f, trace, SPI_CONTROL);
      WriteUnselected(f, trace, SPI_CONTROL, IDLE);
      for index := 0 to 2
        invariant Unselected(f, trace, core.s)
        invariant core.Valid()
        invariant Extends(old(core.past), core.past)
      {
        value := ReadUnselected(f, trace, SPI_STATUS);
        if value & RX_EMPTY != 0 {
          break;
        }
        value := ReadUnselected(f, trace, DATA_RECEIVE);
      }
      WriteUnselected(f, trace, SPI_CONTROL, IDLE);
      WriteUnselected(f, trace, SLAVE_SELECT, SELECT_NONE);
    }

    /** A register write that neither selects the flash nor resets FIFOs. */
    method WriteUnselected(ghost f: Nor, ghost trace: seq<Event>, offset: word, value: word)
      requires core.Valid() && Unselected(f, trace, core.s)
      requires SelectsNothing(offset, value)
      modifies core
      ensures core.Valid() && Unselected(f, trace, core.s)
      ensures Extends(old(core.past), core.past)
      ensures core.s.control == if offset == SPI_CONTROL then value else old(core.s.control)
    {
      hide Extends, EndsAt, Drift, Poked, SelectsNothing, Unselected;
      ghost var before := core.s;
      ghost var m := core.Write(offset, value);
      UnselectedDrift(f, trace, before, m);
      UnselectedWrite(f, trace, m, offset, value, core.s);
    }

    method ReadUnselected(ghost f: Nor, ghost trace: seq<Event>, offset: word) returns (value: word)
      requires core.Valid() && Unselected(f, trace, core.s)
      modifies core
      ensures core.Valid() && Unselected(f, trace, core.s)
      ensures Extends(old(core.past), core.past)
      ensures core.s.control == old(core.s.control)
    {
      hide Extends, EndsAt, Drift, Peeked;
      ghost var before := core.s;
      ghost var m;
      value, m := core.Read(offset);
      UnselectedDrift(f, trace, before, m);
    }

    method Reset() returns (r: Result<()>)
      requires core.Valid() && Unselected(core.s.flash, core.s.trace, core.s)
      modifies core
      ensures core.Valid() && Parked(core.s) && core.s.trace == old(core.s.trace) + [SoftwareReset]
      ensures Extends(old(core.past), core.past)
      ensures Evolves(old(core.s.flash), core.s.flash)
      ensures r.Ok? ==> Queued([], core.s)
      ensures r.Err? ==> r.error == FifoResetTimeout && Shows(old(core.past), FifoResetTimeout)
    {
      hide Extends, EndsAt;
      ExtensionsChain();
      ghost var m := core.Write(SOFTWARE_RESET, SOFTWARE_RESET_KEY);
      ghost var g := core.s.flash;
      r := Prepare();
      EvolvesTransitive(old(core.s.flash), g, core.s.flash);
    }

    method ResetFifos() returns (r: Result<()>)
      requires core.Valid() && !Selected(core.s)
      modifies core
      ensures core.Valid() && core.s.control & INHIBIT != 0
      ensures Extends(old(core.past), core.past) && core.received == old(core.received)
      ensures core.s.select == old(core.s.select) && core.s.trace == old(core.s.trace)
      ensures Evolves(old(core.s.flash), core.s.flash)
      ensures r.Ok? ==> Cleared(old(core.s), core.s)
      ensures r.Err? ==> r.error == FifoResetTimeout && Shows(old(core.past), FifoResetTimeout)
    {
      hide Extends, EndsAt, Evolves, Answered;
      ExtensionsChain();
      ghost var m := core.Write(SPI_CONTROL, IDLE | FIFO_RESETS);
      ghost var begun := core.s.flash;
      r := AwaitFifoReset();
      EvolvesTransitive(old(core.s.flash), begun, core.s.flash);
      if r.Err? {
        return;
      }
      ghost var before := core.s.flash;
      m := core.Write(SPI_CONTROL, IDLE);
      EvolvesTransitive(old(core.s.flash), before, core.s.flash);
    }

    /** Poll until the core has cleared both reset bits, and with them both FIFOs. */
    method AwaitFifoReset() returns (r: Result<()>)
      requires core.Valid() && core.s.control == IDLE | FIFO_RESETS
      modifies core
      ensures core.Valid() && Extends(old(core.past), core.past) && core.received == old(core.received)
      ensures core.s == old(core.s).(control := core.s.control, pending := core.s.pending, tx := core.s.tx,
                                     rx := core.s.rx, flash := core.s.flash)
      ensures Evolves(old(core.s.flash), core.s.flash)
      ensures r.Ok? ==> core.s.control == IDLE && core.s.tx == [] && core.s.rx == []
      ensures r.Err? ==> r.error == FifoResetTimeout && core.s.control == IDLE | FIFO_RESETS
      ensures r.Err? ==> Elapsed(old(core.past), core.past, timeout)
    {
      hide Extends, EndsAt, Evolves, Answered;
      ExtensionsChain();
      var deadline := core.clock + timeout;
      var value: word;
      ghost var m;
      value, m := core.Read(SPI_CONTROL);
      while value & FIFO_RESETS != 0
        invariant core.Valid()
        invariant Extends(old(core.past), core.past) && core.received == old(core.received)
        invariant core.s == old(core.s).(control := value, pending := core.s.pending, tx := core.s.tx,
                                         rx := core.s.rx, flash := core.s.flash)
        invariant Evolves(old(core.s.flash), core.s.flash)
        invariant value == IDLE | FIFO_RESETS || (value == IDLE && core.s.tx == [] && core.s.rx == [])
        decreases deadline - core.clock
      {
        if core.clock >= deadline {
          return Err(FifoResetTimeout);
        }
        ghost var before := core.s.flash;
        value, m := core.Read(SPI_CONTROL);
        EvolvesTransitive(old(core.s.flash), before, core.s.flash);
      }
      return Ok(());
    }

    /** IPISR toggles on write: writing back what was read clears what was pending. */
    method ClearInterrupts()
      requires core.Valid() && !Running(core.s) && !Resetting(core.s)
      modifies core
      ensures core.Valid()
      ensures Extends(old(core.past), core.past) && core.received == old(core.received)
      ensures core.s == old(core.s).(pending := core.s.pending, flash := core.s.flash)
      ensures core.s.pending & EVENTS == 0
      ensures Evolves(old(core.s.flash), core.s.flash)
    {
      hide Extends, EndsAt;
      ExtensionsChain();
      ghost var m;
      var pending;
      pending, m := core.Read(INTERRUPT_STATUS);
      if pending != 0 {
        ghost var before := core.s.flash;
        m := core.Write(INTERRUPT_STATUS, pending);
        EvolvesTransitive(old(core.s.flash), before, core.s.flash);
      }
    }

    /** A parked core is ready to queue a command: empty FIFOs and no latched event. */
    method Prepare() returns (r: Result<()>)
      requires core.Valid() && !Selected(core.s)
      modifies core
      ensures core.Valid() && core.s.control & INHIBIT != 0 && core.s.trace == old(core.s.trace)
      ensures Extends(old(core.past), core.past) && core.received == old(core.received)
      ensures core.s.select == SELECT_NONE || core.s.select == old(core.s.select)
      ensures Evolves(old(core.s.flash), core.s.flash)
      ensures r.Ok? ==> Queued([], core.s)
      ensures r.Err? ==> r.error == FifoResetTimeout && Shows(old(core.past), FifoResetTimeout)
      ensures r.Err? ==> core.s.select == old(core.s.select)
    {
      hide Extends, EndsAt;
      ExtensionsChain();
      var _ :- ResetFifos();
      ghost var f1 := core.s.flash;
      ghost var m := core.Write(SLAVE_SELECT, SELECT_NONE);
      ghost var f2 := core.s.flash;
      ClearInterrupts();
      EvolvesTransitive(old(core.s.flash), f1, f2);
      EvolvesTransitive(old(core.s.flash), f2, core.s.flash);
      return Ok(());
    }

    /** Queue `bytes` in the transmit FIFO of a prepared core. */
    method Queue(bytes: seq<byte>)
      requires core.Valid() && Queued([], core.s) && |bytes| <= FIFO_DEPTH
      modifies core
      ensures core.Valid() && Queued(bytes, core.s) && core.s.trace == old(core.s.trace)
      ensures Extends(old(core.past), core.past) && core.received == old(core.received)
      ensures Evolves(old(core.s.flash), core.s.flash)
    {
      hide Extends, EndsAt, Drift, Conforming, Evolves;
      ExtensionsChain();
      EvolvesSelf(core.s.flash);
      ghost var m;
      for i := 0 to |bytes|
        invariant core.Valid() && Queued(bytes[..i], core.s) && core.s.trace == old(core.s.trace)
        invariant Extends(old(core.past), core.past) && core.received == old(core.received)
        invariant Evolves(old(core.s.flash), core.s.flash)
      {
        ghost var before := core.s;
        m := core.Write(DATA_TRANSMIT, bytes[i] as word);
        InhibitedDrift(before, m);
        EvolvesTransitive(old(core.s.flash), before.flash, core.s.flash);
        assert bytes[..i + 1] == bytes[..i] + [bytes[i]];
      }
      assert bytes[..|bytes|] == bytes;
      ghost var before := core.s;
      var posted: word;
      posted, m := core.Read(SPI_CONTROL);
      InhibitedDrift(before, m);
      EvolvesTransitive(old(core.s.flash), before.flash, core.s.flash);
    }

    /** Park the core: inhibit first, then end the command by deselecting the flash. */
    method Park(ghost f: Nor, ghost cmd: seq<byte>)
      requires core.Valid() && Exchanging(f, cmd, core.s)
      modifies core
      ensures core.Valid() && Parked(core.s) && core.s.control == IDLE && core.s.trace == old(core.s.trace)
      ensures core.polled == old(core.polled)
      ensures Extends(old(core.past), core.past) && core.received == old(core.received)
      ensures Cut(f, cmd, core.s.flash)
    {
      hide Extends, EndsAt, Drift, Executed, Answered, Evolves;
      ExtensionsChain();
      ghost var s0 := core.s;
      ghost var m := core.Write(SPI_CONTROL, IDLE);
      ExchangeDrifts(f, cmd, s0, m);
      ghost var s1 := core.s;
      m := core.Write(SLAVE_SELECT, SELECT_NONE);
      ExchangeDrifts(f, cmd, s1, m);
      assert m.mosi == cmd[..|m.mosi|];
      EvolvesSelf(core.s.flash);
      assert CutAt(f, cmd, |m.mosi|, m.flash, core.s.flash);
    }

    method Transfer(bytes: seq<byte>) returns (r: Result<seq<byte>>)
      requires Valid()
      modifies core
      ensures Valid()
      ensures Extends(old(core.past), core.past)
      ensures core.received == old(core.received) + if r.Ok? then r.value else []
      ensures r == Err(InvalidArgument) <==> |bytes| == 0 || |bytes| > 256
      ensures r == Err(InvalidArgument) ==> core.s == old(core.s)
      ensures r.Ok? ==>
        && Ran(old(core.s.flash), bytes, r.value, core.s.flash)
        && Queued([], core.s)
        && core.s.trace == old(core.s.trace) + CommandTrace(bytes)
        && Elapsed(old(core.past), core.past, 1)
      ensures r.Err? && r.error != InvalidArgument ==>
        && Shows(old(core.past), r.error)
        && (r.error.CommandRejected? ==> r.error.opcode == bytes[0])
        && Cut(old(core.s.flash), bytes, core.s.flash)
        && core.s.trace == old(core.s.trace) + if r.error == FifoResetTimeout then [] else CommandTrace(bytes)
    {
      hide Extends, EndsAt;
      ExtensionsChain();
      if |bytes| == 0 || |bytes| > FIFO_DEPTH {
        return Err(InvalidArgument);
      }
      ghost var f := core.s.flash;
      var ready := Prepare();
      if ready.Err? {
        NothingSent(f, bytes, core.s.flash);
        return Err(ready.error);
      }
      Launch(f, bytes);
      var sent := AwaitSent(f, bytes);
      if sent.Err? {
        return Err(sent.error);
      }
      var result := Collect(f, bytes);
      return Ok(result);
    }

    /** Queue the whole command, then select the flash and let the core run. */
    method Launch(ghost f: Nor, bytes: seq<byte>)
      requires core.Valid() && Queued([], core.s) && 0 < |bytes| <= FIFO_DEPTH
      requires Conforming(f) && Evolves(f, core.s.flash)
      modifies core
      ensures core.Valid() && Exchanging(f, bytes, core.s) && core.s.control == 0x86
      ensures Extends(old(core.past), core.past) && core.received == old(core.received)
      ensures core.s.trace == old(core.s.trace) + CommandTrace(bytes)
    {
      hide Extends, EndsAt, Drift;
      ExtensionsChain();
      ghost var f1 := core.s.flash;
      Queue(bytes);
      EvolvesTransitive(f, f1, core.s.flash);
      Select(f, bytes);
      ghost var s0 := core.s;
      ghost var m := core.Write(SPI_CONTROL, RUN);
      ExchangeDrifts(f, bytes, s0, m);
      assert core.s.trace == s0.trace + [Started(true, bytes)];
      assert [Selection(bytes)] + [Started(true, bytes)] == CommandTrace(bytes);
    }

    method Select(ghost f: Nor, ghost bytes: seq<byte>)
      requires core.Valid() && Queued(bytes, core.s) && |bytes| <= FIFO_DEPTH
      requires Conforming(f) && Evolves(f, core.s.flash)
      modifies core
      ensures core.Valid() && Exchanging(f, bytes, core.s)
      ensures Extends(old(core.past), core.past) && core.received == old(core.received)
      ensures core.s.control == IDLE && core.s.tx == bytes
      ensures core.s.trace == old(core.s.trace) + [Selection(bytes)]
    {
      hide Extends, EndsAt;
      ExtensionsChain();
      ghost var m := core.Write(SLAVE_SELECT, SELECT_FLASH);
      EvolvesTransitive(f, old(core.s.flash), core.s.flash);
    }

    /** Clear what made the wait end. */
    method AcknowledgeError(ghost f: Nor, ghost bytes: seq<byte>, pending: word)
      requires core.Valid() && Parked(core.s) && core.s.control == IDLE && Cut(f, bytes, core.s.flash)
      modifies core
      ensures core.Valid() && Parked(core.s) && core.s.trace == old(core.s.trace)
      ensures core.polled == old(core.polled)
      ensures Extends(old(core.past), core.past) && core.received == old(core.received)
      ensures Cut(f, bytes, core.s.flash)
    {
      hide Extends, EndsAt, Drift, Cut;
      ghost var before := core.s;
      ghost var m := core.Write(INTERRUPT_STATUS, pending);
      InhibitedDrift(before, m);
      CutLater(f, bytes, before.flash, core.s.flash);
    }

    /** Poll until every byte has been shifted; on a rejection or at the deadline, park the core. */
    method AwaitSent(ghost f: Nor, bytes: seq<byte>) returns (r: Result<()>)
      requires core.Valid() && Exchanging(f, bytes, core.s) && core.s.control == RUN && 0 < |bytes|
      modifies core
      ensures core.Valid() && core.s.trace == old(core.s.trace)
      ensures Extends(old(core.past), core.past) && core.received == old(core.received)
      ensures r.Ok? ==> Exchanging(f, bytes, core.s) && core.s.control == RUN && core.s.tx == []
      ensures r.Ok? ==> !ErrorSeen(core.polled) && EmptySeen(core.polled)
      ensures r.Err? ==> r.error == TransmitTimeout || r.error == CommandRejected(bytes[0])
      ensures r.Err? ==> Shows(old(core.past), r.error)
      ensures r.Err? ==> Parked(core.s) && Cut(f, bytes, core.s.flash)
    {
      hide Extends, EndsAt, Drift, ErrorSeen, EmptySeen, Cut, Evolves, Answered, Conforming;
      ExtensionsChain();
      var deadline := core.clock + timeout;
      var pending: word;
      ghost var m;
      while true
        invariant core.Valid() && Exchanging(f, bytes, core.s) && core.s.control == RUN
        invariant Extends(old(core.past), core.past)
        invariant core.s.trace == old(core.s.trace) && core.received == old(core.received)
        decreases deadline - core.clock
      {
        ghost var s0 := core.s;
        pending, m := core.Read(INTERRUPT_STATUS);
        ExchangeDrifts(f, bytes, s0, core.s);
        if ErrorSeen(pending) {
          Park(f, bytes);
          AcknowledgeError(f, bytes, pending);
          return Err(CommandRejected(bytes[0]));
        }
        if EmptySeen(pending) {
          return Ok(());
        }
        if core.clock >= deadline {
          assert Elapsed(old(core.past), core.past, timeout);
          Park(f, bytes);
          return Err(TransmitTimeout);
        }
      }
    }

    /** Take the response out of the receive FIFO, then end the command. */
    method Collect(ghost f: Nor, bytes: seq<byte>) returns (result: seq<byte>)
      requires core.Valid() && Exchanging(f, bytes, core.s) && core.s.tx == []
      modifies core
      ensures core.Valid() && Queued([], core.s) && core.s.trace == old(core.s.trace)
      ensures Extends(old(core.past), core.past) && core.received == old(core.received) + result
      ensures Ran(f, bytes, result, core.s.flash) && Elapsed(old(core.past), core.past, 1)
    {
      hide Extends, EndsAt, Executed, Answered, Conforming, Drift, Ran, Evolves;
      ExtensionsChain();
      ghost var s0 := core.s;
      ghost var m := core.Write(SPI_CONTROL, IDLE);
      assert Elapsed(old(core.past), core.past, 1);
      ExchangeDrifts(f, bytes, s0, m);
      assert core.s.mosi == core.s.mosi + core.s.tx;
      ghost var g := core.s.flash;
      result := ReadResponse(|bytes|);
      EvolvesTransitive(f, g, core.s.flash);
      AnsweredLater(f, g, core.s.flash, bytes, result);
      g := Deselect(f, bytes, result);
      ClearInterrupts();
      RanLater(f, bytes, result, g, core.s.flash);
    }

    method Deselect(ghost f: Nor, ghost bytes: seq<byte>, ghost result: seq<byte>) returns (ghost g: Nor)
      requires core.Valid() && Selected(core.s) && core.s.control == IDLE && core.s.mosi == bytes
      requires Conforming(f) && Evolves(f, core.s.flash) && |result| == |bytes|
      requires Answered(f, core.s.flash, bytes, 0, result)
      modifies core
      ensures core.Valid() && g == core.s.flash
      ensures Extends(old(core.past), core.past) && core.received == old(core.received)
      ensures core.s == old(core.s).(select := SELECT_NONE, pending := core.s.pending, flash := g)
      ensures Ran(f, bytes, result, g)
    {
      hide Extends, EndsAt;
      ExtensionsChain();
      ghost var before := core.s.flash;
      ghost var m := core.Write(SLAVE_SELECT, SELECT_NONE);
      EvolvesTransitive(f, before, m.flash);
      AnsweredLater(f, before, m.flash, bytes, result);
      g := core.s.flash;
    }

    /** Empty the receive FIFO of an inhibited core, first byte first. */
    method ReadResponse(count: nat) returns (result: seq<byte>)
      requires core.Valid() && core.s.control == IDLE && |core.s.rx| == count
      modifies core
      ensures core.Valid()
      ensures Extends(old(core.past), core.past) && core.received == old(core.received) + result
      ensures core.s == old(core.s).(rx := [], pending := core.s.pending, flash := core.s.flash)
      ensures core.s.pending & EVENTS == old(core.s.pending) & EVENTS
      ensures Evolves(old(core.s.flash), core.s.flash)
      ensures result == old(core.s.rx)
    {
      hide Extends, EndsAt, Conforming, Evolves;
      ExtensionsChain();
      EvolvesSelf(core.s.flash);
      result := [];
      while |result| < count
        invariant core.Valid()
        invariant Extends(old(core.past), core.past) && core.received == old(core.received) + result
        invariant core.s == old(core.s).(rx := core.s.rx, pending := core.s.pending, flash := core.s.flash)
        invariant core.s.pending & EVENTS == old(core.s.pending) & EVENTS
        invariant Evolves(old(core.s.flash), core.s.flash)
        invariant result + core.s.rx == old(core.s.rx)
      {
        ghost var before := core.s;
        var value := TakeByte();
        EvolvesTransitive(old(core.s.flash), before.flash, core.s.flash);
        result := result + [value];
      }
    }

    method TakeByte() returns (value: byte)
      requires core.Valid() && core.s.control == IDLE && core.s.rx != []
      modifies core
      ensures core.Valid() && Extends(old(core.past), core.past) && core.received == old(core.received) + [value]
      ensures core.s == old(core.s).(rx := core.s.rx, pending := core.s.pending, flash := core.s.flash)
      ensures core.s.pending & EVENTS == old(core.s.pending) & EVENTS
      ensures Evolves(old(core.s.flash), core.s.flash)
      ensures [value] + core.s.rx == old(core.s.rx)
    {
      hide Extends, EndsAt, Drift, Conforming, Evolves, Peeked;
      var read: word;
      ghost var m;
      read, m := core.Read(DATA_RECEIVE);
      InhibitedDrift(old(core.s), m);
      ByteTaken(m, read);
      return (read & 0xff) as byte;
    }
  }

  lemma NothingSent(f: Nor, cmd: seq<byte>, g: Nor)
    requires Conforming(f) && Evolves(f, g)
    ensures Cut(f, cmd, g)
  {
  }

  lemma RanLater(f: Nor, cmd: seq<byte>, response: seq<byte>, g: Nor, h: Nor)
    requires Conforming(f) && Ran(f, cmd, response, g) && Evolves(g, h)
    ensures Ran(f, cmd, response, h)
  {
    var k, x :|
      Evolves(f, k) && Conforming(k) && Answered(f, k, cmd, 0, response) && Executed(k, cmd, x) && Evolves(x, g);
    EvolvesTransitive(x, g, h);
  }

  lemma CutLater(f: Nor, cmd: seq<byte>, g: Nor, h: Nor)
    requires Cut(f, cmd, g) && Evolves(g, h)
    ensures Cut(f, cmd, h)
  {
    if Evolves(f, g) {
      EvolvesTransitive(f, g, h);
    } else {
      var n: nat, k, x :| n <= |cmd| && CutAt(f, cmd, n, k, x) && Evolves(x, g);
      EvolvesTransitive(x, g, h);
    }
  }
}
