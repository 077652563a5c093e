/**
 The AXI Quad SPI core of PG153 v3.2 (standard mode, 256-element FIFOs, manual slave select),
 seen through its AXI4-Lite registers, with the flash wired to slave 0.

 The core runs on its own: before every register access it may finish a FIFO reset, shift any
 number of queued bytes, latch interrupts and let the flash move on (`Drift`). The register access
 then acts on the state it finds (`Peeked`, `Poked`).
 */
module QuadSpiCore {
  import opened Bytes
  import opened NorFlash
  import opened FlashHistory

  const INTERRUPT_STATUS: word := 0x20
  const SOFTWARE_RESET: word := 0x40
  const SPI_CONTROL: word := 0x60
  const SPI_STATUS: word := 0x64
  const DATA_TRANSMIT: word := 0x68
  const DATA_RECEIVE: word := 0x6c
  const SLAVE_SELECT: word := 0x70

  const SOFTWARE_RESET_KEY: word := 0x0a
  const ENABLE: word := 0x02
  const MASTER: word := 0x04
  const TX_FIFO_RESET: word := 0x20
  const RX_FIFO_RESET: word := 0x40
  const INHIBIT: word := 0x100
  const IDLE: word := 0x186
  const RUN: word := 0x86
  const FIFO_RESETS: word := 0x60
  const CONTROL_AFTER_RESET: word := 0x180
  const EVENTS: word := 0x2004
  const RX_EMPTY: word := 0x01
  const SELECT_NONE: word := 0xffff_ffff
  const SELECT_FLASH: word := 0xffff_fffe

  /**
   What the driver made the core do: select the flash, or let the core shift, with what was in the
   transmit FIFO then, or reset itself.
   */
  datatype Event = Selection(bytes: seq<byte>) | Started(selected: bool, bytes: seq<byte>) | SoftwareReset

  datatype CoreState = CoreState(
    control: word,
    select: word,
    pending: word,
    tx: seq<byte>,
    rx: seq<byte>,
    mosi: seq<byte>,
    flash: Nor,
    trace: seq<Event>)

  /** The interrupt status reports a rejected command. */
  predicate ErrorSeen(status: word) {
    status & 0x2000 != 0
  }

  /** It reports that the transmit FIFO has run empty. */
  predicate EmptySeen(status: word) {
    status & 0x4 != 0
  }

  predicate Selects(value: word) {
    value & 1 == 0
  }

  predicate Selected(s: CoreState) {
    Selects(s.select)
  }

  predicate Running(s: CoreState) {
    s.control & ENABLE != 0 && s.control & MASTER != 0 && s.control & INHIBIT == 0
  }

  /** Writing `value` to the control register lets the core shift. */
  predicate Starts(m: CoreState, value: word) {
    !Running(m) && Running(m.(control := value))
  }

  predicate Resetting(s: CoreState) {
    s.control & FIFO_RESETS != 0
  }

  /** A byte clocked in after `prefix` came from the flash as it was before or after it moved on. */
  predicate Sampled(f: Nor, g: Nor, prefix: seq<byte>, b: byte)
    requires Conforming(f) && Conforming(g)
  {
    Drives(f, prefix, b) || Drives(g, prefix, b)
  }

  /** `replies` are the bytes clocked in while the bytes of `sent` from `start` on went out. */
  predicate Answered(f: Nor, g: Nor, sent: seq<byte>, start: nat, replies: seq<byte>)
    requires Conforming(f) && Conforming(g) && start + |replies| <= |sent|
  {
    forall i :: 0 <= i < |replies| ==> Sampled(f, g, sent[..start + i], replies[i])
  }

  /** A FIFO reset is pending: it has happened altogether or not yet, and events may be latched. */
  predicate ResetDrift(a: CoreState, b: CoreState) {
    && b == a.(control := b.control, pending := b.pending, tx := b.tx, rx := b.rx, flash := b.flash)
    && (|| b.control == a.control
        || (&& b.control == a.control & !FIFO_RESETS
            && b.tx == (if a.control & TX_FIFO_RESET != 0 then [] else a.tx)
            && b.rx == (if a.control & RX_FIFO_RESET != 0 then [] else a.rx)))
  }

  /** Full-duplex shifting of the first bytes of the transmit FIFO, as many as the core likes. */
  predicate ShiftDrift(a: CoreState, b: CoreState)
    requires Conforming(a.flash) && Conforming(b.flash)
  {
    && b == a.(pending := b.pending, tx := b.tx, rx := b.rx, mosi := b.mosi, flash := b.flash)
    && |b.tx| <= |a.tx|
    && var n := |a.tx| - |b.tx|;
    && b.tx == a.tx[n..]
    && b.mosi == (if Selected(a) then a.mosi + a.tx[..n] else a.mosi)
    && (EmptySeen(b.pending) ==> EmptySeen(a.pending) || b.tx == [])
    && (|a.rx| + |a.tx| <= FIFO_DEPTH ==>
          && |b.rx| == |a.rx| + n
          && b.rx[..|a.rx|] == a.rx
          && (Selected(a) ==> Answered(a.flash, b.flash, a.mosi + a.tx, |a.mosi|, b.rx[|a.rx|..])))
  }

  /** What the core may do on its own between two register accesses. */
  predicate Drift(a: CoreState, b: CoreState)
    requires Conforming(a.flash)
  {
    && Evolves(a.flash, b.flash)
    && Conforming(b.flash)
    && if Resetting(a) then
         ResetDrift(a, b)
       else if Running(a) then
         ShiftDrift(a, b)
       else
         b == a.(flash := b.flash, pending := b.pending) && b.pending & EVENTS == a.pending & EVENTS
  }

  /** `value` may be read from a register in state `m`. */
  predicate Peeked(m: CoreState, offset: word, value: word) {
    && (offset == INTERRUPT_STATUS ==> value == m.pending)
    && (offset == SPI_CONTROL ==> value == m.control)
    && (offset == SPI_STATUS ==> (value & RX_EMPTY != 0 <==> m.rx == []))
    && (offset == DATA_RECEIVE && m.rx != [] ==> value & 0xff == m.rx[0] as word)
  }

  function Peek(m: CoreState, offset: word): (value: word)
    ensures Peeked(m, offset, value)
  {
    if offset == INTERRUPT_STATUS then m.pending
    else if offset == SPI_CONTROL then m.control
    else if offset == SPI_STATUS then if m.rx == [] then RX_EMPTY else 0
    else if offset == DATA_RECEIVE && m.rx != [] then m.rx[0] as word
    else 0
  }

  function AfterRead(m: CoreState, offset: word): CoreState {
    if offset == DATA_RECEIVE && m.rx != [] then m.(rx := m.rx[1..]) else m
  }

  /**
   One possible reaction of the flash: a started operation has not yet touched the array, and an
   interrupted one leaves it as it was.
   */
  function Execute(f: Nor, cmd: seq<byte>): (g: Nor)
    requires Conforming(f)
    ensures Executed(f, cmd, g)
  {
    DisarmedConforming(f);
    if Resets(f, cmd) then Restart(Disarmed(f)) else Act(Disarmed(f), cmd)
  }

  function Restart(f: Nor): (g: Nor)
    requires Conforming(f) && !f.phase.Armed?
    ensures Restarted(f, g)
  {
    if f.phase.Ready? then f.(wel := false)
    else f.(phase := Ready, wel := false, log := f.log + [Abort(f.cells)])
  }

  function Act(f: Nor, cmd: seq<byte>): (g: Nor)
    requires Conforming(f)
    ensures Acted(f, cmd, g)
  {
    match Requested(f.profile, |f.cells.mem|, cmd)
    case Some(m) =>
      if !f.phase.Ready? || !f.wel then f.(refused := f.refused + 1)
      else if !m.WriteNvcr? && Guarded(f.profile, f.sr) then f
      else f.(phase := Busy(Apply(f.profile, f.cells, m)), log := f.log + [m])
    case None =>
      if f.phase.Ready? && cmd == [WRITE_ENABLE] then f.(wel := true)
      else if cmd == [RESET_ENABLE] then f.(phase := Armed(f.phase))
      else f
  }

  /** The state after a register write in state `m`; a deselected flash reacts in one possible way. */
  function Poke(m: CoreState, offset: word, value: word): (t: CoreState)
    requires Conforming(m.flash)
  {
    if offset == INTERRUPT_STATUS then
      m.(pending := m.pending ^ value)
    else if offset == SOFTWARE_RESET && value == SOFTWARE_RESET_KEY && !Selected(m) then
      m.(control := CONTROL_AFTER_RESET, select := SELECT_NONE, pending := 0, tx := [], rx := [],
         trace := m.trace + [SoftwareReset])
    else if offset == SPI_CONTROL then
      m.(control := value, trace := if Starts(m, value) then m.trace + [Started(Selected(m), m.tx)] else m.trace)
    else if offset == DATA_TRANSMIT then
      if |m.tx| < FIFO_DEPTH then m.(tx := m.tx + [(value & 0xff) as byte]) else m
    else if offset == SLAVE_SELECT && !Selected(m) && Selects(value) then
      m.(select := value, mosi := [], trace := m.trace + [Selection(m.tx)])
    else if offset == SLAVE_SELECT && Selected(m) && !Selects(value) then
      m.(select := value, flash := Execute(m.flash, m.mosi))
    else if offset == SLAVE_SELECT then
      m.(select := value)
    else
      m
  }

  /** A register write in state `m` may lead to `t`: only a deselected flash has a choice. */
  predicate Poked(m: CoreState, offset: word, value: word, t: CoreState)
    requires Conforming(m.flash)
  {
    if offset == SLAVE_SELECT && Selected(m) && !Selects(value) then
      t == m.(select := value, flash := t.flash) && Executed(m.flash, m.mosi, t.flash)
    else
      t == Poke(m, offset, value)
  }

  lemma PokeIsPossible(m: CoreState, offset: word, value: word)
    requires Conforming(m.flash)
    ensures Poked(m, offset, value, Poke(m, offset, value))
  {
    hide Executed;
  }

  lemma PokedConforming(m: CoreState, offset: word, value: word, t: CoreState)
    requires Conforming(m.flash) && Poked(m, offset, value, t)
    ensures Conforming(t.flash) && Step(m.flash, t.flash)
  {
    hide Executed;
    if Selected(m) && offset == SLAVE_SELECT && !Selects(value) {
      ExecutedConforming(m.flash, m.mosi, t.flash);
    }
  }

  /**
   The core behind its register window. `past` is everything the flash went through, one state for each
   nanosecond that the clock has counted; `polled` is the interrupt status that was read last, and
   `received` all bytes that were taken out of the receive FIFO.
   */
  class RegisterWindow {
    var s: CoreState
    var clock: nat
    ghost var past: seq<Nor>
    ghost var polled: word
    ghost var received: seq<byte>

    constructor (s: CoreState)
      requires Conforming(s.flash)
      ensures Valid() && this.s == s && past == [s.flash] && received == []
    {
      this.s, clock, past, polled, received := s, 1, [s.flash], 0, [];
      Begun(s.flash);
    }

    ghost predicate Valid()
      reads this
    {
      Conforming(s.flash) && EndsAt(past, s.flash) && clock == |past|
    }

    method Read(offset: word) returns (value: word, ghost m: CoreState)
      requires Valid()
      modifies this
      ensures Valid() && Extends(old(past), past) && clock > old(clock)
      ensures Drift(old(s), m) && Peeked(m, offset, value) && s == AfterRead(m, offset)
      ensures polled == if offset == INTERRUPT_STATUS then value else old(polled)
      ensures received == old(received) + if offset == DATA_RECEIVE && m.rx != [] then [m.rx[0]] else []
    {
      hide Drift, Peeked, EndsAt;
      Run();
      m := s;
      value := *;
      if !Peeked(s, offset, value) {
        value := Peek(s, offset);
      }
      s := AfterRead(s, offset);
      if offset == INTERRUPT_STATUS {
        polled := value;
      }
      if offset == DATA_RECEIVE && m.rx != [] {
        received := received + [m.rx[0]];
      }
      Pass();
    }

    method Write(offset: word, value: word) returns (ghost m: CoreState)
      requires Valid()
      modifies this
      ensures Valid() && Extends(old(past), past) && clock > old(clock)
      ensures Drift(old(s), m) && Conforming(m.flash) && Poked(m, offset, value, s)
      ensures polled == old(polled) && received == old(received)
    {
      hide Drift, Poked, EndsAt, Starts, Running;
      Run();
      m := s;
      var t: CoreState := *;
      if !Poked(s, offset, value, t) {
        t := Poke(s, offset, value);
        PokeIsPossible(s, offset, value);
      }
      PokedConforming(s, offset, value, t);
      Continued(past, s.flash, t.flash);
      s, clock, past := t, clock + 1, past + [t.flash];
    }

    /** The core does as it pleases, after any time. */
    method Run()
      requires Valid()
      modifies this`s, this`clock, this`past
      ensures Valid() && Extends(old(past), past) && Drift(old(s), s) && clock > old(clock)
    {
      hide ResetDrift, ShiftDrift, EndsAt, Executed;
      Pass();
      var t: CoreState := *;
      if !Drift(s, t) {
        t := s;
        StaysPut(s);
      }
      Continued(past, s.flash, t.flash);
      s, clock, past := t, clock + 1, past + [t.flash];
    }

    /** Time passes in which nothing is seen to happen. */
    method Pass()
      requires Valid()
      modifies this`clock, this`past
      ensures Valid() && Extends(old(past), past) && clock >= old(clock)
    {
      hide EndsAt;
      var some: int := *;
      var moments := if some < 0 then 0 else some;
      EvolvesSelf(s.flash);
      for i := 0 to moments
        invariant Valid() && Extends(old(past), past) && clock >= old(clock)
      {
        Continued(past, s.flash, s.flash);
        clock, past := clock + 1, past + [s.flash];
      }
    }
  }

  /** Doing nothing is always possible. */
  lemma StaysPut(s: CoreState)
    requires Conforming(s.flash)
    ensures Drift(s, s)
  {
  }
}
