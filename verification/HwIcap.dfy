/**
 Warm boot through AXI HWICAP (PG134): the IPROG packet of UG470 chapter 7 is queued completely or
 not at all, and the transfer to the configuration port is started only with the packet queued.
 */
module HwIcap {
  import opened Results
  import opened Bytes
  import opened Clocks

  const CONTROL_WRITE: word := 0x1
  const MAXIMUM_FLASH_ADDRESS: nat := 0x00ff_ff00
  const PACKET_WORDS: nat := 8
  const DEFAULT_FIFO_VACANCY: nat := 63

  /** What a write FIFO of `depth` words reports when it is empty: one word less than its depth. */
  function EmptyVacancy(depth: nat): nat
    requires 0 < depth
  {
    depth - 1
  }

  function Inactive(control: word): word {
    control & 0xffff_fffc
  }

  /** A write or a read of the configuration port is in progress: bits 0 and 1 of the control register. */
  predicate Active(control: word) {
    control & 0x1 != 0 || control & 0x2 != 0
  }

  /** The reset bit, bit 3 of the control register. */
  predicate Resetting(control: word) {
    control & 0x8 != 0
  }

  /** DONE and end of startup: bits 0 and 2 of the status register. */
  predicate Configured(status: word) {
    status & 0x1 != 0 && status & 0x4 != 0
  }

  predicate Writing(control: word) {
    control & 0x1 != 0
  }

  /** A register write during a transfer that holds its bits against it. */
  function Held(value: word, before: word): word {
    value | (before & 0x3)
  }

  /** Neither a reset nor a transfer is in progress. */
  predicate Quiet(control: word) {
    !Resetting(control) && !Active(control)
  }

  function WithReset(control: word): word {
    control | 0x8
  }

  function WithoutReset(control: word): word {
    control & 0xffff_fff7
  }

  lemma InactiveBits(control: word)
    ensures Inactive(Inactive(control)) == Inactive(control)
    ensures !Active(Inactive(control))
    ensures !Writing(WithReset(Inactive(control)))
    ensures !Writing(WithoutReset(Inactive(control)))
  {
  }

  lemma HeldByNothing(value: word, before: word)
    ensures Held(value, Inactive(before)) == value
  {
  }

  lemma ResetReleased(value: word, before: word)
    ensures !Resetting(WithoutReset(value)) && !Resetting(Held(WithoutReset(value), before))
  {
  }

  lemma ResetBits(control: word)
    ensures Resetting(WithReset(control)) && !Resetting(WithoutReset(control)) && !Resetting(CONTROL_WRITE)
  {
  }

  /** The two differ in the reset bit and the transfer bits at most. */
  predicate Alike(a: word, b: word) {
    (a ^ b) & 0xffff_fff4 == 0
  }

  lemma ReleasedAlike(control: word)
    ensures Alike(WithoutReset(Inactive(control)), control)
  {
  }

  lemma HeldAlike(value: word, before: word)
    ensures Alike(Held(value, before), value)
  {
  }

  lemma AlikeThrough(a: word, b: word, c: word)
    requires Alike(a, b) && Alike(b, c)
    ensures Alike(a, c)
  {
  }

  lemma PulseAlike(after: word, written: word, seen: word, before: word)
    requires after == written || Alike(after, written)
    requires Alike(written, seen) && Inactive(seen) == Inactive(before)
    ensures Alike(after, before)
  {
    hide Alike, Inactive;
    if after != written {
      AlikeThrough(after, written, seen);
    }
    AlikeItself(before);
    AlikeInactive(seen, before, before);
    AlikeThrough(after, seen, before);
  }

  lemma AlikeItself(a: word)
    ensures Alike(a, a)
  {
  }

  lemma AlikeInactive(a: word, b: word, c: word)
    requires Inactive(a) == Inactive(b) && Alike(b, c)
    ensures Alike(a, c)
  {
  }

  lemma SameReset(a: word, b: word)
    requires Inactive(a) == Inactive(b)
    ensures Resetting(a) <==> Resetting(b)
  {
  }

  /**
   The core: a write FIFO customised to `depth` words, and what it was told to send to the
   configuration port. A transfer may end and a reset may take effect before any register access; a
   transfer in progress may hold its control bits against a write. `queued` counts the words ever
   offered to the FIFO and `resets` the writes that asked for a reset; `reported` is the status last read.
   */
  class IcapCore {
    const depth: nat
    var control: word
    var fifo: seq<nat>
    ghost var queued: nat
    ghost var sent: seq<seq<nat>>
    ghost var reported: word
    ghost var resets: nat

    constructor (depth: nat)
      requires 0 < depth
      ensures this.depth == depth && Valid() && fifo == [] && sent == []
    {
      this.depth := depth;
      control, fifo, queued, sent, reported, resets := 0, [], 0, [], 0, 0;
    }

    predicate Valid()
      reads this
    {
      0 < depth && |fifo| <= EmptyVacancy(depth)
    }

    method Settle()
      requires Valid()
      modifies this`control, this`fifo
      ensures Valid()
      ensures Inactive(control) == Inactive(old(control))
      ensures control == old(control) || control == Inactive(old(control))
      ensures Quiet(old(control)) ==> control == old(control) && fifo == old(fifo)
    {
      hide Inactive, Active, Resetting;
      InactiveBits(control);
      var settles: bool := *;
      if settles && !Quiet(control) {
        control, fifo := Inactive(control), [];
      }
    }

    method ReadControl() returns (value: word)
      requires Valid()
      modifies this`control, this`fifo
      ensures Valid() && value == control
      ensures Inactive(control) == Inactive(old(control))
    {
      Settle();
      return control;
    }

    method ReadStatus() returns (value: word)
      requires Valid()
      modifies this`control, this`fifo, this`reported
      ensures Valid() && reported == value
      ensures Quiet(old(control)) ==> control == old(control) && fifo == old(fifo)
    {
      Settle();
      value := *;
      reported := value;
    }

    method ReadVacancy() returns (value: nat)
      requires Valid()
      modifies this`control, this`fifo
      ensures Valid() && value == EmptyVacancy(depth) - |fifo|
      ensures Quiet(old(control)) ==> control == old(control) && fifo == old(fifo)
    {
      Settle();
      return EmptyVacancy(depth) - |fifo|;
    }

    /** A word is lost when the FIFO is full. */
    method WriteFifo(value: nat)
      requires Valid()
      modifies this`fifo, this`queued
      ensures Valid() && queued == old(queued) + 1
      ensures fifo == if |old(fifo)| < EmptyVacancy(depth) then old(fifo) + [value] else old(fifo)
    {
      if |fifo| < EmptyVacancy(depth) {
        fifo := fifo + [value];
      }
      queued := queued + 1;
    }

    /** Setting the write bit sends what is queued. */
    method WriteControl(value: word)
      requires Valid()
      modifies this`control, this`fifo, this`sent, this`resets
      ensures Valid()
      ensures control == value || control == Held(value, old(control))
      ensures resets == old(resets) + if Resetting(value) then 1 else 0
      ensures sent == if Writing(value) then old(sent) + [fifo] else old(sent)
      ensures Quiet(old(control)) ==> fifo == old(fifo)
    {
      hide Inactive, Quiet, Writing, Resetting, Held, EmptyVacancy;
      HeldByNothing(value, control);
      Settle();
      if Resetting(value) {
        resets := resets + 1;
      }
      if Writing(value) {
        sent := sent + [fifo];
      }
      var held: bool := *;
      if held {
        control := Held(value, control);
      } else {
        control := value;
      }
    }
  }

  // ---------------------------------------------------------------------------------------------
  // What the configuration port makes of the words it is sent (UG470, chapter 5)

  /**
   Before the synchronisation word the port ignores everything; then it takes packets, and after the
   header of a write the words of that write. The IPROG command restarts the device.
   */
  datatype Port = Unsynchronised | Ready(register: nat) | Loading(register: nat, left: nat) | Rebooting

  /** One configuration register receives one word. */
  datatype RegisterWrite = RegisterWrite(register: nat, value: nat)

  /** A packet header: the type in bits 31:29, the operation in 28:27; a type 2 packet names no register. */
  function Header(register: nat, value: nat): Port {
    var kind, operation := value / 0x2000_0000 % 8, value / 0x0800_0000 % 4;
    var named := if kind == 1 then value / 0x2000 % 0x4000 else register;
    var count := if kind == 1 then value % 0x800 else value % 0x0800_0000;
    if kind != 1 && kind != 2 then Ready(register)
    else if operation == 2 && count > 0 then Loading(named, count)
    else Ready(named)
  }

  function Receive(port: Port, value: nat): Port {
    match port
    case Unsynchronised => if value == 0xaa99_5566 then Ready(0) else Unsynchronised
    case Ready(register) => Header(register, value)
    case Loading(register, left) =>
      if register == 0x04 && value % 32 == 0x0f then Rebooting
      else if register == 0x04 && value % 32 == 0x0d then Unsynchronised
      else if left > 1 then Loading(register, left - 1)
      else Ready(register)
    case Rebooting => Rebooting
  }

  function After(port: Port, words: seq<nat>): Port
    decreases |words|
  {
    if words == [] then port else After(Receive(port, words[0]), words[1..])
  }

  /** The register writes that `words` amount to. */
  function Writes(port: Port, words: seq<nat>): seq<RegisterWrite>
    decreases |words|
  {
    if words == [] then []
    else
      (if port.Loading? then [RegisterWrite(port.register, words[0])] else [])
      + Writes(Receive(port, words[0]), words[1..])
  }

  /** The port is between packets, synchronised or not. */
  predicate Listening(port: Port) {
    port.Unsynchronised? || port.Ready?
  }

  /** The warm boot start address, register 16, and then the command IPROG. */
  function WarmBoot(address: nat): seq<RegisterWrite> {
    [RegisterWrite(0x10, address / 256), RegisterWrite(0x04, 0x0f)]
  }

  /** Behind `stale`, `words` restart the device at `address` and write nothing else. */
  predicate Boots(port: Port, stale: seq<nat>, words: seq<nat>, address: nat) {
    && Writes(port, stale + words) == Writes(port, stale) + WarmBoot(address)
    && After(port, stale + words) == Rebooting
  }

  lemma {:induction false} WritesAppend(port: Port, a: seq<nat>, b: seq<nat>)
    ensures Writes(port, a + b) == Writes(port, a) + Writes(After(port, a), b)
    ensures After(port, a + b) == After(After(port, a), b)
    decreases |a|
  {
    if a == [] {
      assert a + b == b;
    } else {
      assert (a + b)[0] == a[0] && (a + b)[1..] == a[1..] + b;
      WritesAppend(Receive(port, a[0]), a[1..], b);
      var first := if port.Loading? then [RegisterWrite(port.register, a[0])] else [];
      var middle, last := Writes(Receive(port, a[0]), a[1..]), Writes(After(port, a), b);
      assert first + (middle + last) == first + middle + last;
    }
  }

  lemma OneWord(port: Port, value: nat, rest: seq<nat>)
    ensures After(port, [value] + rest) == After(Receive(port, value), rest)
    ensures Writes(port, [value] + rest) ==
      (if port.Loading? then [RegisterWrite(port.register, value)] else []) + Writes(Receive(port, value), rest)
  {
    assert ([value] + rest)[1..] == rest;
  }

  // ---------------------------------------------------------------------------------------------
  // The packet

  /** The IPROG packet; the fifth word is WBSTAR, bits 23:8 of the flash byte address. */
  function Packet(address: nat): (words: seq<nat>)
    ensures |words| == PACKET_WORDS
  {
    [0xffff_ffff, 0xaa99_5566, 0x2000_0000, 0x3002_0001, address / 256, 0x3000_8001, 0x0000_000f, 0x2000_0000]
  }

  predicate Bootable(address: nat) {
    address <= MAXIMUM_FLASH_ADDRESS && address % 256 == 0
  }

  /**
   The packet restarts the device at `address`, and writes no other register, exactly when the words
   in front of it do not end in the middle of a write; a port that is restarting hears nothing more.
   */
  lemma PacketBoots(port: Port, stale: seq<nat>, address: nat)
    requires Bootable(address)
    ensures Boots(port, stale, Packet(address), address) <==> Listening(After(port, stale))
  {
    hide Writes, After;
    var words, there := Packet(address), After(port, stale);
    WritesAppend(port, stale, words);
    OneWord(there, words[0], words[1..]);
    assert [words[0]] + words[1..] == words;
    var first := Receive(there, words[0]);
    if Listening(there) {
      assert Listening(first);
      SynchronisedBoots(first, address);
      assert words[1..] == [0xaa99_5566] + Commands(address);
    } else if there.Loading? {
      var written := Writes(there, words);
      assert written[0].value == 0xffff_ffff;
      assert WarmBoot(address)[0].value == address / 256 < 0xffff_ffff;
      assert (Writes(port, stale) + written)[|Writes(port, stale)|] == written[0];
      assert (Writes(port, stale) + WarmBoot(address))[|Writes(port, stale)|] == WarmBoot(address)[0];
    } else {
      RebootingIsDeaf(words);
      assert |Writes(port, stale) + Writes(there, words)| == |Writes(port, stale)|;
    }
  }

  /** What follows the synchronisation word. */
  function Commands(address: nat): seq<nat> {
    [0x2000_0000, 0x3002_0001, address / 256, 0x3000_8001, 0x0000_000f, 0x2000_0000]
  }

  lemma SynchronisedBoots(port: Port, address: nat)
    requires Listening(port)
    ensures Writes(port, [0xaa99_5566] + Commands(address)) == WarmBoot(address)
    ensures After(port, [0xaa99_5566] + Commands(address)) == Rebooting
  {
    hide Writes, After;
    var star, value, command, iprog := 0x3002_0001, address / 256, 0x3000_8001, 0x0000_000f;
    var idle: nat := 0x2000_0000;
    OneWord(port, 0xaa99_5566, Commands(address));
    var synchronised := Receive(port, 0xaa99_5566);
    assert Commands(address) == [idle] + ([star] + ([value] + ([command] + ([iprog] + [idle]))));
    OneWord(synchronised, idle, [star] + ([value] + ([command] + ([iprog] + [idle]))));
    var ready := Receive(synchronised, idle);
    OneWord(ready, star, [value] + ([command] + ([iprog] + [idle])));
    OneWord(Loading(0x10, 1), value, [command] + ([iprog] + [idle]));
    OneWord(Ready(0x10), command, [iprog] + [idle]);
    OneWord(Loading(0x04, 1), iprog, [idle]);
    RebootingIsDeaf([idle]);
  }

  lemma {:induction false} RebootingIsDeaf(words: seq<nat>)
    ensures After(Rebooting, words) == Rebooting && Writes(Rebooting, words) == []
  {
    if words != [] {
      RebootingIsDeaf(words[1..]);
    }
  }

  /** WBSTAR fits its sixteen bits and names the address: no other one gives the same packet. */
  lemma PacketNamesAddress(a: nat, b: nat)
    requires Bootable(a) && Bootable(b)
    ensures Packet(a)[4] < 0x1_0000 && Packet(a)[4] * 256 == a
    ensures Packet(a) == Packet(b) ==> a == b
  {
    assert Packet(a)[4] == a / 256 && Packet(b)[4] == b / 256;
  }

  class AxiHwIcap {
    const core: IcapCore
    const clock: Clock
    const timeout: nat
    const expectedVacancy: nat

    constructor (core: IcapCore, clock: Clock, timeout: nat, expectedVacancy: nat)
      ensures this.core == core && this.clock == clock
      ensures this.timeout == timeout && this.expectedVacancy == expectedVacancy
    {
      this.core, this.clock, this.timeout, this.expectedVacancy := core, clock, timeout, expectedVacancy;
    }

    static method Create(core: IcapCore, clock: Clock, timeoutMs: int, expectedVacancy: nat)
      returns (r: Result<AxiHwIcap>)
      ensures r.Ok? <==> timeoutMs > 0 && expectedVacancy >= 8
      ensures r.Ok? ==> r.value.core == core && r.value.clock == clock
      ensures r.Ok? ==> r.value.timeout == timeoutMs * 1_000_000 && r.value.expectedVacancy == expectedVacancy
      ensures r.Err? ==> r.error == InvalidArgument
    {
      if timeoutMs <= 0 || expectedVacancy < PACKET_WORDS {
        return Err(InvalidArgument);
      }
      var icap := new AxiHwIcap(core, clock, timeoutMs * MILLISECOND, expectedVacancy);
      return Ok(icap);
    }

    method RequireReady() returns (r: Result<()>)
      requires core.Valid() && Quiet(core.control)
      modifies core`control, core`fifo, core`reported
      ensures core.Valid() && core.control == old(core.control) && core.fifo == old(core.fifo)
      ensures r == if Configured(core.reported) then Ok(()) else Err(NotReady)
    {
      hide Configured;
      var status := core.ReadStatus();
      if !Configured(status) {
        return Err(NotReady);
      }
      return Ok(());
    }

    method WaitIdle() returns (r: Result<()>)
      requires core.Valid()
      modifies core`control, core`fifo, clock
      ensures core.Valid() && Inactive(core.control) == Inactive(old(core.control))
      ensures r.Ok? ==> !Active(core.control)
      ensures r.Err? ==> r.error == Timeout && Active(core.control) && clock.time >= old(clock.time) + timeout
    {
      hide Inactive, Active;
      var now := clock.Now();
      var deadline := now + timeout;
      var control := core.ReadControl();
      while Active(control)
        invariant core.Valid() && control == core.control
        invariant Inactive(core.control) == Inactive(old(core.control))
        invariant clock.time > old(clock.time) && deadline >= old(clock.time) + timeout
        decreases deadline - clock.time
      {
        now := clock.Now();
        if now >= deadline {
          return Err(Timeout);
        }
        control := core.ReadControl();
      }
      return Ok(());
    }

    /** Pulses the reset bit once, and leaves every bit alone that belongs to neither reset nor transfer. */
    method Pulse()
      requires core.Valid()
      modifies core`control, core`fifo, core`sent, core`resets
      ensures core.Valid() && core.sent == old(core.sent) && core.resets == old(core.resets) + 1
      ensures !Resetting(core.control) && Alike(core.control, old(core.control))
    {
      hide Inactive, Active, Resetting, Writing, Held, WithReset, WithoutReset, Alike;
      var control := core.ReadControl();
      var inactive := Inactive(control);
      InactiveBits(control);
      ResetBits(inactive);
      core.WriteControl(WithReset(inactive));
      ResetReleased(inactive, core.control);
      HeldAlike(WithoutReset(inactive), core.control);
      ReleasedAlike(control);
      core.WriteControl(WithoutReset(inactive));
      PulseAlike(core.control, WithoutReset(inactive), control, old(core.control));
    }

    /**
     Success leaves the core quiet with as many words in the FIFO as the expected vacancy admits; each
     error names what was found instead.
     */
    method Reset() returns (r: Result<()>)
      requires core.Valid()
      modifies core`control, core`fifo, core`sent, core`reported, core`resets, clock
      ensures core.Valid() && core.sent == old(core.sent) && core.resets == old(core.resets) + 1
      ensures Alike(core.control, old(core.control))
      ensures r.Ok? ==>
        Quiet(core.control) && Configured(core.reported) && EmptyVacancy(core.depth) - |core.fifo| == expectedVacancy
      ensures r.Err? ==> Explained(old(clock.time), r.error)
    {
      hide Inactive, Active, Resetting, Configured, Alike;
      Pulse();
      ghost var released := core.control;
      var idle := WaitIdle();
      SameReset(released, core.control);
      AlikeInactive(core.control, released, old(core.control));
      if idle.Err? {
        return idle;
      }
      var ready := RequireReady();
      if ready.Err? {
        return ready;
      }
      var vacancy := core.ReadVacancy();
      if vacancy != expectedVacancy {
        return Err(UnexpectedVacancy);
      }
      return Ok(());
    }

    /** What each error found, in a method that was called at `time`. */
    ghost predicate Explained(time: nat, e: Error)
      reads core, clock
    {
      match e
      case Timeout => Active(core.control) && clock.time >= time + timeout
      case NotReady => !Configured(core.reported)
      case UnexpectedVacancy => core.Valid() && EmptyVacancy(core.depth) - |core.fifo| != expectedVacancy
      case _ => false
    }

    /**
     The whole packet is sent, or nothing is queued. In front of it are only the words that the
     expected vacancy took for none, and unless these end in the middle of a register write, the
     configuration port restarts the device at `address`.
     */
    method TriggerIprog(address: nat) returns (r: Result<()>, ghost stale: seq<nat>)
      requires core.Valid() && expectedVacancy >= PACKET_WORDS
      modifies core, clock
      ensures core.Valid()
      ensures r == Err(InvalidArgument) <==> address > 0x00ff_ff00 || address % 256 != 0
      ensures r == Err(InvalidArgument) ==> unchanged(core, clock)
      ensures r != Err(InvalidArgument) ==> core.resets == old(core.resets) + 1
      ensures r.Ok? ==> core.queued == old(core.queued) + 8
      ensures r.Ok? ==> core.sent == old(core.sent) + [stale + Packet(address)]
      ensures r.Ok? ==>
        forall port :: Boots(port, stale, Packet(address), address) <==> Listening(After(port, stale))
      ensures r.Ok? && expectedVacancy == EmptyVacancy(core.depth) ==>
        stale == [] && Boots(Unsynchronised, [], core.sent[|old(core.sent)|], address)
      ensures r.Ok? ==> Configured(core.reported) && expectedVacancy + |stale| == EmptyVacancy(core.depth)
      ensures r.Err? ==> core.queued == old(core.queued) && core.sent == old(core.sent)
      ensures r.Err? && r.error != InvalidArgument ==> Explained(old(clock.time), r.error)
    {
      hide Active, Resetting, Held, Configured, Packet, Boots;
      stale := [];
      if address > MAXIMUM_FLASH_ADDRESS || address % 256 != 0 {
        return Err(InvalidArgument), stale;
      }
      var reset := Reset();
      if reset.Err? {
        return Err(reset.error), stale;
      }
      var words := Packet(address);
      var vacancy := core.ReadVacancy();
      if vacancy < |words| {
        return Err(UnexpectedVacancy), stale;
      }
      stale := core.fifo;
      for i := 0 to |words|
        invariant core.Valid() && core.fifo == stale + words[..i]
        invariant core.queued == old(core.queued) + i && core.sent == old(core.sent)
        invariant core.resets == old(core.resets) + 1
        invariant Quiet(core.control) && Configured(core.reported)
      {
        core.WriteFifo(words[i]);
      }
      assert words[..|words|] == words;
      var posted := core.ReadVacancy();
      ResetBits(core.control);
      core.WriteControl(CONTROL_WRITE);
      forall port ensures Boots(port, stale, words, address) <==> Listening(After(port, stale)) {
        PacketBoots(port, stale, address);
      }
      assert stale == [] ==> stale + words == words;
      assert After(Unsynchronised, []) == Unsynchronised;
      PacketBoots(Unsynchronised, [], address);
      return Ok(()), stale;
    }
  }

  /** The packet goes out alone exactly when the configured vacancy is the one the empty FIFO reports. */
  lemma PacketAlone(stale: seq<nat>, address: nat, depth: nat, expectedVacancy: nat)
    requires 0 < depth && expectedVacancy + |stale| == EmptyVacancy(depth)
    ensures stale + Packet(address) == Packet(address) <==> expectedVacancy == EmptyVacancy(depth)
  {
    assert |stale + Packet(address)| == |stale| + |Packet(address)|;
  }

  /**
   The default belongs to a FIFO of 64 words, and there the packet is alone. A vacancy of 62, which
   construction accepts as well, lets one word through in front of it.
   */
  lemma DefaultVacancy(stale: seq<nat>, address: nat)
    ensures EmptyVacancy(64) == 63 == DEFAULT_FIFO_VACANCY
    ensures DEFAULT_FIFO_VACANCY + |stale| == EmptyVacancy(64) ==> stale + Packet(address) == Packet(address)
    ensures 62 >= PACKET_WORDS
    ensures 62 + |stale| == EmptyVacancy(64) ==> |stale| == 1 && stale + Packet(address) != Packet(address)
  {
    if DEFAULT_FIFO_VACANCY + |stale| == EmptyVacancy(64) {
      PacketAlone(stale, address, 64, DEFAULT_FIFO_VACANCY);
    }
    if 62 + |stale| == EmptyVacancy(64) {
      PacketAlone(stale, address, 64, 62);
    }
  }
}
