/**
 Auto-detected SPI-NOR access. Every method is specified on the device itself: what the array,
 the status bits and the mutation log are afterwards, on success and after every failure.
 */
module SpiNorDriver {
  import opened Results
  import opened Bytes
  import opened Clocks
  import opened NorFlash
  import opened FlashHistory
  import opened Outcome
  import opened ProgramPlan
  import opened QuadSpiCore
  import opened QuadSpiDriver
  import opened BusyDevice

  // ---------------------------------------------------------------------------------------------
  // What one transfer does to a device that is ready

  /** No prefix of such a command changes anything. */
  predicate Inert(p: Chip, cmd: seq<byte>) {
    cmd != [] ==>
      && cmd[0] != p.programCommand && cmd[0] != p.eraseCommand
      && cmd[0] != WRITE_NVCR && cmd[0] != WRITE_ENABLE
      && cmd[0] != RESET_ENABLE && cmd[0] != RESET_MEMORY && cmd[0] != SPANSION_RESET
  }

  lemma CommonInert(p: Chip, cmd: seq<byte>)
    requires cmd != []
    requires cmd[0] == READ_ID || cmd[0] == READ_STATUS || cmd[0] == READ_NVCR || cmd[0] == p.readCommand
    ensures Inert(p, cmd)
  {
    assert cmd[0] != p.readCommand ==> Common(cmd[0]);
    assert Common(WRITE_NVCR) && Common(WRITE_ENABLE);
    assert Common(RESET_ENABLE) && Common(RESET_MEMORY) && Common(SPANSION_RESET);
  }

  lemma InertExecuted(f: Nor, cmd: seq<byte>, g: Nor)
    requires Conforming(f) && Inert(f.profile, cmd) && Executed(f, cmd, g)
    ensures g == Disarmed(f)
  {
  }

  lemma InertCut(f: Nor, cmd: seq<byte>, g: Nor)
    requires Conforming(f) && !f.phase.Armed? && Inert(f.profile, cmd) && Cut(f, cmd, g)
    ensures Evolves(f, g)
  {
    hide Executed, Evolves;
    if !Evolves(f, g) {
      var n: nat, h, x :| n <= |cmd| && CutAt(f, cmd, n, h, x) && Evolves(x, g);
      EvolvesKeeps(f, h);
      assert n > 0 ==> cmd[..n][0] == cmd[0];
      assert Inert(h.profile, cmd[..n]);
      InertExecuted(h, cmd[..n], x);
      EvolvesTransitive(f, h, g);
    }
  }

  lemma InertRan(f: Nor, cmd: seq<byte>, response: seq<byte>, g: Nor)
    requires Conforming(f) && f.phase.Ready? && Inert(f.profile, cmd) && Ran(f, cmd, response, g)
    ensures g == f
    ensures forall i :: 0 <= i < |cmd| ==> Drives(f, cmd[..i], response[i])
  {
    var h, x :|
      Evolves(f, h) && Conforming(h) && Answered(f, h, cmd, 0, response) && Executed(h, cmd, x) && Evolves(x, g);
    InertExecuted(h, cmd, x);
    forall i | 0 <= i < |cmd|
      ensures Drives(f, cmd[..i], response[i])
    {
      assert Sampled(f, h, cmd[..0 + i], response[i]);
    }
  }

  lemma StatusRan(f: Nor, response: seq<byte>, g: Nor)
    requires Conforming(f) && !f.phase.Armed? && Ran(f, [READ_STATUS, 0], response, g)
    ensures Evolves(f, g)
    ensures response[1] == Status(f) || response[1] == Status(g)
  {
    hide Executed, Status, Evolves;
    var cmd := [READ_STATUS, 0];
    CommonInert(f.profile, cmd);
    var h, x :|
      Evolves(f, h) && Conforming(h) && Answered(f, h, cmd, 0, response) && Executed(h, cmd, x) && Evolves(x, g);
    EvolvesKeeps(f, h);
    InertExecuted(h, cmd, x);
    EvolvesTransitive(f, h, g);
    assert Sampled(f, h, cmd[..0 + 1], response[1]);
    assert cmd[..0 + 1] == [READ_STATUS];
  }

  // ---------------------------------------------------------------------------------------------
  // A mutating command

  /** A mutating command that ran to the end and left the device ready was carried out. */
  lemma MutationRan(f: Nor, cmd: seq<byte>, m: Mutation, response: seq<byte>, g: Nor, h: Nor)
    requires Conforming(f) && f.phase.Ready? && f.wel
    requires Requested(f.profile, |f.cells.mem|, cmd) == Some(m)
    requires Ran(f, cmd, response, g) && Evolves(g, h)
    ensures Interrupted(f, [m], h)
    ensures h.phase.Ready? && !h.wel ==> Did(f, [m], h)
  {
    var k, x :|
      Evolves(f, k) && Conforming(k) && Answered(f, k, cmd, 0, response) && Executed(k, cmd, x) && Evolves(x, g);
    EvolvesTransitive(x, g, h);
    ExecutedMutation(f, cmd, m, x, h);
  }

  lemma EraseRequested(p: Chip, size: nat, address: nat, encoded: seq<byte>)
    requires 0 < size && |encoded| == p.addressBytes && BigEndian(encoded) == address
    ensures Requested(p, size, [p.eraseCommand] + encoded) == Some(Erase(address % size))
  {
    var command := [p.eraseCommand] + encoded;
    assert command[1..1 + p.addressBytes] == encoded;
  }

  lemma ProgramRequested(p: Chip, size: nat, address: nat, encoded: seq<byte>, part: seq<byte>)
    requires address < size && |encoded| == p.addressBytes && BigEndian(encoded) == address && part != []
    ensures Requested(p, size, [p.programCommand] + encoded + part) == Some(Program(address, part))
  {
    var command, header := [p.programCommand] + encoded + part, 1 + p.addressBytes;
    assert command[1..header] == encoded && command[header..] == part;
    SmallRemainder(address, size);
  }

  /** The latch is part of no plan. */
  lemma MutationEnabled(f: Nor, m: Mutation, g: Nor)
    requires f.phase.Ready?
    ensures Interrupted(f.(wel := true), [m], g) ==> Interrupted(f, [m], g)
    ensures Did(f.(wel := true), [m], g) ==> Did(f, [m], g)
  {
    var e := f.(wel := true);
    if Interrupted(e, [m], g) && Coherent(f) {
      LatchCoherent(f, e);
    }
  }

  /** What a polled status says, wherever it was taken while the device went from `g` to `h`. */
  lemma PollMeans(g: Nor, status: byte, h: Nor)
    requires Conforming(g) && Conforming(h) && !g.phase.Armed? && Evolves(g, h)
    requires status == Status(g) || status == Status(h)
    ensures Faulty(h.profile, status) ==> Faulty(h.profile, h.sr)
    ensures !Faulty(h.profile, status) && !InProgress(status) ==>
      h.phase.Ready? && !Faulty(h.profile, h.sr) && (Latched(status) <==> h.wel)
    ensures InProgress(status) ==> !Idle(g)
  {
    hide Status, Latched, InProgress, Geometry;
    StatusMeans(g);
    StatusMeans(h);
  }

  /** Only a device that was busy can lose the latch again before it is looked at. */
  lemma NotLatched(f: Nor, g: Nor, status: byte, h: Nor)
    requires Conforming(g) && Conforming(h) && (f.phase.Ready? ==> g.phase.Ready? && g.wel) && Evolves(g, h)
    requires (status == Status(g) || status == Status(h)) && !Latched(status)
    ensures !f.phase.Ready? && !h.wel
  {
    hide Status, Latched, Geometry;
    StatusMeans(g);
    StatusMeans(h);
  }

  /** An attempt that ran to the end, and what it means on a device that was ready at the call. */
  lemma AttemptRan(f: Nor, e: Nor, cmd: seq<byte>, m: Mutation, response: seq<byte>, g: Nor, h: Nor)
    requires Conforming(e) && !f.phase.Armed? && Waited(f, e) && (f.phase.Ready? ==> e == f.(wel := true))
    requires Requested(e.profile, |e.cells.mem|, cmd) == Some(m)
    requires Ran(e, cmd, response, g) && Evolves(g, h)
    ensures Tried(f, m, h) && !g.phase.Armed? && g.profile == e.profile
    ensures f.phase.Ready? ==> Interrupted(f, [m], h)
    ensures h.phase.Ready? && !h.wel ==> Logged(f, m, h) || Dropped(f, h)
    ensures h.phase.Ready? && !h.wel && f.phase.Ready? ==> Did(f, [m], h)
  {
    hide Ran, Requested, Waited, Tried, Logged, Dropped, Interrupted, Did, Evolves;
    TriedRan(f, e, cmd, m, response, g, h);
    if f.phase.Ready? {
      MutationRan(e, cmd, m, response, g, h);
      MutationEnabled(f, m, h);
    }
  }

  /** Why the wait after such an attempt may fail on a device that was ready. */
  lemma AttemptFails(f: Nor, e: Nor, cmd: seq<byte>, m: Mutation, response: seq<byte>, g: Nor, h: Nor)
    requires Conforming(e) && f.phase.Ready? && e == f.(wel := true)
    requires Requested(e.profile, |e.cells.mem|, cmd) == Some(m)
    requires Ran(e, cmd, response, g) && Evolves(g, h)
    ensures !Idle(g) ==> |h.log| > |f.log|
    ensures h.phase.Ready? && h.wel ==> !m.WriteNvcr? && Guarded(f.profile, f.sr)
  {
    hide Executed, Answered, Requested, Guarded, Conforming;
    var k, x :|
      Evolves(e, k) && Conforming(k) && Answered(e, k, cmd, 0, response) && Executed(k, cmd, x) && Evolves(x, g);
    ExecutedEnabled(e, cmd, m, x);
    EvolvesTransitive(x, g, h);
  }

  /** On a ready, write-enabled device a mutating command starts, or the device is protected. */
  lemma ExecutedEnabled(e: Nor, cmd: seq<byte>, m: Mutation, x: Nor)
    requires Conforming(e) && e.phase.Ready? && e.wel && Requested(e.profile, |e.cells.mem|, cmd) == Some(m)
    requires Executed(e, cmd, x)
    ensures (x == e && !m.WriteNvcr? && Guarded(e.profile, e.sr)) || (x.phase.Busy? && x.log == e.log + [m])
  {
    assert |cmd| > 1;
    hide Requested, Geometry, Guarded, Apply, SameOutside;
  }

  lemma AttemptCut(f: Nor, e: Nor, cmd: seq<byte>, m: Mutation, g: Nor)
    requires Conforming(e) && !f.phase.Armed? && Waited(f, e) && (f.phase.Ready? ==> e == f.(wel := true))
    requires Requested(e.profile, |e.cells.mem|, cmd) == Some(m) && Cut(e, cmd, g)
    ensures Tried(f, m, g) && g.profile == e.profile
    ensures f.phase.Ready? ==> Interrupted(f, [m], g)
  {
    hide Cut, Requested, Waited, Tried, Interrupted;
    TriedCut(f, e, cmd, m, g);
    SameProfile(f, e, m, g);
    if f.phase.Ready? {
      MutationCut(e, cmd, m, g);
      MutationEnabled(f, m, g);
    }
  }

  lemma Untried(f: Nor, m: Mutation)
    requires !f.phase.Armed?
    ensures Tried(f, m, f) && Interrupted(f, [m], f)
  {
    hide Coherent;
    EvolvesSelf(f);
    EvolvedWaited(f, f);
    WaitedTried(f, m, f);
    NotStarted(f, [m], f);
  }

  /** Between write enable and the command nothing has been tried yet. */
  lemma Enabled(f: Nor, m: Mutation, e: Nor)
    requires Waited(f, e)
    ensures Tried(f, m, e) && !e.phase.Armed? && e.profile == f.profile
    ensures f.phase.Ready? ==> Interrupted(f, [m], e)
  {
    hide Coherent;
    WaitedTried(f, m, e);
    NotStarted(f, [m], f);
    NotStarted(f, [m], f.(wel := true));
  }

  lemma ExecutedMutation(f: Nor, cmd: seq<byte>, m: Mutation, x: Nor, h: Nor)
    requires Conforming(f) && f.phase.Ready? && f.wel
    requires Requested(f.profile, |f.cells.mem|, cmd) == Some(m)
    requires Executed(f, cmd, x) && Evolves(x, h)
    ensures Interrupted(f, [m], h)
    ensures h.phase.Ready? && !h.wel ==> Did(f, [m], h)
  {
    ReplayOne(f.profile, f.cells, [], m);
    assert [] + [m] == [m];
    if Coherent(f) {
      ExecutedCoherent(f, cmd, x);
      EvolvesCoherent(x, h);
    }
    if x == f {
      NotStarted(f, [m], h);
    } else {
      assert h.log == f.log + [m];
      assert [m][..1] == [m];
      assert TornAt(f.log, [m], 1, h.log);
    }
  }

  lemma MutationCut(f: Nor, cmd: seq<byte>, m: Mutation, g: Nor)
    requires Conforming(f) && f.phase.Ready? && f.wel
    requires Requested(f.profile, |f.cells.mem|, cmd) == Some(m)
    requires Cut(f, cmd, g)
    ensures Interrupted(f, [m], g)
  {
    if g == f {
      NotStarted(f, [m], g);
    } else {
      var n: nat, h, x :| n <= |cmd| && CutAt(f, cmd, n, h, x) && Evolves(x, g);
      PrefixRequested(f.profile, |f.cells.mem|, cmd, n, m);
      match Requested(f.profile, |f.cells.mem|, cmd[..n])
      case Some(t) =>
        ExecutedMutation(f, cmd[..n], t, x, g);
        InterruptedTruncated(f, m, t, g);
      case None =>
        NotStarted(f, [m], g);
    }
  }

  lemma InterruptedTruncated(f: Nor, m: Mutation, t: Mutation, g: Nor)
    requires Truncates(m, t) && Interrupted(f, [t], g)
    ensures Interrupted(f, [m], g)
  {
    var k: nat :| k <= 1 && TornAt(f.log, [t], k, g.log);
    if g.log == f.log {
      assert TornAt(f.log, [m], 0, g.log);
    } else {
      assert [m][..0] == [] && [t][..0] == [] && f.log + [] == f.log;
      assert k == 1 ==> [t][..1] == [t];
      assert TornAt(f.log, [m], 0, g.log);
    }
  }

  lemma ArmExecuted(f: Nor, n: nat, x: Nor)
    requires Conforming(f) && f.phase.Ready? && n <= 1 && Executed(f, [RESET_ENABLE][..n], x)
    ensures x == if n == 1 then f.(phase := Armed(f.phase)) else f
  {
    OneByte(f.profile, |f.cells.mem|, RESET_ENABLE);
    assert n == 0 || [RESET_ENABLE][..n] == [RESET_ENABLE];
    hide Requested, Geometry;
  }

  lemma ArmRan(f: Nor, response: seq<byte>, g: Nor)
    requires Conforming(f) && f.phase.Ready? && Ran(f, [RESET_ENABLE], response, g)
    ensures g == f.(phase := Armed(f.phase))
  {
    hide Executed, Answered;
    var cmd := [RESET_ENABLE];
    var h, x :|
      Evolves(f, h) && Conforming(h) && Answered(f, h, cmd, 0, response) && Executed(h, cmd, x) && Evolves(x, g);
    assert cmd == [RESET_ENABLE][..1];
    ArmExecuted(h, 1, x);
  }

  lemma ArmCut(f: Nor, g: Nor)
    requires Conforming(f) && f.phase.Ready? && Cut(f, [RESET_ENABLE], g)
    ensures g == f || g == f.(phase := Armed(f.phase))
  {
    hide Executed;
    if g != f {
      var n: nat, h, x :| n <= 1 && CutAt(f, [RESET_ENABLE], n, h, x) && Evolves(x, g);
      ArmExecuted(h, n, x);
    }
  }

  /** Only an armed device resets. */
  lemma ResetExecuted(f: Nor, n: nat, x: Nor)
    requires Conforming(f) && Idle(f) && n <= 1 && Executed(f, [RESET_MEMORY][..n], x)
    ensures x == f.(phase := Ready, wel := f.wel && !(n == 1 && f.phase.Armed?))
  {
    OneByte(f.profile, |f.cells.mem|, RESET_MEMORY);
    assert n == 0 || [RESET_MEMORY][..n] == [RESET_MEMORY];
    hide Requested, Geometry;
  }

  lemma ResetRan(f: Nor, response: seq<byte>, g: Nor)
    requires Conforming(f) && Idle(f) && Ran(f, [RESET_MEMORY], response, g)
    ensures g == f.(phase := Ready, wel := f.wel && !f.phase.Armed?)
  {
    hide Executed, Answered, Evolves;
    var cmd := [RESET_MEMORY];
    var h, x :|
      Evolves(f, h) && Conforming(h) && Answered(f, h, cmd, 0, response) && Executed(h, cmd, x) && Evolves(x, g);
    assert cmd == [RESET_MEMORY][..1];
    EvolvesKeeps(f, h);
    ResetExecuted(h, 1, x);
    EvolvesKeeps(x, g);
  }

  lemma ResetCut(f: Nor, g: Nor)
    requires Conforming(f) && Idle(f) && f.phase.Armed? && Cut(f, [RESET_MEMORY], g)
    ensures Idle(g) && g == f.(phase := g.phase, wel := g.wel)
  {
    hide Executed, Evolves;
    if Evolves(f, g) {
      EvolvesKeeps(f, g);
    } else {
      var n: nat, h, x :| n <= 1 && CutAt(f, [RESET_MEMORY], n, h, x) && Evolves(x, g);
      EvolvesKeeps(f, h);
      ResetExecuted(h, n, x);
      EvolvesKeeps(x, g);
    }
  }

  /** The erase of a whole array's size is the erase of sector zero: the device drops the carry. */
  lemma EraseWraps()
    ensures BigEndian([0x04, 0, 0, 0]) == Accessible(MICRON) == MICRON.physicalCapacity
    ensures Requested(MICRON, MICRON.physicalCapacity, [MICRON.eraseCommand, 0x04, 0, 0, 0]) == Some(Erase(0))
  {
    ProfilesMeetGeometry();
    var one: seq<byte>, two: seq<byte>, three: seq<byte> := [0x04], [0x04, 0], [0x04, 0, 0];
    BigEndianAppend([], 0x04);
    BigEndianAppend(one, 0);
    BigEndianAppend(two, 0);
    BigEndianAppend(three, 0);
    assert [] + one == one && one + [0] == two && two + [0] == three;
    assert three + [0] == [0x04, 0, 0, 0];
    assert [MICRON.eraseCommand, 0x04, 0, 0, 0][1..5] == [0x04, 0, 0, 0];
  }

  // ---------------------------------------------------------------------------------------------
  // Identification and the Micron configuration register

  const SAFE_MASK: bv16 := 0x0e3f

  /**
   The fields of the MT25Q nonvolatile configuration register that decide how the part boots: no
   execute-in-place (bits 11 to 9), single transfer rate (5), reset or hold pin in use (4), neither quad
   (3) nor dual (2) protocol, the lower segment (1) and three-byte addresses (0).
   */
  predicate BootSafe(nvcr: bv16) {
    && (nvcr >> 9) & 7 == 7
    && (nvcr >> 5) & 1 == 1 && (nvcr >> 4) & 1 == 1 && (nvcr >> 3) & 1 == 1
    && (nvcr >> 2) & 1 == 1 && (nvcr >> 1) & 1 == 1 && nvcr & 1 == 1
  }

  /** `SpiNor::micronBootSafe`. */
  predicate MicronBootSafe(nvcr: bv16): (safe: bool)
    ensures safe <==> BootSafe(nvcr)
  {
    nvcr & SAFE_MASK == SAFE_MASK
  }

  /** The number of dummy cycles (bits 15 to 12) and the driver strength (8 to 6) have nothing to do with that. */
  predicate SameTuning(a: bv16, b: bv16) {
    a >> 12 == b >> 12 && (a >> 6) & 7 == (b >> 6) & 7
  }

  function RepairPlan(nvcr: bv16): seq<Mutation> {
    if nvcr | SAFE_MASK == nvcr then [] else [WriteNvcr(nvcr | SAFE_MASK)]
  }

  /** A configuration is left alone exactly when it was safe, and a repaired one always is. */
  lemma RepairIsNeeded(nvcr: bv16)
    ensures RepairPlan(nvcr) == [] <==> BootSafe(nvcr)
    ensures BootSafe(nvcr | SAFE_MASK)
    ensures SameTuning(nvcr | SAFE_MASK, nvcr)
    ensures forall v :: BootSafe(v) && SameTuning(v, nvcr) ==> v == nvcr | SAFE_MASK
  {
  }

  function MatchProfile(id: seq<byte>): Option<Profile> {
    if SPANSION.jedecPrefix <= id then Some(SPANSION)
    else if MICRON.jedecPrefix <= id then Some(MICRON)
    else None
  }

  predicate Known(p: Chip) {
    p == SPANSION || p == MICRON
  }

  /** Two identifications are supported, and no other. */
  lemma MatchesExactly(id: seq<byte>)
    ensures MatchProfile(id) == Some(SPANSION) <==> [0x01, 0x02, 0x19, 0x4d, 0x01, 0x80] <= id
    ensures MatchProfile(id) == Some(MICRON) <==> [0x20, 0xba, 0x20] <= id
    ensures MatchProfile(id) == None || MatchProfile(id) == Some(SPANSION) || MatchProfile(id) == Some(MICRON)
  {
    assert [0x20, 0xba, 0x20] <= id ==> id[0] == 0x20;
    assert [0x01, 0x02, 0x19, 0x4d, 0x01, 0x80] <= id ==> id[0] == 0x01;
  }

  /** The identification as the core sees it. */
  function Identification(): seq<Event> {
    CommandTrace([0x9f, 0, 0, 0, 0, 0, 0])
  }

  /** A command whose second part is sent only if the controller accepted the first. */
  function Pair(first: byte, second: byte, accepted: bool): seq<Event> {
    CommandTrace([first]) + if accepted then CommandTrace([second]) else []
  }

  function AfterRelease(): seq<Event> {
    CommandTrace([0xab]) + Identification()
  }

  function AfterWakeUp(): seq<Event> {
    AfterRelease() + (CommandTrace([0xf5]) + Identification())
  }

  function AfterReset(accepted: bool): seq<Event> {
    AfterWakeUp() + (Pair(0x66, 0x99, accepted) + (CommandTrace([0xf5]) + Identification()))
  }

  function AfterLegacyReset(accepted: bool, again: bool): seq<Event> {
    AfterReset(accepted) + (Pair(0xff, 0xf0, again) + Identification())
  }

  /** The recovery goes through its steps in order, and ends early only when the device identifies itself. */
  predicate RecoveryTrace(t: seq<Event>, known: bool) {
    || (known && (t == AfterRelease() || t == AfterWakeUp() || t == AfterReset(true) || t == AfterReset(false)))
    || t == AfterLegacyReset(true, true) || t == AfterLegacyReset(true, false)
    || t == AfterLegacyReset(false, true) || t == AfterLegacyReset(false, false)
  }

  predicate Identifies(f: Nor, id: seq<byte>) {
    |id| == 6 && forall i :: 0 <= i < 6 && i < |f.id| ==> id[i] == f.id[i]
  }

  /** The identification read from a known device selects that device's own profile. */
  lemma KnownDeviceMatches(f: Nor, id: seq<byte>)
    requires Conforming(f) && Identifies(f, id)
    requires Known(f.profile)
    ensures MatchProfile(id) == Some(f.profile)
  {
    var prefix := f.profile.jedecPrefix;
    assert |prefix| <= 6;
    forall i | 0 <= i < |prefix|
      ensures id[i] == prefix[i]
    {
      assert prefix[i] == f.id[i];
    }
    assert prefix <= id;
    assert id[0] == prefix[0];
    if f.profile == MICRON {
      assert SPANSION.jedecPrefix[0] != id[0];
    }
  }

  lemma NoDigits(address: nat, width: nat)
    requires address < Pow256(width)
    ensures BigEndian([]) == address / Pow256(width)
  {
    SmallRemainder(address, Pow256(width));
  }

  /** One more digit: what is left of the address below it is one digit shorter. */
  lemma NextDigit(address: nat, below: nat, digits: seq<byte>)
    requires BigEndian(digits) == address / Pow256(below + 1)
    ensures BigEndian(digits + [ToByte((address / Pow256(below)) % 256)]) == address / Pow256(below)
  {
    hide BigEndian, ToByte;
    DivideTwice(address, Pow256(below));
    BigEndianAppend(digits, ToByte((address / Pow256(below)) % 256));
  }

  lemma AllDigits(address: nat)
    ensures address / Pow256(0) == address
  {
  }

  /** All bytes alike, 0x00 or 0xff: nothing drives the bus. */
  predicate IdleBus(id: seq<byte>) {
    id != [] && (id[0] == 0 || id[0] == 0xff) && forall i :: 0 <= i < |id| ==> id[i] == id[0]
  }

  lemma RanLength(f: Nor, cmd: seq<byte>, response: seq<byte>, g: Nor)
    requires Conforming(f) && Ran(f, cmd, response, g)
    ensures |response| == |cmd|
  {
  }

  lemma IdentificationDriven(f: Nor, command: seq<byte>, response: seq<byte>)
    requires Conforming(f) && f.phase.Ready?
    requires command == [READ_ID, 0, 0, 0, 0, 0, 0] && |response| == 7
    requires forall i :: 0 <= i < 7 ==> Drives(f, command[..i], response[i])
    ensures Identifies(f, response[1..])
  {
    forall i | 0 <= i < 6 && i < |f.id|
      ensures response[1..][i] == f.id[i]
    {
      assert Drives(f, command[..i + 1], response[i + 1]);
      assert command[..i + 1][0] == READ_ID;
    }
  }

  /** A Micron part of which sector zero is being erased; the array has not changed yet. */
  function Erasing(): Nor {
    ProfilesMeetGeometry();
    var cells := Cells(seq(MICRON.physicalCapacity, _ => 0x55), 0xffff);
    Nor(MICRON, MICRON.jedecPrefix, cells, cells, Busy(Apply(MICRON, cells, Erase(0))), true, 0, [Erase(0)], 0)
  }

  /**
   Such a part may answer the identification with a bus that looks idle. What the recovery sends then
   resets it, and leaves a byte that is neither the old one nor erased.
   */
  lemma OpeningMayLose() returns (armed: Nor, g: Nor)
    ensures Coherent(Erasing()) && Erasing().phase.Busy?
    ensures forall i :: 0 <= i <= 6 ==> Drives(Erasing(), [READ_ID, 0, 0, 0, 0, 0, 0][..i], 0xff)
    ensures IdleBus([0xff, 0xff, 0xff, 0xff, 0xff, 0xff]) && MatchProfile([0xff, 0xff, 0xff, 0xff, 0xff, 0xff]) == None
    ensures Executed(Erasing(), [RESET_ENABLE], armed) && Conforming(armed) && Executed(armed, [RESET_MEMORY], g)
    ensures g.phase.Ready? && Aborted(Erasing(), g)
    ensures g.cells.mem != Erasing().cells.mem && g.cells.mem != Erasing().phase.after.mem
  {
    var f := Erasing();
    ErasingCoherent(f);
    AllOnes();
    hide Executed, Drives, Apply, Coherent, Aborted, Conforming, Erasing, IdleBus, MatchProfile, Geometry;
    var at: nat;
    armed, g, at := BusyDeviceMayLose(f);
  }

  lemma AllOnes()
    ensures IdleBus([0xff, 0xff, 0xff, 0xff, 0xff, 0xff]) && MatchProfile([0xff, 0xff, 0xff, 0xff, 0xff, 0xff]) == None
  {
    assert [0xff, 0xff, 0xff, 0xff, 0xff, 0xff][0] != SPANSION.jedecPrefix[0];
  }

  lemma ErasingCoherent(f: Nor)
    requires f == Erasing()
    ensures Coherent(f) && Conforming(f) && f.phase.Busy? && f.log == [Erase(0)]
    ensures First(f.profile, Erase(0)) == 0 < |f.cells.mem|
  {
    ProfilesMeetGeometry();
    hide Apply, SameOutside, End;
    var c := f.origin;
    assert [] + [Erase(0)] == [Erase(0)];
    ReplayOne(f.profile, c, [], Erase(0));
    assert Replay(f.profile, c, []) == c;
    Symmetric(f.profile, Erase(0), c, Apply(f.profile, c, Erase(0)));
    assert Explains(f, Replay(f.profile, f.origin, f.log));
  }

  lemma Symmetric(p: Chip, m: Mutation, c: Cells, d: Cells)
    requires SameOutside(p, m, c, d)
    ensures SameOutside(p, m, d, c)
  {
  }

  lemma NvcrDrives(f: Nor, command: seq<byte>, response: seq<byte>)
    requires Conforming(f) && f.phase.Ready? && f.profile.nvcr
    requires command == [READ_NVCR, 0, 0] && |response| == 3
    requires forall i :: 0 <= i < 3 ==> Drives(f, command[..i], response[i])
    ensures response[1] as bv16 | (response[2] as bv16 << 8) == f.cells.nvcr
  {
    assert Drives(f, command[..1], response[1]) && Drives(f, command[..2], response[2]);
    assert command[..1][0] == READ_NVCR && command[..2][0] == READ_NVCR;
    JoinHalves(f.cells.nvcr);
  }

  lemma NvcrRequested(p: Chip, size: nat, value: bv16)
    requires p.nvcr && 0 < size
    ensures Requested(p, size, [0xb1, (value & 0xff) as byte, (value >> 8) as byte]) == Some(WriteNvcr(value))
  {
    JoinHalves(value);
  }

  lemma JoinHalves(v: bv16)
    ensures ((v & 0xff) as byte) as bv16 | (((v >> 8) as byte) as bv16 << 8) == v
  {
  }

  lemma InterruptedLatch(f: Nor, plan: seq<Mutation>, g: Nor, h: Nor)
    requires Interrupted(f, plan, g) && Idle(g) && Conforming(h) && Idle(h) && h == g.(phase := h.phase, wel := h.wel)
    ensures Interrupted(f, plan, h)
  {
    if Coherent(g) {
      IdleCoherent(g, h);
    }
    var k: nat :| k <= |plan| && TornAt(f.log, plan, k, g.log);
    assert TornAt(f.log, plan, k, h.log);
  }

  lemma DidOne(f: Nor, m: Mutation, g: Nor)
    requires Did(f, [m], g)
    ensures g.cells == Apply(f.profile, f.cells, m)
  {
    ReplayOne(f.profile, f.cells, [], m);
    assert [] + [m] == [m];
  }

  lemma DidReady(f: Nor, plan: seq<Mutation>, g: Nor)
    requires f.phase.Ready? && Did(f, plan, g)
    ensures g.phase.Ready? && g.profile == f.profile
  {
  }

  lemma Repaired(f: Nor, g: Nor, h: Nor)
    requires f.phase.Ready? && Did(f, RepairPlan(f.cells.nvcr), g) && h == g.(wel := false)
    ensures BootSafe(h.cells.nvcr) && SameTuning(h.cells.nvcr, f.cells.nvcr)
    ensures h.cells.nvcr == f.cells.nvcr | SAFE_MASK
    ensures Did(f.(wel := false), RepairPlan(f.cells.nvcr), h)
  {
    hide BootSafe, SameTuning;
    RepairIsNeeded(f.cells.nvcr);
    if RepairPlan(f.cells.nvcr) != [] {
      DidOne(f, WriteNvcr(f.cells.nvcr | SAFE_MASK), g);
    }
  }

  /** The response to a read command carries the array from the requested address on. */
  lemma ReadData(f: Nor, address: nat, header: seq<byte>, cmd: seq<byte>, response: seq<byte>)
    requires Conforming(f) && f.phase.Ready?
    requires |header| == 1 + f.profile.addressBytes && header[0] == f.profile.readCommand
    requires BigEndian(header[1..]) == address && header <= cmd
    requires |response| == |cmd| && address + (|cmd| - |header|) <= |f.cells.mem|
    requires forall i :: 0 <= i < |cmd| ==> Drives(f, cmd[..i], response[i])
    ensures response[|header|..] == f.cells.mem[address..address + (|cmd| - |header|)]
  {
    forall i | |header| <= i < |response|
      ensures response[i] == f.cells.mem[address + (i - |header|)]
    {
      assert Drives(f, cmd[..i], response[i]);
      ReadDrives(f, address, header, cmd, i, response[i]);
    }
  }

  lemma ReadDrives(f: Nor, address: nat, header: seq<byte>, cmd: seq<byte>, i: nat, b: byte)
    requires Conforming(f) && f.phase.Ready?
    requires |header| == 1 + f.profile.addressBytes && header[0] == f.profile.readCommand
    requires BigEndian(header[1..]) == address && |header| <= i <= |cmd| && header <= cmd
    requires address + (i - |header|) < |f.cells.mem|
    requires Drives(f, cmd[..i], b)
    ensures b == f.cells.mem[address + (i - |header|)]
  {
    var prefix := cmd[..i];
    assert prefix[1..|header|] == header[1..];
    assert prefix[0] == header[0];
    ReadOpcode(f.profile);
    SmallRemainder(address + (i - |header|), |f.cells.mem|);
  }

  /** The command asks for `size` bytes from `address` on. */
  predicate IsRead(p: Chip, cmd: seq<byte>, address: nat, size: nat) {
    && |cmd| == 1 + p.addressBytes + size
    && cmd[0] == p.readCommand && BigEndian(cmd[1..1 + p.addressBytes]) == address
  }

  /** The events are read commands that ask for all `length` bytes from `address` on, in order. */
  predicate ReadsBack(p: Chip, t: seq<Event>, address: nat, length: nat)
    decreases length
  {
    if length == 0 then t == []
    else
      && |t| >= 2 && t[|t| - 2].Selection?
      && var cmd := t[|t| - 2].bytes;
      var size := |cmd| - 1 - p.addressBytes;
      && 0 < size <= length && t[|t| - 2..] == CommandTrace(cmd)
      && IsRead(p, cmd, address + length - size, size) && ReadsBack(p, t[..|t| - 2], address, length - size)
  }

  lemma NoReadBack(p: Chip, address: nat)
    ensures ReadsBack(p, [], address, 0)
  {
  }

  lemma MoreReadBack(p: Chip, t: seq<Event>, address: nat, length: nat, cmd: seq<byte>, size: nat)
    requires ReadsBack(p, t, address, length) && 0 < size && IsRead(p, cmd, address + length, size)
    ensures ReadsBack(p, t + CommandTrace(cmd), address, length + size)
  {
    var more := t + CommandTrace(cmd);
    assert more[..|more| - 2] == t && more[|more| - 2..] == CommandTrace(cmd);
  }

  lemma ReadOpcode(p: Chip)
    ensures p.readCommand != READ_ID && p.readCommand != READ_STATUS && p.readCommand != READ_NVCR
  {
    assert !Common(p.readCommand) && Common(READ_ID) && Common(READ_STATUS) && Common(READ_NVCR);
  }

  // ---------------------------------------------------------------------------------------------

  /** The bytes taken since `before` include an identification, and end with this one. */
  predicate EndsWith(before: seq<byte>, after: seq<byte>, id: seq<byte>) {
    && before <= after && |before| + 7 <= |after|
    && |id| == 6 && after[|after| - 6..] == id
  }

  /** What came back for the first identification, without the byte under the opcode. */
  function FirstAnswer(before: seq<byte>, after: seq<byte>): (id: seq<byte>)
    requires |before| + 7 <= |after|
    ensures |id| == 6
  {
    after[|before| + 1..|before| + 7]
  }

  /** The recovery ran exactly when the first answer was that of a bus that nothing drives. */
  ghost predicate Asked(r0: seq<byte>, r1: seq<byte>, t0: seq<Event>, t1: seq<Event>, known: bool) {
    && |r0| + 7 <= |r1|
    && var first := FirstAnswer(r0, r1);
    if first == [0, 0, 0, 0, 0, 0] || first == [0xff, 0xff, 0xff, 0xff, 0xff, 0xff] then
      exists t :: RecoveryTrace(t, known) && t1 == t0 + Identification() + t
    else
      t1 == t0 + Identification()
  }

  lemma AnswersAppend(before: seq<byte>, mid: seq<byte>, after: seq<byte>, id: seq<byte>)
    requires before <= mid && EndsWith(mid, after, id)
    ensures EndsWith(before, after, id)
    ensures |before| + 7 <= |mid| ==> FirstAnswer(before, after) == FirstAnswer(before, mid)
  {
  }

  /** A bus that nothing drives, and no device that is supported. */
  lemma SilentBus(id: seq<byte>)
    requires |id| == 6
    ensures MatchProfile(id) == None && IdleBus(id) <==>
      id == [0, 0, 0, 0, 0, 0] || id == [0xff, 0xff, 0xff, 0xff, 0xff, 0xff]
  {
    MatchesExactly(id);
    assert IdleBus(id) ==> id == [id[0], id[0], id[0], id[0], id[0], id[0]];
  }

  lemma ResetTrace(begun: seq<Event>, after: seq<Event>) returns (accepted: bool)
    requires exists accepted ::
      after == begun + AfterWakeUp() + (Pair(0x66, 0x99, accepted) + (CommandTrace([0xf5]) + Identification()))
    ensures after == begun + AfterReset(accepted) && RecoveryTrace(AfterReset(accepted), true)
  {
    accepted :|
      after == begun + AfterWakeUp() + (Pair(0x66, 0x99, accepted) + (CommandTrace([0xf5]) + Identification()));
    hide AfterWakeUp, Pair, CommandTrace, Identification;
  }

  lemma LegacyTrace(begun: seq<Event>, accepted: bool, before: seq<Event>, after: seq<Event>, ok: bool)
    requires
      || before == begun + AfterReset(accepted) + Pair(0xff, 0xf0, true)
      || before == begun + AfterReset(accepted) + Pair(0xff, 0xf0, false)
    requires ok ==> after == before + Identification()
    ensures ok ==> exists t :: RecoveryTrace(t, true) && RecoveryTrace(t, false) && after == begun + t
  {
    hide AfterReset, Pair, CommandTrace, Identification;
    if ok {
      var again := before == begun + AfterReset(accepted) + Pair(0xff, 0xf0, true);
      var t := AfterLegacyReset(accepted, again);
      assert RecoveryTrace(t, true) && RecoveryTrace(t, false) && after == begun + t;
    }
  }

  class SpiNor {
    const spi: AxiQuadSpi
    var jedecId: seq<byte>
    var profile: Chip
    var capacity: nat

    constructor (spi: AxiQuadSpi, jedecId: seq<byte>, profile: Chip)
      ensures this.spi == spi && this.jedecId == jedecId && this.profile == profile
      ensures this.capacity == Accessible(profile)
    {
      this.spi, this.jedecId, this.profile := spi, jedecId, profile;
      this.capacity := Accessible(profile);
    }

    /**
     Construction reads the identification and picks the profile; a device that drives nothing is put
     through the recovery sequence and asked again. No mutation is started, an idle device keeps its
     contents, and a supported one that is ready is opened as itself. A busy device can be reset by
     the recovery, which ends its operation half way.
     */
    static method Open(spi: AxiQuadSpi) returns (r: Result<SpiNor>)
      requires spi.Valid()
      modifies spi.core
      ensures spi.Valid() && Unasked(old(spi.core.s.flash), spi.core.s.flash)
      ensures Extends(old(spi.core.past), spi.core.past)
      ensures r.Ok? ==> r.value.spi == spi && MatchProfile(r.value.jedecId) == Some(r.value.profile)
      ensures r.Ok? ==> |r.value.jedecId| == 6 && r.value.capacity == Accessible(r.value.profile)
      ensures old(spi.core.s.flash).phase.Ready? && Known(old(spi.core.s.flash).profile) ==>
        && spi.core.s.flash == old(spi.core.s.flash)
        && (r.Ok? ==> r.value.Valid() && Identifies(spi.core.s.flash, r.value.jedecId))
        && (r.Err? ==> spi.Shows(old(spi.core.past), r.error))
      ensures r.Ok? ==> EndsWith(old(spi.core.received), spi.core.received, r.value.jedecId)
      ensures r == Err(UnsupportedFlash) ==>
        exists id :: EndsWith(old(spi.core.received), spi.core.received, id) && MatchProfile(id) == None
      ensures r.Ok? || r.error == UnsupportedFlash ==>
        Asked(old(spi.core.received), spi.core.received, old(spi.core.s.trace), spi.core.s.trace, r.Ok?)
      ensures r.Err? ==> r.error == UnsupportedFlash || spi.Shows(old(spi.core.past), r.error)
    {
      hide Extends, EndsAt, Unasked, Interrupted, Asked, EndsWith, MatchProfile,
           ErrorSeen, EmptySeen, Resetting, Parked;
      ProfilesMeetGeometry();
      var jedecId :- FindOut(spi);
      MatchesExactly(jedecId);
      match MatchProfile(jedecId)
      case None =>
        return Err(UnsupportedFlash);
      case Some(profile) =>
        var flash := new SpiNor(spi, jedecId, profile);
        return Ok(flash);
    }

    /** The identification to go by: the first one, or that of the recovery. */
    static method FindOut(spi: AxiQuadSpi) returns (r: Result<seq<byte>>)
      requires spi.Valid()
      modifies spi.core
      ensures spi.Valid() && Unasked(old(spi.core.s.flash), spi.core.s.flash)
      ensures Extends(old(spi.core.past), spi.core.past)
      ensures old(spi.core.s.flash).phase.Ready? && Known(old(spi.core.s.flash).profile) ==>
        && spi.core.s.flash == old(spi.core.s.flash)
        && (r.Ok? ==> Identifies(spi.core.s.flash, r.value))
        && (r.Ok? ==> MatchProfile(r.value) == Some(spi.core.s.flash.profile))
      ensures r.Ok? ==> |r.value| == 6 && EndsWith(old(spi.core.received), spi.core.received, r.value)
      ensures r.Ok? ==>
        Asked(old(spi.core.received), spi.core.received, old(spi.core.s.trace), spi.core.s.trace,
              MatchProfile(r.value) != None)
      ensures r.Err? ==> spi.Shows(old(spi.core.past), r.error)
    {
      hide Extends, EndsAt, Unasked, Interrupted, RecoveryTrace, Identification, MatchProfile, IdleBus, Elapsed;
      ExtensionsChain();
      ghost var f := spi.core.s.flash;
      r := Identify(spi);
      if r.Err? {
        return;
      }
      ghost var mid, g := spi.core.received, spi.core.s.flash;
      SilentBus(r.value);
      if f.phase.Ready? && Known(f.profile) {
        KnownDeviceMatches(f, r.value);
      }
      if MatchProfile(r.value) == None && IdleBus(r.value) {
        r := RecoverSerialMode(spi);
        UnaskedTwice(f, g, spi.core.s.flash);
        if r.Ok? {
          AnswersAppend(old(spi.core.received), mid, spi.core.received, r.value);
        }
      }
    }

    /** Six identification bytes; the first byte clocked in belongs to the opcode. */
    static method Identify(spi: AxiQuadSpi) returns (r: Result<seq<byte>>)
      requires spi.Valid()
      modifies spi.core
      ensures spi.Valid() && Unasked(old(spi.core.s.flash), spi.core.s.flash)
      ensures Interrupted(old(spi.core.s.flash), [], spi.core.s.flash)
      ensures Extends(old(spi.core.past), spi.core.past)
      ensures old(spi.core.s.flash).phase.Ready? ==> spi.core.s.flash == old(spi.core.s.flash)
      ensures r.Ok? ==> EndsWith(old(spi.core.received), spi.core.received, r.value)
      ensures r.Ok? ==> |spi.core.received| == |old(spi.core.received)| + 7
      ensures old(spi.core.received) <= spi.core.received
      ensures r.Ok? ==> spi.core.s.trace == old(spi.core.s.trace) + Identification()
      ensures r.Ok? && old(spi.core.s.flash).phase.Ready? ==> Identifies(spi.core.s.flash, r.value)
      ensures r.Err? ==> spi.Shows(old(spi.core.past), r.error)
    {
      hide Extends, EndsAt, Unasked, Interrupted, Ran, Cut;
      ghost var f := spi.core.s.flash;
      var command := [READ_ID, 0, 0, 0, 0, 0, 0];
      CommonInert(f.profile, command);
      CommonHarmless(f.profile, command);
      var response := spi.Transfer(command);
      if response.Err? {
        HarmlessCut(f, command, spi.core.s.flash);
        UnaskedQuietly(f, spi.core.s.flash);
        if f.phase.Ready? {
          InertCut(f, command, spi.core.s.flash);
        }
        return Err(response.error);
      }
      HarmlessRan(f, command, response.value, spi.core.s.flash);
      UnaskedQuietly(f, spi.core.s.flash);
      RanLength(f, command, response.value, spi.core.s.flash);
      if f.phase.Ready? {
        InertRan(f, command, response.value, spi.core.s.flash);
        IdentificationDriven(f, command, response.value);
      }
      return Ok(response.value[1..]);
    }

    /** A single-byte command that the controller may refuse; any other failure ends the recovery. */
    static method TryRecovery(spi: AxiQuadSpi, command: byte) returns (r: Result<bool>)
      requires spi.Valid() && Common(command) && command != WRITE_NVCR
      modifies spi.core
      ensures spi.Valid() && Unasked(old(spi.core.s.flash), spi.core.s.flash)
      ensures Extends(old(spi.core.past), spi.core.past) && old(spi.core.received) <= spi.core.received
      ensures r == Ok(false) ==> spi.Shows(old(spi.core.past), CommandRejected(command))
      ensures r.Ok? ==> spi.core.s.trace == old(spi.core.s.trace) + CommandTrace([command])
      ensures r.Err? ==> r.error == TransmitTimeout || r.error == FifoResetTimeout
      ensures r.Err? ==> spi.Shows(old(spi.core.past), r.error)
    {
      hide Extends, EndsAt, Unasked, Interrupted, Ran, Cut;
      ghost var f := spi.core.s.flash;
      CommonHarmless(f.profile, [command]);
      var response := spi.Transfer([command]);
      if response.Err? {
        HarmlessCut(f, [command], spi.core.s.flash);
        return if response.error.CommandRejected? then Ok(false) else Err(response.error);
      }
      HarmlessRan(f, [command], response.value, spi.core.s.flash);
      return Ok(true);
    }

    /** Two recovery opcodes, the second only if the controller accepted the first. */
    static method TryPair(spi: AxiQuadSpi, first: byte, second: byte) returns (r: Result<()>)
      requires spi.Valid() && Common(first) && first != WRITE_NVCR && Common(second) && second != WRITE_NVCR
      modifies spi.core
      ensures spi.Valid() && Unasked(old(spi.core.s.flash), spi.core.s.flash)
      ensures Extends(old(spi.core.past), spi.core.past) && old(spi.core.received) <= spi.core.received
      ensures r.Ok? ==>
        || spi.core.s.trace == old(spi.core.s.trace) + Pair(first, second, true)
        || (spi.core.s.trace == old(spi.core.s.trace) + Pair(first, second, false)
            && spi.Shows(old(spi.core.past), CommandRejected(first)))
      ensures r.Err? ==> spi.Shows(old(spi.core.past), r.error)
    {
      hide Extends, EndsAt, Unasked, Interrupted, Elapsed, CommandTrace, ErrorSeen, EmptySeen, Resetting, Parked;
      ExtensionsChain();
      ghost var f := spi.core.s.flash;
      var accepted :- TryRecovery(spi, first);
      if accepted {
        ghost var g := spi.core.s.flash;
        var again := TryRecovery(spi, second);
        UnaskedTwice(f, g, spi.core.s.flash);
        if again.Err? {
          return Err(again.error);
        }
      }
      return Ok(());
    }

    /** Wake the device, leave quad mode, reset in either dialect, until it identifies itself. */
    static method RecoverSerialMode(spi: AxiQuadSpi) returns (r: Result<seq<byte>>)
      requires spi.Valid()
      modifies spi.core
      ensures spi.Valid() && Unasked(old(spi.core.s.flash), spi.core.s.flash)
      ensures Extends(old(spi.core.past), spi.core.past)
      ensures r.Ok? ==> EndsWith(old(spi.core.received), spi.core.received, r.value)
      ensures r.Ok? ==>
        exists t :: RecoveryTrace(t, MatchProfile(r.value) != None)
          && spi.core.s.trace == old(spi.core.s.trace) + t
      ensures r.Err? ==> spi.Shows(old(spi.core.past), r.error)
    {
      hide Extends, EndsAt, Unasked, Interrupted, MatchProfile, AfterRelease, AfterLegacyReset,
           ErrorSeen, EmptySeen, Resetting, Parked;
      ExtensionsChain();
      r := WakeUp(spi);
      assert RecoveryTrace(AfterRelease(), true) && RecoveryTrace(AfterWakeUp(), true);
      if r.Err? || MatchProfile(r.value) != None {
        return;
      }
      ghost var f, g, begun := old(spi.core.s.flash), spi.core.s.flash, old(spi.core.s.trace);
      r := ResetProtocol(spi);
      UnaskedTwice(f, g, spi.core.s.flash);
      if r.Err? {
        return;
      }
      ghost var accepted := ResetTrace(begun, spi.core.s.trace);
      if MatchProfile(r.value) != None {
        return;
      }
      g := spi.core.s.flash;
      var tried := TryPair(spi, MODE_BIT_RESET, SPANSION_RESET);
      UnaskedTwice(f, g, spi.core.s.flash);
      if tried.Err? {
        return Err(tried.error);
      }
      ghost var t := spi.core.s.trace;
      g := spi.core.s.flash;
      r := Identify(spi);
      UnaskedTwice(f, g, spi.core.s.flash);
      LegacyTrace(begun, accepted, t, spi.core.s.trace, r.Ok?);
    }

    /** Release from power-down, then out of quad mode, each followed by an identification. */
    static method WakeUp(spi: AxiQuadSpi) returns (r: Result<seq<byte>>)
      requires spi.Valid()
      modifies spi.core
      ensures spi.Valid() && Unasked(old(spi.core.s.flash), spi.core.s.flash)
      ensures Extends(old(spi.core.past), spi.core.past)
      ensures r.Ok? ==> EndsWith(old(spi.core.received), spi.core.received, r.value)
      ensures r.Ok? ==>
        || (MatchProfile(r.value) != None && spi.core.s.trace == old(spi.core.s.trace) + AfterRelease())
        || spi.core.s.trace == old(spi.core.s.trace) + AfterWakeUp()
      ensures r.Err? ==> spi.Shows(old(spi.core.past), r.error)
    {
      hide Extends, EndsAt, Unasked, Interrupted, ErrorSeen, EmptySeen, Resetting, Parked;
      ExtensionsChain();
      r := TryThenIdentify(spi, RELEASE_POWER_DOWN);
      if r.Err? || MatchProfile(r.value) != None {
        return;
      }
      ghost var g := spi.core.s.flash;
      r := TryThenIdentify(spi, RESET_QUAD_PROTOCOL);
      UnaskedTwice(old(spi.core.s.flash), g, spi.core.s.flash);
    }

    static method TryThenIdentify(spi: AxiQuadSpi, command: byte) returns (r: Result<seq<byte>>)
      requires spi.Valid() && Common(command) && command != WRITE_NVCR
      modifies spi.core
      ensures spi.Valid() && Unasked(old(spi.core.s.flash), spi.core.s.flash)
      ensures Extends(old(spi.core.past), spi.core.past)
      ensures r.Ok? ==> EndsWith(old(spi.core.received), spi.core.received, r.value)
      ensures r.Ok? ==>
        spi.core.s.trace == old(spi.core.s.trace) + (CommandTrace([command]) + Identification())
      ensures r.Err? ==> spi.Shows(old(spi.core.past), r.error)
    {
      hide Extends, EndsAt, Unasked, Interrupted, ErrorSeen, EmptySeen, Resetting, Parked;
      ExtensionsChain();
      var _ :- TryRecovery(spi, command);
      ghost var g := spi.core.s.flash;
      r := Identify(spi);
      UnaskedTwice(old(spi.core.s.flash), g, spi.core.s.flash);
    }

    /** The armed reset, once more out of quad mode, and an identification. */
    static method ResetProtocol(spi: AxiQuadSpi) returns (r: Result<seq<byte>>)
      requires spi.Valid()
      modifies spi.core
      ensures spi.Valid() && Unasked(old(spi.core.s.flash), spi.core.s.flash)
      ensures Extends(old(spi.core.past), spi.core.past)
      ensures r.Ok? ==> EndsWith(old(spi.core.received), spi.core.received, r.value)
      ensures r.Ok? ==>
        exists accepted :: spi.core.s.trace == old(spi.core.s.trace)
          + (Pair(0x66, 0x99, accepted) + (CommandTrace([0xf5]) + Identification()))
      ensures r.Err? ==> spi.Shows(old(spi.core.past), r.error)
    {
      hide Extends, EndsAt, Unasked, Interrupted, ErrorSeen, EmptySeen, Resetting, Parked;
      ExtensionsChain();
      var _ :- TryPair(spi, RESET_ENABLE, RESET_MEMORY);
      ghost var g := spi.core.s.flash;
      r := TryThenIdentify(spi, RESET_QUAD_PROTOCOL);
      UnaskedTwice(old(spi.core.s.flash), g, spi.core.s.flash);
    }

    function Flash(): Nor
      reads this, spi, spi.core
    {
      spi.core.s.flash
    }

    ghost predicate Valid()
      reads this, spi, spi.core
    {
      && spi.Valid()
      && profile == Flash().profile
      && capacity == Accessible(profile)
      && capacity <= |Flash().cells.mem|
    }

    /**
     The controller or the device accounts for the error of a method that found the device as `f` when
     `past` was all; no operation is given up in less than five seconds.
     */
    ghost predicate Reason(f: Nor, past: seq<Nor>, e: Error)
      reads this, spi, spi.core
    {
      || spi.Shows(past, e)
      || (Causes(f, e, Flash()) && (e == ReadyTimeout ==> Elapsed(past, spi.core.past, 5_000 * MILLISECOND)))
    }

    /** A reason of a later part of a method is one of the whole. */
    lemma ReasonEarlier(f: Nor, past: seq<Nor>, later: seq<Nor>, e: Error)
      requires Extends(past, later) && (Reason(f, later, e) || spi.Shows(later, e))
      ensures Reason(f, past, e) && e != NotMicron
      ensures spi.Shows(later, e) ==> e != WriteEnableRejected && e != DidNotStart
    {
    }

    /** What is left of the reasons on a device that was ready and not protected. */
    lemma ReasonWhenWritable(f: Nor, past: seq<Nor>, e: Error)
      requires f.phase.Ready? && !Guarded(f.profile, f.sr) && Reason(f, past, e)
      ensures e != WriteEnableRejected && e != DidNotStart
      ensures e == EraseProgramFault ==> Faulty(Flash().profile, Flash().sr)
      ensures e == ReadyTimeout ==> |Flash().log| > |f.log|
    {
    }

    predicate InRange(address: nat, length: nat)
      reads this
    {
      address + length <= capacity
    }

    /** No intermediate sum is formed, so the check cannot wrap. */
    method CheckRange(address: nat, length: nat) returns (r: Result<()>)
      ensures r == if InRange(address, length) then Ok(()) else Err(OutOfRange)
    {
      if address > capacity || length > capacity - address {
        return Err(OutOfRange);
      }
      return Ok(());
    }

    /** Most significant byte first, in exactly the width of the profile's commands. */
    method EncodeAddress(address: nat) returns (r: Result<seq<byte>>)
      ensures r.Ok? <==> address < Pow256(profile.addressBytes)
      ensures r.Ok? ==> |r.value| == profile.addressBytes && BigEndian(r.value) == address
      ensures r.Err? ==> r.error == OutOfRange
    {
      hide Pow256, BigEndian, Geometry;
      if address >= Pow256(profile.addressBytes) {
        return Err(OutOfRange);
      }
      var width := profile.addressBytes;
      var result := [];
      NoDigits(address, width);
      for index := 0 to width
        invariant |result| == index
        invariant BigEndian(result) == address / Pow256(width - index)
      {
        var digit := (address / Pow256(width - index - 1)) % 256;
        NextDigit(address, width - index - 1, result);
        result := result + [ToByte(digit)];
      }
      AllDigits(address);
      return Ok(result);
    }

    method ReadStatus() returns (r: Result<byte>)
      requires Valid() && !Flash().phase.Armed?
      modifies spi.core
      ensures Valid() && Evolves(old(Flash()), Flash())
      ensures Extends(old(spi.core.past), spi.core.past)
      ensures r.Ok? ==> r.value == Status(old(Flash())) || r.value == Status(Flash())
      ensures r.Ok? ==> spi.core.s.trace == old(spi.core.s.trace) + CommandTrace([0x05, 0])
      ensures r.Ok? ==> Elapsed(old(spi.core.past), spi.core.past, 1)
      ensures r.Err? ==> spi.Shows(old(spi.core.past), r.error)
    {
      hide Extends, EndsAt, Ran, Cut, Evolves, Status, Inert, Geometry;
      ExtensionsChain();
      ghost var f := Flash();
      CommonInert(profile, [READ_STATUS, 0]);
      var response := spi.Transfer([READ_STATUS, 0]);
      if response.Err? {
        InertCut(f, [READ_STATUS, 0], Flash());
        EvolvesKeeps(f, Flash());
        return Err(response.error);
      }
      RanLength(f, [READ_STATUS, 0], response.value, Flash());
      StatusRan(f, response.value, Flash());
      EvolvesKeeps(f, Flash());
      return Ok(response.value[1]);
    }

    method WriteEnable() returns (r: Result<()>)
      requires Valid() && !Flash().phase.Armed?
      modifies spi.core
      ensures Valid() && Waited(old(Flash()), Flash())
      ensures Extends(old(spi.core.past), spi.core.past)
      ensures old(Flash()).phase.Ready? ==> Flash() == old(Flash()) || Flash() == old(Flash()).(wel := true)
      ensures r.Ok? && old(Flash()).phase.Ready? ==> Flash().wel
      ensures r.Ok? ==>
        spi.core.s.trace == old(spi.core.s.trace) + CommandTrace([0x06]) + CommandTrace([0x05, 0])
      ensures r.Err? ==>
        || spi.Shows(old(spi.core.past), r.error)
        || (r.error == WriteEnableRejected && !old(Flash()).phase.Ready? && !Flash().wel)
      ensures r.Err? ==> Reason(old(Flash()), old(spi.core.past), r.error)
    {
      hide Extends, EndsAt, Status, Latched, Coherent, Ran, Cut, Evolves, Elapsed, CommandTrace,
           ErrorSeen, EmptySeen, Resetting, Parked;
      ExtensionsChain();
      ghost var f := Flash();
      var response := spi.Transfer([WRITE_ENABLE]);
      if response.Err? {
        WriteEnableCut(f, Flash());
        return Err(response.error);
      }
      ghost var g := Flash();
      WriteEnableRan(f, response.value, g);
      var status := ReadStatus();
      EvolvesKeeps(g, Flash());
      EvolvedWaited(g, Flash());
      WaitedTwice(f, g, Flash());
      if status.Err? {
        return Err(status.error);
      }
      if !Latched(status.value) {
        NotLatched(f, g, status.value, Flash());
        return Err(WriteEnableRejected);
      }
      return Ok(());
    }

    method WaitReady(timeoutMs: nat) returns (r: Result<()>)
      requires Valid() && !Flash().phase.Armed?
      modifies spi.core
      ensures Valid() && Evolves(old(Flash()), Flash())
      ensures Extends(old(spi.core.past), spi.core.past)
      ensures r.Ok? ==> Flash().phase.Ready? && !Flash().wel && !Faulty(profile, Flash().sr)
      ensures r == Err(EraseProgramFault) ==> Faulty(profile, Flash().sr)
      ensures r == Err(DidNotStart) ==> Flash().phase.Ready? && Flash().wel
      ensures r == Err(ReadyTimeout) ==>
        !Idle(old(Flash())) && Elapsed(old(spi.core.past), spi.core.past, timeoutMs * 1_000_000)
      ensures r.Err? ==>
        r.error in {EraseProgramFault, DidNotStart, ReadyTimeout} || spi.Shows(old(spi.core.past), r.error)
      ensures r.Err? && Idle(old(Flash())) && !old(Flash()).wel && !Faulty(profile, old(Flash()).sr) ==>
        spi.Shows(old(spi.core.past), r.error)
    {
      hide Extends, EndsAt, Status, Faulty, InProgress, Latched, Conforming, ErrorSeen, EmptySeen, Resetting, Parked;
      ExtensionsChain();
      var deadline := spi.core.clock + timeoutMs * MILLISECOND;
      while true
        invariant Valid() && Evolves(old(Flash()), Flash())
        invariant Extends(old(spi.core.past), spi.core.past)
        decreases deadline - spi.core.clock
      {
        ghost var g := Flash();
        var current :- ReadStatus();
        EvolvesTransitive(old(Flash()), g, Flash());
        PollMeans(g, current, Flash());
        if Faulty(profile, current) {
          return Err(EraseProgramFault);
        }
        if !InProgress(current) {
          if Latched(current) {
            return Err(DidNotStart);
          }
          return Ok(());
        }
        if spi.core.clock >= deadline {
          return Err(ReadyTimeout);
        }
      }
    }

    method Read(address: nat, length: nat) returns (r: Result<seq<byte>>)
      requires Valid() && Flash().phase.Ready?
      modifies spi.core
      ensures Valid() && Flash() == old(Flash())
      ensures Extends(old(spi.core.past), spi.core.past)
      ensures r == Err(OutOfRange) <==> !InRange(address, length)
      ensures r.Ok? ==> r.value == Flash().cells.mem[address..address + length]
      ensures r.Ok? ==>
        exists t :: ReadsBack(profile, t, address, length) && spi.core.s.trace == old(spi.core.s.trace) + t
      ensures r.Err? ==> r.error == OutOfRange || spi.Shows(old(spi.core.past), r.error)
    {
      hide Extends, EndsAt, IsRead, ReadsBack, Elapsed, CommandTrace, Conforming, BigEndian, Pow256;
      ExtensionsChain();
      ghost var p, t: seq<Event> := profile, [];
      NoReadBack(p, address);
      var _ :- CheckRange(address, length);
      ghost var f := Flash();
      var output := [];
      var maximumData := FIFO_DEPTH - 1 - profile.addressBytes;
      while |output| < length
        invariant Valid() && Flash() == f
        invariant Extends(old(spi.core.past), spi.core.past)
        invariant |output| <= length && output == f.cells.mem[address..address + |output|]
        invariant profile == p && ReadsBack(p, t, address, |output|)
        invariant spi.core.s.trace == old(spi.core.s.trace) + t
      {
        var chunk := Min(maximumData, length - |output|);
        var data;
        data, t := ReadNext(address, |output|, chunk, old(spi.core.s.trace), t);
        if data.Err? {
          return Err(data.error);
        }
        output := output + data.value;
      }
      return Ok(output);
    }

    /** The next chunk of a read of which `done` bytes have come, by the commands in `t`. */
    method ReadNext(address: nat, done: nat, chunk: nat, ghost begun: seq<Event>, ghost t: seq<Event>)
      returns (r: Result<seq<byte>>, ghost u: seq<Event>)
      requires Valid() && Flash().phase.Ready? && 0 < chunk && 1 + profile.addressBytes + chunk <= FIFO_DEPTH
      requires address + done + chunk <= |Flash().cells.mem| && address + done < Pow256(profile.addressBytes)
      requires ReadsBack(profile, t, address, done) && spi.core.s.trace == begun + t
      modifies spi.core
      ensures Valid() && Flash() == old(Flash()) && Extends(old(spi.core.past), spi.core.past)
      ensures r.Ok? ==> r.value == Flash().cells.mem[address + done..address + done + chunk]
      ensures r.Ok? ==> ReadsBack(profile, u, address, done + chunk) && spi.core.s.trace == begun + u
      ensures r.Err? ==> spi.Shows(old(spi.core.past), r.error)
    {
      hide Extends, EndsAt, IsRead, ReadsBack, CommandTrace, Conforming, Pow256;
      u := t;
      r := ReadChunk(address + done, chunk);
      if r.Ok? {
        ghost var cmd :| IsRead(profile, cmd, address + done, chunk)
          && spi.core.s.trace == old(spi.core.s.trace) + CommandTrace(cmd);
        MoreReadBack(profile, t, address, done, cmd, chunk);
        u := t + CommandTrace(cmd);
      }
    }

    /** One read command; the bytes clocked in during the header are dropped. */
    method ReadChunk(address: nat, chunk: nat) returns (r: Result<seq<byte>>)
      requires Valid() && Flash().phase.Ready? && 1 + profile.addressBytes + chunk <= FIFO_DEPTH
      modifies spi.core
      ensures Valid() && Flash() == old(Flash())
      ensures Extends(old(spi.core.past), spi.core.past)
      ensures r.Ok? ==> |r.value| == chunk && address < Pow256(profile.addressBytes)
      ensures r.Ok? ==>
        exists cmd :: IsRead(profile, cmd, address, chunk)
          && spi.core.s.trace == old(spi.core.s.trace) + CommandTrace(cmd)
      ensures r.Ok? && address + chunk <= |Flash().cells.mem| ==> r.value == Flash().cells.mem[address..address + chunk]
      ensures r == Err(OutOfRange) ==> address >= Pow256(profile.addressBytes)
      ensures r.Err? ==> r.error == OutOfRange || spi.Shows(old(spi.core.past), r.error)
    {
      hide Extends, EndsAt, Ran, Cut, Pow256, BigEndian, Elapsed;
      ExtensionsChain();
      ghost var f := Flash();
      var encoded :- EncodeAddress(address);
      var header := [profile.readCommand] + encoded;
      assert header[1..] == encoded;
      var command := header + seq(chunk, _ => 0);
      CommonInert(profile, command);
      var response := spi.Transfer(command);
      if response.Err? {
        InertCut(f, command, Flash());
        return Err(response.error);
      }
      RanLength(f, command, response.value, Flash());
      InertRan(f, command, response.value, Flash());
      if address + chunk <= |f.cells.mem| {
        ReadData(f, address, header, command, response.value);
      }
      assert IsRead(profile, command, address, chunk) by {
        assert command[1..|header|] == encoded;
      }
      return Ok(response.value[|header|..]);
    }

    /**
     Send a mutating command and wait until nothing is in progress; `f` is the device before it was
     write-enabled, and may have been busy.
     */
    method Mutate(command: seq<byte>, timeoutMs: nat, ghost m: Mutation, ghost f: Nor) returns (r: Result<()>)
      requires Valid() && !f.phase.Armed? && Waited(f, Flash()) && (f.phase.Ready? ==> Flash() == f.(wel := true))
      requires 5_000 <= timeoutMs && 0 < |command| <= FIFO_DEPTH
      requires Requested(profile, |Flash().cells.mem|, command) == Some(m)
      modifies spi.core
      ensures Valid() && Tried(f, m, Flash())
      ensures Extends(old(spi.core.past), spi.core.past)
      ensures r.Ok? ==> Flash().phase.Ready? && !Flash().wel && !Faulty(profile, Flash().sr)
      ensures r.Ok? ==> Logged(f, m, Flash()) || Dropped(f, Flash())
      ensures f.phase.Ready? ==> Interrupted(f, [m], Flash()) && (r.Ok? ==> Did(f, [m], Flash()))
      ensures r.Err? ==> Reason(f, old(spi.core.past), r.error)
      ensures r == Err(DidNotStart) && f.phase.Ready? ==> !m.WriteNvcr?
      ensures r == Err(ReadyTimeout) ==> Elapsed(old(spi.core.past), spi.core.past, timeoutMs * 1_000_000)
    {
      hide Extends, EndsAt, Interrupted, Did, Ran, Cut, Faulty, Tried, Waited, Logged, Dropped, Evolves, Requested,
           Guarded, Geometry, ErrorSeen, EmptySeen, Resetting, Parked;
      ExtensionsChain();
      ghost var e := Flash();
      WaitedArmed(f, e);
      var response := spi.Transfer(command);
      if response.Err? {
        AttemptCut(f, e, command, m, Flash());
        return Err(response.error);
      }
      ghost var g := Flash();
      EvolvesSelf(g);
      AttemptRan(f, e, command, m, response.value, g, g);
      r := WaitReady(timeoutMs);
      AttemptRan(f, e, command, m, response.value, g, Flash());
      if f.phase.Ready? {
        AttemptFails(f, e, command, m, response.value, g, Flash());
      }
    }

    /**
     Alignment is checked here, the range is not: the device takes the address modulo its size. On a
     device that is busy at the call a normal return may also mean that the erase was dropped.
     */
    method EraseSector(address: nat) returns (r: Result<()>)
      requires Valid() && !Flash().phase.Armed?
      modifies spi.core
      ensures Valid() && Tried(old(Flash()), Erase(address % |Flash().cells.mem|), Flash())
      ensures Extends(old(spi.core.past), spi.core.past)
      ensures r == Err(InvalidArgument) <==> address % profile.eraseSize != 0
      ensures r == Err(InvalidArgument) ==> Flash() == old(Flash())
      ensures r == Err(OutOfRange) ==> address >= Pow256(profile.addressBytes) && Waited(old(Flash()), Flash())
      ensures r == Err(OutOfRange) && old(Flash()).phase.Ready? ==> Flash() == old(Flash()).(wel := true)
      ensures r == Err(ReadyTimeout) ==> Elapsed(old(spi.core.past), spi.core.past, 180_000 * 1_000_000)
      ensures r.Ok? ==> address % profile.eraseSize == 0 && address < Pow256(profile.addressBytes)
      ensures r.Err? ==>
        r.error == InvalidArgument || r.error == OutOfRange || Reason(old(Flash()), old(spi.core.past), r.error)
      ensures r.Ok? ==>
        && Flash().phase.Ready? && !Flash().wel
        && (Logged(old(Flash()), Erase(address % |Flash().cells.mem|), Flash()) || Dropped(old(Flash()), Flash()))
      ensures old(Flash()).phase.Ready? ==>
        && Interrupted(old(Flash()), [Erase(address % |Flash().cells.mem|)], Flash())
        && (r.Ok? ==> Did(old(Flash()), [Erase(address % |Flash().cells.mem|)], Flash()))
    {
      hide Extends, EndsAt, Interrupted, Did, Tried, Waited, Logged, Dropped, Coherent, SpiNor.Reason;
      ExtensionsChain();
      ghost var f := Flash();
      ghost var m := Erase(address % |f.cells.mem|);
      Untried(f, m);
      if address % profile.eraseSize != 0 {
        return Err(InvalidArgument);
      }
      r := EraseAligned(address, m);
    }

    /** Write enable, and the erase command for an address that has been found good. */
    method EraseAligned(address: nat, ghost m: Mutation) returns (r: Result<()>)
      requires Valid() && !Flash().phase.Armed? && m == Erase(address % |Flash().cells.mem|)
      modifies spi.core
      ensures Valid() && Tried(old(Flash()), m, Flash())
      ensures Extends(old(spi.core.past), spi.core.past)
      ensures r == Err(OutOfRange) ==> address >= Pow256(profile.addressBytes) && Waited(old(Flash()), Flash())
      ensures r == Err(OutOfRange) && old(Flash()).phase.Ready? ==> Flash() == old(Flash()).(wel := true)
      ensures r == Err(ReadyTimeout) ==> Elapsed(old(spi.core.past), spi.core.past, 180_000 * 1_000_000)
      ensures r.Ok? ==> address < Pow256(profile.addressBytes)
      ensures r != Err(InvalidArgument)
      ensures r.Err? ==> r.error == OutOfRange || Reason(old(Flash()), old(spi.core.past), r.error)
      ensures r.Ok? ==>
        Flash().phase.Ready? && !Flash().wel && (Logged(old(Flash()), m, Flash()) || Dropped(old(Flash()), Flash()))
      ensures old(Flash()).phase.Ready? ==>
        Interrupted(old(Flash()), [m], Flash()) && (r.Ok? ==> Did(old(Flash()), [m], Flash()))
    {
      hide Extends, EndsAt, Interrupted, Did, Requested, BigEndian, OpcodesDistinct, Accessible, Pow256,
           Tried, Waited, Logged, Dropped, Evolves, Coherent, ErrorSeen, EmptySeen, Resetting, Parked;
      ExtensionsChain();
      ghost var f := Flash();
      var enabled := WriteEnable();
      Enabled(f, m, Flash());
      if enabled.Err? {
        return Err(enabled.error);
      }
      var encoded :- EncodeAddress(address);
      var command := [profile.eraseCommand] + encoded;
      EraseRequested(profile, |f.cells.mem|, address, encoded);
      r := Mutate(command, 180_000, m, f);
    }

    /** One page-program command, on a device that may be busy. */
    method ProgramChunk(address: nat, part: seq<byte>) returns (r: Result<()>)
      requires Valid() && !Flash().phase.Armed?
      requires 0 < |part| && 1 + profile.addressBytes + |part| <= FIFO_DEPTH
      requires address < |Flash().cells.mem|
      modifies spi.core
      ensures Valid() && Tried(old(Flash()), Mutation.Program(address, part), Flash())
      ensures Extends(old(spi.core.past), spi.core.past)
      ensures r.Ok? ==> address < Pow256(profile.addressBytes)
      ensures r == Err(OutOfRange) ==> address >= Pow256(profile.addressBytes)
      ensures r.Err? ==> r.error == OutOfRange || Reason(old(Flash()), old(spi.core.past), r.error)
      ensures r.Ok? ==>
        && Flash().phase.Ready? && !Flash().wel
        && (Logged(old(Flash()), Mutation.Program(address, part), Flash()) || Dropped(old(Flash()), Flash()))
      ensures old(Flash()).phase.Ready? ==>
        && Interrupted(old(Flash()), [Mutation.Program(address, part)], Flash())
        && (r.Ok? ==> Did(old(Flash()), [Mutation.Program(address, part)], Flash()))
    {
      hide Extends, EndsAt, Interrupted, Did, Requested, BigEndian, OpcodesDistinct, Accessible, Pow256,
           Tried, Waited, Logged, Dropped, Evolves, Coherent;
      ExtensionsChain();
      ghost var f := Flash();
      ghost var m := Mutation.Program(address, part);
      var enabled := WriteEnable();
      Enabled(f, m, Flash());
      if enabled.Err? {
        return Err(enabled.error);
      }
      var encoded :- EncodeAddress(address);
      var command := [profile.programCommand] + encoded + part;
      ProgramRequested(profile, |f.cells.mem|, address, encoded, part);
      r := Mutate(command, 5_000, m, f);
    }

    /** Program as much from `offset` on as one command can carry without leaving the page. */
    method ProgramNext(address: nat, data: seq<byte>, offset: nat, ghost f: Nor) returns (r: Result<nat>)
      requires Valid() && Flash().phase.Ready? && InRange(address, |data|) && offset < |data|
      requires f.profile == profile && f.phase.Ready?
      requires Underway(f, Chunks(profile, address, data), ChunksFrom(profile, address, data, offset), Flash())
      modifies spi.core
      ensures Valid() && Interrupted(f, Chunks(profile, address, data), Flash())
      ensures Extends(old(spi.core.past), spi.core.past)
      ensures r.Err? ==> Reason(f, old(spi.core.past), r.error)
      ensures r.Ok? ==> offset < r.value <= |data| && Flash().phase.Ready?
      ensures r.Ok? ==>
        Underway(f, Chunks(profile, address, data), ChunksFrom(profile, address, data, r.value), Flash())
    {
      hide Extends, EndsAt;
      ExtensionsChain();
      hide Interrupted, Underway, Chunks;
      ghost var g := Flash();
      var maximumData := FIFO_DEPTH - 1 - profile.addressBytes;
      var current := address + offset;
      var pageRemaining := profile.pageSize - current % profile.pageSize;
      var chunk := Min(maximumData, Min(pageRemaining, |data| - offset));
      var part := data[offset..offset + chunk];
      NextChunks(profile, address, data, offset, chunk);
      var sent := ProgramChunk(current, part);
      NextSteps(f, Chunks(profile, address, data), [Mutation.Program(current, part)],
                ChunksFrom(profile, address, data, offset + chunk), g, Flash());
      if sent.Err? {
        if Causes(g, sent.error, Flash()) {
          CausesEarlier(f, Chunks(profile, address, data), ChunksFrom(profile, address, data, offset), g, sent.error,
                        Flash());
        }
        return Err(sent.error);
      }
      return Ok(offset + chunk);
    }

    method Program(address: nat, data: seq<byte>) returns (r: Result<()>)
      requires Valid() && Flash().phase.Ready?
      modifies spi.core
      ensures Valid() && Interrupted(old(Flash()), Chunks(profile, address, data), Flash())
      ensures Extends(old(spi.core.past), spi.core.past)
      ensures r == Err(OutOfRange) <==> !InRange(address, |data|)
      ensures r == Err(OutOfRange) ==> Flash() == old(Flash())
      ensures r.Err? ==> r.error == OutOfRange || Reason(old(Flash()), old(spi.core.past), r.error)
      ensures r.Ok? ==> Did(old(Flash()), Chunks(profile, address, data), Flash())
    {
      hide Extends, EndsAt;
      ExtensionsChain();
      hide Interrupted, Underway, Did, Chunks;
      ghost var f, p := Flash(), profile;
      Starting(f, Chunks(p, address, data));
      ChunksEnds(p, address, data);
      var _ :- CheckRange(address, |data|);
      var offset := 0;
      while offset < |data|
        invariant Valid() && profile == p && 0 <= offset <= |data| && Flash().phase.Ready?
        invariant Extends(old(spi.core.past), spi.core.past)
        invariant Underway(f, Chunks(p, address, data), ChunksFrom(p, address, data, offset), Flash())
      {
        offset :- ProgramNext(address, data, offset, f);
      }
      Finished(f, Chunks(p, address, data), Flash());
      return Ok(());
    }

    method ReadMicronNvcr() returns (r: Result<bv16>)
      requires Valid() && Flash().phase.Ready?
      modifies spi.core
      ensures Valid() && Flash() == old(Flash())
      ensures Extends(old(spi.core.past), spi.core.past)
      ensures r == Err(NotMicron) <==> !profile.nvcr
      ensures r.Ok? ==> r.value == Flash().cells.nvcr
      ensures r.Ok? ==> spi.core.s.trace == old(spi.core.s.trace) + CommandTrace([0xb5, 0, 0])
      ensures r.Err? ==> r.error == NotMicron || spi.Shows(old(spi.core.past), r.error)
    {
      hide Extends, EndsAt;
      ExtensionsChain();
      if !profile.nvcr {
        return Err(NotMicron);
      }
      ghost var f := Flash();
      var command := [READ_NVCR, 0, 0];
      CommonInert(profile, command);
      var response := spi.Transfer(command);
      if response.Err? {
        InertCut(f, command, Flash());
        return Err(response.error);
      }
      InertRan(f, command, response.value, Flash());
      NvcrDrives(f, command, response.value);
      return Ok(response.value[1] as bv16 | (response.value[2] as bv16 << 8));
    }

    /** Make the boot mode safe, keeping every other configuration bit. */
    method RepairMicronBootMode() returns (r: Result<(bv16, bv16)>)
      requires Valid() && Flash().phase.Ready? && Known(profile)
      modifies spi.core, `jedecId
      ensures Valid() && Interrupted(old(Flash()), RepairPlan(old(Flash()).cells.nvcr), Flash())
      ensures Extends(old(spi.core.past), spi.core.past)
      ensures r == Err(NotMicron) <==> !profile.nvcr
      ensures r == Err(NotMicron) ==> Flash() == old(Flash())
      ensures r.Ok? ==>
        && r.value == (old(Flash()).cells.nvcr, Flash().cells.nvcr)
        && BootSafe(Flash().cells.nvcr) && SameTuning(Flash().cells.nvcr, old(Flash()).cells.nvcr)
        && Did(old(Flash()).(wel := false), RepairPlan(r.value.0), Flash())
      ensures r.Err? ==> r.error == NotMicron || Reason(old(Flash()), old(spi.core.past), r.error)
      ensures r != Err(WriteEnableRejected) && r != Err(DidNotStart)
    {
      hide Extends, EndsAt, Geometry, Requested, Conforming, Did;
      ExtensionsChain();
      hide Interrupted, Coherent, BootSafe, SameTuning, SpiNor.Reason, AxiQuadSpi.Shows;
      ghost var f, past := Flash(), spi.core.past;
      ghost var plan := RepairPlan(f.cells.nvcr);
      NotStarted(f, plan, f);
      var read := ReadMicronNvcr();
      if read.Err? {
        if profile.nvcr {
          ReasonEarlier(f, past, past, read.error);
        }
        return Err(read.error);
      }
      var before := read.value;
      var after := before | SAFE_MASK;
      ghost var later := spi.core.past;
      var changed := ChangeNvcr(before, after);
      if changed.Err? {
        ReasonEarlier(f, past, later, changed.error);
        return Err(changed.error);
      }
      ghost var g := Flash();
      DidReady(f, plan, g);
      later := spi.core.past;
      var reloaded := ResetAndReload();
      InterruptedLatch(f, plan, g, Flash());
      if reloaded.Err? {
        ReasonEarlier(f, past, later, reloaded.error);
        return Err(reloaded.error);
      }
      Repaired(f, g, Flash());
      return Ok((before, after));
    }

    /** Write the configuration register, if it is to change at all. */
    method ChangeNvcr(before: bv16, after: bv16) returns (r: Result<()>)
      requires Valid() && Flash().phase.Ready? && profile.nvcr && after == before | SAFE_MASK
      modifies spi.core
      ensures Valid() && Interrupted(old(Flash()), RepairPlan(before), Flash())
      ensures Extends(old(spi.core.past), spi.core.past)
      ensures r.Ok? ==> Did(old(Flash()), RepairPlan(before), Flash())
      ensures r.Err? ==> Reason(old(Flash()), old(spi.core.past), r.error)
      ensures r != Err(WriteEnableRejected) && r != Err(DidNotStart)
    {
      hide Extends, EndsAt;
      ExtensionsChain();
      if after != before {
        r := WriteNvcr(after);
      } else {
        DidNothing(Flash());
        NotStarted(Flash(), [], Flash());
        r := Ok(());
      }
    }

    /** Write the configuration register and check what it then holds. */
    method WriteNvcr(value: bv16) returns (r: Result<()>)
      requires Valid() && Flash().phase.Ready? && profile.nvcr
      modifies spi.core
      ensures Valid() && Interrupted(old(Flash()), [Mutation.WriteNvcr(value)], Flash())
      ensures Extends(old(spi.core.past), spi.core.past)
      ensures r.Ok? ==> Did(old(Flash()), [Mutation.WriteNvcr(value)], Flash())
      ensures r.Err? ==> Reason(old(Flash()), old(spi.core.past), r.error)
      ensures r != Err(WriteEnableRejected) && r != Err(DidNotStart)
    {
      hide Extends, EndsAt, Interrupted, Did, Elapsed, CommandTrace, Geometry, Causes;
      ExtensionsChain();
      ghost var f := Flash();
      var _ :- SendNvcr(value);
      DidReady(f, [Mutation.WriteNvcr(value)], Flash());
      DidOne(f, Mutation.WriteNvcr(value), Flash());
      var check :- ReadMicronNvcr();
      if check != value {
        return Err(NvcrMismatch);
      }
      return Ok(());
    }

    method SendNvcr(value: bv16) returns (r: Result<()>)
      requires Valid() && Flash().phase.Ready? && profile.nvcr
      modifies spi.core
      ensures Valid() && Interrupted(old(Flash()), [Mutation.WriteNvcr(value)], Flash())
      ensures Extends(old(spi.core.past), spi.core.past)
      ensures r.Ok? ==> Did(old(Flash()), [Mutation.WriteNvcr(value)], Flash())
      ensures r.Err? ==> Reason(old(Flash()), old(spi.core.past), r.error)
      ensures r == Err(ReadyTimeout) ==> Elapsed(old(spi.core.past), spi.core.past, 10_000 * 1_000_000)
      ensures r != Err(WriteEnableRejected) && r != Err(DidNotStart)
    {
      hide Extends, EndsAt, Interrupted, Did;
      ExtensionsChain();
      ghost var f := Flash();
      var enabled := WriteEnable();
      Enabled(f, Mutation.WriteNvcr(value), Flash());
      if enabled.Err? {
        return Err(enabled.error);
      }
      NvcrRequested(profile, |f.cells.mem|, value);
      r := Mutate([WRITE_NVCR, (value & 0xff) as byte, (value >> 8) as byte], 10_000, Mutation.WriteNvcr(value), f);
    }

    /**
     Software reset, after which the device must still answer with the same identification. An error
     may leave the device armed.
     */
    method ResetAndReload() returns (r: Result<()>)
      requires Valid() && Flash().phase.Ready? && Known(profile)
      modifies spi.core, `jedecId
      ensures Valid() && Idle(Flash()) && Flash() == old(Flash()).(phase := Flash().phase, wel := Flash().wel)
      ensures Extends(old(spi.core.past), spi.core.past)
      ensures r.Ok? ==> Flash().phase.Ready? && !Flash().wel && MatchProfile(jedecId) == Some(profile)
      ensures r.Ok? ==>
        spi.core.s.trace == old(spi.core.s.trace) + CommandTrace([0x66]) + CommandTrace([0x99]) + Identification()
      ensures r.Err? ==> spi.Shows(old(spi.core.past), r.error)
    {
      hide Extends, EndsAt, Conforming, Ran, Cut, Elapsed, Identification, CommandTrace,
           ErrorSeen, EmptySeen, Resetting, Parked;
      ExtensionsChain();
      hide Geometry, Requested, Interrupted;
      ghost var f := Flash();
      var response := spi.Transfer([RESET_ENABLE]);
      if response.Err? {
        ArmCut(f, Flash());
        return Err(response.error);
      }
      ArmRan(f, response.value, Flash());
      f := Flash();
      response := spi.Transfer([RESET_MEMORY]);
      if response.Err? {
        ResetCut(f, Flash());
        return Err(response.error);
      }
      ResetRan(f, response.value, Flash());
      jedecId :- Identify(spi);
      KnownDeviceMatches(Flash(), jedecId);
      if MatchProfile(jedecId) != Some(profile) {
        return Err(ReloadFailed);
      }
      return Ok(());
    }
  }

  /** What is left to program after `offset` bytes. */
  function ChunksFrom(p: Chip, address: nat, data: seq<byte>, offset: nat): seq<Mutation>
    requires offset <= |data|
  {
    Chunks(p, address + offset, data[offset..])
  }

  lemma ChunksEnds(p: Chip, address: nat, data: seq<byte>)
    ensures ChunksFrom(p, address, data, 0) == Chunks(p, address, data)
    ensures ChunksFrom(p, address, data, |data|) == []
  {
    assert data[0..] == data;
  }

  lemma NextChunks(p: Chip, address: nat, data: seq<byte>, offset: nat, chunk: nat)
    requires offset < |data|
    requires chunk == ChunkSize(p, address + offset, |data| - offset)
    ensures ChunksFrom(p, address, data, offset)
         == [Mutation.Program(address + offset, data[offset..offset + chunk])]
            + ChunksFrom(p, address, data, offset + chunk)
  {
    assert data[offset..][chunk..] == data[offset + chunk..];
    assert data[offset..][..chunk] == data[offset..offset + chunk];
  }
}
