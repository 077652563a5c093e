/**
 A conforming SPI-NOR device, seen from its chip-select, clock and data pins.

 The device is the environment of the drivers, so it is a value: what it holds, what it drives
 on its output pin, and which states it may reach when a command ends or while time passes.
 `log` records every array or configuration change the device accepted and `refused` counts the
 ones it dropped for want of WEL or because it was busy; both only serve to state properties.
 */
module NorFlash {
  import opened Results
  import opened Bytes

  const FIFO_DEPTH: nat := 256

  const READ_ID: byte := 0x9f
  const READ_STATUS: byte := 0x05
  const WRITE_ENABLE: byte := 0x06
  const RESET_ENABLE: byte := 0x66
  const RESET_MEMORY: byte := 0x99
  const RELEASE_POWER_DOWN: byte := 0xab
  const MODE_BIT_RESET: byte := 0xff
  const SPANSION_RESET: byte := 0xf0
  const RESET_QUAD_PROTOCOL: byte := 0xf5
  const READ_NVCR: byte := 0xb5
  const WRITE_NVCR: byte := 0xb1
  const WIP: byte := 0x01
  const WEL: byte := 0x02

  /** `nvcr` tells the Micron part, the only one with a nonvolatile configuration register. */
  datatype Profile = Profile(
    nvcr: bool,
    jedecPrefix: seq<byte>,
    physicalCapacity: nat,
    eraseSize: nat,
    pageSize: nat,
    protectMask: byte,
    errorMask: byte,
    addressBytes: nat,
    readCommand: byte,
    programCommand: byte,
    eraseCommand: byte)

  const SPANSION: Profile := Profile(
    false, [0x01, 0x02, 0x19, 0x4d, 0x01, 0x80], 32 * 1024 * 1024, 64 * 1024, 256, 0x1c, 0x60, 3, 0x03, 0x02, 0xd8)

  const MICRON: Profile := Profile(
    true, [0x20, 0xba, 0x20], 64 * 1024 * 1024, 64 * 1024, 256, 0x5c, 0x00, 4, 0x13, 0x12, 0xdc)

  /** The part of the array that an address of the profile's width can reach. */
  function Accessible(p: Profile): nat {
    if p.physicalCapacity <= Pow256(p.addressBytes) then p.physicalCapacity else Pow256(p.addressBytes)
  }

  /** Data bytes that fit in one FIFO-sized command after the opcode and the address. */
  function MaximumData(p: Profile): int {
    FIFO_DEPTH - 1 - p.addressBytes
  }

  predicate OpcodesDistinct(p: Profile) {
    && p.readCommand != p.programCommand && p.readCommand != p.eraseCommand && p.programCommand != p.eraseCommand
    && !Common(p.readCommand) && !Common(p.programCommand) && !Common(p.eraseCommand)
  }

  predicate Common(opcode: byte) {
    || opcode == READ_ID || opcode == READ_STATUS || opcode == WRITE_ENABLE || opcode == RESET_ENABLE
    || opcode == RESET_MEMORY || opcode == READ_NVCR || opcode == WRITE_NVCR || Recovery(opcode)
  }

  /** The opcodes that bring a device back from power-down or a quad protocol. */
  predicate Recovery(opcode: byte) {
    || opcode == RELEASE_POWER_DOWN || opcode == MODE_BIT_RESET
    || opcode == SPANSION_RESET || opcode == RESET_QUAD_PROTOCOL
  }

  /** What the drivers rely on in a flash profile. */
  predicate Geometry(p: Profile) {
    && 0 < p.pageSize && 0 < p.eraseSize && 0 < p.addressBytes
    && 0 < Accessible(p)
    && 0 < MaximumData(p) < p.pageSize
    && p.errorMask & 3 == 0
    && OpcodesDistinct(p)
  }

  /** A profile the drivers can work with. */
  type Chip = p: Profile | Geometry(p) witness SPANSION

  /** Pages tile a sector and sectors tile the accessible array. */
  predicate Tiled(p: Profile)
    requires Geometry(p)
  {
    p.eraseSize % p.pageSize == 0 && Accessible(p) % p.eraseSize == 0
  }

  lemma ProfilesMeetGeometry()
    ensures Geometry(SPANSION) && Geometry(MICRON)
    ensures Tiled(SPANSION) && Tiled(MICRON)
    ensures Accessible(SPANSION) == 16 * 1024 * 1024 && Accessible(MICRON) == 64 * 1024 * 1024
    ensures forall p :: p in {SPANSION, MICRON} ==>
      p.pageSize == 256 && p.eraseSize == 0x1_0000 && p.pageSize <= 2 * MaximumData(p)
    ensures SPANSION.addressBytes == 3 && MICRON.addressBytes == 4
    ensures [SPANSION.readCommand, SPANSION.programCommand, SPANSION.eraseCommand] == [0x03, 0x02, 0xd8]
    ensures [MICRON.readCommand, MICRON.programCommand, MICRON.eraseCommand] == [0x13, 0x12, 0xdc]
  {
    assert Pow256(2) == 65536;
    assert Pow256(3) == 16777216;
    assert Pow256(4) == 4294967296;
  }

  // ---------------------------------------------------------------------------------------------
  // Contents and mutations

  /** The nonvolatile contents: the array, and the configuration register of Micron parts. */
  datatype Cells = Cells(mem: seq<byte>, nvcr: bv16)

  /** `Abort` is what a reset leaves behind when it ends an operation half way. */
  datatype Mutation =
    | Erase(address: nat)
    | Program(address: nat, data: seq<byte>)
    | WriteNvcr(value: bv16)
    | Abort(contents: Cells)

  /** `mem` with `data` laid over it from `at`. */
  function Paste(mem: seq<byte>, at: nat, data: seq<byte>): (r: seq<byte>)
    requires at + |data| <= |mem|
    ensures |r| == |mem|
    ensures forall i :: 0 <= i < |mem| ==> r[i] == if at <= i < at + |data| then data[i - at] else mem[i]
  {
    mem[..at] + data + mem[at + |data|..]
  }

  /** Programming only clears bits, and runs straight on from `at`. */
  function LinearProgram(mem: seq<byte>, at: nat, data: seq<byte>): (r: seq<byte>)
    requires at + |data| <= |mem|
    ensures |r| == |mem|
    ensures forall i :: 0 <= i < |mem| ==> r[i] == if at <= i < at + |data| then mem[i] & data[i - at] else mem[i]
  {
    seq(|mem|, i requires 0 <= i < |mem| => if at <= i < at + |data| then mem[i] & data[i - at] else mem[i])
  }

  /**
   What the device really does: the write address wraps inside the page that holds `at`, and of
   more data than a page only the last page's worth is kept.
   */
  function PageProgram(mem: seq<byte>, at: nat, data: seq<byte>, pageSize: nat): (r: seq<byte>)
    requires 0 < pageSize
    ensures |r| == |mem|
    decreases |data|
  {
    if |data| > pageSize then
      var dropped := |data| - pageSize;
      PageProgram(mem, Base(at, pageSize) + (at % pageSize + dropped) % pageSize, data[dropped..], pageSize)
    else
      var page := Base(at, pageSize);
      seq(|mem|, i requires 0 <= i < |mem| =>
        var k := if i >= at then i - at else i - at + pageSize;
        if page <= i < page + pageSize && k < |data| then mem[i] & data[k] else mem[i])
  }

  /** Every byte of the array that a mutation may touch lies in `First(m) .. End(m)`. */
  function First(p: Chip, m: Mutation): nat
  {
    match m
    case Erase(a) => Base(a, p.eraseSize)
    case Program(a, _) => Base(a, p.pageSize)
    case WriteNvcr(_) => 0
    case Abort(_) => 0
  }

  function End(p: Chip, m: Mutation): nat
  {
    match m
    case Erase(a) => First(p, m) + p.eraseSize
    case Program(a, _) => First(p, m) + p.pageSize
    case WriteNvcr(_) => 0
    case Abort(d) => |d.mem|
  }

  function Apply(p: Chip, c: Cells, m: Mutation): (r: Cells)
    ensures |r.mem| == |c.mem|
    ensures SameOutside(p, m, c, r)
  {
    match m
    case Erase(a) => c.(mem := seq(|c.mem|, i requires 0 <= i < |c.mem| =>
                                   if First(p, m) <= i < End(p, m) then 0xff else c.mem[i]))
    case Program(a, data) =>
      PageProgramStaysInPage(c.mem, a, data, p.pageSize);
      c.(mem := PageProgram(c.mem, a, data, p.pageSize))
    case WriteNvcr(v) => c.(nvcr := v)
    case Abort(d) => if |d.mem| == |c.mem| then d else c
  }

  predicate SameOutside(p: Chip, m: Mutation, c: Cells, d: Cells)
  {
    && |c.mem| == |d.mem|
    && (!m.WriteNvcr? && !m.Abort? ==> c.nvcr == d.nvcr)
    && forall i :: 0 <= i < |c.mem| && !(First(p, m) <= i < End(p, m)) ==> c.mem[i] == d.mem[i]
  }

  lemma {:induction false} PageProgramStaysInPage(mem: seq<byte>, at: nat, data: seq<byte>, pageSize: nat)
    requires 0 < pageSize
    ensures forall i :: 0 <= i < |mem| && !(Base(at, pageSize) <= i < Base(at, pageSize) + pageSize) ==>
      PageProgram(mem, at, data, pageSize)[i] == mem[i]
    decreases |data|
  {
    if |data| > pageSize {
      var dropped := |data| - pageSize;
      var k := (at % pageSize + dropped) % pageSize;
      BlockOffset(at, pageSize, k);
      PageProgramStaysInPage(mem, Base(at, pageSize) + k, data[dropped..], pageSize);
    }
  }

  /** A program that stays in one page is the linear one. */
  lemma PageProgramIsLinear(mem: seq<byte>, at: nat, data: seq<byte>, pageSize: nat)
    requires 0 < pageSize
    requires at + |data| <= Base(at, pageSize) + pageSize
    requires at + |data| <= |mem|
    ensures PageProgram(mem, at, data, pageSize) == LinearProgram(mem, at, data)
  {
    var l, r := PageProgram(mem, at, data, pageSize), LinearProgram(mem, at, data);
    forall i | 0 <= i < |mem|
      ensures l[i] == r[i]
    {
      var k := if i >= at then i - at else i - at + pageSize;
      var page := Base(at, pageSize);
      assert l[i] == if page <= i < page + pageSize && k < |data| then mem[i] & data[k] else mem[i];
    }
  }

  /** The contents after a sequence of mutations. */
  function Replay(p: Chip, c: Cells, ms: seq<Mutation>): (r: Cells)
    ensures |r.mem| == |c.mem|
  {
    if ms == [] then c else Apply(p, Replay(p, c, ms[..|ms| - 1]), ms[|ms| - 1])
  }

  lemma ReplayOne(p: Chip, c: Cells, ms: seq<Mutation>, m: Mutation)
    ensures Replay(p, c, ms + [m]) == Apply(p, Replay(p, c, ms), m)
  {
    assert (ms + [m])[..|ms|] == ms;
  }

  lemma {:induction false} ReplayConcat(p: Chip, c: Cells, a: seq<Mutation>, b: seq<Mutation>)
    ensures Replay(p, c, a + b) == Replay(p, Replay(p, c, a), b)
  {
    if b == [] {
      assert a + b == a;
    } else {
      var n := |b| - 1;
      ReplayConcat(p, c, a, b[..n]);
      assert (a + b)[..|a + b| - 1] == a + b[..n];
    }
  }

  // ---------------------------------------------------------------------------------------------
  // The device

  /**
   While busy the touched area reads as anything; `after` is what it becomes. An armed device has just
   received reset-enable, whatever it is doing, and the next command decides whether it resets.
   */
  datatype Phase = Ready | Busy(after: Cells) | Failed | Armed(meanwhile: Phase)

  function Bare(phase: Phase): Phase {
    if phase.Armed? then phase.meanwhile else phase
  }

  datatype Nor = Nor(
    profile: Chip,
    id: seq<byte>,
    origin: Cells,
    cells: Cells,
    phase: Phase,
    wel: bool,
    sr: byte,
    log: seq<Mutation>,
    refused: nat)

  /** No operation is in progress or has failed. */
  predicate Idle(f: Nor) {
    Bare(f.phase).Ready?
  }

  /** The status register: WIP and WEL below the protection and error bits. */
  function Status(f: Nor): byte {
    f.sr | (if Idle(f) then 0 else WIP) | (if f.wel then WEL else 0)
  }

  predicate Faulty(p: Chip, status: byte) {
    status & p.errorMask != 0
  }

  predicate Guarded(p: Chip, status: byte) {
    status & p.protectMask != 0
  }

  predicate InProgress(status: byte) {
    status & WIP != 0
  }

  predicate Latched(status: byte) {
    status & WEL != 0
  }

  /**
   The status bits of the two parts: erase and program errors in bits 5 and 6 of the one and none in the
   other, block protection in bits 2 to 4, of the Micron part in bit 6 as well.
   */
  lemma StatusFields(status: byte)
    ensures Faulty(SPANSION, status) <==> status & 0x20 != 0 || status & 0x40 != 0
    ensures !Faulty(MICRON, status)
    ensures Guarded(SPANSION, status) <==> status & 0x04 != 0 || status & 0x08 != 0 || status & 0x10 != 0
    ensures Guarded(MICRON, status) <==> Guarded(SPANSION, status) || status & 0x40 != 0
    ensures InProgress(status) <==> status & 0x01 != 0
    ensures Latched(status) <==> status & 0x02 != 0
  {
  }

  lemma StatusMeans(f: Nor)
    requires Conforming(f)
    ensures Faulty(f.profile, Status(f)) <==> Faulty(f.profile, f.sr)
    ensures InProgress(Status(f)) <==> !Idle(f)
    ensures Latched(Status(f)) <==> f.wel
  {
    StatusBits(f, f.profile.errorMask);
  }

  lemma StatusBits(f: Nor, mask: byte)
    requires f.sr & 3 == 0 && mask & 3 == 0
    ensures Status(f) & mask == f.sr & mask
    ensures Status(f) & WIP == 0 <==> Idle(f)
    ensures Status(f) & WEL == 0 <==> !f.wel
  {
  }

  /** The mutation that a command received up to chip-deselect asks for, if it is complete. */
  function Requested(p: Chip, size: nat, cmd: seq<byte>): Option<Mutation>
    requires 0 < size
  {
    var header := 1 + p.addressBytes;
    if |cmd| == header && cmd[0] == p.eraseCommand then
      Some(Erase(BigEndian(cmd[1..header]) % size))
    else if |cmd| > header && cmd[0] == p.programCommand then
      Some(Program(BigEndian(cmd[1..header]) % size, cmd[header..]))
    else if p.nvcr && |cmd| == 3 && cmd[0] == WRITE_NVCR then
      Some(WriteNvcr(cmd[1] as bv16 | (cmd[2] as bv16 << 8)))
    else
      None
  }

  predicate Conforming(f: Nor) {
    && |f.cells.mem| == |f.origin.mem| == f.profile.physicalCapacity
    && f.sr & 3 == 0
    && f.profile.jedecPrefix <= f.id
    && !Bare(f.phase).Armed?
    && (Bare(f.phase).Busy? ==> |Bare(f.phase).after.mem| == |f.cells.mem|)
    && (!Idle(f) ==> f.log != [])
  }

  /** A device that a command other than the reset has disarmed. */
  function Disarmed(f: Nor): Nor {
    f.(phase := Bare(f.phase))
  }

  /** Chip-select goes high after the bytes `cmd`: the device acts on them and becomes `g`. */
  predicate Executed(f: Nor, cmd: seq<byte>, g: Nor)
    requires Conforming(f)
  {
    if Resets(f, cmd) then Restarted(Disarmed(f), g) else Acted(Disarmed(f), cmd, g)
  }

  /** The reset that has to be armed, or the one of the part without a configuration register. */
  predicate Resets(f: Nor, cmd: seq<byte>) {
    (f.phase.Armed? && cmd == [RESET_MEMORY]) || (!f.profile.nvcr && cmd == [SPANSION_RESET])
  }

  /** A reset clears the latch, and leaves the area of an operation it interrupts in any state. */
  predicate Restarted(f: Nor, g: Nor)
    requires Conforming(f) && !f.phase.Armed?
  {
    if f.phase.Ready? then
      g == f.(wel := false)
    else
      && g == f.(phase := Ready, wel := false, sr := g.sr, cells := g.cells, log := f.log + [Abort(g.cells)])
      && g.sr & 3 == 0
      && SameOutside(f.profile, f.log[|f.log| - 1], f.cells, g.cells)
  }

  /** A command other than a reset. */
  predicate Acted(f: Nor, cmd: seq<byte>, g: Nor)
    requires Conforming(f)
  {
    match Requested(f.profile, |f.cells.mem|, cmd)
    case Some(m) =>
      if !f.phase.Ready? || !f.wel then
        g == f.(refused := f.refused + 1)
      else if !m.WriteNvcr? && Guarded(f.profile, f.sr) then
        g == f
      else
        && g == f.(cells := g.cells, phase := Busy(Apply(f.profile, f.cells, m)), log := f.log + [m])
        && SameOutside(f.profile, m, f.cells, g.cells)
    case None =>
      if f.phase.Ready? && cmd == [WRITE_ENABLE] then g == f.(wel := true)
      else if cmd == [RESET_ENABLE] then g == f.(phase := Armed(f.phase))
      else g == f
  }

  lemma ActedConforming(f: Nor, cmd: seq<byte>, g: Nor)
    requires Conforming(f) && !f.phase.Armed? && Acted(f, cmd, g)
    ensures Conforming(g)
  {
    hide Requested, Apply, Geometry, First, End, Guarded;
  }

  lemma DisarmedConforming(f: Nor)
    requires Conforming(f)
    ensures Conforming(Disarmed(f)) && !Disarmed(f).phase.Armed?
  {
  }

  lemma ExecutedConforming(f: Nor, cmd: seq<byte>, g: Nor)
    requires Conforming(f) && Executed(f, cmd, g)
    ensures Conforming(g)
  {
    hide Acted, Geometry, Resets;
    DisarmedConforming(f);
    if !Resets(f, cmd) {
      ActedConforming(Disarmed(f), cmd, g);
    }
  }

  function Completed(f: Nor): Nor
    requires f.phase.Busy?
  {
    f.(cells := f.phase.after, phase := Ready, wel := false)
  }

  /** A failed operation is reported in an error bit of the status register, if there is one. */
  predicate FailedAs(f: Nor, g: Nor) {
    && f.phase.Busy?
    && g == f.(phase := Failed, sr := g.sr)
    && g.sr & 3 == 0
    && Faulty(f.profile, g.sr)
  }

  /** Time passes: a busy device may finish or fail, armed or not, and any other stays as it is. */
  predicate Evolves(f: Nor, g: Nor) {
    || g == f
    || Progresses(f, g)
    || (f.phase.Armed? && g.phase.Armed? && Progresses(Disarmed(f), Disarmed(g)))
  }

  predicate Progresses(f: Nor, g: Nor) {
    f.phase.Busy? && (g == Completed(f) || FailedAs(f, g))
  }

  /** `b` may be the byte the device shifts out after it has received `prefix`. */
  predicate Drives(f: Nor, prefix: seq<byte>, b: byte)
    requires Conforming(f)
  {
    var header := 1 + f.profile.addressBytes;
    if |prefix| == 0 then true
    else if prefix[0] == READ_STATUS then b == Status(f)
    else if !f.phase.Ready? then true
    else if prefix[0] == READ_ID && |prefix| <= |f.id| then b == f.id[|prefix| - 1]
    else if prefix[0] == READ_NVCR && f.profile.nvcr && |prefix| <= 2 then
      b == (if |prefix| == 1 then f.cells.nvcr & 0xff else f.cells.nvcr >> 8) as byte
    else if prefix[0] == f.profile.readCommand && |prefix| >= header then
      b == f.cells.mem[(BigEndian(prefix[1..header]) + (|prefix| - header)) % |f.cells.mem|]
    else true
  }

  // ---------------------------------------------------------------------------------------------
  // What every reachable device state satisfies

  /** The array is what the log says, except inside the area still (or for ever) in flux. */
  ghost predicate Coherent(f: Nor) {
    Conforming(f) && forall c :: c == Replay(f.profile, f.origin, f.log) ==> Explains(f, c)
  }

  ghost predicate Explains(f: Nor, replayed: Cells)
    requires Conforming(f)
  {
    match Bare(f.phase)
    case Busy(after) => after == replayed && InFlux(f, replayed)
    case Failed => InFlux(f, replayed)
    case _ => f.cells == replayed
  }

  ghost predicate InFlux(f: Nor, replayed: Cells)
    requires Conforming(f)
  {
    f.log != [] && SameOutside(f.profile, f.log[|f.log| - 1], f.cells, replayed)
  }

  lemma ActedCoherent(f: Nor, cmd: seq<byte>, g: Nor)
    requires Coherent(f) && !f.phase.Armed? && Acted(f, cmd, g)
    ensures Coherent(g)
  {
    hide Requested, Apply, Replay;
    var c := Replay(f.profile, f.origin, f.log);
    assert Explains(f, c);
    match Requested(f.profile, |f.cells.mem|, cmd)
    case Some(m) =>
      ReplayOne(f.profile, f.origin, f.log, m);
      if g.log == f.log {
        assert Explains(g, c);
      } else {
        StartedInFlux(f, m, g);
      }
    case None =>
      assert Explains(g, c);
  }

  lemma IdleCoherent(f: Nor, g: Nor)
    requires Coherent(f) && Conforming(g) && Idle(f) && Idle(g) && g == f.(phase := g.phase, wel := g.wel)
    ensures Coherent(g)
  {
    assert Explains(f, Replay(f.profile, f.origin, f.log));
  }

  lemma DisarmedCoherent(f: Nor)
    requires Coherent(f)
    ensures Coherent(Disarmed(f)) && !Disarmed(f).phase.Armed?
  {
    DisarmedConforming(f);
    assert Explains(f, Replay(f.profile, f.origin, f.log));
  }

  lemma RestartedCoherent(f: Nor, g: Nor)
    requires Coherent(f) && !f.phase.Armed? && Restarted(f, g)
    ensures Coherent(g)
  {
    var c := Replay(f.profile, f.origin, f.log);
    assert Explains(f, c);
    if f.phase.Ready? {
      assert Explains(g, c);
    } else {
      ReplayOne(f.profile, f.origin, f.log, Abort(g.cells));
      assert Explains(g, g.cells);
    }
  }

  lemma ExecutedCoherent(f: Nor, cmd: seq<byte>, g: Nor)
    requires Coherent(f) && Executed(f, cmd, g)
    ensures Coherent(g)
  {
    hide Acted, Restarted, Coherent, Resets;
    DisarmedCoherent(f);
    if Resets(f, cmd) {
      RestartedCoherent(Disarmed(f), g);
    } else {
      ActedCoherent(Disarmed(f), cmd, g);
    }
  }

  /** A started operation leaves the array as it was outside the area it works on. */
  lemma StartedInFlux(f: Nor, m: Mutation, g: Nor)
    requires Conforming(f) && Conforming(g)
    requires g.profile == f.profile && g.log == f.log + [m] && SameOutside(f.profile, m, f.cells, g.cells)
    ensures InFlux(g, Apply(f.profile, f.cells, m))
  {
    hide Conforming;
    assert g.log[|g.log| - 1] == m;
  }

  lemma ProgressesCoherent(f: Nor, g: Nor)
    requires Coherent(f) && Progresses(f, g)
    ensures Coherent(g)
  {
    hide Geometry, SameOutside;
    assert Explains(f, Replay(f.profile, f.origin, f.log));
  }

  lemma ArmedCoherent(g: Nor)
    requires Coherent(Disarmed(g)) && g.phase.Armed? && !Bare(g.phase).Armed?
    ensures Coherent(g)
  {
    hide Geometry, SameOutside;
    assert Explains(Disarmed(g), Replay(g.profile, g.origin, g.log));
  }

  lemma EvolvesCoherent(f: Nor, g: Nor)
    requires Coherent(f) && Evolves(f, g)
    ensures Coherent(g)
  {
    DisarmedCoherent(f);
    assert Progresses(Disarmed(f), Disarmed(g)) ==> !Disarmed(g).phase.Armed?;
    hide Coherent, Progresses;
    if g != f && f.phase.Armed? {
      ProgressesCoherent(Disarmed(f), Disarmed(g));
      ArmedCoherent(g);
    } else if g != f {
      ProgressesCoherent(f, g);
    }
  }

  lemma EvolvesKeeps(f: Nor, g: Nor)
    requires Evolves(f, g)
    ensures g.profile == f.profile && (g.phase.Armed? <==> f.phase.Armed?)
    ensures Idle(f) || f.phase.Failed? ==> g == f
  {
  }

  lemma EvolvesSelf(f: Nor)
    ensures Evolves(f, f)
  {
  }

  lemma EvolvesTransitive(f: Nor, g: Nor, h: Nor)
    requires Evolves(f, g) && Evolves(g, h)
    ensures Evolves(f, h)
    ensures g == f || g == h
  {
  }
}
