/**
 What the drivers do to a device that may be busy: commands that ask for no mutation, the resets among
 them, and mutating commands that come while an earlier operation is still in progress.
 */
module BusyDevice {
  import opened Results
  import opened Bytes
  import opened NorFlash
  import opened Outcome
  import opened QuadSpiCore
  import opened QuadSpiDriver

  // ---------------------------------------------------------------------------------------------
  // Commands that ask for no mutation

  predicate Harmless(p: Chip, cmd: seq<byte>) {
    cmd != [] && cmd[0] != p.programCommand && cmd[0] != p.eraseCommand && cmd[0] != WRITE_NVCR
  }

  predicate ResetOpcode(opcode: byte) {
    opcode == RESET_MEMORY || opcode == SPANSION_RESET
  }

  lemma CommonHarmless(p: Chip, cmd: seq<byte>)
    requires cmd != [] && Common(cmd[0]) && cmd[0] != WRITE_NVCR
    ensures Harmless(p, cmd)
  {
  }

  lemma RestartedUnasked(f: Nor, g: Nor)
    requires Conforming(f) && !f.phase.Armed? && Restarted(f, g)
    ensures Unasked(f, g)
  {
    hide Coherent, SameOutside, Geometry;
    if Coherent(f) {
      RestartedCoherent(f, g);
    }
  }

  lemma ActedUnasked(f: Nor, cmd: seq<byte>, g: Nor)
    requires Conforming(f) && !f.phase.Armed? && Acted(f, cmd, g)
    requires Requested(f.profile, |f.cells.mem|, cmd).None?
    ensures Unasked(f, g) && g.log == f.log
  {
    hide Requested, Coherent, SameOutside, Geometry;
    if Coherent(f) {
      ActedCoherent(f, cmd, g);
    }
  }

  lemma DisarmedUnasked(f: Nor)
    requires Conforming(f)
    ensures Unasked(f, Disarmed(f)) && Conforming(Disarmed(f)) && !Disarmed(f).phase.Armed?
  {
    hide Coherent, SameOutside, Geometry;
    DisarmedConforming(f);
    if Coherent(f) {
      DisarmedCoherent(f);
    }
  }

  lemma HarmlessExecuted(f: Nor, cmd: seq<byte>, g: Nor)
    requires Conforming(f) && Requested(f.profile, |f.cells.mem|, cmd).None? && Executed(f, cmd, g)
    ensures Unasked(f, g) && (!Resets(f, cmd) ==> g.log == f.log)
  {
    hide Requested, Unasked, Acted, Restarted, Conforming, Resets;
    DisarmedUnasked(f);
    if Resets(f, cmd) {
      RestartedUnasked(Disarmed(f), g);
    } else {
      ActedUnasked(Disarmed(f), cmd, g);
    }
    UnaskedTwice(f, Disarmed(f), g);
  }

  /** No mutating command is a single byte. */
  lemma OneByte(p: Chip, size: nat, opcode: byte)
    requires 0 < size
    ensures Requested(p, size, [opcode]).None?
  {
  }

  lemma HarmlessRan(f: Nor, cmd: seq<byte>, response: seq<byte>, g: Nor)
    requires Conforming(f) && Harmless(f.profile, cmd) && Ran(f, cmd, response, g)
    ensures Unasked(f, g) && (!ResetOpcode(cmd[0]) ==> g.log == f.log)
  {
    hide Unasked, Executed, Answered;
    var h, x :|
      Evolves(f, h) && Conforming(h) && Answered(f, h, cmd, 0, response) && Executed(h, cmd, x) && Evolves(x, g);
    HarmlessStep(f, cmd, h, x, g);
  }

  lemma HarmlessCut(f: Nor, cmd: seq<byte>, g: Nor)
    requires Conforming(f) && Harmless(f.profile, cmd) && Cut(f, cmd, g)
    ensures Unasked(f, g) && (!ResetOpcode(cmd[0]) ==> g.log == f.log)
  {
    hide Unasked, Executed;
    if Evolves(f, g) {
      EvolvedUnasked(f, g);
    } else {
      var n: nat, h, x :| n <= |cmd| && CutAt(f, cmd, n, h, x) && Evolves(x, g);
      assert n > 0 ==> cmd[..n][0] == cmd[0];
      HarmlessStep(f, cmd[..n], h, x, g);
    }
  }

  lemma HarmlessStep(f: Nor, cmd: seq<byte>, h: Nor, x: Nor, g: Nor)
    requires Conforming(f) && Evolves(f, h) && Conforming(h) && Executed(h, cmd, x) && Evolves(x, g)
    requires cmd == [] || Harmless(f.profile, cmd)
    ensures Unasked(f, g) && (cmd == [] || !ResetOpcode(cmd[0]) ==> g.log == f.log)
  {
    hide Unasked, Executed;
    EvolvedUnasked(f, h);
    HarmlessExecuted(h, cmd, x);
    EvolvedUnasked(x, g);
    UnaskedTwice(f, h, x);
    UnaskedTwice(f, x, g);
  }

  lemma ArmedFrom(f: Nor, armed: Nor)
    requires Conforming(f) && Executed(f, [RESET_ENABLE], armed)
    ensures armed == f.(phase := Armed(Bare(f.phase)))
  {
    OneByte(f.profile, |f.cells.mem|, RESET_ENABLE);
    hide Geometry, Requested;
  }

  lemma ResetFrom(armed: Nor, g: Nor)
    requires Conforming(armed) && armed.phase.Armed? && Executed(armed, [RESET_MEMORY], g)
    ensures g.phase.Ready? && !g.wel
    ensures if Idle(armed) then g.log == armed.log && g.cells == armed.cells else g.log == armed.log + [Abort(g.cells)]
  {
    hide Geometry, SameOutside, Acted;
  }

  /** The armed reset leaves log and contents alone if and only if no operation is in progress when it comes. */
  lemma ResetNeedsIdle(f: Nor, armed: Nor, later: Nor, g: Nor)
    requires Conforming(f) && Executed(f, [RESET_ENABLE], armed)
    requires Evolves(armed, later) && Conforming(later) && Executed(later, [RESET_MEMORY], g)
    ensures g.phase.Ready? && !g.wel
    ensures g.log == later.log <==> Idle(later)
    ensures g.log == f.log <==> Idle(later)
    ensures Idle(f) ==> Idle(later) && g.cells == f.cells
  {
    hide Executed, Evolves, Conforming;
    ArmedFrom(f, armed);
    EvolvesKeeps(armed, later);
    EvolvedUnasked(armed, later);
    ResetFrom(later, g);
    assert |later.log + [Abort(g.cells)]| == |later.log| + 1;
  }

  /**
   A busy device may drive a bus that looks idle, whereupon the recovery resets it: its operation ends
   with a byte that is neither the old one nor the one that was on its way.
   */
  lemma BusyDeviceMayLose(f: Nor) returns (armed: Nor, g: Nor, at: nat)
    requires Conforming(f) && f.phase.Busy?
    requires !f.log[|f.log| - 1].WriteNvcr? && !f.log[|f.log| - 1].Abort?
    requires First(f.profile, f.log[|f.log| - 1]) < |f.cells.mem|
    ensures forall i :: 0 <= i <= 6 ==> Drives(f, [READ_ID, 0, 0, 0, 0, 0, 0][..i], 0xff)
    ensures Executed(f, [RESET_ENABLE], armed) && Conforming(armed) && Executed(armed, [RESET_MEMORY], g)
    ensures g.phase.Ready? && Aborted(f, g) && at < |g.cells.mem|
    ensures g.cells.mem[at] != f.cells.mem[at] && g.cells.mem[at] != f.phase.after.mem[at]
  {
    OneByte(f.profile, |f.cells.mem|, RESET_ENABLE);
    hide Geometry, Requested;
    at := First(f.profile, f.log[|f.log| - 1]);
    var before, after := f.cells.mem[at], f.phase.after.mem[at];
    var b := Third(before, after);
    var lost := f.cells.(mem := f.cells.mem[at := b]);
    armed := f.(phase := Armed(f.phase));
    g := f.(phase := Ready, wel := false, cells := lost, log := f.log + [Abort(lost)]);
    assert Acted(f, [RESET_ENABLE], armed);
    assert Restarted(Disarmed(armed), g);
  }

  function Third(a: byte, b: byte): (c: byte)
    ensures c != a && c != b
  {
    if a != 0 && b != 0 then 0 else if a != 1 && b != 1 then 1 else 2
  }

  // ---------------------------------------------------------------------------------------------
  // Why a mutating command needs an idle device

  lemma IdleCarriesOut(f: Nor, cmd: seq<byte>, m: Mutation, g: Nor, h: Nor)
    requires Conforming(f) && f.phase.Ready? && f.wel && Requested(f.profile, |f.cells.mem|, cmd) == Some(m)
    requires Acted(f, cmd, g) && Evolves(g, h) && !h.wel
    ensures h.log == f.log + [m] && h.refused == f.refused
  {
    hide Requested, Apply, Geometry, SameOutside;
  }

  lemma BusyDrops(f: Nor, cmd: seq<byte>, m: Mutation, g: Nor, h: Nor)
    requires Conforming(f) && !Idle(f) && Requested(f.profile, |f.cells.mem|, cmd) == Some(m)
    requires Acted(f, cmd, g) && Evolves(g, h)
    ensures h.log == f.log && h.refused == f.refused + 1
  {
    hide Requested, Apply, Geometry, SameOutside;
  }

  /**
   A command that is followed by a ready device with the latch clear, as after a successful wait, was
   carried out exactly if the device was idle when it came; otherwise it was dropped.
   */
  lemma MutationNeedsIdle(f: Nor, cmd: seq<byte>, m: Mutation, g: Nor, h: Nor)
    requires Conforming(f) && f.wel && Requested(f.profile, |f.cells.mem|, cmd) == Some(m)
    requires Executed(f, cmd, g) && Evolves(g, h) && h.phase.Ready? && !h.wel
    ensures h.log == f.log + [m] && h.refused == f.refused <==> Idle(f)
    ensures h.log == f.log && h.refused == f.refused + 1 <==> !Idle(f)
  {
    assert cmd != [RESET_MEMORY];
    hide Requested, Acted, Evolves, Conforming;
    assert |f.log + [m]| == |f.log| + 1;
    if Idle(f) {
      IdleCarriesOut(Disarmed(f), cmd, m, g, h);
    } else {
      BusyDrops(Disarmed(f), cmd, m, g, h);
    }
  }

  /** A device still busy with an earlier operation lets the driver's whole sequence pass and drops the command. */
  lemma BusyDeviceDrops(f: Nor, cmd: seq<byte>, m: Mutation) returns (g: Nor, h: Nor)
    requires Conforming(f) && f.phase.Busy? && f.wel && !Faulty(f.profile, f.sr)
    requires Requested(f.profile, |f.cells.mem|, cmd) == Some(m)
    ensures Executed(f, [WRITE_ENABLE], f) && Latched(Status(f))
    ensures Executed(f, cmd, g) && Evolves(g, h)
    ensures h.phase.Ready? && !h.wel && !Faulty(h.profile, h.sr)
    ensures h.log == f.log && h.refused == f.refused + 1
  {
    g := f.(refused := f.refused + 1);
    h := Completed(g);
    StatusMeans(f);
    assert Common([WRITE_ENABLE][0]);
  }

  lemma PrefixRequested(p: Chip, size: nat, cmd: seq<byte>, n: nat, m: Mutation)
    requires 0 < size && n <= |cmd|
    requires Requested(p, size, cmd) == Some(m)
    ensures Requested(p, size, cmd[..n]).Some? ==> Truncates(m, Requested(p, size, cmd[..n]).value)
    ensures Requested(p, size, cmd[..n]).None? ==>
      cmd[..n] != [WRITE_ENABLE] && cmd[..n] != [RESET_ENABLE]
      && cmd[..n] != [RESET_MEMORY] && cmd[..n] != [SPANSION_RESET]
  {
    var header := 1 + p.addressBytes;
    if n > 0 {
      assert cmd[..n][0] == cmd[0];
      if n >= header {
        assert cmd[..n][1..header] == cmd[1..header];
        assert cmd[..n][header..] == cmd[header..n];
      }
    }
  }

  // ---------------------------------------------------------------------------------------------
  // Write enable and one mutating command, on a device that may be busy

  lemma EnabledWaited(f: Nor, n: nat, x: Nor)
    requires Conforming(f) && !f.phase.Armed? && n <= 1 && Executed(f, [WRITE_ENABLE][..n], x)
    ensures Waited(f, x)
    ensures n == 1 && f.phase.Ready? ==> x == f.(wel := true)
  {
    OneByte(f.profile, |f.cells.mem|, WRITE_ENABLE);
    assert n == 0 || [WRITE_ENABLE][..n] == [WRITE_ENABLE];
    hide Geometry, Requested, Coherent;
    if Coherent(f) {
      LatchCoherent(f, x);
    }
  }

  lemma WriteEnableRan(f: Nor, response: seq<byte>, g: Nor)
    requires Conforming(f) && !f.phase.Armed? && Ran(f, [WRITE_ENABLE], response, g)
    ensures Waited(f, g)
    ensures f.phase.Ready? ==> g == f.(wel := true)
  {
    hide Executed, Answered, Waited;
    var cmd := [WRITE_ENABLE];
    var h, x :|
      Evolves(f, h) && Conforming(h) && Answered(f, h, cmd, 0, response) && Executed(h, cmd, x) && Evolves(x, g);
    assert cmd == [WRITE_ENABLE][..1];
    WriteEnableStep(f, 1, h, x, g);
  }

  lemma WriteEnableCut(f: Nor, g: Nor)
    requires Conforming(f) && !f.phase.Armed? && Cut(f, [WRITE_ENABLE], g)
    ensures Waited(f, g)
  {
    hide Executed, Waited;
    if Evolves(f, g) {
      EvolvedWaited(f, g);
    } else {
      var n: nat, h, x :| n <= 1 && CutAt(f, [WRITE_ENABLE], n, h, x) && Evolves(x, g);
      WriteEnableStep(f, n, h, x, g);
    }
  }

  lemma WriteEnableStep(f: Nor, n: nat, h: Nor, x: Nor, g: Nor)
    requires Conforming(f) && !f.phase.Armed? && n <= 1 && Evolves(f, h) && Conforming(h)
    requires Executed(h, [WRITE_ENABLE][..n], x) && Evolves(x, g)
    ensures Waited(f, g)
    ensures n == 1 && f.phase.Ready? ==> g == f.(wel := true)
  {
    hide Executed, Coherent;
    EvolvesKeeps(f, h);
    EvolvedWaited(f, h);
    EnabledWaited(h, n, x);
    EvolvesKeeps(x, g);
    EvolvedWaited(x, g);
    WaitedTwice(f, h, x);
    WaitedTwice(f, x, g);
  }

  /** What a mutating command does to a device, ready or busy, at the moment it ends. */
  lemma ExecutedTried(f: Nor, cmd: seq<byte>, m: Mutation, x: Nor)
    requires Conforming(f) && !f.phase.Armed? && Requested(f.profile, |f.cells.mem|, cmd) == Some(m)
    requires Executed(f, cmd, x)
    ensures x.profile == f.profile && x.id == f.id && x.origin == f.origin && !x.phase.Armed?
    ensures (x.log == f.log && x.refused == f.refused) || Logged(f, m, x)
         || (x.log == f.log && x.refused == f.refused + 1 && !(f.phase.Ready? && f.wel))
    ensures x.log == f.log && x.refused == f.refused ==> x == f && f.wel && f.phase.Ready?
    ensures Coherent(f) ==> Coherent(x)
  {
    assert |cmd| > 1;
    hide Requested, Geometry, Coherent, SameOutside, Apply;
    if Coherent(f) {
      ExecutedCoherent(f, cmd, x);
    }
  }

  /** The whole attempt: `f` at the call, `e` after write enable, `k` at the command, `h` at the end. */
  lemma TriedStep(f: Nor, e: Nor, k: Nor, cmd: seq<byte>, t: Mutation, m: Mutation, x: Nor, h: Nor)
    requires Conforming(e) && Waited(f, e) && (f.phase.Ready? ==> e.wel)
    requires Evolves(e, k) && Conforming(k) && Requested(k.profile, |k.cells.mem|, cmd) == Some(t) && Truncates(m, t)
    requires !f.phase.Armed? && Executed(k, cmd, x) && Evolves(x, h)
    ensures Tried(f, m, h) && !h.phase.Armed?
    ensures h.phase.Ready? && !h.wel && t == m ==> Logged(f, m, h) || Dropped(f, h)
  {
    hide Executed, Requested, Coherent, Evolves, Conforming;
    EvolvedWaited(e, k);
    WaitedTwice(f, e, k);
    EvolvesKeeps(e, k);
    ExecutedTried(k, cmd, t, x);
    EvolvesKeeps(x, h);
    EvolvedWaited(x, h);
    TornOne(f.log, m, t);
  }

  lemma TornOne(before: seq<Mutation>, m: Mutation, t: Mutation)
    requires Truncates(m, t)
    ensures Torn(before, [m], before) && Torn(before, [m], before + [t])
  {
    assert [m][..0] == [] && before + [] == before && (before + [t])[..|before|] == before;
    assert TornAt(before, [m], 0, before) && TornAt(before, [m], 0, before + [t]);
  }

  lemma TriedRan(f: Nor, e: Nor, cmd: seq<byte>, m: Mutation, response: seq<byte>, g: Nor, h: Nor)
    requires Conforming(e) && !f.phase.Armed? && Waited(f, e) && (f.phase.Ready? ==> e.wel)
    requires Requested(e.profile, |e.cells.mem|, cmd) == Some(m)
    requires Ran(e, cmd, response, g) && Evolves(g, h)
    ensures Tried(f, m, h) && !g.phase.Armed? && g.profile == e.profile
    ensures h.phase.Ready? && !h.wel ==> Logged(f, m, h) || Dropped(f, h)
  {
    hide Executed, Answered, Requested, Tried, Evolves, Waited;
    var k, x :|
      Evolves(e, k) && Conforming(k) && Answered(e, k, cmd, 0, response) && Executed(k, cmd, x) && Evolves(x, g);
    EvolvesKeeps(e, k);
    EvolvesTransitive(x, g, h);
    TriedStep(f, e, k, cmd, m, m, x, h);
    TriedStep(f, e, k, cmd, m, m, x, g);
    SameProfile(f, e, m, g);
  }

  lemma SameProfile(f: Nor, e: Nor, m: Mutation, g: Nor)
    requires Waited(f, e) && Tried(f, m, g)
    ensures g.profile == e.profile
  {
  }

  lemma TriedCut(f: Nor, e: Nor, cmd: seq<byte>, m: Mutation, g: Nor)
    requires Conforming(e) && !f.phase.Armed? && Waited(f, e) && (f.phase.Ready? ==> e.wel)
    requires Requested(e.profile, |e.cells.mem|, cmd) == Some(m) && Cut(e, cmd, g)
    ensures Tried(f, m, g)
  {
    hide Executed, Requested, Tried, Evolves, Waited;
    if Evolves(e, g) {
      WaitedArmed(f, e);
      EvolvedWaited(e, g);
      WaitedTwice(f, e, g);
      WaitedTried(f, m, g);
    } else {
      var n: nat, k, x :| n <= |cmd| && CutAt(e, cmd, n, k, x) && Evolves(x, g);
      EvolvesKeeps(e, k);
      PrefixRequested(e.profile, |e.cells.mem|, cmd, n, m);
      match Requested(e.profile, |e.cells.mem|, cmd[..n])
      case Some(t) =>
        TriedStep(f, e, k, cmd[..n], t, m, x, g);
      case None =>
        UnaskedStep(f, e, k, cmd[..n], m, x, g);
    }
  }

  lemma WaitedArmed(f: Nor, e: Nor)
    requires Waited(f, e)
    ensures !e.phase.Armed? && e.profile == f.profile
  {
  }

  /** A cut that left no complete command changes nothing. */
  lemma UnaskedStep(f: Nor, e: Nor, k: Nor, cmd: seq<byte>, m: Mutation, x: Nor, g: Nor)
    requires Conforming(e) && Waited(f, e) && Evolves(e, k) && Conforming(k)
    requires Requested(k.profile, |k.cells.mem|, cmd).None? && cmd != [WRITE_ENABLE] && cmd != [RESET_ENABLE]
    requires cmd != [RESET_MEMORY] && cmd != [SPANSION_RESET]
    requires Executed(k, cmd, x) && Evolves(x, g)
    ensures Tried(f, m, g)
  {
    hide Requested, Coherent, Evolves, Conforming, Waited, Tried;
    WaitedArmed(f, e);
    EvolvesKeeps(e, k);
    EvolvedWaited(e, k);
    assert x == k;
    EvolvedWaited(x, g);
    WaitedTwice(f, e, k);
    WaitedTwice(f, k, g);
    WaitedTried(f, m, g);
  }
}
