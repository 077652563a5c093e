/** programAndVerify: sector-wise read, erase, program of an image, and the final verification. */
module FlashProgrammer {
  import opened Results
  import opened Bytes
  import opened Clocks
  import opened NorFlash
  import opened FlashHistory
  import opened Outcome
  import opened ProgramPlan
  import opened SectorPlans
  import opened PlanProperties
  import opened EveryInstant
  import opened QuadSpiCore
  import opened QuadSpiDriver
  import opened SpiNorDriver

  predicate ShowsError(f: Nor) {
    Faulty(f.profile, Status(f))
  }

  predicate Protected(f: Nor) {
    Guarded(f.profile, Status(f))
  }

  /** Protection is reported only when there is no error to report. */
  predicate OnlyProtected(f: Nor) {
    Protected(f) && !ShowsError(f)
  }

  predicate Writable(f: Nor) {
    !ShowsError(f) && !Protected(f)
  }

  /**
   Refuse a flash that reports an old error or that is write protected. An operation still in progress
   is not looked at: the status is the one before or after it moved on meanwhile.
   */
  method RequireWritable(flash: SpiNor) returns (r: Result<()>)
    requires flash.Valid() && !flash.Flash().phase.Armed?
    modifies flash.spi.core
    ensures flash.Valid() && Evolves(old(flash.Flash()), flash.Flash())
    ensures Extends(old(flash.spi.core.past), flash.spi.core.past)
    ensures r.Ok? ==> Writable(old(flash.Flash())) || Writable(flash.Flash())
    ensures r == Err(LatchedFault) ==> ShowsError(old(flash.Flash())) || ShowsError(flash.Flash())
    ensures r == Err(BlockProtected) ==> OnlyProtected(old(flash.Flash())) || OnlyProtected(flash.Flash())
    ensures r.Err? ==>
      || r.error == LatchedFault || r.error == BlockProtected
      || flash.spi.Shows(old(flash.spi.core.past), r.error)
  {
    hide Extends, EndsAt;
    hide Status, Faulty, Guarded;
    ghost var f := flash.Flash();
    var status :- flash.ReadStatus();
    EvolvesKeeps(f, flash.Flash());
    if Faulty(flash.profile, status) {
      return Err(LatchedFault);
    }
    if Guarded(flash.profile, status) {
      return Err(BlockProtected);
    }
    return Ok(());
  }

  /** Program every page of a freshly erased sector that is not all 0xff. */
  method ProgramPages(flash: SpiNor, address: nat, desired: seq<byte>) returns (r: Result<()>)
    requires flash.Valid() && flash.Flash().phase.Ready?
    requires flash.InRange(address, |desired|)
    modifies flash.spi.core
    ensures flash.Valid()
    ensures Interrupted(old(flash.Flash()), PagesPlan(flash.profile, address, desired, 0), flash.Flash())
    ensures Extends(old(flash.spi.core.past), flash.spi.core.past)
    ensures r.Ok? ==> Did(old(flash.Flash()), PagesPlan(flash.profile, address, desired, 0), flash.Flash())
    ensures r.Err? ==> flash.Reason(old(flash.Flash()), old(flash.spi.core.past), r.error)
  {
    hide Extends, EndsAt, Interrupted, Underway, Did, Elapsed, Causes, Conforming, Geometry;
    ExtensionsChain();
    ghost var f, p := flash.Flash(), flash.profile;
    ghost var plan := PagesPlan(p, address, desired, 0);
    Starting(f, plan);
    var page := 0;
    while page < |desired|
      invariant flash.Valid() && flash.profile == p && flash.Flash().phase.Ready? && page <= |desired|
      invariant Extends(old(flash.spi.core.past), flash.spi.core.past)
      invariant Underway(f, plan, PagesPlan(p, address, desired, page), flash.Flash())
    {
      page :- NextPage(flash, address, desired, page, f);
    }
    Finished(f, plan, flash.Flash());
    return Ok(());
  }

  /** One page of the sector; `f` is the device before the first page. */
  method NextPage(flash: SpiNor, address: nat, desired: seq<byte>, page: nat, ghost f: Nor) returns (r: Result<nat>)
    requires flash.Valid() && flash.Flash().phase.Ready? && f.phase.Ready? && f.profile == flash.profile
    requires flash.InRange(address, |desired|) && page < |desired|
    requires Underway(f, PagesPlan(f.profile, address, desired, 0), PagesPlan(f.profile, address, desired, page),
                      flash.Flash())
    modifies flash.spi.core
    ensures flash.Valid() && Interrupted(f, PagesPlan(f.profile, address, desired, 0), flash.Flash())
    ensures Extends(old(flash.spi.core.past), flash.spi.core.past)
    ensures r.Ok? ==> page < r.value <= |desired| && flash.Flash().phase.Ready?
    ensures r.Ok? ==>
      Underway(f, PagesPlan(f.profile, address, desired, 0), PagesPlan(f.profile, address, desired, r.value),
               flash.Flash())
    ensures r.Err? ==> flash.Reason(f, old(flash.spi.core.past), r.error)
  {
    hide Extends, EndsAt;
    ExtensionsChain();
    hide Interrupted, Underway, Chunks;
    ghost var g := flash.Flash();
    var end := PageEnd(flash.profile, |desired|, page);
    var done := ProgramPage(flash, address + page, desired[page..end]);
    NextSteps(f, PagesPlan(f.profile, address, desired, 0), PagePlan(f.profile, address + page, desired[page..end]),
              PagesPlan(f.profile, address, desired, end), g, flash.Flash());
    if done.Err? {
      if Causes(g, done.error, flash.Flash()) {
        CausesEarlier(f, PagesPlan(f.profile, address, desired, 0), PagesPlan(f.profile, address, desired, page), g,
                      done.error, flash.Flash());
      }
      return Err(done.error);
    }
    return Ok(end);
  }

  method ProgramPage(flash: SpiNor, address: nat, data: seq<byte>) returns (r: Result<()>)
    requires flash.Valid() && flash.Flash().phase.Ready? && flash.InRange(address, |data|)
    modifies flash.spi.core
    ensures flash.Valid() && Interrupted(old(flash.Flash()), PagePlan(flash.profile, address, data), flash.Flash())
    ensures Extends(old(flash.spi.core.past), flash.spi.core.past)
    ensures r.Ok? ==> Did(old(flash.Flash()), PagePlan(flash.profile, address, data), flash.Flash())
    ensures r.Err? ==> flash.Reason(old(flash.Flash()), old(flash.spi.core.past), r.error)
  {
    hide Extends, EndsAt;
    ExtensionsChain();
    if exists i :: 0 <= i < |data| && data[i] != 0xff {
      r := flash.Program(address, data);
    } else {
      DidNothing(flash.Flash());
      NotStarted(flash.Flash(), [], flash.Flash());
      r := Ok(());
    }
  }

  method RewriteSector(flash: SpiNor, address: nat, desired: seq<byte>) returns (r: Result<()>)
    requires flash.Valid() && flash.Flash().phase.Ready?
    requires address % flash.profile.eraseSize == 0 && |desired| == flash.profile.eraseSize
    requires flash.InRange(address, |desired|)
    modifies flash.spi.core
    ensures flash.Valid() && Interrupted(old(flash.Flash()), SectorPlan(flash.profile, address, desired), flash.Flash())
    ensures Extends(old(flash.spi.core.past), flash.spi.core.past)
    ensures r.Ok? ==> Did(old(flash.Flash()), SectorPlan(flash.profile, address, desired), flash.Flash())
    ensures r.Err? ==> flash.Reason(old(flash.Flash()), old(flash.spi.core.past), r.error)
  {
    hide Extends, EndsAt;
    ExtensionsChain();
    ghost var f, p := flash.Flash(), flash.profile;
    ghost var pages := PagesPlan(p, address, desired, 0);
    SmallRemainder(address, |f.cells.mem|);
    r := flash.EraseSector(address);
    ghost var g := flash.Flash();
    InterruptedEarlier(f, [Erase(address)], pages, g);
    if r.Ok? {
      r := ProgramPages(flash, address, desired);
      DidThenInterrupted(f, [Erase(address)], g, pages, flash.Flash());
      if r.Ok? {
        DidThenDid(f, [Erase(address)], g, pages, flash.Flash());
      } else if Causes(g, r.error, flash.Flash()) {
        CausesAfter(f, [Erase(address)], g, r.error, flash.Flash());
      }
    }
  }

  /** A sector that need not be rewritten is left alone. */
  method UpdateSector(flash: SpiNor, address: nat, desired: seq<byte>, needed: bool) returns (r: Result<()>)
    requires flash.Valid() && flash.Flash().phase.Ready?
    requires address % flash.profile.eraseSize == 0 && |desired| == flash.profile.eraseSize
    requires flash.InRange(address, |desired|)
    modifies flash.spi.core
    ensures flash.Valid() && Extends(old(flash.spi.core.past), flash.spi.core.past)
    ensures
      var plan := if needed then SectorPlan(flash.profile, address, desired) else [];
      && Interrupted(old(flash.Flash()), plan, flash.Flash())
      && (r.Ok? ==> Did(old(flash.Flash()), plan, flash.Flash()))
    ensures r.Err? ==> flash.Reason(old(flash.Flash()), old(flash.spi.core.past), r.error)
  {
    hide Extends, EndsAt, Interrupted, Did, SectorPlan;
    ExtensionsChain();
    if needed {
      r := RewriteSector(flash, address, desired);
    } else {
      NotStarted(flash.Flash(), [], flash.Flash());
      DidNothing(flash.Flash());
      r := Ok(());
    }
  }

  /**
   The wanted contents of a sector: the image where it covers it, the present contents elsewhere.
   A sector the image covers completely is not read when everything is rewritten anyway.
   */
  method DesiredSector(flash: SpiNor, image: seq<byte>, imageOffset: nat, rewriteAll: bool, address: nat)
    returns (r: Result<(seq<byte>, seq<byte>)>)
    requires flash.Valid() && flash.Flash().phase.Ready? && flash.InRange(imageOffset, |image|)
    requires flash.InRange(address, flash.profile.eraseSize)
    requires address <= imageOffset + |image| && imageOffset <= address + flash.profile.eraseSize
    modifies flash.spi.core
    ensures flash.Valid() && flash.Flash() == old(flash.Flash())
    ensures Extends(old(flash.spi.core.past), flash.spi.core.past)
    ensures r.Ok? ==>
      var (mem, end) := (flash.Flash().cells.mem, address + flash.profile.eraseSize);
      && (!rewriteAll ==> r.value.0 == mem[address..end])
      && r.value.1 == Target(mem, image, imageOffset)[address..end]
    // the sector is read exactly if any of its contents can matter
    ensures r.Ok? ==>
      if rewriteAll && imageOffset <= address && address + flash.profile.eraseSize <= imageOffset + |image| then
        flash.spi.core.s.trace == old(flash.spi.core.s.trace)
      else
        exists t :: ReadsBack(flash.profile, t, address, flash.profile.eraseSize)
          && flash.spi.core.s.trace == old(flash.spi.core.s.trace) + t
    ensures r.Err? ==> flash.spi.Shows(old(flash.spi.core.past), r.error)
  {
    hide Extends, EndsAt;
    ExtensionsChain();
    hide Target, Paste, Conforming, Overlay, Geometry, Idle, Accessible, Max, Min;
    var eraseSize := flash.profile.eraseSize;
    var start := Max(address, imageOffset);
    var end := Min(address + eraseSize, imageOffset + |image|);
    if rewriteAll && start == address && end == address + eraseSize {
      CoveredTarget(flash.Flash().cells.mem, image, imageOffset, address, eraseSize);
      return Ok(([], image[start - imageOffset..end - imageOffset]));
    }
    var current :- flash.Read(address, eraseSize);
    TargetSector(flash.Flash().cells.mem, image, imageOffset, address, eraseSize);
    return Ok((current, Overlay(current, image, imageOffset, address)));
  }

  /** `sector`, which begins at `address`, with the part of the image that falls into it copied over. */
  function Overlay(sector: seq<byte>, image: seq<byte>, offset: nat, address: nat): (r: seq<byte>)
    requires address <= offset + |image| && offset <= address + |sector|
    ensures |r| == |sector|
    ensures forall k :: 0 <= k < |sector| ==>
      r[k] == if offset <= address + k < offset + |image| then image[address + k - offset] else sector[k]
  {
    var start, end := Max(address, offset), Min(address + |sector|, offset + |image|);
    Paste(sector, start - address, image[start - offset..end - offset])
  }

  lemma TargetSector(mem: seq<byte>, image: seq<byte>, offset: nat, address: nat, size: nat)
    requires offset + |image| <= |mem| && address + size <= |mem|
    requires address <= offset + |image| && offset <= address + size
    ensures Overlay(mem[address..address + size], image, offset, address)
         == Target(mem, image, offset)[address..address + size]
  {
    hide Overlay, Target;
    var target := Target(mem, image, offset);
    TargetAt(mem, image, offset);
    var l, r := Overlay(mem[address..address + size], image, offset, address), target[address..address + size];
    forall k | 0 <= k < size
      ensures l[k] == r[k]
    {
      assert r[k] == target[address + k];
    }
  }

  lemma TargetAt(mem: seq<byte>, image: seq<byte>, offset: nat)
    requires offset + |image| <= |mem|
    ensures forall i :: 0 <= i < |mem| ==>
      Target(mem, image, offset)[i] == if offset <= i < offset + |image| then image[i - offset] else mem[i]
  {
  }

  lemma CoveredSector(mem: seq<byte>, image: seq<byte>, offset: nat, address: nat, size: nat)
    requires offset <= address && address + size <= offset + |image| && address + size <= |mem|
    ensures Overlay(mem[address..address + size], image, offset, address)
         == image[address - offset..address + size - offset]
  {
    hide Overlay;
  }

  lemma CoveredTarget(mem: seq<byte>, image: seq<byte>, offset: nat, address: nat, size: nat)
    requires offset <= address && address + size <= offset + |image| <= |mem|
    ensures image[address - offset..address + size - offset] == Target(mem, image, offset)[address..address + size]
  {
    hide Target, Overlay;
    CoveredSector(mem, image, offset, address, size);
    TargetSector(mem, image, offset, address, size);
  }

  // ---------------------------------------------------------------------------------------------

  /** The run has done all sectors below `s` and none from `s` on. */
  ghost predicate AtSector(f: Nor, target: seq<byte>, all: bool, first: nat, s: nat, last: nat, g: Nor)
    requires Start(f.profile, last) <= |f.cells.mem| == |target|
  {
    && Underway(f, Plan(f.profile, f.cells.mem, target, all, first, last),
                Plan(f.profile, f.cells.mem, target, all, s, last), g)
    && Start(f.profile, s) <= |target|
    && g.cells == f.cells.(mem := Front(f.cells.mem, target, Start(f.profile, s)))
    && g.profile == f.profile && g.phase == f.phase
  }

  lemma UnderwayInterrupted(f: Nor, plan: seq<Mutation>, rest: seq<Mutation>, g: Nor)
    requires f.phase.Ready? && Underway(f, plan, rest, g)
    ensures Interrupted(f, plan, g)
  {
    assert [] + rest == rest;
    NotStarted(g, [], g);
    NextSteps(f, plan, [], rest, g, g);
  }

  /** Sector `s` was done, or was being done, from where the run stood at `g`. */
  lemma SectorDone(f: Nor, target: seq<byte>, all: bool, first: nat, s: nat, last: nat, g: Nor, h: Nor)
    requires f.phase.Ready? && s < last
    requires Start(f.profile, s + 1) <= Start(f.profile, last) <= |f.cells.mem| == |target|
    requires AtSector(f, target, all, first, s, last, g)
    requires Interrupted(g, SectorStep(f.profile, f.cells.mem, target, all, s), h)
    ensures Interrupted(f, Plan(f.profile, f.cells.mem, target, all, first, last), h)
    ensures Did(g, SectorStep(f.profile, f.cells.mem, target, all, s), h) ==>
      AtSector(f, target, all, first, s + 1, last, h)
  {
    hide Interrupted, Underway, Rewrites;
    var p, mem := f.profile, f.cells.mem;
    NextSteps(f, Plan(p, mem, target, all, first, last), SectorStep(p, mem, target, all, s),
              Plan(p, mem, target, all, s + 1, last), g, h);
    StepReaches(p, g.cells, mem, target, all, s);
  }

  /** What a run finds in sector `s`: the original contents, and the target's around the image. */
  lemma FrontSector(mem: seq<byte>, image: seq<byte>, offset: nat, base: nat, end: nat)
    requires offset + |image| <= |mem| && base <= end <= |mem|
    ensures var target := Target(mem, image, offset);
      && Front(mem, target, base)[base..end] == mem[base..end]
      && Target(Front(mem, target, base), image, offset) == target
  {
    var target := Target(mem, image, offset);
    var found := Front(mem, target, base);
    assert found[base..end] == mem[base..end];
    assert Target(found, image, offset) == target;
  }

  /** One sector: rewrite it if it differs, or in any case when everything is rewritten. */
  method ProgramSector(flash: SpiNor, image: seq<byte>, imageOffset: nat, rewriteAll: bool, sector: nat,
                       ghost f: Nor, ghost target: seq<byte>, ghost first: nat, ghost last: nat)
    returns (r: Result<bool>)
    requires flash.Valid() && f.phase.Ready? && f.profile == flash.profile
    requires Fits(f.profile, f.cells.mem, image, imageOffset) && target == Target(f.cells.mem, image, imageOffset)
    requires sector < last && Start(f.profile, sector + 1) <= Start(f.profile, last) <= Accessible(f.profile)
    requires Start(f.profile, sector) <= imageOffset + |image| && imageOffset <= Start(f.profile, sector + 1)
    requires AtSector(f, target, rewriteAll, first, sector, last, flash.Flash())
    modifies flash.spi.core
    ensures flash.Valid()
    ensures Interrupted(f, Plan(f.profile, f.cells.mem, target, rewriteAll, first, last), flash.Flash())
    ensures Extends(old(flash.spi.core.past), flash.spi.core.past)
    ensures r.Ok? ==> AtSector(f, target, rewriteAll, first, sector + 1, last, flash.Flash())
    ensures r.Ok? ==> r.value == Rewrites(f.profile, f.cells.mem, target, rewriteAll, sector)
    ensures r.Err? ==> flash.Reason(f, old(flash.spi.core.past), r.error)
  {
    hide Extends, EndsAt;
    ExtensionsChain();
    hide Interrupted, Underway, Did, Target, Front, SectorPlan, Plan, Conforming, Replay, Geometry, Tiled,
         Causes, Elapsed, ErrorSeen, EmptySeen, Resetting, Parked, ReadsBack, IsRead;
    ghost var p, mem, g := f.profile, f.cells.mem, flash.Flash();
    var address := sector * flash.profile.eraseSize;
    StartIs(p, sector);
    FrontSector(mem, image, imageOffset, address, address + p.eraseSize);
    UnderwayInterrupted(f, Plan(p, mem, target, rewriteAll, first, last),
                        Plan(p, mem, target, rewriteAll, sector, last), g);
    var contents := DesiredSector(flash, image, imageOffset, rewriteAll, address);
    if contents.Err? {
      return Err(contents.error);
    }
    var (current, desired) := contents.value;
    var done := UpdateSector(flash, address, desired, rewriteAll || current != desired);
    SectorDone(f, target, rewriteAll, first, sector, last, g, flash.Flash());
    if done.Err? {
      if Causes(g, done.error, flash.Flash()) {
        CausesEarlier(f, Plan(p, mem, target, rewriteAll, first, last),
                      Plan(p, mem, target, rewriteAll, sector, last), g, done.error, flash.Flash());
      }
      return Err(done.error);
    }
    return Ok(rewriteAll || current != desired);
  }

  lemma AtFirstSector(f: Nor, image: seq<byte>, offset: nat, all: bool)
    requires f.phase.Ready? && Fits(f.profile, f.cells.mem, image, offset)
    ensures var first, last := FirstSector(f.profile, offset), LastSector(f.profile, offset, |image|);
      && Start(f.profile, last) <= |f.cells.mem|
      && AtSector(f, Target(f.cells.mem, image, offset), all, first, first, last, f)
      && Interrupted(f, ImagePlan(f.profile, f.cells.mem, image, offset, all), f)
  {
    hide Interrupted, Underway, Geometry, Front, Target, Paste;
    var mem := f.cells.mem;
    CoveredSectors(f.profile, mem, image, offset);
    Starting(f, ImagePlan(f.profile, mem, image, offset, all));
    FrontAtStart(f.profile, mem, image, offset);
  }

  /**
   The run from `f` to `g` carried out its plan: the array is the old one with the image spliced in,
   and `changed` is the number of sectors erased.
   */
  ghost predicate Programmed(f: Nor, image: seq<byte>, offset: nat, all: bool, g: Nor, changed: nat)
    requires Fits(f.profile, f.cells.mem, image, offset)
  {
    && Did(f, ImagePlan(f.profile, f.cells.mem, image, offset, all), g)
    && g.phase.Ready?
    && g.cells == f.cells.(mem := Paste(f.cells.mem, offset, image))
    && changed == |Erased(ImagePlan(f.profile, f.cells.mem, image, offset, all))|
  }

  lemma AtLastSector(f: Nor, image: seq<byte>, offset: nat, all: bool, g: Nor)
    requires f.phase.Ready? && Fits(f.profile, f.cells.mem, image, offset)
    requires var first, last := FirstSector(f.profile, offset), LastSector(f.profile, offset, |image|);
      && Start(f.profile, last) <= |f.cells.mem|
      && AtSector(f, Target(f.cells.mem, image, offset), all, first, last, last, g)
    ensures Programmed(f, image, offset, all, g, |Erased(ImagePlan(f.profile, f.cells.mem, image, offset, all))|)
  {
    var plan := ImagePlan(f.profile, f.cells.mem, image, offset, all);
    Finished(f, plan, g);
    ImagePlanSplices(f.profile, f.cells, image, offset, all);
  }

  /** What holds for the sectors of a run: they meet the image and lie in the accessible array. */
  lemma SectorInRun(p: Chip, mem: seq<byte>, image: seq<byte>, offset: nat, s: nat)
    requires Fits(p, mem, image, offset)
    requires FirstSector(p, offset) <= s < LastSector(p, offset, |image|)
    ensures var last := LastSector(p, offset, |image|);
      && Start(p, s + 1) <= Start(p, last) <= Accessible(p)
      && Start(p, s) <= offset + |image| && offset <= Start(p, s + 1)
  {
    var first, last := FirstSector(p, offset), LastSector(p, offset, |image|);
    CoveredSectors(p, mem, image, offset);
    StartGrows(p, s, last);
    if first < s {
      StartGrows(p, first, s);
    }
  }

  lemma ProgrammedReads(f: Nor, image: seq<byte>, offset: nat, all: bool, g: Nor, changed: nat)
    requires Fits(f.profile, f.cells.mem, image, offset) && Programmed(f, image, offset, all, g, changed)
    ensures g.phase.Ready? && |g.cells.mem| == |f.cells.mem|
    ensures forall i :: offset <= i < offset + |image| ==> g.cells.mem[i] == image[i - offset]
  {
  }

  /** What an abort loses lies in the area of the last mutation. */
  lemma AbortedBetween(mem: seq<byte>, target: seq<byte>, from: nat, to: nat, g: Nor, s: Nor)
    requires |mem| == |target| && from <= to && Between(mem, target, from, to, g.cells.mem) && Aborted(g, s)
    requires Confined(g.profile, g.log[|g.log| - 1], from, to)
    ensures Between(mem, target, from, to, s.cells.mem) && s.cells.nvcr == g.cells.nvcr
  {
    hide First, End, Idle;
    BetweenElsewhere(mem, target, from, to, g.cells.mem, s.cells.mem);
  }

  lemma StoppedAndReopened(f: Nor, image: seq<byte>, offset: nat, all: bool, g: Nor, s: Nor) returns (t: nat)
    requires Coherent(f) && f.phase.Ready? && Fits(f.profile, f.cells.mem, image, offset)
    requires Interrupted(f, ImagePlan(f.profile, f.cells.mem, image, offset, all), g) && Unasked(g, s)
    ensures FirstSector(f.profile, offset) <= t <= LastSector(f.profile, offset, |image|)
    ensures Between(f.cells.mem, Target(f.cells.mem, image, offset), Start(f.profile, t),
                    WorkEnd(f.profile, t, LastSector(f.profile, offset, |image|)), s.cells.mem)
    ensures s.cells.nvcr == f.cells.nvcr
  {
    hide Coherent, Between, Target, Confined, Torn, Geometry, Tiled, Kept, Aborted, ImagePlan, FirstSector, LastSector;
    var p, plan := f.profile, ImagePlan(f.profile, f.cells.mem, image, offset, all);
    if Kept(g, s) {
      InterruptedThenKept(f, plan, g, s);
      t := StoppedAnywhere(f, image, offset, all, s);
    } else {
      t := StoppedAnywhere(f, image, offset, all, g);
      var last := LastSector(p, offset, |image|);
      StartGrows(p, t, t + 1);
      assert g.log != f.log by {
        AbortedBusy(g, s);
      }
      AbortedBetween(f.cells.mem, Target(f.cells.mem, image, offset), Start(p, t), WorkEnd(p, t, last), g, s);
    }
  }

  lemma AbortedBusy(g: Nor, s: Nor)
    requires Aborted(g, s)
    ensures !Idle(g)
  {
  }

  /**
   The first run stopped somewhere, the device was left alone or reset meanwhile, and a second run went
   through: all is as the first run wanted it, except what its unfinished sector lost beside the image.
   */
  lemma SecondRunAfterStop(f: Nor, image: seq<byte>, offset: nat, all: bool, g: Nor, s: Nor, again: bool,
      h: Nor, changed: nat)
      returns (t: nat)
    requires Coherent(f) && f.phase.Ready? && Fits(f.profile, f.cells.mem, image, offset)
    requires Interrupted(f, ImagePlan(f.profile, f.cells.mem, image, offset, all), g) && Unasked(g, s)
    requires Fits(s.profile, s.cells.mem, image, offset) && Programmed(s, image, offset, again, h, changed)
    ensures FirstSector(f.profile, offset) <= t <= LastSector(f.profile, offset, |image|)
    ensures h.cells.nvcr == f.cells.nvcr && |h.cells.mem| == |s.cells.mem| == |f.cells.mem|
    ensures forall i :: 0 <= i < |f.cells.mem| ==>
      h.cells.mem[i] ==
        if Lossy(f.profile, image, offset, t, i) then s.cells.mem[i] else Target(f.cells.mem, image, offset)[i]
    ensures h.cells.mem == Target(f.cells.mem, image, offset) <==>
      (forall i :: 0 <= i < |f.cells.mem| && Lossy(f.profile, image, offset, t, i) ==> s.cells.mem[i] == f.cells.mem[i])
  {
    hide Coherent, Interrupted, Did, ImagePlan, Tiled, Between, Unasked, Exposed, WorkEnd, FirstSector, LastSector;
    t := StoppedAndReopened(f, image, offset, all, g, s);
    var p := f.profile;
    var from, to := Start(p, t), WorkEnd(p, t, LastSector(p, offset, |image|));
    SameLength(f.cells.mem, Target(f.cells.mem, image, offset), from, to, s.cells.mem);
    RerunRestores(f.cells.mem, s.cells.mem, image, offset, from, to);
    assert h.cells.mem == Target(s.cells.mem, image, offset);
  }

  lemma SameLength(mem: seq<byte>, target: seq<byte>, from: nat, to: nat, m: seq<byte>)
    requires |mem| == |target| && Between(mem, target, from, to, m)
    ensures |m| == |mem|
  {
  }

  /** Position `i` lies in sector `t`, still unfinished, and beside the image. */
  predicate Lossy(p: Chip, image: seq<byte>, offset: nat, t: nat, i: nat) {
    Exposed(i, Start(p, t), WorkEnd(p, t, LastSector(p, offset, |image|)), offset, |image|)
  }

  /** The loop over the covered sectors; the result counts the rewritten ones. */
  method ProgramSectors(flash: SpiNor, image: seq<byte>, imageOffset: nat, rewriteAll: bool) returns (r: Result<nat>)
    requires flash.Valid() && flash.Flash().phase.Ready?
    requires Fits(flash.profile, flash.Flash().cells.mem, image, imageOffset)
    modifies flash.spi.core
    ensures flash.Valid()
    ensures Extends(old(flash.spi.core.past), flash.spi.core.past)
    ensures Interrupted(old(flash.Flash()),
                        ImagePlan(flash.profile, old(flash.Flash()).cells.mem, image, imageOffset, rewriteAll),
                        flash.Flash())
    ensures r.Ok? ==> Programmed(old(flash.Flash()), image, imageOffset, rewriteAll, flash.Flash(), r.value)
    ensures r.Err? ==> flash.Reason(old(flash.Flash()), old(flash.spi.core.past), r.error)
  {
    hide Extends, EndsAt;
    ExtensionsChain();
    hide Interrupted, Underway, Target, Front, SectorStep, Rewrites, Programmed;
    ghost var f, p, mem := flash.Flash(), flash.profile, flash.Flash().cells.mem;
    ghost var target := Target(mem, image, imageOffset);
    AtFirstSector(f, image, imageOffset, rewriteAll);
    CoveredSectors(p, mem, image, imageOffset);
    var eraseSize := flash.profile.eraseSize;
    var first := imageOffset / eraseSize;
    var last := (imageOffset + |image| + eraseSize - 1) / eraseSize;
    var changed := 0;
    for sector := first to last
      invariant flash.Valid() && flash.profile == p
      invariant Extends(old(flash.spi.core.past), flash.spi.core.past)
      invariant AtSector(f, target, rewriteAll, first, sector, last, flash.Flash())
      invariant Interrupted(f, ImagePlan(p, mem, image, imageOffset, rewriteAll), flash.Flash())
      invariant changed + |Erased(Plan(p, mem, target, rewriteAll, sector, last))|
             == |Erased(Plan(p, mem, target, rewriteAll, first, last))|
    {
      SectorInRun(p, mem, image, imageOffset, sector);
      PlanErases(p, mem, target, rewriteAll, sector, last);
      var rewritten :- ProgramSector(flash, image, imageOffset, rewriteAll, sector, f, target, first, last);
      if rewritten {
        changed := changed + 1;
      }
    }
    AtLastSector(f, image, imageOffset, rewriteAll, flash.Flash());
    return Ok(changed);
  }

  /**
   Why a run on a ready, writable device `f` may fail: the controller has an error to show, or the device
   does, or it did not finish an operation that was started, for five seconds or more. It never refuses
   write enable, and no operation fails to start.
   */
  ghost predicate Accounted(flash: SpiNor, f: Nor, past: seq<Nor>, e: Error)
    reads flash, flash.spi, flash.spi.core
  {
    || flash.spi.Shows(past, e)
    || (e == EraseProgramFault && Faulty(flash.Flash().profile, flash.Flash().sr))
    || (&& e == ReadyTimeout && |flash.Flash().log| > |f.log|
        && Elapsed(past, flash.spi.core.past, 5_000 * MILLISECOND))
  }

  lemma ReasonWhenWritable(flash: SpiNor, f: Nor, past: seq<Nor>, later: seq<Nor>, e: Error)
    requires f.phase.Ready? && Writable(f) && Extends(past, later) && flash.Reason(f, later, e)
    ensures Accounted(flash, f, past, e) && e != OutOfRange && e != LatchedFault && e != BlockProtected
  {
    UnprotectedBits(f);
  }

  lemma ShownIsAccounted(flash: SpiNor, f: Nor, past: seq<Nor>, later: seq<Nor>, e: Error)
    requires Extends(past, later) && flash.spi.Shows(later, e)
    ensures Accounted(flash, f, past, e) && e != OutOfRange && e != LatchedFault && e != BlockProtected
  {
  }

  lemma UnprotectedBits(f: Nor)
    requires Writable(f)
    ensures !Guarded(f.profile, f.sr)
  {
  }

  /** The run itself, once the range is known to be good; a flash that is not writable is left alone. */
  method ProgramWritable(flash: SpiNor, image: seq<byte>, imageOffset: nat, rewriteAll: bool) returns (r: Result<nat>)
    requires flash.Valid() && flash.Flash().phase.Ready?
    requires Fits(flash.profile, flash.Flash().cells.mem, image, imageOffset)
    modifies flash.spi.core
    ensures flash.Valid()
    ensures Extends(old(flash.spi.core.past), flash.spi.core.past)
    ensures Interrupted(old(flash.Flash()),
                        ImagePlan(flash.profile, old(flash.Flash()).cells.mem, image, imageOffset, rewriteAll),
                        flash.Flash())
    ensures r.Ok? ==> Programmed(old(flash.Flash()), image, imageOffset, rewriteAll, flash.Flash(), r.value)
    ensures r.Ok? ==> Writable(old(flash.Flash()))
    ensures r == Err(LatchedFault) ==> flash.Flash() == old(flash.Flash()) && ShowsError(flash.Flash())
    ensures r == Err(BlockProtected) ==> flash.Flash() == old(flash.Flash()) && OnlyProtected(flash.Flash())
    ensures r.Err? ==>
      || r.error == LatchedFault || r.error == BlockProtected
      || Accounted(flash, old(flash.Flash()), old(flash.spi.core.past), r.error)
    ensures r != Err(OutOfRange)
  {
    hide Extends, EndsAt;
    ExtensionsChain();
    hide Interrupted, Programmed, ImagePlan, ShowsError, OnlyProtected, Geometry, Tiled, Conforming, Accessible, Fits,
         SpiNor.Reason, AxiQuadSpi.Shows, Writable, Accounted;
    ghost var f := flash.Flash();
    NotStarted(f, ImagePlan(f.profile, f.cells.mem, image, imageOffset, rewriteAll), f);
    ghost var past := flash.spi.core.past;
    var writable := RequireWritable(flash);
    EvolvesKeeps(f, flash.Flash());
    if writable.Err? {
      if flash.spi.Shows(past, writable.error) {
        ShownIsAccounted(flash, f, past, past, writable.error);
      }
      return Err(writable.error);
    }
    ghost var later := flash.spi.core.past;
    r := ProgramSectors(flash, image, imageOffset, rewriteAll);
    if r.Err? {
      ReasonWhenWritable(flash, f, past, later, r.error);
    }
  }

  ghost predicate EndsInReadBack(p: Chip, trace: seq<Event>, address: nat, length: nat) {
    exists before, t :: ReadsBack(p, t, address, length) && trace == before + t
  }

  /** Where two different sequences of the same length first differ. */
  method Mismatch(actual: seq<byte>, image: seq<byte>) returns (at: nat)
    requires |actual| == |image| && actual != image
    ensures at < |image| && actual[at] != image[at] && actual[..at] == image[..at]
  {
    at := 0;
    while at < |image| && actual[at] == image[at]
      invariant at <= |image| && actual[..at] == image[..at]
    {
      at := at + 1;
    }
    assert actual[..|actual|] == actual && image[..|image|] == image;
  }

  lemma SliceOfSlice(mem: seq<byte>, from: nat, size: nat, count: nat)
    requires from + size <= |mem| && count <= size
    ensures mem[from..from + size][..count] == mem[from..from + count]
  {
  }

  /** Compare the flash with `image`, whatever it holds and however it came by it. */
  method Verify(flash: SpiNor, image: seq<byte>, imageOffset: nat) returns (r: Result<()>)
    requires flash.Valid() && flash.Flash().phase.Ready?
    modifies flash.spi.core
    ensures flash.Valid() && flash.Flash() == old(flash.Flash())
    ensures Extends(old(flash.spi.core.past), flash.spi.core.past)
    ensures r == Err(OutOfRange) <==> !flash.InRange(imageOffset, |image|)
    ensures r.Ok? ==> flash.Flash().cells.mem[imageOffset..imageOffset + |image|] == image
    ensures r.Ok? ==>
      exists t :: ReadsBack(flash.profile, t, imageOffset, |image|)
        && flash.spi.core.s.trace == old(flash.spi.core.s.trace) + t
    ensures r.Err? && r.error.VerificationFailed? ==>
      && imageOffset <= r.error.at < imageOffset + |image| <= |flash.Flash().cells.mem|
      && flash.Flash().cells.mem[r.error.at] != image[r.error.at - imageOffset]
      && flash.Flash().cells.mem[imageOffset..r.error.at] == image[..r.error.at - imageOffset]
    ensures r.Err? ==>
      || r.error == OutOfRange || r.error.VerificationFailed?
      || flash.spi.Shows(old(flash.spi.core.past), r.error)
  {
    hide Extends, EndsAt, ReadsBack, Elapsed, ErrorSeen, EmptySeen, Resetting, Parked, Conforming;
    ExtensionsChain();
    var actual :- flash.Read(imageOffset, |image|);
    if actual != image {
      var at := Mismatch(actual, image);
      ghost var mem := flash.Flash().cells.mem;
      SliceOfSlice(mem, imageOffset, |image|, at);
      return Err(VerificationFailed(imageOffset + at));
    }
    return Ok(());
  }

  /**
   Program `image` at `imageOffset` and verify it. On success the array is the old one with the image
   spliced in; at every other end the device got some way into the same plan.
   */
  method ProgramAndVerify(flash: SpiNor, image: seq<byte>, imageOffset: nat, rewriteAll: bool) returns (r: Result<nat>)
    requires flash.Valid() && flash.Flash().phase.Ready? && Tiled(flash.profile)
    modifies flash.spi.core
    ensures flash.Valid() && flash.profile == old(flash.profile)
    ensures Extends(old(flash.spi.core.past), flash.spi.core.past)
    ensures r == Err(OutOfRange) <==> !flash.InRange(imageOffset, |image|)
    ensures r == Err(OutOfRange) ==> flash.Flash() == old(flash.Flash())
    ensures flash.InRange(imageOffset, |image|) ==>
      Interrupted(old(flash.Flash()),
                  ImagePlan(flash.profile, old(flash.Flash()).cells.mem, image, imageOffset, rewriteAll), flash.Flash())
    // every state the device went through on the way is one to stop in safely
    ensures flash.InRange(imageOffset, |image|) && Coherent(old(flash.Flash())) ==>
      SafeThroughout(old(flash.Flash()), image, imageOffset, Since(old(flash.spi.core.past), flash.spi.core.past))
    ensures r.Ok? ==> Programmed(old(flash.Flash()), image, imageOffset, rewriteAll, flash.Flash(), r.value)
    ensures r.Ok? ==> Writable(old(flash.Flash()))
    // the last thing that was done is to read the image back
    ensures r.Ok? ==> EndsInReadBack(flash.profile, flash.spi.core.s.trace, imageOffset, |image|)
    ensures r == Err(LatchedFault) ==> flash.Flash() == old(flash.Flash()) && ShowsError(flash.Flash())
    ensures r == Err(BlockProtected) ==> flash.Flash() == old(flash.Flash()) && OnlyProtected(flash.Flash())
    ensures r.Err? ==>
      || r.error == OutOfRange || r.error == LatchedFault || r.error == BlockProtected
      || Accounted(flash, old(flash.Flash()), old(flash.spi.core.past), r.error)
  {
    hide Extends, EndsAt, Interrupted, Programmed, ImagePlan, ShowsError, OnlyProtected, Geometry, Tiled, Conforming,
         Accessible, Coherent, SafeThroughout, Writable, Accounted, AxiQuadSpi.Shows;
    ExtensionsChain();
    ghost var f, past := flash.Flash(), flash.spi.core.past;
    var _ :- flash.CheckRange(imageOffset, |image|);
    r := ProgramWritable(flash, image, imageOffset, rewriteAll);
    if r.Ok? {
      ProgrammedReads(f, image, imageOffset, rewriteAll, flash.Flash(), r.value);
      ghost var later := flash.spi.core.past;
      var verified := Verify(flash, image, imageOffset);
      if verified.Err? {
        ShownIsAccounted(flash, f, past, later, verified.error);
        r := Err(verified.error);
      }
    }
    if Coherent(f) {
      RunIsSafe(past, f, flash.spi.core.past, flash.Flash(), image, imageOffset, rewriteAll);
    }
  }
}
