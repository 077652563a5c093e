/**
 What the plan of a run guarantees beyond its result: exactly the sectors that need it are erased,
 a second run does nothing, and a device stopped at any instant is old above one sector and new
 below it.
 */
module PlanProperties {
  import opened Bytes
  import opened NorFlash
  import opened Outcome
  import opened ProgramPlan
  import opened SectorPlans

  // ---------------------------------------------------------------------------------------------
  // Where the mutations of one sector fall

  ghost predicate Confined(p: Chip, m: Mutation, from: nat, to: nat) {
    !m.WriteNvcr? && !m.Abort? && from <= First(p, m) && End(p, m) <= to
  }

  ghost predicate AllConfined(p: Chip, ms: seq<Mutation>, from: nat, to: nat) {
    forall m :: m in ms ==> Confined(p, m, from, to)
  }

  lemma {:induction false} ReplayConfined(p: Chip, c: Cells, ms: seq<Mutation>, from: nat, to: nat)
    requires AllConfined(p, ms, from, to)
    ensures Replay(p, c, ms).nvcr == c.nvcr
    ensures forall i :: 0 <= i < |c.mem| && !(from <= i < to) ==> Replay(p, c, ms).mem[i] == c.mem[i]
  {
    if ms != [] {
      var n := |ms| - 1;
      ReplayConfined(p, c, ms[..n], from, to);
      assert Confined(p, ms[n], from, to);
    }
  }

  lemma BlockInside(at: nat, from: nat, to: nat, d: nat)
    requires 0 < d && from % d == 0 && to % d == 0 && from <= at < to
    ensures from <= Base(at, d) && Base(at, d) + d <= to
  {
    RoundDown(at, d);
    RoundDown(from, d);
    RoundDown(to, d);
    assert Base(at, d) == (at / d) * d;
    BetweenMultiples(at, at / d, from / d, to / d, d);
  }

  lemma BetweenMultiples(at: nat, q: nat, f: nat, t: nat, d: nat)
    requires q * d <= at < q * d + d && f * d <= at < t * d
    ensures f * d <= q * d && q * d + d <= t * d
  {
    MultipleBelow(f, q, d);
    MultipleUpTo(f, q, d);
    if q < t {
      MultipleOrder(q, t, d);
    } else {
      MultipleUpTo(t, q, d);
    }
  }

  lemma SumOfMultiples(a: nat, b: nat, d: nat)
    requires 0 < d && a % d == 0 && b % d == 0
    ensures (a + b) % d == 0
  {
    RoundDown(a, d);
    RoundDown(b, d);
    assert (a / d) * d + (b / d) * d == (a / d + b / d) * d;
    RemainderUnique(a + b, a / d + b / d, 0, d);
  }

  lemma {:induction false} StartOnPage(p: Chip, s: nat)
    requires Tiled(p)
    ensures Start(p, s) % p.pageSize == 0
  {
    if s == 0 {
      SmallRemainder(0, p.pageSize);
    } else {
      StartOnPage(p, s - 1);
      SumOfMultiples(Start(p, s - 1), p.eraseSize, p.pageSize);
    }
  }

  lemma {:induction false} PagesConfined(p: Chip, base: nat, desired: seq<byte>, page: nat)
    requires page <= |desired| && base % p.pageSize == 0 && (base + |desired|) % p.pageSize == 0
    ensures forall m :: m in PagesPlan(p, base, desired, page) ==> m.Program?
    ensures AllConfined(p, PagesPlan(p, base, desired, page), base, base + |desired|)
    decreases |desired| - page
  {
    if page < |desired| {
      var end := PageEnd(p, |desired|, page);
      PageConfined(p, base + page, desired[page..end], base, base + |desired|);
      PagesConfined(p, base, desired, end);
    }
  }

  lemma PageConfined(p: Chip, address: nat, data: seq<byte>, from: nat, to: nat)
    requires from <= address && address + |data| <= to && from % p.pageSize == 0 && to % p.pageSize == 0
    ensures forall m :: m in PagePlan(p, address, data) ==> m.Program? && Confined(p, m, from, to)
  {
    ChunksTile(p, address, data);
    forall m | m in PagePlan(p, address, data)
      ensures m.Program? && Confined(p, m, from, to)
    {
      assert FitsCommand(p, m);
      BlockInside(m.address, from, to, p.pageSize);
    }
  }

  lemma StepConfined(p: Chip, mem: seq<byte>, target: seq<byte>, all: bool, s: nat)
    requires Tiled(p) && Start(p, s + 1) <= |mem| == |target|
    ensures AllConfined(p, SectorStep(p, mem, target, all, s), Start(p, s), Start(p, s + 1))
  {
    StartIs(p, s);
    StartOnPage(p, s);
    StartOnPage(p, s + 1);
    PagesConfined(p, Start(p, s), Sector(p, target, s), 0);
    assert Base(Start(p, s), p.eraseSize) == Start(p, s);
  }

  // ---------------------------------------------------------------------------------------------
  // Stopping at any instant

  /** `m` is `target` below `from` and `mem` from `to` on; in between it may be anything. */
  ghost predicate Between(mem: seq<byte>, target: seq<byte>, from: nat, to: nat, m: seq<byte>)
    requires |mem| == |target|
  {
    && |m| == |mem|
    && (forall i :: 0 <= i < |mem| && i < from ==> m[i] == target[i])
    && (forall i :: 0 <= i < |mem| && to <= i ==> m[i] == mem[i])
  }

  /** The sectors done, and the one at work: nothing at work once all are done. */
  function WorkEnd(p: Chip, t: nat, last: nat): nat {
    if t < last then Start(p, t + 1) else Start(p, t)
  }

  /** `ms`, a first part of the plan, left the array in order, and its last step is in sector `t`. */
  ghost predicate StoppedIn(p: Chip, c: Cells, mem: seq<byte>, target: seq<byte>, t: nat, last: nat, ms: seq<Mutation>)
    requires |mem| == |target| == |c.mem|
  {
    && Between(mem, target, Start(p, t), WorkEnd(p, t, last), Replay(p, c, ms).mem)
    && Replay(p, c, ms).nvcr == c.nvcr
    && (ms != [] ==> Confined(p, ms[|ms| - 1], Start(p, t), WorkEnd(p, t, last)))
  }

  lemma TruncatedConfined(p: Chip, m: Mutation, t: Mutation, from: nat, to: nat)
    requires Truncates(m, t) && Confined(p, m, from, to)
    ensures Confined(p, t, from, to)
  {
  }

  lemma TornConfined(p: Chip, plan: seq<Mutation>, ms: seq<Mutation>, from: nat, to: nat)
    requires AllConfined(p, plan, from, to) && Torn([], plan, ms)
    ensures AllConfined(p, ms, from, to)
  {
    var k: nat :| k <= |plan| && TornAt([], plan, k, ms);
    forall m | m in ms
      ensures Confined(p, m, from, to)
    {
      if ms == [] + plan[..k] {
        assert m in plan;
      } else {
        assert Confined(p, plan[k], from, to);
        TruncatedConfined(p, plan[k], ms[|ms| - 1], from, to);
        assert ms == ms[..|ms| - 1] + [ms[|ms| - 1]];
        assert m in plan[..k] || m == ms[|ms| - 1];
      }
    }
  }

  lemma TornSplits(a: seq<Mutation>, b: seq<Mutation>, ms: seq<Mutation>)
    requires Torn([], a + b, ms)
    ensures Torn([], a, ms) || (a <= ms && Torn([], b, ms[|a|..]))
  {
    var k: nat :| k <= |a + b| && TornAt([], a + b, k, ms);
    if k < |a| || (k == |a| && ms == [] + (a + b)[..k]) {
      assert (a + b)[..k] == a[..k];
      assert TornAt([], a, k, ms);
    } else {
      var j := k - |a|;
      assert (a + b)[..k] == a + b[..j];
      if ms == [] + (a + b)[..k] {
        assert ms[|a|..] == [] + b[..j];
      } else {
        assert ms[..|ms| - 1] == a + b[..j] && (a + b)[k] == b[j];
        assert ms[|a|..][..j] == ms[..|ms| - 1][|a|..] == [] + b[..j];
      }
      assert a <= ms && TornAt([], b, j, ms[|a|..]);
    }
  }

  lemma {:induction false} PlanStops(p: Chip, c: Cells, mem: seq<byte>, target: seq<byte>, all: bool, s: nat,
      last: nat, ms: seq<Mutation>)
      returns (t: nat)
    requires Tiled(p) && s <= last && Start(p, last) <= |mem| == |target| && Start(p, s) <= |mem|
    requires c.mem == Front(mem, target, Start(p, s))
    requires Torn([], Plan(p, mem, target, all, s, last), ms)
    ensures s <= t <= last && StoppedIn(p, c, mem, target, t, last, ms)
    decreases last - s
  {
    if s == last {
      t := s;
    } else {
      StartGrows(p, s, last);
      var step, rest := SectorStep(p, mem, target, all, s), Plan(p, mem, target, all, s + 1, last);
      TornSplits(step, rest, ms);
      if Torn([], step, ms) {
        t := s;
        StoppedHere(p, c, mem, target, all, s, last, ms);
      } else {
        WholeIsTorn(step);
        StepReaches(p, c, mem, target, all, s);
        t := PlanStops(p, Replay(p, c, step), mem, target, all, s + 1, last, ms[|step|..]);
        StoppedLater(p, c, mem, target, t, last, step, ms);
      }
    }
  }

  lemma WholeIsTorn(plan: seq<Mutation>)
    ensures Torn([], plan, plan)
  {
    assert TornAt([], plan, |plan|, plan);
  }

  lemma StoppedHere(p: Chip, c: Cells, mem: seq<byte>, target: seq<byte>, all: bool, s: nat, last: nat,
      ms: seq<Mutation>)
    requires Tiled(p) && s < last && Start(p, s + 1) <= |mem| == |target|
    requires c.mem == Front(mem, target, Start(p, s))
    requires Torn([], SectorStep(p, mem, target, all, s), ms)
    ensures StoppedIn(p, c, mem, target, s, last, ms)
  {
    StepConfined(p, mem, target, all, s);
    TornConfined(p, SectorStep(p, mem, target, all, s), ms, Start(p, s), Start(p, s + 1));
    ReplayConfined(p, c, ms, Start(p, s), Start(p, s + 1));
  }

  lemma StoppedLater(p: Chip, c: Cells, mem: seq<byte>, target: seq<byte>, t: nat, last: nat,
      step: seq<Mutation>, ms: seq<Mutation>)
    requires |mem| == |target| == |c.mem| && step <= ms && ms != step
    requires Replay(p, c, step).nvcr == c.nvcr
    requires StoppedIn(p, Replay(p, c, step), mem, target, t, last, ms[|step|..])
    ensures StoppedIn(p, c, mem, target, t, last, ms)
  {
    assert ms == step + ms[|step|..];
    ReplayConcat(p, c, step, ms[|step|..]);
  }

  // The plan of a whole run, on the device itself

  lemma TornRebased(before: seq<Mutation>, plan: seq<Mutation>, after: seq<Mutation>)
    requires Torn(before, plan, after)
    ensures before <= after && Torn([], plan, after[|before|..])
  {
    var k: nat :| k <= |plan| && TornAt(before, plan, k, after);
    var ms := after[|before|..];
    if after != before + plan[..k] {
      var whole := after[..|after| - 1];
      assert whole == before + plan[..k];
      assert after == whole + [after[|after| - 1]];
      assert ms == plan[..k] + [after[|after| - 1]];
      assert ms[..|ms| - 1] == [] + plan[..k];
    }
    assert TornAt([], plan, k, ms);
  }

  /** Nothing is done at the first covered sector, which the image does not reach below. */
  lemma FrontAtStart(p: Chip, mem: seq<byte>, image: seq<byte>, offset: nat)
    requires Fits(p, mem, image, offset)
    ensures Start(p, FirstSector(p, offset)) <= |mem|
    ensures Front(mem, Target(mem, image, offset), Start(p, FirstSector(p, offset))) == mem
  {
    CoveredSectors(p, mem, image, offset);
  }

  lemma BetweenElsewhere(mem: seq<byte>, target: seq<byte>, from: nat, to: nat, m: seq<byte>, n: seq<byte>)
    requires |mem| == |target| && Between(mem, target, from, to, m) && |n| == |m|
    requires forall i :: 0 <= i < |m| && !(from <= i < to) ==> n[i] == m[i]
    requires from <= to
    ensures Between(mem, target, from, to, n)
  {
  }

  /**
   Wherever a run stops (an error, a timeout, a command cut short, or still busy), the array is the
   target below one sector, the original above it, and the rest of the device is as before.
   */
  lemma StoppedAnywhere(f: Nor, image: seq<byte>, offset: nat, all: bool, g: Nor) returns (t: nat)
    requires Coherent(f) && f.phase.Ready? && Fits(f.profile, f.cells.mem, image, offset)
    requires Interrupted(f, ImagePlan(f.profile, f.cells.mem, image, offset, all), g)
    ensures FirstSector(f.profile, offset) <= t <= LastSector(f.profile, offset, |image|)
    ensures Between(f.cells.mem, Target(f.cells.mem, image, offset), Start(f.profile, t),
                    WorkEnd(f.profile, t, LastSector(f.profile, offset, |image|)), g.cells.mem)
    ensures g.cells.nvcr == f.cells.nvcr && g.refused == f.refused
    ensures g.log != f.log ==> g.log != []
    ensures g.log != f.log ==>
      Confined(f.profile, g.log[|g.log| - 1], Start(f.profile, t),
               WorkEnd(f.profile, t, LastSector(f.profile, offset, |image|)))
  {
    hide Torn, Coherent, Replay, Plan, Confined, Front, Target, Between, Geometry, FirstSector, LastSector;
    var p, mem, target := f.profile, f.cells.mem, Target(f.cells.mem, image, offset);
    var first, last := FirstSector(p, offset), LastSector(p, offset, |image|);
    CoveredSectors(p, mem, image, offset);
    TornRebased(f.log, ImagePlan(p, mem, image, offset, all), g.log);
    var ms := g.log[|f.log|..];
    FrontAtStart(p, mem, image, offset);
    t := PlanStops(p, f.cells, mem, target, all, first, last, ms);
    StoppedCells(f, g, ms, Start(p, t), WorkEnd(p, t, last));
    BetweenElsewhere(mem, target, Start(p, t), WorkEnd(p, t, last), Replay(p, f.cells, ms).mem, g.cells.mem);
  }

  /** Position `i` is in the area at work, and the image does not cover it. */
  predicate Exposed(i: nat, from: nat, to: nat, offset: nat, size: nat) {
    from <= i < to && !(offset <= i < offset + size)
  }

  /**
   A complete second run after a stop restores everything except what the sector at work, between `from`
   and `to`, lost beside the image: the result is the first run's target exactly if nothing was lost there.
   */
  lemma RerunRestores(mem: seq<byte>, stopped: seq<byte>, image: seq<byte>, offset: nat, from: nat, to: nat)
    requires offset + |image| <= |mem| && Between(mem, Target(mem, image, offset), from, to, stopped)
    ensures forall i :: 0 <= i < |mem| && Exposed(i, from, to, offset, |image|) ==>
      Target(stopped, image, offset)[i] == stopped[i]
    ensures forall i :: 0 <= i < |mem| && !Exposed(i, from, to, offset, |image|) ==>
      Target(stopped, image, offset)[i] == Target(mem, image, offset)[i]
    ensures Target(stopped, image, offset) == Target(mem, image, offset) <==>
      (forall i :: 0 <= i < |mem| && Exposed(i, from, to, offset, |image|) ==> stopped[i] == mem[i])
  {
    var l, r := Target(stopped, image, offset), Target(mem, image, offset);
    if forall i :: 0 <= i < |mem| && Exposed(i, from, to, offset, |image|) ==> stopped[i] == mem[i] {
      forall i | 0 <= i < |mem|
        ensures l[i] == r[i]
      {
      }
    }
    if l == r {
      forall i | 0 <= i < |mem| && Exposed(i, from, to, offset, |image|)
        ensures stopped[i] == mem[i]
      {
        assert l[i] == r[i];
      }
    }
  }

  /** The cells of a device are those of its log, up to the area of the last mutation. */
  lemma StoppedCells(f: Nor, g: Nor, ms: seq<Mutation>, from: nat, to: nat)
    requires Coherent(f) && f.phase.Ready? && Coherent(g) && g.profile == f.profile && g.origin == f.origin
    requires g.log == f.log + ms && (ms == [] ==> g.cells == f.cells)
    requires ms != [] ==> Confined(f.profile, ms[|ms| - 1], from, to)
    ensures var r := Replay(f.profile, f.cells, ms);
      && |g.cells.mem| == |r.mem| && g.cells.nvcr == r.nvcr
      && forall i :: 0 <= i < |r.mem| && !(from <= i < to) ==> g.cells.mem[i] == r.mem[i]
  {
    assert Explains(f, Replay(f.profile, f.origin, f.log));
    assert Explains(g, Replay(f.profile, f.origin, g.log));
    ReplayConcat(f.profile, f.origin, f.log, ms);
    if ms != [] {
      assert g.log[|g.log| - 1] == ms[|ms| - 1];
    }
  }

  /** Every command of the plan stays in the covered sectors, and these in the accessible array. */
  lemma {:induction false} PlanConfined(p: Chip, mem: seq<byte>, target: seq<byte>, all: bool, s: nat, last: nat)
    requires Tiled(p) && Start(p, last) <= |mem| == |target|
    ensures AllConfined(p, Plan(p, mem, target, all, s, last), Start(p, s), Start(p, last))
    decreases last - s
  {
    if s < last {
      StartGrows(p, s, last);
      StepConfined(p, mem, target, all, s);
      PlanConfined(p, mem, target, all, s + 1, last);
      forall m | m in SectorStep(p, mem, target, all, s)
        ensures Confined(p, m, Start(p, s), Start(p, last))
      {
        assert Confined(p, m, Start(p, s), Start(p, s + 1));
      }
    }
  }

  lemma ImagePlanConfined(p: Chip, mem: seq<byte>, image: seq<byte>, offset: nat, all: bool)
    requires Fits(p, mem, image, offset)
    ensures var first, last := FirstSector(p, offset), LastSector(p, offset, |image|);
      && AllConfined(p, ImagePlan(p, mem, image, offset, all), Start(p, first), Start(p, last))
      && Start(p, last) <= Accessible(p)
  {
    CoveredSectors(p, mem, image, offset);
    PlanConfined(p, mem, Target(mem, image, offset), all, FirstSector(p, offset), LastSector(p, offset, |image|));
  }

  // ---------------------------------------------------------------------------------------------
  // How much work a plan is

  function Erased(ms: seq<Mutation>): seq<nat> {
    if ms == [] then []
    else (if ms[0].Erase? then [ms[0].address] else []) + Erased(ms[1..])
  }

  lemma {:induction false} ErasedConcat(a: seq<Mutation>, b: seq<Mutation>)
    ensures Erased(a + b) == Erased(a) + Erased(b)
  {
    if a == [] {
      assert a + b == b;
    } else {
      var both := a + b;
      assert both[1..] == a[1..] + b && both[0] == a[0];
      ErasedConcat(a[1..], b);
    }
  }

  lemma {:induction false} ErasedNone(ms: seq<Mutation>)
    requires forall m :: m in ms ==> m.Program?
    ensures Erased(ms) == []
  {
    if ms != [] {
      assert ms[0] in ms;
      ErasedNone(ms[1..]);
    }
  }

  lemma StepErases(p: Chip, mem: seq<byte>, target: seq<byte>, all: bool, s: nat)
    requires Tiled(p) && Start(p, s + 1) <= |mem| == |target|
    ensures Erased(SectorStep(p, mem, target, all, s)) == if Rewrites(p, mem, target, all, s) then [Start(p, s)] else []
  {
    if Rewrites(p, mem, target, all, s) {
      StartOnPage(p, s);
      StartOnPage(p, s + 1);
      var pages := PagesPlan(p, Start(p, s), Sector(p, target, s), 0);
      PagesConfined(p, Start(p, s), Sector(p, target, s), 0);
      ErasedNone(pages);
      ErasedConcat([Erase(Start(p, s))], pages);
    }
  }

  /** The erased sectors, in order: each one that needs rewriting, once, and no other. */
  lemma ErasesExactly(p: Chip, mem: seq<byte>, target: seq<byte>, all: bool, s: nat, last: nat)
    requires Tiled(p) && Start(p, last) <= |mem| == |target|
    ensures var erased := Erased(Plan(p, mem, target, all, s, last));
      && (forall i, j :: 0 <= i < j < |erased| ==> erased[i] < erased[j])
      && (forall a :: a in erased <==> exists t :: s <= t < last && NeedsErase(p, mem, target, all, t, a))
  {
    ErasesInOrder(p, mem, target, all, s, last);
    var erased := Erased(Plan(p, mem, target, all, s, last));
    forall a
      ensures a in erased <==> exists t :: s <= t < last && NeedsErase(p, mem, target, all, t, a)
    {
      if a in erased {
        var t := ErasedNeeds(p, mem, target, all, s, last, a);
      }
      if t :| s <= t < last && NeedsErase(p, mem, target, all, t, a) {
        NeededErased(p, mem, target, all, s, last, t);
      }
    }
  }

  /** In rising order, and none below `from`. */
  ghost predicate Rising(erased: seq<nat>, from: nat) {
    && (forall i :: 0 <= i < |erased| ==> from <= erased[i])
    && (forall i, j :: 0 <= i < j < |erased| ==> erased[i] < erased[j])
  }

  lemma RisingFrom(first: nat, later: seq<nat>, next: nat)
    requires first < next && Rising(later, next)
    ensures Rising(later, first) && Rising([first] + later, first)
  {
  }

  lemma {:induction false} ErasesInOrder(p: Chip, mem: seq<byte>, target: seq<byte>, all: bool, s: nat, last: nat)
    requires Tiled(p) && Start(p, last) <= |mem| == |target|
    ensures Rising(Erased(Plan(p, mem, target, all, s, last)), Start(p, s))
    decreases last - s
  {
    if s < last {
      hide Rising, Erased, Rewrites, Plan, Tiled;
      StartGrows(p, s, last);
      PlanErases(p, mem, target, all, s, last);
      ErasesInOrder(p, mem, target, all, s + 1, last);
      var later := Erased(Plan(p, mem, target, all, s + 1, last));
      RisingFrom(Start(p, s), later, Start(p, s + 1));
      assert [] + later == later;
    }
  }

  lemma PlanErases(p: Chip, mem: seq<byte>, target: seq<byte>, all: bool, s: nat, last: nat)
    requires Tiled(p) && s < last && Start(p, s + 1) <= Start(p, last) <= |mem| == |target|
    ensures Erased(Plan(p, mem, target, all, s, last))
         == (if Rewrites(p, mem, target, all, s) then [Start(p, s)] else [])
            + Erased(Plan(p, mem, target, all, s + 1, last))
  {
    StepErases(p, mem, target, all, s);
    ErasedConcat(SectorStep(p, mem, target, all, s), Plan(p, mem, target, all, s + 1, last));
  }

  lemma {:induction false} ErasedNeeds(p: Chip, mem: seq<byte>, target: seq<byte>, all: bool, s: nat, last: nat, a: nat)
      returns (t: nat)
    requires Tiled(p) && Start(p, last) <= |mem| == |target|
    requires a in Erased(Plan(p, mem, target, all, s, last))
    ensures s <= t < last && NeedsErase(p, mem, target, all, t, a)
    decreases last - s
  {
    StartGrows(p, s, last);
    PlanErases(p, mem, target, all, s, last);
    if a == Start(p, s) && Rewrites(p, mem, target, all, s) {
      t := s;
    } else {
      t := ErasedNeeds(p, mem, target, all, s + 1, last, a);
    }
  }

  lemma {:induction false} NeededErased(p: Chip, mem: seq<byte>, target: seq<byte>, all: bool, s: nat,
      last: nat, t: nat)
    requires Tiled(p) && Start(p, last) <= |mem| == |target| && s <= t < last
    requires Start(p, t + 1) <= |mem| && Rewrites(p, mem, target, all, t)
    ensures Start(p, t) in Erased(Plan(p, mem, target, all, s, last))
    decreases last - s
  {
    StartGrows(p, s, last);
    PlanErases(p, mem, target, all, s, last);
    var rest := Erased(Plan(p, mem, target, all, s + 1, last));
    if s < t {
      NeededErased(p, mem, target, all, s + 1, last, t);
    } else {
      assert ([Start(p, s)] + rest)[0] == Start(p, s);
    }
  }

  /** Sector `t` begins at `a`, lies in the array, and has to be rewritten. */
  ghost predicate NeedsErase(p: Chip, mem: seq<byte>, target: seq<byte>, all: bool, t: nat, a: nat)
    requires |mem| == |target|
  {
    a == Start(p, t) && Start(p, t + 1) <= |mem| && Rewrites(p, mem, target, all, t)
  }

  /** With the image already in place, a run without `rewrite_all` does nothing. */
  lemma SecondRunIsEmpty(p: Chip, mem: seq<byte>, image: seq<byte>, offset: nat)
    requires Fits(p, mem, image, offset)
    ensures ImagePlan(p, Target(mem, image, offset), image, offset, false) == []
  {
    var done := Target(mem, image, offset);
    assert Target(done, image, offset) == done;
    CoveredSectors(p, done, image, offset);
    NothingToDo(p, done, FirstSector(p, offset), LastSector(p, offset, |image|));
  }

  lemma {:induction false} NothingToDo(p: Chip, mem: seq<byte>, s: nat, last: nat)
    requires Start(p, last) <= |mem|
    ensures Plan(p, mem, mem, false, s, last) == []
    decreases last - s
  {
    if s < last {
      StartGrows(p, s, last);
      NothingToDo(p, mem, s + 1, last);
    }
  }

  /** A page takes two commands: what the FIFO holds beside the header, and the rest. */
  lemma TwoCommandsPerPage(p: Chip, address: nat, data: seq<byte>)
    requires p.pageSize <= 2 * MaximumData(p)
    requires address % p.pageSize == 0 && |data| == p.pageSize
    ensures |Chunks(p, address, data)| == 2
  {
    var n := MaximumData(p);
    var rest := data[n..];
    assert Base(address, p.pageSize) == address;
    BlockOffset(address, p.pageSize, n);
    assert ChunkSize(p, address, |data|) == n;
    assert ChunkSize(p, address + n, |rest|) == |rest|;
    assert Chunks(p, address + n + |rest|, rest[|rest|..]) == [];
    assert |Chunks(p, address + n, rest)| == 1;
  }

  function NonBlankPages(p: Chip, desired: seq<byte>, page: nat): nat
    requires page <= |desired|
    decreases |desired| - page
  {
    if page == |desired| then 0 else
      var end := PageEnd(p, |desired|, page);
      (if IsBlank(desired[page..end]) then 0 else 1) + NonBlankPages(p, desired, end)
  }

  /** A rewritten sector costs one erase and two program commands for each page that is not blank. */
  lemma SectorCost(p: Chip, base: nat, desired: seq<byte>)
    requires p.pageSize <= 2 * MaximumData(p)
    requires base % p.pageSize == 0 && |desired| % p.pageSize == 0
    ensures |SectorPlan(p, base, desired)| == 1 + 2 * NonBlankPages(p, desired, 0)
  {
    SmallRemainder(0, p.pageSize);
    PagesCost(p, base, desired, 0);
  }

  lemma {:induction false} PagesCost(p: Chip, base: nat, desired: seq<byte>, page: nat)
    requires p.pageSize <= 2 * MaximumData(p) && page <= |desired|
    requires base % p.pageSize == 0 && |desired| % p.pageSize == 0 && page % p.pageSize == 0
    ensures |PagesPlan(p, base, desired, page)| == 2 * NonBlankPages(p, desired, page)
    decreases |desired| - page
  {
    hide PagePlan, IsBlank, MaximumData, Geometry;
    if page < |desired| {
      var end := PageEnd(p, |desired|, page);
      WholePage(p, page, |desired|);
      PageCost(p, base, desired, page, end);
      PagesCost(p, base, desired, end);
    }
  }

  lemma PageCost(p: Chip, base: nat, desired: seq<byte>, page: nat, end: nat)
    requires p.pageSize <= 2 * MaximumData(p) && end == page + p.pageSize <= |desired|
    requires base % p.pageSize == 0 && page % p.pageSize == 0
    ensures |PagePlan(p, base + page, desired[page..end])| == if IsBlank(desired[page..end]) then 0 else 2
  {
    SumOfMultiples(base, page, p.pageSize);
    if !IsBlank(desired[page..end]) {
      TwoCommandsPerPage(p, base + page, desired[page..end]);
    }
  }

  lemma WholePage(p: Chip, page: nat, size: nat)
    requires page < size && page % p.pageSize == 0 && size % p.pageSize == 0
    ensures PageEnd(p, size, page) == page + p.pageSize && (page + p.pageSize) % p.pageSize == 0
  {
    BlockInside(page, page, size, p.pageSize);
    MultipleStep(1, p.pageSize);
    SumOfMultiples(page, p.pageSize, p.pageSize);
  }
}
