/**
 The whole of programAndVerify as one sequence of mutations: which sectors it rewrites, what it
 does to each, and what the array holds at the end and at every instant in between.
 */
module SectorPlans {
  import opened Bytes
  import opened NorFlash
  import opened ProgramPlan

  // ---------------------------------------------------------------------------------------------
  // One sector

  predicate BlankBetween(mem: seq<byte>, from: nat, to: nat)
    requires from <= to <= |mem|
  {
    forall i :: from <= i < to ==> mem[i] == 0xff
  }

  predicate IsBlank(data: seq<byte>) {
    BlankBetween(data, 0, |data|)
  }

  /** Program the pages of `desired` from offset `page` on, except those that are all 0xff. */
  function PagesPlan(p: Chip, base: nat, desired: seq<byte>, page: nat): seq<Mutation>
    requires page <= |desired|
    decreases |desired| - page
  {
    if page == |desired| then [] else
      PagePlan(p, base + page, desired[page..PageEnd(p, |desired|, page)])
      + PagesPlan(p, base, desired, PageEnd(p, |desired|, page))
  }

  function PageEnd(p: Chip, size: nat, page: nat): (end: nat)
    requires page < size
    ensures page < end <= size && end <= page + p.pageSize
  {
    Min(size, page + p.pageSize)
  }

  function PagePlan(p: Chip, address: nat, data: seq<byte>): seq<Mutation>
  {
    if IsBlank(data) then [] else Chunks(p, address, data)
  }

  function SectorPlan(p: Chip, base: nat, desired: seq<byte>): seq<Mutation>
  {
    [Erase(base)] + PagesPlan(p, base, desired, 0)
  }

  /** `d` is `c` with the cells of `from .. to` taken from `desired`, which starts at `base`. */
  ghost predicate Wrote(c: Cells, base: nat, desired: seq<byte>, from: nat, to: nat, d: Cells)
    requires base <= from <= to <= base + |desired| <= |c.mem|
  {
    && d.nvcr == c.nvcr && |d.mem| == |c.mem|
    && forall i :: 0 <= i < |c.mem| ==> d.mem[i] == if from <= i < to then desired[i - base] else c.mem[i]
  }

  lemma {:induction false} PagesReach(p: Chip, c: Cells, base: nat, desired: seq<byte>, page: nat)
    requires page <= |desired| && base + |desired| <= |c.mem|
    requires BlankBetween(c.mem, base + page, base + |desired|)
    ensures Wrote(c, base, desired, base + page, base + |desired|, Replay(p, c, PagesPlan(p, base, desired, page)))
    decreases |desired| - page
  {
    if page < |desired| {
      var end := PageEnd(p, |desired|, page);
      var head, tail := PagePlan(p, base + page, desired[page..end]), PagesPlan(p, base, desired, end);
      PageReaches(p, c, base, desired, page, end);
      PagesReach(p, Replay(p, c, head), base, desired, end);
      ReplayConcat(p, c, head, tail);
    }
  }

  lemma PageReaches(p: Chip, c: Cells, base: nat, desired: seq<byte>, page: nat, end: nat)
    requires page <= end <= |desired| && base + |desired| <= |c.mem|
    requires BlankBetween(c.mem, base + page, base + end)
    ensures Wrote(c, base, desired, base + page, base + end, Replay(p, c, PagePlan(p, base + page, desired[page..end])))
  {
    hide Chunks, Paste;
    var data := desired[page..end];
    if IsBlank(data) {
      forall i | base + page <= i < base + end
        ensures c.mem[i] == desired[i - base]
      {
        assert data[i - base - page] == desired[i - base];
      }
    } else {
      ChunksOnBlank(p, c, base + page, data);
    }
  }

  /** Erasing a sector and programming what is not blank leaves exactly `desired` in it. */
  lemma SectorReaches(p: Chip, c: Cells, base: nat, desired: seq<byte>)
    requires base % p.eraseSize == 0
    requires |desired| == p.eraseSize && base + p.eraseSize <= |c.mem|
    ensures Replay(p, c, SectorPlan(p, base, desired)) == c.(mem := Paste(c.mem, base, desired))
  {
    var d := Apply(p, c, Erase(base));
    ReplayFirst(p, c, Erase(base), PagesPlan(p, base, desired, 0));
    PagesReach(p, d, base, desired, 0);
    assert Replay(p, d, PagesPlan(p, base, desired, 0)).mem == Paste(c.mem, base, desired);
  }

  // ---------------------------------------------------------------------------------------------
  // The whole image

  /** The geometry of one run: the image fits the accessible array, and sectors tile it. */
  predicate Fits(p: Chip, mem: seq<byte>, image: seq<byte>, offset: nat) {
    && Tiled(p)
    && offset + |image| <= Accessible(p) <= |mem|
  }

  function Target(mem: seq<byte>, image: seq<byte>, offset: nat): (r: seq<byte>)
    requires offset + |image| <= |mem|
    ensures |r| == |mem|
  {
    Paste(mem, offset, image)
  }

  /** Where sector `s` begins; `StartIs` says that this is a multiplication. */
  function Start(p: Chip, s: nat): nat {
    if s == 0 then 0 else Start(p, s - 1) + p.eraseSize
  }

  lemma {:induction false} StartIs(p: Chip, s: nat)
    ensures Start(p, s) == s * p.eraseSize && Start(p, s) % p.eraseSize == 0
  {
    MultipleStep(s, p.eraseSize);
    if s > 0 {
      StartIs(p, s - 1);
      MultipleStep(s - 1, p.eraseSize);
    }
  }

  lemma {:induction false} StartGrows(p: Chip, s: nat, t: nat)
    requires s < t
    ensures Start(p, s + 1) <= Start(p, t)
    decreases t
  {
    if s + 1 < t {
      StartGrows(p, s, t - 1);
    }
  }

  function FirstSector(p: Chip, offset: nat): nat
  {
    offset / p.eraseSize
  }

  function LastSector(p: Chip, offset: nat, size: nat): nat
  {
    (offset + size + p.eraseSize - 1) / p.eraseSize
  }

  /** The covered sectors lie in the accessible array and enclose the image. */
  lemma CoveredSectors(p: Chip, mem: seq<byte>, image: seq<byte>, offset: nat)
    requires Fits(p, mem, image, offset)
    ensures var first, last := FirstSector(p, offset), LastSector(p, offset, |image|);
      && first <= last
      && Start(p, first) <= offset < Start(p, first + 1)
      && offset + |image| <= Start(p, last) < offset + |image| + p.eraseSize
      && Start(p, last) <= Accessible(p)
  {
    var es, first, last := p.eraseSize, FirstSector(p, offset), LastSector(p, offset, |image|);
    StartIs(p, first);
    StartIs(p, last);
    RoundDown(offset, es);
    RoundUp(offset + |image|, es);
    MultipleBelow(first, last, es);
    AtMostMultiple(last, offset + |image|, Accessible(p), es);
  }

  /** Rounding up never passes a multiple that was not passed before. */
  lemma AtMostMultiple(q: nat, n: nat, limit: nat, d: nat)
    requires 0 < d && limit % d == 0 && n <= limit && q * d < n + d
    ensures q * d <= limit
  {
    RoundDown(limit, d);
    MultipleBelow(q, limit / d, d);
    MultipleUpTo(q, limit / d, d);
  }

  /** Sector `s` of an array whose first `last` sectors are in range. */
  function Sector(p: Chip, mem: seq<byte>, s: nat): (r: seq<byte>)
    requires Start(p, s + 1) <= |mem|
    ensures |r| == p.eraseSize
  {
    mem[Start(p, s)..Start(p, s + 1)]
  }

  predicate Rewrites(p: Chip, mem: seq<byte>, target: seq<byte>, all: bool, s: nat)
    requires Start(p, s + 1) <= |mem| == |target|
  {
    all || Sector(p, mem, s) != Sector(p, target, s)
  }

  /** What is done for sectors `s .. last`, going upwards. */
  function Plan(p: Chip, mem: seq<byte>, target: seq<byte>, all: bool, s: nat, last: nat): seq<Mutation>
    requires Start(p, last) <= |mem| == |target|
    decreases last - s
  {
    if s >= last then [] else
      StartGrows(p, s, last);
      SectorStep(p, mem, target, all, s) + Plan(p, mem, target, all, s + 1, last)
  }

  function SectorStep(p: Chip, mem: seq<byte>, target: seq<byte>, all: bool, s: nat): seq<Mutation>
    requires Start(p, s + 1) <= |mem| == |target|
  {
    if Rewrites(p, mem, target, all, s) then SectorPlan(p, Start(p, s), Sector(p, target, s)) else []
  }

  /** `target` below `k` and the original from `k` on. */
  function Front(mem: seq<byte>, target: seq<byte>, k: nat): (r: seq<byte>)
    requires k <= |mem| == |target|
    ensures |r| == |mem|
  {
    target[..k] + mem[k..]
  }

  lemma StepReaches(p: Chip, c: Cells, mem: seq<byte>, target: seq<byte>, all: bool, s: nat)
    requires Start(p, s + 1) <= |mem| == |target|
    requires c.mem == Front(mem, target, Start(p, s))
    ensures Replay(p, c, SectorStep(p, mem, target, all, s))
         == c.(mem := Front(mem, target, Start(p, s + 1)))
  {
    if Rewrites(p, mem, target, all, s) {
      StartIs(p, s);
      SectorReaches(p, c, Start(p, s), Sector(p, target, s));
      FrontGrows(mem, target, Start(p, s), Start(p, s + 1));
    } else {
      FrontUnchanged(mem, target, Start(p, s), Start(p, s + 1));
    }
  }

  lemma FrontGrows(mem: seq<byte>, target: seq<byte>, base: nat, end: nat)
    requires base <= end <= |mem| == |target|
    ensures Paste(Front(mem, target, base), base, target[base..end]) == Front(mem, target, end)
  {
  }

  lemma FrontUnchanged(mem: seq<byte>, target: seq<byte>, base: nat, end: nat)
    requires base <= end <= |mem| == |target| && mem[base..end] == target[base..end]
    ensures Front(mem, target, base) == Front(mem, target, end)
  {
    assert mem[base..] == mem[base..end] + mem[end..];
    assert target[..end] == target[..base] + target[base..end];
  }

  lemma {:induction false} PlanReaches(p: Chip, c: Cells, mem: seq<byte>, target: seq<byte>, all: bool,
      s: nat, last: nat)
    requires s <= last && Start(p, last) <= |mem| == |target|
    requires Start(p, s) <= |mem| && c.mem == Front(mem, target, Start(p, s))
    ensures Replay(p, c, Plan(p, mem, target, all, s, last)) == c.(mem := Front(mem, target, Start(p, last)))
    decreases last - s
  {
    if s < last {
      StartGrows(p, s, last);
      var d := c.(mem := Front(mem, target, Start(p, s + 1)));
      StepReaches(p, c, mem, target, all, s);
      ReplayConcat(p, c, SectorStep(p, mem, target, all, s), Plan(p, mem, target, all, s + 1, last));
      PlanReaches(p, d, mem, target, all, s + 1, last);
    }
  }

  /** The plan of one call of programAndVerify. */
  function ImagePlan(p: Chip, mem: seq<byte>, image: seq<byte>, offset: nat, all: bool): seq<Mutation>
    requires Fits(p, mem, image, offset)
  {
    CoveredSectors(p, mem, image, offset);
    Plan(p, mem, Target(mem, image, offset), all, FirstSector(p, offset), LastSector(p, offset, |image|))
  }

  /** Carried out in full, the plan splices the image into the array and changes nothing else. */
  lemma ImagePlanSplices(p: Chip, c: Cells, image: seq<byte>, offset: nat, all: bool)
    requires Fits(p, c.mem, image, offset)
    ensures Replay(p, c, ImagePlan(p, c.mem, image, offset, all)) == c.(mem := Paste(c.mem, offset, image))
  {
    var mem, target := c.mem, Target(c.mem, image, offset);
    var first, last := FirstSector(p, offset), LastSector(p, offset, |image|);
    CoveredSectors(p, mem, image, offset);
    assert Front(mem, target, Start(p, first)) == mem;
    assert Front(mem, target, Start(p, last)) == target;
    PlanReaches(p, c, mem, target, all, first, last);
  }
}
