/**
 From the end of a run to every instant of it: each state the device goes through is as good a place
 to stop as the one where the run ended. The register window records these states.
 */
module EveryInstant {
  import opened NorFlash
  import opened FlashHistory
  import opened Outcome
  import opened SectorPlans
  import opened PlanProperties

  /** A log that lies on the way to one that followed the plan has followed it too. */
  lemma TornEarlier(before: seq<Mutation>, plan: seq<Mutation>, mid: seq<Mutation>, after: seq<Mutation>)
    requires Torn(before, plan, after) && before <= mid <= after
    ensures Torn(before, plan, mid)
  {
    if mid != after {
      var k: nat :| k <= |plan| && TornAt(before, plan, k, after);
      var n := |mid| - |before|;
      assert mid == after[..|mid|] == before + plan[..n];
      assert TornAt(before, plan, n, mid);
    }
  }

  /** When a run ends somewhere in its plan, it was somewhere in its plan all along. */
  lemma InterruptedThroughout(states: seq<Nor>, plan: seq<Mutation>, i: nat)
    requires History(states) && i < |states|
    requires Coherent(states[0]) && states[0].phase.Ready?
    requires Interrupted(states[0], plan, states[|states| - 1])
    ensures Interrupted(states[0], plan, states[i])
  {
    HistoryLater(states, 0, i);
    HistoryLater(states, i, |states| - 1);
    TornEarlier(states[0].log, plan, states[i].log, states[|states| - 1].log);
  }

  /** `h` is the target below sector `t` and `f` above it, and no command was dropped on the way. */
  ghost predicate StoppedAt(f: Nor, image: seq<bv8>, offset: nat, h: Nor, t: nat)
    requires Fits(f.profile, f.cells.mem, image, offset)
  {
    && FirstSector(f.profile, offset) <= t <= LastSector(f.profile, offset, |image|)
    && Between(f.cells.mem, Target(f.cells.mem, image, offset), Start(f.profile, t),
               WorkEnd(f.profile, t, LastSector(f.profile, offset, |image|)), h.cells.mem)
    && h.cells.nvcr == f.cells.nvcr && h.refused == f.refused
  }

  /**
   Cut the power at any instant of programAndVerify: below one sector the array is the target, above
   it the original, and up to then no command was dropped.
   */
  lemma SafeAtEveryInstant(states: seq<Nor>, i: nat, image: seq<bv8>, offset: nat, all: bool) returns (t: nat)
    requires History(states) && i < |states|
    requires Coherent(states[0]) && states[0].phase.Ready?
    requires Fits(states[0].profile, states[0].cells.mem, image, offset)
    requires Interrupted(states[0], ImagePlan(states[0].profile, states[0].cells.mem, image, offset, all),
                         states[|states| - 1])
    ensures StoppedAt(states[0], image, offset, states[i], t)
  {
    InterruptedThroughout(states, ImagePlan(states[0].profile, states[0].cells.mem, image, offset, all), i);
    t := StoppedAnywhere(states[0], image, offset, all, states[i]);
  }

  ghost predicate SafeToStop(f: Nor, image: seq<bv8>, offset: nat, h: Nor)
    requires Fits(f.profile, f.cells.mem, image, offset)
  {
    exists t :: StoppedAt(f, image, offset, h, t)
  }

  ghost predicate SafeThroughout(f: Nor, image: seq<bv8>, offset: nat, states: seq<Nor>)
    requires Fits(f.profile, f.cells.mem, image, offset)
  {
    forall h :: h in states ==> SafeToStop(f, image, offset, h)
  }

  /** The recorded states of a run that ended somewhere in the plan are all safe. */
  lemma RunIsSafe(past: seq<Nor>, f: Nor, states: seq<Nor>, g: Nor, image: seq<bv8>, offset: nat, all: bool)
    requires EndsAt(past, f) && EndsAt(states, g) && Extends(past, states)
    requires Coherent(f) && f.phase.Ready? && Fits(f.profile, f.cells.mem, image, offset)
    requires Interrupted(f, ImagePlan(f.profile, f.cells.mem, image, offset, all), g)
    ensures SafeThroughout(f, image, offset, Since(past, states))
  {
    assert past != [];
    hide Coherent, Interrupted, ImagePlan, History, StoppedAt, Conforming, Extends, Geometry, Fits, Since;
    RunSince(past, f, states, g);
    var run := Since(past, states);
    forall h | h in run
      ensures SafeToStop(f, image, offset, h)
    {
      var i: nat :| i < |run| && run[i] == h;
      var t := SafeAtEveryInstant(run, i, image, offset, all);
    }
  }
}
