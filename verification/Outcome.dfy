/**
 How far a device got with a planned sequence of mutations: all of it, or some first part of it
 with the last step possibly shortened.
 */
module Outcome {
  import opened Results
  import opened NorFlash

  /** The device carried out exactly `plan` and is ready again. */
  ghost predicate Did(f: Nor, plan: seq<Mutation>, g: Nor)
  {
    g == f.(cells := Replay(f.profile, f.cells, plan), log := f.log + plan, wel := f.wel && plan == [])
  }

  /** A transfer that is cut short may shorten the data of a page program. */
  predicate Truncates(m: Mutation, t: Mutation) {
    || t == m
    || (m.Program? && t.Program? && t.address == m.address && t.data != [] && t.data <= m.data)
  }

  ghost predicate TornAt(before: seq<Mutation>, plan: seq<Mutation>, k: nat, after: seq<Mutation>)
    requires k <= |plan|
  {
    || after == before + plan[..k]
    || (&& k < |plan|
        && |after| == |before| + k + 1
        && after[..|after| - 1] == before + plan[..k]
        && Truncates(plan[k], after[|after| - 1]))
  }

  /** The log grew by the first steps of `plan`, the last of them possibly truncated. */
  ghost predicate Torn(before: seq<Mutation>, plan: seq<Mutation>, after: seq<Mutation>) {
    exists k :: 0 <= k <= |plan| && TornAt(before, plan, k, after)
  }

  /** The device got some way into `plan`, and no mutation was dropped. */
  ghost predicate Interrupted(f: Nor, plan: seq<Mutation>, g: Nor) {
    && g.profile == f.profile && g.id == f.id && g.origin == f.origin && g.refused == f.refused
    && Torn(f.log, plan, g.log)
    && (Idle(f) && g.log == f.log ==> g.cells == f.cells && Idle(g))
    && (Coherent(f) ==> Coherent(g))
  }

  /** No mutation was started, and the contents changed only with time. */
  ghost predicate Kept(f: Nor, g: Nor) {
    && g.log == f.log
    && (if Idle(g) then Idle(f) ==> g.cells == f.cells else !Idle(f) && g.cells == f.cells)
  }

  /** A reset ended an operation that was in progress, and with it what its area held. */
  ghost predicate Aborted(f: Nor, g: Nor) {
    && !Idle(f) && Idle(g) && f.log != []
    && g.log == f.log + [Abort(g.cells)]
    && SameOutside(f.profile, f.log[|f.log| - 1], f.cells, g.cells)
  }

  /** What commands that ask for no mutation may do to a device: only a busy one can lose anything. */
  ghost predicate Unasked(f: Nor, g: Nor) {
    && g.profile == f.profile && g.id == f.id && g.origin == f.origin && g.refused == f.refused
    && (Kept(f, g) || Aborted(f, g))
    && (Coherent(f) ==> Coherent(g))
  }

  lemma EvolvedKept(f: Nor, g: Nor)
    requires Evolves(f, g)
    ensures Kept(f, g)
    ensures g.profile == f.profile && g.id == f.id && g.origin == f.origin && g.refused == f.refused
  {
    hide Geometry;
  }

  lemma EvolvedUnasked(f: Nor, g: Nor)
    requires Evolves(f, g)
    ensures Unasked(f, g) && g.log == f.log
  {
    hide Coherent, Evolves;
    EvolvedKept(f, g);
    if Coherent(f) {
      EvolvesCoherent(f, g);
    }
  }

  lemma UnaskedTwice(f: Nor, g: Nor, h: Nor)
    requires Unasked(f, g) && Unasked(g, h)
    ensures Unasked(f, h)
  {
    hide Coherent;
  }

  /** Short of an abort nothing has happened. */
  lemma UnaskedQuietly(f: Nor, g: Nor)
    requires Unasked(f, g) && (g.log == f.log || Idle(f))
    ensures Interrupted(f, [], g)
  {
    hide Coherent;
    assert TornAt(f.log, [], 0, g.log);
  }

  lemma LatchCoherent(f: Nor, g: Nor)
    requires Coherent(f) && g == f.(wel := g.wel)
    ensures Coherent(g)
  {
    var c := Replay(f.profile, f.origin, f.log);
    assert Explains(f, c) && Explains(g, c);
  }

  lemma NotStarted(f: Nor, plan: seq<Mutation>, g: Nor)
    requires g == f.(wel := g.wel)
    ensures Interrupted(f, plan, g)
  {
    if Coherent(f) {
      LatchCoherent(f, g);
    }
    assert TornAt(f.log, plan, 0, g.log);
  }

  /** A run that stopped, and was not reset since, is still where it stopped. */
  lemma InterruptedThenKept(f: Nor, plan: seq<Mutation>, g: Nor, h: Nor)
    requires Interrupted(f, plan, g) && Unasked(g, h) && Kept(g, h)
    ensures Interrupted(f, plan, h)
  {
    hide Coherent, Torn;
  }

  /** Time passed, and at most the latch was set: what write enable does to a device, busy or not. */
  ghost predicate Waited(f: Nor, g: Nor) {
    && g.profile == f.profile && g.id == f.id && g.origin == f.origin
    && g.log == f.log && g.refused == f.refused && !g.phase.Armed?
    && (f.phase.Ready? ==> g == f || g == f.(wel := true))
    && (Coherent(f) ==> Coherent(g))
  }

  lemma WaitedTwice(f: Nor, g: Nor, h: Nor)
    requires Waited(f, g) && Waited(g, h)
    ensures Waited(f, h)
  {
    hide Coherent;
  }

  lemma EvolvedWaited(f: Nor, g: Nor)
    requires Evolves(f, g) && !f.phase.Armed?
    ensures Waited(f, g)
  {
    hide Coherent;
    EvolvesKeeps(f, g);
    if Coherent(f) {
      EvolvesCoherent(f, g);
    }
    EvolvedUnasked(f, g);
  }

  /** The mutation was started, and no other. */
  ghost predicate Logged(f: Nor, m: Mutation, g: Nor) {
    g.log == f.log + [m] && g.refused == f.refused
  }

  /** The device was busy when it was asked, and dropped the mutation. */
  ghost predicate Dropped(f: Nor, g: Nor) {
    !Idle(f) && g.log == f.log && g.refused == f.refused + 1
  }

  /** An attempt at one mutation, on a device that may be busy: it was not or in part started, or it was dropped. */
  ghost predicate Tried(f: Nor, m: Mutation, g: Nor) {
    && g.profile == f.profile && g.id == f.id && g.origin == f.origin
    && ((g.refused == f.refused && Torn(f.log, [m], g.log)) || Dropped(f, g))
    && (Coherent(f) ==> Coherent(g))
  }

  lemma WaitedTried(f: Nor, m: Mutation, g: Nor)
    requires Waited(f, g)
    ensures Tried(f, m, g)
  {
    hide Coherent;
    assert [m][..0] == [] && f.log + [] == f.log;
    assert TornAt(f.log, [m], 0, g.log);
  }

  lemma DidNothing(f: Nor)
    ensures Did(f, [], f)
  {
    assert f.log + [] == f.log;
  }

  lemma DidThenDid(f: Nor, a: seq<Mutation>, g: Nor, b: seq<Mutation>, h: Nor)
    requires Did(f, a, g) && Did(g, b, h)
    ensures Did(f, a + b, h)
  {
    ReplayConcat(f.profile, f.cells, a, b);
    assert f.log + (a + b) == f.log + a + b;
    assert a + b == [] <==> a == [] && b == [];
  }

  lemma DidCoherent(f: Nor, plan: seq<Mutation>, g: Nor)
    requires Coherent(f) && f.phase.Ready? && Did(f, plan, g)
    ensures Coherent(g)
  {
    var c := Replay(f.profile, f.origin, f.log);
    assert Explains(f, c);
    ReplayConcat(f.profile, f.origin, f.log, plan);
    assert Explains(g, Replay(f.profile, f.origin, g.log));
  }

  lemma DidThenInterrupted(f: Nor, a: seq<Mutation>, g: Nor, b: seq<Mutation>, h: Nor)
    requires f.phase.Ready? && Did(f, a, g) && Interrupted(g, b, h)
    ensures Interrupted(f, a + b, h)
  {
    if Coherent(f) {
      DidCoherent(f, a, g);
    }
    var k: nat :| k <= |b| && TornAt(g.log, b, k, h.log);
    assert (a + b)[..|a| + k] == a + b[..k];
    assert f.log + (a + b[..k]) == f.log + a + b[..k];
    assert TornAt(f.log, a + b, |a| + k, h.log);
  }

  lemma InterruptedEarlier(f: Nor, a: seq<Mutation>, b: seq<Mutation>, g: Nor)
    requires Interrupted(f, a, g)
    ensures Interrupted(f, a + b, g)
  {
    var k: nat :| k <= |a| && TornAt(f.log, a, k, g.log);
    assert (a + b)[..k] == a[..k];
    assert TornAt(f.log, a + b, k, g.log);
  }

  /** The device has carried out a first part of `plan` and `rest` is still to come. */
  ghost predicate Underway(f: Nor, plan: seq<Mutation>, rest: seq<Mutation>, g: Nor)
  {
    && |rest| <= |plan|
    && plan[|plan| - |rest|..] == rest
    && Did(f, plan[..|plan| - |rest|], g)
  }

  lemma Starting(f: Nor, plan: seq<Mutation>)
    ensures Underway(f, plan, plan, f) && Interrupted(f, plan, f)
  {
    assert plan[..0] == [];
    DidNothing(f);
    NotStarted(f, plan, f);
  }

  /** Some more steps of a plan, finished or not. */
  lemma NextSteps(f: Nor, plan: seq<Mutation>, part: seq<Mutation>, rest: seq<Mutation>, g: Nor, h: Nor)
    requires f.phase.Ready? && Underway(f, plan, part + rest, g)
    ensures Interrupted(g, part, h) ==> Interrupted(f, plan, h)
    ensures Did(g, part, h) ==> Underway(f, plan, rest, h)
  {
    var done := plan[..|plan| - |part + rest|];
    assert plan == done + (part + rest);
    if Interrupted(g, part, h) {
      InterruptedEarlier(g, part, rest, h);
      DidThenInterrupted(f, done, g, part + rest, h);
    }
    if Did(g, part, h) {
      DidThenDid(f, done, g, part, h);
      assert plan[..|plan| - |rest|] == done + part;
      assert plan[|plan| - |rest|..] == rest;
    }
  }

  lemma Finished(f: Nor, plan: seq<Mutation>, g: Nor)
    requires f.phase.Ready? && Underway(f, plan, [], g)
    ensures Did(f, plan, g) && Interrupted(f, plan, g)
  {
    assert plan[..|plan|] == plan;
    if Coherent(f) {
      DidCoherent(f, plan, g);
    }
    assert TornAt(f.log, plan, |plan|, g.log);
  }

  // ---------------------------------------------------------------------------------------------
  // Why a method may fail

  /**
   What a device that was `f` at the call and is `g` now has to show for each error: an error bit; a
   latch that is still set, on a device that is protected or was busy; a latch that a busy device did
   not keep; an operation that was in progress or was started.
   */
  predicate Causes(f: Nor, e: Error, g: Nor) {
    match e
    case EraseProgramFault => Faulty(g.profile, g.sr)
    case DidNotStart => g.phase.Ready? && g.wel && (f.phase.Ready? ==> Guarded(f.profile, f.sr))
    case WriteEnableRejected => !f.phase.Ready? && !g.wel
    case ReadyTimeout => !Idle(f) || |g.log| > |f.log|
    case _ => false
  }

  lemma CausesAfter(f: Nor, done: seq<Mutation>, g: Nor, e: Error, h: Nor)
    requires f.phase.Ready? && Did(f, done, g) && Causes(g, e, h)
    ensures Causes(f, e, h)
  {
    hide Faulty, Guarded, Replay;
  }

  /** A cause that a later step of a plan has is one for the whole. */
  lemma CausesEarlier(f: Nor, plan: seq<Mutation>, rest: seq<Mutation>, g: Nor, e: Error, h: Nor)
    requires f.phase.Ready? && Underway(f, plan, rest, g) && Causes(g, e, h)
    ensures Causes(f, e, h)
  {
    CausesAfter(f, plan[..|plan| - |rest|], g, e, h);
  }
}
