/**
 What a device goes through: a history is any sequence of states in which each follows from the one
 before by a command or by the passing of time.
 */
module FlashHistory {
  import opened Bytes
  import opened NorFlash

  /** The device acts on a command, or time passes. */
  ghost predicate Step(f: Nor, g: Nor)
    requires Conforming(f)
  {
    Evolves(f, g) || exists cmd :: Executed(f, cmd, g)
  }

  /** Consecutive states of one device. */
  ghost predicate History(states: seq<Nor>) {
    && states != []
    && (forall i :: 0 <= i < |states| ==> Conforming(states[i]))
    && (forall i :: 0 < i < |states| ==> Step(states[i - 1], states[i]))
  }

  /** A history that ends, up to now, at `f`. */
  ghost predicate EndsAt(states: seq<Nor>, f: Nor) {
    History(states) && states[|states| - 1] == f
  }

  lemma Begun(f: Nor)
    requires Conforming(f)
    ensures EndsAt([f], f)
  {
  }

  lemma Continued(states: seq<Nor>, f: Nor, g: Nor)
    requires EndsAt(states, f) && Conforming(g) && Step(f, g)
    ensures EndsAt(states + [g], g)
  {
  }

  /** `past` is how a longer history began. */
  ghost predicate Extends(past: seq<Nor>, states: seq<Nor>) {
    past <= states
  }

  /** Time is counted in recorded states: `time` of it has passed since `past`. */
  ghost predicate Elapsed(past: seq<Nor>, states: seq<Nor>, time: nat) {
    |past| + time <= |states|
  }

  lemma ExtensionsChain()
    ensures forall a: seq<Nor>, b: seq<Nor>, c: seq<Nor>, t: nat {:trigger Extends(a, b), Elapsed(b, c, t)} ::
      Extends(a, b) && Elapsed(b, c, t) ==> Elapsed(a, c, t)
    ensures forall a: seq<Nor>, b: seq<Nor>, c: seq<Nor>, t: nat {:trigger Elapsed(a, b, t), Extends(b, c)} ::
      Elapsed(a, b, t) && Extends(b, c) ==> Elapsed(a, c, t)
    ensures forall a: seq<Nor> {:trigger Extends(a, a)} :: Extends(a, a)
    ensures forall a: seq<Nor>, b: seq<Nor>, c: seq<Nor> {:trigger Extends(a, b), Extends(b, c)} ::
      Extends(a, b) && Extends(b, c) ==> Extends(a, c)
  {
  }

  /** The states from the last one of `past` on. */
  function Since(past: seq<Nor>, states: seq<Nor>): (run: seq<Nor>)
    requires past != [] && Extends(past, states)
  {
    states[|past| - 1..]
  }

  lemma RunSince(past: seq<Nor>, f: Nor, states: seq<Nor>, g: Nor)
    requires EndsAt(past, f) && EndsAt(states, g) && Extends(past, states)
    ensures var run := Since(past, states);
      EndsAt(run, g) && run[0] == f
  {
    hide Step, Conforming;
  }

  /** What only ever accumulates, and what cannot change without leaving a trace in the log. */
  ghost predicate Later(f: Nor, g: Nor) {
    && g.profile == f.profile && g.id == f.id && g.origin == f.origin
    && f.log <= g.log && f.refused <= g.refused
    && (Idle(f) && g.log == f.log ==> g.cells == f.cells && Idle(g))
  }

  lemma ActedLater(f: Nor, cmd: seq<byte>, g: Nor)
    requires Conforming(f) && !f.phase.Armed? && Acted(f, cmd, g)
    ensures Later(f, g)
  {
    hide Requested, Apply, SameOutside, Geometry;
  }

  lemma RestartedLater(f: Nor, g: Nor)
    requires Conforming(f) && !f.phase.Armed? && Restarted(f, g)
    ensures Later(f, g)
  {
    hide SameOutside, Geometry;
  }

  lemma ExecutedLater(f: Nor, cmd: seq<byte>, g: Nor)
    requires Conforming(f) && Executed(f, cmd, g)
    ensures Later(f, g)
  {
    hide Acted, Restarted, Resets;
    DisarmedConforming(f);
    if Resets(f, cmd) {
      RestartedLater(Disarmed(f), g);
    } else {
      ActedLater(Disarmed(f), cmd, g);
    }
  }

  lemma EvolvedLater(f: Nor, g: Nor)
    requires Evolves(f, g)
    ensures Later(f, g)
  {
  }

  lemma StepLater(f: Nor, g: Nor)
    requires Coherent(f) && Step(f, g)
    ensures Coherent(g) && Later(f, g)
  {
    assert Conforming(f);
    hide Coherent, Later, Executed, Evolves;
    if Evolves(f, g) {
      EvolvesCoherent(f, g);
      EvolvedLater(f, g);
    } else {
      var cmd :| Executed(f, cmd, g);
      ExecutedCoherent(f, cmd, g);
      ExecutedLater(f, cmd, g);
    }
  }

  lemma LaterStill(f: Nor, g: Nor, h: Nor)
    requires Later(f, g) && Later(g, h)
    ensures Later(f, h)
  {
    assert f.log <= g.log <= h.log;
  }

  lemma {:induction false} HistoryLater(states: seq<Nor>, i: nat, j: nat)
    requires History(states) && i <= j < |states| && Coherent(states[i])
    ensures Coherent(states[j]) && Later(states[i], states[j])
    decreases j
  {
    hide Coherent, Step, Later;
    if i < j {
      HistoryLater(states, i, j - 1);
      StepLater(states[j - 1], states[j]);
      LaterStill(states[i], states[j - 1], states[j]);
    } else {
      LaterSelf(states[i]);
    }
  }

  lemma LaterSelf(f: Nor)
    ensures Later(f, f)
  {
  }

  /** A device that nothing has been asked of yet is coherent, and stays so through any history. */
  lemma FactoryCoherent(f: Nor)
    requires Conforming(f) && f.phase.Ready? && f.log == [] && f.cells == f.origin
    ensures Coherent(f)
  {
    assert Explains(f, Replay(f.profile, f.origin, f.log));
  }

  lemma AlwaysCoherent(states: seq<Nor>, f: Nor)
    requires EndsAt(states, f) && Coherent(states[0])
    ensures Coherent(f)
  {
    HistoryLater(states, 0, |states| - 1);
  }
}
