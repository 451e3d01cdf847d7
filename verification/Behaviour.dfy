/** What can be observed of a run: how it ends, and every prefix of its output. */
module Behaviour {
  import opened Runs
  import opened Store
  import FlatIr
  import Source
  import SourceSimulation

  ghost predicate HaltsWith(step: Config -> Config, c: Config, final: State) {
    exists n: nat :: Iterate(step, n, c) == Halted(final)
  }

  /** The run comes to an end there, by a halt or by an access outside the tape. */
  ghost predicate EndsAt(step: Config -> Config, c: Config, end: Config) {
    !end.Running? && exists n: nat :: Iterate(step, n, c) == end
  }

  /** Same ends, and each run gets at least as far with its output as any point of the other. */
  ghost predicate SameBehaviour(stepA: Config -> Config, a: Config, stepB: Config -> Config, b: Config) {
    && (forall end :: EndsAt(stepA, a, end) <==> EndsAt(stepB, b, end))
    && (forall n: nat :: OutputMatched(stepA, a, n, stepB, b))
    && (forall n: nat :: OutputMatched(stepB, b, n, stepA, a))
  }

  ghost predicate OutputMatched(stepA: Config -> Config, a: Config, n: nat, stepB: Config -> Config, b: Config) {
    exists m: nat :: Iterate(stepA, n, a).st.output <= Iterate(stepB, m, b).st.output
  }

  // ----- machines that follow the same machine -----

  /** An end is final, and nothing printed is taken back. */
  ghost predicate Orderly(step: Config -> Config) { forall c :: OrderlyAt(step, c) }

  ghost predicate OrderlyAt(step: Config -> Config, c: Config) {
    (!c.Running? ==> step(c) == c) && c.st.output <= step(c).st.output
  }

  lemma {:induction false} OutputGrows(step: Config -> Config, c: Config, n: nat)
    requires Orderly(step)
    ensures c.st.output <= Iterate(step, n, c).st.output
    decreases n
  {
    if n > 0 {
      assert OrderlyAt(step, c);
      OutputGrows(step, step(c), n - 1);
    }
  }

  /** The same store; both running, or at the same end. */
  predicate Alike(x: Config, y: Config) { x == y || (x.Running? && y.Running? && x.st == y.st) }

  ghost function SameOutcome(): (Config, Config) -> bool { (x: Config, y: Config) => Alike(x, y) }

  lemma FollowerEnds(a: Config -> Config, b: Config -> Config, c: Config, end: Config)
    requires SameRuns(a, c, b, c, SameOutcome()) && Orderly(b)
    ensures EndsAt(a, c, end) <==> EndsAt(b, c, end)
  {
    if EndsAt(a, c, end) {
      var n: nat :| Iterate(a, n, c) == end;
      assert MeetsAt(a, c, n, b, c, SameOutcome());
      var m: nat :| Meets(a, c, n, b, c, m, SameOutcome());
      assert Iterate(b, m, c) == end;
    }
    if EndsAt(b, c, end) {
      var m: nat :| Iterate(b, m, c) == end;
      assert MeetsAfter(a, c, b, c, m, SameOutcome());
      var n: nat, k: nat :| Meets(a, c, n, b, c, k, SameOutcome()) && m <= k;
      assert OrderlyAt(b, end);
      FinalStays(b, c, m, k);
      assert Iterate(a, n, c) == end;
    }
  }

  lemma FollowerPrints(a: Config -> Config, a': Config -> Config, b: Config -> Config, c: Config, n: nat)
    requires SameRuns(a, c, b, c, SameOutcome()) && SameRuns(a', c, b, c, SameOutcome()) && Orderly(b)
    ensures OutputMatched(a, c, n, a', c)
  {
    hide Orderly;
    assert MeetsAt(a, c, n, b, c, SameOutcome());
    var m: nat :| Meets(a, c, n, b, c, m, SameOutcome());
    assert MeetsAfter(a', c, b, c, m, SameOutcome());
    var i: nat, k: nat :| Meets(a', c, i, b, c, k, SameOutcome()) && m <= k;
    IterateAdd(b, m, k - m, c);
    OutputGrows(b, Iterate(b, m, c), k - m);
    assert Iterate(a, n, c).st.output <= Iterate(a', i, c).st.output;
  }

  /** Two machines that keep meeting a third one behave alike. */
  lemma FollowersBehaveAlike(a: Config -> Config, a': Config -> Config, b: Config -> Config, c: Config)
    requires SameRuns(a, c, b, c, SameOutcome()) && SameRuns(a', c, b, c, SameOutcome()) && Orderly(b)
    ensures SameBehaviour(a, c, a', c)
  {
    hide SameRuns, Orderly, EndsAt, OutputMatched;
    forall end ensures EndsAt(a, c, end) <==> EndsAt(a', c, end) {
      FollowerEnds(a, b, c, end);
      FollowerEnds(a', b, c, end);
    }
    forall n: nat ensures OutputMatched(a, c, n, a', c) && OutputMatched(a', c, n, a, c) {
      FollowerPrints(a, a', b, c, n);
      FollowerPrints(a', a, b, c, n);
    }
  }

  // ----- flat programs that follow the source -----

  lemma SourceIsOrderly(src: string)
    ensures Orderly(Source.Step(src))
  {
    hide Source.ScanForward, Source.ScanBackward;
    forall c ensures OrderlyAt(Source.Step(src), c) {
    }
  }

  lemma MeetsLikeSource(prog: seq<FlatIr.Op>, src: string, s: State)
    requires SameRuns(FlatIr.Step(prog), Running(0, s), Source.Step(src), Running(0, s), SourceSimulation.SameStore())
    ensures SameRuns(FlatIr.Step(prog), Running(0, s), Source.Step(src), Running(0, s), SameOutcome())
  {
    SameRunsWeaken(FlatIr.Step(prog), Running(0, s), Source.Step(src), Running(0, s), SourceSimulation.SameStore(), SameOutcome());
  }

  /** A flat program that meets the source halts exactly when the source does. */
  lemma HaltsLikeSource(prog: seq<FlatIr.Op>, src: string, s: State, final: State)
    requires SameRuns(FlatIr.Step(prog), Running(0, s), Source.Step(src), Running(0, s), SourceSimulation.SameStore())
    ensures HaltsWith(FlatIr.Step(prog), Running(0, s), final) <==> HaltsWith(Source.Step(src), Running(0, s), final)
  {
    hide SameRuns, Orderly, FlatIr.Step, Source.Step;
    MeetsLikeSource(prog, src, s);
    SourceIsOrderly(src);
    FollowerEnds(FlatIr.Step(prog), Source.Step(src), Running(0, s), Halted(final));
    assert HaltsWith(FlatIr.Step(prog), Running(0, s), final) == EndsAt(FlatIr.Step(prog), Running(0, s), Halted(final));
    assert HaltsWith(Source.Step(src), Running(0, s), final) == EndsAt(Source.Step(src), Running(0, s), Halted(final));
  }

  /** Two flat programs for the same source behave alike. */
  lemma SameSourceSameBehaviour(prog: seq<FlatIr.Op>, other: seq<FlatIr.Op>, src: string, s: State)
    requires SameRuns(FlatIr.Step(prog), Running(0, s), Source.Step(src), Running(0, s), SourceSimulation.SameStore())
    requires SameRuns(FlatIr.Step(other), Running(0, s), Source.Step(src), Running(0, s), SourceSimulation.SameStore())
    ensures SameBehaviour(FlatIr.Step(prog), Running(0, s), FlatIr.Step(other), Running(0, s))
  {
    hide SameRuns, Orderly, SameBehaviour;
    MeetsLikeSource(prog, src, s);
    MeetsLikeSource(other, src, s);
    SourceIsOrderly(src);
    FollowersBehaveAlike(FlatIr.Step(prog), FlatIr.Step(other), Source.Step(src), Running(0, s));
  }
}
