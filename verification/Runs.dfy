/** Runs of deterministic machines, and the simulation argument shared by every compilation stage. */
module Runs {
  function Iterate<C>(step: C -> C, n: nat, c: C): C {
    if n == 0 then c else Iterate(step, n - 1, step(c))
  }

  lemma OneStep<C>(step: C -> C, c: C)
    ensures Iterate(step, 1, c) == step(c)
  {
  }

  lemma {:induction false} IterateAdd<C>(step: C -> C, m: nat, n: nat, c: C)
    ensures Iterate(step, m + n, c) == Iterate(step, n, Iterate(step, m, c))
  {
    if m > 0 {
      IterateAdd(step, m - 1, n, step(c));
    }
  }

  /** One step of the coarse machine is `n` steps of the fine one; `n` is 0 only when `rank` falls. */
  ghost predicate Advances<A, B>(stepA: A -> A, stepB: B -> B, rel: (A, B) -> bool, rank: A -> nat, a: A, b: B, n: nat) {
    && rel(stepA(a), Iterate(stepB, n, b))
    && (n > 0 || rank(stepA(a)) < rank(a))
  }

  ghost predicate CanAdvance<A, B>(stepA: A -> A, stepB: B -> B, rel: (A, B) -> bool, rank: A -> nat, a: A, b: B) {
    rel(a, b) ==> exists n: nat :: Advances(stepA, stepB, rel, rank, a, b, n)
  }

  ghost predicate Simulation<A(!new), B(!new)>(stepA: A -> A, stepB: B -> B, rel: (A, B) -> bool, rank: A -> nat) {
    forall a, b :: CanAdvance(stepA, stepB, rel, rank, a, b)
  }

  ghost predicate Meets<A, B>(stepA: A -> A, a: A, n: nat, stepB: B -> B, b: B, m: nat, rel: (A, B) -> bool) {
    rel(Iterate(stepA, n, a), Iterate(stepB, m, b))
  }

  ghost predicate MeetsAt<A(!new), B(!new)>(stepA: A -> A, a: A, n: nat, stepB: B -> B, b: B, rel: (A, B) -> bool) {
    exists m: nat :: Meets(stepA, a, n, stepB, b, m, rel)
  }

  ghost predicate MeetsAfter<A(!new), B(!new)>(stepA: A -> A, a: A, stepB: B -> B, b: B, m: nat, rel: (A, B) -> bool) {
    exists n: nat, k: nat :: Meets(stepA, a, n, stepB, b, k, rel) && m <= k
  }

  /** Every state of the coarse run is met by the fine run, and the fine run never goes on
      past the last meeting point: behaviours agree on halting, divergence and every prefix. */
  ghost predicate SameRuns<A(!new), B(!new)>(stepA: A -> A, a: A, stepB: B -> B, b: B, rel: (A, B) -> bool) {
    && (forall n: nat :: MeetsAt(stepA, a, n, stepB, b, rel))
    && (forall m: nat :: MeetsAfter(stepA, a, stepB, b, m, rel))
  }

  lemma {:induction false} CoarseIsMet<A(!new), B(!new)>(
    stepA: A -> A, stepB: B -> B, rel: (A, B) -> bool, rank: A -> nat, a: A, b: B, n: nat)
    returns (m: nat)
    requires Simulation(stepA, stepB, rel, rank) && rel(a, b)
    ensures Meets(stepA, a, n, stepB, b, m, rel)
  {
    if n == 0 {
      m := 0;
    } else {
      assert CanAdvance(stepA, stepB, rel, rank, a, b);
      var k: nat :| Advances(stepA, stepB, rel, rank, a, b, k);
      var rest := CoarseIsMet(stepA, stepB, rel, rank, stepA(a), Iterate(stepB, k, b), n - 1);
      IterateAdd(stepB, k, rest, b);
      m := k + rest;
    }
  }

  lemma {:induction false} FineIsMet<A(!new), B(!new)>(
    stepA: A -> A, stepB: B -> B, rel: (A, B) -> bool, rank: A -> nat, a: A, b: B, m: nat)
    returns (n: nat, k: nat)
    requires Simulation(stepA, stepB, rel, rank) && rel(a, b)
    ensures m <= k && Meets(stepA, a, n, stepB, b, k, rel)
    decreases m, rank(a)
  {
    if m == 0 {
      n, k := 0, 0;
    } else {
      assert CanAdvance(stepA, stepB, rel, rank, a, b);
      var j: nat :| Advances(stepA, stepB, rel, rank, a, b, j);
      var left := if j < m then m - j else 0;
      n, k := FineIsMet(stepA, stepB, rel, rank, stepA(a), Iterate(stepB, j, b), left);
      IterateAdd(stepB, j, k, b);
      n, k := n + 1, j + k;
    }
  }

  lemma SimulationGivesSameRuns<A(!new), B(!new)>(
    stepA: A -> A, stepB: B -> B, rel: (A, B) -> bool, rank: A -> nat, a: A, b: B)
    requires Simulation(stepA, stepB, rel, rank) && rel(a, b)
    ensures SameRuns(stepA, a, stepB, b, rel)
  {
    forall n: nat ensures MeetsAt(stepA, a, n, stepB, b, rel) {
      var m := CoarseIsMet(stepA, stepB, rel, rank, a, b, n);
    }
    forall m: nat ensures MeetsAfter(stepA, a, stepB, b, m, rel) {
      var n, k := FineIsMet(stepA, stepB, rel, rank, a, b, m);
    }
  }

  lemma SameRunsWeaken<A(!new), B(!new)>(
    stepA: A -> A, a: A, stepB: B -> B, b: B, rel: (A, B) -> bool, weaker: (A, B) -> bool)
    requires SameRuns(stepA, a, stepB, b, rel)
    requires forall x, y :: rel(x, y) ==> weaker(x, y)
    ensures SameRuns(stepA, a, stepB, b, weaker)
  {
    forall n: nat ensures MeetsAt(stepA, a, n, stepB, b, weaker) {
      assert MeetsAt(stepA, a, n, stepB, b, rel);
      var m: nat :| Meets(stepA, a, n, stepB, b, m, rel);
      assert Meets(stepA, a, n, stepB, b, m, weaker);
    }
    forall m: nat ensures MeetsAfter(stepA, a, stepB, b, m, weaker) {
      assert MeetsAfter(stepA, a, stepB, b, m, rel);
      var n: nat, k: nat :| Meets(stepA, a, n, stepB, b, k, rel) && m <= k;
      assert Meets(stepA, a, n, stepB, b, k, weaker);
    }
  }

  /** The fine machine may be started some steps earlier. */
  lemma SameRunsFromEarlier<A(!new), B(!new)>(
    stepA: A -> A, a: A, stepB: B -> B, b: B, d: nat, rel: (A, B) -> bool)
    requires SameRuns(stepA, a, stepB, Iterate(stepB, d, b), rel)
    ensures SameRuns(stepA, a, stepB, b, rel)
  {
    var later := Iterate(stepB, d, b);
    forall n: nat ensures MeetsAt(stepA, a, n, stepB, b, rel) {
      assert MeetsAt(stepA, a, n, stepB, later, rel);
      var m: nat :| Meets(stepA, a, n, stepB, later, m, rel);
      IterateAdd(stepB, d, m, b);
      assert Meets(stepA, a, n, stepB, b, d + m, rel);
    }
    forall m: nat ensures MeetsAfter(stepA, a, stepB, b, m, rel) {
      assert MeetsAfter(stepA, a, stepB, later, m, rel);
      var n: nat, k: nat :| Meets(stepA, a, n, stepB, later, k, rel) && m <= k;
      IterateAdd(stepB, d, k, b);
      assert Meets(stepA, a, n, stepB, b, d + k, rel);
    }
  }

  /** Neither run goes on for ever without meeting the other. */
  ghost predicate KeepMeeting<B(!new), C(!new)>(stepB: B -> B, b: B, stepC: C -> C, c: C, rel: (B, C) -> bool) {
    && (forall m: nat :: MeetsAfter(stepB, b, stepC, c, m, rel))
    && (forall m: nat :: MeetsAfterLeft(stepB, b, m, stepC, c, rel))
  }

  ghost predicate MeetsAfterLeft<B(!new), C(!new)>(stepB: B -> B, b: B, m: nat, stepC: C -> C, c: C, rel: (B, C) -> bool) {
    exists n: nat, k: nat :: Meets(stepB, b, n, stepC, c, k, rel) && m <= n
  }

  ghost predicate Composes<A(!new), B(!new), C(!new)>(left: (A, B) -> bool, right: (A, C) -> bool, rel: (B, C) -> bool) {
    forall a, b, c :: left(a, b) && right(a, c) ==> rel(b, c)
  }

  /** Two fine machines that follow the same coarse one keep meeting each other. */
  lemma FollowersMeet<A(!new), B(!new), C(!new)>(
    stepA: A -> A, a: A, stepB: B -> B, b: B, stepC: C -> C, c: C,
    left: (A, B) -> bool, right: (A, C) -> bool, rel: (B, C) -> bool)
    requires SameRuns(stepA, a, stepB, b, left) && SameRuns(stepA, a, stepC, c, right)
    requires Composes(left, right, rel)
    ensures KeepMeeting(stepB, b, stepC, c, rel)
  {
    forall m: nat ensures MeetsAfter(stepB, b, stepC, c, m, rel) {
      assert MeetsAfter(stepA, a, stepC, c, m, right);
      var n: nat, k: nat :| Meets(stepA, a, n, stepC, c, k, right) && m <= k;
      assert MeetsAt(stepA, a, n, stepB, b, left);
      var j: nat :| Meets(stepA, a, n, stepB, b, j, left);
      assert Meets(stepB, b, j, stepC, c, k, rel);
    }
    forall m: nat ensures MeetsAfterLeft(stepB, b, m, stepC, c, rel) {
      assert MeetsAfter(stepA, a, stepB, b, m, left);
      var n: nat, k: nat :| Meets(stepA, a, n, stepB, b, k, left) && m <= k;
      assert MeetsAt(stepA, a, n, stepC, c, right);
      var j: nat :| Meets(stepA, a, n, stepC, c, j, right);
      assert Meets(stepB, b, k, stepC, c, j, rel);
    }
  }

  lemma {:induction false} FinalStays<C>(step: C -> C, c: C, n: nat, k: nat)
    requires n <= k && step(Iterate(step, n, c)) == Iterate(step, n, c)
    ensures Iterate(step, k, c) == Iterate(step, n, c)
    decreases k
  {
    if n < k {
      FinalStays(step, c, n, k - 1);
      IterateAdd(step, k - 1, 1, c);
      assert Iterate(step, 1, Iterate(step, k - 1, c)) == step(Iterate(step, k - 1, c));
    }
  }
}
