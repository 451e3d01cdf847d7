/** The three passes, the order of their results, and the pipeline of bin/main.ml. */
module PassProofs {
  import opened MachineInts
  import opened Store
  import opened TreeIr
  import opened Passes

  lemma {:induction false} ReverseConcat<T>(a: seq<T>, b: seq<T>)
    ensures Reverse(a + b) == Reverse(b) + Reverse(a)
  {
    if a == [] {
      assert a + b == b;
    } else {
      assert (a + b)[1..] == a[1..] + b;
      ReverseConcat(a[1..], b);
    }
  }

  lemma ReverseOne<T>(x: T)
    ensures Reverse([x]) == [x]
  {
    assert [x][1..] == [];
  }

  lemma {:induction false} ReverseTwice<T>(a: seq<T>)
    ensures Reverse(Reverse(a)) == a
  {
    if a != [] {
      ReverseConcat(Reverse(a[1..]), [a[0]]);
      ReverseOne(a[0]);
      ReverseTwice(a[1..]);
    }
  }

  // ----- the local rewrites -----

  lemma PreservedPair(exact: bool, a: Ir, b: Ir, c: Ir)
    requires forall s, fuel: nat :: PairAgrees(exact, a, b, c, s, fuel)
    ensures Preserved(exact, [a, b], [c])
  {
    hide ExecOne;
    forall s, fuel: nat ensures Agrees(exact, [a, b], [c], s, fuel) {
      assert PairAgrees(exact, a, b, c, s, fuel);
      assert [a, b] == [a] + [b];
      ExecConcat([a], [b], s, fuel);
      ExecSingle(a, s, fuel);
      ExecSingle(c, s, fuel);
      var o := ExecOne(a, s, fuel);
      if o.Done? {
        ExecSingle(b, o.st, fuel);
      }
    }
  }

  ghost predicate PairAgrees(exact: bool, a: Ir, b: Ir, c: Ir, s: State, fuel: nat) {
    var both := match ExecOne(a, s, fuel) case Done(t) => ExecOne(b, t, fuel) case other => other;
    exact || !both.Timeout? ==> ExecOne(c, s, fuel) == both
  }

  lemma MergedMoves(a: int, b: int)
    ensures Preserved(true, [Tape(b), Tape(a)], [Tape(a + b)])
  {
    PreservedPair(true, Tape(b), Tape(a), Tape(a + b));
  }

  lemma MergedAdditions(a: int, b: int)
    ensures Preserved(true, [Cell(b), Cell(a)], [Cell(a + b)])
  {
    var first, second, sum := TreeIr.Cell(b), TreeIr.Cell(a), TreeIr.Cell(a + b);
    forall s, fuel: nat ensures PairAgrees(true, first, second, sum, s, fuel) {
      if s.OnTape() {
        AddToCellWraps(s.Cell(), b);
        AddToCellWraps(Wrap8(s.Cell() + b), a);
        AddToCellWraps(s.Cell(), a + b);
        Wrap8Add(s.Cell() + b, a);
      }
    }
    PreservedPair(true, first, second, sum);
  }

  /** After a loop has ended the cell is zero, so a second loop does nothing. */
  lemma SecondLoopIdle(a: seq<Ir>, b: seq<Ir>)
    ensures Preserved(true, [Loop(a), Loop(b)], [Loop(a)])
  {
    forall s, fuel: nat ensures PairAgrees(true, Loop(a), Loop(b), Loop(a), s, fuel) {
      LoopLeavesZero(a, s, fuel);
    }
    PreservedPair(true, Loop(a), Loop(b), Loop(a));
  }

  lemma {:induction false} ClearingLoopEndsAtZero(k: int, s: State, fuel: nat)
    ensures var o := ExecLoop([TreeIr.Cell(k)], s, fuel);
            if s.OnTape() then o.Timeout? || o == Done(s.WithCell(0)) else o == OutOfRange(s)
    decreases fuel
  {
    if s.OnTape() {
      if s.Cell() == 0 {
        assert s.WithCell(0) == s;
      } else if fuel > 0 {
        var c := TreeIr.Cell(k);
        ExecSingle(c, s, fuel - 1);
        ClearingLoopEndsAtZero(k, ExecOne(c, s, fuel - 1).st, fuel - 1);
      }
    }
  }

  lemma ClearingLoopIsSet(k: int)
    ensures Preserved(false, [Loop([TreeIr.Cell(k)])], [Set(0)])
  {
    forall s, fuel: nat ensures Agrees(false, [Loop([TreeIr.Cell(k)])], [Set(0)], s, fuel) {
      ExecSingle(Loop([TreeIr.Cell(k)]), s, fuel);
      ExecSingle(Set(0), s, fuel);
      ClearingLoopEndsAtZero(k, s, fuel);
    }
  }

  lemma ExactIsEnough(exact: bool, p: seq<Ir>, q: seq<Ir>)
    requires Preserved(true, p, q)
    ensures Preserved(exact, p, q)
  {
    forall s, fuel: nat ensures Agrees(exact, p, q, s, fuel) {
      assert Agrees(true, p, q, s, fuel);
    }
  }

  /** A rewrite of two neighbours at the end of a program, or at its front. */
  lemma RewriteInContext(exact: bool, before: seq<Ir>, p: seq<Ir>, q: seq<Ir>, after: seq<Ir>)
    requires Preserved(exact, p, q)
    ensures Preserved(exact, before + p + after, before + q + after)
  {
    hide Preserved;
    PreservedRefl(exact, before);
    PreservedRefl(exact, after);
    PreservedConcat(exact, before, before, p, q);
    PreservedConcat(exact, before + p, before + q, after, after);
  }

  lemma ContractionSoundAt(exact: bool, acc: seq<Ir>, i: Ir)
    ensures SoundAt(exact, CONTRACTION, acc, i) && SoundBackwardsAt(exact, CONTRACTION, acc, i)
  {
    hide Preserved;
    PreservedRefl(exact, Reverse(acc) + [i]);
    PreservedRefl(exact, [i] + acc);
    if acc == [] {
      ReverseOne(i);
      assert [i] + acc == [i];
    } else {
      var tail := Reverse(acc[1..]);
      match (i, acc[0])
      case (Tape(a), Tape(b)) =>
        MergedMoves(a, b);
        MergedMoves(b, a);
        MergedInContext(exact, acc, i, Tape(a + b));
      case (Cell(a), Cell(b)) =>
        MergedAdditions(a, b);
        MergedAdditions(b, a);
        MergedInContext(exact, acc, i, TreeIr.Cell(a + b));
      case _ =>
        assert ([i] + acc)[1..] == acc;
    }
  }

  lemma MergedInContext(exact: bool, acc: seq<Ir>, i: Ir, merged: Ir)
    requires acc != [] && Preserved(true, [acc[0], i], [merged]) && Preserved(true, [i, acc[0]], [merged])
    ensures Preserved(exact, Reverse(acc) + [i], Reverse([merged] + acc[1..]))
    ensures Preserved(exact, [i] + acc, [merged] + acc[1..])
  {
    hide Preserved;
    ExactIsEnough(exact, [acc[0], i], [merged]);
    ExactIsEnough(exact, [i, acc[0]], [merged]);
    var tail := Reverse(acc[1..]);
    RewriteInContext(exact, tail, [acc[0], i], [merged], []);
    assert tail + [acc[0], i] + [] == Reverse(acc) + [i];
    assert ([merged] + acc[1..])[1..] == acc[1..];
    assert tail + [merged] + [] == Reverse([merged] + acc[1..]);
    RewriteInContext(exact, [], [i, acc[0]], [merged], acc[1..]);
    assert [] + [i, acc[0]] + acc[1..] == [i] + acc;
    assert [] + [merged] + acc[1..] == [merged] + acc[1..];
  }

  lemma ContractionSound(exact: bool)
    ensures Sound(exact, CONTRACTION) && SoundBackwards(exact, CONTRACTION)
  {
    hide SoundAt, SoundBackwardsAt;
    forall acc, i ensures SoundAt(exact, CONTRACTION, acc, i) && SoundBackwardsAt(exact, CONTRACTION, acc, i) {
      ContractionSoundAt(exact, acc, i);
    }
  }

  lemma ZeroLoopSoundAt(acc: seq<Ir>, i: Ir)
    ensures SoundAt(false, ZERO_LOOP, acc, i) && SoundBackwardsAt(false, ZERO_LOOP, acc, i)
  {
    hide Preserved;
    var i' := if i.Loop? && |i.body| == 1 && i.body[0].Cell? then Set(0) else i;
    if i' != i {
      ClearingLoopIsSet(i.body[0].n);
      assert i.body == [i.body[0]];
    } else {
      PreservedRefl(false, [i]);
    }
    RewriteInContext(false, Reverse(acc), [i], [i'], []);
    RewriteInContext(false, [], [i], [i'], acc);
    assert Reverse(acc) + [i] + [] == Reverse(acc) + [i] && [] + [i] + acc == [i] + acc;
    assert ([i'] + acc)[1..] == acc && Reverse(acc) + [i'] + [] == Reverse([i'] + acc) && [] + [i'] + acc == [i'] + acc;
  }

  lemma ZeroLoopSound()
    ensures Sound(false, ZERO_LOOP) && SoundBackwards(false, ZERO_LOOP)
  {
    hide SoundAt, SoundBackwardsAt;
    forall acc, i ensures SoundAt(false, ZERO_LOOP, acc, i) && SoundBackwardsAt(false, ZERO_LOOP, acc, i) {
      ZeroLoopSoundAt(acc, i);
    }
  }

  lemma DeadCodeSoundAt(exact: bool, acc: seq<Ir>, i: Ir)
    ensures SoundAt(exact, DEAD_CODE, acc, i)
  {
    hide Preserved;
    if acc != [] && acc[0].Loop? && i.Loop? {
      SecondLoopIdle(acc[0].body, i.body);
      ExactIsEnough(exact, [acc[0], i], [acc[0]]);
      var tail := Reverse(acc[1..]);
      RewriteInContext(exact, tail, [acc[0], i], [acc[0]], []);
      assert tail + [acc[0], i] + [] == Reverse(acc) + [i] && tail + [acc[0]] + [] == Reverse(acc);
    } else {
      assert ([i] + acc)[1..] == acc;
      PreservedRefl(exact, Reverse(acc) + [i]);
    }
  }

  lemma DeadCodeSound(exact: bool)
    ensures Sound(exact, DEAD_CODE)
  {
    hide SoundAt;
    forall acc, i ensures SoundAt(exact, DEAD_CODE, acc, i) {
      DeadCodeSoundAt(exact, acc, i);
    }
  }

  // ----- lists of passes -----

  /** Fit for the direction in which the top level reaches it. */
  ghost predicate Fit(exact: bool, pass: Pass, backwards: bool) {
    Sound(exact, pass) && (backwards ==> SoundBackwards(exact, pass))
  }

  ghost predicate AllFit(exact: bool, passes: seq<Pass>, backwards: bool) {
    forall k :: 0 <= k < |passes| ==> Fit(exact, passes[k], if k % 2 == 0 then backwards else !backwards)
  }

  function Orient(backwards: bool, code: seq<Ir>): seq<Ir> { if backwards then Reverse(code) else code }

  lemma FoldOrients(exact: bool, pass: Pass, code: seq<Ir>, backwards: bool)
    requires Fit(exact, pass, backwards)
    ensures Preserved(exact, Orient(backwards, code), Orient(!backwards, Fold(pass, [], code)))
  {
    hide Preserved, Sound, SoundBackwards;
    if backwards {
      FoldBackwardsPreserves(exact, pass, [], code);
      assert Reverse(code) + [] == Reverse(code);
    } else {
      FoldPreserves(exact, pass, [], code);
      assert Reverse<Ir>([]) + code == code;
    }
  }

  /** Every pass turns the top level around once. */
  lemma {:induction false} PassesOrient(exact: bool, passes: seq<Pass>, code: seq<Ir>, backwards: bool)
    requires AllFit(exact, passes, backwards)
    ensures Preserved(exact, Orient(backwards, code),
                      Orient(if |passes| % 2 == 0 then backwards else !backwards, RunPasses(passes, code)))
    decreases |passes|
  {
    hide Preserved, Fit, Reverse, Fold;
    if passes == [] {
      PreservedRefl(exact, Orient(backwards, code));
    } else {
      assert Fit(exact, passes[0], backwards);
      FoldOrients(exact, passes[0], code, backwards);
      forall k | 0 <= k < |passes[1..]| ensures Fit(exact, passes[1..][k], if k % 2 == 0 then !backwards else backwards) {
        assert passes[1..][k] == passes[k + 1];
      }
      var next := Fold(passes[0], [], code);
      PassesOrient(exact, passes[1..], next, !backwards);
      PreservedTransitive(exact, Orient(backwards, code), Orient(!backwards, next),
                          Orient(if |passes| % 2 == 0 then backwards else !backwards, RunPasses(passes, code)));
    }
  }

  /** An odd number of passes gives the program back in order; an even number gives it back to front. */
  lemma RunOrder(exact: bool, passes: seq<Pass>, code: seq<Ir>)
    requires AllFit(exact, passes, false)
    ensures |passes| % 2 == 1 ==> Preserved(exact, code, Run(passes, code))
    ensures |passes| % 2 == 0 ==> Preserved(exact, code, Reverse(Run(passes, code)))
  {
    hide Preserved, AllFit;
    PassesOrient(exact, passes, code, false);
    ReverseTwice(RunPasses(passes, code));
  }
}
