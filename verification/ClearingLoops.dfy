/** When a loop that only adds `k` to its cell comes to an end, and what that means for zero_loop. */
module ClearingLoops {
  import opened MachineInts
  import opened Store
  import opened TreeIr
  import opened Passes
  import opened PassProofs
  import Bits

  // ----- divisibility -----

  predicate Product(a: int, b: int, c: int) { a * b == c }

  ghost predicate Divides(g: int, v: int) { exists w :: Product(g, w, v) }

  function Gcd(a: nat, b: nat): nat
    decreases b
  {
    if b == 0 then a else Gcd(b, a % b)
  }

  lemma {:induction false} Bezout(a: nat, b: nat) returns (x: int, y: int)
    ensures a * x + b * y == Gcd(a, b)
    decreases b
  {
    if b == 0 {
      x, y := 1, 0;
    } else {
      var x', y' := Bezout(b, a % b);
      x, y := y', x' - a / b * y';
      BezoutAlgebra(a, b, a / b, a % b, x', y');
    }
  }

  lemma BezoutAlgebra(a: int, b: int, q: int, r: int, x: int, y: int)
    requires a == b * q + r
    ensures a * y + b * (x - q * y) == b * x + r * y
  {
    assert b * (x - q * y) == b * x - b * q * y;
    assert a * y == b * q * y + r * y;
  }

  lemma {:induction false} GcdDivides(a: nat, b: nat) returns (c: nat, d: nat)
    ensures a == Gcd(a, b) * c && b == Gcd(a, b) * d
    decreases b
  {
    if b == 0 {
      c, d := 1, 0;
    } else {
      var e, f := GcdDivides(b, a % b);
      var g := Gcd(a, b);
      c, d := e * (a / b) + f, e;
      assert a == b * (a / b) + a % b;
      assert g * (e * (a / b) + f) == (g * e) * (a / b) + g * f;
    }
  }

  function Abs(k: int): nat { if k < 0 then -k else k }

  function Gcd256(k: int): nat { Gcd(Abs(k), 256) }

  // ----- when the loop ends -----

  /** After `n` additions of `k` the cell is zero. */
  predicate ZeroAfter(v: int, k: int, n: int) { Wrap8(v + n * k) == 0 }

  lemma MultipleOf256(a: int, t: int)
    requires a == 256 * t
    ensures Wrap8(a) == 0
  {
  }

  lemma SomeCountReachesZero(v: int, k: int) returns (n: nat)
    requires Divides(Gcd256(k), v)
    ensures n < 256 && ZeroAfter(v, k, n)
  {
    var g := Gcd256(k);
    var w :| Product(g, w, v);
    var x, y := Bezout(Abs(k), 256);
    var x' := if k < 0 then -x else x;
    assert k * x' + 256 * y == g;
    var m := -(w * x');
    n := m % 256;
    CountAlgebra(v, k, g, w, x', y, n, m / 256);
    MultipleOf256(v + n * k, y * w - m / 256 * k);
  }

  lemma CountAlgebra(v: int, k: int, g: int, w: int, x: int, y: int, n: int, q: int)
    requires v == g * w && k * x + 256 * y == g && -(w * x) == 256 * q + n
    ensures v + n * k == 256 * (y * w - q * k)
  {
    assert g * w == (k * x + 256 * y) * w == k * x * w + 256 * (y * w);
    assert n * k == (-(w * x) - 256 * q) * k == -(k * x * w) - 256 * (q * k);
  }

  lemma ReachingZeroDivides(v: int, k: int, n: int)
    requires ZeroAfter(v, k, n)
    ensures Divides(Gcd256(k), v)
  {
    var g := Gcd256(k);
    var c, d := GcdDivides(Abs(k), 256);
    var c': int := if k < 0 then -(c as int) else c;
    assert k == g * c';
    var t := (v + n * k) / 256;
    ReachAlgebra(v, k, g, c', d, n, t);
    assert Product(g, d * t - n * c', v);
  }

  lemma ReachAlgebra(v: int, k: int, g: int, c: int, d: int, n: int, t: int)
    requires k == g * c && 256 == g * d && v + n * k == 256 * t
    ensures g * (d * t - n * c) == v
  {
    assert g * (d * t - n * c) == g * d * t - g * c * n;
    assert g * d * t == 256 * t && g * c * n == k * n;
  }

  lemma {:induction false} CountedIterations(k: int, s: State, n: nat, fuel: nat)
    requires s.OnTape() && ZeroAfter(s.Cell(), k, n) && n <= fuel
    ensures ExecLoop([TreeIr.Cell(k)], s, fuel) == Done(s.WithCell(0))
    decreases n
  {
    if s.Cell() == 0 {
      assert s.WithCell(0) == s;
    } else {
      var c := TreeIr.Cell(k);
      var t := ExecOne(c, s, fuel - 1).st;
      ExecSingle(c, s, fuel - 1);
      AddToCellWraps(s.Cell(), k);
      assert (n - 1) * k == n * k - k;
      Wrap8Add(s.Cell() + k, (n - 1) * k);
      CountedIterations(k, t, n - 1, fuel - 1);
    }
  }

  lemma {:induction false} IterationsCounted(k: int, s: State, fuel: nat) returns (n: nat)
    requires s.OnTape() && ExecLoop([TreeIr.Cell(k)], s, fuel).Done?
    ensures ZeroAfter(s.Cell(), k, n)
    decreases fuel
  {
    if s.Cell() == 0 {
      n := 0;
    } else {
      var c := TreeIr.Cell(k);
      var t := ExecOne(c, s, fuel - 1).st;
      ExecSingle(c, s, fuel - 1);
      AddToCellWraps(s.Cell(), k);
      var m := IterationsCounted(k, t, fuel - 1);
      Wrap8Add(s.Cell() + k, m * k);
      assert (m + 1) * k == m * k + k;
      n := m + 1;
    }
  }

  ghost predicate Ends(body: seq<Ir>, s: State) { exists fuel: nat :: ExecLoop(body, s, fuel).Done? }

  /** The loop ends iff gcd(k, 256) divides the cell, and then within 255 iterations. */
  lemma ClearingLoopEnds(k: int, s: State)
    requires s.OnTape()
    ensures Ends([TreeIr.Cell(k)], s) <==> Divides(Gcd256(k), s.Cell())
    ensures Ends([TreeIr.Cell(k)], s) <==> ExecLoop([TreeIr.Cell(k)], s, 255) == Done(s.WithCell(0))
  {
    if Divides(Gcd256(k), s.Cell()) {
      var n := SomeCountReachesZero(s.Cell(), k);
      CountedIterations(k, s, n, 255);
    }
    if Ends([TreeIr.Cell(k)], s) {
      var fuel: nat :| ExecLoop([TreeIr.Cell(k)], s, fuel).Done?;
      var n := IterationsCounted(k, s, fuel);
      ReachingZeroDivides(s.Cell(), k, n);
    }
  }

  lemma OddGcd(k: int)
    requires k % 2 != 0
    ensures Gcd256(k) == 1
  {
    hide Gcd;
    var c, d := GcdDivides(Abs(k), 256);
    OddFactor(Gcd256(k), c);
    assert Bits.Pow2(2) == 4 && Bits.Pow2(4) == 16 && Bits.Pow2(6) == 64 && Bits.Pow2(8) == 256;
    OddDivisor(Gcd256(k), d, 8);
  }

  lemma OddFactor(g: nat, c: nat)
    requires (g * c) % 2 == 1
    ensures g % 2 == 1
  {
    if g % 2 == 0 {
      EvenProduct(g / 2, c);
    }
  }

  lemma EvenProduct(a: int, c: int)
    ensures (2 * a * c) % 2 == 0
  {
    assert 2 * a * c == 2 * (a * c);
  }

  lemma OddProduct(a: int, b: int)
    ensures ((2 * a + 1) * (2 * b + 1)) % 2 == 1
  {
    assert (2 * a + 1) * (2 * b + 1) == 2 * (2 * a * b + a + b) + 1;
  }

  /** The only odd divisor of a power of two is 1. */
  lemma {:induction false} OddDivisor(g: nat, d: nat, n: nat)
    requires g * d == Bits.Pow2(n) && g % 2 == 1
    ensures g == 1
    decreases n
  {
    if n == 0 {
      UnitFactor(g, d);
    } else {
      if d % 2 == 1 {
        OddProduct(g / 2, d / 2);
      }
      HalfProduct(g, d / 2);
      OddDivisor(g, d / 2, n - 1);
    }
  }

  lemma UnitFactor(g: nat, d: nat)
    requires g * d == 1
    ensures g == 1
  {
    if d > 0 {
      assert g * d == g + g * (d - 1);
    }
  }

  lemma HalfProduct(g: int, h: int)
    ensures g * (2 * h) == 2 * (g * h)
  {
  }

  /** For an odd step the rewrite of zero_loop changes nothing, divergence included; for an even one it
      turns a loop that never ends into one instruction. */
  lemma ClearingIsExactWhenOdd(k: int)
    ensures (forall s: State :: s.OnTape() ==> Ends([TreeIr.Cell(k)], s)) <==> k % 2 != 0
  {
    if k % 2 != 0 {
      OddGcd(k);
      forall s: State | s.OnTape() ensures Ends([TreeIr.Cell(k)], s) {
        assert Product(1, s.Cell(), s.Cell());
        ClearingLoopEnds(k, s);
      }
    } else {
      var s := State(0, [1], [], []);
      if Ends([TreeIr.Cell(k)], s) {
        var fuel: nat :| ExecLoop([TreeIr.Cell(k)], s, fuel).Done?;
        var n := IterationsCounted(k, s, fuel);
        EvenNeverReachesZero(k, n);
      }
      assert s.OnTape();
    }
  }

  lemma EvenNeverReachesZero(k: int, n: int)
    requires k % 2 == 0
    ensures !ZeroAfter(1, k, n)
  {
    EvenProduct(k / 2, n);
    assert (2 * (k / 2) * n) == n * k;
  }

  // ----- the whole pass -----

  /** zero_loop only replaces loops that clear their cell. */
  function Zeroed(p: seq<Ir>): seq<Ir>
    decreases p
  {
    if p == [] then [] else [ZeroedOne(p[0])] + Zeroed(p[1..])
  }

  function ZeroedOne(i: Ir): Ir
    decreases i
  {
    if i.Loop? then (if IsClearing(i) then Set(0) else Loop(Zeroed(i.body))) else i
  }

  predicate IsClearing(i: Ir) { i.Loop? && |i.body| == 1 && i.body[0].Cell? }

  lemma {:induction false} FoldIsZeroed(acc: seq<Ir>, p: seq<Ir>)
    ensures Fold(ZERO_LOOP, acc, p) == Reverse(Zeroed(p)) + acc
    decreases p
  {
    if p == [] {
      assert Reverse(Zeroed(p)) + acc == acc;
    } else {
      hide ZeroedOne, Apply, Reverse;
      var i := p[0];
      ApplyIsZeroed(acc, i);
      FoldIsZeroed([ZeroedOne(i)] + acc, p[1..]);
      ReverseFront(ZeroedOne(i), Zeroed(p[1..]), acc);
    }
  }

  lemma ReverseFront(i: Ir, p: seq<Ir>, acc: seq<Ir>)
    ensures Reverse([i] + p) + acc == Reverse(p) + ([i] + acc)
  {
    assert ([i] + p)[1..] == p;
  }

  lemma {:induction false} ApplyIsZeroed(acc: seq<Ir>, i: Ir)
    ensures Apply(ZERO_LOOP, acc, i) == [ZeroedOne(i)] + acc
    decreases i
  {
    if i.Loop? {
      FoldIsZeroed([], i.body);
      ReverseTwice(Zeroed(i.body));
      assert Reverse(Zeroed(i.body)) + [] == Reverse(Zeroed(i.body));
      ClearingStaysClearing(i);
    }
  }

  lemma ClearingStaysClearing(i: Ir)
    requires i.Loop?
    ensures |Zeroed(i.body)| == |i.body|
    ensures IsClearing(Loop(Zeroed(i.body))) <==> IsClearing(i)
  {
    ZeroedLength(i.body);
  }

  lemma {:induction false} ZeroedLength(p: seq<Ir>)
    ensures |Zeroed(p)| == |p|
    decreases |p|
  {
    if p != [] {
      ZeroedLength(p[1..]);
    }
  }

  lemma RunIsZeroed(code: seq<Ir>)
    ensures Run([ZERO_LOOP], code) == Zeroed(code)
  {
    hide Fold, Reverse;
    var none: seq<Pass> := [];
    assert [ZERO_LOOP][1..] == none;
    assert RunPasses([ZERO_LOOP], code) == RunPasses(none, Fold(ZERO_LOOP, [], code));
    FoldIsZeroed([], code);
    assert Reverse(Zeroed(code)) + [] == Reverse(Zeroed(code));
    ReverseTwice(Zeroed(code));
  }

  /** Whatever the step, the loop becomes one instruction; a loop with another body stays a loop. */
  lemma ClearingReplaced(i: Ir)
    requires i.Loop?
    ensures if (exists k :: i.body == [TreeIr.Cell(k)]) then Run([ZERO_LOOP], [i]) == [Set(0)]
            else exists body :: Run([ZERO_LOOP], [i]) == [Loop(body)] && |body| == |i.body|
  {
    hide Run;
    RunIsZeroed([i]);
    assert [i][1..] == [] && Zeroed([i][1..]) == [];
    assert Zeroed([i]) == [ZeroedOne(i)];
    if |i.body| == 1 && i.body[0].Cell? {
      assert i.body == [TreeIr.Cell(i.body[0].n)];
    } else {
      ZeroedLength(i.body);
      assert Run([ZERO_LOOP], [i]) == [Loop(Zeroed(i.body))];
    }
  }

  /** Every clearing loop steps by an odd number. */
  predicate OddSteps(p: seq<Ir>)
    decreases p
  {
    p == [] || (OddStep(p[0]) && OddSteps(p[1..]))
  }

  predicate OddStep(i: Ir)
    decreases i
  {
    i.Loop? ==> if IsClearing(i) then i.body[0].n % 2 != 0 else OddSteps(i.body)
  }

  // ----- outcomes that go on from one another -----

  /** The same end or, where the run had no fuel left, at least its output. */
  predicate Reaches(o: Outcome, later: Outcome) {
    if o.Timeout? then o.st.output <= later.st.output else later == o
  }

  lemma {:induction false} OutputGrows(p: seq<Ir>, s: State, fuel: nat)
    ensures s.output <= Exec(p, s, fuel).st.output
    decreases fuel, p
  {
    hide ExecOne;
    if p != [] {
      OutputGrowsOne(p[0], s, fuel);
      var o := ExecOne(p[0], s, fuel);
      if o.Done? {
        OutputGrows(p[1..], o.st, fuel);
      }
    }
  }

  lemma {:induction false} OutputGrowsOne(i: Ir, s: State, fuel: nat)
    ensures s.output <= ExecOne(i, s, fuel).st.output
    decreases fuel, i
  {
    hide Exec, ExecLoop;
    if i.Loop? {
      OutputGrowsLoop(i.body, s, fuel);
    }
  }

  lemma {:induction false} OutputGrowsLoop(body: seq<Ir>, s: State, fuel: nat)
    ensures s.output <= ExecLoop(body, s, fuel).st.output
    decreases fuel, body, 1
  {
    hide Exec;
    if s.OnTape() && s.Cell() != 0 && fuel > 0 {
      OutputGrows(body, s, fuel - 1);
      var o := Exec(body, s, fuel - 1);
      if o.Done? {
        OutputGrowsLoop(body, o.st, fuel - 1);
      }
    }
  }

  lemma {:induction false} ClearingLoopIsSilent(k: int, s: State, fuel: nat)
    ensures ExecLoop([TreeIr.Cell(k)], s, fuel).st.output == s.output
    decreases fuel
  {
    hide Exec;
    if s.OnTape() && s.Cell() != 0 && fuel > 0 {
      ExecSingle(TreeIr.Cell(k), s, fuel - 1);
      ClearingLoopIsSilent(k, ExecOne(TreeIr.Cell(k), s, fuel - 1).st, fuel - 1);
    }
  }

  /** zero_loop never stops short of an end or of anything printed. */
  lemma {:induction false} ZeroedReaches(p: seq<Ir>, s: State, fuel: nat)
    ensures Reaches(Exec(p, s, fuel), Exec(Zeroed(p), s, fuel))
    decreases fuel, p
  {
    hide ExecOne, ZeroedOne;
    if p != [] {
      assert Zeroed(p)[0] == ZeroedOne(p[0]) && Zeroed(p)[1..] == Zeroed(p[1..]);
      ZeroedReachesOne(p[0], s, fuel);
      var o := ExecOne(p[0], s, fuel);
      if o.Done? {
        ZeroedReaches(p[1..], o.st, fuel);
      } else if ExecOne(ZeroedOne(p[0]), s, fuel).Done? {
        OutputGrows(Zeroed(p[1..]), ExecOne(ZeroedOne(p[0]), s, fuel).st, fuel);
      }
    }
  }

  lemma {:induction false} ZeroedReachesOne(i: Ir, s: State, fuel: nat)
    ensures Reaches(ExecOne(i, s, fuel), ExecOne(ZeroedOne(i), s, fuel))
    decreases fuel, i
  {
    hide Exec, ExecLoop;
    if i.Loop? {
      if IsClearing(i) {
        assert i.body == [TreeIr.Cell(i.body[0].n)];
        ClearingLoopEndsAtZero(i.body[0].n, s, fuel);
        ClearingLoopIsSilent(i.body[0].n, s, fuel);
      } else {
        ZeroedReachesLoop(i.body, s, fuel);
      }
    }
  }

  lemma {:induction false} ZeroedReachesLoop(body: seq<Ir>, s: State, fuel: nat)
    ensures Reaches(ExecLoop(body, s, fuel), ExecLoop(Zeroed(body), s, fuel))
    decreases fuel, body, 1
  {
    hide Exec;
    if s.OnTape() && s.Cell() != 0 && fuel > 0 {
      ZeroedReaches(body, s, fuel - 1);
      var o, z := Exec(body, s, fuel - 1), Exec(Zeroed(body), s, fuel - 1);
      if o.Done? {
        ZeroedReachesLoop(body, o.st, fuel - 1);
      } else if z.Done? {
        OutputGrowsLoop(Zeroed(body), z.st, fuel - 1);
      }
    }
  }

  // ----- the other way round -----

  /** The iterations that one clearing loop may need. */
  const SLACK: nat := 255

  /** With odd steps the program itself gets as far as the rewritten one, a little later. */
  lemma {:induction false} OddReaches(p: seq<Ir>, s: State, fuel: nat)
    requires OddSteps(p)
    ensures Reaches(Exec(Zeroed(p), s, fuel), Exec(p, s, fuel + SLACK))
    decreases fuel, p
  {
    hide ExecOne, ZeroedOne;
    if p != [] {
      assert Zeroed(p)[0] == ZeroedOne(p[0]) && Zeroed(p)[1..] == Zeroed(p[1..]);
      OddReachesOne(p[0], s, fuel);
      var z, o := ExecOne(ZeroedOne(p[0]), s, fuel), ExecOne(p[0], s, fuel + SLACK);
      if z.Done? {
        OddReaches(p[1..], z.st, fuel);
      } else if o.Done? {
        OutputGrows(p[1..], o.st, fuel + SLACK);
      }
    }
  }

  lemma {:induction false} OddReachesOne(i: Ir, s: State, fuel: nat)
    requires OddStep(i)
    ensures Reaches(ExecOne(ZeroedOne(i), s, fuel), ExecOne(i, s, fuel + SLACK))
    decreases fuel, i
  {
    hide Exec, ExecLoop;
    if i.Loop? {
      if IsClearing(i) {
        OddLoopIsSet(i, s, fuel + SLACK);
      } else {
        OddReachesLoop(i.body, s, fuel);
      }
    }
  }

  lemma OddLoopIsSet(i: Ir, s: State, fuel: nat)
    requires IsClearing(i) && i.body[0].n % 2 != 0 && fuel >= SLACK
    ensures ExecLoop(i.body, s, fuel) == ExecOne(Set(0), s, fuel)
  {
    var k := i.body[0].n;
    assert i.body == [TreeIr.Cell(k)];
    if s.OnTape() {
      OddGcd(k);
      assert Product(1, s.Cell(), s.Cell());
      var n := SomeCountReachesZero(s.Cell(), k);
      CountedIterations(k, s, n, fuel);
    }
  }

  lemma {:induction false} OddReachesLoop(body: seq<Ir>, s: State, fuel: nat)
    requires OddSteps(body)
    ensures Reaches(ExecLoop(Zeroed(body), s, fuel), ExecLoop(body, s, fuel + SLACK))
    decreases fuel, body, 1
  {
    hide Exec;
    if s.OnTape() && s.Cell() != 0 {
      if fuel == 0 {
        OutputGrowsLoop(body, s, SLACK);
      } else {
        OddReaches(body, s, fuel - 1);
        var z, o := Exec(Zeroed(body), s, fuel - 1), Exec(body, s, fuel - 1 + SLACK);
        if z.Done? {
          OddReachesLoop(body, z.st, fuel - 1);
        } else if o.Done? {
          OutputGrowsLoop(body, o.st, fuel - 1 + SLACK);
        }
      }
    }
  }

  ghost predicate ComesTo(p: seq<Ir>, s: State, o: Outcome) { exists fuel: nat :: Exec(p, s, fuel) == o }

  /** `q` comes to every end of `p` and prints at least as much at any time. */
  ghost predicate KeepsUp(p: seq<Ir>, q: seq<Ir>, delay: nat) {
    forall s, fuel: nat :: KeepsUpAt(p, q, delay, s, fuel)
  }

  ghost predicate KeepsUpAt(p: seq<Ir>, q: seq<Ir>, delay: nat, s: State, fuel: nat) {
    Reaches(Exec(p, s, fuel), Exec(q, s, fuel + delay))
  }

  /** zero_loop keeps every end and all output. When all clearing steps are odd it adds none either: then
      divergence is kept, and so is what a run that never ends prints. */
  lemma OddZeroLoopExact(code: seq<Ir>)
    ensures KeepsUp(code, Run([ZERO_LOOP], code), 0)
    ensures OddSteps(code) ==> KeepsUp(Run([ZERO_LOOP], code), code, SLACK)
  {
    hide Exec, OddSteps;
    RunIsZeroed(code);
    ZeroedKeepsUp(code);
  }

  lemma ZeroedKeepsUp(code: seq<Ir>)
    ensures KeepsUp(code, Zeroed(code), 0)
    ensures OddSteps(code) ==> KeepsUp(Zeroed(code), code, SLACK)
  {
    hide Exec, OddSteps, Reaches;
    forall s, fuel: nat ensures KeepsUpAt(code, Zeroed(code), 0, s, fuel) {
      ZeroedReaches(code, s, fuel);
    }
    if OddSteps(code) {
      forall s, fuel: nat ensures KeepsUpAt(Zeroed(code), code, SLACK, s, fuel) {
        OddReaches(code, s, fuel);
      }
    }
  }

  /** Keeping up both ways, two programs have the same ends, exceptions included. */
  lemma SameEnds(p: seq<Ir>, q: seq<Ir>, there: nat, back: nat, s: State, o: Outcome)
    requires KeepsUp(p, q, there) && KeepsUp(q, p, back) && !o.Timeout?
    ensures ComesTo(p, s, o) <==> ComesTo(q, s, o)
  {
    hide Exec;
    if ComesTo(p, s, o) {
      var fuel: nat :| Exec(p, s, fuel) == o;
      assert KeepsUpAt(p, q, there, s, fuel);
    }
    if ComesTo(q, s, o) {
      var fuel: nat :| Exec(q, s, fuel) == o;
      assert KeepsUpAt(q, p, back, s, fuel);
    }
  }

  lemma ZeroLoopPreserves(code: seq<Ir>)
    ensures Preserved(false, code, Run([ZERO_LOOP], code))
  {
    hide Preserved, Run, Sound, SoundBackwards;
    ZeroLoopSound();
    RunOrder(false, [ZERO_LOOP], code);
  }
}
