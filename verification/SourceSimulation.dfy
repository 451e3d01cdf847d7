/** The flat interpreter on the parsed operations does what the source text says, character by character. */
module SourceSimulation {
  import opened MachineInts
  import opened Runs
  import opened Store
  import opened Coverage
  import opened FlatIr
  import opened OpenBrackets
  import Source

  // ----- brackets found by scanning are the partners in the IR -----

  predicate NoBrackets(s: string) { '[' !in s && ']' !in s }

  lemma {:induction false} ScanSkips(src: string, i: nat, j: nat, depth: nat)
    requires i <= j <= |src| && NoBrackets(src[i..j])
    ensures Source.ScanForward(src, i, depth) == Source.ScanForward(src, j, depth)
    ensures Source.ScanBackward(src, j, depth) == Source.ScanBackward(src, i, depth)
    decreases j - i
  {
    if i < j {
      assert src[j - 1] in src[i..j];
      assert forall c :: c in src[i..j - 1] ==> c in src[i..j];
      ScanSkips(src, i, j - 1, depth);
    }
  }

  lemma PieceBrackets(src: string, ops: seq<Op>, cut: seq<nat>, k: nat)
    requires Covers(src, ops, cut) && k < |ops|
    ensures cut[k] <= cut[k + 1] <= |src|
    ensures ops[k].kind == LoopStart ==>
              cut[k] < cut[k + 1] && src[cut[k]] == '[' && OnlyComments(src[cut[k] + 1..cut[k + 1]])
    ensures ops[k].kind == LoopEnd ==>
              cut[k] < cut[k + 1] && src[cut[k]] == ']' && OnlyComments(src[cut[k] + 1..cut[k + 1]])
    ensures ops[k].kind != LoopStart && ops[k].kind != LoopEnd ==> NoBrackets(src[cut[k]..cut[k + 1]])
  {
    assert Piece(src, ops, cut, k);
    var text := src[cut[k]..cut[k + 1]];
    if text != [] {
      assert text[1..] == src[cut[k] + 1..cut[k + 1]];
    }
  }

  /** Scanning passes over a closed range at the same depth, in both directions. */
  lemma {:induction false} ScanPasses(src: string, ops: seq<Op>, cut: seq<nat>, lo: nat, hi: nat, depth: nat)
    requires Covers(src, ops, cut) && Closed(ops, lo, hi) && Paired(ops, lo, hi)
    ensures cut[lo] <= |src| && cut[hi] <= |src|
    ensures Source.ScanForward(src, cut[lo], depth) == Source.ScanForward(src, cut[hi], depth)
    ensures Source.ScanBackward(src, cut[hi], depth) == Source.ScanBackward(src, cut[lo], depth)
    decreases hi - lo
  {
    hide Covers, Source.ScanForward, Source.ScanBackward;
    if lo == hi {
      CutInside(src, ops, cut, lo);
    } else {
      CutCount(src, ops, cut);
      RestClosed(ops, lo, hi);
      PieceBrackets(src, ops, cut, lo);
      if ops[lo].kind == LoopStart {
        var j := lo + ops[lo].arg;
        BodyClosedIn(ops, lo, hi, lo);
        PieceBrackets(src, ops, cut, j);
        ScanBracket(src, cut[lo], depth);
        ScanBracket(src, cut[j], depth);
        ScanSkips(src, cut[lo] + 1, cut[lo + 1], depth + 1);
        ScanPasses(src, ops, cut, lo + 1, j, depth + 1);
        ScanSkips(src, cut[j] + 1, cut[j + 1], depth);
        ScanPasses(src, ops, cut, j + 1, hi, depth);
      } else {
        ScanSkips(src, cut[lo], cut[lo + 1], depth);
        ScanPasses(src, ops, cut, lo + 1, hi, depth);
      }
    }
  }

  lemma ScanBracket(src: string, i: nat, depth: nat)
    requires i < |src| && src[i] in "[]"
    ensures src[i] == '[' ==> Source.ScanForward(src, i, depth) == Source.ScanForward(src, i + 1, depth + 1)
    ensures src[i] == ']' ==> Source.ScanForward(src, i, depth + 1) == Source.ScanForward(src, i + 1, depth)
    ensures src[i] == '[' ==> Source.ScanBackward(src, i + 1, depth + 1) == Source.ScanBackward(src, i, depth)
    ensures src[i] == ']' ==> Source.ScanBackward(src, i + 1, depth) == Source.ScanBackward(src, i, depth + 1)
  {
  }

  lemma CutCount(src: string, ops: seq<Op>, cut: seq<nat>)
    requires Covers(src, ops, cut)
    ensures |cut| == |ops| + 1
  {
  }

  lemma CutInside(src: string, ops: seq<Op>, cut: seq<nat>, k: nat)
    requires Covers(src, ops, cut) && k <= |ops|
    ensures cut[k] <= |src|
  {
    if k < |ops| {
      assert Piece(src, ops, cut, k);
    }
  }

  /** The bracket counted out in the text is the one the IR jumps to. */
  lemma PartnersAgree(src: string, ops: seq<Op>, cut: seq<nat>, k: nat)
    requires Represents(src, ops, cut) && k < |ops| && ops[k].kind == LoopStart && !IsPending(ops[k])
    ensures PairOk(ops, k) && cut[k] < |src| && cut[k + ops[k].arg] < |src|
    ensures Source.ScanForward(src, cut[k] + 1, 0) == cut[k + ops[k].arg]
    ensures Source.ScanBackward(src, cut[k + ops[k].arg], 0) == cut[k]
  {
    OpenHere(ops, k);
    PairIsClosed(ops, k);
    BodyClosedIn(ops, k, k + ops[k].arg + 1, k);
    var j := k + ops[k].arg;
    PieceBrackets(src, ops, cut, k);
    PieceBrackets(src, ops, cut, j);
    ScanPasses(src, ops, cut, k + 1, j, 0);
    ScanSkips(src, cut[k] + 1, cut[k + 1], 0);
  }

  /** Behind a start that is never closed nothing closes a bracket from in front of it. */
  lemma {:induction false} ScanRunsOut(src: string, ops: seq<Op>, cut: seq<nat>, i: nat, depth: nat)
    requires Represents(src, ops, cut) && i <= |ops| && Outside(ops, i)
    ensures cut[i] <= |src| && Source.ScanForward(src, cut[i], depth) == |src|
    decreases |ops| - i
  {
    hide Covers, Source.ScanForward, Source.ScanBackward, Open, Outside;
    CutInside(src, ops, cut, i);
    if i == |ops| {
      ScanEnds(src, ops, cut, depth);
    } else {
      CutCount(src, ops, cut);
      OutsideNext(ops, i);
      PieceBrackets(src, ops, cut, i);
      if ops[i].kind == LoopStart && !IsPending(ops[i]) {
        ScanPasses(src, ops, cut, i, i + ops[i].arg + 1, depth);
        ScanRunsOut(src, ops, cut, i + ops[i].arg + 1, depth);
      } else if ops[i].kind == LoopStart {
        ScanBracket(src, cut[i], depth);
        ScanSkips(src, cut[i] + 1, cut[i + 1], depth + 1);
        ScanRunsOut(src, ops, cut, i + 1, depth + 1);
      } else {
        ScanSkips(src, cut[i], cut[i + 1], depth);
        ScanRunsOut(src, ops, cut, i + 1, depth);
      }
    }
  }

  lemma ScanEnds(src: string, ops: seq<Op>, cut: seq<nat>, depth: nat)
    requires Covers(src, ops, cut)
    ensures cut[|ops|] == |src| && Source.ScanForward(src, |src|, depth) == |src|
  {
  }

  /** A pending start of the operations is a `[` without a partner in the text. */
  lemma PendingHasNoPartner(src: string, ops: seq<Op>, cut: seq<nat>, k: nat)
    requires Represents(src, ops, cut) && k < |ops| && IsPending(ops[k])
    ensures cut[k] < |src| && Source.ScanForward(src, cut[k] + 1, 0) == |src|
  {
    hide Covers, Source.ScanForward, Source.ScanBackward;
    CutCount(src, ops, cut);
    PieceBrackets(src, ops, cut, k);
    PendingOutside(ops, k);
    ScanSkips(src, cut[k] + 1, cut[k + 1], 0);
    ScanRunsOut(src, ops, cut, k + 1, 0);
  }

  // ----- running the text of one operation -----

  ghost predicate StaysOnTape(src: string, c: Config) {
    forall n: nat :: OnTapeView(Iterate(Source.Step(src), n, c))
  }

  lemma StaysOnTapeLater(src: string, c: Config, n: nat)
    requires StaysOnTape(src, c)
    ensures StaysOnTape(src, Iterate(Source.Step(src), n, c)) && OnTapeView(c)
    ensures OnTapeView(Iterate(Source.Step(src), n, c))
  {
    assert Iterate(Source.Step(src), 0, c) == c;
    forall m: nat ensures OnTapeView(Iterate(Source.Step(src), m, Iterate(Source.Step(src), n, c))) {
      IterateAdd(Source.Step(src), n, m, c);
    }
  }

  /** The pointer is on the tape for the first `n` steps. */
  ghost predicate SafeFor(src: string, x: Config, n: nat) {
    forall i: nat :: i <= n ==> OnTapeView(Iterate(Source.Step(src), i, x))
  }

  lemma SafeJoin(src: string, x: Config, m: nat, n: nat)
    requires SafeFor(src, x, m) && SafeFor(src, Iterate(Source.Step(src), m, x), n)
    ensures SafeFor(src, x, m + n)
  {
    forall i: nat | i <= m + n ensures OnTapeView(Iterate(Source.Step(src), i, x)) {
      if i > m {
        IterateAdd(Source.Step(src), m, i - m, x);
        assert OnTapeView(Iterate(Source.Step(src), i - m, Iterate(Source.Step(src), m, x)));
      }
    }
  }

  function Apply(kind: Kind, n: int, s: State): State
    requires s.OnTape()
  {
    match kind
    case Tape => s.Move(n)
    case Cell => s.AddCell(n)
    case Read => if n > 0 then ReadN(s, n) else s
    case Write => if n > 0 then WriteN(s, n) else s
    case _ => s
  }

  /** One more character of a piece. */
  lemma ApplyChar(src: string, kind: Kind, n: int, s: State, j: nat)
    requires s.OnTape() && j < |src| && (kind == Read || kind == Write ==> n >= 0)
    requires kind in {Tape, Cell, Read, Write}
    requires Source.IsComment(src[j]) || Weight(kind, src[j]) != 0
    ensures Source.Step(src)(Running(j, Apply(kind, n, s))) == Running(j + 1, Apply(kind, n + Weight(kind, src[j]), s))
  {
    match kind
    case Cell => Wrap8Add(s.Cell() + n, Weight(kind, src[j]));
    case Read => ReadNStep(s, n);
    case Write => WriteNStep(s, n);
    case _ =>
  }

  lemma {:induction false} PieceRuns(src: string, kind: Kind, i: nat, j: nat, s: State)
    requires i <= j <= |src| && kind in {Tape, Cell, Read, Write} && s.OnTape()
    requires forall c :: c in src[i..j] ==> Source.IsComment(c) || Weight(kind, c) != 0
    ensures Iterate(Source.Step(src), j - i, Running(i, s)) == Running(j, Apply(kind, Net(kind, src[i..j]), s))
    decreases j - i
  {
    hide Weight, Apply, Source.Step, Source.IsComment, Net, Iterate;
    if i == j {
      assert src[i..j] == [];
      PieceEmpty(src, kind, i, s);
    } else {
      PieceLast(src, kind, i, j);
      PieceRuns(src, kind, i, j - 1, s);
      NetGrows(kind, src[i..j - 1], src[j - 1]);
      ApplyChar(src, kind, Net(kind, src[i..j - 1]), s, j - 1);
      IterateAdd(Source.Step(src), j - 1 - i, 1, Running(i, s));
      OneStep(Source.Step(src), Iterate(Source.Step(src), j - 1 - i, Running(i, s)));
    }
  }

  lemma PieceEmpty(src: string, kind: Kind, i: nat, s: State)
    requires s.OnTape()
    ensures Iterate(Source.Step(src), 0, Running(i, s)) == Running(i, Apply(kind, Net(kind, []), s))
  {
    hide Apply, Source.Step;
    ApplyNothing(kind, s);
  }

  lemma PieceLast(src: string, kind: Kind, i: nat, j: nat)
    requires i < j <= |src| && forall c :: c in src[i..j] ==> Source.IsComment(c) || Weight(kind, c) != 0
    ensures src[i..j] == src[i..j - 1] + [src[j - 1]]
    ensures Source.IsComment(src[j - 1]) || Weight(kind, src[j - 1]) != 0
    ensures forall c :: c in src[i..j - 1] ==> Source.IsComment(c) || Weight(kind, c) != 0
  {
    hide Weight, Source.IsComment;
    assert src[i..j][j - 1 - i] == src[j - 1];
  }

  lemma ApplyNothing(kind: Kind, s: State)
    requires s.OnTape()
    ensures Apply(kind, 0, s) == s
  {
    assert s.AddCell(0) == s;
  }

  /** Comments change nothing. */
  lemma CommentsRun(src: string, i: nat, j: nat, s: State)
    requires i <= j <= |src| && OnlyComments(src[i..j]) && s.OnTape()
    ensures Iterate(Source.Step(src), j - i, Running(i, s)) == Running(j, s)
  {
    PieceRuns(src, Tape, i, j, s);
    NetOfComments(src[i..j]);
  }

  lemma CommentsSafe(src: string, i: nat, j: nat, s: State)
    requires i <= j <= |src| && OnlyComments(src[i..j]) && s.OnTape()
    ensures SafeFor(src, Running(i, s), j - i)
  {
    hide Source.Step, Source.IsComment;
    forall k: nat | k <= j - i ensures OnTapeView(Iterate(Source.Step(src), k, Running(i, s))) {
      assert src[i..i + k] == src[i..j][..k];
      CommentsRun(src, i, i + k, s);
    }
  }

  lemma {:induction false} NetOfComments(s: string)
    requires OnlyComments(s)
    ensures Net(Tape, s) == 0
  {
    if s != [] {
      assert s[|s| - 1] in s;
      NetOfComments(s[..|s| - 1]);
    }
  }

  // ----- the simulation -----

  ghost predicate Represents(src: string, ops: seq<Op>, cut: seq<nat>) {
    Open(ops) && Covers(src, ops, cut)
  }

  /** The interpreter in front of operation `ip` is the source in front of its piece. */
  ghost predicate Related(src: string, ops: seq<Op>, cut: seq<nat>, c: Config, x: Config) {
    && |cut| == |ops| + 1
    && StaysOnTape(src, x)
    && match c
       case Running(ip, s) => 0 <= ip <= |ops| && x == Running(cut[ip], s)
       case Halted(s) => x == c
       case Crashed(_) => false
  }

  ghost function Relation(src: string, ops: seq<Op>, cut: seq<nat>): (Config, Config) -> bool {
    (c: Config, x: Config) => Related(src, ops, cut, c, x)
  }

  function Rank(ops: seq<Op>): Config -> nat {
    (c: Config) => if c.Running? && 0 <= c.pc <= |ops| then |ops| - c.pc else 0
  }

  lemma PlainSimulates(src: string, ops: seq<Op>, cut: seq<nat>, ip: nat, s: State) returns (n: nat)
    requires Represents(src, ops, cut) && ip < |ops| && ops[ip].kind !in {LoopStart, LoopEnd}
    requires s.OnTape() && StaysOnTape(src, Running(cut[ip], s))
    ensures NoWrap(WithHalt(ops), Running(ip, s))
    ensures Execute(ops[ip], ip, s).Running? && Execute(ops[ip], ip, s).pc == ip + 1
    ensures Iterate(Source.Step(src), n, Running(cut[ip], s)) == Running(cut[ip + 1], Execute(ops[ip], ip, s).st)
  {
    hide Source.Step, StaysOnTape, Net;
    assert Piece(src, ops, cut, ip);
    n := cut[ip + 1] - cut[ip];
    PieceRuns(src, ops[ip].kind, cut[ip], cut[ip + 1], s);
    StaysOnTapeLater(src, Running(cut[ip], s), n);
  }

  /** A bracket takes the source to `at`; the comments behind it lead to the next piece. */
  lemma BranchSimulates(src: string, at: nat, next: nat, x: Config, s: State) returns (n: nat)
    requires at <= next <= |src| && OnlyComments(src[at..next])
    requires s.OnTape() && OnTapeView(x) && Source.Step(src)(x) == Running(at, s)
    ensures n > 0 && Iterate(Source.Step(src), n, x) == Running(next, s) && SafeFor(src, x, n)
  {
    OneStep(Source.Step(src), x);
    CommentsRun(src, at, next, s);
    CommentsSafe(src, at, next, s);
    n := 1 + (next - at);
    IterateAdd(Source.Step(src), 1, next - at, x);
    assert SafeFor(src, x, 1);
    SafeJoin(src, x, 1, next - at);
  }

  lemma StartHasPartner(ops: seq<Op>, k: nat)
    requires Open(ops) && k < |ops| && ops[k].kind == LoopStart && !IsPending(ops[k])
    ensures 0 < ops[k].arg && k + ops[k].arg < |ops| && ops[k + ops[k].arg].kind == LoopEnd
  {
    OpenHere(ops, k);
  }

  lemma EndHasPartner(ops: seq<Op>, k: nat)
    requires Open(ops) && k < |ops| && ops[k].kind == LoopEnd
    ensures ops[k].arg < 0 <= k + ops[k].arg && ops[k + ops[k].arg] == Op(LoopStart, -ops[k].arg)
  {
    OpenHere(ops, k);
  }

  lemma LoopStartSimulates(src: string, ops: seq<Op>, cut: seq<nat>, ip: nat, s: State) returns (n: nat)
    requires Represents(src, ops, cut) && ip < |ops| && ops[ip].kind == LoopStart
    requires s.OnTape()
    ensures var next := Execute(ops[ip], ip, s);
            n > 0 && next.Running? && 0 <= next.pc <= |ops| && next.st == s
            && Iterate(Source.Step(src), n, Running(cut[ip], s)) == Running(cut[next.pc], s) && SafeFor(src, Running(cut[ip], s), n)
  {
    hide Covers, Open, PairOk, Source.ScanForward, Source.ScanBackward;
    CutCount(src, ops, cut);
    if IsPending(ops[ip]) {
      PendingHasNoPartner(src, ops, cut, ip);
    } else {
      StartHasPartner(ops, ip);
      PartnersAgree(src, ops, cut, ip);
    }
    var from := if s.Cell() == 0 then ip + ops[ip].arg else ip;
    PieceBrackets(src, ops, cut, ip);
    PieceBrackets(src, ops, cut, from);
    n := BranchSimulates(src, cut[from] + 1, cut[from + 1], Running(cut[ip], s), s);
  }

  lemma LoopEndSimulates(src: string, ops: seq<Op>, cut: seq<nat>, ip: nat, s: State) returns (n: nat)
    requires Represents(src, ops, cut) && ip < |ops| && ops[ip].kind == LoopEnd
    requires s.OnTape()
    ensures var next := Execute(ops[ip], ip, s);
            n > 0 && next.Running? && 0 <= next.pc <= |ops| && next.st == s
            && Iterate(Source.Step(src), n, Running(cut[ip], s)) == Running(cut[next.pc], s) && SafeFor(src, Running(cut[ip], s), n)
  {
    hide Covers, Open, PairOk, Source.ScanForward, Source.ScanBackward;
    CutCount(src, ops, cut);
    EndHasPartner(ops, ip);
    PartnersAgree(src, ops, cut, ip + ops[ip].arg);
    var from := if s.Cell() != 0 then ip + ops[ip].arg else ip;
    PieceBrackets(src, ops, cut, ip);
    PieceBrackets(src, ops, cut, from);
    n := BranchSimulates(src, cut[from] + 1, cut[from + 1], Running(cut[ip], s), s);
  }

  lemma StepSimulates(src: string, ops: seq<Op>, cut: seq<nat>, c: Config, x: Config) returns (n: nat)
    requires Represents(src, ops, cut) && Related(src, ops, cut, c, x)
    ensures NoWrap(WithHalt(ops), c)
    ensures Advances(Step(WithHalt(ops)), Source.Step(src), Relation(src, ops, cut), Rank(ops), c, x, n)
  {
    hide StaysOnTape, Open, StandsFor, Source.Execute, Execute;
    n := 1;
    OneStep(Source.Step(src), x);
    if c.Running? {
      StaysOnTapeLater(src, x, 0);
      if c.pc == |ops| {
        HaltStops(c.pc, c.st);
      } else if ops[c.pc].kind == LoopStart {
        n := LoopStartSimulates(src, ops, cut, c.pc, c.st);
      } else if ops[c.pc].kind == LoopEnd {
        n := LoopEndSimulates(src, ops, cut, c.pc, c.st);
      } else {
        n := PlainSimulates(src, ops, cut, c.pc, c.st);
      }
    }
    StaysOnTapeLater(src, x, n);
  }

  lemma HaltStops(ip: nat, s: State)
    ensures Execute(Op(Halt, 0), ip, s) == Halted(s)
  {
  }

  lemma RepresentsSimulates(src: string, ops: seq<Op>, cut: seq<nat>)
    requires Represents(src, ops, cut)
    ensures Simulation(Step(WithHalt(ops)), Source.Step(src), Relation(src, ops, cut), Rank(ops))
  {
    forall c, x ensures CanAdvance(Step(WithHalt(ops)), Source.Step(src), Relation(src, ops, cut), Rank(ops), c, x) {
      if Related(src, ops, cut, c, x) {
        var n := StepSimulates(src, ops, cut, c, x);
      }
    }
  }

  ghost function SameStore(): (Config, Config) -> bool {
    (c: Config, x: Config) => SameView(c, x)
  }

  /** If the pointer of the source run never leaves the tape, the flat interpreter and the source text
      keep meeting with the same store, and no move of the interpreter wraps. */
  lemma RepresentsSameRuns(src: string, ops: seq<Op>, cut: seq<nat>, s: State)
    requires Represents(src, ops, cut) && StaysOnTape(src, Running(0, s))
    ensures SameRuns(Step(WithHalt(ops)), Running(0, s), Source.Step(src), Running(0, s), SameStore())
    ensures FlatIr.StaysOnTape(WithHalt(ops), Running(0, s))
  {
    hide Represents, StaysOnTape, NoWrap;
    var a, b := Step(WithHalt(ops)), Source.Step(src);
    var skip := LeadingComments(src, ops, cut, s);
    var x := Iterate(b, skip, Running(0, s));
    RepresentsSimulates(src, ops, cut);
    SimulationGivesSameRuns(a, b, Relation(src, ops, cut), Rank(ops), Running(0, s), x);
    SameRunsWeaken(a, Running(0, s), b, x, Relation(src, ops, cut), SameStore());
    SameRunsFromEarlier(a, Running(0, s), b, Running(0, s), skip, SameStore());
    forall n: nat ensures NoWrap(WithHalt(ops), Iterate(a, n, Running(0, s))) {
      assert MeetsAt(a, Running(0, s), n, b, x, Relation(src, ops, cut));
      var m: nat :| Meets(a, Running(0, s), n, b, x, m, Relation(src, ops, cut));
      var k := StepSimulates(src, ops, cut, Iterate(a, n, Running(0, s)), Iterate(b, m, x));
    }
  }

  lemma LeadingComments(src: string, ops: seq<Op>, cut: seq<nat>, s: State) returns (n: nat)
    requires Represents(src, ops, cut) && StaysOnTape(src, Running(0, s))
    ensures Related(src, ops, cut, Running(0, s), Iterate(Source.Step(src), n, Running(0, s)))
  {
    StaysOnTapeLater(src, Running(0, s), 0);
    n := cut[0];
    CommentsRun(src, 0, n, s);
    StaysOnTapeLater(src, Running(0, s), n);
  }
}
