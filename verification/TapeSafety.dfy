/** From the operations back to the text: a run of the interpreter on the tape keeps the text on the tape,
    provided that no move of the text goes back and forth. */
module TapeSafety {
  import Runs
  import opened Store
  import opened Coverage
  import opened FlatIr
  import OpenBrackets
  import opened SourceSimulation
  import Source

  predicate OneWay(text: string) { '<' !in text || '>' !in text }

  ghost predicate OneWays(src: string, ops: seq<Op>, cut: seq<nat>)
    requires Covers(src, ops, cut)
  {
    forall k :: 0 <= k < |ops| && ops[k].kind == Tape ==> OneWayPiece(src, ops, cut, k)
  }

  ghost predicate OneWayPiece(src: string, ops: seq<Op>, cut: seq<nat>, k: nat)
    requires Covers(src, ops, cut) && k < |ops|
  {
    assert Piece(src, ops, cut, k);
    OneWay(src[cut[k]..cut[k + 1]])
  }

  lemma NoPieces(src: string, cut: seq<nat>)
    requires Covers(src, [], cut)
    ensures OneWays(src, [], cut)
  {
  }

  lemma OneWaysAppend(src: string, ops: seq<Op>, cut: seq<nat>, text: string, op: Op, cut': seq<nat>)
    requires Covers(src, ops, cut) && OneWays(src, ops, cut) && (op.kind == Tape ==> OneWay(text))
    requires Covers(src + text, ops + [op], cut') && cut' == cut + [|src + text|]
    ensures OneWays(src + text, ops + [op], cut')
  {
    hide StandsFor;
    var src', ops' := src + text, ops + [op];
    forall k | 0 <= k < |ops'| && ops'[k].kind == Tape ensures OneWayPiece(src', ops', cut', k) {
      if k < |ops| {
        assert OneWayPiece(src, ops, cut, k) && Piece(src, ops, cut, k);
        assert src'[cut[k]..cut[k + 1]] == src[cut[k]..cut[k + 1]];
      } else {
        assert src'[cut'[k]..cut'[k + 1]] == text;
      }
    }
  }

  lemma OneWaysComment(src: string, ops: seq<Op>, cut: seq<nat>, c: char, cut': seq<nat>)
    requires Covers(src, ops, cut) && OneWays(src, ops, cut) && Source.IsComment(c)
    requires Covers(src + [c], ops, cut') && cut' == cut[|ops| := |src| + 1]
    ensures OneWays(src + [c], ops, cut')
  {
    hide StandsFor;
    var src' := src + [c];
    forall k | 0 <= k < |ops| && ops[k].kind == Tape ensures OneWayPiece(src', ops, cut', k) {
      assert OneWayPiece(src, ops, cut, k) && Piece(src, ops, cut, k);
      if k + 1 < |ops| {
        assert src'[cut'[k]..cut'[k + 1]] == src[cut[k]..cut[k + 1]];
      } else {
        assert src'[cut'[k]..cut'[k + 1]] == src[cut[k]..cut[k + 1]] + [c];
      }
    }
  }

  /** Moves in one direction never lie outside the way they go. */
  lemma {:induction false} NetBetween(text: string, k: nat)
    requires OneWay(text) && k <= |text|
    ensures 0 <= Net(Tape, text[..k]) <= Net(Tape, text) || Net(Tape, text) <= Net(Tape, text[..k]) <= 0
    decreases |text|
  {
    if k == |text| {
      assert text[..k] == text;
      NetSign(text);
    } else {
      var front, last := text[..|text| - 1], text[|text| - 1];
      assert text == front + [last] && front[..k] == text[..k] && last in text;
      assert forall c :: c in front ==> c in text;
      NetBetween(front, k);
      NetSign(front);
      NetGrows(Tape, front, last);
    }
  }

  lemma {:induction false} NetSign(text: string)
    requires OneWay(text)
    ensures '<' !in text ==> 0 <= Net(Tape, text)
    ensures '>' !in text ==> Net(Tape, text) <= 0
    ensures '<' !in text || '>' !in text
  {
    if text != [] {
      var front := text[..|text| - 1];
      assert text[|text| - 1] in text && forall c :: c in front ==> c in text;
      NetSign(front);
    }
  }

  /** The text of one operation ends where the operation does, and stays on the tape until then. */
  lemma PieceSafe(src: string, ops: seq<Op>, cut: seq<nat>, ip: nat, s: State) returns (n: nat)
    requires Represents(src, ops, cut) && OneWays(src, ops, cut) && ip < |ops| && ops[ip].kind !in {LoopStart, LoopEnd}
    requires s.OnTape() && NoWrap(WithHalt(ops), Running(ip, s))
    ensures var next := Execute(ops[ip], ip, s);
            && next.Running? && next.pc == ip + 1 && next.st.OnTape()
            && Runs.Iterate(Source.Step(src), n, Running(cut[ip], s)) == Running(cut[ip + 1], next.st)
            && SafeFor(src, Running(cut[ip], s), n)
  {
    hide Source.Step, Net;
    assert Piece(src, ops, cut, ip);
    var kind, text := ops[ip].kind, src[cut[ip]..cut[ip + 1]];
    n := cut[ip + 1] - cut[ip];
    PieceRuns(src, kind, cut[ip], cut[ip + 1], s);
    forall i: nat | i <= n ensures OnTapeView(Runs.Iterate(Source.Step(src), i, Running(cut[ip], s))) {
      assert src[cut[ip]..cut[ip] + i] == text[..i];
      PieceRuns(src, kind, cut[ip], cut[ip] + i, s);
      if kind == Tape {
        assert OneWayPiece(src, ops, cut, ip);
        NetBetween(text, i);
      }
    }
  }

  ghost predicate Behind(src: string, ops: seq<Op>, cut: seq<nat>, c: Config, x: Config) {
    && |cut| == |ops| + 1
    && FlatIr.StaysOnTape(WithHalt(ops), c)
    && c.st.OnTape()
    && match c
       case Running(ip, s) => 0 <= ip <= |ops| && x == Running(cut[ip], s)
       case Halted(s) => x == c
       case Crashed(_) => false
  }

  lemma StepSafe(src: string, ops: seq<Op>, cut: seq<nat>, c: Config, x: Config) returns (n: nat)
    requires Represents(src, ops, cut) && OneWays(src, ops, cut) && Behind(src, ops, cut, c, x)
    ensures SafeFor(src, x, n) && Behind(src, ops, cut, Step(WithHalt(ops))(c), Runs.Iterate(Source.Step(src), n, x))
    ensures n > 0 || Rank(ops)(Step(WithHalt(ops))(c)) < Rank(ops)(c)
  {
    hide OpenBrackets.Open, StandsFor, Source.Execute, Execute, FlatIr.StaysOnTape, OneWays;
    n := 1;
    Runs.OneStep(Source.Step(src), x);
    StaysOnTapeStep(WithHalt(ops), c);
    if c.Running? {
      if c.pc == |ops| {
        HaltStops(c.pc, c.st);
      } else if ops[c.pc].kind == LoopStart {
        n := LoopStartSimulates(src, ops, cut, c.pc, c.st);
      } else if ops[c.pc].kind == LoopEnd {
        n := LoopEndSimulates(src, ops, cut, c.pc, c.st);
      } else {
        n := PieceSafe(src, ops, cut, c.pc, c.st);
      }
    }
  }

  lemma {:induction false} RunSafe(src: string, ops: seq<Op>, cut: seq<nat>, c: Config, x: Config, m: nat)
    requires Represents(src, ops, cut) && OneWays(src, ops, cut) && Behind(src, ops, cut, c, x)
    ensures SafeFor(src, x, m)
    decreases m, Rank(ops)(c)
  {
    hide Represents, OneWays, Behind;
    var n := StepSafe(src, ops, cut, c, x);
    if n < m {
      RunSafe(src, ops, cut, Step(WithHalt(ops))(c), Runs.Iterate(Source.Step(src), n, x), m - n);
      SafeJoin(src, x, n, m - n);
    }
  }

  /** The text stays on the tape exactly when the interpreter does. */
  lemma TextStaysOnTape(src: string, ops: seq<Op>, cut: seq<nat>, s: State)
    requires Represents(src, ops, cut) && OneWays(src, ops, cut) && s.OnTape()
    ensures SourceSimulation.StaysOnTape(src, Running(0, s)) <==> FlatIr.StaysOnTape(WithHalt(ops), Running(0, s))
  {
    if SourceSimulation.StaysOnTape(src, Running(0, s)) {
      RepresentsSameRuns(src, ops, cut, s);
    }
    if FlatIr.StaysOnTape(WithHalt(ops), Running(0, s)) {
      CommentsRun(src, 0, cut[0], s);
      CommentsSafe(src, 0, cut[0], s);
      forall n: nat ensures OnTapeView(Runs.Iterate(Source.Step(src), n, Running(0, s))) {
        RunSafe(src, ops, cut, Running(0, s), Running(cut[0], s), n);
        SafeJoin(src, Running(0, s), cut[0], n);
      }
    }
  }
}
