/** The bracket structure of what the parser accepts: brackets in pairs, and starts that are never closed. */
module OpenBrackets {
  import opened FlatIr
  import Brackets
  import FrontEnd

  /** A start whose distance has not been filled in. */
  predicate IsPending(op: Op) { op == Op(LoopStart, 0) }

  /** Brackets are paired or pending, and no pair holds a pending start. */
  ghost predicate Open(prog: seq<Op>) {
    forall k :: 0 <= k < |prog| ==> OpenAt(prog, k)
  }

  ghost predicate OpenAt(prog: seq<Op>, k: nat)
    requires k < |prog|
  {
    IsPending(prog[k]) || (PairOk(prog, k) && (prog[k].kind == LoopStart ==> NonePending(prog, k, k + prog[k].arg)))
  }

  predicate NonePending(prog: seq<Op>, lo: nat, hi: int) {
    forall m :: lo <= m < hi && m < |prog| ==> !IsPending(prog[m])
  }

  /** What every text is parsed to. */
  lemma ParsedIsOpen(chunks: seq<string>)
    ensures Open(FrontEnd.ParseChunks(FrontEnd.EMPTY, chunks).ops)
    ensures Open(WithHalt(FrontEnd.ParseChunks(FrontEnd.EMPTY, chunks).ops))
  {
    Brackets.ParserTracksBrackets(chunks);
    var p := FrontEnd.ParseChunks(FrontEnd.EMPTY, chunks);
    forall k | 0 <= k < |p.ops| ensures OpenAt(p.ops, k) {
      assert Brackets.SlotOk(p, k);
      if k !in p.patch && p.ops[k].kind == LoopStart {
        forall m | k <= m < k + p.ops[k].arg ensures !IsPending(p.ops[m]) {
          assert Brackets.SlotOk(p, m);
        }
      }
    }
    OpenWithHalt(p.ops);
  }

  lemma OpenWithHalt(ops: seq<Op>)
    requires Open(ops)
    ensures Open(WithHalt(ops))
  {
    forall k | 0 <= k < |WithHalt(ops)| ensures OpenAt(WithHalt(ops), k) {
      if k < |ops| {
        assert OpenAt(ops, k);
      }
    }
  }

  lemma BalancedIsOpen(ops: seq<Op>)
    requires Balanced(ops)
    ensures Open(ops) && forall k :: 0 <= k < |ops| ==> !IsPending(ops[k])
  {
    forall k | 0 <= k < |ops| ensures PairOk(ops, k) && !IsPending(ops[k]) {
    }
  }

  /** No pair begins before `i` and ends behind it. */
  ghost predicate Outside(prog: seq<Op>, i: nat) {
    forall m :: 0 <= m < i && m < |prog| && prog[m].kind == LoopStart ==> m + prog[m].arg < i
  }

  lemma PairIsClosed(prog: seq<Op>, i: nat)
    requires Open(prog) && i < |prog| && OpenAt(prog, i) && prog[i].kind == LoopStart && !IsPending(prog[i])
    ensures PairOk(prog, i) && Closed(prog, i, i + prog[i].arg + 1) && Paired(prog, i, i + prog[i].arg + 1)
  {
    hide Open;
    forall m | i <= m <= i + prog[i].arg ensures PairOk(prog, m) && (prog[m].kind == LoopEnd ==> i <= m + prog[m].arg) {
      EndInside(prog, i, m);
    }
  }

  lemma EndInside(prog: seq<Op>, i: nat, m: nat)
    requires Open(prog) && i < |prog| && OpenAt(prog, i) && prog[i].kind == LoopStart && !IsPending(prog[i])
    requires i <= m <= i + prog[i].arg
    ensures m < |prog| && PairOk(prog, m) && (prog[m].kind == LoopEnd ==> i <= m + prog[m].arg)
  {
    assert OpenAt(prog, m);
    if prog[m].kind == LoopEnd {
      assert OpenAt(prog, m + prog[m].arg);
    }
  }

  lemma PairLeaves(prog: seq<Op>, i: nat)
    requires Open(prog) && Outside(prog, i) && i < |prog| && OpenAt(prog, i) && prog[i].kind == LoopStart && !IsPending(prog[i])
    ensures Outside(prog, i + prog[i].arg + 1)
  {
    var j := i + prog[i].arg;
    forall m | 0 <= m <= j && prog[m].kind == LoopStart ensures m + prog[m].arg <= j {
      assert OpenAt(prog, m);
    }
  }

  lemma OutsideNext(prog: seq<Op>, i: nat)
    requires Open(prog) && Outside(prog, i) && i < |prog|
    ensures prog[i].kind != LoopEnd
    ensures prog[i].kind != LoopStart || IsPending(prog[i]) ==> Outside(prog, i + 1)
    ensures prog[i].kind == LoopStart && !IsPending(prog[i]) ==>
              && PairOk(prog, i) && Outside(prog, i + prog[i].arg + 1)
              && Closed(prog, i, i + prog[i].arg + 1) && Paired(prog, i, i + prog[i].arg + 1)
  {
    assert OpenAt(prog, i);
    if prog[i].kind == LoopStart && !IsPending(prog[i]) {
      PairIsClosed(prog, i);
      PairLeaves(prog, i);
    }
  }

  lemma PairHasNonePending(prog: seq<Op>, i: nat)
    requires i < |prog| && OpenAt(prog, i) && prog[i].kind == LoopStart && !IsPending(prog[i])
    ensures NonePending(prog, i, i + prog[i].arg + 1)
  {
    assert PairOk(prog, i);
  }

  lemma OpenHere(prog: seq<Op>, i: nat)
    requires Open(prog) && i < |prog|
    ensures OpenAt(prog, i)
  {
  }

  lemma PendingOutside(prog: seq<Op>, i: nat)
    requires Open(prog) && i < |prog| && IsPending(prog[i])
    ensures Outside(prog, i + 1)
  {
    forall m | 0 <= m <= i && prog[m].kind == LoopStart ensures m + prog[m].arg <= i {
      assert OpenAt(prog, m);
    }
  }
}
