/** What the parser keeps about brackets: the patch stack holds the indices of the unmatched starts,
    innermost first, and all other brackets are paired and nested. */
module Brackets {
  import opened FlatIr
  import opened FrontEnd
  import opened Source

  ghost predicate Descending(patch: seq<nat>) {
    forall i, j :: 0 <= i < j < |patch| ==> patch[j] < patch[i]
  }

  /** No pending start lies inside the pair that starts at `k`. */
  ghost predicate NonePending(p: Parsed, k: nat)
    requires k < |p.ops|
  {
    forall m :: m in p.patch ==> !(k < m < k + p.ops[k].arg)
  }

  ghost predicate SlotOk(p: Parsed, k: nat)
    requires k < |p.ops|
  {
    if k in p.patch then p.ops[k] == Op(LoopStart, 0)
    else PairOk(p.ops, k) && (p.ops[k].kind == LoopStart ==> NonePending(p, k))
  }

  ghost predicate BracketInv(p: Parsed) {
    && PatchInside(p) && Descending(p.patch)
    && forall k :: 0 <= k < |p.ops| ==> SlotOk(p, k)
  }

  lemma NothingPendingIsBalanced(p: Parsed)
    requires BracketInv(p) && p.patch == []
    ensures Balanced(p.ops)
  {
    forall k | 0 <= k < |p.ops| ensures PairOk(p.ops, k) {
      assert SlotOk(p, k);
    }
  }

  /** `q` extends `p`: kinds and paired brackets are kept, and only new slots become pending. */
  ghost predicate Extends(p: Parsed, q: Parsed) {
    && |p.ops| <= |q.ops|
    && (forall m :: 0 <= m < |p.ops| ==> q.ops[m].kind == p.ops[m].kind)
    && (forall m :: 0 <= m < |p.ops| && p.ops[m].kind in {LoopStart, LoopEnd} && m !in p.patch ==> q.ops[m] == p.ops[m])
    && (forall m :: m in q.patch ==> m in p.patch || |p.ops| <= m)
  }

  lemma PairedSlotKept(p: Parsed, q: Parsed, k: nat)
    requires BracketInv(p) && PatchInside(q) && Extends(p, q) && k < |p.ops| && k !in p.patch
    ensures SlotOk(q, k)
  {
    assert SlotOk(p, k);
    if IsBracket(p.ops[k]) {
      assert SlotOk(p, k + p.ops[k].arg);
    }
  }

  predicate IsBracket(op: Op) { op.kind == LoopStart || op.kind == LoopEnd }

  lemma InnermostIsStart(p: Parsed)
    requires BracketInv(p) && p.patch != []
    ensures p.patch[0] < |p.ops| && p.ops[p.patch[0]] == Op(LoopStart, 0)
  {
    assert p.patch[0] in p.patch && SlotOk(p, p.patch[0]);
  }

  lemma CloseKeeps(p: Parsed)
    requires BracketInv(p) && p.patch != []
    ensures BracketInv(CloseLoop(p)) && |CloseLoop(p).patch| == |p.patch| - 1
  {
    var q := CloseLoop(p);
    var k := p.patch[0];
    assert k in p.patch && SlotOk(p, k);
    assert forall m :: m in q.patch ==> m in p.patch && m != k;
    forall i | 0 <= i < |q.ops| ensures SlotOk(q, i) {
      if i < |p.ops| {
        assert SlotOk(p, i);
        if i in p.patch && i != k {
          var n :| 0 <= n < |p.patch| && p.patch[n] == i;
          assert q.patch[n - 1] == i;
        } else if i == k {
          CloseWithin(p);
        } else {
          PairedSlotKept(p, q, i);
        }
      }
    }
  }

  /** The starts behind the innermost pending one are paired before the end of the text. */
  lemma CloseWithin(p: Parsed)
    requires BracketInv(p) && p.patch != []
    ensures var q := CloseLoop(p);
            Within(q.ops, p.patch[0], |p.ops|) && p.patch[0] !in q.patch
            && forall m :: m in q.patch ==> m < p.patch[0]
  {
    var k := p.patch[0];
    assert k in p.patch;
    forall m | k < m < |p.ops| && p.ops[m].kind == LoopStart ensures m + p.ops[m].arg < |p.ops| {
      assert SlotOk(p, m);
    }
  }

  lemma OpenKeeps(p: Parsed)
    requires BracketInv(p) && p.ok
    ensures BracketInv(ParseChar(p, NUL, '['))
  {
    var q := ParseChar(p, NUL, '[');
    assert forall n :: 0 <= n < |p.patch| ==> p.patch[n] in p.patch;
    forall i | 0 <= i < |q.ops| ensures SlotOk(q, i) {
      if i < |p.ops| {
        assert SlotOk(p, i);
        if i in p.patch {
          var n :| 0 <= n < |p.patch| && p.patch[n] == i;
          assert q.patch[n + 1] == i;
        } else {
          PairedSlotKept(p, q, i);
        }
      } else {
        assert q.patch[0] == i;
      }
    }
  }

  /** Changing the last plain operation or appending one. */
  lemma PlainKeeps(p: Parsed, q: Parsed)
    requires BracketInv(p) && q.patch == p.patch && |p.ops| <= |q.ops| <= |p.ops| + 1
    requires forall m :: 0 <= m < |p.ops| ==> q.ops[m].kind == p.ops[m].kind && (IsBracket(p.ops[m]) ==> q.ops[m] == p.ops[m])
    requires |q.ops| > |p.ops| ==> !IsBracket(q.ops[|p.ops|])
    ensures BracketInv(q)
  {
    forall i | 0 <= i < |q.ops| ensures SlotOk(q, i) {
      if i < |p.ops| {
        assert SlotOk(p, i);
        if i !in p.patch {
          PairedSlotKept(p, q, i);
        }
      }
    }
  }

  /** One character keeps the invariant, and the stack is as deep as the text. */
  lemma CharKeeps(p: Parsed, prev: char, c: char)
    requires BracketInv(p) && p.ok
    ensures var q := ParseChar(p, prev, c);
            BracketInv(q) && DepthAfter(Open(|p.patch|), c) == if q.ok then Open(|q.patch|) else Unmatched
  {
    if c == '[' {
      OpenKeeps(p);
    } else if c == ']' {
      if p.patch != [] {
        CloseKeeps(p);
      } else {
        PlainKeeps(p, p.(ok := false));
      }
    } else {
      PlainKeeps(p, ParseChar(p, prev, c));
    }
  }

  /** The invariant for a text: it holds, and the verdict and the stack follow the bracket depth. */
  ghost predicate Tracks(text: string, p: Parsed) {
    BracketInv(p) && Counted(text, p) && DepthOf(text) == if p.ok then Open(|p.patch|) else Unmatched
  }

  lemma TracksNothing()
    ensures Tracks([], EMPTY)
  {
  }

  lemma {:induction false} TextTracks(text: string, p: Parsed, prev: char, s: string)
    requires Tracks(text, p)
    ensures PatchInside(p) && Tracks(text + s, ParseText(p, prev, s))
    decreases |s|
  {
    if s == [] {
      assert text + s == text;
    } else {
      var t := text + [s[0]];
      assert t[..|t| - 1] == text;
      if p.ok {
        CharKeeps(p, prev, s[0]);
        CharCounts(text, p, prev, s[0]);
      }
      TextTracks(t, ParseChar(p, prev, s[0]), s[0], s[1..]);
      assert t + s[1..] == text + s;
    }
  }

  lemma CharTracks(text: string, p: Parsed, prev: char, c: char)
    requires PatchInside(p) && Tracks(text, p)
    ensures Tracks(text + [c], ParseChar(p, prev, c))
  {
    TextTracks(text, p, prev, [c]);
    ParseOne(p, prev, c);
  }

  /** The text the parser sees of a sequence of chunks. */
  function Seen(chunks: seq<string>): string {
    if chunks == [] then [] else CString(chunks[0]) + Seen(chunks[1..])
  }

  lemma {:induction false} ChunksTrack(text: string, p: Parsed, chunks: seq<string>)
    requires PatchInside(p) && Tracks(text, p)
    ensures Tracks(text + Seen(chunks), ParseChunks(p, chunks))
    decreases |chunks|
  {
    hide Tracks, ParseText, CString;
    if chunks == [] {
      assert text + Seen(chunks) == text;
    } else {
      TextTracks(text, p, NUL, CString(chunks[0]));
      ChunksTrack(text + CString(chunks[0]), ParseChunk(p, chunks[0]), chunks[1..]);
      assert text + CString(chunks[0]) + Seen(chunks[1..]) == text + Seen(chunks);
    }
  }

  // ----- which `[` of the text is pending -----

  function Openings(text: string): nat {
    if text == [] then 0 else Openings(text[..|text| - 1]) + if text[|text| - 1] == '[' then 1 else 0
  }

  /** The unmatched `[` of a text, innermost first, each by the number of `[` before it. */
  function Unclosed(text: string): seq<nat> {
    if text == [] then []
    else
      var front, c := text[..|text| - 1], text[|text| - 1];
      var open := Unclosed(front);
      if c == '[' then [Openings(front)] + open
      else if c == ']' && open != [] then open[1..]
      else open
  }

  function Starts(ops: seq<Op>): nat {
    if ops == [] then 0 else Starts(ops[..|ops| - 1]) + if ops[|ops| - 1].kind == LoopStart then 1 else 0
  }

  /** The pending starts, each by the number of starts before it. */
  function Pending(p: Parsed): seq<nat>
    requires PatchInside(p)
  {
    seq(|p.patch|, i requires 0 <= i < |p.patch| => StartsBefore(p, p.patch[i]))
  }

  function StartsBefore(p: Parsed, k: nat): nat { if k <= |p.ops| then Starts(p.ops[..k]) else 0 }

  ghost predicate SameKinds(a: seq<Op>, b: seq<Op>) {
    |a| == |b| && forall i :: 0 <= i < |a| ==> a[i].kind == b[i].kind
  }

  lemma {:induction false} StartsOfKinds(a: seq<Op>, b: seq<Op>)
    requires SameKinds(a, b)
    ensures Starts(a) == Starts(b)
    decreases |a|
  {
    if a != [] {
      StartsOfKinds(a[..|a| - 1], b[..|b| - 1]);
    }
  }

  /** The pending starts of the operations are the unmatched `[` of the text. */
  ghost predicate Counted(text: string, p: Parsed) {
    PatchInside(p) && (p.ok ==> Starts(p.ops) == Openings(text) && Pending(p) == Unclosed(text))
  }

  /** Operations of the same kinds in front of something else count the same. */
  lemma StartsKept(p: Parsed, q: Parsed, k: nat)
    requires k <= |p.ops| <= |q.ops| && SameKinds(p.ops, q.ops[..|p.ops|])
    ensures StartsBefore(q, k) == StartsBefore(p, k)
  {
    assert q.ops[..|p.ops|][..k] == q.ops[..k];
    StartsOfKinds(p.ops[..k], q.ops[..k]);
  }

  lemma StartsGrow(p: Parsed, q: Parsed)
    requires |p.ops| <= |q.ops| <= |p.ops| + 1 && SameKinds(p.ops, q.ops[..|p.ops|])
    ensures Starts(q.ops) == Starts(p.ops) + if |q.ops| > |p.ops| && q.ops[|p.ops|].kind == LoopStart then 1 else 0
  {
    StartsOfKinds(p.ops, q.ops[..|p.ops|]);
    assert q.ops[..|q.ops|] == q.ops;
  }

  lemma CharCounts(text: string, p: Parsed, prev: char, c: char)
    requires BracketInv(p) && p.ok && Counted(text, p)
    ensures PatchInside(p) && Counted(text + [c], ParseChar(p, prev, c))
  {
    hide BracketInv, Starts;
    var q, t := ParseChar(p, prev, c), text + [c];
    assert t[..|t| - 1] == text && t[|t| - 1] == c;
    if q.ok {
      KindsKept(p, prev, c);
      StartsGrow(p, q);
      forall i | 0 <= i < |p.patch| ensures StartsBefore(q, p.patch[i]) == Unclosed(text)[i] {
        assert p.patch[i] in p.patch && Pending(p)[i] == Unclosed(text)[i];
        StartsKept(p, q, p.patch[i]);
      }
      if c == '[' {
        StartsKept(p, q, |p.ops|);
        assert p.ops[..|p.ops|] == p.ops;
        assert Pending(q) == [Openings(text)] + Unclosed(text);
      } else if c == ']' {
        assert Pending(q) == Unclosed(text)[1..];
      } else {
        assert Pending(q) == Unclosed(text);
      }
    }
  }

  /** A character appends at most one operation; a `[` or `]` that is accepted exactly one. */
  lemma KindsKept(p: Parsed, prev: char, c: char)
    requires BracketInv(p) && p.ok && ParseChar(p, prev, c).ok
    ensures var q := ParseChar(p, prev, c);
            && |p.ops| <= |q.ops| <= |p.ops| + 1 && SameKinds(p.ops, q.ops[..|p.ops|])
            && (|q.ops| > |p.ops| && q.ops[|p.ops|].kind == LoopStart <==> c == '[')
            && (c == ']' ==> p.patch != [])
            && q.patch == (if c == '[' then [|p.ops|] + p.patch else if c == ']' then p.patch[1..] else p.patch)
  {
    if c == ']' {
      InnermostIsStart(p);
    }
  }

  /** However a program is cut into chunks, the parser fails exactly on an unmatched `]`, the stack holds
      the unmatched starts, and a balanced program becomes balanced operations. */
  lemma ParserTracksBrackets(chunks: seq<string>)
    ensures var p := ParseChunks(EMPTY, chunks);
            BracketInv(p)
            && (p.ok <==> DepthOf(Seen(chunks)) != Unmatched)
            && (p.ok ==> DepthOf(Seen(chunks)) == Open(|p.patch|) && Pending(p) == Unclosed(Seen(chunks)))
            && (BalancedSource(Seen(chunks)) <==> p.ok && p.patch == [])
            && (BalancedSource(Seen(chunks)) ==> Balanced(p.ops))
  {
    TracksNothing();
    ChunksTrack([], EMPTY, chunks);
    assert [] + Seen(chunks) == Seen(chunks);
    var p := ParseChunks(EMPTY, chunks);
    if p.patch == [] {
      NothingPendingIsBalanced(p);
    }
  }
}
