/** csrc/src/ir_gen.c, ir_ctx_parse: runs are coalesced into one operation and brackets are back-patched
    through a stack of unmatched starts. The stack lives in the context, so a program may arrive in chunks. */
module FrontEnd {
  import opened FlatIr

  datatype Parsed = Parsed(ops: seq<Op>, patch: seq<nat>, ok: bool)

  const NUL: char := '\0'

  ghost predicate PatchInside(p: Parsed) {
    forall k :: k in p.patch ==> k < |p.ops|
  }

  // ----- one character at a time -----

  /** Extend the last operation when it has this kind, else start a new one. */
  function Merge(ops: seq<Op>, kind: Kind, n: int): seq<Op> {
    if ops != [] && ops[|ops| - 1].kind == kind then ops[|ops| - 1 := Op(kind, ops[|ops| - 1].arg + n)]
    else ops + [Op(kind, n)]
  }

  /** A read or write only continues the run of the character right before it. */
  function Continue(ops: seq<Op>, kind: Kind, sameRun: bool): seq<Op> {
    if sameRun then Merge(ops, kind, 1) else ops + [Op(kind, 1)]
  }

  function CloseLoop(p: Parsed): (r: Parsed)
    requires PatchInside(p)
    ensures PatchInside(r)
    ensures p.patch != [] ==> |r.ops| == |p.ops| + 1
  {
    if p.patch == [] then p.(ok := false)
    else
      assert p.patch[0] in p.patch;
      var k := p.patch[0];
      var d := |p.ops| - k;
      assert forall i :: i in p.patch[1..] ==> i in p.patch;
      Parsed(p.ops[k := Op(LoopStart, d)] + [Op(LoopEnd, -d)], p.patch[1..], true)
  }

  function ParseChar(p: Parsed, prev: char, c: char): (r: Parsed)
    requires PatchInside(p)
    ensures PatchInside(r)
  {
    if !p.ok then p
    else match c
      case '+' => p.(ops := Merge(p.ops, Cell, 1))
      case '-' => p.(ops := Merge(p.ops, Cell, -1))
      case '>' => p.(ops := Merge(p.ops, Tape, 1))
      case '<' => p.(ops := Merge(p.ops, Tape, -1))
      case ',' => p.(ops := Continue(p.ops, Read, prev == c))
      case '.' => p.(ops := Continue(p.ops, Write, prev == c))
      case '[' => Parsed(p.ops + [Op(LoopStart, 0)], [|p.ops|] + p.patch, true)
      case ']' => CloseLoop(p)
      case _ => p
  }

  /** Parse `s`, whose first character follows `prev`. */
  function ParseText(p: Parsed, prev: char, s: string): (r: Parsed)
    requires PatchInside(p)
    ensures PatchInside(r)
    decreases |s|
  {
    if s == [] then p else ParseText(ParseChar(p, prev, s[0]), s[0], s[1..])
  }

  /** What a C string function sees of a buffer. */
  function CString(buffer: string): string {
    if buffer == [] || buffer[0] == NUL then [] else [buffer[0]] + CString(buffer[1..])
  }

  /** One call of the parser; every call starts a new run. */
  function ParseChunk(p: Parsed, chunk: string): (r: Parsed)
    requires PatchInside(p)
    ensures PatchInside(r)
  {
    ParseText(p, NUL, CString(chunk))
  }

  function ParseChunks(p: Parsed, chunks: seq<string>): (r: Parsed)
    requires PatchInside(p)
    ensures PatchInside(r)
    decreases |chunks|
  {
    if chunks == [] then p else ParseChunks(ParseChunk(p, chunks[0]), chunks[1..])
  }

  const EMPTY := Parsed([], [], true)

  lemma {:induction false} ParseTextConcat(p: Parsed, prev: char, a: string, b: string)
    requires PatchInside(p)
    ensures ParseText(p, prev, a + b) ==
            ParseText(ParseText(p, prev, a), if a == [] then prev else a[|a| - 1], b)
    decreases |a|
  {
    if a == [] {
      assert a + b == b;
    } else {
      assert (a + b)[0] == a[0] && (a + b)[1..] == a[1..] + b;
      ParseTextConcat(ParseChar(p, prev, a[0]), a[0], a[1..], b);
    }
  }

  lemma {:induction false} FailureStays(p: Parsed, prev: char, s: string)
    requires PatchInside(p) && !p.ok
    ensures ParseText(p, prev, s) == p
    decreases |s|
  {
    if s != [] {
      FailureStays(p, s[0], s[1..]);
    }
  }

  lemma {:induction false} FailureStaysChunks(p: Parsed, chunks: seq<string>)
    requires PatchInside(p) && !p.ok
    ensures ParseChunks(p, chunks) == p
    decreases |chunks|
  {
    if chunks != [] {
      FailureStays(p, NUL, CString(chunks[0]));
      FailureStaysChunks(p, chunks[1..]);
    }
  }

  // ----- a run at a time -----

  /** What the parser does with a run of `n` equal characters. */
  function ParseRun(p: Parsed, c: char, n: nat): Parsed
    requires PatchInside(p) && n > 0
  {
    match c
    case '+' => p.(ops := Merge(p.ops, Cell, n))
    case '-' => p.(ops := Merge(p.ops, Cell, -(n as int)))
    case '>' => p.(ops := Merge(p.ops, Tape, n))
    case '<' => p.(ops := Merge(p.ops, Tape, -(n as int)))
    case ',' => p.(ops := p.ops + [Op(Read, n)])
    case '.' => p.(ops := p.ops + [Op(Write, n)])
    case _ => p
  }

  predicate IsRun(s: string, c: char) { forall i :: 0 <= i < |s| ==> s[i] == c }

  /** One more character of the run `c`. */
  lemma RunGrows(p: Parsed, c: char, n: nat)
    requires PatchInside(p) && p.ok && n > 0 && c != '[' && c != ']'
    ensures PatchInside(ParseRun(p, c, n)) && ParseChar(ParseRun(p, c, n), c, c) == ParseRun(p, c, n + 1)
  {
  }

  lemma RunStarts(p: Parsed, prev: char, c: char)
    requires PatchInside(p) && p.ok && c != '[' && c != ']' && prev != c
    ensures ParseChar(p, prev, c) == ParseRun(p, c, 1)
  {
  }

  lemma ParseOne(p: Parsed, prev: char, c: char)
    requires PatchInside(p)
    ensures ParseText(p, prev, [c]) == ParseChar(p, prev, c)
  {
    hide ParseChar;
    assert ParseText(ParseChar(p, prev, c), c, []) == ParseChar(p, prev, c);
  }

  lemma {:induction false} RunIsCoalesced(p: Parsed, prev: char, c: char, s: string)
    requires PatchInside(p) && p.ok && s != [] && IsRun(s, c) && prev != c && c != '[' && c != ']'
    ensures ParseText(p, prev, s) == ParseRun(p, c, |s|)
    decreases |s|
  {
    hide ParseText, ParseChar, ParseRun;
    var init := s[..|s| - 1];
    assert s == init + [c];
    if init == [] {
      ParseOne(p, prev, c);
      RunStarts(p, prev, c);
    } else {
      ParseTextConcat(p, prev, init, [c]);
      RunIsCoalesced(p, prev, c, init);
      RunGrows(p, c, |init|);
      ParseOne(ParseRun(p, c, |init|), c, c);
    }
  }

  // ----- the parser -----

  class IrCtx {
    var data: seq<Op>
    /** The chain of pending starts, innermost first. */
    var patch: seq<nat>

    constructor ()
      ensures data == [] && patch == []
    {
      data, patch := [], [];
    }

    ghost predicate Valid()
      reads this
    {
      PatchInside(State(true))
    }

    ghost function State(ok: bool): Parsed
      reads this
    {
      Parsed(data, patch, ok)
    }

    method PushOp(kind: Kind, n: int)
      modifies this`data
      ensures data == old(data) + [Op(kind, n)]
    {
      data := data + [Op(kind, n)];
    }

    method AddOrPush(kind: Kind, n: int)
      modifies this`data
      ensures data == Merge(old(data), kind, n)
    {
      if |data| > 0 && data[|data| - 1].kind == kind {
        data := data[|data| - 1 := Op(kind, data[|data| - 1].arg + n)];
      } else {
        PushOp(kind, n);
      }
    }

    method OpenLoop()
      requires Valid()
      modifies this
      ensures Valid() && State(true) == ParseChar(old(State(true)), NUL, '[')
    {
      patch := [|data|] + patch;
      PushOp(LoopStart, 0);
    }

    /** Back-patches the innermost pending start. */
    method CloseLoop() returns (ok: bool)
      requires Valid()
      modifies this
      ensures Valid() && State(ok) == ParseChar(old(State(true)), NUL, ']')
    {
      if patch == [] {
        return false;
      }
      assert patch[0] in patch;
      var delta := |data| - patch[0];
      data := data[patch[0] := Op(LoopStart, delta)];
      PushOp(LoopEnd, -delta);
      patch := patch[1..];
      assert forall k :: k in patch ==> k in old(patch);
      ok := true;
    }

    method TakeRun(c: char, count: nat)
      requires Valid() && count > 0 && c != '[' && c != ']'
      modifies this`data
      ensures Valid() && State(true) == ParseRun(old(State(true)), c, count)
    {
      match c
      case ',' => PushOp(Read, count);
      case '.' => PushOp(Write, count);
      case '+' => AddOrPush(Cell, count);
      case '-' => AddOrPush(Cell, -(count as int));
      case '>' => AddOrPush(Tape, count);
      case '<' => AddOrPush(Tape, -(count as int));
      case _ =>
    }

    /** Returns false for an unmatched `]`; the context then holds what was parsed before it. */
    method Parse(src: string) returns (ok: bool)
      requires Valid()
      modifies this
      ensures Valid() && State(ok) == ParseChunk(old(State(true)), src)
    {
      hide ParseText, ParseChar, ParseRun, CString, IsRun;
      ghost var text := CString(src);
      ghost var start := State(true);
      CStringIsPrefix(src);
      assert text[0..] == text;
      var ptr := 0;
      while ptr < |src| && src[ptr] != NUL
        invariant 0 <= ptr <= |text| && Valid()
        invariant ParseText(start, NUL, text) == ParseText(State(true), Before(text, ptr), text[ptr..])
        invariant ptr < |text| && text[ptr] != '[' && text[ptr] != ']' ==> text[ptr] != Before(text, ptr)
      {
        var c := src[ptr];
        TextStep(State(true), text, ptr);
        if c == '[' {
          OpenLoop();
          ptr := ptr + 1;
        } else if c == ']' {
          ok := CloseLoop();
          if !ok {
            FailureStays(State(false), c, text[ptr + 1..]);
            return;
          }
          ptr := ptr + 1;
        } else {
          var count := CountChar(src, ptr);
          RunInText(src, text, ptr, count);
          RunStep(State(true), text, ptr, count);
          TakeRun(c, count);
          ptr := ptr + count;
        }
      }
      ParseNothing(State(true), Before(text, ptr));
      assert text[ptr..] == [];
      ok := true;
    }
  }

  /** The character in front of position `i`. */
  function Before(s: string, i: nat): char
    requires i <= |s|
  {
    if i == 0 then NUL else s[i - 1]
  }

  lemma {:induction false} CStringIsPrefix(s: string)
    ensures var t := CString(s);
            |t| <= |s| && t == s[..|t|] && NUL !in t && (|t| < |s| ==> s[|t|] == NUL)
  {
    if s != [] && s[0] != NUL {
      CStringIsPrefix(s[1..]);
    }
  }

  /** Length of the run of equal characters that starts at `ptr`. */
  method CountChar(src: string, ptr: nat) returns (n: nat)
    requires ptr < |src| && src[ptr] != NUL
    ensures n > 0 && ptr + n <= |src| && IsRun(src[ptr..ptr + n], src[ptr])
    ensures ptr + n < |src| ==> src[ptr + n] != src[ptr]
  {
    var end := ptr + 1;
    while end < |src| && src[end] == src[ptr]
      invariant ptr < end <= |src| && IsRun(src[ptr..end], src[ptr])
    {
      assert src[ptr..end + 1] == src[ptr..end] + [src[end]];
      end := end + 1;
    }
    n := end - ptr;
  }

  lemma ParseNothing(p: Parsed, prev: char)
    requires PatchInside(p)
    ensures ParseText(p, prev, []) == p
  {
  }

  lemma TextStep(p: Parsed, text: string, ptr: nat)
    requires PatchInside(p) && ptr < |text|
    ensures ParseText(p, Before(text, ptr), text[ptr..]) ==
            ParseText(ParseChar(p, Before(text, ptr), text[ptr]), Before(text, ptr + 1), text[ptr + 1..])
    ensures text[ptr] in "[]" ==> ParseChar(p, Before(text, ptr), text[ptr]) == ParseChar(p, NUL, text[ptr])
  {
    assert text[ptr..][1..] == text[ptr + 1..];
  }

  /** A run in the buffer does not reach over the terminator. */
  lemma RunInText(src: string, text: string, ptr: nat, count: nat)
    requires ptr < |text| <= |src| && text == src[..|text|] && (|text| < |src| ==> src[|text|] == NUL) && NUL !in text
    requires count > 0 && ptr + count <= |src| && IsRun(src[ptr..ptr + count], text[ptr])
    ensures ptr + count <= |text| && IsRun(text[ptr..ptr + count], text[ptr])
    ensures Before(text, ptr + count) == text[ptr]
  {
    var run := src[ptr..ptr + count];
    forall i | ptr <= i < ptr + count ensures src[i] == text[ptr] {
      assert run[i - ptr] == src[i];
    }
    assert run == text[ptr..ptr + count] && run[count - 1] == text[ptr + count - 1];
  }

  /** Handling a run at once is handling its characters one by one. */
  lemma RunStep(p: Parsed, text: string, ptr: nat, count: nat)
    requires PatchInside(p) && p.ok && count > 0 && ptr + count <= |text|
    requires IsRun(text[ptr..ptr + count], text[ptr]) && text[ptr] != '[' && text[ptr] != ']'
    requires text[ptr] != Before(text, ptr) && Before(text, ptr + count) == text[ptr]
    ensures PatchInside(ParseRun(p, text[ptr], count))
    ensures ParseText(p, Before(text, ptr), text[ptr..]) ==
            ParseText(ParseRun(p, text[ptr], count), Before(text, ptr + count), text[ptr + count..])
  {
    hide ParseText, ParseChar, ParseRun, IsRun;
    var run := text[ptr..ptr + count];
    RunGrows(p, text[ptr], count);
    RunIsCoalesced(p, Before(text, ptr), text[ptr], run);
    ParseTextConcat(p, Before(text, ptr), run, text[ptr + count..]);
    assert run + text[ptr + count..] == text[ptr..];
    assert run[|run| - 1] == text[ptr + count - 1];
  }
}
