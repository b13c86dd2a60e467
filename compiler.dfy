/** The compiler as the C runs it (tregex.c:136-291, tregex.h:55-66): a parse
    context that writes instruction slots into a fixed buffer through a
    cursor, opening room with `memmove` and patching offsets afterwards.
    Each method is proved against its function in CompilerSpec. */
module Compiler {
  import opened Layout
  import opened CompilerSpec

  /** The buffer `b` after `memmove(b + pos + k, b + pos, end - pos)`: the
      slots from `pos` up to `end` now start at `pos + k`, and the `k` slots
      at `pos` keep what they held. */
  function Moved(b: seq<int>, pos: nat, end: nat, k: nat): (m: seq<int>)
    requires pos <= end && end + k <= |b|
    ensures |m| == |b|
  {
    b[..pos + k] + b[pos..end] + b[end + k..]
  }

  /** `memmove(buf + pos + k, buf + pos, end - pos)`, copying the last slot
      first so that the overlapping ranges are moved intact. */
  method Shift(buf: array<int>, pos: nat, end: nat, k: nat)
    requires pos <= end && end + k <= buf.Length
    modifies buf
    ensures buf[..] == Moved(old(buf[..]), pos, end, k)
  {
    var j := end;
    while j > pos
      invariant pos <= j <= end
      invariant forall i :: 0 <= i < j + k ==> buf[i] == old(buf[i])
      invariant forall i :: j + k <= i < end + k ==> buf[i] == old(buf[i - k])
      invariant forall i :: end + k <= i < buf.Length ==> buf[i] == old(buf[i])
    {
      j := j - 1;
      buf[j + k] := buf[j];
    }
    ghost var m := Moved(old(buf[..]), pos, end, k);
    forall i | 0 <= i < buf.Length
      ensures buf[i] == m[i]
    {
      if i < pos + k {
      } else if i < end + k {
        assert m[i] == old(buf[i - k]);
      } else {
        assert m[i] == old(buf[i]);
      }
    }
    assert buf[..] == m;
  }

  /** `SET_OP_Z` (tregex.h:59): the opcode slot is written, nothing else. */
  method SetOpZ(buf: array<int>, p: nat, op: Opcode)
    requires p < buf.Length
    modifies buf
    ensures buf[..] == old(buf[..])[p := op.Code()]
  {
    buf[p] := op.Code();
  }

  /** `SET_OPCODE` (tregex.h:58): only slot 0 changes, so the operand slots
      of the instruction survive. */
  method SetOpcode(buf: array<int>, p: nat, op: Opcode)
    requires p < buf.Length
    modifies buf
    ensures buf[..] == old(buf[..])[p := op.Code()]
  {
    buf[p] := op.Code();
  }

  /** `SET_OP_A` (tregex.h:60): opcode in slot 0, operand A in slot 1. */
  method SetOpA(buf: array<int>, p: nat, op: Opcode, a: int)
    requires p + 1 < buf.Length
    modifies buf
    ensures buf[..] == old(buf[..])[p := op.Code()][p + 1 := a]
  {
    buf[p] := op.Code();
    buf[p + 1] := a;
  }

  /** `SET_OP_AB` (tregex.h:61): opcode, operand A and operand B in slots 0,
      1 and 2. */
  method SetOpAB(buf: array<int>, p: nat, op: Opcode, a: int, b: int)
    requires p + 2 < buf.Length
    modifies buf
    ensures buf[..] == old(buf[..])[p := op.Code()][p + 1 := a][p + 2 := b]
  {
    buf[p] := op.Code();
    buf[p + 1] := a;
    buf[p + 2] := b;
  }

  /** The slots from `n` on are zero. */
  ghost predicate ZeroFrom(s: seq<int>, n: nat)
  {
    forall i :: n <= i < |s| ==> s[i] == 0
  }

  /** A shift by `|ops|` at `pos` of the slots up to `end`, with `ops` then
      written into the room it opened, leaves exactly the spliced code
      followed by the untouched rest of the buffer. */
  lemma {:induction false} Spliced(b: seq<int>, w: seq<int>, pos: nat, end: nat, ops: seq<int>)
    requires pos <= end && end + |ops| <= |b| == |w|
    requires forall i :: 0 <= i < |w| && !(pos <= i < pos + |ops|) ==>
      w[i] == Moved(b, pos, end, |ops|)[i]
    requires forall i :: 0 <= i < |ops| ==> w[pos + i] == ops[i]
    ensures w[..end + |ops|] == Insert(b[..end], pos, ops)
    ensures ZeroFrom(b, end) ==> ZeroFrom(w, end + |ops|)
  {
    var m := Moved(b, pos, end, |ops|);
    var spliced := Insert(b[..end], pos, ops);
    forall i | 0 <= i < end + |ops|
      ensures w[i] == spliced[i]
    {
      if i < pos {
        assert m[i] == b[i];
      } else if i < pos + |ops| {
        assert spliced[i] == ops[i - pos];
      } else {
        assert m[i] == b[i - |ops|];
        assert spliced[i] == b[i - |ops|];
      }
    }
    if ZeroFrom(b, end) {
      forall i | end + |ops| <= i < |w|
        ensures w[i] == 0
      {
        assert m[i] == b[i];
      }
    }
  }

  /** Writing `ops` at `n` in a buffer whose slots from `n` on are zero
      appends `ops` to the code before `n`. */
  lemma {:induction false} Appended(w: seq<int>, w2: seq<int>, n: nat, ops: seq<int>)
    requires n + |ops| <= |w| == |w2|
    requires forall i :: 0 <= i < |w| && !(n <= i < n + |ops|) ==> w2[i] == w[i]
    requires forall i :: 0 <= i < |ops| ==> w2[n + i] == ops[i]
    ensures w2[..n + |ops|] == w[..n] + ops
    ensures ZeroFrom(w, n) ==> ZeroFrom(w2, n + |ops|)
  {
    assert w2[..n + |ops|] == w[..n] + ops by {
      forall i | 0 <= i < n + |ops|
        ensures w2[i] == (w[..n] + ops)[i]
      {
        if n <= i {
          assert w2[n + (i - n)] == ops[i - n];
        }
      }
    }
  }

  /** The writes of case `?` on a buffer `b` whose operand is `b[insert..end]`
      leave the spliced code of the specification, and zeros after it. */
  lemma OptionalWrites(b: seq<int>, insert: nat, end: nat)
    requires insert <= end && end + 3 <= |b| && ZeroFrom(b, end)
    ensures var w := Moved(b, insert, end, 3)
      [insert := Split.Code()][insert + 1 := 3][insert + 2 := end + 3 - insert];
      w[..end + 3] == Optional(b[..end], insert) && ZeroFrom(w, end + 3)
  {
    var w := Moved(b, insert, end, 3)
      [insert := Split.Code()][insert + 1 := 3][insert + 2 := end + 3 - insert];
    Spliced(b, w, insert, end, EncodeAB(Split, 3, end + 3 - insert));
  }

  /** The writes of case `*`. */
  lemma StarWrites(b: seq<int>, insert: nat, end: nat)
    requires insert <= end && end + 6 <= |b| && ZeroFrom(b, end)
    ensures var w := Moved(b, insert, end, 4)
      [insert := Push.Code()]
      [insert + 1 := Split.Code()][insert + 2 := 3][insert + 3 := 1 + (end + 4 - insert)]
      [end + 4 := Repeat.Code()][end + 5 := 1 + (insert - (end + 4))];
      w[..end + 6] == Repeated(b[..end], insert) && ZeroFrom(w, end + 6)
  {
    var w1 := Moved(b, insert, end, 4)
      [insert := Push.Code()]
      [insert + 1 := Split.Code()][insert + 2 := 3][insert + 3 := 1 + (end + 4 - insert)];
    Spliced(b, w1, insert, end, EncodeZ(Push) + EncodeAB(Split, 3, 1 + (end + 4 - insert)));
    var w := w1[end + 4 := Repeat.Code()][end + 5 := 1 + (insert - (end + 4))];
    Appended(w1, w, end + 4, EncodeA(Repeat, 1 + (insert - (end + 4))));
  }

  /** The writes of case `+` for an operand that is not a lone MATCH or
      MATCH_SET. */
  lemma PlusWrites(b: seq<int>, insert: nat, end: nat)
    requires insert <= end && end + 3 <= |b| && ZeroFrom(b, end)
    requires !SingleMatch(b[..end], insert) && !SingleMatchSet(b[..end], insert)
    ensures var w := Moved(b, insert, end, 1)
      [insert := Push.Code()]
      [end + 1 := Repeat.Code()][end + 2 := 1 + (insert - (end + 1))];
      w[..end + 3] == OneOrMore(b[..end], insert) && ZeroFrom(w, end + 3)
  {
    var w1 := Moved(b, insert, end, 1)[insert := Push.Code()];
    Spliced(b, w1, insert, end, EncodeZ(Push));
    var w := w1[end + 1 := Repeat.Code()][end + 2 := 1 + (insert - (end + 1))];
    Appended(w1, w, end + 1, EncodeA(Repeat, 1 + (insert - (end + 1))));
  }

  /** The writes of case `+` for a lone MATCH or MATCH_SET: only the opcode
      slot changes. */
  lemma RewriteWrites(b: seq<int>, insert: nat, end: nat)
    requires insert <= end < |b| && ZeroFrom(b, end)
    requires SingleMatch(b[..end], insert) || SingleMatchSet(b[..end], insert)
    ensures var op := if SingleMatch(b[..end], insert) then Loop else LoopSet;
      && b[insert := op.Code()][..end] == OneOrMore(b[..end], insert)
      && ZeroFrom(b[insert := op.Code()], end)
  {
  }

  /** The writes of case `|` before the right-hand side is parsed: a SPLIT
      before the left-hand side and two zero slots reserved for the JMP. */
  lemma AlternativeWrites(b: seq<int>, split: nat, end: nat)
    requires split <= end && end + 5 <= |b| && ZeroFrom(b, end)
    ensures var w := Moved(b, split, end, 3)
      [split := Split.Code()][split + 1 := 3][split + 2 := CharCast(end + 5 - split)];
      && w[..end + 5] == Insert(b[..end], split, EncodeAB(Split, 3, CharCast(end + 5 - split))) + [0, 0]
      && ZeroFrom(w, end + 5)
  {
    var w := Moved(b, split, end, 3)
      [split := Split.Code()][split + 1 := 3][split + 2 := CharCast(end + 5 - split)];
    Spliced(b, w, split, end, EncodeAB(Split, 3, CharCast(end + 5 - split)));
    assert w[..end + 5] == w[..end + 3] + [0, 0];
  }

  /** Patching the two JMP slots at `jmp`, inside the code before `n`,
      gives the specification's patched code and keeps the zeros after it. */
  lemma Patched(w: seq<int>, n: nat, jmp: nat)
    requires jmp + 2 <= n <= |w| && ZeroFrom(w, n)
    ensures var p := w[jmp := Jmp.Code()][jmp + 1 := CharCast(n - jmp)];
      p[..n] == PatchJmp(w[..n], jmp) && ZeroFrom(p, n)
  {
  }

  /** The parse context `tregex_parse_ctx` (tregex.h:116-123): the pattern,
      the 1024-slot code buffer, the cursor `cur` into it and the position
      `idx` in the pattern. */
  class Parser {
    const re: seq<SChar>
    const code: array<int>
    var idx: nat
    var cur: nat

    /** The context as the specification sees it. */
    ghost function State(): PState
      reads this, code
      requires cur <= code.Length
    {
      PState(idx, code[..cur])
    }

    /** The buffer has its full capacity, the pattern's code fits it, and the
        slots past the cursor are still zero from `calloc`. */
    ghost predicate Valid()
      reads this, code
    {
      && code.Length == MaxByteCodeSize
      && Fits(re)
      && cur <= code.Length
      && Bounded(re, State())
      && ZeroFrom(code[..], cur)
    }

    /** The context `tregex_compile` sets up over a fresh zeroed buffer
        (tregex.c:271-278). */
    constructor (pattern: seq<SChar>)
      requires Fits(pattern)
      ensures Valid() && re == pattern && idx == 0 && cur == 0 && fresh(code)
    {
      re := pattern;
      code := new int[MaxByteCodeSize](_ => 0);
      idx := 0;
      cur := 0;
    }

    /** `is_match_single_char(begin, end)` on the buffer (tregex.c:136-138):
        the same answer as the specification's test on the emitted code. */
    function IsMatchSingleChar(begin: nat, end: nat): (b: bool)
      reads this, code
      requires Valid() && begin <= end == cur
      ensures b <==> SingleMatch(code[..cur], begin)
    {
      code[begin] == Match.Code() && end - begin == Match.Length()
    }

    /** `is_match_single_charset(begin, end)` (tregex.c:140-142). */
    function IsMatchSingleCharset(begin: nat, end: nat): (b: bool)
      reads this, code
      requires Valid() && begin <= end == cur
      ensures b <==> SingleMatchSet(code[..cur], begin)
    {
      code[begin] == MatchSet.Code() && end - begin == MatchSet.Length()
    }

    /** `tregex_parse(ctx, level)` (tregex.c:144-268); the EXPR case falls
        through into the TERM case and that into the FACTOR case. */
    method Parse(level: Level) returns (ok: bool)
      requires Valid()
      modifies this, code
      ensures Valid() && PResult(ok, State()) == CompilerSpec.Parse(re, level, old(State()))
      decreases |re| - idx, Rank(level), 2
    {
      ok := true;
      if level == Expr {
        ok := ExprCase();
        if !ok {
          return;
        }
      }
      if level != Factor {
        ok := TermCase();
        if !ok {
          return;
        }
      }
      ok := FactorCase();
    }

    /** The EXPR case (tregex.c:146-161). */
    method ExprCase() returns (ok: bool)
      requires Valid()
      modifies this, code
      ensures Valid() && PResult(ok, State()) == CompilerSpec.ExprCase(re, old(State()))
      decreases |re| - idx, 2, 1
    {
      var split := cur;
      ok := true;
      while idx < |re| && re[idx] != Bar && re[idx] != Close
        invariant Valid() && old(idx) <= idx && split <= cur
        invariant Terms(re, State()) == Terms(re, old(State()))
        decreases |re| - idx
      {
        ok := Parse(Term);
        if !ok {
          return;
        }
      }
      if idx < |re| && re[idx] == Bar {
        ok := Alternative(split);
      }
    }

    /** The `|` branch of the EXPR case (tregex.c:150-159). */
    method Alternative(split: nat) returns (ok: bool)
      requires Valid() && split <= cur && idx < |re| && re[idx] == Bar
      modifies this, code
      ensures Valid() && PResult(ok, State()) == Alternation(re, old(State()), split)
      decreases |re| - idx, 2, 0
    {
      ghost var st := State();
      var jmp := OpenAlternative(split);
      ghost var room := State();
      ok := Parse(Expr);
      ghost var r := PResult(ok, State());
      assert r == CompilerSpec.Parse(re, Expr, room);
      assert Alternation(re, st, split) ==
        if !r.ok then r else PResult(true, PState(r.st.idx, PatchJmp(r.st.code, jmp)));
      if !ok {
        return;
      }
      PatchJump(jmp);
    }

    /** `SET_OP_A(jmp, JMP, (char)(cur - jmp))` (tregex.c:159). */
    method PatchJump(jmp: nat)
      requires Valid() && jmp + Jmp.Length() <= cur
      modifies code
      ensures Valid() && code[..cur] == PatchJmp(old(code[..cur]), jmp)
    {
      Patched(code[..], cur, jmp);
      SetOpA(code, jmp, Jmp, CharCast(cur - jmp));
    }

    /** The writes of the `|` branch before the right-hand side is parsed:
        the SPLIT before the left-hand side and the JMP slots after it. */
    method OpenAlternative(split: nat) returns (jmp: nat)
      requires Valid() && split <= cur && idx < |re| && re[idx] == Bar
      modifies this, code
      ensures Valid() && jmp == old(cur) + Split.Length()
      ensures State() == PState(old(idx) + 1, SplitRoom(old(code[..cur]), split))
    {
      ghost var b := code[..];
      ghost var end := cur;
      AlternativeWrites(b, split, cur);
      Move(split, Split.Length());
      cur := cur + Split.Length();
      jmp := cur;
      cur := cur + Jmp.Length();
      assert cur == end + 5;
      SetOpAB(code, split, Split, Split.Length(), CharCast(cur - split));
      assert code[..] == Moved(b, split, end, 3)
        [split := Split.Code()][split + 1 := 3][split + 2 := CharCast(end + 5 - split)];
      idx := idx + 1;
    }

    /** The TERM case (tregex.c:162-211). Each iteration is one pass of the
        `while` (a FACTOR, which becomes the operand at `insert`) or one
        postfix operator followed by `goto loop`. */
    method TermCase() returns (ok: bool)
      requires Valid()
      modifies this, code
      ensures Valid() && PResult(ok, State()) == CompilerSpec.TermCase(re, old(State()))
      decreases |re| - idx, 1, 1
    {
      var insert: nat := cur;
      ok := true;
      while true
        invariant Valid() && old(idx) <= idx && insert <= cur
        invariant TermLoop(re, State(), insert) == CompilerSpec.TermCase(re, old(State()))
        decreases |re| - idx
      {
        if idx < |re| && !IsPostfix(re[idx]) && re[idx] != Bar && re[idx] != Close {
          insert := cur;
          ok := Parse(Factor);
          if !ok {
            return;
          }
        } else if idx < |re| && IsPostfix(re[idx]) {
          Postfix(insert);
        } else {
          break;
        }
      }
    }

    /** The `switch` of the TERM case (tregex.c:172-210): one postfix
        operator applied to the operand at `insert`, after which the loop
        goes on as the specification's does. */
    method Postfix(insert: nat)
      requires Valid() && insert <= cur && idx < |re| && IsPostfix(re[idx])
      modifies this, code
      ensures Valid() && old(idx) < idx && insert <= cur
      ensures TermLoop(re, State(), insert) == TermLoop(re, old(State()), insert)
    {
      if re[idx] == Question {
        ApplyOptional(insert);
      } else if re[idx] == Star {
        ApplyStar(insert);
      } else {
        ApplyPlus(insert);
      }
    }

    /** `memmove(pos + k, pos, cur - pos)` on the buffer: the code from `pos`
        to the cursor moves `k` slots right. */
    method Move(pos: nat, k: nat)
      requires code.Length == MaxByteCodeSize && pos <= cur && cur + k <= code.Length
      modifies code
      ensures code[..] == Moved(old(code[..]), pos, cur, k)
    {
      Shift(code, pos, cur, k);
    }

    /** Case `?` (tregex.c:174-181): room for a SPLIT before the operand. */
    method ApplyOptional(insert: nat)
      requires Valid() && insert <= cur && idx < |re| && re[idx] == Question
      modifies this, code
      ensures Valid() && State() == PState(old(idx) + 1, Optional(old(code[..cur]), insert))
    {
      idx := idx + 1;
      ghost var b := code[..];
      OptionalWrites(b, insert, cur);
      Move(insert, Split.Length());
      cur := cur + Split.Length();
      var l1 := Split.Length();
      var l2 := cur - insert;
      SetOpAB(code, insert, Split, l1, l2);
    }

    /** Case `*` (tregex.c:182-194): room for PUSH and SPLIT before the
        operand, REPEAT after it. */
    method ApplyStar(insert: nat)
      requires Valid() && insert <= cur && idx < |re| && re[idx] == Star
      modifies this, code
      ensures Valid() && State() == PState(old(idx) + 1, Repeated(old(code[..cur]), insert))
    {
      idx := idx + 1;
      ghost var b := code[..];
      StarWrites(b, insert, cur);
      Move(insert, Push.Length() + Split.Length());
      cur := cur + Push.Length();
      cur := cur + Split.Length();
      SetOpZ(code, insert, Push);
      var l1 := Split.Length();
      var l2 := Push.Length() + (cur - insert);
      SetOpAB(code, insert + Push.Length(), Split, l1, l2);
      l1 := Push.Length() + (insert - cur);
      SetOpA(code, cur, Repeat, l1);
      cur := cur + Repeat.Length();
    }

    /** Case `+` (tregex.c:195-211): a lone MATCH or MATCH_SET operand has its
        opcode rewritten in place; any other operand gets PUSH before and
        REPEAT after. */
    method ApplyPlus(insert: nat)
      requires Valid() && insert <= cur && idx < |re| && re[idx] == PlusSign
      modifies this, code
      ensures Valid() && State() == PState(old(idx) + 1, OneOrMore(old(code[..cur]), insert))
    {
      idx := idx + 1;
      if IsMatchSingleChar(insert, cur) || IsMatchSingleCharset(insert, cur) {
        RewriteLoop(insert);
      } else {
        WrapPlus(insert);
      }
    }

    /** Case `+` on a lone MATCH or MATCH_SET: its opcode becomes LOOP or
        LOOP_SET (tregex.c:197-204). */
    method RewriteLoop(insert: nat)
      requires Valid() && insert <= cur
      requires SingleMatch(code[..cur], insert) || SingleMatchSet(code[..cur], insert)
      modifies code
      ensures Valid() && code[..cur] == OneOrMore(old(code[..cur]), insert)
    {
      RewriteWrites(code[..], insert, cur);
      if IsMatchSingleChar(insert, cur) {
        SetOpcode(code, insert, Loop);
      } else {
        SetOpcode(code, insert, LoopSet);
      }
    }

    /** Case `+` on any other operand: PUSH before it, REPEAT after it
        (tregex.c:205-211). */
    method WrapPlus(insert: nat)
      requires Valid() && insert <= cur && cur + 3 <= 6 * idx
      requires !SingleMatch(code[..cur], insert) && !SingleMatchSet(code[..cur], insert)
      modifies this, code
      ensures Valid() && idx == old(idx) && code[..cur] == OneOrMore(old(code[..cur]), insert)
    {
      ghost var b := code[..];
      ghost var end := cur;
      PlusWrites(b, insert, cur);
      Move(insert, Push.Length());
      cur := cur + Push.Length();
      SetOpZ(code, insert, Push);
      var l1 := Push.Length() + (insert - cur);
      SetOpA(code, cur, Repeat, l1);
      cur := cur + Repeat.Length();
      assert code[..] == Moved(b, insert, end, 1)
        [insert := Push.Code()][end + 1 := Repeat.Code()][end + 2 := 1 + (insert - (end + 1))];
    }

    /** `SET_OP_Z` then `STEP_OP_Z` at the cursor. */
    method EmitZ(op: Opcode)
      requires Valid() && op.Arity() == 0 && cur + op.Length() <= code.Length
      modifies this, code
      ensures idx == old(idx) && cur == old(cur) + op.Length()
      ensures code[..cur] == old(code[..cur]) + EncodeZ(op) && ZeroFrom(code[..], cur)
    {
      ghost var w := code[..];
      SetOpZ(code, cur, op);
      Appended(w, code[..], cur, EncodeZ(op));
      cur := cur + op.Length();
    }

    /** `SET_OP_A` then `STEP_OP_A` at the cursor. */
    method EmitA(op: Opcode, a: int)
      requires Valid() && op.Arity() == 1 && cur + op.Length() <= code.Length
      modifies this, code
      ensures idx == old(idx) && cur == old(cur) + op.Length()
      ensures code[..cur] == old(code[..cur]) + EncodeA(op, a) && ZeroFrom(code[..], cur)
    {
      ghost var w := code[..];
      SetOpA(code, cur, op, a);
      Appended(w, code[..], cur, EncodeA(op, a));
      cur := cur + op.Length();
    }

    /** `SET_OP_AB` then `STEP_OP_AB` at the cursor. */
    method EmitAB(op: Opcode, a: int, b: int)
      requires Valid() && op.Arity() == 2 && cur + op.Length() <= code.Length
      modifies this, code
      ensures idx == old(idx) && cur == old(cur) + op.Length()
      ensures code[..cur] == old(code[..cur]) + EncodeAB(op, a, b) && ZeroFrom(code[..], cur)
    {
      ghost var w := code[..];
      SetOpAB(code, cur, op, a, b);
      Appended(w, code[..], cur, EncodeAB(op, a, b));
      cur := cur + op.Length();
    }

    /** The FACTOR case (tregex.c:212-266). */
    method FactorCase() returns (ok: bool)
      requires Valid()
      modifies this, code
      ensures Valid() && PResult(ok, State()) == CompilerSpec.FactorCase(re, old(State()))
      decreases |re| - idx, 0, 1
    {
      if idx >= |re| {
        return true;
      }
      var c := re[idx];
      if c == Dot || c == Caret || c == Dollar {
        Anchor();
        ok := true;
      } else if c == Backslash {
        ok := Escape();
      } else if c == LeftBracket {
        ok := Bracket();
      } else if c == Open {
        ok := Group();
      } else if c == Bar || c == Close {
        ok := true;
      } else {
        EmitA(Match, c);
        idx := idx + 1;
        ok := true;
      }
    }

    /** Cases `.`, `^` and `$` (tregex.c:215-232): one ANY, BEGIN or END slot. */
    method Anchor()
      requires Valid() && idx < |re| && (re[idx] == Dot || re[idx] == Caret || re[idx] == Dollar)
      modifies this, code
      ensures Valid() && PResult(true, State()) == CompilerSpec.FactorCase(re, old(State()))
    {
      var op := if re[idx] == Dot then Any else if re[idx] == Caret then Begin else End;
      idx := idx + 1;
      EmitZ(op);
    }

    /** Case `\\` (tregex.c:233-239): MATCH of the next character, a failure
        when there is none. */
    method Escape() returns (ok: bool)
      requires Valid() && idx < |re| && re[idx] == Backslash
      modifies this, code
      ensures Valid() && PResult(ok, State()) == CompilerSpec.FactorCase(re, old(State()))
    {
      if idx + 1 >= |re| {
        return false;
      }
      EmitA(Match, re[idx + 1]);
      idx := idx + 2;
      ok := true;
    }

    /** Case `[` (tregex.c:240-252): exactly `[c-c]`, else a failure. */
    method Bracket() returns (ok: bool)
      requires Valid() && idx < |re| && re[idx] == LeftBracket
      modifies this, code
      ensures Valid() && PResult(ok, State()) == CompilerSpec.FactorCase(re, old(State()))
    {
      if idx + 4 >= |re| {
        return false;
      }
      if re[idx + 2] != Dash {
        return false;
      }
      if re[idx + 4] != RightBracket {
        return false;
      }
      EmitAB(MatchSet, re[idx + 1], re[idx + 3]);
      idx := idx + 5;
      ok := true;
    }

    /** Case `(` (tregex.c:253-258): an EXPR whose own result is dropped, then
        a required `)`. */
    method Group() returns (ok: bool)
      requires Valid() && idx < |re| && re[idx] == Open
      modifies this, code
      ensures Valid() && PResult(ok, State()) == CompilerSpec.FactorCase(re, old(State()))
      decreases |re| - idx, 0, 0
    {
      idx := idx + 1;
      var _ := Parse(Expr);
      if idx >= |re| || re[idx] != Close {
        return false;
      }
      idx := idx + 1;
      ok := true;
    }
  }

  /** `tregex_compile` (tregex.c:270-291): parse the whole pattern, then end
      the code with ACCEPT, or put HALT in slot 0 with length 1. */
  method Compile(re: seq<SChar>) returns (p: Program)
    requires Fits(re)
    ensures p == CompilerSpec.Compile(re)
  {
    var parser := new Parser(re);
    var ok := parser.Parse(Expr);
    var len: nat;
    if ok && parser.idx == |re| {
      ghost var emitted := parser.code[..parser.cur];
      SetOpZ(parser.code, parser.cur, Accept);
      parser.cur := parser.cur + Accept.Length();
      len := parser.cur;
      assert parser.code[..] == Padded(emitted + EncodeZ(Accept));
    } else {
      ghost var emitted := parser.code[..parser.cur];
      assert parser.code[..] == Padded(emitted);
      SetOpZ(parser.code, 0, Halt);
      len := 1;
    }
    p := Program(parser.code[..], len);
  }
}
