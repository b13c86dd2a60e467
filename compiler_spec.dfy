/** Specification of the single-pass compiler (tregex.c:136-291): the
    recursive-descent parser as functions on the parser state, keeping the
    C switch's fall-through from EXPR into TERM into FACTOR. */
module CompilerSpec {
  import opened Layout

  // Pattern characters the parser dispatches on.
  const Bar: int := '|' as int
  const Close: int := ')' as int
  const Open: int := '(' as int
  const Question: int := '?' as int
  const Star: int := '*' as int
  const PlusSign: int := '+' as int
  const Dot: int := '.' as int
  const Caret: int := '^' as int
  const Dollar: int := '$' as int
  const Backslash: int := '\\' as int
  const LeftBracket: int := '[' as int
  const RightBracket: int := ']' as int
  const Dash: int := '-' as int

  /** The three syntax levels of `tregex_parse`. */
  datatype Level = Expr | Term | Factor

  /** Later levels are reached from earlier ones by fall-through. */
  function Rank(l: Level): nat
  {
    match l
    case Expr => 2
    case Term => 1
    case Factor => 0
  }

  /** The parse context: position in the pattern and the slots emitted so
      far (the code buffer up to the cursor). */
  datatype PState = PState(idx: nat, code: seq<int>)

  /** The C return value (1 or 0) and where the context was left, also on
      failure, because the group case reads the position after a failed
      inner parse. */
  datatype PResult = PResult(ok: bool, st: PState)

  /** A pattern whose code fits the buffer: each pattern character emits at
      most six slots, and one more slot holds the final ACCEPT. */
  predicate Fits(re: seq<SChar>)
  {
    6 * |re| < MaxByteCodeSize
  }

  /** The position lies in the pattern and at most six slots were emitted
      per character consumed. */
  predicate Bounded(re: seq<SChar>, st: PState)
  {
    st.idx <= |re| && |st.code| <= 6 * st.idx
  }

  /** `r` continues from `st`: the position only moves forward and the slots
      emitted before are kept. */
  predicate Extends(re: seq<SChar>, st: PState, r: PResult)
  {
    && Bounded(re, r.st)
    && st.idx <= r.st.idx
    && |st.code| <= |r.st.code|
    && r.st.code[..|st.code|] == st.code
  }

  /** The character at `i` starts an item (it is neither `|` nor `)`). */
  predicate AtItem(re: seq<SChar>, i: nat)
  {
    i < |re| && re[i] != Bar && re[i] != Close
  }

  /** A successful parse started on an item consumes at least one character. */
  predicate Advances(re: seq<SChar>, st: PState, r: PResult)
  {
    r.ok && AtItem(re, st.idx) ==> st.idx < r.st.idx
  }

  /** A failed parse never stops on a `)`. */
  predicate FailsOffClose(re: seq<SChar>, r: PResult)
  {
    !r.ok && r.st.idx < |re| ==> re[r.st.idx] != Close
  }

  /** Opens room for `ops` at `pos` (the memmove) and writes them there. */
  function Insert(code: seq<int>, pos: nat, ops: seq<int>): (c: seq<int>)
    requires pos <= |code|
    ensures |c| == |code| + |ops| && c[..pos] == code[..pos]
  {
    code[..pos] + ops + code[pos..]
  }

  /** `is_match_single_char` on the operand `code[insert..]`
      (tregex.c:136-138). The C reads the opcode slot first; when the
      operand is empty that slot lies past the cursor and holds zero, which
      is not MATCH, so testing the length first gives the same answer. */
  predicate SingleMatch(code: seq<int>, insert: nat)
    requires insert <= |code|
  {
    |code| - insert == Match.Length() && code[insert] == Match.Code()
  }

  /** `is_match_single_charset` (tregex.c:140-142). */
  predicate SingleMatchSet(code: seq<int>, insert: nat)
    requires insert <= |code|
  {
    |code| - insert == MatchSet.Length() && code[insert] == MatchSet.Code()
  }

  /** `?` on the operand `code[insert..]` (tregex.c:174-181). */
  function Optional(code: seq<int>, insert: nat): (c: seq<int>)
    requires insert <= |code|
  {
    var cur := |code| + Split.Length();
    Insert(code, insert, EncodeAB(Split, Split.Length(), cur - insert))
  }

  /** `*` on the operand `code[insert..]` (tregex.c:182-194). */
  function Repeated(code: seq<int>, insert: nat): (c: seq<int>)
    requires insert <= |code|
  {
    var cur := |code| + Push.Length() + Split.Length();
    var room := Insert(code, insert,
      EncodeZ(Push) + EncodeAB(Split, Split.Length(), Push.Length() + (cur - insert)));
    room + EncodeA(Repeat, Push.Length() + (insert - cur))
  }

  /** `+` on the operand `code[insert..]` (tregex.c:195-211). */
  function OneOrMore(code: seq<int>, insert: nat): (c: seq<int>)
    requires insert <= |code|
  {
    if SingleMatch(code, insert) then code[insert := Loop.Code()]
    else if SingleMatchSet(code, insert) then code[insert := LoopSet.Code()]
    else
      var cur := |code| + Push.Length();
      Insert(code, insert, EncodeZ(Push)) + EncodeA(Repeat, Push.Length() + (insert - cur))
  }

  /** `tregex_parse(ctx, level)` (tregex.c:144-268). The cases have no
      `break`: EXPR continues with the TERM case and TERM with the FACTOR
      case once they succeed. */
  function Parse(re: seq<SChar>, l: Level, st: PState): (r: PResult)
    requires Bounded(re, st)
    ensures Extends(re, st, r) && Advances(re, st, r) && FailsOffClose(re, r)
    ensures r.ok && l != Factor ==> !AtItem(re, r.st.idx)
    decreases |re| - st.idx, Rank(l), 2
  {
    var r1 := if l == Expr then ExprCase(re, st) else PResult(true, st);
    if !r1.ok then r1
    else
      var r2 := if l != Factor then TermCase(re, r1.st) else PResult(true, r1.st);
      if !r2.ok then r2
      else FactorCase(re, r2.st)
  }

  /** The EXPR case (tregex.c:146-161): a run of terms, then, at `|`, the
      alternation with the terms as its left-hand side. */
  function ExprCase(re: seq<SChar>, st: PState): (r: PResult)
    requires Bounded(re, st)
    ensures Extends(re, st, r) && Advances(re, st, r) && FailsOffClose(re, r)
    ensures r.ok ==> !AtItem(re, r.st.idx)
    decreases |re| - st.idx, 2, 1
  {
    var r := Terms(re, st);
    if !r.ok then r
    else if r.st.idx < |re| && re[r.st.idx] == Bar then Alternation(re, r.st, |st.code|)
    else r
  }

  /** The `|` branch of the EXPR case (tregex.c:150-159): room for a SPLIT
      before the left-hand side `code[split..]` and for a JMP after it, the
      right-hand side parsed as a whole EXPR, and the JMP patched to land
      past it. Both offsets pass through a `(char)` cast. */
  function Alternation(re: seq<SChar>, st: PState, split: nat): (r: PResult)
    requires Bounded(re, st) && split <= |st.code| && st.idx < |re| && re[st.idx] == Bar
    ensures Bounded(re, r.st) && st.idx < r.st.idx && |st.code| <= |r.st.code|
    ensures r.st.code[..split] == st.code[..split] && FailsOffClose(re, r)
    ensures r.ok ==> !AtItem(re, r.st.idx)
    decreases |re| - st.idx, 2, 0
  {
    var r := Parse(re, Expr, PState(st.idx + 1, SplitRoom(st.code, split)));
    if !r.ok then r
    else PResult(true, PState(r.st.idx, PatchJmp(r.st.code, |st.code| + Split.Length())))
  }

  /** The code once the `|` branch has opened room (tregex.c:151-155): the
      SPLIT before the left-hand side `code[split..]`, whose B offset
      reaches past the two JMP slots reserved after it. */
  function SplitRoom(code: seq<int>, split: nat): (c: seq<int>)
    requires split <= |code|
    ensures |c| == |code| + Split.Length() + Jmp.Length()
  {
    var jmp := |code| + Split.Length();
    var cur := jmp + Jmp.Length();
    Insert(code, split, EncodeAB(Split, Split.Length(), CharCast(cur - split))) + [0, 0]
  }

  /** The JMP at `jmp` patched to reach the end of `code` (tregex.c:158). */
  function PatchJmp(code: seq<int>, jmp: nat): (c: seq<int>)
    requires jmp + Jmp.Length() <= |code|
    ensures |c| == |code|
  {
    code[jmp := Jmp.Code()][jmp + 1 := CharCast(|code| - jmp)]
  }

  /** The `while` loop of the EXPR case (tregex.c:148-149): TERMs until `|`,
      `)` or the end of the pattern. */
  function Terms(re: seq<SChar>, st: PState): (r: PResult)
    requires Bounded(re, st)
    ensures Extends(re, st, r) && Advances(re, st, r) && FailsOffClose(re, r)
    ensures r.ok ==> !AtItem(re, r.st.idx)
    decreases |re| - st.idx, 2, 0
  {
    if AtItem(re, st.idx) then
      var r := Parse(re, Term, st);
      if !r.ok then r else Terms(re, r.st)
    else PResult(true, st)
  }

  /** A postfix operator character. */
  predicate IsPostfix(c: int)
  {
    c == Question || c == Star || c == PlusSign
  }

  /** The TERM case (tregex.c:162-211), entered with the operand position at
      the cursor. */
  function TermCase(re: seq<SChar>, st: PState): (r: PResult)
    requires Bounded(re, st)
    ensures Extends(re, st, r) && Advances(re, st, r) && FailsOffClose(re, r)
    ensures r.ok ==> !AtItem(re, r.st.idx)
    decreases |re| - st.idx, 1, 1
  {
    TermLoop(re, st, |st.code|)
  }

  /** The `loop:` label of the TERM case: each call runs one iteration of the
      `while` (a FACTOR, whose code becomes the operand) or one postfix
      operator applied to the operand `code[insert..]`. */
  function TermLoop(re: seq<SChar>, st: PState, insert: nat): (r: PResult)
    requires Bounded(re, st) && insert <= |st.code|
    ensures Bounded(re, r.st) && st.idx <= r.st.idx && |st.code| <= |r.st.code|
    ensures r.st.code[..insert] == st.code[..insert]
    ensures Advances(re, st, r) && FailsOffClose(re, r)
    ensures r.ok ==> !AtItem(re, r.st.idx)
    decreases |re| - st.idx, 1, 0
  {
    if AtItem(re, st.idx) && !IsPostfix(re[st.idx]) then
      var r := Parse(re, Factor, st);
      if !r.ok then r else TermLoop(re, r.st, |st.code|)
    else if st.idx < |re| && re[st.idx] == Question then
      TermLoop(re, PState(st.idx + 1, Optional(st.code, insert)), insert)
    else if st.idx < |re| && re[st.idx] == Star then
      TermLoop(re, PState(st.idx + 1, Repeated(st.code, insert)), insert)
    else if st.idx < |re| && re[st.idx] == PlusSign then
      TermLoop(re, PState(st.idx + 1, OneOrMore(st.code, insert)), insert)
    else PResult(true, st)
  }

  /** The FACTOR case (tregex.c:212-266). */
  function FactorCase(re: seq<SChar>, st: PState): (r: PResult)
    requires Bounded(re, st)
    ensures Extends(re, st, r) && Advances(re, st, r) && FailsOffClose(re, r)
    decreases |re| - st.idx, 0, 1
  {
    if st.idx >= |re| then PResult(true, st)
    else
      var c := re[st.idx];
      if c == Dot then PResult(true, PState(st.idx + 1, st.code + EncodeZ(Any)))
      else if c == Caret then PResult(true, PState(st.idx + 1, st.code + EncodeZ(Begin)))
      else if c == Dollar then PResult(true, PState(st.idx + 1, st.code + EncodeZ(End)))
      else if c == Backslash then
        if st.idx + 1 >= |re| then PResult(false, st)
        else PResult(true, PState(st.idx + 2, st.code + EncodeA(Match, re[st.idx + 1])))
      else if c == LeftBracket then
        if st.idx + 4 >= |re| then PResult(false, st)
        else if re[st.idx + 2] != Dash then PResult(false, st)
        else if re[st.idx + 4] != RightBracket then PResult(false, st)
        else PResult(true, PState(st.idx + 5,
          st.code + EncodeAB(MatchSet, re[st.idx + 1], re[st.idx + 3])))
      else if c == Open then
        var inner := Parse(re, Expr, PState(st.idx + 1, st.code));
        if inner.st.idx >= |re| || re[inner.st.idx] != Close then PResult(false, inner.st)
        else PResult(true, PState(inner.st.idx + 1, inner.st.code))
      else if c == Bar || c == Close then PResult(true, st)
      else PResult(true, PState(st.idx + 1, st.code + EncodeA(Match, c)))
  }

  /** The compiled program: the whole 1024-slot buffer (zeroed by `calloc`)
      and the number of slots in use. */
  datatype Program = Program(code: seq<int>, len: nat)

  /** The code buffer: `c` followed by zero slots up to its capacity. */
  function Padded(c: seq<int>): (b: seq<int>)
    requires |c| <= MaxByteCodeSize
    ensures |b| == MaxByteCodeSize && b[..|c|] == c
    ensures forall i :: |c| <= i < MaxByteCodeSize ==> b[i] == 0
  {
    c + seq(MaxByteCodeSize - |c|, _ => 0)
  }

  /** `tregex_compile` (tregex.c:270-291): the parse of the whole pattern
      followed by ACCEPT, or HALT in slot 0 with length 1 when the parse
      fails or stops early. */
  function Compile(re: seq<SChar>): (p: Program)
    requires Fits(re)
    ensures |p.code| == MaxByteCodeSize && 1 <= p.len <= MaxByteCodeSize
    ensures var r := Parse(re, Expr, PState(0, []));
      && (p.code[p.len - 1] == Accept.Code() <==> r.ok && r.st.idx == |re|)
      && (r.ok && r.st.idx == |re| ==> p.len == |r.st.code| + 1 && p.code[..p.len - 1] == r.st.code)
      && (!(r.ok && r.st.idx == |re|) ==> p.len == 1 && p.code[0] == Halt.Code())
  {
    var r := Parse(re, Expr, PState(0, []));
    if r.ok && r.st.idx == |re| then
      Program(Padded(r.st.code + EncodeZ(Accept)), |r.st.code| + 1)
    else
      Program(Padded(r.st.code)[0 := Halt.Code()], 1)
  }

  // Lowering of the postfix operators and of `|`, for an operand of n slots.

  /** `?`: SPLIT(3, n+3) then the operand; the SPLIT's first target is the
      operand and its second the slot just past it. */
  lemma OptionalLowering(code: seq<int>, insert: nat)
    requires insert <= |code|
    ensures var n := |code| - insert;
      Optional(code, insert) == code[..insert] + [Split.Code(), 3, n + 3] + code[insert..]
    ensures insert + 3 == insert + Split.Length() && insert + (|code| - insert + 3) == |Optional(code, insert)|
  {
  }

  /** `*`: PUSH, SPLIT(3, n+5), the operand, REPEAT(-(n+3)). The REPEAT lands
      on the SPLIT, whose targets are the operand and the slot past the
      REPEAT. */
  lemma RepeatedLowering(code: seq<int>, insert: nat)
    requires insert <= |code|
    ensures var n := |code| - insert;
      Repeated(code, insert)
        == code[..insert] + [Push.Code(), Split.Code(), 3, n + 5] + code[insert..] + [Repeat.Code(), -(n + 3)]
    ensures var n := |code| - insert;
      var c := Repeated(code, insert);
      var repeat := insert + 4 + n;
      && c[repeat] == Repeat.Code() && repeat + c[repeat + 1] == insert + 1
      && c[insert + 1] == Split.Code()
      && (insert + 1) + c[insert + 2] == insert + 4
      && (insert + 1) + c[insert + 3] == |c|
  {
    var n := |code| - insert;
    var c := Repeated(code, insert);
    assert c == code[..insert] + [Push.Code(), Split.Code(), 3, n + 5] + code[insert..] + [Repeat.Code(), -(n + 3)];
  }

  /** `+` on any operand other than a lone MATCH or MATCH_SET: PUSH, the
      operand, REPEAT(-n), which lands on the operand's first slot. */
  lemma OneOrMoreLowering(code: seq<int>, insert: nat)
    requires insert <= |code|
    requires !SingleMatch(code, insert) && !SingleMatchSet(code, insert)
    ensures var n := |code| - insert;
      OneOrMore(code, insert) == code[..insert] + [Push.Code()] + code[insert..] + [Repeat.Code(), -n]
    ensures var c := OneOrMore(code, insert);
      var repeat := |code| + 1;
      c[repeat] == Repeat.Code() && repeat + c[repeat + 1] == insert + 1
  {
    var n := |code| - insert;
    assert OneOrMore(code, insert) == code[..insert] + [Push.Code()] + code[insert..] + [Repeat.Code(), -n];
  }

  /** `+` on a lone MATCH or MATCH_SET rewrites only its opcode, to LOOP or
      LOOP_SET: same size, same operands. */
  lemma OneOrMoreRewrite(code: seq<int>, insert: nat)
    requires insert <= |code|
    requires SingleMatch(code, insert) || SingleMatchSet(code, insert)
    ensures var c := OneOrMore(code, insert);
      && |c| == |code| && c[..insert] == code[..insert] && c[insert + 1..] == code[insert + 1..]
      && c[insert] == (if code[insert] == Match.Code() then Loop.Code() else LoopSet.Code())
  {
  }

  /** `A|B`: the code is SPLIT, A, JMP, B. The SPLIT's first target is A and
      its second the first slot of B; the JMP lands just past B. Offsets are
      read after the `(char)` cast, so this holds while both stay below 128. */
  lemma AlternationLowering(re: seq<SChar>, st: PState, split: nat)
    requires Bounded(re, st) && split <= |st.code| && st.idx < |re| && re[st.idx] == Bar
    requires Alternation(re, st, split).ok
    requires |Alternation(re, st, split).st.code| - split < 128
    ensures var n := |st.code| - split;
      var c := Alternation(re, st, split).st.code;
      var jmp := split + 3 + n;
      && c[..split] == st.code[..split]
      && c[split] == Split.Code()
      && c[split + 3..jmp] == st.code[split..]
      && split + c[split + 1] == split + 3
      && split + c[split + 2] == jmp + 2
      && c[jmp] == Jmp.Code()
      && jmp + c[jmp + 1] == |c|
  {
    var room := SplitRoom(st.code, split);
    var r := Parse(re, Expr, PState(st.idx + 1, room));
    var n := |st.code| - split;
    var jmp := split + 3 + n;
    assert r.st.code[..|room|] == room;
    assert room[split + 3..jmp] == st.code[split..];
    CharCastSmall(jmp + 2 - split);
    CharCastSmall(|r.st.code| - jmp);
    var c := PatchJmp(r.st.code, jmp);
    assert c[split + 3..jmp] == r.st.code[split + 3..jmp] == room[split + 3..jmp];
  }

  // The FACTOR cases that can fail.

  /** `\` needs a following character, which it matches literally. */
  lemma EscapeForm(re: seq<SChar>, st: PState)
    requires Bounded(re, st) && st.idx < |re| && re[st.idx] == Backslash
    ensures var r := FactorCase(re, st);
      && (r.ok <==> st.idx + 1 < |re|)
      && (r.ok ==> r.st == PState(st.idx + 2, st.code + [Match.Code(), re[st.idx + 1]]))
  {
  }

  /** `[` succeeds exactly on the five characters `[c-c]`, giving MATCH_SET
      with the two bounds. */
  lemma BracketForm(re: seq<SChar>, st: PState)
    requires Bounded(re, st) && st.idx < |re| && re[st.idx] == LeftBracket
    ensures var r := FactorCase(re, st);
      && (r.ok <==> st.idx + 4 < |re| && re[st.idx + 2] == Dash && re[st.idx + 4] == RightBracket)
      && (r.ok ==> r.st == PState(st.idx + 5,
           st.code + [MatchSet.Code(), re[st.idx + 1], re[st.idx + 3]]))
  {
  }

  /** `(` ignores the inner EXPR's result (tregex.c:254), yet succeeds only
      when that EXPR succeeded and stopped on `)`: a failed parse never
      stops on `)`. */
  lemma GroupForm(re: seq<SChar>, st: PState)
    requires Bounded(re, st) && st.idx < |re| && re[st.idx] == Open
    ensures var inner := Parse(re, Expr, PState(st.idx + 1, st.code));
      FactorCase(re, st).ok <==> inner.ok && inner.st.idx < |re| && re[inner.st.idx] == Close
  {
  }

  /** The FACTOR case does nothing off an item: at `|`, `)` or the end. */
  lemma FactorOffItem(re: seq<SChar>, st: PState)
    requires Bounded(re, st) && !AtItem(re, st.idx)
    ensures FactorCase(re, st) == PResult(true, st)
  {
  }

  /** The fall-through from EXPR into the TERM and FACTOR cases emits
      nothing, since EXPR stops on `|`, `)` or the end. */
  lemma ExprFallThrough(re: seq<SChar>, st: PState)
    requires Bounded(re, st)
    ensures Parse(re, Expr, st) == ExprCase(re, st)
  {
    var e := ExprCase(re, st);
    if e.ok {
      FactorOffItem(re, e.st);
      assert TermCase(re, e.st) == PResult(true, e.st);
    }
  }

  /** Likewise from TERM into the FACTOR case. */
  lemma TermFallThrough(re: seq<SChar>, st: PState)
    requires Bounded(re, st)
    ensures Parse(re, Term, st) == TermCase(re, st)
  {
    var t := TermCase(re, st);
    if t.ok {
      FactorOffItem(re, t.st);
    }
  }

  // Plain characters compile to one MATCH each.

  /** A character with no meaning to the parser. */
  predicate Plain(c: SChar)
  {
    && c != Bar && c != Close && c != Open && !IsPostfix(c)
    && c != Dot && c != Caret && c != Dollar && c != Backslash && c != LeftBracket
  }

  /** The MATCH instructions of the characters of `s`, in order. */
  function Literals(s: seq<SChar>): (c: seq<int>)
    ensures |c| == 2 * |s|
  {
    if s == [] then [] else [Match.Code(), s[0]] + Literals(s[1..])
  }

  /** A run of plain characters up to the end of the pattern becomes their
      MATCH instructions, one per character. */
  lemma {:induction false} PlainRun(re: seq<SChar>, st: PState, insert: nat)
    requires Bounded(re, st) && insert <= |st.code|
    requires forall i :: st.idx <= i < |re| ==> Plain(re[i])
    ensures TermLoop(re, st, insert) == PResult(true, PState(|re|, st.code + Literals(re[st.idx..])))
    decreases |re| - st.idx
  {
    if st.idx == |re| {
      assert re[st.idx..] == [];
    } else {
      var c := re[st.idx];
      var next := PState(st.idx + 1, st.code + [Match.Code(), c]);
      assert Parse(re, Factor, st) == PResult(true, next);
      PlainRun(re, next, |st.code|);
      assert re[st.idx..] == [c] + re[st.idx + 1..];
      assert st.code + [Match.Code(), c] + Literals(re[st.idx + 1..]) == st.code + Literals(re[st.idx..]);
    }
  }

  /** A pattern of plain characters parses as one EXPR into its MATCH
      instructions. */
  lemma PlainParse(re: seq<SChar>)
    requires forall i :: 0 <= i < |re| ==> Plain(re[i])
    ensures Parse(re, Expr, PState(0, [])) == PResult(true, PState(|re|, Literals(re)))
  {
    var st := PState(0, []);
    var done := PState(|re|, Literals(re));
    ExprFallThrough(re, st);
    if |re| > 0 {
      TermFallThrough(re, st);
      PlainRun(re, st, 0);
      assert re[0..] == re;
      assert TermCase(re, st) == PResult(true, done);
      assert Parse(re, Term, st) == PResult(true, done);
      assert Terms(re, st) == Terms(re, done);
    }
    assert Terms(re, st) == PResult(true, done);
  }

  /** A pattern of plain characters compiles to its MATCH instructions
      followed by ACCEPT. */
  lemma CompilePlain(re: seq<SChar>)
    requires Fits(re) && forall i :: 0 <= i < |re| ==> Plain(re[i])
    ensures Compile(re).len == 2 * |re| + 1
    ensures Compile(re).code[..Compile(re).len] == Literals(re) + [Accept.Code()]
  {
    PlainParse(re);
    var p := Compile(re);
    assert p.code[p.len - 1] == Accept.Code();
  }
}
