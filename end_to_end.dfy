/** What compiling and then running a pattern comes to, for the shapes the
    compiler lowers most directly: `tregex_match` (tregex.c:441-465) with
    the program `tregex_compile` (tregex.c:270-291) produces. */
module EndToEnd {
  import opened Layout
  import opened CompilerSpec
  import opened MachineSpec

  /** One MATCH of `c` at `pc`: the thread advances past it when the subject
      continues with `c` at `idx`, and is dropped otherwise. */
  lemma MatchStep(code: seq<int>, s: seq<SChar>, c: SChar, pc: nat, idx: nat, stack: seq<int>, q: Threads)
    requires pc + 1 < |code| && code[pc] == Match.Code() && code[pc + 1] == c
    ensures Step(code, s, Thread(pc, idx, stack), q)
      == if idx < |s| && s[idx] == c then Continue(Thread(pc + 2, idx + 1, stack), q) else Fail
  {
    CodeRoundTrip(Match, Match);
    CharCastSmall(c);
  }

  /** ACCEPT at `pc` returns the index. */
  lemma AcceptStep(code: seq<int>, s: seq<SChar>, pc: nat, idx: nat, stack: seq<int>, q: Threads)
    requires pc < |code| && code[pc] == Accept.Code()
    ensures Step(code, s, Thread(pc, idx, stack), q) == Stop(Returned(idx))
  {
    CodeRoundTrip(Accept, Accept);
  }

  /** Whether the subject continues with `lit` at `idx`, after its first
      character matched. */
  lemma PrefixHit(s: seq<SChar>, idx: nat, lit: seq<SChar>)
    requires lit != [] && idx < |s| && s[idx] == lit[0]
    ensures (idx + |lit| <= |s| && s[idx..idx + |lit|] == lit)
        == (idx + 1 + |lit[1..]| <= |s| && s[idx + 1..idx + 1 + |lit[1..]|] == lit[1..])
  {
    if idx + |lit| <= |s| {
      assert s[idx..idx + |lit|] == [s[idx]] + s[idx + 1..idx + |lit|];
      assert lit == [lit[0]] + lit[1..];
    }
  }

  /** The subject does not continue with `lit` at `idx` when its first
      character does not match. */
  lemma PrefixMiss(s: seq<SChar>, idx: nat, lit: seq<SChar>)
    requires lit != [] && !(idx < |s| && s[idx] == lit[0])
    ensures !(idx + |lit| <= |s| && s[idx..idx + |lit|] == lit)
  {
    if idx + |lit| <= |s| {
      assert s[idx..idx + |lit|][0] == s[idx];
    }
  }

  /** ACCEPT ends the run with the index. */
  lemma AcceptExec(code: seq<int>, s: seq<SChar>, pc: nat, idx: nat, stack: seq<int>, q: Threads,
                   fuel: nat)
    requires pc < |code| && code[pc] == Accept.Code() && fuel > 0
    ensures Exec(code, s, Thread(pc, idx, stack), q, fuel) == Returned(idx)
  {
    AcceptStep(code, s, pc, idx, stack, q);
    ExecStep(code, s, Thread(pc, idx, stack), q, fuel);
  }

  /** A MATCH of `c` that the subject continues with goes on with the next
      instruction, one character further. */
  lemma MatchHitExec(code: seq<int>, s: seq<SChar>, c: SChar, pc: nat, idx: nat, stack: seq<int>,
                     q: Threads, fuel: nat)
    requires pc + 1 < |code| && code[pc] == Match.Code() && code[pc + 1] == c && fuel > 0
    requires idx < |s| && s[idx] == c
    ensures Exec(code, s, Thread(pc, idx, stack), q, fuel)
      == Exec(code, s, Thread(pc + 2, idx + 1, stack), q, fuel - 1)
  {
    MatchStep(code, s, c, pc, idx, stack, q);
    ExecStep(code, s, Thread(pc, idx, stack), q, fuel);
  }

  /** With no pending thread, a MATCH of `c` that the subject does not
      continue with ends the run with -1. */
  lemma MatchMissExec(code: seq<int>, s: seq<SChar>, c: SChar, pc: nat, idx: nat, stack: seq<int>,
                      cap: nat, fuel: nat)
    requires pc + 1 < |code| && code[pc] == Match.Code() && code[pc + 1] == c && fuel > 0
    requires !(idx < |s| && s[idx] == c)
    ensures Exec(code, s, Thread(pc, idx, stack), Threads([], cap), fuel) == Returned(-1)
  {
    MatchStep(code, s, c, pc, idx, stack, Threads([], cap));
    ExecStep(code, s, Thread(pc, idx, stack), Threads([], cap), fuel);
  }

  /** The code for a non-empty literal starts with the MATCH of its first
      character, followed by the code for the rest. */
  lemma LiteralsHead(code: seq<int>, lit: seq<SChar>, pc: nat)
    requires lit != [] && pc + 2 * |lit| <= |code| && code[pc..pc + 2 * |lit|] == Literals(lit)
    ensures code[pc] == Match.Code() && code[pc + 1] == lit[0]
    ensures code[pc + 2..pc + 2 + 2 * |lit[1..]|] == Literals(lit[1..])
  {
    var rest := lit[1..];
    assert Literals(lit) == [Match.Code(), lit[0]] + Literals(rest);
    assert code[pc] == Literals(lit)[0] && code[pc + 1] == Literals(lit)[1];
    assert code[pc + 2..pc + 2 + 2 * |rest|] == code[pc..pc + 2 * |lit|][2..];
  }

  /** The MATCH instructions for `lit` lie at `pc`, one character at a time. */
  predicate LiteralsAt(code: seq<int>, pc: nat, lit: seq<SChar>)
    decreases |lit|
  {
    lit == [] ||
    (pc + 1 < |code| && code[pc] == Match.Code() && code[pc + 1] == lit[0]
     && LiteralsAt(code, pc + 2, lit[1..]))
  }

  lemma {:induction false} LiteralsAtSlice(code: seq<int>, pc: nat, lit: seq<SChar>)
    requires pc + 2 * |lit| < |code| && code[pc..pc + 2 * |lit|] == Literals(lit)
    ensures LiteralsAt(code, pc, lit)
    decreases |lit|
  {
    if lit != [] {
      LiteralsHead(code, lit, pc);
      LiteralsAtSlice(code, pc + 2, lit[1..]);
    }
  }

  /** Where matching `lit` character by character from `idx` ends, or -1. */
  function LiteralEnd(s: seq<SChar>, idx: nat, lit: seq<SChar>): int
    decreases |lit|
  {
    if lit == [] then idx
    else if idx < |s| && s[idx] == lit[0] then LiteralEnd(s, idx + 1, lit[1..])
    else -1
  }

  lemma {:induction false} LiteralEndPrefix(s: seq<SChar>, idx: nat, lit: seq<SChar>)
    requires idx <= |s|
    ensures LiteralEnd(s, idx, lit)
      == if idx + |lit| <= |s| && s[idx..idx + |lit|] == lit then idx + |lit| else -1
    decreases |lit|
  {
    if lit == [] {
      assert s[idx..idx] == lit;
    } else if idx < |s| && s[idx] == lit[0] {
      LiteralEndPrefix(s, idx + 1, lit[1..]);
      PrefixHit(s, idx, lit);
    } else {
      PrefixMiss(s, idx, lit);
    }
  }

  lemma {:induction false} LiteralExec(code: seq<int>, s: seq<SChar>, lit: seq<SChar>, pc: nat,
                                       idx: nat, stack: seq<int>, cap: nat, fuel: nat)
    requires LiteralsAt(code, pc, lit)
    requires pc + 2 * |lit| < |code| && code[pc + 2 * |lit|] == Accept.Code() && fuel > |lit|
    ensures Exec(code, s, Thread(pc, idx, stack), Threads([], cap), fuel)
      == Returned(LiteralEnd(s, idx, lit))
    decreases |lit|
  {
    if lit == [] {
      AcceptExec(code, s, pc, idx, stack, Threads([], cap), fuel);
    } else if idx < |s| && s[idx] == lit[0] {
      LiteralExec(code, s, lit[1..], pc + 2, idx + 1, stack, cap, fuel - 1);
      LiteralHit(code, s, lit, pc, idx, stack, cap, fuel);
    } else {
      LiteralMiss(code, s, lit, pc, idx, stack, cap, fuel);
    }
  }

  /** The step of `LiteralExec` when the first character matches. */
  lemma LiteralHit(code: seq<int>, s: seq<SChar>, lit: seq<SChar>, pc: nat,
                   idx: nat, stack: seq<int>, cap: nat, fuel: nat)
    requires lit != [] && LiteralsAt(code, pc, lit) && idx < |s| && s[idx] == lit[0] && fuel > 0
    requires Exec(code, s, Thread(pc + 2, idx + 1, stack), Threads([], cap), fuel - 1)
      == Returned(LiteralEnd(s, idx + 1, lit[1..]))
    ensures Exec(code, s, Thread(pc, idx, stack), Threads([], cap), fuel)
      == Returned(LiteralEnd(s, idx, lit))
  {
    MatchHitExec(code, s, lit[0], pc, idx, stack, Threads([], cap), fuel);
  }

  /** The step of `LiteralExec` when the first character does not match. */
  lemma LiteralMiss(code: seq<int>, s: seq<SChar>, lit: seq<SChar>, pc: nat,
                    idx: nat, stack: seq<int>, cap: nat, fuel: nat)
    requires lit != [] && LiteralsAt(code, pc, lit) && !(idx < |s| && s[idx] == lit[0]) && fuel > 0
    ensures Exec(code, s, Thread(pc, idx, stack), Threads([], cap), fuel)
      == Returned(LiteralEnd(s, idx, lit))
  {
    MatchMissExec(code, s, lit[0], pc, idx, stack, cap, fuel);
  }

  /** MATCH instructions for `lit` at `pc` followed by ACCEPT, run with no
      pending thread: the end of `lit` when the subject continues with it at
      `idx`, -1 otherwise. */
  lemma LiteralSteps(code: seq<int>, s: seq<SChar>, lit: seq<SChar>, pc: nat,
                     idx: nat, stack: seq<int>, cap: nat, fuel: nat)
    requires pc + 2 * |lit| < |code| && idx <= |s|
    requires code[pc..pc + 2 * |lit|] == Literals(lit) && code[pc + 2 * |lit|] == Accept.Code()
    requires fuel > |lit|
    ensures Exec(code, s, Thread(pc, idx, stack), Threads([], cap), fuel)
      == Returned(if idx + |lit| <= |s| && s[idx..idx + |lit|] == lit then idx + |lit| else -1)
  {
    LiteralsAtSlice(code, pc, lit);
    LiteralExec(code, s, lit, pc, idx, stack, cap, fuel);
    LiteralEndPrefix(s, idx, lit);
  }

  /** A pattern of plain characters matches exactly the subjects that start
      with it, and the match ends right after it: matching is anchored at
      the start of the subject. */
  lemma MatchPlain(re: seq<SChar>, s: seq<SChar>, fuel: nat)
    requires Fits(re) && forall i :: 0 <= i < |re| ==> Plain(re[i])
    requires fuel > |re|
    ensures Execute(Compile(re).code, s, fuel)
      == Returned(if |re| <= |s| && s[..|re|] == re then |re| else -1)
  {
    CompilePlain(re);
    var p := Compile(re);
    assert p.code[0..2 * |re|] == Literals(re) by {
      assert p.code[0..2 * |re|] == p.code[..p.len][..2 * |re|];
    }
    assert p.code[2 * |re|] == p.code[..p.len][2 * |re|];
    LiteralSteps(p.code, s, re, 0, 0, [], InitialStackSize, fuel);
    if |re| <= |s| {
      assert s[0..|re|] == s[..|re|];
    }
  }

  /** A pattern the compiler rejects becomes a lone HALT, which matches
      nothing. */
  lemma RejectedMatchesNothing(re: seq<SChar>, s: seq<SChar>, fuel: nat)
    requires Fits(re) && fuel > 0
    requires var r := Parse(re, Expr, PState(0, [])); !(r.ok && r.st.idx == |re|)
    ensures Execute(Compile(re).code, s, fuel) == Returned(-1)
  {
    var p := Compile(re);
    assert p.code[0] == Halt.Code();
    HaltFirst(p.code, s, fuel);
  }

  /** A program that starts with HALT returns -1 at once. */
  lemma HaltFirst(code: seq<int>, s: seq<SChar>, fuel: nat)
    requires 0 < |code| && code[0] == Halt.Code() && fuel > 0
    ensures Execute(code, s, fuel) == Returned(-1)
  {
    CodeRoundTrip(Halt, Halt);
    var q := Threads([Thread(0, 0, [])], InitialStackSize);
    assert q.list[..0] == [];
    assert Execute(code, s, fuel) == Exec(code, s, Thread(0, 0, []), Threads([], InitialStackSize), fuel);
    assert Step(code, s, Thread(0, 0, []), Threads([], InitialStackSize)) == Stop(Returned(-1));
  }

  /** `x?` for a plain `x` compiles to SPLIT(3, 5), MATCH x, ACCEPT. */
  lemma CompileOptional(x: SChar)
    requires Plain(x)
    ensures Compile([x, Question]).code[..6] == [Split.Code(), 3, 5, Match.Code(), x, Accept.Code()]
  {
    var re := [x, Question];
    var st0 := PState(0, []);
    var st1 := PState(1, [Match.Code(), x]);
    var st2 := PState(2, Optional([Match.Code(), x], 0));
    assert Optional([Match.Code(), x], 0) == [Split.Code(), 3, 5, Match.Code(), x];
    assert Parse(re, Factor, st0) == PResult(true, st1);
    assert TermLoop(re, st2, |st1.code|) == PResult(true, st2);
    assert TermLoop(re, st1, 0) == PResult(true, st2);
    TermFallThrough(re, st0);
    assert Parse(re, Term, st0) == PResult(true, st2);
    assert Terms(re, st2) == PResult(true, st2);
    ExprFallThrough(re, st0);
    assert Parse(re, Expr, st0) == PResult(true, st2);
  }

  /** The program for `x?` starts with a SPLIT that forks the thread at the
      ACCEPT and goes on at the MATCH of `x`. */
  lemma OptionalFork(code: seq<int>, s: seq<SChar>, x: SChar, fuel: nat)
    requires |code| >= 6 && code[..6] == [Split.Code(), 3, 5, Match.Code(), x, Accept.Code()]
    requires fuel > 0
    ensures Execute(code, s, fuel)
      == Exec(code, s, Thread(3, 0, []), Threads([Thread(5, 0, [])], InitialStackSize), fuel - 1)
  {
    CodeRoundTrip(Split, Split);
    var q0 := Threads([], InitialStackSize);
    assert Threads([Thread(0, 0, [])], InitialStackSize).list[..0] == [];
    assert Execute(code, s, fuel) == Exec(code, s, Thread(0, 0, []), q0, fuel);
    assert code[0] == Split.Code() && code[1] == 3 && code[2] == 5;
    assert Step(code, s, Thread(0, 0, []), q0)
      == Continue(Thread(3, 0, []), Threads([Thread(5, 0, [])], InitialStackSize));
    ExecStep(code, s, Thread(0, 0, []), q0, fuel);
  }

  /** `x?` for a plain `x` is greedy: it takes `x` when the subject starts
      with it, and otherwise falls back on the forked thread, which matches
      the empty prefix. */
  lemma MatchOptional(x: SChar, s: seq<SChar>, fuel: nat)
    requires Plain(x) && fuel > 3
    ensures Execute(Compile([x, Question]).code, s, fuel)
      == Returned(if 0 < |s| && s[0] == x then 1 else 0)
  {
    CompileOptional(x);
    var code := Compile([x, Question]).code;
    assert code[3] == Match.Code() && code[4] == x && code[5] == Accept.Code() by {
      assert code[..6][3] == code[3] && code[..6][4] == code[4] && code[..6][5] == code[5];
    }
    var q1 := Threads([Thread(5, 0, [])], InitialStackSize);
    OptionalFork(code, s, x, fuel);
    MatchStep(code, s, x, 3, 0, [], q1);
    ExecStep(code, s, Thread(3, 0, []), q1, fuel - 1);
    if 0 < |s| && s[0] == x {
      AcceptExec(code, s, 5, 1, [], q1, fuel - 2);
    } else {
      var q0 := Threads([], InitialStackSize);
      assert q1.list[..0] == [];
      assert Run(code, s, q1, fuel - 2) == Exec(code, s, Thread(5, 0, []), q0, fuel - 2);
      AcceptExec(code, s, 5, 0, [], q0, fuel - 2);
    }
  }
}
