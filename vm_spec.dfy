/** The backtracking matcher of `tregex_execute` (tregex.c:306-436) as
    functions on values. A thread is a program counter, a subject index and
    its logical stack of indices (bottom first); pending threads form a LIFO
    array of bounded capacity. `Step` is one dispatch of the VM loop, `Exec`
    runs one thread and `Run` pops the next pending one. Both take a step
    budget (`fuel`), since termination of the source loop is not proved. */
module MachineSpec {
  import opened Layout

  /** `tregex_match_thread`, with the stack it owns as its contents. */
  datatype Thread = Thread(pc: int, idx: nat, stack: seq<int>)

  /** The pending threads (last = top of the array) and the array's capacity. */
  datatype Threads = Threads(list: seq<Thread>, capacity: nat)

  /** What a call of the VM comes to: a returned value, a process exit with a
      status, undefined behaviour (a read outside the bytecode buffer), or a
      step budget too small to decide. */
  datatype Outcome = Returned(v: int) | Exited(status: int) | Undefined | OutOfFuel

  /** The result of one dispatch: go on with a thread, drop the thread and
      pop the next pending one (`goto fail_loop`), or stop with an outcome. */
  datatype Next = Continue(t: Thread, q: Threads) | Fail | Stop(o: Outcome)

  /** `tregex_internal_stack_top`: the root node reads -1. */
  function StackTop(stack: seq<int>): (v: int)
    ensures stack == [] ==> v == -1
    ensures stack != [] ==> v == stack[|stack| - 1]
  {
    if stack == [] then -1 else stack[|stack| - 1]
  }

  /** The capacity `tregex_extend_stack` asks for (tregex.c:294). */
  function Grown(capacity: nat): nat
  {
    capacity + capacity / 2
  }

  /** The array keeps a spare slot: it grows once it holds `capacity - 1`
      threads. */
  predicate Roomy(q: Threads)
  {
    InitialStackSize <= q.capacity <= MaxStackSize && |q.list| < q.capacity
  }

  /** Pushing a thread (tregex.c:342-344, 419-421): the array grows first
      when it is full up to the spare slot, and the VM exits with -1 when the
      grown capacity would exceed `MAX_STACK_SIZE`. */
  function Fork(q: Threads, t: Thread): (r: Option<Threads>)
    ensures r.None? <==> |q.list| >= q.capacity - 1 && Grown(q.capacity) > MaxStackSize
    ensures r.Some? ==> r.value.list == q.list + [t]
    ensures r.Some? ==> r.value.capacity == q.capacity || r.value.capacity == Grown(q.capacity)
  {
    if |q.list| >= q.capacity - 1 then
      if Grown(q.capacity) > MaxStackSize then None
      else Some(Threads(q.list + [t], Grown(q.capacity)))
    else Some(Threads(q.list + [t], q.capacity))
  }

  /** The number of characters from `from` on that lie in `[lo, hi]`: the
      scan of LOOP and LOOP_SET (tregex.c:350-351, 364-367). */
  function Span(s: seq<SChar>, from: nat, lo: int, hi: int): (n: nat)
    ensures n > 0 ==> from + n <= |s|
    ensures forall k :: from <= k < from + n ==> lo <= s[k] <= hi
    ensures from + n >= |s| || !(lo <= s[from + n] <= hi)
    decreases |s| - from
  {
    if from < |s| && lo <= s[from] <= hi then 1 + Span(s, from + 1, lo, hi) else 0
  }

  /** The opcodes that test the subject and either advance the index or drop
      the thread. */
  predicate IsTest(op: Opcode)
  {
    op.Loop? || op.LoopSet? || op.Match? || op.MatchSet? || op.Any? || op.Begin? || op.End?
  }

  /** The new subject index after a test instruction at `pc`, or `None` where
      the thread is dropped (tregex.c:348-415). Operands are read through a
      `(char)` cast. */
  function Consume(code: seq<int>, s: seq<SChar>, op: Opcode, pc: int, idx: nat): (r: Option<nat>)
    requires IsTest(op) && 0 <= pc && pc + op.Length() <= |code|
    ensures r.Some? ==> idx <= r.value <= |s|
    ensures r.Some? && !op.Loop? && !op.LoopSet? ==> r.value <= idx + 1
  {
    match op
    case Loop =>
      var c := CharCast(code[pc + 1]);
      var n := Span(s, idx, c, c);
      if n == 0 then None else Some(idx + n)
    case LoopSet =>
      var n := Span(s, idx, CharCast(code[pc + 1]), CharCast(code[pc + 2]));
      if n == 0 then None else Some(idx + n)
    case Match =>
      if idx < |s| && s[idx] == CharCast(code[pc + 1]) then Some(idx + 1) else None
    case MatchSet =>
      if idx < |s| && CharCast(code[pc + 1]) <= s[idx] <= CharCast(code[pc + 2]) then Some(idx + 1) else None
    case Any =>
      if idx < |s| then Some(idx + 1) else None
    case Begin =>
      if idx == 0 then Some(idx) else None
    case End =>
      if idx == |s| then Some(idx) else None
  }

  /** Fork `pushed`, then go on with `next`. */
  function Branch(q: Threads, pushed: Thread, next: Thread): (n: Next)
    ensures !n.Fail? && (n.Stop? <==> Fork(q, pushed).None?)
    ensures n.Stop? ==> n.o == Exited(-1)
    ensures n.Continue? ==> n.t == next && n.q.list == q.list + [pushed]
  {
    match Fork(q, pushed)
    case None => Stop(Exited(-1))
    case Some(q') => Continue(next, q')
  }

  /** REPEAT (tregex.c:336-347): leave the loop when the stack's top equals
      the index (the last iteration consumed nothing), otherwise fork the exit
      and jump back by the operand. */
  function RepeatStep(code: seq<int>, t: Thread, q: Threads): (n: Next)
    requires 0 <= t.pc && t.pc + Repeat.Length() <= |code|
    ensures !n.Fail? && (n.Stop? ==> n.o == Exited(-1))
    ensures n.Continue? ==> n.t.idx == t.idx
    ensures StackTop(t.stack) == t.idx ==>
      n == Continue(Thread(t.pc + Repeat.Length(), t.idx, t.stack[..|t.stack| - 1]), q)
    ensures StackTop(t.stack) != t.idx && n.Continue? ==>
      n.q.list == q.list + [Thread(t.pc + Repeat.Length(), t.idx, t.stack)]
  {
    if StackTop(t.stack) == t.idx then
      Continue(Thread(t.pc + 2, t.idx, t.stack[..|t.stack| - 1]), q)
    else
      Branch(q, Thread(t.pc + 2, t.idx, t.stack), Thread(t.pc + code[t.pc + 1], t.idx, t.stack))
  }

  /** One instruction that lies wholly inside the buffer. */
  function Perform(code: seq<int>, s: seq<SChar>, op: Opcode, t: Thread, q: Threads): (n: Next)
    requires 0 <= t.pc && t.pc + op.Length() <= |code|
    ensures n.Stop? ==> n.o == Returned(-1) || n.o == Returned(t.idx) || n.o == Exited(-1)
    ensures n.Fail? ==> IsTest(op)
    ensures n.Continue? ==> t.idx <= n.t.idx && (n.t.idx == t.idx || n.t.idx <= |s|)
    ensures n.Continue? ==> n.q == q || (|n.q.list| == |q.list| + 1 && n.q.list[..|q.list|] == q.list)
  {
    match op
    case Halt => Stop(Returned(-1))
    case Accept => Stop(Returned(t.idx))
    case Push => Continue(Thread(t.pc + 1, t.idx, t.stack + [t.idx]), q)
    case Repeat => RepeatStep(code, t, q)
    case Split =>
      Branch(q, Thread(t.pc + code[t.pc + 2], t.idx, t.stack), Thread(t.pc + code[t.pc + 1], t.idx, t.stack))
    case Jmp => Continue(Thread(t.pc + code[t.pc + 1], t.idx, t.stack), q)
    case _ =>
      match Consume(code, s, op, t.pc, t.idx)
      case None => Fail
      case Some(idx) => Continue(Thread(t.pc + op.Length(), idx, t.stack), q)
  }

  /** One dispatch (tregex.c:327): a slot value outside the enumeration
      matches no case of the switch, so the thread is dropped; an instruction
      not wholly inside the buffer is undefined. */
  function Step(code: seq<int>, s: seq<SChar>, t: Thread, q: Threads): (n: Next)
    ensures !(0 <= t.pc < |code|) ==> n == Stop(Undefined)
    ensures n.Stop? ==> n.o == Undefined || n.o == Returned(-1) || n.o == Returned(t.idx) || n.o == Exited(-1)
    ensures n.Continue? ==> t.idx <= n.t.idx && (n.t.idx == t.idx || n.t.idx <= |s|)
    ensures n.Continue? ==> n.q == q || (|n.q.list| == |q.list| + 1 && n.q.list[..|q.list|] == q.list)
  {
    if !(0 <= t.pc < |code|) then Stop(Undefined)
    else
      match Decode(code[t.pc])
      case None => Fail
      case Some(op) =>
        if t.pc + op.Length() > |code| then Stop(Undefined) else Perform(code, s, op, t, q)
  }

  /** The `fail_loop` (tregex.c:318): pop the top pending thread and run it;
      with no thread left the VM returns -1. */
  function Run(code: seq<int>, s: seq<SChar>, q: Threads, fuel: nat): (o: Outcome)
    ensures q.list == [] ==> o == Returned(-1)
    ensures o.Exited? ==> o.status == -1
    ensures o.Returned? ==> o.v >= -1
    decreases fuel, 1
  {
    if q.list == [] then Returned(-1)
    else Exec(code, s, q.list[|q.list| - 1], Threads(q.list[..|q.list| - 1], q.capacity), fuel)
  }

  /** Run thread `t` with pending threads `q`, one dispatch per unit of fuel. */
  function Exec(code: seq<int>, s: seq<SChar>, t: Thread, q: Threads, fuel: nat): (o: Outcome)
    ensures o.Exited? ==> o.status == -1
    ensures o.Returned? ==> o.v >= -1
    decreases fuel, 0
  {
    if fuel == 0 then OutOfFuel
    else
      match Step(code, s, t, q)
      case Continue(t', q') => Exec(code, s, t', q', fuel - 1)
      case Fail => Run(code, s, q, fuel - 1)
      case Stop(o) => o
  }

  /** `tregex_execute`: one thread at pc 0, index 0, with an empty stack, in
      an array of the initial capacity. */
  function Execute(code: seq<int>, s: seq<SChar>, fuel: nat): (o: Outcome)
    ensures o.Exited? ==> o.status == -1
    ensures o.Returned? ==> o.v >= -1
    ensures fuel == 0 ==> o == OutOfFuel
  {
    Run(code, s, Threads([Thread(0, 0, [])], InitialStackSize), fuel)
  }

  /** One dispatch of `Exec`, by the kind of its step. */
  lemma ExecStep(code: seq<int>, s: seq<SChar>, t: Thread, q: Threads, fuel: nat)
    requires fuel > 0
    ensures var n := Step(code, s, t, q);
      && (n.Continue? ==> Exec(code, s, t, q, fuel) == Exec(code, s, n.t, n.q, fuel - 1))
      && (n.Fail? ==> Exec(code, s, t, q, fuel) == Run(code, s, q, fuel - 1))
      && (n.Stop? ==> Exec(code, s, t, q, fuel) == n.o)
  {
  }

  // Properties.

  /** Every thread's index lies inside the subject. */
  predicate InSubject(s: seq<SChar>, q: Threads)
  {
    forall i :: 0 <= i < |q.list| ==> q.list[i].idx <= |s|
  }

  /** Forking keeps the spare slot, and the capacity stays within
      `MAX_STACK_SIZE`: the pending threads always fit the array. */
  lemma ForkKeepsRoom(q: Threads, t: Thread)
    requires Roomy(q)
    ensures Fork(q, t).Some? ==> Roomy(Fork(q, t).value)
  {
  }

  /** A dispatch keeps every index inside the subject and the array roomy,
      and a returned value is -1 or an index of the subject. */
  lemma StepKeeps(code: seq<int>, s: seq<SChar>, t: Thread, q: Threads)
    requires t.idx <= |s| && InSubject(s, q) && Roomy(q)
    ensures Step(code, s, t, q).Continue? ==>
      var n := Step(code, s, t, q);
      n.t.idx <= |s| && InSubject(s, n.q) && Roomy(n.q)
    ensures Step(code, s, t, q).Stop? && Step(code, s, t, q).o.Returned? ==>
      var v := Step(code, s, t, q).o.v;
      v == -1 || 0 <= v <= |s|
  {
    if 0 <= t.pc < |code| && Decode(code[t.pc]).Some? {
      var op := Decode(code[t.pc]).value;
      if t.pc + op.Length() <= |code| {
        if op.Split? {
          ForkKeepsRoom(q, Thread(t.pc + code[t.pc + 2], t.idx, t.stack));
        } else if op.Repeat? {
          ForkKeepsRoom(q, Thread(t.pc + 2, t.idx, t.stack));
        }
      }
    }
  }

  /** The value the VM returns is -1 (no match) or the end index of the
      match, which lies inside the subject. */
  lemma {:induction false} RunResult(code: seq<int>, s: seq<SChar>, q: Threads, fuel: nat)
    requires InSubject(s, q) && Roomy(q)
    ensures var o := Run(code, s, q, fuel);
      o.Returned? ==> o.v == -1 || 0 <= o.v <= |s|
    decreases fuel, 1
  {
    if q.list != [] {
      ExecResult(code, s, q.list[|q.list| - 1], Threads(q.list[..|q.list| - 1], q.capacity), fuel);
    }
  }

  lemma {:induction false} ExecResult(code: seq<int>, s: seq<SChar>, t: Thread, q: Threads, fuel: nat)
    requires t.idx <= |s| && InSubject(s, q) && Roomy(q)
    ensures var o := Exec(code, s, t, q, fuel);
      o.Returned? ==> o.v == -1 || 0 <= o.v <= |s|
    decreases fuel, 0
  {
    if fuel > 0 {
      StepKeeps(code, s, t, q);
      match Step(code, s, t, q)
      case Continue(t', q') => ExecResult(code, s, t', q', fuel - 1);
      case Fail => RunResult(code, s, q, fuel - 1);
      case Stop(o) =>
    }
  }

  /** `Execute` returns -1 or an index of the subject. */
  lemma ExecuteResult(code: seq<int>, s: seq<SChar>, fuel: nat)
    ensures var o := Execute(code, s, fuel);
      o.Returned? ==> o.v == -1 || 0 <= o.v <= |s|
  {
    RunResult(code, s, Threads([Thread(0, 0, [])], InitialStackSize), fuel);
  }

  /** More fuel never changes an outcome that was reached: the budget only
      cuts runs short. */
  lemma {:induction false} RunFuel(code: seq<int>, s: seq<SChar>, q: Threads, fuel: nat, more: nat)
    requires fuel <= more && Run(code, s, q, fuel) != OutOfFuel
    ensures Run(code, s, q, more) == Run(code, s, q, fuel)
    decreases fuel, 1
  {
    if q.list != [] {
      ExecFuel(code, s, q.list[|q.list| - 1], Threads(q.list[..|q.list| - 1], q.capacity), fuel, more);
    }
  }

  lemma {:induction false} ExecFuel(code: seq<int>, s: seq<SChar>, t: Thread, q: Threads, fuel: nat, more: nat)
    requires fuel <= more && Exec(code, s, t, q, fuel) != OutOfFuel
    ensures Exec(code, s, t, q, more) == Exec(code, s, t, q, fuel)
    decreases fuel, 0
  {
    match Step(code, s, t, q)
    case Continue(t', q') => ExecFuel(code, s, t', q', fuel - 1, more - 1);
    case Fail => RunFuel(code, s, q, fuel - 1, more - 1);
    case Stop(o) =>
  }
}
