/** The matcher updated in place (tregex.c:293-465): the thread array of
    `tregex_match_ctx`, grown by `tregex_extend_stack`, and the per-thread
    stacks in a `StackSpace`. Every method is proved against `MachineSpec`;
    the only extra outcome is `Exited(2)`, where the source's pool runs out
    of blocks. */
module Machine {
  import opened Layout
  import opened MachineSpec
  import opened BlockPool
  import opened StackHeap
  import CompilerSpec
  import Compiler

  /** `tregex_match_thread` as stored in the array: the stack is a handle. */
  datatype Slot = Slot(pc: int, idx: nat, stack: int)

  /** The null stack pointer of a zeroed slot. */
  const NullStack: int := -1

  /** A slot as `calloc` and `memset` leave it. */
  const Blank: Slot := Slot(0, 0, NullStack)

  /** The thread a slot stands for, given the contents of every live stack. */
  function Abstract(sl: Slot, stacks: map<int, seq<int>>): Thread
  {
    Thread(sl.pc, sl.idx, if sl.stack in stacks then stacks[sl.stack] else [])
  }

  /** The pending threads a prefix of the array stands for. */
  function View(ts: seq<Slot>, stacks: map<int, seq<int>>): (v: seq<Thread>)
    ensures |v| == |ts|
  {
    seq(|ts|, i requires 0 <= i < |ts| => Abstract(ts[i], stacks))
  }

  /** Every block of the pool behind `mem` is in use: the one state in
      which `tregex_pool_alloc` exits with 2 (tregex.c:31-39). */
  ghost predicate Exhausted(mem: StackSpace)
    reads mem, mem.pool, mem.pool.bitmap
  {
    && mem.pool.Valid() && |mem.pool.Free| == BlockCount
    && forall b :: 0 <= b < BlockCount ==> !mem.pool.Free[b]
  }

  /** Every pending slot owns a live stack of its own. */
  predicate Tracked(ts: seq<Slot>, stacks: map<int, seq<int>>)
  {
    && (forall i :: 0 <= i < |ts| ==> ts[i].stack in stacks)
    && (forall i, j :: 0 <= i < j < |ts| ==> ts[i].stack != ts[j].stack)
  }

  /** No pending slot holds handle `h`. */
  predicate Apart(ts: seq<Slot>, h: int)
  {
    forall i :: 0 <= i < |ts| ==> ts[i].stack != h
  }

  /** The view only depends on the stacks the slots hold. */
  lemma ViewFrame(ts: seq<Slot>, stacks: map<int, seq<int>>, stacks': map<int, seq<int>>)
    requires forall i :: 0 <= i < |ts| ==> ts[i].stack in stacks
    requires forall i :: 0 <= i < |ts| ==> ts[i].stack in stacks' && stacks'[ts[i].stack] == stacks[ts[i].stack]
    ensures View(ts, stacks') == View(ts, stacks)
  {
  }

  /** Pushing a slot pushes its thread. */
  lemma ViewPush(ts: seq<Slot>, x: Slot, stacks: map<int, seq<int>>)
    ensures View(ts + [x], stacks) == View(ts, stacks) + [Abstract(x, stacks)]
  {
    assert forall i :: 0 <= i < |ts| ==> (ts + [x])[i] == ts[i];
  }

  /** Popping a slot pops its thread. */
  lemma ViewPop(ts: seq<Slot>, stacks: map<int, seq<int>>)
    requires ts != []
    ensures View(ts[..|ts| - 1], stacks) == View(ts, stacks)[..|ts| - 1]
  {
  }

  /** A slot holding a fresh copy `c` of the running stack `h` joins the
      pending slots: ownership is kept and the view gains the forked thread. */
  lemma CopyForked(ts: seq<Slot>, stacks: map<int, seq<int>>, stacks': map<int, seq<int>>,
                   h: int, c: int, pc: int, idx: nat)
    requires Tracked(ts, stacks) && h in stacks && Apart(ts, h)
    requires c !in stacks && stacks' == stacks[c := stacks[h]]
    ensures var ts' := ts + [Slot(pc, idx, c)];
      && Tracked(ts', stacks') && h in stacks' && stacks'[h] == stacks[h] && Apart(ts', h)
      && View(ts', stacks') == View(ts, stacks) + [Thread(pc, idx, stacks[h])]
  {
    var ts' := ts + [Slot(pc, idx, c)];
    ViewFrame(ts, stacks, stacks');
    ViewPush(ts, Slot(pc, idx, c), stacks');
    assert forall i :: 0 <= i < |ts| ==> ts'[i] == ts[i];
  }

  // Growth of the thread array.

  /** `tregex_extend_stack` as written (tregex.c:293-304): it takes the old
      capacity, not the number of pending threads, as the slots in use, so
      the top pointer moves to the old capacity and the array is zeroed from
      there. */
  function ExtendAsWritten(slots: seq<Slot>, top: nat, newSize: nat): (r: (seq<Slot>, nat))
    requires top <= |slots| <= newSize
    ensures |r.0| == newSize && r.1 == |slots|
  {
    (slots + seq(newSize - |slots|, _ => Blank), |slots|)
  }

  /** The VM grows the array when the top is at the last slot (tregex.c:342,
      419). As written, the pending threads then gain that last slot, which
      no thread was pushed to: on the first growth it is the zeroed slot
      `{0, 0, NULL}`, a thread that restarts the program with a null stack. */
  lemma ExtendAsWrittenAddsPhantom(slots: seq<Slot>, top: nat)
    requires |slots| == InitialStackSize && top == |slots| - 1 && slots[top] == Blank
    ensures var (s', t') := ExtendAsWritten(slots, top, Grown(|slots|));
      t' == top + 1 && s'[..t'] == slots[..top] + [Blank]
  {
    var (s', t') := ExtendAsWritten(slots, top, Grown(|slots|));
    assert s'[..t'] == slots;
    assert slots == slots[..top] + [slots[top]];
  }

  /** The growth evidently intended: the slots in use are the pending ones,
      which stay as they were; the rest of the grown array is zeroed. */
  function Extended(slots: seq<Slot>, top: nat, newSize: nat): (r: seq<Slot>)
    requires top <= |slots| <= newSize
    ensures |r| == newSize && r[..top] == slots[..top]
    ensures forall k :: top <= k < newSize ==> r[k] == Blank
  {
    slots[..top] + seq(newSize - top, _ => Blank)
  }

  /** `tregex_match_ctx` of one call: the subject, the bytecode and the
      thread array with its top and capacity. */
  class MatchContext {
    const str: seq<SChar>
    const code: seq<int>
    var threads: array<Slot>
    var top: nat
    var size: nat

    ghost predicate Valid()
      reads this
    {
      threads.Length == size && InitialStackSize <= size <= MaxStackSize && top < size
    }

    /** `tregex_match` sets up the context with a zeroed array of the
        initial capacity (tregex.c:448-456). */
    constructor (subject: seq<SChar>, program: seq<int>)
      ensures Valid() && str == subject && code == program
      ensures top == 0 && size == InitialStackSize && fresh(threads)
    {
      str := subject;
      code := program;
      threads := new Slot[InitialStackSize](_ => Blank);
      top := 0;
      size := InitialStackSize;
    }

    /** The pending threads and the capacity, as `MachineSpec` sees them. */
    ghost function Pending(stacks: map<int, seq<int>>): Threads
      requires Valid()
      reads this, threads
    {
      Threads(View(threads[..top], stacks), size)
    }

    /** The state a thread runs in: the context and the stacks are sound, the
        pending slots own their stacks, and the running thread's stack `h` is
        live and owned by no pending slot. */
    ghost predicate Ready(mem: StackSpace, h: int)
      reads this, threads, mem, mem.pool, mem.pool.bitmap, mem.pool.raw
    {
      && Valid() && mem.Valid()
      && Tracked(threads[..top], mem.Stacks)
      && h in mem.Stacks && Apart(threads[..top], h)
    }

    /** `tregex_extend_stack` (tregex.c:293-304), with the slots in use taken
        as the pending ones: 0 when the grown capacity would exceed
        `MAX_STACK_SIZE`, the new capacity otherwise. */
    method ExtendStack() returns (newSize: int)
      requires Valid()
      modifies this
      ensures Valid() && top == old(top)
      ensures newSize == 0 <==> Grown(old(size)) > MaxStackSize
      ensures newSize == 0 ==> threads == old(threads) && size == old(size)
      ensures newSize != 0 ==>
        && newSize == size == Grown(old(size)) && fresh(threads)
        && threads[..] == Extended(old(threads[..]), top, size)
    {
      var used := top;
      var n := size + size / 2;
      if n > MaxStackSize {
        return 0;
      }
      var a := new Slot[n](_ => Blank);
      var i := 0;
      while i < used
        modifies a
        invariant 0 <= i <= used
        invariant forall k :: 0 <= k < i ==> a[k] == threads[k]
        invariant forall k :: i <= k < n ==> a[k] == Blank
      {
        a[i] := threads[i];
        i := i + 1;
      }
      assert a[..] == Extended(threads[..], top, n);
      threads := a;
      size := n;
      newSize := n;
    }

    /** The check before a fork (tregex.c:342-343, 418-419): grow the array
        when the top is at its last slot; false where it cannot grow. */
    method Reserve() returns (ok: bool)
      requires Valid()
      modifies this
      ensures Valid() && top == old(top) && threads[..top] == old(threads[..top])
      ensures threads == old(threads) || fresh(threads)
      ensures ok <==> !(old(top) >= old(size) - 1 && Grown(old(size)) > MaxStackSize)
      ensures ok ==> top < size - 1
      ensures ok ==> size == if old(top) >= old(size) - 1 then Grown(old(size)) else old(size)
    {
      ok := true;
      if top >= size - 1 {
        var n := ExtendStack();
        ok := n != 0;
      }
    }

    /** `*ctx->top++ = ...`: store a slot at the top, which has room. */
    method PushSlot(sl: Slot)
      requires Valid() && top < size - 1
      modifies this, threads
      ensures Valid() && threads == old(threads) && size == old(size) && top == old(top) + 1
      ensures threads[..top] == old(threads[..top]) + [sl]
    {
      threads[top] := sl;
      top := top + 1;
    }

    /** Fork a thread at `pc`, `idx` with a copy of stack `h` (tregex.c:342-344,
        419-421): grow the array if needed (exit -1 when it cannot), copy the
        stack (exit 2 when the pool runs out), push the slot. */
    method Spawn(mem: StackSpace, pc: int, idx: nat, h: int) returns (exit: Option<Outcome>)
      requires Ready(mem, h)
      modifies this, threads, mem, mem.pool, mem.pool.bitmap, mem.pool.raw
      ensures threads == old(threads) || fresh(threads)
      ensures exit.None? ==>
        && Ready(mem, h) && mem.Stacks[h] == old(mem.Stacks[h])
        && Fork(old(Pending(mem.Stacks)), Thread(pc, idx, old(mem.Stacks[h]))) == Some(Pending(mem.Stacks))
      ensures exit == Some(Exited(2)) ==> Exhausted(mem)
      ensures exit.Some? ==>
        || exit == Some(Exited(2))
        || (exit == Some(Exited(-1)) && Fork(old(Pending(mem.Stacks)), Thread(pc, idx, old(mem.Stacks[h]))).None?)
    {
      ghost var stacks := mem.Stacks;
      ghost var ts := threads[..top];
      var room := Reserve();
      if !room {
        return Some(Exited(-1));
      }
      var ok, c := mem.Copy(h);
      if !ok {
        return Some(Exited(2));
      }
      CopyForked(ts, stacks, mem.Stacks, h, c, pc, idx);
      PushSlot(Slot(pc, idx, c));
      exit := None;
    }

    /** The scan of LOOP and LOOP_SET (tregex.c:350-351, 364-367): the end of
        the run of characters in `[lo, hi]` from `from`. */
    method Scan(from: nat, lo: int, hi: int) returns (end: nat)
      ensures end == from + Span(str, from, lo, hi)
    {
      end := from;
      while end < |str| && lo <= str[end] <= hi
        invariant from <= end
        invariant Span(str, from, lo, hi) == (end - from) + Span(str, end, lo, hi)
        decreases |str| - end
      {
        end := end + 1;
      }
    }

    /** The test instructions (tregex.c:348-415): the new index, or `None`
        where the thread fails. */
    method Test(op: Opcode, pc: int, idx: nat) returns (r: Option<nat>)
      requires IsTest(op) && 0 <= pc && pc + op.Length() <= |code|
      ensures r == Consume(code, str, op, pc, idx)
    {
      var end := idx;
      match op {
        case Loop =>
          var c := CharCast(code[pc + 1]);
          end := Scan(idx, c, c);
          if end == idx {
            return None;
          }
        case LoopSet =>
          end := Scan(idx, CharCast(code[pc + 1]), CharCast(code[pc + 2]));
          if end == idx {
            return None;
          }
        case Match =>
          if !(idx < |str| && str[idx] == CharCast(code[pc + 1])) {
            return None;
          }
          end := idx + 1;
        case MatchSet =>
          if !(idx < |str| && CharCast(code[pc + 1]) <= str[idx] <= CharCast(code[pc + 2])) {
            return None;
          }
          end := idx + 1;
        case Any =>
          if idx >= |str| {
            return None;
          }
          end := idx + 1;
        case Begin =>
          if idx != 0 {
            return None;
          }
        case End =>
          if idx != |str| {
            return None;
          }
      }
      r := Some(end);
    }

    /** PUSH (tregex.c:331-335). */
    method DoPush(mem: StackSpace, pc: int, idx: nat, h: int) returns (e: Effect)
      requires Ready(mem, h)
      modifies mem, mem.pool, mem.pool.bitmap, mem.pool.raw
      ensures e == Done(Exited(2)) ==> Exhausted(mem)
      ensures e == Done(Exited(2)) || (
        && e == Go(pc + 1, idx) && Ready(mem, h)
        && mem.Stacks[h] == old(mem.Stacks[h]) + [idx]
        && Pending(mem.Stacks) == old(Pending(mem.Stacks)))
    {
      ghost var stacks := mem.Stacks;
      var ok := mem.Push(h, idx);
      if !ok {
        return Done(Exited(2));
      }
      ViewFrame(threads[..top], stacks, mem.Stacks);
      e := Go(pc + 1, idx);
    }

    /** REPEAT (tregex.c:336-347). */
    method DoRepeat(mem: StackSpace, pc: int, idx: nat, h: int) returns (e: Effect)
      requires Ready(mem, h) && 0 <= pc && pc + Repeat.Length() <= |code|
      modifies this, threads, mem, mem.pool, mem.pool.bitmap, mem.pool.raw
      ensures threads == old(threads) || fresh(threads)
      ensures var n := RepeatStep(code, Thread(pc, idx, old(mem.Stacks[h])), old(Pending(mem.Stacks)));
        && (e.Go? ==> Ready(mem, h) && n == Continue(Thread(e.pc, e.idx, mem.Stacks[h]), Pending(mem.Stacks)))
        && !e.Dropped?
        && (e.Done? ==> e.o == Exited(2) || n == Stop(e.o))
      ensures e == Done(Exited(2)) ==> Exhausted(mem)
    {
      ghost var stacks := mem.Stacks;
      var t := mem.Top(h);
      if t == idx {
        var _ := mem.Pop(h);
        ViewFrame(threads[..top], stacks, mem.Stacks);
        return Go(pc + 2, idx);
      }
      var exit := Spawn(mem, pc + 2, idx, h);
      if exit.Some? {
        return Done(exit.value);
      }
      e := Go(pc + code[pc + 1], idx);
    }

    /** SPLIT (tregex.c:416-423). */
    method DoSplit(mem: StackSpace, pc: int, idx: nat, h: int) returns (e: Effect)
      requires Ready(mem, h) && 0 <= pc && pc + Split.Length() <= |code|
      modifies this, threads, mem, mem.pool, mem.pool.bitmap, mem.pool.raw
      ensures threads == old(threads) || fresh(threads)
      ensures var n := Perform(code, str, Split, Thread(pc, idx, old(mem.Stacks[h])), old(Pending(mem.Stacks)));
        && (e.Go? ==> Ready(mem, h) && n == Continue(Thread(e.pc, e.idx, mem.Stacks[h]), Pending(mem.Stacks)))
        && !e.Dropped?
        && (e.Done? ==> e.o == Exited(2) || n == Stop(e.o))
      ensures e == Done(Exited(2)) ==> Exhausted(mem)
    {
      var exit := Spawn(mem, pc + code[pc + 2], idx, h);
      if exit.Some? {
        return Done(exit.value);
      }
      e := Go(pc + code[pc + 1], idx);
    }

    /** A test instruction, releasing the thread's stack when it fails. */
    method DoTest(mem: StackSpace, op: Opcode, pc: int, idx: nat, h: int) returns (e: Effect)
      requires Ready(mem, h) && IsTest(op) && 0 <= pc && pc + op.Length() <= |code|
      modifies mem, mem.pool, mem.pool.bitmap, mem.pool.raw
      ensures var r := Consume(code, str, op, pc, idx);
        && (r.None? ==> e == Dropped && Valid() && mem.Valid() && Tracked(threads[..top], mem.Stacks))
        && (r.Some? ==> e == Go(pc + op.Length(), r.value))
        && Pending(mem.Stacks) == old(Pending(mem.Stacks))
        && (e.Go? ==> Ready(mem, h) && mem.Stacks[h] == old(mem.Stacks[h]))
      ensures e == Dropped ==> mem.Stacks == old(mem.Stacks) - {h}
    {
      var r := Test(op, pc, idx);
      if r.None? {
        ghost var stacks := mem.Stacks;
        mem.Destroy(h);
        ViewFrame(threads[..top], stacks, mem.Stacks);
        return Dropped;
      }
      e := Go(pc + op.Length(), r.value);
    }

    /** One dispatch of the VM loop (tregex.c:327-435) for the thread at `pc`,
        `idx` with stack `h`. */
    method Advance(mem: StackSpace, pc: int, idx: nat, h: int) returns (e: Effect)
      requires Ready(mem, h)
      modifies this, threads, mem, mem.pool, mem.pool.bitmap, mem.pool.raw
      ensures threads == old(threads) || fresh(threads)
      ensures var n := Step(code, str, Thread(pc, idx, old(mem.Stacks[h])), old(Pending(mem.Stacks)));
        && (e.Go? ==> Ready(mem, h) && n == Continue(Thread(e.pc, e.idx, mem.Stacks[h]), Pending(mem.Stacks)))
        && (e.Dropped? ==>
             && Valid() && mem.Valid() && Tracked(threads[..top], mem.Stacks)
             && n.Fail? && Pending(mem.Stacks) == old(Pending(mem.Stacks)))
        && (e.Done? ==> e.o == Exited(2) || n == Stop(e.o))
      ensures e == Done(Exited(2)) ==> Exhausted(mem)
      ensures e.Dropped? ==>
        && 0 <= pc < |code|
        && mem.Stacks == if Decode(code[pc]).Some? then old(mem.Stacks) - {h} else old(mem.Stacks)
      ensures 0 <= pc < |code| && Decode(code[pc]) == Some(Accept) ==>
        e == Done(Returned(idx)) && mem.Stacks == old(mem.Stacks) - {h}
    {
      if !(0 <= pc < |code|) {
        return Done(Undefined);
      }
      var d := Decode(code[pc]);
      if d.None? {
        // No case of the switch matches: the thread is dropped and its
        // stack is never released.
        return Dropped;
      }
      var op := d.value;
      if pc + op.Length() > |code| {
        return Done(Undefined);
      }
      ghost var t0 := Thread(pc, idx, mem.Stacks[h]);
      ghost var q0 := Pending(mem.Stacks);
      assert Step(code, str, t0, q0) == Perform(code, str, op, t0, q0);
      match op {
        case Halt =>
          e := Done(Returned(-1));
        case Accept =>
          mem.Destroy(h);
          e := Done(Returned(idx));
        case Push =>
          e := DoPush(mem, pc, idx, h);
        case Repeat =>
          e := DoRepeat(mem, pc, idx, h);
        case Split =>
          e := DoSplit(mem, pc, idx, h);
        case Jmp =>
          e := Go(pc + code[pc + 1], idx);
        case _ =>
          e := DoTest(mem, op, pc, idx, h);
      }
    }

    /** One dispatch of the thread at `pc`, `idx` with `fuel` left, in terms
        of `Exec`: going on leaves the same outcome for the next instruction
        with one unit less, dropping the thread leaves it to the pending
        threads, and stopping gives it (or exits with 2). */
    method Dispatch(mem: StackSpace, pc: int, idx: nat, h: int, fuel: nat) returns (e: Effect)
      requires Ready(mem, h) && fuel > 0
      modifies this, threads, mem, mem.pool, mem.pool.bitmap, mem.pool.raw
      ensures threads == old(threads) || fresh(threads)
      ensures var goal := Exec(code, str, Thread(pc, idx, old(mem.Stacks[h])), old(Pending(mem.Stacks)), fuel);
        && (e.Go? ==> Ready(mem, h) && Exec(code, str, Thread(e.pc, e.idx, mem.Stacks[h]), Pending(mem.Stacks), fuel - 1) == goal)
        && (e.Dropped? ==>
             && Valid() && mem.Valid() && Tracked(threads[..top], mem.Stacks)
             && Run(code, str, Pending(mem.Stacks), fuel - 1) == goal)
        && (e.Done? ==> e.o == Exited(2) || e.o == goal)
      ensures e == Done(Exited(2)) ==> Exhausted(mem)
    {
      ghost var q0 := Pending(mem.Stacks);
      ExecStep(code, str, Thread(pc, idx, mem.Stacks[h]), q0, fuel);
      e := Advance(mem, pc, idx, h);
    }

    /** The dispatch loop for one thread (tregex.c:324-435): `done` when the
        VM stops with `o`; otherwise the thread was dropped after some
        dispatches, and the pending threads take over with the budget left. */
    method RunThread(mem: StackSpace, pc: int, idx: nat, h: int, fuel: nat)
      returns (done: bool, o: Outcome, left: nat)
      requires Ready(mem, h)
      modifies this, threads, mem, mem.pool, mem.pool.bitmap, mem.pool.raw
      ensures threads == old(threads) || fresh(threads)
      ensures var goal := Exec(code, str, Thread(pc, idx, old(mem.Stacks[h])), old(Pending(mem.Stacks)), fuel);
        && (done ==> o == Exited(2) || o == goal)
        && (!done ==>
             && left < fuel && Valid() && mem.Valid() && Tracked(threads[..top], mem.Stacks)
             && Run(code, str, Pending(mem.Stacks), left) == goal)
      ensures done && o == Exited(2) ==> Exhausted(mem)
    {
      ghost var goal := Exec(code, str, Thread(pc, idx, mem.Stacks[h]), Pending(mem.Stacks), fuel);
      var cur, at := pc, idx;
      left := fuel;
      while true
        invariant Ready(mem, h)
        invariant threads == old(threads) || fresh(threads)
        invariant left <= fuel
        invariant Exec(code, str, Thread(cur, at, mem.Stacks[h]), Pending(mem.Stacks), left) == goal
        decreases left
      {
        if left == 0 {
          return true, OutOfFuel, 0;
        }
        var e := Dispatch(mem, cur, at, h, left);
        left := left - 1;
        match e {
          case Go(pc', idx') =>
            cur, at := pc', idx';
          case Dropped =>
            return false, Returned(-1), left;
          case Done(out) =>
            return true, out, left;
        }
      }
    }

    /** The first thread (tregex.c:315-316): pc 0, index 0, a new stack;
        false where the pool runs out of blocks. */
    method Start(mem: StackSpace) returns (ok: bool)
      requires Valid() && top == 0 && mem.Valid()
      modifies this, threads, mem, mem.pool, mem.pool.bitmap, mem.pool.raw
      ensures threads == old(threads) && size == old(size)
      ensures ok ==> Valid() && mem.Valid() && Tracked(threads[..top], mem.Stacks)
      ensures ok ==> Pending(mem.Stacks) == Threads([Thread(0, 0, [])], size)
      ensures !ok ==> Exhausted(mem)
    {
      var h0;
      ok, h0 := mem.Create();
      if !ok {
        return;
      }
      threads[0] := Slot(0, 0, h0);
      top := 1;
      assert threads[..top] == [Slot(0, 0, h0)];
    }

    /** Pop the top pending thread (tregex.c:319-322). */
    method PopThread(ghost mem: StackSpace) returns (pc: int, idx: nat, h: int)
      requires Valid() && mem.Valid() && Tracked(threads[..top], mem.Stacks) && top > 0
      modifies this
      ensures threads == old(threads) && size == old(size) && top == old(top) - 1
      ensures Ready(mem, h)
      ensures old(Pending(mem.Stacks)).list == Pending(mem.Stacks).list + [Thread(pc, idx, mem.Stacks[h])]
    {
      ghost var ts := threads[..top];
      top := top - 1;
      var t := threads[top];
      pc, idx, h := t.pc, t.idx, t.stack;
      ViewPop(ts, mem.Stacks);
      assert threads[..top] == ts[..|ts| - 1];
    }

    /** `tregex_execute` (tregex.c:306-439) with a step budget: the outcome
        `MachineSpec.Execute` gives, unless the pool runs out of blocks. */
    method Execute(mem: StackSpace, fuel: nat) returns (o: Outcome)
      requires Valid() && top == 0 && size == InitialStackSize && mem.Valid()
      modifies this, threads, mem, mem.pool, mem.pool.bitmap, mem.pool.raw
      ensures o == Exited(2) || o == MachineSpec.Execute(code, str, fuel)
      ensures o == Exited(2) ==> Exhausted(mem)
    {
      ghost var goal := MachineSpec.Execute(code, str, fuel);
      var ok := Start(mem);
      if !ok {
        return Exited(2);
      }
      var steps := fuel;
      while top > 0
        invariant Valid() && mem.Valid() && Tracked(threads[..top], mem.Stacks)
        invariant threads == old(threads) || fresh(threads)
        invariant Run(code, str, Pending(mem.Stacks), steps) == goal
        decreases steps
      {
        var pc, idx, h := PopThread(mem);
        var done, out, left := RunThread(mem, pc, idx, h, steps);
        if done {
          return out;
        }
        steps := left;
      }
      o := Returned(-1);
    }
  }

  /** What one dispatch did: go on at `pc`, `idx`; drop the thread; or stop. */
  datatype Effect = Go(pc: int, idx: nat) | Dropped | Done(o: Outcome)

  /** `tregex_match` (tregex.c:441-465): compile the pattern unless a program
      is given, take a fresh pool unless one is given, and run the VM on the
      subject. */
  method Match(re: seq<SChar>, str: seq<SChar>, compiled: Option<CompilerSpec.Program>,
               mem: StackSpace?, fuel: nat) returns (o: Outcome)
    requires compiled.None? ==> CompilerSpec.Fits(re)
    requires mem != null ==> mem.Valid()
    modifies if mem != null then {mem, mem.pool, mem.pool.bitmap, mem.pool.raw} else {}
    ensures var p := if compiled.Some? then compiled.value else CompilerSpec.Compile(re);
      o == Exited(2) || o == MachineSpec.Execute(p.code, str, fuel)
    ensures o == Exited(2) && mem != null ==> Exhausted(mem)
  {
    var p: CompilerSpec.Program;
    if compiled.Some? {
      p := compiled.value;
    } else {
      p := Compiler.Compile(re);
    }
    var space: StackSpace;
    if mem != null {
      space := mem;
    } else {
      var pool := new Pool();
      space := new StackSpace(pool);
    }
    var ctx := new MatchContext(str, p.code);
    o := ctx.Execute(space, fuel);
  }
}
