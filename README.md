# tregex in Dafny

tregex is a small backtracking regular-expression engine written in C. A
pattern is compiled in one pass into bytecode. A virtual machine then runs
that bytecode against a subject, anchored at its start, and returns the
index where the match ends, or -1. The engine is built from four parts:

- **A fixed-block pool allocator.** A bitmap of 16 64-bit words covers 1024
  blocks of 32 bytes. Module `BlockPool` models it as class `Pool`. The
  bitmap is an `array<Word>` of 16 words, where `Word` is a `seq<bool>` of
  length 64 (bit `k` of a word is its element `k`). Blocks are named by
  index. A `seq<bool>` word keeps the bit-level reasoning of the lowest-set-bit
  scan cheap for the verifier, which `bv64` arithmetic mixed with integer bit
  indices does not.
- **A reference-counted persistent stack.** Its nodes and stack headers live
  in pool blocks. Module `PersistentStack` holds the arena state and its
  invariant: a live node's `count` equals the number of headers whose top it
  is plus the number of its live children. Every operation preserves that
  invariant. Module `StackHeap` is class `StackSpace`, whose methods change
  the blocks in place. Each method is stated against a ghost map `Stacks`
  from handle to logical stack.
- **A single-pass recursive-descent compiler** with the levels EXPR, TERM and
  FACTOR. It uses `memmove` to open room for the prefix instructions of `?`,
  `*`, `+` and `|`, and backpatches their offsets.
  - Module `CompilerSpec` gives the parser as functions on a parser state.
    It keeps the C `switch`'s fall-through from EXPR into TERM into FACTOR.
  - Module `Compiler` gives class `Parser`, which writes into a 1024-slot
    `array<int>`. Its methods are proved equal to those functions.
- **The bytecode VM.** A LIFO array of pending threads `(pc, idx, stack)`
  grows by half its size up to 1024*1024 entries.
  - Module `MachineSpec` gives one dispatch as the function `Step` and the
    whole run as `Run`/`Exec`.
  - Module `Machine` gives class `MatchContext`, which works on a real thread
    array and on the stacks of a `StackSpace`. Its `Execute` is proved to
    return what `MachineSpec.Execute` returns, unless it exits.

Module `Layout` holds what `tregex.h` defines:
- the opcode numbering and instruction lengths;
- the slot encoding of the SET/FETCH macros;
- the capacity constants;
- the signed `char` truncation the C applies to offsets and operands.

Module `EndToEnd` composes the compiler with the VM for plain literals, for
`x?` and for rejected patterns.

Representation choices:
- C `char` is signed, so pattern and subject characters are `SChar`, an
  integer in [-128, 128).
- A C string is the sequence of its characters before the terminating NUL.
- The VM loop carries no termination argument. `MachineSpec.Run`/`Exec` and
  `MatchContext.Execute` therefore take a step budget (`fuel`), and
  `OutOfFuel` means the budget was too small.
- A process exit is the outcome `Exited(status)`.
- Reading outside the bytecode buffer is the outcome `Undefined`.

## Model

| member | source | states |
|---|---|---|
| Layout.Decode | tregex.h:26-40 | the opcode numbers are exactly 0..12 (`OP_NUM` 13), and decoding gives back the opcode with that number |
| Layout.CodeRoundTrip | tregex.h:26-40 | every opcode decodes from its own number, and distinct opcodes have distinct numbers |
| Layout.LengthIsOnePlusArity | tregex.h:42-54 | an instruction takes 1, 2 or 3 slots: one for the opcode plus one per operand |
| Layout.EncodeZ | tregex.h:63 | `SET_OP_Z` puts the opcode in slot 0 of a one-slot instruction |
| Layout.EncodeA | tregex.h:61 | `SET_OP_A` puts the opcode in slot 0 and operand A in slot 1, where `FETCH_OPARG_A` reads it |
| Layout.EncodeAB | tregex.h:62 | `SET_OP_AB` puts the opcode, A and B in slots 0, 1 and 2, where the FETCH macros read them |
| Layout.CharCast | tregex.c:156 | the `(char)` cast keeps the value modulo 256 in the signed byte range |
| Layout.CharCastSmall | tregex.c:156 | the cast leaves a value that already fits a signed byte unchanged |
| Layout.RecordsFitInBlock | tregex.h:106-114 | a stack node and a stack header each fit in one 32-byte pool block |
| BlockPool.CountTrailingZeros | tregex.h:68 | `ctzll` of a nonzero word is the index of its lowest set bit |
| BlockPool.LowestSetBitFrom | tregex.h:68 | the lowest set bit at or above `k`: set, with every bit between `k` and it clear |
| BlockPool.LowestFree | tregex.c:31-39 | the lowest-index free block, or none when every block is in use |
| BlockPool.LowestFreeFrom | tregex.c:32-38 | the scan from block `k` on finds the lowest free block at or above `k`, or none when every block from `k` on is used |
| BlockPool.DescribesClear | tregex.c:35 | clearing bit `b % 64` of word `b / 64` marks exactly block `b` used |
| BlockPool.DescribesSet | tregex.c:42-46 | setting bit `b % 64` of word `b / 64` marks exactly block `b` free |
| BlockPool.ZeroWordAllUsed | tregex.c:33 | a zero bitmap word means all 64 of its blocks are in use, so the scan may skip it |
| BlockPool.BlockOfBit | tregex.c:36 | bit `k` of word `i` names block `64*i + k`, and the free path inverts that |
| BlockPool.Pool.constructor | tregex.c:13-20 | a new pool has every block free |
| BlockPool.Pool.Clean | tregex.c:22-24 | afterwards every block is free, and block contents are untouched |
| BlockPool.Pool.Alloc | tregex.c:31-40 | takes the lowest free block and marks only it used; fails (the C exits with 2) exactly when no block is free |
| BlockPool.Pool.Release | tregex.c:42-46 | marks only block `b` free |
| BlockPool.ReleaseUndoesAlloc | tregex.c:31-46 | freeing the block alloc just took gives back the previous bitmap |
| PersistentStack.CreateKeepsInv | tregex.c:58-68 | a new header with a root node of count 1 keeps the count invariant and adds an empty stack |
| PersistentStack.PushKeepsInv | tregex.c:70-87 | a new node appended to the top's child chain keeps the invariant and adds `v` to the end of that stack only |
| PersistentStack.SoleReferrer | tregex.c:94 | a top node with count 1 is referenced by no other block |
| PersistentStack.SoleHasNoKids | tregex.c:94-104 | a top node with count 1 has no children, so pop may free it |
| PersistentStack.PopFreedKeepsInv | tregex.c:94-106 | unlinking and freeing a count-1 top keeps the invariant and drops the last element of that stack only |
| PersistentStack.PopSharedKeepsInv | tregex.c:108-111 | moving a reference from a shared top to its parent keeps the invariant and drops the last element of that stack only |
| PersistentStack.CopyKeepsInv | tregex.c:118-124 | a new header sharing the top keeps the invariant and adds a stack equal to the copied one |
| PersistentStack.ReleaseKeepsInv | tregex.c:126-134 | releasing an emptied handle keeps the invariant and removes only that stack |
| PersistentStack.ReleaseSharedKeepsInv | tregex.c:131-133 | releasing a handle whose root is shared (the root's count is decremented) keeps the invariant |
| PersistentStack.ReleaseLastKeepsInv | tregex.c:129-130 | releasing the last handle on a root (the root is freed) keeps the invariant |
| StackHeap.StackSpace.constructor | tregex.c:13-20 | a stack space over an all-free pool holds no stacks |
| StackHeap.StackSpace.Create | tregex.c:58-68 | a new handle denoting the empty stack (its top is the root, idx -1); other stacks unchanged; fails only when the pool is full |
| StackHeap.StackSpace.Top | tregex.c:114-116 | the last element pushed, or -1 for the empty stack |
| StackHeap.StackSpace.Push | tregex.c:70-87 | the stack gains `v` at its end, so `Top` then gives `v`; other stacks unchanged; fails only when the pool is full |
| StackHeap.StackSpace.Pop | tregex.c:89-112 | returns the old top's value and drops it; on the empty stack returns -1 and changes nothing at all |
| StackHeap.StackSpace.PopLast | tregex.c:94-106 | popping a top no other handle shares unlinks and frees it, keeps the invariant, and drops the last element of that stack only |
| StackHeap.StackSpace.PopShared | tregex.c:108-111 | popping a shared top moves one reference to the parent, keeps the invariant, and drops the last element of that stack only |
| StackHeap.StackSpace.Copy | tregex.c:118-124 | a new handle, distinct from every live one, whose stack equals the copied one; every other stack is unchanged, and since `Push` and `Pop` change only their own handle's stack, the two evolve independently |
| StackHeap.StackSpace.Destroy | tregex.c:126-134 | the handle and its stack are gone; every other stack is unchanged |
| StackHeap.StackSpace.LinkChild | tregex.c:78-84 | the new node becomes the first child, or the right sibling of the last child, with nothing else changed |
| StackHeap.StackSpace.LastSibling | tregex.c:81-82 | the walk along the `right` links ends at the last child of the chain |
| StackHeap.StackSpace.Unlink | tregex.c:95-103 | the popped node is removed from its parent's child chain by relinking exactly one block |
| CompilerSpec.Parse | tregex.c:144-268 | a parse only moves forward, keeps the code before it, emits at most six slots per character, consumes at least one character when it succeeds on an item, and never fails while stopped on `)` |
| CompilerSpec.ExprCase | tregex.c:146-161 | in addition, a successful EXPR stops at the end, at `)`, or after a whole alternation |
| CompilerSpec.Alternation | tregex.c:151-160 | the code before the SPLIT is kept, and success stops off any item |
| CompilerSpec.Terms | tregex.c:148-150 | the run of TERMs before a bar or `)` moves forward, keeps the code before it, and on success stops off any item |
| CompilerSpec.TermCase | tregex.c:162-213 | the TERM case, entered with the operand at the cursor, moves forward, keeps the code before it, and on success stops off any item |
| CompilerSpec.TermLoop | tregex.c:163-211 | the code before the operand is kept, and success stops off any item |
| CompilerSpec.FactorCase | tregex.c:214-265 | one factor moves forward and keeps the code before it |
| CompilerSpec.Compile | tregex.c:270-291 | the program ends with ACCEPT and `len` counts the emitted slots exactly when the parse succeeds and consumes the whole pattern; otherwise it is HALT with `len` 1 |
| CompilerSpec.OptionalLowering | tregex.c:174-181 | `?` on an n-slot operand becomes SPLIT(3, n+3) then the operand |
| CompilerSpec.RepeatedLowering | tregex.c:182-194 | `*` becomes PUSH, SPLIT(3, n+5), the operand, REPEAT(-(n+3)), and the REPEAT lands on the SPLIT |
| CompilerSpec.OneOrMoreLowering | tregex.c:205-211 | a general `+` becomes PUSH, the operand, REPEAT(-n), and the REPEAT lands on the operand's start |
| CompilerSpec.OneOrMoreRewrite | tregex.c:197-204 | a lone MATCH or MATCH_SET under `+` keeps its size and operands; only the opcode becomes LOOP or LOOP_SET |
| CompilerSpec.AlternationLowering | tregex.c:151-159 | for an alternation the SPLIT's B target is the first slot of B and the JMP lands just past B |
| CompilerSpec.EscapeForm | tregex.c:232-238 | `\` fails exactly when it is the last character, and otherwise emits MATCH of the next one |
| CompilerSpec.BracketForm | tregex.c:239-251 | `[` succeeds exactly for the form `[c-c]` with room for all five characters, and emits MATCH_SET of the two ends |
| CompilerSpec.GroupForm | tregex.c:252-258 | `(` succeeds exactly when the inner EXPR succeeds and stops on `)`, whatever the ignored inner result |
| CompilerSpec.FactorOffItem | tregex.c:259-260 | the FACTOR case emits nothing and succeeds at a bar, `)` or the end |
| CompilerSpec.ExprFallThrough | tregex.c:160-162 | the fall-through from EXPR into TERM and FACTOR adds nothing |
| CompilerSpec.TermFallThrough | tregex.c:212-214 | the fall-through from TERM into FACTOR adds nothing |
| CompilerSpec.Literals | tregex.c:261-264 | each plain character emits two slots |
| CompilerSpec.PlainRun | tregex.c:165-171 | a run of plain characters compiles to one MATCH per character |
| CompilerSpec.PlainParse | tregex.c:144-268 | a pattern of plain characters parses in full, to one MATCH per character |
| CompilerSpec.CompilePlain | tregex.c:270-291 | a plain pattern compiles to its MATCHes followed by ACCEPT, with `len` 2n+1 |
| Compiler.Shift | tregex.c:152 | the buffer after `memmove` of `[pos, end)` by k slots |
| Compiler.SetOpcode | tregex.h:58 | `SET_OPCODE` writes slot 0 only and leaves the operands untouched |
| Compiler.SetOpAB | tregex.h:62 | `SET_OP_AB` writes exactly three slots |
| Compiler.Spliced | tregex.c:176-180 | a shift followed by writes into the opened gap is the insertion of those slots |
| Compiler.StarWrites | tregex.c:184-193 | the writes of the `*` case produce the `*` lowering and leave zeros beyond the cursor |
| Compiler.PlusWrites | tregex.c:205-210 | the writes of the general `+` case produce the `+` lowering |
| Compiler.RewriteWrites | tregex.c:197-203 | the opcode rewrite of `+` produces the `+` lowering |
| Compiler.AlternativeWrites | tregex.c:152-156 | the writes of the alternation case produce the SPLIT and the reserved JMP room |
| Compiler.Patched | tregex.c:159 | the JMP backpatch is the patched code |
| Compiler.Parser.IsMatchSingleChar | tregex.c:136-138 | true exactly when the operand is one MATCH instruction |
| Compiler.Parser.IsMatchSingleCharset | tregex.c:140-142 | true exactly when the operand is one MATCH_SET instruction |
| Compiler.Parser.Parse | tregex.c:144-268 | the in-place parse returns and leaves the state that `CompilerSpec.Parse` gives |
| Compiler.Parser.ExprCase | tregex.c:146-161 | the in-place EXPR case leaves the state `CompilerSpec.ExprCase` gives |
| Compiler.Parser.Alternative | tregex.c:151-160 | the in-place alternation leaves the state `CompilerSpec.Alternation` gives |
| Compiler.Parser.OpenAlternative | tregex.c:152-157 | after the `memmove` and the SPLIT write, the code is the left-hand side with the SPLIT room before it and the JMP room after it, past the bar |
| Compiler.Parser.PatchJump | tregex.c:159 | the buffer holds the JMP patched to land at the cursor |
| Compiler.Parser.TermCase | tregex.c:162-213 | the in-place TERM case leaves the state `CompilerSpec.TermCase` gives |
| Compiler.Parser.Postfix | tregex.c:172-212 | one postfix operator moves forward and leaves the rest of the TERM loop with the same result |
| Compiler.Parser.ApplyOptional | tregex.c:174-181 | the in-place `?` case leaves the `?` lowering of the operand |
| Compiler.Parser.ApplyStar | tregex.c:182-194 | the in-place `*` case leaves the `*` lowering of the operand |
| Compiler.Parser.ApplyPlus | tregex.c:195-211 | the in-place `+` case leaves the `+` lowering of the operand |
| Compiler.Parser.RewriteLoop | tregex.c:197-204 | a lone MATCH or MATCH_SET operand gets only its opcode rewritten, giving the `+` lowering |
| Compiler.Parser.WrapPlus | tregex.c:205-211 | the general `+` case leaves PUSH, the operand and REPEAT, giving the `+` lowering |
| Compiler.Parser.FactorCase | tregex.c:214-265 | the in-place FACTOR case leaves the state `CompilerSpec.FactorCase` gives |
| Compiler.Parser.Anchor | tregex.c:217-231 | `.`, `^` and `$` emit ANY, BEGIN and END, as the FACTOR function says |
| Compiler.Parser.Escape | tregex.c:232-238 | the in-place escape case matches the FACTOR function, including its failure on a trailing backslash |
| Compiler.Parser.Bracket | tregex.c:239-251 | the in-place bracket case matches the FACTOR function, including each of its three failures |
| Compiler.Parser.Group | tregex.c:252-258 | the in-place group case matches the FACTOR function |
| Compiler.Compile | tregex.c:270-291 | the program built in the buffer is `CompilerSpec.Compile` of the pattern |
| MachineSpec.StackTop | tregex.c:114-116 | -1 for an empty stack, otherwise its last element |
| MachineSpec.Fork | tregex.c:342-344 | a push of a pending thread fails exactly when the array is full and growing would pass 1024*1024; otherwise it appends the thread, growing the array as the corrected `tregex_extend_stack` does (see Findings) |
| MachineSpec.Span | tregex.c:351-352 | the maximal run of characters in range starting at `from` |
| MachineSpec.Consume | tregex.c:348-419 | a character test moves the index forward within the subject, by at most one except for LOOP and LOOP_SET |
| MachineSpec.Branch | tregex.c:342-346 | forking either stops the VM with exit -1 (exactly when `Fork` fails) or goes on with the next thread, the pushed one appended |
| MachineSpec.RepeatStep | tregex.c:336-347 | REPEAT never consumes; when the stack top equals the index it pops and steps past; otherwise it pushes the exit thread and jumps; it never drops the thread, and its only stop is exit -1 |
| MachineSpec.Perform | tregex.c:328-434 | an instruction stops only with -1 (HALT), the index (ACCEPT) or exit -1; only the character tests drop a thread; the index never moves back or past the subject; pending threads only grow by the one forked |
| MachineSpec.Step | tregex.c:327 | one dispatch: a pc outside the buffer is undefined, and otherwise as `Perform`, with the same bounds on stops, index and pending threads |
| MachineSpec.Run | tregex.c:318-438 | with no pending thread the VM returns -1; it only ever exits with -1 and only returns values from -1 up |
| MachineSpec.Exec | tregex.c:324-435 | running a thread only ever exits with -1 and only returns values from -1 up |
| MachineSpec.Execute | tregex.c:314-316 | the run from the initial thread only exits with -1, returns values from -1 up, and decides nothing without budget |
| MachineSpec.ExecStep | tregex.c:318-436 | continuing runs the next instruction, failing pops the next pending thread, stopping returns |
| MachineSpec.ForkKeepsRoom | tregex.c:293-304 | growth keeps the array within [256, 1024*1024] with room above the top |
| MachineSpec.StepKeeps | tregex.c:328-434 | one dispatch keeps every index within the subject, and ACCEPT returns an index in [0, len] |
| MachineSpec.RunResult | tregex.c:318-438 | any value the VM returns is -1 or lies in [0, len] |
| MachineSpec.ExecuteResult | tregex.c:306-438 | from the initial thread `(0, 0, fresh stack)` every returned value is -1 or in [0, len] |
| MachineSpec.RunFuel | tregex.c:318-438 | a larger step budget never changes a decided outcome |
| Machine.ExtendAsWritten | tregex.c:293-304 | as written: the array grows and the new top is the old size |
| Machine.ExtendAsWrittenAddsPhantom | tregex.c:300 | as written, growing a full array leaves a zeroed thread on the pending stack |
| Machine.Extended | tregex.c:297-302 | corrected: the grown array keeps the pending threads and is blank beyond them |
| Machine.ViewPush | tregex.c:344 | pushing a slot appends its thread to the pending list |
| Machine.CopyForked | tregex.c:344 | a pushed slot holding a fresh copy of the current stack is the forked thread, and the current stack is unchanged |
| Machine.MatchContext.constructor | tregex.c:448-455 | an empty thread array of 256 entries over the subject and program |
| Machine.MatchContext.ExtendStack | tregex.c:293-304 | fails exactly when growing would pass 1024*1024; otherwise the array has the grown size and the same pending threads |
| Machine.MatchContext.Spawn | tregex.c:342-344 | the pending threads become `Fork` of them with the copied stack (growing as the corrected `tregex_extend_stack` does); exit -1 exactly when `Fork` fails; exit 2 only with every block of the pool in use |
| Machine.MatchContext.Scan | tregex.c:351-352 | the loop stops after the maximal run of characters in range |
| Machine.MatchContext.Test | tregex.c:348-419 | the character tests give what `Consume` gives |
| Machine.MatchContext.DoPush | tregex.c:331-335 | PUSH adds the index to the thread's stack and steps past, leaving the pending threads as they were; otherwise it exits with 2, and then every block of the pool is in use |
| Machine.MatchContext.DoRepeat | tregex.c:336-347 | REPEAT pops and steps when the stack top equals the index, and forks otherwise, as `RepeatStep` says; its one other outcome, exit 2, leaves every block of the pool in use |
| Machine.MatchContext.DoSplit | tregex.c:420-426 | SPLIT on the real state does what `Perform` does for SPLIT on the abstract one, or exits with 2 with every block of the pool in use |
| Machine.MatchContext.DoTest | tregex.c:348-419 | a character test goes on where `Consume` says, or drops the thread and releases its stack (exactly that handle is gone), leaving the pending threads as they were |
| Machine.MatchContext.Advance | tregex.c:327-435 | one dispatch on the real state does what `Step` does on the abstract one, or exits with 2 with every block of the pool in use; ACCEPT returns the index and releases the thread's stack; a failed test releases it too, and an unknown opcode drops the thread with its stack kept |
| Machine.MatchContext.Dispatch | tregex.c:327-435 | one dispatch leaves the same `Exec` outcome for the next instruction with one unit less, or hands it to the pending threads, or gives it; exit 2 only with every block of the pool in use |
| Machine.MatchContext.RunThread | tregex.c:324-435 | running one thread agrees with `Exec`, except for an exit with 2, which leaves every block of the pool in use |
| Machine.MatchContext.PopThread | tregex.c:319-323 | pending threads are taken last-in first-out |
| Machine.MatchContext.Start | tregex.c:315-316 | the pending threads are exactly the initial thread at pc 0, index 0, with an empty stack; it fails only with every block of the pool in use |
| Machine.MatchContext.Execute | tregex.c:306-439 | the VM returns what `MachineSpec.Execute` gives (with the corrected array growth), unless it exits with status 2, which happens only with every block of the pool in use |
| Machine.Match | tregex.c:441-465 | matching runs the given program, or the compiled pattern, and gives what `MachineSpec.Execute` gives for it (with the corrected array growth), unless it exits with status 2, which a given pool allows only with every block in use |
| EndToEnd.LiteralSteps | tregex.c:375-383 | a run of MATCHes followed by ACCEPT returns the end of the literal exactly when the subject continues with it |
| EndToEnd.MatchStep | tregex.c:375-383 | MATCH of `c` advances past itself exactly when the subject has `c` at the index, and drops the thread otherwise |
| EndToEnd.AcceptStep | tregex.c:431-434 | ACCEPT returns the index |
| EndToEnd.LiteralExec | tregex.c:375-434 | MATCHes for a literal followed by ACCEPT return where matching the literal character by character ends, or -1 at the first mismatch |
| EndToEnd.OptionalFork | tregex.c:420-426 | the SPLIT that starts `x?` leaves the thread at the MATCH with the ACCEPT thread pending |
| EndToEnd.MatchPlain | tregex.c:441-465 | a plain pattern matches exactly the subjects it prefixes, ending right after it |
| EndToEnd.RejectedMatchesNothing | tregex.c:285-288 | a pattern the compiler rejects matches nothing |
| EndToEnd.HaltFirst | tregex.c:328-330 | HALT returns -1 |
| EndToEnd.CompileOptional | tregex.c:174-181 | `x?` compiles to SPLIT(3, 5), MATCH x, ACCEPT |
| EndToEnd.MatchOptional | tregex.c:420-426 | `x?` is greedy: it takes `x` when the subject starts with it and otherwise matches the empty prefix |

## Left out

- `main.c` (the interactive loop and its timing) is not part of this model.
- `tregex_dump` is not part of this model. It only prints.
- `tregex_pool_destroy` and the `free` calls in `tregex_match` are not
  modelled. Freeing memory has no effect on any result.
- Failing `malloc`, `calloc` or `realloc` is not modelled. Those paths exit
  or return 0.
- The `ctzll` intrinsic and the compiler-specific headers are replaced by the
  function `CountTrailingZeros`.
- The computed-goto dispatch (`USE_LABELS_AS_VALUES`) is not modelled; the
  model follows the `switch` dispatch.
  - There, an opcode outside 0..12 falls out of the `switch` and the next
    pending thread runs. That is `Step`'s `Fail`, and the thread's stack is
    not released.
- Termination of the VM loop is not proved. A pattern such as `(a?)*` can
  cycle until the pool is exhausted. `MachineSpec.Execute` and
  `Machine.MatchContext.Execute` therefore take a step budget.
- MachineSpec.Fork: models the corrected `tregex_extend_stack` (the new top
  keeps the number of pending threads), not the code as written. So do
  `Machine.MatchContext.ExtendStack`, `Spawn`, `Execute`, `Machine.Match` and
  every VM result lemma built on them (`MachineSpec.RunResult`,
  `ExecuteResult`, the `EndToEnd` lemmas). A run that grows the thread array
  beyond 256 entries therefore follows the corrected growth. The code as
  written leaves a zeroed thread with a NULL stack pending at slot 255 (see
  Findings). Runs that never grow the array agree with the code as written.
- Machine.MatchContext.Execute: exits with 2 only when every block of the
  pool is in use, as `tregex_pool_alloc` does. It does not say which
  allocation ran out, or how many blocks a run needs. `MachineSpec.Execute`
  has no pool, so it continues where the VM exits with 2.
- Pending threads are not released when a thread reaches ACCEPT or HALT. The
  C leaves them for `tregex_pool_clean`, and the model leaves them in the
  pool.
- Compiler.Compile and CompilerSpec.Compile: require `6 * |re| < 1024`. The
  C never checks its writes against `MAX_BYTE_CODE_SIZE`, so a longer
  pattern can overrun the buffer.
- CompilerSpec.AlternationLowering: stated only when the offsets fit a
  signed byte. Longer alternatives get their offsets truncated by the
  `(char)` casts; `Layout.CharCast` models that, but no landing property is
  proved for it.
- Machine.Match: the pool a null `mem` leads to is created inside the method,
  and its destruction is not modelled. The tie between an exit with 2 and
  an exhausted pool is stated only for a pool given by the caller, since the
  internal one is not visible after the call.
- The subject and the pattern are the characters before the terminating
  NUL. A sequence containing 0 corresponds to no C string.

## Findings

| source | as written | input that shows it | evidently intended | confidence | as-written member | corrected member |
|---|---|---|---|---|---|---|
| tregex.c:294-300 | `tregex_extend_stack` sets the new top to the old array size (`stack_used = ctx->stack_size`). Growth only happens when the top is at `size - 1`, so this places a zeroed thread `(0, 0, NULL)` on the pending stack. | Pattern `a*b` against a subject of 200 `a`s. Each `*` iteration forks, so more than 255 threads are pending. Once the real threads fail, the zeroed thread runs PUSH on a NULL stack, which is undefined behaviour instead of returning -1. | The new top keeps the number of pending threads (`stack_used = ctx->top - ctx->stack`) | not executed | Machine.ExtendAsWrittenAddsPhantom | Machine.MatchContext.ExtendStack |
