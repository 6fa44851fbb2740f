# A verified model of the bfdbg Brainfuck interpreter

bfdbg is a step-by-step Brainfuck debugger. Its engine, `Interpreter`, has these parts:

- a tape of 30,000 byte cells;
- a data pointer;
- the program source;
- an instruction cursor (`current`);
- a stack of loop-start positions (`parens`);
- a skip mode (`looping` with the nesting counter `inner_loops`), used to pass over the body of a loop entered on a zero cell;
- the output text.

`step` executes one instruction. `run` steps until the program is finished or the cursor rests on a `#` breakpoint.

The project has two layers:

- **A functional specification.** The state is the value `Semantics.Machine`. One step is the function `Semantics.Step`, and a run is `Semantics.Run`. Their properties are proved as lemmas.
- **An imperative engine.** `Engine.Interpreter` is a class. Its tape is an `array<byte>` updated in place. The loop stack and the output are sequences that the methods reassign.
  - Every method is proved to leave the object in the state the specification function computes, through `Snapshot()`.
  - Every method returns the status the specification function computes.
  - The invariant `Valid()` holds whenever an operation does not abort.

Modules:

- `Bytes` (bytes.dfy) defines:
  - cell values (`byte`, arithmetic modulo 256);
  - `usize` words (modulo 2^64);
  - the instruction codes and the set of recognised instructions.
- `Tape` (tape.dfy) has the data-pointer moves and their wrap-around rule.
- `Cursor` (cursor.dfy) has the cursor:
  - `Advance` skips inert bytes;
  - `LastLegalBefore` is the backward scan.
- `Semantics` (semantics.dfy) holds the machine state, its invariant, and one step and a whole run as functions, with the lemmas about them.
- `Engine` (interpreter.dfy) holds the `Interpreter` class.
- `Programs` (programs.dfy) holds whole runs of small programs:
  - `[-]#` clears a cell;
  - `[[-]-]#` skips nested loops;
  - `+#+#` stops at a breakpoint;
  - `]#` aborts;
  - `<+#` leaves the tape.
- `Multiply` (multiply.dfy) runs `++++++++[>++++++++<-]>.` from start to end, with and without a `#` after it.

Where the original aborts (a Rust panic), the model returns an outcome instead: `Panic(f)` for a step, `Crashed(f)` for a run. There are three faults:

- `EmptySource`: the program is empty. `src.len() - 1` underflows in `finished`.
- `OffTape`: a cell is accessed while the data pointer is 30,000. The pointer may legally sit there: `>` from 29,999 and `<` from 0 both lead to it.
- `UnmatchedClose`: a `]` is dispatched with nothing on the loop stack.

The original `run` loops until it stops, and a Brainfuck program need not stop. The model's `Run` therefore takes a step budget (`fuel`) and reports `OutOfFuel` when the budget is used up.

Behaviour the model keeps exactly as the code has it:

- **The constructor does not move the cursor.** The cursor starts at position 0, even when the first byte is not an instruction. That first byte is then dispatched like any other byte (an inert byte does nothing).
- **A program is finished when the cursor rests on the last byte.** That last byte is never dispatched (`FinishedStepIsNoop`).
- **A `[` pushes its own position.** That position is found by scanning back from the cursor to the nearest recognised instruction (`ScanBackFindsConsumed`). A `]` on a non-zero cell jumps back to that `[`, which then runs again.
- **A program's final `.` prints nothing.** `++++++++[>++++++++<-]>.` leaves 64 in cell 1 and stops with the cursor on the `.`, which is the last byte, so its output stays empty (`Multiply.PrintsNothing`). The same program followed by `#` prints the code 64 (`Multiply.PrintsWithBreakpoint`).
- **The offset from `get_range_from_tape` uses wrapping subtraction.** It is `data_pointer.wrapping_sub(from)`, so it wraps modulo 2^64 when `from` exceeds the data pointer. It is not clamped at zero.

## Model

| member | source | states |
|---|---|---|
| Bytes.Legal | src/interpreter.rs:24 | the nine recognised instructions; its meaning is carried by Cursor.SkipInert, Cursor.Advance and Cursor.LastLegalBefore, whose contracts say which bytes the cursor stops on and which it passes |
| Bytes.WrappingInc | src/interpreter.rs:93-96 | `+` on a cell is addition of one modulo 256 |
| Bytes.WrappingDec | src/interpreter.rs:97-100 | `-` on a cell is subtraction of one modulo 256 (0 becomes 255) |
| Bytes.IncTimesModular | src/interpreter.rs:93-96 | n increments of a cell give (v + n) mod 256 |
| Bytes.DecTimesModular | src/interpreter.rs:97-100 | n decrements of a cell give (v - n) mod 256 |
| Bytes.IncTimesAdd | src/interpreter.rs:93-96 | m increments followed by n more are m + n increments |
| Bytes.IncTimesNoWrap | src/interpreter.rs:93-96 | while the sum stays below 256, n increments add exactly n |
| Bytes.IncThenDecRestores | src/interpreter.rs:93-100 | n increments followed by n decrements restore the cell |
| Bytes.CellWrapsAround | src/interpreter.rs:93-100 | 256 increments are the identity; decrementing 0 gives 255 |
| Bytes.WrappingSub | src/interpreter.rs:137 | the offset r satisfies r + from = data pointer modulo 2^64 (wrapping, not saturating) |
| Tape.MoveRight | src/interpreter.rs:79-85 | `>` keeps the pointer within 0..30000 and on that range is +1 modulo 30001 |
| Tape.MoveLeft | src/interpreter.rs:86-92 | `<` keeps the pointer within 0..30000 and is -1 modulo 30001 (0 goes to 30000) |
| Tape.MovesAreInverse | src/interpreter.rs:79-92 | on 0..30000, `>` then `<` and `<` then `>` return to the start |
| Tape.RightTimesCycles | src/interpreter.rs:79-85 | n moves right from p land on (p + n) mod 30001 |
| Tape.RightFromZero | src/interpreter.rs:79-85 | from cell 0, n <= 30000 moves right reach cell n, so 30000 moves reach the off-tape position 30000, and one more move returns to 0 |
| Cursor.Finished | src/interpreter.rs:140-142 | a program is finished when the cursor is on its last byte; Cursor.AdvanceMovesUnlessFinished and Semantics.FinishedStepIsNoop state what that means for a step |
| Cursor.SkipInert | src/interpreter.rs:165-167 | the skip loop stops on the first recognised instruction at or after its start, or on the last byte; everything it passes is inert |
| Cursor.Advance | src/interpreter.rs:156-169 | at the end: Nul, cursor unchanged; otherwise: the byte under the cursor, and the cursor on the next recognised instruction or the last byte |
| Cursor.AdvanceMovesUnlessFinished | src/interpreter.rs:156-169 | the cursor moves if and only if the program is not finished, and stays within the source |
| Cursor.LastLegalBefore | src/interpreter.rs:144-154 | the result lies before the cursor, holds a recognised instruction, and no recognised instruction lies between it and the cursor |
| Cursor.ScanBackFindsConsumed | src/interpreter.rs:101-107 | after an advance from a recognised instruction, the backward scan finds exactly that instruction |
| Semantics.Initial | src/interpreter.rs:39-51 | a fresh machine (zero tape, pointer 0, cursor 0, empty stack and output, not skipping) satisfies the invariant |
| Semantics.Step | src/interpreter.rs:59-123 | one step: an empty source aborts, skip mode only tracks nesting, otherwise the advanced byte is dispatched; its properties are the contracts of Semantics.StepPreservesInv, Semantics.SkippingStep, the per-instruction step lemmas, Semantics.FinishedStepIsNoop and Semantics.StepExtendsOutput |
| Semantics.Dispatch | src/interpreter.rs:78-122 | the effect of one instruction; its properties are the contracts of Semantics.DispatchPreservesInv, Semantics.CellStep, Semantics.MoveStep, Semantics.OpenStep, Semantics.CloseStep, Semantics.DotStep and Semantics.InertStep |
| Semantics.StepPreservesInv | src/interpreter.rs:59-123 | a step that does not abort keeps the invariant: tape size, pointer in 0..30000, cursor on a recognised instruction or the last byte (or at 0), not skipping implies nesting 0, and every stack entry a `[` before the cursor in increasing order |
| Semantics.AdvancePreservesInv | src/interpreter.rs:156-169 | moving the cursor as one advance does keeps the invariant |
| Semantics.DispatchPreservesInv | src/interpreter.rs:78-122 | dispatching an instruction keeps the invariant, given that a pushed `[` lies beyond every stacked position |
| Semantics.OpenKeepsInv | src/interpreter.rs:101-107 | a `[` on a non-zero cell pushes its own position, above every stacked one, so the stack stays an increasing list of `[` positions |
| Semantics.CloseKeepsInv | src/interpreter.rs:108-114 | a `]` pops the top of the stack, and a jump lands on that `[`, which is a recognised instruction |
| Semantics.SkippingStep | src/interpreter.rs:61-76 | in skip mode a step leaves tape, pointer, output and stack alone; `[` deepens nesting; `]` at depth 0 leaves skip mode, otherwise it reduces the depth; the cursor advances |
| Semantics.CellStep | src/interpreter.rs:93-100 | `+`/`-` change only the addressed cell, by one modulo 256; at pointer 30000 the step aborts |
| Semantics.MoveStep | src/interpreter.rs:79-92 | `>`/`<` change only the pointer, with the wrap rule, and keep it within 0..30000 |
| Semantics.OpenStep | src/interpreter.rs:101-107 | `[` on zero enters skip mode at depth 0 with the stack unchanged; on non-zero it pushes exactly the position of this `[`; at pointer 30000 it aborts |
| Semantics.CloseStep | src/interpreter.rs:108-114 | `]` pops exactly one entry; on non-zero the cursor jumps to that entry, which holds a `[`; on zero the cursor advances; an empty stack aborts |
| Semantics.DotStep | src/interpreter.rs:115-117 | `.` appends exactly the addressed cell to the output and changes nothing else; at pointer 30000 it aborts |
| Semantics.InertStep | src/interpreter.rs:118-121 | `,`, `#` and inert bytes only move the cursor |
| Semantics.FinishedStepIsNoop | src/interpreter.rs:156-160 | a non-skipping step on a finished program changes nothing, so the last byte is never dispatched |
| Semantics.Run | src/interpreter.rs:53-57 | a run halts only on a finished program or with the cursor on `#`, and the state it ends in satisfies the invariant |
| Semantics.Continue | src/interpreter.rs:53-57 | the same stopping guarantee for a run that is about to take a step |
| Semantics.Resume | src/interpreter.rs:53-57 | the same stopping guarantee for a run after its budget is charged |
| Semantics.RunUnfolds | src/interpreter.rs:53-57 | a run that is not stopped is one step followed by the rest of the run; a step that aborts aborts the run |
| Semantics.StepExtendsOutput | src/interpreter.rs:115-117 | a step never shortens the output, adds at most one code, and leaves the source alone |
| Semantics.RunExtendsOutput | src/interpreter.rs:53-57 | the output at the end of a run extends the output at its start |
| Semantics.PlusRuns | src/interpreter.rs:93-96 | a `+` followed by a recognised instruction is one step of a run: it increments the cell and moves the cursor by one |
| Semantics.PlusesAddUp | src/interpreter.rs:93-96 | a run over k `+` bytes takes k steps and adds k to the addressed cell modulo 256, changing nothing else but the cursor |
| Semantics.StepStaysBeforeHash | src/interpreter.rs:156-169 | a step starting before a `#` never moves the cursor past it |
| Semantics.RunStopsAtHash | src/interpreter.rs:53-57 | a run started at or before a `#` ends at or before it, so nothing after the breakpoint is dispatched |
| Engine.StepWithinRun | src/interpreter.rs:53-57 | one step taken inside `run` either aborts the run with the same fault or leaves the rest of the run to go on from the new state with one step less |
| Engine.Interpreter.constructor | src/interpreter.rs:39-51 | the new engine has a zero tape, pointer 0, cursor 0, empty stack and output, is not skipping, and is valid |
| Engine.Interpreter.Finished | src/interpreter.rs:140-142 | the engine's finished test is Cursor.Finished on its own source and cursor, which the Run and Advance loops use as their exit condition |
| Engine.Interpreter.PeekInst | src/interpreter.rs:179-181 | the source byte at an index; its use is covered by the contracts of Engine.Interpreter.Advance and Engine.Interpreter.LastLegalInst |
| Engine.Interpreter.CurrentInstruction | src/interpreter.rs:171-173 | the byte under the cursor; its use is covered by the contracts of Engine.Interpreter.Step, Engine.Interpreter.Run and Engine.Interpreter.Advance |
| Engine.Interpreter.PeekCell | src/interpreter.rs:175-189 | the addressed cell, standing for `current_cell`, `peek_char` and `peek_cell`; its use is covered by the contract of Engine.Interpreter.Dispatch |
| Engine.Interpreter.SourceWithCursor | src/interpreter.rs:125-127 | returns the source and a cursor that lies inside it and, if not 0, is on a recognised instruction or the last byte |
| Engine.Interpreter.Run | src/interpreter.rs:53-57 | the loop `while !finished && current != '#' { step }` ends in exactly the state and status of the specification run |
| Engine.Interpreter.Step | src/interpreter.rs:59-123 | the engine's step produces exactly the state and status of the specification step |
| Engine.Interpreter.Dispatch | src/interpreter.rs:78-122 | the in-place instruction dispatch, array write included, matches the specification dispatch |
| Engine.Interpreter.Advance | src/interpreter.rs:156-169 | the cursor loop hands out the byte and new cursor position that the specification advance gives |
| Engine.Interpreter.LastLegalInst | src/interpreter.rs:144-154 | the backward loop returns the nearest recognised instruction before the cursor |
| Engine.Interpreter.GetRangeFromTape | src/interpreter.rs:130-138 | returns the cells from..to (empty when from >= to) and the pointer's offset from `from` modulo 2^64; aborts exactly when from < to and to > 30000 |
| Programs.Loaded | src/interpreter.rs:39-51 | a program loaded over any tape and a pointer in 0..30000 satisfies the invariant |
| Programs.ClearLoop | src/interpreter.rs:53-123 | `[-]#` halts on `#` with the addressed cell cleared and nothing else changed, within 3v + 3 steps |
| Programs.NestedSkip | src/interpreter.rs:61-76 | `[[-]-]#` on a zero cell skips the whole nested body, leaves skip mode on the outer `]`, and halts with the tape untouched |
| Programs.HashStopsRun | src/interpreter.rs:53-57 | on `+#+#` the run stops on the first `#`; the second `+`, which is not the last byte, never runs |
| Programs.UnmatchedCloseAborts | src/interpreter.rs:108-114 | on `]#` the run aborts with an unmatched `]` |
| Programs.LeftFromZeroLeavesTape | src/interpreter.rs:86-96 | on `<+#` from cell 0 the pointer wraps to 30000 and the `+` aborts |
| Multiply.Trip | src/interpreter.rs:79-114 | one trip round the loop of `++++++++[>++++++++<-]>.` takes 13 steps, adds 8 to cell 1 and takes 1 from cell 0, then returns to the `[` or leaves the loop |
| Multiply.Loop | src/interpreter.rs:101-114 | entered with cell 0 = a > 0, the loop runs 13a steps, leaves cell 0 at 0, adds 8a to cell 1 modulo 256 and ends past the `]` |
| Multiply.ReachesLastMove | src/interpreter.rs:53-123 | after 112 steps of any source that starts with the program, cell 1 = 64, every other cell is 0, the pointer is on cell 0 and the cursor is on the final `>` |
| Multiply.PrintsNothing | src/interpreter.rs:53-57 | the program as written halts on its last byte, the `.`, with empty output and cell 1 = 64 |
| Multiply.PrintsWithBreakpoint | src/interpreter.rs:53-57 | followed by `#`, the program dispatches its `.`, prints exactly the code 64 and halts on the `#` |

## Left out

- The terminal front end (src/ui.rs) is not part of this model. It covers drawing the tape window, highlighting the source and key handling.
- Input (`,`) does nothing in the original, so it does nothing here.
- The `previous_cell` field is only written, never read, so it is not modelled.
- Semantics.Run, Engine.Interpreter.Run: a run is bounded by a step budget. A program that never stops is reported as `OutOfFuel`, not as a loop that does not end.
- Engine.Interpreter.Run, Engine.Interpreter.Step: after an abort (a Rust panic) the engine's state is not specified. Only the fault is.
- `inner_loops`, `current` and the loop-stack entries are unbounded naturals. A `usize` overflow of them needs 2^64 bytes of source or 2^64 steps (a skipping program whose last byte is `[` deepens `inner_loops` on every step), so it is not modelled.
- The source is modelled as a sequence of bytes, and each output code as the byte value 0–255. The original's `output` is a UTF-8 `String`, and a code of 128 or more takes two bytes in it. That encoding is not modelled.
- Engine.Interpreter.GetRangeFromTape: an index past the end of the tape aborts as a whole outcome (`WindowOffTape`), not partway through filling the vector.
