/** The interpreter's behaviour as a function on whole machine states: one
    step, and a fuel-bounded run. The class in interpreter.dfy is proved to
    follow these definitions; the properties of the engine are proved here. */
module Semantics {
  import opened Bytes
  import opened Tape
  import Cursor

  /** The ways the engine aborts (a Rust panic in the original). */
  datatype Fault =
    | EmptySource    // `src.len() - 1` underflows when the source is empty
    | OffTape        // a cell access at data pointer TapeLen (index 30,000)
    | UnmatchedClose // `]` pops an empty loop stack

  /** Every field of the engine that a step reads or writes. */
  datatype Machine = Machine(
    tape: seq<byte>,
    dp: nat,
    src: seq<byte>,
    output: seq<byte>,
    current: nat,
    parens: seq<nat>,
    innerLoops: nat,
    looping: bool)

  datatype Outcome = Ok(m: Machine) | Panic(fault: Fault)

  /** Why a run stopped: at the end or on a `#`, because the fuel ran out
      (the state reached so far), or because a step aborted. */
  datatype Execution = Halted(m: Machine) | OutOfFuel(m: Machine) | Crashed(fault: Fault)

  /** A fresh engine: zero tape, pointer 0, cursor 0 (not moved to the first
      instruction), empty loop stack and output, not skipping. */
  function Initial(src: seq<byte>): (m: Machine)
    ensures Inv(m)
  {
    Machine(seq(TapeLen, _ => 0), 0, src, [], 0, [], 0, false)
  }

  /** The loop stack holds, from the bottom up, strictly increasing positions
      of `[` bytes, all behind the cursor. */
  ghost predicate OpenSites(m: Machine)
    requires m.current < |m.src| || m.current == 0
  {
    && (forall i :: 0 <= i < |m.parens| ==> m.parens[i] < m.current && m.src[m.parens[i]] == Open)
    && (forall i, j :: 0 <= i < j < |m.parens| ==> m.parens[i] < m.parens[j])
  }

  /** What every reachable state satisfies. */
  ghost predicate Inv(m: Machine)
  {
    && |m.tape| == TapeLen
    && m.dp <= TapeLen
    && (m.current < |m.src| || m.current == 0)
    // the cursor sits where an advance stops, except before the first step
    && (m.current == 0 || m.current == |m.src| - 1 || Legal(m.src[m.current]))
    && (!m.looping ==> m.innerLoops == 0)
    && OpenSites(m)
  }

  /** The effect of one dispatched instruction `inst`, consumed at position
      `at`; `m.current` is already past it. */
  function Dispatch(m: Machine, inst: byte, at: nat): Outcome
    requires |m.tape| == TapeLen && m.current <= |m.src|
    requires inst == Open ==> at < m.current && m.src[at] == Open
  {
    if inst == Right then Ok(m.(dp := MoveRight(m.dp)))
    else if inst == Left then Ok(m.(dp := MoveLeft(m.dp)))
    else if inst == Plus then
      if m.dp >= TapeLen then Panic(OffTape)
      else Ok(m.(tape := m.tape[m.dp := WrappingInc(m.tape[m.dp])]))
    else if inst == Minus then
      if m.dp >= TapeLen then Panic(OffTape)
      else Ok(m.(tape := m.tape[m.dp := WrappingDec(m.tape[m.dp])]))
    else if inst == Open then
      if m.dp >= TapeLen then Panic(OffTape)
      else if m.tape[m.dp] == 0 then Ok(m.(looping := true))
      else
        assert Legal(m.src[at]);
        Ok(m.(parens := m.parens + [Cursor.LastLegalBefore(m.src, m.current)]))
    else if inst == Close then
      if m.dp >= TapeLen then Panic(OffTape)
      else if m.parens == [] then Panic(UnmatchedClose)
      else if m.tape[m.dp] != 0 then
        Ok(m.(current := m.parens[|m.parens| - 1], parens := m.parens[..|m.parens| - 1]))
      else Ok(m.(parens := m.parens[..|m.parens| - 1]))
    else if inst == Dot then
      if m.dp >= TapeLen then Panic(OffTape)
      else Ok(m.(output := m.output + [m.tape[m.dp]]))
    else
      // `,` (input is not implemented), `#`, inert bytes and Nul
      Ok(m)
  }

  /** One step. While skipping a loop body only the nesting counter and the
      skip flag change; otherwise the cursor advances and the consumed byte
      is dispatched. */
  function Step(m: Machine): Outcome
    requires Inv(m)
  {
    if |m.src| == 0 then Panic(EmptySource)
    else if m.looping then
      var inst := m.src[m.current];
      var next := Cursor.Advance(m.src, m.current).next;
      if inst == Open then Ok(m.(innerLoops := m.innerLoops + 1, current := next))
      else if inst == Close && m.innerLoops == 0 then Ok(m.(looping := false, current := next))
      else if inst == Close then Ok(m.(innerLoops := m.innerLoops - 1, current := next))
      else Ok(m.(current := next))
    else
      var f := Cursor.Advance(m.src, m.current);
      Dispatch(m.(current := f.next), f.inst, m.current)
  }

  /** A run halts only where the program is finished or on a `#`, and every
      state a run hands back satisfies the invariant. */
  ghost predicate StopsProperly(r: Execution)
  {
    && (r.Halted? ==>
          && Inv(r.m) && |r.m.src| > 0
          && (Cursor.Finished(r.m.src, r.m.current) || r.m.src[r.m.current] == Hash))
    && (r.OutOfFuel? ==> Inv(r.m))
  }

  /** Steps until the program is finished or the byte under the cursor is
      `#`; that `#` is never stepped over. `fuel` bounds the number of steps. */
  function Run(m: Machine, fuel: nat): (r: Execution)
    requires Inv(m)
    ensures StopsProperly(r)
    decreases fuel, 2
  {
    if |m.src| == 0 then Crashed(EmptySource)
    else if Cursor.Finished(m.src, m.current) || m.src[m.current] == Hash then Halted(m)
    else Continue(m, fuel)
  }

  /** The loop of Run when it does not stop at `m`: out of fuel, or one more step. */
  function Continue(m: Machine, fuel: nat): (r: Execution)
    requires Inv(m)
    ensures StopsProperly(r)
    decreases fuel, 1
  {
    if fuel == 0 then OutOfFuel(m) else Resume(m, fuel - 1)
  }

  /** One step from `m`, then the rest of the run with `fuel` steps left. */
  function Resume(m: Machine, fuel: nat): (r: Execution)
    requires Inv(m)
    ensures StopsProperly(r)
    decreases fuel + 1, 0
  {
    StepPreservesInv(m);
    match Step(m)
    case Panic(f) => Crashed(f)
    case Ok(m') => Run(m', fuel)
  }

  /** A run that does not stop at `m` is one step followed by a shorter run. */
  lemma RunUnfolds(m: Machine, fuel: nat)
    requires Inv(m) && |m.src| > 0 && fuel > 0
    requires !Cursor.Finished(m.src, m.current) && m.src[m.current] != Hash
    ensures Step(m).Panic? ==> Run(m, fuel) == Crashed(Step(m).fault)
    ensures Step(m).Ok? ==> Inv(Step(m).m) && Run(m, fuel) == Run(Step(m).m, fuel - 1)
  {
    StepPreservesInv(m);
    assert Run(m, fuel) == Resume(m, fuel - 1);
  }

  // ---------------------------------------------------------------------
  // Invariant preservation

  lemma {:induction false} StepPreservesInv(m: Machine)
    requires Inv(m)
    ensures Step(m).Ok? ==> Inv(Step(m).m)
  {
    if |m.src| > 0 {
      var f := Cursor.Advance(m.src, m.current);
      AdvancePreservesInv(m);
      if !m.looping {
        if f.inst == Open && !Cursor.Finished(m.src, m.current) {
          Cursor.ScanBackFindsConsumed(m.src, m.current);
        }
        DispatchPreservesInv(m.(current := f.next), f.inst, m.current);
      }
    }
  }

  /** Moving the cursor as one advance does keeps the invariant. */
  lemma AdvancePreservesInv(m: Machine)
    requires Inv(m) && |m.src| > 0
    ensures Inv(m.(current := Cursor.Advance(m.src, m.current).next))
  {
  }

  /** Dispatching keeps the invariant, given that a pushed `[` position lies
      beyond every entry already on the stack. */
  lemma DispatchPreservesInv(m: Machine, inst: byte, at: nat)
    requires Inv(m) && m.current <= |m.src|
    requires inst == Open ==> at < m.current && m.src[at] == Open
    requires inst == Open ==> Cursor.LastLegalBefore(m.src, m.current) == at
    requires inst == Open ==> forall i :: 0 <= i < |m.parens| ==> m.parens[i] < at
    ensures Dispatch(m, inst, at).Ok? ==> Inv(Dispatch(m, inst, at).m)
  {
    if inst == Open {
      OpenKeepsInv(m, at);
    } else if inst == Close {
      CloseKeepsInv(m, at);
    }
  }

  /** A `[` on a non-zero cell pushes a position above every stacked one, so
      the stack stays increasing and made of `[` positions. */
  lemma OpenKeepsInv(m: Machine, at: nat)
    requires Inv(m) && m.current <= |m.src|
    requires at < m.current && m.src[at] == Open
    requires Cursor.LastLegalBefore(m.src, m.current) == at
    requires forall i :: 0 <= i < |m.parens| ==> m.parens[i] < at
    ensures Dispatch(m, Open, at).Ok? ==> Inv(Dispatch(m, Open, at).m)
  {
    if Dispatch(m, Open, at).Ok? && !Dispatch(m, Open, at).m.looping {
      assert Dispatch(m, Open, at).m.parens == m.parens + [at];
    }
  }

  /** A `]` pops the top of the stack, and a jump lands on that `[`, which
      lies above every remaining entry. */
  lemma CloseKeepsInv(m: Machine, at: nat)
    requires Inv(m) && m.current <= |m.src|
    ensures Dispatch(m, Close, at).Ok? ==> Inv(Dispatch(m, Close, at).m)
  {
    if Dispatch(m, Close, at).Ok? {
      var m' := Dispatch(m, Close, at).m;
      var top := m.parens[|m.parens| - 1];
      assert m'.parens == m.parens[..|m.parens| - 1];
      assert forall i :: 0 <= i < |m'.parens| ==> m'.parens[i] < top;
    }
  }

  // ---------------------------------------------------------------------
  // The effect of each instruction

  /** While skipping, a step touches neither the tape, the pointer, the
      output nor the loop stack; `[` deepens the nesting, `]` leaves skip
      mode at depth 0 and otherwise shallows it, and the cursor advances. */
  lemma SkippingStep(m: Machine)
    requires Inv(m) && |m.src| > 0 && m.looping
    ensures Step(m).Ok?
    ensures var m' := Step(m).m;
      && m'.tape == m.tape && m'.dp == m.dp && m'.output == m.output && m'.parens == m.parens
      && m'.current == Cursor.Advance(m.src, m.current).next
      && (m.src[m.current] == Open ==> m'.looping && m'.innerLoops == m.innerLoops + 1)
      && (m.src[m.current] == Close && m.innerLoops == 0 ==> !m'.looping && m'.innerLoops == 0)
      && (m.src[m.current] == Close && m.innerLoops > 0 ==> m'.looping && m'.innerLoops == m.innerLoops - 1)
      && (m.src[m.current] != Open && m.src[m.current] != Close ==>
            m'.looping && m'.innerLoops == m.innerLoops)
  {
  }

  /** Everything except the cursor, as seen by the instruction lemmas. */
  ghost predicate SameExceptCursor(m: Machine, m': Machine)
  {
    m'.tape == m.tape && m'.dp == m.dp && m'.src == m.src && m'.output == m.output
    && m'.parens == m.parens && m'.innerLoops == m.innerLoops && m'.looping == m.looping
  }

  /** A non-skipping step on an unfinished program dispatches the byte under
      the cursor; the cursor itself moves as one advance says (except for a
      `]` that jumps back). */
  ghost predicate Dispatches(m: Machine, inst: byte)
  {
    Inv(m) && |m.src| > 0 && !m.looping && !Cursor.Finished(m.src, m.current)
    && m.src[m.current] == inst
  }

  /** `+` and `-` change exactly the addressed cell, modulo 256; a pointer
      one past the tape aborts. */
  lemma CellStep(m: Machine, inst: byte)
    requires Dispatches(m, inst) && (inst == Plus || inst == Minus)
    ensures m.dp == TapeLen ==> Step(m) == Panic(OffTape)
    ensures m.dp < TapeLen ==> (Step(m).Ok? &&
      var m' := Step(m).m;
      && |m'.tape| == TapeLen
      && (inst == Plus ==> m'.tape[m.dp] as int == (m.tape[m.dp] as int + 1) % 256)
      && (inst == Minus ==> m'.tape[m.dp] as int == (m.tape[m.dp] as int + 255) % 256)
      && (forall k :: 0 <= k < TapeLen && k != m.dp ==> m'.tape[k] == m.tape[k])
      && SameExceptCursor(m, m'.(tape := m.tape))
      && m'.current == Cursor.Advance(m.src, m.current).next)
  {
  }

  /** `>` and `<` move the pointer with wrap-around and change nothing else;
      the pointer stays within 0 .. TapeLen. */
  lemma MoveStep(m: Machine, inst: byte)
    requires Dispatches(m, inst) && (inst == Right || inst == Left)
    ensures Step(m).Ok?
    ensures var m' := Step(m).m;
      && (inst == Right ==> m'.dp == if m.dp < TapeLen then m.dp + 1 else 0)
      && (inst == Left ==> m'.dp == if m.dp != 0 then m.dp - 1 else TapeLen)
      && m'.dp <= TapeLen
      && SameExceptCursor(m, m'.(dp := m.dp))
      && m'.current == Cursor.Advance(m.src, m.current).next
  {
  }

  /** `[` on a zero cell enters skip mode and pushes nothing; on a non-zero
      cell it pushes exactly the position of this `[`. */
  lemma {:induction false} OpenStep(m: Machine)
    requires Dispatches(m, Open)
    ensures m.dp == TapeLen ==> Step(m) == Panic(OffTape)
    ensures m.dp < TapeLen ==> (Step(m).Ok? &&
      var m' := Step(m).m;
      && m'.current == Cursor.Advance(m.src, m.current).next
      && (m.tape[m.dp] == 0 ==> m'.looping && m'.innerLoops == 0 && m'.parens == m.parens)
      && (m.tape[m.dp] != 0 ==> !m'.looping && m'.parens == m.parens + [m.current])
      && m'.tape == m.tape && m'.dp == m.dp && m'.output == m.output)
  {
    Cursor.ScanBackFindsConsumed(m.src, m.current);
  }

  /** `]` removes exactly one loop-stack entry; on a non-zero cell the cursor
      jumps back to that entry (the `[` itself, which is dispatched again);
      an empty stack aborts in both cases. */
  lemma CloseStep(m: Machine)
    requires Dispatches(m, Close)
    ensures m.dp == TapeLen ==> Step(m) == Panic(OffTape)
    ensures m.dp < TapeLen && m.parens == [] ==> Step(m) == Panic(UnmatchedClose)
    ensures m.dp < TapeLen && m.parens != [] ==> (Step(m).Ok? &&
      var m' := Step(m).m;
      && m'.parens == m.parens[..|m.parens| - 1]
      && (m.tape[m.dp] != 0 ==> m'.current == m.parens[|m.parens| - 1] && m.src[m'.current] == Open)
      && (m.tape[m.dp] == 0 ==> m'.current == Cursor.Advance(m.src, m.current).next)
      && m'.tape == m.tape && m'.dp == m.dp && m'.output == m.output && !m'.looping)
  {
  }

  /** `.` appends exactly the value of the addressed cell to the output. */
  lemma DotStep(m: Machine)
    requires Dispatches(m, Dot)
    ensures m.dp == TapeLen ==> Step(m) == Panic(OffTape)
    ensures m.dp < TapeLen ==> (Step(m).Ok? &&
      var m' := Step(m).m;
      && m'.output == m.output + [m.tape[m.dp]]
      && SameExceptCursor(m, m'.(output := m.output))
      && m'.current == Cursor.Advance(m.src, m.current).next)
  {
  }

  /** `,`, `#` and every inert byte only move the cursor. */
  lemma InertStep(m: Machine, inst: byte)
    requires Dispatches(m, inst)
    requires inst !in [Plus, Minus, Right, Left, Open, Close, Dot]
    ensures Step(m).Ok?
    ensures SameExceptCursor(m, Step(m).m)
    ensures Step(m).m.current == Cursor.Advance(m.src, m.current).next
  {
  }

  /** On a finished program a non-skipping step is a no-op: the last byte of
      the source is never dispatched. */
  lemma FinishedStepIsNoop(m: Machine)
    requires Inv(m) && |m.src| > 0 && !m.looping && Cursor.Finished(m.src, m.current)
    ensures Step(m) == Ok(m)
  {
  }

  // ---------------------------------------------------------------------
  // Properties of whole runs

  /** A step never shortens the output and adds at most one code. */
  lemma StepExtendsOutput(m: Machine)
    requires Inv(m)
    ensures Step(m).Ok? ==>
      var out := Step(m).m.output;
      m.output <= out && |out| <= |m.output| + 1 && Step(m).m.src == m.src
  {
  }

  /** A run never shortens the output. */
  lemma {:induction false} RunExtendsOutput(m: Machine, fuel: nat)
    requires Inv(m)
    ensures Run(m, fuel).Halted? || Run(m, fuel).OutOfFuel? ==> m.output <= Run(m, fuel).m.output
    decreases fuel
  {
    if |m.src| > 0 && !Cursor.Finished(m.src, m.current) && m.src[m.current] != Hash && fuel > 0 {
      RunUnfolds(m, fuel);
      StepExtendsOutput(m);
      if Step(m).Ok? {
        RunExtendsOutput(Step(m).m, fuel - 1);
      }
    }
  }

  /** A run of `k` consecutive `+` bytes, followed by a recognised
      instruction, adds `k` to the addressed cell modulo 256 in `k` steps. */
  /** One `+` followed by a recognised instruction, as a step of a run. */
  lemma PlusRuns(m: Machine, fuel: nat)
    requires Inv(m) && !m.looping && m.dp < TapeLen && fuel >= 1
    requires m.current + 1 < |m.src| && m.src[m.current] == Plus && Legal(m.src[m.current + 1])
    ensures var m1 := m.(tape := m.tape[m.dp := WrappingInc(m.tape[m.dp])], current := m.current + 1);
      Inv(m1) && Run(m, fuel) == Run(m1, fuel - 1)
  {
    assert Cursor.SkipInert(m.src, m.current + 1) == m.current + 1;
    assert Step(m) == Ok(m.(tape := m.tape[m.dp := WrappingInc(m.tape[m.dp])], current := m.current + 1));
    RunUnfolds(m, fuel);
  }

  lemma {:induction false} PlusesAddUp(m: Machine, k: nat, fuel: nat)
    requires Inv(m) && !m.looping && m.dp < TapeLen && fuel >= k
    requires m.current + k < |m.src| && Legal(m.src[m.current + k])
    requires forall i :: m.current <= i < m.current + k ==> m.src[i] == Plus
    ensures Run(m, fuel) == Run(m.(tape := m.tape[m.dp := IncTimes(m.tape[m.dp], k)], current := m.current + k), fuel - k)
    decreases k
  {
    if k == 0 {
      assert m.tape[m.dp := m.tape[m.dp]] == m.tape;
      assert m.(tape := m.tape, current := m.current) == m;
    } else {
      var m1 := m.(tape := m.tape[m.dp := WrappingInc(m.tape[m.dp])], current := m.current + 1);
      assert Legal(m.src[m.current + 1]);
      PlusRuns(m, fuel);
      PlusesAddUp(m1, k - 1, fuel - 1);
      assert m1.tape[m.dp] == IncTimes(m.tape[m.dp], 1);
      IncTimesAdd(m.tape[m.dp], 1, k - 1);
      assert m1.tape[m.dp := IncTimes(m1.tape[m.dp], k - 1)] == m.tape[m.dp := IncTimes(m.tape[m.dp], k)];
    }
  }

  /** A step that starts before a `#` at position `h`, and not on it, ends at
      or before `h`: advancing stops on the first legal byte and a jump only
      goes back. */
  lemma StepStaysBeforeHash(m: Machine, h: nat)
    requires Inv(m) && h < |m.src| && m.src[h] == Hash
    requires m.current <= h && m.src[m.current] != Hash
    ensures Step(m).Ok? ==> Step(m).m.current <= h
  {
    assert Legal(m.src[h]);
    if |m.src| > 0 && !Cursor.Finished(m.src, m.current) {
      assert Cursor.Advance(m.src, m.current).next <= h;
    }
  }

  /** A run started at or before a `#` at position `h` never moves the cursor
      past it, so no byte after it is ever dispatched. */
  lemma {:induction false} RunStopsAtHash(m: Machine, fuel: nat, h: nat)
    requires Inv(m) && h < |m.src| && m.src[h] == Hash && m.current <= h
    ensures Run(m, fuel).Halted? || Run(m, fuel).OutOfFuel? ==> Run(m, fuel).m.current <= h
    decreases fuel
  {
    if !Cursor.Finished(m.src, m.current) && m.src[m.current] != Hash && fuel > 0 {
      RunUnfolds(m, fuel);
      StepStaysBeforeHash(m, h);
      if Step(m).Ok? {
        RunStopsAtHash(Step(m).m, fuel - 1, h);
      }
    }
  }
}
