/** Whole runs of small programs, following the engine's own rules. */
module Programs {
  import opened Bytes
  import opened Tape
  import Cursor
  import opened Semantics

  /** A freshly loaded program over a given tape and data pointer. */
  function Loaded(src: seq<byte>, tape: seq<byte>, dp: nat): (m: Machine)
    requires |tape| == TapeLen && dp <= TapeLen
    ensures Inv(m)
  {
    Machine(tape, dp, src, [], 0, [], 0, false)
  }

  /** The program `[-]#`. */
  const ClearProgram: seq<byte> := [Open, Minus, Close, Hash]

  /** The state of `[-]#` with the cursor at `cur`. */
  function ClearAt(tape: seq<byte>, dp: nat, cur: nat, parens: seq<nat>, looping: bool): Machine
  {
    Machine(tape, dp, ClearProgram, [], cur, parens, 0, looping)
  }

  lemma ClearSkipsBody(tape: seq<byte>, dp: nat)
    requires |tape| == TapeLen && dp < TapeLen && tape[dp] == 0
    ensures Inv(ClearAt(tape, dp, 0, [], false))
    ensures Step(ClearAt(tape, dp, 0, [], false)) == Ok(ClearAt(tape, dp, 1, [], true))
    ensures Step(ClearAt(tape, dp, 1, [], true)) == Ok(ClearAt(tape, dp, 2, [], true))
    ensures Step(ClearAt(tape, dp, 2, [], true)) == Ok(ClearAt(tape, dp, 3, [], false))
  {
    assert Cursor.SkipInert(ClearProgram, 1) == 1;
    assert Cursor.SkipInert(ClearProgram, 2) == 2;
    assert Cursor.SkipInert(ClearProgram, 3) == 3;
  }

  /** On a non-zero cell the `[` of `[-]#` pushes its own position 0. */
  lemma ClearEnters(tape: seq<byte>, dp: nat, fuel: nat)
    requires |tape| == TapeLen && dp < TapeLen && tape[dp] != 0 && fuel >= 1
    ensures Run(ClearAt(tape, dp, 0, [], false), fuel) == Run(ClearAt(tape, dp, 1, [0], false), fuel - 1)
  {
    assert ClearAt(tape, dp, 0, [], false) == Loaded(ClearProgram, tape, dp);
    assert Cursor.SkipInert(ClearProgram, 1) == 1;
    assert Legal(ClearProgram[0]);
    assert Cursor.LastLegalBefore(ClearProgram, 1) == 0;
    assert Step(ClearAt(tape, dp, 0, [], false)) == Ok(ClearAt(tape, dp, 1, [0], false));
    RunUnfolds(ClearAt(tape, dp, 0, [], false), fuel);
  }

  /** The `-` of `[-]#` decrements the cell modulo 256. */
  lemma ClearDecrements(tape: seq<byte>, dp: nat, fuel: nat)
    requires |tape| == TapeLen && dp < TapeLen && fuel >= 1
    ensures Run(ClearAt(tape, dp, 1, [0], false), fuel)
         == Run(ClearAt(tape[dp := WrappingDec(tape[dp])], dp, 2, [0], false), fuel - 1)
  {
    assert Cursor.SkipInert(ClearProgram, 2) == 2;
    assert Inv(ClearAt(tape, dp, 1, [0], false));
    RunUnfolds(ClearAt(tape, dp, 1, [0], false), fuel);
  }

  /** A run of `[-]#` that has reached the `#` halts there. */
  lemma ClearHalts(tape: seq<byte>, dp: nat, fuel: nat)
    requires |tape| == TapeLen && dp < TapeLen
    ensures Inv(ClearAt(tape, dp, 3, [], false))
    ensures Run(ClearAt(tape, dp, 3, [], false), fuel) == Halted(ClearAt(tape, dp, 3, [], false))
  {
  }

  /** `[-]#` on a zero cell skips the body and halts on `#` after 3 steps. */
  lemma ClearSkip(tape: seq<byte>, dp: nat, fuel: nat)
    requires |tape| == TapeLen && dp < TapeLen && tape[dp] == 0 && fuel >= 3
    ensures Run(ClearAt(tape, dp, 0, [], false), fuel) == Halted(ClearAt(tape, dp, 3, [], false))
  {
    ClearSkipsBody(tape, dp);
    RunUnfolds(ClearAt(tape, dp, 0, [], false), fuel);
    RunUnfolds(ClearAt(tape, dp, 1, [], true), fuel - 1);
    RunUnfolds(ClearAt(tape, dp, 2, [], true), fuel - 2);
    ClearHalts(tape, dp, fuel - 3);
  }

  /** `[-]#` at its `]`: a non-zero cell sends the cursor back to the `[`,
      a zero cell on to the `#`; either way in one step. */
  lemma ClearClose(tape: seq<byte>, dp: nat, fuel: nat)
    requires |tape| == TapeLen && dp < TapeLen && fuel >= 1
    ensures tape[dp] != 0 ==>
      Run(ClearAt(tape, dp, 2, [0], false), fuel) == Run(ClearAt(tape, dp, 0, [], false), fuel - 1)
    ensures tape[dp] == 0 ==>
      Run(ClearAt(tape, dp, 2, [0], false), fuel) == Run(ClearAt(tape, dp, 3, [], false), fuel - 1)
  {
    assert Cursor.SkipInert(ClearProgram, 3) == 3;
    assert Inv(ClearAt(tape, dp, 2, [0], false));
    RunUnfolds(ClearAt(tape, dp, 2, [0], false), fuel);
  }

  /** `[-]#`: clears the addressed cell through v trips round the loop, and
      skips the body outright when the cell is already 0. */
  lemma {:induction false} ClearLoop(tape: seq<byte>, dp: nat, fuel: nat)
    requires |tape| == TapeLen && dp < TapeLen
    requires fuel >= 3 * tape[dp] as nat + 3
    ensures Run(Loaded(ClearProgram, tape, dp), fuel)
         == Halted(ClearAt(tape[dp := 0], dp, 3, [], false))
    decreases tape[dp]
  {
    assert ClearAt(tape, dp, 0, [], false) == Loaded(ClearProgram, tape, dp);
    if tape[dp] == 0 {
      ClearSkip(tape, dp, fuel);
      assert tape[dp := 0] == tape;
    } else {
      var t' := tape[dp := WrappingDec(tape[dp])];
      ClearEnters(tape, dp, fuel);
      ClearDecrements(tape, dp, fuel - 1);
      ClearClose(t', dp, fuel - 2);
      assert t'[dp := 0] == tape[dp := 0];
      if t'[dp] != 0 {
        assert ClearAt(t', dp, 0, [], false) == Loaded(ClearProgram, t', dp);
        ClearLoop(t', dp, fuel - 3);
      } else {
        ClearHalts(t', dp, fuel - 3);
        assert t' == tape[dp := 0];
      }
    }
  }

  /** The program `[[-]-]#`. */
  const NestedProgram: seq<byte> := [Open, Open, Minus, Close, Minus, Close, Hash]

  function NestedAt(tape: seq<byte>, dp: nat, cur: nat, inner: nat, looping: bool): Machine
  {
    Machine(tape, dp, NestedProgram, [], cur, [], inner, looping)
  }

  /** `[[-]-]#`: the outer `[` on a zero cell enters skip mode. */
  lemma NestedEntersSkip(tape: seq<byte>, dp: nat, fuel: nat)
    requires |tape| == TapeLen && dp < TapeLen && tape[dp] == 0 && fuel >= 1
    ensures Run(NestedAt(tape, dp, 0, 0, false), fuel) == Run(NestedAt(tape, dp, 1, 0, true), fuel - 1)
  {
    assert NestedAt(tape, dp, 0, 0, false) == Loaded(NestedProgram, tape, dp);
    assert Cursor.SkipInert(NestedProgram, 1) == 1;
    assert Step(NestedAt(tape, dp, 0, 0, false)) == Ok(NestedAt(tape, dp, 1, 0, true));
    RunUnfolds(NestedAt(tape, dp, 0, 0, false), fuel);
  }

  /** `[[-]-]#`: skipping, the inner `[` deepens the nesting. */
  lemma NestedDeepens(tape: seq<byte>, dp: nat, fuel: nat)
    requires |tape| == TapeLen && dp < TapeLen && fuel >= 1
    ensures Run(NestedAt(tape, dp, 1, 0, true), fuel) == Run(NestedAt(tape, dp, 2, 1, true), fuel - 1)
  {
    assert Cursor.SkipInert(NestedProgram, 2) == 2;
    assert Inv(NestedAt(tape, dp, 1, 0, true));
    assert Step(NestedAt(tape, dp, 1, 0, true)) == Ok(NestedAt(tape, dp, 2, 1, true));
    RunUnfolds(NestedAt(tape, dp, 1, 0, true), fuel);
  }

  /** `[[-]-]#`: skipping, the inner `-` is passed over. */
  lemma NestedPassesInnerBody(tape: seq<byte>, dp: nat, fuel: nat)
    requires |tape| == TapeLen && dp < TapeLen && fuel >= 1
    ensures Run(NestedAt(tape, dp, 2, 1, true), fuel) == Run(NestedAt(tape, dp, 3, 1, true), fuel - 1)
  {
    assert Cursor.SkipInert(NestedProgram, 3) == 3;
    assert Inv(NestedAt(tape, dp, 2, 1, true));
    assert Step(NestedAt(tape, dp, 2, 1, true)) == Ok(NestedAt(tape, dp, 3, 1, true));
    RunUnfolds(NestedAt(tape, dp, 2, 1, true), fuel);
  }

  /** `[[-]-]#`: skipping, the inner `]` only closes the inner loop. */
  lemma NestedClosesInner(tape: seq<byte>, dp: nat, fuel: nat)
    requires |tape| == TapeLen && dp < TapeLen && fuel >= 1
    ensures Run(NestedAt(tape, dp, 3, 1, true), fuel) == Run(NestedAt(tape, dp, 4, 0, true), fuel - 1)
  {
    assert Cursor.SkipInert(NestedProgram, 4) == 4;
    assert Inv(NestedAt(tape, dp, 3, 1, true));
    assert Step(NestedAt(tape, dp, 3, 1, true)) == Ok(NestedAt(tape, dp, 4, 0, true));
    RunUnfolds(NestedAt(tape, dp, 3, 1, true), fuel);
  }

  /** `[[-]-]#`: skipping, the outer `-` is passed over. */
  lemma NestedPassesOuterBody(tape: seq<byte>, dp: nat, fuel: nat)
    requires |tape| == TapeLen && dp < TapeLen && fuel >= 1
    ensures Run(NestedAt(tape, dp, 4, 0, true), fuel) == Run(NestedAt(tape, dp, 5, 0, true), fuel - 1)
  {
    assert Cursor.SkipInert(NestedProgram, 5) == 5;
    assert Inv(NestedAt(tape, dp, 4, 0, true));
    assert Step(NestedAt(tape, dp, 4, 0, true)) == Ok(NestedAt(tape, dp, 5, 0, true));
    RunUnfolds(NestedAt(tape, dp, 4, 0, true), fuel);
  }

  /** `[[-]-]#`: the outer `]` at depth 0 leaves skip mode. */
  lemma NestedLeavesSkip(tape: seq<byte>, dp: nat, fuel: nat)
    requires |tape| == TapeLen && dp < TapeLen && fuel >= 1
    ensures Run(NestedAt(tape, dp, 5, 0, true), fuel) == Run(NestedAt(tape, dp, 6, 0, false), fuel - 1)
  {
    assert Cursor.SkipInert(NestedProgram, 6) == 6;
    assert Inv(NestedAt(tape, dp, 5, 0, true));
    assert Step(NestedAt(tape, dp, 5, 0, true)) == Ok(NestedAt(tape, dp, 6, 0, false));
    RunUnfolds(NestedAt(tape, dp, 5, 0, true), fuel);
  }

  /** `[[-]-]#` on a zero cell skips the whole nested structure: the inner
      `]` only closes the inner loop, no `-` runs and the tape is unchanged. */
  lemma NestedSkip(tape: seq<byte>, dp: nat, fuel: nat)
    requires |tape| == TapeLen && dp < TapeLen && tape[dp] == 0
    requires fuel >= 6
    ensures Run(Loaded(NestedProgram, tape, dp), fuel) == Halted(NestedAt(tape, dp, 6, 0, false))
  {
    assert NestedAt(tape, dp, 0, 0, false) == Loaded(NestedProgram, tape, dp);
    NestedEntersSkip(tape, dp, fuel);
    NestedDeepens(tape, dp, fuel - 1);
    NestedPassesInnerBody(tape, dp, fuel - 2);
    NestedClosesInner(tape, dp, fuel - 3);
    NestedPassesOuterBody(tape, dp, fuel - 4);
    NestedLeavesSkip(tape, dp, fuel - 5);
    assert Inv(NestedAt(tape, dp, 6, 0, false));
  }

  /** `+#+#`: the run stops on the first `#`, so the second `+`, which a run
      without that breakpoint would dispatch, never runs. */
  lemma HashStopsRun(tape: seq<byte>, dp: nat, fuel: nat)
    requires |tape| == TapeLen && dp < TapeLen && fuel >= 1
    ensures var m := Loaded([Plus, Hash, Plus, Hash], tape, dp);
      Run(m, fuel) == Halted(m.(tape := tape[dp := WrappingInc(tape[dp])], current := 1))
  {
    var m := Loaded([Plus, Hash, Plus, Hash], tape, dp);
    assert Cursor.SkipInert(m.src, 1) == 1;
    RunUnfolds(m, fuel);
  }

  /** `]#`: a `]` with nothing on the loop stack aborts the run. */
  lemma UnmatchedCloseAborts(tape: seq<byte>, dp: nat, fuel: nat)
    requires |tape| == TapeLen && dp < TapeLen && fuel >= 1
    ensures Run(Loaded([Close, Hash], tape, dp), fuel) == Crashed(UnmatchedClose)
  {
    RunUnfolds(Loaded([Close, Hash], tape, dp), fuel);
  }

  /** `<+#` from cell 0: the pointer wraps to 30,000, one past the last cell,
      and the `+` there aborts the run. */
  lemma LeftFromZeroLeavesTape(tape: seq<byte>, fuel: nat)
    requires |tape| == TapeLen && fuel >= 2
    ensures Run(Loaded([Left, Plus, Hash], tape, 0), fuel) == Crashed(OffTape)
  {
    var m := Loaded([Left, Plus, Hash], tape, 0);
    assert Cursor.SkipInert(m.src, 1) == 1;
    assert Cursor.SkipInert(m.src, 2) == 2;
    RunUnfolds(m, fuel);
    var m1 := m.(dp := TapeLen, current := 1);
    assert Step(m) == Ok(m1);
    RunUnfolds(m1, fuel - 1);
  }
}
