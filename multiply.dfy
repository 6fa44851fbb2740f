/** The program `++++++++[>++++++++<-]>.`: it puts 8 in cell 0, adds 8 to
    cell 1 once per trip round the loop (8 trips, so cell 1 ends at 64),
    moves to cell 1 and has a `.` to print it. Because a program is finished
    as soon as the cursor rests on its last byte, that final `.` is never
    dispatched and nothing is printed; followed by a `#`, the same program
    prints the code 64. */
module Multiply {
  import opened Bytes
  import opened Tape
  import Cursor
  import opened Semantics

  /** Eight `+` in a row. */
  const Eight: seq<byte> := seq(8, _ => Plus)

  /** `++++++++[>++++++++<-]>.`: the `[` is at 8, the inner `+` run at 10 .. 17,
      the `]` at 20 and the `.` at 22. */
  const Program: seq<byte> := Eight + [Open, Right] + Eight + [Left, Minus, Close, Right, Dot]

  /** A zero tape. */
  const Zero: seq<byte> := seq(TapeLen, _ => 0)

  /** A state of a source that starts with Program, with nothing printed,
      not skipping. */
  function At(src: seq<byte>, tape: seq<byte>, dp: nat, cur: nat, parens: seq<nat>): Machine
  {
    Machine(tape, dp, src, [], cur, parens, 0, false)
  }

  /** The bytes of Program, one by one, as any source starting with it has them. */
  lemma Layout(src: seq<byte>)
    requires Program <= src
    ensures |src| >= 23
    ensures forall i :: 0 <= i < 8 ==> src[i] == Plus
    ensures src[8] == Open && src[9] == Right
    ensures forall i :: 10 <= i < 18 ==> src[i] == Plus
    ensures src[18] == Left && src[19] == Minus && src[20] == Close && src[21] == Right && src[22] == Dot
  {
    assert |Program| == 23;
    assert forall i :: 0 <= i < 23 ==> src[i] == Program[i];
  }

  /** The first eight `+` set cell 0 to 8. */
  lemma Prelude(src: seq<byte>, fuel: nat)
    requires Program <= src && fuel >= 8
    ensures Run(Initial(src), fuel) == Run(At(src, Zero[0 := 8], 0, 8, []), fuel - 8)
  {
    Layout(src);
    PlusesAddUp(Initial(src), 8, fuel);
    IncTimesNoWrap(0, 8);
  }

  /** On a non-zero cell 0 the `[` pushes its own position 8. */
  lemma EnterLoop(src: seq<byte>, t: seq<byte>, fuel: nat)
    requires Program <= src && |t| == TapeLen && t[0] != 0 && fuel >= 1
    ensures Run(At(src, t, 0, 8, []), fuel) == Run(At(src, t, 0, 9, [8]), fuel - 1)
  {
    Layout(src);
    assert Cursor.SkipInert(src, 9) == 9;
    Cursor.ScanBackFindsConsumed(src, 8);
    assert Step(At(src, t, 0, 8, [])) == Ok(At(src, t, 0, 9, [8]));
    RunUnfolds(At(src, t, 0, 8, []), fuel);
  }

  /** The `>` inside the loop moves to cell 1. */
  lemma ToCellOne(src: seq<byte>, t: seq<byte>, fuel: nat)
    requires Program <= src && |t| == TapeLen && fuel >= 1
    ensures Run(At(src, t, 0, 9, [8]), fuel) == Run(At(src, t, 1, 10, [8]), fuel - 1)
  {
    Layout(src);
    assert Cursor.SkipInert(src, 10) == 10;
    assert Inv(At(src, t, 0, 9, [8]));
    assert Step(At(src, t, 0, 9, [8])) == Ok(At(src, t, 1, 10, [8]));
    RunUnfolds(At(src, t, 0, 9, [8]), fuel);
  }

  /** The eight inner `+` add 8 to cell 1. */
  lemma AddEight(src: seq<byte>, t: seq<byte>, fuel: nat)
    requires Program <= src && |t| == TapeLen && fuel >= 8
    ensures Run(At(src, t, 1, 10, [8]), fuel) == Run(At(src, t[1 := IncTimes(t[1], 8)], 1, 18, [8]), fuel - 8)
  {
    Layout(src);
    assert Inv(At(src, t, 1, 10, [8]));
    PlusesAddUp(At(src, t, 1, 10, [8]), 8, fuel);
  }

  /** `<-` goes back to cell 0 and decrements it. */
  lemma CountDown(src: seq<byte>, t: seq<byte>, fuel: nat)
    requires Program <= src && |t| == TapeLen && fuel >= 2
    ensures Run(At(src, t, 1, 18, [8]), fuel) == Run(At(src, t[0 := WrappingDec(t[0])], 0, 20, [8]), fuel - 2)
  {
    Layout(src);
    assert Cursor.SkipInert(src, 19) == 19;
    assert Cursor.SkipInert(src, 20) == 20;
    assert Inv(At(src, t, 1, 18, [8]));
    assert Step(At(src, t, 1, 18, [8])) == Ok(At(src, t, 0, 19, [8]));
    RunUnfolds(At(src, t, 1, 18, [8]), fuel);
    assert Inv(At(src, t, 0, 19, [8]));
    assert Step(At(src, t, 0, 19, [8])) == Ok(At(src, t[0 := WrappingDec(t[0])], 0, 20, [8]));
    RunUnfolds(At(src, t, 0, 19, [8]), fuel - 1);
  }

  /** The `]` pops the loop stack and jumps back to the `[` while cell 0 is
      non-zero, and otherwise goes on to the final `>`. */
  lemma CloseLoop(src: seq<byte>, t: seq<byte>, fuel: nat)
    requires Program <= src && |t| == TapeLen && fuel >= 1
    ensures Run(At(src, t, 0, 20, [8]), fuel) == Run(At(src, t, 0, if t[0] != 0 then 8 else 21, []), fuel - 1)
  {
    Layout(src);
    assert Cursor.SkipInert(src, 21) == 21;
    assert Step(At(src, t, 0, 20, [8])) == Ok(At(src, t, 0, if t[0] != 0 then 8 else 21, []));
    RunUnfolds(At(src, t, 0, 20, [8]), fuel);
  }

  /** One trip round the loop takes 13 steps: cell 1 gains 8 and cell 0
      loses 1. */
  lemma Trip(src: seq<byte>, t: seq<byte>, fuel: nat)
    requires Program <= src && |t| == TapeLen && t[0] != 0 && fuel >= 13
    ensures var t' := t[1 := IncTimes(t[1], 8)][0 := WrappingDec(t[0])];
      Run(At(src, t, 0, 8, []), fuel) == Run(At(src, t', 0, if t'[0] != 0 then 8 else 21, []), fuel - 13)
  {
    var t1 := t[1 := IncTimes(t[1], 8)];
    EnterLoop(src, t, fuel);
    ToCellOne(src, t, fuel - 1);
    AddEight(src, t, fuel - 2);
    CountDown(src, t1, fuel - 10);
    assert t1[0] == t[0];
    CloseLoop(src, t1[0 := WrappingDec(t[0])], fuel - 12);
  }

  /** The whole loop, entered with cell 0 = a > 0: after 13a steps cell 0 is
      0, cell 1 has gained 8a (modulo 256) and the cursor is past the `]`. */
  lemma {:induction false} Loop(src: seq<byte>, t: seq<byte>, fuel: nat)
    requires Program <= src && |t| == TapeLen && t[0] != 0
    requires fuel >= 13 * t[0] as nat
    ensures Run(At(src, t, 0, 8, []), fuel)
         == Run(At(src, t[0 := 0][1 := IncTimes(t[1], 8 * t[0] as nat)], 0, 21, []), fuel - 13 * t[0] as nat)
    decreases t[0]
  {
    var t' := t[1 := IncTimes(t[1], 8)][0 := WrappingDec(t[0])];
    Trip(src, t, fuel);
    assert t'[0] as int == t[0] as int - 1;
    if t'[0] != 0 {
      Loop(src, t', fuel - 13);
      IncTimesAdd(t[1], 8, 8 * t'[0] as nat);
      assert t'[0 := 0][1 := IncTimes(t'[1], 8 * t'[0] as nat)]
          == t[0 := 0][1 := IncTimes(t[1], 8 * t[0] as nat)];
    } else {
      assert t' == t[0 := 0][1 := IncTimes(t[1], 8 * t[0] as nat)];
    }
  }

  /** The `>` after the loop moves to cell 1, onto the `.`. */
  lemma ToResult(src: seq<byte>, t: seq<byte>, fuel: nat)
    requires Program <= src && |t| == TapeLen && fuel >= 1
    ensures Run(At(src, t, 0, 21, []), fuel) == Run(At(src, t, 1, 22, []), fuel - 1)
  {
    Layout(src);
    assert Cursor.SkipInert(src, 22) == 22;
    assert Step(At(src, t, 0, 21, [])) == Ok(At(src, t, 1, 22, []));
    RunUnfolds(At(src, t, 0, 21, []), fuel);
  }

  /** Eight trips starting from cell 0 = 8 and cell 1 = 0 leave 64 in cell 1. */
  lemma SixtyFour(t: seq<byte>)
    requires |t| == TapeLen && t[0] == 8 && t[1] == 0
    ensures t[0 := 0][1 := IncTimes(t[1], 8 * t[0] as nat)] == t[0 := 0][1 := 64]
  {
    IncTimesNoWrap(t[1], 8 * t[0] as nat);
  }

  /** Setting cell 0 of a zero tape and clearing it again gives the zero tape. */
  lemma ClearedPrelude()
    ensures Zero[0 := 8][0 := 0] == Zero
  {
    assert forall i :: 0 <= i < TapeLen ==> Zero[0 := 8][0 := 0][i] == Zero[i];
  }

  /** Everything up to the last `>`: after 112 steps cell 1 holds 64, every
      other cell 0, and the cursor is on the `>` at 21. */
  lemma ReachesLastMove(src: seq<byte>, fuel: nat)
    requires Program <= src && fuel >= 112
    ensures Run(Initial(src), fuel) == Run(At(src, Zero[1 := 64], 0, 21, []), fuel - 112)
  {
    var t := Zero[0 := 8];
    var t' := t[0 := 0][1 := IncTimes(t[1], 8 * t[0] as nat)];
    Prelude(src, fuel);
    Loop(src, t, fuel - 8);
    assert t[0] == 8 && t[1] == 0;
    SixtyFour(t);
    ClearedPrelude();
    assert At(src, t', 0, 21, []) == At(src, Zero[1 := 64], 0, 21, []);
  }

  /** As written, the program prints nothing: the cursor reaches the `.`,
      which is the last byte, so the run halts without dispatching it. Cell 1
      holds 64. */
  lemma PrintsNothing(fuel: nat)
    requires fuel >= 113
    ensures Run(Initial(Program), fuel) == Halted(At(Program, Zero[1 := 64], 1, 22, []))
    ensures Run(Initial(Program), fuel).m.output == []
  {
    ReachesLastMove(Program, fuel);
    ToResult(Program, Zero[1 := 64], fuel - 112);
  }

  /** With a `#` after the `.`, the `.` is dispatched and the run prints
      exactly the code 64, then halts on the `#`. */
  lemma PrintsWithBreakpoint(fuel: nat)
    requires fuel >= 114
    ensures Run(Initial(Program + [Hash]), fuel)
         == Halted(At(Program + [Hash], Zero[1 := 64], 1, 23, []).(output := [64]))
    ensures Run(Initial(Program + [Hash]), fuel).m.output == [64]
  {
    var src := Program + [Hash];
    ReachesLastMove(src, fuel);
    ToResult(src, Zero[1 := 64], fuel - 112);
    Layout(src);
    assert Cursor.SkipInert(src, 23) == 23;
    var m := At(src, Zero[1 := 64], 1, 22, []);
    assert Step(m) == Ok(At(src, Zero[1 := 64], 1, 23, []).(output := [64]));
    RunUnfolds(m, fuel - 113);
  }
}
