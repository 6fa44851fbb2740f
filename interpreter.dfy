/** The execution engine as an object: a 30,000-cell array updated in place,
    the loop stack and output as sequences the methods reassign. Each method
    is proved to do what the functions of module Semantics say. */
module Engine {
  import opened Bytes
  import opened Tape
  import Cursor
  import Semantics

  datatype StepStatus = Stepped | Panicked(fault: Semantics.Fault)

  datatype RunStatus = Halted | OutOfFuel | Crashed(fault: Semantics.Fault)

  function StepStatusOf(o: Semantics.Outcome): StepStatus
  {
    match o
    case Ok(_) => Stepped
    case Panic(f) => Panicked(f)
  }

  function RunStatusOf(e: Semantics.Execution): RunStatus
  {
    match e
    case Halted(_) => Halted
    case OutOfFuel(_) => OutOfFuel
    case Crashed(f) => Crashed(f)
  }

  /** One step taken inside a run: an abort ends the specification run with
      the same fault, and otherwise the run goes on from the new state with
      one step less. */
  lemma StepWithinRun(before: Semantics.Machine, after: Semantics.Machine, status: StepStatus, budget: nat)
    requires Semantics.Inv(before) && |before.src| > 0 && budget > 0
    requires !Cursor.Finished(before.src, before.current) && before.src[before.current] != Hash
    requires status == StepStatusOf(Semantics.Step(before))
    requires status.Stepped? ==> after == Semantics.Step(before).m
    ensures status.Panicked? ==> Semantics.Run(before, budget) == Semantics.Crashed(status.fault)
    ensures status.Stepped? ==> Semantics.Inv(after) && Semantics.Run(before, budget) == Semantics.Run(after, budget - 1)
  {
    Semantics.RunUnfolds(before, budget);
  }

  /** A slice of the tape and the data pointer relative to its start, or the
      abort of reading a cell at index 30,000 or beyond. */
  datatype Window = Window(cells: seq<byte>, offset: usize) | WindowOffTape

  class Interpreter {
    const tape: array<byte>
    var dataPointer: nat
    const src: seq<byte>
    var output: seq<byte>
    var current: nat
    var parens: seq<nat>
    var innerLoops: nat
    var looping: bool

    /** The engine's state as a value. */
    ghost function Snapshot(): Semantics.Machine
      reads this, tape
    {
      Semantics.Machine(tape[..], dataPointer, src, output, current, parens, innerLoops, looping)
    }

    ghost predicate Valid()
      reads this, tape
    {
      Semantics.Inv(Snapshot())
    }

    constructor (source: seq<byte>)
      ensures Valid() && fresh(tape)
      ensures Snapshot() == Semantics.Initial(source)
    {
      tape := new byte[TapeLen](_ => 0);
      dataPointer := 0;
      src := source;
      current := 0;
      parens := [];
      output := [];
      innerLoops := 0;
      looping := false;
      new;
      assert tape[..] == seq(TapeLen, _ => 0);
    }

    /** True when the cursor rests on the last byte of the source. */
    predicate Finished()
      reads this
      requires |src| > 0
    {
      Cursor.Finished(src, current)
    }

    /** The source byte at `index`; reading past the end aborts in the
        original, so it is excluded here. */
    function PeekInst(index: nat): byte
      reads this
      requires index < |src|
    {
      src[index]
    }

    /** The byte under the cursor. */
    function CurrentInstruction(): byte
      reads this
      requires current < |src|
    {
      PeekInst(current)
    }

    /** The addressed cell; at data pointer 30,000 the original aborts, and
        Dispatch reports that before calling this. */
    function PeekCell(): byte
      reads this, tape
      requires dataPointer < tape.Length
    {
      tape[dataPointer]
    }

    /** The source and the cursor position, for highlighting. */
    function SourceWithCursor(): (r: (seq<byte>, nat))
      reads this, tape
      requires Valid()
      ensures r.0 == src
      ensures |src| > 0 ==> r.1 < |r.0|
      ensures 0 < r.1 ==> r.1 < |r.0| && (Legal(r.0[r.1]) || r.1 == |r.0| - 1)
    {
      (src, current)
    }

    /** Steps until the program is finished or the cursor is on a `#`, at
        most `fuel` times. */
    method Run(fuel: nat) returns (status: RunStatus)
      requires Valid()
      modifies this, tape
      ensures status == RunStatusOf(Semantics.Run(old(Snapshot()), fuel))
      ensures !status.Crashed? ==> Valid() && Snapshot() == Semantics.Run(old(Snapshot()), fuel).m
    {
      if |src| == 0 {
        return Crashed(Semantics.EmptySource);
      }
      var budget := fuel;
      ghost var goal := Semantics.Run(old(Snapshot()), fuel);
      while !Finished() && CurrentInstruction() != Hash
        invariant Valid()
        invariant Semantics.Run(Snapshot(), budget) == goal
        decreases budget
      {
        if budget == 0 {
          return OutOfFuel;
        }
        ghost var before := Snapshot();
        var s := Step();
        StepWithinRun(before, Snapshot(), s, budget);
        if s.Panicked? {
          return Crashed(s.fault);
        }
        budget := budget - 1;
      }
      return Halted;
    }

    /** Executes one step. */
    method Step() returns (status: StepStatus)
      requires Valid()
      modifies this, tape
      ensures status == StepStatusOf(Semantics.Step(old(Snapshot())))
      ensures status.Stepped? ==> Valid() && Snapshot() == Semantics.Step(old(Snapshot())).m
    {
      if |src| == 0 {
        return Panicked(Semantics.EmptySource);
      }
      Semantics.StepPreservesInv(Snapshot());
      if looping {
        if CurrentInstruction() == Open {
          innerLoops := innerLoops + 1;
        }
        if CurrentInstruction() == Close {
          if innerLoops == 0 {
            looping := false;
          } else {
            innerLoops := innerLoops - 1;
          }
        }
        var _ := Advance();
        return Stepped;
      }
      ghost var at := current;
      var inst := Advance();
      status := Dispatch(inst, at);
    }

    /** Carries out the instruction `inst`, consumed at position `at`. */
    method Dispatch(inst: byte, ghost at: nat) returns (status: StepStatus)
      requires tape.Length == TapeLen && current <= |src|
      requires inst == Open ==> at < current && src[at] == Open
      modifies this, tape
      ensures status == StepStatusOf(Semantics.Dispatch(old(Snapshot()), inst, at))
      ensures status.Stepped? ==> Snapshot() == Semantics.Dispatch(old(Snapshot()), inst, at).m
    {
      if inst == Right {
        if dataPointer < TapeLen {
          dataPointer := dataPointer + 1;
        } else {
          dataPointer := 0;
        }
      } else if inst == Left {
        if dataPointer != 0 {
          dataPointer := dataPointer - 1;
        } else {
          dataPointer := TapeLen;
        }
      } else if inst == Plus {
        if dataPointer >= tape.Length {
          return Panicked(Semantics.OffTape);
        }
        tape[dataPointer] := WrappingInc(PeekCell());
      } else if inst == Minus {
        if dataPointer >= tape.Length {
          return Panicked(Semantics.OffTape);
        }
        tape[dataPointer] := WrappingDec(PeekCell());
      } else if inst == Open {
        if dataPointer >= tape.Length {
          return Panicked(Semantics.OffTape);
        }
        if PeekCell() == 0 {
          looping := true;
        } else {
          assert Legal(src[at]);
          var site := LastLegalInst();
          parens := parens + [site];
        }
      } else if inst == Close {
        if dataPointer >= tape.Length {
          return Panicked(Semantics.OffTape);
        }
        if parens == [] {
          return Panicked(Semantics.UnmatchedClose);
        }
        if PeekCell() != 0 {
          current := parens[|parens| - 1];
        }
        parens := parens[..|parens| - 1];
      } else if inst == Dot {
        if dataPointer >= tape.Length {
          return Panicked(Semantics.OffTape);
        }
        output := output + [PeekCell()];
      } else if inst == Comma {
        // input is not implemented: no effect
      }
      return Stepped;
    }

    /** Hands out the byte under the cursor and moves the cursor to the next
        recognised instruction or the last byte; at the end, hands out Nul. */
    method Advance() returns (inst: byte)
      requires current < |src|
      modifies this`current
      ensures Cursor.Advance(src, old(current)) == Cursor.Fetched(inst, current)
    {
      if Finished() {
        return Nul;
      }
      inst := CurrentInstruction();
      current := current + 1;
      while !Legal(CurrentInstruction()) && !Finished()
        invariant old(current) < current < |src|
        invariant Cursor.SkipInert(src, current) == Cursor.SkipInert(src, old(current) + 1)
        decreases |src| - current
      {
        current := current + 1;
      }
    }

    /** The position of the nearest recognised instruction before the cursor. */
    method LastLegalInst() returns (r: nat)
      requires current <= |src|
      requires exists k :: 0 <= k < current && Legal(src[k])
      ensures r == Cursor.LastLegalBefore(src, current)
      ensures r < current && Legal(src[r])
      ensures forall k :: r < k < current ==> !Legal(src[k])
    {
      r := current - 1;
      while !Legal(PeekInst(r))
        invariant r < current
        invariant exists k :: 0 <= k <= r && Legal(src[k])
        invariant Cursor.LastLegalBefore(src, r + 1) == Cursor.LastLegalBefore(src, current)
        decreases r
      {
        r := r - 1;
      }
    }

    /** The cells from `from` up to (not including) `to`, and the data
        pointer's offset from `from` modulo 2^64. */
    method GetRangeFromTape(from: usize, to: usize) returns (w: Window)
      requires Valid()
      ensures w.WindowOffTape? <==> from < to && to as int > TapeLen
      ensures w.Window? ==>
        && w.cells == (if from < to then tape[from..to] else [])
        && (w.offset as int + from as int) % UsizeModulus == dataPointer
    {
      var cells := [];
      var i := from as int;
      while i < to as int
        invariant from as int <= i
        invariant i <= to as int || i == from as int
        invariant i > from as int ==> i <= tape.Length && cells == tape[from..i]
        invariant i == from as int ==> cells == []
      {
        if i >= tape.Length {
          return WindowOffTape;
        }
        cells := cells + [tape[i]];
        i := i + 1;
      }
      return Window(cells, WrappingSub(dataPointer as usize, from));
    }
  }
}
