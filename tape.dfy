/** The data pointer and its wrap-around rule over the 30,000-cell tape. */
module Tape {

  /** Number of cells; valid cell indices are 0 .. TapeLen - 1. */
  const TapeLen: nat := 30000

  /** `>`: one step right, wrapping to 0 only from TapeLen or beyond, so
      TapeLen itself (one past the last cell) is reachable. */
  function MoveRight(dp: nat): (r: nat)
    ensures r <= TapeLen
    ensures dp <= TapeLen ==> r == (dp + 1) % (TapeLen + 1)
  {
    if dp < TapeLen then dp + 1 else 0
  }

  /** `<`: one step left, wrapping from 0 to TapeLen (not TapeLen - 1). */
  function MoveLeft(dp: nat): (r: nat)
    ensures dp <= TapeLen ==> r <= TapeLen && r == (dp + TapeLen) % (TapeLen + 1)
  {
    if dp != 0 then dp - 1 else TapeLen
  }

  /** On the positions 0 .. TapeLen the two moves undo each other. */
  lemma MovesAreInverse(dp: nat)
    requires dp <= TapeLen
    ensures MoveLeft(MoveRight(dp)) == dp
    ensures MoveRight(MoveLeft(dp)) == dp
  {
  }

  /** The pointer after `n` moves right. */
  function RightTimes(dp: nat, n: nat): nat
  {
    if n == 0 then dp else MoveRight(RightTimes(dp, n - 1))
  }

  /** Reducing modulo TapeLen + 1 commutes with adding one. */
  lemma ModSucc(x: int, y: int)
    requires y == x % (TapeLen + 1)
    ensures (y + 1) % (TapeLen + 1) == (x + 1) % (TapeLen + 1)
  {
    var q := x / (TapeLen + 1);
    assert x == (TapeLen + 1) * q + y;
    if y < TapeLen {
      assert x + 1 == (TapeLen + 1) * q + (y + 1);
    } else {
      assert x + 1 == (TapeLen + 1) * (q + 1);
    }
  }

  /** Moving right cycles through TapeLen + 1 positions. */
  lemma {:induction false} RightTimesCycles(dp: nat, n: nat)
    requires dp <= TapeLen
    ensures RightTimes(dp, n) == (dp + n) % (TapeLen + 1)
  {
    if n > 0 {
      var x, y := dp + n - 1, RightTimes(dp, n - 1);
      assert y == x % (TapeLen + 1) by { RightTimesCycles(dp, n - 1); }
      assert RightTimes(dp, n) == (y + 1) % (TapeLen + 1);
      ModSucc(x, y);
    }
  }

  /** From cell 0, up to 30,000 moves right visit the cells in order, the
      30,000th parks the pointer one past the last cell, and only the
      30,001st brings it back to 0. */
  lemma {:induction false} RightFromZero(n: nat)
    requires n <= TapeLen
    ensures RightTimes(0, n) == n
    ensures RightTimes(0, n + 1) == if n == TapeLen then 0 else n + 1
  {
    if n > 0 {
      RightFromZero(n - 1);
    }
  }
}
