/** Byte-level vocabulary of the interpreter: cell values, source bytes,
    the instruction alphabet and the machine-word arithmetic it relies on. */
module Bytes {

  /** An unsigned 8-bit value: a tape cell, a source byte or an output code. */
  newtype byte = x: int | 0 <= x < 256

  /** 2^64: the number of values of a `usize` on a 64-bit target. */
  const UsizeModulus: int := 0x1_0000_0000_0000_0000

  /** A 64-bit unsigned machine word. */
  newtype usize = x: int | 0 <= x < 0x1_0000_0000_0000_0000

  /** The instruction bytes, by their ASCII codes. */
  const Plus: byte := 43     // '+'
  const Minus: byte := 45    // '-'
  const Right: byte := 62    // '>'
  const Left: byte := 60     // '<'
  const Open: byte := 91     // '['
  const Close: byte := 93    // ']'
  const Dot: byte := 46      // '.'
  const Comma: byte := 44    // ','
  const Hash: byte := 35     // '#', the program terminator
  /** What the cursor hands out once the program is finished. */
  const Nul: byte := 0

  /** The recognised instructions, in the order the interpreter lists them. */
  const LegalInstructions: seq<byte> := [Plus, Minus, Right, Left, Open, Close, Dot, Comma, Hash]

  /** A byte the cursor stops on; every other byte is inert. */
  predicate Legal(b: byte)
  {
    b in LegalInstructions
  }

  /** `u8::wrapping_add(1)`: addition modulo 256. */
  function WrappingInc(v: byte): (r: byte)
    ensures r as int == (v as int + 1) % 256
  {
    if v == 255 then 0 else v + 1
  }

  /** `u8::wrapping_sub(1)`: subtraction modulo 256. */
  function WrappingDec(v: byte): (r: byte)
    ensures r as int == (v as int - 1) % 256
  {
    if v == 0 then 255 else v - 1
  }

  /** `usize::wrapping_sub`: subtraction modulo 2^64, never saturating. */
  function WrappingSub(a: usize, b: usize): (r: usize)
    ensures (r as int + b as int) % UsizeModulus == a as int
  {
    if a >= b then a - b else (UsizeModulus + a as int - b as int) as usize
  }

  /** A cell after `n` increments. */
  function IncTimes(v: byte, n: nat): byte
  {
    if n == 0 then v else WrappingInc(IncTimes(v, n - 1))
  }

  /** A cell after `n` decrements. */
  function DecTimes(v: byte, n: nat): byte
  {
    if n == 0 then v else WrappingDec(DecTimes(v, n - 1))
  }

  /** Reducing modulo 256 commutes with adding one. */
  lemma ModSucc(x: int, y: int)
    requires y == x % 256
    ensures (y + 1) % 256 == (x + 1) % 256
  {
    var q := x / 256;
    assert x == 256 * q + y;
    if y < 255 {
      assert x + 1 == 256 * q + (y + 1);
    } else {
      assert x + 1 == 256 * (q + 1);
    }
  }

  /** Reducing modulo 256 commutes with subtracting one. */
  lemma ModPred(x: int, y: int)
    requires y == x % 256
    ensures (y - 1) % 256 == (x - 1) % 256
  {
    var q := x / 256;
    assert x == 256 * q + y;
    if y > 0 {
      assert x - 1 == 256 * q + (y - 1);
    } else {
      assert x - 1 == 256 * (q - 1) + 255;
    }
  }

  lemma {:induction false} IncTimesModular(v: byte, n: nat)
    ensures IncTimes(v, n) as int == (v as int + n) % 256
  {
    if n > 0 {
      var x, y := v as int + n - 1, IncTimes(v, n - 1) as int;
      assert y == x % 256 by { IncTimesModular(v, n - 1); }
      assert IncTimes(v, n) as int == (y + 1) % 256;
      ModSucc(x, y);
    }
  }

  lemma {:induction false} DecTimesModular(v: byte, n: nat)
    ensures DecTimes(v, n) as int == (v as int - n) % 256
  {
    if n > 0 {
      var x, y := v as int - (n - 1), DecTimes(v, n - 1) as int;
      assert y == x % 256 by { DecTimesModular(v, n - 1); }
      assert DecTimes(v, n) as int == (y - 1) % 256;
      ModPred(x, y);
    }
  }

  /** `m` increments followed by `n` more are `m + n` increments. */
  lemma {:induction false} IncTimesAdd(v: byte, m: nat, n: nat)
    ensures IncTimes(IncTimes(v, m), n) == IncTimes(v, m + n)
  {
    if n > 0 {
      IncTimesAdd(v, m, n - 1);
    }
  }

  /** Below 256 no increment wraps: `n` increments add exactly `n`. */
  lemma {:induction false} IncTimesNoWrap(v: byte, n: nat)
    requires v as int + n < 256
    ensures IncTimes(v, n) as int == v as int + n
  {
    if n > 0 {
      IncTimesNoWrap(v, n - 1);
    }
  }

  /** `n` increments followed by `n` decrements restore the cell. */
  lemma IncThenDecRestores(v: byte, n: nat)
    ensures DecTimes(IncTimes(v, n), n) == v
  {
    IncTimesModular(v, n);
    DecTimesModular(IncTimes(v, n), n);
  }

  /** 256 increments are the identity; one decrement of zero gives 255. */
  lemma CellWrapsAround(v: byte)
    ensures IncTimes(v, 256) == v
    ensures DecTimes(0, 1) == 255
  {
    IncTimesModular(v, 256);
  }
}
