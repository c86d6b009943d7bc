/** The C integer types the unwinder computes with, as ranges of mathematical integers. */
module Words {
  const TWO31 := 0x8000_0000
  const TWO32 := 0x1_0000_0000
  const TWO64 := 0x1_0000_0000_0000_0000

  type Byte = x: int | 0 <= x < 0x100
  type Word32 = x: int | 0 <= x < 0x1_0000_0000
  type Word64 = x: int | 0 <= x < 0x1_0000_0000_0000_0000
  type Int32 = x: int | -0x8000_0000 <= x < 0x8000_0000

  datatype Option<+T> = None | Some(value: T) {
    function GetOr(default: T): T {
      if Some? then value else default
    }
  }

  /** Conversion to `unsigned int`. */
  function ToWord32(x: int): Word32 {
    x % TWO32
  }

  /** Conversion to `int`: the low 32 bits, read as two's complement. */
  function ToInt32(x: int): (r: Int32)
    ensures -TWO31 <= x < TWO31 ==> r == x
    ensures (r - x) % TWO32 == 0
  {
    var low := x % TWO32;
    if low < TWO31 then low else low - TWO32
  }

  function Pow2(n: nat): (p: nat)
    ensures p >= 1
  {
    if n == 0 then 1 else 2 * Pow2(n - 1)
  }

  lemma {:induction false} Pow2Monotone(m: nat, n: nat)
    requires m <= n
    ensures Pow2(m) <= Pow2(n)
    decreases n
  {
    if m < n {
      Pow2Monotone(m, n - 1);
    }
  }

  lemma AddMultiple(x: int, q: int)
    ensures (x + q * TWO32) % TWO32 == x % TWO32
  {
  }
}
