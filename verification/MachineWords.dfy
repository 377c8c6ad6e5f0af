// 64-bit machine words, as the numbers they denote.
module MachineWords {
  const TWO63 := 0x8000_0000_0000_0000
  const TWO64 := 0x1_0000_0000_0000_0000

  type Word = x: int | 0 <= x < 0x1_0000_0000_0000_0000

  // The word an integer wraps around to.
  function Wrap(x: int): (w: Word)
    decreases if x < 0 then TWO64 - x else x
  {
    if x < 0 then Wrap(x + TWO64) else if x < TWO64 then x else Wrap(x - TWO64)
  }

  lemma {:induction false} WrapOnce(x: int, y: int)
    ensures Wrap(Wrap(x) + y) == Wrap(x + y)
    decreases if x < 0 then TWO64 - x else x
  {
    if x < 0 {
      WrapOnce(x + TWO64, y);
      WrapShift(x + y);
    } else if x >= TWO64 {
      WrapOnce(x - TWO64, y);
      WrapShift(x - TWO64 + y);
    }
  }

  lemma WrapNear(x: int)
    requires -TWO64 <= x < TWO64
    ensures Wrap(x) == if x < 0 then x + TWO64 else x
  {}

  lemma WrapShift(x: int)
    ensures Wrap(x + TWO64) == Wrap(x)
  {}

  // It is the remainder modulo 2^64.
  lemma {:induction false} WrapIsRemainder(x: int)
    ensures Wrap(x) == x % TWO64
    decreases if x < 0 then TWO64 - x else x
  {
    if x < 0 {
      WrapIsRemainder(x + TWO64);
    } else if x >= TWO64 {
      WrapIsRemainder(x - TWO64);
    }
  }

  predicate Fits64(n: int) {
    -TWO63 <= n < TWO63
  }
}
