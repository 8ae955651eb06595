/** Small things every component uses. */
module Common {
  datatype Option<T> = None | Some(value: T)

  function Min(a: int, b: int): int { if a < b then a else b }
  function Max(a: int, b: int): int { if a < b then b else a }

  /** Clocks and counters are 32 bits wide. */
  const U32 := 0x1_0000_0000

  /** The wrapped difference of two wrapped readings is the real one, up to one period. */
  lemma WrapDifference(x: int, y: int)
    requires x <= y < x + U32
    ensures (y % U32 - x % U32) % U32 == y - x
  {
    var qx, qy := x / U32, y / U32;
    assert qy == qx || qy == qx + 1;
    assert y - x == U32 * (qy - qx) + (y % U32 - x % U32);
  }
}
