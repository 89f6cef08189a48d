/** Signed 64-bit arithmetic, which wraps. */
module MachineIntegers {

  /** int64 arithmetic. */
  function Signed64(v: int): (r: int)
    ensures -0x8000_0000_0000_0000 <= r < 0x8000_0000_0000_0000
    ensures (v - r) % 0x1_0000_0000_0000_0000 == 0
  {
    var low := v % 0x1_0000_0000_0000_0000;
    if low < 0x8000_0000_0000_0000 then low else low - 0x1_0000_0000_0000_0000
  }

  lemma Signed64Add(a: int, b: int)
    ensures Signed64(Signed64(a) + b) == Signed64(a + b)
  {
    var m := 0x1_0000_0000_0000_0000;
    var d := a - Signed64(a);
    assert d == m * (d / m);
    assert (Signed64(a) + b) == (a + b) - m * (d / m);
    ShiftModulo(a + b, d / m);
  }

  lemma ShiftModulo(x: int, k: int)
    ensures (x - 0x1_0000_0000_0000_0000 * k) % 0x1_0000_0000_0000_0000 == x % 0x1_0000_0000_0000_0000
  {
  }

  lemma AddSigned64(a: int, b: int)
    ensures Signed64(Signed64(a) + Signed64(b)) == Signed64(a + b)
  {
    Signed64Add(a, Signed64(b));
    Signed64Add(b, a);
  }
}
