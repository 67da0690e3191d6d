/** Java's 32-bit int arithmetic over Dafny's unbounded integers. */
module JavaInt {
  const IntMin: int := -0x8000_0000
  const IntMax: int := 0x7FFF_FFFF

  predicate IsInt(x: int) {
    IntMin <= x <= IntMax
  }

  /** The int a Java operation leaves when its exact result is x (two's complement wrap-around). */
  function Wrap(x: int): (r: int)
    ensures IsInt(r)
    ensures (x - r) % 0x1_0000_0000 == 0
    ensures IsInt(x) ==> r == x
  {
    (x - IntMin) % 0x1_0000_0000 + IntMin
  }

  /** (x + 3) & ~3 on ints: x + 3 with wrap-around, rounded down to a multiple of 4. */
  function RoundUp4(x: int): (r: int)
    requires IsInt(x)
    ensures IsInt(r) && r % 4 == 0
    ensures x <= IntMax - 3 ==> x <= r < x + 4
    ensures x > IntMax - 3 ==> r < 0
  {
    var s := Wrap(x + 3);
    s - s % 4
  }

  /** Congruence modulo 2^32. */
  predicate Congruent(x: int, y: int) {
    (x - y) % 0x1_0000_0000 == 0
  }

  /** Two numbers that differ by a multiple of 2^32 wrap to the same int. */
  lemma WrapCongruent(x: int, y: int)
    requires Congruent(x, y)
    ensures Wrap(x) == Wrap(y)
  {
  }

  lemma AddCongruent(x1: int, y1: int, x2: int, y2: int)
    requires Congruent(x1, y1) && Congruent(x2, y2)
    ensures Congruent(x1 + x2, y1 + y2)
  {
  }

  lemma MulCongruent(b: int, x: int, y: int)
    requires Congruent(x, y)
    ensures Congruent(b * x, b * y)
  {
    var k := (x - y) / 0x1_0000_0000;
    assert x - y == k * 0x1_0000_0000;
    assert b * x - b * y == (b * k) * 0x1_0000_0000;
  }

  lemma WrapIsCongruent(x: int)
    ensures Congruent(Wrap(x), x)
  {
  }

  lemma CongruentTrans(x: int, y: int, z: int)
    requires Congruent(x, y) && Congruent(y, z)
    ensures Congruent(x, z)
  {
  }
}
