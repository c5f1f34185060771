/** Fixed-width unsigned words: every width and wrap-around of the C source is written out. */
module Words {

  const WORD16 := 0x1_0000
  const WORD32 := 0x1_0000_0000

  type u8 = x: int | 0 <= x < 0x100
  type u16 = x: int | 0 <= x < WORD16
  type u32 = x: int | 0 <= x < WORD32

  function Wrap32(x: int): u32 {
    x % WORD32
  }

  function Add32(x: u32, y: int): u32 {
    Wrap32(x + y)
  }

  function Sub32(x: u32, y: u32): u32 {
    Wrap32(x - y)
  }

  function Min(x: int, y: int): int {
    if x < y then x else y
  }

  lemma WrapNothing()
    ensures Wrap32(0) == 0
  {
  }

  /** Two wrapped counters have the true distance as long as that distance fits a word. */
  lemma CounterDistance(x: int, y: int)
    requires 0 <= x - y < WORD32
    ensures Sub32(Wrap32(x), Wrap32(y)) == x - y
  {
    assert (x % WORD32 - y % WORD32) - (x - y) == WORD32 * (y / WORD32 - x / WORD32);
    assert Wrap32(x) - Wrap32(y) == (x - y) + WORD32 * (y / WORD32 - x / WORD32);
    WrapMultiple(x - y, y / WORD32 - x / WORD32);
  }

  /** Wrapped counters less than 2^32 apart are equal only when the true ones are. */
  lemma SameCounter(x: int, y: int)
    requires 0 <= x - y < WORD32
    ensures Wrap32(x) == Wrap32(y) <==> x == y
    ensures Sub32(Wrap32(x), Wrap32(y)) == x - y
  {
    CounterDistance(x, y);
  }

  lemma WrapMultiple(x: int, m: int)
    ensures Wrap32(x + WORD32 * m) == Wrap32(x)
  {
    assert (x + WORD32 * m) / WORD32 == x / WORD32 + m;
  }

  /** Bumping a wrapped counter bumps the true counter. */
  lemma WrapAdd(x: int, d: int)
    ensures Add32(Wrap32(x), d) == Wrap32(x + d)
  {
    WrapMultiple(x % WORD32 + d, x / WORD32);
  }

  /** Masking a wrapped counter with size - 1 gives the true counter's slot. */
  lemma WrapSlot(x: int, size: int)
    requires size > 0 && WORD32 % size == 0
    ensures Wrap32(x) % size == x % size
  {
    var m := WORD32 / size;
    assert WORD32 == m * size;
    var k := x / WORD32;
    assert x == Wrap32(x) + size * (m * k) by {
      assert WORD32 * k == size * (m * k);
    }
    ModMultiple(Wrap32(x), size, m * k);
  }

  lemma ModMultiple(x: int, size: int, m: int)
    requires size > 0
    ensures (x + size * m) % size == x % size
  {
    assert x + size * m == size * (x / size + m) + x % size;
    DivModUnique(x + size * m, size, x / size + m, x % size);
  }

  lemma MulSteps(size: int, d: int)
    requires size > 0
    ensures d >= 1 ==> size * d >= size
    ensures d <= -1 ==> size * d <= -size
  {
    if d >= 1 {
      assert size * d == size + size * (d - 1);
    } else if d <= -1 {
      assert size * d == -size + size * (d + 1);
    }
  }

  lemma DivModUnique(x: int, size: int, q: int, r: int)
    requires size > 0 && 0 <= r < size && x == size * q + r
    ensures x / size == q && x % size == r
  {
    var q', r' := x / size, x % size;
    assert x == size * q' + r';
    var d := q' - q;
    assert size * d == size * q' - size * q;
    MulSteps(size, d);
  }

  /** Different counters less than a ring apart use different slots. */
  lemma SlotsDiffer(x: int, y: int, size: int)
    requires size > 0 && 0 < y - x < size
    ensures x % size != y % size
  {
    if x % size == y % size {
      assert x == size * (x / size) + x % size;
      assert y == size * (y / size) + y % size;
      var d := y / size - x / size;
      assert size * d == size * (y / size) - size * (x / size);
      MulSteps(size, d);
    }
  }
}
