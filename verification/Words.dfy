/** Unsigned 32-bit arithmetic, as the library's `uint32_t` fields compute it. */
module Words {

  const WORD: nat := 0x1_0000_0000

  function W32(x: int): (r: nat)
    ensures r < WORD
    ensures 0 <= x < WORD ==> r == x
  {
    x % WORD
  }

  lemma Wraps(x: int) returns (k: int)
    ensures x == k * WORD + W32(x)
  {
    k := x / WORD;
  }

  lemma WrapMultiple(x: int, k: int)
    ensures W32(x + k * WORD) == W32(x)
  {
  }

  /** Wrapping before or after an addition makes no difference. */
  lemma WrapAdd(x: int, y: int)
    ensures W32(W32(x) + y) == W32(x + y)
    ensures W32(W32(x) - y) == W32(x - y)
    ensures W32(y - W32(x)) == W32(y - x)
  {
    hide W32;
    var k := Wraps(x);
    WrapMultiple(W32(x) + y, k);
    WrapMultiple(W32(x) - y, k);
    WrapMultiple(y - x, k);
  }

  lemma WrapSum(x: int, y: int)
    ensures W32(W32(x) + W32(y)) == W32(x + y)
  {
    hide W32;
    WrapAdd(x, W32(y));
    WrapAdd(y, x);
  }

  lemma WrapDifference(x: int, y: int)
    ensures W32(W32(x) - W32(y)) == W32(x - y)
  {
    hide W32;
    WrapAdd(x, W32(y));
    WrapAdd(y, x);
  }

  function Max(a: int, b: int): int {
    if a >= b then a else b
  }

  function Min(a: int, b: int): int {
    if a <= b then a else b
  }

  function Div(x: nat, t: nat): nat
    requires t > 0
  {
    x / t
  }

  lemma DivFloor(x: nat, t: nat)
    requires t > 0
    ensures Div(x, t) * t <= x < (Div(x, t) + 1) * t
  {
    var q := x / t;
    assert x == q * t + x % t;
    assert (q + 1) * t == q * t + t;
  }

  /** Quotient and remainder are the only ones of their kind. */
  lemma DivisionUnique(x: nat, t: nat, q: nat, r: nat)
    requires r < t && x == q * t + r
    ensures x / t == q && x % t == r
  {
    var a := x / t;
    assert x == a * t + x % t;
    if a < q {
      MultipleMonotone(a + 1, q, t);
    } else if q < a {
      MultipleMonotone(q + 1, a, t);
    }
  }

  lemma MultipleMonotone(a: nat, b: nat, t: nat)
    requires a <= b
    ensures a * t <= b * t
  {
  }

  function Pow2(n: nat): (r: nat)
    ensures r > 0
  {
    if n == 0 then 1 else 2 * Pow2(n - 1)
  }

  lemma {:induction false} Pow2Add(a: nat, b: nat)
    ensures Pow2(a + b) == Pow2(a) * Pow2(b)
  {
    if a > 0 {
      Pow2Add(a - 1, b);
      assert Pow2(a + b) == 2 * Pow2(a - 1 + b);
    }
  }

  lemma Pow2Of32()
    ensures Pow2(32) == WORD
  {
    assert Pow2(8) == 256;
    Pow2Add(8, 8);
    Pow2Add(16, 16);
  }
}
