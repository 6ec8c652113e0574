/** Fixed-width integers of the 32-bit target, written as bounded mathematical integers. */
module Machine {
  const U32: int := 0x1_0000_0000
  const U64: int := 0x1_0000_0000_0000_0000

  type u8 = x: int | 0 <= x < 256
  type u16 = x: int | 0 <= x < 0x1_0000
  type u32 = x: int | 0 <= x < 0x1_0000_0000
  type u64 = x: int | 0 <= x < 0x1_0000_0000_0000_0000

  datatype Option<+T> = None | Some(value: T)

  function Magnitude(v: int): nat {
    if v < 0 then -v else v
  }

  function Min(a: int, b: int): int {
    if a < b then a else b
  }

  function Max(a: int, b: int): int {
    if a < b then b else a
  }

  function Pow2(n: nat): (p: nat)
    ensures p > 0
  {
    if n == 0 then 1 else 2 * Pow2(n - 1)
  }

  // A right shift by i.
  function Shr(n: nat, i: nat): nat {
    if i == 0 then n else Shr(n, i - 1) / 2
  }

  // The | operator on unsigned words, bit by bit.
  function BitOr(x: nat, y: nat): nat
    decreases x + y
  {
    if x == 0 then y
    else if y == 0 then x
    else Max(x % 2, y % 2) + 2 * BitOr(x / 2, y / 2)
  }

  // OR-ing a value into bit positions that are still clear adds it.
  lemma {:induction false} BitOrClear(h: nat, y: nat, k: nat)
    requires y < Pow2(k)
    ensures BitOr(h * Pow2(k), y) == h * Pow2(k) + y
    decreases k
  {
    if h != 0 && y != 0 {
      var x := h * Pow2(k - 1);
      assert h * Pow2(k) == 2 * x;
      BitOrClear(h, y / 2, k - 1);
    }
  }

  lemma MulLe(a: int, b: int, c: int)
    requires a <= b && 0 <= c
    ensures a * c <= b * c
  {
  }

  lemma {:induction false} ShrBound(n: nat, i: nat)
    ensures Shr(n, i) * Pow2(i) <= n
  {
    if i > 0 {
      var s := Shr(n, i - 1);
      ShrBound(n, i - 1);
      MulLe(2 * (s / 2), s, Pow2(i - 1));
    }
  }

  lemma {:induction false} ShrToZero(n: nat, i: nat)
    requires n < Pow2(i)
    ensures Shr(n, i) == 0
  {
    ShrBound(n, i);
    if Shr(n, i) >= 1 {
      MulLe(1, Shr(n, i), Pow2(i));
    }
  }

  lemma DivModMeaning(n: int, d: int)
    requires d > 0
    ensures n == (n / d) * d + n % d && 0 <= n % d < d
  {
  }

  // Quotient and remainder are determined by n == q * d + r with 0 <= r < d.
  lemma DivModUnique(n: int, d: int, q: int, r: int)
    requires d > 0 && n == q * d + r && 0 <= r < d
    ensures n / d == q && n % d == r
  {
    DivModMeaning(n, d);
    var q1 := n / d;
    assert (q1 + 1) * d == q1 * d + d;
    assert (q + 1) * d == q * d + d;
    if q1 + 1 <= q {
      MulLe(q1 + 1, q, d);
    } else if q + 1 <= q1 {
      MulLe(q + 1, q1, d);
    }
  }

  lemma {:induction false} Pow2Add(a: nat, b: nat)
    ensures Pow2(a + b) == Pow2(a) * Pow2(b)
  {
    if b > 0 {
      Pow2Add(a, b - 1);
      assert Pow2(a + b) == 2 * Pow2(a + b - 1);
    }
  }

  lemma Pow2Sixty4()
    ensures Pow2(64) == U64
  {
    assert Pow2(4) == 16;
    Pow2Add(4, 4);
    Pow2Add(8, 8);
    Pow2Add(16, 16);
    Pow2Add(32, 32);
  }
}
