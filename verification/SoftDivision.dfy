/** The bit-by-bit 64-bit division that the compiler calls on a 32-bit target. */
module SoftDivision {
  import opened Machine

  // Bit i of n.
  function Bit(n: u64, i: nat): (b: nat)
    ensures b <= 1
  {
    Shr(n, i) % 2
  }

  // Bit i of n shifted into r from below; 64-bit arithmetic drops bit 63 of r.
  function ShiftIn(r: u64, n: u64, i: nat): nat {
    BitOr((2 * r) % U64, Bit(n, i))
  }

  lemma ShrBelow(n: nat, i: nat)
    ensures Shr(n, i) <= n
  {
  }

  // No step of either loop loses a bit, because r never exceeds the part of n read so far.
  lemma ShiftInExact(r: u64, n: u64, i: nat)
    requires r <= Shr(n, i + 1)
    ensures ShiftIn(r, n, i) == 2 * r + Bit(n, i)
    ensures ShiftIn(r, n, i) <= Shr(n, i) < U64
  {
    ShrBelow(n, i);
    assert Pow2(1) == 2;
    BitOrClear(r, Bit(n, i), 1);
  }

  // One long-division step on a quotient h whose remainder by d is h % d.
  lemma DivisionStep(h: nat, b: nat, d: nat)
    requires d > 0 && b <= 1
    ensures var r := 2 * (h % d) + b;
      if r >= d
      then (2 * h + b) / d == 2 * (h / d) + 1 && (2 * h + b) % d == r - d
      else (2 * h + b) / d == 2 * (h / d) && (2 * h + b) % d == r
  {
    DivModMeaning(h, d);
    var q, r := h / d, 2 * (h % d) + b;
    assert (2 * q) * d == 2 * (q * d);
    if r >= d {
      assert (2 * q + 1) * d == (2 * q) * d + d;
      DivModUnique(2 * h + b, d, 2 * q + 1, r - d);
    } else {
      DivModUnique(2 * h + b, d, 2 * q, r);
    }
  }

  // A quotient of the bits i and above, in its place.
  function Placed(q: nat, i: nat): nat {
    q * Pow2(i)
  }

  // The quotient bits above i fit in 64 bits, with bit i set as well.
  lemma QuotientFits(n: u64, i: nat, q: nat)
    requires q <= Shr(n, i)
    ensures Placed(q, i) <= n
  {
    MulLe(q, Shr(n, i), Pow2(i));
    ShrBound(n, i);
  }

  // Setting bit i of a quotient whose bits i and below are still clear.
  lemma SetBit(q: nat, i: nat)
    ensures Placed(q, i + 1) == Placed(2 * q, i)
    ensures BitOr(Placed(q, i + 1), Pow2(i)) == Placed(2 * q + 1, i)
  {
    var p := Pow2(i);
    assert q * (2 * p) == (2 * q) * p;
    assert (2 * q + 1) * p == (2 * q) * p + p;
    BitOrClear(q, p, i + 1);
  }

  // Quotient k and remainder r of h by d.
  predicate DividedBy(h: nat, d: nat, k: nat, r: nat) {
    h == k * d + r && r < d
  }

  // What the loop has computed once the bits i and above of n are read.
  ghost predicate Divided(n: u64, d: u64, i: nat, q: u64, r: u64)
    requires i <= 64
  {
    && r <= Shr(n, i)
    && (d > 0 ==> exists k: nat :: DividedBy(Shr(n, i), d, k, r) && q == Placed(k, i))
    && (d == 0 ==> q == Placed(Pow2(64 - i) - 1, i))
  }

  lemma DividedByStep(h: nat, b: nat, d: nat, k: nat, r: nat)
    requires b <= 1 && DividedBy(h, d, k, r)
    ensures var r1 := 2 * r + b;
      if r1 >= d then DividedBy(2 * h + b, d, 2 * k + 1, r1 - d) else DividedBy(2 * h + b, d, 2 * k, r1)
  {
    assert (2 * k) * d == 2 * (k * d);
    assert (2 * k + 1) * d == (2 * k) * d + d;
  }

  lemma DividedAtMost(h: nat, d: nat, k: nat, r: nat)
    requires DividedBy(h, d, k, r)
    ensures k <= h
  {
    MulLe(1, d, k);
  }

  lemma AllOnesFit(i: nat)
    requires i < 64
    ensures Placed(2 * (Pow2(63 - i) - 1) + 1, i) < U64
  {
    Pow2Sixty4();
    Pow2Add(64 - i, i);
    MulLe(2 * (Pow2(63 - i) - 1) + 2, Pow2(64 - i), Pow2(i));
    assert (Pow2(64 - i) - 1) * Pow2(i) == Pow2(64 - i) * Pow2(i) - Pow2(i);
  }

  lemma QuotientStep(n: u64, d: u64, i: nat, q: u64, r: u64)
    requires i < 64 && d > 0 && Divided(n, d, i + 1, q, r)
    ensures var r1 := 2 * r + Bit(n, i);
      if r1 >= d
      then BitOr(q, Pow2(i)) < U64 && Divided(n, d, i, BitOr(q, Pow2(i)), r1 - d)
      else r1 < U64 && Divided(n, d, i, q, r1)
  {
    hide DividedBy, Placed, BitOr, Pow2;
    var k: nat :| DividedBy(Shr(n, i + 1), d, k, r) && q == Placed(k, i + 1);
    var h, b := Shr(n, i + 1), Bit(n, i);
    var more := 2 * r + b >= d;
    var k1, r1 := if more then 2 * k + 1 else 2 * k, if more then 2 * r + b - d else 2 * r + b;
    assert Shr(n, i) == 2 * h + b;
    DividedByStep(h, b, d, k, r);
    SetBit(k, i);
    DividedAtMost(Shr(n, i), d, k1, r1);
    QuotientFits(n, i, k1);
    assert DividedBy(Shr(n, i), d, k1, r1) && 2 * r + b <= 2 * h + b;
  }

  lemma DividedBound(n: u64, d: u64, i: nat, q: u64, r: u64)
    requires i <= 64 && Divided(n, d, i, q, r)
    ensures r <= Shr(n, i)
  {
  }

  // Division by 0 sets every bit.
  lemma AllOnesStep(n: u64, i: nat, q: u64, r: u64)
    requires i < 64 && Divided(n, 0, i + 1, q, r)
    ensures var r1 := 2 * r + Bit(n, i);
      BitOr(q, Pow2(i)) < U64 && (r1 < U64 ==> Divided(n, 0, i, BitOr(q, Pow2(i)), r1))
  {
    hide Placed, BitOr;
    SetBit(Pow2(63 - i) - 1, i);
    AllOnesFit(i);
  }

  lemma DividedStep(n: u64, d: u64, i: nat, q: u64, r: u64)
    requires i < 64 && Divided(n, d, i + 1, q, r)
    ensures var r1 := ShiftIn(r, n, i);
      && 0 <= r1 < U64
      && if r1 >= d
         then BitOr(q, Pow2(i)) < U64 && Divided(n, d, i, BitOr(q, Pow2(i)), r1 - d)
         else Divided(n, d, i, q, r1)
  {
    hide Divided, Placed, BitOr, Pow2, ShiftIn;
    DividedBound(n, d, i + 1, q, r);
    ShiftInExact(r, n, i);
    if d > 0 {
      QuotientStep(n, d, i, q, r);
    } else {
      AllOnesStep(n, i, q, r);
    }
  }

  lemma DividedStart(n: u64, d: u64)
    ensures Divided(n, d, 64, 0, 0)
  {
    Pow2Sixty4();
    ShrToZero(n, 64);
    assert d > 0 ==> DividedBy(Shr(n, 64), d, 0, 0);
  }

  lemma DividedEnd(n: u64, d: u64, q: u64, r: u64)
    requires Divided(n, d, 0, q, r)
    ensures if d > 0 then q == n / d && r == n % d else q == U64 - 1
  {
    if d > 0 {
      var k: nat :| DividedBy(Shr(n, 0), d, k, r) && q == Placed(k, 0);
      DivModUnique(n, d, k, r);
    } else {
      Pow2Sixty4();
    }
  }

  method Udivdi3(n: u64, d: u64) returns (q: u64)
    ensures d > 0 ==> q == n / d
    ensures d == 0 ==> q == U64 - 1
  {
    hide Divided, ShiftIn, BitOr, Pow2;
    q := 0;
    var r: u64 := 0;
    var i := 63;
    DividedStart(n, d);
    while i >= 0
      invariant -1 <= i <= 63
      invariant Divided(n, d, i + 1, q, r)
    {
      DividedStep(n, d, i, q, r);
      r := ShiftIn(r, n, i);
      if r >= d {
        r := r - d;
        q := BitOr(q, Pow2(i));
      }
      i := i - 1;
    }
    DividedEnd(n, d, q, r);
  }

  method Umoddi3(n: u64, d: u64) returns (r: u64)
    ensures d > 0 ==> r == n % d
    ensures d == 0 ==> r == n
  {
    r := 0;
    var i := 63;
    Pow2Sixty4();
    ShrToZero(n, 64);
    while i >= 0
      invariant -1 <= i <= 63
      invariant r <= Shr(n, i + 1)
      invariant d > 0 ==> r == Shr(n, i + 1) % d
      invariant d == 0 ==> r == Shr(n, i + 1)
    {
      ShiftInExact(r, n, i);
      if d > 0 {
        DivisionStep(Shr(n, i + 1), Bit(n, i), d);
      }
      r := ShiftIn(r, n, i);
      if r >= d {
        r := r - d;
      }
      i := i - 1;
    }
  }
}
