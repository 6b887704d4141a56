/** The bitwise operators of C on unsigned words, bit by bit, and what the masks of the boot
    loader do with them. */
module Bits {
  import opened Common

  function And(a: nat, b: nat): (r: nat)
    ensures r <= a && r <= b
  {
    if a == 0 then 0 else (if a % 2 == 1 && b % 2 == 1 then 1 else 0) + 2 * And(a / 2, b / 2)
  }

  /** `~a` on 32 bits. */
  function Not(a: nat): nat
    requires a < U32
  {
    U32 - 1 - a
  }

  function Pow2(k: nat): (p: nat)
    ensures p > 0
  {
    if k == 0 then 1 else 2 * Pow2(k - 1)
  }

  function Shr(a: nat, k: nat): nat {
    if k == 0 then a else Shr(a / 2, k - 1)
  }

  /** The lowest k bits. */
  function Low(a: nat, k: nat): (r: nat)
    ensures r <= a
  {
    if k == 0 then 0 else a % 2 + 2 * Low(a / 2, k - 1)
  }

  lemma {:induction false} ShiftSplits(a: nat, k: nat)
    ensures Low(a, k) < Pow2(k) && a == Shr(a, k) * Pow2(k) + Low(a, k)
  {
    if k > 0 {
      ShiftSplits(a / 2, k - 1);
      Double(Shr(a, k), Pow2(k - 1));
    }
  }

  lemma Double(s: nat, p: nat)
    ensures s * (2 * p) == 2 * (s * p)
  {
  }

  lemma ShiftDivides(a: nat, k: nat)
    ensures Shr(a, k) == a / Pow2(k) && Low(a, k) == a % Pow2(k)
  {
    ShiftSplits(a, k);
    DivUnique(a, Pow2(k), Shr(a, k), Low(a, k));
  }

  lemma DivUnique(a: nat, m: nat, q: nat, r: nat)
    requires r < m && a == q * m + r
    ensures a / m == q && a % m == r
  {
    var d: int := a / m - q;
    assert a == (a / m) * m + a % m;
    assert d * m == r - a % m;
    SignedMultiple(d, m);
  }

  lemma SignedMultiple(d: int, m: nat)
    ensures d > 0 ==> d * m >= m
    ensures d < 0 ==> d * m + m <= 0
  {
  }

  lemma DivHalf(a: nat, m: nat)
    requires m > 0
    ensures a / 2 / m == a / (2 * m)
  {
    var q, r := a / 2 / m, a / 2 % m;
    assert a / 2 == q * m + r;
    Double(q, m);
    DivUnique(a, 2 * m, q, 2 * r + a % 2);
  }

  lemma DivMonotone(a: nat, b: nat, m: nat)
    requires m > 0 && a <= b
    ensures a / m <= b / m
  {
    assert a == a / m * m + a % m && b == b / m * m + b % m;
    SignedMultiple(a / m - b / m, m);
  }

  lemma DivPrevious(a: nat, m: nat)
    requires m > 0 && a > 0
    ensures (a - 1) / m == a / m - (if a % m == 0 then 1 else 0)
  {
    var q, r := a / m, a % m;
    assert a == q * m + r;
    if r == 0 {
      OneLessTimes(q, m);
      DivUnique(a - 1, m, q - 1, m - 1);
    } else {
      DivUnique(a - 1, m, q, r - 1);
    }
  }

  lemma OneLessTimes(q: int, m: int)
    ensures (q - 1) * m == q * m - m
  {
  }

  lemma Pow2Monotone(j: nat, k: nat)
    requires j <= k
    ensures Pow2(j) <= Pow2(k)
  {
    if j < k {
      Pow2Monotone(j, k - 1);
    }
  }

  lemma Pow2Step(k: nat)
    ensures Pow2(k) == if k == 0 then 1 else 2 * Pow2(k - 1)
  {
  }

  lemma {:induction false} Pow2Add(j: nat, k: nat)
    ensures Pow2(j + k) == Pow2(j) * Pow2(k)
  {
    hide Pow2;
    Pow2Step(j);
    Pow2Step(j + k);
    if j > 0 {
      Pow2Add(j - 1, k);
      Double(Pow2(k), Pow2(j - 1));
    }
  }

  /** A single bit tests whether the address lies in an odd-numbered stretch of its size. */
  lemma {:induction false} AndBit(a: nat, k: nat)
    ensures And(a, Pow2(k)) == if Shr(a, k) % 2 == 1 then Pow2(k) else 0
    decreases k
  {
    if k == 0 {
      AndZero(a / 2);
    } else {
      AndBit(a / 2, k - 1);
    }
  }

  lemma {:induction false} AndZero(a: nat)
    ensures And(a, 0) == 0
  {
    if a > 0 {
      AndZero(a / 2);
    }
  }

  lemma {:induction false} AndOnes(a: nat, w: nat)
    requires a < Pow2(w)
    ensures And(a, Pow2(w) - 1) == a
  {
    if a > 0 {
      AndOnes(a / 2, w - 1);
    }
  }

  lemma LowStep(a: nat, k: nat)
    ensures Low(a, k) == if k == 0 then 0 else a % 2 + 2 * Low(a / 2, k - 1)
  {
  }

  /** A mask of ones above bit k rounds down to a multiple of 2^k. */
  lemma {:induction false} AndRoundsDown(a: nat, w: nat, k: nat)
    requires k <= w && a < Pow2(w)
    ensures Pow2(k) <= Pow2(w) && And(a, Pow2(w) - Pow2(k)) == a - Low(a, k)
    decreases k
  {
    hide And;
    hide Pow2;
    hide Low;
    Pow2Monotone(k, w);
    Pow2Step(k);
    LowStep(a, k);
    if k == 0 {
      AndOnes(a, w);
    } else {
      var c := Pow2(w) - Pow2(k);
      Pow2Step(w);
      AndStep(a, c);
      assert c / 2 == Pow2(w - 1) - Pow2(k - 1) && c % 2 == 0;
      AndRoundsDown(a / 2, w - 1, k - 1);
    }
  }

  /** Masking with a complement takes the masked bits away. */
  lemma {:induction false} AndComplement(a: nat, b: nat, w: nat)
    requires a < Pow2(w) && b < Pow2(w)
    ensures And(a, Pow2(w) - 1 - b) == a - And(a, b)
  {
    hide And;
    hide Pow2;
    var c := Pow2(w) - 1 - b;
    AndStep(a, b);
    AndStep(a, c);
    if a > 0 {
      Pow2Step(w);
      assert c / 2 == Pow2(w - 1) - 1 - b / 2 && c % 2 == 1 - b % 2;
      AndComplement(a / 2, b / 2, w - 1);
    }
  }

  lemma AndStep(a: nat, b: nat)
    ensures And(a, b) ==
            if a == 0 then 0 else (if a % 2 == 1 && b % 2 == 1 then 1 else 0) + 2 * And(a / 2, b / 2)
  {
  }

  /** The alignment masks: all ones above bit k of a word. */
  lemma AlignMask(a: nat, k: nat, size: nat)
    requires a < U32 && k <= 32 && size == Pow2(k)
    ensures size <= U32 && And(a, U32 - size) == a / size * size
  {
    WordSize();
    AndRoundsDown(a, 32, k);
    ShiftSplits(a, k);
    ShiftDivides(a, k);
  }

  /** The same for an address given by its stretch and the offset in it. */
  lemma AlignParts(a: nat, k: nat, size: nat, q: nat, r: nat)
    requires a < U32 && k <= 32 && size == Pow2(k) && r < size && a == q * size + r
    ensures size <= U32 && And(a, U32 - size) == q * size
  {
    AlignMask(a, k, size);
    DivUnique(a, size, q, r);
  }

  /** A word is a whole number of aligned stretches. */
  lemma WordMultiple(k: nat, size: nat)
    requires k < 32 && size == Pow2(k)
    ensures size < U32 && Pow2(32 - k) * size == U32
  {
    WordSize();
    Pow2Monotone(k + 1, 32);
    Pow2Add(32 - k, k);
  }

  lemma ShiftHalf(a: nat, k: nat)
    requires a < 2 * Pow2(k)
    ensures Shr(a, k) == if a >= Pow2(k) then 1 else 0
  {
    if k > 0 {
      ShiftHalf(a / 2, k - 1);
    }
  }

  /** Below twice a power of two, its bit tells the upper half, and clearing it subtracts it. */
  lemma HalfBit(a: nat, k: nat)
    requires a < 2 * Pow2(k) && k < 32
    ensures Pow2(k) < U32 && And(a, Pow2(k)) == if a >= Pow2(k) then Pow2(k) else 0
    ensures a < U32 && And(a, Not(Pow2(k))) == if a >= Pow2(k) then a - Pow2(k) else a
  {
    hide And;
    hide Shr;
    WordSize();
    Pow2Monotone(k + 1, 32);
    Pow2Step(k + 1);
    hide Pow2;
    AndBit(a, k);
    ShiftHalf(a, k);
    AndComplement(a, Pow2(k), 32);
  }

  lemma WordSize()
    ensures Pow2(32) == U32
  {
    assert Pow2(8) == 0x100;
    assert Pow2(16) == 0x10000;
    assert Pow2(24) == 0x1000000;
  }

  lemma Powers()
    ensures Pow2(32) == U32
    ensures Pow2(23) == 0x800000 && Pow2(24) == 0x1000000 && Pow2(25) == 0x2000000
    ensures Pow2(26) == 0x4000000 && Pow2(27) == 0x8000000 && Pow2(28) == 0x10000000
    ensures Pow2(16) == 0x10000 && Pow2(17) == 0x20000 && Pow2(18) == 0x40000 && Pow2(19) == 0x80000
  {
    assert Pow2(8) == 0x100;
    assert Pow2(16) == 0x10000;
    assert Pow2(19) == 0x80000;
    assert Pow2(24) == 0x1000000;
    assert Pow2(28) == 0x10000000;
    assert Pow2(32) == U32;
  }
}
