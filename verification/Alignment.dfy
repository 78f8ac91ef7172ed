/** Power-of-two alignment of 64-bit addresses. */
module Alignment {
  import opened Common

  type Align = m: u64 | m > 0 witness 1

  function Pow2(k: nat): (p: nat)
    ensures p > 0
  {
    if k == 0 then 1 else 2 * Pow2(k - 1)
  }

  predicate IsPowerOfTwo(n: nat) {
    n == 1 || (n > 1 && n % 2 == 0 && IsPowerOfTwo(n / 2))
  }

  lemma {:induction false} Pow2Adds(a: nat, b: nat)
    ensures Pow2(a + b) == Pow2(a) * Pow2(b)
  {
    if a == 0 {
    } else {
      Pow2Adds(a - 1, b);
      assert Pow2(a + b) == 2 * (Pow2(a - 1) * Pow2(b)) == (2 * Pow2(a - 1)) * Pow2(b);
    }
  }

  lemma {:induction false} PowerOfTwoIsPow2(n: nat) returns (k: nat)
    requires IsPowerOfTwo(n)
    ensures n == Pow2(k)
  {
    if n == 1 {
      k := 0;
    } else {
      var j := PowerOfTwoIsPow2(n / 2);
      k := j + 1;
    }
  }

  lemma {:induction false} Pow2IsPowerOfTwo(k: nat)
    ensures IsPowerOfTwo(Pow2(k))
  {
    if k == 0 {
    } else {
      Pow2IsPowerOfTwo(k - 1);
      assert Pow2(k) / 2 == Pow2(k - 1);
    }
  }

  /** The accepted alignments are the powers of two. */
  lemma PowerOfTwoExactly(n: nat)
    ensures IsPowerOfTwo(n) <==> exists k: nat :: n == Pow2(k)
  {
    if IsPowerOfTwo(n) {
      var k := PowerOfTwoIsPow2(n);
    }
    if k: nat :| n == Pow2(k) {
      Pow2IsPowerOfTwo(k);
    }
  }

  lemma {:induction false} Pow2Grows(a: nat, b: nat)
    requires a <= b
    ensures Pow2(a) <= Pow2(b)
    decreases b
  {
    if a == b {
    } else {
      Pow2Grows(a, b - 1);
    }
  }

  lemma MultipleMod(q: int, m: nat)
    requires m > 0
    ensures (q * m) % m == 0
  {
    DivModUnique(q * m, m, q, 0);
  }

  lemma DivModUnique(x: int, m: nat, q: int, r: int)
    requires m > 0 && 0 <= r < m && x == q * m + r
    ensures x / m == q && x % m == r
  {
    var q', r' := x / m, x % m;
    assert x == q' * m + r';
    assert (q - q') * m == r' - r;
    MulMonotone(1, q - q', m);
    MulMonotone(q - q', -1, m);
  }

  /** A power-of-two alignment divides 2^64. */
  lemma AlignmentDividesWord(m: nat)
    requires IsPowerOfTwo(m) && m <= U64_MAX
    ensures (U64_MAX + 1) % m == 0
  {
    var k := PowerOfTwoIsPow2(m);
    Pow2Is64();
    if k >= 64 {
      Pow2Grows(64, k);
    } else {
      Pow2Adds(64 - k, k);
      MultipleMod(Pow2(64 - k), m);
    }
  }

  lemma Pow2Is32()
    ensures Pow2(32) == 0x1_0000_0000
  {
    assert Pow2(4) == 16;
    hide Pow2;
    Pow2Adds(4, 4);
    Pow2Adds(8, 8);
    Pow2Adds(16, 16);
  }

  lemma Pow2Is64()
    ensures Pow2(64) == U64_MAX + 1
  {
    hide Pow2;
    Pow2Is32();
    Pow2Adds(32, 32);
  }

  function AlignUp(a: nat, m: nat): (b: nat)
    requires m > 0
  {
    if a % m == 0 then a else a + m - a % m
  }

  /** `AlignUp` is the least multiple of `m` from `a` on. */
  lemma AlignUpIsLeast(a: nat, m: nat, b: int)
    requires m > 0
    ensures AlignUp(a, m) % m == 0 && a <= AlignUp(a, m) < a + m
    ensures b >= a && b % m == 0 ==> AlignUp(a, m) <= b
  {
    var q := a / m;
    assert a == q * m + a % m;
    if a % m != 0 {
      assert AlignUp(a, m) == (q + 1) * m;
      MultipleMod(q + 1, m);
      if b >= a && b % m == 0 {
        var p := b / m;
        assert b == p * m;
        MulMonotone(p, q, m);
        MulMonotone(q + 1, p, m);
      }
    }
  }

  /** When the aligned-up address fits in a word, so does the intermediate sum it is computed from. */
  lemma AlignUpIntermediate(a: nat, m: nat)
    requires IsPowerOfTwo(m) && m <= U64_MAX
    requires AlignUp(a, m) <= U64_MAX && a % m != 0
    ensures a + m <= U64_MAX
  {
    AlignmentDividesWord(m);
    AlignUpIsLeast(a, m, U64_MAX + 1);
    AlignUpIsLeast(AlignUp(a, m) + 1, m, U64_MAX + 1);
    NextMultiple(AlignUp(a, m), m);
  }

  /** The multiples of `m` are `m` apart. */
  lemma NextMultiple(a: nat, m: nat)
    requires m > 0 && a % m == 0
    ensures AlignUp(a + 1, m) == a + m
  {
    var q := a / m;
    assert a + 1 == q * m + 1;
    if m == 1 {
      DivModUnique(a + 1, m, q + 1, 0);
    } else {
      DivModUnique(a + 1, m, q, 1);
    }
  }
}
