/** Machine-word ranges and the two wrapper types shared by every module.

    The word types are subset types of `int`: arithmetic on them is exact, and storing a result in
    one of them obliges the proof to show that the source's fixed-width operation does not wrap. */
module Common {
  const U16_MAX := 0xFFFF
  const U32_MAX := 0xFFFF_FFFF
  const U64_MAX := 0xFFFF_FFFF_FFFF_FFFF

  type u8 = x: int | 0 <= x <= 0xFF
  type u16 = x: int | 0 <= x <= U16_MAX
  type u32 = x: int | 0 <= x <= U32_MAX
  type u64 = x: int | 0 <= x <= U64_MAX

  datatype Option<+T> = None | Some(value: T)

  datatype Result<+T, +E> = Ok(value: T) | Err(error: E)

  function Min(a: int, b: int): (m: int) {
    if a <= b then a else b
  }

  function Max(a: int, b: int): (m: int) {
    if a >= b then a else b
  }

  /** The numbers below `n`, each once. */
  ghost function Upto(n: nat): (s: multiset<nat>) {
    if n == 0 then multiset{} else Upto(n - 1) + multiset{n - 1}
  }

  lemma {:induction false} UptoOnce(n: nat, b: nat)
    ensures Upto(n)[b] == if b < n then 1 else 0
  {
    if n == 0 {
    } else {
      UptoOnce(n - 1, b);
    }
  }

  lemma MulMonotone(a: int, b: int, m: nat)
    ensures a <= b ==> a * m <= b * m
  {
    if a <= b {
      assert (b - a) * m >= 0;
    }
  }
}
