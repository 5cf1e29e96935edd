/** Fixed-width integers, and the result types the other modules share. */
module Words {

  /** A 32-bit register word (`uint32_t`). */
  type Word = x: int | 0 <= x < 0x1_0000_0000

  /** A two's complement 32-bit integer (`int32_t`). */
  type Int32 = x: int | -0x8000_0000 <= x < 0x8000_0000

  /** The C conversion from `uint32_t` to `int32_t`. */
  function AsInt32(w: Word): Int32 {
    if w < 0x8000_0000 then w else w - 0x1_0000_0000
  }

  /** The C conversion from `int32_t` to `uint32_t`. */
  function AsWord(i: Int32): Word {
    if 0 <= i then i else i + 0x1_0000_0000
  }

  datatype Option<+T> = None | Some(value: T)

  datatype Result<+T, +E> = Ok(value: T) | Err(error: E)

  function Min(a: nat, b: nat): nat { if a < b then a else b }

  function Abs(x: real): real { if 0.0 <= x then x else -x }

  lemma MulStrict(a: real, b: real, k: real)
    requires a < b && 0.0 < k
    ensures a * k < b * k
  {
    assert 0.0 < (b - a) * k;
  }

  function Pow2(n: nat): (p: int)
    ensures 0 < p
  {
    if n == 0 then 1 else 2 * Pow2(n - 1)
  }

  lemma {:induction false} Pow2Monotone(m: nat, n: nat)
    requires m <= n
    ensures Pow2(m) <= Pow2(n)
    ensures m < n ==> 2 * Pow2(m) <= Pow2(n)
    decreases n
  {
    if m < n {
      Pow2Monotone(m, n - 1);
    }
  }

  lemma {:induction false} Pow2Add(m: nat, n: nat)
    ensures Pow2(m + n) == Pow2(m) * Pow2(n)
  {
    if m != 0 {
      Pow2Add(m - 1, n);
    }
  }

  lemma Pow2Constants()
    ensures Pow2(5) == 32 && Pow2(8) == 0x100 && Pow2(16) == 0x1_0000
    ensures Pow2(25) == 0x200_0000 && Pow2(28) == 0x1000_0000
    ensures Pow2(31) == 0x8000_0000 && Pow2(32) == 0x1_0000_0000
  {
    assert Pow2(8) == 0x100;
    Pow2Add(8, 8);
    Pow2Add(16, 8);
    assert Pow2(25) == 2 * Pow2(24);
    assert Pow2(28) == 8 * Pow2(25);
    assert Pow2(31) == 8 * Pow2(28);
  }

  lemma NonzeroMultiple(k: int, d: int)
    requires k != 0 && 0 < d
    ensures d <= k * d || k * d <= -d
  {
    if 0 < k {
      assert 0 <= (k - 1) * d;
    } else {
      assert 0 <= (-k - 1) * d;
    }
  }

  /** Long division: quotient and remainder are unique. */
  lemma DivModUnique(x: int, d: int, q: int, r: int)
    requires 0 < d && 0 <= r < d && x == q * d + r
    ensures x / d == q && x % d == r
  {
    var k := x / d - q;
    assert k * d == r - x % d;
    if k != 0 {
      NonzeroMultiple(k, d);
    }
  }

  lemma DoubleMul(a: int, b: int)
    ensures a * (2 * b) == 2 * (a * b)
  {
  }

  /** Dividing and reducing by an even number, one bit at a time. */
  lemma HalveFirst(x: nat, d: nat)
    requires 0 < d
    ensures x / (2 * d) == x / 2 / d
    ensures x % (2 * d) == x % 2 + 2 * (x / 2 % d)
  {
    var q, r := x / 2 / d, x / 2 % d;
    assert x / 2 == q * d + r;
    assert x == 2 * (q * d) + 2 * r + x % 2;
    DoubleMul(q, d);
    DivModUnique(x, 2 * d, q, 2 * r + x % 2);
  }
}
