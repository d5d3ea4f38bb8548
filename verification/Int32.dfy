/** Two's complement 32-bit integers, as the kernel's int32_t and the CPU's
    registers compute with them. */
module Int32 {
  import opened BitOps

  type i32 = x: int | -0x8000_0000 <= x < 0x8000_0000

  function Wrap(x: int): i32 {
    (x + 0x8000_0000) % 0x1_0000_0000 - 0x8000_0000
  }

  function Unsigned(x: i32): word {
    if x < 0 then x + 0x1_0000_0000 else x
  }

  function Signed(x: word): i32 {
    if x < 0x8000_0000 then x else x - 0x1_0000_0000
  }

  lemma {:induction false} AndBound(a: nat, b: nat, n: nat)
    requires a < Pow2(n)
    ensures And(a, b) < Pow2(n)
  {
    if a != 0 && b != 0 {
      AndBound(a / 2, b / 2, n - 1);
    }
  }

  lemma {:induction false} OrBound(a: nat, b: nat, n: nat)
    requires a < Pow2(n) && b < Pow2(n)
    ensures Or(a, b) < Pow2(n)
    decreases n
  {
    if a != 0 {
      OrBound(a / 2, b / 2, n - 1);
    }
  }

  function BitAnd(a: i32, b: i32): i32 {
    Pow2Of32();
    AndBound(Unsigned(a), Unsigned(b), 32);
    Signed(And(Unsigned(a), Unsigned(b)))
  }

  function BitOr(a: i32, b: i32): i32 {
    Pow2Of32();
    OrBound(Unsigned(a), Unsigned(b), 32);
    Signed(Or(Unsigned(a), Unsigned(b)))
  }

  function BitXor(a: i32, b: i32): i32 {
    Pow2Of32();
    XorBound(Unsigned(a), Unsigned(b), 32);
    Signed(Xor(Unsigned(a), Unsigned(b)))
  }

  function BitNot(a: i32): i32 {
    -1 - a
  }

  /** Shift counts are taken modulo 32. */
  function ShiftLeft(a: i32, b: i32): i32 {
    Pow2Of32();
    Signed(Low(Shl(Unsigned(a), b % 32), 32))
  }

  function ShiftRight(a: i32, b: i32): i32 {
    if a >= 0 then
      ShrShrinks(a, b % 32);
      Shr(a, b % 32)
    else
      ShrShrinks(-1 - a, b % 32);
      -1 - Shr(-1 - a, b % 32)
  }

  function ShiftRightUnsigned(a: i32, b: i32): i32 {
    ShrShrinks(Unsigned(a), b % 32);
    Signed(Shr(Unsigned(a), b % 32))
  }

  function Abs(x: int): nat {
    if x < 0 then -x else x
  }

  /** Division that truncates toward zero. */
  function Quot(a: int, b: int): int
    requires b != 0
  {
    if (a < 0) == (b < 0) then Abs(a) / Abs(b) else -(Abs(a) / Abs(b))
  }

  function Rem(a: int, b: int): int
    requires b != 0
  {
    if a < 0 then -(Abs(a) % Abs(b)) else Abs(a) % Abs(b)
  }

  /** The only quotient of two int32_t values that is not one. */
  predicate DivOverflows(a: i32, b: i32) {
    a == -0x8000_0000 && b == -1
  }

  lemma QuotFits(a: i32, b: i32)
    requires b != 0
    ensures -0x8000_0000 <= Rem(a, b) < 0x8000_0000
    ensures -0x8000_0000 <= Quot(a, b) < 0x8000_0000 <==> !DivOverflows(a, b)
  {
    QuotientShrinks(Abs(a), Abs(b));
  }

  lemma QuotientShrinks(m: nat, d: nat)
    requires d >= 1
    ensures m / d <= m && m % d < d && (d >= 2 ==> 2 * (m / d) <= m) && (d == 1 ==> m / d == m)
  {
    var q := m / d;
    assert m == d * q + m % d;
    if d >= 2 {
      assert (d - 2) * q >= 0;
    }
  }
}
