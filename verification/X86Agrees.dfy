/** The processor's arithmetic, which works on register contents column by column or
    modulo 2^32, and the helpers' shifts are the interpreter's. */
module X86Agrees {
  import opened BitOps
  import opened Int32
  import opened Int32Facts
  import opened BoslVm
  import opened X86

  function Bitwise(op: Arith, a: nat, b: nat): nat
    requires op.And? || op.Or? || op.Xor?
  {
    if op == And then BitOps.And(a, b) else if op == Or then BitOps.Or(a, b) else BitOps.Xor(a, b)
  }

  lemma BitwiseHalves(op: Arith, a: nat, b: nat)
    requires op.And? || op.Or? || op.Xor?
    ensures Bitwise(op, a, b) / 2 == Bitwise(op, a / 2, b / 2)
    ensures Bitwise(op, a, b) % 2 == 1 <==> Gate(op, a % 2 == 1, b % 2 == 1)
  {
    hide BitOps.And, BitOps.Or, BitOps.Xor;
    AndHalves(a, b);
    OrHalves(a, b);
    XorHalves(a, b);
  }

  /** A column-wise operation gives the digits of the operation on the numbers. */
  lemma {:induction false} BitwiseColumns(op: Arith, a: nat, b: nat, n: nat)
    requires op.And? || op.Or? || op.Xor?
    ensures BitsOf(Bitwise(op, a, b), n) == Columns(op, BitsOf(a, n), BitsOf(b, n))
    decreases n
  {
    hide Bitwise, Gate;
    if n > 0 {
      BitwiseHalves(op, a, b);
      BitwiseColumns(op, a / 2, b / 2, n - 1);
    }
  }

  lemma {:induction false} BitwiseWord(op: Arith, x: word, y: word)
    requires op.And? || op.Or? || op.Xor?
    requires Bitwise(op, x, y) < MODULUS
    ensures AluWord(op, x, y) == Bitwise(op, x, y)
  {
    hide Columns, Bitwise, BitsOf, Val;
    Pow2Of32();
    BitwiseColumns(op, x, y, 32);
    ValBitsOf(Bitwise(op, x, y), 32);
    LowOfSmall(Bitwise(op, x, y), 32);
  }

  lemma {:induction false} BitwiseAgrees(op: Arith, a: i32, b: i32)
    requires op.And? || op.Or? || op.Xor?
    ensures Signed(AluWord(op, Unsigned(a), Unsigned(b))) == Arithmetic(op, a, b)
  {
    hide AluWord, Signed, Unsigned;
    AndIsWord(a, b);
    OrIsWord(a, b);
    XorIsWord(a, b);
    BitwiseWord(op, Unsigned(a), Unsigned(b));
  }

  lemma SignedIs(x: int)
    ensures Congruent(Signed(x % MODULUS), x)
  {
    assert x == MODULUS * (x / MODULUS) + x % MODULUS;
    assert Signed(x % MODULUS) - x == MODULUS * -(x / MODULUS)
           || Signed(x % MODULUS) - x == MODULUS * (-(x / MODULUS) - 1);
  }

  lemma UnsignedIs(a: i32)
    ensures Unsigned(a) as int == a as int + MODULUS * (if a < 0 then 1 else 0)
  {
  }

  lemma CongruentBoth(x: i32, y: i32, z: int, i: int)
    requires Congruent(x, z) && Congruent(y, z + MODULUS * i)
    ensures x == y
  {
    var p, q := (x as int - z) / MODULUS, (y as int - (z + MODULUS * i)) / MODULUS;
    assert y as int - x as int == MODULUS * (q + i - p);
  }

  lemma {:induction false} ExactAgrees(op: Arith, a: i32, b: i32)
    requires op.Add? || op.Sub? || op.Mul?
    ensures Signed(AluWord(op, Unsigned(a), Unsigned(b))) == Arithmetic(op, a, b)
  {
    hide Signed, Wrap, Congruent, Unsigned;
    var i, j := if a < 0 then 1 else 0, if b < 0 then 1 else 0;
    var u, w := Unsigned(a) as int, Unsigned(b) as int;
    UnsignedIs(a);
    UnsignedIs(b);
    match op {
      case Add =>
        Wrapped(a as int + b as int, u + w, i + j);
      case Sub =>
        Wrapped(a as int - b as int, u - w, i - j);
      case Mul =>
        Product(a, b, i, j);
        Wrapped(a as int * b as int, u * w, i * b + j * a + MODULUS * (i * j));
    }
  }

  lemma Wrapped(x: int, y: int, i: int)
    requires y == x + MODULUS * i
    ensures Signed(y % MODULUS) == Wrap(x)
  {
    hide Signed, Wrap, Congruent;
    SignedIs(y);
    WrapIs(x);
    CongruentBoth(Wrap(x), Signed(y % MODULUS), x, i);
  }

  lemma Product(a: int, b: int, i: int, j: int)
    ensures (a + MODULUS * i) * (b + MODULUS * j) == a * b + MODULUS * (i * b + j * a + MODULUS * (i * j))
  {
  }

  /** On every pair of operands the processor computes what the
      interpreter computes. */
  lemma AluAgrees(op: Arith, a: i32, b: i32)
    ensures Signed(AluWord(op, Unsigned(a), Unsigned(b))) == Arithmetic(op, a, b)
  {
    hide AluWord, Arithmetic, Signed, Unsigned;
    if op.Add? || op.Sub? || op.Mul? {
      ExactAgrees(op, a, b);
    } else {
      BitwiseAgrees(op, a, b);
    }
  }

  lemma UnaryAgrees(a: i32)
    ensures Signed(0xFFFF_FFFF - Unsigned(a)) == BitNot(a)
    ensures Signed((0 - Unsigned(a) as int) % MODULUS) == Wrap(-(a as int))
  {
    hide Signed, Wrap;
    UnsignedIs(a);
    Wrapped(-(a as int), 0 - Unsigned(a) as int, if a < 0 then -1 else 0);
    NotAgrees(a);
  }

  lemma NotAgrees(a: i32)
    ensures Signed(0xFFFF_FFFF - Unsigned(a)) == BitNot(a)
  {
  }

  // ---- shifts ----

  lemma NegativeQuotient(x: nat, p: nat)
    requires p >= 1
    ensures (-1 - x) / p == -1 - x / p
  {
    var q, r := x / p, x % p;
    assert x == p * q + r;
    assert -1 - x == p * (-1 - q) + (p - 1 - r);
    QuotientIs(-1 - x, p, -1 - q, p - 1 - r);
  }

  /** The helpers answer what the interpreter leaves. */
  lemma {:induction false} HelperAgrees(kind: ShiftKind, a: i32, b: i32)
    ensures HelperShift(kind, a, b) == Shifted(kind, a, b)
  {
    hide BitOps.Shr, BitOps.Shl, Low, Pow2, Signed, Unsigned;
    var c := b % 32;
    Pow2Of32();
    match kind {
      case Shl =>
        ShlMultiplies(Unsigned(a), c);
        LowRemains(Unsigned(a) * Pow2(c), 32);
      case Shr =>
        if a >= 0 {
          ShrDivides(a, c);
          QuotientShrinks(a, Pow2(c));
        } else {
          ShrDivides(-1 - a, c);
          QuotientShrinks(-1 - a, Pow2(c));
          NegativeQuotient(-1 - a, Pow2(c));
        }
      case Ushr =>
        ShrDivides(Unsigned(a), c);
    }
  }
}
