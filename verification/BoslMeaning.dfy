/** The BOSL opcodes byte by byte: what each leaves on the stack, in exact integers and
    single bits, independently of how the interpreter computes it. */
module BoslMeaning {
  import opened BitOps
  import opened Int32
  import opened Int32Facts
  import opened BoslVm

  /** The effect of the instruction at pc on a stack. */
  function At(code: seq<byte>, pc: nat, consts: seq<Const>, s: seq<i32>): Effect
    requires pc < |code| && |s| <= STACK_MAX
  {
    Step(Fetch(code, pc).0, consts, s)
  }

  /** The instruction at pc is the one byte op and finds as many operands as it needs. */
  predicate Ready(code: seq<byte>, pc: nat, op: byte, s: seq<i32>, operands: nat) {
    pc < |code| && code[pc] == op && operands <= |s| <= STACK_MAX
  }

  /** The two values on top of s are replaced by v, and nothing is printed. */
  ghost predicate Leaves(e: Effect, s: seq<i32>, v: i32)
    requires |s| >= 2
  {
    e == Next(s[..|s| - 2] + [v], [])
  }

  // ---- arithmetic ----

  /** 0x10 adds: the result is the sum up to a multiple of 2^32, and the sum itself when it fits. */
  lemma {:induction false} AddByte(code: seq<byte>, pc: nat, consts: seq<Const>, s: seq<i32>) returns (v: i32)
    requires Ready(code, pc, 0x10, s, 2)
    ensures Fetch(code, pc).1 == pc + 1 && Leaves(At(code, pc, consts, s), s, v)
    ensures var a, b := s[|s| - 2] as int, s[|s| - 1] as int;
            (v as int - (a + b)) % MODULUS == 0 && (-0x8000_0000 <= a + b < 0x8000_0000 ==> v == a + b)
  {
    hide Wrap;
    WrapIs(s[|s| - 2] as int + s[|s| - 1] as int);
    v := Wrap(s[|s| - 2] as int + s[|s| - 1] as int);
  }

  /** 0x11 subtracts the top from the value below it: adding the top back gives that value. */
  lemma {:induction false} SubtractByte(code: seq<byte>, pc: nat, consts: seq<Const>, s: seq<i32>) returns (v: i32)
    requires Ready(code, pc, 0x11, s, 2)
    ensures Fetch(code, pc).1 == pc + 1 && Leaves(At(code, pc, consts, s), s, v)
    ensures var a, b := s[|s| - 2] as int, s[|s| - 1] as int;
            (v as int + b - a) % MODULUS == 0 && (-0x8000_0000 <= a - b < 0x8000_0000 ==> v == a - b)
  {
    hide Wrap;
    WrapIs(s[|s| - 2] as int - s[|s| - 1] as int);
    v := Wrap(s[|s| - 2] as int - s[|s| - 1] as int);
  }

  /** 0x12 multiplies up to a multiple of 2^32. */
  lemma {:induction false} MultiplyByte(code: seq<byte>, pc: nat, consts: seq<Const>, s: seq<i32>) returns (v: i32)
    requires Ready(code, pc, 0x12, s, 2)
    ensures Fetch(code, pc).1 == pc + 1 && Leaves(At(code, pc, consts, s), s, v)
    ensures var a, b := s[|s| - 2] as int, s[|s| - 1] as int;
            (v as int - a * b) % MODULUS == 0 && (-0x8000_0000 <= a * b < 0x8000_0000 ==> v == a * b)
  {
    hide Wrap;
    WrapIs(s[|s| - 2] as int * s[|s| - 1] as int);
    v := Wrap(s[|s| - 2] as int * s[|s| - 1] as int);
  }

  /** 0x13 divides and 0x14 takes the remainder: the two belong together, the remainder is
      smaller than the divisor and has the sign of the dividend. Dividing by zero stops the
      run with an error, and the one quotient that does not fit is undefined. */
  lemma {:induction false} DivideBytes(code: seq<byte>, pc: nat, other: nat, consts: seq<Const>, s: seq<i32>)
    returns (q: i32, r: i32)
    requires Ready(code, pc, 0x13, s, 2) && Ready(code, other, 0x14, s, 2)
    ensures Fetch(code, pc).1 == pc + 1 && Fetch(code, other).1 == other + 1
    ensures var a, b := s[|s| - 2] as int, s[|s| - 1] as int;
            if b == 0 then
              At(code, pc, consts, s) == At(code, other, consts, s) == Stop(DivideByZero)
            else if a == -0x8000_0000 && b == -1 then
              At(code, pc, consts, s) == At(code, other, consts, s) == Stop(Undefined)
            else
              && Leaves(At(code, pc, consts, s), s, q) && Leaves(At(code, other, consts, s), s, r)
              && q * b + r == a && (-b < r < b || b < r < -b) && (r != 0 ==> (r < 0 <==> a < 0))
  {
    hide Quot, Rem;
    var a, b := s[|s| - 2] as int, s[|s| - 1] as int;
    q, r := 0, 0;
    if b != 0 && !DivOverflows(a, b) {
      Division(a, b);
      QuotFits(a, b);
      q, r := Quot(a, b), Rem(a, b);
    }
  }

  /** 0x15 negates: the sum with the value is a multiple of 2^32, and the result is the exact
      negative except for the least integer. */
  lemma {:induction false} NegateByte(code: seq<byte>, pc: nat, consts: seq<Const>, s: seq<i32>) returns (v: i32)
    requires Ready(code, pc, 0x15, s, 1)
    ensures Fetch(code, pc).1 == pc + 1 && At(code, pc, consts, s) == Next(s[..|s| - 1] + [v], [])
    ensures var a := s[|s| - 1] as int; (v as int + a) % MODULUS == 0 && (a != -0x8000_0000 ==> v == -a)
  {
    hide Wrap;
    WrapIs(-(s[|s| - 1] as int));
    v := Wrap(-(s[|s| - 1] as int));
  }

  // ---- single bits ----

  /** 0x16, 0x17 and 0x18 are and, or and exclusive or of the bits in each place. */
  lemma {:induction false} BitwiseBytes(code: seq<byte>, pc: nat, op: byte, consts: seq<Const>, s: seq<i32>)
    returns (v: i32)
    requires 0x16 <= op <= 0x18 && Ready(code, pc, op, s, 2)
    ensures Fetch(code, pc).1 == pc + 1 && Leaves(At(code, pc, consts, s), s, v)
    ensures forall k: nat {:trigger Bit(v, k)} | k < 32 ::
              var p, q := Bit(s[|s| - 2], k), Bit(s[|s| - 1], k);
              Bit(v, k) <==> if op == 0x16 then p && q else if op == 0x17 then p || q else p != q
  {
    hide BitAnd, BitOr, BitXor, Bit;
    var a, b := s[|s| - 2], s[|s| - 1];
    v := if op == 0x16 then BitAnd(a, b) else if op == 0x17 then BitOr(a, b) else BitXor(a, b);
    forall k: nat {:trigger Bit(v, k)} | k < 32
      ensures Bit(v, k) <==>
              if op == 0x16 then Bit(a, k) && Bit(b, k)
              else if op == 0x17 then Bit(a, k) || Bit(b, k)
              else Bit(a, k) != Bit(b, k)
    {
      BitwiseBits(a, b, k);
    }
  }

  /** 0x19 inverts every bit. */
  lemma {:induction false} NotByte(code: seq<byte>, pc: nat, consts: seq<Const>, s: seq<i32>) returns (v: i32)
    requires Ready(code, pc, 0x19, s, 1)
    ensures Fetch(code, pc).1 == pc + 1 && At(code, pc, consts, s) == Next(s[..|s| - 1] + [v], [])
    ensures forall k: nat {:trigger Bit(v, k)} | k < 32 :: Bit(v, k) <==> !Bit(s[|s| - 1], k)
  {
    hide BitNot, Bit;
    v := BitNot(s[|s| - 1]);
    forall k: nat {:trigger Bit(v, k)} | k < 32
      ensures Bit(v, k) <==> !Bit(s[|s| - 1], k)
    {
      BitwiseBits(s[|s| - 1], 0, k);
    }
  }

  /** 0x1A, 0x1B and 0x1C move the bits by the top modulo 32 places: up with zeros coming
      in, down with the sign coming in, and down with zeros coming in. */
  lemma {:induction false} ShiftBytes(code: seq<byte>, pc: nat, op: byte, consts: seq<Const>, s: seq<i32>)
    returns (v: i32)
    requires 0x1A <= op <= 0x1C && Ready(code, pc, op, s, 2)
    ensures Fetch(code, pc).1 == pc + 1 && Leaves(At(code, pc, consts, s), s, v)
    ensures var a, c := s[|s| - 2], s[|s| - 1] % 32;
            forall k: nat {:trigger Bit(v, k)} | k < 32 ::
              Bit(v, k) <==>
                if op == 0x1A then k >= c && Bit(a, k - c)
                else if k + c < 32 then Bit(a, k + c)
                else op == 0x1B && a < 0
  {
    hide ShiftLeft, ShiftRight, ShiftRightUnsigned, Bit;
    var a, b := s[|s| - 2], s[|s| - 1];
    v := if op == 0x1A then ShiftLeft(a, b) else if op == 0x1B then ShiftRight(a, b) else ShiftRightUnsigned(a, b);
    forall k: nat {:trigger Bit(v, k)} | k < 32
      ensures Bit(v, k) <==>
              if op == 0x1A then k >= b % 32 && Bit(a, k - b % 32)
              else if k + b % 32 < 32 then Bit(a, k + b % 32)
              else op == 0x1B && a < 0
    {
      LeftBits(a, b, k);
      RightBits(a, b, k);
      RightUnsignedBits(a, b, k);
    }
  }

  // ---- comparisons ----

  /** 0x40 to 0x45 leave 1 or 0 by the sign of the exact difference: equal, not equal, less,
      at most, greater, at least. */
  lemma {:induction false} CompareBytes(code: seq<byte>, pc: nat, op: byte, consts: seq<Const>, s: seq<i32>)
    returns (v: i32)
    requires 0x40 <= op <= 0x45 && Ready(code, pc, op, s, 2)
    ensures Fetch(code, pc).1 == pc + 1 && Leaves(At(code, pc, consts, s), s, v)
    ensures var d := s[|s| - 2] as int - s[|s| - 1] as int;
            && (v == 0 || v == 1)
            && (v == 1 <==>
                  if op == 0x40 then d == 0 else if op == 0x41 then d != 0 else if op == 0x42 then d < 0
                  else if op == 0x43 then d <= 0 else if op == 0x44 then d > 0 else d >= 0)
  {
    var e := At(code, pc, consts, s);
    v := e.stack[|s| - 2];
  }

  // ---- the stack ----

  /** 0x01 pushes the little-endian number in the four bytes behind it, read as a signed one,
      and fails when they are missing or the stack holds 256 values. */
  lemma {:induction false} PushByte(code: seq<byte>, pc: nat, consts: seq<Const>, s: seq<i32>)
    requires Ready(code, pc, 0x01, s, 0)
    ensures if pc + 5 > |code| || |s| == 256 then At(code, pc, consts, s) == Stop(Failed)
            else
              var n := code[pc + 1] as int + 256 * code[pc + 2] as int + 65536 * code[pc + 3] as int
                       + 16777216 * code[pc + 4] as int;
              && Fetch(code, pc).1 == pc + 5
              && At(code, pc, consts, s) == Next(s + [if n < 0x8000_0000 then n else n - 0x1_0000_0000], [])
  {
  }

  /** 0x03 pushes the constant whose number stands in the four bytes behind it, if that is a
      32-bit integer. */
  lemma {:induction false} PushConstantByte(code: seq<byte>, pc: nat, consts: seq<Const>, s: seq<i32>)
    requires Ready(code, pc, 0x03, s, 0)
    ensures if pc + 5 > |code| || |s| == 256 then At(code, pc, consts, s) == Stop(Failed)
            else
              var n := code[pc + 1] as int + 256 * code[pc + 2] as int + 65536 * code[pc + 3] as int
                       + 16777216 * code[pc + 4] as int;
              && Fetch(code, pc).1 == pc + 5
              && At(code, pc, consts, s) ==
                 if n < |consts| && consts[n].ConstInt? then Next(s + [consts[n].i], []) else Stop(Failed)
  {
  }

  /** 0x20 takes the top off and prints it, 0x21 doubles it, 0x22 drops it, 0x23 swaps the two
      on top, 0x24 copies the one below the top, and 0xFF ends the run. */
  lemma {:induction false} StackBytes(code: seq<byte>, pc: nat, op: byte, consts: seq<Const>, t: seq<i32>, a: i32,
                                      b: i32)
    requires 0x20 <= op <= 0x24 || op == 0xFF
    requires Ready(code, pc, op, t + [a, b], 0)
    ensures Fetch(code, pc).1 == pc + 1
    ensures At(code, pc, consts, t + [a, b]) ==
            if op == 0x20 then Next(t + [a], [b])
            else if op == 0x21 then (if |t| == 254 then Stop(Failed) else Next(t + [a, b, b], []))
            else if op == 0x22 then Next(t + [a], [])
            else if op == 0x23 then Next(t + [b, a], [])
            else if op == 0x24 then (if |t| == 254 then Stop(Failed) else Next(t + [a, b, a], []))
            else Stop(Halted)
  {
    hide Fetch, Step;
    if op <= 0x22 || op == 0xFF {
      TopBytes(code, pc, op, consts, t, a, b);
    } else {
      PairBytes(code, pc, op, consts, t, a, b);
    }
  }

  lemma {:induction false} TopBytes(code: seq<byte>, pc: nat, op: byte, consts: seq<Const>, t: seq<i32>, a: i32, b: i32)
    requires 0x20 <= op <= 0x22 || op == 0xFF
    requires Ready(code, pc, op, t + [a, b], 0)
    ensures Fetch(code, pc).1 == pc + 1
    ensures At(code, pc, consts, t + [a, b]) ==
            if op == 0x20 then Next(t + [a], [b])
            else if op == 0x21 then (if |t| == 254 then Stop(Failed) else Next(t + [a, b, b], []))
            else if op == 0x22 then Next(t + [a], [])
            else Stop(Halted)
  {
    var s := t + [a, b];
    assert s[..|s| - 1] == t + [a];
    assert s + [b] == t + [a, b, b];
  }

  lemma {:induction false} PairBytes(code: seq<byte>, pc: nat, op: byte, consts: seq<Const>, t: seq<i32>, a: i32,
                                     b: i32)
    requires 0x23 <= op <= 0x24 && Ready(code, pc, op, t + [a, b], 0)
    ensures Fetch(code, pc).1 == pc + 1
    ensures At(code, pc, consts, t + [a, b]) ==
            if op == 0x23 then Next(t + [b, a], [])
            else if |t| == 254 then Stop(Failed)
            else Next(t + [a, b, a], [])
  {
    var s := t + [a, b];
    assert s[..|s| - 2] == t;
    assert s + [a] == t + [a, b, a];
  }

  /** A byte without a meaning stops the run, and so does an operation that finds too few
      values. */
  lemma {:induction false} FailingBytes(code: seq<byte>, pc: nat, consts: seq<Const>, s: seq<i32>)
    requires pc < |code| && |s| <= STACK_MAX
    ensures var op := code[pc];
            if op == 0x01 || op == 0x03 || op == 0xFF then true
            else if 0x10 <= op <= 0x1C || 0x20 <= op <= 0x24 || 0x40 <= op <= 0x45 then
              var one := op == 0x15 || op == 0x19 || 0x20 <= op <= 0x22;
              |s| < (if one then 1 else 2) ==> At(code, pc, consts, s) == Stop(Failed)
            else At(code, pc, consts, s) == Stop(Failed)
  {
  }

  // ---- runs ----

  /** How a run ends as a number: 0 at a halt, 11 when more than limit instructions would be
      needed, 12 behind the end of the code, and 13 for every error. */
  lemma {:induction false} RunEnds(p: Program, limit: nat, pc: nat, steps: nat, s: seq<i32>, out: seq<i32>)
    requires |s| <= STACK_MAX
    ensures var r := Interpret(p, limit, pc, steps, s, out);
            if steps >= limit then r.end.Code() == 11 && r.out == out
            else if pc >= |p.code| then r.end.Code() == 12 && r.out == out
            else
              match At(p.code, pc, p.consts, s)
              case Stop(end) => r.end.Code() == (if p.code[pc] == 0xFF then 0 else 13) && r.out == out
              case Next(t, printed) => r == Interpret(p, limit, Fetch(p.code, pc).1, steps + 1, t, out + printed)
  {
    hide Arithmetic, Shifted, Holds, Quot, Rem;
  }

  /** push 5, push 3, subtract, print, halt. */
  const DIFFERENCE: seq<byte> := [0x01, 5, 0, 0, 0, 0x01, 3, 0, 0, 0, 0x11, 0x20, 0xFF]

  lemma {:induction false} DifferencePrinted(limit: nat)
    requires limit >= 5
    ensures var r := Interpret(Program(DIFFERENCE, [], 0), limit, 0, 0, [], []); r.end.Code() == 0 && r.out == [2]
  {
    hide Interpret, Fetch, Step, End.Code;
    var p, none: seq<i32> := Program(DIFFERENCE, [], 0), [];
    TwoPushed(p, limit);
    var v := SubtractByte(DIFFERENCE, 10, [], [5, 3]);
    RunEnds(p, limit, 10, 2, [5, 3], none);
    assert none + none == none;
    assert [5, 3][..0] + [v] == [2];
    PrintOne(p, limit);
    RunEnds(p, limit, 12, 4, none, [2]);
    HaltByte(p);
  }

  lemma {:induction false} TwoPushed(p: Program, limit: nat)
    requires p == Program(DIFFERENCE, [], 0) && limit >= 5
    ensures Interpret(p, limit, 0, 0, [], []) == Interpret(p, limit, 10, 2, [5, 3], [])
  {
    hide Interpret, Fetch, Step, End.Code;
    var none: seq<i32> := [];
    PushByte(DIFFERENCE, 0, [], none);
    RunEnds(p, limit, 0, 0, none, none);
    PushByte(DIFFERENCE, 5, [], [5]);
    RunEnds(p, limit, 5, 1, [5], none);
    assert none + [5] == [5] && [5] + [3] == [5, 3] && none + none == none;
  }

  lemma {:induction false} PrintOne(p: Program, limit: nat)
    requires p == Program(DIFFERENCE, [], 0) && limit >= 5
    ensures Interpret(p, limit, 11, 3, [2], []) == Interpret(p, limit, 12, 4, [], [2])
  {
    var none: seq<i32> := [];
    assert [2][..0] == none && none + [2] == [2];
  }

  lemma {:induction false} HaltByte(p: Program)
    requires p == Program(DIFFERENCE, [], 0)
    ensures At(p.code, 12, p.consts, []).Stop?
  {
  }
}
