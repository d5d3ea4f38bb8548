/** The JIT compiler of os/kernel/bosl_jit.c: one template per opcode, jumps on a
    zero divisor patched to a shared error epilogue, what every template does, and
    the methods that emit and link the code. */
module BoslJit {
  import opened Wrappers
  import opened BitOps
  import opened Int32
  import opened BoslVm
  import opened X86
  import X86Agrees

  const PROLOGUE: seq<Instr> := [PushRbx, MovEcxSp]
  const EPILOGUE_OK: seq<Instr> := [MovSpEcx, XorEaxEax, PopRbx, Ret]
  const EPILOGUE_ERR: seq<Instr> := [MovSpEcx, MovEaxImm(14), PopRbx, Ret]
  const BOSL_JIT_DIV0_MAX: nat := 16

  // ---- templates ----

  function Pop(r: Reg): seq<Instr> {
    [DecEcx, Load(r, ByEcx)]
  }

  function Push(r: Reg): seq<Instr> {
    [Store(ByEcx, r), IncEcx]
  }

  function Peek(r: Reg, depth: i32): seq<Instr> {
    [LeaEbx(depth), Load(r, ByEbx)]
  }

  function Poke(r: Reg, depth: i32): seq<Instr> {
    [LeaEbx(depth), Store(ByEbx, r)]
  }

  function PushTemplate(v: i32): seq<Instr> {
    [MovEaxImm(v)] + Push(Eax)
  }

  function BinaryTemplate(op: Arith): seq<Instr> {
    Pop(Eax) + (Pop(Edx) + ([Alu(op)] + Push(Edx)))
  }

  function DivideHead(): seq<Instr> {
    Pop(Ebx) + [TestEbx]
  }

  function DivideTail(wantRemainder: bool): seq<Instr> {
    Pop(Eax) + ([Cdq, IdivEbx] + Push(if wantRemainder then Edx else Eax))
  }

  function UnaryTemplate(i: Instr): seq<Instr> {
    Pop(Eax) + ([i] + Push(Eax))
  }

  const POP_R11: seq<Instr> := [DecEcx, LoadEaxR11]

  function ShiftTemplate(kind: ShiftKind): seq<Instr> {
    [MovR11Rdi] + (POP_R11 + ([MovEsiEax] + (POP_R11 + ([MovEdiEax]
    + ([MovRaxHelper(ShiftI32(kind)), CallRax] + ([StoreEaxR11, IncEcx] + [MovRdiR11]))))))
  }

  function CompareTemplate(c: Cond): seq<Instr> {
    Pop(Eax) + (Pop(Edx) + ([CmpEdxEax] + ([Setcc(c), MovzxEaxAl] + Push(Eax))))
  }

  function PrintTemplate(): seq<Instr> {
    Pop(Eax) + ([MovEsiEax] + [MovRaxHelper(PrintI32), CallRax])
  }

  /** Copies the value at the given depth: dup and over. */
  function CopyTemplate(depth: i32): seq<Instr> {
    Peek(Eax, depth) + Push(Eax)
  }

  function SwapTemplate(): seq<Instr> {
    Peek(Eax, 1) + (Peek(Edx, 2) + (Poke(Edx, 1) + Poke(Eax, 2)))
  }

  /** The code for one instruction, or None where the compiler gives up. Unpatched jumps have offset 0. */
  function Template(insn: Insn, consts: seq<Const>): Option<seq<Instr>> {
    match insn
    case PushI(v) => Some(PushTemplate(v))
    case PushK(idx) => if idx < |consts| && consts[idx].ConstInt? then Some(PushTemplate(consts[idx].i)) else None
    case Binary(op) => Some(BinaryTemplate(op))
    case Divide(rem) => Some(DivideHead() + ([Jz(0)] + DivideTail(rem)))
    case Neg => Some(UnaryTemplate(NegEax))
    case Not => Some(UnaryTemplate(NotEax))
    case Shift(kind) => Some(ShiftTemplate(kind))
    case Compare(c) => Some(CompareTemplate(c))
    case Print => Some(PrintTemplate())
    case Dup => Some(CopyTemplate(1))
    case Drop => Some([DecEcx])
    case Swap => Some(SwapTemplate())
    case Over => Some(CopyTemplate(2))
    case Halt => Some(EPILOGUE_OK)
    case Truncated => None
    case Other => None
  }

  // ---- what a template does ----

  /** The machine holds the interpreter's stack and output. */
  predicate Holding(m: Machine, s: seq<i32>, out: seq<i32>, rbx: Word) {
    && m.M? && m.rdi == Ctx && |s| <= STACK_MAX && m.ecx == Num(|s|)
    && |m.stack| == STACK_MAX && m.stack[..|s|] == s && m.out == out && m.saved == rbx
  }

  /** A template has left everything above the first n values as it was. */
  predicate Above(f: Machine, m: Machine, n: nat) {
    f.M? && m.M? && n <= |m.stack| == |f.stack| && f.stack[n..] == m.stack[n..]
  }

  predicate Ready(m: Machine, k: int) {
    m.M? && m.rdi == Ctx && |m.stack| == STACK_MAX && 0 <= k <= STACK_MAX && m.ecx == Num(k)
  }

  lemma PopRuns(r: Reg, abi: Abi, m: Machine, k: nat)
    requires Ready(m, k) && k >= 1
    ensures Straight(Pop(r), abi, 0, m) == Write(m.(ecx := Num(k - 1)), r, Num(m.stack[k - 1]))
  {
    StraightTwo(DecEcx, Load(r, ByEcx), abi, m);
  }

  lemma PushRuns(r: Reg, abi: Abi, m: Machine, k: nat)
    requires Ready(m, k) && k < STACK_MAX && X86.Read(m, r).Num?
    ensures Straight(Push(r), abi, 0, m) == m.(stack := m.stack[k := X86.Read(m, r).n], ecx := Num(k + 1))
  {
    StraightTwo(Store(ByEcx, r), IncEcx, abi, m);
  }

  lemma PeekRuns(r: Reg, depth: i32, abi: Abi, m: Machine, k: nat)
    requires Ready(m, k) && 1 <= depth <= k
    ensures Straight(Peek(r, depth), abi, 0, m) == Write(m.(ebx := Num(k - depth)), r, Num(m.stack[k - depth]))
  {
    StraightTwo(LeaEbx(depth), Load(r, ByEbx), abi, m);
  }

  lemma PokeRuns(r: Reg, depth: i32, abi: Abi, m: Machine, k: nat)
    requires Ready(m, k) && 1 <= depth <= k && r != Ebx && X86.Read(m, r).Num?
    ensures Straight(Poke(r, depth), abi, 0, m)
         == m.(ebx := Num(k - depth), stack := m.stack[k - depth := X86.Read(m, r).n])
  {
    StraightTwo(LeaEbx(depth), Store(ByEbx, r), abi, m);
  }

  lemma PushImmediateRuns(v: i32, abi: Abi, m: Machine, s: seq<i32>, out: seq<i32>, rbx: Word)
    requires Holding(m, s, out, rbx) && |s| < STACK_MAX
    ensures var f := Straight(PushTemplate(v), abi, 0, m); Holding(f, s + [v], out, rbx) && Above(f, m, |s| + 1)
  {
    hide Straight;
    var m1 := Exec(MovEaxImm(v), abi, m);
    StraightConcat([MovEaxImm(v)], Push(Eax), abi, 0, m);
    StraightOne(MovEaxImm(v), abi, m);
    PushRuns(Eax, abi, m1, |s|);
    assert m.stack[|s| := v][..|s| + 1] == s + [v];
  }

  /** Two pops bring the top into eax and the value below into edx. */
  lemma PopTwo(rest: seq<Instr>, abi: Abi, m: Machine, k: nat)
    requires Ready(m, k) && k >= 2
    ensures Straight(Pop(Eax) + (Pop(Edx) + rest), abi, 0, m)
         == Straight(rest, abi, 0, m.(eax := Num(m.stack[k - 1]), edx := Num(m.stack[k - 2]), ecx := Num(k - 2)))
  {
    hide Straight;
    StraightConcat(Pop(Eax), Pop(Edx) + rest, abi, 0, m);
    PopRuns(Eax, abi, m, k);
    var m1 := Straight(Pop(Eax), abi, 0, m);
    StraightConcat(Pop(Edx), rest, abi, 0, m1);
    PopRuns(Edx, abi, m1, k - 1);
  }

  /** Pushing r where two values were popped replaces them. */
  lemma PushResult(r: Reg, v: i32, drop: nat, abi: Abi, m: Machine, m1: Machine, s: seq<i32>, out: seq<i32>, rbx: Word)
    requires Holding(m, s, out, rbx) && 1 <= drop <= |s|
    requires Ready(m1, |s| - drop) && X86.Read(m1, r) == Num(v)
    requires m1.stack == m.stack && m1.out == out && m1.saved == rbx
    ensures var f := Straight(Push(r), abi, 0, m1);
            Holding(f, s[..|s| - drop] + [v], out, rbx) && Above(f, m, |s| - drop + 1)
  {
    hide Straight;
    PushRuns(r, abi, m1, |s| - drop);
    assert m1.stack[|s| - drop := v][..|s| - drop + 1] == s[..|s| - drop] + [v];
  }

  lemma BinaryRuns(op: Arith, abi: Abi, m: Machine, s: seq<i32>, out: seq<i32>, rbx: Word)
    requires Holding(m, s, out, rbx) && |s| >= 2
    ensures var n, f := |s|, Straight(BinaryTemplate(op), abi, 0, m);
            Holding(f, s[..n - 2] + [Arithmetic(op, s[n - 2], s[n - 1])], out, rbx) && Above(f, m, n - 1)
  {
    hide Straight, Arithmetic, AluWord;
    var n := |s|;
    X86Agrees.AluAgrees(op, s[n - 2], s[n - 1]);
    PopTwo([Alu(op)] + Push(Edx), abi, m, n);
    var m1 := m.(eax := Num(m.stack[n - 1]), edx := Num(m.stack[n - 2]), ecx := Num(n - 2));
    StraightConcat([Alu(op)], Push(Edx), abi, 0, m1);
    StraightOne(Alu(op), abi, m1);
    PushResult(Edx, Arithmetic(op, s[n - 2], s[n - 1]), 2, abi, m, Exec(Alu(op), abi, m1), s, out, rbx);
  }

  /** The flags of cmp decide the signed comparisons also when the difference overflows. */
  lemma FlagsDecide(m: Machine, c: Cond, a: i32, b: i32)
    requires m.M? && m.edx == Num(a) && m.eax == Num(b)
    ensures Cmp(m).M? && (Flag(Cmp(m), c) <==> Holds(c, a, b))
  {
  }

  lemma SetccRuns(c: Cond, abi: Abi, m: Machine)
    requires m.M? && m.eax.Num?
    ensures Exec(MovzxEaxAl, abi, Exec(Setcc(c), abi, m)) == m.(eax := Num(if Flag(m, c) then 1 else 0))
  {
    hide Flag;
    LowByte(Unsigned(m.eax.n), if Flag(m, c) then 1 else 0);
  }

  lemma LowByte(u: word, bit: nat)
    requires bit < 2
    ensures 0 <= u - u % 256 + bit < 0x1_0000_0000
    ensures Unsigned(Signed(u - u % 256 + bit)) % 256 == bit
  {
    var v := u - u % 256 + bit;
    assert v == 256 * (u / 256) + bit;
    assert Unsigned(Signed(v)) == v;
  }

  lemma CompareSteps(c: Cond, rest: seq<Instr>, abi: Abi, m: Machine, a: i32, b: i32)
    requires m.M? && m.edx == Num(a) && m.eax == Num(b)
    ensures Cmp(m).M?
    ensures Straight([CmpEdxEax] + ([Setcc(c), MovzxEaxAl] + rest), abi, 0, m)
         == Straight(rest, abi, 0, Cmp(m).(eax := Num(if Holds(c, a, b) then 1 else 0)))
  {
    FlagsDecide(m, c, a, b);
    CmpKeeps(m, abi);
    hide Straight, Flag, Holds, Cmp, Exec;
    StraightConcat([CmpEdxEax], [Setcc(c), MovzxEaxAl] + rest, abi, 0, m);
    StraightOne(CmpEdxEax, abi, m);
    var m2 := Cmp(m);
    StraightConcat([Setcc(c), MovzxEaxAl], rest, abi, 0, m2);
    StraightTwo(Setcc(c), MovzxEaxAl, abi, m2);
    SetccRuns(c, abi, m2);
  }

  lemma CmpKeeps(m: Machine, abi: Abi)
    requires m.M? && m.edx.Num? && m.eax.Num?
    ensures Exec(CmpEdxEax, abi, m) == Cmp(m)
    ensures var f := Cmp(m);
            && f.M? && f.eax == m.eax && f.ecx == m.ecx && f.rdi == m.rdi
            && f.stack == m.stack && f.out == m.out && f.saved == m.saved
  {
  }

  lemma CompareRuns(c: Cond, abi: Abi, m: Machine, s: seq<i32>, out: seq<i32>, rbx: Word)
    requires Holding(m, s, out, rbx) && |s| >= 2
    ensures var n, f := |s|, Straight(CompareTemplate(c), abi, 0, m);
            Holding(f, s[..n - 2] + [if Holds(c, s[n - 2], s[n - 1]) then 1 else 0], out, rbx) && Above(f, m, n - 1)
  {
    hide Straight, Cmp, Holds, Flag;
    var n := |s|;
    PopTwo([CmpEdxEax] + ([Setcc(c), MovzxEaxAl] + Push(Eax)), abi, m, n);
    var m1 := m.(eax := Num(s[n - 1]), edx := Num(s[n - 2]), ecx := Num(n - 2));
    CompareSteps(c, Push(Eax), abi, m1, s[n - 2], s[n - 1]);
    CmpKeeps(m1, abi);
    var v: i32 := if Holds(c, s[n - 2], s[n - 1]) then 1 else 0;
    PushResult(Eax, v, 2, abi, m, Cmp(m1).(eax := Num(v)), s, out, rbx);
  }

  lemma UnaryRuns(i: Instr, v: i32, abi: Abi, m: Machine, s: seq<i32>, out: seq<i32>, rbx: Word)
    requires Holding(m, s, out, rbx) && |s| >= 1
    requires (i == NotEax && v == BitNot(s[|s| - 1])) || (i == NegEax && v == Wrap(-(s[|s| - 1] as int)))
    ensures var f := Straight(UnaryTemplate(i), abi, 0, m); Holding(f, s[..|s| - 1] + [v], out, rbx) && Above(f, m, |s|)
  {
    hide Straight, Exec, BitNot, Wrap;
    StraightConcat(Pop(Eax), [i] + Push(Eax), abi, 0, m);
    PopRuns(Eax, abi, m, |s|);
    var m1 := m.(eax := Num(s[|s| - 1]), ecx := Num(|s| - 1));
    StraightConcat([i], Push(Eax), abi, 0, m1);
    StraightOne(i, abi, m1);
    UnaryStep(i, s[|s| - 1], v, abi, m1);
    PushResult(Eax, v, 1, abi, m, m1.(eax := Num(v)), s, out, rbx);
  }

  lemma UnaryStep(i: Instr, a: i32, v: i32, abi: Abi, m: Machine)
    requires m.M? && m.eax == Num(a) && ((i == NotEax && v == BitNot(a)) || (i == NegEax && v == Wrap(-(a as int))))
    ensures Exec(i, abi, m) == m.(eax := Num(v))
  {
    hide Wrap, BitNot, Signed, Unsigned;
    X86Agrees.UnaryAgrees(a);
  }

  lemma CopyRuns(depth: i32, abi: Abi, m: Machine, s: seq<i32>, out: seq<i32>, rbx: Word)
    requires Holding(m, s, out, rbx) && 1 <= depth <= |s| < STACK_MAX
    ensures var f := Straight(CopyTemplate(depth), abi, 0, m);
            Holding(f, s + [s[|s| - depth]], out, rbx) && Above(f, m, |s| + 1)
  {
    hide Straight;
    StraightConcat(Peek(Eax, depth), Push(Eax), abi, 0, m);
    PeekRuns(Eax, depth, abi, m, |s|);
    var m1 := Straight(Peek(Eax, depth), abi, 0, m);
    PushRuns(Eax, abi, m1, |s|);
    assert m.stack[|s| := s[|s| - depth]][..|s| + 1] == s + [s[|s| - depth]];
  }

  lemma SwapRuns(abi: Abi, m: Machine, s: seq<i32>, out: seq<i32>, rbx: Word)
    requires Holding(m, s, out, rbx) && |s| >= 2
    ensures var f := Straight(SwapTemplate(), abi, 0, m);
            Holding(f, s[..|s| - 2] + [s[|s| - 1], s[|s| - 2]], out, rbx) && Above(f, m, |s|)
  {
    hide Straight;
    var n := |s|;
    var a, b := Peek(Eax, 1), Peek(Edx, 2);
    var c, d := Poke(Edx, 1), Poke(Eax, 2);
    StraightConcat(a, b + (c + d), abi, 0, m);
    PeekRuns(Eax, 1, abi, m, n);
    var m1 := Straight(a, abi, 0, m);
    StraightConcat(b, c + d, abi, 0, m1);
    PeekRuns(Edx, 2, abi, m1, n);
    var m2 := Straight(b, abi, 0, m1);
    StraightConcat(c, d, abi, 0, m2);
    PokeRuns(Edx, 1, abi, m2, n);
    var m3 := Straight(c, abi, 0, m2);
    PokeRuns(Eax, 2, abi, m3, n);
    assert m.stack[n - 1 := s[n - 2]][n - 2 := s[n - 1]][..n] == s[..n - 2] + [s[n - 1], s[n - 2]];
  }

  /** A print pops and prints the top value; the stack pointer and the context are
      what the helper leaves of them. */
  lemma PrintRuns(abi: Abi, m: Machine, s: seq<i32>, out: seq<i32>, rbx: Word)
    requires Holding(m, s, out, rbx) && |s| >= 1
    ensures var f, v := Straight(PrintTemplate(), abi, 0, m), s[|s| - 1];
            var l := abi.left(PrintI32, out, [v]);
            f.M? && f.stack == m.stack && f.out == out + [v] && f.saved == rbx
            && f.rdi == Kept(Ctx, l.rdi) && f.ecx == Kept(Num(|s| - 1), l.ecx)
  {
    hide Straight, Exec;
    var call := [MovRaxHelper(PrintI32), CallRax];
    StraightConcat(Pop(Eax), [MovEsiEax] + call, abi, 0, m);
    PopRuns(Eax, abi, m, |s|);
    var m1 := m.(eax := Num(s[|s| - 1]), ecx := Num(|s| - 1));
    StraightConcat([MovEsiEax], call, abi, 0, m1);
    StraightOne(MovEsiEax, abi, m1);
    var m2 := m1.(esi := m1.eax);
    PrintMoves(abi, m1, m2);
    StraightTwo(MovRaxHelper(PrintI32), CallRax, abi, m2);
    PrintCall(abi, m2.(eax := Helper(PrintI32)), s[|s| - 1]);
  }

  lemma PrintMoves(abi: Abi, a: Machine, b: Machine)
    requires a.M? && b.M?
    ensures Exec(MovEsiEax, abi, a) == a.(esi := a.eax)
    ensures Exec(MovRaxHelper(PrintI32), abi, b) == b.(eax := Helper(PrintI32))
  {
  }

  lemma PrintCall(abi: Abi, m: Machine, v: i32)
    requires m.M? && m.eax == Helper(PrintI32) && m.rdi == Ctx && m.esi == Num(v)
    ensures var l := abi.left(PrintI32, m.out, [v]); Exec(CallRax, abi, m) == Returning(l, m, l.eax, m.out + [v])
  {
  }

  lemma PopR11Runs(abi: Abi, m: Machine, k: nat)
    requires m.M? && m.r11 == Ctx && |m.stack| == STACK_MAX && 1 <= k <= STACK_MAX && m.ecx == Num(k)
    ensures Straight(POP_R11, abi, 0, m) == m.(eax := Num(m.stack[k - 1]), ecx := Num(k - 1))
  {
    StraightTwo(DecEcx, LoadEaxR11, abi, m);
  }

  /** Pops a value through r11 and moves it on. */
  lemma PopR11Then(i: Instr, rest: seq<Instr>, abi: Abi, m: Machine, k: nat)
    requires m.M? && m.r11 == Ctx && |m.stack| == STACK_MAX && 1 <= k <= STACK_MAX && m.ecx == Num(k)
    ensures Straight(POP_R11 + ([i] + rest), abi, 0, m)
         == Straight(rest, abi, 0, Exec(i, abi, m.(eax := Num(m.stack[k - 1]), ecx := Num(k - 1))))
  {
    hide Straight;
    StraightConcat(POP_R11, [i] + rest, abi, 0, m);
    PopR11Runs(abi, m, k);
    var m1 := m.(eax := Num(m.stack[k - 1]), ecx := Num(k - 1));
    StraightConcat([i], rest, abi, 0, m1);
    StraightOne(i, abi, m1);
  }

  /** Both operands are fetched through r11, because mov edi, eax destroys the context pointer. */
  lemma ShiftArguments(rest: seq<Instr>, abi: Abi, m: Machine, s: seq<i32>, out: seq<i32>, rbx: Word)
    requires Holding(m, s, out, rbx) && |s| >= 2
    ensures var n := |s|;
            Straight([MovR11Rdi] + (POP_R11 + ([MovEsiEax] + (POP_R11 + ([MovEdiEax] + rest)))), abi, 0, m)
            == Straight(rest, abi, 0,
                m.(r11 := Ctx, esi := Num(s[n - 1]), eax := Num(s[n - 2]), rdi := Num(s[n - 2]), ecx := Num(n - 2)))
  {
    hide Straight;
    var n := |s|;
    hide Exec;
    var x5 := POP_R11 + ([MovEdiEax] + rest);
    var x3 := POP_R11 + ([MovEsiEax] + x5);
    var m1, m2 := m.(r11 := Ctx), m.(r11 := Ctx, eax := Num(s[n - 1]), ecx := Num(n - 1), esi := Num(s[n - 1]));
    MovesRun(abi, m, m1.(eax := Num(s[n - 1]), ecx := Num(n - 1)), m2.(eax := Num(s[n - 2]), ecx := Num(n - 2)));
    assert Straight([MovR11Rdi] + x3, abi, 0, m) == Straight(x3, abi, 0, m1) by {
      StraightConcat([MovR11Rdi], x3, abi, 0, m);
      StraightOne(MovR11Rdi, abi, m);
    }
    assert Straight(x3, abi, 0, m1) == Straight(x5, abi, 0, m2) by {
      PopR11Then(MovEsiEax, x5, abi, m1, n);
    }
    PopR11Then(MovEdiEax, rest, abi, m2, n - 1);
  }

  lemma MovesRun(abi: Abi, m: Machine, b: Machine, a: Machine)
    requires m.M? && m.rdi == Ctx && b.M? && a.M?
    ensures Exec(MovR11Rdi, abi, m) == m.(r11 := Ctx)
    ensures Exec(MovEsiEax, abi, b) == b.(esi := b.eax) && Exec(MovEdiEax, abi, a) == a.(rdi := a.eax)
  {
  }

  /** A shift replaces the two top values by the result, which it stores through r11
      wherever ecx points after the call. */
  lemma ShiftRuns(kind: ShiftKind, abi: Abi, m: Machine, s: seq<i32>, out: seq<i32>, rbx: Word)
    requires Holding(m, s, out, rbx) && |s| >= 2
    ensures var n, f := |s|, Straight(ShiftTemplate(kind), abi, 0, m);
            var l, v := abi.left(ShiftI32(kind), out, [s[n - 2], s[n - 1]]), Shifted(kind, s[n - 2], s[n - 1]);
            var c: int := if l.ecx.Some? then l.ecx.value as int else n - 2;
            if l.r11.None? && 0 <= c < STACK_MAX then
              f.M? && f.rdi == Ctx && f.stack == m.stack[c := v] && f.ecx == Num(c + 1) && f.out == out
                && f.saved == rbx
            else f.Fault?
  {
    hide Straight, Shifted;
    var n := |s|;
    var v := Shifted(kind, s[n - 2], s[n - 1]);
    var store := [StoreEaxR11, IncEcx] + [MovRdiR11];
    var call := [MovRaxHelper(ShiftI32(kind)), CallRax];
    ShiftArguments(call + store, abi, m, s, out, rbx);
    var m4 := m.(r11 := Ctx, esi := Num(s[n - 1]), eax := Num(s[n - 2]), rdi := Num(s[n - 2]), ecx := Num(n - 2));
    var l := abi.left(ShiftI32(kind), out, [s[n - 2], s[n - 1]]);
    StraightConcat(call, store, abi, 0, m4);
    ShiftCallRuns(kind, abi, m4, s[n - 2], s[n - 1]);
    ShiftStoreRuns(v, abi, Returning(l, m4, v, out));
  }

  lemma ShiftCallRuns(kind: ShiftKind, abi: Abi, m: Machine, a: i32, b: i32)
    requires m.M? && m.rdi == Num(a) && m.esi == Num(b)
    ensures Straight([MovRaxHelper(ShiftI32(kind)), CallRax], abi, 0, m)
         == Returning(abi.left(ShiftI32(kind), m.out, [a, b]), m, Shifted(kind, a, b), m.out)
  {
    hide Straight, Shifted;
    StraightTwo(MovRaxHelper(ShiftI32(kind)), CallRax, abi, m);
    ShiftCall(kind, abi, m.(eax := Helper(ShiftI32(kind))), a, b);
  }

  lemma ShiftCall(kind: ShiftKind, abi: Abi, m: Machine, a: i32, b: i32)
    requires m.M? && m.eax == Helper(ShiftI32(kind)) && m.rdi == Num(a) && m.esi == Num(b)
    ensures Exec(CallRax, abi, m)
         == Returning(abi.left(ShiftI32(kind), m.out, [a, b]), m, Shifted(kind, a, b), m.out)
  {
    hide Shifted, HelperShift;
    X86Agrees.HelperAgrees(kind, a, b);
  }

  lemma ShiftStoreRuns(v: i32, abi: Abi, m: Machine)
    requires m.M? && |m.stack| == STACK_MAX && m.ecx.Num? && m.eax == Num(v)
    ensures Straight([StoreEaxR11, IncEcx] + [MovRdiR11], abi, 0, m)
         == if m.r11 == Ctx && 0 <= m.ecx.n < STACK_MAX
            then m.(stack := m.stack[m.ecx.n := v], ecx := Num(m.ecx.n + 1), rdi := Ctx)
            else Fault
  {
    hide Straight;
    StraightConcat([StoreEaxR11, IncEcx], [MovRdiR11], abi, 0, m);
    StraightTwo(StoreEaxR11, IncEcx, abi, m);
    StraightOne(MovRdiR11, abi, Straight([StoreEaxR11, IncEcx], abi, 0, m));
  }

  // ---- division ----

  lemma DivideHeadRuns(abi: Abi, m: Machine, s: seq<i32>, out: seq<i32>, rbx: Word)
    requires Holding(m, s, out, rbx) && |s| >= 1
    ensures var d := s[|s| - 1];
            Straight(DivideHead(), abi, 0, m)
            == m.(ebx := Num(d), ecx := Num(|s| - 1), zf := d == 0, sf := d < 0, of := false)
  {
    hide Straight;
    StraightConcat(Pop(Ebx), [TestEbx], abi, 0, m);
    PopRuns(Ebx, abi, m, |s|);
    StraightOne(TestEbx, abi, Straight(Pop(Ebx), abi, 0, m));
  }

  /** cdq; idiv computes the truncated quotient and remainder of two 32-bit values. */
  lemma CdqIdivRuns(abi: Abi, m: Machine, a: i32, b: i32)
    requires m.M? && m.eax == Num(a) && m.ebx == Num(b) && b != 0 && !DivOverflows(a, b)
    ensures -0x8000_0000 <= Quot(a, b) < 0x8000_0000 && -0x8000_0000 <= Rem(a, b) < 0x8000_0000
    ensures Exec(IdivEbx, abi, Exec(Cdq, abi, m)) == m.(eax := Num(Quot(a, b)), edx := Num(Rem(a, b)))
  {
    QuotFits(a, b);
    var m1 := Exec(Cdq, abi, m);
    assert m1.edx.n as int * 0x1_0000_0000 + Unsigned(m1.eax.n) as int == a;
  }

  lemma DivideTailRuns(rem: bool, abi: Abi, m: Machine, m1: Machine, s: seq<i32>, out: seq<i32>, rbx: Word)
    requires Holding(m, s, out, rbx) && |s| >= 2
    requires Ready(m1, |s| - 1) && m1.ebx == Num(s[|s| - 1]) && m1.stack == m.stack && m1.out == out && m1.saved == rbx
    requires s[|s| - 1] != 0 && !DivOverflows(s[|s| - 2], s[|s| - 1])
    ensures var n := |s|; var v := if rem then Rem(s[n - 2], s[n - 1]) else Quot(s[n - 2], s[n - 1]);
            var f := Straight(DivideTail(rem), abi, 0, m1);
            -0x8000_0000 <= v < 0x8000_0000 && Holding(f, s[..n - 2] + [v], out, rbx) && Above(f, m, n - 1)
  {
    hide Straight, Quot, Rem;
    var n := |s|;
    var r := if rem then Edx else Eax;
    StraightConcat(Pop(Eax), [Cdq, IdivEbx] + Push(r), abi, 0, m1);
    PopRuns(Eax, abi, m1, n - 1);
    var m2 := m1.(eax := Num(s[n - 2]), ecx := Num(n - 2));
    StraightConcat([Cdq, IdivEbx], Push(r), abi, 0, m2);
    StraightTwo(Cdq, IdivEbx, abi, m2);
    CdqIdivRuns(abi, m2, s[n - 2], s[n - 1]);
    var v := if rem then Rem(s[n - 2], s[n - 1]) else Quot(s[n - 2], s[n - 1]);
    PushResult(r, v, 2, abi, m, Exec(IdivEbx, abi, Exec(Cdq, abi, m2)), s, out, rbx);
  }

  lemma TemplateNoBranch(insn: Insn, consts: seq<Const>)
    requires !insn.Divide? && !insn.Halt? && Template(insn, consts).Some?
    ensures NoBranch(Template(insn, consts).value) && Template(insn, consts).value != []
  {
    hide PushTemplate, BinaryTemplate, CompareTemplate, CopyTemplate, SwapTemplate, UnaryTemplate, ShiftTemplate,
         PrintTemplate;
    match insn {
      case PushI(v) => PushNoBranch(v);
      case PushK(idx) => PushNoBranch(consts[idx].i);
      case Binary(op) => BinaryNoBranch(op);
      case Neg => UnaryNoBranch(NegEax);
      case Not => UnaryNoBranch(NotEax);
      case Shift(kind) => ShiftNoBranch(kind);
      case Compare(c) => CompareNoBranch(c);
      case Print => PrintNoBranch();
      case Dup => CopyNoBranch(1);
      case Swap => SwapNoBranch();
      case Over => CopyNoBranch(2);
      case _ =>
    }
  }

  lemma PushNoBranch(v: i32)
    ensures NoBranch(PushTemplate(v)) && |PushTemplate(v)| == 3
  {
  }

  lemma BinaryNoBranch(op: Arith)
    ensures NoBranch(BinaryTemplate(op)) && BinaryTemplate(op) != []
  {
  }

  lemma UnaryNoBranch(i: Instr)
    requires i == NegEax || i == NotEax
    ensures NoBranch(UnaryTemplate(i)) && UnaryTemplate(i) != []
  {
  }

  lemma ShiftNoBranch(kind: ShiftKind)
    ensures NoBranch(ShiftTemplate(kind)) && |ShiftTemplate(kind)| == 12
  {
  }

  lemma CompareNoBranch(c: Cond)
    ensures NoBranch(CompareTemplate(c)) && CompareTemplate(c) != []
  {
  }

  lemma PrintNoBranch()
    ensures NoBranch(PrintTemplate()) && PrintTemplate() != []
  {
  }

  lemma CopyNoBranch(depth: i32)
    ensures NoBranch(CopyTemplate(depth)) && CopyTemplate(depth) != []
  {
  }

  lemma SwapNoBranch()
    ensures NoBranch(SwapTemplate()) && SwapTemplate() != []
  {
  }

  lemma DropHolds(abi: Abi, m: Machine, s: seq<i32>, out: seq<i32>, rbx: Word)
    requires Holding(m, s, out, rbx) && |s| >= 1
    ensures var f := Straight([DecEcx], abi, 0, m); Holding(f, s[..|s| - 1], out, rbx) && Above(f, m, |s| - 1)
  {
    StraightOne(DecEcx, abi, m);
  }

  predicate Calls(insn: Insn) {
    insn.Print? || insn.Shift?
  }

  /** Every template but division, halt and the two that call a helper carries out
      its instruction and touches nothing above the new top. */
  lemma TemplateRuns(insn: Insn, consts: seq<Const>, t: seq<Instr>, abi: Abi, m: Machine, s: seq<i32>, out: seq<i32>,
                     rbx: Word)
    requires Holding(m, s, out, rbx) && Template(insn, consts) == Some(t)
    requires !insn.Divide? && !Calls(insn) && Step(insn, consts, s).Next?
    ensures var e, f := Step(insn, consts, s), Straight(t, abi, 0, m);
            Holding(f, e.stack, out, rbx) && Above(f, m, |e.stack|) && e.printed == []
  {
    hide Straight, Arithmetic, Shifted, Holds, PushTemplate, BinaryTemplate, UnaryTemplate, ShiftTemplate,
         CompareTemplate, PrintTemplate, CopyTemplate, SwapTemplate, Holding, Above, Exec;
    match insn {
      case PushI(v) => PushImmediateRuns(v, abi, m, s, out, rbx);
      case PushK(idx) => PushImmediateRuns(consts[idx].i, abi, m, s, out, rbx);
      case Binary(op) => BinaryRuns(op, abi, m, s, out, rbx);
      case Neg => UnaryRuns(NegEax, Wrap(-(s[|s| - 1] as int)), abi, m, s, out, rbx);
      case Not => UnaryRuns(NotEax, BitNot(s[|s| - 1]), abi, m, s, out, rbx);
      case Compare(c) => CompareRuns(c, abi, m, s, out, rbx);
      case Dup => CopyRuns(1, abi, m, s, out, rbx);
      case Drop => DropHolds(abi, m, s, out, rbx);
      case Swap => SwapRuns(abi, m, s, out, rbx);
      case Over => CopyRuns(2, abi, m, s, out, rbx);
      case _ =>
    }
  }

  // ---- compiled programs ----

  /** The emitted code for everything from pc on: up to the first halt, which ends the compilation. */
  function Body(p: Program, pc: nat): Option<seq<Instr>>
    decreases |p.code| - pc
  {
    if pc >= |p.code| then Some([])
    else
      var (insn, next) := Fetch(p.code, pc);
      match Template(insn, p.consts)
      case None => None
      case Some(t) =>
        if insn.Halt? then Some(t)
        else
          match Body(p, next)
          case None => None
          case Some(b) => Some(t + b)
  }

  /** b lies at k in code, with every jump aimed at instruction err. */
  predicate Placed(code: seq<Instr>, k: nat, b: seq<Instr>, err: nat) {
    && k + |b| <= |code| && err <= |code|
    && forall i | 0 <= i < |b| ::
         if b[i].Jz? then code[k + i].Jz? && k + i + 1 <= err
           && Off(code, k + i + 1) + code[k + i].rel == Off(code, err)
         else code[k + i] == b[i]
  }

  lemma PlacedParts(code: seq<Instr>, k: nat, a: seq<Instr>, b: seq<Instr>, err: nat)
    requires Placed(code, k, a + b, err)
    ensures Placed(code, k, a, err) && Placed(code, k + |a|, b, err)
    ensures NoBranch(a) ==> code[k..k + |a|] == a
  {
    forall i | 0 <= i < |a|
      ensures (a + b)[i] == a[i]
    {
    }
    forall i | 0 <= i < |b|
      ensures (a + b)[|a| + i] == b[i] && code[k + |a| + i] == code[k + (|a| + i)]
    {
    }
  }

  /** A branch-free part runs straight through to what follows it, or faults. */
  lemma RunPart(code: seq<Instr>, abi: Abi, k: nat, a: seq<Instr>, b: seq<Instr>, err: nat, m: Machine)
    requires Placed(code, k, a + b, err) && NoBranch(a)
    ensures Placed(code, k + |a|, b, err)
    ensures Run(code, abi, k, m) == Run(code, abi, k + |a|, Straight(a, abi, 0, m))
  {
    PlacedParts(code, k, a, b, err);
    RunStraight(code, abi, k, a, 0, m);
  }

  /** The test of a division runs up to the jump. */
  lemma DivideTest(code: seq<Instr>, abi: Abi, k: nat, rem: bool, b: seq<Instr>, err: nat,
                   m: Machine, m1: Machine, s: seq<i32>, out: seq<i32>, rbx: Word)
    requires Placed(code, k, DivideHead() + ([Jz(0)] + DivideTail(rem)) + b, err) && Holding(m, s, out, rbx) && |s| >= 1
    requires var d := s[|s| - 1]; m1 == m.(ebx := Num(d), ecx := Num(|s| - 1), zf := d == 0, sf := d < 0, of := false)
    ensures Run(code, abi, k, m) == Run(code, abi, k + 3, m1)
    ensures k + 3 < |code| && code[k + 3].Jz? && k + 4 <= err <= |code|
    ensures Off(code, k + 4) + code[k + 3].rel == Off(code, err)
    ensures Placed(code, k + 4, DivideTail(rem) + b, err)
  {
    hide Straight, Run, DivideTail, Off;
    var head, tail := DivideHead(), DivideTail(rem);
    assert head + ([Jz(0)] + tail) + b == head + ([Jz(0)] + (tail + b));
    DivideHeadRuns(abi, m, s, out, rbx);
    RunPart(code, abi, k, head, [Jz(0)] + (tail + b), err, m);
    PlacedParts(code, k + 3, [Jz(0)], tail + b, err);
    assert [Jz(0)][0].Jz?;
  }

  /** On a zero divisor the patched jump leads to the error code, also when that
      was the only value on the stack. */
  lemma DivideByZeroRuns(code: seq<Instr>, abi: Abi, k: nat, rem: bool, b: seq<Instr>, err: nat,
                         m: Machine, s: seq<i32>, out: seq<i32>, rbx: Word) returns (m': Machine)
    requires Placed(code, k, DivideHead() + ([Jz(0)] + DivideTail(rem)) + b, err) && Holding(m, s, out, rbx) && |s| >= 1
    requires s[|s| - 1] == 0
    ensures Run(code, abi, k, m) == Run(code, abi, err, m') && Holding(m', s[..|s| - 1], out, rbx)
            && m'.stack == m.stack
  {
    hide Placed, Off, DivideHead, DivideTail;
    m' := m.(ebx := Num(0), ecx := Num(|s| - 1), zf := true, sf := false, of := false);
    DivideTest(code, abi, k, rem, b, err, m, m', s, out, rbx);
    AtOff(code, err);
    hide At;
    assert Run(code, abi, k + 3, m') == Run(code, abi, err, m');
    assert m'.stack[..|s| - 1] == m.stack[..|s|][..|s| - 1];
  }

  /** Otherwise the division is carried out. */
  lemma DivideRuns(code: seq<Instr>, abi: Abi, k: nat, rem: bool, b: seq<Instr>, err: nat,
                   m: Machine, s: seq<i32>, out: seq<i32>, rbx: Word) returns (m': Machine)
    requires Placed(code, k, DivideHead() + ([Jz(0)] + DivideTail(rem)) + b, err) && Holding(m, s, out, rbx) && |s| >= 2
    requires s[|s| - 1] != 0 && !DivOverflows(s[|s| - 2], s[|s| - 1])
    ensures var e := Step(Divide(rem), [], s);
            e.Next? && e.printed == [] && Holding(m', e.stack, out, rbx) && Above(m', m, |e.stack|)
    ensures Run(code, abi, k, m) == Run(code, abi, k + 10, m')
  {
    hide Straight, Quot, Rem, Placed, Off, DivideHead, At;
    var d := s[|s| - 1];
    var tail := DivideTail(rem);
    var m1 := m.(ebx := Num(d), ecx := Num(|s| - 1), zf := false, sf := d < 0, of := false);
    DivideTest(code, abi, k, rem, b, err, m, m1, s, out, rbx);
    assert Run(code, abi, k + 3, m1) == Run(code, abi, k + 4, m1);
    hide Run;
    DivideTailRuns(rem, abi, m, m1, s, out, rbx);
    RunPart(code, abi, k + 4, tail, b, err, m1);
    m' := Straight(tail, abi, 0, m1);
  }

  lemma DivideStep(rem: bool, consts: seq<Const>, s: seq<i32>)
    requires |s| <= STACK_MAX && Step(Divide(rem), consts, s).Next?
    ensures |s| >= 2 && s[|s| - 1] != 0 && !DivOverflows(s[|s| - 2], s[|s| - 1])
    ensures Step(Divide(rem), consts, s) == Step(Divide(rem), [], s)
  {
  }

  lemma HaltTemplate(consts: seq<Const>)
    ensures Template(Halt, consts) == Some(EPILOGUE_OK)
  {
  }

  lemma DivideTemplate(rem: bool, consts: seq<Const>)
    ensures Template(Divide(rem), consts) == Some(DivideHead() + ([Jz(0)] + DivideTail(rem)))
    ensures |DivideHead() + ([Jz(0)] + DivideTail(rem))| == 10
  {
  }

  lemma NotHalt(insn: Insn, consts: seq<Const>, s: seq<i32>)
    requires |s| <= STACK_MAX && Step(insn, consts, s).Next?
    ensures !insn.Halt? && !insn.Truncated? && !insn.Other?
    ensures Template(insn, consts).Some?
    ensures insn.Divide? ==> Step(insn, consts, s).printed == []
  {
  }

  // ---- emitting and patching ----

  const JIT_CAP: nat := 16 * 1024

  function JzCount(code: seq<Instr>): nat {
    if code == [] then 0 else JzCount(code[..|code| - 1]) + (if code[|code| - 1].Jz? then 1 else 0)
  }

  /** What gets into a buffer that already holds len bytes: emission stops for good
      at the first instruction too many. */
  function Fitting(len: nat, xs: seq<Instr>): seq<Instr>
    decreases |xs|
  {
    if xs == [] || len + Size(xs[0]) > JIT_CAP then []
    else [xs[0]] + Fitting(len + Size(xs[0]), xs[1..])
  }

  /** Every jump aimed at byte offset target. */
  function Aimed(code: seq<Instr>, target: nat): (r: seq<Instr>)
    ensures |r| == |code|
  {
    seq(|code|, i requires 0 <= i < |code| => if code[i].Jz? then Jz(target - Off(code, i + 1)) else code[i])
  }

  /** The finished code: the shared error epilogue goes behind it when anything divides. */
  function Link(code: seq<Instr>): seq<Instr> {
    if JzCount(code) == 0 then code
    else Aimed(code, Off(code, |code|)) + Fitting(Off(code, |code|), EPILOGUE_ERR)
  }

  /** The code before patching, or None where the compiler falls back to the interpreter. */
  function Compile(p: Program): Option<seq<Instr>> {
    match Body(p, 0)
    case None => None
    case Some(b) =>
      var code := PROLOGUE + b;
      if Off(code, |code|) > JIT_CAP || JzCount(code) > BOSL_JIT_DIV0_MAX then None else Some(code)
  }

  /** emit_t: a buffer of bounded size whose error flag is sticky. Bytes of an
      instruction that does not fit are never used and are left out. */
  class Emitter {
    var code: seq<Instr>
    var len: nat
    var err: bool

    constructor ()
      ensures code == [] && len == 0 && !err && Valid()
    {
      code, len, err := [], 0, false;
    }

    ghost predicate Valid()
      reads this
    {
      len == Off(code, |code|) && len <= JIT_CAP
    }

    method Emit(i: Instr)
      requires Valid()
      modifies this
      ensures Valid()
      ensures code == old(code) + (if !err then [i] else [])
      ensures err <==> old(err) || old(len) + Size(i) > JIT_CAP
      ensures !err ==> len == old(len) + Size(i)
    {
      if err {
        return;
      }
      if len + Size(i) > JIT_CAP {
        err := true;
        return;
      }
      OffAppend(code, [i], |code|);
      code := code + [i];
      len := len + Size(i);
      assert code[|code| - 1] == i;
    }

    /** A template, one instruction after the other. */
    method EmitAll(xs: seq<Instr>)
      requires Valid()
      modifies this
      ensures Valid() && (old(err) ==> err && code == old(code))
      ensures !old(err) ==> code == old(code) + Fitting(old(len), xs)
      ensures !old(err) ==> (err <==> Off(old(code) + xs, |old(code) + xs|) > JIT_CAP)
      ensures !err ==> code == old(code) + xs
    {
      ghost var c, n := code, len;
      ghost var was := err;
      EmitStarts(c, n, xs);
      for i := 0 to |xs|
        invariant Valid()
        invariant was ==> err && code == c
        invariant !was && !err ==> Emitted(c, n, xs, i, code, len)
        invariant !was && err ==> code == c + Fitting(n, xs) && Off(c + xs, |c + xs|) > JIT_CAP
      {
        hide Emitted, Fitting, Off;
        ghost var before, l := code, len;
        ghost var open := !was && !err;
        Emit(xs[i]);
        if open {
          if err {
            EmitStops(c, n, xs, i, before, l);
          } else {
            EmitNext(c, n, xs, i, before, l);
          }
        }
      }
      if !err {
        EmitEnds(c, n, xs, code, len);
      }
    }

    /** patch32 on the operand of the jump whose rel32 starts at byte at. */
    method Patch32(at: nat, rel: int, ghost k: nat)
      requires Valid() && k < |code| && code[k].Jz? && at == Off(code, k) + 2
      modifies this`code
      ensures Valid() && code == old(code)[k := Jz(rel)]
    {
      AtOff(code, k);
      var j := At(code, at - 2);
      SameSizes(code, code[j := Jz(rel)], |code|);
      code := code[j := Jz(rel)];
    }
  }

  /** The first i instructions of xs have been appended to c, and the rest is going
      to get in as far as Fitting says. */
  ghost predicate Emitted(c: seq<Instr>, n: nat, xs: seq<Instr>, i: nat, code: seq<Instr>, len: nat)
    requires i <= |xs|
  {
    code == c + xs[..i] && c + Fitting(n, xs) == code + Fitting(len, xs[i..])
  }

  lemma EmitStarts(c: seq<Instr>, n: nat, xs: seq<Instr>)
    ensures Emitted(c, n, xs, 0, c, n)
  {
    hide Fitting;
    assert xs[0..] == xs && c + [] == c;
  }

  lemma EmitNext(c: seq<Instr>, n: nat, xs: seq<Instr>, i: nat, code: seq<Instr>, len: nat)
    requires i < |xs| && Emitted(c, n, xs, i, code, len) && len + Size(xs[i]) <= JIT_CAP
    ensures Emitted(c, n, xs, i + 1, code + [xs[i]], len + Size(xs[i]))
  {
    hide Size;
    var rest := Fitting(len + Size(xs[i]), xs[i + 1..]);
    assert xs[i..][0] == xs[i] && xs[i..][1..] == xs[i + 1..];
    assert Fitting(len, xs[i..]) == [xs[i]] + rest;
    assert code + ([xs[i]] + rest) == code + [xs[i]] + rest;
    assert c + xs[..i + 1] == c + xs[..i] + [xs[i]];
  }

  lemma EmitStops(c: seq<Instr>, n: nat, xs: seq<Instr>, i: nat, code: seq<Instr>, len: nat)
    requires i < |xs| && Emitted(c, n, xs, i, code, len) && len == Off(code, |code|) && len + Size(xs[i]) > JIT_CAP
    ensures code == c + Fitting(n, xs) && Off(c + xs, |c + xs|) > JIT_CAP
  {
    hide Size;
    assert xs[i..][0] == xs[i];
    assert Fitting(len, xs[i..]) == [];
    var all := c + xs;
    assert all == code + xs[i..] && all[|code|] == xs[i];
    OffPrefix(code, xs[i..], |code|);
    OffGrows(all, |code| + 1, |all|);
  }

  lemma EmitEnds(c: seq<Instr>, n: nat, xs: seq<Instr>, code: seq<Instr>, len: nat)
    requires Emitted(c, n, xs, |xs|, code, len)
    ensures code == c + xs == c + Fitting(n, xs)
  {
    assert xs[..|xs|] == xs && xs[|xs|..] == [];
  }

  lemma {:induction false} OffAppend(a: seq<Instr>, b: seq<Instr>, k: nat)
    ensures k <= |a| ==> Off(a + b, k) == Off(a, k)
    ensures k <= |b| ==> Off(a + b, |a| + k) >= Off(a, |a|) + k
  {
    if k <= |a| {
      OffPrefix(a, b, k);
    }
    OffPrefix(a, b, |a|);
    if 0 < k <= |b| {
      OffAppend(a, b, k - 1);
    }
  }

  lemma {:induction false} OffPrefix(a: seq<Instr>, b: seq<Instr>, k: nat)
    requires k <= |a|
    ensures Off(a + b, k) == Off(a, k)
  {
    if k > 0 {
      OffPrefix(a, b, k - 1);
    }
  }

  lemma OffGrows(code: seq<Instr>, j: nat, k: nat)
    requires j <= k <= |code|
    ensures Off(code, j) <= Off(code, k)
  {
    if j < k {
      OffMonotone(code, j, k);
    }
  }

  /** Offsets depend on the sizes only. */
  lemma {:induction false} SameSizes(a: seq<Instr>, b: seq<Instr>, k: nat)
    requires k <= |a| && k <= |b| && forall i | 0 <= i < k :: Size(a[i]) == Size(b[i])
    ensures Off(a, k) == Off(b, k)
  {
    if k > 0 {
      SameSizes(a, b, k - 1);
    }
  }

  // ---- the compile loop ----

  /** Positions of the jumps in code, in order. */
  ghost predicate JumpsAt(code: seq<Instr>, ks: seq<nat>) {
    && |ks| == JzCount(code)
    && (forall i | 0 <= i < |ks| :: ks[i] < |code| && code[ks[i]].Jz?)
    && (forall k: nat | k < |code| && code[k].Jz? :: k in ks)
    && (forall i, j | 0 <= i < j < |ks| :: ks[i] < ks[j])
  }

  lemma {:induction false} JzCountAppend(a: seq<Instr>, b: seq<Instr>)
    ensures JzCount(a + b) == JzCount(a) + JzCount(b)
  {
    if b == [] {
      assert a + b == a;
    } else {
      assert (a + b)[..|a + b| - 1] == a + b[..|b| - 1];
      JzCountAppend(a, b[..|b| - 1]);
    }
  }

  lemma {:induction false} NoBranchCount(a: seq<Instr>)
    requires forall k | 0 <= k < |a| :: !a[k].Jz?
    ensures JzCount(a) == 0
  {
    if a != [] {
      NoBranchCount(a[..|a| - 1]);
    }
  }

  /** uses_only_int_ops: the whole code is a sequence of accepted instructions. */
  function OnlyIntOps(code: seq<byte>, pc: nat): bool
    decreases |code| - pc
  {
    if pc >= |code| then true
    else
      var (insn, next) := Fetch(code, pc);
      !insn.Truncated? && !insn.Other? && OnlyIntOps(code, next)
  }

  method UsesOnlyIntOps(code: seq<byte>) returns (ok: bool)
    ensures ok == OnlyIntOps(code, 0)
  {
    var pc := 0;
    while pc < |code|
      invariant OnlyIntOps(code, 0) == OnlyIntOps(code, pc)
      decreases |code| - pc
    {
      var (insn, next) := Fetch(code, pc);
      if insn.Truncated? || insn.Other? {
        return false;
      }
      pc := next;
    }
    return true;
  }

  lemma PrefixOverflows(a: seq<Instr>, b: seq<Instr>)
    ensures Off(a + b, |a + b|) >= Off(a, |a|)
    ensures JzCount(a + b) >= JzCount(a)
  {
    OffAppend(a, b, |b|);
    JzCountAppend(a, b);
  }

  /** What is known before pc is compiled: done is the part of the body emitted so far. */
  ghost predicate Progress(p: Program, pc: nat, done: seq<Instr>) {
    match Body(p, pc)
    case None => Body(p, 0).None?
    case Some(b) => Body(p, 0) == Some(done + b)
  }

  lemma ProgressStep(p: Program, pc: nat, done: seq<Instr>, t: seq<Instr>)
    requires pc < |p.code| && Progress(p, pc, done)
    requires var (insn, next) := Fetch(p.code, pc); Template(insn, p.consts) == Some(t)
    ensures var (insn, next) := Fetch(p.code, pc);
            if insn.Halt? then Body(p, 0) == Some(done + t) else Progress(p, next, done + t)
  {
    hide Template;
    var (insn, next) := Fetch(p.code, pc);
    if !insn.Halt? && Body(p, next).Some? {
      assert done + (t + Body(p, next).value) == done + t + Body(p, next).value;
    }
  }

  /** An emitted prefix that is already too large, or divides too often, makes the compilation fail. */
  lemma TooMuch(p: Program, pc: nat, done: seq<Instr>)
    requires Progress(p, pc, done) || Body(p, 0) == Some(done)
    requires Off(PROLOGUE + done, |PROLOGUE + done|) > JIT_CAP || JzCount(PROLOGUE + done) > BOSL_JIT_DIV0_MAX
    ensures Compile(p).None?
  {
    hide Body, Off, JzCount;
    if Body(p, 0).Some? && Body(p, 0) != Some(done) {
      var b := Body(p, pc).value;
      assert PROLOGUE + (done + b) == PROLOGUE + done + b;
      PrefixOverflows(PROLOGUE + done, b);
    }
  }

  /** The recorded patch positions are the operands of the jumps emitted so far. */
  ghost predicate Recorded(code: seq<Instr>, div0: seq<nat>, ks: seq<nat>) {
    JumpsAt(code, ks) && |div0| == |ks| && forall i | 0 <= i < |ks| :: div0[i] == Off(code, ks[i]) + 2
  }

  lemma RecordedAppend(code: seq<Instr>, t: seq<Instr>, div0: seq<nat>, ks: seq<nat>)
    requires Recorded(code, div0, ks) && forall k | 0 <= k < |t| :: !t[k].Jz?
    ensures Recorded(code + t, div0, ks)
  {
    NoBranchCount(t);
    JzCountAppend(code, t);
    forall i | 0 <= i < |ks|
      ensures Off(code + t, ks[i]) == Off(code, ks[i]) && (code + t)[ks[i]] == code[ks[i]]
    {
      OffPrefix(code, t, ks[i]);
    }
  }

  lemma JumpsJump(code: seq<Instr>, ks: seq<nat>)
    requires JumpsAt(code, ks)
    ensures JumpsAt(code + [Jz(0)], ks + [|code|])
  {
    var c, js := code + [Jz(0)], ks + [|code|];
    assert c[..|c| - 1] == code;
    assert JzCount(c) == JzCount(code) + 1;
    hide JzCount;
    forall i | 0 <= i < |js|
      ensures js[i] < |c| && c[js[i]].Jz?
    {
      assert i < |ks| ==> js[i] == ks[i] && c[ks[i]] == code[ks[i]];
    }
    forall k: nat | k < |c| && c[k].Jz?
      ensures k in js
    {
      if k < |code| {
        var i :| 0 <= i < |ks| && ks[i] == k;
        assert js[i] == k;
      } else {
        assert js[|ks|] == k;
      }
    }
  }

  lemma JumpOperand(code: seq<Instr>, div0: seq<nat>, ks: seq<nat>, i: nat)
    requires |div0| == |ks| && i <= |ks|
    requires i < |ks| ==> ks[i] <= |code| && div0[i] == Off(code, ks[i]) + 2
    ensures (ks + [|code|])[i] <= |code + [Jz(0)]|
    ensures (div0 + [Off(code, |code|) + 2])[i] == Off(code + [Jz(0)], (ks + [|code|])[i]) + 2
  {
    hide Off;
    var at := if i < |ks| then ks[i] else |code|;
    OffPrefix(code, [Jz(0)], at);
    assert (ks + [|code|])[i] == at;
  }

  lemma RecordedJump(code: seq<Instr>, div0: seq<nat>, ks: seq<nat>)
    requires Recorded(code, div0, ks)
    ensures Recorded(code + [Jz(0)], div0 + [Off(code, |code|) + 2], ks + [|code|])
  {
    JumpsJump(code, ks);
    hide Off;
    forall i | 0 <= i <= |ks|
      ensures (ks + [|code|])[i] <= |code + [Jz(0)]|
      ensures (div0 + [Off(code, |code|) + 2])[i] == Off(code + [Jz(0)], (ks + [|code|])[i]) + 2
    {
      JumpOperand(code, div0, ks, i);
    }
  }

  /** emit_divmod: the answer is the position of the jump's operand. */
  method EmitDivmod(e: Emitter, rem: bool) returns (at: nat)
    requires e.Valid() && !e.err
    modifies e
    ensures e.Valid()
    ensures var t := DivideHead() + ([Jz(0)] + DivideTail(rem));
            (e.err <==> Off(old(e.code) + t, |old(e.code) + t|) > JIT_CAP)
            && (!e.err ==>
                  e.code == old(e.code) + t
                  && at == Off(old(e.code) + DivideHead(), |old(e.code) + DivideHead()|) + 2)
  {
    hide Off, Fitting, DivideHead, DivideTail, Emitter.Valid;
    DivmodOffsets(e.code, DivideHead(), DivideTail(rem));
    LenOf(e);
    e.EmitAll(DivideHead());
    LenOf(e);
    at := e.len + 2;
    e.Emit(Jz(0));
    LenOf(e);
    e.EmitAll(DivideTail(rem));
  }

  lemma LenOf(e: Emitter)
    requires e.Valid()
    ensures e.len == Off(e.code, |e.code|) <= JIT_CAP
  {
  }

  lemma DivmodOffsets(c: seq<Instr>, h: seq<Instr>, t: seq<Instr>)
    ensures c + (h + ([Jz(0)] + t)) == c + h + [Jz(0)] + t
    ensures var all := c + h + [Jz(0)] + t;
            Off(all, |all|) >= Off(c + h + [Jz(0)], |c + h + [Jz(0)]|) == Off(c + h, |c + h|) + Size(Jz(0))
  {
    var j := c + h + [Jz(0)];
    PrefixOverflows(j, t);
    OffPrefix(c + h, [Jz(0)], |c + h|);
    assert j[|c + h|] == Jz(0);
  }

  /** Emits the code of one instruction; a division also records its jump. Fails
      when the buffer or the table of jumps is full. */
  method EmitInsn(e: Emitter, div0: array<nat>, n: nat, ghost ks: seq<nat>, insn: Insn, consts: seq<Const>)
    returns (ok: bool, n': nat, ghost ks': seq<nat>)
    requires e.Valid() && !e.err && div0.Length == BOSL_JIT_DIV0_MAX && n <= BOSL_JIT_DIV0_MAX
    requires Recorded(e.code, div0[..n], ks) && Template(insn, consts).Some?
    modifies e, div0
    ensures e.Valid() && n' <= BOSL_JIT_DIV0_MAX && (ok ==> !e.err)
    ensures var code := old(e.code) + Template(insn, consts).value;
            if ok then e.code == code && Recorded(e.code, div0[..n'], ks')
            else Off(code, |code|) > JIT_CAP || JzCount(code) > BOSL_JIT_DIV0_MAX
  {
    hide Template, JumpsAt, DivideHead, DivideTail;
    n', ks' := n, ks;
    if insn.Divide? {
      DivideTemplate(insn.wantRemainder, consts);
      DivideCounts(e.code, div0[..n], ks, insn.wantRemainder);
      if n >= BOSL_JIT_DIV0_MAX {
        CountsAre(e.code, ks);
        return false, n, ks;
      }
      ghost var jump := |e.code| + |DivideHead()|;
      ghost var before := div0[..n];
      var at := EmitDivmod(e, insn.wantRemainder);
      if !e.err {
        div0[n] := at;
        assert div0[..n + 1] == before + [at];
        n', ks' := n + 1, ks + [jump];
      }
    } else {
      TemplateJumps(insn, consts);
      RecordedAppend(e.code, Template(insn, consts).value, div0[..n], ks);
      e.EmitAll(Template(insn, consts).value);
    }
    ok := !e.err;
  }

  /** The loop over the bytecode. On success the buffer holds the unpatched code
      and div0 the operands to patch; failed means that the interpreter takes over. */
  method CompileLoop(p: Program, e: Emitter, div0: array<nat>) returns (failed: bool, n: nat, ghost ks: seq<nat>)
    requires e.Valid() && !e.err && e.code == PROLOGUE && div0.Length == BOSL_JIT_DIV0_MAX
    modifies e, div0
    ensures e.Valid() && n <= BOSL_JIT_DIV0_MAX
    ensures failed ==> Compile(p).None?
    ensures !failed ==> Compile(p) == Some(e.code) && !e.err && Recorded(e.code, div0[..n], ks)
  {
    hide Template, Recorded, Body, Compile, Progress, Off, JzCount;
    ghost var done: seq<Instr> := [];
    var pc := 0;
    n, ks := 0, [];
    StartOfCompilation(p);
    assert div0[..0] == [] && PROLOGUE + done == PROLOGUE;
    while pc < |p.code|
      invariant e.Valid() && !e.err && e.code == PROLOGUE + done && n <= BOSL_JIT_DIV0_MAX
      invariant Progress(p, pc, done)
      invariant Recorded(e.code, div0[..n], ks)
      decreases |p.code| - pc
    {
      var (insn, next) := Fetch(p.code, pc);
      if Template(insn, p.consts).None? {
        NoTemplate(p, pc, done);
        return true, n, ks;
      }
      ghost var t := Template(insn, p.consts).value;
      ProgressStep(p, pc, done, t);
      assert PROLOGUE + done + t == PROLOGUE + (done + t);
      var ok;
      ok, n, ks := EmitInsn(e, div0, n, ks, insn, p.consts);
      if !ok {
        TooMuch(p, next, done + t);
        return true, n, ks;
      }
      done := done + t;
      if insn.Halt? {
        CompileIs(p, done, e.code, div0[..n], ks);
        return false, n, ks;
      }
      pc := next;
    }
    EndOfCode(p, pc, done);
    CompileIs(p, done, e.code, div0[..n], ks);
    failed := false;
  }

  lemma StartOfCompilation(p: Program)
    ensures Progress(p, 0, []) && Recorded(PROLOGUE, [], [])
  {
    if Body(p, 0).Some? {
      assert [] + Body(p, 0).value == Body(p, 0).value;
    }
    NoBranchCount(PROLOGUE);
  }

  lemma NoTemplate(p: Program, pc: nat, done: seq<Instr>)
    requires pc < |p.code| && Progress(p, pc, done) && Template(Fetch(p.code, pc).0, p.consts).None?
    ensures Compile(p).None?
  {
    hide Template;
  }

  lemma TemplateJumps(insn: Insn, consts: seq<Const>)
    requires !insn.Divide? && Template(insn, consts).Some?
    ensures forall k | 0 <= k < |Template(insn, consts).value| :: !Template(insn, consts).value[k].Jz?
  {
    if insn.Halt? {
      HaltTemplate(consts);
    } else {
      hide Template;
      TemplateNoBranch(insn, consts);
    }
  }

  lemma DivideCounts(code: seq<Instr>, div0: seq<nat>, ks: seq<nat>, rem: bool)
    requires Recorded(code, div0, ks)
    ensures var h, t := DivideHead(), DivideHead() + ([Jz(0)] + DivideTail(rem));
            JzCount(code + t) == JzCount(code) + 1
            && Recorded(code + t, div0 + [Off(code + h, |code + h|) + 2], ks + [|code| + |h|])
  {
    hide JumpsAt;
    var h, j, t := DivideHead(), [Jz(0)], DivideTail(rem);
    assert code + (h + (j + t)) == code + h + j + t;
    RecordedAppend(code, h, div0, ks);
    RecordedJump(code + h, div0, ks);
    RecordedAppend(code + h + j, t, div0 + [Off(code + h, |code + h|) + 2], ks + [|code + h|]);
    CountsAre(code + h + j + t, ks + [|code + h|]);
    CountsAre(code, ks);
  }

  lemma CountsAre(code: seq<Instr>, ks: seq<nat>)
    requires JumpsAt(code, ks)
    ensures JzCount(code) == |ks|
  {
  }

  lemma EndOfCode(p: Program, pc: nat, done: seq<Instr>)
    requires pc >= |p.code| && Progress(p, pc, done)
    ensures Body(p, 0) == Some(done)
  {
    assert done + [] == done;
  }

  lemma CompileIs(p: Program, done: seq<Instr>, code: seq<Instr>, div0: seq<nat>, ks: seq<nat>)
    requires Body(p, 0) == Some(done) && code == PROLOGUE + done && Off(code, |code|) <= JIT_CAP
    requires Recorded(code, div0, ks) && |div0| <= BOSL_JIT_DIV0_MAX
    ensures Compile(p) == Some(code)
  {
  }

  // ---- linking ----

  /** Instruction k once the jumps below bound are aimed. */
  ghost function Patched(code: seq<Instr>, bound: nat, k: nat): (r: Instr)
    requires k < |code|
    ensures Size(r) == Size(code[k]) && (r.Jz? <==> code[k].Jz?)
  {
    if code[k].Jz? && k < bound then Jz(Off(code, |code|) - Off(code, k + 1)) else code[k]
  }

  ghost predicate PartlyAimed(code: seq<Instr>, tail: seq<Instr>, bound: nat, now: seq<Instr>) {
    && |now| == |code| + |tail| && now[|code|..] == tail
    && forall k | 0 <= k < |code| :: now[k] == Patched(code, bound, k)
  }

  /** Where jump i is, or the end of the code after the last one. */
  ghost function Bound(code: seq<Instr>, ks: seq<nat>, i: nat): nat {
    if i < |ks| then ks[i] else |code|
  }

  lemma NoJumpBetween(code: seq<Instr>, ks: seq<nat>, i: nat, k: nat)
    requires JumpsAt(code, ks) && i <= |ks| && k < |code|
    requires (i > 0 ==> ks[i - 1] < k) && k < Bound(code, ks, i)
    ensures !code[k].Jz?
  {
    forall j | 0 <= j < |ks|
      ensures ks[j] != k
    {
    }
  }

  lemma PatchedOffsets(code: seq<Instr>, tail: seq<Instr>, bound: nat, now: seq<Instr>, k: nat)
    requires PartlyAimed(code, tail, bound, now) && k < |code| && code[k].Jz?
    ensures now[k].Jz? && Off(now, k) == Off(code, k) && Off(code, k + 1) == Off(code, k) + 6
  {
    hide Patched;
    SameSizes(now, code, k);
  }

  lemma PatchStep(code: seq<Instr>, tail: seq<Instr>, ks: seq<nat>, i: nat, now: seq<Instr>)
    requires JumpsAt(code, ks) && i < |ks| && PartlyAimed(code, tail, Bound(code, ks, i), now)
    ensures ks[i] < |code| <= |now| && code[ks[i]].Jz?
    ensures PartlyAimed(code, tail, Bound(code, ks, i + 1), now[ks[i] := Jz(Off(code, |code|) - Off(code, ks[i] + 1))])
  {
    hide Off, JzCount, Patched, Bound, JumpsAt;
    JumpIn(code, ks, i);
    var next := now[ks[i] := Jz(Off(code, |code|) - Off(code, ks[i] + 1))];
    assert next[|code|..] == now[|code|..];
    forall k | 0 <= k < |code|
      ensures next[k] == Patched(code, Bound(code, ks, i + 1), k)
    {
      PatchOne(code, ks, i, k);
    }
  }

  lemma JumpIn(code: seq<Instr>, ks: seq<nat>, i: nat)
    requires JumpsAt(code, ks) && i < |ks|
    ensures ks[i] < |code| && code[ks[i]].Jz?
  {
  }

  /** The bound moves from jump i to the next: only jump i is patched anew. */
  lemma PatchOne(code: seq<Instr>, ks: seq<nat>, i: nat, k: nat)
    requires JumpsAt(code, ks) && i < |ks| && k < |code|
    ensures Patched(code, Bound(code, ks, i + 1), k)
         == if k == ks[i] then Jz(Off(code, |code|) - Off(code, k + 1)) else Patched(code, Bound(code, ks, i), k)
  {
    hide Off, JzCount;
    if ks[i] < k < Bound(code, ks, i + 1) {
      NoJumpBetween(code, ks, i + 1, k);
    }
  }

  lemma PatchStart(code: seq<Instr>, tail: seq<Instr>, ks: seq<nat>)
    requires JumpsAt(code, ks)
    ensures PartlyAimed(code, tail, Bound(code, ks, 0), code + tail)
  {
    forall k | 0 <= k < |code| && k < Bound(code, ks, 0)
      ensures !code[k].Jz?
    {
      NoJumpBetween(code, ks, 0, k);
    }
  }

  lemma PatchDone(code: seq<Instr>, tail: seq<Instr>, now: seq<Instr>)
    requires PartlyAimed(code, tail, |code|, now)
    ensures now == Aimed(code, Off(code, |code|)) + tail
  {
    hide Off, Size;
    var a := Aimed(code, Off(code, |code|));
    forall k | 0 <= k < |code|
      ensures now[k] == a[k]
    {
    }
    assert now[..|code|] == a;
    assert now == now[..|code|] + now[|code|..];
  }

  /** Places the shared error epilogue and aims the recorded jumps at it. */
  method PatchDivisions(e: Emitter, div0: array<nat>, n: nat, ghost ks: seq<nat>)
    requires e.Valid() && !e.err && n <= div0.Length && Recorded(e.code, div0[..n], ks)
    modifies e
    ensures e.code == Aimed(old(e.code), Off(old(e.code), |old(e.code)|))
              + Fitting(Off(old(e.code), |old(e.code)|), EPILOGUE_ERR)
  {
    hide PartlyAimed, JumpsAt, Off, Fitting, Aimed;
    ghost var code := e.code;
    var errAt := e.len;
    e.EmitAll(EPILOGUE_ERR);
    ghost var tail := Fitting(errAt, EPILOGUE_ERR);
    PatchStart(code, tail, ks);
    for i := 0 to n
      invariant e.Valid() && PartlyAimed(code, tail, Bound(code, ks, i), e.code)
    {
      PatchStep(code, tail, ks, i, e.code);
      PatchedOffsets(code, tail, Bound(code, ks, i), e.code, ks[i]);
      assert div0[i] == div0[..n][i];
      var rel := errAt as int - (div0[i] as int + 4);
      e.Patch32(div0[i], rel, ks[i]);
    }
    PatchDone(code, tail, e.code);
  }

  datatype Compiled = Fallback | Native(code: seq<Instr>)

  /** What bosl_vm_run_jit_io decides to run. */
  function Jit(p: Program): Compiled {
    if p.entry >= |p.code| || !OnlyIntOps(p.code, 0) || Compile(p).None? then Fallback
    else Native(Link(Compile(p).value))
  }

  method BoslVmRunJit(p: Program) returns (c: Compiled)
    ensures c == Jit(p)
  {
    hide Body, Compile, OnlyIntOps, Off, JzCount, Aimed, Fitting;
    if p.entry >= |p.code| {
      return Fallback;
    }
    var intOnly := UsesOnlyIntOps(p.code);
    if !intOnly {
      return Fallback;
    }
    var e := new Emitter();
    PrologueFits();
    e.EmitAll(PROLOGUE);
    assert [] + PROLOGUE == PROLOGUE;
    var div0 := new nat[BOSL_JIT_DIV0_MAX];
    var failed, n;
    ghost var ks;
    failed, n, ks := CompileLoop(p, e, div0);
    if failed {
      return Fallback;
    }
    CountsAre(e.code, ks);
    if n > 0 {
      PatchDivisions(e, div0, n, ks);
    }
    return Native(e.code);
  }

  lemma PrologueFits()
    ensures Off([] + PROLOGUE, |[] + PROLOGUE|) <= JIT_CAP
  {
    assert [] + PROLOGUE == [PushRbx, MovEcxSp];
    assert Off(PROLOGUE, 1) == 1;
  }

  lemma LinkedPlaces(b: seq<Instr>)
    ensures var code := PROLOGUE + b; var linked := Link(code);
            |linked| >= |code| && linked[0] == PushRbx && linked[1] == MovEcxSp && Placed(linked, 2, b, |code|)
  {
    hide Off, Fitting, JzCount, Aimed;
    var code := PROLOGUE + b;
    if JzCount(code) == 0 {
      NoJumpsPlaced(b);
    } else {
      var a, t := Aimed(code, Off(code, |code|)), Fitting(Off(code, |code|), EPILOGUE_ERR);
      AimedPlaced(b, a, t);
    }
  }

  lemma NoJumpsPlaced(b: seq<Instr>)
    requires JzCount(PROLOGUE + b) == 0
    ensures Placed(PROLOGUE + b, 2, b, |PROLOGUE + b|)
  {
    hide Off, JzCount;
    var code := PROLOGUE + b;
    forall i | 0 <= i < |b|
      ensures !b[i].Jz? && code[2 + i] == b[i]
    {
      if b[i].Jz? {
        JumpCounts(code, 2 + i);
      }
    }
  }

  lemma AimedPlaced(b: seq<Instr>, a: seq<Instr>, t: seq<Instr>)
    requires var code := PROLOGUE + b; a == Aimed(code, Off(code, |code|))
    ensures var linked := a + t;
            |linked| >= 2 + |b| && linked[0] == PushRbx && linked[1] == MovEcxSp && Placed(linked, 2, b, 2 + |b|)
  {
    hide Off;
    var code, linked := PROLOGUE + b, a + t;
    AimedSizes(code, a, t, |code|);
    forall i | 0 <= i < |b|
      ensures if b[i].Jz? then linked[2 + i].Jz? && Off(linked, 2 + i + 1) + linked[2 + i].rel == Off(linked, |code|)
              else linked[2 + i] == b[i]
    {
      assert code[2 + i] == b[i];
      AimedSizes(code, a, t, 2 + i + 1);
    }
  }

  lemma AimedSizes(code: seq<Instr>, a: seq<Instr>, t: seq<Instr>, k: nat)
    requires a == Aimed(code, Off(code, |code|)) && k <= |code|
    ensures Off(a + t, k) == Off(code, k)
  {
    hide Off;
    assert forall i | 0 <= i < k :: (a + t)[i] == a[i];
    SameSizes(a + t, code, k);
  }

  lemma {:induction false} JumpCounts(code: seq<Instr>, k: nat)
    requires k < |code| && code[k].Jz?
    ensures JzCount(code) > 0
  {
    if k < |code| - 1 {
      JumpCounts(code[..|code| - 1], k);
    }
  }

  /** How the kernel calls the code: a fresh context with sp 0. */
  predicate Entered(m: Machine) {
    m.M? && m.rdi == Ctx && m.sp == 0 && |m.stack| == STACK_MAX && m.out == []
  }

  lemma PrologueRuns(code: seq<Instr>, abi: Abi, m: Machine)
    requires |code| >= 2 && code[0] == PushRbx && code[1] == MovEcxSp && Entered(m)
    ensures var m2 := m.(saved := m.ebx, ecx := Num(0));
            Run(code, abi, 0, m) == Run(code, abi, 2, m2) && Holding(m2, [], [], m.ebx)
  {
    var m1 := Exec(PushRbx, abi, m);
    assert Run(code, abi, 0, m) == Run(code, abi, 1, m1);
    assert Run(code, abi, 1, m1) == Run(code, abi, 2, Exec(MovEcxSp, abi, m1));
  }
}
