/** The integer core of the BOSL interpreter (os/kernel/bosl_vm.c): the opcodes
    that the JIT accepts too, with their stack checks and the step budget. */
module BoslVm {
  import opened BitOps
  import opened Int32

  datatype Const = ConstStr | ConstInt(i: i32) | ConstInt64

  datatype Program = Program(code: seq<byte>, consts: seq<Const>, entry: nat)

  datatype Arith = Add | Sub | Mul | And | Or | Xor
  datatype ShiftKind = Shl | Shr | Ushr
  datatype Cond = Eq | Ne | Lt | Le | Gt | Ge

  datatype Insn =
    | PushI(v: i32) | PushK(idx: nat)
    | Binary(op: Arith) | Divide(wantRemainder: bool) | Neg | Not | Shift(kind: ShiftKind)
    | Compare(cond: Cond)
    | Print | Dup | Drop | Swap | Over
    | Halt
    | Truncated   // the immediate runs past the end of the code
    | Other       // any opcode outside the integer core

  /** Little-endian 32 bits. */
  function Rd32(code: seq<byte>, pc: nat): word
    requires pc + 4 <= |code|
  {
    code[pc] as int + 0x100 * code[pc + 1] as int + 0x1_0000 * code[pc + 2] as int + 0x100_0000 * code[pc + 3] as int
  }

  /** The instruction at pc and the address of the one after it. */
  function Fetch(code: seq<byte>, pc: nat): (r: (Insn, nat))
    requires pc < |code|
    ensures pc < r.1 && (r.0.Truncated? || r.1 <= |code|)
  {
    var op := code[pc];
    if op == 0x01 || op == 0x03 then
      if pc + 5 > |code| then (Truncated, pc + 1)
      else (if op == 0x01 then PushI(Signed(Rd32(code, pc + 1))) else PushK(Rd32(code, pc + 1)), pc + 5)
    else
      (match op
       case 0x10 => Binary(Add) case 0x11 => Binary(Sub) case 0x12 => Binary(Mul)
       case 0x13 => Divide(false) case 0x14 => Divide(true) case 0x15 => Neg
       case 0x16 => Binary(And) case 0x17 => Binary(Or) case 0x18 => Binary(Xor) case 0x19 => Not
       case 0x1A => Shift(Shl) case 0x1B => Shift(Shr) case 0x1C => Shift(Ushr)
       case 0x20 => Print case 0x21 => Dup case 0x22 => Drop case 0x23 => Swap case 0x24 => Over
       case 0x40 => Compare(Eq) case 0x41 => Compare(Ne) case 0x42 => Compare(Lt)
       case 0x43 => Compare(Le) case 0x44 => Compare(Gt) case 0x45 => Compare(Ge)
       case 0xFF => Halt
       case _ => Other, pc + 1)
  }

  const STACK_MAX: nat := 256

  function Arithmetic(op: Arith, a: i32, b: i32): i32 {
    match op
    case Add => Wrap(a as int + b as int)
    case Sub => Wrap(a as int - b as int)
    case Mul => Wrap(a as int * b as int)
    case And => BitAnd(a, b)
    case Or => BitOr(a, b)
    case Xor => BitXor(a, b)
  }

  function Shifted(kind: ShiftKind, a: i32, b: i32): i32 {
    match kind
    case Shl => ShiftLeft(a, b)
    case Shr => ShiftRight(a, b)
    case Ushr => ShiftRightUnsigned(a, b)
  }

  predicate Holds(cond: Cond, a: i32, b: i32) {
    match cond
    case Eq => a == b
    case Ne => a != b
    case Lt => a < b
    case Le => a <= b
    case Gt => a > b
    case Ge => a >= b
  }

  /** How a run ends. Undefined: INT_MIN / -1, which C leaves undefined. */
  datatype End = Halted | DivideByZero | Failed | OutOfSteps | PcOutOfRange | Undefined
  {
    function Code(): int {
      match this
      case Halted => 0
      case OutOfSteps => 11
      case PcOutOfRange => 12
      case _ => 13
    }
  }

  datatype Effect = Next(stack: seq<i32>, printed: seq<i32>) | Stop(end: End)

  /** One instruction on a stack whose top is last. */
  function Step(insn: Insn, consts: seq<Const>, s: seq<i32>): (e: Effect)
    requires |s| <= STACK_MAX
    ensures e.Next? ==> |e.stack| <= STACK_MAX
  {
    var n := |s|;
    match insn
    case PushI(v) => if n >= STACK_MAX then Stop(Failed) else Next(s + [v], [])
    case PushK(idx) =>
      if n >= STACK_MAX || idx >= |consts| || !consts[idx].ConstInt? then Stop(Failed)
      else Next(s + [consts[idx].i], [])
    case Binary(op) =>
      if n < 2 then Stop(Failed) else Next(s[..n - 2] + [Arithmetic(op, s[n - 2], s[n - 1])], [])
    case Divide(rem) =>
      if n < 2 then Stop(Failed)
      else if s[n - 1] == 0 then Stop(DivideByZero)
      else if DivOverflows(s[n - 2], s[n - 1]) then Stop(Undefined)
      else
        QuotFits(s[n - 2], s[n - 1]);
        Next(s[..n - 2] + [if rem then Rem(s[n - 2], s[n - 1]) else Quot(s[n - 2], s[n - 1])], [])
    case Neg => if n == 0 then Stop(Failed) else Next(s[..n - 1] + [Wrap(-(s[n - 1] as int))], [])
    case Not => if n == 0 then Stop(Failed) else Next(s[..n - 1] + [BitNot(s[n - 1])], [])
    case Shift(kind) =>
      if n < 2 then Stop(Failed) else Next(s[..n - 2] + [Shifted(kind, s[n - 2], s[n - 1])], [])
    case Compare(cond) =>
      if n < 2 then Stop(Failed) else Next(s[..n - 2] + [if Holds(cond, s[n - 2], s[n - 1]) then 1 else 0], [])
    case Print => if n == 0 then Stop(Failed) else Next(s[..n - 1], [s[n - 1]])
    case Dup => if n == 0 || n >= STACK_MAX then Stop(Failed) else Next(s + [s[n - 1]], [])
    case Drop => if n == 0 then Stop(Failed) else Next(s[..n - 1], [])
    case Swap => if n < 2 then Stop(Failed) else Next(s[..n - 2] + [s[n - 1], s[n - 2]], [])
    case Over => if n < 2 || n >= STACK_MAX then Stop(Failed) else Next(s + [s[n - 2]], [])
    case Halt => Stop(Halted)
    case Truncated => Stop(Failed)
    case Other => Stop(Failed)
  }

  datatype Outcome = Outcome(end: End, stack: seq<i32>, out: seq<i32>)

  /** The rest of a run from pc with the given stack, output and number of steps taken. */
  function Interpret(p: Program, limit: nat, pc: nat, steps: nat, stack: seq<i32>, out: seq<i32>): Outcome
    requires |stack| <= STACK_MAX
    decreases |p.code| - pc
  {
    if steps + 1 > limit then Outcome(OutOfSteps, stack, out)
    else if pc >= |p.code| then Outcome(PcOutOfRange, stack, out)
    else
      var (insn, next) := Fetch(p.code, pc);
      match Step(insn, p.consts, stack)
      case Stop(end) => Outcome(end, stack, out)
      case Next(s, printed) => Interpret(p, limit, next, steps + 1, s, out + printed)
  }

  /** bosl_vm_run_impl on the integer core: the dispatch loop over an explicit stack. */
  method BoslVmRun(p: Program, limit: nat) returns (rc: int, out: seq<i32>)
    ensures var r := Interpret(p, limit, p.entry, 0, [], []);
            rc == r.end.Code() && out == r.out
  {
    var stack := new i32[STACK_MAX];
    var sp, pc, steps := 0, p.entry, 0;
    out := [];
    ghost var spec := Interpret(p, limit, p.entry, 0, [], []);
    assert stack[..0] == [];
    while true
      invariant 0 <= sp <= STACK_MAX && stack.Length == STACK_MAX
      invariant Interpret(p, limit, pc, steps, stack[..sp], out) == spec
      decreases |p.code| - pc
    {
      steps := steps + 1;
      if steps > limit {
        return 11, out;
      }
      if pc >= |p.code| {
        return 12, out;
      }
      var (insn, next) := Fetch(p.code, pc);
      var stopped, ended, sp', printed := Dispatch(insn, p.consts, stack, sp);
      if stopped {
        return ended.Code(), out;
      }
      out := out + printed;
      sp, pc := sp', next;
    }
  }

  /** The opcodes that replace two operands by one result. */
  predicate TwoOperands(insn: Insn) {
    insn.Binary? || insn.Divide? || insn.Shift? || insn.Compare?
  }

  /** The switch of the dispatch loop, in place on the stack array. */
  method Dispatch(insn: Insn, consts: seq<Const>, stack: array<i32>, sp: nat)
    returns (stopped: bool, ended: End, sp': nat, printed: seq<i32>)
    requires stack.Length == STACK_MAX && sp <= STACK_MAX
    modifies stack
    ensures sp' <= STACK_MAX
    ensures Step(insn, consts, old(stack[..sp])) == if stopped then Stop(ended) else Next(stack[..sp'], printed)
  {
    hide Arithmetic, Shifted, Holds, Quot, Rem, DivOverflows, BitNot, Wrap;
    if TwoOperands(insn) {
      stopped, ended, sp' := DispatchTwo(insn, consts, stack, sp);
      return stopped, ended, sp', [];
    }
    stopped, ended, sp', printed := DispatchOther(insn, consts, stack, sp);
  }

  method DispatchTwo(insn: Insn, consts: seq<Const>, stack: array<i32>, sp: nat)
    returns (stopped: bool, ended: End, sp': nat)
    requires stack.Length == STACK_MAX && sp <= STACK_MAX && TwoOperands(insn)
    modifies stack
    ensures sp' <= STACK_MAX
    ensures Step(insn, consts, old(stack[..sp])) == if stopped then Stop(ended) else Next(stack[..sp'], [])
  {
    hide Arithmetic, Shifted, Holds, Quot, Rem, DivOverflows;
    stopped, ended, sp' := true, Failed, sp;
    if sp < 2 {
      return;
    }
    var a, b, v := stack[sp - 2], stack[sp - 1], 0;
    match insn {
      case Binary(op) =>
        v := Arithmetic(op, a, b);
      case Divide(rem) =>
        if b == 0 {
          ended := DivideByZero;
          return;
        }
        if DivOverflows(a, b) {
          ended := Undefined;
          return;
        }
        QuotFits(a, b);
        v := if rem then Rem(a, b) else Quot(a, b);
      case Shift(kind) =>
        v := Shifted(kind, a, b);
      case Compare(cond) =>
        v := if Holds(cond, a, b) then 1 else 0;
    }
    stack[sp - 2] := v;
    stopped, sp' := false, sp - 1;
    assert stack[..sp'] == old(stack[..sp])[..sp - 2] + [v];
  }

  method DispatchOther(insn: Insn, consts: seq<Const>, stack: array<i32>, sp: nat)
    returns (stopped: bool, ended: End, sp': nat, printed: seq<i32>)
    requires stack.Length == STACK_MAX && sp <= STACK_MAX && !TwoOperands(insn)
    modifies stack
    ensures sp' <= STACK_MAX
    ensures Step(insn, consts, old(stack[..sp])) == if stopped then Stop(ended) else Next(stack[..sp'], printed)
  {
    hide BitNot, Wrap;
    ghost var s := stack[..sp];
    stopped, ended, sp', printed := true, Failed, sp, [];
    match insn {
      case PushI(v) =>
        if sp >= STACK_MAX {
          return;
        }
        stack[sp] := v;
        sp' := sp + 1;
      case PushK(idx) =>
        if sp >= STACK_MAX || idx >= |consts| || !consts[idx].ConstInt? {
          return;
        }
        stack[sp] := consts[idx].i;
        sp' := sp + 1;
      case Neg =>
        if sp == 0 {
          return;
        }
        stack[sp - 1] := Wrap(-(stack[sp - 1] as int));
      case Not =>
        if sp == 0 {
          return;
        }
        stack[sp - 1] := BitNot(stack[sp - 1]);
      case Print =>
        if sp == 0 {
          return;
        }
        sp' := sp - 1;
        printed := [stack[sp']];
      case Dup =>
        if sp == 0 || sp >= STACK_MAX {
          return;
        }
        stack[sp] := stack[sp - 1];
        sp' := sp + 1;
      case Drop =>
        if sp == 0 {
          return;
        }
        sp' := sp - 1;
      case Swap =>
        if sp < 2 {
          return;
        }
        var t := stack[sp - 1];
        stack[sp - 1] := stack[sp - 2];
        stack[sp - 2] := t;
      case Over =>
        if sp < 2 || sp >= STACK_MAX {
          return;
        }
        stack[sp] := stack[sp - 2];
        sp' := sp + 1;
      case Halt =>
        ended := Halted;
        return;
      case Truncated =>
        return;
      case Other =>
        return;
    }
    stopped := false;
    assert stack[..sp'] == Step(insn, consts, s).stack;
  }
}
