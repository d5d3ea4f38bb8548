/** What the code emitted by os/kernel/bosl_jit.c returns, for every program that
    compiles and whatever helper calls do to the registers: compared with the
    interpreter, and where the two differ. */
module BoslNative {
  import opened Wrappers
  import opened BitOps
  import opened Int32
  import opened BoslVm
  import opened X86
  import opened BoslJit

  // ---- the meaning of native code, on values ----

  /** The stack array, of which the first sp values are meant; sp may be any number,
      the emitted code does not check it. Strayed: the code leaves its stack or its
      own end, or traps. */
  datatype Result = Returned(rc: i32, sp: i32, stack: seq<i32>, out: seq<i32>) | Strayed

  /** The shared error code is there and complete. */
  predicate Guarded(code: seq<Instr>) {
    JzCount(code) > 0 && Off(code, |code|) + 9 <= JIT_CAP
  }

  function Failing(guarded: bool, sp: i32, arr: seq<i32>, out: seq<i32>): Result {
    if guarded then Returned(14, sp, arr, out) else Strayed
  }

  /** Stack and stack pointer after an instruction that left s on the stack. A print
      whose helper overwrites rdi loses the context, a shift whose helper overwrites
      r11 cannot store its result; after one that overwrites ecx the stack ends
      wherever that points. */
  function After(insn: Insn, abi: Abi, arr: seq<i32>, sp: nat, out: seq<i32>, s: seq<i32>): Option<(seq<i32>, i32)>
    requires |s| <= |arr| == STACK_MAX && sp <= STACK_MAX
    requires (insn.Print? ==> sp >= 1) && (insn.Shift? ==> sp >= 2 && s != [])
  {
    if insn.Print? then
      var l := abi.left(PrintI32, out, [arr[sp - 1]]);
      if l.rdi.Some? then None else Some((arr, if l.ecx.Some? then l.ecx.value else sp - 1))
    else if insn.Shift? then
      var l := abi.left(ShiftI32(insn.kind), out, [arr[sp - 2], arr[sp - 1]]);
      var c := if l.ecx.Some? then l.ecx.value else sp - 2;
      if l.r11.Some? || !(0 <= c < STACK_MAX) then None else Some((arr[c := s[|s| - 1]], c + 1))
    else Some((s + arr[|s|..], |s|))
  }

  /** The rest of a native run from pc on. There is no step budget, the end of the
      code runs into the error code, and only accesses to the stack tell that it is
      empty or full: drops are never noticed, and a division looks at its divisor
      first. */
  function NativeResult(p: Program, abi: Abi, guarded: bool, pc: nat, arr: seq<i32>, sp: i32, out: seq<i32>): Result
    requires |arr| == STACK_MAX
    decreases |p.code| - pc
  {
    if pc >= |p.code| then Failing(guarded, sp, arr, out)
    else
      var (insn, next) := Fetch(p.code, pc);
      if insn.Drop? then NativeResult(p, abi, guarded, next, arr, Wrap(sp as int - 1), out)
      else if insn.Halt? then Returned(0, sp, arr, out)
      else if !(0 <= sp <= STACK_MAX) then Strayed
      else
        match Step(insn, p.consts, arr[..sp])
        case Stop(DivideByZero) => Failing(guarded, sp - 1, arr, out)
        case Stop(_) => if insn.Divide? && sp == 1 && arr[0] == 0 then Failing(guarded, 0, arr, out) else Strayed
        case Next(s, printed) =>
          NextNeeds(insn, p.consts, arr[..sp]);
          match After(insn, abi, arr, sp, out, s)
          case None => Strayed
          case Some((arr', sp')) => NativeResult(p, abi, guarded, next, arr', sp', out + printed)
  }

  lemma NextNeeds(insn: Insn, consts: seq<Const>, s: seq<i32>)
    requires |s| <= STACK_MAX && Step(insn, consts, s).Next?
    ensures (insn.Print? ==> |s| >= 1) && (insn.Shift? ==> |s| >= 2 && Step(insn, consts, s).stack != [])
  {
    hide Quot, Rem, Arithmetic, Shifted, Holds;
  }

  /** The state a finished run leaves behind. */
  predicate Finished(f: Machine, rc: i32, out: seq<i32>, rbx: Word) {
    f.M? && f.eax == Num(rc) && f.out == out && f.ebx == rbx
  }

  predicate Meets(f: Machine, x: Result, rbx: Word) {
    match x
    case Returned(rc, sp, arr, out) => Finished(f, rc, out, rbx) && f.sp == sp && f.stack == arr
    case Strayed => f.Fault?
  }

  // ---- too few values on the stack, or too many ----

  /** There are fewer than need values on the stack, more than it holds, or the
      context is lost. */
  predicate Short(m: Machine, need: int) {
    m.M? && m.ecx.Num? && (m.rdi == Ctx ==> |m.stack| == STACK_MAX && (m.ecx.n < need || m.ecx.n > STACK_MAX))
  }

  lemma PopFaults(r: Reg, abi: Abi, m: Machine)
    requires Short(m, 1)
    ensures Straight(Pop(r), abi, 0, m).Fault?
  {
    StraightTwo(DecEcx, Load(r, ByEcx), abi, m);
  }

  lemma PopR11Faults(abi: Abi, m: Machine)
    requires Short(m, 1) && m.r11 == m.rdi
    ensures Straight(POP_R11, abi, 0, m).Fault?
  {
    StraightTwo(DecEcx, LoadEaxR11, abi, m);
  }

  lemma PeekFaults(r: Reg, depth: i32, abi: Abi, m: Machine)
    requires 1 <= depth <= 2 && Short(m, depth as int) && (depth == 2 ==> m.rdi == Ctx ==> m.ecx.n <= STACK_MAX)
    ensures Straight(Peek(r, depth), abi, 0, m).Fault?
  {
    StraightTwo(LeaEbx(depth), Load(r, ByEbx), abi, m);
  }

  /** No slot to push to: below the stack, past its end, or no context. */
  predicate NoSlot(m: Machine) {
    m.M? && m.ecx.Num? && (m.rdi == Ctx ==> |m.stack| == STACK_MAX && (m.ecx.n < 0 || m.ecx.n >= STACK_MAX))
  }

  lemma PushFaults(r: Reg, abi: Abi, m: Machine)
    requires NoSlot(m)
    ensures Straight(Push(r), abi, 0, m).Fault?
  {
    StraightTwo(Store(ByEcx, r), IncEcx, abi, m);
  }

  lemma FirstFaults(a: seq<Instr>, b: seq<Instr>, abi: Abi, m: Machine)
    requires Straight(a, abi, 0, m).Fault?
    ensures Straight(a + b, abi, 0, m).Fault?
  {
    StraightConcat(a, b, abi, 0, m);
    FaultStays(b, abi, 0, Fault);
  }

  lemma OneLeft(m: Machine)
    requires Short(m, 2) && !Short(m, 1)
    ensures Ready(m, 1)
  {
  }

  lemma PopTwoFaults(rest: seq<Instr>, abi: Abi, m: Machine)
    requires Short(m, 2)
    ensures Straight(Pop(Eax) + (Pop(Edx) + rest), abi, 0, m).Fault?
  {
    hide Straight;
    if Short(m, 1) {
      PopFaults(Eax, abi, m);
      FirstFaults(Pop(Eax), Pop(Edx) + rest, abi, m);
    } else {
      OneLeft(m);
      PopRuns(Eax, abi, m, 1);
      var m1 := Straight(Pop(Eax), abi, 0, m);
      StraightConcat(Pop(Eax), Pop(Edx) + rest, abi, 0, m);
      PopFaults(Edx, abi, m1);
      FirstFaults(Pop(Edx), rest, abi, m1);
    }
  }

  lemma PushTemplateFaults(v: i32, abi: Abi, m: Machine)
    requires NoSlot(m)
    ensures Straight(PushTemplate(v), abi, 0, m).Fault?
  {
    hide Straight;
    StraightConcat([MovEaxImm(v)], Push(Eax), abi, 0, m);
    StraightOne(MovEaxImm(v), abi, m);
    PushFaults(Eax, abi, m.(eax := Num(v)));
  }

  lemma ShiftFaults(kind: ShiftKind, abi: Abi, m: Machine)
    requires Short(m, 2)
    ensures Straight(ShiftTemplate(kind), abi, 0, m).Fault?
  {
    hide Straight;
    var rest := [MovRaxHelper(ShiftI32(kind)), CallRax] + ([StoreEaxR11, IncEcx] + [MovRdiR11]);
    var x := POP_R11 + ([MovEdiEax] + rest);
    StraightConcat([MovR11Rdi], POP_R11 + ([MovEsiEax] + x), abi, 0, m);
    StraightOne(MovR11Rdi, abi, m);
    var m1 := m.(r11 := m.rdi);
    if Short(m, 1) {
      PopR11Faults(abi, m1);
      FirstFaults(POP_R11, [MovEsiEax] + x, abi, m1);
    } else {
      OneLeft(m);
      PopR11Then(MovEsiEax, x, abi, m1, 1);
      var v := Num(m.stack[0]);
      var m2 := m1.(eax := v, ecx := Num(0), esi := v);
      PopR11Faults(abi, m2);
      FirstFaults(POP_R11, [MovEdiEax] + rest, abi, m2);
    }
  }

  lemma SwapFaults(abi: Abi, m: Machine)
    requires Short(m, 2)
    ensures Straight(SwapTemplate(), abi, 0, m).Fault?
  {
    hide Straight;
    var rest := Poke(Edx, 1) + Poke(Eax, 2);
    if Short(m, 1) {
      PeekFaults(Eax, 1, abi, m);
      FirstFaults(Peek(Eax, 1), Peek(Edx, 2) + rest, abi, m);
    } else {
      OneLeft(m);
      PeekRuns(Eax, 1, abi, m, 1);
      var m1 := Straight(Peek(Eax, 1), abi, 0, m);
      StraightConcat(Peek(Eax, 1), Peek(Edx, 2) + rest, abi, 0, m);
      PeekFaults(Edx, 2, abi, m1);
      FirstFaults(Peek(Edx, 2), rest, abi, m1);
    }
  }

  /** dup and over on a full stack. */
  lemma CopyOverflows(depth: i32, abi: Abi, m: Machine)
    requires Ready(m, STACK_MAX) && 1 <= depth <= 2
    ensures Straight(CopyTemplate(depth), abi, 0, m).Fault?
  {
    hide Straight;
    StraightConcat(Peek(Eax, depth), Push(Eax), abi, 0, m);
    PeekRuns(Eax, depth, abi, m, STACK_MAX);
    PushFaults(Eax, abi, Straight(Peek(Eax, depth), abi, 0, m));
  }

  /** over peeks inside the stack when it holds one value too many, but cannot push. */
  lemma OverFaults(abi: Abi, m: Machine)
    requires Short(m, 2)
    ensures Straight(CopyTemplate(2), abi, 0, m).Fault?
  {
    hide Straight;
    if m.rdi == Ctx && m.ecx.n > STACK_MAX {
      StraightConcat(Peek(Eax, 2), Push(Eax), abi, 0, m);
      PeekKeeps(abi, m);
      var m1 := Straight(Peek(Eax, 2), abi, 0, m);
      if m1.M? {
        PushFaults(Eax, abi, m1);
      } else {
        FaultStays(Push(Eax), abi, 0, m1);
      }
    } else {
      PeekFaults(Eax, 2, abi, m);
      FirstFaults(Peek(Eax, 2), Push(Eax), abi, m);
    }
  }

  lemma PeekKeeps(abi: Abi, m: Machine)
    requires m.M? && m.ecx.Num?
    ensures var f := Straight(Peek(Eax, 2), abi, 0, m); f.M? ==> f.ecx == m.ecx && f.rdi == m.rdi && f.stack == m.stack
  {
    StraightTwo(LeaEbx(2), Load(Eax, ByEbx), abi, m);
  }

  /** How many values an instruction's template touches first; a push needs room instead. */
  function Needs(insn: Insn): int {
    match insn
    case Binary(_) => 2 case Divide(_) => 1 case Shift(_) => 2 case Compare(_) => 2 case Swap => 2 case Over => 2
    case Neg => 1 case Not => 1 case Print => 1 case Dup => 1
    case _ => 0
  }

  lemma NeedFaults(insn: Insn, consts: seq<Const>, t: seq<Instr>, abi: Abi, m: Machine)
    requires Template(insn, consts) == Some(t) && !insn.Divide? && !insn.Halt? && !insn.Drop?
    requires Short(m, Needs(insn))
    ensures Straight(t, abi, 0, m).Fault?
  {
    hide Straight, PushTemplate, ShiftTemplate, SwapTemplate, Short;
    match insn {
      case PushI(v) =>
        ShortHasNoSlot(m);
        PushTemplateFaults(v, abi, m);
      case PushK(idx) =>
        ShortHasNoSlot(m);
        PushTemplateFaults(consts[idx].i, abi, m);
      case Binary(op) => PopTwoFaults([Alu(op)] + Push(Edx), abi, m);
      case Neg =>
        PopFaults(Eax, abi, m);
        FirstFaults(Pop(Eax), [NegEax] + Push(Eax), abi, m);
      case Not =>
        PopFaults(Eax, abi, m);
        FirstFaults(Pop(Eax), [NotEax] + Push(Eax), abi, m);
      case Shift(kind) => ShiftFaults(kind, abi, m);
      case Compare(c) => PopTwoFaults([CmpEdxEax] + ([Setcc(c), MovzxEaxAl] + Push(Eax)), abi, m);
      case Print =>
        PopFaults(Eax, abi, m);
        FirstFaults(Pop(Eax), [MovEsiEax] + [MovRaxHelper(PrintI32), CallRax], abi, m);
      case Dup =>
        PeekFaults(Eax, 1, abi, m);
        FirstFaults(Peek(Eax, 1), Push(Eax), abi, m);
      case Swap => SwapFaults(abi, m);
      case Over => OverFaults(abi, m);
      case _ =>
    }
  }

  lemma ShortHasNoSlot(m: Machine)
    requires Short(m, 0)
    ensures NoSlot(m)
  {
  }

  lemma HoldingIsReady(m: Machine, s: seq<i32>, out: seq<i32>, rbx: Word)
    requires Holding(m, s, out, rbx)
    ensures Ready(m, |s|) && forall need | need > |s| :: Short(m, need)
    ensures |s| == STACK_MAX ==> NoSlot(m)
  {
  }

  /** Every check the interpreter fails on is a fault of the template, except that
      a drop is never noticed and a division looks at its divisor first. */
  lemma TemplateFaults(insn: Insn, consts: seq<Const>, t: seq<Instr>, abi: Abi, m: Machine, s: seq<i32>,
                       out: seq<i32>, rbx: Word)
    requires Holding(m, s, out, rbx) && Template(insn, consts) == Some(t)
    requires !insn.Divide? && !insn.Halt? && !insn.Drop? && Step(insn, consts, s).Stop?
    ensures Straight(t, abi, 0, m).Fault?
  {
    hide Straight, Holding, PushTemplate, CopyTemplate, Short, NoSlot, Ready, Arithmetic, Shifted, Holds;
    HoldingIsReady(m, s, out, rbx);
    if |s| < Needs(insn) {
      NeedFaults(insn, consts, t, abi, m);
    } else {
      match insn {
        case PushI(v) => PushTemplateFaults(v, abi, m);
        case PushK(idx) => PushTemplateFaults(consts[idx].i, abi, m);
        case Dup => CopyOverflows(1, abi, m);
        case Over => CopyOverflows(2, abi, m);
        case _ =>
      }
    }
  }

  // ---- the ends of the code ----

  /** What lies at err: as much of the error code as there is room for, if any. */
  predicate Tail(code: seq<Instr>, err: nat, guarded: bool) {
    && err <= |code| <= err + 4
    && code[err..] == EPILOGUE_ERR[..|code| - err]
    && (guarded <==> |code| == err + 4)
  }

  lemma EpilogueOkRuns(code: seq<Instr>, abi: Abi, k: nat, err: nat, m: Machine, sp: i32, rbx: Word)
    requires Placed(code, k, EPILOGUE_OK, err)
    requires m.M? && m.rdi == Ctx && m.ecx == Num(sp) && m.saved == rbx
    ensures var f := Run(code, abi, k, m); Finished(f, 0, m.out, rbx) && f.sp == sp && f.stack == m.stack
  {
    assert code[k] == EPILOGUE_OK[0] && code[k + 1] == EPILOGUE_OK[1]
        && code[k + 2] == EPILOGUE_OK[2] && code[k + 3] == EPILOGUE_OK[3];
    var m1 := Exec(MovSpEcx, abi, m);
    var m2 := Exec(XorEaxEax, abi, m1);
    var m3 := Exec(PopRbx, abi, m2);
    assert Run(code, abi, k + 3, m3) == m3;
    assert Run(code, abi, k + 2, m2) == m3;
    assert Run(code, abi, k + 1, m1) == m3;
  }

  lemma EpilogueErrRuns(code: seq<Instr>, abi: Abi, k: nat, m: Machine, sp: i32, rbx: Word)
    requires k + 4 <= |code| && code[k..k + 4] == EPILOGUE_ERR
    requires m.M? && m.rdi == Ctx && m.ecx == Num(sp) && m.saved == rbx
    ensures var f := Run(code, abi, k, m); Finished(f, 14, m.out, rbx) && f.sp == sp && f.stack == m.stack
  {
    assert code[k] == EPILOGUE_ERR[0] && code[k + 1] == EPILOGUE_ERR[1]
        && code[k + 2] == EPILOGUE_ERR[2] && code[k + 3] == EPILOGUE_ERR[3];
    var m1 := Exec(MovSpEcx, abi, m);
    var m2 := Exec(MovEaxImm(14), abi, m1);
    var m3 := Exec(PopRbx, abi, m2);
    assert Run(code, abi, k + 3, m3) == m3;
    assert Run(code, abi, k + 2, m2) == m3;
    assert Run(code, abi, k + 1, m1) == m3;
  }

  /** Code without a ret never returns. */
  lemma {:induction false} NoRetFaults(code: seq<Instr>, abi: Abi, k: nat, m: Machine)
    requires forall i | k <= i < |code| :: !code[i].Ret?
    ensures Run(code, abi, k, m).Fault?
    decreases |code| - k
  {
    if m.M? && k < |code| {
      var t := At(code, Off(code, k + 1) + (if code[k].Jz? then code[k].rel else 0));
      if code[k].Jz? && m.zf && t > k {
        NoRetFaults(code, abi, t, m);
      } else {
        NoRetFaults(code, abi, k + 1, Exec(code[k], abi, m));
      }
    }
  }

  /** The error code returns 14 if it is complete; what is left of it strays. */
  lemma TailRuns(code: seq<Instr>, abi: Abi, err: nat, guarded: bool, m: Machine, sp: i32, rbx: Word)
    requires Tail(code, err, guarded)
    requires m.M? && m.rdi == Ctx && m.ecx == Num(sp) && m.saved == rbx
    ensures Meets(Run(code, abi, err, m), Failing(guarded, sp, m.stack, m.out), rbx)
  {
    if guarded {
      assert code[err..err + 4] == code[err..];
      EpilogueErrRuns(code, abi, err, m, sp, rbx);
    } else {
      forall i | err <= i < |code|
        ensures !code[i].Ret?
      {
        assert code[i] == code[err..][i - err];
      }
      NoRetFaults(code, abi, err, m);
    }
  }

  lemma LostTailFaults(code: seq<Instr>, abi: Abi, err: nat, guarded: bool, m: Machine)
    requires Tail(code, err, guarded) && m.M? && m.rdi != Ctx
    ensures Run(code, abi, err, m).Fault?
  {
    if err < |code| {
      assert code[err] == code[err..][0] == MovSpEcx;
      assert Run(code, abi, err + 1, Fault).Fault?;
    }
  }

  // ---- divisions ----

  lemma DivideHeadFaults(code: seq<Instr>, abi: Abi, k: nat, rem: bool, b: seq<Instr>, err: nat, m: Machine)
    requires Placed(code, k, DivideHead() + ([Jz(0)] + DivideTail(rem)) + b, err) && Short(m, 1)
    ensures Run(code, abi, k, m).Fault?
  {
    hide Straight, Placed;
    var head, tail := DivideHead(), DivideTail(rem);
    assert head + ([Jz(0)] + tail) + b == head + ([Jz(0)] + (tail + b));
    PopFaults(Ebx, abi, m);
    FirstFaults(Pop(Ebx), [TestEbx], abi, m);
    RunPart(code, abi, k, head, [Jz(0)] + (tail + b), err, m);
  }

  /** A divisor that is not zero, and no dividend or an overflowing quotient. */
  lemma DivideTailFaults(rem: bool, abi: Abi, m: Machine, s: seq<i32>)
    requires Ready(m, |s| - 1) && m.stack[..|s| - 1] == s[..|s| - 1] && m.ebx == Num(s[|s| - 1])
    requires |s| == 1 || DivOverflows(s[|s| - 2], s[|s| - 1])
    ensures Straight(DivideTail(rem), abi, 0, m).Fault?
  {
    hide Straight;
    var rest := [Cdq, IdivEbx] + Push(if rem then Edx else Eax);
    if |s| == 1 {
      PopFaults(Eax, abi, m);
      FirstFaults(Pop(Eax), rest, abi, m);
    } else {
      PopRuns(Eax, abi, m, |s| - 1);
      assert m.stack[|s| - 2] == m.stack[..|s| - 1][|s| - 2];
      var m1 := m.(eax := Num(s[|s| - 2]), ecx := Num(|s| - 2));
      StraightConcat(Pop(Eax), rest, abi, 0, m);
      StraightTwo(Cdq, IdivEbx, abi, m1);
      OverflowTraps(abi, m1, s[|s| - 2], s[|s| - 1]);
      FirstFaults([Cdq, IdivEbx], Push(if rem then Edx else Eax), abi, m1);
    }
  }

  lemma OverflowTraps(abi: Abi, m: Machine, a: i32, b: i32)
    requires m.M? && m.eax == Num(a) && m.ebx == Num(b) && DivOverflows(a, b)
    ensures Exec(IdivEbx, abi, Exec(Cdq, abi, m)).Fault?
  {
  }

  lemma DivideStrays(code: seq<Instr>, abi: Abi, k: nat, rem: bool, b: seq<Instr>, err: nat,
                     m: Machine, s: seq<i32>, out: seq<i32>, rbx: Word)
    requires Placed(code, k, DivideHead() + ([Jz(0)] + DivideTail(rem)) + b, err) && Holding(m, s, out, rbx) && |s| >= 1
    requires s[|s| - 1] != 0 && (|s| == 1 || DivOverflows(s[|s| - 2], s[|s| - 1]))
    ensures Run(code, abi, k, m).Fault?
  {
    hide Straight, Placed, Off, DivideHead, At, DivOverflows;
    var d := s[|s| - 1];
    var m1 := m.(ebx := Num(d), ecx := Num(|s| - 1), zf := false, sf := d < 0, of := false);
    DivideTest(code, abi, k, rem, b, err, m, m1, s, out, rbx);
    assert Run(code, abi, k + 3, m1) == Run(code, abi, k + 4, m1);
    hide Run;
    assert m1.stack[..|s| - 1] == m.stack[..|s|][..|s| - 1];
    DivideTailFaults(rem, abi, m1, s);
    RunPart(code, abi, k + 4, DivideTail(rem), b, err, m1);
    FaultRuns(code, abi, k + 4 + |DivideTail(rem)|);
  }

  // ---- native code means NativeResult ----

  /** The machine stands before an instruction with this stack array and pointer. */
  predicate Stands(m: Machine, arr: seq<i32>, sp: i32, out: seq<i32>, rbx: Word) {
    m.M? && m.rdi == Ctx && m.ecx == Num(sp) && m.stack == arr && |arr| == STACK_MAX && m.out == out && m.saved == rbx
  }

  /** code holds at k what is compiled from pc on, and the error code right behind it. */
  predicate Loaded(p: Program, code: seq<Instr>, pc: nat, k: nat, err: nat, guarded: bool) {
    && Body(p, pc).Some? && Placed(code, k, Body(p, pc).value, err)
    && k + |Body(p, pc).value| == err && Tail(code, err, guarded)
  }

  lemma LoadedNext(p: Program, code: seq<Instr>, pc: nat, k: nat, err: nat, guarded: bool)
    requires Loaded(p, code, pc, k, err, guarded) && pc < |p.code| && !Fetch(p.code, pc).0.Halt?
    ensures var (insn, next) := Fetch(p.code, pc); var t := Template(insn, p.consts);
            && t.Some? && Body(p, next).Some? && Body(p, pc).value == t.value + Body(p, next).value
            && Placed(code, k, t.value + Body(p, next).value, err)
            && Loaded(p, code, next, k + |t.value|, err, guarded)
  {
    hide Template, Placed, Tail, Fetch;
    var (insn, next) := Fetch(p.code, pc);
    PlacedParts(code, k, Template(insn, p.consts).value, Body(p, next).value, err);
  }

  lemma FaultRuns(code: seq<Instr>, abi: Abi, k: nat)
    ensures Run(code, abi, k, Fault).Fault?
  {
  }

  lemma StrayedMeets(f: Machine, rbx: Word)
    ensures Meets(f, Strayed, rbx) <==> f.Fault?
  {
  }

  lemma ReturnedMeets(f: Machine, rc: i32, sp: i32, arr: seq<i32>, out: seq<i32>, rbx: Word)
    requires Finished(f, rc, out, rbx) && f.sp == sp && f.stack == arr
    ensures Meets(f, Returned(rc, sp, arr, out), rbx)
  {
  }

  lemma DropTemplate(consts: seq<Const>)
    ensures Template(Drop, consts) == Some([DecEcx]) && NoBranch([DecEcx])
  {
  }

  lemma ShortForAny(insn: Insn, m: Machine)
    requires Short(m, 0)
    ensures Short(m, Needs(insn)) && Short(m, 1) && m.M?
  {
  }

  lemma LostDrop(abi: Abi, m: Machine)
    requires Short(m, 0) && m.rdi != Ctx
    ensures var f := Straight([DecEcx], abi, 0, m); Short(f, 0) && f.rdi != Ctx
  {
    StraightOne(DecEcx, abi, m);
  }

  /** An instruction other than drop and halt faults when nothing is on the stack, when
      the stack pointer is outside, or when the context is lost. */
  lemma ShortStrays(p: Program, code: seq<Instr>, abi: Abi, pc: nat, k: nat, err: nat, guarded: bool, m: Machine)
    requires Short(m, 0) && Loaded(p, code, pc, k, err, guarded) && pc < |p.code|
    requires var insn := Fetch(p.code, pc).0; !insn.Drop? && !insn.Halt?
    ensures Run(code, abi, k, m).Fault?
  {
    hide Run, Straight, Placed, Template, Tail, Short, Exec, Fetch, Body;
    var (insn, next) := Fetch(p.code, pc);
    LoadedNext(p, code, pc, k, err, guarded);
    var t, b := Template(insn, p.consts).value, Body(p, next).value;
    ShortForAny(insn, m);
    if insn.Divide? {
      DivideTemplate(insn.wantRemainder, p.consts);
      DivideHeadFaults(code, abi, k, insn.wantRemainder, b, err, m);
    } else {
      TemplateNoBranch(insn, p.consts);
      NeedFaults(insn, p.consts, t, abi, m);
      RunPart(code, abi, k, t, b, err, m);
      FaultRuns(code, abi, k + |t|);
    }
  }

  /** Without its context the code gets past drops only, and never returns. */
  lemma {:induction false} LostRuns(p: Program, code: seq<Instr>, abi: Abi, pc: nat, k: nat, err: nat, guarded: bool,
                                    m: Machine)
    requires Short(m, 0) && m.rdi != Ctx && Loaded(p, code, pc, k, err, guarded)
    ensures Run(code, abi, k, m).Fault?
    decreases |p.code| - pc
  {
    hide Run, Straight, Placed, Template, Tail, Short, Exec, Fetch, Body;
    if pc >= |p.code| {
      EndOfBody(p, code, pc, k, err, guarded);
      ShortForAny(Halt, m);
      LostTailFaults(code, abi, err, guarded, m);
    } else if Fetch(p.code, pc).0.Drop? {
      LoadedNext(p, code, pc, k, err, guarded);
      DropTemplate(p.consts);
      RunPart(code, abi, k, [DecEcx], Body(p, Fetch(p.code, pc).1).value, err, m);
      LostDrop(abi, m);
      LostRuns(p, code, abi, Fetch(p.code, pc).1, k + 1, err, guarded, Straight([DecEcx], abi, 0, m));
    } else if Fetch(p.code, pc).0.Halt? {
      HaltLoaded(p, code, pc, k, err, guarded);
      ShortForAny(Halt, m);
      LostHalt(code, abi, k, err, m);
    } else {
      ShortStrays(p, code, abi, pc, k, err, guarded, m);
    }
  }

  lemma EndOfBody(p: Program, code: seq<Instr>, pc: nat, k: nat, err: nat, guarded: bool)
    requires Loaded(p, code, pc, k, err, guarded) && pc >= |p.code|
    ensures k == err && Tail(code, err, guarded)
  {
  }

  lemma HaltLoaded(p: Program, code: seq<Instr>, pc: nat, k: nat, err: nat, guarded: bool)
    requires Loaded(p, code, pc, k, err, guarded) && pc < |p.code| && Fetch(p.code, pc).0.Halt?
    ensures Placed(code, k, EPILOGUE_OK, err)
  {
    hide Placed, Fetch, Tail, Template;
    HaltTemplate(p.consts);
  }

  lemma LostHalt(code: seq<Instr>, abi: Abi, k: nat, err: nat, m: Machine)
    requires m.M? && m.rdi != Ctx && Placed(code, k, EPILOGUE_OK, err)
    ensures Run(code, abi, k, m).Fault?
  {
    assert code[k] == EPILOGUE_OK[0];
    FaultRuns(code, abi, k + 1);
  }

  /** Where a body is stopped: at a check that fails or a zero divisor. */
  lemma StopCases(insn: Insn, consts: seq<Const>, s: seq<i32>)
    requires |s| <= STACK_MAX && Step(insn, consts, s).Stop? && Template(insn, consts).Some? && !insn.Halt?
    ensures var e := Step(insn, consts, s).end;
            && (e.DivideByZero? <==> insn.Divide? && |s| >= 2 && s[|s| - 1] == 0)
            && (insn.Divide? && !e.DivideByZero? ==>
                |s| <= 1 || (s[|s| - 1] != 0 && DivOverflows(s[|s| - 2], s[|s| - 1])))
  {
    hide Quot, Rem, Arithmetic, Shifted, Holds;
  }

  lemma StandsHolds(m: Machine, arr: seq<i32>, sp: i32, out: seq<i32>, rbx: Word)
    requires Stands(m, arr, sp, out, rbx)
    ensures |arr| == STACK_MAX && m.stack == arr
    ensures 0 <= sp <= STACK_MAX ==> Holding(m, arr[..sp], out, rbx) && |arr[..sp]| == sp
    ensures !(0 <= sp <= STACK_MAX) ==> Short(m, 0)
  {
  }

  /** Where the interpreter stops at a check, the native code does what NativeResult says. */
  lemma StopRuns(p: Program, code: seq<Instr>, abi: Abi, pc: nat, k: nat, err: nat, guarded: bool,
                 m: Machine, arr: seq<i32>, sp: i32, out: seq<i32>, rbx: Word)
    requires Stands(m, arr, sp, out, rbx) && 0 <= sp <= STACK_MAX && Loaded(p, code, pc, k, err, guarded)
             && pc < |p.code|
    requires var insn := Fetch(p.code, pc).0; !insn.Drop? && !insn.Halt? && Step(insn, p.consts, arr[..sp]).Stop?
    ensures Meets(Run(code, abi, k, m), NativeResult(p, abi, guarded, pc, arr, sp, out), rbx)
  {
    hide Run, Straight, Placed, Meets, Template, Tail, Holding, Step, DivOverflows, Stands, Fetch, Body, After;
    StandsHolds(m, arr, sp, out, rbx);
    var (insn, next) := Fetch(p.code, pc);
    LoadedNext(p, code, pc, k, err, guarded);
    var t, b, s := Template(insn, p.consts).value, Body(p, next).value, arr[..sp];
    StopCases(insn, p.consts, s);
    if insn.Divide? {
      DivideTemplate(insn.wantRemainder, p.consts);
      DivideStops(code, abi, k, insn.wantRemainder, b, err, guarded, m, arr, sp, out, rbx);
    } else {
      TemplateNoBranch(insn, p.consts);
      TemplateFaults(insn, p.consts, t, abi, m, s, out, rbx);
      RunPart(code, abi, k, t, b, err, m);
      FaultRuns(code, abi, k + |t|);
      StrayedMeets(Run(code, abi, k, m), rbx);
    }
  }

  /** A division that does not divide: by zero, with too few values, or overflowing. */
  lemma DivideStops(code: seq<Instr>, abi: Abi, k: nat, rem: bool, b: seq<Instr>, err: nat, guarded: bool,
                    m: Machine, arr: seq<i32>, sp: i32, out: seq<i32>, rbx: Word)
    requires Stands(m, arr, sp, out, rbx) && 0 <= sp <= STACK_MAX && Tail(code, err, guarded)
    requires Placed(code, k, DivideHead() + ([Jz(0)] + DivideTail(rem)) + b, err)
    requires sp <= 1 || arr[sp - 1] == 0 || DivOverflows(arr[sp - 2], arr[sp - 1])
    ensures var x := if sp >= 1 && arr[sp - 1] == 0 then Failing(guarded, sp - 1, arr, out) else Strayed;
            Meets(Run(code, abi, k, m), x, rbx)
  {
    hide Run, Placed, Meets, Tail, Holding, DivOverflows, DivideHead, DivideTail;
    StandsHolds(m, arr, sp, out, rbx);
    var s := arr[..sp];
    HoldingIsReady(m, s, out, rbx);
    if sp == 0 {
      DivideHeadFaults(code, abi, k, rem, b, err, m);
      StrayedMeets(Run(code, abi, k, m), rbx);
    } else if arr[sp - 1] == 0 {
      var m1 := DivideByZeroRuns(code, abi, k, rem, b, err, m, s, out, rbx);
      HoldingParts(m1, s[..|s| - 1], out, rbx);
      TailRuns(code, abi, err, guarded, m1, sp - 1, rbx);
    } else {
      DivideStrays(code, abi, k, rem, b, err, m, s, out, rbx);
      StrayedMeets(Run(code, abi, k, m), rbx);
    }
  }

  lemma HoldingParts(m: Machine, s: seq<i32>, out: seq<i32>, rbx: Word)
    requires Holding(m, s, out, rbx)
    ensures m.M? && m.rdi == Ctx && m.ecx == Num(|s|) && |m.stack| == STACK_MAX && m.out == out && m.saved == rbx
    ensures |s| <= STACK_MAX && m.stack[..|s|] == s
  {
  }

  /** What holds and what is above it make the whole array. */
  lemma HoldsAndStands(f: Machine, m: Machine, arr: seq<i32>, s: seq<i32>, out: seq<i32>, rbx: Word)
    requires Holding(f, s, out, rbx) && Above(f, m, |s|) && m.stack == arr
    ensures |arr| == STACK_MAX && Stands(f, s + arr[|s|..], |s|, out, rbx)
  {
    assert f.stack == f.stack[..|s|] + f.stack[|s|..];
  }

  lemma CallTemplates(insn: Insn, consts: seq<Const>)
    requires Calls(insn)
    ensures Template(insn, consts) == Some(if insn.Print? then PrintTemplate() else ShiftTemplate(insn.kind))
  {
  }

  lemma CallSteps(insn: Insn, consts: seq<Const>, s: seq<i32>)
    requires |s| <= STACK_MAX && Calls(insn) && Step(insn, consts, s).Next?
    ensures var n, e := |s|, Step(insn, consts, s);
            && n >= 1 && (insn.Print? ==> e == Next(s[..n - 1], [s[n - 1]]))
            && (insn.Shift? ==> n >= 2 && e == Next(s[..n - 2] + [Shifted(insn.kind, s[n - 2], s[n - 1])], []))
  {
  }

  /** A helper call: the state After says, or none. */
  lemma CallRuns(insn: Insn, consts: seq<Const>, t: seq<Instr>, abi: Abi, m: Machine, arr: seq<i32>, sp: i32,
                 out: seq<i32>, rbx: Word)
    requires Stands(m, arr, sp, out, rbx) && 0 <= sp <= STACK_MAX && Calls(insn) && Template(insn, consts) == Some(t)
    requires Step(insn, consts, arr[..sp]).Next?
    ensures NoBranch(t) && (insn.Print? ==> sp >= 1)
            && (insn.Shift? ==> sp >= 2 && Step(insn, consts, arr[..sp]).stack != [])
    ensures var e, f := Step(insn, consts, arr[..sp]), Straight(t, abi, 0, m);
            match After(insn, abi, arr, sp, out, e.stack)
            case Some((arr', sp')) => Stands(f, arr', sp', out + e.printed, rbx)
            case None => f.Fault? || (Short(f, 0) && f.rdi != Ctx)
  {
    hide Straight, Template, Holding, Shifted, Step, PrintTemplate, ShiftTemplate;
    StandsHolds(m, arr, sp, out, rbx);
    var s := arr[..sp];
    CallTemplates(insn, consts);
    CallSteps(insn, consts, s);
    TemplateNoBranch(insn, consts);
    if insn.Print? {
      PrintRuns(abi, m, s, out, rbx);
    } else {
      ShiftRuns(insn.kind, abi, m, s, out, rbx);
    }
    assert out + [] == out;
  }

  /** From any point of any compiled program on, whatever helpers do to the
      registers, the emitted code ends as NativeResult says. */
  lemma {:induction false} Simulates(p: Program, code: seq<Instr>, abi: Abi, pc: nat, k: nat, err: nat, guarded: bool,
                                     m: Machine, arr: seq<i32>, sp: i32, out: seq<i32>, rbx: Word)
    requires Stands(m, arr, sp, out, rbx) && |arr| == STACK_MAX && Loaded(p, code, pc, k, err, guarded)
    ensures Meets(Run(code, abi, k, m), NativeResult(p, abi, guarded, pc, arr, sp, out), rbx)
    decreases |p.code| - pc, 1
  {
    hide Step, Template, Run, Straight, Placed, Meets, Tail, Stands, Fetch, Body, After, Holding, Loaded;
    StandsParts(m, arr, sp, out, rbx);
    if pc >= |p.code| {
      EndOfBody(p, code, pc, k, err, guarded);
      TailRuns(code, abi, err, guarded, m, sp, rbx);
      return;
    }
    var (insn, next) := Fetch(p.code, pc);
    if insn.Halt? {
      HaltLoaded(p, code, pc, k, err, guarded);
      EpilogueOkRuns(code, abi, k, err, m, sp, rbx);
      ReturnedMeets(Run(code, abi, k, m), 0, sp, arr, out, rbx);
    } else if insn.Drop? {
      LoadedPart(p, code, pc, k, err, guarded);
      DropTemplate(p.consts);
      RunPart(code, abi, k, [DecEcx], Body(p, next).value, err, m);
      DropRuns(abi, m, arr, sp, out, rbx);
      Simulates(p, code, abi, next, k + 1, err, guarded, Straight([DecEcx], abi, 0, m), arr, Wrap(sp as int - 1), out,
          rbx);
    } else if !(0 <= sp <= STACK_MAX) {
      StandsHolds(m, arr, sp, out, rbx);
      ShortStrays(p, code, abi, pc, k, err, guarded, m);
      StrayedMeets(Run(code, abi, k, m), rbx);
    } else if Step(insn, p.consts, arr[..sp]).Stop? {
      StopRuns(p, code, abi, pc, k, err, guarded, m, arr, sp, out, rbx);
    } else {
      NextRuns(p, code, abi, pc, k, err, guarded, m, arr, sp, out, rbx);
    }
  }

  lemma StandsParts(m: Machine, arr: seq<i32>, sp: i32, out: seq<i32>, rbx: Word)
    requires Stands(m, arr, sp, out, rbx)
    ensures m.M? && m.rdi == Ctx && m.ecx == Num(sp) && m.stack == arr && m.out == out && m.saved == rbx
  {
  }

  lemma DropRuns(abi: Abi, m: Machine, arr: seq<i32>, sp: i32, out: seq<i32>, rbx: Word)
    requires Stands(m, arr, sp, out, rbx)
    ensures Stands(Straight([DecEcx], abi, 0, m), arr, Wrap(sp as int - 1), out, rbx)
  {
    StraightOne(DecEcx, abi, m);
  }

  lemma LoadedPart(p: Program, code: seq<Instr>, pc: nat, k: nat, err: nat, guarded: bool)
    requires Loaded(p, code, pc, k, err, guarded) && pc < |p.code| && !Fetch(p.code, pc).0.Halt?
    ensures var (insn, next) := Fetch(p.code, pc); var t := Template(insn, p.consts);
            && t.Some? && Body(p, next).Some? && Placed(code, k, t.value + Body(p, next).value, err)
            && Loaded(p, code, next, k + |t.value|, err, guarded)
  {
    LoadedNext(p, code, pc, k, err, guarded);
  }

  /** An instruction that the interpreter carries out too. */
  lemma {:induction false} NextRuns(p: Program, code: seq<Instr>, abi: Abi, pc: nat, k: nat, err: nat, guarded: bool,
                                    m: Machine, arr: seq<i32>, sp: i32, out: seq<i32>, rbx: Word)
    requires Stands(m, arr, sp, out, rbx) && |arr| == STACK_MAX && 0 <= sp <= STACK_MAX
             && Loaded(p, code, pc, k, err, guarded)
    requires pc < |p.code|
    requires var insn := Fetch(p.code, pc).0; !insn.Drop? && !insn.Halt? && Step(insn, p.consts, arr[..sp]).Next?
    ensures Meets(Run(code, abi, k, m), NativeResult(p, abi, guarded, pc, arr, sp, out), rbx)
    decreases |p.code| - pc, 0
  {
    hide Step, Template, Run, Straight, Placed, Meets, Tail, Stands, Fetch, Body, Holding, Loaded;
    var (insn, next) := Fetch(p.code, pc);
    LoadedPart(p, code, pc, k, err, guarded);
    StandsHolds(m, arr, sp, out, rbx);
    var t, b, e := Template(insn, p.consts).value, Body(p, next).value, Step(insn, p.consts, arr[..sp]);
    assert out + [] == out;
    if insn.Divide? {
      DivideStep(insn.wantRemainder, p.consts, arr[..sp]);
      DivideTemplate(insn.wantRemainder, p.consts);
      var m' := DivideRuns(code, abi, k, insn.wantRemainder, b, err, m, arr[..sp], out, rbx);
      StandsParts(m, arr, sp, out, rbx);
      HoldsAndStands(m', m, arr, e.stack, out, rbx);
      Simulates(p, code, abi, next, k + 10, err, guarded, m', e.stack + arr[|e.stack|..], |e.stack|, out, rbx);
    } else {
      var f := Straight(t, abi, 0, m);
      TemplateNoBranch(insn, p.consts);
      RunPart(code, abi, k, t, b, err, m);
      if Calls(insn) {
        CallRuns(insn, p.consts, t, abi, m, arr, sp, out, rbx);
        if After(insn, abi, arr, sp, out, e.stack).None? {
          if f.M? {
            LostRuns(p, code, abi, next, k + |t|, err, guarded, f);
          } else {
            FaultRuns(code, abi, k + |t|);
          }
          StrayedMeets(Run(code, abi, k, m), rbx);
        } else {
          var (arr', sp') := After(insn, abi, arr, sp, out, e.stack).value;
          Simulates(p, code, abi, next, k + |t|, err, guarded, f, arr', sp', out + e.printed, rbx);
        }
      } else {
        TemplateRuns(insn, p.consts, t, abi, m, arr[..sp], out, rbx);
        StandsParts(m, arr, sp, out, rbx);
        HoldsAndStands(f, m, arr, e.stack, out, rbx);
        Simulates(p, code, abi, next, k + |t|, err, guarded, f, e.stack + arr[|e.stack|..], |e.stack|, out, rbx);
      }
    }
  }

  // ---- from the entry of the native code ----

  lemma EpilogueComplete(len: nat)
    requires len <= JIT_CAP
    ensures var t := Fitting(len, EPILOGUE_ERR);
            |t| <= 4 && t == EPILOGUE_ERR[..|t|] && (|t| == 4 <==> len + 9 <= JIT_CAP)
  {
    var e := EPILOGUE_ERR;
    assert e[1..] == [MovEaxImm(14), PopRbx, Ret] && e[1..][1..] == [PopRbx, Ret] && e[1..][1..][1..] == [Ret];
    assert e[1..][1..][1..][1..] == [];
    assert Fitting(len + 9, []) == [];
    assert Fitting(len + 8, [Ret]) == if len + 9 <= JIT_CAP then [Ret] else [];
    assert Fitting(len + 7, [PopRbx, Ret]) == if len + 8 <= JIT_CAP then [PopRbx] + Fitting(len + 8, [Ret]) else [];
    assert Fitting(len + 2, [MovEaxImm(14), PopRbx, Ret])
        == if len + 7 <= JIT_CAP then [MovEaxImm(14)] + Fitting(len + 7, [PopRbx, Ret]) else [];
  }

  lemma LinkedTail(code: seq<Instr>)
    requires Off(code, |code|) <= JIT_CAP
    ensures Tail(Link(code), |code|, Guarded(code))
  {
    hide Off, Fitting, JzCount, Aimed;
    EpilogueComplete(Off(code, |code|));
    if JzCount(code) == 0 {
      assert code[|code|..] == [] == EPILOGUE_ERR[..0];
    } else {
      var a, t := Aimed(code, Off(code, |code|)), Fitting(Off(code, |code|), EPILOGUE_ERR);
      assert (a + t)[|code|..] == t;
    }
  }

  lemma {:induction false} OffCounts(code: seq<Instr>, k: nat)
    requires k <= |code|
    ensures k <= Off(code, k)
  {
    if k > 0 {
      OffCounts(code, k - 1);
    }
  }

  /** What bosl_vm_run_jit_io answers, for every program it compiles, whatever
      helpers do to the registers. */
  lemma NativeMeans(p: Program, abi: Abi, m: Machine)
    requires Jit(p).Native? && Entered(m)
    ensures var x := NativeResult(p, abi, Guarded(Compile(p).value), 0, m.stack, 0, []);
            Meets(Run(Jit(p).code, abi, 0, m), x, m.ebx)
  {
    hide Run, NativeResult, Placed, Meets, Holding, Body, Link, OnlyIntOps, Tail, Off, JzCount;
    var b := Body(p, 0).value;
    var code := PROLOGUE + b;
    LinkedPlaces(b);
    LinkedTail(code);
    PrologueRuns(Jit(p).code, abi, m);
    var m2 := m.(saved := m.ebx, ecx := Num(0));
    Simulates(p, Jit(p).code, abi, 0, 2, |code|, Guarded(code), m2, m.stack, 0, [], m.ebx);
  }
  // ---- against the interpreter ----

  /** Where a run of the interpreter without a budget stops. */
  function StopsAt(p: Program, pc: nat, s: seq<i32>): nat
    requires |s| <= STACK_MAX
    decreases |p.code| - pc
  {
    if pc >= |p.code| then pc
    else
      var (insn, next) := Fetch(p.code, pc);
      match Step(insn, p.consts, s)
      case Stop(_) => pc
      case Next(s', _) => StopsAt(p, next, s')
  }

  /** From pc on there is nothing but drops up to a halt. */
  predicate DropsToHalt(code: seq<byte>, pc: nat)
    decreases |code| - pc
  {
    pc < |code| &&
    var (insn, next) := Fetch(code, pc);
    insn.Halt? || (insn.Drop? && DropsToHalt(code, next))
  }

  /** The interpreter counts the steps a program takes; one per byte is enough. */
  lemma {:induction false} EnoughSteps(p: Program, limit: nat, pc: nat, steps: nat, s: seq<i32>, out: seq<i32>)
    requires |s| <= STACK_MAX && pc <= |p.code| && steps + (|p.code| - pc) < limit
    ensures !Interpret(p, limit, pc, steps, s, out).end.OutOfSteps?
    decreases |p.code| - pc
  {
    hide Step, Fetch;
    if pc < |p.code| {
      var (insn, next) := Fetch(p.code, pc);
      match Step(insn, p.consts, s) {
        case Stop(end) => StopEnds(insn, p.consts, s);
        case Next(s', printed) =>
          NextFits(p.code, pc, p.consts, s);
          EnoughSteps(p, limit, next, steps + 1, s', out + printed);
      }
    }
  }

  lemma StopEnds(insn: Insn, consts: seq<Const>, s: seq<i32>)
    requires |s| <= STACK_MAX && Step(insn, consts, s).Stop?
    ensures var e := Step(insn, consts, s).end; !e.OutOfSteps? && !e.PcOutOfRange?
    ensures Step(insn, consts, s) == Stop(DivideByZero) ==> |s| >= 2
  {
    hide Quot, Rem, Arithmetic, Shifted, Holds;
  }

  lemma NextFits(code: seq<byte>, pc: nat, consts: seq<Const>, s: seq<i32>)
    requires pc < |code| && |s| <= STACK_MAX && Step(Fetch(code, pc).0, consts, s).Next?
    ensures Fetch(code, pc).1 <= |code|
  {
    hide Quot, Rem, Arithmetic, Shifted, Holds;
  }

  /** What the emitted code needs of its helpers: a print has to keep rdi and ecx, a
      shift ecx and r11. */
  ghost predicate Keeps(abi: Abi) {
    && (forall out, args :: var l := abi.left(PrintI32, out, args); l.rdi.None? && l.ecx.None?)
    && (forall kind, out, args :: var l := abi.left(ShiftI32(kind), out, args); l.ecx.None? && l.r11.None?)
  }

  /** Native code returns with this result, and s on the stack. */
  predicate Gives(x: Result, rc: i32, s: seq<i32>, out: seq<i32>) {
    x.Returned? && x.rc == rc && x.sp as int == |s| && s <= x.stack && x.out == out
  }

  /** Error code 14 if there is complete error code to run into. */
  predicate GivesError(x: Result, guarded: bool, s: seq<i32>, out: seq<i32>) {
    if guarded then Gives(x, 14, s, out) else x.Strayed?
  }

  lemma AfterKept(insn: Insn, consts: seq<Const>, abi: Abi, arr: seq<i32>, s: seq<i32>, out: seq<i32>)
    requires Keeps(abi) && |arr| == STACK_MAX && |s| <= STACK_MAX && s == arr[..|s|] && Step(insn, consts, s).Next?
    ensures (insn.Print? ==> |s| >= 1) && (insn.Shift? ==> |s| >= 2 && Step(insn, consts, s).stack != [])
    ensures var s' := Step(insn, consts, s).stack;
            After(insn, abi, arr, |s|, out, s') == Some((s' + arr[|s'|..], |s'|))
  {
    hide Quot, Rem, Arithmetic, Shifted, Holds;
    var n := |s|;
    if insn.Shift? {
      var v := Step(insn, consts, s).stack[n - 2];
      assert Step(insn, consts, s).stack == s[..n - 2] + [v] && s[..n - 2] == arr[..n - 2];
      assert arr[n - 2 := v] == arr[..n - 2] + [v] + arr[n - 1..];
    } else if insn.Print? {
      assert Step(insn, consts, s).stack == s[..n - 1] == arr[..n - 1];
      assert arr == arr[..n - 1] + arr[n - 1..];
    }
  }

  lemma TopOf(arr: seq<i32>, s: seq<i32>)
    requires |arr| == STACK_MAX && |s| <= STACK_MAX
    ensures |s + arr[|s|..]| == STACK_MAX && (s + arr[|s|..])[..|s|] == s
  {
  }

  /** How each end of an interpreter run shows in the native code. */
  lemma {:induction false} EndsAlike(p: Program, abi: Abi, limit: nat, guarded: bool, pc: nat, steps: nat,
                                     arr: seq<i32>, s: seq<i32>, out: seq<i32>)
    requires Keeps(abi) && |arr| == STACK_MAX && |s| <= STACK_MAX && arr[..|s|] == s
    requires Body(p, pc).Some? && |Body(p, pc).value| <= JIT_CAP
    ensures var r := Interpret(p, limit, pc, steps, s, out);
            var x := NativeResult(p, abi, guarded, pc, arr, |s|, out);
            match r.end
            case Halted => Gives(x, 0, r.stack, r.out)
            case DivideByZero => r.stack != [] && GivesError(x, guarded, r.stack[..|r.stack| - 1], r.out)
            case PcOutOfRange => GivesError(x, guarded, r.stack, r.out)
            case Undefined => x == Strayed
            case Failed => x.Returned? && x.rc == 0 <==> r.stack == [] && DropsToHalt(p.code, StopsAt(p, pc, s))
            case OutOfSteps => true
    decreases |p.code| - pc
  {
    hide Step, Fetch, DropsToHalt, Keeps, After, Body, NativeResult;
    if pc >= |p.code| {
      NativeEnd(p, abi, guarded, pc, arr, s, out);
    } else if steps + 1 <= limit {
      var (insn, next) := Fetch(p.code, pc);
      match Step(insn, p.consts, s) {
        case Stop(end) =>
          StopEnds(insn, p.consts, s);
          NativeStop(p, abi, guarded, pc, arr, s, out);
        case Next(s', printed) =>
          NativeNext(p, abi, guarded, pc, arr, s, out);
          BodyShorter(p, pc, s);
          TopOf(arr, s');
          EndsAlike(p, abi, limit, guarded, next, steps + 1, s' + arr[|s'|..], s', out + printed);
      }
    }
  }

  lemma NativeEnd(p: Program, abi: Abi, guarded: bool, pc: nat, arr: seq<i32>, s: seq<i32>, out: seq<i32>)
    requires |arr| == STACK_MAX && |s| <= STACK_MAX && arr[..|s|] == s && pc >= |p.code|
    ensures GivesError(NativeResult(p, abi, guarded, pc, arr, |s|, out), guarded, s, out)
  {
  }

  lemma BodyShorter(p: Program, pc: nat, s: seq<i32>)
    requires |s| <= STACK_MAX && pc < |p.code| && Body(p, pc).Some? && Step(Fetch(p.code, pc).0, p.consts, s).Next?
    ensures var b := Body(p, Fetch(p.code, pc).1); b.Some? && |b.value| <= |Body(p, pc).value|
  {
    hide Step, Template, Fetch;
    NextIsNoHalt(Fetch(p.code, pc).0, p.consts, s);
  }

  lemma NativeNext(p: Program, abi: Abi, guarded: bool, pc: nat, arr: seq<i32>, s: seq<i32>, out: seq<i32>)
    requires Keeps(abi) && |arr| == STACK_MAX && |s| <= STACK_MAX && arr[..|s|] == s && pc < |p.code|
    requires Step(Fetch(p.code, pc).0, p.consts, s).Next?
    ensures var (insn, next) := Fetch(p.code, pc); var e := Step(insn, p.consts, s);
            NativeResult(p, abi, guarded, pc, arr, |s|, out)
            == NativeResult(p, abi, guarded, next, e.stack + arr[|e.stack|..], |e.stack|, out + e.printed)
  {
    hide Step, Fetch, Keeps, After;
    var (insn, next) := Fetch(p.code, pc);
    NextIsNoHalt(insn, p.consts, s);
    if insn.Drop? {
      DropStep(insn, p.consts, s);
      assert arr == arr[..|s| - 1] + arr[|s| - 1..] && arr[..|s| - 1] == s[..|s| - 1];
      assert out + [] == out;
    } else {
      AfterKept(insn, p.consts, abi, arr, s, out);
    }
  }

  lemma DropStep(insn: Insn, consts: seq<Const>, s: seq<i32>)
    requires |s| <= STACK_MAX && insn.Drop? && Step(insn, consts, s).Next?
    ensures |s| >= 1 && Step(insn, consts, s) == Next(s[..|s| - 1], [])
  {
  }

  /** What the interpreter's stops are to the native code. */
  lemma NativeStop(p: Program, abi: Abi, guarded: bool, pc: nat, arr: seq<i32>, s: seq<i32>, out: seq<i32>)
    requires |arr| == STACK_MAX && |s| <= STACK_MAX && arr[..|s|] == s && pc < |p.code|
    requires Body(p, pc).Some? && |Body(p, pc).value| <= JIT_CAP && Step(Fetch(p.code, pc).0, p.consts, s).Stop?
    ensures var x := NativeResult(p, abi, guarded, pc, arr, |s|, out);
            match Step(Fetch(p.code, pc).0, p.consts, s).end
            case Halted => Gives(x, 0, s, out)
            case DivideByZero => s != [] && GivesError(x, guarded, s[..|s| - 1], out)
            case Undefined => x == Strayed
            case Failed => x.Returned? && x.rc == 0 <==> s == [] && DropsToHalt(p.code, pc)
            case _ => true
  {
    hide Fetch, Quot, Rem, Arithmetic, Shifted, Holds, Body, After;
    var (insn, next) := Fetch(p.code, pc);
    if insn.Drop? {
      BelowStack(p, pc);
      OverdroppedReturns(p, abi, guarded, next, arr, -1, out);
    }
  }

  lemma BelowStack(p: Program, pc: nat)
    requires pc < |p.code| && Body(p, pc).Some? && Fetch(p.code, pc).0.Drop?
    ensures var b := Body(p, Fetch(p.code, pc).1); b.Some? && |Body(p, pc).value| == |b.value| + 1
  {
    hide Fetch, Template;
    DropTemplate(p.consts);
  }

  lemma {:induction false} OverdroppedReturns(p: Program, abi: Abi, guarded: bool, pc: nat, arr: seq<i32>, sp: i32,
                                              out: seq<i32>)
    requires |arr| == STACK_MAX && sp < 0 && Body(p, pc).Some? && sp as int - |Body(p, pc).value| >= -0x8000_0000
    ensures var x := NativeResult(p, abi, guarded, pc, arr, sp, out);
            x.Returned? && x.rc == 0 <==> DropsToHalt(p.code, pc)
    decreases |p.code| - pc
  {
    hide Fetch, Step, Body, After;
    if pc < |p.code| && Fetch(p.code, pc).0.Drop? {
      BelowStack(p, pc);
      OverdroppedReturns(p, abi, guarded, Fetch(p.code, pc).1, arr, sp - 1, out);
    }
  }

  /** A run that divides comes from code with a jump. */
  lemma {:induction false} DivisionsJump(p: Program, limit: nat, pc: nat, steps: nat, s: seq<i32>, out: seq<i32>)
    requires |s| <= STACK_MAX && Body(p, pc).Some? && Interpret(p, limit, pc, steps, s, out).end.DivideByZero?
    ensures JzCount(Body(p, pc).value) > 0
    decreases |p.code| - pc
  {
    hide Step, Template, Fetch;
    var (insn, next) := Fetch(p.code, pc);
    var t := Template(insn, p.consts).value;
    match Step(insn, p.consts, s) {
      case Stop(_) =>
        DivideByZeroStep(insn, p.consts, s);
        DivideTemplate(insn.wantRemainder, p.consts);
        var b := t + Body(p, next).value;
        assert b[3].Jz?;
        JumpCounts(b, 3);
      case Next(s', printed) =>
        NotHalt(insn, p.consts, s);
        DivisionsJump(p, limit, next, steps + 1, s', out + printed);
        JzCountAppend(t, Body(p, next).value);
    }
  }

  lemma DivideByZeroStep(insn: Insn, consts: seq<Const>, s: seq<i32>)
    requires |s| <= STACK_MAX && Step(insn, consts, s) == Stop(DivideByZero)
    ensures insn.Divide? && |s| >= 2 && s[|s| - 1] == 0
  {
  }

  /** Nine bytes of the buffer are left behind the code. */
  predicate ErrorCodeFits(code: seq<Instr>) {
    Off(code, |code|) + 9 <= JIT_CAP
  }

  /** With helpers that keep the registers: a program that the interpreter runs to
      halt from address 0 returns 0, with the same output and final stack and with
      rbx restored. A division by zero returns 14 after the same output exactly
      when the error code fits behind the program's; otherwise the jump leads out
      of the code. Running past the end returns 14 if there is error code to run
      into, and INT_MIN / -1 traps. */
  lemma JitMeetsInterpreter(p: Program, limit: nat, abi: Abi, m: Machine)
    requires Jit(p).Native? && Keeps(abi) && Entered(m)
    ensures var r := Interpret(p, limit, 0, 0, [], []); var f := Run(Jit(p).code, abi, 0, m);
            var code := Compile(p).value;
            match r.end
            case Halted => Finished(f, 0, r.out, m.ebx) && f.sp == |r.stack| && r.stack <= f.stack
            case DivideByZero =>
              && (Finished(f, 14, r.out, m.ebx) <==> ErrorCodeFits(code))
              && (f.Fault? <==> !ErrorCodeFits(code))
            case PcOutOfRange => if Guarded(code) then Finished(f, 14, r.out, m.ebx) && r.stack <= f.stack else f.Fault?
            case Undefined => f.Fault?
            case _ => true
  {
    hide Run, Interpret, Body, Link, OnlyIntOps, Off, JzCount, NativeResult, StopsAt, DropsToHalt, Keeps;
    NativeMeans(p, abi, m);
    BodyFits(p);
    EndsAlike(p, abi, limit, Guarded(Compile(p).value), 0, 0, m.stack, [], []);
    if Interpret(p, limit, 0, 0, [], []).end.DivideByZero? {
      DivisionsJump(p, limit, 0, 0, [], []);
      JzCountAppend(PROLOGUE, Body(p, 0).value);
    }
  }

  lemma BodyFits(p: Program)
    requires Compile(p).Some?
    ensures Body(p, 0).Some? && |Body(p, 0).value| <= JIT_CAP
  {
    hide Body, Off, JzCount;
    var code := PROLOGUE + Body(p, 0).value;
    OffCounts(code, |code|);
  }

  /** When native code returns 0: the interpreter halts, or it fails on a drop on
      the empty stack behind which there are only drops up to a halt. */
  lemma ReturnsZero(p: Program, limit: nat, abi: Abi, m: Machine)
    requires Jit(p).Native? && Keeps(abi) && Entered(m) && limit > |p.code|
    ensures var r := Interpret(p, limit, 0, 0, [], []); var f := Run(Jit(p).code, abi, 0, m);
            (f.M? && f.eax == Num(0))
            <==> r.end.Halted? || (r.end.Failed? && r.stack == [] && DropsToHalt(p.code, StopsAt(p, 0, [])))
  {
    hide Run, Interpret, Body, Link, OnlyIntOps, Off, JzCount, NativeResult, StopsAt, DropsToHalt, Keeps;
    NativeMeans(p, abi, m);
    BodyFits(p);
    EnoughSteps(p, limit, 0, 0, [], []);
    EndsAlike(p, abi, limit, Guarded(Compile(p).value), 0, 0, m.stack, [], []);
  }

  /** The native code has no step budget: it does not matter which one the
      interpreter was given. */
  lemma {:induction false} BudgetOnlyStops(p: Program, limit: nat, more: nat, pc: nat, steps: nat, s: seq<i32>,
                                           out: seq<i32>)
    requires |s| <= STACK_MAX && limit <= more && !Interpret(p, limit, pc, steps, s, out).end.OutOfSteps?
    ensures Interpret(p, more, pc, steps, s, out) == Interpret(p, limit, pc, steps, s, out)
    decreases |p.code| - pc
  {
    hide Step, Fetch;
    if steps + 1 <= limit && pc < |p.code| {
      var (insn, next) := Fetch(p.code, pc);
      match Step(insn, p.consts, s) {
        case Stop(end) =>
        case Next(s', printed) => BudgetOnlyStops(p, limit, more, next, steps + 1, s', out + printed);
      }
    }
  }

  // ---- helpers ----

  /** Code that calls no helper does not depend on the calling convention. */
  lemma {:induction false} CallFree(code: seq<Instr>, abi: Abi, other: Abi, k: nat, m: Machine)
    requires forall i | 0 <= i < |code| :: !code[i].CallRax?
    ensures Run(code, abi, k, m) == Run(code, other, k, m)
    decreases |code| - k
  {
    hide Off, At;
    if m.M? && k < |code| && !code[k].Ret? {
      var t := At(code, Off(code, k + 1) + (if code[k].Jz? then code[k].rel else 0));
      if code[k].Jz? && m.zf {
        if t > k {
          CallFree(code, abi, other, t, m);
        }
      } else {
        SameExec(code[k], abi, other, m);
        CallFree(code, abi, other, k + 1, Exec(code[k], abi, m));
      }
    }
  }

  lemma SameExec(i: Instr, abi: Abi, other: Abi, m: Machine)
    requires !i.CallRax?
    ensures Exec(i, abi, m) == Exec(i, other, m)
  {
  }

  /** A print or shift stands before the first halt. */
  predicate CallsBeforeHalt(code: seq<byte>, pc: nat)
    decreases |code| - pc
  {
    pc < |code| &&
    var (insn, next) := Fetch(code, pc);
    Calls(insn) || (!insn.Halt? && CallsBeforeHalt(code, next))
  }

  lemma {:induction false} CallFreeResult(p: Program, abi: Abi, other: Abi, guarded: bool, pc: nat, arr: seq<i32>,
                                          sp: i32, out: seq<i32>)
    requires |arr| == STACK_MAX && !CallsBeforeHalt(p.code, pc)
    ensures NativeResult(p, abi, guarded, pc, arr, sp, out) == NativeResult(p, other, guarded, pc, arr, sp, out)
    decreases |p.code| - pc
  {
    hide Step, Fetch;
    if pc < |p.code| {
      var (insn, next) := Fetch(p.code, pc);
      if insn.Drop? {
        CallFreeResult(p, abi, other, guarded, next, arr, Wrap(sp as int - 1), out);
      } else if !insn.Halt? && 0 <= sp <= STACK_MAX && Step(insn, p.consts, arr[..sp]).Next? {
        var e := Step(insn, p.consts, arr[..sp]);
        CallFreeResult(p, abi, other, guarded, next, e.stack + arr[|e.stack|..], |e.stack|, out + e.printed);
      }
    }
  }

  lemma NextIsNoHalt(insn: Insn, consts: seq<Const>, s: seq<i32>)
    requires |s| <= STACK_MAX && Step(insn, consts, s).Next?
    ensures !insn.Halt?
  {
    hide Quot, Rem, Arithmetic, Shifted, Holds;
  }

  /** Every print overwrites rdi, and every shift r11. */
  ghost predicate Loses(abi: Abi) {
    && (forall out, args :: abi.left(PrintI32, out, args).rdi.Some?)
    && (forall kind, out, args :: abi.left(ShiftI32(kind), out, args).r11.Some?)
  }

  lemma {:induction false} CallStrays(p: Program, abi: Abi, limit: nat, guarded: bool, pc: nat, steps: nat,
                                      arr: seq<i32>, s: seq<i32>, out: seq<i32>)
    requires Loses(abi) && |arr| == STACK_MAX && |s| <= STACK_MAX && arr[..|s|] == s
    requires CallsBeforeHalt(p.code, pc) && Interpret(p, limit, pc, steps, s, out).end.Halted?
    ensures NativeResult(p, abi, guarded, pc, arr, |s|, out) == Strayed
    decreases |p.code| - pc
  {
    hide Step, Fetch, Loses, After;
    var (insn, next) := Fetch(p.code, pc);
    match Step(insn, p.consts, s) {
      case Stop(end) => HaltOnlyHalts(insn, p.consts, s);
      case Next(s', printed) =>
        NextIsNoHalt(insn, p.consts, s);
        if Calls(insn) {
          NextNeeds(insn, p.consts, s);
          AfterLost(insn, abi, arr, |s|, out, s');
        } else if insn.Drop? {
          DropStep(insn, p.consts, s);
          assert arr[..|s| - 1] == s[..|s| - 1] && out + [] == out;
          CallStrays(p, abi, limit, guarded, next, steps + 1, arr, s', out);
        } else {
          TopOf(arr, s');
          AfterPlain(insn, abi, arr, |s|, out, s');
          CallStrays(p, abi, limit, guarded, next, steps + 1, s' + arr[|s'|..], s', out + printed);
        }
    }
  }

  lemma AfterLost(insn: Insn, abi: Abi, arr: seq<i32>, sp: nat, out: seq<i32>, s: seq<i32>)
    requires Loses(abi) && Calls(insn) && |s| <= |arr| == STACK_MAX && sp <= STACK_MAX
    requires (insn.Print? ==> sp >= 1) && (insn.Shift? ==> sp >= 2 && s != [])
    ensures After(insn, abi, arr, sp, out, s) == None
  {
  }

  lemma AfterPlain(insn: Insn, abi: Abi, arr: seq<i32>, sp: nat, out: seq<i32>, s: seq<i32>)
    requires !Calls(insn) && |s| <= |arr| == STACK_MAX && sp <= STACK_MAX
    ensures After(insn, abi, arr, sp, out, s) == Some((s + arr[|s|..], |s|))
  {
  }

  lemma HaltOnlyHalts(insn: Insn, consts: seq<Const>, s: seq<i32>)
    requires |s| <= STACK_MAX && Step(insn, consts, s) == Stop(Halted)
    ensures insn.Halt?
  {
    hide Quot, Rem, Arithmetic, Shifted, Holds;
  }

  /** A program without a print or shift before its first halt runs the same whatever
      helpers do. With helpers that overwrite rdi (print) or r11 (shifts), a program
      that the interpreter runs to halt returns 0 exactly if it is of that kind, and
      otherwise strays. */
  lemma HelpersMustKeepRegisters(p: Program, limit: nat, abi: Abi, m: Machine)
    requires Jit(p).Native? && Entered(m)
    ensures var r := Interpret(p, limit, 0, 0, [], []); var f := Run(Jit(p).code, abi, 0, m);
            && (!CallsBeforeHalt(p.code, 0) ==>
                  forall other :: Meets(f, NativeResult(p, other, Guarded(Compile(p).value), 0, m.stack, 0, []), m.ebx))
            && (r.end.Halted? && !CallsBeforeHalt(p.code, 0) ==>
                  Finished(f, 0, r.out, m.ebx) && f.sp == |r.stack| && r.stack <= f.stack)
            && (r.end.Halted? && CallsBeforeHalt(p.code, 0) && Loses(abi) ==> f.Fault?)
  {
    hide Run, Interpret, Body, Link, OnlyIntOps, Off, JzCount, NativeResult, StopsAt, DropsToHalt, CallsBeforeHalt,
         Loses;
    var guarded := Guarded(Compile(p).value);
    NativeMeans(p, abi, m);
    if !CallsBeforeHalt(p.code, 0) {
      forall other
        ensures NativeResult(p, abi, guarded, 0, m.stack, 0, []) == NativeResult(p, other, guarded, 0, m.stack, 0, [])
      {
        CallFreeResult(p, abi, other, guarded, 0, m.stack, 0, []);
      }
      var kept := Abi((fn, out, args) => Left(None, None, None, 0, 0, 0));
      BodyFits(p);
      EndsAlike(p, kept, limit, guarded, 0, 0, m.stack, [], []);
    } else if Interpret(p, limit, 0, 0, [], []).end.Halted? && Loses(abi) {
      CallStrays(p, abi, limit, guarded, 0, 0, m.stack, [], []);
    }
  }

  // ---- the entry address ----

  lemma {:induction false} BodyIgnoresEntry(p: Program, entry: nat, pc: nat)
    ensures Body(p.(entry := entry), pc) == Body(p, pc)
    decreases |p.code| - pc
  {
    hide Fetch, Template;
    if pc < |p.code| {
      BodyIgnoresEntry(p, entry, Fetch(p.code, pc).1);
    }
  }

  /** The compiler only looks whether the entry lies inside the code: the native
      code is the one for entry 0. */
  lemma EntryIsIgnored(p: Program, entry: nat)
    requires p.entry < |p.code| && entry < |p.code|
    ensures Jit(p.(entry := entry)) == Jit(p)
  {
    BodyIgnoresEntry(p, entry, 0);
  }

  /** pushi 7; print; halt */
  const PRINT_SEVEN: seq<byte> := [0x01, 7, 0, 0, 0, 0x20, 0xFF]

  lemma PrintSevenCompiles(entry: nat)
    requires entry < 7
    ensures Jit(Program(PRINT_SEVEN, [], entry)).Native?
  {
    var p := Program(PRINT_SEVEN, [], entry);
    var b := PushTemplate(7) + (PrintTemplate() + EPILOGUE_OK);
    assert Fetch(p.code, 0) == (PushI(7), 5) && Fetch(p.code, 5) == (Print, 6) && Fetch(p.code, 6) == (Halt, 7);
    assert OnlyIntOps(p.code, 7);
    assert OnlyIntOps(p.code, 6);
    assert OnlyIntOps(p.code, 5);
    assert Body(p, 6) == Some(EPILOGUE_OK);
    assert Body(p, 5) == Some(PrintTemplate() + EPILOGUE_OK);
    var code := PROLOGUE + b;
    NoBranchCount(code);
    SmallCode(code, |code|);
  }

  lemma {:induction false} SmallCode(code: seq<Instr>, k: nat)
    requires k <= |code|
    ensures Off(code, k) <= 10 * k
  {
    if k > 0 {
      SmallCode(code, k - 1);
    }
  }

  lemma OneStep(p: Program, limit: nat, pc: nat, steps: nat, s: seq<i32>, out: seq<i32>)
    requires |s| <= STACK_MAX && steps + 1 <= limit && pc < |p.code|
    ensures var (insn, next) := Fetch(p.code, pc);
            Interpret(p, limit, pc, steps, s, out)
            == match Step(insn, p.consts, s)
               case Stop(end) => Outcome(end, s, out)
               case Next(s', printed) => Interpret(p, limit, next, steps + 1, s', out + printed)
  {
    hide Step, Fetch;
  }

  lemma SevenRuns(limit: nat, entry: nat)
    requires limit >= 3
    ensures var p := Program(PRINT_SEVEN, [], entry);
            Interpret(p, limit, 6, 0, [], []) == Outcome(Halted, [], [])
            && Interpret(p, limit, 0, 0, [], []) == Outcome(Halted, [], [7])
  {
    var p := Program(PRINT_SEVEN, [], entry);
    assert Fetch(p.code, 0) == (PushI(7), 5) && Fetch(p.code, 5) == (Print, 6) && Fetch(p.code, 6) == (Halt, 7);
    hide Fetch, Interpret;
    OneStep(p, limit, 6, 0, [], []);
    OneStep(p, limit, 0, 0, [], []);
    var none: seq<i32> := [];
    assert Step(PushI(7), [], []) == Next([7], []) && none + [] == none;
    OneStep(p, limit, 5, 1, [7], []);
    assert [7][..0] == none && none + [7] == [7];
    assert Step(Print, [], [7]) == Next([], [7]);
    OneStep(p, limit, 6, 2, [], [7]);
  }

  /** So a program whose entry is its halt prints natively, and only natively. */
  lemma EntrySevenPrints(limit: nat, abi: Abi, m: Machine)
    requires limit >= 3 && Keeps(abi) && Entered(m)
    ensures var p := Program(PRINT_SEVEN, [], 6);
            Jit(p).Native? && Interpret(p, limit, p.entry, 0, [], []) == Outcome(Halted, [], [])
            && Finished(Run(Jit(p).code, abi, 0, m), 0, [7], m.ebx)
  {
    var p := Program(PRINT_SEVEN, [], 6);
    PrintSevenCompiles(6);
    SevenRuns(limit, 6);
    hide Run, Interpret, Keeps;
    JitMeetsInterpreter(p, limit, abi, m);
  }

  // ---- a division by zero near the end of the buffer ----

  /** pushi 1; pushi 0; div; n times drop; halt */
  const DIVIDES: seq<byte> := [0x01, 1, 0, 0, 0, 0x01, 0, 0, 0, 0, 0x13]

  function Dropping(n: nat): (code: seq<byte>)
    ensures |code| == 12 + n && code[..11] == DIVIDES && code[11 + n] == 0xFF
            && forall i | 11 <= i < 11 + n :: code[i] == 0x22
  {
    DIVIDES + seq(n, _ => 0x22) + [0xFF]
  }

  function Decs(n: nat): (xs: seq<Instr>)
    ensures |xs| == n && forall i | 0 <= i < n :: xs[i] == DecEcx
  {
    seq(n, _ => DecEcx)
  }

  lemma FetchDrop(n: nat, i: nat)
    requires i < n
    ensures Fetch(Dropping(n), 11 + i) == (Drop, 12 + i)
  {
  }

  lemma FetchHead(n: nat)
    ensures var c := Dropping(n);
            Fetch(c, 0) == (PushI(1), 5) && Fetch(c, 5) == (PushI(0), 10) && Fetch(c, 10) == (Divide(false), 11)
            && Fetch(c, 11 + n) == (Halt, 12 + n)
  {
    var c := Dropping(n);
    assert forall i | 0 <= i < 11 :: c[i] == c[..11][i];
  }

  lemma {:induction false} DropsCompile(n: nat, i: nat)
    requires i <= n
    ensures Body(Program(Dropping(n), [], 0), 11 + i) == Some(Decs(n - i) + EPILOGUE_OK)
    ensures OnlyIntOps(Dropping(n), 11 + i)
    decreases n - i
  {
    hide Fetch;
    var p := Program(Dropping(n), [], 0);
    FetchHead(n);
    if i < n {
      FetchDrop(n, i);
      DropsCompile(n, i + 1);
      assert [DecEcx] + (Decs(n - i - 1) + EPILOGUE_OK) == Decs(n - i) + EPILOGUE_OK;
    } else {
      assert OnlyIntOps(p.code, 12 + n);
      assert Decs(0) + EPILOGUE_OK == EPILOGUE_OK;
    }
  }

  function DividesHead(): seq<Instr> {
    PushTemplate(1) + (PushTemplate(0) + (DivideHead() + ([Jz(0)] + DivideTail(false))))
  }

  lemma DroppingCompiles(n: nat)
    ensures Body(Program(Dropping(n), [], 0), 0) == Some(DividesHead() + (Decs(n) + EPILOGUE_OK))
    ensures OnlyIntOps(Dropping(n), 0)
  {
    hide Fetch, PushTemplate, DivideHead, DivideTail;
    var p := Program(Dropping(n), [], 0);
    FetchHead(n);
    DropsCompile(n, 0);
    DivideTemplate(false, p.consts);
    var rest := Decs(n) + EPILOGUE_OK;
    var d := DivideHead() + ([Jz(0)] + DivideTail(false));
    assert Body(p, 10) == Some(d + rest);
    assert Body(p, 5) == Some(PushTemplate(0) + (d + rest));
    assert Body(p, 0) == Some(PushTemplate(1) + (PushTemplate(0) + (d + rest)));
    assert PushTemplate(1) + (PushTemplate(0) + (d + rest)) == DividesHead() + rest;
    assert OnlyIntOps(p.code, 10);
    assert OnlyIntOps(p.code, 5);
  }

  lemma {:induction false} OffSum(a: seq<Instr>, b: seq<Instr>, k: nat)
    requires k <= |b|
    ensures Off(a + b, |a| + k) == Off(a, |a|) + Off(b, k)
  {
    if k == 0 {
      OffPrefix(a, b, |a|);
    } else {
      OffSum(a, b, k - 1);
    }
  }

  lemma {:induction false} DecsSize(n: nat, k: nat)
    requires k <= n
    ensures Off(Decs(n), k) == 2 * k
  {
    if k > 0 {
      DecsSize(n, k - 1);
    }
  }

  lemma DividesSize()
    ensures Off(PROLOGUE + DividesHead(), |PROLOGUE + DividesHead()|) == 69
    ensures Off(EPILOGUE_OK, |EPILOGUE_OK|) == 6
  {
    var x := PROLOGUE + DividesHead();
    assert x == [PushRbx, MovEcxSp,
                 MovEaxImm(1), Store(ByEcx, Eax), IncEcx, MovEaxImm(0), Store(ByEcx, Eax), IncEcx,
                 DecEcx, Load(Ebx, ByEcx), TestEbx, Jz(0),
                 DecEcx, Load(Eax, ByEcx), Cdq, IdivEbx, Store(ByEcx, Eax), IncEcx];
    hide Push, Pop, PushTemplate, DivideHead, DivideTail, DividesHead;
    assert Off(x, 1) == 1;
    assert Off(x, 3) == 8;
    assert Off(x, 5) == 17;
    assert Off(x, 7) == 29;
    assert Off(x, 9) == 33;
    assert Off(x, 11) == 42;
    assert Off(x, 13) == 50;
    assert Off(x, 15) == 58;
    assert Off(x, 17) == 67;
    assert Off(EPILOGUE_OK, 2) == 4;
  }

  lemma DroppingCode(n: nat)
    ensures var code := PROLOGUE + (DividesHead() + (Decs(n) + EPILOGUE_OK));
            Off(code, |code|) == 75 + 2 * n && JzCount(code) == 1
  {
    hide Off, JzCount;
    var a, d, e := PROLOGUE + DividesHead(), Decs(n), EPILOGUE_OK;
    assert PROLOGUE + (DividesHead() + (d + e)) == a + (d + e);
    DividesSize();
    OffSum(a, d + e, |d + e|);
    OffSum(d, e, |e|);
    DecsSize(n, n);
    OneJump();
    NoBranchCount(d + e);
    JzCountAppend(a, d + e);
  }

  lemma OneJump()
    ensures JzCount(PROLOGUE + DividesHead()) == 1
  {
    var a, b := PROLOGUE + (PushTemplate(1) + (PushTemplate(0) + DivideHead())), DivideTail(false);
    assert PROLOGUE + DividesHead() == a + [Jz(0)] + b;
    NoBranchCount(a);
    NoBranchCount(b);
    assert (a + [Jz(0)])[..|a|] == a;
    JzCountAppend(a + [Jz(0)], b);
  }

  /** A program that divides by zero, padded with drops behind the division: the
      interpreter reports the division; so does the native code up to 8150 drops;
      with four more at most, it is still accepted, but the jump leads out of the
      code. */
  lemma DivideNearTheEnd(n: nat, limit: nat, abi: Abi, m: Machine)
    requires limit >= 3 && Entered(m)
    ensures var p := Program(Dropping(n), [], 0);
            && Interpret(p, limit, 0, 0, [], []) == Outcome(DivideByZero, [1, 0], [])
            && (Jit(p).Native? <==> n <= 8154)
            && (n <= 8150 ==> Finished(Run(Jit(p).code, abi, 0, m), 14, [], m.ebx))
            && (8151 <= n <= 8154 ==> Run(Jit(p).code, abi, 0, m).Fault?)
  {
    hide Run, Interpret, NativeResult, Off, JzCount, Fetch, Body, OnlyIntOps, Link, DividesHead;
    var p := Program(Dropping(n), [], 0);
    DroppingCompiles(n);
    DroppingCode(n);
    DroppingDivides(n, limit, Guarded(PROLOGUE + (DividesHead() + (Decs(n) + EPILOGUE_OK))), abi, m.stack);
    if Jit(p).Native? {
      NativeMeans(p, abi, m);
    }
  }

  lemma DroppingDivides(n: nat, limit: nat, guarded: bool, abi: Abi, arr: seq<i32>)
    requires limit >= 3 && |arr| == STACK_MAX
    ensures var p := Program(Dropping(n), [], 0);
            && Interpret(p, limit, 0, 0, [], []) == Outcome(DivideByZero, [1, 0], [])
            && NativeResult(p, abi, guarded, 0, arr, 0, []) == Failing(guarded, 1, arr[0 := 1][1 := 0], [])
  {
    hide Fetch, Dropping, Quot, Rem;
    var p := Program(Dropping(n), [], 0);
    FetchHead(n);
    var none: seq<i32> := [];
    assert none + none == none && none + [1] == [1] && [1] + [0] == [1, 0];
    assert Step(PushI(1), [], none) == Next([1], none);
    assert Step(PushI(0), [], [1]) == Next([1, 0], none);
    assert Step(Divide(false), [], [1, 0]) == Stop(DivideByZero);
    hide Step, Interpret;
    var a1, a2 := [1] + arr[1..], [1, 0] + arr[2..];
    assert arr[..0] == none && a1[..1] == [1] && a2[..2] == [1, 0] && [1, 0] + a1[2..] == a2
           && a2 == arr[0 := 1][1 := 0];
    assert NativeResult(p, abi, guarded, 10, a2, 2, none) == Failing(guarded, 1, a2, none);
    assert NativeResult(p, abi, guarded, 5, a1, 1, none) == NativeResult(p, abi, guarded, 10, a2, 2, none);
    assert NativeResult(p, abi, guarded, 0, arr, 0, none) == NativeResult(p, abi, guarded, 5, a1, 1, none);
    OneStep(p, limit, 0, 0, [], []);
    OneStep(p, limit, 5, 1, [1], []);
    OneStep(p, limit, 10, 2, [1, 0], []);
  }

  // ---- a shift count in ecx ----

  /** pushi 1; pushi b; shl; halt */
  function ShiftOne(b: byte): seq<byte> {
    [0x01, 1, 0, 0, 0, 0x01, b, 0, 0, 0, 0x1A, 0xFF]
  }

  lemma FetchShiftOne(b: byte)
    ensures var c := ShiftOne(b);
            Fetch(c, 0) == (PushI(1), 5) && Fetch(c, 5) == (PushI(b as int), 10) && Fetch(c, 10) == (Shift(Shl), 11)
            && Fetch(c, 11) == (Halt, 12)
  {
    assert Signed(b as int) == b as int;
  }

  lemma ShiftOneCompiles(b: byte)
    ensures Jit(Program(ShiftOne(b), [], 0)).Native?
  {
    hide Fetch, PushTemplate, ShiftTemplate;
    var p := Program(ShiftOne(b), [], 0);
    FetchShiftOne(b);
    assert OnlyIntOps(p.code, 12);
    assert OnlyIntOps(p.code, 11);
    assert OnlyIntOps(p.code, 10);
    assert OnlyIntOps(p.code, 5);
    var t := ShiftTemplate(Shl);
    assert Body(p, 11) == Some(EPILOGUE_OK);
    assert Body(p, 10) == Some(t + EPILOGUE_OK);
    assert Body(p, 5) == Some(PushTemplate(b as int) + (t + EPILOGUE_OK));
    var code := PROLOGUE + (PushTemplate(1) + (PushTemplate(b as int) + (t + EPILOGUE_OK)));
    assert Body(p, 0) == Some(PushTemplate(1) + (PushTemplate(b as int) + (t + EPILOGUE_OK)));
    ShiftOneShapes(b);
    NoBranchCount(code);
    SmallCode(code, |code|);
  }

  lemma ShiftOneShapes(b: byte)
    ensures |PushTemplate(1)| == 3 && |PushTemplate(b as int)| == 3 && |ShiftTemplate(Shl)| == 12
    ensures NoBranch(PushTemplate(1)) && NoBranch(PushTemplate(b as int)) && NoBranch(ShiftTemplate(Shl))
  {
    PushNoBranch(1);
    PushNoBranch(b as int);
    ShiftNoBranch(Shl);
  }

  /** A compiler puts the count of a shift by a variable into ecx, and nothing makes it
      restore ecx. Then the result lands where the count says: native code returns
      with b + 1 values on the stack where the interpreter has one, the result on
      top of whatever the array held. */
  lemma ShiftCountInEcx(b: byte, limit: nat, abi: Abi, m: Machine)
    requires limit >= 4 && Entered(m)
    requires forall out, x: i32, y: i32 ::
               var l := abi.left(ShiftI32(Shl), out, [x, y]); l.ecx == Some(y) && l.r11.None?
    ensures var p := Program(ShiftOne(b), [], 0); var v := Shifted(Shl, 1, b as int);
            && Interpret(p, limit, 0, 0, [], []) == Outcome(Halted, [v], [])
            && Jit(p).Native?
            && var f := Run(Jit(p).code, abi, 0, m);
               Finished(f, 0, [], m.ebx) && f.sp == b as int + 1
                 && f.stack == m.stack[0 := 1][1 := b as int][b as int := v]
  {
    hide Run, Interpret, NativeResult, OnlyIntOps, Compile, Link, ShiftOne, Shifted;
    var p := Program(ShiftOne(b), [], 0);
    ShiftOneCompiles(b);
    NativeMeans(p, abi, m);
    ShiftOneRuns(b, limit, Guarded(Compile(p).value), abi, m.stack);
  }

  lemma ShiftOneRuns(b: byte, limit: nat, guarded: bool, abi: Abi, arr: seq<i32>)
    requires limit >= 4 && |arr| == STACK_MAX
    requires forall out, x: i32, y: i32 ::
               var l := abi.left(ShiftI32(Shl), out, [x, y]); l.ecx == Some(y) && l.r11.None?
    ensures var p := Program(ShiftOne(b), [], 0); var v := Shifted(Shl, 1, b as int);
            && Interpret(p, limit, 0, 0, [], []) == Outcome(Halted, [v], [])
            && NativeResult(p, abi, guarded, 0, arr, 0, [])
               == Returned(0, b as int + 1, arr[0 := 1][1 := b as int][b as int := v], [])
  {
    hide *;
    ShiftOneInterpreted(b, limit);
    ShiftOneNative(b, guarded, abi, arr);
  }

  /** The three instructions on their stacks. */
  lemma ShiftOneSteps(b: byte)
    ensures var c: i32, none: seq<i32> := b as int, [];
            && Step(PushI(1), [], none) == Next([1], none)
            && Step(PushI(c), [], [1]) == Next([1, c], none)
            && Step(Shift(Shl), [], [1, c]) == Next([Shifted(Shl, 1, c)], none)
            && Step(Halt, [], [Shifted(Shl, 1, c)]) == Stop(Halted)
  {
    hide Shifted;
    var c: i32, none: seq<i32> := b as int, [];
    assert none + [1] == [1] && [1] + [c] == [1, c] && [1, c][..0] == none;
    assert none + [Shifted(Shl, 1, c)] == [Shifted(Shl, 1, c)];
  }

  lemma ShiftOneInterpreted(b: byte, limit: nat)
    requires limit >= 4
    ensures Interpret(Program(ShiftOne(b), [], 0), limit, 0, 0, [], [])
              == Outcome(Halted, [Shifted(Shl, 1, b as int)], [])
  {
    hide Fetch, ShiftOne, Shifted, Step, Interpret;
    var p := Program(ShiftOne(b), [], 0);
    ShiftOneLength(b);
    FetchShiftOne(b);
    ShiftOneSteps(b);
    var none: seq<i32> := [];
    assert none + none == none;
    OneStep(p, limit, 0, 0, [], []);
    OneStep(p, limit, 5, 1, [1], []);
    OneStep(p, limit, 10, 2, [1, b as int], []);
    OneStep(p, limit, 11, 3, [Shifted(Shl, 1, b as int)], []);
  }

  lemma OnePlain(p: Program, abi: Abi, guarded: bool, pc: nat, arr: seq<i32>, sp: nat, out: seq<i32>)
    requires |arr| == STACK_MAX && sp <= STACK_MAX && pc < |p.code|
    requires var insn := Fetch(p.code, pc).0;
             !insn.Drop? && !insn.Halt? && !Calls(insn) && Step(insn, p.consts, arr[..sp]).Next?
    ensures var (insn, next) := Fetch(p.code, pc); var e := Step(insn, p.consts, arr[..sp]);
            NativeResult(p, abi, guarded, pc, arr, sp, out)
            == NativeResult(p, abi, guarded, next, e.stack + arr[|e.stack|..], |e.stack|, out + e.printed)
  {
    hide Fetch, Step;
  }

  lemma ShiftOneNative(b: byte, guarded: bool, abi: Abi, arr: seq<i32>)
    requires |arr| == STACK_MAX
    requires forall out, x: i32, y: i32 ::
               var l := abi.left(ShiftI32(Shl), out, [x, y]); l.ecx == Some(y) && l.r11.None?
    ensures NativeResult(Program(ShiftOne(b), [], 0), abi, guarded, 0, arr, 0, [])
         == Returned(0, b as int + 1, arr[0 := 1][1 := b as int][b as int := Shifted(Shl, 1, b as int)], [])
  {
    hide Fetch, ShiftOne, Shifted, Step, NativeResult;
    var p, c: i32 := Program(ShiftOne(b), [], 0), b as int;
    ShiftOneLength(b);
    FetchShiftOne(b);
    ShiftOneSteps(b);
    var none: seq<i32> := [];
    var a1, a2 := [1] + arr[1..], [1, c] + arr[2..];
    assert none + none == none && arr[..0] == none && a1[..1] == [1] && [1, c] + a1[2..] == a2;
    assert a2 == arr[0 := 1][1 := c];
    OnePlain(p, abi, guarded, 0, arr, 0, none);
    OnePlain(p, abi, guarded, 5, a1, 1, none);
    ShiftOneEnds(b, guarded, abi, a2);
  }

  lemma ShiftOneEnds(b: byte, guarded: bool, abi: Abi, arr: seq<i32>)
    requires |arr| == STACK_MAX && arr[..2] == [1, b as int]
    requires forall out, x: i32, y: i32 ::
               var l := abi.left(ShiftI32(Shl), out, [x, y]); l.ecx == Some(y) && l.r11.None?
    ensures NativeResult(Program(ShiftOne(b), [], 0), abi, guarded, 10, arr, 2, [])
         == Returned(0, b as int + 1, arr[b as int := Shifted(Shl, 1, b as int)], [])
  {
    hide Fetch, ShiftOne, Shifted, Step;
    var p, c: i32, v := Program(ShiftOne(b), [], 0), b as int, Shifted(Shl, 1, b as int);
    ShiftOneLength(b);
    FetchShiftOne(b);
    ShiftOneSteps(b);
    var none: seq<i32> := [];
    assert arr[0] == arr[..2][0] == 1 && arr[1] == arr[..2][1] == c && none + none == none;
    assert After(Shift(Shl), abi, arr, 2, none, [v]) == Some((arr[c := v], c + 1));
    hide After;
    assert NativeResult(p, abi, guarded, 11, arr[c := v], c + 1, none) == Returned(0, c + 1, arr[c := v], none);
  }

  lemma ShiftOneLength(b: byte)
    ensures |ShiftOne(b)| == 12
  {
  }
}
