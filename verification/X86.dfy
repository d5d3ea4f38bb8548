/** The instructions that os/kernel/bosl_jit.c emits, with their encoded sizes,
    and a machine that runs them. Registers hold numbers, the context pointer or
    a helper's address; memory is the context record: its sp field and its stack. */
module X86 {
  import opened Wrappers
  import opened BitOps
  import opened Int32
  import opened BoslVm

  datatype Word = Num(n: i32) | Ctx | Helper(fn: Callee)

  datatype Callee = PrintI32 | ShiftI32(kind: ShiftKind)

  datatype Reg = Eax | Edx | Ebx

  /** Which register an address is indexed by: [rdi + 4*r + 4]. */
  datatype Index = ByEcx | ByEbx

  datatype Instr =
    | PushRbx | PopRbx | Ret
    | MovEcxSp                      // mov ecx, [rdi]
    | MovSpEcx                      // mov [rdi], ecx
    | XorEaxEax
    | MovEaxImm(imm: i32)
    | Load(r: Reg, ix: Index)       // mov r, [rdi + ix*4 + 4]
    | Store(ix: Index, r: Reg)      // mov [rdi + ix*4 + 4], r
    | IncEcx | DecEcx
    | LeaEbx(back: i32)             // lea ebx, [rcx - back]
    | Alu(op: Arith)                // op edx, eax
    | NotEax | NegEax
    | TestEbx | Jz(rel: int)
    | Cdq | IdivEbx
    | CmpEdxEax | Setcc(cond: Cond) | MovzxEaxAl
    | MovEsiEax | MovEdiEax | MovR11Rdi | MovRdiR11
    | LoadEaxR11                    // mov eax, [r11 + rcx*4 + 4]
    | StoreEaxR11                   // mov [r11 + rcx*4 + 4], eax
    | MovRaxHelper(fn: Callee)
    | CallRax

  /** Encoded length in bytes. */
  function Size(i: Instr): (n: nat)
    ensures n >= 1
  {
    match i
    case PushRbx => 1 case PopRbx => 1 case Ret => 1 case Cdq => 1
    case MovEaxImm(_) => 5
    case Load(_, _) => 7 case Store(_, _) => 7
    case LeaEbx(_) => 3
    case Alu(op) => if op == Mul then 3 else 2
    case Jz(_) => 6
    case Setcc(_) => 3 case MovzxEaxAl => 3
    case MovR11Rdi => 3 case MovRdiR11 => 3
    case LoadEaxR11 => 8 case StoreEaxR11 => 8
    case MovRaxHelper(_) => 10
    case _ => 2
  }

  /** The byte offset of instruction k. */
  function Off(code: seq<Instr>, k: nat): nat
    requires k <= |code|
  {
    if k == 0 then 0 else Off(code, k - 1) + Size(code[k - 1])
  }

  /** The instruction that starts at a byte offset, if one does. */
  function At(code: seq<Instr>, offset: int): (k: int)
    ensures k == -1 || (0 <= k <= |code| && Off(code, k) == offset)
  {
    Search(code, offset, |code|)
  }

  function Search(code: seq<Instr>, offset: int, k: nat): (r: int)
    requires k <= |code|
    ensures r == -1 || (0 <= r <= k && Off(code, r) == offset)
    ensures r == -1 ==> forall j: nat | j <= k :: Off(code, j) != offset
  {
    if Off(code, k) == offset then k else if k == 0 then -1 else Search(code, offset, k - 1)
  }

  lemma {:induction false} OffMonotone(code: seq<Instr>, j: nat, k: nat)
    requires j < k <= |code|
    ensures Off(code, j) < Off(code, k)
    decreases k
  {
    if j < k - 1 {
      OffMonotone(code, j, k - 1);
    }
  }

  lemma AtOff(code: seq<Instr>, k: nat)
    requires k <= |code|
    ensures At(code, Off(code, k)) == k
  {
    var r := At(code, Off(code, k));
    if r != -1 && r < k {
      OffMonotone(code, r, k);
    } else if r > k {
      OffMonotone(code, k, r);
    }
  }

  /** What a call into C leaves in the registers: None for rdi, ecx and r11 where it
      leaves one alone. The System V calling convention promises none of the three. */
  datatype Left = Left(rdi: Option<i32>, ecx: Option<i32>, r11: Option<i32>, eax: i32, edx: i32, esi: i32)

  /** The helpers as compiled: what a call leaves may depend on the helper, on what
      was printed so far and on the arguments. */
  datatype Abi = Abi(left: (Callee, seq<i32>, seq<i32>) -> Left)

  /** Fault: the code has left its own end, the stack array or what the processor
      can do; nothing is said about what happens then. */
  datatype Machine =
    | Fault
    | M(eax: Word, ebx: Word, ecx: Word, edx: Word, esi: Word, rdi: Word, r11: Word,
        zf: bool, sf: bool, of: bool,
        saved: Word, sp: i32, stack: seq<i32>, out: seq<i32>)

  function Read(m: Machine, r: Reg): Word
    requires m.M?
  {
    match r case Eax => m.eax case Edx => m.edx case Ebx => m.ebx
  }

  function Write(m: Machine, r: Reg, w: Word): (r': Machine)
    requires m.M?
    ensures r'.M?
  {
    match r
    case Eax => m.(eax := w)
    case Edx => m.(edx := w)
    case Ebx => m.(ebx := w)
  }

  /** The stack slot that an index register selects, or -1 outside the array. */
  function SlotOf(m: Machine, base: Word, index: Word): (k: int)
    requires m.M?
    ensures -1 <= k < |m.stack|
  {
    if base == Ctx && index.Num? && 0 <= index.n < |m.stack| then index.n else -1
  }

  /** One column of a bitwise instruction. */
  function Gate(op: Arith, p: bool, q: bool): bool {
    if op == And then p && q else if op == Or then p || q else p != q
  }

  function Columns(op: Arith, p: seq<bool>, q: seq<bool>): (r: seq<bool>)
    requires |p| == |q|
    ensures |r| == |p|
  {
    seq(|p|, i requires 0 <= i < |p| => Gate(op, p[i], q[i]))
  }

  /** add, sub, imul, and, or and xor on the contents of two registers. */
  function AluWord(op: Arith, x: word, y: word): word {
    match op
    case Add => (x as int + y as int) % 0x1_0000_0000
    case Sub => (x as int - y as int) % 0x1_0000_0000
    case Mul => (x as int * y as int) % 0x1_0000_0000
    case _ =>
      Pow2Of32();
      Val(Columns(op, BitsOf(x, 32), BitsOf(y, 32)))
  }

  /** What the shift helpers answer, as multiplication or division by a power of two. */
  function HelperShift(kind: ShiftKind, a: i32, b: i32): i32 {
    var p := Pow2(b % 32);
    match kind
    case Shl => Signed((Unsigned(a) as int * p) % 0x1_0000_0000)
    case Shr => Wrap(a / p)
    case Ushr =>
      QuotientShrinks(Unsigned(a), p);
      Signed(Unsigned(a) / p)
  }

  /** One instruction other than ret and a taken jump. inc, dec, neg and the
      arithmetic instructions leave the flags as they were, which hardware does
      not: no emitted jump or setcc reads flags that did not come from the test
      or cmp right before it. */
  function Exec(i: Instr, abi: Abi, m: Machine): Machine {
    if m.Fault? then Fault
    else
      match i
      case PushRbx => m.(saved := m.ebx)
      case PopRbx => m.(ebx := m.saved)
      case MovEcxSp => if m.rdi == Ctx then m.(ecx := Num(m.sp)) else Fault
      case MovSpEcx => if m.rdi == Ctx && m.ecx.Num? then m.(sp := m.ecx.n) else Fault
      case XorEaxEax => m.(eax := Num(0), zf := true, sf := false, of := false)
      case MovEaxImm(v) => m.(eax := Num(v))
      case Load(r, ix) =>
        var k := SlotOf(m, m.rdi, if ix == ByEcx then m.ecx else m.ebx);
        if k < 0 then Fault else Write(m, r, Num(m.stack[k]))
      case Store(ix, r) =>
        var k := SlotOf(m, m.rdi, if ix == ByEcx then m.ecx else m.ebx);
        if k < 0 || !Read(m, r).Num? then Fault else m.(stack := m.stack[k := Read(m, r).n])
      case IncEcx => if m.ecx.Num? then m.(ecx := Num(Wrap(m.ecx.n as int + 1))) else Fault
      case DecEcx => if m.ecx.Num? then m.(ecx := Num(Wrap(m.ecx.n as int - 1))) else Fault
      case LeaEbx(back) => if m.ecx.Num? then m.(ebx := Num(Wrap(m.ecx.n as int - back as int))) else Fault
      case Alu(op) =>
        if m.edx.Num? && m.eax.Num? then
          m.(edx := Num(Signed(AluWord(op, Unsigned(m.edx.n), Unsigned(m.eax.n)))))
        else Fault
      case NotEax => if m.eax.Num? then m.(eax := Num(Signed(0xFFFF_FFFF - Unsigned(m.eax.n)))) else Fault
      case NegEax =>
        if m.eax.Num? then m.(eax := Num(Signed((0 - Unsigned(m.eax.n) as int) % 0x1_0000_0000))) else Fault
      case TestEbx => if m.ebx.Num? then m.(zf := m.ebx.n == 0, sf := m.ebx.n < 0, of := false) else Fault
      case Cdq => if m.eax.Num? then m.(edx := Num(if m.eax.n < 0 then -1 else 0)) else Fault
      case IdivEbx => Idiv(m)
      case CmpEdxEax => Cmp(m)
      case Setcc(c) =>
        if m.eax.Num? then
          var u := Unsigned(m.eax.n);
          m.(eax := Num(Signed(u - u % 256 + if Flag(m, c) then 1 else 0)))
        else Fault
      case MovzxEaxAl => if m.eax.Num? then m.(eax := Num(Unsigned(m.eax.n) % 256)) else Fault
      case MovEsiEax => m.(esi := m.eax)
      case MovEdiEax => m.(rdi := m.eax)
      case MovR11Rdi => m.(r11 := m.rdi)
      case MovRdiR11 => m.(rdi := m.r11)
      case LoadEaxR11 =>
        var k := SlotOf(m, m.r11, m.ecx);
        if k < 0 then Fault else m.(eax := Num(m.stack[k]))
      case StoreEaxR11 =>
        var k := SlotOf(m, m.r11, m.ecx);
        if k < 0 || !m.eax.Num? then Fault else m.(stack := m.stack[k := m.eax.n])
      case MovRaxHelper(fn) => m.(eax := Helper(fn))
      case CallRax => Call(abi, m)
      case Jz(_) => m
      case Ret => m
  }

  /** idiv divides edx:eax and traps when the quotient does not fit. */
  function Idiv(m: Machine): Machine
    requires m.M?
  {
    if m.edx.Num? && m.eax.Num? && m.ebx.Num? && m.ebx.n != 0 then
      var dividend := m.edx.n as int * 0x1_0000_0000 + Unsigned(m.eax.n) as int;
      var q, r := Quot(dividend, m.ebx.n), Rem(dividend, m.ebx.n);
      if -0x8000_0000 <= q < 0x8000_0000 && -0x8000_0000 <= r < 0x8000_0000 then m.(eax := Num(q), edx := Num(r))
      else Fault
    else Fault
  }

  function Cmp(m: Machine): Machine
    requires m.M?
  {
    if m.edx.Num? && m.eax.Num? then
      var d := m.edx.n as int - m.eax.n as int;
      m.(zf := Wrap(d) == 0, sf := Wrap(d) < 0, of := Wrap(d) != d)
    else Fault
  }

  /** The condition codes 0x94, 0x95, 0x9C, 0x9E, 0x9F and 0x9D. */
  predicate Flag(m: Machine, c: Cond)
    requires m.M?
  {
    match c
    case Eq => m.zf
    case Ne => !m.zf
    case Lt => m.sf != m.of
    case Le => m.zf || m.sf != m.of
    case Gt => !m.zf && m.sf == m.of
    case Ge => m.sf == m.of
  }

  function Kept(w: Word, l: Option<i32>): Word {
    match l
    case None => w
    case Some(v) => Num(v)
  }

  /** The state after a call that leaves l, answers eax and has brought the output to out. */
  function Returning(l: Left, m: Machine, eax: i32, out: seq<i32>): (r: Machine)
    requires m.M?
    ensures r.M?
  {
    m.(eax := Num(eax), edx := Num(l.edx), esi := Num(l.esi), out := out,
       rdi := Kept(m.rdi, l.rdi), ecx := Kept(m.ecx, l.ecx), r11 := Kept(m.r11, l.r11))
  }

  function Call(abi: Abi, m: Machine): Machine
    requires m.M?
  {
    match m.eax
    case Helper(PrintI32) =>
      if m.rdi == Ctx && m.esi.Num? then
        var l := abi.left(PrintI32, m.out, [m.esi.n]);
        Returning(l, m, l.eax, m.out + [m.esi.n])
      else Fault
    case Helper(ShiftI32(kind)) =>
      if m.rdi.Num? && m.esi.Num? then
        Returning(abi.left(ShiftI32(kind), m.out, [m.rdi.n, m.esi.n]), m, HelperShift(kind, m.rdi.n, m.esi.n), m.out)
      else Fault
    case _ => Fault
  }

  /** A run from instruction k: the state at ret, or Fault. Jumps go forward. */
  function Run(code: seq<Instr>, abi: Abi, k: nat, m: Machine): Machine
    decreases |code| - k
  {
    if m.Fault? || k >= |code| then Fault
    else if code[k].Ret? then m
    else if code[k].Jz? && m.zf then
      var t := At(code, Off(code, k + 1) + code[k].rel);
      if t > k then Run(code, abi, t, m) else Fault
    else Run(code, abi, k + 1, Exec(code[k], abi, m))
  }

  /** Straight-line execution of xs[k..]. */
  function Straight(xs: seq<Instr>, abi: Abi, k: nat, m: Machine): Machine
    requires k <= |xs|
    decreases |xs| - k
  {
    if k == |xs| then m else Straight(xs, abi, k + 1, Exec(xs[k], abi, m))
  }

  predicate NoBranch(xs: seq<Instr>) {
    forall k | 0 <= k < |xs| :: !xs[k].Ret? && !xs[k].Jz?
  }

  /** A branch-free stretch of code runs straight through, or faults on the way. */
  lemma {:induction false} RunStraight(code: seq<Instr>, abi: Abi, at: nat, xs: seq<Instr>, k: nat, m: Machine)
    requires NoBranch(xs) && k <= |xs| && at + |xs| <= |code| && code[at..at + |xs|] == xs
    ensures Run(code, abi, at + k, m) == Run(code, abi, at + |xs|, Straight(xs, abi, k, m))
    decreases |xs| - k
  {
    if k < |xs| {
      assert code[at + k] == xs[k];
      if m.Fault? {
        FaultStays(xs, abi, k, m);
      } else {
        RunStraight(code, abi, at, xs, k + 1, Exec(xs[k], abi, m));
      }
    }
  }

  lemma {:induction false} FaultStays(xs: seq<Instr>, abi: Abi, k: nat, m: Machine)
    requires k <= |xs| && m.Fault?
    ensures Straight(xs, abi, k, m).Fault?
    decreases |xs| - k
  {
    if k < |xs| {
      FaultStays(xs, abi, k + 1, Fault);
    }
  }

  lemma {:induction false} StraightSuffix(a: seq<Instr>, b: seq<Instr>, abi: Abi, k: nat, m: Machine)
    requires k <= |b|
    ensures Straight(a + b, abi, |a| + k, m) == Straight(b, abi, k, m)
    decreases |b| - k
  {
    if k < |b| {
      StraightSuffix(a, b, abi, k + 1, Exec(b[k], abi, m));
    }
  }

  /** Straight-line code composes. */
  lemma {:induction false} StraightConcat(a: seq<Instr>, b: seq<Instr>, abi: Abi, k: nat, m: Machine)
    requires k <= |a|
    ensures Straight(a + b, abi, k, m) == Straight(b, abi, 0, Straight(a, abi, k, m))
    decreases |a| - k
  {
    if k == |a| {
      StraightSuffix(a, b, abi, 0, m);
    } else {
      StraightConcat(a, b, abi, k + 1, Exec(a[k], abi, m));
    }
  }

  lemma StraightOne(i: Instr, abi: Abi, m: Machine)
    ensures Straight([i], abi, 0, m) == Exec(i, abi, m)
  {
    assert Straight([i], abi, 1, Exec(i, abi, m)) == Exec(i, abi, m);
  }

  lemma StraightTwo(i: Instr, j: Instr, abi: Abi, m: Machine)
    ensures Straight([i, j], abi, 0, m) == Exec(j, abi, Exec(i, abi, m))
  {
    assert Straight([i, j], abi, 2, Exec(j, abi, Exec(i, abi, m))) == Exec(j, abi, Exec(i, abi, m));
    assert Straight([i, j], abi, 1, Exec(i, abi, m)) == Exec(j, abi, Exec(i, abi, m));
  }
}
