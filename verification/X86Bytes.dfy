/** The bytes that os/kernel/bosl_jit.c emits for each instruction: their number is the
    size that the compiler counts with and that decides where jumps go. */
module X86Bytes {
  import opened Wrappers
  import opened BitOps
  import opened Bytes
  import opened Int32
  import opened BoslVm
  import opened X86
  import BoslJit

  /** Where the helpers lie in memory, as eight bytes each. */
  datatype Addresses = Addresses(at: Callee -> seq<byte>)
  {
    ghost predicate Wide() {
      forall f :: |at(f)| == 8
    }
  }

  function ModRm(r: Reg): byte {
    match r case Eax => 0x84 case Edx => 0x94 case Ebx => 0x9C
  }

  function Sib(ix: Index): byte {
    if ix == ByEcx then 0x8F else 0x9F
  }

  function Imm32(x: int): seq<byte> {
    W32(x % NO_WRAP)
  }

  function Encoding(i: Instr, h: Addresses): seq<byte> {
    match i
    case PushRbx => [0x53]
    case PopRbx => [0x5B]
    case Ret => [0xC3]
    case MovEcxSp => [0x8B, 0x0F]
    case MovSpEcx => [0x89, 0x0F]
    case XorEaxEax => [0x31, 0xC0]
    case MovEaxImm(v) => [0xB8] + Imm32(v)
    case Load(r, ix) => [0x8B, ModRm(r), Sib(ix)] + [4, 0, 0, 0]
    case Store(ix, r) => [0x89, ModRm(r), Sib(ix)] + [4, 0, 0, 0]
    case IncEcx => [0xFF, 0xC1]
    case DecEcx => [0xFF, 0xC9]
    case LeaEbx(back) => [0x8D, 0x59, (0 - back as int) % 256]
    case Alu(op) =>
      (match op
       case Add => [0x01, 0xC2] case Sub => [0x29, 0xC2] case Mul => [0x0F, 0xAF, 0xD0]
       case And => [0x21, 0xC2] case Or => [0x09, 0xC2] case Xor => [0x31, 0xC2])
    case NotEax => [0xF7, 0xD0]
    case NegEax => [0xF7, 0xD8]
    case TestEbx => [0x85, 0xDB]
    case Jz(rel) => [0x0F, 0x84] + Imm32(rel)
    case Cdq => [0x99]
    case IdivEbx => [0xF7, 0xFB]
    case CmpEdxEax => [0x39, 0xC2]
    case Setcc(c) =>
      (match c
       case Eq => [0x0F, 0x94, 0xC0] case Ne => [0x0F, 0x95, 0xC0] case Lt => [0x0F, 0x9C, 0xC0]
       case Le => [0x0F, 0x9E, 0xC0] case Gt => [0x0F, 0x9F, 0xC0] case Ge => [0x0F, 0x9D, 0xC0])
    case MovzxEaxAl => [0x0F, 0xB6, 0xC0]
    case MovEsiEax => [0x89, 0xC6]
    case MovEdiEax => [0x89, 0xC7]
    case MovR11Rdi => [0x49, 0x89, 0xFB]
    case MovRdiR11 => [0x4C, 0x89, 0xDF]
    case LoadEaxR11 => [0x49, 0x8B, 0x84, 0x8B] + [4, 0, 0, 0]
    case StoreEaxR11 => [0x41, 0x89, 0x84, 0x8B] + [4, 0, 0, 0]
    case MovRaxHelper(fn) => [0x48, 0xB8] + h.at(fn)
    case CallRax => [0xFF, 0xD0]
  }

  /** What the compiler counts for an instruction is the number of its bytes. */
  lemma {:induction false} SizeOfEncoding(i: Instr, h: Addresses)
    requires h.Wide()
    ensures |Encoding(i, h)| == Size(i)
  {
    hide W32;
  }

  function Emission(code: seq<Instr>, h: Addresses): seq<byte> {
    if code == [] then [] else Emission(code[..|code| - 1], h) + Encoding(code[|code| - 1], h)
  }

  /** Instruction k begins at the byte where the compiler thinks it does. */
  lemma {:induction false} OffsetsInBytes(code: seq<Instr>, k: nat, h: Addresses)
    requires h.Wide() && k <= |code|
    ensures |Emission(code[..k], h)| == Off(code, k)
  {
    hide Encoding, Size;
    if k > 0 {
      OffsetsInBytes(code, k - 1, h);
      SizeOfEncoding(code[k - 1], h);
      assert code[..k][..k - 1] == code[..k - 1];
    }
  }

  // ---- which programs are compiled ----

  /** The opcodes without an operand that are compiled. */
  predicate Plain(op: byte) {
    0x10 <= op <= 0x1C || 0x20 <= op <= 0x24 || 0x40 <= op <= 0x45 || op == 0xFF
  }

  /** From pc on the bytes are such opcodes, and 0x01 and 0x03 with four bytes each. */
  predicate Accepted(code: seq<byte>, pc: nat)
    decreases |code| - pc
  {
    pc >= |code|
    || ((code[pc] == 0x01 || code[pc] == 0x03) && pc + 5 <= |code| && Accepted(code, pc + 5))
    || (Plain(code[pc]) && Accepted(code, pc + 1))
  }

  lemma {:induction false} OnlyTheseOps(code: seq<byte>, pc: nat)
    ensures BoslJit.OnlyIntOps(code, pc) <==> Accepted(code, pc)
    decreases |code| - pc
  {
    if pc < |code| {
      OnlyTheseOps(code, Fetch(code, pc).1);
    }
  }

  /** What is compiled has at most 16384 bytes and 16 divisions; a program that is translated
      and keeps to both is. */
  lemma {:induction false} CompiledFits(p: Program, h: Addresses)
    requires h.Wide() && BoslJit.Body(p, 0).Some?
    ensures var code := BoslJit.PROLOGUE + BoslJit.Body(p, 0).value;
            BoslJit.Compile(p) ==
            if |Emission(code, h)| <= 16384 && BoslJit.JzCount(code) <= 16 then Some(code) else None
  {
    hide Emission, BoslJit.Body, Off, BoslJit.JzCount;
    var code := BoslJit.PROLOGUE + BoslJit.Body(p, 0).value;
    OffsetsInBytes(code, |code|, h);
    assert code[..|code|] == code;
  }
}
