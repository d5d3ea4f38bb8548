# LardOS algorithms, verified

This project models the self-contained algorithms of the LardOS kernel in Dafny
and proves what they are for. `dafny verify dfyconfig.toml` checks all of it.

What is modelled, file by file:

- **DEFLATE** (`os/kernel/lard_inflate.c`). `Rfc1951` states the format of
  RFC 1951 as a writer sees it: tokens, code length items, headers, blocks, and
  what they stand for. `Huffman` is the theory of canonical codes. `Decoder` is
  the reader as a function on bits, proved to accept exactly what `Rfc1951`
  allows with no more distance codes than it takes, with exactly its meaning;
  `ManyDistances` is a stream with more. `Rfc1951Symbols` says without tables which
  lengths, distances, runs and code words the symbols stand for, `Rfc1951Vectors`
  holds the format to single streams. `HuffTables` and `LardInflate` are the
  imperative code: the bit buffer with its overflow flag, the count and symbol
  arrays, the in-place copies; every method is proved against the functions.
- **BOSL compiler and interpreter** (`bosl_jit.c`, `bosl_vm.c`). `BoslVm` is the
  integer core of the interpreter, `BoslMeaning` what each of its opcodes leaves,
  in exact integers and single bits, `X86` a machine for the instructions the
  compiler emits, with arithmetic of its own, byte sizes, byte offsets, flags and
  an explicit calling convention (`X86Agrees` proves that its arithmetic is the
  interpreter's, `X86Bytes` that its sizes are those of the emitted bytes),
  `BoslJit` the emitter, the compile loop, the patching of jumps and
  what each template does, `BoslNative` what native code returns for every
  program that compiles, compared with the interpreter.
- **Garbage collector** (`gc.c`). `HeapGraph` defines reachability through words
  that happen to look like pointers, interior pointers included, and proves it to
  be the least set closed under addresses; `Gc` is the
  collector over the linked list of blocks.
- **Persistent store** (`fs.c`). `LpstFormat` is the image of one bank,
  `LpstChecks` what an accepted one must contain and a load may change,
  `LpstProtocol` the two-bank protocol as a state machine with interrupted
  saves, `LpstBuild` and `Lpst` the code that builds, writes and loads images.
- **Delete log** (`fs.c`). `DeleteLogSpec` has the tables, the text log, replay
  and compaction on values; `DeleteLogMeaning` which names each operation moves;
  `DeleteLog` the arrays shifted in place and the buffer.
- **Sealed media** (`lardsec.c`). `Ecc` is the error-correcting code,
  `LardSecSpec` the image, `LardSecProof` what comes back after bits have
  flipped, `LardSecFacts` what the key stream depends on, `LardSecChecks` what is
  refused, `LardSec` the code.
- **Smaller cores**: `Bresenham` (`lassist.c`), `Calendar`, `CalendarFacts` and
  `Lunar` (`lardtime.c`), `LarSpec`, `LarFacts`, `LarChecks` and `Lar` (`lar.c`),
  `KmoSpec`, `KmoProof`, `KmoFacts` and `Kmo` (`kmo.c`). `BitOps`, `Int32`,
  `Bytes`, `CStrings` and `Wrappers` hold machine arithmetic, bytes in memory and
  strings in buffers; `Int32Facts`, `BytesFacts` and `WordMath` say what these
  operations are in plain integers.

## Where the code does not do what one might expect

Each of these is a lemma; where a promise fails, the lemma says exactly when.

- A division by zero returns 14 exactly when nine bytes of the buffer are left
  for the error code, which is emitted after the last check of the buffer. With
  less the program is still accepted, and its jump leads out of the code
  (`BoslNative.JitMeetsInterpreter`; `BoslNative.DivideNearTheEnd` is a family of
  programs with 0, 1, 2, ... drops behind the division: fine up to 8150 drops, out
  of the code from 8151 to 8154, refused from 8155 on).
- Native code does not check its stack. It returns 0 where the interpreter fails
  with 13 exactly if that failure is a drop on the empty stack with nothing but
  further drops between it and a halt (`BoslNative.ReturnsZero`). A division whose
  only operand is a zero goes the way of a division by zero, running past the end
  of the code runs into the error code or out of what there is of it, and every
  other underflow or overflow leaves the stack array (`BoslNative.NativeMeans`
  says which, for every program).
- The native code relies on a print to leave `rdi` and `ecx` alone and on a shift to
  leave `ecx` and `r11` alone, which the calling convention does not promise.
  `BoslNative.NativeMeans` is stated for helpers that leave anything in any of the
  three. Where every print overwrites `rdi` and every shift `r11`, a program that
  halts returns 0 exactly if no print or shift stands before its first halt
  (`BoslNative.HelpersMustKeepRegisters`); code that calls nothing does not depend
  on the convention (`BoslNative.CallFree`). On x86 a shift by a variable count
  takes the count in `ecx`; with helpers that leave it there, a shift by b ends
  with b + 1 values on the stack (`BoslNative.ShiftCountInEcx`).
- A program image's entry address is only compared with the size of the code: the
  native code is the one for entry 0 (`BoslNative.EntryIsIgnored`; with entry 0
  the other theorems compare it with the interpreter's own run, with another
  entry the two can differ, as `BoslNative.EntrySevenPrints` shows).
- The result of the load at start-up is thrown away. If it could not read the
  disk, the kernel starts over with generation 0 and no bank: the next save goes
  to bank 0 with generation 1, is reported complete, and the following restart
  brings back an older bank 1 (`LpstProtocol.BlindRestartLosesSave`); if that save
  is interrupted, it can destroy the only bank there was
  (`LpstProtocol.BlindCrashLosesAll`). `LpstProtocol.SaveThenBoot` states what a
  restart finds after a completed save in every state, and
  `LpstProtocol.CrashIsSafe` what it finds after an interrupted one.
- When the generation counter wraps, the restart picks the old bank: with every
  restart able to read bank 1, this is the only way to lose a completed save of a
  table that is not too large (`LpstProtocol.SaveAfterAnyRun`).
- A save with more than 32 table entries writes a bank that no load accepts, and
  two such saves leave nothing to load (`LpstFormat.ValidatesIffSmall`,
  `LpstProtocol.TwoLargeSavesLoseAll`); the file table has 54 entries.
- A load restores the saved table exactly when each position has the saved
  capacity and the saved name, or is an empty slot that no later file of the
  saved name keeps from being renamed (`LpstFormat.Restores`). A file that was
  renamed and did not start out as an empty slot does not get its new name back
  (`LpstFormat.RenamedComesBack`).
- Deleting a hidden name while 32 names are deleted fails, but un-hides the name
  without a record, so the log no longer replays to the tables
  (`DeleteLogSpec.DeleteWithFullTableParts`). A compaction that cuts off more than
  the last newline parts them too: with 32 names of 31 characters hidden and 18
  deleted, one more deletion is reported as done and lost
  (`DeleteLogSpec.LongLogParts`). `DeleteLogSpec.StepKeeps` and `RunKeeps` prove
  that these are the only two ways in which replay stops rebuilding the tables.
- A dynamic header may have up to 32 distance codes (RFC 1951, section 3.2.7); the
  decoder refuses more than 30. A stream with more is refused at that block, or
  where the room ends before it (`Decoder.OnStream`, `Decoder.InflateReads`);
  `ManyDistances.WideStreamRefused` is one that stands for a byte.
- A stream that ends too early is answered with DATA_ERR, except when it ends inside
  a copy that would not fit, with zeros for the bits that are missing: then with
  BUF_ERR (`LardInflate.LardInflateUncompress`).
- The lunar calendar steps back from its first month, the first of year 0, to the
  last of the same year. Consecutive days have consecutive lunar dates exactly
  unless the next day is 739240 days before the anchor, which is day 788 of the
  civil count, or a multiple of 383 days before that (`Lunar.NextDay`).
- Sizes near 2^32 make sums wrap and pass checks they should fail: an allocation of
  at least 2^32 - 16 bytes enters a block that is none (`Gc.Collector.GcAlloc`), a
  payload whose size is within 511 of 2^32 is sealed, and within 512 opened, past
  the end of its buffers (`LardSec.Security.Seal`, `LardSec.Security.Open`), and
  `lar_create_single` writes past its buffer when header and payload together
  wrap (`Lar.LarCreate`). The contracts state these cases exactly.
- 31 December of a leap year has the same ticks as the following 1 January, and
  the year before a leap year has a surplus day shown as 32 December
  (`Calendar.RoundTrip`, `Calendar.LastDayMoves`, `Calendar.TicksRoundTrip`).
- Days before a year are counted with the leap day at the beginning of its year.
  So the weekday is right exactly in leap years and a day behind in all others
  (`CalendarFacts.WeekdayBehind`), and Unix time, from which `lardtime_now` starts,
  is converted to the right date exactly in years that are no leap years and comes
  out a day early in those that are (`CalendarFacts.UnixDates`).
- `gc_init` runs with the first allocation and forgets roots that were
  registered before it (`Gc.Collector.GcInit`).

## Model

| member | source | states |
|---|---|---|
| Rfc1951.RepeatRefersBack | os/kernel/lard_inflate.c:198-201 | RFC 1951 section 3.2.3: every copied byte equals the byte `dist` places before it, also where source and copy overlap |
| Huffman.PrefixFree | os/kernel/lard_inflate.c:105-117 | no code word of a full canonical code begins another |
| Huffman.SomeCodeComesNext | os/kernel/lard_inflate.c:105-117 | whatever the next 15 bits are, some code word starts there, so a symbol is always found |
| Huffman.NextOfCode | os/kernel/lard_inflate.c:105-117 | the code word of s followed by anything is read as s and exactly its bits are consumed |
| Huffman.CompleteIffKraft | os/kernel/lard_inflate.c:87-95 | the level-by-level walk accepts exactly the lengths within 15 bits whose Kraft sum is one |
| Huffman.EffectiveComplete | os/kernel/lard_inflate.c:94-101 | the table with its patched one-symbol case is always a full code |
| Huffman.EffectiveKeepsCodes | os/kernel/lard_inflate.c:98-101 | the patch changes neither the alphabet nor the code word of a symbol that is used |
| Rfc1951Symbols.LengthBits | os/kernel/lard_inflate.c:123-126 | the extra bits of every length symbol: none below 265 and for 285, (s - 261) / 4 for the rest |
| Rfc1951Symbols.LengthOfSymbol | os/kernel/lard_inflate.c:127-130 | the length of every copy in closed form, without the table |
| Rfc1951Symbols.LengthsGrow | os/kernel/lard_inflate.c:123-130 | a later length symbol below 285 stands for longer copies, whatever the extra bits |
| Rfc1951Symbols.EveryLength | os/kernel/lard_inflate.c:123-130 | every length from 3 to 258 is that of exactly one symbol below 285 with exactly one value of its extra bits; 285 is 258 |
| Rfc1951Symbols.DistanceBits | os/kernel/lard_inflate.c:131-134 | the extra bits of every distance symbol: s / 2 - 1 from 2 on, none below |
| Rfc1951Symbols.DistanceOfSymbol | os/kernel/lard_inflate.c:135-138 | the distance of every copy in closed form |
| Rfc1951Symbols.DistancesGrow | os/kernel/lard_inflate.c:131-138 | a later distance symbol stands for greater distances |
| Rfc1951Symbols.EveryDistance | os/kernel/lard_inflate.c:131-138 | every distance from 1 to 32768 is that of exactly one symbol with exactly one value of its extra bits |
| Rfc1951Symbols.ClLensSent | os/kernel/lard_inflate.c:119-121 | code length code lengths are sent for 16, 17, 18, 0 and then alternately from 8 up and from 7 down; those not sent are 0 |
| Rfc1951Symbols.RepeatRun | os/kernel/lard_inflate.c:157-162 | 3 to 6 repetitions of the last length are symbol 16 and two bits |
| Rfc1951Symbols.ZeroRun | os/kernel/lard_inflate.c:163-170 | 3 to 10 zeros are symbol 17 and three bits, 11 to 138 symbol 18 and seven |
| Rfc1951Symbols.OtherItems | os/kernel/lard_inflate.c:153-172 | other items stand for themselves, no run is longer or shorter, and only a repetition of nothing is refused |
| Rfc1951Symbols.CanonicalOrder | os/kernel/lard_inflate.c:94-97 | shorter code words come first, and among words of one length those of smaller symbols |
| Rfc1951Symbols.FixedWord | os/kernel/lard_inflate.c:55-71 | the fixed code word of every literal and length symbol, as the table of RFC 1951 section 3.2.6 has it |
| Rfc1951Symbols.FixedDistanceWord | os/kernel/lard_inflate.c:55-71 | the fixed code words of the distances, 00000 to 11111 |
| HuffTables.BuildTree | os/kernel/lard_inflate.c:73-103 | succeeds exactly on lengths that describe a code; then the tables decode that code and max_sym is its last symbol |
| HuffTables.CountLengths | os/kernel/lard_inflate.c:77-86 | counts the codes of each length and finds the last used symbol, or finds a length over 15 |
| HuffTables.CheckLevels | os/kernel/lard_inflate.c:87-93 | fails only if the Kraft sum exceeds one; otherwise leaves the unused code space and the first slot of every length |
| HuffTables.SortSymbols | os/kernel/lard_inflate.c:96-97 | every used symbol ends up in the slot its canonical code word selects |
| HuffTables.BuildFixedTrees | os/kernel/lard_inflate.c:55-71 | the tables written out by hand are those of the fixed code lengths of RFC 1951 section 3.2.6 |
| LardInflate.FetchKeepsBits | os/kernel/lard_inflate.c:31-38 | fetching a byte into the bit buffer leaves the unread stream as it was, least significant bit first |
| LardInflate.StoredStart | os/kernel/lard_inflate.c:206-219 | dropping the buffered bits lands on the byte boundary that a stored block starts at |
| LardInflate.InflateContext.GetBits | os/kernel/lard_inflate.c:31-48 | yields the next n bits as a number and consumes them, or sets overflow and consumes nothing; between reads at most 7 bits are buffered |
| LardInflate.InflateContext.GetBitsBase | os/kernel/lard_inflate.c:50-53 | base plus the next n bits, also for n = 0 |
| LardInflate.InflateContext.DecodeSym | os/kernel/lard_inflate.c:105-117 | always answers a symbol of the code, never -1: the one whose code word comes next, with zeros for the bits that are missing |
| LardInflate.InflateContext.DecodeSymbol | os/kernel/lard_inflate.c:105-117 | the answer together with the check against max_sym accepts exactly the symbols of the alphabet, also when bits are missing |
| LardInflate.InflateContext.ReadLengthDistance | os/kernel/lard_inflate.c:190-195 | length and distance are those of the copy token that comes next, or the stream is refused; when the bits end, what is missing reads as zero |
| LardInflate.InflateContext.CopyMatch | os/kernel/lard_inflate.c:198-201 | the byte-by-byte copy appends the repetition of RFC 1951 section 3.2.3 and touches nothing past the buffer |
| LardInflate.InflateContext.InflateCopy | os/kernel/lard_inflate.c:190-201 | a copy is carried out, or refused for reaching back too far or for lack of room, as its meaning says, and exactly which of these when its bits end |
| LardInflate.InflateContext.InflateBlockData | os/kernel/lard_inflate.c:179-204 | decodes a compressed block to what its tokens stand for, ends on every input |
| LardInflate.InflateContext.CopyStored | os/kernel/lard_inflate.c:215 | appends exactly the next ln source bytes |
| LardInflate.InflateContext.InflateStored | os/kernel/lard_inflate.c:206-219 | a stored block yields its bytes and continues at the byte behind it |
| LardInflate.InflateContext.ReadClLens | os/kernel/lard_inflate.c:148-150 | the code length code lengths, in their permuted order |
| LardInflate.InflateContext.ReadRun | os/kernel/lard_inflate.c:154-171 | one item of the code length alphabet expands as RFC 1951 section 3.2.7 says |
| LardInflate.InflateContext.ReadLengths | os/kernel/lard_inflate.c:153-172 | all code lengths of both alphabets, runs crossing from one to the other |
| LardInflate.InflateContext.DecodeDynTrees | os/kernel/lard_inflate.c:140-177 | succeeds exactly on valid dynamic headers and then both tables decode the described codes |
| LardInflate.InflateOneBlock | os/kernel/lard_inflate.c:238-251 | the body of one block, by its type |
| LardInflate.LardInflateUncompress | os/kernel/lard_inflate.c:221-258 | OK exactly when the source begins with a stream of RFC 1951 with at most 30 distance codes in each header whose meaning fits; then the output is that meaning; every other result code exactly, also for streams that end too early; bytes past destLen stay as they were |
| Decoder.FixedAcceptable | os/kernel/lard_inflate.c:55-71 | the fixed codes are full |
| Decoder.TokensOf | os/kernel/lard_inflate.c:179-204 | decoding what a writer wrote for tokens gives their meaning, or runs out of room |
| Decoder.TokensWrite | os/kernel/lard_inflate.c:179-204 | what was decoded is what a writer writes for some tokens with that meaning |
| Decoder.ReadHeaderOf | os/kernel/lard_inflate.c:140-177 | every valid dynamic header is read as the codes it describes, or refused, exactly if it has more distance codes than the decoder takes |
| Decoder.ReadHeaderWrites | os/kernel/lard_inflate.c:140-177 | every header that is accepted is one a writer may write |
| Decoder.StoredOf | os/kernel/lard_inflate.c:206-219 | a stored block with any padding gives back its data |
| Decoder.InflateReads | os/kernel/lard_inflate.c:221-258 | every stream of blocks decodes to its meaning, or is refused at the first block with too many distance codes |
| Decoder.InflateOnlyReads | os/kernel/lard_inflate.c:221-258 | everything that is accepted is a stream of blocks with that meaning and few enough distance codes |
| Decoder.AcceptsExactlyRfc1951 | os/kernel/lard_inflate.c:221-258 | both directions together: what is accepted are the streams of RFC 1951 with no more distance codes than the decoder takes, 30 here, with their meaning; any other stream of RFC 1951 is refused |
| Decoder.OnStream | os/kernel/lard_inflate.c:146 | the answer to any stream of RFC 1951: its meaning, no room, or refusal at a block with too many distance codes |
| ManyDistances.WideHeaderOk | os/kernel/lard_inflate.c:146 | a header with 31 distance codes that RFC 1951 allows |
| ManyDistances.WideStreamRefused | os/kernel/lard_inflate.c:140-177 | thirteen given bytes, a dynamic block with that header, stand for a zero byte and are refused; a decoder that took 32 distance codes would decode them |
| Decoder.MeaningIsUnique | os/kernel/lard_inflate.c:221-258 | no input stands for two outputs |
| Decoder.StoredRoundTrip | os/kernel/lard_inflate.c:206-219 | any byte string, split into stored blocks in any way, decodes to itself |
| Rfc1951Vectors.LetterStandsFor | os/kernel/lard_inflate.c:221-258 | the bytes 4B 04 00 stand for the letter a and decode to it |
| Rfc1951Vectors.LettersStandFor | os/kernel/lard_inflate.c:179-204 | 4B 44 01 00, a literal and a copy with symbol 266, stand for fourteen letters and decode to them |
| Rfc1951Vectors.StoredStandsFor | os/kernel/lard_inflate.c:206-219 | 01 01 00 FE FF 61, a stored block, stands for the letter and decodes to it |
| Rfc1951Vectors.StoredInBytes | os/kernel/lard_inflate.c:206-219 | a stream of one stored block in bytes: two lengths that must be complements and as many bytes are given back, anything else is refused |
| Rfc1951Vectors.ReservedRefused | os/kernel/lard_inflate.c:238-251 | block type 3 is refused |
| Rfc1951Vectors.TooFarRefused | os/kernel/lard_inflate.c:196-197 | a copy from before the start of the output is refused |
| ManyDistances.ThirtyTaken | os/kernel/lard_inflate.c:146 | headers with up to 30 distance codes are taken, and no others |
| BoslVm.BoslVmRun | os/kernel/bosl_vm.c:425-1070 | for the integer opcodes, the dispatch loop over the stack array runs as the stepwise semantics, with its step budget and stack checks |
| BoslVm.Dispatch | os/kernel/bosl_vm.c:437-1070 | one instruction with an integer opcode, in place on the stack array |
| BoslMeaning.AddByte | os/kernel/bosl_vm.c:575 | opcode 0x10: the result is the sum up to a multiple of 2^32, and the sum itself when it fits |
| BoslMeaning.SubtractByte | os/kernel/bosl_vm.c:576 | opcode 0x11: adding the top back to the result gives the value below it up to a multiple of 2^32; the result is a - b when that fits |
| BoslMeaning.MultiplyByte | os/kernel/bosl_vm.c:577 | opcode 0x12: the result is the product up to a multiple of 2^32, and the product itself when it fits |
| BoslMeaning.DivideBytes | os/kernel/bosl_vm.c:578-585 | opcodes 0x13 and 0x14: quotient times divisor plus remainder is the dividend, the remainder is smaller than the divisor and has the dividend's sign; a zero divisor stops the run |
| BoslMeaning.NegateByte | os/kernel/bosl_vm.c:592-610 | opcode 0x15: result and operand add up to a multiple of 2^32 |
| BoslMeaning.BitwiseBytes | os/kernel/bosl_vm.c:611-643 | opcodes 0x16 to 0x18: each bit of the result is the and, or or exclusive or of the operands' bits in that place |
| BoslMeaning.NotByte | os/kernel/bosl_vm.c:644-662 | opcode 0x19: every bit is inverted |
| BoslMeaning.ShiftBytes | os/kernel/bosl_vm.c:663-696 | opcodes 0x1A to 0x1C: bit k of the result is bit k - c or k + c for c the count modulo 32, or the bit that comes in: 0, the sign, 0 |
| BoslMeaning.CompareBytes | os/kernel/bosl_vm.c:733-762 | opcodes 0x40 to 0x45: 1 or 0 by the sign of the exact difference |
| BoslMeaning.PushByte | os/kernel/bosl_vm.c:438-449 | opcode 0x01 pushes the signed little-endian number behind it; fails when it is cut off or 256 values are on the stack |
| BoslMeaning.PushConstantByte | os/kernel/bosl_vm.c:471-490 | opcode 0x03 pushes the constant of that number if it is a 32-bit integer |
| BoslMeaning.StackBytes | os/kernel/bosl_vm.c:523-539 | opcodes 0x20 to 0x24 print, double, drop, swap and copy values; 0xFF ends the run |
| BoslMeaning.FailingBytes | os/kernel/bosl_vm.c:425-1070 | any other byte, and too few operands, stop the run |
| BoslMeaning.RunEnds | os/kernel/bosl_vm.c:425-436 | a run ends with 11 when the budget is used up, with 12 behind the code, with 0 at a halt and with 13 at an error, and otherwise goes on behind the instruction |
| BoslMeaning.DifferencePrinted | os/kernel/bosl_vm.c:575-577 | the program push 5, push 3, subtract, print, halt prints 2 and returns 0 |
| X86.RunStraight | os/kernel/bosl_jit.c:218-427 | a branch-free stretch of placed code runs through |
| X86.StraightConcat | os/kernel/bosl_jit.c:218-427 | emitted stretches compose |
| X86.AtOff | os/kernel/bosl_jit.c:707-715 | a byte offset finds the instruction it was taken from |
| X86Bytes.SizeOfEncoding | os/kernel/bosl_jit.c:178-427 | the bytes emitted for each instruction are as many as its size in the model |
| X86Bytes.OffsetsInBytes | os/kernel/bosl_jit.c:707-715 | instruction k begins at the byte that the jumps are computed from |
| X86Agrees.AluAgrees | os/kernel/bosl_jit.c:250-314 | add, sub, imul, and, or and xor on register contents, defined modulo 2^32 and bit by bit, give the interpreter's results |
| X86Agrees.UnaryAgrees | os/kernel/bosl_jit.c:316-323 | so do not and neg |
| X86Agrees.HelperAgrees | os/kernel/bosl_jit.c:115-133 | the shift helpers, defined by multiplying and dividing by a power of two, give the interpreter's shifts |
| BoslJit.BinaryRuns | os/kernel/bosl_jit.c:250-314 | the arithmetic and bitwise templates, run with the processor's own arithmetic, replace the two top values by the interpreter's result |
| BoslJit.CompareRuns | os/kernel/bosl_jit.c:415-428 | cmp and setcc leave 1 or 0 as the interpreter's signed comparison does |
| BoslJit.UnaryRuns | os/kernel/bosl_jit.c:316-323 | not and neg act on the top value |
| BoslJit.CopyRuns | os/kernel/bosl_jit.c:235-248 | dup and over push a copy of the right value |
| BoslJit.SwapRuns | os/kernel/bosl_jit.c:394-404 | swap exchanges the two top values |
| BoslJit.PrintRuns | os/kernel/bosl_jit.c:342-355 | the print call pops and prints the top value; context and stack pointer are what the helper leaves of them |
| BoslJit.ShiftRuns | os/kernel/bosl_jit.c:325-340 | the shift calls compute the interpreter's shifts and store the result where ecx points after the call, if r11 is kept |
| BoslJit.DivideRuns | os/kernel/bosl_jit.c:276-297 | on a divisor that is not zero: quotient or remainder, truncated toward zero |
| BoslJit.DivideByZeroRuns | os/kernel/bosl_jit.c:707-715 | on a zero divisor the patched jump leads to where the error code belongs, with both operands gone from the stack or the only one |
| BoslJit.TemplateRuns | os/kernel/bosl_jit.c:570-697 | every other template carries out its instruction and touches nothing above the new top of the stack |
| BoslJit.Emitter.Emit | os/kernel/bosl_jit.c:145-150 | appends the instruction or, when its bytes do not fit, sets err for good |
| BoslJit.Emitter.Patch32 | os/kernel/bosl_jit.c:166-172 | overwriting the four operand bytes changes that jump and nothing else |
| BoslJit.UsesOnlyIntOps | os/kernel/bosl_jit.c:430-453 | accepts exactly the branch-free integer programs |
| X86Bytes.OnlyTheseOps | os/kernel/bosl_jit.c:430-453 | which bytes such a program consists of |
| X86Bytes.CompiledFits | os/kernel/bosl_jit.c:565-605 | a translated program is compiled exactly if its code has at most 16384 bytes and 16 divisions |
| BoslJit.EmitDivmod | os/kernel/bosl_jit.c:276-297 | emits the division and answers where its jump's operand lies |
| BoslJit.EmitInsn | os/kernel/bosl_jit.c:573-696 | one round of the compile loop, with the table of jumps to patch |
| BoslJit.CompileLoop | os/kernel/bosl_jit.c:565-705 | compiles the whole program, or hands it back when buffer or table are full |
| BoslJit.PatchDivisions | os/kernel/bosl_jit.c:707-715 | places the shared error code and aims every recorded jump at it |
| BoslJit.BoslVmRunJit | os/kernel/bosl_jit.c:455-747 | for a program that has been parsed, decides between native code and interpreter, and what the native code is |
| BoslNative.TemplateFaults | os/kernel/bosl_jit.c:235-428 | every stack check on which the interpreter fails is an access outside the stack in the template, except for drop and for the divisor of a division |
| BoslNative.LostRuns | os/kernel/bosl_jit.c:229-233 | without its context native code gets past drops only and never returns |
| BoslNative.ShortStrays | os/kernel/bosl_jit.c:235-428 | with the stack pointer outside the array every instruction but drop and halt leaves the array |
| BoslNative.CallRuns | os/kernel/bosl_jit.c:325-355 | a print or shift, whatever its helper leaves in rdi, ecx and r11: the stack and stack pointer afterwards, or a lost context |
| BoslNative.EpilogueComplete | os/kernel/bosl_jit.c:205-216 | the error code is complete exactly if nine bytes are free, and otherwise cut after some instruction |
| BoslNative.TailRuns | os/kernel/bosl_jit.c:707-715 | the complete error code returns 14 and stores the stack pointer; what there is of a cut one never returns |
| BoslNative.Simulates | os/kernel/bosl_jit.c:570-697 | from any point of any compiled program on and whatever helpers leave in the registers, the emitted code ends as the meaning of native code says |
| BoslNative.NativeMeans | os/kernel/bosl_jit.c:455-747 | so does the whole native run: result, output, stack, stack pointer and rbx, or straying, for every program that compiles |
| BoslNative.EndsAlike | os/kernel/bosl_jit.c:570-715 | how each way in which the interpreter can end shows in the meaning of native code |
| BoslNative.JitMeetsInterpreter | os/kernel/bosl_jit.c:455-747 | with helpers that keep the registers, from entry 0: halting gives 0, the same output, stack pointer and stack, and the caller's rbx; a division by zero gives 14 after the same output if and only if nine bytes are left for the error code, and otherwise leaves the code; running past the end and INT_MIN / -1 likewise |
| BoslNative.ReturnsZero | os/kernel/bosl_jit.c:455-747 | native code returns 0 if and only if the interpreter halts, or fails on a drop on the empty stack with only drops up to a halt behind it |
| BoslNative.EnoughSteps | os/kernel/bosl_vm.c:425-436 | a budget of more steps than the program has bytes is never used up |
| BoslNative.BudgetOnlyStops | os/kernel/bosl_vm.c:425-436 | a larger budget does not change a run that ended within a smaller one; native code has none |
| BoslNative.CallFree | os/kernel/bosl_jit.c:325-355 | code without a call runs the same under every calling convention |
| BoslNative.HelpersMustKeepRegisters | os/kernel/bosl_jit.c:325-355 | a program without print and shift before its first halt runs the same whatever helpers do; where prints overwrite rdi and shifts r11, one that halts returns 0 if and only if it is of that kind |
| BoslNative.ShiftCountInEcx | os/kernel/bosl_jit.c:107-123 | with helpers that leave the count in ecx, a shift by b returns 0 with b + 1 values on the stack, the right one on top |
| BoslNative.EntryIsIgnored | os/kernel/bosl_jit.c:463-524 | the compiled code is the same for every entry inside the code |
| BoslNative.EntrySevenPrints | os/kernel/bosl_jit.c:463-524 | a program whose entry is its halt prints natively, and only natively |
| BoslNative.DivideNearTheEnd | os/kernel/bosl_jit.c:707-715 | a family of programs that divide by zero, of every length: which return 14, which leave the code, which are refused |
| HeapGraph.ClosedHoldsLive | os/kernel/gc.c:70-82 | a set that holds the roots' blocks and is closed under pointing holds all that is reachable |
| HeapGraph.Explored | os/kernel/gc.c:51-68 | once all words of a block are scanned, everything newly marked is closed |
| HeapGraph.OwnerOfByte | os/kernel/gc.c:40-49 | every byte of a payload, payload + k with k below the size, belongs to its block |
| HeapGraph.OwnerOfNone | os/kernel/gc.c:40-49 | an address has no owner exactly if it lies in no payload |
| HeapGraph.LiveIsLeast | os/kernel/gc.c:51-82 | the live blocks are the least set that holds every block with a root's address in it and every block with a word of a block of the set in it |
| Gc.Collector.FindBlock | os/kernel/gc.c:40-49 | finds the one block with the address among the size bytes behind its header, first byte or interior, or none |
| Gc.Collector.OwnedIsHeapPtr | os/kernel/gc.c:32-38 | the range check before the search loses no pointer into a block |
| Gc.Collector.Mark | os/kernel/gc.c:51-68 | marks only reachable blocks, and all that newly marked blocks point to; ends on cyclic graphs |
| Gc.Collector.MarkPhase | os/kernel/gc.c:70-82 | afterwards exactly the reachable blocks are marked |
| Gc.Collector.Unlink | os/kernel/gc.c:91-97 | takes one block out of the list through the link before it |
| Gc.Collector.SweepPhase | os/kernel/gc.c:84-104 | the list is filtered in order to the marked blocks; the counters describe it |
| Gc.Collector.GcRun | os/kernel/gc.c:151-156 | the list becomes the old list filtered, in order, to exactly the blocks reachable from the roots; the rest is freed; count and bytes are those of the new list; an empty list changes nothing. In addresses: every block that a root, or a word of a block that stays, points into anywhere stays |
| Gc.Collector.SizesFit | os/kernel/gc.c:98-99 | payloads do not overlap, so the 32-bit byte counter cannot wrap |
| Gc.Collector.GcInit | os/kernel/gc.c:106-114 | only the first call does anything; it empties the root table |
| Gc.Collector.GcAlloc | os/kernel/gc.c:116-131 | a new block in front of the list and its payload's address, or 0 and an unchanged list; the heap stays well formed if and only if header and size do not wrap 32 bits |
| Gc.Collector.GcAddRoot | os/kernel/gc.c:133-139 | appends a root unless it is null, known or the table is full |
| Gc.Collector.GcRemoveRoot | os/kernel/gc.c:141-149 | removes exactly that root, the last entry taking its place |
| Gc.SurvivorsPointToSurvivors | os/kernel/gc.c:51-104 | no surviving block points at a freed one |
| Gc.Collector.KeptByAddress | os/kernel/gc.c:51-104 | before a collection: the blocks that will stay hold every block that a root, or one of their words, is an address in |
| Gc.SelectAt | os/kernel/gc.c:84-104 | each block of the old list is in the new list or among the freed ones, at the place that its predecessors of the same kind leave it |
| Bytes.ReadBack | os/kernel/fs.c:2201-2212 | a 32-bit number written little-endian reads back |
| BytesFacts.WordDigits | os/kernel/fs.c:2201-2212 | the four bytes of a number are its base-256 digits, the lowest first |
| BytesFacts.MixOneToOne | os/kernel/fs.c:2214-2222 | one step of the checksum loses nothing: neither of what was summed before nor of the byte |
| BytesFacts.HashSeesOneByte | os/kernel/fs.c:2214-2222 | a byte string with one byte changed has another checksum |
| BytesFacts.HashVectors | os/kernel/fs.c:2214-2222 | the checksums of nothing and of the letter a are the published ones of FNV-1a |
| LpstFormat.EntryFields | os/kernel/fs.c:3170-3187 | size, offset, capacity and checksum of a directory entry read back |
| LpstFormat.EntryNameBack | os/kernel/fs.c:2405-2414 | so does its name |
| LpstFormat.ImageEntry | os/kernel/fs.c:3170-3187 | entry i of an image describes file i and where its contents lie |
| LpstFormat.ImageData | os/kernel/fs.c:3188-3190 | and there its contents are |
| LpstFormat.ValidatesIffSmall | os/kernel/fs.c:2421-2452 | an image the kernel writes is accepted exactly when it has at most 32 entries |
| LpstFormat.PicksSame | os/kernel/fs.c:3100-3114 | with the files before it restored, an entry goes to the file of its name, or to the one at its position |
| LpstFormat.Restores | os/kernel/fs.c:3252-3272 | loading an image restores every file's name and contents byte for byte if and only if every position of the table loaded into can take its file |
| LpstFormat.RenamedComesBack | os/kernel/fs.c:3252-3272 | a renamed file has its new name again after a load if and only if it started out as an empty slot |
| LpstChecks.ValidExactly | os/kernel/fs.c:2421-2452 | a bank is accepted exactly if it begins with LPST, has version 1 or 2, at most 32 entries of 48 bytes inside the length at 12, and the bytes behind its header hash to the number at 16; the fields are those stored |
| LpstChecks.RefusedExactly | os/kernel/fs.c:2421-2452 | which check refuses a bank, by its code |
| LpstChecks.OneByteRefused | os/kernel/fs.c:2446 | a valid bank with one byte behind the header changed is refused for its sum |
| LpstChecks.EntrySafe | os/kernel/fs.c:3252-3272 | an entry changes at most one file, and only to contents that lie inside the image, fit the file, hash to the entry's sum and are for a file of that capacity; a name only if an empty slot takes it |
| LpstChecks.DamagedEntryIgnored | os/kernel/fs.c:3266 | an entry whose contents do not hash to its sum changes nothing |
| LpstChecks.LoadKeepsSizes | os/kernel/fs.c:3252-3272 | loading any bytes whatever makes no file larger than its buffer and changes no capacity |
| LpstChecks.NamesAccepted | os/kernel/fs.c:2393-2403 | a stored name counts if it has 1 to 31 characters from 33 to 127 without slash, backslash, colon and bar |
| LpstChecks.EmptySlots | os/kernel/fs.c:3313-3325 | an empty slot is an empty file whose name begins with rxrslot |
| LpstProtocol.InterruptedSaveKeepsActive | os/kernel/fs.c:3139-3203 | whatever prefix of its sectors a save writes, the active bank is untouched |
| LpstProtocol.LoadPicksValid | os/kernel/fs.c:3205-3280 | a load changes nothing or settles on a bank that validates |
| LpstProtocol.StepKeepsInv | os/kernel/fs.c:3139-3280 | every save, interrupted save, load, read failure, restart and edit keeps the generation in memory that of the active bank, and keeps that bank valid if and only if it is no completed save of too large a table |
| LpstProtocol.RunKeepsInv | os/kernel/fs.c:3139-3280 | so does every run of them: the active bank is valid all the way through if and only if no step saves too large a table |
| LpstProtocol.CrashIsSafe | os/kernel/fs.c:3139-3280 | after a crash inside a save, from any state and with any read failures: the bank not written to is as it was; the restart finds a bank if and only if this one or the torn one can be read and validates, of no lower generation than this one; the torn one only if the bytes behind its header hash to the sum in it, and when they do not, this one whenever it can be read and validates |
| LpstProtocol.SaveThenBoot | os/kernel/fs.c:3139-3280 | what a restart finds after a completed save, from any state and with any read failures: the saved bank if and only if the table is small enough, it can be read twice and the other bank is unreadable or outranked; then all files come back if and only if the table can take them; else the other bank, if valid; else nothing |
| LpstProtocol.SaveAfterAnyRun | os/kernel/fs.c:3139-3280 | after any run whatever, the next completed save is what a restart picks if and only if it outranks the other bank; if no restart on the way failed to read bank 1, if and only if the generation counter does not wrap |
| LpstProtocol.LastSaveLasts | os/kernel/fs.c:3139-3280 | through any number of interrupted saves and of restarts that can read, the last completed save stays the one loaded, as long as no torn bank passes for a newer image |
| LpstProtocol.LastSaveComesBack | os/kernel/fs.c:3139-3280 | a completed save that outranks the other bank, any such run and a restart: the saved files are back if and only if the table can take them |
| LpstProtocol.TornNeverNewer | os/kernel/fs.c:2446 | a torn bank whose bytes do not hash to the sum in its header never passes for a newer image, whatever generation it claims |
| LpstProtocol.GenerationsGoUp | os/kernel/fs.c:3156-3157 | generations go up by one, and 0 never comes |
| LpstProtocol.LargeSaveIsLost | os/kernel/fs.c:2743-2746 | a completed save validates exactly when the table has at most 32 entries |
| LpstProtocol.TwoLargeSavesLoseAll | os/kernel/fs.c:2743-2746 | two saves of a larger table leave nothing to load |
| LpstProtocol.NewestOutranks | os/kernel/fs.c:3155-3157 | a save outranks the bank it leaves alone if and only if the counter does not wrap, or with no bank active that bank has no generation of its own |
| LpstProtocol.RunKeepsSight | os/kernel/fs.c:3205-3280 | as long as every restart can read bank 1, no bank is active only while bank 1 is invalid |
| LpstProtocol.BlindRestartLosesSave | os/kernel/fs.c:2979 | a history from a new disk: two saves, a restart that cannot read, a completed save, a restart that brings back the second save |
| LpstProtocol.BlindCrashLosesAll | os/kernel/fs.c:3155-3157 | a history in which an interrupted save after such a restart destroys the only bank |
| LpstBuild.ImageBuilt | os/kernel/fs.c:3192-3193 | length and checksum, written last, complete the image |
| LpstBuild.BuiltEntry | os/kernel/fs.c:3165-3191 | writing one entry and its contents keeps everything written before |
| LpstBuild.Overflows | os/kernel/fs.c:3170-3173 | one file that does not fit means the table does not fit |
| Lpst.Persistence.StartImage | os/kernel/fs.c:3160-3164 | the zeroed buffer with the fixed part of the header |
| Lpst.Persistence.WriteEntry | os/kernel/fs.c:3174-3187 | one directory entry, field by field |
| Lpst.Persistence.WriteFiles | os/kernel/fs.c:3165-3191 | the whole directory and all contents, or refusal at the first file that does not fit |
| Lpst.Persistence.FinishImage | os/kernel/fs.c:3192-3193 | the buffer holds the image of the file table |
| Lpst.Persistence.WriteSectors | os/kernel/fs.c:3194-3200 | the target bank becomes the image, or the sectors written so far, a torn one and the old rest; the other bank stays |
| Lpst.Persistence.Save | os/kernel/fs.c:3139-3203 | the save of the protocol, with every result code |
| Lpst.Persistence.ReadBank | os/kernel/fs.c:3217-3226 | the buffer holds the bank, unless a sector cannot be read |
| Lpst.Persistence.ValidateStore | os/kernel/fs.c:2421-2452 | the verdict on the buffer, in the order of its checks |
| Lpst.Persistence.EntryNameValid | os/kernel/fs.c:2393-2403 | accepts exactly terminated names of printable characters without separators |
| Lpst.Persistence.NameEquals | os/kernel/fs.c:3089-3098 | compares a stored name with a file's name |
| Lpst.Persistence.FindWritable | os/kernel/fs.c:3100-3114 | the file an entry belongs to |
| Lpst.Persistence.RestoreEntry | os/kernel/fs.c:3252-3272 | one file restored, or skipped on any mismatch |
| Lpst.Persistence.ChooseBank | os/kernel/fs.c:3216-3233 | the valid bank of the highest generation, the later one on a tie |
| Lpst.Persistence.Load | os/kernel/fs.c:3205-3280 | the load of the protocol, with every result code |
| DeleteLogSpec.Index | os/kernel/fs.c:2462-2476 | the first place of a name in a table |
| DeleteLogSpec.ReplayTidy | os/kernel/fs.c:2614-2647 | replaying any text at all gives tables without repeats or overlap, within their limits, of well-formed names |
| DeleteLogSpec.ApplyTidy | os/kernel/fs.c:2514-2567 | so does every single record |
| DeleteLogSpec.ParseAppend | os/kernel/fs.c:2618-2636 | a record is read the same whatever follows the log |
| DeleteLogSpec.ReplayAppend | os/kernel/fs.c:2614-2647 | replay of a log with text appended is replay of the text after replay of the log |
| DeleteLogSpec.ReplayName | os/kernel/fs.c:2583-2598 | a record that was written replays as its operation |
| DeleteLogSpec.InitialReplays | os/kernel/fs.c:505-509 | the heading of the log replays to nothing |
| DeleteLogSpec.CompactReplays | os/kernel/fs.c:2600-2612 | compaction loses nothing |
| DeleteLogSpec.RecordKeeps | os/kernel/fs.c:2583-2598 | recording an operation keeps replay and tables together, by appending always, by compacting if and only if no more than the last newline is cut off |
| DeleteLogSpec.CompactKeeps | os/kernel/fs.c:2600-2612 | compaction does so if and only if it cuts off no more than the last newline |
| DeleteLogSpec.CutReplays | os/kernel/fs.c:2600-2612 | a compacted log that is cut replays to its tables if and only if just its last newline is missing |
| DeleteLogSpec.CutRecord | os/kernel/fs.c:2618-2636 | a record that is cut replays as nothing, or as the deletion of what is left of the name |
| DeleteLogSpec.LinesPrefix | os/kernel/fs.c:2600-2612 | lines of a log cut somewhere are fewer whole lines and a proper prefix of the next |
| DeleteLogSpec.DeleteKeeps | os/kernel/fs.c:2661-2671 | after a delete the log replays to the tables if and only if it neither deletes a hidden name while the table is full nor compacts to a log that loses more than its last newline |
| DeleteLogSpec.StepKeeps | os/kernel/fs.c:2649-2702 | after any operation it does so if and only if it is not of these two kinds |
| DeleteLogSpec.RunKeeps | os/kernel/fs.c:2649-2702 | after every step of any run of hide, unhide, delete, purge, purge-all and reload the log replays to the live tables, if and only if no step is of these two kinds |
| DeleteLogSpec.FewNamesFit | os/kernel/fs.c:2600-2612 | up to 48 names always compact into the log |
| DeleteLogSpec.DeleteWithFullTableParts | os/kernel/fs.c:2550-2560 | a concrete log and table where the delete fails and the two part |
| DeleteLogSpec.LongLogParts | os/kernel/fs.c:2583-2612 | a concrete log and table where a deletion is reported as done and missing from the compacted log |
| DeleteLogMeaning.RemoveIsOthers | os/kernel/fs.c:2526-2548 | taking a name out of a table leaves exactly the other names, in their order |
| DeleteLogMeaning.HideMeans | os/kernel/fs.c:2649-2659 | hiding adds exactly the name to the hidden ones, at the end, and touches no deleted one; every result code by its cause |
| DeleteLogMeaning.DeleteMeans | os/kernel/fs.c:2661-2671 | deleting adds exactly the name to the deleted ones and takes exactly it out of the hidden ones; every result code by its cause |
| DeleteLogMeaning.UnhideMeans | os/kernel/fs.c:2673-2683 | un-hiding takes exactly the name out of the hidden ones and leaves the deleted ones as they were |
| DeleteLogMeaning.PurgeMeans | os/kernel/fs.c:2685-2694 | purging takes exactly the name out of both tables; every other name stays, in its order |
| DeleteLogMeaning.PurgeAllMeans | os/kernel/fs.c:2696-2702 | purging everything leaves no name and answers how many there were |
| DeleteLogMeaning.OthersUntouched | os/kernel/fs.c:2649-2702 | no operation on one name hides, shows, deletes or restores another |
| DeleteLogMeaning.WordsMean | os/kernel/fs.c:2618-2644 | what each of the seven words of the log does to the tables, name by name; any other word does nothing |
| DeleteLogMeaning.LogGrows | os/kernel/fs.c:2583-2598 | a record is appended as a line of word and name, or the log is written anew when fewer than 96 of its 2048 characters are free |
| DeleteLog.DeleteOverlay.ShiftDown | os/kernel/fs.c:2526-2536 | removes one name from a table by shifting the rest down |
| DeleteLog.DeleteOverlay.TrackHide | os/kernel/fs.c:2514-2524 | hides a name, with every result code |
| DeleteLog.DeleteOverlay.TrackShow | os/kernel/fs.c:2526-2536 | un-hides a name |
| DeleteLog.DeleteOverlay.TrackDelete | os/kernel/fs.c:2550-2560 | deletes a name; it stops being hidden even when the table is full |
| DeleteLog.DeleteOverlay.TrackPurge | os/kernel/fs.c:2562-2567 | removes a name from both tables |
| DeleteLog.DeleteOverlay.Append | os/kernel/fs.c:3407-3416 | appends to the buffer, dropping what does not fit |
| DeleteLog.DeleteOverlay.AppendRecord | os/kernel/fs.c:2583-2598 | one record, or compaction when fewer than 96 bytes are left |
| DeleteLog.DeleteOverlay.Rewrite | os/kernel/fs.c:2600-2612 | the compacted log of the live tables, cut at the capacity |
| DeleteLog.DeleteOverlay.Hide | os/kernel/fs.c:2649-2659 | tables, log and result of hiding |
| DeleteLog.DeleteOverlay.Delete | os/kernel/fs.c:2661-2671 | tables, log and result of deleting |
| DeleteLog.DeleteOverlay.Unhide | os/kernel/fs.c:2673-2683 | tables, log and result of un-hiding |
| DeleteLog.DeleteOverlay.Purge | os/kernel/fs.c:2685-2694 | tables, log and result of purging |
| DeleteLog.DeleteOverlay.PurgeAll | os/kernel/fs.c:2696-2702 | empty tables, the heading alone, and how many names there were |
| DeleteLog.DeleteOverlay.ParseRecord | os/kernel/fs.c:2618-2636 | one record of the log, read character by character |
| DeleteLog.DeleteOverlay.ApplyLog | os/kernel/fs.c:2614-2647 | the tables become what the log replays to |
| Ecc.SyndromeFlip | os/kernel/lardsec.c:141-156 | flipping the bit at position k changes the syndrome by k and the parity by one |
| Ecc.FlipInStream | os/kernel/lardsec.c:158-170 | the in-place exclusive or flips exactly that bit of the block |
| Ecc.DifferenceParts | os/kernel/lardsec.c:158-162 | the difference of two records splits into the differences of syndrome and parity |
| Ecc.SingleFlipRepaired | os/kernel/lardsec.c:158-170 | any single flipped bit of a block of up to 512 bytes is repaired exactly |
| Ecc.DoubleFlipReported | os/kernel/lardsec.c:158-170 | any two flipped bits are reported and the block is left alone |
| Ecc.IntactAccepted | os/kernel/lardsec.c:163 | an intact block is accepted as it is |
| Ecc.RecordOfOneBit | os/kernel/lardsec.c:141-156 | the record of a block with one bit set is that bit's position, counted from 1, and bit 16 |
| Ecc.EccBlock | os/kernel/lardsec.c:141-156 | the record is the exclusive or of the set bits' positions, with their parity |
| Ecc.FixInPlace | os/kernel/lardsec.c:158-170 | repair in place, nothing outside the block changed |
| LardSecSpec.CryptTwice | os/kernel/lardsec.c:132-139 | the stream cancels itself |
| LardSecSpec.CryptFlip | os/kernel/lardsec.c:132-139 | a flipped payload bit is the same bit flipped in the plain text |
| LardSecSpec.CryptDamage | os/kernel/lardsec.c:132-139 | so is one flip in each of many blocks |
| LardSecSpec.DamagedBlock | os/kernel/lardsec.c:456-462 | each block sees its own flip only, the short last block included |
| LardSecFacts.MixOneToOne | os/kernel/lardsec.c:56-64 | different words mix to different words, but for 0, which shares its value with one other |
| LardSecFacts.RotlIs | os/kernel/lardsec.c:51-54 | a rotation in plain arithmetic |
| LardSecFacts.StreamDepends | os/kernel/lardsec.c:124-130 | every word of the key stream depends on its key word, on the drive and on the block address |
| LardSecFacts.StreamBytesSpell | os/kernel/lardsec.c:132-139 | the bytes of the stream are those of its words, low byte first |
| LardSecFacts.FillIs | os/kernel/lardsec.c:182-189 | the fill behind the payload is the stream of another address |
| LardSecFacts.StreamOfOne | os/kernel/lardsec.c:124-130 | the first word of the stream of one key is 688990C0 |
| LardSecProof.HeaderReads | os/kernel/lardsec.c:392-405 | every field of the header and every stored record reads back |
| LardSecProof.RepairMends | os/kernel/lardsec.c:455-473 | the repair loop mends block after block and counts the damaged ones |
| LardSecProof.RepairUndoesDamage | os/kernel/lardsec.c:455-473 | with at most one flip in each block everything is put right |
| LardSecProof.RepairReportsDouble | os/kernel/lardsec.c:467-471 | two flips in one block stop the loop with a failure |
| LardSecProof.RecordsTaken | os/kernel/lardsec.c:450-465 | which records the loop uses: the mirror in memory, the stored ones, or none |
| LardSecProof.OpenAfterSeal | os/kernel/lardsec.c:361-481 | what was sealed opens to its plain text, with or without correction |
| LardSecProof.OpenAfterFlips | os/kernel/lardsec.c:417-481 | with at most one flipped payload bit in each block the plain text comes back and the corrections are exactly the damaged blocks |
| LardSecProof.OpenReportsDouble | os/kernel/lardsec.c:417-481 | two flips in one block are reported as error 9, never passed on, with up to one flip in each block before it and any damage behind it |
| LardSecChecks.SealedHeader | os/kernel/lardsec.c:386-405 | every field of a sealed image's header, at its place |
| LardSecChecks.SealedPayload | os/kernel/lardsec.c:132-139 | byte 512 + i of a sealed image is byte i of the text, exclusive or with byte i of the stream |
| LardSecChecks.ForeignRefused | os/kernel/lardsec.c:428-448 | a sealed image opened while locked, with another key, for another place or into less room is refused with 5, 6, 7 or 8, and the buffer stays as it was |
| LardSecChecks.OtherImages | os/kernel/lardsec.c:417-430 | what does not begin with LSEC, or is too short, is left alone |
| LardSecChecks.OpenedMatches | os/kernel/lardsec.c:417-481 | what opens has the key's hash, the place and the length in its header, and the text that comes out has the checksum there |
| LardSecChecks.ChangeIsSeen | os/kernel/lardsec.c:475-478 | without correction one changed byte of payload is refused with 10, unless the hash turns from 0 to 1 or back |
| LardSecChecks.MirrorExactly | os/kernel/lardsec.c:217-224 | the records in memory are used exactly for the drive, address, length, checksum and number of blocks they were kept for |
| LardSecChecks.SealableExactly | os/kernel/lardsec.c:369-378 | up to 16384 bytes that fit behind the header can be sealed |
| LardSec.Security.RamStore | os/kernel/lardsec.c:202-215 | the mirror holds the records of this seal, if it is enabled |
| LardSec.Security.RamMatches | os/kernel/lardsec.c:217-224 | the mirror belongs to this image |
| LardSec.Security.CryptPayload | os/kernel/lardsec.c:132-139 | exclusive or with the key stream, into another buffer |
| LardSec.Security.FillScrub | os/kernel/lardsec.c:182-189 | the fill behind the payload |
| LardSec.Security.BlockRecords | os/kernel/lardsec.c:380-385 | one record for each block |
| LardSec.Security.WriteImage | os/kernel/lardsec.c:386-412 | the buffer holds the sealed image |
| LardSec.Security.Seal | os/kernel/lardsec.c:361-415 | the sealed image, the mirror, the counter and every error; exactly which sizes get past the check because it wraps |
| LardSec.Security.RepairBlocks | os/kernel/lardsec.c:450-474 | the repair loop on the buffer, nothing past the payload changed |
| LardSec.Security.Open | os/kernel/lardsec.c:417-481 | plain text, result, error and all counters; exactly which stored sizes get past the check because it wraps |
| Bresenham.StepsOn | os/kernel/lassist.c:194-196 | one step keeps the distance from the segment within half a pixel and moves one pixel along the longer axis |
| Bresenham.EndsExactly | os/kernel/lassist.c:193 | the end point is met exactly after the longer extent's number of steps, not before |
| Bresenham.NowNear | os/kernel/lassist.c:184-198 | in all eight directions the point is within half a pixel of the segment |
| Bresenham.StandsAt | os/kernel/lassist.c:194-196 | after k steps the other coordinate is k parts of the shorter extent, rounded to the nearest integer, halves away from the start |
| Bresenham.Line | os/kernel/lassist.c:184-198 | ends for all end points and visits max(dx, dy) + 1 points from one end to the other: exactly the nearest pixel for each step along the longer axis, each within half a pixel of the segment and one step further; draws those that are not negative |
| Calendar.YearStep | os/kernel/lardtime.c:289-292 | the span of a year is long when the next year is a leap year |
| Calendar.YearIsUnique | os/kernel/lardtime.c:326-328 | at most one year holds a day |
| Calendar.FindYear | os/kernel/lardtime.c:326-328 | the search finds it |
| Calendar.BreakdownIsUnique | os/kernel/lardtime.c:313-346 | ticks break down in one way only |
| Calendar.ToCivil | os/kernel/lardtime.c:313-346 | finds that breakdown, with day of year and weekday |
| Calendar.CountDaysBefore | os/kernel/lardtime.c:294-299 | days before a month, by the loop |
| Calendar.RoundTrip | os/kernel/lardtime.c:301-346 | a valid date comes back from its ticks exactly unless it is 31 December of a leap year |
| Calendar.LastDayMoves | os/kernel/lardtime.c:289-292 | that date has the ticks of the next 1 January |
| Calendar.TicksRoundTrip | os/kernel/lardtime.c:301-346 | ticks come back from their date exactly unless they fall on the surplus day |
| CalendarFacts.LeapRule | os/kernel/lardtime.c:276-279 | every fourth year is a leap year, but of the centuries only every fourth |
| CalendarFacts.MonthLengths | os/kernel/lardtime.c:281-287 | the months of 28 or 29, 30 and 31 days |
| CalendarFacts.DaysBefore | os/kernel/lardtime.c:289-292 | the closed form is the Gregorian count of days in leap years and one less in all others |
| CalendarFacts.FourCenturies | os/kernel/lardtime.c:289-292 | 400 years have 146097 days, and 1970 begins with day 719527 |
| CalendarFacts.WeekdayBehind | os/kernel/lardtime.c:344 | the weekday is that of the Gregorian calendar exactly in leap years and the day before it in all others |
| CalendarFacts.UnixEpoch | os/kernel/lardtime.c:348-353 | the Gregorian count of seconds begins with 1970 |
| CalendarFacts.UnixDates | os/kernel/lardtime.c:348-353 | Unix time is converted to the ticks of its date exactly in years that are no leap years; in leap years it comes out a day early |
| Lunar.PrevOfNext | os/kernel/lardtime.c:368-404 | stepping on and back returns to the same month |
| Lunar.NextOfPrev | os/kernel/lardtime.c:368-404 | stepping back and on too, exactly unless it is the very first month |
| Lunar.WalkOnDay | os/kernel/lardtime.c:420-423 | forward, the next day has the next lunar date |
| Lunar.WalkBackDay | os/kernel/lardtime.c:424-427 | backward too, across the anchor as well, exactly unless the next day is the first of all |
| Lunar.NextDay | os/kernel/lardtime.c:406-432 | consecutive days have consecutive lunar dates, each within its month, if and only if the next day is not the beginning of the calendar or a number of times 383 days before it |
| Lunar.AnchorStart | os/kernel/lardtime.c:355-366 | the anchor is day 739240 of the calendar, counted through all its months |
| Lunar.CycleDays | os/kernel/lardtime.c:355-366 | 38 years have 13865 days, wherever they begin |
| CalendarFacts.LeapSixthYears | os/kernel/lardtime.c:355-360 | which years have a leap sixth month: seven in every 19 |
| CalendarFacts.LengthsAlternate | os/kernel/lardtime.c:362-366 | months of 29 and 30 days alternate, but for the turn of the year and behind a leap month |
| Lunar.WalkBackTo | os/kernel/lardtime.c:385-427 | a walk that goes back beyond the first day goes on from there |
| Lunar.FirstDays | os/kernel/lardtime.c:390-394 | behind the first day the 383 days of year 0 repeat |
| Lunar.BeginningIsDay788 | os/kernel/lardtime.c:406-420 | the first lunar day is day 788 of the civil count |
| Lunar.Walker.StepOn | os/kernel/lardtime.c:368-383 | the next month, in place |
| Lunar.Walker.StepBack | os/kernel/lardtime.c:385-404 | the month before, in place |
| Lunar.LunarFromCivil | os/kernel/lardtime.c:406-432 | both walks end and give the lunar date, within its month |
| LarSpec.CreatedLists | os/kernel/lar.c:160-190 | a created archive lists, its directory ending exactly where its header says |
| LarSpec.ExtractIsUnpack | os/kernel/lar.c:192-250 | only the member's own name finds it |
| LarSpec.StoredComesBack | os/kernel/lar.c:192-313 | a stored payload comes back exactly |
| LarSpec.SealedComesBack | os/kernel/lar.c:192-313 | with its password a sealed payload comes back exactly |
| LarSpec.OtherPassword | os/kernel/lar.c:214-240 | another password is refused exactly when the checksum tells the difference; none is refused always |
| LarSpec.ListedExtracts | os/kernel/lar.c:160-250 | in any archive that lists, extraction never meets a directory error |
| LarFacts.CrcIsSerial | os/kernel/hash.c:47-54 | the checksum is the bit-serial register with the reflected polynomial of CRC-32 |
| LarFacts.TableEntries | os/kernel/hash.c:7-40 | the table's entries at the powers of two |
| LarFacts.CrcSeesOneByte | os/kernel/hash.c:47-54 | a byte string with one byte changed has another checksum |
| LarFacts.HalfRoundIs | os/kernel/lar.c:83-85 | a half round of the cipher in plain arithmetic |
| LarFacts.DecipherUndoes | os/kernel/lar.c:76-89 | running the rounds backwards undoes them |
| LarFacts.CipherOneToOne | os/kernel/lar.c:76-89 | 32 rounds end with the sum C6EF3720, and different words are enciphered to different words |
| LarFacts.StreamBytesSpell | os/kernel/lar.c:91-102 | eight bytes of the password stream are one enciphered block of the block number, the salt and the key, low bytes first |
| LarFacts.KeyDepends | os/kernel/lar.c:64-74 | changing one character of the password or of the name, or the salt, changes the key |
| LarFacts.SaltDepends | os/kernel/lar.c:128-136 | payloads of a member that differ in one byte have different salts, unless both have the stand-in for zero; no salt is zero |
| LarChecks.CreatedLayout | os/kernel/lar.c:257-313 | every field of a created archive at its place |
| LarChecks.ListsExactly | os/kernel/lar.c:160-190 | an archive lists exactly if it begins with LAR1 and its entries, as many as its header says, are sound and fill the directory |
| LarChecks.EntrySound | os/kernel/lar.c:168-176 | an entry passes exactly if it lies in the directory, has a name and its payload lies in the archive; -4, -5 or -6 otherwise |
| LarChecks.FirstIsTaken | os/kernel/lar.c:192-250 | the first entry of the name is the one that is unpacked |
| LarChecks.NoneIsTaken | os/kernel/lar.c:249 | without one the answer is -11 |
| LarChecks.TakenPayload | os/kernel/lar.c:214-245 | what comes out of an entry, or why nothing does: -9, -10, -12, -13 |
| Lar.XteaEncipher | os/kernel/lar.c:76-89 | 32 rounds on the two words, in place |
| Lar.PassStreamByte | os/kernel/lar.c:91-102 | one byte of the password stream |
| Lar.ValidName | os/kernel/lar.c:104-114 | accepts exactly 1 to 63 printable characters without separators |
| Lar.LarList | os/kernel/lar.c:160-190 | the walk over any bytes, with every error |
| Lar.LarExtract | os/kernel/lar.c:192-250 | the payload in the buffer, or the error |
| Lar.LarCreate | os/kernel/lar.c:257-313 | the archive in the buffer, or the error; exactly which sizes get past the check because the total wraps |
| KmoProof.FeedLine | os/kernel/kmo.c:211-223 | a line of up to 223 characters is handed on whole |
| KmoProof.CoreOf | os/kernel/kmo.c:160-171 | trimming leaves a written line as it is |
| KmoProof.ValueOf | os/kernel/kmo.c:132-143 | the value behind a key |
| KmoProof.BodyReads | os/kernel/kmo.c:462-482 | the text lines of a body read back, the empty last one as nothing |
| KmoProof.RoundTrip | os/kernel/kmo.c:204-234 | reading what was written gives back every field |
| KmoFacts.LineMeans | os/kernel/kmo.c:160-202 | a line does what its first word says, the same for every synonym, with any blanks and equal signs before the value |
| KmoFacts.SwitchWords | os/kernel/kmo.c:39-56 | which values switch raw control on and off, in capitals or not |
| KmoFacts.ParsedModule | os/kernel/kmo.c:204-234 | whatever a file holds, no field is longer than its buffer; an accepted module has a target, a message, a body, a command of allowed characters if any, and raw control if its target asks for it |
| KmoFacts.LineLimits | os/kernel/kmo.c:160-171 | at most 223 characters of a line count, and a written file has at most 1535 |
| Kmo.ValueAfterKey | os/kernel/kmo.c:132-143 | the value behind a key, with any separators skipped |
| Kmo.Trim | os/kernel/kmo.c:160-172 | the part of a line that counts |
| Kmo.KmoModule.ParseLine | os/kernel/kmo.c:160-202 | one line sets the field of the first key that fits |
| Kmo.KmoModule.Parse | os/kernel/kmo.c:204-234 | the module and the result code for any text |
| Kmo.KmoModule.WriteTextLines | os/kernel/kmo.c:462-482 | one output line for each line of text |
| Kmo.KmoModule.Print | os/kernel/kmo.c:484-508 | the text of the file, cut at the local buffer |
| Kmo.KmoModule.WriteKmoFile | os/kernel/kmo.c:484-511 | the file becomes that text, or the call fails with -2 and leaves the file alone, if and only if its buffer is not longer |

## Left out

- Boot, memory maps, drivers, GUI, shell, containers, glyphs, base64 and document rendering: layout and hardware code, or easy members.
- Privileged BOSL opcodes, strings, calls and 64-bit values: the compiler rejects them; the interpreter model covers the integer opcodes the compiler accepts.
- BOSL branches: the compiler refuses programs that have them, so its branch templates are never used.
- Parsing of BOSL images and constant tables: a program is its code, its constants and its entry.
- Decoding of x86 instructions: the machine runs instructions, a datatype, and addresses them by byte offset; `X86Bytes` gives their bytes, but how a processor reads bytes is not modelled.
- BoslVm.BoslVmRun: covers the integer opcodes; every other opcode fails here.
- BoslVm.Dispatch: likewise covers the integer opcodes only.
- BoslJit.BoslVmRunJit: takes a parsed program; the image's header and constants and failed allocations, which hand the program to the interpreter or end with 4, are not modelled.
- BoslNative.NativeMeans: an access outside the stack array, or running out of the code, ends the model's run; the context's other fields around the array, and whatever an earlier program left in the buffer, are not modelled. What a helper leaves in ecx is a 32-bit number.
- BoslNative.JitMeetsInterpreter: is about helpers that keep what the code needs; BoslNative.NativeMeans says what happens with others.
- X86: inc, dec, neg and the arithmetic instructions leave the flags alone, which no emitted code can tell.
- A dynamic header with a single one-bit code for literals or for code lengths is accepted, as the code does; RFC 1951 section 3.2.7 speaks of single codes for distances.
- Signed overflow in the interpreter's arithmetic is undefined in C and wraps here, as the native code does; formatting of printed integers is left to the output.
- The length code 284 with its five extra bits set stands for 258, which RFC 1951 leaves to code 285; code and model accept it.
- Gc.Collector.GcAlloc: kmalloc returns a region inside the heap that no block uses, of the size it was asked for; the contents of payloads are values the program may change at will between calls.
- Lpst.Persistence.Save: file contents are held as byte strings, not as buffers of their own; the sizes of file and buffer are the same thing.
- Lpst.Persistence.Load: the delete log, which a load replays at its end, is a model of its own.
- LpstFormat.Restores: the names of the saved table differ from each other, as the file table's do.
- LpstProtocol.LastSaveLasts: that a half-written bank does not happen to carry a matching checksum and a higher generation is a hypothesis (`LpstProtocol.TornNeverNewer` reduces it to the checksum); the checksum is not a cryptographic one.
- DeleteLogSpec.RunKeeps: names are 1 to 31 characters without white space; resolving path prefixes to names is not part of this model.
- LardSec.Security.Seal: the plain buffer holds the used bytes, and counters do not wrap; where a wrapped check lets too large a size through, the model stops before the first access.
- LardSec.Security.Open: both buffers are as long as the image; it stops in the same case.
- LardSec: key generation, recovery keys, locking and the switches of the correction are plain state; cryptographic strength is not a claim.
- Bresenham.Line: coordinates do not overflow the int type; the drawing call is the list of points.
- Calendar.ToCivil: the year does not exceed 32 bits; times before the epoch are refused by the code.
- Lar.LarCreate: stops where a wrapped total lets too large a payload through; the checksum table is computed from its polynomial rather than listed.
- Kmo.KmoModule.Parse: the list of loaded modules, file lookup and the raw shell route; strings are values cut at the size of their buffers.
- Null pointers, which every function refuses at once.
