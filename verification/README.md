# Verification of the native hooking engine

EasyHook intercepts functions by overwriting the first bytes of their machine code with a jump. This project models the
engine behind that in Dafny, for 64-bit user-mode processes, and proves that it keeps the meaning of the code it moves,
the bookkeeping of the hooks it manages and the state of the threads that run through them. `dafny verify
dfyconfig.toml` checks everything.

The modules form one stack:

- **Decoder.** `Udis86` is the instruction decoder as functions over a cursor and the decoded attributes; the generated
  opcode tables are a parameter with a well-formedness predicate and a rank. `UdisDecoder` is the same decoder as the
  object with updated fields that the source has, proved against the functions. `Udis86Reference` compares it with
  independent readings of Volume 2 of the Intel 64 and IA-32 Software Developer's Manual: `Udis86Layout` says where each
  byte of an instruction goes and when it decodes, `Encodings` what fields, sizes and registers mean. `Udis86Locality`
  says what a decode depends on, and `BranchDecoding` how the encodings decode that the relocator knows by heart.
- **Printer and strings.** `SynIntel` is the Intel-syntax text of an instruction, `SynPrinter` the code that appends it
  to the line buffer, `RtlString` the string routines that take it apart again. `LineLength` shows that the buffer
  suffices.
- **Relocation.** `RipRelocation` and `RipRelocator` move one RIP-relative instruction by way of its text; `EntryPoint`
  and `EntryPointRelocator` measure and move a whole entry point.
- **Meaning.** `Machine` is a small machine that fetches bytes from memory, decodes and executes them; `Bypass` proves
  that running the moved entry point simulates running the original one. `Walk` compares the instructions that are moved
  with those that were measured, `Refusals` says which are refused, and `Miscopied` says exactly which instructions come
  out wrong, with an entry point for each.
- **Hooks.** `HookAllocation` finds a page and lays out the code in it; `AssertedDistance` says exactly when the
  relocation into it runs into an assertion of the source, and `OutOfReach` has a page that is too far away.
  `HookLifecycle` gives install, uninstall and wait as functions on states with an invariant; `HookManager` has them as
  pointer surgery on linked records, proved against those functions, and `HookInstall` puts the whole install together.
  `HookRuns`, `HookRestoration`, `HookStacks`, `RemovalWait` and `HookJump` state what follows over whole runs.
- **Barrier.** `Barrier` and `BarrierUnit` are the thread deadlock barrier and the access control lists, as functions
  and as code over the fixed tables. `ThreadLookup` has the unlocked lookup under arbitrary interleavings.
- **System.** `HookSystem` puts hooks and barrier together: threads go through trampolines while hooks come and go and
  slots are used again, with the intro in two steps, the second read of the hook procedure at the final jump, the
  execution counters that decide when a hook is freed, and the stretch behind their decrement. `HookSafety` is what
  holds in every reachable state, `InstalledHandler` which procedure and callback a thread gets, `HandlerReach` who can
  still execute the handler of an uninstalled hook, `NullJump` and `FaultRuns` who can still jump through its cleared
  procedure, and `PageReuse` when a page is freed under a thread.

`Words`, `CodeMemory`, `Limits` and `LocalHook` hold machine words, buffer writes, the limits of easyhook.h and the hook
record.

## Where code and documentation differ

The model follows the code; these differences are stated as results.

- LhUninstallHook is documented to remove the given hook (DriverShared/LocalHook/uninstall.c:34-37), but its walk
  through the global list never advances `Prev`, so that all newer hooks drop out of the list with it:
  `HookRuns.UninstallKeepsSuffix`, `HookRuns.UninstallDropsNothingIff`.
- LhUninstallAllHooks is documented to remove all hooks (DriverShared/LocalHook/uninstall.c:115-116). It misses the
  hooks dropped before (`HookRuns.UninstallAllIsCompleteIff`), and it reverses the list, so that stacked hooks are
  undone in the wrong order (`HookStacks.StackRestoredIff`, `HookStacks.UninstallAllOnStack`, with the example
  `HookStacks.UninstallAllLeavesJump`).
- A handler is promised never to run again after an uninstall (DriverShared/LocalHook/uninstall.c:35-37). That is so for
  threads outside it (`HandlerReach.HandlerReachableIff`), but a thread that has passed the check in the trampoline may
  jump through the procedure that the uninstall has cleared: `FaultRuns.NullJumpReachableIff`, with the run
  `FaultRuns.NullJumpAfterUninstall`.
- LhWaitForPendingRemovals is documented to release a hook if no thread is executing its handler
  (DriverShared/LocalHook/uninstall.c:165-170); the page also holds the end of the trampoline and the relocated entry
  point, in which a thread is not counted: `PageReuse.PagesKeptIff`, `PageReuse.PageFreedUnderThread`.
- The page of a hook is documented to lie within 31 bits of the entry point, so that jumps reach
  (DriverShared/LocalHook/alloc.c:93-97); below the entry point the rounding of VirtualAlloc can take it farther away:
  `HookAllocation.JumpBackReachesIff`, `OutOfReach.GrantedOutOfReach`. An install that gets such a page does not return
  with an error then, unless its entry point consists of converted branches: the relocation runs into an assertion, and
  FatalAppExit ends the process (`AssertedDistance.GrantedSurvivesIff`, `OutOfReach.GrantedAsserts`).
- An inclusive local list is documented to admit, besides its own threads, those of an inclusive global list
  (EasyHookDll/LocalHook/acl.c:91-94); both lists must admit a thread: `Barrier.InterceptedIff`,
  `Barrier.GlobalListIsNotEnough`.
- LhGetInstructionLength is documented to fail on invalid machine code (DriverShared/LocalHook/reloc.c:41-44); it
  returns a positive length after every decoding error: `EntryPoint.LengthPositive`, `EntryPoint.UndecodableHasLength`.
- The relocator takes branches behind an address-size prefix to have 16-bit displacements
  (DriverShared/LocalHook/reloc.c:401-407), which the decoder does not: `Miscopied.PrefixedBranchTarget`,
  `Miscopied.PrefixedCallMisread`. It loses the prefix of a RIP-relative instruction (`Miscopied.PrefixedRip`) and the
  first of two prefixes (`Walk.WalkAgreement`).

## Model

| member | source | states |
|---|---|---|
| Words.FromToLE | DriverShared/LocalHook/reloc.c:445-451 | Storing a number in n bytes and loading it gives the number back, for every number that fits. |
| Words.ToFromLE | DriverShared/LocalHook/reloc.c:261-270 | Loading n bytes and storing them gives the bytes back, and the loaded number fits n bytes. |
| Words.ReadLong | DriverShared/LocalHook/reloc.c:262-262 | A LONG read through a pointer fits 32 bits signed and has the bit pattern of the four bytes. |
| RtlString.RtlAnsiIndexOf | DriverShared/Rtl/string.c:54-70 | -1 exactly when the character does not occur, otherwise the first place where it does. |
| RtlString.RtlAnsiSubString | DriverShared/Rtl/string.c:72-109 | Succeeds exactly when a character follows the requested range (whose end wraps at 32 bits) and the range is not longer than allowed; then the buffer holds the range and its terminator, except exactly when the range fills the buffer: there the source writes the terminator one past its end. |
| RtlString.RtlAnsiHexToLongLong | DriverShared/Rtl/string.c:111-144 | For every string and length limit: the value of the numeral, saturated at 2^63-1; a foreign character gives 0 unless the value had left the range before it. |
| RtlString.ParsedOfHex | DriverShared/Rtl/string.c:111-144 | On a numeral that is hexadecimal throughout the result is min(value, 2^63-1). |
| RtlString.HexText | DriverShared/Disassembler/libudis86/syn.c:187-217 | What "%I64x" prints is hexadecimal, denotes the printed value, and takes at most eight digits for 32-bit values. |
| RtlString.RtlLongLongToUnicodeHex | DriverShared/Rtl/string.c:184-209 | The buffer holds the sixteen nibbles of the word, most significant first, and a terminator; nothing behind it changes. |
| RtlString.RtlAnsiDbgHexToLongLong | DriverShared/Rtl/string.c:146-182 | Accepts exactly the hexadecimal strings between the minimum length and sixteen characters; the value is left-aligned in the word. |
| RtlString.LongLongRoundTrip | DriverShared/Rtl/string.c:146-209 | For every LONGLONG the sixteen printed digits parse back to it. |
| Udis86.InpUint | DriverShared/Disassembler/libudis86/decode.c:142-192 | An n-byte read without error moves the cursor by n inside the buffer and yields the little-endian value of exactly those bytes. |
| Udis86.FetchModrm | DriverShared/Disassembler/libudis86/decode.c:311-319 | ModRM is read once: a second request changes neither cursor nor value, however many operands ask. |
| Udis86.DecodeMemDisp | DriverShared/Disassembler/libudis86/decode.c:491-514 | A displacement of 8, 16, 32 or 64 bits consumes exactly its bytes and holds their value; other sizes consume nothing. |
| Udis86.DecodeExt | DriverShared/Disassembler/libudis86/decode.c:1144-1211 | The table walk ends for every well-formed table (each step lowers the rank), never moves the cursor back or past the buffer, never clears an error, keeps mode and segment, and without error ends at an entry of the instruction table. |
| Udis86.UdDecode | DriverShared/Disassembler/libudis86/decode.c:1229-1261 | The byte count is that of the decode whether or not it failed; after an error nothing else survives: attributes and all four operands are cleared. The result always names an entry of the instruction table. |
| Udis86Reference.PrefixRun | DriverShared/Disassembler/libudis86/decode.c:228-289 | decode_prefixes succeeds exactly when the first non-prefix byte is among the first 14 bytes; then it delivers that byte and what section 2.1.1 and 2.2.1 of Volume 2 of the SDM give as the meaning of the run: the last of a group wins, and REX counts only as the byte directly before the opcode. |
| Udis86Reference.Form64IsSdm | DriverShared/Disassembler/libudis86/decode.c:569-610 | With 64-bit addressing, base, index, scale and displacement size are those of section 2.1.5 with REX for every ModRM and SIB. |
| Udis86Reference.Form16IsSdm | DriverShared/Disassembler/libudis86/decode.c:652-668 | With 16-bit addressing, registers and displacement size are those of table 2-1. |
| Udis86Reference.Form32IsSdm | DriverShared/Disassembler/libudis86/decode.c:611-651 | With 32-bit addressing, registers, scale and displacement size agree with the SDM if and only if, for a SIB byte, the prefix bit X is the bit in force and so is B (or B is clear where mod 0 and base 5 mean no base), and otherwise the form is not EIP-relative in 64-bit mode: the decoder extends SIB registers by the REX prefix even where VEX or the opcode says otherwise. |
| Udis86Reference.Form32OutsideLongMode | DriverShared/Disassembler/libudis86/decode.c:611-651 | Outside 64-bit mode every 32-bit form is the one of the SDM. |
| Udis86Reference.MemLength | DriverShared/Disassembler/libudis86/decode.c:540-675 | A memory operand consumes exactly SIB and the displacement bytes of section 2.1.5, for every address size and all REX and VEX bits, if and only if the encoding is not one of mod 0 with r/m 5 under bit B, or SIB base 5 under prefix bit B, with 32-bit addressing in 64-bit mode, where the decoder leaves the displacement unread. |
| Udis86Reference.ModeIsResolved | DriverShared/Disassembler/libudis86/decode.c:965-1027 | The mode that resolve_mode computes from a successful prefix scan always meets what the two theorems about addressing assume. |
| Udis86Layout.OperandRead | DriverShared/Disassembler/libudis86/decode.c:726-885 | For every operand code: decoding fails exactly if the input ends before the operand does or ModRM contradicts the code; otherwise it takes ModRM on first use, SIB and displacement of the SDM, and the immediate bytes of a table by size letter and operand mode (b 1, w 2, d 4, q 8, z 2 or 4, v the operand size, far pointers 4 or 6, absolute offsets the address size, a register in an immediate 1), and each number is the little-endian one found there. |
| Udis86Layout.OperandsRead | DriverShared/Disassembler/libudis86/decode.c:895-917 | The same for all operands of an entry up to the first absent one. |
| Udis86Layout.OpcodeRead | DriverShared/Disassembler/libudis86/decode.c:1062-1211 | The walk through the tables, read by position instead of cursor: which branch each kind of table takes by the fields of ModRM, mode, sizes, SIMD prefix (F2 and F3 before 66) or VEX, and how many bytes the opcode takes; it fails exactly where that reading does. |
| Udis86Layout.DecodesIff | DriverShared/Disassembler/libudis86/decode.c:1229-1261 | An instruction decodes without error if and only if its opcode is among the first 14 bytes, the tables lead to an entry that exists in the mode, the input lasts to the end of the operands, and ModRM contradicts none of them. |
| Udis86Layout.LengthIsSum | DriverShared/Disassembler/libudis86/decode.c:1229-1261 | The length of every error-free decode is the sum of prefixes, opcode bytes, ModRM, SIB and displacement by the SDM, immediates by the table, and the last byte of a 3DNow! instruction; each immediate is the number at its place. |
| Udis86Layout.SegmentKept | DriverShared/Disassembler/libudis86/decode.c:1237-1258 | ud_decode changes nothing of an error-free decode but the segment prefix, which stays if and only if the entry uses one or one of the first two operands is in memory. |
| Encodings.ModrmRoundTrip | DriverShared/Disassembler/libudis86/decode.c:54-57 | ModRM is taken apart into the mod, reg and r/m it was put together from. |
| Encodings.RexRoundTrip | DriverShared/Disassembler/libudis86/decode.c:39-42 | So is a REX prefix, 0100WRXB. |
| Encodings.VexRoundTrip | DriverShared/Disassembler/libudis86/decode.c:290-308 | So are VEX prefixes of two and three bytes: R, X, B and the register inverted, W, L, escape and SIMD prefix. |
| Encodings.PackedSizes | DriverShared/Disassembler/libudis86/decode.c:736-740 | The memory size stands in the high byte of a packed size and the register size in the low byte, and mod decides between them. |
| Encodings.SizesInLongMode | DriverShared/Disassembler/libudis86/decode.c:965-1015 | In 64-bit mode REX.W, if the opcode admits it, comes before 66, and 66 before the default; 67 makes 32-bit addresses; REX bits that the opcode does not admit are off. |
| Encodings.SizesOutsideLongMode | DriverShared/Disassembler/libudis86/decode.c:1016-1024 | Outside 64-bit mode the prefixes select the other size. |
| Encodings.RegisterIsNamed | DriverShared/Disassembler/libudis86/decode.c:401-462 | For every class, size and number decode_reg picks the register that the tables of the SDM name, with the legacy high bytes exactly without REX. |
| Encodings.OperandRegister | DriverShared/Disassembler/libudis86/decode.c:726-885 | A register operand is the register whose number is in reg with R, r/m with B, the opcode with B, or the inverted VEX field, as its code says. |
| Encodings.RepeatText | DriverShared/Disassembler/libudis86/syn-intel.c:152-162 | F3 is printed as rep in front of a string instruction and as repe otherwise, F2 as repne. |
| Encodings.SubRsp | DriverShared/Disassembler/libudis86/itab.c:4685-4685 | For the entry of 83 /5, sub rsp, ib (48 83 EC ib) takes four bytes: rsp and the immediate ib. |
| Encodings.SubRspLength | DriverShared/LocalHook/reloc.c:37-77 | So LhGetInstructionLength reports four for this prologue instruction. |
| Udis86Locality.DecodePlaced | DriverShared/Disassembler/libudis86/decode.c:1229-1261 | An error-free decode reads at least one byte; every displacement lies behind the first byte and inside the instruction and equals the little-endian bytes found there; a RIP-based operand has 32 displacement bits and no index. |
| Udis86Locality.DecodeLocality | DriverShared/Disassembler/libudis86/decode.c:1030-1261 | Two buffers that agree on the n bytes of an error-free decode of length n, except where the decode found displacements, decode to the same length, attributes and operands up to displacement values. |
| Udis86Locality.DecodeDependsOnItsBytes | DriverShared/Disassembler/libudis86/decode.c:1030-1261 | In 64-bit mode buffers with the same first n bytes have identical error-free decodes of length n, operand for operand. |
| UdisDecoder.Ud.constructor | DriverShared/Disassembler/libudis86/udis86.c:46-57 | A fresh object is at the start of its buffer with nothing decoded. |
| UdisDecoder.Ud.InpNext | DriverShared/Disassembler/libudis86/decode.c:104-126 | The next byte and the cursor behind it, or the end and error flags at the end of the input; the buffer index equals the number of bytes read throughout. |
| UdisDecoder.Ud.InpUint64 | DriverShared/Disassembler/libudis86/decode.c:172-192 | Reading through two 32-bit halves is the little-endian read of eight bytes. |
| UdisDecoder.Ud.DecodePrefixes | DriverShared/Disassembler/libudis86/decode.c:228-289 | The loop over prefix bytes leaves cursor and prefixes as the specification scans them; it returns success exactly without error. |
| UdisDecoder.Ud.Modrm | DriverShared/Disassembler/libudis86/decode.c:311-319 | Reads the byte on first use only and returns it from then on. |
| UdisDecoder.Ud.DecodeReg | DriverShared/Disassembler/libudis86/decode.c:426-462 | The operand becomes the register of the class, or the segment-register error is raised. |
| UdisDecoder.Ud.DecodeMemDisp | DriverShared/Disassembler/libudis86/decode.c:491-514 | Reads and stores the displacement that the specification reads. |
| UdisDecoder.Ud.DecodeImm | DriverShared/Disassembler/libudis86/decode.c:470-483 | Reads an immediate of the resolved size. |
| UdisDecoder.Ud.DecodeA | DriverShared/Disassembler/libudis86/decode.c:378-394 | Reads offset and selector of a far pointer. |
| UdisDecoder.Ud.DecodeMemory | DriverShared/Disassembler/libudis86/decode.c:563-675 | The three branches on the address size, with their nested cases, compute the address form, consume SIB and displacement and fill the operand as specified. |
| UdisDecoder.Ud.DecodeModrmRm | DriverShared/Disassembler/libudis86/decode.c:540-675 | Register or memory operand from ModRM as specified. |
| UdisDecoder.Ud.DecodeOperand | DriverShared/Disassembler/libudis86/decode.c:726-885 | For every operand code the operand, the cursor and the attributes are the specified ones and the other operands are untouched. |
| UdisDecoder.Ud.DecodeOperands | DriverShared/Disassembler/libudis86/decode.c:895-917 | Operands are decoded in order until one is absent. |
| UdisDecoder.Ud.ResolveMode | DriverShared/Disassembler/libudis86/decode.c:965-1027 | Fails exactly after an error or for an instruction that is invalid in 64-bit mode; otherwise sets REX bits, operand size and address size as specified. |
| UdisDecoder.Ud.DecodeInsn | DriverShared/Disassembler/libudis86/decode.c:1030-1040 | One entry of the instruction table is decoded as specified. |
| UdisDecoder.Ud.VexIndex | DriverShared/Disassembler/libudis86/decode.c:1109-1136 | Reads a VEX prefix, or recognises LES and LDS outside 64-bit mode, and finds the index of the table. |
| UdisDecoder.Ud.SsePfxIndex | DriverShared/Disassembler/libudis86/decode.c:1072-1106 | F2 and F3 before 66; a prefix that selects an entry is used up. |
| UdisDecoder.Ud.Decode3dnow | DriverShared/Disassembler/libudis86/decode.c:1054-1069 | The last opcode byte is read behind the operands. |
| UdisDecoder.Ud.DecodeExt | DriverShared/Disassembler/libudis86/decode.c:1144-1211 | The recursive walk through the tables ends and does what the specification does. |
| UdisDecoder.Ud.ClearInsn | DriverShared/Disassembler/libudis86/decode.c:923-946 | Clears error, prefixes, mnemonic and operand types and keeps the cursor. |
| UdisDecoder.Ud.UdDecode | DriverShared/Disassembler/libudis86/decode.c:1229-1261 | Length, attributes and operands are those of the specification; after an error the length survives and everything else is cleared. |
| SynIntel.RegName | DriverShared/Disassembler/libudis86/syn.c:40-90 | No general register of 16 bits or more begins like "rip", segment registers have two letters, and the instruction pointer is "rip": by its order the register table cannot be confused with RIP. |
| SynIntel.SplitText | DriverShared/Disassembler/libudis86/syn-intel.c:126-220 | The text of an instruction has a bracket if and only if it has a memory operand; the first pair of brackets encloses the address of the first memory operand, and the text has no terminator inside. |
| SynIntel.BodySaysRip | DriverShared/Disassembler/libudis86/syn-intel.c:66-89 | Between the brackets stands "rip+" or "rip-" if and only if the base is RIP, there is no segment prefix and the displacement is not zero; behind it stands the hexadecimal magnitude of the signed displacement. |
| SynPrinter.AsmBuffer.AsmPrintf | DriverShared/Disassembler/libudis86/syn.c:117-137 | The buffer shows the old text followed by the new one; if both together are too long for it, the fill mark is at its end and stays there. |
| SynIntel.ImmMeaning | DriverShared/Disassembler/libudis86/syn.c:160-184 | What is printed of an immediate: a sign-extended one, read back at the operand size of the instruction, has the signed value of the immediate and fits that size; any other is printed as it is stored. `SynPrinter.AsmBuffer.PrintImm` prints this number. |
| Machine.PrintedTarget | DriverShared/Disassembler/libudis86/syn.c:95-108 | The printed target of a relative branch is the one that the machine takes, cut to the operand size. |
| SynPrinter.AsmBuffer.PrintMemDisp | DriverShared/Disassembler/libudis86/syn.c:187-217 | Appends nothing for zero, a sign and the magnitude behind a register, and the unsigned value otherwise. |
| SynPrinter.AsmBuffer.OprCast | DriverShared/Disassembler/libudis86/syn-intel.c:37-53 | Appends the size in front of an operand. |
| SynPrinter.AsmBuffer.GenOperand | DriverShared/Disassembler/libudis86/syn-intel.c:59-120 | Appends an operand of any type as specified. |
| SynPrinter.AsmBuffer.TranslateIntel | DriverShared/Disassembler/libudis86/syn-intel.c:126-220 | The buffer holds exactly the specified text of the instruction, or counts as full if that is too long for it. |
| LineLength.TextFitsLine | DriverShared/LocalHook/reloc.c:181-208 | The text of whatever the decoder makes of any bytes fits the line buffer of 100 characters, for every table whose entries are short enough by a bound on mnemonic and operand kinds. |
| RipRelocation.DecodedIsSound | DriverShared/Disassembler/libudis86/decode.c:1229-1261 | What ud_decode leaves in the operands after success or error is sound: operands survive only an error-free decode and lie inside it. |
| RipRelocation.OwnOffsetMatches | DriverShared/LocalHook/reloc.c:261-275 | The decoder's own displacement offset always matches the parsed number, so the search cannot miss it. |
| RipRelocator.FindDisplacement | DriverShared/LocalHook/reloc.c:261-275 | The scan yields an offset only if it is the single one, from offset 1 on, that holds the number; it yields 0 exactly when there is none or a second one. |
| RipRelocator.FoundDecides | DriverShared/LocalHook/reloc.c:261-284 | The found offset is the operand's own and never another one; a second occurrence is refused, and so is a displacement that no longer fits 32 bits. |
| RipRelocation.ParseSigned | DriverShared/LocalHook/reloc.c:229-247 | Cutting out the numeral, parsing it and applying the sign recovers every nonzero 32-bit displacement exactly. |
| RipRelocation.RipDisplacement | DriverShared/LocalHook/reloc.c:212-247 | The text yields a displacement if and only if it shows a RIP-relative operand, and then exactly the shown one. |
| RipRelocator.ReadDisplacement | DriverShared/LocalHook/reloc.c:208-247 | From printed text back to the operand: found if and only if the first memory operand is RIP-based with a nonzero displacement and no segment prefix, and then the number is its displacement. |
| RipRelocator.LhDisassembleInstruction | DriverShared/LocalHook/reloc.c:110-144 | Length and text are those of the decoded instruction, for any bytes. |
| RipRelocator.LhRelocateRIPRelativeInstruction | DriverShared/LocalHook/reloc.c:146-300 | Ends the process exactly if the distance does not fit 32 bits. Otherwise disassembling, parsing, searching and patching has the effect of a specification that mentions neither text nor search: no change, a patched copy with the adjusted displacement in place, or refusal as ambiguous or out of reach. |
| RipRelocation.PatchedCopyMeansTheSame | DriverShared/LocalHook/reloc.c:277-291 | A patched copy decodes, whatever follows it, to the same length, attributes and operands except the displacement, and its absolute target from the new address equals the original target modulo 2^64. |
| Miscopied.UnrecognisedIff | DriverShared/LocalHook/reloc.c:212-217 | A memory operand goes unrecognised if and only if it is not RIP-based, has a segment prefix or a zero displacement. |
| EntryPoint.LengthPositive | DriverShared/LocalHook/reloc.c:58-63 | Every instruction has a positive length, at least two behind an address-size prefix, error or not, so that LhGetInstructionLength never fails. |
| EntryPoint.UndecodableHasLength | DriverShared/LocalHook/reloc.c:58-63 | A concrete entry point that does not decode, and whose length is fifteen. |
| EntryPoint.BoundariesAgree | DriverShared/LocalHook/reloc.c:97-104 | Of two instruction boundaries the later one is reached from the earlier one. |
| EntryPointRelocator.LhGetInstructionLength | DriverShared/LocalHook/reloc.c:33-64 | The length the decoder reports for the 32 bytes at the address. |
| EntryPointRelocator.LhRoundToNextInstruction | DriverShared/LocalHook/reloc.c:66-108 | The result is the least instruction boundary that is at least the given size away, less than a window beyond it. |
| EntryPoint.NextKeeps | DriverShared/LocalHook/reloc.c:358-512 | Every iteration moves forward, keeps enough room for the rest and leaves the bytes already written alone. |
| EntryPointRelocator.ConvertBranch | DriverShared/LocalHook/reloc.c:443-475 | The twelve bytes of the absolute form are written at the position, and a target inside the entry point is refused. |
| EntryPointRelocator.RelocateInstruction | DriverShared/LocalHook/reloc.c:358-512 | One iteration on the buffer ends the process exactly where the source asserts in vain, and otherwise is one step of the specification: refused branches, converted branches, patched RIP operands and plain copies, with their statuses. |
| EntryPointRelocator.LhRelocateEntryPoint | DriverShared/LocalHook/reloc.c:302-521 | The process ends exactly if the size is 20 or more or an iteration asserts in vain; otherwise the loop over the buffer computes the specified relocation, contents and size, or fails with its status; bytes in front of the target position stay. |
| Walk.WalkAgreement | DriverShared/LocalHook/reloc.c:97-104 | The relocator treats exactly the instruction boundaries that the rounding counted, in order, if and only if no instruction of the entry point begins with two address-size prefixes; then its output is at most six times as long. |
| Miscopied.DoubledMissed | DriverShared/LocalHook/reloc.c:366-376 | A concrete entry point with a doubled prefix that is accepted and of which the relocator treats another instruction than the rounding counted. |
| Walk.BranchesLeaveEntry | DriverShared/LocalHook/reloc.c:455-458 | Over a whole accepted entry point without doubled prefixes, no convertible branch at any instruction boundary leads into the overwritten bytes. |
| Refusals.RefusedIff | DriverShared/LocalHook/reloc.c:395-452 | An iteration ends with STATUS_NOT_SUPPORTED if and only if the opcode, behind at most one 67, is that of a conditional branch (70 to 7F, E3, 0F 80 to 0F 8F), or a call or jump whose target, computed from its bytes, lies in the entry point, or a RIP-relative operand gets out of reach. |
| Refusals.RelocationRefusedIff | DriverShared/LocalHook/reloc.c:366-474 | A whole relocation ends with that status if and only if the loop gets to such an instruction. |
| Refusals.NoConditionalTreated | DriverShared/LocalHook/reloc.c:424-440 | A relocation that succeeds has treated no conditional branch, prefixed or not. |
| Refusals.NoConditionalLeft | DriverShared/LocalHook/reloc.c:424-440 | So no instruction of an accepted entry point without doubled prefixes is one. |
| Refusals.ConditionalEntry | DriverShared/LocalHook/reloc.c:437-438 | An entry point that begins with a conditional branch, such as 74 05 90 90 90, is always refused. |
| Miscopied.CopiedUnchangedIff | DriverShared/LocalHook/reloc.c:482-506 | An iteration emits the bytes of the original instruction unchanged if and only if it is no convertible branch and has no recognised RIP operand, or one that needs no adjustment and no prefix in front; so behind an address-size prefix exactly the unrecognised ones are copied verbatim. |
| Miscopied.CopiedBranchTarget | DriverShared/LocalHook/reloc.c:502-506 | A relative branch that is copied unchanged keeps its target if and only if the copy did not move. |
| Miscopied.LoopMiscopied | DriverShared/LocalHook/reloc.c:502-506 | A concrete entry point with a LOOP instruction that is accepted, copied verbatim, and branches elsewhere from the copy. |
| Miscopied.PrefixedBranchTarget | DriverShared/LocalHook/reloc.c:401-419 | A branch behind an address-size prefix that gets converted keeps the target the decoder gives it if and only if it is the short jump; for call and near jump the 16-bit reading is wrong for every displacement. |
| Miscopied.PrefixedCallMisread | DriverShared/LocalHook/reloc.c:401-413 | A concrete entry point with a prefixed call that is accepted and converted to another target. |
| Miscopied.CopiedRipAddress | DriverShared/LocalHook/reloc.c:502-506 | A RIP-relative operand that is copied unchanged keeps its address if and only if the copy did not move; behind an address-size prefix only the low 32 bits of the distance matter. |
| Miscopied.ZeroDispMiscopied | DriverShared/LocalHook/reloc.c:236-238 | A concrete entry point whose RIP operand with zero displacement is accepted, copied verbatim and addresses something else. |
| Miscopied.PrefixedRip | DriverShared/LocalHook/reloc.c:482-506 | A recognised RIP operand behind an address-size prefix is always emitted one byte shorter than the position moves on, and the byte in between is whatever the buffer held. |
| Miscopied.PrefixedRipBroken | DriverShared/LocalHook/reloc.c:482-506 | A concrete entry point for which this happens: accepted, the prefix lost and a stale byte inside the relocated code. |
| BranchDecoding.NearBranch | DriverShared/LocalHook/reloc.c:401-413 | What the relocator reads off E8 and E9 is what the decoder reads: five bytes with the displacement in the last four. |
| BranchDecoding.ShortBranch | DriverShared/LocalHook/reloc.c:415-419 | EB is two bytes with the displacement in the second. |
| BranchDecoding.PrefixedBranch | DriverShared/Disassembler/libudis86/decode.c:470-483 | An address-size prefix changes neither the opcode nor the size of the displacement of a relative branch. |
| BranchDecoding.MovImm64 | DriverShared/LocalHook/reloc.c:447-453 | The move that the relocator writes decodes as ten bytes without a memory operand. |
| BranchDecoding.IndirectRax | DriverShared/LocalHook/reloc.c:462-475 | The call and the jump through RAX that it writes decode as two bytes with a register operand. |
| Bypass.CopiedStep | DriverShared/LocalHook/reloc.c:502-506 | The same bytes of an instruction that neither branches relatively nor addresses relative to RIP have the same length and effect at any address. |
| Bypass.PatchedStep | DriverShared/LocalHook/reloc.c:280-291 | A patched copy has the same length and effect as the original instruction. |
| Bypass.BranchStep | DriverShared/LocalHook/reloc.c:385-475 | An executed relative branch goes where the absolute form that is emitted for it goes. |
| Bypass.ConvertedRun | DriverShared/LocalHook/reloc.c:443-475 | Running the absolute form calls or jumps to its address, with that address in RAX. |
| Bypass.NearJumpRuns | DriverShared/LocalHook/install.c:282-292 | Running the five-byte jump leaves for exactly its target without changing data. |
| Bypass.SimulatesFrom | DriverShared/LocalHook/reloc.c:358-514 | From every instruction boundary on, the finished copy behaves like the original from there on. |
| Bypass.BypassEquivalence | DriverShared/LocalHook/reloc.c:302-521 | For every accepted entry point of movable instructions, wherever in user mode the copy lies, running the copy and the jump behind it makes the same calls in the same order with the same data and ends at the same branch target or behind the entry point, with equal data; RAX may differ only at converted calls and jumps. |
| HookAllocation.LhAllocateMemoryEx | DriverShared/LocalHook/alloc.c:136-165 | The search ends; it returns the page granted at the smallest number of page steps, above the entry point before below, or nothing exactly if no distance in range grants one. |
| HookAllocation.AboveFirst | DriverShared/LocalHook/alloc.c:120-165 | The search fails only if no page step within 0x7FFFFF00 bytes and the limits of applications offers a page on either side; otherwise it takes the nearest one, and of two at the same distance the one above. |
| HookAllocation.GrantedInReach | DriverShared/LocalHook/alloc.c:136-165 | A granted page begins less than the allocation granularity below an address that was asked for within 0x7FFFFF00 of the entry point and within the application limit of its side. |
| HookAllocation.JumpBackReachesIff | DriverShared/LocalHook/install.c:283-286 | For a granted page the jump back reaches if and only if the page is not too far below; above, and with a granularity of one page, it always does. |
| AssertedDistance.NeverAssertsIff | DriverShared/LocalHook/reloc.c:190-195 | Unless the page lies too far above, the relocation gets by its assertion if and only if nothing is copied, or the distance at the first copied instruction is at least -2^31 even after the lead of the buffer over the code has dropped as it does from there on. |
| AssertedDistance.DropBound | DriverShared/LocalHook/reloc.c:358-512 | That lead drops by at most one for each address-size prefix: no instruction, copied or converted, loses ground. |
| AssertedDistance.FirstDecides | DriverShared/LocalHook/reloc.c:190-195 | Without such a prefix the distance at the first instruction that is not a converted branch alone decides. |
| AssertedDistance.GrantedSurvivesIff | DriverShared/LocalHook/alloc.c:136-165 | For every page that the search can take and every entry point: exactly when the process survives the code generation. |
| HookAllocation.PagesAboveAreNear | DriverShared/LocalHook/alloc.c:136-165 | A page that the search takes above the entry point meets the assertion and lets the jump back reach. |
| OutOfReach.GrantedOutOfReach | DriverShared/LocalHook/alloc.c:93-97 | The documented reach fails: a concrete page that the search takes below, rounded down, from which a relocated jump cannot jump back, with the status NOT_SUPPORTED. |
| OutOfReach.GrantedAsserts | DriverShared/LocalHook/reloc.c:190-195 | On the same page the relocation of a move from memory runs into the assertion, which ends the process. |
| HookAllocation.TailStays | DriverShared/LocalHook/reloc.c:358-514 | The relocation writes nothing beyond its worst case, so the execution counter behind it is safe. |
| HookAllocation.GenerateCode | DriverShared/LocalHook/install.c:235-292 | Ends the process exactly if the relocation does; otherwise the status is that of the relocation, or NOT_SUPPORTED exactly if the jump back does not reach, for any page; on success trampoline, relocated code, jump and the cleared counter are in place without overlap. |
| HookAllocation.LhAllocateHook | DriverShared/LocalHook/install.c:104-341 | Search, rounding and code generation together, for every page that VirtualAlloc can return: whether the process ends, the status exactly, and on success the record and the page: least boundary of at least five bytes, layout, backup of the original eight bytes and native size. |
| HookAllocation.PreparedBypasses | DriverShared/LocalHook/install.c:260-292 | A page that was prepared this way bypasses the hook: running it simulates the original entry point. |
| HookManager.HookManager.LhCriticalInitialize | DriverShared/LocalHook/install.c:41-52 | Nothing is hooked, idents start at 0x10000000, both lists and all slots are empty. |
| HookManager.HookManager.LhIsValidHandle | DriverShared/LocalHook/install.c:58-89 | In every valid state, a handle is valid exactly if it is among the links, that is, its install succeeded and nothing uninstalled the hook since; the hook it names is armed. |
| HookManager.HookManager.ClaimSlot | DriverShared/LocalHook/install.c:476-489 | Claims the first free slot with the ident, or changes nothing when all 1024 are taken. |
| HookManager.HookManager.PatchTarget | DriverShared/LocalHook/install.c:515-522 | Overwrites the target with jump and the original bytes 5 to 7, and remembers exactly these eight bytes. |
| HookManager.HookManager.LinkHook | DriverShared/LocalHook/install.c:527-538 | The record becomes the head of the global list and the handle names it; lists, records and handles stay wired. |
| HookManager.HookManager.InstallAllocated | DriverShared/LocalHook/install.c:457-553 | For an allocated record: out of reach, table full or installed, with state and status of the specification. |
| HookInstall.LhInstallHook | DriverShared/LocalHook/install.c:348-553 | The whole install for any page that the search returns: parameter checks, handle check, search, code generation, jump and registration. The process ends exactly if the relocation does, with no hook changed. Otherwise state and status are exact: refused exactly if there is no page, the relocation fails, the jump back or the jump to the trampoline does not reach, or no slot is free, with the status of the first of these; installed else, with the complete page behind the jump and its record behind the handle. The record holds the given procedure and callback, the size of the code, the eight original bytes and the next ident, and the state has it as it is. |
| HookManager.HookManager.Unlink | DriverShared/LocalHook/uninstall.c:76-90 | The walk makes the hook's successor the first record if the hook is in the list, whatever its place, because Prev never leaves the head. |
| HookManager.UninstallWired | DriverShared/LocalHook/uninstall.c:57-94 | The pointer surgery of an uninstall keeps both lists chained, disjoint and within allocated records. |
| HookManager.HookManager.LhUninstallHook | DriverShared/LocalHook/uninstall.c:29-103 | The state becomes that of the specification for every handle, set or not; success is returned in every case. |
| HookManager.RetireWired | DriverShared/LocalHook/uninstall.c:127-143 | The pointer surgery of one round of uninstalling all keeps both lists chained, disjoint and within allocated records, and clears exactly the handle of the hook. |
| HookManager.HookManager.LhUninstallAllHooks | DriverShared/LocalHook/uninstall.c:110-153 | Every record of the global list is disarmed, loses its handle and moves to the front of the removal list; the global list is empty. |
| HookManager.HookManager.PopRemoval | DriverShared/LocalHook/uninstall.c:183-197 | Takes the head of the removal list, or reports that it is empty. |
| HookManager.ReleaseWired | DriverShared/LocalHook/uninstall.c:217-228 | Freeing a record that was popped leaves lists and handles wired without it: none of them names a freed record. |
| HookManager.HookManager.RemovePending | DriverShared/LocalHook/uninstall.c:183-245 | One turn pops a hook, restores the eight original bytes exactly if the hook copy is still in place, and waits for it. |
| HookManager.HookManager.WaitAndFree | DriverShared/LocalHook/uninstall.c:214-240 | The waiting loop frees record and slot as soon as no thread is inside, or gives up when the timeout is used up. |
| HookManager.HookManager.LhWaitForPendingRemovals | DriverShared/LocalHook/uninstall.c:160-249 | The nested loops end and leave the state, the number of sleeps and the status of the specification. |
| HookJump.InstalledJumpLands | DriverShared/LocalHook/install.c:457-522 | After a successful install, running the target lands exactly on the trampoline, and every byte other than the first five is as before. |
| HookJump.FailedInstallChangesNothing | DriverShared/LocalHook/install.c:443-498 | A failed install changes no code, slot, list, record or handle; only a full slot table uses up an ident. |
| HookLifecycle.InstallShape | DriverShared/LocalHook/install.c:469-538 | An install keeps the invariant: lists without repetition, disjoint and within allocated hooks; nonzero slots one to one with allocated hooks; handles one to one with armed hooks. |
| HookLifecycle.UninstallShape | DriverShared/LocalHook/uninstall.c:57-94 | An uninstall keeps the invariant of lists, slots and handles. |
| HookLifecycle.UninstallAllShape | DriverShared/LocalHook/uninstall.c:125-145 | Uninstalling all keeps the invariant of lists, slots and handles. |
| HookLifecycle.ReleaseShape | DriverShared/LocalHook/uninstall.c:217-228 | Freeing a popped hook keeps the invariant of lists, slots and handles, and its slot becomes zero. |
| HookLifecycle.RemoveOneShape | DriverShared/LocalHook/uninstall.c:183-245 | One turn of the wait keeps the invariant of lists, slots and handles, takes exactly the head off the removal list and leaves the global list alone. |
| HookRuns.ApplyShape | DriverShared/LocalHook/install.c:469-538 | Every operation keeps the invariant in every state below the wrap-around of the ident counter, which grows by at most one. |
| HookRuns.SlotsRunOutIff | DriverShared/LocalHook/install.c:476-495 | No slot is free if and only if 1024 hooks are allocated, whether in force, waiting, dropped or leaked. |
| HookRuns.UninstallAllEffect | DriverShared/LocalHook/uninstall.c:125-145 | The global list moves, reversed, to the front of the removal list and exactly its hooks are disarmed; memory and slots are untouched. |
| HookRuns.UninstallAllIsCompleteIff | DriverShared/LocalHook/uninstall.c:125-145 | Uninstalling all disarms every hook if and only if no hook was dropped from the global list before. |
| HookRuns.UninstallKeepsSuffix | DriverShared/LocalHook/uninstall.c:76-90 | Uninstalling leaves exactly the suffix behind the hook in the global list, or the list unchanged if the hook is not in it; the hooks in front stay armed but are in no list any more. |
| HookRuns.UninstallDropsNothingIff | DriverShared/LocalHook/uninstall.c:76-90 | No other hook is dropped if and only if the uninstalled one was the head. |
| HookRuns.NewerHookIsDropped | DriverShared/LocalHook/uninstall.c:76-90 | Two installs and an uninstall of the older hook: the newer one stays patched and armed, and uninstalling all does not touch it. |
| HookRestoration.RunLayered | DriverShared/LocalHook/install.c:515-522 | Over every run of installs on disjoint targets, uninstalls and waits, memory is the original overlaid with the copies of exactly the hooks that are armed or wait for removal. |
| HookRestoration.Restoration | DriverShared/LocalHook/uninstall.c:199-241 | A run that ends with no handle set and a completed wait returns memory to the original, whatever the order and whichever waits timed out. |
| CodeMemory.JumpsDiffer | DriverShared/LocalHook/install.c:457-461 | Jumps from one place to different targets differ in their five bytes. |
| HookStacks.InstallOnStack | DriverShared/LocalHook/install.c:515-522 | A hook on top of others backs up exactly the copy of the one below, for different trampolines and a target that did not jump to one of them before; that the copies differ is proved. |
| HookStacks.DescendToZeroIff | DriverShared/LocalHook/uninstall.c:183-206 | Popping hooks of a stack undoes all of them if and only if they are popped newest first. |
| HookStacks.StackRestoredIff | DriverShared/LocalHook/uninstall.c:160-249 | Whatever else waits for removal on other targets, the target has its original bytes after a wait if and only if the removal list has the whole stack, newest first. |
| HookStacks.UninstallAllOnStack | DriverShared/LocalHook/uninstall.c:125-145 | Whatever other hooks exist, uninstalling all and waiting restores the target if and only if the members of the stack in the global list, reversed, followed by those already waiting, are the stack newest first. |
| HookStacks.OnlyNewestUndone | DriverShared/LocalHook/uninstall.c:125-145 | So a stack as installs leave it loses only its newest hook. |
| HookStacks.UninstallAllLeavesJump | DriverShared/LocalHook/uninstall.c:125-145 | A reachable pair of hooks on one target: uninstalling all and waiting leaves the jump of the older one in place. |
| HookStacks.OlderFirstRestores | DriverShared/LocalHook/uninstall.c:160-249 | For the same pair, uninstalling the older one first by handle restores the target. |
| RemovalWait.WaitBounded | DriverShared/LocalHook/uninstall.c:174-240 | All pending hooks together wait for at most 40 sleeps of 25 ms, of 1000 ms in all. |
| RemovalWait.WaitReleases | DriverShared/LocalHook/uninstall.c:200-245 | Without a timeout exactly the hooks whose bytes were in place are released; a timeout means that one of them was leaked; hooks that were changed by others are never released. |
| RemovalWait.WaitForExactly | DriverShared/LocalHook/uninstall.c:212-240 | The inner loop gives up, after 40 sleeps in all, if and only if a thread is inside at every check up to then; otherwise it releases the hook at the first check that finds nobody. |
| RemovalWait.WaitTimesOutIff | DriverShared/LocalHook/uninstall.c:159-250 | For any removal list: a timeout is reported if and only if one of the hooks whose copy is in place stays in use from the time on that the wait gets to it until 40 sleeps have passed, and then all 40 were slept. |
| RemovalWait.SingleWait | DriverShared/LocalHook/uninstall.c:159-250 | A single pending hook whose copy is in place: a timeout if and only if a thread is inside after k sleeps for every k from 0 to 40, and record and slot stay; otherwise both are freed after the least number of sleeps at which nobody is inside. |
| Barrier.InterceptedIff | DriverShared/LocalHook/barrier.c:333-396 | A thread is intercepted if and only if both the global and the local list admit it. |
| Barrier.GlobalListIsNotEnough | EasyHookDll/LocalHook/acl.c:91-94 | A concrete pair of inclusive lists whose global one names a thread that is not intercepted. |
| Barrier.AdmitsAfterSet | EasyHookDll/LocalHook/acl.c:64-80 | After a list was set it names exactly the listed threads, and the caller if a zero was listed. |
| BarrierUnit.LhSetACL | EasyHookDll/LocalHook/acl.c:28-81 | Too many entries, invalid list, or the new list with its mode; the zeros of the caller array are replaced in place; nothing changes on failure. |
| BarrierUnit.LhSetInclusiveACL | EasyHookDll/LocalHook/acl.c:83-114 | An invalid handle is refused first; otherwise the local list becomes inclusive with these threads. |
| BarrierUnit.LhSetExclusiveACL | EasyHookDll/LocalHook/acl.c:116-144 | An invalid handle is refused first; otherwise the local list becomes exclusive with these threads. |
| BarrierUnit.BarrierUnit.LhSetGlobalInclusiveACL | EasyHookDll/LocalHook/acl.c:146-165 | Only the global list changes, to an inclusive one with these threads. |
| BarrierUnit.BarrierUnit.LhSetGlobalExclusiveACL | EasyHookDll/LocalHook/acl.c:167-185 | Only the global list changes, to an exclusive one with these threads. |
| BarrierUnit.HookAcl.Contains | DriverShared/LocalHook/barrier.c:309-327 | Membership in the entries in use. |
| BarrierUnit.BarrierUnit.LhBarrierProcessAttach | DriverShared/LocalHook/barrier.c:671-700 | All threads are admitted and the thread table is empty. |
| BarrierUnit.BarrierUnit.TlsAddCurrentThread | DriverShared/LocalHook/barrier.c:77-135 | The first free cell is taken with a blank entry; a full table stays as it is. |
| BarrierUnit.BarrierUnit.TlsGetCurrentValue | DriverShared/LocalHook/barrier.c:142-185 | Finds the first cell of the caller, or none. |
| BarrierUnit.BarrierUnit.TlsRemoveCurrentThread | DriverShared/LocalHook/barrier.c:191-225 | The caller's cell is free afterwards and no other changes. |
| BarrierUnit.BarrierUnit.AcquireSelfProtection | DriverShared/LocalHook/barrier.c:254-281 | Succeeds exactly for a registered thread that does not hold the protection yet, and sets nothing else. |
| BarrierUnit.BarrierUnit.ReleaseSelfProtection | DriverShared/LocalHook/barrier.c:287-302 | Clears the flag and nothing else. |
| BarrierUnit.BarrierUnit.IsThreadIntercepted | DriverShared/LocalHook/barrier.c:333-396 | The nested branches decide as specified; a zero id stands for the current thread. |
| BarrierUnit.BarrierUnit.LhBarrierIntro | DriverShared/LocalHook/barrier.c:730-857 | For every state, answer of the loader lock and answer of the allocation: result and new state of the specification. |
| BarrierUnit.BarrierUnit.LhBarrierOutro | DriverShared/LocalHook/barrier.c:863-905 | Puts back the saved return address into the empty cell, unmarks the entry, clears Current and Callback and gives the protection back. |
| BarrierUnit.BarrierUnit.LhBarrierGetCallback | DriverShared/LocalHook/barrier.c:449-479 | Yields the callback exactly while Current is set. |
| BarrierUnit.BarrierUnit.LhBarrierGetReturnAddress | DriverShared/LocalHook/barrier.c:486-552 | Yields return address and its address exactly while Current is set. |
| BarrierUnit.BarrierUnit.LhBarrierThreadDetach | DriverShared/LocalHook/barrier.c:631-649 | The thread is gone from the table, its entries freed, all others untouched. |
| Barrier.SetInfoKeeps | DriverShared/LocalHook/barrier.c:254-302 | Writing the entry of one thread leaves the table valid and all other threads as they were. |
| Barrier.AddThreadKeeps | DriverShared/LocalHook/barrier.c:113-132 | Adding a thread keeps ids unique and all other threads as they were. |
| Barrier.TableIsFullIff | DriverShared/LocalHook/barrier.c:113-126 | A thread finds no cell if and only if all 128 are taken. |
| Barrier.RemoveThreadKeeps | DriverShared/LocalHook/barrier.c:212-222 | A removed thread is not registered afterwards; ids stay unique and all other threads as they were. |
| ThreadLookup.StepKeeps | DriverShared/LocalHook/barrier.c:77-225 | Every single step of every thread, under any interleaving, keeps ids unique and what each thread relies on where it is. |
| ThreadLookup.LookupIsExact | DriverShared/LocalHook/barrier.c:142-185 | In every reachable state of any interleaving, an unlocked lookup that has its answer found the cell of its own thread if and only if the thread is registered. |
| ThreadLookup.AddIsAtomic | DriverShared/LocalHook/barrier.c:111-132 | Under any interleaving an addition that has begun ends with the table of Barrier.AddThread: the thread in the first free cell and all other cells as they were, or nothing changed if none was free. |
| ThreadLookup.RemoveIsAtomic | DriverShared/LocalHook/barrier.c:205-222 | Likewise a removal ends with the thread out of the table and all other cells as they were. |
| ThreadLookup.AddedIsFound | DriverShared/LocalHook/barrier.c:77-185 | A thread that adds itself to a table with a free cell and then looks itself up is answered with that cell. |
| ThreadLookup.OthersDoNotMatter | DriverShared/LocalHook/barrier.c:77-225 | No step of another thread registers or removes a thread. |
| HookSystem.FreeKeeps | DriverShared/LocalHook/uninstall.c:217-228 | Freeing a hook when its execution counter is found at zero, and its slot with it, leaves the frames and entries of all threads in step; no activation of it is between increment and decrement. |
| HookSystem.EntryTells | DriverShared/LocalHook/barrier.c:799-804 | An entry with the ident of another hook is not executing, so that the reset in the intro disturbs no frame; and an entry is executing exactly if its hook has a frame on the thread. |
| HookSystem.OpenKeeps | DriverShared/LocalHook/barrier.c:730-797 | The first part of an intro, up to the self protection, keeps frames, entries and counters of all threads in step. |
| HookSystem.DecideKeeps | DriverShared/LocalHook/barrier.c:799-857 | So does the second part, whether it lets the thread into the handler or not. |
| HookSystem.JumpKeeps | DriverShared/ASM/HookSpecific_x64.asm:254-310 | The final jump of the trampoline reads the hook procedure again: into the handler while the hook is armed, through a null pointer otherwise; both keep the invariant. |
| HookSystem.OutroKeeps | DriverShared/LocalHook/barrier.c:863-905 | An outro keeps entries, frames and counters in step and returns exactly the address that the matching intro was given. |
| HookSystem.StepKeeps | DriverShared/ASM/HookSpecific_x64.asm:207-312 | Every step of the system keeps the invariant of hooks, slots, counters and threads: installs, uninstalls, pops, frees, list changes, entering a trampoline, checking, both parts of an intro with other hooked calls in between, the jump into the handler, outro, getting out of the page behind the decrement, and detaching, by any thread in any order. |
| Barrier.IntroSplits | DriverShared/LocalHook/barrier.c:730-857 | Undisturbed, the two parts of the intro compose to the whole one. |
| HookSafety.BarrierSafety | DriverShared/LocalHook/barrier.c:730-905 | In every reachable state, for every thread: executing entries are exactly its handler frames with ident and return address; no hook has two frames; at most 1024 frames; the self protection is held exactly during an intro; a callback is available exactly if the last intro or outro past the protection was a successful intro, and then callback and return address are those of the newest frame. |
| HookSafety.CounterExact | DriverShared/ASM/HookSpecific_x64.asm:207-282 | In every reachable state the counter that the trampoline maintains is zero if and only if no thread is between its increment and its decrement. |
| HookSafety.SlotReuseSafety | DriverShared/LocalHook/uninstall.c:217-228 | In every reachable state a thread that is counted, between increment and decrement, keeps the record and the slot of its hook, although hooks are freed by their counters alone. |
| HookSafety.InitialLists | DriverShared/LocalHook/barrier.c:680-681 | At first the global list admits every thread, and a hook whose local list was not set intercepts nobody. |
| InstalledHandler.HandlerIsInstalled | DriverShared/LocalHook/install.c:223-231 | Whatever happens after an install, a thread that gets into the handler of the hook gets to the procedure that was given to LhInstallHook, and while its frame is the newest and a callback is to be had, LhBarrierGetCallback gives the callback that was given with it. |
| PageReuse.PagesKeptIff | DriverShared/LocalHook/uninstall.c:214-228 | Behind the decrement a thread still runs in the page: over any run, all pages in use stay allocated if and only if no hook is freed while a thread lingers there. |
| PageReuse.PageFreedUnderThread | DriverShared/ASM/HookSpecific_x64.asm:222-312 | A concrete run in which that happens: a thread finds its hook uninstalled, gives up its count, and the wait frees the page before the thread has left it. |
| HookSafety.OpenSucceedsIff | DriverShared/LocalHook/barrier.c:757-797 | Exactly when an intro gets the self protection: no loader lock, initialised, and registered outside another intro, or a free cell for the thread. |
| HookSafety.DecideSucceedsIff | DriverShared/LocalHook/barrier.c:786-835 | Exactly when it then lets the thread into the handler: entries to be had, no frame of the hook on the thread, admitted by both lists. |
| HookSafety.IntroSucceedsIff | DriverShared/LocalHook/barrier.c:730-857 | Exactly when LhBarrierIntro as one call succeeds. |
| HookSafety.OutroChecksHold | DriverShared/LocalHook/barrier.c:879-899 | The integrity checks of an outro never fail for a thread inside a handler. |
| HookSafety.IntroNeverFaults | DriverShared/LocalHook/barrier.c:786-797 | As long as every allocation of entries succeeds, no intro meets a registered thread without entries. |
| HookSafety.FailedAllocationSticks | DriverShared/LocalHook/barrier.c:786-797 | After a failed allocation the thread lacks its entries at the next intro if and only if there was a free cell to register it in. |
| HookSafety.DepthBounded | DriverShared/LocalHook/install.c:476-489 | Frames of different hooks hold different slots, so a thread is nested at most 1024 deep. |
| HandlerReach.HandlerReachableIff | DriverShared/LocalHook/uninstall.c:34-65 | Once a hook is uninstalled, some continuation executes its handler if and only if a thread is inside it already. |
| FaultRuns.NullJumpReachableIff | DriverShared/ASM/HookSpecific_x64.asm:254-310 | Some continuation jumps through the cleared hook procedure, which ends the process, if and only if a thread is bound for it: admitted already; or in an intro with the self protection, admitted by the local list, without a frame of the hook; or past the check with an intro that can get that far, which needs the barrier initialised, no other intro of the thread under way, and a cell in a thread table that is not full of threads before such a jump. |
| FaultRuns.NullJumpAfterUninstall | DriverShared/ASM/HookSpecific_x64.asm:212-310 | A concrete run: install, local list, entry, check, uninstall; nobody gets into the handler any more, and yet the run can go on to jump through the cleared procedure. |

## Left out

- Bypass.BypassEquivalence: covers movable instructions (`Bypass.Movable`). Not movable are undecodable bytes, LOOP and
  branches behind other prefixes, which are copied unchanged (`Miscopied.CopiedUnchangedIff`, `Miscopied.LoopMiscopied`),
  RIP-relative operands that go unrecognised (`Miscopied.UnrecognisedIff`, `Miscopied.ZeroDispMiscopied`) or stand behind an
  address-size prefix (`Miscopied.PrefixedRip`, `Miscopied.PrefixedRipBroken`), calls and near jumps behind that prefix
  (`Miscopied.PrefixedBranchTarget`, `Miscopied.PrefixedCallMisread`) and doubled prefixes (`Miscopied.DoubledMissed`).
- Walk.WalkAgreement: rests on the facts in `BranchTables` about the lengths of the branches that are converted.
- Machine.Execute: the effect of instructions other than relative branches, the move to RAX and branches through RAX is a
  parameter that sees the decoded instruction and the addresses it derives from RIP; instructions that store RIP (SYSCALL,
  for example), code read as data and code that modifies itself are not modelled.
- Bypass.SimulatesFrom: called procedures depend neither on RAX nor on their return address and come back behind the call; a
  call converted by the relocator passes its target in RAX and returns into the page.
- LineLength.TextFitsLine: assumes `LinesFit`, a bound on mnemonics and operand kinds of each table entry that those of
  DriverShared/Disassembler/libudis86/itab.c meet; what a text that does not fit leaves in the buffer is not modelled.
- EntryPointRelocator.LhRelocateEntryPoint: the buffer has room for the worst case, and addresses are those of user mode.
  What the source asserts in vain ends the process there (DriverShared/Rtl/error.c:128-139); a handler that the debugger or
  the process puts in its way is not modelled.
- SynPrinter.AsmBuffer.TranslateIntel: which words the printer uses is what `SynIntel` says; proved of the text are the
  brackets, the rip operand and its number, immediates, branch targets, register names and repeat prefixes, the parts that
  the engine reads or that have a meaning outside of it.
- UdisDecoder.Ud.DecodeInsn: of resolve_mnemonic only the check of SWAPGS is modelled; the renaming of NOP, PAUSE and 3DNow!
  instructions, which affects no memory operand, is not.
- UdisDecoder.Ud.Decode3dnow: the name that the last byte selects is not modelled; that the 3DNow! table refers to
  instructions only is asserted by the source.
- BranchDecoding.NearBranch: assumes the facts in `BranchTables` about six opcodes; they are those of
  DriverShared/Disassembler/libudis86/itab.c, and `BranchDecoding.SmallestMeetsFacts` shows that they can be met. The other
  contents of the tables stay abstract.
- HookAllocation.LhAllocateHook: the checks of the two pointers and the answers of VirtualAlloc are parameters, the
  assembler trampoline is an arbitrary byte string, and memory freed on failure is not followed, so nothing is said about
  freeing it once.
- Encodings.SubRsp: assumes the entry of one opcode, `Encodings.SubTables`, as DriverShared/Disassembler/libudis86/itab.c
  has it.
- AssertedDistance.FirstDecides: with address-size prefixes behind the first copied instruction the drop of the lead counts
  as well, which `AssertedDistance.NeverAssertsIff` has exactly.
- HookAllocation.JumpBackReachesIff: pages of 4096 bytes, as Windows has them for this architecture.
- HookInstall.LhInstallHook: pointer checks are parameters, changing the protection of the page is not modelled, and the
  ident counter is below its wrap-around, which is 0xF0000000 installs away. The memory of the process is one array, and
  hook pages lie outside it.
- HookStacks.InstallOnStack: the trampolines are different and the target did not jump to one of them before.
- HookManager.HookManager.LhWaitForPendingRemovals: no other thread installs or uninstalls meanwhile; whether a thread is
  inside a handler is an arbitrary function of hook and time. `HookSystem` has the interleaving.
- BarrierUnit.BarrierUnit.LhBarrierIntro: the loader lock and the allocation answer arbitrarily; a registered thread without
  entries makes the source fault and is excluded (`HookSafety.IntroNeverFaults`). The entries of a thread are a value in its
  table entry, not memory of their own.
- BarrierUnit.BarrierUnit.LhBarrierOutro: the checks that the source asserts are preconditions
  (`HookSafety.OutroChecksHold`).
- HookSystem.StepKeeps: an intro takes two steps; an outro with its decrement, a failing check or intro with its decrement,
  and a check take one; the cell-level interleaving of the thread table is in `ThreadLookup`. The time between the jump at
  the target and the increment of the counter is not modelled: a thread enters the trampolines of allocated hooks only. A
  thread ends outside all trampolines and handlers. What a thread does in a freed page, and whether the process survives a
  jump through a null pointer by an exception handler, is not followed.
- HookSafety.CounterExact: counts the calls between increment and decrement only, as the source does; for the stretch behind
  see `PageReuse.PagesKeptIff`.
- FaultRuns.NullJumpReachableIff: as long as the allocations of entries have succeeded.
- 32-bit processes and the driver, with the placeholders of their trampoline and the sixteen-byte jump.
- resolve_mnemonic (NOP, PAUSE and 3DNow! names), AT&T syntax, symbol resolvers and input from files.
- LhGetHookBypassAddress, stack traces of the barrier, module enumeration and the managed layer.
- Remote injection, services, driver installation and the GAC.
