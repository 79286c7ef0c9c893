# M6502 instruction-selection rules and ABI flags, in Dafny

This project models two pieces of decision logic from the M6502 (MIPS-derived)
LLVM backend and proves properties of them:

- **The rules of the SelectionDAG instruction selector** in
  `lib/Target/M6502/M6502SEISelDAGToDAG.cpp`:
  - the address-mode matchers, which split a load/store address into a base
    and an offset operand, and the inline-assembly memory operands;
  - the `M6502ISD::Ins` bit-field insert dispatcher, which picks
    INS/DINS/DINSM/DINSU;
  - the MSA vector-splat immediate predicates;
  - the `ISD::BUILD_VECTOR` constant-splat synthesis, which emits LDI, or a
    scalar built in a GPR and broadcast with FILL or SPLATI_D;
  - the `ISD::Constant` chaining loop;
  - the `selectAddE` carry-chain expansion;
  - the post-selection fix-ups: the MSA control-register table, the DSP
    control-register implicit operands, and the rewrite of uses of a register
    set to zero into uses of `$zero`.
- **The `.MIPS.abiflags` record** in
  `lib/Target/M6502/MCTargetDesc/M6502ABIFlagsSection.h`. It is a class
  whose setters fill in its fields from a snapshot of the subtarget's
  capability predicates.

Each module matches one part of the source:

| module | file | models |
|---|---|---|
| `Wrappers` | wrappers.dfy | `Option` |
| `Bits` | bits.dfy | powers of two, bitwise and/or/not on naturals, sign extension, population count |
| `AddrModes` | addr_modes.dfy | the address matchers, `SelectInlineAsmMemoryOperand`, an address evaluator and soundness lemmas |
| `BitfieldInsert` | bitfield_insert.dfy | the Ins dispatcher, the field semantics of INS, and the uint64 wrap-around finding |
| `SplatPredicates` | splat_predicates.dfy | `selectVSplat*` |
| `MachineOps` | machine_ops.dfy | the machine nodes the splat synthesis emits, and an evaluator giving each node's result |
| `BuildVector` | build_vector.dfy | the BUILD_VECTOR case; its methods emit nodes step by step and are proved against the evaluator |
| `ConstantSelect` | constant_select.dfy | the ISD::Constant loop over a given instruction sequence |
| `CarryChain` | carry_chain.dfy | the nodes `selectAddE` builds |
| `PostISel` | post_isel.dfy | `getMSACtrlReg`, and a `MachineFunction` class holding `addDSPCtrlRegOperands` and `replaceUsesWithZeroReg` |
| `AbiFlags` | abi_flags.dfy | the class `M6502ABIFlagsSection` and its setters |

**Matchers.** An address-mode matcher that returns false is `None`. One that
returns true is `Some(AddrMatch(base, offset))`. Each matcher has a partner,
the evaluator `AddrModes.Eval`: every match is proved sound, meaning that base
plus offset computes the same pointer as the address, modulo the pointer width.

**Splat synthesis.** Each synthesis path is a method that appends machine
nodes. For every accepted splat it is proved that:

- the last node holds the splat value in every lane;
- that node has the type of the node being selected;
- every immediate fits its encoding field;
- on O32, no node needs 64-bit registers.

## Model

| member | source | states |
|---|---|---|
| AddrModes.ZExtValue | lib/Target/M6502/M6502SEISelDAGToDAG.cpp:338-343 | getZExtValue reads the constant's pattern, below 2^width |
| AddrModes.SExtValue | lib/Target/M6502/M6502SEISelDAGToDAG.cpp:327 | getSExtValue is the two's-complement reading: congruent to the pattern and within the signed range |
| AddrModes.OffsetToAlignment | lib/Target/M6502/M6502SEISelDAGToDAG.cpp:338 | the distance to the next multiple is below the alignment, zero exactly for multiples, and reaching it gives a multiple |
| AddrModes.ZeroOffset | lib/Target/M6502/M6502SEISelDAGToDAG.cpp:402-407 | the default pair is the address itself with the constant 0 |
| AddrModes.SelectAddrFrameIndex | lib/Target/M6502/M6502SEISelDAGToDAG.cpp:309-319 | matches exactly a frame index, giving its target frame index and offset 0 |
| AddrModes.SelectAddrFrameIndexOffset | lib/Target/M6502/M6502SEISelDAGToDAG.cpp:322-348 | matches iff base+constant fits OffsetBits+ShiftAmount signed bits and, for a base that is not a frame index, the offset is a multiple of 2^ShiftAmount; the offset is the zero-extended constant, and a frame-index base becomes its target frame index |
| AddrModes.SelectAddrRegImm | lib/Target/M6502/M6502SEISelDAGToDAG.cpp:352-398 | the precedence: a frame index, then Wrapper, then rejection of non-PIC external symbols and global addresses, then a 16-bit base+const, then ADD of Lo/GPRel of a constant pool, global or TLS global address, or jump table (each plain or Target), giving the ADD's left operand and the symbol; any other match is impossible |
| AddrModes.SelectAddrDefault | lib/Target/M6502/M6502SEISelDAGToDAG.cpp:402-407 | always the address with a zero offset |
| AddrModes.SelectAddrRegImmN | lib/Target/M6502/M6502SEISelDAGToDAG.cpp:415-459 | matches iff the address is a frame index or an N-bit base+const match; a frame index gives (TargetFrameIndex, 0), otherwise the N-bit match |
| AddrModes.SelectAddrRegImm9 | lib/Target/M6502/M6502SEISelDAGToDAG.cpp:415-424 | a match is a frame index or a base plus a 9-bit signed constant |
| AddrModes.SelectAddrRegImm11 | lib/Target/M6502/M6502SEISelDAGToDAG.cpp:427-436 | a match is a frame index or a base plus an 11-bit signed constant |
| AddrModes.SelectAddrRegImm12 | lib/Target/M6502/M6502SEISelDAGToDAG.cpp:439-448 | a match is a frame index or a base plus a 12-bit signed constant |
| AddrModes.SelectAddrRegImm16 | lib/Target/M6502/M6502SEISelDAGToDAG.cpp:450-459 | a match is a frame index or a base plus a 16-bit signed constant |
| AddrModes.OrDefault | lib/Target/M6502/M6502SEISelDAGToDAG.cpp:409-413 | trying the default pattern after a matcher never fails, and keeps the matcher's result when it has one |
| AddrModes.SelectIntAddr | lib/Target/M6502/M6502SEISelDAGToDAG.cpp:409-413 | total: the selectAddrRegImm match when there is one, else the address with a zero offset |
| AddrModes.SelectIntAddr11MM | lib/Target/M6502/M6502SEISelDAGToDAG.cpp:461-465 | total: the 11-bit match when there is one, else the address with a zero offset |
| AddrModes.SelectIntAddr12MM | lib/Target/M6502/M6502SEISelDAGToDAG.cpp:467-471 | total: the 12-bit match when there is one, else the address with a zero offset |
| AddrModes.SelectIntAddr16MM | lib/Target/M6502/M6502SEISelDAGToDAG.cpp:473-477 | total: the 16-bit match when there is one, else the address with a zero offset |
| AddrModes.SelectIntAddrLSL2MM | lib/Target/M6502/M6502SEISelDAGToDAG.cpp:479-499 | after a 7-bit match it accepts exactly a non-frame-index base whose offset passes the 0x3c mask test, and returns that 7-bit match (base and zero-extended constant); otherwise it uses the default only when selectAddrRegImm fails; a match never has a frame-index base |
| AddrModes.SelectIntAddrSImm10Shifted | lib/Target/M6502/M6502SEISelDAGToDAG.cpp:501-544 | total: a frame index as it is, otherwise a 10-bit shifted base+const match or the default |
| AddrModes.SelectIntAddrSImm10 | lib/Target/M6502/M6502SEISelDAGToDAG.cpp:501-511 | always matches |
| AddrModes.SelectIntAddrSImm10Lsl1 | lib/Target/M6502/M6502SEISelDAGToDAG.cpp:513-522 | always matches |
| AddrModes.SelectIntAddrSImm10Lsl2 | lib/Target/M6502/M6502SEISelDAGToDAG.cpp:524-533 | always matches |
| AddrModes.SelectIntAddrSImm10Lsl3 | lib/Target/M6502/M6502SEISelDAGToDAG.cpp:535-544 | always matches |
| AddrModes.MatchedOrRaw | lib/Target/M6502/M6502SEISelDAGToDAG.cpp:1310-1356 | two operands: the match's base and offset, else the pointer with a zero offset |
| AddrModes.SelectInlineAsmMemoryOperand | lib/Target/M6502/M6502SEISelDAGToDAG.cpp:1297-1361 | every known constraint pushes two operands: i takes the pointer and 0; m the 16-bit pattern; R the 9-bit pattern; ZC the 12-bit pattern on microMIPS, else 9-bit on r6, else 16-bit; each falls back to pointer+0; an unknown constraint is the unreachable default |
| AddrModes.FrameIndexSound | lib/Target/M6502/M6502SEISelDAGToDAG.cpp:309-319 | a frame-index match computes the address |
| AddrModes.FrameIndexOffsetSound | lib/Target/M6502/M6502SEISelDAGToDAG.cpp:322-348 | base + zero-extended offset equals base + signed constant modulo the pointer width |
| AddrModes.AddrRegImmSound | lib/Target/M6502/M6502SEISelDAGToDAG.cpp:352-398 | every selectAddrRegImm match computes the address |
| AddrModes.AddrRegImmNSound | lib/Target/M6502/M6502SEISelDAGToDAG.cpp:415-459 | every 9/11/12/16-bit match computes the address |
| AddrModes.IntAddrSound | lib/Target/M6502/M6502SEISelDAGToDAG.cpp:409-413 | the total general matcher's result computes the address |
| AddrModes.IntAddrMMSound | lib/Target/M6502/M6502SEISelDAGToDAG.cpp:461-477 | the microMIPS total matchers are the N-bit pattern or the default, and are sound |
| AddrModes.SImm10Sound | lib/Target/M6502/M6502SEISelDAGToDAG.cpp:501-544 | the SImm10 family's results compute the address |
| AddrModes.LSL2MMSound | lib/Target/M6502/M6502SEISelDAGToDAG.cpp:479-499 | every LW16 match computes the address |
| AddrModes.InlineAsmSound | lib/Target/M6502/M6502SEISelDAGToDAG.cpp:1297-1361 | the two inline-asm operands sum to the pointer |
| AddrModes.FrameIndexOffsetBounds | lib/Target/M6502/M6502SEISelDAGToDAG.cpp:325-347 | a selected offset is the constant's pattern; the signed constant fits the width; it is a multiple of 2^ShiftAmount unless the base is a frame index |
| AddrModes.Lsl2OffsetMeaning | lib/Target/M6502/M6502SEISelDAGToDAG.cpp:486-490 | `off == off & 0x3c` holds exactly for multiples of four below 64 |
| AddrModes.Mask3cMeaning | lib/Target/M6502/M6502SEISelDAGToDAG.cpp:486-490 | masking with 0x3c leaves the value unchanged iff it is a multiple of 4 below 64 |
| AddrModes.LSL2MMRejectsFrameIndex | lib/Target/M6502/M6502SEISelDAGToDAG.cpp:481-492 | after a 7-bit match, a frame-index base is rejected |
| AddrModes.LSL2MMDefersToRegImm | lib/Target/M6502/M6502SEISelDAGToDAG.cpp:493-498 | without a 7-bit match, LW16's pattern fails whenever selectAddrRegImm matches |
| AddrModes.ConstantViews32 | lib/Target/M6502/M6502SEISelDAGToDAG.cpp:327-343 | for 32-bit constants the zero-extended view is the pattern, and the signed view subtracts 2^32 at and above 2^31 |
| AddrModes.ExampleFrameOffsetWidth | lib/Target/M6502/M6502SEISelDAGToDAG.cpp:415-459 | frame object 3 plus 300 fails the 9-bit pattern and passes the 16-bit one |
| AddrModes.ExampleAlignment | lib/Target/M6502/M6502SEISelDAGToDAG.cpp:322-348 | a register plus 6 fails Lsl2 alignment and falls back to the default; a frame index plus 6 is accepted |
| AddrModes.ExampleNegativeOffset | lib/Target/M6502/M6502SEISelDAGToDAG.cpp:479-499 | -4 is kept by the 16-bit pattern and refused by LW16 |
| AddrModes.ExampleTlsLo | lib/Target/M6502/M6502SEISelDAGToDAG.cpp:385-392 | ADD(reg, Lo(TargetGlobalTLSAddress x)) matches the register and x, the local-exec TLS operand |
| AddrModes.LoSymbolFolds | lib/Target/M6502/M6502SEISelDAGToDAG.cpp:376-397 | for every base and either relocation, ADD(base, Lo/GPRel(symbol)) of any constant-pool, global-address (TLS included) or jump-table node, plain or Target, matches base and the symbol; selectIntAddr keeps that split and LW16's pattern refuses it |
| BitfieldInsert.ChooseOpcode | lib/Target/M6502/M6502SEISelDAGToDAG.cpp:941-951 | an opcode is chosen iff the node is i64 or the field ends by bit 32; the chosen form encodes the field, and it is a 64-bit form exactly for i64 |
| BitfieldInsert.SelectIns | lib/Target/M6502/M6502SEISelDAGToDAG.cpp:914-964 | selected iff the operands pass the sanity checks, Size != 0, Pos+Size <= 64, and (i64 or Pos+Size <= 32); the machine node carries Ins's operands and the opcode ChooseOpcode picks |
| BitfieldInsert.OneEncodingPer64BitField | lib/Target/M6502/M6502SEISelDAGToDAG.cpp:945-951 | at most one of DINS, DINSM, DINSU encodes a given field |
| BitfieldInsert.SelectInsPicksTheEncoding | lib/Target/M6502/M6502SEISelDAGToDAG.cpp:945-951 | for i64, the dispatcher selects the one 64-bit form that encodes the field |
| BitfieldInsert.SelectInsFailure | lib/Target/M6502/M6502SEISelDAGToDAG.cpp:931-963 | failure exactly for an empty field, one past bit 63, or an i32 field past bit 31 |
| BitfieldInsert.AddU64 | lib/Target/M6502/M6502SEISelDAGToDAG.cpp:927-935 | `Pos + Size` in uint64_t: exact below 2^64, minus 2^64 above |
| BitfieldInsert.SelectInsAsWritten | lib/Target/M6502/M6502SEISelDAGToDAG.cpp:914-964 | the dispatcher with wrapping sums; when it selects, the wrapped end is at most 64 and the size is non-zero |
| BitfieldInsert.AsWrittenAgreesWithoutWrap | lib/Target/M6502/M6502SEISelDAGToDAG.cpp:927-951 | without wrap-around the as-written and corrected dispatchers agree |
| BitfieldInsert.AsWrittenWrapSelectsUnencodable | lib/Target/M6502/M6502SEISelDAGToDAG.cpp:935-944 | Pos = 2^64-1 with Size = 2 on i32: the as-written code selects INS for a field INS cannot encode, and the corrected one refuses |
| BitfieldInsert.InsertFieldLayout | lib/Target/M6502/M6502SEISelDAGToDAG.cpp:953-958 | the inserted value is the low Pos bits of base, then Size bits of field, then base's bits above Pos+Size |
| BitfieldInsert.InsertFieldMeaning | lib/Target/M6502/M6502SEISelDAGToDAG.cpp:953-958 | the bits below and above the field come from base, and the field's bits from the source value |
| SplatPredicates.SelectVSplat | lib/Target/M6502/M6502SEISelDAGToDAG.cpp:551-572 | a splat is found iff MSA is enabled and the node is a constant splat, which it returns |
| SplatPredicates.ElementSplat | lib/Target/M6502/M6502SEISelDAGToDAG.cpp:591-610 | the splat, when its width equals the element width |
| SplatPredicates.SelectVSplatCommon | lib/Target/M6502/M6502SEISelDAGToDAG.cpp:591-610 | accepts iff an element-width splat fits the immediate's signed or unsigned width, and returns that splat |
| SplatPredicates.SelectVSplatUimm1 | lib/Target/M6502/M6502SEISelDAGToDAG.cpp:613-616 | accepted value < 2 |
| SplatPredicates.SelectVSplatUimm2 | lib/Target/M6502/M6502SEISelDAGToDAG.cpp:618-621 | accepted value < 4 |
| SplatPredicates.SelectVSplatUimm3 | lib/Target/M6502/M6502SEISelDAGToDAG.cpp:623-626 | accepted value < 8 |
| SplatPredicates.SelectVSplatUimm4 | lib/Target/M6502/M6502SEISelDAGToDAG.cpp:629-632 | accepted value < 16 |
| SplatPredicates.SelectVSplatUimm5 | lib/Target/M6502/M6502SEISelDAGToDAG.cpp:635-638 | accepted value < 32 |
| SplatPredicates.SelectVSplatUimm6 | lib/Target/M6502/M6502SEISelDAGToDAG.cpp:641-644 | accepted value < 64 |
| SplatPredicates.SelectVSplatUimm8 | lib/Target/M6502/M6502SEISelDAGToDAG.cpp:647-650 | accepted value < 256 |
| SplatPredicates.SelectVSplatSimm5 | lib/Target/M6502/M6502SEISelDAGToDAG.cpp:653-656 | accepted signed value in [-16, 16) |
| SplatPredicates.ExactLogBase2 | lib/Target/M6502/M6502SEISelDAGToDAG.cpp:674-676 | the exponent when the value is a power of two, -1 exactly when none is |
| SplatPredicates.SelectVSplatUimmPow2 | lib/Target/M6502/M6502SEISelDAGToDAG.cpp:668-686 | returns k with splat == 2^k, and succeeds for every element-width power-of-two splat |
| SplatPredicates.SelectVSplatUimmInvPow2 | lib/Target/M6502/M6502SEISelDAGToDAG.cpp:754-773 | returns k with ~splat == 2^k, and succeeds whenever the complement is a power of two |
| SplatPredicates.IncWrap | lib/Target/M6502/M6502SEISelDAGToDAG.cpp:742 | `v + 1` in the element width is (v + 1) mod 2^w, below 2^w |
| SplatPredicates.PopCountMinusOne | lib/Target/M6502/M6502SEISelDAGToDAG.cpp:745 | countPopulation() - 1 for a non-zero value |
| SplatPredicates.SelectVSplatMaskR | lib/Target/M6502/M6502SEISelDAGToDAG.cpp:733-752 | accepts iff `v == (v & ~(v + 1))`; the immediate is the unsigned popcount - 1 made a constant of the element type |
| SplatPredicates.SelectVSplatMaskL | lib/Target/M6502/M6502SEISelDAGToDAG.cpp:699-720 | accepts iff `v == ~(~v & ~(~v + 1))`; the immediate is the unsigned popcount - 1 made a constant of the element type |
| SplatPredicates.MaskRTestMeaning | lib/Target/M6502/M6502SEISelDAGToDAG.cpp:722-752 | the MaskR test holds exactly for runs of ones from bit 0 |
| SplatPredicates.MaskLTestMeaning | lib/Target/M6502/M6502SEISelDAGToDAG.cpp:688-720 | the MaskL test holds exactly when the complement is a run of ones from bit 0 |
| SplatPredicates.MaskRValue | lib/Target/M6502/M6502SEISelDAGToDAG.cpp:733-752 | for an accepted non-zero splat the immediate is popcount - 1 and the splat is 2^(imm+1) - 1 |
| SplatPredicates.MaskRComplete | lib/Target/M6502/M6502SEISelDAGToDAG.cpp:733-752 | every element-width 2^k - 1 is accepted |
| SplatPredicates.MaskLValue | lib/Target/M6502/M6502SEISelDAGToDAG.cpp:699-720 | for an accepted non-zero splat the immediate is popcount - 1 and the splat has its top imm+1 bits set and no others |
| SplatPredicates.MaskLComplete | lib/Target/M6502/M6502SEISelDAGToDAG.cpp:699-720 | every run of high ones is accepted |
| SplatPredicates.ZeroSplatMasks | lib/Target/M6502/M6502SEISelDAGToDAG.cpp:699-752 | the zero splat passes both mask tests with the same immediate: 2^32 - 1 for i32 and i64 elements, 0xffff for i16, 0xff for i8 |
| SplatPredicates.UimmMeaning | lib/Target/M6502/M6502SEISelDAGToDAG.cpp:591-610 | the unsigned k-bit test accepts exactly splats below 2^k |
| SplatPredicates.WrongWidthRefused | lib/Target/M6502/M6502SEISelDAGToDAG.cpp:591-773 | every predicate refuses a splat whose width differs from the element width |
| SplatPredicates.ExampleMasks | lib/Target/M6502/M6502SEISelDAGToDAG.cpp:699-752 | a v16i8 splat of 0x0f is MaskR with immediate 3, is not MaskL, and is not a power of two |
| MachineOps.EltBits | lib/Target/M6502/M6502SEISelDAGToDAG.cpp:1021-1038 | element widths are 8, 16, 32 or 64 |
| MachineOps.LaneCount | lib/Target/M6502/M6502SEISelDAGToDAG.cpp:1021-1038 | lanes times width is 128 |
| MachineOps.IntVecType | lib/Target/M6502/M6502SEISelDAGToDAG.cpp:1021-1038 | v16i8/v8i16/v4i32/v2i64: 128-bit integer vectors of that element width |
| MachineOps.Splat | lib/Target/M6502/M6502SEISelDAGToDAG.cpp:1046-1053 | every lane holds the value |
| MachineOps.DoublewordLanes | lib/Target/M6502/M6502SEISelDAGToDAG.cpp:1212-1220 | word lanes read as doublewords: word 2i is the low half and word 2i+1 the high half |
| MachineOps.GprOf | lib/Target/M6502/M6502SEISelDAGToDAG.cpp:1064-1066 | the zero registers read 0; a node operand reads its GPR result |
| MachineOps.EvalLdi | lib/Target/M6502/M6502SEISelDAGToDAG.cpp:1049-1053 | LDI writes the immediate, reduced to a lane, into every lane |
| MachineOps.EvalAddiu | lib/Target/M6502/M6502SEISelDAGToDAG.cpp:1077-1081 | ADDiu adds the sign-extended immediate and sign-extends the 32-bit sum |
| MachineOps.EvalDaddiu | lib/Target/M6502/M6502SEISelDAGToDAG.cpp:1077-1081 | DADDiu adds the sign-extended immediate modulo 2^64 |
| MachineOps.EvalSubregToReg | lib/Target/M6502/M6502SEISelDAGToDAG.cpp:1121-1127 | SUBREG_TO_REG keeps the register's contents |
| MachineOps.EvalDinsu | lib/Target/M6502/M6502SEISelDAGToDAG.cpp:1248-1257 | DINSU inserts a field, in 64 bits |
| MachineOps.EvalDsll32 | lib/Target/M6502/M6502SEISelDAGToDAG.cpp:1258-1263 | DSLL32 by 0 multiplies by 2^32 modulo 2^64 |
| MachineOps.EvalFill | lib/Target/M6502/M6502SEISelDAGToDAG.cpp:1067-1081 | FILL broadcasts the GPR, reduced to a lane |
| MachineOps.EvalInsertW | lib/Target/M6502/M6502SEISelDAGToDAG.cpp:1205-1209 | INSERT_W replaces one word lane |
| MachineOps.EvalSplatiD | lib/Target/M6502/M6502SEISelDAGToDAG.cpp:1218-1220 | SPLATI_D broadcasts one doubleword lane |
| MachineOps.EvalCopy | lib/Target/M6502/M6502SEISelDAGToDAG.cpp:1273-1285 | COPY_TO_REGCLASS relabels the type and keeps the lanes |
| MachineOps.EvalAllAppend | lib/Target/M6502/M6502SEISelDAGToDAG.cpp:1046-1270 | appending a node keeps the earlier results |
| MachineOps.GprOfPrefix | lib/Target/M6502/M6502SEISelDAGToDAG.cpp:1184-1197 | an earlier result is read the same after later nodes |
| MachineOps.AllEncodableEach | lib/Target/M6502/M6502SEISelDAGToDAG.cpp:1046-1270 | the sequence predicates hold iff they hold of every node |
| MachineOps.Emit | lib/Target/M6502/M6502SEISelDAGToDAG.cpp:1046-1270 | getMachineNode appends the node, and the sequence's value is now the node's result |
| MachineOps.EmitGpr | lib/Target/M6502/M6502SEISelDAGToDAG.cpp:1046-1270 | appending a GPR-producing node names its value |
| BuildVector.FormatOf | lib/Target/M6502/M6502SEISelDAGToDAG.cpp:1021-1038 | splat sizes 8/16/32/64 and no others name an LDI format of that element width |
| BuildVector.Recompose64 | lib/Target/M6502/M6502SEISelDAGToDAG.cpp:1139-1144 | Lo, Hi, Higher and Highest recompose to the splat value |
| BuildVector.SplitDoubleword | lib/Target/M6502/M6502SEISelDAGToDAG.cpp:1139-1197 | a doubleword is the join of its words, and a word is zero iff both of its chunks are |
| BuildVector.LuiOriValue | lib/Target/M6502/M6502SEISelDAGToDAG.cpp:1093-1099 | `lui hi; ori lo` gives (hi << 16) \| lo, sign-extended |
| BuildVector.SignedFromLowWord | lib/Target/M6502/M6502SEISelDAGToDAG.cpp:1103-1130 | a 64-bit splat fitting 32 signed bits is its sign-extended low word |
| BuildVector.DinsuValue | lib/Target/M6502/M6502SEISelDAGToDAG.cpp:1248-1257 | DINSU(HiRes, 32, 32) on Res gives high:low |
| BuildVector.Dsll32Value | lib/Target/M6502/M6502SEISelDAGToDAG.cpp:1258-1263 | DSLL32 of the high word gives high:0 |
| BuildVector.EmitWord | lib/Target/M6502/M6502SEISelDAGToDAG.cpp:1089-1099 | the LUi/ORi chain holds hi:lo sign-extended; zero chunks are skipped and an all-zero word is the zero register |
| BuildVector.EmitLui | lib/Target/M6502/M6502SEISelDAGToDAG.cpp:1093-1095 | LUi only for a non-zero upper half |
| BuildVector.EmitOri | lib/Target/M6502/M6502SEISelDAGToDAG.cpp:1096-1099 | ORi only for a non-zero lower half |
| BuildVector.EmitSubregToReg | lib/Target/M6502/M6502SEISelDAGToDAG.cpp:1121-1127 | SUBREG_TO_REG keeps the value, with a one-bit hint |
| BuildVector.WidenIfNonZero | lib/Target/M6502/M6502SEISelDAGToDAG.cpp:1227-1240 | SUBREG_TO_REG only for a word that is not the zero register |
| BuildVector.EmitFill | lib/Target/M6502/M6502SEISelDAGToDAG.cpp:1067-1081 | FILL broadcasts the GPR's lane; FILL_D is the only form that needs 64-bit registers |
| BuildVector.EmitInsertW | lib/Target/M6502/M6502SEISelDAGToDAG.cpp:1205-1209 | INSERT_W of the last vector |
| BuildVector.EmitCopy | lib/Target/M6502/M6502SEISelDAGToDAG.cpp:1212-1216 | COPY_TO_REGCLASS of the last vector |
| BuildVector.EmitSplatiD | lib/Target/M6502/M6502SEISelDAGToDAG.cpp:1218-1220 | SPLATI_D of the last vector's doubleword lane |
| BuildVector.SynthesizeSigned16 | lib/Target/M6502/M6502SEISelDAGToDAG.cpp:1054-1082 | ADDiu (DADDiu only for N32/N64 doublewords) of Lo from the zero register, then FILL; the lanes hold the splat |
| BuildVector.EmitSigned16Scalar | lib/Target/M6502/M6502SEISelDAGToDAG.cpp:1065-1081 | the ADDiu/DADDiu node's value has the splat as its lane |
| BuildVector.Signed16Scalar | lib/Target/M6502/M6502SEISelDAGToDAG.cpp:1077-1081 | the add-immediate computes a value whose lane is the splat, and it fits O32 when 32-bit |
| BuildVector.Signed16Chunk | lib/Target/M6502/M6502SEISelDAGToDAG.cpp:1077 | the low 16 bits sign-extend back to the signed splat |
| BuildVector.SynthesizeWord | lib/Target/M6502/M6502SEISelDAGToDAG.cpp:1083-1102 | LUi/ORi and FILL_W leave the 32-bit splat in every lane, on any ABI |
| BuildVector.SynthesizeSignExtendedWord | lib/Target/M6502/M6502SEISelDAGToDAG.cpp:1103-1130 | LUi/ORi, SUBREG_TO_REG and FILL_D leave the 64-bit splat in every lane |
| BuildVector.SignExtendedWordOps | lib/Target/M6502/M6502SEISelDAGToDAG.cpp:1110-1129 | the same sequence for any doubleword equal to its sign-extended low word |
| BuildVector.EmitDoublewordHalves | lib/Target/M6502/M6502SEISelDAGToDAG.cpp:1181-1198 | Res holds the low word and HiRes the high word, each sign-extended or the zero register |
| BuildVector.SynthesizeDoublewordO32 | lib/Target/M6502/M6502SEISelDAGToDAG.cpp:1201-1220 | O32: FILL_W, INSERT_W, COPY_TO_REGCLASS and SPLATI_D leave the 64-bit splat in every lane using 32-bit registers only |
| BuildVector.BroadcastO32 | lib/Target/M6502/M6502SEISelDAGToDAG.cpp:1201-1220 | every doubleword lane becomes high:low |
| BuildVector.WordsAsDoubleword | lib/Target/M6502/M6502SEISelDAGToDAG.cpp:1212-1219 | words low, high, low, low read as doublewords give high:low in lane 0 |
| BuildVector.CombineWords | lib/Target/M6502/M6502SEISelDAGToDAG.cpp:1248-1264 | DINSU when Res is non-zero, else DSLL32: the result is high:low |
| BuildVector.EmitDinsu | lib/Target/M6502/M6502SEISelDAGToDAG.cpp:1248-1257 | the DINSU node's value is high:low |
| BuildVector.DinsuNode | lib/Target/M6502/M6502SEISelDAGToDAG.cpp:1248-1257 | DINSU evaluates to high:low |
| BuildVector.EmitDsll32 | lib/Target/M6502/M6502SEISelDAGToDAG.cpp:1258-1263 | the DSLL32 node's value is high:0 |
| BuildVector.SynthesizeDoublewordN64 | lib/Target/M6502/M6502SEISelDAGToDAG.cpp:1221-1268 | N32/N64: FILL_D of the joined halves leaves the 64-bit splat in every lane |
| BuildVector.SplatResidue | lib/Target/M6502/M6502SEISelDAGToDAG.cpp:1049-1053 | the signed reading of the splat reduces to its pattern in a lane |
| BuildVector.Signed10Range | lib/Target/M6502/M6502SEISelDAGToDAG.cpp:1049 | isSignedIntN(10) is LDI's -512..511 range |
| BuildVector.NotLdi | lib/Target/M6502/M6502SEISelDAGToDAG.cpp:1049-1053 | a splat LDI cannot take is non-zero and wider than 10 bits |
| BuildVector.NarrowDispatch | lib/Target/M6502/M6502SEISelDAGToDAG.cpp:1054-1131 | a splat no earlier branch takes is 64 bits wide |
| BuildVector.SynthesizeLdi | lib/Target/M6502/M6502SEISelDAGToDAG.cpp:1049-1053 | one LDI of the signed value, which leaves the splat in every lane |
| BuildVector.LdiNode | lib/Target/M6502/M6502SEISelDAGToDAG.cpp:1049-1053 | the LDI node fills the lanes and encodes |
| BuildVector.SynthesizeSplat | lib/Target/M6502/M6502SEISelDAGToDAG.cpp:1044-1272 | for every splat of a supported width: the lanes hold it; a 10-bit value is a single LDI; otherwise the last node is FILL or SPLATI_D, SPLATI_D for O32 doublewords; every node is encodable; on O32 none needs 64-bit registers |
| BuildVector.SynthesizeDoubleword | lib/Target/M6502/M6502SEISelDAGToDAG.cpp:1131-1270 | the isSignedIntN(64) branch by ABI, with the same guarantees |
| BuildVector.SelectBuildVector | lib/Target/M6502/M6502SEISelDAGToDAG.cpp:989-1291 | selected iff MSA, a 128-bit type, a constant splat and a size of 8/16/32/64; the result then holds the splat in every lane with the node's type, a 10-bit splat is one LDI (plus the type fix-up), and every node is encodable, fitting O32 on O32 |
| BuildVector.FixUpType | lib/Target/M6502/M6502SEISelDAGToDAG.cpp:1273-1286 | the sequence is kept, with one COPY_TO_REGCLASS appended iff ResVecTy != ViaVecTy; the lanes are unchanged and the node gets the result type |
| ConstantSelect.SelectConstant | lib/Target/M6502/M6502SEISelDAGToDAG.cpp:815-855 | handled iff the constant does not fit 32 signed bits; then node i is instruction i with its immediate sign-extended from 16 bits, the first taking no register (LUi64) or $zero_64, each later one taking the previous node |
| ConstantSelect.ChainComputesRun | lib/Target/M6502/M6502SEISelDAGToDAG.cpp:828-852 | the chain is acyclic, and node i holds the value of the first i+1 instructions |
| ConstantSelect.ChainResult | lib/Target/M6502/M6502SEISelDAGToDAG.cpp:852-854 | the node that replaces the constant holds the value of the whole sequence |
| CarryChain.SelectAddE | lib/Target/M6502/M6502SEISelDAGToDAG.cpp:248-306 | the last node is ADDWC(LHS, RHS, ·), and it is the only node exactly when the carry comes from ADDC |
| CarryChain.SelectAddEWellFormed | lib/Target/M6502/M6502SEISelDAGToDAG.cpp:279-305 | every node reference points to an earlier node |
| CarryChain.SelectAddENoDeadNodes | lib/Target/M6502/M6502SEISelDAGToDAG.cpp:279-305 | every node except the ADDWC feeds a later one |
| CarryChain.SelectAddEFlagOnce | lib/Target/M6502/M6502SEISelDAGToDAG.cpp:256-282 | the incoming carry is read exactly once: by ADDWC after ADDC, by RDDSP after ADDE |
| CarryChain.SelectAddEOperandsOnlyLast | lib/Target/M6502/M6502SEISelDAGToDAG.cpp:302-305 | LHS and RHS reach only the ADDWC |
| CarryChain.SelectAddEChained | lib/Target/M6502/M6502SEISelDAGToDAG.cpp:279-303 | RDDSP and WRDSP use mask 1; EXT takes bit 20 (size 1); the second INS clears bit 20 from $zero |
| PostISel.MSACtrlReg | lib/Target/M6502/M6502SEISelDAGToDAG.cpp:78-91 | index i names the control register at position i of the MSA table |
| PostISel.MSACtrlRegInjective | lib/Target/M6502/M6502SEISelDAGToDAG.cpp:78-91 | distinct indices 0..7 give distinct registers |
| PostISel.ImplicitOperands | lib/Target/M6502/M6502SEISelDAGToDAG.cpp:55-56 | one operand per register, each an implicit def (WRDSP) or an implicit undef use (RDDSP) |
| PostISel.DSPCtrlRegsSelect | lib/Target/M6502/M6502SEISelDAGToDAG.cpp:58-75 | register k is added iff mask bit k is set (k in 0..5), each at most once, in increasing bit order |
| PostISel.AddIfSet | lib/Target/M6502/M6502SEISelDAGToDAG.cpp:58-75 | one mask test extends the operand list, from bits 0..k-1 to bits 0..k |
| PostISel.DSPCtrlOperands | lib/Target/M6502/M6502SEISelDAGToDAG.cpp:52-76 | the six tests give the operands for every mask bit |
| PostISel.MachineFunction.AddDSPCtrlRegOperands | lib/Target/M6502/M6502SEISelDAGToDAG.cpp:52-76 | only instruction mi changes, and only by appending the implicit operands its mask selects |
| PostISel.ZeroMove | lib/Target/M6502/M6502SEISelDAGToDAG.cpp:96-113 | a match iff MI is `addiu $dst, $zero, 0` or `daddiu $dst, $zero_64, 0` with a real destination; it gives dst and that zero register |
| PostISel.RewriteUsesChanges | lib/Target/M6502/M6502SEISelDAGToDAG.cpp:116-133 | the rewrite keeps every instruction's shape; an operand changes iff it is a use of dst outside a PHI, pseudo or tied position, the class allows zero, and zero differs from dst; it then names zero |
| PostISel.RewriteUsesComplete | lib/Target/M6502/M6502SEISelDAGToDAG.cpp:116-133 | afterwards no retargetable use of dst remains |
| PostISel.RewriteUsesIdempotent | lib/Target/M6502/M6502SEISelDAGToDAG.cpp:116-133 | rewriting twice is rewriting once |
| PostISel.MachineFunction.RewriteUsesIn | lib/Target/M6502/M6502SEISelDAGToDAG.cpp:116-133 | the in-place loop over one instruction's operands equals the rewrite of that instruction and changes nothing else |
| PostISel.MachineFunction.ReplaceUsesWithZeroReg | lib/Target/M6502/M6502SEISelDAGToDAG.cpp:93-136 | returns true iff MI is a zero move; then the function is the rewrite of the old one, and otherwise it is unchanged |
| AbiFlags.RevisionCandidates | lib/Target/M6502/MCTargetDesc/M6502ABIFlagsSection.h:84-106 | revision 1 is always a candidate of the 32/64-bit families |
| AbiFlags.Revision | lib/Target/M6502/MCTargetDesc/M6502ABIFlagsSection.h:87-108 | the chain r6, r5, r3, r2, else 1 picks the highest declared revision |
| AbiFlags.HighestUnique | lib/Target/M6502/MCTargetDesc/M6502ABIFlagsSection.h:84-124 | the highest declared level or revision is unique |
| AbiFlags.FpAbiOf | lib/Target/M6502/MCTargetDesc/M6502ABIFlagsSection.h:167-183 | SOFT iff soft float; otherwise S64 for N32/N64; for O32: XX for FPXX, then S64 for FP64, else S32; ANY with no ABI |
| AbiFlags.DerivedIsDetermined | lib/Target/M6502/MCTargetDesc/M6502ABIFlagsSection.h:186-194 | two records derived from the same predicates agree on every field setAllFromPredicates sets |
| AbiFlags.DerivedIdempotent | lib/Target/M6502/MCTargetDesc/M6502ABIFlagsSection.h:186-194 | deriving a second time from the same predicates changes nothing |
| AbiFlags.M6502ABIFlagsSection.constructor | lib/Target/M6502/MCTargetDesc/M6502ABIFlagsSection.h:26-52 | the default member initializers: zeros, AFL_REG_NONE, AFL_EXT_NONE, empty ASE set, false, ANY |
| AbiFlags.M6502ABIFlagsSection.GetFlags1Value | lib/Target/M6502/MCTargetDesc/M6502ABIFlagsSection.h:64-71 | only ODDSPREG can be set, and it is set iff OddSPReg |
| AbiFlags.M6502ABIFlagsSection.GetFlags2Value | lib/Target/M6502/MCTargetDesc/M6502ABIFlagsSection.h:73 | always 0 |
| AbiFlags.M6502ABIFlagsSection.SetFpABI | lib/Target/M6502/MCTargetDesc/M6502ABIFlagsSection.h:76-79 | sets FpABI and Is32BitABI and no other field |
| AbiFlags.M6502ABIFlagsSection.SetISALevelAndRevisionFromPredicates | lib/Target/M6502/MCTargetDesc/M6502ABIFlagsSection.h:84-124 | 64 with the highest 64-bit revision, else 32 with the highest 32-bit revision, else the highest of levels I-V with revision 0; no other field changes; some level must be declared |
| AbiFlags.M6502ABIFlagsSection.SetGPRSizeFromPredicates | lib/Target/M6502/MCTargetDesc/M6502ABIFlagsSection.h:127-129 | AFL_REG_64 iff isGP64bit, else AFL_REG_32; nothing else changes |
| AbiFlags.M6502ABIFlagsSection.SetCPR1SizeFromPredicates | lib/Target/M6502/MCTargetDesc/M6502ABIFlagsSection.h:132-139 | NONE iff soft float, 128 iff MSA without soft float, then 64 for FP64, else 32; nothing else changes |
| AbiFlags.M6502ABIFlagsSection.SetISAExtensionFromPredicates | lib/Target/M6502/MCTargetDesc/M6502ABIFlagsSection.h:142-147 | OCTEON iff cnMIPS, else NONE; nothing else changes |
| AbiFlags.M6502ABIFlagsSection.SetASESetFromPredicates | lib/Target/M6502/MCTargetDesc/M6502ABIFlagsSection.h:150-164 | ASESet is exactly the enabled ASEs, whatever it held before; nothing else changes |
| AbiFlags.M6502ABIFlagsSection.SetFpAbiFromPredicates | lib/Target/M6502/MCTargetDesc/M6502ABIFlagsSection.h:167-183 | Is32BitABI == isABI_O32 and FpABI follows the precedence chain; nothing else changes |
| AbiFlags.M6502ABIFlagsSection.SetAllFromPredicates | lib/Target/M6502/MCTargetDesc/M6502ABIFlagsSection.h:186-194 | every field is derived from the predicates, OddSPReg == useOddSPReg, and Version and CPR2Size are kept |
| Bits.SignExtend16 | lib/Target/M6502/M6502SEISelDAGToDAG.cpp:830-831 | SignExtend64<16>: the signed 16-bit reading of the low half |

## Left out

- SelectVSplatMaskR: for an all-zero v16i8 or v8i16 splat the C++ code asks for the constant 0xFFFFFFFF in an 8- or 16-bit element type. A build with assertions aborts in getConstant; the model gives the truncated 0xff or 0xffff that a build without them produces.
- SelectVSplatMaskL: the same zero-splat case as SelectVSplatMaskR.

- The `M6502AnalyzeImmediate` analyser used by the ISD::Constant case is not part of this model. Its instruction sequence is an input, and what each opcode computes is a parameter.
- `CarryChain.SelectAddE` models only which nodes are built and their operands. The DSP control-register bits they move are not modelled, because the source itself doubts its reading of the hardware.
- The `Mips::AFL_*` codes are abstract: one constant per register size, extension, ASE and flag, and an ASE mask is the set of its bits.
- `getCPR1SizeValue`, `getFpABIValue`, `getFpABIString` and `operator<<` are defined in a file that is not part of this model.
- The plain getters of `M6502ABIFlagsSection` are field reads and carry no contract.
- `AbiFlags.M6502ABIFlagsSection.SetASESetFromPredicates` sets the field once from a local set. The source ORs bits into the field one at a time, but the result is the same, because the field is cleared first.
- `AbiFlags.M6502ABIFlagsSection.SetISALevelAndRevisionFromPredicates` requires some ISA level to be declared. The source reaches `llvm_unreachable` otherwise.
- `runOnMachineFunction`, `getAnalysisUsage`, `createM6502SEISelDag` and the iteration of `processFunctionAfterISel` are pass plumbing and are left out.
- `initGlobalBaseReg` emits instructions and relocation symbols through BuildMI and is left out.
- The ISD::ConstantFP case is a floating-point test and is left out.
- The ThreadPointer case is a fixed register choice and is left out.
- The intrinsic cases that call `getMSACtrlReg` are left out. Only the table is modelled.
- `isConstantSplat`, `isBaseWithConstantOffset` and the BITCAST look-through are LLVM library internals. Their answers are inputs.
- Node creation in the SelectionDAG is modelled as appending to a sequence. Sharing and CSE of nodes are not modelled.
- `BuildVector.EmitSubregToReg`: the SUBREG_TO_REG hint operand is kept as a number and given no meaning beyond being one bit.
- `MachineOps.DoublewordLanes`: only the word-to-doubleword reinterpretation that the O32 path uses is modelled.
- `MachineOps.EvalInsertW` requires a word vector, because the O32 path inserts only into the FILL_W result.
- `PostISel.MachineFunction.ReplaceUsesWithZeroReg`: register classes are a parameter `classContains(reg, zero)`, not LLVM's register class tables.
- `PostISel.MachineFunction.ReplaceUsesWithZeroReg` models the use list as instruction order, then operand order. The source walks the list in the register info's own order, but the result is the same, because each operand is changed independently.
- `PostISel.ZeroMove` requires an ADDiu or DADDiu to have register operands 0 and 1 and at least three operands. The source reads them without checking.
- `PostISel.MachineFunction.AddDSPCtrlRegOperands` reads the 64-bit mask immediate bit by bit. This matches the source's truncation to `unsigned`, because only bits 0 to 5 are tested.
- `ConstantSelect.SelectConstant` requires a non-empty analyser sequence for constants wider than 32 bits. The source dereferences its first element unchecked.
- The widths of the `unsigned` and `uint64_t` values in the address matchers are modelled only where they matter: the 32-bit `CnstOff` of LW16, and the Ins sums (see Findings).

## Findings

| source | as written | input that shows it | evidently intended | confidence | as-written member | corrected member |
|---|---|---|---|---|---|---|
| lib/Target/M6502/M6502SEISelDAGToDAG.cpp:935-944 | `Pos + Size > 64` and `Pos + Size <= 32` are computed in `uint64_t` and wrap around for a huge `Pos` | an i32 Ins node with Pos = 2^64 - 1 and Size = 2: the sum wraps to 1, so INS is selected for a field that no 32-bit register holds | reject any field that does not end by bit 64 | low in practice (such a position would need an out-of-range constant operand); not executed | BitfieldInsert.SelectInsAsWritten, BitfieldInsert.AsWrittenWrapSelectsUnencodable | BitfieldInsert.SelectIns |
