/** The fix-ups selection applies to single machine instructions: the MSA
    control-register table, the implicit DSP control-register operands of
    RDDSP/WRDSP, and the rewrite of uses of a register set to zero into uses
    of the zero register itself.

    A machine function is the sequence of its instructions; an instruction is
    its opcode, its operand list and the two facts the rewrite consults
    (pseudo or not, which operands are tied to a def). Register classes are
    a parameter: `classContains(r, z)` says whether the class of virtual
    register r contains physical register z. */
module PostISel {
  import opened Wrappers
  import opened Bits

  datatype Register =
    | NoRegister | ZERO | ZERO_64
    | DSPPos | DSPSCount | DSPCarry | DSPOutFlag | DSPCCond | DSPEFI
    | MSAIR | MSACSR | MSAAccess | MSASave | MSAModify | MSARequest | MSAMap | MSAUnmap
    | VirtReg(id: nat) | OtherReg(id: nat)

  datatype Opcode = ADDiu | DADDiu | PHI | RDDSP | WRDSP | OtherOpcode(id: nat)

  /** A register operand with its def/implicit/undef state, an immediate, or
      any other kind (a symbol, a block, ...). */
  datatype Operand =
    | RegOperand(reg: Register, isDef: bool, isImplicit: bool, isUndef: bool)
    | ImmOperand(imm: int)
    | OtherOperand

  datatype Instr = Instr(opcode: Opcode, operands: seq<Operand>, isPseudo: bool, tiedToDef: set<nat>)

  // ---- getMSACtrlReg ----

  /** The index a control register has in the MSA table, if it is one. */
  function MSAIndex(r: Register): Option<nat>
  {
    match r
    case MSAIR => Some(0)
    case MSACSR => Some(1)
    case MSAAccess => Some(2)
    case MSASave => Some(3)
    case MSAModify => Some(4)
    case MSARequest => Some(5)
    case MSAMap => Some(6)
    case MSAUnmap => Some(7)
    case _ => None
  }

  /** Indices beyond 7 reach llvm_unreachable in getMSACtrlReg. */
  function MSACtrlReg(idx: nat): (r: Register)
    requires idx < 8
    ensures MSAIndex(r) == Some(idx)
  {
    if idx == 0 then MSAIR
    else if idx == 1 then MSACSR
    else if idx == 2 then MSAAccess
    else if idx == 3 then MSASave
    else if idx == 4 then MSAModify
    else if idx == 5 then MSARequest
    else if idx == 6 then MSAMap
    else MSAUnmap
  }

  /** The table maps the eight indices to eight distinct control registers. */
  lemma MSACtrlRegInjective(i: nat, j: nat)
    requires i < 8 && j < 8 && i != j
    ensures MSACtrlReg(i) != MSACtrlReg(j)
  {
    assert MSAIndex(MSACtrlReg(i)) != MSAIndex(MSACtrlReg(j));
  }

  // ---- addDSPCtrlRegOperands ----

  /** Bit k of the mask immediate. Dafny's `/` and `%` floor for a positive
      divisor, so this is bit k of the two's-complement value; truncating the
      64-bit immediate to `unsigned` keeps bits 0 to 5. */
  predicate MaskBit(mask: int, k: nat)
  {
    (mask / Pow2(k)) % 2 == 1
  }

  /** The DSP control registers in the order the mask bits name them. */
  function DSPCtrlReg(k: nat): Register
    requires k < 6
  {
    if k == 0 then DSPPos
    else if k == 1 then DSPSCount
    else if k == 2 then DSPCarry
    else if k == 3 then DSPOutFlag
    else if k == 4 then DSPCCond
    else DSPEFI
  }

  /** The position of a DSP control register in that order; 6 for any other. */
  function DSPRank(r: Register): nat
  {
    match r
    case DSPPos => 0
    case DSPSCount => 1
    case DSPCarry => 2
    case DSPOutFlag => 3
    case DSPCCond => 4
    case DSPEFI => 5
    case _ => 6
  }

  /** The registers that mask bits 0 to k-1 select, in bit order. */
  function DSPCtrlRegs(mask: int, k: nat): seq<Register>
    requires k <= 6
  {
    if k == 0 then []
    else DSPCtrlRegs(mask, k - 1) + (if MaskBit(mask, k - 1) then [DSPCtrlReg(k - 1)] else [])
  }

  /** The implicit operand for a control register: an implicit def for WRDSP,
      an implicit undef use for RDDSP. */
  function ImplicitReg(reg: Register, isDef: bool): Operand
  {
    RegOperand(reg, isDef, true, !isDef)
  }

  function ImplicitOperands(regs: seq<Register>, isDef: bool): (r: seq<Operand>)
    ensures |r| == |regs|
    ensures forall i :: 0 <= i < |regs| ==> r[i] == ImplicitReg(regs[i], isDef)
  {
    if regs == [] then [] else [ImplicitReg(regs[0], isDef)] + ImplicitOperands(regs[1..], isDef)
  }

  lemma ImplicitOperandsSnoc(regs: seq<Register>, reg: Register, isDef: bool)
    ensures ImplicitOperands(regs + [reg], isDef) == ImplicitOperands(regs, isDef) + [ImplicitReg(reg, isDef)]
  {
    var a := ImplicitOperands(regs + [reg], isDef);
    var b := ImplicitOperands(regs, isDef) + [ImplicitReg(reg, isDef)];
    assert |a| == |b|;
    assert forall i :: 0 <= i < |a| ==> a[i] == b[i];
  }

  /** Register k is selected exactly when mask bit k is set, each register at
      most once, in strictly increasing bit order. */
  lemma {:induction false} DSPCtrlRegsSelect(mask: int, k: nat)
    requires k <= 6
    ensures forall j :: 0 <= j < 6 ==> (DSPCtrlReg(j) in DSPCtrlRegs(mask, k) <==> j < k && MaskBit(mask, j))
    ensures forall i :: 0 <= i < |DSPCtrlRegs(mask, k)| ==> DSPRank(DSPCtrlRegs(mask, k)[i]) < k
    ensures forall i, j :: 0 <= i < j < |DSPCtrlRegs(mask, k)| ==>
      DSPRank(DSPCtrlRegs(mask, k)[i]) < DSPRank(DSPCtrlRegs(mask, k)[j])
  {
    if k > 0 {
      DSPCtrlRegsSelect(mask, k - 1);
      assert forall j :: 0 <= j < 6 ==> DSPRank(DSPCtrlReg(j)) == j;
    }
  }

  // ---- replaceUsesWithZeroReg ----

  /** What replaceUsesWithZeroReg reads without checking: an ADDiu or DADDiu has a
      register destination and a register first source. */
  predicate WellFormed(mi: Instr)
  {
    (mi.opcode == ADDiu || mi.opcode == DADDiu) ==>
      |mi.operands| >= 3 && mi.operands[0].RegOperand? && mi.operands[1].RegOperand?
  }

  /** The zero register of the width an add-immediate works on. */
  function ZeroRegOf(opc: Opcode): Register
  {
    if opc == DADDiu then ZERO_64 else ZERO
  }

  /** The destination and zero register of `addiu $dst, $zero, 0` or
      `daddiu $dst, $zero_64, 0`; a missing destination register is no match. */
  function ZeroMove(mi: Instr): (r: Option<(Register, Register)>)
    requires WellFormed(mi)
    ensures r.Some? <==> (mi.opcode == ADDiu || mi.opcode == DADDiu) && mi.operands[1].reg == ZeroRegOf(mi.opcode)
                         && mi.operands[2] == ImmOperand(0) && mi.operands[0].reg != NoRegister
    ensures r.Some? ==> r.value == (mi.operands[0].reg, ZeroRegOf(mi.opcode))
  {
    if mi.opcode == ADDiu && mi.operands[1].reg == ZERO && mi.operands[2] == ImmOperand(0)
       && mi.operands[0].reg != NoRegister then
      Some((mi.operands[0].reg, ZERO))
    else if mi.opcode == DADDiu && mi.operands[1].reg == ZERO_64 && mi.operands[2] == ImmOperand(0)
       && mi.operands[0].reg != NoRegister then
      Some((mi.operands[0].reg, ZERO_64))
    else None
  }

  /** Operand k of mi is on the use list of dst and the rewrite may retarget
      it: a plain use, not in a PHI or a pseudo, not tied to a def. */
  predicate Eligible(mi: Instr, k: nat, dst: Register)
  {
    k < |mi.operands| && mi.operands[k].RegOperand? && !mi.operands[k].isDef && mi.operands[k].reg == dst
    && mi.opcode != PHI && k !in mi.tiedToDef && !mi.isPseudo
  }

  function RewriteOperand(mi: Instr, k: nat, dst: Register, zero: Register, allowed: bool): Operand
    requires k < |mi.operands|
  {
    if allowed && Eligible(mi, k, dst) then mi.operands[k].(reg := zero) else mi.operands[k]
  }

  function RewriteInstr(mi: Instr, dst: Register, zero: Register, allowed: bool): Instr
  {
    mi.(operands := seq(|mi.operands|, k requires 0 <= k < |mi.operands| => RewriteOperand(mi, k, dst, zero, allowed)))
  }

  /** Every use of dst the rewrite may retarget now names zero; `allowed` is
      whether the register class of dst contains zero. */
  function RewriteUses(instrs: seq<Instr>, dst: Register, zero: Register, allowed: bool): seq<Instr>
  {
    seq(|instrs|, i requires 0 <= i < |instrs| => RewriteInstr(instrs[i], dst, zero, allowed))
  }

  /** The rewrite keeps every instruction's shape, and an operand changes
      exactly when it is an eligible use of dst (and zero is a different
      register that the class allows); it then names zero and keeps its flags. */
  lemma RewriteUsesChanges(instrs: seq<Instr>, dst: Register, zero: Register, allowed: bool, i: nat, k: nat)
    requires i < |instrs| && k < |instrs[i].operands|
    ensures |RewriteUses(instrs, dst, zero, allowed)| == |instrs|
    ensures RewriteUses(instrs, dst, zero, allowed)[i].opcode == instrs[i].opcode
    ensures RewriteUses(instrs, dst, zero, allowed)[i].isPseudo == instrs[i].isPseudo
    ensures RewriteUses(instrs, dst, zero, allowed)[i].tiedToDef == instrs[i].tiedToDef
    ensures |RewriteUses(instrs, dst, zero, allowed)[i].operands| == |instrs[i].operands|
    ensures (RewriteUses(instrs, dst, zero, allowed)[i].operands[k] != instrs[i].operands[k])
      <==> (allowed && Eligible(instrs[i], k, dst) && dst != zero)
    ensures allowed && Eligible(instrs[i], k, dst) ==>
      RewriteUses(instrs, dst, zero, allowed)[i].operands[k] == instrs[i].operands[k].(reg := zero)
  {
  }

  /** Afterwards no use of dst is left that the rewrite could retarget. */
  lemma RewriteUsesComplete(instrs: seq<Instr>, dst: Register, zero: Register, i: nat, k: nat)
    requires dst != zero && i < |instrs|
    ensures !Eligible(RewriteUses(instrs, dst, zero, true)[i], k, dst)
  {
  }

  /** Rewriting a second time changes nothing. */
  lemma RewriteUsesIdempotent(instrs: seq<Instr>, dst: Register, zero: Register, allowed: bool)
    ensures RewriteUses(RewriteUses(instrs, dst, zero, allowed), dst, zero, allowed)
      == RewriteUses(instrs, dst, zero, allowed)
  {
    var once := RewriteUses(instrs, dst, zero, allowed);
    var twice := RewriteUses(once, dst, zero, allowed);
    forall i | 0 <= i < |instrs|
      ensures twice[i] == once[i]
    {
      assert twice[i].operands == once[i].operands;
    }
  }

  /** One test of the mask: bit k set appends the implicit operand for register k. */
  method AddIfSet(added: seq<Operand>, mask: int, k: nat, isDef: bool) returns (added': seq<Operand>)
    requires k < 6 && added == ImplicitOperands(DSPCtrlRegs(mask, k), isDef)
    ensures added' == ImplicitOperands(DSPCtrlRegs(mask, k + 1), isDef)
  {
    added' := added;
    if MaskBit(mask, k) {
      added' := added' + [ImplicitReg(DSPCtrlReg(k), isDef)];
    }
    ImplicitOperandsSnoc(DSPCtrlRegs(mask, k), DSPCtrlReg(k), isDef);
  }

  /** The operands MIB.addReg appends, one test of the mask per register. */
  method DSPCtrlOperands(mask: int, isDef: bool) returns (added: seq<Operand>)
    ensures added == ImplicitOperands(DSPCtrlRegs(mask, 6), isDef)
  {
    added := [];
    added := AddIfSet(added, mask, 0, isDef);
    added := AddIfSet(added, mask, 1, isDef);
    added := AddIfSet(added, mask, 2, isDef);
    added := AddIfSet(added, mask, 3, isDef);
    added := AddIfSet(added, mask, 4, isDef);
    added := AddIfSet(added, mask, 5, isDef);
  }

  class MachineFunction {
    var instrs: seq<Instr>

    constructor(instrs: seq<Instr>)
      ensures this.instrs == instrs
    {
      this.instrs := instrs;
    }

    /** Appends one implicit operand per mask bit of operand 1, in bit order,
        to instruction mi (RDDSP when !isDef, WRDSP when isDef). */
    method AddDSPCtrlRegOperands(isDef: bool, mi: nat)
      requires mi < |instrs| && |instrs[mi].operands| > 1 && instrs[mi].operands[1].ImmOperand?
      modifies this
      ensures instrs == old(instrs)[mi := old(instrs)[mi].(operands := old(instrs)[mi].operands
                + ImplicitOperands(DSPCtrlRegs(old(instrs)[mi].operands[1].imm, 6), isDef))]
    {
      var mask := instrs[mi].operands[1].imm;
      var added := DSPCtrlOperands(mask, isDef);
      instrs := instrs[mi := instrs[mi].(operands := instrs[mi].operands + added)];
    }

    /** The uses of dst among the operands of instruction i, visited in order:
        each that the rewrite may retarget is set to zero in place. */
    method RewriteUsesIn(i: nat, dst: Register, zero: Register, classContains: (Register, Register) -> bool)
      requires i < |instrs|
      modifies this
      ensures instrs == old(instrs)[i := RewriteInstr(old(instrs)[i], dst, zero, classContains(dst, zero))]
    {
      ghost var allowed := classContains(dst, zero);
      ghost var user0 := instrs[i];
      var k := 0;
      while k < |instrs[i].operands|
        invariant i < |instrs| == |old(instrs)|
        invariant instrs == old(instrs)[i := instrs[i]]
        invariant k <= |instrs[i].operands| == |user0.operands|
        invariant instrs[i].opcode == user0.opcode && instrs[i].isPseudo == user0.isPseudo
        invariant instrs[i].tiedToDef == user0.tiedToDef
        invariant forall u :: 0 <= u < k ==> instrs[i].operands[u] == RewriteOperand(user0, u, dst, zero, allowed)
        invariant forall u :: k <= u < |instrs[i].operands| ==> instrs[i].operands[u] == user0.operands[u]
      {
        var mo := instrs[i].operands[k];
        var user := instrs[i];
        if mo.RegOperand? && !mo.isDef && mo.reg == dst {
          if user.opcode == PHI || k in user.tiedToDef || user.isPseudo {
            // skipped: a PHI, pseudo or tied user keeps the register
          } else if classContains(mo.reg, zero) {
            instrs := instrs[i := user.(operands := user.operands[k := mo.(reg := zero)])];
          }
        }
        k := k + 1;
      }
      assert instrs[i].operands == RewriteInstr(user0, dst, zero, allowed).operands;
    }

    /** If mi is a move of zero, retargets every eligible use of its
        destination, across the function, to the zero register, and reports
        whether mi was such a move. */
    method ReplaceUsesWithZeroReg(mi: Instr, classContains: (Register, Register) -> bool) returns (replaced: bool)
      requires WellFormed(mi)
      modifies this
      ensures replaced <==> ZeroMove(mi).Some?
      ensures replaced ==> instrs == RewriteUses(old(instrs), ZeroMove(mi).value.0, ZeroMove(mi).value.1,
                                                 classContains(ZeroMove(mi).value.0, ZeroMove(mi).value.1))
      ensures !replaced ==> instrs == old(instrs)
    {
      var dstReg, zeroReg := NoRegister, NoRegister;
      if mi.opcode == ADDiu && mi.operands[1].reg == ZERO && mi.operands[2].ImmOperand? && mi.operands[2].imm == 0 {
        dstReg, zeroReg := mi.operands[0].reg, ZERO;
      } else if mi.opcode == DADDiu && mi.operands[1].reg == ZERO_64 && mi.operands[2].ImmOperand?
                && mi.operands[2].imm == 0 {
        dstReg, zeroReg := mi.operands[0].reg, ZERO_64;
      }
      if dstReg == NoRegister {
        return false;
      }
      assert ZeroMove(mi) == Some((dstReg, zeroReg));
      ghost var allowed := classContains(dstReg, zeroReg);
      var i := 0;
      while i < |instrs|
        invariant i <= |instrs| == |old(instrs)|
        invariant forall t :: 0 <= t < i ==> instrs[t] == RewriteInstr(old(instrs)[t], dstReg, zeroReg, allowed)
        invariant forall t :: i <= t < |instrs| ==> instrs[t] == old(instrs)[t]
      {
        RewriteUsesIn(i, dstReg, zeroReg, classContains);
        i := i + 1;
      }
      assert instrs == RewriteUses(old(instrs), dstReg, zeroReg, allowed);
      return true;
    }
  }
}
