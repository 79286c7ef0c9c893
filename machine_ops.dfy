/** The machine nodes that the MSA splat synthesis emits, and an evaluator that
    gives each node's result from the results of the nodes before it.

    General-purpose registers hold 64-bit patterns, as on MIPS64: the 32-bit
    operations (LUi, ADDiu) sign-extend their 32-bit result into the register.
    Under the O32 ABI only the low 32 bits of a register are ever read, so the
    same evaluator serves both register widths.  A vector register value keeps
    the lanes of the format that wrote it; lane i of width w is bits
    [i * w, (i + 1) * w) of the 128-bit register. */
module MachineOps {
  import opened Wrappers
  import opened Bits
  import BitfieldInsert

  /** MSA data formats: byte, halfword, word and doubleword lanes. */
  datatype DataFormat = B | H | W | D

  function EltBits(df: DataFormat): (r: nat)
    ensures r in {8, 16, 32, 64}
  {
    match df
    case B => 8
    case H => 16
    case W => 32
    case D => 64
  }

  function LaneCount(df: DataFormat): (r: nat)
    ensures r * EltBits(df) == 128
  {
    match df
    case B => 16
    case H => 8
    case W => 4
    case D => 2
  }

  /** A vector value type: element kind, element width and lane count. */
  datatype VecType = VecType(isFloat: bool, eltBits: nat, lanes: nat)

  predicate Is128(t: VecType)
  {
    t.eltBits * t.lanes == 128
  }

  /** The integer vector type whose lanes have the given format (v16i8 … v2i64). */
  function IntVecType(df: DataFormat): (t: VecType)
    ensures Is128(t) && !t.isFloat && t.eltBits == EltBits(df)
  {
    VecType(false, EltBits(df), LaneCount(df))
  }

  /** A register operand: a hardwired zero register, or the result of the
      node at the given position of the emitted sequence. */
  datatype Reg = Zero | Zero64 | Node(index: nat)

  datatype MachineOp =
    | LDI(df: DataFormat, simm: int)
    | ADDiu(src: Reg, imm: nat)
    | DADDiu(src: Reg, imm: nat)
    | LUi(imm: nat)
    | ORi(src: Reg, imm: nat)
    | SubregToReg(hint: nat, src: Reg)
    | DINSU(field: Reg, pos: nat, size: nat, base: Reg)
    | DSLL32(src: Reg, shift: nat)
    | FILL(df: DataFormat, src: Reg)
    | INSERT_W(vec: Reg, src: Reg, lane: nat)
    | SPLATI_D(vec: Reg, lane: nat)
    | CopyToRegClass(vec: Reg, ty: VecType)

  /** Operations that exist only on 64-bit GPRs (or read ZERO_64), which an
      O32 target cannot execute. */
  predicate Needs64BitGprs(op: MachineOp)
  {
    op.DADDiu? || op.SubregToReg? || op.DINSU? || op.DSLL32?
    || (op.FILL? && op.df == D)
    || (op.ADDiu? && op.src == Zero64) || (op.ORi? && op.src == Zero64)
  }

  /** The node's immediates fit their instruction fields: s10 for LDI, 16 bits
      for the GPR immediates, a one-bit SUBREG_TO_REG hint, a DINSU field in
      the high word, a 5-bit shift, and lane indices within the register. */
  predicate Encodable(op: MachineOp)
  {
    match op
    case LDI(_, simm) => -512 <= simm < 512
    case ADDiu(_, imm) => imm < TWO_16
    case DADDiu(_, imm) => imm < TWO_16
    case LUi(imm) => imm < TWO_16
    case ORi(_, imm) => imm < TWO_16
    case SubregToReg(hint, _) => hint < 2
    case DINSU(_, pos, size, _) => BitfieldInsert.Encodable(BitfieldInsert.DINSU, pos, size)
    case DSLL32(_, shift) => shift < 32
    case FILL(_, _) => true
    case INSERT_W(_, _, lane) => lane < 4
    case SPLATI_D(_, lane) => lane < 2
    case CopyToRegClass(_, ty) => Is128(ty)
  }

  datatype Value = Gpr(v: nat) | Vec(ty: VecType, df: DataFormat, lanes: seq<nat>) | Undefined

  /** Every lane of format `df` holds `x`. */
  function Splat(x: nat, df: DataFormat): (r: seq<nat>)
    ensures |r| == LaneCount(df) && forall i :: 0 <= i < |r| ==> r[i] == x
  {
    Repeat(x, LaneCount(df))
  }

  /** `x` reduced to a lane of format `df` (the low EltBits(df) bits). */
  function LaneMod(x: int, df: DataFormat): nat
  {
    match df
    case B => x % 0x100
    case H => x % TWO_16
    case W => x % TWO_32
    case D => x % TWO_64
  }

  lemma LaneModIsMod(x: int, df: DataFormat)
    ensures LaneMod(x, df) == x % Pow2(EltBits(df)) && LaneMod(x, df) < Pow2(EltBits(df))
  {
    Pow2Small();
    Pow2Wide();
  }

  /** `x` shifted left by `n` bits. */
  function ShiftLeft(x: nat, n: nat): nat
  {
    if n == 0 then x else 2 * ShiftLeft(x, n - 1)
  }

  lemma {:induction false} ShiftLeftIsProduct(x: nat, n: nat)
    ensures ShiftLeft(x, n) == x * Pow2(n)
  {
    if n > 0 {
      ShiftLeftIsProduct(x, n - 1);
      MulDouble(x, Pow2(n - 1));
    }
  }

  /** The doubleword lanes of a vector register.  A register written with word
      lanes holds doubleword i in words 2i (low half) and 2i + 1; other
      reinterpretations are not modelled and read as no lanes. */
  function DoublewordLanes(v: Value): (r: seq<nat>)
    requires v.Vec?
    ensures v.df == W && |v.lanes| == 4 ==>
      |r| == 2 && r[0] == v.lanes[0] + TWO_32 * v.lanes[1] && r[1] == v.lanes[2] + TWO_32 * v.lanes[3]
  {
    if v.df == D then v.lanes
    else if v.df == W && |v.lanes| == 4 then
      [v.lanes[0] + TWO_32 * v.lanes[1], v.lanes[2] + TWO_32 * v.lanes[3]]
    else []
  }

  /** The general-purpose value an operand names, if it names one. */
  function GprOf(r: Reg, vals: seq<Value>): (g: Option<nat>)
    ensures (r == Zero || r == Zero64) ==> g == Some(0)
    ensures r.Node? ==> (g.Some? <==> r.index < |vals| && vals[r.index].Gpr?)
  {
    match r
    case Zero => Some(0)
    case Zero64 => Some(0)
    case Node(i) => if i < |vals| && vals[i].Gpr? then Some(vals[i].v) else None
  }

  /** The vector value an operand names, if it names one. */
  function VecOf(r: Reg, vals: seq<Value>): (v: Option<Value>)
    ensures v.Some? ==> r.Node? && r.index < |vals| && v.value == vals[r.index] && v.value.Vec?
  {
    if r.Node? && r.index < |vals| && vals[r.index].Vec? then Some(vals[r.index]) else None
  }

  /** The result of one node, given the results of the nodes before it (the
      MIPS64 and MSA semantics of each instruction; SUBREG_TO_REG and
      COPY_TO_REGCLASS only relabel a register). */
  function EvalOp(op: MachineOp, vals: seq<Value>): Value
  {
    match op
    case LDI(df, simm) => Vec(IntVecType(df), df, Splat(LaneMod(simm, df), df))
    case ADDiu(s, imm) =>
      var g := GprOf(s, vals);
      if g.Some? then Gpr(SignExtend32To64(g.value + SignExtend16(imm))) else Undefined
    case DADDiu(s, imm) =>
      var g := GprOf(s, vals);
      if g.Some? then Gpr((g.value + SignExtend16(imm)) % TWO_64) else Undefined
    case LUi(imm) => Gpr(SignExtend32To64(imm * TWO_16))
    case ORi(s, imm) =>
      var g := GprOf(s, vals);
      if g.Some? then Gpr(BitOr(g.value, imm % TWO_16)) else Undefined
    case SubregToReg(_, s) =>
      var g := GprOf(s, vals);
      if g.Some? then Gpr(g.value) else Undefined
    case DINSU(f, pos, size, b) =>
      var gf, gb := GprOf(f, vals), GprOf(b, vals);
      if gf.Some? && gb.Some? then Gpr(BitfieldInsert.InsertField(gb.value, gf.value, pos, size) % TWO_64)
      else Undefined
    case DSLL32(s, shift) =>
      var g := GprOf(s, vals);
      if g.Some? then Gpr(ShiftLeft(g.value * TWO_32, shift % 32) % TWO_64) else Undefined
    case FILL(df, s) =>
      var g := GprOf(s, vals);
      if g.Some? then Vec(IntVecType(df), df, Splat(LaneMod(g.value, df), df)) else Undefined
    case INSERT_W(v, s, lane) =>
      var vv, g := VecOf(v, vals), GprOf(s, vals);
      if vv.Some? && g.Some? && vv.value.df == W && lane < |vv.value.lanes| then
        Vec(IntVecType(W), W, vv.value.lanes[lane := g.value % TWO_32])
      else Undefined
    case SPLATI_D(v, lane) =>
      var vv := VecOf(v, vals);
      if vv.Some? && lane < |DoublewordLanes(vv.value)| then
        Vec(IntVecType(D), D, Splat(DoublewordLanes(vv.value)[lane], D))
      else Undefined
    case CopyToRegClass(v, ty) =>
      var vv := VecOf(v, vals);
      if vv.Some? then Vec(ty, vv.value.df, vv.value.lanes) else Undefined
  }

  // ---- the result of each node, one instruction at a time ----
  // These lemmas unfold one case of EvalOp each.  They state nothing beyond
  // the evaluator; they exist so that a proof about one emitted node does not
  // unfold all of EvalOp, which keeps the synthesis proofs cheap.

  lemma EvalLdi(df: DataFormat, simm: int, vals: seq<Value>)
    ensures EvalOp(LDI(df, simm), vals) == Vec(IntVecType(df), df, Splat(LaneMod(simm, df), df))
  {
  }

  lemma EvalAddiu(s: Reg, imm: nat, vals: seq<Value>, g: nat)
    requires GprOf(s, vals) == Some(g)
    ensures EvalOp(ADDiu(s, imm), vals) == Gpr(SignExtend32To64(g + SignExtend16(imm)))
  {
  }

  lemma EvalDaddiu(s: Reg, imm: nat, vals: seq<Value>, g: nat)
    requires GprOf(s, vals) == Some(g)
    ensures EvalOp(DADDiu(s, imm), vals) == Gpr((g + SignExtend16(imm)) % TWO_64)
  {
  }

  lemma EvalSubregToReg(hint: nat, s: Reg, vals: seq<Value>, g: nat)
    requires GprOf(s, vals) == Some(g)
    ensures EvalOp(SubregToReg(hint, s), vals) == Gpr(g)
  {
  }

  lemma EvalDinsu(f: Reg, pos: nat, size: nat, b: Reg, vals: seq<Value>, gf: nat, gb: nat)
    requires GprOf(f, vals) == Some(gf) && GprOf(b, vals) == Some(gb)
    ensures EvalOp(DINSU(f, pos, size, b), vals) == Gpr(BitfieldInsert.InsertField(gb, gf, pos, size) % TWO_64)
  {
  }

  lemma EvalDsll32(s: Reg, vals: seq<Value>, g: nat)
    requires GprOf(s, vals) == Some(g)
    ensures EvalOp(DSLL32(s, 0), vals) == Gpr((g * TWO_32) % TWO_64)
  {
  }

  lemma EvalFill(df: DataFormat, s: Reg, vals: seq<Value>, g: nat)
    requires GprOf(s, vals) == Some(g)
    ensures EvalOp(FILL(df, s), vals) == Vec(IntVecType(df), df, Splat(LaneMod(g, df), df))
  {
  }

  lemma EvalInsertW(v: Reg, s: Reg, lane: nat, vals: seq<Value>, g: nat)
    requires VecOf(v, vals).Some? && GprOf(s, vals) == Some(g)
    requires VecOf(v, vals).value.df == W && lane < |VecOf(v, vals).value.lanes|
    ensures EvalOp(INSERT_W(v, s, lane), vals)
      == Vec(IntVecType(W), W, VecOf(v, vals).value.lanes[lane := g % TWO_32])
  {
  }

  lemma EvalSplatiD(v: Reg, lane: nat, vals: seq<Value>)
    requires VecOf(v, vals).Some? && lane < |DoublewordLanes(VecOf(v, vals).value)|
    ensures EvalOp(SPLATI_D(v, lane), vals)
      == Vec(IntVecType(D), D, Splat(DoublewordLanes(VecOf(v, vals).value)[lane], D))
  {
  }

  lemma EvalCopy(v: Reg, ty: VecType, vals: seq<Value>)
    requires VecOf(v, vals).Some?
    ensures EvalOp(CopyToRegClass(v, ty), vals) == Vec(ty, VecOf(v, vals).value.df, VecOf(v, vals).value.lanes)
  {
  }

  /** The results of a whole sequence of nodes, in order. */
  function EvalAll(ops: seq<MachineOp>): (r: seq<Value>)
    ensures |r| == |ops|
    decreases |ops|
  {
    if |ops| == 0 then []
    else
      var before := EvalAll(ops[..|ops| - 1]);
      before + [EvalOp(ops[|ops| - 1], before)]
  }

  /** Appending a node leaves the earlier results alone and adds its own. */
  lemma EvalAllAppend(ops: seq<MachineOp>, op: MachineOp)
    ensures EvalAll(ops + [op]) == EvalAll(ops) + [EvalOp(op, EvalAll(ops))]
  {
    assert (ops + [op])[..|ops|] == ops;
  }

  /** An operand naming an earlier node reads the same value once more nodes follow. */
  lemma GprOfPrefix(r: Reg, vals: seq<Value>, vals': seq<Value>)
    requires |vals| <= |vals'| && vals'[..|vals|] == vals && (r.Node? ==> r.index < |vals|)
    ensures GprOf(r, vals') == GprOf(r, vals)
  {
    if r.Node? {
      assert vals'[r.index] == vals[r.index];
    }
  }

  /** Every node's immediates fit their fields. */
  predicate AllEncodable(ops: seq<MachineOp>)
    decreases |ops|
  {
    |ops| == 0 || (AllEncodable(ops[..|ops| - 1]) && Encodable(ops[|ops| - 1]))
  }

  /** Every node is encodable, and none needs 64-bit registers. */
  predicate Fits32BitTarget(ops: seq<MachineOp>)
    decreases |ops|
  {
    |ops| == 0
    || (Fits32BitTarget(ops[..|ops| - 1]) && Encodable(ops[|ops| - 1]) && !Needs64BitGprs(ops[|ops| - 1]))
  }

  /** Both properties hold of a sequence exactly when they hold of each node. */
  lemma {:induction false} AllEncodableEach(ops: seq<MachineOp>)
    ensures AllEncodable(ops) <==> forall i :: 0 <= i < |ops| ==> Encodable(ops[i])
    ensures Fits32BitTarget(ops) <==> forall i :: 0 <= i < |ops| ==> Encodable(ops[i]) && !Needs64BitGprs(ops[i])
    decreases |ops|
  {
    if |ops| > 0 {
      var init := ops[..|ops| - 1];
      AllEncodableEach(init);
      assert forall i :: 0 <= i < |init| ==> init[i] == ops[i];
    }
  }

  /** Appending keeps every node encodable exactly when the new node is. */
  lemma AppendEncodable(ops: seq<MachineOp>, op: MachineOp)
    ensures AllEncodable(ops + [op]) == (AllEncodable(ops) && Encodable(op))
  {
    assert (ops + [op])[..|ops|] == ops;
  }

  /** Appending keeps a sequence fit for a 32-bit target exactly when the new node is. */
  lemma AppendFits32(ops: seq<MachineOp>, op: MachineOp)
    ensures Fits32BitTarget(ops + [op]) == (Fits32BitTarget(ops) && Encodable(op) && !Needs64BitGprs(op))
  {
    assert (ops + [op])[..|ops|] == ops;
  }

  /** Emits one node after `ops` (getMachineNode) and names its result. */
  method Emit(ops: seq<MachineOp>, op: MachineOp) returns (ops': seq<MachineOp>, r: Reg)
    ensures ops' == ops + [op] && r == Node(|ops|)
    ensures EvalAll(ops') == EvalAll(ops) + [EvalOp(op, EvalAll(ops))]
    ensures Final(ops') == EvalOp(op, EvalAll(ops))
    ensures EvalOp(op, EvalAll(ops)).Gpr? ==> GprOf(r, EvalAll(ops')) == Some(EvalOp(op, EvalAll(ops)).v)
  {
    EvalAllAppend(ops, op);
    ops' := ops + [op];
    r := Node(|ops|);
  }

  /** Emit for an operation known to compute the general-purpose value `g`. */
  method EmitGpr(ops: seq<MachineOp>, op: MachineOp, ghost g: nat) returns (ops': seq<MachineOp>, r: Reg)
    requires EvalOp(op, EvalAll(ops)) == Gpr(g)
    ensures ops' == ops + [op] && r == Node(|ops|)
    ensures EvalAll(ops')[..|ops|] == EvalAll(ops)
    ensures GprOf(r, EvalAll(ops')) == Some(g)
  {
    EvalAllAppend(ops, op);
    ops' := ops + [op];
    r := Node(|ops|);
  }

  /** The value of the last node, which is the value the sequence selects. */
  function Final(ops: seq<MachineOp>): Value
    requires |ops| > 0
  {
    EvalAll(ops)[|ops| - 1]
  }
}
