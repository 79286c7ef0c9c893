/** Selection of a constant-splat ISD::BUILD_VECTOR node into MSA machine
    nodes: a single LDI when the splat value fits 10 signed bits, otherwise a
    scalar synthesized in a general-purpose register (ADDiu/DADDiu, or LUi/ORi
    chains on 16-bit chunks combined with SUBREG_TO_REG, DINSU or DSLL32, or
    FILL/INSERT_W/SPLATI_D on O32) and broadcast into the lanes.

    The selection method is proved against the evaluator of MachineOps: the
    last node it emits holds the splat value in every lane, typed as the node
    being selected. */
module BuildVector {
  import opened Wrappers
  import opened Bits
  import opened MachineOps
  import opened SplatPredicates
  import BitfieldInsert

  datatype Abi = O32 | N32 | N64

  /** The LDI format and the vector type LDI writes for a splat width
      (LDI_B/v16i8, LDI_H/v8i16, LDI_W/v4i32, LDI_D/v2i64). */
  function FormatOf(width: nat): (r: Option<DataFormat>)
    ensures r.Some? <==> width in {8, 16, 32, 64}
    ensures r.Some? ==> EltBits(r.value) == width
  {
    if width == 8 then Some(B)
    else if width == 16 then Some(H)
    else if width == 32 then Some(W)
    else if width == 64 then Some(D)
    else None
  }

  // ---- 16-bit chunks of the splat value ----

  /** getLoBits(16) */
  function Lo16(x: nat): (r: nat)
    ensures r < TWO_16
  {
    x % TWO_16
  }

  /** lshr(16).getLoBits(16) */
  function Hi16(x: nat): (r: nat)
    ensures r < TWO_16
  {
    Lo16(x / TWO_16)
  }

  /** lshr(32).getLoBits(16) */
  function Higher16(x: nat): (r: nat)
    ensures r < TWO_16
  {
    Lo16(x / TWO_32)
  }

  /** lshr(48).getLoBits(16) */
  function Highest16(x: nat): (r: nat)
    ensures r < TWO_16
  {
    Hi16(x / TWO_32)
  }

  /** Lo and Hi make up the low word. */
  lemma Low32Chunks(x: nat)
    ensures x % TWO_32 == Lo16(x) + TWO_16 * Hi16(x)
  {
    var q := x / TWO_16;
    DivModNat(x, TWO_16);
    DivModNat(q, TWO_16);
    assert x == Lo16(x) + TWO_16 * Hi16(x) + TWO_32 * (q / TWO_16);
    DivModOfSum(Lo16(x) + TWO_16 * Hi16(x), TWO_32, q / TWO_16);
  }

  /** The four chunks recompose to the 64-bit value. */
  lemma Recompose64(x: nat)
    requires x < TWO_64
    ensures x / TWO_32 < TWO_32
    ensures x % TWO_32 + TWO_32 * (x / TWO_32) == x
    ensures x / TWO_32 == Higher16(x) + TWO_16 * Highest16(x)
    ensures x == Lo16(x) + TWO_16 * Hi16(x) + TWO_32 * (Higher16(x) + TWO_16 * Highest16(x))
  {
    var u := x / TWO_32;
    DivModNat(x, TWO_32);
    Low32Chunks(x);
    Low32Chunks(u);
    ModSmall(u, TWO_32);
  }

  /** The doubleword whose high word is `high` and whose low word is `low`. */
  function Join(low: nat, high: nat): nat
  {
    low + TWO_32 * high
  }

  /** A 64-bit value is the join of its two words, and a word is zero exactly
      when both of its halfword chunks are. */
  lemma SplitDoubleword(x: nat)
    requires x < TWO_64
    ensures x % TWO_32 < TWO_32 && x / TWO_32 < TWO_32
    ensures Join(x % TWO_32, x / TWO_32) == x
    ensures x % TWO_32 == 0 <==> Hi16(x) == 0 && Lo16(x) == 0
    ensures x / TWO_32 == 0 <==> Highest16(x) == 0 && Higher16(x) == 0
  {
    Recompose64(x);
  }

  // ---- values computed by the emitted GPR instructions ----

  /** `lui hi; ori lo` leaves the 32-bit value (hi << 16) | lo, sign-extended. */
  lemma LuiOriValue(hi: nat, lo: nat)
    requires hi < TWO_16 && lo < TWO_16
    ensures BitOr(SignExtend32To64(hi * TWO_16), lo) == SignExtend32To64(hi * TWO_16 + lo)
  {
    Pow2Small();
    ModSmall(hi * TWO_16, TWO_32);
    ModSmall(hi * TWO_16 + lo, TWO_32);
    var m := if hi >= TWO_15 then hi + 0xFFFF_FFFF_0000 else hi;
    assert SignExtend32To64(hi * TWO_16) == m * TWO_16;
    BitOrDisjointLow(m, 16, lo);
  }

  /** `ori lo` on the zero register is lo. */
  lemma OriZeroValue(lo: nat)
    requires lo < TWO_16
    ensures BitOr(0, lo) == lo == SignExtend32To64(lo)
  {
    Pow2Small();
    BitOrDisjointLow(0, 16, lo);
    ModSmall(lo, TWO_32);
  }

  /** Two values in the same window of width `p` with the same residue are equal. */
  lemma SameResidue(a: int, b: int, lo: int, p: int)
    requires p >= 1 && lo <= a < lo + p && lo <= b < lo + p && a % p == b % p
    ensures a == b
  {
    MulSub(p, a / p, b / p);
    assert a - b == p * (a / p - b / p);
    MultipleSign(a / p - b / p, p);
  }

  /** Reducing modulo a multiple of `p` keeps the residue modulo `p`. */
  lemma ModOfFactor(a: int, p: int, q: int)
    requires p >= 1 && q >= 1
    ensures p * q >= 1
    ensures (a % (p * q)) % p == a % p
  {
    MultipleSign(q, p);
    var m := p * q;
    assert a == m * (a / m) + a % m;
    assert m * (a / m) == p * (q * (a / m));
    ModAddMultiple(a % m, p, q * (a / m));
  }

  /** A 64-bit pattern whose signed value fits 32 bits is the sign extension of its low word. */
  lemma SignedFromLowWord(x: nat)
    requires x < Pow2(64) && FitsSigned(Signed(x, 64), 32)
    ensures SignExtend32To64(x % TWO_32) == x
  {
    Pow2Wide();
    var s := Signed(x, 64);
    assert -TWO_31 <= s < TWO_31;
    if s >= 0 {
      ModSmall(s, TWO_64);
      ModSmall(x, TWO_32);
    } else {
      DivModOfSum(s + TWO_64, TWO_64, -1);
      assert x == s + TWO_64;
      DivModOfSum(s + TWO_32, TWO_32, TWO_32 - 1);
    }
  }

  /** `dinsu low, high, 32, 32` on the sign-extended words gives high:low. */
  lemma DinsuValue(low: nat, high: nat)
    requires low < TWO_32 && high < TWO_32
    ensures BitfieldInsert.InsertField(SignExtend32To64(low), SignExtend32To64(high), 32, 32) % TWO_64
      == Join(low, high)
  {
    var b, f := SignExtend32To64(low), SignExtend32To64(high);
    InsertWordHigh(b, f);
    assert b % TWO_32 == low && f % TWO_32 == high by {
      ModSmall(low, TWO_32);
      ModSmall(high, TWO_32);
    }
    assert b / TWO_64 == 0 by {
      ModSmall(b, TWO_64);
    }
    var x := BitfieldInsert.InsertField(b, f, 32, 32);
    assert x == low + TWO_32 * high;
    ModSmall(x, TWO_64);
  }

  /** Inserting 32 bits at bit 32, in the constants of a 64-bit register. */
  lemma InsertWordHigh(base: nat, field: nat)
    ensures BitfieldInsert.InsertField(base, field, 32, 32)
      == base % TWO_32 + TWO_32 * (field % TWO_32 + TWO_32 * (base / TWO_64))
  {
    BitfieldInsert.InsertFieldLayout(base, field, 32, 32);
    Pow2Wide();
  }

  /** `dsll32 high, 0` on the sign-extended high word gives high:0. */
  lemma Dsll32Value(high: nat)
    requires high < TWO_32
    ensures (SignExtend32To64(high) * TWO_32) % TWO_64 == Join(0, high)
  {
    ModSmall(high, TWO_32);
    ModSmall(TWO_32 * high, TWO_64);
    if high >= TWO_31 {
      assert SignExtend32To64(high) * TWO_32 == TWO_32 * high + TWO_64 * (TWO_32 - 1);
      ModAddMultiple(TWO_32 * high, TWO_64, TWO_32 - 1);
    }
  }

  /** A pattern of at most `n` bits is a signed `n`-bit integer. */
  lemma NarrowFits(x: APIntValue, n: nat)
    requires 1 <= x.width <= n
    ensures IsSignedIntN(x, n)
  {
    Pow2Monotone(x.width - 1, n - 1);
  }

  // ---- one node at a time ----

  /** The LUi/ORi chain for the 32-bit value hi:lo.  A zero chunk is skipped,
      and when both are zero no node is emitted and the zero register stands
      for the value. */
  method EmitWord(ops: seq<MachineOp>, hi: nat, lo: nat) returns (ops': seq<MachineOp>, r: Reg)
    requires hi < TWO_16 && lo < TWO_16
    ensures |ops'| >= |ops| && ops'[..|ops|] == ops && EvalAll(ops')[..|ops|] == EvalAll(ops)
    ensures r.Node? ==> r.index < |ops'|
    ensures (r == Zero) <==> (hi == 0 && lo == 0)
    ensures GprOf(r, EvalAll(ops')) == Some(SignExtend32To64(hi * TWO_16 + lo))
    ensures AllEncodable(ops) ==> AllEncodable(ops')
    ensures Fits32BitTarget(ops) ==> Fits32BitTarget(ops')
  {
    ops', r := EmitLui(ops, hi);
    ops', r := EmitOri(ops, ops', r, hi, lo);
  }

  /** `lui hi` when the upper halfword is non-zero; otherwise the zero register. */
  method EmitLui(ops: seq<MachineOp>, hi: nat) returns (ops': seq<MachineOp>, r: Reg)
    requires hi < TWO_16
    ensures |ops'| >= |ops| && ops'[..|ops|] == ops && EvalAll(ops')[..|ops|] == EvalAll(ops)
    ensures r.Node? ==> r.index < |ops'|
    ensures (r == Zero) <==> (hi == 0)
    ensures GprOf(r, EvalAll(ops')) == Some(SignExtend32To64(hi * TWO_16))
    ensures AllEncodable(ops) ==> AllEncodable(ops')
    ensures Fits32BitTarget(ops) ==> Fits32BitTarget(ops')
  {
    ops', r := ops, Zero;
    if hi != 0 {
      AppendEncodable(ops, LUi(hi));
      AppendFits32(ops, LUi(hi));
      ops', r := EmitGpr(ops, LUi(hi), SignExtend32To64(hi * TWO_16));
    }
  }

  /** `ori src, lo` when the lower halfword is non-zero; otherwise `src` as it is. */
  method EmitOri(ops0: seq<MachineOp>, ops: seq<MachineOp>, src: Reg, hi: nat, lo: nat) returns (ops': seq<MachineOp>, r: Reg)
    requires hi < TWO_16 && lo < TWO_16
    requires |ops| >= |ops0| && ops[..|ops0|] == ops0 && EvalAll(ops)[..|ops0|] == EvalAll(ops0)
    requires src.Node? ==> src.index < |ops|
    requires (src == Zero) <==> (hi == 0)
    requires GprOf(src, EvalAll(ops)) == Some(SignExtend32To64(hi * TWO_16))
    ensures |ops'| >= |ops0| && ops'[..|ops0|] == ops0 && EvalAll(ops')[..|ops0|] == EvalAll(ops0)
    ensures r.Node? ==> r.index < |ops'|
    ensures (r == Zero) <==> (hi == 0 && lo == 0)
    ensures GprOf(r, EvalAll(ops')) == Some(SignExtend32To64(hi * TWO_16 + lo))
    ensures AllEncodable(ops) ==> AllEncodable(ops')
    ensures Fits32BitTarget(ops) ==> Fits32BitTarget(ops')
  {
    ops', r := ops, src;
    if lo != 0 {
      // `src` is the zero register exactly when the upper halfword is zero.
      var op := ORi(src, lo);
      AppendEncodable(ops, op);
      AppendFits32(ops, op);
      OriStep(src, EvalAll(ops), hi, lo);
      ops', r := EmitGpr(ops, op, SignExtend32To64(hi * TWO_16 + lo));
      PrefixOfPrefix(ops0, ops, ops');
      PrefixOfPrefix(EvalAll(ops0), EvalAll(ops), EvalAll(ops'));
    }
  }

  lemma OriStep(src: Reg, vals: seq<Value>, hi: nat, lo: nat)
    requires hi < TWO_16 && lo < TWO_16
    requires GprOf(src, vals) == Some(SignExtend32To64(hi * TWO_16))
    ensures EvalOp(ORi(src, lo), vals) == Gpr(SignExtend32To64(hi * TWO_16 + lo))
  {
    ModSmall(lo, TWO_16);
    if hi != 0 {
      LuiOriValue(hi, lo);
    } else {
      OriZeroValue(lo);
    }
  }

  /** SUBREG_TO_REG: the 32-bit result as a 64-bit register (its contents unchanged). */
  method EmitSubregToReg(ops: seq<MachineOp>, hint: nat, r: Reg, ghost g: nat) returns (ops': seq<MachineOp>, r': Reg)
    requires GprOf(r, EvalAll(ops)) == Some(g)
    ensures ops' == ops + [SubregToReg(hint, r)] && r' == Node(|ops|)
    ensures EvalAll(ops')[..|ops|] == EvalAll(ops)
    ensures GprOf(r', EvalAll(ops')) == Some(g)
    ensures AllEncodable(ops') == (AllEncodable(ops) && hint < 2)
  {
    AppendEncodable(ops, SubregToReg(hint, r));
    EvalSubregToReg(hint, r, EvalAll(ops), g);
    ops', r' := Emit(ops, SubregToReg(hint, r));
  }

  /** SUBREG_TO_REG applied only when the word is not the zero register
      (`nonZero`), so that a zero word stays ZERO. */
  method WidenIfNonZero(ops: seq<MachineOp>, nonZero: bool, hint: nat, r: Reg, ghost g: nat, ghost keep: Reg)
    returns (ops': seq<MachineOp>, r': Reg)
    requires nonZero <==> r != Zero
    requires GprOf(r, EvalAll(ops)) == Some(g) && GprOf(keep, EvalAll(ops)).Some?
    requires keep.Node? ==> keep.index < |ops|
    requires hint < 2
    ensures |ops'| >= |ops| && (keep.Node? ==> keep.index < |ops'|)
    ensures (r' == Zero) == (r == Zero) && (r'.Node? ==> r'.index < |ops'|)
    ensures GprOf(r', EvalAll(ops')) == Some(g) && GprOf(keep, EvalAll(ops')) == GprOf(keep, EvalAll(ops))
    ensures AllEncodable(ops) ==> AllEncodable(ops')
  {
    ops', r' := ops, r;
    if nonZero {
      ops', r' := EmitSubregToReg(ops, hint, r, g);
      GprOfPrefix(keep, EvalAll(ops), EvalAll(ops'));
    }
  }

  /** FILL: broadcasts the general-purpose value `g` held by `r` into the lanes
      of format `df`. */
  method EmitFill(ops: seq<MachineOp>, df: DataFormat, r: Reg, ghost g: nat) returns (ops': seq<MachineOp>)
    requires GprOf(r, EvalAll(ops)) == Some(g)
    ensures ops' == ops + [FILL(df, r)] && EvalAll(ops')[..|ops|] == EvalAll(ops)
    ensures Final(ops') == Vec(IntVecType(df), df, Splat(LaneMod(g, df), df))
    ensures AllEncodable(ops') == AllEncodable(ops)
    ensures Fits32BitTarget(ops') == (Fits32BitTarget(ops) && df != D)
  {
    AppendEncodable(ops, FILL(df, r));
    AppendFits32(ops, FILL(df, r));
    EvalFill(df, r, EvalAll(ops), g);
    var fill;
    ops', fill := Emit(ops, FILL(df, r));
  }

  /** INSERT_W: replaces word `lane` of the vector of words produced last. */
  method EmitInsertW(ops: seq<MachineOp>, src: Reg, lane: nat, ghost words: seq<nat>, ghost g: nat)
    returns (ops': seq<MachineOp>)
    requires |ops| > 0 && Final(ops) == Vec(IntVecType(W), W, words) && lane < |words|
    requires GprOf(src, EvalAll(ops)) == Some(g)
    ensures ops' == ops + [INSERT_W(Node(|ops| - 1), src, lane)]
    ensures Final(ops') == Vec(IntVecType(W), W, words[lane := g % TWO_32])
    ensures AllEncodable(ops') == (AllEncodable(ops) && lane < 4)
    ensures Fits32BitTarget(ops') == (Fits32BitTarget(ops) && lane < 4)
  {
    var op := INSERT_W(Node(|ops| - 1), src, lane);
    AppendEncodable(ops, op);
    AppendFits32(ops, op);
    EvalInsertW(Node(|ops| - 1), src, lane, EvalAll(ops), g);
    var res;
    ops', res := Emit(ops, op);
  }

  /** COPY_TO_REGCLASS: the vector produced last, relabelled with type `ty`. */
  method EmitCopy(ops: seq<MachineOp>, ty: VecType) returns (ops': seq<MachineOp>)
    requires |ops| > 0 && Final(ops).Vec? && Is128(ty)
    ensures ops' == ops + [CopyToRegClass(Node(|ops| - 1), ty)]
    ensures Final(ops') == Vec(ty, Final(ops).df, Final(ops).lanes)
    ensures AllEncodable(ops') == AllEncodable(ops)
    ensures Fits32BitTarget(ops') == Fits32BitTarget(ops)
  {
    var op := CopyToRegClass(Node(|ops| - 1), ty);
    AppendEncodable(ops, op);
    AppendFits32(ops, op);
    EvalCopy(Node(|ops| - 1), ty, EvalAll(ops));
    var res;
    ops', res := Emit(ops, op);
  }

  /** SPLATI_D: broadcasts doubleword `lane` of the vector produced last. */
  method EmitSplatiD(ops: seq<MachineOp>, lane: nat) returns (ops': seq<MachineOp>)
    requires |ops| > 0 && Final(ops).Vec? && lane < |DoublewordLanes(Final(ops))|
    ensures ops' == ops + [SPLATI_D(Node(|ops| - 1), lane)]
    ensures Final(ops') == Vec(IntVecType(D), D, Splat(DoublewordLanes(Final(ops))[lane], D))
    ensures AllEncodable(ops') == (AllEncodable(ops) && lane < 2)
    ensures Fits32BitTarget(ops') == (Fits32BitTarget(ops) && lane < 2)
  {
    var op := SPLATI_D(Node(|ops| - 1), lane);
    AppendEncodable(ops, op);
    AppendFits32(ops, op);
    EvalSplatiD(Node(|ops| - 1), lane, EvalAll(ops));
    var res;
    ops', res := Emit(ops, op);
  }

  // ---- the synthesis paths ----

  /** What every path promises: the sequence leaves `bits` in every lane of
      format df, under the integer vector type of df; every node fits its
      fields; and on O32 no node needs 64-bit registers. */
  predicate Splats(ops: seq<MachineOp>, bits: nat, df: DataFormat, abi: Abi)
  {
    |ops| > 0 && Final(ops) == Vec(IntVecType(df), df, Splat(bits, df))
    && AllEncodable(ops) && (abi == O32 ==> Fits32BitTarget(ops))
  }

  /** What the if-chain of the BUILD_VECTOR case promises for a splat x:
      the lanes hold x, a 10-bit value is one LDI, and any other splat ends
      in a broadcast from a GPR (SPLATI_D of a built pair of words on O32
      for a 64-bit splat, FILL otherwise). */
  predicate SplatResult(ops: seq<MachineOp>, x: APIntValue, df: DataFormat, abi: Abi)
  {
    Splats(ops, x.bits, df, abi)
    && (IsSignedIntN(x, 10) ==> ops == [LDI(df, Signed(x.bits, x.width))])
    && (!IsSignedIntN(x, 10) ==> ops[|ops| - 1].FILL? || ops[|ops| - 1].SPLATI_D?)
    && (abi == O32 && x.width == 64 && !IsSignedIntN(x, 10) ==> ops[|ops| - 1].SPLATI_D?)
  }

  /** ADDiu (or DADDiu) from the zero register and FILL, for a splat whose
      signed value fits 16 bits.  The 64-bit DADDiu is used only for
      doubleword lanes on N32/N64. */
  method SynthesizeSigned16(x: APIntValue, df: DataFormat, abi: Abi) returns (ops: seq<MachineOp>)
    requires EltBits(df) == x.width && !IsSignedIntN(x, 10) && IsSignedIntN(x, 16)
    requires (abi == O32 && x.width < 64) || abi == N32 || abi == N64
    ensures SplatResult(ops, x, df, abi)
    ensures |ops| == 2 && ops[1] == FILL(df, Node(0))
    ensures ops[0] == if abi == O32 || df != D then ADDiu(Zero, Lo16(x.bits)) else DADDiu(Zero64, Lo16(x.bits))
  {
    NotLdi(x);
    Signed16Range(x);
    SplatResidue(x, df);
    var is32 := abi == O32 || df != D;
    var fill: Option<DataFormat> :=
      if df == H then Some(H)
      else if df == W then Some(W)
      else if df == D then Some(D)
      else None;
    // The C++ selector asserts that a FILL format exists and that O32 never uses FILL_D.
    assert fill.Some? && fill.value == df;
    assert abi == O32 ==> fill.value != D;
    var r;
    ghost var v;
    ops, r, v := EmitSigned16Scalar(x.bits, df, is32, Signed(x.bits, x.width));
    ops := EmitFill(ops, fill.value, r, v);
  }

  /** The first node of the 16-bit path: ADDiu or DADDiu of the low half from
      the zero register. */
  method EmitSigned16Scalar(bits: nat, df: DataFormat, is32: bool, ghost s: int)
    returns (ops: seq<MachineOp>, r: Reg, ghost v: nat)
    requires df != B && -TWO_15 <= s < TWO_15 && LaneMod(s, df) == bits
    ensures ops == [if is32 then ADDiu(Zero, Lo16(bits)) else DADDiu(Zero64, Lo16(bits))] && r == Node(0)
    ensures GprOf(r, EvalAll(ops)) == Some(v) && LaneMod(v, df) == bits
    ensures AllEncodable(ops) && (is32 ==> Fits32BitTarget(ops))
  {
    var op := if is32 then ADDiu(Zero, Lo16(bits)) else DADDiu(Zero64, Lo16(bits));
    v := Signed16Scalar(op, bits, df, is32, s);
    AppendEncodable([], op);
    AppendFits32([], op);
    ops, r := EmitGpr([], op, v);
  }

  /** The ADDiu/DADDiu node computes a value whose lane of format `df` is the splat value. */
  lemma Signed16Scalar(op: MachineOp, bits: nat, df: DataFormat, is32: bool, s: int) returns (v: nat)
    requires df != B && -TWO_15 <= s < TWO_15 && LaneMod(s, df) == bits
    requires op == if is32 then ADDiu(Zero, Lo16(bits)) else DADDiu(Zero64, Lo16(bits))
    ensures EvalOp(op, []) == Gpr(v) && LaneMod(v, df) == bits
    ensures Encodable(op) && (is32 ==> !Needs64BitGprs(op))
  {
    Signed16Chunk(bits, df, s);
    if is32 {
      EvalAddiu(Zero, Lo16(bits), [], 0);
      v := SignExtend32To64(s);
    } else {
      EvalDaddiu(Zero64, Lo16(bits), [], 0);
      v := s % TWO_64;
    }
    Signed16Lanes(df, is32, s, v);
  }

  /** The low halfword of the splat value sign-extends back to `s`. */
  lemma Signed16Chunk(bits: nat, df: DataFormat, s: int)
    requires df != B && -TWO_15 <= s < TWO_15 && LaneMod(s, df) == bits
    ensures SignExtend16(Lo16(bits)) == s
  {
    if df == W {
      ModOfFactor(s, TWO_16, TWO_16);
    } else if df == D {
      ModOfFactor(s, TWO_16, 0x1_0000_0000_0000);
    }
    SameResidue(SignExtend16(Lo16(bits)), s, -TWO_15, TWO_16);
  }

  /** Sign-extending to 32 bits, or reducing modulo 2^64, keeps every lane of a
      16-bit signed value. */
  lemma Signed16Lanes(df: DataFormat, is32: bool, s: int, v: nat)
    requires df != B && -TWO_15 <= s < TWO_15
    requires v == if is32 then SignExtend32To64(s) else s % TWO_64
    ensures LaneMod(v, df) == LaneMod(s, df)
  {
    if df == H {
      ModOfFactor(v, TWO_16, 0x1_0000_0000_0000);
      ModOfFactor(s, TWO_16, 0x1_0000_0000_0000);
      ModOfFactor(v, TWO_16, TWO_16);
      ModOfFactor(s, TWO_16, TWO_16);
    } else if df == W {
      ModOfFactor(s, TWO_32, TWO_32);
    }
  }

  /** LUi/ORi and FILL_W for a 32-bit splat that does not fit 16 signed bits. */
  method SynthesizeWord(x: APIntValue, df: DataFormat, abi: Abi) returns (ops: seq<MachineOp>)
    requires EltBits(df) == x.width == 32 && !IsSignedIntN(x, 10)
    ensures SplatResult(ops, x, df, abi)
    ensures ops[|ops| - 1].FILL? && Fits32BitTarget(ops)
  {
    NotLdi(x);
    WidthBounds(x);
    var bits := x.bits;
    var hi, lo := Hi16(bits), Lo16(bits);
    Low32Chunks(bits);
    ModSmall(bits, TWO_32);
    var r;
    ops, r := EmitWord([], hi, lo);
    // The C++ selector asserts that the zero splat never reaches this path.
    assert hi != 0 || lo != 0;
    ops := EmitFill(ops, W, r, SignExtend32To64(bits));
  }

  /** LUi/ORi, SUBREG_TO_REG and FILL_D for a 64-bit splat whose signed value
      fits 32 bits (N32/N64): the 32-bit instructions already sign-extend. */
  method SynthesizeSignExtendedWord(x: APIntValue, df: DataFormat, abi: Abi) returns (ops: seq<MachineOp>)
    requires EltBits(df) == x.width == 64 && !IsSignedIntN(x, 10) && IsSignedIntN(x, 32) && abi != O32
    ensures SplatResult(ops, x, df, abi)
    ensures ops[|ops| - 1].FILL?
  {
    WidthBounds(x);
    SignedFromLowWord(x.bits);
    ops := SignExtendedWordOps(x.bits);
  }

  /** The sequence itself, for a doubleword equal to its low word sign-extended. */
  method SignExtendedWordOps(bits: nat) returns (ops: seq<MachineOp>)
    requires bits < TWO_64 && SignExtend32To64(bits % TWO_32) == bits
    ensures |ops| > 0 && ops[|ops| - 1].FILL? && AllEncodable(ops)
    ensures Final(ops) == Vec(IntVecType(D), D, Splat(bits, D))
  {
    var hi, lo := Hi16(bits), Lo16(bits);
    Low32Chunks(bits);
    var r;
    ops, r := EmitWord([], hi, lo);
    ops, r := EmitSubregToReg(ops, (hi / TWO_15) % 2, r, bits);
    ModSmall(bits, TWO_64);
    ops := EmitFill(ops, D, r, bits);
  }

  /** The two LUi/ORi chains of a 64-bit splat: `res` holds the low word and
      `hiRes` the high word, each sign-extended, or the zero register. */
  method EmitDoublewordHalves(bits: nat) returns (ops: seq<MachineOp>, res: Reg, hiRes: Reg)
    requires bits < TWO_64
    ensures GprOf(res, EvalAll(ops)) == Some(SignExtend32To64(bits % TWO_32))
    ensures GprOf(hiRes, EvalAll(ops)) == Some(SignExtend32To64(bits / TWO_32))
    ensures (res == Zero) <==> (Hi16(bits) == 0 && Lo16(bits) == 0)
    ensures (hiRes == Zero) <==> (Highest16(bits) == 0 && Higher16(bits) == 0)
    ensures (res.Node? ==> res.index < |ops|) && (hiRes.Node? ==> hiRes.index < |ops|)
    ensures AllEncodable(ops) && Fits32BitTarget(ops)
  {
    Recompose64(bits);
    Low32Chunks(bits);
    ops, res := EmitWord([], Hi16(bits), Lo16(bits));
    ghost var low := ops;
    ops, hiRes := EmitWord(ops, Highest16(bits), Higher16(bits));
    GprOfPrefix(res, EvalAll(low), EvalAll(ops));
  }

  /** The O32 sequence for a 64-bit splat: FILL_W the low word, INSERT_W the high
      word into word 1, view the register as doublewords and SPLATI_D lane 0. */
  method SynthesizeDoublewordO32(bits: nat) returns (ops: seq<MachineOp>)
    requires bits < TWO_64
    ensures |ops| > 0 && ops[|ops| - 1].SPLATI_D?
    ensures Final(ops) == Vec(IntVecType(D), D, Splat(bits, D))
    ensures AllEncodable(ops) && Fits32BitTarget(ops)
  {
    var res, hiRes;
    ops, res, hiRes := EmitDoublewordHalves(bits);
    SplitDoubleword(bits);
    var fillSrc := if Hi16(bits) != 0 || Lo16(bits) != 0 then res else Zero;
    var insertSrc := if Highest16(bits) != 0 || Higher16(bits) != 0 then hiRes else Zero;
    ZeroWord(res, bits % TWO_32);
    ZeroWord(hiRes, bits / TWO_32);
    ops := BroadcastO32(ops, fillSrc, insertSrc, bits % TWO_32, bits / TWO_32);
  }

  /** FILL_W, INSERT_W into word 1, COPY_TO_REGCLASS to v2i64 and SPLATI_D 0:
      every doubleword lane becomes high:low. */
  method BroadcastO32(ops: seq<MachineOp>, fillSrc: Reg, insertSrc: Reg, ghost low: nat, ghost high: nat)
    returns (ops': seq<MachineOp>)
    requires low < TWO_32 && high < TWO_32
    requires GprOf(fillSrc, EvalAll(ops)) == Some(SignExtend32To64(low))
    requires GprOf(insertSrc, EvalAll(ops)) == Some(SignExtend32To64(high))
    requires insertSrc.Node? ==> insertSrc.index < |ops|
    ensures |ops'| > 0 && ops'[|ops'| - 1].SPLATI_D?
    ensures Final(ops') == Vec(IntVecType(D), D, Splat(Join(low, high), D))
    ensures AllEncodable(ops') == AllEncodable(ops) && Fits32BitTarget(ops') == Fits32BitTarget(ops)
  {
    ops' := EmitFill(ops, W, fillSrc, SignExtend32To64(low));
    GprOfPrefix(insertSrc, EvalAll(ops), EvalAll(ops'));
    ops' := EmitInsertW(ops', insertSrc, 1, Splat(LaneMod(SignExtend32To64(low), W), W), SignExtend32To64(high));
    ops' := EmitCopy(ops', IntVecType(D));
    ghost var words := Final(ops');
    WordsAsDoubleword(words, low, high);
    ops' := EmitSplatiD(ops', 0);
  }

  /** The zero register stands for a zero word. */
  lemma ZeroWord(r: Reg, word: nat)
    requires r == Zero ==> word == 0
    ensures r == Zero ==> SignExtend32To64(word) == 0
  {
  }

  /** Words low, high, low, low read as doublewords give high:low in lane 0. */
  lemma WordsAsDoubleword(v: Value, low: nat, high: nat)
    requires low < TWO_32 && high < TWO_32
    requires v == Vec(IntVecType(D), W, Splat(LaneMod(SignExtend32To64(low), W), W)[1 := SignExtend32To64(high) % TWO_32])
    ensures |DoublewordLanes(v)| == 2 && DoublewordLanes(v)[0] == Join(low, high)
  {
    ModSmall(low, TWO_32);
    ModSmall(high, TWO_32);
  }

  /** DINSU (both words) or DSLL32 (high word only) joins the two halves. */
  method CombineWords(ops: seq<MachineOp>, resNonZero: bool, hiResNonZero: bool, res: Reg, hiRes: Reg,
                      ghost low: nat, ghost high: nat) returns (ops': seq<MachineOp>, r: Reg)
    requires resNonZero <==> res != Zero
    requires hiResNonZero <==> hiRes != Zero
    requires low < TWO_32 && high < TWO_32 && (res == Zero ==> low == 0) && (hiRes == Zero ==> high == 0)
    requires GprOf(res, EvalAll(ops)) == Some(SignExtend32To64(low))
    requires GprOf(hiRes, EvalAll(ops)) == Some(SignExtend32To64(high))
    requires resNonZero || hiResNonZero
    ensures |ops'| == |ops| + 1 && r == Node(|ops|)
    ensures ops'[|ops|].DINSU? <==> resNonZero
    ensures GprOf(r, EvalAll(ops')) == Some(Join(low, high))
    ensures AllEncodable(ops) ==> AllEncodable(ops')
  {
    if resNonZero {
      ops', r := EmitDinsu(ops, if hiResNonZero then hiRes else Zero64, res, low, high);
    } else {
      // Both halves zero is the zero splat, which LDI selects; the C++ selector marks it unreachable.
      ops', r := EmitDsll32(ops, hiRes, high);
    }
  }

  /** DINSU of the high word (`field`) into bits 32..63 of the low word `res`. */
  method EmitDinsu(ops: seq<MachineOp>, field: Reg, res: Reg, ghost low: nat, ghost high: nat)
    returns (ops': seq<MachineOp>, r: Reg)
    requires low < TWO_32 && high < TWO_32
    requires GprOf(res, EvalAll(ops)) == Some(SignExtend32To64(low))
    requires GprOf(field, EvalAll(ops)) == Some(SignExtend32To64(high))
    ensures ops' == ops + [DINSU(field, 32, 32, res)] && r == Node(|ops|)
    ensures GprOf(r, EvalAll(ops')) == Some(Join(low, high))
    ensures AllEncodable(ops) ==> AllEncodable(ops')
  {
    var op := DINSU(field, 32, 32, res);
    AppendEncodable(ops, op);
    DinsuNode(field, res, EvalAll(ops), low, high);
    ops', r := EmitGpr(ops, op, Join(low, high));
  }

  lemma DinsuNode(field: Reg, res: Reg, vals: seq<Value>, low: nat, high: nat)
    requires low < TWO_32 && high < TWO_32
    requires GprOf(res, vals) == Some(SignExtend32To64(low))
    requires GprOf(field, vals) == Some(SignExtend32To64(high))
    ensures EvalOp(DINSU(field, 32, 32, res), vals) == Gpr(Join(low, high))
  {
    EvalDinsu(field, 32, 32, res, vals, SignExtend32To64(high), SignExtend32To64(low));
    DinsuValue(low, high);
  }

  /** DSLL32 by 0: the high word moved to bits 32..63, zeros below. */
  method EmitDsll32(ops: seq<MachineOp>, hiRes: Reg, ghost high: nat) returns (ops': seq<MachineOp>, r: Reg)
    requires high < TWO_32
    requires GprOf(hiRes, EvalAll(ops)) == Some(SignExtend32To64(high))
    ensures ops' == ops + [DSLL32(hiRes, 0)] && r == Node(|ops|)
    ensures GprOf(r, EvalAll(ops')) == Some(Join(0, high))
    ensures AllEncodable(ops) ==> AllEncodable(ops')
  {
    var op := DSLL32(hiRes, 0);
    AppendEncodable(ops, op);
    EvalDsll32(hiRes, EvalAll(ops), SignExtend32To64(high));
    Dsll32Value(high);
    ops', r := Emit(ops, op);
  }

  /** The N32/N64 sequence for a 64-bit splat: both halves widened with
      SUBREG_TO_REG, joined by DINSU or DSLL32, and FILL_D. */
  method SynthesizeDoublewordN64(bits: nat) returns (ops: seq<MachineOp>)
    requires 0 < bits < TWO_64
    ensures |ops| > 0 && ops[|ops| - 1].FILL?
    ensures Final(ops) == Vec(IntVecType(D), D, Splat(bits, D))
    ensures AllEncodable(ops)
  {
    var res, hiRes;
    ops, res, hiRes := EmitDoublewordHalves(bits);
    ghost var low, high := bits % TWO_32, bits / TWO_32;
    SplitDoubleword(bits);
    var hiResNonZero := Highest16(bits) != 0 || Higher16(bits) != 0;
    var resNonZero := Hi16(bits) != 0 || Lo16(bits) != 0;
    ops, hiRes := WidenIfNonZero(ops, hiResNonZero, (Highest16(bits) / TWO_15) % 2, hiRes, SignExtend32To64(high), res);
    ops, res := WidenIfNonZero(ops, resNonZero, (Hi16(bits) / TWO_15) % 2, res, SignExtend32To64(low), hiRes);
    var r;
    ops, r := CombineWords(ops, resNonZero, hiResNonZero, res, hiRes, low, high);
    ModSmall(bits, TWO_64);
    ops := EmitFill(ops, D, r, bits);
  }

  // ---- facts about the splat value ----

  /** The signed reading of the splat value has the splat value as its lane pattern. */
  lemma SplatResidue(x: APIntValue, df: DataFormat)
    requires EltBits(df) == x.width
    ensures LaneMod(Signed(x.bits, x.width), df) == x.bits
  {
    LaneModIsMod(Signed(x.bits, x.width), df);
  }

  /** isSignedIntN(10) is LDI's immediate range. */
  lemma Signed10Range(x: APIntValue)
    requires IsSignedIntN(x, 10)
    ensures -512 <= Signed(x.bits, x.width) < 512
  {
    Pow2Small();
  }

  lemma Signed16Range(x: APIntValue)
    requires IsSignedIntN(x, 16)
    ensures -TWO_15 <= Signed(x.bits, x.width) < TWO_15
  {
    Pow2Small();
  }

  /** A splat that LDI cannot load is non-zero and wider than a byte. */
  lemma NotLdi(x: APIntValue)
    requires !IsSignedIntN(x, 10)
    ensures x.bits != 0 && x.width > 10
  {
    if x.width <= 10 {
      NarrowFits(x, 10);
    }
  }

  /** The widths below 64 bits are the ones below 2^32 or 2^64. */
  lemma WidthBounds(x: APIntValue)
    ensures x.width == 32 ==> x.bits < TWO_32
    ensures x.width == 64 ==> x.bits < TWO_64
  {
    Pow2Wide();
  }

  /** A splat that no narrower path takes is 64 bits wide. */
  lemma NarrowDispatch(x: APIntValue, abi: Abi)
    requires x.width in {8, 16, 32, 64}
    requires !IsSignedIntN(x, 10)
    requires !(IsSignedIntN(x, 16) && ((abi == O32 && x.width < 64) || abi == N32 || abi == N64))
    requires !(IsSignedIntN(x, 32) && x.width == 32)
    ensures x.width == 64
  {
    if x.width == 8 {
      NarrowFits(x, 10);
    } else if x.width == 16 {
      NarrowFits(x, 16);
    } else if x.width == 32 {
      NarrowFits(x, 32);
    }
  }

  // ---- the selection ----

  /** LDI_B/H/W/D of the splat value: the whole sequence for 10-bit signed splats. */
  method SynthesizeLdi(x: APIntValue, df: DataFormat, abi: Abi) returns (ops: seq<MachineOp>)
    requires EltBits(df) == x.width && IsSignedIntN(x, 10)
    ensures ops == [LDI(df, Signed(x.bits, x.width))]
    ensures SplatResult(ops, x, df, abi) && Fits32BitTarget(ops)
  {
    ops := [LDI(df, Signed(x.bits, x.width))];
    LdiNode(x, df, ops);
  }

  lemma LdiNode(x: APIntValue, df: DataFormat, ops: seq<MachineOp>)
    requires EltBits(df) == x.width && IsSignedIntN(x, 10)
    requires ops == [LDI(df, Signed(x.bits, x.width))]
    ensures Final(ops) == Vec(IntVecType(df), df, Splat(x.bits, df))
    ensures AllEncodable(ops) && Fits32BitTarget(ops)
  {
    var op := ops[0];
    Signed10Range(x);
    SplatResidue(x, df);
    EvalLdi(df, Signed(x.bits, x.width), []);
    AppendEncodable([], op);
    AppendFits32([], op);
    assert [] + [op] == ops;
    assert EvalAll(ops) == [EvalOp(op, [])];
  }

  /** The if-chain of the BUILD_VECTOR case: LDI for 10-bit signed values,
      otherwise a scalar synthesized in a general-purpose register and
      broadcast into the lanes of the format the splat width names.
      Every splat of a supported width takes one of the paths: each fits 64
      signed bits, so the chain's final `return false` is never reached. */
  method SynthesizeSplat(x: APIntValue, df: DataFormat, abi: Abi) returns (ops: seq<MachineOp>)
    requires EltBits(df) == x.width
    ensures SplatResult(ops, x, df, abi)
  {
    if IsSignedIntN(x, 10) {
      ops := SynthesizeLdi(x, df, abi);
    } else if IsSignedIntN(x, 16) && ((abi == O32 && x.width < 64) || abi == N32 || abi == N64) {
      ops := SynthesizeSigned16(x, df, abi);
    } else if IsSignedIntN(x, 32) && x.width == 32 {
      ops := SynthesizeWord(x, df, abi);
    } else if IsSignedIntN(x, 32) && x.width == 64 && (abi == N32 || abi == N64) {
      ops := SynthesizeSignExtendedWord(x, df, abi);
    } else {
      // Only 64-bit splats get here: narrower ones fit 16 or 32 signed bits.
      ops := SynthesizeDoubleword(x, df, abi);
    }
  }

  /** The isSignedIntN(64) case, by ABI. */
  method SynthesizeDoubleword(x: APIntValue, df: DataFormat, abi: Abi) returns (ops: seq<MachineOp>)
    requires EltBits(df) == x.width && !IsSignedIntN(x, 10)
    requires !(IsSignedIntN(x, 16) && ((abi == O32 && x.width < 64) || abi == N32 || abi == N64))
    requires !(IsSignedIntN(x, 32) && x.width == 32)
    ensures SplatResult(ops, x, df, abi)
  {
    NarrowDispatch(x, abi);
    WidthBounds(x);
    if abi == O32 {
      ops := SynthesizeDoublewordO32(x.bits);
    } else {
      NotLdi(x);
      ops := SynthesizeDoublewordN64(x.bits);
    }
  }

  /** The BUILD_VECTOR case of trySelect.  `splat` is what isConstantSplat
      reports (the splat value and its bit size), or None when the node is not
      a constant splat.  The node is selected exactly when MSA is available,
      its type is a 128-bit vector and the splat width names an LDI format; the
      result then holds the splat in every lane and has the node's own type,
      through a final COPY_TO_REGCLASS exactly when that type differs from the
      integer type of the splat format. */
  method SelectBuildVector(hasMsa: bool, resTy: VecType, splat: Option<APIntValue>, abi: Abi)
    returns (selected: bool, ops: seq<MachineOp>)
    ensures selected <==> hasMsa && Is128(resTy) && splat.Some? && FormatOf(splat.value.width).Some?
    ensures !selected ==> ops == []
    ensures selected ==> |ops| > 0
    ensures selected ==>
      var df := FormatOf(splat.value.width).value;
      Final(ops) == Vec(resTy, df, Splat(splat.value.bits, df))
      && (ops[|ops| - 1].CopyToRegClass? <==> resTy != IntVecType(df))
    ensures selected ==> AllEncodable(ops) && (abi == O32 ==> Fits32BitTarget(ops))
    ensures selected && IsSignedIntN(splat.value, 10) ==>
      var df := FormatOf(splat.value.width).value;
      ops[0] == LDI(df, Signed(splat.value.bits, splat.value.width))
      && |ops| == (if resTy == IntVecType(df) then 1 else 2)
  {
    if !hasMsa || !Is128(resTy) || splat.None? {
      return false, [];
    }
    var df := FormatOf(splat.value.width);
    if df.None? {
      return false, [];
    }
    ops := SynthesizeSplat(splat.value, df.value, abi);
    ops := FixUpType(ops, resTy, df.value);
    selected := true;
  }

  /** The closing COPY_TO_REGCLASS when the node's type is not the integer
      type the synthesized sequence writes. */
  method FixUpType(ops: seq<MachineOp>, resTy: VecType, df: DataFormat) returns (ops': seq<MachineOp>)
    requires |ops| > 0 && Is128(resTy) && !ops[|ops| - 1].CopyToRegClass?
    requires Final(ops).Vec? && Final(ops).ty == IntVecType(df)
    ensures |ops'| > 0 && Final(ops') == Vec(resTy, Final(ops).df, Final(ops).lanes)
    ensures ops'[|ops'| - 1].CopyToRegClass? <==> resTy != IntVecType(df)
    ensures ops' == if resTy == IntVecType(df) then ops else ops + [CopyToRegClass(Node(|ops| - 1), resTy)]
    ensures AllEncodable(ops') == AllEncodable(ops) && Fits32BitTarget(ops') == Fits32BitTarget(ops)
  {
    ops' := ops;
    if resTy != IntVecType(df) {
      ops' := EmitCopy(ops, resTy);
    }
  }
}
