/** Address-mode matchers of the M6502 instruction selector: the complex
    patterns that split an address node into a base operand and an offset
    operand for loads, stores and inline-assembly memory operands.

    A matcher that returns false is `None`; one that returns true is
    `Some(AddrMatch(base, offset))`.  Address nodes are a small tree of the
    selection-DAG node kinds the matchers look at.  Beside the matchers sits a
    semantic partner: an evaluator of address nodes over an arbitrary
    environment, and lemmas showing that every match is sound, i.e. base plus
    offset computes the original address (modulo the pointer width). */
module AddrModes {
  import opened Wrappers
  import opened Bits

  /** The selection-DAG nodes an address can be built from. */
  datatype Node =
    | FrameIndex(index: nat)
    | Constant(bits: nat, width: nat)          // an integer constant of `width` bits
    | Add(lhs: Node, rhs: Node)
    | Or(lhs: Node, rhs: Node, disjoint: bool) // `disjoint`: no common bits set (known to the DAG)
    | Wrapper(base: Node, offset: Node)        // M6502ISD::Wrapper, a PIC address
    | Lo(sym: Node)                            // M6502ISD::Lo
    | GPRel(sym: Node)                         // M6502ISD::GPRel
    | ConstantPool(cpi: nat)
    | GlobalAddress(name: string)
    | JumpTable(jti: nat)
    | GlobalTLSAddress(name: string)
    | TargetConstantPool(cpi: nat)
    | TargetGlobalAddress(name: string)
    | TargetGlobalTLSAddress(name: string)
    | TargetJumpTable(jti: nat)
    | TargetExternalSymbol(name: string)
    | Leaf(id: nat)                            // any other value: a register copy, a load, ...

  /** A selected operand: a target frame index, a target constant, or a node kept as it is. */
  datatype Operand =
    | TargetFrameIndex(index: nat)
    | TargetConstant(value: nat)
    | NodeOperand(node: Node)

  datatype AddrMatch = AddrMatch(base: Operand, offset: Operand)

  // ---- constant views ----

  /** getZExtValue: the constant's bit pattern. */
  function ZExtValue(bits: nat, width: nat): (r: nat)
    ensures r < Pow2(width)
  {
    bits % Pow2(width)
  }

  /** getSExtValue: the constant's pattern read as a two's-complement number. */
  function SExtValue(bits: nat, width: nat): (r: int)
    ensures r % Pow2(width) == ZExtValue(bits, width)
    ensures width >= 1 ==> -(Pow2(width - 1) as int) <= r < Pow2(width - 1)
  {
    var z := ZExtValue(bits, width);
    if width >= 1 then Signed(z, width) else z
  }

  /** isIntN: `x` is representable as an `n`-bit signed value. */
  predicate IsIntN(n: nat, x: int)
    requires n >= 1
  {
    n >= 64 || FitsSigned(x, n)
  }

  /** OffsetToAlignment: how far `value` is below the next multiple of `align`. */
  function OffsetToAlignment(value: nat, align: nat): (r: nat)
    requires align >= 1
    ensures r < align
    ensures r == 0 <==> value % align == 0
    ensures (value + r) % align == 0
  {
    var m := value % align;
    if m == 0 then 0
    else
      DivModOfSum(0, align, value / align + 1);
      align - m
  }

  /** isBaseWithConstantOffset: an ADD with a constant right operand, or an OR of
      a constant that has no bits in common with the left operand. */
  predicate IsBaseWithConstantOffset(addr: Node)
  {
    (addr.Add? && addr.rhs.Constant?) || (addr.Or? && addr.rhs.Constant? && addr.disjoint)
  }

  /** A base-plus-constant address whose constant is an `n`-bit signed value. */
  predicate OffsetFits(addr: Node, n: nat)
    requires n >= 1
  {
    IsBaseWithConstantOffset(addr) && IsIntN(n, SExtValue(addr.rhs.bits, addr.rhs.width))
  }

  /** isa<GlobalAddressSDNode>: a global or TLS global address, plain or Target. */
  predicate IsGlobalAddressNode(n: Node)
  {
    n.GlobalAddress? || n.TargetGlobalAddress? || n.GlobalTLSAddress? || n.TargetGlobalTLSAddress?
  }

  /** isa<ConstantPoolSDNode>, isa<GlobalAddressSDNode> or isa<JumpTableSDNode>:
      the opcodes each of these node classes holds. */
  predicate IsSymbolNode(n: Node)
  {
    n.ConstantPool? || n.TargetConstantPool? || IsGlobalAddressNode(n)
    || n.JumpTable? || n.TargetJumpTable?
  }

  // ---- the matchers ----

  /** The default split, sound for every address (IntAddrSound): the address
      itself as base, with a target constant zero as offset. */
  function ZeroOffset(addr: Node): (r: AddrMatch)
    ensures r.base == NodeOperand(addr) && r.offset == TargetConstant(0)
  {
    AddrMatch(NodeOperand(addr), TargetConstant(0))
  }

  /** selectAddrFrameIndex: a bare frame index becomes (TargetFrameIndex, 0). */
  function SelectAddrFrameIndex(addr: Node): (r: Option<AddrMatch>)
    ensures r.Some? <==> addr.FrameIndex?
    ensures r.Some? ==> r.value == AddrMatch(TargetFrameIndex(addr.index), TargetConstant(0))
  {
    if addr.FrameIndex? then Some(AddrMatch(TargetFrameIndex(addr.index), TargetConstant(0)))
    else None
  }

  /** selectAddrFrameIndexOffset: base + constant (or base | disjoint constant)
      whose constant fits `offsetBits + shift` signed bits.  A frame-index base
      is replaced by its target frame index and needs no alignment; any other
      base needs an offset that is a multiple of `2^shift`. */
  function SelectAddrFrameIndexOffset(addr: Node, offsetBits: nat, shift: nat): (r: Option<AddrMatch>)
    requires offsetBits + shift >= 1
    ensures r.Some? <==>
      OffsetFits(addr, offsetBits + shift)
      && (addr.lhs.FrameIndex? || ZExtValue(addr.rhs.bits, addr.rhs.width) % Pow2(shift) == 0)
    ensures r.Some? ==>
      r.value.offset == TargetConstant(ZExtValue(addr.rhs.bits, addr.rhs.width))
      && r.value.base == (if addr.lhs.FrameIndex? then TargetFrameIndex(addr.lhs.index) else NodeOperand(addr.lhs))
  {
    if IsBaseWithConstantOffset(addr) then
      var c := addr.rhs;
      if IsIntN(offsetBits + shift, SExtValue(c.bits, c.width)) then
        var offset := TargetConstant(ZExtValue(c.bits, c.width));
        if addr.lhs.FrameIndex? then Some(AddrMatch(TargetFrameIndex(addr.lhs.index), offset))
        else if OffsetToAlignment(ZExtValue(c.bits, c.width), Pow2(shift)) != 0 then None
        else Some(AddrMatch(NodeOperand(addr.lhs), offset))
      else None
    else None
  }

  /** selectAddrRegImm: the general load/store pattern, tried in a fixed order. */
  function SelectAddrRegImm(addr: Node, pic: bool): (r: Option<AddrMatch>)
    ensures addr.FrameIndex? ==> r == SelectAddrFrameIndex(addr)
    ensures addr.Wrapper? ==> r == Some(AddrMatch(NodeOperand(addr.base), NodeOperand(addr.offset)))
    ensures !pic && (addr.TargetExternalSymbol? || addr.TargetGlobalAddress?) ==> r.None?
    ensures !addr.FrameIndex? && !addr.Wrapper? && SelectAddrFrameIndexOffset(addr, 16, 0).Some? ==>
      r == SelectAddrFrameIndexOffset(addr, 16, 0)
    ensures r.Some? ==>
      addr.FrameIndex? || addr.Wrapper? || SelectAddrFrameIndexOffset(addr, 16, 0) == r
      || (addr.Add? && (addr.rhs.Lo? || addr.rhs.GPRel?) && IsSymbolNode(addr.rhs.sym)
          && r.value == AddrMatch(NodeOperand(addr.lhs), NodeOperand(addr.rhs.sym)))
  {
    var fi := SelectAddrFrameIndex(addr);
    if fi.Some? then fi
    else if addr.Wrapper? then Some(AddrMatch(NodeOperand(addr.base), NodeOperand(addr.offset)))
    else if !pic && (addr.TargetExternalSymbol? || addr.TargetGlobalAddress?) then None
    else
      var fio := SelectAddrFrameIndexOffset(addr, 16, 0);
      if fio.Some? then fio
      else if addr.Add? && (addr.rhs.Lo? || addr.rhs.GPRel?) && IsSymbolNode(addr.rhs.sym) then
        Some(AddrMatch(NodeOperand(addr.lhs), NodeOperand(addr.rhs.sym)))
      else None
  }

  /** selectAddrDefault: sound for every address, since it is the address plus
      zero; it never fails. */
  function SelectAddrDefault(addr: Node): (r: Option<AddrMatch>)
    ensures r == Some(ZeroOffset(addr))
  {
    Some(ZeroOffset(addr))
  }

  /** The shape shared by selectAddrRegImm9/11/12/16: a frame index, or a frame
      index or register plus an offset of `bits` signed bits. */
  function SelectAddrRegImmN(addr: Node, bits: nat): (r: Option<AddrMatch>)
    requires bits >= 1
    ensures r.Some? <==> addr.FrameIndex? || SelectAddrFrameIndexOffset(addr, bits, 0).Some?
    ensures addr.FrameIndex? ==> r == SelectAddrFrameIndex(addr)
    ensures r.Some? && !addr.FrameIndex? ==> r == SelectAddrFrameIndexOffset(addr, bits, 0)
  {
    var fi := SelectAddrFrameIndex(addr);
    if fi.Some? then fi else SelectAddrFrameIndexOffset(addr, bits, 0)
  }

  function SelectAddrRegImm9(addr: Node): (r: Option<AddrMatch>)
    ensures r.Some? ==> addr.FrameIndex? || OffsetFits(addr, 9)
  {
    SelectAddrRegImmN(addr, 9)
  }

  function SelectAddrRegImm11(addr: Node): (r: Option<AddrMatch>)
    ensures r.Some? ==> addr.FrameIndex? || OffsetFits(addr, 11)
  {
    SelectAddrRegImmN(addr, 11)
  }

  function SelectAddrRegImm12(addr: Node): (r: Option<AddrMatch>)
    ensures r.Some? ==> addr.FrameIndex? || OffsetFits(addr, 12)
  {
    SelectAddrRegImmN(addr, 12)
  }

  function SelectAddrRegImm16(addr: Node): (r: Option<AddrMatch>)
    ensures r.Some? ==> addr.FrameIndex? || OffsetFits(addr, 16)
  {
    SelectAddrRegImmN(addr, 16)
  }

  /** A matcher followed by the default pattern never fails. */
  function OrDefault(m: Option<AddrMatch>, addr: Node): (r: Option<AddrMatch>)
    ensures r.Some?
    ensures m.Some? ==> r == m
    ensures m.None? ==> r.value == ZeroOffset(addr)
  {
    if m.Some? then m else SelectAddrDefault(addr)
  }

  /** selectIntAddr: the general pattern, or the default. */
  function SelectIntAddr(addr: Node, pic: bool): (r: Option<AddrMatch>)
    ensures r.Some?
    ensures SelectAddrRegImm(addr, pic).Some? ==> r == SelectAddrRegImm(addr, pic)
    ensures SelectAddrRegImm(addr, pic).None? ==> r == Some(ZeroOffset(addr))
  {
    OrDefault(SelectAddrRegImm(addr, pic), addr)
  }

  function SelectIntAddr11MM(addr: Node): (r: Option<AddrMatch>)
    ensures r.Some?
    ensures SelectAddrRegImm11(addr).Some? ==> r == SelectAddrRegImm11(addr)
    ensures SelectAddrRegImm11(addr).None? ==> r == Some(ZeroOffset(addr))
  {
    OrDefault(SelectAddrRegImm11(addr), addr)
  }

  function SelectIntAddr12MM(addr: Node): (r: Option<AddrMatch>)
    ensures r.Some?
    ensures SelectAddrRegImm12(addr).Some? ==> r == SelectAddrRegImm12(addr)
    ensures SelectAddrRegImm12(addr).None? ==> r == Some(ZeroOffset(addr))
  {
    OrDefault(SelectAddrRegImm12(addr), addr)
  }

  function SelectIntAddr16MM(addr: Node): (r: Option<AddrMatch>)
    ensures r.Some?
    ensures SelectAddrRegImm16(addr).Some? ==> r == SelectAddrRegImm16(addr)
    ensures SelectAddrRegImm16(addr).None? ==> r == Some(ZeroOffset(addr))
  {
    OrDefault(SelectAddrRegImm16(addr), addr)
  }

  /** The LW16 offset test: the 32-bit offset equals itself masked with 0x3c. */
  predicate Lsl2Offset(offset: nat)
  {
    var cnstOff := offset % TWO_32;
    cnstOff == BitAnd(cnstOff, 0x3c)
  }

  /** selectIntAddrLSL2MM: a register base with a small word-aligned offset,
      otherwise the default pattern only when the general pattern would not
      apply (so that LW rather than LW16 is selected). */
  function SelectIntAddrLSL2MM(addr: Node, pic: bool): (r: Option<AddrMatch>)
    ensures SelectAddrFrameIndexOffset(addr, 7, 0).Some? ==>
      (r.Some? <==> !addr.lhs.FrameIndex? && Lsl2Offset(ZExtValue(addr.rhs.bits, addr.rhs.width)))
    ensures SelectAddrFrameIndexOffset(addr, 7, 0).Some? && r.Some? ==> r == SelectAddrFrameIndexOffset(addr, 7, 0)
    ensures r.Some? ==> r.value.offset.TargetConstant? && !r.value.base.TargetFrameIndex?
    ensures SelectAddrFrameIndexOffset(addr, 7, 0).None? ==>
      r == (if SelectAddrRegImm(addr, pic).Some? then None else Some(ZeroOffset(addr)))
  {
    var m := SelectAddrFrameIndexOffset(addr, 7, 0);
    if m.Some? then
      if m.value.base.TargetFrameIndex? then None
      else if Lsl2Offset(m.value.offset.value) then m
      else None
    else if SelectAddrRegImm(addr, pic).Some? then None
    else SelectAddrDefault(addr)
  }

  /** The shape shared by selectIntAddrSImm10 and its Lsl1/2/3 forms. */
  function SelectIntAddrSImm10Shifted(addr: Node, shift: nat): (r: Option<AddrMatch>)
    ensures r.Some?
    ensures addr.FrameIndex? ==> r == SelectAddrFrameIndex(addr)
    ensures !addr.FrameIndex? ==> r == OrDefault(SelectAddrFrameIndexOffset(addr, 10, shift), addr)
  {
    var fi := SelectAddrFrameIndex(addr);
    if fi.Some? then fi
    else
      var fio := SelectAddrFrameIndexOffset(addr, 10, shift);
      if fio.Some? then fio else SelectAddrDefault(addr)
  }

  function SelectIntAddrSImm10(addr: Node): (r: Option<AddrMatch>)
    ensures r.Some?
  {
    SelectIntAddrSImm10Shifted(addr, 0)
  }

  function SelectIntAddrSImm10Lsl1(addr: Node): (r: Option<AddrMatch>)
    ensures r.Some?
  {
    SelectIntAddrSImm10Shifted(addr, 1)
  }

  function SelectIntAddrSImm10Lsl2(addr: Node): (r: Option<AddrMatch>)
    ensures r.Some?
  {
    SelectIntAddrSImm10Shifted(addr, 2)
  }

  function SelectIntAddrSImm10Lsl3(addr: Node): (r: Option<AddrMatch>)
    ensures r.Some?
  {
    SelectIntAddrSImm10Shifted(addr, 3)
  }

  // ---- inline assembly memory operands ----

  datatype MemConstraint = ConstraintI | ConstraintM | ConstraintR | ConstraintZC | OtherConstraint(id: nat)

  /** The operand pair pushed for a memory constraint; its two operands sum to
      the pointer (InlineAsmSound): the matched base and offset, or the raw
      pointer with offset 0. */
  function MatchedOrRaw(m: Option<AddrMatch>, op: Node): (r: seq<Operand>)
    ensures |r| == 2
    ensures m.Some? ==> r == [m.value.base, m.value.offset]
    ensures m.None? ==> r == [NodeOperand(op), TargetConstant(0)]
  {
    if m.Some? then [m.value.base, m.value.offset] else [NodeOperand(op), TargetConstant(0)]
  }

  /** SelectInlineAsmMemoryOperand: two operands whose sum is the pointer
      (InlineAsmSound), chosen by one address pattern per constraint.  `None`
      is the unreachable default case; every known constraint succeeds. */
  function SelectInlineAsmMemoryOperand(op: Node, c: MemConstraint, micro: bool, r6: bool): (r: Option<seq<Operand>>)
    ensures r.Some? <==> !c.OtherConstraint?
    ensures r.Some? ==> |r.value| == 2
    ensures c == ConstraintI ==> r == Some([NodeOperand(op), TargetConstant(0)])
    ensures c == ConstraintM ==> r == Some(MatchedOrRaw(SelectAddrRegImm16(op), op))
    ensures c == ConstraintR ==> r == Some(MatchedOrRaw(SelectAddrRegImm9(op), op))
    ensures c == ConstraintZC ==> r == Some(MatchedOrRaw(
      if micro then SelectAddrRegImm12(op) else if r6 then SelectAddrRegImm9(op) else SelectAddrRegImm16(op), op))
  {
    match c
    case ConstraintI => Some([NodeOperand(op), TargetConstant(0)])
    case ConstraintM => Some(MatchedOrRaw(SelectAddrRegImm16(op), op))
    case ConstraintR => Some(MatchedOrRaw(SelectAddrRegImm9(op), op))
    case ConstraintZC =>
      if micro then Some(MatchedOrRaw(SelectAddrRegImm12(op), op))
      else if r6 then Some(MatchedOrRaw(SelectAddrRegImm9(op), op))
      else Some(MatchedOrRaw(SelectAddrRegImm16(op), op))
    case OtherConstraint(_) => None
  }

  // ---- semantics of addresses ----

  /** Values the matchers never compute: frame-object addresses and the value
      of every node the model treats as unknown (symbols, leaves, an OR whose
      operands may share bits). */
  datatype Env = Env(frame: nat -> int, unknown: Node -> int)

  /** The address a node computes.  Lo and GPRel mark a symbol whose relocation
      already selects the low / GP-relative part, so they add nothing of their own. */
  function Eval(n: Node, env: Env): int
  {
    match n
    case FrameIndex(i) => env.frame(i)
    case Constant(bits, width) => SExtValue(bits, width)
    case Add(l, r) => Eval(l, env) + Eval(r, env)
    case Or(l, r, disjoint) => if disjoint then Eval(l, env) + Eval(r, env) else env.unknown(n)
    case Wrapper(b, o) => Eval(b, env) + Eval(o, env)
    case Lo(s) => Eval(s, env)
    case GPRel(s) => Eval(s, env)
    case _ => env.unknown(n)
  }

  function OperandValue(op: Operand, env: Env): int
  {
    match op
    case TargetFrameIndex(i) => env.frame(i)
    case TargetConstant(v) => v
    case NodeOperand(n) => Eval(n, env)
  }

  /** Every constant in the address tree has the pointer width `w`. */
  predicate Typed(n: Node, w: nat)
  {
    match n
    case Constant(_, width) => width == w
    case Add(l, r) => Typed(l, w) && Typed(r, w)
    case Or(l, r, _) => Typed(l, w) && Typed(r, w)
    case Wrapper(b, o) => Typed(b, w) && Typed(o, w)
    case Lo(s) => Typed(s, w)
    case GPRel(s) => Typed(s, w)
    case _ => true
  }

  /** A match is sound when base plus offset wraps to the same pointer as the address. */
  predicate Sound(m: AddrMatch, addr: Node, env: Env, w: nat)
  {
    (OperandValue(m.base, env) + OperandValue(m.offset, env)) % Pow2(w) == Eval(addr, env) % Pow2(w)
  }

  lemma FrameIndexSound(addr: Node, env: Env, w: nat)
    requires SelectAddrFrameIndex(addr).Some?
    ensures Sound(SelectAddrFrameIndex(addr).value, addr, env, w)
  {
  }

  lemma FrameIndexOffsetSound(addr: Node, offsetBits: nat, shift: nat, env: Env, w: nat)
    requires offsetBits + shift >= 1 && Typed(addr, w)
    requires SelectAddrFrameIndexOffset(addr, offsetBits, shift).Some?
    ensures Sound(SelectAddrFrameIndexOffset(addr, offsetBits, shift).value, addr, env, w)
  {
    var m := SelectAddrFrameIndexOffset(addr, offsetBits, shift).value;
    var c := addr.rhs;
    assert Typed(c, w);
    var z, s := ZExtValue(c.bits, w), SExtValue(c.bits, w);
    var base := Eval(addr.lhs, env);
    assert OperandValue(m.base, env) == base;
    assert OperandValue(m.offset, env) == z;
    assert Eval(addr, env) == base + s;
    DivModOfSum(z, Pow2(w), 0);
    ModAddCongruent(base, z, s, Pow2(w));
  }

  lemma AddrRegImmSound(addr: Node, pic: bool, env: Env, w: nat)
    requires Typed(addr, w) && SelectAddrRegImm(addr, pic).Some?
    ensures Sound(SelectAddrRegImm(addr, pic).value, addr, env, w)
  {
    if !addr.FrameIndex? && !addr.Wrapper? && SelectAddrFrameIndexOffset(addr, 16, 0).Some? {
      FrameIndexOffsetSound(addr, 16, 0, env, w);
    }
  }

  lemma AddrRegImmNSound(addr: Node, bits: nat, env: Env, w: nat)
    requires bits >= 1 && Typed(addr, w) && SelectAddrRegImmN(addr, bits).Some?
    ensures Sound(SelectAddrRegImmN(addr, bits).value, addr, env, w)
  {
    if !addr.FrameIndex? {
      FrameIndexOffsetSound(addr, bits, 0, env, w);
    }
  }

  /** Every result of the total matchers is sound. */
  lemma IntAddrSound(addr: Node, pic: bool, env: Env, w: nat)
    requires Typed(addr, w)
    ensures Sound(SelectIntAddr(addr, pic).value, addr, env, w)
  {
    if SelectAddrRegImm(addr, pic).Some? {
      AddrRegImmSound(addr, pic, env, w);
    }
  }

  /** The microMIPS total matchers (11, 12 and 16-bit offsets, or the default) are sound. */
  lemma IntAddrMMSound(addr: Node, bits: nat, env: Env, w: nat)
    requires Typed(addr, w) && bits >= 1
    ensures Sound(OrDefault(SelectAddrRegImmN(addr, bits), addr).value, addr, env, w)
    ensures bits == 11 ==> SelectIntAddr11MM(addr) == OrDefault(SelectAddrRegImmN(addr, bits), addr)
    ensures bits == 12 ==> SelectIntAddr12MM(addr) == OrDefault(SelectAddrRegImmN(addr, bits), addr)
    ensures bits == 16 ==> SelectIntAddr16MM(addr) == OrDefault(SelectAddrRegImmN(addr, bits), addr)
  {
    if SelectAddrRegImmN(addr, bits).Some? {
      AddrRegImmNSound(addr, bits, env, w);
    }
  }

  lemma SImm10Sound(addr: Node, shift: nat, env: Env, w: nat)
    requires Typed(addr, w)
    ensures Sound(SelectIntAddrSImm10Shifted(addr, shift).value, addr, env, w)
  {
    if !addr.FrameIndex? && SelectAddrFrameIndexOffset(addr, 10, shift).Some? {
      FrameIndexOffsetSound(addr, 10, shift, env, w);
    }
  }

  lemma LSL2MMSound(addr: Node, pic: bool, env: Env, w: nat)
    requires Typed(addr, w) && SelectIntAddrLSL2MM(addr, pic).Some?
    ensures Sound(SelectIntAddrLSL2MM(addr, pic).value, addr, env, w)
  {
    if SelectAddrFrameIndexOffset(addr, 7, 0).Some? {
      FrameIndexOffsetSound(addr, 7, 0, env, w);
    }
  }

  /** The inline-assembly operand pair also computes the pointer. */
  lemma InlineAsmSound(op: Node, c: MemConstraint, micro: bool, r6: bool, env: Env, w: nat)
    requires Typed(op, w) && !c.OtherConstraint?
    ensures var ops := SelectInlineAsmMemoryOperand(op, c, micro, r6).value;
      (OperandValue(ops[0], env) + OperandValue(ops[1], env)) % Pow2(w) == Eval(op, env) % Pow2(w)
  {
    var bits := if c == ConstraintR || (c == ConstraintZC && !micro && r6) then 9
                else if c == ConstraintZC && micro then 12 else 16;
    if c != ConstraintI && SelectAddrRegImmN(op, bits).Some? {
      AddrRegImmNSound(op, bits, env, w);
    }
  }

  // ---- properties of the offset tests ----

  /** A selected offset is the constant's pattern, the constant fits the signed
      width, and it is a multiple of `2^shift` unless the base is a frame index. */
  lemma FrameIndexOffsetBounds(addr: Node, offsetBits: nat, shift: nat)
    requires offsetBits + shift >= 1 && offsetBits + shift < 64
    requires SelectAddrFrameIndexOffset(addr, offsetBits, shift).Some?
    ensures var m := SelectAddrFrameIndexOffset(addr, offsetBits, shift).value;
      var s := SExtValue(addr.rhs.bits, addr.rhs.width);
      m.offset == TargetConstant(ZExtValue(addr.rhs.bits, addr.rhs.width))
      && -(Pow2(offsetBits + shift - 1) as int) <= s < Pow2(offsetBits + shift - 1)
      && (!m.base.TargetFrameIndex? ==> m.offset.value % Pow2(shift) == 0)
  {
  }

  /** LW16's offset test accepts exactly the multiples of four below 64. */
  lemma Lsl2OffsetMeaning(offset: nat)
    ensures Lsl2Offset(offset) <==> offset % TWO_32 < 64 && offset % TWO_32 % 4 == 0
  {
    Mask3cMeaning(offset % TWO_32);
  }

  lemma Mask3cMeaning(u: nat)
    ensures u == BitAnd(u, 0x3c) <==> u < 64 && u % 4 == 0
  {
    var b := BitAnd(u / 4, 15);
    Mask3cShift(u);
    BitAndBoundRight(u / 4, 15);
    DivModNat(u, 4);
    if u == 4 * b {
      DivModOfSum(0, 4, b);
    }
    if u < 64 && u % 4 == 0 {
      assert Pow2(4) == 16;
      BitAndLowOnes(u / 4, 4);
    }
  }

  lemma Mask3cShift(u: nat)
    ensures BitAnd(u, 0x3c) == 4 * BitAnd(u / 4, 15)
  {
    var h := u / 2;
    BitAndStep(u, 0x3c);
    BitAndStep(h, 0x1e);
    assert h / 2 == u / 4;
  }

  /** After a 7-bit match, a frame-index base is always rejected. */
  lemma LSL2MMRejectsFrameIndex(addr: Node, pic: bool)
    requires SelectAddrFrameIndexOffset(addr, 7, 0).Some? && addr.lhs.FrameIndex?
    ensures SelectIntAddrLSL2MM(addr, pic).None?
  {
  }

  /** Whenever the general pattern would match, LW16's pattern does not, except
      through its own 7-bit form. */
  lemma LSL2MMDefersToRegImm(addr: Node, pic: bool)
    requires SelectAddrFrameIndexOffset(addr, 7, 0).None? && SelectAddrRegImm(addr, pic).Some?
    ensures SelectIntAddrLSL2MM(addr, pic).None?
  {
  }

  // ---- concrete cases ----

  /** The two views of a 32-bit constant. */
  lemma ConstantViews32(v: nat)
    requires v < TWO_32
    ensures ZExtValue(v, 32) == v
    ensures SExtValue(v, 32) == if v >= TWO_31 then v - TWO_32 else v
  {
    Pow2Wide();
    ModSmall(v, Pow2(32));
  }

  /** Frame object 3 plus 300: too wide for 9 bits, fine for 16. */
  lemma ExampleFrameOffsetWidth()
    ensures SelectAddrRegImm9(Add(FrameIndex(3), Constant(300, 32))).None?
    ensures SelectAddrRegImm16(Add(FrameIndex(3), Constant(300, 32)))
      == Some(AddrMatch(TargetFrameIndex(3), TargetConstant(300)))
  {
    Pow2Small();
    ConstantViews32(300);
    assert !IsIntN(9, 300) && IsIntN(16, 300);
  }

  /** A register plus 6 is not word aligned: the Lsl2 form falls back to the
      default, while a frame index plus 6 is accepted unaligned. */
  lemma ExampleAlignment()
    ensures SelectIntAddrSImm10Lsl2(Add(Leaf(1), Constant(6, 32)))
      == Some(ZeroOffset(Add(Leaf(1), Constant(6, 32))))
    ensures SelectIntAddrSImm10Lsl2(Add(FrameIndex(0), Constant(6, 32)))
      == Some(AddrMatch(TargetFrameIndex(0), TargetConstant(6)))
  {
    ConstantViews32(6);
    assert Pow2(11) == 0x800 && IsIntN(12, 6);
    assert Pow2(2) == 4 && OffsetToAlignment(6, 4) != 0;
  }

  /** The 32-bit pattern of -4 is a negative offset: a 16-bit register pattern
      keeps it, LW16's pattern (which needs 0..60) refuses it. */
  lemma ExampleNegativeOffset()
    ensures SelectAddrRegImm16(Add(Leaf(1), Constant(TWO_32 - 4, 32)))
      == Some(AddrMatch(NodeOperand(Leaf(1)), TargetConstant(TWO_32 - 4)))
    ensures SelectIntAddrLSL2MM(Add(Leaf(1), Constant(TWO_32 - 4, 32)), false).None?
  {
    ConstantViews32(TWO_32 - 4);
    Pow2Small();
    assert Pow2(6) == 64;
    assert IsIntN(16, -4) && IsIntN(7, -4);
    Lsl2OffsetMeaning(TWO_32 - 4);
    ModSmall(TWO_32 - 4, TWO_32);
  }

  /** The low part of any symbol, plain or Target, folds into the offset:
      base `b` with the symbol as the offset, for every base and either
      relocation.  The total matcher keeps that split, and LW16's pattern
      then refuses, so that LW is selected. */
  lemma LoSymbolFolds(b: Node, sym: Node, lo: Node, pic: bool)
    requires IsSymbolNode(sym) && (lo == Lo(sym) || lo == GPRel(sym))
    ensures SelectAddrRegImm(Add(b, lo), pic) == Some(AddrMatch(NodeOperand(b), NodeOperand(sym)))
    ensures SelectIntAddr(Add(b, lo), pic) == Some(AddrMatch(NodeOperand(b), NodeOperand(sym)))
    ensures SelectIntAddrLSL2MM(Add(b, lo), pic).None?
  {
    assert SelectAddrFrameIndexOffset(Add(b, lo), 16, 0).None?;
    assert SelectAddrFrameIndexOffset(Add(b, lo), 7, 0).None?;
  }

  /** The local-exec TLS shape `lw $2, %tprel_lo(x)($1)`: the low part of a
      TLS global folds into the offset like any other global. */
  lemma ExampleTlsLo()
    ensures SelectAddrRegImm(Add(Leaf(1), Lo(TargetGlobalTLSAddress("x"))), false)
      == Some(AddrMatch(NodeOperand(Leaf(1)), NodeOperand(TargetGlobalTLSAddress("x"))))
  {
    LoSymbolFolds(Leaf(1), TargetGlobalTLSAddress("x"), Lo(TargetGlobalTLSAddress("x")), false);
  }
}
