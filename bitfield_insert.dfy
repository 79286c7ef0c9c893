/** Selection of the bit-field insert node (M6502ISD::Ins) into one of the
    machine instructions INS (32-bit), DINS, DINSM or DINSU (64-bit).

    The three 64-bit forms split the (position, size) space: DINS covers fields
    that end in the low word, DINSM fields that start in the low word and end in
    the high word, DINSU fields that lie in the high word.  The dispatcher is
    proved to pick the one form whose encoding covers the field, and the field
    semantics of the instruction is given as a function on 64-bit patterns. */
module BitfieldInsert {
  import opened Wrappers
  import opened Bits

  type U64 = x: nat | x < 0x1_0000_0000_0000_0000

  datatype ValueType = I32 | I64 | OtherType

  /** An operand of the Ins node: an ISD::Constant or any other value. */
  datatype InsOperand = ConstantOp(value: U64) | ValueOp(id: nat)

  /** The Ins node: source field value, position, size, base value. */
  datatype InsNode = InsNode(ty: ValueType, operands: seq<InsOperand>)

  datatype InsOpcode = INS | DINS | DINSM | DINSU

  /** The selected machine node: opcode and its four operands. */
  datatype MachineIns = MachineIns(opcode: InsOpcode, src: InsOperand, pos: nat, size: nat, base: InsOperand)

  /** The node passes the operand sanity checks of the dispatcher. */
  predicate WellFormed(n: InsNode)
  {
    (n.ty == I32 || n.ty == I64) && |n.operands| == 4
    && n.operands[1].ConstantOp? && n.operands[2].ConstantOp?
  }

  /** The (position, size) ranges each instruction encodes (MIPS64 ISA). */
  predicate Encodable(opc: InsOpcode, pos: nat, size: nat)
  {
    match opc
    case INS => 0 < size && pos + size <= 32
    case DINS => 0 < size && pos + size <= 32
    case DINSM => pos < 32 && 32 < pos + size <= 64 && 2 <= size
    case DINSU => 32 <= pos && 0 < size && pos + size <= 64
  }

  predicate Is64Bit(opc: InsOpcode)
  {
    opc != INS
  }

  /** The opcode choice, with exact arithmetic on position and size. */
  function ChooseOpcode(ty: ValueType, pos: nat, size: nat): (r: Option<InsOpcode>)
    requires ty == I32 || ty == I64
    requires 0 < size && pos + size <= 64
    ensures r.Some? <==> ty == I64 || pos + size <= 32
    ensures r.Some? ==> Encodable(r.value, pos, size) && (Is64Bit(r.value) <==> ty == I64)
  {
    if ty == I32 then
      if pos + size <= 32 then Some(INS) else None
    else if pos + size <= 32 then Some(DINS)
    else if pos < 32 && 1 < size then Some(DINSM)
    else Some(DINSU)
  }

  /** The M6502ISD::Ins case of trySelect (`None`: the node is not selected here). */
  function SelectIns(n: InsNode): (r: Option<MachineIns>)
    ensures r.Some? <==>
      WellFormed(n)
      && var pos, size := n.operands[1].value, n.operands[2].value;
      size != 0 && pos + size <= 64 && (n.ty == I64 || pos + size <= 32)
    ensures r.Some? ==>
      var pos, size := n.operands[1].value, n.operands[2].value;
      r.value == MachineIns(r.value.opcode, n.operands[0], pos, size, n.operands[3])
      && Encodable(r.value.opcode, pos, size)
      && (Is64Bit(r.value.opcode) <==> n.ty == I64)
  {
    if !WellFormed(n) then None
    else
      var pos, size := n.operands[1].value, n.operands[2].value;
      if size == 0 then None
      else if pos + size > 64 then None
      else
        var opc := ChooseOpcode(n.ty, pos, size);
        if opc.Some? then Some(MachineIns(opc.value, n.operands[0], pos, size, n.operands[3]))
        else None
  }

  /** For a 64-bit field exactly one of DINS, DINSM, DINSU encodes it. */
  lemma OneEncodingPer64BitField(pos: nat, size: nat, a: InsOpcode, b: InsOpcode)
    requires Is64Bit(a) && Is64Bit(b) && Encodable(a, pos, size) && Encodable(b, pos, size)
    ensures a == b
  {
  }

  /** Every in-range 64-bit field has a 64-bit encoding, and the dispatcher picks it. */
  lemma SelectInsPicksTheEncoding(n: InsNode, opc: InsOpcode)
    requires WellFormed(n) && n.ty == I64
    requires Is64Bit(opc) && Encodable(opc, n.operands[1].value, n.operands[2].value)
    ensures SelectIns(n).Some? && SelectIns(n).value.opcode == opc
  {
    var r := SelectIns(n);
    OneEncodingPer64BitField(n.operands[1].value, n.operands[2].value, r.value.opcode, opc);
  }

  /** The dispatcher fails exactly on empty fields, fields past bit 63, and
      32-bit nodes whose field passes bit 31. */
  lemma SelectInsFailure(n: InsNode)
    requires WellFormed(n)
    ensures SelectIns(n).None? <==>
      var pos, size := n.operands[1].value, n.operands[2].value;
      size == 0 || pos + size > 64 || (n.ty == I32 && pos + size > 32)
  {
  }

  // ---- the dispatcher as the C++ selector computes it ----

  /** `a + b` in uint64_t arithmetic. */
  function AddU64(a: U64, b: U64): (r: U64)
    ensures a + b < TWO_64 ==> r == a + b
    ensures a + b >= TWO_64 ==> r == a + b - TWO_64
  {
    (a + b) % 0x1_0000_0000_0000_0000
  }

  /** The dispatcher with the position and size sums wrapping at 2^64, as the
      C++ selector's uint64_t arithmetic does. */
  function SelectInsAsWritten(n: InsNode): (r: Option<MachineIns>)
    ensures r.Some? ==> (WellFormed(n)
      && var pos, size := n.operands[1].value, n.operands[2].value;
      size != 0 && AddU64(pos, size) <= 64)
  {
    if !WellFormed(n) then None
    else
      var pos, size := n.operands[1].value, n.operands[2].value;
      var end := AddU64(pos, size);
      if size == 0 then None
      else if end > 64 then None
      else if n.ty == I32 then
        if end <= 32 then Some(MachineIns(INS, n.operands[0], pos, size, n.operands[3])) else None
      else if end <= 32 then Some(MachineIns(DINS, n.operands[0], pos, size, n.operands[3]))
      else if pos < 32 && 1 < size then Some(MachineIns(DINSM, n.operands[0], pos, size, n.operands[3]))
      else Some(MachineIns(DINSU, n.operands[0], pos, size, n.operands[3]))
  }

  /** Without wrap-around the two dispatchers agree. */
  lemma AsWrittenAgreesWithoutWrap(n: InsNode)
    requires WellFormed(n) && n.operands[1].value + n.operands[2].value < TWO_64
    ensures SelectInsAsWritten(n) == SelectIns(n)
  {
  }

  /** A position of 2^64 - 1 with size 2 wraps to an end of 1: the C++ selector selects
      INS for a field that no 32-bit register holds. */
  lemma AsWrittenWrapSelectsUnencodable()
    ensures var n := InsNode(I32, [ValueOp(0), ConstantOp(TWO_64 - 1), ConstantOp(2), ValueOp(1)]);
      SelectInsAsWritten(n).Some? && SelectInsAsWritten(n).value.opcode == INS
      && !Encodable(INS, TWO_64 - 1, 2)
      && SelectIns(n).None?
  {
  }

  // ---- field semantics ----

  /** The machine instruction's result: `base` with bits [pos, pos + size)
      replaced by the low `size` bits of `field`, built one bit at a time from
      the least significant end. */
  function InsertField(base: nat, field: nat, pos: nat, size: nat): nat
    decreases pos + size
  {
    if pos > 0 then base % 2 + 2 * InsertField(base / 2, field, pos - 1, size)
    else if size > 0 then field % 2 + 2 * InsertField(base / 2, field / 2, 0, size - 1)
    else base
  }

  /** The result is the low `pos` bits of `base`, then the low `size` bits of
      `field`, then the bits of `base` above `pos + size`. */
  lemma {:induction false} InsertFieldLayout(base: nat, field: nat, pos: nat, size: nat)
    ensures InsertField(base, field, pos, size)
      == base % Pow2(pos) + Pow2(pos) * (field % Pow2(size) + Pow2(size) * (base / Pow2(pos + size)))
    decreases pos + size
  {
    if pos > 0 {
      InsertFieldLayout(base / 2, field, pos - 1, size);
      var p, r := Pow2(pos - 1), Pow2(pos - 1 + size);
      assert Pow2(pos) == 2 * p;
      assert Pow2(pos + size) == 2 * r;
      HalveMod(base, p);
      HalveDiv(base, r);
      var u := field % Pow2(size) + Pow2(size) * (base / Pow2(pos + size));
      DoubleStep(base % 2, (base / 2) % p, p, u);
    } else if size > 0 {
      InsertFieldLayout(base / 2, field / 2, 0, size - 1);
      var q := Pow2(size - 1);
      assert Pow2(size) == 2 * q;
      HalveMod(field, q);
      HalveDiv(base, q);
      DoubleStep(field % 2, (field / 2) % q, q, base / Pow2(size));
    }
  }

  lemma DoubleStep(c: int, m: int, p: int, u: int)
    ensures c + 2 * (m + p * u) == (c + 2 * m) + (2 * p) * u
  {
  }

  lemma HalveMod(x: nat, p: nat)
    requires p > 0
    ensures x % (2 * p) == x % 2 + 2 * ((x / 2) % p)
  {
    var h := x / 2;
    DivModNat(h, p);
    var a, b := h / p, h % p;
    assert x == (x % 2 + 2 * b) + (2 * p) * a by {
      assert x == x % 2 + 2 * h;
      assert 2 * h == 2 * b + (2 * p) * a;
    }
    DivModOfSum(x % 2 + 2 * b, 2 * p, a);
  }

  lemma HalveDiv(x: nat, q: nat)
    requires q > 0
    ensures (x / 2) / q == x / (2 * q)
  {
    var h := x / 2;
    DivModNat(h, q);
    var a, b := h / q, h % q;
    assert x == (x % 2 + 2 * b) + (2 * q) * a by {
      assert x == x % 2 + 2 * h;
      assert 2 * h == 2 * b + (2 * q) * a;
    }
    DivModOfSum(x % 2 + 2 * b, 2 * q, a);
  }

  /** What the instruction promises: the bits below the field and above it
      come from `base`, the field's bits from the low bits of `field`. */
  lemma InsertFieldMeaning(base: nat, field: nat, pos: nat, size: nat)
    ensures InsertField(base, field, pos, size) % Pow2(pos) == base % Pow2(pos)
    ensures InsertField(base, field, pos, size) / Pow2(pos + size) == base / Pow2(pos + size)
    ensures (InsertField(base, field, pos, size) / Pow2(pos)) % Pow2(size) == field % Pow2(size)
  {
    InsertFieldLayout(base, field, pos, size);
    Pow2Add(pos, size);
    var p, q, pq := Pow2(pos), Pow2(size), Pow2(pos + size);
    DivModNat(base, p);
    DivModNat(field, q);
    DivModNat(base, pq);
    var lo, mi, hi := base % p, field % q, base / pq;
    FieldLayout(lo, mi, hi, p, q);
  }

  /** Lays out three fields `low < p`, `mid < q` and `high` from the least
      significant end, and shows each can be read back. */
  lemma FieldLayout(low: nat, mid: nat, high: nat, p: nat, q: nat)
    requires low < p && mid < q
    ensures var x := low + p * (mid + q * high);
      x % p == low && x / p == mid + q * high && x / (p * q) == high && (x / p) % q == mid
  {
    var upper := mid + q * high;
    DivModOfSum(low, p, upper);
    DivModOfSum(mid, q, high);
    var t := low + p * mid;
    MulBelow(p, mid, q);
    MulAssocDistrib(low, p, mid, q, high);
    DivModOfSum(t, p * q, high);
  }

  lemma MulBelow(p: nat, mid: nat, q: nat)
    requires mid < q
    ensures p * mid <= p * q - p
  {
    assert p * q - p * mid == p * (q - mid);
    if p > 0 {
      MultipleSign(q - mid, p);
    }
  }

  lemma MulAssocDistrib(low: nat, p: nat, mid: nat, q: nat, high: nat)
    ensures low + p * (mid + q * high) == (low + p * mid) + (p * q) * high
    ensures low + p * (mid + q * high) >= 0
  {
    assert p * (mid + q * high) == p * mid + p * (q * high);
    assert p * (q * high) == (p * q) * high;
  }
}
