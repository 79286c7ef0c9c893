/** The vector-splat immediate predicates of the M6502 instruction selector:
    tests on the constant that a BUILD_VECTOR node repeats in every element,
    used by MSA instruction patterns to fold that constant into an immediate.

    The splat value arrives as an input: which constant the node repeats (if
    any) is decided by the selection DAG's isConstantSplat, looked up through
    one BITCAST, and is not part of this model. */
module SplatPredicates {
  import opened Wrappers
  import opened Bits

  /** An APInt: a bit pattern of a given width (at least one bit). */
  datatype APIntRaw = APInt(width: nat, bits: nat)
  type APIntValue = a: APIntRaw | a.width >= 1 && a.bits < Pow2(a.width) witness APInt(1, 0)

  /** The operand of a splat pattern: the element width of its vector type, and
      the constant splat found under it (`None`: not a constant splat). */
  datatype SplatOperand = SplatOperand(eltBits: nat, splat: Option<APIntValue>)

  /** selectVSplat: the splat constant, when MSA is enabled. */
  function SelectVSplat(msa: bool, n: SplatOperand): (r: Option<APIntValue>)
    ensures r.Some? <==> msa && n.splat.Some?
    ensures r.Some? ==> r == n.splat
  {
    if !msa then None else n.splat
  }

  /** The splat constant, if it has the element width (the common first step of
      every predicate below). */
  function ElementSplat(msa: bool, n: SplatOperand): (r: Option<APIntValue>)
    ensures r.Some? <==> msa && n.splat.Some? && n.splat.value.width == n.eltBits
    ensures r.Some? ==> r == n.splat
  {
    var v := SelectVSplat(msa, n);
    if v.Some? && v.value.width == n.eltBits then v else None
  }

  /** APInt::isIntN: the pattern has no set bit at or above bit `k`. */
  predicate IsUIntN(a: APIntValue, k: nat)
  {
    a.bits < Pow2(k)
  }

  /** APInt::isSignedIntN: the two's-complement value fits `k` signed bits. */
  predicate IsSignedIntN(a: APIntValue, k: nat)
    requires k >= 1
  {
    FitsSigned(Signed(a.bits, a.width), k)
  }

  /** selectVSplatCommon: the element-width splat, if it fits an immediate of
      `immBits` bits of the given signedness. */
  function SelectVSplatCommon(msa: bool, n: SplatOperand, signed: bool, immBits: nat): (r: Option<APIntValue>)
    requires immBits >= 1
    ensures r.Some? <==>
      ElementSplat(msa, n).Some?
      && (if signed then IsSignedIntN(n.splat.value, immBits) else IsUIntN(n.splat.value, immBits))
    ensures r.Some? ==> r == n.splat
  {
    var v := ElementSplat(msa, n);
    if v.Some? && ((signed && IsSignedIntN(v.value, immBits)) || (!signed && IsUIntN(v.value, immBits))) then v
    else None
  }

  function SelectVSplatUimm1(msa: bool, n: SplatOperand): (r: Option<APIntValue>)
    ensures r.Some? ==> r.value.bits < 2
  {
    SelectVSplatCommon(msa, n, false, 1)
  }

  function SelectVSplatUimm2(msa: bool, n: SplatOperand): (r: Option<APIntValue>)
    ensures r.Some? ==> r.value.bits < 4
  {
    SelectVSplatCommon(msa, n, false, 2)
  }

  function SelectVSplatUimm3(msa: bool, n: SplatOperand): (r: Option<APIntValue>)
    ensures r.Some? ==> r.value.bits < 8
  {
    SelectVSplatCommon(msa, n, false, 3)
  }

  function SelectVSplatUimm4(msa: bool, n: SplatOperand): (r: Option<APIntValue>)
    ensures r.Some? ==> r.value.bits < 16
  {
    SelectVSplatCommon(msa, n, false, 4)
  }

  function SelectVSplatUimm5(msa: bool, n: SplatOperand): (r: Option<APIntValue>)
    ensures r.Some? ==> r.value.bits < 32
  {
    SelectVSplatCommon(msa, n, false, 5)
  }

  function SelectVSplatUimm6(msa: bool, n: SplatOperand): (r: Option<APIntValue>)
    ensures r.Some? ==> r.value.bits < 64
  {
    SelectVSplatCommon(msa, n, false, 6)
  }

  function SelectVSplatUimm8(msa: bool, n: SplatOperand): (r: Option<APIntValue>)
    ensures r.Some? ==> r.value.bits < 256
  {
    Pow2Small();
    SelectVSplatCommon(msa, n, false, 8)
  }

  function SelectVSplatSimm5(msa: bool, n: SplatOperand): (r: Option<APIntValue>)
    ensures r.Some? ==> -16 <= Signed(r.value.bits, r.value.width) < 16
  {
    assert Pow2(4) == 16;
    SelectVSplatCommon(msa, n, true, 5)
  }

  /** APInt::exactLogBase2: the exponent of a power of two, -1 otherwise. */
  function ExactLogBase2(v: nat): (r: int)
    ensures r >= -1
    ensures r >= 0 ==> v == Pow2(r)
    ensures r == -1 ==> forall k: nat :: Pow2(k) != v
  {
    if v == 0 then -1
    else if v == 1 then 0
    else if v % 2 == 1 then
      assert forall k: nat :: Pow2(k) != v by {
        forall k: nat ensures Pow2(k) != v {
          if k > 0 {
            assert Pow2(k) == 2 * Pow2(k - 1);
          }
        }
      }
      -1
    else
      var h := ExactLogBase2(v / 2);
      if h < 0 then
        assert forall k: nat :: Pow2(k) != v by {
          forall k: nat ensures Pow2(k) != v {
            if k > 0 {
              assert Pow2(k) == 2 * Pow2(k - 1);
              assert Pow2(k) / 2 == Pow2(k - 1);
            }
          }
        }
        -1
      else
        h + 1
  }

  /** selectVSplatUimmPow2: the exponent of an element-width splat that is a power of two. */
  function SelectVSplatUimmPow2(msa: bool, n: SplatOperand): (r: Option<nat>)
    ensures r.Some? ==> ElementSplat(msa, n).Some? && n.splat.value.bits == Pow2(r.value)
    ensures (ElementSplat(msa, n).Some? && exists k: nat :: Pow2(k) == n.splat.value.bits) ==> r.Some?
    ensures ElementSplat(msa, n).None? ==> r.None?
  {
    var v := ElementSplat(msa, n);
    if v.Some? then
      var log2 := ExactLogBase2(v.value.bits);
      if log2 != -1 then Some(log2 as nat) else None
    else None
  }

  /** selectVSplatUimmInvPow2: the exponent of the one clear bit of an element-width splat. */
  function SelectVSplatUimmInvPow2(msa: bool, n: SplatOperand): (r: Option<nat>)
    ensures r.Some? ==>
      ElementSplat(msa, n).Some? && BitNot(n.splat.value.bits, n.splat.value.width) == Pow2(r.value)
    ensures (ElementSplat(msa, n).Some?
             && exists k: nat :: Pow2(k) == BitNot(n.splat.value.bits, n.splat.value.width)) ==> r.Some?
    ensures ElementSplat(msa, n).None? ==> r.None?
  {
    var v := ElementSplat(msa, n);
    if v.Some? then
      var log2 := ExactLogBase2(BitNot(v.value.bits, v.value.width));
      if log2 != -1 then Some(log2 as nat) else None
    else None
  }

  /** `x + 1` in `w`-bit arithmetic. */
  function IncWrap(x: nat, w: nat): (r: nat)
    requires x < Pow2(w)
    ensures r < Pow2(w)
    ensures r == (x + 1) % Pow2(w)
  {
    if x + 1 == Pow2(w) then
      DivModOfSum(0, Pow2(w), 1);
      0
    else
      ModSmall(x + 1, Pow2(w));
      x + 1
  }

  /** The MaskR test: `v == (v & ~(v + 1))`. */
  predicate MaskRTest(v: nat, w: nat)
    requires v < Pow2(w)
  {
    v == BitAnd(v, BitNot(IncWrap(v, w), w))
  }

  /** The MaskL test: `v == ~(~v & ~(~v + 1))`. */
  predicate MaskLTest(v: nat, w: nat)
    requires v < Pow2(w)
  {
    var u := BitNot(v, w);
    BitAndBound(u, BitNot(IncWrap(u, w), w));
    v == BitNot(BitAnd(u, BitNot(IncWrap(u, w), w)), w)
  }

  /** countPopulation() - 1 as the C++ selector's `unsigned` arithmetic computes it. */
  function PopCountMinusOne(v: nat): (r: nat)
    ensures v != 0 ==> r == PopCount(v) - 1
  {
    PopCountZero(v);
    if PopCount(v) == 0 then TWO_32 - 1 else PopCount(v) - 1
  }

  /** getTargetConstant(x, EltTy): a constant of the element type, which keeps
      the low `w` bits of `x`. */
  function EltConstant(x: nat, w: nat): (r: nat)
    ensures r < Pow2(w)
    ensures x < Pow2(w) ==> r == x
  {
    var p := Pow2(w);
    DivModNat(x, p);
    if x < p then ModSmall(x, p); x % p else x % p
  }

  /** selectVSplatMaskR: an element-width splat of the form 0b0..01..1, with the
      index of its top set bit as the immediate. */
  function SelectVSplatMaskR(msa: bool, n: SplatOperand): (r: Option<nat>)
    ensures r.Some? <==> ElementSplat(msa, n).Some? && MaskRTest(n.splat.value.bits, n.splat.value.width)
    ensures r.Some? ==> r.value == EltConstant(PopCountMinusOne(n.splat.value.bits), n.splat.value.width)
  {
    var v := ElementSplat(msa, n);
    if v.Some? && MaskRTest(v.value.bits, v.value.width) then
      Some(EltConstant(PopCountMinusOne(v.value.bits), v.value.width))
    else None
  }

  /** selectVSplatMaskL: an element-width splat of the form 0b1..10..0, with its
      number of set bits less one as the immediate. */
  function SelectVSplatMaskL(msa: bool, n: SplatOperand): (r: Option<nat>)
    ensures r.Some? <==> ElementSplat(msa, n).Some? && MaskLTest(n.splat.value.bits, n.splat.value.width)
    ensures r.Some? ==> r.value == EltConstant(PopCountMinusOne(n.splat.value.bits), n.splat.value.width)
  {
    var v := ElementSplat(msa, n);
    if v.Some? && MaskLTest(v.value.bits, v.value.width) then
      Some(EltConstant(PopCountMinusOne(v.value.bits), v.value.width))
    else None
  }

  // ---- what the bit tests mean ----

  /** The MaskR test holds exactly for a run of ones starting at bit zero. */
  lemma MaskRTestMeaning(v: nat, w: nat)
    requires v < Pow2(w)
    ensures MaskRTest(v, w) <==> AllOnes(v)
  {
    var s := IncWrap(v, w);
    BitAndNot(v, s, w);
    if v + 1 == Pow2(w) {
      OnesAreAllOnes(w);
    } else {
      BitAndSuccZero(v);
    }
  }

  /** The MaskL test holds exactly when the complement is a run of ones from bit zero. */
  lemma MaskLTestMeaning(v: nat, w: nat)
    requires v < Pow2(w)
    ensures MaskLTest(v, w) <==> AllOnes(BitNot(v, w))
  {
    var u := BitNot(v, w);
    BitAndBound(u, BitNot(IncWrap(u, w), w));
    MaskRTestMeaning(u, w);
  }

  /** A MaskR splat is 2^(imm+1) - 1: its immediate is the index of its top bit. */
  lemma MaskRValue(msa: bool, n: SplatOperand)
    requires SelectVSplatMaskR(msa, n).Some? && n.splat.value.bits != 0
    ensures SelectVSplatMaskR(msa, n).value == PopCount(n.splat.value.bits) - 1
    ensures n.splat.value.bits == Pow2(SelectVSplatMaskR(msa, n).value + 1) - 1
  {
    var v, w := n.splat.value.bits, n.splat.value.width;
    MaskRTestMeaning(v, w);
    AllOnesValue(v);
    Pow2Below(PopCount(v), w);
    Pow2Exceeds(w);
  }

  /** Conversely every element-width run of low ones is a MaskR splat. */
  lemma MaskRComplete(msa: bool, n: SplatOperand, k: nat)
    requires ElementSplat(msa, n).Some? && n.splat.value.bits == Pow2(k) - 1
    ensures SelectVSplatMaskR(msa, n).Some?
  {
    OnesAreAllOnes(k);
    MaskRTestMeaning(n.splat.value.bits, n.splat.value.width);
  }

  /** A MaskL splat has its top `imm + 1` bits set and the rest clear. */
  lemma MaskLValue(msa: bool, n: SplatOperand)
    requires SelectVSplatMaskL(msa, n).Some? && n.splat.value.bits != 0
    ensures SelectVSplatMaskL(msa, n).value == PopCount(n.splat.value.bits) - 1
    ensures var w, c := n.splat.value.width, SelectVSplatMaskL(msa, n).value + 1;
      c <= w && n.splat.value.bits == Pow2(w) - Pow2(w - c)
  {
    var v, w := n.splat.value.bits, n.splat.value.width;
    var u := BitNot(v, w);
    MaskLTestMeaning(v, w);
    AllOnesValue(u);
    var k := PopCount(u);
    assert u == Pow2(k) - 1;
    Pow2Below(k, w);
    HighOnesPopCount(w, k);
    assert v == Pow2(w) - Pow2(k);
    Pow2Exceeds(w);
  }

  /** Conversely every element-width run of high ones is a MaskL splat. */
  lemma MaskLComplete(msa: bool, n: SplatOperand, k: nat)
    requires ElementSplat(msa, n).Some?
    requires k <= n.splat.value.width && n.splat.value.bits == Pow2(n.splat.value.width) - Pow2(k)
    ensures SelectVSplatMaskL(msa, n).Some?
  {
    OnesAreAllOnes(k);
    MaskLTestMeaning(n.splat.value.bits, n.splat.value.width);
  }

  /** The all-zero splat passes both mask tests.  Its immediate, the unsigned
      0 - 1, is 2^32 - 1 in 32- and 64-bit elements, and truncated to all ones
      of the element in 8- and 16-bit elements. */
  lemma ZeroSplatMasks(msa: bool, n: SplatOperand)
    requires ElementSplat(msa, n).Some? && n.splat.value.bits == 0
    ensures SelectVSplatMaskR(msa, n) == SelectVSplatMaskL(msa, n)
    ensures var w := n.splat.value.width;
      SelectVSplatMaskR(msa, n) == Some(EltConstant(TWO_32 - 1, w))
      && (w == 32 || w == 64 ==> SelectVSplatMaskR(msa, n) == Some(TWO_32 - 1))
      && (w == 16 ==> SelectVSplatMaskR(msa, n) == Some(0xffff))
      && (w == 8 ==> SelectVSplatMaskR(msa, n) == Some(0xff))
  {
    var w := n.splat.value.width;
    Pow2Small();
    Pow2Wide();
    if w == 8 || w == 16 {
      assert Pow2(16) == 0x1_0000 by { Pow2Add(8, 8); }
      assert Pow2(8) == 0x100;
      assert (TWO_32 - 1) % 0x100 == 0xff;
      assert (TWO_32 - 1) % 0x1_0000 == 0xffff;
    } else if w == 64 {
      assert TWO_32 - 1 < Pow2(64);
    }
    MaskRTestMeaning(0, n.splat.value.width);
    OnesAreAllOnes(n.splat.value.width);
    MaskLTestMeaning(0, n.splat.value.width);
  }

  /** An unsigned immediate test of `k` bits accepts exactly the splats below 2^k. */
  lemma UimmMeaning(msa: bool, n: SplatOperand, k: nat)
    requires k >= 1 && ElementSplat(msa, n).Some?
    ensures SelectVSplatCommon(msa, n, false, k).Some? <==> n.splat.value.bits < Pow2(k)
  {
  }

  /** A splat of the wrong element width is refused by every predicate. */
  lemma WrongWidthRefused(msa: bool, n: SplatOperand, immBits: nat)
    requires immBits >= 1 && n.splat.Some? && n.splat.value.width != n.eltBits
    ensures SelectVSplatCommon(msa, n, true, immBits).None?
    ensures SelectVSplatCommon(msa, n, false, immBits).None?
    ensures SelectVSplatUimmPow2(msa, n).None? && SelectVSplatUimmInvPow2(msa, n).None?
    ensures SelectVSplatMaskL(msa, n).None? && SelectVSplatMaskR(msa, n).None?
  {
  }

  /** A v16i8 splat of 0x0f: MaskR with immediate 3, not MaskL, not a power of two. */
  lemma ExampleMasks()
    ensures var n := SplatOperand(8, Some(APInt(8, 0x0f)));
      SelectVSplatMaskR(true, n) == Some(3) && SelectVSplatMaskL(true, n).None?
      && SelectVSplatUimmPow2(true, n).None?
  {
    Pow2Small();
    assert Pow2(4) == 16;
    OnesAreAllOnes(4);
    OnesPopCount(4);
    MaskRTestMeaning(0x0f, 8);
    MaskLTestMeaning(0x0f, 8);
    assert BitNot(0x0f, 8) == 0xf0;
    assert !AllOnes(0xf0);
  }
}
