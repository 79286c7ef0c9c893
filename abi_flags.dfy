/** The record behind the .MIPS.abiflags section and the .module directives:
    its fields are filled in from a snapshot of the subtarget's capability
    predicates by a sequence of setters, each an if/else precedence chain.

    The AFL_* codes are kept abstract: each register size, extension, ASE and
    flag is its own constant, and a mask of ASEs is the set of its members
    (each AFL_ASE_* value is a distinct bit, so `|=` is set union). */
module AbiFlags {
  newtype uint8 = x: int | 0 <= x < 0x100
  newtype uint16 = x: int | 0 <= x < 0x1_0000

  /** Mips::AFL_REG */
  datatype AflReg = REG_NONE | REG_32 | REG_64 | REG_128

  /** Mips::AFL_EXT */
  datatype AflExt = EXT_NONE | EXT_OCTEON

  /** The Mips::AFL_ASE bits that the section records. */
  datatype Ase = ASE_DSP | ASE_DSPR2 | ASE_MSA | ASE_MICROMIPS | ASE_MIPS16 | ASE_MT

  /** The Mips::AFL_FLAGS1 bits. */
  datatype Flag1 = FLAGS1_ODDSPREG

  datatype FpABIKind = ANY | XX | S32 | S64 | SOFT

  /** The capability predicates the setters consult, read once. */
  datatype Predicates = Predicates(
    hasM650264: bool, hasM650264r2: bool, hasM650264r3: bool, hasM650264r5: bool, hasM650264r6: bool,
    hasM650232: bool, hasM650232r2: bool, hasM650232r3: bool, hasM650232r5: bool, hasM650232r6: bool,
    hasM65021: bool, hasM65022: bool, hasM65023: bool, hasM65024: bool, hasM65025: bool,
    isGP64bit: bool, isFP64bit: bool, useSoftFloat: bool, hasMSA: bool, hasCnM6502: bool,
    hasDSP: bool, hasDSPR2: bool, inMicroM6502Mode: bool, inM650216Mode: bool, hasMT: bool,
    isABI_O32: bool, isABI_N32: bool, isABI_N64: bool, isABI_FPXX: bool, useOddSPReg: bool)

  /** Some ISA level is declared; setISALevelAndRevisionFromPredicates reaches llvm_unreachable otherwise. */
  predicate HasIsaLevel(p: Predicates)
  {
    p.hasM650264 || p.hasM650232 || p.hasM65025 || p.hasM65024 || p.hasM65023 || p.hasM65022 || p.hasM65021
  }

  // ---- reference definitions: the level and revision are the highest declared ----

  /** The revisions the 64-bit (or else 32-bit) family declares; revision 1 is implied. */
  function RevisionCandidates(p: Predicates): (r: set<nat>)
    requires p.hasM650264 || p.hasM650232
    ensures 1 in r
  {
    if p.hasM650264 then
      {1} + (if p.hasM650264r2 then {2} else {}) + (if p.hasM650264r3 then {3} else {})
      + (if p.hasM650264r5 then {5} else {}) + (if p.hasM650264r6 then {6} else {})
    else
      {1} + (if p.hasM650232r2 then {2} else {}) + (if p.hasM650232r3 then {3} else {})
      + (if p.hasM650232r5 then {5} else {}) + (if p.hasM650232r6 then {6} else {})
  }

  /** The levels I to V that are declared. */
  function LegacyLevels(p: Predicates): set<nat>
  {
    (if p.hasM65021 then {1} else {}) + (if p.hasM65022 then {2} else {}) + (if p.hasM65023 then {3} else {})
    + (if p.hasM65024 then {4} else {}) + (if p.hasM65025 then {5} else {})
  }

  predicate IsHighest(x: nat, s: set<nat>)
  {
    x in s && forall y :: y in s ==> y <= x
  }

  /** The ASEs the predicates enable. */
  predicate Enabled(p: Predicates, a: Ase)
  {
    match a
    case ASE_DSP => p.hasDSP
    case ASE_DSPR2 => p.hasDSPR2
    case ASE_MSA => p.hasMSA
    case ASE_MICROMIPS => p.inMicroM6502Mode
    case ASE_MIPS16 => p.inM650216Mode
    case ASE_MT => p.hasMT
  }

  /** The floating-point ABI that setFpAbiFromPredicates chooses. */
  function FpAbiOf(p: Predicates): (r: FpABIKind)
    ensures r == SOFT <==> p.useSoftFloat
    ensures r == ANY <==> !p.useSoftFloat && !p.isABI_N32 && !p.isABI_N64 && !p.isABI_O32
    ensures r == XX <==> !p.useSoftFloat && !p.isABI_N32 && !p.isABI_N64 && p.isABI_O32 && p.isABI_FPXX
    ensures r == S32 <==> !p.useSoftFloat && !p.isABI_N32 && !p.isABI_N64 && p.isABI_O32 && !p.isABI_FPXX && !p.isFP64bit
    ensures r == S64 <==>
      !p.useSoftFloat && (p.isABI_N32 || p.isABI_N64 || (p.isABI_O32 && !p.isABI_FPXX && p.isFP64bit))
  {
    if p.useSoftFloat then SOFT
    else if p.isABI_N32 || p.isABI_N64 then S64
    else if p.isABI_O32 then
      if p.isABI_FPXX then XX else if p.isFP64bit then S64 else S32
    else ANY
  }

  /** The fields of the record, as a value. */
  datatype Record = Record(
    version: uint16, isaLevel: uint8, isaRevision: uint8, gprSize: AflReg, cpr1Size: AflReg,
    cpr2Size: AflReg, isaExtension: AflExt, aseSet: set<Ase>, oddSPReg: bool, is32BitABI: bool,
    fpABI: FpABIKind)

  /** The record setAllFromPredicates leaves: every field it sets depends on
      the predicates alone, and Version and CPR2Size are left as they were. */
  predicate DerivedFrom(r: Record, p: Predicates, before: Record)
  {
    && r.version == before.version && r.cpr2Size == before.cpr2Size
    && (p.hasM650264 ==> r.isaLevel == 64 && IsHighest(r.isaRevision as nat, RevisionCandidates(p)))
    && (!p.hasM650264 && p.hasM650232 ==> r.isaLevel == 32 && IsHighest(r.isaRevision as nat, RevisionCandidates(p)))
    && (!p.hasM650264 && !p.hasM650232 ==> r.isaRevision == 0 && IsHighest(r.isaLevel as nat, LegacyLevels(p)))
    && r.gprSize == (if p.isGP64bit then REG_64 else REG_32)
    && (r.cpr1Size == REG_NONE <==> p.useSoftFloat)
    && (r.cpr1Size == REG_128 <==> !p.useSoftFloat && p.hasMSA)
    && (r.cpr1Size == REG_64 <==> !p.useSoftFloat && !p.hasMSA && p.isFP64bit)
    && (r.isaExtension == EXT_OCTEON <==> p.hasCnM6502)
    && (forall a :: a in r.aseSet <==> Enabled(p, a))
    && r.fpABI == FpAbiOf(p) && r.is32BitABI == p.isABI_O32
    && r.oddSPReg == p.useOddSPReg
  }

  /** Two records derived from the same predicates agree on every field except
      the two that setAllFromPredicates does not touch. */
  lemma DerivedIsDetermined(r1: Record, r2: Record, p: Predicates, b1: Record, b2: Record)
    requires HasIsaLevel(p) && DerivedFrom(r1, p, b1) && DerivedFrom(r2, p, b2)
    ensures r1.(version := 0, cpr2Size := REG_NONE) == r2.(version := 0, cpr2Size := REG_NONE)
  {
    HighestUnique(r1.isaRevision as nat, r2.isaRevision as nat, if p.hasM650264 || p.hasM650232 then RevisionCandidates(p) else {0});
    if !p.hasM650264 && !p.hasM650232 {
      HighestUnique(r1.isaLevel as nat, r2.isaLevel as nat, LegacyLevels(p));
    }
    assert r1.aseSet == r2.aseSet;
    assert r1.cpr1Size == r2.cpr1Size;
  }

  /** Deriving again from the same predicates changes nothing. */
  lemma DerivedIdempotent(r1: Record, r2: Record, p: Predicates, before: Record)
    requires HasIsaLevel(p) && DerivedFrom(r1, p, before) && DerivedFrom(r2, p, r1)
    ensures r2 == r1
  {
    DerivedIsDetermined(r1, r2, p, before, r1);
  }

  lemma HighestUnique(x: nat, y: nat, s: set<nat>)
    requires IsHighest(x, s) && IsHighest(y, s)
    ensures x == y
  {
  }

  /** The revision chain of one family: r6, then r5, r3, r2, else 1. */
  function Revision(r6: bool, r5: bool, r3: bool, r2: bool): (r: uint8)
    ensures IsHighest(r as nat, {1} + (if r2 then {2} else {}) + (if r3 then {3} else {})
                                + (if r5 then {5} else {}) + (if r6 then {6} else {}))
  {
    if r6 then 6 else if r5 then 5 else if r3 then 3 else if r2 then 2 else 1
  }

  class M6502ABIFlagsSection {
    var version: uint16
    var isaLevel: uint8
    var isaRevision: uint8
    var gprSize: AflReg
    var cpr1Size: AflReg
    var cpr2Size: AflReg
    var isaExtension: AflExt
    var aseSet: set<Ase>
    var oddSPReg: bool
    var is32BitABI: bool
    var fpABI: FpABIKind

    function Fields(): Record
      reads this
    {
      Record(version, isaLevel, isaRevision, gprSize, cpr1Size, cpr2Size, isaExtension, aseSet, oddSPReg,
             is32BitABI, fpABI)
    }

    /** The default member initializers. */
    constructor ()
      ensures Fields() == Record(0, 0, 0, REG_NONE, REG_NONE, REG_NONE, EXT_NONE, {}, false, false, ANY)
    {
      version, isaLevel, isaRevision := 0, 0, 0;
      gprSize, cpr1Size, cpr2Size := REG_NONE, REG_NONE, REG_NONE;
      isaExtension, aseSet := EXT_NONE, {};
      oddSPReg, is32BitABI, fpABI := false, false, ANY;
    }

    // ---- getters ----

    function GetVersionValue(): uint16 reads this { version }
    function GetISALevelValue(): uint8 reads this { isaLevel }
    function GetISARevisionValue(): uint8 reads this { isaRevision }
    function GetGPRSizeValue(): AflReg reads this { gprSize }
    function GetCPR2SizeValue(): AflReg reads this { cpr2Size }
    function GetISAExtensionValue(): AflExt reads this { isaExtension }
    function GetASESetValue(): set<Ase> reads this { aseSet }
    function GetFpABI(): FpABIKind reads this { fpABI }

    /** Only the ODDSPREG bit is ever set, and it is set exactly when OddSPReg is. */
    function GetFlags1Value(): (r: set<Flag1>)
      reads this
      ensures FLAGS1_ODDSPREG in r <==> oddSPReg
      ensures r <= {FLAGS1_ODDSPREG}
    {
      var value := {};
      if oddSPReg then value + {FLAGS1_ODDSPREG} else value
    }

    /** No AFL_FLAGS2 bit is defined. */
    function GetFlags2Value(): (r: nat)
      ensures r == 0
    {
      0
    }

    // ---- setters ----

    method SetFpABI(value: FpABIKind, isABI32Bit: bool)
      modifies this
      ensures Fields() == old(Fields()).(fpABI := value, is32BitABI := isABI32Bit)
    {
      fpABI := value;
      is32BitABI := isABI32Bit;
    }

    /** 64-bit takes precedence over 32-bit, and within a family the highest
        declared revision wins; levels I to V have revision 0. */
    method SetISALevelAndRevisionFromPredicates(p: Predicates)
      requires HasIsaLevel(p)
      modifies this
      ensures Fields() == old(Fields()).(isaLevel := isaLevel, isaRevision := isaRevision)
      ensures p.hasM650264 ==> isaLevel == 64 && IsHighest(isaRevision as nat, RevisionCandidates(p))
      ensures !p.hasM650264 && p.hasM650232 ==> isaLevel == 32 && IsHighest(isaRevision as nat, RevisionCandidates(p))
      ensures !p.hasM650264 && !p.hasM650232 ==> isaRevision == 0 && IsHighest(isaLevel as nat, LegacyLevels(p))
    {
      var level: uint8, revision: uint8;
      if p.hasM650264 {
        level := 64;
        revision := Revision(p.hasM650264r6, p.hasM650264r5, p.hasM650264r3, p.hasM650264r2);
      } else if p.hasM650232 {
        level := 32;
        revision := Revision(p.hasM650232r6, p.hasM650232r5, p.hasM650232r3, p.hasM650232r2);
      } else {
        revision := 0;
        if p.hasM65025 {
          level := 5;
        } else if p.hasM65024 {
          level := 4;
        } else if p.hasM65023 {
          level := 3;
        } else if p.hasM65022 {
          level := 2;
        } else {
          level := 1;
        }
      }
      isaLevel, isaRevision := level, revision;
    }

    method SetGPRSizeFromPredicates(p: Predicates)
      modifies this
      ensures Fields() == old(Fields()).(gprSize := if p.isGP64bit then REG_64 else REG_32)
    {
      gprSize := if p.isGP64bit then REG_64 else REG_32;
    }

    /** Soft float, then MSA, then FP64, else 32-bit registers. */
    method SetCPR1SizeFromPredicates(p: Predicates)
      modifies this
      ensures Fields() == old(Fields()).(cpr1Size := cpr1Size)
      ensures cpr1Size == REG_NONE <==> p.useSoftFloat
      ensures cpr1Size == REG_128 <==> !p.useSoftFloat && p.hasMSA
      ensures cpr1Size == REG_64 <==> !p.useSoftFloat && !p.hasMSA && p.isFP64bit
      ensures cpr1Size == REG_32 <==> !p.useSoftFloat && !p.hasMSA && !p.isFP64bit
    {
      if p.useSoftFloat {
        cpr1Size := REG_NONE;
      } else if p.hasMSA {
        cpr1Size := REG_128;
      } else {
        cpr1Size := if p.isFP64bit then REG_64 else REG_32;
      }
    }

    method SetISAExtensionFromPredicates(p: Predicates)
      modifies this
      ensures Fields() == old(Fields()).(isaExtension := if p.hasCnM6502 then EXT_OCTEON else EXT_NONE)
    {
      if p.hasCnM6502 {
        isaExtension := EXT_OCTEON;
      } else {
        isaExtension := EXT_NONE;
      }
    }

    /** The set is rebuilt from empty, so it holds exactly the enabled ASEs. */
    method SetASESetFromPredicates(p: Predicates)
      modifies this
      ensures Fields() == old(Fields()).(aseSet := aseSet)
      ensures forall a :: a in aseSet <==> Enabled(p, a)
    {
      var ases: set<Ase> := {};
      if p.hasDSP {
        ases := ases + {ASE_DSP};
      }
      if p.hasDSPR2 {
        ases := ases + {ASE_DSPR2};
      }
      if p.hasMSA {
        ases := ases + {ASE_MSA};
      }
      if p.inMicroM6502Mode {
        ases := ases + {ASE_MICROMIPS};
      }
      if p.inM650216Mode {
        ases := ases + {ASE_MIPS16};
      }
      if p.hasMT {
        ases := ases + {ASE_MT};
      }
      forall a ensures a in ases <==> Enabled(p, a) {
        match a
        case ASE_DSP =>
        case ASE_DSPR2 =>
        case ASE_MSA =>
        case ASE_MICROMIPS =>
        case ASE_MIPS16 =>
        case ASE_MT =>
      }
      aseSet := ases;
    }

    method SetFpAbiFromPredicates(p: Predicates)
      modifies this
      ensures Fields() == old(Fields()).(fpABI := FpAbiOf(p), is32BitABI := p.isABI_O32)
    {
      is32BitABI := p.isABI_O32;
      fpABI := ANY;
      if p.useSoftFloat {
        fpABI := SOFT;
      } else if p.isABI_N32 || p.isABI_N64 {
        fpABI := S64;
      } else if p.isABI_O32 {
        if p.isABI_FPXX {
          fpABI := XX;
        } else if p.isFP64bit {
          fpABI := S64;
        } else {
          fpABI := S32;
        }
      }
    }

    /** All setters in order, then OddSPReg. */
    method SetAllFromPredicates(p: Predicates)
      requires HasIsaLevel(p)
      modifies this
      ensures DerivedFrom(Fields(), p, old(Fields()))
    {
      SetISALevelAndRevisionFromPredicates(p);
      SetGPRSizeFromPredicates(p);
      SetCPR1SizeFromPredicates(p);
      SetISAExtensionFromPredicates(p);
      SetASESetFromPredicates(p);
      SetFpAbiFromPredicates(p);
      oddSPReg := p.useOddSPReg;
    }
  }
}
