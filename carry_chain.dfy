/** The expansion of ISD::ADDE: the first add of a carry chain (carry from an
    ADDC) becomes one ADDWC; a later add must first move the addsc overflow
    bit of the DSP control register into its carry field, so it becomes
    RDDSP, EXT, two INS and WRDSP before the ADDWC.

    Only the shape is modelled: which machine nodes are built, in what order,
    and which operands each takes. The bits those nodes move on the hardware
    are not. */
module CarryChain {
  /** The opcode of the node that produces the incoming carry. */
  datatype FlagProducer = ADDC | ADDE | OtherProducer

  datatype MachineOpcode = RDDSP | EXT | INS | WRDSP | ADDWC

  /** An operand of a new node: an operand of the ADDE, an earlier new node,
      a target constant, or the zero register. */
  datatype Operand = LHS | RHS | InFlag | NodeRef(index: nat) | Imm(value: nat) | ZeroReg

  datatype MachineNode = MachineNode(opcode: MachineOpcode, operands: seq<Operand>)

  /** The bit of the DSP control register that ADDWC reads as its carry. */
  const OU_FLAG: nat := 20

  /** The nodes built for an ADDE whose carry comes from a node with opcode
      flag, in creation order; the last one is the ADDWC the ADDE becomes.
      Any producer other than ADDC or ADDE violates selectAddE's assertion. */
  function SelectAddE(flag: FlagProducer): (r: seq<MachineNode>)
    requires flag == ADDC || flag == ADDE
    ensures |r| > 0 && r[|r| - 1].opcode == ADDWC
    ensures |r[|r| - 1].operands| == 3 && r[|r| - 1].operands[..2] == [LHS, RHS]
    ensures flag == ADDC <==> |r| == 1
  {
    if flag == ADDC then
      [MachineNode(ADDWC, [LHS, RHS, InFlag])]
    else
      [ MachineNode(RDDSP, [Imm(1), InFlag]),                     // 0: read the whole control register
        MachineNode(EXT, [NodeRef(0), Imm(OU_FLAG), Imm(1)]),      // 1: extract the addsc overflow bit
        MachineNode(INS, [NodeRef(0), Imm(6), Imm(1), NodeRef(1)]), // 2: insert at the carry field
        MachineNode(INS, [ZeroReg, Imm(OU_FLAG), Imm(1), NodeRef(2)]), // 3: clear bit 20
        MachineNode(WRDSP, [NodeRef(3), Imm(1)]),                  // 4: write the control register back
        MachineNode(ADDWC, [LHS, RHS, NodeRef(4)]) ]               // 5: the add itself
  }

  /** Every reference to a node points to one built earlier. */
  predicate WellFormed(nodes: seq<MachineNode>)
  {
    forall i, k :: 0 <= i < |nodes| && 0 <= k < |nodes[i].operands| && nodes[i].operands[k].NodeRef? ==>
      nodes[i].operands[k].index < i
  }

  /** Node j is an operand of some node built after it. */
  predicate UsedLater(nodes: seq<MachineNode>, j: nat)
  {
    exists i, k :: j < i < |nodes| && 0 <= k < |nodes[i].operands| && nodes[i].operands[k] == NodeRef(j)
  }

  /** Operand k of node i is op. */
  predicate IsAt(nodes: seq<MachineNode>, i: nat, k: nat, op: Operand)
  {
    i < |nodes| && k < |nodes[i].operands| && nodes[i].operands[k] == op
  }

  /** The expansion is a DAG in creation order. */
  lemma SelectAddEWellFormed(flag: FlagProducer)
    requires flag == ADDC || flag == ADDE
    ensures WellFormed(SelectAddE(flag))
  {
    var r := SelectAddE(flag);
    forall i, k | 0 <= i < |r| && 0 <= k < |r[i].operands| && r[i].operands[k].NodeRef?
      ensures r[i].operands[k].index < i
    {
      assert flag == ADDE && 1 <= i;
    }
  }

  /** Every node but the ADDWC feeds a later one. */
  lemma SelectAddENoDeadNodes(flag: FlagProducer)
    requires flag == ADDC || flag == ADDE
    ensures forall j :: 0 <= j < |SelectAddE(flag)| - 1 ==> UsedLater(SelectAddE(flag), j)
  {
    var r := SelectAddE(flag);
    if flag == ADDE {
      assert UsedLater(r, 0) by { assert IsAt(r, 1, 0, NodeRef(0)); }
      assert UsedLater(r, 1) by { assert IsAt(r, 2, 3, NodeRef(1)); }
      assert UsedLater(r, 2) by { assert IsAt(r, 3, 3, NodeRef(2)); }
      assert UsedLater(r, 3) by { assert IsAt(r, 4, 0, NodeRef(3)); }
      assert UsedLater(r, 4) by { assert IsAt(r, 5, 2, NodeRef(4)); }
    }
  }

  /** The incoming carry is consumed exactly once: by the ADDWC itself after
      an ADDC, by the RDDSP that reads it after an ADDE. */
  lemma SelectAddEFlagOnce(flag: FlagProducer)
    requires flag == ADDC || flag == ADDE
    ensures flag == ADDC ==> IsAt(SelectAddE(flag), 0, 2, InFlag)
    ensures flag == ADDE ==> IsAt(SelectAddE(flag), 0, 1, InFlag)
    ensures forall i, k, i', k' :: IsAt(SelectAddE(flag), i, k, InFlag) && IsAt(SelectAddE(flag), i', k', InFlag) ==>
      i == i' && k == k'
  {
    var r := SelectAddE(flag);
    forall i, k | IsAt(r, i, k, InFlag)
      ensures i == 0 && k == |r[0].operands| - 1
    {
      assert flag == ADDE ==> i == 0;
    }
  }

  /** LHS and RHS reach only the ADDWC. */
  lemma SelectAddEOperandsOnlyLast(flag: FlagProducer)
    requires flag == ADDC || flag == ADDE
    ensures forall i, k :: IsAt(SelectAddE(flag), i, k, LHS) || IsAt(SelectAddE(flag), i, k, RHS) ==>
      i == |SelectAddE(flag)| - 1
  {
    var r := SelectAddE(flag);
    forall i, k | IsAt(r, i, k, LHS) || IsAt(r, i, k, RHS)
      ensures i == |r| - 1
    {
      assert flag == ADDE ==> i == 5;
    }
  }

  /** In the chained case the control register goes through the GPR whole
      (mask 1 on both RDDSP and WRDSP), the carry field receives the
      extracted bit 20, and bit 20 is then cleared from the zero register.
      This reads the constants back out of SelectAddE: a summary for readers
      and callers, not a property proved about them. */
  lemma SelectAddEChained()
    ensures SelectAddE(ADDE)[0] == MachineNode(RDDSP, [Imm(1), InFlag])
    ensures SelectAddE(ADDE)[1].operands[1..] == [Imm(OU_FLAG), Imm(1)]
    ensures SelectAddE(ADDE)[3].operands[..3] == [ZeroReg, Imm(OU_FLAG), Imm(1)]
    ensures SelectAddE(ADDE)[4].operands[1] == Imm(1)
  {
  }
}
