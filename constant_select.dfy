/** The ISD::Constant case: a 64-bit constant that does not fit in 32 signed
    bits is materialised from the instruction sequence the immediate
    analyser proposes, one machine node per instruction, each taking the
    previous node's result as its register operand.

    The analyser itself is not part of this model: its sequence is an input,
    and what each opcode computes is a parameter `apply(opcode, input, imm)`. */
module ConstantSelect {
  import opened Bits

  datatype ImmOpcode = LUi64 | DADDiu | ORi64 | DSLL | DSLL32 | OtherImmOpcode(id: nat)

  /** One analyser step: an opcode and its (unsigned) immediate field. */
  datatype Inst = Inst(opcode: ImmOpcode, immOperand: int)

  /** The register operand of a new node: none (LUi64), $zero_64, or the
      result of an earlier node. */
  datatype Input = NoInput | Zero64 | Prev(index: nat)

  datatype Node = Node(opcode: ImmOpcode, input: Input, imm: int)

  /** The register operand of the node for insts[i]. */
  function InputOf(insts: seq<Inst>, i: nat): Input
    requires i < |insts|
  {
    if i > 0 then Prev(i - 1) else if insts[0].opcode == LUi64 then NoInput else Zero64
  }

  /** nodes[i] is insts[i] with its immediate sign-extended from 16 bits,
      chained on the node before it. */
  predicate ChainOf(insts: seq<Inst>, nodes: seq<Node>)
  {
    |nodes| == |insts| > 0 &&
    forall i :: 0 <= i < |nodes| ==> nodes[i] == Node(insts[i].opcode, InputOf(insts, i), SignExtend16(insts[i].immOperand))
  }

  /** Constants that fit in 32 signed bits are left to the patterns; any
      other is replaced by the last node of the chain. */
  method SelectConstant(imm: int, insts: seq<Inst>) returns (handled: bool, nodes: seq<Node>)
    requires FitsSigned(imm, 64)
    requires !FitsSigned(imm, 32) ==> |insts| > 0
    ensures handled <==> !FitsSigned(imm, 32)
    ensures !handled ==> nodes == []
    ensures handled ==> ChainOf(insts, nodes)
  {
    if FitsSigned(imm, 32) {
      return false, [];
    }
    var immOpnd := SignExtend16(insts[0].immOperand);
    if insts[0].opcode == LUi64 {
      nodes := [Node(insts[0].opcode, NoInput, immOpnd)];
    } else {
      nodes := [Node(insts[0].opcode, Zero64, immOpnd)];
    }
    var i := 1;
    while i < |insts|
      invariant 1 <= i <= |insts| && |nodes| == i
      invariant forall j :: 0 <= j < i ==>
        nodes[j] == Node(insts[j].opcode, InputOf(insts, j), SignExtend16(insts[j].immOperand))
    {
      immOpnd := SignExtend16(insts[i].immOperand);
      nodes := nodes + [Node(insts[i].opcode, Prev(|nodes| - 1), immOpnd)];
      i := i + 1;
    }
    return true, nodes;
  }

  // ---- meaning: the chain computes what running the sequence computes ----

  /** Runs the sequence from the value of $zero_64: each step applies its
      opcode to the previous value and its sign-extended immediate. */
  function Run(insts: seq<Inst>, apply: (ImmOpcode, int, int) -> int): int
  {
    if insts == [] then 0
    else
      var last := insts[|insts| - 1];
      apply(last.opcode, Run(insts[..|insts| - 1], apply), SignExtend16(last.immOperand))
  }

  /** Every register operand names an earlier node. */
  predicate Acyclic(nodes: seq<Node>)
  {
    forall i :: 0 <= i < |nodes| && nodes[i].input.Prev? ==> nodes[i].input.index < i
  }

  /** The value of node i; a node without a register operand, like one
      reading $zero_64, gets input 0 (LUi64 does not read it). */
  function NodeValue(nodes: seq<Node>, i: nat, apply: (ImmOpcode, int, int) -> int): int
    requires i < |nodes| && Acyclic(nodes)
    decreases i
  {
    var input := match nodes[i].input
      case Prev(j) => NodeValue(nodes, j, apply)
      case _ => 0;
    apply(nodes[i].opcode, input, nodes[i].imm)
  }

  /** Node i of the chain holds the value after the first i+1 steps; so the
      node that replaces the constant holds the value of the whole sequence,
      whatever the opcodes compute. */
  lemma {:induction false} ChainComputesRun(insts: seq<Inst>, nodes: seq<Node>, apply: (ImmOpcode, int, int) -> int, i: nat)
    requires ChainOf(insts, nodes) && i < |nodes|
    ensures Acyclic(nodes)
    ensures NodeValue(nodes, i, apply) == Run(insts[..i + 1], apply)
  {
    assert Acyclic(nodes) by {
      forall j | 0 <= j < |nodes| && nodes[j].input.Prev?
        ensures nodes[j].input.index < j
      {
        assert nodes[j].input == InputOf(insts, j);
      }
    }
    assert nodes[i] == Node(insts[i].opcode, InputOf(insts, i), SignExtend16(insts[i].immOperand));
    assert insts[..i + 1][..i] == insts[..i];
    if i > 0 {
      ChainComputesRun(insts, nodes, apply, i - 1);
    } else {
      assert insts[..0] == [];
    }
  }

  lemma ChainResult(insts: seq<Inst>, nodes: seq<Node>, apply: (ImmOpcode, int, int) -> int)
    requires ChainOf(insts, nodes)
    ensures Acyclic(nodes)
    ensures NodeValue(nodes, |nodes| - 1, apply) == Run(insts, apply)
  {
    ChainComputesRun(insts, nodes, apply, |nodes| - 1);
    assert insts[..|nodes|] == insts;
  }
}
