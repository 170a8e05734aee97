// The low-level intermediate representation (LIR) shared by every pass:
// operator trees whose equality is structural, as the passes' hash maps
// and `equals` calls assume.
module Lir {

  /** The operators the passes distinguish; every other operator is OTHER. */
  datatype Op =
    | SET | PHI | CALL | MEM | REG | INTCONST | FLOATCONST | STATIC | FRAME
    | PROLOGUE | EPILOGUE | JUMP | JUMPC | JUMPN | LIST | LABEL
    | NEG | BNOT
    | CONVSX | CONVZX | CONVIT | CONVFX | CONVFT | CONVFI | CONVFS | CONVFU | CONVSF | CONVUF
    | BAND | BOR | BXOR | LSHS | LSHU | RSHS | RSHU | SUB | DIVS | DIVU | MODS | MODU | MUL | ADD
    | TSTEQ | TSTNE | TSTLTS | TSTLES | TSTGTS | TSTGES | TSTLTU | TSTLEU | TSTGTU | TSTGEU
    | OTHER

  /** A LIR type: its printed name starts with 'I', 'F', 'A' or 'U'. */
  datatype Ty = IntTy(bits: nat) | FloatTy(bits: nat) | AggTy(bytes: nat) | UnknownTy

  /**
   * An operator node. `sym` is the symbol of a REG, STATIC or FRAME leaf,
   * the value of an INTCONST, the block of a LABEL, and 0 elsewhere.
   */
  datatype Node = Node(op: Op, ty: Ty, sym: int, kids: seq<Node>)

  /** A result that may be missing (a Java `null`). */
  datatype Option<T> = None | Some(value: T)

  /** The type of the integer constants that carry value numbers (I32). */
  const I32: Ty := IntTy(32)

  /** Stand-in returned when a child that does not exist is asked for. */
  const Absent: Node := Node(OTHER, UnknownTy, 0, [])

  function NKids(n: Node): nat { |n.kids| }

  function Kid(n: Node, i: nat): (k: Node)
    ensures i < |n.kids| ==> k == n.kids[i]
  {
    if i < |n.kids| then n.kids[i] else Absent
  }

  predicate IsLeaf(n: Node) { |n.kids| == 0 }

  /** `n` with its `i`-th child replaced by `k` (unchanged when there is no such child). */
  function WithKid(n: Node, i: nat, k: Node): (r: Node)
    ensures i < |n.kids| ==> r == n.(kids := n.kids[i := k])
    ensures i >= |n.kids| ==> r == n
  {
    if i < |n.kids| then n.(kids := n.kids[i := k]) else n
  }

  /** An integer constant, as `iconst(type, v)` builds it. */
  function IConst(ty: Ty, v: int): Node { Node(INTCONST, ty, v, []) }

  function Reg(sym: int, ty: Ty): Node { Node(REG, ty, sym, []) }

  /** MEM(address) without a version and MEM(address, version) with one. */
  function Mem(ty: Ty, addr: Node): Node { Node(MEM, ty, 0, [addr]) }
  function MemV(ty: Ty, addr: Node, v: int): Node { Node(MEM, ty, 0, [addr, Version(v)]) }

  /** The constant that carries a memory version (typed UNKNOWN). */
  function Version(v: int): Node { IConst(UnknownTy, v) }

  function Set(ty: Ty, dst: Node, src: Node): Node { Node(SET, ty, 0, [dst, src]) }

  predicate IsConst(n: Node) { n.op == INTCONST || n.op == FLOATCONST }

  predicate IsUnary(op: Op) {
    op in {NEG, BNOT, CONVSX, CONVZX, CONVIT, CONVFX, CONVFT, CONVFI, CONVFS, CONVFU, CONVSF, CONVUF}
  }

  predicate IsBinary(op: Op) {
    op in {BAND, BOR, BXOR, LSHS, LSHU, RSHS, RSHU, SUB, DIVS, DIVU, MODS, MODU, MUL, ADD}
  }

  predicate IsCompare(op: Op) {
    op in {TSTEQ, TSTNE, TSTLTS, TSTLES, TSTGTS, TSTGES, TSTLTU, TSTLEU, TSTGTU, TSTGEU}
  }

  /** A SET whose destination is memory. */
  predicate IsStore(n: Node) { n.op == SET && Kid(n, 0).op == MEM }

  /** A SET whose destination is a register. */
  predicate IsRegSet(n: Node) { n.op == SET && Kid(n, 0).op == REG }

  /** The value a CALL defines: the first element of its result list, if any. */
  predicate HasResult(call: Node) { call.op == CALL && NKids(Kid(call, 2)) > 0 }
  function CallResult(call: Node): Node { Kid(Kid(call, 2), 0) }

  /** Block of the LABEL attached to PHI argument `arg` (a LIST(value, label)). */
  function PhiArgBlock(arg: Node): int { Kid(arg, 1).sym }
  function PhiArgValue(arg: Node): Node { Kid(arg, 0) }

  /** `x` occurs strictly below the root of `n`. */
  predicate Below(x: Node, n: Node)
    decreases n
  {
    exists i :: 0 <= i < |n.kids| && (n.kids[i] == x || Below(x, n.kids[i]))
  }

  /** `x` is a register reached from `n` through non-register kids only. */
  predicate RegBelow(x: Node, n: Node)
    decreases n
  {
    exists i :: 0 <= i < |n.kids| &&
      ((n.kids[i].op == REG && n.kids[i] == x) || (n.kids[i].op != REG && RegBelow(x, n.kids[i])))
  }

  /** The operand registers of `n`, in left-to-right order. */
  function CollectVars(n: Node): (vars: seq<Node>)
    ensures forall x :: x in vars <==> RegBelow(x, n)
    decreases n, |n.kids| + 1
  {
    CollectVarsUpTo(n, |n.kids|)
  }

  /** The operand registers found under the first `k` kids of `n`. */
  function CollectVarsUpTo(n: Node, k: nat): (vars: seq<Node>)
    requires k <= |n.kids|
    ensures forall x :: x in vars <==>
      exists i :: 0 <= i < k &&
        ((n.kids[i].op == REG && n.kids[i] == x) || (n.kids[i].op != REG && RegBelow(x, n.kids[i])))
    decreases n, k
  {
    if k == 0 then []
    else
      var last := n.kids[k - 1];
      CollectVarsUpTo(n, k - 1) + (if last.op == REG then [last] else CollectVars(last))
  }
}
