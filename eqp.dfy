// Effective demand-driven partial redundancy elimination on SSA form. For
// every SET whose value is not yet held in its block, a question "is this
// value available at the end of each predecessor?" is propagated backwards
// through the predecessors, translated across the phis of each block and
// memoised per block. When enough predecessors answer yes, temporaries are
// inserted into the blocks that answered no and a phi into the join, and
// the SET's source is replaced by the variable that now holds the value.
module Eqp {
  import opened Lir
  import opened Cfg
  import opened MemoryVersioning
  import opened ValueNumbering
  import opened EqpQuery

  /**
   * A SET whose source `eliminate` may replace by an earlier holder in the
   * same block: a compound source, in mode 1 always and in mode 2 only when
   * it is not a load.
   */
  predicate Rewritable(instr: Node, elmode: int) {
    NKids(Kid(instr, 1)) > 0 && (elmode == 1 || (elmode == 2 && Kid(instr, 1).op != MEM))
  }

  /** A SET instruction with its destination and source. */
  predicate IsSetNode(n: Node) { n.op == SET && |n.kids| == 2 }

  /** A SET or PHI whose destination is `v`. */
  predicate Defines(instr: Node, v: Node) {
    (instr.op == SET || instr.op == PHI) && Kid(instr, 0) == v
  }

  /** `instrs` without the instructions that define `v`, in order. */
  function Without(instrs: seq<Node>, v: Node): (r: seq<Node>)
    ensures |r| <= |instrs|
    ensures forall x | x in r :: x in instrs && !Defines(x, v)
    ensures forall x | x in instrs && !Defines(x, v) :: x in r
  {
    if |instrs| == 0 then []
    else (if Defines(instrs[0], v) then [] else [instrs[0]]) + Without(instrs[1..], v)
  }

  lemma {:induction false} WithoutAppend(a: seq<Node>, b: seq<Node>, v: Node)
    ensures Without(a + b, v) == Without(a, v) + Without(b, v)
  {
    if |a| > 0 {
      assert (a + b)[1..] == a[1..] + b;
      WithoutAppend(a[1..], b, v);
    } else {
      assert a + b == b;
    }
  }

  /** An instruction that is kept stays at the position given by the kept instructions before it. */
  lemma WithoutAt(s: seq<Node>, i: nat, v: Node)
    requires i < |s| && !Defines(s[i], v)
    ensures |Without(s[..i], v)| < |Without(s, v)|
    ensures Without(s, v)[|Without(s[..i], v)|] == s[i]
  {
    assert s == s[..i] + s[i..];
    WithoutAppend(s[..i], s[i..], v);
    assert Without(s[i..], v)[0] == s[i];
  }

  /** The label of a predecessor, as a phi argument names it. */
  function Label(b: nat): Node { Node(LABEL, UnknownTy, b, []) }

  /** The arguments of a new phi: the target itself from every predecessor in turn. */
  function PhiArgs(target: Node, preds: seq<nat>): (r: seq<Node>)
    ensures |r| == |preds|
    ensures forall j | 0 <= j < |preds| :: PhiArgValue(r[j]) == target && PhiArgBlock(r[j]) == preds[j]
  {
    if |preds| == 0 then []
    else [Node(LIST, target.ty, 0, [target, Label(preds[0])])] + PhiArgs(target, preds[1..])
  }

  /** A direct operand of source `src`: the source itself when it is a leaf, else one of its children. */
  predicate DirectOperand(y: Node, src: Node) {
    if IsLeaf(src) then y == src else y in src.kids
  }

  /** Some direct operand of source `src` is in `s`. */
  predicate OperandIn(src: Node, s: set<Node>) {
    exists y | y in s :: DirectOperand(y, src)
  }

  /**
   * `x` is the target of a phi in one of the `blocks` of `code`, or the
   * destination of a register SET there with a direct operand in `s`.
   */
  ghost predicate DependSource(code: seq<seq<Node>>, blocks: seq<nat>, s: set<Node>, x: Node) {
    exists b, k | b in blocks && b < |code| && 0 <= k < |code[b]| ::
      Kid(code[b][k], 0) == x && (code[b][k].op == PHI || (IsRegSet(code[b][k]) && OperandIn(Kid(code[b][k], 1), s)))
  }

  /** Collecting the destination of instruction `k` of block `b` keeps every collected register justified. */
  lemma DependAdd(code: seq<seq<Node>>, blocks: seq<nat>, s: set<Node>, b: nat, k: nat)
    requires forall x | x in s :: DependSource(code, blocks, s, x)
    requires b in blocks && b < |code| && k < |code[b]|
    requires code[b][k].op == PHI || (IsRegSet(code[b][k]) && OperandIn(Kid(code[b][k], 1), s))
    ensures forall x | x in s + {Kid(code[b][k], 0)} :: DependSource(code, blocks, s + {Kid(code[b][k], 0)}, x)
  {
    var t := s + {Kid(code[b][k], 0)};
    forall x | x in t ensures DependSource(code, blocks, t, x) {
      var b', k' := b, k;
      if x in s {
        b', k' :| b' in blocks && b' < |code| && 0 <= k' < |code[b']| && Kid(code[b'][k'], 0) == x &&
          (code[b'][k'].op == PHI || (IsRegSet(code[b'][k']) && OperandIn(Kid(code[b'][k'], 1), s)));
      }
      if code[b'][k'].op != PHI {
        var y :| y in s && DirectOperand(y, Kid(code[b'][k'], 1));
        assert y in t;
      }
    }
  }


  /** Where position `at` of `instrs` ends up once the definitions of `v` are unlinked. */
  function KeptPosition(instrs: seq<Node>, at: nat, v: Node): (r: nat)
    ensures at < |instrs| && !Defines(instrs[at], v) ==> r < |Without(instrs, v)| && Without(instrs, v)[r] == instrs[at]
  {
    if at < |instrs| && !Defines(instrs[at], v) then
      WithoutAt(instrs, at, v);
      |Without(instrs[..at], v)|
    else if at < |instrs| then |Without(instrs[..at], v)|
    else |Without(instrs, v)|
  }

  /** The label a phi argument names, read at the position `insertNewTempPhi` reads it. */
  function TempPhiLabel(phi: Node): nat {
    var s := Kid(Kid(phi, 1), 2).sym;
    if s < 0 then 0 else s
  }

  /** SET `node` as a question leaves it: reading `Dst` of the holder found, or unchanged when none was. */
  function Asked(node: Node, holder: Option<Node>): Node {
    if holder.Some? then WithKid(node, 1, Dst(holder.value)) else node
  }

  /** The variable `replace` takes from `pred`: a SET's register destination or its source, a PHI's target, or `pred` itself. */
  function Dst(pred: Node): Node {
    if pred.op == SET then (if Kid(pred, 0).op == REG then Kid(pred, 0) else Kid(pred, 1))
    else if pred.op == PHI then Kid(pred, 0)
    else pred
  }

  /** `s` without the elements equal to `x`. */
  function Drop(s: seq<Node>, x: Node): (r: seq<Node>)
    ensures forall y | y in r :: y in s && y != x
    ensures forall y | y in s && y != x :: y in r
  {
    if |s| == 0 then [] else (if s[0] == x then [] else [s[0]]) + Drop(s[1..], x)
  }


  /** Every instruction of block `k` of `a` is still in block `k` of `b`. */
  ghost predicate KeepsInstrs(a: seq<seq<Node>>, b: seq<seq<Node>>) {
    |a| == |b| && forall k, x | 0 <= k < |a| && x in a[k] :: x in b[k]
  }

  /** Inserting `node` into `s` keeps every element of `s` and adds `node`. */
  lemma InsertKeeps(s: seq<Node>, pos: nat, node: Node)
    requires pos <= |s|
    ensures node in s[..pos] + [node] + s[pos..]
    ensures forall x | x in s :: x in s[..pos] + [node] + s[pos..]
  {
    assert s == s[..pos] + s[pos..];
  }

  /** The position of the first instruction of `instrs` that is not a PHI, if any. */
  function FirstNonPhi(instrs: seq<Node>): (r: Option<nat>)
    ensures r.Some? ==> r.value < |instrs| && instrs[r.value].op != PHI && forall j | 0 <= j < r.value :: instrs[j].op == PHI
    ensures r.None? ==> forall j | 0 <= j < |instrs| :: instrs[j].op == PHI
  {
    if |instrs| == 0 then None
    else if instrs[0].op != PHI then Some(0)
    else match FirstNonPhi(instrs[1..])
      case None => None
      case Some(k) => Some(k + 1)
  }

  /**
   * What `insert` makes of block `instrs`: `node` just after the leading
   * PHIs, or no change at all when every instruction is a PHI.
   */
  function InsertAfterPhis(instrs: seq<Node>, node: Node): seq<Node> {
    match FirstNonPhi(instrs)
      case None => instrs
      case Some(k) => instrs[..k] + [node] + instrs[k..]
  }

  /**
   * `insert` puts `node` after every PHI and before every other
   * instruction, keeping all instructions in their order; a block made
   * only of PHIs is left as it is.
   */
  lemma InsertAfterPhisPlaces(instrs: seq<Node>, node: Node)
    ensures var r := InsertAfterPhis(instrs, node);
      (exists j | 0 <= j < |instrs| :: instrs[j].op != PHI) ==>
        && |r| == |instrs| + 1
        && (exists k | 0 <= k < |r| :: r[k] == node && (forall j | 0 <= j < k :: r[j].op == PHI) && r[..k] + r[k + 1..] == instrs)
        && multiset(r) == multiset(instrs) + multiset{node}
    ensures (forall j | 0 <= j < |instrs| :: instrs[j].op == PHI) ==> InsertAfterPhis(instrs, node) == instrs
  {
    match FirstNonPhi(instrs)
      case None =>
      case Some(k) =>
        SpliceAt(instrs, k, node);
  }

  /** `node` spliced in at `k`: everything before it is kept in place, and taking it out again gives `instrs`. */
  lemma SpliceAt(instrs: seq<Node>, k: nat, node: Node)
    requires k <= |instrs|
    ensures var r := instrs[..k] + [node] + instrs[k..];
      && |r| == |instrs| + 1 && r[k] == node
      && (forall j | 0 <= j < k :: r[j] == instrs[j])
      && r[..k] + r[k + 1..] == instrs
      && multiset(r) == multiset(instrs) + multiset{node}
  {
    var r := instrs[..k] + [node] + instrs[k..];
    assert r[..k] == instrs[..k] && r[k + 1..] == instrs[k..];
    assert instrs == instrs[..k] + instrs[k..];
  }

  /**
   * The variable `eliminate` records as the holder of a SET's number: its
   * register destination when its source is compound, else its source.
   */
  function Holder(instr: Node): Node {
    if Kid(instr, 0).op == REG && NKids(Kid(instr, 1)) != 0 then Kid(instr, 0) else Kid(instr, 1)
  }

  /**
   * The variables `eliminate` records as defined by instruction `node`: a
   * PHI's target, a CALL's first result, a PROLOGUE's register parameters.
   */
  predicate DefinedBy(node: Node, x: Node) {
    || (node.op == PHI && x == Kid(node, 0))
    || (node.op == CALL && NKids(Kid(node, 2)) > 0 && x == Kid(Kid(node, 2), 0))
    || (node.op == PROLOGUE && x.op == REG && x in node.kids)
  }
  /** The kill bits after the blocks `order[..i]` were scanned: set exactly for those that hold a CALL or a store. */
  ghost predicate KillsUpTo(code: seq<seq<Node>>, order: seq<nat>, i: nat, kv: seq<bool>) {
    i <= |order| && |kv| == |code| &&
    forall b | 0 <= b < |kv| :: kv[b] <==> (b in order[..i] && HasClobber(code[b]))
  }

  /** The phi targets of the blocks `blocks` are all in `s`. */
  ghost predicate PhisCollected(code: seq<seq<Node>>, blocks: seq<nat>, s: set<Node>) {
    forall b, k | b in blocks && b < |code| && 0 <= k < |code[b]| && code[b][k].op == PHI :: Kid(code[b][k], 0) in s
  }

  /** Scanning block `order[i]` carries both facts over to `order[..i + 1]`. */
  lemma CollectStep(code: seq<seq<Node>>, order: seq<nat>, i: nat, k0: seq<bool>, k1: seq<bool>, s0: set<Node>, s1: set<Node>)
    requires i < |order| && order[i] < |code|
    requires KillsUpTo(code, order, i, k0) && PhisCollected(code, order[..i], s0)
    requires k1 == k0[order[i] := k0[order[i]] || HasClobber(code[order[i]])]
    requires s1 >= s0
    requires forall k | 0 <= k < |code[order[i]]| && code[order[i]][k].op == PHI :: Kid(code[order[i]][k], 0) in s1
    ensures KillsUpTo(code, order, i + 1, k1) && PhisCollected(code, order[..i + 1], s1)
  {
    assert order[..i + 1] == order[..i] + [order[i]];
  }

  /** The targets of the PHIs among `instrs[..k]` are all in `s`. */
  ghost predicate PhiTargetsIn(instrs: seq<Node>, k: nat, s: set<Node>) {
    forall m | 0 <= m < k && m < |instrs| && instrs[m].op == PHI :: Kid(instrs[m], 0) in s
  }

  lemma PhiTargetsStep(instrs: seq<Node>, k: nat, s0: set<Node>, s1: set<Node>)
    requires k < |instrs| && PhiTargetsIn(instrs, k, s0) && s1 >= s0
    requires instrs[k].op == PHI ==> Kid(instrs[k], 0) in s1
    ensures PhiTargetsIn(instrs, k + 1, s1)
  {
  }

  /**
   * The pass over one function. `set` runs once, in the constructor: it
   * versions memory, creates an empty numbering and gathers the killing
   * blocks and the phi-dependent registers. `mode` is fixed to 2 by both
   * constructors; `invoke`'s argument only reaches `gvn` and `eliminate`.
   * Fresh temporaries are numbered from `nextSym` on. `fuel` bounds the
   * instructions visited per block and the renumbering rounds.
   */
  class Eqp {
    const f: Function
    const mode: int
    const fuel: nat
    const gvn: Gvn
    const alias: MemoryVersioner
    /** Per block: it holds a CALL or a store. */
    const kill: array<bool>
    /** Phi targets and the registers computed from them. */
    var dependPhiSet: set<Node>
    var q: Query
    var nextSym: int
    /** The instruction `eliminate` is at: position `at` of block `atBlk`. */
    var atBlk: nat
    var at: nat

    ghost predicate Valid()
      reads this`q, this`nextSym, f, gvn, alias
    {
      && f.Valid() && gvn.f == f && alias.f == f && gvn.Valid()
      && alias.Counter() && alias.blkRankOut.Length == f.g.n
      && kill.Length == f.g.n
      && q.Sized(f.g.n) && q.TempsBelow(nextSym)
    }

    /** The blocks the current question has not asked yet. */
    ghost function Unvisited(): set<nat>
      reads this`q, f
    {
      set b: nat | b < f.g.n && b !in q.visited
    }

    /**
     * `EQP(env, function, symtab)` followed by `set()`: memory is versioned,
     * the numbering is empty, and the killing blocks and phi-dependent
     * registers of `f` are gathered.
     */
    constructor (f: Function, firstSym: int, fuel: nat)
      requires f.Valid() && f.g.DomKidsOnce()
      modifies f
      ensures Valid() && alias.Valid() && this.f == f && mode == 2 && this.fuel == fuel && nextSym == firstSym
      ensures gvn.valueTable == map[]
      ensures forall b | 0 <= b < f.g.n :: kill[b] <==> (b in f.g.rpo && HasClobber(f.code[b]))
      ensures forall b, k | b in f.g.rpo && b < |f.code| && 0 <= k < |f.code[b]| && f.code[b][k].op == PHI ::
                Kid(f.code[b][k], 0) in dependPhiSet
      ensures forall x | x in dependPhiSet :: DependSource(f.code, f.g.rpo, dependPhiSet, x)
    {
      this.f := f;
      mode := 2;
      this.fuel := fuel;
      nextSym := firstSym;
      var a := new MemoryVersioner(f);
      alias := a;
      gvn := new Gvn(f);
      kill := new bool[f.g.n](_ => false);
      dependPhiSet := {};
      q := EmptyQuery(f.g.n, f.g.entry);
      atBlk := 0;
      at := 0;
      new;
      CollectInformation();
    }

    // -------------------------------------------------------------------
    // Information gathered once
    // -------------------------------------------------------------------

    /**
     * Marks the blocks (in reverse postorder) that hold a CALL or a store as
     * killing, and collects the phi targets and the registers a SET assigns
     * from a register already collected.
     */
    method CollectInformation()
      requires Valid() && forall b | 0 <= b < f.g.n :: !kill[b]
      requires forall x | x in dependPhiSet :: DependSource(f.code, f.g.rpo, dependPhiSet, x)
      modifies kill, this`dependPhiSet
      ensures Valid()
      ensures forall b | 0 <= b < f.g.n :: kill[b] <==> (b in f.g.rpo && HasClobber(f.code[b]))
      ensures forall b, k | b in f.g.rpo && b < |f.code| && 0 <= k < |f.code[b]| && f.code[b][k].op == PHI ::
                Kid(f.code[b][k], 0) in dependPhiSet
      ensures forall x | x in dependPhiSet :: DependSource(f.code, f.g.rpo, dependPhiSet, x)
    {
      var order := f.g.rpo;
      ghost var code := f.code;
      var i := 0;
      assert KillsUpTo(code, order, 0, kill[..]);
      while i < |order|
        invariant 0 <= i <= |order| && order == f.g.rpo && code == f.code
        invariant Valid()
        invariant KillsUpTo(code, order, i, kill[..])
        invariant PhisCollected(code, order[..i], dependPhiSet)
        invariant forall x | x in dependPhiSet :: DependSource(f.code, f.g.rpo, dependPhiSet, x)
      {
        assert order[i] in f.g.rpo;
        ghost var k0, s0 := kill[..], dependPhiSet;
        CollectBlock(order[i]);
        CollectStep(code, order, i, k0, kill[..], s0, dependPhiSet);
        i := i + 1;
      }
      assert order[..i] == order;
    }

    /** One block of `CollectInformation`. */
    method CollectBlock(blk: nat)
      requires Valid() && blk in f.g.rpo
      requires forall x | x in dependPhiSet :: DependSource(f.code, f.g.rpo, dependPhiSet, x)
      modifies kill, this`dependPhiSet
      ensures Valid()
      ensures dependPhiSet >= old(dependPhiSet)
      ensures kill[..] == old(kill[..])[blk := old(kill[blk]) || HasClobber(f.code[blk])]
      ensures forall k | 0 <= k < |f.code[blk]| && f.code[blk][k].op == PHI :: Kid(f.code[blk][k], 0) in dependPhiSet
      ensures forall x | x in dependPhiSet :: DependSource(f.code, f.g.rpo, dependPhiSet, x)
    {
      var clobber, s := CollectInstrs(f.code, f.g.rpo, blk, dependPhiSet);
      if clobber {
        kill[blk] := true;
      }
      dependPhiSet := s;
    }

    /**
     * The scan of one block: whether it holds a CALL or a store, and the
     * collected registers `s0` with the block's phi targets and the
     * registers it assigns from a collected register added, in order.
     */
    static method CollectInstrs(code: seq<seq<Node>>, rpo: seq<nat>, blk: nat, s0: set<Node>)
      returns (clobber: bool, s: set<Node>)
      requires blk in rpo && blk < |code|
      requires forall x | x in s0 :: DependSource(code, rpo, s0, x)
      ensures s >= s0
      ensures clobber <==> HasClobber(code[blk])
      ensures forall k | 0 <= k < |code[blk]| && code[blk][k].op == PHI :: Kid(code[blk][k], 0) in s
      ensures forall x | x in s :: DependSource(code, rpo, s, x)
    {
      var instrs := code[blk];
      clobber := false;
      s := s0;
      var k := 0;
      while k < |instrs|
        invariant 0 <= k <= |instrs| && s >= s0
        invariant clobber <==> exists m | 0 <= m < k :: Clobbers(instrs[m])
        invariant PhiTargetsIn(instrs, k, s)
        invariant forall x | x in s :: DependSource(code, rpo, s, x)
      {
        var kills;
        ghost var s1 := s;
        kills, s := CollectInstr(code, rpo, blk, k, s);
        PhiTargetsStep(instrs, k, s1, s);
        clobber := clobber || kills;
        k := k + 1;
      }
    }

    /** One instruction of `CollectInstrs`: whether it kills, and `s` with its destination added when it is collected. */
    static method CollectInstr(code: seq<seq<Node>>, rpo: seq<nat>, blk: nat, k: nat, s: set<Node>)
      returns (kills: bool, s': set<Node>)
      requires blk in rpo && blk < |code| && k < |code[blk]|
      requires forall x | x in s :: DependSource(code, rpo, s, x)
      ensures s' >= s
      ensures kills <==> Clobbers(code[blk][k])
      ensures code[blk][k].op == PHI ==> Kid(code[blk][k], 0) in s'
      ensures forall x | x in s' :: DependSource(code, rpo, s', x)
    {
      var node := code[blk][k];
      kills := node.op == CALL || IsStore(node);
      s' := s;
      if node.op == PHI {
        DependAdd(code, rpo, s, blk, k);
        s' := s + {Kid(node, 0)};
      }
      if IsRegSet(node) {
        var hit := HasCollectedOperand(Kid(node, 1), s');
        if hit {
          DependAdd(code, rpo, s', blk, k);
          s' := s' + {Kid(node, 0)};
        }
      }
    }

    /** Whether a direct operand of source `src` was collected already: the leaf itself, else one of its children. */
    static method HasCollectedOperand(src: Node, dependPhiSet: set<Node>) returns (r: bool)
      ensures r <==> OperandIn(src, dependPhiSet)
    {
      if IsLeaf(src) {
        assert OperandIn(src, dependPhiSet) <==> src in dependPhiSet by {
          if OperandIn(src, dependPhiSet) {
            var y :| y in dependPhiSet && DirectOperand(y, src);
          }
        }
        return src in dependPhiSet;
      }
      var j := 0;
      while j < |src.kids|
        invariant 0 <= j <= |src.kids|
        invariant forall y | y in src.kids[..j] :: y !in dependPhiSet
      {
        if src.kids[j] in dependPhiSet {
          assert DirectOperand(src.kids[j], src);
          return true;
        }
        assert src.kids[..j + 1] == src.kids[..j] + [src.kids[j]];
        j := j + 1;
      }
      assert src.kids[..j] == src.kids;
      return false;
    }

    /** Whether some register reached from `exp` through non-register children depends on a phi. */
    function DependPhi(exp: Node): (r: bool)
      reads this`dependPhiSet
      ensures r <==> exists x | x in dependPhiSet :: RegBelow(x, exp)
      decreases exp, |exp.kids| + 1
    {
      DependPhiFrom(exp, 0)
    }

    /** `DependPhi` over the children of `exp` from the `i`-th on. */
    function DependPhiFrom(exp: Node, i: nat): (r: bool)
      reads this`dependPhiSet
      requires i <= |exp.kids|
      ensures r <==> exists x | x in dependPhiSet :: exists j | i <= j < |exp.kids| ::
                (exp.kids[j].op == REG && exp.kids[j] == x) || (exp.kids[j].op != REG && RegBelow(x, exp.kids[j]))
      decreases exp, |exp.kids| - i
    {
      if i == |exp.kids| then false
      else if exp.kids[i].op == REG then exp.kids[i] in dependPhiSet || DependPhiFrom(exp, i + 1)
      else (|exp.kids[i].kids| > 0 && DependPhi(exp.kids[i])) || DependPhiFrom(exp, i + 1)
    }

    // -------------------------------------------------------------------
    // The per-question state
    // -------------------------------------------------------------------

    /** Starts a question from block `blk`: every memo table and insertion list is emptied. */
    method SetVarsToGCM(blk: nat)
      requires Valid() && blk < f.g.n
      modifies this`q
      ensures Valid() && q == EmptyQuery(f.g.n, blk)
    {
      q := EmptyQuery(f.g.n, blk);
    }

    /** Instruction `n` computes `val` into a variable: a store whose source has it, or a SET whose destination has it. */
    ghost predicate Carries(n: Node, val: int)
      reads gvn
    {
      n.op == SET && (if Kid(n, 0).op == MEM then gvn.ValueOf(Kid(n, 1)) == val else gvn.ValueOf(Kid(n, 0)) == val)
    }

    /** Some instruction of `instrs` computes `val` with no CALL or store after it. */
    ghost predicate HeldAfterClobber(instrs: seq<Node>, val: int)
      reads gvn
    {
      exists k | 0 <= k < |instrs| :: Carries(instrs[k], val) && forall j | k < j < |instrs| :: !Clobbers(instrs[j])
    }

    /**
     * Whether the last CALL or store of block `blk` is followed by (or is
     * itself a store of) an instruction computing `val`: the block is
     * scanned from its end, and the first store or CALL ends the scan.
     */
    method CheckMemKill(val: int, blk: nat) returns (r: bool)
      requires Valid() && blk < f.g.n
      ensures r <==> HeldAfterClobber(f.code[blk], val)
    {
      var instrs := f.code[blk];
      var k := |instrs|;
      var stop := false;
      while k > 0 && !stop
        invariant 0 <= k <= |instrs|
        invariant !stop ==> forall j | k <= j < |instrs| :: !Clobbers(instrs[j]) && !Carries(instrs[j], val)
        invariant stop ==> (k < |instrs| && Clobbers(instrs[k]) && !Carries(instrs[k], val) &&
                            forall j | k < j < |instrs| :: !Clobbers(instrs[j]) && !Carries(instrs[j], val))
      {
        k := k - 1;
        var n := instrs[k];
        if n.op == SET {
          if Kid(n, 0).op == MEM {
            var v := gvn.GetValue(Kid(n, 1));
            if v == val {
              assert Carries(instrs[k], val);
              return true;
            }
            stop := true;
          } else {
            var v := gvn.GetValue(Kid(n, 0));
            if v == val {
              assert Carries(instrs[k], val);
              return true;
            }
          }
        } else if n.op == CALL {
          stop := true;
        }
      }
      if stop {
        forall m | 0 <= m < |instrs| && Carries(instrs[m], val)
          ensures exists j | m < j < |instrs| :: Clobbers(instrs[j])
        {
          assert Clobbers(instrs[k]);
        }
      }
      return false;
    }

    /**
     * `local`'s test that block `blk` itself makes `val` available for SET
     * `node`: the block holds `val`, and for a load in a killing block the
     * value is computed after the last CALL or store.
     */
    ghost predicate LocalHolds(val: int, node: Node, blk: nat)
      reads f, gvn, kill
    {
      && blk < |gvn.blkVars| && blk < kill.Length && blk < |f.code|
      && gvn.ContainValue(val, blk) && (Kid(node, 1).op != MEM || !kill[blk] || HeldAfterClobber(f.code[blk], val))
    }

    /** Whether block `blk` itself holds `val` for `node`, as `local` first asks. */
    method CheckHolds(val: int, node: Node, blk: nat) returns (holds: bool)
      requires Valid() && blk < f.g.n
      ensures holds <==> LocalHolds(val, node, blk)
    {
      holds := gvn.ContainValue(val, blk) && (Kid(node, 1).op != MEM || !kill[blk]);
      if gvn.ContainValue(val, blk) && !holds {
        holds := CheckMemKill(val, blk);
      }
    }

    // -------------------------------------------------------------------
    // Finding the variable that holds a value
    // -------------------------------------------------------------------

    /**
     * Instruction `node` stops `getVarLocal`'s scan for `val`: a SET or PHI
     * that was inserted by this question, or whose register destination,
     * or else whose source, carries `val`.
     */
    ghost predicate LocalHit(node: Node, val: int)
      reads this`q, gvn
    {
      (node.op == SET || node.op == PHI) &&
      (node in q.insertNodeToBlk ||
       (Kid(node, 0).op == REG && gvn.ValueOf(Kid(node, 0)) == val) ||
       (Kid(node, 0).op != REG && gvn.ValueOf(Kid(node, 1)) == val))
    }

    /** The variable `getVarLocal` takes from the instruction that stops it. */
    function LocalOffer(node: Node): Node
      reads this`q
    {
      if node in q.insertNodeToBlk || Kid(node, 0).op == REG then
        (if IsLeaf(Kid(node, 1)) then Kid(node, 1) else Kid(node, 0))
      else Kid(node, 1)
    }

    /**
     * The variable of the nearest instruction at or before position `from`
     * of block `blk` that carries `val` (see `LocalHit`), or none.
     */
    method GetVarLocal(val: int, blk: nat, from: int) returns (r: Option<Node>)
      requires Valid() && blk < f.g.n && -1 <= from < |f.code[blk]|
      ensures r.None? <==> forall k | 0 <= k <= from :: !LocalHit(f.code[blk][k], val)
      ensures r.Some? ==> exists k | 0 <= k <= from ::
                LocalHit(f.code[blk][k], val) && r.value == LocalOffer(f.code[blk][k]) &&
                forall j | k < j <= from :: !LocalHit(f.code[blk][j], val)
    {
      var instrs := f.code[blk];
      var k := from;
      while k >= 0
        invariant -1 <= k <= from
        invariant forall j | k < j <= from :: !LocalHit(instrs[j], val)
      {
        var node := instrs[k];
        if node.op == SET || node.op == PHI {
          if node in q.insertNodeToBlk {
            return Some(LocalOffer(node));
          } else if Kid(node, 0).op == REG {
            var v := gvn.GetValue(Kid(node, 0));
            if v == val {
              return Some(LocalOffer(node));
            }
          } else {
            var v := gvn.GetValue(Kid(node, 1));
            if v == val {
              return Some(LocalOffer(node));
            }
          }
        }
        k := k - 1;
      }
      return None;
    }

    /** `x` is the variable block `d` offers for the number the question asked of `d`: its holder, or its inserted node's target. */
    ghost predicate ChainHolder(x: Node, d: nat)
      reads this`q, gvn
    {
      d < |q.blkVal| && d < |gvn.blkVars| &&
      (gvn.GetVariable(q.blkVal[d], d) == Some(x) || (d in q.blkToNewNode && x == Kid(q.blkToNewNode[d], 0)))
    }

    /**
     * `x` holds `val` for block `blk`: with a position `from`, it is what
     * an instruction at or before `from` that carries `val` offers;
     * otherwise a dominator of `blk` (strictly, with a position) offers it.
     */
    ghost predicate Offers(x: Node, val: int, blk: nat, from: Option<int>)
      reads this`q, f, gvn
      requires f.Valid() && blk < f.g.n
    {
      (from.Some? && exists k | 0 <= k <= from.value && k < |f.code[blk]| :: LocalHit(f.code[blk][k], val) && x == LocalOffer(f.code[blk][k])) ||
      (exists d | 0 <= d < f.g.n && f.g.Dominates(d, blk) :: ChainHolder(x, d) && (from.Some? ==> d != blk))
    }

    /**
     * The variable holding `val` at block `blk`: with a position `from`,
     * first the nearest local holder at or before it, then up the
     * dominator tree from the immediate dominator; without one, up the
     * tree from `blk` itself. Each block on the way is asked for the number
     * the question recorded there, and the walk stops at a block where
     * that number was not found available.
     */
    method GetVar(val: int, blk: nat, from: Option<int>) returns (r: Option<Node>)
      requires Valid() && blk < f.g.n && (from.Some? ==> -1 <= from.value < |f.code[blk]|)
      ensures r.Some? ==> Offers(r.value, val, blk, from)
      ensures from.Some? && LocalFinds(val, blk, from.value) ==> r.Some?
      ensures from.Some? && !LocalFinds(val, blk, from.value) ==> r == ChainVar(f.g.idom[blk])
      ensures from.None? ==> r == ChainVar(blk)
    {
      var d: int := blk;
      if from.Some? {
        if blk in q.blkToNewNode || gvn.ContainValue(val, blk) {
          var v := GetVarLocal(val, blk, from.value);
          if v.Some? {
            return v;
          }
        }
        d := f.g.idom[blk];
        assert d != -1 ==> f.g.Dominates(d, blk);
      }
      ghost var found := ChainVar(d);
      while d != -1
        invariant d == -1 || (0 <= d < f.g.n && f.g.Dominates(d, blk) && (from.Some? ==> d != blk))
        invariant ChainVar(d) == found
        decreases if d == -1 then 0 else f.g.domDepth[d] + 1
      {
        var v := q.blkVal[d];
        if gvn.ContainValue(v, d) {
          return gvn.GetVariable(v, d);
        } else if d in q.blkToNewNode {
          return Some(Kid(q.blkToNewNode[d], 0));
        }
        if !q.CheckAvail(v, d) {
          break;
        }
        if f.g.idom[d] != -1 {
          DominatesIdom(f.g, d, blk);
          DominatesDepth(f.g, d, blk);
          assert f.g.idom[d] != blk;
        }
        d := f.g.idom[d];
      }
      return None;
    }

    /** With a position `from`: `blk` has a local holder of `val` at or before `from`, which `getVarLocal` is asked for. */
    ghost predicate LocalFinds(val: int, blk: nat, from: int)
      reads this`q, f, gvn
      requires f.Valid() && blk < f.g.n && from < |f.code[blk]|
    {
      && blk < |gvn.blkVars|
      && (blk in q.blkToNewNode || gvn.ContainValue(val, blk))
      && exists k | 0 <= k <= from :: LocalHit(f.code[blk][k], val)
    }

    /**
     * What the walk of `getVar` finds from block `d` up the dominator tree
     * (-1: past the root): the holder of the number the question recorded
     * at the first block that holds it or received an inserted node,
     * stopping with none at a block where that number was not found
     * available.
     */
    ghost function ChainVar(d: int): Option<Node>
      reads this`q, f, gvn
      requires f.Valid()
      decreases if 0 <= d < f.g.n then f.g.domDepth[d] + 1 else 0
    {
      if d < 0 || d >= f.g.n || d >= |q.blkVal| || d >= |gvn.blkVars| then None
      else if gvn.ContainValue(q.blkVal[d], d) then gvn.GetVariable(q.blkVal[d], d)
      else if d in q.blkToNewNode then Some(Kid(q.blkToNewNode[d], 0))
      else if !q.CheckAvail(q.blkVal[d], d) then None
      else ChainVar(f.g.idom[d])
    }

    /**
     * From block `d` up the dominator tree, every block was asked `val` and
     * the chain reaches a block that holds `val` and dominates `blk`
     * before it meets a block that received an inserted node.
     */
    ghost predicate ChainHolds(val: int, d: nat, blk: nat)
      reads this`q, this`nextSym, f, gvn, alias
      requires Valid() && d < f.g.n && blk < f.g.n
      decreases f.g.domDepth[d]
    {
      && d in q.visited && q.blkVal[d] == val
      && ((gvn.ContainValue(val, d) && f.g.Dominates(d, blk)) ||
          (!HasNodeIn(q, d) && f.g.idom[d] != -1 && ChainHolds(val, f.g.idom[d], blk)))
    }

    /**
     * Whether a phi for `val` at `blk` is unnecessary: from every
     * predecessor, the chain of `ChainHolds` reaches a holder dominating
     * `blk`.
     */
    method ExistDomBlk(val: int, blk: nat) returns (r: bool)
      requires Valid() && blk < f.g.n
      ensures r <==> forall p | p in f.g.preds[blk] :: ChainHolds(val, p, blk)
    {
      var ps := f.g.preds[blk];
      IdsBelowAt(f.g.preds, f.g.n, blk);
      var j := 0;
      while j < |ps|
        invariant 0 <= j <= |ps|
        invariant forall m | 0 <= m < j :: ChainHolds(val, ps[m], blk)
      {
        var ok := ChainFrom(val, ps[j], blk);
        if !ok {
          return false;
        }
        j := j + 1;
      }
      forall p | p in ps ensures ChainHolds(val, p, blk) {
        var m :| 0 <= m < |ps| && ps[m] == p;
      }
      return true;
    }

    /** The walk of `existDomBlk` up the dominator tree from predecessor `p`. */
    method ChainFrom(val: int, p: nat, blk: nat) returns (r: bool)
      requires Valid() && p < f.g.n && blk < f.g.n
      ensures r <==> ChainHolds(val, p, blk)
    {
      var d: int := p;
      while d != -1
        invariant d == -1 ==> !ChainHolds(val, p, blk)
        invariant d != -1 ==> 0 <= d < f.g.n && (ChainHolds(val, p, blk) <==> ChainHolds(val, d, blk))
        decreases if d == -1 then 0 else f.g.domDepth[d] + 1
      {
        if d !in q.visited || val != q.blkVal[d] {
          return false;
        }
        var dom := f.g.Dominates(d, blk);
        if gvn.ContainValue(val, d) && dom {
          return true;
        }
        if HasNodeIn(q, d) {
          return false;
        }
        d := f.g.idom[d];
      }
      return false;
    }

    /** A chain that `ChainHolds` accepts ends at a block that dominates both its start and `blk` and holds `val`. */
    lemma {:induction false} ChainHoldsDominator(val: int, d: nat, blk: nat)
      requires Valid() && d < f.g.n && blk < f.g.n && ChainHolds(val, d, blk)
      ensures exists h | 0 <= h < f.g.n :: f.g.Dominates(h, d) && f.g.Dominates(h, blk) && gvn.ContainValue(val, h)
      decreases f.g.domDepth[d]
    {
      if gvn.ContainValue(val, d) && f.g.Dominates(d, blk) {
        assert f.g.Dominates(d, d);
      } else {
        var i := f.g.idom[d];
        ChainHoldsDominator(val, i, blk);
        var h :| 0 <= h < f.g.n && f.g.Dominates(h, i) && f.g.Dominates(h, blk) && gvn.ContainValue(val, h);
        assert f.g.Dominates(h, d);
      }
    }

    // -------------------------------------------------------------------
    // Changing the instruction lists
    // -------------------------------------------------------------------

    /** The instruction `eliminate` is at, if the position is inside its block. */
    ghost function Cur(): Option<Node>
      reads this`atBlk, this`at, f
    {
      if atBlk < |f.code| && at < |f.code[atBlk]| then Some(f.code[atBlk][at]) else None
    }

    /** Replaces the instruction list of block `blk`. */
    method SetBlock(blk: nat, instrs: seq<Node>)
      requires Valid() && blk < f.g.n
      modifies f
      ensures Valid() && f.code == old(f.code)[blk := instrs]
    {
      f.code := f.code[blk := instrs];
    }

    /** Inserts `node` at position `pos` of block `blk`; the instruction `eliminate` is at stays the same. */
    method InsertCode(blk: nat, pos: nat, node: Node)
      requires Valid() && blk < f.g.n && pos <= |f.code[blk]|
      modifies f, this`at
      ensures Valid() && Cur() == old(Cur())
      ensures f.code == old(f.code)[blk := old(f.code[blk])[..pos] + [node] + old(f.code[blk])[pos..]]
      ensures KeepsInstrs(old(f.code), f.code) && node in f.code[blk]
    {
      var instrs := f.code[blk];
      InsertKeeps(instrs, pos, node);
      SetBlock(blk, instrs[..pos] + [node] + instrs[pos..]);
      if blk == atBlk && pos <= at {
        at := at + 1;
      }
    }

    /**
     * Unlinks from block `blk` every SET and PHI whose destination is `v`;
     * the instruction `eliminate` is at stays the same unless it is one of them.
     */
    method Cancel(v: Node, blk: nat)
      requires Valid() && blk < f.g.n
      modifies f, this`at
      ensures Valid() && f.code == old(f.code)[blk := Without(old(f.code[blk]), v)]
      ensures old(Cur()).Some? && !Defines(old(Cur()).value, v) ==> Cur() == old(Cur())
    {
      var instrs := f.code[blk];
      SetBlock(blk, Without(instrs, v));
      if blk == atBlk {
        at := KeptPosition(instrs, at, v);
      }
    }

    /**
     * Undoes the insertions of the current question: for every node it
     * inserted, the value entry of its variable is dropped and every
     * instruction defining that variable is unlinked from its block.
     */
    method CancelInsertNode()
      requires Valid()
      modifies f, this`at, gvn`valueTable, gvn`blkVars
      ensures Valid() && forall i | 0 <= i < |q.newNodes| :: Cancelled(q.newNodes[i])
      ensures old(Cur()).Some? && DefinesNoTemp(old(Cur()).value) ==> Cur() == old(Cur())
    {
      var i := 0;
      while i < |q.newNodes|
        invariant 0 <= i <= |q.newNodes| && Valid()
        invariant forall m | 0 <= m < i :: Cancelled(q.newNodes[m])
        invariant old(Cur()).Some? && DefinesNoTemp(old(Cur()).value) ==> Cur() == old(Cur())
      {
        CancelNode(q.newNodes[i]);
        i := i + 1;
      }
    }

    /** Instruction `x` defines none of the temporaries of the current question. */
    ghost predicate DefinesNoTemp(x: Node)
      reads this`q
    {
      forall i | 0 <= i < |q.newNodes| :: !Defines(x, Kid(q.newNodes[i], 0))
    }

    /**
     * Node `node` to insert left no trace: the variable it defines has no
     * value entry and no instruction of its block defines that variable.
     */
    ghost predicate Cancelled(node: Node)
      reads this`q, f, gvn
    {
      node in q.insertNodeToBlk ==>
        var t := Kid(node, 0);
        t !in gvn.valueTable &&
        (q.insertNodeToBlk[node] < |f.code| ==> forall x | x in f.code[q.insertNodeToBlk[node]] :: !Defines(x, t))
    }

    /** The step of `cancelInsertNode` for one node to insert; what earlier steps cancelled stays cancelled. */
    method CancelNode(node: Node)
      requires Valid()
      modifies f, this`at, gvn`valueTable, gvn`blkVars
      ensures Valid() && Cancelled(node)
      ensures forall x | old(Cancelled(x)) :: Cancelled(x)
      ensures old(Cur()).Some? && !Defines(old(Cur()).value, Kid(node, 0)) ==> Cur() == old(Cur())
    {
      if node in q.insertNodeToBlk {
        var blk := q.insertNodeToBlk[node];
        var t := Kid(node, 0);
        var val := gvn.GetValue(t);
        gvn.RemoveValueIn(val, t, blk);
        Cancel(t, blk);
      }
    }

    /** A fresh register of the type of `typeNode`. */
    method CreateNewVar(typeNode: Node) returns (r: Node)
      requires Valid()
      modifies this`nextSym
      ensures Valid()
      ensures r == Reg(old(nextSym), typeNode.ty) && nextSym == old(nextSym) + 1
    {
      r := Reg(nextSym, typeNode.ty);
      nextSym := nextSym + 1;
    }

    /** A new phi for block `blk` whose target is a fresh register of the type of `expr`, with that register as every argument. */
    method NewPhi(expr: Node, blk: nat) returns (r: Node)
      requires Valid() && blk < f.g.n
      modifies this`nextSym
      ensures r.op == PHI && Kid(r, 0) == Reg(old(nextSym), expr.ty) && nextSym == old(nextSym) + 1
      ensures |r.kids| == |f.g.preds[blk]| + 1 && LabelsIn(r, f.g.n)
    {
      var s := CreateNewVar(expr);
      IdsBelowAt(f.g.preds, f.g.n, blk);
      r := Node(PHI, expr.ty, 0, [s] + PhiArgs(s, f.g.preds[blk]));
      assert forall j | 1 <= j < |r.kids| :: r.kids[j] == PhiArgs(s, f.g.preds[blk])[j - 1];
    }

    /**
     * Unless block `blk` already received a node in this question, records
     * SET `node` retargeted to a fresh temporary (a load reading a fresh
     * memory version) as the node to insert there, with the temporary
     * numbered `val` in `blk`.
     */
    method InsertTempNewNode(node: Node, val: int, blk: nat) returns (ghost t: Node)
      requires Valid() && blk < f.g.n && val != -1 && IsSetNode(node)
      modifies this`q, this`nextSym, gvn`valueTable, gvn`constValTable, gvn`blkVars, gvn`reach, alias`nextNum, alias`issued
      ensures Valid() && HasNodeIn(q, blk) && old(q.insertNodeToBlk.Values) <= q.insertNodeToBlk.Values
      ensures old(alias.issued) <= alias.issued
      ensures old(HasNodeIn(q, blk)) ==> q == old(q) && nextSym == old(nextSym)
      ensures !old(HasNodeIn(q, blk)) ==>
                && t.op == SET && Kid(t, 0) == Reg(old(nextSym), Kid(node, 0).ty)
                && (Kid(node, 1).op != MEM ==> Kid(t, 1) == Kid(node, 1))
                && (Kid(node, 1).op == MEM ==> Kid(t, 1).op == MEM && Kid(Kid(t, 1), 0) == Kid(Kid(node, 1), 0))
                && q == old(q).(newNodes := old(q.newNodes) + [t], insertNodeToBlk := old(q.insertNodeToBlk)[t := blk])
                && gvn.ValueOf(Kid(t, 0)) == val
    {
      t := node;
      if !HasNodeIn(q, blk) {
        var n1 := FreshTemp(node);
        t := n1;
        assert n1 !in q.insertNodeToBlk;
        q := AddNode(q, n1, blk, f.g.n);
        gvn.SetValueIn(val, Kid(n1, 0), blk);
      }
    }

    /** SET `node` with a fresh temporary as destination, and a fresh memory version if it loads. */
    method FreshTemp(node: Node) returns (t: Node)
      requires Valid() && IsSetNode(node)
      modifies this`nextSym, alias`nextNum, alias`issued
      ensures Valid() && nextSym == old(nextSym) + 1 && old(alias.issued) <= alias.issued
      ensures IsSetNode(t) && Kid(t, 0) == Reg(old(nextSym), Kid(node, 0).ty)
      ensures Kid(node, 1).op != MEM ==> Kid(t, 1) == Kid(node, 1)
      ensures Kid(node, 1).op == MEM ==> Kid(t, 1).op == MEM && Kid(Kid(t, 1), 0) == Kid(Kid(node, 1), 0)
    {
      var v := CreateNewVar(Kid(node, 0));
      t := WithKid(node, 0, v);
      if Kid(t, 1).op == MEM {
        var m := alias.MakeNewMem(Kid(t, 1));
        t := WithKid(t, 1, m);
      }
    }

    /**
     * For every blocked predecessor, inserts the node remembered for it
     * (numbered as that predecessor was asked, or with a new number).
     */
    method InsertTempNewNodes(stored: map<nat, Node>, blocked: seq<nat>)
      requires Valid() && forall p | p in blocked :: p < f.g.n
      requires forall p | p in stored :: IsSetNode(stored[p])
      modifies this`q, this`nextSym, gvn`value, gvn`issued, gvn`valueTable, gvn`constValTable, gvn`blkVars, gvn`reach,
               alias`nextNum, alias`issued
      ensures Valid() && OnlyInserted(old(q), q) && old(alias.issued) <= alias.issued
      ensures forall p | p in blocked && p in stored :: HasNodeIn(q, p)
    {
      var i := 0;
      while i < |blocked|
        invariant 0 <= i <= |blocked| && Valid() && OnlyInserted(old(q), q) && old(alias.issued) <= alias.issued
        invariant forall m | 0 <= m < i && blocked[m] in stored :: HasNodeIn(q, blocked[m])
      {
        assert blocked[i] in blocked;
        InsertStored(stored, blocked[i]);
        i := i + 1;
      }
    }

    /** The step of `insertTempNewNodes` for one blocked predecessor `blk`. */
    method InsertStored(stored: map<nat, Node>, blk: nat)
      requires Valid() && blk < f.g.n
      requires forall p | p in stored :: IsSetNode(stored[p])
      modifies this`q, this`nextSym, gvn`value, gvn`issued, gvn`valueTable, gvn`constValTable, gvn`blkVars, gvn`reach,
               alias`nextNum, alias`issued
      ensures Valid() && OnlyInserted(old(q), q) && old(alias.issued) <= alias.issued
      ensures blk in stored ==> HasNodeIn(q, blk)
    {
      var val := q.blkVal[blk];
      if val == -1 {
        val := gvn.NewValue();
      }
      if blk in stored {
        var _ := InsertTempNewNode(stored[blk], val, blk);
      }
    }

    /** The index of the first phi to insert whose first argument's label (read at child 2) is block `blk`. */
    function FindTempPhi(nodes: seq<Node>, blk: nat): (r: Option<nat>)
      ensures r.Some? ==> r.value < |nodes| && nodes[r.value].op == PHI && TempPhiLabel(nodes[r.value]) == blk
      ensures r.Some? ==> forall j | 0 <= j < r.value :: !(nodes[j].op == PHI && TempPhiLabel(nodes[j]) == blk)
      ensures r.None? ==> forall j | 0 <= j < |nodes| :: !(nodes[j].op == PHI && TempPhiLabel(nodes[j]) == blk)
    {
      if |nodes| == 0 then None
      else if nodes[0].op == PHI && TempPhiLabel(nodes[0]) == blk then Some(0)
      else match FindTempPhi(nodes[1..], blk)
        case None => None
        case Some(i) => Some(i + 1)
    }

    /**
     * Unless `existDomBlk` finds the value held on every incoming chain,
     * makes a phi of `blk` the last node to insert, numbered `val`: a phi
     * already to insert whose first argument names `blk` is moved to the
     * end (its old number entry dropped), else a new phi is made.
     */
    method InsertNewTempPhi(val: int, node: Node, blk: nat) returns (ghost placed: bool)
      requires Valid() && blk < f.g.n && val != -1
      modifies this`q, this`nextSym, gvn`valueTable, gvn`constValTable, gvn`blkVars, gvn`reach
      ensures Valid() && OnlyNodesChanged(old(q), q)
      ensures placed <==> !old(forall p | p in f.g.preds[blk] :: ChainHolds(val, p, blk))
      ensures !placed ==> q == old(q)
      ensures placed ==> LastPhiFor(val, blk)
    {
      var exist := ExistDomBlk(val, blk);
      placed := !exist;
      if !exist {
        PlaceTempPhi(val, node, blk);
      }
    }

    /** The last node to insert is a phi in block `blk` whose target is numbered `val`. */
    ghost predicate LastPhiFor(val: int, blk: nat)
      reads this`q, gvn
    {
      && |q.newNodes| > 0 && q.newNodes[|q.newNodes| - 1].op == PHI
      && q.newNodes[|q.newNodes| - 1] in q.insertNodeToBlk
      && q.insertNodeToBlk[q.newNodes[|q.newNodes| - 1]] == blk
      && Kid(q.newNodes[|q.newNodes| - 1], 0) in gvn.valueTable
      && gvn.valueTable[Kid(q.newNodes[|q.newNodes| - 1], 0)] == val
    }

    /**
     * Makes a phi of `blk` the last node to insert, numbered `val`: the
     * first phi already to insert whose first argument names `blk` is moved
     * to the end (its old number entry dropped), else a new phi is made.
     */
    method PlaceTempPhi(val: int, node: Node, blk: nat)
      requires Valid() && blk < f.g.n && val != -1
      modifies this`q, this`nextSym, gvn`valueTable, gvn`constValTable, gvn`blkVars, gvn`reach
      ensures Valid() && OnlyNodesChanged(old(q), q)
      ensures LastPhiFor(val, blk)
    {
      var phi := TempPhi(val, node, blk);
      gvn.SetValueIn(val, Kid(phi, 0), blk);
    }

    /** The phi `PlaceTempPhi` numbers, already moved or added to the end of the nodes to insert. */
    method TempPhi(val: int, node: Node, blk: nat) returns (phi: Node)
      requires Valid() && blk < f.g.n
      modifies this`q, this`nextSym, gvn`valueTable, gvn`blkVars
      ensures Valid() && OnlyNodesChanged(old(q), q)
      ensures LastNode(q, phi, blk) && phi.op == PHI
    {
      var found: Option<nat> := None;
      if |q.newNodes| > 0 && HasNodeIn(q, blk) {
        found := FindTempPhi(q.newNodes, blk);
      }
      if found.Some? {
        phi := MoveTempPhi(val, found.value, blk);
      } else {
        phi := NewPhi(node, blk);
        q := AddNode(q, phi, blk, f.g.n);
      }
    }

    /** Moves phi `i` of the nodes to insert to the end, in block `blk`, dropping the number entry of its target. */
    method MoveTempPhi(val: int, i: nat, blk: nat) returns (phi: Node)
      requires Valid() && blk < f.g.n && i < |q.newNodes| && q.newNodes[i].op == PHI
      modifies this`q, gvn`valueTable, gvn`blkVars
      ensures Valid() && OnlyNodesChanged(old(q), q) && phi == old(q.newNodes[i])
      ensures LastNode(q, phi, blk) && Kid(phi, 0) !in gvn.valueTable
    {
      phi := q.newNodes[i];
      q := MoveNode(q, i, blk, f.g.n);
      gvn.RemoveValueIn(val, Kid(phi, 0), blk);
    }

    // -------------------------------------------------------------------
    // The question: is the value of a SET available on every path?
    // -------------------------------------------------------------------

    /**
     * The first half of `propagate`'s step for predecessor `pred` of `blk`:
     * for a load, the memory version of `cur`'s source becomes the version
     * leaving `pred` (the caller's node is rewritten, as in the source); the
     * value expression is translated across the phis of `blk`, and its
     * operands are named again by the variables of `pred`, if they all have one.
     */
    method TranslateToPred(vnode: Node, cur: Node, blk: nat, pred: nat)
      returns (cur': Node, newVNode: Node, newExp: Option<Node>)
      requires Valid() && IsSetNode(vnode) && IsSetNode(cur) && blk < f.g.n && pred < f.g.n
      modifies gvn
      ensures Valid() && IsSetNode(cur') && IsSetNode(newVNode) && Kid(newVNode, 0) == Kid(vnode, 0)
      ensures cur' == if Kid(cur, 1).op == MEM then WithKid(cur, 1, WithKid(Kid(cur, 1), 1, alias.GetIndex(pred))) else cur
      ensures newExp.Some? ==> newExp.value.op == Kid(newVNode, 1).op
    {
      cur' := cur;
      newVNode := vnode;
      if Kid(cur, 1).op == MEM {
        cur', newVNode := VersionAtPred(vnode, cur, pred);
      }
      newVNode, newExp := RenameAtPred(newVNode, cur', blk, pred);
    }

    /** For a load: the memory version leaving `pred` goes into the value expression and into `cur`'s source. */
    method VersionAtPred(vnode: Node, cur: Node, pred: nat) returns (cur': Node, newVNode: Node)
      requires Valid() && IsSetNode(vnode) && IsSetNode(cur) && Kid(cur, 1).op == MEM && pred < f.g.n
      modifies gvn
      ensures Valid() && IsSetNode(cur') && IsSetNode(newVNode) && Kid(newVNode, 0) == Kid(vnode, 0)
      ensures cur' == WithKid(cur, 1, WithKid(Kid(cur, 1), 1, alias.GetIndex(pred)))
    {
      var inode := alias.GetIndex(pred);
      var index := gvn.MakeVExp(inode, pred);
      newVNode := WithKid(vnode, 1, WithKid(Kid(vnode, 1), 1, index.value));
      cur' := WithKid(cur, 1, WithKid(Kid(cur, 1), 1, inode));
    }

    /**
     * The value expression translated across the phis of `blk`, and its
     * operands named again by the variables of `pred`; a load's rebuilt
     * source keeps the memory version of `cur`.
     */
    method RenameAtPred(vnode: Node, cur: Node, blk: nat, pred: nat) returns (newVNode: Node, newExp: Option<Node>)
      requires Valid() && IsSetNode(vnode) && blk < f.g.n && pred < f.g.n
      modifies gvn
      ensures Valid() && IsSetNode(newVNode) && Kid(newVNode, 0) == Kid(vnode, 0)
      ensures newExp.Some? ==> newExp.value.op == Kid(newVNode, 1).op
    {
      var newVExp := gvn.MakeNewValueExpPred(Kid(vnode, 1), Kid(cur, 1), blk, pred);
      newVNode := WithKid(vnode, 1, newVExp);
      newExp := gvn.ValueNumberToVariable(newVExp, Kid(cur, 1), pred, None);
      if newExp.Some? && Kid(cur, 1).op == MEM {
        newExp := Some(WithKid(newExp.value, 1, Kid(Kid(cur, 1), 1)));
      }
    }

    /**
     * The second half of the step: the SET to ask of `pred` takes the
     * rebuilt source `newExp`, and its number is the number of the
     * translated value expression. A load without one first tries its
     * original memory version; otherwise a new number is recorded in `pred`.
     */
    method NumberAtPred(vnode: Node, cur: Node, newVNode: Node, newExp: Node, pred: nat)
      returns (newVNode': Node, newNode: Node, newVal: int)
      requires Valid() && IsSetNode(vnode) && IsSetNode(cur) && IsSetNode(newVNode) && pred < f.g.n
      modifies gvn`value, gvn`issued, gvn`valueTable, gvn`constValTable, gvn`blkVars, gvn`reach
      ensures Valid() && IsSetNode(newVNode') && IsSetNode(newNode) && Kid(newNode, 0) == Kid(cur, 0)
      ensures Kid(newVNode', 0) == Kid(newVNode, 0)
      ensures newVal != -1 ==> gvn.ValueOf(Kid(newVNode', 1)) == newVal
    {
      newNode := WithKid(cur, 1, newExp);
      newVal := gvn.GetValue(Kid(newVNode, 1));
      newVNode' := newVNode;
      if newVal == -1 {
        newVNode', newNode, newVal := NumberAfresh(vnode, cur, newVNode, newNode, pred);
      }
    }

    /**
     * The translated value expression has no number: a load first tries
     * the expression with the memory version of the original question
     * (`cur` is the SET already rewritten to the version leaving `pred`);
     * otherwise the expression receives a new number, recorded in `pred`.
     */
    method NumberAfresh(vnode: Node, cur: Node, newVNode: Node, newNode: Node, pred: nat)
      returns (newVNode': Node, newNode': Node, newVal: int)
      requires Valid() && IsSetNode(vnode) && IsSetNode(cur) && IsSetNode(newVNode) && IsSetNode(newNode) && pred < f.g.n
      modifies gvn`value, gvn`issued, gvn`valueTable, gvn`constValTable, gvn`blkVars, gvn`reach
      ensures Valid() && IsSetNode(newVNode') && IsSetNode(newNode') && Kid(newNode', 0) == Kid(newNode, 0)
      ensures Kid(newVNode', 0) == Kid(newVNode, 0)
      ensures newVal != -1 ==> gvn.ValueOf(Kid(newVNode', 1)) == newVal
    {
      var newVExp := Kid(newVNode, 1);
      if Kid(cur, 1).op == MEM {
        var tempExp := WithKid(newVExp, 1, Kid(Kid(vnode, 1), 1));
        var temp := gvn.GetValue(tempExp);
        if temp != -1 {
          return WithKid(newVNode, 1, tempExp), WithKid(newNode, 1, WithKid(Kid(newNode, 1), 1, Kid(Kid(cur, 1), 1))), temp;
        }
      }
      var nv := gvn.NewValue();
      gvn.SetValueIn(nv, newVExp, pred);
      newVal := gvn.GetValue(newVExp);
      return newVNode, newNode, newVal;
    }

    /**
     * The whole step of `propagate` for predecessor `pred`: the question is
     * rebuilt for `pred` (`ok` is false when that fails) and asked of it.
     * `stored` is the SET remembered for `pred` when `pred` was asked for
     * the first time; `isReal` and `isSelf` count a yes that `pred` answered by
     * a real computation or by the original SET.
     */
    method PredStep(vnode: Node, cur: Node, blk: nat, pred: nat)
      returns (ok: bool, cur': Node, answer: bool, isReal: bool, isSelf: bool, stored: Option<Node>)
      requires Valid() && IsSetNode(vnode) && IsSetNode(cur) && blk < f.g.n && pred < f.g.n
      modifies this`q, this`nextSym, gvn, alias`nextNum, alias`issued
      ensures Valid() && Advances(old(q), q) && Extends(old(q.visited), q.visited) && Unvisited() <= old(Unvisited())
      ensures old(alias.issued) <= alias.issued
      ensures IsSetNode(cur') && Kid(cur', 0) == Kid(cur, 0)
      ensures stored.Some? ==> IsSetNode(stored.value)
      ensures !ok ==> !answer && stored.None?
      ensures isReal || isSelf ==> answer
      decreases Unvisited(), 2
    {
      var newVNode, newExp;
      cur', newVNode, newExp := TranslateToPred(vnode, cur, blk, pred);
      if newExp.None? {
        return false, cur', false, false, false, None;
      }
      var newNode, newVal;
      newVNode, newNode, newVal := NumberAtPred(vnode, cur', newVNode, newExp.value, pred);
      if newVal == -1 {
        return false, cur', false, false, false, None;
      }
      ok := true;
      var first;
      answer, first := AskPred(newVal, newVNode, newNode, pred);
      stored := if first then Some(newNode) else None;
      isReal := answer && q.CheckIsReal(newVal, pred);
      isSelf := answer && q.CheckIsSelf(newVal, pred);
    }

    /**
     * Asks `pred` whether number `newVal` is available: a block asked
     * before answers from the memo (its recorded answer, or, while its own
     * question is still open, whether it was asked the same number); a new
     * block records the number and answers through `local`.
     */
    method AskPred(newVal: int, newVNode: Node, newNode: Node, pred: nat) returns (answer: bool, first: bool)
      requires Valid() && pred < f.g.n && newVal != -1 && IsSetNode(newVNode) && IsSetNode(newNode)
      modifies this`q, this`nextSym, gvn, alias`nextNum, alias`issued
      ensures Valid() && Advances(old(q), q) && Extends(old(q.visited), q.visited) && Unvisited() <= old(Unvisited())
      ensures old(alias.issued) <= alias.issued
      ensures first <==> pred !in old(q.visited)
      ensures !first ==> q == old(q)
      ensures !first ==> (answer <==> if old(q.CheckResult(newVal, pred)) then old(q.CheckAvail(newVal, pred))
                                     else old(q.visited[pred]) == newVal)
      ensures first ==> pred in q.visited && q.visited[pred] == newVal && q.CheckResult(newVal, pred)
      decreases Unvisited(), 1
    {
      if pred in q.visited {
        first := false;
        if q.CheckResult(newVal, pred) {
          answer := q.CheckAvail(newVal, pred);
        } else {
          answer := q.visited[pred] == newVal;
        }
      } else {
        first := true;
        q := q.WithBlkVal(pred, newVal);
        answer := Local(newVal, newVNode, newNode, pred);
      }
    }

    /** `local`: `blk` is marked asked with `val`, answers, and `val` is recorded among its answered numbers. */
    method Local(val: int, vnode: Node, node: Node, blk: nat) returns (r: bool)
      requires Valid() && blk < f.g.n && blk !in q.visited && val != -1 && IsSetNode(vnode) && IsSetNode(node)
      modifies this`q, this`nextSym, gvn, alias`nextNum, alias`issued
      ensures Valid() && Advances(old(q), q) && Extends(old(q.visited), q.visited) && Unvisited() < old(Unvisited())
      ensures old(alias.issued) <= alias.issued
      ensures blk in q.visited && q.visited[blk] == val && q.CheckResult(val, blk)
      decreases Unvisited(), 0
    {
      q := q.RecordVisited(val, blk);
      assert blk in old(Unvisited()) && Unvisited() == old(Unvisited()) - {blk};
      r := LocalAnswer(val, vnode, node, blk);
      q := q.RecordResult(val, blk);
    }

    /**
     * The answer of block `blk`, asked for the first time: yes when the
     * block itself holds `val` (for a load in a killing block, only if it
     * is computed after the last CALL or store); no for a load in a killing
     * block otherwise; else, if the value reaches `blk` or the source
     * depends on a phi and `blk` is not where the question started, the
     * question goes on to its predecessors.
     */
    method LocalAnswer(val: int, vnode: Node, node: Node, blk: nat) returns (r: bool)
      requires Valid() && blk < f.g.n && blk in q.visited && q.visited[blk] == val && val != -1
      requires IsSetNode(vnode) && IsSetNode(node)
      modifies this`q, this`nextSym, gvn, alias`nextNum, alias`issued
      ensures Valid() && Advances(old(q), q) && Extends(old(q.visited), q.visited) && Unvisited() <= old(Unvisited())
      ensures old(alias.issued) <= alias.issued
      ensures old(LocalHolds(val, node, blk)) ==> r && q.CheckAvail(val, blk) && q.CheckIsReal(val, blk)
      ensures !old(LocalHolds(val, node, blk)) && Kid(node, 1).op == MEM && kill[blk] ==> !r
      ensures !old(LocalHolds(val, node, blk)) && (blk == q.exprBlk || !(old(gvn.ReachValue(val, blk)) || DependPhi(Kid(node, 1)))) ==> !r
      decreases Unvisited(), 5
    {
      var holds := CheckHolds(val, node, blk);
      r := false;
      if holds {
        q := q.RecordAnswer(val, blk, true, blk == q.exprBlk);
        r := true;
      } else if Kid(node, 1).op == MEM && kill[blk] {
        r := false;
      } else if (gvn.ReachValue(val, blk) || DependPhi(Kid(node, 1))) && blk != q.exprBlk {
        r := Propagate(val, vnode, node, blk);
      }
    }

    /**
     * `propagate`: asks the question of every predecessor of `blk` in turn;
     * when it cannot be rebuilt for one, `val` is recorded as answered at
     * `blk` and the answer is no; otherwise the answers are concluded.
     */
    method Propagate(val: int, vnode: Node, node: Node, blk: nat) returns (r: bool)
      requires Valid() && blk < f.g.n && val != -1 && IsSetNode(vnode) && IsSetNode(node)
      modifies this`q, this`nextSym, gvn, alias`nextNum, alias`issued
      ensures Valid() && Advances(old(q), q) && KeepsAsked(old(q.visited), q.visited, blk, val) && Unvisited() <= old(Unvisited())
      ensures old(alias.issued) <= alias.issued
      ensures q.CheckResult(val, blk)
      ensures r ==> q.CheckAvail(val, blk) && blk in q.visited && q.visited[blk] == val
      decreases Unvisited(), 4
    {
      var ok, cur, trueN, realN, selfN, stored, blocked := AskPreds(vnode, node, blk);
      ghost var q1 := q;
      if !ok {
        q := q.RecordResult(val, blk);
        AdvancesTrans(old(q), q1, q);
        return false;
      }
      r := Conclude(val, vnode, cur, blk, trueN, realN, selfN, stored, blocked);
      AdvancesTrans(old(q), q1, q);
    }

    /**
     * The loop of `propagate`: the question is asked of every predecessor
     * of `blk` in turn, stopping (`ok` false) when it cannot be rebuilt for
     * one. `trueN` counts the yes answers, `realN` and `selfN` those by a
     * real computation or by the original SET, `blocked` lists the
     * predecessors that answered no, and `stored` the SET remembered for
     * each predecessor asked for the first time.
     */
    method AskPreds(vnode: Node, node: Node, blk: nat)
      returns (ok: bool, cur: Node, trueN: nat, realN: nat, selfN: nat, stored: map<nat, Node>, blocked: seq<nat>)
      requires Valid() && blk < f.g.n && IsSetNode(vnode) && IsSetNode(node)
      modifies this`q, this`nextSym, gvn, alias`nextNum, alias`issued
      ensures Valid() && Advances(old(q), q) && Extends(old(q.visited), q.visited) && Unvisited() <= old(Unvisited())
      ensures old(alias.issued) <= alias.issued
      ensures IsSetNode(cur) && (forall p | p in stored :: IsSetNode(stored[p])) && forall p | p in blocked :: p < f.g.n
      ensures ok ==> realN <= trueN && trueN + |blocked| == |f.g.preds[blk]|
      decreases Unvisited(), 3
    {
      var preds := f.g.preds[blk];
      IdsBelowAt(f.g.preds, f.g.n, blk);
      cur := node;
      realN, selfN, trueN := 0, 0, 0;
      blocked, stored := [], map[];
      var j := 0;
      while j < |preds|
        invariant 0 <= j <= |preds| && Valid() && IsSetNode(cur)
        invariant Advances(old(q), q) && Extends(old(q.visited), q.visited) && Unvisited() <= old(Unvisited())
        invariant old(alias.issued) <= alias.issued
        invariant forall p | p in stored :: IsSetNode(stored[p])
        invariant forall p | p in blocked :: p < f.g.n
        invariant realN <= trueN && trueN + |blocked| == j
      {
        assert preds[j] in preds;
        ghost var q1 := q;
        var step, cur', answer, isReal, isSelf, st := PredStep(vnode, cur, blk, preds[j]);
        AdvancesTrans(old(q), q1, q);
        cur := cur';
        if !step {
          return false, cur, trueN, realN, selfN, stored, blocked;
        }
        if st.Some? {
          stored := stored[preds[j] := st.value];
        }
        if answer {
          trueN := trueN + 1;
          if isReal {
            realN := realN + 1;
          }
          if isSelf {
            selfN := selfN + 1;
          }
        } else {
          blocked := blocked + [preds[j]];
        }
        j := j + 1;
      }
      ok := true;
    }

    /**
     * The end of `propagate`, once every predecessor answered: with at
     * least one yes, the blocked predecessors receive the remembered SETs
     * and `blk` a phi (given a real computation and, where the mode asks
     * for it, down-safety), and `blk` makes `val` available; with none, no.
     */
    method Conclude(val: int, vnode: Node, cur: Node, blk: nat, trueN: nat, realN: nat, selfN: nat,
                    stored: map<nat, Node>, blocked: seq<nat>) returns (r: bool)
      requires Valid() && blk < f.g.n && val != -1 && IsSetNode(cur)
      requires (forall p | p in blocked :: p < f.g.n) && forall p | p in stored :: IsSetNode(stored[p])
      requires trueN + |blocked| == |f.g.preds[blk]|
      modifies this`q, this`nextSym, gvn`value, gvn`issued, gvn`valueTable, gvn`constValTable, gvn`blkVars, gvn`reach,
               alias`nextNum, alias`issued
      ensures Valid() && Advances(old(q), q) && KeepsAsked(old(q.visited), q.visited, blk, val) && Unvisited() <= old(Unvisited())
      ensures old(alias.issued) <= alias.issued
      ensures q.CheckResult(val, blk) && blk in q.visited && q.visited[blk] == val
      ensures trueN == 0 ==> !r
      ensures |blocked| > 0 && realN == 0 ==> !r
      ensures r ==> q.CheckAvail(val, blk)
      ensures r && (realN > 0 || |f.g.preds[blk]| > 1) ==> q.CheckIsReal(val, blk)
      ensures r && selfN == |f.g.preds[blk]| ==> q.CheckIsSelf(val, blk)
    {
      q := q.RecordResult(val, blk).RecordVisited(val, blk);
      assert Unvisited() <= old(Unvisited());
      ghost var asked;
      var ok, realCount;
      ok, realCount, asked := Place(val, vnode, cur, blk, trueN, realN, selfN, stored, blocked);
      if ok {
        q := q.RecordAnswer(val, blk, realCount > 0, selfN == |f.g.preds[blk]|);
      }
      r := ok;
    }

    /**
     * The insertions `propagate` makes before `blk` answers yes: `ok` is
     * false when there is no yes, when every yes came without a real
     * computation while some predecessor is blocked, or when down-safety
     * is asked for and fails; `realCount` is the count of predecessors
     * with a real computation once the insertions are made.
     */
    method Place(val: int, vnode: Node, cur: Node, blk: nat, trueN: nat, realN: nat, selfN: nat,
                 stored: map<nat, Node>, blocked: seq<nat>) returns (ok: bool, realCount: nat, ghost asked: map<nat, int>)
      requires Valid() && blk < f.g.n && val != -1 && IsSetNode(cur)
      requires (forall p | p in blocked :: p < f.g.n) && forall p | p in stored :: IsSetNode(stored[p])
      requires trueN + |blocked| == |f.g.preds[blk]|
      modifies this`q, this`nextSym, gvn`value, gvn`issued, gvn`valueTable, gvn`constValTable, gvn`blkVars, gvn`reach,
               alias`nextNum, alias`issued
      ensures Valid() && OnlyNodesChanged(old(q), q) && old(alias.issued) <= alias.issued
      ensures trueN == 0 ==> !ok
      ensures |blocked| > 0 && realN == 0 ==> !ok
      ensures ok && (realN > 0 || |f.g.preds[blk]| > 1) ==> realCount > 0
      ensures ok && |blocked| > 0 && NeedsDSafe(selfN, |f.g.preds[blk]|) ==> old(DownSafeBy(val, blk, asked))
      ensures ok && |blocked| == 0 && |f.g.preds[blk]| > 1 && trueN != realN && NeedsDSafe(selfN, |f.g.preds[blk]|) ==> old(DownSafeBy(val, blk, asked))
      ensures trueN > 0 && |blocked| == 0 && (trueN == realN || !NeedsDSafe(selfN, |f.g.preds[blk]|)) ==> ok
    {
      var npreds := |f.g.preds[blk]|;
      var needD := NeedsDSafe(selfN, npreds);
      asked := map[];
      if trueN == 0 {
        return false, realN, asked;
      }
      realCount := realN;
      if |blocked| > 0 {
        if realN == 0 {
          return false, realN, asked;
        }
        ok, asked := InsertAll(val, vnode, cur, blk, needD, stored, blocked);
        realCount := npreds;
      } else if npreds > 1 {
        ok, asked := InsertPhi(val, vnode, cur, blk, trueN != realN && needD);
        realCount := npreds;
      } else {
        ok := true;
      }
    }

    /**
     * Down-safety is asked for before inserting: in mode 2 unless every
     * predecessor answered by the original SET itself, and always in mode 3.
     */
    predicate NeedsDSafe(selfN: nat, npreds: nat) {
      (mode == 2 && selfN != npreds) || mode == 3
    }

    /**
     * `asked` witnesses that `val` is computed on every path from `blk`:
     * `blk` holds it, or every successor of `blk` is among the blocks of
     * `asked`, which answer yes as a whole (see `Closed`).
     */
    ghost predicate DownSafeBy(val: int, blk: nat, asked: map<nat, int>)
      requires Ready() && blk < f.g.n
      reads f, gvn
    {
      gvn.ContainValue(val, blk) || (Closed(asked, {}) && forall s | s in f.g.succs[blk] :: s in asked)
    }

    /**
     * With some predecessors blocked: unless down-safety is asked for and
     * fails, every blocked predecessor receives its remembered SET and
     * `blk` receives a phi.
     */
    method InsertAll(val: int, vnode: Node, cur: Node, blk: nat, needD: bool,
                     stored: map<nat, Node>, blocked: seq<nat>) returns (ok: bool, ghost asked: map<nat, int>)
      requires Valid() && blk < f.g.n && val != -1 && IsSetNode(cur)
      requires (forall p | p in blocked :: p < f.g.n) && forall p | p in stored :: IsSetNode(stored[p])
      modifies this`q, this`nextSym, gvn`value, gvn`issued, gvn`valueTable, gvn`constValTable, gvn`blkVars, gvn`reach,
               alias`nextNum, alias`issued
      ensures Valid() && OnlyNodesChanged(old(q), q) && old(alias.issued) <= alias.issued
      ensures !ok ==> needD && q == old(q)
      ensures ok && needD ==> old(DownSafeBy(val, blk, asked))
    {
      asked := map[];
      if needD {
        var safe;
        safe, asked := CheckDSafe(val, Kid(vnode, 1), Kid(cur, 1), blk);
        if !safe {
          return false, asked;
        }
      }
      InsertTempNewNodes(stored, blocked);
      var _ := InsertNewTempPhi(val, cur, blk);
      return true, asked;
    }

    /** With every predecessor answering yes but some not by a real computation: `blk` receives a phi unless down-safety is asked for and fails. */
    method InsertPhi(val: int, vnode: Node, cur: Node, blk: nat, needD: bool) returns (ok: bool, ghost asked: map<nat, int>)
      requires Valid() && blk < f.g.n && val != -1
      modifies this`q, this`nextSym, gvn`valueTable, gvn`constValTable, gvn`blkVars, gvn`reach
      ensures Valid() && OnlyNodesChanged(old(q), q)
      ensures !ok ==> needD && q == old(q)
      ensures ok && needD ==> old(DownSafeBy(val, blk, asked))
    {
      asked := map[];
      if needD {
        var safe;
        safe, asked := CheckDSafe(val, Kid(vnode, 1), Kid(cur, 1), blk);
        if !safe {
          return false, asked;
        }
      }
      var _ := InsertNewTempPhi(val, cur, blk);
      return true, asked;
    }


    // -------------------------------------------------------------------
    // Putting the inserted nodes into the code
    // -------------------------------------------------------------------

    /** `replace`: the instruction `eliminate` is at takes as source the variable `Dst(pred)`. */
    method Replace(pred: Node)
      requires Valid() && Cur().Some?
      modifies f
      ensures Valid() && Cur() == Some(WithKid(old(Cur()).value, 1, Dst(pred)))
      ensures f.code == old(f.code)[atBlk := old(f.code[atBlk])[at := WithKid(old(Cur()).value, 1, Dst(pred))]]
    {
      var node := f.code[atBlk][at];
      SetBlock(atBlk, f.code[atBlk][at := WithKid(node, 1, Dst(pred))]);
    }

    /** `insert`: `node` goes into block `blk` just after its leading PHIs; a block of PHIs only is left alone. */
    method Insert(node: Node, blk: nat)
      requires Valid() && blk < f.g.n
      modifies f, this`at
      ensures Valid() && Cur() == old(Cur())
      ensures f.code == old(f.code)[blk := InsertAfterPhis(old(f.code[blk]), node)]
    {
      var instrs := f.code[blk];
      var k := 0;
      while k < |instrs|
        invariant 0 <= k <= |instrs| && instrs == f.code[blk] && f.code == old(f.code)
        invariant forall j | 0 <= j < k :: instrs[j].op == PHI
      {
        if instrs[k].op != PHI {
          assert FirstNonPhi(instrs) == Some(k);
          InsertCode(blk, k, node);
          return;
        }
        k := k + 1;
      }
      assert f.code == f.code[blk := InsertAfterPhis(instrs, node)];
    }

    /** Phi argument `arg`, when it has a value slot, holds a variable that a dominator of the block it names offers. */
    ghost predicate ArgHeld(arg: Node)
      reads this`q, f, gvn
      requires f.Valid()
    {
      |arg.kids| == 0 ||
      (0 <= PhiArgBlock(arg) < f.g.n &&
       exists d | 0 <= d < f.g.n && f.g.Dominates(d, PhiArgBlock(arg)) :: ChainHolder(PhiArgValue(arg), d))
    }

    /**
     * `insertNewPhi` for phi `i` to insert (see `FillPhi`): the phi filled
     * so far replaces the node to insert, in the same block, whether or
     * not every argument was found; `ok` says whether they all were.
     */
    method InsertNewPhi(i: nat) returns (ok: bool, phi: Node)
      requires Valid() && i < |q.newNodes| && q.newNodes[i].op == PHI
      modifies this`q
      ensures Valid() && OnlyNodesChanged(old(q), q) && old(q.insertNodeToBlk.Keys) <= q.insertNodeToBlk.Keys
      ensures q.newNodes == old(q.newNodes)[i := phi] && phi in q.insertNodeToBlk
      ensures q.insertNodeToBlk[phi] == old(q.insertNodeToBlk[q.newNodes[i]])
      ensures phi.op == PHI && |phi.kids| == |old(q.newNodes[i]).kids| && Kid(phi, 0) == Kid(old(q.newNodes[i]), 0)
      ensures ok ==> forall j | 1 <= j < |phi.kids| :: ArgHeld(phi.kids[j])
    {
      var orig := q.newNodes[i];
      assert orig in q.newNodes;
      ok, phi := FillPhi(orig);
      q := ReplaceNode(q, i, phi, q.insertNodeToBlk[orig], f.g.n);
    }

    /**
     * The arguments of phi `orig` filled as `insertNewPhi` fills them: each
     * takes the variable `getVar` finds, from the block the argument
     * names, for the number the question asked of that block. The filling
     * stops at the first argument with no such variable (`ok` false).
     */
    method FillPhi(orig: Node) returns (ok: bool, phi: Node)
      requires Valid() && orig.op == PHI && LabelsIn(orig, f.g.n)
      ensures phi.op == PHI && |phi.kids| == |orig.kids| && Kid(phi, 0) == Kid(orig, 0) && LabelsIn(phi, f.g.n)
      ensures forall j | 1 <= j < |phi.kids| :: PhiArgBlock(phi.kids[j]) == PhiArgBlock(orig.kids[j])
      ensures ok ==> forall j | 1 <= j < |phi.kids| :: ArgHeld(phi.kids[j])
    {
      phi := orig;
      ok := true;
      var j := 1;
      while j < |phi.kids|
        invariant 1 <= j && (j <= |phi.kids| || j == 1)
        invariant phi.op == PHI && |phi.kids| == |orig.kids| && Kid(phi, 0) == Kid(orig, 0)
        invariant forall m | 1 <= m < |phi.kids| :: PhiArgBlock(phi.kids[m]) == PhiArgBlock(orig.kids[m])
        invariant forall m | 1 <= m < j && m < |phi.kids| :: ArgHeld(phi.kids[m])
      {
        var pred := PhiArgBlock(phi.kids[j]);
        var v := GetVar(q.blkVal[pred], pred, None);
        if v.None? {
          return false, phi;
        }
        phi := phi.(kids := phi.kids[j := WithKid(phi.kids[j], 0, v.value)]);
        j := j + 1;
      }
    }

    /**
     * The step of `changeNameNewNodes` for node `i` to insert: a SET goes
     * just before the last instruction of its block; a phi, once
     * `insertNewPhi` filled it, goes at the head of its block. Either
     * becomes the node its block received. `ok` is false, and nothing is
     * put in the code, when the phi could not be filled.
     */
    method PlaceNode(i: nat) returns (ok: bool, blk: nat)
      requires Valid() && i < |q.newNodes|
      modifies f, this`q, this`at
      ensures Valid() && Cur() == old(Cur()) && KeepsInstrs(old(f.code), f.code)
      ensures |q.newNodes| == |old(q.newNodes)| && forall m | 0 <= m < |q.newNodes| && m != i :: q.newNodes[m] == old(q.newNodes[m])
      ensures old(q.blkToNewNode.Keys) <= q.blkToNewNode.Keys
      ensures ok ==> blk < f.g.n && q.newNodes[i] in f.code[blk] && blk in q.blkToNewNode
    {
      var node := q.newNodes[i];
      assert node in q.newNodes;
      blk := q.insertNodeToBlk[node];
      if node.op == SET {
        var n := |f.code[blk]|;
        var pos := if n > 0 then n - 1 else 0;
        InsertCode(blk, pos, node);
      } else {
        var phi;
        ok, phi := InsertNewPhi(i);
        if !ok {
          return;
        }
        InsertCode(blk, 0, phi);
        node := phi;
      }
      q := q.RecordNewNode(blk, node);
      ok := true;
    }

    /**
     * `changeNameNewNodes`: every node the question inserts is put into
     * the code (see `PlaceNode`) and the inserted nodes are numbered. On
     * success each of them is in the block `blocks` names for it, and that
     * block received a node; `ok` is false as soon as a phi cannot be
     * filled, the nodes placed before it staying in the code.
     */
    method ChangeNameNewNodes() returns (ok: bool, ghost blocks: seq<nat>)
      requires Valid()
      modifies f, this`q, this`at, gvn
      ensures Valid() && Cur() == old(Cur()) && KeepsInstrs(old(f.code), f.code)
      ensures |q.newNodes| == |old(q.newNodes)|
      ensures ok ==> |blocks| == |q.newNodes|
      ensures ok ==> forall m | 0 <= m < |q.newNodes| :: blocks[m] < f.g.n && q.newNodes[m] in f.code[blocks[m]] && blocks[m] in q.blkToNewNode
    {
      var i := 0;
      blocks := [];
      while i < |q.newNodes|
        invariant 0 <= i <= |q.newNodes| == |old(q.newNodes)| && |blocks| == i
        invariant Valid() && Cur() == old(Cur()) && KeepsInstrs(old(f.code), f.code)
        invariant forall m | 0 <= m < i :: blocks[m] < f.g.n && q.newNodes[m] in f.code[blocks[m]] && blocks[m] in q.blkToNewNode
      {
        var placed, b := PlaceNode(i);
        if !placed {
          return false, blocks;
        }
        blocks := blocks + [b];
        i := i + 1;
      }
      NewNodesNumbering();
      ok := true;
    }

    /**
     * One step of `newNodesNumbering` for node `node` to insert: unless the
     * number of its variable already equals that of its value expression
     * `ve`, both are given `ve`'s number — a new one (`isNew`) when `ve`
     * has none — after their old entries are dropped. `change` is set when
     * a phi was given a number below the largest one.
     */
    method NumberNewNode(node: Node) returns (isNew: bool, change: bool, ve: Option<Node>, renumbered: bool)
      requires Valid() && node in q.insertNodeToBlk
      modifies gvn
      ensures Valid()
      ensures renumbered ==> ve.Some? && gvn.ValueOfKey(Kid(node, 0)) == gvn.ValueOfKey(ve.value) != -1
      ensures isNew ==> renumbered && gvn.ValueOfKey(Kid(node, 0)) == gvn.value && gvn.value !in old(gvn.issued)
      ensures change ==> renumbered && node.op == PHI
    {
      var blk := q.insertNodeToBlk[node];
      var val := gvn.GetValue(Kid(node, 0));
      ve := gvn.MakeVExp(node, blk);
      isNew, change, renumbered := false, false, false;
      if ve.None? {
        return;
      }
      var newVal := gvn.GetValue(ve.value);
      if val != -1 && val == newVal {
        return;
      }
      newVal, isNew := Renumber(Kid(node, 0), ve.value, val, newVal, blk);
      renumbered := true;
      change := node.op == PHI && newVal < gvn.GetMaximumValue();
    }

    /**
     * The entries of variable `v` (of number `val`) and of its value
     * expression `ve` are dropped, and both get number `newVal`, or a new
     * number when that is -1.
     */
    method Renumber(v: Node, ve: Node, val: int, newVal: int, blk: nat) returns (r: int, isNew: bool)
      requires Valid() && blk < f.g.n
      modifies gvn`value, gvn`issued, gvn`valueTable, gvn`constValTable, gvn`blkVars, gvn`reach
      ensures Valid() && r != -1 && gvn.ValueOfKey(v) == r && gvn.ValueOfKey(ve) == r
      ensures isNew <==> newVal == -1
      ensures isNew ==> r == gvn.value && r !in old(gvn.issued)
      ensures !isNew ==> r == newVal
    {
      r, isNew := newVal, false;
      if newVal == -1 {
        r := gvn.NewValue();
        isNew := true;
      }
      gvn.RemoveValuePair(v, ve, val, blk);
      gvn.SetValuePair(r, v, ve, blk);
    }

    /**
     * `newNodesNumbering`: rounds over the nodes to insert (see
     * `NumberNewNode`), skipping those already given a new number, as long
     * as some phi changed its number, for at most `fuel` rounds.
     */
    method NewNodesNumbering()
      requires Valid()
      modifies gvn
      ensures Valid()
    {
      var change := true;
      var newValNode: set<Node> := {};
      var rounds := fuel;
      while change && rounds > 0
        invariant Valid()
      {
        change := false;
        rounds := rounds - 1;
        var i := 0;
        while i < |q.newNodes|
          invariant 0 <= i <= |q.newNodes| && Valid()
        {
          var node := q.newNodes[i];
          assert node in q.newNodes;
          if node !in newValNode {
            var isNew, phiChange, _, _ := NumberNewNode(node);
            if isNew {
              newValNode := newValNode + {node};
            }
            change := change || phiChange;
          }
          i := i + 1;
        }
      }
    }

    /**
     * `changeProg` for SET `node` of number `val`, the instruction
     * `eliminate` is at: its source becomes the variable `getVar` finds
     * for `val` before it (`holder`), and its number becomes that
     * variable's, or a new one when the variable has none; when the number
     * changes, the entries of the SET's destination and of its value
     * expression `ve` are dropped.
     */
    method ChangeProg(node: Node, ve: Node, blk: nat, val: int) returns (newVal: int, holder: Option<Node>)
      requires Valid() && atBlk == blk && blk < f.g.n && Cur() == Some(node)
      modifies f, gvn`value, gvn`issued, gvn`valueTable, gvn`blkVars
      ensures Valid() && atBlk == blk && at == old(at)
      ensures holder.None? ==> f.code == old(f.code) && newVal == val
      ensures holder.Some? ==> old(Offers(holder.value, val, blk, Some(at - 1)))
      ensures holder.Some? ==> Cur() == Some(WithKid(node, 1, Dst(holder.value))) && newVal != -1
      ensures holder.Some? && old(gvn.ValueOf(holder.value)) != -1 ==> newVal == old(gvn.ValueOf(holder.value))
      ensures holder.Some? && newVal != val ==> Kid(node, 0) !in gvn.valueTable && ve !in gvn.valueTable
    {
      holder := GetVar(val, blk, Some(at - 1));
      if holder.None? {
        return val, holder;
      }
      Replace(holder.value);
      newVal := gvn.GetValue(holder.value);
      if newVal == -1 {
        newVal := gvn.NewValue();
      }
      if val != newVal {
        gvn.RemoveValuePair(Kid(node, 0), ve, val, blk);
      }
    }


    // -------------------------------------------------------------------
    // The elimination walk
    // -------------------------------------------------------------------

    /**
     * The variables instruction `node` defines (see `DefinedBy`) are
     * recorded with their numbers: each number is held in the block and
     * the variable becomes its holder.
     */
    method RecordDefined(node: Node, valueMap: map<int, Node>, blkValueMap: set<int>) returns (vm: map<int, Node>, bvm: set<int>)
      requires Valid()
      ensures blkValueMap <= bvm && vm.Keys <= valueMap.Keys + bvm
      ensures forall x | DefinedBy(node, x) :: gvn.ValueOf(x) in vm && gvn.ValueOf(x) in bvm
      ensures forall v | v in vm && !(v in valueMap && vm[v] == valueMap[v]) :: DefinedBy(node, vm[v]) && gvn.ValueOf(vm[v]) == v
      ensures node.op != PHI && node.op != CALL && node.op != PROLOGUE ==> vm == valueMap && bvm == blkValueMap
    {
      vm, bvm := valueMap, blkValueMap;
      if node.op == PHI || (node.op == CALL && NKids(Kid(node, 2)) > 0) {
        var x := if node.op == PHI then Kid(node, 0) else Kid(Kid(node, 2), 0);
        var val := gvn.GetValue(x);
        vm, bvm := vm[val := x], bvm + {val};
      } else if node.op == PROLOGUE {
        vm, bvm := RecordParams(gvn, node, valueMap, blkValueMap);
      }
    }

    /** `RecordDefined` for a PROLOGUE: each register parameter is recorded with its number. */
    static method RecordParams(g: Gvn, node: Node, valueMap: map<int, Node>, blkValueMap: set<int>)
      returns (vm: map<int, Node>, bvm: set<int>)
      requires g.Valid() && node.op == PROLOGUE
      ensures blkValueMap <= bvm && vm.Keys <= valueMap.Keys + bvm
      ensures forall x | DefinedBy(node, x) :: g.ValueOf(x) in vm && g.ValueOf(x) in bvm
      ensures forall v | v in vm && !(v in valueMap && vm[v] == valueMap[v]) :: DefinedBy(node, vm[v]) && g.ValueOf(vm[v]) == v
    {
      vm, bvm := valueMap, blkValueMap;
      var j := 0;
      while j < |node.kids|
        invariant 0 <= j <= |node.kids|
        invariant blkValueMap <= bvm && vm.Keys <= valueMap.Keys + bvm
        invariant forall k | 0 <= k < j && node.kids[k].op == REG :: g.ValueOf(node.kids[k]) in vm && g.ValueOf(node.kids[k]) in bvm
        invariant forall v | v in vm && !(v in valueMap && vm[v] == valueMap[v]) ::
                    vm[v] in node.kids[..j] && vm[v].op == REG && g.ValueOf(vm[v]) == v
      {
        var x := node.kids[j];
        if x.op == REG {
          var val := g.GetValue(x);
          vm, bvm := vm[val := x], bvm + {val};
        }
        assert node.kids[..j + 1] == node.kids[..j] + [x];
        j := j + 1;
      }
      forall x | DefinedBy(node, x)
        ensures g.ValueOf(x) in vm && g.ValueOf(x) in bvm
      {
        var k :| 0 <= k < |node.kids| && node.kids[k] == x;
      }
      assert node.kids[..j] == node.kids;
    }

    /**
     * The number `eliminate` gives SET `node` of block `blk`: that of its
     * value expression `ve`. When `ve` has none, the old entries of the SET
     * are dropped and a new number is recorded — for a store, for the
     * versioned memory it writes; otherwise for both `ve` and the
     * destination. `ve` is none when `makeVExp` yields none.
     */
    method NumberSet(node: Node, blk: nat) returns (ve: Option<Node>, val: int)
      requires Valid() && blk < f.g.n && IsSetNode(node)
      modifies gvn
      ensures Valid()
      ensures ve.Some? ==> val != -1
      ensures ve.Some? && Kid(node, 0).op != MEM && ve.value.op != PHI ==> gvn.ValueOf(ve.value) == val
    {
      ve := gvn.MakeVExp(node, blk);
      if ve.None? {
        return None, -1;
      }
      val := gvn.GetValue(ve.value);
      if val != -1 {
        return;
      }
      if Kid(node, 0).op == MEM {
        var ok;
        ok, val := NumberStore(node, ve.value, blk);
        if !ok {
          return None, -1;
        }
      } else {
        val := NumberAssign(node, ve.value, blk);
      }
    }

    /**
     * A store with no number for its value expression `ve`: the entries of
     * the versioned memory it writes and of `ve` are dropped, and that
     * memory gets a new number. `ok` is false when the memory has no value
     * expression.
     */
    method NumberStore(node: Node, ve: Node, blk: nat) returns (ok: bool, val: int)
      requires Valid() && blk < f.g.n
      modifies gvn
      ensures Valid() && (ok ==> val != -1 && val == gvn.value && val !in old(gvn.issued))
    {
      var mv := gvn.MakeVExp(Kid(node, 0), blk);
      if mv.None? {
        return false, -1;
      }
      val := NumberMemory(mv.value, ve, blk);
      ok := true;
    }

    /** The entries of versioned memory `mv` and of `ve` are dropped, and `mv` gets a new number. */
    method NumberMemory(mv: Node, ve: Node, blk: nat) returns (val: int)
      requires Valid() && blk < f.g.n
      modifies gvn`value, gvn`issued, gvn`valueTable, gvn`constValTable, gvn`blkVars, gvn`reach
      ensures Valid() && val != -1 && val == gvn.value && val !in old(gvn.issued)
      ensures gvn.ValueOfKey(mv) == val && (mv != ve ==> ve !in gvn.valueTable)
    {
      var prev := gvn.GetValue(mv);
      gvn.RemoveValuePair(mv, ve, prev, blk);
      val := gvn.NewValue();
      gvn.SetValueIn(val, mv, blk);
    }

    /**
     * A SET to a variable with no number for its value expression `ve`:
     * the entries of the destination and of `ve` are dropped, and both get
     * a new number.
     */
    method NumberAssign(node: Node, ve: Node, blk: nat) returns (val: int)
      requires Valid() && blk < f.g.n
      modifies gvn`value, gvn`issued, gvn`valueTable, gvn`constValTable, gvn`blkVars, gvn`reach
      ensures Valid() && val != -1 && val == gvn.value && val !in old(gvn.issued)
      ensures gvn.ValueOfKey(Kid(node, 0)) == val && (ve.op != PHI ==> gvn.ValueOf(ve) == val)
    {
      var prev := gvn.GetValue(Kid(node, 0));
      gvn.RemoveValuePair(Kid(node, 0), ve, prev, blk);
      val := gvn.NewValue();
      gvn.SetValueIn(val, ve, blk);
      gvn.SetValueIn(val, Kid(node, 0), blk);
    }

    /**
     * A SET of number `val` already held in the block: when the mode lets
     * its source be replaced (see `Rewritable`), the instruction
     * `eliminate` is at reads the earlier holder instead, and the holder
     * of `val` becomes that of the SET as it now stands (see `Holder`).
     */
    method Reuse(node: Node, val: int, elmode: int, valueMap: map<int, Node>) returns (vm: map<int, Node>)
      requires Valid() && Cur() == Some(node) && val in valueMap
      modifies f
      ensures Valid()
      ensures Rewritable(node, elmode) ==>
                Cur() == Some(WithKid(node, 1, valueMap[val])) && vm == valueMap[val := Holder(WithKid(node, 1, valueMap[val]))]
      ensures !Rewritable(node, elmode) ==> f.code == old(f.code) && vm == valueMap[val := Holder(node)]
    {
      var n := node;
      if Rewritable(node, elmode) {
        n := WithKid(node, 1, valueMap[val]);
        SetBlock(atBlk, f.code[atBlk][at := n]);
      }
      vm := valueMap[val := Holder(n)];
    }

    /**
     * A SET of number `val` whose value is asked of the predecessors: a new
     * question starts from block `blk`, and when the value is found
     * available and every inserted node could be put into the code, the
     * SET reads the variable that holds it (see `ChangeProg`). The SET's
     * destination and `ve` get the resulting number. The inserted nodes
     * are kept when the SET's source is now a register, and undone
     * otherwise.
     */
    method Question(node: Node, ve: Node, val: int, blk: nat, ins: set<Node>) returns (newVal: int, insOut: set<Node>, ghost holder: Option<Node>)
      requires Valid() && blk < f.g.n && atBlk == blk && Cur() == Some(node) && IsSetNode(node) && val != -1
      modifies f, this`q, this`nextSym, this`at, gvn, alias`nextNum, alias`issued
      ensures Valid() && atBlk == blk && old(alias.issued) <= alias.issued && newVal != -1 && ins <= insOut
      ensures Settled(node, holder, ins, insOut)
    {
      newVal, holder := Ask(node, ve, val, blk);
      gvn.SetValuePair(newVal, Kid(node, 0), ve, blk);
      insOut := Settle(blk, ins);
    }

    /**
     * The question for SET `node` of number `val`: when its value is found
     * available and every inserted node could be put into the code, the SET
     * reads the variable that holds it and `newVal` is that variable's number.
     */
    method Ask(node: Node, ve: Node, val: int, blk: nat) returns (newVal: int, ghost holder: Option<Node>)
      requires Valid() && blk < f.g.n && atBlk == blk && Cur() == Some(node) && IsSetNode(node) && val != -1
      modifies f, this`q, this`nextSym, this`at, gvn, alias`nextNum, alias`issued
      ensures Valid() && atBlk == blk && old(alias.issued) <= alias.issued && newVal != -1
      ensures Cur() == Some(Asked(node, holder))
    {
      var avail := Pose(node, ve, val, blk);
      newVal, holder := val, None;
      if avail {
        newVal, holder := Rename(node, ve, val, blk);
      }
    }

    /** A new question from block `blk` for SET `node` with value expression `ve`: whether its number `val` is available there. */
    method Pose(node: Node, ve: Node, val: int, blk: nat) returns (avail: bool)
      requires Valid() && blk < f.g.n && IsSetNode(node) && val != -1
      modifies this`q, this`nextSym, gvn, alias`nextNum, alias`issued
      ensures Valid() && old(alias.issued) <= alias.issued && q.exprBlk == blk
      ensures avail ==> q.CheckAvail(val, blk) && blk in q.visited && q.visited[blk] == val
    {
      SetVarsToGCM(blk);
      avail := Propagate(val, WithKid(node, 1, ve), node, blk);
    }

    /**
     * `changeNameNewNodes` followed, when it succeeds, by `changeProg`:
     * `newVal` is the SET's resulting number.
     */
    method Rename(node: Node, ve: Node, val: int, blk: nat) returns (newVal: int, ghost holder: Option<Node>)
      requires Valid() && blk < f.g.n && atBlk == blk && Cur() == Some(node) && val != -1
      modifies f, this`q, this`at, gvn
      ensures Valid() && atBlk == blk && newVal != -1
      ensures Cur() == Some(Asked(node, holder))
    {
      newVal, holder := val, None;
      var ok, _ := ChangeNameNewNodes();
      if ok {
        newVal, holder := ChangeProg(node, ve, blk, val);
      }
    }

    /**
     * The end of a question: its inserted nodes join `ins` when the SET
     * `eliminate` is at now reads a register, and are undone otherwise.
     */
    method Settle(blk: nat, ins: set<Node>) returns (insOut: set<Node>)
      requires Valid() && blk < f.g.n && atBlk == blk
      modifies f, this`at, gvn`valueTable, gvn`blkVars
      ensures Valid() && atBlk == blk && ins <= insOut
      ensures old(Cur()).Some? && Kid(old(Cur()).value, 1).op == REG ==> insOut == ins + set x | x in q.newNodes
      ensures !(old(Cur()).Some? && Kid(old(Cur()).value, 1).op == REG) ==> insOut == ins && forall i | 0 <= i < |q.newNodes| :: Cancelled(q.newNodes[i])
      ensures old(Cur()).Some? && (Kid(old(Cur()).value, 1).op == REG || DefinesNoTemp(old(Cur()).value)) ==> Cur() == old(Cur())
    {
      if at < |f.code[blk]| && Kid(f.code[blk][at], 1).op == REG {
        insOut := ins + set x | x in q.newNodes;
      } else {
        insOut := ins;
        CancelInsertNode();
      }
    }

    /**
     * The end of the question for SET `node`, which `holder` answered when
     * one was found (see `Asked`): a SET that now reads a register stays so
     * and the question's nodes join the inserted set `ins`; otherwise the
     * inserted set stays `ins`, every node of the question is undone, and the
     * SET stays as the question left it unless it defines one of the
     * question's temporaries.
     */
    ghost predicate Settled(node: Node, holder: Option<Node>, ins: set<Node>, insOut: set<Node>)
      reads this`q, this`atBlk, this`at, f, gvn
    {
      var after := Asked(node, holder);
      if Kid(after, 1).op == REG then Cur() == Some(after) && insOut == ins + set x | x in q.newNodes
      else insOut == ins && (forall i | 0 <= i < |q.newNodes| :: Cancelled(q.newNodes[i]))
           && (DefinesNoTemp(after) ==> Cur() == Some(after))
    }

    /**
     * What `eliminate` does with SET `node`, the instruction it is at,
     * given its number (see `NumberSet`): a number already held in the
     * block is reused (see `Reuse`); a leaf source, or a load after a CALL
     * or store or in modes 2 and 3, just becomes the holder; any other
     * source is asked of the predecessors (see `Question`).
     */
    method EliminateSet(node: Node, elmode: int, killed: bool, valueMap: map<int, Node>, blkValueMap: set<int>, ins: set<Node>)
      returns (vm: map<int, Node>, bvm: set<int>, insOut: set<Node>, ghost val: Option<int>, ghost holder: Option<Node>)
      requires Valid() && atBlk < f.g.n && Cur() == Some(node) && IsSetNode(node)
      modifies f, this`q, this`nextSym, this`at, gvn, alias`nextNum, alias`issued
      ensures Valid() && atBlk == old(atBlk) && old(alias.issued) <= alias.issued
      ensures blkValueMap <= bvm && vm.Keys <= valueMap.Keys + bvm && ins <= insOut
      ensures val.None? ==> f.code == old(f.code)
      ensures val.Some? ==> val.value != -1
      ensures val.Some? && val.value in valueMap ==>
                && (Rewritable(node, elmode) ==> Cur() == Some(WithKid(node, 1, valueMap[val.value])))
                && (!Rewritable(node, elmode) ==> f.code == old(f.code))
      ensures val.Some? && val.value !in valueMap && KeptAsHolder(node, killed, elmode) ==> f.code == old(f.code)
      ensures val.Some? && val.value !in valueMap && !KeptAsHolder(node, killed, elmode) ==> Settled(node, holder, ins, insOut)
      ensures holder.Some? ==> val.Some? && val.value !in valueMap && !KeptAsHolder(node, killed, elmode)
      ensures Kid(node, 1).op == MEM && (elmode == 2 || elmode == 3) ==> f.code == old(f.code)
    {
      var blk := atBlk;
      holder := None;
      var ve, v := NumberSet(node, blk);
      if ve.None? {
        return valueMap, blkValueMap, ins, None, holder;
      }
      val := Some(v);
      if v in valueMap {
        vm := Reuse(node, v, elmode, valueMap);
        return vm, blkValueMap + {v}, ins, val, holder;
      }
      if KeptAsHolder(node, killed, elmode) {
        gvn.SetValuePair(v, Kid(node, 0), ve.value, blk);
        return valueMap[v := if Kid(node, 0).op == REG then Kid(node, 0) else Kid(node, 1)], blkValueMap + {v}, ins, val, holder;
      }
      v, insOut, holder := Question(node, ve.value, v, blk, ins);
      vm, bvm := valueMap[v := Kid(node, 0)], blkValueMap + {v};
    }

    /**
     * A SET whose number is not yet held in the block that `eliminate`
     * takes as the holder of its number without asking the predecessors:
     * one with a leaf source, or a load after a CALL or store or in modes
     * 2 and 3.
     */
    predicate KeptAsHolder(node: Node, killed: bool, elmode: int) {
      NKids(Kid(node, 1)) == 0 || ((killed || elmode == 2 || elmode == 3) && Kid(node, 1).op == MEM)
    }

    /**
     * `eliminate` at one instruction of block `atBlk`: a CALL or a store
     * sets `killed`; the variables it defines are recorded (see
     * `RecordDefined`); a SET not inserted by an earlier question is
     * handled by `EliminateSet`.
     */
    method EliminateStep(elmode: int, killed: bool, valueMap: map<int, Node>, blkValueMap: set<int>, ins: set<Node>)
      returns (killedOut: bool, vm: map<int, Node>, bvm: set<int>, insOut: set<Node>, ghost val: Option<int>, ghost holder: Option<Node>)
      requires Valid() && atBlk < f.g.n && at < |f.code[atBlk]|
      modifies f, this`q, this`nextSym, this`at, gvn, alias`nextNum, alias`issued
      ensures Valid() && atBlk == old(atBlk) && old(alias.issued) <= alias.issued
      ensures killedOut == (killed || Clobbers(old(f.code[atBlk][at])))
      ensures blkValueMap <= bvm && vm.Keys <= valueMap.Keys + bvm && ins <= insOut
      ensures !Eligible(old(f.code[atBlk][at]), ins) ==> f.code == old(f.code) && val.None?
      ensures val.None? ==> f.code == old(f.code)
      ensures val.Some? && val.value in valueMap ==>
                var node := old(f.code[atBlk][at]);
                && (Rewritable(node, elmode) ==> Cur() == Some(WithKid(node, 1, valueMap[val.value])))
                && (!Rewritable(node, elmode) ==> f.code == old(f.code))
      ensures val.Some? && val.value !in valueMap && KeptAsHolder(old(f.code[atBlk][at]), killedOut, elmode) ==> f.code == old(f.code)
      ensures val.Some? && val.value !in valueMap && !KeptAsHolder(old(f.code[atBlk][at]), killedOut, elmode) ==>
                Settled(old(f.code[atBlk][at]), holder, ins, insOut)
      ensures holder.Some? ==> val.Some? && val.value !in valueMap && !KeptAsHolder(old(f.code[atBlk][at]), killedOut, elmode)
      ensures Kid(old(f.code[atBlk][at]), 1).op == MEM && (elmode == 2 || elmode == 3) ==> f.code == old(f.code)
    {
      var node := f.code[atBlk][at];
      killedOut := killed || node.op == CALL || (node.op == SET && Kid(node, 0).op == MEM);
      vm, bvm := RecordDefined(node, valueMap, blkValueMap);
      insOut := ins;
      val, holder := None, None;
      if !Eligible(node, ins) {
        return;
      }
      var vm', bvm';
      vm', bvm', insOut, val, holder := EliminateSet(node, elmode, killedOut, vm, bvm, ins);
      vm, bvm := vm', bvm';
    }

    /** An instruction `eliminate` handles: a SET with both kids that no earlier question inserted. */
    predicate Eligible(node: Node, ins: set<Node>) {
      node.op == SET && node !in ins && IsSetNode(node)
    }

    /**
     * `eliminate` over block `blk`, instruction after instruction (at most
     * `fuel` of them), after which the numbers held in the block and their
     * holders are recorded: every number with a holder in `blk` is then
     * reachable at `blk`.
     */
    method EliminateBlock(blk: nat, elmode: int, ins: set<Node>) returns (insOut: set<Node>)
      requires Valid() && blk < f.g.n
      modifies f, this`q, this`nextSym, this`atBlk, this`at, gvn, alias`nextNum, alias`issued
      ensures Valid() && old(alias.issued) <= alias.issued && ins <= insOut
      ensures forall val | gvn.GetVariable(val, blk).Some? :: val in gvn.reach[blk]
    {
      var valueMap, blkValueMap;
      valueMap, blkValueMap, insOut := EliminateInstrs(blk, elmode, ins);
      gvn.UpdateBlkVariableMap(blk, valueMap);
      gvn.UpdateReachableValues(blk, blkValueMap);
    }

    /**
     * The instructions of block `blk` as `eliminate` visits them (see
     * `EliminateStep`), at most `fuel` of them; every number with a holder
     * in the block is held in it.
     */
    method EliminateInstrs(blk: nat, elmode: int, ins: set<Node>) returns (valueMap: map<int, Node>, blkValueMap: set<int>, insOut: set<Node>)
      requires Valid() && blk < f.g.n
      modifies f, this`q, this`nextSym, this`atBlk, this`at, gvn, alias`nextNum, alias`issued
      ensures Valid() && old(alias.issued) <= alias.issued && ins <= insOut
      ensures valueMap.Keys <= blkValueMap
    {
      atBlk, at := blk, 0;
      var killed := false;
      valueMap, blkValueMap := map[], {};
      var steps := fuel;
      insOut := ins;
      while at < |f.code[blk]| && steps > 0
        invariant Valid() && atBlk == blk && old(alias.issued) <= alias.issued && ins <= insOut
        invariant valueMap.Keys <= blkValueMap
        decreases steps
      {
        ghost var val, holder;
        killed, valueMap, blkValueMap, insOut, val, holder := EliminateStep(elmode, killed, valueMap, blkValueMap, insOut);
        at := at + 1;
        steps := steps - 1;
      }
    }

    /** `eliminate`: every block in reverse postorder (see `EliminateBlock`), the inserted SETs being skipped later on. */
    method Eliminate(elmode: int)
      requires Valid()
      modifies f, this`q, this`nextSym, this`atBlk, this`at, gvn, alias`nextNum, alias`issued
      ensures Valid() && old(alias.issued) <= alias.issued
    {
      var ins: set<Node> := {};
      var i := 0;
      while i < |f.g.rpo|
        invariant 0 <= i <= |f.g.rpo| && Valid() && old(alias.issued) <= alias.issued
      {
        assert f.g.rpo[i] in f.g.rpo;
        ins := EliminateBlock(f.g.rpo[i], elmode, ins);
        i := i + 1;
      }
    }

    /**
     * `invoke(elmode)`: value numbering in mode `elmode` (which versions
     * memory again, through its own analysis), elimination, and then the
     * memory versions of this pass removed: the code is `eliminated` with
     * its versions dropped.
     */
    method Invoke(elmode: int) returns (ghost eliminated: seq<seq<Node>>)
      requires Valid() && alias.Valid() && f.g.RpoOnce() && f.g.DomKidsOnce()
      modifies f, this`q, this`nextSym, this`atBlk, this`at, gvn, alias`nextNum, alias`issued
      ensures Valid() && alias.Valid() && f.code == Unstamp(eliminated)
    {
      var numbering, _, _ := gvn.Run(elmode);
      assert alias.Valid();
      Eliminate(elmode);
      assert alias.Core();
      eliminated := f.code;
      alias.Annul();
    }

    /** `doIt`: `invoke` with every redundant expression eliminated. */
    method DoIt() returns (ghost eliminated: seq<seq<Node>>)
      requires Valid() && alias.Valid() && f.g.RpoOnce() && f.g.DomKidsOnce()
      modifies f, this`q, this`nextSym, this`atBlk, this`at, gvn, alias`nextNum, alias`issued
      ensures Valid() && alias.Valid() && f.code == Unstamp(eliminated)
    {
      eliminated := Invoke(1);
    }


    // -------------------------------------------------------------------
    // Down-safety
    // -------------------------------------------------------------------

    /** The function and its numbering are well formed (all that the down-safety walk needs). */
    ghost predicate Ready()
      reads f, gvn
    {
      f.Valid() && gvn.f == f && gvn.Valid()
    }

    ghost function Unmarked(checkBlk: array<bool>): set<nat>
      reads checkBlk
    {
      set b: nat | b < checkBlk.Length && !checkBlk[b]
    }

    /**
     * The blocks of `asked`, each with the number asked of it, answer yes
     * as a whole: each one not still `open` holds its number, or is not the
     * exit and has all its successors asked.
     */
    ghost predicate Closed(asked: map<nat, int>, open: set<nat>)
      reads f, gvn
    {
      forall b | b in asked ::
        b in open ||
        (b < |gvn.blkVars| && b < |f.g.succs| &&
         (gvn.ContainValue(asked[b], b) || (b != f.g.exit && forall s | s in f.g.succs[b] :: s in asked)))
    }

    /** The blocks `checkBlk` marks are exactly the keys of `asked`. */
    ghost predicate Marks(checkBlk: array<bool>, asked: map<nat, int>)
      reads checkBlk
    {
      forall b | 0 <= b < checkBlk.Length :: checkBlk[b] <==> b in asked
    }

    /**
     * Whether the value `val` of expression `ve` (the shape of `expr`) is
     * computed on every path from `blk` to the exit: yes at once when `blk`
     * holds it; otherwise the question, translated across the phis, is
     * asked of every successor (the exit itself, having none, answers yes).
     */
    method CheckDSafe(val: int, ve: Node, expr: Node, blk: nat) returns (r: bool, ghost asked: map<nat, int>)
      requires Ready() && blk < f.g.n
      ensures gvn.ContainValue(val, blk) ==> r
      ensures r && !gvn.ContainValue(val, blk) ==> Closed(asked, {}) && forall s | s in f.g.succs[blk] :: s in asked
      ensures r ==> DownSafeBy(val, blk, asked)
    {
      if gvn.ContainValue(val, blk) {
        return true, map[];
      }
      var checkBlk := new bool[f.g.n](_ => false);
      r, asked := CheckSuccs(ve, expr, blk, checkBlk, map[], {});
    }

    /**
     * The loop of `checkDSafe` over the successors of `blk`: each one not
     * marked yet is asked the translated question, and the first no (or a
     * value without a number) ends the walk with no.
     */
    method CheckSuccs(ve: Node, expr: Node, blk: nat, checkBlk: array<bool>,
                      ghost asked: map<nat, int>, ghost open: set<nat>)
      returns (r: bool, ghost asked': map<nat, int>)
      requires Ready() && blk < f.g.n && checkBlk.Length == f.g.n
      requires Marks(checkBlk, asked) && Closed(asked, open)
      modifies checkBlk
      ensures r ==> Marks(checkBlk, asked') && Closed(asked', open) && Extends(asked, asked')
      ensures r ==> forall s | s in f.g.succs[blk] :: s in asked'
      ensures forall b | 0 <= b < f.g.n && old(checkBlk[b]) :: checkBlk[b]
      decreases Unmarked(checkBlk), 1
    {
      asked' := asked;
      var ss := f.g.succs[blk];
      IdsBelowAt(f.g.succs, f.g.n, blk);
      var j := 0;
      while j < |ss|
        invariant 0 <= j <= |ss|
        invariant Marks(checkBlk, asked') && Closed(asked', open) && Extends(asked, asked')
        invariant Unmarked(checkBlk) <= old(Unmarked(checkBlk))
        invariant forall b | 0 <= b < f.g.n && old(checkBlk[b]) :: checkBlk[b]
        invariant forall m | 0 <= m < j :: ss[m] in asked'
      {
        var succ := ss[j];
        if !checkBlk[succ] {
          var newVExp := gvn.MakeNewValueExpSucc(ve, expr, succ);
          var newVal := gvn.GetValue(newVExp);
          if newVal == -1 {
            return false, asked';
          }
          var ok;
          ghost var before := asked';
          ok, asked' := CheckDSafeFrom(newVal, newVExp, expr, succ, checkBlk, asked', open);
          if !ok {
            return false, asked';
          }
          assert forall m | 0 <= m < j :: ss[m] in before;
        }
        j := j + 1;
      }
      forall s | s in ss ensures s in asked' {
        var m :| 0 <= m < |ss| && ss[m] == s;
      }
      return true, asked';
    }

    /**
     * The down-safety question at `blk`, not asked before: `checkBlk` marks
     * the blocks asked and `asked` records them with their numbers; the
     * blocks in `open` are still waiting for their successors' answers.
     * Yes when `blk` holds `val`, no at the exit, and otherwise yes only
     * when every successor not yet asked answers yes.
     */
    method CheckDSafeFrom(val: int, ve: Node, expr: Node, blk: nat, checkBlk: array<bool>,
                          ghost asked: map<nat, int>, ghost open: set<nat>)
      returns (r: bool, ghost asked': map<nat, int>)
      requires Ready() && blk < f.g.n && checkBlk.Length == f.g.n && blk !in asked
      requires Marks(checkBlk, asked) && Closed(asked, open)
      modifies checkBlk
      ensures gvn.ContainValue(val, blk) ==> r
      ensures !gvn.ContainValue(val, blk) && blk == f.g.exit ==> !r
      ensures r ==> Marks(checkBlk, asked') && Closed(asked', open) && Extends(asked, asked')
      ensures r ==> blk in asked' && asked'[blk] == val
      ensures forall b | 0 <= b < f.g.n && old(checkBlk[b]) :: checkBlk[b]
      decreases Unmarked(checkBlk), 0
    {
      checkBlk[blk] := true;
      assert Unmarked(checkBlk) == old(Unmarked(checkBlk)) - {blk};
      asked' := asked[blk := val];
      if gvn.ContainValue(val, blk) {
        return true, asked';
      } else if blk == f.g.exit {
        return false, asked';
      }
      r, asked' := CheckSuccs(ve, expr, blk, checkBlk, asked', open + {blk});
    }
  }
}
