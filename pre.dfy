// Exhaustive partial redundancy elimination (lazy code motion) of one
// expression at a time: local properties, the bit-vector systems solved to
// their greatest fixed point, the insertion and replacement points, and the
// code motion that places a temporary and rewrites the redundant SETs.
module ExhaustivePre {
  import opened Lir
  import opened Cfg

  // ---------------------------------------------------------------------
  // Local properties of a block's instruction list
  // ---------------------------------------------------------------------

  /**
   * Instruction `node` may change the value of `expr`, whose operand
   * registers are `vars`: a call, a store when `expr` is a load, or an
   * assignment to one of the operands.
   */
  predicate IsKill(expr: Node, node: Node, vars: seq<Node>) {
    node.op == CALL || (expr.op == MEM && Kid(node, 0).op == MEM) || Kid(node, 0) in vars
  }

  /** `node` is a SET whose source is `exp`. */
  predicate Computes(node: Node, exp: Node) {
    node.op == SET && Kid(node, 1) == exp
  }

  /** A register loaded from memory. */
  predicate IsLoad(node: Node) {
    node.op == SET && Kid(node, 0).op == REG && Kid(node, 1).op == MEM
  }

  /** Only integer and floating-point values are moved. */
  predicate CheckType(node: Node) {
    node.ty.IntTy? || node.ty.FloatTy?
  }

  /** No instruction of `instrs` kills `exp`. */
  predicate Transp(exp: Node, vars: seq<Node>, instrs: seq<Node>) {
    forall k | 0 <= k < |instrs| :: !IsKill(exp, instrs[k], vars)
  }

  /** `exp` is computed in `instrs` before anything kills it. */
  predicate NIsSame(exp: Node, vars: seq<Node>, instrs: seq<Node>) {
    exists k | 0 <= k < |instrs| ::
      Computes(instrs[k], exp) && forall j | 0 <= j <= k :: !IsKill(exp, instrs[j], vars)
  }

  /** `exp` is computed in `instrs` after the last instruction that kills it. */
  predicate XIsSame(exp: Node, vars: seq<Node>, instrs: seq<Node>) {
    exists k | 0 <= k < |instrs| ::
      Computes(instrs[k], exp) && forall j | k <= j < |instrs| :: !IsKill(exp, instrs[j], vars)
  }

  /** `compTransp`: the block is transparent for `exp`. */
  method CompTransp(exp: Node, vars: seq<Node>, instrs: seq<Node>) returns (r: bool)
    ensures r == Transp(exp, vars, instrs)
  {
    var k := |instrs|;
    while k > 0
      invariant 0 <= k <= |instrs|
      invariant forall j | k <= j < |instrs| :: !IsKill(exp, instrs[j], vars)
    {
      k := k - 1;
      if IsKill(exp, instrs[k], vars) {
        return false;
      }
    }
    return true;
  }

  /** `compNIsSame`: the first computation of `exp` comes before any kill. */
  method CompNIsSame(exp: Node, vars: seq<Node>, instrs: seq<Node>) returns (r: bool)
    ensures r == NIsSame(exp, vars, instrs)
  {
    var k := 0;
    while k < |instrs|
      invariant 0 <= k <= |instrs|
      invariant forall j | 0 <= j < k :: !IsKill(exp, instrs[j], vars) && !Computes(instrs[j], exp)
    {
      if IsKill(exp, instrs[k], vars) {
        return false;
      }
      if Computes(instrs[k], exp) {
        return true;
      }
      k := k + 1;
    }
    return false;
  }

  /** `compXIsSame`: the last computation of `exp` comes after every kill. */
  method CompXIsSame(exp: Node, vars: seq<Node>, instrs: seq<Node>) returns (r: bool)
    ensures r == XIsSame(exp, vars, instrs)
  {
    var k := |instrs|;
    while k > 0
      invariant 0 <= k <= |instrs|
      invariant forall j | k <= j < |instrs| :: !IsKill(exp, instrs[j], vars) && !Computes(instrs[j], exp)
    {
      k := k - 1;
      if IsKill(exp, instrs[k], vars) {
        return false;
      }
      if Computes(instrs[k], exp) {
        return true;
      }
    }
    return false;
  }

  /** A block that computes `exp` before any kill and is transparent also computes it after every kill. */
  lemma {:induction false} SameThrough(exp: Node, vars: seq<Node>, instrs: seq<Node>)
    requires Transp(exp, vars, instrs) && NIsSame(exp, vars, instrs)
    ensures XIsSame(exp, vars, instrs)
  {
    var k :| 0 <= k < |instrs| && Computes(instrs[k], exp) && forall j | 0 <= j <= k :: !IsKill(exp, instrs[j], vars);
    assert forall j | k <= j < |instrs| :: !IsKill(exp, instrs[j], vars);
  }

  // ---------------------------------------------------------------------
  // The bit-vector systems solved by iteration
  // ---------------------------------------------------------------------

  /** Boolean vectors ordered pointwise (false below true). */
  predicate Le(a: seq<bool>, b: seq<bool>) {
    |a| == |b| && forall i | 0 <= i < |a| :: a[i] ==> b[i]
  }

  /** The number of true entries. */
  function Trues(s: seq<bool>): (r: nat)
    ensures r <= |s|
  {
    if s == [] then 0 else Trues(s[..|s| - 1]) + (if s[|s| - 1] then 1 else 0)
  }

  /** A pointwise smaller vector has fewer true entries, strictly fewer when it differs. */
  lemma {:induction false} TruesLe(a: seq<bool>, b: seq<bool>)
    requires Le(a, b)
    ensures Trues(a) <= Trues(b)
    ensures a != b ==> Trues(a) < Trues(b)
    decreases |a|
  {
    if a != [] {
      var m := |a| - 1;
      TruesLe(a[..m], b[..m]);
      if a[..m] == b[..m] && a[m] == b[m] {
        assert a == a[..m] + [a[m]] && b == b[..m] + [b[m]];
      }
    }
  }

  /**
   * The four systems `compDSafe`, `compUSafe`, `compDelayed` and
   * `compIsolated` solve. Each has a "cross" variable computed from the
   * other variable of the neighbouring blocks and a "local" variable
   * computed from the cross variable of the same block.
   */
  datatype Flow = DSafe | USafe | Delayed | Isolated
  {
    /** The backward systems read their successors and visit the block list from its end. */
    predicate Backward() { this == DSafe || this == Isolated }
  }

  /** The per-block facts the systems read. */
  datatype Props = Props(
    transp: seq<bool>, nIsSame: seq<bool>, xIsSame: seq<bool>,
    nEarliest: seq<bool>, xEarliest: seq<bool>)
  {
    /** One entry per block for every fact system `k` reads (only Delayed and Isolated read earliestness). */
    predicate Sized(k: Flow, n: nat) {
      |transp| == n && |nIsSame| == n && |xIsSame| == n &&
      ((k == Delayed || k == Isolated) ==> |nEarliest| == n && |xEarliest| == n)
    }
  }

  function Neighbours(k: Flow, g: Graph, b: nat): seq<nat>
    requires g.Valid() && b < g.n
  {
    if k.Backward() then g.succs[b] else g.preds[b]
  }

  /** A neighbour `s` lets the cross variable stay true. */
  predicate Ok(k: Flow, p: Props, local: seq<bool>, s: nat)
    requires s < |local| && p.Sized(k, |local|)
  {
    match k
    case DSafe => local[s]
    case USafe => local[s]
    case Delayed => local[s] && !p.xIsSame[s]
    case Isolated => !(p.nEarliest[s] || p.nIsSame[s] || !local[s])
  }

  /** The cross equation: at the entry (forward) or exit (backward) block only the base case holds. */
  predicate Cross(k: Flow, g: Graph, p: Props, b: nat, local: seq<bool>)
    requires g.Valid() && b < g.n && |local| == g.n && p.Sized(k, g.n)
  {
    match k
    case DSafe => p.xIsSame[b] || (b != g.exit && forall s | s in Neighbours(k, g, b) :: Ok(k, p, local, s))
    case USafe => b != g.entry && forall s | s in Neighbours(k, g, b) :: Ok(k, p, local, s)
    case Delayed => p.nEarliest[b] || (b != g.entry && forall s | s in Neighbours(k, g, b) :: Ok(k, p, local, s))
    case Isolated => b == g.exit || forall s | s in Neighbours(k, g, b) :: Ok(k, p, local, s)
  }

  /** The local equation, from the cross value `c` of the same block. */
  predicate Local(k: Flow, p: Props, b: nat, c: bool)
    requires p.Sized(k, |p.transp|) && b < |p.transp|
  {
    match k
    case DSafe => p.nIsSame[b] || (c && p.transp[b])
    case USafe => p.xIsSame[b] || (c && p.transp[b])
    case Delayed => p.xEarliest[b] || (c && !p.nIsSame[b])
    case Isolated => !p.transp[b] || (!p.nIsSame[b] && (p.xEarliest[b] || c))
  }

  predicate SolvedAt(k: Flow, g: Graph, p: Props, b: nat, cross: seq<bool>, local: seq<bool>)
    requires g.Valid() && p.Sized(k, g.n) && b < g.n && |cross| == g.n && |local| == g.n
  {
    cross[b] == Cross(k, g, p, b, local) && local[b] == Local(k, p, b, cross[b])
  }

  /** `cross` and `local` solve system `k`. */
  predicate Solved(k: Flow, g: Graph, p: Props, cross: seq<bool>, local: seq<bool>)
    requires g.Valid() && p.Sized(k, g.n)
  {
    |cross| == g.n && |local| == g.n &&
    forall b | 0 <= b < g.n :: SolvedAt(k, g, p, b, cross, local)
  }

  /** Every equation's right-hand side lies below the current value. */
  predicate Above(k: Flow, g: Graph, p: Props, cross: seq<bool>, local: seq<bool>)
    requires g.Valid() && p.Sized(k, g.n)
  {
    |cross| == g.n && |local| == g.n &&
    forall b | 0 <= b < g.n ::
      (Cross(k, g, p, b, local) ==> cross[b]) && (Local(k, p, b, cross[b]) ==> local[b])
  }

  /** Every solution of system `k` lies below `cross` and `local`. */
  ghost predicate AboveSolutions(k: Flow, g: Graph, p: Props, cross: seq<bool>, local: seq<bool>)
    requires g.Valid() && p.Sized(k, g.n)
  {
    forall c: seq<bool>, l: seq<bool> | Solved(k, g, p, c, l) :: Le(c, cross) && Le(l, local)
  }

  /** The equations are monotone in the vector they read. */
  lemma CrossMono(k: Flow, g: Graph, p: Props, b: nat, l1: seq<bool>, l2: seq<bool>)
    requires g.Valid() && p.Sized(k, g.n) && b < g.n && |l1| == g.n && Le(l1, l2)
    ensures Cross(k, g, p, b, l1) ==> Cross(k, g, p, b, l2)
  {
  }

  /** Recomputing block `b` from values above their equations keeps them above their equations. */
  lemma StepAbove(k: Flow, g: Graph, p: Props, cross: seq<bool>, local: seq<bool>, b: nat)
    requires g.Valid() && p.Sized(k, g.n) && b < g.n
    requires Above(k, g, p, cross, local)
    ensures var c := Cross(k, g, p, b, local);
            var l := Local(k, p, b, c);
            Le(cross[b := c], cross) && Le(local[b := l], local) &&
            Above(k, g, p, cross[b := c], local[b := l])
  {
    var c := Cross(k, g, p, b, local);
    var l := Local(k, p, b, c);
    var c', l' := cross[b := c], local[b := l];
    forall d | 0 <= d < g.n
      ensures (Cross(k, g, p, d, l') ==> c'[d]) && (Local(k, p, d, c'[d]) ==> l'[d])
    {
      StepAboveAt(k, g, p, cross, local, b, d);
    }
  }

  lemma StepAboveAt(k: Flow, g: Graph, p: Props, cross: seq<bool>, local: seq<bool>, b: nat, d: nat)
    requires g.Valid() && p.Sized(k, g.n) && b < g.n && d < g.n
    requires Above(k, g, p, cross, local)
    ensures var c := Cross(k, g, p, b, local);
            var l := Local(k, p, b, c);
            (Cross(k, g, p, d, local[b := l]) ==> cross[b := c][d]) &&
            (Local(k, p, d, cross[b := c][d]) ==> local[b := l][d])
  {
    var c := Cross(k, g, p, b, local);
    var l := Local(k, p, b, c);
    assert Le(local[b := l], local);
    CrossMono(k, g, p, d, local[b := l], local);
  }

  /** Recomputing block `b` from values above every solution keeps them above every solution. */
  lemma StepSolutions(k: Flow, g: Graph, p: Props, cross: seq<bool>, local: seq<bool>, b: nat)
    requires g.Valid() && p.Sized(k, g.n) && b < g.n && |cross| == g.n && |local| == g.n
    requires AboveSolutions(k, g, p, cross, local)
    ensures var c := Cross(k, g, p, b, local);
            AboveSolutions(k, g, p, cross[b := c], local[b := Local(k, p, b, c)])
  {
    var c := Cross(k, g, p, b, local);
    var l := Local(k, p, b, c);
    forall cs: seq<bool>, ls: seq<bool> | Solved(k, g, p, cs, ls)
      ensures Le(cs, cross[b := c]) && Le(ls, local[b := l])
    {
      assert SolvedAt(k, g, p, b, cs, ls);
      CrossMono(k, g, p, b, ls, local);
    }
  }

  /** The blocks at the first `i` positions of `order` satisfy their equations. */
  predicate SolvedUpTo(k: Flow, g: Graph, p: Props, order: seq<nat>, i: nat, cross: seq<bool>, local: seq<bool>)
    requires g.Valid() && p.Sized(k, g.n) && |cross| == g.n && |local| == g.n && i <= |order|
    requires forall j | 0 <= j < |order| :: order[j] < g.n
  {
    forall j | 0 <= j < i :: SolvedAt(k, g, p, order[j], cross, local)
  }

  lemma SolvedExtend(k: Flow, g: Graph, p: Props, order: seq<nat>, i: nat, cross: seq<bool>, local: seq<bool>)
    requires g.Valid() && p.Sized(k, g.n) && |cross| == g.n && |local| == g.n && i < |order|
    requires forall j | 0 <= j < |order| :: order[j] < g.n
    requires SolvedUpTo(k, g, p, order, i, cross, local)
    requires cross[order[i]] == Cross(k, g, p, order[i], local)
    requires local[order[i]] == Local(k, p, order[i], cross[order[i]])
    ensures SolvedUpTo(k, g, p, order, i + 1, cross, local)
  {
  }

  /** When every block has a position in `order`, solving every position solves the system. */
  lemma SolvedAll(k: Flow, g: Graph, p: Props, order: seq<nat>, cross: seq<bool>, local: seq<bool>)
    requires g.Valid() && p.Sized(k, g.n) && |cross| == g.n && |local| == g.n
    requires forall j | 0 <= j < |order| :: order[j] < g.n
    requires forall b | 0 <= b < g.n :: b in order
    requires SolvedUpTo(k, g, p, order, |order|, cross, local)
    ensures Solved(k, g, p, cross, local)
  {
    forall b | 0 <= b < g.n
      ensures SolvedAt(k, g, p, b, cross, local)
    {
      assert b in order;
      var j :| 0 <= j < |order| && order[j] == b;
    }
  }

  /** The block order a system's pass follows. */
  function Order(k: Flow, g: Graph): (r: seq<nat>)
    requires g.Valid()
    ensures |r| == g.n
    ensures forall j | 0 <= j < |r| :: r[j] < g.n
    ensures forall b | 0 <= b < g.n :: b in r
  {
    LayoutIds(g);
    if k.Backward() then Reversed(g.layout) else g.layout
  }

  function Reversed(s: seq<nat>): (r: seq<nat>)
    ensures |r| == |s|
    ensures forall x :: x in r <==> x in s
    ensures forall j | 0 <= j < |s| :: r[j] == s[|s| - 1 - j]
  {
    if s == [] then [] else Reversed(s[1..]) + [s[0]]
  }

  /** The inner loop of a pass: the cross value of block `b`. */
  method CrossAt(k: Flow, g: Graph, p: Props, b: nat, local: array<bool>) returns (c: bool)
    requires g.Valid() && p.Sized(k, g.n) && b < g.n && local.Length == g.n
    ensures c == Cross(k, g, p, b, local[..])
  {
    if (k == DSafe && p.xIsSame[b]) || (k == Delayed && p.nEarliest[b]) {
      return true;
    }
    if (k.Backward() && b == g.exit) || (!k.Backward() && b == g.entry) {
      return k == Isolated;
    }
    var ids := Neighbours(k, g, b);
    var j := 0;
    while j < |ids|
      invariant 0 <= j <= |ids|
      invariant forall i | 0 <= i < j :: ids[i] < g.n && Ok(k, p, local[..], ids[i])
    {
      assert ids[j] in ids;
      if !Ok(k, p, local[..], ids[j]) {
        return false;
      }
      j := j + 1;
    }
    assert forall s | s in ids :: exists i | 0 <= i < |ids| :: ids[i] == s;
    return true;
  }

  /**
   * The body of a pass: block `b` gets the values of its equations. The
   * values only go down; `moved` says whether either changed, and when
   * neither did block `b` already satisfied its equations.
   */
  method Recompute(k: Flow, g: Graph, p: Props, cross: array<bool>, local: array<bool>, b: nat) returns (moved: bool)
    requires g.Valid() && p.Sized(k, g.n) && cross != local && b < g.n
    requires Above(k, g, p, cross[..], local[..]) && AboveSolutions(k, g, p, cross[..], local[..])
    modifies cross, local
    ensures Above(k, g, p, cross[..], local[..]) && AboveSolutions(k, g, p, cross[..], local[..])
    ensures Le(cross[..], old(cross[..])) && Le(local[..], old(local[..]))
    ensures moved ==> Trues(cross[..]) + Trues(local[..]) < old(Trues(cross[..]) + Trues(local[..]))
    ensures !moved ==> cross[..] == old(cross[..]) && local[..] == old(local[..])
    ensures !moved ==> SolvedAt(k, g, p, b, cross[..], local[..])
  {
    var c := CrossAt(k, g, p, b, local);
    var l := Local(k, p, b, c);
    ghost var pc, pl := cross[..], local[..];
    StepAbove(k, g, p, pc, pl, b);
    StepSolutions(k, g, p, pc, pl, b);
    moved := cross[b] != c || local[b] != l;
    cross[b] := c;
    local[b] := l;
    assert cross[..] == pc[b := c] && local[..] == pl[b := l];
    if moved {
      assert cross[..] != pc || local[..] != pl by {
        assert cross[..][b] != pc[b] || local[..][b] != pl[b];
      }
      TruesLe(cross[..], pc);
      TruesLe(local[..], pl);
    }
  }

  /**
   * One pass over the blocks: every block is recomputed in turn. The values
   * only go down; `change` says whether any did; a pass that changes nothing
   * has found a solution.
   */
  method Pass(k: Flow, g: Graph, p: Props, cross: array<bool>, local: array<bool>) returns (change: bool)
    requires g.Valid() && p.Sized(k, g.n) && cross != local
    requires Above(k, g, p, cross[..], local[..]) && AboveSolutions(k, g, p, cross[..], local[..])
    modifies cross, local
    ensures Above(k, g, p, cross[..], local[..]) && AboveSolutions(k, g, p, cross[..], local[..])
    ensures Trues(cross[..]) + Trues(local[..]) <= old(Trues(cross[..]) + Trues(local[..]))
    ensures change ==> Trues(cross[..]) + Trues(local[..]) < old(Trues(cross[..]) + Trues(local[..]))
    ensures !change ==> Solved(k, g, p, cross[..], local[..])
  {
    ghost var c0, l0 := cross[..], local[..];
    var order := Order(k, g);
    change := false;
    var i := 0;
    while i < |order|
      invariant 0 <= i <= |order|
      invariant Above(k, g, p, cross[..], local[..]) && AboveSolutions(k, g, p, cross[..], local[..])
      invariant Le(cross[..], c0) && Le(local[..], l0)
      invariant change <==> Trues(cross[..]) + Trues(local[..]) < Trues(c0) + Trues(l0)
      invariant !change ==> SolvedUpTo(k, g, p, order, i, cross[..], local[..])
    {
      ghost var pc, pl := cross[..], local[..];
      var moved := Recompute(k, g, p, cross, local, order[i]);
      if moved {
        change := true;
      }
      TruesLe(pc, c0);
      TruesLe(pl, l0);
      TruesLe(cross[..], pc);
      TruesLe(local[..], pl);
      if !change {
        SolvedExtend(k, g, p, order, i, cross[..], local[..]);
      }
      i := i + 1;
    }
    TruesLe(cross[..], c0);
    TruesLe(local[..], l0);
    if !change {
      SolvedAll(k, g, p, order, cross[..], local[..]);
    }
  }

  /** Every solution of system `k` lies below `cross` and `local`, which solve it. */
  ghost predicate Greatest(k: Flow, g: Graph, p: Props, cross: seq<bool>, local: seq<bool>)
    requires g.Valid() && p.Sized(k, g.n)
  {
    Solved(k, g, p, cross, local) && AboveSolutions(k, g, p, cross, local)
  }

  /** A solution of the down-safety system, spelt out. */
  lemma SolvedDSafe(g: Graph, p: Props, x: seq<bool>, n: seq<bool>)
    requires g.Valid() && p.Sized(DSafe, g.n) && Solved(DSafe, g, p, x, n)
    ensures forall b | 0 <= b < g.n ::
      x[b] == (p.xIsSame[b] || (b != g.exit && forall s | s in g.succs[b] :: n[s])) &&
      n[b] == (p.nIsSame[b] || (x[b] && p.transp[b]))
  {
    forall b | 0 <= b < g.n
      ensures x[b] == (p.xIsSame[b] || (b != g.exit && forall s | s in g.succs[b] :: n[s]))
      ensures n[b] == (p.nIsSame[b] || (x[b] && p.transp[b]))
    {
      assert SolvedAt(DSafe, g, p, b, x, n);
      assert Neighbours(DSafe, g, b) == g.succs[b];
      assert forall s | s in g.succs[b] :: Ok(DSafe, p, n, s) == (n[s]);
    }
  }

  /** A solution of the up-safety system, spelt out. */
  lemma SolvedUSafe(g: Graph, p: Props, n: seq<bool>, x: seq<bool>)
    requires g.Valid() && p.Sized(USafe, g.n) && Solved(USafe, g, p, n, x)
    ensures forall b | 0 <= b < g.n ::
      n[b] == (b != g.entry && forall q | q in g.preds[b] :: x[q]) &&
      x[b] == (p.xIsSame[b] || (n[b] && p.transp[b]))
  {
    forall b | 0 <= b < g.n
      ensures n[b] == (b != g.entry && forall q | q in g.preds[b] :: x[q])
      ensures x[b] == (p.xIsSame[b] || (n[b] && p.transp[b]))
    {
      assert SolvedAt(USafe, g, p, b, n, x);
      assert Neighbours(USafe, g, b) == g.preds[b];
      assert forall s | s in g.preds[b] :: Ok(USafe, p, x, s) == (x[s]);
    }
  }

  /** A solution of the delayedness system, spelt out. */
  lemma SolvedDelayed(g: Graph, p: Props, n: seq<bool>, x: seq<bool>)
    requires g.Valid() && p.Sized(Delayed, g.n) && Solved(Delayed, g, p, n, x)
    ensures forall b | 0 <= b < g.n ::
      n[b] == (p.nEarliest[b] || (b != g.entry && forall q | q in g.preds[b] :: x[q] && !p.xIsSame[q])) &&
      x[b] == (p.xEarliest[b] || (n[b] && !p.nIsSame[b]))
  {
    forall b | 0 <= b < g.n
      ensures n[b] == (p.nEarliest[b] || (b != g.entry && forall q | q in g.preds[b] :: x[q] && !p.xIsSame[q]))
      ensures x[b] == (p.xEarliest[b] || (n[b] && !p.nIsSame[b]))
    {
      assert SolvedAt(Delayed, g, p, b, n, x);
      assert Neighbours(Delayed, g, b) == g.preds[b];
      assert forall s | s in g.preds[b] :: Ok(Delayed, p, x, s) == (x[s] && !p.xIsSame[s]);
    }
  }

  /** A solution of the isolation system, spelt out. */
  lemma SolvedIsolated(g: Graph, p: Props, x: seq<bool>, n: seq<bool>)
    requires g.Valid() && p.Sized(Isolated, g.n) && Solved(Isolated, g, p, x, n)
    ensures forall b | 0 <= b < g.n ::
      x[b] == (b == g.exit || forall s | s in g.succs[b] :: !(p.nEarliest[s] || p.nIsSame[s] || !n[s])) &&
      n[b] == (!p.transp[b] || (!p.nIsSame[b] && (p.xEarliest[b] || x[b])))
  {
    forall b | 0 <= b < g.n
      ensures x[b] == (b == g.exit || forall s | s in g.succs[b] :: !(p.nEarliest[s] || p.nIsSame[s] || !n[s]))
      ensures n[b] == (!p.transp[b] || (!p.nIsSame[b] && (p.xEarliest[b] || x[b])))
    {
      assert SolvedAt(Isolated, g, p, b, x, n);
      assert Neighbours(Isolated, g, b) == g.succs[b];
      assert forall s | s in g.succs[b] :: Ok(Isolated, p, n, s) == (!(p.nEarliest[s] || p.nIsSame[s] || !n[s]));
    }
  }

  /**
   * The iteration of the four fixed-point methods: start from all true and
   * repeat passes until one changes nothing. The result is the greatest
   * solution: it solves the system and lies above every other solution.
   */
  method Solve(k: Flow, g: Graph, p: Props) returns (cross: array<bool>, local: array<bool>)
    requires g.Valid() && p.Sized(k, g.n)
    ensures fresh(cross) && fresh(local) && cross != local
    ensures Greatest(k, g, p, cross[..], local[..])
  {
    cross := new bool[g.n](_ => true);
    local := new bool[g.n](_ => true);
    var change := true;
    while change
      invariant fresh(cross) && fresh(local) && cross != local
      invariant Above(k, g, p, cross[..], local[..]) && AboveSolutions(k, g, p, cross[..], local[..])
      invariant !change ==> Solved(k, g, p, cross[..], local[..])
      decreases Trues(cross[..]) + Trues(local[..]), change
    {
      change := Pass(k, g, p, cross, local);
    }
  }

  // ---------------------------------------------------------------------
  // The single-pass systems
  // ---------------------------------------------------------------------

  /** Some predecessor of `b` is neither up-safe nor down-safe at its exit. */
  method SomePredUnsafe(g: Graph, xUSafe: seq<bool>, xDSafe: seq<bool>, b: nat) returns (r: bool)
    requires g.Valid() && b < g.n && |xUSafe| == g.n && |xDSafe| == g.n
    ensures r == exists q | q in g.preds[b] :: !(xUSafe[q] || xDSafe[q])
  {
    var ids := g.preds[b];
    var j := 0;
    while j < |ids|
      invariant 0 <= j <= |ids|
      invariant forall i | 0 <= i < j :: ids[i] < g.n && (xUSafe[ids[i]] || xDSafe[ids[i]])
    {
      assert ids[j] in ids;
      if !(xUSafe[ids[j]] || xDSafe[ids[j]]) {
        return true;
      }
      j := j + 1;
    }
    assert forall q | q in ids :: exists i | 0 <= i < |ids| :: ids[i] == q;
    return false;
  }

  /** Some successor of `b` is not delayed at its entry. */
  method SomeSuccUndelayed(g: Graph, nDelayed: seq<bool>, b: nat) returns (r: bool)
    requires g.Valid() && b < g.n && |nDelayed| == g.n
    ensures r == exists s | s in g.succs[b] :: !nDelayed[s]
  {
    var ids := g.succs[b];
    var j := 0;
    while j < |ids|
      invariant 0 <= j <= |ids|
      invariant forall i | 0 <= i < j :: ids[i] < g.n && nDelayed[ids[i]]
    {
      assert ids[j] in ids;
      if !nDelayed[ids[j]] {
        return true;
      }
      j := j + 1;
    }
    assert forall s | s in ids :: exists i | 0 <= i < |ids| :: ids[i] == s;
    return false;
  }

  /** Earliest at the entry of `b`: safe there, and not safe at the exit of some predecessor. */
  predicate NEarliestAt(g: Graph, nUSafe: seq<bool>, xUSafe: seq<bool>, nDSafe: seq<bool>, xDSafe: seq<bool>, b: nat)
    requires g.Valid() && b < g.n && |nUSafe| == g.n && |xUSafe| == g.n && |nDSafe| == g.n && |xDSafe| == g.n
  {
    (nUSafe[b] || nDSafe[b]) && (b == g.entry || exists q | q in g.preds[b] :: !(xUSafe[q] || xDSafe[q]))
  }

  /** One pass over the block list computing earliestness. */
  method Earliest(g: Graph, transp: seq<bool>, nUSafe: seq<bool>, xUSafe: seq<bool>, nDSafe: seq<bool>, xDSafe: seq<bool>)
    returns (nEarliest: array<bool>, xEarliest: array<bool>)
    requires g.Valid() && |transp| == g.n
    requires |nUSafe| == g.n && |xUSafe| == g.n && |nDSafe| == g.n && |xDSafe| == g.n
    ensures fresh(nEarliest) && fresh(xEarliest) && nEarliest.Length == g.n && xEarliest.Length == g.n
    ensures forall b | 0 <= b < g.n ::
      nEarliest[b] == NEarliestAt(g, nUSafe, xUSafe, nDSafe, xDSafe, b) &&
      xEarliest[b] == (xDSafe[b] && (!transp[b] || (!nDSafe[b] && !nEarliest[b])))
  {
    nEarliest := new bool[g.n](_ => true);
    xEarliest := new bool[g.n](_ => true);
    LayoutIds(g);
    var i := 0;
    while i < |g.layout|
      invariant 0 <= i <= |g.layout|
      invariant forall j | 0 <= j < i ::
        nEarliest[g.layout[j]] == NEarliestAt(g, nUSafe, xUSafe, nDSafe, xDSafe, g.layout[j]) &&
        xEarliest[g.layout[j]] == (xDSafe[g.layout[j]] && (!transp[g.layout[j]] || (!nDSafe[g.layout[j]] && !nEarliest[g.layout[j]])))
    {
      var b := g.layout[i];
      var n := nUSafe[b] || nDSafe[b];
      if n && b != g.entry {
        n := SomePredUnsafe(g, xUSafe, xDSafe, b);
      }
      nEarliest[b] := n;
      xEarliest[b] := xDSafe[b] && (!transp[b] || (!nDSafe[b] && !n));
      i := i + 1;
    }
    forall b | 0 <= b < g.n
      ensures nEarliest[b] == NEarliestAt(g, nUSafe, xUSafe, nDSafe, xDSafe, b)
      ensures xEarliest[b] == (xDSafe[b] && (!transp[b] || (!nDSafe[b] && !nEarliest[b])))
    {
      assert b in g.layout;
    }
  }

  /** Latest at the exit of `b`: delayed there, and used in `b` or not delayed at some successor. */
  predicate XLatestAt(g: Graph, xIsSame: seq<bool>, nDelayed: seq<bool>, xDelayed: seq<bool>, b: nat)
    requires g.Valid() && b < g.n && |xIsSame| == g.n && |nDelayed| == g.n && |xDelayed| == g.n
  {
    xDelayed[b] && (xIsSame[b] || (b != g.exit && exists s | s in g.succs[b] :: !nDelayed[s]))
  }

  /** One backward pass over the block list computing latestness. */
  method Latest(g: Graph, nIsSame: seq<bool>, xIsSame: seq<bool>, nDelayed: seq<bool>, xDelayed: seq<bool>)
    returns (nLatest: array<bool>, xLatest: array<bool>)
    requires g.Valid() && |nIsSame| == g.n && |xIsSame| == g.n && |nDelayed| == g.n && |xDelayed| == g.n
    ensures fresh(nLatest) && fresh(xLatest) && nLatest.Length == g.n && xLatest.Length == g.n
    ensures forall b | 0 <= b < g.n ::
      xLatest[b] == XLatestAt(g, xIsSame, nDelayed, xDelayed, b) &&
      nLatest[b] == (nDelayed[b] && (!xDelayed[b] || nIsSame[b]))
  {
    nLatest := new bool[g.n](_ => false);
    xLatest := new bool[g.n](_ => false);
    var order := Reversed(g.layout);
    LayoutIds(g);
    var i := 0;
    while i < |order|
      invariant 0 <= i <= |order|
      invariant forall j | 0 <= j < |order| :: order[j] < g.n
      invariant forall j | 0 <= j < i ::
        xLatest[order[j]] == XLatestAt(g, xIsSame, nDelayed, xDelayed, order[j]) &&
        nLatest[order[j]] == (nDelayed[order[j]] && (!xDelayed[order[j]] || nIsSame[order[j]]))
    {
      var b := order[i];
      var x := false;
      if xDelayed[b] {
        if xIsSame[b] {
          x := true;
        } else if b != g.exit {
          x := SomeSuccUndelayed(g, nDelayed, b);
        }
      }
      xLatest[b] := x;
      nLatest[b] := nDelayed[b] && (!xDelayed[b] || nIsSame[b]);
      i := i + 1;
    }
    forall b | 0 <= b < g.n
      ensures xLatest[b] == XLatestAt(g, xIsSame, nDelayed, xDelayed, b)
      ensures nLatest[b] == (nDelayed[b] && (!xDelayed[b] || nIsSame[b]))
    {
      assert b in order;
    }
  }

  /** `compInsert` for one of the entry and exit variants: latest and not isolated, over `rpo`. */
  method InsertPoints(rpo: seq<nat>, n: nat, latest: seq<bool>, isolated: seq<bool>) returns (r: array<bool>)
    requires |latest| == n && |isolated| == n && forall b | b in rpo :: b < n
    ensures fresh(r) && r.Length == n
    ensures forall b | 0 <= b < n :: r[b] == (b in rpo && latest[b] && !isolated[b])
  {
    r := new bool[n](_ => false);
    var i := 0;
    while i < |rpo|
      invariant 0 <= i <= |rpo|
      invariant forall b | 0 <= b < n :: r[b] == (b in rpo[..i] && latest[b] && !isolated[b])
    {
      var b := rpo[i];
      assert rpo[..i + 1] == rpo[..i] + [b] && b in rpo;
      r[b] := latest[b] && !isolated[b];
      i := i + 1;
    }
    assert rpo[..i] == rpo;
  }

  /** `compReplace` for one variant: computed locally and not both latest and isolated, over `rpo`. */
  method ReplacePoints(rpo: seq<nat>, n: nat, same: seq<bool>, latest: seq<bool>, isolated: seq<bool>) returns (r: array<bool>)
    requires |same| == n && |latest| == n && |isolated| == n && forall b | b in rpo :: b < n
    ensures fresh(r) && r.Length == n
    ensures forall b | 0 <= b < n :: r[b] == (b in rpo && same[b] && !(latest[b] && isolated[b]))
  {
    r := new bool[n](_ => false);
    var i := 0;
    while i < |rpo|
      invariant 0 <= i <= |rpo|
      invariant forall b | 0 <= b < n :: r[b] == (b in rpo[..i] && same[b] && !(latest[b] && isolated[b]))
    {
      var b := rpo[i];
      assert rpo[..i + 1] == rpo[..i] + [b] && b in rpo;
      r[b] := same[b] && !(latest[b] && isolated[b]);
      i := i + 1;
    }
    assert rpo[..i] == rpo;
  }

  /** The three local properties of every block listed in `rpo`; false elsewhere. */
  method LocalProperty(rpo: seq<nat>, code: seq<seq<Node>>, exp: Node, vars: seq<Node>)
    returns (transp: array<bool>, nIsSame: array<bool>, xIsSame: array<bool>)
    requires forall b | b in rpo :: b < |code|
    ensures fresh(transp) && fresh(nIsSame) && fresh(xIsSame)
    ensures transp.Length == |code| && nIsSame.Length == |code| && xIsSame.Length == |code|
    ensures forall b | 0 <= b < |code| ::
      transp[b] == (b in rpo && Transp(exp, vars, code[b])) &&
      nIsSame[b] == (b in rpo && NIsSame(exp, vars, code[b])) &&
      xIsSame[b] == (b in rpo && XIsSame(exp, vars, code[b]))
  {
    var n := |code|;
    nIsSame := new bool[n](_ => false);
    xIsSame := new bool[n](_ => false);
    transp := new bool[n](_ => false);
    var i := 0;
    while i < |rpo|
      invariant 0 <= i <= |rpo|
      invariant forall b | 0 <= b < n ::
        transp[b] == (b in rpo[..i] && Transp(exp, vars, code[b])) &&
        nIsSame[b] == (b in rpo[..i] && NIsSame(exp, vars, code[b])) &&
        xIsSame[b] == (b in rpo[..i] && XIsSame(exp, vars, code[b]))
    {
      var b := rpo[i];
      assert rpo[..i + 1] == rpo[..i] + [b] && b in rpo;
      transp[b] := CompTransp(exp, vars, code[b]);
      nIsSame[b] := CompNIsSame(exp, vars, code[b]);
      xIsSame[b] := CompXIsSame(exp, vars, code[b]);
      i := i + 1;
    }
    assert rpo[..i] == rpo;
  }

  // ---------------------------------------------------------------------
  // What each property vector holds once computed
  // ---------------------------------------------------------------------

  /** The local properties of `exp` in every block of the reverse postorder, false elsewhere. */
  ghost predicate LocalHolds(g: Graph, code: seq<seq<Node>>, exp: Node, vars: seq<Node>,
                             transp: seq<bool>, nIsSame: seq<bool>, xIsSame: seq<bool>)
    requires |code| == g.n && |transp| == g.n && |nIsSame| == g.n && |xIsSame| == g.n
  {
    forall b | 0 <= b < g.n ::
      transp[b] == (b in g.rpo && Transp(exp, vars, code[b])) &&
      nIsSame[b] == (b in g.rpo && NIsSame(exp, vars, code[b])) &&
      xIsSame[b] == (b in g.rpo && XIsSame(exp, vars, code[b]))
  }

  /** Down-safety: the greatest solution of its equations. */
  ghost predicate DSafeHolds(g: Graph, transp: seq<bool>, nIsSame: seq<bool>, xIsSame: seq<bool>,
                             nDSafe: seq<bool>, xDSafe: seq<bool>)
    requires g.Valid() && |transp| == g.n && |nIsSame| == g.n && |xIsSame| == g.n &&
      |nDSafe| == g.n && |xDSafe| == g.n
  {
    (forall b | 0 <= b < g.n ::
      xDSafe[b] == (xIsSame[b] || (b != g.exit && forall s | s in g.succs[b] :: nDSafe[s])) &&
      nDSafe[b] == (nIsSame[b] || (xDSafe[b] && transp[b]))) &&
    Greatest(DSafe, g, Props(transp, nIsSame, xIsSame, [], []), xDSafe, nDSafe)
  }

  /** Up-safety: the greatest solution of its equations. */
  ghost predicate USafeHolds(g: Graph, transp: seq<bool>, nIsSame: seq<bool>, xIsSame: seq<bool>,
                             nUSafe: seq<bool>, xUSafe: seq<bool>)
    requires g.Valid() && |transp| == g.n && |nIsSame| == g.n && |xIsSame| == g.n &&
      |nUSafe| == g.n && |xUSafe| == g.n
  {
    (forall b | 0 <= b < g.n ::
      nUSafe[b] == (b != g.entry && forall q | q in g.preds[b] :: xUSafe[q]) &&
      xUSafe[b] == (xIsSame[b] || (nUSafe[b] && transp[b]))) &&
    Greatest(USafe, g, Props(transp, nIsSame, xIsSame, [], []), nUSafe, xUSafe)
  }

  /** Earliestness, which implies down-safety at the exit. */
  ghost predicate EarliestHolds(g: Graph, transp: seq<bool>, nDSafe: seq<bool>, xDSafe: seq<bool>,
                                nUSafe: seq<bool>, xUSafe: seq<bool>, nEarliest: seq<bool>, xEarliest: seq<bool>)
    requires g.Valid() && |transp| == g.n && |nDSafe| == g.n && |xDSafe| == g.n &&
      |nUSafe| == g.n && |xUSafe| == g.n && |nEarliest| == g.n && |xEarliest| == g.n
  {
    forall b | 0 <= b < g.n ::
      nEarliest[b] == ((nUSafe[b] || nDSafe[b]) &&
                       (b == g.entry || exists q | q in g.preds[b] :: !(xUSafe[q] || xDSafe[q]))) &&
      xEarliest[b] == (xDSafe[b] && (!transp[b] || (!nDSafe[b] && !nEarliest[b]))) &&
      (xEarliest[b] ==> xDSafe[b])
  }

  /** Delayedness: the greatest solution of its equations. */
  ghost predicate DelayedHolds(g: Graph, transp: seq<bool>, nIsSame: seq<bool>, xIsSame: seq<bool>,
                               nEarliest: seq<bool>, xEarliest: seq<bool>, nDelayed: seq<bool>, xDelayed: seq<bool>)
    requires g.Valid() && |transp| == g.n && |nIsSame| == g.n && |xIsSame| == g.n &&
      |nEarliest| == g.n && |xEarliest| == g.n && |nDelayed| == g.n && |xDelayed| == g.n
  {
    (forall b | 0 <= b < g.n ::
      nDelayed[b] == (nEarliest[b] || (b != g.entry && forall q | q in g.preds[b] :: xDelayed[q] && !xIsSame[q])) &&
      xDelayed[b] == (xEarliest[b] || (nDelayed[b] && !nIsSame[b]))) &&
    Greatest(Delayed, g, Props(transp, nIsSame, xIsSame, nEarliest, xEarliest), nDelayed, xDelayed)
  }

  /** Latestness, which implies delayedness at the entry. */
  ghost predicate LatestHolds(g: Graph, nIsSame: seq<bool>, xIsSame: seq<bool>,
                              nDelayed: seq<bool>, xDelayed: seq<bool>, nLatest: seq<bool>, xLatest: seq<bool>)
    requires g.Valid() && |nIsSame| == g.n && |xIsSame| == g.n &&
      |nDelayed| == g.n && |xDelayed| == g.n && |nLatest| == g.n && |xLatest| == g.n
  {
    forall b | 0 <= b < g.n ::
      xLatest[b] == (xDelayed[b] && (xIsSame[b] || (b != g.exit && exists s | s in g.succs[b] :: !nDelayed[s]))) &&
      nLatest[b] == (nDelayed[b] && (!xDelayed[b] || nIsSame[b])) &&
      (nLatest[b] ==> nDelayed[b])
  }

  /** Isolation: the greatest solution of its equations. */
  ghost predicate IsolatedHolds(g: Graph, transp: seq<bool>, nIsSame: seq<bool>, xIsSame: seq<bool>,
                                nEarliest: seq<bool>, xEarliest: seq<bool>, nIsolated: seq<bool>, xIsolated: seq<bool>)
    requires g.Valid() && |transp| == g.n && |nIsSame| == g.n && |xIsSame| == g.n &&
      |nEarliest| == g.n && |xEarliest| == g.n && |nIsolated| == g.n && |xIsolated| == g.n
  {
    (forall b | 0 <= b < g.n ::
      xIsolated[b] == (b == g.exit || forall s | s in g.succs[b] :: !(nEarliest[s] || nIsSame[s] || !nIsolated[s])) &&
      nIsolated[b] == (!transp[b] || (!nIsSame[b] && (xEarliest[b] || xIsolated[b])))) &&
    Greatest(Isolated, g, Props(transp, nIsSame, xIsSame, nEarliest, xEarliest), xIsolated, nIsolated)
  }

  /** Insertion points: latest and not isolated, in the blocks of the reverse postorder. */
  predicate InsertHolds(g: Graph, nLatest: seq<bool>, xLatest: seq<bool>, nIsolated: seq<bool>, xIsolated: seq<bool>,
                        nInsert: seq<bool>, xInsert: seq<bool>)
    requires |nLatest| == g.n && |xLatest| == g.n && |nIsolated| == g.n && |xIsolated| == g.n &&
      |nInsert| == g.n && |xInsert| == g.n
  {
    forall b | 0 <= b < g.n ::
      nInsert[b] == (b in g.rpo && nLatest[b] && !nIsolated[b]) &&
      xInsert[b] == (b in g.rpo && xLatest[b] && !xIsolated[b])
  }

  /** Replacement points: computed locally, unless latest and isolated there. */
  predicate ReplaceHolds(g: Graph, nIsSame: seq<bool>, xIsSame: seq<bool>, nLatest: seq<bool>, xLatest: seq<bool>,
                         nIsolated: seq<bool>, xIsolated: seq<bool>, nReplace: seq<bool>, xReplace: seq<bool>)
    requires |nIsSame| == g.n && |xIsSame| == g.n && |nLatest| == g.n && |xLatest| == g.n &&
      |nIsolated| == g.n && |xIsolated| == g.n && |nReplace| == g.n && |xReplace| == g.n
  {
    forall b | 0 <= b < g.n ::
      nReplace[b] == (b in g.rpo && nIsSame[b] && !(nLatest[b] && nIsolated[b])) &&
      xReplace[b] == (b in g.rpo && xIsSame[b] && !(xLatest[b] && xIsolated[b]))
  }

  // ---------------------------------------------------------------------
  // Local code motion
  // ---------------------------------------------------------------------

  /**
   * The source `localCM` leaves in a SET with destination `dst` and source
   * `e`, scanning `instrs[..j]` from its end: a kill of the current source
   * or a SET mentioning `dst` stops the scan; an earlier SET of the current
   * source makes its destination the new source, and the scan goes on.
   */
  function LocalScan(instrs: seq<Node>, dst: Node, e: Node, vars: seq<Node>, j: nat): Node
    requires j <= |instrs|
    decreases j
  {
    if j == 0 then e
    else
      var node := instrs[j - 1];
      if IsKill(e, node, vars) then e
      else if node.op != SET then LocalScan(instrs, dst, e, vars, j - 1)
      else if dst in CollectVars(node) then e
      else LocalScan(instrs, dst, if Kid(node, 1) == e then Kid(node, 0) else e, vars, j - 1)
  }

  /** A source is only ever replaced by the destination of an earlier SET. */
  lemma {:induction false} LocalScanSource(instrs: seq<Node>, dst: Node, e: Node, vars: seq<Node>, j: nat)
    requires j <= |instrs|
    ensures var r := LocalScan(instrs, dst, e, vars, j);
            r == e || exists k | 0 <= k < j :: instrs[k].op == SET && r == Kid(instrs[k], 0)
    decreases j
  {
    if j > 0 {
      var node := instrs[j - 1];
      if !IsKill(e, node, vars) && (node.op != SET || dst !in CollectVars(node)) {
        var e' := if node.op == SET && Kid(node, 1) == e then Kid(node, 0) else e;
        LocalScanSource(instrs, dst, e', vars, j - 1);
      }
    }
  }

  /** The part of `instrs[k..j]` the scan passed over: no kill of `e`, no SET mentioning `dst`. */
  predicate ScanClear(instrs: seq<Node>, dst: Node, e: Node, vars: seq<Node>, k: nat, j: nat)
    requires k <= j <= |instrs|
  {
    forall i | k <= i < j :: !IsKill(e, instrs[i], vars) && (instrs[i].op == SET ==> dst !in CollectVars(instrs[i]))
  }

  /**
   * A source is only replaced when an earlier SET computes that same source
   * and nothing from there on kills it or mentions the destination.
   */
  lemma {:induction false} LocalScanFound(instrs: seq<Node>, dst: Node, e: Node, vars: seq<Node>, j: nat)
    requires j <= |instrs|
    ensures LocalScan(instrs, dst, e, vars, j) != e ==>
              exists k | 0 <= k < j :: Computes(instrs[k], e) && ScanClear(instrs, dst, e, vars, k, j)
    decreases j
  {
    if j > 0 && LocalScan(instrs, dst, e, vars, j) != e {
      var node := instrs[j - 1];
      assert !IsKill(e, node, vars) && (node.op != SET || dst !in CollectVars(node));
      if node.op == SET && Kid(node, 1) == e {
        assert Computes(instrs[j - 1], e) && ScanClear(instrs, dst, e, vars, j - 1, j);
      } else {
        LocalScanFound(instrs, dst, e, vars, j - 1);
        var k :| 0 <= k < j - 1 && Computes(instrs[k], e) && ScanClear(instrs, dst, e, vars, k, j - 1);
        assert ScanClear(instrs, dst, e, vars, k, j);
      }
    }
  }

  /** The SETs local motion handles: a compound source, and not a load when `skipLoads`. */
  predicate LocalCandidate(node: Node, skipLoads: bool) {
    node.op == SET && !(skipLoads && IsLoad(node)) && NKids(Kid(node, 1)) != 0
  }

  /** The block after local motion has handled the instruction at `i`. */
  function LocalStep(instrs: seq<Node>, i: nat, skipLoads: bool): seq<Node>
    requires i < |instrs|
  {
    var node := instrs[i];
    if LocalCandidate(node, skipLoads) then
      instrs[i := WithKid(node, 1, LocalScan(instrs, Kid(node, 0), Kid(node, 1), CollectVars(Kid(node, 1)), i))]
    else instrs
  }

  /** The block after local motion has handled its first `i` instructions in order. */
  function LocalUpTo(instrs: seq<Node>, i: nat, skipLoads: bool): (r: seq<Node>)
    requires i <= |instrs|
    ensures |r| == |instrs|
  {
    if i == 0 then instrs else LocalStep(LocalUpTo(instrs, i - 1, skipLoads), i - 1, skipLoads)
  }

  /**
   * Local motion changes only the sources of SETs it handles: every
   * instruction keeps its operator, its destination and its number of kids.
   */
  lemma {:induction false} LocalUpToShape(instrs: seq<Node>, i: nat, skipLoads: bool)
    requires i <= |instrs|
    ensures var r := LocalUpTo(instrs, i, skipLoads);
            forall k | 0 <= k < |instrs| ::
              r[k] == instrs[k] ||
              (LocalCandidate(instrs[k], skipLoads) && r[k] == WithKid(instrs[k], 1, Kid(r[k], 1)))
  {
    if i > 0 {
      LocalUpToShape(instrs, i - 1, skipLoads);
      var prev := LocalUpTo(instrs, i - 1, skipLoads);
      var r := LocalUpTo(instrs, i, skipLoads);
      forall k | 0 <= k < |instrs|
        ensures r[k] == instrs[k] ||
                (LocalCandidate(instrs[k], skipLoads) && r[k] == WithKid(instrs[k], 1, Kid(r[k], 1)))
      {
        if k == i - 1 && LocalCandidate(prev[k], skipLoads) {
          assert r[k] == WithKid(prev[k], 1, Kid(r[k], 1));
        }
      }
    }
  }

  /** Local motion over the blocks `rpo[..i]` in order. */
  function LocalAll(code: seq<seq<Node>>, rpo: seq<nat>, i: nat, skipLoads: bool): (r: seq<seq<Node>>)
    requires i <= |rpo| && forall b | b in rpo :: b < |code|
    ensures |r| == |code|
  {
    if i == 0 then code
    else
      var c := LocalAll(code, rpo, i - 1, skipLoads);
      var b := rpo[i - 1];
      assert b in rpo;
      c[b := LocalUpTo(c[b], |c[b]|, skipLoads)]
  }

  // ---------------------------------------------------------------------
  // Insertion and replacement
  // ---------------------------------------------------------------------

  /** The temporary's SET: `expr` with a fresh register of `expr`'s type, numbered `sym`, as destination. */
  function NewTemp(expr: Node, sym: int): Node {
    WithKid(expr, 0, Reg(sym, expr.ty))
  }

  /** From `from` on, the first SET of `e`, unless a kill of `e` comes first. */
  function FirstHit(instrs: seq<Node>, e: Node, vars: seq<Node>, from: nat): (r: Option<nat>)
    ensures r.Some? ==> from <= r.value < |instrs| && Computes(instrs[r.value], e)
    ensures r.Some? ==> forall j | from <= j <= r.value :: !IsKill(e, instrs[j], vars)
    decreases |instrs| - from
  {
    if from >= |instrs| then None
    else if IsKill(e, instrs[from], vars) then None
    else if Computes(instrs[from], e) then Some(from)
    else FirstHit(instrs, e, vars, from + 1)
  }

  /** The forward search of `insertNewNode` succeeds exactly in a block where `e` is locally anticipable. */
  lemma {:induction false} FirstHitIsSame(instrs: seq<Node>, e: Node, vars: seq<Node>, from: nat)
    requires from <= |instrs|
    ensures FirstHit(instrs, e, vars, from).Some? <==>
      exists k | from <= k < |instrs| :: Computes(instrs[k], e) && forall j | from <= j <= k :: !IsKill(e, instrs[j], vars)
    decreases |instrs| - from
  {
    if from < |instrs| && !IsKill(e, instrs[from], vars) && !Computes(instrs[from], e) {
      FirstHitIsSame(instrs, e, vars, from + 1);
      if exists k | from <= k < |instrs| :: Computes(instrs[k], e) && forall j | from <= j <= k :: !IsKill(e, instrs[j], vars) {
        var k :| from <= k < |instrs| && Computes(instrs[k], e) && forall j | from <= j <= k :: !IsKill(e, instrs[j], vars);
        assert k != from;
      }
    }
  }

  /** The first instruction at or after `from` that is not a PROLOGUE. */
  function FirstNonPrologue(instrs: seq<Node>, from: nat): (r: Option<nat>)
    ensures r.Some? ==> from <= r.value < |instrs| && instrs[r.value].op != PROLOGUE
    ensures r.Some? ==> forall j | from <= j < r.value :: instrs[j].op == PROLOGUE
    ensures r.None? ==> forall j | from <= j < |instrs| :: instrs[j].op == PROLOGUE
    decreases |instrs| - from
  {
    if from >= |instrs| then None
    else if instrs[from].op != PROLOGUE then Some(from)
    else FirstNonPrologue(instrs, from + 1)
  }

  /**
   * Insertion at a block entry: before the first SET of the expression when
   * it comes before any kill, that SET then copying the temporary; otherwise
   * before the first instruction that is not a PROLOGUE.
   */
  function EntryInsert(instrs: seq<Node>, t: Node, vars: seq<Node>): seq<Node> {
    match FirstHit(instrs, Kid(t, 1), vars, 0)
    case Some(k) => instrs[..k] + [t, WithKid(instrs[k], 1, Kid(t, 0))] + instrs[k + 1..]
    case None =>
      match FirstNonPrologue(instrs, 0)
      case Some(m) => instrs[..m] + [t] + instrs[m..]
      case None => instrs
  }

  /** Insertion at a block exit: before the last instruction. */
  function ExitInsert(instrs: seq<Node>, t: Node): seq<Node> {
    var pos := if |instrs| == 0 then 0 else |instrs| - 1;
    instrs[..pos] + [t] + instrs[pos..]
  }

  /**
   * Where the temporary goes at a block entry: when the block computes the
   * expression before any kill, right before that computation, whose source
   * becomes the temporary's register, with no kill between the block start
   * and the temporary; otherwise after the leading PROLOGUEs, the rest of
   * the block unchanged.
   */
  lemma EntryInsertPlaces(instrs: seq<Node>, t: Node, vars: seq<Node>)
    ensures var r := EntryInsert(instrs, t, vars);
            NIsSame(Kid(t, 1), vars, instrs) ==>
              exists k | 0 <= k < |instrs| ::
                Computes(instrs[k], Kid(t, 1)) && (forall j | 0 <= j <= k :: !IsKill(Kid(t, 1), instrs[j], vars)) &&
                r == instrs[..k] + [t, WithKid(instrs[k], 1, Kid(t, 0))] + instrs[k + 1..]
    ensures var r := EntryInsert(instrs, t, vars);
            !NIsSame(Kid(t, 1), vars, instrs) ==>
              r == instrs ||
              exists m | 0 <= m < |instrs| ::
                (forall j | 0 <= j < m :: instrs[j].op == PROLOGUE) && r == instrs[..m] + [t] + instrs[m..]
  {
    FirstHitIsSame(instrs, Kid(t, 1), vars, 0);
  }

  /** `insertNewNode` for one block. */
  function InsertBlock(instrs: seq<Node>, nIns: bool, xIns: bool, t: Node, vars: seq<Node>): seq<Node> {
    var a := if nIns then EntryInsert(instrs, t, vars) else instrs;
    if xIns then ExitInsert(a, t) else a
  }

  /** `insertNewNode` over the blocks `rpo[..i]` in order. */
  function InsertAll(code: seq<seq<Node>>, rpo: seq<nat>, i: nat, nIns: seq<bool>, xIns: seq<bool>, t: Node, vars: seq<Node>)
    : (r: seq<seq<Node>>)
    requires i <= |rpo| && (forall b | b in rpo :: b < |code|) && |nIns| == |code| && |xIns| == |code|
    ensures |r| == |code|
  {
    if i == 0 then code
    else
      var c := InsertAll(code, rpo, i - 1, nIns, xIns, t, vars);
      var b := rpo[i - 1];
      assert b in rpo;
      c[b := InsertBlock(c[b], nIns[b], xIns[b], t, vars)]
  }

  /** From `from` on, the first SET of the temporary's expression, unless the temporary comes first. */
  function FirstReplace(instrs: seq<Node>, t: Node, from: nat): (r: Option<nat>)
    ensures r.Some? ==> from <= r.value < |instrs| && Computes(instrs[r.value], Kid(t, 1))
    ensures r.Some? ==> forall j | from <= j < r.value :: instrs[j] != t
    decreases |instrs| - from
  {
    if from >= |instrs| then None
    else if instrs[from] == t then None
    else if Computes(instrs[from], Kid(t, 1)) then Some(from)
    else FirstReplace(instrs, t, from + 1)
  }

  /** In `instrs[..upto]` from its end, the last SET of the temporary's expression, unless the temporary comes first. */
  function LastReplace(instrs: seq<Node>, t: Node, upto: nat): (r: Option<nat>)
    requires upto <= |instrs|
    ensures r.Some? ==> r.value < upto && Computes(instrs[r.value], Kid(t, 1))
    ensures r.Some? ==> forall j | r.value < j < upto :: instrs[j] != t
  {
    if upto == 0 then None
    else if instrs[upto - 1] == t then None
    else if Computes(instrs[upto - 1], Kid(t, 1)) then Some(upto - 1)
    else LastReplace(instrs, t, upto - 1)
  }

  /** The SET at `hit`, if any, copies the temporary's register instead. */
  function Redirect(instrs: seq<Node>, hit: Option<nat>, t: Node): (r: seq<Node>)
    requires hit.Some? ==> hit.value < |instrs|
    ensures |r| == |instrs|
  {
    if hit.Some? then instrs[hit.value := WithKid(instrs[hit.value], 1, Kid(t, 0))] else instrs
  }

  /** `replace` for one block: the entry variant scans forward, then the exit variant backward. */
  function ReplaceBlock(instrs: seq<Node>, nRep: bool, xRep: bool, t: Node): (r: seq<Node>)
    ensures |r| == |instrs|
  {
    var a := if nRep then Redirect(instrs, FirstReplace(instrs, t, 0), t) else instrs;
    if xRep then Redirect(a, LastReplace(a, t, |a|), t) else a
  }

  /**
   * Replacement changes nothing but the sources of SETs of the expression,
   * which become the temporary's register, and at most two of them.
   */
  lemma ReplaceBlockRedirects(instrs: seq<Node>, nRep: bool, xRep: bool, t: Node)
    ensures var r := ReplaceBlock(instrs, nRep, xRep, t);
            forall k | 0 <= k < |instrs| ::
              r[k] == instrs[k] || (Computes(instrs[k], Kid(t, 1)) && r[k] == WithKid(instrs[k], 1, Kid(t, 0)))
    ensures var r := ReplaceBlock(instrs, nRep, xRep, t);
            !nRep && !xRep ==> r == instrs
  {
  }

  /** `replace` over the blocks `rpo[..i]` in order. */
  function ReplaceAll(code: seq<seq<Node>>, rpo: seq<nat>, i: nat, nRep: seq<bool>, xRep: seq<bool>, t: Node)
    : (r: seq<seq<Node>>)
    requires i <= |rpo| && (forall b | b in rpo :: b < |code|) && |nRep| == |code| && |xRep| == |code|
    ensures |r| == |code|
  {
    if i == 0 then code
    else
      var c := ReplaceAll(code, rpo, i - 1, nRep, xRep, t);
      var b := rpo[i - 1];
      assert b in rpo;
      c[b := ReplaceBlock(c[b], nRep[b], xRep[b], t)]
  }

  /** Some block of `rpo` has an insertion point, so `insertNewNode` makes its temporary. */
  predicate AnyInsert(rpo: seq<nat>, nIns: seq<bool>, xIns: seq<bool>)
    requires forall b | b in rpo :: b < |nIns| && b < |xIns|
  {
    exists b | b in rpo :: nIns[b] || xIns[b]
  }

  /** Where an entry insertion puts the temporary, if it puts it anywhere. */
  function EntrySlot(instrs: seq<Node>, t: Node, vars: seq<Node>): Option<nat> {
    match FirstHit(instrs, Kid(t, 1), vars, 0)
    case Some(k) => Some(k)
    case None => FirstNonPrologue(instrs, 0)
  }

  /** The index of the element that was at `j` once one element is inserted at `slot`. */
  function Shift(j: nat, slot: Option<nat>): nat {
    if slot.Some? && slot.value <= j then j + 1 else j
  }

  /** The index, after `insertNewNode` has handled the block, of the instruction that was at `j`. */
  function InsertBlockPos(instrs: seq<Node>, nIns: bool, xIns: bool, t: Node, vars: seq<Node>, j: nat): nat {
    var a := if nIns then EntryInsert(instrs, t, vars) else instrs;
    var j1 := if nIns then Shift(j, EntrySlot(instrs, t, vars)) else j;
    if xIns then Shift(j1, Some(if |a| == 0 then 0 else |a| - 1)) else j1
  }

  /** An entry insertion keeps the instruction at `j`, redirected at most, at its shifted index. */
  lemma EntryPosTracks(instrs: seq<Node>, t: Node, vars: seq<Node>, j: nat)
    requires j < |instrs|
    ensures var a := EntryInsert(instrs, t, vars);
            var q := Shift(j, EntrySlot(instrs, t, vars));
            q < |a| && (a[q] == instrs[j] || a[q] == WithKid(instrs[j], 1, Kid(t, 0)))
  {
    match FirstHit(instrs, Kid(t, 1), vars, 0)
    case Some(k) =>
      var a := instrs[..k] + [t, WithKid(instrs[k], 1, Kid(t, 0))] + instrs[k + 1..];
      assert j < k ==> a[j] == instrs[j];
      assert j == k ==> a[j + 1] == WithKid(instrs[j], 1, Kid(t, 0));
      assert j > k ==> a[j + 1] == instrs[j];
    case None =>
      match FirstNonPrologue(instrs, 0)
      case Some(m) =>
        var a := instrs[..m] + [t] + instrs[m..];
        assert j < m ==> a[j] == instrs[j];
        assert j >= m ==> a[j + 1] == instrs[j];
      case None =>
  }

  /** An exit insertion keeps the instruction at `j` at its shifted index. */
  lemma ExitPosTracks(instrs: seq<Node>, t: Node, j: nat)
    requires j < |instrs|
    ensures var a := ExitInsert(instrs, t);
            var q := Shift(j, Some(|instrs| - 1));
            q < |a| && a[q] == instrs[j]
  {
    var pos := |instrs| - 1;
    var a := instrs[..pos] + [t] + instrs[pos..];
    assert j < pos ==> a[j] == instrs[j];
    assert j >= pos ==> a[j + 1] == instrs[j];
  }

  /**
   * The instruction at `j` is found at its new index, unchanged or, when it
   * was the computation an entry insertion redirected, copying the temporary.
   */
  lemma InsertBlockPosTracks(instrs: seq<Node>, nIns: bool, xIns: bool, t: Node, vars: seq<Node>, j: nat)
    requires j < |instrs|
    ensures var r := InsertBlock(instrs, nIns, xIns, t, vars);
            var q := InsertBlockPos(instrs, nIns, xIns, t, vars, j);
            q < |r| && (r[q] == instrs[j] || r[q] == WithKid(instrs[j], 1, Kid(t, 0)))
  {
    var a := if nIns then EntryInsert(instrs, t, vars) else instrs;
    var j1 := if nIns then Shift(j, EntrySlot(instrs, t, vars)) else j;
    if nIns {
      EntryPosTracks(instrs, t, vars, j);
    }
    if xIns {
      ExitPosTracks(a, t, j1);
    }
  }

  /** The index, after `insertNewNode` has handled the blocks `rpo[..i]`, of the instruction that was at `j` in block `b`. */
  function InsertAllPos(code: seq<seq<Node>>, rpo: seq<nat>, i: nat, nIns: seq<bool>, xIns: seq<bool>, t: Node,
                        vars: seq<Node>, b: nat, j: nat): nat
    requires i <= |rpo| && (forall c | c in rpo :: c < |code|) && |nIns| == |code| && |xIns| == |code|
  {
    if i == 0 then j
    else
      var c := InsertAll(code, rpo, i - 1, nIns, xIns, t, vars);
      var j' := InsertAllPos(code, rpo, i - 1, nIns, xIns, t, vars, b, j);
      assert rpo[i - 1] in rpo;
      if rpo[i - 1] == b then InsertBlockPos(c[b], nIns[b], xIns[b], t, vars, j') else j'
  }

  /** Every instruction of `instrs` was in `before`, or is the temporary `t`, or has a leaf as its source. */
  predicate Origin(instrs: seq<Node>, before: seq<Node>, t: Node) {
    forall x | x in instrs :: x in before || x == t || IsLeaf(Kid(x, 1))
  }

  lemma OriginTrans(a: seq<Node>, b: seq<Node>, c: seq<Node>, t: Node)
    requires Origin(a, b, t) && Origin(b, c, t)
    ensures Origin(a, c, t)
  {
  }

  /** An entry insertion adds only the temporary and the redirected computation. */
  lemma EntryOrigin(instrs: seq<Node>, t: Node, vars: seq<Node>)
    requires IsLeaf(Kid(t, 0))
    ensures Origin(EntryInsert(instrs, t, vars), instrs, t)
  {
    match FirstHit(instrs, Kid(t, 1), vars, 0)
    case Some(k) =>
      assert EntryInsert(instrs, t, vars) == instrs[..k] + [t, WithKid(instrs[k], 1, Kid(t, 0))] + instrs[k + 1..];
    case None =>
  }

  /** One block's insertion adds only the temporary and the redirected computation. */
  lemma InsertBlockOrigin(instrs: seq<Node>, nIns: bool, xIns: bool, t: Node, vars: seq<Node>)
    requires IsLeaf(Kid(t, 0))
    ensures Origin(InsertBlock(instrs, nIns, xIns, t, vars), instrs, t)
  {
    var a := if nIns then EntryInsert(instrs, t, vars) else instrs;
    if nIns {
      EntryOrigin(instrs, t, vars);
    }
    OriginTrans(InsertBlock(instrs, nIns, xIns, t, vars), a, instrs, t);
  }

  /** Insertion adds only the temporary and SETs whose source became the temporary's register. */
  lemma {:induction false} InsertAllOrigin(code: seq<seq<Node>>, rpo: seq<nat>, i: nat, nIns: seq<bool>, xIns: seq<bool>,
                                           t: Node, vars: seq<Node>, b: nat)
    requires i <= |rpo| && (forall c | c in rpo :: c < |code|) && |nIns| == |code| && |xIns| == |code|
    requires b < |code| && IsLeaf(Kid(t, 0))
    ensures Origin(InsertAll(code, rpo, i, nIns, xIns, t, vars)[b], code[b], t)
  {
    if i > 0 {
      InsertAllOrigin(code, rpo, i - 1, nIns, xIns, t, vars, b);
      var c := InsertAll(code, rpo, i - 1, nIns, xIns, t, vars);
      assert rpo[i - 1] in rpo;
      if rpo[i - 1] == b {
        InsertBlockOrigin(c[b], nIns[b], xIns[b], t, vars);
        OriginTrans(InsertAll(code, rpo, i, nIns, xIns, t, vars)[b], c[b], code[b], t);
      }
    }
  }

  /** Replacement only redirects sources to the temporary's register. */
  lemma {:induction false} ReplaceAllOrigin(code: seq<seq<Node>>, rpo: seq<nat>, i: nat, nRep: seq<bool>, xRep: seq<bool>,
                                            t: Node, b: nat)
    requires i <= |rpo| && (forall c | c in rpo :: c < |code|) && |nRep| == |code| && |xRep| == |code|
    requires b < |code| && IsLeaf(Kid(t, 0))
    ensures Origin(ReplaceAll(code, rpo, i, nRep, xRep, t)[b], code[b], t)
  {
    if i > 0 {
      ReplaceAllOrigin(code, rpo, i - 1, nRep, xRep, t, b);
      var c := ReplaceAll(code, rpo, i - 1, nRep, xRep, t);
      assert rpo[i - 1] in rpo;
      if rpo[i - 1] == b {
        ReplaceBlockOrigin(c[b], nRep[b], xRep[b], t);
        OriginTrans(ReplaceAll(code, rpo, i, nRep, xRep, t)[b], c[b], code[b], t);
      }
    }
  }

  /** One block's replacement only redirects sources to the temporary's register. */
  lemma ReplaceBlockOrigin(instrs: seq<Node>, nRep: bool, xRep: bool, t: Node)
    requires IsLeaf(Kid(t, 0))
    ensures Origin(ReplaceBlock(instrs, nRep, xRep, t), instrs, t)
  {
    ReplaceBlockRedirects(instrs, nRep, xRep, t);
    var r := ReplaceBlock(instrs, nRep, xRep, t);
    forall x | x in r ensures x in instrs || x == t || IsLeaf(Kid(x, 1)) {
      var k :| 0 <= k < |r| && r[k] == x;
    }
  }

  /** The SETs global motion handles: a compound integer or float source not handled yet, and not a load when `skipLoads`. */
  predicate GlobalCandidate(node: Node, seen: seq<Node>, skipLoads: bool) {
    node.op == SET && !(skipLoads && IsLoad(node)) && NKids(Kid(node, 1)) != 0 &&
    Kid(node, 1) !in seen && CheckType(node)
  }

  /** No expression is listed twice. */
  predicate Distinct(s: seq<Node>) {
    forall i, j | 0 <= i < j < |s| :: s[i] != s[j]
  }

  /** The sources global motion would still handle in `instrs`. */
  function Cands(instrs: seq<Node>, seen: seq<Node>, skipLoads: bool): set<Node> {
    set k | 0 <= k < |instrs| && GlobalCandidate(instrs[k], seen, skipLoads) :: Kid(instrs[k], 1)
  }

  /**
   * Handling a candidate shrinks the sources left to handle: the temporary's
   * copies and the redirected SETs are never candidates, and every other
   * instruction was already there.
   */
  lemma CandsShrink(before: seq<Node>, after: seq<Node>, seen: seq<Node>, t: Node, skipLoads: bool, i: nat)
    requires i < |before| && GlobalCandidate(before[i], seen, skipLoads)
    requires Origin(after, before, t) && Kid(t, 1) == Kid(before[i], 1)
    ensures Cands(after, seen + [Kid(before[i], 1)], skipLoads) < Cands(before, seen, skipLoads)
  {
    var seen' := seen + [Kid(before[i], 1)];
    forall e | e in Cands(after, seen', skipLoads) ensures e in Cands(before, seen, skipLoads) {
      var k :| 0 <= k < |after| && GlobalCandidate(after[k], seen', skipLoads) && Kid(after[k], 1) == e;
      assert after[k] in after;
      var m :| 0 <= m < |before| && before[m] == after[k];
    }
    assert Kid(before[i], 1) in Cands(before, seen, skipLoads);
  }

  // ---------------------------------------------------------------------
  // Searches the code motion runs
  // ---------------------------------------------------------------------

  /** The forward scan of `insertNewNode` at a block entry. */
  method FindHit(instrs: seq<Node>, e: Node, vars: seq<Node>) returns (r: Option<nat>)
    ensures r == FirstHit(instrs, e, vars, 0)
  {
    var k := 0;
    while k < |instrs|
      invariant 0 <= k <= |instrs|
      invariant FirstHit(instrs, e, vars, 0) == FirstHit(instrs, e, vars, k)
    {
      if IsKill(e, instrs[k], vars) {
        return None;
      }
      if Computes(instrs[k], e) {
        return Some(k);
      }
      k := k + 1;
    }
    return None;
  }

  /** The scan of `insertNewNode` for the first instruction that is not a PROLOGUE. */
  method FindNonPrologue(instrs: seq<Node>) returns (r: Option<nat>)
    ensures r == FirstNonPrologue(instrs, 0)
  {
    var k := 0;
    while k < |instrs|
      invariant 0 <= k <= |instrs|
      invariant FirstNonPrologue(instrs, 0) == FirstNonPrologue(instrs, k)
    {
      if instrs[k].op != PROLOGUE {
        return Some(k);
      }
      k := k + 1;
    }
    return None;
  }

  /** The entry insertion of `insertNewNode` on one block. */
  method EntryInto(instrs: seq<Node>, t: Node, vars: seq<Node>) returns (r: seq<Node>)
    ensures r == EntryInsert(instrs, t, vars)
  {
    r := instrs;
    var hit := FindHit(r, Kid(t, 1), vars);
    match hit
    case Some(k) =>
      r := r[..k] + [t, WithKid(r[k], 1, Kid(t, 0))] + r[k + 1..];
    case None =>
      var m := FindNonPrologue(r);
      if m.Some? {
        r := r[..m.value] + [t] + r[m.value..];
      }
  }

  /** `insertNewNode` on one block: the entry insertion, then the exit insertion. */
  method InsertInto(instrs: seq<Node>, nIns: bool, xIns: bool, t: Node, vars: seq<Node>) returns (r: seq<Node>)
    ensures r == InsertBlock(instrs, nIns, xIns, t, vars)
  {
    r := instrs;
    if nIns {
      r := EntryInto(r, t, vars);
    }
    if xIns {
      var pos := if |r| == 0 then 0 else |r| - 1;
      r := r[..pos] + [t] + r[pos..];
    }
  }

  /** The forward scan of `replace`. */
  method FindFirstReplace(instrs: seq<Node>, t: Node) returns (r: Option<nat>)
    ensures r == FirstReplace(instrs, t, 0)
  {
    var k := 0;
    while k < |instrs|
      invariant 0 <= k <= |instrs|
      invariant FirstReplace(instrs, t, 0) == FirstReplace(instrs, t, k)
    {
      if instrs[k] == t {
        return None;
      }
      if Computes(instrs[k], Kid(t, 1)) {
        return Some(k);
      }
      k := k + 1;
    }
    return None;
  }

  /** The backward scan of `replace`. */
  method FindLastReplace(instrs: seq<Node>, t: Node) returns (r: Option<nat>)
    ensures r == LastReplace(instrs, t, |instrs|)
  {
    var k := |instrs|;
    while k > 0
      invariant 0 <= k <= |instrs|
      invariant LastReplace(instrs, t, |instrs|) == LastReplace(instrs, t, k)
    {
      if instrs[k - 1] == t {
        return None;
      }
      if Computes(instrs[k - 1], Kid(t, 1)) {
        return Some(k - 1);
      }
      k := k - 1;
    }
    return None;
  }

  /** The backward scan of `localCM` from the instruction at `p`. */
  method Scan(instrs: seq<Node>, p: nat, vars: seq<Node>) returns (src: Node)
    requires p < |instrs|
    ensures src == LocalScan(instrs, Kid(instrs[p], 0), Kid(instrs[p], 1), vars, p)
  {
    var dst := Kid(instrs[p], 0);
    src := Kid(instrs[p], 1);
    var j := p;
    while j > 0
      invariant 0 <= j <= p
      invariant LocalScan(instrs, dst, Kid(instrs[p], 1), vars, p) == LocalScan(instrs, dst, src, vars, j)
    {
      var node := instrs[j - 1];
      if IsKill(src, node, vars) {
        return;
      }
      if node.op == SET {
        if dst in CollectVars(node) {
          return;
        }
        if Kid(node, 1) == src {
          src := Kid(node, 0);
        }
      }
      j := j - 1;
    }
  }

  // ---------------------------------------------------------------------
  // The pass object
  // ---------------------------------------------------------------------

  /**
   * The state of one PRE run over `f`. Each `Comp` method fills fresh
   * arrays and keeps their final contents, one entry per block. Fresh
   * temporaries are numbered from `nextSym` on.
   */
  class Pre {
    const f: Function
    var nextSym: int
    var transp: seq<bool>
    var nIsSame: seq<bool>
    var xIsSame: seq<bool>
    var nDSafe: seq<bool>
    var xDSafe: seq<bool>
    var nUSafe: seq<bool>
    var xUSafe: seq<bool>
    var nEarliest: seq<bool>
    var xEarliest: seq<bool>
    var nDelayed: seq<bool>
    var xDelayed: seq<bool>
    var nLatest: seq<bool>
    var xLatest: seq<bool>
    var nIsolated: seq<bool>
    var xIsolated: seq<bool>
    var nInsert: seq<bool>
    var xInsert: seq<bool>
    var nReplace: seq<bool>
    var xReplace: seq<bool>

    ghost predicate Valid()
      reads this, f
    {
      f.Valid() &&
      |transp| == f.g.n && |nIsSame| == f.g.n && |xIsSame| == f.g.n &&
      |nDSafe| == f.g.n && |xDSafe| == f.g.n && |nUSafe| == f.g.n && |xUSafe| == f.g.n &&
      |nEarliest| == f.g.n && |xEarliest| == f.g.n && |nDelayed| == f.g.n && |xDelayed| == f.g.n &&
      |nLatest| == f.g.n && |xLatest| == f.g.n && |nIsolated| == f.g.n && |xIsolated| == f.g.n &&
      |nInsert| == f.g.n && |xInsert| == f.g.n && |nReplace| == f.g.n && |xReplace| == f.g.n
    }

    /** `PRE(env, sstab, f)` followed by `init`: every property starts false. */
    constructor (f: Function, firstSym: int)
      requires f.Valid()
      ensures Valid() && this.f == f && nextSym == firstSym
    {
      this.f := f;
      nextSym := firstSym;
      var none := seq(f.g.n, _ => false);
      transp, nIsSame, xIsSame := none, none, none;
      nDSafe, xDSafe, nUSafe, xUSafe := none, none, none, none;
      nEarliest, xEarliest, nDelayed, xDelayed := none, none, none, none;
      nLatest, xLatest, nIsolated, xIsolated := none, none, none, none;
      nInsert, xInsert, nReplace, xReplace := none, none, none, none;
    }

    /** `compLocalProperty`: the local properties of `exp` in every block. */
    method CompLocalProperty(exp: Node, vars: seq<Node>)
      requires Valid()
      modifies this`transp, this`nIsSame, this`xIsSame
      ensures Valid() && LocalHolds(f.g, f.code, exp, vars, transp, nIsSame, xIsSame)
    {
      var t, ns, xs := LocalProperty(f.g.rpo, f.code, exp, vars);
      transp, nIsSame, xIsSame := t[..], ns[..], xs[..];
    }

    /** `compDSafe`: iterate from all true until a pass changes nothing. */
    method CompDSafe()
      requires Valid()
      modifies this`nDSafe, this`xDSafe
      ensures Valid() && DSafeHolds(f.g, transp, nIsSame, xIsSame, nDSafe, xDSafe)
    {
      var x, n := Solve(DSafe, f.g, Props(transp, nIsSame, xIsSame, [], []));
      xDSafe, nDSafe := x[..], n[..];
      SolvedDSafe(f.g, Props(transp, nIsSame, xIsSame, [], []), xDSafe, nDSafe);
    }

    /** `compUSafe`: iterate from all true until a pass changes nothing. */
    method CompUSafe()
      requires Valid()
      modifies this`nUSafe, this`xUSafe
      ensures Valid() && USafeHolds(f.g, transp, nIsSame, xIsSame, nUSafe, xUSafe)
    {
      var n, x := Solve(USafe, f.g, Props(transp, nIsSame, xIsSame, [], []));
      nUSafe, xUSafe := n[..], x[..];
      SolvedUSafe(f.g, Props(transp, nIsSame, xIsSame, [], []), nUSafe, xUSafe);
    }

    /** `compEarliest`: a single pass over the block list. */
    method CompEarliest()
      requires Valid()
      modifies this`nEarliest, this`xEarliest
      ensures Valid() && EarliestHolds(f.g, transp, nDSafe, xDSafe, nUSafe, xUSafe, nEarliest, xEarliest)
    {
      var n, x := Earliest(f.g, transp, nUSafe, xUSafe, nDSafe, xDSafe);
      nEarliest, xEarliest := n[..], x[..];
    }

    /** `compDelayed`: iterate from all true until a pass changes nothing. */
    method CompDelayed()
      requires Valid()
      modifies this`nDelayed, this`xDelayed
      ensures Valid() && DelayedHolds(f.g, transp, nIsSame, xIsSame, nEarliest, xEarliest, nDelayed, xDelayed)
    {
      var p := Props(transp, nIsSame, xIsSame, nEarliest, xEarliest);
      var n, x := Solve(Delayed, f.g, p);
      nDelayed, xDelayed := n[..], x[..];
      SolvedDelayed(f.g, p, nDelayed, xDelayed);
    }

    /** `compLatest`: a single pass over the block list from its end. */
    method CompLatest()
      requires Valid()
      modifies this`nLatest, this`xLatest
      ensures Valid() && LatestHolds(f.g, nIsSame, xIsSame, nDelayed, xDelayed, nLatest, xLatest)
    {
      var n, x := Latest(f.g, nIsSame, xIsSame, nDelayed, xDelayed);
      nLatest, xLatest := n[..], x[..];
    }

    /** `compIsolated`: iterate from all true until a pass changes nothing. */
    method CompIsolated()
      requires Valid()
      modifies this`nIsolated, this`xIsolated
      ensures Valid() && IsolatedHolds(f.g, transp, nIsSame, xIsSame, nEarliest, xEarliest, nIsolated, xIsolated)
    {
      var p := Props(transp, nIsSame, xIsSame, nEarliest, xEarliest);
      var x, n := Solve(Isolated, f.g, p);
      xIsolated, nIsolated := x[..], n[..];
      SolvedIsolated(f.g, p, xIsolated, nIsolated);
    }

    /** `compInsert` */
    method CompInsert()
      requires Valid()
      modifies this`nInsert, this`xInsert
      ensures Valid() && InsertHolds(f.g, nLatest, xLatest, nIsolated, xIsolated, nInsert, xInsert)
    {
      var n := InsertPoints(f.g.rpo, f.g.n, nLatest, nIsolated);
      var x := InsertPoints(f.g.rpo, f.g.n, xLatest, xIsolated);
      nInsert, xInsert := n[..], x[..];
    }

    /** `compReplace` */
    method CompReplace()
      requires Valid()
      modifies this`nReplace, this`xReplace
      ensures Valid() && ReplaceHolds(f.g, nIsSame, xIsSame, nLatest, xLatest, nIsolated, xIsolated, nReplace, xReplace)
    {
      var n := ReplacePoints(f.g.rpo, f.g.n, nIsSame, nLatest, nIsolated);
      var x := ReplacePoints(f.g.rpo, f.g.n, xIsSame, xLatest, xIsolated);
      nReplace, xReplace := n[..], x[..];
    }

    /** `pre`: every property of `exp`, in dependency order. */
    method Analyze(exp: Node, vars: seq<Node>)
      requires Valid()
      modifies this`transp, this`nIsSame, this`xIsSame, this`nDSafe, this`xDSafe, this`nUSafe, this`xUSafe
      modifies this`nEarliest, this`xEarliest, this`nDelayed, this`xDelayed, this`nLatest, this`xLatest
      modifies this`nIsolated, this`xIsolated, this`nInsert, this`xInsert, this`nReplace, this`xReplace
      ensures Valid() && LocalHolds(f.g, f.code, exp, vars, transp, nIsSame, xIsSame)
      ensures DSafeHolds(f.g, transp, nIsSame, xIsSame, nDSafe, xDSafe)
      ensures USafeHolds(f.g, transp, nIsSame, xIsSame, nUSafe, xUSafe)
      ensures EarliestHolds(f.g, transp, nDSafe, xDSafe, nUSafe, xUSafe, nEarliest, xEarliest)
      ensures DelayedHolds(f.g, transp, nIsSame, xIsSame, nEarliest, xEarliest, nDelayed, xDelayed)
      ensures LatestHolds(f.g, nIsSame, xIsSame, nDelayed, xDelayed, nLatest, xLatest)
      ensures IsolatedHolds(f.g, transp, nIsSame, xIsSame, nEarliest, xEarliest, nIsolated, xIsolated)
      ensures InsertHolds(f.g, nLatest, xLatest, nIsolated, xIsolated, nInsert, xInsert)
      ensures ReplaceHolds(f.g, nIsSame, xIsSame, nLatest, xLatest, nIsolated, xIsolated, nReplace, xReplace)
    {
      AnalyzeSafety(exp, vars);
      AnalyzePlacement();
    }

    /** The first half of `pre`: local properties, safety and earliestness. */
    method AnalyzeSafety(exp: Node, vars: seq<Node>)
      requires Valid()
      modifies this`transp, this`nIsSame, this`xIsSame, this`nDSafe, this`xDSafe, this`nUSafe, this`xUSafe
      modifies this`nEarliest, this`xEarliest
      ensures Valid() && LocalHolds(f.g, f.code, exp, vars, transp, nIsSame, xIsSame)
      ensures DSafeHolds(f.g, transp, nIsSame, xIsSame, nDSafe, xDSafe)
      ensures USafeHolds(f.g, transp, nIsSame, xIsSame, nUSafe, xUSafe)
      ensures EarliestHolds(f.g, transp, nDSafe, xDSafe, nUSafe, xUSafe, nEarliest, xEarliest)
    {
      CompLocalProperty(exp, vars);
      CompDSafe();
      CompUSafe();
      CompEarliest();
    }

    /** The second half of `pre`: delayedness, latestness, isolation and the resulting points. */
    method AnalyzePlacement()
      requires Valid()
      modifies this`nDelayed, this`xDelayed, this`nLatest, this`xLatest
      modifies this`nIsolated, this`xIsolated, this`nInsert, this`xInsert, this`nReplace, this`xReplace
      ensures Valid()
      ensures DelayedHolds(f.g, transp, nIsSame, xIsSame, nEarliest, xEarliest, nDelayed, xDelayed)
      ensures LatestHolds(f.g, nIsSame, xIsSame, nDelayed, xDelayed, nLatest, xLatest)
      ensures IsolatedHolds(f.g, transp, nIsSame, xIsSame, nEarliest, xEarliest, nIsolated, xIsolated)
      ensures InsertHolds(f.g, nLatest, xLatest, nIsolated, xIsolated, nInsert, xInsert)
      ensures ReplaceHolds(f.g, nIsSame, xIsSame, nLatest, xLatest, nIsolated, xIsolated, nReplace, xReplace)
    {
      AnalyzeDelay();
      AnalyzePoints();
    }

    /** The second stage of `pre`: delayedness and latestness. */
    method AnalyzeDelay()
      requires Valid()
      modifies this`nDelayed, this`xDelayed, this`nLatest, this`xLatest
      ensures Valid()
      ensures DelayedHolds(f.g, transp, nIsSame, xIsSame, nEarliest, xEarliest, nDelayed, xDelayed)
      ensures LatestHolds(f.g, nIsSame, xIsSame, nDelayed, xDelayed, nLatest, xLatest)
    {
      CompDelayed();
      CompLatest();
    }

    /** The last stage of `pre`: isolation and the insertion and replacement points. */
    method AnalyzePoints()
      requires Valid()
      modifies this`nIsolated, this`xIsolated, this`nInsert, this`xInsert, this`nReplace, this`xReplace
      ensures Valid()
      ensures IsolatedHolds(f.g, transp, nIsSame, xIsSame, nEarliest, xEarliest, nIsolated, xIsolated)
      ensures InsertHolds(f.g, nLatest, xLatest, nIsolated, xIsolated, nInsert, xInsert)
      ensures ReplaceHolds(f.g, nIsSame, xIsSame, nLatest, xLatest, nIsolated, xIsolated, nReplace, xReplace)
    {
      CompIsolated();
      CompInsert();
      CompReplace();
    }

    /** `localCM` on the SET at position `p` of block `b`, whose source has the operand registers `vars`. */
    method LocalCM(b: nat, p: nat, vars: seq<Node>)
      requires Valid() && b < f.g.n && p < |f.code[b]|
      modifies f
      ensures Valid()
      ensures var instrs := old(f.code[b]);
              f.code == old(f.code)[b := instrs[p := WithKid(instrs[p], 1,
                                           LocalScan(instrs, Kid(instrs[p], 0), Kid(instrs[p], 1), vars, p))]]
    {
      var instrs := f.code[b];
      var src := Scan(instrs, p, vars);
      f.code := f.code[b := instrs[p := WithKid(instrs[p], 1, src)]];
    }

    /**
     * The per-block loop of `localCodeMotion` (and of the scalar driver when
     * `skipLoads`): every handled SET of block `b`, in order, gets its source
     * from the scan back over the instructions already handled.
     */
    method LocalBlock(b: nat, skipLoads: bool)
      requires Valid() && b < f.g.n
      modifies f
      ensures Valid()
      ensures f.code == old(f.code)[b := LocalUpTo(old(f.code[b]), |old(f.code[b])|, skipLoads)]
    {
      ghost var start := f.code[b];
      var p := 0;
      while p < |f.code[b]|
        invariant Valid() && |f.code[b]| == |start| && 0 <= p <= |start|
        invariant f.code == old(f.code)[b := LocalUpTo(start, p, skipLoads)]
      {
        var node := f.code[b][p];
        if LocalCandidate(node, skipLoads) {
          LocalCM(b, p, CollectVars(Kid(node, 1)));
        }
        p := p + 1;
      }
    }

    /** `localCodeMotion`: local motion over the blocks in reverse postorder. */
    method LocalCodeMotion()
      requires Valid()
      modifies f
      ensures Valid() && f.code == LocalAll(old(f.code), f.g.rpo, |f.g.rpo|, false)
    {
      var i := 0;
      while i < |f.g.rpo|
        invariant Valid() && 0 <= i <= |f.g.rpo|
        invariant f.code == LocalAll(old(f.code), f.g.rpo, i, false)
      {
        assert f.g.rpo[i] in f.g.rpo;
        LocalBlock(f.g.rpo[i], false);
        i := i + 1;
      }
    }

    /**
     * `insertNewNode`: the temporary `expr` with a fresh register as its
     * destination goes to every insertion point of the blocks in reverse
     * postorder. It is made (and its symbol taken) only when some block has
     * an insertion point.
     */
    method InsertNewNode(expr: Node, vars: seq<Node>) returns (t: Option<Node>)
      requires Valid()
      modifies f, this`nextSym
      ensures Valid()
      ensures f.code == InsertAll(old(f.code), f.g.rpo, |f.g.rpo|, nInsert, xInsert, NewTemp(expr, old(nextSym)), vars)
      ensures t.Some? <==> AnyInsert(f.g.rpo, nInsert, xInsert)
      ensures t.Some? ==> t.value == NewTemp(expr, old(nextSym)) && nextSym == old(nextSym) + 1
      ensures t.None? ==> nextSym == old(nextSym)
    {
      var tmp := NewTemp(expr, nextSym);
      var rpo := f.g.rpo;
      t := None;
      var i := 0;
      while i < |rpo|
        invariant Valid() && 0 <= i <= |rpo| && nextSym == old(nextSym)
        invariant f.code == InsertAll(old(f.code), rpo, i, nInsert, xInsert, tmp, vars)
        invariant forall c | c in rpo[..i] :: c < f.g.n
        invariant t.Some? <==> AnyInsert(rpo[..i], nInsert, xInsert)
        invariant t.Some? ==> t.value == tmp
      {
        var b := rpo[i];
        assert b in rpo && rpo[..i + 1] == rpo[..i] + [b];
        var instrs := InsertInto(f.code[b], nInsert[b], xInsert[b], tmp, vars);
        if nInsert[b] || xInsert[b] {
          t := Some(tmp);
        }
        f.code := f.code[b := instrs];
        i := i + 1;
      }
      assert rpo[..i] == rpo;
      if t.Some? {
        nextSym := nextSym + 1;
      }
    }

    /**
     * `replace`: in every block with a replacement point, the first SET of
     * the temporary's expression at the entry and the last one at the exit,
     * not passing the temporary itself, copy the temporary's register.
     */
    method Replace(t: Node)
      requires Valid()
      modifies f
      ensures Valid()
      ensures f.code == ReplaceAll(old(f.code), f.g.rpo, |f.g.rpo|, nReplace, xReplace, t)
    {
      var rpo := f.g.rpo;
      var i := 0;
      while i < |rpo|
        invariant Valid() && 0 <= i <= |rpo|
        invariant f.code == ReplaceAll(old(f.code), rpo, i, nReplace, xReplace, t)
      {
        var b := rpo[i];
        assert b in rpo;
        var instrs := f.code[b];
        if nReplace[b] {
          var hit := FindFirstReplace(instrs, t);
          instrs := Redirect(instrs, hit, t);
        }
        if xReplace[b] {
          var hit := FindLastReplace(instrs, t);
          instrs := Redirect(instrs, hit, t);
        }
        f.code := f.code[b := instrs];
        i := i + 1;
      }
    }

    /**
     * The body of global motion for the SET at position `i` of block `b`:
     * `pre` on its source, `insertNewNode`, and `replace` only when a
     * temporary was made. `pos` is where that SET is afterwards.
     */
    method MoveExpression(b: nat, i: nat) returns (t: Option<Node>, pos: nat)
      requires Valid() && b < f.g.n && i < |f.code[b]|
      modifies this, f
      ensures Valid() && old(nextSym) <= nextSym
      ensures var node := old(f.code[b][i]);
              var vars := CollectVars(Kid(node, 1));
              var tmp := NewTemp(node, old(nextSym));
              var ins := InsertAll(old(f.code), f.g.rpo, |f.g.rpo|, nInsert, xInsert, tmp, vars);
              LocalHolds(f.g, old(f.code), Kid(node, 1), vars, transp, nIsSame, xIsSame) &&
              pos == InsertAllPos(old(f.code), f.g.rpo, |f.g.rpo|, nInsert, xInsert, tmp, vars, b, i) &&
              (t.Some? <==> AnyInsert(f.g.rpo, nInsert, xInsert)) &&
              (t.Some? ==> t.value == tmp && f.code == ReplaceAll(ins, f.g.rpo, |f.g.rpo|, nReplace, xReplace, tmp)) &&
              (t.None? ==> f.code == ins)
      ensures Origin(f.code[b], old(f.code[b]), NewTemp(old(f.code[b][i]), old(nextSym)))
    {
      var code0 := f.code;
      var node := code0[b][i];
      var vars := CollectVars(Kid(node, 1));
      var tmp := NewTemp(node, nextSym);
      Analyze(Kid(node, 1), vars);
      t := InsertNewNode(node, vars);
      InsertAllOrigin(code0, f.g.rpo, |f.g.rpo|, nInsert, xInsert, tmp, vars, b);
      pos := InsertAllPos(code0, f.g.rpo, |f.g.rpo|, nInsert, xInsert, tmp, vars, b, i);
      if t.Some? {
        ghost var ins := f.code;
        Replace(t.value);
        ReplaceAllOrigin(ins, f.g.rpo, |f.g.rpo|, nReplace, xReplace, tmp, b);
        OriginTrans(f.code[b], ins[b], code0[b], tmp);
      }
    }

    /**
     * The per-block loop of global motion: every SET of block `b` whose
     * compound integer or float source is not in `seen` (nor a load, when
     * `skipLoads`) is handled once, its source joining `seen`. The loop
     * follows the list as it grows, continuing after the handled SET.
     */
    method GlobalBlock(b: nat, seen0: seq<Node>, skipLoads: bool) returns (seen: seq<Node>)
      requires Valid() && b < f.g.n && Distinct(seen0)
      modifies this, f
      ensures Valid() && Distinct(seen) && seen0 <= seen && old(nextSym) <= nextSym
    {
      seen := seen0;
      var i := 0;
      while i < |f.code[b]|
        invariant Valid() && b < |f.code| && 0 <= i && Distinct(seen) && seen0 <= seen && old(nextSym) <= nextSym
        decreases Cands(f.code[b], seen, skipLoads), |f.code[b]| - i
      {
        var node := f.code[b][i];
        if !GlobalCandidate(node, seen, skipLoads) {
          i := i + 1;
        } else {
          ghost var before := f.code[b];
          ghost var seenBefore := seen;
          ghost var tmp := NewTemp(node, nextSym);
          seen := seen + [Kid(node, 1)];
          var t, pos := MoveExpression(b, i);
          CandsShrink(before, f.code[b], seenBefore, tmp, skipLoads, i);
          i := pos + 1;
        }
      }
    }

    /** `globalCodeMotion`: one list of handled sources shared by every block in reverse postorder. */
    method GlobalCodeMotion()
      requires Valid()
      modifies this, f
      ensures Valid() && old(nextSym) <= nextSym
    {
      var seen: seq<Node> := [];
      var i := 0;
      while i < |f.g.rpo|
        invariant Valid() && 0 <= i <= |f.g.rpo| && Distinct(seen) && old(nextSym) <= nextSym
      {
        assert f.g.rpo[i] in f.g.rpo;
        seen := GlobalBlock(f.g.rpo[i], seen, false);
        i := i + 1;
      }
    }

    /** `invoke`: local motion over every block, then global motion. */
    method Invoke()
      requires Valid()
      modifies this, f
      ensures Valid() && old(nextSym) <= nextSym
    {
      LocalCodeMotion();
      GlobalCodeMotion();
    }
  }
}
