// Demand-driven partial redundancy elimination on non-SSA form. Each block
// keeps tables of the expressions it computes; for every computation a
// question "is this expression available here?" travels backwards over the
// predecessors, and when the answer is yes on some paths and can be made
// yes on the others, a temporary is computed on those paths and the
// original computation is replaced by it.
module DDPRE {
  import opened Lir
  import opened Cfg
  import opened DDCopyProp

  // ---------------------------------------------------------------------
  // Kills.

  /** `checkType`: the instruction's type is an integer or a floating-point type. */
  predicate CheckType(exp: Node) {
    exp.ty.IntTy? || exp.ty.FloatTy?
  }

  /**
   * `kill(expr, node, vars)`: `node` invalidates the source of the SET
   * `expr`, whose operand registers are `vars`. A memory source is killed
   * by every call and every store; any source by an assignment, or a call
   * result, into one of its operands.
   */
  predicate KillsExpr(expr: Node, node: Node, vars: seq<Node>) {
    || (Kid(expr, 1).op == MEM && (node.op == CALL || IsStore(node)))
    || (node.op == SET && Kid(node, 0) in vars)
    || (HasResult(node) && CallResult(node) in vars)
  }

  /** A source that is not a load is killed only by redefining a register it reads. */
  lemma KillsOperand(expr: Node, node: Node)
    requires Kid(expr, 1).op != MEM && KillsExpr(expr, node, CollectVars(Kid(expr, 1)))
    ensures || (node.op == SET && RegBelow(Kid(node, 0), Kid(expr, 1)))
            || (HasResult(node) && RegBelow(CallResult(node), Kid(expr, 1)))
  {
  }

  /** `node` is a SET computing the same source as `n`. */
  predicate SameSource(node: Node, n: Node) {
    node.op == SET && Kid(node, 1) == Kid(n, 1)
  }

  // ---------------------------------------------------------------------
  // Local redundancy.

  /**
   * The backward scan of `eliminateLocalRedundant` from position `k - 1`:
   * the nearest SET computing the source of `n`, unless an instruction
   * killing that source comes first.
   */
  function NearestSame(instrs: seq<Node>, k: nat, n: Node, vars: seq<Node>): (r: Option<nat>)
    requires k <= |instrs|
    ensures r.Some? ==> r.value < k && SameSource(instrs[r.value], n)
    decreases k
  {
    if k == 0 then None
    else if KillsExpr(n, instrs[k - 1], vars) then None
    else if SameSource(instrs[k - 1], n) then Some(k - 1)
    else NearestSame(instrs, k - 1, n, vars)
  }

  /** The backward search of `eliminateLocalRedundant`, from position `p` towards the block's head. */
  method FindNearest(instrs: seq<Node>, p: nat, n: Node, vars: seq<Node>) returns (found: Option<nat>)
    requires p <= |instrs|
    ensures found == NearestSame(instrs, p, n, vars)
  {
    var k: nat := p;
    while k > 0 && !KillsExpr(n, instrs[k - 1], vars) && !SameSource(instrs[k - 1], n)
      invariant k <= p
      invariant NearestSame(instrs, k, n, vars) == NearestSame(instrs, p, n, vars)
      decreases k
    {
      k := k - 1;
    }
    if k == 0 || KillsExpr(n, instrs[k - 1], vars) {
      return None;
    }
    return Some(k - 1);
  }

  /**
   * Position `j` computes the source of `n`, nothing from `j` to `k - 1`
   * kills it, and no later position computes it again.
   */
  predicate IsNearest(instrs: seq<Node>, k: nat, n: Node, vars: seq<Node>, j: nat) {
    && j < k <= |instrs| && SameSource(instrs[j], n)
    && (forall i | j <= i < k :: !KillsExpr(n, instrs[i], vars))
    && (forall i | j < i < k :: !SameSource(instrs[i], n))
  }

  /** The scan finds exactly the nearest unkilled computation, and nothing when there is none. */
  lemma {:induction false} NearestSameSpec(instrs: seq<Node>, k: nat, n: Node, vars: seq<Node>, j: nat)
    requires k <= |instrs|
    ensures NearestSame(instrs, k, n, vars) == Some(j) <==> IsNearest(instrs, k, n, vars, j)
    decreases k
  {
    if k > 0 && !KillsExpr(n, instrs[k - 1], vars) && !SameSource(instrs[k - 1], n) {
      NearestSameSpec(instrs, k - 1, n, vars, j);
      if IsNearest(instrs, k, n, vars, j) {
        assert j != k - 1;
        assert IsNearest(instrs, k - 1, n, vars, j);
      }
    }
  }

  /**
   * The rewriting `initBlk` does on the first `k` instructions of a block:
   * every SET whose source has kids takes as its source the destination of
   * the nearest earlier SET computing that source, when no kill lies
   * between them.
   */
  function Eliminated(instrs: seq<Node>, k: nat): (r: seq<Node>)
    requires k <= |instrs|
    ensures |r| == |instrs| && r[k..] == instrs[k..]
    decreases k
  {
    if k == 0 then instrs
    else
      var prev := Eliminated(instrs, k - 1);
      var n := prev[k - 1];
      if n.op == SET && |Kid(n, 1).kids| > 0 then
        match NearestSame(prev, k - 1, n, CollectVars(Kid(n, 1)))
        case Some(j) => prev[k - 1 := WithKid(n, 1, Kid(prev[j], 0))]
        case None => prev
      else prev
  }

  /** Every register destination and source of the block is a leaf, as in well-formed LIR. */
  predicate LeafRegs(instrs: seq<Node>) {
    forall i, c | 0 <= i < |instrs| && 0 <= c < 2 :: Kid(instrs[i], c).op == REG ==> |Kid(instrs[i], c).kids| == 0
  }

  /** The rewriting only installs destinations as sources, so register operands stay leaves. */
  lemma {:induction false} EliminatedLeafRegs(instrs: seq<Node>, k: nat)
    requires k <= |instrs| && LeafRegs(instrs)
    ensures LeafRegs(Eliminated(instrs, k))
    decreases k
  {
    if k > 0 {
      EliminatedLeafRegs(instrs, k - 1);
      var prev := Eliminated(instrs, k - 1);
      var n := prev[k - 1];
      if n.op == SET && |Kid(n, 1).kids| > 0 {
        match NearestSame(prev, k - 1, n, CollectVars(Kid(n, 1)))
        case Some(j) =>
          var r := prev[k - 1 := WithKid(n, 1, Kid(prev[j], 0))];
          assert Kid(prev[j], 0).op == REG ==> |Kid(prev[j], 0).kids| == 0 by {
            assert Kid(prev[j], 0) == Kid(prev[j], 0);
          }
          forall i, c | 0 <= i < |r| && 0 <= c < 2 && Kid(r[i], c).op == REG
            ensures |Kid(r[i], c).kids| == 0
          {
            if i == k - 1 && c == 1 {
              assert Kid(r[i], c) == Kid(prev[j], 0);
            } else {
              assert Kid(r[i], c) == Kid(prev[i], c);
            }
          }
        case None =>
      }
    }
  }

  // ---------------------------------------------------------------------
  // The per-block tables.

  /** `recordNode` marks the block as killing memory expressions at a call or a store. */
  predicate KillsMemory(node: Node) {
    node.op == CALL || IsStore(node)
  }

  /** The tables of a block before its first instruction. */
  const NoMaps: Maps := Maps(map[], map[], [])

  /** The registers among a prologue's kids, in order. */
  function PrologueRegs(kids: seq<Node>): (r: seq<Node>)
    ensures forall x :: x in r <==> x in kids && x.op == REG
  {
    if kids == [] then []
    else
      assert forall x :: x in kids <==> x == kids[0] || x in kids[1..];
      (if kids[0].op == REG then [kids[0]] else []) + PrologueRegs(kids[1..])
  }

  /**
   * `recordNode`: an assignment drops its destination's previous source
   * from both maps, enters the new one (in `expToVar` only when it has
   * kids) and moves the destination to the end of `varList`; a call is
   * appended, and its result register moved to the end after it; a
   * prologue appends its parameter registers.
   */
  function RecordNode(node: Node, m: Maps): (r: Maps)
    ensures node.op != SET ==> r.expToVar == m.expToVar && r.varToExp == m.varToExp
    ensures node.op !in {SET, CALL, PROLOGUE} ==> r == m
  {
    if node.op == SET then
      var d, e := Kid(node, 0), Kid(node, 1);
      var vte := if d in m.varToExp then m.varToExp - {d} else m.varToExp;
      var etv := if d in m.varToExp then m.expToVar - {m.varToExp[d]} else m.expToVar;
      Maps(if |e.kids| > 0 then etv[e := d] else etv, vte[d := e], RemoveElem(m.varList, d) + [d])
    else if node.op == CALL then
      var l := m.varList + [node];
      var res := CallResult(node);
      m.(varList := if HasResult(node) && res.op == REG then RemoveElem(l, res) + [res] else l)
    else if node.op == PROLOGUE then
      m.(varList := m.varList + PrologueRegs(node.kids))
    else m
  }

  /** Taking out one position removes one occurrence of its element. */
  lemma RemoveAtCount(s: seq<Node>, i: nat)
    requires i < |s|
    ensures multiset(RemoveAt(s, i)) == multiset(s) - multiset{s[i]}
  {
    assert s == s[..i] + [s[i]] + s[i + 1..];
  }

  /** `after` is `before` with `x` moved to the end, or added there when it was missing; nothing else changes. */
  ghost predicate MovedToEnd(before: seq<Node>, after: seq<Node>, x: Node) {
    && |after| > 0 && after[|after| - 1] == x
    && (forall y | y != x :: multiset(after)[y] == multiset(before)[y])
    && multiset(after)[x] == (if x in before then multiset(before)[x] else 1)
  }

  /** Taking `x` out of `s` and appending it moves it to the end. */
  lemma MoveToEnd(s: seq<Node>, x: Node)
    ensures MovedToEnd(s, RemoveElem(s, x) + [x], x)
  {
    if x in s {
      RemoveAtCount(s, IndexOf(s, x));
    }
  }

  /**
   * An assignment `d = e` makes `e` the recorded source of `d`; the old
   * source of `d` leaves `expToVar`, `e` enters it (when it has kids)
   * mapped to `d`, and `d` moves to the end of `varList`.
   */
  lemma RecordAssign(node: Node, m: Maps, d: Node, e: Node)
    requires node.op == SET && d == Kid(node, 0) && e == Kid(node, 1)
    ensures RecordNode(node, m).varToExp == m.varToExp[d := e]
    ensures forall x :: x in RecordNode(node, m).expToVar <==>
      (x == e && |e.kids| > 0) || (x in m.expToVar && !(d in m.varToExp && x == m.varToExp[d]))
    ensures |e.kids| > 0 ==> RecordNode(node, m).expToVar[e] == d
    ensures forall x | x in RecordNode(node, m).expToVar && x != e :: RecordNode(node, m).expToVar[x] == m.expToVar[x]
    ensures MovedToEnd(m.varList, RecordNode(node, m).varList, d)
  {
    MoveToEnd(m.varList, d);
  }

  /** A call goes to the end of `varList`, and then its result register, when it has one. */
  lemma RecordCall(node: Node, m: Maps)
    requires node.op == CALL
    ensures var l := RecordNode(node, m).varList;
      if HasResult(node) && CallResult(node).op == REG then MovedToEnd(m.varList + [node], l, CallResult(node))
      else l == m.varList + [node]
  {
    MoveToEnd(m.varList + [node], CallResult(node));
  }

  /** Every entry of `expToVar` is backed by the matching entry of `varToExp`. */
  predicate Coherent(m: Maps) {
    forall x | x in m.expToVar :: m.expToVar[x] in m.varToExp && m.varToExp[m.expToVar[x]] == x
  }

  /** `recordNode` keeps the two maps coherent. */
  lemma RecordCoherent(node: Node, m: Maps)
    requires Coherent(m)
    ensures Coherent(RecordNode(node, m))
  {
    if node.op == SET {
      var d, e := Kid(node, 0), Kid(node, 1);
      RecordAssign(node, m, d, e);
      var r := RecordNode(node, m);
      forall x | x in r.expToVar
        ensures r.expToVar[x] in r.varToExp && r.varToExp[r.expToVar[x]] == x
      {
        if x != e || |e.kids| == 0 {
          var v := m.expToVar[x];
          assert v != d;
        }
      }
    }
  }

  /** Some call or store occurs among the first `k` instructions. */
  function KillsUpTo(instrs: seq<Node>, k: nat): bool
    requires k <= |instrs|
    decreases k
  {
    k > 0 && (KillsUpTo(instrs, k - 1) || KillsMemory(instrs[k - 1]))
  }

  /** The kill flag `initBlk` leaves is set exactly when the block holds a call or a store. */
  lemma {:induction false} KillsUpToSpec(instrs: seq<Node>, k: nat)
    requires k <= |instrs|
    ensures KillsUpTo(instrs, k) <==> exists j | 0 <= j < k :: KillsMemory(instrs[j])
    decreases k
  {
    if k > 0 {
      KillsUpToSpec(instrs, k - 1);
      if KillsUpTo(instrs, k - 1) {
        var j :| 0 <= j < k - 1 && KillsMemory(instrs[j]);
        assert 0 <= j < k;
      }
    }
  }

  /** Both folds over a prefix depend on that prefix only. */
  lemma {:induction false} UpToPrefix(a: seq<Node>, b: seq<Node>, k: nat)
    requires k <= |a| && k <= |b| && a[..k] == b[..k]
    ensures RecordUpTo(a, k) == RecordUpTo(b, k) && KillsUpTo(a, k) == KillsUpTo(b, k)
    decreases k
  {
    if k > 0 {
      assert a[..k - 1] == b[..k - 1];
      assert a[k - 1] == a[..k][k - 1] == b[..k][k - 1] == b[k - 1];
      UpToPrefix(a, b, k - 1);
    }
  }

  /** The tables `initBlk` builds from the first `k` instructions of a block. */
  function RecordUpTo(instrs: seq<Node>, k: nat): (r: Maps)
    requires k <= |instrs|
    decreases k
  {
    if k == 0 then NoMaps else RecordNode(instrs[k - 1], RecordUpTo(instrs, k - 1))
  }

  /** Position `j` is the last assignment to `d` among the first `k` instructions. */
  predicate LastSet(instrs: seq<Node>, k: nat, d: Node, j: nat) {
    && j < k <= |instrs| && instrs[j].op == SET && Kid(instrs[j], 0) == d
    && forall i | j < i < k :: !(instrs[i].op == SET && Kid(instrs[i], 0) == d)
  }

  /**
   * `varToExp` holds, for each destination assigned in the block, the
   * source of its last assignment, and nothing else.
   */
  lemma {:induction false} RecordLatest(instrs: seq<Node>, k: nat)
    requires k <= |instrs|
    ensures LatestSources(instrs, k, RecordUpTo(instrs, k).varToExp)
    decreases k
  {
    if k > 0 {
      var prev := RecordUpTo(instrs, k - 1);
      assert RecordUpTo(instrs, k) == RecordNode(instrs[k - 1], prev);
      RecordLatest(instrs, k - 1);
      RecordLatestStep(instrs, k, prev);
    }
  }

  /** Recording instruction `k - 1` keeps `varToExp` the latest source of each assigned destination. */
  lemma RecordLatestStep(instrs: seq<Node>, k: nat, prev: Maps)
    requires 0 < k <= |instrs| && LatestSources(instrs, k - 1, prev.varToExp)
    ensures LatestSources(instrs, k, RecordNode(instrs[k - 1], prev).varToExp)
  {
    var node := instrs[k - 1];
    if node.op == SET {
      RecordAssign(node, prev, Kid(node, 0), Kid(node, 1));
      LatestAssign(instrs, k, prev.varToExp);
    } else {
      LatestOther(instrs, k, prev.varToExp);
    }
  }

  /** `vte` maps exactly the destinations assigned among the first `k` instructions, each to its latest source. */
  ghost predicate LatestSources(instrs: seq<Node>, k: nat, vte: map<Node, Node>) {
    && (forall d :: d in vte <==> exists j :: LastSet(instrs, k, d, j))
    && (forall d: Node, j: nat | LastSet(instrs, k, d, j) :: d in vte && vte[d] == Kid(instrs[j], 1))
  }

  lemma LatestAssign(instrs: seq<Node>, k: nat, vte: map<Node, Node>)
    requires 0 < k <= |instrs| && instrs[k - 1].op == SET && LatestSources(instrs, k - 1, vte)
    ensures LatestSources(instrs, k, vte[Kid(instrs[k - 1], 0) := Kid(instrs[k - 1], 1)])
  {
    var node := instrs[k - 1];
    var v1 := vte[Kid(node, 0) := Kid(node, 1)];
    assert LastSet(instrs, k, Kid(node, 0), k - 1);
    forall d: Node, j: nat | LastSet(instrs, k, d, j)
      ensures d in v1 && v1[d] == Kid(instrs[j], 1)
    {
      if d != Kid(node, 0) {
        assert LastSet(instrs, k - 1, d, j);
      } else {
        assert j == k - 1;
      }
    }
    forall d | d in v1
      ensures exists j :: LastSet(instrs, k, d, j)
    {
      if d != Kid(node, 0) {
        var j :| LastSet(instrs, k - 1, d, j);
        assert LastSet(instrs, k, d, j);
      }
    }
    forall d | exists j :: LastSet(instrs, k, d, j)
      ensures d in v1
    {
      var j :| LastSet(instrs, k, d, j);
      if d != Kid(node, 0) {
        assert LastSet(instrs, k - 1, d, j);
      }
    }
  }

  lemma LatestOther(instrs: seq<Node>, k: nat, vte: map<Node, Node>)
    requires 0 < k <= |instrs| && instrs[k - 1].op != SET && LatestSources(instrs, k - 1, vte)
    ensures LatestSources(instrs, k, vte)
  {
    forall d: Node, j: nat | LastSet(instrs, k, d, j)
      ensures d in vte && vte[d] == Kid(instrs[j], 1)
    {
      assert LastSet(instrs, k - 1, d, j);
    }
    forall d | d in vte
      ensures exists j :: LastSet(instrs, k, d, j)
    {
      var j :| LastSet(instrs, k - 1, d, j);
      assert LastSet(instrs, k, d, j);
    }
  }

  /** The tables of every prefix are coherent. */
  lemma {:induction false} RecordUpToCoherent(instrs: seq<Node>, k: nat)
    requires k <= |instrs|
    ensures Coherent(RecordUpTo(instrs, k))
    decreases k
  {
    if k > 0 {
      var prev := RecordUpTo(instrs, k - 1);
      RecordUpToCoherent(instrs, k - 1);
      RecordCoherent(instrs[k - 1], prev);
      assert RecordUpTo(instrs, k) == RecordNode(instrs[k - 1], prev);
    }
  }

  // ---------------------------------------------------------------------
  // The questions asked of a block's tables.

  /** An entry of `varList` that ends `local`'s backward scan. */
  predicate StopsHeld(v: Node, exp: Node, vars: seq<Node>) {
    v in vars || (exp.op == MEM && v.op == CALL) || v.op == MEM
  }

  /**
   * The backward scan of `local` over the first `i` entries of `varList`:
   * an entry whose recorded source is `exp` makes it available, unless an
   * operand, a store, or for a memory source a call, comes after it.
   */
  function HeldFrom(m: Maps, i: nat, exp: Node, vars: seq<Node>): bool
    requires i <= |m.varList|
  {
    if i == 0 then false
    else
      var v := m.varList[i - 1];
      if StopsHeld(v, exp, vars) then false
      else if v in m.varToExp && m.varToExp[v] == exp then true
      else HeldFrom(m, i - 1, exp, vars)
  }

  /** Entry `j` holds `exp` and nothing from `j` to `i - 1` stops the scan. */
  predicate HeldAt(m: Maps, i: nat, exp: Node, vars: seq<Node>, j: nat) {
    && j < i <= |m.varList|
    && m.varList[j] in m.varToExp && m.varToExp[m.varList[j]] == exp
    && forall k | j <= k < i :: !StopsHeld(m.varList[k], exp, vars)
  }

  /** The scan answers yes exactly when some holder is followed by no stopping entry. */
  lemma {:induction false} HeldSpec(m: Maps, i: nat, exp: Node, vars: seq<Node>)
    requires i <= |m.varList|
    ensures HeldFrom(m, i, exp, vars) <==> exists j :: HeldAt(m, i, exp, vars, j)
    decreases i
  {
    if i > 0 {
      var v := m.varList[i - 1];
      if StopsHeld(v, exp, vars) {
      } else if v in m.varToExp && m.varToExp[v] == exp {
        assert HeldAt(m, i, exp, vars, i - 1);
      } else {
        HeldSpec(m, i - 1, exp, vars);
        if exists j :: HeldAt(m, i, exp, vars, j) {
          var j :| HeldAt(m, i, exp, vars, j);
          assert j != i - 1;
          assert HeldAt(m, i - 1, exp, vars, j);
        }
        var i' := i - 1;
        if exists j :: HeldAt(m, i', exp, vars, j) {
          var j :| HeldAt(m, i', exp, vars, j);
          assert HeldAt(m, i, exp, vars, j);
        }
      }
    }
  }

  /** An entry of `varList` that ends `checkAnt`'s forward scan. */
  predicate StopsAnt(v: Node, exp: Node, vars: seq<Node>) {
    v in vars || (exp.op == MEM && (v.op == CALL || v.op == MEM))
  }

  /**
   * The forward scan of `checkAnt` from entry `i` of `varList`: the holder
   * `h` of the expression comes before any operand and, for a memory
   * expression, before any call or store.
   */
  function AntScan(list: seq<Node>, i: nat, h: Node, exp: Node, vars: seq<Node>): bool
    decreases |list| - i
  {
    if i >= |list| then false
    else if list[i] == h then true
    else if StopsAnt(list[i], exp, vars) then false
    else AntScan(list, i + 1, h, exp, vars)
  }

  /** The forward scan answers yes exactly when `h` occurs with nothing stopping the scan before it. */
  lemma {:induction false} AntScanSpec(list: seq<Node>, i: nat, h: Node, exp: Node, vars: seq<Node>)
    ensures AntScan(list, i, h, exp, vars) <==>
      exists j | i <= j < |list| :: list[j] == h && forall k | i <= k < j :: !StopsAnt(list[k], exp, vars)
    decreases |list| - i
  {
    if i < |list| && list[i] != h && !StopsAnt(list[i], exp, vars) {
      AntScanSpec(list, i + 1, h, exp, vars);
      if exists j | i <= j < |list| :: list[j] == h && forall k | i <= k < j :: !StopsAnt(list[k], exp, vars) {
        var j :| i <= j < |list| && list[j] == h && forall k | i <= k < j :: !StopsAnt(list[k], exp, vars);
        assert j != i;
      }
    }
  }

  /** What `checkAnt` can decide at one block from its own tables. */
  datatype Ant = Computed | Blocked | Through

  /**
   * The decision of `checkAnt` at block `b`: a block computing the
   * expression answers by its forward scan; otherwise the exit block, a
   * killing block for a memory expression, or a block assigning an operand
   * answers no; any other block passes the question to its successors.
   */
  function AntAt(g: Graph, m: Maps, killed: bool, b: nat, exp: Node, vars: seq<Node>): Ant {
    if exp in m.expToVar then
      (if AntScan(m.varList, 0, m.expToVar[exp], exp, vars) then Computed else Blocked)
    else if (exp.op == MEM && killed) || b == g.exit then Blocked
    else if exists x | x in vars :: x in m.varList then Blocked
    else Through
  }

  /**
   * Every block of `V` is initialised and not blocked, and every successor
   * of a block the expression passes through is in `V`: from `V` on, the
   * expression is computed on every path before it is killed or the exit
   * is reached.
   */
  ghost predicate AntRegion(g: Graph, tables: seq<Option<Maps>>, killBlk: seq<bool>, V: set<nat>, exp: Node, vars: seq<Node>)
    requires g.Valid() && |tables| == g.n && |killBlk| == g.n
  {
    forall b | b in V ::
      && b < g.n && tables[b].Some?
      && AntAt(g, tables[b].value, killBlk[b], b, exp, vars) != Blocked
      && (AntAt(g, tables[b].value, killBlk[b], b, exp, vars) == Through ==> forall s | s in g.succs[b] :: s in V)
  }

  /** A path in the graph: each block is followed by one of its successors. */
  predicate IsPath(g: Graph, path: seq<nat>)
    requires g.Valid()
  {
    && (forall k | 0 <= k < |path| :: path[k] < g.n)
    && forall k | 0 <= k && k + 1 < |path| :: path[k + 1] in g.succs[path[k]]
  }

  /**
   * A path that starts in an anticipation region and meets no block
   * computing the expression stays in the region and avoids the exit.
   */
  lemma {:induction false} AntRegionPaths(g: Graph, tables: seq<Option<Maps>>, killBlk: seq<bool>, V: set<nat>,
                                           exp: Node, vars: seq<Node>, path: seq<nat>)
    requires g.Valid() && |tables| == g.n && |killBlk| == g.n
    requires AntRegion(g, tables, killBlk, V, exp, vars) && IsPath(g, path) && |path| > 0 && path[0] in V
    requires forall k | 0 <= k < |path| && path[k] in V :: AntAt(g, tables[path[k]].value, killBlk[path[k]], path[k], exp, vars) != Computed
    ensures forall k | 0 <= k < |path| :: path[k] in V && path[k] != g.exit
    decreases |path|
  {
    if |path| > 1 {
      var b := path[0];
      assert AntAt(g, tables[b].value, killBlk[b], b, exp, vars) == Through;
      assert path[1] in g.succs[b];
      AntRegionPaths(g, tables, killBlk, V, exp, vars, path[1..]);
      forall k | 0 <= k < |path|
        ensures path[k] in V && path[k] != g.exit
      {
        if k > 0 {
          assert path[k] == path[1..][k - 1];
        }
      }
    }
  }

  /** The region survives any change that leaves the tables and kill flags of initialised blocks alone. */
  lemma AntRegionKept(g: Graph, t0: seq<Option<Maps>>, k0: seq<bool>, t1: seq<Option<Maps>>, k1: seq<bool>,
                      V: set<nat>, exp: Node, vars: seq<Node>)
    requires g.Valid() && |t0| == g.n && |k0| == g.n && |t1| == g.n && |k1| == g.n
    requires AntRegion(g, t0, k0, V, exp, vars)
    requires forall b | 0 <= b < g.n && t0[b].Some? :: t1[b] == t0[b] && k1[b] == k0[b]
    ensures AntRegion(g, t1, k1, V, exp, vars)
  {
  }

  // ---------------------------------------------------------------------
  // The answers of the predecessors.

  /**
   * How `propagate` counts one predecessor's answer: available,
   * unavailable, available through a real computation, and blocked (to be
   * checked by `checkAnt` and to receive the temporary).
   */
  datatype Answer = Answer(avail: bool, unavail: bool, viaReal: bool, blocked: bool)

  /**
   * The answer for the predecessor that is the expression's own block, as
   * written: when a kill follows the expression there, the predecessor is
   * listed as blocked but not counted as unavailable.
   */
  function ExprBlkAnswerAsWritten(avail: bool): (a: Answer)
    ensures a.avail <==> avail
  {
    if avail then Answer(true, false, true, false) else Answer(false, false, false, true)
  }

  /** The same answer with a blocked predecessor counted as unavailable, like every other blocked one. */
  function ExprBlkAnswer(avail: bool): (a: Answer)
    ensures a.avail <==> avail
    ensures a.blocked ==> a.unavail
  {
    if avail then Answer(true, false, true, false) else Answer(false, true, false, true)
  }

  /** The predecessors whose answers are blocked, in order. */
  function BlockedPreds(answers: seq<Answer>, preds: seq<nat>): (r: seq<nat>)
    requires |answers| == |preds|
    ensures forall x :: x in r <==> exists i | 0 <= i < |preds| :: answers[i].blocked && preds[i] == x
  {
    if answers == [] then []
    else
      var k := |answers| - 1;
      var r := BlockedPreds(answers[..k], preds[..k]);
      assert forall i | 0 <= i < k :: answers[..k][i] == answers[i] && preds[..k][i] == preds[i];
      r + (if answers[k].blocked then [preds[k]] else [])
  }

  /** What `propagate` does with the answers: refuse, accept, or accept after checking the blocked predecessors. */
  datatype Plan = Refuse | Accept | CheckThen(blocked: seq<nat>)

  function PlanOf(answers: seq<Answer>, preds: seq<nat>): Plan
    requires |answers| == |preds|
  {
    var blks := BlockedPreds(answers, preds);
    if !exists i | 0 <= i < |answers| :: answers[i].avail then Refuse
    else if !exists i | 0 <= i < |answers| :: answers[i].unavail then Accept
    else if |blks| == 0 || !exists i | 0 <= i < |answers| :: answers[i].viaReal then Refuse
    else CheckThen(blks)
  }

  /**
   * With every blocked predecessor counted as unavailable, a query is
   * accepted without checks only when no predecessor is blocked; a
   * mixed answer needs a real computation on some predecessor and checks
   * every blocked one.
   */
  lemma PlanSound(answers: seq<Answer>, preds: seq<nat>)
    requires |answers| == |preds|
    requires forall i | 0 <= i < |answers| :: answers[i].blocked ==> answers[i].unavail
    ensures PlanOf(answers, preds) == Accept ==> forall i | 0 <= i < |answers| :: !answers[i].blocked
    ensures PlanOf(answers, preds).CheckThen? ==>
      && (exists i | 0 <= i < |answers| :: answers[i].viaReal)
      && forall i | 0 <= i < |answers| && answers[i].blocked :: preds[i] in PlanOf(answers, preds).blocked
    ensures PlanOf(answers, preds) != Refuse ==> exists i | 0 <= i < |answers| :: answers[i].avail
  {
  }

  /**
   * As written, a loop whose own block kills the expression after
   * computing it is accepted when another predecessor has it: the blocked
   * back edge is neither checked nor given the temporary.
   */
  lemma AsWrittenAcceptsBlocked()
    ensures PlanOf([Answer(true, false, true, false), ExprBlkAnswerAsWritten(false)], [0, 1]) == Accept
    ensures ExprBlkAnswerAsWritten(false).blocked
  {
    var answers := [Answer(true, false, true, false), ExprBlkAnswerAsWritten(false)];
    assert answers[0].avail;
  }

  /** The corrected count refuses to accept the same situation unchecked. */
  lemma CorrectedChecksBlocked()
    ensures PlanOf([Answer(true, false, true, false), ExprBlkAnswer(false)], [0, 1]) == CheckThen([1])
  {
    var answers := [Answer(true, false, true, false), ExprBlkAnswer(false)];
    assert answers[0].avail && answers[1].unavail && answers[0].viaReal;
    assert BlockedPreds(answers[..1], [0, 1][..1]) == [];
  }

  /**
   * `propagate`'s scan of the expression's own block from the end, having
   * passed `count` instructions and stopping before the `exprPos`-th from
   * the end: the expression reaches the end unless a kill comes first; a
   * later SET computing it ends the scan and is reported as found.
   */
  datatype Tail = Tail(avail: bool, found: bool)

  function TailScan(instrs: seq<Node>, count: nat, exprPos: int, n: Node, vars: seq<Node>): Tail
    decreases |instrs| - count
  {
    if count >= |instrs| || count + 1 == exprPos then Tail(true, false)
    else
      var x := instrs[|instrs| - 1 - count];
      if KillsExpr(n, x, vars) then Tail(false, false)
      else if SameSource(x, n) then Tail(true, true)
      else TailScan(instrs, count + 1, exprPos, n, vars)
  }

  /**
   * When `exprPos` counts the expression at position `q` from the end,
   * the expression is unavailable at the end of its block exactly when a
   * kill follows it with no later computation of it.
   */
  lemma {:induction false} TailAvail(instrs: seq<Node>, count: nat, q: nat, n: Node, vars: seq<Node>)
    requires q < |instrs| && count <= |instrs| - 1 - q
    ensures !TailScan(instrs, count, |instrs| - q, n, vars).avail <==> KilledAfter(instrs, q, |instrs| - count, n, vars)
    decreases |instrs| - count
  {
    if count + 1 != |instrs| - q {
      var e := |instrs| - count;
      var x := instrs[e - 1];
      if KillsExpr(n, x, vars) {
        KilledAtEnd(instrs, q, e, n, vars);
      } else if SameSource(x, n) {
        SameAtEnd(instrs, q, e, n, vars);
      } else {
        TailAvail(instrs, count + 1, q, n, vars);
        NeitherAtEnd(instrs, q, e, n, vars);
      }
    }
  }

  /** Some position after `q` and before `e` kills the source of `n`, and no later one before `e` computes it. */
  ghost predicate KilledAfter(instrs: seq<Node>, q: nat, e: nat, n: Node, vars: seq<Node>)
    requires e <= |instrs|
  {
    exists j | q < j < e :: KillsExpr(n, instrs[j], vars) && forall i | j < i < e :: !SameSource(instrs[i], n)
  }

  lemma KilledAtEnd(instrs: seq<Node>, q: nat, e: nat, n: Node, vars: seq<Node>)
    requires q + 1 < e <= |instrs| && KillsExpr(n, instrs[e - 1], vars)
    ensures KilledAfter(instrs, q, e, n, vars)
  {
  }

  lemma SameAtEnd(instrs: seq<Node>, q: nat, e: nat, n: Node, vars: seq<Node>)
    requires 0 < e <= |instrs| && SameSource(instrs[e - 1], n) && !KillsExpr(n, instrs[e - 1], vars)
    ensures !KilledAfter(instrs, q, e, n, vars)
  {
    forall j | q < j < e && KillsExpr(n, instrs[j], vars)
      ensures j < e - 1 && SameSource(instrs[e - 1], n)
    {
    }
  }

  lemma NeitherAtEnd(instrs: seq<Node>, q: nat, e: nat, n: Node, vars: seq<Node>)
    requires 0 < e <= |instrs| && !SameSource(instrs[e - 1], n) && !KillsExpr(n, instrs[e - 1], vars)
    ensures KilledAfter(instrs, q, e, n, vars) <==> KilledAfter(instrs, q, e - 1, n, vars)
  {
    if KilledAfter(instrs, q, e, n, vars) {
      KilledShrink(instrs, q, e, n, vars);
    }
    if KilledAfter(instrs, q, e - 1, n, vars) {
      KilledGrow(instrs, q, e, n, vars);
    }
  }

  lemma KilledShrink(instrs: seq<Node>, q: nat, e: nat, n: Node, vars: seq<Node>)
    requires 0 < e <= |instrs| && !KillsExpr(n, instrs[e - 1], vars) && KilledAfter(instrs, q, e, n, vars)
    ensures KilledAfter(instrs, q, e - 1, n, vars)
  {
    var j :| q < j < e && KillsExpr(n, instrs[j], vars) && forall i | j < i < e :: !SameSource(instrs[i], n);
    assert j < e - 1;
  }

  lemma KilledGrow(instrs: seq<Node>, q: nat, e: nat, n: Node, vars: seq<Node>)
    requires 0 < e <= |instrs| && !SameSource(instrs[e - 1], n) && KilledAfter(instrs, q, e - 1, n, vars)
    ensures KilledAfter(instrs, q, e, n, vars)
  {
    var j :| q < j < e - 1 && KillsExpr(n, instrs[j], vars) && forall i | j < i < e - 1 :: !SameSource(instrs[i], n);
    assert forall i | j < i < e :: !SameSource(instrs[i], n);
  }

  // ---------------------------------------------------------------------
  // The temporary.

  /** `createNewNode`: the SET with its destination replaced by a fresh register of its type. */
  function CreateNewNode(expr: Node, sym: int): (r: Node)
    ensures |r.kids| == |expr.kids| && r.op == expr.op
    ensures |expr.kids| > 0 ==> Kid(r, 0) == Reg(sym, expr.ty) && Kid(r, 1) == Kid(expr, 1)
  {
    WithKid(expr, 0, Reg(sym, expr.ty))
  }

  // ---------------------------------------------------------------------
  // The pass.

  /**
   * From snapshot 0 to snapshot 1: initialised blocks keep their tables,
   * kill flags and instructions; the insertion list and the availability
   * marks only grow.
   */
  predicate SteadyOf(t0: seq<Option<Maps>>, k0: seq<bool>, c0: seq<seq<Node>>, i0: seq<nat>, a0: seq<bool>, r0: seq<bool>,
                     t1: seq<Option<Maps>>, k1: seq<bool>, c1: seq<seq<Node>>, i1: seq<nat>, a1: seq<bool>, r1: seq<bool>)
  {
    && |t1| == |t0| && |k1| == |k0| && |c1| == |c0| && |a1| == |a0| && |r1| == |r0|
    && (forall b | 0 <= b < |t0| && t0[b].Some? :: t1[b] == t0[b])
    && (forall b | 0 <= b < |t0| && b < |k0| && t0[b].Some? :: k1[b] == k0[b])
    && (forall b | 0 <= b < |t0| && b < |c0| && t0[b].Some? :: c1[b] == c0[b])
    && i0 <= i1
    && (forall b | 0 <= b < |a0| && a0[b] :: a1[b])
    && (forall b | 0 <= b < |r0| && r0[b] :: r1[b])
  }

  /** Every block whose tables `t0` had built still has them built in `t1`. */
  predicate StillBuilt(t0: seq<Option<Maps>>, t1: seq<Option<Maps>>) {
    |t1| == |t0| && forall b | 0 <= b < |t0| && t0[b].Some? :: t1[b].Some?
  }

  /** The tables `t` of the blocks `order[..i]` are built. */
  predicate BuiltUpTo(order: seq<nat>, i: nat, t: seq<Option<Maps>>) {
    i <= |order| && forall k | 0 <= k < i :: order[k] < |t| && t[order[k]].Some?
  }

  /** Blocks whose tables `t0` had built, and then block `order[i]`, have them built in `t1`. */
  lemma BuiltNext(t0: seq<Option<Maps>>, t1: seq<Option<Maps>>, order: seq<nat>, i: nat)
    requires StillBuilt(t0, t1) && BuiltUpTo(order, i, t0) && i < |order| && order[i] < |t1| && t1[order[i]].Some?
    ensures BuiltUpTo(order, i + 1, t1)
  {
  }

  lemma SteadyTrans(t0: seq<Option<Maps>>, k0: seq<bool>, c0: seq<seq<Node>>, i0: seq<nat>, a0: seq<bool>, r0: seq<bool>,
                    t1: seq<Option<Maps>>, k1: seq<bool>, c1: seq<seq<Node>>, i1: seq<nat>, a1: seq<bool>, r1: seq<bool>,
                    t2: seq<Option<Maps>>, k2: seq<bool>, c2: seq<seq<Node>>, i2: seq<nat>, a2: seq<bool>, r2: seq<bool>)
    requires SteadyOf(t0, k0, c0, i0, a0, r0, t1, k1, c1, i1, a1, r1)
    requires SteadyOf(t1, k1, c1, i1, a1, r1, t2, k2, c2, i2, a2, r2)
    ensures SteadyOf(t0, k0, c0, i0, a0, r0, t2, k2, c2, i2, a2, r2)
  {
  }

  /** A step that leaves the insertion list and the marks alone keeps them in any snapshot. */
  lemma SteadyMarks(t0: seq<Option<Maps>>, k0: seq<bool>, c0: seq<seq<Node>>, t1: seq<Option<Maps>>, k1: seq<bool>, c1: seq<seq<Node>>,
                    i: seq<nat>, a: seq<bool>, r: seq<bool>)
    requires SteadyOf(t0, k0, c0, [], [], [], t1, k1, c1, [], [], [])
    ensures SteadyOf(t0, k0, c0, i, a, r, t1, k1, c1, i, a, r)
  {
  }

  /** `V` holds every successor of `blk` but `e`. */
  ghost predicate Covers(g: Graph, blk: nat, e: nat, V: set<nat>)
    requires g.Valid() && blk < g.n
  {
    forall s | s in g.succs[blk] && s != e :: s in V
  }

  /** `checkAnt(exp, blk)` in the given state: an anticipation region holds every successor of `blk` but the expression's block. */
  ghost predicate AntFromIn(g: Graph, tables: seq<Option<Maps>>, killBlk: seq<bool>, exprBlk: nat, blk: nat, exp: Node, vars: seq<Node>)
    requires g.Valid() && |tables| == g.n && |killBlk| == g.n && blk < g.n
  {
    exists V :: AntRegion(g, tables, killBlk, V, exp, vars) && Covers(g, blk, exprBlk, V)
  }

  /** `expToVar` and `varToExp` of a block register `t` as the holder of its source. */
  predicate Registered(m: Maps, t: Node) {
    t in m.varToExp && m.varToExp[t] in m.expToVar && m.expToVar[m.varToExp[t]] == t
  }

  /** Each of `ts` is a temporary numbered below `next`, in increasing order. */
  predicate TempsOf(ts: seq<Node>, next: int) {
    && (forall i | 0 <= i < |ts| :: IsTemp(ts[i]) && Kid(ts[i], 0).sym < next)
    && (forall i, j | 0 <= i < j < |ts| :: Kid(ts[i], 0).sym < Kid(ts[j], 0).sym)
  }

  /** The temporary made for a candidate, numbered `next`, extends the list and moves the next number on. */
  lemma TempsGrow(ts: seq<Node>, next: int, node: Node)
    requires TempsOf(ts, next) && node.op == SET && |Kid(node, 1).kids| > 0 && CheckType(node)
    ensures TempsOf(ts + [CreateNewNode(node, next)], next + 1)
  {
    var t := CreateNewNode(node, next);
    assert IsTemp(t) && Kid(t, 0).sym == next;
    var ts' := ts + [t];
    assert forall i | 0 <= i < |ts| :: ts'[i] == ts[i];
  }

  /** The instructions include a SET of the register `t`. */
  predicate HasTemp(instrs: seq<Node>, t: Node) {
    exists j | 0 <= j < |instrs| :: instrs[j].op == SET && Kid(instrs[j], 0) == t
  }

  /** A block with tables `t` and instructions `instrs` has received the temporary `tmp`: the tables register it and the instructions hold its SET. */
  predicate Holds(t: Option<Maps>, instrs: seq<Node>, tmp: Node) {
    t.Some? && Registered(t.value, Kid(tmp, 0)) && HasTemp(instrs, Kid(tmp, 0))
  }

  /**
   * Part way through `insert`: the blocks flagged in `done` have received
   * `tmp`, the others keep their instructions `c0` and tables `t0`.
   */
  predicate InsertedSoFar(c0: seq<seq<Node>>, t0: seq<Option<Maps>>, c: seq<seq<Node>>, t: seq<Option<Maps>>, done: seq<bool>, tmp: Node) {
    && |c0| == |done| && |t0| == |done| && |c| == |done| && |t| == |done|
    && forall b | 0 <= b < |done| :: if done[b] then Holds(t[b], c[b], tmp) else c[b] == c0[b] && t[b] == t0[b]
  }

  /** One more block receives `tmp` and nothing else changes. */
  lemma InsertedStep(c0: seq<seq<Node>>, t0: seq<Option<Maps>>, c1: seq<seq<Node>>, t1: seq<Option<Maps>>,
                     c2: seq<seq<Node>>, t2: seq<Option<Maps>>, done: seq<bool>, bl: nat, tmp: Node)
    requires InsertedSoFar(c0, t0, c1, t1, done, tmp) && bl < |done| && |c2| == |c1| && |t2| == |t1|
    requires forall b | 0 <= b < |c1| && b != bl :: c2[b] == c1[b] && t2[b] == t1[b]
    requires Holds(t2[bl], c2[bl], tmp)
    ensures InsertedSoFar(c0, t0, c2, t2, done[bl := true], tmp)
  {
  }

  /** What one step of `initBlk`'s walk leaves: the recorded prefix and every other block untouched. */
  ghost predicate ElimStepped(c1: seq<seq<Node>>, c2: seq<seq<Node>>, blk: nat, q: nat, orig: seq<Node>) {
    && SameShape(c1, c2) && blk < |c1| && q < |c1[blk]| == |orig|
    && RecordUpTo(c2[blk], q) == RecordUpTo(c1[blk], q)
    && KillsUpTo(c2[blk], q) == KillsUpTo(c1[blk], q)
    && (forall b | 0 <= b < |c1| && b != blk :: c2[b] == c1[b])
    && (LeafRegs(orig) ==> c2[blk] == Eliminated(orig, q + 1))
  }

  /**
   * `initBlk`'s walk after `q` instructions of block `blk`: `m` records them,
   * the kill flag covers them, and nothing outside the block moved.
   */
  ghost predicate WalkedTo(c0: seq<seq<Node>>, c: seq<seq<Node>>, k0: seq<bool>, k: seq<bool>,
                           blk: nat, q: nat, m: Maps, orig: seq<Node>) {
    && SameShape(c0, c) && |k| == |k0| && blk < |c| && blk < |k| && q <= |c[blk]| == |orig|
    && m == RecordUpTo(c[blk], q)
    && k[blk] == (k0[blk] || KillsUpTo(c[blk], q))
    && (forall b | 0 <= b < |c| && b != blk :: c[b] == c0[b])
    && (forall b | 0 <= b < |k| && b != blk :: k[b] == k0[b])
    && (LeafRegs(orig) ==> c[blk] == Eliminated(orig, q))
  }

  /** Eliminating at `q`, then recording instruction `q`, carries `WalkedTo` one instruction further. */
  lemma WalkStep(c0: seq<seq<Node>>, c1: seq<seq<Node>>, c2: seq<seq<Node>>, k0: seq<bool>, k1: seq<bool>,
                 k2: seq<bool>, blk: nat, q: nat, m1: Maps, m2: Maps, orig: seq<Node>)
    requires WalkedTo(c0, c1, k0, k1, blk, q, m1, orig) && ElimStepped(c1, c2, blk, q, orig)
    requires m2 == RecordNode(c2[blk][q], m1)
    requires |k2| == |k1| && k2[blk] == (k1[blk] || KillsMemory(c2[blk][q]))
    requires forall b | 0 <= b < |k1| && b != blk :: k2[b] == k1[b]
    ensures WalkedTo(c0, c2, k0, k2, blk, q + 1, m2, orig)
  {
  }

  /** A temporary's SET: a register computing an integer or floating-point expression with operands. */
  predicate IsTemp(t: Node) {
    t.op == SET && Kid(t, 0).op == REG && |Kid(t, 1).kids| > 0 && CheckType(t)
  }

  /**
   * `replace`'s rewrite of an instruction's source: a register becomes the
   * source, a SET gives its destination; any other node changes nothing.
   */
  function Rewritten(n: Node, nn: Node): (r: Node)
    ensures r.op == n.op && |r.kids| == |n.kids| && Kid(r, 0) == Kid(n, 0)
    ensures |n.kids| >= 2 && nn.op == REG ==> Kid(r, 1) == nn
    ensures |n.kids| >= 2 && nn.op == SET ==> Kid(r, 1) == Kid(nn, 0)
    ensures nn.op != REG && nn.op != SET ==> r == n
  {
    if nn.op == REG then WithKid(n, 1, nn)
    else if nn.op == SET then WithKid(n, 1, Kid(nn, 0))
    else n
  }

  /** Where `insert` puts the temporary in a block: before or after a position, or before the last instruction. */
  datatype Place = Before(pos: nat) | After(pos: nat) | AtEnd

  /**
   * `insert`'s backward scan of the first `k` instructions of a block: the
   * temporary goes before the last SET computing the expression, or after
   * the last SET whose destination holds it, unless a kill comes first.
   */
  function PlaceIn(instrs: seq<Node>, k: nat, node: Node, tmp: Node, vars: seq<Node>, vte: map<Node, Node>): (r: Place)
    requires k <= |instrs|
    ensures r.Before? ==> r.pos < k && instrs[r.pos].op == SET && Kid(instrs[r.pos], 1) == Kid(tmp, 1)
    ensures r.After? ==> r.pos < k && instrs[r.pos].op == SET && Kid(instrs[r.pos], 0) in vte && vte[Kid(instrs[r.pos], 0)] == Kid(tmp, 1)
    decreases k
  {
    if k == 0 then AtEnd
    else
      var n := instrs[k - 1];
      if KillsExpr(node, n, vars) then AtEnd
      else if n.op == SET && Kid(n, 1) == Kid(tmp, 1) then Before(k - 1)
      else if n.op == SET && Kid(n, 0) in vte && vte[Kid(n, 0)] == Kid(tmp, 1) then After(k - 1)
      else PlaceIn(instrs, k - 1, node, tmp, vars, vte)
  }

  /** Nothing from a chosen position to the end of the scanned part kills the expression, so the temporary stays valid there. */
  lemma {:induction false} PlaceUnkilled(instrs: seq<Node>, k: nat, node: Node, tmp: Node, vars: seq<Node>, vte: map<Node, Node>)
    requires k <= |instrs|
    ensures !PlaceIn(instrs, k, node, tmp, vars, vte).AtEnd? ==>
      forall i | PlaceIn(instrs, k, node, tmp, vars, vte).pos <= i < k :: !KillsExpr(node, instrs[i], vars)
    decreases k
  {
    if k > 0 && !KillsExpr(node, instrs[k - 1], vars) {
      PlaceUnkilled(instrs, k - 1, node, tmp, vars, vte);
    }
  }

  /** The position the new instruction takes for a placement in a block of `len` instructions. */
  function PlaceAt(pl: Place, len: nat): nat {
    match pl
    case Before(j) => j
    case After(j) => j + 1
    case AtEnd => if len > 0 then len - 1 else 0
  }

  /** `checkAnt`'s forward scan of `varList` for the holder `h`. */
  method ScanAnt(list: seq<Node>, h: Node, exp: Node, vars: seq<Node>) returns (r: bool)
    ensures r == AntScan(list, 0, h, exp, vars)
  {
    var i := 0;
    while i < |list|
      invariant 0 <= i <= |list|
      invariant AntScan(list, i, h, exp, vars) == AntScan(list, 0, h, exp, vars)
      decreases |list| - i
    {
      if list[i] == h {
        return true;
      } else if StopsAnt(list[i], exp, vars) {
        return false;
      }
      i := i + 1;
    }
    return false;
  }

  /** `local`'s backward scan of `varList` for an entry holding `exp`. */
  method ScanHeld(m: Maps, exp: Node, vars: seq<Node>) returns (r: bool)
    ensures r == HeldFrom(m, |m.varList|, exp, vars)
  {
    var i := |m.varList|;
    while i > 0
      invariant 0 <= i <= |m.varList|
      invariant HeldFrom(m, i, exp, vars) == HeldFrom(m, |m.varList|, exp, vars)
      decreases i
    {
      var v := m.varList[i - 1];
      if StopsHeld(v, exp, vars) {
        return false;
      } else if v in m.varToExp && m.varToExp[v] == exp {
        return true;
      }
      i := i - 1;
    }
    return false;
  }

  /** The loop over the operands asking whether `varList` lists one of them. */
  method AnyListed(vars: seq<Node>, list: seq<Node>) returns (r: bool)
    ensures r <==> exists x | x in vars :: x in list
  {
    var i := 0;
    while i < |vars|
      invariant 0 <= i <= |vars|
      invariant forall k | 0 <= k < i :: vars[k] !in list
      decreases |vars| - i
    {
      if vars[i] in list {
        return true;
      }
      i := i + 1;
    }
    return false;
  }

  /** `propagate`'s scan of the expression's own block from its end. */
  method ScanTail(instrs: seq<Node>, exprPos: int, n: Node, vars: seq<Node>) returns (t: Tail)
    ensures t == TailScan(instrs, 0, exprPos, n, vars)
  {
    var count := 0;
    while count < |instrs| && count + 1 != exprPos
      invariant 0 <= count <= |instrs|
      invariant TailScan(instrs, count, exprPos, n, vars) == TailScan(instrs, 0, exprPos, n, vars)
      decreases |instrs| - count
    {
      var x := instrs[|instrs| - 1 - count];
      if KillsExpr(n, x, vars) {
        return Tail(false, false);
      } else if SameSource(x, n) {
        return Tail(true, true);
      }
      count := count + 1;
    }
    return Tail(true, false);
  }

  /** `insert`'s backward scan for the place of the temporary. */
  method FindPlace(instrs: seq<Node>, node: Node, tmp: Node, vars: seq<Node>, vte: map<Node, Node>) returns (pl: Place)
    ensures pl == PlaceIn(instrs, |instrs|, node, tmp, vars, vte)
  {
    var k := |instrs|;
    while k > 0
      invariant 0 <= k <= |instrs|
      invariant PlaceIn(instrs, k, node, tmp, vars, vte) == PlaceIn(instrs, |instrs|, node, tmp, vars, vte)
      decreases k
    {
      var n := instrs[k - 1];
      if KillsExpr(node, n, vars) {
        return AtEnd;
      } else if n.op == SET && Kid(n, 1) == Kid(tmp, 1) {
        return Before(k - 1);
      } else if n.op == SET && Kid(n, 0) in vte && vte[Kid(n, 0)] == Kid(tmp, 1) {
        return After(k - 1);
      }
      k := k - 1;
    }
    return AtEnd;
  }

  ghost function UnvisitedIn(vis: array<bool>): set<nat>
    reads vis
  {
    set b | 0 <= b < vis.Length && !vis[b]
  }

  /** An anticipation answer survives any change that leaves initialised blocks alone. */
  lemma AntFromKept(g: Graph, t0: seq<Option<Maps>>, k0: seq<bool>, t1: seq<Option<Maps>>, k1: seq<bool>,
                    e: nat, blk: nat, exp: Node, vars: seq<Node>)
    requires g.Valid() && |t0| == g.n && |k0| == g.n && |t1| == g.n && |k1| == g.n && blk < g.n
    requires AntFromIn(g, t0, k0, e, blk, exp, vars)
    requires forall b | 0 <= b < g.n && t0[b].Some? :: t1[b] == t0[b] && k1[b] == k0[b]
    ensures AntFromIn(g, t1, k1, e, blk, exp, vars)
  {
    var V :| AntRegion(g, t0, k0, V, exp, vars) && Covers(g, blk, e, V);
    AntRegionKept(g, t0, k0, t1, k1, V, exp, vars);
  }

  /** The state of the pass over one function. */
  class Ddpre {
    const f: Function
    const cp: CopyProp
    /** `blkToExpToVarMap`, `blkToVarToExpMap` and `blkToVarList`; `None` until the block is initialised. */
    var tables: seq<Option<Maps>>
    var killBlk: array<bool>
    var visited: array<bool>
    var result: array<bool>
    var isAvail: array<bool>
    var isReal: array<bool>
    var insertBlk: seq<nat>
    var insertedNode: seq<Node>
    var exprBlk: nat
    var exprPos: int
    var newNode: Option<Node>
    /** The number the next temporary's symbol takes. */
    var nextSym: int

    predicate Apart()
      reads this
    {
      && killBlk != visited && killBlk != result && killBlk != isAvail && killBlk != isReal
      && visited != result && visited != isAvail && visited != isReal
      && result != isAvail && result != isReal && isAvail != isReal
    }

    predicate Valid()
      reads this, f, cp
    {
      && f.Valid() && cp.f == f && cp.Valid() && |tables| == f.g.n
      && killBlk.Length == f.g.n && visited.Length == f.g.n && result.Length == f.g.n
      && isAvail.Length == f.g.n && isReal.Length == f.g.n
      && Apart() && exprBlk < f.g.n
      && (forall k | 0 <= k < |insertBlk| :: insertBlk[k] < f.g.n)
    }

    /** The state agrees with the snapshot as `SteadyOf` says. */
    predicate Steady(t0: seq<Option<Maps>>, k0: seq<bool>, c0: seq<seq<Node>>, i0: seq<nat>, a0: seq<bool>, r0: seq<bool>)
      reads this, f, killBlk, isAvail, isReal
    {
      SteadyOf(t0, k0, c0, i0, a0, r0, tables, killBlk[..], f.code, insertBlk, isAvail[..], isReal[..])
    }

    ghost function Unvisited(): set<nat>
      reads this, visited
    {
      set b | 0 <= b < visited.Length && !visited[b]
    }

    /** `checkAnt(exp, blk)` holds in the current state. */
    ghost predicate AntFrom(blk: nat, exp: Node, vars: seq<Node>)
      reads this`tables, this`killBlk, this`exprBlk, killBlk
      requires f.g.Valid() && |tables| == f.g.n && killBlk.Length == f.g.n && blk < f.g.n
    {
      AntFromIn(f.g, tables, killBlk[..], exprBlk, blk, exp, vars)
    }

    /** The pass over `f`, with its own copy propagator; `firstSym` numbers the temporaries. */
    constructor (f: Function, firstSym: int)
      requires f.Valid()
      ensures Valid() && this.f == f && fresh(cp) && nextSym == firstSym
      ensures tables == seq(f.g.n, _ => None) && insertedNode == [] && newNode.None?
    {
      this.f := f;
      cp := new CopyProp(f);
      tables := seq(f.g.n, _ => None);
      killBlk := new bool[f.g.n](_ => false);
      visited := new bool[f.g.n](_ => false);
      result := new bool[f.g.n](_ => false);
      isAvail := new bool[f.g.n](_ => false);
      isReal := new bool[f.g.n](_ => false);
      insertBlk := [];
      insertedNode := [];
      exprBlk := f.g.entry;
      exprPos := 0;
      newNode := None;
      nextSym := firstSym;
    }

    /**
     * The copy propagation that follows a rewrite to a register copy: when
     * both are registers, `to` replaces `from` after position `p` of `blk`,
     * in the block only, updating the block's tables when it has them.
     */
    method CopyFrom(blk: nat, from: Node, to: Node, p: nat)
      requires Valid() && blk < f.g.n && p < |f.code[blk]|
      modifies f, cp, this`tables
      ensures Valid() && SameShape(old(f.code), f.code)
      ensures forall i | 0 <= i <= p :: f.code[blk][i] == old(f.code[blk][i])
      ensures forall b | 0 <= b < f.g.n && b != blk :: f.code[b] == old(f.code[b]) && tables[b] == old(tables[b])
      ensures old(tables[blk]).None? ==> tables == old(tables)
      ensures KeepsSome(old(tables), tables)
      ensures !(from.op == REG && to.op == REG) ==> f.code == old(f.code) && tables == old(tables)
    {
      if from.op == REG && to.op == REG && (IsLeaf(from) || IsLeaf(to)) {
        cp.CpypShared(blk, from, to, p, 1, Some(tables));
        forall b | 0 <= b < f.g.n && b != blk
          ensures f.code[b] == old(f.code[b])
        {
          assert |f.code[b]| == |old(f.code[b])|;
          forall i | 0 <= i < |f.code[b]|
            ensures f.code[b][i] == old(f.code[b][i])
          {
          }
        }
        tables := cp.tables;
      }
    }

    /** `checkTransp`: no instruction before position `p` of `blk` kills the source of `expr`. */
    method CheckTransp(blk: nat, p: nat, expr: Node, vars: seq<Node>) returns (r: bool)
      requires Valid() && blk < f.g.n && p <= |f.code[blk]|
      ensures r <==> forall j | 0 <= j < p :: !KillsExpr(expr, f.code[blk][j], vars)
    {
      var k := p;
      while k > 0
        invariant blk < |f.code| && 0 <= k <= p <= |f.code[blk]|
        invariant forall j | k <= j < p :: !KillsExpr(expr, f.code[blk][j], vars)
        decreases k
      {
        if KillsExpr(expr, f.code[blk][k - 1], vars) {
          return false;
        }
        k := k - 1;
      }
      return true;
    }

    /**
     * `eliminateLocalRedundant`: the SET at position `p` takes as its
     * source the destination of the nearest earlier SET computing the same
     * source with no kill between; a copy between registers is then
     * propagated through the rest of the block.
     */
    method EliminateLocalRedundant(blk: nat, p: nat, vars: seq<Node>) returns (r: bool)
      requires Valid() && blk < f.g.n && p < |f.code[blk]|
      modifies f, cp, this`tables
      ensures Valid() && SameShape(old(f.code), f.code)
      ensures r <==> NearestSame(old(f.code[blk]), p, old(f.code[blk][p]), vars).Some?
      ensures !r ==> f.code == old(f.code) && tables == old(tables)
      ensures r ==> f.code[blk][p] == WithKid(old(f.code[blk][p]), 1, Kid(old(f.code[blk][NearestSame(f.code[blk], p, f.code[blk][p], vars).value]), 0))
      ensures forall i | 0 <= i < p :: f.code[blk][i] == old(f.code[blk][i])
      ensures Kid(old(f.code[blk][p]), 1).op != REG ==> forall i | p < i < |f.code[blk]| :: f.code[blk][i] == old(f.code[blk][i])
      ensures forall b | 0 <= b < f.g.n && b != blk :: f.code[b] == old(f.code[b]) && tables[b] == old(tables[b])
      ensures old(tables[blk]).None? ==> tables == old(tables)
    {
      var instrs := f.code[blk];
      var n := instrs[p];
      var found := FindNearest(instrs, p, n, vars);
      if found.None? {
        return false;
      }
      var node := instrs[found.value];
      f.code := f.code[blk := instrs[p := WithKid(n, 1, Kid(node, 0))]];
      CopyFrom(blk, Kid(node, 0), Kid(node, 1), p);
      return true;
    }

    /**
     * `initBlk`: walks the block once, eliminating local redundancies and
     * recording every instruction, then stores the block's tables; the
     * block kills memory expressions when it holds a call or a store.
     */
    method InitBlk(blk: nat)
      requires Valid() && blk < f.g.n && tables[blk].None?
      modifies f, cp, this`tables, killBlk
      ensures Valid() && SameShape(old(f.code), f.code)
      ensures tables == old(tables)[blk := Some(RecordUpTo(f.code[blk], |f.code[blk]|))]
      ensures killBlk[blk] == (old(killBlk[blk]) || KillsUpTo(f.code[blk], |f.code[blk]|))
      ensures forall b | 0 <= b < f.g.n && b != blk :: killBlk[b] == old(killBlk[b]) && f.code[b] == old(f.code[b])
      ensures LeafRegs(old(f.code[blk])) ==> f.code[blk] == Eliminated(old(f.code[blk]), |old(f.code[blk])|)
    {
      var m := Walk(blk);
      tables := tables[blk := Some(m)];
    }

    /** The walk of `initBlk` over the whole block, giving the block's tables. */
    method Walk(blk: nat) returns (m: Maps)
      requires Valid() && blk < f.g.n && tables[blk].None?
      modifies f, cp, this`tables, killBlk
      ensures Valid() && tables == old(tables)
      ensures WalkedTo(old(f.code), f.code, old(killBlk[..]), killBlk[..], blk, |f.code[blk]|, m, old(f.code[blk]))
    {
      ghost var orig := f.code[blk];
      ghost var c0, k0 := f.code, killBlk[..];
      m := NoMaps;
      var q := 0;
      while q < |f.code[blk]|
        invariant Valid() == true && tables == old(tables)
        invariant WalkedTo(c0, f.code, k0, killBlk[..], blk, q, m, orig) == true
      {
        m := WalkOne(blk, q, m, orig, c0, k0);
        q := q + 1;
      }
    }

    /** One instruction of `initBlk`'s walk: eliminate, record, and note a kill. */
    method WalkOne(blk: nat, q: nat, m: Maps, ghost orig: seq<Node>, ghost c0: seq<seq<Node>>, ghost k0: seq<bool>)
      returns (m': Maps)
      requires Valid() && blk < f.g.n && tables[blk].None?
      requires WalkedTo(c0, f.code, k0, killBlk[..], blk, q, m, orig) == true && q < |f.code[blk]|
      modifies f, cp, this`tables, killBlk
      ensures Valid() == true && tables == old(tables)
      ensures WalkedTo(c0, f.code, k0, killBlk[..], blk, q + 1, m', orig) == true
    {
      ghost var c1, k1 := f.code, killBlk[..];
      ElimStep(blk, q, orig);
      var node := f.code[blk][q];
      m' := RecordNode(node, m);
      killBlk[blk] := killBlk[blk] || KillsMemory(node);
      WalkStep(c0, c1, f.code, k0, k1, killBlk[..], blk, q, m, m', orig);
    }

    /** One step of `initBlk`'s walk: the elimination at position `q`, leaving the recorded prefix alone. */
    method ElimStep(blk: nat, q: nat, ghost orig: seq<Node>)
      requires Valid() && blk < f.g.n && q < |f.code[blk]| && tables[blk].None? && |orig| == |f.code[blk]|
      requires LeafRegs(orig) ==> f.code[blk] == Eliminated(orig, q)
      modifies f, cp, this`tables
      ensures Valid() && tables == old(tables) && ElimStepped(old(f.code), f.code, blk, q, orig)
    {
      var node := f.code[blk][q];
      if node.op == SET && |Kid(node, 1).kids| > 0 {
        var vars := CollectVars(Kid(node, 1));
        ghost var before := f.code[blk];
        var _ := EliminateLocalRedundant(blk, q, vars);
        if LeafRegs(orig) {
          EliminatedLeafRegs(orig, q);
          assert Kid(before[q], 1).op != REG;
        }
      }
      assert f.code[blk][..q] == old(f.code[blk])[..q];
      UpToPrefix(f.code[blk], old(f.code[blk]), q);
    }

    /** `getBlkVTEMap`, `getBlkETVMap` and `getBlkVarList`: the block's tables, built on first use. */
    method Ready(blk: nat) returns (m: Maps)
      requires Valid() && blk < f.g.n
      modifies f, cp, this`tables, killBlk
      ensures Valid() && tables[blk] == Some(m)
      ensures old(tables[blk]).Some? ==> tables == old(tables) && f.code == old(f.code) && killBlk[..] == old(killBlk[..])
      ensures SteadyOf(old(tables), old(killBlk[..]), old(f.code), [], [], [], tables, killBlk[..], f.code, [], [], [])
      ensures SameShape(old(f.code), f.code)
      ensures forall b | 0 <= b < f.g.n && b != blk :: f.code[b] == old(f.code[b]) && tables[b] == old(tables[b]) && killBlk[b] == old(killBlk[b])
    {
      if tables[blk].None? {
        InitBlk(blk);
      }
      m := tables[blk].value;
    }

    /** Block `b` is initialised, not blocked, and when the question passes through it all its successors are visited. */
    predicate AntOk(b: nat, exp: Node, vars: seq<Node>, vis: array<bool>)
      reads this, killBlk, vis
    {
      && f.g.Valid() && b < f.g.n && b < |tables| && b < killBlk.Length && tables[b].Some?
      && AntAt(f.g, tables[b].value, killBlk[b], b, exp, vars) != Blocked
      && (AntAt(f.g, tables[b].value, killBlk[b], b, exp, vars) == Through ==> forall x | x in f.g.succs[b] :: x < vis.Length && vis[x])
    }

    /**
     * `checkAnt(exp, blk, vars, visited)`: the question whether the
     * expression is computed on every path from `blk` before it is killed
     * or the exit is reached, over the blocks not yet visited.
     */
    method CheckAntFrom(exp: Node, blk: nat, vars: seq<Node>, vis: array<bool>) returns (r: bool)
      requires Valid() && blk < f.g.n && vis.Length == f.g.n && !vis[blk] && vis != killBlk
      modifies f, cp, this`tables, killBlk, vis
      ensures Valid() && SteadyOf(old(tables), old(killBlk[..]), old(f.code), [], [], [], tables, killBlk[..], f.code, [], [], [])
      ensures vis[blk] && tables[blk].Some? && UnvisitedIn(vis) <= old(UnvisitedIn(vis))
      ensures forall b | 0 <= b < f.g.n && old(vis[b]) :: vis[b]
      ensures AntAt(f.g, tables[blk].value, killBlk[blk], blk, exp, vars) == Computed ==> r
      ensures AntAt(f.g, tables[blk].value, killBlk[blk], blk, exp, vars) == Blocked ==> !r
      ensures r ==> forall b | 0 <= b < f.g.n && vis[b] && !old(vis[b]) :: AntOk(b, exp, vars, vis)
      ensures !r ==> exists b | 0 <= b < f.g.n && vis[b] :: tables[b].Some? && AntAt(f.g, tables[b].value, killBlk[b], b, exp, vars) == Blocked
      decreases UnvisitedIn(vis), 0
    {
      ghost var u0 := UnvisitedIn(vis);
      var m := Ready(blk);
      vis[blk] := true;
      assert blk in u0 && UnvisitedIn(vis) == u0 - {blk};
      ghost var t1, k1, c1 := tables, killBlk[..], f.code;
      r := AntFromOn(exp, blk, vars, vis, m);
      SteadyTrans(old(tables), old(killBlk[..]), old(f.code), [], [], [], t1, k1, c1, [], [], [],
                  tables, killBlk[..], f.code, [], [], []);
    }

    /** The answer of `checkAnt(exp, blk, vars, visited)` once the block is visited and its tables `m` are built. */
    method AntFromOn(exp: Node, blk: nat, vars: seq<Node>, vis: array<bool>, m: Maps) returns (r: bool)
      requires Valid() && blk < f.g.n && vis.Length == f.g.n && vis[blk] && vis != killBlk && tables[blk] == Some(m)
      modifies f, cp, this`tables, killBlk, vis
      ensures Valid() && SteadyOf(old(tables), old(killBlk[..]), old(f.code), [], [], [], tables, killBlk[..], f.code, [], [], [])
      ensures UnvisitedIn(vis) <= old(UnvisitedIn(vis))
      ensures forall b | 0 <= b < f.g.n && old(vis[b]) :: vis[b]
      ensures AntAt(f.g, m, old(killBlk[blk]), blk, exp, vars) == Computed ==> r
      ensures AntAt(f.g, m, old(killBlk[blk]), blk, exp, vars) == Blocked ==> !r
      ensures r ==> AntAt(f.g, m, old(killBlk[blk]), blk, exp, vars) == Through ==> forall x | x in f.g.succs[blk] :: vis[x]
      ensures r ==> forall b | 0 <= b < f.g.n && vis[b] && !old(vis[b]) :: AntOk(b, exp, vars, vis)
      ensures !r ==> exists b | 0 <= b < f.g.n && vis[b] :: tables[b].Some? && AntAt(f.g, tables[b].value, killBlk[b], b, exp, vars) == Blocked
      decreases UnvisitedIn(vis), 3
    {
      if exp in m.expToVar {
        r := ScanAnt(m.varList, m.expToVar[exp], exp, vars);
        return;
      }
      if (exp.op == MEM && killBlk[blk]) || blk == f.g.exit {
        return false;
      }
      var listed := AnyListed(vars, m.varList);
      if listed {
        return false;
      }
      r := ThroughSuccs(exp, blk, vars, vis, -1);
    }

    /** One unvisited successor of the loop in `ThroughSuccs`: the blocks it newly visits are all fine when it answers true. */
    method AskSucc(exp: Node, s: nat, vars: seq<Node>, vis: array<bool>, ghost vis0: seq<bool>) returns (ok: bool)
      requires Valid() && s < f.g.n && vis.Length == f.g.n && !vis[s] && vis != killBlk && |vis0| == f.g.n
      requires forall b | 0 <= b < f.g.n && vis[b] && !vis0[b] :: AntOk(b, exp, vars, vis)
      modifies f, cp, this`tables, killBlk, vis
      ensures Valid() && SteadyOf(old(tables), old(killBlk[..]), old(f.code), [], [], [], tables, killBlk[..], f.code, [], [], [])
      ensures UnvisitedIn(vis) <= old(UnvisitedIn(vis)) && vis[s]
      ensures forall b | 0 <= b < f.g.n && old(vis[b]) :: vis[b]
      ensures ok ==> forall b | 0 <= b < f.g.n && vis[b] && !vis0[b] :: AntOk(b, exp, vars, vis)
      ensures !ok ==> exists b | 0 <= b < f.g.n && vis[b] :: tables[b].Some? && AntAt(f.g, tables[b].value, killBlk[b], b, exp, vars) == Blocked
      decreases UnvisitedIn(vis), 1
    {
      ghost var t0 := tables;
      ghost var visMid := vis[..];
      ok := CheckAntFrom(exp, s, vars, vis);
      if ok {
        forall b | 0 <= b < f.g.n && vis[b] && !vis0[b]
          ensures AntOk(b, exp, vars, vis)
        {
          if visMid[b] {
            assert t0[b].Some?;
          }
        }
      }
    }

    /** The successor loops of both `checkAnt` methods: every successor but `skip` not yet visited is asked. */
    method ThroughSuccs(exp: Node, blk: nat, vars: seq<Node>, vis: array<bool>, skip: int) returns (r: bool)
      requires Valid() && blk < f.g.n && vis.Length == f.g.n && vis != killBlk
      modifies f, cp, this`tables, killBlk, vis
      ensures Valid() && SteadyOf(old(tables), old(killBlk[..]), old(f.code), [], [], [], tables, killBlk[..], f.code, [], [], [])
      ensures UnvisitedIn(vis) <= old(UnvisitedIn(vis))
      ensures forall b | 0 <= b < f.g.n && old(vis[b]) :: vis[b]
      ensures r ==> forall y | y in f.g.succs[blk] && y != skip :: vis[y]
      ensures r ==> forall b | 0 <= b < f.g.n && vis[b] && !old(vis[b]) :: AntOk(b, exp, vars, vis)
      ensures !r ==> exists b | 0 <= b < f.g.n && vis[b] :: tables[b].Some? && AntAt(f.g, tables[b].value, killBlk[b], b, exp, vars) == Blocked
      decreases UnvisitedIn(vis), 2
    {
      var succs := f.g.succs[blk];
      IdsBelowAt(f.g.succs, f.g.n, blk);
      ghost var vis0 := vis[..];
      var i := 0;
      while i < |succs|
        invariant Valid() && SteadyOf(old(tables), old(killBlk[..]), old(f.code), [], [], [], tables, killBlk[..], f.code, [], [], [])
        invariant 0 <= i <= |succs| && UnvisitedIn(vis) <= old(UnvisitedIn(vis))
        invariant forall b | 0 <= b < f.g.n && vis0[b] :: vis[b]
        invariant forall k | 0 <= k < i :: succs[k] == skip || vis[succs[k]]
        invariant forall b | 0 <= b < f.g.n && vis[b] && !vis0[b] :: AntOk(b, exp, vars, vis)
        decreases |succs| - i
      {
        var s := succs[i];
        if !vis[s] && s != skip {
          var ok := AskSucc(exp, s, vars, vis, vis0);
          if !ok {
            return false;
          }
        }
        i := i + 1;
      }
      return true;
    }

    /**
     * `checkAnt(exp, blk, vars)`: the expression is computed on every path
     * leaving `blk`, other than the paths through its own block, before
     * it is killed or the exit is reached.
     */
    method CheckAnt(exp: Node, blk: nat, vars: seq<Node>) returns (r: bool)
      requires Valid() && blk < f.g.n
      modifies f, cp, this`tables, killBlk
      ensures Valid() && SteadyOf(old(tables), old(killBlk[..]), old(f.code), [], [], [], tables, killBlk[..], f.code, [], [], [])
      ensures r ==> AntFrom(blk, exp, vars)
      ensures !r ==> exists b | 0 <= b < f.g.n :: tables[b].Some? && AntAt(f.g, tables[b].value, killBlk[b], b, exp, vars) == Blocked
    {
      var vis := new bool[f.g.n](_ => false);
      r := ThroughSuccs(exp, blk, vars, vis, exprBlk);
      if !r {
        return;
      }
      ghost var V := set b | 0 <= b < f.g.n && vis[b];
      assert AntRegion(f.g, tables, killBlk[..], V, exp, vars) && Covers(f.g, blk, exprBlk, V);
      return true;
    }

    /** The loop of `propagate` asking `checkAnt` of every blocked predecessor. */
    method CheckAll(exp: Node, blks: seq<nat>, vars: seq<Node>) returns (r: bool)
      requires Valid() && forall k | 0 <= k < |blks| :: blks[k] < f.g.n
      modifies f, cp, this`tables, killBlk
      ensures Valid() && SteadyOf(old(tables), old(killBlk[..]), old(f.code), [], [], [], tables, killBlk[..], f.code, [], [], [])
      ensures r ==> forall k | 0 <= k < |blks| :: AntFrom(blks[k], exp, vars)
    {
      var i := 0;
      while i < |blks|
        invariant Valid() && SteadyOf(old(tables), old(killBlk[..]), old(f.code), [], [], [], tables, killBlk[..], f.code, [], [], [])
        invariant 0 <= i <= |blks|
        invariant forall k | 0 <= k < i :: AntFrom(blks[k], exp, vars)
        decreases |blks| - i
      {
        ghost var t0, k0 := tables, killBlk[..];
        var ok := CheckAnt(exp, blks[i], vars);
        if !ok {
          return false;
        }
        forall k | 0 <= k < i
          ensures AntFrom(blks[k], exp, vars)
        {
          AntFromKept(f.g, t0, k0, tables, killBlk[..], exprBlk, blks[k], exp, vars);
        }
        i := i + 1;
      }
      return true;
    }

    /**
     * `local`: the question at a predecessor. A block computing the
     * expression answers by `local`'s backward scan, and then receives
     * the temporary; a killing block for a memory expression, or a block
     * assigning an operand, answers no; any other block asks its own
     * predecessors.
     */
    method Local(node: Node, blk: nat, vars: seq<Node>) returns (r: bool)
      requires Valid() && blk < f.g.n && !visited[blk]
      modifies f, cp, this`tables, this`insertBlk, killBlk, visited, result, isAvail, isReal
      ensures Valid() && Steady(old(tables), old(killBlk[..]), old(f.code), old(insertBlk), old(isAvail[..]), old(isReal[..]))
      ensures Unvisited() <= old(Unvisited()) && visited[blk] && tables[blk].Some?
      ensures r ==> isAvail[blk]
      ensures Kid(node, 1) in tables[blk].value.expToVar ==>
        && (r <==> HeldFrom(tables[blk].value, |tables[blk].value.varList|, Kid(node, 1), vars))
        && (r ==> isReal[blk] && blk in insertBlk)
      ensures Kid(node, 1) !in tables[blk].value.expToVar && Kid(node, 1).op == MEM && killBlk[blk] ==> !r
      ensures Kid(node, 1) !in tables[blk].value.expToVar && (exists x | x in vars :: x in tables[blk].value.varList) ==> !r
      decreases Unvisited(), 0
    {
      ghost var u0 := Unvisited();
      visited[blk] := true;
      assert blk in u0 && Unvisited() == u0 - {blk};
      ghost var i0, a0, r0 := insertBlk, isAvail[..], isReal[..];
      var m := Ready(blk);
      SteadyMarks(old(tables), old(killBlk[..]), old(f.code), tables, killBlk[..], f.code, i0, a0, r0);
      ghost var t1, k1, c1 := tables, killBlk[..], f.code;
      assert Unvisited() < u0;
      r := LocalOn(node, blk, vars, m);
      SteadyTrans(old(tables), old(killBlk[..]), old(f.code), i0, a0, r0,
                  t1, k1, c1, i0, a0, r0,
                  tables, killBlk[..], f.code, insertBlk, isAvail[..], isReal[..]);
    }

    /** The answer of `local` once the block is visited and its tables `m` are built. */
    method LocalOn(node: Node, blk: nat, vars: seq<Node>, m: Maps) returns (r: bool)
      requires Valid() && blk < f.g.n && visited[blk] && tables[blk] == Some(m)
      modifies f, cp, this`tables, this`insertBlk, killBlk, visited, result, isAvail, isReal
      ensures Valid() && Steady(old(tables), old(killBlk[..]), old(f.code), old(insertBlk), old(isAvail[..]), old(isReal[..]))
      ensures Unvisited() <= old(Unvisited()) && visited[blk] && tables[blk] == Some(m) && killBlk[blk] == old(killBlk[blk])
      ensures r ==> isAvail[blk]
      ensures Kid(node, 1) in m.expToVar ==>
        && (r <==> HeldFrom(m, |m.varList|, Kid(node, 1), vars))
        && (r ==> isReal[blk] && blk in insertBlk)
      ensures Kid(node, 1) !in m.expToVar && Kid(node, 1).op == MEM && killBlk[blk] ==> !r
      ensures Kid(node, 1) !in m.expToVar && (exists x | x in vars :: x in m.varList) ==> !r
      decreases Unvisited(), 4
    {
      var e := Kid(node, 1);
      if e in m.expToVar {
        r := ScanHeld(m, e, vars);
        if r {
          MarkHeld(blk);
        }
        return;
      }
      if e.op == MEM && killBlk[blk] {
        return false;
      }
      var listed := AnyListed(vars, m.varList);
      if listed {
        return false;
      }
      ghost var answers;
      r, answers := Propagate(node, blk, vars);
    }

    /** A block holding the expression at its end: it receives the temporary and is marked as a real computation. */
    method MarkHeld(blk: nat)
      requires Valid() && blk < f.g.n
      modifies this`insertBlk, isAvail, isReal
      ensures Valid() && insertBlk == old(insertBlk) + [blk] && isAvail[blk] && isReal[blk]
      ensures SteadyOf(tables, killBlk[..], f.code, old(insertBlk), old(isAvail[..]), old(isReal[..]),
                       tables, killBlk[..], f.code, insertBlk, isAvail[..], isReal[..])
    {
      insertBlk := insertBlk + [blk];
      isAvail[blk] := true;
      isReal[blk] := true;
    }

    /**
     * One predecessor of `propagate`'s loop: a visited one answers from its
     * marks (an unfinished one counts as available), the expression's own
     * block from the scan of its end, any other one through `local`.
     */
    method AskPred(node: Node, pred: nat, vars: seq<Node>) returns (a: Answer)
      requires Valid() && pred < f.g.n
      modifies f, cp, this`tables, this`insertBlk, killBlk, visited, result, isAvail, isReal
      ensures Valid() && Steady(old(tables), old(killBlk[..]), old(f.code), old(insertBlk), old(isAvail[..]), old(isReal[..]))
      ensures Unvisited() <= old(Unvisited())
      ensures a.blocked ==> a.unavail
      ensures a.unavail ==> !a.avail
      ensures a.viaReal ==> a.avail && isAvail[pred] && isReal[pred]
      ensures a.avail ==> isAvail[pred] || (old(visited[pred]) && !old(result[pred]))
      decreases Unvisited(), 1
    {
      if visited[pred] {
        if result[pred] {
          if isAvail[pred] {
            a := Answer(true, false, isReal[pred], false);
          } else {
            a := Answer(false, true, false, true);
          }
        } else {
          a := Answer(true, false, false, false);
        }
      } else if pred == exprBlk {
        result[pred] := true;
        var t := ScanTail(f.code[pred], exprPos, node, vars);
        if t.found {
          insertBlk := insertBlk + [pred];
        }
        if t.avail {
          isAvail[pred] := true;
          isReal[pred] := true;
        }
        a := ExprBlkAnswer(t.avail);
      } else {
        var l := Local(node, pred, vars);
        a := if l then Answer(true, false, isReal[pred], false) else Answer(false, true, false, true);
        result[pred] := true;
      }
    }

    /** The loop of `propagate` over the predecessors of `blk`, one answer each. */
    method AskPreds(node: Node, blk: nat, vars: seq<Node>) returns (answers: seq<Answer>)
      requires Valid() && blk < f.g.n
      modifies f, cp, this`tables, this`insertBlk, killBlk, visited, result, isAvail, isReal
      ensures Valid() && Steady(old(tables), old(killBlk[..]), old(f.code), old(insertBlk), old(isAvail[..]), old(isReal[..]))
      ensures Unvisited() <= old(Unvisited())
      ensures |answers| == |f.g.preds[blk]|
      ensures forall i | 0 <= i < |answers| :: answers[i].blocked ==> answers[i].unavail
      ensures forall i | 0 <= i < |answers| && answers[i].viaReal :: var p := f.g.preds[blk][i]; p < f.g.n && isAvail[p] && isReal[p]
      decreases Unvisited(), 2
    {
      var preds := f.g.preds[blk];
      IdsBelowAt(f.g.preds, f.g.n, blk);
      answers := [];
      while |answers| < |preds|
        invariant Valid() && Steady(old(tables), old(killBlk[..]), old(f.code), old(insertBlk), old(isAvail[..]), old(isReal[..]))
        invariant Unvisited() <= old(Unvisited()) && |answers| <= |preds|
        invariant forall i | 0 <= i < |answers| :: answers[i].blocked ==> answers[i].unavail
        invariant forall i | 0 <= i < |answers| && answers[i].viaReal :: preds[i] < f.g.n && isAvail[preds[i]] && isReal[preds[i]]
        decreases |preds| - |answers|
      {
        var a := AskPred(node, preds[|answers|], vars);
        answers := answers + [a];
      }
    }

    /**
     * `propagate`: whether the source of `node` is available at the start
     * of `blk`. Available on no predecessor, refused; on all, accepted; on
     * some, accepted only with a real computation among them and when every
     * blocked predecessor anticipates it, which then receives the
     * temporary.
     */
    method Propagate(node: Node, blk: nat, vars: seq<Node>) returns (r: bool, ghost answers: seq<Answer>)
      requires Valid() && blk < f.g.n
      modifies f, cp, this`tables, this`insertBlk, killBlk, visited, result, isAvail, isReal
      ensures Valid() && Steady(old(tables), old(killBlk[..]), old(f.code), old(insertBlk), old(isAvail[..]), old(isReal[..]))
      ensures Unvisited() <= old(Unvisited()) && visited[blk] && result[blk]
      ensures r ==> isAvail[blk]
      ensures blk == f.g.entry ==> !r
      ensures blk != f.g.entry ==> |answers| == |f.g.preds[blk]|
      ensures blk != f.g.entry ==> forall i | 0 <= i < |answers| :: answers[i].blocked ==> answers[i].unavail
      ensures blk != f.g.entry ==> (r ==> PlanOf(answers, f.g.preds[blk]) != Refuse) && (PlanOf(answers, f.g.preds[blk]) == Accept ==> r)
      ensures r && blk != f.g.entry ==> forall i | 0 <= i < |answers| && answers[i].blocked ::
        f.g.preds[blk][i] in insertBlk && AntFrom(f.g.preds[blk][i], Kid(node, 1), vars)
      decreases Unvisited(), 3
    {
      var preds: seq<nat> := [];
      var asked: seq<Answer> := [];
      if blk != f.g.entry {
        preds := f.g.preds[blk];
        IdsBelowAt(f.g.preds, f.g.n, blk);
        asked := AskPreds(node, blk, vars);
      }
      answers := asked;
      result[blk] := true;
      visited[blk] := true;
      r := Decide(node, blk, vars, asked, preds);
    }

    /** The end of `propagate`: the decision on the predecessors' answers. */
    method Decide(node: Node, blk: nat, vars: seq<Node>, answers: seq<Answer>, preds: seq<nat>) returns (r: bool)
      requires Valid() && blk < f.g.n && |answers| == |preds| && forall k | 0 <= k < |preds| :: preds[k] < f.g.n
      requires forall i | 0 <= i < |answers| :: answers[i].blocked ==> answers[i].unavail
      modifies f, cp, this`tables, this`insertBlk, killBlk, isAvail, isReal
      ensures Valid() && Steady(old(tables), old(killBlk[..]), old(f.code), old(insertBlk), old(isAvail[..]), old(isReal[..]))
      ensures r ==> isAvail[blk]
      ensures (r ==> PlanOf(answers, preds) != Refuse) && (PlanOf(answers, preds) == Accept ==> r)
      ensures r ==> forall i | 0 <= i < |answers| && answers[i].blocked :: preds[i] in insertBlk && AntFrom(preds[i], Kid(node, 1), vars)
    {
      var plan := PlanOf(answers, preds);
      PlanSound(answers, preds);
      if plan == Refuse {
        return false;
      }
      if plan.CheckThen? {
        var blks := plan.blocked;
        assert forall x | x in blks :: x < f.g.n;
        var ok := CheckBlocked(Kid(node, 1), blks, vars);
        if !ok {
          return false;
        }
      }
      ghost var t1, k1, c1, i1, a1, r1 := tables, killBlk[..], f.code, insertBlk, isAvail[..], isReal[..];
      MarkAvail(blk, exists i | 0 <= i < |answers| :: answers[i].viaReal);
      SteadyTrans(old(tables), old(killBlk[..]), old(f.code), old(insertBlk), old(isAvail[..]), old(isReal[..]),
                  t1, k1, c1, i1, a1, r1, tables, killBlk[..], f.code, insertBlk, isAvail[..], isReal[..]);
      r := true;
    }

    /** An accepted block is available, and marked real when `viaReal` says a real computation reaches it. */
    method MarkAvail(blk: nat, viaReal: bool)
      requires Valid() && blk < f.g.n
      modifies isAvail, isReal
      ensures Valid() && isAvail[blk] && (viaReal ==> isReal[blk])
      ensures SteadyOf(tables, killBlk[..], f.code, insertBlk, old(isAvail[..]), old(isReal[..]),
                       tables, killBlk[..], f.code, insertBlk, isAvail[..], isReal[..])
    {
      isAvail[blk] := true;
      if viaReal {
        isReal[blk] := true;
      }
    }

    /** The blocked predecessors must all anticipate the expression; then they all receive the temporary. */
    method CheckBlocked(exp: Node, blks: seq<nat>, vars: seq<Node>) returns (ok: bool)
      requires Valid() && forall x | x in blks :: x < f.g.n
      modifies f, cp, this`tables, this`insertBlk, killBlk
      ensures Valid() && Steady(old(tables), old(killBlk[..]), old(f.code), old(insertBlk), isAvail[..], isReal[..])
      ensures ok ==> insertBlk == old(insertBlk) + blks && forall x | x in blks :: AntFrom(x, exp, vars)
    {
      assert forall k | 0 <= k < |blks| :: blks[k] in blks;
      ok := CheckAll(exp, blks, vars);
      if ok {
        insertBlk := insertBlk + blks;
        forall x | x in blks
          ensures AntFrom(x, exp, vars)
        {
          var k :| 0 <= k < |blks| && blks[k] == x;
        }
      }
    }

    /** The fresh temporaries: each inserted SET is a temporary, numbered below `nextSym`, in increasing order. */
    predicate Temps()
      reads this`insertedNode, this`nextSym
    {
      TempsOf(insertedNode, nextSym)
    }

    /**
     * `replace`: the instruction at `q` takes the new source, and a copy
     * between registers is propagated through the rest of the block.
     */
    method Replace(blk: nat, q: nat, nn: Node)
      requires Valid() && blk < f.g.n && q < |f.code[blk]|
      modifies f, cp, this`tables
      ensures Valid() && SameShape(old(f.code), f.code)
      ensures f.code[blk][q] == Rewritten(old(f.code[blk][q]), nn)
      ensures forall i | 0 <= i < q :: f.code[blk][i] == old(f.code[blk][i])
      ensures forall b | 0 <= b < f.g.n && b != blk :: f.code[b] == old(f.code[b]) && tables[b] == old(tables[b])
      ensures old(tables[blk]).None? ==> tables == old(tables)
      ensures KeepsSome(old(tables), tables)
    {
      var n := Rewritten(f.code[blk][q], nn);
      f.code := f.code[blk := f.code[blk][q := n]];
      CopyFrom(blk, Kid(n, 0), Kid(n, 1), q);
    }

    /** `getNewNode`: the temporary of the current candidate, made on first use with the next fresh register. */
    method GetNewNode(node: Node) returns (nn: Node)
      modifies this`newNode, this`nextSym
      ensures old(newNode).None? ==> nn == CreateNewNode(node, old(nextSym)) && nextSym == old(nextSym) + 1 && newNode == Some(nn)
      ensures old(newNode).Some? ==> nn == old(newNode).value && nextSym == old(nextSym) && newNode == old(newNode)
    {
      if newNode.None? {
        newNode := Some(CreateNewNode(node, nextSym));
        nextSym := nextSym + 1;
      }
      nn := newNode.value;
    }

    /**
     * `insert` into one block: the temporary goes where the block's
     * backward scan places it, `varList` lists it next to the register it
     * sits beside, and the block's tables record it as the holder of its
     * source.
     */
    method InsertIn(bl: nat, node: Node, tmp: Node, vars: seq<Node>) returns (at: nat)
      requires Valid() && bl < f.g.n && tmp.op == SET && |tmp.kids| >= 2 && |Kid(tmp, 1).kids| > 0
      modifies f, cp, this`tables, killBlk
      ensures Valid() && |f.code[bl]| == |old(f.code[bl])| + 1 && at < |f.code[bl]|
      ensures forall b | 0 <= b < f.g.n && b != bl :: f.code[b] == old(f.code[b]) && tables[b] == old(tables[b]) && killBlk[b] == old(killBlk[b])
      ensures tables[bl].Some? && Registered(tables[bl].value, Kid(tmp, 0))
      ensures f.code[bl][at].op == SET && Kid(f.code[bl][at], 0) == Kid(tmp, 0)
      ensures old(tables[bl]).Some? ==>
        var pl := PlaceIn(old(f.code[bl]), |old(f.code[bl])|, node, tmp, vars, old(tables[bl]).value.varToExp);
        && at == PlaceAt(pl, |old(f.code[bl])|)
        && f.code[bl][..at] == old(f.code[bl])[..at]
        && (pl.After? ==> f.code[bl][at] == WithKid(tmp, 1, Kid(old(f.code[bl])[pl.pos], 0)))
        && (!pl.After? ==> f.code[bl][at] == tmp)
        && (pl.Before? ==> Kid(f.code[bl][at + 1], 1) == Kid(tmp, 0))
    {
      var m := Ready(bl);
      var pl := FindPlace(f.code[bl], node, tmp, vars, m.varToExp);
      var ins;
      ins, at := Put(bl, m, pl, tmp);
      var m2 := tables[bl].value;
      tables := tables[bl := Some(m2.(expToVar := m2.expToVar[Kid(ins, 1) := Kid(ins, 0)],
                                      varToExp := m2.varToExp[Kid(ins, 0) := Kid(ins, 1)]))];
    }

    /**
     * The placement itself: the new instruction enters the block and
     * `varList` at the chosen place; before a SET computing the
     * expression, that SET then reads the temporary.
     */
    method Put(bl: nat, m: Maps, pl: Place, tmp: Node) returns (ins: Node, at: nat)
      requires Valid() && bl < f.g.n && tables[bl] == Some(m) && tmp.op == SET && |tmp.kids| >= 2
      requires !pl.AtEnd? ==> pl.pos < |f.code[bl]|
      requires pl.Before? ==> |f.code[bl][pl.pos].kids| >= 2
      modifies f, cp, this`tables
      ensures Valid() && |f.code[bl]| == |old(f.code[bl])| + 1 && tables[bl].Some?
      ensures forall b | 0 <= b < f.g.n && b != bl :: f.code[b] == old(f.code[b]) && tables[b] == old(tables[b])
      ensures at == PlaceAt(pl, |old(f.code[bl])|) && at < |f.code[bl]| && f.code[bl][at] == ins && Kid(ins, 0) == Kid(tmp, 0)
      ensures f.code[bl][..at] == old(f.code[bl])[..at]
      ensures pl.After? ==> ins == WithKid(tmp, 1, Kid(old(f.code[bl])[pl.pos], 0))
      ensures !pl.After? ==> ins == tmp
      ensures pl.Before? ==> Kid(f.code[bl][at + 1], 1) == Kid(tmp, 0)
    {
      match pl
      case Before(j) => {
        ins := tmp;
        at := PutBefore(bl, m, j, tmp);
      }
      case After(j) => {
        ins := WithKid(tmp, 1, Kid(f.code[bl][j], 0));
        PutAfter(bl, m, j, ins);
        at := j + 1;
      }
      case AtEnd => {
        ins := tmp;
        at := PutAtEnd(bl, m, tmp);
      }
    }

    /** Before the SET at `j` computing the expression, which then reads the temporary. */
    method PutBefore(bl: nat, m: Maps, j: nat, tmp: Node) returns (at: nat)
      requires Valid() && bl < f.g.n && tables[bl] == Some(m) && j < |f.code[bl]| && |f.code[bl][j].kids| >= 2
      modifies f, cp, this`tables
      ensures Valid() && |f.code[bl]| == |old(f.code[bl])| + 1 && tables[bl].Some?
      ensures forall b | 0 <= b < f.g.n && b != bl :: f.code[b] == old(f.code[b]) && tables[b] == old(tables[b])
      ensures at == j && f.code[bl][j] == tmp && f.code[bl][..j] == old(f.code[bl])[..j]
      ensures tmp.op == SET ==> Kid(f.code[bl][j + 1], 1) == Kid(tmp, 0)
    {
      var instrs := f.code[bl];
      f.code := f.code[bl := InsertAt(instrs, j, tmp)];
      var idx := IndexOf(m.varList, Kid(instrs[j], 0));
      var vl := if idx < 0 then m.varList + [Kid(tmp, 0)] else InsertAt(m.varList, idx, Kid(tmp, 0));
      tables := tables[bl := Some(m.(varList := vl))];
      assert f.code[bl][j + 1] == instrs[j];
      ghost var mid := f.code[bl];
      Replace(bl, j + 1, tmp);
      assert f.code[bl][..j] == mid[..j];
      at := j;
    }

    /** After the SET at `j` whose destination holds the expression. */
    method PutAfter(bl: nat, m: Maps, j: nat, ins: Node)
      requires Valid() && bl < f.g.n && tables[bl] == Some(m) && j < |f.code[bl]|
      modifies f, this`tables
      ensures Valid() && f.code == old(f.code)[bl := InsertAt(old(f.code[bl]), j + 1, ins)] && tables[bl].Some?
      ensures forall b | 0 <= b < f.g.n && b != bl :: tables[b] == old(tables[b])
    {
      var instrs := f.code[bl];
      var idx := IndexOf(m.varList, Kid(instrs[j], 0));
      var vl := InsertAt(m.varList, idx + 1, Kid(ins, 0));
      f.code := f.code[bl := InsertAt(instrs, j + 1, ins)];
      tables := tables[bl := Some(m.(varList := vl))];
    }

    /** Before the last instruction of the block, when the scan found no place. */
    method PutAtEnd(bl: nat, m: Maps, tmp: Node) returns (at: nat)
      requires Valid() && bl < f.g.n && tables[bl] == Some(m)
      modifies f, this`tables
      ensures at == (if |old(f.code[bl])| > 0 then |old(f.code[bl])| - 1 else 0)
      ensures Valid() && f.code == old(f.code)[bl := InsertAt(old(f.code[bl]), at, tmp)] && tables[bl].Some?
      ensures forall b | 0 <= b < f.g.n && b != bl :: tables[b] == old(tables[b])
    {
      at := if |f.code[bl]| > 0 then |f.code[bl]| - 1 else 0;
      f.code := f.code[bl := InsertAt(f.code[bl], at, tmp)];
      tables := tables[bl := Some(m.(varList := m.varList + [Kid(tmp, 0)]))];
    }

    /**
     * `insert`: every block listed in `insertBlk` receives the temporary
     * once; `pos` follows the candidate at position `pos` of block `cur`
     * across an insertion in front of it.
     */
    method Insert(node: Node, tmp: Node, vars: seq<Node>, cur: nat, pos: nat) returns (pos': nat)
      requires Valid() && tmp.op == SET && |tmp.kids| >= 2 && |Kid(tmp, 1).kids| > 0
      requires cur < f.g.n && pos < |f.code[cur]|
      modifies f, cp, this`tables, this`insertedNode, killBlk
      ensures Valid() && insertedNode == old(insertedNode) + [tmp]
      ensures forall b | 0 <= b < f.g.n && b !in insertBlk :: f.code[b] == old(f.code[b]) && tables[b] == old(tables[b])
      ensures forall b | b in insertBlk :: b < f.g.n && Holds(tables[b], f.code[b], tmp)
      ensures pos' < |f.code[cur]| && (pos' == pos || (cur in insertBlk && pos' == pos + 1))
    {
      var inserted := seq(f.g.n, _ => false);
      var blks := insertBlk;
      pos' := pos;
      var i := 0;
      while i < |blks|
        invariant Valid() && insertedNode == old(insertedNode) && insertBlk == blks && 0 <= i <= |blks| && |inserted| == f.g.n
        invariant forall k | 0 <= k < i :: inserted[blks[k]]
        invariant forall b | 0 <= b < f.g.n && inserted[b] :: b in blks
        invariant InsertedSoFar(old(f.code), old(tables), f.code, tables, inserted, tmp)
        invariant pos' < |f.code[cur]| && (pos' == pos || (inserted[cur] && pos' == pos + 1))
        decreases |blks| - i
      {
        var bl := blks[i];
        if !inserted[bl] {
          ghost var c1, t1 := f.code, tables;
          pos' := InsertOnce(bl, node, tmp, vars, cur, pos');
          InsertedStep(old(f.code), old(tables), c1, t1, f.code, tables, inserted, bl, tmp);
          inserted := inserted[bl := true];
        }
        i := i + 1;
      }
      insertedNode := insertedNode + [tmp];
      assert forall b | b in insertBlk :: b < f.g.n && inserted[b];
    }

    /** One block of `insert`'s loop, with the candidate's position carried along. */
    method InsertOnce(bl: nat, node: Node, tmp: Node, vars: seq<Node>, cur: nat, pos: nat) returns (pos': nat)
      requires Valid() && bl < f.g.n && tmp.op == SET && |tmp.kids| >= 2 && |Kid(tmp, 1).kids| > 0
      requires cur < f.g.n && pos < |f.code[cur]|
      modifies f, cp, this`tables, killBlk
      ensures Valid() && |f.code[bl]| == |old(f.code[bl])| + 1
      ensures forall b | 0 <= b < f.g.n && b != bl :: f.code[b] == old(f.code[b]) && tables[b] == old(tables[b])
      ensures Holds(tables[bl], f.code[bl], tmp)
      ensures pos' < |f.code[cur]| && (pos' == pos || (cur == bl && pos' == pos + 1))
    {
      var at := InsertIn(bl, node, tmp, vars);
      pos' := pos;
      if bl == cur && at <= pos {
        pos' := pos + 1;
      }
    }

    /**
     * `checkBlk`: every SET computing an integer or floating-point
     * expression whose operands are not killed before it in the block is
     * a candidate, visited in order. At most `fuel` instructions are
     * visited.
     */
    method CheckBlk(blk: nat, fuel: nat)
      requires Valid() && Temps() && blk < f.g.n
      modifies this, f, cp, killBlk
      ensures Valid() && Temps() && killBlk == old(killBlk) && old(insertedNode) <= insertedNode && nextSym >= old(nextSym)
      ensures tables[blk].Some? && StillBuilt(old(tables), tables)
    {
      var m := Ready(blk);
      var num := 0;
      var q := 0;
      var steps := fuel;
      while q < |f.code[blk]| && steps > 0
        invariant 0 <= q && Valid() && Temps() && killBlk == old(killBlk) && old(insertedNode) <= insertedNode && nextSym >= old(nextSym)
        invariant tables[blk].Some? && StillBuilt(old(tables), tables)
        decreases steps
      {
        num := num + 1;
        assert q < |f.code[blk]|;
        q := Candidate(blk, q, num);
        q := q + 1;
        steps := steps - 1;
      }
    }

    /**
     * One instruction of `checkBlk`: for a candidate whose source
     * `propagate` finds available at the start of the block, the
     * temporary is inserted where needed and the candidate reads it. The
     * result is the candidate's position after the insertions.
     */
    method Candidate(blk: nat, q: nat, num: nat) returns (q': nat)
      requires Valid() && Temps() && blk < f.g.n && q < |f.code[blk]| && tables[blk].Some?
      modifies this, f, cp, killBlk
      ensures Valid() && Temps() && killBlk == old(killBlk) && old(insertedNode) <= insertedNode && nextSym >= old(nextSym)
      ensures tables[blk].Some? && StillBuilt(old(tables), tables)
    {
      q' := q;
      var node := f.code[blk][q];
      if node.op == SET && |Kid(node, 1).kids| > 0 && CheckType(node) {
        var vars := CollectVars(Kid(node, 1));
        var transp := CheckTransp(blk, q, node, vars);
        if transp {
          q' := Query(node, blk, q, vars, |f.code[blk]| - num + 1);
        }
      }
    }

    /** `propagate` from the candidate's block with fresh per-candidate state, and the rewrite when it succeeds. */
    method Query(node: Node, blk: nat, q: nat, vars: seq<Node>, pos: int) returns (q': nat)
      requires Valid() && Temps() && blk < f.g.n && q < |f.code[blk]| && tables[blk].Some?
      requires f.code[blk][q] == node && node.op == SET && |Kid(node, 1).kids| > 0 && CheckType(node)
      modifies this, f, cp, killBlk
      ensures Valid() && Temps() && killBlk == old(killBlk) && old(insertedNode) <= insertedNode && nextSym >= old(nextSym)
      ensures tables[blk].Some? && StillBuilt(old(tables), tables)
    {
      ResetMarks();
      ResetQuery(blk, pos);
      ghost var answers;
      var ok;
      ghost var t0, c0 := tables, f.code;
      ok, answers := Propagate(node, blk, vars);
      assert tables[blk] == t0[blk] && f.code[blk] == c0[blk];
      q' := q;
      if ok {
        q' := Rewrite(node, blk, q, vars);
      }
    }

    /** The per-candidate marks of `checkBlk`: every block unvisited, without a result, not available. */
    method ResetMarks()
      requires Valid()
      modifies this`visited, this`result, this`isAvail, this`isReal
      ensures Valid() && fresh(visited) && fresh(result) && fresh(isAvail) && fresh(isReal)
      ensures forall b | 0 <= b < f.g.n :: !visited[b] && !result[b] && !isAvail[b] && !isReal[b]
    {
      visited := new bool[f.g.n](_ => false);
      result := new bool[f.g.n](_ => false);
      isAvail := new bool[f.g.n](_ => false);
      isReal := new bool[f.g.n](_ => false);
    }

    /** The per-candidate query of `checkBlk`: no insertions, the expression's block and position, no temporary yet. */
    method ResetQuery(blk: nat, pos: int)
      requires Valid() && blk < f.g.n
      modifies this`insertBlk, this`exprBlk, this`exprPos, this`newNode
      ensures Valid() && insertBlk == [] && exprBlk == blk && exprPos == pos && newNode.None?
    {
      insertBlk := [];
      exprBlk := blk;
      exprPos := pos;
      newNode := None;
    }

    /**
     * An accepted candidate at position `q`: a fresh temporary is inserted
     * in every block of `insertBlk`, and the candidate, unless its source
     * is already a register, reads the temporary.
     */
    method Rewrite(node: Node, blk: nat, q: nat, vars: seq<Node>) returns (q': nat)
      requires Valid() && Temps() && blk < f.g.n && q < |f.code[blk]| && newNode.None? && tables[blk].Some?
      requires f.code[blk][q] == node && node.op == SET && |Kid(node, 1).kids| > 0 && CheckType(node)
      modifies f, cp, this`tables, this`insertedNode, this`newNode, this`nextSym, killBlk
      ensures Valid() && Temps() && insertedNode == old(insertedNode) + [CreateNewNode(node, old(nextSym))]
      ensures nextSym == old(nextSym) + 1
      ensures q' < |f.code[blk]| && tables[blk].Some? && StillBuilt(old(tables), tables)
      ensures blk !in insertBlk ==> q' == q
      ensures blk !in insertBlk && Kid(node, 1).op != REG ==> Kid(f.code[blk][q], 1) == Kid(CreateNewNode(node, old(nextSym)), 0)
    {
      TempsGrow(insertedNode, nextSym, node);
      var nn := GetNewNode(node);
      q' := Insert(node, nn, vars, blk, q);
      if Kid(f.code[blk][q'], 1).op != REG {
        Replace(blk, q', nn);
      }
    }

    /**
     * `invoke`: the per-function state is reset and every block of the
     * reverse postorder is checked, in that order (the reverse-postorder
     * vector of the source is indexed from 1, which `rpo` here is not).
     */
    method Invoke(fuel: nat)
      requires Valid()
      modifies this, f, cp
      ensures Valid() && Temps() && nextSym >= old(nextSym)
      ensures BuiltUpTo(f.g.rpo, |f.g.rpo|, tables)
    {
      killBlk := new bool[f.g.n](_ => false);
      tables := seq(f.g.n, _ => None);
      insertedNode := [];
      var order := f.g.rpo;
      var i := 0;
      while i < |order|
        invariant 0 <= i <= |order|
        invariant Valid() && Temps() && nextSym >= old(nextSym) && fresh(killBlk)
        invariant BuiltUpTo(order, i, tables)
      {
        assert order[i] in order;
        ghost var t0 := tables;
        CheckBlk(order[i], fuel);
        BuiltNext(t0, tables, order, i);
        i := i + 1;
      }
    }
  }
}
