// The state of one question of the demand-driven redundancy elimination:
// the blocks asked so far, their answers, and the temporaries and phis the
// question inserts.
module EqpQuery {
  import opened Lir

  /** Every argument of PHI `phi` names one of the `n` blocks. */
  predicate LabelsIn(phi: Node, n: nat) {
    forall j | 1 <= j < |phi.kids| :: 0 <= PhiArgBlock(phi.kids[j]) < n
  }

  /**
   * The state of one question, which `setVarsToGCM` creates afresh:
   * the block the question starts from, the blocks asked with the number
   * last asked of each, per block the numbers answered (`result`), the
   * number last found available (`avail`), the numbers available through a
   * real computation (`isReal`) or through the original SET around a loop
   * (`isSelf`) and the number asked (`blkVal`); the temporaries and phis
   * to insert (`newNodes`) with their blocks (`insertNodeToBlk`) and, once
   * inserted, the node each block received (`blkToNewNode`).
   */
  datatype Query = Query(
    exprBlk: nat, visited: map<nat, int>,
    result: seq<set<int>>, avail: seq<int>, isReal: seq<set<int>>, isSelf: seq<set<int>>,
    blkToNewNode: map<nat, Node>, newNodes: seq<Node>, insertNodeToBlk: map<Node, nat>,
    blkVal: seq<int>)
  {
    /** Every table covers the `n` blocks, and every node to insert is a SET or a PHI with a block. */
    ghost predicate Sized(n: nat) {
      && exprBlk < n
      && |result| == n && |avail| == n && |isReal| == n && |isSelf| == n && |blkVal| == n
      && (forall x | x in newNodes :: x in insertNodeToBlk && (x.op == SET || x.op == PHI))
      && (forall x | x in insertNodeToBlk :: insertNodeToBlk[x] < n)
      && (forall x | x in newNodes && x.op == PHI :: LabelsIn(x, n))
    }

    /** Every node to insert has a temporary numbered below `sym` as its destination. */
    ghost predicate TempsBelow(sym: int) {
      forall x | x in insertNodeToBlk :: Kid(x, 0).sym < sym
    }

    predicate CheckResult(val: int, blk: nat) {
      blk < |result| && val in result[blk]
    }

    /** Adds `val` to the numbers `blk` has answered, keeping every earlier answer. */
    function RecordResult(val: int, blk: nat): (r: Query)
      requires blk < |result|
      ensures r.CheckResult(val, blk) && |r.result| == |result|
      ensures forall v, b | 0 <= b < |result| && CheckResult(v, b) :: r.CheckResult(v, b)
      ensures forall v, b | 0 <= b < |result| && r.CheckResult(v, b) :: CheckResult(v, b) || (v == val && b == blk)
      ensures r.(result := result) == this
      ensures forall n :: Sized(n) ==> r.Sized(n)
      ensures forall sym :: TempsBelow(sym) ==> r.TempsBelow(sym)
    {
      this.(result := result[blk := result[blk] + {val}])
    }

    predicate CheckAvail(val: int, blk: nat) {
      blk < |avail| && avail[blk] == val
    }

    /** Makes `val` the one number available at `blk`; other blocks keep theirs. */
    function RecordAvail(val: int, blk: nat): (r: Query)
      requires blk < |avail|
      ensures |r.avail| == |avail| && r.CheckAvail(val, blk) && forall v | v != val :: !r.CheckAvail(v, blk)
      ensures forall b | 0 <= b < |avail| && b != blk :: r.avail[b] == avail[b]
      ensures r.(avail := avail) == this
    {
      this.(avail := avail[blk := val])
    }

    predicate CheckIsReal(val: int, blk: nat) {
      blk < |isReal| && val in isReal[blk]
    }

    /** Adds `val` to the numbers a real computation makes available at `blk`. */
    function RecordIsReal(val: int, blk: nat): (r: Query)
      requires blk < |isReal|
      ensures r.CheckIsReal(val, blk) && |r.isReal| == |isReal|
      ensures forall v, b | 0 <= b < |isReal| && CheckIsReal(v, b) :: r.CheckIsReal(v, b)
      ensures r.(isReal := isReal) == this
    {
      this.(isReal := isReal[blk := isReal[blk] + {val}])
    }

    predicate CheckIsSelf(val: int, blk: nat) {
      blk < |isSelf| && val in isSelf[blk]
    }

    /** Adds `val` to the numbers the original SET makes available at `blk`. */
    function RecordIsSelf(val: int, blk: nat): (r: Query)
      requires blk < |isSelf|
      ensures r.CheckIsSelf(val, blk) && |r.isSelf| == |isSelf|
      ensures forall v, b | 0 <= b < |isSelf| && CheckIsSelf(v, b) :: r.CheckIsSelf(v, b)
      ensures r.(isSelf := isSelf) == this
    {
      this.(isSelf := isSelf[blk := isSelf[blk] + {val}])
    }

    /**
     * `blk` answers yes for `val`: `val` becomes its available number and,
     * as `isReal` and `isSelf` say, one it holds by a real computation or
     * by the original SET.
     */
    function RecordAnswer(val: int, blk: nat, isReal: bool, isSelf: bool): (r: Query)
      requires blk < |avail| && blk < |this.isReal| && blk < |this.isSelf|
      ensures r.CheckAvail(val, blk) && (isReal ==> r.CheckIsReal(val, blk)) && (isSelf ==> r.CheckIsSelf(val, blk))
      ensures Advances(this, r) && r.visited == visited
      ensures forall n :: Sized(n) ==> r.Sized(n)
      ensures r.(avail := avail, isReal := this.isReal, isSelf := this.isSelf) == this
      ensures forall sym :: TempsBelow(sym) ==> r.TempsBelow(sym)
    {
      var a := RecordAvail(val, blk);
      var b := if isReal then a.RecordIsReal(val, blk) else a;
      if isSelf then b.RecordIsSelf(val, blk) else b
    }

    /** Records `val` as the number asked of `blk`. */
    function WithBlkVal(blk: nat, val: int): (r: Query)
      requires blk < |blkVal|
      ensures |r.blkVal| == |blkVal| && r.blkVal[blk] == val
      ensures forall b | 0 <= b < |blkVal| && b != blk :: r.blkVal[b] == blkVal[b]
      ensures r.(blkVal := blkVal) == this
      ensures forall n :: Sized(n) ==> r.Sized(n)
      ensures forall sym :: TempsBelow(sym) ==> r.TempsBelow(sym)
    {
      this.(blkVal := blkVal[blk := val])
    }

    /** Records `node` as the node block `blk` received, the other blocks keeping theirs. */
    function RecordNewNode(blk: nat, node: Node): (r: Query)
      ensures blk in r.blkToNewNode && r.blkToNewNode[blk] == node
      ensures forall b | b in blkToNewNode && b != blk :: b in r.blkToNewNode && r.blkToNewNode[b] == blkToNewNode[b]
      ensures r.blkToNewNode.Keys == blkToNewNode.Keys + {blk}
      ensures r.(blkToNewNode := blkToNewNode) == this
      ensures forall n :: Sized(n) ==> r.Sized(n)
      ensures forall sym :: TempsBelow(sym) ==> r.TempsBelow(sym)
    {
      this.(blkToNewNode := blkToNewNode[blk := node])
    }

    /** Marks `blk` asked with `val` as the one number last asked of it. */
    function RecordVisited(val: int, blk: nat): (r: Query)
      ensures blk in r.visited && r.visited[blk] == val && r.visited.Keys == visited.Keys + {blk}
      ensures forall b | b in visited && b != blk :: r.visited[b] == visited[b]
      ensures r.(visited := visited) == this
      ensures forall n :: Sized(n) ==> r.Sized(n)
      ensures forall sym :: TempsBelow(sym) ==> r.TempsBelow(sym)
    {
      this.(visited := visited[blk := val])
    }
  }

  /**
   * From `a` to `b` only the nodes to insert changed, and every block that
   * had a node to insert still has one.
   */
  ghost predicate OnlyInserted(a: Query, b: Query) {
    OnlyNodesChanged(a, b) && a.insertNodeToBlk.Values <= b.insertNodeToBlk.Values
  }

  /** From `a` to `b` only the nodes to insert changed. */
  ghost predicate OnlyNodesChanged(a: Query, b: Query) {
    a.(newNodes := b.newNodes, insertNodeToBlk := b.insertNodeToBlk) == b
  }

  /** `s` with `t` appended to the nodes to insert, in block `blk`; the table sizes are kept. */
  function AddNode(s: Query, t: Node, blk: nat, n: nat): (r: Query)
    requires s.Sized(n) && blk < n && (t.op == SET || t.op == PHI) && (t.op == PHI ==> LabelsIn(t, n))
    ensures r.Sized(n) && HasNodeIn(r, blk) && LastNode(r, t, blk) && OnlyNodesChanged(s, r)
    ensures r == s.(newNodes := s.newNodes + [t], insertNodeToBlk := s.insertNodeToBlk[t := blk])
    ensures t !in s.insertNodeToBlk ==> s.insertNodeToBlk.Values <= r.insertNodeToBlk.Values
  {
    var r := AddNodeRaw(s, t, blk);
    assert r.insertNodeToBlk[t] == blk;
    assert t !in s.insertNodeToBlk ==> forall x | x in s.insertNodeToBlk :: r.insertNodeToBlk[x] == s.insertNodeToBlk[x];
    r
  }

  /** `s` with element `i` of its nodes to insert moved to the end and assigned to block `blk`. */
  function MoveNode(s: Query, i: nat, blk: nat, n: nat): (r: Query)
    requires s.Sized(n) && i < |s.newNodes| && blk < n
    ensures r.Sized(n) && HasNodeIn(r, blk) && LastNode(r, s.newNodes[i], blk) && OnlyNodesChanged(s, r)
    ensures r == AddNodeRaw(s.(newNodes := s.newNodes[..i] + s.newNodes[i + 1..], insertNodeToBlk := s.insertNodeToBlk - {s.newNodes[i]}), s.newNodes[i], blk)
  {
    var x := s.newNodes[i];
    assert x in s.newNodes;
    var d := s.(newNodes := s.newNodes[..i] + s.newNodes[i + 1..], insertNodeToBlk := s.insertNodeToBlk - {x});
    assert forall y | y in d.newNodes :: y in s.newNodes;
    var r := AddNodeRaw(d, x, blk);
    assert r.insertNodeToBlk[x] == blk;
    r
  }

  /** `s` with node `i` to insert replaced by `t`, which is put in block `blk`. */
  function ReplaceNode(s: Query, i: nat, t: Node, blk: nat, n: nat): (r: Query)
    requires s.Sized(n) && i < |s.newNodes| && blk < n && (t.op == SET || t.op == PHI) && (t.op == PHI ==> LabelsIn(t, n))
    ensures r.Sized(n) && OnlyNodesChanged(s, r)
    ensures r.newNodes == s.newNodes[i := t] && t in r.insertNodeToBlk && r.insertNodeToBlk[t] == blk
    ensures s.insertNodeToBlk.Keys <= r.insertNodeToBlk.Keys
    ensures forall sym | s.TempsBelow(sym) && Kid(t, 0).sym < sym :: r.TempsBelow(sym)
  {
    var r := s.(newNodes := s.newNodes[i := t], insertNodeToBlk := s.insertNodeToBlk[t := blk]);
    assert forall x | x in r.newNodes :: x == t || x in s.newNodes;
    r
  }

  /** `t` is the last node `s` inserts, in block `blk`. */
  ghost predicate LastNode(s: Query, t: Node, blk: nat) {
    |s.newNodes| > 0 && s.newNodes[|s.newNodes| - 1] == t && t in s.insertNodeToBlk && s.insertNodeToBlk[t] == blk
  }

  /** `s` with `t` appended to the nodes to insert, in block `blk`. */
  function AddNodeRaw(s: Query, t: Node, blk: nat): Query {
    s.(newNodes := s.newNodes + [t], insertNodeToBlk := s.insertNodeToBlk[t := blk])
  }

  /** The state `setVarsToGCM` starts a question from block `blk` with: nothing asked, nothing to insert. */
  function EmptyQuery(n: nat, blk: nat): (r: Query)
    requires blk < n
    ensures r.Sized(n) && r.exprBlk == blk
    ensures r.visited == map[] && r.newNodes == [] && r.insertNodeToBlk == map[] && r.blkToNewNode == map[]
    ensures forall b | 0 <= b < n ::
              r.result[b] == {} && r.avail[b] == 0 && r.isReal[b] == {} && r.isSelf[b] == {} && r.blkVal[b] == 0
  {
    Query(blk, map[], seq(n, _ => {}), seq(n, _ => 0), seq(n, _ => {}), seq(n, _ => {}), map[], [], map[], seq(n, _ => 0))
  }

  /** From `a` to `b` the question only learns: asked blocks stay asked and the answered sets only grow. */
  ghost predicate Advances(a: Query, b: Query) {
    && b.exprBlk == a.exprBlk
    && a.visited.Keys <= b.visited.Keys
    && |b.result| == |a.result| && |b.isReal| == |a.isReal| && |b.isSelf| == |a.isSelf|
    && (forall x | 0 <= x < |a.result| :: a.result[x] <= b.result[x])
    && (forall x | 0 <= x < |a.isReal| :: a.isReal[x] <= b.isReal[x])
    && (forall x | 0 <= x < |a.isSelf| :: a.isSelf[x] <= b.isSelf[x])
  }

  lemma AdvancesTrans(a: Query, b: Query, c: Query)
    requires Advances(a, b) && Advances(b, c)
    ensures Advances(a, c)
  {
  }

  /** The blocks asked in `a` keep the number asked of them in `b`, except `blk`, which may be asked `val` again. */
  ghost predicate KeepsAsked(a: map<nat, int>, b: map<nat, int>, blk: nat, val: int) {
    forall x | x in a :: x in b && (b[x] == a[x] || (x == blk && b[x] == val))
  }

  /** Block `b` received a node to insert in the current question. */
  predicate HasNodeIn(s: Query, b: nat) {
    b in s.insertNodeToBlk.Values
  }

  /** `b` keeps every block of `a` with the number asked of it. */
  ghost predicate Extends(a: map<nat, int>, b: map<nat, int>) {
    forall x | x in a :: x in b && b[x] == a[x]
  }
}
