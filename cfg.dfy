// The control-flow graph the passes walk, with the dominator tree, the
// dominance frontiers and the block orders taken as given inputs, and the
// function whose instruction lists the passes rewrite in place.
module Cfg {
  import opened Lir

  /**
   * Blocks are numbered 0 .. n-1. `idom[b]` is -1 for a block without an
   * immediate dominator; `domDepth` is the depth in the dominator tree;
   * `layout` is the block list order and `rpo` the reverse postorder of
   * the reachable blocks, from index 0 (see `RpoOnce`).
   */
  datatype Graph = Graph(
    n: nat, entry: nat, exit: nat,
    preds: seq<seq<nat>>, succs: seq<seq<nat>>,
    idom: seq<int>, domKids: seq<seq<nat>>, domDepth: seq<nat>,
    frontiers: seq<seq<nat>>,
    layout: seq<nat>, rpo: seq<nat>)
  {
    predicate Valid() {
      && entry < n && exit < n
      && |preds| == n && |succs| == n && |idom| == n && |domKids| == n
      && |domDepth| == n && |frontiers| == n
      && IdsBelow(preds, n) && IdsBelow(succs, n) && IdsBelow(domKids, n) && IdsBelow(frontiers, n)
      && (forall b | 0 <= b < n :: domDepth[b] < n)
      && (forall b | 0 <= b < n :: idom[b] == -1 || (0 <= idom[b] < n && domDepth[idom[b]] < domDepth[b]))
      && (forall b | 0 <= b < n :: forall c | c in domKids[b] :: idom[c] == b)
      && |layout| == n && (forall b | 0 <= b < n :: b in layout) && (forall b | b in layout :: b < n)
      && (forall b | b in rpo :: b < n)
    }

    /** The reverse postorder names no block twice. */
    predicate RpoOnce() {
      forall i, j | 0 <= i < j < |rpo| :: rpo[i] != rpo[j]
    }

    /** Each block is listed at most once among the dominator-tree kids of its parent. */
    predicate DomKidsOnce() {
      forall b | 0 <= b < |domKids| :: forall i, j | 0 <= i < j < |domKids[b]| :: domKids[b][i] != domKids[b][j]
    }

    /** `a` dominates `b`: `a` lies on the immediate-dominator chain of `b`. */
    predicate Dominates(a: nat, b: nat)
      requires Valid() && b < n
      decreases domDepth[b]
    {
      a == b || (idom[b] != -1 && Dominates(a, idom[b]))
    }
  }

  /** A dominator lies on the chain of `b`, so it is a block no deeper than `b`, and shallower unless it is `b`. */
  lemma {:induction false} DominatesDepth(g: Graph, a: nat, b: nat)
    requires g.Valid() && b < g.n && g.Dominates(a, b)
    ensures a < g.n && g.domDepth[a] <= g.domDepth[b]
    ensures a != b ==> g.domDepth[a] < g.domDepth[b]
    decreases g.domDepth[b]
  {
    if a != b {
      DominatesDepth(g, a, g.idom[b]);
    }
  }

  /** The immediate dominator of a dominator of `b` dominates `b` too. */
  lemma {:induction false} DominatesIdom(g: Graph, a: nat, b: nat)
    requires g.Valid() && b < g.n && g.Dominates(a, b)
    requires a < g.n && g.idom[a] != -1
    ensures g.Dominates(g.idom[a], b)
    decreases g.domDepth[b]
  {
    if a != b {
      DominatesIdom(g, a, g.idom[b]);
    }
  }

  /** Two dominators of the same block lie on one chain: one dominates the other. */
  lemma {:induction false} DominatesChain(g: Graph, a: nat, b: nat, x: nat)
    requires g.Valid() && a < g.n && b < g.n && x < g.n && g.Dominates(a, x) && g.Dominates(b, x)
    ensures g.Dominates(a, b) || g.Dominates(b, a)
    decreases g.domDepth[x]
  {
    if a != x && b != x {
      DominatesChain(g, a, b, g.idom[x]);
    }
  }

  /** A block dominated by one child of a dominator-tree node is not dominated by another child. */
  lemma DominatesSibling(g: Graph, a: nat, b: nat, x: nat)
    requires g.Valid() && a < g.n && b < g.n && x < g.n && a != b
    requires g.idom[a] == g.idom[b] && g.Dominates(a, x)
    ensures !g.Dominates(b, x)
  {
    if g.Dominates(b, x) {
      DominatesChain(g, a, b, x);
      if g.Dominates(a, b) {
        DominatesDepth(g, a, g.idom[b]);
      } else {
        DominatesDepth(g, b, g.idom[a]);
      }
    }
  }

  /** Dominance is antisymmetric. */
  lemma DominatesAntisym(g: Graph, a: nat, b: nat)
    requires g.Valid() && a < g.n && b < g.n && g.Dominates(a, b) && g.Dominates(b, a)
    ensures a == b
  {
    DominatesDepth(g, a, b);
    DominatesDepth(g, b, a);
  }

  predicate IdsBelow(s: seq<seq<nat>>, n: nat) {
    forall b | 0 <= b < |s| :: forall x | x in s[b] :: x < n
  }

  /** The ids listed for block `b` are all below `n`, by position. */
  lemma IdsBelowAt(s: seq<seq<nat>>, n: nat, b: nat)
    requires IdsBelow(s, n) && b < |s|
    ensures forall j | 0 <= j < |s[b]| :: s[b][j] < n
  {
    forall j | 0 <= j < |s[b]| ensures s[b][j] < n {
      assert s[b][j] in s[b];
    }
  }

  /** The block list names blocks of the graph only, by position. */
  lemma LayoutIds(g: Graph)
    requires g.Valid()
    ensures forall j | 0 <= j < |g.layout| :: g.layout[j] < g.n
  {
    forall j | 0 <= j < |g.layout| ensures g.layout[j] < g.n {
      assert g.layout[j] in g.layout;
    }
  }

  /** A function: its graph and one instruction list per block. */
  class Function {
    const g: Graph
    var code: seq<seq<Node>>

    predicate Valid()
      reads this
    {
      g.Valid() && |code| == g.n
    }

    constructor (g: Graph, code: seq<seq<Node>>)
      requires g.Valid() && |code| == g.n
      ensures Valid() && this.g == g && this.code == code
    {
      this.g := g;
      this.code := code;
    }
  }
}
