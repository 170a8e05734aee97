// Memory versioning for the SSA passes: all of memory is treated as one
// object, every store and call defines a new version of it, and each MEM
// node is stamped with the version that reaches it, so that two loads with
// the same address and the same version read the same value.
module MemoryVersioning {
  import opened Lir
  import opened Cfg

  // ---------------------------------------------------------------------
  // Stamping and unstamping MEM nodes (pure rewriting of one tree)
  // ---------------------------------------------------------------------

  /**
   * Every MEM in a child position (or at the root, when `hasParent`) carries
   * exactly the version `v` as its second child.
   */
  ghost predicate Stamped(n: Node, v: int, hasParent: bool)
    decreases n
  {
    && (hasParent && n.op == MEM && |n.kids| > 0 ==> n.kids == [n.kids[0], Version(v)])
    && forall i | 0 <= i < |n.kids| :: Stamped(n.kids[i], v, true)
  }

  /** No MEM in a child position carries a version: each has its address only. */
  ghost predicate Unstamped(n: Node, hasParent: bool)
    decreases n
  {
    && (hasParent && n.op == MEM && |n.kids| > 0 ==> |n.kids| == 1)
    && forall i | 0 <= i < |n.kids| :: Unstamped(n.kids[i], true)
  }

  /**
   * The rewriting of one tree by replaceMem: children first, then a MEM
   * that has a parent becomes MEM(address, version `v`), dropping any
   * version it had.
   */
  function ReplaceMem(n: Node, v: int, hasParent: bool): (r: Node)
    ensures Stamped(r, v, hasParent)
    ensures MemAsBefore(r, hasParent) == MemAsBefore(n, hasParent)
    ensures r.op == n.op
    decreases n
  {
    var ks := seq(|n.kids|, i requires 0 <= i < |n.kids| => ReplaceMem(n.kids[i], v, true));
    if hasParent && n.op == MEM && |n.kids| > 0 then n.(kids := [ks[0], Version(v)])
    else n.(kids := ks)
  }

  /**
   * The rewriting of one tree by memAsBefore: a MEM that has a parent first
   * loses its version child, then its remaining children are rewritten.
   */
  function MemAsBefore(n: Node, hasParent: bool): (r: Node)
    ensures Unstamped(r, hasParent)
    decreases n
  {
    if hasParent && n.op == MEM && |n.kids| > 0 then n.(kids := [MemAsBefore(n.kids[0], true)])
    else n.(kids := seq(|n.kids|, i requires 0 <= i < |n.kids| => MemAsBefore(n.kids[i], true)))
  }

  /** Unstamping leaves a tree without versions as it is. */
  lemma {:induction false} MemAsBeforeKeepsUnstamped(n: Node, hasParent: bool)
    requires Unstamped(n, hasParent)
    ensures MemAsBefore(n, hasParent) == n
    decreases n
  {
    forall i | 0 <= i < |n.kids| {
      MemAsBeforeKeepsUnstamped(n.kids[i], true);
    }
    if hasParent && n.op == MEM && |n.kids| > 0 {
      assert n.kids == [n.kids[0]];
    } else {
      assert n.kids == seq(|n.kids|, i requires 0 <= i < |n.kids| => MemAsBefore(n.kids[i], true));
    }
  }

  /** Stamping a tree without versions and then unstamping it gives the tree back. */
  lemma StampRoundTrip(n: Node, v: int, hasParent: bool)
    requires Unstamped(n, hasParent)
    ensures MemAsBefore(ReplaceMem(n, v, hasParent), hasParent) == n
  {
    MemAsBeforeKeepsUnstamped(n, hasParent);
  }

  /** Unstamping twice is unstamping once. */
  lemma MemAsBeforeIdempotent(n: Node, hasParent: bool)
    ensures MemAsBefore(MemAsBefore(n, hasParent), hasParent) == MemAsBefore(n, hasParent)
  {
    MemAsBeforeKeepsUnstamped(MemAsBefore(n, hasParent), hasParent);
  }

  /**
   * Stamping an already stamped tree only replaces the versions, so running
   * the versioner a second time over the same code yields the same trees as
   * running it once with the same versions.
   */
  lemma {:induction false} RestampOverrides(n: Node, v1: int, v2: int, hasParent: bool)
    ensures ReplaceMem(ReplaceMem(n, v1, hasParent), v2, hasParent) == ReplaceMem(n, v2, hasParent)
    decreases n
  {
    var once := ReplaceMem(n, v1, hasParent);
    forall i | 0 <= i < |n.kids| {
      RestampOverrides(n.kids[i], v1, v2, true);
    }
    if hasParent && n.op == MEM && |n.kids| > 0 {
      assert once.kids[0] == ReplaceMem(n.kids[0], v1, true);
      assert once.kids[1] == Version(v1);
      assert ReplaceMem(once.kids[1], v2, true) == Version(v1);
    } else {
      assert |once.kids| == |n.kids|;
    }
  }

  /** Replacing one child by a child with the same unstamped form keeps the unstamped form. */
  lemma MemAsBeforeWithKid(n: Node, i: nat, k: Node, hasParent: bool)
    requires i < |n.kids| && MemAsBefore(k, true) == MemAsBefore(n.kids[i], true)
    ensures MemAsBefore(WithKid(n, i, k), hasParent) == MemAsBefore(n, hasParent)
  {
    var m := WithKid(n, i, k);
    if hasParent && n.op == MEM && |n.kids| > 0 {
    } else {
      assert forall j | 0 <= j < |n.kids| :: MemAsBefore(m.kids[j], true) == MemAsBefore(n.kids[j], true);
    }
  }

  /** A MEM with its version replaced by `v` (unchanged when it has no address). */
  function Restamp(m: Node, v: int): (r: Node)
    ensures MemAsBefore(r, true) == MemAsBefore(m, true)
  {
    if m.op == MEM && |m.kids| > 0 then m.(kids := [m.kids[0], Version(v)]) else m
  }

  /** A SET to memory, or a CALL whose first result is memory: the instruction defines a new version. */
  predicate StoresMem(node: Node) {
    IsStore(node) || (node.op == CALL && NKids(Kid(node, 2)) > 0 && Kid(Kid(node, 2), 0).op == MEM)
  }

  /** A store or a call: the instructions that clobber memory. */
  predicate Clobbers(node: Node) { IsStore(node) || node.op == CALL }

  predicate HasClobber(instrs: seq<Node>) {
    exists k :: 0 <= k < |instrs| && Clobbers(instrs[k])
  }

  /** Two trees that differ only below their children, child by child, unstamp alike. */
  lemma MemAsBeforeKidwise(n: Node, m: Node, hasParent: bool)
    requires n.op == m.op && n.ty == m.ty && n.sym == m.sym && |n.kids| == |m.kids|
    requires !(hasParent && n.op == MEM)
    requires forall i | 0 <= i < |n.kids| :: MemAsBefore(n.kids[i], true) == MemAsBefore(m.kids[i], true)
    ensures MemAsBefore(n, hasParent) == MemAsBefore(m, hasParent)
  {
  }

  /** A MEM whose address is stamped with `top`; any other node is left alone. */
  function StampAddr(m: Node, top: int): (r: Node)
    ensures MemAsBefore(r, true) == MemAsBefore(m, true)
    ensures r.op == m.op
  {
    if m.op == MEM && |m.kids| > 0 then m.(kids := m.kids[0 := ReplaceMem(m.kids[0], top, true)]) else m
  }

  /**
   * The result list of a CALL: when its first result is memory only that
   * result's address is stamped, otherwise the whole list is.
   */
  function StampResults(list: Node, top: int): (r: Node)
    ensures MemAsBefore(r, true) == MemAsBefore(list, true)
    ensures (|r.kids| > 0 && r.kids[0].op == MEM) == (|list.kids| > 0 && list.kids[0].op == MEM)
  {
    if |list.kids| > 0 && list.kids[0].op == MEM then
      MemAsBeforeWithKid(list, 0, StampAddr(list.kids[0], top), true);
      list.(kids := list.kids[0 := StampAddr(list.kids[0], top)])
    else ReplaceMem(list, top, true)
  }

  /**
   * The operand rewriting markMem applies to one instruction, with `top`
   * the version on top of the stack: a CALL's callee, arguments and the
   * address of a MEM result; a SET's source and the address of a MEM
   * destination; every MEM below any other instruction. PHI and PROLOGUE
   * are left alone.
   */
  function StampOperands(node: Node, top: int): (r: Node)
    ensures r.op == node.op && |r.kids| == |node.kids|
  {
    match node.op
    case PHI => node
    case PROLOGUE => node
    case CALL =>
      if |node.kids| < 3 then node
      else node.(kids := [ReplaceMem(node.kids[0], top, true), ReplaceMem(node.kids[1], top, true),
                          StampResults(node.kids[2], top)] + node.kids[3..])
    case SET =>
      if |node.kids| < 2 then node
      else node.(kids := [StampAddr(node.kids[0], top), ReplaceMem(node.kids[1], top, true)] + node.kids[2..])
    case _ => ReplaceMem(node, top, false)
  }

  /** Operand stamping changes versions only. */
  lemma StampOperandsKeepsShape(node: Node, top: int)
    ensures MemAsBefore(StampOperands(node, top), false) == MemAsBefore(node, false)
    ensures StoresMem(StampOperands(node, top)) == StoresMem(node)
  {
    var r := StampOperands(node, top);
    if node.op in {CALL, SET} && |r.kids| == |node.kids| >= 2 {
      assert forall i | 0 <= i < |node.kids| :: MemAsBefore(r.kids[i], true) == MemAsBefore(node.kids[i], true);
      MemAsBeforeKidwise(r, node, false);
    }
  }

  /** Attach the fresh version `v` to the memory an instruction defines. */
  function StampDest(node: Node, v: int): (r: Node)
    requires StoresMem(node)
    ensures MemAsBefore(r, false) == MemAsBefore(node, false)
  {
    if node.op == SET then
      MemAsBeforeWithKid(node, 0, Restamp(node.kids[0], v), false);
      node.(kids := node.kids[0 := Restamp(node.kids[0], v)])
    else
      var list := node.kids[2];
      MemAsBeforeWithKid(list, 0, Restamp(list.kids[0], v), true);
      MemAsBeforeWithKid(node, 2, list.(kids := list.kids[0 := Restamp(list.kids[0], v)]), false);
      node.(kids := node.kids[2 := list.(kids := list.kids[0 := Restamp(list.kids[0], v)])])
  }

  /** Two codes with the same instruction counts whose instructions unstamp alike. */
  ghost predicate SameShape(a: seq<seq<Node>>, b: seq<seq<Node>>) {
    && |a| == |b|
    && (forall x | 0 <= x < |a| :: |a[x]| == |b[x]|)
    && (forall x, i | 0 <= x < |a| && 0 <= i < |a[x]| :: MemAsBefore(a[x][i], false) == MemAsBefore(b[x][i], false))
  }

  lemma SameShapeTrans(a: seq<seq<Node>>, b: seq<seq<Node>>, c: seq<seq<Node>>)
    requires SameShape(a, b) && SameShape(b, c)
    ensures SameShape(a, c)
  {
  }

  /** Code unstamped instruction by instruction. */
  ghost function Unstamp(code: seq<seq<Node>>): (r: seq<seq<Node>>)
    ensures |r| == |code|
  {
    seq(|code|, x requires 0 <= x < |code| =>
      seq(|code[x]|, i requires 0 <= i < |code[x]| => MemAsBefore(code[x][i], false)))
  }

  /**
   * Versioning and then annulling gives back the original code when it had
   * no versions to begin with.
   */
  lemma VersionRoundTrip(original: seq<seq<Node>>, versioned: seq<seq<Node>>)
    requires SameShape(original, versioned)
    requires forall x, i | 0 <= x < |original| && 0 <= i < |original[x]| :: Unstamped(original[x][i], false)
    ensures Unstamp(versioned) == original
  {
    forall x | 0 <= x < |original|
      ensures Unstamp(versioned)[x] == original[x]
    {
      forall i | 0 <= i < |original[x]|
        ensures Unstamp(versioned)[x][i] == original[x][i]
      {
        MemAsBeforeKeepsUnstamped(original[x][i], false);
      }
    }
  }

  // ---------------------------------------------------------------------
  // Which version each MEM of a versioned instruction carries
  // ---------------------------------------------------------------------

  /** The address of MEM `m`, when it has one, carries `top` on every MEM below it. */
  ghost predicate AddrStamped(m: Node, top: int) {
    m.op == MEM && |m.kids| > 0 ==> Stamped(m.kids[0], top, true)
  }

  /**
   * Every MEM that instruction `r` reads carries version `top`: below a
   * CALL's callee and arguments, in the address of a MEM result (anywhere
   * in the result list otherwise), in a SET's source and in the address of
   * a MEM destination, and anywhere below any other instruction but PHI and
   * PROLOGUE.
   */
  ghost predicate ReadsAt(r: Node, top: int) {
    match r.op
    case PHI => true
    case PROLOGUE => true
    case CALL =>
      |r.kids| < 3 ||
      (&& Stamped(r.kids[0], top, true) && Stamped(r.kids[1], top, true)
       && if |r.kids[2].kids| > 0 && r.kids[2].kids[0].op == MEM then AddrStamped(r.kids[2].kids[0], top)
          else Stamped(r.kids[2], top, true))
    case SET => |r.kids| < 2 || (AddrStamped(r.kids[0], top) && Stamped(r.kids[1], top, true))
    case _ => Stamped(r, top, false)
  }

  /** The memory a store or call `r` defines: a SET's destination, or a CALL's first result. */
  function Defined(r: Node): Node {
    if r.op == SET then Kid(r, 0) else Kid(Kid(r, 2), 0)
  }

  /** The memory `r` defines carries version `v` (when it has an address to carry it with). */
  ghost predicate WritesAt(r: Node, v: int) {
    var m := Defined(r);
    m.op == MEM && (|m.kids| > 0 ==> m.kids == [m.kids[0], Version(v)])
  }

  /** How many of the PROLOGUE kids 1 .. i-1 are MEM parameters. */
  function MemParams(node: Node, i: nat): nat
    decreases i
  {
    if i <= 1 then 0
    else MemParams(node, i - 1) + (if i - 1 < |node.kids| && node.kids[i - 1].op == MEM then 1 else 0)
  }

  /** Kid `j` of `r`, when kid `j` of `node` is a MEM parameter, carries version `lo + MemParams(node, j)`. */
  ghost predicate KidParam(node: Node, r: Node, lo: int, j: nat)
    requires j < |node.kids| && j < |r.kids|
  {
    node.kids[j].op == MEM && |node.kids[j].kids| > 0 ==>
      r.kids[j].kids == [node.kids[j].kids[0], Version(lo + MemParams(node, j))]
  }

  /** The k-th MEM parameter of PROLOGUE `node` (from 0) carries version `lo + k` in `r`. */
  ghost predicate ParamsAt(node: Node, r: Node, lo: int) {
    |r.kids| == |node.kids| && forall j | 1 <= j < |node.kids| :: KidParam(node, r, lo, j)
  }

  /** `ParamsAt` for the kids before `i`, the kids from `i` on still as in `node`. */
  ghost predicate ParamsUpTo(node: Node, r: Node, lo: int, i: nat) {
    && r.op == node.op && |r.kids| == |node.kids|
    && (forall j | i <= j < |node.kids| :: r.kids[j] == node.kids[j])
    && forall j | 1 <= j < i && j < |node.kids| :: KidParam(node, r, lo, j)
  }

  /** One more kid counts one more MEM parameter exactly when it is one. */
  lemma MemParamsNext(node: Node, i: nat)
    requires 1 <= i < |node.kids|
    ensures MemParams(node, i + 1) == MemParams(node, i) + (if node.kids[i].op == MEM then 1 else 0)
  {
  }

  /** Versioning kid `i` of a PROLOGUE, a MEM parameter, extends `ParamsUpTo` by one kid. */
  lemma ParamsStepMem(node: Node, r: Node, lo: int, i: nat, v: int)
    requires ParamsUpTo(node, r, lo, i) && 1 <= i < |node.kids|
    requires node.kids[i].op == MEM && v == lo + MemParams(node, i)
    ensures ParamsUpTo(node, WithKid(r, i, Restamp(r.kids[i], v)), lo, i + 1)
  {
    var k := Restamp(r.kids[i], v);
    var r2 := WithKid(r, i, k);
    assert r2.kids == r.kids[i := k];
    forall j | 1 <= j < i + 1 && j < |node.kids| ensures KidParam(node, r2, lo, j) {
      if j < i {
        assert r2.kids[j] == r.kids[j] && KidParam(node, r, lo, j);
      } else {
        assert r.kids[i] == node.kids[i];
      }
    }
  }

  /** A kid of a PROLOGUE that is not a MEM parameter is left as it is. */
  lemma ParamsStepSkip(node: Node, r: Node, lo: int, i: nat)
    requires ParamsUpTo(node, r, lo, i) && 1 <= i < |node.kids| && node.kids[i].op != MEM
    ensures ParamsUpTo(node, r, lo, i + 1)
  {
  }

  /** `ParamsUpTo` past the last kid is `ParamsAt`. */
  lemma ParamsDone(node: Node, r: Node, lo: int, i: nat)
    requires ParamsUpTo(node, r, lo, i) && i >= |node.kids|
    ensures ParamsAt(node, r, lo) && MemParams(node, i) == MemParams(node, |node.kids|)
  {
    MemParamsPast(node, i);
  }

  /** No kid past the last one is a MEM parameter. */
  lemma {:induction false} MemParamsPast(node: Node, i: nat)
    requires i >= |node.kids|
    ensures MemParams(node, i) == MemParams(node, |node.kids|)
    decreases i
  {
    if i > |node.kids| && i > 1 {
      MemParamsPast(node, i - 1);
    }
  }

  /**
   * Instruction `node` became `r` when versioned with `top` on top of the
   * stack, handing out the versions `lo` .. `hi - 1`: its shape is kept,
   * what it reads carries `top`, a CALL takes one version and a store
   * another (the last, which its destination carries), and each memory
   * parameter of a PROLOGUE takes the next one.
   */
  ghost predicate Versioned(node: Node, r: Node, top: int, lo: int, hi: int) {
    && MemAsBefore(r, false) == MemAsBefore(node, false)
    && (node.op == PHI ==> r == node)
    && ReadsAt(r, top)
    && (node.op == PROLOGUE ==> ParamsAt(node, r, lo) && hi == lo + MemParams(node, |node.kids|))
    && (node.op != PROLOGUE ==>
          hi == lo + (if node.op == CALL then 1 else 0) + (if StoresMem(node) then 1 else 0)
          && (StoresMem(node) ==> WritesAt(r, hi - 1)))
  }

  /** The versions `lo`, `lo + 1`, ..., `hi - 1`, in order. */
  function Span(lo: int, hi: int): (s: seq<int>)
    requires lo <= hi
    ensures |s| == hi - lo && forall i | 0 <= i < |s| :: s[i] == lo + i
    decreases hi - lo
  {
    if lo == hi then [] else Span(lo, hi - 1) + [hi - 1]
  }

  /** The top of the stack after `lo` .. `hi - 1` were pushed onto a stack whose top was `top`. */
  function TopAfter(top: int, lo: int, hi: int): int {
    if lo == hi then top else hi - 1
  }

  /** `TopAfter` is the last element of the stack `base + Span(lo, hi)`. */
  lemma TopAfterStack(base: seq<int>, lo: int, hi: int)
    requires |base| > 0 && lo <= hi
    ensures (base + Span(lo, hi))[|base| + hi - lo - 1] == TopAfter(base[|base| - 1], lo, hi)
  {
  }

  /** Pushing at most two versions in turn onto `base` gives `base + Span(lo, hi)`. */
  lemma SpanPushes(base: seq<int>, lo: int, mid: int, hi: int, s1: seq<int>, s2: seq<int>)
    requires lo <= mid <= lo + 1 && mid <= hi <= mid + 1
    requires s1 == if mid == lo then base else base + [lo]
    requires s2 == if hi == mid then s1 else s1 + [mid]
    ensures s2 == base + Span(lo, hi)
  {
    if mid > lo {
      assert Span(lo, mid) == [lo];
    }
  }

  /** Pushing `Span(mid, hi)` onto `base + Span(lo, mid)` gives `base + Span(lo, hi)`. */
  lemma {:induction false} SpanExtend(base: seq<int>, lo: int, mid: int, hi: int)
    requires lo <= mid <= hi
    ensures base + Span(lo, mid) + Span(mid, hi) == base + Span(lo, hi)
    decreases hi - mid
  {
    if mid < hi {
      SpanExtend(base, lo, mid, hi - 1);
      assert Span(mid, hi) == Span(mid, hi - 1) + [hi - 1];
      assert Span(lo, hi) == Span(lo, hi - 1) + [hi - 1];
    }
  }

  /** The CALLs among the first `i` instructions `orig` of block `blk` have their version `nexts[k]` in `cm`. */
  ghost predicate CallsRecorded(cm: map<(nat, nat), int>, blk: nat, orig: seq<Node>, nexts: seq<int>, i: nat)
    requires i <= |orig| && i <= |nexts|
  {
    forall k | 0 <= k < i && orig[k].op == CALL :: (blk, k) in cm && cm[(blk, k)] == nexts[k]
  }

  /** Versioning instruction `i` keeps the CALLs before it recorded, and records it if it is a CALL. */
  lemma CallsRecordedStep(cm: map<(nat, nat), int>, cm2: map<(nat, nat), int>, blk: nat, orig: seq<Node>, nexts: seq<int>, i: nat, hi: int)
    requires i < |orig| && i < |nexts| && CallsRecorded(cm, blk, orig, nexts, i)
    requires cm2 == if orig[i].op == CALL then cm[(blk, i) := nexts[i]] else cm
    ensures CallsRecorded(cm2, blk, orig, nexts + [hi], i + 1)
  {
    var nexts2 := nexts + [hi];
    forall k | 0 <= k < i + 1 && orig[k].op == CALL ensures (blk, k) in cm2 && cm2[(blk, k)] == nexts2[k] {
      assert nexts2[k] == nexts[k];
    }
  }

  /**
   * For every visited block `x`, each CALL among its original instructions
   * has in `cm` the version the walk handed it (see `CallsRecorded`).
   */
  ghost predicate CallsIn(original: seq<seq<Node>>, walk: map<nat, Visit>, cm: map<(nat, nat), int>) {
    forall x | x in walk ::
      x < |original| && |walk[x].nexts| == |original[x]| + 1 && CallsRecorded(cm, x, original[x], walk[x].nexts, |original[x]|)
  }

  /** Entries of `cm` for blocks other than `blk` are kept in `cm2`. */
  ghost predicate KeptOutside(cm: map<(nat, nat), int>, cm2: map<(nat, nat), int>, blk: nat) {
    forall key | key in cm && key.0 != blk :: key in cm2 && cm2[key] == cm[key]
  }

  /**
   * Recording the CALLs of one more visited block `blk`, while the entries
   * of the other blocks are kept, extends `CallsIn`.
   */
  lemma CallsInAdd(original: seq<seq<Node>>, walk: map<nat, Visit>, cm: map<(nat, nat), int>, cm2: map<(nat, nat), int>,
                   blk: nat, v: Visit)
    requires CallsIn(original, walk, cm) && blk !in walk && KeptOutside(cm, cm2, blk)
    requires blk < |original| && |v.nexts| == |original[blk]| + 1 && CallsRecorded(cm2, blk, original[blk], v.nexts, |original[blk]|)
    ensures CallsIn(original, walk[blk := v], cm2)
  {
    forall x | x in walk
      ensures x < |original| && |walk[x].nexts| == |original[x]| + 1 && CallsRecorded(cm2, x, original[x], walk[x].nexts, |original[x]|)
    {
      assert x != blk;
      forall k | 0 <= k < |original[x]| && original[x][k].op == CALL
        ensures (x, k) in cm2 && cm2[(x, k)] == walk[x].nexts[k]
      {
        assert (x, k) in cm;
      }
    }
  }

  /** Pushing the next version onto `base + Span(lo, hi)` extends the span. */
  lemma SpanPush(base: seq<int>, lo: int, hi: int)
    requires lo <= hi
    ensures base + Span(lo, hi) + [hi] == base + Span(lo, hi + 1)
  {
  }

  /**
   * Instruction `k` of the block `orig` became `now[k]`, handing out the
   * versions `nexts[k]` .. `nexts[k + 1] - 1` with `TopAfter(top, lo,
   * nexts[k])` on top of the stack.
   */
  ghost predicate StepVersioned(orig: seq<Node>, now: seq<Node>, top: int, lo: int, nexts: seq<int>, k: nat) {
    && k < |orig| && k < |now| && k + 1 < |nexts|
    && lo <= nexts[k] <= nexts[k + 1]
    && Versioned(orig[k], now[k], TopAfter(top, lo, nexts[k]), nexts[k], nexts[k + 1])
  }

  /** The first `i` instructions of `orig` were versioned in order (see `StepVersioned`). */
  ghost predicate VersionedUpTo(orig: seq<Node>, now: seq<Node>, top: int, lo: int, nexts: seq<int>, i: nat) {
    && |now| == |orig| && i <= |orig| && |nexts| == i + 1
    && forall k | 0 <= k < i :: StepVersioned(orig, now, top, lo, nexts, k)
  }

  /**
   * The instructions `orig` of a block became `now`: the stack had `top` on
   * top, the versions from `lo` on were pushed in turn, and instruction `k`
   * was versioned handing out `nexts[k]` .. `nexts[k + 1] - 1`.
   */
  ghost predicate BlockVersioned(orig: seq<Node>, now: seq<Node>, top: int, lo: int, nexts: seq<int>) {
    VersionedUpTo(orig, now, top, lo, nexts, |orig|)
  }

  /** Versioning instruction `i` extends `VersionedUpTo` by one instruction. */
  lemma VersionedUpToStep(orig: seq<Node>, now: seq<Node>, top: int, lo: int, nexts: seq<int>, i: nat, r: Node, hi: int)
    requires VersionedUpTo(orig, now, top, lo, nexts, i) && i < |orig|
    requires lo <= nexts[i] <= hi && Versioned(orig[i], r, TopAfter(top, lo, nexts[i]), nexts[i], hi)
    ensures VersionedUpTo(orig, now[i := r], top, lo, nexts + [hi], i + 1)
  {
    var now2, nexts2 := now[i := r], nexts + [hi];
    forall k | 0 <= k < i + 1 ensures StepVersioned(orig, now2, top, lo, nexts2, k) {
      if k < i {
        assert StepVersioned(orig, now, top, lo, nexts, k);
        assert now2[k] == now[k] && nexts2[k] == nexts[k] && nexts2[k + 1] == nexts[k + 1];
      }
    }
  }

  /** A versioned block keeps the unstamped form of each instruction. */
  lemma BlockVersionedShape(orig: seq<Node>, now: seq<Node>, top: int, lo: int, nexts: seq<int>)
    requires BlockVersioned(orig, now, top, lo, nexts)
    ensures |now| == |orig| && forall k | 0 <= k < |orig| :: MemAsBefore(now[k], false) == MemAsBefore(orig[k], false)
  {
    forall k | 0 <= k < |orig| ensures MemAsBefore(now[k], false) == MemAsBefore(orig[k], false) {
      assert StepVersioned(orig, now, top, lo, nexts, k);
    }
  }

  // ---------------------------------------------------------------------
  // The record of the dominator-tree walk
  // ---------------------------------------------------------------------

  /**
   * How one block was visited: `top` was on top of the stack on entry,
   * `lo` was the next version then, and `nexts` is the next version before
   * each instruction and after the last.
   */
  datatype Visit = Visit(top: int, lo: int, nexts: seq<int>)

  /** The top of the stack after the instructions of a visited block. */
  function ExitTop(v: Visit): int {
    if |v.nexts| == 0 then v.top else TopAfter(v.top, v.lo, v.nexts[|v.nexts| - 1])
  }

  /**
   * Visited block `x`: its original instructions `original[x]` were
   * versioned into `code[x]` as `walk[x]` says, after a merge block pushed
   * a version of its own; `blkRankIn[x]` and `blkRankOut[x]` are the last
   * version handed out before and after its instructions; and a block
   * other than the entry was entered with the stack its immediate
   * dominator left.
   */
  ghost predicate RecordedIn(g: Graph, original: seq<seq<Node>>, code: seq<seq<Node>>, walk: map<nat, Visit>,
                             rankIn: seq<int>, rankOut: seq<int>, marked: seq<bool>, x: nat)
    requires x in walk
  {
    var v := walk[x];
    && x < |original| && x < |code| && x < |rankIn| && x < |rankOut| && x < |marked| && x < |g.idom|
    && BlockVersioned(original[x], code[x], v.top, v.lo, v.nexts)
    && v.nexts[0] == v.lo + (if marked[x] then 1 else 0)
    && rankIn[x] == v.nexts[0] - 1 && rankOut[x] == v.nexts[|v.nexts| - 1] - 1
    && (x != g.entry ==> g.idom[x] >= 0 && g.idom[x] as nat in walk && v.top == ExitTop(walk[g.idom[x] as nat]))
  }

  /** Every visited block is recorded, and every block not visited yet still has its original code. */
  ghost predicate WalkedIn(g: Graph, original: seq<seq<Node>>, code: seq<seq<Node>>, walk: map<nat, Visit>,
                           rankIn: seq<int>, rankOut: seq<int>, marked: seq<bool>)
  {
    && |original| == |code| == |rankIn| == |rankOut| == |marked| == |g.idom| == g.n
    && (forall x | x in walk :: x < g.n)
    && (forall x {:trigger RecordedIn(g, original, code, walk, rankIn, rankOut, marked, x)} | x in walk ::
          RecordedIn(g, original, code, walk, rankIn, rankOut, marked, x))
    && (forall x | 0 <= x < g.n && x !in walk :: code[x] == original[x])
  }

  /** Before the walk, nothing is recorded and the code is the original. */
  lemma WalkedEmpty(g: Graph, original: seq<seq<Node>>, rankIn: seq<int>, rankOut: seq<int>, marked: seq<bool>)
    requires |original| == |rankIn| == |rankOut| == |marked| == |g.idom| == g.n
    ensures WalkedIn(g, original, original, map[], rankIn, rankOut, marked)
  {
  }

  /** Recording one more visited block keeps the record of the others. */
  lemma WalkedAdd(g: Graph, original: seq<seq<Node>>, code: seq<seq<Node>>, walk: map<nat, Visit>,
                  rankIn: seq<int>, rankOut: seq<int>, marked: seq<bool>,
                  blk: nat, v: Visit, c: seq<Node>, rin: int, rout: int)
    requires WalkedIn(g, original, code, walk, rankIn, rankOut, marked) && blk < g.n && blk !in walk
    requires RecordedIn(g, original, code[blk := c], walk[blk := v], rankIn[blk := rin], rankOut[blk := rout], marked, blk)
    ensures WalkedIn(g, original, code[blk := c], walk[blk := v], rankIn[blk := rin], rankOut[blk := rout], marked)
  {
    var code2, walk2, rin2, rout2 := code[blk := c], walk[blk := v], rankIn[blk := rin], rankOut[blk := rout];
    forall x | x in walk2 ensures RecordedIn(g, original, code2, walk2, rin2, rout2, marked, x) {
      if x != blk {
        assert RecordedIn(g, original, code, walk, rankIn, rankOut, marked, x);
        assert code2[x] == code[x] && rin2[x] == rankIn[x] && rout2[x] == rankOut[x] && walk2[x] == walk[x];
        if x != g.entry {
          assert walk2[g.idom[x] as nat] == walk[g.idom[x] as nat];
        }
      }
    }
  }

  /** A walked function keeps the unstamped form of every instruction. */
  lemma WalkedShape(g: Graph, original: seq<seq<Node>>, code: seq<seq<Node>>, walk: map<nat, Visit>,
                    rankIn: seq<int>, rankOut: seq<int>, marked: seq<bool>)
    requires WalkedIn(g, original, code, walk, rankIn, rankOut, marked)
    ensures SameShape(original, code)
  {
    forall x | 0 <= x < |original| ensures |original[x]| == |code[x]| &&
      forall i | 0 <= i < |original[x]| :: MemAsBefore(original[x][i], false) == MemAsBefore(code[x][i], false)
    {
      if x in walk {
        assert RecordedIn(g, original, code, walk, rankIn, rankOut, marked, x);
        var v := walk[x];
        BlockVersionedShape(original[x], code[x], v.top, v.lo, v.nexts);
      }
    }
  }

  /** The record `w2` keeps every visit `w1` records. */
  ghost predicate Grown(w1: map<nat, Visit>, w2: map<nat, Visit>) {
    forall x | x in w1 :: x in w2 && w2[x] == w1[x]
  }

  lemma GrownTrans(w1: map<nat, Visit>, w2: map<nat, Visit>, w3: map<nat, Visit>)
    requires Grown(w1, w2) && Grown(w2, w3)
    ensures Grown(w1, w3)
  {
  }

  /** The first `j` of `kids` are visited in `w`. */
  ghost predicate PrefixIn(kids: seq<nat>, j: nat, w: map<nat, Visit>)
    requires j <= |kids|
  {
    forall k | 0 <= k < j :: kids[k] in w
  }

  /** Visiting `kids[j]` while keeping every earlier visit extends `PrefixIn` by one kid. */
  lemma PrefixInStep(kids: seq<nat>, j: nat, w1: map<nat, Visit>, w2: map<nat, Visit>)
    requires j < |kids| && PrefixIn(kids, j, w1) && Grown(w1, w2) && kids[j] in w2
    ensures PrefixIn(kids, j + 1, w2)
  {
  }

  /** Every dominator-tree kid of block `x` is visited in `w`. */
  ghost predicate KidsIn(g: Graph, w: map<nat, Visit>, x: nat) {
    x < |g.domKids| && forall c | c in g.domKids[x] :: c in w
  }

  /**
   * The blocks `w` visits beyond `before` all have their kids visited, and
   * each lies in the dominator subtree of one of `kids[..j]`.
   */
  ghost predicate InSubtrees(g: Graph, kids: seq<nat>, j: nat, before: map<nat, Visit>, w: map<nat, Visit>)
    requires g.Valid() && j <= |kids|
  {
    forall x | x in w && x !in before ::
      x < g.n && KidsIn(g, w, x) && exists k | 0 <= k < j :: g.Dominates(kids[k], x)
  }

  /** Visiting the subtree of `kids[j]` extends `InSubtrees` to the first `j + 1` kids. */
  lemma InSubtreesStep(g: Graph, kids: seq<nat>, j: nat, before: map<nat, Visit>, w1: map<nat, Visit>, w2: map<nat, Visit>)
    requires g.Valid() && j < |kids| && InSubtrees(g, kids, j, before, w1) && Grown(w1, w2)
    requires forall x | x in w2 && x !in w1 :: x < g.n && g.Dominates(kids[j], x) && KidsIn(g, w2, x)
    ensures InSubtrees(g, kids, j + 1, before, w2)
  {
    forall x | x in w2 && x !in before
      ensures x < g.n && KidsIn(g, w2, x) && exists k | 0 <= k < j + 1 :: g.Dominates(kids[k], x)
    {
      if x in w1 {
        var k :| 0 <= k < j && g.Dominates(kids[k], x);
      } else {
        assert g.Dominates(kids[j], x);
      }
    }
  }

  /** The operand stamping of one instruction stamps everything it reads with `top`. */
  lemma StampOperandsReads(node: Node, top: int)
    ensures ReadsAt(StampOperands(node, top), top)
  {
    if node.op == CALL && |node.kids| >= 3 {
      StampCallReads(node, top);
    } else if node.op == SET && |node.kids| >= 2 {
      var r := StampOperands(node, top);
      assert r.kids[0] == StampAddr(node.kids[0], top);
    }
  }

  /** The stamping of a CALL stamps its callee, its arguments and what its result list reads. */
  lemma StampCallReads(node: Node, top: int)
    requires node.op == CALL && |node.kids| >= 3
    ensures ReadsAt(StampOperands(node, top), top)
  {
    var r := StampOperands(node, top);
    var list := node.kids[2];
    assert r.kids[2] == StampResults(list, top);
    if |list.kids| > 0 && list.kids[0].op == MEM {
      assert r.kids[2] == list.(kids := list.kids[0 := StampAddr(list.kids[0], top)]);
    } else {
      assert r.kids[2] == ReplaceMem(list, top, true);
    }
  }

  /** Attaching a version to the defined memory keeps what is read as it was, and the memory carries it. */
  lemma StampDestReads(r: Node, v: int, top: int)
    requires StoresMem(r) && ReadsAt(r, top)
    ensures ReadsAt(StampDest(r, v), top) && WritesAt(StampDest(r, v), v)
    ensures StampDest(r, v).op == r.op
  {
  }

  /**
   * An instruction other than PROLOGUE: its operands are stamped with
   * `top`, a CALL takes version `lo`, and the memory a store or a CALL
   * defines gets the next version, `mid`.
   */
  lemma VersionedOperands(node: Node, r: Node, top: int, lo: int, mid: int, hi: int)
    requires node.op != PROLOGUE && mid == lo + (if node.op == CALL then 1 else 0)
    requires StoresMem(node) ==> StoresMem(StampOperands(node, top)) && r == StampDest(StampOperands(node, top), mid) && hi == mid + 1
    requires !StoresMem(node) ==> r == StampOperands(node, top) && hi == mid
    ensures Versioned(node, r, top, lo, hi)
  {
    var s := StampOperands(node, top);
    StampOperandsKeepsShape(node, top);
    StampOperandsReads(node, top);
    if StoresMem(node) {
      StampDestReads(s, mid, top);
    }
  }

  /** A PROLOGUE whose MEM parameters got `lo`, `lo + 1`, ... in order. */
  lemma VersionedPrologue(node: Node, r: Node, top: int, lo: int, hi: int)
    requires node.op == PROLOGUE && r.op == PROLOGUE
    requires ParamsAt(node, r, lo) && hi == lo + MemParams(node, |node.kids|)
    requires MemAsBefore(r, false) == MemAsBefore(node, false)
    ensures Versioned(node, r, top, lo, hi)
  {
  }

  // ---------------------------------------------------------------------
  // Frontier marking helpers
  // ---------------------------------------------------------------------

  /** Every marked block outside `pending` has all its dominance frontiers marked. */
  ghost predicate ClosedExcept(m: seq<bool>, fr: seq<seq<nat>>, pending: set<nat>)
    requires |fr| == |m|
  {
    forall x | 0 <= x < |m| && m[x] && x !in pending :: forall y | y in fr[x] :: y < |m| && m[y]
  }

  ghost predicate Grows(a: seq<bool>, b: seq<bool>) {
    |a| == |b| && forall i | 0 <= i < |a| :: a[i] ==> b[i]
  }

  function CountFalse(m: seq<bool>): nat {
    if m == [] then 0 else CountFalse(m[..|m| - 1]) + (if m[|m| - 1] then 0 else 1)
  }

  lemma {:induction false} CountFalseGrows(a: seq<bool>, b: seq<bool>, k: nat)
    requires Grows(a, b) && k < |a| && !a[k] && b[k]
    ensures CountFalse(b) < CountFalse(a)
    decreases |a|
  {
    var n := |a| - 1;
    assert Grows(a[..n], b[..n]);
    if k == n {
      CountFalseMono(a[..n], b[..n]);
    } else {
      CountFalseGrows(a[..n], b[..n], k);
    }
  }

  lemma {:induction false} CountFalseMono(a: seq<bool>, b: seq<bool>)
    requires Grows(a, b)
    ensures CountFalse(b) <= CountFalse(a)
    decreases |a|
  {
    if a != [] {
      var n := |a| - 1;
      assert Grows(a[..n], b[..n]);
      CountFalseMono(a[..n], b[..n]);
    }
  }

  // ---------------------------------------------------------------------
  // The versioner
  // ---------------------------------------------------------------------

  class MemoryVersioner {
    const f: Function
    /** The next version to hand out. */
    var nextNum: int
    /** The version stack of the dominator-tree walk; its top is the last element. */
    var stack: seq<int>
    /** Blocks that need a version of their own on entry (a merge of memory). */
    const offset: array<bool>
    const blkRankOut: array<int>
    const blkRankIn: array<int>
    /** The version each CALL defines, keyed by the call's (block, index) position. */
    var callMap: map<(nat, nat), int>
    /** Every version handed out so far. */
    ghost var issued: set<int>
    /** The code as it was before versioning. */
    ghost const original: seq<seq<Node>>
    /** How each block visited so far by the dominator-tree walk was versioned. */
    ghost var walk: map<nat, Visit>

    /** The counter and the stored versions, without the block-rank ordering. */
    ghost predicate Core()
      reads this, f, offset, blkRankIn, blkRankOut
    {
      && f.Valid()
      && offset.Length == f.g.n && blkRankIn.Length == f.g.n && blkRankOut.Length == f.g.n
      && blkRankIn != blkRankOut
      && Counter()
      && (forall b | 0 <= b < f.g.n :: blkRankIn[b] in issued && blkRankOut[b] in issued)
    }

    /** Every version held anywhere was handed out, and all are below `nextNum`. */
    ghost predicate Counter()
      reads this
    {
      && (forall v | v in issued :: 0 <= v < nextNum)
      && nextNum - 1 in issued
      && |stack| > 0
      && (forall v | v in stack :: v in issued)
      && (forall k | k in callMap :: callMap[k] in issued)
    }

    ghost predicate Valid()
      reads this, f, offset, blkRankIn, blkRankOut
    {
      Core() && forall b | 0 <= b < f.g.n :: blkRankIn[b] <= blkRankOut[b]
    }

    /**
     * The record of the walk so far holds for the current code and ranks
     * (see `WalkedIn`), and for the versions recorded for CALLs (see `CallsIn`).
     */
    ghost predicate Walked()
      reads this, f, offset, blkRankIn, blkRankOut
    {
      && WalkedIn(f.g, original, f.code, walk, blkRankIn[..], blkRankOut[..], offset[..])
      && CallsIn(original, walk, callMap)
    }

    /**
     * Versions the whole function: the bottom version 0 is pushed, the
     * merge blocks are marked, and the dominator tree is walked from the
     * entry block. Every block of the tree below the entry is visited, and
     * `walk` records how each was versioned (see `RecordedIn`).
     */
    constructor (f: Function)
      requires f.Valid() && f.g.DomKidsOnce()
      modifies f
      ensures Valid() && this.f == f
      ensures stack == [0]
      ensures ClosedExcept(offset[..], f.g.frontiers, {})
      ensures forall b | 0 <= b < f.g.n && HasClobber(old(f.code)[b]) ::
                forall y | y in f.g.frontiers[b] :: offset[y]
      ensures SameShape(old(f.code), f.code)
      ensures original == old(f.code) && Walked()
      ensures f.g.entry in walk && walk[f.g.entry].top == 0 && walk[f.g.entry].lo == 1
      ensures forall x | x in walk :: KidsIn(f.g, walk, x) && f.g.Dominates(f.g.entry, x)
    {
      this.f := f;
      original := f.code;
      nextNum := 0;
      callMap := map[];
      stack := [];
      blkRankOut := new int[f.g.n](_ => 0);
      blkRankIn := new int[f.g.n](_ => 0);
      offset := new bool[f.g.n](_ => false);
      issued := {};
      walk := map[];
      new;
      var bottom := Fresh();
      stack := stack + [bottom];
      SetOffset();
      assert Valid() by {
        assert forall b | 0 <= b < f.g.n :: blkRankIn[b] == 0 && blkRankOut[b] == 0;
      }
      WalkTree();
      WalkedShape(f.g, original, f.code, walk, blkRankIn[..], blkRankOut[..], offset[..]);
    }

    /** Walks the whole dominator tree from the entry block, with nothing visited yet. */
    method WalkTree()
      requires Valid() && f.g.DomKidsOnce() && walk == map[] && f.code == original
      modifies this`nextNum, this`issued, this`stack, this`callMap, this`walk, f, blkRankIn, blkRankOut
      ensures Valid() == true && Walked() == true && stack == old(stack)
      ensures f.g.entry in walk && walk[f.g.entry].top == old(Top()) && walk[f.g.entry].lo == old(nextNum)
      ensures forall x | x in walk :: KidsIn(f.g, walk, x) && f.g.Dominates(f.g.entry, x)
    {
      WalkedEmpty(f.g, original, blkRankIn[..], blkRankOut[..], offset[..]);
      MarkMem(f.g.entry);
    }

    /** Hands out the next version; it differs from every version handed out before. */
    method Fresh() returns (v: int)
      requires nextNum >= 0 && forall x | x in issued :: 0 <= x < nextNum
      modifies this`nextNum, this`issued
      ensures v == old(nextNum) && nextNum == v + 1
      ensures v !in old(issued) && issued == old(issued) + {v}
      ensures forall x | x in issued :: 0 <= x < nextNum
    {
      v := nextNum;
      nextNum := nextNum + 1;
      issued := issued + {v};
    }

    /**
     * Marks `blk` and, transitively, its dominance frontiers. Blocks already
     * marked stop the walk, so each block is marked at most once; blocks in
     * `pending` are those whose own frontiers are still being walked.
     */
    method MarkFrontier(blk: nat, ghost pending: set<nat>)
      requires f.Valid() && offset.Length == f.g.n && blk < f.g.n
      requires ClosedExcept(offset[..], f.g.frontiers, pending)
      modifies offset
      ensures offset[blk]
      ensures Grows(old(offset[..]), offset[..])
      ensures ClosedExcept(offset[..], f.g.frontiers, pending)
      decreases CountFalse(offset[..])
    {
      if offset[blk] {
        return;
      }
      ghost var before := offset[..];
      offset[blk] := true;
      var fr := f.g.frontiers[blk];
      IdsBelowAt(f.g.frontiers, f.g.n, blk);
      var r := 0;
      while r < |fr|
        invariant 0 <= r <= |fr|
        invariant offset[blk]
        invariant Grows(before, offset[..])
        invariant ClosedExcept(offset[..], f.g.frontiers, pending + {blk})
        invariant forall j | 0 <= j < r :: offset[fr[j]]
      {
        assert fr[r] in f.g.frontiers[blk];
        CountFalseGrows(before, offset[..], blk);
        MarkFrontier(fr[r], pending + {blk});
        r := r + 1;
      }
    }

    /** Marks every dominance frontier of `blk`, and their frontiers in turn. */
    method MarkFrontiersOf(blk: nat)
      requires f.Valid() && offset.Length == f.g.n && blk < f.g.n
      requires ClosedExcept(offset[..], f.g.frontiers, {})
      modifies offset
      ensures Grows(old(offset[..]), offset[..])
      ensures ClosedExcept(offset[..], f.g.frontiers, {})
      ensures forall y | y in f.g.frontiers[blk] :: offset[y]
    {
      var fr := f.g.frontiers[blk];
      IdsBelowAt(f.g.frontiers, f.g.n, blk);
      var r := 0;
      while r < |fr|
        invariant 0 <= r <= |fr|
        invariant Grows(old(offset[..]), offset[..])
        invariant ClosedExcept(offset[..], f.g.frontiers, {})
        invariant forall j | 0 <= j < r :: offset[fr[j]]
      {
        MarkFrontier(fr[r], {});
        r := r + 1;
      }
    }

    /**
     * Marks the dominance frontiers, closed under frontiers, of every block
     * that contains a store to memory or a call.
     */
    method SetOffset()
      requires f.Valid() && offset.Length == f.g.n
      modifies offset
      ensures ClosedExcept(offset[..], f.g.frontiers, {})
      ensures forall b | 0 <= b < f.g.n && HasClobber(f.code[b]) ::
                forall y | y in f.g.frontiers[b] :: offset[y]
    {
      var i := 0;
      while i < offset.Length
        invariant 0 <= i <= offset.Length
        invariant forall j | 0 <= j < i :: !offset[j]
      {
        offset[i] := false;
        i := i + 1;
      }
      var layout := f.g.layout;
      LayoutIds(f.g);
      var li := 0;
      while li < |layout|
        invariant 0 <= li <= |layout|
        invariant ClosedExcept(offset[..], f.g.frontiers, {})
        invariant forall j | 0 <= j < li && HasClobber(f.code[layout[j]]) ::
                    forall y | y in f.g.frontiers[layout[j]] :: offset[y]
      {
        ghost var before := offset[..];
        MarkIfClobbers(layout[li]);
        assert forall y | 0 <= y < offset.Length && before[y] :: offset[y];
        li := li + 1;
      }
      forall b | 0 <= b < f.g.n && HasClobber(f.code[b])
        ensures forall y | y in f.g.frontiers[b] :: offset[y]
      {
        assert b in layout;
        var j :| 0 <= j < |layout| && layout[j] == b;
      }
    }

    /** Marks the frontiers of `blk`, closed under frontiers, when `blk` holds a store or a call. */
    method MarkIfClobbers(blk: nat)
      requires f.Valid() && offset.Length == f.g.n && blk < f.g.n
      requires ClosedExcept(offset[..], f.g.frontiers, {})
      modifies offset
      ensures Grows(old(offset[..]), offset[..])
      ensures ClosedExcept(offset[..], f.g.frontiers, {})
      ensures HasClobber(f.code[blk]) ==> forall y | y in f.g.frontiers[blk] :: offset[y]
    {
      var instrs := f.code[blk];
      var q := 0;
      while q < |instrs| && !Clobbers(instrs[q])
        invariant 0 <= q <= |instrs|
        invariant forall k | 0 <= k < q :: !Clobbers(instrs[k])
      {
        q := q + 1;
      }
      if q < |instrs| {
        MarkFrontiersOf(blk);
      }
    }

    /** The version on top of the stack. */
    function Top(): int
      reads this
      requires |stack| > 0
    {
      stack[|stack| - 1]
    }

    /**
     * Versions one instruction of block `blk` at index `pos`: its operands
     * get the version on top of the stack, then a CALL pushes the version
     * it defines (recorded for callThreshold), each MEM parameter of a
     * PROLOGUE gets and pushes a fresh version, and a store to memory gets
     * and pushes a fresh version for its destination.
     */
    method VersionInstr(blk: nat, pos: nat, node: Node) returns (r: Node, pushed: nat)
      requires Core()
      modifies this`nextNum, this`issued, this`stack, this`callMap
      ensures Core()
      ensures Versioned(node, r, old(Top()), old(nextNum), nextNum) == true
      ensures stack == old(stack) + Span(old(nextNum), nextNum) && pushed == nextNum - old(nextNum)
      ensures callMap == if node.op == CALL then old(callMap)[(blk, pos) := old(nextNum)] else old(callMap)
    {
      if node.op == PROLOGUE {
        r, pushed := VersionPrologue(node);
        VersionedPrologue(node, r, old(Top()), old(nextNum), nextNum);
      } else {
        r, pushed := VersionOperands(blk, pos, node);
      }
    }

    /**
     * Versions an instruction other than PROLOGUE: the operands get the top
     * of the stack, a CALL pushes (and records) the version it defines, and
     * the memory a store or call defines gets the next version, pushed too.
     */
    method VersionOperands(blk: nat, pos: nat, node: Node) returns (r: Node, pushed: nat)
      requires Core() && node.op != PROLOGUE
      modifies this`nextNum, this`issued, this`stack, this`callMap
      ensures Core() == true
      ensures Versioned(node, r, old(Top()), old(nextNum), nextNum) == true
      ensures stack == old(stack) + Span(old(nextNum), nextNum) && pushed == nextNum - old(nextNum)
      ensures callMap == if node.op == CALL then old(callMap)[(blk, pos) := old(nextNum)] else old(callMap)
    {
      var top := Top();
      var stamped := StampOperands(node, top);
      StampOperandsKeepsShape(node, top);
      pushed := 0;
      if node.op == CALL {
        RecordCall(blk, pos);
        pushed := 1;
      }
      ghost var mid, s1 := nextNum, stack;
      var defined;
      r, defined := DefineMem(stamped);
      pushed := pushed + defined;
      VersionedOperands(node, r, top, old(nextNum), mid, nextNum);
      SpanPushes(old(stack), old(nextNum), mid, nextNum, s1, stack);
    }

    /**
     * Gives the memory a store or CALL `node` defines a fresh version,
     * pushed onto the stack; any other instruction is left as it is.
     */
    method DefineMem(node: Node) returns (r: Node, pushed: nat)
      requires Core()
      modifies this`nextNum, this`issued, this`stack
      ensures Core() == true && pushed == nextNum - old(nextNum)
      ensures StoresMem(node) ==> r == StampDest(node, old(nextNum)) && nextNum == old(nextNum) + 1 && stack == old(stack) + [old(nextNum)]
      ensures !StoresMem(node) ==> r == node && nextNum == old(nextNum) && stack == old(stack)
    {
      r := node;
      pushed := 0;
      if StoresMem(node) {
        var v := PushFresh();
        r := StampDest(node, v);
        pushed := 1;
      }
    }

    /** Hands out and pushes the version the CALL at (`blk`, `pos`) defines, and records it. */
    method RecordCall(blk: nat, pos: nat)
      requires Core()
      modifies this`nextNum, this`issued, this`stack, this`callMap
      ensures Core()
      ensures nextNum == old(nextNum) + 1
      ensures stack == old(stack) + [old(nextNum)]
      ensures callMap == old(callMap)[(blk, pos) := old(nextNum)]
    {
      var v := PushFresh();
      callMap := callMap[(blk, pos) := v];
    }

    /** Hands out a fresh version and pushes it. */
    method PushFresh() returns (v: int)
      requires Core()
      modifies this`nextNum, this`issued, this`stack
      ensures Core()
      ensures v == old(nextNum) && nextNum == v + 1
      ensures stack == old(stack) + [v]
    {
      v := Fresh();
      stack := stack + [v];
    }

    /**
     * Gives every MEM parameter of a PROLOGUE (children 1 ..) a fresh
     * version, in order, and pushes it.
     */
    method VersionPrologue(node: Node) returns (r: Node, pushed: nat)
      requires Core()
      modifies this`nextNum, this`issued, this`stack
      ensures Core()
      ensures r.op == node.op && ParamsAt(node, r, old(nextNum))
      ensures nextNum == old(nextNum) + MemParams(node, |node.kids|) && pushed == nextNum - old(nextNum)
      ensures stack == old(stack) + Span(old(nextNum), nextNum)
      ensures MemAsBefore(r, false) == MemAsBefore(node, false)
    {
      r := node;
      pushed := 0;
      var i := 1;
      while i < |node.kids|
        invariant 1 <= i && (i <= |node.kids| || i == 1)
        invariant Core()
        invariant nextNum == old(nextNum) + MemParams(node, i) && pushed == nextNum - old(nextNum)
        invariant stack == old(stack) + Span(old(nextNum), nextNum)
        invariant MemAsBefore(r, false) == MemAsBefore(node, false)
        invariant ParamsUpTo(node, r, old(nextNum), i)
      {
        MemParamsNext(node, i);
        if r.kids[i].op != MEM {
          ParamsStepSkip(node, r, old(nextNum), i);
        } else {
          ParamsStepMem(node, r, old(nextNum), i, nextNum);
          SpanPush(old(stack), old(nextNum), nextNum);
          var v := PushFresh();
          MemAsBeforeWithKid(r, i, Restamp(r.kids[i], v), false);
          r := WithKid(r, i, Restamp(r.kids[i], v));
          pushed := pushed + 1;
        }
        i := i + 1;
      }
      ParamsDone(node, r, old(nextNum), i);
    }

    /**
     * Versions the instructions of block `blk` in order, with the stack
     * `base + Span(lo, nextNum)`; returns how many versions were pushed, and
     * in `nexts` the counter before each instruction and at the end.
     */
    method VersionBlock(blk: nat, ghost base: seq<int>, ghost lo: int) returns (pushed: nat, ghost nexts: seq<int>)
      requires Core() && blk < f.g.n && |base| > 0 && lo <= nextNum && stack == base + Span(lo, nextNum)
      modifies this`nextNum, this`issued, this`stack, this`callMap, f
      ensures Core()
      ensures BlockVersioned(old(f.code[blk]), f.code[blk], base[|base| - 1], lo, nexts)
      ensures nexts[0] == old(nextNum) && nexts[|nexts| - 1] == nextNum && nextNum >= old(nextNum)
      ensures stack == base + Span(lo, nextNum) && pushed == nextNum - old(nextNum)
      ensures |nexts| == |old(f.code[blk])| + 1 && CallsRecorded(callMap, blk, old(f.code[blk]), nexts, |old(f.code[blk])|)
      ensures KeptOutside(old(callMap), callMap, blk)
      ensures f.code == old(f.code)[blk := f.code[blk]]
    {
      var instrs := f.code[blk];
      ghost var orig := instrs;
      ghost var top := base[|base| - 1];
      pushed := 0;
      nexts := [nextNum];
      var i := 0;
      while i < |instrs|
        modifies this`nextNum, this`issued, this`stack, this`callMap
        invariant 0 <= i <= |instrs| == |orig| && f.code == old(f.code)
        invariant lo <= old(nextNum) <= nextNum
        invariant Core() && stack == base + Span(lo, nextNum)
        invariant VersionedUpTo(orig, instrs, top, lo, nexts, i)
        invariant nexts[0] == old(nextNum) && nexts[i] == nextNum
        invariant pushed == nextNum - old(nextNum)
        invariant forall k | i <= k < |instrs| :: instrs[k] == orig[k]
        invariant CallsRecorded(callMap, blk, orig, nexts, i)
        invariant KeptOutside(old(callMap), callMap, blk)
      {
        TopAfterStack(base, lo, nextNum);
        ghost var cm, n0 := callMap, nextNum;
        var r, n := VersionInstr(blk, i, instrs[i]);
        VersionedUpToStep(orig, instrs, top, lo, nexts, i, r, nextNum);
        CallsRecordedStep(cm, callMap, blk, orig, nexts, i, nextNum);
        SpanExtend(base, lo, n0, nextNum);
        instrs := instrs[i := r];
        nexts := nexts + [nextNum];
        pushed := pushed + n;
        i := i + 1;
      }
      f.code := f.code[blk := instrs];
    }

    /**
     * Walks the dominator subtree of `blk`: versions the block itself (see
     * `VisitBlock`), visits the dominator children and finally pops exactly
     * the versions this block pushed. Every block visited on the way lies
     * in the subtree of `blk`.
     */
    method MarkMem(blk: nat)
      requires Valid() == true && Walked() == true && f.g.DomKidsOnce() && blk < f.g.n && blk !in walk
      requires forall x | x in walk :: !f.g.Dominates(blk, x)
      requires blk != f.g.entry ==> f.g.idom[blk] >= 0 && f.g.idom[blk] as nat in walk && Top() == ExitTop(walk[f.g.idom[blk] as nat])
      modifies this`nextNum, this`issued, this`stack, this`callMap, this`walk, f, blkRankIn, blkRankOut
      ensures Valid() == true && Walked() == true
      ensures stack == old(stack) && nextNum >= old(nextNum)
      ensures blk in walk && walk[blk].top == old(Top()) && walk[blk].lo == old(nextNum)
      ensures Grown(old(walk), walk)
      ensures forall x | x in walk && x !in old(walk) :: x < f.g.n && f.g.Dominates(blk, x) && KidsIn(f.g, walk, x)
      decreases f.g.n - f.g.domDepth[blk], 2
    {
      ghost var code0, rin0, rout0, cm0 := f.code, blkRankIn[..], blkRankOut[..], callMap;
      var count, nexts := VisitBlock(blk);
      RecordVisit(blk, Visit(old(Top()), old(nextNum), nexts), code0, rin0, rout0, cm0);
      TopAfterStack(old(stack), old(nextNum), nextNum);
      MarkKids(blk);
      PopVersions(count);
    }

    /**
     * Versions block `blk` on its visit: a merge block first pushes a
     * version of its own, and the entry and exit ranks are kept around its
     * instructions.
     */
    method VisitBlock(blk: nat) returns (count: nat, ghost nexts: seq<int>)
      requires Valid() && blk < f.g.n
      modifies this`nextNum, this`issued, this`stack, this`callMap, f, blkRankIn, blkRankOut
      ensures Valid() == true
      ensures BlockVersioned(old(f.code[blk]), f.code[blk], old(Top()), old(nextNum), nexts) == true
      ensures |nexts| > 0 && nexts[0] == old(nextNum) + (if offset[blk] then 1 else 0) && nexts[|nexts| - 1] == nextNum
      ensures count == nextNum - old(nextNum) && stack == old(stack) + Span(old(nextNum), nextNum)
      ensures f.code == old(f.code)[blk := f.code[blk]]
      ensures blkRankIn[..] == old(blkRankIn[..])[blk := nexts[0] - 1]
      ensures blkRankOut[..] == old(blkRankOut[..])[blk := nextNum - 1]
      ensures |nexts| == |old(f.code[blk])| + 1 && CallsRecorded(callMap, blk, old(f.code[blk]), nexts, |old(f.code[blk])|)
      ensures KeptOutside(old(callMap), callMap, blk)
    {
      count := EnterBlock(blk);
      var pushed;
      pushed, nexts := VersionBlock(blk, old(stack), old(nextNum));
      count := count + pushed;
      LeaveBlock(blk);
    }

    /** On entry to `blk`: a merge block pushes a version of its own, then the entry rank is kept. */
    method EnterBlock(blk: nat) returns (count: nat)
      requires Valid() && blk < f.g.n
      modifies this`nextNum, this`issued, this`stack, blkRankIn
      ensures Core() == true && nextNum == old(nextNum) + count
      ensures count == if offset[blk] then 1 else 0
      ensures stack == old(stack) + Span(old(nextNum), nextNum)
      ensures blkRankIn[..] == old(blkRankIn[..])[blk := nextNum - 1]
      ensures forall b | 0 <= b < f.g.n && b != blk :: blkRankIn[b] <= blkRankOut[b]
    {
      count := 0;
      if offset[blk] {
        SpanPush(old(stack), nextNum, nextNum);
        var v := PushFresh();
        count := 1;
      } else {
        assert stack == old(stack) + Span(nextNum, nextNum);
      }
      blkRankIn[blk] := nextNum - 1;
      assert blkRankIn[..] == old(blkRankIn[..])[blk := nextNum - 1];
    }

    /** On leaving the instructions of `blk`: the exit rank is kept. */
    method LeaveBlock(blk: nat)
      requires Core() && blk < f.g.n && blkRankIn[blk] <= nextNum - 1
      requires forall b | 0 <= b < f.g.n && b != blk :: blkRankIn[b] <= blkRankOut[b]
      modifies blkRankOut
      ensures Valid() == true
      ensures blkRankOut[..] == old(blkRankOut[..])[blk := nextNum - 1]
    {
      blkRankOut[blk] := nextNum - 1;
      assert blkRankOut[..] == old(blkRankOut[..])[blk := nextNum - 1];
    }

    /**
     * Records the visit `v` of `blk` in `walk`, once its code and ranks,
     * and nothing else, have changed since the state `code0`, `rin0`,
     * `rout0` the record was kept for.
     */
    ghost method RecordVisit(blk: nat, v: Visit, code0: seq<seq<Node>>, rin0: seq<int>, rout0: seq<int>,
                             cm0: map<(nat, nat), int>)
      requires Valid() && blk < f.g.n && blk !in walk
      requires WalkedIn(f.g, original, code0, walk, rin0, rout0, offset[..])
      requires CallsIn(original, walk, cm0) && KeptOutside(cm0, callMap, blk)
      requires |v.nexts| == |code0[blk]| + 1 && CallsRecorded(callMap, blk, code0[blk], v.nexts, |code0[blk]|)
      requires f.code == code0[blk := f.code[blk]]
      requires blkRankIn[..] == rin0[blk := blkRankIn[blk]] && blkRankOut[..] == rout0[blk := blkRankOut[blk]]
      requires BlockVersioned(code0[blk], f.code[blk], v.top, v.lo, v.nexts)
      requires v.nexts[0] == v.lo + (if offset[blk] then 1 else 0)
      requires blkRankIn[blk] == v.nexts[0] - 1 && blkRankOut[blk] == v.nexts[|v.nexts| - 1] - 1
      requires blk != f.g.entry ==> f.g.idom[blk] >= 0 && f.g.idom[blk] as nat in walk && v.top == ExitTop(walk[f.g.idom[blk] as nat])
      modifies this`walk
      ensures Walked() == true && walk == old(walk)[blk := v]
    {
      assert code0[blk] == original[blk];
      assert RecordedIn(f.g, original, f.code, walk[blk := v], blkRankIn[..], blkRankOut[..], offset[..], blk);
      WalkedAdd(f.g, original, code0, walk, rin0, rout0, offset[..], blk, v, f.code[blk], blkRankIn[blk], blkRankOut[blk]);
      CallsInAdd(original, walk, cm0, callMap, blk, v);
      walk := walk[blk := v];
    }

    /**
     * Visits the dominator-tree children of visited block `blk` in order,
     * each with the stack `blk` left; every block visited on the way lies
     * in the subtree of one of them.
     */
    method MarkKids(blk: nat)
      requires Valid() == true && Walked() == true && f.g.DomKidsOnce() && blk < f.g.n && blk in walk
      requires forall x | x in walk && x != blk :: !f.g.Dominates(blk, x)
      requires Top() == ExitTop(walk[blk])
      modifies this`nextNum, this`issued, this`stack, this`callMap, this`walk, f, blkRankIn, blkRankOut
      ensures Valid() == true && Walked() == true && KidsIn(f.g, walk, blk)
      ensures stack == old(stack) && nextNum >= old(nextNum)
      ensures Grown(old(walk), walk)
      ensures forall x | x in walk && x !in old(walk) :: x < f.g.n && f.g.Dominates(blk, x) && KidsIn(f.g, walk, x)
      decreases f.g.n - f.g.domDepth[blk], 1
    {
      var kids := f.g.domKids[blk];
      KidsOf(blk);
      var j := 0;
      while j < |kids|
        invariant 0 <= j <= |kids|
        invariant Valid() == true && Walked() == true
        invariant nextNum >= old(nextNum) && stack == old(stack)
        invariant Grown(old(walk), walk)
        invariant PrefixIn(kids, j, walk)
        invariant InSubtrees(f.g, kids, j, old(walk), walk)
      {
        MarkKid(blk, kids, j, old(walk));
        j := j + 1;
      }
      SubtreesDone(blk, kids, old(walk));
    }

    /** Visits the subtree of the kid `kids[j]` of `blk`, with the stack `blk` left. */
    method MarkKid(blk: nat, kids: seq<nat>, j: nat, ghost before: map<nat, Visit>)
      requires Valid() == true && Walked() == true && f.g.DomKidsOnce() && blk < f.g.n && blk in before
      requires kids == f.g.domKids[blk] && j < |kids|
      requires forall k | 0 <= k < |kids| :: kids[k] < f.g.n && f.g.idom[kids[k]] == blk
      requires Grown(before, walk) && forall x | x in before && x != blk :: !f.g.Dominates(blk, x)
      requires InSubtrees(f.g, kids, j, before, walk) && PrefixIn(kids, j, walk)
      requires Top() == ExitTop(before[blk])
      modifies this`nextNum, this`issued, this`stack, this`callMap, this`walk, f, blkRankIn, blkRankOut
      ensures Valid() == true && Walked() == true
      ensures stack == old(stack) && nextNum >= old(nextNum)
      ensures Grown(before, walk) && InSubtrees(f.g, kids, j + 1, before, walk) && PrefixIn(kids, j + 1, walk)
      decreases f.g.n - f.g.domDepth[blk], 0
    {
      ghost var w1 := walk;
      KidFresh(blk, kids, j, before);
      MarkMem(kids[j]);
      InSubtreesStep(f.g, kids, j, before, w1, walk);
      PrefixInStep(kids, j, w1, walk);
      GrownTrans(before, w1, walk);
    }

    /** The dominator-tree kids of `blk` are blocks whose immediate dominator is `blk`. */
    lemma KidsOf(blk: nat)
      requires f.g.Valid() && blk < f.g.n
      ensures forall j | 0 <= j < |f.g.domKids[blk]| :: f.g.domKids[blk][j] < f.g.n && f.g.idom[f.g.domKids[blk][j]] == blk
    {
      var kids := f.g.domKids[blk];
      IdsBelowAt(f.g.domKids, f.g.n, blk);
      forall j | 0 <= j < |kids| ensures f.g.idom[kids[j]] == blk {
        assert kids[j] in f.g.domKids[blk];
      }
    }

    /** Once every kid of `blk` is visited, the blocks visited since lie in the subtree of `blk`. */
    lemma SubtreesDone(blk: nat, kids: seq<nat>, before: map<nat, Visit>)
      requires f.g.Valid() && blk < f.g.n && kids == f.g.domKids[blk]
      requires forall j | 0 <= j < |kids| :: kids[j] < f.g.n && f.g.idom[kids[j]] == blk
      requires InSubtrees(f.g, kids, |kids|, before, walk) && PrefixIn(kids, |kids|, walk)
      ensures KidsIn(f.g, walk, blk)
      ensures forall x | x in walk && x !in before :: x < f.g.n && f.g.Dominates(blk, x) && KidsIn(f.g, walk, x)
    {
      forall x | x in walk && x !in before ensures f.g.Dominates(blk, x) {
        var k :| 0 <= k < |kids| && f.g.Dominates(kids[k], x);
        DominatesIdom(f.g, kids[k], x);
      }
      forall c | c in f.g.domKids[blk] ensures c in walk {
        var k :| 0 <= k < |kids| && kids[k] == c;
      }
    }

    /**
     * The next child `kids[j]` of `blk` is not visited yet and dominates no
     * visited block: the blocks visited before `blk`'s children lie outside
     * its subtree, and those visited since lie in the subtrees of its
     * earlier children.
     */
    lemma KidFresh(blk: nat, kids: seq<nat>, j: nat, before: map<nat, Visit>)
      requires f.g.Valid() && f.g.DomKidsOnce() && blk < f.g.n && blk in before && kids == f.g.domKids[blk] && j < |kids|
      requires forall k | 0 <= k < |kids| :: kids[k] < f.g.n && f.g.idom[kids[k]] == blk
      requires Grown(before, walk) && forall x | x in walk :: x < f.g.n
      requires forall x | x in before && x != blk :: !f.g.Dominates(blk, x)
      requires InSubtrees(f.g, kids, j, before, walk)
      ensures kids[j] !in walk && forall x | x in walk :: !f.g.Dominates(kids[j], x)
    {
      var c := kids[j];
      assert f.g.Dominates(blk, c);
      forall x | x in walk ensures !f.g.Dominates(c, x) && x != c {
        if x in before {
          if x == blk {
            if f.g.Dominates(c, blk) {
              DominatesDepth(f.g, c, blk);
            }
          } else if f.g.Dominates(c, x) {
            DominatesIdom(f.g, c, x);
          }
        } else {
          var k :| 0 <= k < j && f.g.Dominates(kids[k], x);
          assert kids[k] != c;
          DominatesSibling(f.g, kids[k], c, x);
        }
      }
    }

    /** Pops `count` versions off the stack, one at a time. */
    method PopVersions(count: nat)
      requires Core() && |stack| >= count + 1
      modifies this`stack
      ensures Core()
      ensures stack == old(stack)[..|old(stack)| - count]
    {
      var k := 0;
      while k < count
        invariant 0 <= k <= count
        invariant Core()
        invariant stack == old(stack)[..|old(stack)| - k]
      {
        stack := stack[..|stack| - 1];
        k := k + 1;
      }
    }

    /** The version that leaves block `blk`, as an UNKNOWN-typed constant. */
    function GetIndex(blk: nat): (r: Node)
      reads blkRankOut
      requires blk < blkRankOut.Length
      ensures r == Version(blkRankOut[blk])
    {
      Version(blkRankOut[blk])
    }

    /** The version `GetIndex` answers was handed out. */
    lemma GetIndexIssued(blk: nat)
      requires Valid() && blk < f.g.n
      ensures GetIndex(blk).sym in issued
    {
    }

    /**
     * The version `GetIndex` answers for a visited block is the last one
     * handed out by the end of its instructions; when the block handed out
     * any version, that is the version on top of the stack as the walk
     * leaves it.
     */
    lemma GetIndexWalked(blk: nat)
      requires Valid() && Walked() && blk in walk
      ensures blk < f.g.n && |walk[blk].nexts| > 0
      ensures GetIndex(blk).sym == walk[blk].nexts[|walk[blk].nexts| - 1] - 1
      ensures walk[blk].lo < walk[blk].nexts[|walk[blk].nexts| - 1] ==> GetIndex(blk).sym == ExitTop(walk[blk])
    {
      assert RecordedIn(f.g, original, f.code, walk, blkRankIn[..], blkRankOut[..], offset[..], blk);
    }

    /** What the record of the walk says about a visited block `blk`. */
    lemma RecordOf(blk: nat)
      requires Valid() && blk < f.g.n
      ensures Walked() && blk in walk ==> RecordedIn(f.g, original, f.code, walk, blkRankIn[..], blkRankOut[..], offset[..], blk)
    {
      if Walked() && blk in walk {
        assert RecordedIn(f.g, original, f.code, walk, blkRankIn[..], blkRankOut[..], offset[..], blk);
      }
    }

    /**
     * blkRankIn of a block, as recorded on entry to it: for a visited block,
     * the version a merge block pushed on entry, and otherwise the last
     * version handed out before the block.
     */
    function BlkRankIn(blk: nat): (r: int)
      reads this, f, offset, blkRankIn, blkRankOut
      requires Valid() && blk < f.g.n
      ensures r in issued && r <= blkRankOut[blk]
      ensures Walked() && blk in walk ==> r == walk[blk].lo - 1 + (if offset[blk] then 1 else 0)
    {
      RecordOf(blk);
      blkRankIn[blk]
    }

    /** A copy of MEM `root` with the same address and a version never handed out before. */
    method MakeNewMem(root: Node) returns (r: Node)
      requires Counter()
      modifies this`nextNum, this`issued
      ensures Counter() && nextNum == old(nextNum) + 1 && issued == old(issued) + {old(nextNum)}
      ensures r.op == MEM && r.ty == root.ty && r.kids == [Kid(root, 0), Version(old(nextNum))]
      ensures old(nextNum) !in old(issued)
      ensures MemAsBefore(r, true) == MemAsBefore(Mem(root.ty, Kid(root, 0)), true)
    {
      var v := Fresh();
      r := MemV(root.ty, Kid(root, 0), v);
    }

    /**
     * What the record of the walk says about the CALL at index `pos` of a
     * visited block `blk`: it is still a CALL, and the version recorded for
     * it is the one the walk handed out on reaching it.
     */
    lemma CallOf(blk: nat, pos: nat)
      requires Valid()
      ensures Walked() && blk in walk && blk < |original| && pos < |original[blk]| && original[blk][pos].op == CALL ==>
                blk < |f.code| && pos < |f.code[blk]| && f.code[blk][pos].op == CALL && (blk, pos) in callMap
                && pos < |walk[blk].nexts| && callMap[(blk, pos)] == walk[blk].nexts[pos]
    {
      if Walked() && blk in walk && blk < |original| && pos < |original[blk]| && original[blk][pos].op == CALL {
        assert RecordedIn(f.g, original, f.code, walk, blkRankIn[..], blkRankOut[..], offset[..], blk);
        var v := walk[blk];
        assert StepVersioned(original[blk], f.code[blk], v.top, v.lo, v.nexts, pos);
        assert MemAsBefore(f.code[blk][pos], false).op == f.code[blk][pos].op;
        assert MemAsBefore(original[blk][pos], false).op == original[blk][pos].op;
      }
    }

    /**
     * The version recorded for the CALL at index `pos` of block `blk`, or -1
     * when that instruction is not a CALL or no version was recorded for it.
     * For a CALL of a visited block it is the version the walk handed that
     * CALL.
     */
    function CallThreshold(blk: nat, pos: nat): (r: int)
      reads this, f, offset, blkRankIn, blkRankOut
      requires Valid()
      ensures r != -1 <==> (blk < |f.code| && pos < |f.code[blk]| && f.code[blk][pos].op == CALL && (blk, pos) in callMap)
      ensures r != -1 ==> r == callMap[(blk, pos)] && r in issued
      ensures Walked() && blk in walk && blk < |original| && pos < |original[blk]| && original[blk][pos].op == CALL ==>
                pos < |walk[blk].nexts| && r == walk[blk].nexts[pos]
    {
      CallOf(blk, pos);
      if !(blk < |f.code| && pos < |f.code[blk]| && f.code[blk][pos].op == CALL) then -1
      else if (blk, pos) !in callMap then -1
      else callMap[(blk, pos)]
    }

    /** Strips the versions from every MEM of the function again. */
    method Annul()
      requires Valid()
      modifies f
      ensures Valid()
      ensures f.code == Unstamp(old(f.code))
    {
      var layout := f.g.layout;
      LayoutIds(f.g);
      ghost var orig := f.code;
      var li := 0;
      while li < |layout|
        invariant 0 <= li <= |layout|
        invariant Valid() && |f.code| == |orig| == f.g.n
        invariant forall b | 0 <= b < |orig| :: b in layout[..li] ==> f.code[b] == Unstamp(orig)[b]
        invariant forall b | 0 <= b < |orig| :: b !in layout[..li] ==> f.code[b] == orig[b]
      {
        var blk := layout[li];
        var instrs := AnnulBlock(f.code[blk]);
        if blk in layout[..li] {
          forall k | 0 <= k < |instrs| ensures instrs[k] == Unstamp(orig)[blk][k] {
            MemAsBeforeIdempotent(orig[blk][k], false);
          }
        }
        f.code := f.code[blk := instrs];
        assert layout[..li + 1] == layout[..li] + [blk];
        li := li + 1;
      }
      assert layout[..li] == layout;
      forall b | 0 <= b < |orig| ensures f.code[b] == Unstamp(orig)[b] {
        assert b in layout;
      }
    }

    /** The instructions of one block with every version stripped. */
    static method AnnulBlock(instrs: seq<Node>) returns (r: seq<Node>)
      ensures |r| == |instrs|
      ensures forall k | 0 <= k < |r| :: r[k] == MemAsBefore(instrs[k], false) && Unstamped(r[k], false)
    {
      r := instrs;
      var q := 0;
      while q < |r|
        invariant 0 <= q <= |r| == |instrs|
        invariant forall k | 0 <= k < q :: r[k] == MemAsBefore(instrs[k], false)
        invariant forall k | q <= k < |r| :: r[k] == instrs[k]
      {
        r := r[q := MemAsBefore(r[q], false)];
        q := q + 1;
      }
    }
  }
}
