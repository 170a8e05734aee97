// Division of instructions into three-address form: every operator that is
// not the direct source of a SET, and every memory load, moves into a fresh
// temporary assigned right before the instruction.
module DivideExpression {
  import opened Lir
  import opened Cfg

  /**
   * What dividing a node gives: the divided node, the SETs inserted before
   * the instruction in the order they were inserted, and the next free
   * symbol.
   */
  datatype Split = Split(node: Node, emitted: seq<Node>, next: int)

  /** The same for a run of kids. */
  datatype Splits = Splits(nodes: seq<Node>, emitted: seq<Node>, next: int)

  /** `newSsaSymbol`: the next symbol, or none for an aggregate type. */
  function NewSymbol(ty: Ty, next: int): Option<int> {
    if ty.AggTy? then None else Some(next)
  }

  /** The SET that gives the temporary `sym` of type `ty` the value `src`. */
  function TempSet(ty: Ty, sym: int, src: Node): Node {
    Set(ty, Reg(sym, ty), src)
  }

  /** The SETs `e` define the temporaries `lo`, `lo + 1`, ... in order, each a register of its SET's type. */
  predicate Defines(e: seq<Node>, lo: int) {
    forall k | 0 <= k < |e| :: e[k].op == SET && |e[k].kids| == 2 && e[k].kids[0] == Reg(lo + k, e[k].ty)
  }

  lemma DefinesConcat(a: seq<Node>, b: seq<Node>, lo: int)
    requires Defines(a, lo) && Defines(b, lo + |a|)
    ensures Defines(a + b, lo)
  {
    forall k | 0 <= k < |a + b|
      ensures (a + b)[k].op == SET && |(a + b)[k].kids| == 2 && (a + b)[k].kids[0] == Reg(lo + k, (a + b)[k].ty)
    {
      if k >= |a| {
        assert (a + b)[k] == b[k - |a|];
      }
    }
  }

  /**
   * Moves `oper` into a fresh temporary of type `ty` when a symbol can be
   * had: the temporary's register stands for it and its SET is emitted.
   * Without a symbol (an aggregate type) `oper` stays inline.
   */
  function Hoist(oper: Node, ty: Ty, emitted: seq<Node>, next: int): (r: Split)
    ensures Defines(emitted, next - |emitted|) ==> Defines(r.emitted, r.next - |r.emitted|)
    ensures r.next - |r.emitted| == next - |emitted|
  {
    match NewSymbol(ty, next)
    case Some(sym) => Split(Reg(sym, ty), emitted + [TempSet(ty, sym, oper)], next + 1)
    case None => Split(oper, emitted, next)
  }

  /**
   * `defUseNode`: a SET to a register whose source is that register, or an
   * operator of one or two operands one of which is that register.
   */
  predicate DefUseNode(node: Node) {
    if node.op != SET || Kid(node, 0).op != REG then false
    else if NKids(Kid(node, 1)) == 0 then Kid(node, 1) == Kid(node, 0)
    else if NKids(Kid(node, 1)) == 1 then Kid(Kid(node, 1), 0) == Kid(node, 0)
    else if NKids(Kid(node, 1)) == 2 then Kid(Kid(node, 1), 0) == Kid(node, 0) || Kid(Kid(node, 1), 1) == Kid(node, 0)
    else false
  }

  /**
   * `divide`: `setSrc` holds for the direct source of a SET (and the LIST
   * kids below it), `setDst` for its destination and for a call's result
   * list; `extend` is the option `ssa-extend-divex`.
   */
  function Divide(n: Node, setSrc: bool, setDst: bool, next: int, extend: bool): (r: Split)
    ensures r.next == next + |r.emitted| && Defines(r.emitted, next)
    ensures r.node.ty == n.ty
    decreases n, 2
  {
    if n.op == MEM then DivideMem(n, setDst, next, extend)
    else if IsUnary(n.op) then DivideUnary(n, setSrc, next, extend)
    else if IsBinary(n.op) then DivideBinary(n, setSrc, next, extend)
    else if IsCompare(n.op) then DivideCompare(n, next, extend)
    else if n.op == SET then DivideSet(n, next, extend)
    else if n.op == CALL then DivideCall(n, next, extend)
    else if n.op == JUMPC || n.op == JUMPN then
      var a := Sub(n, 0, false, false, next, extend);
      Split(WithKid(n, 0, a.node), a.emitted, a.next)
    else if n.op == LIST then
      var ks := DivideKids(n, 0, setSrc, setDst, next, extend);
      Split(n.(kids := ks.nodes), ks.emitted, ks.next)
    else if (n.op == FRAME || n.op == STATIC) && extend then
      Hoist(n, n.ty, [], next)
    else
      Split(n, [], next)
  }

  /** A load is rebuilt on its divided address and moved into a temporary unless it is a destination. */
  function DivideMem(n: Node, setDst: bool, next: int, extend: bool): (r: Split)
    ensures r.next == next + |r.emitted| && Defines(r.emitted, next)
    ensures r.node.ty == n.ty
    decreases n, 1
  {
    var a := Sub(n, 0, false, false, next, extend);
    var oper := n.(kids := [a.node]);
    if setDst then Split(oper, a.emitted, a.next) else Hoist(oper, n.ty, a.emitted, a.next)
  }

  /** A unary operator or cast is rebuilt on its divided operand and moved into a temporary unless it is a direct source. */
  function DivideUnary(n: Node, setSrc: bool, next: int, extend: bool): (r: Split)
    ensures r.next == next + |r.emitted| && Defines(r.emitted, next)
    ensures r.node.ty == n.ty
    decreases n, 1
  {
    var a := Sub(n, 0, false, false, next, extend);
    var oper := n.(kids := [a.node]);
    if setSrc then Split(oper, a.emitted, a.next) else Hoist(oper, n.ty, a.emitted, a.next)
  }

  /** A binary operator: the same with two operands, divided left to right. */
  function DivideBinary(n: Node, setSrc: bool, next: int, extend: bool): (r: Split)
    ensures r.next == next + |r.emitted| && Defines(r.emitted, next)
    ensures r.node.ty == n.ty
    decreases n, 1
  {
    var a := Sub(n, 0, false, false, next, extend);
    var b := Sub(n, 1, false, false, a.next, extend);
    DefinesConcat(a.emitted, b.emitted, next);
    var oper := n.(kids := [a.node, b.node]);
    if setSrc then Split(oper, a.emitted + b.emitted, b.next) else Hoist(oper, n.ty, a.emitted + b.emitted, b.next)
  }

  /** A comparison keeps its place; only its two operands are divided. */
  function DivideCompare(n: Node, next: int, extend: bool): (r: Split)
    ensures r.next == next + |r.emitted| && Defines(r.emitted, next)
    ensures r.node.ty == n.ty
    decreases n, 1
  {
    var a := Sub(n, 0, false, false, next, extend);
    var b := Sub(n, 1, false, false, a.next, extend);
    DefinesConcat(a.emitted, b.emitted, next);
    Split(WithKid(WithKid(n, 0, a.node), 1, b.node), a.emitted + b.emitted, b.next)
  }

  /** A call: its address and arguments are divided as operands, its result list as a destination. */
  function DivideCall(n: Node, next: int, extend: bool): (r: Split)
    ensures r.next == next + |r.emitted| && Defines(r.emitted, next)
    ensures r.node.ty == n.ty
    decreases n, 1
  {
    var a := Sub(n, 0, false, false, next, extend);
    var b := Sub(n, 1, false, false, a.next, extend);
    var c := Sub(n, 2, false, true, b.next, extend);
    DefinesConcat(a.emitted, b.emitted, next);
    DefinesConcat(a.emitted + b.emitted, c.emitted, next);
    Split(WithKid(WithKid(WithKid(n, 0, a.node), 1, b.node), 2, c.node), a.emitted + b.emitted + c.emitted, c.next)
  }

  /**
   * A SET: the source is divided as a direct source; a store whose divided
   * source is not a register gets that source moved into a temporary; then
   * the destination is divided; a SET that reads its own destination gets
   * its source moved into a temporary.
   */
  function DivideSet(n: Node, next: int, extend: bool): (r: Split)
    requires n.op == SET
    ensures r.next == next + |r.emitted| && Defines(r.emitted, next)
    ensures r.node.ty == n.ty
    decreases n, 1
  {
    var s := Sub(n, 1, true, false, next, extend);
    var st := StoreTemp(n, s);
    var d := Sub(n, 0, false, true, st.next, extend);
    DefinesConcat(st.emitted, d.emitted, next);
    DefUseTemp(WithKid(WithKid(n, 1, st.node), 0, d.node), st.emitted + d.emitted, d.next)
  }

  /** A store whose divided source `s` is not a register: the source moves into a temporary. */
  function StoreTemp(n: Node, s: Split): (r: Split)
    ensures Defines(s.emitted, s.next - |s.emitted|) ==> Defines(r.emitted, r.next - |r.emitted|)
    ensures r.next - |r.emitted| == s.next - |s.emitted|
  {
    if Kid(n, 0).op == MEM && s.node.op != REG then Hoist(s.node, s.node.ty, s.emitted, s.next) else s
  }

  /** `divDefUseNode`: a SET that reads its own destination gets its source moved into a temporary of the SET's type. */
  function DefUseTemp(r2: Node, e: seq<Node>, next: int): (r: Split)
    ensures Defines(e, next - |e|) ==> Defines(r.emitted, r.next - |r.emitted|)
    ensures r.next - |r.emitted| == next - |e| && r.node.ty == r2.ty
  {
    if DefUseNode(r2) then
      var h := Hoist(Kid(r2, 1), r2.ty, e, next);
      Split(WithKid(r2, 1, h.node), h.emitted, h.next)
    else Split(r2, e, next)
  }

  /** Divides kid `i` of `n`; a kid that does not exist gives the absent node. */
  function Sub(n: Node, i: nat, setSrc: bool, setDst: bool, next: int, extend: bool): (r: Split)
    ensures r.next == next + |r.emitted| && Defines(r.emitted, next)
    ensures i < |n.kids| ==> r.node.ty == n.kids[i].ty
    decreases n, 0
  {
    if i < |n.kids| then Divide(n.kids[i], setSrc, setDst, next, extend) else Split(Absent, [], next)
  }

  /** Divides the kids of `n` from `i` on, left to right. */
  function DivideKids(n: Node, i: nat, setSrc: bool, setDst: bool, next: int, extend: bool): (r: Splits)
    requires i <= |n.kids|
    ensures r.next == next + |r.emitted| && Defines(r.emitted, next) && |r.nodes| == |n.kids| - i
    decreases n, 1, |n.kids| - i
  {
    if i == |n.kids| then Splits([], [], next)
    else
      var a := Sub(n, i, setSrc, setDst, next, extend);
      var rest := DivideKids(n, i + 1, setSrc, setDst, a.next, extend);
      DefinesConcat(a.emitted, rest.emitted, next);
      Splits([a.node] + rest.nodes, a.emitted + rest.emitted, rest.next)
  }

  // ---------------------------------------------------------------------
  // Round trip: substituting the emitted temporaries back gives the node.

  /** `x` with every occurrence of the subtree `r` replaced by `e`. */
  function Replace(x: Node, r: Node, e: Node): Node
    decreases x
  {
    if x == r then e
    else x.(kids := seq(|x.kids|, i requires 0 <= i < |x.kids| => Replace(x.kids[i], r, e)))
  }

  /** Substitutes the emitted definitions into `x`, the last one first. */
  function Unfold(e: seq<Node>, x: Node): Node
    decreases |e|
  {
    if |e| == 0 then x
    else Unfold(e[..|e| - 1], Replace(x, Kid(e[|e| - 1], 0), Kid(e[|e| - 1], 1)))
  }

  /** Every register below `n` has a symbol below `bound`. */
  predicate SymsBelow(n: Node, bound: int)
    decreases n
  {
    (n.op == REG ==> n.sym < bound) && forall i | 0 <= i < |n.kids| :: SymsBelow(n.kids[i], bound)
  }

  /** Loads and unary operators have one operand, binary operators and SETs two, all the way down. */
  predicate Shaped(n: Node)
    decreases n
  {
    (n.op == MEM || IsUnary(n.op) ==> |n.kids| == 1)
    && (IsBinary(n.op) || n.op == SET ==> |n.kids| == 2)
    && forall i | 0 <= i < |n.kids| :: Shaped(n.kids[i])
  }

  lemma {:induction false} SymsBelowMono(n: Node, lo: int, hi: int)
    requires SymsBelow(n, lo) && lo <= hi
    ensures SymsBelow(n, hi)
    decreases n
  {
    forall i | 0 <= i < |n.kids| ensures SymsBelow(n.kids[i], hi) {
      SymsBelowMono(n.kids[i], lo, hi);
    }
  }

  lemma {:induction false} ReplaceUntouched(x: Node, s: int, ty: Ty, e: Node, lo: int)
    requires SymsBelow(x, lo) && lo <= s
    ensures Replace(x, Reg(s, ty), e) == x
    decreases x
  {
    if x != Reg(s, ty) {
      forall i | 0 <= i < |x.kids| ensures Replace(x.kids[i], Reg(s, ty), e) == x.kids[i] {
        ReplaceUntouched(x.kids[i], s, ty, e, lo);
      }
      assert seq(|x.kids|, i requires 0 <= i < |x.kids| => Replace(x.kids[i], Reg(s, ty), e)) == x.kids;
    }
  }

  /** Temporaries from `lo` on do not occur in a node whose registers are all below `lo`. */
  lemma {:induction false} UnfoldUntouched(e: seq<Node>, x: Node, lo: int)
    requires Defines(e, lo) && SymsBelow(x, lo)
    ensures Unfold(e, x) == x
    decreases |e|
  {
    if |e| > 0 {
      var last := e[|e| - 1];
      ReplaceUntouched(x, lo + |e| - 1, last.ty, Kid(last, 1), lo);
      UnfoldUntouched(e[..|e| - 1], x, lo);
    }
  }

  lemma {:induction false} UnfoldConcat(a: seq<Node>, b: seq<Node>, x: Node)
    ensures Unfold(a + b, x) == Unfold(a, Unfold(b, x))
    decreases |b|
  {
    if |b| > 0 {
      var last := b[|b| - 1];
      assert (a + b)[..|a + b| - 1] == a + b[..|b| - 1];
      assert (a + b)[|a + b| - 1] == last;
      UnfoldConcat(a, b[..|b| - 1], Replace(x, Kid(last, 0), Kid(last, 1)));
    } else {
      assert a + b == a;
    }
  }

  /** The unfolding of each of `ks`. */
  function UnfoldKids(e: seq<Node>, ks: seq<Node>): (r: seq<Node>)
    ensures |r| == |ks| && forall i | 0 <= i < |ks| :: r[i] == Unfold(e, ks[i])
  {
    seq(|ks|, i requires 0 <= i < |ks| => Unfold(e, ks[i]))
  }

  /** Unfolding goes through every node that is not a register. */
  lemma {:induction false} UnfoldNode(e: seq<Node>, n: Node, lo: int)
    requires Defines(e, lo) && n.op != REG
    ensures Unfold(e, n) == n.(kids := UnfoldKids(e, n.kids))
    decreases |e|
  {
    if |e| > 0 {
      var last := e[|e| - 1];
      var r, src := Kid(last, 0), Kid(last, 1);
      var e' := e[..|e| - 1];
      assert r.op == REG;
      var ks := seq(|n.kids|, i requires 0 <= i < |n.kids| => Replace(n.kids[i], r, src));
      assert Replace(n, r, src) == n.(kids := ks);
      UnfoldNode(e', n.(kids := ks), lo);
      assert UnfoldKids(e', ks) == UnfoldKids(e, n.kids);
    }
  }

  /** A node rebuilt on kids that each unfold to the original kid unfolds to the original node. */
  lemma Rekid(e: seq<Node>, n: Node, ks: seq<Node>, lo: int)
    requires Defines(e, lo) && n.op != REG && |ks| == |n.kids|
    requires forall j | 0 <= j < |ks| :: Unfold(e, ks[j]) == n.kids[j]
    ensures Unfold(e, n.(kids := ks)) == n
  {
    UnfoldNode(e, n.(kids := ks), lo);
    assert UnfoldKids(e, ks) == n.kids;
  }

  /** Later temporaries leave a node built before them alone. */
  lemma Prefix(a: seq<Node>, b: seq<Node>, x: Node, lo: int)
    requires Defines(a + b, lo) && SymsBelow(x, lo + |a|)
    ensures Unfold(a + b, x) == Unfold(a, x)
  {
    assert Defines(b, lo + |a|) by {
      forall k | 0 <= k < |b| ensures b[k] == (a + b)[|a| + k] { }
    }
    UnfoldConcat(a, b, x);
    UnfoldUntouched(b, x, lo + |a|);
  }

  /** Earlier temporaries leave alone what the later ones unfold to, when that is older than both. */
  lemma Suffix(a: seq<Node>, b: seq<Node>, x: Node, lo: int)
    requires Defines(a + b, lo) && SymsBelow(Unfold(b, x), lo)
    ensures Unfold(a + b, x) == Unfold(b, x)
  {
    assert Defines(a, lo) by {
      forall k | 0 <= k < |a| ensures a[k] == (a + b)[k] { }
    }
    UnfoldConcat(a, b, x);
    UnfoldUntouched(a, Unfold(b, x), lo);
  }

  lemma HoistUnfolds(oper: Node, ty: Ty, e: seq<Node>, next: int)
    requires Defines(e, next - |e|) && SymsBelow(oper, next)
    ensures var h := Hoist(oper, ty, e, next);
      Unfold(h.emitted, h.node) == Unfold(e, oper) && SymsBelow(h.node, h.next)
      && h.next >= next && h.emitted[..|e|] == e
  {
    var h := Hoist(oper, ty, e, next);
    if h.emitted != e {
      assert h.emitted[..|h.emitted| - 1] == e;
    }
  }

  lemma UnfoldWithKid(e: seq<Node>, m: Node, i: nat, k: Node, lo: int)
    requires Defines(e, lo) && m.op != REG
    ensures Unfold(e, WithKid(m, i, k)) == WithKid(Unfold(e, m), i, Unfold(e, k))
  {
    UnfoldNode(e, m, lo);
    UnfoldNode(e, WithKid(m, i, k), lo);
    if i < |m.kids| {
      assert UnfoldKids(e, m.kids[i := k]) == UnfoldKids(e, m.kids)[i := Unfold(e, k)];
    }
  }

  lemma WithOwnKid(n: Node, i: nat, k: Node)
    requires i < |n.kids| ==> k == n.kids[i]
    ensures WithKid(n, i, k) == n
  {
    if i < |n.kids| {
      assert n.kids[i := k] == n.kids;
    }
  }

  lemma SymsBelowWithKid(m: Node, i: nat, k: Node, bound: int)
    requires SymsBelow(m, bound) && SymsBelow(k, bound)
    ensures SymsBelow(WithKid(m, i, k), bound)
  {
  }

  /** Dividing the first two kids in turn: each divided kid unfolds back to its original. */
  lemma {:induction false} SubPair(n: Node, s0: bool, d0: bool, s1: bool, d1: bool, next: int, extend: bool)
    requires Shaped(n) && SymsBelow(n, next)
    ensures var a := Sub(n, 0, s0, d0, next, extend);
      var b := Sub(n, 1, s1, d1, a.next, extend);
      (0 < |n.kids| ==> Unfold(a.emitted + b.emitted, a.node) == n.kids[0])
      && (1 < |n.kids| ==> Unfold(a.emitted + b.emitted, b.node) == n.kids[1])
      && SymsBelow(a.node, b.next) && SymsBelow(b.node, b.next)
      && Defines(a.emitted + b.emitted, next) && b.next == next + |a.emitted + b.emitted|
    decreases n, 1
  {
    var a := Sub(n, 0, s0, d0, next, extend);
    var b := Sub(n, 1, s1, d1, a.next, extend);
    SubRoundTrip(n, 0, s0, d0, next, extend);
    SymsBelowMono(n, next, a.next);
    SubRoundTrip(n, 1, s1, d1, a.next, extend);
    DefinesConcat(a.emitted, b.emitted, next);
    Prefix(a.emitted, b.emitted, a.node, next);
    if 1 < |n.kids| {
      Suffix(a.emitted, b.emitted, b.node, next);
    }
    SymsBelowMono(a.node, a.next, b.next);
  }

  /** Dividing kid `i`, when it exists, can be undone. */
  lemma {:induction false} SubRoundTrip(n: Node, i: nat, setSrc: bool, setDst: bool, next: int, extend: bool)
    requires Shaped(n) && SymsBelow(n, next)
    ensures var r := Sub(n, i, setSrc, setDst, next, extend);
      (i < |n.kids| ==> Unfold(r.emitted, r.node) == n.kids[i]) && SymsBelow(r.node, r.next)
    decreases n, 0
  {
    if i < |n.kids| {
      DivideRoundTrip(n.kids[i], setSrc, setDst, next, extend);
    }
  }

  /** The divided kids `r.nodes` unfold to the kids of `n` from `i` on. */
  predicate KidsBack(r: Splits, n: Node, i: nat) {
    forall j | 0 <= j < |r.nodes| :: i + j < |n.kids| && Unfold(r.emitted, r.nodes[j]) == n.kids[i + j] && SymsBelow(r.nodes[j], r.next)
  }

  lemma {:induction false} KidsRoundTrip(n: Node, i: nat, setSrc: bool, setDst: bool, next: int, extend: bool)
    requires i <= |n.kids| && Shaped(n) && SymsBelow(n, next)
    ensures KidsBack(DivideKids(n, i, setSrc, setDst, next, extend), n, i)
    decreases n, 1, |n.kids| - i
  {
    if i < |n.kids| {
      var a := Sub(n, i, setSrc, setDst, next, extend);
      var rest := DivideKids(n, i + 1, setSrc, setDst, a.next, extend);
      SubRoundTrip(n, i, setSrc, setDst, next, extend);
      SymsBelowMono(n, next, a.next);
      KidsRoundTrip(n, i + 1, setSrc, setDst, a.next, extend);
      KidsCons(n, i, a, rest, next);
    }
  }

  /** Kid `i` divided as `a` in front of the later kids divided as `rest`: all of them unfold back. */
  lemma KidsCons(n: Node, i: nat, a: Split, rest: Splits, next: int)
    requires i < |n.kids| && SymsBelow(n, next)
    requires a.next == next + |a.emitted| && Defines(a.emitted, next)
    requires rest.next == a.next + |rest.emitted| && Defines(rest.emitted, a.next)
    requires Unfold(a.emitted, a.node) == n.kids[i] && SymsBelow(a.node, a.next)
    requires KidsBack(rest, n, i + 1)
    ensures KidsBack(Splits([a.node] + rest.nodes, a.emitted + rest.emitted, rest.next), n, i)
  {
    var r := Splits([a.node] + rest.nodes, a.emitted + rest.emitted, rest.next);
    DefinesConcat(a.emitted, rest.emitted, next);
    forall j | 0 <= j < |r.nodes|
      ensures i + j < |n.kids| && Unfold(r.emitted, r.nodes[j]) == n.kids[i + j] && SymsBelow(r.nodes[j], r.next)
    {
      if j == 0 {
        Prefix(a.emitted, rest.emitted, a.node, next);
        SymsBelowMono(a.node, a.next, rest.next);
      } else {
        var x := rest.nodes[j - 1];
        assert Unfold(rest.emitted, x) == n.kids[i + 1 + (j - 1)] && SymsBelow(x, rest.next);
        assert SymsBelow(n.kids[i + j], next);
        Suffix(a.emitted, rest.emitted, x, next);
      }
    }
  }

  lemma {:induction false} MemRoundTrip(n: Node, setDst: bool, next: int, extend: bool)
    requires n.op == MEM && Shaped(n) && SymsBelow(n, next)
    ensures var r := DivideMem(n, setDst, next, extend);
      Unfold(r.emitted, r.node) == n && SymsBelow(r.node, r.next)
    decreases n, 2
  {
    var a := Sub(n, 0, false, false, next, extend);
    SubRoundTrip(n, 0, false, false, next, extend);
    var oper := n.(kids := [a.node]);
    Rekid(a.emitted, n, [a.node], next);
    assert SymsBelow(oper, a.next);
    HoistUnfolds(oper, n.ty, a.emitted, a.next);
  }

  lemma {:induction false} UnaryRoundTrip(n: Node, setSrc: bool, next: int, extend: bool)
    requires IsUnary(n.op) && Shaped(n) && SymsBelow(n, next)
    ensures var r := DivideUnary(n, setSrc, next, extend);
      Unfold(r.emitted, r.node) == n && SymsBelow(r.node, r.next)
    decreases n, 2
  {
    var a := Sub(n, 0, false, false, next, extend);
    SubRoundTrip(n, 0, false, false, next, extend);
    var oper := n.(kids := [a.node]);
    Rekid(a.emitted, n, [a.node], next);
    assert SymsBelow(oper, a.next);
    HoistUnfolds(oper, n.ty, a.emitted, a.next);
  }

  lemma {:induction false} BinaryRoundTrip(n: Node, setSrc: bool, next: int, extend: bool)
    requires IsBinary(n.op) && Shaped(n) && SymsBelow(n, next)
    ensures var r := DivideBinary(n, setSrc, next, extend);
      Unfold(r.emitted, r.node) == n && SymsBelow(r.node, r.next)
    decreases n, 2
  {
    var a := Sub(n, 0, false, false, next, extend);
    var b := Sub(n, 1, false, false, a.next, extend);
    SubPair(n, false, false, false, false, next, extend);
    var oper := n.(kids := [a.node, b.node]);
    Rekid(a.emitted + b.emitted, n, [a.node, b.node], next);
    assert SymsBelow(oper, b.next);
    HoistUnfolds(oper, n.ty, a.emitted + b.emitted, b.next);
  }

  lemma {:induction false} CompareRoundTrip(n: Node, next: int, extend: bool)
    requires IsCompare(n.op) && Shaped(n) && SymsBelow(n, next)
    ensures var r := DivideCompare(n, next, extend);
      Unfold(r.emitted, r.node) == n && SymsBelow(r.node, r.next)
    decreases n, 2
  {
    var a := Sub(n, 0, false, false, next, extend);
    var b := Sub(n, 1, false, false, a.next, extend);
    SubPair(n, false, false, false, false, next, extend);
    TwoKids(a.emitted + b.emitted, n, 0, a.node, 1, b.node, next, b.next);
  }

  lemma {:induction false} CallRoundTrip(n: Node, next: int, extend: bool)
    requires n.op == CALL && Shaped(n) && SymsBelow(n, next)
    ensures var r := DivideCall(n, next, extend);
      Unfold(r.emitted, r.node) == n && SymsBelow(r.node, r.next)
    decreases n, 2
  {
    var a := Sub(n, 0, false, false, next, extend);
    var b := Sub(n, 1, false, false, a.next, extend);
    var c := Sub(n, 2, false, true, b.next, extend);
    SubPair(n, false, false, false, false, next, extend);
    SymsBelowMono(n, next, b.next);
    SubRoundTrip(n, 2, false, true, b.next, extend);
    ThreeKids(n, a.node, b.node, c.node, a.emitted + b.emitted, c.emitted, next, b.next, c.next);
  }

  lemma {:induction false} SetRoundTrip(n: Node, next: int, extend: bool)
    requires n.op == SET && Shaped(n) && SymsBelow(n, next)
    ensures var r := DivideSet(n, next, extend);
      Unfold(r.emitted, r.node) == n && SymsBelow(r.node, r.next)
    decreases n, 2
  {
    var s := Sub(n, 1, true, false, next, extend);
    SubRoundTrip(n, 1, true, false, next, extend);
    var st := StoreTemp(n, s);
    HoistUnfolds(s.node, s.node.ty, s.emitted, s.next);
    assert Unfold(st.emitted, st.node) == n.kids[1] && SymsBelow(st.node, st.next);
    SymsBelowMono(n, next, st.next);
    var d := Sub(n, 0, false, true, st.next, extend);
    SubRoundTrip(n, 0, false, true, st.next, extend);
    SetKids(n, st, d, next);
  }

  /** The SET rebuilt on its divided destination `d` and source `st` unfolds back, also after `divDefUseNode`. */
  lemma SetKids(n: Node, st: Split, d: Split, next: int)
    requires n.op == SET && |n.kids| == 2 && SymsBelow(n, next)
    requires st.next == next + |st.emitted| && Defines(st.emitted, next)
    requires d.next == st.next + |d.emitted| && Defines(d.emitted, st.next)
    requires Unfold(st.emitted, st.node) == n.kids[1] && SymsBelow(st.node, st.next)
    requires Unfold(d.emitted, d.node) == n.kids[0] && SymsBelow(d.node, d.next)
    ensures var r := DefUseTemp(WithKid(WithKid(n, 1, st.node), 0, d.node), st.emitted + d.emitted, d.next);
      Unfold(r.emitted, r.node) == n && SymsBelow(r.node, r.next)
  {
    SetRebuilt(n, st, d, next);
    DefUseTempUnfolds(WithKid(WithKid(n, 1, st.node), 0, d.node), st.emitted + d.emitted, d.next, next);
  }

  /** The SET rebuilt on its divided destination `d` and source `st` unfolds back. */
  lemma SetRebuilt(n: Node, st: Split, d: Split, next: int)
    requires n.op == SET && |n.kids| == 2 && SymsBelow(n, next)
    requires st.next == next + |st.emitted| && Defines(st.emitted, next)
    requires d.next == st.next + |d.emitted| && Defines(d.emitted, st.next)
    requires Unfold(st.emitted, st.node) == n.kids[1] && SymsBelow(st.node, st.next)
    requires Unfold(d.emitted, d.node) == n.kids[0] && SymsBelow(d.node, d.next)
    ensures var r2 := WithKid(WithKid(n, 1, st.node), 0, d.node);
      Unfold(st.emitted + d.emitted, r2) == n && SymsBelow(r2, d.next) && r2.op == SET
      && Defines(st.emitted + d.emitted, next) && d.next == next + |st.emitted + d.emitted|
  {
    var e := st.emitted + d.emitted;
    DefinesConcat(st.emitted, d.emitted, next);
    Prefix(st.emitted, d.emitted, st.node, next);
    Suffix(st.emitted, d.emitted, d.node, next);
    SymsBelowMono(st.node, st.next, d.next);
    SymsBelowMono(n, next, d.next);
    TwoKids(e, n, 1, st.node, 0, d.node, next, d.next);
  }

  lemma DefUseTempUnfolds(r2: Node, e: seq<Node>, next: int, lo: int)
    requires Defines(e, lo) && next == lo + |e| && r2.op == SET && SymsBelow(r2, next)
    ensures var r := DefUseTemp(r2, e, next);
      Unfold(r.emitted, r.node) == Unfold(e, r2) && SymsBelow(r.node, r.next)
  {
    if DefUseNode(r2) {
      var h := Hoist(Kid(r2, 1), r2.ty, e, next);
      assert SymsBelow(Kid(r2, 1), next);
      HoistUnfolds(Kid(r2, 1), r2.ty, e, next);
      assert h.emitted == e + h.emitted[|e|..];
      Prefix(e, h.emitted[|e|..], r2, lo);
      UnfoldWithKid(h.emitted, r2, 1, h.node, lo);
      UnfoldNode(e, r2, lo);
      WithOwnKid(Unfold(e, r2), 1, Unfold(e, Kid(r2, 1)));
      SymsBelowMono(r2, next, h.next);
    }
  }

  /** A node with kids `i` and `j` replaced by nodes that unfold to the originals unfolds to the node. */
  lemma TwoKids(e: seq<Node>, n: Node, i: nat, x: Node, j: nat, y: Node, lo: int, hi: int)
    requires Defines(e, lo) && n.op != REG && SymsBelow(n, lo) && lo <= hi
    requires i < |n.kids| ==> Unfold(e, x) == n.kids[i]
    requires j < |n.kids| ==> Unfold(e, y) == n.kids[j]
    requires SymsBelow(x, hi) && SymsBelow(y, hi)
    ensures Unfold(e, WithKid(WithKid(n, i, x), j, y)) == n
    ensures SymsBelow(WithKid(WithKid(n, i, x), j, y), hi)
  {
    UnfoldWithKid(e, WithKid(n, i, x), j, y, lo);
    UnfoldWithKid(e, n, i, x, lo);
    UnfoldUntouched(e, n, lo);
    WithOwnKid(n, i, Unfold(e, x));
    if j < |n.kids| && i != j {
      assert Unfold(e, y) == WithKid(n, i, Unfold(e, x)).kids[j];
    }
    WithOwnKid(n, j, Unfold(e, y));
    SymsBelowMono(n, lo, hi);
  }

  /** The same for a call's three kids, divided as `e1` and then `e2`. */
  lemma ThreeKids(n: Node, x: Node, y: Node, z: Node, e1: seq<Node>, e2: seq<Node>, lo: int, mid: int, hi: int)
    requires n.op == CALL && SymsBelow(n, lo) && mid == lo + |e1| && hi == mid + |e2|
    requires Defines(e1, lo) && Defines(e2, mid)
    requires 0 < |n.kids| ==> Unfold(e1, x) == n.kids[0]
    requires 1 < |n.kids| ==> Unfold(e1, y) == n.kids[1]
    requires 2 < |n.kids| ==> Unfold(e2, z) == n.kids[2]
    requires SymsBelow(x, mid) && SymsBelow(y, mid) && SymsBelow(z, hi)
    ensures Unfold(e1 + e2, WithKid(WithKid(WithKid(n, 0, x), 1, y), 2, z)) == n
    ensures SymsBelow(WithKid(WithKid(WithKid(n, 0, x), 1, y), 2, z), hi)
  {
    var e := e1 + e2;
    DefinesConcat(e1, e2, lo);
    Prefix(e1, e2, x, lo);
    Prefix(e1, e2, y, lo);
    if 2 < |n.kids| {
      assert SymsBelow(n.kids[2], lo);
      Suffix(e1, e2, z, lo);
    }
    SymsBelowMono(x, mid, hi);
    SymsBelowMono(y, mid, hi);
    TwoKids(e, n, 0, x, 1, y, lo, hi);
    var m := WithKid(WithKid(n, 0, x), 1, y);
    UnfoldWithKid(e, m, 2, z, lo);
    WithOwnKid(n, 2, Unfold(e, z));
    SymsBelowWithKid(m, 2, z, hi);
  }

  lemma {:induction false} JumpRoundTrip(n: Node, next: int, extend: bool)
    requires (n.op == JUMPC || n.op == JUMPN) && Shaped(n) && SymsBelow(n, next)
    ensures var a := Sub(n, 0, false, false, next, extend);
      Unfold(a.emitted, WithKid(n, 0, a.node)) == n && SymsBelow(WithKid(n, 0, a.node), a.next)
    decreases n, 2
  {
    var a := Sub(n, 0, false, false, next, extend);
    SubRoundTrip(n, 0, false, false, next, extend);
    UnfoldWithKid(a.emitted, n, 0, a.node, next);
    UnfoldUntouched(a.emitted, n, next);
    WithOwnKid(n, 0, Unfold(a.emitted, a.node));
    SymsBelowMono(n, next, a.next);
  }

  lemma {:induction false} ListRoundTrip(n: Node, setSrc: bool, setDst: bool, next: int, extend: bool)
    requires n.op == LIST && Shaped(n) && SymsBelow(n, next)
    ensures var ks := DivideKids(n, 0, setSrc, setDst, next, extend);
      Unfold(ks.emitted, n.(kids := ks.nodes)) == n && SymsBelow(n.(kids := ks.nodes), ks.next)
    decreases n, 2
  {
    var ks := DivideKids(n, 0, setSrc, setDst, next, extend);
    KidsRoundTrip(n, 0, setSrc, setDst, next, extend);
    forall j | 0 <= j < |ks.nodes| ensures Unfold(ks.emitted, ks.nodes[j]) == n.kids[j] {
      assert KidsBack(ks, n, 0);
      assert Unfold(ks.emitted, ks.nodes[j]) == n.kids[0 + j];
    }
    Rekid(ks.emitted, n, ks.nodes, next);
    forall j | 0 <= j < |ks.nodes| ensures SymsBelow(ks.nodes[j], ks.next) {
      assert KidsBack(ks, n, 0);
    }
  }

  /**
   * Round trip: for a well-shaped node whose registers all precede the
   * fresh symbols, substituting the emitted temporaries back, last first,
   * gives the original node.
   */
  lemma {:induction false} DivideRoundTrip(n: Node, setSrc: bool, setDst: bool, next: int, extend: bool)
    requires Shaped(n) && SymsBelow(n, next)
    ensures var r := Divide(n, setSrc, setDst, next, extend);
      Unfold(r.emitted, r.node) == n && SymsBelow(r.node, r.next)
    decreases n, 3
  {
    if n.op == MEM { MemRoundTrip(n, setDst, next, extend); }
    else if IsUnary(n.op) { UnaryRoundTrip(n, setSrc, next, extend); }
    else if IsBinary(n.op) { BinaryRoundTrip(n, setSrc, next, extend); }
    else if IsCompare(n.op) { CompareRoundTrip(n, next, extend); }
    else if n.op == SET { SetRoundTrip(n, next, extend); }
    else if n.op == CALL { CallRoundTrip(n, next, extend); }
    else if n.op == JUMPC || n.op == JUMPN { JumpRoundTrip(n, next, extend); }
    else if n.op == LIST { ListRoundTrip(n, setSrc, setDst, next, extend); }
    else if (n.op == FRAME || n.op == STATIC) && extend {
      HoistUnfolds(n, n.ty, [], next);
    }
  }

  // ---------------------------------------------------------------------
  // Three-address form.

  /** Operators whose operands must be simple in three-address form: loads, unary operators and casts, binary operators. */
  predicate IsArith(op: Op) { IsUnary(op) || IsBinary(op) || op == MEM }

  /** Three-address form: no load or operator has a load or operator as an operand, all the way down. */
  predicate Flat(x: Node)
    decreases x
  {
    (IsArith(x.op) ==> forall i | 0 <= i < |x.kids| :: !IsArith(x.kids[i].op))
    && forall i | 0 <= i < |x.kids| :: Flat(x.kids[i])
  }

  predicate AllFlat(e: seq<Node>) { forall k | 0 <= k < |e| :: Flat(e[k]) }

  /** Nodes that division returns as they are (unless `ssa-extend-divex` moves a FRAME or STATIC). */
  predicate Copied(op: Op) {
    !(IsArith(op) || IsCompare(op) || op == SET || op == CALL || op == JUMPC || op == JUMPN || op == LIST)
  }

  /**
   * What division needs to reach three-address form: no aggregate types
   * (for which no temporary can be had), comparisons and SETs with two
   * kids, calls with three, jumps whose kids after the condition are
   * already flat, and copied nodes already flat.
   */
  predicate Divisible(n: Node)
    decreases n
  {
    !n.ty.AggTy?
    && (IsCompare(n.op) || n.op == SET ==> |n.kids| == 2)
    && (n.op == CALL ==> |n.kids| == 3)
    && (n.op == JUMPC || n.op == JUMPN ==> forall i | 1 <= i < |n.kids| :: Flat(n.kids[i]))
    && (Copied(n.op) ==> Flat(n))
    && forall i | 0 <= i < |n.kids| :: Divisible(n.kids[i])
  }

  lemma HoistFlat(oper: Node, ty: Ty, e: seq<Node>, next: int)
    requires Flat(oper) && AllFlat(e)
    ensures var h := Hoist(oper, ty, e, next);
      Flat(h.node) && AllFlat(h.emitted) && (!ty.AggTy? ==> h.node.op == REG)
  {
    if !ty.AggTy? {
      assert Flat(Reg(next, ty));
      assert Flat(TempSet(ty, next, oper));
    }
  }

  lemma {:induction false} SubFlat(n: Node, i: nat, setSrc: bool, setDst: bool, next: int, extend: bool)
    requires Divisible(n)
    ensures var r := Sub(n, i, setSrc, setDst, next, extend);
      Flat(r.node) && AllFlat(r.emitted) && (IsArith(r.node.op) ==> setSrc || setDst)
    decreases n, 0
  {
    if i < |n.kids| {
      ThreeAddress(n.kids[i], setSrc, setDst, next, extend);
    }
  }

  lemma {:induction false} KidsFlat(n: Node, i: nat, setSrc: bool, setDst: bool, next: int, extend: bool)
    requires i <= |n.kids| && Divisible(n)
    ensures AllFlat(DivideKids(n, i, setSrc, setDst, next, extend).nodes)
    ensures AllFlat(DivideKids(n, i, setSrc, setDst, next, extend).emitted)
    decreases n, 1, |n.kids| - i
  {
    if i < |n.kids| {
      var a := Sub(n, i, setSrc, setDst, next, extend);
      var rest := DivideKids(n, i + 1, setSrc, setDst, a.next, extend);
      var r := DivideKids(n, i, setSrc, setDst, next, extend);
      assert r.nodes == [a.node] + rest.nodes && r.emitted == a.emitted + rest.emitted;
      SubFlat(n, i, setSrc, setDst, next, extend);
      KidsFlat(n, i + 1, setSrc, setDst, a.next, extend);
      assert AllFlat([a.node]);
    }
  }

  lemma {:induction false} MemFlat(n: Node, setDst: bool, next: int, extend: bool)
    requires n.op == MEM && Divisible(n)
    ensures var r := DivideMem(n, setDst, next, extend);
      Flat(r.node) && AllFlat(r.emitted) && (IsArith(r.node.op) ==> setDst)
    decreases n, 2
  {
    var a := Sub(n, 0, false, false, next, extend);
    SubFlat(n, 0, false, false, next, extend);
    var oper := n.(kids := [a.node]);
    assert Flat(oper);
    HoistFlat(oper, n.ty, a.emitted, a.next);
  }

  lemma {:induction false} UnaryFlat(n: Node, setSrc: bool, next: int, extend: bool)
    requires IsUnary(n.op) && Divisible(n)
    ensures var r := DivideUnary(n, setSrc, next, extend);
      Flat(r.node) && AllFlat(r.emitted) && (IsArith(r.node.op) ==> setSrc)
    decreases n, 2
  {
    var a := Sub(n, 0, false, false, next, extend);
    SubFlat(n, 0, false, false, next, extend);
    var oper := n.(kids := [a.node]);
    assert Flat(oper);
    HoistFlat(oper, n.ty, a.emitted, a.next);
  }

  lemma {:induction false} BinaryFlat(n: Node, setSrc: bool, next: int, extend: bool)
    requires IsBinary(n.op) && Divisible(n)
    ensures var r := DivideBinary(n, setSrc, next, extend);
      Flat(r.node) && AllFlat(r.emitted) && (IsArith(r.node.op) ==> setSrc)
    decreases n, 2
  {
    var a := Sub(n, 0, false, false, next, extend);
    var b := Sub(n, 1, false, false, a.next, extend);
    SubFlat(n, 0, false, false, next, extend);
    SubFlat(n, 1, false, false, a.next, extend);
    var oper := n.(kids := [a.node, b.node]);
    assert Flat(oper);
    HoistFlat(oper, n.ty, a.emitted + b.emitted, b.next);
  }

  lemma {:induction false} SetFlat(n: Node, next: int, extend: bool)
    requires n.op == SET && Divisible(n)
    ensures var r := DivideSet(n, next, extend);
      Flat(r.node) && AllFlat(r.emitted)
    decreases n, 2
  {
    var s := Sub(n, 1, true, false, next, extend);
    SubFlat(n, 1, true, false, next, extend);
    HoistFlat(s.node, s.node.ty, s.emitted, s.next);
    var st := StoreTemp(n, s);
    var d := Sub(n, 0, false, true, st.next, extend);
    SubFlat(n, 0, false, true, st.next, extend);
    SetKidsFlat(n, st, d);
  }

  /** The SET rebuilt on a flat destination and source is flat, also after `divDefUseNode`. */
  lemma SetKidsFlat(n: Node, st: Split, d: Split)
    requires n.op == SET && |n.kids| == 2
    requires Flat(st.node) && AllFlat(st.emitted) && Flat(d.node) && AllFlat(d.emitted)
    ensures var r := DefUseTemp(WithKid(WithKid(n, 1, st.node), 0, d.node), st.emitted + d.emitted, d.next);
      Flat(r.node) && AllFlat(r.emitted)
  {
    var r2 := WithKid(WithKid(n, 1, st.node), 0, d.node);
    assert r2 == n.(kids := [d.node, st.node]);
    assert Flat(r2);
    AllFlatConcat(st.emitted, d.emitted);
    if DefUseNode(r2) {
      HoistFlat(Kid(r2, 1), r2.ty, st.emitted + d.emitted, d.next);
      var h := Hoist(Kid(r2, 1), r2.ty, st.emitted + d.emitted, d.next);
      assert WithKid(r2, 1, h.node) == n.(kids := [d.node, h.node]);
    }
  }

  lemma {:induction false} CallFlat(n: Node, next: int, extend: bool)
    requires n.op == CALL && Divisible(n)
    ensures var r := DivideCall(n, next, extend);
      Flat(r.node) && AllFlat(r.emitted)
    decreases n, 2
  {
    var a := Sub(n, 0, false, false, next, extend);
    var b := Sub(n, 1, false, false, a.next, extend);
    var c := Sub(n, 2, false, true, b.next, extend);
    SubFlat(n, 0, false, false, next, extend);
    SubFlat(n, 1, false, false, a.next, extend);
    SubFlat(n, 2, false, true, b.next, extend);
    CallKidsFlat(n, a.node, b.node, c.node);
    AllFlatConcat(a.emitted, b.emitted);
    AllFlatConcat(a.emitted + b.emitted, c.emitted);
  }

  /** A call rebuilt on three flat kids is flat. */
  lemma CallKidsFlat(n: Node, x: Node, y: Node, z: Node)
    requires n.op == CALL && |n.kids| == 3 && Flat(x) && Flat(y) && Flat(z)
    ensures Flat(WithKid(WithKid(WithKid(n, 0, x), 1, y), 2, z))
  {
    assert WithKid(WithKid(WithKid(n, 0, x), 1, y), 2, z) == n.(kids := [x, y, z]);
  }

  lemma AllFlatConcat(a: seq<Node>, b: seq<Node>)
    requires AllFlat(a) && AllFlat(b)
    ensures AllFlat(a + b)
  {
    forall k | 0 <= k < |a + b| ensures Flat((a + b)[k]) {
      if k >= |a| {
        assert (a + b)[k] == b[k - |a|];
      }
    }
  }

  lemma {:induction false} CompareFlat(n: Node, next: int, extend: bool)
    requires IsCompare(n.op) && Divisible(n)
    ensures var r := DivideCompare(n, next, extend);
      Flat(r.node) && AllFlat(r.emitted)
    decreases n, 2
  {
    var a := Sub(n, 0, false, false, next, extend);
    var b := Sub(n, 1, false, false, a.next, extend);
    SubFlat(n, 0, false, false, next, extend);
    SubFlat(n, 1, false, false, a.next, extend);
    assert WithKid(WithKid(n, 0, a.node), 1, b.node) == n.(kids := [a.node, b.node]);
  }

  /**
   * Division reaches three-address form: the divided instruction and every
   * SET inserted before it are flat, and what is left of a load or an
   * operator at the top is a destination load or a direct source.
   */
  lemma {:induction false} ThreeAddress(n: Node, setSrc: bool, setDst: bool, next: int, extend: bool)
    requires Divisible(n)
    ensures var r := Divide(n, setSrc, setDst, next, extend);
      Flat(r.node) && AllFlat(r.emitted) && (IsArith(r.node.op) ==> setSrc || setDst)
    decreases n, 3
  {
    if n.op == MEM { MemFlat(n, setDst, next, extend); }
    else if IsUnary(n.op) { UnaryFlat(n, setSrc, next, extend); }
    else if IsBinary(n.op) { BinaryFlat(n, setSrc, next, extend); }
    else if IsCompare(n.op) { CompareFlat(n, next, extend); }
    else if n.op == SET { SetFlat(n, next, extend); }
    else if n.op == CALL { CallFlat(n, next, extend); }
    else if n.op == JUMPC || n.op == JUMPN {
      SubFlat(n, 0, false, false, next, extend);
    } else if n.op == LIST {
      KidsFlat(n, 0, setSrc, setDst, next, extend);
    } else if (n.op == FRAME || n.op == STATIC) && extend {
      HoistFlat(n, n.ty, [], next);
    }
  }

  // ---------------------------------------------------------------------
  // What happens to each kind of node.

  /**
   * `r` moved an `op` node of type `ty` into the newest temporary: the
   * result is that temporary's register and the last SET inserted defines
   * it as an `op` node.
   */
  predicate Hoisted(r: Split, op: Op, ty: Ty) {
    |r.emitted| > 0 && r.node == Reg(r.next - 1, ty)
    && var last := r.emitted[|r.emitted| - 1];
    last == TempSet(ty, r.next - 1, Kid(last, 1)) && Kid(last, 1).op == op && Kid(last, 1).ty == ty
  }

  /**
   * A unary, cast or binary operator is moved into a fresh temporary unless
   * it is the direct source of a SET or its type is an aggregate; then it
   * stays, rebuilt on its divided operands.
   */
  lemma OperatorHoisted(n: Node, setSrc: bool, setDst: bool, next: int, extend: bool)
    requires IsUnary(n.op) || IsBinary(n.op)
    ensures var r := Divide(n, setSrc, setDst, next, extend);
      if setSrc || n.ty.AggTy? then
        r.node.op == n.op && r.node.ty == n.ty && |r.node.kids| == (if IsUnary(n.op) then 1 else 2)
      else Hoisted(r, n.op, n.ty)
  {
  }

  /** A load is moved into a fresh temporary unless it is a destination or of aggregate type; a destination load stays a load. */
  lemma LoadHoisted(n: Node, setSrc: bool, setDst: bool, next: int, extend: bool)
    requires n.op == MEM
    ensures var r := Divide(n, setSrc, setDst, next, extend);
      if setDst || n.ty.AggTy? then r.node.op == MEM && r.node.ty == n.ty && |r.node.kids| == 1
      else Hoisted(r, MEM, n.ty)
  {
  }

  /**
   * A store whose divided source is not a register gets that source moved
   * into a fresh temporary, so a divided store always stores a register
   * (when the source type allows a temporary), and it still stores to memory.
   */
  lemma StoreOfRegister(n: Node, next: int, extend: bool)
    requires n.op == SET && |n.kids| == 2 && n.kids[0].op == MEM && !n.kids[1].ty.AggTy?
    ensures var r := Divide(n, false, false, next, extend);
      Kid(r.node, 1).op == REG && Kid(r.node, 0).op == MEM
  {
    var s := Sub(n, 1, true, false, next, extend);
    var st := StoreTemp(n, s);
    var d := Sub(n, 0, false, true, st.next, extend);
    LoadHoisted(n.kids[0], false, true, st.next, extend);
    var r2 := WithKid(WithKid(n, 1, st.node), 0, d.node);
    assert r2 == n.(kids := [d.node, st.node]);
    assert !DefUseNode(r2);
  }

  /** `defUseNode` holds exactly for a SET to a register that reads that register as its whole source or as one of at most two operands. */
  lemma DefUseNodeMeans(n: Node)
    ensures DefUseNode(n) <==>
      n.op == SET && Kid(n, 0).op == REG
      && ((NKids(Kid(n, 1)) == 0 && Kid(n, 1) == Kid(n, 0))
          || (1 <= NKids(Kid(n, 1)) <= 2 && Kid(n, 0) in Kid(n, 1).kids))
  {
    if n.op == SET && Kid(n, 0).op == REG && NKids(Kid(n, 1)) == 2 && Kid(n, 0) in Kid(n, 1).kids {
      var k :| 0 <= k < 2 && Kid(n, 1).kids[k] == Kid(n, 0);
      assert k == 0 || k == 1;
    }
  }

  /**
   * After division no SET reads its own destination: when the rebuilt SET
   * would, its source has been moved into a fresh temporary, which cannot
   * be the destination.
   */
  lemma NoDefUseAfterDivide(n: Node, next: int, extend: bool)
    requires n.op == SET && Shaped(n) && SymsBelow(n, next) && !n.ty.AggTy?
    ensures !DefUseNode(Divide(n, false, false, next, extend).node)
  {
    var s := Sub(n, 1, true, false, next, extend);
    var st := StoreTemp(n, s);
    SymsBelowMono(n, next, st.next);
    var d := Sub(n, 0, false, true, st.next, extend);
    SubRoundTrip(n, 0, false, true, st.next, extend);
    DefUseTempClears(WithKid(WithKid(n, 1, st.node), 0, d.node), d.node, st.emitted + d.emitted, d.next);
    assert n.op != MEM && !IsUnary(n.op) && !IsBinary(n.op) && !IsCompare(n.op);
    assert Divide(n, false, false, next, extend) == DivideSet(n, next, extend);
  }

  /** The temporary `divDefUseNode` introduces is newer than anything in the destination, so the SET no longer reads its destination. */
  lemma DefUseTempClears(r2: Node, dst: Node, e: seq<Node>, next: int)
    requires r2.op == SET && |r2.kids| == 2 && r2.kids[0] == dst && SymsBelow(dst, next) && !r2.ty.AggTy?
    ensures !DefUseNode(DefUseTemp(r2, e, next).node)
  {
    if DefUseNode(r2) {
      assert WithKid(r2, 1, Reg(next, r2.ty)) == r2.(kids := [dst, Reg(next, r2.ty)]);
    }
  }

  /** A comparison is never moved into a temporary; only its operands are divided. */
  lemma CompareKept(n: Node, setSrc: bool, setDst: bool, next: int, extend: bool)
    requires IsCompare(n.op)
    ensures var r := Divide(n, setSrc, setDst, next, extend);
      r.node.op == n.op && r.node.ty == n.ty && |r.node.kids| == |n.kids|
      && (0 < |n.kids| ==> r.node.kids[0] == Divide(n.kids[0], false, false, next, extend).node)
  {
    assert n.op != MEM && !IsUnary(n.op) && !IsBinary(n.op);
    assert Divide(n, setSrc, setDst, next, extend) == DivideCompare(n, next, extend);
    CompareOperands(n, next, extend);
  }

  lemma CompareOperands(n: Node, next: int, extend: bool)
    requires IsCompare(n.op)
    ensures var r := DivideCompare(n, next, extend);
      r.node.op == n.op && r.node.ty == n.ty && |r.node.kids| == |n.kids|
      && (0 < |n.kids| ==> r.node.kids[0] == Divide(n.kids[0], false, false, next, extend).node)
  {
    var a := Sub(n, 0, false, false, next, extend);
    var b := Sub(n, 1, false, false, a.next, extend);
    var m := WithKid(n, 0, a.node);
    assert m.op == n.op && m.ty == n.ty && |m.kids| == |n.kids| && (0 < |n.kids| ==> m.kids[0] == a.node);
    var m2 := WithKid(m, 1, b.node);
    assert m2.op == n.op && m2.ty == n.ty && |m2.kids| == |n.kids| && (0 < |n.kids| ==> m2.kids[0] == a.node);
  }

  /**
   * Leaves, PHIs, prologues, epilogues, jumps and other nodes without a case
   * are returned as they are and nothing is inserted; so are FRAME and
   * STATIC unless `ssa-extend-divex` is set, in which case they are moved
   * into a fresh temporary.
   */
  lemma CopiedUnchanged(n: Node, setSrc: bool, setDst: bool, next: int, extend: bool)
    requires Copied(n.op)
    ensures var r := Divide(n, setSrc, setDst, next, extend);
      if (n.op == FRAME || n.op == STATIC) && extend && !n.ty.AggTy? then
        Hoisted(r, n.op, n.ty) && r.emitted == [TempSet(n.ty, next, n)]
      else r == Split(n, [], next)
  {
  }

  // ---------------------------------------------------------------------
  // The pass over the function.

  /** A block after `doIt`: each instruction preceded by the SETs its division inserted, and the next free symbol. */
  function DivideBlock(instrs: seq<Node>, next: int, extend: bool): (r: (seq<Node>, int))
    ensures r.1 >= next && |r.0| == |instrs| + (r.1 - next)
    decreases |instrs|
  {
    if |instrs| == 0 then ([], next)
    else
      var h := Divide(instrs[0], false, false, next, extend);
      var t := DivideBlock(instrs[1..], h.next, extend);
      (h.emitted + [h.node] + t.0, t.1)
  }

  /** Every block of `blocks` in turn, each divided as it stands when reached. */
  function DivideAll(code: seq<seq<Node>>, blocks: seq<nat>, next: int, extend: bool): (r: (seq<seq<Node>>, int))
    requires forall j | 0 <= j < |blocks| :: blocks[j] < |code|
    ensures |r.0| == |code| && r.1 >= next
    ensures forall b | 0 <= b < |code| && b !in blocks :: r.0[b] == code[b]
    decreases |blocks|
  {
    if |blocks| == 0 then (code, next)
    else
      var d := DivideBlock(code[blocks[0]], next, extend);
      DivideAll(code[blocks[0] := d.0], blocks[1..], d.1, extend)
  }

  /** A block of divisible instructions comes out in three-address form. */
  lemma {:induction false} BlockThreeAddress(instrs: seq<Node>, next: int, extend: bool)
    requires forall k | 0 <= k < |instrs| :: Divisible(instrs[k])
    ensures AllFlat(DivideBlock(instrs, next, extend).0)
    decreases |instrs|
  {
    if |instrs| > 0 {
      var h := Divide(instrs[0], false, false, next, extend);
      ThreeAddress(instrs[0], false, false, next, extend);
      BlockThreeAddress(instrs[1..], h.next, extend);
      assert AllFlat([h.node]);
    }
  }

  /** The instructions of one block, divided in order; the new list replaces the block's. */
  method DivideInstrs(instrs: seq<Node>, next: int, extend: bool) returns (out: seq<Node>, next': int)
    ensures (out, next') == DivideBlock(instrs, next, extend)
  {
    out, next' := [], next;
    var i := 0;
    while i < |instrs|
      invariant 0 <= i <= |instrs|
      invariant DivideBlock(instrs[i..], next', extend).1 == DivideBlock(instrs, next, extend).1
      invariant out + DivideBlock(instrs[i..], next', extend).0 == DivideBlock(instrs, next, extend).0
      decreases |instrs| - i
    {
      var r := Divide(instrs[i], false, false, next', extend);
      assert instrs[i..][1..] == instrs[i + 1..];
      out := out + r.emitted + [r.node];
      next' := r.next;
      i := i + 1;
    }
    assert instrs[i..] == [];
    assert out + [] == out;
  }

  /**
   * `doIt`: every block in block-list order, every instruction in order,
   * is divided into three-address form; fresh temporaries are numbered
   * from `next` on.
   */
  method DoIt(f: Function, next: int, extend: bool) returns (next': int)
    requires f.Valid()
    modifies f
    ensures f.Valid() && forall j | 0 <= j < |f.g.layout| :: f.g.layout[j] < |old(f.code)|
    ensures (f.code, next') == DivideAll(old(f.code), f.g.layout, next, extend)
  {
    LayoutIds(f.g);
    next' := next;
    var i := 0;
    while i < |f.g.layout|
      invariant 0 <= i <= |f.g.layout| && f.Valid()
      invariant DivideAll(f.code, f.g.layout[i..], next', extend) == DivideAll(old(f.code), f.g.layout, next, extend)
      decreases |f.g.layout| - i
    {
      var b := f.g.layout[i];
      var instrs, nx := DivideInstrs(f.code[b], next', extend);
      assert f.g.layout[i..][1..] == f.g.layout[i + 1..];
      f.code := f.code[b := instrs];
      next' := nx;
      i := i + 1;
    }
  }

  /** Divisible instructions in distinct blocks all come out in three-address form. */
  lemma {:induction false} AllThreeAddress(code: seq<seq<Node>>, blocks: seq<nat>, next: int, extend: bool)
    requires forall j | 0 <= j < |blocks| :: blocks[j] < |code|
    requires forall i, j | 0 <= i < j < |blocks| :: blocks[i] != blocks[j]
    requires forall b, k | b in blocks && 0 <= b < |code| && 0 <= k < |code[b]| :: Divisible(code[b][k])
    ensures var r := DivideAll(code, blocks, next, extend);
      forall b | b in blocks && 0 <= b < |code| :: AllFlat(r.0[b])
    decreases |blocks|
  {
    if |blocks| > 0 {
      var b0 := blocks[0];
      var d := DivideBlock(code[b0], next, extend);
      BlockThreeAddress(code[b0], next, extend);
      var code' := code[b0 := d.0];
      var rest := blocks[1..];
      assert b0 !in rest by {
        forall j | 0 <= j < |rest| ensures rest[j] != b0 {
          assert rest[j] == blocks[j + 1];
        }
      }
      forall i, j | 0 <= i < j < |rest| ensures rest[i] != rest[j] {
        assert rest[i] == blocks[i + 1] && rest[j] == blocks[j + 1];
      }
      forall b, k | b in rest && 0 <= b < |code'| && 0 <= k < |code'[b]| ensures Divisible(code'[b][k]) {
        assert b in blocks && code'[b] == code[b];
      }
      AllThreeAddress(code', rest, d.1, extend);
      var r := DivideAll(code', rest, d.1, extend);
      assert r == DivideAll(code, blocks, next, extend);
      forall b | b in blocks && 0 <= b < |code| ensures AllFlat(r.0[b]) {
        if b == b0 {
          assert r.0[b] == code'[b];
        } else {
          assert b in rest;
        }
      }
    }
  }
}
