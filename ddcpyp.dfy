// Demand-driven copy propagation: a copy `from := to` is pushed into the
// rest of its block, and then, when nothing later in the block redefines
// either variable, into the blocks where the copy is available (a data-flow
// fixed point over the sub-CFG below the block) or, for the PRE driver,
// along the dominator tree (question propagation).
module DDCopyProp {
  import opened Lir
  import opened Cfg

  // ---------------------------------------------------------------------
  // Uses and definitions.

  /** `checkUse`: `exp` is `from`, or a kid is, or a kid with kids uses it. */
  predicate CheckUse(exp: Node, from: Node)
    decreases exp
  {
    exp == from ||
    exists i | 0 <= i < |exp.kids| :: exp.kids[i] == from || (|exp.kids[i].kids| > 0 && CheckUse(exp.kids[i], from))
  }

  /** `checkUse` holds exactly when `from` is `exp` or occurs anywhere beneath it. */
  lemma {:induction false} CheckUseOccurs(exp: Node, from: Node)
    ensures CheckUse(exp, from) <==> exp == from || Below(from, exp)
    decreases exp
  {
    forall i | 0 <= i < |exp.kids|
      ensures (exp.kids[i] == from || (|exp.kids[i].kids| > 0 && CheckUse(exp.kids[i], from)))
          <==> (exp.kids[i] == from || Below(from, exp.kids[i]))
    {
      CheckUseOccurs(exp.kids[i], from);
    }
  }

  /** `kill(node, from, to)`: a SET into `from` or `to`, or a call whose result is one of them. */
  predicate Kills(node: Node, from: Node, to: Node) {
    (node.op == SET && (Kid(node, 0) == from || Kid(node, 0) == to))
    || (node.op == CALL && |Kid(node, 2).kids| > 0 && (Kid(Kid(node, 2), 0) == from || Kid(Kid(node, 2), 0) == to))
  }

  // ---------------------------------------------------------------------
  // The PRE driver's per-block tables.

  /** One block's `expToVar`, `varToExp` and `varList`, as the PRE driver keeps them. */
  datatype Maps = Maps(expToVar: map<Node, Node>, varToExp: map<Node, Node>, varList: seq<Node>)

  /** `indexOf`: the first position of `x`, or -1. */
  function IndexOf(s: seq<Node>, x: Node): (r: int)
    ensures -1 <= r < |s|
    ensures r == -1 <==> x !in s
    ensures r >= 0 ==> s[r] == x && forall j | 0 <= j < r :: s[j] != x
  {
    if |s| == 0 then -1
    else if s[0] == x then 0
    else
      var r := IndexOf(s[1..], x);
      assert r >= 0 ==> s[1..][r] == s[r + 1];
      if r == -1 then -1 else r + 1
  }

  /** `remove(i)`: the list without position `i`. */
  function RemoveAt(s: seq<Node>, i: nat): (r: seq<Node>)
    requires i < |s|
    ensures |r| == |s| - 1
  {
    s[..i] + s[i + 1..]
  }

  /** `remove(x)`: the list without the first occurrence of `x`, if any. */
  function RemoveElem(s: seq<Node>, x: Node): (r: seq<Node>)
    ensures x in s ==> r == RemoveAt(s, IndexOf(s, x))
    ensures x !in s ==> r == s
  {
    var i := IndexOf(s, x);
    if i < 0 then s else RemoveAt(s, i)
  }

  /**
   * `add(i, x)`: `x` inserted before position `i`. Java rejects a position
   * past the end; here it appends.
   */
  function InsertAt(s: seq<Node>, i: nat, x: Node): (r: seq<Node>)
    ensures |r| == |s| + 1
    ensures i <= |s| ==> r[i] == x && r[..i] == s[..i] && r[i + 1..] == s[i..]
  {
    if i <= |s| then s[..i] + [x] + s[i..] else s + [x]
  }

  /** Taking out position `i` and inserting `x` there again replaces position `i` by `x`. */
  lemma RemoveInsert(s: seq<Node>, i: nat, x: Node)
    requires i < |s|
    ensures InsertAt(RemoveAt(s, i), i, x) == s[i := x]
  {
    var r := InsertAt(RemoveAt(s, i), i, x);
    assert RemoveAt(s, i)[..i] == s[..i];
    assert RemoveAt(s, i)[i..] == s[i + 1..];
    assert r == s[..i] + [x] + s[i + 1..];
  }

  // ---------------------------------------------------------------------
  // Rewriting one instruction.

  /** What `cpyp(node, from, to)` leaves: the rewritten node, its answer, and the tables. */
  datatype Rewrite = Rewrite(node: Node, ok: bool, maps: Option<Maps>)

  /** The SET's source as a key of `expToVar` is taken out of all three tables. */
  datatype Unregistered = Unregistered(maps: Option<Maps>, remove: bool, pos: int)

  function Unregister(ms: Option<Maps>, src: Node): (u: Unregistered)
    ensures !u.remove ==> u.maps == ms && u.pos == -1
    ensures u.remove <==> ms.Some? && src in ms.value.expToVar
  {
    if ms.Some? && src in ms.value.expToVar then
      var m := ms.value;
      var v := m.expToVar[src];
      Unregistered(Some(Maps(m.expToVar - {src}, m.varToExp - {v}, RemoveElem(m.varList, v))), true, IndexOf(m.varList, v))
    else Unregistered(ms, false, -1)
  }

  /** The rewritten SET is put back: its source maps to its destination and back, at the old list position. */
  function Reregister(ms: Option<Maps>, remove: bool, pos: int, copy: Node): Option<Maps> {
    if remove && ms.Some? then
      var m := ms.value;
      Some(Maps(m.expToVar[Kid(copy, 1) := Kid(copy, 0)],
                m.varToExp[Kid(copy, 0) := Kid(copy, 1)],
                if pos > -1 then InsertAt(m.varList, pos, Kid(copy, 0)) else m.varList))
    else ms
  }

  /**
   * `cpyp(node, from, to)`: replaces the occurrences of `from` below
   * `node` by `to`, and answers false when `node` redefines `from` or `to`.
   */
  function Cpyp(node: Node, from: Node, to: Node, ms: Option<Maps>): (r: Rewrite)
    ensures r.ok <==> !Kills(node, from, to)
    ensures r.node.op == node.op && |r.node.kids| == |node.kids|
    ensures ms.None? ==> r.maps.None?
    decreases node, 2
  {
    if node.op == SET then CpypSet(node, from, to, ms)
    else if node.op == CALL then CpypCall(node, from, to, ms)
    else
      var ks := CpypKids(node, 0, from, to, ms);
      Rewrite(node.(kids := ks.kids), true, ks.maps)
  }

  /** The kids from position `i` on, rewritten in order, and the tables after them. */
  datatype KidsRewrite = KidsRewrite(kids: seq<Node>, maps: Option<Maps>)

  /** The default case: a kid equal to `from` becomes `to`; a kid with kids is rewritten in turn. */
  function CpypKids(node: Node, i: nat, from: Node, to: Node, ms: Option<Maps>): (r: KidsRewrite)
    ensures |r.kids| == |node.kids| - i || (i > |node.kids| && r.kids == [])
    ensures ms.None? ==> r.maps.None?
    decreases node, 0, |node.kids| - i
  {
    if i >= |node.kids| then KidsRewrite([], ms)
    else
      var k := node.kids[i];
      var first := if k == from then Rewrite(to, true, ms)
        else if |k.kids| > 0 then Cpyp(k, from, to, ms)
        else Rewrite(k, true, ms);
      var rest := CpypKids(node, i + 1, from, to, first.maps);
      KidsRewrite([first.node] + rest.kids, rest.maps)
  }

  /** The SET case: the source first, then the check of the destination, then a destination with kids. */
  function CpypSet(node: Node, from: Node, to: Node, ms: Option<Maps>): (r: Rewrite)
    requires node.op == SET
    ensures r.ok <==> !Kills(node, from, to)
    ensures r.node.op == node.op && |r.node.kids| == |node.kids|
    ensures ms.None? ==> r.maps.None?
    decreases node, 1
  {
    var src := Kid(node, 1);
    var u := Unregister(ms, src);
    var srcDone := if 1 < |node.kids| && |node.kids[1].kids| > 0 then Cpyp(node.kids[1], from, to, u.maps)
      else Rewrite(if src == from then to else src, true, u.maps);
    var node1 := WithKid(node, 1, srcDone.node);
    var dst := Kid(node, 0);
    if dst == from || dst == to then Rewrite(node1, false, srcDone.maps)
    else
      var dstDone := if 0 < |node.kids| && |node.kids[0].kids| > 0 then Cpyp(node.kids[0], from, to, srcDone.maps)
        else Rewrite(dst, true, srcDone.maps);
      var node2 := WithKid(node1, 0, dstDone.node);
      Rewrite(node2, true, Reregister(dstDone.maps, u.remove, u.pos, node2))
  }

  /**
   * The CALL case: a call listed in `varList` is taken out, its address and
   * argument list rewritten, its result checked and its address rewritten,
   * and the rewritten call put back at the same position.
   */
  function CpypCall(node: Node, from: Node, to: Node, ms: Option<Maps>): (r: Rewrite)
    requires node.op == CALL
    ensures r.ok <==> !Kills(node, from, to)
    ensures r.node.op == node.op && |r.node.kids| == |node.kids|
    ensures ms.None? ==> r.maps.None?
    decreases node, 1
  {
    var pos := if ms.Some? then IndexOf(ms.value.varList, node) else -1;
    var args := CallArgs(node, from, to, Unlisted(node, ms));
    var res := Kid(node, 2);
    if |res.kids| > 0 && (res.kids[0] == from || res.kids[0] == to) then Rewrite(args.node, false, args.maps)
    else
      var out := CallOut(node, from, to, args.maps);
      var node3 := WithKid(args.node, 2, out.node);
      var ms3 := if pos > -1 && out.maps.Some? then Some(out.maps.value.(varList := InsertAt(out.maps.value.varList, pos, node3))) else out.maps;
      Rewrite(node3, true, ms3)
  }

  /** The tables with the call taken out of `varList` while it is rewritten. */
  function Unlisted(node: Node, ms: Option<Maps>): Option<Maps> {
    var pos := if ms.Some? then IndexOf(ms.value.varList, node) else -1;
    if pos > -1 then Some(ms.value.(varList := RemoveAt(ms.value.varList, pos))) else ms
  }

  /** A call that does not redefine `from` or `to`: its arguments, then its result, rewritten. */
  lemma CpypCallOk(node: Node, from: Node, to: Node, ms: Option<Maps>)
    requires node.op == CALL
    ensures var r := CpypCall(node, from, to, ms);
      var args := CallArgs(node, from, to, Unlisted(node, ms));
      r.ok ==> r.node == WithKid(args.node, 2, CallOut(node, from, to, args.maps).node)
  {
  }

  /** The call with its address and its argument list rewritten, in that order. */
  function CallArgs(node: Node, from: Node, to: Node, ms: Option<Maps>): (r: Rewrite)
    requires node.op == CALL
    ensures r.ok && r.node.op == node.op && |r.node.kids| == |node.kids|
    ensures 2 < |node.kids| ==> r.node.kids[2] == node.kids[2]
    ensures ms.None? ==> r.maps.None?
    decreases node, 0
  {
    var r0 := if 0 < |node.kids| then Cpyp(node.kids[0], from, to, ms) else Rewrite(Absent, true, ms);
    var r1 := if 1 < |node.kids| then Cpyp(node.kids[1], from, to, r0.maps) else Rewrite(Absent, true, r0.maps);
    Rewrite(WithKid(WithKid(node, 0, r0.node), 1, r1.node), true, r1.maps)
  }

  /** The call's result list with the destination inside it rewritten, when it has kids. */
  function CallOut(node: Node, from: Node, to: Node, ms: Option<Maps>): (r: Rewrite)
    requires node.op == CALL
    ensures ms.None? ==> r.maps.None?
    decreases node, 0
  {
    var res := Kid(node, 2);
    if |res.kids| > 0 && |res.kids[0].kids| > 0 then
      var r := Cpyp(node.kids[2].kids[0], from, to, ms);
      Rewrite(WithKid(res, 0, r.node), true, r.maps)
    else Rewrite(res, true, ms)
  }

  // ---------------------------------------------------------------------
  // What the rewrite amounts to on ordinary expressions.

  /** No assignment or call occurs strictly below `n`, as in every LIR expression. */
  predicate Plain(n: Node)
    decreases n
  {
    forall i | 0 <= i < |n.kids| :: n.kids[i].op != SET && n.kids[i].op != CALL && Plain(n.kids[i])
  }

  /** The reference rewrite: every occurrence of `from` strictly below `n` replaced by `to`. */
  function Subst(n: Node, from: Node, to: Node): (r: Node)
    ensures r.op == n.op && |r.kids| == |n.kids|
    decreases n, 1
  {
    n.(kids := SubstKids(n, 0, from, to))
  }

  function SubstKids(n: Node, i: nat, from: Node, to: Node): (r: seq<Node>)
    ensures |r| == if i <= |n.kids| then |n.kids| - i else 0
    ensures forall j | 0 <= j < |r| :: r[j] == if n.kids[i + j] == from then to else Subst(n.kids[i + j], from, to)
    decreases n, 0, |n.kids| - i
  {
    if i >= |n.kids| then []
    else [if n.kids[i] == from then to else Subst(n.kids[i], from, to)] + SubstKids(n, i + 1, from, to)
  }

  /** A call's reference rewrite: inside its address and argument list, and inside its result. */
  function CallSubst(call: Node, from: Node, to: Node): (r: Node)
    requires |call.kids| == 3
  {
    var res := call.kids[2];
    var res' := if |res.kids| > 0 then WithKid(res, 0, Subst(res.kids[0], from, to)) else res;
    call.(kids := [Subst(call.kids[0], from, to), Subst(call.kids[1], from, to), res'])
  }

  /** After the reference rewrite, `from` no longer occurs below `n`. */
  lemma {:induction false} SubstRemoves(n: Node, from: Node, to: Node)
    requires from != to && from.kids == [] && to.kids == []
    ensures !Below(from, Subst(n, from, to))
    decreases n
  {
    var r := Subst(n, from, to);
    forall i | 0 <= i < |r.kids|
      ensures r.kids[i] != from && !Below(from, r.kids[i])
    {
      if n.kids[i] != from {
        if |n.kids[i].kids| == 0 {
          assert Subst(n.kids[i], from, to) == n.kids[i];
        }
        SubstRemoves(n.kids[i], from, to);
      }
    }
  }

  /** On a plain leaf `to` and `from`, the default case is the reference rewrite and leaves the tables alone. */
  lemma {:induction false} CpypPlain(node: Node, from: Node, to: Node, ms: Option<Maps>)
    requires Plain(node) && node.op != SET && node.op != CALL
    requires from.kids == [] && to.kids == []
    ensures Cpyp(node, from, to, ms) == Rewrite(Subst(node, from, to), true, ms)
    decreases node, 1
  {
    CpypKidsPlain(node, 0, from, to, ms);
  }

  lemma {:induction false} CpypKidsPlain(node: Node, i: nat, from: Node, to: Node, ms: Option<Maps>)
    requires Plain(node)
    requires from.kids == [] && to.kids == []
    ensures CpypKids(node, i, from, to, ms) == KidsRewrite(SubstKids(node, i, from, to), ms)
    decreases node, 0, |node.kids| - i
  {
    if i < |node.kids| {
      var k := node.kids[i];
      if k != from && |k.kids| > 0 {
        CpypPlain(k, from, to, ms);
      }
      CpypKidsPlain(node, i + 1, from, to, ms);
    }
  }

  /**
   * A SET that does not redefine `from` or `to` is rewritten on both sides;
   * its tables entry, if its source was a key of `expToVar`, is re-keyed by
   * the rewritten source and keeps its position in `varList`.
   */
  lemma CpypSetPlain(node: Node, from: Node, to: Node, ms: Option<Maps>)
    requires node.op == SET && |node.kids| == 2 && Plain(node)
    requires from.kids == [] && to.kids == []
    requires !Kills(node, from, to)
    ensures var r := Cpyp(node, from, to, ms);
      && r.node == Subst(node, from, to)
      && (ms.None? || node.kids[1] !in ms.value.expToVar ==> r.maps == ms)
      && (ms.Some? && node.kids[1] in ms.value.expToVar ==>
            var m := ms.value;
            var v := m.expToVar[node.kids[1]];
            var src := r.node.kids[1];
            var dst := r.node.kids[0];
            r.maps == Some(Maps((m.expToVar - {node.kids[1]})[src := dst],
                                (m.varToExp - {v})[dst := src],
                                if v in m.varList then m.varList[IndexOf(m.varList, v) := dst] else m.varList)))
  {
    var u := Unregister(ms, node.kids[1]);
    var n := Subst(node, from, to);
    CpypSetSteps(node, from, to, ms);
    if ms.Some? && node.kids[1] in ms.value.expToVar {
      var m := ms.value;
      var v := m.expToVar[node.kids[1]];
      if v in m.varList {
        RemoveInsert(m.varList, IndexOf(m.varList, v), n.kids[0]);
      }
    }
  }

  /** A plain SET that does not redefine: the reference rewrite, with the tables unregistered and registered again. */
  lemma CpypSetSteps(node: Node, from: Node, to: Node, ms: Option<Maps>)
    requires node.op == SET && |node.kids| == 2 && Plain(node)
    requires from.kids == [] && to.kids == []
    requires !Kills(node, from, to)
    ensures var u := Unregister(ms, node.kids[1]);
      Cpyp(node, from, to, ms) == Rewrite(Subst(node, from, to), true, Reregister(u.maps, u.remove, u.pos, Subst(node, from, to)))
  {
    var src, dst := node.kids[1], node.kids[0];
    var u := Unregister(ms, src);
    CpypPlain(src, from, to, u.maps);
    CpypPlain(dst, from, to, u.maps);
    var src', dst' := if src == from then to else Subst(src, from, to), Subst(dst, from, to);
    if |src.kids| == 0 {
      assert Subst(src, from, to) == src;
    }
    if |dst.kids| == 0 {
      assert Subst(dst, from, to) == dst;
    }
    assert Subst(node, from, to).kids == [dst', src'];
    assert Cpyp(node, from, to, ms).node == node.(kids := [dst', src']);
  }

  lemma CallArgsPlain(node: Node, from: Node, to: Node, ms: Option<Maps>)
    requires node.op == CALL && |node.kids| == 3 && Plain(node)
    requires from.kids == [] && to.kids == []
    ensures CallArgs(node, from, to, ms)
         == Rewrite(node.(kids := [Subst(node.kids[0], from, to), Subst(node.kids[1], from, to), node.kids[2]]), true, ms)
  {
    CpypPlain(node.kids[0], from, to, ms);
    CpypPlain(node.kids[1], from, to, ms);
  }

  lemma CallOutPlain(node: Node, from: Node, to: Node, ms: Option<Maps>)
    requires node.op == CALL && |node.kids| == 3 && Plain(node)
    requires from.kids == [] && to.kids == []
    ensures CallOut(node, from, to, ms) == Rewrite(CallSubst(node, from, to).kids[2], true, ms)
  {
    var res := node.kids[2];
    if |res.kids| > 0 {
      assert Plain(res);
      CpypPlain(res.kids[0], from, to, ms);
      if |res.kids[0].kids| == 0 {
        assert Subst(res.kids[0], from, to) == res.kids[0];
        assert WithKid(res, 0, res.kids[0]) == res;
      }
    }
  }

  /** A call that does not redefine `from` or `to` is rewritten inside its address, arguments and result. */
  lemma CpypCallPlain(node: Node, from: Node, to: Node, ms: Option<Maps>)
    requires node.op == CALL && |node.kids| == 3 && Plain(node)
    requires from.kids == [] && to.kids == []
    ensures var r := CpypCall(node, from, to, ms);
      r.ok ==> r.node == CallSubst(node, from, to)
  {
    var ms1 := Unlisted(node, ms);
    CpypCallOk(node, from, to, ms);
    CallArgsPlain(node, from, to, ms1);
    CallOutPlain(node, from, to, ms1);
    var node3 := CallSubst(node, from, to);
    var args := CallArgs(node, from, to, ms1);
    var out := CallOut(node, from, to, ms1);
    assert args.node.kids[2 := out.node] == node3.kids;
  }

  /**
   * A call listed in `varList` keeps its place there, rewritten, when it
   * does not redefine `from` or `to`; when it does, it is taken out and not
   * put back. Other tables are left alone.
   */
  lemma CpypCallTables(node: Node, from: Node, to: Node, ms: Option<Maps>)
    requires node.op == CALL && |node.kids| == 3 && Plain(node)
    requires from.kids == [] && to.kids == []
    ensures var r := CpypCall(node, from, to, ms);
      && (ms.None? || node !in ms.value.varList ==> r.maps == ms)
      && (ms.Some? && node in ms.value.varList ==>
            var m := ms.value;
            var pos := IndexOf(m.varList, node);
            r.maps == Some(m.(varList := if r.ok then m.varList[pos := r.node] else RemoveAt(m.varList, pos))))
  {
    var pos := if ms.Some? then IndexOf(ms.value.varList, node) else -1;
    var ms1 := Unlisted(node, ms);
    CallArgsPlain(node, from, to, ms1);
    var r := CpypCall(node, from, to, ms);
    var args := CallArgs(node, from, to, ms1);
    assert args.maps == ms1;
    if r.ok {
      CallOutPlain(node, from, to, ms1);
      var out := CallOut(node, from, to, ms1);
      assert out.maps == ms1;
      if pos > -1 {
        var m := ms.value;
        assert r.maps == Some(m.(varList := InsertAt(RemoveAt(m.varList, pos), pos, r.node)));
        RemoveInsert(m.varList, pos, r.node);
      }
    } else {
      assert r.maps == ms1;
    }
  }

  // ---------------------------------------------------------------------
  // The local scan of `compLocalProp`.

  /** An instruction of the shape LIR gives it: a SET has two kids, a CALL three. */
  predicate WellFormed(node: Node) {
    (node.op == SET ==> |node.kids| == 2) && (node.op == CALL ==> |node.kids| == 3)
  }

  /** What a redefining instruction still contributes to the use list: its source, or its address and arguments. */
  predicate KillerUses(node: Node, from: Node) {
    if node.op == SET then CheckUse(Kid(node, 1), from)
    else CheckUse(Kid(node, 0), from) || CheckUse(Kid(node, 1), from)
  }

  /** Whether the scan lists instruction `node`. */
  predicate Adds(node: Node, from: Node, to: Node) {
    if Kills(node, from, to) then KillerUses(node, from) else CheckUse(node, from)
  }

  /** The positions that use `from`, and whether the scan stopped at a redefinition. */
  datatype Scan = Scan(uses: seq<nat>, kills: bool)

  /** `useList.contains(node)`: an equal instruction is already listed. */
  predicate Listed(instrs: seq<Node>, uses: seq<nat>, node: Node) {
    exists j | 0 <= j < |uses| :: uses[j] < |instrs| && instrs[uses[j]] == node
  }

  /** One instruction of `compLocalProp`'s inner loop; a position may be listed more than once. */
  function ScanStep(instrs: seq<Node>, k: nat, uses: seq<nat>, from: Node, to: Node): (r: Scan)
    requires k < |instrs|
    ensures |uses| <= |r.uses| && r.uses[..|uses|] == uses
    ensures forall j | |uses| <= j < |r.uses| :: r.uses[j] == k
    ensures r.kills <==> Kills(instrs[k], from, to)
  {
    var added := StepAdds(instrs, k, uses, from, to);
    assert (uses + added)[..|uses|] == uses;
    Scan(uses + added, Kills(instrs[k], from, to))
  }

  /**
   * What instruction `k` appends to the use list: a SET its source, then
   * (when it does not redefine and is not listed yet) its destination, then
   * itself; a CALL its address or arguments, then (when it does not
   * redefine) its result, then itself; any other instruction itself.
   */
  function StepAdds(instrs: seq<Node>, k: nat, uses: seq<nat>, from: Node, to: Node): (added: seq<nat>)
    requires k < |instrs|
    ensures forall j | 0 <= j < |added| :: added[j] == k
  {
    var node := instrs[k];
    if node.op == SET then
      var a1: seq<nat> := if CheckUse(Kid(node, 1), from) then [k] else [];
      if Kid(node, 0) == from || Kid(node, 0) == to then a1
      else
        var a2 := if !Listed(instrs, uses + a1, node) && CheckUse(Kid(node, 0), from) then a1 + [k] else a1;
        if CheckUse(node, from) then a2 + [k] else a2
    else if node.op == CALL then
      var a1: seq<nat> := if CheckUse(Kid(node, 0), from) || CheckUse(Kid(node, 1), from) then [k] else [];
      var res := Kid(node, 2);
      if |res.kids| > 0 && (Kid(res, 0) == from || Kid(res, 0) == to) then a1
      else
        var a2 := if |res.kids| > 0 && CheckUse(Kid(res, 0), from) then a1 + [k] else a1;
        if CheckUse(node, from) then a2 + [k] else a2
    else if CheckUse(node, from) then [k] else []
  }

  /** The scan from position `k` on, stopping after the first redefinition. */
  function ScanFrom(instrs: seq<Node>, k: nat, uses: seq<nat>, from: Node, to: Node): Scan
    decreases |instrs| - k
  {
    if k >= |instrs| then Scan(uses, false)
    else
      var s := ScanStep(instrs, k, uses, from, to);
      if s.kills then s else ScanFrom(instrs, k + 1, s.uses, from, to)
  }

  /** One step of `ScanFrom`, spelled out. */
  lemma ScanFromAt(instrs: seq<Node>, k: nat, uses: seq<nat>, from: Node, to: Node)
    requires k < |instrs|
    ensures var s := ScanStep(instrs, k, uses, from, to);
      ScanFrom(instrs, k, uses, from, to) == if s.kills then s else ScanFrom(instrs, k + 1, s.uses, from, to)
  {
  }

  /** The scan of a whole block. */
  function LocalScan(instrs: seq<Node>, from: Node, to: Node): Scan {
    ScanFrom(instrs, 0, [], from, to)
  }

  /** The instruction loop of `compLocalProp` over one block. */
  method ScanBlock(instrs: seq<Node>, from: Node, to: Node) returns (s: Scan)
    ensures s == LocalScan(instrs, from, to)
  {
    var uses: seq<nat> := [];
    var q := 0;
    while q < |instrs|
      invariant q <= |instrs|
      invariant ScanFrom(instrs, q, uses, from, to) == LocalScan(instrs, from, to)
    {
      var step := ScanInstr(instrs, q, uses, from, to);
      if step.kills {
        return step;
      }
      uses := step.uses;
      q := q + 1;
    }
    s := Scan(uses, false);
  }

  /** One instruction of the loop: the scan from `k` is this step's, or goes on after it. */
  method ScanInstr(instrs: seq<Node>, k: nat, uses: seq<nat>, from: Node, to: Node) returns (step: Scan)
    requires k < |instrs|
    ensures ScanFrom(instrs, k, uses, from, to) == if step.kills then step else ScanFrom(instrs, k + 1, step.uses, from, to)
  {
    step := ScanStep(instrs, k, uses, from, to);
    ScanFromAt(instrs, k, uses, from, to);
  }

  /** Block `b` has its use list in `ul` and its kill bit set when its scan redefines. */
  ghost predicate Scanned(code: seq<seq<Node>>, b: nat, from: Node, to: Node,
                          ul: map<nat, seq<nat>>, k0: seq<bool>, k: seq<bool>) {
    && b < |code| && b < |k| && b < |k0| && b in ul
    && ul[b] == LocalScan(code[b], from, to).uses
    && k[b] == (k0[b] || LocalScan(code[b], from, to).kills)
  }

  /**
   * `compLocalProp`'s loop after the first `t` sub-CFG blocks, which make up
   * `seen`: those other than `checkBlk` are scanned, no other kill bit moved
   * and every other use list is as it was.
   */
  ghost predicate PropDone(code: seq<seq<Node>>, sub: seq<nat>, t: nat, seen: set<nat>, checkBlk: nat,
                           from: Node, to: Node, ul0: map<nat, seq<nat>>, ul: map<nat, seq<nat>>,
                           k0: seq<bool>, k: seq<bool>) {
    && t <= |sub| && |k| == |k0|
    && (forall b | b in seen :: b in sub)
    && (forall j | 0 <= j < t :: sub[j] in seen)
    && (forall b | b in seen && b != checkBlk :: Scanned(code, b, from, to, ul, k0, k))
    && (forall b | 0 <= b < |k| && (b !in seen || b == checkBlk) :: k[b] == k0[b])
    && (forall b | b in ul0 :: b in ul)
    && (forall b | b in ul :: (b in seen && b != checkBlk) || (b in ul0 && ul[b] == ul0[b]))
  }

  /** Scanning block `sub[t]` (or skipping it when it is `checkBlk`) extends `PropDone` by one block. */
  lemma PropDoneStep(code: seq<seq<Node>>, sub: seq<nat>, t: nat, seen: set<nat>, checkBlk: nat,
                     from: Node, to: Node, ul0: map<nat, seq<nat>>, ul1: map<nat, seq<nat>>,
                     ul2: map<nat, seq<nat>>, k0: seq<bool>, k1: seq<bool>, k2: seq<bool>)
    requires PropDone(code, sub, t, seen, checkBlk, from, to, ul0, ul1, k0, k1)
    requires t < |sub| && sub[t] < |code| && sub[t] < |k1|
    requires sub[t] == checkBlk ==> ul2 == ul1 && k2 == k1
    requires sub[t] != checkBlk ==>
      && ul2 == ul1[sub[t] := LocalScan(code[sub[t]], from, to).uses]
      && k2 == k1[sub[t] := k1[sub[t]] || LocalScan(code[sub[t]], from, to).kills]
    ensures PropDone(code, sub, t + 1, seen + {sub[t]}, checkBlk, from, to, ul0, ul2, k0, k2)
  {
    var blk := sub[t];
    forall b | b in seen + {blk} && b != checkBlk
      ensures Scanned(code, b, from, to, ul2, k0, k2)
    {
      if b != blk {
        assert Scanned(code, b, from, to, ul1, k0, k1);
      } else if blk in seen {
        assert Scanned(code, blk, from, to, ul1, k0, k1);
      }
    }
  }

  /** A use in a kid, or in a call's result, is a use in the instruction. */
  lemma UseInKid(node: Node, i: nat, from: Node)
    requires i < |node.kids| && CheckUse(node.kids[i], from)
    ensures CheckUse(node, from)
  {
    CheckUseOccurs(node.kids[i], from);
    CheckUseOccurs(node, from);
    assert node.kids[i] == from || Below(from, node.kids[i]);
    assert Below(from, node);
  }

  /** One step lists a well-formed instruction exactly when `Adds` says so. */
  lemma ScanStepAdds(instrs: seq<Node>, k: nat, uses: seq<nat>, from: Node, to: Node)
    requires k < |instrs| && WellFormed(instrs[k])
    ensures var r := ScanStep(instrs, k, uses, from, to);
      |r.uses| > |uses| <==> Adds(instrs[k], from, to)
  {
    var node := instrs[k];
    if node.op == SET {
      if CheckUse(node.kids[1], from) { UseInKid(node, 1, from); }
      if CheckUse(node.kids[0], from) { UseInKid(node, 0, from); }
    } else if node.op == CALL {
      if CheckUse(node.kids[0], from) { UseInKid(node, 0, from); }
      if CheckUse(node.kids[1], from) { UseInKid(node, 1, from); }
      var res := node.kids[2];
      if |res.kids| > 0 && CheckUse(res.kids[0], from) {
        UseInKid(res, 0, from);
        UseInKid(node, 2, from);
      }
    }
  }

  /** Some instruction from `k` on redefines `from` or `to` exactly when instruction `k` does or one after it does. */
  lemma KillsFromStep(instrs: seq<Node>, k: nat, from: Node, to: Node)
    requires k < |instrs|
    ensures (exists j | k <= j < |instrs| :: Kills(instrs[j], from, to)) <==>
      Kills(instrs[k], from, to) || exists j | k + 1 <= j < |instrs| :: Kills(instrs[j], from, to)
  {
    if exists j | k <= j < |instrs| :: Kills(instrs[j], from, to) {
      var j :| k <= j < |instrs| && Kills(instrs[j], from, to);
      if j > k { assert k + 1 <= j; }
    }
  }

  /** The scan reports a redefinition exactly when some instruction from `k` on kills. */
  lemma {:induction false} ScanKills(instrs: seq<Node>, k: nat, uses: seq<nat>, from: Node, to: Node)
    ensures ScanFrom(instrs, k, uses, from, to).kills <==> exists j | k <= j < |instrs| :: Kills(instrs[j], from, to)
    decreases |instrs| - k
  {
    if k < |instrs| {
      var s := ScanStep(instrs, k, uses, from, to);
      KillsFromStep(instrs, k, from, to);
      if !s.kills {
        ScanKills(instrs, k + 1, s.uses, from, to);
      }
    }
  }

  /**
   * The scan lists position `j` exactly when it was listed already, or
   * `j` is at or after `k`, no instruction in between kills, and `Adds`
   * holds of instruction `j`: every use up to and including the first
   * redefinition, and nothing after it.
   */
  /** One step lists `j` exactly when it was listed already, or `j` is `k` and `Adds` holds of instruction `k`. */
  lemma StepMember(instrs: seq<Node>, k: nat, uses: seq<nat>, from: Node, to: Node, j: nat)
    requires k < |instrs| && WellFormed(instrs[k])
    ensures j in ScanStep(instrs, k, uses, from, to).uses <==> j in uses || (j == k && Adds(instrs[k], from, to))
  {
    var added := StepAdds(instrs, k, uses, from, to);
    ScanStepAdds(instrs, k, uses, from, to);
    assert ScanStep(instrs, k, uses, from, to).uses == uses + added;
    if j in added {
      var i :| 0 <= i < |added| && added[i] == j;
    }
    if j == k && Adds(instrs[k], from, to) {
      assert added[0] == k;
    }
  }

  lemma {:induction false} ScanUses(instrs: seq<Node>, k: nat, uses: seq<nat>, from: Node, to: Node, j: nat)
    requires forall i | 0 <= i < |instrs| :: WellFormed(instrs[i])
    requires forall i | 0 <= i < |uses| :: uses[i] < k
    ensures j in ScanFrom(instrs, k, uses, from, to).uses <==>
      j in uses || (k <= j < |instrs| && (forall i | k <= i < j :: !Kills(instrs[i], from, to)) && Adds(instrs[j], from, to))
    decreases |instrs| - k, 1
  {
    if k < |instrs| {
      if Kills(instrs[k], from, to) {
        ScanUsesAtKill(instrs, k, uses, from, to, j);
      } else {
        ScanUsesPast(instrs, k, uses, from, to, j);
      }
    }
  }

  /** `ScanUses` when instruction `k` redefines: the scan stops there. */
  lemma ScanUsesAtKill(instrs: seq<Node>, k: nat, uses: seq<nat>, from: Node, to: Node, j: nat)
    requires k < |instrs| && WellFormed(instrs[k]) && Kills(instrs[k], from, to)
    ensures j in ScanFrom(instrs, k, uses, from, to).uses <==>
      j in uses || (k <= j < |instrs| && (forall i | k <= i < j :: !Kills(instrs[i], from, to)) && Adds(instrs[j], from, to))
  {
    StepMember(instrs, k, uses, from, to, j);
    assert ScanFrom(instrs, k, uses, from, to) == ScanStep(instrs, k, uses, from, to);
  }

  /** `ScanUses` when instruction `k` does not redefine: the scan goes on from `k + 1`. */
  lemma {:induction false} ScanUsesPast(instrs: seq<Node>, k: nat, uses: seq<nat>, from: Node, to: Node, j: nat)
    requires forall i | 0 <= i < |instrs| :: WellFormed(instrs[i])
    requires forall i | 0 <= i < |uses| :: uses[i] < k
    requires k < |instrs| && !Kills(instrs[k], from, to)
    ensures j in ScanFrom(instrs, k, uses, from, to).uses <==>
      j in uses || (k <= j < |instrs| && (forall i | k <= i < j :: !Kills(instrs[i], from, to)) && Adds(instrs[j], from, to))
    decreases |instrs| - k, 0
  {
    var s := ScanStep(instrs, k, uses, from, to);
    StepMember(instrs, k, uses, from, to, j);
    StepBelow(instrs, k, uses, from, to);
    NoKillsShift(instrs, k, j, from, to);
    assert ScanFrom(instrs, k, uses, from, to) == ScanFrom(instrs, k + 1, s.uses, from, to);
    ScanUses(instrs, k + 1, s.uses, from, to, j);
  }

  /** After the step at `k`, every listed position is at most `k`. */
  lemma StepBelow(instrs: seq<Node>, k: nat, uses: seq<nat>, from: Node, to: Node)
    requires k < |instrs| && forall i | 0 <= i < |uses| :: uses[i] < k
    ensures var s := ScanStep(instrs, k, uses, from, to); forall i | 0 <= i < |s.uses| :: s.uses[i] < k + 1
  {
    var added := StepAdds(instrs, k, uses, from, to);
    var s := ScanStep(instrs, k, uses, from, to);
    assert s.uses == uses + added;
    forall i | 0 <= i < |s.uses| ensures s.uses[i] < k + 1 {
      if i < |uses| { assert s.uses[i] == uses[i]; } else { assert s.uses[i] == added[i - |uses|]; }
    }
  }

  /** Past an instruction that does not redefine, "no redefinition before `j`" may start one later. */
  lemma NoKillsShift(instrs: seq<Node>, k: nat, j: nat, from: Node, to: Node)
    requires k < |instrs| && !Kills(instrs[k], from, to)
    ensures (forall i | k <= i < j && i < |instrs| :: !Kills(instrs[i], from, to)) <==>
            (forall i | k + 1 <= i < j && i < |instrs| :: !Kills(instrs[i], from, to))
  {
  }

  // ---------------------------------------------------------------------
  // Rewriting positions of the function.

  /** The instruction lists, and the tables shared with the PRE driver. */
  datatype State = State(code: seq<seq<Node>>, tables: seq<Option<Maps>>)

  /** The tables `setMap` selected, when the selected block has any. */
  function CurrentOf(tables: seq<Option<Maps>>, cur: int): Option<Maps> {
    if 0 <= cur < |tables| then tables[cur] else None
  }

  /** Every block that has tables in `a` still has them in `b`. */
  predicate KeepsSome(a: seq<Option<Maps>>, b: seq<Option<Maps>>) {
    |a| == |b| && forall c | 0 <= c < |a| && a[c].Some? :: b[c].Some?
  }

  /** The selected block's tables after a rewrite. */
  function Stored(tables: seq<Option<Maps>>, cur: int, ms: Option<Maps>): (r: seq<Option<Maps>>)
    ensures |r| == |tables| && KeepsSome(tables, r)
  {
    if 0 <= cur < |tables| && ms.Some? then tables[cur := ms] else tables
  }

  /** Two instruction lists of the same blocks and lengths. */
  predicate SameShape(a: seq<seq<Node>>, b: seq<seq<Node>>) {
    |a| == |b| && forall c | 0 <= c < |a| :: |a[c]| == |b[c]|
  }

  /** An answer of `cpyp` and the state it leaves. */
  datatype Step = Step(ok: bool, st: State)

  /** `cpyp(node, from, to)` on the instruction at position `i` of block `b`, in place. */
  function RewriteAt(st: State, cur: int, b: nat, i: nat, from: Node, to: Node): (r: Step)
    requires b < |st.code| && i < |st.code[b]|
    ensures SameShape(st.code, r.st.code) && |r.st.tables| == |st.tables|
    ensures r.ok <==> !Kills(st.code[b][i], from, to)
    ensures forall c, j | 0 <= c < |st.code| && 0 <= j < |st.code[c]| && (c != b || j != i) ::
      r.st.code[c][j] == st.code[c][j]
    ensures CurrentOf(st.tables, cur).None? ==> r.st.tables == st.tables
    ensures forall c | 0 <= c < |st.tables| && c != cur :: r.st.tables[c] == st.tables[c]
  {
    var r := Cpyp(st.code[b][i], from, to, CurrentOf(st.tables, cur));
    Step(r.ok, State(st.code[b := st.code[b][i := r.node]], Stored(st.tables, cur, r.maps)))
  }

  /**
   * The local pass after a copy at position `k - 1`: each later
   * instruction is rewritten until one answers false.
   */
  function Sweep(st: State, cur: int, b: nat, k: nat, from: Node, to: Node): (r: Step)
    requires b < |st.code|
    ensures SameShape(st.code, r.st.code) && |r.st.tables| == |st.tables|
    ensures forall c, j | 0 <= c < |st.code| && 0 <= j < |st.code[c]| && (c != b || j < k) ::
      r.st.code[c][j] == st.code[c][j]
    ensures CurrentOf(st.tables, cur).None? ==> r.st.tables == st.tables
    ensures forall c | 0 <= c < |st.tables| && c != cur :: r.st.tables[c] == st.tables[c]
    decreases |st.code[b]| - k
  {
    if k >= |st.code[b]| then Step(true, st)
    else
      var r := RewriteAt(st, cur, b, k, from, to);
      if !r.ok then r else Sweep(r.st, cur, b, k + 1, from, to)
  }

  /** A rewrite never takes a block's tables away. */
  lemma {:induction false} SweepKeepsSome(st: State, cur: int, b: nat, k: nat, from: Node, to: Node)
    requires b < |st.code|
    ensures KeepsSome(st.tables, Sweep(st, cur, b, k, from, to).st.tables)
    decreases |st.code[b]| - k
  {
    if k < |st.code[b]| {
      var r := RewriteAt(st, cur, b, k, from, to);
      if r.ok {
        SweepKeepsSome(r.st, cur, b, k + 1, from, to);
      }
    }
  }

  /** The pass goes on to the other blocks exactly when no later instruction redefines `from` or `to`. */
  lemma {:induction false} SweepGlobal(st: State, cur: int, b: nat, k: nat, from: Node, to: Node)
    requires b < |st.code|
    ensures Sweep(st, cur, b, k, from, to).ok <==> forall j | k <= j < |st.code[b]| :: !Kills(st.code[b][j], from, to)
    decreases |st.code[b]| - k
  {
    if k < |st.code[b]| {
      var r := RewriteAt(st, cur, b, k, from, to);
      if r.ok {
        SweepGlobal(r.st, cur, b, k + 1, from, to);
      }
    }
  }

  /** The pass stops at the first redefinition: nothing after it is touched. */
  lemma {:induction false} SweepStops(st: State, cur: int, b: nat, k: nat, from: Node, to: Node, stop: nat)
    requires b < |st.code|
    requires k <= stop < |st.code[b]| && Kills(st.code[b][stop], from, to)
    ensures forall j | stop < j < |st.code[b]| :: Sweep(st, cur, b, k, from, to).st.code[b][j] == st.code[b][j]
    decreases |st.code[b]| - k
  {
    var r := RewriteAt(st, cur, b, k, from, to);
    if r.ok {
      SweepStops(r.st, cur, b, k + 1, from, to, stop);
    }
  }

  /** Use positions that name instructions of the function. */
  predicate UsesIn(useLists: map<nat, seq<nat>>, code: seq<seq<Node>>) {
    forall b | b in useLists :: b < |code| && forall j | 0 <= j < |useLists[b]| :: useLists[b][j] < |code[b]|
  }

  /** `cpyp` on every listed position of block `b` from the `j`-th on, in list order. */
  function ApplyUses(st: State, cur: int, b: nat, uses: seq<nat>, j: nat, from: Node, to: Node): (r: State)
    requires b < |st.code|
    requires forall i | 0 <= i < |uses| :: uses[i] < |st.code[b]|
    ensures SameShape(st.code, r.code) && |r.tables| == |st.tables|
    decreases |uses| - j
  {
    if j >= |uses| then st
    else
      var r := RewriteAt(st, cur, b, uses[j], from, to);
      ApplyUses(r.st, cur, b, uses, j + 1, from, to)
  }

  /** Only the listed positions of block `b` can change. */
  lemma {:induction false} ApplyUsesOnly(st: State, cur: int, b: nat, uses: seq<nat>, j: nat, from: Node, to: Node, c: nat, i: nat)
    requires b < |st.code|
    requires forall k | 0 <= k < |uses| :: uses[k] < |st.code[b]|
    requires c < |st.code| && i < |st.code[c]|
    requires ApplyUses(st, cur, b, uses, j, from, to).code[c][i] != st.code[c][i]
    ensures c == b && exists k | j <= k < |uses| :: uses[k] == i
    decreases |uses| - j
  {
    var r := RewriteAt(st, cur, b, uses[j], from, to);
    if r.st.code[c][i] == st.code[c][i] {
      ApplyUsesOnly(r.st, cur, b, uses, j + 1, from, to, c, i);
    }
  }

  /** `change(from, to)` of the data-flow version from the `t`-th block of the sub-CFG on. */
  function ChangeFrom(st: State, cur: int, subTree: seq<nat>, t: nat, nAvail: seq<bool>,
                      useLists: map<nat, seq<nat>>, from: Node, to: Node): (r: State)
    requires UsesIn(useLists, st.code)
    requires forall i | 0 <= i < |subTree| :: subTree[i] < |nAvail|
    ensures SameShape(st.code, r.code) && |r.tables| == |st.tables|
    decreases |subTree| - t
  {
    if t >= |subTree| then st
    else
      var b := subTree[t];
      var st' := if nAvail[b] && b in useLists then ApplyUses(st, cur, b, useLists[b], 0, from, to) else st;
      ChangeFrom(st', cur, subTree, t + 1, nAvail, useLists, from, to)
  }

  /** `change(from, to)` rewrites only recorded uses, and only in sub-CFG blocks where the copy is available on entry. */
  lemma {:induction false} ChangeOnly(st: State, cur: int, subTree: seq<nat>, t: nat, nAvail: seq<bool>,
                                      useLists: map<nat, seq<nat>>, from: Node, to: Node, b: nat, i: nat)
    requires UsesIn(useLists, st.code)
    requires forall k | 0 <= k < |subTree| :: subTree[k] < |nAvail|
    requires b < |st.code| && i < |st.code[b]|
    requires ChangeFrom(st, cur, subTree, t, nAvail, useLists, from, to).code[b][i] != st.code[b][i]
    ensures b in subTree[t..] && nAvail[b] && b in useLists && i in useLists[b]
    decreases |subTree| - t
  {
    var c := subTree[t];
    var st' := if nAvail[c] && c in useLists then ApplyUses(st, cur, c, useLists[c], 0, from, to) else st;
    if st'.code[b][i] != st.code[b][i] {
      ApplyUsesOnly(st, cur, c, useLists[c], 0, from, to, b, i);
    } else {
      ChangeOnly(st', cur, subTree, t + 1, nAvail, useLists, from, to, b, i);
      assert subTree[t + 1..] == subTree[t..][1..];
    }
  }

  /** Every listed position is below `n`. */
  predicate PositionsBelow(uses: seq<nat>, n: nat) {
    forall i | 0 <= i < |uses| :: uses[i] < n
  }

  /** One step of the scan only adds positions of the block. */
  lemma StepInRange(instrs: seq<Node>, k: nat, uses: seq<nat>, from: Node, to: Node)
    requires PositionsBelow(uses, |instrs|) && k < |instrs|
    ensures PositionsBelow(ScanStep(instrs, k, uses, from, to).uses, |instrs|)
  {
    var s := ScanStep(instrs, k, uses, from, to);
    forall i | 0 <= i < |s.uses| ensures s.uses[i] < |instrs| {
      if i < |uses| { assert s.uses[i] == s.uses[..|uses|][i]; }
    }
  }

  /** The scan only ever lists positions of the block. */
  lemma {:induction false} ScanInRange(instrs: seq<Node>, k: nat, uses: seq<nat>, from: Node, to: Node)
    requires PositionsBelow(uses, |instrs|)
    ensures PositionsBelow(ScanFrom(instrs, k, uses, from, to).uses, |instrs|)
    decreases |instrs| - k
  {
    if k < |instrs| {
      var s := ScanStep(instrs, k, uses, from, to);
      StepInRange(instrs, k, uses, from, to);
      if !s.kills {
        ScanInRange(instrs, k + 1, s.uses, from, to);
      }
    }
  }

  /** Use lists recorded by the local scan name instructions of their blocks. */
  lemma ScannedUsesIn(code: seq<seq<Node>>, subTree: seq<nat>, useLists: map<nat, seq<nat>>, blk: nat, from: Node, to: Node)
    requires forall k | 0 <= k < |subTree| :: subTree[k] < |code|
    requires forall k | 0 <= k < |subTree| && subTree[k] != blk ::
      subTree[k] in useLists && useLists[subTree[k]] == LocalScan(code[subTree[k]], from, to).uses
    requires forall b | b in useLists :: b in subTree && b != blk
    ensures UsesIn(useLists, code)
  {
    forall b | b in useLists
      ensures b < |code| && forall j | 0 <= j < |useLists[b]| :: useLists[b][j] < |code[b]|
    {
      var k :| 0 <= k < |subTree| && subTree[k] == b;
      LocalScanInRange(code[b], from, to);
      assert PositionsBelow(useLists[b], |code[b]|);
    }
  }

  /** The scan of a block only lists positions of the block. */
  lemma LocalScanInRange(instrs: seq<Node>, from: Node, to: Node)
    ensures PositionsBelow(LocalScan(instrs, from, to).uses, |instrs|)
  {
    ScanInRange(instrs, 0, [], from, to);
  }

  /** Instruction lists of the same shape that agree at every position are equal. */
  lemma SameCode(a: seq<seq<Node>>, b: seq<seq<Node>>)
    requires SameShape(a, b)
    requires forall c, i | 0 <= c < |b| && 0 <= i < |b[c]| :: b[c][i] == a[c][i]
    ensures a == b
  {
    forall c | 0 <= c < |a| ensures a[c] == b[c] {
      assert forall i | 0 <= i < |a[c]| :: a[c][i] == b[c][i];
    }
  }

  predicate NoDup(s: seq<nat>) {
    forall i, j | 0 <= i < j < |s| :: s[i] != s[j]
  }

  // ---------------------------------------------------------------------
  // Question propagation.

  /** The inner loop of `qp`: every instruction using `from`, up to and including the first redefinition. */
  function QpScan(instrs: seq<Node>, k: nat, from: Node, to: Node): (r: Scan)
    ensures PositionsBelow(r.uses, |instrs|)
    decreases |instrs| - k
  {
    if k >= |instrs| then Scan([], false)
    else
      var head := if CheckUse(instrs[k], from) then [k] else [];
      if Kills(instrs[k], from, to) then Scan(head, true)
      else
        var rest := QpScan(instrs, k + 1, from, to);
        Scan(head + rest.uses, rest.kills)
  }

  lemma AppendAssoc(a: seq<nat>, b: seq<nat>, c: seq<nat>)
    ensures a + (b + c) == (a + b) + c
  {
  }

  /** One step of `QpScan`, spelled out. */
  lemma QpScanAt(instrs: seq<Node>, k: nat, from: Node, to: Node)
    requires k < |instrs|
    ensures var head := if CheckUse(instrs[k], from) then [k] else [];
      QpScan(instrs, k, from, to) ==
        if Kills(instrs[k], from, to) then Scan(head, true)
        else Scan(head + QpScan(instrs, k + 1, from, to).uses, QpScan(instrs, k + 1, from, to).kills)
  {
  }

  /** `qp` stops at a block exactly when one of its instructions redefines `from` or `to`. */
  lemma {:induction false} QpScanKills(instrs: seq<Node>, k: nat, from: Node, to: Node)
    ensures QpScan(instrs, k, from, to).kills <==> exists j | k <= j < |instrs| :: Kills(instrs[j], from, to)
    decreases |instrs| - k
  {
    if k < |instrs| && !Kills(instrs[k], from, to) {
      QpScanKills(instrs, k + 1, from, to);
    }
  }

  /** Position `j` is listed exactly when its instruction uses `from` and no instruction before it redefines `from` or `to`. */
  lemma {:induction false} QpScanUses(instrs: seq<Node>, k: nat, from: Node, to: Node, j: nat)
    ensures j in QpScan(instrs, k, from, to).uses <==>
      k <= j < |instrs| && CheckUse(instrs[j], from) && forall i | k <= i < j :: !Kills(instrs[i], from, to)
    decreases |instrs| - k
  {
    if k < |instrs| {
      QpScanAt(instrs, k, from, to);
      var head: seq<nat> := if CheckUse(instrs[k], from) then [k] else [];
      assert j in head <==> j == k && CheckUse(instrs[k], from);
      if !Kills(instrs[k], from, to) {
        QpScanUses(instrs, k + 1, from, to, j);
        NoKillsShift(instrs, k, j, from, to);
      }
    }
  }

  /** No instruction of the block redefines `from` or `to`. */
  predicate Transparent(instrs: seq<Node>, from: Node, to: Node) {
    forall i | 0 <= i < |instrs| :: !Kills(instrs[i], from, to)
  }

  /**
   * `V` is a set of blocks free of redefinitions, closed under successors
   * short of `kid`, that holds every successor of `top` other than `kid`:
   * what a successful `checkTransp(top, kid)` has visited.
   */
  ghost predicate TranspRegion(g: Graph, code: seq<seq<Node>>, top: nat, kid: nat, V: set<nat>, from: Node, to: Node)
    requires g.Valid() && |code| == g.n && top < g.n
  {
    && (forall s | s in g.succs[top] :: s == kid || s in V)
    && forall b | b in V ::
      && b < g.n && Transparent(code[b], from, to)
      && forall s | s in g.succs[b] :: s == kid || s in V
  }

  /** A path of the graph: each block is followed by one of its successors. */
  predicate IsPath(g: Graph, path: seq<nat>)
    requires g.Valid()
  {
    forall i | 0 <= i < |path| - 1 :: path[i] < g.n && path[i + 1] in g.succs[path[i]]
  }

  /**
   * Every path that leaves `top` and does not reach `kid` runs through
   * blocks of the region, so none of them redefines `from` or `to`.
   */
  lemma {:induction false} RegionCoversPaths(g: Graph, code: seq<seq<Node>>, top: nat, kid: nat, V: set<nat>,
                                             from: Node, to: Node, path: seq<nat>)
    requires g.Valid() && |code| == g.n && top < g.n
    requires TranspRegion(g, code, top, kid, V, from, to)
    requires |path| > 0 && path[0] in g.succs[top] && IsPath(g, path)
    requires forall i | 0 <= i < |path| :: path[i] != kid
    ensures forall i | 0 <= i < |path| :: path[i] in V && Transparent(code[path[i]], from, to)
    decreases |path|
  {
    if |path| > 1 {
      RegionCoversPaths(g, code, top, kid, V, from, to, path[..|path| - 1]);
      var i := |path| - 2;
      assert path[i] == path[..|path| - 1][i];
      assert path[i] in V && path[i + 1] in g.succs[path[i]];
    }
  }

  // ---------------------------------------------------------------------
  // The pass object.

  /**
   * The pass's state: the function it rewrites in place, the PRE driver's
   * per-block tables once it supplied them and the block `setMap` selected,
   * the use lists by block (as instruction positions), the sub-CFG, and
   * the per-query arrays, which each query allocates afresh.
   */
  class CopyProp {
    const f: Function
    var shared: bool
    var tables: seq<Option<Maps>>
    var cur: int
    var useLists: map<nat, seq<nat>>
    var subTree: seq<nat>
    var checked: array<bool>
    var kill: array<bool>
    var nAvail: array<bool>
    var xAvail: array<bool>
    var visited: array<bool>
    var result: array<bool>

    predicate Valid()
      reads this, f
    {
      && f.Valid()
      && checked.Length == f.g.n && kill.Length == f.g.n && nAvail.Length == f.g.n
      && xAvail.Length == f.g.n && visited.Length == f.g.n && result.Length == f.g.n
      && kill != nAvail && kill != xAvail && nAvail != xAvail
    }

    /** The tables of the selected block, when the PRE driver supplied tables for it. */
    function Current(): Option<Maps>
      reads this
    {
      CurrentOf(tables, cur)
    }

    /** The instruction lists and the tables together. */
    function Snapshot(): State
      reads this, f
    {
      State(f.code, tables)
    }

    constructor (f: Function)
      requires f.Valid()
      ensures Valid() && this.f == f
      ensures !shared && tables == [] && cur == -1 && useLists == map[] && subTree == []
    {
      this.f := f;
      shared := false;
      tables := [];
      cur := -1;
      useLists := map[];
      subTree := [];
      checked := new bool[f.g.n](_ => false);
      kill := new bool[f.g.n](_ => false);
      nAvail := new bool[f.g.n](_ => true);
      xAvail := new bool[f.g.n](_ => true);
      visited := new bool[f.g.n](_ => false);
      result := new bool[f.g.n](_ => false);
    }

    /** `setMap(blk)`: the tables of `blk` become the current ones. */
    method SetMap(blk: nat)
      modifies this`cur
      ensures cur == blk && Current() == CurrentOf(tables, blk)
    {
      cur := blk;
    }

    /** `cpyp(node, from, to)` on an instruction of the function, rewriting it in place. */
    method RewriteInstr(b: nat, i: nat, from: Node, to: Node) returns (ok: bool)
      requires Valid() && b < f.g.n && i < |f.code[b]|
      modifies f, this`tables
      ensures Valid()
      ensures Step(ok, Snapshot()) == RewriteAt(old(Snapshot()), cur, b, i, from, to)
    {
      var r := Cpyp(f.code[b][i], from, to, Current());
      f.code := f.code[b := f.code[b][i := r.node]];
      tables := Stored(tables, cur, r.maps);
      ok := r.ok;
    }

    /**
     * The local loop of `invoke` and of both block variants of `cpyp`:
     * every instruction after position `p` is rewritten until one
     * redefines `from` or `to`; the answer says whether none did.
     */
    method LocalPass(blk: nat, p: nat, from: Node, to: Node) returns (global: bool)
      requires Valid() && blk < f.g.n && p < |f.code[blk]|
      modifies f, this`tables
      ensures Valid() && SameShape(old(f.code), f.code)
      ensures Step(global, Snapshot()) == Sweep(old(Snapshot()), cur, blk, p + 1, from, to)
      ensures global <==> forall j | p < j < |old(f.code[blk])| :: !Kills(old(f.code[blk][j]), from, to)
      ensures old(Current()).None? ==> tables == old(tables)
      ensures forall c | 0 <= c < |tables| && c != cur :: tables[c] == old(tables[c])
      ensures KeepsSome(old(tables), tables)
    {
      SweepGlobal(Snapshot(), cur, blk, p + 1, from, to);
      SweepKeepsSome(Snapshot(), cur, blk, p + 1, from, to);
      global := SweepFrom(blk, p + 1, from, to);
    }

    /** The loop of `LocalPass`, from position `k` on. */
    method SweepFrom(blk: nat, k: nat, from: Node, to: Node) returns (global: bool)
      requires Valid() && blk < f.g.n && k <= |f.code[blk]|
      modifies f, this`tables
      ensures Valid() && Step(global, Snapshot()) == Sweep(old(Snapshot()), cur, blk, k, from, to)
    {
      ghost var goal := Sweep(Snapshot(), cur, blk, k, from, to);
      global := true;
      var q := k;
      while q < |f.code[blk]|
        invariant Valid() && k <= q <= |f.code[blk]|
        invariant Sweep(Snapshot(), cur, blk, q, from, to) == goal
        decreases |f.code[blk]| - q
      {
        var ok := RewriteInstr(blk, q, from, to);
        if !ok {
          global := false;
          return;
        }
        q := q + 1;
      }
    }

    /** `checked` marks exactly the blocks of the sub-CFG, each listed once. */
    predicate SubTreeOk()
      reads this, checked
    {
      && checked.Length == f.g.n
      && NoDup(subTree)
      && (forall k | 0 <= k < |subTree| :: subTree[k] < f.g.n)
      && (forall b | 0 <= b < f.g.n :: checked[b] <==> b in subTree)
    }

    ghost function Unchecked(): set<nat>
      reads this, checked
    {
      set b | 0 <= b < checked.Length && !checked[b]
    }

    /** Every block of the sub-CFG other than `root` and those in `pending` has its predecessors in it. */
    predicate PredClosed(root: nat, pending: seq<nat>)
      reads this, checked
      requires f.g.Valid() && checked.Length == f.g.n
    {
      forall b | b in subTree && b < f.g.n && b != root && b !in pending ::
        forall p | p in f.g.preds[b] :: p < f.g.n && checked[p]
    }

    /** Block `x` joins the sub-CFG: `subTree.add(x)` and `checked[x] = true`. */
    method Mark(x: nat)
      requires Valid() && x < f.g.n && SubTreeOk() && !checked[x]
      modifies this`subTree, checked
      ensures Valid() && SubTreeOk() && checked == old(checked)
      ensures subTree == old(subTree) + [x]
      ensures forall b | 0 <= b < f.g.n :: checked[b] == (old(checked[b]) || b == x)
      ensures x in old(Unchecked()) && Unchecked() == old(Unchecked()) - {x}
    {
      assert x !in subTree;
      subTree := subTree + [x];
      checked[x] := true;
    }

    /** `addBlk(e)`: the predecessors of `e`, transitively, short of `e` itself. */
    method AddBlk(e: nat, ghost root: nat)
      requires Valid() && e < f.g.n && SubTreeOk() && checked[e]
      requires PredClosed(root, [e])
      modifies this`subTree, checked
      ensures Valid() && SubTreeOk() && checked == old(checked)
      ensures old(subTree) <= subTree
      ensures forall b | 0 <= b < f.g.n && old(checked[b]) :: checked[b]
      ensures Unchecked() <= old(Unchecked())
      ensures PredClosed(root, [])
    {
      var stack: seq<nat> := [e];
      while stack != []
        invariant Valid() && SubTreeOk() && checked == old(checked)
        invariant old(subTree) <= subTree
        invariant forall b | 0 <= b < f.g.n && old(checked[b]) :: checked[b]
        invariant Unchecked() <= old(Unchecked())
        invariant NoDup(stack) && forall k | 0 <= k < |stack| :: stack[k] < f.g.n && checked[stack[k]]
        invariant PredClosed(root, stack)
        decreases Unchecked(), |stack|
      {
        var blk := stack[|stack| - 1];
        assert stack == stack[..|stack| - 1] + [blk];
        stack := stack[..|stack| - 1];
        assert blk !in stack;
        stack := PushPreds(blk, e, stack, root);
      }
    }

    /** The inner loop of `addBlk`: each predecessor of `blk` not yet in the sub-CFG, other than `e`, joins it and is pushed. */
    method PushPreds(blk: nat, e: nat, stack: seq<nat>, ghost root: nat) returns (stack': seq<nat>)
      requires Valid() && SubTreeOk() && blk < f.g.n && checked[blk] && blk !in stack
      requires e < f.g.n && checked[e]
      requires NoDup(stack) && forall k | 0 <= k < |stack| :: stack[k] < f.g.n && checked[stack[k]]
      requires PredClosed(root, stack + [blk])
      modifies this`subTree, checked
      ensures Valid() && SubTreeOk() && checked == old(checked)
      ensures old(subTree) <= subTree
      ensures forall b | 0 <= b < f.g.n && old(checked[b]) :: checked[b]
      ensures stack <= stack' && NoDup(stack') && forall k | 0 <= k < |stack'| :: stack'[k] < f.g.n && checked[stack'[k]]
      ensures PredClosed(root, stack')
      ensures Unchecked() <= old(Unchecked()) && (Unchecked() == old(Unchecked()) ==> stack' == stack)
    {
      stack' := stack;
      var ps := f.g.preds[blk];
      IdsBelowAt(f.g.preds, f.g.n, blk);
      var j := 0;
      while j < |ps|
        invariant Valid() && SubTreeOk() && checked == old(checked)
        invariant old(subTree) <= subTree
        invariant forall b | 0 <= b < f.g.n && old(checked[b]) :: checked[b]
        invariant j <= |ps|
        invariant stack <= stack' && NoDup(stack') && forall k | 0 <= k < |stack'| :: stack'[k] < f.g.n && checked[stack'[k]]
        invariant blk !in stack' && checked[e]
        invariant PredClosed(root, stack' + [blk])
        invariant forall k | 0 <= k < j :: checked[ps[k]]
        invariant Unchecked() <= old(Unchecked()) && (Unchecked() == old(Unchecked()) ==> stack' == stack)
      {
        var pred := ps[j];
        if pred != e && !checked[pred] {
          Mark(pred);
          stack' := stack' + [pred];
        }
        j := j + 1;
      }
      assert forall b | b !in stack' :: b !in stack' + [blk] || b == blk;
    }

    /** A dominator-tree kid not yet in the sub-CFG joins it, with its predecessors. */
    method TakeKid(kid: nat, ghost root: nat)
      requires Valid() && kid < f.g.n && SubTreeOk() && !checked[kid]
      requires PredClosed(root, [])
      modifies this`subTree, checked
      ensures Valid() && SubTreeOk() && checked == old(checked)
      ensures old(subTree) <= subTree && checked[kid]
      ensures forall b | 0 <= b < f.g.n && old(checked[b]) :: checked[b]
      ensures Unchecked() < old(Unchecked())
      ensures PredClosed(root, [])
    {
      Mark(kid);
      AddBlk(kid, root);
    }

    /**
     * `createSubTree(blk)`: the sub-CFG walked by the data-flow version,
     * `blk`, its dominator-tree kids, and everything `addBlk` adds; no
     * block is added twice.
     */
    method CreateSubTree(blk: nat)
      requires Valid() && blk < f.g.n
      modifies this`subTree, this`checked
      ensures Valid() && SubTreeOk() && fresh(checked)
      ensures |subTree| > 0 && subTree[0] == blk
      ensures PredClosed(blk, [])
      ensures forall c | c in f.g.domKids[blk] :: c in subTree
    {
      StartSubTree(blk);
      var stack: seq<nat> := [blk];
      while stack != []
        invariant Valid() && SubTreeOk() && fresh(checked)
        invariant |subTree| > 0 && subTree[0] == blk
        invariant NoDup(stack) && forall k | 0 <= k < |stack| :: stack[k] < f.g.n && checked[stack[k]]
        invariant forall k | 0 < k < |stack| :: stack[k] != blk
        invariant PredClosed(blk, [])
        invariant blk in stack || forall c | c in f.g.domKids[blk] :: checked[c]
        decreases Unchecked(), |stack|
      {
        var b := stack[|stack| - 1];
        assert b == blk ==> |stack| == 1;
        stack := stack[..|stack| - 1];
        if !checked[b] {
          assert false;
        }
        stack := PushKids(b, stack, blk);
      }
    }

    /** The sub-CFG holds `blk` alone, and `checked` is a fresh array marking it. */
    method StartSubTree(blk: nat)
      requires Valid() && blk < f.g.n
      modifies this`subTree, this`checked
      ensures Valid() && SubTreeOk() && fresh(checked)
      ensures subTree == [blk] && checked[blk]
      ensures PredClosed(blk, [])
    {
      subTree := [blk];
      checked := new bool[f.g.n](_ => false);
      checked[blk] := true;
    }

    /** The inner loop of `createSubTree`: each dominator-tree kid of `b` not yet in the sub-CFG joins it and is pushed. */
    method PushKids(b: nat, stack: seq<nat>, root: nat) returns (stack': seq<nat>)
      requires Valid() && SubTreeOk() && b < f.g.n && root < f.g.n && checked[root]
      requires NoDup(stack) && forall k | 0 <= k < |stack| :: stack[k] < f.g.n && checked[stack[k]]
      requires PredClosed(root, [])
      modifies this`subTree, checked
      ensures Valid() && SubTreeOk() && old(subTree) <= subTree
      ensures forall x | 0 <= x < f.g.n && old(checked[x]) :: checked[x]
      ensures stack <= stack' && NoDup(stack') && forall k | 0 <= k < |stack'| :: stack'[k] < f.g.n && checked[stack'[k]]
      ensures forall k | |stack| <= k < |stack'| :: stack'[k] != root
      ensures PredClosed(root, [])
      ensures forall c | c in f.g.domKids[b] :: checked[c]
      ensures Unchecked() <= old(Unchecked()) && (Unchecked() == old(Unchecked()) ==> stack' == stack)
    {
      stack' := stack;
      var kids := f.g.domKids[b];
      IdsBelowAt(f.g.domKids, f.g.n, b);
      var j := 0;
      while j < |kids|
        invariant Valid() && SubTreeOk() && old(subTree) <= subTree
        invariant forall x | 0 <= x < f.g.n && old(checked[x]) :: checked[x]
        invariant j <= |kids|
        invariant stack <= stack' && NoDup(stack') && forall k | 0 <= k < |stack'| :: stack'[k] < f.g.n && checked[stack'[k]]
        invariant forall k | |stack| <= k < |stack'| :: stack'[k] != root
        invariant PredClosed(root, [])
        invariant forall k | 0 <= k < j :: checked[kids[k]]
        invariant Unchecked() <= old(Unchecked()) && (Unchecked() == old(Unchecked()) ==> stack' == stack)
      {
        var kid := kids[j];
        if !checked[kid] {
          TakeKid(kid, root);
          stack' := stack' + [kid];
        }
        j := j + 1;
      }
      assert forall c | c in kids :: checked[c];
    }

    /**
     * `compLocalProp(checkBlk, from, to)`: every sub-CFG block other than
     * `checkBlk` gets its use list, and `kill` is set for those that
     * redefine `from` or `to`.
     */
    method CompLocalProp(checkBlk: nat, from: Node, to: Node)
      requires Valid() && forall k | 0 <= k < |subTree| :: subTree[k] < f.g.n
      modifies this`useLists, kill
      ensures Valid()
      ensures forall k | 0 <= k < |subTree| && subTree[k] != checkBlk ::
        var b := subTree[k];
        && b in useLists && useLists[b] == LocalScan(f.code[b], from, to).uses
        && kill[b] == (old(kill[b]) || LocalScan(f.code[b], from, to).kills)
      ensures forall b | 0 <= b < f.g.n && (b !in subTree || b == checkBlk) :: kill[b] == old(kill[b])
      ensures forall b | b in old(useLists) :: b in useLists
      ensures forall b | b in useLists ::
        (b in subTree && b != checkBlk) || (b in old(useLists) && useLists[b] == old(useLists)[b])
    {
      var t := 0;
      ghost var seen: set<nat> := {};
      ghost var ul0, k0 := useLists, kill[..];
      while t < |subTree|
        invariant Valid() && PropDone(f.code, subTree, t, seen, checkBlk, from, to, ul0, useLists, k0, kill[..])
      {
        var blk := subTree[t];
        ghost var ul1, k1 := useLists, kill[..];
        if blk != checkBlk {
          LocalPropBlk(blk, from, to);
        }
        PropDoneStep(f.code, subTree, t, seen, checkBlk, from, to, ul0, ul1, useLists, k0, k1, kill[..]);
        seen := seen + {blk};
        t := t + 1;
      }
    }

    /** One block of `compLocalProp`: its use list, and `kill` set when it redefines. */
    method LocalPropBlk(blk: nat, from: Node, to: Node)
      requires Valid() && blk < f.g.n
      modifies this`useLists, kill
      ensures Valid()
      ensures useLists == old(useLists)[blk := LocalScan(f.code[blk], from, to).uses]
      ensures kill[..] == old(kill[..])[blk := old(kill[blk]) || LocalScan(f.code[blk], from, to).kills]
    {
      var s := ScanBlock(f.code[blk], from, to);
      if s.kills {
        kill[blk] := true;
      }
      useLists := useLists[blk := s.uses];
    }

    /** Every predecessor of `b` has the copy available on exit. */
    predicate PredsAvail(b: nat)
      reads this, xAvail
    {
      b < |f.g.preds| && forall p | p in f.g.preds[b] :: p < xAvail.Length && xAvail[p]
    }

    /** The availability equations of the sub-CFG. */
    predicate AvailEquations()
      reads this, nAvail, xAvail, kill
    {
      forall b | 0 <= b < f.g.n && b in subTree && b < nAvail.Length && b < xAvail.Length && b < kill.Length ::
        nAvail[b] == PredsAvail(b) && xAvail[b] == (nAvail[b] && !kill[b])
    }

    /**
     * The arrays lie above what one more round of the equations would give,
     * as they do from the all-true start, so every update lowers them.
     */
    predicate Descending()
      reads this, nAvail, xAvail, kill
    {
      forall b | 0 <= b < f.g.n && b in subTree && b < nAvail.Length && b < xAvail.Length && b < kill.Length ::
        (PredsAvail(b) ==> nAvail[b]) && (nAvail[b] && !kill[b] ==> xAvail[b])
    }

    ghost function NSet(): set<nat>
      reads this, nAvail
    {
      set b | 0 <= b < nAvail.Length && nAvail[b]
    }

    ghost function XSet(): set<nat>
      reads this, xAvail
    {
      set b | 0 <= b < xAvail.Length && xAvail[b]
    }

    /** The inner loop of `compAvail`: whether every predecessor of `blk` has the copy available on exit. */
    method AllPredsAvail(blk: nat) returns (n: bool)
      requires Valid() && blk < f.g.n
      ensures n == PredsAvail(blk)
    {
      var ps := f.g.preds[blk];
      IdsBelowAt(f.g.preds, f.g.n, blk);
      n := true;
      var j := 0;
      while j < |ps|
        invariant j <= |ps| && forall k | 0 <= k < j :: xAvail[ps[k]]
      {
        if !xAvail[ps[j]] {
          n := false;
          return;
        }
        j := j + 1;
      }
    }

    /**
     * `compAvail()`: rounds over the sub-CFG until one changes nothing; the
     * arrays then satisfy the availability equations on every sub-CFG block.
     */
    method CompAvail()
      requires Valid() && Descending()
      modifies nAvail, xAvail
      ensures Valid() && AvailEquations() && Descending()
      ensures forall b | 0 <= b < f.g.n && b !in subTree :: nAvail[b] == old(nAvail[b]) && xAvail[b] == old(xAvail[b])
    {
      var change := true;
      while change
        invariant Valid() && Descending()
        invariant !change ==> AvailEquations()
        invariant forall b | 0 <= b < f.g.n && b !in subTree :: nAvail[b] == old(nAvail[b]) && xAvail[b] == old(xAvail[b])
        decreases NSet(), XSet(), if change then 1 else 0
      {
        change := false;
        ghost var n0, x0 := NSet(), XSet();
        var t := 0;
        while t < |subTree|
          invariant Valid() && Descending() && t <= |subTree|
          invariant NSet() <= n0 && XSet() <= x0
          invariant !change ==> NSet() == n0 && XSet() == x0
          invariant change ==> NSet() < n0 || XSet() < x0
          invariant !change ==> forall k | 0 <= k < t && subTree[k] < f.g.n ::
            var b := subTree[k];
            nAvail[b] == PredsAvail(b) && xAvail[b] == (nAvail[b] && !kill[b])
          invariant forall b | 0 <= b < f.g.n && b !in subTree :: nAvail[b] == old(nAvail[b]) && xAvail[b] == old(xAvail[b])
        {
          var blk := subTree[t];
          if blk < f.g.n {
            var n := AllPredsAvail(blk);
            var x := n && !kill[blk];
            if nAvail[blk] != n || xAvail[blk] != x {
              Lower(blk, n, x);
              change := true;
            }
          }
          t := t + 1;
        }
      }
    }

    /** One update of `compAvail`: both entries of `blk` drop to the values of one more round. */
    method Lower(blk: nat, n: bool, x: bool)
      requires Valid() && Descending() && blk < f.g.n && blk in subTree
      requires n == PredsAvail(blk) && x == (n && !kill[blk])
      requires nAvail[blk] != n || xAvail[blk] != x
      modifies nAvail, xAvail
      ensures Valid() && Descending()
      ensures nAvail[blk] == n && xAvail[blk] == x
      ensures forall b | 0 <= b < f.g.n && b != blk :: nAvail[b] == old(nAvail[b]) && xAvail[b] == old(xAvail[b])
      ensures NSet() <= old(NSet()) && XSet() <= old(XSet())
      ensures NSet() < old(NSet()) || XSet() < old(XSet())
    {
      ghost var oldN, oldX := NSet(), XSet();
      xAvail[blk] := x;
      nAvail[blk] := n;
      if old(nAvail[blk]) != n {
        assert NSet() == oldN - {blk};
      } else {
        assert NSet() == oldN;
      }
      if old(xAvail[blk]) != x {
        assert XSet() == oldX - {blk};
      } else {
        assert XSet() == oldX;
      }
    }

    /** The loop over one use list in `change(from, to)`: `cpyp` on each listed position of `blk`. */
    method ApplyUseList(blk: nat, from: Node, to: Node)
      requires Valid() && UsesIn(useLists, f.code) && blk in useLists
      modifies f, this`tables
      ensures Valid() && SameShape(old(f.code), f.code) && UsesIn(useLists, f.code)
      ensures Snapshot() == ApplyUses(old(Snapshot()), cur, blk, useLists[blk], 0, from, to)
    {
      var uses := useLists[blk];
      var j := 0;
      while j < |uses|
        invariant Valid() && SameShape(old(f.code), f.code) && UsesIn(useLists, f.code) && j <= |uses|
        invariant ApplyUses(Snapshot(), cur, blk, uses, j, from, to) == ApplyUses(old(Snapshot()), cur, blk, uses, 0, from, to)
      {
        var _ := RewriteInstr(blk, uses[j], from, to);
        j := j + 1;
      }
    }

    /**
     * `change(from, to)` of the data-flow version: the recorded uses of
     * every sub-CFG block where the copy is available on entry are
     * rewritten, block by block in sub-CFG order.
     */
    method Change(from: Node, to: Node)
      requires Valid() && UsesIn(useLists, f.code)
      requires forall k | 0 <= k < |subTree| :: subTree[k] < f.g.n
      modifies f, this`tables
      ensures Valid() && SameShape(old(f.code), f.code)
      ensures Snapshot() == ChangeFrom(old(Snapshot()), cur, subTree, 0, nAvail[..], useLists, from, to)
    {
      var t := 0;
      while t < |subTree|
        invariant Valid() && SameShape(old(f.code), f.code) && UsesIn(useLists, f.code) && t <= |subTree|
        invariant ChangeFrom(Snapshot(), cur, subTree, t, nAvail[..], useLists, from, to)
          == ChangeFrom(old(Snapshot()), cur, subTree, 0, nAvail[..], useLists, from, to)
      {
        var blk := subTree[t];
        if nAvail[blk] && blk in useLists {
          ApplyUseList(blk, from, to);
        }
        t := t + 1;
      }
    }

    /**
     * The first steps of `doItByDataFlowEquation`: fresh use lists and
     * `kill`, the sub-CFG and the local properties of its blocks other
     * than `blk`.
     */
    method Locals(blk: nat, from: Node, to: Node)
      requires Valid() && blk < f.g.n
      modifies this`useLists, this`kill, this`subTree, this`checked
      ensures Valid() && fresh(kill)
      ensures SubTreeOk() && |subTree| > 0 && subTree[0] == blk && PredClosed(blk, [])
      ensures forall c | c in f.g.domKids[blk] :: c in subTree
      ensures forall k | 0 <= k < |subTree| && subTree[k] != blk ::
        var b := subTree[k];
        && b in useLists && useLists[b] == LocalScan(f.code[b], from, to).uses
        && kill[b] == LocalScan(f.code[b], from, to).kills
      ensures !kill[blk]
      ensures forall b | b in useLists :: b in subTree && b != blk
      ensures UsesIn(useLists, f.code)
    {
      useLists := map[];
      kill := new bool[f.g.n](_ => false);
      CreateSubTree(blk);
      CompLocalProp(blk, from, to);
      ScannedUsesIn(f.code, subTree, useLists, blk, from, to);
    }

    /**
     * The analysis half of `doItByDataFlowEquation`: fresh per-query
     * arrays, the sub-CFG, its local properties and availability; the
     * function is not touched.
     */
    method Analyse(blk: nat, from: Node, to: Node)
      requires Valid() && blk < f.g.n
      modifies this
      ensures Valid() && f.code == old(f.code) && tables == old(tables) && cur == old(cur)
      ensures shared == old(shared)
      ensures SubTreeOk() && |subTree| > 0 && subTree[0] == blk && PredClosed(blk, [])
      ensures forall c | c in f.g.domKids[blk] :: c in subTree
      ensures AvailEquations()
      ensures forall k | 0 <= k < |subTree| && subTree[k] != blk ::
        var b := subTree[k];
        && b in useLists && useLists[b] == LocalScan(f.code[b], from, to).uses
        && kill[b] == LocalScan(f.code[b], from, to).kills
      ensures !kill[blk]
      ensures forall b | b in useLists :: b in subTree && b != blk
      ensures UsesIn(useLists, f.code)
    {
      Locals(blk, from, to);
      nAvail := new bool[f.g.n](_ => true);
      xAvail := new bool[f.g.n](_ => true);
      CompAvail();
    }

    /**
     * `doItByDataFlowEquation(blk, from, to)`: the sub-CFG below the copy's
     * block, the local properties of its other blocks, availability as the
     * fixed point of its equations, and the rewrite of the recorded uses
     * where the copy is available on entry.
     */
    method DoItByDataFlowEquation(blk: nat, from: Node, to: Node)
      requires Valid() && blk < f.g.n
      modifies this, f
      ensures Valid() && SameShape(old(f.code), f.code) && |tables| == |old(tables)|
      ensures shared == old(shared)
      ensures SubTreeOk() && |subTree| > 0 && subTree[0] == blk && PredClosed(blk, [])
      ensures forall c | c in f.g.domKids[blk] :: c in subTree
      ensures AvailEquations()
      ensures forall k | 0 <= k < |subTree| && subTree[k] != blk ::
        var b := subTree[k];
        && b in useLists && useLists[b] == LocalScan(old(f.code[b]), from, to).uses
        && kill[b] == LocalScan(old(f.code[b]), from, to).kills
      ensures !kill[blk]
      ensures forall b, i | 0 <= b < f.g.n && 0 <= i < |f.code[b]| && f.code[b][i] != old(f.code[b][i]) ::
        b in subTree && b != blk && nAvail[b] && b in useLists && i in useLists[b]
      ensures cur == old(cur) && UsesIn(useLists, old(f.code))
      ensures Snapshot() == ChangeFrom(old(Snapshot()), cur, subTree, 0, nAvail[..], useLists, from, to)
    {
      Analyse(blk, from, to);
      ghost var st := Snapshot();
      Change(from, to);
      forall b, i | 0 <= b < f.g.n && 0 <= i < |f.code[b]| && f.code[b][i] != st.code[b][i]
        ensures b in subTree && b != blk && nAvail[b] && b in useLists && i in useLists[b]
      {
        ChangeOnly(st, cur, subTree, 0, nAvail[..], useLists, from, to, b, i);
      }
    }

    /** The blocks not visited yet. */
    ghost function Unvisited(visited: array<bool>): set<nat>
      reads visited
    {
      set b | 0 <= b < visited.Length && !visited[b]
    }

    /** The instruction loop of `checkTransp`: whether no instruction of `blk` redefines `from` or `to`. */
    method BlockTransparent(blk: nat, from: Node, to: Node) returns (t: bool)
      requires Valid() && blk < f.g.n
      ensures t == Transparent(f.code[blk], from, to)
    {
      var instrs := f.code[blk];
      var q := 0;
      while q < |instrs|
        invariant q <= |instrs| && forall i | 0 <= i < q :: !Kills(instrs[i], from, to)
      {
        if Kills(instrs[q], from, to) {
          return false;
        }
        q := q + 1;
      }
      return true;
    }

    /**
     * `checkTransp(blk, dst, from, to, visited)`: marks `blk` and searches
     * on through its unvisited successors other than `dst`. A true answer
     * means every block it marked is free of redefinitions and has all its
     * successors marked or equal to `dst`; a false one, that it marked a
     * block with a redefinition.
     */
    method CheckTranspFrom(blk: nat, dst: nat, from: Node, to: Node, visited: array<bool>) returns (r: bool)
      requires Valid() && blk < f.g.n && visited.Length == f.g.n && !visited[blk]
      modifies visited
      ensures visited[blk]
      ensures forall b | 0 <= b < f.g.n && old(visited[b]) :: visited[b]
      ensures r ==> forall b | 0 <= b < f.g.n && visited[b] && !old(visited[b]) ::
        Transparent(f.code[b], from, to) && forall s | s in f.g.succs[b] :: s == dst || (s < f.g.n && visited[s])
      ensures !r ==> exists b | 0 <= b < f.g.n && visited[b] && !old(visited[b]) :: !Transparent(f.code[b], from, to)
      decreases Unvisited(visited)
    {
      visited[blk] := true;
      var t := BlockTransparent(blk, from, to);
      if !t {
        return false;
      }
      var ss := f.g.succs[blk];
      IdsBelowAt(f.g.succs, f.g.n, blk);
      var j := 0;
      while j < |ss|
        invariant j <= |ss| && visited[blk]
        invariant forall b | 0 <= b < f.g.n && old(visited[b]) :: visited[b]
        invariant Unvisited(visited) <= old(Unvisited(visited)) - {blk}
        invariant forall b | 0 <= b < f.g.n && visited[b] && !old(visited[b]) :: Transparent(f.code[b], from, to)
        invariant forall b | 0 <= b < f.g.n && visited[b] && !old(visited[b]) && b != blk ::
          forall s | s in f.g.succs[b] :: s == dst || (s < f.g.n && visited[s])
        invariant forall k | 0 <= k < j :: ss[k] == dst || visited[ss[k]]
      {
        var succ := ss[j];
        if succ != dst && !visited[succ] {
          var rec := CheckTranspFrom(succ, dst, from, to, visited);
          if !rec {
            return false;
          }
        }
        j := j + 1;
      }
      return true;
    }

    /**
     * `checkTransp(top, kid, from, to)`: the search from every successor of
     * `top` other than `kid`, with a fresh `visited` array. A true answer
     * means a region closed under successors short of `kid` and free of
     * redefinitions holds every such successor.
     */
    method CheckTransp(top: nat, kid: nat, from: Node, to: Node) returns (r: bool)
      requires Valid() && top < f.g.n
      ensures r ==> exists V: set<nat> :: TranspRegion(f.g, f.code, top, kid, V, from, to)
      ensures !r ==> exists b | 0 <= b < f.g.n :: !Transparent(f.code[b], from, to)
    {
      var visited := new bool[f.g.n](_ => false);
      var ss := f.g.succs[top];
      IdsBelowAt(f.g.succs, f.g.n, top);
      var j := 0;
      while j < |ss|
        invariant j <= |ss|
        invariant forall b | 0 <= b < f.g.n && visited[b] ::
          Transparent(f.code[b], from, to) && forall s | s in f.g.succs[b] :: s == kid || (s < f.g.n && visited[s])
        invariant forall k | 0 <= k < j :: ss[k] == kid || visited[ss[k]]
      {
        var succ := ss[j];
        if succ != kid && !visited[succ] {
          var rec := CheckTranspFrom(succ, kid, from, to, visited);
          if !rec {
            return false;
          }
        }
        j := j + 1;
      }
      ghost var V := set b | 0 <= b < f.g.n && visited[b];
      assert forall s | s in ss :: s == kid || s in V;
      assert TranspRegion(f.g, f.code, top, kid, V, from, to);
      return true;
    }

    /** The instruction loop of `qp` over one dominator-tree kid. */
    method ScanQp(kid: nat, from: Node, to: Node) returns (uses: seq<nat>, killed: bool)
      requires Valid() && kid < f.g.n
      ensures Scan(uses, killed) == QpScan(f.code[kid], 0, from, to)
    {
      var instrs := f.code[kid];
      uses := [];
      killed := false;
      var q := 0;
      while q < |instrs|
        invariant q <= |instrs| && !killed
        invariant QpScan(instrs, 0, from, to) ==
          Scan(uses + QpScan(instrs, q, from, to).uses, QpScan(instrs, q, from, to).kills)
      {
        ghost var before := uses;
        ghost var rest := QpScan(instrs, q + 1, from, to);
        ghost var head: seq<nat> := if CheckUse(instrs[q], from) then [q] else [];
        QpScanAt(instrs, q, from, to);
        if CheckUse(instrs[q], from) {
          uses := uses + [q];
        }
        assert uses == before + head;
        if Kills(instrs[q], from, to) {
          killed := true;
          return;
        }
        assert QpScan(instrs, q, from, to).uses == head + rest.uses;
        AppendAssoc(before, head, rest.uses);
        q := q + 1;
      }
      assert uses + QpScan(instrs, q, from, to).uses == uses;
    }

    /**
     * `qp(top, blk, from, to)`: for each dominator-tree kid of `blk` in
     * turn, checks that no path from `blk` avoiding the kid redefines
     * `from` or `to`, records the kid's uses up to its first redefinition,
     * and goes down into the kid; it answers false at the first failed
     * check or redefinition, and stops early, answering true, when a
     * deeper call answered false. Every block it records is strictly
     * dominated by `blk`, and its use list is the kid scan's.
     */
    method Qp(top: nat, blk: nat, from: Node, to: Node) returns (r: bool)
      requires Valid() && blk < f.g.n && UsesIn(useLists, f.code)
      modifies this`useLists
      ensures Valid() && UsesIn(useLists, f.code)
      ensures forall b | b in old(useLists) :: b in useLists
      ensures forall b | b in useLists ::
        || (b in old(useLists) && useLists[b] == old(useLists)[b])
        || (b < f.g.n && b != blk && f.g.Dominates(blk, b) && useLists[b] == QpScan(f.code[b], 0, from, to).uses)
      decreases f.g.n - f.g.domDepth[blk]
    {
      var kids := f.g.domKids[blk];
      IdsBelowAt(f.g.domKids, f.g.n, blk);
      var j := 0;
      while j < |kids|
        invariant j <= |kids| && Valid() && UsesIn(useLists, f.code)
        invariant forall b | b in old(useLists) :: b in useLists
        invariant forall b | b in useLists ::
          || (b in old(useLists) && useLists[b] == old(useLists)[b])
          || (b < f.g.n && b != blk && f.g.Dominates(blk, b) && useLists[b] == QpScan(f.code[b], 0, from, to).uses)
      {
        var kid := kids[j];
        assert kid in f.g.domKids[blk];
        assert f.g.idom[kid] == blk && f.g.domDepth[blk] < f.g.domDepth[kid] && f.g.Dominates(blk, kid);
        var t := CheckTransp(blk, kid, from, to);
        if !t {
          return false;
        }
        var uses, killed := ScanQp(kid, from, to);
        useLists := useLists[kid := uses];
        if killed {
          return false;
        }
        ghost var mid := useLists;
        var more := Qp(top, kid, from, to);
        forall b | b in useLists && !(b in mid && useLists[b] == mid[b])
          ensures b < f.g.n && b != blk && f.g.Dominates(blk, b) && useLists[b] == QpScan(f.code[b], 0, from, to).uses
        {
          DominatesIdom(f.g, kid, b);
          DominatesDepth(f.g, kid, b);
        }
        if !more {
          break;
        }
        j := j + 1;
      }
      return true;
    }

    /**
     * The successor loop of the question-propagation `change(blk)`: with
     * the PRE driver's tables, each successor's tables become current;
     * successors with `result` or `kill` set are pushed and their recorded
     * uses rewritten.
     */
    method VisitSuccs(b: nat, stack: seq<nat>, from: Node, to: Node) returns (stack': seq<nat>)
      requires Valid() && b < f.g.n && UsesIn(useLists, f.code)
      modifies f, this`tables, this`cur
      ensures Valid() && SameShape(old(f.code), f.code) && UsesIn(useLists, f.code) && |tables| == |old(tables)|
      ensures stack <= stack' && forall k | |stack| <= k < |stack'| :: stack'[k] < f.g.n
      ensures forall c, i | 0 <= c < f.g.n && 0 <= i < |f.code[c]| && f.code[c][i] != old(f.code[c][i]) ::
        (result[c] || kill[c]) && c in useLists && i in useLists[c]
      ensures tables == old(tables) || exists c | 0 <= c < f.g.n :: (result[c] || kill[c]) && c in useLists
    {
      stack' := stack;
      var ss := f.g.succs[b];
      IdsBelowAt(f.g.succs, f.g.n, b);
      var j := 0;
      while j < |ss|
        invariant j <= |ss|
        invariant Valid() && SameShape(old(f.code), f.code) && UsesIn(useLists, f.code) && |tables| == |old(tables)|
        invariant stack <= stack' && forall k | |stack| <= k < |stack'| :: stack'[k] < f.g.n
        invariant forall c, i | 0 <= c < f.g.n && 0 <= i < |f.code[c]| && f.code[c][i] != old(f.code[c][i]) ::
          (result[c] || kill[c]) && c in useLists && i in useLists[c]
        invariant tables == old(tables) || exists c | 0 <= c < f.g.n :: (result[c] || kill[c]) && c in useLists
      {
        var succ := ss[j];
        if shared {
          SetMap(succ);
        }
        if result[succ] || kill[succ] {
          stack' := stack' + [succ];
          ghost var mid := f.code;
          Pushed(succ, from, to);
          forall c, i | 0 <= c < f.g.n && 0 <= i < |f.code[c]| && f.code[c][i] != old(f.code[c][i])
            ensures (result[c] || kill[c]) && c in useLists && i in useLists[c]
          {
            if f.code[c][i] != mid[c][i] {
              assert c == succ;
            }
          }
        }
        j := j + 1;
      }
    }

    /** A pushed successor: its recorded uses, if any, are rewritten, and nothing else. */
    method Pushed(succ: nat, from: Node, to: Node)
      requires Valid() && succ < f.g.n && UsesIn(useLists, f.code)
      modifies f, this`tables
      ensures Valid() && SameShape(old(f.code), f.code) && UsesIn(useLists, f.code) && |tables| == |old(tables)|
      ensures forall c, i | 0 <= c < f.g.n && 0 <= i < |f.code[c]| && f.code[c][i] != old(f.code[c][i]) ::
        c == succ && c in useLists && i in useLists[c]
      ensures tables == old(tables) || succ in useLists
    {
      if succ in useLists {
        ghost var st := Snapshot();
        ApplyUseList(succ, from, to);
        forall c, i | 0 <= c < f.g.n && 0 <= i < |f.code[c]| && f.code[c][i] != old(f.code[c][i])
          ensures c == succ && c in useLists && i in useLists[c]
        {
          ApplyUsesOnly(st, cur, succ, useLists[succ], 0, from, to, c, i);
        }
      }
    }

    /**
     * `change(blk, from, to)` of question propagation: a walk from `blk`
     * over successors, through blocks with `result` set, each at most
     * once; it rewrites recorded uses only in blocks with `result` or
     * `kill` set.
     */
    method ChangeQp(blk: nat, from: Node, to: Node)
      requires Valid() && blk < f.g.n && UsesIn(useLists, f.code)
      modifies f, this`tables, this`cur
      ensures Valid() && SameShape(old(f.code), f.code) && |tables| == |old(tables)|
      ensures forall b, i | 0 <= b < f.g.n && 0 <= i < |f.code[b]| && f.code[b][i] != old(f.code[b][i]) ::
        (result[b] || kill[b]) && b in useLists && i in useLists[b]
      ensures tables == old(tables) || exists c | 0 <= c < f.g.n :: (result[c] || kill[c]) && c in useLists
    {
      var popped := new bool[f.g.n](_ => false);
      var stack: seq<nat> := [blk];
      while stack != []
        invariant Valid() && SameShape(old(f.code), f.code) && UsesIn(useLists, f.code) && |tables| == |old(tables)|
        invariant popped.Length == f.g.n && forall k | 0 <= k < |stack| :: stack[k] < f.g.n
        invariant forall b, i | 0 <= b < f.g.n && 0 <= i < |f.code[b]| && f.code[b][i] != old(f.code[b][i]) ::
          (result[b] || kill[b]) && b in useLists && i in useLists[b]
        invariant tables == old(tables) || exists c | 0 <= c < f.g.n :: (result[c] || kill[c]) && c in useLists
        decreases Unvisited(popped), |stack|
      {
        var b := stack[|stack| - 1];
        stack := stack[..|stack| - 1];
        if result[b] && !popped[b] {
          ghost var before := Unvisited(popped);
          popped[b] := true;
          assert Unvisited(popped) == before - {b} && b in before;
          stack := VisitSuccs(b, stack, from, to);
          assert Unvisited(popped) < before;
        }
      }
    }

    /**
     * `doItByQuestionPropagation(blk, from, to)`: fresh use lists and
     * arrays, `result` set for `blk` alone, `qp`, then `change`. Since
     * neither `qp` nor anything else sets `result` or `kill` for another
     * block, and `blk` itself has no use list, the function is left as it
     * was.
     */
    method DoItByQuestionPropagation(blk: nat, from: Node, to: Node)
      requires Valid() && blk < f.g.n
      modifies this, f
      ensures Valid() && f.code == old(f.code) && tables == old(tables)
      ensures shared == old(shared)
      ensures forall b | b in useLists ::
        b < f.g.n && b != blk && f.g.Dominates(blk, b) && useLists[b] == QpScan(f.code[b], 0, from, to).uses
    {
      StartQuestion(blk);
      var _ := Qp(blk, blk, from, to);
      ChangeQp(blk, from, to);
      SameCode(old(f.code), f.code);
      assert forall c | 0 <= c < f.g.n && (result[c] || kill[c]) :: c !in useLists;
    }

    /** The first steps of `doItByQuestionPropagation`: fresh use lists and arrays, with `blk` visited and answered. */
    method StartQuestion(blk: nat)
      requires Valid() && blk < f.g.n
      modifies this`useLists, this`visited, this`result, this`kill
      ensures Valid() && useLists == map[]
      ensures forall b | 0 <= b < f.g.n :: result[b] == (b == blk) && !kill[b]
    {
      useLists := map[];
      visited := new bool[f.g.n](_ => false);
      result := new bool[f.g.n](_ => false);
      kill := new bool[f.g.n](_ => false);
      visited[blk] := true;
      result[blk] := true;
    }

    /**
     * `cpyp(blk, from, to, mode)`: after the local pass in `blk`, the
     * copy is propagated into the rest of the function, by the data-flow
     * version for mode 0 and by question propagation otherwise. The
     * data-flow version rewrites only recorded uses in other blocks of the
     * sub-CFG where the copy is available on entry; question propagation
     * rewrites nothing.
     */
    method CpypGlobal(blk: nat, from: Node, to: Node, mode: int)
      requires Valid() && blk < f.g.n && (from.kids == [] || to.kids == [])
      modifies this, f
      ensures Valid() && SameShape(old(f.code), f.code) && |tables| == |old(tables)|
      ensures shared == old(shared)
      ensures mode != 0 ==> f.code == old(f.code) && tables == old(tables)
      ensures mode == 0 ==> SubTreeOk() && AvailEquations()
      ensures mode == 0 ==> forall k | 0 <= k < |subTree| && subTree[k] != blk ::
        var b := subTree[k];
        && b in useLists && useLists[b] == LocalScan(old(f.code[b]), from, to).uses
        && kill[b] == LocalScan(old(f.code[b]), from, to).kills
      ensures forall b, i | 0 <= b < f.g.n && 0 <= i < |f.code[b]| && f.code[b][i] != old(f.code[b][i]) ::
        mode == 0 && b in subTree && b != blk && nAvail[b] && b in useLists && i in useLists[b]
      ensures mode == 0 ==> cur == old(cur) && UsesIn(useLists, old(f.code))
      ensures mode == 0 ==> Snapshot() == ChangeFrom(old(Snapshot()), cur, subTree, 0, nAvail[..], useLists, from, to)
    {
      if mode == 0 {
        DoItByDataFlowEquation(blk, from, to);
      } else {
        DoItByQuestionPropagation(blk, from, to);
      }
    }

    /**
     * `cpyp(blk, from, to, p, mode)`: the local pass after position `p`,
     * then, when it reached the end of the block, the global propagation.
     * Nothing up to `p` changes, and a redefinition later in the block
     * keeps the rest of the function as it was.
     */
    method CpypAfter(blk: nat, from: Node, to: Node, p: nat, mode: int)
      requires Valid() && blk < f.g.n && p < |f.code[blk]|
      requires from.kids == [] || to.kids == [] || exists j | p < j < |f.code[blk]| :: Kills(f.code[blk][j], from, to)
      modifies this, f
      ensures Valid() && SameShape(old(f.code), f.code) && |tables| == |old(tables)|
      ensures shared == old(shared)
      ensures forall i | 0 <= i <= p :: f.code[blk][i] == old(f.code[blk][i])
      ensures forall b, i | 0 <= b < f.g.n && b != blk && 0 <= i < |f.code[b]| && f.code[b][i] != old(f.code[b][i]) ::
        && (forall j | p < j < |old(f.code[blk])| :: !Kills(old(f.code[blk][j]), from, to))
        && mode == 0 && nAvail[b] && b in useLists && i in useLists[b]
      ensures mode != 0 && old(Current()).None? ==> tables == old(tables)
      ensures mode != 0 ==> forall c | 0 <= c < |tables| && c != old(cur) :: tables[c] == old(tables[c])
      ensures mode != 0 ==> KeepsSome(old(tables), tables)
      ensures var sw := Sweep(old(Snapshot()), old(cur), blk, p + 1, from, to);
        if sw.ok && mode == 0 then SubTreeOk() && UsesIn(useLists, sw.st.code) && Snapshot() == ChangeFrom(sw.st, cur, subTree, 0, nAvail[..], useLists, from, to)
        else Snapshot() == sw.st
    {
      var global := LocalPass(blk, p, from, to);
      if global {
        CpypGlobal(blk, from, to, mode);
      }
    }

    /**
     * `cpyp(blk, from, to, p, mode, maps…)` for the PRE driver: when it
     * supplies its per-block tables they are adopted and those of `blk`
     * become current, so that rewrites keep them up to date; then as
     * `cpyp(blk, from, to, p, mode)`.
     */
    method CpypShared(blk: nat, from: Node, to: Node, p: nat, mode: int, given: Option<seq<Option<Maps>>>)
      requires Valid() && blk < f.g.n && p < |f.code[blk]|
      requires from.kids == [] || to.kids == [] || exists j | p < j < |f.code[blk]| :: Kills(f.code[blk][j], from, to)
      modifies this, f
      ensures Valid() && SameShape(old(f.code), f.code)
      ensures given.Some? ==> shared && |tables| == |given.value|
      ensures given.None? ==> shared == old(shared) && |tables| == |old(tables)|
      ensures given.Some? && mode != 0 && CurrentOf(given.value, blk).None? ==> tables == given.value
      ensures given.Some? && mode != 0 ==> forall c | 0 <= c < |tables| && c != blk :: tables[c] == given.value[c]
      ensures given.Some? && mode != 0 ==> KeepsSome(given.value, tables)
      ensures forall i | 0 <= i <= p :: f.code[blk][i] == old(f.code[blk][i])
      ensures forall b, i | 0 <= b < f.g.n && b != blk && 0 <= i < |f.code[b]| && f.code[b][i] != old(f.code[b][i]) ::
        && (forall j | p < j < |old(f.code[blk])| :: !Kills(old(f.code[blk][j]), from, to))
        && mode == 0 && nAvail[b] && b in useLists && i in useLists[b]
      ensures var sw := if given.Some? then Sweep(State(old(f.code), given.value), blk, blk, p + 1, from, to)
          else Sweep(old(Snapshot()), old(cur), blk, p + 1, from, to);
        if sw.ok && mode == 0 then SubTreeOk() && UsesIn(useLists, sw.st.code) && Snapshot() == ChangeFrom(sw.st, cur, subTree, 0, nAvail[..], useLists, from, to)
        else Snapshot() == sw.st
    {
      if given.Some? {
        shared := true;
        tables := given.value;
        SetMap(blk);
      }
      CpypAfter(blk, from, to, p, mode);
    }

    /** A copy `invoke` propagates: a SET to a register from a leaf. */
    predicate IsCopy(node: Node) {
      node.op == SET && Kid(node, 0).op == REG && |Kid(node, 1).kids| == 0
    }

    /**
     * One instruction of `invoke`: a copy `r = v` at position `q` is
     * propagated, by the local pass and then, when nothing after it in
     * the block redefines `r` or `v`, by the data-flow version; any other
     * instruction leaves everything as it was.
     */
    method PropagateCopy(blk: nat, q: nat)
      requires Valid() && blk < f.g.n && q < |f.code[blk]|
      modifies this, f
      ensures Valid() && SameShape(old(f.code), f.code) && |tables| == |old(tables)|
      ensures !IsCopy(old(f.code[blk][q])) ==> f.code == old(f.code) && tables == old(tables)
      ensures forall i | 0 <= i <= q :: f.code[blk][i] == old(f.code[blk][i])
      ensures forall b, i | 0 <= b < f.g.n && b != blk && 0 <= i < |f.code[b]| && f.code[b][i] != old(f.code[b][i]) ::
        var node := old(f.code[blk][q]);
        && IsCopy(node)
        && (forall j | q < j < |old(f.code[blk])| :: !Kills(old(f.code[blk][j]), Kid(node, 0), Kid(node, 1)))
        && nAvail[b] && b in useLists && i in useLists[b]
      ensures var node := old(f.code[blk][q]);
        IsCopy(node) ==>
        var sw := Sweep(old(Snapshot()), old(cur), blk, q + 1, Kid(node, 0), Kid(node, 1));
        if sw.ok then SubTreeOk() && UsesIn(useLists, sw.st.code) && Snapshot() == ChangeFrom(sw.st, cur, subTree, 0, nAvail[..], useLists, Kid(node, 0), Kid(node, 1))
        else Snapshot() == sw.st
    {
      var node := f.code[blk][q];
      if IsCopy(node) {
        CpypAfter(blk, Kid(node, 0), Kid(node, 1), q, 0);
      }
    }

    /**
     * `invoke()`: every copy of the function, block by block in block-list
     * order and instruction by instruction, is propagated; instructions
     * are rewritten in place, so every block keeps its length.
     */
    method Invoke()
      requires Valid()
      modifies this, f
      ensures Valid() && SameShape(old(f.code), f.code) && |tables| == |old(tables)|
    {
      LayoutIds(f.g);
      var k := 0;
      while k < |f.g.layout|
        invariant k <= |f.g.layout| && Valid() && SameShape(old(f.code), f.code) && |tables| == |old(tables)|
      {
        var blk := f.g.layout[k];
        assert blk in f.g.layout;
        var q := 0;
        while q < |f.code[blk]|
          invariant Valid() && q <= |f.code[blk]| && SameShape(old(f.code), f.code) && |tables| == |old(tables)|
        {
          PropagateCopy(blk, q);
          q := q + 1;
        }
        k := k + 1;
      }
    }
  }
}
