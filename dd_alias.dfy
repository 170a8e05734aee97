// The demand-driven alias oracle: per-block ambiguous address sets and
// alias maps built from the SETs, calls and prologues of each block,
// congruence classes of the variables joined by PHIs, and the queries that
// decide whether a load and a store may touch the same memory.
module DDAliasAnalysis {
  import opened Lir
  import opened Cfg

  /** `x` lies on the chain from `m` down through first kids. */
  predicate OnFirstChain(x: Node, m: Node)
    decreases m
  {
    x == m || (|m.kids| > 0 && OnFirstChain(x, m.kids[0]))
  }

  /** `getAddr`: the leaf reached from `mem` by descending through first kids. */
  function GetAddr(mem: Node): (r: Node)
    ensures r.kids == [] && OnFirstChain(r, mem)
    decreases mem
  {
    if |mem.kids| == 0 then mem
    else if |mem.kids[0].kids| == 0 then mem.kids[0]
    else GetAddr(mem.kids[0])
  }

  /** The first-kid chain ends in exactly one leaf, and that leaf is the address. */
  lemma {:induction false} GetAddrUnique(x: Node, m: Node)
    requires OnFirstChain(x, m) && x.kids == []
    ensures x == GetAddr(m)
    decreases m
  {
    if x != m {
      if |m.kids[0].kids| == 0 {
        assert OnFirstChain(x, m.kids[0]);
      } else {
        GetAddrUnique(x, m.kids[0]);
      }
    }
  }

  /** `mayAmb`: some kid of `exp` is `addr`, or a kid with kids has `addr` below it. */
  predicate MayAmb(addr: Node, exp: Node)
    decreases exp
  {
    exists i | 0 <= i < |exp.kids| :: exp.kids[i] == addr || (|exp.kids[i].kids| > 0 && MayAmb(addr, exp.kids[i]))
  }

  /** `mayAmb` holds exactly when `addr` occurs strictly below the root of `exp`. */
  lemma {:induction false} MayAmbBelow(addr: Node, exp: Node)
    ensures MayAmb(addr, exp) <==> Below(addr, exp)
    decreases exp
  {
    forall i | 0 <= i < |exp.kids|
      ensures (exp.kids[i] == addr || (|exp.kids[i].kids| > 0 && MayAmb(addr, exp.kids[i])))
          <==> (exp.kids[i] == addr || Below(addr, exp.kids[i]))
    {
      MayAmbBelow(addr, exp.kids[i]);
    }
  }

  /** `checkAliasSSA` with the operand-list argument, which it does not use. */
  function CheckAliasSSAVars(load: Node, store: Node): bool {
    if load.op != MEM || store.op != MEM then true
    else if load == store then true
    else
      var a1, a2 := GetAddr(load), GetAddr(store);
      if a1.op == STATIC && a2.op == STATIC then true
      else if a1.op == FRAME && a2.op == FRAME then false
      else true
  }

  /** `checkAliasSSA` without the operand list: the same, but comparing addresses first. */
  function CheckAliasSSA(load: Node, store: Node): bool {
    if load.op != MEM || store.op != MEM then true
    else
      var a1, a2 := GetAddr(load), GetAddr(store);
      if a1 == a2 then true
      else if a1.op == STATIC && a2.op == STATIC then true
      else if a1.op == FRAME && a2.op == FRAME then false
      else true
  }

  /**
   * Both `checkAliasSSA` answers say "no alias" only for two loads whose
   * addresses are both FRAMEs, and not the same node (the whole load for
   * one, the address for the other).
   */
  lemma CheckAliasSSAOnlyFrames(load: Node, store: Node)
    ensures !CheckAliasSSAVars(load, store) <==>
      load.op == MEM && store.op == MEM && load != store
      && GetAddr(load).op == FRAME && GetAddr(store).op == FRAME
    ensures !CheckAliasSSA(load, store) <==>
      load.op == MEM && store.op == MEM && GetAddr(load) != GetAddr(store)
      && GetAddr(load).op == FRAME && GetAddr(store).op == FRAME
  {
  }

  /**
   * `setAmbSet`'s walk over the predecessors `ps` of `blk`: the set of a
   * predecessor that holds `l` or `r` joins `cur`. A predecessor that is
   * `blk` itself is `cur`, so it adds nothing.
   */
  function AmbFold(cur: set<Node>, amb: seq<set<Node>>, blk: nat, ps: seq<nat>, l: Node, r: Node): (res: set<Node>)
    requires forall j | 0 <= j < |ps| :: ps[j] < |amb|
    ensures cur <= res
    decreases |ps|
  {
    if |ps| == 0 then cur
    else
      var p := ps[0];
      var cur' := if p != blk && (l in amb[p] || r in amb[p]) then cur + amb[p] else cur;
      AmbFold(cur', amb, blk, ps[1..], l, r)
  }

  /** The walk gives `cur` together with every other predecessor's set that holds `l` or `r`. */
  lemma {:induction false} AmbFoldUnion(cur: set<Node>, amb: seq<set<Node>>, blk: nat, ps: seq<nat>, l: Node, r: Node, x: Node)
    requires forall j | 0 <= j < |ps| :: ps[j] < |amb|
    ensures x in AmbFold(cur, amb, blk, ps, l, r) <==>
      x in cur || exists j | 0 <= j < |ps| :: ps[j] != blk && (l in amb[ps[j]] || r in amb[ps[j]]) && x in amb[ps[j]]
    decreases |ps|
  {
    if |ps| > 0 {
      var p := ps[0];
      var cur' := if p != blk && (l in amb[p] || r in amb[p]) then cur + amb[p] else cur;
      AmbFoldUnion(cur', amb, blk, ps[1..], l, r, x);
      if x in AmbFold(cur, amb, blk, ps, l, r) && x !in cur && x !in cur' {
        var j :| 0 <= j < |ps[1..]| && ps[1..][j] != blk && (l in amb[ps[1..][j]] || r in amb[ps[1..][j]]) && x in amb[ps[1..][j]];
        assert ps[j + 1] == ps[1..][j];
      }
      if exists j | 0 <= j < |ps| :: ps[j] != blk && (l in amb[ps[j]] || r in amb[ps[j]]) && x in amb[ps[j]] {
        var j :| 0 <= j < |ps| && ps[j] != blk && (l in amb[ps[j]] || r in amb[ps[j]]) && x in amb[ps[j]];
        if j > 0 {
          assert ps[1..][j - 1] == ps[j];
        }
      }
    }
  }

  /**
   * The alias-map update of `insertNewEntry`: `l`'s entry gains `l`, `r`
   * and `r`'s entry; no other entry changes.
   */
  function AliasEntry(m: map<Node, set<Node>>, l: Node, r: Node): (res: map<Node, set<Node>>)
    ensures l in res && {l, r} <= res[l]
    ensures (l in m ==> m[l] <= res[l]) && (r in m ==> m[r] <= res[l])
    ensures forall x | x in res[l] :: x == l || x == r || (l in m && x in m[l]) || (r in m && x in m[r])
    ensures forall k | k != l :: (k in res <==> k in m) && (k in m ==> res[k] == m[k])
  {
    var m1 := m[l := (if l in m then m[l] else {}) + {l, r}];
    if r in m1 then m1[l := m1[l] + m1[r]] else m1
  }

  // ---------------------------------------------------------------------
  // Congruence classes.

  /** No variable is in two classes. */
  predicate Disjoint(cs: seq<set<Node>>) {
    forall i, j | 0 <= i < j < |cs| :: cs[i] * cs[j] == {}
  }

  /** The index of the first class holding `v`, if any. */
  function FirstWith(cs: seq<set<Node>>, v: Node): (r: Option<nat>)
    ensures r.Some? ==> r.value < |cs| && v in cs[r.value] && forall i | 0 <= i < r.value :: v !in cs[i]
    ensures r.None? ==> forall i | 0 <= i < |cs| :: v !in cs[i]
    decreases |cs|
  {
    if |cs| == 0 then None
    else if v in cs[0] then Some(0)
    else match FirstWith(cs[1..], v)
      case Some(i) => Some(i + 1)
      case None => None
  }

  /** The classes that share nothing with `s`, in order. */
  function Untouched(cs: seq<set<Node>>, s: set<Node>): (r: seq<set<Node>>)
    ensures forall c | c in r :: c in cs && c * s == {}
    ensures forall c | c in cs && c * s == {} :: c in r
    decreases |cs|
  {
    if |cs| == 0 then []
    else (if cs[0] * s == {} then [cs[0]] else []) + Untouched(cs[1..], s)
  }

  /** `s` together with every class that shares something with it. */
  function Merged(cs: seq<set<Node>>, s: set<Node>): (r: set<Node>)
    ensures forall x :: x in r <==> x in s || exists i | 0 <= i < |cs| :: cs[i] * s != {} && x in cs[i]
    decreases |cs|
  {
    if |cs| == 0 then s
    else
      var rest := Merged(cs[1..], s);
      assert forall x :: x in rest <==> x in s || exists i | 1 <= i < |cs| :: cs[i] * s != {} && x in cs[i] by {
        forall x | x in rest ensures x in s || exists i | 1 <= i < |cs| :: cs[i] * s != {} && x in cs[i] {
          if x !in s {
            var i :| 0 <= i < |cs[1..]| && cs[1..][i] * s != {} && x in cs[1..][i];
            assert cs[i + 1] == cs[1..][i];
          }
        }
        forall x | (exists i | 1 <= i < |cs| :: cs[i] * s != {} && x in cs[i]) ensures x in rest {
          var i :| 1 <= i < |cs| && cs[i] * s != {} && x in cs[i];
          assert cs[1..][i - 1] == cs[i];
        }
      }
      if cs[0] * s != {} then cs[0] + rest else rest
  }

  lemma {:induction false} UntouchedEmpty(cs: seq<set<Node>>)
    ensures Untouched(cs, {}) == cs
    decreases |cs|
  {
    if |cs| > 0 {
      UntouchedEmpty(cs[1..]);
    }
  }

  lemma {:induction false} UntouchedTwice(cs: seq<set<Node>>, s: set<Node>, t: set<Node>)
    ensures Untouched(Untouched(cs, s), t) == Untouched(cs, s + t)
    decreases |cs|
  {
    if |cs| > 0 {
      UntouchedTwice(cs[1..], s, t);
      var head := if cs[0] * s == {} then [cs[0]] else [];
      assert Untouched(cs, s) == head + Untouched(cs[1..], s);
      UntouchedConcat(head, Untouched(cs[1..], s), t);
      assert cs[0] * (s + t) == {} <==> cs[0] * s == {} && cs[0] * t == {};
    }
  }

  lemma {:induction false} UntouchedConcat(a: seq<set<Node>>, b: seq<set<Node>>, t: set<Node>)
    ensures Untouched(a + b, t) == Untouched(a, t) + Untouched(b, t)
    decreases |a|
  {
    if |a| > 0 {
      assert (a + b)[1..] == a[1..] + b;
      UntouchedConcat(a[1..], b, t);
    } else {
      assert a + b == b;
    }
  }

  /** Taking out the one class that holds `v` leaves exactly the classes that do not hold it. */
  lemma {:induction false} RemoveFirst(cs: seq<set<Node>>, v: Node, i: nat)
    requires Disjoint(cs) && FirstWith(cs, v) == Some(i)
    ensures cs[..i] + cs[i + 1..] == Untouched(cs, {v})
    decreases |cs|
  {
    if i == 0 {
      RemoveHead(cs, v);
    } else {
      assert v !in cs[0];
      DisjointTail(cs);
      var rest := cs[1..];
      assert FirstWith(rest, v) == Some(i - 1);
      RemoveFirst(rest, v, i - 1);
      RemoveLater(cs, v, i);
    }
  }

  lemma RemoveHead(cs: seq<set<Node>>, v: Node)
    requires Disjoint(cs) && |cs| > 0 && v in cs[0]
    ensures cs[1..] == Untouched(cs, {v})
  {
    TailFree(cs, v, 0);
    var rest := cs[1..];
    forall j | 0 <= j < |rest| ensures v !in rest[j] {
      assert rest[j] == cs[j + 1];
    }
    NoneUntouched(rest, v);
    assert v in cs[0] * {v};
  }

  lemma RemoveLater(cs: seq<set<Node>>, v: Node, i: nat)
    requires 0 < i < |cs| && v !in cs[0]
    requires cs[1..][..i - 1] + cs[1..][i..] == Untouched(cs[1..], {v})
    ensures cs[..i] + cs[i + 1..] == Untouched(cs, {v})
  {
    var rest := cs[1..];
    assert cs[0] * {v} == {};
    assert Untouched(cs, {v}) == [cs[0]] + Untouched(rest, {v});
    assert cs[..i] == [cs[0]] + rest[..i - 1];
    assert cs[i + 1..] == rest[i..];
  }

  /** No class after the one holding `v` holds it too. */
  lemma TailFree(cs: seq<set<Node>>, v: Node, i: nat)
    requires Disjoint(cs) && i < |cs| && v in cs[i]
    ensures forall j | i < j < |cs| :: v !in cs[j]
  {
    forall j | i < j < |cs| ensures v !in cs[j] {
      assert cs[i] * cs[j] == {};
      assert v !in cs[i] * cs[j];
    }
  }

  lemma DisjointTail(cs: seq<set<Node>>)
    requires Disjoint(cs) && |cs| > 0
    ensures Disjoint(cs[1..])
  {
    forall i, j | 0 <= i < j < |cs[1..]| ensures cs[1..][i] * cs[1..][j] == {} {
      assert cs[1..][i] == cs[i + 1] && cs[1..][j] == cs[j + 1];
    }
  }

  lemma {:induction false} NoneUntouched(cs: seq<set<Node>>, v: Node)
    requires forall j | 0 <= j < |cs| :: v !in cs[j]
    ensures Untouched(cs, {v}) == cs
    decreases |cs|
  {
    if |cs| > 0 {
      assert cs[0] * {v} == {};
      NoneUntouched(cs[1..], v);
      assert cs == [cs[0]] + cs[1..];
    }
  }

  lemma {:induction false} UntouchedDisjoint(cs: seq<set<Node>>, s: set<Node>)
    requires Disjoint(cs)
    ensures Disjoint(Untouched(cs, s))
    decreases |cs|
  {
    if |cs| > 0 {
      DisjointTail(cs);
      UntouchedDisjoint(cs[1..], s);
      var rest := Untouched(cs[1..], s);
      if cs[0] * s == {} {
        forall j | 0 <= j < |rest| ensures cs[0] * rest[j] == {} {
          assert rest[j] in cs[1..];
          var k :| 0 <= k < |cs[1..]| && cs[1..][k] == rest[j];
          assert cs[1..][k] == cs[k + 1];
        }
        var r := [cs[0]] + rest;
        forall i, j | 0 <= i < j < |r| ensures r[i] * r[j] == {} {
          if i == 0 {
            assert r[j] == rest[j - 1];
          } else {
            assert r[i] == rest[i - 1] && r[j] == rest[j - 1];
          }
        }
      } else {
        assert Untouched(cs, s) == rest;
      }
    }
  }

  /**
   * Folding in one more operand `v`: the merged class gains `v` and the
   * first untouched class holding `v`, if any.
   */
  lemma MergedStep(cs: seq<set<Node>>, s: set<Node>, v: Node)
    requires Disjoint(cs)
    ensures var u := Untouched(cs, s);
      Merged(cs, s + {v}) == Merged(cs, s) + {v} + (match FirstWith(u, v) case Some(i) => u[i] case None => {})
  {
    var u := Untouched(cs, s);
    var extra := match FirstWith(u, v) case Some(i) => u[i] case None => {};
    forall x | x in Merged(cs, s + {v}) ensures x in Merged(cs, s) + {v} + extra {
      MergedStepOut(cs, s, v, x);
    }
    forall x | x in Merged(cs, s) + {v} + extra ensures x in Merged(cs, s + {v}) {
      if x in extra {
        var i := FirstWith(u, v).value;
        assert u[i] in cs && v in u[i];
        var k :| 0 <= k < |cs| && cs[k] == u[i];
        assert v in cs[k] * (s + {v});
      } else if x in Merged(cs, s) && x !in s {
        var k :| 0 <= k < |cs| && cs[k] * s != {} && x in cs[k];
        var y :| y in cs[k] * s;
        assert y in cs[k] * (s + {v});
      }
    }
  }

  lemma MergedStepOut(cs: seq<set<Node>>, s: set<Node>, v: Node, x: Node)
    requires Disjoint(cs) && x in Merged(cs, s + {v})
    ensures var u := Untouched(cs, s);
      x in Merged(cs, s) + {v} + (match FirstWith(u, v) case Some(i) => u[i] case None => {})
  {
    var u := Untouched(cs, s);
    if x !in s + {v} {
      var i :| 0 <= i < |cs| && cs[i] * (s + {v}) != {} && x in cs[i];
      if cs[i] * s == {} {
        var y :| y in cs[i] * (s + {v});
        assert v in cs[i];
        assert cs[i] in u;
        var k :| 0 <= k < |u| && u[k] == cs[i];
        assert FirstWith(u, v).Some?;
        var f := FirstWith(u, v).value;
        assert u[f] in cs;
        var a :| 0 <= a < |cs| && cs[a] == u[f];
        DisjointSame(cs, a, i, v);
      } else {
        var y :| y in cs[i] * s;
        assert x in Merged(cs, s);
      }
    }
  }

  /** In disjoint classes a variable is in one class at most. */
  lemma DisjointSame(cs: seq<set<Node>>, a: nat, b: nat, v: Node)
    requires Disjoint(cs) && a < |cs| && b < |cs| && v in cs[a] && v in cs[b]
    ensures a == b
  {
    assert v in cs[a] * cs[b] && v in cs[b] * cs[a];
  }

  /** A variable of a class that shares nothing with `s` is not in the merged class. */
  lemma UntouchedOut(cs: seq<set<Node>>, s: set<Node>, k: nat, x: Node)
    requires Disjoint(cs) && k < |cs| && cs[k] * s == {} && x in cs[k]
    ensures x !in Merged(cs, s)
  {
    assert x !in cs[k] * s;
    forall i | 0 <= i < |cs| && x in cs[i] ensures cs[i] * s == {} {
      DisjointSame(cs, i, k, x);
    }
  }

  /** The classes that share nothing with `s`, and the merged class, are still pairwise disjoint. */
  lemma MergeDisjoint(cs: seq<set<Node>>, s: set<Node>)
    requires Disjoint(cs)
    ensures Disjoint(Untouched(cs, s) + [Merged(cs, s)])
  {
    var u := Untouched(cs, s);
    var m := Merged(cs, s);
    UntouchedDisjoint(cs, s);
    forall j | 0 <= j < |u| ensures u[j] * m == {} {
      assert u[j] in cs && u[j] * s == {};
      var k :| 0 <= k < |cs| && cs[k] == u[j];
      forall x | x in u[j] ensures x !in m {
        UntouchedOut(cs, s, k, x);
      }
    }
    var r := u + [m];
    forall i, j | 0 <= i < j < |r| ensures r[i] * r[j] == {} {
      if j == |u| {
        assert r[i] == u[i] && r[j] == m;
      } else {
        assert r[i] == u[i] && r[j] == u[j];
      }
    }
  }

  /** All of `t` lies in one class. */
  predicate Together(cs: seq<set<Node>>, t: set<Node>) {
    exists j | 0 <= j < |cs| :: t <= cs[j]
  }

  /** Variables that were together in a class are together after a merge. */
  lemma MergeKeepsTogether(cs: seq<set<Node>>, s: set<Node>, t: set<Node>)
    requires Together(cs, t)
    ensures Together(Untouched(cs, s) + [Merged(cs, s)], t)
  {
    var i :| 0 <= i < |cs| && t <= cs[i];
    var r := Untouched(cs, s) + [Merged(cs, s)];
    if cs[i] * s == {} {
      assert cs[i] in Untouched(cs, s);
      var j :| 0 <= j < |Untouched(cs, s)| && Untouched(cs, s)[j] == cs[i];
      assert r[j] == cs[i];
    } else {
      assert r[|r| - 1] == Merged(cs, s);
      assert cs[i] <= Merged(cs, s);
    }
  }

  /** The operands of every PHI among the first `k` instructions lie in one class. */
  predicate InstrsTogether(cs: seq<set<Node>>, instrs: seq<Node>, k: nat) {
    forall kk | 0 <= kk < k && kk < |instrs| && instrs[kk].op == PHI :: Together(cs, PhiOperands(instrs[kk]))
  }

  /** `InstrsTogether` for the whole of each of the first `j` blocks of `order`. */
  predicate BlocksTogether(cs: seq<set<Node>>, code: seq<seq<Node>>, order: seq<nat>, j: nat) {
    forall jj | 0 <= jj < j && jj < |order| && order[jj] < |code| :: InstrsTogether(cs, code[order[jj]], |code[order[jj]]|)
  }

  /** A merge keeps every PHI that was together together. */
  lemma MergeKeepsInstrs(cs: seq<set<Node>>, s: set<Node>, instrs: seq<Node>, k: nat)
    requires InstrsTogether(cs, instrs, k)
    ensures InstrsTogether(Untouched(cs, s) + [Merged(cs, s)], instrs, k)
  {
    forall kk | 0 <= kk < k && kk < |instrs| && instrs[kk].op == PHI
      ensures Together(Untouched(cs, s) + [Merged(cs, s)], PhiOperands(instrs[kk]))
    {
      MergeKeepsTogether(cs, s, PhiOperands(instrs[kk]));
    }
  }

  /** A merge keeps the blocks already walked together. */
  lemma MergeKeepsBlocks(cs: seq<set<Node>>, s: set<Node>, code: seq<seq<Node>>, order: seq<nat>, j: nat)
    requires BlocksTogether(cs, code, order, j)
    ensures BlocksTogether(Untouched(cs, s) + [Merged(cs, s)], code, order, j)
  {
    forall jj | 0 <= jj < j && jj < |order| && order[jj] < |code|
      ensures InstrsTogether(Untouched(cs, s) + [Merged(cs, s)], code[order[jj]], |code[order[jj]]|)
    {
      MergeKeepsInstrs(cs, s, code[order[jj]], |code[order[jj]]|);
    }
  }

  /**
   * One `getCC` lookup of `v` on the classes still untouched by `s`
   * leaves exactly the classes untouched by `s` and `v`.
   */
  lemma AbsorbStep(cs: seq<set<Node>>, s: set<Node>, v: Node)
    requires Disjoint(cs)
    ensures var u := Untouched(cs, s);
      match FirstWith(u, v)
        case None => u == Untouched(cs, s + {v})
        case Some(i) => u[..i] + u[i + 1..] == Untouched(cs, s + {v})
  {
    var u := Untouched(cs, s);
    UntouchedTwice(cs, s, {v});
    UntouchedDisjoint(cs, s);
    match FirstWith(u, v)
    case None =>
      NoneUntouched(u, v);
    case Some(i) =>
      RemoveFirst(u, v, i);
  }

  // ---------------------------------------------------------------------
  // Ambiguous sets and alias maps, block by block.

  /** Per-block ambiguous address sets and alias maps (`blkToAmbSet`, `blkToAlias`). */
  datatype Groups = Groups(amb: seq<set<Node>>, alias: seq<map<Node, set<Node>>>)
  {
    predicate Sized(n: nat) { |amb| == n && |alias| == n }
  }

  /** The addresses a SET relates: that of its destination and that of its source. */
  function LAddr(ins: Node): Node { GetAddr(Kid(ins, 0)) }
  function RAddr(ins: Node): Node { GetAddr(Kid(ins, 1)) }

  /** The registers among a PROLOGUE's kids. */
  function PrologueRegs(node: Node): set<Node> {
    KidRegs(node.kids)
  }

  /** The registers in `ks`. */
  function KidRegs(ks: seq<Node>): (r: set<Node>)
    ensures forall x :: x in r <==> x in ks && x.op == REG
  {
    set k | k in ks && k.op == REG
  }

  /** `getAmbSet`: every operand register of `exp`. */
  function AmbVars(exp: Node): set<Node> {
    Elems(CollectVars(exp))
  }

  /** The elements of a sequence, as a set. */
  function Elems(s: seq<Node>): (r: set<Node>)
    ensures forall x :: x in r <==> x in s
  {
    set x | x in s
  }

  /** Joining nothing into block `blk`'s set leaves the sets as they were. */
  lemma JoinNothing(amb: seq<set<Node>>, blk: nat)
    requires blk < |amb|
    ensures amb[blk := amb[blk] + {}] == amb
  {
    assert amb[blk] + {} == amb[blk];
  }

  /** Joining `x` and then `y` into block `blk`'s set is joining `x + y`. */
  lemma JoinTwice(amb: seq<set<Node>>, blk: nat, x: set<Node>, y: set<Node>)
    requires blk < |amb|
    ensures var once := amb[blk := amb[blk] + x];
      once[blk := once[blk] + y] == amb[blk := amb[blk] + (x + y)]
  {
    assert amb[blk] + x + y == amb[blk] + (x + y);
  }

  /** `getAmbSet` takes one kid at a time: a register itself, or the operands below any other kid. */
  lemma AmbVarsStep(exp: Node, i: nat)
    requires i < |exp.kids|
    ensures var k := exp.kids[i];
      Elems(CollectVarsUpTo(exp, i + 1)) == Elems(CollectVarsUpTo(exp, i)) + (if k.op == REG then {k} else AmbVars(k))
    ensures exp.kids[i].op != REG && |exp.kids[i].kids| == 0 ==> AmbVars(exp.kids[i]) == {}
  {
    var k := exp.kids[i];
    var more := if k.op == REG then [k] else CollectVars(k);
    assert CollectVarsUpTo(exp, i + 1) == CollectVarsUpTo(exp, i) + more;
    assert Elems(CollectVarsUpTo(exp, i) + more) == Elems(CollectVarsUpTo(exp, i)) + Elems(more);
    if |k.kids| == 0 {
      assert CollectVars(k) == CollectVarsUpTo(k, 0) == [];
    }
  }

  /**
   * `setAmbSet` for one SET of block `blk`: the block's set gains both
   * addresses and every predecessor set holding one of them (exactly
   * these, see `InsertAmbExact`).
   */
  function InsertAmb(amb: seq<set<Node>>, ps: seq<nat>, blk: nat, ins: Node): (r: set<Node>)
    requires blk < |amb| && forall j | 0 <= j < |ps| :: ps[j] < |amb|
    ensures amb[blk] + {LAddr(ins), RAddr(ins)} <= r
  {
    var l, r := LAddr(ins), RAddr(ins);
    AmbFold(amb[blk] + {l, r}, amb, blk, ps, l, r)
  }

  /**
   * The block's set after `setAmbSet` is its old members, both addresses,
   * and the members of every other predecessor's set holding either
   * address, and nothing more.
   */
  lemma InsertAmbExact(amb: seq<set<Node>>, ps: seq<nat>, blk: nat, ins: Node, x: Node)
    requires blk < |amb| && forall j | 0 <= j < |ps| :: ps[j] < |amb|
    ensures x in InsertAmb(amb, ps, blk, ins) <==> (x in amb[blk] || x == LAddr(ins) || x == RAddr(ins) ||
      exists j | 0 <= j < |ps| :: ps[j] != blk && (LAddr(ins) in amb[ps[j]] || RAddr(ins) in amb[ps[j]]) && x in amb[ps[j]])
  {
    AmbFoldUnion(amb[blk] + {LAddr(ins), RAddr(ins)}, amb, blk, ps, LAddr(ins), RAddr(ins), x);
  }

  /** What an instruction contributes to its block's ambiguous set. */
  function Needs(node: Node): set<Node> {
    if node.op == PROLOGUE then PrologueRegs(node)
    else if node.op == SET then {LAddr(node), RAddr(node)}
    else if node.op == CALL then AmbVars(node)
    else {}
  }

  /** Every instruction's contribution is in `s`. */
  predicate Covered(s: set<Node>, instrs: seq<Node>) {
    forall k | 0 <= k < |instrs| :: Needs(instrs[k]) <= s
  }

  /** Every SET's destination address maps to a set holding both of its addresses. */
  predicate AliasCovered(m: map<Node, set<Node>>, instrs: seq<Node>) {
    forall k | 0 <= k < |instrs| && instrs[k].op == SET ::
      LAddr(instrs[k]) in m && {LAddr(instrs[k]), RAddr(instrs[k])} <= m[LAddr(instrs[k])]
  }

  /** `m2` keeps every entry of `m1`, possibly larger. */
  predicate Grows(m1: map<Node, set<Node>>, m2: map<Node, set<Node>>) {
    forall k | k in m1 :: k in m2 && m1[k] <= m2[k]
  }

  /** The predecessor lists of `g` name blocks of `g`: all the alias groups need of the graph. */
  predicate PredsIn(g: Graph) {
    |g.preds| == g.n && IdsBelow(g.preds, g.n)
  }

  /** The predecessors of `b`, which are blocks of the graph. */
  function PredsOf(g: Graph, b: nat): (ps: seq<nat>)
    requires PredsIn(g) && b < g.n
    ensures ps == g.preds[b] && forall j | 0 <= j < |ps| :: ps[j] < g.n
  {
    IdsBelowAt(g.preds, g.n, b);
    g.preds[b]
  }

  /** The effect of one instruction of block `blk` in `makeMayAliasGroup(blk)`. */
  function GroupStep(st: Groups, g: Graph, blk: nat, node: Node): (r: Groups)
    requires PredsIn(g) && st.Sized(g.n) && blk < g.n
    ensures r.Sized(g.n)
    ensures st.amb[blk] + Needs(node) <= r.amb[blk] && Grows(st.alias[blk], r.alias[blk])
    ensures node.op == SET ==> LAddr(node) in r.alias[blk] && {LAddr(node), RAddr(node)} <= r.alias[blk][LAddr(node)]
    ensures forall b | 0 <= b < g.n && b != blk :: r.amb[b] == st.amb[b] && r.alias[b] == st.alias[b]
  {
    if node.op == PROLOGUE then
      st.(amb := st.amb[blk := st.amb[blk] + PrologueRegs(node)])
    else if node.op == SET then
      Groups(st.amb[blk := InsertAmb(st.amb, PredsOf(g, blk), blk, node)],
             st.alias[blk := AliasEntry(st.alias[blk], LAddr(node), RAddr(node))])
    else if node.op == CALL then
      st.(amb := st.amb[blk := st.amb[blk] + AmbVars(node)])
    else st
  }

  /** `makeMayAliasGroup(blk)` over the instructions `instrs`, in order. */
  function GroupBlock(st: Groups, g: Graph, blk: nat, instrs: seq<Node>): (r: Groups)
    requires PredsIn(g) && st.Sized(g.n) && blk < g.n
    ensures r.Sized(g.n)
    decreases |instrs|
  {
    if |instrs| == 0 then st
    else GroupStep(GroupBlock(st, g, blk, instrs[..|instrs| - 1]), g, blk, instrs[|instrs| - 1])
  }

  /**
   * After the walk the block's ambiguous set holds its old members and
   * every instruction's contribution, its alias map covers every SET, and
   * no other block changed.
   */
  lemma GroupBlockCovers(st: Groups, g: Graph, blk: nat, instrs: seq<Node>)
    requires PredsIn(g) && st.Sized(g.n) && blk < g.n
    ensures var r := GroupBlock(st, g, blk, instrs);
      st.amb[blk] <= r.amb[blk] && Covered(r.amb[blk], instrs)
      && Grows(st.alias[blk], r.alias[blk]) && AliasCovered(r.alias[blk], instrs)
      && forall b | 0 <= b < g.n && b != blk :: r.amb[b] == st.amb[b] && r.alias[b] == st.alias[b]
  {
    GroupBlockKeeps(st, g, blk, instrs);
    GroupBlockCovered(st, g, blk, instrs);
  }

  /** The walk only adds to the block's ambiguous set and alias map, and leaves other blocks alone. */
  lemma {:induction false} GroupBlockKeeps(st: Groups, g: Graph, blk: nat, instrs: seq<Node>)
    requires PredsIn(g) && st.Sized(g.n) && blk < g.n
    ensures var r := GroupBlock(st, g, blk, instrs);
      st.amb[blk] <= r.amb[blk] && Grows(st.alias[blk], r.alias[blk])
      && forall b | 0 <= b < g.n && b != blk :: r.amb[b] == st.amb[b] && r.alias[b] == st.alias[b]
    decreases |instrs|
  {
    if |instrs| > 0 {
      var front := instrs[..|instrs| - 1];
      GroupBlockKeeps(st, g, blk, front);
      var mid := GroupBlock(st, g, blk, front);
      var r := GroupStep(mid, g, blk, instrs[|instrs| - 1]);
      forall x | x in st.alias[blk] ensures x in r.alias[blk] && st.alias[blk][x] <= r.alias[blk][x] {
        assert x in mid.alias[blk];
      }
    }
  }

  /** After the walk the block's ambiguous set and alias map cover every instruction walked. */
  lemma GroupBlockCovered(st: Groups, g: Graph, blk: nat, instrs: seq<Node>)
    requires PredsIn(g) && st.Sized(g.n) && blk < g.n
    ensures var r := GroupBlock(st, g, blk, instrs);
      Covered(r.amb[blk], instrs) && AliasCovered(r.alias[blk], instrs)
  {
    GroupBlockAmbCovered(st, g, blk, instrs);
    GroupBlockAliasCovered(st, g, blk, instrs);
  }

  lemma {:induction false} GroupBlockAmbCovered(st: Groups, g: Graph, blk: nat, instrs: seq<Node>)
    requires PredsIn(g) && st.Sized(g.n) && blk < g.n
    ensures Covered(GroupBlock(st, g, blk, instrs).amb[blk], instrs)
    decreases |instrs|
  {
    if |instrs| > 0 {
      var front, last := instrs[..|instrs| - 1], instrs[|instrs| - 1];
      GroupBlockAmbCovered(st, g, blk, front);
      var mid := GroupBlock(st, g, blk, front);
      StepFacts(mid, g, blk, last);
      CoveredExtend(mid.amb[blk], GroupStep(mid, g, blk, last).amb[blk], instrs);
    }
  }

  lemma {:induction false} GroupBlockAliasCovered(st: Groups, g: Graph, blk: nat, instrs: seq<Node>)
    requires PredsIn(g) && st.Sized(g.n) && blk < g.n
    ensures AliasCovered(GroupBlock(st, g, blk, instrs).alias[blk], instrs)
    decreases |instrs|
  {
    if |instrs| > 0 {
      var front, last := instrs[..|instrs| - 1], instrs[|instrs| - 1];
      GroupBlockAliasCovered(st, g, blk, front);
      var mid := GroupBlock(st, g, blk, front);
      StepFacts(mid, g, blk, last);
      AliasCoveredExtend(mid.alias[blk], GroupStep(mid, g, blk, last).alias[blk], instrs);
    }
  }

  /** What one step adds to the block's ambiguous set and alias map. */
  lemma StepFacts(st: Groups, g: Graph, blk: nat, node: Node)
    requires PredsIn(g) && st.Sized(g.n) && blk < g.n
    ensures var r := GroupStep(st, g, blk, node);
      st.amb[blk] <= r.amb[blk] && Needs(node) <= r.amb[blk] && Grows(st.alias[blk], r.alias[blk])
      && (node.op == SET ==> LAddr(node) in r.alias[blk] && {LAddr(node), RAddr(node)} <= r.alias[blk][LAddr(node)])
  {
  }

  /** A superset that also holds the last instruction's contribution covers the longer walk. */
  lemma CoveredExtend(s0: set<Node>, s1: set<Node>, w: seq<Node>)
    requires |w| > 0 && Covered(s0, w[..|w| - 1]) && s0 <= s1 && Needs(w[|w| - 1]) <= s1
    ensures Covered(s1, w)
  {
    forall k | 0 <= k < |w| - 1 ensures Needs(w[k]) <= s1 {
      assert w[k] == w[..|w| - 1][k];
    }
  }

  /** A grown alias map that also covers the last instruction covers the longer walk. */
  lemma AliasCoveredExtend(m0: map<Node, set<Node>>, m1: map<Node, set<Node>>, w: seq<Node>)
    requires |w| > 0 && AliasCovered(m0, w[..|w| - 1]) && Grows(m0, m1)
    requires w[|w| - 1].op == SET ==> LAddr(w[|w| - 1]) in m1 && {LAddr(w[|w| - 1]), RAddr(w[|w| - 1])} <= m1[LAddr(w[|w| - 1])]
    ensures AliasCovered(m1, w)
  {
    forall k | 0 <= k < |w| - 1 && w[k].op == SET
      ensures LAddr(w[k]) in m1 && {LAddr(w[k]), RAddr(w[k])} <= m1[LAddr(w[k])]
    {
      assert w[k] == w[..|w| - 1][k];
    }
  }

  /** Block `b`'s ambiguous set and alias map cover its instructions. */
  predicate BlockCovered(st: Groups, code: seq<seq<Node>>, b: nat) {
    b < |st.amb| && b < |st.alias| && b < |code| && Covered(st.amb[b], code[b]) && AliasCovered(st.alias[b], code[b])
  }

  /** Walking block `layout[j]` keeps the blocks walked before it covered and covers it too. */
  lemma CoverStep(st: Groups, g: Graph, code: seq<seq<Node>>, j: nat)
    requires g.Valid() && st.Sized(g.n) && |code| == g.n && j < |g.layout|
    requires forall jj | 0 <= jj < j :: BlockCovered(st, code, g.layout[jj])
    ensures g.layout[j] < g.n
    ensures forall jj | 0 <= jj <= j ::
      BlockCovered(GroupBlock(st, g, g.layout[j], code[g.layout[j]]), code, g.layout[jj])
  {
    LayoutIds(g);
    var blk := g.layout[j];
    var r := GroupBlock(st, g, blk, code[blk]);
    GroupBlockCovers(st, g, blk, code[blk]);
    forall jj | 0 <= jj <= j ensures BlockCovered(r, code, g.layout[jj]) {
      if jj < j && g.layout[jj] != blk {
        assert BlockCovered(st, code, g.layout[jj]);
      }
    }
  }

  // ---------------------------------------------------------------------
  // The local and global alias queries.

  /** `isAmb`: every STATIC address, and every member of the block's ambiguous set. */
  predicate IsAmb(amb: seq<set<Node>>, blk: nat, addr: Node)
    requires blk < |amb|
  {
    addr.op == STATIC || addr in amb[blk]
  }

  /** An instruction that makes `alias` answer yes: a call that may reach `raddr`, or a copy of `load`'s address into `raddr`. */
  predicate AliasHit(node: Node, raddr: Node, load: Node) {
    (node.op == CALL && MayAmb(raddr, node))
    || (node.op == SET && Kid(node, 0) == raddr && GetAddr(Kid(node, 1)) == load)
  }

  /**
   * `alias(raddr, load, blk, q)`: a hit among the instructions before
   * position `q` (all of them when `q` is the end marker -1), or `raddr`
   * in some predecessor's ambiguous set.
   */
  predicate AliasSpec(amb: seq<set<Node>>, g: Graph, instrs: seq<Node>, blk: nat, raddr: Node, load: Node, q: int)
    requires g.Valid() && |amb| == g.n && blk < g.n && q < |instrs|
  {
    (exists i | 0 <= i < (if q < 0 then |instrs| else q) :: AliasHit(instrs[i], raddr, load))
    || (exists p | p in g.preds[blk] :: raddr in amb[p])
  }

  /**
   * `checkLocal(load, store, blk, q)` continued at position `i`: 1 for
   * alias, 2 for no alias, 0 when the scan back to the block's start
   * decides nothing.
   */
  function LocalFrom(amb: seq<set<Node>>, g: Graph, code: seq<seq<Node>>, blk: nat, load: Node, store: Node, q: int, i: int): (r: int)
    requires g.Valid() && |amb| == g.n && |code| == g.n && blk < g.n && -1 <= i <= q < |code[blk]|
    ensures 0 <= r <= 2
    decreases i + 1
  {
    if i < 0 then 0
    else
      var node := code[blk][i];
      if node.op == PROLOGUE then
        if load in node.kids || store in node.kids then 1 else 2
      else if node.op == SET then
        var addr := GetAddr(Kid(node, 0));
        var src := Kid(node, 1);
        if Kid(node, 0).op == MEM && IsAmb(amb, blk, load) && IsAmb(amb, blk, store) && IsAmb(amb, blk, addr) then 1
        else if AliasSpec(amb, g, code[blk], blk, addr, store, q) then
          if AliasSpec(amb, g, code[blk], blk, GetAddr(src), load, q) || (|src.kids| > 0 && load == GetAddr(src)) then 1 else 2
        else LocalFrom(amb, g, code, blk, load, store, q, i - 1)
      else if node.op == CALL && ((MayAmb(load, node) && MayAmb(store, node)) || (IsAmb(amb, blk, load) && IsAmb(amb, blk, store))) then 1
      else LocalFrom(amb, g, code, blk, load, store, q, i - 1)
  }

  /** `checkLocal` on the whole of block `p`, as `checkGlobal` asks it of a predecessor. */
  function Answer(amb: seq<set<Node>>, g: Graph, code: seq<seq<Node>>, p: nat, load: Node, store: Node): int
    requires g.Valid() && |amb| == g.n && |code| == g.n && p < g.n
  {
    LocalFrom(amb, g, code, p, load, store, |code[p]| - 1, |code[p]| - 1)
  }

  /** The scan says "cannot tell" only when no PROLOGUE lies at or before position `i`. */
  lemma {:induction false} LocalUndecided(amb: seq<set<Node>>, g: Graph, code: seq<seq<Node>>, blk: nat, load: Node, store: Node, q: int, i: int)
    requires g.Valid() && |amb| == g.n && |code| == g.n && blk < g.n && -1 <= i <= q < |code[blk]|
    requires LocalFrom(amb, g, code, blk, load, store, q, i) == 0
    ensures forall k | 0 <= k <= i :: code[blk][k].op != PROLOGUE
    decreases i + 1
  {
    if i >= 0 {
      LocalUndecided(amb, g, code, blk, load, store, q, i - 1);
    }
  }

  /**
   * The scan says "no alias" only at a PROLOGUE naming neither address, or
   * at a SET whose destination `alias` ties to the store address while its
   * source is not tied to the load address.
   */
  lemma {:induction false} LocalNoAlias(amb: seq<set<Node>>, g: Graph, code: seq<seq<Node>>, blk: nat, load: Node, store: Node, q: int, i: int)
    requires g.Valid() && |amb| == g.n && |code| == g.n && blk < g.n && -1 <= i <= q < |code[blk]|
    requires LocalFrom(amb, g, code, blk, load, store, q, i) == 2
    ensures exists k | 0 <= k <= i ::
      (code[blk][k].op == PROLOGUE && load !in code[blk][k].kids && store !in code[blk][k].kids)
      || (code[blk][k].op == SET && AliasSpec(amb, g, code[blk], blk, GetAddr(Kid(code[blk][k], 0)), store, q)
          && !AliasSpec(amb, g, code[blk], blk, GetAddr(Kid(code[blk][k], 1)), load, q))
    decreases i + 1
  {
    var node := code[blk][i];
    if node.op != PROLOGUE && !(node.op == SET && AliasSpec(amb, g, code[blk], blk, GetAddr(Kid(node, 0)), store, q)) {
      LocalNoAlias(amb, g, code, blk, load, store, q, i - 1);
    }
  }

  /**
   * `V` is a region `checkGlobal` searched from `blk` without finding an
   * alias: every block of it but `blk` answered "cannot tell", and every
   * predecessor of a block in it is in it or answered "no alias".
   */
  predicate Exhausted(amb: seq<set<Node>>, g: Graph, code: seq<seq<Node>>, blk: nat, load: Node, store: Node, V: set<nat>)
    requires g.Valid() && |amb| == g.n && |code| == g.n
  {
    && blk in V && (forall b | b in V :: b < g.n)
    && (forall b | b in V && b < g.n :: forall p | p in g.preds[b] :: p in V || (p < g.n && Answer(amb, g, code, p, load, store) == 2))
    && (forall b | b in V && b < g.n && b != blk :: Answer(amb, g, code, b, load, store) == 0)
  }

  /** Visiting only grows, and every block newly visited, `blk` aside, answered "cannot tell". */
  ghost predicate Quiet(amb: seq<set<Node>>, g: Graph, code: seq<seq<Node>>, load: Node, store: Node,
                        blk: nat, v0: seq<bool>, v: seq<bool>)
    requires g.Valid() && |amb| == g.n && |code| == g.n
  {
    && |v0| == g.n && |v| == g.n
    && (forall b | 0 <= b < g.n && v0[b] :: v[b])
    && (forall b | 0 <= b < g.n && v[b] && !v0[b] && b != blk :: Answer(amb, g, code, b, load, store) == 0)
  }

  /** Predecessor `p` is a block, and it is visited or answered "no alias". */
  ghost predicate Settled(amb: seq<set<Node>>, g: Graph, code: seq<seq<Node>>, load: Node, store: Node,
                          v: seq<bool>, p: nat)
    requires g.Valid() && |amb| == g.n && |code| == g.n && |v| == g.n
  {
    p < g.n && (v[p] || Answer(amb, g, code, p, load, store) == 2)
  }

  /** Settled predecessors stay settled as more blocks are visited. */
  lemma SettledKept(amb: seq<set<Node>>, g: Graph, code: seq<seq<Node>>, load: Node, store: Node,
                    v1: seq<bool>, v2: seq<bool>, ps: seq<nat>, j: nat)
    requires g.Valid() && |amb| == g.n && |code| == g.n && |v1| == g.n && |v2| == g.n && j <= |ps|
    requires forall q | 0 <= q < g.n && v1[q] :: v2[q]
    requires forall k | 0 <= k < j :: Settled(amb, g, code, load, store, v1, ps[k])
    ensures forall k | 0 <= k < j :: Settled(amb, g, code, load, store, v2, ps[k])
  {
  }

  /** Every predecessor of `b` is settled. */
  ghost predicate PredsSettled(amb: seq<set<Node>>, g: Graph, code: seq<seq<Node>>, load: Node, store: Node,
                               v: seq<bool>, b: nat)
    requires g.Valid() && |amb| == g.n && |code| == g.n && |v| == g.n && b < g.n
  {
    forall p | p in g.preds[b] :: Settled(amb, g, code, load, store, v, p)
  }

  /** Every block newly visited, `blk` aside, has its predecessors settled. */
  ghost predicate Closed(amb: seq<set<Node>>, g: Graph, code: seq<seq<Node>>, load: Node, store: Node,
                         blk: nat, v0: seq<bool>, v: seq<bool>)
    requires g.Valid() && |amb| == g.n && |code| == g.n
  {
    && |v0| == g.n && |v| == g.n
    && forall b | 0 <= b < g.n && v[b] && !v0[b] && b != blk :: PredsSettled(amb, g, code, load, store, v, b)
  }

  /** Some newly visited block has a predecessor that answered "alias". */
  ghost predicate Found(amb: seq<set<Node>>, g: Graph, code: seq<seq<Node>>, load: Node, store: Node,
                        v0: seq<bool>, v: seq<bool>)
    requires g.Valid() && |amb| == g.n && |code| == g.n
  {
    |v0| == g.n && |v| == g.n &&
    exists b, p | 0 <= b < g.n && p in g.preds[b] :: v[b] && !v0[b] && p < g.n && Answer(amb, g, code, p, load, store) == 1
  }

  /** A hit found past a later snapshot is a hit past an earlier one. */
  lemma FoundGrow(amb: seq<set<Node>>, g: Graph, code: seq<seq<Node>>, load: Node, store: Node,
                  v0: seq<bool>, v1: seq<bool>, v2: seq<bool>)
    requires g.Valid() && |amb| == g.n && |code| == g.n && |v0| == g.n && |v1| == g.n
    requires forall b | 0 <= b < g.n && v0[b] :: v1[b]
    requires Found(amb, g, code, load, store, v1, v2)
    ensures Found(amb, g, code, load, store, v0, v2)
  {
    var b, p :| 0 <= b < g.n && p in g.preds[b] && v2[b] && !v1[b] && p < g.n && Answer(amb, g, code, p, load, store) == 1;
    assert !v0[b];
  }

  /** A search from `blk` with nothing visited before that finds nothing has exhausted the blocks it visited. */
  lemma SearchExhausted(amb: seq<set<Node>>, g: Graph, code: seq<seq<Node>>, load: Node, store: Node,
                        blk: nat, v0: seq<bool>, v: seq<bool>)
    requires g.Valid() && |amb| == g.n && |code| == g.n && blk < g.n
    requires |v0| == g.n && forall b | 0 <= b < g.n :: !v0[b]
    requires |v| == g.n && v[blk] && Quiet(amb, g, code, load, store, blk, v0, v) && Closed(amb, g, code, load, store, blk, v0, v)
    requires PredsSettled(amb, g, code, load, store, v, blk)
    ensures Exhausted(amb, g, code, blk, load, store, set b | 0 <= b < g.n && v[b])
  {
    var V := set b | 0 <= b < g.n && v[b];
    forall b | b in V && b < g.n
      ensures forall p | p in g.preds[b] :: p in V || (p < g.n && Answer(amb, g, code, p, load, store) == 2)
    {
      assert PredsSettled(amb, g, code, load, store, v, b);
      forall p | p in g.preds[b] ensures p in V || (p < g.n && Answer(amb, g, code, p, load, store) == 2) {
        assert Settled(amb, g, code, load, store, v, p);
      }
    }
  }

  /** A search from predecessor `p`, which could not tell, leaves the search from `blk` quiet. */
  lemma QuietJoin(amb: seq<set<Node>>, g: Graph, code: seq<seq<Node>>, load: Node, store: Node,
                  blk: nat, p: nat, v0: seq<bool>, v1: seq<bool>, v2: seq<bool>)
    requires g.Valid() && |amb| == g.n && |code| == g.n && blk < g.n && p < g.n
    requires Quiet(amb, g, code, load, store, blk, v0, v1) && v1[blk] && !v1[p]
    requires Answer(amb, g, code, p, load, store) == 0
    requires Quiet(amb, g, code, load, store, p, v1, v2)
    ensures Quiet(amb, g, code, load, store, blk, v0, v2)
  {
  }

  /** A finished search from predecessor `p` leaves the search from `blk` closed. */
  lemma JoinSearch(amb: seq<set<Node>>, g: Graph, code: seq<seq<Node>>, load: Node, store: Node,
                   blk: nat, p: nat, v0: seq<bool>, v1: seq<bool>, v2: seq<bool>)
    requires g.Valid() && |amb| == g.n && |code| == g.n && blk < g.n && p < g.n
    requires Quiet(amb, g, code, load, store, blk, v0, v1) && Closed(amb, g, code, load, store, blk, v0, v1)
    requires v1[blk] && !v1[p]
    requires Quiet(amb, g, code, load, store, p, v1, v2) && Closed(amb, g, code, load, store, p, v1, v2)
    requires PredsSettled(amb, g, code, load, store, v2, p)
    ensures Closed(amb, g, code, load, store, blk, v0, v2)
  {
    forall b | 0 <= b < g.n && v2[b] && !v0[b] && b != blk
      ensures PredsSettled(amb, g, code, load, store, v2, b)
    {
      if v1[b] {
        assert PredsSettled(amb, g, code, load, store, v1, b);
        forall q | q in g.preds[b] ensures Settled(amb, g, code, load, store, v2, q) {
          assert Settled(amb, g, code, load, store, v1, q);
        }
      }
    }
  }

  /** The two "cannot tell yet" addresses: distinct, and not both STATIC or both FRAME. */
  predicate Undecided(load: Node, store: Node) {
    && load.op == MEM && store.op == MEM
    && GetAddr(load) != GetAddr(store)
    && !(GetAddr(load).op == STATIC && GetAddr(store).op == STATIC)
    && !(GetAddr(load).op == FRAME && GetAddr(store).op == FRAME)
  }

  /** The values of a PHI's arguments before position `k` (position 0 is the target). */
  function ArgValues(phi: Node, k: nat): set<Node> {
    set i | 1 <= i < k && i < |phi.kids| :: PhiArgValue(phi.kids[i])
  }

  /**
   * The argument values grow one argument at a time, start empty, and
   * stop growing past the last kid.
   */
  lemma ArgValuesStep(phi: Node, i: nat)
    ensures ArgValues(phi, 1) == {} && ArgValues(phi, 0) == {}
    ensures 1 <= i < |phi.kids| ==> ArgValues(phi, i + 1) == ArgValues(phi, i) + {PhiArgValue(phi.kids[i])}
    ensures i >= |phi.kids| ==> ArgValues(phi, i) == ArgValues(phi, |phi.kids|)
  {
    if 1 <= i < |phi.kids| {
      var v := PhiArgValue(phi.kids[i]);
      assert v in ArgValues(phi, i + 1);
    }
  }

  /** Everything `makePhiCC` puts in the PHI's class: the argument values and the target. */
  function PhiOperands(phi: Node): set<Node> {
    ArgValues(phi, |phi.kids|) + {Kid(phi, 0)}
  }

  // ---------------------------------------------------------------------
  // The analysis object.

  /** The oracle for one function, with its per-block sets and its congruence classes. */
  class Analysis {
    const f: Function
    var ambSets: seq<set<Node>>
    var aliases: seq<map<Node, set<Node>>>
    var classes: seq<set<Node>>

    predicate Valid()
      reads this, f
    {
      f.Valid() && |ambSets| == f.g.n && |aliases| == f.g.n && Disjoint(classes)
    }

    /** Every PHI of the function has all its operands in one class. */
    predicate PhisTogether()
      reads this, f
    {
      forall b, k | 0 <= b < |f.code| && 0 <= k < |f.code[b]| && f.code[b][k].op == PHI ::
        Together(classes, PhiOperands(f.code[b][k]))
    }

    /** `checkLocal` on the whole of block `p`. */
    function Ans(p: nat, load: Node, store: Node): int
      reads this, f
      requires Valid() && p < f.g.n
    {
      Answer(ambSets, f.g, f.code, p, load, store)
    }

    /** Builds the ambiguous sets and alias maps, then the congruence classes. */
    constructor (f: Function)
      requires f.Valid()
      ensures this.f == f && Valid()
      ensures forall b | 0 <= b < f.g.n :: Covered(ambSets[b], f.code[b]) && AliasCovered(aliases[b], f.code[b])
      ensures PhisTogether()
    {
      this.f := f;
      ambSets := [];
      aliases := [];
      classes := [];
      new;
      MakeMayAliasGroup();
      MakeCongruenceClass();
    }

    // -- congruence classes --------------------------------------------

    /** `getCC`: takes out and returns the first class holding `v`. */
    method GetCC(v: Node) returns (cc: Option<set<Node>>)
      modifies this`classes
      ensures match FirstWith(old(classes), v)
        case None => cc == None && classes == old(classes)
        case Some(i) => cc == Some(old(classes)[i]) && classes == old(classes)[..i] + old(classes)[i + 1..]
    {
      var i := 0;
      while i < |classes|
        invariant i <= |classes| && classes == old(classes)
        invariant forall j | 0 <= j < i :: v !in classes[j]
      {
        if v in classes[i] {
          FirstIs(classes, v, i);
          cc := Some(classes[i]);
          classes := classes[..i] + classes[i + 1..];
          return;
        }
        i := i + 1;
      }
      cc := None;
    }

    /**
     * `checkCongruence`: whether `v2` is in the class of `v1`. The lookup
     * takes that class out of the list, as `getCC` does.
     */
    method CheckCongruence(v1: Node, v2: Node) returns (r: bool)
      requires Disjoint(classes)
      modifies this`classes
      ensures r <==> exists j | 0 <= j < |old(classes)| :: v1 in old(classes)[j] && v2 in old(classes)[j]
      ensures classes == Untouched(old(classes), {v1}) && Disjoint(classes)
    {
      ghost var cs := classes;
      var cc := GetCC(v1);
      r := cc.Some? && v2 in cc.value;
      match FirstWith(cs, v1)
      case None =>
        NoneUntouched(cs, v1);
      case Some(i) =>
        RemoveFirst(cs, v1, i);
        forall j | 0 <= j < |cs| && v1 in cs[j] ensures j == i {
          DisjointSame(cs, j, i, v1);
        }
      UntouchedDisjoint(cs, {v1});
    }

    /** `newCC.addAll(getCC(v)); newCC.add(v)`: one operand folded into the class being built. */
    method Absorb(v: Node, acc: set<Node>, ghost base: seq<set<Node>>, ghost seen: set<Node>) returns (acc': set<Node>)
      requires Disjoint(base) && classes == Untouched(base, seen) && acc == Merged(base, seen)
      modifies this`classes
      ensures classes == Untouched(base, seen + {v}) && acc' == Merged(base, seen + {v})
    {
      AbsorbStep(base, seen, v);
      MergedStep(base, seen, v);
      var cc := GetCC(v);
      acc' := acc;
      if cc.Some? {
        acc' := acc' + cc.value;
      }
      acc' := acc' + {v};
    }

    /**
     * `makePhiCC`: the classes of the PHI's operands are taken out and
     * merged, with the operands, into one new class at the end.
     */
    method MakePhiCC(phi: Node)
      requires Disjoint(classes)
      modifies this`classes
      ensures classes == Untouched(old(classes), PhiOperands(phi)) + [Merged(old(classes), PhiOperands(phi))]
      ensures Disjoint(classes)
    {
      ghost var base := classes;
      var newCC := AbsorbArgs(phi, base);
      newCC := Absorb(Kid(phi, 0), newCC, base, ArgValues(phi, |phi.kids|));
      classes := classes + [newCC];
      MergeDisjoint(base, PhiOperands(phi));
    }

    /** The loop of `makePhiCC` over the PHI's arguments. */
    method AbsorbArgs(phi: Node, ghost base: seq<set<Node>>) returns (newCC: set<Node>)
      requires Disjoint(base) && classes == base
      modifies this`classes
      ensures classes == Untouched(base, ArgValues(phi, |phi.kids|)) && newCC == Merged(base, ArgValues(phi, |phi.kids|))
    {
      UntouchedEmpty(base);
      newCC := {};
      assert newCC == Merged(base, {});
      ArgValuesStep(phi, 0);
      var i := 1;
      while i < |phi.kids|
        invariant 1 <= i && (i <= |phi.kids| || i == 1)
        invariant classes == Untouched(base, ArgValues(phi, i)) && newCC == Merged(base, ArgValues(phi, i))
      {
        ArgValuesStep(phi, i);
        newCC := Absorb(PhiArgValue(phi.kids[i]), newCC, base, ArgValues(phi, i));
        i := i + 1;
      }
      ArgValuesStep(phi, i);
    }

    /** `makeCongruenceClass`: a class for every PHI of the function, in block-list order. */
    method MakeCongruenceClass()
      requires f.Valid()
      modifies this`classes
      ensures Disjoint(classes) && PhisTogether()
    {
      classes := [];
      LayoutIds(f.g);
      var j := 0;
      while j < |f.g.layout|
        invariant j <= |f.g.layout| && Disjoint(classes)
        invariant BlocksTogether(classes, f.code, f.g.layout, j)
      {
        var instrs := f.code[f.g.layout[j]];
        var k := 0;
        while k < |instrs|
          invariant k <= |instrs| && Disjoint(classes)
          invariant BlocksTogether(classes, f.code, f.g.layout, j)
          invariant InstrsTogether(classes, instrs, k)
        {
          var phi := instrs[k];
          if phi.op == PHI {
            ghost var before := classes;
            MakePhiCC(phi);
            MergeKeepsBlocks(before, PhiOperands(phi), f.code, f.g.layout, j);
            MergeKeepsInstrs(before, PhiOperands(phi), instrs, k);
            assert PhiOperands(phi) <= classes[|classes| - 1];
          }
          k := k + 1;
        }
        j := j + 1;
      }
      forall b, k | 0 <= b < |f.code| && 0 <= k < |f.code[b]| && f.code[b][k].op == PHI
        ensures Together(classes, PhiOperands(f.code[b][k]))
      {
        assert b in f.g.layout;
        var jj :| 0 <= jj < |f.g.layout| && f.g.layout[jj] == b;
        assert InstrsTogether(classes, f.code[b], |f.code[b]|);
      }
    }

    // -- ambiguous sets and alias maps ---------------------------------

    /** `makeMayAliasGroup`: fresh sets and maps, then every block in block-list order. */
    method MakeMayAliasGroup()
      requires f.Valid()
      modifies this`ambSets, this`aliases
      ensures |ambSets| == f.g.n && |aliases| == f.g.n
      ensures forall b | 0 <= b < f.g.n :: Covered(ambSets[b], f.code[b]) && AliasCovered(aliases[b], f.code[b])
    {
      ambSets := seq(f.g.n, _ => {});
      aliases := seq(f.g.n, _ => map[]);
      LayoutIds(f.g);
      var j := 0;
      while j < |f.g.layout|
        invariant j <= |f.g.layout| && |ambSets| == f.g.n && |aliases| == f.g.n
        invariant forall jj | 0 <= jj < j :: BlockCovered(Groups(ambSets, aliases), f.code, f.g.layout[jj])
      {
        var blk := f.g.layout[j];
        ghost var before := Groups(ambSets, aliases);
        MakeMayAliasGroupBlock(blk);
        CoverStep(before, f.g, f.code, j);
        j := j + 1;
      }
      forall b | 0 <= b < f.g.n ensures Covered(ambSets[b], f.code[b]) && AliasCovered(aliases[b], f.code[b]) {
        assert b in f.g.layout;
        var jj :| 0 <= jj < |f.g.layout| && f.g.layout[jj] == b;
        assert BlockCovered(Groups(ambSets, aliases), f.code, f.g.layout[jj]);
      }
    }

    /** `makeMayAliasGroup(blk)`: PROLOGUE registers, SET entries and call operands of one block. */
    method MakeMayAliasGroupBlock(blk: nat)
      requires f.Valid() && |ambSets| == f.g.n && |aliases| == f.g.n && blk < f.g.n
      modifies this`ambSets, this`aliases
      ensures Groups(ambSets, aliases) == GroupBlock(Groups(old(ambSets), old(aliases)), f.g, blk, f.code[blk])
    {
      ghost var start := Groups(ambSets, aliases);
      var instrs := f.code[blk];
      var i := 0;
      while i < |instrs|
        invariant i <= |instrs| && |ambSets| == f.g.n && |aliases| == f.g.n
        invariant Groups(ambSets, aliases) == GroupBlock(start, f.g, blk, instrs[..i])
      {
        assert instrs[..i + 1][..i] == instrs[..i] && instrs[..i + 1][i] == instrs[i];
        GroupInstr(instrs[i], blk);
        i := i + 1;
      }
      assert instrs[..i] == instrs;
    }

    /** One instruction of `makeMayAliasGroup(blk)`. */
    method GroupInstr(node: Node, blk: nat)
      requires f.Valid() && |ambSets| == f.g.n && |aliases| == f.g.n && blk < f.g.n
      modifies this`ambSets, this`aliases
      ensures Groups(ambSets, aliases) == GroupStep(Groups(old(ambSets), old(aliases)), f.g, blk, node)
    {
      if node.op == PROLOGUE {
        AddPrologueRegs(node, blk);
      }
      if node.op == SET {
        InsertNewEntry(node, blk);
      }
      if node.op == CALL {
        GetAmbSet(node, blk);
      }
    }

    /** The PROLOGUE loop of `makeMayAliasGroup(blk)`: its register kids join the block's set. */
    method AddPrologueRegs(node: Node, blk: nat)
      requires blk < |ambSets|
      modifies this`ambSets
      ensures ambSets == old(ambSets)[blk := old(ambSets)[blk] + PrologueRegs(node)]
    {
      var k := 0;
      while k < |node.kids|
        invariant k <= |node.kids| && |ambSets| == |old(ambSets)|
        invariant ambSets[blk] == old(ambSets)[blk] + KidRegs(node.kids[..k])
        invariant forall b | 0 <= b < |ambSets| && b != blk :: ambSets[b] == old(ambSets)[b]
      {
        assert node.kids[..k + 1] == node.kids[..k] + [node.kids[k]];
        if node.kids[k].op == REG {
          ambSets := ambSets[blk := ambSets[blk] + {node.kids[k]}];
        }
        k := k + 1;
      }
      assert node.kids[..k] == node.kids;
    }

    /**
     * `insertNewEntry`: the block's ambiguous set gains the SET's two
     * addresses (and related predecessor sets), and the destination
     * address's alias set gains both addresses and the source's aliases.
     * The final removal never fires: `setAmbSet` has just added `raddr`.
     */
    method InsertNewEntry(ins: Node, blk: nat)
      requires PredsIn(f.g) && |ambSets| == f.g.n && |aliases| == f.g.n && blk < f.g.n
      modifies this`ambSets, this`aliases
      ensures ambSets == old(ambSets)[blk := InsertAmb(old(ambSets), PredsOf(f.g, blk), blk, ins)]
      ensures aliases == old(aliases)[blk := AliasEntry(old(aliases)[blk], LAddr(ins), RAddr(ins))]
      ensures LAddr(ins) in ambSets[blk] && RAddr(ins) in ambSets[blk]
    {
      var laddr := GetAddr(Kid(ins, 0));
      var raddr := GetAddr(Kid(ins, 1));
      SetAmbSet(laddr, raddr, blk);
      ghost var folded := ambSets;
      assert {laddr, raddr} <= ambSets[blk];
      var m := aliases[blk];
      var addrs := if laddr in m then m[laddr] else {};
      addrs := addrs + {laddr, raddr};
      m := m[laddr := addrs];
      if raddr in m {
        m := m[laddr := m[laddr] + m[raddr]];
      }
      aliases := aliases[blk := m];
      var amb := ambSets[blk];
      if Kid(ins, 0).op == REG && !(raddr.op == STATIC || raddr in amb) {
        amb := amb - {laddr};
      }
      assert amb == folded[blk];
      ambSets := ambSets[blk := amb];
      assert ambSets == folded;
    }

    /** `setAmbSet`: both addresses, and every predecessor set holding one of them, join the block's set. */
    method SetAmbSet(addr1: Node, addr2: Node, blk: nat)
      requires PredsIn(f.g) && |ambSets| == f.g.n && blk < f.g.n
      modifies this`ambSets
      ensures ambSets == old(ambSets)[blk := AmbFold(old(ambSets)[blk] + {addr1, addr2}, old(ambSets), blk, PredsOf(f.g, blk), addr1, addr2)]
    {
      var ps := f.g.preds[blk];
      IdsBelowAt(f.g.preds, f.g.n, blk);
      ghost var amb := ambSets;
      var cur := ambSets[blk] + {addr1, addr2};
      var j := 0;
      while j < |ps|
        invariant j <= |ps| && ambSets == amb && {addr1, addr2} <= cur
        invariant AmbFold(cur, amb, blk, ps[j..], addr1, addr2) == AmbFold(amb[blk] + {addr1, addr2}, amb, blk, ps, addr1, addr2)
      {
        var p := ps[j];
        var predAmb := if p == blk then cur else ambSets[p];
        assert ps[j..][0] == p && ps[j..][1..] == ps[j + 1..];
        ghost var next := if p != blk && (addr1 in amb[p] || addr2 in amb[p]) then cur + amb[p] else cur;
        assert AmbFold(cur, amb, blk, ps[j..], addr1, addr2) == AmbFold(next, amb, blk, ps[j + 1..], addr1, addr2);
        if addr1 in predAmb || addr2 in predAmb {
          cur := cur + predAmb;
        }
        assert cur == next;
        j := j + 1;
      }
      ambSets := ambSets[blk := cur];
    }

    /** `getAmbSet`: every operand register of `exp` joins the block's set. */
    method GetAmbSet(exp: Node, blk: nat)
      requires blk < |ambSets|
      modifies this`ambSets
      ensures ambSets == old(ambSets)[blk := old(ambSets)[blk] + AmbVars(exp)]
      decreases exp
    {
      ghost var got: set<Node> := {};
      ghost var a0 := ambSets;
      JoinNothing(a0, blk);
      var i := 0;
      while i < |exp.kids|
        invariant i <= |exp.kids| && got == Elems(CollectVarsUpTo(exp, i))
        invariant ambSets == a0[blk := a0[blk] + got]
      {
        var k := exp.kids[i];
        AmbVarsStep(exp, i);
        ghost var add := if k.op == REG then {k} else AmbVars(k);
        if k.op == REG {
          ambSets := ambSets[blk := ambSets[blk] + {k}];
        } else if |k.kids| > 0 {
          GetAmbSet(k, blk);
        } else {
          JoinNothing(ambSets, blk);
        }
        JoinTwice(a0, blk, got, add);
        got := got + add;
        i := i + 1;
      }
    }

    // -- queries --------------------------------------------------------

    /** `alias(raddr, load, blk, q)`, as `AliasSpec` states it. */
    method Alias(raddr: Node, load: Node, blk: nat, q: int) returns (r: bool)
      requires Valid() && blk < f.g.n && -1 <= q < |f.code[blk]|
      ensures r == AliasSpec(ambSets, f.g, f.code[blk], blk, raddr, load, q)
    {
      var instrs := f.code[blk];
      var stop := if q < 0 then |instrs| else q;
      var i := 0;
      while i < stop
        invariant i <= stop
        invariant forall k | 0 <= k < i :: !AliasHit(instrs[k], raddr, load)
      {
        var node := instrs[i];
        if node.op == CALL && MayAmb(raddr, node) {
          return true;
        }
        if node.op == SET && Kid(node, 0) == raddr && GetAddr(Kid(node, 1)) == load {
          return true;
        }
        i := i + 1;
      }
      var ps := f.g.preds[blk];
      IdsBelowAt(f.g.preds, f.g.n, blk);
      var j := 0;
      while j < |ps|
        invariant j <= |ps|
        invariant forall k | 0 <= k < j :: raddr !in ambSets[ps[k]]
      {
        if raddr in ambSets[ps[j]] {
          return true;
        }
        j := j + 1;
      }
      return false;
    }

    /** `checkLocal(load, store, blk, q)`: the backward scan from position `q`, as `LocalFrom` states it. */
    method CheckLocal(load: Node, store: Node, blk: nat, q: int) returns (ans: int)
      requires Valid() && blk < f.g.n && -1 <= q < |f.code[blk]|
      ensures ans == LocalFrom(ambSets, f.g, f.code, blk, load, store, q, q)
    {
      var instrs := f.code[blk];
      var p := q;
      while p >= 0
        invariant -1 <= p <= q
        invariant LocalFrom(ambSets, f.g, f.code, blk, load, store, q, p) == LocalFrom(ambSets, f.g, f.code, blk, load, store, q, q)
      {
        var node := instrs[p];
        if node.op == PROLOGUE {
          var i := 0;
          while i < |node.kids|
            invariant i <= |node.kids|
            invariant forall k | 0 <= k < i :: node.kids[k] != load && node.kids[k] != store
          {
            if node.kids[i] == load || node.kids[i] == store {
              return 1;
            }
            i := i + 1;
          }
          return 2;
        }
        if node.op == SET {
          var addr := GetAddr(Kid(node, 0));
          if Kid(node, 0).op == MEM {
            if IsAmb(ambSets, blk, load) && IsAmb(ambSets, blk, store) && IsAmb(ambSets, blk, addr) {
              return 1;
            }
          }
          var hit := Alias(addr, store, blk, q);
          if hit {
            var back := Alias(GetAddr(Kid(node, 1)), load, blk, q);
            if back || (|Kid(node, 1).kids| > 0 && load == GetAddr(Kid(node, 1))) {
              return 1;
            }
            return 2;
          }
        }
        if node.op == CALL {
          if (MayAmb(load, node) && MayAmb(store, node)) || (IsAmb(ambSets, blk, load) && IsAmb(ambSets, blk, store)) {
            return 1;
          }
        }
        p := p - 1;
      }
      return 0;
    }

    /** The blocks not visited yet. */
    ghost function Unvisited(visited: array<bool>): set<nat>
      reads visited
    {
      set b | 0 <= b < visited.Length && !visited[b]
    }

    /**
     * `checkGlobal(load, store, blk, visited)`: marks `blk` and asks each
     * unvisited predecessor; "alias" ends the search, "no alias" skips the
     * predecessor, and "cannot tell" searches on from it. A block is
     * searched only while unvisited, so at most once.
     */
    method CheckGlobalFrom(load: Node, store: Node, blk: nat, visited: array<bool>) returns (r: bool)
      requires Valid() && blk < f.g.n && visited.Length == f.g.n && !visited[blk]
      modifies visited
      ensures visited[blk] && Quiet(ambSets, f.g, f.code, load, store, blk, old(visited[..]), visited[..])
      ensures r ==> Found(ambSets, f.g, f.code, load, store, old(visited[..]), visited[..])
      ensures !r ==> Closed(ambSets, f.g, f.code, load, store, blk, old(visited[..]), visited[..])
      ensures !r ==> PredsSettled(ambSets, f.g, f.code, load, store, visited[..], blk)
      decreases Unvisited(visited), 1
    {
      ghost var v0 := visited[..];
      visited[blk] := true;
      var ps := f.g.preds[blk];
      IdsBelowAt(f.g.preds, f.g.n, blk);
      var j := 0;
      while j < |ps|
        invariant j <= |ps| && visited[blk]
        invariant Unvisited(visited) <= old(Unvisited(visited)) - {blk}
        invariant Quiet(ambSets, f.g, f.code, load, store, blk, v0, visited[..])
        invariant Closed(ambSets, f.g, f.code, load, store, blk, v0, visited[..])
        invariant forall k | 0 <= k < j :: Settled(ambSets, f.g, f.code, load, store, visited[..], ps[k])
      {
        ghost var v1 := visited[..];
        var hit := AskPred(load, store, blk, ps[j], visited, v0);
        if hit {
          return true;
        }
        SettledKept(ambSets, f.g, f.code, load, store, v1, visited[..], ps, j);
        j := j + 1;
      }
      return false;
    }

    /**
     * One predecessor `p` of `blk` in `checkGlobal`'s loop: skipped when
     * visited, else asked, and searched on from when it cannot tell.
     */
    method AskPred(load: Node, store: Node, blk: nat, p: nat, visited: array<bool>, ghost v0: seq<bool>) returns (hit: bool)
      requires Valid() && blk < f.g.n && p in f.g.preds[blk] && p < f.g.n
      requires visited.Length == f.g.n && visited[blk] && |v0| == f.g.n && !v0[blk]
      requires Quiet(ambSets, f.g, f.code, load, store, blk, v0, visited[..])
      requires Closed(ambSets, f.g, f.code, load, store, blk, v0, visited[..])
      modifies visited
      ensures visited[blk] && Unvisited(visited) <= old(Unvisited(visited))
      ensures forall q | 0 <= q < f.g.n && old(visited[q]) :: visited[q]
      ensures Quiet(ambSets, f.g, f.code, load, store, blk, v0, visited[..])
      ensures hit ==> Found(ambSets, f.g, f.code, load, store, v0, visited[..])
      ensures !hit ==> Closed(ambSets, f.g, f.code, load, store, blk, v0, visited[..])
      ensures !hit ==> Settled(ambSets, f.g, f.code, load, store, visited[..], p)
      decreases Unvisited(visited), 2
    {
      if visited[p] {
        return false;
      }
      var ans := CheckLocal(load, store, p, |f.code[p]| - 1);
      if ans == 1 {
        assert visited[..][blk] && !v0[blk] && Answer(ambSets, f.g, f.code, p, load, store) == 1;
        return true;
      }
      if ans == 2 {
        return false;
      }
      ghost var v1 := visited[..];
      hit := CheckGlobalFrom(load, store, p, visited);
      QuietJoin(ambSets, f.g, f.code, load, store, blk, p, v0, v1, visited[..]);
      if hit {
        FoundGrow(ambSets, f.g, f.code, load, store, v0, v1, visited[..]);
      } else {
        JoinSearch(ambSets, f.g, f.code, load, store, blk, p, v0, v1, visited[..]);
      }
    }

    /** `checkGlobal(load, store, blk)`: the search from `blk` with nothing visited. */
    method CheckGlobal(load: Node, store: Node, blk: nat) returns (r: bool)
      requires Valid() && blk < f.g.n
      ensures r ==> exists b, p | 0 <= b < f.g.n && p in f.g.preds[b] ::
        p < f.g.n && Ans(p, load, store) == 1 && (b == blk || Ans(b, load, store) == 0)
      ensures !r ==> exists V: set<nat> :: Exhausted(ambSets, f.g, f.code, blk, load, store, V)
    {
      var visited := new bool[f.g.n](_ => false);
      ghost var v0 := visited[..];
      r := CheckGlobalFrom(load, store, blk, visited);
      if r {
        ghost var b, p :| 0 <= b < f.g.n && p in f.g.preds[b] && visited[b] && !v0[b] && p < f.g.n
          && Answer(ambSets, f.g, f.code, p, load, store) == 1;
        assert Ans(p, load, store) == 1 && (b == blk || Ans(b, load, store) == 0);
      } else {
        SearchExhausted(ambSets, f.g, f.code, load, store, blk, v0, visited[..]);
      }
    }

    /**
     * `checkAlias(load, store, blk, q)`: whether the load and the store
     * may touch the same memory. Only two distinct FRAME addresses, a
     * local "no alias", or an exhausted global search answer no.
     */
    method CheckAlias(load: Node, store: Node, blk: nat, q: int) returns (r: bool)
      requires Valid() && blk < f.g.n && -1 <= q < |f.code[blk]|
      ensures (load.op != MEM || store.op != MEM) ==> r
      ensures load.op == MEM && store.op == MEM && GetAddr(load) == GetAddr(store) ==> r
      ensures load.op == MEM && store.op == MEM && GetAddr(load).op == STATIC && GetAddr(store).op == STATIC ==> r
      ensures (load.op == MEM && store.op == MEM && GetAddr(load) != GetAddr(store)
        && GetAddr(load).op == FRAME && GetAddr(store).op == FRAME) ==> !r
      ensures Undecided(load, store) && LocalFrom(ambSets, f.g, f.code, blk, GetAddr(load), GetAddr(store), q, q) == 1 ==> r
      ensures Undecided(load, store) && !r ==>
        exists V: set<nat> :: Exhausted(ambSets, f.g, f.code, blk, GetAddr(load), GetAddr(store), V)
      ensures Undecided(load, store) && r && LocalFrom(ambSets, f.g, f.code, blk, GetAddr(load), GetAddr(store), q, q) != 1 ==>
        exists b, p | 0 <= b < f.g.n && p in f.g.preds[b] ::
          p < f.g.n && Ans(p, GetAddr(load), GetAddr(store)) == 1 && (b == blk || Ans(b, GetAddr(load), GetAddr(store)) == 0)
    {
      if load.op != MEM || store.op != MEM {
        return true;
      }
      var addr1 := GetAddr(load);
      var addr2 := GetAddr(store);
      if addr1 == addr2 {
        return true;
      }
      if addr1.op == STATIC && addr2.op == STATIC {
        return true;
      }
      if addr1.op == FRAME && addr2.op == FRAME {
        return false;
      }
      var ans := CheckLocal(addr1, addr2, blk, q);
      if ans == 1 {
        return true;
      }
      r := CheckGlobal(addr1, addr2, blk);
    }
  }

  /** A class holding `v` with none before it is the one `FirstWith` finds. */
  lemma FirstIs(cs: seq<set<Node>>, v: Node, i: nat)
    requires i < |cs| && v in cs[i] && forall j | 0 <= j < i :: v !in cs[j]
    ensures FirstWith(cs, v) == Some(i)
  {
    match FirstWith(cs, v)
    case Some(k) =>
      assert !(k < i) && !(i < k);
    case None =>
  }
}
