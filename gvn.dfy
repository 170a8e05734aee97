// Global value numbering on SSA form. Value numbers are handed out by a
// counter; a value table maps variables and value expressions (operator
// trees whose operands are replaced by the constants of their value
// numbers) to numbers; each block keeps the variable that holds each number
// in it and the set of numbers reachable at its end. Loop phis are numbered
// optimistically: the assumptions made are recorded, checked afterwards and
// the dependent numbers recomputed with a worklist when one fails.
module ValueNumbering {
  import opened Lir
  import opened Cfg
  import opened MemoryVersioning

  /** `ve` is a PHI value expression all of whose arguments carry the same number, not -1. */
  predicate SameArgs(ve: Node) {
    Kid(ve, 1).sym != -1 && forall i | 2 <= i < |ve.kids| :: ve.kids[i] == Kid(ve, 1)
  }

  /** The number of PHI instructions at the head of a block. */
  function PhiCount(instrs: seq<Node>): (c: nat)
    ensures c <= |instrs|
    ensures forall k | 0 <= k < c :: instrs[k].op == PHI
    ensures c < |instrs| ==> instrs[c].op != PHI
  {
    if |instrs| == 0 || instrs[0].op != PHI then 0 else 1 + PhiCount(instrs[1..])
  }

  /** The union of the sets `reach` records for the blocks `ps`. */
  ghost function PredReach(reach: seq<set<int>>, ps: seq<nat>): set<int>
    requires forall j | 0 <= j < |ps| :: ps[j] < |reach|
  {
    if |ps| == 0 then {} else PredReach(reach, ps[..|ps| - 1]) + reach[ps[|ps| - 1]]
  }

  lemma {:induction false} PredReachHas(reach: seq<set<int>>, ps: seq<nat>)
    requires forall j | 0 <= j < |ps| :: ps[j] < |reach|
    ensures forall j | 0 <= j < |ps| :: reach[ps[j]] <= PredReach(reach, ps)
  {
    if |ps| > 0 {
      PredReachHas(reach, ps[..|ps| - 1]);
      forall j | 0 <= j < |ps| ensures reach[ps[j]] <= PredReach(reach, ps) {
        if j < |ps| - 1 {
          assert ps[..|ps| - 1][j] == ps[j];
        }
      }
    }
  }

  /**
   * A SET with a register destination and a compound source may have that
   * source replaced by an earlier holder of its value: always in mode 1,
   * and in mode 2 only when the source is not a load.
   */
  predicate ElimAllowed(instr: Node, elmode: int) {
    IsRegSet(instr) && NKids(Kid(instr, 1)) > 0 &&
    (elmode == 1 || (elmode == 2 && Kid(instr, 1).op != MEM))
  }

  /** `cur` is `orig` with at most the source of an eliminable SET replaced. */
  predicate RhsReplaced(orig: Node, cur: Node, elmode: int) {
    cur == orig || (ElimAllowed(orig, elmode) && cur == WithKid(orig, 1, Kid(cur, 1)))
  }

  /** Code `cur` is code `orig` with only eliminable sources replaced. */
  ghost predicate RewrittenFrom(orig: seq<seq<Node>>, cur: seq<seq<Node>>, elmode: int) {
    && |orig| == |cur|
    && (forall b | 0 <= b < |orig| :: |orig[b]| == |cur[b]|)
    && (forall b, i | 0 <= b < |orig| && 0 <= i < |orig[b]| :: RhsReplaced(orig[b][i], cur[b][i], elmode))
  }

  lemma RhsReplacedTrans(a: Node, b: Node, c: Node, elmode: int)
    requires RhsReplaced(a, b, elmode) && RhsReplaced(b, c, elmode)
    ensures RhsReplaced(a, c, elmode)
  {
    if b != a && c != b {
      assert |a.kids| >= 2;
    }
  }

  lemma RewrittenFromTrans(a: seq<seq<Node>>, b: seq<seq<Node>>, c: seq<seq<Node>>, elmode: int)
    requires RewrittenFrom(a, b, elmode) && RewrittenFrom(b, c, elmode)
    ensures RewrittenFrom(a, c, elmode)
  {
    forall x, i | 0 <= x < |a| && 0 <= i < |a[x]| ensures RhsReplaced(a[x][i], c[x][i], elmode) {
      RhsReplacedTrans(a[x][i], b[x][i], c[x][i], elmode);
    }
  }

  /**
   * An earlier instruction that makes `h` a holder in the local table of
   * numbering: the destination of a register SET with a compound source,
   * or the source of any other SET.
   */
  predicate DefinesHolder(instr: Node, h: Node) {
    instr.op == SET &&
    if Kid(instr, 0).op == REG then NKids(Kid(instr, 1)) > 0 && h == Kid(instr, 0)
    else h == Kid(instr, 1)
  }

  /** In mode 3 nothing is eliminable, so numbering leaves the code as it was. */
  lemma {:induction false} NoEliminationInMode3(a: seq<seq<Node>>, b: seq<seq<Node>>)
    requires RewrittenFrom(a, b, 3)
    ensures a == b
  {
    forall x | 0 <= x < |a|
      ensures a[x] == b[x]
    {
      forall i | 0 <= i < |a[x]|
        ensures a[x][i] == b[x][i]
      {
        assert RhsReplaced(a[x][i], b[x][i], 3);
      }
    }
  }

  /** Some instruction before position `k` of `instrs` makes `h` a holder of the local table. */
  ghost predicate HolderBefore(instrs: seq<Node>, k: nat, h: Node) {
    exists m | 0 <= m < k && m < |instrs| :: DefinesHolder(instrs[m], h)
  }

  /**
   * Block `cur` is block `orig` with its first `k` instructions numbered:
   * the rest untouched, and each numbered one at most has its source
   * replaced, by a holder an earlier instruction defines, and only when
   * numbering pessimistically.
   */
  ghost predicate RewrittenPrefix(orig: seq<Node>, cur: seq<Node>, k: nat, elmode: int, optimistic: bool) {
    && |cur| == |orig| && k <= |orig|
    && (forall m | k <= m < |orig| :: cur[m] == orig[m])
    && (forall m | 0 <= m < k :: RhsReplaced(orig[m], cur[m], elmode))
    && (forall m | 0 <= m < k && cur[m] != orig[m] :: !optimistic && HolderBefore(orig, m, Kid(cur[m], 1)))
  }

  lemma RewrittenPrefixStep(orig: seq<Node>, cur: seq<Node>, x: Node, k: nat, elmode: int, optimistic: bool)
    requires RewrittenPrefix(orig, cur, k, elmode, optimistic) && k < |orig|
    requires RhsReplaced(orig[k], x, elmode)
    requires x != orig[k] ==> !optimistic && HolderBefore(orig, k, Kid(x, 1))
    ensures RewrittenPrefix(orig, cur[k := x], k + 1, elmode, optimistic)
  {
  }

  /** Rewriting one block's instructions as `RewrittenPrefix` allows rewrites the code as `RewrittenFrom` allows. */
  lemma BlockRewritten(c0: seq<seq<Node>>, c1: seq<seq<Node>>, blk: nat, elmode: int, optimistic: bool)
    requires blk < |c0| && |c1| == |c0| && c1 == c0[blk := c1[blk]]
    requires RewrittenPrefix(c0[blk], c1[blk], |c0[blk]|, elmode, optimistic)
    ensures RewrittenFrom(c0, c1, elmode)
  {
    forall b, i | 0 <= b < |c0| && 0 <= i < |c0[b]|
      ensures RhsReplaced(c0[b][i], c1[b][i], elmode)
    {
      if b != blk {
        assert c1[b] == c0[b];
      }
    }
  }

  lemma HoldersStep(orig: seq<Node>, k: nat, lm0: map<int, Node>, lm: map<int, Node>)
    requires k < |orig|
    requires forall v | v in lm0.Values :: HolderBefore(orig, k, v)
    requires forall v | v in lm.Values && v !in lm0.Values :: DefinesHolder(orig[k], v)
    ensures forall v | v in lm.Values :: HolderBefore(orig, k + 1, v)
  {
    forall v | v in lm.Values
      ensures HolderBefore(orig, k + 1, v)
    {
      if v !in lm0.Values {
        assert DefinesHolder(orig[k], v);
      }
    }
  }

  // -------------------------------------------------------------------
  // The local table of pessimistic numbering
  // -------------------------------------------------------------------

  /** A SET that puts a holder into the local table: any SET but a register SET with a leaf source. */
  predicate DefinesSome(instr: Node) {
    instr.op == SET && (Kid(instr, 0).op == REG ==> NKids(Kid(instr, 1)) > 0)
  }

  /** The holder such a SET puts into the local table: its register destination, or else its source. */
  function HolderOf(instr: Node): Node {
    if Kid(instr, 0).op == REG then Kid(instr, 0) else Kid(instr, 1)
  }

  /** The local table after instruction `instr`, numbered `val`: the holder it defines, if any, now holds `val`. */
  function HoldersAfter(instr: Node, val: int, lm: map<int, Node>): map<int, Node> {
    if DefinesSome(instr) then lm[val := HolderOf(instr)] else lm
  }

  /**
   * The local table numbering has built from the instructions of a block
   * before position `|nums|`, where `nums[m]` is the number instruction
   * `m` was given.
   */
  function LocalHolders(instrs: seq<Node>, nums: seq<int>): map<int, Node>
    requires |nums| <= |instrs|
    decreases |nums|
  {
    if nums == [] then map[]
    else
      var m := |nums| - 1;
      HoldersAfter(instrs[m], nums[m], LocalHolders(instrs, nums[..m]))
  }

  /**
   * SET `instr` numbered `val`, after the local step: when the mode allows
   * it and `val` has a holder in the local table, the source is replaced
   * by that holder.
   */
  function LocalRewrite(instr: Node, val: int, elmode: int, lm: map<int, Node>): (r: Node)
    ensures RhsReplaced(instr, r, elmode)
  {
    if ElimAllowed(instr, elmode) && val in lm then WithKid(instr, 1, lm[val]) else instr
  }

  /**
   * Block `cur` is block `orig` numbered pessimistically with numbers
   * `nums`: each instruction rewritten against the local table of the
   * instructions before it.
   */
  ghost predicate LocallyEliminated(orig: seq<Node>, cur: seq<Node>, nums: seq<int>, elmode: int) {
    |nums| == |orig| && LocalPrefix(orig, cur, nums, elmode)
  }

  /** The first `|nums|` instructions of `cur` are those of `orig` rewritten against their local tables. */
  ghost predicate LocalPrefix(orig: seq<Node>, cur: seq<Node>, nums: seq<int>, elmode: int) {
    && |cur| == |orig| && |nums| <= |orig|
    && forall m | 0 <= m < |nums| :: cur[m] == LocalRewrite(orig[m], nums[m], elmode, LocalHolders(orig, nums[..m]))
  }

  /** One more instruction rewritten against the local table of those before it. */
  lemma LocalPrefixStep(orig: seq<Node>, cur: seq<Node>, nums: seq<int>, val: int, x: Node, elmode: int)
    requires LocalPrefix(orig, cur, nums, elmode) && |nums| < |orig|
    requires x == LocalRewrite(orig[|nums|], val, elmode, LocalHolders(orig, nums))
    ensures LocalPrefix(orig, cur[|nums| := x], nums + [val], elmode)
    ensures LocalHolders(orig, nums + [val]) == HoldersAfter(orig[|nums|], val, LocalHolders(orig, nums))
  {
    var k := |nums|;
    var nums' := nums + [val];
    var cur' := cur[k := x];
    assert nums'[..k] == nums;
    forall m | 0 <= m < k + 1
      ensures cur'[m] == LocalRewrite(orig[m], nums'[m], elmode, LocalHolders(orig, nums'[..m]))
    {
      if m < k {
        assert nums'[..m] == nums[..m];
      }
    }
  }

  /**
   * A number has a holder in the local table exactly when an earlier SET
   * given that number defined one, and the holder is the one the latest
   * such SET defined: a replaced source is always a variable of the same
   * number, defined before it in the block.
   */
  lemma {:induction false} LocalHoldersLatest(instrs: seq<Node>, nums: seq<int>, v: int)
    requires |nums| <= |instrs|
    ensures v in LocalHolders(instrs, nums) <==> exists m | 0 <= m < |nums| :: DefinesSome(instrs[m]) && nums[m] == v
    ensures v in LocalHolders(instrs, nums) ==>
      exists m | 0 <= m < |nums| ::
        && DefinesSome(instrs[m]) && nums[m] == v && LocalHolders(instrs, nums)[v] == HolderOf(instrs[m])
        && forall m' | m < m' < |nums| :: !(DefinesSome(instrs[m']) && nums[m'] == v)
    decreases |nums|
  {
    if nums != [] {
      var n := |nums| - 1;
      var pre := nums[..n];
      LocalHoldersLatest(instrs, pre, v);
      assert forall m | 0 <= m < n :: pre[m] == nums[m];
      if DefinesSome(instrs[n]) && nums[n] == v {
      } else if v in LocalHolders(instrs, pre) {
        var m :| 0 <= m < n && DefinesSome(instrs[m]) && pre[m] == v && LocalHolders(instrs, pre)[v] == HolderOf(instrs[m])
          && forall m' | m < m' < n :: !(DefinesSome(instrs[m']) && pre[m'] == v);
        assert forall m' | m < m' < |nums| :: !(DefinesSome(instrs[m']) && nums[m'] == v);
      }
    }
  }

  /** A block rewritten against its local table is rewritten as `RewrittenPrefix` allows. */
  lemma LocallyEliminatedRewritten(orig: seq<Node>, cur: seq<Node>, nums: seq<int>, elmode: int)
    requires LocallyEliminated(orig, cur, nums, elmode)
    ensures RewrittenPrefix(orig, cur, |orig|, elmode, false)
  {
    forall m | 0 <= m < |orig| && cur[m] != orig[m]
      ensures HolderBefore(orig, m, Kid(cur[m], 1))
    {
      var v := nums[m];
      LocalHoldersLatest(orig, nums[..m], v);
      var m' :| 0 <= m' < m && DefinesSome(orig[m']) && nums[..m][m'] == v && LocalHolders(orig, nums[..m])[v] == HolderOf(orig[m']);
      assert DefinesHolder(orig[m'], Kid(cur[m], 1));
    }
  }

  /** The destinations an instruction defines are among `keys`: a PHI's or register SET's target, a PROLOGUE's registers. */
  ghost predicate DestsIn(instr: Node, keys: set<Node>) {
    && ((instr.op == PHI || IsRegSet(instr)) ==> Kid(instr, 0) in keys)
    && (instr.op == PROLOGUE ==> forall i | 0 <= i < |instr.kids| && instr.kids[i].op == REG :: instr.kids[i] in keys)
  }

  /** The destinations of the first `k` instructions of `instrs` are among `keys`. */
  ghost predicate PrefixDestsIn(instrs: seq<Node>, k: nat, keys: set<Node>) {
    k <= |instrs| && forall m | 0 <= m < k :: DestsIn(instrs[m], keys)
  }

  /** A growing table keeps the numbered prefix numbered, and one more numbered instruction extends it. */
  lemma PrefixDestsInStep(instrs: seq<Node>, k: nat, keys0: set<Node>, keys1: set<Node>)
    requires PrefixDestsIn(instrs, k, keys0) && keys0 <= keys1 && k < |instrs| && DestsIn(instrs[k], keys1)
    ensures PrefixDestsIn(instrs, k + 1, keys1)
  {
    forall m | 0 <= m < k
      ensures DestsIn(instrs[m], keys1)
    {
      assert DestsIn(instrs[m], keys0);
    }
  }

  /**
   * The first `k` instructions of block `blk` of `code`, which held `orig`
   * when the code was `c0`, are numbered with numbers `nums`: each has at
   * most its source replaced by a holder defined before it (and, numbering
   * pessimistically, exactly as the local table `lm` they built says), the
   * rest of the code is untouched, every destination among them is in
   * `keys`, and numbering optimistically every PHI among them has an
   * assumption in `phiKeys`.
   */
  ghost predicate NumberedUpToIn(code: seq<seq<Node>>, keys: set<Node>, phiKeys: set<Node>, blk: nat, orig: seq<Node>,
                                 c0: seq<seq<Node>>, k: nat, lm: map<int, Node>, nums: seq<int>, optimistic: bool, elmode: int) {
    && blk < |c0| && blk < |code| && k <= |orig| && |nums| == k
    && code == c0[blk := code[blk]]
    && RewrittenPrefix(orig, code[blk], k, elmode, optimistic)
    && (optimistic ==> code == c0)
    && (forall v | v in lm.Values :: HolderBefore(orig, k, v))
    && PrefixDestsIn(orig, k, keys)
    && (optimistic ==> forall m | 0 <= m < k && orig[m].op == PHI :: Kid(orig[m], 0) in phiKeys)
    && (!optimistic ==> lm == LocalHolders(orig, nums) && LocalPrefix(orig, code[blk], nums, elmode))
  }

  /** Numbering instruction `k` as `NumberInstr` promises carries `NumberedUpToIn` one instruction further. */
  lemma NumberedUpToStep(c1: seq<seq<Node>>, keys1: set<Node>, phi1: set<Node>,
                         c2: seq<seq<Node>>, keys2: set<Node>, phi2: set<Node>, blk: nat, orig: seq<Node>,
                         c0: seq<seq<Node>>, k: nat, lm: map<int, Node>, lm2: map<int, Node>, nums: seq<int>, val: int,
                         optimistic: bool, elmode: int)
    requires NumberedUpToIn(c1, keys1, phi1, blk, orig, c0, k, lm, nums, optimistic, elmode) && k < |orig|
    requires blk < |c1| == |c2| && k < |c1[blk]| == |c2[blk]|
    requires keys1 <= keys2 && phi1 <= phi2
    requires c2 == c1[blk := c1[blk][k := c2[blk][k]]]
    requires RhsReplaced(c1[blk][k], c2[blk][k], elmode)
    requires c2[blk][k] != c1[blk][k] ==> !optimistic && Kid(c2[blk][k], 1) in lm.Values
    requires forall v | v in lm2.Values && v !in lm.Values :: DefinesHolder(c1[blk][k], v)
    requires DestsIn(c1[blk][k], keys2)
    requires optimistic && c1[blk][k].op == PHI ==> Kid(c1[blk][k], 0) in phi2
    requires !optimistic ==> c2[blk][k] == LocalRewrite(c1[blk][k], val, elmode, lm)
    requires !optimistic ==> lm2 == HoldersAfter(c1[blk][k], val, lm)
    ensures NumberedUpToIn(c2, keys2, phi2, blk, orig, c0, k + 1, lm2, nums + [val], optimistic, elmode)
  {
    assert c1[blk][k] == orig[k];
    PrefixDestsInStep(orig, k, keys1, keys2);
    if !optimistic {
      LocalPrefixStep(orig, c1[blk], nums, val, c2[blk][k], elmode);
    }
    if c2[blk][k] == c1[blk][k] {
      assert c1[blk][k := c1[blk][k]] == c1[blk];
      assert c1[blk := c1[blk]] == c1;
    } else {
      assert HolderBefore(orig, k, Kid(c2[blk][k], 1));
    }
    RewrittenPrefixStep(orig, c1[blk], c2[blk][k], k, elmode, optimistic);
    HoldersStep(orig, k, lm, lm2);
    assert c2 == c0[blk := c2[blk]];
  }

  /** Every destination defined in block `b` of `code` is among `keys`. */
  ghost predicate BlockNumbered(code: seq<seq<Node>>, b: nat, keys: set<Node>) {
    b < |code| && forall k | 0 <= k < |code[b]| :: DestsIn(code[b][k], keys)
  }

  /** Replacing sources keeps every destination, so numbered blocks stay numbered as the table grows. */
  lemma {:induction false} BlockNumberedKept(c0: seq<seq<Node>>, c1: seq<seq<Node>>, b: nat, t0: set<Node>, t1: set<Node>, elmode: int)
    requires RewrittenFrom(c0, c1, elmode) && t0 <= t1 && BlockNumbered(c0, b, t0)
    ensures BlockNumbered(c1, b, t1)
  {
    forall k | 0 <= k < |c1[b]|
      ensures DestsIn(c1[b][k], t1)
    {
      assert RhsReplaced(c0[b][k], c1[b][k], elmode);
      assert DestsIn(c0[b][k], t0);
      if c1[b][k] != c0[b][k] {
        assert |c0[b][k].kids| >= 2;
        assert Kid(c1[b][k], 0) == Kid(c0[b][k], 0);
      }
    }
  }

  /** `a` when present, otherwise `b`. */
  function Or<T>(a: Option<T>, b: Option<T>): Option<T> {
    if a.Some? then a else b
  }

  /** Dependant lists `l1` extend those of `l0`, only by `entry`. */
  ghost predicate Appended(l0: map<Node, seq<(Node, nat)>>, l1: map<Node, seq<(Node, nat)>>, entry: (Node, nat)) {
    && l0.Keys <= l1.Keys
    && (forall v | v in l0 :: |l0[v]| <= |l1[v]| && l1[v][..|l0[v]|] == l0[v])
    && (forall v | v in l1 :: forall j | (if v in l0 then |l0[v]| else 0) <= j < |l1[v]| :: l1[v][j] == entry)
  }

  /**
   * `checkDependPhi`'s loop so far, from maps `d0` and `l0`: dependant
   * lists only grew by `entry`, only `lhs` may have changed in the
   * dependence map, nothing changed until an operand was found
   * (`found`), and after that `lhs` depends on something and `entry` is
   * listed.
   */
  ghost predicate DependSoFar(d0: map<Node, Node>, l0: map<Node, seq<(Node, nat)>>, d: map<Node, Node>,
                              l: map<Node, seq<(Node, nat)>>, lhs: Node, entry: (Node, nat), found: bool) {
    && Appended(l0, l, entry)
    && (forall v | v != lhs :: (v in d <==> v in d0) && (v in d ==> d[v] == d0[v]))
    && (!found ==> d == d0 && l == l0)
    && (found ==> lhs in d && exists v | v in l :: entry in l[v])
  }

  /** One operand's registration (`hit` when it was found) carries `DependSoFar` on. */
  lemma DependStep(d0: map<Node, Node>, l0: map<Node, seq<(Node, nat)>>, d1: map<Node, Node>,
                   l1: map<Node, seq<(Node, nat)>>, d2: map<Node, Node>, l2: map<Node, seq<(Node, nat)>>,
                   lhs: Node, entry: (Node, nat), found: bool, hit: bool)
    requires DependSoFar(d0, l0, d1, l1, lhs, entry, found) && Appended(l1, l2, entry)
    requires !hit ==> d2 == d1 && l2 == l1
    requires hit ==> lhs in d2 && (forall v | v != lhs :: (v in d2 <==> v in d1) && (v in d2 ==> d2[v] == d1[v]))
    requires hit ==> exists w | w in l2 :: entry in l2[w]
    ensures DependSoFar(d0, l0, d2, l2, lhs, entry, found || hit)
  {
    AppendedTrans(l0, l1, l2, entry);
    if found && !hit {
      var v :| v in l1 && entry in l1[v];
      assert v in l2 && entry in l2[v];
    }
  }

  lemma AppendedTrans(l0: map<Node, seq<(Node, nat)>>, l1: map<Node, seq<(Node, nat)>>, l2: map<Node, seq<(Node, nat)>>, entry: (Node, nat))
    requires Appended(l0, l1, entry) && Appended(l1, l2, entry)
    ensures Appended(l0, l2, entry)
  {
    forall v | v in l0
      ensures l2[v][..|l0[v]|] == l0[v]
    {
      assert l2[v][..|l0[v]|] == l2[v][..|l1[v]|][..|l0[v]|];
    }
  }

  /** A subset is no larger. */
  lemma SubsetCard<T>(a: set<T>, b: set<T>)
    requires a <= b
    ensures |a| <= |b|
  {
    if a != {} {
      var x :| x in a;
      SubsetCard(a - {x}, b - {x});
    }
  }

  lemma AppendedOne(l0: map<Node, seq<(Node, nat)>>, k: Node, entry: (Node, nat))
    ensures Appended(l0, l0, entry)
    ensures Appended(l0, l0[k := (if k in l0 then l0[k] else []) + [entry]], entry)
  {
    var l1 := l0[k := (if k in l0 then l0[k] else []) + [entry]];
    forall v | v in l0
      ensures |l0[v]| <= |l1[v]| && l1[v][..|l0[v]|] == l0[v]
    {
      if v == k {
        assert l1[v][..|l0[v]|] == l0[v];
      }
    }
  }

  /**
   * The operands whose dependence an instruction inherits: the argument
   * values of a PHI, the source of a SET when it is a leaf, otherwise the
   * operands of that source; nothing for other instructions.
   */
  function DependOperands(node: Node): (ops: seq<Node>)
    ensures node.op == PHI ==> |ops| == if |node.kids| == 0 then 0 else |node.kids| - 1
    ensures node.op == PHI ==> forall i | 1 <= i < |node.kids| :: ops[i - 1] == PhiArgValue(node.kids[i])
    ensures node.op == SET && IsLeaf(Kid(node, 1)) ==> ops == [Kid(node, 1)]
    ensures node.op == SET && !IsLeaf(Kid(node, 1)) ==> ops == Kid(node, 1).kids
    ensures node.op != PHI && node.op != SET ==> ops == []
  {
    if node.op == PHI then seq(if |node.kids| == 0 then 0 else |node.kids| - 1, i requires 0 <= i < |node.kids| - 1 => PhiArgValue(node.kids[i + 1]))
    else if node.op == SET then (if IsLeaf(Kid(node, 1)) then [Kid(node, 1)] else Kid(node, 1).kids)
    else []
  }

  class Gvn {
    const f: Function
    /** The last value number handed out. */
    var value: int
    /** Every value number handed out so far. */
    ghost var issued: set<int>
    var valueTable: map<Node, int>
    /** The constant leaf last numbered with each value. */
    var constValTable: map<int, Node>
    /** Per block: the variable holding each value number in it. */
    var blkVars: seq<map<int, Node>>
    /** Per block: the value numbers reachable from the entry to it. */
    var reach: seq<set<int>>
    /** Optimistic assumptions: a phi target and the variable it is assumed equal to. */
    var samePhiMap: map<Node, Node>
    /** The phi target each variable's number depends on. */
    var dependMap: map<Node, Node>
    /** Per phi target: the instructions (and their blocks) to renumber when its assumption fails. */
    var dependListMap: map<Node, seq<(Node, nat)>>

    ghost predicate Numbers()
      reads this
    {
      value >= 0 && forall v | v in issued :: 0 < v <= value
    }

    ghost predicate Valid()
      reads this, f
    {
      && f.Valid()
      && |blkVars| == f.g.n && |reach| == f.g.n
      && Numbers()
      && (forall e | e in valueTable :: valueTable[e] != -1)
      && (forall k | k in dependListMap :: forall j | 0 <= j < |dependListMap[k]| :: dependListMap[k][j].1 < f.g.n)
    }

    /** A numbering with empty tables (the state `gvn` starts from). */
    constructor (f: Function)
      requires f.Valid()
      ensures Valid() && this.f == f && value == 0
      ensures valueTable == map[] && samePhiMap == map[] && dependMap == map[] && dependListMap == map[]
      ensures forall b | 0 <= b < f.g.n :: blkVars[b] == map[] && reach[b] == {}
    {
      this.f := f;
      value := 0;
      issued := {};
      valueTable := map[];
      constValTable := map[];
      blkVars := seq(f.g.n, _ => map[]);
      reach := seq(f.g.n, _ => {});
      samePhiMap := map[];
      dependMap := map[];
      dependListMap := map[];
    }

    // -------------------------------------------------------------------
    // Value numbers and the value table
    // -------------------------------------------------------------------

    /** A value number greater than every number handed out before. */
    method NewValue() returns (r: int)
      requires Numbers()
      modifies this`value, this`issued
      ensures Numbers()
      ensures r == value == old(value) + 1
      ensures r !in old(issued) && issued == old(issued) + {r}
      ensures forall x | x in old(issued) :: x < r
    {
      value := value + 1;
      issued := issued + {value};
      r := value;
    }

    /** The largest value number handed out: the one `NewValue` returned last. */
    function GetMaximumValue(): (r: int)
      reads this
      requires Numbers()
      ensures forall x | x in issued :: x <= r
      ensures value in issued ==> r in issued
    {
      value
    }

    /** What `GetValue` answers for `ve` in the current tables. */
    function ValueOf(ve: Node): int
      reads this
    {
      if ve.op == PHI && SameArgs(ve) then Kid(ve, 1).sym
      else if ve in valueTable then valueTable[ve] else -1
    }

    /** Whether every argument of PHI value expression `ve` carries the same number. */
    static method SameArgVal(ve: Node) returns (r: bool)
      ensures r <==> SameArgs(ve)
    {
      if Kid(ve, 1).sym == -1 {
        return false;
      }
      var i := 2;
      while i < |ve.kids|
        invariant 2 <= i
        invariant forall j | 2 <= j < i && j < |ve.kids| :: ve.kids[j] == Kid(ve, 1)
      {
        if ve.kids[i] != Kid(ve, 1) {
          return false;
        }
        i := i + 1;
      }
      return true;
    }

    /**
     * The value number of `ve`; -1 exactly when `ve` has no entry, except
     * that a PHI value expression whose arguments all carry one number
     * has that number.
     */
    method GetValue(ve: Node) returns (r: int)
      requires Valid()
      ensures r == ValueOf(ve)
      ensures r == -1 <==> (ve !in valueTable && !(ve.op == PHI && SameArgs(ve)))
      ensures ve.op == PHI && SameArgs(ve) ==> r == Kid(ve, 1).sym
      ensures !(ve.op == PHI && SameArgs(ve)) && ve in valueTable ==> r == valueTable[ve]
    {
      if ve.op == PHI {
        var same := SameArgVal(ve);
        if same {
          return Kid(ve, 1).sym;
        }
      }
      if ve !in valueTable {
        return -1;
      }
      return valueTable[ve];
    }

    /**
     * Records number `val` for `exp`, replacing any earlier entry; a leaf
     * that is not a register is also remembered as the constant of `val`.
     */
    method SetValue(val: int, exp: Node)
      requires Valid() && val != -1
      modifies this`valueTable, this`constValTable
      ensures Valid()
      ensures valueTable == old(valueTable)[exp := val]
      ensures exp.op != PHI ==> ValueOf(exp) == val
      ensures IsLeaf(exp) && exp.op != REG ==> constValTable == old(constValTable)[val := exp]
      ensures !(IsLeaf(exp) && exp.op != REG) ==> constValTable == old(constValTable)
    {
      valueTable := valueTable[exp := val];
      if IsLeaf(exp) && exp.op != REG {
        constValTable := constValTable[val := exp];
      }
    }

    /** Whether some variable of block `blk` holds number `val`. */
    function ContainValue(val: int, blk: nat): bool
      reads this
      requires blk < |blkVars|
    {
      val in blkVars[blk]
    }

    /** The variable of block `blk` holding number `val`, if any. */
    function GetVariable(val: int, blk: nat): (r: Option<Node>)
      reads this
      requires blk < |blkVars|
      ensures r.Some? <==> ContainValue(val, blk)
    {
      if val in blkVars[blk] then Some(blkVars[blk][val]) else None
    }

    /** Whether number `val` is reachable at block `blk`. */
    function ReachValue(val: int, blk: nat): bool
      reads this
      requires blk < |reach|
    {
      val in reach[blk]
    }

    /**
     * Records `val` for `exp`, makes `exp` the holder of `val` in `blk` and
     * adds `val` to the numbers reachable at `blk`.
     */
    method SetValueRecordBlkVal(val: int, exp: Node, blk: nat)
      requires Valid() && val != -1 && blk < f.g.n
      modifies this`valueTable, this`constValTable, this`blkVars, this`reach
      ensures Valid()
      ensures valueTable == old(valueTable)[exp := val]
      ensures ContainValue(val, blk) && GetVariable(val, blk) == Some(exp) && ReachValue(val, blk)
      ensures blkVars == old(blkVars)[blk := old(blkVars[blk])[val := exp]]
      ensures reach == old(reach)[blk := old(reach[blk]) + {val}]
      ensures IsLeaf(exp) && exp.op != REG ==> constValTable == old(constValTable)[val := exp]
      ensures !(IsLeaf(exp) && exp.op != REG) ==> constValTable == old(constValTable)
    {
      SetValue(val, exp);
      blkVars := blkVars[blk := blkVars[blk][val := exp]];
      reach := reach[blk := reach[blk] + {val}];
    }

    /** A new number for `exp`, recorded in `blk` as by `SetValueRecordBlkVal`. */
    method NewValueFor(exp: Node, blk: nat) returns (r: int)
      requires Valid() && blk < f.g.n
      modifies this
      ensures Valid()
      ensures r == value == old(value) + 1 && r !in old(issued) && issued == old(issued) + {r}
      ensures valueTable == old(valueTable)[exp := r]
      ensures blkVars == old(blkVars)[blk := old(blkVars[blk])[r := exp]]
      ensures reach == old(reach)[blk := old(reach[blk]) + {r}]
      ensures samePhiMap == old(samePhiMap) && dependMap == old(dependMap) && dependListMap == old(dependListMap)
    {
      r := NewValue();
      SetValueRecordBlkVal(r, exp, blk);
    }

    /**
     * Numbers both sides of a SET: the side that is recorded as holder in
     * `blk` is the source when the destination is memory or the source is
     * a constant leaf, and the destination otherwise.
     */
    method SetValuePair(val: int, lhs: Node, rhs: Node, blk: nat)
      requires Valid() && val != -1 && blk < f.g.n
      modifies this`valueTable, this`constValTable, this`blkVars, this`reach
      ensures Valid()
      ensures ValueOfKey(lhs) == val && ValueOfKey(rhs) == val
      ensures forall e | e != lhs && e != rhs :: (e in valueTable <==> e in old(valueTable)) &&
                (e in valueTable ==> valueTable[e] == old(valueTable)[e])
      ensures forall b | 0 <= b < f.g.n && b != blk :: blkVars[b] == old(blkVars[b]) && reach[b] == old(reach[b])
    {
      if lhs.op == MEM || (IsLeaf(rhs) && rhs.op != REG) {
        SetValue(val, lhs);
        SetValueIn(val, rhs, blk);
      } else {
        SetValue(val, rhs);
        SetValueIn(val, lhs, blk);
      }
    }

    /** The table entry for `e`, or -1 (no PHI rule). */
    function ValueOfKey(e: Node): int
      reads this
    {
      if e in valueTable then valueTable[e] else -1
    }

    /**
     * Records `val` for `var` and decides whether `var` becomes the holder
     * of `val` in `blk`. A register becomes the holder when the block has
     * none or only a non-register one; otherwise the block is scanned
     * backwards for the SET or PHI that defines `val`, and `var` becomes the
     * holder only if it is that instruction's own destination. A constant
     * leaf always becomes the holder; a compound expression never does.
     */
    method SetValueIn(val: int, v: Node, blk: nat)
      requires Valid() && val != -1 && blk < f.g.n
      modifies this`valueTable, this`constValTable, this`blkVars, this`reach
      ensures Valid()
      ensures valueTable == old(valueTable)[v := val]
      ensures v.op != PHI ==> ValueOf(v) == val
      ensures v.op == REG && !(val in old(blkVars[blk]) && old(blkVars[blk])[val].op == REG) ==>
                GetVariable(val, blk) == Some(v) && ReachValue(val, blk)
      ensures v.op != REG && IsLeaf(v) ==> GetVariable(val, blk) == Some(v) && ReachValue(val, blk)
      ensures v.op != REG && !IsLeaf(v) ==> blkVars == old(blkVars) && reach == old(reach)
      ensures blkVars[blk] == old(blkVars[blk]) || blkVars[blk] == old(blkVars[blk])[val := v]
      ensures reach[blk] == old(reach[blk]) || reach[blk] == old(reach[blk]) + {val}
      ensures forall b | 0 <= b < f.g.n && b != blk :: blkVars[b] == old(blkVars[b]) && reach[b] == old(reach[b])
    {
      if v.op == REG {
        if !ContainValue(val, blk) || blkVars[blk][val].op != REG {
          SetValueRecordBlkVal(val, v, blk);
        } else {
          ScanForDefinition(val, v, blk);
        }
      } else {
        if IsLeaf(v) {
          SetValueRecordBlkVal(val, v, blk);
        } else {
          SetValue(val, v);
        }
      }
      SetValue(val, v);
    }

    /**
     * The backward scan of `SetValueIn`: from the last instruction of `blk`,
     * the first register SET or PHI whose destination carries `val` decides;
     * `v` becomes the holder only if it is that destination.
     */
    method ScanForDefinition(val: int, v: Node, blk: nat)
      requires Valid() && val != -1 && blk < f.g.n
      modifies this`valueTable, this`constValTable, this`blkVars, this`reach
      ensures Valid()
      ensures valueTable == old(valueTable) || valueTable == old(valueTable)[v := val]
      ensures blkVars == old(blkVars) || blkVars == old(blkVars)[blk := old(blkVars[blk])[val := v]]
      ensures reach == old(reach) || reach == old(reach)[blk := old(reach[blk]) + {val}]
    {
      var instrs := f.code[blk];
      var k := |instrs|;
      var found := false;
      while k > 0 && !found
        invariant 0 <= k <= |instrs|
        invariant found ==> k < |instrs|
        invariant Valid()
        invariant blkVars == old(blkVars) && reach == old(reach)
        invariant valueTable == old(valueTable) || valueTable == old(valueTable)[v := val]
      {
        k := k - 1;
        var node := instrs[k];
        if (node.op != SET && node.op != PHI) || Kid(node, 0).op == MEM {
          continue;
        }
        if Kid(node, 0).op == REG {
          var dv := GetValue(Kid(node, 0));
          found := dv == val;
        } else {
          var sv := GetValue(Kid(node, 1));
          if sv == val {
            SetValue(val, v);
            assert valueTable == old(valueTable)[v := val];
          }
        }
      }
      if found {
        if Kid(instrs[k], 0) == v {
          SetValueRecordBlkVal(val, v, blk);
        } else {
          SetValue(val, v);
        }
        assert valueTable == old(valueTable)[v := val];
      }
    }

    /** Drops the entries of both `v` and `exp` for number `val` in `blk`. */
    method RemoveValuePair(v: Node, exp: Node, val: int, blk: nat)
      requires Valid() && blk < f.g.n
      modifies this`valueTable, this`blkVars
      ensures Valid()
      ensures valueTable == old(valueTable) - {v, exp}
      ensures GetVariable(val, blk) != Some(v) && GetVariable(val, blk) != Some(exp)
      ensures blkVars[blk].Keys <= old(blkVars[blk].Keys)
      ensures forall b | 0 <= b < f.g.n && b != blk :: blkVars[b] == old(blkVars[b])
    {
      RemoveValueIn(val, v, blk);
      RemoveValueIn(val, exp, blk);
      assert valueTable == old(valueTable) - {v} - {exp};
    }

    /** Drops the table entry of `exp`, and `exp` as holder of `val` in `blk`. */
    method RemoveValueIn(val: int, exp: Node, blk: nat)
      requires Valid() && blk < f.g.n
      modifies this`valueTable, this`blkVars
      ensures Valid()
      ensures valueTable == old(valueTable) - {exp}
      ensures exp.op != PHI ==> ValueOf(exp) == -1
      ensures GetVariable(val, blk) != Some(exp)
      ensures old(GetVariable(val, blk)) == Some(exp) ==> blkVars == old(blkVars)[blk := old(blkVars[blk]) - {val}]
      ensures old(GetVariable(val, blk)) != Some(exp) ==> blkVars == old(blkVars)
    {
      RemoveValueFromBlkMap(exp, val, blk);
      valueTable := valueTable - {exp};
    }

    /** Removes the holder of `val` in `blk`, but only when that holder is `exp`. */
    method RemoveValueFromBlkMap(exp: Node, val: int, blk: nat)
      requires Valid() && blk < f.g.n
      modifies this`blkVars
      ensures Valid()
      ensures old(GetVariable(val, blk)) == Some(exp) ==> blkVars == old(blkVars)[blk := old(blkVars[blk]) - {val}]
      ensures old(GetVariable(val, blk)) != Some(exp) ==> blkVars == old(blkVars)
    {
      var variables := blkVars[blk];
      if val in variables && variables[val] == exp {
        blkVars := blkVars[blk := variables - {val}];
      }
    }

    /** Replaces the holder table of `blk` by `valMap`. */
    method UpdateBlkVariableMap(blk: nat, valMap: map<int, Node>)
      requires Valid() && blk < f.g.n
      modifies this`blkVars
      ensures Valid()
      ensures blkVars == old(blkVars)[blk := valMap]
      ensures forall val :: GetVariable(val, blk) == (if val in valMap then Some(valMap[val]) else None)
    {
      blkVars := blkVars[blk := valMap];
    }

    // -------------------------------------------------------------------
    // Reachable numbers
    // -------------------------------------------------------------------

    /** Whether `val` is reachable at `blk` (the same question as `ReachValue`). */
    function CheckReachability(val: int, blk: nat): (r: bool)
      reads this
      requires blk < |reach|
      ensures r <==> val in reach[blk]
    {
      ReachValue(val, blk)
    }

    /** Forgets the numbers reachable at `blk`. */
    method DeleteReachableValues(blk: nat)
      requires Valid() && blk < f.g.n
      modifies this`reach
      ensures Valid()
      ensures reach == old(reach)[blk := {}]
      ensures forall val :: !ReachValue(val, blk)
    {
      reach := reach[blk := {}];
    }

    /**
     * Adds to the numbers reachable at `blk` those reachable at each of its
     * predecessors, so that afterwards every predecessor's set is included.
     */
    method RecordReachableValues(blk: nat)
      requires Valid() && blk < f.g.n
      modifies this`reach
      ensures Valid()
      ensures forall j | 0 <= j < |f.g.preds[blk]| :: f.g.preds[blk][j] < f.g.n
      ensures reach == old(reach)[blk := old(reach[blk]) + PredReach(old(reach), f.g.preds[blk])]
      ensures forall j | 0 <= j < |f.g.preds[blk]| :: reach[f.g.preds[blk][j]] <= reach[blk]
    {
      var ps := f.g.preds[blk];
      IdsBelowAt(f.g.preds, f.g.n, blk);
      ghost var r0 := reach;
      var j := 0;
      assert ps[..0] == [];
      while j < |ps|
        invariant 0 <= j <= |ps|
        invariant Valid()
        invariant forall i | 0 <= i < j :: ps[..j][i] < f.g.n
        invariant reach[blk] == r0[blk] + PredReach(r0, ps[..j])
        invariant forall b | 0 <= b < |r0| && b != blk :: reach[b] == r0[b]
      {
        assert ps[..j + 1][..j] == ps[..j];
        assert PredReach(r0, ps[..j + 1]) == PredReach(r0, ps[..j]) + r0[ps[j]];
        reach := reach[blk := reach[blk] + reach[ps[j]]];
        j := j + 1;
      }
      assert ps[..j] == ps;
      assert reach == r0[blk := r0[blk] + PredReach(r0, ps)];
      PredReachHas(r0, ps);
    }

    /** Adds `valMap` and the predecessors' reachable numbers to those reachable at `blk`. */
    method UpdateReachableValues(blk: nat, valMap: set<int>)
      requires Valid() && blk < f.g.n
      modifies this`reach
      ensures Valid()
      ensures valMap <= reach[blk] && old(reach[blk]) <= reach[blk]
      ensures forall j | 0 <= j < |f.g.preds[blk]| :: f.g.preds[blk][j] < f.g.n
      ensures forall j | 0 <= j < |f.g.preds[blk]| :: reach[f.g.preds[blk][j]] <= reach[blk]
      ensures forall b | 0 <= b < f.g.n && b != blk :: reach[b] == old(reach[b])
    {
      reach := reach[blk := reach[blk] + valMap];
      RecordReachableValues(blk);
    }

    // -------------------------------------------------------------------
    // Value expressions
    // -------------------------------------------------------------------

    /** The tables `MakeVExp` and `DetermineValue` leave alone. */
    ghost predicate SameAssumptions(samePhi: map<Node, Node>, depend: map<Node, Node>, dependList: map<Node, seq<(Node, nat)>>)
      reads this
    {
      samePhiMap == samePhi && dependMap == depend && dependListMap == dependList
    }

    /**
     * The number `val` of leaf `leaf`: its entry, or a new number recorded
     * for it in `blk` when it has none.
     */
    method LeafValue(leaf: Node, blk: nat) returns (val: int)
      requires Valid() && blk < f.g.n
      modifies this
      ensures Valid() && val != -1
      ensures old(value) <= value && old(issued) <= issued
      ensures old(valueTable).Keys <= valueTable.Keys
      ensures SameAssumptions(old(samePhiMap), old(dependMap), old(dependListMap))
      ensures old(ValueOf(leaf)) != -1 ==> val == old(ValueOf(leaf)) && value == old(value)
      ensures old(ValueOf(leaf)) == -1 ==> val == value == old(value) + 1 && val !in old(issued)
      ensures leaf.op != PHI ==> ValueOf(leaf) == val
    {
      val := GetValue(leaf);
      if val == -1 {
        val := NewValueFor(leaf, blk);
      }
    }

    /**
     * The value expression of `node` in `blk`: leaves become the constants
     * of their numbers (allocated when missing), compound operands are
     * converted recursively, a PHI gets the block as first operand and the
     * numbers of its arguments, a SET gives the expression of its source
     * (the source itself when it is a leaf), and a CALL gives none.
     */
    method MakeVExp(node: Node, blk: nat) returns (r: Option<Node>)
      requires Valid() && blk < f.g.n
      modifies this
      ensures Valid()
      ensures old(value) <= value && old(issued) <= issued
      ensures old(valueTable).Keys <= valueTable.Keys
      ensures SameAssumptions(old(samePhiMap), old(dependMap), old(dependListMap))
      ensures node.op == CALL ==> r == None && value == old(value) && issued == old(issued)
      ensures node.op == SET && IsLeaf(Kid(node, 1)) ==> r == Some(Kid(node, 1))
      ensures node.op != CALL && node.op != SET && node.op != PHI && IsLeaf(node) ==>
                && r.Some? && r.value.op == INTCONST && IsLeaf(r.value)
                && (old(ValueOf(node)) != -1 ==> r.value.sym == old(ValueOf(node)))
                && (old(ValueOf(node)) == -1 ==> r.value.sym == value == old(value) + 1)
                && ValueOf(node) == r.value.sym
      ensures node.op == PHI && r.Some? ==>
                && r.value.op == PHI && |r.value.kids| == |node.kids|
                && (|node.kids| > 0 ==> r.value.kids[0] == IConst(I32, blk))
                && (forall i | 1 <= i < |node.kids| :: r.value.kids[i].op == INTCONST && IsLeaf(r.value.kids[i]))
      ensures node.op == PHI ==> r.Some?
      ensures node.op != CALL && node.op != SET && node.op != PHI && !IsLeaf(node) && r.Some? ==>
                && r.value.op == node.op && |r.value.kids| == |node.kids|
                && (forall i | 0 <= i < |node.kids| && IsLeaf(node.kids[i]) :: r.value.kids[i].op == INTCONST)
      decreases node
    {
      if node.op == PHI {
        r := PhiVExp(node, blk);
      } else if node.op == CALL {
        r := None;
      } else if node.op == SET {
        if IsLeaf(Kid(node, 1)) {
          r := Some(Kid(node, 1));
        } else {
          var src := node.kids[1];
          r := MakeVExp(src, blk);
        }
      } else if IsLeaf(node) {
        var val := LeafValue(node, blk);
        r := Some(IConst(I32, val));
      } else {
        var valExp := node;
        var i := 0;
        while i < |node.kids|
          invariant 0 <= i <= |node.kids|
          invariant Valid()
          invariant old(value) <= value && old(issued) <= issued
          invariant old(valueTable).Keys <= valueTable.Keys
          invariant SameAssumptions(old(samePhiMap), old(dependMap), old(dependListMap))
          invariant valExp.op == node.op && |valExp.kids| == |node.kids|
          invariant forall j | 0 <= j < i && IsLeaf(node.kids[j]) :: valExp.kids[j].op == INTCONST
        {
          var kid := node.kids[i];
          if !IsLeaf(kid) {
            var sub := MakeVExp(kid, blk);
            if sub.None? {
              return None;
            }
            valExp := WithKid(valExp, i, sub.value);
          } else {
            var val := LeafValue(kid, blk);
            valExp := WithKid(valExp, i, IConst(I32, val));
          }
          i := i + 1;
        }
        r := Some(valExp);
      }
    }

    /**
     * The value expression of a PHI: the block as first operand, then the
     * number of each argument's value; an argument whose value is not a
     * register and has no number gets a new number, recorded for the
     * argument itself.
     */
    method PhiVExp(node: Node, blk: nat) returns (r: Option<Node>)
      requires Valid() && blk < f.g.n && node.op == PHI
      modifies this
      ensures Valid()
      ensures old(value) <= value && old(issued) <= issued
      ensures old(valueTable).Keys <= valueTable.Keys
      ensures SameAssumptions(old(samePhiMap), old(dependMap), old(dependListMap))
      ensures r.Some? && r.value.op == PHI && |r.value.kids| == |node.kids|
      ensures |node.kids| > 0 ==> r.value.kids[0] == IConst(I32, blk)
      ensures forall i | 1 <= i < |node.kids| :: r.value.kids[i].op == INTCONST && IsLeaf(r.value.kids[i])
    {
      var valExp := WithKid(node, 0, IConst(I32, blk));
      var i := 1;
      while i < |node.kids|
        invariant 1 <= i
        invariant Valid()
        invariant old(value) <= value && old(issued) <= issued
        invariant old(valueTable).Keys <= valueTable.Keys
        invariant SameAssumptions(old(samePhiMap), old(dependMap), old(dependListMap))
        invariant valExp.op == PHI && |valExp.kids| == |node.kids|
        invariant |node.kids| > 0 ==> valExp.kids[0] == IConst(I32, blk)
        invariant forall j | 1 <= j < i && j < |node.kids| :: valExp.kids[j].op == INTCONST && IsLeaf(valExp.kids[j])
      {
        var arg := node.kids[i];
        var val := GetValue(PhiArgValue(arg));
        if PhiArgValue(arg).op != REG && val == -1 {
          val := NewValueFor(arg, blk);
        }
        valExp := WithKid(valExp, i, IConst(I32, val));
        i := i + 1;
      }
      r := Some(valExp);
    }

    /**
     * The number of instruction `node` in `blk`: that of its value
     * expression, allocated when new; the result of a CALL always gets a
     * new number.
     */
    method DetermineValue(node: Node, blk: nat) returns (val: int)
      requires Valid() && blk < f.g.n
      modifies this
      ensures Valid() && val != -1
      ensures old(value) <= value && old(issued) <= issued
      ensures old(valueTable).Keys <= valueTable.Keys
      ensures SameAssumptions(old(samePhiMap), old(dependMap), old(dependListMap))
      ensures node.op == CALL ==>
                && val == value == old(value) + 1 && val !in old(issued)
                && GetVariable(val, blk) == Some(CallResult(node))
    {
      var ve := MakeVExp(node, blk);
      if ve.None? {
        val := NewValueFor(CallResult(node), blk);
        return;
      }
      val := GetValue(ve.value);
      if val == -1 {
        val := NewValueFor(ve.value, blk);
      }
    }

    // -------------------------------------------------------------------
    // Variables holding a number
    // -------------------------------------------------------------------

    /**
     * What an instruction offers, and where the backward scan of
     * `GetLocalVar` stops, for number `val`: a register SET whose
     * destination carries `val` offers its source when that is a leaf and
     * its destination otherwise; another SET offers its source when that
     * carries `val`; a PHI or a CALL offers its target when that carries `val`.
     */
    function StopHit(node: Node, val: int): Option<Node>
      reads this
    {
      if node.op == SET then
        if Kid(node, 0).op == REG then
          if ValueOf(Kid(node, 0)) == val then Some(if IsLeaf(Kid(node, 1)) then Kid(node, 1) else Kid(node, 0)) else None
        else if ValueOf(Kid(node, 1)) == val then Some(Kid(node, 1)) else None
      else if node.op == PHI then
        if ValueOf(Kid(node, 0)) == val then Some(Kid(node, 0)) else None
      else if HasResult(node) then
        if ValueOf(CallResult(node)) == val then Some(CallResult(node)) else None
      else None
    }

    /** The first register parameter of a PROLOGUE, from kid `i` on, that carries `val`. */
    function PrologueHit(node: Node, val: int, i: nat): (r: Option<Node>)
      reads this
      ensures r.Some? ==> node.op == PROLOGUE && r.value.op == REG && ValueOf(r.value) == val
      ensures r.Some? ==> exists j | i <= j < |node.kids| :: node.kids[j] == r.value
      ensures node.op == PROLOGUE && r.None? ==>
                forall j | i <= j < |node.kids| :: !(node.kids[j].op == REG && ValueOf(node.kids[j]) == val)
      decreases |node.kids| - i
    {
      if node.op != PROLOGUE || i >= |node.kids| then None
      else if node.kids[i].op == REG && ValueOf(node.kids[i]) == val then Some(node.kids[i])
      else PrologueHit(node, val, i + 1)
    }

    /**
     * The holder the backward scan over `instrs[..k]` finds: the nearest
     * instruction where the scan stops, or else the earliest PROLOGUE
     * parameter carrying `val` (a PROLOGUE records its parameter but does
     * not stop the scan).
     */
    function ScanBack(instrs: seq<Node>, k: nat, val: int): (r: Option<Node>)
      reads this
      requires k <= |instrs|
    {
      if k == 0 then None
      else Or(StopHit(instrs[k - 1], val), Or(ScanBack(instrs, k - 1, val), PrologueHit(instrs[k - 1], val, 0)))
    }

    /**
     * The scan finds nothing exactly when no instruction offers a holder,
     * and whatever it finds is offered by one of the instructions scanned.
     */
    lemma {:induction false} ScanBackFinds(instrs: seq<Node>, k: nat, val: int)
      requires k <= |instrs|
      ensures ScanBack(instrs, k, val).None? <==>
                forall j | 0 <= j < k :: StopHit(instrs[j], val).None? && PrologueHit(instrs[j], val, 0).None?
      ensures ScanBack(instrs, k, val).Some? ==>
                exists j | 0 <= j < k :: ScanBack(instrs, k, val) == StopHit(instrs[j], val) ||
                                         ScanBack(instrs, k, val) == PrologueHit(instrs[j], val, 0)
    {
      if k > 0 {
        ScanBackFinds(instrs, k - 1, val);
      }
    }

    /** The first register parameter of PROLOGUE `node` carrying `val`, if any. */
    method PrologueVar(node: Node, val: int) returns (r: Option<Node>)
      requires Valid() && node.op == PROLOGUE
      ensures r == PrologueHit(node, val, 0)
    {
      var i := 0;
      while i < |node.kids|
        invariant 0 <= i <= |node.kids|
        invariant PrologueHit(node, val, 0) == PrologueHit(node, val, i)
      {
        if node.kids[i].op == REG {
          var v := GetValue(node.kids[i]);
          if v == val {
            return Some(node.kids[i]);
          }
        }
        i := i + 1;
      }
      return None;
    }

    /** The holder of `val` that `GetLocalVar` finds from position `q` of `blk` backwards. */
    ghost function LocalOf(val: int, blk: nat, q: Option<nat>): Option<Node>
      reads this, f
      requires f.Valid() && blk < f.g.n && (q.Some? ==> q.value < |f.code[blk]|)
    {
      if q.None? then None else ScanBack(f.code[blk], q.value + 1, val)
    }

    /**
     * Scans block `blk` backwards from position `q` (nothing when there is
     * no position) for an instruction providing a variable that holds `val`.
     */
    method GetLocalVar(val: int, blk: nat, q: Option<nat>) returns (r: Option<Node>)
      requires Valid() && blk < f.g.n && (q.Some? ==> q.value < |f.code[blk]|)
      ensures r == LocalOf(val, blk, q)
    {
      r := None;
      if q.None? {
        return;
      }
      r := ScanBackFrom(f.code[blk], q.value + 1, val);
    }

    /** The backward scan from position `k0 - 1` to the block's head. */
    method ScanBackFrom(instrs: seq<Node>, k0: nat, val: int) returns (r: Option<Node>)
      requires Valid() && k0 <= |instrs|
      ensures r == ScanBack(instrs, k0, val)
    {
      r := None;
      var k: nat := k0;
      while k > 0
        invariant k <= k0
        invariant ScanBack(instrs, k0, val) == Or(ScanBack(instrs, k, val), r)
      {
        var stopped;
        r, stopped := BackStep(instrs, k, val, r, ScanBack(instrs, k0, val));
        if stopped {
          return;
        }
        k := k - 1;
      }
    }

    /** The scan's step at position `k - 1`: it either settles the scan at `target` or carries it on with `r`. */
    method BackStep(instrs: seq<Node>, k: nat, val: int, acc: Option<Node>, ghost target: Option<Node>)
      returns (r: Option<Node>, stopped: bool)
      requires Valid() && 0 < k <= |instrs| && target == Or(ScanBack(instrs, k, val), acc)
      ensures stopped ==> r == target
      ensures !stopped ==> target == Or(ScanBack(instrs, k - 1, val), r)
    {
      r, stopped := ScanStep(instrs[k - 1], val, acc);
    }

    /** One instruction of the backward scan: a stop, or a PROLOGUE parameter recorded. */
    method ScanStep(node: Node, val: int, acc: Option<Node>) returns (r: Option<Node>, stopped: bool)
      requires Valid()
      ensures stopped <==> StopHit(node, val).Some?
      ensures stopped ==> r == StopHit(node, val)
      ensures !stopped ==> r == Or(PrologueHit(node, val, 0), acc)
    {
      r := LocalStop(node, val);
      stopped := r.Some?;
      if !stopped {
        r := acc;
        if node.op == PROLOGUE {
          var p := PrologueVar(node, val);
          if p.Some? {
            r := p;
          }
        }
      }
    }

    /** Whether `node` stops the backward scan for `val`, and with which holder. */
    method LocalStop(node: Node, val: int) returns (r: Option<Node>)
      requires Valid()
      ensures r == StopHit(node, val)
    {
      r := None;
      if node.op == SET {
        if Kid(node, 0).op == REG {
          var v := GetValue(Kid(node, 0));
          if v == val {
            r := Some(if IsLeaf(Kid(node, 1)) then Kid(node, 1) else Kid(node, 0));
          }
        } else {
          var v := GetValue(Kid(node, 1));
          if v == val {
            r := Some(Kid(node, 1));
          }
        }
      } else if node.op == PHI {
        var v := GetValue(Kid(node, 0));
        if v == val {
          r := Some(Kid(node, 0));
        }
      } else if HasResult(node) {
        var v := GetValue(CallResult(node));
        if v == val {
          r := Some(CallResult(node));
        }
      }
    }

    /**
     * A variable holding `val` for use at position `q` of `blk`: the one
     * found locally, or else the holder in the nearest dominator of `blk`
     * that has one; none when no dominator holds `val`.
     */
    method GetReachVar(val: int, blk: nat, q: Option<nat>) returns (r: Option<Node>)
      requires Valid() && blk < f.g.n && (q.Some? ==> q.value < |f.code[blk]|)
      ensures LocalOf(val, blk, q).Some? ==> r == LocalOf(val, blk, q)
      ensures r.None? <==>
                LocalOf(val, blk, q).None? && forall d | 0 <= d < f.g.n && f.g.Dominates(d, blk) :: !ContainValue(val, d)
      ensures LocalOf(val, blk, q).None? && r.Some? ==>
                exists d | 0 <= d < f.g.n && f.g.Dominates(d, blk) :: NearestHolder(val, blk, d) && r == GetVariable(val, d)
      ensures r.Some? ==> ReachHolder(val, blk, q, r.value)
    {
      r := GetLocalVar(val, blk, q);
      if r.Some? {
        return;
      }
      var domBlk: int := blk;
      while domBlk != -1
        invariant domBlk == -1 || (0 <= domBlk < f.g.n && f.g.Dominates(domBlk, blk))
        invariant forall e | 0 <= e < f.g.n && f.g.Dominates(e, blk) && !(domBlk != -1 && f.g.Dominates(e, domBlk)) ::
                    !ContainValue(val, e)
        decreases if domBlk == -1 then 0 else f.g.domDepth[domBlk] + 1
      {
        if ContainValue(val, domBlk) {
          forall e | 0 <= e < f.g.n && e != domBlk && f.g.Dominates(domBlk, e) && f.g.Dominates(e, blk)
            ensures !ContainValue(val, e)
          {
            if f.g.Dominates(e, domBlk) {
              DominatesAntisym(f.g, e, domBlk);
            }
          }
          return GetVariable(val, domBlk);
        }
        if f.g.idom[domBlk] != -1 {
          DominatesIdom(f.g, domBlk, blk);
        }
        domBlk := f.g.idom[domBlk];
      }
    }

    /** `d` holds `val` and no block strictly between `d` and `blk` on the dominator chain does. */
    ghost predicate NearestHolder(val: int, blk: nat, d: nat)
      reads this, f
      requires f.Valid() && blk < f.g.n && d < f.g.n && |blkVars| == f.g.n
    {
      ContainValue(val, d) &&
      forall e | 0 <= e < f.g.n && e != d && f.g.Dominates(d, e) && f.g.Dominates(e, blk) :: !ContainValue(val, e)
    }

    /** `h` is a variable that `GetReachVar` may give for `val` at position `q` of `blk`. */
    ghost predicate ReachHolder(val: int, blk: nat, q: Option<nat>, h: Node)
      reads this, f
      requires f.Valid() && blk < f.g.n && (q.Some? ==> q.value < |f.code[blk]|) && |blkVars| == f.g.n
    {
      LocalOf(val, blk, q) == Some(h) ||
      (LocalOf(val, blk, q).None? &&
       exists d | 0 <= d < f.g.n && f.g.Dominates(d, blk) :: NearestHolder(val, blk, d) && GetVariable(val, d) == Some(h))
    }

    /** The operand `ValueNumberToVariable` may put for number `val`: its constant, or else a reaching holder. */
    ghost predicate OperandFor(val: int, blk: nat, q: Option<nat>, h: Node)
      reads this, f
      requires f.Valid() && blk < f.g.n && (q.Some? ==> q.value < |f.code[blk]|) && |blkVars| == f.g.n
    {
      if val in constValTable then h == constValTable[val] else ReachHolder(val, blk, q, h)
    }

    /**
     * Turns value expression `ve` back into an expression over variables,
     * following the shape of the original expression `expr`: an operand that
     * was a register becomes the constant of its number or a variable
     * reaching position `q` of `blk` that holds it; other leaves are taken
     * from `expr`. None when some number has neither.
     */
    method ValueNumberToVariable(ve: Node, expr: Node, blk: nat, q: Option<nat>) returns (r: Option<Node>)
      requires Valid() && blk < f.g.n && (q.Some? ==> q.value < |f.code[blk]|)
      ensures r.Some? ==>
                && r.value.op == ve.op && r.value.ty == ve.ty && r.value.sym == ve.sym
                && |r.value.kids| == |ve.kids|
                && (forall i | 0 <= i < |ve.kids| && IsLeaf(ve.kids[i]) && Kid(expr, i).op != REG :: r.value.kids[i] == Kid(expr, i))
                && (forall i | 0 <= i < |ve.kids| && IsLeaf(ve.kids[i]) && Kid(expr, i).op == REG ::
                      OperandFor(ve.kids[i].sym, blk, q, r.value.kids[i]))
      ensures (forall i | 0 <= i < |ve.kids| :: IsLeaf(ve.kids[i]) &&
                 (Kid(expr, i).op == REG ==> ve.kids[i].sym in constValTable || HasReachHolder(ve.kids[i].sym, blk, q)))
              ==> r.Some?
      decreases ve
    {
      var exp := ve;
      var i := 0;
      while i < |ve.kids|
        invariant 0 <= i <= |ve.kids|
        invariant exp.op == ve.op && exp.ty == ve.ty && exp.sym == ve.sym && |exp.kids| == |ve.kids|
        invariant forall j | 0 <= j < i && IsLeaf(ve.kids[j]) && Kid(expr, j).op != REG :: exp.kids[j] == Kid(expr, j)
        invariant forall j | 0 <= j < i && IsLeaf(ve.kids[j]) && Kid(expr, j).op == REG ::
                    OperandFor(ve.kids[j].sym, blk, q, exp.kids[j])
      {
        if !IsLeaf(ve.kids[i]) {
          var sub := ValueNumberToVariable(ve.kids[i], Kid(expr, i), blk, q);
          if sub.None? {
            return None;
          }
          exp := WithKid(exp, i, sub.value);
        } else if Kid(expr, i).op == REG {
          var opVal := ve.kids[i].sym;
          var newReg;
          if opVal in constValTable {
            newReg := Some(constValTable[opVal]);
          } else {
            newReg := GetReachVar(opVal, blk, q);
          }
          if newReg.None? {
            return None;
          }
          exp := WithKid(exp, i, newReg.value);
        } else {
          exp := WithKid(exp, i, Kid(expr, i));
        }
        i := i + 1;
      }
      r := Some(exp);
    }

    /** Some variable holds `val` for position `q` of `blk`, locally or in a dominator. */
    ghost predicate HasReachHolder(val: int, blk: nat, q: Option<nat>)
      reads this, f
      requires f.Valid() && blk < f.g.n && (q.Some? ==> q.value < |f.code[blk]|) && |blkVars| == f.g.n
    {
      LocalOf(val, blk, q).Some? || exists d | 0 <= d < f.g.n && f.g.Dominates(d, blk) :: ContainValue(val, d)
    }

    // -------------------------------------------------------------------
    // Translating value expressions across phis
    // -------------------------------------------------------------------

    /** Some argument of PHI `phi` carries number `num`. */
    predicate ArgCarries(phi: Node, num: int)
      reads this
    {
      exists j | 1 <= j < |phi.kids| :: ValueOf(PhiArgValue(phi.kids[j])) == num
    }

    /**
     * The number of the target of the first leading PHI of `instrs`, from
     * position `k` on, that has an argument carrying `num`.
     */
    function PhiTargetFor(instrs: seq<Node>, k: nat, num: int): (r: Option<int>)
      reads this
      requires k <= PhiCount(instrs)
      decreases |instrs| - k
    {
      if k >= |instrs| || instrs[k].op != PHI then None
      else if ArgCarries(instrs[k], num) then Some(ValueOf(Kid(instrs[k], 0)))
      else PhiTargetFor(instrs, k + 1, num)
    }

    /**
     * The translation finds a target exactly when some leading PHI has an
     * argument carrying `num`, and the target it finds is that of such a PHI.
     */
    lemma {:induction false} PhiTargetForFinds(instrs: seq<Node>, k: nat, num: int)
      requires k <= PhiCount(instrs)
      ensures PhiTargetFor(instrs, k, num).Some? ==> exists m | k <= m < PhiCount(instrs) ::
                ArgCarries(instrs[m], num) && PhiTargetFor(instrs, k, num).value == ValueOf(Kid(instrs[m], 0))
      ensures PhiTargetFor(instrs, k, num).None? <==> forall m | k <= m < PhiCount(instrs) :: !ArgCarries(instrs[m], num)
      decreases |instrs| - k
    {
      if k < |instrs| && instrs[k].op == PHI {
        PhiTargetForFinds(instrs, k + 1, num);
      }
    }

    /**
     * Operand `leaf` (the constant of a number) translated into a successor
     * with leading PHIs `instrs`.
     */
    function TranslatedOperand(instrs: seq<Node>, leaf: Node): Node
      reads this
    {
      var t := PhiTargetFor(instrs, 0, leaf.sym);
      if t.Some? then IConst(I32, t.value) else leaf
    }

    /** Whether some argument of PHI `phi` carries `num` (the inner loop of the translation). */
    method ArgCarriesVal(phi: Node, num: int) returns (r: bool)
      requires Valid()
      ensures r <==> ArgCarries(phi, num)
    {
      var j := 1;
      while j < |phi.kids|
        invariant 1 <= j
        invariant forall m | 1 <= m < j && m < |phi.kids| :: ValueOf(PhiArgValue(phi.kids[m])) != num
      {
        var argVal := GetValue(PhiArgValue(phi.kids[j]));
        if argVal == num {
          return true;
        }
        j := j + 1;
      }
      return false;
    }

    /**
     * Translates value expression `ve` of a predecessor into the terms of its
     * successor `succ`: an operand that was a register, and whose number some
     * argument of a leading PHI of `succ` carries, becomes the number of the
     * first such PHI's target.
     */
    method MakeNewValueExpSucc(ve: Node, expr: Node, succ: nat) returns (newVE: Node)
      requires Valid() && succ < f.g.n
      ensures newVE.op == ve.op && |newVE.kids| == |ve.kids|
      ensures forall i | 0 <= i < |ve.kids| && Kid(expr, i).op != REG && IsLeaf(Kid(expr, i)) :: newVE.kids[i] == ve.kids[i]
      ensures forall i | 0 <= i < |ve.kids| && Kid(expr, i).op == REG ::
                newVE.kids[i] == TranslatedOperand(f.code[succ], ve.kids[i])
      decreases ve
    {
      newVE := ve;
      var instrs := f.code[succ];
      var i := 0;
      while i < |ve.kids|
        invariant 0 <= i <= |ve.kids|
        invariant newVE.op == ve.op && |newVE.kids| == |ve.kids|
        invariant forall m | i <= m < |ve.kids| :: newVE.kids[m] == ve.kids[m]
        invariant forall m | 0 <= m < i && Kid(expr, m).op != REG && IsLeaf(Kid(expr, m)) :: newVE.kids[m] == ve.kids[m]
        invariant forall m | 0 <= m < i && Kid(expr, m).op == REG ::
                    newVE.kids[m] == TranslatedOperand(instrs, ve.kids[m])
      {
        if Kid(expr, i).op == REG {
          var t := SuccPhiTarget(instrs, ve.kids[i].sym);
          if t.Some? {
            newVE := WithKid(newVE, i, IConst(I32, t.value));
          }
        } else if !IsLeaf(Kid(expr, i)) {
          var sub := MakeNewValueExpSucc(ve.kids[i], Kid(expr, i), succ);
          newVE := WithKid(newVE, i, sub);
        }
        i := i + 1;
      }
    }

    /** The number of the target of the first leading PHI with an argument carrying `num`. */
    method SuccPhiTarget(instrs: seq<Node>, num: int) returns (r: Option<int>)
      requires Valid()
      ensures r == PhiTargetFor(instrs, 0, num)
    {
      var k := 0;
      while k < |instrs| && instrs[k].op == PHI
        invariant 0 <= k <= PhiCount(instrs)
        invariant PhiTargetFor(instrs, 0, num) == PhiTargetFor(instrs, k, num)
      {
        var carries := ArgCarriesVal(instrs[k], num);
        if carries {
          var t := GetValue(Kid(instrs[k], 0));
          return Some(t);
        }
        k := k + 1;
      }
      return None;
    }

    /** Every old entry of the value table is kept; the new ones are for constant leaves only. */
    ghost predicate AddsOnlyConstants(t0: map<Node, int>)
      reads this
    {
      && (forall e | e in t0 :: e in valueTable && valueTable[e] == t0[e])
      && (forall e | e in valueTable && e !in t0 :: IsLeaf(e) && e.op != REG)
    }

    /** The first argument of PHI `phi` that comes from block `pred`. */
    static method PredArg(phi: Node, pred: nat) returns (r: Option<nat>)
      ensures r.Some? ==> 1 <= r.value < |phi.kids| && PhiArgBlock(phi.kids[r.value]) == pred
      ensures r.Some? ==> forall m | 1 <= m < r.value :: PhiArgBlock(phi.kids[m]) != pred
      ensures r.None? ==> forall m | 1 <= m < |phi.kids| :: PhiArgBlock(phi.kids[m]) != pred
    {
      var j := 1;
      while j < |phi.kids|
        invariant 1 <= j
        invariant forall m | 1 <= m < j && m < |phi.kids| :: PhiArgBlock(phi.kids[m]) != pred
      {
        if PhiArgBlock(phi.kids[j]) == pred {
          return Some(j);
        }
        j := j + 1;
      }
      return None;
    }

    /**
     * The number of PHI argument `argv` as seen from predecessor `pred`: its
     * entry, or for a constant without one a new number recorded in `pred`.
     */
    method ArgValue(argv: Node, pred: nat) returns (argVal: int)
      requires Valid() && pred < f.g.n
      modifies this
      ensures Valid() && old(value) <= value && old(issued) <= issued
      ensures SameAssumptions(old(samePhiMap), old(dependMap), old(dependListMap))
      ensures AddsOnlyConstants(old(valueTable))
      ensures argVal == ValueOf(argv)
      ensures argVal == -1 <==> old(ValueOf(argv)) == -1 && !(IsLeaf(argv) && argv.op != REG)
      ensures old(ValueOf(argv)) != -1 || argVal == -1 ==> valueTable == old(valueTable) && value == old(value)
    {
      argVal := GetValue(argv);
      if argVal == -1 && IsLeaf(argv) && argv.op != REG {
        argVal := NewValue();
        SetValueIn(argVal, argv, pred);
        assert argv !in old(valueTable);
      }
    }

    /**
     * Operand number `num` of block `blk` translated into predecessor
     * `pred`: the number of the argument from `pred` of the first leading
     * PHI whose target carries `num` and that has such an argument. A
     * constant argument without a number gets a new one, recorded in `pred`.
     */
    method PredOperand(instrs: seq<Node>, num: int, pred: nat) returns (r: Option<int>)
      requires Valid() && pred < f.g.n
      modifies this
      ensures Valid() && old(value) <= value && old(issued) <= issued
      ensures SameAssumptions(old(samePhiMap), old(dependMap), old(dependListMap))
      ensures AddsOnlyConstants(old(valueTable))
      ensures r.Some? ==> exists k | 0 <= k < PhiCount(instrs) ::
                && old(ValueOf(Kid(instrs[k], 0))) == num
                && exists j | 1 <= j < |instrs[k].kids| ::
                     PhiArgBlock(instrs[k].kids[j]) == pred && r.value == ValueOf(PhiArgValue(instrs[k].kids[j]))
      ensures r.None? ==> valueTable == old(valueTable) && value == old(value)
      ensures r.None? ==> forall k | 0 <= k < PhiCount(instrs) && old(ValueOf(Kid(instrs[k], 0))) == num ::
                forall j | 1 <= j < |instrs[k].kids| :: PhiArgBlock(instrs[k].kids[j]) != pred
    {
      var k := 0;
      while k < |instrs| && instrs[k].op == PHI
        invariant 0 <= k <= PhiCount(instrs)
        invariant unchanged(this)
        invariant forall m | 0 <= m < k && ValueOf(Kid(instrs[m], 0)) == num ::
                    forall j | 1 <= j < |instrs[m].kids| :: PhiArgBlock(instrs[m].kids[j]) != pred
      {
        var phiVal := GetValue(Kid(instrs[k], 0));
        if phiVal == num {
          var j := PredArg(instrs[k], pred);
          if j.Some? {
            var jj := j.value;
            var argVal := ArgValue(PhiArgValue(instrs[k].kids[jj]), pred);
            assert PhiArgBlock(instrs[k].kids[jj]) == pred && argVal == ValueOf(PhiArgValue(instrs[k].kids[jj]));
            return Some(argVal);
          }
        }
        k := k + 1;
      }
      return None;
    }

    /**
     * Translates value expression `ve` of block `blk` into the terms of its
     * predecessor `pred` (the operands of the original expression `expr`
     * that were registers are looked up among the leading PHIs of `blk`).
     */
    method MakeNewValueExpPred(ve: Node, expr: Node, blk: nat, pred: nat) returns (newVE: Node)
      requires Valid() && blk < f.g.n && pred < f.g.n
      modifies this
      ensures Valid() && old(value) <= value && old(issued) <= issued
      ensures SameAssumptions(old(samePhiMap), old(dependMap), old(dependListMap))
      ensures AddsOnlyConstants(old(valueTable))
      ensures newVE.op == ve.op && |newVE.kids| == |ve.kids|
      ensures forall i | 0 <= i < |ve.kids| && Kid(expr, i).op != REG && IsLeaf(Kid(expr, i)) :: newVE.kids[i] == ve.kids[i]
      ensures forall i | 0 <= i < |ve.kids| && Kid(expr, i).op == REG ::
                newVE.kids[i] == ve.kids[i] || (newVE.kids[i].op == INTCONST && HasArgFrom(f.code[blk], pred))
      decreases ve, 1
    {
      newVE := ve;
      var i := 0;
      while i < |ve.kids|
        invariant 0 <= i <= |ve.kids|
        invariant Valid() && old(value) <= value && old(issued) <= issued
        invariant SameAssumptions(old(samePhiMap), old(dependMap), old(dependListMap))
        invariant AddsOnlyConstants(old(valueTable))
        invariant newVE.op == ve.op && |newVE.kids| == |ve.kids|
        invariant forall m | i <= m < |ve.kids| :: newVE.kids[m] == ve.kids[m]
        invariant forall m | 0 <= m < i && Kid(expr, m).op != REG && IsLeaf(Kid(expr, m)) :: newVE.kids[m] == ve.kids[m]
        invariant forall m | 0 <= m < i && Kid(expr, m).op == REG ::
                    newVE.kids[m] == ve.kids[m] || (newVE.kids[m].op == INTCONST && HasArgFrom(f.code[blk], pred))
      {
        ghost var t0 := valueTable;
        newVE := PredPosition(newVE, ve, expr, i, blk, pred);
        AddsOnlyConstantsTrans(old(valueTable), t0);
        i := i + 1;
      }
    }

    /** One operand position `i` of `MakeNewValueExpPred`. */
    method PredPosition(newVE: Node, ve: Node, expr: Node, i: nat, blk: nat, pred: nat) returns (r: Node)
      requires Valid() && blk < f.g.n && pred < f.g.n
      requires i < |ve.kids| && newVE.op == ve.op && |newVE.kids| == |ve.kids|
      modifies this
      ensures Valid() && old(value) <= value && old(issued) <= issued
      ensures SameAssumptions(old(samePhiMap), old(dependMap), old(dependListMap))
      ensures AddsOnlyConstants(old(valueTable))
      ensures r.op == ve.op && |r.kids| == |ve.kids|
      ensures forall m | 0 <= m < |ve.kids| && m != i :: r.kids[m] == newVE.kids[m]
      ensures Kid(expr, i).op != REG && IsLeaf(Kid(expr, i)) ==> r.kids[i] == newVE.kids[i]
      ensures Kid(expr, i).op == REG ==> r.kids[i] == newVE.kids[i] || (r.kids[i].op == INTCONST && HasArgFrom(f.code[blk], pred))
      decreases ve, 0
    {
      r := newVE;
      if Kid(expr, i).op == REG {
        var a := PredOperand(f.code[blk], ve.kids[i].sym, pred);
        if a.Some? {
          r := WithKid(newVE, i, IConst(I32, a.value));
        }
      } else if !IsLeaf(Kid(expr, i)) {
        var sub := MakeNewValueExpPred(ve.kids[i], Kid(expr, i), blk, pred);
        r := WithKid(newVE, i, sub);
      }
    }

    /** Some leading PHI of `instrs` has an argument from block `pred`. */
    ghost predicate HasArgFrom(instrs: seq<Node>, pred: nat) {
      exists k | 0 <= k < PhiCount(instrs) :: exists j | 1 <= j < |instrs[k].kids| :: PhiArgBlock(instrs[k].kids[j]) == pred
    }

    lemma AddsOnlyConstantsTrans(t0: map<Node, int>, t1: map<Node, int>)
      requires (forall e | e in t0 :: e in t1 && t1[e] == t0[e]) && (forall e | e in t1 && e !in t0 :: IsLeaf(e) && e.op != REG)
      requires AddsOnlyConstants(t1)
      ensures AddsOnlyConstants(t0)
    {
    }

    // -------------------------------------------------------------------
    // Optimistic numbering of loop headers
    // -------------------------------------------------------------------

    /** PHI argument `arg` carries a register that has no number yet. */
    predicate UnnumberedArg(arg: Node)
      reads this
    {
      PhiArgValue(arg).op == REG && PhiArgValue(arg) !in valueTable
    }

    /** Some argument of `phi` carries an unnumbered register. */
    ghost predicate HasUnnumbered(phi: Node)
      reads this
    {
      exists i | 1 <= i < |phi.kids| :: UnnumberedArg(phi.kids[i])
    }

    /** Every unnumbered register argument of `phi` comes from a block that `blk` dominates (a back edge). */
    ghost predicate UnnumberedOnBackEdges(blk: nat, phi: Node)
      reads this, f
      requires f.Valid() && blk < f.g.n
    {
      forall i | 1 <= i < |phi.kids| && UnnumberedArg(phi.kids[i]) ::
        0 <= PhiArgBlock(phi.kids[i]) < f.g.n && f.g.Dominates(blk, PhiArgBlock(phi.kids[i]))
    }

    /** Scans the arguments of one PHI for `CheckPhiArg`. */
    method ScanPhiArgs(phi: Node, blk: nat) returns (any: bool, ok: bool)
      requires Valid() && blk < f.g.n
      ensures ok <==> UnnumberedOnBackEdges(blk, phi)
      ensures ok ==> (any <==> HasUnnumbered(phi))
    {
      any := false;
      var i := 1;
      while i < |phi.kids|
        invariant 1 <= i
        invariant forall m | 1 <= m < i && m < |phi.kids| && UnnumberedArg(phi.kids[m]) ::
                    0 <= PhiArgBlock(phi.kids[m]) < f.g.n && f.g.Dominates(blk, PhiArgBlock(phi.kids[m]))
        invariant any <==> exists m | 1 <= m < i && m < |phi.kids| :: UnnumberedArg(phi.kids[m])
      {
        if UnnumberedArg(phi.kids[i]) {
          var pred := PhiArgBlock(phi.kids[i]);
          if 0 <= pred < f.g.n && f.g.Dominates(blk, pred) {
            any := true;
          } else {
            return any, false;
          }
        }
        i := i + 1;
      }
      return any, true;
    }

    /** One of the first `k` instructions has an argument carrying an unnumbered register. */
    ghost predicate AnyUnnumbered(instrs: seq<Node>, k: nat)
      reads this
      requires k <= |instrs|
    {
      exists m | 0 <= m < k :: HasUnnumbered(instrs[m])
    }

    /** In the first `k` instructions every unnumbered register argument comes along a back edge of `blk`. */
    ghost predicate AllOnBackEdges(blk: nat, instrs: seq<Node>, k: nat)
      reads this, f
      requires f.Valid() && blk < f.g.n && k <= |instrs|
    {
      forall m | 0 <= m < k :: UnnumberedOnBackEdges(blk, instrs[m])
    }

    lemma PrefixStep(blk: nat, instrs: seq<Node>, k: nat, n: nat)
      requires f.Valid() && blk < f.g.n && k < n <= |instrs|
      ensures AnyUnnumbered(instrs, k + 1) <==> AnyUnnumbered(instrs, k) || HasUnnumbered(instrs[k])
      ensures AllOnBackEdges(blk, instrs, k + 1) <==> AllOnBackEdges(blk, instrs, k) && UnnumberedOnBackEdges(blk, instrs[k])
      ensures !UnnumberedOnBackEdges(blk, instrs[k]) ==> !AllOnBackEdges(blk, instrs, n)
    {
      if HasUnnumbered(instrs[k]) {
        assert 0 <= k < k + 1;
      }
    }

    /**
     * Whether `blk` is numbered optimistically: some leading PHI has an
     * argument carrying an unnumbered register, and every such argument
     * comes along a back edge (from a block `blk` dominates).
     */
    method CheckPhiArg(blk: nat) returns (ans: bool)
      requires Valid() && blk < f.g.n
      ensures ans <==> AnyUnnumbered(f.code[blk], PhiCount(f.code[blk])) && AllOnBackEdges(blk, f.code[blk], PhiCount(f.code[blk]))
    {
      var instrs := f.code[blk];
      ans := false;
      var k := 0;
      while k < |instrs| && instrs[k].op == PHI
        invariant 0 <= k <= PhiCount(instrs)
        invariant AllOnBackEdges(blk, instrs, k)
        invariant ans <==> AnyUnnumbered(instrs, k)
      {
        var any, ok := ScanPhiArgs(instrs[k], blk);
        PrefixStep(blk, instrs, k, PhiCount(instrs));
        if !ok {
          return false;
        }
        ans := ans || any;
        k := k + 1;
      }
    }

    /** `v` depends on an optimistically numbered PHI. */
    predicate DependLoopPhi(v: Node)
      reads this
    {
      v in dependMap
    }

    /** `v` is an optimistic PHI target or depends on one. */
    predicate CheckDepend(v: Node)
      reads this
    {
      v in samePhiMap || v in dependMap
    }

    /** The instructions (with their blocks) registered as depending on `v`; empty when there are none. */
    function DependList(v: Node): (l: seq<(Node, nat)>)
      reads this
      ensures v in dependListMap ==> l == dependListMap[v]
      ensures v !in dependListMap ==> l == []
    {
      if v in dependListMap then dependListMap[v] else []
    }

    /** The optimistic PHI target that `v` stands for: itself when it is one, else the one it depends on. */
    function PhiRoot(v: Node): Node
      reads this
      requires CheckDepend(v)
    {
      if v in samePhiMap then v else dependMap[v]
    }

    /** Records that `lhs` depends on the optimistic PHI target behind `v`. */
    method AddDependMap(lhs: Node, v: Node)
      requires CheckDepend(v)
      modifies this`dependMap
      ensures dependMap == old(dependMap)[lhs := old(PhiRoot(v))]
      ensures v in samePhiMap ==> dependMap[lhs] == v
      ensures v !in samePhiMap ==> dependMap[lhs] == old(dependMap)[v]
    {
      var temp := if v in samePhiMap then v else dependMap[v];
      dependMap := dependMap[lhs := temp];
    }

    /** Appends (`node`, `blk`) to the dependants of the optimistic PHI target behind `v`. */
    method AddDependList(v: Node, node: Node, blk: nat)
      requires Valid() && blk < f.g.n && CheckDepend(v)
      modifies this`dependListMap
      ensures Valid()
      ensures dependListMap == old(dependListMap)[PhiRoot(v) := old(DependList(PhiRoot(v))) + [(node, blk)]]
    {
      var phiVar := if v in samePhiMap then v else dependMap[v];
      dependListMap := dependListMap[phiVar := DependList(phiVar) + [(node, blk)]];
    }

    /** Registers `node` as a dependant of `v` and `lhs` as depending on it, when `v` is (or depends on) an optimistic PHI. */
    method DependOn(v: Node, lhs: Node, node: Node, blk: nat)
      requires Valid() && blk < f.g.n
      modifies this`dependMap, this`dependListMap
      ensures Valid()
      ensures !old(CheckDepend(v)) ==> dependMap == old(dependMap) && dependListMap == old(dependListMap)
      ensures old(CheckDepend(v)) ==>
                && dependMap == old(dependMap)[lhs := old(PhiRoot(v))]
                && dependListMap == old(dependListMap)[old(PhiRoot(v)) := old(DependList(PhiRoot(v))) + [(node, blk)]]
      ensures Appended(old(dependListMap), dependListMap, (node, blk))
      ensures old(CheckDepend(v)) ==> lhs in dependMap && exists w | w in dependListMap :: (node, blk) in dependListMap[w]
    {
      if CheckDepend(v) {
        ghost var root := PhiRoot(v);
        AddDependList(v, node, blk);
        AddDependMap(lhs, v);
        AppendedOne(old(dependListMap), root, (node, blk));
        assert (node, blk) in dependListMap[root];
      } else {
        AppendedOne(old(dependListMap), v, (node, blk));
      }
    }

    /**
     * Registers `node` (of `blk`) as a dependant of every optimistic PHI
     * target that one of its operands stands for, and records its
     * destination as depending on it.
     */
    method CheckDependPhi(node: Node, blk: nat)
      requires Valid() && blk < f.g.n
      modifies this`dependMap, this`dependListMap
      ensures Valid()
      ensures Appended(old(dependListMap), dependListMap, (node, blk))
      ensures forall v | v != Kid(node, 0) :: (v in dependMap <==> v in old(dependMap)) && (v in dependMap ==> dependMap[v] == old(dependMap)[v])
      ensures (forall o | o in DependOperands(node) :: !old(CheckDepend(o))) ==>
                dependMap == old(dependMap) && dependListMap == old(dependListMap)
      ensures (exists o | o in DependOperands(node) :: old(CheckDepend(o))) ==>
                Kid(node, 0) in dependMap && exists v | v in dependListMap :: (node, blk) in dependListMap[v]
    {
      var ops := DependOperands(node);
      var lhs := Kid(node, 0);
      var i := 0;
      ghost var found := false;
      ghost var d0, l0 := dependMap, dependListMap;
      while i < |ops|
        invariant 0 <= i <= |ops|
        invariant Valid()
        invariant found <==> exists m | 0 <= m < i :: old(CheckDepend(ops[m]))
        invariant DependSoFar(d0, l0, dependMap, dependListMap, lhs, (node, blk), found)
      {
        ghost var d1, l1 := dependMap, dependListMap;
        ghost var hit := CheckDepend(ops[i]);
        assert !found ==> hit == old(CheckDepend(ops[i]));
        DependOn(ops[i], lhs, node, blk);
        DependStep(d0, l0, d1, l1, dependMap, dependListMap, lhs, (node, blk), found, hit);
        found := found || old(CheckDepend(ops[i]));
        i := i + 1;
      }
    }

    /** Every optimistic PHI target is assumed equal to itself. */
    ghost predicate SelfAssumed()
      reads this
    {
      forall v | v in samePhiMap :: samePhiMap[v] == v
    }

    /** The assumptions are those of `s0`, some withdrawn, none added or changed. */
    ghost predicate Withdrawn(s0: map<Node, Node>)
      reads this
    {
      samePhiMap.Keys <= s0.Keys && forall v | v in samePhiMap :: samePhiMap[v] == s0[v]
    }

    /**
     * Checks the assumption about `v` against its new number `val`: it
     * holds when `v` has none or its assumed equal carries `val`; a failed
     * assumption is withdrawn.
     */
    method CheckAssum(val: int, v: Node) returns (r: bool)
      modifies this`samePhiMap
      ensures r <==> v !in old(samePhiMap) || val == ValueOf(old(samePhiMap)[v])
      ensures r ==> samePhiMap == old(samePhiMap)
      ensures !r ==> samePhiMap == old(samePhiMap) - {v} && |samePhiMap.Keys| < |old(samePhiMap).Keys|
      ensures old(SelfAssumed()) && v.op != PHI && ValueOf(v) == val ==> r
    {
      if v !in samePhiMap {
        return true;
      }
      var svar := samePhiMap[v];
      if val == ValueOf(svar) {
        return true;
      }
      samePhiMap := samePhiMap - {v};
      assert samePhiMap.Keys < old(samePhiMap).Keys;
      return false;
    }

    /**
     * Renumbers dependant `dNode` of `dBlk` and rechecks its assumption;
     * its destination joins `worklist` when that fails and it is not there yet.
     */
    method Recheck(dNode: Node, dBlk: nat, worklist: seq<Node>) returns (wl: seq<Node>)
      requires Valid() && dBlk < f.g.n
      modifies this
      ensures Valid() && old(value) <= value && old(issued) <= issued
      ensures old(valueTable).Keys <= valueTable.Keys
      ensures dependMap == old(dependMap) && dependListMap == old(dependListMap)
      ensures Withdrawn(old(samePhiMap))
      ensures wl == worklist || wl == worklist + [Kid(dNode, 0)]
      ensures |samePhiMap.Keys| + |wl| <= |old(samePhiMap).Keys| + |worklist|
    {
      var dvar := Kid(dNode, 0);
      var newVal := DetermineValue(dNode, dBlk);
      SetValueRecordBlkVal(newVal, dvar, dBlk);
      var ok := CheckAssum(newVal, dvar);
      wl := worklist;
      if !ok && dvar !in worklist {
        wl := worklist + [dvar];
      }
    }

    /**
     * After the assumption about `v` failed: renumbers every instruction
     * registered as depending on it, and transitively those depending on a
     * target whose assumption fails in turn.
     */
    method ReCompVal(v: Node)
      requires Valid()
      modifies this
      ensures Valid() && old(value) <= value && old(issued) <= issued
      ensures old(valueTable).Keys <= valueTable.Keys
      ensures dependMap == old(dependMap) && dependListMap == old(dependListMap)
      ensures Withdrawn(old(samePhiMap))
    {
      var worklist := [v];
      while |worklist| > 0
        invariant Valid() && old(value) <= value && old(issued) <= issued
        invariant old(valueTable).Keys <= valueTable.Keys
        invariant dependMap == old(dependMap) && dependListMap == old(dependListMap)
        invariant Withdrawn(old(samePhiMap))
        decreases |samePhiMap.Keys| + |worklist|
      {
        var diffVar := worklist[|worklist| - 1];
        worklist := worklist[..|worklist| - 1];
        var list := DependList(diffVar);
        ghost var bound := |samePhiMap.Keys| + |worklist|;
        var i := 0;
        while i < |list|
          invariant 0 <= i <= |list|
          invariant Valid() && old(value) <= value && old(issued) <= issued
          invariant old(valueTable).Keys <= valueTable.Keys
          invariant dependMap == old(dependMap) && dependListMap == old(dependListMap)
          invariant Withdrawn(old(samePhiMap))
          invariant |samePhiMap.Keys| + |worklist| <= bound
        {
          ghost var s0 := samePhiMap;
          worklist := Recheck(list[i].0, list[i].1, worklist);
          assert samePhiMap.Keys <= s0.Keys;
          i := i + 1;
        }
      }
    }

    /** One instruction of a `CheckPhiVal` pass; `failed` when its assumption was withdrawn. */
    method PhiValStep(phi: Node, blk: nat) returns (failed: bool)
      requires Valid() && blk < f.g.n
      modifies this
      ensures Valid() && old(value) <= value && old(issued) <= issued
      ensures old(valueTable).Keys <= valueTable.Keys
      ensures dependMap == old(dependMap) && dependListMap == old(dependListMap)
      ensures Withdrawn(old(samePhiMap))
      ensures failed ==> |samePhiMap.Keys| < |old(samePhiMap).Keys|
      ensures old(SelfAssumed()) && Kid(phi, 0).op != PHI ==> !failed && samePhiMap == old(samePhiMap)
    {
      var val := DetermineValue(phi, blk);
      SetValueRecordBlkVal(val, Kid(phi, 0), blk);
      var ok := CheckAssum(val, Kid(phi, 0));
      failed := false;
      if !ok {
        ghost var s1 := samePhiMap;
        ReCompVal(Kid(phi, 0));
        SubsetCard(samePhiMap.Keys, s1.Keys);
        failed := true;
      }
    }

    /**
     * Renumbers the instructions of the optimistically numbered `blk`,
     * rechecking each destination's assumption, until a whole pass
     * withdraws none; then propagates the reachable numbers down the
     * dominator tree from `blk`. When every assumption names its own
     * target (as numbering leaves them) no pass withdraws anything.
     */
    method CheckPhiVal(blk: nat)
      requires Valid() && blk < f.g.n
      modifies this
      ensures Valid() && old(value) <= value && old(issued) <= issued
      ensures old(valueTable).Keys <= valueTable.Keys
      ensures dependMap == old(dependMap) && dependListMap == old(dependListMap)
      ensures Withdrawn(old(samePhiMap))
      ensures old(SelfAssumed()) && (forall k | 0 <= k < |f.code[blk]| :: Kid(f.code[blk][k], 0).op != PHI) ==>
                samePhiMap == old(samePhiMap)
    {
      var instrs := f.code[blk];
      var change := true;
      while change
        invariant Valid() && old(value) <= value && old(issued) <= issued
        invariant old(valueTable).Keys <= valueTable.Keys
        invariant dependMap == old(dependMap) && dependListMap == old(dependListMap)
        invariant Withdrawn(old(samePhiMap))
        invariant old(SelfAssumed()) && (forall k | 0 <= k < |instrs| :: Kid(instrs[k], 0).op != PHI) ==>
                    samePhiMap == old(samePhiMap) && (change ==> samePhiMap == old(samePhiMap))
        decreases |samePhiMap.Keys| + (if change then 1 else 0)
      {
        change := false;
        ghost var keys := |samePhiMap.Keys|;
        ghost var s0 := samePhiMap;
        var k := 0;
        while k < |instrs|
          invariant 0 <= k <= |instrs|
          invariant Valid() && old(value) <= value && old(issued) <= issued
          invariant old(valueTable).Keys <= valueTable.Keys
          invariant dependMap == old(dependMap) && dependListMap == old(dependListMap)
          invariant Withdrawn(old(samePhiMap))
          invariant |samePhiMap.Keys| <= keys && (change ==> |samePhiMap.Keys| < keys)
          invariant old(SelfAssumed()) && (forall m | 0 <= m < |instrs| :: Kid(instrs[m], 0).op != PHI) ==>
                      samePhiMap == old(samePhiMap) && !change
        {
          ghost var s1 := samePhiMap;
          var failed := PhiValStep(instrs[k], blk);
          SubsetCard(samePhiMap.Keys, s1.Keys);
          change := change || failed;
          k := k + 1;
        }
      }
      RecordReachValue(blk);
    }

    /**
     * Propagates reachable numbers from predecessors into `blk` and then,
     * recursively, into every block of its dominator subtree; blocks
     * outside the subtree keep theirs, and no set shrinks.
     */
    method RecordReachValue(blk: nat)
      requires Valid() && blk < f.g.n
      modifies this`reach
      ensures Valid()
      ensures forall b | 0 <= b < f.g.n :: old(reach[b]) <= reach[b]
      ensures forall b | 0 <= b < f.g.n && !f.g.Dominates(blk, b) :: reach[b] == old(reach[b])
      ensures forall j | 0 <= j < |f.g.preds[blk]| :: f.g.preds[blk][j] < f.g.n && old(reach[f.g.preds[blk][j]]) <= reach[blk]
      decreases f.g.n - f.g.domDepth[blk]
    {
      RecordReachableValues(blk);
      ghost var r1 := reach;
      var kids := f.g.domKids[blk];
      IdsBelowAt(f.g.domKids, f.g.n, blk);
      var i := 0;
      while i < |kids|
        invariant 0 <= i <= |kids|
        invariant Valid()
        invariant forall b | 0 <= b < f.g.n :: r1[b] <= reach[b]
        invariant forall b | 0 <= b < f.g.n && !f.g.Dominates(blk, b) :: reach[b] == r1[b]
      {
        var kid := kids[i];
        assert kid in f.g.domKids[blk];
        forall b | 0 <= b < f.g.n && f.g.Dominates(kid, b)
          ensures f.g.Dominates(blk, b)
        {
          DominatesIdom(f.g, kid, b);
        }
        RecordReachValue(kid);
        i := i + 1;
      }
    }

    // -------------------------------------------------------------------
    // Numbering a block
    // -------------------------------------------------------------------

    /** The destinations `instr` defines have numbers. */
    ghost predicate DestsNumbered(instr: Node)
      reads this
    {
      DestsIn(instr, valueTable.Keys)
    }

    /** Gives every register parameter of PROLOGUE `node` a new number held in `blk`. */
    method NumberPrologue(node: Node, blk: nat)
      requires Valid() && blk < f.g.n && node.op == PROLOGUE
      modifies this
      ensures Valid() && old(value) <= value && old(issued) <= issued
      ensures old(valueTable).Keys <= valueTable.Keys
      ensures SameAssumptions(old(samePhiMap), old(dependMap), old(dependListMap))
      ensures DestsNumbered(node)
    {
      var i := 0;
      while i < |node.kids|
        invariant 0 <= i <= |node.kids|
        invariant Valid() && old(value) <= value && old(issued) <= issued
        invariant old(valueTable).Keys <= valueTable.Keys
        invariant SameAssumptions(old(samePhiMap), old(dependMap), old(dependListMap))
        invariant forall m | 0 <= m < i && node.kids[m].op == REG :: node.kids[m] in valueTable
      {
        if node.kids[i].op == REG {
          var val := NewValueFor(node.kids[i], blk);
        }
        i := i + 1;
      }
    }

    /**
     * Numbers PHI `node` of `blk` and makes its target the holder of the
     * number. Numbering optimistically, it records an assumption for the
     * target: the block's holder of the number, or that holder's own
     * assumption. As written the holder is looked up after the target was
     * made the holder, so the assumption is the target itself or the one
     * it already had.
     */
    method NumberPhi(node: Node, blk: nat, optimistic: bool)
      requires Valid() && blk < f.g.n && node.op == PHI
      modifies this
      ensures Valid() && old(value) <= value && old(issued) <= issued
      ensures old(valueTable).Keys <= valueTable.Keys
      ensures dependMap == old(dependMap) && dependListMap == old(dependListMap)
      ensures DestsNumbered(node)
      ensures Kid(node, 0).op != PHI ==> GetVariable(ValueOf(Kid(node, 0)), blk) == Some(Kid(node, 0))
      ensures !optimistic ==> samePhiMap == old(samePhiMap)
      ensures optimistic ==> samePhiMap == old(samePhiMap)[Kid(node, 0) :=
                if Kid(node, 0) in old(samePhiMap) then old(samePhiMap)[Kid(node, 0)] else Kid(node, 0)]
    {
      var val := DetermineValue(node, blk);
      SetValueRecordBlkVal(val, Kid(node, 0), blk);
      if optimistic {
        var variables := blkVars[blk];
        if val in variables {
          var v := variables[val];
          if v in samePhiMap {
            v := samePhiMap[v];
          }
          samePhiMap := samePhiMap[Kid(node, 0) := v];
        }
      }
    }

    /**
     * Numbering pessimistically, the local-table step for the SET at
     * position `k` of `blk` whose number is `val`: a register SET with a
     * compound source whose number already has a local holder in `lm` has
     * its source replaced by that holder (when mode `elmode` allows it),
     * and then its destination becomes the local holder; a store's source
     * becomes the local holder.
     */
    method LocalEliminate(k: nat, blk: nat, val: int, elmode: int, lm: map<int, Node>) returns (lm2: map<int, Node>)
      requires f.Valid() && blk < f.g.n && k < |f.code[blk]| && f.code[blk][k].op == SET
      modifies f`code
      ensures f.Valid() && |f.code[blk]| == |old(f.code[blk])|
      ensures f.code == old(f.code)[blk := old(f.code[blk])[k := f.code[blk][k]]]
      ensures RhsReplaced(old(f.code[blk][k]), f.code[blk][k], elmode)
      ensures f.code[blk][k] != old(f.code[blk][k]) ==> val in lm && f.code[blk][k] == WithKid(old(f.code[blk][k]), 1, lm[val])
      ensures forall v | v in lm2.Values && v !in lm.Values :: DefinesHolder(old(f.code[blk][k]), v)
      ensures f.code[blk][k] == LocalRewrite(old(f.code[blk][k]), val, elmode, lm)
      ensures lm2 == HoldersAfter(old(f.code[blk][k]), val, lm)
    {
      var node := f.code[blk][k];
      ghost var c0 := f.code;
      assert c0[blk][k := node] == c0[blk];
      assert c0[blk := c0[blk]] == c0;
      lm2 := lm;
      if Kid(node, 0).op == REG {
        if !IsLeaf(Kid(node, 1)) {
          if val in lm && (elmode == 1 || (elmode == 2 && Kid(node, 1).op != MEM)) {
            node := WithKid(node, 1, lm[val]);
            f.code := f.code[blk := f.code[blk][k := node]];
          }
          lm2 := lm[val := Kid(node, 0)];
        }
      } else {
        lm2 := lm[val := Kid(node, 1)];
      }
    }

    /**
     * Records number `val` of SET `node` in `blk`: a register destination,
     * and a constant source, become holders of it; a store records it for
     * the value expression of its address.
     */
    method RecordSet(node: Node, val: int, blk: nat)
      requires Valid() && blk < f.g.n && val != -1 && node.op == SET
      modifies this
      ensures Valid() && old(value) <= value && old(issued) <= issued
      ensures old(valueTable).Keys <= valueTable.Keys
      ensures SameAssumptions(old(samePhiMap), old(dependMap), old(dependListMap))
      ensures DestsNumbered(node)
      ensures IsRegSet(node) ==> ValueOfKey(Kid(node, 0)) == val && GetVariable(val, blk).Some?
      ensures IsRegSet(node) && IsConst(Kid(node, 1)) ==> ValueOfKey(Kid(node, 1)) == val && GetVariable(val, blk) == Some(Kid(node, 1))
    {
      if Kid(node, 0).op == REG {
        SetValueRecordBlkVal(val, Kid(node, 0), blk);
        if Kid(node, 1).op == INTCONST || Kid(node, 1).op == FLOATCONST {
          SetValueRecordBlkVal(val, Kid(node, 1), blk);
        }
      } else {
        var ve := MakeVExp(Kid(node, 0), blk);
        if ve.Some? {
          SetValue(val, ve.value);
        }
      }
    }

    /** Numbers the SET at position `k` of `blk` (see `LocalEliminate` and `RecordSet`). */
    method NumberSet(k: nat, blk: nat, optimistic: bool, elmode: int, lm: map<int, Node>) returns (lm2: map<int, Node>, val: int)
      requires Valid() && blk < f.g.n && k < |f.code[blk]| && f.code[blk][k].op == SET
      modifies this, f`code
      ensures Valid() && old(value) <= value && old(issued) <= issued
      ensures old(valueTable).Keys <= valueTable.Keys
      ensures SameAssumptions(old(samePhiMap), old(dependMap), old(dependListMap))
      ensures |f.code[blk]| == |old(f.code[blk])|
      ensures f.code == old(f.code)[blk := old(f.code[blk])[k := f.code[blk][k]]]
      ensures RhsReplaced(old(f.code[blk][k]), f.code[blk][k], elmode)
      ensures f.code[blk][k] != old(f.code[blk][k]) ==> !optimistic && Kid(f.code[blk][k], 1) in lm.Values
      ensures optimistic ==> lm2 == lm
      ensures forall v | v in lm2.Values && v !in lm.Values :: DefinesHolder(old(f.code[blk][k]), v)
      ensures DestsNumbered(old(f.code[blk][k]))
      ensures !optimistic ==> f.code[blk][k] == LocalRewrite(old(f.code[blk][k]), val, elmode, lm)
      ensures !optimistic ==> lm2 == HoldersAfter(old(f.code[blk][k]), val, lm)
      ensures IsRegSet(old(f.code[blk][k])) ==> ValueOfKey(Kid(old(f.code[blk][k]), 0)) == val
    {
      val := DetermineValue(f.code[blk][k], blk);
      lm2 := lm;
      ghost var c0 := f.code;
      assert c0[blk][k := c0[blk][k]] == c0[blk];
      assert c0[blk := c0[blk]] == c0;
      if !optimistic {
        lm2 := LocalEliminate(k, blk, val, elmode, lm);
      }
      RecordSet(f.code[blk][k], val, blk);
    }

    /** An instruction that numbering gives a number: a PHI, a SET, or a CALL with a result. */
    predicate Numbered(node: Node) {
      node.op == PHI || node.op == SET || (node.op == CALL && !IsLeaf(Kid(node, 2)))
    }

    /**
     * Numbers the instruction at position `k` of `blk`, with local table
     * `lm`; `val` is the number a SET was given (-1 for any other
     * instruction, which leaves the local table alone).
     */
    method NumberInstr(k: nat, blk: nat, optimistic: bool, elmode: int, lm: map<int, Node>) returns (lm2: map<int, Node>, val: int)
      requires Valid() && blk < f.g.n && k < |f.code[blk]|
      modifies this, f`code
      ensures Valid() && old(value) <= value && old(issued) <= issued
      ensures old(valueTable).Keys <= valueTable.Keys
      ensures |f.code[blk]| == |old(f.code[blk])|
      ensures f.code == old(f.code)[blk := old(f.code[blk])[k := f.code[blk][k]]]
      ensures RhsReplaced(old(f.code[blk][k]), f.code[blk][k], elmode)
      ensures f.code[blk][k] != old(f.code[blk][k]) ==> !optimistic && Kid(f.code[blk][k], 1) in lm.Values
      ensures forall v | v in lm2.Values && v !in lm.Values :: DefinesHolder(old(f.code[blk][k]), v)
      ensures DestsNumbered(old(f.code[blk][k]))
      ensures !optimistic ==> SameAssumptions(old(samePhiMap), old(dependMap), old(dependListMap))
      ensures old(samePhiMap).Keys <= samePhiMap.Keys
      ensures old(SelfAssumed()) ==> SelfAssumed()
      ensures optimistic && old(f.code[blk][k]).op == PHI ==> Kid(old(f.code[blk][k]), 0) in samePhiMap
      ensures !optimistic ==> f.code[blk][k] == LocalRewrite(old(f.code[blk][k]), val, elmode, lm)
      ensures !optimistic ==> lm2 == HoldersAfter(old(f.code[blk][k]), val, lm)
      ensures IsRegSet(old(f.code[blk][k])) ==> ValueOfKey(Kid(old(f.code[blk][k]), 0)) == val
    {
      var node := f.code[blk][k];
      lm2, val := lm, -1;
      ghost var c0 := f.code;
      assert c0[blk][k := node] == c0[blk];
      assert c0[blk := c0[blk]] == c0;
      if node.op == PROLOGUE {
        NumberPrologue(node, blk);
      }
      if Numbered(node) {
        if optimistic {
          CheckDependPhi(node, blk);
        }
        if node.op == PHI {
          NumberPhi(node, blk, optimistic);
        } else if node.op == CALL {
          var _ := DetermineValue(node, blk);
        } else {
          lm2, val := NumberSet(k, blk, optimistic, elmode, lm);
        }
      }
    }

    /**
     * Numbers the instructions of `blk` in order (see `NumberInstr`);
     * `nums` records the number each one was given.
     */
    method NumberInstrs(blk: nat, optimistic: bool, elmode: int) returns (ghost nums: seq<int>)
      requires Valid() && blk < f.g.n
      modifies this, f`code
      ensures Valid() && old(value) <= value && old(issued) <= issued
      ensures old(valueTable).Keys <= valueTable.Keys
      ensures f.code == old(f.code)[blk := f.code[blk]]
      ensures RewrittenPrefix(old(f.code[blk]), f.code[blk], |old(f.code[blk])|, elmode, optimistic)
      ensures optimistic ==> f.code == old(f.code)
      ensures forall k | 0 <= k < |old(f.code[blk])| :: DestsNumbered(old(f.code[blk][k]))
      ensures !optimistic ==> SameAssumptions(old(samePhiMap), old(dependMap), old(dependListMap))
      ensures old(samePhiMap).Keys <= samePhiMap.Keys
      ensures old(SelfAssumed()) ==> SelfAssumed()
      ensures optimistic ==> forall k | 0 <= k < |f.code[blk]| && f.code[blk][k].op == PHI :: Kid(f.code[blk][k], 0) in samePhiMap
      ensures !optimistic ==> LocallyEliminated(old(f.code[blk]), f.code[blk], nums, elmode)
    {
      ghost var orig := f.code[blk];
      nums := [];
      ghost var c0 := f.code;
      assert c0[blk := orig] == c0;
      var lm: map<int, Node> := map[];
      var k := 0;
      while k < |f.code[blk]|
        invariant Valid() == true && old(value) <= value && old(issued) <= issued
        invariant old(valueTable).Keys <= valueTable.Keys
        invariant NumberedUpTo(blk, orig, c0, k, lm, nums, optimistic, elmode) == true
        invariant !optimistic ==> SameAssumptions(old(samePhiMap), old(dependMap), old(dependListMap))
        invariant old(samePhiMap).Keys <= samePhiMap.Keys
        invariant old(SelfAssumed()) ==> SelfAssumed()
      {
        var val;
        lm, val := NumberNext(blk, k, optimistic, elmode, lm, nums, orig, c0);
        nums := nums + [val];
        k := k + 1;
      }
    }

    /**
     * The first `k` instructions of block `blk`, which held `orig` when
     * the code was `c0`, are numbered with numbers `nums`, and `lm` is the
     * local table they built (see `NumberedUpToIn`).
     */
    ghost predicate NumberedUpTo(blk: nat, orig: seq<Node>, c0: seq<seq<Node>>, k: nat, lm: map<int, Node>,
                                 nums: seq<int>, optimistic: bool, elmode: int)
      reads this, f
    {
      NumberedUpToIn(f.code, valueTable.Keys, samePhiMap.Keys, blk, orig, c0, k, lm, nums, optimistic, elmode)
    }

    /** One step of `NumberInstrs`: instruction `k` numbered (see `NumberInstr`). */
    method NumberNext(blk: nat, k: nat, optimistic: bool, elmode: int, lm: map<int, Node>,
                      ghost nums: seq<int>, ghost orig: seq<Node>, ghost c0: seq<seq<Node>>)
      returns (lm2: map<int, Node>, val: int)
      requires Valid() && blk < f.g.n && k < |orig|
      requires NumberedUpTo(blk, orig, c0, k, lm, nums, optimistic, elmode) == true
      modifies this, f`code
      ensures Valid() == true && NumberedUpTo(blk, orig, c0, k + 1, lm2, nums + [val], optimistic, elmode) == true
      ensures old(value) <= value && old(issued) <= issued && old(valueTable).Keys <= valueTable.Keys
      ensures !optimistic ==> SameAssumptions(old(samePhiMap), old(dependMap), old(dependListMap))
      ensures old(samePhiMap).Keys <= samePhiMap.Keys
      ensures old(SelfAssumed()) ==> SelfAssumed()
    {
      ghost var c1, keys1, phi1 := f.code, valueTable.Keys, samePhiMap.Keys;
      lm2, val := NumberInstr(k, blk, optimistic, elmode, lm);
      NumberedUpToStep(c1, keys1, phi1, f.code, valueTable.Keys, samePhiMap.Keys, blk, orig, c0, k, lm, lm2, nums, val, optimistic, elmode);
    }

    /**
     * Numbers the instructions of `blk` in order, after forgetting which
     * numbers reach it, then lets the numbers reaching its predecessors
     * reach it. Numbering pessimistically, a register SET whose compound
     * source has a number an earlier SET of the block defined may have its
     * source replaced by that earlier holder (see `LocalEliminate`);
     * numbering optimistically, the code is left alone, and dependences
     * and assumptions are recorded instead.
     */
    method Numbering(blk: nat, optimistic: bool, elmode: int) returns (ghost nums: seq<int>)
      requires Valid() && blk < f.g.n
      modifies this, f`code
      ensures Valid() && old(value) <= value && old(issued) <= issued
      ensures old(valueTable).Keys <= valueTable.Keys
      ensures f.code == old(f.code)[blk := f.code[blk]]
      ensures RewrittenPrefix(old(f.code[blk]), f.code[blk], |old(f.code[blk])|, elmode, optimistic)
      ensures RewrittenFrom(old(f.code), f.code, elmode)
      ensures optimistic ==> f.code == old(f.code)
      ensures BlockNumbered(f.code, blk, valueTable.Keys)
      ensures !optimistic ==> SameAssumptions(old(samePhiMap), old(dependMap), old(dependListMap))
      ensures old(samePhiMap).Keys <= samePhiMap.Keys
      ensures old(SelfAssumed()) ==> SelfAssumed()
      ensures optimistic ==> forall k | 0 <= k < |f.code[blk]| && f.code[blk][k].op == PHI :: Kid(f.code[blk][k], 0) in samePhiMap
      ensures forall j | 0 <= j < |f.g.preds[blk]| :: f.g.preds[blk][j] < f.g.n && reach[f.g.preds[blk][j]] <= reach[blk]
      ensures !optimistic ==> LocallyEliminated(old(f.code[blk]), f.code[blk], nums, elmode)
    {
      DeleteReachableValues(blk);
      nums := NumberInstrs(blk, optimistic, elmode);
      RecordReachableValues(blk);
      BlockRewritten(old(f.code), f.code, blk, elmode, optimistic);
      BlockNumberedKept(old(f.code), f.code, blk, valueTable.Keys, valueTable.Keys, elmode);
    }

    /**
     * Numbers the dominator subtree of `blk` optimistically (whatever
     * `optimistic` says, which is only handed down): `blk` first, then
     * each child, which is first numbered and rechecked on its own when
     * it qualifies for optimistic numbering. The code is not changed.
     */
    method TraverseDomTree(blk: nat, optimistic: bool, elmode: int)
      requires Valid() && blk < f.g.n
      modifies this, f`code
      ensures f.code == old(f.code)
      ensures Valid() && old(value) <= value && old(issued) <= issued
      ensures old(valueTable).Keys <= valueTable.Keys
      ensures old(SelfAssumed()) ==> SelfAssumed()
      ensures BlockNumbered(f.code, blk, valueTable.Keys)
      decreases f.g.n - f.g.domDepth[blk], 0
    {
      ghost var _ := Numbering(blk, true, elmode);
      ghost var t0 := valueTable;
      var kids := f.g.domKids[blk];
      IdsBelowAt(f.g.domKids, f.g.n, blk);
      var i := 0;
      while i < |kids|
        invariant 0 <= i <= |kids|
        invariant Valid() && old(value) <= value && old(issued) <= issued
        invariant old(valueTable).Keys <= t0.Keys <= valueTable.Keys
        invariant old(SelfAssumed()) ==> SelfAssumed()
        invariant f.code == old(f.code)
      {
        assert kids[i] in f.g.domKids[blk];
        TraverseKid(kids[i], optimistic, elmode);
        i := i + 1;
      }
    }

    /** One child `kid` of the walk of `TraverseDomTree`. */
    method TraverseKid(kid: nat, optimistic: bool, elmode: int)
      requires Valid() && kid < f.g.n
      modifies this, f`code
      ensures f.code == old(f.code)
      ensures Valid() && old(value) <= value && old(issued) <= issued
      ensures old(valueTable).Keys <= valueTable.Keys
      ensures old(SelfAssumed()) ==> SelfAssumed()
      decreases f.g.n - f.g.domDepth[kid], 1
    {
      var loopHeader := CheckPhiArg(kid);
      if loopHeader {
        TraverseDomTree(kid, true, elmode);
        CheckPhiVal(kid);
      }
      TraverseDomTree(kid, optimistic, elmode);
    }

    // -------------------------------------------------------------------
    // Driver
    // -------------------------------------------------------------------

    /** Empties every table and restarts the numbers, as each numbering run starts. */
    method Reset()
      requires f.Valid()
      modifies this
      ensures Valid() && SelfAssumed() && value == 0
      ensures valueTable == map[] && constValTable == map[] && samePhiMap == map[] && dependMap == map[] && dependListMap == map[]
      ensures forall b | 0 <= b < f.g.n :: blkVars[b] == map[] && reach[b] == {}
    {
      value := 0;
      issued := {};
      valueTable := map[];
      constValTable := map[];
      blkVars := seq(f.g.n, _ => map[]);
      reach := seq(f.g.n, _ => {});
      samePhiMap := map[];
      dependMap := map[];
      dependListMap := map[];
    }

    /**
     * One block of the reverse-postorder walk of `Run`: when `b`
     * qualifies for optimistic numbering its dominator subtree is numbered
     * optimistically and rechecked; then `b` is numbered pessimistically.
     */
    method VisitBlock(b: nat, elmode: int) returns (ghost nums: seq<int>)
      requires Valid() && b < f.g.n
      modifies this, f`code
      ensures Valid() && old(valueTable).Keys <= valueTable.Keys
      ensures RewrittenFrom(old(f.code), f.code, elmode)
      ensures f.code == old(f.code)[b := f.code[b]] && LocallyEliminated(old(f.code[b]), f.code[b], nums, elmode)
      ensures old(SelfAssumed()) ==> SelfAssumed()
      ensures BlockNumbered(f.code, b, valueTable.Keys)
    {
      var loopHeader := CheckPhiArg(b);
      if loopHeader {
        Optimistic(b, elmode);
      }
      nums := Numbering(b, false, elmode);
    }

    /** The optimistic round of `VisitBlock`: the dominator subtree of `b` numbered optimistically, then rechecked. */
    method Optimistic(b: nat, elmode: int)
      requires Valid() && b < f.g.n
      modifies this, f`code
      ensures Valid() && f.code == old(f.code) && old(valueTable).Keys <= valueTable.Keys
      ensures old(SelfAssumed()) ==> SelfAssumed()
    {
      TraverseDomTree(b, true, elmode);
      CheckPhiVal(b);
    }

    /**
     * Global value numbering in elimination mode `elmode` (1: every
     * redundant expression, 2: all but loads, 3: none): starts from empty
     * tables, versions the memory references of the code, and then visits
     * the blocks in reverse postorder (see `VisitBlock`). Returns the
     * memory versioner; `versioned` is the code right after versioning.
     */
    method Run(elmode: int) returns (alias: MemoryVersioner, ghost versioned: seq<seq<Node>>, ghost nums: map<nat, seq<int>>)
      requires Valid() && f.g.RpoOnce() && f.g.DomKidsOnce()
      modifies this, f
      ensures Valid() && fresh(alias) && alias.Valid() && alias.f == f
      ensures SameShape(old(f.code), versioned) && RewrittenFrom(versioned, f.code, elmode)
      ensures |f.code| == |versioned|
      ensures forall b | 0 <= b < |versioned| ::
        if b in f.g.rpo then b in nums && LocallyEliminated(versioned[b], f.code[b], nums[b], elmode)
        else f.code[b] == versioned[b]
      ensures forall j | 0 <= j < |f.g.rpo| :: BlockNumbered(f.code, f.g.rpo[j], valueTable.Keys)
      ensures SelfAssumed()
    {
      Reset();
      alias := new MemoryVersioner(f);
      versioned := f.code;
      nums := map[];
      var order := f.g.rpo;
      var i := 0;
      while i < |order|
        invariant 0 <= i <= |order| && order == f.g.rpo && f.g.RpoOnce()
        invariant Valid() && alias.Valid() && alias.f == f
        invariant RewrittenFrom(versioned, f.code, elmode)
        invariant SelfAssumed()
        invariant forall j | 0 <= j < i :: BlockNumbered(f.code, order[j], valueTable.Keys)
        invariant |f.code| == |versioned|
        invariant forall b | 0 <= b < |versioned| ::
          if b in order[..i] then b in nums && LocallyEliminated(versioned[b], f.code[b], nums[b], elmode)
          else f.code[b] == versioned[b]
      {
        assert order[i] in f.g.rpo;
        ghost var c0 := f.code;
        ghost var t0 := valueTable.Keys;
        assert order[..i + 1] == order[..i] + [order[i]];
        assert order[i] !in order[..i];
        ghost var bn := VisitBlock(order[i], elmode);
        nums := nums[order[i] := bn];
        RewrittenFromTrans(versioned, c0, f.code, elmode);
        forall j | 0 <= j < i
          ensures BlockNumbered(f.code, order[j], valueTable.Keys)
        {
          BlockNumberedKept(c0, f.code, order[j], t0, valueTable.Keys, elmode);
        }
        i := i + 1;
      }
    }

    /**
     * The pass as run on its own: numbering with every redundant
     * expression eliminated, then the memory versions removed again.
     * `numbered` is the code as numbering left it.
     */
    method DoIt() returns (ghost versioned: seq<seq<Node>>, ghost numbered: seq<seq<Node>>, ghost nums: map<nat, seq<int>>)
      requires Valid() && f.g.RpoOnce() && f.g.DomKidsOnce()
      modifies this, f
      ensures Valid()
      ensures SameShape(old(f.code), versioned) && RewrittenFrom(versioned, numbered, 1)
      ensures |numbered| == |versioned| && forall b | 0 <= b < |versioned| ::
        if b in f.g.rpo then b in nums && LocallyEliminated(versioned[b], numbered[b], nums[b], 1)
        else numbered[b] == versioned[b]
      ensures f.code == Unstamp(numbered)
    {
      var alias;
      alias, versioned, nums := Run(1);
      numbered := f.code;
      alias.Annul();
    }
  }
}
