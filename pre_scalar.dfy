// The scalar-only driver of exhaustive PRE: local motion over every block,
// then global motion block by block, leaving loads alone and forgetting the
// handled sources at every new block.
module ExhaustivePreScalar {
  import opened Lir
  import opened Cfg
  import opened ExhaustivePre

  class PreScalar {
    const f: Function
    const pre: Pre

    ghost predicate Valid()
      reads this, pre, f
    {
      pre.f == f && pre.Valid()
    }

    /** `new PRE(env, sstab, f)` followed by `init`; fresh temporaries are numbered from `firstSym` on. */
    constructor (f: Function, firstSym: int)
      requires f.Valid()
      ensures Valid() && this.f == f && fresh(pre) && pre.nextSym == firstSym
    {
      this.f := f;
      pre := new Pre(f, firstSym);
    }

    /** `localCM`: local motion over the blocks in reverse postorder, loads skipped. */
    method LocalCM()
      requires Valid()
      modifies f
      ensures Valid() && f.code == LocalAll(old(f.code), f.g.rpo, |f.g.rpo|, true)
    {
      var i := 0;
      while i < |f.g.rpo|
        invariant Valid() && 0 <= i <= |f.g.rpo|
        invariant f.code == LocalAll(old(f.code), f.g.rpo, i, true)
      {
        assert f.g.rpo[i] in f.g.rpo;
        pre.LocalBlock(f.g.rpo[i], true);
        i := i + 1;
      }
    }

    /**
     * `globalCM`: global motion over the blocks in reverse postorder, loads
     * skipped; the list of handled sources is reset for every block, so a
     * source is handled at most once per block.
     */
    method GlobalCM()
      requires Valid()
      modifies pre, f
      ensures Valid() && old(pre.nextSym) <= pre.nextSym
    {
      var i := 0;
      while i < |f.g.rpo|
        invariant Valid() && 0 <= i <= |f.g.rpo| && old(pre.nextSym) <= pre.nextSym
      {
        assert f.g.rpo[i] in f.g.rpo;
        var seen := pre.GlobalBlock(f.g.rpo[i], [], true);
        i := i + 1;
      }
    }

    /** `invoke`: local motion over all blocks before any global motion. */
    method Invoke()
      requires Valid()
      modifies pre, f
      ensures Valid() && old(pre.nextSym) <= pre.nextSym
    {
      LocalCM();
      GlobalCM();
    }
  }
}
