/** The first section of `print_archs`: workers of the same combination of architectures are counted together. */
module WorkerCounts {

  /** Consecutive workers on one combination. */
  datatype Block = Block(comb: nat, workers: nat)

  function Repeat(comb: nat, n: nat): (cs: seq<nat>)
    ensures |cs| == n && forall i :: 0 <= i < n ==> cs[i] == comb
  {
    seq(n, i => comb)
  }

  /** The combinations of the workers that the blocks stand for. */
  function Expand(blocks: seq<Block>): (cs: seq<nat>) {
    if blocks == [] then []
    else
      var last := blocks[|blocks| - 1];
      Expand(blocks[..|blocks| - 1]) + Repeat(last.comb, last.workers)
  }

  /** The workers that some performance model knows. */
  function Present(combs: seq<int>): (cs: seq<nat>) {
    if combs == [] then []
    else
      var last := combs[|combs| - 1];
      Present(combs[..|combs| - 1]) + (if last < 0 then [] else [last])
  }

  lemma PresentNext(combs: seq<int>, n: nat)
    requires n < |combs|
    ensures Present(combs[..n + 1]) == Present(combs[..n]) + if combs[n] < 0 then [] else [combs[n]]
  {
    assert combs[..n + 1][..n] == combs[..n];
  }

  /** The known workers among the first n. */
  ghost function Known(combs: seq<int>, n: nat): (s: set<nat>)
    requires n <= |combs|
  {
    set w: nat | w < n && combs[w] >= 0
  }

  lemma KnownNext(combs: seq<int>, n: nat)
    requires n < |combs|
    ensures |Known(combs, n + 1)| == |Known(combs, n)| + if combs[n] < 0 then 0 else 1
  {
    assert Known(combs, n + 1) == Known(combs, n) + if combs[n] < 0 then {} else {n};
  }

  lemma {:induction false} PresentSize(combs: seq<int>, n: nat)
    requires n <= |combs|
    ensures |Present(combs[..n])| == |Known(combs, n)|
  {
    if n != 0 {
      PresentSize(combs, n - 1);
      PresentNext(combs, n - 1);
      KnownNext(combs, n - 1);
    }
  }

  lemma {:induction false} PresentGrows(combs: seq<int>, k: nat, n: nat)
    requires k <= n <= |combs|
    ensures Present(combs[..k]) <= Present(combs[..n])
    decreases n
  {
    if k < n {
      PresentGrows(combs, k, n - 1);
      PresentNext(combs, n - 1);
    }
  }

  /** Each of them, once and in order: worker w stands behind as many as there are known workers below it. */
  lemma PresentIsKnown(combs: seq<int>, w: nat)
    requires w < |combs|
    ensures |Present(combs)| == |Known(combs, |combs|)|
    ensures combs[w] >= 0 ==> |Known(combs, w)| < |Present(combs)| && Present(combs)[|Known(combs, w)|] == combs[w]
  {
    assert combs[..|combs|] == combs;
    PresentSize(combs, |combs|);
    PresentSize(combs, w);
    PresentNext(combs, w);
    PresentGrows(combs, w + 1, |combs|);
  }

  /** No block is empty, and no two neighbours could be merged. */
  ghost predicate Maximal(blocks: seq<Block>) {
    && (forall i {:trigger blocks[i]} :: 0 <= i < |blocks| ==> blocks[i].workers > 0)
    && (forall i {:trigger blocks[i]} :: 0 < i < |blocks| ==> blocks[i - 1].comb != blocks[i].comb)
  }

  /** The blocks of a sequence of workers, one worker after the other. */
  function BlocksOf(combs: seq<int>): (blocks: seq<Block>)
    ensures Maximal(blocks) && Expand(blocks) == Present(combs)
  {
    if combs == [] then []
    else
      var before, comb := BlocksOf(combs[..|combs| - 1]), combs[|combs| - 1];
      if comb < 0 then before
      else if before != [] && before[|before| - 1].comb == comb then
        var (first, last) := (before[..|before| - 1], before[|before| - 1]);
        assert before == first + [Block(last.comb, last.workers)];
        Lengthen(first, comb, last.workers);
        first + [Block(comb, last.workers + 1)]
      else
        assert (before + [Block(comb, 1)])[..|before|] == before;
        before + [Block(comb, 1)]
  }

  /** The loop state: the blocks already printed, and the one being counted. */
  ghost predicate Counted(blocks: seq<Block>, oldComb: int, workers: nat, cs: seq<nat>) {
    if workers == 0 then oldComb == -1 && blocks == [] && cs == []
    else
      && oldComb >= 0 && Maximal(blocks + [Block(oldComb, workers)])
      && Expand(blocks + [Block(oldComb, workers)]) == cs
  }

  method CountWorkers(combs: seq<int>) returns (blocks: seq<Block>)
    ensures Maximal(blocks) && Expand(blocks) == Present(combs)
    ensures blocks == BlocksOf(combs)
  {
    var workers: nat, oldComb := 0, -1;
    blocks := [];
    for id := 0 to |combs|
      invariant Counted(blocks, oldComb, workers, Present(combs[..id]))
    {
      var comb := combs[id];
      PresentNext(combs, id);
      if comb >= 0 {
        if comb != oldComb {
          NewBlock(blocks, oldComb, workers, Present(combs[..id]), comb);
          if workers > 0 {
            blocks := blocks + [Block(oldComb, workers)];
          }
          oldComb, workers := comb, 1;
        } else {
          SameBlock(blocks, oldComb, workers, Present(combs[..id]));
          workers := workers + 1;
        }
      }
    }
    assert combs[..|combs|] == combs;
    AllCounted(blocks, oldComb, workers, combs);
    if workers > 0 {
      blocks := blocks + [Block(oldComb, workers)];
    }
  }

  lemma AllCounted(blocks: seq<Block>, oldComb: int, workers: nat, combs: seq<int>)
    requires Counted(blocks, oldComb, workers, Present(combs))
    ensures BlocksOf(combs) == if workers > 0 then blocks + [Block(oldComb, workers)] else blocks
  {
    var all := if workers > 0 then blocks + [Block(oldComb, workers)] else blocks;
    assert workers == 0 ==> Expand(blocks) == [];
    BlocksUnique(all, BlocksOf(combs));
  }

  lemma SameBlock(blocks: seq<Block>, oldComb: int, workers: nat, cs: seq<nat>)
    requires Counted(blocks, oldComb, workers, cs) && oldComb >= 0
    ensures Counted(blocks, oldComb, workers + 1, cs + [oldComb])
  {
    Lengthen(blocks, oldComb, workers);
  }

  lemma NewBlock(blocks: seq<Block>, oldComb: int, workers: nat, cs: seq<nat>, comb: nat)
    requires Counted(blocks, oldComb, workers, cs) && comb != oldComb
    ensures var blocks' := if workers > 0 then blocks + [Block(oldComb, workers)] else blocks;
      Counted(blocks', comb, 1, cs + [comb])
  {
    var blocks' := if workers > 0 then blocks + [Block(oldComb, workers)] else blocks;
    var all := blocks' + [Block(comb, 1)];
    assert all[..|blocks'|] == blocks';
    assert Repeat(comb, 1) == [comb];
  }

  lemma ExpandLast(blocks: seq<Block>, block: Block)
    ensures Expand(blocks + [block]) == Expand(blocks) + Repeat(block.comb, block.workers)
  {
    assert (blocks + [block])[..|blocks|] == blocks;
  }

  lemma Lengthen(blocks: seq<Block>, comb: nat, n: nat)
    requires Maximal(blocks + [Block(comb, n)])
    ensures Maximal(blocks + [Block(comb, n + 1)])
    ensures Expand(blocks + [Block(comb, n + 1)]) == Expand(blocks + [Block(comb, n)]) + [comb]
  {
    StillMaximal(blocks, comb, n);
    ExpandLonger(blocks, comb, n);
  }

  lemma ExpandLonger(blocks: seq<Block>, comb: nat, n: nat)
    ensures Expand(blocks + [Block(comb, n + 1)]) == Expand(blocks + [Block(comb, n)]) + [comb]
  {
    ExpandLast(blocks, Block(comb, n));
    ExpandLast(blocks, Block(comb, n + 1));
    RepeatMore(Expand(blocks), comb, n);
  }

  lemma RepeatMore(before: seq<nat>, comb: nat, n: nat)
    ensures before + Repeat(comb, n + 1) == (before + Repeat(comb, n)) + [comb]
  {
  }

  lemma StillMaximal(blocks: seq<Block>, comb: nat, n: nat)
    requires Maximal(blocks + [Block(comb, n)])
    ensures Maximal(blocks + [Block(comb, n + 1)])
  {
    var shorter, longer := blocks + [Block(comb, n)], blocks + [Block(comb, n + 1)];
    assert forall i {:trigger longer[i]} :: 0 <= i < |longer| ==>
      longer[i].comb == shorter[i].comb && shorter[i].workers > 0;
  }

  /** The last block is at most as long as that of any other block list with the same expansion. */
  lemma LastBlock(a: seq<Block>, b: seq<Block>)
    requires Maximal(a) && Maximal(b) && Expand(a) == Expand(b) && a != []
    ensures b != [] && a[|a| - 1].comb == b[|b| - 1].comb && a[|a| - 1].workers >= b[|b| - 1].workers
  {
    var n, m, all := |a| - 1, |b| - 1, Expand(a);
    assert all[|all| - 1] == a[n].comb;
    assert forall i :: |all| - b[m].workers <= i < |all| ==> all[i] == b[m].comb;
    if n > 0 {
      var before := Expand(a[..n]);
      assert before[|before| - 1] == a[n - 1].comb && a[n].comb != a[n - 1].comb;
      assert all[|all| - a[n].workers - 1] == a[n - 1].comb;
    }
  }

  /** The counts are the only ones: block lists without mergeable neighbours that stand for the same workers are equal. */
  lemma {:induction false} BlocksUnique(a: seq<Block>, b: seq<Block>)
    requires Maximal(a) && Maximal(b) && Expand(a) == Expand(b)
    ensures a == b
  {
    if a == [] {
      if b != [] {
        LastBlock(b, a);
      }
    } else {
      LastBlock(a, b);
      LastBlock(b, a);
      var n, m := |a| - 1, |b| - 1;
      var tail := Repeat(a[n].comb, a[n].workers);
      var all := Expand(a);
      assert Expand(a[..n]) == all[..|all| - |tail|] == Expand(b[..m]);
      BlocksUnique(a[..n], b[..m]);
      assert a == a[..n] + [a[n]] && b == b[..m] + [b[m]];
    }
  }
}
