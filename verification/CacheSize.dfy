/** How many nodes the layer caches hold, and how many of them in memory. */
module CacheSize {
  import opened MerkleTree
  import opened Labels
  import opened IncrementalTree
  import opened ProofOfWork
  import opened CrashRuns

  function Popcount(n: nat): nat {
    if n == 0 then 0 else n % 2 + Popcount(n / 2)
  }

  /** The nodes of all layers of a tree with n leaves. */
  function TotalNodes(n: nat): nat {
    if n == 0 then 0 else n + TotalNodes(n / 2)
  }

  lemma {:induction false} TotalIsTwiceMinusPopcount(n: nat)
    ensures TotalNodes(n) == 2 * n - Popcount(n)
  {
    if n > 0 {
      TotalIsTwiceMinusPopcount(n / 2);
    }
  }

  /** The nodes in the cached layers from lo on, below hi. */
  function CachedNodes<T>(cache: map<nat, seq<T>>, lo: nat, hi: nat): nat
    decreases hi - lo
  {
    if lo >= hi then 0 else (if lo in cache then |cache[lo]| else 0) + CachedNodes(cache, lo + 1, hi)
  }

  lemma {:induction false} CachedNodesAre(hf: Hashes, l: Live, lo: nat)
    requires LiveTrue(hf, l) && l.all && lo <= |l.parked|
    ensures CachedNodes(l.cache, lo, |l.parked|) == TotalNodes(Shr(l.n, lo))
    decreases |l.parked| - lo
  {
    hide Parked, Leaves, Layer, Shr;
    if lo < |l.parked| {
      CacheInDag(hf, l, lo);
      CachedNodesAre(hf, l, lo + 1);
      ShrHalf(l.n, lo + 1);
    } else {
      ParkedAt(hf.Tree(), Leaves(hf, l.n), lo);
    }
  }

  /** After n leaves of an uninterrupted run, all layers together hold 2 n - popcount(n) nodes. */
  lemma AllLayersHold(hf: Hashes, disk: nat, n: nat)
    requires disk > 0
    ensures var l := Uninterrupted(hf, disk, n); CachedNodes(l.cache, 0, |l.parked|) == 2 * n - Popcount(n)
  {
    UninterruptedIsTrue(hf, disk, n);
    CachedNodesAre(hf, Uninterrupted(hf, disk, n), 0);
    TotalIsTwiceMinusPopcount(n);
  }

  // ---------------------------------------------------------------------------------------------
  // The share of it that is kept in memory.

  /** The lowest layer kept in memory, so that memoryLayers layers of a tree of the estimated size are above it. */
  function MinMemoryLayer(roundSeconds: nat, leavesPerSecond: nat, memoryLayers: nat): nat {
    var totalLayers := Height(roundSeconds * leavesPerSecond);
    if totalLayers > memoryLayers then totalLayers - memoryLayers else 0
  }

  /** Of a tree of the estimated size, exactly memoryLayers layers and the root above them are in memory, or all if
      there are not that many. */
  lemma LayersInMemory(roundSeconds: nat, leavesPerSecond: nat, memoryLayers: nat, h: nat)
    requires h <= Height(roundSeconds * leavesPerSecond)
    ensures h >= MinMemoryLayer(roundSeconds, leavesPerSecond, memoryLayers)
            <==> Height(roundSeconds * leavesPerSecond) - h <= memoryLayers
  {
  }

  lemma {:induction false} ShrBelow(n: nat, r: nat, k: nat)
    requires n <= Shl(1, r) && k <= r
    ensures Shr(n, k) <= Shl(1, r - k)
    decreases k
  {
    if k > 0 {
      ShlDoubles(1, r - 1);
      ShrBelow(n / 2, r - 1, k - 1);
    }
  }

  lemma {:induction false} TotalBelow(n: nat, b: nat)
    requires n <= b && b > 0
    ensures TotalNodes(n) <= 2 * b - 1
    decreases n
  {
    TotalIsTwiceMinusPopcount(n);
    if n == b {
      PopcountPositive(n);
    }
  }

  lemma {:induction false} PopcountPositive(n: nat)
    requires n > 0
    ensures Popcount(n) >= 1
  {
    if n % 2 == 0 {
      PopcountPositive(n / 2);
    }
  }

  lemma HeightOfFewer(n: nat, estimate: nat)
    requires n <= estimate
    ensures n <= Shl(1, Height(estimate))
  {
    HeightSuffices(estimate);
  }

  /** In an uninterrupted run of no more leaves than estimated, the layers kept in memory hold at most
      2^(memoryLayers + 1) - 1 nodes. */
  lemma MemoryIsBounded(hf: Hashes, roundSeconds: nat, leavesPerSecond: nat, memoryLayers: nat, n: nat)
    requires n <= roundSeconds * leavesPerSecond
    ensures var lowest := MinMemoryLayer(roundSeconds, leavesPerSecond, memoryLayers);
            var disk := DiskLayers(lowest);
            var l := Uninterrupted(hf, disk, n);
            CachedNodes(l.cache, disk, |l.parked|) <= Shl(1, memoryLayers + 1) - 1
  {
    hide Uninterrupted, LiveTrue, Shr, Shl, TotalNodes;
    var lowest := MinMemoryLayer(roundSeconds, leavesPerSecond, memoryLayers);
    var disk := DiskLayers(lowest);
    var l := Uninterrupted(hf, disk, n);
    var total := Height(roundSeconds * leavesPerSecond);
    HeightOfFewer(n, roundSeconds * leavesPerSecond);
    ShlGrows(memoryLayers, memoryLayers);
    ShlDoubles(1, memoryLayers);
    ShlStep(memoryLayers);
    if disk <= |l.parked| {
      UninterruptedIsTrue(hf, disk, n);
      CachedNodesAre(hf, l, disk);
      if disk <= total {
        ShrBelow(n, total, disk);
        ShlGrows(total - disk, memoryLayers);
        TotalBelow(Shr(n, disk), Shl(1, memoryLayers));
      } else {
        // the tree has one layer only
        assert total == 0 && disk == 1;
        OneLeafHasNoParent(n);
      }
    }
  }

  lemma ShlStep(r: nat)
    ensures Shl(1, r + 1) == Shl(2, r)
  {
  }

  lemma OneLeafHasNoParent(n: nat)
    requires n <= Shl(1, 0)
    ensures Shr(n, 1) == 0 && TotalNodes(Shr(n, 1)) == 0
  {
  }
}
