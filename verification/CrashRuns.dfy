/** Executions of a round that are checkpointed, crash at any moment and are recovered any number of times. */
module CrashRuns {
  import opened MerkleTree
  import opened Labels
  import opened IncrementalTree
  import opened PartialProof
  import opened ProofOfWork
  import opened Recovery
  import FiatShamir

  /** A tree at work: n leaves so far. Layers below disk are kept in files, the others in memory; all tells whether
      layers that appear get cached; flushed, whether the files have been flushed since the last leaf. */
  datatype Live = Live(n: nat, parked: seq<Option<Node>>, cache: Files<Node>, all: bool, disk: nat, flushed: bool)

  /** What is durable, and what is in memory: the layer files, the leaf count last saved, the tree if one is at work. */
  datatype Exec = Exec(files: Files<Node>, checkpoint: nat, live: Option<Live>)

  function Min(a: nat, b: nat): nat {
    if a < b then a else b
  }

  const NEW: Exec := Exec(map[], 0, None)

  /** The number of layers of a new tree that are kept in files. */
  function DiskLayers(minMemoryLayer: nat): nat {
    if minMemoryLayer < 1 then 1 else minMemoryLayer
  }

  function FreshTree(disk: nat): Live {
    Live(0, [None], map[0 := []], true, disk, false)
  }

  function AddLeaf(hf: Hashes, l: Live): Live {
    var leaf := hf.leafLabel(l.n, NonEmpty(l.parked));
    Live(l.n + 1, Carry(hf.Tree(), l.parked, leaf), CacheAfter(hf.Tree(), l.cache, l.all, l.parked, leaf, 0),
         l.all, l.disk, false)
  }

  /** The files that a tree may leave behind: of every layer kept in a file, a part of what has been written, and no
      less than was durable before. */
  ghost predicate Durable(before: Files<Node>, l: Live, files: Files<Node>) {
    && (forall h: nat :: h in files <==> h in l.cache && h < l.disk)
    && (forall h | h in files :: files[h] <= l.cache[h] && (h in before ==> before[h] <= files[h]))
  }

  ghost predicate Flushed(l: Live, files: Files<Node>) {
    && (forall h: nat :: h in files <==> h in l.cache && h < l.disk)
    && (forall h | h in files :: files[h] == l.cache[h])
  }

  // ---------------------------------------------------------------------------------------------
  // The steps.

  /** A new tree needs an empty directory. */
  ghost predicate Start(minMemoryLayer: nat, e: Exec, e': Exec) {
    && e.live.None? && e.files == map[]
    && e' == e.(files := map[0 := []], live := Some(FreshTree(DiskLayers(minMemoryLayer))))
  }

  ghost predicate Leaf(hf: Hashes, e: Exec, e': Exec) {
    && e.live.Some?
    && var l' := AddLeaf(hf, e.live.value);
       Durable(e.files, l', e'.files) && e' == e.(files := e'.files, live := Some(l'))
  }

  /** Persisting first flushes the layers … */
  ghost predicate Flush(e: Exec, e': Exec) {
    && e.live.Some? && Flushed(e.live.value, e'.files)
    && e' == e.(files := e'.files, live := Some(e.live.value.(flushed := true)))
  }

  /** … and then saves the leaf count. */
  ghost predicate Save(e: Exec, e': Exec) {
    && e.live.Some? && e.live.value.flushed
    && e' == e.(checkpoint := e.live.value.n)
  }

  ghost predicate Crash(e: Exec, e': Exec) {
    && e.live.Some? && Durable(e.files, e.live.value, e'.files)
    && e' == e.(files := e'.files, live := None)
  }

  ghost predicate Recover(hf: Hashes, e: Exec, e': Exec) {
    && e.live.None? && 0 in e.files
    && var d, width := |e.files|, Widths(e.checkpoint);
       && d - 1 in e.files && LongEnough(e.files, width) && Shr(e.checkpoint, d - 1) > 0
       && var files := Truncated(e.files, width);
          var r := Rebuilt(hf.Tree(), files, d);
          e' == e.(files := files, live := Some(Live(e.checkpoint, r.parked, r.cache, false, d, false)))
  }

  /** A recovery that gives up may have cut some of the files. */
  ghost predicate FailedRecovery(e: Exec, e': Exec) {
    && e.live.None? && SomeCut(e.files, e'.files, Widths(e.checkpoint))
    && e' == e.(files := e'.files)
  }

  ghost predicate Next(hf: Hashes, minMemoryLayer: nat, e: Exec, e': Exec) {
    || Start(minMemoryLayer, e, e')
    || Leaf(hf, e, e')
    || Flush(e, e')
    || Save(e, e')
    || Crash(e, e')
    || Recover(hf, e, e')
    || FailedRecovery(e, e')
  }

  /** The number of memory layers may change from one execution to the next. */
  ghost predicate Step(hf: Hashes, e: Exec, e': Exec) {
    exists minMemoryLayer: nat :: Next(hf, minMemoryLayer, e, e')
  }

  /** A run from a new round on. */
  ghost predicate IsRun(hf: Hashes, run: seq<Exec>) {
    && run != []
    && if |run| == 1 then run[0] == NEW
       else IsRun(hf, run[..|run| - 1]) && Step(hf, run[|run| - 2], run[|run| - 1])
  }

  // ---------------------------------------------------------------------------------------------
  // What every step keeps.

  /** The files hold labels of the DAG, at least as many as the saved leaf count needs. */
  ghost predicate FilesTrue(hf: Hashes, files: Files<Node>, width: nat -> nat) {
    forall h | h in files :: IsLayerOf(Dag(hf), files[h], h) && |files[h]| >= width(h)
  }

  ghost predicate LiveTrue(hf: Hashes, l: Live) {
    && l.parked == Parked(hf.Tree(), Leaves(hf, l.n))
    && CacheHolds(hf.Tree(), l.cache, Leaves(hf, l.n))
    && (forall h | h in l.cache :: h < |l.parked|)
    && (forall h: nat | h < |l.parked| && (l.all || h < l.disk) :: h in l.cache)
    && l.disk > 0 && (l.all || l.disk <= |l.parked|)
  }

  ghost predicate Inv(hf: Hashes, e: Exec) {
    && FilesTrue(hf, e.files, Widths(e.checkpoint))
    && match e.live
       case None => if e.files == map[] then e.checkpoint == 0 else Contiguous(e.files, |e.files|)
       case Some(l) =>
         && LiveTrue(hf, l) && e.checkpoint <= l.n && Durable(map[], l, e.files)
         && (l.flushed ==> Flushed(l, e.files))
  }

  lemma CacheInDag(hf: Hashes, l: Live, h: nat)
    requires LiveTrue(hf, l) && h in l.cache
    ensures IsLayerOf(Dag(hf), l.cache[h], h) && |l.cache[h]| == Shr(l.n, h)
  {
    DagExists(hf);
    assert l.cache[h] == Layers(hf.Tree(), Leaves(hf, l.n))(h);
    WorkRefinesDag(hf, Dag(hf), l.n, h);
    LayerWidth(hf.Tree(), Leaves(hf, l.n), h);
  }

  /** Whatever a tree leaves behind holds labels of the DAG; and if it extends true files, enough of them. */
  lemma DurableIsTrue(hf: Hashes, before: Files<Node>, l: Live, files: Files<Node>, checkpoint: nat)
    requires LiveTrue(hf, l) && checkpoint <= l.n && Durable(before, l, files)
    requires FilesTrue(hf, before, Widths(checkpoint))
    requires forall h | h in files && h !in before :: Widths(checkpoint)(h) == 0
    ensures FilesTrue(hf, files, Widths(checkpoint))
  {
    forall h | h in files
      ensures IsLayerOf(Dag(hf), files[h], h) && |files[h]| >= Widths(checkpoint)(h)
    {
      CacheInDag(hf, l, h);
    }
  }

  lemma FlushedIsTrue(hf: Hashes, l: Live, files: Files<Node>, checkpoint: nat)
    requires LiveTrue(hf, l) && checkpoint <= l.n && Flushed(l, files)
    ensures FilesTrue(hf, files, Widths(checkpoint))
  {
    forall h | h in files
      ensures IsLayerOf(Dag(hf), files[h], h) && |files[h]| >= Widths(checkpoint)(h)
    {
      CacheInDag(hf, l, h);
      ShrMonotone(checkpoint, l.n, h);
    }
  }

  lemma LeafIsTrue(hf: Hashes, l: Live)
    requires LiveTrue(hf, l)
    ensures LiveTrue(hf, AddLeaf(hf, l))
    ensures forall h: nat | h in AddLeaf(hf, l).cache && h !in l.cache :: h == |l.parked|
  {
    hide Parked, Leaves, NonEmpty, Carry, CacheAfter, Layer;
    var m, s := hf.Tree(), Leaves(hf, l.n);
    var leaf := hf.leafLabel(l.n, NonEmpty(l.parked));
    assert Leaves(hf, l.n + 1) == s + [leaf] by {
      LeavesStep(hf, l.n);
    }
    AddLeafKeeps(m, l.cache, l.all, s, leaf);
    CacheAfterKeys(m, l.cache, l.all, l.parked, leaf, 0);
    CarryGrowsByOne(m, l.parked, leaf);
    var cache' := CacheAfter(m, l.cache, l.all, l.parked, leaf, 0);
    assert forall h: nat :: h in cache' <==> h in cache'.Keys;
  }

  lemma LeavesStep(hf: Hashes, n: nat)
    ensures Leaves(hf, n + 1) == Leaves(hf, n) + [hf.leafLabel(n, NonEmpty(Parked(hf.Tree(), Leaves(hf, n))))]
  {
    hide Parked, NonEmpty;
  }

  // Each step in turn.

  lemma StartKeeps(hf: Hashes, minMemoryLayer: nat, e: Exec, e': Exec)
    requires Inv(hf, e) && Start(minMemoryLayer, e, e')
    ensures Inv(hf, e')
  {
    var l := e'.live.value;
    assert Leaves(hf, 0) == [] && Parked(hf.Tree(), []) == [None];
    forall h | h in l.cache
      ensures l.cache[h] == Layers(hf.Tree(), Leaves(hf, 0))(h)
    {
      assert h == 0;
    }
    assert Widths(0)(0) == 0;
  }

  lemma LeafKeeps(hf: Hashes, e: Exec, e': Exec)
    requires Inv(hf, e) && Leaf(hf, e, e')
    ensures Inv(hf, e')
  {
    hide Parked, Leaves, NonEmpty, Carry, CacheAfter, Layer, Dag;
    var l := e.live.value;
    var l' := AddLeaf(hf, l);
    LeafIsTrue(hf, l);
    forall h | h in e'.files && h !in e.files
      ensures Widths(e.checkpoint)(h) == 0
    {
      assert h == |l.parked|;
      ParkedAt(hf.Tree(), Leaves(hf, l.n), h);
      ShrMonotone(e.checkpoint, l.n, h);
    }
    DurableIsTrue(hf, e.files, l', e'.files, e.checkpoint);
  }

  lemma CrashKeeps(hf: Hashes, e: Exec, e': Exec)
    requires Inv(hf, e) && Crash(e, e')
    ensures Inv(hf, e')
  {
    hide Parked, Leaves, Layer, Dag;
    var l := e.live.value;
    DurableIsTrue(hf, e.files, l, e'.files, e.checkpoint);
    var d := Min(l.disk, |l.parked|);
    assert Contiguous(e'.files, d);
    ContiguousCount(e'.files, d);
  }

  lemma PersistKeeps(hf: Hashes, e: Exec, e': Exec)
    requires Inv(hf, e) && (Flush(e, e') || Save(e, e'))
    ensures Inv(hf, e')
  {
    hide Parked, Leaves, Layer, Dag;
    FlushedIsTrue(hf, e.live.value, e'.files, e'.checkpoint);
  }

  /** Cut to the saved leaf count, true files are layers of the tree at that count. */
  lemma CutIsTrue(hf: Hashes, files: Files<Node>, checkpoint: nat)
    requires FilesTrue(hf, files, Widths(checkpoint))
    ensures CacheHolds(hf.Tree(), Truncated(files, Widths(checkpoint)), Leaves(hf, checkpoint))
    ensures FilesTrue(hf, Truncated(files, Widths(checkpoint)), Widths(checkpoint))
  {
    hide Parked, Leaves, Layer, Dag, Shr;
    var cut := Truncated(files, Widths(checkpoint));
    var s := Leaves(hf, checkpoint);
    DagExists(hf);
    forall h | h in cut
      ensures cut[h] == Layers(hf.Tree(), s)(h) && |cut[h]| >= Widths(checkpoint)(h) && IsLayerOf(Dag(hf), cut[h], h)
    {
      WorkRefinesDag(hf, Dag(hf), checkpoint, h);
      LayerWidth(hf.Tree(), s, h);
      var layer := Layer(hf.Tree(), s, h);
      assert |cut[h]| == Widths(checkpoint)(h) == |layer|;
      assert forall j: nat | j < |layer| :: cut[h][j] == Dag(hf)(h, j) == layer[j];
    }
  }

  lemma RecoverKeeps(hf: Hashes, e: Exec, e': Exec)
    requires Inv(hf, e) && Recover(hf, e, e')
    ensures Inv(hf, e')
  {
    hide Parked, Leaves, Layer, Dag, Shr, Rebuilt;
    var d, m, s := |e.files|, hf.Tree(), Leaves(hf, e.checkpoint);
    var cut := Truncated(e.files, Widths(e.checkpoint));
    CutIsTrue(hf, e.files, e.checkpoint);
    RebuiltIsTree(m, s, cut, d);
    RebuiltKeepsFiles(m, cut, d);
    ParkedAt(m, s, d - 1);
  }

  lemma RebuiltKeepsFiles(m: Hasher<Node>, files: Files<Node>, d: nat)
    requires Contiguous(files, d)
    ensures forall h | h in files :: h in Rebuilt(m, files, d).cache && Rebuilt(m, files, d).cache[h] == files[h]
  {
    hide Parked, Layer, DiskParked;
    AboveIsAbove(m, files[d - 1], d - 1, |Parked(m, files[d - 1])| - 1);
  }

  lemma {:induction false} AboveIsAbove(m: Hasher<Node>, top: seq<Node>, layer: nat, count: nat)
    ensures forall h | h in Above(m, top, layer, count) :: h > layer
    decreases count
  {
    hide Layer;
    if count > 0 {
      AboveIsAbove(m, top, layer, count - 1);
    }
  }

  lemma FailedRecoveryKeeps(hf: Hashes, e: Exec, e': Exec)
    requires Inv(hf, e) && FailedRecovery(e, e')
    ensures Inv(hf, e')
  {
    hide Dag, Shr;
    if e.files == map[] {
      assert e'.files == map[];
    } else {
      assert forall h: nat :: h in e'.files <==> h in e.files;
      ContiguousCount(e'.files, |e.files|);
    }
  }

  lemma NextKeeps(hf: Hashes, minMemoryLayer: nat, e: Exec, e': Exec)
    requires Inv(hf, e) && Next(hf, minMemoryLayer, e, e')
    ensures Inv(hf, e') && e.checkpoint <= e'.checkpoint
  {
    hide Inv;
    if Start(minMemoryLayer, e, e') {
      StartKeeps(hf, minMemoryLayer, e, e');
    } else if Leaf(hf, e, e') {
      LeafKeeps(hf, e, e');
    } else if Flush(e, e') || Save(e, e') {
      PersistKeeps(hf, e, e');
      SavedCountGrows(hf, e);
    } else if Crash(e, e') {
      CrashKeeps(hf, e, e');
    } else if Recover(hf, e, e') {
      RecoverKeeps(hf, e, e');
    } else {
      FailedRecoveryKeeps(hf, e, e');
    }
  }

  lemma SavedCountGrows(hf: Hashes, e: Exec)
    requires Inv(hf, e) && e.live.Some?
    ensures e.checkpoint <= e.live.value.n
  {
  }

  // ---------------------------------------------------------------------------------------------
  // What holds in every run.

  /** A crash can leave any part of what was written since the files were last known, in every layer independently. */
  lemma CrashLeavesAnyPart(hf: Hashes, e: Exec, part: nat -> nat)
    requires Inv(hf, e) && e.live.Some?
    requires forall h | h in e.files :: |e.files[h]| <= part(h) <= |e.live.value.cache[h]|
    ensures exists e' ::
              Crash(e, e') && e'.files.Keys == e.files.Keys && forall h | h in e'.files :: |e'.files[h]| == part(h)
  {
    hide LiveTrue, FilesTrue;
    var l := e.live.value;
    var files := map h | h in e.files :: l.cache[h][..part(h)];
    var e' := e.(files := files, live := None);
    assert Durable(e.files, l, files);
    assert Crash(e, e');
  }

  lemma {:induction false} RunsKeepInv(hf: Hashes, run: seq<Exec>)
    requires IsRun(hf, run)
    ensures Inv(hf, run[|run| - 1])
    decreases |run|
  {
    hide Inv;
    if |run| == 1 {
      NewIsTrue(hf);
    } else {
      var before := run[..|run| - 1];
      RunsKeepInv(hf, before);
      assert before[|before| - 1] == run[|run| - 2];
      var minMemoryLayer :| Next(hf, minMemoryLayer, run[|run| - 2], run[|run| - 1]);
      NextKeeps(hf, minMemoryLayer, run[|run| - 2], run[|run| - 1]);
    }
  }

  lemma NewIsTrue(hf: Hashes)
    ensures Inv(hf, NEW)
  {
  }

  /** The tree of a run without any crash, after n leaves. */
  function Uninterrupted(hf: Hashes, disk: nat, n: nat): Live
    decreases n
  {
    if n == 0 then FreshTree(disk) else AddLeaf(hf, Uninterrupted(hf, disk, n - 1))
  }

  lemma {:induction false} UninterruptedIsTrue(hf: Hashes, disk: nat, n: nat)
    requires disk > 0
    ensures LiveTrue(hf, Uninterrupted(hf, disk, n)) && Uninterrupted(hf, disk, n).n == n
    ensures Uninterrupted(hf, disk, n).all
    decreases n
  {
    if n == 0 {
      StartKeeps(hf, disk, NEW, NEW.(files := map[0 := []], live := Some(FreshTree(disk))));
    } else {
      hide LiveTrue;
      UninterruptedIsTrue(hf, disk, n - 1);
      LeafIsTrue(hf, Uninterrupted(hf, disk, n - 1));
    }
  }

  /** However often a run crashed and was recovered, its tree is that of an uninterrupted run with as many leaves: the
      same parked nodes, and in every layer that is still cached the same nodes. */
  lemma CrashEquivalence(hf: Hashes, run: seq<Exec>, disk: nat)
    requires IsRun(hf, run) && run[|run| - 1].live.Some? && disk > 0
    ensures var l := run[|run| - 1].live.value;
            var u := Uninterrupted(hf, disk, l.n);
            && l.parked == u.parked
            && (forall h | h in l.cache :: h in u.cache && l.cache[h] == u.cache[h])
            && 0 in l.cache
  {
    hide Parked, Leaves, Layer, Uninterrupted;
    RunsKeepInv(hf, run);
    var l := run[|run| - 1].live.value;
    UninterruptedIsTrue(hf, disk, l.n);
  }

  /** In every run the saved leaf count never decreases. */
  lemma SavedCountNeverDecreases(hf: Hashes, run: seq<Exec>)
    requires IsRun(hf, run) && |run| > 1
    ensures run[|run| - 2].checkpoint <= run[|run| - 1].checkpoint
  {
    var before := run[..|run| - 1];
    RunsKeepInv(hf, before);
    var minMemoryLayer :| Next(hf, minMemoryLayer, run[|run| - 2], run[|run| - 1]);
    NextKeeps(hf, minMemoryLayer, run[|run| - 2], run[|run| - 1]);
  }

  /** In every run, the files of a round that is not at work are those of consecutive layers from 0 on, they hold the
      labels of the DAG, and none is too short for the saved leaf count. */
  lemma RecoveryNeverFindsShortFile(hf: Hashes, run: seq<Exec>)
    requires IsRun(hf, run) && run[|run| - 1].live.None? && run[|run| - 1].files != map[]
    ensures var e := run[|run| - 1];
            && Contiguous(e.files, |e.files|)
            && LongEnough(e.files, Widths(e.checkpoint))
            && (forall h | h in e.files :: IsLayerOf(Dag(hf), e.files[h], h))
  {
    RunsKeepInv(hf, run);
  }

  /** So, in every run, recovery succeeds exactly if the topmost file keeps a node at the saved leaf count. */
  lemma RecoveryIsPossible(hf: Hashes, run: seq<Exec>)
    requires IsRun(hf, run) && run[|run| - 1].live.None? && run[|run| - 1].files != map[]
    ensures var e := run[|run| - 1];
            (exists e' :: Recover(hf, e, e')) <==> Shr(e.checkpoint, |e.files| - 1) > 0
  {
    hide Recover, Shr;
    RecoveryNeverFindsShortFile(hf, run);
    RecoverFrom(hf, run[|run| - 1]);
  }

  lemma RecoverFrom(hf: Hashes, e: Exec)
    requires e.live.None? && Contiguous(e.files, |e.files|) && LongEnough(e.files, Widths(e.checkpoint))
    ensures (exists e' :: Recover(hf, e, e')) <==> Shr(e.checkpoint, |e.files| - 1) > 0
  {
    hide Rebuilt, Shr, LongEnough;
    var d, files := |e.files|, Truncated(e.files, Widths(e.checkpoint));
    if Shr(e.checkpoint, d - 1) > 0 {
      var r := Rebuilt(hf.Tree(), files, d);
      var e' := e.(files := files, live := Some(Live(e.checkpoint, r.parked, r.cache, false, d, false)));
      assert Recover(hf, e, e');
    }
  }

  /** A run in which the number of memory layers stays the same. */
  ghost predicate IsRunWith(hf: Hashes, minMemoryLayer: nat, run: seq<Exec>) {
    && run != []
    && if |run| == 1 then run[0] == NEW
       else IsRunWith(hf, minMemoryLayer, run[..|run| - 1]) && Next(hf, minMemoryLayer, run[|run| - 2], run[|run| - 1])
  }

  ghost predicate FilesBelow(e: Exec, disk: nat) {
    (forall h | h in e.files :: h < disk) && (e.live.Some? ==> e.live.value.disk <= disk)
  }

  lemma NextKeepsFilesBelow(hf: Hashes, minMemoryLayer: nat, e: Exec, e': Exec)
    requires FilesBelow(e, DiskLayers(minMemoryLayer)) && Next(hf, minMemoryLayer, e, e')
    ensures FilesBelow(e', DiskLayers(minMemoryLayer))
  {
    hide Rebuilt, Shr, LongEnough, CutTo, Carry, CacheAfter;
  }

  lemma {:induction false} RunsKeepFilesBelow(hf: Hashes, minMemoryLayer: nat, run: seq<Exec>)
    requires IsRunWith(hf, minMemoryLayer, run)
    ensures IsRun(hf, run) && FilesBelow(run[|run| - 1], DiskLayers(minMemoryLayer))
    decreases |run|
  {
    hide Next;
    if |run| > 1 {
      var before := run[..|run| - 1];
      RunsKeepFilesBelow(hf, minMemoryLayer, before);
      assert before[|before| - 1] == run[|run| - 2];
      NextKeepsFilesBelow(hf, minMemoryLayer, run[|run| - 2], run[|run| - 1]);
    }
  }

  /** A checkpoint of at least 2^(d - 1) leaves, d being the layers kept in files, can always be recovered from. */
  lemma EnoughLeavesAreRecoverable(hf: Hashes, minMemoryLayer: nat, run: seq<Exec>)
    requires IsRunWith(hf, minMemoryLayer, run) && run[|run| - 1].live.None? && run[|run| - 1].files != map[]
    requires run[|run| - 1].checkpoint >= Shl(1, DiskLayers(minMemoryLayer) - 1)
    ensures var e := run[|run| - 1]; exists e' :: Recover(hf, e, e')
  {
    hide Recover, Shr, Shl;
    RunsKeepFilesBelow(hf, minMemoryLayer, run);
    RecoveryNeverFindsShortFile(hf, run);
    var e := run[|run| - 1];
    assert |e.files| - 1 in e.files;
    ShlGrows(|e.files| - 1, DiskLayers(minMemoryLayer) - 1);
    ShiftedOut(e.checkpoint, |e.files| - 1);
    RecoverFrom(hf, e);
  }

  lemma GoOn(hf: Hashes, run: seq<Exec>, minMemoryLayer: nat, e': Exec) returns (longer: seq<Exec>)
    requires IsRun(hf, run) && Next(hf, minMemoryLayer, run[|run| - 1], e')
    ensures longer == run + [e'] && IsRun(hf, longer)
  {
    hide Next;
    longer := run + [e'];
    assert longer[..|run|] == run;
  }

  lemma OneLeaf(hf: Hashes, disk: nat)
    ensures var one := AddLeaf(hf, FreshTree(disk));
            && one.n == 1 && one.disk == disk && one.cache.Keys == {0}
            && |one.parked| == 1 && one.parked[0].Some? && one.cache[0] == [one.parked[0].value]
  {
    var a := hf.leafLabel(0, NonEmpty(FreshTree(disk).parked));
    assert [] + [a] == [a];
  }

  lemma TwoLeaves(hf: Hashes)
    ensures var one := AddLeaf(hf, FreshTree(2));
            var two := AddLeaf(hf, one.(flushed := true));
            && one.cache.Keys == {0} && two.cache.Keys == {0, 1} && one.disk == two.disk == 2 && one.n == 1
            && one.cache[0] <= two.cache[0]
  {
    var none := FreshTree(2);
    var one := AddLeaf(hf, none);
    var a := hf.leafLabel(0, NonEmpty(none.parked));
    assert [] + [a] == [a];
    assert one.parked == [Some(a)] && one.cache == map[0 := [a]];
    var b := hf.leafLabel(1, NonEmpty(one.parked));
    assert Append(map[0 := [a]], 0, b, false) == map[0 := [a] + [b]];
    assert CacheAfter(hf.Tree(), map[0 := [a]], true, [Some(a)], b, 0)
           == CacheAfter(hf.Tree(), map[0 := [a] + [b]], true, [], hf.merkleHash(a, b), 1);
  }

  /** The first leaf is persisted. */
  lemma OneLeafSaved(hf: Hashes) returns (run: seq<Exec>)
    ensures var one := AddLeaf(hf, FreshTree(2));
            IsRun(hf, run) && run[|run| - 1] == Exec(one.cache, 1, Some(one.(flushed := true)))
  {
    hide AddLeaf;
    var one := AddLeaf(hf, FreshTree(2));
    TwoLeaves(hf);
    run := [NEW];
    run := GoOn(hf, run, 2, Exec(map[0 := []], 0, Some(FreshTree(2))));
    run := GoOn(hf, run, 2, Exec(one.cache, 0, Some(one)));
    run := GoOn(hf, run, 2, Exec(one.cache, 0, Some(one.(flushed := true))));
    run := GoOn(hf, run, 2, Exec(one.cache, 1, Some(one.(flushed := true))));
  }

  ghost predicate Unrecoverable(hf: Hashes, e: Exec) {
    e.live.None? && e.files != map[] && e.checkpoint > 0 && forall e' :: !Recover(hf, e, e')
  }

  /** With fewer, a layer file that appears after the checkpoint can prevent it: two layers are kept in files, the first
      leaf is saved, and the second one starts the file of layer 1, which has no node at the checkpoint. */
  lemma UnrecoverableRun(hf: Hashes)
    ensures exists run :: IsRun(hf, run) && Unrecoverable(hf, run[|run| - 1])
  {
    hide AddLeaf, Recover, Shr, IsRun;
    var two := AddLeaf(hf, AddLeaf(hf, FreshTree(2)).(flushed := true));
    TwoLeaves(hf);
    var run := OneLeafSaved(hf);
    run := GoOn(hf, run, 2, Exec(two.cache, 1, Some(two)));
    run := GoOn(hf, run, 2, Exec(two.cache, 1, None));
    RecoveryNeverFindsShortFile(hf, run);
    assert |two.cache.Keys| == 2;
    OneIsShiftedOut();
    RecoverFrom(hf, run[|run| - 1]);
  }

  lemma OneIsShiftedOut()
    ensures Shr(1, 1) == 0
  {
  }

  /** The proof of a tree, read from whatever layers it has cached. */
  function ProofOf(hf: Hashes, sha: Bytes -> Node, l: Live, k: nat): Option<MerkleProof>
    requires l.parked != []
  {
    match RootFromParked(hf.Tree(), l.parked, None)
    case None => None
    case Some(root) =>
      match FiatShamir.Indices(sha, root, l.n, k)
      case None => None
      case Some(S) => Some(ProofFor(root, Reader(hf.Tree(), l.cache, l.n), l.n, S))
  }

  lemma ProofOfTrueTree(hf: Hashes, sha: Bytes -> Node, l: Live, k: nat)
    requires LiveTrue(hf, l) && l.n > 0
    ensures l.parked != [] && ProofOf(hf, sha, l, k) == HonestProof(hf, sha, l.n, k)
  {
    hide Parked, Leaves, Layer, Root, RootFromParked, Reveal, PadNode, ReadNode, Height;
    var m, s := hf.Tree(), Leaves(hf, l.n);
    RootFromParkedIsRoot(m, s, None);
    assert s + AsSeq<Node>(None) == s;
    forall h: nat, i: nat
      ensures Reader(m, l.cache, l.n)(h, i) == PaddedTree(m, s)(h, i)
    {
      ReadNodeIsPadNode(m, l.cache, s, h, i);
    }
    var indices := FiatShamir.Indices(sha, Root(m, s), l.n, k);
    if indices.Some? {
      RevealsAlike(Reader(m, l.cache, l.n), PaddedTree(m, s), indices.value, Height(l.n), 0);
    }
  }

  /** A proof that ends a run with any crashes is the honest one for its leaf count, and the verifier accepts it. */
  lemma ProofSurvivesCrashes(hf: Hashes, sha: Bytes -> Node, run: seq<Exec>, k: nat)
    requires IsRun(hf, run) && run[|run| - 1].live.Some? && 1 <= k <= run[|run| - 1].live.value.n
    ensures var l := run[|run| - 1].live.value;
            && l.parked != []
            && ProofOf(hf, sha, l, k) == HonestProof(hf, sha, l.n, k)
            && (ProofOf(hf, sha, l, k).Some? ==> Accepts(hf, sha, ProofOf(hf, sha, l, k).value, l.n, k))
  {
    hide Accepts, HonestProof, ProofOf, LiveTrue;
    RunsKeepInv(hf, run);
    var l := run[|run| - 1].live.value;
    ProofOfTrueTree(hf, sha, l, k);
    if HonestProof(hf, sha, l.n, k).Some? {
      Completeness(hf, sha, l.n, k);
    }
  }
}
