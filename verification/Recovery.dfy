/** Rebuilding the tree from the layer files after a crash. */
module Recovery {
  import opened MerkleTree
  import opened IncrementalTree

  type Files<T> = map<nat, seq<T>>

  /** The width of every layer after n leaves. */
  function Widths(n: nat): nat -> nat {
    (h: nat) => Shr(n, h)
  }

  /** A file cut down to a width, if it is longer. */
  function CutTo<T>(file: seq<T>, width: nat): seq<T> {
    if width < |file| then file[..width] else file
  }

  function Truncated<T>(files: Files<T>, width: nat -> nat): Files<T> {
    map h | h in files :: CutTo(files[h], width(h))
  }

  /** Some of the files may have been cut. */
  ghost predicate SomeCut<T>(files: Files<T>, files': Files<T>, width: nat -> nat) {
    && files'.Keys == files.Keys
    && forall h | h in files :: files'[h] == files[h] || files'[h] == CutTo(files[h], width(h))
  }

  ghost predicate LongEnough<T>(files: Files<T>, width: nat -> nat) {
    forall h | h in files :: |files[h]| >= width(h)
  }

  /** The files are those of the layers below d. */
  ghost predicate Contiguous<T>(files: Files<T>, d: nat) {
    d > 0 && forall h: nat :: h in files <==> h < d
  }

  /** The parked node of a layer, as its file shows it. */
  function ParkedIn<T>(files: Files<T>, h: nat): Option<T> {
    if h in files then Waiting(files[h]) else None
  }

  /** The parked nodes of the layers from h up to d. */
  function DiskParked<T>(files: Files<T>, h: nat, d: nat): seq<Option<T>>
    decreases d - h
  {
    if h >= d then [] else [ParkedIn(files, h)] + DiskParked(files, h + 1, d)
  }

  /** The layers 1 to count of the tree over top, as layers above the given one. */
  function Above<T>(m: Hasher<T>, top: seq<T>, layer: nat, count: nat): Files<T>
    decreases count
  {
    if count == 0 then map[] else Above(m, top, layer, count - 1)[layer + count := Layer(m, top, count)]
  }

  datatype Recovered<T> = Recovered(parked: seq<Option<T>>, cache: Files<T>)

  /** The tree state that d files, already cut, give rise to: the layers above the top file come from a small tree
      that has the contents of that file as its leaves. */
  function Rebuilt<T>(m: Hasher<T>, files: Files<T>, d: nat): Recovered<T>
    requires d > 0 && d - 1 in files
  {
    var top := files[d - 1];
    var small := Parked(m, top);
    Recovered(DiskParked(files, 0, d) + small[1..], files + Above(m, top, d - 1, |small| - 1))
  }

  // ---------------------------------------------------------------------------------------------
  // The rebuilt state is that of the full tree.

  lemma {:induction false} DiskParkedAre<T>(files: Files<T>, p: seq<Option<T>>, h: nat, d: nat)
    requires h <= d <= |p| && forall k: nat | k < d :: ParkedIn(files, k) == p[k]
    ensures DiskParked(files, h, d) == p[h..d]
    decreases d - h
  {
    if h < d {
      DiskParkedAre(files, p, h + 1, d);
    }
  }

  lemma {:induction false} AboveHolds<T>(m: Hasher<T>, s: seq<T>, layer: nat, count: nat)
    ensures Holds(Above(m, Layer(m, s, layer), layer, count), Layers(m, s))
    ensures forall h: nat :: h in Above(m, Layer(m, s, layer), layer, count) <==> layer < h <= layer + count
    decreases count
  {
    if count > 0 {
      AboveHolds(m, s, layer, count - 1);
      LayerOfLayer(m, s, layer, count);
    }
  }

  lemma FilesShowParked<T>(m: Hasher<T>, s: seq<T>, files: Files<T>, d: nat)
    requires Contiguous(files, d) && CacheHolds(m, files, s) && d <= |Parked(m, s)|
    ensures DiskParked(files, 0, d) == Parked(m, s)[..d]
  {
    var p := Parked(m, s);
    forall k: nat | k < d
      ensures ParkedIn(files, k) == p[k]
    {
      ParkedAt(m, s, k);
      assert files[k] == Layers(m, s)(k);
    }
    DiskParkedAre(files, p, 0, d);
    assert p[0..d] == p[..d];
  }

  lemma SplitParked<T>(m: Hasher<T>, s: seq<T>, d: nat)
    requires d > 0 && Shr(|s|, d - 1) > 0
    ensures var small := Parked(m, Layer(m, s, d - 1));
            && |Parked(m, s)| == d - 1 + |small|
            && Parked(m, s) == Parked(m, s)[..d] + small[1..]
  {
    ParkedSplit(m, s, d - 1);
    var p := Parked(m, s);
    assert p[d - 1..][1..] == p[d..];
  }

  lemma RebuiltParked<T>(m: Hasher<T>, s: seq<T>, files: Files<T>, d: nat)
    requires Contiguous(files, d) && CacheHolds(m, files, s) && Shr(|s|, d - 1) > 0
    ensures Rebuilt(m, files, d).parked == Parked(m, s)
  {
    hide Parked, Layer, Shr, DiskParked;
    assert files[d - 1] == Layers(m, s)(d - 1);
    SplitParked(m, s, d);
    FilesShowParked(m, s, files, d);
  }

  lemma RebuiltCache<T>(m: Hasher<T>, s: seq<T>, files: Files<T>, d: nat)
    requires Contiguous(files, d) && CacheHolds(m, files, s) && Shr(|s|, d - 1) > 0
    ensures CacheHolds(m, Rebuilt(m, files, d).cache, s)
    ensures forall h: nat :: h in Rebuilt(m, files, d).cache <==> h < |Parked(m, s)|
  {
    hide Parked, Layer, Shr, Above;
    var top := files[d - 1];
    var count := |Parked(m, top)| - 1;
    assert top == Layers(m, s)(d - 1);
    SplitParked(m, s, d);
    AboveHolds(m, s, d - 1, count);
    JoinHolds(files, Above(m, top, d - 1, count), Layers(m, s));
  }

  /** Files that hold the layers below d of the tree over s, the top one not empty, give back the parked nodes of that
      tree, and all its layers. */
  lemma RebuiltIsTree<T>(m: Hasher<T>, s: seq<T>, files: Files<T>, d: nat)
    requires Contiguous(files, d) && CacheHolds(m, files, s) && Shr(|s|, d - 1) > 0
    ensures Rebuilt(m, files, d).parked == Parked(m, s)
    ensures CacheHolds(m, Rebuilt(m, files, d).cache, s)
    ensures forall h: nat :: h in Rebuilt(m, files, d).cache <==> h < |Parked(m, s)|
  {
    RebuiltParked(m, s, files, d);
    RebuiltCache(m, s, files, d);
  }

  lemma JoinHolds<T>(a: Files<T>, b: Files<T>, layers: nat -> seq<T>)
    requires Holds(a, layers) && Holds(b, layers)
    ensures Holds(a + b, layers)
  {
  }

  // ---------------------------------------------------------------------------------------------
  // The recovery procedure.

  function Lookup<T>(parked: map<nat, T>, h: nat): Option<T> {
    if h in parked then Some(parked[h]) else None
  }

  class Datadir<T(!new)> {
    var files: Files<T>

    /** Cuts one file that is ahead, and reads the parked node of its layer. */
    method CutFile(layer: nat, expected: nat) returns (node: Option<T>)
      requires layer in files && expected <= |files[layer]|
      modifies this
      ensures files == old(files)[layer := CutTo(old(files)[layer], expected)]
      ensures node == ParkedIn(files, layer)
    {
      if expected < |files[layer]| {
        files := files[layer := files[layer][..expected]];
      }
      node := if expected % 2 != 0 then Some(files[layer][expected - 1]) else None;
    }

    /** Visits the files in any order, cuts those that are ahead, and finds the topmost layer and the parked nodes;
        stops at a file that is too short. */
    method CutFiles(width: nat -> nat) returns (short: Option<nat>, top: nat, parked: map<nat, T>)
      requires 0 in files
      modifies this
      ensures SomeCut(old(files), files, width)
      ensures short.Some? ==> short.value in old(files) && |old(files)[short.value]| < width(short.value)
      ensures short.None? ==>
                && LongEnough(old(files), width)
                && files == Truncated(old(files), width)
                && (forall h | h in files :: h <= top) && top in files
                && (forall h: nat :: Lookup(parked, h) == ParkedIn(files, h))
    {
      hide CutTo, Waiting;
      ghost var was := files;
      var todo := files.Keys;
      top, parked := 0, map[];
      while todo != {}
        invariant todo <= files.Keys == was.Keys && top in files
        invariant forall h | h in files :: files[h] == if h in todo then was[h] else CutTo(was[h], width(h))
        invariant forall h | h in files && h !in todo :: |was[h]| >= width(h) && h <= top
        invariant forall h: nat :: Lookup(parked, h) == if h in todo then None else ParkedIn(files, h)
        decreases |todo|
      {
        var layer :| layer in todo;
        top := if top < layer then layer else top;
        if width(layer) > |files[layer]| {
          return Some(layer), top, parked;
        }
        var node := CutFile(layer, width(layer));
        if node.Some? {
          parked := parked[layer := node.value];
        }
        todo := todo - {layer};
      }
      assert files == Truncated(was, width);
      short := None;
    }
  }

  /** The parked nodes by layer, an empty one where the map has none. */
  method InLayerOrder<T>(parked: map<nat, T>, count: nat, ghost files: Files<T>) returns (nodes: seq<Option<T>>)
    requires forall h: nat :: Lookup(parked, h) == ParkedIn(files, h)
    ensures nodes == DiskParked(files, 0, count)
  {
    nodes := [];
    for layer := 0 to count
      invariant nodes + DiskParked(files, layer, count) == DiskParked(files, 0, count)
    {
      assert Lookup(parked, layer) == ParkedIn(files, layer);
      nodes := nodes + [if layer in parked then Some(parked[layer]) else None];
    }
  }

  /** The small tree over the nodes of the top file. */
  method BuildSmallTree<T>(m: Hasher<T>, top: seq<T>) returns (tree: Tree<T>)
    ensures tree.Valid() && tree.m == m && tree.leaves == top
    ensures forall h: nat :: h in tree.cache <==> h < |tree.parked|
  {
    tree := new Tree(m);
    for i := 0 to |top|
      invariant fresh(tree) && tree.Valid() && tree.m == m && tree.all && tree.leaves == top[..i]
      invariant forall h: nat :: h in tree.cache <==> h < |tree.parked|
    {
      AllLayersStayCached(m, tree.cache, tree.parked, top[i]);
      assert top[..i + 1] == top[..i] + [top[i]];
      tree.AddLeaf(top[i]);
    }
    assert top[..|top|] == top;
  }

  lemma AllLayersStayCached<T>(m: Hasher<T>, cache: Files<T>, p: seq<Option<T>>, node: T)
    requires forall h: nat :: h in cache <==> h < |p|
    ensures forall h: nat :: h in CacheAfter(m, cache, true, p, node, 0) <==> h < |Carry(m, p, node)|
  {
    CacheAfterKeys(m, cache, true, p, node, 0);
    CarryGrowsByOne(m, p, node);
    forall h: nat
      ensures h in CacheAfter(m, cache, true, p, node, 0) <==> h in CacheAfter(m, cache, true, p, node, 0).Keys
    {
    }
  }

  lemma {:induction false} CarryGrowsByOne<T>(m: Hasher<T>, p: seq<Option<T>>, node: T)
    ensures |p| <= |Carry(m, p, node)| <= |p| + 1
    decreases |p|
  {
    if p != [] && p[0].Some? {
      CarryGrowsByOne(m, p[1..], m.join(p[0].value, node));
    }
  }

  /** The layers of the small tree except its first, as layers above the top file. */
  method LiftLayers<T>(small: Tree<T>, layer: nat) returns (above: Files<T>)
    requires small.Valid() && forall h: nat :: h in small.cache <==> h < |small.parked|
    ensures above == Above(small.m, small.leaves, layer, |small.parked| - 1)
  {
    above := map[];
    for j := 1 to |small.parked|
      invariant above == Above(small.m, small.leaves, layer, j - 1)
    {
      assert small.cache[j] == Layers(small.m, small.leaves)(j);
      above := above[layer + j := small.cache[j]];
    }
  }

  datatype Failure = LayerZeroMissing | TooShort(layer: nat) | EmptyTopLayer
  datatype Result<T> = Success(value: Recovered<T>) | Failed(failure: Failure)

  /** Recovery succeeds exactly when layer 0 is there, no file is too short and the top file keeps a node; then the
      files are cut to the leaf count, and the tree state is rebuilt from them. */
  method MakeRecoveryProofTree<T(!new)>(dir: Datadir<T>, m: Hasher<T>, nextLeafID: nat, ghost d: nat)
    returns (r: Result<T>)
    requires 0 in dir.files ==> Contiguous(dir.files, d)
    modifies dir
    ensures r.Success? <==>
            0 in old(dir.files) && LongEnough(old(dir.files), Widths(nextLeafID)) && Shr(nextLeafID, d - 1) > 0
    ensures SomeCut(old(dir.files), dir.files, Widths(nextLeafID))
    ensures r == Failed(LayerZeroMissing) <==> 0 !in old(dir.files)
    ensures r.Failed? && r.failure.TooShort? ==>
              var layer := r.failure.layer;
              layer in old(dir.files) && |old(dir.files)[layer]| < Widths(nextLeafID)(layer)
    ensures r == Failed(EmptyTopLayer) ==> LongEnough(old(dir.files), Widths(nextLeafID))
    ensures r.Success? ==>
              && dir.files == Truncated(old(dir.files), Widths(nextLeafID))
              && r.value == Rebuilt(m, dir.files, d)
  {
    if 0 !in dir.files {
      return Failed(LayerZeroMissing);
    }
    var width := Widths(nextLeafID);
    var short, topLayer, parkedMap := dir.CutFiles(width);
    if short.Some? {
      return Failed(TooShort(short.value));
    }
    assert d - 1 in dir.files && topLayer == d - 1;
    assert width(d - 1) == Shr(nextLeafID, d - 1);
    var top := dir.files[topLayer];
    if top == [] {
      return Failed(EmptyTopLayer);
    }
    ContiguousCount(dir.files, d);
    var recovered := Rebuild(m, dir.files, |dir.files|, parkedMap);
    r := Success(recovered);
  }

  method Rebuild<T>(m: Hasher<T>, files: Files<T>, d: nat, parked: map<nat, T>) returns (r: Recovered<T>)
    requires d > 0 && d - 1 in files && forall h: nat :: Lookup(parked, h) == ParkedIn(files, h)
    ensures r == Rebuilt(m, files, d)
  {
    var disk := InLayerOrder(parked, d, files);
    var small := BuildSmallTree(m, files[d - 1]);
    var above := LiftLayers(small, d - 1);
    r := Recovered(disk + small.parked[1..], files + above);
  }

  lemma {:induction false} ContiguousCount<T>(files: Files<T>, d: nat)
    requires forall h: nat :: h in files <==> h < d
    ensures |files| == d
    decreases d
  {
    if d > 0 {
      var rest := files - {d - 1};
      ContiguousCount(rest, d - 1);
      assert files.Keys == rest.Keys + {d - 1};
      assert |files.Keys| == |rest.Keys| + 1;
    } else {
      assert files == map[];
    }
  }
}
