/** The verifier, and what an accepted proof binds its author to. Proofs are taken as they come off the wire, with
    leaves and nodes of any length. */
module Verifier {
  import opened MerkleTree
  import opened Labels
  import opened PartialProof
  import opened ProofOfWork
  import opened Scale
  import FiatShamir

  type MerkleHash = (Bytes, Bytes) -> Node

  /** The tree hash on byte slices, and on nodes only. */
  function OnBytes(join: MerkleHash): Hasher<Bytes> {
    Hasher((l: Bytes, r: Bytes) => join(l, r), PADDING)
  }

  function OnNodes(join: MerkleHash): (Node, Node) -> Node {
    (l: Node, r: Node) => join(l, r)
  }

  /** The two functions that a statement salts, as far as they apply to nodes. */
  function Salted(labelHash: Bytes -> Node, merkleHash: MerkleHash): Hashes {
    Hashes(Labelling(labelHash), OnNodes(merkleHash))
  }

  // ---------------------------------------------------------------------------------------------
  // What is accepted.

  /** The label buffer after the first n opened leaves. */
  function Buffer(snaps: seq<seq<Option<Bytes>>>, n: nat): nat
    requires n <= |snaps|
  {
    if n == 0 then 0 else Max(Buffer(snaps, n - 1), Space(|snaps[n - 1]|))
  }

  /** Leaf i is the label of its index and of what was parked when it was added, cut to the label buffer. */
  predicate LabelFits(labelHash: Bytes -> Node, leaves: seq<(nat, Bytes)>, snaps: seq<seq<Option<Bytes>>>, i: nat)
    requires i < |leaves| == |snaps|
  {
    leaves[i].1 == labelHash(Prefix(BE64(leaves[i].0) + Flatten(NonEmpty(snaps[i])), Buffer(snaps, i + 1)))
  }

  function Opening(S: set<nat>, proof: WireProof, n: nat): seq<(nat, Bytes)>
    requires |Ascending(S, 0, n)| == |proof.provenLeaves|
  {
    Zip(Ascending(S, 0, n), proof.provenLeaves)
  }

  /** Where the climb from the opened leaves ends. */
  function EndOf(merkleHash: MerkleHash, leaves: seq<(nat, Bytes)>, proof: WireProof): Walk<Bytes>
    requires leaves != []
  {
    Climb(OnBytes(merkleHash), Start(leaves, proof.proofNodes), None)
  }

  ghost predicate AcceptsOpening(labelHash: Bytes -> Node, merkleHash: MerkleHash, leaves: seq<(nat, Bytes)>,
                                 proof: WireProof) {
    && leaves != []
    && var end := EndOf(merkleHash, leaves, proof);
       && end.node == proof.root && |end.snaps| == |leaves|
       && forall i: nat | i < |leaves| :: LabelFits(labelHash, leaves, end.snaps, i)
  }

  /** What the verifier accepts. */
  ghost predicate AcceptsWire(labelHash: Bytes -> Node, merkleHash: MerkleHash, sha: Bytes -> Node, proof: WireProof,
                              n: nat, k: nat) {
    && |proof.provenLeaves| == k
    && match FiatShamir.Indices(sha, proof.root, n, k)
       case None => false
       case Some(S) => |Ascending(S, 0, n)| == k && AcceptsOpening(labelHash, merkleHash, Opening(S, proof, n), proof)
  }

  // ---------------------------------------------------------------------------------------------
  // For proofs of 32-byte nodes this is what honest proofs are measured against.

  function Wire(p: MerkleProof): WireProof {
    WireProof(p.root, p.provenLeaves, p.proofNodes)
  }

  lemma {:induction false} ClimbOfNodes(join: MerkleHash, w: Walk<Node>, stop: Option<nat>)
    ensures Climb<Bytes>(OnBytes(join), w, stop) == Climb<Node>(Hasher(OnNodes(join), PADDING), w, stop)
    decreases |w.leaves| + |w.proof|
  {
    var m := Hasher(OnNodes(join), PADDING);
    if stop == Some(w.height) {
    } else if w.leaves != [] && Shr(w.leaves[0].0, w.height) == Sibling(w.index) {
      var st := Start(w.leaves, w.proof);
      StartOfNodes(w.leaves, w.proof);
      ClimbOfNodes(join, st, Some(w.height));
      var sub := Climb(m, st, Some(w.height));
      MergeOfNodes(join, w, sub.node, sub.snaps, sub.leaves, sub.proof);
      ClimbOfNodes(join, Merge(m, w, sub.node, sub.snaps, sub.leaves, sub.proof), stop);
    } else if w.proof != [] {
      MergeOfNodes(join, w, w.proof[0], [], w.leaves, w.proof[1..]);
      ClimbOfNodes(join, Merge(m, w, w.proof[0], [], w.leaves, w.proof[1..]), stop);
    }
  }

  lemma StartOfNodes(leaves: seq<(nat, Node)>, proof: seq<Node>)
    requires leaves != []
    ensures Start<Bytes>(leaves, proof) == Start<Node>(leaves, proof)
  {
  }

  lemma {:induction false} AddToAllOfNodes(snaps: seq<seq<Option<Node>>>, x: Option<Node>)
    ensures AddToAll<Bytes>(snaps, x) == AddToAll<Node>(snaps, x)
  {
    if snaps != [] {
      AddToAllOfNodes(snaps[1..], x);
    }
  }

  lemma MergeOfNodes(join: MerkleHash, w: Walk<Node>, sibling: Node, below: seq<seq<Option<Node>>>,
                     leaves: seq<(nat, Node)>, proof: seq<Node>)
    ensures Merge<Bytes>(OnBytes(join), w, sibling, below, leaves, proof)
            == Merge<Node>(Hasher(OnNodes(join), PADDING), w, sibling, below, leaves, proof)
  {
    AddToAllOfNodes(w.snaps, if w.index % 2 == 1 then Some(sibling) else None);
    AddToAllOfNodes(below, Some(w.node));
  }

  lemma {:induction false} ZipOfNodes(js: seq<nat>, values: seq<Node>)
    requires |js| == |values|
    ensures Zip<Bytes>(js, values) == Zip<Node>(js, values)
  {
  }

  lemma {:induction false} RoomForAll(snaps: seq<seq<Option<Bytes>>>, i: nat, n: nat)
    requires i < n <= |snaps|
    ensures Buffer(snaps, n) >= Space(|snaps[i]|)
    decreases n
  {
    if i < n - 1 {
      RoomForAll(snaps, i, n - 1);
    }
  }

  lemma LabelOfNodes(labelHash: Bytes -> Node, leaves: seq<(nat, Node)>, snaps: seq<seq<Option<Node>>>, i: nat)
    requires i < |leaves| == |snaps|
    ensures LabelFits(labelHash, leaves, snaps, i)
            <==> leaves[i].1 == Labelling(labelHash)(leaves[i].0, NonEmpty(snaps[i]))
  {
    RoomForAll(snaps, i, i + 1);
    NodesAreNotCut(leaves[i].0, snaps[i], Buffer(snaps, i + 1));
  }

  lemma OpeningOfNodes(labelHash: Bytes -> Node, merkleHash: MerkleHash, leaves: seq<(nat, Node)>, p: MerkleProof)
    ensures AcceptsOpening(labelHash, merkleHash, leaves, Wire(p))
            <==> AcceptsLeaves(Salted(labelHash, merkleHash), p, leaves)
  {
    if leaves != [] {
      hide Climb, Labelling, LabelFits;
      StartOfNodes(leaves, p.proofNodes);
      ClimbOfNodes(merkleHash, Start(leaves, p.proofNodes), None);
      var end := Climb<Node>(Hasher(OnNodes(merkleHash), PADDING), Start(leaves, p.proofNodes), None);
      assert EndOf(merkleHash, leaves, Wire(p)) == end;
      if |end.snaps| == |leaves| {
        forall i: nat | i < |leaves|
          ensures LabelFits(labelHash, leaves, end.snaps, i)
                  <==> leaves[i].1 == Labelling(labelHash)(leaves[i].0, NonEmpty(end.snaps[i]))
        {
          LabelOfNodes(labelHash, leaves, end.snaps, i);
        }
      }
    }
  }

  /** A proof made of nodes is accepted exactly if it is accepted as such; so honest proofs are. */
  lemma AcceptsNodes(labelHash: Bytes -> Node, merkleHash: MerkleHash, sha: Bytes -> Node, p: MerkleProof,
                     n: nat, k: nat)
    ensures AcceptsWire(labelHash, merkleHash, sha, Wire(p), n, k)
            <==> Accepts(Salted(labelHash, merkleHash), sha, p, n, k)
  {
    hide AcceptsOpening, AcceptsLeaves, FiatShamir.Indices, Ascending, Zip;
    var indices := FiatShamir.Indices(sha, p.root, n, k);
    if |p.provenLeaves| == k && indices.Some? {
      var js := Ascending(indices.value, 0, n);
      if |js| == k {
        ZipOfNodes(js, p.provenLeaves);
        OpeningOfNodes(labelHash, merkleHash, Zip(js, p.provenLeaves), p);
      }
    }
  }

  lemma {:induction false} HeightAtMost(n: nat, r: nat)
    requires n <= Shl(1, r)
    ensures Height(n) <= r
    decreases n
  {
    if n > 1 {
      if r > 0 {
        ShlDoubles(1, r - 1);
        HeightAtMost((n + 1) / 2, r - 1);
      }
    }
  }

  lemma ThirtySixLayers()
    ensures Shl(1, 36) == 0x10_0000_0000
  {
    hide Shl;
    FourBits(1, 32);
    FourBits(0x10, 28);
    FourBits(0x100, 24);
    FourBits(0x1000, 20);
    FourBits(0x1_0000, 16);
    FourBits(0x10_0000, 12);
    FourBits(0x100_0000, 8);
    FourBits(0x1000_0000, 4);
    FourBits(0x1_0000_0000, 0);
    FourBits(0x10_0000_0000, 0);
  }

  lemma FourBits(a: nat, h: nat)
    ensures Shl(a, h + 4) == Shl(16 * a, h) && Shl(a, 0) == a
  {
    assert Shl(a, h + 4) == Shl(2 * a, h + 3);
    assert Shl(2 * a, h + 3) == Shl(4 * a, h + 2);
    assert Shl(4 * a, h + 2) == Shl(8 * a, h + 1);
    assert Shl(8 * a, h + 1) == Shl(16 * a, h);
  }

  /** An honest proof of at most 150 leaves out of at most 2^36 is within the limits of its encoding. */
  lemma HonestProofFits(hf: Hashes, sha: Bytes -> Node, n: nat, k: nat)
    requires 1 <= k <= 150 && k <= n <= 0x10_0000_0000 && HonestProof(hf, sha, n, k).Some?
    ensures WithinLimits(Wire(HonestProof(hf, sha, n, k).value))
  {
    hide Leaves, Root, Reveal, Opened, Needed, Height, Ascending, FiatShamir.Indices, NeededCount, CountUnder;
    var s := Leaves(hf, n);
    var read, root := PaddedTree(hf.Tree(), s), Root(hf.Tree(), s);
    var S := FiatShamir.Indices(sha, root, n, k).value;
    FiatShamir.IndicesAreExact(sha, root, n, k);
    ProofOpensAscending(read, S, n);
    AscendingCount(S, 0, n);
    OpenedUnder(read, S, Height(n), 0);
    NeededCountIsExact(read, S, Height(n), 0);
    NeededAtMost(S, Height(n), 0);
    ThirtySixLayers();
    HeightAtMost(n, 36);
    AtMostProduct(Height(n), 36, k, 150);
  }

  lemma AtMostProduct(a: nat, a': nat, b: nat, b': nat)
    requires a <= a' && b <= b'
    ensures a * b <= a' * b'
  {
    assert a * b <= a' * b <= a' * b';
  }

  // ---------------------------------------------------------------------------------------------
  // The procedure.

  /** Diverged stands for a verification that never ends, because the challenge is never found. */
  datatype Verdict = Accepted | WrongLeafCount | MalformedProof | WrongRoot | MissingSnapshots | WrongLabel(index: nat)
                   | Diverged

  /** The first proven leaf that is not the label of its index and snapshot. */
  method FindWrongLabel(labelHash: Bytes -> Node, leaves: seq<(nat, Bytes)>, snaps: seq<seq<Option<Bytes>>>)
    returns (wrong: Option<nat>)
    requires |snaps| == |leaves|
    ensures wrong.None? ==> forall i: nat | i < |leaves| :: LabelFits(labelHash, leaves, snaps, i)
    ensures wrong.Some? ==>
              && wrong.value < |leaves| && !LabelFits(labelHash, leaves, snaps, wrong.value)
              && forall i: nat | i < wrong.value :: LabelFits(labelHash, leaves, snaps, i)
  {
    hide NonEmpty, Flatten, Prefix, BE64;
    var makeLabel := new LabelMaker();
    for id := 0 to |leaves|
      invariant fresh(makeLabel) && fresh(makeLabel.buffer) && makeLabel.buffer.Length == Buffer(snaps, id)
      invariant forall i: nat | i < id :: LabelFits(labelHash, leaves, snaps, i)
    {
      var expected := makeLabel.MakeLabel(labelHash, leaves[id].0, snaps[id]);
      if expected != leaves[id].1 {
        return Some(id);
      }
    }
    wrong := None;
  }

  /** As many leaves as asked for, of as many as there are. */
  ghost predicate WellFormed(proof: WireProof, n: nat, k: nat) {
    |proof.provenLeaves| == k && 1 <= k <= n
  }

  /** The verdict names the first check that fails: the number of leaves, the challenge, the climb to the root, the
      snapshots, and the labels in order. */
  ghost predicate Justified(v: Verdict, labelHash: Bytes -> Node, merkleHash: MerkleHash, sha: Bytes -> Node,
                            proof: WireProof, n: nat, k: nat) {
    match FiatShamir.Indices(sha, proof.root, n, k)
    case None => v == if |proof.provenLeaves| != k then WrongLeafCount else Diverged
    case Some(S) =>
      if |proof.provenLeaves| != k then v == WrongLeafCount
      else if !WellFormed(proof, n, k) || |Ascending(S, 0, n)| != k then v == MalformedProof
      else
        var leaves := Opening(S, proof, n);
        var end := EndOf(merkleHash, leaves, proof);
        if end.node != proof.root then v == WrongRoot
        else if |end.snaps| != k then v == MissingSnapshots
        else
          match v
          case Accepted => forall i: nat | i < k :: LabelFits(labelHash, leaves, end.snaps, i)
          case WrongLabel(i) =>
            && i < k && !LabelFits(labelHash, leaves, end.snaps, i)
            && forall j: nat | j < i :: LabelFits(labelHash, leaves, end.snaps, j)
          case _ => false
  }

  /** Every challenge opens as many leaves as asked for, unless there are fewer. */
  lemma OpenedCount(sha: Bytes -> Node, root: Bytes, n: nat, k: nat)
    requires FiatShamir.Indices(sha, root, n, k).Some?
    ensures |Ascending(FiatShamir.Indices(sha, root, n, k).value, 0, n)| == if k < n then k else n
  {
    hide FiatShamir.Indices, Ascending;
    FiatShamir.IndicesAreExact(sha, root, n, k);
    AscendingCount(FiatShamir.Indices(sha, root, n, k).value, 0, n);
  }

  /** The verdict is justified, and the proof is accepted exactly if it is Accepted. */
  method Validate(proof: WireProof, labelHash: Bytes -> Node, merkleHash: MerkleHash, sha: Bytes -> Node,
                  numLeaves: nat, securityParam: nat) returns (v: Verdict)
    ensures v.Accepted? <==> AcceptsWire(labelHash, merkleHash, sha, proof, numLeaves, securityParam)
    ensures Justified(v, labelHash, merkleHash, sha, proof, numLeaves, securityParam)
  {
    hide FiatShamir.Indices, Ascending, Zip, Climb, LabelFits;
    if |proof.provenLeaves| != securityParam {
      return WrongLeafCount;
    }
    var indices := FiatShamir.ComputeIndices(sha, proof.root, numLeaves, securityParam);
    if indices.None? {
      return Diverged;
    }
    OpenedCount(sha, proof.root, numLeaves, securityParam);
    var ids := Ascending(indices.value, 0, numLeaves);
    if |ids| != |proof.provenLeaves| || ids == [] {
      return MalformedProof;
    }
    var leaves := Opening(indices.value, proof, numLeaves);
    var end := EndOf(merkleHash, leaves, proof);
    if end.node != proof.root {
      return WrongRoot;
    }
    if |end.snaps| != |proof.provenLeaves| {
      return MissingSnapshots;
    }
    var wrong := FindWrongLabel(labelHash, leaves, end.snaps);
    v := if wrong.Some? then WrongLabel(wrong.value) else Accepted;
  }

  // ---------------------------------------------------------------------------------------------
  // What acceptance means, leaf by leaf.

  ghost predicate Increasing(ids: seq<nat>) {
    forall i, j | 0 <= i < j < |ids| :: ids[i] < ids[j]
  }

  /** ids lists the members of S from a up to b, each once and in order. */
  ghost predicate Lists(ids: seq<nat>, S: set<nat>, a: nat, b: nat) {
    Increasing(ids) && forall x: nat :: x in ids <==> x in S && a <= x < b
  }

  lemma ListsFrom(rest: seq<nat>, S: set<nat>, a: nat, b: nat)
    requires Lists(rest, S, a + 1, b) && a < b
    ensures a in S ==> Lists([a] + rest, S, a, b)
    ensures a !in S ==> Lists(rest, S, a, b)
  {
    if a in S {
      var ids := [a] + rest;
      forall i, j | 0 <= i < j < |ids|
        ensures ids[i] < ids[j]
      {
        assert ids[j] == rest[j - 1] && rest[j - 1] in rest;
      }
      forall x: nat
        ensures x in ids <==> x in S && a <= x < b
      {
        assert x in ids <==> x == a || x in rest;
      }
    }
  }

  lemma {:induction false} AscendingLists(S: set<nat>, a: nat, b: nat)
    ensures Lists(Ascending(S, a, b), S, a, b)
    decreases b - a
  {
    if a < b {
      hide Lists;
      AscendingLists(S, a + 1, b);
      ListsFrom(Ascending(S, a + 1, b), S, a, b);
      assert [] + Ascending(S, a + 1, b) == Ascending(S, a + 1, b);
    }
  }

  lemma ListStartsWith(ids: seq<nat>, S: set<nat>, a: nat, b: nat)
    requires Lists(ids, S, a, b) && a < b
    ensures a in S ==> ids != [] && ids == [a] + ids[1..] && Lists(ids[1..], S, a + 1, b)
    ensures a !in S ==> Lists(ids, S, a + 1, b)
  {
    if a in S {
      assert a in ids;
      var k :| 0 <= k < |ids| && ids[k] == a;
      assert ids[0] in ids;
      assert k == 0;
      var rest := ids[1..];
      assert ids == [a] + rest;
      forall x: nat
        ensures x in rest <==> x in S && a + 1 <= x < b
      {
        assert x in ids <==> x == a || x in rest;
        if x in rest {
          var j :| 0 <= j < |rest| && rest[j] == x;
          assert ids[j + 1] == x;
        }
      }
    }
  }

  lemma EmptyList(ids: seq<nat>, S: set<nat>, a: nat, b: nat)
    requires Lists(ids, S, a, b)
    ensures a >= b ==> ids == []
  {
    assert ids == [] || ids[0] in ids;
  }

  /** There is no other such list. */
  lemma {:induction false} ListIsAscending(ids: seq<nat>, S: set<nat>, a: nat, b: nat)
    requires Lists(ids, S, a, b)
    ensures ids == Ascending(S, a, b)
    decreases b - a
  {
    hide Lists;
    EmptyList(ids, S, a, b);
    if a < b {
      ListStartsWith(ids, S, a, b);
      if a in S {
        ListIsAscending(ids[1..], S, a + 1, b);
      } else {
        ListIsAscending(ids, S, a + 1, b);
        assert [] + ids == ids;
      }
    }
  }

  /** The label of leaf id, where c is id in eight bytes. */
  lemma FitsForBytes(labelHash: Bytes -> Node, leaves: seq<(nat, Bytes)>, snaps: seq<seq<Option<Bytes>>>, i: nat)
    requires i < |leaves| == |snaps| && leaves[i].0 < 0x1_0000_0000_0000_0000
    ensures LabelFits(labelHash, leaves, snaps, i) <==>
            forall c: Bytes | |c| == 8 && Number(c) == leaves[i].0 ::
              leaves[i].1 == labelHash(Prefix(c + Flatten(NonEmpty(snaps[i])), Buffer(snaps, i + 1)))
  {
    hide Number, BE64, Flatten, NonEmpty, Prefix, Buffer;
    LeafNumber(leaves[i].0);
  }

  /** The proof opens the leaves with the given indices: it climbs to the root, and every leaf is the hash of its index
      in eight big-endian bytes and of the left siblings met on its way. */
  ghost predicate Opens(labelHash: Bytes -> Node, merkleHash: MerkleHash, proof: WireProof, ids: seq<nat>)
    requires |ids| == |proof.provenLeaves| && ids != []
  {
    var end := Climb(OnBytes(merkleHash), Start(Zip(ids, proof.provenLeaves), proof.proofNodes), None);
    && end.node == proof.root && |end.snaps| == |ids|
    && forall i: nat, c: Bytes | i < |ids| && |c| == 8 && Number(c) == ids[i] ::
         proof.provenLeaves[i] == labelHash(Prefix(c + Flatten(NonEmpty(end.snaps[i])), Buffer(end.snaps, i + 1)))
  }

  lemma OpensMeans(labelHash: Bytes -> Node, merkleHash: MerkleHash, proof: WireProof, ids: seq<nat>)
    requires |ids| == |proof.provenLeaves| && ids != [] && forall i | 0 <= i < |ids| :: ids[i] < 0x1_0000_0000_0000_0000
    ensures Opens(labelHash, merkleHash, proof, ids)
            <==> AcceptsOpening(labelHash, merkleHash, Zip(ids, proof.provenLeaves), proof)
  {
    hide Climb, LabelFits, Number, Flatten, NonEmpty, Prefix, Buffer;
    var leaves := Zip(ids, proof.provenLeaves);
    var end := EndOf(merkleHash, leaves, proof);
    if |end.snaps| == |leaves| {
      forall i: nat | i < |leaves|
        ensures LabelFits(labelHash, leaves, end.snaps, i) <==>
                forall c: Bytes | |c| == 8 && Number(c) == leaves[i].0 ::
                  leaves[i].1 == labelHash(Prefix(c + Flatten(NonEmpty(end.snaps[i])), Buffer(end.snaps, i + 1)))
      {
        FitsForBytes(labelHash, leaves, end.snaps, i);
      }
    }
  }

  /** A proof is accepted exactly if it opens, in ascending order, the k leaves that its root challenges. */
  lemma AcceptedMeans(labelHash: Bytes -> Node, merkleHash: MerkleHash, sha: Bytes -> Node, proof: WireProof,
                      n: nat, k: nat)
    requires n <= 0x1_0000_0000_0000_0000
    ensures AcceptsWire(labelHash, merkleHash, sha, proof, n, k) <==>
            && 1 <= k <= n && |proof.provenLeaves| == k
            && FiatShamir.Indices(sha, proof.root, n, k).Some?
            && exists ids ::
                 && |ids| == k && Lists(ids, FiatShamir.Indices(sha, proof.root, n, k).value, 0, n)
                 && Opens(labelHash, merkleHash, proof, ids)
  {
    hide Opens, AcceptsOpening, Lists, FiatShamir.Indices, Ascending, Zip;
    var indices := FiatShamir.Indices(sha, proof.root, n, k);
    if indices.Some? && |proof.provenLeaves| == k {
      OpenedCount(sha, proof.root, n, k);
      var ids := Ascending(indices.value, 0, n);
      AscendingLists(indices.value, 0, n);
      forall ids' | |ids'| == k && Lists(ids', indices.value, 0, n)
        ensures ids' == ids
      {
        ListIsAscending(ids', indices.value, 0, n);
      }
      if 1 <= k <= n {
        ListedBelow(ids, indices.value, n);
        OpensMeans(labelHash, merkleHash, proof, ids);
      } else if k == 0 {
        NothingOpens(labelHash, merkleHash, indices.value, proof, n);
      }
    }
  }

  lemma ListedBelow(ids: seq<nat>, S: set<nat>, n: nat)
    requires Lists(ids, S, 0, n)
    ensures forall i | 0 <= i < |ids| :: ids[i] < n
  {
    assert forall i | 0 <= i < |ids| :: ids[i] in ids;
  }

  lemma NothingOpens(labelHash: Bytes -> Node, merkleHash: MerkleHash, S: set<nat>, proof: WireProof, n: nat)
    requires |Ascending(S, 0, n)| == |proof.provenLeaves| && Ascending(S, 0, n) == []
    ensures !AcceptsOpening(labelHash, merkleHash, Opening(S, proof, n), proof)
  {
    hide Ascending, Climb;
  }

  // ---------------------------------------------------------------------------------------------
  // Binding.

  /** The pairs hashed when checking an accepted proof, in order. */
  ghost function HashedPairs(labelHash: Bytes -> Node, merkleHash: MerkleHash, sha: Bytes -> Node, proof: WireProof,
                             n: nat, k: nat): seq<(Bytes, Bytes)>
    requires AcceptsWire(labelHash, merkleHash, sha, proof, n, k)
  {
    var leaves := Opening(FiatShamir.Indices(sha, proof.root, n, k).value, proof, n);
    Hashed(OnBytes(merkleHash), Start(leaves, proof.proofNodes), None)
  }

  lemma BindsOpening(labelHash: Bytes -> Node, merkleHash: MerkleHash, a: WireProof, b: WireProof,
                     la: seq<(nat, Bytes)>, lb: seq<(nat, Bytes)>)
    requires AcceptsOpening(labelHash, merkleHash, la, a) && AcceptsOpening(labelHash, merkleHash, lb, b)
    requires SameIndices(la, lb) && a.root == b.root && |a.proofNodes| == |b.proofNodes|
    requires CollisionFree(OnBytes(merkleHash), Hashed(OnBytes(merkleHash), Start(la, a.proofNodes), None),
                           Hashed(OnBytes(merkleHash), Start(lb, b.proofNodes), None))
    ensures la == lb && a.proofNodes == b.proofNodes
  {
    hide CollisionFree, Climb, Hashed, LabelFits;
    var m := OnBytes(merkleHash);
    ClimbCountsLeaves(m, Start(la, a.proofNodes), None);
    ClimbCountsLeaves(m, Start(lb, b.proofNodes), None);
    ClimbBinds(m, Start(la, a.proofNodes), Start(lb, b.proofNodes), None);
    FirstsAndRests(la, lb);
  }

  /** Two accepted proofs for one root and leaf count show a collision of the Merkle hash, or they are the same proof
      exactly if they have the same number of proof nodes. */
  lemma Binding(labelHash: Bytes -> Node, merkleHash: MerkleHash, sha: Bytes -> Node, a: WireProof, b: WireProof,
                n: nat, k: nat)
    requires AcceptsWire(labelHash, merkleHash, sha, a, n, k) && AcceptsWire(labelHash, merkleHash, sha, b, n, k)
    requires a.root == b.root
    ensures (exists i: nat :: Collision(OnBytes(merkleHash), HashedPairs(labelHash, merkleHash, sha, a, n, k),
                                        HashedPairs(labelHash, merkleHash, sha, b, n, k), i))
            || (a == b <==> |a.proofNodes| == |b.proofNodes|)
  {
    hide AcceptsOpening, Ascending, FiatShamir.Indices, Hashed;
    var S := FiatShamir.Indices(sha, a.root, n, k).value;
    var la, lb := Opening(S, a, n), Opening(S, b, n);
    if |a.proofNodes| == |b.proofNodes|
       && CollisionFree(OnBytes(merkleHash), HashedPairs(labelHash, merkleHash, sha, a, n, k),
                        HashedPairs(labelHash, merkleHash, sha, b, n, k)) {
      BindsOpening(labelHash, merkleHash, a, b, la, lb);
      forall i | 0 <= i < k
        ensures a.provenLeaves[i] == b.provenLeaves[i]
      {
        assert la[i] == lb[i];
      }
      assert a.provenLeaves == b.provenLeaves;
    }
  }

  /** The number of proof nodes that the challenge of a root calls for. */
  function ExpectedNodes(sha: Bytes -> Node, root: Bytes, n: nat, k: nat): nat {
    match FiatShamir.Indices(sha, root, n, k)
    case None => 0
    case Some(S) => NeededCount(S, Height(n), 0)
  }

  /** So a verifier that also counts the proof nodes accepts nothing but the honest proof of a root, unless shown a
      collision. */
  lemma OnlyTheHonestProof(labelHash: Bytes -> Node, merkleHash: MerkleHash, sha: Bytes -> Node, other: WireProof,
                           n: nat, k: nat)
    requires 1 <= k <= n && HonestProof(Salted(labelHash, merkleHash), sha, n, k).Some?
    requires AcceptsWire(labelHash, merkleHash, sha, other, n, k)
    requires other.root == Root(Salted(labelHash, merkleHash).Tree(), Leaves(Salted(labelHash, merkleHash), n))
    ensures var honest := Wire(HonestProof(Salted(labelHash, merkleHash), sha, n, k).value);
            && AcceptsWire(labelHash, merkleHash, sha, honest, n, k)
            && ((exists i: nat :: Collision(OnBytes(merkleHash), HashedPairs(labelHash, merkleHash, sha, honest, n, k),
                                            HashedPairs(labelHash, merkleHash, sha, other, n, k), i))
                || (honest == other <==> |other.proofNodes| == ExpectedNodes(sha, other.root, n, k)))
  {
    hide AcceptsWire, Accepts, HashedPairs, Root, Leaves, Reveal, Needed, Height, FiatShamir.Indices;
    var hf := Salted(labelHash, merkleHash);
    var honest := HonestProof(hf, sha, n, k).value;
    Completeness(hf, sha, n, k);
    AcceptsNodes(labelHash, merkleHash, sha, honest, n, k);
    Binding(labelHash, merkleHash, sha, Wire(honest), other, n, k);
    var S := FiatShamir.Indices(sha, other.root, n, k).value;
    NeededCountIsExact(PaddedTree(hf.Tree(), Leaves(hf, n)), S, Height(n), 0);
  }
}
