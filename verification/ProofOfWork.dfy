/** The proof of sequential work: what an honest proof is, which proofs the verifier accepts, and that every honest
    proof is accepted. */
module ProofOfWork {
  import opened MerkleTree
  import opened Labels
  import opened PartialProof
  import opened IncrementalTree
  import FiatShamir

  datatype MerkleProof = MerkleProof(root: Node, provenLeaves: seq<Node>, proofNodes: seq<Node>)

  // ---------------------------------------------------------------------------------------------
  // Reading nodes back from the layer caches.

  /** A node of the padded tree: from the cache of its layer if it is there, else computed from the layer below. */
  function ReadNode<T>(m: Hasher<T>, cache: map<nat, seq<T>>, n: nat, h: nat, i: nat): T
    decreases h
  {
    if h in cache && i < |cache[h]| then cache[h][i]
    else if h == 0 || i >= CeilShr(n, h) then m.pad
    else m.join(ReadNode(m, cache, n, h - 1, 2 * i), ReadNode(m, cache, n, h - 1, 2 * i + 1))
  }

  /** Whatever layers are cached besides the leaves, the nodes of the padded tree are read. */
  lemma {:induction false} ReadNodeIsPadNode<T>(m: Hasher<T>, cache: map<nat, seq<T>>, s: seq<T>, h: nat, i: nat)
    requires CacheHolds(m, cache, s) && 0 in cache
    ensures ReadNode(m, cache, |s|, h, i) == PadNode(m, s, h, i)
    decreases h
  {
    hide PadLayer;
    if h in cache && i < |cache[h]| {
      CompleteNodesSurvive(m, s, s, h);
    } else {
      PadLayerWidth(m, s, h);
      if h != 0 && i < CeilShr(|s|, h) {
        ReadNodeIsPadNode(m, cache, s, h - 1, 2 * i);
        ReadNodeIsPadNode(m, cache, s, h - 1, 2 * i + 1);
        PadNodeJoins(m, s, h - 1, i);
      }
    }
  }

  function Reader<T>(m: Hasher<T>, cache: map<nat, seq<T>>, n: nat): (nat, nat) -> T {
    (h: nat, i: nat) => ReadNode(m, cache, n, h, i)
  }

  function PaddedTree<T>(m: Hasher<T>, s: seq<T>): (nat, nat) -> T {
    (h: nat, i: nat) => PadNode(m, s, h, i)
  }

  lemma {:induction false} RevealsAlike<T>(a: (nat, nat) -> T, b: (nat, nat) -> T, S: set<nat>, h: nat, i: nat)
    requires forall h: nat, i: nat :: a(h, i) == b(h, i)
    ensures Reveal(a, S, h, i) == Reveal(b, S, h, i)
    decreases h
  {
    if h != 0 {
      RevealsAlike(a, b, S, h - 1, 2 * i);
      RevealsAlike(a, b, S, h - 1, 2 * i + 1);
    }
  }

  // ---------------------------------------------------------------------------------------------
  // Honest proofs.

  function Seconds<T>(leaves: seq<(nat, T)>): (r: seq<T>)
    ensures |r| == |leaves| && forall k | 0 <= k < |r| :: r[k] == leaves[k].1
  {
    if leaves == [] then [] else [leaves[0].1] + Seconds(leaves[1..])
  }

  /** The proof over given nodes for the leaves in S. */
  function ProofFor(root: Node, read: (nat, nat) -> Node, n: nat, S: set<nat>): MerkleProof {
    var t := Reveal(read, S, Height(n), 0);
    MerkleProof(root, Seconds(Opened(t)), Needed(t))
  }

  /** The proof after n leaves of sequential work; none if the challenge is never found. */
  function HonestProof(hf: Hashes, sha: Bytes -> Node, n: nat, k: nat): Option<MerkleProof>
    requires n > 0
  {
    var s := Leaves(hf, n);
    var root := Root(hf.Tree(), s);
    match FiatShamir.Indices(sha, root, n, k)
    case None => None
    case Some(S) => Some(ProofFor(root, PaddedTree(hf.Tree(), s), n, S))
  }

  // ---------------------------------------------------------------------------------------------
  // Verification.

  /** The members of S from a up to b, in ascending order. */
  function Ascending(S: set<nat>, a: nat, b: nat): seq<nat>
    decreases b - a
  {
    if a >= b then [] else (if a in S then [a] else []) + Ascending(S, a + 1, b)
  }

  function Zip<T>(js: seq<nat>, values: seq<T>): (r: seq<(nat, T)>)
    requires |js| == |values|
    ensures |r| == |js| && forall k | 0 <= k < |r| :: r[k] == (js[k], values[k])
  {
    if js == [] then [] else [(js[0], values[0])] + Zip(js[1..], values[1..])
  }

  /** Every proven leaf is the label of its index and of what was parked when it was added. */
  ghost predicate LabelsFit(hf: Hashes, leaves: seq<(nat, Node)>, snaps: seq<seq<Option<Node>>>) {
    && |snaps| == |leaves|
    && forall k | 0 <= k < |leaves| :: leaves[k].1 == hf.leafLabel(leaves[k].0, NonEmpty(snaps[k]))
  }

  ghost predicate AcceptsLeaves(hf: Hashes, proof: MerkleProof, leaves: seq<(nat, Node)>) {
    && leaves != []
    && var end := Climb(hf.Tree(), Start(leaves, proof.proofNodes), None);
       end.node == proof.root && LabelsFit(hf, leaves, end.snaps)
  }

  /** What the verifier accepts. */
  ghost predicate Accepts(hf: Hashes, sha: Bytes -> Node, proof: MerkleProof, n: nat, k: nat) {
    && |proof.provenLeaves| == k
    && match FiatShamir.Indices(sha, proof.root, n, k)
       case None => false
       case Some(S) =>
         var js := Ascending(S, 0, n);
         |js| == k && AcceptsLeaves(hf, proof, Zip(js, proof.provenLeaves))
  }

  // ---------------------------------------------------------------------------------------------
  // Completeness.

  function Firsts<T>(leaves: seq<(nat, T)>): (r: seq<nat>)
    ensures |r| == |leaves| && forall k | 0 <= k < |r| :: r[k] == leaves[k].0
  {
    if leaves == [] then [] else [leaves[0].0] + Firsts(leaves[1..])
  }

  lemma {:induction false} AscendingSplit(S: set<nat>, a: nat, b: nat, c: nat)
    requires a <= b <= c
    ensures Ascending(S, a, c) == Ascending(S, a, b) + Ascending(S, b, c)
    decreases b - a
  {
    if a < b {
      AscendingSplit(S, a + 1, b, c);
    }
  }

  lemma {:induction false} AscendingBeyond(S: set<nat>, a: nat, b: nat)
    requires forall j | j in S :: j < a
    ensures Ascending(S, a, b) == []
    decreases b - a
  {
    if a < b {
      AscendingBeyond(S, a + 1, b);
    }
  }

  lemma OpenedOfFork<T>(read: (nat, nat) -> T, S: set<nat>, h: nat, i: nat)
    requires h > 0
    ensures Firsts(Opened(Reveal(read, S, h, i)))
            == Firsts(Opened(Reveal(read, S, h - 1, 2 * i))) + Firsts(Opened(Reveal(read, S, h - 1, 2 * i + 1)))
  {
    var t, l, r := Reveal(read, S, h, i), Reveal(read, S, h - 1, 2 * i), Reveal(read, S, h - 1, 2 * i + 1);
    assert t == if l.Cut? && r.Cut? then Cut(read(h, i)) else Fork(l, r);
    hide Reveal;
    assert Opened(t) == Opened(l) + Opened(r);
  }

  lemma OpenedOfLeaf<T>(read: (nat, nat) -> T, S: set<nat>, i: nat)
    ensures Firsts(Opened(Reveal(read, S, 0, i))) == Ascending(S, i, i + 1)
  {
    assert Ascending(S, i + 1, i + 1) == [];
  }

  /** A proof opens its leaves in ascending order. */
  lemma {:induction false} OpenedAscending<T>(read: (nat, nat) -> T, S: set<nat>, h: nat, i: nat, lo: nat, hi: nat)
    requires lo == Shl(i, h) && hi == Shl(i + 1, h)
    ensures Firsts(Opened(Reveal(read, S, h, i))) == Ascending(S, lo, hi)
    decreases h
  {
    hide Reveal, Opened;
    if h == 0 {
      OpenedOfLeaf(read, S, i);
    } else {
      var mid := Shl(2 * i + 1, h - 1);
      OpenedAscending(read, S, h - 1, 2 * i, lo, mid);
      OpenedAscending(read, S, h - 1, 2 * i + 1, mid, hi);
      OpenedOfFork(read, S, h, i);
      ShlMonotone(2 * i, 2 * i + 1, h - 1);
      ShlMonotone(2 * i + 1, 2 * i + 2, h - 1);
      AscendingSplit(S, lo, mid, hi);
    }
  }

  lemma {:induction false} HeightSuffices(n: nat)
    ensures n <= Shl(1, Height(n))
  {
    if n > 1 {
      HeightSuffices((n + 1) / 2);
      ShlDoubles(1, Height((n + 1) / 2));
    }
  }

  lemma ProofOpensAscending<T>(read: (nat, nat) -> T, S: set<nat>, n: nat)
    requires forall j | j in S :: j < n
    ensures Firsts(Opened(Reveal(read, S, Height(n), 0))) == Ascending(S, 0, n)
  {
    var R := Height(n);
    OpenedAscending(read, S, R, 0, Shl(0, R), Shl(1, R));
    ShlOfZero(R);
    HeightSuffices(n);
    AscendingSplit(S, 0, n, Shl(1, R));
    AscendingBeyond(S, n, Shl(1, R));
  }

  /** Entry h, where entries past the end count as empty. */
  function Entry<T>(a: seq<Option<T>>, h: nat): Option<T> {
    if h < |a| then a[h] else None
  }

  lemma {:induction false} NonEmptyIgnoresTrailing<T>(a: seq<Option<T>>, b: seq<Option<T>>)
    requires forall h: nat | h < |a| || h < |b| :: Entry(a, h) == Entry(b, h)
    ensures NonEmpty(a) == NonEmpty(b)
    decreases |a| + |b|
  {
    if a != [] || b != [] {
      var a', b' := if a == [] then [] else a[1..], if b == [] then [] else b[1..];
      assert Entry(a, 0) == Entry(b, 0);
      forall h: nat | h < |a'| || h < |b'|
        ensures Entry(a', h) == Entry(b', h)
      {
        assert Entry(a, h + 1) == Entry(b, h + 1);
      }
      NonEmptyIgnoresTrailing(a', b');
    }
  }

  lemma NoSiblingAboveRoot<T>(read: (nat, nat) -> T, n: nat, j: nat, h: nat)
    requires j < n && h >= Height(n)
    ensures LeftSibling(read, j, h).None?
  {
    HeightCovers(n);
    LeafIsUnderPadLayer(n, j, Height(n));
    ShrShr(j, Height(n), h - Height(n));
    ShrZero(h - Height(n));
  }

  lemma ParkedSurvive<T>(m: Hasher<T>, a: seq<T>, s: seq<T>, h: nat)
    requires a <= s
    ensures Entry(Parked(m, a), h) == LeftSibling(PaddedTree(m, s), |a|, h)
  {
    hide Parked, Layer, PadLayer, Shr, Up;
    var l, i := Layer(m, a, h), Shr(|a|, h);
    ParkedAt(m, a, h);
    LayerWidth(m, a, h);
    CompleteNodesSurvive(m, a, s, h);
    if i % 2 == 1 {
      assert PadNode(m, s, h, i - 1) == l[i - 1];
    }
  }

  /** The snapshot of leaf |a| in the final padded tree is what was parked when it was added. */
  lemma SnapshotIsParked<T>(m: Hasher<T>, a: seq<T>, s: seq<T>, snap: seq<Option<T>>)
    requires a < s && |snap| == Height(|s|) && IsSnapshot(PaddedTree(m, s), |a|, snap)
    ensures NonEmpty(snap) == NonEmpty(Parked(m, a))
  {
    var p := Parked(m, a);
    forall h: nat | h < |snap| || h < |p|
      ensures Entry(snap, h) == Entry(p, h)
    {
      ParkedSurvive(m, a, s, h);
      if h >= |snap| {
        NoSiblingAboveRoot(PaddedTree(m, s), |s|, |a|, h);
      }
    }
    NonEmptyIgnoresTrailing(snap, p);
  }

  lemma {:induction false} LeafIsLabel(hf: Hashes, n: nat, j: nat)
    requires j < n
    ensures Leaves(hf, j) <= Leaves(hf, n)
    ensures Leaves(hf, n)[j] == hf.leafLabel(j, NonEmpty(Parked(hf.Tree(), Leaves(hf, j))))
    decreases n
  {
    LeavesPrefix(hf, j, n);
    LeavesPrefix(hf, j + 1, n);
  }

  /** The verifier accepts every honest proof of at least k leaves. */
  lemma Completeness(hf: Hashes, sha: Bytes -> Node, n: nat, k: nat)
    requires 1 <= k <= n && HonestProof(hf, sha, n, k).Some?
    ensures Accepts(hf, sha, HonestProof(hf, sha, n, k).value, n, k)
  {
    hide Parked, Leaves, Climb, Reveal, Ascending, PadNode, Root, Height, Opened, Needed;
    var m, s := hf.Tree(), Leaves(hf, n);
    var read := PaddedTree(m, s);
    var S := FiatShamir.Indices(sha, Root(m, s), n, k).value;
    FiatShamir.IndicesAreExact(sha, Root(m, s), n, k);
    var proof := HonestProof(hf, sha, n, k).value;
    var t := Reveal(read, S, Height(n), 0);
    ProofLeadsToRoot(m, s, read, S);
    ProofOpensAscending(read, S, n);
    AscendingCount(S, 0, n);
    assert Zip(Ascending(S, 0, n), proof.provenLeaves) == Opened(t);
    OpenedFit(hf, n, Opened(t), Climb(m, Start(Opened(t), Needed(t)), None).snaps);
  }

  lemma OpenedFit(hf: Hashes, n: nat, leaves: seq<(nat, Node)>, snaps: seq<seq<Option<Node>>>)
    requires var read := PaddedTree(hf.Tree(), Leaves(hf, n));
             && SnapshotsFit(read, leaves, snaps, Height(n))
             && forall o | o in leaves :: o.0 < n && o.1 == read(0, o.0)
    ensures LabelsFit(hf, leaves, snaps)
  {
    var m, s := hf.Tree(), Leaves(hf, n);
    forall k | 0 <= k < |leaves|
      ensures leaves[k].1 == hf.leafLabel(leaves[k].0, NonEmpty(snaps[k]))
    {
      assert leaves[k] in leaves;
      var j := leaves[k].0;
      LeafIsLabel(hf, n, j);
      SnapshotIsParked(m, Leaves(hf, j), s, snaps[k]);
      assert PadNode(m, s, 0, j) == s[j];
    }
  }

  lemma {:induction false} AscendingCount(S: set<nat>, a: nat, b: nat)
    requires a <= b && forall j | j in S :: a <= j < b
    ensures |Ascending(S, a, b)| == |S|
    decreases b - a
  {
    if a < b {
      var S' := S - {a};
      AscendingCount(S', a + 1, b);
      AscendingIgnores(S, S', a + 1, b);
    } else {
      assert S == {};
    }
  }

  lemma {:induction false} AscendingIgnores(S: set<nat>, S': set<nat>, a: nat, b: nat)
    requires forall j | a <= j :: j in S <==> j in S'
    ensures Ascending(S, a, b) == Ascending(S', a, b)
    decreases b - a
  {
    if a < b {
      AscendingIgnores(S, S', a + 1, b);
    }
  }
}
