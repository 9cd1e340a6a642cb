/** Leaf labels: the bytes they hash, the leaves the sequential work produces, and the labelled DAG of
    "Simple Proofs of Sequential Work" (IACR ePrint 2018/183, section 4) that they have to realise. */
module Labels {
  import opened MerkleTree

  type Byte = b: nat | b < 256
  type Bytes = seq<Byte>

  const NODE_SIZE: nat := 32

  function Zeros(n: nat): (b: Bytes)
    ensures |b| == n
  {
    if n == 0 then [] else [0] + Zeros(n - 1)
  }

  /** A digest: leaf label or inner node. */
  type Node = b: Bytes | |b| == NODE_SIZE witness Zeros(NODE_SIZE)

  /** What stands for a missing right child. */
  const PADDING: Node := Zeros(NODE_SIZE)

  /** The two functions that a statement salts: how a leaf is labelled from its index and its left siblings, and
      how two children are hashed. */
  datatype Hashes = Hashes(leafLabel: (nat, seq<Node>) -> Node, merkleHash: (Node, Node) -> Node)
  {
    function Tree(): Hasher<Node> {
      Hasher(merkleHash, PADDING)
    }
  }

  /** The last n digits of x in base 256, most significant first. */
  function BigEndian(x: nat, n: nat): (b: Bytes)
    ensures |b| == n
    decreases n
  {
    if n == 0 then [] else BigEndian(x / 256, n - 1) + [x % 256]
  }

  /** The 64-bit big-endian representation. */
  function BE64(x: nat): (b: Bytes)
    ensures |b| == 8
  {
    BigEndian(x, 8)
  }

  /** The number a big-endian byte string stands for. */
  function Number(b: Bytes): nat {
    if b == [] then 0 else Number(b[..|b| - 1]) * 256 + b[|b| - 1]
  }

  function Power256(n: nat): nat {
    if n == 0 then 1 else 256 * Power256(n - 1)
  }

  /** The big-endian digits of a number stand for it … */
  lemma {:induction false} NumberOfDigits(x: nat, n: nat)
    requires x < Power256(n)
    ensures Number(BigEndian(x, n)) == x
    decreases n
  {
    if n > 0 {
      NumberOfDigits(x / 256, n - 1);
      var b := BigEndian(x, n);
      assert b[..n - 1] == BigEndian(x / 256, n - 1);
    }
  }

  /** … and no other byte string of their length does. */
  lemma {:induction false} DigitsOfNumber(b: Bytes)
    ensures BigEndian(Number(b), |b|) == b && Number(b) < Power256(|b|)
  {
    if b != [] {
      var front, last: nat := b[..|b| - 1], b[|b| - 1];
      DigitsOfNumber(front);
      assert Number(b) == Number(front) * 256 + last;
      assert Number(b) / 256 == Number(front) && Number(b) % 256 == last;
      assert b == front + [b[|b| - 1]];
    }
  }

  lemma FourAndEightBytes()
    ensures Power256(4) == 0x1_0000_0000 && Power256(8) == 0x1_0000_0000_0000_0000
  {
  }

  /** A leaf number is represented by the one string of eight bytes that stands for it. */
  lemma LeafNumber(x: nat)
    ensures x < 0x1_0000_0000_0000_0000 ==> Number(BE64(x)) == x
    ensures forall c: Bytes | |c| == 8 && Number(c) == x :: c == BE64(x)
  {
    hide Number, BigEndian, Power256;
    FourAndEightBytes();
    if x < 0x1_0000_0000_0000_0000 {
      NumberOfDigits(x, 8);
    }
    forall c: Bytes | |c| == 8 && Number(c) == x
      ensures c == BE64(x)
    {
      DigitsOfNumber(c);
    }
  }

  function Flatten(parts: seq<Bytes>): Bytes {
    if parts == [] then [] else parts[0] + Flatten(parts[1..])
  }

  function NonEmpty<T>(parked: seq<Option<T>>): seq<T> {
    if parked == [] then []
    else AsSeq(parked[0]) + NonEmpty(parked[1..])
  }

  /** The labelling by a hash function on bytes: the index in 64 bits, then the siblings. */
  function Labelling(hash: Bytes -> Node): (nat, seq<Node>) -> Node {
    (id, siblings) => hash(BE64(id) + Flatten(siblings))
  }

  /** The label of leaf id hashes the eight bytes that stand for id, followed by the siblings. */
  lemma LabelOfLeaf(hash: Bytes -> Node, id: nat, siblings: seq<Node>, c: Bytes)
    requires |c| == 8 && Number(c) == id
    ensures Labelling(hash)(id, siblings) == hash(c + Flatten(siblings))
  {
    hide Number, BE64;
    LeafNumber(id);
  }

  /** The first n leaves of the sequential work: each label hashes what the tree parks when it is added. */
  function Leaves(hf: Hashes, n: nat): (s: seq<Node>)
    ensures |s| == n
  {
    if n == 0 then []
    else
      var s := Leaves(hf, n - 1);
      s + [hf.leafLabel(n - 1, NonEmpty(Parked(hf.Tree(), s)))]
  }

  lemma {:induction false} LeavesPrefix(hf: Hashes, a: nat, b: nat)
    requires a <= b
    ensures Leaves(hf, a) <= Leaves(hf, b)
    decreases b
  {
    hide Parked, NonEmpty;
    if a < b {
      LeavesPrefix(hf, a, b - 1);
    }
  }

  // ---------------------------------------------------------------------------------------------
  // The labelled DAG. Node (h, i) is the i-th node of height h, so leaf i is (0, i), the children of (h, i) are
  // (h - 1, 2 i) and (h - 1, 2 i + 1), and a node is a right child iff its index is odd.

  type Labelled = (nat, nat) -> Node

  /** The labels of the left siblings on the path from (h, i) to the root, bottom-up. */
  function LeftSiblings(dag: Labelled, h: nat, i: nat): seq<Node>
    decreases i
  {
    if i == 0 then []
    else
      var up := LeftSiblings(dag, h + 1, i / 2);
      if i % 2 == 1 then [dag(h, i - 1)] + up else up
  }

  /** The equations of the DAG: an inner label hashes the two children, a leaf label hashes its index and the labels
      of all left siblings on its path to the root. */
  ghost predicate IsDag(hf: Hashes, dag: Labelled) {
    && (forall i: nat :: dag(0, i) == hf.leafLabel(i, LeftSiblings(dag, 0, i)))
    && (forall h: nat, i: nat :: dag(h + 1, i) == hf.merkleHash(dag(h, 2 * i), dag(h, 2 * i + 1)))
  }

  ghost predicate IsLayerOf(dag: Labelled, s: seq<Node>, h: nat) {
    forall j: nat | j < |s| :: s[j] == dag(h, j)
  }

  lemma UpInDag(hf: Hashes, dag: Labelled, s: seq<Node>, h: nat)
    requires IsDag(hf, dag) && IsLayerOf(dag, s, h)
    ensures IsLayerOf(dag, Up(hf.Tree(), s), h + 1)
  {
    forall j: nat | j < |s| / 2
      ensures Up(hf.Tree(), s)[j] == dag(h + 1, j)
    {
      UpAt(hf.Tree(), s, j);
    }
  }

  lemma {:induction false} LayerInDag(hf: Hashes, dag: Labelled, s: seq<Node>, h: nat, k: nat)
    requires IsDag(hf, dag) && IsLayerOf(dag, s, h)
    ensures IsLayerOf(dag, Layer(hf.Tree(), s, k), h + k)
    decreases k
  {
    if k != 0 {
      UpInDag(hf, dag, s, h);
      LayerInDag(hf, dag, Up(hf.Tree(), s), h + 1, k - 1);
    }
  }

  /** What a tree parks is, bottom-up, the left siblings on the path of the next node of its bottom layer. */
  lemma {:induction false} ParkedAreLeftSiblings(hf: Hashes, dag: Labelled, s: seq<Node>, h: nat)
    requires IsDag(hf, dag) && IsLayerOf(dag, s, h)
    ensures NonEmpty(Parked(hf.Tree(), s)) == LeftSiblings(dag, h, |s|)
    decreases |s|
  {
    var p := Parked(hf.Tree(), s);
    UpInDag(hf, dag, s, h);
    if |s| > 1 {
      ParkedAreLeftSiblings(hf, dag, Up(hf.Tree(), s), h + 1);
      assert p[1..] == Parked(hf.Tree(), Up(hf.Tree(), s));
    } else {
      assert p[1..] == [];
      assert LeftSiblings(dag, h + 1, 0) == [];
    }
  }

  lemma {:induction false} LeavesInDag(hf: Hashes, dag: Labelled, n: nat)
    requires IsDag(hf, dag)
    ensures IsLayerOf(dag, Leaves(hf, n), 0)
    decreases n
  {
    hide Parked, NonEmpty, LeftSiblings;
    if n > 0 {
      LeavesInDag(hf, dag, n - 1);
      ParkedAreLeftSiblings(hf, dag, Leaves(hf, n - 1), 0);
    }
  }

  lemma TreeInDag(hf: Hashes, dag: Labelled, s: seq<Node>, h: nat)
    requires IsDag(hf, dag) && IsLayerOf(dag, s, 0)
    ensures IsLayerOf(dag, Layer(hf.Tree(), s, h), h)
    ensures NonEmpty(Parked(hf.Tree(), s)) == LeftSiblings(dag, 0, |s|)
  {
    hide Parked, NonEmpty, LeftSiblings, Layer;
    LayerInDag(hf, dag, s, 0, h);
    ParkedAreLeftSiblings(hf, dag, s, 0);
  }

  /** The incremental prover realises the DAG: every leaf and every inner node carries its label, and the nodes
      parked when leaf n is added are exactly the left siblings on its path. */
  lemma WorkRefinesDag(hf: Hashes, dag: Labelled, n: nat, h: nat)
    requires IsDag(hf, dag)
    ensures IsLayerOf(dag, Layer(hf.Tree(), Leaves(hf, n), h), h)
    ensures NonEmpty(Parked(hf.Tree(), Leaves(hf, n))) == LeftSiblings(dag, 0, n)
  {
    LeavesInDag(hf, dag, n);
    TreeInDag(hf, dag, Leaves(hf, n), h);
  }

  // There is exactly one such labelling: the label of (h, i) only needs those of leaves before (i + 1) << h.

  /** a << h */
  function Shl(a: nat, h: nat): nat
    decreases h
  {
    if h == 0 then a else Shl(2 * a, h - 1)
  }

  lemma {:induction false} ShlMonotone(a: nat, b: nat, h: nat)
    requires a <= b
    ensures Shl(a, h) <= Shl(b, h)
    ensures a < b ==> Shl(a, h) < Shl(b, h)
    decreases h
  {
    if h != 0 {
      ShlMonotone(2 * a, 2 * b, h - 1);
    }
  }

  lemma {:induction false} ShlDoubles(a: nat, h: nat)
    ensures Shl(2 * a, h) == 2 * Shl(a, h)
    decreases h
  {
    if h != 0 {
      ShlDoubles(2 * a, h - 1);
    }
  }

  lemma {:induction false} ShlOfZero(h: nat)
    ensures Shl(0, h) == 0
  {
    if h != 0 {
      ShlOfZero(h - 1);
    }
  }

  lemma {:induction false} ShiftedOut(b: nat, s: nat)
    ensures Shr(b, s) == 0 <==> b < Shl(1, s)
    decreases s
  {
    if s > 0 {
      ShiftedOut(b / 2, s - 1);
      ShlDoubles(1, s - 1);
    }
  }

  lemma {:induction false} ShlGrows(r: nat, r': nat)
    requires r <= r'
    ensures Shl(1, r) <= Shl(1, r') && Shl(1, r) >= 1
    decreases r'
  {
    if r < r' {
      ShlDoubles(1, r' - 1);
      ShlGrows(r, r' - 1);
    } else if r > 0 {
      ShlDoubles(1, r - 1);
      ShlGrows(r - 1, r - 1);
    }
  }

  function NodeLabel(hf: Hashes, h: nat, i: nat): Node
    decreases Shl(i + 1, h), 0, h
  {
    if h == 0 then hf.leafLabel(i, SiblingLabels(hf, 0, i))
    else
      ShlMonotone(2 * i + 1, 2 * i + 2, h - 1);
      hf.merkleHash(NodeLabel(hf, h - 1, 2 * i), NodeLabel(hf, h - 1, 2 * i + 1))
  }

  function SiblingLabels(hf: Hashes, h: nat, i: nat): seq<Node>
    decreases Shl(i, h), 1, i
  {
    if i == 0 then []
    else
      ShlMonotone(2 * (i / 2), i, h);
      assert Shl(i / 2, h + 1) == Shl(2 * (i / 2), h);
      var up := SiblingLabels(hf, h + 1, i / 2);
      if i % 2 == 1 then [NodeLabel(hf, h, i - 1)] + up else up
  }

  function Dag(hf: Hashes): Labelled {
    (h, i) => NodeLabel(hf, h, i)
  }

  lemma {:induction false} SiblingLabelsAre(hf: Hashes, h: nat, i: nat)
    ensures SiblingLabels(hf, h, i) == LeftSiblings(Dag(hf), h, i)
    decreases i
  {
    if i != 0 {
      SiblingLabelsAre(hf, h + 1, i / 2);
    }
  }

  lemma DagExists(hf: Hashes)
    ensures IsDag(hf, Dag(hf))
  {
    forall i: nat
      ensures Dag(hf)(0, i) == hf.leafLabel(i, LeftSiblings(Dag(hf), 0, i))
    {
      SiblingLabelsAre(hf, 0, i);
    }
  }

  lemma {:induction false} ShlThenShr(a: nat, h: nat)
    ensures Shr(Shl(a, h), h) == a
    decreases h
  {
    if h != 0 {
      ShlThenShr(2 * a, h - 1);
      ShrShr(Shl(a, h), h - 1, 1);
      assert Shr(2 * a, 1) == Shr(a, 0);
    }
  }

  lemma DagIsUnique(hf: Hashes, dag: Labelled, h: nat, i: nat)
    requires IsDag(hf, dag)
    ensures dag(h, i) == Dag(hf)(h, i)
  {
    hide IsDag, Dag, Shl, Shr, Leaves, Layer;
    var n := Shl(i + 1, h);
    DagExists(hf);
    WorkRefinesDag(hf, dag, n, h);
    WorkRefinesDag(hf, Dag(hf), n, h);
    LayerWidth(hf.Tree(), Leaves(hf, n), h);
    ShlThenShr(i + 1, h);
  }

  // ---------------------------------------------------------------------------------------------

  /** Parked nodes as the byte slices they are stored in: an empty slice for none. */
  function AsSlices(snap: seq<Option<Bytes>>): (r: seq<Bytes>)
    ensures |r| == |snap|
  {
    if snap == [] then []
    else [match snap[0] case None => [] case Some(b) => b] + AsSlices(snap[1..])
  }

  lemma {:induction false} SlicesFlatten(snap: seq<Option<Bytes>>)
    ensures Flatten(AsSlices(snap)) == Flatten(NonEmpty(snap))
  {
    if snap != [] {
      SlicesFlatten(snap[1..]);
      var first := match snap[0] case None => [] case Some(b) => b;
      assert AsSlices(snap)[0] == first && AsSlices(snap)[1..] == AsSlices(snap[1..]);
      if snap[0].Some? {
        var ne := NonEmpty(snap);
        assert ne == [snap[0].value] + NonEmpty(snap[1..]);
        assert ne[0] == snap[0].value && ne[1..] == NonEmpty(snap[1..]);
      } else {
        assert NonEmpty(snap) == NonEmpty(snap[1..]);
      }
    }
  }

  function Prefix(b: Bytes, n: nat): (r: Bytes)
    ensures |r| <= n
  {
    if |b| <= n then b else b[..n]
  }

  function Max(a: nat, b: nat): nat {
    if a < b then b else a
  }

  /** The space that the label function reserves for that many siblings. */
  function Space(siblings: nat): nat {
    8 + siblings * NODE_SIZE
  }

  /** The label function with its reused buffer. */
  class LabelMaker {
    var buffer: array<Byte>

    constructor ()
      ensures fresh(buffer) && buffer.Length == 0
    {
      buffer := new Byte[0];
    }

    /** Copies data to the buffer behind its first offset bytes, as far as there is room. */
    method Copy(offset: nat, data: Bytes) returns (copied: nat)
      requires offset <= buffer.Length
      modifies buffer
      ensures copied == |Prefix(data, buffer.Length - offset)|
      ensures buffer[..offset + copied] == old(buffer[..offset]) + Prefix(data, buffer.Length - offset)
    {
      copied := if |data| <= buffer.Length - offset then |data| else buffer.Length - offset;
      forall k | 0 <= k < copied {
        buffer[offset + k] := data[k];
      }
    }

    /** Whatever earlier calls left in the buffer, the identifier followed by the siblings is hashed, cut to the buffer.
        The buffer is the largest that any call needed for siblings of 32 bytes. */
    method Make(hash: Bytes -> Node, id: nat, siblings: seq<Bytes>) returns (sum: Node)
      modifies this, buffer
      ensures buffer.Length == Max(old(buffer.Length), 8 + |siblings| * 32)
      ensures sum == hash(Prefix(BE64(id) + Flatten(siblings), buffer.Length))
      ensures forall c: Bytes | |c| == 8 && Number(c) == id :: sum == hash(Prefix(c + Flatten(siblings), buffer.Length))
      ensures buffer == old(buffer) || fresh(buffer)
    {
      hide Flatten, Prefix, BE64, Zeros, Number;
      LeafNumber(id);
      if buffer.Length < Space(|siblings|) {
        buffer := new Byte[Space(|siblings|)];
      }
      ghost var room := buffer.Length;
      ghost var all: Bytes := BE64(id);
      ghost var goal := BE64(id) + Flatten(siblings);
      PrefixOfShort(all, room);
      var offset: nat := Copy(0, BE64(id));
      assert siblings[0..] == siblings;
      for i := 0 to |siblings|
        invariant buffer.Length == room && (buffer == old(buffer) || fresh(buffer))
        invariant offset <= room && buffer[..offset] == Prefix(all, room)
        invariant all + Flatten(siblings[i..]) == goal
      {
        var copied := Copy(offset, siblings[i]);
        FlattenNext(all, siblings, i);
        PrefixNext(all, siblings[i], room);
        all := all + siblings[i];
        offset := offset + copied;
      }
      NothingLeft(all, siblings);
      sum := hash(buffer[..offset]);
    }

    /** What is not parked leaves no trace in the label. */
    method MakeLabel(hash: Bytes -> Node, id: nat, parked: seq<Option<Bytes>>) returns (leaf: Node)
      modifies this, buffer
      ensures buffer.Length == Max(old(buffer.Length), Space(|parked|))
      ensures leaf == hash(Prefix(BE64(id) + Flatten(NonEmpty(parked)), buffer.Length))
      ensures forall c: Bytes | |c| == 8 && Number(c) == id ::
                leaf == hash(Prefix(c + Flatten(NonEmpty(parked)), buffer.Length))
      ensures buffer == old(buffer) || fresh(buffer)
    {
      hide Number, BE64;
      SlicesFlatten(parked);
      leaf := Make(hash, id, AsSlices(parked));
    }
  }

  lemma PrefixOfShort(b: Bytes, n: nat)
    requires |b| <= n
    ensures Prefix(b, n) == b
  {
  }

  lemma PrefixNext(b: Bytes, c: Bytes, n: nat)
    ensures Prefix(b + c, n) == Prefix(b, n) + Prefix(c, n - |Prefix(b, n)|)
  {
  }

  lemma NothingLeft(all: Bytes, parts: seq<Bytes>)
    ensures all + Flatten(parts[|parts|..]) == all
  {
  }

  lemma {:induction false} FlattenBound(parts: seq<Node>)
    ensures |Flatten(parts)| == |parts| * NODE_SIZE
  {
    if parts != [] {
      FlattenBound(parts[1..]);
    }
  }

  lemma {:induction false} NonEmptyIsNotLonger<T>(snap: seq<Option<T>>)
    ensures |NonEmpty(snap)| <= |snap|
  {
    if snap != [] {
      NonEmptyIsNotLonger(snap[1..]);
    }
  }

  lemma {:induction false} NonEmptyOfNodes(snap: seq<Option<Node>>)
    ensures NonEmpty<Bytes>(snap) == NonEmpty<Node>(snap)
  {
    if snap != [] {
      NonEmptyOfNodes(snap[1..]);
    }
  }

  /** Nodes of 32 bytes are never cut. */
  lemma NodesAreNotCut(id: nat, snap: seq<Option<Node>>, room: nat)
    requires room >= Space(|snap|)
    ensures var input := BE64(id) + Flatten(NonEmpty(snap)); Prefix(input, room) == input
    ensures NonEmpty<Bytes>(snap) == NonEmpty<Node>(snap)
  {
    NonEmptyOfNodes(snap);
    NonEmptyIsNotLonger(snap);
    FlattenBound(NonEmpty<Node>(snap));
  }

  lemma FlattenNext(written: Bytes, parts: seq<Bytes>, i: nat)
    requires i < |parts|
    ensures written + Flatten(parts[i..]) == (written + parts[i]) + Flatten(parts[i + 1..])
  {
    assert parts[i..][1..] == parts[i + 1..];
  }
}
