/** Merkle proofs for a set of leaves: which nodes a proof holds, how a verifier climbs from the proven leaves to
    the root while recording what was parked at each of them, and why the two fit together. */
module PartialProof {
  import opened MerkleTree

  function Sibling(i: nat): nat {
    if i % 2 == 0 then i + 1 else i - 1
  }

  /** A verifier on its way up: the node it holds, its position, the parking snapshots of the leaves passed so
      far (bottom-up), and the proven leaves and proof nodes it has not used yet. */
  datatype Walk<+T> = Walk(index: nat, height: nat, node: T, snaps: seq<seq<Option<T>>>,
                          leaves: seq<(nat, T)>, proof: seq<T>)

  function AddToAll<T>(snaps: seq<seq<Option<T>>>, x: Option<T>): (r: seq<seq<Option<T>>>)
    ensures |r| == |snaps|
  {
    if snaps == [] then [] else [snaps[0] + [x]] + AddToAll(snaps[1..], x)
  }

  function Start<T>(leaves: seq<(nat, T)>, proof: seq<T>): Walk<T>
    requires leaves != []
  {
    Walk(leaves[0].0, 0, leaves[0].1, [[]], leaves[1..], proof)
  }

  function Pair<T>(w: Walk<T>, sibling: T): (T, T) {
    if w.index % 2 == 1 then (sibling, w.node) else (w.node, sibling)
  }

  /** One layer up, with the sibling and the snapshots of the leaves under it. */
  function Merge<T>(m: Hasher<T>, w: Walk<T>, sibling: T, below: seq<seq<Option<T>>>,
                    leaves: seq<(nat, T)>, proof: seq<T>): Walk<T> {
    var (l, r) := Pair(w, sibling);
    Walk(w.index / 2, w.height + 1, m.join(l, r),
         AddToAll(w.snaps, if w.index % 2 == 1 then Some(sibling) else None) + AddToAll(below, Some(w.node)),
         leaves, proof)
  }

  /** Where a climb ends. The sibling is climbed to when it is an ancestor of the next proven leaf, and else taken
      from the proof; the climb ends at layer stop, or when the proof is used up. */
  function Climb<T>(m: Hasher<T>, w: Walk<T>, stop: Option<nat>): (end: Walk<T>)
    ensures |end.leaves| + |end.proof| <= |w.leaves| + |w.proof|
    decreases |w.leaves| + |w.proof|
  {
    if stop == Some(w.height) then w
    else if w.leaves != [] && Shr(w.leaves[0].0, w.height) == Sibling(w.index) then
      var sub := Climb(m, Start(w.leaves, w.proof), Some(w.height));
      Climb(m, Merge(m, w, sub.node, sub.snaps, sub.leaves, sub.proof), stop)
    else if w.proof == [] then w
    else Climb(m, Merge(m, w, w.proof[0], [], w.leaves, w.proof[1..]), stop)
  }

  // ---------------------------------------------------------------------------------------------
  // What a proof holds.

  /** The part of a tree that a proof reveals: proven leaves, nodes above no proven leaf, and their ancestors. */
  datatype Part<T> = Leaf(index: nat, value: T) | Cut(value: T) | Fork(left: Part<T>, right: Part<T>)

  function Value<T>(m: Hasher<T>, t: Part<T>): T {
    match t
    case Leaf(_, v) => v
    case Cut(v) => v
    case Fork(l, r) => m.join(Value(m, l), Value(m, r))
  }

  function Opened<T>(t: Part<T>): seq<(nat, T)> {
    match t
    case Leaf(i, v) => [(i, v)]
    case Cut(_) => []
    case Fork(l, r) => Opened(l) + Opened(r)
  }

  /** The siblings that cannot be derived from the proven leaves, in the order a climb needs them. */
  function Needed<T>(t: Part<T>): seq<T> {
    match t
    case Leaf(_, _) => []
    case Cut(_) => []
    case Fork(l, r) => Needed(l) + Needed(r) + CutValue(l) + CutValue(r)
  }

  function CutValue<T>(t: Part<T>): seq<T> {
    if t.Cut? then [t.value] else []
  }

  /** The left siblings on the path of every proven leaf, bottom-up. */
  function Snapshots<T>(m: Hasher<T>, t: Part<T>): seq<seq<Option<T>>> {
    match t
    case Leaf(_, _) => [[]]
    case Cut(_) => []
    case Fork(l, r) => AddToAll(Snapshots(m, l), None) + AddToAll(Snapshots(m, r), Some(Value(m, l)))
  }

  /** t is what is revealed under node (h, i), and it reveals a leaf. */
  ghost predicate Placed<T>(t: Part<T>, h: nat, i: nat) {
    match t
    case Leaf(j, _) => h == 0 && i == j
    case Cut(_) => false
    case Fork(l, r) =>
      && h > 0
      && (l.Cut? || Placed(l, h - 1, 2 * i))
      && (r.Cut? || Placed(r, h - 1, 2 * i + 1))
      && !(l.Cut? && r.Cut?)
  }

  ghost predicate AllUnder<T>(leaves: seq<(nat, T)>, h: nat, i: nat) {
    forall k | 0 <= k < |leaves| :: Shr(leaves[k].0, h) == i
  }

  ghost predicate NoneUnder<T>(leaves: seq<(nat, T)>, h: nat, i: nat) {
    forall k | 0 <= k < |leaves| :: Shr(leaves[k].0, h) != i
  }

  lemma UnderHalves<T>(leaves: seq<(nat, T)>, h: nat, i: nat)
    requires h > 0
    ensures NoneUnder(leaves, h, i) ==> NoneUnder(leaves, h - 1, 2 * i) && NoneUnder(leaves, h - 1, 2 * i + 1)
    ensures AllUnder(leaves, h - 1, 2 * i) || AllUnder(leaves, h - 1, 2 * i + 1) ==> AllUnder(leaves, h, i)
  {
    forall k | 0 <= k < |leaves|
      ensures Shr(leaves[k].0, h) == Shr(leaves[k].0, h - 1) / 2
    {
      ShrHalf(leaves[k].0, h);
    }
  }

  lemma NotShifted(n: nat)
    ensures Shr(n, 0) == n
  {
  }

  lemma {:induction false} OpenedAreUnder<T>(m: Hasher<T>, t: Part<T>, h: nat, i: nat)
    requires Placed(t, h, i)
    ensures Opened(t) != [] && AllUnder(Opened(t), h, i) && |Snapshots(m, t)| == |Opened(t)|
    decreases t
  {
    hide Shr, Value, AddToAll;
    if t.Leaf? {
      NotShifted(i);
    } else {
      UnderHalves(Opened(t.left), h, i);
      UnderHalves(Opened(t.right), h, i);
      if !t.left.Cut? {
        OpenedAreUnder(m, t.left, h - 1, 2 * i);
      }
      if !t.right.Cut? {
        OpenedAreUnder(m, t.right, h - 1, 2 * i + 1);
      }
    }
  }

  /** The walk that enters t, with other leaves and proof nodes following those of t. */
  function Enter<T>(t: Part<T>, leaves: seq<(nat, T)>, proof: seq<T>): Walk<T>
    requires Opened(t) != []
  {
    Start(Opened(t) + leaves, Needed(t) + proof)
  }

  /** The walk that has just finished t. */
  function Leave<T>(m: Hasher<T>, t: Part<T>, h: nat, i: nat, leaves: seq<(nat, T)>, proof: seq<T>): Walk<T> {
    Walk(i, h, Value(m, t), Snapshots(m, t), leaves, proof)
  }

  /** A sibling above no proven leaf is the next proof node. */
  lemma TakeFromProof<T>(m: Hasher<T>, w: Walk<T>, sibling: T, proof: seq<T>, stop: Option<nat>)
    requires stop != Some(w.height) && w.proof == [sibling] + proof && NoneUnder(w.leaves, w.height, Sibling(w.index))
    ensures Climb(m, w, stop) == Climb(m, Merge(m, w, sibling, [], w.leaves, proof), stop)
  {
    assert w.proof[1..] == proof;
  }

  /** A sibling above the next proven leaf is climbed to on its own. */
  lemma TakeFromClimb<T>(m: Hasher<T>, w: Walk<T>, sub: Walk<T>, stop: Option<nat>)
    requires stop != Some(w.height) && w.leaves != [] && Shr(w.leaves[0].0, w.height) == Sibling(w.index)
    requires sub == Climb(m, Start(w.leaves, w.proof), Some(w.height))
    ensures Climb(m, w, stop)
            == Climb(m, Merge(m, w, sub.node, sub.snaps, sub.leaves, sub.proof), stop)
  {
  }

  /** Merging the two sides of a fork gives the fork, whichever side the walk comes from. */
  lemma MergeSides<T>(m: Hasher<T>, t: Part<T>, h: nat, i: nat, w: Walk<T>, leaves: seq<(nat, T)>, proof: seq<T>)
    requires t.Fork? && w.height + 1 == h
    ensures w == Leave(m, t.left, h - 1, 2 * i, w.leaves, w.proof) ==>
              Merge(m, w, Value(m, t.right), Snapshots(m, t.right), leaves, proof) == Leave(m, t, h, i, leaves, proof)
    ensures w == Leave(m, t.right, h - 1, 2 * i + 1, w.leaves, w.proof) && t.left.Cut? ==>
              Merge(m, w, Value(m, t.left), [], leaves, proof) == Leave(m, t, h, i, leaves, proof)
  {
    assert AddToAll<T>([], None) == [];
    var all := AddToAll(Snapshots(m, t.right), Some(Value(m, t.left)));
    assert all + [] == all == [] + all;
  }

  /** Climbing through t arrives at its value, with the snapshots of its leaves. */
  ghost predicate Through<T>(m: Hasher<T>, t: Part<T>, h: nat, i: nat,
                             leaves: seq<(nat, T)>, proof: seq<T>, stop: Option<nat>) {
    && Opened(t) != []
    && Climb(m, Enter(t, leaves, proof), stop) == Climb(m, Leave(m, t, h, i, leaves, proof), stop)
  }

  lemma EnterSide<T>(t: Part<T>, side: Part<T>, cut: Part<T>, leaves: seq<(nat, T)>, proof: seq<T>)
    requires cut.Cut? && Opened(side) != [] && (t == Fork(side, cut) || t == Fork(cut, side))
    ensures Opened(t) != []
    ensures Enter(t, leaves, proof) == Enter(side, leaves, [cut.value] + proof)
  {
    assert !side.Cut?;
    assert Opened(t) == Opened(side) && Needed(t) + proof == Needed(side) + ([cut.value] + proof);
  }

  lemma ClimbOne<T>(m: Hasher<T>, t: Part<T>, h: nat, i: nat, w: Walk<T>, side: Part<T>, cut: Part<T>,
                    leaves: seq<(nat, T)>, proof: seq<T>, stop: Option<nat>)
    requires t.Fork? && h == w.height + 1 && (stop.Some? ==> stop.value >= h) && cut.Cut?
    requires (t == Fork(side, cut) && w.index == 2 * i) || (t == Fork(cut, side) && w.index == 2 * i + 1)
    requires w == Leave(m, side, h - 1, w.index, leaves, [cut.value] + proof)
    requires Through(m, side, h - 1, w.index, leaves, w.proof, stop)
    requires NoneUnder(leaves, h - 1, Sibling(w.index))
    ensures Through(m, t, h, i, leaves, proof, stop)
  {
    hide Climb, AddToAll, Opened, Needed, Merge, Shr, NoneUnder;
    EnterSide(t, side, cut, leaves, proof);
    TakeFromProof(m, w, cut.value, proof, stop);
    MergeSides(m, t, h, i, w, leaves, proof);
  }

  lemma ClimbLeaf<T>(m: Hasher<T>, t: Part<T>, leaves: seq<(nat, T)>, proof: seq<T>, stop: Option<nat>)
    requires t.Leaf?
    ensures Through(m, t, 0, t.index, leaves, proof, stop)
  {
    assert (Opened(t) + leaves)[1..] == leaves && Needed(t) + proof == proof;
  }

  lemma EnterLeft<T>(t: Part<T>, leaves: seq<(nat, T)>, proof: seq<T>)
    requires t.Fork? && Opened(t.left) != [] && Opened(t.right) != []
    ensures Opened(t) != []
    ensures Enter(t, leaves, proof) == Enter(t.left, Opened(t.right) + leaves, Needed(t.right) + proof)
  {
    assert Opened(t) + leaves == Opened(t.left) + (Opened(t.right) + leaves);
    assert !t.left.Cut? && !t.right.Cut?;
    assert Needed(t) + proof == Needed(t.left) + (Needed(t.right) + proof);
  }

  lemma ClimbSibling<T>(m: Hasher<T>, r: Part<T>, h: nat, i: nat, w: Walk<T>, leaves: seq<(nat, T)>, proof: seq<T>)
    requires w.leaves == Opened(r) + leaves && w.proof == Needed(r) + proof
    requires Through(m, r, h, i, leaves, proof, Some(h))
    ensures Climb(m, Start(w.leaves, w.proof), Some(h)) == Leave(m, r, h, i, leaves, proof)
  {
  }

  lemma ClimbBoth<T>(m: Hasher<T>, t: Part<T>, h: nat, i: nat, w: Walk<T>,
                     leaves: seq<(nat, T)>, proof: seq<T>, stop: Option<nat>)
    requires t.Fork? && h == w.height + 1 && (stop.Some? ==> stop.value >= h)
    requires w == Leave(m, t.left, h - 1, 2 * i, Opened(t.right) + leaves, Needed(t.right) + proof)
    requires Through(m, t.left, h - 1, 2 * i, w.leaves, w.proof, stop)
    requires Opened(t.right) != [] && Shr(w.leaves[0].0, h - 1) == 2 * i + 1
    requires Climb(m, Start(w.leaves, w.proof), Some(h - 1)) == Leave(m, t.right, h - 1, 2 * i + 1, leaves, proof)
    ensures Through(m, t, h, i, leaves, proof, stop)
  {
    hide Climb, AddToAll, Snapshots, Value, Needed, Merge, Shr;
    EnterLeft(t, leaves, proof);
    TakeFromClimb(m, w, Leave(m, t.right, h - 1, 2 * i + 1, leaves, proof), stop);
    MergeSides(m, t, h, i, w, leaves, proof);
  }

  lemma OthersAreOutside<T>(right: seq<(nat, T)>, others: seq<(nat, T)>, h: nat, i: nat)
    requires AllUnder(right, h, i + 1) && NoneUnder(others, h, i)
    ensures NoneUnder(right + others, h, i)
  {
  }

  /** Climbing through t uses exactly its leaves and its proof nodes. */
  lemma {:induction false} ClimbThrough<T>(m: Hasher<T>, t: Part<T>, h: nat, i: nat,
                                           leaves: seq<(nat, T)>, proof: seq<T>, stop: Option<nat>)
    requires Placed(t, h, i) && (stop.Some? ==> stop.value >= h) && NoneUnder(leaves, h, i)
    ensures Through(m, t, h, i, leaves, proof, stop)
    decreases t
  {
    if t.Leaf? {
      ClimbLeaf(m, t, leaves, proof, stop);
    } else {
      UnderHalves(leaves, h, i);
      if t.left.Cut? || t.right.Cut? {
        ClimbThroughOne(m, t, h, i, leaves, proof, stop);
      } else {
        ClimbThroughBoth(m, t, h, i, leaves, proof, stop);
      }
    }
  }

  lemma {:induction false} ClimbThroughOne<T>(m: Hasher<T>, t: Part<T>, h: nat, i: nat,
                                              leaves: seq<(nat, T)>, proof: seq<T>, stop: Option<nat>)
    requires Placed(t, h, i) && t.Fork? && (t.left.Cut? || t.right.Cut?)
    requires (stop.Some? ==> stop.value >= h) && NoneUnder(leaves, h - 1, 2 * i) && NoneUnder(leaves, h - 1, 2 * i + 1)
    ensures Through(m, t, h, i, leaves, proof, stop)
    decreases t, 0
  {
    var (side, cut, j) := if t.left.Cut? then (t.right, t.left, 2 * i + 1) else (t.left, t.right, 2 * i);
    var w := Leave(m, side, h - 1, j, leaves, [cut.value] + proof);
    ClimbThrough(m, side, h - 1, j, leaves, w.proof, stop);
    ClimbOne(m, t, h, i, w, side, cut, leaves, proof, stop);
  }

  lemma {:induction false} ClimbThroughBoth<T>(m: Hasher<T>, t: Part<T>, h: nat, i: nat,
                                               leaves: seq<(nat, T)>, proof: seq<T>, stop: Option<nat>)
    requires h > 0 && t.Fork? && Placed(t.left, h - 1, 2 * i) && Placed(t.right, h - 1, 2 * i + 1)
    requires (stop.Some? ==> stop.value >= h) && NoneUnder(leaves, h - 1, 2 * i) && NoneUnder(leaves, h - 1, 2 * i + 1)
    ensures Through(m, t, h, i, leaves, proof, stop)
    decreases t, 0
  {
    var l, r := t.left, t.right;
    OpenedAreUnder(m, r, h - 1, 2 * i + 1);
    OthersAreOutside(Opened(r), leaves, h - 1, 2 * i);
    var w := Leave(m, l, h - 1, 2 * i, Opened(r) + leaves, Needed(r) + proof);
    ClimbThrough(m, l, h - 1, 2 * i, w.leaves, w.proof, stop);
    ClimbThrough(m, r, h - 1, 2 * i + 1, leaves, proof, Some(h - 1));
    ClimbSibling(m, r, h - 1, 2 * i + 1, w, leaves, proof);
    ClimbBoth(m, t, h, i, w, leaves, proof, stop);
  }

  // ---------------------------------------------------------------------------------------------

  /** The proof for the leaves in S, where read supplies the nodes of the tree. */
  function Reveal<T>(read: (nat, nat) -> T, S: set<nat>, h: nat, i: nat): Part<T>
    decreases h
  {
    if h == 0 then (if i in S then Leaf(i, read(0, i)) else Cut(read(0, i)))
    else
      var l, r := Reveal(read, S, h - 1, 2 * i), Reveal(read, S, h - 1, 2 * i + 1);
      if l.Cut? && r.Cut? then Cut(read(h, i)) else Fork(l, r)
  }

  /** read follows the padded tree of width n: wherever that tree has a node, it is the join of its children. */
  ghost predicate Joins<T>(m: Hasher<T>, read: (nat, nat) -> T, n: nat) {
    forall h: nat, i: nat | i < CeilShr(n, h + 1) :: read(h + 1, i) == m.join(read(h, 2 * i), read(h, 2 * i + 1))
  }

  ghost predicate ReadsPadded<T>(m: Hasher<T>, s: seq<T>, read: (nat, nat) -> T) {
    forall h: nat, i: nat :: read(h, i) == PadNode(m, s, h, i)
  }

  lemma PaddedJoins<T>(m: Hasher<T>, s: seq<T>, read: (nat, nat) -> T)
    requires ReadsPadded(m, s, read)
    ensures Joins(m, read, |s|)
  {
    forall h: nat, i: nat | i < CeilShr(|s|, h + 1)
      ensures read(h + 1, i) == m.join(read(h, 2 * i), read(h, 2 * i + 1))
    {
      PadNodeJoins(m, s, h, i);
    }
  }

  lemma {:induction false} RevealIsPlaced<T>(read: (nat, nat) -> T, S: set<nat>, h: nat, i: nat)
    ensures var t := Reveal(read, S, h, i);
            && (!t.Cut? ==> Placed(t, h, i))
            && (t.Cut? <==> forall j | j in S :: Shr(j, h) != i)
            && (forall j: nat :: j in S && Shr(j, h) == i ==> (j, read(0, j)) in Opened(t))
            && (forall o | o in Opened(t) :: o.0 in S && o.1 == read(0, o.0))
    decreases h
  {
    if h != 0 {
      RevealIsPlaced(read, S, h - 1, 2 * i);
      RevealIsPlaced(read, S, h - 1, 2 * i + 1);
      forall j: nat
        ensures Shr(j, h) == Shr(j, h - 1) / 2
      {
        ShrHalf(j, h);
      }
    }
  }

  /** The left sibling, if any, of the ancestor of leaf j in layer h. */
  function LeftSibling<T>(read: (nat, nat) -> T, j: nat, h: nat): Option<T> {
    var i := Shr(j, h);
    if i % 2 == 1 then Some(read(h, i - 1)) else None
  }

  ghost predicate IsSnapshot<T>(read: (nat, nat) -> T, j: nat, snap: seq<Option<T>>) {
    forall h: nat | h < |snap| :: snap[h] == LeftSibling(read, j, h)
  }

  lemma SnapshotExtends<T>(read: (nat, nat) -> T, j: nat, snap: seq<Option<T>>, x: Option<T>)
    requires IsSnapshot(read, j, snap) && LeftSibling(read, j, |snap|) == x
    ensures IsSnapshot(read, j, snap + [x])
  {
  }

  lemma {:induction false} AddToAllAt<T>(snaps: seq<seq<Option<T>>>, x: Option<T>, k: nat)
    requires k < |snaps|
    ensures AddToAll(snaps, x)[k] == snaps[k] + [x]
    decreases k
  {
    if k > 0 {
      AddToAllAt(snaps[1..], x, k - 1);
    }
  }

  ghost predicate SnapshotsFit<T>(read: (nat, nat) -> T, leaves: seq<(nat, T)>, snaps: seq<seq<Option<T>>>, h: nat) {
    |snaps| == |leaves| && forall k | 0 <= k < |leaves| :: |snaps[k]| == h && IsSnapshot(read, leaves[k].0, snaps[k])
  }

  lemma SnapshotsGrow<T>(read: (nat, nat) -> T, leaves: seq<(nat, T)>, snaps: seq<seq<Option<T>>>, h: nat, i: nat)
    requires SnapshotsFit(read, leaves, snaps, h) && AllUnder(leaves, h, i)
    ensures SnapshotsFit(read, leaves, AddToAll(snaps, if i % 2 == 1 then Some(read(h, i - 1)) else None), h + 1)
  {
    var x := if i % 2 == 1 then Some(read(h, i - 1)) else None;
    var grown := AddToAll(snaps, x);
    forall k | 0 <= k < |leaves|
      ensures |grown[k]| == h + 1 && IsSnapshot(read, leaves[k].0, grown[k])
    {
      AddToAllAt(snaps, x, k);
      SnapshotExtends(read, leaves[k].0, snaps[k], x);
    }
  }

  lemma SnapshotsJoin<T>(read: (nat, nat) -> T, a: seq<(nat, T)>, sa: seq<seq<Option<T>>>,
                         b: seq<(nat, T)>, sb: seq<seq<Option<T>>>, h: nat, i: nat)
    requires SnapshotsFit(read, a, sa, h) && AllUnder(a, h, 2 * i)
    requires SnapshotsFit(read, b, sb, h) && AllUnder(b, h, 2 * i + 1)
    ensures SnapshotsFit(read, a + b, AddToAll(sa, None) + AddToAll(sb, Some(read(h, 2 * i))), h + 1)
  {
    SnapshotsGrow(read, a, sa, h, 2 * i);
    SnapshotsGrow(read, b, sb, h, 2 * i + 1);
  }

  lemma RevealedNodeExists<T>(read: (nat, nat) -> T, n: nat, S: set<nat>, h: nat, i: nat)
    requires forall j | j in S :: j < n
    requires !Reveal(read, S, h, i).Cut?
    ensures i < CeilShr(n, h) && Placed(Reveal(read, S, h, i), h, i)
  {
    RevealIsPlaced(read, S, h, i);
    var j :| j in S && Shr(j, h) == i;
    LeafIsUnderPadLayer(n, j, h);
  }

  /** What a proof reveals are nodes of the tree, and the snapshots are left siblings of that tree. */
  lemma {:induction false} RevealIsFaithful<T>(m: Hasher<T>, read: (nat, nat) -> T, n: nat, S: set<nat>, h: nat, i: nat)
    requires Joins(m, read, n) && forall j | j in S :: j < n
    ensures var t := Reveal(read, S, h, i);
            Value(m, t) == read(h, i) && SnapshotsFit(read, Opened(t), Snapshots(m, t), h)
    decreases h
  {
    var t := Reveal(read, S, h, i);
    if h != 0 && !t.Cut? {
      RevealIsFaithful(m, read, n, S, h - 1, 2 * i);
      RevealIsFaithful(m, read, n, S, h - 1, 2 * i + 1);
      RevealedNodeExists(read, n, S, h, i);
      ForkSnapshots(m, read, t, h, i);
    }
  }

  lemma ForkSnapshots<T>(m: Hasher<T>, read: (nat, nat) -> T, t: Part<T>, h: nat, i: nat)
    requires t.Fork? && h > 0 && Placed(t, h, i)
    requires Value(m, t.left) == read(h - 1, 2 * i)
    requires SnapshotsFit(read, Opened(t.left), Snapshots(m, t.left), h - 1)
    requires SnapshotsFit(read, Opened(t.right), Snapshots(m, t.right), h - 1)
    ensures SnapshotsFit(read, Opened(t), Snapshots(m, t), h)
  {
    if !t.left.Cut? {
      OpenedAreUnder(m, t.left, h - 1, 2 * i);
    }
    if !t.right.Cut? {
      OpenedAreUnder(m, t.right, h - 1, 2 * i + 1);
    }
    SnapshotsJoin(read, Opened(t.left), Snapshots(m, t.left), Opened(t.right), Snapshots(m, t.right), h - 1, i);
  }

  /** A proof read off the padded tree leads to its root, and to the snapshot of every leaf in S. */
  lemma ProofLeadsToRoot<T>(m: Hasher<T>, s: seq<T>, read: (nat, nat) -> T, S: set<nat>)
    requires ReadsPadded(m, s, read) && S != {} && forall j | j in S :: j < |s|
    ensures var t := Reveal(read, S, Height(|s|), 0);
            && Opened(t) != []
            && (forall j: nat :: j in S ==> (j, read(0, j)) in Opened(t))
            && (forall o | o in Opened(t) :: o.0 in S && o.1 == read(0, o.0))
            && var end := Climb(m, Start(Opened(t), Needed(t)), None);
               end.node == Root(m, s) && SnapshotsFit(read, Opened(t), end.snaps, Height(|s|))
  {
    var R := Height(|s|);
    var t := Reveal(read, S, R, 0);
    HeightCovers(|s|);
    forall j | j in S
      ensures Shr(j, R) == 0
    {
      LeafIsUnderPadLayer(|s|, j, R);
    }
    RevealIsPlaced(read, S, R, 0);
    PaddedJoins(m, s, read);
    RevealIsFaithful(m, read, |s|, S, R, 0);
    RootIsTopNode(m, s);
    ClimbThrough(m, t, R, 0, [], [], None);
    assert Opened(t) + [] == Opened(t) && Needed(t) + [] == Needed(t);
  }

  // ---------------------------------------------------------------------------------------------
  // How many nodes a proof holds.

  /** Whether a leaf in S is under node (h, i). */
  predicate Covers(S: set<nat>, h: nat, i: nat)
    decreases h
  {
    if h == 0 then i in S else Covers(S, h - 1, 2 * i) || Covers(S, h - 1, 2 * i + 1)
  }

  function Count(b: bool): nat {
    if b then 1 else 0
  }

  /** The number of siblings under (h, i) that are above no leaf in S while their parents are. */
  function NeededCount(S: set<nat>, h: nat, i: nat): nat
    decreases h
  {
    if h == 0 || !Covers(S, h, i) then 0
    else
      NeededCount(S, h - 1, 2 * i) + NeededCount(S, h - 1, 2 * i + 1)
      + Count(!Covers(S, h - 1, 2 * i)) + Count(!Covers(S, h - 1, 2 * i + 1))
  }

  /** Whatever the nodes of a tree, a proof for S holds that many of them. */
  lemma {:induction false} NeededCountIsExact<T>(read: (nat, nat) -> T, S: set<nat>, h: nat, i: nat)
    ensures Reveal(read, S, h, i).Cut? <==> !Covers(S, h, i)
    ensures |Needed(Reveal(read, S, h, i))| == NeededCount(S, h, i)
    decreases h
  {
    if h != 0 {
      NeededCountIsExact(read, S, h - 1, 2 * i);
      NeededCountIsExact(read, S, h - 1, 2 * i + 1);
    }
  }

  /** The number of leaves in S under node (h, i). */
  function CountUnder(S: set<nat>, h: nat, i: nat): nat
    decreases h
  {
    if h == 0 then Count(i in S) else CountUnder(S, h - 1, 2 * i) + CountUnder(S, h - 1, 2 * i + 1)
  }

  /** A proof needs at most one node per opened leaf and layer. */
  lemma {:induction false} NeededAtMost(S: set<nat>, h: nat, i: nat)
    ensures Covers(S, h, i) <==> CountUnder(S, h, i) > 0
    ensures NeededCount(S, h, i) <= h * CountUnder(S, h, i)
    decreases h
  {
    if h != 0 {
      NeededAtMost(S, h - 1, 2 * i);
      NeededAtMost(S, h - 1, 2 * i + 1);
      var l, r := CountUnder(S, h - 1, 2 * i), CountUnder(S, h - 1, 2 * i + 1);
      OneMoreLayer(h, l, r, NeededCount(S, h - 1, 2 * i), NeededCount(S, h - 1, 2 * i + 1));
    }
  }

  lemma OneMoreLayer(h: nat, l: nat, r: nat, needLeft: nat, needRight: nat)
    requires h > 0 && needLeft <= (h - 1) * l && needRight <= (h - 1) * r
    ensures l + r > 0 ==> needLeft + needRight + Count(l == 0) + Count(r == 0) <= h * (l + r)
  {
    assert h * (l + r) == (h - 1) * l + (h - 1) * r + (l + r);
  }

  lemma {:induction false} OpenedUnder<T>(read: (nat, nat) -> T, S: set<nat>, h: nat, i: nat)
    ensures |Opened(Reveal(read, S, h, i))| == CountUnder(S, h, i)
    decreases h
  {
    if h != 0 {
      OpenedUnder(read, S, h - 1, 2 * i);
      OpenedUnder(read, S, h - 1, 2 * i + 1);
    }
  }

  // ---------------------------------------------------------------------------------------------
  // Binding: the course of a climb depends on the indices and on the number of proof nodes only.

  ghost predicate SameIndices<T>(a: seq<(nat, T)>, b: seq<(nat, T)>) {
    |a| == |b| && forall k | 0 <= k < |a| :: a[k].0 == b[k].0
  }

  ghost predicate SameShape<T>(a: Walk<T>, b: Walk<T>) {
    && a.index == b.index && a.height == b.height && |a.snaps| == |b.snaps|
    && SameIndices(a.leaves, b.leaves) && |a.proof| == |b.proof|
  }

  /** Different pairs with one hash, met at the same point of two climbs. */
  ghost predicate Collision<T>(m: Hasher<T>, a: seq<(T, T)>, b: seq<(T, T)>, k: nat) {
    && k < |a| && k < |b| && a[k] != b[k]
    && m.join(a[k].0, a[k].1) == m.join(b[k].0, b[k].1)
  }

  ghost predicate CollisionFree<T>(m: Hasher<T>, a: seq<(T, T)>, b: seq<(T, T)>) {
    forall k: nat :: !Collision(m, a, b, k)
  }

  lemma CollisionFreeParts<T>(m: Hasher<T>, a: seq<(T, T)>, a': seq<(T, T)>, b: seq<(T, T)>, b': seq<(T, T)>)
    requires |a| == |b| && CollisionFree(m, a + a', b + b')
    ensures CollisionFree(m, a, b) && CollisionFree(m, a', b')
  {
    forall k: nat
      ensures !Collision(m, a, b, k) && !Collision(m, a', b', k)
    {
      assert !Collision(m, a + a', b + b', k);
      assert !Collision(m, a + a', b + b', |a| + k);
    }
  }

  /** The pairs a climb hashes, in order. */
  function Hashed<T>(m: Hasher<T>, w: Walk<T>, stop: Option<nat>): seq<(T, T)>
    decreases |w.leaves| + |w.proof|
  {
    if stop == Some(w.height) then []
    else if w.leaves != [] && Shr(w.leaves[0].0, w.height) == Sibling(w.index) then
      var sub := Climb(m, Start(w.leaves, w.proof), Some(w.height));
      Hashed(m, Start(w.leaves, w.proof), Some(w.height)) + [Pair(w, sub.node)]
      + Hashed(m, Merge(m, w, sub.node, sub.snaps, sub.leaves, sub.proof), stop)
    else if w.proof == [] then []
    else [Pair(w, w.proof[0])] + Hashed(m, Merge(m, w, w.proof[0], [], w.leaves, w.proof[1..]), stop)
  }

  /** No leaf goes unaccounted for: it has a snapshot, or it was not reached. */
  lemma {:induction false} ClimbCountsLeaves<T>(m: Hasher<T>, w: Walk<T>, stop: Option<nat>)
    ensures var e := Climb(m, w, stop);
            && |e.snaps| + |e.leaves| == |w.snaps| + |w.leaves|
            && (stop.None? ==> e.proof == [])
    decreases |w.leaves| + |w.proof|
  {
    if stop == Some(w.height) {
    } else if w.leaves != [] && Shr(w.leaves[0].0, w.height) == Sibling(w.index) {
      var st := Start(w.leaves, w.proof);
      ClimbCountsLeaves(m, st, Some(w.height));
      var sub := Climb(m, st, Some(w.height));
      ClimbCountsLeaves(m, Merge(m, w, sub.node, sub.snaps, sub.leaves, sub.proof), stop);
    } else if w.proof != [] {
      ClimbCountsLeaves(m, Merge(m, w, w.proof[0], [], w.leaves, w.proof[1..]), stop);
    }
  }

  lemma {:induction false} ClimbShape<T>(m: Hasher<T>, a: Walk<T>, b: Walk<T>, stop: Option<nat>)
    requires SameShape(a, b)
    ensures SameShape(Climb(m, a, stop), Climb(m, b, stop)) && |Hashed(m, a, stop)| == |Hashed(m, b, stop)|
    decreases |a.leaves| + |a.proof|
  {
    if stop == Some(a.height) {
    } else if a.leaves != [] && Shr(a.leaves[0].0, a.height) == Sibling(a.index) {
      var sa, sb := Start(a.leaves, a.proof), Start(b.leaves, b.proof);
      ClimbShape(m, sa, sb, Some(a.height));
      var ea, eb := Climb(m, sa, Some(a.height)), Climb(m, sb, Some(a.height));
      ClimbShape(m, Merge(m, a, ea.node, ea.snaps, ea.leaves, ea.proof),
                 Merge(m, b, eb.node, eb.snaps, eb.leaves, eb.proof), stop);
    } else if a.proof != [] {
      ClimbShape(m, Merge(m, a, a.proof[0], [], a.leaves, a.proof[1..]),
                 Merge(m, b, b.proof[0], [], b.leaves, b.proof[1..]), stop);
    }
  }

  /** Two climbs of one shape that arrive at the same node started from the same node and used the same leaves
      and proof nodes, unless they show a collision. */
  ghost predicate Agree<T>(a: Walk<T>, b: Walk<T>, ea: Walk<T>, eb: Walk<T>) {
    && a.node == b.node
    && (ea.leaves == eb.leaves ==> a.leaves == b.leaves)
    && (ea.proof == eb.proof ==> a.proof == b.proof)
  }

  /** The last pair hashed below a node, unless it collides, is determined by the node. */
  lemma SamePair<T>(m: Hasher<T>, a: Walk<T>, b: Walk<T>, x: T, y: T)
    requires a.index == b.index && CollisionFree(m, [Pair(a, x)], [Pair(b, y)])
    requires m.join(Pair(a, x).0, Pair(a, x).1) == m.join(Pair(b, y).0, Pair(b, y).1)
    ensures a.node == b.node && x == y
  {
    assert !Collision(m, [Pair(a, x)], [Pair(b, y)], 0);
  }

  lemma FirstsAndRests<T>(a: seq<T>, b: seq<T>)
    requires a != [] && b != [] && a[0] == b[0] && a[1..] == b[1..]
    ensures a == b
  {
    assert a == [a[0]] + a[1..] && b == [b[0]] + b[1..];
  }

  lemma {:induction false} ClimbBinds<T>(m: Hasher<T>, a: Walk<T>, b: Walk<T>, stop: Option<nat>)
    requires SameShape(a, b)
    requires Climb(m, a, stop).node == Climb(m, b, stop).node
    requires CollisionFree(m, Hashed(m, a, stop), Hashed(m, b, stop))
    ensures Agree(a, b, Climb(m, a, stop), Climb(m, b, stop))
    decreases |a.leaves| + |a.proof|, 1
  {
    hide CollisionFree, AddToAll;
    if stop == Some(a.height) {
    } else if a.leaves != [] && Shr(a.leaves[0].0, a.height) == Sibling(a.index) {
      ClimbBindsBoth(m, a, b, stop);
    } else if a.proof != [] {
      var na := Merge(m, a, a.proof[0], [], a.leaves, a.proof[1..]);
      var nb := Merge(m, b, b.proof[0], [], b.leaves, b.proof[1..]);
      CollisionFreeParts(m, [Pair(a, a.proof[0])], Hashed(m, na, stop),
                         [Pair(b, b.proof[0])], Hashed(m, nb, stop));
      ClimbBinds(m, na, nb, stop);
      SamePair(m, a, b, a.proof[0], b.proof[0]);
      if Climb(m, a, stop).proof == Climb(m, b, stop).proof {
        FirstsAndRests(a.proof, b.proof);
      }
    }
  }

  lemma {:induction false} ClimbBindsBoth<T>(m: Hasher<T>, a: Walk<T>, b: Walk<T>, stop: Option<nat>)
    requires SameShape(a, b) && stop != Some(a.height)
    requires a.leaves != [] && Shr(a.leaves[0].0, a.height) == Sibling(a.index)
    requires Climb(m, a, stop).node == Climb(m, b, stop).node
    requires CollisionFree(m, Hashed(m, a, stop), Hashed(m, b, stop))
    ensures Agree(a, b, Climb(m, a, stop), Climb(m, b, stop))
    decreases |a.leaves| + |a.proof|, 0
  {
    hide CollisionFree, AddToAll;
    var sa, sb := Start(a.leaves, a.proof), Start(b.leaves, b.proof);
    ClimbShape(m, sa, sb, Some(a.height));
    var ua, ub := Climb(m, sa, Some(a.height)), Climb(m, sb, Some(a.height));
    var na := Merge(m, a, ua.node, ua.snaps, ua.leaves, ua.proof);
    var nb := Merge(m, b, ub.node, ub.snaps, ub.leaves, ub.proof);
    SiblingParts(m, a, b, ua, ub, na, nb, stop);
    ClimbBinds(m, na, nb, stop);
    SamePair(m, a, b, ua.node, ub.node);
    ClimbBinds(m, sa, sb, Some(a.height));
    if Climb(m, a, stop).leaves == Climb(m, b, stop).leaves {
      FirstsAndRests(a.leaves, b.leaves);
    }
  }

  /** Without a collision in two climbs there is none in their parts. */
  lemma SiblingParts<T>(m: Hasher<T>, a: Walk<T>, b: Walk<T>, ua: Walk<T>, ub: Walk<T>, na: Walk<T>, nb: Walk<T>,
                        stop: Option<nat>)
    requires SameShape(a, b) && stop != Some(a.height)
    requires a.leaves != [] && Shr(a.leaves[0].0, a.height) == Sibling(a.index)
    requires ua == Climb(m, Start(a.leaves, a.proof), Some(a.height))
    requires ub == Climb(m, Start(b.leaves, b.proof), Some(b.height))
    requires na == Merge(m, a, ua.node, ua.snaps, ua.leaves, ua.proof)
    requires nb == Merge(m, b, ub.node, ub.snaps, ub.leaves, ub.proof)
    requires CollisionFree(m, Hashed(m, a, stop), Hashed(m, b, stop))
    ensures var sa, sb := Start(a.leaves, a.proof), Start(b.leaves, b.proof);
            && CollisionFree(m, Hashed(m, sa, Some(a.height)), Hashed(m, sb, Some(a.height)))
            && CollisionFree(m, [Pair(a, ua.node)], [Pair(b, ub.node)])
            && CollisionFree(m, Hashed(m, na, stop), Hashed(m, nb, stop))
  {
    hide CollisionFree, AddToAll, Climb;
    var sa, sb := Start(a.leaves, a.proof), Start(b.leaves, b.proof);
    ClimbShape(m, sa, sb, Some(a.height));
    var ha, hb := Hashed(m, sa, Some(a.height)), Hashed(m, sb, Some(a.height));
    CollisionFreeParts(m, ha + [Pair(a, ua.node)], Hashed(m, na, stop),
                       hb + [Pair(b, ub.node)], Hashed(m, nb, stop));
    CollisionFreeParts(m, ha, [Pair(a, ua.node)], hb, [Pair(b, ub.node)]);
  }
}
