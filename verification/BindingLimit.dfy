/** How far an accepted proof binds: proofs whose climbs end at the same height can still open different leaves, as a
    climb takes a leaf for a higher node when the proof nodes run out under it. */
module BindingLimit {
  import opened MerkleTree
  import opened Labels
  import opened PartialProof
  import opened ProofOfWork
  import opened Verifier
  import opened Scale
  import FiatShamir

  function Fill(x: Byte): (b: Node)
    ensures b[0] == x && b[7] == x
  {
    seq(NODE_SIZE, _ => x)
  }

  /** A hash that tells its input's length only, and so the number of siblings. */
  function ByLength(): Bytes -> Node {
    b => if |b| == 8 then Fill(1) else if |b| == 40 then Fill(6) else Fill(5)
  }

  function Join(): MerkleHash {
    (l: Bytes, r: Bytes) =>
      if l == Fill(1) && r == Fill(2) then Fill(3)
      else if l == Fill(4) && r == Fill(5) then Fill(6)
      else if l == Fill(3) && r == Fill(6) then Fill(7)
      else Fill(0)
  }

  function Both(): Hashes {
    Salted(ByLength(), Join())
  }

  /** Draws index 0 first and index 3 from then on. */
  function Sha(): Bytes -> Node {
    b => if b != [] && b[|b| - 1] == 0 then Fill(0) else Fill(3)
  }

  /** Leaf 3 stands for the node above leaves 2 and 3. */
  function Short(): MerkleProof {
    MerkleProof(Fill(7), [Fill(1), Fill(6)], [Fill(2)])
  }

  function Long(): MerkleProof {
    MerkleProof(Fill(7), [Fill(1), Fill(5)], [Fill(2), Fill(4)])
  }

  lemma JoinIs()
    ensures Join()(Fill(1), Fill(2)) == Fill(3)
    ensures Join()(Fill(4), Fill(5)) == Fill(6)
    ensures Join()(Fill(3), Fill(6)) == Fill(7)
  {
    assert Fill(1)[0] != Fill(3)[0] && Fill(1)[0] != Fill(4)[0] && Fill(4)[0] != Fill(3)[0];
  }

  lemma NumberModFour(b: Bytes)
    requires b != []
    ensures Number(b) % 4 == b[|b| - 1] % 4
  {
    var high := Number(b[..|b| - 1]);
    assert Number(b) == 4 * (64 * high) + b[|b| - 1];
  }

  lemma DrawIs(challenge: Bytes, t: nat)
    requires t < 2
    ensures FiatShamir.Draws(FiatShamir.Digests(Sha(), challenge), 4)(t) == if t == 0 then 0 else 3
  {
    hide Number;
    var input := challenge + FiatShamir.BE32(t);
    assert input[|input| - 1] == t;
    var digest := Sha()(input);
    assert digest == if t == 0 then Fill(0) else Fill(3);
    NumberModFour(digest[..8]);
  }

  lemma ChallengeIs(challenge: Bytes)
    ensures FiatShamir.Indices(Sha(), challenge, 4, 2) == Some({0, 3})
  {
    var draw := FiatShamir.Draws(FiatShamir.Digests(Sha(), challenge), 4);
    DrawIs(challenge, 0);
    DrawIs(challenge, 1);
    SearchIs(draw);
  }

  lemma SearchIs(draw: nat -> nat)
    requires draw(0) == 0 && draw(1) == 3
    ensures FiatShamir.Search(draw, FiatShamir.COUNTERS, 2, 0) == Some({0, 3})
  {
    assert FiatShamir.Drawn(draw, 0) == {};
    assert FiatShamir.Drawn(draw, 1) == {0};
    assert FiatShamir.Drawn(draw, 2) == {0, 3};
  }

  lemma AscendingIs()
    ensures Ascending({0, 3}, 0, 4) == [0, 3]
  {
    var S: set<nat> := {0, 3};
    assert Ascending(S, 4, 4) == [];
    assert Ascending(S, 3, 4) == [3];
    assert Ascending(S, 2, 4) == [3];
    assert Ascending(S, 1, 4) == [3];
  }

  /** Where the climb for leaves 0 and 3 ends, and what it hashes. */
  function End(proof: MerkleProof): Walk<Node>
    requires |proof.provenLeaves| == 2
  {
    Climb(Both().Tree(), Start(Zip([0, 3], proof.provenLeaves), proof.proofNodes), None)
  }

  function Pairs(proof: MerkleProof): seq<(Node, Node)>
    requires |proof.provenLeaves| == 2
  {
    Hashed(Both().Tree(), Start(Zip([0, 3], proof.provenLeaves), proof.proofNodes), None)
  }

  function AboveFirst(leaf: Node, proof: seq<Node>): Walk<Node> {
    Walk(0, 1, Fill(3), [[None]], [(3, leaf)], proof)
  }

  lemma AddToOne<T>(snap: seq<Option<T>>, x: Option<T>)
    ensures AddToAll([snap], x) == [snap + [x]] && AddToAll<T>([], x) == []
  {
    assert [snap][1..] == [];
  }

  lemma FirstStep(leaf: Node, proof: seq<Node>)
    ensures var m := Both().Tree();
            var w := Start([(0, Fill(1)), (3, leaf)], [Fill(2)] + proof);
            var up := AboveFirst(leaf, proof);
            && Climb(m, w, None) == Climb(m, up, None)
            && Hashed(m, w, None) == [(Fill(1), Fill(2))] + Hashed(m, up, None)
  {
    hide Fill, Join;
    var m := Both().Tree();
    var w := Start([(0, Fill(1)), (3, leaf)], [Fill(2)] + proof);
    assert w.leaves == [(3, leaf)] && w.proof[1..] == proof;
    var none: Option<Node> := None;
    AddToOne([], none);
    AddToOne([], Some(Fill(1)));
    assert [] + [none] == [none];
    JoinIs();
    var up := Merge(m, w, Fill(2), [], w.leaves, proof);
    assert up.snaps == [[none]];
    assert Merge(m, w, Fill(2), [], w.leaves, proof) == AboveFirst(leaf, proof);
  }

  lemma LastStep(leaf: Node, proof: seq<Node>, snap: seq<Option<Node>>)
    requires var m := Both().Tree();
             var side := Climb(m, Start([(3, leaf)], proof), Some(1));
             side.(index := 0, height := 0) == Walk(0, 0, Fill(6), [snap], [], [])
    ensures var m := Both().Tree();
            var up := AboveFirst(leaf, proof);
            && Climb(m, up, None) == Walk(0, 2, Fill(7), [[None, None], snap + [Some(Fill(3))]], [], [])
            && Hashed(m, up, None) == Hashed(m, Start([(3, leaf)], proof), Some(1)) + [(Fill(3), Fill(6))]
  {
    hide Fill, Join;
    var m := Both().Tree();
    var up := AboveFirst(leaf, proof);
    assert Shr(3, 1) == 1;
    var sub := Climb(m, Start([(3, leaf)], proof), Some(1));
    var none: Option<Node> := None;
    AddToOne([none], none);
    AddToOne(snap, Some(Fill(3)));
    JoinIs();
    var top := Merge(m, up, Fill(6), [snap], [], []);
    assert [none] + [none] == [none, none];
    assert top.snaps == [[none, none]] + [snap + [Some(Fill(3))]];
    assert top == Walk(0, 2, Fill(7), [[None, None], snap + [Some(Fill(3))]], [], []);
    assert Climb(m, top, None) == top && Hashed(m, top, None) == [];
  }

  lemma ShortSide()
    ensures var m := Both().Tree();
            var w := Start([(3, Fill(6))], []);
            Climb(m, w, Some(1)) == Walk(3, 0, Fill(6), [[]], [], []) && Hashed(m, w, Some(1)) == []
  {
  }

  lemma LongSide()
    ensures var m := Both().Tree();
            var w := Start([(3, Fill(5))], [Fill(4)]);
            && Climb(m, w, Some(1)) == Walk(1, 1, Fill(6), [[Some(Fill(4))]], [], [])
            && Hashed(m, w, Some(1)) == [(Fill(4), Fill(5))]
  {
    hide Fill, Join;
    var m := Both().Tree();
    var w := Start([(3, Fill(5))], [Fill(4)]);
    var up := Walk(1, 1, Fill(6), [[Some(Fill(4))]], [], []);
    AddToOne([], Some(Fill(4)));
    AddToOne([], Some(Fill(5)));
    JoinIs();
    assert [] + [Some(Fill(4))] == [Some(Fill(4))];
    assert Merge(m, w, Fill(4), [], [], []).snaps == up.snaps;
    assert Merge(m, w, Fill(4), [], [], []) == up;
  }

  lemma LabelIs(id: nat, siblings: seq<Node>)
    requires |siblings| <= 2
    ensures Both().leafLabel(id, siblings)
            == if |siblings| == 0 then Fill(1) else if |siblings| == 1 then Fill(6) else Fill(5)
  {
    hide Flatten, Fill;
    FlattenBound(siblings);
    var input := BE64(id) + Flatten(siblings);
    assert |input| == 8 + 32 * |siblings|;
    assert Both().leafLabel(id, siblings) == ByLength()(input);
  }

  lemma NonEmptyIs(a: Node, b: Node)
    ensures NonEmpty<Node>([None, None]) == []
    ensures NonEmpty([Some(a)]) == [a] && NonEmpty([Some(a), Some(b)]) == [a, b]
  {
    assert NonEmpty([Some(b)]) == [b];
    assert [Some(a), Some(b)][1..] == [Some(b)];
    var none: seq<Option<Node>> := [None, None];
    assert none[1..] == [None];
  }

  lemma ZipIs(a: Node, b: Node)
    ensures Zip([0, 3], [a, b]) == [(0, a), (3, b)]
  {
  }

  lemma TwoLabels(leaf: Node, snaps: seq<seq<Option<Node>>>)
    requires |snaps| == 2
    requires Both().leafLabel(0, NonEmpty(snaps[0])) == Fill(1)
    requires Both().leafLabel(3, NonEmpty(snaps[1])) == leaf
    ensures LabelsFit(Both(), [(0, Fill(1)), (3, leaf)], snaps)
  {
    hide Both, NonEmpty, Fill;
    var leaves := [(0, Fill(1)), (3, leaf)];
    assert leaves[0].1 == Both().leafLabel(leaves[0].0, NonEmpty(snaps[0]));
    assert leaves[1].1 == Both().leafLabel(leaves[1].0, NonEmpty(snaps[1]));
  }

  lemma ShortIsAccepted()
    ensures Accepts(Both(), Sha(), Short(), 4, 2)
    ensures End(Short()).height == 2
    ensures Pairs(Short()) == [(Fill(1), Fill(2)), (Fill(3), Fill(6))]
  {
    hide Climb, Hashed, Ascending, FiatShamir.Indices, NonEmpty, Zip, Fill, ByLength, Join, Sha;
    ChallengeIs(Fill(7));
    AscendingIs();
    ZipIs(Fill(1), Fill(6));
    ShortSide();
    FirstStep(Fill(6), []);
    LastStep(Fill(6), [], []);
    assert [Fill(2)] + [] == [Fill(2)];
    NonEmptyIs(Fill(3), Fill(3));
    LabelIs(0, []);
    LabelIs(3, [Fill(3)]);
    assert [] + [Some(Fill(3))] == [Some(Fill(3))];
    TwoLabels(Fill(6), End(Short()).snaps);
  }

  lemma LongIsAccepted()
    ensures Accepts(Both(), Sha(), Long(), 4, 2)
    ensures End(Long()).height == 2
    ensures Pairs(Long())
            == [(Fill(1), Fill(2)), (Fill(4), Fill(5)), (Fill(3), Fill(6))]
  {
    hide Climb, Hashed, Ascending, FiatShamir.Indices, NonEmpty, Zip, Fill, ByLength, Join, Sha;
    ChallengeIs(Fill(7));
    AscendingIs();
    ZipIs(Fill(1), Fill(5));
    LongSide();
    FirstStep(Fill(5), [Fill(4)]);
    LastStep(Fill(5), [Fill(4)], [Some(Fill(4))]);
    assert [Fill(2)] + [Fill(4)] == [Fill(2), Fill(4)];
    NonEmptyIs(Fill(4), Fill(3));
    LabelIs(0, []);
    LabelIs(3, [Fill(4), Fill(3)]);
    assert [Some(Fill(4))] + [Some(Fill(3))] == [Some(Fill(4)), Some(Fill(3))];
    TwoLabels(Fill(5), End(Long()).snaps);
  }

  lemma {:induction false} HashedOfNodes(join: MerkleHash, w: Walk<Node>, stop: Option<nat>)
    ensures Hashed<Bytes>(OnBytes(join), w, stop) == Hashed<Node>(Hasher(OnNodes(join), PADDING), w, stop)
    decreases |w.leaves| + |w.proof|
  {
    var m := Hasher(OnNodes(join), PADDING);
    if stop == Some(w.height) {
    } else if w.leaves != [] && Shr(w.leaves[0].0, w.height) == Sibling(w.index) {
      var st := Start(w.leaves, w.proof);
      StartOfNodes(w.leaves, w.proof);
      HashedOfNodes(join, st, Some(w.height));
      ClimbOfNodes(join, st, Some(w.height));
      var sub := Climb(m, st, Some(w.height));
      MergeOfNodes(join, w, sub.node, sub.snaps, sub.leaves, sub.proof);
      HashedOfNodes(join, Merge(m, w, sub.node, sub.snaps, sub.leaves, sub.proof), stop);
    } else if w.proof != [] {
      MergeOfNodes(join, w, w.proof[0], [], w.leaves, w.proof[1..]);
      HashedOfNodes(join, Merge(m, w, w.proof[0], [], w.leaves, w.proof[1..]), stop);
    }
  }

  function Located(proof: MerkleProof): seq<(nat, Bytes)>
    requires |proof.provenLeaves| == 2
  {
    Zip([0, 3], proof.provenLeaves)
  }

  /** The climb on the wire is the one on nodes. */
  lemma OnTheWire(p: MerkleProof)
    requires Accepts(Both(), Sha(), p, 4, 2)
    ensures AcceptsWire(ByLength(), Join(), Sha(), Wire(p), 4, 2)
    ensures HashedPairs(ByLength(), Join(), Sha(), Wire(p), 4, 2) == Pairs(p)
    ensures EndOf(Join(), Located(p), Wire(p)) == End(p)
  {
    hide Climb, Hashed, Ascending, FiatShamir.Indices, Fill, ByLength, Join, Sha;
    ChallengeIs(p.root);
    AscendingIs();
    AcceptsNodes(ByLength(), Join(), Sha(), p, 4, 2);
    ZipOfNodes([0, 3], p.provenLeaves);
    var st := Start(Zip<Node>([0, 3], p.provenLeaves), p.proofNodes);
    StartOfNodes(Zip<Node>([0, 3], p.provenLeaves), p.proofNodes);
    ClimbOfNodes(Join(), st, None);
    HashedOfNodes(Join(), st, None);
  }

  /** Two accepted proofs for one root and leaf count, whose climbs end at the same height, that open different
      leaves although no two different pairs hashed on the way have the same hash. */
  lemma EqualHeightsDoNotBind()
    ensures AcceptsWire(ByLength(), Join(), Sha(), Wire(Short()), 4, 2)
    ensures AcceptsWire(ByLength(), Join(), Sha(), Wire(Long()), 4, 2)
    ensures Short().root == Long().root && Short().provenLeaves != Long().provenLeaves
    ensures EndOf(Join(), Located(Short()), Wire(Short())).height == 2
    ensures EndOf(Join(), Located(Long()), Wire(Long())).height == 2
    ensures var pairs := HashedPairs(ByLength(), Join(), Sha(), Wire(Short()), 4, 2)
                         + HashedPairs(ByLength(), Join(), Sha(), Wire(Long()), 4, 2);
            forall p, q | p in pairs && q in pairs && p != q :: Join()(p.0, p.1) != Join()(q.0, q.1)
  {
    hide Accepts, AcceptsWire, HashedPairs, End, Pairs, EndOf;
    ShortIsAccepted();
    LongIsAccepted();
    OnTheWire(Short());
    OnTheWire(Long());
    JoinIs();
    assert Short().provenLeaves[1] == Fill(6) && Long().provenLeaves[1] == Fill(5);
  }
}
