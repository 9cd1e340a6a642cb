/** The incremental Merkle tree that both the prover and the registration rounds grow leaf by leaf.
    The tree library itself lives outside the repository; this module states what its callers rely on.
    A tree behaves like a binary counter: layer h parks a node exactly when bit h of the leaf count is set. */
module MerkleTree {

  datatype Option<+T> = None | Some(value: T)

  /** The node hash, and the value standing for a missing right child. */
  datatype Hasher<!T> = Hasher(join: (T, T) -> T, pad: T)

  /** n >> h */
  function Shr(n: nat, h: nat): nat {
    if h == 0 then n else Shr(n / 2, h - 1)
  }

  lemma {:induction false} ShrShr(n: nat, k: nat, j: nat)
    ensures Shr(Shr(n, k), j) == Shr(n, k + j)
  {
    if k != 0 {
      ShrShr(n / 2, k - 1, j);
    }
  }

  lemma {:induction false} ShrMonotone(a: nat, b: nat, h: nat)
    requires a <= b
    ensures Shr(a, h) <= Shr(b, h)
  {
    if h != 0 {
      ShrMonotone(a / 2, b / 2, h - 1);
    }
  }

  lemma ShrHalf(n: nat, h: nat)
    requires h > 0
    ensures Shr(n, h) == Shr(n, h - 1) / 2
  {
    ShrShr(n, h - 1, 1);
    assert Shr(Shr(n, h - 1), 1) == Shr(Shr(n, h - 1) / 2, 0);
  }

  /** The layer above s: one parent for every complete pair. */
  function Up<T>(m: Hasher<T>, s: seq<T>): (r: seq<T>)
    ensures |r| == |s| / 2
    decreases |s|
  {
    if |s| < 2 then []
    else if |s| % 2 == 1 then Up(m, s[..|s| - 1])
    else Up(m, s[..|s| - 2]) + [m.join(s[|s| - 2], s[|s| - 1])]
  }

  lemma {:induction false} UpAt<T>(m: Hasher<T>, s: seq<T>, i: nat)
    requires i < |s| / 2
    ensures Up(m, s)[i] == m.join(s[2 * i], s[2 * i + 1])
    decreases |s|
  {
    if |s| % 2 == 1 {
      UpAt(m, s[..|s| - 1], i);
    } else if i < |s| / 2 - 1 {
      UpAt(m, s[..|s| - 2], i);
    }
  }

  lemma UpOfPrefix<T>(m: Hasher<T>, a: seq<T>, b: seq<T>)
    requires a <= b
    ensures Up(m, a) <= Up(m, b)
  {
    forall i: nat | i < |a| / 2
      ensures Up(m, a)[i] == Up(m, b)[i]
    {
      UpAt(m, a, i);
      UpAt(m, b, i);
    }
  }

  /** Layer h of the tree over the leaves s. */
  function Layer<T>(m: Hasher<T>, s: seq<T>, h: nat): seq<T>
    decreases h
  {
    if h == 0 then s else Layer(m, Up(m, s), h - 1)
  }

  lemma {:induction false} LayerWidth<T>(m: Hasher<T>, s: seq<T>, h: nat)
    ensures |Layer(m, s, h)| == Shr(|s|, h)
    decreases h
  {
    if h != 0 {
      LayerWidth(m, Up(m, s), h - 1);
    }
  }

  /** A tree over layer k has, as its own layer j, layer k + j of the full tree. */
  lemma {:induction false} LayerOfLayer<T>(m: Hasher<T>, s: seq<T>, k: nat, j: nat)
    ensures Layer(m, Layer(m, s, k), j) == Layer(m, s, k + j)
    decreases k
  {
    if k != 0 {
      LayerOfLayer(m, Up(m, s), k - 1, j);
    }
  }

  lemma {:induction false} UpOfLayer<T>(m: Hasher<T>, s: seq<T>, h: nat)
    ensures Layer(m, s, h + 1) == Up(m, Layer(m, s, h))
  {
    LayerOfLayer(m, s, h, 1);
    assert Layer(m, Layer(m, s, h), 1) == Layer(m, Up(m, Layer(m, s, h)), 0);
  }

  lemma {:induction false} LayerOfPrefix<T>(m: Hasher<T>, a: seq<T>, b: seq<T>, h: nat)
    requires a <= b
    ensures Layer(m, a, h) <= Layer(m, b, h)
    decreases h
  {
    if h != 0 {
      UpOfPrefix(m, a, b);
      LayerOfPrefix(m, Up(m, a), Up(m, b), h - 1);
    }
  }

  /** The node a layer keeps waiting for its right sibling. */
  function Waiting<T>(s: seq<T>): Option<T> {
    if |s| % 2 == 1 then Some(s[|s| - 1]) else None
  }

  /** What the layers of a tree over s park, bottom-up from layer 0. */
  function Parked<T>(m: Hasher<T>, s: seq<T>): (p: seq<Option<T>>)
    ensures p != []
    decreases |s|
  {
    [Waiting(s)] + if |s| <= 1 then [] else Parked(m, Up(m, s))
  }

  lemma {:induction false} ParkedAt<T>(m: Hasher<T>, s: seq<T>, h: nat)
    ensures h < |Parked(m, s)| <==> h == 0 || Shr(|s|, h) > 0
    ensures h < |Parked(m, s)| ==> Parked(m, s)[h] == Waiting(Layer(m, s, h))
    decreases h
  {
    if h != 0 {
      if |s| > 1 {
        ParkedAt(m, Up(m, s), h - 1);
      } else {
        ShrZero(h - 1);
      }
    }
  }

  lemma {:induction false} ShrZero(h: nat)
    ensures Shr(0, h) == 0
  {
    if h != 0 {
      ShrZero(h - 1);
    }
  }

  /** The parked nodes split at any layer k that the tree has reached: the lower ones are read off the
      layers, the upper ones are those of a small tree over layer k. */
  lemma {:induction false} ParkedSplit<T>(m: Hasher<T>, s: seq<T>, k: nat)
    requires Shr(|s|, k) > 0
    ensures |Parked(m, s)| >= k
    ensures Parked(m, s)[k..] == Parked(m, Layer(m, s, k))
    decreases k
  {
    if k != 0 {
      ShrZero(k - 1);
      var rest := Parked(m, Up(m, s));
      assert Parked(m, s) == [Waiting(s)] + rest;
      ParkedSplit(m, Up(m, s), k - 1);
      assert ([Waiting(s)] + rest)[k..] == rest[k - 1..];
    }
  }

  /** What adding a node does to the parked nodes: carry parents upward to the first free layer. */
  function Carry<T>(m: Hasher<T>, parked: seq<Option<T>>, node: T): (p: seq<Option<T>>) {
    if parked == [] then [Some(node)]
    else match parked[0]
      case None => [Some(node)] + parked[1..]
      case Some(left) => [None] + Carry(m, parked[1..], m.join(left, node))
  }

  lemma UpOfAppend<T>(m: Hasher<T>, s: seq<T>, x: T)
    ensures Up(m, s + [x]) == match Waiting(s) case None => Up(m, s) case Some(l) => Up(m, s) + [m.join(l, x)]
  {
    if |s| % 2 == 1 {
      assert (s + [x])[..|s| - 1] == s[..|s| - 1];
      assert |s| == 1 ==> Up(m, s[..0]) == [];
    } else if |s| > 0 {
      assert (s + [x])[..|s|] == s;
    }
  }

  lemma {:induction false} CarryIsAddLeaf<T>(m: Hasher<T>, s: seq<T>, x: T)
    ensures Carry(m, Parked(m, s), x) == Parked(m, s + [x])
    decreases |s|
  {
    UpOfAppend(m, s, x);
    if |s| > 1 {
      var p := Parked(m, s);
      assert p[0] == Waiting(s) && p[1..] == Parked(m, Up(m, s));
      if |s| % 2 == 1 {
        CarryIsAddLeaf(m, Up(m, s), m.join(s[|s| - 1], x));
      }
    } else if |s| == 1 {
      assert Parked(m, s + [x]) == [None] + Parked(m, [m.join(s[0], x)]);
      assert Carry(m, [], m.join(s[0], x)) == [Some(m.join(s[0], x))];
    }
  }

  // ---------------------------------------------------------------------------------------------
  // The padded tree: every layer of odd width is completed with the padding value.

  function PadUp<T>(m: Hasher<T>, s: seq<T>): (r: seq<T>)
    ensures |r| == (|s| + 1) / 2
  {
    if |s| % 2 == 1 then Up(m, s) + [m.join(s[|s| - 1], m.pad)] else Up(m, s)
  }

  lemma PadUpAt<T>(m: Hasher<T>, s: seq<T>, i: nat)
    requires i < (|s| + 1) / 2
    ensures PadUp(m, s)[i] == m.join(s[2 * i], if 2 * i + 1 < |s| then s[2 * i + 1] else m.pad)
  {
    if i < |s| / 2 {
      UpAt(m, s, i);
    }
  }

  function PadLayer<T>(m: Hasher<T>, s: seq<T>, h: nat): seq<T>
    decreases h
  {
    if h == 0 then s else PadLayer(m, PadUp(m, s), h - 1)
  }

  /** n >> h, rounded up */
  function CeilShr(n: nat, h: nat): nat {
    if h == 0 then n else CeilShr((n + 1) / 2, h - 1)
  }

  lemma {:induction false} PadLayerWidth<T>(m: Hasher<T>, s: seq<T>, h: nat)
    ensures |PadLayer(m, s, h)| == CeilShr(|s|, h)
    decreases h
  {
    if h != 0 {
      PadLayerWidth(m, PadUp(m, s), h - 1);
    }
  }

  lemma {:induction false} PadLayerNext<T>(m: Hasher<T>, s: seq<T>, h: nat)
    ensures PadLayer(m, s, h + 1) == PadUp(m, PadLayer(m, s, h))
    decreases h
  {
    if h != 0 {
      PadLayerNext(m, PadUp(m, s), h - 1);
    }
  }

  lemma {:induction false} LeafIsUnderPadLayer(n: nat, j: nat, h: nat)
    requires j < n
    ensures Shr(j, h) < CeilShr(n, h)
  {
    if h != 0 {
      LeafIsUnderPadLayer((n + 1) / 2, j / 2, h - 1);
    }
  }

  function PadNode<T>(m: Hasher<T>, s: seq<T>, h: nat, i: nat): T {
    var l := PadLayer(m, s, h);
    if i < |l| then l[i] else m.pad
  }

  lemma PadNodeJoins<T>(m: Hasher<T>, s: seq<T>, h: nat, i: nat)
    requires i < CeilShr(|s|, h + 1)
    ensures PadNode(m, s, h + 1, i) == m.join(PadNode(m, s, h, 2 * i), PadNode(m, s, h, 2 * i + 1))
  {
    PadLayerNext(m, s, h);
    PadLayerWidth(m, s, h + 1);
    PadUpAt(m, PadLayer(m, s, h), i);
  }

  lemma UpIsPrefixOfPadUp<T>(m: Hasher<T>, a: seq<T>, b: seq<T>)
    requires a <= b
    ensures Up(m, a) <= PadUp(m, b)
  {
    hide Up;
    UpOfPrefix(m, a, b);
  }

  /** The complete nodes of any earlier tree keep their place and value in the padded final tree. */
  lemma {:induction false} CompleteNodesSurvive<T>(m: Hasher<T>, a: seq<T>, b: seq<T>, h: nat)
    requires a <= b
    ensures Layer(m, a, h) <= PadLayer(m, b, h)
    decreases h
  {
    hide Up, PadUp;
    if h != 0 {
      UpIsPrefixOfPadUp(m, a, b);
      CompleteNodesSurvive(m, Up(m, a), PadUp(m, b), h - 1);
    }
  }

  function Height(n: nat): nat {
    if n <= 1 then 0 else 1 + Height((n + 1) / 2)
  }

  lemma {:induction false} HeightCovers(n: nat)
    ensures n > 0 ==> CeilShr(n, Height(n)) == 1
  {
    if n > 1 {
      HeightCovers((n + 1) / 2);
    }
  }

  function Root<T>(m: Hasher<T>, s: seq<T>): T
    requires s != []
    decreases |s|
  {
    if |s| == 1 then s[0] else Root(m, PadUp(m, s))
  }

  lemma {:induction false} RootIsTopNode<T>(m: Hasher<T>, s: seq<T>)
    requires s != []
    ensures Root(m, s) == PadNode(m, s, Height(|s|), 0)
    decreases |s|
  {
    if |s| != 1 {
      RootIsTopNode(m, PadUp(m, s));
    }
  }

  /** The root computed from the parked nodes alone, carrying a padded node upward. */
  function RootFromParked<T>(m: Hasher<T>, parked: seq<Option<T>>, carried: Option<T>): Option<T>
    requires parked != []
  {
    if |parked| == 1 && carried.None? then parked[0]
    else
      var up := CarriedParent(m, parked[0], carried);
      if |parked| == 1 then up else RootFromParked(m, parked[1..], up)
  }

  function CarriedParent<T>(m: Hasher<T>, parked: Option<T>, carried: Option<T>): Option<T> {
    match (parked, carried)
    case (Some(l), Some(r)) => Some(m.join(l, r))
    case (Some(l), None) => Some(m.join(l, m.pad))
    case (None, Some(l)) => Some(m.join(l, m.pad))
    case (None, None) => None
  }

  function AsSeq<T>(o: Option<T>): seq<T> {
    if o.Some? then [o.value] else []
  }

  lemma {:induction false} RootFromParkedIsRoot<T>(m: Hasher<T>, s: seq<T>, carried: Option<T>)
    requires s != []
    ensures RootFromParked(m, Parked(m, s), carried) == Some(Root(m, s + AsSeq(carried)))
    decreases |s|
  {
    var whole := s + AsSeq(carried);
    var up := CarriedParent(m, Waiting(s), carried);
    if carried.None? {
      assert whole == s;
    }
    if |s| > 1 || carried.Some? {
      assert PadUp(m, whole) == Up(m, s) + AsSeq(up) by {
        if carried.Some? {
          UpOfAppend(m, s, carried.value);
        }
      }
      if |s| > 1 {
        assert Parked(m, s)[1..] == Parked(m, Up(m, s));
        RootFromParkedIsRoot(m, Up(m, s), up);
      } else {
        assert PadUp(m, whole) == [up.value];
      }
    }
  }
}
