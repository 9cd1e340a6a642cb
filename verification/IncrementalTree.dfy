/** The mutable tree object: parked nodes per layer, and the contents of the layers its cache writer keeps. */
module IncrementalTree {
  import opened MerkleTree

  /** The layers of the tree over s, by height. */
  function Layers<T>(m: Hasher<T>, s: seq<T>): nat -> seq<T> {
    (h: nat) => Layer(m, s, h)
  }

  ghost predicate Holds<T>(cache: map<nat, seq<T>>, layers: nat -> seq<T>) {
    forall h | h in cache :: cache[h] == layers(h)
  }

  ghost predicate CacheHolds<T>(m: Hasher<T>, cache: map<nat, seq<T>>, s: seq<T>) {
    Holds(cache, Layers(m, s))
  }

  /** Appending to a layer's cache: a layer that is not cached stays so, unless create asks for a new cache. */
  function Append<T>(cache: map<nat, seq<T>>, h: nat, node: T, create: bool): map<nat, seq<T>> {
    if h in cache then cache[h := cache[h] + [node]]
    else if create then cache[h := [node]]
    else cache
  }

  /** The caches after a node arrives at layer h, where parked are the parked nodes from layer h on. */
  function CacheAfter<T>(m: Hasher<T>, cache: map<nat, seq<T>>, all: bool, parked: seq<Option<T>>, node: T, h: nat)
      : map<nat, seq<T>>
    decreases |parked|
  {
    if parked == [] then Append(cache, h, node, all)
    else
      var c := Append(cache, h, node, false);
      match parked[0]
      case None => c
      case Some(left) => CacheAfter(m, c, all, parked[1..], m.join(left, node), h + 1)
  }

  lemma {:induction false} CacheAfterKeys<T>(m: Hasher<T>, cache: map<nat, seq<T>>, all: bool,
                                             parked: seq<Option<T>>, node: T, h: nat)
    ensures var keys := CacheAfter(m, cache, all, parked, node, h).Keys;
            keys == cache.Keys
              + if all && |Carry(m, parked, node)| > |parked| then {h + |parked|} else {}
    decreases |parked|
  {
    if parked != [] && parked[0].Some? {
      CacheAfterKeys(m, Append(cache, h, node, false), all, parked[1..], m.join(parked[0].value, node), h + 1);
    }
  }

  /** Half-way through adding a leaf, the layers below h are the new ones. */
  ghost predicate UpToDate<T>(cache: map<nat, seq<T>>, before: nat -> seq<T>, after: nat -> seq<T>, h: nat) {
    forall k | k in cache :: cache[k] == if k < h then after(k) else before(k)
  }

  lemma AppendIsUpToDate<T>(cache: map<nat, seq<T>>, before: nat -> seq<T>, after: nat -> seq<T>, node: T, h: nat,
                            create: bool)
    requires UpToDate(cache, before, after, h) && after(h) == before(h) + [node]
    requires create ==> before(h) == []
    ensures UpToDate(Append(cache, h, node, create), before, after, h + 1)
  {
  }

  lemma {:induction false} LayersAgreeAbove<T>(m: Hasher<T>, s: seq<T>, t: seq<T>, h: nat, k: nat)
    requires Layer(m, s, h) == Layer(m, t, h) && h <= k
    ensures Layer(m, s, k) == Layer(m, t, k)
    decreases k
  {
    if h < k {
      LayersAgreeAbove(m, s, t, h, k - 1);
      UpOfLayer(m, s, k - 1);
      UpOfLayer(m, t, k - 1);
    }
  }

  /** How the node arriving at layer h affects the layer above. */
  lemma NodeAbove<T>(m: Hasher<T>, s: seq<T>, x: T, node: T, h: nat)
    requires Layer(m, s + [x], h) == Layer(m, s, h) + [node]
    ensures match Waiting(Layer(m, s, h))
            case None => Layer(m, s + [x], h + 1) == Layer(m, s, h + 1)
            case Some(left) => Layer(m, s + [x], h + 1) == Layer(m, s, h + 1) + [m.join(left, node)]
  {
    UpOfAppend(m, Layer(m, s, h), node);
    UpOfLayer(m, s, h);
    UpOfLayer(m, s + [x], h);
  }

  /** before and after are the layers around the addition of one leaf: a node arrives at layer h, and goes on as a
      parent if p has a node parked there. */
  ghost predicate OneLeafApart<T>(m: Hasher<T>, p: seq<Option<T>>, before: nat -> seq<T>, after: nat -> seq<T>) {
    && (forall h: nat | h < |p| && p[h].Some? && |after(h)| == |before(h)| + 1 ::
          after(h + 1) == before(h + 1) + [m.join(p[h].value, after(h)[|before(h)|])])
    && (forall h: nat, k: nat | (h < |p| ==> p[h].None?) && |after(h)| == |before(h)| + 1 && h < k ::
          after(k) == before(k))
    && before(|p|) == []
  }

  lemma AddedLeafIsOneApart<T>(m: Hasher<T>, s: seq<T>, x: T)
    ensures OneLeafApart(m, Parked(m, s), Layers(m, s), Layers(m, s + [x]))
  {
    var p, before, after := Parked(m, s), Layers(m, s), Layers(m, s + [x]);
    ParkedAt(m, s, |p|);
    LayerWidth(m, s, |p|);
    forall h: nat | h < |p| && p[h].Some? && |after(h)| == |before(h)| + 1
      ensures after(h + 1) == before(h + 1) + [m.join(p[h].value, after(h)[|before(h)|])]
    {
      ArrivalAt(m, s, x, h);
    }
    forall h: nat, k: nat | (h < |p| ==> p[h].None?) && |after(h)| == |before(h)| + 1 && h < k
      ensures after(k) == before(k)
    {
      ArrivalAt(m, s, x, h);
      LayersAgreeAbove(m, s, s + [x], h + 1, k);
    }
  }

  lemma ArrivalAt<T>(m: Hasher<T>, s: seq<T>, x: T, h: nat)
    requires |Layer(m, s + [x], h)| == |Layer(m, s, h)| + 1
    ensures var p, node := Parked(m, s), Layer(m, s + [x], h)[|Layer(m, s, h)|];
            if h < |p| && p[h].Some? then
              Layer(m, s + [x], h + 1) == Layer(m, s, h + 1) + [m.join(p[h].value, node)]
            else Layer(m, s + [x], h + 1) == Layer(m, s, h + 1)
  {
    LayerOfPrefix(m, s, s + [x], h);
    NodeAbove(m, s, x, Layer(m, s + [x], h)[|Layer(m, s, h)|], h);
    ParkedAt(m, s, h);
    LayerWidth(m, s, h);
  }

  lemma {:induction false} CacheAfterHolds<T>(m: Hasher<T>, cache: map<nat, seq<T>>, all: bool, p: seq<Option<T>>,
                                              before: nat -> seq<T>, after: nat -> seq<T>, node: T, h: nat)
    requires OneLeafApart(m, p, before, after) && h <= |p|
    requires UpToDate(cache, before, after, h) && after(h) == before(h) + [node]
    ensures Holds(CacheAfter(m, cache, all, p[h..], node, h), after)
    decreases |p| - h
  {
    var last := h == |p|;
    var c := Append(cache, h, node, all && last);
    AppendIsUpToDate(cache, before, after, node, h, all && last);
    if h < |p| && p[h].Some? {
      assert p[h..][1..] == p[h + 1..];
      CacheAfterHolds(m, c, all, p, before, after, m.join(p[h].value, node), h + 1);
    }
  }

  /** Adding a leaf keeps a tree the tree of its leaves. */
  lemma AddLeafKeeps<T>(m: Hasher<T>, cache: map<nat, seq<T>>, all: bool, s: seq<T>, x: T)
    requires CacheHolds(m, cache, s)
    ensures Carry(m, Parked(m, s), x) == Parked(m, s + [x])
    ensures CacheHolds(m, CacheAfter(m, cache, all, Parked(m, s), x, 0), s + [x])
  {
    var p := Parked(m, s);
    CarryIsAddLeaf(m, s, x);
    AddedLeafIsOneApart(m, s, x);
    assert p[0..] == p;
    CacheAfterHolds(m, cache, all, p, Layers(m, s), Layers(m, s + [x]), x, 0);
  }

  // One turn of the carry loop, and its end.

  lemma CarryOn<T>(m: Hasher<T>, cache: map<nat, seq<T>>, all: bool, p: seq<Option<T>>, free: seq<Option<T>>, node: T,
                   h: nat)
    requires h == |free| < |p| && p[h].Some?
    ensures var up := m.join(p[h].value, node);
            && (free + p[h..])[h := None] == (free + [None]) + p[h + 1..]
            && free + Carry(m, p[h..], node) == (free + [None]) + Carry(m, p[h + 1..], up)
            && CacheAfter(m, cache, all, p[h..], node, h)
               == CacheAfter(m, Append(cache, h, node, false), all, p[h + 1..], up, h + 1)
  {
    assert p[h..][1..] == p[h + 1..];
  }

  lemma Settle<T>(m: Hasher<T>, cache: map<nat, seq<T>>, all: bool, p: seq<Option<T>>, free: seq<Option<T>>, node: T,
                  h: nat)
    requires h == |free| <= |p| && (h < |p| ==> p[h].None?)
    ensures h == |p| ==> free + Carry(m, p[h..], node) == (free + p[h..]) + [Some(node)]
    ensures h < |p| ==> free + Carry(m, p[h..], node) == (free + p[h..])[h := Some(node)]
    ensures CacheAfter(m, cache, all, p[h..], node, h) == Append(cache, h, node, all && h == |p|)
  {
  }

  class Tree<T> {
    const m: Hasher<T>
    /** Whether a layer that appears for the first time gets a cache. */
    const all: bool
    var parked: seq<Option<T>>
    var cache: map<nat, seq<T>>
    /** The leaves added so far. */
    ghost var leaves: seq<T>

    ghost predicate Valid()
      reads this
    {
      && parked == Parked(m, leaves)
      && CacheHolds(m, cache, leaves)
    }

    constructor (m: Hasher<T>)
      ensures Valid() && leaves == [] && this.m == m && all && parked == [None] && cache == map[0 := []]
    {
      this.m := m;
      all := true;
      parked := [None];
      cache := map[0 := []];
      leaves := [];
      new;
      assert Parked(m, leaves) == [None];
    }

    /** A tree resumed from parked nodes and layer contents; it caches no layer beyond those given. */
    constructor Resume(m: Hasher<T>, parked: seq<Option<T>>, cache: map<nat, seq<T>>, ghost s: seq<T>)
      requires parked == Parked(m, s) && CacheHolds(m, cache, s)
      ensures Valid() && leaves == s && this.m == m && !all && this.parked == parked && this.cache == cache
    {
      this.m := m;
      all := false;
      this.parked := parked;
      this.cache := cache;
      leaves := s;
    }

    /** Adds a leaf and carries the parents of completed pairs upward, appending every new node to the
        cache of its layer. */
    method AddLeaf(leaf: T)
      requires Valid()
      modifies this
      ensures Valid()
      ensures leaves == old(leaves) + [leaf]
      ensures parked == Carry(m, old(parked), leaf)
      ensures cache == CacheAfter(m, old(cache), all, old(parked), leaf, 0)
    {
      ghost var s, p, c := leaves, parked, cache;
      ghost var free: seq<Option<T>> := [];
      assert p[0..] == p;
      var node, h := leaf, 0;
      while h < |parked| && parked[h].Some?
        invariant h == |free| <= |p| && leaves == s
        invariant parked == free + p[h..]
        invariant Carry(m, p, leaf) == free + Carry(m, p[h..], node)
        invariant CacheAfter(m, c, all, p, leaf, 0) == CacheAfter(m, cache, all, p[h..], node, h)
      {
        CarryOn(m, cache, all, p, free, node, h);
        cache := Append(cache, h, node, false);
        node := m.join(parked[h].value, node);
        parked := parked[h := None];
        free, h := free + [None], h + 1;
      }
      Settle(m, cache, all, p, free, node, h);
      if h == |parked| {
        cache := Append(cache, h, node, all);
        parked := parked + [Some(node)];
      } else {
        cache := Append(cache, h, node, false);
        parked := parked[h := Some(node)];
      }
      leaves := leaves + [leaf];
      AddLeafKeeps(m, c, all, s, leaf);
    }

    /** The root of the padded tree, from the parked nodes; none before the first leaf. */
    method GetRoot() returns (root: Option<T>)
      requires Valid()
      ensures root == if leaves == [] then None else Some(Root(m, leaves))
    {
      if leaves != [] {
        RootFromParkedIsRoot(m, leaves, None);
        assert leaves + AsSeq<T>(None) == leaves;
      }
      ghost var goal := RootFromParked(m, parked, None);
      var h, carried := 0, None;
      while h + 1 < |parked| || carried.Some?
        invariant 0 <= h < |parked|
        invariant goal == RootFromParked(m, parked[h..], carried)
        decreases |parked| - h
      {
        var up := CarriedParent(m, parked[h], carried);
        if h + 1 == |parked| {
          return up;
        }
        assert parked[h..][1..] == parked[h + 1..];
        carried, h := up, h + 1;
      }
      root := parked[h];
    }
  }
}
