/** The indices a non-interactive proof has to open, drawn from the root. */
module FiatShamir {
  import opened MerkleTree
  import opened Labels

  // ---------------------------------------------------------------------------------------------
  // Drawing: draw(t) is the index drawn in turn t.

  /** The indices drawn in the first t turns. */
  function Drawn(draw: nat -> nat, t: nat): set<nat>
    decreases t
  {
    if t == 0 then {} else Drawn(draw, t - 1) + {draw(t - 1)}
  }

  /** The drawn indices as soon as there are k, searching from turn t; none if a whole cycle of the counter does
      not yield that many. */
  function Search(draw: nat -> nat, cycle: nat, k: nat, t: nat): Option<set<nat>>
    requires t <= cycle
    decreases cycle - t
  {
    if |Drawn(draw, t)| >= k then Some(Drawn(draw, t))
    else if t == cycle then None
    else Search(draw, cycle, k, t + 1)
  }

  ghost predicate DrawsBelow(draw: nat -> nat, space: nat) {
    forall t: nat :: draw(t) < space
  }

  ghost predicate Cycles(draw: nat -> nat, cycle: nat) {
    cycle > 0 && forall t: nat | t >= cycle :: draw(t) == draw(t - cycle)
  }

  lemma {:induction false} DrawnBelow(draw: nat -> nat, space: nat, t: nat)
    requires DrawsBelow(draw, space)
    ensures forall id | id in Drawn(draw, t) :: id < space
    decreases t
  {
    if t > 0 {
      DrawnBelow(draw, space, t - 1);
    }
  }

  lemma {:induction false} SearchFindsExactly(draw: nat -> nat, cycle: nat, space: nat, k: nat, t: nat)
    requires t <= cycle && |Drawn(draw, t)| <= k && DrawsBelow(draw, space)
    ensures var r := Search(draw, cycle, k, t);
            r.Some? ==> |r.value| == k && forall id | id in r.value :: id < space
    decreases cycle - t
  {
    DrawnBelow(draw, space, t);
    if |Drawn(draw, t)| < k && t < cycle {
      SearchFindsExactly(draw, cycle, space, k, t + 1);
    }
  }

  lemma {:induction false} SearchFails(draw: nat -> nat, cycle: nat, k: nat, t: nat)
    requires t <= cycle && Search(draw, cycle, k, t).None?
    ensures |Drawn(draw, cycle)| < k
    decreases cycle - t
  {
    if t < cycle {
      SearchFails(draw, cycle, k, t + 1);
    }
  }

  lemma {:induction false} DrawnContains(draw: nat -> nat, u: nat, t: nat)
    requires u < t
    ensures draw(u) in Drawn(draw, t)
    decreases t
  {
    if u < t - 1 {
      DrawnContains(draw, u, t - 1);
    }
  }

  lemma {:induction false} DrawnWithinOneCycle(draw: nat -> nat, cycle: nat, u: nat)
    requires Cycles(draw, cycle)
    ensures draw(u) in Drawn(draw, cycle)
    decreases u
  {
    if u < cycle {
      DrawnContains(draw, u, cycle);
    } else {
      DrawnWithinOneCycle(draw, cycle, u - cycle);
    }
  }

  lemma {:induction false} OneCycleIsAll(draw: nat -> nat, cycle: nat, t: nat)
    requires Cycles(draw, cycle)
    ensures Drawn(draw, t) <= Drawn(draw, cycle)
    decreases t
  {
    if t > 0 {
      OneCycleIsAll(draw, cycle, t - 1);
      DrawnWithinOneCycle(draw, cycle, t - 1);
    }
  }

  lemma {:induction false} SubsetIsNotLarger(a: set<nat>, b: set<nat>)
    requires a <= b
    ensures |a| <= |b|
    decreases a
  {
    if a != {} {
      var x :| x in a;
      SubsetIsNotLarger(a - {x}, b - {x});
    }
  }

  // ---------------------------------------------------------------------------------------------

  /** The counter of the drawing loop is a uint32 and wraps around. */
  const COUNTERS: nat := 0x1_0000_0000

  function BE32(x: nat): (b: Bytes)
    ensures |b| == 4
  {
    BigEndian(x, 4)
  }

  /** What a counter value hashes to, as a 64-bit number. */
  function Digests(sha: Bytes -> Node, challenge: Bytes): nat -> nat {
    counter => Number(sha(challenge + BE32(counter))[..8])
  }

  function Draws(digests: nat -> nat, space: nat): nat -> nat
    requires space > 0
  {
    t => digests(t % COUNTERS) % space
  }

  lemma DrawsWrapAround(digests: nat -> nat, space: nat)
    requires space > 0
    ensures DrawsBelow(Draws(digests, space), space)
    ensures Cycles(Draws(digests, space), COUNTERS)
  {
    var draw := Draws(digests, space);
    forall t: nat | t >= COUNTERS
      ensures draw(t) == draw(t - COUNTERS)
    {
      assert t % COUNTERS == (t - COUNTERS) % COUNTERS;
    }
  }

  function Below(n: nat): (s: set<nat>)
    ensures |s| == n && forall i: nat :: i in s <==> i < n
  {
    if n == 0 then {} else Below(n - 1) + {n - 1}
  }

  /** The challenge for a root: none stands for a loop that never ends. */
  function Indices(sha: Bytes -> Node, challenge: Bytes, space: nat, k: nat): Option<set<nat>> {
    if k > space then Some(Below(space))
    else if k == 0 then Some({})
    else Search(Draws(Digests(sha, challenge), space), COUNTERS, k, 0)
  }

  /** As many distinct indices as asked for, or all there are; every one below the leaf count. */
  lemma IndicesAreExact(sha: Bytes -> Node, challenge: Bytes, space: nat, k: nat)
    ensures var r := Indices(sha, challenge, space, k);
            r.Some? ==> |r.value| == (if k < space then k else space) && forall id | id in r.value :: id < space
  {
    if 0 < k <= space {
      DrawsWrapAround(Digests(sha, challenge), space);
      SearchFindsExactly(Draws(Digests(sha, challenge), space), COUNTERS, space, k, 0);
    }
  }

  // What is drawn, from the root and the counter as four big-endian bytes.

  /** Turn i draws id. */
  ghost predicate Draws32(sha: Bytes -> Node, challenge: Bytes, space: nat, i: nat, id: nat)
    requires space > 0
  {
    exists c: Bytes :: |c| == 4 && Number(c) == i && id == Number(sha(challenge + c)[..8]) % space
  }

  /** The first t turns draw exactly the indices in S. */
  ghost predicate DrawnIn(sha: Bytes -> Node, challenge: Bytes, space: nat, t: nat, S: set<nat>)
    requires space > 0
  {
    forall id: nat :: id in S <==> exists i: nat :: i < t && Draws32(sha, challenge, space, i, id)
  }

  lemma CounterBytes(i: nat)
    requires i < 0x1_0000_0000
    ensures Number(BE32(i)) == i && forall c: Bytes | |c| == 4 && Number(c) == i :: c == BE32(i)
  {
    hide Number, BigEndian, Power256;
    FourAndEightBytes();
    NumberOfDigits(i, 4);
    forall c: Bytes | |c| == 4 && Number(c) == i
      ensures c == BE32(i)
    {
      DigitsOfNumber(c);
    }
  }

  lemma TurnDraws(sha: Bytes -> Node, challenge: Bytes, space: nat, i: nat, id: nat)
    requires space > 0 && i < 0x1_0000_0000
    ensures Draws32(sha, challenge, space, i, id) <==> Draws(Digests(sha, challenge), space)(i) == id
  {
    hide Number, BE32;
    CounterBytes(i);
    assert i % COUNTERS == i;
  }

  lemma {:induction false} DrawnAre(draw: nat -> nat, t: nat, id: nat)
    ensures id in Drawn(draw, t) <==> exists i: nat :: i < t && draw(i) == id
    decreases t
  {
    if t > 0 {
      DrawnAre(draw, t - 1, id);
    }
  }

  lemma DrawnInTurns(sha: Bytes -> Node, challenge: Bytes, space: nat, t: nat, S: set<nat>)
    requires space > 0 && t <= 0x1_0000_0000
    ensures DrawnIn(sha, challenge, space, t, S) <==> S == Drawn(Draws(Digests(sha, challenge), space), t)
  {
    hide Draws32, Draws, Digests, Drawn;
    var draw := Draws(Digests(sha, challenge), space);
    forall id: nat
      ensures id in Drawn(draw, t) <==> exists i: nat :: i < t && Draws32(sha, challenge, space, i, id)
    {
      DrawnAre(draw, t, id);
      forall i: nat | i < t
        ensures Draws32(sha, challenge, space, i, id) <==> draw(i) == id
      {
        TurnDraws(sha, challenge, space, i, id);
      }
    }
  }

  /** The search ends in the first turn that makes k. */
  lemma {:induction false} SearchEnds(draw: nat -> nat, cycle: nat, k: nat, t: nat) returns (end: nat)
    requires t <= cycle && Search(draw, cycle, k, t).Some?
    ensures t <= end <= cycle && Search(draw, cycle, k, t).value == Drawn(draw, end)
    ensures forall u: nat | t <= u < end :: |Drawn(draw, u)| < k
    decreases cycle - t
  {
    if |Drawn(draw, t)| >= k {
      end := t;
    } else {
      end := SearchEnds(draw, cycle, k, t + 1);
    }
  }

  /** The challenge is what the least number of turns draws that makes k distinct indices. */
  lemma IndicesAreDrawn(sha: Bytes -> Node, challenge: Bytes, space: nat, k: nat)
    requires 0 < k <= space && Indices(sha, challenge, space, k).Some?
    ensures var S := Indices(sha, challenge, space, k).value;
            exists t: nat ::
              && t <= 0x1_0000_0000 && DrawnIn(sha, challenge, space, t, S) && |S| == k
              && forall u: nat, T: set<nat> | u < t && DrawnIn(sha, challenge, space, u, T) :: |T| < k
  {
    hide DrawnIn, Draws, Digests, Drawn, Search;
    var draw := Draws(Digests(sha, challenge), space);
    IndicesAreExact(sha, challenge, space, k);
    var t := SearchEnds(draw, COUNTERS, k, 0);
    var S := Indices(sha, challenge, space, k).value;
    DrawnInTurns(sha, challenge, space, t, S);
    forall u: nat, T: set<nat> | u < t && DrawnIn(sha, challenge, space, u, T)
      ensures |T| < k
    {
      DrawnInTurns(sha, challenge, space, u, T);
    }
  }

  /** Without a result, no number of turns would ever be enough. */
  lemma NoIndicesMeansDivergence(sha: Bytes -> Node, challenge: Bytes, space: nat, k: nat)
    requires Indices(sha, challenge, space, k).None?
    ensures 0 < k <= space
    ensures forall t: nat :: |Drawn(Draws(Digests(sha, challenge), space), t)| < k
  {
    var draw := Draws(Digests(sha, challenge), space);
    DrawsWrapAround(Digests(sha, challenge), space);
    SearchFails(draw, COUNTERS, k, 0);
    forall t: nat
      ensures |Drawn(draw, t)| < k
    {
      OneCycleIsAll(draw, COUNTERS, t);
      SubsetIsNotLarger(Drawn(draw, t), Drawn(draw, COUNTERS));
    }
  }

  /** For one leaf out of one there is always a challenge. */
  lemma OneOfOne(sha: Bytes -> Node, challenge: Bytes)
    ensures Indices(sha, challenge, 1, 1).Some?
  {
    OneTurnIsEnough(Draws(Digests(sha, challenge), 1), COUNTERS);
  }

  lemma OneTurnIsEnough(draw: nat -> nat, cycle: nat)
    requires cycle > 0
    ensures Search(draw, cycle, 1, 0).Some?
  {
    assert Drawn(draw, 0) == {} && Drawn(draw, 1) == {draw(0)};
    assert Search(draw, cycle, 1, 1).Some?;
  }

  /** The loop, left when a whole cycle of the counter has been of no avail. */
  method ComputeIndices(sha: Bytes -> Node, challenge: Bytes, space: nat, k: nat) returns (r: Option<set<nat>>)
    ensures r == Indices(sha, challenge, space, k)
  {
    if k > space {
      var ids: set<nat> := {};
      for i := 0 to space
        invariant ids == Below(i)
      {
        ids := ids + {i};
      }
      return Some(ids);
    }
    if k == 0 {
      return Some({});
    }
    r := DrawIndices(Draws(Digests(sha, challenge), space), COUNTERS, k);
  }

  method DrawIndices(draw: nat -> nat, cycle: nat, k: nat) returns (r: Option<set<nat>>)
    ensures r == Search(draw, cycle, k, 0)
  {
    var ids: set<nat> := {};
    var i := 0;
    while |ids| < k
      invariant i <= cycle && ids == Drawn(draw, i)
      invariant Search(draw, cycle, k, 0) == Search(draw, cycle, k, i)
      decreases cycle - i
    {
      if i == cycle {
        return None;
      }
      ids := ids + {draw(i)};
      i := i + 1;
    }
    r := Some(ids);
  }
}
