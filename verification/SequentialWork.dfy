/** The sequential work loop and the generation of the proof. */
module SequentialWork {
  import opened MerkleTree
  import opened Labels
  import opened PartialProof
  import opened IncrementalTree
  import opened ProofOfWork
  import FiatShamir

  /** The rate, in leaves, of checkpoints. */
  const CHECKPOINT_RATE: nat := 0x100_0000

  /** Whether a leaf count is due for a checkpoint. */
  function CheckpointDue(): nat -> bool {
    (n: nat) => n % CHECKPOINT_RATE == 0
  }

  /** A checkpoint is due every 2^24 leaves. */
  lemma CheckpointSpacing(n: nat)
    requires CheckpointDue()(n)
    ensures CheckpointDue()(0) && CheckpointDue()(n + 16777216)
    ensures forall m: nat | n < m < n + 16777216 :: !CheckpointDue()(m)
  {
    forall m: nat | n < m < n + 16777216
      ensures !CheckpointDue()(m)
    {
      assert m == n + (m - n) && n == CHECKPOINT_RATE * (n / CHECKPOINT_RATE);
      assert m % CHECKPOINT_RATE == m - n;
    }
  }

  lemma NoCheckpointBeforeProof(due: nat -> bool)
    requires due == CheckpointDue()
    ensures forall n: nat | 0 < n < 256 :: !due(n)
  {
  }

  /** What the select statement of a turn finds. Once the polls listed are over, the deadline has passed. */
  datatype Poll = Canceled | Deadline | Running

  /** What the environment does: the polls turn by turn, and the leaf counts at which persisting fails. */
  datatype Environment = Environment(polls: seq<Poll>, persistFails: set<nat>)
  {
    function PollAt(turn: nat): Poll {
      if turn < |polls| then polls[turn] else Deadline
    }
  }

  datatype Outcome = Finished(leaves: nat) | Interrupted(leaves: nat) | PersistFailed

  // ---------------------------------------------------------------------------------------------
  // How the work goes, as far as the environment decides it.

  /** Turn t of work that starts after the first leaves is the last if it is canceled, or if the deadline has passed
      and there are k leaves by then. */
  predicate Stops(env: Environment, first: nat, k: nat, t: nat) {
    env.PollAt(t).Canceled? || (env.PollAt(t).Deadline? && first + t + 1 >= k)
  }

  /** The first turn from `from` on that is the last. */
  function StopTurn(env: Environment, first: nat, k: nat, from: nat): (t: nat)
    ensures from <= t && Stops(env, first, k, t) && forall u: nat | from <= u < t :: !Stops(env, first, k, u)
    decreases (if from < |env.polls| then |env.polls| - from else 0)
              + if first + from < k then k - first - from else 0
  {
    if Stops(env, first, k, from) then from else StopTurn(env, first, k, from + 1)
  }

  /** The leaf counts after first and up to last that are due for a checkpoint. */
  function Checkpoints(due: nat -> bool, first: nat, last: nat): seq<nat>
    decreases last
  {
    if last <= first then []
    else Checkpoints(due, first, last - 1) + if due(last) then [last] else []
  }

  /** The leaf count at which the work stops. */
  function LastCount(env: Environment, first: nat, k: nat): nat {
    first + StopTurn(env, first, k, 0) + 1
  }

  /** The leaf counts to persist: those due on the way, and the last one. */
  function ToPersist(env: Environment, due: nat -> bool, first: nat, k: nat): seq<nat> {
    var last := LastCount(env, first, k);
    Checkpoints(due, first, last - 1) + [last]
  }

  /** The counts before the first one that cannot be persisted. */
  function UpToFailure(counts: seq<nat>, fails: set<nat>): seq<nat> {
    if counts == [] || counts[0] in fails then [] else [counts[0]] + UpToFailure(counts[1..], fails)
  }

  /** The work ends where it stops, unless one of the counts to persist cannot be persisted. */
  function OutcomeOf(env: Environment, due: nat -> bool, first: nat, k: nat): (o: Outcome)
    ensures o.Finished? ==> o.leaves > first && o.leaves >= k
  {
    if exists n :: n in ToPersist(env, due, first, k) && n in env.persistFails then PersistFailed
    else if env.PollAt(StopTurn(env, first, k, 0)).Canceled? then Interrupted(LastCount(env, first, k))
    else Finished(LastCount(env, first, k))
  }

  lemma {:induction false} CheckpointsExtend(due: nat -> bool, first: nat, last: nat, last': nat)
    requires last <= last'
    ensures Checkpoints(due, first, last) <= Checkpoints(due, first, last')
    decreases last'
  {
    if last < last' {
      CheckpointsExtend(due, first, last, last' - 1);
    }
  }

  lemma {:induction false} FirstFailure(counts: seq<nat>, fails: set<nat>, done: seq<nat>, n: nat)
    requires done + [n] <= counts && n in fails && forall c | c in done :: c !in fails
    ensures UpToFailure(counts, fails) == done
    ensures n in counts
    decreases done
  {
    assert counts[|done|] == n;
    if done != [] {
      assert counts[0] == done[0] && done[0] in done;
      assert done[1..] + [n] <= counts[1..];
      assert forall c | c in done[1..] :: c in done;
      FirstFailure(counts[1..], fails, done[1..], n);
      assert done == [done[0]] + done[1..];
    }
  }

  lemma {:induction false} NoFailure(counts: seq<nat>, fails: set<nat>)
    requires forall c | c in counts :: c !in fails
    ensures UpToFailure(counts, fails) == counts
  {
    if counts != [] {
      assert counts[0] in counts && forall c | c in counts[1..] :: c in counts;
      NoFailure(counts[1..], fails);
    }
  }

  /** What becomes of the work when the counts in done are persisted and n, which is to be persisted next, is not. */
  lemma Fails(env: Environment, due: nat -> bool, first: nat, k: nat, done: seq<nat>, n: nat)
    requires done + [n] <= ToPersist(env, due, first, k)
    requires n in env.persistFails && forall c | c in done :: c !in env.persistFails
    ensures OutcomeOf(env, due, first, k) == PersistFailed
    ensures UpToFailure(ToPersist(env, due, first, k), env.persistFails) == done
    ensures ToPersist(env, due, first, k)[|done|] == n
  {
    FirstFailure(ToPersist(env, due, first, k), env.persistFails, done, n);
  }

  /** A checkpoint on the way is among the counts to persist, right after the earlier ones. */
  lemma OnTheWay(env: Environment, due: nat -> bool, first: nat, k: nat, n: nat)
    requires first < n < LastCount(env, first, k) && due(n)
    ensures Checkpoints(due, first, n - 1) + [n] <= ToPersist(env, due, first, k)
  {
    CheckpointsExtend(due, first, n, LastCount(env, first, k) - 1);
  }

  lemma {:induction false} CheckpointsAre(due: nat -> bool, first: nat, last: nat, n: nat)
    ensures n in Checkpoints(due, first, last) <==> first < n <= last && due(n)
    decreases last
  {
    if first < last {
      CheckpointsAre(due, first, last - 1, n);
    }
  }

  /** Before turn t, nothing ends the work: no turn is canceled, and none with k leaves is past the deadline. */
  ghost predicate GoesOn(env: Environment, first: nat, k: nat, t: nat) {
    forall u: nat | u < t :: !env.PollAt(u).Canceled? && (first + u + 1 >= k ==> !env.PollAt(u).Deadline?)
  }

  /** The outcome of the work, turn by turn: it finishes with n leaves in the first turn that is past the deadline with
      at least k leaves, is interrupted in the first that is canceled, whichever comes first, if nothing that was due to
      be persisted by then failed; else it fails. */
  lemma OutcomeMeans(env: Environment, due: nat -> bool, first: nat, k: nat)
    ensures var o := OutcomeOf(env, due, first, k);
            match o
            case Finished(n) =>
              && n > first && n >= k && GoesOn(env, first, k, n - first - 1) && env.PollAt(n - first - 1).Deadline?
              && n !in env.persistFails && forall c | c in env.persistFails && first < c < n :: !due(c)
            case Interrupted(n) =>
              && n > first && GoesOn(env, first, k, n - first - 1) && env.PollAt(n - first - 1).Canceled?
              && n !in env.persistFails && forall c | c in env.persistFails && first < c < n :: !due(c)
            case PersistFailed =>
              exists c: nat ::
                && c in env.persistFails && c > first && GoesOn(env, first, k, c - first - 1)
                && (due(c) || env.PollAt(c - first - 1).Canceled? || (env.PollAt(c - first - 1).Deadline? && c >= k))
  {
    var t, last := StopTurn(env, first, k, 0), LastCount(env, first, k);
    forall u: nat | u < t
      ensures !env.PollAt(u).Canceled? && (first + u + 1 >= k ==> !env.PollAt(u).Deadline?)
    {
      assert !Stops(env, first, k, u);
    }
    forall c: nat
      ensures c in ToPersist(env, due, first, k) <==> c == last || (first < c < last && due(c))
    {
      CheckpointsAre(due, first, last - 1, c);
    }
    if OutcomeOf(env, due, first, k).PersistFailed? {
      var c :| c in ToPersist(env, due, first, k) && c in env.persistFails;
      assert GoesOn(env, first, k, c - first - 1);
    }
  }

  /** The leaf after the first n. */
  method AddNextLeaf(labelHash: Bytes -> Node, tree: Tree<Node>, makeLabel: LabelMaker, n: nat)
    requires tree.Valid() && tree.m.pad == PADDING
    requires tree.leaves == Leaves(Hashes(Labelling(labelHash), tree.m.join), n)
    modifies tree, makeLabel, makeLabel.buffer
    ensures tree.Valid() && tree.leaves == Leaves(Hashes(Labelling(labelHash), tree.m.join), n + 1)
    ensures tree.cache.Keys >= old(tree.cache.Keys)
    ensures makeLabel.buffer == old(makeLabel.buffer) || fresh(makeLabel.buffer)
  {
    assert Hashes(Labelling(labelHash), tree.m.join).Tree() == tree.m;
    var leaf := makeLabel.MakeLabel(labelHash, n, tree.parked);
    NodesAreNotCut(n, tree.parked, makeLabel.buffer.Length);
    CacheAfterKeys(tree.m, tree.cache, tree.all, tree.parked, leaf, 0);
    tree.AddLeaf(leaf);
  }

  /** The leaf count reached: the last one, or the one that could not be persisted. */
  function Reached(env: Environment, due: nat -> bool, first: nat, k: nat): nat {
    var counts := ToPersist(env, due, first, k);
    var persisted := UpToFailure(counts, env.persistFails);
    if |persisted| < |counts| then counts[|persisted|] else LastCount(env, first, k)
  }

  /** Adds leaves until the deadline, then until there are enough for a proof. persisted lists the leaf counts that
      were successfully persisted. */
  method Work(labelHash: Bytes -> Node, tree: Tree<Node>, env: Environment, due: nat -> bool,
              nextLeafID: nat, securityParam: nat)
    returns (r: Outcome, persisted: seq<nat>)
    requires tree.Valid() && securityParam < 256 && forall n: nat | 0 < n < 256 :: !due(n)
    requires tree.leaves == Leaves(Hashes(Labelling(labelHash), tree.m.join), nextLeafID) && tree.m.pad == PADDING
    modifies tree
    ensures tree.Valid()
    ensures r == OutcomeOf(env, due, nextLeafID, securityParam)
    ensures persisted == UpToFailure(ToPersist(env, due, nextLeafID, securityParam), env.persistFails)
    ensures tree.leaves
            == Leaves(Hashes(Labelling(labelHash), tree.m.join), Reached(env, due, nextLeafID, securityParam))
    ensures tree.cache.Keys >= old(tree.cache.Keys)
  {
    hide Leaves, Parked, Labelling, OutcomeOf, ToPersist, UpToFailure;
    ghost var hf := Hashes(Labelling(labelHash), tree.m.join);
    var makeLabel := new LabelMaker();
    var next: nat, turn: nat := nextLeafID, 0;
    persisted := [];
    while true
      invariant fresh(makeLabel) && fresh(makeLabel.buffer)
      invariant tree.Valid() && tree.leaves == Leaves(hf, next)
      invariant tree.cache.Keys >= old(tree.cache.Keys)
      invariant next == nextLeafID + turn
      invariant StopTurn(env, nextLeafID, securityParam, 0) == StopTurn(env, nextLeafID, securityParam, turn)
      invariant persisted == Checkpoints(due, nextLeafID, next)
      invariant forall c | c in persisted :: c !in env.persistFails
      decreases (if turn < |env.polls| then |env.polls| - turn else 0)
                + if next < securityParam then securityParam - next else 0
    {
      AddNextLeaf(labelHash, tree, makeLabel, next);
      next := next + 1;
      var poll := env.PollAt(turn);
      if poll.Canceled? || (poll.Deadline? && next >= securityParam) {
        assert Stops(env, nextLeafID, securityParam, turn);
        LastIsLast(env, due, nextLeafID, securityParam, persisted, next);
        if next in env.persistFails {
          return PersistFailed, persisted;
        }
        persisted := persisted + [next];
        return (if poll.Canceled? then Interrupted(next) else Finished(next)), persisted;
      }
      assert !Stops(env, nextLeafID, securityParam, turn);
      turn := turn + 1;
      if poll.Running? && due(next) {
        if next in env.persistFails {
          OnTheWay(env, due, nextLeafID, securityParam, next);
          Fails(env, due, nextLeafID, securityParam, persisted, next);
          return PersistFailed, persisted;
        }
        persisted := persisted + [next];
      }
    }
  }

  lemma FinishedWorkReachesItsLeaves(env: Environment, due: nat -> bool, first: nat, k: nat)
    requires OutcomeOf(env, due, first, k).Finished?
    ensures Reached(env, due, first, k) == OutcomeOf(env, due, first, k).leaves
  {
    NoFailure(ToPersist(env, due, first, k), env.persistFails);
  }

  /** Where the work stops, everything depends on the last count. */
  lemma LastIsLast(env: Environment, due: nat -> bool, first: nat, k: nat, done: seq<nat>, n: nat)
    requires n == LastCount(env, first, k) && done == Checkpoints(due, first, n - 1)
    requires forall c | c in done :: c !in env.persistFails
    ensures var canceled := env.PollAt(StopTurn(env, first, k, 0)).Canceled?;
            OutcomeOf(env, due, first, k)
            == if n in env.persistFails then PersistFailed else if canceled then Interrupted(n) else Finished(n)
    ensures UpToFailure(ToPersist(env, due, first, k), env.persistFails)
            == if n in env.persistFails then done else done + [n]
    ensures Reached(env, due, first, k) == n
  {
    if n in env.persistFails {
      Fails(env, due, first, k, done, n);
    } else {
      NoFailure(done + [n], env.persistFails);
    }
  }

  datatype Result = Proof(leaves: nat, proof: MerkleProof) | NoProof(reason: Outcome) | NeverEnds

  /** What the generation of a proof after the first leaves comes to: the honest proof if the work finishes, no result
      if there is no challenge for its root. */
  function ResultOf(hf: Hashes, sha: Bytes -> Node, env: Environment, first: nat, k: nat): Result {
    match OutcomeOf(env, CheckpointDue(), first, k)
    case Finished(n) =>
      (match HonestProof(hf, sha, n, k)
       case None => NeverEnds
       case Some(proof) => Proof(n, proof))
    case outcome => NoProof(outcome)
  }

  /** On a new or on a recovered tree, a proof is returned exactly if the work finishes and the challenge exists; then
      it is the honest proof for its leaf count, and the verifier accepts it. */
  method GenerateProof(labelHash: Bytes -> Node, sha: Bytes -> Node, tree: Tree<Node>, env: Environment,
                       nextLeafID: nat, securityParam: nat) returns (r: Result)
    requires tree.Valid() && 1 <= securityParam < 256 && 0 in tree.cache
    requires tree.leaves == Leaves(Hashes(Labelling(labelHash), tree.m.join), nextLeafID) && tree.m.pad == PADDING
    modifies tree
    ensures r == ResultOf(Hashes(Labelling(labelHash), tree.m.join), sha, env, nextLeafID, securityParam)
    ensures r.Proof? ==>
              && r.leaves > nextLeafID && r.leaves >= securityParam
              && Accepts(Hashes(Labelling(labelHash), tree.m.join), sha, r.proof, r.leaves, securityParam)
  {
    hide Leaves, Parked, Root, Reveal, PadNode, ReadNode, Height, Accepts, OutcomeOf, Reached;
    ghost var hf := Hashes(Labelling(labelHash), tree.m.join);
    assert hf.Tree() == tree.m;
    NoCheckpointBeforeProof(CheckpointDue());
    var outcome, _ := Work(labelHash, tree, env, CheckpointDue(), nextLeafID, securityParam);
    if !outcome.Finished? {
      return NoProof(outcome);
    }
    var n := outcome.leaves;
    FinishedWorkReachesItsLeaves(env, CheckpointDue(), nextLeafID, securityParam);
    var root := tree.GetRoot();
    var indices := FiatShamir.ComputeIndices(sha, root.value, n, securityParam);
    if indices.None? {
      return NeverEnds;
    }
    var proof := ProofFor(root.value, Reader(tree.m, tree.cache, n), n, indices.value);
    forall h: nat, i: nat
      ensures Reader(tree.m, tree.cache, n)(h, i) == PaddedTree(tree.m, tree.leaves)(h, i)
    {
      ReadNodeIsPadNode(tree.m, tree.cache, tree.leaves, h, i);
    }
    RevealsAlike(Reader(tree.m, tree.cache, n), PaddedTree(tree.m, tree.leaves), indices.value, Height(n), 0);
    Completeness(hf, sha, n, securityParam);
    r := Proof(n, proof);
  }
}
