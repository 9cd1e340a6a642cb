/** The two ways to generate a proof: with a new tree, and with one recovered from the layer files. */
module ProofGeneration {
  import opened MerkleTree
  import opened Labels
  import opened IncrementalTree
  import opened ProofOfWork
  import opened Recovery
  import SW = SequentialWork
  import CR = CrashRuns

  datatype Attempt = Generated(result: SW.Result) | DirectoryNotEmpty | NotRecovered(failure: Failure)

  /** A new tree is refused exactly if there are layer files; else the proof is that of work from the start. */
  method GenerateProof(labelHash: Bytes -> Node, merkleHash: (Node, Node) -> Node, sha: Bytes -> Node,
                       dir: Datadir<Node>, env: SW.Environment, securityParam: nat) returns (a: Attempt)
    requires 1 <= securityParam < 256
    ensures var hf := Hashes(Labelling(labelHash), merkleHash);
            && a == (if dir.files != map[] then DirectoryNotEmpty
                     else Generated(SW.ResultOf(hf, sha, env, 0, securityParam)))
            && (a.Generated? && a.result.Proof? ==> Accepts(hf, sha, a.result.proof, a.result.leaves, securityParam))
  {
    hide Accepts, HonestProof, Labelling, Parked;
    if |dir.files| > 0 {
      return DirectoryNotEmpty;
    }
    ghost var hf := Hashes(Labelling(labelHash), merkleHash);
    var tree := new Tree(Hasher(merkleHash, PADDING));
    assert Leaves(hf, 0) == [];
    var result := SW.GenerateProof(labelHash, sha, tree, env, 0, securityParam);
    a := Generated(result);
  }

  /** Whatever part of the DAG the layer files hold beyond the saved leaf count, the proof is that of work which was
      never interrupted. There is none exactly if layer 0 is missing, a file is too short or the topmost one keeps no
      node. */
  method GenerateProofRecovery(labelHash: Bytes -> Node, merkleHash: (Node, Node) -> Node, sha: Bytes -> Node,
                               dir: Datadir<Node>, env: SW.Environment, securityParam: nat, nextLeafID: nat)
    returns (a: Attempt)
    requires 1 <= securityParam < 256 && (0 in dir.files ==> Contiguous(dir.files, |dir.files|))
    requires var dag := Dag(Hashes(Labelling(labelHash), merkleHash));
             forall h | h in dir.files :: IsLayerOf(dag, dir.files[h], h)
    modifies dir
    ensures var hf := Hashes(Labelling(labelHash), merkleHash);
            && (if 0 !in old(dir.files) then a == NotRecovered(LayerZeroMissing)
                else if !LongEnough(old(dir.files), Widths(nextLeafID)) then a.NotRecovered? && a.failure.TooShort?
                else if Shr(nextLeafID, |old(dir.files)| - 1) == 0 then a == NotRecovered(EmptyTopLayer)
                else a == Generated(SW.ResultOf(hf, sha, env, nextLeafID, securityParam)))
            && (a.Generated? && a.result.Proof? ==> Accepts(hf, sha, a.result.proof, a.result.leaves, securityParam))
  {
    hide Accepts, HonestProof, Labelling, Parked, Leaves, Rebuilt, Shr, Dag;
    ghost var hf, d := Hashes(Labelling(labelHash), merkleHash), |dir.files|;
    ghost var s, width := Leaves(hf, nextLeafID), Widths(nextLeafID);
    var m := Hasher(merkleHash, PADDING);
    ghost var was, cut := dir.files, Truncated(dir.files, width);
    var recovered := MakeRecoveryProofTree(dir, m, nextLeafID, d);
    if recovered.Failed? {
      return NotRecovered(recovered.failure);
    }
    CR.CutIsTrue(hf, was, nextLeafID);
    RecoveredIsTree(m, s, cut, d);
    var tree := new Tree.Resume(m, recovered.value.parked, recovered.value.cache, s);
    var result := SW.GenerateProof(labelHash, sha, tree, env, nextLeafID, securityParam);
    a := Generated(result);
  }

  lemma RecoveredIsTree(m: Hasher<Node>, s: seq<Node>, files: Files<Node>, d: nat)
    requires Contiguous(files, d) && CacheHolds(m, files, s) && Shr(|s|, d - 1) > 0
    ensures Rebuilt(m, files, d).parked == Parked(m, s)
    ensures CacheHolds(m, Rebuilt(m, files, d).cache, s) && 0 in Rebuilt(m, files, d).cache
  {
    hide Rebuilt, Parked, Shr;
    RebuiltIsTree(m, s, files, d);
    assert |Parked(m, s)| > 0;
  }
}
