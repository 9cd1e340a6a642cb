/** Registration and worker together: what a published proof says about the members of its round. */
module EndToEnd {
  import opened MerkleTree
  import opened Labels
  import opened ProofOfWork
  import opened RoundStore
  import opened Membership
  import R = Registration
  import W = Worker
  import CR = CrashRuns
  import opened PartialProof
  import Recovery
  import FiatShamir

  /** The statement of a round: its membership root, which is empty for a round without members. */
  function Statement(root: Option<Bytes>): Bytes {
    match root
    case None => []
    case Some(b) => b
  }

  /** The worker is sent the given roots only. */
  ghost predicate Fed(roots: nat -> Bytes, w: W.State, w': W.State) {
    w'.slot.Some? ==> w'.slot == w.slot || w'.slot.value.1 == roots(w'.slot.value.0)
  }

  ghost predicate IsFedRun(c: W.Config, roots: nat -> Bytes, run: seq<W.State>) {
    && run != []
    && if |run| == 1 then W.Init(run[0])
       else
         && IsFedRun(c, roots, run[..|run| - 1])
         && W.Next(c, run[|run| - 2], run[|run| - 1]) && Fed(roots, run[|run| - 2], run[|run| - 1])
  }

  /** An epoch is taken up: its state file is loaded if there is one. */
  ghost predicate TakesUp(c: W.Config, w: W.State, w': W.State, e: nat, root: Bytes) {
    W.NotStarted(c, w, w', e, root) || W.Receive(c, w, w', e, root)
  }

  /** That state file is blank, as a start of the worker leaves it in a directory that had none and is not removed. */
  predicate BlankFound(w: W.State, e: nat, root: Bytes) {
    e in w.rounds && w.rounds[e].saved && w.rounds[e].statement == [] && root != []
  }

  ghost predicate TakesBlank(c: W.Config, w: W.State, w': W.State, e: nat) {
    exists root :: TakesUp(c, w, w', e, root) && BlankFound(w, e, root)
  }

  /** No step of the run takes up epoch e with a blank state file. */
  ghost predicate TakesNoBlank(c: W.Config, run: seq<W.State>, e: nat) {
    |run| > 1 ==> TakesNoBlank(c, run[..|run| - 1], e) && !TakesBlank(c, run[|run| - 2], run[|run| - 1], e)
  }

  /** The statements of epoch e are among the given ones wherever they may be used, that is, except in blank state files
      of rounds that have not been started. */
  ghost predicate UsesOnly(e: nat, statements: set<Bytes>, root: Bytes, w: W.State) {
    && root in statements
    && (w.slot.Some? && w.slot.value.0 == e ==> w.slot.value.1 == root)
    && (e in w.rounds ==>
        var r := w.rounds[e];
        && (r.saved ==> r.statement in statements || (!r.started && r.nip.None? && r.statement == []))
        && (!r.saved ==> !r.started && r.nip.None? && r.statement == []))
    && (w.phase.Done? && w.phase.publication.epoch == e ==> w.phase.publication.statement in statements)
    && (forall x | x in w.late && x.epoch == e :: x.statement in statements)
    && (forall p | p in w.published && p.epoch == e :: p.statement in statements)
  }

  /** The work on epoch e, and all that is published for it, is on its root. */
  ghost predicate UsesRoot(roots: nat -> Bytes, e: nat, w: W.State) {
    UsesOnly(e, {roots(e)}, roots(e), w)
  }

  ghost predicate AlwaysUsesRoot(roots: nat -> Bytes, e: nat, run: seq<W.State>) {
    forall w | w in run :: UsesRoot(roots, e, w)
  }

  // Each step in turn; e0 is the epoch it concerns.

  lemma ScansUseOnly(e: nat, statements: set<Bytes>, root: Bytes, w: W.State, w': W.State, e0: nat)
    requires UsesOnly(e, statements, root, w)
    requires W.ScanFinished(w, w', e0) || W.ScanOpen(w, w', e0) || W.ScanExecuting(w, w', e0) || W.ScanFails(w, w', e0)
    ensures UsesOnly(e, statements, root, w')
  {
  }

  lemma ReceivingUsesOnly(c: W.Config, e: nat, statements: set<Bytes>, root: Bytes, w: W.State, w': W.State, e0: nat,
                          root0: Bytes)
    requires UsesOnly(e, statements, root, w)
    requires W.NotCreated(c, w, w', e0, root0) || TakesUp(c, w, w', e0, root0)
    requires TakesUp(c, w, w', e0, root0) && e0 == e && BlankFound(w, e0, root0) ==> [] in statements
    ensures UsesOnly(e, statements, root, w')
  {
    hide W.CR.Start;
    assert e0 == e ==> root0 == root;
  }

  lemma WorkUsesOnly(c: W.Config, e: nat, statements: set<Bytes>, root: Bytes, w: W.State, w': W.State, e0: nat)
    requires UsesOnly(e, statements, root, w) && e0 in w.rounds && w.rounds[e0].started
    requires W.Resume(c, w, w', e0) || W.Work(c, w, w', e0) || exists leaves: nat :: W.Stop(w, w', e0, leaves)
    ensures UsesOnly(e, statements, root, w')
  {
    hide W.CR.Recover, W.CR.FailedRecovery, W.CR.Leaf, W.CR.Flush, W.CR.Save, W.CR.Crash;
  }

  lemma FinishUsesOnly(c: W.Config, e: nat, statements: set<Bytes>, root: Bytes, w: W.State, w': W.State, e0: nat,
                       p: W.Publication)
    requires UsesOnly(e, statements, root, w) && e0 in w.rounds && w.rounds[e0].started
    requires W.Finish(c, w, w', e0, p) || W.FinishUnsaved(c, w, w', e0, p)
    ensures UsesOnly(e, statements, root, w')
  {
    hide W.CR.ProofOf, W.CR.Crash;
  }

  lemma EndingUsesOnly(e: nat, statements: set<Bytes>, root: Bytes, w: W.State, w': W.State)
    requires UsesOnly(e, statements, root, w)
    requires (exists p: W.Publication :: W.PublishSaved(w, w', p)) || (exists x: W.Late :: W.LateSave(w, w', x))
             || (exists e0: nat :: W.Cleanup(w, w', e0)) || W.Die(w, w')
    ensures UsesOnly(e, statements, root, w')
  {
    hide W.CR.Crash;
  }

  lemma WaitingUsesOnly(c: W.Config, roots: nat -> Bytes, e: nat, statements: set<Bytes>, w: W.State, w': W.State)
    requires UsesOnly(e, statements, roots(e), w) && Fed(roots, w, w')
    requires (exists e0: nat, root: Bytes :: W.Deliver(w, w', e0, root)) || W.Boot(w, w') || W.ScanNothing(w, w')
             || W.SkipPast(c, w, w')
    ensures UsesOnly(e, statements, roots(e), w')
  {
  }

  lemma ExecutingIsStarted(c: W.Config, w: W.State, e: nat)
    requires W.Inv(c, w) && (w.phase == W.Working(e) || w.phase == W.Scanning({}, Some(e)))
    ensures e in w.rounds && w.rounds[e].started
  {
    hide W.RoundOk, W.ClaimsOk, W.CleanupOk, W.StatementsOk, W.CountsOk;
    assert W.LocalOk(c, w.now, e, W.At(w, e));
  }

  /** Only the taking up of a blank brings a new statement in. */
  lemma NextUsesOnly(c: W.Config, roots: nat -> Bytes, e: nat, statements: set<Bytes>, w: W.State, w': W.State)
    requires W.Inv(c, w) && UsesOnly(e, statements, roots(e), w) && W.Next(c, w, w') && Fed(roots, w, w')
    requires TakesBlank(c, w, w', e) ==> [] in statements
    ensures UsesOnly(e, statements, roots(e), w')
  {
    hide W.Inv, UsesOnly, Fed, BlankFound;
    if e0: nat :|
        W.ScanFinished(w, w', e0) || W.ScanOpen(w, w', e0) || W.ScanExecuting(w, w', e0) || W.ScanFails(w, w', e0) {
      ScansUseOnly(e, statements, roots(e), w, w', e0);
    } else if e0: nat, root: Bytes :|
        W.NotCreated(c, w, w', e0, root) || W.NotStarted(c, w, w', e0, root) || W.Receive(c, w, w', e0, root) {
      ReceivingUsesOnly(c, e, statements, roots(e), w, w', e0, root);
    } else if e0: nat :| W.Resume(c, w, w', e0) || W.Work(c, w, w', e0) {
      ExecutingIsStarted(c, w, e0);
      WorkUsesOnly(c, e, statements, roots(e), w, w', e0);
    } else if e0: nat, leaves: nat :| W.Stop(w, w', e0, leaves) {
      ExecutingIsStarted(c, w, e0);
      WorkUsesOnly(c, e, statements, roots(e), w, w', e0);
    } else if e0: nat, p: W.Publication :| W.Finish(c, w, w', e0, p) || W.FinishUnsaved(c, w, w', e0, p) {
      ExecutingIsStarted(c, w, e0);
      FinishUsesOnly(c, e, statements, roots(e), w, w', e0, p);
    } else if (exists p: W.Publication :: W.PublishSaved(w, w', p)) || (exists x: W.Late :: W.LateSave(w, w', x))
              || (exists e0: nat :: W.Cleanup(w, w', e0)) || W.Die(w, w') {
      EndingUsesOnly(e, statements, roots(e), w, w');
    } else {
      WaitingUsesOnly(c, roots, e, statements, w, w');
    }
  }

  /** Taking up a blank, the worker goes on with the empty statement. */
  lemma TakingBlankMisuses(c: W.Config, roots: nat -> Bytes, e: nat, w: W.State, w': W.State)
    requires UsesRoot(roots, e, w) && TakesBlank(c, w, w', e)
    ensures !UsesRoot(roots, e, w')
  {
    hide W.CR.Start;
    var root :| TakesUp(c, w, w', e, root) && BlankFound(w, e, root);
    assert root == roots(e);
    var r := W.Loaded(w.rounds, e, root);
    if W.NotStarted(c, w, w', e, root) {
      assert W.Late(e, r.statement, r.exec.checkpoint, r.nip) in w'.late;
    }
  }

  lemma {:induction false} FedRunIsRun(c: W.Config, roots: nat -> Bytes, run: seq<W.State>)
    requires IsFedRun(c, roots, run)
    ensures W.IsRun(c, run)
    decreases |run|
  {
    hide W.Next, Fed;
    if |run| > 1 {
      FedRunIsRun(c, roots, run[..|run| - 1]);
    }
  }

  /** The last step of a run, and the invariant before it. */
  lemma LastStep(c: W.Config, roots: nat -> Bytes, run: seq<W.State>) returns (before: seq<W.State>)
    requires IsFedRun(c, roots, run) && |run| > 1 && c.securityParam >= 1
    ensures before == run[..|run| - 1] && run == before + [run[|run| - 1]] && IsFedRun(c, roots, before)
    ensures before[|before| - 1] == run[|run| - 2] && W.Inv(c, run[|run| - 2])
    ensures W.Next(c, run[|run| - 2], run[|run| - 1]) && Fed(roots, run[|run| - 2], run[|run| - 1])
  {
    hide W.Next, Fed, W.Inv;
    before := run[..|run| - 1];
    FedRunIsRun(c, roots, before);
    W.RunsKeepInv(c, before);
  }

  /** In every run of a worker that is sent the given roots, the work on an epoch and all that is published for it is on
      its root, exactly if the epoch is never taken up with a blank state file. */
  lemma {:induction false} FedRunsUseRoots(c: W.Config, roots: nat -> Bytes, run: seq<W.State>, e: nat)
    requires IsFedRun(c, roots, run) && c.securityParam >= 1
    ensures AlwaysUsesRoot(roots, e, run) <==> TakesNoBlank(c, run, e)
    decreases |run|
  {
    hide W.Next, W.Inv, Fed, TakesBlank;
    if |run| > 1 {
      var before := LastStep(c, roots, run);
      hide UsesRoot;
      FedRunsUseRoots(c, roots, before, e);
      StepUsesRoot(c, roots, run[|run| - 2], run[|run| - 1], e);
      assert forall w | w in run :: w in before || w == run[|run| - 1];
      assert run[|run| - 2] in before;
    }
  }

  lemma StepUsesRoot(c: W.Config, roots: nat -> Bytes, w: W.State, w': W.State, e: nat)
    requires W.Inv(c, w) && W.Next(c, w, w') && Fed(roots, w, w')
    ensures UsesRoot(roots, e, w) ==> (UsesRoot(roots, e, w') <==> !TakesBlank(c, w, w', e))
  {
    hide W.Inv, W.Next, Fed, TakesBlank, UsesOnly;
    if UsesRoot(roots, e, w) {
      if TakesBlank(c, w, w', e) {
        TakingBlankMisuses(c, roots, e, w, w');
      } else {
        NextUsesOnly(c, roots, e, {roots(e)}, w, w');
      }
    }
  }

  /** Blank or not, nothing is ever published but for the root or the empty statement. */
  lemma {:induction false} RootOrBlank(c: W.Config, roots: nat -> Bytes, run: seq<W.State>, e: nat)
    requires IsFedRun(c, roots, run) && c.securityParam >= 1
    ensures UsesOnly(e, {roots(e), []}, roots(e), run[|run| - 1])
    decreases |run|
  {
    hide W.Next, W.Inv, Fed, TakesBlank;
    if |run| > 1 {
      hide UsesOnly;
      var before := LastStep(c, roots, run);
      RootOrBlank(c, roots, before, e);
      NextUsesOnly(c, roots, e, {roots(e), []}, run[|run| - 2], run[|run| - 1]);
    }
  }

  // ---------------------------------------------------------------------------------------------
  // Which statement a publication is for is decided when the work on its epoch starts.

  ghost predicate StartsBlank(c: W.Config, w: W.State, w': W.State, e: nat) {
    exists root :: W.Receive(c, w, w', e, root) && BlankFound(w, e, root)
  }

  /** No step of the run starts the work on epoch e with a blank state file. */
  ghost predicate NeverStartsBlank(c: W.Config, run: seq<W.State>, e: nat) {
    |run| > 1 ==> NeverStartsBlank(c, run[..|run| - 1], e) && !StartsBlank(c, run[|run| - 2], run[|run| - 1], e)
  }

  /** Wherever there is work on epoch e, or what came of it, the statement is the given one. */
  ghost predicate WorksOn(e: nat, statement: Bytes, w: W.State) {
    && (e in w.rounds ==>
        var r := w.rounds[e];
        r.exec.live.Some? || r.exec.checkpoint > 0 || r.nip.Some? ==> r.statement == statement)
    && (w.phase.Done? && w.phase.publication.epoch == e ==> w.phase.publication.statement == statement)
    && (forall x | x in w.late && x.epoch == e && (x.leaves > 0 || x.nip.Some?) :: x.statement == statement)
    && (forall p | p in w.published && p.epoch == e :: p.statement == statement)
  }

  /** The work on an epoch has started, and cannot start again. */
  ghost predicate Begun(c: W.Config, e: nat, w: W.State) {
    c.end(e) <= w.now
    || (e in w.rounds && w.rounds[e].saved && w.rounds[e].started && w.rounds[e].exec.files != map[])
  }

  /** What the invariant of the worker says about epoch e. */
  lemma Facts(c: W.Config, w: W.State, e: nat)
    requires W.Inv(c, w)
    ensures e in w.rounds ==>
              var r := w.rounds[e];
              && (!r.saved ==> !r.started && r.nip.None?)
              && (r.exec.live.Some? ==>
                    (r.started && 0 in r.exec.files && 0 in r.exec.live.value.cache && r.exec.live.value.disk > 0))
              && (r.nip.Some? ==> c.end(e) <= w.now)
              && (!r.started && r.nip.None? ==> r.exec.checkpoint == 0 && r.exec.live.None?)
    ensures w.phase == W.Working(e) ==> e in w.rounds && w.rounds[e].exec.live.Some?
    ensures e in w.cleanup ==> c.end(e) <= w.now
    ensures forall x | x in w.late && x.epoch == e && e in w.rounds && w.rounds[e].exec.live.Some? ::
              x.statement == w.rounds[e].statement
  {
    hide W.Accepted, W.CR.FilesTrue;
    var l := W.At(w, e);
    assert W.LocalOk(c, w.now, e, l);
    W.ProofsAreClaims(e, l);
    assert forall x | x in w.late && x.epoch == e :: x in l.late;
  }

  lemma ScansWorkOn(e: nat, s: Bytes, w: W.State, w': W.State, e0: nat)
    requires WorksOn(e, s, w)
    requires W.ScanFinished(w, w', e0) || W.ScanOpen(w, w', e0) || W.ScanExecuting(w, w', e0) || W.ScanFails(w, w', e0)
    ensures WorksOn(e, s, w')
  {
  }

  lemma ReceivingWorksOn(c: W.Config, e: nat, s: Bytes, w: W.State, w': W.State, e0: nat, root: Bytes)
    requires W.Inv(c, w) && WorksOn(e, s, w)
    requires W.NotCreated(c, w, w', e0, root) || TakesUp(c, w, w', e0, root)
    requires W.Receive(c, w, w', e0, root) && e0 == e ==> W.Loaded(w.rounds, e, root).statement == s
    ensures WorksOn(e, s, w')
  {
    hide W.CR.Start, W.Inv;
    Facts(c, w, e);
  }

  lemma ResumeWorksOn(c: W.Config, e: nat, s: Bytes, w: W.State, w': W.State, e0: nat)
    requires WorksOn(e, s, w) && W.Resume(c, w, w', e0)
    ensures WorksOn(e, s, w')
  {
    var r, r' := w.rounds[e0], w'.rounds[e0];
    if w'.phase == W.Working(e0) {
      W.RecoversFromPositive(c.hashes(r.statement), r.exec, r'.exec);
    } else {
      W.FailureKeeps(c.hashes(r.statement), r.exec, r'.exec);
    }
    hide W.CR.Recover, W.CR.FailedRecovery;
  }

  lemma WorkingWorksOn(c: W.Config, e: nat, s: Bytes, w: W.State, w': W.State, e0: nat)
    requires W.Inv(c, w) && WorksOn(e, s, w)
    requires W.Work(c, w, w', e0) || exists leaves: nat :: W.Stop(w, w', e0, leaves)
    ensures WorksOn(e, s, w')
  {
    hide W.Inv, W.CR.Durable, W.CR.Flushed, W.CR.AddLeaf;
    Facts(c, w, e0);
  }

  lemma FinishWorksOn(c: W.Config, e: nat, s: Bytes, w: W.State, w': W.State, e0: nat, p: W.Publication)
    requires WorksOn(e, s, w)
    requires W.Finish(c, w, w', e0, p) || W.FinishUnsaved(c, w, w', e0, p)
    ensures WorksOn(e, s, w')
  {
    hide W.CR.ProofOf, W.CR.Durable;
  }

  lemma EndingWorksOn(c: W.Config, e: nat, s: Bytes, w: W.State, w': W.State)
    requires W.Inv(c, w) && WorksOn(e, s, w)
    requires (exists p: W.Publication :: W.PublishSaved(w, w', p)) || (exists x: W.Late :: W.LateSave(w, w', x))
             || (exists e0: nat :: W.Cleanup(w, w', e0)) || W.Die(w, w')
    ensures WorksOn(e, s, w')
  {
    hide W.CR.Durable, W.Inv;
    Facts(c, w, e);
  }

  lemma WaitingWorksOn(c: W.Config, e: nat, s: Bytes, w: W.State, w': W.State)
    requires WorksOn(e, s, w)
    requires (exists e0: nat, root: Bytes :: W.Deliver(w, w', e0, root)) || W.Boot(w, w') || W.ScanNothing(w, w')
             || W.SkipPast(c, w, w')
    ensures WorksOn(e, s, w')
  {
  }

  /** The statement stays the one that the work started with. */
  lemma NextWorksOn(c: W.Config, e: nat, s: Bytes, w: W.State, w': W.State)
    requires W.Inv(c, w) && WorksOn(e, s, w) && W.Next(c, w, w')
    requires forall root :: W.Receive(c, w, w', e, root) ==> W.Loaded(w.rounds, e, root).statement == s
    ensures WorksOn(e, s, w')
  {
    hide W.Inv, WorksOn;
    if e0: nat :|
        W.ScanFinished(w, w', e0) || W.ScanOpen(w, w', e0) || W.ScanExecuting(w, w', e0) || W.ScanFails(w, w', e0) {
      ScansWorkOn(e, s, w, w', e0);
    } else if e0: nat, root: Bytes :|
        W.NotCreated(c, w, w', e0, root) || W.NotStarted(c, w, w', e0, root) || W.Receive(c, w, w', e0, root) {
      ReceivingWorksOn(c, e, s, w, w', e0, root);
    } else if e0: nat :| W.Resume(c, w, w', e0) {
      ResumeWorksOn(c, e, s, w, w', e0);
    } else if e0: nat :| W.Work(c, w, w', e0) {
      WorkingWorksOn(c, e, s, w, w', e0);
    } else if e0: nat, leaves: nat :| W.Stop(w, w', e0, leaves) {
      WorkingWorksOn(c, e, s, w, w', e0);
    } else if e0: nat, p: W.Publication :| W.Finish(c, w, w', e0, p) || W.FinishUnsaved(c, w, w', e0, p) {
      FinishWorksOn(c, e, s, w, w', e0, p);
    } else if (exists p: W.Publication :: W.PublishSaved(w, w', p)) || (exists x: W.Late :: W.LateSave(w, w', x))
              || (exists e0: nat :: W.Cleanup(w, w', e0)) || W.Die(w, w') {
      EndingWorksOn(c, e, s, w, w');
    } else {
      WaitingWorksOn(c, e, s, w, w');
    }
  }

  /** Before the end of its epoch, the directory of a round that has started keeps its state file and its layer
      files. */
  lemma ScansKeepBegun(c: W.Config, e: nat, w: W.State, w': W.State, e0: nat)
    requires W.Inv(c, w) && w.now < w'.now && Begun(c, e, w)
    requires W.ScanFinished(w, w', e0) || W.ScanOpen(w, w', e0) || W.ScanExecuting(w, w', e0) || W.ScanFails(w, w', e0)
    ensures Begun(c, e, w')
  {
    hide W.Inv;
    Facts(c, w, e);
  }

  lemma ReceivingKeepsBegun(c: W.Config, e: nat, w: W.State, w': W.State, e0: nat, root: Bytes)
    requires w.now < w'.now && Begun(c, e, w)
    requires W.NotCreated(c, w, w', e0, root) || TakesUp(c, w, w', e0, root)
    ensures Begun(c, e, w')
  {
  }

  lemma WorkStartsOnce(c: W.Config, e: nat, w: W.State, w': W.State, root: Bytes)
    requires w.now < w'.now && Begun(c, e, w)
    ensures !W.Receive(c, w, w', e, root)
  {
  }

  lemma ResumeKeepsBegun(c: W.Config, e: nat, w: W.State, w': W.State, e0: nat)
    requires w.now < w'.now && Begun(c, e, w) && W.Resume(c, w, w', e0)
    ensures Begun(c, e, w')
  {
    FilesRemain(c.hashes(w.rounds[e0].statement), w.rounds[e0].exec, w'.rounds[e0].exec);
    hide W.CR.Recover, W.CR.FailedRecovery;
  }

  lemma FilesRemain(hf: Hashes, exec: CR.Exec, exec': CR.Exec)
    requires CR.Recover(hf, exec, exec') || CR.FailedRecovery(exec, exec')
    ensures exec.files != map[] ==> exec'.files != map[]
  {
    hide Recovery.Rebuilt, Recovery.CutTo;
    if exec.files != map[] {
      var h :| h in exec.files;
      assert h in exec'.files;
    }
  }

  lemma WorkingKeepsBegun(c: W.Config, e: nat, w: W.State, w': W.State, e0: nat)
    requires W.Inv(c, w) && W.Inv(c, w') && w.now < w'.now && Begun(c, e, w)
    requires W.Work(c, w, w', e0) || (exists leaves: nat :: W.Stop(w, w', e0, leaves))
             || (exists p: W.Publication :: W.Finish(c, w, w', e0, p) || W.FinishUnsaved(c, w, w', e0, p))
    ensures Begun(c, e, w')
  {
    hide W.Inv, CR.ProofOf, CR.AddLeaf;
    Facts(c, w, e0);
    Facts(c, w', e0);
  }

  lemma EndingKeepsBegun(c: W.Config, e: nat, w: W.State, w': W.State)
    requires W.Inv(c, w) && w.now < w'.now && Begun(c, e, w)
    requires (exists p: W.Publication :: W.PublishSaved(w, w', p)) || (exists x: W.Late :: W.LateSave(w, w', x))
             || (exists e0: nat :: W.Cleanup(w, w', e0)) || W.Die(w, w')
    ensures Begun(c, e, w')
  {
    hide W.Inv;
    Facts(c, w, e);
  }

  lemma WaitingKeepsBegun(c: W.Config, e: nat, w: W.State, w': W.State)
    requires w.now < w'.now && Begun(c, e, w)
    requires (exists e0: nat, root: Bytes :: W.Deliver(w, w', e0, root)) || W.Boot(w, w') || W.ScanNothing(w, w')
             || W.SkipPast(c, w, w')
    ensures Begun(c, e, w')
  {
  }

  lemma NextKeepsBegun(c: W.Config, e: nat, w: W.State, w': W.State)
    requires W.Inv(c, w) && W.Inv(c, w') && W.Next(c, w, w') && Begun(c, e, w)
    ensures Begun(c, e, w') && forall root :: !W.Receive(c, w, w', e, root)
  {
    hide W.Inv, Begun;
    forall root
      ensures !W.Receive(c, w, w', e, root)
    {
      WorkStartsOnce(c, e, w, w', root);
    }
    if e0: nat :|
        W.ScanFinished(w, w', e0) || W.ScanOpen(w, w', e0) || W.ScanExecuting(w, w', e0) || W.ScanFails(w, w', e0) {
      ScansKeepBegun(c, e, w, w', e0);
    } else if e0: nat, root: Bytes :|
        W.NotCreated(c, w, w', e0, root) || W.NotStarted(c, w, w', e0, root) || W.Receive(c, w, w', e0, root) {
      ReceivingKeepsBegun(c, e, w, w', e0, root);
    } else if e0: nat :| W.Resume(c, w, w', e0) {
      ResumeKeepsBegun(c, e, w, w', e0);
    } else if e0: nat :| W.Work(c, w, w', e0) {
      WorkingKeepsBegun(c, e, w, w', e0);
    } else if e0: nat, leaves: nat :| W.Stop(w, w', e0, leaves) {
      WorkingKeepsBegun(c, e, w, w', e0);
    } else if e0: nat, p: W.Publication :| W.Finish(c, w, w', e0, p) || W.FinishUnsaved(c, w, w', e0, p) {
      WorkingKeepsBegun(c, e, w, w', e0);
    } else if (exists p: W.Publication :: W.PublishSaved(w, w', p)) || (exists x: W.Late :: W.LateSave(w, w', x))
              || (exists e0: nat :: W.Cleanup(w, w', e0)) || W.Die(w, w') {
      EndingKeepsBegun(c, e, w, w');
    } else {
      WaitingKeepsBegun(c, e, w, w');
    }
  }

  /** When the work starts, there is nothing of the epoch yet. */
  lemma StartDecides(c: W.Config, e: nat, w: W.State, w': W.State, root: Bytes)
    requires W.Inv(c, w) && W.Inv(c, w') && w.now < w'.now && W.Receive(c, w, w', e, root)
    ensures WorksOn(e, W.Loaded(w.rounds, e, root).statement, w') && Begun(c, e, w')
  {
    hide W.Accepted, W.CR.FilesTrue, W.CR.LiveTrue;
    var l := W.At(w, e);
    assert W.LocalOk(c, w.now, e, l);
    hide W.LocalOk;
    W.Loadable(c, w.now, e, l, w.rounds, root);
    Facts(c, w', e);
    assert forall p | p in w.published && p.epoch == e :: W.Claim(e, l, p);
    assert forall x | x in w.late && x.epoch == e :: x in l.late;
  }

  /** As long as the work on an epoch has not started with a blank state file, it is on its root; once it has, it is on
      the empty statement, which is not the root. */
  ghost predicate Decided(c: W.Config, roots: nat -> Bytes, e: nat, blank: bool, w: W.State) {
    if blank then roots(e) != [] && WorksOn(e, [], w) && Begun(c, e, w) else WorksOn(e, roots(e), w)
  }

  lemma StepIsDecided(c: W.Config, roots: nat -> Bytes, e: nat, blank: bool, w: W.State, w': W.State)
    requires W.Inv(c, w) && W.Inv(c, w') && W.Next(c, w, w') && Decided(c, roots, e, blank, w)
    requires UsesOnly(e, {roots(e), []}, roots(e), w)
    ensures Decided(c, roots, e, blank || StartsBlank(c, w, w', e), w')
  {
    hide W.Inv, WorksOn, Begun, W.Step;
    if blank {
      NextKeepsBegun(c, e, w, w');
      NextWorksOn(c, e, [], w, w');
    } else if StartsBlank(c, w, w', e) {
      var root :| W.Receive(c, w, w', e, root) && BlankFound(w, e, root);
      StartDecides(c, e, w, w', root);
    } else {
      forall root | W.Receive(c, w, w', e, root)
        ensures W.Loaded(w.rounds, e, root).statement == roots(e)
      {
        assert !BlankFound(w, e, root);
      }
      NextWorksOn(c, e, roots(e), w, w');
    }
  }

  lemma {:induction false} RunsAreDecided(c: W.Config, roots: nat -> Bytes, run: seq<W.State>, e: nat)
    requires IsFedRun(c, roots, run) && c.securityParam >= 1
    ensures Decided(c, roots, e, !NeverStartsBlank(c, run, e), run[|run| - 1])
    decreases |run|
  {
    hide W.Next, W.Inv, Fed, StartsBlank;
    if |run| > 1 {
      hide Decided, UsesOnly;
      var before := LastStep(c, roots, run);
      RunsAreDecided(c, roots, before, e);
      RootOrBlank(c, roots, before, e);
      W.NextKeeps(c, run[|run| - 2], run[|run| - 1]);
      StepIsDecided(c, roots, e, !NeverStartsBlank(c, before, e), run[|run| - 2], run[|run| - 1]);
    }
  }

  /** A publication is for the root of its epoch exactly if the work on it did not start with a blank state file. */
  lemma PublishedForRoot(c: W.Config, roots: nat -> Bytes, run: seq<W.State>, p: W.Publication)
    requires IsFedRun(c, roots, run) && c.securityParam >= 1 && p in run[|run| - 1].published
    ensures p.statement == roots(p.epoch) <==> NeverStartsBlank(c, run, p.epoch)
  {
    hide IsFedRun, NeverStartsBlank, Begun;
    assert run != [] by {
      FedRunIsRun(c, roots, run);
    }
    RunsAreDecided(c, roots, run, p.epoch);
  }

  /** If the worker is sent what the registration sends, a published proof is an honest one, and it is work on the root
      of exactly the members that are saved with it, exactly if that work did not start with a blank state file. These
      members include every challenge acknowledged for the epoch. */
  lemma ProofCoversSavedMembers(rc: R.Config, reg: seq<R.State>, wc: W.Config, work: seq<W.State>, roots: nat -> Bytes,
                                x: R.Sent, z: R.Saved, a: R.Acknowledged, p: W.Publication)
    requires R.IsRun(rc, reg) && IsFedRun(wc, roots, work) && wc.securityParam >= 1
    requires forall y | y in reg[|reg| - 1].sent :: roots(y.epoch) == Statement(y.root)
    requires x in reg[|reg| - 1].sent && z in reg[|reg| - 1].saved && a in reg[|reg| - 1].acknowledged
    requires p in work[|work| - 1].published && x.epoch == z.epoch == a.epoch == p.epoch
    ensures var hf := wc.hashes(p.statement);
            && p.leaves > 0 && HonestProof(hf, wc.sha, p.leaves, wc.securityParam) == Some(p.proof)
            && Accepts(hf, wc.sha, p.proof, p.leaves, wc.securityParam)
    ensures p.statement == Statement(MembershipRoot(rc.hash, z.members)) <==> NeverStartsBlank(wc, work, p.epoch)
    ensures a.challenge in z.members
  {
    hide R.IsRun, W.IsRun, Accepts, HonestProof, MembershipRoot, NeverStartsBlank, W.Next, Fed;
    FedRunIsRun(wc, roots, work);
    PublishedForRoot(wc, roots, work, p);
    W.PublishedProofsAreAccepted(wc, work, p);
    R.StatementMatchesMembers(rc, reg, x, x, z);
    SavedMembersIncludeAcknowledged(rc, reg, z, a);
  }

  lemma SavedMembersIncludeAcknowledged(rc: R.Config, reg: seq<R.State>, z: R.Saved, a: R.Acknowledged)
    requires R.IsRun(rc, reg) && z in reg[|reg| - 1].saved && a in reg[|reg| - 1].acknowledged && z.epoch == a.epoch
    ensures a.challenge in z.members
  {
    hide R.StoreOk, R.BatchesOk;
    R.RunsKeepInv(rc, reg);
    var db := reg[|reg| - 1].databases[a.epoch];
    IterationIsComplete(db, a.key, a.challenge);
    ValueIsThere(InKeyOrder(db), a.key, a.challenge);
  }

  lemma {:induction false} ValueIsThere(entries: seq<(Key, Challenge)>, k: Key, v: Challenge)
    requires (k, v) in entries
    ensures v in Values(entries)
  {
    if entries[0] != (k, v) {
      ValueIsThere(entries[1..], k, v);
    }
  }

  // ---------------------------------------------------------------------------------------------
  // A worker that takes up a blank state file can publish a proof for the wrong statement.

  function Hundred(hashes: Bytes -> Hashes, sha: Bytes -> Node): W.Config {
    W.Config((e: nat) => 100, hashes, sha, 1, 0)
  }

  function SameRoot(): nat -> Bytes {
    (e: nat) => [1]
  }

  lemma GoOn(c: W.Config, run: seq<W.State>, w': W.State) returns (longer: seq<W.State>)
    requires IsFedRun(c, SameRoot(), run)
    requires W.Next(c, run[|run| - 1], w') && Fed(SameRoot(), run[|run| - 1], w')
    ensures longer == run + [w'] && IsFedRun(c, SameRoot(), longer)
  {
    hide W.Next, Fed;
    longer := run + [w'];
    assert longer[..|run|] == run;
  }

  function Waiting(now: int, rounds: map<nat, W.Round>, phase: W.Phase, slot: Option<(nat, Bytes)>): W.State {
    W.State(now, rounds, phase, slot, {}, {}, [])
  }

  /** The directory of the round is set up, but the state file is not written; the worker restarts, and has no luck with
      removing the directory, in which it has written a blank state file; then it is sent the round once more. */
  lemma BlankIsLeftBehind(c: W.Config) returns (run: seq<W.State>)
    requires c.end(0) == 100
    ensures IsFedRun(c, SameRoot(), run)
    ensures run[|run| - 1] == Waiting(8, map[0 := W.Found(W.Bare(map[]))], W.Idle, Some((0, [1])))
  {
    hide W.Step;
    var root: Bytes := [1];
    var bare, blank := map[0 := W.Bare(map[])], map[0 := W.Found(W.Bare(map[]))];
    var w := Waiting(0, map[], W.Down, None);
    run := [w];
    FirstSteps(c);
    run := GoOn(c, run, Waiting(1, map[], W.Scanning({}, None), None));
    run := GoOn(c, run, Waiting(2, map[], W.Idle, None));
    run := GoOn(c, run, Waiting(3, map[], W.Idle, Some((0, root))));
    run := GoOn(c, run, Waiting(4, bare, W.Down, None));
    SecondSteps(c);
    run := GoOn(c, run, Waiting(5, bare, W.Scanning({0}, None), None));
    run := GoOn(c, run, Waiting(6, blank, W.Scanning({}, None), None));
    run := GoOn(c, run, Waiting(7, blank, W.Idle, None));
    run := GoOn(c, run, Waiting(8, blank, W.Idle, Some((0, root))));
  }

  lemma FirstSteps(c: W.Config)
    requires c.end(0) == 100
    ensures W.Step(c, Waiting(0, map[], W.Down, None), Waiting(1, map[], W.Scanning({}, None), None))
    ensures W.Step(c, Waiting(1, map[], W.Scanning({}, None), None), Waiting(2, map[], W.Idle, None))
    ensures W.Step(c, Waiting(2, map[], W.Idle, None), Waiting(3, map[], W.Idle, Some((0, [1]))))
    ensures W.Step(c, Waiting(3, map[], W.Idle, Some((0, [1]))), Waiting(4, map[0 := W.Bare(map[])], W.Down, None))
  {
    var root: Bytes := [1];
    var w0, w1 := Waiting(0, map[], W.Down, None), Waiting(1, map[], W.Scanning({}, None), None);
    var w2, w3 := Waiting(2, map[], W.Idle, None), Waiting(3, map[], W.Idle, Some((0, root)));
    var w4 := Waiting(4, map[0 := W.Bare(map[])], W.Down, None);
    assert w0.rounds.Keys == {};
    assert W.Boot(w0, w1);
    assert W.ScanNothing(w1, w2);
    assert W.Deliver(w2, w3, 0, root);
    assert W.NotCreated(c, w3, w4, 0, root);
  }

  lemma SecondSteps(c: W.Config)
    ensures var bare, blank := map[0 := W.Bare(map[])], map[0 := W.Found(W.Bare(map[]))];
            && W.Step(c, Waiting(4, bare, W.Down, None), Waiting(5, bare, W.Scanning({0}, None), None))
            && W.Step(c, Waiting(5, bare, W.Scanning({0}, None), None), Waiting(6, blank, W.Scanning({}, None), None))
            && W.Step(c, Waiting(6, blank, W.Scanning({}, None), None), Waiting(7, blank, W.Idle, None))
            && W.Step(c, Waiting(7, blank, W.Idle, None), Waiting(8, blank, W.Idle, Some((0, [1]))))
  {
    var root: Bytes := [1];
    var bare, blank := map[0 := W.Bare(map[])], map[0 := W.Found(W.Bare(map[]))];
    var w4, w5 := Waiting(4, bare, W.Down, None), Waiting(5, bare, W.Scanning({0}, None), None);
    var w6, w7 := Waiting(6, blank, W.Scanning({}, None), None), Waiting(7, blank, W.Idle, None);
    var w8 := Waiting(8, blank, W.Idle, Some((0, root)));
    assert bare.Keys == {0} && {0} - {0} == {};
    assert W.Boot(w4, w5);
    assert bare[0 := W.Found(bare[0])] == blank;
    assert W.HalfRemoved(blank[0], blank[0]);
    assert W.ScanOpen(w5, w6, 0);
    assert W.ScanNothing(w6, w7);
    assert W.Deliver(w7, w8, 0, root);
  }

  /** The round at work. */
  function AtWork(now: int, exec: CR.Exec): W.State {
    Waiting(now, map[0 := W.Round(true, true, [], None, exec)], W.Working(0), None)
  }

  const STARTED: CR.Exec := CR.Exec(map[0 := []], 0, Some(CR.FreshTree(1)))

  lemma StartStep(c: W.Config)
    requires c.end(0) == 100 && c.minMemoryLayer == 0
    ensures W.Step(c, Waiting(8, map[0 := W.Found(W.Bare(map[]))], W.Idle, Some((0, [1]))), AtWork(9, STARTED))
  {
    var root: Bytes := [1];
    var w8 := Waiting(8, map[0 := W.Found(W.Bare(map[]))], W.Idle, Some((0, root)));
    assert W.Receive(c, w8, AtWork(9, STARTED), 0, root);
  }

  lemma WorkStep(c: W.Config, now: int, exec: CR.Exec, now': int, exec': CR.Exec)
    requires CR.Leaf(c.hashes([]), exec, exec') || CR.Flush(exec, exec') || CR.Save(exec, exec')
    ensures W.Step(c, AtWork(now, exec), AtWork(now', exec'))
  {
    hide CR.Leaf, CR.Flush, CR.Save;
    assert W.Work(c, AtWork(now, exec), AtWork(now', exec'), 0);
  }

  lemma WorkSteps(c: W.Config)
    ensures var one := CR.AddLeaf(c.hashes([]), CR.FreshTree(1));
            var done := one.(flushed := true);
            && W.Step(c, AtWork(9, STARTED), AtWork(10, CR.Exec(one.cache, 0, Some(one))))
            && W.Step(c, AtWork(10, CR.Exec(one.cache, 0, Some(one))), AtWork(11, CR.Exec(one.cache, 0, Some(done))))
            && W.Step(c, AtWork(11, CR.Exec(one.cache, 0, Some(done))), AtWork(12, CR.Exec(one.cache, 1, Some(done))))
  {
    hide CR.AddLeaf, W.Step;
    var one := CR.AddLeaf(c.hashes([]), CR.FreshTree(1));
    var done := one.(flushed := true);
    CR.OneLeaf(c.hashes([]), 1);
    WorkStep(c, 9, STARTED, 10, CR.Exec(one.cache, 0, Some(one)));
    WorkStep(c, 10, CR.Exec(one.cache, 0, Some(one)), 11, CR.Exec(one.cache, 0, Some(done)));
    WorkStep(c, 11, CR.Exec(one.cache, 0, Some(done)), 12, CR.Exec(one.cache, 1, Some(done)));
  }

  lemma ProofExists(hf: Hashes, sha: Bytes -> Node)
    ensures var done := CR.AddLeaf(hf, CR.FreshTree(1)).(flushed := true);
            done.parked != [] && done.n == 1 && CR.ProofOf(hf, sha, done, 1).Some?
  {
    hide CR.AddLeaf, FiatShamir.Indices, Reveal;
    var done := CR.AddLeaf(hf, CR.FreshTree(1)).(flushed := true);
    CR.OneLeaf(hf, 1);
    FiatShamir.OneOfOne(sha, done.parked[0].value);
  }

  lemma LastSteps(c: W.Config) returns (p: W.Publication, w13: W.State, w14: W.State)
    requires c.end(0) == 100 && c.securityParam == 1
    ensures var done := CR.AddLeaf(c.hashes([]), CR.FreshTree(1)).(flushed := true);
            && W.Step(c, AtWork(12, CR.Exec(done.cache, 1, Some(done))), w13) && W.Step(c, w13, w14)
    ensures w13.now == 100 && w14.now == 101 && w13.slot.None? && w14.slot.None?
    ensures p in w14.published && p.statement == [] && p.epoch == 0
  {
    hide CR.AddLeaf, CR.ProofOf;
    var hf := c.hashes([]);
    var done := CR.AddLeaf(hf, CR.FreshTree(1)).(flushed := true);
    CR.OneLeaf(hf, 1);
    ProofExists(hf, c.sha);
    var proof := CR.ProofOf(hf, c.sha, done, 1).value;
    p := W.Publication(0, [], 1, proof);
    w13 := Waiting(100, map[0 := W.Round(true, true, [], Some(proof), CR.Exec(done.cache, 1, None))], W.Done(p), None);
    w14 := w13.(now := 101, published := [p], cleanup := {0}, phase := W.Idle);
    assert W.Finish(c, AtWork(12, CR.Exec(done.cache, 1, Some(done))), w13, 0, p);
    assert W.PublishSaved(w13, w14, p);
  }

  ghost predicate PublishesWrong(roots: nat -> Bytes, w: W.State) {
    exists p :: p in w.published && p.statement != roots(p.epoch)
  }

  /** All roots sent are the same, and yet a proof for the empty statement is published. */
  lemma WrongStatementRun(hashes: Bytes -> Hashes, sha: Bytes -> Node)
    ensures exists run :: IsFedRun(Hundred(hashes, sha), SameRoot(), run) && PublishesWrong(SameRoot(), run[|run| - 1])
  {
    hide W.Step, CR.AddLeaf;
    var c := Hundred(hashes, sha);
    var one := CR.AddLeaf(c.hashes([]), CR.FreshTree(1));
    var done := one.(flushed := true);
    StartStep(c);
    WorkSteps(c);
    var p, w13, w14 := LastSteps(c);
    var run := BlankIsLeftBehind(c);
    run := GoOn(c, run, AtWork(9, STARTED));
    run := GoOn(c, run, AtWork(10, CR.Exec(one.cache, 0, Some(one))));
    run := GoOn(c, run, AtWork(11, CR.Exec(one.cache, 0, Some(done))));
    run := GoOn(c, run, AtWork(12, CR.Exec(one.cache, 1, Some(done))));
    run := GoOn(c, run, w13);
    run := GoOn(c, run, w14);
    assert p in w14.published && p.statement != SameRoot()(p.epoch);
  }
}
