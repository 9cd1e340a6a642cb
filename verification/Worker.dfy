/** The worker: executes closed rounds one at a time, publishes their proofs, and survives restarts. */
module Worker {
  import opened MerkleTree
  import opened Labels
  import opened ProofOfWork
  import Recovery
  import CR = CrashRuns

  /** What stays fixed over a run: when the execution of an epoch ends, how a statement salts the hash functions, and
      the parameters of proofs and trees. */
  datatype Config = Config(end: nat -> int, hashes: Bytes -> Hashes, sha: Bytes -> Node, securityParam: nat,
                           minMemoryLayer: nat)

  /** The directory of a round: whether there is a state file, what it says, except for the leaf count, which is kept in
      exec together with the layer files. */
  datatype Round = Round(saved: bool, started: bool, statement: Bytes, nip: Option<MerkleProof>, exec: CR.Exec)

  /** A published proof, together with the statement it was made for. */
  datatype Publication = Publication(epoch: nat, statement: Bytes, leaves: nat, proof: MerkleProof)

  /** What an execution that failed holds in memory: its teardown will write it to the state file once more. */
  datatype Late = Late(epoch: nat, statement: Bytes, leaves: nat, nip: Option<MerkleProof>)

  /** Down: no process. Scanning: looking through the round directories after a start, resume being the last one found
      in execution. Done: a proof is saved, and about to be published. */
  datatype Phase = Down | Scanning(todo: set<nat>, resume: Option<nat>) | Idle | Working(epoch: nat)
                 | Done(publication: Publication)

  /** slot is the channel of closed rounds; cleanup and late are the teardowns under way, with and without removal. */
  datatype State = State(now: int, rounds: map<nat, Round>, phase: Phase, slot: Option<(nat, Bytes)>, cleanup: set<nat>,
                         late: set<Late>, published: seq<Publication>)

  function Publish(e: nat, r: Round): Publication
    requires r.nip.Some?
  {
    Publication(e, r.statement, r.exec.checkpoint, r.nip.value)
  }

  function AsLate(p: Publication): Late {
    Late(p.epoch, p.statement, p.leaves, Some(p.proof))
  }

  // ---------------------------------------------------------------------------------------------
  // The steps. Every one of them takes time.

  /** A closed round is sent; it is dropped if the channel is full. */
  ghost predicate Deliver(w: State, w': State, e: nat, root: Bytes) {
    w' == w.(now := w'.now, slot := if w.slot.None? then Some((e, root)) else w.slot)
  }

  /** A process starts when the previous one, with the teardowns it had under way, is gone. */
  ghost predicate Boot(w: State, w': State) {
    && w.phase.Down? && w.cleanup == {} && w.late == {}
    && w' == w.(now := w'.now, phase := Scanning(w.rounds.Keys, None))
  }

  /** A directory without a state file. */
  function Bare(files: map<nat, seq<Node>>): Round {
    Round(false, false, [], None, CR.Exec(files, 0, None))
  }

  /** Removing a directory may fail half-way, before or after the state file is gone. */
  ghost predicate HalfRemoved(r: Round, r': Round) {
    && (forall h | h in r'.exec.files :: h in r.exec.files && r'.exec.files[h] == r.exec.files[h])
    && r'.exec.live.None?
    && ((r' == r.(exec := r'.exec) && r'.exec.checkpoint == r.exec.checkpoint) || r' == Bare(r'.exec.files))
  }

  ghost predicate Removed(rounds: map<nat, Round>, e: nat, rounds': map<nat, Round>) {
    || rounds' == rounds - {e}
    || (e in rounds && e in rounds' && rounds' == rounds[e := rounds'[e]] && HalfRemoved(rounds[e], rounds'[e]))
  }

  /** A directory that is scanned gets a state file if it has none. */
  function Found(r: Round): Round {
    r.(saved := true)
  }

  /** A finished round is published, unless that fails, and removed. */
  ghost predicate ScanFinished(w: State, w': State, e: nat) {
    && w.phase.Scanning? && e in w.phase.todo && e in w.rounds && w.rounds[e].nip.Some?
    && (w'.published == w.published || w'.published == w.published + [Publish(e, w.rounds[e])])
    && Removed(w.rounds, e, w'.rounds)
    && w' == w.(now := w'.now, rounds := w'.rounds, published := w'.published,
                phase := w.phase.(todo := w.phase.todo - {e}))
  }

  /** A round that was never started is removed. */
  ghost predicate ScanOpen(w: State, w': State, e: nat) {
    && w.phase.Scanning? && e in w.phase.todo && e in w.rounds
    && w.rounds[e].nip.None? && !w.rounds[e].started
    && Removed(w.rounds[e := Found(w.rounds[e])], e, w'.rounds)
    && w' == w.(now := w'.now, rounds := w'.rounds, phase := w.phase.(todo := w.phase.todo - {e}))
  }

  /** A round in execution is the one to resume, in place of one found earlier. */
  ghost predicate ScanExecuting(w: State, w': State, e: nat) {
    && w.phase.Scanning? && e in w.phase.todo && e in w.rounds
    && w.rounds[e].nip.None? && w.rounds[e].started
    && w' == w.(now := w'.now, phase := Scanning(w.phase.todo - {e}, Some(e)))
  }

  /** The scan gives up on a directory, whose state file may have been written by then. */
  ghost predicate ScanFails(w: State, w': State, e: nat) {
    && w.phase.Scanning? && e in w.phase.todo && e in w.rounds
    && (w'.rounds == w.rounds || w'.rounds == w.rounds[e := Found(w.rounds[e])])
    && w' == w.(now := w'.now, rounds := w'.rounds, phase := Down)
  }

  ghost predicate ScanNothing(w: State, w': State) {
    && w.phase.Scanning? && w.phase.todo == {} && w.phase.resume.None?
    && w' == w.(now := w'.now, phase := Idle)
  }

  /** Recovery sets the tree to work again, or gives up and ends the process. */
  ghost predicate Resume(c: Config, w: State, w': State, e: nat) {
    && w.phase == Scanning({}, Some(e)) && e in w.rounds && e in w'.rounds
    && var r, r' := w.rounds[e], w'.rounds[e];
       && w' == w.(now := w'.now, rounds := w.rounds[e := r'], phase := w'.phase, late := w'.late)
       && r' == r.(exec := r'.exec)
       && ((CR.Recover(c.hashes(r.statement), r.exec, r'.exec) && w'.phase == Working(e) && w'.late == w.late)
           || (CR.FailedRecovery(r.exec, r'.exec) && w'.phase == Down
               && w'.late == w.late + {Late(e, r.statement, r.exec.checkpoint, None)}))
  }

  ghost predicate SkipPast(c: Config, w: State, w': State) {
    && w.phase.Idle? && w.slot.Some? && c.end(w.slot.value.0) < w'.now
    && w' == w.(now := w'.now, slot := None)
  }

  /** The state file of an epoch is loaded if there is one, and written otherwise. */
  function Loaded(rounds: map<nat, Round>, e: nat, root: Bytes): Round {
    if e in rounds && rounds[e].saved then rounds[e]
    else Round(true, false, root, None, if e in rounds then rounds[e].exec else CR.NEW)
  }

  ghost predicate Receives(c: Config, w: State, w': State, e: nat, root: Bytes) {
    w.phase.Idle? && w.slot == Some((e, root)) && c.end(e) >= w'.now
  }

  /** The directory of a round that is not past cannot be set up, and the process ends. */
  ghost predicate NotCreated(c: Config, w: State, w': State, e: nat, root: Bytes) {
    && Receives(c, w, w', e, root)
    && (w'.rounds == w.rounds || (e !in w.rounds && w'.rounds == w.rounds[e := Bare(map[])]))
    && w' == w.(now := w'.now, slot := None, rounds := w'.rounds, phase := Down)
  }

  /** The round is set up, but the work does not start. */
  ghost predicate NotStarted(c: Config, w: State, w': State, e: nat, root: Bytes) {
    && Receives(c, w, w', e, root)
    && var r := Loaded(w.rounds, e, root);
       && (w'.rounds == w.rounds[e := r] || w'.rounds == w.rounds[e := r.(started := true)])
       && w' == w.(now := w'.now, slot := None, rounds := w'.rounds,
                   late := w.late + {Late(e, r.statement, r.exec.checkpoint, r.nip)})
  }

  /** The work starts, in a directory without layer files. */
  ghost predicate Receive(c: Config, w: State, w': State, e: nat, root: Bytes) {
    && Receives(c, w, w', e, root) && e in w'.rounds
    && var r, r' := Loaded(w.rounds, e, root), w'.rounds[e];
       && CR.Start(c.minMemoryLayer, r.exec, r'.exec) && r' == r.(started := true, exec := r'.exec)
       && w' == w.(now := w'.now, slot := None, rounds := w.rounds[e := r'], phase := Working(e))
  }

  /** A leaf, a flush of the layers, or the saving of the leaf count. */
  ghost predicate Work(c: Config, w: State, w': State, e: nat) {
    && w.phase == Working(e) && e in w.rounds && e in w'.rounds
    && var r, r' := w.rounds[e], w'.rounds[e];
       && w' == w.(now := w'.now, rounds := w.rounds[e := r'])
       && r' == r.(exec := r'.exec)
       && (CR.Leaf(c.hashes(r.statement), r.exec, r'.exec) || CR.Flush(r.exec, r'.exec) || CR.Save(r.exec, r'.exec))
  }

  /** The execution is canceled or fails; what it last tried to save may not be saved yet. */
  ghost predicate Stop(w: State, w': State, e: nat, leaves: nat) {
    && w.phase == Working(e) && e in w.rounds && e in w'.rounds && (w'.phase.Idle? || w'.phase.Down?)
    && var r, r' := w.rounds[e], w'.rounds[e];
       && r.exec.live.Some? && r' == r.(exec := r'.exec) && CR.Crash(r.exec, r'.exec)
       && (leaves == r.exec.checkpoint || (r.exec.live.value.flushed && leaves == r.exec.live.value.n))
       && w' == w.(now := w'.now, rounds := w.rounds[e := r'], phase := w'.phase,
                   late := w.late + {Late(e, r.statement, leaves, None)})
  }

  /** The deadline has passed with enough leaves, all of them persisted, and the proof is generated. */
  ghost predicate Generates(c: Config, w: State, w': State, e: nat, p: Publication) {
    && w.phase == Working(e) && e in w.rounds && c.end(e) <= w'.now
    && var r := w.rounds[e];
       && r.exec.live.Some?
       && var l := r.exec.live.value;
          && r.exec.checkpoint == l.n >= c.securityParam && l.parked != []
          && CR.ProofOf(c.hashes(r.statement), c.sha, l, c.securityParam) == Some(p.proof)
          && p == Publication(e, r.statement, l.n, p.proof)
  }

  /** It is saved … */
  ghost predicate Finish(c: Config, w: State, w': State, e: nat, p: Publication) {
    && Generates(c, w, w', e, p) && e in w'.rounds
    && var r, r' := w.rounds[e], w'.rounds[e];
       && CR.Crash(r.exec, r'.exec) && r' == r.(nip := Some(p.proof), exec := r'.exec)
       && w' == w.(now := w'.now, rounds := w.rounds[e := r'], phase := Done(p))
  }

  /** … or saving fails, and is left to the teardown. */
  ghost predicate FinishUnsaved(c: Config, w: State, w': State, e: nat, p: Publication) {
    && Generates(c, w, w', e, p) && e in w'.rounds && (w'.phase.Idle? || w'.phase.Down?)
    && var r, r' := w.rounds[e], w'.rounds[e];
       && CR.Crash(r.exec, r'.exec) && r' == r.(exec := r'.exec)
       && w' == w.(now := w'.now, rounds := w.rounds[e := r'], phase := w'.phase, late := w.late + {AsLate(p)})
  }

  /** The saved proof is published, unless that fails; the directory may be removed from now on. */
  ghost predicate PublishSaved(w: State, w': State, p: Publication) {
    && w.phase == Done(p)
    && (w'.published == w.published || w'.published == w.published + [p])
    && w' == w.(now := w'.now, published := w'.published, cleanup := w.cleanup + {p.epoch}, phase := Idle)
  }

  ghost predicate Cleanup(w: State, w': State, e: nat) {
    && e in w.cleanup && Removed(w.rounds, e, w'.rounds)
    && w' == w.(now := w'.now, rounds := w'.rounds, cleanup := w.cleanup - {e})
  }

  /** The round as a late write leaves it. */
  function Overwritten(r: Round, x: Late): Round {
    Round(true, true, x.statement, x.nip, r.exec.(checkpoint := x.leaves))
  }

  /** A teardown without removal writes the state file, unless that fails or the directory is gone. */
  ghost predicate LateSave(w: State, w': State, x: Late) {
    && x in w.late
    && (|| w'.rounds == w.rounds
        || (x.epoch in w.rounds
            && w'.rounds == w.rounds[x.epoch := Overwritten(w.rounds[x.epoch], x)]))
    && w' == w.(now := w'.now, rounds := w'.rounds, late := w.late - {x})
  }

  /** The process dies. */
  ghost predicate Die(w: State, w': State) {
    && w'.rounds.Keys == w.rounds.Keys
    && w' == w.(now := w'.now, rounds := w'.rounds, phase := Down, slot := None, cleanup := {}, late := {})
    && forall e | e in w.rounds ::
         if w.rounds[e].exec.live.Some? then
           CR.Crash(w.rounds[e].exec, w'.rounds[e].exec) && w'.rounds[e] == w.rounds[e].(exec := w'.rounds[e].exec)
         else w'.rounds[e] == w.rounds[e]
  }

  ghost predicate Step(c: Config, w: State, w': State) {
    || (exists e: nat, root: Bytes :: Deliver(w, w', e, root))
    || Boot(w, w')
    || (exists e: nat :: ScanFinished(w, w', e))
    || (exists e: nat :: ScanOpen(w, w', e))
    || (exists e: nat :: ScanExecuting(w, w', e))
    || (exists e: nat :: ScanFails(w, w', e))
    || ScanNothing(w, w')
    || (exists e: nat :: Resume(c, w, w', e))
    || SkipPast(c, w, w')
    || (exists e: nat, root: Bytes :: NotCreated(c, w, w', e, root))
    || (exists e: nat, root: Bytes :: NotStarted(c, w, w', e, root))
    || (exists e: nat, root: Bytes :: Receive(c, w, w', e, root))
    || (exists e: nat :: Work(c, w, w', e))
    || (exists e: nat, leaves: nat :: Stop(w, w', e, leaves))
    || (exists e: nat, p: Publication :: Finish(c, w, w', e, p))
    || (exists e: nat, p: Publication :: FinishUnsaved(c, w, w', e, p))
    || (exists p: Publication :: PublishSaved(w, w', p))
    || (exists e: nat :: Cleanup(w, w', e))
    || (exists x: Late :: LateSave(w, w', x))
    || Die(w, w')
  }

  ghost predicate Next(c: Config, w: State, w': State) {
    w.now < w'.now && Step(c, w, w')
  }

  ghost predicate Init(w: State) {
    && w.rounds == map[] && w.phase.Down? && w.slot.None? && w.cleanup == {} && w.late == {} && w.published == []
  }

  ghost predicate IsRun(c: Config, run: seq<State>) {
    && run != []
    && if |run| == 1 then Init(run[0]) else IsRun(c, run[..|run| - 1]) && Next(c, run[|run| - 2], run[|run| - 1])
  }

  // ---------------------------------------------------------------------------------------------
  // What every step keeps.

  /** The honest proof for its statement and leaf count, which the verifier accepts. */
  ghost predicate Accepted(c: Config, p: Publication) {
    && p.leaves > 0
    && HonestProof(c.hashes(p.statement), c.sha, p.leaves, c.securityParam) == Some(p.proof)
    && Accepts(c.hashes(p.statement), c.sha, p.proof, p.leaves, c.securityParam)
  }

  // All but the phase concerns one epoch at a time.

  /** What there is of one epoch. */
  datatype Local = Local(round: Option<Round>, working: bool, done: Option<Publication>, published: set<Publication>,
                         cleanup: bool, late: set<Late>)

  function RoundAt(rounds: map<nat, Round>, e: nat): Option<Round> {
    if e in rounds then Some(rounds[e]) else None
  }

  function DoneAt(phase: Phase, e: nat): Option<Publication> {
    if phase.Done? && phase.publication.epoch == e then Some(phase.publication) else None
  }

  function PublishedAt(published: seq<Publication>, e: nat): set<Publication> {
    set p | p in published && p.epoch == e
  }

  function LateAt(late: set<Late>, e: nat): set<Late> {
    set x | x in late && x.epoch == e
  }

  function At(w: State, e: nat): Local {
    Local(RoundAt(w.rounds, e), w.phase == Working(e), DoneAt(w.phase, e), PublishedAt(w.published, e), e in w.cleanup,
          LateAt(w.late, e))
  }

  /** A proof that is published, about to be, or kept in a state file: it may be published once more. */
  ghost predicate Settled(e: nat, l: Local, p: Publication) {
    || p in l.published
    || l.done == Some(p)
    || (l.round.Some? && l.round.value.nip.Some? && p == Publish(e, l.round.value))
  }

  /** The same, or a proof that a teardown will still write. */
  ghost predicate Claim(e: nat, l: Local, p: Publication) {
    Settled(e, l, p) || (p.epoch == e && AsLate(p) in l.late)
  }

  /** A round in execution that can never be resumed or started again. */
  ghost predicate Stale(c: Config, now: int, e: nat, r: Round) {
    r.exec.checkpoint == 0 && r.exec.live.None? && c.end(e) <= now
  }

  predicate Executing(l: Local) {
    l.round.Some? && l.round.value.started && l.round.value.nip.None?
  }

  /** A directory on its own: one in execution keeps the invariant of crashing executions, or is stale; one that was not
      started is empty, unless its epoch is over. */
  ghost predicate RoundOk(c: Config, now: int, e: nat, r: Round) {
    && (!r.saved ==> !r.started && r.nip.None? && r.statement == [])
    && (r.nip.Some? ==> r.exec.live.None?)
    && (r.nip.None? && r.started ==> CR.Inv(c.hashes(r.statement), r.exec) || Stale(c, now, e, r))
    && (r.nip.None? && !r.started ==>
        r.exec.live.None? && r.exec.checkpoint == 0 && (r.exec.files != map[] ==> c.end(e) <= now))
  }

  /** A proof that may be published is accepted, its epoch is over and not at work, and it is the only one. */
  ghost predicate ClaimsOk(c: Config, now: int, e: nat, l: Local) {
    && (forall p :: Claim(e, l, p) ==> p.epoch == e && c.end(e) <= now && Accepted(c, p) && !l.working)
    && (forall p, q :: Claim(e, l, p) && Claim(e, l, q) ==> p == q)
    && (forall p :: Settled(e, l, p) && Executing(l) ==> Stale(c, now, e, l.round.value))
  }

  ghost predicate CleanupOk(c: Config, now: int, e: nat, l: Local) {
    l.cleanup ==> c.end(e) <= now && !l.working && (Executing(l) ==> Stale(c, now, e, l.round.value))
  }

  /** A state file that is written late has the statement of its round. */
  ghost predicate StatementsOk(c: Config, now: int, e: nat, l: Local) {
    && (forall x | x in l.late ::
          && x.epoch == e
          && (c.end(e) >= now ==> l.round.Some? && l.round.value.saved && l.round.value.statement == x.statement)
          && (Executing(l) ==> l.round.value.statement == x.statement))
    && (forall x, y | x in l.late && y in l.late :: x.statement == y.statement)
  }

  /** With a positive leaf count, it belongs to an execution that the layer files support, and that nobody finishes. */
  ghost predicate CountsOk(c: Config, e: nat, l: Local) {
    forall x | x in l.late && x.nip.None? && x.leaves > 0 ::
      && !l.working && !l.cleanup && (forall p :: !Claim(e, l, p))
      && (l.round.Some? ==>
          l.round.value.exec.live.None?
          && CR.Inv(c.hashes(x.statement), l.round.value.exec.(checkpoint := x.leaves)))
  }

  ghost predicate LocalOk(c: Config, now: int, e: nat, l: Local) {
    && (l.round.Some? ==> RoundOk(c, now, e, l.round.value))
    && (l.working ==> Executing(l)) && (l.round.Some? && l.round.value.exec.live.Some? <==> l.working)
    && ClaimsOk(c, now, e, l) && CleanupOk(c, now, e, l) && StatementsOk(c, now, e, l) && CountsOk(c, e, l)
  }

  ghost predicate PhaseOk(w: State) {
    w.phase.Scanning? ==>
      && w.late == {} && w.cleanup == {}
      && (w.phase.resume.Some? ==> Executing(At(w, w.phase.resume.value)) && w.phase.resume.value !in w.phase.todo)
  }

  ghost predicate Inv(c: Config, w: State) {
    PhaseOk(w) && forall e: nat :: LocalOk(c, w.now, e, At(w, e))
  }

  // ---------------------------------------------------------------------------------------------
  // What happens to one epoch.

  lemma LocalOkLater(c: Config, now: int, now': int, e: nat, l: Local)
    requires LocalOk(c, now, e, l) && now <= now'
    ensures LocalOk(c, now', e, l)
  {
    hide CR.Inv, Accepted, Claim;
  }

  /** Publishing what may be published, and starting the removal. */
  lemma PublishingIsOk(c: Config, now: int, e: nat, l: Local, l': Local, p: Publication)
    requires LocalOk(c, now, e, l) && Settled(e, l, p)
    requires l'.published == l.published || l'.published == l.published + {p}
    requires l' == l.(published := l'.published) || l' == l.(published := l'.published, done := None, cleanup := true)
    ensures LocalOk(c, now, e, l')
  {
    hide CR.Inv, Accepted;
    assert forall q :: Settled(e, l', q) ==> Settled(e, l, q);
    assert forall q :: Claim(e, l', q) ==> Claim(e, l, q);
    assert Claim(e, l, p);
  }

  /** Removing what is not in execution, completely or half-way. */
  lemma RemovalIsOk(c: Config, now: int, e: nat, l: Local, l': Local)
    requires LocalOk(c, now, e, l) && !l.working && (Executing(l) ==> Stale(c, now, e, l.round.value))
    requires l.late == {} || (l.cleanup && c.end(e) < now)
    requires l'.round.Some? ==> l.round.Some? && HalfRemoved(l.round.value, l'.round.value)
    requires l' == l.(round := l'.round) || l' == l.(round := l'.round, cleanup := false)
    ensures LocalOk(c, now, e, l')
  {
    hide CR.Inv, Accepted;
    assert forall q :: Settled(e, l', q) ==> Settled(e, l, q);
    assert forall q :: Claim(e, l', q) ==> Claim(e, l, q);
    if l'.round.Some? && l.round.value.nip.Some? {
      assert Claim(e, l, Publish(e, l.round.value));
    }
  }

  /** A state file is written where there is none. */
  lemma FindingIsOk(c: Config, now: int, e: nat, l: Local, l': Local)
    requires LocalOk(c, now, e, l) && l.late == {} && l.round.Some? && l' == l.(round := Some(Found(l.round.value)))
    ensures LocalOk(c, now, e, l')
  {
    hide CR.Inv, Accepted;
    assert forall q :: Settled(e, l', q) ==> Settled(e, l, q);
    assert forall q :: Claim(e, l', q) ==> Claim(e, l, q);
  }

  function PublicationOf(x: Late): Publication
    requires x.nip.Some?
  {
    Publication(x.epoch, x.statement, x.leaves, x.nip.value)
  }

  lemma ProofsAreClaims(e: nat, l: Local)
    ensures l.round.Some? && l.round.value.nip.Some? ==> Claim(e, l, Publish(e, l.round.value))
    ensures forall x | x in l.late && x.epoch == e && x.nip.Some? :: Claim(e, l, PublicationOf(x))
  {
    forall x | x in l.late && x.epoch == e && x.nip.Some?
      ensures Claim(e, l, PublicationOf(x))
    {
      assert AsLate(PublicationOf(x)) == x;
    }
  }

  /** A round at work is not stale, and nothing was or will be published for it. */
  lemma AtWork(c: Config, now: int, e: nat, l: Local)
    requires LocalOk(c, now, e, l) && l.working
    ensures CR.Inv(c.hashes(l.round.value.statement), l.round.value.exec) && !l.cleanup && (forall p :: !Claim(e, l, p))
    ensures forall x | x in l.late :: x.nip.None? && x.leaves == 0 && x.statement == l.round.value.statement
  {
    hide CR.Inv, Accepted;
    ProofsAreClaims(e, l);
  }

  /** The execution goes on, or starts again. */
  lemma WorkIsOk(c: Config, now: int, e: nat, l: Local, l': Local, exec: CR.Exec)
    requires LocalOk(c, now, e, l) && Executing(l) && exec.live.Some? && !l.cleanup && (forall p :: !Claim(e, l, p))
    requires forall x | x in l.late :: x.nip.None? && x.leaves == 0
    requires CR.Inv(c.hashes(l.round.value.statement), exec)
    requires l' == l.(round := Some(l.round.value.(exec := exec)), working := true)
    ensures LocalOk(c, now, e, l')
  {
    hide CR.Inv, Accepted;
    NoClaims(e, l, l');
  }

  lemma NoClaims(e: nat, l: Local, l': Local)
    requires forall p :: !Claim(e, l, p)
    requires l'.published <= l.published && (l'.done.Some? ==> l'.done == l.done)
    requires l'.round.Some? && l'.round.value.nip.Some? ==>
               l.round.Some? && l.round.value.nip.Some? && Publish(e, l'.round.value) == Publish(e, l.round.value)
    requires forall x | x in l'.late && x !in l.late :: x.nip.None?
    ensures forall p :: !Claim(e, l', p)
    ensures forall p :: !Settled(e, l', p)
  {
    forall p
      ensures !Claim(e, l', p) && !Settled(e, l', p)
    {
      assert !Claim(e, l, p);
    }
  }

  /** An execution stops; its teardown is going to write the leaf count. */
  lemma StopIsOk(c: Config, now: int, e: nat, l: Local, l': Local, exec: CR.Exec, leaves: nat)
    requires LocalOk(c, now, e, l) && Executing(l) && !l.cleanup && (forall p :: !Claim(e, l, p))
    requires exec.live.None?
    requires var hf := c.hashes(l.round.value.statement);
             && (CR.Inv(hf, exec) || Stale(c, now, e, l.round.value.(exec := exec)))
             && (leaves > 0 ==> CR.Inv(hf, exec.(checkpoint := leaves)))
    requires forall x | x in l.late :: x.nip.None? && x.leaves == 0
    requires l' == l.(round := Some(l.round.value.(exec := exec)), working := false,
                      late := l.late + {Late(e, l.round.value.statement, leaves, None)})
    ensures LocalOk(c, now, e, l')
  {
    hide CR.Inv, Accepted;
    NoClaims(e, l, l');
  }

  /** The proof of an execution is generated, and saved or not. */
  lemma FinishIsOk(c: Config, now: int, e: nat, l: Local, l': Local, exec: CR.Exec, p: Publication)
    requires LocalOk(c, now, e, l) && l.working && exec.live.None? && CR.Inv(c.hashes(l.round.value.statement), exec)
    requires p == Publication(e, l.round.value.statement, exec.checkpoint, p.proof)
    requires c.end(e) <= now && Accepted(c, p)
    requires || l' == l.(round := Some(l.round.value.(exec := exec, nip := Some(p.proof))), working := false,
                         done := Some(p))
             || l' == l.(round := Some(l.round.value.(exec := exec)), working := false, late := l.late + {AsLate(p)})
    ensures LocalOk(c, now, e, l')
  {
    hide CR.Inv, Accepted;
    AtWork(c, now, e, l);
    forall q
      ensures Claim(e, l', q) ==> q == p
      ensures Settled(e, l', q) ==> q == p && l'.done.Some?
    {
      assert !Claim(e, l, q);
    }
  }

  /** Before the end of its epoch, a round has neither been published nor removed, and what is loaded can be worked
      on. */
  lemma Loadable(c: Config, now: int, e: nat, l: Local, rounds: map<nat, Round>, root: Bytes)
    requires LocalOk(c, now, e, l) && c.end(e) > now && l.round == RoundAt(rounds, e) && !l.working
    ensures var r := Loaded(rounds, e, root);
            && r.saved && r.nip.None? && r.exec.live.None? && CR.Inv(c.hashes(r.statement), r.exec)
            && (!r.started ==> r.exec == CR.NEW)
            && (forall x | x in l.late :: x.nip.None? && x.statement == r.statement)
            && (forall x | x in l.late && x.leaves > 0 ::
                  CR.Inv(c.hashes(x.statement), r.exec.(checkpoint := x.leaves)))
    ensures !l.cleanup && (forall p :: !Claim(e, l, p))
  {
    hide Accepted, CR.FilesTrue, CR.LiveTrue;
    var r := Loaded(rounds, e, root);
    CR.NewIsTrue(c.hashes(r.statement));
    ProofsAreClaims(e, l);
  }

  lemma ReceiveIsOk(c: Config, now: int, e: nat, l: Local, l': Local, rounds: map<nat, Round>, root: Bytes,
                    exec: CR.Exec)
    requires LocalOk(c, now, e, l) && c.end(e) > now && l.round == RoundAt(rounds, e) && !l.working
    requires var r := Loaded(rounds, e, root);
             && CR.Start(c.minMemoryLayer, r.exec, exec)
             && l' == l.(round := Some(r.(started := true, exec := exec)), working := true)
    ensures LocalOk(c, now, e, l')
  {
    hide Accepted, CR.FilesTrue, CR.LiveTrue;
    var r := Loaded(rounds, e, root);
    Loadable(c, now, e, l, rounds, root);
    CR.StartKeeps(c.hashes(r.statement), c.minMemoryLayer, r.exec, exec);
    assert forall x | x in l.late :: x.leaves == 0;
    hide CR.Inv;
    NoClaims(e, l, l');
  }

  lemma NotStartedIsOk(c: Config, now: int, e: nat, l: Local, l': Local, rounds: map<nat, Round>, root: Bytes)
    requires LocalOk(c, now, e, l) && c.end(e) > now && l.round == RoundAt(rounds, e) && !l.working
    requires var r := Loaded(rounds, e, root);
             && l'.round.Some? && (l'.round.value == r || l'.round.value == r.(started := true))
             && l' == l.(round := l'.round, late := l.late + {Late(e, r.statement, r.exec.checkpoint, r.nip)})
    ensures LocalOk(c, now, e, l')
  {
    hide Accepted, CR.Inv;
    var r := Loaded(rounds, e, root);
    Loadable(c, now, e, l, rounds, root);
    NoClaims(e, l, l');
    assert r.exec.(checkpoint := r.exec.checkpoint) == r.exec;
  }

  lemma NotCreatedIsOk(c: Config, now: int, e: nat, l: Local, l': Local)
    requires LocalOk(c, now, e, l) && c.end(e) > now && l.round.None? && l' == l.(round := Some(Bare(map[])))
    ensures LocalOk(c, now, e, l')
  {
    hide Accepted, CR.Inv;
    assert l.late == {};
    assert forall p :: Claim(e, l', p) ==> Claim(e, l, p);
    assert forall p :: Settled(e, l', p) ==> Settled(e, l, p);
  }

  /** Counting from the start again is always possible. */
  lemma ZeroIsOk(hf: Hashes, exec: CR.Exec)
    requires CR.Inv(hf, exec)
    ensures CR.Inv(hf, exec.(checkpoint := 0))
  {
    hide CR.LiveTrue;
    forall h: nat
      ensures Recovery.Widths(0)(h) == 0
    {
      ShrZero(h);
    }
  }

  lemma OverwrittenIsOk(c: Config, now: int, e: nat, l: Local, x: Late)
    requires LocalOk(c, now, e, l) && x in l.late && l.round.Some?
    ensures RoundOk(c, now, e, Overwritten(l.round.value, x))
    ensures x.nip.None? && x.leaves == 0 && c.end(e) <= now && !l.working ==>
              Stale(c, now, e, Overwritten(l.round.value, x))
  {
    hide Accepted, CR.FilesTrue, CR.LiveTrue;
    ProofsAreClaims(e, l);
    var r := l.round.value;
    if x.nip.None? && x.leaves == 0 {
      if r.nip.None? && r.started && CR.Inv(c.hashes(r.statement), r.exec) {
        ZeroIsOk(c.hashes(r.statement), r.exec);
      } else if r.nip.None? && !r.started && r.exec.files == map[] {
        CR.NewIsTrue(c.hashes(x.statement));
        assert r.exec.(checkpoint := 0) == CR.NEW;
      }
    }
  }

  lemma LateSaveIsOk(c: Config, now: int, e: nat, l: Local, l': Local, x: Late)
    requires LocalOk(c, now, e, l) && x in l.late
    requires || l' == l.(late := l.late - {x})
             || (l.round.Some? && l' == l.(round := Some(Overwritten(l.round.value, x)), late := l.late - {x}))
    ensures LocalOk(c, now, e, l')
  {
    hide Accepted, CR.Inv, RoundOk;
    ProofsAreClaims(e, l);
    if l' != l.(late := l.late - {x}) {
      OverwrittenIsOk(c, now, e, l, x);
      assert x.nip.Some? ==> Publish(e, l'.round.value) == PublicationOf(x);
    }
    assert forall p :: Claim(e, l', p) ==> Claim(e, l, p);
    forall p | Settled(e, l', p) && Executing(l')
      ensures Stale(c, now, e, l'.round.value)
    {
      assert Claim(e, l, p);
      assert Claim(e, l', p);
      if l'.round == l.round {
        assert Settled(e, l, p);
      }
    }
  }

  lemma DeathIsOk(c: Config, now: int, e: nat, l: Local, l': Local)
    requires LocalOk(c, now, e, l)
    requires l'.round == l.round || (l.working && l'.round.Some?
               && l'.round.value == l.round.value.(exec := l'.round.value.exec) && l'.round.value.exec.live.None?
               && CR.Inv(c.hashes(l.round.value.statement), l'.round.value.exec))
    requires l.working ==> l'.round != l.round
    requires l' == Local(l'.round, false, None, l.published, false, {})
    ensures LocalOk(c, now, e, l')
  {
    hide Accepted, CR.Inv;
    if l.working {
      AtWork(c, now, e, l);
      NoClaims(e, l, l');
    } else {
      assert forall p :: Claim(e, l', p) ==> Claim(e, l, p);
      assert forall p :: Settled(e, l', p) ==> Settled(e, l, p);
    }
  }

  // ---------------------------------------------------------------------------------------------
  // Each step in turn.

  /** A step that only concerns epoch e. */
  ghost predicate OnlyConcerns(w: State, w': State, e: nat) {
    && (forall e0: nat | e0 != e :: RoundAt(w'.rounds, e0) == RoundAt(w.rounds, e0))
    && (forall e0: nat | e0 != e :: (w'.phase == Working(e0) <==> w.phase == Working(e0)))
    && (forall e0: nat | e0 != e :: DoneAt(w'.phase, e0) == DoneAt(w.phase, e0))
    && (forall p | p in w'.published && p !in w.published :: p.epoch == e)
    && (forall p | p in w.published :: p in w'.published)
    && (forall e0 | e0 in w'.cleanup && e0 !in w.cleanup :: e0 == e)
    && (forall e0 | e0 in w.cleanup && e0 !in w'.cleanup :: e0 == e)
    && (forall x | x in w'.late && x !in w.late :: x.epoch == e)
    && (forall x | x in w.late && x !in w'.late :: x.epoch == e)
  }

  lemma ElsewhereNothingChanges(w: State, w': State, e: nat, e0: nat)
    requires OnlyConcerns(w, w', e) && e0 != e
    ensures At(w', e0) == At(w, e0)
  {
    assert PublishedAt(w'.published, e0) == PublishedAt(w.published, e0);
    assert LateAt(w'.late, e0) == LateAt(w.late, e0);
  }

  lemma OneEpochKeeps(c: Config, w: State, w': State, e: nat)
    requires Inv(c, w) && w.now < w'.now && OnlyConcerns(w, w', e)
    requires LocalOk(c, w'.now, e, At(w', e)) && PhaseOk(w')
    ensures Inv(c, w')
  {
    hide LocalOk, At;
    forall e0: nat
      ensures LocalOk(c, w'.now, e0, At(w', e0))
    {
      if e0 != e {
        ElsewhereNothingChanges(w, w', e, e0);
        LocalOkLater(c, w.now, w'.now, e0, At(w, e0));
      }
    }
  }

  /** What the steps below start from. */
  lemma NowAt(c: Config, w: State, w': State, e: nat) returns (l: Local)
    requires Inv(c, w) && w.now < w'.now
    ensures l == At(w, e) && LocalOk(c, w.now, e, l) && LocalOk(c, w'.now, e, l)
  {
    hide LocalOk, At;
    l := At(w, e);
    LocalOkLater(c, w.now, w'.now, e, l);
  }

  lemma PublishedMore(published: seq<Publication>, p: Publication)
    ensures PublishedAt(published + [p], p.epoch) == PublishedAt(published, p.epoch) + {p}
  {
  }

  lemma LateMore(late: set<Late>, x: Late)
    ensures LateAt(late + {x}, x.epoch) == LateAt(late, x.epoch) + {x}
    ensures LateAt(late - {x}, x.epoch) == LateAt(late, x.epoch) - {x}
  {
  }

  /** Steps that concern no epoch at all. */
  lemma QuietKeeps(c: Config, w: State, w': State)
    requires Inv(c, w) && w.now < w'.now && PhaseOk(w')
    requires w'.rounds == w.rounds && w'.published == w.published && w'.cleanup == w.cleanup && w'.late == w.late
    requires w'.phase == w.phase || (!w.phase.Working? && !w.phase.Done? && !w'.phase.Working? && !w'.phase.Done?)
    ensures Inv(c, w')
  {
    hide LocalOk;
    forall e: nat
      ensures LocalOk(c, w'.now, e, At(w', e))
    {
      assert At(w', e) == At(w, e);
      LocalOkLater(c, w.now, w'.now, e, At(w, e));
    }
  }

  lemma WaitingKeeps(c: Config, w: State, w': State)
    requires Inv(c, w) && w.now < w'.now
    requires (exists e: nat, root: Bytes :: Deliver(w, w', e, root)) || Boot(w, w') || ScanNothing(w, w')
             || SkipPast(c, w, w')
    ensures Inv(c, w')
  {
    hide LocalOk, LateAt, PublishedAt;
    QuietKeeps(c, w, w');
  }

  lemma ScanExecutingKeeps(c: Config, w: State, w': State, e: nat)
    requires Inv(c, w) && w.now < w'.now && ScanExecuting(w, w', e)
    ensures Inv(c, w')
  {
    hide LocalOk, LateAt, PublishedAt;
    QuietKeeps(c, w, w');
  }

  lemma ScanFinishedProjects(w: State, w': State, e: nat)
    requires PhaseOk(w) && ScanFinished(w, w', e)
    ensures OnlyConcerns(w, w', e) && PhaseOk(w')
    ensures var l, l' := At(w, e), At(w', e);
            var p := Publish(e, w.rounds[e]);
            && l.round == Some(w.rounds[e]) && l.late == {} && !l.working && Settled(e, l, p)
            && (l'.published == l.published || l'.published == l.published + {p})
            && l' == l.(round := l'.round, published := l'.published)
            && (l'.round.Some? ==> HalfRemoved(w.rounds[e], l'.round.value))
  {
    hide HalfRemoved;
    PublishedMore(w.published, Publish(e, w.rounds[e]));
    assert PublishedAt(w'.published, e) == PublishedAt(w.published, e)
           || PublishedAt(w'.published, e) == PublishedAt(w.published, e) + {Publish(e, w.rounds[e])};
  }

  lemma ScanFinishedKeeps(c: Config, w: State, w': State, e: nat)
    requires Inv(c, w) && w.now < w'.now && ScanFinished(w, w', e)
    ensures Inv(c, w')
  {
    hide LocalOk, OnlyConcerns, PhaseOk, At, HalfRemoved, Settled;
    var l := NowAt(c, w, w', e);
    var l' := At(w', e);
    ScanFinishedProjects(w, w', e);
    var mid := l.(published := l'.published);
    PublishingIsOk(c, w'.now, e, l, mid, Publish(e, w.rounds[e]));
    RemovalIsOk(c, w'.now, e, mid, l');
    OneEpochKeeps(c, w, w', e);
  }

  lemma ScanOpenKeeps(c: Config, w: State, w': State, e: nat)
    requires Inv(c, w) && w.now < w'.now && ScanOpen(w, w', e)
    ensures Inv(c, w')
  {
    var l := NowAt(c, w, w', e);
    var l' := At(w', e);
    hide LocalOk, ClaimsOk;
    var mid := l.(round := Some(Found(w.rounds[e])));
    assert !l.working && l.late == {};
    FindingIsOk(c, w'.now, e, l, mid);
    RemovalIsOk(c, w'.now, e, mid, l');
    OneEpochKeeps(c, w, w', e);
  }

  lemma ScanFailsKeeps(c: Config, w: State, w': State, e: nat)
    requires Inv(c, w) && w.now < w'.now && ScanFails(w, w', e)
    ensures Inv(c, w')
  {
    var l := NowAt(c, w, w', e);
    hide LocalOk, ClaimsOk;
    assert l.late == {};
    if w'.rounds != w.rounds {
      FindingIsOk(c, w'.now, e, l, At(w', e));
    }
    OneEpochKeeps(c, w, w', e);
  }

  lemma CleanupKeeps(c: Config, w: State, w': State, e: nat)
    requires Inv(c, w) && w.now < w'.now && Cleanup(w, w', e)
    ensures Inv(c, w')
  {
    var l := NowAt(c, w, w', e);
    assert CleanupOk(c, w.now, e, l);
    hide LocalOk, ClaimsOk;
    RemovalIsOk(c, w'.now, e, l, At(w', e));
    OneEpochKeeps(c, w, w', e);
  }

  lemma PublishSavedProjects(w: State, w': State, p: Publication)
    requires PublishSaved(w, w', p)
    ensures OnlyConcerns(w, w', p.epoch) && PhaseOk(w')
    ensures var l, l' := At(w, p.epoch), At(w', p.epoch);
            && Settled(p.epoch, l, p)
            && (l'.published == l.published || l'.published == l.published + {p})
            && l' == l.(published := l'.published, done := None, cleanup := true)
  {
    PublishedMore(w.published, p);
    assert PublishedAt(w'.published, p.epoch) == PublishedAt(w.published, p.epoch)
           || PublishedAt(w'.published, p.epoch) == PublishedAt(w.published, p.epoch) + {p};
  }

  lemma PublishSavedKeeps(c: Config, w: State, w': State, p: Publication)
    requires Inv(c, w) && w.now < w'.now && PublishSaved(w, w', p)
    ensures Inv(c, w')
  {
    hide LocalOk, OnlyConcerns, PhaseOk, At, Settled, PublishSaved;
    var l := NowAt(c, w, w', p.epoch);
    PublishSavedProjects(w, w', p);
    PublishingIsOk(c, w'.now, p.epoch, l, At(w', p.epoch), p);
    OneEpochKeeps(c, w, w', p.epoch);
  }

  /** A round with a saved leaf count is not stale, so that nothing was published for it. */
  lemma Resumable(c: Config, now: int, e: nat, l: Local)
    requires LocalOk(c, now, e, l) && Executing(l) && l.late == {} && l.round.value.exec.checkpoint > 0
    ensures CR.Inv(c.hashes(l.round.value.statement), l.round.value.exec) && forall p :: !Claim(e, l, p)
  {
    hide CR.Inv, Accepted;
    assert forall p :: Claim(e, l, p) ==> Settled(e, l, p);
  }

  lemma RecoversFromPositive(hf: Hashes, exec: CR.Exec, exec': CR.Exec)
    requires CR.Recover(hf, exec, exec')
    ensures exec.checkpoint > 0 && exec'.live.Some?
  {
    hide Recovery.Rebuilt;
    ShrZero(|exec.files| - 1);
  }

  lemma FailedResumeIsOk(c: Config, now: int, e: nat, l: Local, l': Local, exec: CR.Exec)
    requires LocalOk(c, now, e, l) && Executing(l) && l.late == {} && !l.cleanup && !l.working
    requires exec.live.None? && exec.checkpoint == l.round.value.exec.checkpoint
    requires var hf := c.hashes(l.round.value.statement); CR.Inv(hf, l.round.value.exec) ==> CR.Inv(hf, exec)
    requires l' == l.(round := Some(l.round.value.(exec := exec)),
                      late := {Late(e, l.round.value.statement, exec.checkpoint, None)})
    ensures LocalOk(c, now, e, l')
  {
    hide CR.Inv, Accepted;
    assert exec.(checkpoint := exec.checkpoint) == exec;
    if exec.checkpoint > 0 {
      Resumable(c, now, e, l);
      StopIsOk(c, now, e, l, l', exec, exec.checkpoint);
    } else {
      assert forall p :: Claim(e, l', p) ==> Claim(e, l, p);
      assert forall p :: Settled(e, l', p) ==> Settled(e, l, p);
    }
  }

  lemma ResumeProjects(c: Config, w: State, w': State, e: nat)
    requires PhaseOk(w) && Resume(c, w, w', e)
    ensures OnlyConcerns(w, w', e) && PhaseOk(w')
    ensures var r, exec := w.rounds[e], w'.rounds[e].exec;
            var l, l' := At(w, e), At(w', e);
            && l.round == Some(r) && Executing(l) && l.late == {} && !l.cleanup && !l.working
            && (if w'.phase == Working(e) then
                  l' == l.(round := Some(r.(exec := exec)), working := true)
                else
                  l' == l.(round := Some(r.(exec := exec)), late := {Late(e, r.statement, r.exec.checkpoint, None)}))
  {
    hide CR.Recover, CR.FailedRecovery;
    LateMore(w.late, Late(e, w.rounds[e].statement, w.rounds[e].exec.checkpoint, None));
  }

  lemma ResumeKeeps(c: Config, w: State, w': State, e: nat)
    requires Inv(c, w) && w.now < w'.now && Resume(c, w, w', e)
    ensures Inv(c, w')
  {
    hide LocalOk, OnlyConcerns, PhaseOk, At, CR.Inv, CR.Recover, CR.FailedRecovery, Claim;
    var l := NowAt(c, w, w', e);
    var r, exec := w.rounds[e], w'.rounds[e].exec;
    var hf := c.hashes(r.statement);
    ResumeProjects(c, w, w', e);
    if w'.phase == Working(e) {
      RecoversFromPositive(hf, r.exec, exec);
      Resumable(c, w.now, e, l);
      CR.RecoverKeeps(hf, r.exec, exec);
      WorkIsOk(c, w'.now, e, l, At(w', e), exec);
    } else {
      FailureKeeps(hf, r.exec, exec);
      FailedResumeIsOk(c, w'.now, e, l, At(w', e), exec);
    }
    OneEpochKeeps(c, w, w', e);
  }

  lemma FailureKeeps(hf: Hashes, exec: CR.Exec, exec': CR.Exec)
    requires CR.FailedRecovery(exec, exec')
    ensures exec'.live.None? && exec'.checkpoint == exec.checkpoint && (CR.Inv(hf, exec) ==> CR.Inv(hf, exec'))
  {
    if CR.Inv(hf, exec) {
      CR.FailedRecoveryKeeps(hf, exec, exec');
    }
  }

  lemma NotCreatedKeeps(c: Config, w: State, w': State, e: nat, root: Bytes)
    requires Inv(c, w) && w.now < w'.now && NotCreated(c, w, w', e, root)
    ensures Inv(c, w')
  {
    var l := NowAt(c, w, w', e);
    hide LocalOk;
    if w'.rounds != w.rounds {
      NotCreatedIsOk(c, w.now, e, l, At(w', e));
      LocalOkLater(c, w.now, w'.now, e, At(w', e));
    }
    OneEpochKeeps(c, w, w', e);
  }

  lemma NotStartedKeeps(c: Config, w: State, w': State, e: nat, root: Bytes)
    requires Inv(c, w) && w.now < w'.now && NotStarted(c, w, w', e, root)
    ensures Inv(c, w')
  {
    var l := NowAt(c, w, w', e);
    hide LocalOk;
    var r := Loaded(w.rounds, e, root);
    LateMore(w.late, Late(e, r.statement, r.exec.checkpoint, r.nip));
    NotStartedIsOk(c, w.now, e, l, At(w', e), w.rounds, root);
    LocalOkLater(c, w.now, w'.now, e, At(w', e));
    OneEpochKeeps(c, w, w', e);
  }

  lemma ReceiveKeeps(c: Config, w: State, w': State, e: nat, root: Bytes)
    requires Inv(c, w) && w.now < w'.now && Receive(c, w, w', e, root)
    ensures Inv(c, w')
  {
    var l := NowAt(c, w, w', e);
    hide LocalOk, CR.Start;
    ReceiveIsOk(c, w.now, e, l, At(w', e), w.rounds, root, w'.rounds[e].exec);
    LocalOkLater(c, w.now, w'.now, e, At(w', e));
    OneEpochKeeps(c, w, w', e);
  }

  lemma WorkProjects(c: Config, w: State, w': State, e: nat)
    requires Work(c, w, w', e)
    ensures OnlyConcerns(w, w', e) && PhaseOk(w')
    ensures var r, exec := w.rounds[e], w'.rounds[e].exec;
            var l := At(w, e);
            l.round == Some(r) && l.working && At(w', e) == l.(round := Some(r.(exec := exec)), working := true)
  {
    hide CR.Leaf, CR.Flush, CR.Save;
  }

  lemma WorkKeeps(c: Config, w: State, w': State, e: nat)
    requires Inv(c, w) && w.now < w'.now && Work(c, w, w', e)
    ensures Inv(c, w')
  {
    hide OnlyConcerns, PhaseOk, At, CR.Inv, CR.Leaf, CR.Flush, CR.Save, Claim, RoundOk, ClaimsOk, CleanupOk,
         StatementsOk, CountsOk;
    var l := NowAt(c, w, w', e);
    WorkProjects(c, w, w', e);
    AtWork(c, w.now, e, l);
    var r, exec := w.rounds[e], w'.rounds[e].exec;
    WorkGoesOn(c.hashes(r.statement), r.exec, exec);
    WorkIsOk(c, w'.now, e, l, At(w', e), exec);
    OneEpochKeeps(c, w, w', e);
  }

  lemma WorkGoesOn(hf: Hashes, exec: CR.Exec, exec': CR.Exec)
    requires CR.Inv(hf, exec) && (CR.Leaf(hf, exec, exec') || CR.Flush(exec, exec') || CR.Save(exec, exec'))
    ensures CR.Inv(hf, exec') && exec'.live.Some?
  {
    assert exec'.live.Some?;
    if CR.Leaf(hf, exec, exec') {
      CR.LeafKeeps(hf, exec, exec');
    } else {
      CR.PersistKeeps(hf, exec, exec');
    }
  }

  /** After a stop, the files support what was saved, and what was flushed to be saved. */
  lemma CrashSupports(hf: Hashes, exec: CR.Exec, exec': CR.Exec, leaves: nat)
    requires CR.Inv(hf, exec) && CR.Crash(exec, exec')
    requires leaves == exec.checkpoint || (exec.live.value.flushed && leaves == exec.live.value.n)
    ensures CR.Inv(hf, exec') && exec'.live.None? && CR.Inv(hf, exec'.(checkpoint := leaves))
  {
    CR.CrashKeeps(hf, exec, exec');
    assert exec'.(checkpoint := exec.checkpoint) == exec';
    if exec.live.value.flushed && leaves == exec.live.value.n {
      var saved := exec.(checkpoint := leaves);
      CR.PersistKeeps(hf, exec, saved);
      CR.CrashKeeps(hf, saved, exec'.(checkpoint := leaves));
    }
  }

  lemma StopProjects(w: State, w': State, e: nat, leaves: nat)
    requires Stop(w, w', e, leaves)
    ensures OnlyConcerns(w, w', e) && PhaseOk(w')
    ensures var r, exec := w.rounds[e], w'.rounds[e].exec;
            var l, l' := At(w, e), At(w', e);
            && l.round == Some(r) && l.working
            && l' == l.(round := Some(r.(exec := exec)), working := false,
                        late := l.late + {Late(e, r.statement, leaves, None)})
  {
    hide CR.Crash;
    LateMore(w.late, Late(e, w.rounds[e].statement, leaves, None));
  }

  lemma StopKeeps(c: Config, w: State, w': State, e: nat, leaves: nat)
    requires Inv(c, w) && w.now < w'.now && Stop(w, w', e, leaves)
    ensures Inv(c, w')
  {
    hide OnlyConcerns, PhaseOk, At, CR.Inv, CR.Crash, Claim, RoundOk, ClaimsOk, CleanupOk, StatementsOk, CountsOk;
    var l := NowAt(c, w, w', e);
    StopProjects(w, w', e, leaves);
    AtWork(c, w.now, e, l);
    var r, exec := w.rounds[e], w'.rounds[e].exec;
    CrashSupports(c.hashes(r.statement), r.exec, exec, leaves);
    StopIsOk(c, w'.now, e, l, At(w', e), exec, leaves);
    OneEpochKeeps(c, w, w', e);
  }

  /** What is generated is accepted. */
  lemma GeneratedIsAccepted(c: Config, w: State, w': State, e: nat, p: Publication)
    requires Generates(c, w, w', e, p) && c.securityParam >= 1
    requires CR.Inv(c.hashes(w.rounds[e].statement), w.rounds[e].exec)
    ensures Accepted(c, p)
  {
    hide CR.ProofOf, Accepts, HonestProof, CR.LiveTrue;
    var r := w.rounds[e];
    var hf, l := c.hashes(r.statement), r.exec.live.value;
    CR.ProofOfTrueTree(hf, c.sha, l, c.securityParam);
    Completeness(hf, c.sha, l.n, c.securityParam);
  }

  lemma FinishProjects(c: Config, w: State, w': State, e: nat, p: Publication)
    requires Finish(c, w, w', e, p) || FinishUnsaved(c, w, w', e, p)
    ensures e in w.rounds && e in w'.rounds && OnlyConcerns(w, w', e) && PhaseOk(w')
    ensures var r, exec := w.rounds[e], w'.rounds[e].exec;
            var l, l' := At(w, e), At(w', e);
            && l.round == Some(r) && l.working && CR.Crash(r.exec, exec) && Generates(c, w, w', e, p)
            && (|| l' == l.(round := Some(r.(exec := exec, nip := Some(p.proof))), working := false, done := Some(p))
                || l' == l.(round := Some(r.(exec := exec)), working := false, late := l.late + {AsLate(p)}))
  {
    hide CR.Crash, CR.ProofOf;
    LateMore(w.late, AsLate(p));
  }

  lemma FinishKeeps(c: Config, w: State, w': State, e: nat, p: Publication)
    requires Inv(c, w) && w.now < w'.now && c.securityParam >= 1
    requires Finish(c, w, w', e, p) || FinishUnsaved(c, w, w', e, p)
    ensures Inv(c, w')
  {
    hide OnlyConcerns, PhaseOk, At, CR.Inv, CR.Crash, CR.ProofOf, Claim, RoundOk, ClaimsOk, CleanupOk, StatementsOk,
         CountsOk, Accepted, Finish, FinishUnsaved;
    var l := NowAt(c, w, w', e);
    FinishProjects(c, w, w', e, p);
    AtWork(c, w.now, e, l);
    GeneratedIsAccepted(c, w, w', e, p);
    var r, exec := w.rounds[e], w'.rounds[e].exec;
    CrashSupports(c.hashes(r.statement), r.exec, exec, r.exec.checkpoint);
    CrashKeepsCount(r.exec, exec);
    FinishIsOk(c, w'.now, e, l, At(w', e), exec, p);
    OneEpochKeeps(c, w, w', e);
  }

  lemma CrashKeepsCount(exec: CR.Exec, exec': CR.Exec)
    requires CR.Crash(exec, exec')
    ensures exec'.checkpoint == exec.checkpoint
  {
  }

  lemma LateSaveKeeps(c: Config, w: State, w': State, x: Late)
    requires Inv(c, w) && w.now < w'.now && LateSave(w, w', x)
    ensures Inv(c, w')
  {
    var l := NowAt(c, w, w', x.epoch);
    hide LocalOk;
    LateMore(w.late, x);
    LateSaveIsOk(c, w'.now, x.epoch, l, At(w', x.epoch), x);
    OneEpochKeeps(c, w, w', x.epoch);
  }

  lemma DieKeeps(c: Config, w: State, w': State)
    requires Inv(c, w) && w.now < w'.now && Die(w, w')
    ensures Inv(c, w')
  {
    forall e: nat
      ensures LocalOk(c, w'.now, e, At(w', e))
    {
      DeathAt(c, w, w', e);
    }
  }

  lemma DeathAt(c: Config, w: State, w': State, e: nat)
    requires Inv(c, w) && w.now < w'.now && Die(w, w')
    ensures LocalOk(c, w'.now, e, At(w', e))
  {
    var l := NowAt(c, w, w', e);
    if l.working {
      AtWork(c, w.now, e, l);
      assert l.round == Some(w.rounds[e]);
      CR.CrashKeeps(c.hashes(w.rounds[e].statement), w.rounds[e].exec, w'.rounds[e].exec);
    }
    assert LateAt({}, e) == {};
    hide CR.Inv;
    DeathIsOk(c, w'.now, e, l, At(w', e));
  }

  lemma NextKeeps(c: Config, w: State, w': State)
    requires Inv(c, w) && Next(c, w, w') && c.securityParam >= 1
    ensures Inv(c, w')
  {
    hide Inv;
    if e: nat :| ScanFinished(w, w', e) {
      ScanFinishedKeeps(c, w, w', e);
    } else if e: nat :| ScanOpen(w, w', e) {
      ScanOpenKeeps(c, w, w', e);
    } else if e: nat :| ScanExecuting(w, w', e) {
      ScanExecutingKeeps(c, w, w', e);
    } else if e: nat :| ScanFails(w, w', e) {
      ScanFailsKeeps(c, w, w', e);
    } else if e: nat :| Resume(c, w, w', e) {
      ResumeKeeps(c, w, w', e);
    } else if e: nat, root: Bytes :| NotCreated(c, w, w', e, root) {
      NotCreatedKeeps(c, w, w', e, root);
    } else if e: nat, root: Bytes :| NotStarted(c, w, w', e, root) {
      NotStartedKeeps(c, w, w', e, root);
    } else if e: nat, root: Bytes :| Receive(c, w, w', e, root) {
      ReceiveKeeps(c, w, w', e, root);
    } else if e: nat :| Work(c, w, w', e) {
      WorkKeeps(c, w, w', e);
    } else if e: nat, leaves: nat :| Stop(w, w', e, leaves) {
      StopKeeps(c, w, w', e, leaves);
    } else if e: nat, p: Publication :| Finish(c, w, w', e, p) || FinishUnsaved(c, w, w', e, p) {
      FinishKeeps(c, w, w', e, p);
    } else if p: Publication :| PublishSaved(w, w', p) {
      PublishSavedKeeps(c, w, w', p);
    } else if e: nat :| Cleanup(w, w', e) {
      CleanupKeeps(c, w, w', e);
    } else if x: Late :| LateSave(w, w', x) {
      LateSaveKeeps(c, w, w', x);
    } else if Die(w, w') {
      DieKeeps(c, w, w');
    } else {
      WaitingKeeps(c, w, w');
    }
  }

  lemma NothingIsOk(c: Config, now: int, e: nat)
    ensures LocalOk(c, now, e, Local(None, false, None, {}, false, {}))
  {
    hide CR.Inv, Accepted;
    assert forall p :: !Claim(e, Local(None, false, None, {}, false, {}), p);
  }

  /** A round that waits to be received is not displaced by another one, and it is not dropped before its end, unless
      the process ends. */
  lemma NothingIsSkippedEarly(c: Config, w: State, w': State, e: nat, root: Bytes)
    requires Next(c, w, w') && w.slot == Some((e, root)) && w'.slot != w.slot
    ensures w'.slot.None? && (w'.phase.Down? || c.end(e) < w'.now || (e in w'.rounds && w'.rounds[e].saved))
  {
  }

  /** A proof that is saved can be published, right away or at the next start. */
  lemma SavedProofsGetPublished(c: Config, w: State, p: Publication)
    requires w.phase == Done(p)
             || (w.phase.Scanning? && p.epoch in w.phase.todo && p.epoch in w.rounds && w.rounds[p.epoch].nip.Some?
                 && p == Publish(p.epoch, w.rounds[p.epoch]))
    ensures exists w' :: Next(c, w, w') && w'.published == w.published + [p]
  {
    if w.phase.Done? {
      var w' := w.(now := w.now + 1, published := w.published + [p], cleanup := w.cleanup + {p.epoch}, phase := Idle);
      assert PublishSaved(w, w', p);
      assert Next(c, w, w');
    } else {
      var w' := w.(now := w.now + 1, rounds := w.rounds - {p.epoch}, published := w.published + [p],
                   phase := w.phase.(todo := w.phase.todo - {p.epoch}));
      assert ScanFinished(w, w', p.epoch);
      assert Next(c, w, w');
    }
  }

  /** A round in execution is resumed at the next start if its topmost layer file keeps a node. */
  lemma ExecutionsGetResumed(c: Config, w: State, e: nat)
    requires Inv(c, w) && w.phase == Scanning({}, Some(e))
    requires e in w.rounds && w.rounds[e].exec.files != map[]
    requires Shr(w.rounds[e].exec.checkpoint, |w.rounds[e].exec.files| - 1) > 0
    ensures exists w' :: Next(c, w, w') && w'.phase == Working(e)
  {
    hide LocalOk, CR.Inv, CR.Recover, Shr, Claim, Step;
    var r := w.rounds[e];
    var hf := c.hashes(r.statement);
    ResumedCanRecover(c, w, e);
    CanRecover(hf, r.exec);
    hide Inv;
    var exec :| CR.Recover(hf, r.exec, exec);
    var w' := w.(now := w.now + 1, rounds := w.rounds[e := r.(exec := exec)], phase := Working(e));
    assert Resume(c, w, w', e);
    ResumeIsStep(c, w, w', e);
  }

  lemma ResumeIsStep(c: Config, w: State, w': State, e: nat)
    requires Resume(c, w, w', e)
    ensures Step(c, w, w')
  {
    hide Resume;
  }

  lemma ResumedCanRecover(c: Config, w: State, e: nat)
    requires Inv(c, w) && w.phase == Scanning({}, Some(e)) && e in w.rounds
    requires w.rounds[e].exec.files != map[]
    requires Shr(w.rounds[e].exec.checkpoint, |w.rounds[e].exec.files| - 1) > 0
    ensures CR.Inv(c.hashes(w.rounds[e].statement), w.rounds[e].exec) && w.rounds[e].exec.live.None?
  {
    var r, l := w.rounds[e], At(w, e);
    PositiveCheckpoint(r.exec.checkpoint, |r.exec.files| - 1);
    assert LocalOk(c, w.now, e, l);
    hide CR.Inv, RoundOk, ClaimsOk, CleanupOk, StatementsOk, CountsOk, Shr;
    assert l.round == Some(r) && l.late == {} && Executing(l);
    Resumable(c, w.now, e, l);
  }

  lemma PositiveCheckpoint(n: nat, h: nat)
    requires Shr(n, h) > 0
    ensures n > 0
  {
    ShrZero(h);
  }

  lemma CanRecover(hf: Hashes, exec: CR.Exec)
    requires CR.Inv(hf, exec) && exec.live.None? && exec.files != map[] && Shr(exec.checkpoint, |exec.files| - 1) > 0
    ensures exists exec' :: CR.Recover(hf, exec, exec')
  {
    hide Shr;
    CR.RecoverFrom(hf, exec);
  }

  lemma InitIsOk(c: Config, w: State)
    requires Init(w)
    ensures Inv(c, w)
  {
    hide LocalOk;
    forall e: nat
      ensures LocalOk(c, w.now, e, At(w, e))
    {
      assert At(w, e) == Local(None, false, None, {}, false, {});
      NothingIsOk(c, w.now, e);
    }
  }

  lemma {:induction false} RunsKeepInv(c: Config, run: seq<State>)
    requires IsRun(c, run) && c.securityParam >= 1
    ensures Inv(c, run[|run| - 1])
    decreases |run|
  {
    hide Next, Inv;
    if |run| == 1 {
      InitIsOk(c, run[0]);
    } else {
      var before := run[..|run| - 1];
      RunsKeepInv(c, before);
      assert before[|before| - 1] == run[|run| - 2];
      NextKeeps(c, run[|run| - 2], run[|run| - 1]);
    }
  }

  lemma PublishedIsClaim(c: Config, w: State, p: Publication)
    requires Inv(c, w) && p in w.published
    ensures LocalOk(c, w.now, p.epoch, At(w, p.epoch)) && Claim(p.epoch, At(w, p.epoch), p)
  {
  }

  /** All proofs that a worker publishes for one epoch, over any run with cancellations, crashes and restarts, are the
      same. */
  lemma PublishConsistency(c: Config, run: seq<State>, p: Publication, q: Publication)
    requires IsRun(c, run) && c.securityParam >= 1
    requires p in run[|run| - 1].published && q in run[|run| - 1].published && p.epoch == q.epoch
    ensures p == q
  {
    hide Inv, At, Claim;
    RunsKeepInv(c, run);
    PublishedIsClaim(c, run[|run| - 1], p);
    PublishedIsClaim(c, run[|run| - 1], q);
  }

  /** Every published proof is the honest one for its statement and leaf count, and accepted by the verifier. */
  lemma PublishedProofsAreAccepted(c: Config, run: seq<State>, p: Publication)
    requires IsRun(c, run) && c.securityParam >= 1 && p in run[|run| - 1].published
    ensures p.leaves > 0
    ensures HonestProof(c.hashes(p.statement), c.sha, p.leaves, c.securityParam) == Some(p.proof)
    ensures Accepts(c.hashes(p.statement), c.sha, p.proof, p.leaves, c.securityParam)
  {
    hide Inv, At, Claim, Accepts, HonestProof;
    RunsKeepInv(c, run);
    PublishedIsClaim(c, run[|run| - 1], p);
  }
}
