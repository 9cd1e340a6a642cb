/** The registration service over time: one open round, closed when its execution starts, and whatever was written for
    earlier ones. Closes that fail are not part of this model. */
module Registration {
  import opened MerkleTree
  import opened Labels
  import opened RoundStore
  import opened Membership
  import Schedule

  type Database = map<Key, Challenge>

  datatype Config = Config(rounds: Schedule.RoundConfig, maxMembers: int, maxBatchSize: int, hash: Hasher<Bytes>)

  /** A root handed to the worker for an epoch, and the entries it was computed from. */
  datatype Sent = Sent(epoch: nat, root: Option<Bytes>, entries: seq<(Key, Challenge)>)

  /** The members saved together with the proof of an epoch. */
  datatype Saved = Saved(epoch: nat, members: seq<Challenge>)

  /** A submission whose own channel delivered success. */
  datatype Acknowledged = Acknowledged(epoch: nat, key: Key, challenge: Challenge)

  /** The fate of a batch: written or not. */
  datatype Flushed = Flushed(epoch: nat, batch: seq<(Key, Challenge)>, ok: bool)

  /** A success reported at once, because the challenge is already submitted: it is in the pending batch, whose fate
      will be number `at`, or else in the database. */
  datatype Repeated = Repeated(epoch: nat, key: Key, challenge: Challenge, pending: bool, at: nat)

  /** epoch is the round opened last, and store its state while the service is up; databases are durable. */
  datatype State = State(now: int, epoch: nat, store: Option<Store>, databases: map<nat, Database>,
                         sent: seq<Sent>, saved: seq<Saved>, acknowledged: set<Acknowledged>,
                         flushes: seq<Flushed>, repeated: seq<Repeated>)

  ghost function Acknowledgements(epoch: nat, s: Store): set<Acknowledged> {
    set d | d in s.issued && d in s.results && s.results[d] == [true] ::
      Acknowledged(epoch, s.issued[d].0, s.issued[d].1)
  }

  ghost function SentFor(c: Config, epoch: nat, db: Database): Sent {
    Sent(epoch, MembershipRoot(c.hash, Members(db)), InKeyOrder(db))
  }

  function DatabaseOf(databases: map<nat, Database>, epoch: nat): Database {
    if epoch in databases then databases[epoch] else map[]
  }

  function Events(epoch: nat, flushed: Option<(seq<(Key, Challenge)>, bool)>): seq<Flushed> {
    match flushed
    case None => []
    case Some((batch, ok)) => [Flushed(epoch, batch, ok)]
  }

  /** The store changes, and with it its database. */
  ghost predicate StoreChanges(w: State, w': State, op: Operation) {
    && w.store.Some?
    && var s := Apply(w.store.value, op);
       w' == w.(now := w'.now, store := Some(s), databases := w.databases[w.epoch := s.db],
                acknowledged := w.acknowledged + Acknowledgements(w.epoch, s),
                flushes := w.flushes + Events(w.epoch, FlushedBy(w.store.value, op)), repeated := w'.repeated)
  }

  // ---------------------------------------------------------------------------------------------
  // The steps.

  /** The service starts with the round that is open by now, which may have been open before. */
  ghost predicate Boot(c: Config, w: State, w': State) {
    && w.store.None? && c.rounds.epochDuration > 0
    && var e := c.rounds.OpenRoundId(w'.now);
       var db := DatabaseOf(w.databases, e);
       w' == w.(now := w'.now, epoch := e, store := Some(NewStore(db, c.maxMembers, c.maxBatchSize)),
                databases := w.databases[e := db])
  }

  /** The round before the open one is sent once more. */
  ghost predicate RecoverExecution(c: Config, w: State, w': State) {
    && w.store.Some? && w.epoch > 0 && w.epoch - 1 in w.databases
    && w' == w.(now := w'.now, sent := w.sent + [SentFor(c, w.epoch - 1, w.databases[w.epoch - 1])])
  }

  /** A challenge that is already submitted is reported as success without waiting for anything. */
  ghost predicate SubmitStep(w: State, w': State, key: Key, challenge: Challenge, getOk: bool, writeOk: bool) {
    && StoreChanges(w, w', Submission(key, challenge, getOk, writeOk))
    && var s := w.store.value;
       w'.repeated == w.repeated
                      + if Submit(s, key, challenge, getOk, writeOk).1 == AlreadySubmitted
                        then [Repeated(w.epoch, key, challenge, key in s.pending, |w.flushes|)] else []
  }

  ghost predicate TimerStep(w: State, w': State, timer: nat, writeOk: bool) {
    StoreChanges(w, w', TimerFires(timer, writeOk)) && w'.repeated == w.repeated
  }

  /** The service shuts down and closes the open round. */
  ghost predicate ShutDown(w: State, w': State, writeOk: bool) {
    StoreChanges(w, w', Closing(writeOk)) && w'.repeated == w.repeated
  }

  /** The round is closed when its execution starts: what is pending is flushed, the root is computed and sent, and the
      round that is open by now takes its place. */
  ghost predicate CloseRound(c: Config, w: State, w': State, writeOk: bool) {
    && w.store.Some? && w'.now >= c.rounds.RoundStart(w.epoch) && c.rounds.epochDuration > 0
    && var s := Flush(w.store.value, writeOk);
       var databases := w.databases[w.epoch := s.db];
       var e := c.rounds.OpenRoundId(w'.now);
       var db := DatabaseOf(databases, e);
       w' == State(w'.now, e, Some(NewStore(db, c.maxMembers, c.maxBatchSize)), databases[e := db],
                   w.sent + [SentFor(c, w.epoch, s.db)], w.saved,
                   w.acknowledged + Acknowledgements(w.epoch, s),
                   w.flushes + Events(w.epoch, FlushedBatch(w.store.value, writeOk)), w.repeated)
  }

  /** A proof arrives: the members of its round are read again, and saved with it. The database of the open round is
      locked; one that does not exist is ignored. */
  ghost predicate NewProof(w: State, w': State, e: nat) {
    && w.store.Some? && e != w.epoch && e in w.databases
    && w' == w.(now := w'.now, saved := w.saved + [Saved(e, Members(w.databases[e]))])
  }

  /** The process dies. Its last batch is lost, or was just written without anyone being told. */
  ghost predicate Crash(w: State, w': State, written: bool) {
    match w.store
    case None => w' == w.(now := w'.now)
    case Some(s) =>
      w' == w.(now := w'.now, store := None, databases := w.databases[w.epoch := Flush(s, written).db],
               flushes := w.flushes + Events(w.epoch, FlushedBatch(s, written)))
  }

  ghost predicate Next(c: Config, w: State, w': State) {
    && w.now <= w'.now
    && (|| Boot(c, w, w')
        || RecoverExecution(c, w, w')
        || (exists key, challenge, getOk, writeOk :: SubmitStep(w, w', key, challenge, getOk, writeOk))
        || (exists timer: nat, writeOk :: TimerStep(w, w', timer, writeOk))
        || (exists writeOk :: CloseRound(c, w, w', writeOk))
        || (exists e: nat :: NewProof(w, w', e))
        || (exists writeOk :: ShutDown(w, w', writeOk))
        || (exists written :: Crash(w, w', written)))
  }

  ghost predicate Init(w: State) {
    w.epoch == 0 && w.store.None? && w.databases == map[] && w.sent == [] && w.saved == [] && w.acknowledged == {}
    && w.flushes == [] && w.repeated == []
  }

  ghost predicate IsRun(c: Config, run: seq<State>) {
    && c.rounds.epochDuration > 0 && run != []
    && if |run| == 1 then Init(run[0]) else IsRun(c, run[..|run| - 1]) && Next(c, run[|run| - 2], run[|run| - 1])
  }

  // ---------------------------------------------------------------------------------------------
  // What every step keeps.

  /** What was sent or saved is about an earlier round, and is what the database of that round still says. */
  ghost predicate HistoryOk(c: Config, epoch: nat, databases: map<nat, Database>, sent: seq<Sent>, saved: seq<Saved>) {
    && (forall x | x in sent :: x.epoch < epoch && x.epoch in databases && x == SentFor(c, x.epoch, databases[x.epoch]))
    && (forall x | x in saved :: x.epoch < epoch && x.epoch in databases && x.members == Members(databases[x.epoch]))
  }

  ghost predicate AcknowledgedOk(databases: map<nat, Database>, acknowledged: set<Acknowledged>) {
    forall a | a in acknowledged ::
      a.epoch in databases && a.key in databases[a.epoch] && databases[a.epoch][a.key] == a.challenge
  }

  ghost predicate StoreOk(w: State) {
    w.store.Some? ==>
      RoundStore.Inv(w.store.value) && w.epoch in w.databases && w.databases[w.epoch] == w.store.value.db
  }

  predicate Wrote(f: Flushed, epoch: nat, k: Key, v: Challenge) {
    f.epoch == epoch && f.ok && (k, v) in f.batch
  }

  ghost predicate WrittenBy(flushes: seq<Flushed>, epoch: nat, k: Key, v: Challenge) {
    exists i :: 0 <= i < |flushes| && Wrote(flushes[i], epoch, k, v)
  }

  /** A database holds exactly what was written to it. */
  ghost predicate WritesOk(databases: map<nat, Database>, flushes: seq<Flushed>) {
    forall e: nat, k, v :: Has(DatabaseOf(databases, e), k, v) <==> WrittenBy(flushes, e, k, v)
  }

  /** The fate of the batch that a repeated submission was pending in is known. */
  ghost predicate Decided(flushes: seq<Flushed>, a: Repeated) {
    && a.at < |flushes| && flushes[a.at].epoch == a.epoch && (a.key, a.challenge) in flushes[a.at].batch
    && forall i | 0 <= i < a.at :: !Wrote(flushes[i], a.epoch, a.key, a.challenge)
  }

  ghost predicate Undecided(flushes: seq<Flushed>, epoch: nat, pending: map<Key, Pending>, a: Repeated) {
    && a.at == |flushes| && a.epoch == epoch && a.key in pending && pending[a.key].challenge == a.challenge
    && forall i | 0 <= i < a.at :: !Wrote(flushes[i], a.epoch, a.key, a.challenge)
  }

  ghost predicate RepeatedOk(databases: map<nat, Database>, flushes: seq<Flushed>, epoch: nat,
                             pending: map<Key, Pending>, a: Repeated) {
    if a.pending then Decided(flushes, a) || Undecided(flushes, epoch, pending, a)
    else Has(DatabaseOf(databases, a.epoch), a.key, a.challenge)
  }

  ghost predicate AllRepeatedOk(databases: map<nat, Database>, flushes: seq<Flushed>, epoch: nat,
                                pending: map<Key, Pending>, repeated: seq<Repeated>) {
    forall a | a in repeated :: RepeatedOk(databases, flushes, epoch, pending, a)
  }

  function PendingOf(store: Option<Store>): map<Key, Pending> {
    match store
    case None => map[]
    case Some(s) => s.pending
  }

  ghost predicate BatchesOk(w: State) {
    WritesOk(w.databases, w.flushes) && AllRepeatedOk(w.databases, w.flushes, w.epoch, PendingOf(w.store), w.repeated)
  }

  ghost predicate Inv(c: Config, w: State) {
    && c.rounds.epochDuration > 0
    && w.epoch <= c.rounds.OpenRoundId(w.now)
    && (forall e | e in w.databases :: e <= w.epoch)
    && StoreOk(w)
    && HistoryOk(c, w.epoch, w.databases, w.sent, w.saved)
    && AcknowledgedOk(w.databases, w.acknowledged)
    && BatchesOk(w)
  }

  /** Entries are only ever added, and only to the round opened last. */
  ghost predicate Grows(epoch: nat, before: map<nat, Database>, after: map<nat, Database>) {
    forall e | e in before :: e in after && Extends(before[e], after[e]) && (e < epoch ==> after[e] == before[e])
  }

  lemma GrowthIsOk(c: Config, epoch: nat, epoch': nat, before: map<nat, Database>, after: map<nat, Database>,
                   sent: seq<Sent>, saved: seq<Saved>, acknowledged: set<Acknowledged>)
    requires Grows(epoch, before, after) && epoch <= epoch'
    requires HistoryOk(c, epoch, before, sent, saved) && AcknowledgedOk(before, acknowledged)
    ensures HistoryOk(c, epoch', after, sent, saved) && AcknowledgedOk(after, acknowledged)
  {
    hide SentFor, Members;
  }

  lemma AcknowledgementsOk(w: State, s: Store, acknowledged: set<Acknowledged>)
    requires RoundStore.Inv(s) && AcknowledgedOk(w.databases[w.epoch := s.db], acknowledged)
    ensures AcknowledgedOk(w.databases[w.epoch := s.db], acknowledged + Acknowledgements(w.epoch, s))
  {
    hide BatchOk;
    forall a | a in Acknowledgements(w.epoch, s)
      ensures a.epoch == w.epoch && a.key in s.db && s.db[a.key] == a.challenge
    {
    }
  }

  // What a flush does to the history of batches.

  lemma FlushIsWritten(epoch: nat, databases: map<nat, Database>, flushes: seq<Flushed>, s: Store, t: Store,
                       flushed: Option<(seq<(Key, Challenge)>, bool)>)
    requires WritesOk(databases, flushes) && epoch in databases && databases[epoch] == s.db
    requires FlushExplains(s, flushed, t)
    ensures WritesOk(databases[epoch := t.db], flushes + Events(epoch, flushed))
  {
    var databases', flushes' := databases[epoch := t.db], flushes + Events(epoch, flushed);
    forall e: nat, k, v
      ensures Has(DatabaseOf(databases', e), k, v) <==> WrittenBy(flushes', e, k, v)
    {
      assert Has(DatabaseOf(databases, e), k, v) <==> WrittenBy(flushes, e, k, v);
      EventWrites(flushes, epoch, flushed, e, k, v);
    }
  }

  lemma EventWrites(flushes: seq<Flushed>, epoch: nat, flushed: Option<(seq<(Key, Challenge)>, bool)>,
                    e: nat, k: Key, v: Challenge)
    ensures WrittenBy(flushes + Events(epoch, flushed), e, k, v)
            <==> WrittenBy(flushes, e, k, v)
                 || (flushed.Some? && e == epoch && flushed.value.1 && (k, v) in flushed.value.0)
  {
    var flushes' := flushes + Events(epoch, flushed);
    if i :| 0 <= i < |flushes| && Wrote(flushes[i], e, k, v) {
      assert Wrote(flushes'[i], e, k, v);
    }
    if flushed.Some? && e == epoch && flushed.value.1 && (k, v) in flushed.value.0 {
      assert Wrote(flushes'[|flushes|], e, k, v);
    }
  }

  lemma FlushDecides(epoch: nat, databases: map<nat, Database>, flushes: seq<Flushed>, s: Store, t: Store,
                     flushed: Option<(seq<(Key, Challenge)>, bool)>, a: Repeated)
    requires RepeatedOk(databases, flushes, epoch, s.pending, a) && epoch in databases && databases[epoch] == s.db
    requires FlushExplains(s, flushed, t) && Extends(s.db, t.db)
    ensures RepeatedOk(databases[epoch := t.db], flushes + Events(epoch, flushed), epoch, t.pending, a)
  {
    var flushes' := flushes + Events(epoch, flushed);
    assert forall i | 0 <= i < |flushes| :: flushes'[i] == flushes[i];
  }

  lemma FlushKeepsBatches(epoch: nat, databases: map<nat, Database>, flushes: seq<Flushed>, s: Store, t: Store,
                          flushed: Option<(seq<(Key, Challenge)>, bool)>, repeated: seq<Repeated>)
    requires WritesOk(databases, flushes) && epoch in databases && databases[epoch] == s.db
    requires AllRepeatedOk(databases, flushes, epoch, s.pending, repeated)
    requires FlushExplains(s, flushed, t) && Extends(s.db, t.db)
    ensures WritesOk(databases[epoch := t.db], flushes + Events(epoch, flushed))
    ensures AllRepeatedOk(databases[epoch := t.db], flushes + Events(epoch, flushed), epoch, t.pending, repeated)
  {
    hide WritesOk, RepeatedOk, FlushExplains, Extends;
    FlushIsWritten(epoch, databases, flushes, s, t, flushed);
    forall a | a in repeated
      ensures RepeatedOk(databases[epoch := t.db], flushes + Events(epoch, flushed), epoch, t.pending, a)
    {
      FlushDecides(epoch, databases, flushes, s, t, flushed, a);
    }
  }

  /** What a repeated submission refers to is there when it is answered. */
  lemma NewRepeatedIsOk(w: State, a: Repeated)
    requires WritesOk(w.databases, w.flushes) && w.store.Some? && BatchOk(w.store.value)
    requires w.epoch in w.databases && w.databases[w.epoch] == w.store.value.db
    requires a.epoch == w.epoch && a.at == |w.flushes| && a.pending == (a.key in w.store.value.pending)
    requires if a.pending then w.store.value.pending[a.key].challenge == a.challenge
             else Has(w.store.value.db, a.key, a.challenge)
    ensures RepeatedOk(w.databases, w.flushes, w.epoch, w.store.value.pending, a)
  {
    if a.pending {
      assert !Has(DatabaseOf(w.databases, a.epoch), a.key, a.challenge);
      assert !WrittenBy(w.flushes, a.epoch, a.key, a.challenge);
    }
  }

  /** When nothing is pending any more, every fate is known. */
  lemma NothingPending(databases: map<nat, Database>, databases': map<nat, Database>, flushes: seq<Flushed>, epoch: nat,
                       pending: map<Key, Pending>, epoch': nat, pending': map<Key, Pending>, repeated: seq<Repeated>)
    requires AllRepeatedOk(databases, flushes, epoch, pending, repeated) && pending == map[]
    requires forall e: nat :: DatabaseOf(databases', e) == DatabaseOf(databases, e)
    ensures AllRepeatedOk(databases', flushes, epoch', pending', repeated)
    ensures WritesOk(databases, flushes) ==> WritesOk(databases', flushes)
  {
    forall a | a in repeated
      ensures RepeatedOk(databases', flushes, epoch', pending', a)
    {
      assert RepeatedOk(databases, flushes, epoch, pending, a);
    }
    if WritesOk(databases, flushes) {
      forall e: nat, k, v
        ensures Has(DatabaseOf(databases', e), k, v) <==> WrittenBy(flushes, e, k, v)
      {
        assert Has(DatabaseOf(databases, e), k, v) <==> WrittenBy(flushes, e, k, v);
      }
    }
  }

  /** Steps that only change the store of the open round. */
  lemma StoreChangesKeep(c: Config, w: State, w': State, op: Operation)
    requires Inv(c, w) && w.now <= w'.now && StoreChanges(w, w', op)
    requires forall a | a in w'.repeated && a !in w.repeated ::
               RepeatedOk(w.databases, w.flushes, w.epoch, w.store.value.pending, a)
    ensures Inv(c, w') && Grows(w.epoch, w.databases, w'.databases)
  {
    hide RoundStore.Inv, Apply, FlushedBy, Acknowledgements, RepeatedOk, WritesOk, FlushExplains, HistoryOk,
         AcknowledgedOk, BatchOk;
    var s, t := w.store.value, Apply(w.store.value, op);
    c.rounds.OpenRoundIsMonotone(w.now, w'.now);
    ApplyKeeps(s, op);
    ExtendsAll(w.databases);
    GrowthIsOk(c, w.epoch, w.epoch, w.databases, w'.databases, w.sent, w.saved, w.acknowledged);
    AcknowledgementsOk(w, t, w.acknowledged);
    BatchIsOk(s);
    FlushesExplain(s, op);
    FlushKeepsBatches(w.epoch, w.databases, w.flushes, s, t, FlushedBy(s, op), w'.repeated);
  }

  lemma BatchIsOk(s: Store)
    requires RoundStore.Inv(s)
    ensures BatchOk(s)
  {
  }

  lemma SubmitKeeps(c: Config, w: State, w': State, key: Key, challenge: Challenge, getOk: bool, writeOk: bool)
    requires Inv(c, w) && w.now <= w'.now && SubmitStep(w, w', key, challenge, getOk, writeOk)
    ensures Inv(c, w') && Grows(w.epoch, w.databases, w'.databases)
  {
    hide WritesOk, RepeatedOk, HistoryOk, AcknowledgedOk, RoundStore.Inv, AfterAdd;
    var s := w.store.value;
    BatchIsOk(s);
    if Submit(s, key, challenge, getOk, writeOk).1 == AlreadySubmitted {
      NewRepeatedIsOk(w, Repeated(w.epoch, key, challenge, key in s.pending, |w.flushes|));
    }
    StoreChangesKeep(c, w, w', Submission(key, challenge, getOk, writeOk));
  }

  lemma ExtendsAll(databases: map<nat, Database>)
    ensures forall e | e in databases :: Extends(databases[e], databases[e])
  {
  }

  /** Opening the round of now, after the databases are in order. */
  lemma OpeningKeeps(c: Config, w: State, w': State)
    requires Inv(c, w) && w.now <= w'.now && PendingOf(w.store) == map[]
    requires var e := c.rounds.OpenRoundId(w'.now);
             var db := DatabaseOf(w.databases, e);
             w' == w.(now := w'.now, epoch := e, store := Some(NewStore(db, c.maxMembers, c.maxBatchSize)),
                      databases := w.databases[e := db])
    ensures Inv(c, w') && w.epoch <= w'.epoch && Grows(w.epoch, w.databases, w'.databases)
  {
    hide RoundStore.Inv, SentFor, Members, RepeatedOk, WritesOk;
    var e := c.rounds.OpenRoundId(w'.now);
    var db := DatabaseOf(w.databases, e);
    NothingPending(w.databases, w'.databases, w.flushes, w.epoch, PendingOf(w.store), e, map[], w.repeated);
    c.rounds.OpenRoundIsMonotone(w.now, w'.now);
    NewStoreIsOk(db, c.maxMembers, c.maxBatchSize);
    ExtendsAll(w.databases);
    GrowthIsOk(c, w.epoch, e, w.databases, w'.databases, w.sent, w.saved, w.acknowledged);
  }

  lemma CloseRoundKeeps(c: Config, w: State, w': State, writeOk: bool)
    requires Inv(c, w) && w.now <= w'.now && CloseRound(c, w, w', writeOk)
    ensures Inv(c, w') && w.epoch < w'.epoch && Grows(w.epoch, w.databases, w'.databases)
    ensures NextToStart(c, w'.epoch, w'.now)
  {
    hide RoundStore.Inv, Members, MembershipRoot, InKeyOrder, Flush, Acknowledgements, Extends, NewStore, BatchesOk,
         HistoryOk, AcknowledgedOk, FlushedBatch, NextToStart;
    OpensNextToStart(c, w, w');
    var flushed := FlushedState(c, w, w'.now, writeOk);
    var s := flushed.store.value;
    var reopened := w'.(sent := w.sent);
    OpeningKeeps(c, flushed, reopened);
    c.rounds.ClosingMovesOn(w'.now, w.epoch);
    assert w'.databases[w.epoch] == s.db;
    SendingKeeps(c, reopened, w', w.epoch);
    GrowsTransitively(w.epoch, w.databases, flushed.databases, w'.databases);
  }

  /** The state after a forced flush. */
  lemma FlushedState(c: Config, w: State, now: int, writeOk: bool) returns (flushed: State)
    requires Inv(c, w) && w.now <= now && w.store.Some?
    ensures var s := Flush(w.store.value, writeOk);
            flushed == State(now, w.epoch, Some(s), w.databases[w.epoch := s.db], w.sent, w.saved,
                             w.acknowledged + Acknowledgements(w.epoch, s),
                             w.flushes + Events(w.epoch, FlushedBatch(w.store.value, writeOk)), w.repeated)
    ensures Inv(c, flushed) && Grows(w.epoch, w.databases, flushed.databases)
    ensures PendingOf(flushed.store) == map[]
  {
    hide RoundStore.Inv, Members, Flush, Acknowledgements, Extends, BatchesOk, HistoryOk, AcknowledgedOk, FlushedBatch;
    var s := Flush(w.store.value, writeOk);
    flushed := State(now, w.epoch, Some(s), w.databases[w.epoch := s.db], w.sent, w.saved,
                     w.acknowledged + Acknowledgements(w.epoch, s),
                     w.flushes + Events(w.epoch, FlushedBatch(w.store.value, writeOk)), w.repeated);
    assert Apply(w.store.value, ForcedFlush(writeOk)) == s;
    StoreChangesKeep(c, w, flushed, ForcedFlush(writeOk));
    NothingIsPending(w.store.value, writeOk);
  }

  lemma NothingIsPending(s: Store, writeOk: bool)
    requires RoundStore.Inv(s)
    ensures Flush(s, writeOk).pending == map[]
  {
    FlushLeavesNothing(s, writeOk);
  }

  /** Sending the root of an earlier round. */
  lemma SendingKeeps(c: Config, w: State, w': State, e: nat)
    requires Inv(c, w) && e < w.epoch && e in w.databases
    requires w' == w.(sent := w.sent + [SentFor(c, e, w.databases[e])])
    ensures Inv(c, w')
  {
    hide RoundStore.Inv, Members, MembershipRoot, InKeyOrder, BatchesOk;
    SameBatches(w, w');
  }

  lemma CrashKeeps(c: Config, w: State, w': State, written: bool)
    requires Inv(c, w) && w.now <= w'.now && Crash(w, w', written)
    ensures Inv(c, w') && Grows(w.epoch, w.databases, w'.databases)
  {
    hide RoundStore.Inv, Flush, FlushedBatch, Acknowledgements, Extends, WritesOk, RepeatedOk, HistoryOk;
    c.rounds.OpenRoundIsMonotone(w.now, w'.now);
    if w.store.Some? {
      var flushed := FlushedState(c, w, w'.now, written);
      NothingPending(flushed.databases, w'.databases, w'.flushes, w.epoch, PendingOf(flushed.store), w.epoch, map[],
                     w.repeated);
    } else {
      ExtendsAll(w.databases);
    }
  }

  /** The open round is the first that has not started. */
  ghost predicate NextToStart(c: Config, epoch: nat, now: int) {
    c.rounds.RoundStart(epoch) > now && forall e: nat | c.rounds.RoundStart(e) > now :: e >= epoch
  }

  /** A round is opened, at a start or at the close of the one before. */
  ghost predicate Opens(c: Config, w: State, w': State) {
    Boot(c, w, w') || exists writeOk :: CloseRound(c, w, w', writeOk)
  }

  lemma OpensNextToStart(c: Config, w: State, w': State)
    requires c.rounds.epochDuration > 0 && Opens(c, w, w')
    ensures NextToStart(c, w'.epoch, w'.now)
  {
    hide Flush, FlushedBatch, Acknowledgements, Schedule.RoundConfig.OpenRoundId, Schedule.RoundConfig.RoundStart;
    assert w'.epoch == c.rounds.OpenRoundId(w'.now);
    forall e: nat
      ensures c.rounds.RoundStart(e) > w'.now <==> e >= w'.epoch
    {
      c.rounds.OpenRoundIsNextToStart(w'.now, e);
    }
  }

  lemma GrowsTransitively(epoch: nat, a: map<nat, Database>, b: map<nat, Database>, c: map<nat, Database>)
    requires Grows(epoch, a, b) && Grows(epoch, b, c)
    ensures Grows(epoch, a, c)
  {
  }

  lemma SameBatches(w: State, w': State)
    requires BatchesOk(w) && w'.databases == w.databases && w'.flushes == w.flushes && w'.epoch == w.epoch
    requires w'.store == w.store && w'.repeated == w.repeated
    ensures BatchesOk(w')
  {
    hide WritesOk, RepeatedOk;
  }

  lemma OtherStepsKeep(c: Config, w: State, w': State)
    requires Inv(c, w) && w.now <= w'.now
    requires RecoverExecution(c, w, w') || (exists e: nat :: NewProof(w, w', e))
    ensures Inv(c, w') && Grows(w.epoch, w.databases, w'.databases)
  {
    hide RoundStore.Inv, Members, MembershipRoot, InKeyOrder, BatchesOk;
    c.rounds.OpenRoundIsMonotone(w.now, w'.now);
    assert BatchesOk(w') by {
      SameBatches(w, w');
    }
    ExtendsAll(w.databases);
  }

  lemma NextKeeps(c: Config, w: State, w': State)
    requires Inv(c, w) && Next(c, w, w')
    ensures Inv(c, w') && w.epoch <= w'.epoch && Grows(w.epoch, w.databases, w'.databases)
  {
    hide Inv, Grows;
    if Boot(c, w, w') {
      OpeningKeeps(c, w, w');
    } else if key, challenge, getOk, writeOk :| SubmitStep(w, w', key, challenge, getOk, writeOk) {
      SubmitKeeps(c, w, w', key, challenge, getOk, writeOk);
    } else if timer: nat, writeOk :| TimerStep(w, w', timer, writeOk) {
      StoreChangesKeep(c, w, w', TimerFires(timer, writeOk));
    } else if writeOk :| ShutDown(w, w', writeOk) {
      StoreChangesKeep(c, w, w', Closing(writeOk));
    } else if written :| Crash(w, w', written) {
      CrashKeeps(c, w, w', written);
    } else if writeOk :| CloseRound(c, w, w', writeOk) {
      CloseRoundKeeps(c, w, w', writeOk);
    } else {
      OtherStepsKeep(c, w, w');
    }
  }

  lemma {:induction false} RunsKeepInv(c: Config, run: seq<State>)
    requires IsRun(c, run)
    ensures Inv(c, run[|run| - 1])
    decreases |run|
  {
    hide Next;
    if |run| > 1 {
      hide Inv;
      var before := run[..|run| - 1];
      RunsKeepInv(c, before);
      assert before[|before| - 1] == run[|run| - 2];
      NextKeeps(c, run[|run| - 2], run[|run| - 1]);
    }
  }

  /** A submission that was acknowledged for an epoch is among the entries of every root sent for that epoch. */
  lemma NoAcknowledgedSubmissionIsLost(c: Config, run: seq<State>, a: Acknowledged, x: Sent)
    requires IsRun(c, run) && a in run[|run| - 1].acknowledged && x in run[|run| - 1].sent && x.epoch == a.epoch
    ensures (a.key, a.challenge) in x.entries && x.root == MembershipRoot(c.hash, Values(x.entries))
  {
    RunsKeepInv(c, run);
    var w := run[|run| - 1];
    IterationIsComplete(w.databases[a.epoch], a.key, a.challenge);
  }

  /** A success reported for an already submitted challenge: if it was in the database, it is among the entries of every
      root sent for that epoch; if it was pending, the fate of its batch is known by the time a root is sent, and it is
      among the entries exactly if that batch was written, or the challenge was submitted again and written later. */
  lemma RepeatedSubmissions(c: Config, run: seq<State>, a: Repeated, x: Sent)
    requires IsRun(c, run) && a in run[|run| - 1].repeated && x in run[|run| - 1].sent && x.epoch == a.epoch
    ensures var flushes := run[|run| - 1].flushes;
            if a.pending then
              && a.at < |flushes| && flushes[a.at].epoch == a.epoch && (a.key, a.challenge) in flushes[a.at].batch
              && ((a.key, a.challenge) in x.entries <==>
                  flushes[a.at].ok
                  || exists i :: a.at < i < |flushes| && Wrote(flushes[i], a.epoch, a.key, a.challenge))
            else (a.key, a.challenge) in x.entries
  {
    hide Inv;
    RunsKeepInv(c, run);
    RepeatedAndSent(c, run[|run| - 1], a, x);
  }

  lemma RepeatedAndSent(c: Config, w: State, a: Repeated, x: Sent)
    requires Inv(c, w) && a in w.repeated && x in w.sent && x.epoch == a.epoch
    ensures if a.pending then
              && Decided(w.flushes, a)
              && ((a.key, a.challenge) in x.entries <==>
                  w.flushes[a.at].ok
                  || exists i :: a.at < i < |w.flushes| && Wrote(w.flushes[i], a.epoch, a.key, a.challenge))
            else (a.key, a.challenge) in x.entries
  {
    hide Members, MembershipRoot, InKeyOrder, RoundStore.Inv, AcknowledgedOk;
    var db := w.databases[a.epoch];
    assert DatabaseOf(w.databases, a.epoch) == db;
    IterationIsComplete(db, a.key, a.challenge);
    assert RepeatedOk(w.databases, w.flushes, w.epoch, PendingOf(w.store), a);
    if a.pending {
      assert Has(db, a.key, a.challenge) <==> WrittenBy(w.flushes, a.epoch, a.key, a.challenge);
      WrittenThenOrLater(w.flushes, a);
    }
  }

  lemma WrittenThenOrLater(flushes: seq<Flushed>, a: Repeated)
    requires Decided(flushes, a)
    ensures WrittenBy(flushes, a.epoch, a.key, a.challenge) <==>
            flushes[a.at].ok || exists i :: a.at < i < |flushes| && Wrote(flushes[i], a.epoch, a.key, a.challenge)
  {
    if flushes[a.at].ok {
      assert Wrote(flushes[a.at], a.epoch, a.key, a.challenge);
    }
  }

  /** All roots sent for an epoch are equal, and they are the root of the members saved with its proof. */
  lemma StatementMatchesMembers(c: Config, run: seq<State>, x: Sent, y: Sent, z: Saved)
    requires IsRun(c, run) && x in run[|run| - 1].sent && y in run[|run| - 1].sent && z in run[|run| - 1].saved
    requires x.epoch == y.epoch == z.epoch
    ensures x.root == y.root == MembershipRoot(c.hash, z.members)
  {
    RunsKeepInv(c, run);
  }

  /** In every run, right after a start or a close, the open round is the first that has not started. */
  lemma OpenRoundHasNotStarted(c: Config, run: seq<State>)
    requires IsRun(c, run) && |run| > 1
    requires Opens(c, run[|run| - 2], run[|run| - 1])
    ensures NextToStart(c, run[|run| - 1].epoch, run[|run| - 1].now)
  {
    hide Opens, Next;
    OpensNextToStart(c, run[|run| - 2], run[|run| - 1]);
  }

  /** What a start sends once more is the root of the round in whose epoch it takes place. */
  lemma RecoversRoundInProgress(c: Config, w: State, started: State, w': State)
    requires c.rounds.epochDuration > 0 && Boot(c, w, started) && RecoverExecution(c, started, w')
    ensures var x := w'.sent[|w'.sent| - 1];
            c.rounds.RoundStart(x.epoch) <= started.now < c.rounds.RoundStart(x.epoch + 1)
  {
    hide MembershipRoot, Members, InKeyOrder, Schedule.RoundConfig.OpenRoundId, Schedule.RoundConfig.RoundStart;
    c.rounds.OpenRoundIsNextToStart(started.now, started.epoch);
    c.rounds.OpenRoundIsNextToStart(started.now, started.epoch - 1);
  }

  /** The database of a round that is no longer open never changes. */
  lemma ClosedRoundsAreFrozen(c: Config, run: seq<State>, e: nat)
    requires IsRun(c, run) && |run| > 1
    requires e in run[|run| - 2].databases && e < run[|run| - 2].epoch
    ensures e in run[|run| - 1].databases && run[|run| - 1].databases[e] == run[|run| - 2].databases[e]
    ensures e < run[|run| - 1].epoch
  {
    hide Inv, Next;
    var before := run[..|run| - 1];
    RunsKeepInv(c, before);
    assert before[|before| - 1] == run[|run| - 2];
    NextKeeps(c, run[|run| - 2], run[|run| - 1]);
  }

  // ---------------------------------------------------------------------------------------------
  // A run in which a reported success is not kept.

  function TenSeconds(hash: Hasher<Bytes>): Config {
    Config(Schedule.RoundConfig(0, 10, 10, 0), 2, 2, hash)
  }

  lemma GoOn(c: Config, run: seq<State>, w': State) returns (longer: seq<State>)
    requires IsRun(c, run) && Next(c, run[|run| - 1], w')
    ensures longer == run + [w'] && IsRun(c, longer)
  {
    hide Next;
    longer := run + [w'];
    assert longer[..|run|] == run;
  }

  lemma EmptyRoundOpens(hash: Hasher<Bytes>)
    ensures var c := TenSeconds(hash).rounds; c.OpenRoundId(0) == 0 && c.OpenRoundId(10) == 1 && c.RoundStart(0) == 10
  {
  }

  lemma NobodyIsMember()
    ensures InKeyOrder(map[]) == []
  {
  }

  /** The open round with one submission pending. */
  function OnePending(key: Key, challenge: Challenge): Store {
    AfterAdd(Add(NewStore(map[], 2, 2), key, challenge), true)
  }

  lemma OnePendingIs(key: Key, challenge: Challenge)
    ensures var empty, s := NewStore(map[], 2, 2), OnePending(key, challenge);
            && Submit(empty, key, challenge, true, true) == (s, Accepted(0))
            && Submit(s, key, challenge, true, true) == (s, AlreadySubmitted)
            && FlushedBy(empty, Submission(key, challenge, true, true)).None?
            && FlushedBy(s, Submission(key, challenge, true, true)).None?
            && key in s.pending && s.db == map[]
            && Acknowledgements(0, s) == {} && Flush(s, false).db == map[] && s.batch == [(key, challenge)]
  {
  }

  /** The states of the run: before, round open, submitted, submitted again. */
  const BEFORE: State := State(0, 0, None, map[], [], [], {}, [], [])

  function OpenState(): State {
    BEFORE.(store := Some(NewStore(map[], 2, 2)), databases := map[0 := map[]])
  }

  function SubmittedState(key: Key, challenge: Challenge): State {
    OpenState().(store := Some(OnePending(key, challenge)))
  }

  function RepeatedState(key: Key, challenge: Challenge): State {
    SubmittedState(key, challenge).(repeated := [Repeated(0, key, challenge, true, 0)])
  }

  lemma OpenStep(hash: Hasher<Bytes>)
    ensures Next(TenSeconds(hash), BEFORE, OpenState())
  {
    hide Schedule.RoundConfig.OpenRoundId, Schedule.RoundConfig.RoundStart;
    EmptyRoundOpens(hash);
    assert Boot(TenSeconds(hash), BEFORE, OpenState());
  }

  lemma SubmitSteps(c: Config, key: Key, challenge: Challenge)
    ensures Next(c, OpenState(), SubmittedState(key, challenge))
    ensures Next(c, SubmittedState(key, challenge), RepeatedState(key, challenge))
  {
    hide Submit, AfterAdd, FlushedBy, Acknowledgements, OnePending;
    OnePendingIs(key, challenge);
    var w1, w2, w3 := OpenState(), SubmittedState(key, challenge), RepeatedState(key, challenge);
    var op := Submission(key, challenge, true, true);
    assert Apply(w1.store.value, op) == w2.store.value && Apply(w2.store.value, op) == w2.store.value;
    assert StoreChanges(w1, w2, op) && StoreChanges(w2, w3, op);
    assert SubmitStep(w1, w2, key, challenge, true, true);
    assert SubmitStep(w2, w3, key, challenge, true, true);
  }

  lemma CloseStep(hash: Hasher<Bytes>, key: Key, challenge: Challenge) returns (w: State)
    ensures Next(TenSeconds(hash), RepeatedState(key, challenge), w)
    ensures w.repeated == [Repeated(0, key, challenge, true, 0)] && w.sent == [SentFor(TenSeconds(hash), 0, map[])]
  {
    hide Submit, AfterAdd, FlushedBy, Flush, FlushedBatch, Acknowledgements, OnePending, Members, MembershipRoot,
         InKeyOrder, Schedule.RoundConfig.OpenRoundId, Schedule.RoundConfig.RoundStart;
    OnePendingIs(key, challenge);
    EmptyRoundOpens(hash);
    var c, s := TenSeconds(hash), OnePending(key, challenge);
    w := State(10, 1, Some(NewStore(map[], 2, 2)), map[0 := map[]][1 := map[]], [SentFor(c, 0, map[])], [],
               Acknowledgements(0, Flush(s, false)), Events(0, FlushedBatch(s, false)),
               [Repeated(0, key, challenge, true, 0)]);
    assert CloseRound(c, RepeatedState(key, challenge), w, false);
  }

  /** A challenge reported as success is not among the entries of a root sent for its epoch. */
  ghost predicate Loses(w: State, key: Key, challenge: Challenge) {
    exists a, x :: a in w.repeated && x in w.sent && a.epoch == x.epoch && a.key == key && a.challenge == challenge
                   && (key, challenge) !in x.entries
  }

  /** A challenge is submitted twice, the second time with success at once; then the round closes, and the write
      fails. */
  lemma RepeatedSubmissionIsLost(hash: Hasher<Bytes>, key: Key, challenge: Challenge)
    ensures exists run :: IsRun(TenSeconds(hash), run) && Loses(run[|run| - 1], key, challenge)
  {
    hide Next, OpenState, SubmittedState, RepeatedState, Members, MembershipRoot, InKeyOrder;
    var c := TenSeconds(hash);
    NobodyIsMember();
    OpenStep(hash);
    SubmitSteps(c, key, challenge);
    var w := CloseStep(hash, key, challenge);
    var run := [BEFORE];
    run := GoOn(c, run, OpenState());
    run := GoOn(c, run, SubmittedState(key, challenge));
    run := GoOn(c, run, RepeatedState(key, challenge));
    run := GoOn(c, run, w);
    var a, x := Repeated(0, key, challenge, true, 0), SentFor(c, 0, map[]);
    assert a in w.repeated && x in w.sent;
  }
}
