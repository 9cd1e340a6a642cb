/** The store of an open round: submissions are collected in a batch, which is written when a timer fires, when it is
    full, or when the round closes. */
module RoundStore {
  import opened MerkleTree
  import opened Labels

  type Key = Bytes
  type Challenge = Bytes

  datatype Pending = Pending(done: nat, challenge: Challenge)

  /** The fields of a round, and what can be observed of its channels: results[d] is what was sent on channel d,
      issued[d] the submission it was made for. Timers in armed may still fire, also those that were stopped too late.
      failed tells whether a write ever failed. */
  datatype Store = Store(open: bool, db: map<Key, Challenge>, maxMembers: int, members: int, maxBatchSize: int,
                         batch: seq<(Key, Challenge)>, pending: map<Key, Pending>,
                         pendingFlush: Option<nat>, armed: set<nat>,
                         results: map<nat, seq<bool>>, issued: map<nat, (Key, Challenge)>, next: nat, failed: bool)

  datatype Submitted = Accepted(done: nat) | MaxMembersReached | AlreadySubmitted | Conflicting | DatabaseError

  function NewStore(db: map<Key, Challenge>, maxMembers: int, maxBatchSize: int): Store {
    Store(true, db, maxMembers, |db|, maxBatchSize, [], map[], None, {}, map[], map[], 0, false)
  }

  /** A batch is written as a whole. */
  function Written(db: map<Key, Challenge>, batch: seq<(Key, Challenge)>): map<Key, Challenge> {
    if batch == [] then db else Written(db, batch[..|batch| - 1])[batch[|batch| - 1].0 := batch[|batch| - 1].1]
  }

  function Waiters(pending: map<Key, Pending>): set<nat> {
    set k | k in pending :: pending[k].done
  }

  function Notified(results: map<nat, seq<bool>>, waiting: set<nat>, ok: bool): map<nat, seq<bool>> {
    map d | d in results :: if d in waiting then results[d] + [ok] else results[d]
  }

  /** Flushing: the timer is stopped; if there is a batch it is written, everyone waiting is told how that went, and
      everyone counts as a member. */
  function Flush(s: Store, writeOk: bool): Store {
    var s := s.(pendingFlush := None);
    if s.batch == [] then s
    else
      var ok := s.open && writeOk;
      s.(db := if ok then Written(s.db, s.batch) else s.db,
         results := Notified(s.results, Waiters(s.pending), ok),
         members := s.members + |s.pending|,
         pending := map[], batch := [], failed := s.failed || !ok)
  }

  /** A timer fires, possibly one that was stopped too late. */
  function Fire(s: Store, timer: nat, writeOk: bool): Store {
    var s := s.(armed := s.armed - {timer});
    if s.pendingFlush.Some? then Flush(s, writeOk) else s
  }

  function Add(s: Store, key: Key, challenge: Challenge): Store {
    s.(batch := s.batch + [(key, challenge)],
       pending := s.pending[key := Pending(s.next, challenge)],
       results := s.results[s.next := []],
       issued := s.issued[s.next := (key, challenge)],
       next := s.next + 1)
  }

  /** A full batch is flushed at once; the first submission of a batch starts a timer. */
  function AfterAdd(s: Store, writeOk: bool): Store {
    if |s.batch| >= s.maxBatchSize then Flush(s, writeOk)
    else if |s.batch| == 1 then s.(pendingFlush := Some(s.next), armed := s.armed + {s.next}, next := s.next + 1)
    else s
  }

  function Submit(s: Store, key: Key, challenge: Challenge, getOk: bool, writeOk: bool): (Store, Submitted) {
    if s.members + |s.pending| >= s.maxMembers then (s, MaxMembersReached)
    else if key in s.pending then
      (s, if challenge == s.pending[key].challenge then AlreadySubmitted else Conflicting)
    else if !s.open || !getOk then (s, DatabaseError)
    else if key in s.db then (s, if challenge == s.db[key] then AlreadySubmitted else Conflicting)
    else (AfterAdd(Add(s, key, challenge), writeOk), Accepted(s.next))
  }

  /** The challenge a key is submitted with, pending or written. */
  predicate IsSubmitted(s: Store, key: Key, challenge: Challenge) {
    (key in s.pending && s.pending[key].challenge == challenge) || (key in s.db && s.db[key] == challenge)
  }

  /** Which answer a submission gets: a full round refuses everything; else, unless the database has to be asked and
      does not answer, what is submitted already is told apart from what conflicts with it, and all else is accepted. */
  lemma SubmitAnswers(s: Store, key: Key, challenge: Challenge, getOk: bool, writeOk: bool)
    requires s.pending.Keys !! s.db.Keys
    ensures var r := Submit(s, key, challenge, getOk, writeOk).1;
            var room, answers := s.members + |s.pending| < s.maxMembers, key in s.pending || (s.open && getOk);
            && (r == MaxMembersReached <==> !room)
            && (r == DatabaseError <==> room && !answers)
            && (r == AlreadySubmitted <==> room && answers && IsSubmitted(s, key, challenge))
            && (r == Conflicting <==>
                room && answers && (key in s.pending || key in s.db) && !IsSubmitted(s, key, challenge))
            && (r.Accepted? <==> room && answers && key !in s.pending && key !in s.db)
  {
  }

  function Close(s: Store, writeOk: bool): Store {
    Flush(s, writeOk).(open := false)
  }

  // ---------------------------------------------------------------------------------------------
  // What every operation keeps.

  function Keys(batch: seq<(Key, Challenge)>): set<Key> {
    if batch == [] then {} else Keys(batch[..|batch| - 1]) + {batch[|batch| - 1].0}
  }

  predicate Distinct(batch: seq<(Key, Challenge)>) {
    batch != [] ==> Distinct(batch[..|batch| - 1]) && batch[|batch| - 1].0 !in Keys(batch[..|batch| - 1])
  }

  /** The batch holds exactly the pending submissions. */
  ghost predicate SameSubmissions(batch: seq<(Key, Challenge)>, pending: map<Key, Pending>) {
    && Distinct(batch) && Keys(batch) == pending.Keys
    && forall b | b in batch :: b.0 in pending && pending[b.0].challenge == b.1
  }

  /** None of the pending submissions is in the database. */
  ghost predicate BatchOk(s: Store) {
    SameSubmissions(s.batch, s.pending) && s.pending.Keys !! s.db.Keys
  }

  /** Every channel gets one result at most, and none while its submission is pending; success means written. */
  ghost predicate ChannelsOk(s: Store) {
    && s.issued.Keys == s.results.Keys
    && (forall d | d in s.results :: d < s.next && |s.results[d]| == if d in Waiters(s.pending) then 0 else 1)
    && (forall k | k in s.pending ::
          s.pending[k].done in s.issued && s.issued[s.pending[k].done] == (k, s.pending[k].challenge))
    && (forall d | d in s.issued && s.results[d] == [true] ::
          s.issued[d].0 in s.db && s.db[s.issued[d].0] == s.issued[d].1)
  }

  /** Everyone written is a member; so is everyone whose write failed. */
  ghost predicate Consistent(s: Store) {
    && BatchOk(s) && ChannelsOk(s)
    && s.members >= |s.db| && (!s.failed ==> s.members == |s.db|)
  }

  /** A batch that waits has a timer that will flush it. */
  ghost predicate FlushScheduled(s: Store) {
    s.batch != [] ==> s.pendingFlush.Some? && s.pendingFlush.value in s.armed
  }

  ghost predicate Inv(s: Store) {
    Consistent(s) && FlushScheduled(s)
  }

  ghost predicate WithinCapacity(s: Store) {
    s.members + |s.pending| <= s.maxMembers
  }

  /** No entry of a is changed or lost in b. */
  ghost predicate Extends(a: map<Key, Challenge>, b: map<Key, Challenge>) {
    forall k | k in a :: k in b && b[k] == a[k]
  }

  lemma {:induction false} BatchSize(batch: seq<(Key, Challenge)>)
    requires Distinct(batch)
    ensures |Keys(batch)| == |batch|
  {
    if batch != [] {
      BatchSize(batch[..|batch| - 1]);
    }
  }

  lemma {:induction false} WrittenHas(db: map<Key, Challenge>, batch: seq<(Key, Challenge)>)
    requires Distinct(batch)
    ensures Written(db, batch).Keys == db.Keys + Keys(batch)
    ensures forall b | b in batch :: b.0 in Keys(batch) && Written(db, batch)[b.0] == b.1
    ensures forall k | k in db && k !in Keys(batch) :: Written(db, batch)[k] == db[k]
  {
    if batch != [] {
      var rest, last := batch[..|batch| - 1], batch[|batch| - 1];
      WrittenHas(db, rest);
      assert forall b | b in batch :: b in rest || b == last;
    }
  }

  lemma FlushedDatabase(s: Store)
    requires BatchOk(s)
    ensures var w := Written(s.db, s.batch);
            && Extends(s.db, w) && |w| == |s.db| + |s.pending|
            && (forall b | b in s.batch :: b.0 in w && w[b.0] == b.1)
            && (forall k | k in s.pending :: k in w && w[k] == s.pending[k].challenge)
  {
    WrittenHas(s.db, s.batch);
    var w := Written(s.db, s.batch);
    assert |w.Keys| == |s.db.Keys| + |s.pending.Keys|;
    forall k | k in s.pending
      ensures k in w && w[k] == s.pending[k].challenge
    {
      KeyIsInBatch(s.batch, k);
    }
  }

  lemma {:induction false} KeyIsInBatch(batch: seq<(Key, Challenge)>, k: Key)
    requires k in Keys(batch)
    ensures exists b :: b in batch && b.0 == k
  {
    var rest, last := batch[..|batch| - 1], batch[|batch| - 1];
    assert last in batch;
    if last.0 != k {
      KeyIsInBatch(rest, k);
      var b :| b in rest && b.0 == k;
      assert b in batch;
    }
  }

  lemma NobodyWaits(s: Store)
    requires BatchOk(s) && s.batch == []
    ensures s.pending == map[] && Waiters(s.pending) == {}
  {
    assert s.pending.Keys == {};
  }

  lemma WaiterIsPending(s: Store, d: nat) returns (k: Key)
    requires ChannelsOk(s) && d in Waiters(s.pending)
    ensures k in s.pending && s.issued[d] == (k, s.pending[k].challenge)
  {
    k :| k in s.pending && s.pending[k].done == d;
  }

  /** The channel of a flushed submission has the outcome of the write; any other is as it was. */
  lemma FlushedChannel(s: Store, writeOk: bool, d: nat)
    requires ChannelsOk(s) && s.batch != [] && d in s.results
    ensures var f := Flush(s, writeOk);
            && d in f.results
            && f.results[d] == if d in Waiters(s.pending) then [s.open && writeOk] else s.results[d]
  {
    hide Written, Waiters;
    assert |s.results[d]| == if d in Waiters(s.pending) then 0 else 1;
  }

  lemma FlushedSuccess(s: Store, writeOk: bool, d: nat)
    requires BatchOk(s) && ChannelsOk(s) && s.batch != [] && d in s.results && Flush(s, writeOk).results[d] == [true]
    ensures var f := Flush(s, writeOk); s.issued[d].0 in f.db && f.db[s.issued[d].0] == s.issued[d].1
  {
    hide Written, Keys, Distinct, Notified;
    FlushedDatabase(s);
    FlushedChannel(s, writeOk, d);
    if d in Waiters(s.pending) {
      var k := WaiterIsPending(s, d);
    }
  }

  lemma FlushKeepsChannels(s: Store, writeOk: bool)
    requires s.batch != []
    ensures var f := Flush(s, writeOk);
            f.issued == s.issued && f.next == s.next && f.results.Keys == s.results.Keys && f.pending == map[]
  {
    hide Written, Waiters;
  }

  lemma FlushedChannels(s: Store, writeOk: bool)
    requires BatchOk(s) && ChannelsOk(s) && s.batch != []
    ensures ChannelsOk(Flush(s, writeOk))
  {
    hide Flush, BatchOk;
    var f := Flush(s, writeOk);
    FlushKeepsChannels(s, writeOk);
    assert Waiters(f.pending) == {};
    forall d | d in f.results
      ensures |f.results[d]| == 1
      ensures f.results[d] == [true] ==> f.issued[d].0 in f.db && f.db[f.issued[d].0] == f.issued[d].1
    {
      FlushedChannel(s, writeOk, d);
      if f.results[d] == [true] {
        FlushedSuccess(s, writeOk, d);
      }
    }
  }

  lemma EmptyBatchIsOk(s: Store)
    requires s.batch == [] && s.pending == map[]
    ensures BatchOk(s)
  {
  }

  lemma FlushedCounts(s: Store, writeOk: bool)
    requires Consistent(s) && s.batch != []
    ensures var f := Flush(s, writeOk);
            && Extends(s.db, f.db) && f.members >= |f.db| && (!f.failed ==> f.members == |f.db|)
            && f.members + |f.pending| == s.members + |s.pending| && f.maxMembers == s.maxMembers
  {
    hide Written, BatchOk, ChannelsOk, Notified, Waiters;
    FlushedDatabase(s);
  }

  lemma EverybodyHasResult(s: Store)
    requires ChannelsOk(s) && s.pending == map[]
    ensures forall d | d in s.results :: |s.results[d]| == 1
  {
    assert Waiters(s.pending) == {};
  }

  lemma FlushLeavesNothing(s: Store, writeOk: bool)
    requires BatchOk(s)
    ensures var f := Flush(s, writeOk);
            f.pending == map[] && f.batch == [] && f.results.Keys == s.results.Keys
  {
    hide Written, Waiters;
    if s.batch == [] {
      NobodyWaits(s);
    }
  }

  lemma FlushOfNothing(s: Store, writeOk: bool)
    requires Consistent(s) && s.batch == []
    ensures Consistent(Flush(s, writeOk)) && Flush(s, writeOk) == s.(pendingFlush := None)
  {
    hide BatchOk, ChannelsOk;
    ConsistencyIgnoresTimers(s, s.(pendingFlush := None));
  }

  /** A flush keeps the invariant and all entries, leaves nothing pending, and gives everyone who waited a result. */
  lemma FlushKeeps(s: Store, writeOk: bool)
    requires Consistent(s)
    ensures Inv(Flush(s, writeOk)) && Extends(s.db, Flush(s, writeOk).db)
    ensures WithinCapacity(s) ==> WithinCapacity(Flush(s, writeOk))
    ensures Flush(s, writeOk).pending == map[] && Flush(s, writeOk).batch == []
    ensures forall d | d in s.results :: d in Flush(s, writeOk).results && |Flush(s, writeOk).results[d]| == 1
  {
    hide Flush, BatchOk, ChannelsOk;
    FlushLeavesNothing(s, writeOk);
    if s.batch == [] {
      FlushOfNothing(s, writeOk);
    } else {
      FlushedCounts(s, writeOk);
      FlushedChannels(s, writeOk);
      EmptyBatchIsOk(Flush(s, writeOk));
    }
    EverybodyHasResult(Flush(s, writeOk));
  }

  lemma ExtendBatch(batch: seq<(Key, Challenge)>, key: Key, challenge: Challenge)
    requires Distinct(batch) && key !in Keys(batch)
    ensures var longer := batch + [(key, challenge)];
            && Distinct(longer) && Keys(longer) == Keys(batch) + {key}
            && |Keys(longer)| == |longer| && |Keys(batch)| == |batch|
  {
    var longer := batch + [(key, challenge)];
    assert longer[..|longer| - 1] == batch;
    BatchSize(batch);
  }

  lemma AddToBoth(batch: seq<(Key, Challenge)>, pending: map<Key, Pending>, key: Key, p: Pending)
    requires SameSubmissions(batch, pending) && key !in pending
    ensures SameSubmissions(batch + [(key, p.challenge)], pending[key := p])
    ensures |batch| == |pending| && |pending[key := p]| == |batch| + 1
  {
    hide Distinct, Keys;
    ExtendBatch(batch, key, p.challenge);
    assert pending[key := p].Keys == pending.Keys + {key};
    assert |pending.Keys| == |batch| && |pending[key := p].Keys| == |batch| + 1;
  }

  lemma AddToBatch(s: Store, key: Key, challenge: Challenge)
    requires BatchOk(s) && key !in s.pending && key !in s.db
    ensures var a := Add(s, key, challenge); BatchOk(a) && |a.batch| == |a.pending| == |s.pending| + 1
  {
    hide SameSubmissions;
    AddToBoth(s.batch, s.pending, key, Pending(s.next, challenge));
  }

  lemma AddChannel(s: Store, key: Key, challenge: Challenge)
    requires ChannelsOk(s) && key !in s.pending
    ensures ChannelsOk(Add(s, key, challenge))
  {
    var a := Add(s, key, challenge);
    forall d
      ensures d in Waiters(a.pending) <==> d in Waiters(s.pending) || d == s.next
    {
      assert a.pending[key].done == s.next;
      if d in Waiters(s.pending) {
        var k := WaiterIsPending(s, d);
        var k' :| k' in s.pending && s.pending[k'].done == d;
        assert k' in a.pending && a.pending[k'].done == d;
      }
    }
    assert s.next !in Waiters(s.pending);
  }

  lemma AfterAddKeeps(s: Store, key: Key, challenge: Challenge, writeOk: bool)
    requires Inv(s) && key !in s.pending && key !in s.db
    ensures var f := AfterAdd(Add(s, key, challenge), writeOk);
            && Inv(f) && Extends(s.db, f.db)
            && (s.members + |s.pending| < s.maxMembers ==> WithinCapacity(f))
  {
    hide Flush, BatchOk, ChannelsOk;
    var a := Add(s, key, challenge);
    AddToBatch(s, key, challenge);
    AddChannel(s, key, challenge);
    assert Consistent(a);
    if |a.batch| >= a.maxBatchSize {
      FlushKeeps(a, writeOk);
    } else if |a.batch| == 1 {
      TimerIsIgnored(a, AfterAdd(a, writeOk));
    } else {
      SomethingWaits(s);
    }
  }

  lemma SomethingWaits(s: Store)
    requires BatchOk(s)
    ensures |s.batch| == |s.pending|
  {
    BatchSize(s.batch);
    assert |s.pending.Keys| == |s.pending|;
  }

  lemma TimerIsIgnored(s: Store, u: Store)
    requires Consistent(s) && u == s.(pendingFlush := u.pendingFlush, armed := u.armed, next := s.next + 1)
    ensures Consistent(u)
  {
  }

  // ---------------------------------------------------------------------------------------------
  // Runs of a round.

  datatype Operation = Submission(key: Key, challenge: Challenge, getOk: bool, writeOk: bool)
                     | ForcedFlush(writeOk: bool)
                     | TimerFires(timer: nat, writeOk: bool)
                     | Closing(writeOk: bool)

  function Apply(s: Store, op: Operation): Store {
    match op
    case Submission(key, challenge, getOk, writeOk) => Submit(s, key, challenge, getOk, writeOk).0
    case ForcedFlush(writeOk) => Flush(s, writeOk)
    case TimerFires(timer, writeOk) => Fire(s, timer, writeOk)
    case Closing(writeOk) => Close(s, writeOk)
  }

  /** The batch that a flush writes, or tries to. */
  function FlushedBatch(s: Store, writeOk: bool): Option<(seq<(Key, Challenge)>, bool)> {
    if s.batch == [] then None else Some((s.batch, s.open && writeOk))
  }

  /** The batch that an operation writes, if it flushes one, and whether that succeeds. */
  function FlushedBy(s: Store, op: Operation): Option<(seq<(Key, Challenge)>, bool)> {
    match op
    case Submission(key, challenge, getOk, writeOk) =>
      if Submit(s, key, challenge, getOk, writeOk).1.Accepted? && |s.batch| + 1 >= s.maxBatchSize
      then FlushedBatch(Add(s, key, challenge), writeOk)
      else None
    case ForcedFlush(writeOk) => FlushedBatch(s, writeOk)
    case TimerFires(_, writeOk) => if s.pendingFlush.Some? then FlushedBatch(s, writeOk) else None
    case Closing(writeOk) => FlushedBatch(s, writeOk)
  }

  predicate Has(db: map<Key, Challenge>, k: Key, v: Challenge) {
    k in db && db[k] == v
  }

  /** How the batch that is flushed, if any, takes a store from s to t. */
  ghost predicate FlushExplains(s: Store, flushed: Option<(seq<(Key, Challenge)>, bool)>, t: Store) {
    match flushed
    case None =>
      && t.db == s.db
      && forall k | k in s.pending :: k in t.pending && t.pending[k].challenge == s.pending[k].challenge
    case Some((batch, ok)) =>
      && (forall k, v :: Has(t.db, k, v) <==> Has(s.db, k, v) || (ok && (k, v) in batch))
      && forall k | k in s.pending :: (k, s.pending[k].challenge) in batch
  }

  lemma FlushWrites(s: Store, writeOk: bool)
    requires BatchOk(s)
    ensures FlushExplains(s, FlushedBatch(s, writeOk), Flush(s, writeOk))
  {
    hide Notified, Waiters, Written, BatchOk;
    if s.batch == [] {
      NobodyWaits(s);
    } else {
      BatchIsWritten(s);
      PendingIsInBatch(s);
    }
  }

  lemma PendingIsInBatch(s: Store)
    requires BatchOk(s)
    ensures forall k | k in s.pending :: (k, s.pending[k].challenge) in s.batch
  {
    forall k | k in s.pending
      ensures (k, s.pending[k].challenge) in s.batch
    {
      KeyIsInBatch(s.batch, k);
    }
  }

  lemma BatchIsWritten(s: Store)
    requires BatchOk(s)
    ensures forall k, v :: Has(Written(s.db, s.batch), k, v) <==> Has(s.db, k, v) || (k, v) in s.batch
  {
    WrittenHas(s.db, s.batch);
    forall k, v
      ensures Has(Written(s.db, s.batch), k, v) <==> Has(s.db, k, v) || (k, v) in s.batch
    {
      if k in Keys(s.batch) {
        KeyIsInBatch(s.batch, k);
      }
    }
  }

  /** What an operation does to the database is the effect of the batch it flushes. */
  lemma FlushesExplain(s: Store, op: Operation)
    requires BatchOk(s)
    ensures FlushExplains(s, FlushedBy(s, op), Apply(s, op))
  {
    hide Flush, FlushedBatch, BatchOk, AfterAdd;
    match op {
      case Submission(key, challenge, getOk, writeOk) =>
        if Submit(s, key, challenge, getOk, writeOk).1.Accepted? {
          AdditionExplained(s, key, challenge, writeOk);
        }
      case ForcedFlush(writeOk) =>
        FlushWrites(s, writeOk);
      case TimerFires(timer, writeOk) =>
        var u := s.(armed := s.armed - {timer});
        TimersDoNotMatter(s, u, writeOk);
        FlushWrites(u, writeOk);
      case Closing(writeOk) =>
        FlushWrites(s, writeOk);
    }
  }

  lemma AdditionExplained(s: Store, key: Key, challenge: Challenge, writeOk: bool)
    requires BatchOk(s) && key !in s.pending && key !in s.db
    ensures var a := Add(s, key, challenge);
            var flushed := if |a.batch| >= s.maxBatchSize then FlushedBatch(a, writeOk) else None;
            FlushExplains(s, flushed, AfterAdd(a, writeOk))
  {
    hide Flush, FlushedBatch, BatchOk;
    var a := Add(s, key, challenge);
    AddToBatch(s, key, challenge);
    FlushWrites(a, writeOk);
    AddedIsPending(s, key, challenge);
  }

  lemma TimersDoNotMatter(s: Store, u: Store, writeOk: bool)
    requires BatchOk(s) && u == s.(armed := u.armed)
    ensures BatchOk(u) && FlushedBatch(u, writeOk) == FlushedBatch(s, writeOk)
  {
  }

  lemma AddedIsPending(s: Store, key: Key, challenge: Challenge)
    requires key !in s.pending
    ensures var a := Add(s, key, challenge);
            a.db == s.db && forall k | k in s.pending :: k in a.pending && a.pending[k] == s.pending[k]
  {
  }

  function Run(s: Store, ops: seq<Operation>): Store
    decreases |ops|
  {
    if ops == [] then s else Run(Apply(s, ops[0]), ops[1..])
  }

  /** A result, once given, stays. */
  ghost predicate KeepsResults(s: Store, t: Store) {
    forall d | d in s.results && d in s.issued ::
      d in t.results && d in t.issued && t.issued[d] == s.issued[d] && s.results[d] <= t.results[d]
  }

  lemma ApplyKeeps(s: Store, op: Operation)
    requires Inv(s)
    ensures Inv(Apply(s, op)) && Extends(s.db, Apply(s, op).db)
    ensures WithinCapacity(s) ==> WithinCapacity(Apply(s, op))
    ensures Apply(s, op).maxMembers == s.maxMembers
  {
    hide BatchOk, ChannelsOk, Extends, Flush;
    match op {
      case Submission(key, challenge, getOk, writeOk) =>
        ExtendsItself(s.db);
        if Submit(s, key, challenge, getOk, writeOk).1.Accepted? {
          AfterAddKeeps(s, key, challenge, writeOk);
          AddAndFlushKeepMaximum(s, key, challenge, writeOk);
        }
      case ForcedFlush(writeOk) =>
        FlushKeeps(s, writeOk);
        FlushKeepsMaximum(s, writeOk);
      case TimerFires(timer, writeOk) =>
        var u := s.(armed := s.armed - {timer});
        ExtendsItself(s.db);
        ConsistencyIgnoresTimers(s, u);
        if s.pendingFlush.Some? {
          FlushKeeps(u, writeOk);
          FlushKeepsMaximum(u, writeOk);
        }
      case Closing(writeOk) =>
        FlushKeeps(s, writeOk);
        FlushKeepsMaximum(s, writeOk);
        ConsistencyIgnoresTimers(Flush(s, writeOk), Close(s, writeOk));
    }
  }

  lemma ExtendsItself(db: map<Key, Challenge>)
    ensures Extends(db, db)
  {
  }

  lemma FlushKeepsMaximum(s: Store, writeOk: bool)
    ensures Flush(s, writeOk).maxMembers == s.maxMembers
  {
  }

  lemma AddAndFlushKeepMaximum(s: Store, key: Key, challenge: Challenge, writeOk: bool)
    ensures AfterAdd(Add(s, key, challenge), writeOk).maxMembers == s.maxMembers
  {
  }

  lemma ConsistencyIgnoresTimers(s: Store, u: Store)
    requires Consistent(s) && u == s.(open := u.open, pendingFlush := u.pendingFlush, armed := u.armed)
    ensures Consistent(u)
  {
  }

  lemma FlushKeepsResults(s: Store, writeOk: bool)
    ensures KeepsResults(s, Flush(s, writeOk))
  {
    hide Written;
  }

  lemma AddKeepsResults(s: Store, key: Key, challenge: Challenge, writeOk: bool)
    requires ChannelsOk(s)
    ensures KeepsResults(s, AfterAdd(Add(s, key, challenge), writeOk))
  {
    hide Flush;
    var a := Add(s, key, challenge);
    assert KeepsResults(s, a);
    FlushKeepsResults(a, writeOk);
  }

  lemma ApplyKeepsResults(s: Store, op: Operation)
    requires ChannelsOk(s)
    ensures KeepsResults(s, Apply(s, op))
  {
    hide Flush, AfterAdd, Add, ChannelsOk;
    FlushKeepsResults(s, op.writeOk);
    match op {
      case Submission(key, challenge, getOk, writeOk) =>
        AddKeepsResults(s, key, challenge, writeOk);
      case TimerFires(timer, writeOk) =>
        FlushKeepsResults(s.(armed := s.armed - {timer}), writeOk);
      case _ =>
    }
  }

  /** Whatever is submitted, flushed, or fired late: the invariant holds, no entry changes, the capacity is respected,
      and no result is taken back. */
  lemma {:induction false} RunKeeps(s: Store, ops: seq<Operation>)
    requires Inv(s)
    ensures Inv(Run(s, ops)) && Extends(s.db, Run(s, ops).db) && KeepsResults(s, Run(s, ops))
    ensures WithinCapacity(s) ==> WithinCapacity(Run(s, ops))
    decreases |ops|
  {
    hide Consistent, FlushScheduled, Apply;
    if ops != [] {
      var t := Apply(s, ops[0]);
      ApplyKeeps(s, ops[0]);
      ChannelsAreOk(s);
      ApplyKeepsResults(s, ops[0]);
      RunKeeps(t, ops[1..]);
    }
  }

  lemma ChannelsAreOk(s: Store)
    requires Inv(s)
    ensures ChannelsOk(s)
  {
  }

  lemma NewStoreIsOk(db: map<Key, Challenge>, maxMembers: int, maxBatchSize: int)
    ensures Inv(NewStore(db, maxMembers, maxBatchSize))
    ensures |db| <= maxMembers ==> WithinCapacity(NewStore(db, maxMembers, maxBatchSize))
  {
    var s := NewStore(db, maxMembers, maxBatchSize);
    EmptyBatchIsOk(s);
    assert Waiters(s.pending) == {};
  }

  /** Whoever waits for a flush is told success exactly if the submission is written. */
  lemma FlushTellsTheTruth(s: Store, writeOk: bool, k: Key)
    requires Consistent(s) && k in s.pending
    ensures var f, d := Flush(s, writeOk), s.pending[k].done;
            && d in f.results && f.results[d] == [s.open && writeOk]
            && (f.results[d] == [true] <==> Has(f.db, k, s.pending[k].challenge))
  {
    hide Distinct, Keys, Notified, Written;
    if s.batch == [] {
      NobodyWaits(s);
    }
    assert s.pending[k].done in Waiters(s.pending);
    FlushedChannel(s, writeOk, s.pending[k].done);
    FlushedDatabase(s);
  }

  lemma AdditionCounts(s: Store, key: Key, challenge: Challenge, writeOk: bool)
    requires Inv(s) && key !in s.pending && key !in s.db
    ensures var t := AfterAdd(Add(s, key, challenge), writeOk);
            t.members + |t.pending| == s.members + |s.pending| + 1 && |t.issued| == |s.issued| + 1
  {
    hide BatchOk, Flush, Waiters;
    var a := Add(s, key, challenge);
    AddToBatch(s, key, challenge);
    assert s.next !in s.issued.Keys;
    OneMoreIssued(s.issued, s.next, (key, challenge));
    hide ChannelsOk;
    FlushCounts(a, writeOk);
  }

  lemma OneMoreIssued(issued: map<nat, (Key, Challenge)>, d: nat, x: (Key, Challenge))
    requires d !in issued
    ensures |issued[d := x]| == |issued| + 1
  {
    assert issued[d := x].Keys == issued.Keys + {d};
    assert |issued[d := x]| == |issued[d := x].Keys| && |issued| == |issued.Keys|;
  }

  lemma FlushCounts(s: Store, writeOk: bool)
    requires BatchOk(s)
    ensures var f := Flush(s, writeOk);
            f.members + |f.pending| == s.members + |s.pending| && f.issued == s.issued
  {
    hide Written, Notified, Waiters, BatchOk;
    if s.batch == [] {
      NobodyWaits(s);
    }
  }

  lemma ApplyCounts(s: Store, op: Operation)
    requires Inv(s)
    ensures var t := Apply(s, op); t.members + |t.pending| - |t.issued| == s.members + |s.pending| - |s.issued|
  {
    hide Flush, AfterAdd, Add, ChannelsOk, BatchOk;
    match op {
      case Submission(key, challenge, getOk, writeOk) =>
        if Submit(s, key, challenge, getOk, writeOk).1.Accepted? {
          AdditionCounts(s, key, challenge, writeOk);
        }
      case TimerFires(timer, writeOk) =>
        var u := s.(armed := s.armed - {timer});
        TimersDoNotMatter(s, u, writeOk);
        FlushCounts(u, writeOk);
      case ForcedFlush(writeOk) =>
        FlushCounts(s, writeOk);
      case Closing(writeOk) =>
        FlushCounts(s, writeOk);
    }
  }

  /** Whatever is accepted counts from then on, whether or not it is written: members and pending submissions together
      are the entries at the start and all submissions accepted since. */
  lemma {:induction false} AcceptedCounts(s: Store, ops: seq<Operation>)
    requires Inv(s)
    ensures var t := Run(s, ops); t.members + |t.pending| - |t.issued| == s.members + |s.pending| - |s.issued|
    decreases |ops|
  {
    hide Inv, Apply;
    if ops != [] {
      ApplyKeeps(s, ops[0]);
      ApplyCounts(s, ops[0]);
      AcceptedCounts(Apply(s, ops[0]), ops[1..]);
    }
  }

  lemma {:induction false} BatchIsFlushedWhenFull(s: Store, ops: seq<Operation>)
    requires |s.batch| < s.maxBatchSize
    ensures Run(s, ops).maxBatchSize == s.maxBatchSize && |Run(s, ops).batch| < s.maxBatchSize
    decreases |ops|
  {
    if ops != [] {
      hide Written, Notified, Waiters;
      var t := Apply(s, ops[0]);
      assert t.maxBatchSize == s.maxBatchSize && |t.batch| < t.maxBatchSize;
      BatchIsFlushedWhenFull(t, ops[1..]);
    }
  }

  /** Once closed, which flushes what is pending, a round accepts nothing, and its database never changes. */
  lemma ClosedRoundIsFrozen(s: Store, writeOk: bool, ops: seq<Operation>)
    ensures var closed := Close(s, writeOk);
            var t := Run(closed, ops);
            && closed.db == Flush(s, writeOk).db && t.db == closed.db && t.issued == closed.issued
            && forall key, challenge, getOk, writeOk :: !Submit(t, key, challenge, getOk, writeOk).1.Accepted?
  {
    hide Flush;
    ClosedStoreIsFrozen(Close(s, writeOk), ops);
  }

  lemma {:induction false} ClosedStoreIsFrozen(s: Store, ops: seq<Operation>)
    requires !s.open
    ensures !Run(s, ops).open && Run(s, ops).db == s.db && Run(s, ops).issued == s.issued
    decreases |ops|
  {
    if ops != [] {
      ClosedStays(s, ops[0]);
      hide Apply;
      ClosedStoreIsFrozen(Apply(s, ops[0]), ops[1..]);
    }
  }

  lemma ClosedStays(s: Store, op: Operation)
    requires !s.open
    ensures !Apply(s, op).open && Apply(s, op).db == s.db && Apply(s, op).issued == s.issued
  {
    hide Written, Notified, Waiters, AfterAdd, Add;
  }

  /** Over every run of a round: the entries and the pending submissions stay within capacity; everyone written is
      counted, and without failed writes nobody else is; everyone accepted counts for good. */
  lemma RoundStaysWithinCapacity(db: map<Key, Challenge>, maxMembers: int, maxBatchSize: int, ops: seq<Operation>)
    requires |db| <= maxMembers
    ensures var t := Run(NewStore(db, maxMembers, maxBatchSize), ops);
            && |t.db| + |t.pending| <= t.members + |t.pending| <= t.maxMembers
            && (!t.failed ==> t.members == |t.db|)
            && t.members + |t.pending| == |db| + |t.issued|
            && Extends(db, t.db) && BatchOk(t)
  {
    NewStoreIsOk(db, maxMembers, maxBatchSize);
    RunKeeps(NewStore(db, maxMembers, maxBatchSize), ops);
    AcceptedCounts(NewStore(db, maxMembers, maxBatchSize), ops);
  }

  /** Who was told that a submission is written finds it in every later state; and nobody is told twice. */
  lemma WaiterGuarantee(db: map<Key, Challenge>, maxMembers: int, maxBatchSize: int,
                        before: seq<Operation>, after: seq<Operation>, d: nat)
    requires var s := Run(NewStore(db, maxMembers, maxBatchSize), before); d in s.results && d in s.issued
    ensures var s := Run(NewStore(db, maxMembers, maxBatchSize), before);
            var t := Run(s, after);
            && d in t.results && |t.results[d]| <= 1 && s.results[d] <= t.results[d]
            && (s.results[d] == [true] ==> s.issued[d].0 in t.db && t.db[s.issued[d].0] == s.issued[d].1)
  {
    var s0 := NewStore(db, maxMembers, maxBatchSize);
    NewStoreIsOk(db, maxMembers, maxBatchSize);
    RunKeeps(s0, before);
    RunKeeps(Run(s0, before), after);
  }

  /** Everyone who waits has a timer that will deliver. */
  lemma ScheduledTimerDelivers(s: Store, writeOk: bool)
    requires Inv(s) && s.pending != map[]
    ensures s.pendingFlush.Some? && s.pendingFlush.value in s.armed
    ensures var f := Fire(s, s.pendingFlush.value, writeOk);
            forall k | k in s.pending :: s.pending[k].done in f.results && |f.results[s.pending[k].done]| == 1
  {
    if s.batch == [] {
      NobodyWaits(s);
    }
    var u := s.(armed := s.armed - {s.pendingFlush.value});
    ConsistencyIgnoresTimers(s, u);
    FlushKeeps(u, writeOk);
  }
}
