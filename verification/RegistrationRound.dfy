/** The round object of the registration service. */
module RegistrationRound {
  import opened MerkleTree
  import opened Labels
  import opened RoundStore
  import opened Membership

  class Round {
    const maxMembers: int
    const maxBatchSize: int
    var open: bool
    var db: map<Key, Challenge>
    var members: int
    var batch: seq<(Key, Challenge)>
    var pendingSubmits: map<Key, Pending>
    var pendingFlush: Option<nat>
    // the timers started and the channels made, with what was sent on them
    var armed: set<nat>
    var results: map<nat, seq<bool>>
    var issued: map<nat, (Key, Challenge)>
    var next: nat
    var failed: bool

    ghost function View(): Store
      reads this
    {
      Store(open, db, maxMembers, members, maxBatchSize, batch, pendingSubmits, pendingFlush, armed, results, issued,
            next, failed)
    }

    ghost predicate Valid()
      reads this
    {
      RoundStore.Inv(View())
    }

    /** Opens the database of a round and counts its entries. */
    constructor (db: map<Key, Challenge>, maxMembers: int, maxBatchSize: int)
      ensures Valid() && View() == NewStore(db, maxMembers, maxBatchSize)
    {
      this.db, open := db, true;
      this.maxMembers, this.maxBatchSize := maxMembers, maxBatchSize;
      members, batch, pendingSubmits, pendingFlush := 0, [], map[], None;
      armed, results, issued, next, failed := {}, map[], map[], 0, false;
      new;
      var keys := db.Keys;
      while keys != {}
        invariant members == |db| - |keys| && View() == NewStore(db, maxMembers, maxBatchSize).(members := members)
        decreases |keys|
      {
        var k :| k in keys;
        keys := keys - {k};
        members := members + 1;
      }
      NewStoreIsOk(db, maxMembers, maxBatchSize);
    }

    /** Sends a result to everyone waiting; every channel has room for it. */
    method NotifyAll(ok: bool)
      requires forall d | d in Waiters(pendingSubmits) :: d in results && results[d] == []
      modifies this`results
      ensures results == Notified(old(results), Waiters(pendingSubmits), ok)
    {
      var todo := Waiters(pendingSubmits);
      ghost var before := results;
      while todo != {}
        invariant todo <= Waiters(pendingSubmits) && results.Keys == before.Keys
        invariant forall d | d in results ::
                    results[d] == if d in Waiters(pendingSubmits) && d !in todo then before[d] + [ok] else before[d]
        decreases |todo|
      {
        var d :| d in todo;
        assert results[d] == [];
        results := results[d := [ok]];
        todo := todo - {d};
      }
    }

    method FlushPendingSubmitsLocked(writeOk: bool)
      requires ChannelsOk(View())
      modifies this
      ensures View() == Flush(old(View()), writeOk)
    {
      hide Written, ChannelsOk, Waiters, Notified;
      pendingFlush := None;
      if batch == [] {
        return;
      }
      RoomForAll(old(View()));
      var ok := open && writeOk;
      if ok {
        db := Written(db, batch);
      }
      NotifyAll(ok);
      members := members + |pendingSubmits|;
      pendingSubmits, batch, failed := map[], [], failed || !ok;
    }

    method FlushPendingSubmits(writeOk: bool)
      requires Valid()
      modifies this
      ensures Valid() && View() == Flush(old(View()), writeOk)
    {
      FlushKeeps(View(), writeOk);
      FlushPendingSubmitsLocked(writeOk);
    }

    /** Called when a timer fires, be it one that was stopped too late. */
    method TimedFlushPendingSubmits(timer: nat, writeOk: bool)
      requires Valid()
      modifies this
      ensures Valid() && View() == Fire(old(View()), timer, writeOk)
    {
      hide Flush, BatchOk, Extends, WithinCapacity, Waiters;
      ApplyKeeps(View(), TimerFires(timer, writeOk));
      armed := armed - {timer};
      if pendingFlush.Some? {
        FlushPendingSubmitsLocked(writeOk);
      }
    }

    /** Adds a submission to the batch, with a channel to wait on. */
    method Enqueue(key: Key, challenge: Challenge)
      modifies this
      ensures View() == Add(old(View()), key, challenge)
    {
      batch := batch + [(key, challenge)];
      pendingSubmits := pendingSubmits[key := Pending(next, challenge)];
      results, issued, next := results[next := []], issued[next := (key, challenge)], next + 1;
    }

    method FlushOrSchedule(writeOk: bool)
      requires ChannelsOk(View())
      modifies this
      ensures View() == AfterAdd(old(View()), writeOk)
    {
      hide Flush, ChannelsOk;
      if |batch| >= maxBatchSize {
        FlushPendingSubmitsLocked(writeOk);
      } else if |batch| == 1 {
        pendingFlush, armed, next := Some(next), armed + {next}, next + 1;
      }
    }

    /** getOk and writeOk tell whether the database answers and writes. */
    method Submit(key: Key, challenge: Challenge, getOk: bool, writeOk: bool) returns (r: Submitted)
      requires Valid()
      modifies this
      ensures Valid() && (View(), r) == RoundStore.Submit(old(View()), key, challenge, getOk, writeOk)
    {
      hide Inv, Extends, WithinCapacity, AfterAdd;
      ghost var s := View();
      ApplyKeeps(s, Submission(key, challenge, getOk, writeOk));
      if members + |pendingSubmits| >= maxMembers {
        return MaxMembersReached;
      }
      if key in pendingSubmits {
        return if challenge == pendingSubmits[key].challenge then AlreadySubmitted else Conflicting;
      }
      if !open || !getOk {
        return DatabaseError;
      }
      if key in db {
        return if challenge == db[key] then AlreadySubmitted else Conflicting;
      }
      r := Accepted(next);
      Enqueue(key, challenge);
      ChannelsAreOk(s);
      AddChannel(s, key, challenge);
      FlushOrSchedule(writeOk);
    }

    /** Flushes and closes the database; a second call changes nothing. */
    method Close(writeOk: bool)
      requires Valid()
      modifies this
      ensures Valid() && View() == RoundStore.Close(old(View()), writeOk)
    {
      hide Flush, ChannelsOk, BatchOk;
      ApplyKeeps(View(), Closing(writeOk));
      FlushPendingSubmitsLocked(writeOk);
      open := false;
    }

    /** The root is computed over everything that was pending, too. */
    method CalcMembershipRoot(m: Hasher<Bytes>, writeOk: bool) returns (root: Option<Bytes>)
      requires Valid()
      modifies this
      ensures Valid() && View() == Flush(old(View()), writeOk)
      ensures root == MembershipRoot(m, Members(db))
    {
      FlushPendingSubmits(writeOk);
      root := ComputeRoot(m, db);
    }
  }

  lemma RoomForAll(s: Store)
    requires ChannelsOk(s)
    ensures forall d | d in Waiters(s.pending) :: d in s.results && s.results[d] == []
  {
    forall d | d in Waiters(s.pending)
      ensures d in s.results && s.results[d] == []
    {
      var k := WaiterIsPending(s, d);
      var k' :| k' in s.pending && s.pending[k'].done == d;
    }
  }
}
