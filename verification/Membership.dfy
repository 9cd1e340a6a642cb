/** The members of a round, in the order the database iterates over them, and their Merkle root. */
module Membership {
  import opened MerkleTree
  import opened Labels
  import opened IncrementalTree
  import opened RoundStore

  /** The bytewise order of keys. */
  predicate LexLe(a: Key, b: Key) {
    a == [] || (b != [] && (a[0] < b[0] || (a[0] == b[0] && LexLe(a[1..], b[1..]))))
  }

  /** a comes before b in a dictionary of byte strings. */
  ghost predicate BytewiseBefore(a: Key, b: Key) {
    a < b || exists i: nat :: i < |a| && i < |b| && a[..i] == b[..i] && a[i] < b[i]
  }

  lemma {:induction false} LexMeans(a: Key, b: Key)
    ensures LexLe(a, b) <==> a == b || BytewiseBefore(a, b)
  {
    if a != [] && b != [] {
      if a[0] == b[0] {
        LexMeans(a[1..], b[1..]);
        BeforeAfterEqualByte(a, b);
      } else if a[0] < b[0] {
        assert a[..0] == b[..0];
      } else {
        forall i: nat | i < |a| && i < |b| && a[i] < b[i]
          ensures a[..i] != b[..i]
        {
          assert i > 0;
          assert a[..i][0] != b[..i][0];
        }
      }
    }
  }

  lemma BeforeAfterEqualByte(a: Key, b: Key)
    requires a != [] && b != [] && a[0] == b[0]
    ensures BytewiseBefore(a, b) <==> BytewiseBefore(a[1..], b[1..])
    ensures a == b <==> a[1..] == b[1..]
  {
    var s, t := a[1..], b[1..];
    assert a == [a[0]] + s && b == [b[0]] + t;
    if i: nat :| i < |a| && i < |b| && a[..i] == b[..i] && a[i] < b[i] {
      assert i > 0 && s[..i - 1] == a[..i][1..] && t[..i - 1] == b[..i][1..];
      assert s[i - 1] < t[i - 1];
    }
    if i: nat :| i < |s| && i < |t| && s[..i] == t[..i] && s[i] < t[i] {
      assert a[..i + 1] == [a[0]] + s[..i] && b[..i + 1] == [b[0]] + t[..i];
      assert a[i + 1] < b[i + 1];
    }
    if s < t {
      assert a < b;
    }
  }

  lemma {:induction false} LexTotal(a: Key, b: Key)
    ensures LexLe(a, b) || LexLe(b, a)
  {
    if a != [] && b != [] {
      LexTotal(a[1..], b[1..]);
    }
  }

  lemma {:induction false} LexAntisymmetric(a: Key, b: Key)
    requires LexLe(a, b) && LexLe(b, a)
    ensures a == b
  {
    if a != [] && b != [] {
      LexAntisymmetric(a[1..], b[1..]);
      assert a == [a[0]] + a[1..] && b == [b[0]] + b[1..];
    }
  }

  lemma {:induction false} LexTransitive(a: Key, b: Key, c: Key)
    requires LexLe(a, b) && LexLe(b, c)
    ensures LexLe(a, c)
  {
    if a != [] && a[0] == b[0] == c[0] {
      LexTransitive(a[1..], b[1..], c[1..]);
    }
  }

  ghost predicate IsFirst(k: Key, ks: set<Key>) {
    k in ks && forall j | j in ks :: LexLe(k, j)
  }

  method FindFirst(ks: set<Key>) returns (k: Key)
    requires ks != {}
    ensures IsFirst(k, ks)
  {
    k :| k in ks;
    LexTotal(k, k);
    var todo := ks - {k};
    while todo != {}
      invariant todo <= ks && k in ks && k !in todo
      invariant forall j | j in ks && j !in todo :: LexLe(k, j)
      decreases |todo|
    {
      var j :| j in todo;
      LexTotal(j, k);
      LexTotal(j, j);
      if LexLe(j, k) {
        forall i | i in ks && i !in todo
          ensures LexLe(j, i)
        {
          LexTransitive(j, k, i);
        }
        k := j;
      }
      todo := todo - {j};
    }
  }

  lemma {:induction false} FirstExists(ks: set<Key>)
    requires ks != {}
    ensures exists k :: IsFirst(k, ks)
    decreases ks
  {
    var k :| k in ks;
    LexTotal(k, k);
    if ks == {k} {
      assert IsFirst(k, ks);
    } else {
      FirstExists(ks - {k});
      var j :| IsFirst(j, ks - {k});
      LexTotal(j, k);
      if LexLe(j, k) {
        assert IsFirst(j, ks);
      } else {
        forall i | i in ks
          ensures LexLe(k, i)
        {
          if i != k {
            LexTransitive(k, j, i);
          }
        }
        assert IsFirst(k, ks);
      }
    }
  }

  ghost function First(ks: set<Key>): (k: Key)
    requires ks != {}
    ensures IsFirst(k, ks)
  {
    FirstExists(ks);
    var k :| IsFirst(k, ks);
    k
  }

  /** The entries in key order, as the iterator of the database visits them. */
  ghost function InKeyOrder(db: map<Key, Challenge>): seq<(Key, Challenge)>
    decreases |db|
  {
    if db == map[] then []
    else
      var k := First(db.Keys);
      assert (db - {k}).Keys == db.Keys - {k};
      [(k, db[k])] + InKeyOrder(db - {k})
  }

  /** Every entry is visited, and nothing else. */
  lemma {:induction false} IterationIsComplete(db: map<Key, Challenge>, k: Key, v: Challenge)
    ensures (k, v) in InKeyOrder(db) <==> k in db && db[k] == v
    decreases |db|
  {
    if db != map[] {
      var f := First(db.Keys);
      assert (db - {f}).Keys == db.Keys - {f};
      IterationIsComplete(db - {f}, k, v);
    }
  }

  /** Keys are visited in ascending order: an earlier key is a prefix of a later one, or smaller in the first byte in
      which they differ. */
  lemma IterationIsOrdered(db: map<Key, Challenge>, i: nat, j: nat)
    requires i < j < |InKeyOrder(db)|
    ensures BytewiseBefore(InKeyOrder(db)[i].0, InKeyOrder(db)[j].0)
  {
    IterationAscends(db, i, j);
    LexMeans(InKeyOrder(db)[i].0, InKeyOrder(db)[j].0);
  }

  lemma {:induction false} IterationAscends(db: map<Key, Challenge>, i: nat, j: nat)
    requires i < j < |InKeyOrder(db)|
    ensures LexLe(InKeyOrder(db)[i].0, InKeyOrder(db)[j].0) && InKeyOrder(db)[i].0 != InKeyOrder(db)[j].0
    decreases |db|
  {
    var f := First(db.Keys);
    var rest := InKeyOrder(db - {f});
    assert (db - {f}).Keys == db.Keys - {f};
    if i == 0 {
      var e := rest[j - 1];
      assert e in rest;
      IterationIsComplete(db - {f}, e.0, e.1);
    } else {
      IterationAscends(db - {f}, i - 1, j - 1);
    }
  }

  function Values(entries: seq<(Key, Challenge)>): (r: seq<Challenge>)
    ensures |r| == |entries|
  {
    if entries == [] then [] else [entries[0].1] + Values(entries[1..])
  }

  ghost function Members(db: map<Key, Challenge>): seq<Challenge> {
    Values(InKeyOrder(db))
  }

  /** The root over the members; there is none for a round without members. */
  ghost function MembershipRoot(m: Hasher<Bytes>, members: seq<Challenge>): Option<Bytes> {
    if members == [] then None else Some(Root(m, members))
  }

  lemma MembersNext(db: map<Key, Challenge>, k: Key)
    requires db != map[] && k == First(db.Keys)
    ensures Members(db) == [db[k]] + Members(db - {k}) && |db - {k}| < |db|
  {
    assert (db - {k}).Keys == db.Keys - {k};
    var rest := InKeyOrder(db - {k});
    assert ([(k, db[k])] + rest)[1..] == rest;
  }

  /** The iteration that collects the members. */
  method CollectMembers(db: map<Key, Challenge>) returns (members: seq<Challenge>)
    ensures members == Members(db)
  {
    members := [];
    var rest := db;
    while rest != map[]
      invariant members + Members(rest) == Members(db)
      decreases |rest|
    {
      var k := FindFirst(rest.Keys);
      LexAntisymmetric(k, First(rest.Keys));
      MembersNext(rest, k);
      members := members + [rest[k]];
      rest := rest - {k};
    }
  }

  /** The iteration that builds the membership tree. */
  method ComputeRoot(m: Hasher<Bytes>, db: map<Key, Challenge>) returns (root: Option<Bytes>)
    ensures root == MembershipRoot(m, Members(db))
  {
    hide Parked, Layer, Root;
    var tree := new Tree(m);
    var rest := db;
    while rest != map[]
      invariant fresh(tree) && tree.Valid() && tree.m == m
      invariant tree.leaves + Members(rest) == Members(db)
      decreases |rest|
    {
      var k := FindFirst(rest.Keys);
      LexAntisymmetric(k, First(rest.Keys));
      MembersNext(rest, k);
      tree.AddLeaf(rest[k]);
      rest := rest - {k};
    }
    assert Members(rest) == [];
    assert tree.leaves == Members(db);
    root := tree.GetRoot();
  }
}
