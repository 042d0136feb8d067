/**
 * The abstract value of a chained hash table of non-negative keys: for every
 * bucket, the keys of its chain in chain order (the sentinel is not a key).
 * The operations on this value specify the imperative table in HashTables.
 */
module TableModel {

  /** `t[i]` is the sequence of keys chained in bucket `i`, head to tail. */
  type Buckets = seq<seq<int>>

  /** The hash function: a non-negative key goes to bucket `key % size`. */
  function Hash(key: int, size: int): (i: int)
    requires key >= 0 && size > 0
    ensures 0 <= i < size
  {
    key % size
  }

  /** No element occurs twice in `s`. */
  ghost predicate Distinct<T>(s: seq<T>)
  {
    forall j, k :: 0 <= j < k < |s| ==> s[j] != s[k]
  }

  /** Every key sits in the bucket its hash names. */
  ghost predicate Placed(t: Buckets)
  {
    forall i, j :: 0 <= i < |t| && 0 <= j < |t[i]| ==> t[i][j] >= 0 && t[i][j] % |t| == i
  }

  /** The table invariant: at least one bucket, keys placed by hash, no duplicates in a bucket. */
  ghost predicate Inv(t: Buckets)
  {
    |t| > 0 && Placed(t) && forall i :: 0 <= i < |t| ==> Distinct(t[i])
  }

  /** The set of keys the table holds. */
  ghost function Keys(t: Buckets): set<int>
  {
    set i, j | 0 <= i < |t| && 0 <= j < |t[i]| :: t[i][j]
  }

  /** The total number of keys over all buckets. */
  function Count(t: Buckets): nat
  {
    if t == [] then 0 else Count(t[..|t| - 1]) + |t[|t| - 1]|
  }

  /** A freshly created table: `size` buckets, each holding only its sentinel. */
  function Empty(size: nat): (t: Buckets)
    requires size > 0
    ensures |t| == size && Inv(t)
    ensures Keys(t) == {} && Count(t) == 0
  {
    var t := seq(size, _ => []);
    assert Keys(t) == {};
    CountZero(t);
    t
  }

  lemma {:induction false} CountZero(t: Buckets)
    requires forall i :: 0 <= i < |t| ==> t[i] == []
    ensures Count(t) == 0
  {
    if t != [] {
      CountZero(t[..|t| - 1]);
    }
  }

  /** Is `key` in the bucket it hashes to? */
  predicate Contains(t: Buckets, key: int): (b: bool)
    requires |t| > 0 && key >= 0
    ensures b ==> key in Keys(t)
  {
    key in t[Hash(key, |t|)]
  }

  /** The position of the first occurrence of `key` in `s`. */
  function IndexOf(s: seq<int>, key: int): (j: nat)
    requires key in s
    ensures j < |s| && s[j] == key && key !in s[..j]
  {
    if s[0] == key then 0 else 1 + IndexOf(s[1..], key)
  }

  /** `s` without its element at position `p`; the others keep their order. */
  function Drop<T>(s: seq<T>, p: int): (r: seq<T>)
    requires 0 <= p < |s|
    ensures |r| == |s| - 1
    ensures forall k :: 0 <= k < |r| ==> r[k] == s[if k < p then k else k + 1]
  {
    s[..p] + s[p + 1..]
  }

  /** `s` with its first occurrence of `key` unlinked; the other keys keep their order. */
  function Remove(s: seq<int>, key: int): (r: seq<int>)
    requires key in s
    ensures |r| == |s| - 1
  {
    Drop(s, IndexOf(s, key))
  }

  /** Unlinking takes exactly one copy of `key` out of the bucket. */
  lemma RemoveOne(s: seq<int>, key: int)
    requires key in s
    ensures multiset(Remove(s, key)) == multiset(s) - multiset{key}
  {
    var j := IndexOf(s, key);
    assert s == s[..j] + [key] + s[j + 1..];
    assert Remove(s, key) == s[..j] + s[j + 1..];
  }

  /** Insertion: a duplicate leaves the table as it is, otherwise the key goes to its bucket's tail. */
  function Insert(t: Buckets, key: int): (r: Buckets)
    requires |t| > 0 && key >= 0
    ensures |r| == |t| && key in r[Hash(key, |t|)]
    ensures forall i :: 0 <= i < |t| && i != Hash(key, |t|) ==> r[i] == t[i]
  {
    var i := Hash(key, |t|);
    if key in t[i] then t else t[i := t[i] + [key]]
  }

  /** Deletion: an absent key leaves the table as it is, otherwise its node is unlinked. */
  function Delete(t: Buckets, key: int): (r: Buckets)
    requires |t| > 0 && key >= 0
    ensures |r| == |t| && |r[Hash(key, |t|)]| == |t[Hash(key, |t|)]| - (if key in t[Hash(key, |t|)] then 1 else 0)
    ensures forall i :: 0 <= i < |t| && i != Hash(key, |t|) ==> r[i] == t[i]
  {
    var i := Hash(key, |t|);
    if key in t[i] then t[i := Remove(t[i], key)] else t
  }

  // ---------------------------------------------------------------------------
  // Properties of the abstract operations
  // ---------------------------------------------------------------------------

  /** Under the placement invariant, the bucket lookup answers membership in the whole table. */
  lemma ContainsIffInKeys(t: Buckets, key: int)
    requires Inv(t) && key >= 0
    ensures Contains(t, key) <==> key in Keys(t)
  {
    if key in Keys(t) {
      var i, j :| 0 <= i < |t| && 0 <= j < |t[i]| && t[i][j] == key;
      assert t[i][j] % |t| == i;
    }
    if Contains(t, key) {
      var i := Hash(key, |t|);
      var j :| 0 <= j < |t[i]| && t[i][j] == key;
    }
  }

  /** Insertion keeps the invariant. */
  lemma InsertKeepsInv(t: Buckets, key: int)
    requires Inv(t) && key >= 0
    ensures Inv(Insert(t, key)) && |Insert(t, key)| == |t|
  {
    var i := Hash(key, |t|);
    if key !in t[i] {
      var r := Insert(t, key);
      assert r[i] == t[i] + [key];
      forall j, k | 0 <= j < k < |r[i]| ensures r[i][j] != r[i][k] {
        if k == |t[i]| {
          assert r[i][j] == t[i][j];
        }
      }
    }
  }

  /** Deletion keeps the invariant. */
  lemma DeleteKeepsInv(t: Buckets, key: int)
    requires Inv(t) && key >= 0
    ensures Inv(Delete(t, key)) && |Delete(t, key)| == |t|
  {
    var i := Hash(key, |t|);
    if key in t[i] {
      var s := t[i];
      var m := IndexOf(s, key);
      var r := Delete(t, key);
      assert r[i] == Drop(s, m);
      // distinct positions of the new bucket come from distinct positions of the old one
      forall a, b | 0 <= a < b < |r[i]|
        ensures r[i][a] != r[i][b]
      {
        assert r[i][a] == s[if a < m then a else a + 1];
        assert r[i][b] == s[if b < m then b else b + 1];
      }
      forall a, b | 0 <= a < |r| && 0 <= b < |r[a]|
        ensures r[a][b] >= 0 && r[a][b] % |r| == a
      {
        if a == i {
          assert r[a][b] == s[if b < m then b else b + 1];
        }
      }
    }
  }

  /** Insertion adds exactly `key` to the set of keys. */
  lemma InsertKeys(t: Buckets, key: int)
    requires Inv(t) && key >= 0
    ensures Keys(Insert(t, key)) == Keys(t) + {key}
  {
    var i := Hash(key, |t|);
    var r := Insert(t, key);
    if key in t[i] {
      var j :| 0 <= j < |t[i]| && t[i][j] == key;
      assert key in Keys(t);
    } else {
      assert r[i][|t[i]|] == key;
      forall x | x in Keys(r) ensures x in Keys(t) + {key} {
        var a, b :| 0 <= a < |r| && 0 <= b < |r[a]| && r[a][b] == x;
        if a != i || b < |t[i]| {
          assert t[a][b] == x;
        }
      }
      forall x | x in Keys(t) ensures x in Keys(r) {
        var a, b :| 0 <= a < |t| && 0 <= b < |t[a]| && t[a][b] == x;
        assert r[a][b] == x;
      }
    }
  }

  /** Deletion removes exactly `key` from the set of keys. */
  lemma DeleteKeys(t: Buckets, key: int)
    requires Inv(t) && key >= 0
    ensures Keys(Delete(t, key)) == Keys(t) - {key}
  {
    var i := Hash(key, |t|);
    var r := Delete(t, key);
    if key in t[i] {
      var s := t[i];
      var m := IndexOf(s, key);
      assert r[i] == Drop(s, m);
      forall x | x in Keys(r) ensures x in Keys(t) - {key} {
        var a, b :| 0 <= a < |r| && 0 <= b < |r[a]| && r[a][b] == x;
        if a == i {
          var b' := if b < m then b else b + 1;
          assert s[b'] == x && b' != m;
          assert x != key;
        } else {
          assert t[a][b] == x;
          assert x % |t| == a;
        }
      }
      forall x | x in Keys(t) - {key} ensures x in Keys(r) {
        var a, b :| 0 <= a < |t| && 0 <= b < |t[a]| && t[a][b] == x;
        if a == i {
          assert b != m;
          var b' := if b < m then b else b - 1;
          assert r[a][b'] == x;
        } else {
          assert r[a][b] == x;
        }
      }
    } else {
      assert key !in Keys(t) by { ContainsIffInKeys(t, key); }
    }
  }

  /** Replacing one bucket changes the total by the difference in that bucket's length. */
  lemma {:induction false} CountUpdate(t: Buckets, i: int, s: seq<int>)
    requires 0 <= i < |t|
    ensures Count(t[i := s]) == Count(t) - |t[i]| + |s|
  {
    var n := |t| - 1;
    if i < n {
      CountUpdate(t[..n], i, s);
      assert t[i := s][..n] == t[..n][i := s];
    } else {
      assert t[i := s][..n] == t[..n];
    }
  }

  /** A successful insertion adds one key to the total; a duplicate adds none. */
  lemma InsertCount(t: Buckets, key: int)
    requires |t| > 0 && key >= 0
    ensures Count(Insert(t, key)) == Count(t) + (if Contains(t, key) then 0 else 1)
  {
    var i := Hash(key, |t|);
    if key !in t[i] {
      CountUpdate(t, i, t[i] + [key]);
    }
  }

  /** A successful deletion takes one key from the total; a failed one takes none. */
  lemma DeleteCount(t: Buckets, key: int)
    requires |t| > 0 && key >= 0
    ensures Count(Delete(t, key)) == Count(t) - (if Contains(t, key) then 1 else 0)
  {
    var i := Hash(key, |t|);
    if key in t[i] {
      CountUpdate(t, i, Remove(t[i], key));
    }
  }

  /** Round trip: after inserting `key`, looking it up succeeds, and other keys are as before. */
  lemma LookupAfterInsert(t: Buckets, key: int, other: int)
    requires Inv(t) && key >= 0 && other >= 0
    ensures Contains(Insert(t, key), key)
    ensures other != key ==> (Contains(Insert(t, key), other) <==> Contains(t, other))
  {
    InsertKeys(t, key);
    InsertKeepsInv(t, key);
    ContainsIffInKeys(t, other);
    ContainsIffInKeys(Insert(t, key), other);
    ContainsIffInKeys(Insert(t, key), key);
  }

  /** Round trip: after deleting `key`, looking it up fails, and other keys are as before. */
  lemma LookupAfterDelete(t: Buckets, key: int, other: int)
    requires Inv(t) && key >= 0 && other >= 0
    ensures !Contains(Delete(t, key), key)
    ensures other != key ==> (Contains(Delete(t, key), other) <==> Contains(t, other))
  {
    DeleteKeys(t, key);
    DeleteKeepsInv(t, key);
    ContainsIffInKeys(t, other);
    ContainsIffInKeys(Delete(t, key), other);
    ContainsIffInKeys(Delete(t, key), key);
  }

  /** Inserting a key that is already present changes nothing, so inserting twice is inserting once. */
  lemma InsertTwice(t: Buckets, key: int)
    requires Inv(t) && key >= 0
    ensures Insert(Insert(t, key), key) == Insert(t, key)
  {
    var i := Hash(key, |t|);
    assert key in Insert(t, key)[i] by {
      if key !in t[i] {
        assert Insert(t, key)[i][|t[i]|] == key;
      }
    }
  }

  /** Deleting a key twice is deleting it once: the second call finds nothing and changes nothing. */
  lemma DeleteTwice(t: Buckets, key: int)
    requires Inv(t) && key >= 0
    ensures Delete(Delete(t, key), key) == Delete(t, key)
  {
    LookupAfterDelete(t, key, key);
    DeleteKeepsInv(t, key);
  }

  /** Deleting a key just inserted into a table that lacked it restores the table. */
  lemma DeleteUndoesInsert(t: Buckets, key: int)
    requires Inv(t) && key >= 0 && !Contains(t, key)
    ensures Delete(Insert(t, key), key) == t
  {
    var i := Hash(key, |t|);
    var s := t[i] + [key];
    assert s[|t[i]|] == key;
    assert forall m :: 0 <= m < |t[i]| ==> s[m] == t[i][m] != key;
    assert IndexOf(s, key) == |t[i]|;
    assert s[..|t[i]|] == t[i] && s[|t[i]| + 1..] == [];
    assert Remove(s, key) == t[i];
    assert Insert(t, key) == t[i := s];
  }
}
