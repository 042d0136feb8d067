/**
 * Two client runs of the table, each with the outcome of every call fixed by
 * the contracts of HashTables alone.
 */
module Scenarios {
  import opened TableModel
  import opened HashTables

  /** Keys 1, 5 and 9 share bucket 1 of four. */
  lemma SharedBucketHash()
    ensures Hash(1, 4) == 1 && Hash(5, 4) == 1 && Hash(9, 4) == 1
  {
  }

  /** The first two insertions go to the tail of bucket 1, in order. */
  lemma InsertOneAndFiveStates()
    ensures Empty(4) == [[], [], [], []]
    ensures !Contains([[], [], [], []], 1) && Insert([[], [], [], []], 1) == [[], [1], [], []]
    ensures !Contains([[], [1], [], []], 5) && Insert([[], [1], [], []], 5) == [[], [1, 5], [], []]
  {
    SharedBucketHash();
    assert [] + [1] == [1] && [1] + [5] == [1, 5];
    assert [[], [], [], []][1 := [1]] == [[], [1], [], []];
    assert 5 !in [1];
    assert [[], [1], [], []][1 := [1, 5]] == [[], [1, 5], [], []];
  }

  /** Both keys are then present. */
  lemma OneAndFivePresent()
    ensures Contains([[], [1, 5], [], []], 1) && Contains([[], [1, 5], [], []], 5)
  {
    SharedBucketHash();
    assert [1, 5][0] == 1 && [1, 5][1] == 5;
  }

  /** Deleting 1 leaves 5 alone in bucket 1; 9 was never there. */
  lemma DeleteOneStates()
    ensures Delete([[], [1, 5], [], []], 1) == [[], [5], [], []]
    ensures !Contains([[], [5], [], []], 1) && Contains([[], [5], [], []], 5)
    ensures !Contains([[], [5], [], []], 9)
  {
    SharedBucketHash();
    assert [1, 5][0] == 1;
    assert IndexOf([1, 5], 1) == 0;
    assert Drop([1, 5], 0) == [5];
    assert [[], [1, 5], [], []][1 := [5]] == [[], [5], [], []];
  }

  /**
   * Four buckets; keys 1, 5 and 9 all hash to bucket 1. The outcomes, in call
   * order: insert 1, insert 5, insert 1 again, lookup 5, delete 1, lookup 1,
   * lookup 5, delete 9 (true meaning success or found).
   */
  method SharedBucket() returns (outcomes: seq<bool>)
    ensures outcomes == [true, true, false, true, true, false, true, false]
  {
    InsertOneAndFiveStates();
    var t := new HashTable.Create(4);
    var a, b := InsertOneAndFive(t);
    var c, d := InsertOneAgain(t);
    var e, f, g, h := DeleteOne(t);
    outcomes := [a, b, c, d, e, f, g, h];
  }

  /** Inserting 1 and then 5 into the empty four-bucket table: both succeed. */
  method InsertOneAndFive(t: HashTable) returns (a: bool, b: bool)
    requires t.Valid() && t.Contents == [[], [], [], []]
    modifies t.Repr
    ensures t.Valid() && fresh(t.Repr - old(t.Repr)) && t.Contents == [[], [1, 5], [], []]
    ensures a && b
  {
    InsertOneAndFiveStates();
    var n1 := t.Insert(1);
    var n5 := t.Insert(5);
    a, b := n1 != null, n5 != null;
  }

  /** Inserting 1 again fails and changes nothing; 5 is found. */
  method InsertOneAgain(t: HashTable) returns (c: bool, d: bool)
    requires t.Valid() && t.Contents == [[], [1, 5], [], []]
    modifies t.Repr
    ensures t.Valid() && fresh(t.Repr - old(t.Repr)) && t.Contents == [[], [1, 5], [], []]
    ensures !c && d
  {
    OneAndFivePresent();
    var n1 := t.Insert(1);
    var n5 := t.Lookup(5);
    c, d := n1 != null, n5 != null;
  }

  /** Deleting 1 succeeds; then 1 is not found, 5 still is, and deleting 9 fails. */
  method DeleteOne(t: HashTable) returns (e: bool, f: bool, g: bool, h: bool)
    requires t.Valid() && t.Contents == [[], [1, 5], [], []]
    modifies t.Repr
    ensures e && !f && g && !h
  {
    OneAndFivePresent();
    DeleteOneStates();
    var r1 := t.Delete(1);
    var n1 := t.Lookup(1);
    var n5 := t.Lookup(5);
    var r9 := t.Delete(9);
    e, f, g, h := r1 == 0, n1 != null, n5 != null, r9 == 0;
  }

  /**
   * A node handed out by insertion outlives the deletion of another key of its
   * bucket: after inserting 1 and 5 and deleting 1, the node returned for 5
   * is still in bucket 1 and still holds 5.
   */
  method HandleSurvivesDelete() returns (k: int)
    ensures k == 5
  {
    InsertOneAndFiveStates();
    var t := new HashTable.Create(4);
    var n5 := InsertOneAndFiveHandle(t);
    k := DeleteOneReadHandle(t, n5);
  }

  /** Inserting 1 and then 5 into the empty four-bucket table; the node for 5 is third in chain 1. */
  method InsertOneAndFiveHandle(t: HashTable) returns (n5: Node?)
    requires t.Valid() && t.Contents == [[], [], [], []]
    modifies t.Repr
    ensures t.Valid() && fresh(t.Repr - old(t.Repr)) && t.Contents == [[], [1, 5], [], []]
    ensures |t.Chains[1]| == 3 && t.Chains[1][2] == n5
  {
    InsertOneAndFiveStates();
    var n1 := t.Insert(1);
    n5 := t.Insert(5);
  }

  /** Deleting 1 moves the node for 5 up one place, and it still holds 5. */
  method DeleteOneReadHandle(t: HashTable, n5: Node?) returns (k: int)
    requires t.Valid() && t.Contents == [[], [1, 5], [], []]
    requires |t.Chains[1]| == 3 && t.Chains[1][2] == n5
    modifies t.Repr
    ensures k == 5
  {
    OneAndFivePresent();
    assert IndexOf([1, 5], 1) == 0;
    var r := t.Delete(1);
    assert t.Chains[1][1] == n5;
    k := n5.key;
  }

  /** The abstract values the single-bucket run passes through. */
  lemma SingleBucketStates()
    ensures Empty(1) == [[]]
    ensures Insert([[]], 3) == [[3]]
    ensures Insert([[3]], 1) == [[3, 1]]
    ensures Insert([[3, 1]], 2) == [[3, 1, 2]]
  {
    assert Hash(3, 1) == 0 && Hash(1, 1) == 0 && Hash(2, 1) == 0;
    assert 1 !in [3] && 2 !in [3, 1];
    assert [] + [3] == [3] && [3] + [1] == [3, 1] && [3, 1] + [2] == [3, 1, 2];
  }

  /** One bucket takes every key, and the listing shows them in insertion order. */
  method SingleBucket() returns (listing: seq<seq<int>>)
    ensures listing == [[3, 1, 2]]
  {
    SingleBucketStates();
    var t := new HashTable.Create(1);
    var a := t.Insert(3);
    var b := t.Insert(1);
    var c := t.Insert(2);
    listing := t.Dump();
  }
}
