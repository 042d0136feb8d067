/**
 * The chained hash table itself: a fixed array of bucket heads, each the
 * sentinel node of a singly linked chain of key nodes. Every operation walks
 * one chain with `prev`/`curr` and relinks `prev.next` in place; its contract
 * relates the new abstract value (`Contents`) to the old one through TableModel.
 */
module HashTables {
  import opened TableModel

  /** A chain node. A sentinel holds key -1; an entry node holds a non-negative key. */
  class Node {
    var key: int
    var next: Node?

    /** A detached node carrying the sentinel key. */
    constructor Init()
      ensures key == -1 && next == null
    {
      key := -1;
      next := null;
    }
  }

  /** The key the node at position `k` of a chain holding keys `s` carries: -1 for the sentinel. */
  ghost function KeyAt(s: seq<int>, k: int): int
    requires 0 <= k <= |s|
  {
    if k == 0 then -1 else s[k - 1]
  }

  /** The successor of position `k` of chain `c`: the next node, or null after the last. */
  ghost function Succ(c: seq<Node>, k: int): Node?
    requires 0 <= k < |c|
  {
    if k + 1 < |c| then c[k + 1] else null
  }

  /** No node sits at two positions, in one chain or in two. */
  ghost predicate Disjoint(cs: seq<seq<Node>>)
  {
    forall i, j, i', j' ::
      (0 <= i < |cs| && 0 <= j < |cs[i]| && 0 <= i' < |cs| && 0 <= j' < |cs[i']| &&
       cs[i][j] == cs[i'][j']) ==> i == i' && j == j'
  }

  /** Appending a node that is in no chain keeps the chains disjoint. */
  lemma DisjointAppend(cs: seq<seq<Node>>, index: int, n: Node)
    requires Disjoint(cs) && 0 <= index < |cs|
    requires forall i, j :: 0 <= i < |cs| && 0 <= j < |cs[i]| ==> cs[i][j] != n
    ensures Disjoint(cs[index := cs[index] + [n]])
  {
    var cs' := cs[index := cs[index] + [n]];
    forall i, j, i', j' |
      0 <= i < |cs'| && 0 <= j < |cs'[i]| && 0 <= i' < |cs'| && 0 <= j' < |cs'[i']| &&
      cs'[i][j] == cs'[i'][j']
      ensures i == i' && j == j'
    {
      if j < |cs[i]| && j' < |cs[i']| {
        assert cs'[i][j] == cs[i][j] && cs'[i'][j'] == cs[i'][j'];
      }
    }
  }

  /** Dropping the node at position `j + 1` of chain `index` keeps the chains disjoint. */
  lemma DisjointRemove(cs: seq<seq<Node>>, index: int, j: int)
    requires Disjoint(cs) && 0 <= index < |cs| && 0 <= j && j + 1 < |cs[index]|
    ensures Disjoint(cs[index := Drop(cs[index], j + 1)])
  {
    var cs' := cs[index := Drop(cs[index], j + 1)];
    // position `k` of the new chain `i` is position `o` of the old one
    forall i, k, i', k' |
      0 <= i < |cs'| && 0 <= k < |cs'[i]| && 0 <= i' < |cs'| && 0 <= k' < |cs'[i']| &&
      cs'[i][k] == cs'[i'][k']
      ensures i == i' && k == k'
    {
      var o := if i == index && k > j then k + 1 else k;
      var o' := if i' == index && k' > j then k' + 1 else k';
      assert cs'[i][k] == cs[i][o] && cs'[i'][k'] == cs[i'][o'];
    }
  }

  /** The chains laid end to end, bucket 0 first: the order in which a full walk visits the nodes. */
  ghost function Flatten(cs: seq<seq<Node>>): seq<Node>
  {
    if cs == [] then [] else Flatten(cs[..|cs| - 1]) + cs[|cs| - 1]
  }

  /** With one more node per chain than keys per bucket, the walk visits `|cs| + Count(ts)` nodes. */
  lemma {:induction false} FlattenLength(cs: seq<seq<Node>>, ts: Buckets)
    requires |cs| == |ts| && forall i :: 0 <= i < |cs| ==> |cs[i]| == |ts[i]| + 1
    ensures |Flatten(cs)| == |cs| + Count(ts)
  {
    if cs != [] {
      FlattenLength(cs[..|cs| - 1], ts[..|ts| - 1]);
    }
  }

  /** The walk visits exactly the nodes of the chains. */
  lemma {:induction false} FlattenMembers(cs: seq<seq<Node>>)
    ensures forall i, k :: 0 <= i < |cs| && 0 <= k < |cs[i]| ==> cs[i][k] in Flatten(cs)
    ensures forall n :: n in Flatten(cs) ==> exists i, k :: 0 <= i < |cs| && 0 <= k < |cs[i]| && cs[i][k] == n
  {
    if cs != [] {
      var init := cs[..|cs| - 1];
      FlattenMembers(init);
      forall i, k | 0 <= i < |cs| && 0 <= k < |cs[i]| ensures cs[i][k] in Flatten(cs) {
        if i < |init| {
          assert init[i][k] == cs[i][k];
        }
      }
      forall n | n in Flatten(cs)
        ensures exists i, k :: 0 <= i < |cs| && 0 <= k < |cs[i]| && cs[i][k] == n
      {
        if n in Flatten(init) {
          var i, k :| 0 <= i < |init| && 0 <= k < |init[i]| && init[i][k] == n;
          assert cs[i][k] == n;
        } else {
          var k :| 0 <= k < |cs[|cs| - 1]| && cs[|cs| - 1][k] == n;
        }
      }
    }
  }

  /** When no node sits in two places, the walk visits each node once. */
  lemma {:induction false} FlattenDistinct(cs: seq<seq<Node>>)
    requires Disjoint(cs)
    ensures Distinct(Flatten(cs))
  {
    if cs != [] {
      var init, last := cs[..|cs| - 1], cs[|cs| - 1];
      assert Disjoint(init) by {
        forall i, j, i', j' |
          0 <= i < |init| && 0 <= j < |init[i]| && 0 <= i' < |init| && 0 <= j' < |init[i']| &&
          init[i][j] == init[i'][j']
          ensures i == i' && j == j'
        {
          assert init[i][j] == cs[i][j] && init[i'][j'] == cs[i'][j'];
        }
      }
      FlattenDistinct(init);
      FlattenMembers(init);
      var f, m := Flatten(cs), |Flatten(init)|;
      forall p, q | 0 <= p < q < |f| ensures f[p] != f[q] {
        if m <= p {
          assert f[p] == last[p - m] && f[q] == last[q - m];
        } else if m <= q {
          assert f[p] == Flatten(init)[p] && f[q] == last[q - m];
          assert f[p] in Flatten(init);
          var i, k :| 0 <= i < |init| && 0 <= k < |init[i]| && init[i][k] == f[p];
          assert cs[i][k] == f[p];
        } else {
          assert f[p] == Flatten(init)[p] && f[q] == Flatten(init)[q];
        }
      }
    }
  }

  class HashTable {
    /** The number of buckets, fixed at creation. */
    const size: nat
    /** `buckets[i]` is the sentinel at the head of bucket `i`'s chain. */
    const buckets: array<Node?>

    /** The public view: the keys of each bucket in chain order. */
    ghost var Contents: Buckets
    /** `Chains[i]` lists bucket `i`'s nodes in chain order, sentinel first. */
    ghost var Chains: seq<seq<Node>>
    /** Every object the table is made of. */
    ghost var Repr: set<object>

    ghost predicate Valid()
      reads this, buckets, Repr
    {
      && this in Repr
      && size > 0
      && buckets.Length == size && |Chains| == size && |Contents| == size
      && (forall i :: 0 <= i < size ==> |Chains[i]| == |Contents[i]| + 1 && Chains[i][0] == buckets[i])
      && (forall i, k :: 0 <= i < size && 0 <= k < |Chains[i]| ==> Chains[i][k] in Repr)
      && (forall i, k {:trigger Chains[i][k].key} :: 0 <= i < size && 0 <= k < |Chains[i]| ==>
            Chains[i][k].key == KeyAt(Contents[i], k))
      && (forall i, k {:trigger Chains[i][k].next} :: 0 <= i < size && 0 <= k < |Chains[i]| ==>
            Chains[i][k].next == Succ(Chains[i], k))
      && Disjoint(Chains)
      && Inv(Contents)
    }

    /** A table of `size` buckets, each holding only a sentinel with no successor. */
    constructor Create(size: nat)
      requires size > 0
      ensures Valid() && fresh(Repr) && fresh(buckets)
      ensures this.size == size
      ensures Contents == Empty(size)
      ensures forall i :: 0 <= i < size ==> Chains[i] == [buckets[i]]
    {
      var b := new Node?[size](_ => null);
      ghost var ch: seq<seq<Node>> := [];
      ghost var nodes: set<object> := {};
      for i := 0 to size
        invariant |ch| == i
        invariant forall k :: 0 <= k < i ==> |ch[k]| == 1 && ch[k][0] == b[k]
        invariant forall k :: 0 <= k < i ==> ch[k][0] in nodes
        invariant forall o :: o in nodes ==> fresh(o)
        invariant forall k :: 0 <= k < i ==> ch[k][0].key == -1 && ch[k][0].next == null
        invariant forall k, k' :: 0 <= k < k' < i ==> ch[k][0] != ch[k'][0]
      {
        var head := new Node.Init();
        b[i] := head;
        ch := ch + [[head]];
        nodes := nodes + {head};
      }
      this.size := size;
      buckets := b;
      Chains := ch;
      Contents := Empty(size);
      new;
      Repr := nodes + {this};
      // every chain is its sentinel alone
      forall i, k | 0 <= i < size && 0 <= k < |Chains[i]|
        ensures Chains[i][k] in Repr
        ensures Chains[i][k].key == KeyAt(Contents[i], k) && Chains[i][k].next == Succ(Chains[i], k)
      {
        assert k == 0;
      }
    }

    /**
     * The listing of the table: for each bucket in order, the keys its chain
     * holds after the sentinel, head to tail.
     */
    method Dump() returns (listing: seq<seq<int>>)
      requires Valid()
      ensures listing == Contents
    {
      listing := [];
      for i := 0 to size
        invariant listing == Contents[..i]
      {
        ghost var c, s := Chains[i], Contents[i];
        var keys: seq<int> := [];
        var curr := buckets[i].next;
        while curr != null
          invariant |keys| < |c| && curr == Succ(c, |keys|)
          invariant keys == s[..|keys|]
          decreases |c| - |keys|
        {
          keys := keys + [curr.key];
          curr := curr.next;
        }
        assert keys == s;
        listing := listing + [keys];
      }
      assert Contents[..size] == Contents;
    }

    /**
     * The teardown walk: every chain from its sentinel to its end, each node
     * listed as it is released; the result is always 0. Nothing is changed.
     */
    method Free() returns (freed: seq<Node>, status: int)
      requires Valid()
      ensures freed == Flatten(Chains) && status == 0
      ensures |freed| == size + Count(Contents) && Distinct(freed)
      ensures forall i, k :: 0 <= i < size && 0 <= k < |Chains[i]| ==> Chains[i][k] in freed
      ensures forall n :: n in freed ==> n in Repr
    {
      freed := [];
      for i := 0 to size
        invariant freed == Flatten(Chains[..i])
      {
        ghost var c := Chains[i];
        ghost var start := freed;
        ghost var k := 0;
        var curr := buckets[i];
        while curr != null
          invariant 0 <= k <= |c| && curr == (if k < |c| then c[k] else null)
          invariant freed == start + c[..k]
          decreases |c| - k
        {
          var next := curr.next;
          freed := freed + [curr];
          curr := next;
          k := k + 1;
        }
        assert c[..k] == c;
        assert Chains[..i + 1][..i] == Chains[..i];
      }
      assert Chains[..size] == Chains;
      FlattenLength(Chains, Contents);
      FlattenDistinct(Chains);
      FlattenMembers(Chains);
      status := 0;
    }

    /**
     * Insertion. A key already in its bucket fails with null and changes nothing;
     * otherwise a new node holding `key` is linked after the bucket's last node
     * and returned.
     */
    method Insert(key: int) returns (node: Node?)
      requires Valid() && key >= 0
      modifies Repr
      ensures Valid() && fresh(Repr - old(Repr))
      ensures Contents == TableModel.Insert(old(Contents), key)
      ensures node == null <==> Contains(old(Contents), key)
      ensures node == null ==> Repr == old(Repr) && unchanged(Repr)
      ensures node != null ==> fresh(node) && node.key == key && node.next == null
      ensures node != null ==> Chains == old(Chains)[Hash(key, size) := old(Chains)[Hash(key, size)] + [node]]
      ensures node != null ==> Repr == old(Repr) + {node}
      ensures buckets[..] == old(buckets[..])
    {
      var index := key % size;
      ghost var c, s := Chains[index], Contents[index];
      var prev := buckets[index];
      var curr := prev.next;
      ghost var j := 0;
      while curr != null
        invariant 0 <= j < |c|
        invariant prev == c[j] && curr == Succ(c, j)
        invariant key !in s[..j]
        decreases |c| - j
      {
        if curr.key == key {
          assert curr.key == KeyAt(s, j + 1);
          return null;
        }
        prev := curr;
        curr := curr.next;
        j := j + 1;
      }
      assert s[..j] == s;
      node := LinkAtTail(index, prev, key);
    }

    /** Allocates a node holding `key` and links it after `prev`, the last node of bucket `index`. */
    method LinkAtTail(index: int, prev: Node, key: int) returns (node: Node)
      requires Valid() && key >= 0 && index == Hash(key, size)
      requires prev == Chains[index][|Chains[index]| - 1] && key !in Contents[index]
      modifies Repr
      ensures Valid() && Repr == old(Repr) + {node}
      ensures fresh(node) && node.key == key && node.next == null
      ensures Chains == old(Chains)[index := old(Chains)[index] + [node]]
      ensures Contents == TableModel.Insert(old(Contents), key)
      ensures buckets[..] == old(buckets[..])
    {
      ghost var cs, c, s := Chains, Chains[index], Contents[index];
      node := new Node.Init();
      node.key := key;
      prev.next := node;
      DisjointAppend(cs, index, node);
      InsertKeepsInv(Contents, key);
      Chains := Chains[index := c + [node]];
      Contents := Contents[index := s + [key]];
      Repr := Repr + {node};
      // only `prev` (the old tail) and the new node differ from before
      forall i, k | 0 <= i < size && 0 <= k < |Chains[i]|
        ensures Chains[i][k].key == KeyAt(Contents[i], k) && Chains[i][k].next == Succ(Chains[i], k)
      {
        if i != index || k < |c| - 1 {
          assert Chains[i][k] == cs[i][k] != prev;
        }
      }
    }

    /** Lookup: the node holding `key` when its bucket has one, null otherwise. */
    method Lookup(key: int) returns (node: Node?)
      requires Valid() && key >= 0
      ensures node == null <==> !Contains(Contents, key)
      ensures node != null ==> node.key == key && node in Chains[Hash(key, size)]
    {
      var index := key % size;
      ghost var c, s := Chains[index], Contents[index];
      var curr := buckets[index].next;
      ghost var j := 0;
      while curr != null
        invariant 0 <= j < |c|
        invariant curr == Succ(c, j)
        invariant key !in s[..j]
        decreases |c| - j
      {
        if curr.key == key {
          assert curr.key == KeyAt(s, j + 1);
          return curr;
        }
        curr := curr.next;
        j := j + 1;
      }
      assert s[..j] == s;
      return null;
    }

    /**
     * Deletion. An absent key fails with -1 and changes nothing; otherwise the
     * key's node is unlinked from its chain (its predecessor now points to its
     * successor) and the result is 0.
     */
    method Delete(key: int) returns (status: int)
      requires Valid() && key >= 0
      modifies Repr
      ensures Valid() && Repr <= old(Repr)
      ensures Contents == TableModel.Delete(old(Contents), key)
      ensures status == (if Contains(old(Contents), key) then 0 else -1)
      ensures status == -1 ==> Repr == old(Repr) && unchanged(Repr)
      ensures status == 0 ==>
        var h := Hash(key, size);
        var p := IndexOf(old(Contents)[h], key) + 1;
        Chains == old(Chains)[h := Drop(old(Chains)[h], p)] && Repr == old(Repr) - {old(Chains)[h][p]}
      ensures buckets[..] == old(buckets[..])
    {
      var index := key % size;
      ghost var c, s := Chains[index], Contents[index];
      var prev := buckets[index];
      var curr := prev.next;
      ghost var j := 0;
      while curr != null
        invariant 0 <= j < |c|
        invariant prev == c[j] && curr == Succ(c, j)
        invariant key !in s[..j]
        decreases |c| - j
      {
        if curr.key == key {
          break;
        }
        prev := curr;
        curr := curr.next;
        j := j + 1;
      }
      if curr == null {
        assert s[..j] == s;
        return -1;
      }
      assert curr.key == KeyAt(s, j + 1);
      assert IndexOf(s, key) == j;
      Unlink(index, j, prev, curr, key);
      return 0;
    }

    /**
     * Unlinks `curr`, the node after `prev` at position `j` of bucket `index`,
     * whose key is the first occurrence of `key` there: `prev.next` bypasses it
     * and it is detached.
     */
    method Unlink(index: int, ghost j: int, prev: Node, curr: Node, key: int)
      requires Valid() && key >= 0 && index == Hash(key, size)
      requires 0 <= j && j + 1 < |Chains[index]|
      requires prev == Chains[index][j] && curr == Chains[index][j + 1]
      requires Contents[index][j] == key && key !in Contents[index][..j]
      modifies Repr
      ensures Valid() && Repr == old(Repr) - {curr}
      ensures Chains == old(Chains)[index := Drop(old(Chains)[index], j + 1)]
      ensures Contents == TableModel.Delete(old(Contents), key)
      ensures curr.next == null
      ensures buckets[..] == old(buckets[..])
    {
      ghost var cs, c, s := Chains, Chains[index], Contents[index];
      assert IndexOf(s, key) == j;
      DisjointRemove(cs, index, j);
      DeleteKeepsInv(Contents, key);
      prev.next := curr.next;
      curr.next := null;
      Chains := Chains[index := Drop(c, j + 1)];
      Contents := Contents[index := Drop(s, j)];
      Repr := Repr - {curr};
      // the other chains do not contain `prev` or `curr`, so they are as they were
      forall i, k | 0 <= i < size && i != index && 0 <= k < |Chains[i]|
        ensures Chains[i][k] in Repr
        ensures Chains[i][k].key == KeyAt(Contents[i], k) && Chains[i][k].next == Succ(Chains[i], k)
      {
        assert Chains[i][k] == cs[i][k] != prev;
        assert cs[i][k] != curr;
      }
      // in chain `index`, `prev` now leads to `curr`'s successor and later nodes move up one place
      forall k | 0 <= k < |Chains[index]|
        ensures Chains[index][k] in Repr
        ensures Chains[index][k].key == KeyAt(Contents[index], k)
        ensures Chains[index][k].next == Succ(Chains[index], k)
      {
        var o := if k <= j then k else k + 1;
        assert Chains[index][k] == c[o];
        assert c[o].key == old(c[o].key) == KeyAt(s, o) == KeyAt(Contents[index], k);
        assert k != j ==> c[o] != prev && c[o] != curr;
      }
    }
  }
}
