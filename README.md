# Chained hash table of non-negative keys

This project models `server/src/hashtable.cc`. The file implements a fixed-capacity hash table of non-negative `int` keys that behaves as a set:

- The table has `size` buckets, fixed at creation.
- Each bucket is a singly linked chain that starts with a sentinel node holding key `-1`.
- A key goes to bucket `key % size`.
- Insertion walks the chain. It fails on a duplicate and otherwise appends a new node at the tail.
- Lookup walks the chain and returns the matching node.
- Deletion walks the chain while keeping the predecessor, then unlinks the matching node.
- Teardown walks every chain from its sentinel to its end. The diagnostic dump walks every chain from the node after the sentinel.

The model has three modules:

- `TableModel` (`table_model.dfy`) is the abstract value of a table. It holds one sequence of keys per bucket, head to tail, without the sentinel. It defines the operations on that value (`Insert`, `Delete`, `Contains`, `Empty`) and the invariant `Inv`, which says keys sit in the bucket their hash names and no bucket holds a key twice. The lemmas prove what the operations do to the set of keys, to the key count and to later lookups.
- `HashTables` (`hash_table.dfy`) is the imperative table. It has a `Node` class with mutable `key` and `next` fields and a `HashTable` class.
  - The class keeps a constant array of sentinel heads and the ghost fields `Contents` (the abstract value), `Chains` (the nodes of each chain, sentinel first) and `Repr`.
  - `Valid()` ties the linked nodes to `Contents`: node `k` of chain `i` carries key `Contents[i][k-1]`, the sentinel carries `-1`, and `next` is the following node or null. It also says that no node sits in two places and that `Inv(Contents)` holds.
  - `Create` fills the array of sentinels in a loop.
  - `Insert` and `Delete` walk a chain with `prev`/`curr` as the C code does and relink `next` in place. Their contracts state the new `Contents` through `TableModel`, and on success also the new `Chains` and `Repr`. So every node not unlinked keeps its identity and its key, and a node handed out earlier stays valid.
  - `Lookup`, `Dump` and `Free` walk with `curr` alone and change nothing.
- `Scenarios` (`scenarios.dfy`) holds three client runs. The outcome of every call in them follows from the contracts alone.

## Model

| member | source | states |
|---|---|---|
| TableModel.Hash | server/src/hashtable.cc:63 | the bucket index `key % size` of a non-negative key lies in `[0, size)` (the same expression is at lines 90 and 109) |
| TableModel.Empty | server/src/hashtable.cc:34-38 | the value of a new table has `size` empty buckets, satisfies the invariant, and holds no keys, so its count is 0 |
| TableModel.Contains | server/src/hashtable.cc:90-102 | the abstract lookup: `key` is in bucket `key % size`; a hit is a key of the table (the converse, under the invariant, is `ContainsIffInKeys`) |
| TableModel.Insert | server/src/hashtable.cc:63-83 | the abstract insertion: the bucket count is kept, `key` is in its bucket afterwards and every other bucket is unchanged (its effect on keys, count, invariant and later lookups is in `InsertKeys`, `InsertCount`, `InsertKeepsInv`, `LookupAfterInsert`, `InsertTwice`) |
| TableModel.Delete | server/src/hashtable.cc:109-136 | the abstract deletion: the bucket count is kept, the bucket of `key` loses one entry exactly when it held `key`, and every other bucket is unchanged (its effect is in `DeleteKeys`, `DeleteCount`, `DeleteKeepsInv`, `LookupAfterDelete`, `DeleteTwice`, `DeleteUndoesInsert`) |
| TableModel.Remove | server/src/hashtable.cc:112-131 | the abstract unlink of the first node holding `key`: the bucket is one shorter (exactly one copy of `key` is gone: `RemoveOne`; the others keep their order: `Drop`) |
| TableModel.IndexOf | server/src/hashtable.cc:112-120 | the chain walk stops at the first position holding `key`; no earlier position holds it |
| TableModel.Drop | server/src/hashtable.cc:130-131 | bypassing one node shortens the chain by one, and the remaining nodes keep their relative order |
| TableModel.RemoveOne | server/src/hashtable.cc:129-134 | unlinking the matching node removes exactly one copy of `key` from the bucket's multiset of keys |
| TableModel.ContainsIffInKeys | server/src/hashtable.cc:90-100 | under the invariant, searching only bucket `key % size` finds `key` exactly when the table holds it anywhere |
| TableModel.InsertKeepsInv | server/src/hashtable.cc:61-83 | insertion preserves hash placement and distinct keys per bucket |
| TableModel.DeleteKeepsInv | server/src/hashtable.cc:107-136 | deletion preserves hash placement and distinct keys per bucket |
| TableModel.InsertKeys | server/src/hashtable.cc:66-83 | the key set after insertion is the old set plus `key` |
| TableModel.DeleteKeys | server/src/hashtable.cc:112-136 | the key set after deletion is the old set minus `key` |
| TableModel.CountUpdate | server/src/hashtable.cc:81 | replacing one bucket changes the total key count by the change in that bucket's length |
| TableModel.InsertCount | server/src/hashtable.cc:68-83 | insertion adds one key to the total, or none when `key` is a duplicate |
| TableModel.DeleteCount | server/src/hashtable.cc:114-136 | deletion removes one key from the total, or none when `key` is absent |
| TableModel.LookupAfterInsert | server/src/hashtable.cc:59-103 | after inserting `key`, a lookup of `key` succeeds, and a lookup of any other key answers as before |
| TableModel.LookupAfterDelete | server/src/hashtable.cc:86-137 | after deleting `key`, a lookup of `key` fails, and a lookup of any other key answers as before |
| TableModel.InsertTwice | server/src/hashtable.cc:68-72 | inserting the same key twice gives the same table as inserting it once |
| TableModel.DeleteTwice | server/src/hashtable.cc:124-127 | deleting the same key twice gives the same table as deleting it once; the second call finds nothing and changes nothing |
| TableModel.DeleteUndoesInsert | server/src/hashtable.cc:79-81 | deleting a key just inserted into a table that lacked it restores the table (it was appended at the tail, and unlinking it puts the tail back) |
| HashTables.Node.Init | server/src/hashtable.cc:9-17 | a new node holds key -1 and has no successor |
| HashTables.DisjointAppend | server/src/hashtable.cc:79-81 | linking a fresh node at a chain's tail leaves every node in exactly one place |
| HashTables.DisjointRemove | server/src/hashtable.cc:130-131 | bypassing a node leaves every remaining node in exactly one place |
| HashTables.FlattenLength | server/src/hashtable.cc:46-54 | walking every chain from its sentinel visits `size` plus the number of keys nodes |
| HashTables.FlattenMembers | server/src/hashtable.cc:46-54 | that walk visits every node of every chain and no other node |
| HashTables.FlattenDistinct | server/src/hashtable.cc:46-54 | when no node sits in two places, that walk visits each node once |
| HashTables.HashTable.Create | server/src/hashtable.cc:19-41 | `size` buckets, each holding only a fresh sentinel with no successor; the abstract value is `Empty(size)` and the table is valid |
| HashTables.HashTable.Dump | server/src/hashtable.cc:139-153 | walking each bucket after its sentinel lists exactly the keys of each bucket in chain order; nothing changes |
| HashTables.HashTable.Free | server/src/hashtable.cc:43-57 | the teardown walk releases every node, sentinels included, each once and in chain order, `size` plus the number of keys in all; it releases nothing outside the table and returns 0 |
| HashTables.HashTable.Insert | server/src/hashtable.cc:59-84 | returns null exactly when `key` is already in bucket `key % size`, and then nothing changes; otherwise returns a fresh node holding `key` with no successor, appended at that bucket's tail (`old + [key]`) and added to `Repr`, with other buckets and all sentinels unchanged |
| HashTables.HashTable.LinkAtTail | server/src/hashtable.cc:77-83 | a new node holding `key` is linked after the last node of the bucket; the table stays valid |
| HashTables.HashTable.Lookup | server/src/hashtable.cc:86-103 | returns a node of bucket `key % size` holding `key` exactly when that bucket holds `key`, and null otherwise; changes nothing |
| HashTables.HashTable.Delete | server/src/hashtable.cc:105-137 | returns -1 and changes nothing when `key` is absent; otherwise returns 0, the bucket loses that one key with the others keeping their order, the chain loses exactly the node after the first match's predecessor, and `Repr` loses exactly that node, so every other node keeps its identity and key; other buckets and all sentinels are unchanged |
| HashTables.HashTable.Unlink | server/src/hashtable.cc:129-131 | `prev.next` takes `curr`'s successor and `curr` is detached; the chain loses exactly that node and the table stays valid |
| Scenarios.SharedBucket | server/src/hashtable.cc:59-137 | on four buckets: insert 1 succeeds, insert 5 succeeds (same bucket), insert 1 again fails, lookup 5 finds, delete 1 succeeds, lookup 1 misses, lookup 5 still finds, delete 9 fails |
| Scenarios.SharedBucketHash | server/src/hashtable.cc:63 | keys 1, 5 and 9 all hash to bucket 1 of four |
| Scenarios.InsertOneAndFiveStates | server/src/hashtable.cc:59-84 | on the empty four-bucket value, 1 and then 5 are absent and are appended to bucket 1 in that order |
| Scenarios.OneAndFivePresent | server/src/hashtable.cc:86-103 | in the value holding 1 and 5 in bucket 1, both keys are found |
| Scenarios.DeleteOneStates | server/src/hashtable.cc:105-137 | deleting 1 from that value leaves 5 alone in bucket 1; afterwards 1 and 9 are absent and 5 is present |
| Scenarios.InsertOneAndFive | server/src/hashtable.cc:59-84 | on the empty four-bucket table, inserting 1 and then 5 both succeed and bucket 1 holds `[1, 5]` |
| Scenarios.InsertOneAgain | server/src/hashtable.cc:59-103 | inserting 1 again fails and leaves the value as it was; lookup 5 finds |
| Scenarios.DeleteOne | server/src/hashtable.cc:86-137 | delete 1 succeeds, lookup 1 misses, lookup 5 finds, delete 9 fails |
| Scenarios.HandleSurvivesDelete | server/src/hashtable.cc:79-83 | after inserting 1 and 5 in one bucket and deleting 1, the node returned for 5 still holds 5 (lines 130-131 touch only the unlinked node and its predecessor) |
| Scenarios.InsertOneAndFiveHandle | server/src/hashtable.cc:59-84 | on the empty four-bucket table, inserting 1 and then 5 puts the node returned for 5 third in chain 1, after the sentinel and the node for 1 |
| Scenarios.DeleteOneReadHandle | server/src/hashtable.cc:129-131 | deleting 1 moves the node for 5 up to second place in chain 1, and it still holds 5 |
| Scenarios.SingleBucketStates | server/src/hashtable.cc:59-84 | on one bucket, inserting 3, 1, 2 into the empty value gives the bucket `[3, 1, 2]` |
| Scenarios.SingleBucket | server/src/hashtable.cc:59-153 | on one bucket every key shares the chain, and the listing after inserting 3, 1, 2 is `[[3, 1, 2]]` (tail append keeps insertion order) |

## Left out

- Memory management is not modelled. Objects in the model are never freed, so a failed `malloc` and `free` (lines 10-11, 22-30, 51, 134) have no counterpart. Deletion is modelled as unlinking, and `curr.next` is set to null as the code does.
- HashTables.HashTable.Create: does not model the null result on allocation failure (lines 23-25, 28-30); creation always succeeds.
- HashTables.HashTable.Free: returns the nodes in the order they would be released instead of releasing them. The code releases only the nodes and never the bucket array or the table, and the model follows the code. After the call the table is still usable in the model, while in the code it is not.
- HashTables.HashTable.Dump: returns the keys of each bucket instead of printing the text `bucket[i]->[k]->...(NULL)` to standard output; the text format is not modelled.
- The `assert` aborts become `requires` clauses: a non-null table (`Valid()`), `key >= 0` and `size > 0`. The `assert(prev != NULL)` checks (lines 77, 122) follow from `Valid()`.
- Key width: keys and `size` are C `int`s and are unbounded in the model. Every key is non-negative and `size` is positive, and the code applies only `%` to them, so no overflow or sign case arises.
- Concurrency: the code has none and the model has none.
