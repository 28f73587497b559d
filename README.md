# Three small data structures, modelled and proved in Dafny

This project models three C# programs from the repository:

- **LR_4: an integer B-tree.** Nodes have a fixed capacity: `order - 1` key slots and `order` child slots.
  - `Insert` splits top-down and pre-emptively. A full root is split under a new root. A full child is split before the insertion descends into it.
  - `InsertNonFull` shifts keys in place inside a leaf.
  - `SplitChild` moves the upper half of a full child into a new sibling and promotes a median.
  - `Traverse` prints the keys in order.
- **KR: a file-backed dictionary.** It has 100 buckets of `Key`/`Value` entries chosen by the key's hash code.
  - `Insert` appends an entry without checking for duplicates.
  - `Search` and `Delete` act on the first matching entry.
  - The table is saved as `Key|Value` lines. It is loaded by splitting each line on `|`, the separator.
- **LR_3: an integer hash table.** It has 10 buckets and holds 7 values in `[47000, 89000]`.
  - The values are typed in and validated, or drawn at random.
  - Each value is appended to bucket `value % 10`.
  - A final search asks whether a value is in its bucket.

Files:

- `basics.dfy` (module `Basics`): `Option` and 32-bit integers.
- `btree_spec.dfy` (module `BTreeSpec`): the B-tree as values.
  - `SplitChild`, `InsertNonFull`, `Insert` and `Traverse` are functions on a `Node` datatype.
  - The lemmas prove what an insertion keeps:
    - no node exceeds `order - 1` keys;
    - all leaves are at one depth;
    - the traversal stays sorted;
    - the inserted key is present;
    - for an even order, the new traversal is exactly the old one with the key inserted at its sorted position.
  - It also proves that for an odd order a split drops keys.
- `btree_impl.dfy` (module `BTreeImpl`): the B-tree as the program keeps it.
  - It uses the classes `BTreeNode` and `BTree` over arrays, with the same shifting loops.
  - Every method is proved to change the ghost `Model` of the nodes it touches as a function of `BTreeSpec` says:
    - `BTree.Insert`, `InsertBelowNewRoot` and `Grow` as `Insert`;
    - `BTree.InsertNonFull` as `InsertNonFull`, and `BTree.DescendInto` as `DescendInto`;
    - `ChooseChild` and `SplitFor` as `Descent`;
    - `BTree.SplitChild` and `FinishSplit` as `SplitAt`, and `SplitRoot` as `SplitAt` of `NewRoot`; `BTreeNode.PlaceSplit` puts in the parent's arrays the key and child slots `Promote` adds;
    - `NewSibling` as `Upper` (its constructor `BTreeNode.UpperHalf` copies the slots `Upper` takes), and `BTreeNode.Truncate` as `Lower`;
    - `BTreeNode.InsertIntoLeaf` and `PlaceKey` as `InsertAt` at `Position`, and `BTreeNode.ChildSlot` as `Position`;
    - `Above` as `NewRoot`, `LeafRoot` as the one-key leaf, and `BTree.Traverse` and `TraverseFrom` as `Traverse`.
  - So every property proved of `BTreeSpec` holds of this imperative model too.
- `hash_dictionary.dfy` (module `HashDictionary`): the bucket table as an array that the operations update in place.
  - Pure functions for hashing, the line format and the loader.
  - Lemmas for search after insert, delete after insert, the format-then-parse round trip and save-then-load.
- `int_hash_table.dfy` (module `IntHashTable`): the table-building part of LR_3's `Main`, with loops lifted into methods.
  - A reference definition `Distribute` of the finished table.
  - Lemmas that the buckets hold exactly the values hashed to them, that the bucket sizes add up to 7, and that the search finds exactly the inserted values.

## Model

| member | source | states |
|---|---|---|
| BTreeSpec.Position | LR_4/Program.cs:60-68 | The scan stops one past the rightmost key that is at most `key`. Every key from there on is greater, so an equal key lands after its equals. |
| BTreeSpec.InsertAt | LR_4/Program.cs:64-70 | The leaf after the shift has one more key. The new key is at the gap, the keys before the gap are unchanged and the keys after it have moved one slot right. |
| BTreeSpec.InsertAtMultiset | LR_4/Program.cs:64-70 | The leaf insertion adds exactly `key` to the keys and removes none. |
| BTreeSpec.InsertAtPositionSorted | LR_4/Program.cs:60-70 | Writing the key at the slot the scan finds keeps sorted keys sorted. |
| BTreeSpec.Traverse | LR_4/Program.cs:140-151 | The keys `Traverse` prints: for each key slot, the child before it and then the key, then the last child; an absent (null) child prints nothing. A definition with no contract of its own; what it prints is stated by the lemmas below. |
| BTreeSpec.TraverseLeaf | LR_4/Program.cs:140-151 | A leaf prints its keys in slot order. |
| BTreeSpec.ReplaceChildTraversal | LR_4/Program.cs:140-151 | A node prints the part before child `j`, then child `j`, then the rest. Replacing child `j` changes only the middle part. |
| BTreeSpec.Lower | LR_4/Program.cs:114 | The child left in place keeps its first `m - 1` keys (`m = order/2`) and, unless it is a leaf, its first `m` children, each in its own slot. |
| BTreeSpec.Upper | LR_4/Program.cs:96-112 | The new sibling has the child's leaf flag, holds key `k + m` of the child in slot `k` for `k < m - 1` and, unless it is a leaf, child `k + m` in slot `k` for `k < m`. |
| BTreeSpec.Promote | LR_4/Program.cs:116-131 | The parent gets one key and one child more, with the same leaf flag. The median is in key slot `index`, and the two halves are in child slots `index` and `index + 1`. |
| BTreeSpec.SplitAt | LR_4/Program.cs:96-131 | The split parent has one key and one child more. Key `m - 1` of the child is in key slot `index`, the lower half in child slot `index` and the upper half in child slot `index + 1`. |
| BTreeSpec.SplitChild | LR_4/Program.cs:93-132 | The parent gains exactly one key and one child. The promoted key is `child.Keys[order/2 - 1]`, and the keys before and after `index` are kept in place. The children before `index` keep their slots, and those after it move one slot right. Child and sibling each hold `order/2 - 1` keys, and the sibling is a leaf exactly when the child is. The parent stays well formed at the same height. |
| BTreeSpec.SplitChildTraversal | LR_4/Program.cs:98-114 | A split full child prints its lower half, the promoted key and its upper half, followed by what the split loses. The loss is empty for an even order and non-empty for an odd order. |
| BTreeSpec.SplitSeparates | LR_4/Program.cs:93-132 | In a sorted tree, after a split every key left in the child is at most the promoted key, and every key moved to the sibling is at least the promoted key. |
| BTreeSpec.OddSplitLoses | LR_4/Program.cs:98-114 | For an odd order the split as written prints fewer keys than the parent did. The corrected split prints exactly the same keys. |
| BTreeSpec.SplitChildKeepingAll | LR_4/Program.cs:98-114 | The corrected split gives the sibling `order - 1 - order/2` keys. It keeps the parent well formed with one more key and child, and promotes the same key. |
| BTreeSpec.SplitKeepingAllTraversal | LR_4/Program.cs:98-114 | For every order, the corrected split prints exactly what the parent printed. |
| BTreeSpec.Descent | LR_4/Program.cs:80-87 | The step before descending splits a full child, and may move one slot right. Afterwards the node is still well formed at the same height, and the chosen child has room for a key. |
| BTreeSpec.DescentPick | LR_4/Program.cs:80-87 | When the child is full, the descent step is the split followed by a move into the upper half exactly when the promoted key is less than `key`. |
| BTreeSpec.DescentEven | LR_4/Program.cs:80-87 | For an even order the descent step leaves the traversal unchanged. |
| BTreeSpec.DescentKeys | LR_4/Program.cs:74-87 | After the descent step the node is still sorted, and the keys around the chosen child bound `key`. |
| BTreeSpec.InsertNonFull | LR_4/Program.cs:58-90 | Inserting into a node with room keeps it well formed, at the same height and with the same leaf flag. A leaf gains exactly one key. |
| BTreeSpec.DescendInto | LR_4/Program.cs:88 | Inserting into a child with room and putting it back keeps the node well formed and at the same height. |
| BTreeSpec.InsertNonFullKeys | LR_4/Program.cs:58-90 | `InsertNonFull` keeps a sorted tree sorted and contains `key` afterwards. It adds no key other than `key`. For an even order it adds exactly `key`. |
| BTreeSpec.DescendIntoKeys | LR_4/Program.cs:88 | The recursive descent keeps the same key guarantees as `InsertNonFull`. |
| BTreeSpec.Insert | LR_4/Program.cs:31-55 | The tree is well formed after every insertion, so no node exceeds `order - 1` keys and all leaves are at one depth. An empty tree becomes a leaf printing `[key]`. The height grows by one exactly when the root was full, and then the new root holds a single key. |
| BTreeSpec.InsertFullRoot | LR_4/Program.cs:41-49 | With a full root, `Insert` splits it under a new root and then descends into the chosen half, which has room. |
| BTreeSpec.NewRootWellFormed | LR_4/Program.cs:43-44 | A new root with the old root as its only child is one level higher and prints the same keys. |
| BTreeSpec.GrowKeys | LR_4/Program.cs:41-49 | Inserting below a new root keeps the key guarantees of `InsertNonFull`. |
| BTreeSpec.InsertKeys | LR_4/Program.cs:31-55 | After `Insert` the traversal is sorted, contains `key` and holds no key that was not there before or is not `key`. For an even order the new traversal is the old one with `key` inserted at its sorted position. |
| BTreeSpec.SortedInsertExact | LR_4/Program.cs:60-70 | A sorted sequence with the keys of another sorted sequence plus `key` is that sequence with `key` inserted where the scan puts it. |
| BTreeSpec.OrderFiveRun | LR_4/Program.cs:158-168 | The demonstration run at order 5 inserts 10, 20, 5, 6, 12 and 30. The fifth insertion drops 20, and the tree prints 5 6 10 12 30. |
| BTreeImpl.BTreeNode.constructor | LR_4/Program.cs:10-16 | A new node has `order - 1` key slots and `order` null child slots. It holds no keys, keeps the given leaf flag and stands for the empty node. |
| BTreeImpl.BTreeNode.UpperHalf | LR_4/Program.cs:96-112 | The new sibling holds the full node's keys from slot `m` on and, unless it is a leaf, its children from slot `m` on. |
| BTreeImpl.BTreeNode.Truncate | LR_4/Program.cs:114 | The split child keeps only its lower half, and loses from its footprint what the sibling took. |
| BTreeImpl.BTreeNode.PlaceSplit | LR_4/Program.cs:116-131 | The parent's keys from `index` on and children from `index + 1` on move one slot right. The sibling goes into child slot `index + 1`, the median into key slot `index`, and the key count grows by one. |
| BTreeImpl.BTreeNode.ChildSlot | LR_4/Program.cs:74-78 | The scan in an internal node returns the `Position` of `key` among the node's keys. |
| BTreeImpl.BTreeNode.InsertIntoLeaf | LR_4/Program.cs:60-71 | The leaf's keys become the old keys with `key` inserted at its `Position`, and the node invariant is kept. |
| BTreeImpl.BTree.constructor | LR_4/Program.cs:24-28 | A new tree has the given order and no root. |
| BTreeImpl.BTree.Insert | LR_4/Program.cs:31-55 | The tree's value changes as `BTreeSpec.Insert` says, and the object invariant is kept. |
| BTreeImpl.BTree.InsertBelowNewRoot | LR_4/Program.cs:41-49 | With a full root, the tree's value changes as `BTreeSpec.Insert` says. |
| BTreeImpl.BTree.LeafRoot | LR_4/Program.cs:33-38 | The first root is a fresh leaf holding `key` alone. |
| BTreeImpl.BTree.Grow | LR_4/Program.cs:43-48 | The new root holds what `BTreeSpec.Insert` makes of the full old root. |
| BTreeImpl.BTree.SplitRoot | LR_4/Program.cs:43-45 | The new root holds the old root split at its median, with one key. |
| BTreeImpl.BTree.Above | LR_4/Program.cs:43-44 | The new internal root has no keys, and its only child is the old root. |
| BTreeImpl.BTree.Traverse | LR_4/Program.cs:135-138 | It returns the keys printed for the tree: `BTreeSpec.Traverse` of the root, or nothing for an empty tree. |
| BTreeImpl.BTree.TraverseFrom | LR_4/Program.cs:140-151 | It returns the keys printed for a subtree, and nothing for a null node. |
| BTreeImpl.BTree.SplitChild | LR_4/Program.cs:93-132 | The parent's value becomes the split the functional model describes, and the invariant is kept. |
| BTreeImpl.BTree.NewSibling | LR_4/Program.cs:95-112 | The new node stands for the upper half of the full child. It owns nothing that the child's lower half still owns. |
| BTreeImpl.BTree.InsertNonFull | LR_4/Program.cs:58-90 | The node's value changes as `BTreeSpec.InsertNonFull` says. |
| BTreeImpl.BTree.ChooseChild | LR_4/Program.cs:74-87 | The scan and the split of a full child compute `BTreeSpec.Descent`, and the chosen child has room. |
| BTreeImpl.BTree.SplitFor | LR_4/Program.cs:80-87 | The full child is split, and the index moves right exactly when the promoted key is less than `key`, as in `BTreeSpec.Descent`. |
| BTreeImpl.BTree.DescendInto | LR_4/Program.cs:88 | The recursive insertion into the chosen child changes the node's value as `BTreeSpec.DescendInto` says. |
| BTreeImpl.FinishSplit | LR_4/Program.cs:114-131 | Truncating the child and placing the sibling and median makes the parent's value the split. |
| BTreeImpl.PlaceKey | LR_4/Program.cs:60-69 | The shift loop leaves the old keys with `key` written at its `Position`. |
| BTreeImpl.CopyRange | LR_4/Program.cs:101-111 | The copy loops put `src[from + k]` into slot `k` of the new node's array and change nothing else. |
| BTreeImpl.ShiftRight | LR_4/Program.cs:117-128 | The shift loops move the contents of slots `lo .. hi - 1` one place right into slots `lo + 1 .. hi`, from the last down. Slot `lo` and the slots outside `lo .. hi` keep their values. |
| HashDictionary.Hash | KR/Program.cs:32-35 | The bucket index is in `[0, 100)`. It fails exactly when the hash code is `int.MinValue`, where `Math.Abs` throws. |
| HashDictionary.EmptyBuckets | KR/Program.cs:26-28 | The table starts with 100 empty buckets. |
| HashDictionary.FirstIndex | KR/Program.cs:48 | `FirstOrDefault` finds the first entry with the key, or reports that no entry has it. |
| HashDictionary.FirstOrDefault | KR/Program.cs:48 | The bucket scan returns the first index holding the key, or none. |
| HashDictionary.Answer | KR/Program.cs:48-49 | With no entry for the key the answer is "not found". Otherwise it is the value of the first entry with the key, or "not found" when that value is null. |
| HashDictionary.Removed | KR/Program.cs:55-58 | Deleting removes only the first entry with the key and keeps the others in order. A bucket without the key is unchanged. |
| HashDictionary.Put | KR/Program.cs:37-41 | Inserting fails exactly when hashing fails, and otherwise keeps every entry in the bucket its key hashes to. |
| HashDictionary.SearchAfterInsert | KR/Program.cs:37-50 | After inserting `(k, v)` into a bucket without `k`, a search for `k` answers `v`, or "not found" for a null value. If `k` was already there, the search still answers the older value. |
| HashDictionary.DeleteAfterInsert | KR/Program.cs:37-60 | Deleting `k` right after inserting it into a bucket without `k` restores the bucket. |
| HashDictionary.DeleteUncoversNext | KR/Program.cs:52-60 | Delete removes only the first of two entries with the same key, so the next search finds the later one. |
| HashDictionary.ValueText | KR/Program.cs:86 | A null value prints as the empty string; any other value prints as itself. |
| HashDictionary.FormatLine | KR/Program.cs:86 | A line is the key, one separator and the printed value. It holds exactly one separator more than the key and the printed value together. |
| HashDictionary.SaveLines | KR/Program.cs:80-89 | The line of every entry in every bucket is written, and every line written is the line of some entry. |
| HashDictionary.Split | KR/Program.cs:69 | Splitting on the separator gives one more piece than there are separators. No piece contains the separator, and joining the pieces with it gives back the line. |
| HashDictionary.ParseLine | KR/Program.cs:69-73 | A line is accepted exactly when it holds one separator. The entry it gives then formats back to the same line. |
| HashDictionary.FormatThenParse | KR/Program.cs:67-86 | A saved line parses back to the same key and printed value exactly when neither contains the separator. Otherwise it is dropped. |
| HashDictionary.LoadLines | KR/Program.cs:63-76 | Loading keeps 100 buckets. |
| HashDictionary.SaveThenLoad | KR/Program.cs:63-90 | Loading the saved lines into an empty table rebuilds every bucket in the same order. This holds for entries with no separator in them and a non-null value; the lines are taken as written, so keys and values must also be free of line breaks for the file itself. |
| HashDictionary.HashFileDictionary.constructor | KR/Program.cs:24-28 | The new dictionary has 100 empty buckets and the given hash function. |
| HashDictionary.HashFileDictionary.Insert | KR/Program.cs:37-43 | The entry is appended at the end of bucket `Hash(key)` even when the key is already there, and no other bucket changes. On overflow nothing changes. |
| HashDictionary.HashFileDictionary.Search | KR/Program.cs:45-50 | It returns the value of the first entry with the key in bucket `Hash(key)`, or "not found". It overflows exactly when hashing does. |
| HashDictionary.HashFileDictionary.Delete | KR/Program.cs:52-61 | Only bucket `Hash(key)` changes, and it loses its first entry with the key. A missing key changes nothing. |
| HashDictionary.HashFileDictionary.SaveToFile | KR/Program.cs:78-90 | The lines written are key, separator and value for every entry, bucket by bucket and each bucket in order. |
| HashDictionary.HashFileDictionary.LoadFromFile | KR/Program.cs:63-76 | Without a file nothing changes. With one, every line with exactly two parts is inserted in turn, as `LoadLines` says, and the load fails exactly when an insertion overflows. |
| IntHashTable.HashFunction | LR_3/Program.cs:96-99 | C#'s `key % M`: a value in `[0, M)` for a non-negative key. For a negative key it is in `(-M, 0]`, `M` less than the Euclidean remainder unless that is 0. |
| IntHashTable.Accepted | LR_3/Program.cs:32 | The loop rejects an input that fails to parse, one below 47000 and one above 89000. An accepted value lies within the bounds. |
| IntHashTable.AcceptedValues | LR_3/Program.cs:32-35 | Every value the validation loop accepts lies in `[47000, 89000]`. |
| IntHashTable.ManualValues | LR_3/Program.cs:28-39 | Manual entry inserts exactly 7 values, all within the bounds. |
| IntHashTable.EmptyTable | LR_3/Program.cs:14-18 | The table starts with 10 empty buckets. |
| IntHashTable.DistributeBuckets | LR_3/Program.cs:28-39 | Bucket `i` of the filled table holds exactly the inserted values that hash to `i`, in insertion order. |
| IntHashTable.Distribute | LR_3/Program.cs:28-50 | The table after the insertions has 10 buckets, and every value in bucket `i` was inserted and hashes to `i`. |
| IntHashTable.FoundIffInserted | LR_3/Program.cs:79-80 | A non-negative value is in the bucket it hashes to exactly when it is one of the inserted values. |
| IntHashTable.TotalSize | LR_3/Program.cs:28-50 | The bucket lengths add up to the number of values inserted, so nothing is lost or duplicated. |
| IntHashTable.NewTable | LR_3/Program.cs:14-18 | The loop creates 10 empty buckets. |
| IntHashTable.AddLast | LR_3/Program.cs:37-38 | The value is appended at the end of bucket `HashFunction(value, M)`, and no other bucket changes. |
| IntHashTable.ReadValue | LR_3/Program.cs:32-35 | The validation loop skips every rejected input and stops at the first accepted one, or reports that none is left. |
| IntHashTable.FillManual | LR_3/Program.cs:28-39 | Manual entry finishes exactly when the input holds 7 accepted values, and inserts those. The table is then their distribution. |
| IntHashTable.FillRandom | LR_3/Program.cs:44-50 | Automatic entry inserts the 7 drawn values, and the table is their distribution. |
| IntHashTable.BuildTable | LR_3/Program.cs:23-57 | Choice "1" reads the values and "2" draws them. Any other choice ends before any insertion, with the table empty. A filled table holds 7 values in range, distributed by hash. |
| IntHashTable.Search | LR_3/Program.cs:79-80 | The `List<int>` indexer fails (`ArgumentOutOfRangeException`) exactly when the hash is negative. Otherwise the result is whether the value is in its bucket. |

## Left out

- Console input and output are not modelled:
  - the prompts and the menu loop of KR's `Main`;
  - the printing of LR_3's table and the coloured messages;
  - the `Console.Write` inside `Traverse`, which is modelled as returning the printed keys.
- LR_3's search input loop (LR_3/Program.cs:72-77) is not modelled, because `Search` takes the parsed value directly.
- `int.TryParse` is not modelled. Its results are given as inputs (`None` where parsing fails).
- `string.GetHashCode` is a runtime call. The dictionary takes it as a function parameter, and nothing about it is assumed. Bucket placement is not stable across processes.
- `Random.Next` (LR_3/Program.cs:102-106) is not modelled. Its results are given as inputs in the range it returns.
- Null keys are not modelled: an `Entry` key is a string, never null. In the source, `Console.ReadLine()` returns null at the end of input (KR/Program.cs:107, 114, 119), and `key.GetHashCode()` in `Hash` then throws `NullReferenceException` in `Insert`, `Search` and `Delete`.
- The file `dictionary.dat` is not modelled. Saving yields the lines written and loading takes the lines read.
  - A key or value that contains a line break would be read back as several lines. This is not modelled.
  - `SaveThenLoad` covers only entries without `|` and with a non-null value.
- The rewrite of the file inside `Insert` and `Delete` (KR/Program.cs:42, 59) is not modelled. `SaveToFile` models what such a rewrite writes.
- The `OverflowException` that `Math.Abs` throws is not propagated. An operation whose key has hash code `int.MinValue` returns `Overflow` instead, and its table is unchanged. `LoadFromFile` stops at that line and leaves the table in its partly-loaded state, as the source does; the constructor that throws as a result is not modelled.
- BTreeImpl.BTree.constructor: requires `order >= 2`. For a smaller order the source fails on its first insertion, and that failure is not modelled.
- `IntHashTable.FillManual`: when the input runs out before 7 values are accepted, the source would keep prompting forever. The model returns `InputExhausted` instead.
- LR_3's `Main` is modelled up to building the table and searching it. The printing in between is left out.

## Findings

| source | as written | input that shows it | evidently intended | confidence | as-written member | corrected member |
|---|---|---|---|---|---|---|
| LR_4/Program.cs:98-114 | The split moves `order/2 - 1` keys, from slot `order/2` on, and `order/2` children to the sibling. For an odd order, the full child's last key and last child are copied nowhere. | Order 5 (as in `Main`), inserting 10, 20, 5, 6, 12, 30: 20 is dropped and the traversal prints 5 6 10 12 30 | The sibling takes every key after the promoted one: `order - 1 - order/2` keys and the children after them, so a split prints what the parent printed for every order. | not executed | BTreeSpec.OddSplitLoses, BTreeSpec.OrderFiveRun | BTreeSpec.SplitChildKeepingAll, BTreeSpec.SplitKeepingAllTraversal |

`BTreeSpec.Insert` and the classes of `BTreeImpl` model the split as written, since they describe what the program does. They lose keys for an odd order, as the lemmas above show. For an even order the split as written loses nothing (`BTreeSpec.SplitChildTraversal`, `BTreeSpec.DescentEven`), and `BTreeSpec.InsertKeys` proves that an insertion keeps every key.
