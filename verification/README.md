# Verification of the multi-versioned ART table

This project models the multi-versioned Adaptive Radix Tree table of the repository in Dafny and proves
what it is for: a byte-wise trie with path compression and four in-place node layouts that behaves as a map
from keys to version chains, with version cells that lose no update and a garbage collection whose reach is stated exactly.
It also covers the tuple serializer and the integer formatting of the bundled fmt library.

The files build on each other:

- `Bytes`, `Trie`, `TrieInsert`, `TrieSearch`, `TrieDelete`, `TrieOrder`, `TriePrefix`, `TrieShape`, `TrieMap`:
  the tree as a value, its operations as functions, and the theorems about them. A path may be longer than the
  ten bytes that are stored of it; the invariant `WF` ties stored bytes, hidden bytes and edge bytes to every
  leaf key below.
- `LeafLock`, `TrieTouch`: what the version lock that a leaf split takes writes into the key of the old leaf, and
  insertion with these writes.
- `NodeLayout`, `ArtNode`: the four node layouts against the map from edge bytes to children, first on sequences
  and then as a class whose arrays are rewritten in place, with every growing and shrinking copy.
- `ArtTree`, `ArtIterate`, `ArtRoot`: the tree in memory. Each operation is a method that rewrites nodes in place,
  and its contract equates the value that the nodes stand for afterwards with the function of the value model.
- `VersionChain`, `VersionCell`: the chain of snapshots in sequential use. `ConcurrentCell`, `ConcurrentRuns`: the
  same cell as a transition system with any number of threads, one step per access to shared memory, and the
  theorems about every interleaving. `ConcurrentCalls`: values, guard and answers. `ConcurrentEnds`: where the snapshots
  end. `ConcurrentAlone`: a call that nobody disturbs, and three interleavings that go wrong.
- `CellStore`, `LeafCopy`, `TableSpec`, `TableBooks`, `ArtTable`, `ArtUpdateAll`: tree, cells, leaves and write sets together:
  insertion, update, logical delete, garbage collection and update by predicate. `TableRuns`: whole runs of a table.
- `Codec`, `Serializer`, `TupleStream`: the binary form of nested values, reading and writing it, and tuples.
- `Powers`, `FmtDigits`, `FmtDecimal`, `FmtInt`, `FmtParse`: digit counts, decimal printing and parsing. `FmtLayout`,
  `FmtShown`, `FmtWriter`: the layout of integers, what it means to a reader, and the buffer that it is written to.

Assumptions that the code forces on its callers:

- Keys are C strings without terminator in the leaf, so no stored key may be a proper prefix of another
  (`ART/ArtCPP.hpp:1249-1250` reads the byte after the common prefix). Queries are not restricted.
- Key bytes are 1 to 127: leaf keys are `char`, query keys `unsigned char`, and a Node16 is searched with a signed
  compare on insertion. `ArtNode.LowPlaceExact` and `ArtNode.HighPlaceExact` say exactly what happens otherwise.
- The key of a leaf that gives way to an insertion has at most thirteen bytes. A leaf split takes the version lock of a
  node on the tagged pointer of the old leaf (`ART/ArtCPP.hpp:1236`, `1251`); where a node has its version, the leaf has
  the bytes 13 to 20 of its key and what lies behind, and 2 is added there twice. A longer key is changed and lost
  (`TrieMap.PutExact`, `TrieMap.LongKeyLost`). Keys of any length are covered as long as no such leaf is split, and
  `TrieMap.GivenWayIs` says which leaf that would be: the one whose key shares more bytes with the new key than with any
  other stored key.
- Thousands separators have no digits in them; otherwise the text cannot be read back (`FmtShown.NumberReads`).
- Updaters, predicates and callbacks are pure; a callback with state is a function of the leaves it has seen.
- `update` and `deleteMV` wait in a loop, so their sequential contracts assume that the conflict ends at some
  attempt; the statuses of transactions are a parameter.

Where the code does not do what its comments say, the code is modelled and the exact condition is proved:
a prefix iteration can visit keys that do not start with the prefix (`TriePrefix.TargetExact`, `TriePrefix.StrayingWalk`),
the table size drifts by one with every logical delete that finds no key (`ArtTable.Table.SizeCountsLeaves`), a
logical delete can hit a snapshot that has been replaced meanwhile (`ConcurrentRuns.DeleteEndsHead`,
`ConcurrentAlone.DeleteMissesHead`), with several threads a replaced snapshot need not end where its successor begins
(`ConcurrentEnds.TilesExact`, `ConcurrentAlone.FailedWriteMarks`, `ConcurrentAlone.FirstMarkLost`), calls out of the
order of their ids can leave two snapshots alive at one time (`VersionChain.RunDisjoint`), and `parse_nonnegative_int`
accepts some numbers that are too big (`FmtParse.TooBigExact`).

Garbage collection does not remove every deleted key. It copies leaves of which only the first 20 bytes of the key
survive, without a terminator, and reads these as C strings (`ART/ArtCPP.hpp:51`, `1039-1047`, `1889`, `1909`).
A key shorter than 20 bytes is removed if and only if it is deleted and a copy of its leaf in the write sets happens to
have a 0 behind it (`TableSpec.CollectExact`). Unless it has exactly thirteen bytes, that is a matter of the byte behind
it in its leaf, which never changes (`TableRuns.CollectAfterRun`); the byte behind a key of thirteen bytes grows by 4
with every split of its leaf, so copies of different times may differ (`TableRuns.ThirteenDiffers`). With a key of 20
bytes or more the reads run on into the next entries of the deletion list, and what they meet decides. The write sets
are emptied in any case. For a leaf with a 0 behind its key, again of other than thirteen bytes, nothing is lost by that
(`TableRuns.CleanTracked`); any other deleted key that is left behind is not looked at again before it is written or
deleted again, and if it is shorter than 20 bytes and not of thirteen it stays for good (`TableRuns.UncleanStays`).

## Model

| member | source | states |
|---|---|---|
| `Bytes.PartingPoint` | ART/ArtCPP.hpp:1029-1037 | Two keys that agree up to a depth both still have a byte where the common-prefix loop stops, and differ there, exactly if neither is a prefix of the other; these are the bytes a leaf split reads. |
| `Bytes.AgreeStops` | ART/ArtCPP.hpp:437-445 | The byte-compare loops stop at the first disagreement, at the limit, or at the end of a buffer. |
| `Trie.KeyThrough` | ART/ArtCPP.hpp:1258-1319 | Path-compression invariant from the leaves: every key below a node spells its whole compressed path, hidden bytes included, and then the edge byte of the child that holds it. |
| `Trie.Header` | ART/ArtCPP.hpp:995-1014 | The stored min(10, partial_len) bytes and the path length of a well-formed node agree with its least leaf, and its occupancy is in the range of its kind. |
| `Trie.MinKeyHeld` | ART/ArtCPP.hpp:923-947 | The key that `minimum` reads hidden path bytes from is stored in the subtree. |
| `Trie.Relabel` | ART/ArtCPP.hpp:1280-1292 | Moving the start of a compressed path together with its bytes changes nothing below the node. |
| `Trie.OneValue` | ART/ArtCPP.hpp:1193-1232 | A key is stored with one version cell only. |
| `Trie.EdgeBytes` | ART/ArtCPP.hpp:512-531 | All edge bytes of reachable nodes are 7-bit, so signed compares are right and the 8-bit child counter never wraps. |
| `TrieInsert.PrefixMismatchExact` | ART/ArtCPP.hpp:995-1014 | `prefix_mismatch` reaches partial_len exactly if the key agrees with the whole compressed path; otherwise it is the index of the first disagreement or the end of the key, also when bytes past the tenth come from the least leaf. |
| `TrieInsert.SplitLeafOk` | ART/ArtCPP.hpp:1238-1252 | On tree values, before the lock calls write into the old leaf: a leaf split is well-formed and stores exactly the old pair and the new one. |
| `TrieInsert.LoweredOk` | ART/ArtCPP.hpp:1280-1292 | The old node keeps a correct path after a prefix split, whether its bytes come from the node or from its least leaf. |
| `TrieInsert.SplitPrefixOk` | ART/ArtCPP.hpp:1258-1300 | A prefix split is well-formed and stores exactly the old pairs and the new one. |
| `TrieInsert.RegrownOk` | ART/ArtCPP.hpp:479-483 | The header copied into a bigger node still spells the path, and the occupancy range of the new kind is met. |
| `TrieInsert.AddChildOk` | ART/ArtCPP.hpp:1322-1343 | Adding a child under a free edge byte is well-formed and stores exactly one more pair, also when the node grows. |
| `TrieInsert.GrowsWhenFull` | ART/ArtCPP.hpp:485-625 | A node grows to the next kind exactly when it has 4, 16 or 48 children already. |
| `TrieInsert.DescendOk` | ART/ArtCPP.hpp:1305-1319 | Replacing one child by the result of an insertion below keeps everything else. |
| `TrieInsert.InsertOk` | ART/ArtCPP.hpp:1193-1344 | On tree values, before the lock calls of a leaf split write: insertion below any well-formed tree, for every key that keeps the key set prefix-free, is well-formed and stores exactly the old pairs and the new one. |
| `LeafLock.AddNumber` | ART/ArtCPP.hpp:117-121 | Adding to a number in memory, low byte first, is an addition modulo a power of 256 to its bytes and changes no other byte. |
| `LeafLock.TouchedNumber` | ART/ArtCPP.hpp:1236-1251 | A split adds 4, modulo 2^64, to the number in the bytes 13 to 20 of the leaf from its key on, low byte first, and changes no other byte. |
| `LeafLock.KeySurvives` | ART/ArtCPP.hpp:1236-1251 | A leaf that is locked and unlocked through its tagged pointer still spells its key if and only if the key has at most thirteen bytes. |
| `LeafLock.BehindSurvives` | ART/ArtCPP.hpp:1236-1251 | The byte behind its key is left as it was if and only if the key does not have exactly thirteen bytes; with thirteen it grows by 4 modulo 256. |
| `TrieTouch.GivenWayExact` | ART/ArtCPP.hpp:1211-1252 | An insertion splits exactly the leaf whose key shares more bytes with the new key than with any other stored key, and none if there is no such key. |
| `TrieTouch.SplitTouchedExact` | ART/ArtCPP.hpp:1236-1252 | With the writes of both lock calls, in the order of the code: a leaf split is the one on tree values if the old key has at most thirteen bytes; any other old key is not stored below the new node. |
| `TrieTouch.SplitAtLock` | ART/ArtCPP.hpp:1236-1251 | Two keys that agree in fourteen bytes are split apart at byte 13, where the lock has changed the old key by 2 when the keys are compared and by 4 in the end. |
| `TrieTouch.InsertTouchedExact` | ART/ArtCPP.hpp:1193-1344 | Insertion with these writes is insertion on tree values if no leaf gives way or its key has at most thirteen bytes; otherwise that key is stored before and not afterwards. |
| `TrieTouch.SearchSound` | ART/ArtCPP.hpp:1675-1710 | What a search returns is stored with that cell, in any tree, well-formed or not. |
| `TrieInsert.InsertHeld` | ART/ArtCPP.hpp:1219-1233 | Inserting a stored key leaves the tree as it is. |
| `TrieInsert.InsertReadsInside` | ART/ArtCPP.hpp:1249-1250 | Prefix-free keys make every key byte that insertion reads exist; a path that the key leaves early means the key is not stored. |
| `TrieSearch.SearchExact` | ART/ArtCPP.hpp:1675-1710 | Comparing at most ten bytes of each path and then the whole leaf key returns the cell exactly if the key is stored, for stored, absent, shorter and longer queries and whatever lies past the end of the query. |
| `TrieSearch.SearchMiss` | ART/ArtCPP.hpp:1712-1782 | The search answers nothing exactly if the key is not stored. |
| `TrieSearch.LocateExact` | ART/ArtCPP.hpp:1098-1170 | The walk of a logical delete, which compares whole paths, finds exactly the stored keys and never needs a byte past the terminator. |
| `TrieDelete.MergedSpells` | ART/ArtCPP.hpp:723-735 | Parent bytes, edge byte and child bytes, truncated to ten, are the first bytes of the merged path. |
| `TrieDelete.CollapsedOk` | ART/ArtCPP.hpp:719-739 | A node with one child left may give way to it: the merged subtree is well-formed and holds the same pairs. |
| `TrieDelete.ShrinkAround` | ART/ArtCPP.hpp:649-710 | Every other removal, shrinking copies included, leaves a well-formed node with exactly the other pairs. |
| `TrieDelete.RemoveChildOk` | ART/ArtCPP.hpp:743-756 | Taking a leaf out of a node removes exactly that key and keeps the tree well-formed. |
| `TrieDelete.ShrinksLater` | ART/ArtCPP.hpp:649-716 | A node goes back to the smaller kind exactly when 3, 12 or 37 children are left. |
| `TrieDelete.RemoveOk` | ART/ArtCPP.hpp:1919-1959 | Physical removal of any key, present or not, leaves a well-formed tree with exactly the pairs of the other keys. |
| `TrieOrder.EntriesHas` | ART/ArtCPP.hpp:1798-1864 | The iteration meets exactly the stored pairs. |
| `TrieOrder.IterationAscends` | ART/ArtCPP.hpp:1798-1864 | The iteration meets the keys in strictly ascending byte-lexicographic order, hence each once. |
| `TrieOrder.MinimumFirst` | ART/ArtCPP.hpp:923-947 | The leaf that `minimum` finds is the first of the iteration: no stored key is smaller. |
| `TrieOrder.LeafCount` | ART/ArtCPP.hpp:1074-1078 | The number of leaves equals the number of stored keys. |
| `TrieOrder.VisitExact` | ART/ArtCPP.hpp:1794-1864 | The callback sees exactly the entries up to and including its first non-zero answer, or all of them, and its answer is returned. |
| `TrieOrder.VisitEdge` | ART/ArtCPP.hpp:1820-1863 | Visiting the rest of a node is visiting its next child and, unless stopped, what is left. |
| `TriePrefix.TargetComplete` | ART/ArtCPP.hpp:1599-1657 | No stored key that extends the prefix is missed, also when the prefix ends inside a compressed path longer than ten. |
| `TriePrefix.TargetExact` | ART/ArtCPP.hpp:1636-1655 | The subtree that is iterated holds only extending keys if and only if the walk did not go on below a node whose path it matched only partly; if it did, none of them extends the prefix. |
| `TriePrefix.PrefixIteration` | ART/ArtCPP.hpp:1599-1657 | A prefix iteration visits leaves in ascending order, every extending key among them, and nothing else unless the walk strayed. |
| `TriePrefix.StraysExact` | ART/ArtCPP.hpp:1636-1655 | A walk that visits anything strays if and only if no stored key starts with the prefix. |
| `TriePrefix.StoredKeepsStraight` | ART/ArtCPP.hpp:1636-1655 | If any stored key extends the prefix the walk does not stray, so the iteration is exact. |
| `TriePrefix.StrayingWalk` | ART/ArtCPP.hpp:1636-1655 | A concrete tree and prefix for which the iteration visits a key that does not start with the prefix. |
| `TrieShape.ShapeByContents` | ART/ArtCPP.hpp:1238-1300 | Two well-formed trees with the same pairs have the same compressed paths and edges. |
| `TrieShape.PathAtMostKeyLength` | ART/ArtCPP.hpp:1238-1319 | A stored key lies below at most as many inner nodes as it has bytes. |
| `TrieMap.InsertRepresents` | ART/ArtCPP.hpp:1182-1191 | On tree values, before the lock calls of a leaf split write: insertion refines map insertion for every key that keeps the key set prefix-free; a stored key changes nothing. |
| `TrieMap.GivenWayIs` | ART/ArtCPP.hpp:1211-1252 | Which key gives way to an insertion depends on the stored keys only. |
| `TrieMap.PutExact` | ART/ArtCPP.hpp:1182-1252 | Insertion with what it writes: a new key that keeps the key set prefix-free is added and nothing else changes, if and only if the key that gives way has at most thirteen bytes; a longer one is not found any more. |
| `TrieMap.NextPutExact` | ART/ArtCPP.hpp:1182-1252 | The same if-and-only-if for one more insertion after any run. |
| `TrieMap.LongKeyLost` | ART/ArtCPP.hpp:1236-1252 | Two concrete insertions after which a search does not find the first key, which has fourteen bytes. |
| `TrieMap.RemoveRepresents` | ART/ArtCPP.hpp:1908-1959 | Physical removal refines map removal, for roots that are missing, a leaf or a node. |
| `TrieMap.SearchRepresents` | ART/ArtCPP.hpp:1675-1710 | Search refines map look-up. |
| `TrieMap.LocateRepresents` | ART/ArtCPP.hpp:1098-1170 | So does the walk of a logical delete. |
| `TrieMap.RunRepresents` | ART/ArtCPP.hpp:1193-1344 | Every tree reachable by removals and by insertions, with what they write into leaves, is well-formed and stores exactly the map of the run, as long as no leaf with a key of more than thirteen bytes gives way. |
| `TrieMap.ShapeForgetsHistory` | ART/ArtCPP.hpp:1193-1344 | Two such runs that store the same map end in trees of the same shape. |
| `TrieMap.RemoveUndoesInsert` | ART/ArtCPP.hpp:1919-1959 | Removing a key that was just inserted, splitting no leaf with a longer key than thirteen bytes, restores the shape of the tree: path merge undoes leaf split and prefix split. |
| `NodeLayout.SortedInsert` | ART/ArtCPP.hpp:580-595 | Opening a gap at the right place keeps sorted cells sorted and adds exactly one entry. |
| `NodeLayout.SortedRemove` | ART/ArtCPP.hpp:696-716 | Closing the gap removes exactly one entry from sorted cells. |
| `NodeLayout.IndexedInsert` | ART/ArtCPP.hpp:491-499 | A Node48 with a child put into a free position and the table pointed to it stands for one more entry, and positions stay one-to-one. |
| `NodeLayout.IndexedRemove` | ART/ArtCPP.hpp:672-678 | Clearing a table entry and its position removes exactly one entry of a Node48. |
| `NodeLayout.FreeCell` | ART/ArtCPP.hpp:492-495 | A Node48 with fewer than 48 children has a free position for the scan to find. |
| `NodeLayout.SortedToIndexed` | ART/ArtCPP.hpp:558-570 | Copying sorted cells to a Node48 and pointing its table to them keeps the map from bytes to children. |
| `NodeLayout.LayoutUpdate` | ART/ArtCPP.hpp:1315-1319 | Storing through the reference of a child replaces exactly that child in any layout. |
| `ArtNode.LowPlaceExact` | ART/ArtCPP.hpp:520-556 | Where the signed compare of a Node16 puts a byte below 128 is right exactly if no byte of 128 or more follows directly. |
| `ArtNode.HighPlaceExact` | ART/ArtCPP.hpp:520-556 | For a byte of 128 or more it is right exactly if there are no smaller ones than 128. |
| `ArtNode.Node.constructor` | ART/ArtCPP.hpp:253-277 | A new node of any kind is zeroed and empty. |
| `ArtNode.Node.CopyHeader` | ART/ArtCPP.hpp:479-483 | Copies the child count, the path length and the stored bytes. |
| `ArtNode.Node.FindChild` | ART/ArtCPP.hpp:342-426 | In all four layouts: a cell is found exactly if the byte has a child, and holds that child. |
| `ArtNode.Node.FirstChild` | ART/ArtCPP.hpp:923-947 | In all four layouts: the child of the least byte. |
| `ArtNode.Node.SetChild` | ART/ArtCPP.hpp:1315-1319 | Storing through a found cell changes exactly that child. |
| `ArtNode.Node.AddChild256` | ART/ArtCPP.hpp:485-489 | Adds exactly one child to a Node256. |
| `ArtNode.Node.AddChild48` | ART/ArtCPP.hpp:491-510 | Adds exactly one child to a Node48, in place or in a Node256 with the same header and children. |
| `ArtNode.Node.LowBytesPlaceable` | ART/ArtCPP.hpp:520-556 | A Node16 puts every byte below 128 in the right place among bytes below 128. |
| `ArtNode.Node.AddChild16` | ART/ArtCPP.hpp:512-578 | Adds exactly one child to a Node16 and keeps it sorted, in place wherever the signed compare finds the right place, or in a Node48 copy. |
| `ArtNode.Node.AddChild4` | ART/ArtCPP.hpp:580-610 | Adds exactly one child to a Node4 and keeps it sorted, in place or in a Node16 copy. |
| `ArtNode.Node.AddChild` | ART/ArtCPP.hpp:612-625 | Adds exactly one child to a node of any kind; kind, header and count are those of the value model. |
| `ArtNode.Node.Lengthened` | ART/ArtCPP.hpp:598-608 | The Node16 copy of a full Node4 stands for the same map. |
| `ArtNode.Node.Tabled` | ART/ArtCPP.hpp:558-576 | The Node48 copy of a full Node16 stands for the same map. |
| `ArtNode.Node.Widened` | ART/ArtCPP.hpp:499-509 | The Node256 copy of a full Node48 stands for the same map. |
| `ArtNode.Node.RemoveChild4` | ART/ArtCPP.hpp:712-716 | Removes exactly one child from a Node4. |
| `ArtNode.Node.RemoveChild16` | ART/ArtCPP.hpp:696-710 | Removes exactly one child from a Node16, shrinking to a Node4 at three. |
| `ArtNode.Node.RemoveChild48` | ART/ArtCPP.hpp:672-694 | Removes exactly one child from a Node48, shrinking to a Node16 at twelve. |
| `ArtNode.Node.RemoveChild256` | ART/ArtCPP.hpp:649-670 | Removes exactly one child from a Node256, shrinking to a Node48 at thirty-seven. |
| `ArtNode.Node.RemoveChild` | ART/ArtCPP.hpp:743-756 | Removes exactly one child from a node of any kind, short of the path merge. |
| `ArtNode.Node.Shortened` | ART/ArtCPP.hpp:701-709 | The Node4 copy of a Node16 of three stands for the same map. |
| `ArtNode.Node.Untabled` | ART/ArtCPP.hpp:678-692 | The Node16 copy of a Node48 of twelve stands for the same map and is sorted. |
| `ArtNode.Node.Narrowed` | ART/ArtCPP.hpp:655-668 | The Node48 copy of a Node256 of thirty-seven stands for the same map. |
| `ArtTree.Minimum` | ART/ArtCPP.hpp:923-947 | Returns the key of the least leaf of the value that the subtree stands for. |
| `ArtTree.CheckPrefix` | ART/ArtCPP.hpp:437-445 | Counts how many of the first stored bytes agree with the key. |
| `ArtTree.PrefixMismatchAt` | ART/ArtCPP.hpp:995-1014 | Computes the mismatch index of the value model, through the least leaf for long paths. |
| `ArtTree.ArtSearch` | ART/ArtCPP.hpp:1675-1710 | The loop over nodes in memory computes the search of the value model, which is exact. |
| `ArtTree.SearchOcc` | ART/ArtCPP.hpp:1712-1782 | The lookup that starts at an inner node gives the same answer. |
| `ArtTree.SplitLeafAt` | ART/ArtCPP.hpp:1236-1252 | Builds the leaf split in memory, out of new objects only, around a leaf that is locked and unlocked and whose key is short enough to come through. |
| `ArtTree.LowerPath` | ART/ArtCPP.hpp:1280-1292 | Cuts the path of the old node in place, from its own bytes or from its least leaf. |
| `ArtTree.SplitPrefixAt` | ART/ArtCPP.hpp:1258-1300 | Builds the prefix split in memory around the old node. |
| `ArtTree.AddLeaf` | ART/ArtCPP.hpp:1322-1343 | Adds a leaf to a node in memory; a grown copy takes over the children of the old one. |
| `ArtTree.Insert` | ART/ArtCPP.hpp:1193-1344 | The in-place insertion computes the insertion of the value model, reports the cell of a stored key and the cell of the leaf that gave way, and touches only the objects of the subtree and new ones. |
| `ArtTree.InsertInto` | ART/ArtCPP.hpp:1305-1319 | Inserts below a child and stores the result back through its cell. |
| `ArtTree.MergePath` | ART/ArtCPP.hpp:723-737 | Rewrites the path of the remaining child in place as the merge of both paths and the edge byte. |
| `ArtTree.Collapse` | ART/ArtCPP.hpp:717-740 | A Node4 with one child gives way to it, whether leaf or node. |
| `ArtTree.RemoveLeaf` | ART/ArtCPP.hpp:743-756 | Takes a leaf out of a node in memory, with shrinking copy or path merge. |
| `ArtTree.Remove` | ART/ArtCPP.hpp:1919-1959 | The in-place removal computes the removal of the value model and reports whether the key was stored. |
| `ArtIterate.Iterate` | ART/ArtCPP.hpp:1798-1864 | The recursion over nodes in memory shows the callback exactly the entries in order and stops at its first non-zero answer. |
| `ArtIterate.IterateSorted` | ART/ArtCPP.hpp:1822-1838 | The loop over the cells of a Node4 or Node16. |
| `ArtIterate.IterateBytes` | ART/ArtCPP.hpp:1840-1859 | The loop over all bytes of a Node48 or Node256. |
| `ArtIterate.IteratePrefix` | ART/ArtCPP.hpp:1599-1657 | The prefix iteration in memory visits exactly what the value model says. |
| `ArtRoot.LocateBelow` | ART/ArtCPP.hpp:1098-1170 | The walk of a logical delete in memory. |
| `ArtRoot.InsertKey` | ART/ArtCPP.hpp:1193-1209 | Insertion from the root; an empty tree becomes a leaf, and the leaf that gives way is the one that `TrieTouch.GivenWay` says. |
| `ArtRoot.RemoveKey` | ART/ArtCPP.hpp:1908-1930 | Removal from the root; a root leaf leaves an empty tree. |
| `VersionChain.RunTiles` | mvcc/mvcc.hpp:276-283 | After every run of calls each older snapshot ends at the version of its successor. |
| `VersionChain.CallsAre` | mvcc/mvcc.hpp:276-283 | A write that passes puts an open snapshot with its value, for an update the updater applied to the newest value, in front; the one before ends with the id of the transaction; a delete only ends it; all older snapshots stay. |
| `VersionChain.PassesExact` | mvcc/mvcc.hpp:263-272 | The guard lets a call pass if and only if the newest snapshot is open, or belongs to the same transaction, or to one that is not active. |
| `VersionChain.RunValues` | mvcc/mvcc.hpp:376-414 | Over every run of calls: each call that the guard lets pass leaves the value asked for, or the one that its updater makes of the value before it, and each other call changes nothing. |
| `VersionChain.RunOrders` | mvcc/mvcc.hpp:276-283 | If no call that passes the guard has a smaller id than the snapshot that it ends, versions rise along the chain and the newest snapshot does not end before it begins. |
| `VersionChain.DisjointExact` | mvcc/mvcc.hpp:276-283 | For every chain of lifetimes that tile: no two snapshots are alive at one time if and only if whatever begins after a snapshot with a lifetime begins when that one has ended, or when nothing is alive any more. |
| `VersionChain.RunDisjoint` | mvcc/mvcc.hpp:244-414 | The same over every run of calls with any order of ids; while the newest snapshot is open the condition speaks of versions only. |
| `VersionChain.OrderedDisjoint` | mvcc/mvcc.hpp:276-283 | Ordered lifetimes do not overlap. |
| `VersionChain.ExactlyOneAlive` | mvcc/mvcc.hpp:276-283 | If the calls that pass the guard come in the order of their ids, exactly one snapshot is alive at each time from creation until the newest snapshot ends. |
| `VersionChain.OutOfOrderOverlaps` | mvcc/mvcc.hpp:276-283 | A run with ids out of order that fails the condition: two of its snapshots are alive at once. |
| `VersionCell.Snapshot.constructor` | mvcc/snapshot.hpp:98-105 | Every new snapshot is open-ended and unlinked. |
| `VersionCell.Cell.constructor` | mvcc/mvcc.hpp:141-148 | A new cell holds one open-ended snapshot. |
| `VersionCell.Cell.Install` | mvcc/mvcc.hpp:276-283 | Ends the newest snapshot, puts the new one in its place and links it, so that the links list the history. |
| `VersionCell.Cell.OverwriteMV` | mvcc/mvcc.hpp:244-287 | Pushes the value and ends the snapshot before it if the newest snapshot is open, or belongs to the transaction, or to one that is not active; otherwise returns null and changes nothing. |
| `VersionCell.Cell.TryUpdate` | mvcc/mvcc.hpp:376-414 | The same with the value that the updater makes of the newest one. |
| `VersionCell.Cell.Update` | mvcc/mvcc.hpp:332-343 | Tries until the guard lets it pass, and then has pushed exactly one snapshot, with the updater applied to the newest value. |
| `VersionCell.Cell.DeleteMV` | mvcc/mvcc.hpp:296-329 | Ends the newest snapshot in place and pushes nothing. |
| `ConcurrentCell.RunKeeps` | mvcc/mvcc.hpp:244-414 | In every interleaving of any number of threads: installed snapshots are distinct and the head is the last, each value is its call applied to the value it replaced, links are missing or right, and unpublished snapshots are private. |
| `ConcurrentCell.SwapKeeps` | mvcc/mvcc.hpp:277-278 | A successful compare-and-swap keeps the invariant. |
| `ConcurrentCell.LinkKeeps` | mvcc/mvcc.hpp:282-283 | The link after it keeps the invariant. |
| `ConcurrentRuns.NoUpdateLost` | mvcc/mvcc.hpp:378-414 | The current value is the composition of all installed calls over the first value, in the order of their compare-and-swaps. |
| `ConcurrentCalls.InstalledValues` | mvcc/mvcc.hpp:388-404 | After every run each installed write holds the value that its caller asked for, or what its updater makes of the value of the snapshot that it replaced. |
| `ConcurrentCalls.UpdatesAddUp` | mvcc/mvcc.hpp:332-404 | If all installed writes are updates by one function, the current value is that function applied to the first value once for each of them. |
| `ConcurrentCalls.ReadsHead` | mvcc/mvcc.hpp:380-386 | A call loads the head and then reads the end of that snapshot. |
| `ConcurrentCalls.GuardExact` | mvcc/mvcc.hpp:263-272 | A write goes on past the guard if and only if the end that it read is open, or the snapshot is of its own transaction, or of one that is not active now; otherwise an update starts over and an overwrite returns null. |
| `ConcurrentCalls.DeleteGuardExact` | mvcc/mvcc.hpp:313-321 | A delete goes on under the same condition and starts over otherwise. |
| `ConcurrentCalls.CallsAnswered` | mvcc/mvcc.hpp:332-343 | After every run each call that was begun is in progress or has returned; a call that tries again never returns null, and exactly the deletes return an ended snapshot. |
| `ConcurrentCalls.RefusedExact` | mvcc/mvcc.hpp:263-286 | A step makes a call return null if and only if the call does not try again and the guard turns it away or its compare-and-swap finds another head. |
| `ConcurrentCalls.ActiveIs` | mvcc/mvcc.hpp:266-266 | Which transactions are active in a run is what was last said of each of them. |
| `ConcurrentRuns.SwapFailsAfterInstall` | mvcc/mvcc.hpp:403-404 | A compare-and-swap fails exactly if another write was installed since the thread loaded the head. |
| `ConcurrentRuns.ExactlyOnce` | mvcc/mvcc.hpp:332-414 | A call that returned its snapshot is composed into the value exactly once and with the operation asked for; a call that returned null, or only ended a snapshot, not at all. |
| `ConcurrentRuns.DeleteEndsHead` | mvcc/mvcc.hpp:305-325 | A delete ends the current snapshot exactly if no write was installed since it loaded the head. |
| `ConcurrentRuns.LinksAreReplacements` | mvcc/mvcc.hpp:282-283 | At every moment the older link of an installed snapshot is missing or leads to the head that it replaced. |
| `ConcurrentRuns.ChainComplete` | mvcc/mvcc.hpp:277-284 | Whenever no thread is between its compare-and-swap and its link, the chain from the head lists all installed snapshots, newest first, with the versions of their transactions. |
| `ConcurrentRuns.RunExtends` | mvcc/mvcc.hpp:175-178 | A snapshot handed out by `current()` never changes its version or value, and installs keep their order. |
| `ConcurrentRuns.LateMark` | mvcc/mvcc.hpp:403-404 | A thread past the guard after another write was installed overwrites the end of a snapshot that is no longer the head, and its compare-and-swap fails. |
| `ConcurrentEnds.EndIsLastMark` | mvcc/mvcc.hpp:276-286 | After every run in which any number of threads interleave, each snapshot ends with the id of the last call that marked it, to replace or to delete it, or is open if none has. |
| `ConcurrentEnds.ReplacedMarked` | mvcc/mvcc.hpp:276-278 | Every snapshot that has been replaced has been marked. |
| `ConcurrentEnds.TilesExact` | mvcc/mvcc.hpp:276-286 | After every run a replaced snapshot ends where its successor begins if and only if the call that replaced it has the id of the last one that marked it. |
| `ConcurrentEnds.AloneTiles` | mvcc/mvcc.hpp:276-286 | So it does if no call of another transaction has marked it. |
| `ConcurrentAlone.WriteAlone` | mvcc/mvcc.hpp:247-283 | A write that nobody disturbs and that the guard lets pass takes seven steps: its snapshot, with the value asked for or the updater applied to the old one, is the new head, linked to the old one, which ends with the id of the transaction; nothing else changes. |
| `ConcurrentAlone.DeleteEnds` | mvcc/mvcc.hpp:305-325 | A delete that has loaded a head ends that snapshot and returns it, whatever the head is by then. |
| `ConcurrentAlone.DeleteMissesHead` | mvcc/mvcc.hpp:305-325 | An interleaving in which a delete returns a snapshot that another call has replaced, and the record lives on. |
| `ConcurrentAlone.FirstMarkLost` | mvcc/mvcc.hpp:276-286 | An interleaving in which two overwrites mark the same head in time; the first to mark is installed, and the replaced snapshot ends with the id of the one that is refused. |
| `ConcurrentAlone.FailedWriteMarks` | mvcc/mvcc.hpp:276-286 | An interleaving in which an overwrite returns null but has overwritten the end of a replaced snapshot, which then does not end where its successor begins. |
| `CellStore.Store.Allocate` | ART/ArtCPP.hpp:1039-1047 | A new leaf gets a new cell with one snapshot; all other cells keep their histories. |
| `CellStore.Store.Overwrite` | mvcc/mvcc.hpp:244-287 | A call on one cell leaves the histories of all others as they were. |
| `TrieMap.KeysPart` | ART/ArtCPP.hpp:1249-1250 | No stored key is a prefix of another. |
| `LeafCopy.CString` | ART/ArtCPP.hpp:1889-1909 | What `strlen` and `strcpy` see of a buffer: the bytes before its first 0. |
| `LeafCopy.CopiedReads` | ART/ArtCPP.hpp:1888-1890 | `strcpy` into the zeroed field of the deletion list does not change which string is read, even past the end of the field. |
| `LeafCopy.ListReads` | ART/ArtCPP.hpp:1888-1900 | Nor does it change what is read at any entry when fields without a 0 run on into the entries behind them. |
| `LeafCopy.SplitKeeps` | ART/ArtCPP.hpp:1236-1251 | A split leaves a leaf its key if and only if the key has at most thirteen bytes; only the bytes behind the key change then. |
| `LeafCopy.ShortReads` | ART/ArtCPP.hpp:1041-1043 | A key field that starts with a shorter key reads as the key exactly if the byte behind the key is 0, and always as an extension of it. |
| `LeafCopy.LongReads` | ART/ArtCPP.hpp:817-827 | The key field of any other key reads as its first bytes followed by what lies past the field. |
| `TableSpec.ReadsAs` | ART/ArtCPP.hpp:1882-1890 | Because keys are prefix-free, the copy of a short key, terminated or not, never reads as another stored key. |
| `TableSpec.ListedIn` | ART/ArtCPP.hpp:1882-1890 | The deletion list has an entry for exactly those copies whose newest snapshot has ended. |
| `TableSpec.ListedAscends` | ART/ArtCPP.hpp:1882-1893 | Copies that earlier transactions have pushed are listed before those of later ones, each in the order of the pushes. |
| `TableSpec.PushIs` | ART/ArtCPP.hpp:1226-1229 | A push goes to the end of the write set of its transaction and to no other. |
| `TableSpec.UpsertIs` | ART/ArtCPP.hpp:1219-1252 | What an upsert makes of the chains: one open snapshot for a new key; one more if the guard lets the write pass, which is spelled out; nothing otherwise; all other chains stay. |
| `TableSpec.CalledIs` | ART/ArtCPP.hpp:1391-1575 | What an update and a logical delete make of the chain of a key: the updater applied to the newest value in front, or only the end set. |
| `TableSpec.UpdatedIs` | ART/ArtCPP.hpp:2053-2119 | What an update by predicate makes of all chains. |
| `TableSpec.CollectExact` | ART/ArtCPP.hpp:1878-1917 | Collection removes a key if and only if its newest snapshot has ended, it is shorter than the key field and some copy of its leaf in the write sets has a 0 behind it; or if it is at least as long as the field and the read of an entry with the same first bytes, on into the entries behind it and the memory behind the list, spells it. |
| `TableBooks.Sweep` | ART/ArtCPP.hpp:1896-1904 | Dropping the strings in the deletion list leaves exactly the table that collection is to leave, with empty write sets. |
| `TableBooks.ChangeKeeps` | ART/ArtCPP.hpp:1226-1229 | A call on the cell of one key changes that chain only and pushes a copy of its leaf as it is now; copies taken before stay as they are. |
| `TableBooks.PutKeeps` | ART/ArtCPP.hpp:1235-1252 | A new key adds its chain and its leaf, changes the bytes behind the key that gives way and nothing else; copies in the write sets stay as they are. |
| `TableRuns.RunStates` | ART/ArtCPP.hpp:1878-1906 | After every run of insertions, updates, updates by predicate, logical deletes and collections a key is stored, ended and known to the write sets, with a byte behind it, exactly as the operations on it and the splits of its leaf say, one after the other. |
| `TableRuns.RunNewest` | ART/ArtCPP.hpp:1182-1252 | After every run the newest snapshot of each key, with its value, version and end, is what the operations make of it one after the other: an upsert stores its value unless the snapshot has ended and is of another active transaction, an update stores what it makes of the value before. |
| `TableRuns.RewriteOwn` | mvcc/mvcc.hpp:263-272 | After every run: what a transaction writes after it has deleted the key itself is stored, whatever its status. |
| `TableRuns.CollectAfterRun` | ART/ArtCPP.hpp:1878-1906 | Collection after any run: a key shorter than the field and not of thirteen bytes is removed if and only if its newest snapshot has ended and the byte behind it in its leaf is 0, whatever was collected before; one of thirteen bytes if and only if it has ended and a copy has a 0 behind it; a longer one if and only if some read spells it. |
| `TableRuns.CleanTracked` | ART/ArtCPP.hpp:1903-1903 | Emptying the write sets never loses an ended key of other than thirteen bytes with a 0 behind it. |
| `TableRuns.UncleanStays` | ART/ArtCPP.hpp:1889-1903 | A short key of other than thirteen bytes whose leaf has no 0 behind it is never removed, by no continuation of the run. |
| `TableRuns.ThirteenDiffers` | ART/ArtCPP.hpp:1236-1251 | A key of thirteen bytes that is written, deleted and then split: collection removes it if and only if there was a 0 behind it before the split, which changes that byte. |
| `TableRuns.EndedKeyStays` | ART/ArtCPP.hpp:1889-1903 | Two concrete keys that are written, deleted and collected and still stored: one without a 0 behind it, and one of 21 bytes. |
| `TableRuns.Perform` | ART/ArtCPP.hpp:1087-1191 | Each operation on a table in memory does what the run theorems say of it. |
| `TableRuns.Run` | ART/ArtCPP.hpp:1087-1191 | A new table performs every possible run, so the run theorems speak of reachable tables. |
| `ArtTable.Table.InsertOrUpdateByKey` | ART/ArtCPP.hpp:1182-1252 | Adds the key with a one-snapshot chain and a leaf, and changes the bytes behind the key of the leaf that gives way as its lock does; or pushes the value on the chain of a stored key, if its newest snapshot is open, or of the same transaction, or of one that is not active, and changes no chain otherwise. All other chains, the tree invariant and the size relation are kept, and the write set gets the leaf of a stored key in either case. |
| `ArtTable.Table.UpdateByKey` | ART/ArtCPP.hpp:1391-1575 | Pushes the updater applied to the newest value on the chain of a stored key, keeps all other chains, and leaves a missing key missing. |
| `ArtTable.Table.DeleteByKey` | ART/ArtCPP.hpp:1087-1136 | Sets the end of the newest snapshot of a stored key and changes nothing else; a key that is not stored adds one to the size. |
| `ArtTable.Table.FindValueByKey` | ART/ArtCPP.hpp:1668-1673 | Returns the newest value of a stored key, deleted or not, and nothing for any other key. |
| `ArtTable.Table.KeysApart` | ART/ArtCPP.hpp:1249-1250 | No key of a table is a prefix of another. |
| `ArtTable.Table.GC` | ART/ArtCPP.hpp:1878-1906 | Removes exactly the keys that it reads out of the leaves that are due, which are those of `TableSpec.CollectExact`, and empties the write sets; all other chains and leaves stay. |
| `ArtTable.Table.ListEnded` | ART/ArtCPP.hpp:1882-1893 | The deletion list holds the copied key field of every copy in the write sets whose newest snapshot has ended, by ascending id and in the order of the pushes, and no other. |
| `ArtTable.Table.CollectKey` | ART/ArtCPP.hpp:1908-1917 | Removes the key and counts it once, duplicates and missing keys not at all. |
| `ArtTable.Table.SizeCountsLeaves` | ART/ArtCPP.hpp:1087-1096 | The size equals the number of leaves if and only if no logical delete has missed its key. |
| `ArtUpdateAll.UpdatedEach` | ART/ArtCPP.hpp:2053-2119 | With distinct keys each chain changes at most once, by what held before the walk. |
| `ArtUpdateAll.UpdateBelow` | ART/ArtCPP.hpp:2053-2119 | The recursion over nodes in memory applies the update leaf by leaf in order. |
| `ArtUpdateAll.UpdateAllByPredicate` | ART/ArtCPP.hpp:2047-2051 | Pushes the updater applied to the newest value on exactly the chains whose newest value satisfied the predicate beforehand, leaves tree and other chains alone, and adds exactly those leaves to the write set in ascending order, provided no guard holds on one of these chains. |
| `ArtUpdateAll.SetsEach` | ART/ArtCPP.hpp:2064-2069 | The write set gets each leaf that was selected beforehand once, in order. |
| `ArtUpdateAll.SelectedLeaves` | ART/ArtCPP.hpp:2053-2119 | These leaves are those of the selected keys in ascending order. |
| `Codec.SizeExact` | core/serialize.hpp:61-112 | `serialize` writes exactly `get_size` bytes, for every nesting of fixed-width values, strings, vectors and tuples. |
| `Codec.RoundTrip` | core/serialize.hpp:207-305 | Wherever the bytes of a value stand in a stream and whatever follows them, `deserialize` gives the value back and stops right after it. |
| `Codec.DecodeExact` | core/serialize.hpp:207-305 | Reading succeeds exactly where the binary form of a value of the type stands, and gives that value and the position behind it: no other bytes are accepted. |
| `Codec.LengthFirst` | core/serialize.hpp:150-170 | Strings and vectors begin with their length in eight bytes, low byte first, and the characters of a string follow. |
| `Codec.ItemAt` | core/serialize.hpp:121-170 | Each item of a vector or tuple stands behind the items before it, whose sizes add up to its offset. |
| `Codec.SelfDelimiting` | core/serialize.hpp:122-188 | If one encoding begins another of the same type, both are of the same value. |
| `Codec.NumberBack` | core/serialize.hpp:172-181 | A size written low byte first in eight bytes reads back. |
| `Serializer.Write` | core/serialize.hpp:114-188 | The iterator moves over exactly the bytes of the value and nothing else in the buffer changes. |
| `Serializer.Stream.Serialize` | core/serialize.hpp:192-202 | Appends exactly the encoding to the stream. |
| `Serializer.Read` | core/serialize.hpp:207-305 | The reading loops compute the decoding of the specification, with failed end checks as None. |
| `TupleStream.NullsBack` | core/Tuple.hpp:332-332 | Null bits survive their representation as a bitset. |
| `TupleStream.NullBit` | core/Tuple.hpp:314-314 | Null bit i is bit i modulo 8, from the lowest on, of byte i / 8, in whole words of eight bytes. |
| `TupleStream.ImageIs` | core/Tuple.hpp:311-315 | A tuple is written as the byte 0, which announces a normal tuple and not a punctuation, its fields, and eight bytes of null bits for each 64 fields begun. |
| `TupleStream.ImageBack` | core/Tuple.hpp:311-333 | A tuple read from a stream that begins with its image has the same fields and null bits. |
| `TupleStream.Tuple.SerializeToStream` | core/Tuple.hpp:311-315 | Appends kind, fields and null bits: the first byte is 0, the kind of normal tuples, and the length is 1 more than the sizes of fields and null words. |
| `TupleStream.Tuple.DeserializeFromStream` | core/Tuple.hpp:323-333 | Overwrites fields and null bits with what the stream holds, or reports that it ends too early. |
| `FmtDigits.DigitsExact` | fmt-master/fmt/format.h:953-960 | A number has k digits exactly if it lies between the powers of ten of k - 1 and k. |
| `FmtDigits.EstimateClose` | fmt-master/fmt/format.h:955-960 | 1233 >> 12 estimates the digit count from the bit length up to one, for all lengths up to 64. |
| `FmtDigits.CountDigitsExact` | fmt-master/fmt/format.h:955-985 | Estimate and table look-up give the true digit count of every 32-bit and 64-bit number. |
| `FmtDecimal.FormatDecimal` | fmt-master/fmt/format.h:1014-1040 | Fills exactly the predicted cells before the end with the digits, two at a time, and the separators, and nothing else. |
| `FmtDecimal.ThousandsSep.Apply` | fmt-master/fmt/format.h:1004-1011 | Writes the separator after every third digit only. |
| `FmtDecimal.PlainNumeral` | fmt-master/fmt/format.h:987-991 | Without separator the plain numeral is written. |
| `FmtDecimal.SeparatedIsGrouped` | fmt-master/fmt/format.h:1003-1010 | The separators fall every three digits from the right. |
| `FmtDecimal.MillionGrouped` | fmt-master/fmt/format.h:1003-1010 | 1234567 is shown as 1, 234 and 567. |
| `FmtDecimal.GroupedLength` | fmt-master/fmt/format.h:2943-2950 | The length with separators is digits + size of sep * ((digits - 1) / 3). |
| `FmtDecimal.SeparatorsOut` | fmt-master/fmt/format.h:1003-1010 | Taking the separators out gives the plain numeral. |
| `FmtInt.AbsValueExact` | fmt-master/fmt/format.h:2511-2518 | The unsigned magnitude is right for every value of a type with a 32-bit or a 64-bit magnitude, the least ones included. |
| `FmtInt.CoversWidths` | fmt-master/fmt/format.h:2511-2518 | All signed and unsigned 32-bit and 64-bit values are covered. |
| `FmtInt.TwentyDigits` | fmt-master/fmt/format.h:3345-3348 | No 64-bit number has more than twenty digits, so the fixed buffer suffices. |
| `FmtInt.FillBack` | fmt-master/fmt/format.h:3353-3373 | Writes exactly the numeral and always leaves room for a sign. |
| `FmtInt.FormatInt.Signed` | fmt-master/fmt/format.h:3375-3383 | The buffer holds the decimal form of every signed 64-bit value. |
| `FmtInt.FormatInt.Unsigned` | fmt-master/fmt/format.h:3389-3391 | The buffer holds the numeral of every unsigned 64-bit value. |
| `FmtParse.ParseNonnegativeInt` | fmt-master/fmt/format.h:3615-3634 | Returns the number modulo 2^32, or the error, exactly as the run of digits and the wrap-around test say. |
| `FmtParse.ParsedExact` | fmt-master/fmt/format.h:3617-3634 | The value of the digits is returned exactly if it does not exceed the largest int. |
| `FmtParse.PrintParse` | fmt-master/fmt/format.h:3617-3634 | The numeral of every number up to the largest int parses back. |
| `FmtParse.ParseLimits` | fmt-master/fmt/format.h:3617-3634 | 2147483647 is read and 2147483648 is refused. |
| `FmtParse.NeverFallsIs` | fmt-master/fmt/format.h:3617-3627 | The number read so far never falls in 32 bits if and only if the low 32 bits never grow when digits are left out at the end of the whole number. |
| `FmtParse.TooBigExact` | fmt-master/fmt/format.h:3617-3634 | Every string of digits whose number is too big: it is taken for the low 32 bits of the number if and only if these make an `int` and the low 32 bits never grow when digits are left out at the end; otherwise it is refused. |
| `FmtParse.TenDigits` | fmt-master/fmt/format.h:3622-3627 | With ten digits only the last step of that condition counts. |
| `FmtParse.TooBigAccepted` | fmt-master/fmt/format.h:3622-3627 | 5000000000 and 47949672960 are both taken for 705032704. |
| `FmtLayout.LayoutWidth` | fmt-master/fmt/format.h:2804-2867 | The layout is as wide as asked for, or as the number needs. |
| `FmtLayout.LayoutLoose` | fmt-master/fmt/format.h:2804-2867 | Where the fill goes for each alignment, with and without zeros from the precision. |
| `FmtLayout.LayoutTight` | fmt-master/fmt/format.h:2839-2844 | A number that fills its width stands alone. |
| `FmtShown.NumberIs` | fmt-master/fmt/format.h:2876-2926 | Without its fill a number is the sign that its value or the flags ask for, the base in the case of the digits if asked for, zeros up to the precision or one for an octal base, and digits. |
| `FmtShown.DigitsShown` | fmt-master/fmt/format.h:2887-2950 | In every form the digits read as the number, have the characters and the case of that form, and do not begin with a zero. |
| `FmtShown.NumberReads` | fmt-master/fmt/format.h:2869-2960 | For every specification and every value, the number without its fill reads as the value. |
| `FmtShown.TextShows` | fmt-master/fmt/format.h:2804-2960 | The whole text is such a number with the fill in the places that the alignment says. |
| `FmtShown.PlainText` | fmt-master/fmt/format.h:2887-2892 | A decimal number without width, precision and sign flag is the plain decimal form. |
| `FmtShown.DecimalReads` | fmt-master/fmt/format.h:2511-2521 | The decimal form of every integer, negative or not, reads as the integer. |
| `FmtWriter.Writer.PrepareIntBuffer` | fmt-master/fmt/format.h:2806-2867 | Appends prefix, zeros and fill around room for the digits, and returns the end of that room. |
| `FmtWriter.Writer.AlignCenter` | fmt-master/fmt/format.h:2789-2802 | The smaller half of the fill goes to the left. |
| `FmtWriter.Writer.WriteInt` | fmt-master/fmt/format.h:2869-2960 | For every 32-bit and 64-bit value, width, precision, alignment, sign flag and base: appends sign, prefix, zeros, digits and fill so that the text without the fill reads as the value; without width, precision and sign flag a decimal number is appended as `write_decimal` does. |
| `FmtWriter.Writer.WriteDecimal` | fmt-master/fmt/format.h:2511-2521 | Appends exactly the decimal form. |
| `FmtLayout.InBaseBack` | fmt-master/fmt/format.h:2890-2940 | The digits written in base 2, 8 or 16 stand for the number. |
| `FmtWriter.CountFor` | fmt-master/fmt/format.h:2896-2950 | The predicted digit count is the number of characters written. |

## Left out

- Node version locks, restarts and obsolete flags (`ART/ArtCPP.hpp:91-189`): the restart flag is always cleared and failed upgrades are ignored, so the tree is modelled in sequential use, where a lock succeeds. The versions of nodes have no part in the results; the lock that a leaf split takes is modelled for what it does to the leaf.
- TrieInsert.SplitLeafOk: on tree values, without what the lock of the old leaf writes; `TrieTouch.SplitTouchedExact` has it.
- TrieInsert.InsertOk: likewise; `TrieTouch.InsertTouchedExact` has it.
- TrieMap.InsertRepresents: likewise; `TrieMap.PutExact` has it.
- TrieTouch.SplitTouched: when the key of the old leaf is changed so that both edge bytes are the same, the Node4 of the code has two cells of that byte, of which the model keeps the one that a search finds.
- ArtTree.Insert: asks that the key of a leaf that gives way is not longer than thirteen bytes; what happens otherwise is on tree values only (`TrieTouch.InsertTouchedExact`), and a tree with such a leaf is not followed any further.
- ConcurrentRuns.LateMark: only marks that come after another write was installed; `ConcurrentEnds.TilesExact` covers all marks.
- Epochs and transaction ids (`Transactions/`): the statuses that the conflict guard reads are a parameter; nothing is claimed across keys.
- Raw allocation, pointer tagging and `destroy_node`: a child is a datatype that is a leaf or a reference to a node, and a null pointer is `None`.
- `*ref` as a pointer to a cell: an operation returns what the cell is to hold, and its caller stores it there.
- Leaves of the tree are values that hold a key and the address of a cell; the bytes of a leaf in memory are kept by the address of its cell, for the copies in the write sets.
- LeafCopy.LongReads: a read past the end of a key field has no defined result in the code. It is followed through the entries of the deletion list as they lie in memory; what is behind the last one is a parameter, and what `strcpy` reads behind an unterminated copy and overwrites behind the field of the new entry is not modelled.
- TableRuns.Perform: an update by key needs an inner root, so at least two stored keys; the bytes of memory that nobody has set and the statuses are parts of the operation.
- The SSE compare of a Node16 is a loop over its cells in the same order; its signed view of bytes is kept.
- A child count in 8 bits is not wrapped, because 7-bit edge bytes never give a node more than 127 children (`Trie.EdgeBytes`).
- In a prefix split the old path is cut before the new node is filled, and in an insertion the cell of a new leaf is allocated after the walk; neither is visible in the result.
- ArtTable.Table.DeleteByKey: a walk that finds no child falls off the end of a function without a result in the code; it is modelled as a key that is not found.
- ArtTable.Table.UpdateByKey: the code assumes that the root is an inner node, and so does the contract; so it is with `findValueByKey`.
- ConcurrentCell.RunKeeps: a snapshot for an overwrite is allocated after the head is loaded, not before; until it is installed nobody else sees it. The memory model is sequential consistency, and addresses are never used again.
- Read sets are the leaves shown to the callback; the read set of a look-up is not kept.
- Observers, console output and the back-off sleep have no part in the results.
- Uncalled or uncompilable variants: the updater overload of `mv_recursive_insert`, `mv_iterative_insert`, `recursive_delete`, `recursive_iterByPredicate` and deletion by predicate, and `overwrite` without a transaction id.
- Serializer.Read: a size in a malformed stream that no memory could hold is not treated as an allocation failure.
- Codec.RoundTrip: fixed-width values are their bytes in memory; sizes are eight bytes, low byte first, as on the platforms the code is built for. The intrusive reference count and the string and output functions of tuples are left out.
- FmtDecimal.FormatDecimal: the table of two-digit numerals is given by a formula instead of a 200-character literal.
- FmtWriter.Writer.PrepareIntBuffer: positions are indices into the buffer; whether pointers survive a reallocation is not modelled, and sizes are not wrapped at 32 bits.
- Floating-point, system-error and string formatting, punctuation, timestamps and the classes of `table/`: thin wrappers or foreign calls that would add easy members only.
