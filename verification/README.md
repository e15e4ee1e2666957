# A model of NeoPostGraph's storage and value layers

NeoPostGraph keeps a property graph inside PostgreSQL. This project models five of its components in
Dafny and proves what they promise.

**Adjacency storage** (`AdjStore`, `AdjSteps`, `AdjCompact`, `AdjCompactAll`, `AdjOrder`, `LabelTables`,
`Graph`, `GraphRuns`, `Migration`, `Stamps`, `GraphDb`). The edges of a vertex hang on a chain that starts in the label's
phys_map, runs through records of the active linked-list partition and of older partitions, and ends in
arraylist blocks. Inserting pushes at the head, deleting tombstones, rotation opens a new partition,
compaction rewrites the oldest inactive partition into page-sized blocks, and a label change moves all
edges of a vertex. `AdjStore.Inv` says what such a store looks like between operations; `Graph.Consistent`
ties the chains to the edge tuples. `LabelTables` and `GraphDb` are the mutable tables; every method is
tied to a transition function on the value they hold (`Abs`), and the lemmas are about those transitions.
A vertex exists in the model when its phys_map slot does, be it only as padding, as in the code.

**Paged files** (`PageLayout`, `Pages`, `ArrayBlocks`, `PhysMap`). The record writer behaves like an
append-only sequence that never refuses a chunk of an adjacency list, and the padded positional phys_map
like a map from ids to records.

**gtype, binary form** (`GtypeEntry`, `GtypeKeys`, `GtypeValue`, `GtypeEncode`, `GtypeIterate`,
`GtypePush`, `WireLayout`). `GtypeValue.Enc` gives the bytes of a value; the buffer methods of `GtypeEncode` produce
them by filling reserved slots, the cursor of `GtypeIterate` reads back whatever lies where the stored
lengths say (`Readable`), the parse state of `GtypePush` rebuilds the value. `WireLayout` gives the stored bytes in numbers.

**gtype, text form** (`LexRules`, `LexMeaning`, `Lexer`, `ParseRules`, `Parser`, `Printer`, `PrintPlaces`,
`TextRoundTrip`, `Typecasts`). Lexer and parser are proved against a reference for lexemes and a grammar of
parse trees; the printer against the text of a value. `LexMeaning` says which texts are numbers, addresses
and words and what an escape stands for, `Typecasts` what a cast makes of a scalar, `PrintPlaces` where a
scalar's text stands in the whole.

**Versions and visibility** (`Mvcc`, `MvccSnapshots`, `OwnCommands`, `CatalogHeap`, `LabelRename`). Row
versions stamped with transactions and commands, what a snapshot sees over any run, and the scan that
rewrites label paths while it reads.

**Annotations** (`Annotations`). One vertex's bitset and its label's schema. Names are appended to the
schema and taken out of it, closing the gap, and bitsets already written stay as they are.

## What the code does not promise

Nine properties hold only under a condition that is visible in the code. Each has a lemma that states
when it holds (exactly, but for the timestamps) and one that shows where it fails.

- Deleting an edge matches adjacency entries on the edge id alone, and ids are drawn per edge label.
  `Graph.DeleteConsistentIff` says when a delete keeps every adjacency right and `GraphRuns.RunIff` says it
  of whole runs; `GraphRuns.RunGood` shows that ids unique across labels suffice,
  `GraphRuns.SharedIdBreaksDelete` gives a run where it goes wrong.
- Moving a vertex fails exactly when one arraylist block holds both live entries of one self-loop
  (`GraphDb.GraphDb.MigrateVertexEdges`): the second entry asks for an edge the first one has deleted.
  `Migration.SelfLoopClashes` is a run of three steps that leads there.
- A timestamp's entry leaves out its padding (`GtypeValue.LengthExactIff`), so what follows it may not be
  where its entry says. `GtypeValue.Reached` is the condition on sizes under which a child is found,
  `GtypeValue.LateTimestamp` and `GtypeValue.ReachedAfter` name cases that survive, and
  `GtypePush.StampReload` an array that comes back with another string.
- A gtype pushed in binary form loses the flag that it was a bare scalar (`GtypePush.BinaryRebuildIff`).
- A float that prints without a fraction or an exponent reads back as an integer
  (`Typecasts.FloatBackIff`).
- A transaction that keeps its snapshot and updates a row changed since then may see two versions of it:
  `OwnCommands.AlwaysOneIff` for whole runs, `MvccSnapshots.OldSnapshotSeesTwo` where it happens.
- Renaming a label cuts paths of more than 256 tokens (`LabelRename.RenameBackRestores`,
  `LabelRename.LongPathLost`).
- Dropping an annotation name moves the names behind it to other bits. `Annotations.DropKeepsIff` and
  `Annotations.DropForeverIff` say for which bitsets this is harmless, `Annotations.RunIff` says it of
  whole runs, `Annotations.DropMisreads` shows a vertex with an annotation nobody gave it.
- Decoding a bitset asks for bytes it does not have when the schema has outgrown it
  (`Annotations.DecodeIff`, `Annotations.NinthName`).

Writing a fresh record into a phys_map slot that exists loses the edges it had
(`AdjStore.PlaceAgainIff`); that takes an edge inserted at a vertex whose slot is only padding.

The formulas for tuples per page disagree as well: `PhysMap.FormulasAgreeIff` and `PhysMap.RawFitsIff`
state for which ids the disagreement shows. Everywhere else the number of records per page is one
parameter. The check and the mark of a catalog update are one atomic step in the model, although
`np_catalog_tuple_update` releases the buffer in between.

Text and payloads are byte sequences; words in the binary form are little-endian.

## Model

| member | source | states |
|---|---|---|
| AdjStore.PathsAgree | src/backend/dml/dml_delete.c:389-503 | Two walks along next pointers from one location visit the same records, so a chain walk has one outcome and one length. |
| AdjStore.AddVertexKeeps | src/backend/dml/dml_insert.c:248-264 | Placing a vertex in the phys_map gives it an empty adjacency, keeps the storage invariant and changes no other chain. |
| AdjStore.AddSlotsKeeps | src/backend/catalog/np_label.c:104-164 | The padding written before it on the page gives empty adjacencies as well and changes no chain. |
| AdjStore.PlaceAgainIff | src/backend/catalog/np_label.c:148-164 | Overwriting a slot that exists keeps its adjacency if and only if it had no edges. |
| AdjSteps.PushKeeps | src/backend/dml/dml_insert.c:360-447 | Head insertion keeps the invariant, puts exactly the new entry in front of the owner's adjacency and leaves every other vertex's chain and entries alone. |
| AdjSteps.RotateKeeps | src/backend/catalog/np_label.c:2940-3001 | Opening a new active partition keeps the invariant and every vertex's chain, and makes an inactive partition available for compaction. |
| AdjSteps.LastActive | src/backend/dml/dml_insert.c:480-509 | The one active metadata row names the youngest partition. |
| AdjSteps.OldestIs | src/backend/access/np_adj_list.c:240-272 | The smallest id among inactive, uncompacted rows is the first partition not yet compacted: compacted partitions are a prefix of the ids. |
| AdjSteps.SomeWaiting | src/backend/access/np_adj_list.c:399-414 | While more than the active partition is uncompacted the search for an inactive one succeeds, so the failure after a rotation cannot be reached. |
| AdjSteps.KillConcat | src/backend/dml/dml_delete.c:389-503 | Tombstoning by edge id stops at the first live match: an earlier record with a match shields every later one. |
| AdjSteps.KillKeeps | src/backend/dml/dml_delete.c:374-504 | The delete walk keeps the invariant and all chains, tombstones exactly the live entry of that edge id nearest the head, and touches no other vertex. |
| AdjCompact.ChunkSize | src/backend/access/np_adj_list.c:277-345 | Every chunk holds between 1 and MAX_EDGES_PER_BLOCK entries, and all but the last are full. |
| AdjCompact.ChunksConcat | src/backend/access/np_adj_list.c:311-376 | The chunks, followed in order, hold the whole input list and nothing else, for every length. |
| AdjCompact.SpliceChain | src/backend/access/np_adj_list.c:480-537 | Replacing an owner's segment by chunk blocks gives a well-formed chain whose entries are those before the segment, the merged ones, and those behind the merged block. |
| AdjOrder.ChunkPrev | src/backend/access/np_adj_list.c:311-376 | Each new block's prev is the block before it on the chain, and the first one's is what lies upstream. |
| AdjCompactAll.FindCut | src/backend/access/np_adj_list.c:426-473 | An owner's records in the partition being compacted are one contiguous stretch of its chain. |
| AdjCompactAll.ScanEntry | src/backend/access/np_adj_list.c:426-473 | After any number of scanned records, the hash entry of an owner holds its records so far in reverse chain order, the location before its stretch if its first record was seen, and the one behind it. |
| AdjCompactAll.CompactOwnerKeeps | src/backend/access/np_adj_list.c:480-537 | Rewriting one owner keeps its multiset of entries, stamps included, and every other owner's list as it was. |
| AdjCompactAll.CompactOwnersKeep | src/backend/access/np_adj_list.c:476-537 | The loop over the hash table keeps every vertex's multiset of entries for every order the table may return. |
| AdjCompactAll.CompactKeeps | src/backend/access/np_adj_list.c:378-540 | Compaction of the oldest inactive partition keeps the invariant with one more compacted partition, and every vertex's multiset of entries. |
| AdjOrder.CompactTurns | src/backend/access/np_adj_list.c:421-537 | Every owner's entries in the compacted partition come back oldest first, in the same places, between the newer records and the older blocks; every other entry, and every other vertex's list, keeps its place. |
| LabelTables.KillInBlock | src/backend/dml/dml_delete.c:438-489 | In a block the first live entry with the edge id, and only that one, is tombstoned; found says whether there is one. |
| LabelTables.LabelTables.GetActive | src/backend/dml/dml_insert.c:480-509 | Finds an active metadata row if there is one. |
| LabelTables.LabelTables.GetOldest | src/backend/access/np_adj_list.c:240-272 | Finds the inactive uncompacted row of smallest id, and fails only if there is none. |
| LabelTables.LabelTables.RotateActive | src/backend/catalog/np_label.c:2940-3001 | Flips the active row and adds a new active partition; all adjacencies stay. |
| LabelTables.LabelTables.PlaceVertex | src/backend/catalog/np_label.c:104-164 | The slots from the first missing one up to the vertex get invalid pointers; an existing slot is overwritten. |
| LabelTables.LabelTables.InsertOneDirection | src/backend/dml/dml_insert.c:360-447 | Writes the record, the old head's prev and the phys_map head so that the tables are those after a push; fails exactly for a vertex whose slot does not exist, not even as padding. |
| LabelTables.LabelTables.DeleteFromAdj | src/backend/dml/dml_delete.c:374-504 | The walk ends on every chain and leaves the tables with exactly the nearest live match tombstoned. |
| LabelTables.LabelTables.ScanPartition | src/backend/access/np_adj_list.c:421-474 | The block scan builds one hash entry per owner that occurs in the partition, with its entries and its neighbours on the chain. |
| LabelTables.LabelTables.InsertChunked | src/backend/access/np_adj_list.c:311-376 | Writing blocks one by one and reaching back to wire each into its predecessor leaves exactly the linked chunks of the list, the last pointing downstream. |
| LabelTables.LabelTables.RewriteOwner | src/backend/access/np_adj_list.c:480-537 | Merging the downstream block, writing the chunks and wiring upstream gives the spliced tables. |
| LabelTables.LabelTables.CompactOldest | src/backend/access/np_adj_list.c:378-540 | The whole operation, rotating first when nothing is inactive, keeps every vertex's multiset of entries and advances the compacted prefix by one. |
| LabelTables.NextLeaves | src/backend/access/np_adj_list.c:466-470 | A record's next pointer leads into its own partition, to an arraylist block or nowhere once older partitions are compacted, so the assertion holds. |
| Graph.CountKill | src/backend/dml/dml_delete.c:407-488 | A tombstone lowers the count of live entries by one for what the nearest match says, and of nothing else. |
| Graph.InsertConsistent | src/backend/dml/dml_insert.c:267-330 | Inserting an edge keeps: one live entry with direction 0 at the start of every live edge, one with direction 1 at its end, no other live entry; self-loops included. |
| Graph.DeleteConsistentIff | src/backend/dml/dml_delete.c:73-164 | Deleting a live edge keeps that correspondence if and only if both walks meet the edge's own entry first among those with its id. |
| Graph.UniqueIdsSafe | src/backend/dml/dml_delete.c:73-164 | Edge ids unique across labels guarantee that condition. |
| GraphRuns.MaintenanceKeeps | src/backend/access/np_adj_list.c:378-540 | Rotation and compaction of one label keep every adjacency multiset and do not touch any other label's tables. |
| GraphRuns.RunIff | src/backend/dml/dml_delete.c:374-504 | Over any run of vertex and edge inserts, deletes, rotations and compactions, edges and adjacency entries correspond exactly in every state if and only if in every delete the nearest entry with the id was the edge's own. |
| GraphRuns.RunGood | src/backend/dml/dml_insert.c:267-447 | They do in every run in which an inserted edge gets an id that no live edge of any label has. |
| GraphRuns.FreshGood | src/backend/catalog/np_label.c:2940-3001 | A graph of freshly created labels is a starting point of such runs. |
| GraphRuns.ChainShape | src/backend/dml/dml_insert.c:360-447 | On every chain partition ids never increase, blocks come last, each partition's records are contiguous, prev is the inverse of next for list records, and no location repeats. |
| GraphRuns.SharedIdBreaksDelete | src/backend/dml/dml_delete.c:412-455 | Two edges of different labels with one id: deleting the first leaves an entry of it live and kills one of the other. |
| Migration.MigDelete | src/backend/dml/dml_labels.c:397-402 | Taking an edge out keeps the migration invariant with that edge in transit. |
| Migration.MigInsert | src/backend/dml/dml_labels.c:404-419 | Putting it back with the vertex renamed keeps the invariant with that edge done. |
| Migration.ClashStable | src/backend/dml/dml_labels.c:454-480 | Edges moved earlier do not change whether a later block holds two live entries of one edge. |
| Migration.AllDead | src/backend/dml/dml_labels.c:340-527 | When the whole old chain is dealt with, every entry of it is a tombstone and the live graph is the old one with the vertex renamed. |
| Migration.DeleteElsewhere | src/backend/dml/dml_delete.c:374-504 | A delete stamps entries of its edge only, and leaves every vertex that is no end of it as it was. |
| Migration.InsertElsewhere | src/backend/dml/dml_insert.c:267-447 | An insert puts entries of its edge in front at its ends and leaves every other vertex as it was. |
| Migration.ElsewhereNext | src/backend/dml/dml_labels.c:340-527 | Step by step, what every vertex sees of the migration is stamps on live entries of moved edges and new entries of moved edges in front. |
| Migration.SelfLoopClashes | src/backend/dml/dml_labels.c:454-480 | A reachable graph, after one vertex, one self-loop and one compaction, in which moving the vertex fails. |
| Stamps.InsertWrites | src/backend/dml/dml_insert.c:360-447 | An insert puts one live entry in front at the start, for the end, and one at the end, for the start, both with the edge's label and id and with the transaction and command that inserted it; a self-loop's two stand together. |
| Stamps.RunTraced | src/backend/access/np_linked_list.c:154-160 | In every state of every run each entry carries the transaction and command of the step that inserted its edge, each tombstone those of a step that deleted an edge of its id, and of this very edge if every delete met its own entries first. |
| Stamps.SafeDeleteOwn | src/backend/dml/dml_delete.c:412-455 | When the nearest matches are the edge's own, every entry a delete stamps is the edge's own. |
| GraphDb.GraphDb.InsertEdge | src/backend/dml/dml_insert.c:267-330 | Tuple, start entry, end entry in that order give the graph after an insert; fails exactly when an end has no phys_map slot. |
| GraphDb.GraphDb.DeleteEdge | src/backend/dml/dml_delete.c:73-164 | Tombstoning the tuple and walking both adjacencies gives the graph after a delete; refused exactly for an edge that is not live. |
| GraphDb.GraphDb.TakeOut | src/backend/dml/dml_labels.c:457-479 | Fetch and delete for one entry succeed exactly when the edge is not already in transit, and save the edge as it was. |
| GraphDb.GraphDb.PutBackAll | src/backend/dml/dml_labels.c:482-512 | The second pass inserts every saved edge, renamed. |
| GraphDb.GraphDb.MoveBlock | src/backend/dml/dml_labels.c:424-517 | Both passes over a record move all its live edges; they fail exactly when it holds two live entries of one edge. |
| GraphDb.GraphDb.MigrateVertexEdges | src/backend/dml/dml_labels.c:340-527 | The chain walk ends; it succeeds exactly when no block holds both entries of a live self-loop, and then every live edge keeps its id and direction with the vertex renamed, the old chain is all tombstones, a vertex that is no end of a moved edge has its adjacency unchanged, and elsewhere only live entries of moved edges are stamped and only new entries of theirs are put in front, all with the transaction and command of the migration. |
| Stamps.StampedDelete | src/backend/dml/dml_labels.c:397-419 | The deletes of a migration stamp with its own transaction and command only. |
| Stamps.StampedInsert | src/backend/dml/dml_labels.c:397-419 | Its inserts write new entries with its own transaction and command. |
| Pages.PagedFile.WriteRecord | src/backend/access/np_entity_store.c:322-376 | The writer appends: it fails exactly for a record too big for an empty page, and otherwise every tuple id handed out before keeps its record and its place. |
| Pages.PagedFile.Scan | src/backend/access/np_catalog_heap.c:315-364 | A full scan by blocks and offsets returns the records in the order they were written. |
| Pages.PositionReads | src/backend/access/np_entity_store.c:374-374 | A tuple id finds the record at its position in write order. |
| Pages.PositionOrder | src/backend/access/np_entity_store.c:322-376 | Positions follow (block, offset), so different tuple ids have different positions. |
| Pages.PageHolds | src/backend/access/np_entity_store.c:339-346 | A page of n records of one size takes another exactly while n + 1 of them, aligned to eight bytes and with a line pointer each, and one spare line pointer fit 8168 bytes. |
| ArrayBlocks.ArrayBlockFits | src/backend/access/np_adj_list.c:277-277 | MAX_EDGES_PER_BLOCK is the chunk size of the model, and the writer accepts a block if and only if it has at most that many entries. |
| ArrayBlocks.WriteChunks | src/backend/access/np_adj_list.c:311-376 | Writing the chunks of a list of any length never fails, appends them in order and moves no earlier record. |
| PhysMap.IdRoundTrip | src/backend/access/np_phys_map.c:330-342 | Id to tuple id and back is the identity on ids above zero, with offsets within the page. |
| PhysMap.TidRoundTrip | src/backend/dml/dml_labels.c:1176-1185 | Tuple id to id and back is the identity. |
| PhysMap.DifferentTids | src/backend/access/np_phys_map.c:330-342 | Different ids never share a slot. |
| PhysMap.SlotsInOrder | src/backend/access/np_phys_map.c:330-342 | The first ids fill block 0 in order, and a page further on the same slot of the next block. |
| PhysMap.PhysMap.Place | src/backend/catalog/np_label.c:104-164 | Extending, padding and overwriting refine a map update: the id reads the record, every other id reads what it read before. |
| PhysMap.PlaceAll | src/backend/access/np_phys_map.c:151-222 | After placements in any order each id reads its last record, ids never placed read as invalid. |
| PhysMap.FormulasAgreeIff | src/backend/access/np_phys_map.c:315-354 | The two formulas for tuples per page give 157 and 314 and put an id in the same slot if and only if it is on the first page of the smaller. |
| PhysMap.RawFitsIff | src/backend/dml/dml_insert.c:258-260 | The raw formula names a slot that a page can hold if and only if it is among the first 291 of its page. |
| WireLayout.EntryBits | src/include/utils/gtype.h:57-104 | Bit 31 marks every 32nd entry of a container, bits 28 to 30 are the type codes 0 to 6, the low 28 bits a length or in the marked entries an end offset. |
| WireLayout.HeaderWord | src/include/utils/gtype.h:113-119 | The header is the count with bit 30 for an array, 29 for an object and 28 for a wrapped scalar. |
| WireLayout.ArrayBytes | src/backend/utils/adt/gtype_util.c:808-880 | The 17 bytes of [null, true, "a"]. |
| WireLayout.IntegerBytes | src/backend/utils/adt/gtype_ext.c:48-57 | A 64-bit integer is the tag 0 and its two's complement, least significant byte first. |
| WireLayout.ExtendedBytes | src/backend/utils/adt/gtype_ext.c:23-165 | An extended value is padding to a word, its tag, its payload, and four bytes more for a time with time zone. |
| WireLayout.ExtendedLength | src/backend/utils/adt/gtype_ext.c:39-165 | The entry of an extended value gives its bytes, padding included, for every type but the timestamp, which leaves its padding out. |
| WireLayout.PayloadSizes | src/backend/utils/adt/gtype_ext.c:39-165 | The payload sizes of the twelve extended types. |
| GtypeEntry.Fields | src/include/utils/gtype.h:57-88 | Type bits, offset flag and length never run into each other while lengths stay within the mask. |
| GtypeEntry.GetOffset | src/backend/utils/adt/gtype_util.c:95-112 | Walking back to the nearest end offset gives the sum of all earlier lengths, looking at no more than GT_OFFSET_STRIDE entries. |
| GtypeEntry.GetLength | src/backend/utils/adt/gtype_util.c:118-137 | A child's length is recovered whether its entry stores a length or an end offset. |
| GtypeEntry.AdvanceIsSum | src/include/utils/gtype.h:91-100 | Advancing entry by entry gives the same offsets as looking each one up. |
| GtypeKeys.KeyLessIs | src/backend/utils/adt/gtype_util.c:1065-1085 | One key is less than another exactly when it is shorter, or as long and smaller in the first byte in which they differ. |
| GtypeKeys.KeyTotal | src/backend/utils/adt/gtype_util.c:1065-1085 | The length-first key order is total and strict. |
| GtypeKeys.KeyTransitive | src/backend/utils/adt/gtype_util.c:1065-1085 | The key order is transitive. |
| GtypeKeys.NormalizeIs | src/backend/utils/adt/gtype_util.c:1119-1152 | Normalised pairs are strictly increasing and are exactly the last observed pair of every key. |
| GtypeKeys.NormalizeOrder | src/backend/utils/adt/gtype_util.c:1119-1152 | Of two keys of the normal form the earlier is shorter, or as long and smaller where they first differ. |
| GtypeKeys.UniquePairs | src/backend/utils/adt/gtype_util.c:1119-1152 | The pairs come back in that order, and are exactly the last observed of every key. |
| GtypeKeys.IncreasingUnique | src/backend/utils/adt/gtype_util.c:1119-1152 | There is only one increasing list of given pairs, so the normal form is unique. |
| GtypeKeys.NormalizeStable | src/backend/utils/adt/gtype_util.c:1119-1152 | Normalising twice, or normalising a sorted unique object, changes nothing. |
| GtypeKeys.Uniqueify | src/backend/utils/adt/gtype_util.c:1122-1152 | The in-place compaction of the sorted pairs leaves the normal form in the front of the array. |
| GtypeKeys.SortPairs | src/backend/utils/adt/gtype_util.c:1098-1131 | Sorting with the pair comparator puts equal keys latest first. |
| GtypeValue.LengthExactIff | src/backend/utils/adt/gtype_ext.c:69-84 | A child's entry states exactly the bytes it takes if and only if it is not a timestamp that needed padding. |
| GtypeValue.TotalExactIff | src/backend/utils/adt/gtype_util.c:838-878 | The running total equals the data written so far if and only if no timestamp needed padding; it never exceeds it. |
| GtypeValue.WordsStored | src/backend/utils/adt/gtype_util.c:838-878 | The words of a stored container are its entries, every STRIDE-th an end offset, and determine all offsets a reader uses. |
| GtypeValue.PadlessPlaced | src/backend/utils/adt/gtype_util.c:95-137 | In a container without padded timestamps every child is where its entries say, at every depth. |
| GtypeValue.LateTimestamp | src/backend/utils/adt/gtype_ext.c:69-76 | A padded timestamp does no harm if nothing with bytes follows it. |
| GtypeValue.ReachedAfter | src/backend/utils/adt/gtype_ext.c:69-76 | Nor if only aligned children of whole words follow it. |
| GtypeValue.KidAt | src/backend/utils/adt/gtype_util.c:189-197 | A nested container lies at its data offset rounded up to a word, at every depth. |
| GtypeEncode.EncMod | src/backend/utils/adt/gtype_util.c:699-714 | The bytes of a value depend on where it is written only through alignment. |
| GtypeEncode.Buffer.PadToInt | src/backend/utils/adt/gtype_util.c:699-714 | Padding aligns the buffer and reports its length. |
| GtypeEncode.Buffer.SerializeExtended | src/backend/utils/adt/gtype_ext.c:39-162 | Appends the padded header word and payload of an extended type and the entry for it. |
| GtypeEncode.Buffer.ConvertValue | src/backend/utils/adt/gtype_util.c:761-785 | Appends exactly the bytes of the value and returns its entry; fails if and only if a container is longer than an entry can say. |
| GtypeEncode.Buffer.ConvertArray | src/backend/utils/adt/gtype_util.c:805-896 | Reserving slots, appending elements and filling each slot gives the array's bytes, and the checks in the loop refuse only what the last check would. |
| GtypeEncode.Buffer.ConvertObject | src/backend/utils/adt/gtype_util.c:898-1010 | The same for objects, all keys before all values. |
| GtypeEncode.ValueToGtype | src/backend/utils/adt/gtype_util.c:59-88 | The result is a size word and the aligned root container, scalars wrapped; fails if and only if the container is too long. |
| GtypeIterate.PlacedReadable | src/backend/utils/adt/gtype_util.c:406-586 | The bytes of a value whose children are where their entries say can be read as that value, at every depth. |
| GtypeIterate.FillValue | src/backend/utils/adt/gtype_util.c:151-198 | From an entry and a data offset the child is recovered: any scalar itself, a container as its position. |
| GtypeIterate.DeserializeExtended | src/backend/utils/adt/gtype_ext.c:169-230 | Reads back the extended type that was written, at any alignment. |
| GtypeIterate.Iterator.Next | src/backend/utils/adt/gtype_util.c:441-586 | Each call returns the next token of the traversal and leaves the rest; Done comes exactly at the end. |
| GtypeIterate.IterateAll | src/backend/utils/adt/gtype_util.c:406-586 | Iterating a stored container terminates and emits exactly its in-order traversal. |
| GtypePush.ParseState.Push | src/backend/utils/adt/gtype_util.c:244-330 | One push takes the parse state to the next; it refuses exactly where an assertion would fail or nothing is open, and the end of an array closes an object with its pairs as they came. |
| GtypePush.ParseState.PushBinary | src/backend/utils/adt/gtype_util.c:217-238 | Pushing a binary value adds the value it encodes, normalised, with a root array's raw flag dropped. |
| GtypePush.Rebuild | src/backend/utils/adt/gtype_util.c:244-330 | Pushing the traversal of any container closes that container, all objects normalised, into whatever was open. |
| GtypePush.NormSorted | src/backend/utils/adt/gtype_util.c:297-298 | Every object in a built value is strictly increasing, at every depth. |
| GtypePush.TokensRebuild | src/backend/utils/adt/gtype_util.c:244-330 | The traversal of a sorted value rebuilds exactly that value from an empty parse state. |
| GtypePush.BinaryRebuildIff | src/backend/utils/adt/gtype_util.c:233-237 | Pushing a stored value gives it back if and only if it is not a wrapped scalar. |
| GtypePush.Reload | src/backend/utils/adt/gtype_util.c:406-586 | Iterating stored bytes and pushing every token rebuilds the value, normalised. |
| GtypePush.RoundTrip | src/backend/utils/adt/gtype_util.c:59-88 | Encode, iterate and push returns the value, for every nesting, width and alignment, whenever its container fits and every child is where its entries say. |
| GtypePush.MisplacedTimestamp | src/backend/utils/adt/gtype_ext.c:69-76 | A concrete array in which an unaligned timestamp makes the next child's offset three bytes short. |
| GtypePush.StampReload | src/backend/utils/adt/gtype_ext.c:69-76 | Storing and reloading that array returns the timestamp's sixth byte in place of the string, so another value unless the two are the same. |
| LexMeaning.IntegerIff | src/backend/utils/adt/gtype_parser.c:881-995 | A text is an integer lexeme exactly when it is a zero, or digits that do not begin with one, and neither a word character nor a point follows. |
| LexMeaning.FloatIff | src/backend/utils/adt/gtype_parser.c:881-995 | A text is a float lexeme exactly when it is a whole number, a fraction and an exponent, one of the last two at least, where a number ends. |
| LexMeaning.AddressIff | src/backend/utils/adt/gtype_parser.c:920-955 | A text is an address lexeme exactly when it is a number with a fraction, a point, digits and points, and a slash and digits or nothing, where it could not go on. |
| LexMeaning.WordLexeme | src/backend/utils/adt/gtype_parser.c:545-612 | Every word is one lexeme: a float for nan, inf and infinity in any case, true, null and false as written, an identifier otherwise. |
| LexMeaning.NegativeLexeme | src/backend/utils/adt/gtype_parser.c:510-545 | A minus and a word that begins with an i is a float for inf and infinity in any case, and an error otherwise. |
| LexMeaning.BlankLexes | src/backend/utils/adt/gtype_parser.c:433-441 | A blank, tab, line feed or carriage return before a lexeme counts for nothing. |
| LexMeaning.ShortEscapes | src/backend/utils/adt/gtype_parser.c:752-812 | What a backslash and a character stand for: the eight usual ones, a kept backslash before x and digits, an error for anything else. |
| LexMeaning.HexSpells | src/backend/utils/adt/gtype_parser.c:666-672 | A character is the hexadecimal digit of a value exactly when it spells it, in either case. |
| LexMeaning.Utf8Back | src/backend/utils/adt/gtype_parser.c:732-735 | The bytes written for a code point are well-formed UTF-8 that decodes to it. |
| LexMeaning.PlainEscape | src/backend/utils/adt/gtype_parser.c:657-735 | Every code point below 10000 (hex) other than zero and the surrogates, written as one escape, becomes its UTF-8 bytes, and the scan goes on behind it. |
| LexMeaning.PlainBytes | src/backend/utils/adt/gtype_parser.c:620-650 | In a literal every byte from the blank on, but the quote and the backslash, stands for itself; the quote ends it; lower bytes and the end of the text are errors. |
| LexMeaning.OtherEncoding | src/backend/utils/adt/gtype_parser.c:736-748 | In another encoding than UTF-8 exactly the seven-bit code points other than zero can be escaped. |
| LexMeaning.NulEscape | src/backend/utils/adt/gtype_parser.c:722-731 | The escape of zero is refused. |
| LexMeaning.PairEscape | src/backend/utils/adt/gtype_parser.c:684-735 | Every code point above FFFF (hex), written as a pair of surrogates, becomes its UTF-8 bytes. |
| LexMeaning.LoneSurrogate | src/backend/utils/adt/gtype_parser.c:689-717 | A low surrogate without a high one is refused, and so is a high one that no escape of a low one follows. |
| Lexer.LexContext.LexString | src/backend/utils/adt/gtype_parser.c:620-851 | The loop accepts exactly the well-formed string literals and leaves their de-escaped value, surrogate pairs and UTF-8 included. |
| Lexer.LexContext.LexNumber | src/backend/utils/adt/gtype_parser.c:881-995 | Kind, end and validity of a number or address are those of the reference. |
| Lexer.LexContext.LexToken | src/backend/utils/adt/gtype_parser.c:452-613 | Every lexeme, by its first byte, is the one the reference finds, with the same end. |
| Lexer.LexContext.Lex | src/backend/utils/adt/gtype_parser.c:430-615 | White space is skipped and the next lexeme found; an error exactly where the reference has none. |
| Lexer.LexContext.Next | src/backend/utils/adt/gtype_parser.c:76-95 | Accepting the look-ahead moves to the rest of the lexeme stream, or fails exactly when no lexeme follows. |
| ParseRules.Sound | src/backend/utils/adt/gtype_parser.c:225-425 | Whatever is recognized is exactly the text of the parse tree returned, and the tree is legal. |
| ParseRules.Complete | src/backend/utils/adt/gtype_parser.c:225-425 | Every legal tree's text is recognized as that tree whatever follows, so no text has two trees. |
| ParseRules.AcceptedIff | src/backend/utils/adt/gtype_parser.c:150-175 | A lexeme stream is accepted with a tree if and only if it is the text of that legal tree and the end. |
| Parser.TextParser.InScalar | src/backend/utils/adt/gtype.c:413-438 | A bare scalar becomes a wrapped root, any other the next member of the innermost container. |
| Parser.TextParser.ParseScalar | src/backend/utils/adt/gtype_parser.c:225-266 | Accepts a scalar with an optional typecast as the grammar does and hands its value to the actions. |
| Parser.TextParser.ParseObjectField | src/backend/utils/adt/gtype_parser.c:268-309 | A field is a name, a colon and a value, and adds exactly that pair to the open object. |
| Parser.TextParser.ParseObject | src/backend/utils/adt/gtype_parser.c:311-358 | An object's text builds the object of its fields with later duplicate keys winning, and restores the nesting level. |
| Parser.TextParser.ParseArray | src/backend/utils/adt/gtype_parser.c:389-425 | An array's text builds the array of its elements and restores the nesting level. |
| Parser.TextParser.ParseGtype | src/backend/utils/adt/gtype_parser.c:150-175 | On every byte string parsing ends; it succeeds exactly on the texts of the grammar, and then the parse state is empty, the nesting level is back, and the result is the document's tree with every object normalised. |
| Typecasts.CastDecides | src/backend/utils/adt/gtype.c:274-318 | Behind any scalar but null a cast alone decides: text gives the string of the lexeme, integer and int the integer it spells, every other name what the library makes of that kind and text, an unknown name an error; names in any case. |
| Typecasts.StringCast | src/backend/utils/adt/gtype.c:274-318 | So for every string literal, read as a whole text. |
| Typecasts.IntCast | src/backend/utils/adt/gtype.c:274-318 | So for every integer. |
| Typecasts.FloatCast | src/backend/utils/adt/gtype.c:274-318 | So for every float and address. |
| Typecasts.BoolCast | src/backend/utils/adt/gtype.c:274-318 | So for true and false. |
| Typecasts.NullCast | src/backend/utils/adt/gtype.c:270-274 | Null stays null under any word. |
| Typecasts.BareInteger | src/backend/utils/adt/gtype.c:326-330 | Without a cast an integer is itself if it fits 64 bits and is refused otherwise. |
| Typecasts.PlainIntIs | src/backend/utils/adt/gtype.c:320-324 | The texts the model converts to integers itself are exactly digits, perhaps behind a minus; any other is left to the library's conversion. |
| Printer.EscapeGtype | src/backend/utils/adt/gtype.c:226-264 | Writes the literal of the string up to its first NUL. |
| Printer.EmitTokens | src/backend/utils/adt/gtype.c:486-571 | The separator and bracket flags produce the text of a nested container for its tokens, whatever follows. |
| Printer.ShapedTokens | src/backend/utils/adt/gtype.c:528-541 | In every traversal a key is followed by a value or a container, so the assertion holds and no token is unknown. |
| Printer.PrintToken | src/backend/utils/adt/gtype.c:486-571 | One turn, with its possible second turn after a key, writes what the remaining tokens require. |
| Printer.ToCString | src/backend/utils/adt/gtype.c:459-576 | Printing a stored value ends without error and writes exactly its text. |
| PrintPlaces.ArrayText | src/backend/utils/adt/gtype.c:459-576 | The text of an array is the texts of its elements in order, separated by a comma and a blank, in brackets. |
| PrintPlaces.ObjectText | src/backend/utils/adt/gtype.c:459-576 | The text of an object is its keys' literals, colons and the texts of its values in order, in braces. |
| PrintPlaces.ShownInPlace | src/backend/utils/adt/gtype.c:155-224 | A value of a library type is printed at its place as the library shows it, at every nesting; two that are shown differently make different texts. |
| TextRoundTrip.Unescape | src/backend/utils/adt/gtype_parser.c:620-851 | Lexing the escaped form of any NUL-free byte string returns the string and stops at the closing quote, whatever follows and in any encoding. |
| TextRoundTrip.LiteralIff | src/backend/utils/adt/gtype.c:226-264 | A string's printed literal reads back as the string itself if and only if it holds no NUL. |
| TextRoundTrip.IntLexes | src/backend/utils/adt/gtype_parser.c:881-995 | A printed integer is one integer lexeme, whatever may follow a value. |
| TextRoundTrip.IntShape | src/backend/utils/adt/gtype.c:164-167 | An integer is printed without zeros in front, with a minus exactly when it is negative; zero has none. |
| TextRoundTrip.IntReads | src/backend/utils/adt/gtype.c:320-324 | Reading a printed integer gives the integer. |
| TextRoundTrip.Int64Back | src/backend/utils/adt/gtype_ext.c:48-57 | Eight stored bytes are a 64-bit number, and the number gives the bytes back. |
| TextRoundTrip.TextStream | src/backend/utils/adt/gtype.c:459-576 | The printed text of a value lexes to the lexemes of its parse tree followed by those of what comes next. |
| TextRoundTrip.TextParses | src/backend/utils/adt/gtype_parser.c:150-175 | The printed text of a value has exactly one parse, and it means the value. |
| TextRoundTrip.PrintAndParse | src/backend/utils/adt/gtype.c:62-104 | Store, print and parse returns the value, for null, booleans, 64-bit integers, NUL-free strings, library values shown as one float or address lexeme that the library reads back, arrays and sorted objects, bare scalars included. |
| Typecasts.FloatBackIff | src/backend/utils/adt/gtype.c:168-171 | A float the library prints as a float or as an integer comes back from its text if and only if it printed as a float. |
| Mvcc.NothingAfter | src/backend/access/np_catalog_heap.c:455-468 | Only the newest version that was not rolled back can be superseded. |
| Mvcc.UpdateKeeps | src/backend/access/np_catalog_heap.c:425-501 | An update keeps: of two versions not rolled back the earlier one was superseded no later than the other began, and every superseded version has its successor. |
| Mvcc.DeleteKeeps | src/backend/access/np_catalog_heap.c:503-541 | A delete keeps it. |
| Mvcc.RunKeeps | src/backend/access/np_catalog_heap.c:367-541 | Every run of begins, commands, commits, aborts, inserts, updates and deletes keeps it. |
| MvccSnapshots.VisibleIs | src/backend/access/np_catalog_heap.c:76-136 | The case analysis amounts to: the snapshot sees the insert and does not see the end. |
| MvccSnapshots.SnapshotStable | src/backend/access/np_catalog_heap.c:76-136 | Over any run a snapshot goes on seeing exactly the versions it saw when it was taken. |
| MvccSnapshots.AtMostOneVisible | src/backend/access/np_catalog_heap.c:76-136 | At no point of any run does a snapshot see two versions of a row. |
| OwnCommands.AlwaysOneIff | src/backend/access/np_catalog_heap.c:76-136 | For a snapshot kept from command to command: at all times of a run of everybody's steps the next command sees at most one version of every row, if and only if each of its own updates superseded the version it sees or one of a row it sees none of. |
| OwnCommands.PresentOne | src/backend/access/np_catalog_heap.c:76-136 | Then the running command sees at most one version as well, all the way. |
| OwnCommands.TakenOne | src/backend/access/np_catalog_heap.c:76-136 | A snapshot just taken starts like that. |
| MvccSnapshots.ExactlyOneVisible | src/backend/access/np_catalog_heap.c:76-136 | It sees exactly one if it sees an insert of the row and no delete. |
| MvccSnapshots.UpdateBoundary | src/backend/access/np_catalog_heap.c:474-492 | After an update whoever saw the old version sees exactly one of the two, decided by whether it sees the updating command. |
| MvccSnapshots.InsertBoundary | src/backend/access/np_catalog_heap.c:367-396 | An inserted row is the last version, the others stay, and exactly the snapshots that see the inserting command see it. |
| MvccSnapshots.DeleteBoundary | src/backend/access/np_catalog_heap.c:503-541 | After a delete whoever saw the version still does, unless it sees the deleting command; the data stays. |
| MvccSnapshots.OldSnapshotIff | src/backend/access/np_catalog_heap.c:98-111 | A transaction that keeps its snapshot after an update sees one version if and only if no version but the updated one was visible to it. |
| MvccSnapshots.OldSnapshotSeesTwo | src/backend/access/np_catalog_heap.c:98-111 | A reachable state in which it sees two. |
| MvccSnapshots.CheckIs | src/backend/access/np_entity_store.c:574-626 | An update or delete goes ahead exactly on a version that is the transaction's own or committed and that nobody ended or only somebody rolled back, hears of a concurrent update exactly when somebody else who still runs ended it, and finds nothing otherwise. |
| MvccSnapshots.WrittenStaysFree | src/backend/access/np_entity_store.c:587-592 | A version a transaction inserts or updates stays free to it over any run until it supersedes it itself. |
| MvccSnapshots.AtMostOneLive | src/backend/access/np_entity_store.c:574-610 | Each transaction finds at most one live version of a row. |
| MvccSnapshots.LockedWhileRunning | src/backend/access/np_entity_store.c:612-626 | While its updater runs, no run of other steps changes a version's end. |
| MvccSnapshots.AbortRestores | src/backend/access/np_entity_store.c:399-406 | Once the updater aborts, whatever happened meanwhile, the old version is live to everybody else and can be superseded again. |
| MvccSnapshots.CommitKills | src/backend/access/np_entity_store.c:574-610 | Once it commits the old version is dead to everybody after every later run. |
| CatalogHeap.Catalog.TupleInsert | src/backend/access/np_catalog_heap.c:367-396 | Appends one version and moves no other. |
| CatalogHeap.Catalog.TupleUpdate | src/backend/access/np_catalog_heap.c:425-501 | Answers by the liveness checks and, if they pass, appends the new version and stamps the old one. |
| CatalogHeap.Catalog.TupleDelete | src/backend/access/np_catalog_heap.c:503-541 | Answers by the same checks and stamps the version. |
| CatalogHeap.CatalogScan.Next | src/backend/access/np_catalog_heap.c:308-365 | Ends on every file, skips only invisible rows and returns the next visible one of the blocks that existed at the start. |
| LabelRename.RebuildPath | src/backend/dml/dml_labels.c:1450-1472 | The rebuilt path is the first 256 tokens with every old name replaced; modified says whether there was one. |
| LabelRename.RenameBackIff | src/backend/dml/dml_labels.c:1450-1472 | Renaming a path there and back restores it if and only if it has at most 256 tokens or its first ones do not include the old name. |
| LabelRename.RenameScan | src/backend/dml/dml_labels.c:1429-1499 | The scan that updates rows it returns ends, visits every row visible at its start exactly once and none it wrote, rewrites exactly the matching ones, and fails exactly when one of those is not free. |
| LabelRename.RenameContents | src/backend/dml/dml_labels.c:1789-1854 | The next command sees exactly what it would have seen, with every row that was shown to the rename renamed. |
| LabelRename.BackFree | src/backend/dml/dml_labels.c:1429-1499 | After a rename that went through, the rename back in the next command never meets a row it may not supersede. |
| LabelRename.RenameAndBack | src/backend/dml/dml_labels.c:1429-1499 | Renaming and renaming back in the next command goes through exactly when the first rename does. |
| LabelRename.RenameBackRestores | src/backend/dml/dml_labels.c:1429-1499 | Renaming to a name no path has and back restores the whole catalog if and only if no visible path was cut. |
| LabelRename.LongPath | src/backend/dml/dml_labels.c:1450-1472 | A reachable catalog with a visible path of 257 tokens that a rename is free to rewrite. |
| LabelRename.LongPathLost | src/backend/dml/dml_labels.c:1450-1472 | Renaming there and back leaves that path with 256 tokens. |
| Annotations.MaskIs | src/backend/catalog/np_label.c:1518-1519 | Position k of a byte is its bit of value 2 to the k. |
| Annotations.OneBit | src/backend/catalog/np_label.c:1518-1519 | Setting or clearing a bit changes that bit and no other. |
| Annotations.AddShows | src/backend/catalog/np_label.c:1431-1519 | Adding an annotation adds exactly that name, whatever the bitset holds and whatever schema it was written under. |
| Annotations.RemoveShows | src/backend/catalog/np_label.c:1702-1738 | Removing one leaves every other name; the name itself goes unless the schema repeats it. |
| Annotations.GrowShows | src/backend/catalog/np_label.c:1917-1953 | Appending a name leaves every other name, and the new one is found if and only if its bit was stale. |
| Annotations.DropKeepsIff | src/backend/catalog/np_label.c:2153-2187 | After a drop a bitset has no stale bits and shows the same other names if and only if no bit at or behind the first removed position was set. |
| Annotations.DropForeverIff | src/backend/catalog/np_label.c:2153-2187 | Under that condition and no other, every other name keeps its meaning whatever is appended later. |
| Annotations.DropMisreads | src/backend/catalog/np_label.c:2153-2187 | With three names and a vertex that has the last, dropping the second loses it, and the name appended next is found on the vertex. |
| Annotations.RunIff | src/backend/catalog/np_label.c:1847-2206 | Over any run of appended, dropped, added and removed names the bitset stands for the names the vertex should have if and only if every drop met that condition. |
| Annotations.EncodeNames | src/backend/dml/dml_insert.c:185-218 | A fresh bitset stands for exactly the given names; refused exactly for an unknown one. |
| Annotations.VertexAnnotations.GrowSchema | src/backend/catalog/np_label.c:1917-1953 | A new name goes to the end of the schema, an existing one is refused; every other name of the vertex stays, and the new one shows exactly if its bit was set before. |
| Annotations.VertexAnnotations.DropName | src/backend/catalog/np_label.c:2153-2187 | The name and all nulls leave the schema and the gap is closed, the bitset stays; refused for an unknown name. |
| Annotations.VertexAnnotations.AddAnnotation | src/backend/catalog/np_label.c:1431-1519 | Adds exactly that name, whatever schema the bitset was written under. |
| Annotations.VertexAnnotations.RemoveAnnotation | src/backend/catalog/np_label.c:1702-1738 | Clears the name in a bitset for the present schema and leaves every other name. |
| Annotations.DecodeIff | src/backend/dml/dml_labels.c:933-942 | The decoder finds a name exactly when the bitset shows it, whatever lies behind the bitset, if and only if the name has no schema position behind its end or is shown by an earlier bit. |
| Annotations.NinthName | src/backend/dml/dml_labels.c:933-942 | A vertex written under eight names is asked for a byte it does not have once the schema has nine. |
| Annotations.Port | src/backend/dml/dml_labels.c:926-1027 | Label removal carries over exactly the names the decoder finds that the target's schema also has. |
| Annotations.PortAndEncode | src/backend/dml/dml_labels.c:926-1034 | The moved vertex has exactly those annotations under its new label. |
| Annotations.PortIff | src/backend/dml/dml_labels.c:926-1034 | These are the vertex's own annotations that the target knows, whatever lies behind the bitset, if and only if the bitset reaches every name the two schemas share. |

## Left out

- RoundTrip: asks that every child is where its entries say; for values that break this it does not say for which payloads the bytes found by accident are the right ones.
- IterateAll: like RoundTrip, for bytes that can be read where the entries say.
- Reload: like RoundTrip, for bytes that can be read where the entries say.
- PushBinary: like RoundTrip, for bytes that can be read where the entries say.
- ToCString: like RoundTrip, for bytes that can be read where the entries say.
- ValueToGtype: the copying branch for a value that is already binary.
- TakeOut: the far vertex is not fetched, so its liveness error is not raised.
- TupleUpdate: the check and the mark are one step, although the buffer is released in between.
- MigrateVertexEdges: covers graphs in which edge ids are unique across labels and the new vertex has no edges yet.
- RenameBackRestores: covers transactions to which every row shows at most one version, as it does to a snapshot just taken.
- GrowSchema: nulls in a schema are kept, while the code hands null pointers to the array constructor for them.
- Which labels a new or dropped annotation name reaches: one label's schema at a time.
- What vertex_out prints of a bitset: it looks for the schema of the bitset's own time through previous versions that new schemas do not record.
- Aborts in the adjacency model: phys_map heads and chain pointers are updated in place, so every operation is taken as committed.
- prev pointers of arraylist blocks: compaction does not rewire the block behind the merged one, so only the forward chain is claimed for blocks.
- The liveness and the tuples of vertices while a vertex is moved: vertices are phys_map entries with a chain.
- Subtransactions: a transaction id is the current one or it is not.
- Snapshot tests of linked-list and arraylist records: they take every old transaction id as committed.
- delete_vertex, set_edge_label and remove_edge_label.
- drop_vlabel and drop_elabel: a scan like that of a rename that removes the first occurrence of the name from each path, and for vertices marks a table whose last token it was as no longer primary.
- The shared-memory caches of np_cache.c: lookups are taken to agree with the catalogs.
- Buffers, locks, WAL and relation creation: a page file is a sequence and an operation one step.
- The page formats of catalog rows: rows are values, and whether the last block has room for the next one is left open.
- Numeric, float, date and network conversions: a parameter of the parser and the printer; their payloads are opaque bytes.
- GTYPE_MAX_ELEMS, GTYPE_MAX_PAIRS, stack depth checks and array growth: memory limits.
- The contents of reserved bytes before they are written: taken as zero, which only shows in the four unread bytes of a time with time zone.
- Indented printing, error messages, line numbers, and readers past the end of the input for a minus sign at its very end.
- The library sort: any sort by the comparator, done here by insertion.
- Comparison, containment and access operators on gtype.
- The dictionary in vertex.c: its result is not used.
