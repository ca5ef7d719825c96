# Imperecta: verified models of the hard cores

Imperecta collects prices from online shops and serves them. This project models the parts of it whose
correctness is not visible from reading one function, and proves what each of them is for.

| file | what it models |
|---|---|
| `SearchIndex.dfy`, `SearchMeaning.dfy`, `IndexRefresh.dfy`, `IndexContents.dfy`, `SearchStaleness.dfy` | the in-memory name index: byte arenas in shards, leftmost scan with binary search, a delta layer, builds and refreshes while the database goes on changing, and what a search then shows twice or too late |
| `KeysetPaging.dfy`, `GridPages.dfy` | the product grid's keyset pagination: placeholders, predicate, ORDER BY, reversal, cursors, totals |
| `CanonicalEncoding.dfy`, `KeyAlphabets.dfy`, `ClientSigning.dfy`, `WriteGate.dfy`, `GateWrites.dfy`, `GateTables.dfy`, `GateBatch.dfy` | the signed write gate: canonical bytes on both sides, single writes, runs of writes, batched inserts |
| `HarvestRotation.dfy`, `HarvestWalk.dfy`, `HarvestSplit.dfy` | the harvest scheduler: which shops a tick picks, and the resumable walk over categories and pages |
| `ShardFanout.dfy`, `ShardStops.dfy` | the sitemap fan-out: a Redis counter and hash elect the finisher among concurrent shards, whose calls may be redelivered or die |
| `SqlSplitter.dfy`, `SqlTokens.dfy` | the SQL statement splitter of the first migration |
| `PriceNumbers.dfy`, `CurrencyWords.dfy`, `PriceText.dfy`, `PriceRoundTrip.dfy`, `PriceRules.dfy`, `PriceDates.dfy` | the price parser, for one number and for running text |
| `Common.dfy`, `Decimals.dfy` | shared vocabulary |

Code that changes things step by step is a method or a class with loops, proved against a specification
function; the promises are lemmas about that function, said on the inputs and outputs themselves: on a request's
and a listing's fields, a call's entries, a text's characters. Redis, SQL tables and fetches are values or
parameters. Redis commands are atomic and interleave one by one; a query that is in flight reads the
database as it was when the query began.

## Promises that hold only under a condition

Some promises fail for part of the inputs. Each has counterexamples and the exact condition under which it holds.

- A search equals the plain scan of the names on every index iff the needle holds no newline or starts with
  one. The comment at `data_ops/src/search_index.rs:31-32` claims that no match crosses entries; the code
  does not check the needle.
- The name index stays fresh in every state of a run iff no step loses a product. A pull loses one when it ends
  at a stamp without holding every active product of that stamp or finding it stored; a full pull can, because
  all products of one transaction share `updated_at`. A build or pull loses one that changed while its query
  ran, at or before the watermark it brings, unless it stores it as it is now. And a change loses one that it
  leaves at or before the watermark and not stored. The last two happen: a gate update of a name keeps
  `updated_at` (`backend/app/modules/ingestion/service.py:522-614`), and a transaction may commit after later
  ones. Such a product stays unfindable until it changes again or the index is rebuilt. If every change carries
  a later stamp than all before it, torn pulls are the only losses.
- No search returns a product twice iff two stored entries of one product share no octet; every search returns
  only products that hold the needle now iff every stored name is part of its product's current name. Both hold
  right after a build.
- Every run of ceil(N/6) ticks picks every shop iff there are at most six shops or every stored score lies
  before the first tick. A score equal to the first tick's time is enough to keep a shop waiting.
- Cutting a harvest into runs is invisible iff no category's next links come back to an earlier page, other
  than by a page linking to itself, within the 500-page cap: the visited set lives for one run.
- A completed fan-out returns a single total, and that with every shard recorded, iff each shard is delivered
  exactly once. The docstring at `backend/app/workers/onboarding_tasks.py:234-236` speaks of an idempotent
  record that returns the total to the last shard; the decrement is not idempotent, so a redelivered shard
  closes a run early, or stands in for a lost one. When calls may die after any command, no second and no
  partial total is possible iff each shard is delivered once or there are fewer deliveries than shards; a
  redelivery does no harm when the earlier call died before its decrement.
- Canonical bytes identify a write, over an alphabet of first keys, iff the alphabet lacks both value tags
  (`N` and `S`), or the colon, or every digit. Column names of lower-case letters, digits and underscores have
  no tag. A single key is safe when it holds no tag, number and colon in a row.
- A call passes the signature check iff a signature is given that fits the bytes, or is given while the table,
  the operation, a key or the text of an entry that is not flagged NULL is missing: then the bytes are NULL and
  the check's comparisons unknown. A NULL operation also passes the allow-list and ends as an insert.
- A text whose only digits are those of a date has no price, for every text, iff lowercasing keeps the octet
  length of every character: offsets are taken in the text and looked up in the lowered one, so ten letters that
  change their length move the date away from its numbers. A date that begins inside an earlier one of the same
  shape may be missed (`backend/rust_core/src/pricing.rs:208-217`).
- A printed amount is read back unless it is zero, or dots are used both for grouping and as the decimal mark.

## Model

| member | source | states |
|---|---|---|
| SearchIndex.FindSub | data_ops/src/search_index.rs:97-114 | hopping from first byte to first byte finds the leftmost occurrence, or there is none |
| SearchIndex.LookupEntry | data_ops/src/search_index.rs:77-84 | the binary search with its Err(i) mapping returns the last entry starting at or before the position |
| SearchIndex.ShardHits | data_ops/src/search_index.rs:68-95 | the capped scan loop equals the recursive scan: next match, its entry, on to the next entry |
| SearchIndex.SearchInto | data_ops/src/search_index.rs:47-65 | shards in order, each capped, then the delta names that contain the needle, all capped |
| SearchIndex.BuildShard | data_ops/src/search_index.rs:242-250 | names newline-terminated in one arena, entries with their u32 offsets and lengths in order |
| SearchIndex.Assemble | data_ops/src/search_index.rs:237-258 | the names cut into at most eight chunks in order, one shard per chunk, an empty delta |
| SearchIndex.ClipLower | data_ops/src/search_index.rs:222-235 | the longest prefix of the lowered, newline-free, NUL-free name that fits 120 octets and ends on a character boundary |
| SearchMeaning.ScanIsHits | data_ops/src/search_index.rs:68-95 | scanning an arena from the start of an entry finds what a name-by-name scan from that entry finds, capped |
| SearchMeaning.SearchIsPlainScan | data_ops/src/search_index.rs:46-66 | on every assembled index with any delta, a search is the first cap ids of the plain scan over base names in order and then delta |
| SearchMeaning.UnsafeNeedleDiffers | data_ops/src/search_index.rs:31-33 | for every needle with an inner newline and no leading one there is an index of distinct products whose search returns a product whose name does not contain it |
| SearchMeaning.SearchIsPlainScanExactly | data_ops/src/search_index.rs:46-66 | searches agree with the plain scan on every index of distinct products iff the needle holds no newline or starts with one |
| IndexContents.SearchFinds | data_ops/src/search_index.rs:46-66 | a search returns the ids at the first cap positions, in base and then delta, whose names hold the needle octet by octet |
| IndexContents.ClippedExactly | data_ops/src/search_index.rs:222-235 | a UTF-8 name stays UTF-8: its octets with spaces for newlines and NULs, whole up to 120 octets, else cut to 117 to 120 |
| IndexContents.ShardsAreBalanced | data_ops/src/search_index.rs:237-258 | at most eight shards, all but the last with an eighth of the names rounded up |
| IndexRefresh.Holder.constructor | data_ops/src/search_index.rs:121-125 | the index starts absent |
| IndexRefresh.Holder.Len | data_ops/src/search_index.rs:131-133 | the reported length is base plus delta, 0 before the first build |
| IndexRefresh.Holder.Absorb | data_ops/src/search_index.rs:185-195 | every row is appended under its clipped name and the watermark becomes the latest stamp |
| IndexRefresh.Holder.BuildFull | data_ops/src/search_index.rs:141-167 | a build replaces base, delta and watermark by those of the rows; a failed query changes nothing |
| IndexRefresh.Holder.RefreshDelta | data_ops/src/search_index.rs:169-219 | a refresh appends the pulled rows, or rebuilds when the delta would outgrow a tenth of the base, or changes nothing when there is no index, no row or an error |
| IndexContents.BuiltContents | data_ops/src/search_index.rs:141-167 | a build stores every row under its clipped name in order, an empty delta and the latest stamp |
| IndexContents.RefreshedContents | data_ops/src/search_index.rs:183-217 | a refresh stores the rows behind the old delta over the same base, and the latest stamp seen so far |
| IndexContents.RebuildsBeyondTenth | data_ops/src/search_index.rs:198-204 | a refresh becomes a rebuild iff ten times the new delta exceeds the base |
| IndexRefresh.PullComplete | data_ops/src/search_index.rs:174-181 | a pull misses no active product stamped before the new watermark, and none at all when it is below 20000 rows |
| IndexRefresh.RefreshIsFreshExactly | data_ops/src/search_index.rs:174-218 | a refresh that is not a rebuild keeps the index fresh iff every unchanged active product with the new watermark's stamp was pulled or is stored, and every product changed during the query at or before it is stored as it is now |
| IndexRefresh.BuildIsFreshExactly | data_ops/src/search_index.rs:141-167 | a build leaves the index fresh iff it stores, as it is now, every product that changed during its query at or before its watermark |
| IndexRefresh.ChangeIsFreshExactly | data_ops/src/search_index.rs:174-181 | a commit keeps the index fresh iff it leaves no changed active product at or before the watermark that is not stored |
| IndexRefresh.RenameIsFreshExactly | backend/app/modules/ingestion/service.py:540-611 | a product renamed with its stamp kept stays fresh iff the stamp is later than the watermark or the new clipped name is already stored under its id |
| IndexRefresh.RenameDuringBuild | backend/app/modules/ingestion/service.py:540-611 | renamed so while a build is in flight, it is fresh afterwards iff old and new name clip to the same |
| IndexRefresh.UnstampedRename | backend/app/modules/ingestion/service.py:540-611 | a run without a torn pull ends, after such a rename, in a state where the search for the current name finds nothing and no pull asks for the product |
| IndexRefresh.MissingUntilRebuilt | data_ops/src/search_index.rs:169-219 | a product stamped at or before the watermark and not stored under its name stays so over any further run until it changes or the index is rebuilt |
| IndexRefresh.ShortOrDistinctIsClean | data_ops/src/search_index.rs:174-181 | that is so when the pull was not full, and when no two products share a stamp |
| IndexRefresh.OneStampTooMany | data_ops/src/search_index.rs:174-197 | over every base of 200000 products or more, a transaction that stamps 20001 products leads a run to a state that has lost one of them |
| IndexRefresh.AlwaysFresh | data_ops/src/search_index.rs:141-219 | in every state reached without a loss each active product stamped at or before the watermark is stored under its current clipped name; in every reachable state delta is at most a tenth of base |
| IndexRefresh.FreshExactly | data_ops/src/search_index.rs:141-219 | whatever commits between and during queries, a run is fresh in all its states iff no pull tears a stamp, no change overtakes a query and no change at or before the watermark goes unstored |
| IndexRefresh.InOrderFreshExactly | data_ops/src/search_index.rs:141-219 | when every change carries a later stamp, a run is fresh in all its states iff none of its pulls tears a stamp |
| IndexRefresh.ShortPullCatchesUp | data_ops/src/search_index.rs:174-218 | a pull below its limit moves the watermark past every active product it could see |
| IndexRefresh.FreshProductIsFound | data_ops/src/search_index.rs:136-139 | in every state reached without a loss such a product is found by any safe part of its current name |
| SearchStaleness.ShowsOnceExactly | data_ops/src/search_index.rs:47-65 | no search returns a product twice iff two entries of one product in base and delta share no octet |
| SearchStaleness.ShowsCurrentExactly | data_ops/src/search_index.rs:47-65 | every search returns only active products whose current name holds the needle iff every stored name is part of its product's current clipped name |
| SearchStaleness.BuildShowsOnceAndCurrent | data_ops/src/search_index.rs:141-167 | a build of the current rows shows every product once and only under its current name |
| KeysetPaging.KeysetWhereExactly | data_ops/src/pool_products.rs:117-153 | under three-valued logic the predicate is true iff the row is strictly after (backwards: before) the cursor in key direction, NULLS LAST, id ascending |
| KeysetPaging.CursorCarriesSortKey | data_ops/src/pool_products.rs:328-339 | for keyset sorts the item field put into a cursor is the column the query sorts by |
| KeysetPaging.OrderClauseMeaning | data_ops/src/pool_products.rs:445-457 | the backward ORDER BY is the exact reverse of the forward one, which is the display order |
| KeysetPaging.DisplayComplete | data_ops/src/pool_products.rs:58-70 | the display order holds every row that passes the filter once, nothing else, strictly sorted by the sort's key |
| KeysetPaging.AssembleWheres | data_ops/src/pool_products.rs:401-443 | placeholders numbered while clauses are pushed meet the values bound later, in the page query and in the count query |
| KeysetPaging.ForwardRows | data_ops/src/pool_products.rs:434-457 | filter plus forward predicate, sorted, is the display order behind the cursor |
| KeysetPaging.BackwardRows | data_ops/src/pool_products.rs:434-457 | filter plus backward predicate, sorted backwards, is the reversed display order in front of the cursor |
| KeysetPaging.PoolProducts | data_ops/src/pool_products.rs:398-569 | the page is a slice of the display order, cursors sit at its ends under the stated conditions, totals are capped counts of the filtered rows |
| KeysetPaging.PageNoIsChunk | data_ops/src/pool_products.rs:543-569 | the k-th page along next cursors is the k-th chunk of the display order, and exists iff it starts at or before the end |
| KeysetPaging.WalkShowsEverythingOnce | data_ops/src/pool_products.rs:427-569 | following next cursors shows every filtered row once, in order, and ends after floor(n/limit)+1 pages, for every keyset sort and limit |
| KeysetPaging.PrevUndoesNext | data_ops/src/pool_products.rs:445-566 | from a non-empty page reached by a next cursor, prev shows the preceding page and its next cursor leads back |
| KeysetPaging.WalkBackShowsEverythingOnce | data_ops/src/pool_products.rs:445-566 | from any page that offers a prev cursor, following prev cursors shows every earlier row once, page by page in reverse, then one empty page that offers nothing |
| GridPages.SortNameMeaning | data_ops/src/pool_products.rs:58-70 | each sort name ascends or descends in its own field, NULLs last, ids ascending, and unknown names mean the most recent |
| GridPages.FilterMeaning | data_ops/src/pool_products.rs:401-426 | a listing passes iff it is active and in the searched set, the marketplace and the category the request names |
| GridPages.OffsetPageExactly | data_ops/src/pool_products.rs:345-347 | without a cursor, or under a percentage sort, the page is the grid from offset to offset plus limit, both clamped from the request |
| GridPages.CursorPageExactly | data_ops/src/pool_products.rs:427-493 | with a cursor the page is the limit listings shown next behind it, or the limit listings in front of it |
| GridPages.PageCursorsExactly | data_ops/src/pool_products.rs:542-566 | which cursors a page offers, and that they are taken from its last and first listing |
| GridPages.WalkShowsGrid | data_ops/src/pool_products.rs:427-569 | following next cursors shows the wanted listings once, in the order of the sort name |
| GridPages.TotalIsGridSize | data_ops/src/pool_products.rs:510-539 | the total is the number of wanted listings, capped at 10000 |
| CanonicalEncoding.BuildDictEnc | backend/alembic/versions/039_gate_security_definer_functions.py:97-122 | the accumulating loop yields the count followed by the length-prefixed entries in order, or NULL once a key or a needed text is missing |
| CanonicalEncoding.DictUnique | backend/alembic/versions/039_gate_security_definer_functions.py:97-122 | a dictionary in front of a non-digit remainder decodes in one way although its count has no delimiter |
| CanonicalEncoding.LongKeySwallowsTag | backend/alembic/versions/039_gate_security_definer_functions.py:106-116 | two readings that disagree on the count need a first key that holds a value tag, a number and a colon in a row |
| CanonicalEncoding.RecordUniquelyDecodable | backend/alembic/versions/039_gate_security_definer_functions.py:126-149 | records that have bytes have equal ones iff table, operation, locator and fields agree, for first keys without tag, number and colon in a row |
| CanonicalEncoding.BatchUniquelyDecodable | backend/alembic/versions/039_gate_security_definer_functions.py:156-188 | batches that have bytes have equal ones iff table, operation, locator and every row agree, under the same condition |
| CanonicalEncoding.RecordIsNoBatch | backend/alembic/versions/039_gate_security_definer_functions.py:126-188 | no record has the bytes of a batch |
| CanonicalEncoding.ColumnNamesArePlain | backend/alembic/versions/039_gate_security_definer_functions.py:629-647 | keys of lower-case letters, digits and underscores meet the condition of unique decoding |
| KeyAlphabets.DictsDecodeExactly | backend/alembic/versions/039_gate_security_definer_functions.py:97-122 | over an alphabet of first keys dictionaries with equal bytes are equal iff the alphabet lacks both tags, or the colon, or every digit |
| KeyAlphabets.RecordsDecodeExactly | backend/alembic/versions/039_gate_security_definer_functions.py:126-149 | the same for records: signed bytes determine the write iff the alphabet is such |
| KeyAlphabets.ArbitraryKeysCollide | backend/alembic/versions/039_gate_security_definer_functions.py:106-116 | with arbitrary keys a one-entry and an eleven-entry dictionary have equal bytes |
| ClientSigning.DictEncoded | backend/app/modules/data_firewall/signing.py:103-108 | the parts appended for the sorted keys, joined, are the client's dictionary bytes |
| ClientSigning.GateReadsSignedBytes | backend/app/modules/data_firewall/signing.py:111-128 | the bytes the gate rebuilds from what the client sent are the bytes the client signed, for every mapping |
| ClientSigning.GateReadsSignedBatch | backend/app/modules/data_firewall/signing.py:185-208 | the same for a batch of mappings |
| ClientSigning.SignedCallPasses | backend/alembic/versions/039_gate_security_definer_functions.py:670-674 | so a call the client signed passes the signature check |
| ClientSigning.SignedBytesDetermineWrite | backend/app/modules/data_firewall/signing.py:111-128 | two writes of named columns have equal signed bytes iff table, operation, locator and fields are equal |
| ClientSigning.BatchReadsSignedBytes | backend/alembic/versions/069_gate_exec_write_rows.py:94-104 | the locator the batch rebuilds from a row is the one the client signed with it |
| ClientSigning.LocatorTablesAgree | backend/app/modules/data_firewall/contracts.py:159-180 | client and gate name the same locator columns for every table the gate knows |
| WriteGate.Gate.RowFromEntries | backend/alembic/versions/039_gate_security_definer_functions.py:370-383 | the loop over entries builds the specified row, or fails on an unknown, missing or repeated column or a failed cast |
| WriteGate.Gate.InsertFromEntries | backend/alembic/versions/039_gate_security_definer_functions.py:350-390 | one row is appended if the constraints admit it, an empty entry list writes nothing, a failure changes nothing |
| WriteGate.Gate.WhereFromEntries | backend/alembic/versions/039_gate_security_definer_functions.py:481-495 | one equality per locator key, the first entry with the key giving the value, and NULL where its flag is set or missing |
| WriteGate.Gate.DeleteWhere | backend/alembic/versions/039_gate_security_definer_functions.py:499-502 | exactly the matching rows go, the rest keep their order, the count is returned |
| WriteGate.Gate.DeleteByLocator | backend/alembic/versions/039_gate_security_definer_functions.py:463-507 | the rows with the locator's key go; an empty locator key list is refused |
| WriteGate.Gate.SetFromEntries | backend/alembic/versions/039_gate_security_definer_functions.py:413-427 | the SET list is the non-locator fields, each column once |
| WriteGate.Gate.UpdateByLocator | backend/alembic/versions/039_gate_security_definer_functions.py:392-461 | exactly the matching rows take the changes in place and are counted; no changes is no statement |
| WriteGate.RetentionKeepsNewer | backend/alembic/versions/039_gate_security_definer_functions.py:511-537 | a retention delete leaves exactly the rows that are not older than the cutoff, in their order, counts the ones it removes, and removes nothing when repeated |
| WriteGate.Gate.RetentionDelete | backend/alembic/versions/039_gate_security_definer_functions.py:511-537 | afterwards a row is in the table iff it was and is not older than the cutoff; a NULL-flagged cutoff is refused, no other table changes |
| WriteGate.Gate.InsertDimDate | backend/alembic/versions/039_gate_security_definer_functions.py:541-581 | a row that breaks its own constraints raises, else a date that is there stays and counts 0, else the row is appended |
| WriteGate.Gate.ReplaceFromEntries | backend/alembic/versions/039_gate_security_definer_functions.py:706-747 | rows with the new row's key are deleted before it is inserted; a failed insert undoes the delete |
| WriteGate.AcceptedExactly | backend/alembic/versions/039_gate_security_definer_functions.py:221-264 | the signature check passes iff a signature is given and it fits the bytes or the table, the operation, a key or a needed text is missing |
| WriteGate.NullOperationInserts | backend/alembic/versions/039_gate_security_definer_functions.py:675-747 | a call without an operation ends on every known table as the insert of its fields, whatever its signature and the allow-list say |
| WriteGate.WritesAreListedExactly | backend/alembic/versions/039_gate_security_definer_functions.py:586-620 | a successful call is on the allow-list iff it has an operation |
| GateWrites.TableNames | backend/alembic/versions/039_gate_security_definer_functions.py:629-646 | every table has its own name |
| GateWrites.PermittedExactly | backend/alembic/versions/039_gate_security_definer_functions.py:586-612 | which tables may be inserted into, updated, deleted from and expired |
| GateWrites.UpdateWritesExactly | backend/alembic/versions/039_gate_security_definer_functions.py:392-461 | an accepted update gives every row its locator finds the cells its fields' texts cast to, NULL where flagged or missing, leaves the rest alone and counts the rows it finds |
| GateWrites.DeleteRemovesExactly | backend/alembic/versions/039_gate_security_definer_functions.py:463-507 | an accepted delete removes exactly the rows whose key columns hold the locator's values, and counts them |
| GateWrites.RetentionRemovesExactly | backend/alembic/versions/039_gate_security_definer_functions.py:511-537 | an accepted retention delete removes exactly the rows older than the given cutoff, and counts them |
| GateWrites.InsertWritesExactly | backend/alembic/versions/039_gate_security_definer_functions.py:702-747 | an accepted insert adds one row of exactly its fields' cells, on a price table in place of the rows with its key, and leaves a date that is there alone |
| GateWrites.RefusedExactly | backend/alembic/versions/039_gate_security_definer_functions.py:670-704 | which calls fail for their signature and which for their operation; a failure changes nothing |
| GateWrites.UpdateFailsExactly | backend/alembic/versions/039_gate_security_definer_functions.py:392-461 | an update fails on its data iff a field has no column of its own or does not cast, a key it needs does not cast, or the constraints refuse the table it would leave |
| GateWrites.DeleteFailsExactly | backend/alembic/versions/039_gate_security_definer_functions.py:463-507 | a delete fails on its data iff a key does not cast |
| GateWrites.RetentionFailsExactly | backend/alembic/versions/039_gate_security_definer_functions.py:511-537 | a retention delete fails on its data iff its column is no column of the table or its cutoff no timestamp |
| GateWrites.InsertFailsExactly | backend/alembic/versions/039_gate_security_definer_functions.py:350-390 | an insert fails on its data iff a field has no column of its own or does not cast, the key it replaces does not cast, or the constraints refuse the row |
| WriteGate.Gate.ExecWrite | backend/alembic/versions/039_gate_security_definer_functions.py:655-756 | signature, allow-list, locator and table checks in order, then the operation on that table only; an error rolls back |
| GateTables.ReplaceKeysAreLocatorKeys | backend/alembic/versions/039_gate_security_definer_functions.py:622-649 | the columns an insert deletes on are the locator columns, and these tables allow insert and delete only |
| GateTables.ReplaceIsPut | backend/alembic/versions/039_gate_security_definer_functions.py:706-747 | delete-then-insert is a put into the map from key to row and keeps keys unique |
| GateTables.WriteIsMapWrite | backend/alembic/versions/039_gate_security_definer_functions.py:690-747 | every accepted write to a price or market table is one put or remove on its map; a NULL in a delete's key removes nothing |
| GateTables.ReplaceTablesAreMaps | backend/alembic/versions/039_gate_security_definer_functions.py:656-750 | over any run of calls such a table has at most one row per key and equals the map of its accepted writes, the last one winning |
| GateTables.DatesNeverChange | backend/alembic/versions/039_gate_security_definer_functions.py:541-581 | over any run of calls the date table only grows at its end and has one row per date |
| GateTables.OtherTablesUnchanged | backend/alembic/versions/039_gate_security_definer_functions.py:655-756 | a call changes no table but its own, and none when it fails |
| GateTables.UpdateKeepsKeys | backend/alembic/versions/039_gate_security_definer_functions.py:392-461 | an update moves no row, changes no key column and no row outside its locator |
| GateTables.UpdateKeepsOtherColumns | backend/alembic/versions/039_gate_security_definer_functions.py:392-461 | an update leaves every column alone that its fields do not name, the update stamp included |
| GateBatch.ReadRow | backend/alembic/versions/069_gate_exec_write_rows.py:113-121 | the inner loop yields the keys in order and the JSON object in which later entries win, and fails iff a key is missing |
| GateBatch.InsertPayload | backend/alembic/versions/069_gate_exec_write_rows.py:129-155 | columns are resolved first, then all rows go in with one statement or none does |
| GateBatch.ExecWriteRows | backend/alembic/versions/069_gate_exec_write_rows.py:68-156 | checks and loops yield the specified batch result; the tables change only on success |
| GateBatch.SameRow | backend/alembic/versions/069_gate_exec_write_rows.py:129-155 | on fitting columns without a missing key the select from the JSON object builds the row the single insert builds; on others the single insert fails |
| GateBatch.SingleInsert | backend/alembic/versions/039_gate_security_definer_functions.py:655-756 | a single insert into a pool table succeeds iff it is signed, builds a row and the row is admitted, and then appends it |
| GateBatch.BatchRefinesSingles | backend/alembic/versions/069_gate_exec_write_rows.py:80-155 | on rows with one shared non-empty column list the batch succeeds iff the single signed inserts all do, leaves the same tables and returns the row count; otherwise nothing changes |
| GateBatch.MixedRowsChangeNothing | backend/alembic/versions/069_gate_exec_write_rows.py:122-126 | a batch whose rows differ in their columns fails as a whole |
| GateBatch.BatchFailsExactly | backend/alembic/versions/069_gate_exec_write_rows.py:68-127 | which batches are refused, and that the first faulty row decides the error: signature, then missing key, then other columns |
| HarvestRotation.Rotation.PickRotationShops | backend/app/workers/harvest_tasks.py:411-424 | the first count codes of the stable ranking are picked and only they are stamped with the tick's time |
| HarvestRotation.PickIsStalest | backend/app/workers/harvest_tasks.py:418-420 | six shops (or all) are picked and none left behind is staler, whatever the input order and ties |
| HarvestRotation.PickedByStoredTimes | backend/app/workers/harvest_tasks.py:411-424 | the picks are the asked number of different codes in the order of their stored times, and nobody left behind should have come before them |
| HarvestRotation.NeverRunGoesFirst | backend/app/workers/harvest_tasks.py:411-419 | when a shop with a positive stored time is picked, every shop without one is |
| HarvestRotation.StampIs | backend/app/workers/harvest_tasks.py:421-423 | the picked shops are stored with the tick's time, all others as before |
| HarvestRotation.BoundedWaiting | backend/app/workers/harvest_tasks.py:411-424 | any ceil(N/6) consecutive ticks pick every shop, however ties break, when no score lies ahead of the clock |
| HarvestRotation.EarlierScoresFirst | backend/app/workers/harvest_tasks.py:418-420 | no shop has its turn before every shop with an earlier score had one |
| HarvestRotation.FutureScoreStarves | backend/app/workers/harvest_tasks.py:418-423 | with more than six shops and a score ahead of the clock the first ceil(N/6) ticks miss a shop |
| HarvestRotation.TieStarves | backend/app/workers/harvest_tasks.py:418-423 | with more than six shops and a score equal to the first tick's time, some run of ceil(N/6) ticks never picks that shop |
| HarvestRotation.WaitingBoundExactly | backend/app/workers/harvest_tasks.py:411-424 | every run of ceil(N/6) ticks from a given time picks every shop, however ties break, iff at most six are eligible or every score lies before that time |
| HarvestRotation.EverybodyRunsAtFirst | backend/app/workers/harvest_tasks.py:411-424 | from an empty store and a positive clock the first ceil(N/6) ticks pick every shop |
| HarvestWalk.Harvest | backend/app/workers/harvest_tasks.py:258-323 | the cursor loop ends where the recursive walk ends, with its fetches and its offer average, and stops early only for the budget |
| HarvestWalk.FetchMeaning | backend/app/workers/harvest_tasks.py:296-321 | what one fetch records, and when the next link is followed: there, new, and not beyond the 500th page |
| HarvestWalk.OnePageMore | backend/app/workers/harvest_tasks.py:280-321 | a run of one page more goes on with one more fetch, unless the budget had stopped it |
| HarvestWalk.PageMovesAverage | backend/app/workers/harvest_tasks.py:307 | a counted page moves the average a fifth of the way to its number of offers |
| HarvestWalk.FirstHarvestOpensAll | backend/app/workers/harvest_tasks.py:117-129 | a shop without a stored cursor starts with its first category and opens all of them once and in order |
| HarvestWalk.RunKeepsValid | backend/app/workers/harvest_tasks.py:280-321 | a stored position never holds an empty link or a page past the cap, and a link exactly off the first page |
| HarvestWalk.LoadUndoesSave | backend/app/workers/harvest_tasks.py:117-143 | loading a saved cursor restores the position exactly and the rounded average |
| HarvestWalk.PassesAreBoundedAndOrdered | backend/app/workers/harvest_tasks.py:280-321 | for any site behaviour and any cut into runs a pass takes at most 500 fetches per category, opens every category once and in order, and that many fetches complete it |
| HarvestSplit.StraightSplits | backend/app/workers/harvest_tasks.py:273-323 | on non-repeating chains a run of a and one of b fetch what one of a+b fetches and end alike |
| HarvestSplit.BudgetStopIsInvisible | backend/app/workers/harvest_tasks.py:291-323 | a run stopped by the budget and resumed through the stored cursor equals one uninterrupted run |
| HarvestSplit.RepeatShows | backend/app/workers/harvest_tasks.py:271-321 | every repeating chain has a position and a cut at which the two differ |
| HarvestSplit.SplittingIsInvisibleExactly | backend/app/workers/harvest_tasks.py:271-323 | all cuts are invisible iff no category's chain of next links repeats within the page cap |
| ShardFanout.ChunkSubfiles | backend/app/workers/onboarding_tasks.py:371-374 | every sub-sitemap is in one chunk, in order, three to a chunk but for the last |
| ShardFanout.RunKeys.constructor | backend/app/workers/onboarding_tasks.py:375-379 | the counter starts at the number of chunks, hash and set empty |
| ShardFanout.RunKeys.StashShardCategories | backend/app/workers/onboarding_tasks.py:202-215 | the categories join the run's set, an empty list does nothing |
| ShardFanout.RunKeys.TotalCounts | backend/app/workers/onboarding_tasks.py:248-249 | the total is the sum of the recorded counts |
| ShardFanout.RunKeys.RecordShardDone | backend/app/workers/onboarding_tasks.py:231-251 | undisturbed, the call records, decrements and returns the total iff the counter is exhausted |
| ShardFanout.RunKeys.PopRunCategories | backend/app/workers/onboarding_tasks.py:218-228 | the set is returned and emptied |
| ShardFanout.TotalsReturned | backend/app/workers/onboarding_tasks.py:231-251 | for any deliveries and interleaving the n-th and every later decrement returns a total; exactly one total iff there are n deliveries |
| ShardFanout.TotalNeverDoubleCounts | backend/app/workers/onboarding_tasks.py:239-249 | a returned total has one addend per shard, the latest recorded one, and never exceeds the per-shard maxima |
| ShardFanout.ExactlyOneFinisher | backend/app/workers/onboarding_tasks.py:464-482 | with each shard delivered once, in any order and every interleaving, one call returns the sum over all shards and publishes all categories, every other call returns none |
| ShardFanout.FinishesExactly | backend/app/workers/onboarding_tasks.py:231-251 | a completed run returns one total, computed with every shard recorded, iff each shard is delivered exactly once |
| ShardFanout.RedeliveryFinishesEarly | backend/app/workers/onboarding_tasks.py:243-249 | a shard delivered twice can close a two-shard run before the other shard began |
| ShardFanout.LostShardGoesUnnoticed | backend/app/workers/onboarding_tasks.py:243-249 | a two-shard run in which one shard is delivered twice and the other never completes with one total that lacks the other |
| ShardStops.TotalsWithStops | backend/app/workers/onboarding_tasks.py:231-251 | with calls that die after any command, every decrement from the n-th on returns a total, except by a call that died before reading the counts |
| ShardStops.RedeliveryAfterDeath | backend/app/workers/onboarding_tasks.py:239-249 | when only one call of each shard decrements, wherever others died, at most one total is returned and it is full; one is returned iff all shards decremented and the last went on to read |
| ShardStops.NeverWrongExactly | backend/app/workers/onboarding_tasks.py:231-251 | over every interleaving and every death no second and no partial total is returned iff each shard is delivered exactly once or there are fewer deliveries than shards |
| SqlSplitter.ProbeWord | backend/alembic/versions/001_v2_schema.py:71-73 | the probe stops at the end of the word behind a dollar sign |
| SqlSplitter.SplitSqlStatements | backend/alembic/versions/001_v2_schema.py:13-96 | the index loop with look-ahead computes the trimmed pieces between the cuts of a character automaton |
| SqlSplitter.CutsSound | backend/alembic/versions/001_v2_schema.py:23-94 | putting the cut semicolons back restores the text; no piece holds a semicolon outside quotes and every joint is outside quotes |
| SqlSplitter.CutsComplete | backend/alembic/versions/001_v2_schema.py:23-94 | such a list of pieces is the only one for its join |
| SqlSplitter.SplitUndoesJoin | backend/alembic/versions/001_v2_schema.py:13-96 | splitting the join of trimmed statements without top-level semicolons that end outside quotes returns them |
| SqlSplitter.SplitIsIdempotent | backend/alembic/versions/001_v2_schema.py:13-96 | for every text, joining its statements and splitting again changes nothing |
| SqlSplitter.ResplitStatement | backend/alembic/versions/001_v2_schema.py:13-96 | every statement of a split is a single statement on its own |
| SqlTokens.SplitsBetweenTokens | backend/alembic/versions/001_v2_schema.py:13-96 | a batch of words, quoted sections, dollar-quoted bodies and placeholders is cut at exactly the semicolons between them |
| SqlTokens.StripExactly | backend/alembic/versions/001_v2_schema.py:81-83 | trimming takes away the white space at both ends and nothing else |
| SqlTokens.StatementsRestoreText | backend/alembic/versions/001_v2_schema.py:13-96 | every text is its statements again once the white space around them and the semicolons are put back |
| PriceNumbers.SpacingIsIgnored | backend/rust_core/src/pricing.rs:232-236 | white space around a number and around its decimal mark changes nothing |
| PriceNumbers.NormalizeWhole | backend/rust_core/src/pricing.rs:237-277 | an amount without fraction normalizes to its bare digits under every grouping |
| PriceNumbers.NormalizePrinted | backend/rust_core/src/pricing.rs:241-277 | an amount with fraction normalizes to digits, dot, fraction under every readable pair of marks |
| PriceNumbers.ParseUndoesPrint | backend/rust_core/src/pricing.rs:231-283 | an amount of any length printed with groups of three (comma, dot, space, none) and up to two decimals parses to exactly itself; zero and dots in both roles are the only forms that do not |
| PriceNumbers.PrintsAreUnambiguous | backend/rust_core/src/pricing.rs:231-283 | readable printed amounts that look alike are equal, across styles |
| PriceNumbers.ThreeDecimalsAreGroups | backend/rust_core/src/pricing.rs:250-271 | one to three digits, a comma, dot or space and three digits are read as one whole number: 1.234 as 1234 |
| CurrencyWords.TokenWithBoundaries | backend/rust_core/src/pricing.rs:136-156 | found iff some occurrence, overlapping ones included, has no word character beside it |
| CurrencyWords.ParseCurrencySymbol | backend/rust_core/src/pricing.rs:159-173 | a code iff a one-character symbol occurs anywhere or a longer one as a whole word, and then the code of the first such symbol of the table |
| CurrencyWords.ParseCurrencyCode | backend/rust_core/src/pricing.rs:176-189 | a code iff a textual code occurs as a whole word, and then that of the longest one, the first of the table among equally long ones |
| CurrencyWords.DetectCurrency | backend/rust_core/src/pricing.rs:191-193 | the symbol's code if there is a symbol, else the longest textual code's, else none |
| CurrencyWords.CurrencyMeaning | backend/rust_core/src/pricing.rs:136-193 | a text names a currency iff it shows a one-character symbol, or a longer one or a textual code that no word character touches |
| CurrencyWords.EuroSignDecides | backend/rust_core/src/pricing.rs:13-34 | a euro sign anywhere makes the currency EUR |
| CurrencyWords.LongerAbbreviationDecides | backend/rust_core/src/pricing.rs:176-189 | the Belarusian abbreviation, which ends in the Russian one, makes it BYN |
| PriceText.BoundaryDown | backend/rust_core/src/pricing.rs:357-365 | the last character boundary at or before an octet offset |
| PriceText.BoundaryUp | backend/rust_core/src/pricing.rs:367-375 | the first character boundary at or behind an octet offset, or the end |
| PriceRules.OctetsByBits | backend/rust_core/src/pricing.rs:313-315 | octet offsets count each character by the bits of its code point |
| PriceRules.WhiteSpace | backend/rust_core/src/pricing.rs:232 | trimming a number removes the 25 white space characters of Unicode |
| PriceText.CollectCandidates | backend/rust_core/src/pricing.rs:298-341 | the scan judges the pattern's non-overlapping matches from left to right, with the words within twenty octets and the dates around them |
| PriceText.ParsePriceText | backend/rust_core/src/pricing.rs:287-355 | the price is the best of those candidates in the trimmed text with plain spaces, or none |
| PriceText.BestLeads | backend/rust_core/src/pricing.rs:346-350 | the chosen candidate is one that no other precedes by score and amount |
| PriceText.BestHeadsEverySort | backend/rust_core/src/pricing.rs:346-350 | the chosen candidate heads every arrangement of the candidates sorted by score and amount |
| PriceText.PriceWins | backend/rust_core/src/pricing.rs:343-354 | a price is positive, at most 5,000,000 and unbeaten; there is none iff nothing was found or the winner is above that |
| PriceRules.NumberShape | backend/rust_core/src/pricing.rs:120-123 | a number is all leading digits, behind at most three of them all groups, and a fraction of one or two digits if there is one |
| PriceRules.NearMeaning | backend/rust_core/src/pricing.rs:309-315 | the words near a number are those in the lowered text within twenty octets, on whole characters |
| PriceRules.ContextWords | backend/rust_core/src/pricing.rs:90-109 | which words speak for a number and which against it |
| PriceRules.AheadIsPrecedes | backend/rust_core/src/pricing.rs:320-350 | the places of numbers by company and size: currency and a good word first, a bad word last |
| PriceRules.PriceIsLeader | backend/rust_core/src/pricing.rs:287-355 | the price is the amount of the leading number; there is none iff no number competes or the leader is above five million |
| PriceRules.CompanyDecides | backend/rust_core/src/pricing.rs:320-331 | of two numbers alike in all else the one near a currency or a good word, or not near a bad word, is the price |
| PriceDates.InDateMeaning | backend/rust_core/src/pricing.rs:208-217 | a range that shares an octet with an isolated date of either shape stands in a date, and only one that shares an octet with a date does |
| PriceDates.DatedNumberIsNone | backend/rust_core/src/pricing.rs:305-308 | a number that shares an octet with an isolated date is never a candidate |
| PriceDates.OverlappingDateIsMissed | backend/rust_core/src/pricing.rs:208-217 | a date that begins inside an earlier one of its shape is missed |
| PriceDates.DatesHaveNoPriceExactly | backend/rust_core/src/pricing.rs:287-308 | no text whose only digits are those of a date has a price, iff lowercasing keeps octet lengths |
| PriceRoundTrip.PrintedToken | backend/rust_core/src/pricing.rs:120-123 | the number pattern matches a printed amount whole and nothing behind it, whatever text follows that does not continue the number |
| PriceRoundTrip.NotInDate | backend/rust_core/src/pricing.rs:208-217 | no date pattern meets a printed amount among text without digits |
| PriceRoundTrip.YearIsBare | backend/rust_core/src/pricing.rs:219-229 | a printed amount passes for a year iff it is a whole number from 1900 to 2099 printed without grouping |
| PriceRoundTrip.PriceTextRoundTrip | backend/rust_core/src/pricing.rs:287-355 | a printed amount in text without other digits is the price, unless it is zero, above 5,000,000, dotted in both roles, or a bare year with no currency nearby |

## Left out

- HTTP, Postgres, Redis, Celery and PyO3 plumbing; time-to-live settings, so a run whose counter expires while shards are parked is not modelled; Redis failures: a shard whose own commands fail returns no total, and when only the coordinator's SET fails the counter starts from nothing and every shard returns one.
- Signatures: an abstract predicate over canonical bytes and the signature text; the vault, grants and roles are not modelled. NULL tables, operations, keys, flags and texts are modelled; a batch row whose field list is itself NULL is not.
- Gate errors other than signature, operation and mixed rows are one error without a text. Types, casts, constraints, triggers and cascades are parameters of the environment.
- The gate's `exec_write_batch` beyond its encoding, and later migrations that add tables to the allow-list.
- GateBatch.BatchRefinesSingles: constraints are asked row by row as the statement adds rows, in the batch as in the single inserts.
- GateTables.ReplaceTablesAreMaps: inserts that leave a key column out or NULL are excluded; the tables' own constraints are parameters.
- Cursor text: base64url (section 5 of RFC 4648), JSON and the casts of key values are taken to be faithful; keys are integers because only their order matters.
- KeysetPaging.PoolProducts: the search phase in front of it, the category pattern match and the sparklines are not modelled; the search yields a set of listing ids.
- Lowercasing is an abstract function; a name is a string of octets.
- SearchMeaning.SearchIsPlainScan: each chunk's arena is taken to be addressable by u32 offsets; beyond that the offsets wrap in the model as in the code.
- IndexRefresh.Holder.RefreshDelta: the ratio 0.10 is the exact decimal.
- The harvester's list-mode probe, page quotas, offer ingestion and counters.
- HarvestRotation.BoundedWaiting: the set of eligible shops is fixed and ticks do not overlap.
- HarvestSplit.StraightSplits: the shop answers each URL alike over the whole span and a fetch has an answer.
- ShardFanout.ExactlyOneFinisher: a marketplace that cannot be loaded, for which the finisher publishes nothing, is not modelled.
- SqlSplitter.SplitSqlStatements: str.isalnum and str.strip are abstract character classes that exclude quotes, dollar signs and semicolons.
- PriceNumbers.ParseUndoesPrint: amounts are exact reals, so the rounding and overflow of f64 are not modelled; nor are signs, exponents, inf and nan, which the number pattern never yields.
- PriceText.ParsePriceText: lowercasing maps single characters and keeps digits, and digits are the ASCII ones.
- CurrencyWords.DetectCurrency: the table of ambiguous tokens is not modelled.
- Weekly rollups, reaper windows, entitlements, locale tables, quality scoring, HTML extraction, the frontend and the ORM declarations.
