# WhatsCdc change-set assembly, modelled in Dafny

WhatsCdc is a .NET client for SQL Server change data capture (CDC). Its core assembles a
`ChangedSet` for a capture instance, in these steps:

- It resolves the starting LSN. When the caller passes none, it uses the instance's minimum LSN.
- It reads the current maximum LSN.
- It fetches the raw change rows between the two LSNs.
- It maps each row into a `ChangedRow`. The five `__$` metadata columns become typed fields and the
  other columns go into `Row`.
- It fills the changed columns of update rows from the update mask. The names come from a helper
  function that decodes the mask's bits. A per-call cache keyed by the mask's `byte[]` object
  avoids repeated lookups.
- In all-changes mode, it merges each `UpdateOld` row into the `Update` row that follows it.
- A broken pair throws `CdcWithoutCorrespondingOperationException`. That error is retried once, in
  all-changes mode only.

Around this core sit several smaller parts:

- the guards that enable and disable CDC and install the `dbo` helper functions;
- the case-insensitive de-duplication and grouping of capture-instance listings;
- the null and blank checks;
- the closed value sets: operation codes, row-filter options, exception types and reserved column
  names.

## How the model is built

| Module (file) | Models |
|---|---|
| `Wrappers`, `Strings`, `CiMaps` | Option/Result values; `string.IsNullOrWhiteSpace` and `StringComparer.OrdinalIgnoreCase`; a case-insensitive `Dictionary<string, V>` as an insertion-ordered list of entries |
| `Consts`, `Enums`, `Exceptions` | `Consts.cs`, `Enums.cs`, `Exceptions.cs` |
| `Extensions` | the pure helpers and the reader loops of `Extensions.cs` |
| `Db` | the SQL Server connection, as a class `Database` |
| `SqlFunctions` | the T-SQL of the three helper functions (`fn_GetBit1FromHex`, `fn_cdc_GetChangedColumns`, `fn_cdc_GetBinaryColumns`) |
| `CdcUtility` | `CdcUtility.cs` |
| `ChangedRows` | the row mapper and the changed-column retrieval of `ChangedRow.cs` |
| `Merge` | `MergeChangesAsync` |
| `Changes` | `ChangedSet` and `GetChangesAsync` with its two public wrappers |
| `Cdc` | the other public operations of `Cdc.cs` |

The `Database` class works as follows:

- It answers from a fixed `Server` value. That value holds oracle functions for the min and max
  LSN, the change rows, the captured columns, the instance listings and the procedure return
  codes.
- It keeps logs of what was asked: catalog steps, procedures, queries and fetches.
- It keeps the set of helper functions present and the database's CDC flag.
- The max LSN is read from a sequence indexed by a read counter, because it can move between two
  reads.
- Every `byte[]` it hands out is a `ByteArray(ref, bytes)`. `ref` is the object's identity. A ghost
  heap records each array's contents.

Exceptions are values of `ExceptionType`, which carries the .NET base-class relation. A throwing
operation returns `Failure(type)` or `Fail(type)`.

Mutable objects of the source are Dafny classes whose methods state their whole new state:

- `Database`;
- `ChangedSet`, whose `Rows`, `LastLsn` and `IsNet` are set by the orchestrator;
- the mask cache `MaskCache`, a `Dictionary<byte[], List<string>>`.

`ChangedRow` and `ChangedColumnValue` are values. The merge is a method with a loop over a `seq`
that removes the `UpdateOld` row in place. After the removal it leaves the index where it is, which
is the net effect of the source's `i--` followed by the loop's `i++`. It is proved equal
to a recursive specification `MergeSpec`, and the properties of the merge are lemmas about
`MergeSpec`.

The retry loop of `GetChangesAsync` is a `while` loop with the `hasRetried` flag. Its outcome is
described by the ghost predicate `Changes.Finished`. Either the last attempt found no max LSN, or
its rows and LSN were recorded, or its exception propagates. An attempt may happen twice only when
the first threw a retryable exception in all-changes mode.

Where the code and a plain reading of the library's intent differ, the model follows the code:

- The mask cache is keyed by the `byte[]` reference, not by its contents. Two equal masks read as
  two arrays are looked up twice.
- A retry re-reads only the maximum LSN. The starting LSN and the cache are kept.
- With no usable starting LSN, `Rows` stays null. With no maximum LSN, `Rows` is an empty list.
  `LastLsn` stays null in both cases.
- Only `CdcWithoutCorrespondingOperationException` is retried. `CdcRequireRetrieveChangedColumnsException`
  does not derive from `CdcRequireRetryException` and propagates at once.
- `DisableTableAsync` asks `HasTableCdcEnabledAsync` about the bare source name, without the schema
  (src/Dao.WhatsCdc/Cdc.cs:66). `EnableTableAsync` asks about `schema.sourceName` instead.
- A blank capture instance counts as "all instances" in `HasTableCdcEnabledAsync`. Yet
  `CdcApi.DisableTableAsync` rejects it. So `DisableTableAsync(name, null)` on a table with
  capture instances throws `ArgumentNullException` (lemma `Cdc.BlankInstanceDisablesNothing`).
- `GetChangesAsync` checks the capture instance with `CheckNull(captureInstance)`: it passes the
  value itself as the parameter name. Only the exception type is modelled, so this is invisible
  here.
- `GetCaptureInstancesAsync` with a source name adds `AND t.name = @SourceName`
  (src/Dao.WhatsCdc/Cdc.cs:108), but `t` is `cdc.change_tables`, which has no `name` column; the
  table's name is `o.name`. The server rejects that statement, so the model's named-source listing
  fails with `SqlException` and only the unfiltered listing returns groups.

## Model

| member | source | states |
|---|---|---|
| Strings.AllWhiteSpace | src/Dao.WhatsCdc/Extensions.cs:14 | a string is all white space iff every character is a white-space character |
| Strings.FoldAt | src/Dao.WhatsCdc/ChangedRow.cs:51 | folding maps each character on its own, position by position |
| Strings.EqualsIgnoreCaseIsOrdinal | src/Dao.WhatsCdc/Extensions.cs:30 | case-insensitive equality holds iff the lengths agree and every pair of characters agrees after upper-casing |
| CiMaps.IndexOf | src/Dao.WhatsCdc/ChangedRow.cs:73 | a lookup finds the first entry whose key equals the key ignoring case, and finds none iff no key does |
| CiMaps.Set | src/Dao.WhatsCdc/ChangedRow.cs:79 | after the indexer's assignment the key maps to the value; every other key keeps its value; unique keys stay unique; a new key is appended and an existing key keeps the key list |
| CiMaps.Add | src/Dao.WhatsCdc/Extensions.cs:85 | Dictionary.Add succeeds iff no key equals the new one ignoring case, and then appends the entry |
| CiMaps.AddMeaning | src/Dao.WhatsCdc/Extensions.cs:85 | Add succeeds iff the key is absent, then equals the indexer's assignment and keeps keys unique |
| CiMaps.IndexOfIgnoresCase | src/Dao.WhatsCdc/ChangedRow.cs:51 | two keys equal ignoring case find the same entry |
| CiMaps.GetSnoc | src/Dao.WhatsCdc/ChangedRow.cs:79 | after an entry is appended, a lookup finds the earlier entry if there is one, else the new entry when its key matches |
| CiMaps.UniqueKeysSnoc | src/Dao.WhatsCdc/ChangedRow.cs:97-111 | a list of entries has unique keys iff its prefix has and the last key is new |
| CiMaps.AddAllMeaning | src/Dao.WhatsCdc/ChangedRow.cs:97-111 | adding entries one by one succeeds iff their keys are pairwise distinct ignoring case, and then gives them in order |
| CiMaps.AddAllPrefixFails | src/Dao.WhatsCdc/Extensions.cs:82-86 | once adding a prefix throws, adding all the entries throws |
| Consts.FoldedName | src/Dao.WhatsCdc/Consts.cs:13-17 | each reserved column name folds to its stated upper-case form |
| Consts.ReservedNamesDistinct | src/Dao.WhatsCdc/Consts.cs:13-17 | the five metadata names are pairwise different even ignoring case |
| Consts.HelperNamesDistinct | src/Dao.WhatsCdc/Consts.cs:6-8 | the three helper function names are pairwise different |
| Enums.FromCode | src/Dao.WhatsCdc/Enums.cs:54-62 | casting any int to CdcOperation gives a well-formed operation (named for 0..5, unnamed otherwise) |
| Enums.CodeRoundTrip | src/Dao.WhatsCdc/Enums.cs:54-62 | the cast and the underlying value are mutually inverse |
| Enums.NamedCodes | src/Dao.WhatsCdc/Enums.cs:56-61 | None=0, Delete=1, Insert=2, UpdateOld=3, Update=4, InsertOrUpdate=5 |
| Enums.ValuesIdentifyOptions | src/Dao.WhatsCdc/Enums.cs:11-52 | in each string enumeration, distinct options have distinct values, so the string sent identifies the option |
| Exceptions.RetryableSplit | src/Dao.WhatsCdc/Exceptions.cs:7-12 | the missing-operation error is a CdcRequireRetryException; the unresolved-columns error is not |
| Exceptions.OnlyConcreteRetryable | src/Dao.WhatsCdc/Exceptions.cs:10-12 | a concrete exception type is retryable iff it is CdcWithoutCorrespondingOperationException |
| Exceptions.LibraryErrorsAreCdcExceptions | src/Dao.WhatsCdc/Exceptions.cs:5-12 | a type is a CdcException iff it is one of the library's four exception types |
| Extensions.AllZero | src/Dao.WhatsCdc/Extensions.cs:32 | `All(a => a == 0)` holds iff every byte is zero |
| Extensions.IsNullEmptyOrZero | src/Dao.WhatsCdc/Extensions.cs:32 | true iff the array is null or all its bytes are zero (empty included); otherwise some byte is non-zero |
| Extensions.CheckNull | src/Dao.WhatsCdc/Extensions.cs:12-16 | throws ArgumentNullException iff the string is null, empty or white space only |
| Extensions.CheckNotNull | src/Dao.WhatsCdc/Extensions.cs:18-22 | throws ArgumentNullException iff the object is null |
| Extensions.IsForAllInstances | src/Dao.WhatsCdc/Extensions.cs:29-30 | true iff the instance is blank or equals "all" ignoring case |
| Extensions.ForAllInstancesSpellings | src/Dao.WhatsCdc/Extensions.cs:29-30 | every letter-case spelling of "all" selects all instances; a named instance such as "dbo_all" does not |
| Extensions.AsNullable | src/Dao.WhatsCdc/Extensions.cs:40 | the result is never DBNull, and any other value is returned unchanged |
| Extensions.AsDBNull | src/Dao.WhatsCdc/Extensions.cs:41 | the result is never null, and any other value is returned unchanged |
| Extensions.NullConversionsRoundTrip | src/Dao.WhatsCdc/Extensions.cs:40-41 | AsNullable(AsDBNull(x)) == x for x not DBNull; AsDBNull(AsNullable(x)) == x for x not null; both nulls normalise to null |
| Extensions.ToList | src/Dao.WhatsCdc/Extensions.cs:66-77 | one element per reader row, in read order, each the callback's value for its row |
| Extensions.RowMapMeaning | src/Dao.WhatsCdc/Extensions.cs:79-89 | a row converts iff its field names are distinct ignoring case, and then holds one entry per field, in order, with DBNull read as null |
| Extensions.ReadRow | src/Dao.WhatsCdc/Extensions.cs:80-88 | the Add loop over the fields builds exactly RowMap of the row |
| Extensions.ToDictionaryList | src/Dao.WhatsCdc/Extensions.cs:79-89 | succeeds iff every row's names are distinct ignoring case, giving one map per row in read order; otherwise throws ArgumentException |
| Db.Database.constructor | src/Dao.WhatsCdc/Cdc.cs:9-12 | a connection to the given server, with nothing asked yet |
| Db.Database.GetValueNullable | src/Dao.WhatsCdc/Extensions.cs:43 | the boxed value of a raw column, with SQL NULL read as null and binary read into a new array |
| Db.Database.ReadRecords | src/Dao.WhatsCdc/Extensions.cs:79-89 | the reader's rows boxed field by field, names kept, in order |
| Db.Database.ObjectExists | src/Dao.WhatsCdc/CdcUtility.cs:10-15 | OBJECT_ID finds a helper function iff it is present; the lookup is logged |
| Db.Database.CreateFunction | src/Dao.WhatsCdc/CdcUtility.cs:24-54 | CREATE FUNCTION succeeds iff the name is free, and then adds it |
| Db.Database.DropFunction | src/Dao.WhatsCdc/CdcUtility.cs:62 | DROP FUNCTION succeeds iff the function exists, and then removes it |
| Db.Database.IsCdcEnabled | src/Dao.WhatsCdc/CdcUtility.cs:165-166 | is_cdc_enabled of the current database |
| Db.Database.Instances | src/Dao.WhatsCdc/CdcUtility.cs:172-176 | the capture instances of the table named |
| Db.Database.Exec | src/Dao.WhatsCdc/CdcApi.cs:172-176 | a stored procedure's return code; enabling and disabling CDC on the database set and clear the flag |
| Db.Database.MinLsn | src/Dao.WhatsCdc/CdcApi.cs:53-57 | the instance's minimum LSN as a new array, or null |
| Db.Database.MaxLsn | src/Dao.WhatsCdc/CdcApi.cs:50-51 | the next maximum-LSN reading as a new array, or null; the read counter advances |
| Db.Database.Changes | src/Dao.WhatsCdc/CdcApi.cs:15-28 | the fetch is logged; it fails with ArgumentException iff some row has two names equal ignoring case; otherwise it gives the server's rows as maps |
| Db.Database.ChangedColumns | src/Dao.WhatsCdc/Cdc.cs:80-85 | the names fn_cdc_GetChangedColumns reports for the mask's BIGINT value |
| Db.Database.BinaryColumns | src/Dao.WhatsCdc/Cdc.cs:94-98 | the names fn_cdc_GetBinaryColumns reports |
| Db.Database.SourceNames | src/Dao.WhatsCdc/Cdc.cs:123-134 | the listed source names, filtered by instance when one is given |
| Db.Database.CaptureTables | src/Dao.WhatsCdc/Cdc.cs:103-116 | the unfiltered listing gives the server's (source, instance, net) rows; a named source fails with SqlException, since the `t.name` filter names no column of cdc.change_tables |
| SqlFunctions.DecodeMembership | src/Dao.WhatsCdc/CdcUtility.cs:36-49 | position p is returned iff the value is positive, p >= 1 and bit p-1 is set |
| SqlFunctions.DecodeNonPositive | src/Dao.WhatsCdc/CdcUtility.cs:44-49 | a zero or negative BIGINT decodes to no positions |
| SqlFunctions.DecodeIncreasing | src/Dao.WhatsCdc/CdcUtility.cs:41-49 | the positions come out strictly increasing, so each appears once |
| SqlFunctions.DecodeBound | src/Dao.WhatsCdc/CdcUtility.cs:39-49 | every decoded position lies in 1..63 |
| SqlFunctions.ChangedColumnsFn | src/Dao.WhatsCdc/CdcUtility.cs:80-94 | a name is reported iff some captured column of that name passes the WHERE clause; no more names than captured columns |
| SqlFunctions.ChangedColumnsMeaning | src/Dao.WhatsCdc/CdcUtility.cs:80-94 | a column is reported iff its ordinal is a set bit of a positive mask (bit 0 is ordinal 1), its source column exists, is not identity and is not timestamp |
| SqlFunctions.IsChangedIff | src/Dao.WhatsCdc/CdcUtility.cs:85-94 | the SQL filter over decoded positions agrees with the bit rule, column by column |
| SqlFunctions.BinaryColumnsFn | src/Dao.WhatsCdc/CdcUtility.cs:122-133 | a name is reported iff some captured column of that name has a source column of type image, varbinary or binary |
| CdcUtility.CreateFn | src/Dao.WhatsCdc/CdcUtility.cs:19-22 | afterwards the function is present; the catalog sees a lookup, then CREATE only when it was absent |
| CdcUtility.DropFn | src/Dao.WhatsCdc/CdcUtility.cs:57-63 | afterwards the function is absent; the catalog sees a lookup, then DROP only when it was present |
| CdcUtility.CreateFns | src/Dao.WhatsCdc/CdcUtility.cs:147-152 | all three helpers are present, created in the order bit decoder, changed columns, binary columns |
| CdcUtility.DropFns | src/Dao.WhatsCdc/CdcUtility.cs:154-159 | no helper is left, dropped in the order changed columns, bit decoder, binary columns |
| CdcUtility.HelperDependencyOrder | src/Dao.WhatsCdc/CdcUtility.cs:147-158 | when both are created, the bit decoder is created before the function that calls it; when both are dropped, it is dropped after |
| CdcUtility.HasDbCdcEnabled | src/Dao.WhatsCdc/CdcUtility.cs:165-166 | the database's CDC flag, read with one query |
| CdcUtility.TableCdcEnabledMeaning | src/Dao.WhatsCdc/CdcUtility.cs:178-181 | no instance: false; two or more: true whatever is asked; exactly one: true iff the instance asked for is blank, "all" or that instance ignoring case |
| CdcUtility.HasTableCdcEnabled | src/Dao.WhatsCdc/CdcUtility.cs:168-182 | a blank source name throws before any query; otherwise the decision over the table's instances |
| ChangedRows.ReservedColumnMeaning | src/Dao.WhatsCdc/ChangedRow.cs:51-58 | a column name selects a metadata mapping iff it equals that column's name ignoring case |
| ChangedRows.MapFields | src/Dao.WhatsCdc/ChangedRow.cs:66-81 | the foreach over the source computes MapAll |
| ChangedRows.MapAllPrefixFails | src/Dao.WhatsCdc/ChangedRow.cs:71-81 | once an entry's cast throws, the whole mapping throws that exception |
| ChangedRows.MapAllSucceeds | src/Dao.WhatsCdc/ChangedRow.cs:53-57 | the mapping throws iff some metadata column's value does not cast |
| ChangedRows.MapAllFirstFailure | src/Dao.WhatsCdc/ChangedRow.cs:71-81 | a throwing mapping throws the exception of the first entry that does not cast |
| ChangedRows.MapAllMapped | src/Dao.WhatsCdc/ChangedRow.cs:71-81 | on a dictionary, a mapping that does not throw reads each typed field from its column (null when absent) and puts every other column into Row, in order |
| ChangedRows.MapAllMeaning | src/Dao.WhatsCdc/ChangedRow.cs:51-81 | the three facts together: throws iff a cast fails, then the first; otherwise the column-by-column row |
| ChangedRows.MaskFromSource | src/Dao.WhatsCdc/ChangedRow.cs:56 | the row's update mask is one of the source's own byte[] objects |
| ChangedRows.WithColumnsMeaning | src/Dao.WhatsCdc/ChangedRow.cs:97-111 | ToDictionary succeeds iff names are distinct ignoring case (else ArgumentException); one entry per name; the Row value is the old value with HasOldValue for UpdateOld, the new value otherwise; nothing else changes |
| ChangedRows.RetrievedMeaning | src/Dao.WhatsCdc/ChangedRow.cs:88-112 | a row that skips retrieval is unchanged; otherwise only ChangedColumns changes, to the columns for its mask; failure is ArgumentException |
| ChangedRows.MaskCache.constructor | src/Dao.WhatsCdc/Cdc.cs:155 | the per-call cache starts empty |
| ChangedRows.RetrieveChangedColumns | src/Dao.WhatsCdc/ChangedRow.cs:88-112 | skipping rows change nothing; otherwise a hit on this very byte[] reuses the cached list with no query and no catalog step, a miss installs the two decoder helpers if missing, queries once and caches under that array; a coherent cache stays coherent and gives what the server reports |
| ChangedRows.ToChangedRow | src/Dao.WhatsCdc/ChangedRow.cs:60-86 | a null source gives null with nothing asked and no helper installed; with no instance, the mapped row or the mapping's error, with nothing asked and no helper installed; otherwise the mapped row with its changed columns, equal to what the server reports |
| Merge.CopyOldValues | src/Dao.WhatsCdc/ChangedRow.cs:139-146 | the inner foreach computes CopyOld |
| Merge.MergeChanges | src/Dao.WhatsCdc/ChangedRow.cs:114-166 | the in-place loop over the list gives exactly MergeSpec: the merged list or the exception |
| Merge.GoSuccess | src/Dao.WhatsCdc/ChangedRow.cs:123-165 | with nothing pending, the merge succeeds iff the rest is well paired; while waiting, iff an Update candidate comes next and the rest after it is well paired |
| Merge.MergeSucceedsIff | src/Dao.WhatsCdc/ChangedRow.cs:114-166 | the merge completes iff every candidate has changed columns and every UpdateOld candidate is directly followed by an Update candidate |
| Merge.TrailingUpdateOldFails | src/Dao.WhatsCdc/ChangedRow.cs:163-165 | an UpdateOld candidate at the end of the list makes the merge throw |
| Merge.GoErrors | src/Dao.WhatsCdc/ChangedRow.cs:128-135 | the merge throws only the two CDC exceptions, the unresolved-columns one only when some candidate lacks changed columns |
| Merge.MergeErrors | src/Dao.WhatsCdc/ChangedRow.cs:128-165 | the same, for the whole list |
| Merge.GoPaired | src/Dao.WhatsCdc/ChangedRow.cs:114-166 | on well-paired input the loop yields the pairing |
| Merge.MergeIsPairing | src/Dao.WhatsCdc/ChangedRow.cs:114-166 | on the input it accepts, the merge replaces each UpdateOld/Update pair by the merged Update row and keeps every other row, in order |
| Merge.PairedLength | src/Dao.WhatsCdc/ChangedRow.cs:149 | the list shrinks by exactly one row per pair |
| Merge.PairedSettled | src/Dao.WhatsCdc/ChangedRow.cs:148-150 | after pairing no UpdateOld candidate is left and every candidate is resolved |
| Merge.SettledUnchanged | src/Dao.WhatsCdc/ChangedRow.cs:123-126 | a settled list passes the merge unchanged |
| Merge.MergeIdempotent | src/Dao.WhatsCdc/ChangedRow.cs:114-166 | merging a merged list changes nothing, and the first merge removed one row per pair |
| Merge.CopyOldKeys | src/Dao.WhatsCdc/ChangedRow.cs:139-146 | the merged columns are the Update row's columns, in its order |
| Merge.CopyOldGet | src/Dao.WhatsCdc/ChangedRow.cs:139-146 | each merged column keeps the Update row's new value and takes old value and HasOldValue from the UpdateOld row's column of that name, if any |
| Merge.MergePairMeaning | src/Dao.WhatsCdc/ChangedRow.cs:137-148 | the merged row is the Update row with only ChangedColumns and the merged flag replaced; its keys are the Update row's, with the old values copied in |
| Changes.ChangedSet.constructor | src/Dao.WhatsCdc/ChangedRow.cs:33-39 | a set with the given instance, source name and binary columns, and no rows or LSN |
| Changes.DistinctKeepsFirst | src/Dao.WhatsCdc/ChangedRow.cs:37 | FirstOrDefault of the de-duplicated names is the first name listed |
| Changes.CreateChangedSet | src/Dao.WhatsCdc/ChangedRow.cs:33-39 | a fresh set holding the first source name of the instance and its binary columns |
| Changes.ConvertAllSuccess | src/Dao.WhatsCdc/Cdc.cs:166-169 | conversion succeeds iff every fetched row converts, row i giving result i |
| Changes.ConvertAllFailure | src/Dao.WhatsCdc/Cdc.cs:166-169 | a failed conversion fails with the error of the first row that does not convert |
| Changes.ConvertedErrors | src/Dao.WhatsCdc/ChangedRow.cs:53-111 | a row conversion throws only a bad metadata cast (InvalidCastException, NullReferenceException) or a repeated changed-column name (ArgumentException) |
| Changes.RetryableMeansBrokenPair | src/Dao.WhatsCdc/Cdc.cs:165-176 | an attempt's exception is retryable iff it is all-changes mode and the merge met an UpdateOld without its Update |
| Changes.AssembledAllChanges | src/Dao.WhatsCdc/Cdc.cs:165-172 | a successful all-changes attempt yields the pairing of the converted rows, one row fewer per pair, with nothing left to merge |
| Changes.ConvertInto | src/Dao.WhatsCdc/Cdc.cs:166-169 | Rows receives the converted rows in fetch order, or the first conversion error is returned |
| Changes.FetchUpTo | src/Dao.WhatsCdc/Cdc.cs:165 | one fetch of the range from the start LSN to the maximum LSN just read, in the mode and filter asked for |
| Changes.AssembleInto | src/Dao.WhatsCdc/Cdc.cs:166-172 | Rows holds the assembled rows (merged unless net), or the assembly's exception is returned |
| Changes.Attempt | src/Dao.WhatsCdc/Cdc.cs:160-174 | one max-LSN read; no LSN: empty Rows, no fetch; else one fetch, and either the assembled rows with LastLsn set to that LSN, or the exception with LastLsn unchanged |
| Changes.RetryAfterFailure | src/Dao.WhatsCdc/Cdc.cs:176-183 | an attempt that threw a retryable exception made exactly one fetch, and that fetch's assembly is why |
| Changes.FirstAttemptFinishes | src/Dao.WhatsCdc/Cdc.cs:176-181 | a first attempt that passes, throws a non-retryable error, or runs in net mode ends the call |
| Changes.SecondAttemptFinishes | src/Dao.WhatsCdc/Cdc.cs:179-182 | the attempt after a retry ends the call whatever it does |
| Changes.RetriedOnlyOnBrokenPair | src/Dao.WhatsCdc/Cdc.cs:155-183 | two attempts happen only in all-changes mode after the first merge met an UpdateOld row without its Update |
| Changes.AfterAttempt | src/Dao.WhatsCdc/Cdc.cs:176-183 | each turn of the loop either finishes the call or goes round once more with the retry pending |
| Changes.Retrying | src/Dao.WhatsCdc/Cdc.cs:155-183 | at most two attempts (one in net mode), each re-reading the max LSN, ending as Finished describes |
| Changes.FetchFrom | src/Dao.WhatsCdc/Cdc.cs:146-183 | the min LSN replaces a null or zero starting LSN; none leaves Rows null with nothing fetched; otherwise the attempts from that LSN |
| Changes.GetChanges | src/Dao.WhatsCdc/Cdc.cs:139-184 | a blank instance throws first, with no query, fetch, max-LSN read or helper change; the set carries instance, first source name, binary columns and mode; no start LSN: Rows and LastLsn null, no fetch; else the attempts with the chosen filter end as Finished describes |
| Changes.GetAllChanges | src/Dao.WhatsCdc/Cdc.cs:186-187 | all-changes fetches only, filtered "all update old" unless told otherwise, at most two max-LSN reads |
| Changes.GetNetChanges | src/Dao.WhatsCdc/Cdc.cs:189-190 | net fetches only, filtered "all with mask" unless told otherwise, at most one max-LSN read |
| Cdc.EnableDb | src/Dao.WhatsCdc/Cdc.cs:14-22 | 0 and no procedure when CDC is already on, else sp_cdc_enable_db's code; CDC ends on and the helpers are installed |
| Cdc.DisableDb | src/Dao.WhatsCdc/Cdc.cs:24-31 | the helpers are dropped first; then sp_cdc_disable_db's code when CDC was on, else 0; CDC ends off |
| Cdc.DefaultCaptureInstanceMeaning | src/Dao.WhatsCdc/Cdc.cs:45-46 | the default name is schema_name, with "_Net" appended exactly in net mode, and never selects all instances |
| Cdc.ApiEnableTable | src/Dao.WhatsCdc/CdcApi.cs:182-207 | a blank schema or table name throws before anything runs; otherwise sp_cdc_enable_table with the arguments given |
| Cdc.ApiDisableTable | src/Dao.WhatsCdc/CdcApi.cs:209-221 | a blank schema, table or instance throws before anything runs; otherwise sp_cdc_disable_table |
| Cdc.EnableTable | src/Dao.WhatsCdc/Cdc.cs:33-62 | a blank schema throws first, with no query, procedure, helper or CDC flag change; then CDC is on for the database and the table is enabled under the chosen name unless already enabled; the chosen name is returned |
| Cdc.DisableTable | src/Dao.WhatsCdc/Cdc.cs:64-68 | 0 when CDC is off or the table is not enabled for the instance; otherwise sp_cdc_disable_table's result |
| Cdc.BlankInstanceDisablesNothing | src/Dao.WhatsCdc/Cdc.cs:64-68 | a blank instance counts as enabled on a table with instances, yet it is the value the API then rejects |
| Cdc.GetChangedColumns | src/Dao.WhatsCdc/Cdc.cs:70-86 | a blank instance throws; a null, empty or all-zero mask gives no names without touching the server; otherwise both functions are installed and the server's answer is returned |
| Cdc.GetBinaryColumns | src/Dao.WhatsCdc/Cdc.cs:88-99 | a blank instance throws; otherwise the function is installed and the binary columns returned |
| Cdc.DistinctIgnoreCaseCovers | src/Dao.WhatsCdc/Cdc.cs:136 | every input name is represented in the case-insensitive Distinct |
| Cdc.DistinctIgnoreCasePairwise | src/Dao.WhatsCdc/Cdc.cs:136 | no two names of the Distinct are equal ignoring case |
| Cdc.DistinctIgnoreCaseFirst | src/Dao.WhatsCdc/Cdc.cs:136 | each kept name is spelled as at its first occurrence |
| Cdc.DistinctIgnoreCaseMeaning | src/Dao.WhatsCdc/Cdc.cs:136 | the three facts together |
| Cdc.GetSourceNames | src/Dao.WhatsCdc/Cdc.cs:121-137 | the listed source names (filtered by a non-blank instance), de-duplicated ignoring case |
| Cdc.GroupBySourceKeys | src/Dao.WhatsCdc/Cdc.cs:118 | the group keys are the distinct source names, in first-seen order |
| Cdc.GroupBySourceUnique | src/Dao.WhatsCdc/Cdc.cs:118 | no two group keys are equal ignoring case |
| Cdc.GroupBySourceMeaning | src/Dao.WhatsCdc/Cdc.cs:118 | keys unique and distinct names, and a lookup of any name finds exactly the rows of that name, in order |
| Cdc.GetCaptureInstances | src/Dao.WhatsCdc/Cdc.cs:101-119 | a blank source name gives the whole listing grouped by source name ignoring case; a non-blank one ends in SqlException from the `t.name` filter |

## Left out

- Async/await, `ConfigureAwait`, command timeouts and connection lifetime: every database call is one
  sequential call on `Database`.
- Server errors of queries and procedures: any `ExecuteReaderAsync`, `ExecuteScalarAsync` or
  stored-procedure call can throw `SqlException` (for example when the instance has no
  `cdc.fn_cdc_get_<kind>_changes_<instance>` function, CdcApi.cs:22). `GetChangesAsync` does not
  retry these (Cdc.cs:176-183); they propagate from the first attempt. The model's server answers
  every query and procedure, except CREATE/DROP on a name clash and the named capture-instance
  listing.
- Default arguments: `sourceSchema = "dbo"` (Cdc.cs:36, 64) and `captureInstance = "all"` in
  `DisableTableAsync` (Cdc.cs:64, CdcApi.cs:209) are not filled in. Callers of `Cdc.EnableTable`
  and `Cdc.DisableTable` pass `Some("dbo")` and `Some("all")` themselves.
- Db.Database.ObjectExists: ignores the type argument of `OBJECT_ID` ('TF' for the bit decoder,
  'IF' for the other two helpers, CdcUtility.cs:21, 67, 110) and looks the name up among the
  helpers only. In the source, an object of the same name but another type reads as absent and the
  CREATE that follows throws; the model has no objects other than the helpers, so
  `CdcUtility.CreateFn` always succeeds.
- SQL text, parameter binding and the `Execute*` helpers of `Extensions.cs` (lines 45-177): the
  model says what each query answers, not how it is sent.
- The server's catalogs, its LSN values and the contents of change rows are fields of the `Server`
  value. The `WHERE` filters of the instance and source-name listings are left to it too.
- `CAST(@HexValue AS BIGINT)`: the mask's integer value is a server oracle (`maskValue`), and the
  decoding rule is stated over it.
- Case-insensitive comparison folds ASCII letters only. .NET's ordinal upper-casing of other letters
  is not modelled.
- Exception messages, parameter names and inner exceptions: a failure is its exception type.
- `UpdateTime` is kept as a tick count and business column values as opaque tags.
- The generic `IsNullEmptyOrZero<T>` overload (Extensions.cs:34-36): the core does not call it.
- `ToKeyValueListAsync` and `ToEnumerable`: the core does not call them.
- The `?? []` at Cdc.cs:85: the reader helper never returns null, so that branch is not reachable
  and not modelled.
- The null-argument defaults for `cdc`, `captureInstance` and `cache` in `ToChangedRowAsync`: the
  orchestrator always passes all three. The model keeps only the blank-instance check.
- The null-list case of `MergeChangesAsync` (ChangedRow.cs:116): `GetChangesAsync` always passes a
  list, so the model's input is a sequence, and the empty one passes unchanged.
- `ChangedColumnValue` objects are values. In the source, the merged row's column objects are
  updated in place. No other reference to them exists during the merge, so no aliasing is lost.
- Partial state after a failure: when an attempt throws, the exception propagates and the model
  does not describe the half-filled `Rows` list.
- CdcApi.cs operations other than the change fetch, the LSN reads and the enable/disable
  procedures: jobs, cleanup, DDL history, LSN arithmetic and time mapping. They are passthroughs to
  server procedures.
- ChangeTable.cs is a property bag; it is the `ChangeTable` datatype.
- Changes.GetChanges: does not restate the heap facts (`HeapExtends`) that its sub-methods prove,
  since callers never hold byte arrays across calls.
- Changes.GetAllChanges and Changes.GetNetChanges: state the mode, filter and attempt bound, and
  leave the full outcome to Changes.GetChanges.
