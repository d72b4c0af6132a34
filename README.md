# ocilib type-info cache

A model of the type-information cache of ocilib (`src/typeinfo.c`).

`OCI_TypeInfoGet` takes a connection, an object name and a requested kind (table, view or user type). It works in four steps:

- It normalises the name into an upper-cased schema and object name.
- It walks the connection's list of `OCI_TypeInfo` entries for one of the same kind whose name and schema match, ignoring case.
- On a miss, it appends a new entry and describes the object. Each reported object kind is checked against the request. A synonym is resolved by calling `OCI_TypeInfoGet` again on the name it points to. Otherwise the offsets and columns are filled in.
- It counts one reference on the entry it hands out. If anything failed, or the name was a synonym, it releases the appended entry again.

`OCI_TypeInfoFree` drops one reference. When the count reaches zero, it removes the entry from the list and closes it (`OCI_TypeInfoClose`). The accessors read single fields. `GetColumn` bounds-checks a 1-based index.

The model has two layers.

- **Values (`CacheSpec`).** The cache is a sequence of `Entry` values.
  - `Resolve` and `Lookup` compute what one call of `OCI_TypeInfoGet` returns and the list it leaves behind. The result is a position in the new list, or `None` for NULL.
  - `Build`, `TableLike` and `Materialize` give the describe switch and the column materialisation.
  - `Complete` and `Settle` give the reference counting and cleanup at the end of the call.
  - `Release` gives `OCI_TypeInfoFree`.
  - The lemmas in `CacheLemmas` state what these promise.
- **Heap (`TypeInfoCache`).** `TypeInfo` and `Connection` are classes whose fields are updated in place.
  - `Connection.tinfs` is the list.
  - `Connection.Get` is `OCI_TypeInfoGet`, written as the C code is: walk, append, describe, recurse on synonyms, count and release.
  - Each method is proved to change the list exactly as the value layer says. `Connection.Cache()` is the list's values.
  - `Get` keeps every entry listed before the call at its place. When `Free` removes an entry, the entries after it move down by one.

The database server stands in as a `Server` value with three parts:

- a catalog from qualified names to describe results;
- a per-ordinal column oracle;
- the function that builds a synonym's full target name.

Synonym chains are bounded by a `fuel` argument. A cyclic chain that comes back to the synonym's own name is modelled as the C code behaves: the inner call finds the outer call's placeholder entry, which is still in the list.

## Model

| member | source | states |
|---|---|---|
| Names.NormalizeName | src/typeinfo.c:113-153 | the (schema, object) pair is `Normalize(name)`: split at the first dot, object cut to OCI_SIZE_OBJ_NAME, each part upper-cased unless it starts with a double quote; the object part never exceeds OCI_SIZE_OBJ_NAME |
| Names.UpperInPlace | src/typeinfo.c:137-153 | the character-by-character upper-casing loop yields `UpperAll` of its input |
| Names.FirstDot | src/typeinfo.c:115-125 | the scan stops at the first `.`: none before it, or none at all when it reports none |
| Names.SplitNoDot | src/typeinfo.c:127-130 | a name without a dot gives an empty schema and the whole (truncated, folded) name as object |
| Names.SplitAtDot | src/typeinfo.c:115-124 | text before the first dot is the schema (not truncated) and text after it the object (truncated) |
| Names.SplitTrailingDot | src/typeinfo.c:115-130 | a name ending in its first dot keeps the schema and takes the whole input as object, since nothing followed the dot |
| Names.ObjectBounded | src/typeinfo.c:113-133 | the normalised object name is at most OCI_SIZE_OBJ_NAME characters long |
| Names.FoldUpper | src/typeinfo.c:137-153 | an unquoted part keeps its length and contains no lower-case letter after folding |
| Names.FoldIdempotent | src/typeinfo.c:137-153 | folding a folded part changes nothing |
| Names.CharCase | src/typeinfo.c:167-168 | two characters agree after lower-casing iff they agree after upper-casing |
| Names.EqualIgnoreCaseIffUpper | src/typeinfo.c:167-168 | the case-insensitive comparison of the walk holds iff the upper-cased strings are equal |
| Names.NormalizeExamples | src/typeinfo.c:113-153 | concrete names: a plain name is upper-cased, a quoted name kept as is, a schema-qualified name split and upper-cased |
| Catalog.FirstFailure | src/typeinfo.c:478-491 | the first ordinal whose column describe or map fails, all before it succeeding |
| Catalog.DescribeColumns | src/typeinfo.c:472-496 | the column loop produces `ColumnsSpec`: ordinals 1..n in order, stopping at the first failure |
| Catalog.ColumnsMeaning | src/typeinfo.c:472-496 | the column array has n slots; success iff every ordinal 1..n is described; on success slot i holds ordinal i+1, on failure the slots from the first failing ordinal are blank |
| CacheLemmas.BuildKeeps | src/typeinfo.c:281-496 | the describe switch keeps name, schema, reference count, layout size and alignment, and leaves a well-formed entry |
| CacheLemmas.MaterializeWf | src/typeinfo.c:413-496 | materialisation gives as many offsets and columns as the column count |
| CacheLemmas.TableLikeWf | src/typeinfo.c:345-366 | the table/view branch leaves a well-formed entry |
| CacheLemmas.BuildPlaceholder | src/typeinfo.c:281-496 | on a fresh entry: success with the requested kind iff the reported kind is accepted for the request and every column describes; then exactly the expected columns (1 for a collection), offsets all -1, columns in ordinal order, and a collection's element type code |
| CacheLemmas.CompleteFresh | src/typeinfo.c:508-536 | a fresh entry is kept with counter 1 iff the call succeeded and the kinds agree; otherwise the list is as before |
| CacheLemmas.CompleteSynonym | src/typeinfo.c:368-535 | after a synonym the placeholder is released and the target's outcome (NULL, an older entry, the placeholder itself, a new entry) becomes the caller's |
| CacheLemmas.ResolveShape | src/typeinfo.c:81-539 | every call either returns NULL and leaves the list, returns an older entry of the requested kind one count up, or appends exactly one new entry of the requested kind with counter 1 whose identity no older entry has |
| CacheLemmas.LookupShape | src/typeinfo.c:155-536 | the same three outcomes for the walk-and-describe part on a normalised name |
| CacheLemmas.SynonymOutcome | src/typeinfo.c:368-535 | the synonym branch keeps the three-outcome shape |
| CacheLemmas.OutcomeKind | src/typeinfo.c:514-521 | whatever a call hands out has the requested kind |
| CacheLemmas.ResolveHit | src/typeinfo.c:157-512 | on a hit the matching entry (same kind, name and schema equal up to case) is returned one count up and nothing is appended |
| CacheLemmas.ResolveUndescribed | src/typeinfo.c:198-536 | a name the server cannot describe gives NULL and leaves the list as it was |
| CacheLemmas.ResolveDescribed | src/typeinfo.c:178-536 | for a non-synonym: success iff the kind is accepted and all columns describe; then exactly one entry appended with requested kind, normalised name and schema, counter 1, zero size and alignment, the expected column count and offsets all -1; otherwise NULL and the list unchanged |
| CacheLemmas.ResolveSynonym | src/typeinfo.c:368-535 | a synonym looks up its target's full name with the same kind and builds no columns; the caller receives the target's outcome and the synonym's own entry is dropped, unless the chain returned that entry itself |
| CacheLemmas.ResolveAt | src/typeinfo.c:395-512 | a nested lookup that hands out an entry already listed (the synonym's own placeholder, for a chain that comes back) only counts one more reference on it |
| CacheLemmas.ResolvePreserves | src/typeinfo.c:81-539 | every listed entry stays referenced, well formed, and unique by (kind, name, schema) |
| CacheLemmas.BumpPreserves | src/typeinfo.c:508-512 | one more reference on a listed entry keeps every entry live, well formed and unique |
| CacheLemmas.AppendedPreserves | src/typeinfo.c:180-197 | appending a live entry whose identity no older entry has keeps every entry live, well formed and unique |
| CacheLemmas.BumpThenRelease | src/typeinfo.c:545-568 | releasing the reference just counted on a live entry gives back the list as it was |
| CacheLemmas.ReleasePreserves | src/typeinfo.c:545-568 | releasing a listed entry keeps every entry live, well formed and unique by (kind, name, schema) |
| CacheLemmas.ReleaseToZeroMisses | src/typeinfo.c:554-559 | once the last reference is released, the walk no longer finds that identity, so the next lookup of it misses |
| CacheLemmas.ResolveThenRelease | src/typeinfo.c:508-568 | releasing what a successful call returned gives back the list as it was before the call |
| CacheLemmas.FindIs | src/typeinfo.c:157-176 | the walk stops at the first matching entry |
| CacheLemmas.ResolveAgain | src/typeinfo.c:157-176 | asking again for a name whose call handed out an entry with that identity returns the same entry one count up and appends nothing |
| TypeInfoCache.TypeInfo.Stamp | src/typeinfo.c:180-197 | a new list item is zeroed and stamped with the requested kind, the connection, the normalised name and schema |
| TypeInfoCache.TypeInfo.FillColumns | src/typeinfo.c:413-496 | the entry gets the column count (1 for a collection), offsets all -1 and the columns as `Materialize` says |
| TypeInfoCache.TypeInfo.Describe | src/typeinfo.c:281-367 | the describe switch updates the entry and reports success as `Build` says |
| TypeInfoCache.Close | src/typeinfo.c:51-71 | a descriptor gives up its columns, name, schema and offsets; NULL reports failure |
| TypeInfoCache.Free | src/typeinfo.c:545-568 | one reference fewer; exactly at zero the entry leaves its connection's list and is closed; otherwise only the counter changes; success for every descriptor |
| TypeInfoCache.GetType | src/typeinfo.c:574-587 | the stored kind; OCI_UNKNOWN for NULL |
| TypeInfoCache.GetConnection | src/typeinfo.c:593-606 | the owning connection; NULL exactly for NULL |
| TypeInfoCache.GetColumnCount | src/typeinfo.c:612-625 | the column count; 0 for NULL |
| TypeInfoCache.GetColumn | src/typeinfo.c:631-646 | a column exactly for indices 1..nb_cols, namely `cols[index-1]`; NULL otherwise |
| TypeInfoCache.GetName | src/typeinfo.c:652-665 | the object name; NULL exactly for NULL |
| TypeInfoCache.ColumnsInRange | src/typeinfo.c:637-642 | GetColumn succeeds for exactly the indices 1..GetColumnCount and lists the column array in order |
| TypeInfoCache.Connection.Walk | src/typeinfo.c:157-176 | the position of the first entry of the requested kind whose name and schema match up to case, or none |
| TypeInfoCache.Connection.Retain | src/typeinfo.c:508-512 | one reference more on a listed entry, nothing else changes |
| TypeInfoCache.Connection.Drop | src/typeinfo.c:545-568 | the list changes as `Release` says; the entry stays listed iff its counter stays non-zero |
| TypeInfoCache.Connection.Get | src/typeinfo.c:81-539 | the list and the entries change exactly as `Resolve` says; NULL iff `Resolve` gives none; otherwise the returned descriptor is the listed one at the predicted position and has the requested kind; entries already listed keep their places |
| TypeInfoCache.Connection.Obtain | src/typeinfo.c:81-539 | the body of `Get`, against a predicted outcome (also the synonym recursion) |
| TypeInfoCache.Connection.Search | src/typeinfo.c:155-536 | walk, then hit or load, as `Lookup` says |
| TypeInfoCache.Connection.Load | src/typeinfo.c:178-536 | a miss: append, describe, complete, as `Lookup` says |
| TypeInfoCache.Connection.Append | src/typeinfo.c:180-197 | one new stamped entry at the end of the list |
| TypeInfoCache.Connection.Fetch | src/typeinfo.c:198-409 | the describe outcome (status and synonym target) that `Complete` turns into the predicted result |
| TypeInfoCache.Connection.Redirect | src/typeinfo.c:368-408 | a synonym's target full name is looked up with the entry's stored kind, as `Resolve` says; if the chain comes back to the entry itself, it ends up holding one reference |
| TypeInfoCache.Connection.Follow | src/typeinfo.c:395-395 | the nested lookup changes the list as `Resolve` predicts and returns the entry at the predicted position |
| TypeInfoCache.SelfHeld | src/typeinfo.c:395-512 | a nested lookup that hands back the unreferenced synonym entry leaves it with exactly one reference |
| TypeInfoCache.Connection.Fill | src/typeinfo.c:281-496 | a non-synonym describe changes just this entry, as `Build` says |
| TypeInfoCache.Connection.Finish | src/typeinfo.c:508-536 | count the reference, check the kind, release on failure or after a synonym, as `Complete` says |
| TypeInfoCache.Connection.Discard | src/typeinfo.c:523-535 | release the appended entry and hand out the synonym's target at its new position, as `Settle` says |

## Left out

- OCI handles and calls (`OCIHandleAlloc/Free`, `OCIAttrSet/Get`, `OCIDescribeAny`, `OCITypeByRef`) are replaced by the `Server` catalog. The type descriptor object (`tdo`) is not modelled.
- `OCI_StringGetFullTypeName` and `OCI_StringGetOracleString` are not part of this model. The synonym target's full name is the `fullName` function of `Server`.
- `OCI_ColumnDescribe` and `OCI_ColumnMap` are a per-ordinal success oracle. Column contents are not modelled: a column records only its ordinal and describe context.
- Only the describe call itself can fail in the model (a name missing from the catalog) and each column's describe or map. The attribute reads after a successful describe are assumed to succeed: the type descriptor reference, `OCITypeByRef`, the predefined flag and type code (lines 303-338), the collection element type code, column list and column count (lines 416-448), and a synonym's target schema, name and link (lines 378-387). Two consequences of a failing read are not modelled. First, line 460 sets the status from the offsets allocation alone, which discards an earlier failure: a collection whose element type-code read fails at line 428 still has `nb_cols = 1` (line 419) and is described, cached and returned. Second, line 395 runs the nested lookup even after a synonym read failed, and line 405 sets the status from its result alone: with a failed link read, say, the object found under the name without the link is handed out.
- Allocation failures (`OCI_MemAlloc`, `ostrdup`, `OCI_ListAppend`) are assumed not to happen. On an `OCI_ListAppend` failure the C code would go on using the last scanned entry.
- The NULL-connection and NULL-name checks and the error and exception plumbing (`OCI_LIB_CALL_ENTER/EXIT`, `OCI_ExceptionTypeInfoWrongType`) are reduced to the NULL result.
- Fixed-size byte buffers are replaced by unbounded strings, and the terminating NUL is not modelled. The schema part is never cut, as in the code, so its buffer overflow on a long schema is not modelled. The synonym's full-name buffer is not modelled.
- `OCI_SIZE_OBJ_NAME` is defined outside `src/typeinfo.c`. It is fixed at 128 here.
- `otoupper` is the C locale's `toupper` on ASCII letters. Other locales are not modelled.
- The requested kind is checked against table, view and type at entry, so the `OCI_UNKNOWN` branches of the kind checks are modelled but cannot be reached from `Get`.
- `Close` releases the column names and arrays by clearing them. Freeing memory is not modelled.
- Get: the synonym recursion is bounded by `fuel`. At fuel 0 a synonym fails like an undescribable name, where the C code would keep recursing.
- Get: does not state that the entries it appends are newly allocated objects, only that the old entries keep their places and the list has the predicted values.
- Concurrency and the library's global state are not modelled.
