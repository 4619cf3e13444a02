# Column statistics bookkeeping of sybil, in Dafny

This project models the column bookkeeping of sybil's storage engine
(`src/lib/table_column_info.go`). Ingestion calls it once per value, per
column, per block and per table:

- **Integer summaries** (`IntInfo`: Min, Max, Avg, Count). `update_int_info`
  creates the entry on first sight and then updates it.
- **Frequency tables** (`StrInfo`). Each maps an interned value id (`int32`)
  to an occurrence count. `update_str_info` adds a caller-given increment.
- **`StrInfo.prune`** bounds a frequency table. It records the table size as
  `Cardinality`, lays the entries into a padded slice indexed by key, sorts
  the slice by count, and deletes the names in a prefix of it.
- **The scope registry.** `Table.update_int_info` writes to the table's own
  map. `TableBlock.update_*` / `get_*` get-or-create and read per-block tables
  in the two package-level maps `INT_INFO_BLOCK` and `STR_INFO_BLOCK`.
- **`printColsOfType`** selects the column names of one declared type and
  sorts them.

Modules, one per concept:

| file | module | contents |
|---|---|---|
| `go_types.dfy` | `GoTypes` | `int16`/`int32` ranges; Go's `int32(v)` conversion |
| `int_info.dfy` | `IntInfos` | `IntInfo`, `update_int_info`, folds over value sequences |
| `str_info.dfy` | `StrInfos` | `StrInfo`, `update_str_info`, folds over record sequences |
| `prune.dfy` | `PruneModel` | the padded slice, the sort, `prune` as written, and a corrected top-K prune |
| `registry.dfy` | `Registry` | `Table`, `TableBlock`, the two block registries as explicit state, `Option` standing for a nil-able pointer, write histories |
| `column_listing.dfy` | `ColumnListing` | `sort.Strings` order and the selection of `printColsOfType` |

Everything is a pure function over immutable values. The two package-level
registries are one `Blocks` value that is passed in and returned. Go's nil
pointer returned by `get_*` is `None`. `sort.Sort` may leave equal counts in
any order, so `Prune` takes the sorted slice as an argument. Its precondition
requires that slice to be some permutation of the padded slice, ascending by
count. `SortByValue` shows that such an order always exists.

Three behaviours of the code are easy to misread. The model follows the code:

- A column fed n values has `Count == n + 1`, not n. The first call sets
  Count to 1 and then falls through to `Count++`. With exact arithmetic, Avg
  is still the true mean (`IntInfos.ColumnAfterMean`), because every division
  happens to use the number of values seen so far.
- `update_str_info` never touches `Cardinality`. Only `prune` sets it, and it
  sets it to the size before any deletion, not the number of entries retained.
- `prune` does not keep exactly the `TOP_STRING_COUNT + 1` most frequent ids.
  It keeps `TOP_STRING_COUNT + 1` or `TOP_STRING_COUNT + 2` entries, depending
  on where the padding slot sorts. Key 0 can be deleted by the padding slot
  whatever its count. Ids outside `[0, len]` make it panic. See "Findings".

## Model

| member | source | states |
|---|---|---|
| `GoTypes.ToInt32` | src/lib/table_column_info.go:70 | `int32(val)` agrees with val modulo 2^32 and is the identity on the int32 range |
| `IntInfos.Observe` | src/lib/table_column_info.go:84-94 | after one update val lies in [Min, Max]; Min only falls and Max only rises, each to val or not at all; Count grows by one |
| `IntInfos.UpdateIntInfo` | src/lib/table_column_info.go:73-95 | a first-seen column ends with Min = Max = Avg = val and Count 2; a known column gets Min = min(old Min, val) and Max = max(old Max, val), and Count + 1; every other column is unchanged and only `name` is added |
| `IntInfos.UpdateAllFrame` | src/lib/table_column_info.go:73-95 | any number of updates to one column leave every other column's entry, and its absence, as it was |
| `IntInfos.UpdateAllColumn` | src/lib/table_column_info.go:74-82 | on a column absent from the table, the entry left after a sequence of updates is the one built from the first-sight entry, independent of the table |
| `IntInfos.ColumnAfterBounds` | src/lib/table_column_info.go:76-94 | after n >= 1 updates on a fresh column, Min and Max are the least and greatest values fed and Count is n + 1 |
| `IntInfos.ObserveMean` | src/lib/table_column_info.go:92-94 | one step of the incremental mean: the mean of the earlier values, updated with the next value and Count = n, is the mean of all n values |
| `IntInfos.ColumnAfterMean` | src/lib/table_column_info.go:80-94 | after n >= 1 updates on a fresh column, Avg times n is the sum of the values, in exact arithmetic |
| `IntInfos.UpdateAllSummary` | src/lib/table_column_info.go:73-95 | the same min, max, count and mean facts, read through the table |
| `IntInfos.ColumnAfterPermutation` | src/lib/table_column_info.go:73-95 | feeding the same multiset of values in any order gives the same entry, Avg included in exact arithmetic |
| `IntInfos.UpdateAllPermutation` | src/lib/table_column_info.go:73-95 | the same order independence for the whole table |
| `IntInfos.FiveValuesExample` | src/lib/table_column_info.go:73-95 | values 3, 1, 4, 1, 5 give Min 1, Max 5, Avg 2.8 and Count 6 |
| `StrInfos.UpdateStrInfo` | src/lib/table_column_info.go:62-71 | an absent column starts empty with Cardinality 0; the count of `int32(val)` grows by exactly `increment`, an absent key reading as 0; other keys, other columns and Cardinality are unchanged |
| `StrInfos.RecordAllCounts` | src/lib/table_column_info.go:62-71 | after a sequence of records on a fresh column, the keys are exactly the ids recorded, each count is the total increment recorded for that id, and Cardinality stays 0 |
| `StrInfos.RecordAllFrame` | src/lib/table_column_info.go:62-71 | records into one column leave every other column as it was |
| `PruneModel.Interim` | src/lib/table_column_info.go:47-51 | the padded slice has len + 1 slots; the slot at a key's own index holds that key and its count, every other slot holds the zero value {Name 0, Value 0} |
| `PruneModel.InterimPaddingSlot` | src/lib/table_column_info.go:47-51 | the padded slice has exactly one slot with no entry, holding the zero value {Name 0, Value 0} |
| `PruneModel.SortByValue` | src/lib/table_column_info.go:37-41 | one order `sort.Sort(SortStrsByCount(...))` may produce: a permutation of the slice, ascending by count |
| `PruneModel.Prune` | src/lib/table_column_info.go:43-60 | Cardinality becomes the size before pruning; a table within the bound is untouched; pruning only deletes keys and never changes a surviving count; the deleted keys are exactly the names in the first len - limit - 1 sorted slots |
| `PruneModel.PrunedCounts` | src/lib/table_column_info.go:55-57 | the deletion loop only removes keys, leaves surviving counts alone, and removes a key exactly when some slot of the first len - limit - 1 sorted slots names it |
| `PruneModel.PruneSize` | src/lib/table_column_info.go:43-60 | a table larger than the bound is cut to limit + 1 or limit + 2 entries, so `prune` bounds the table's memory |
| `PruneModel.SurvivorsAfterPrefix` | src/lib/table_column_info.go:47-57 | a key that survives the deletion of the names in a sorted prefix is named by one of the slots after that prefix |
| `PruneModel.PrunedSize` | src/lib/table_column_info.go:46-57 | deleting the names of the first len - limit - 1 sorted slots leaves limit + 1 or limit + 2 entries: the prefix names at most its length in keys, and every survivor owns one of the limit + 2 later slots |
| `PruneModel.PruneDefault` | src/lib/table_column_info.go:43-60 | at the program's bound of 20, a table of at most 20 entries only gets its Cardinality recorded and a larger one is cut to 21 or 22 entries |
| `PruneModel.SlotOfKey` | src/lib/table_column_info.go:47-53 | after the fill and the sort, every key's own slot (its id and its count) is somewhere in the sorted slice |
| `PruneModel.SlotIsEntryOrPadding` | src/lib/table_column_info.go:47-53 | every slot of the sorted slice is either some key's own slot, holding that key's count, or the zero padding slot |
| `PruneModel.PruneKeepsHeavier` | src/lib/table_column_info.go:47-57 | every surviving key's count is at least every deleted key's count, except that key 0 deleted by the padding slot only bounds survivors below by 0 |
| `PruneModel.PruneDropsHeaviestZero` | src/lib/table_column_info.go:47-56 | with limit 0 and counts {0: 100, 1: 5}, every order the sort may produce deletes the heaviest key 0 and keeps key 1 |
| `PruneModel.PruneKeepsExtraWithoutZero` | src/lib/table_column_info.go:47-56 | with limit 0 and counts {1: 5, 2: 6}, every order the sort may produce puts the padding slot first, so the one deletion removes the absent key 0 and both entries, limit + 2 of them, survive |
| `PruneModel.PruneRejectsSparseIds` | src/lib/table_column_info.go:47-50 | counts {7: 3, 9: 2, 2: 1} with limit 1 cannot be pruned: id 7 indexes past the padded slice |
| `PruneModel.PruneTopK` | src/lib/table_column_info.go:43-60 | corrected prune: exactly min(len, limit + 1) entries survive, no survivor is lighter than a deleted entry, and surviving counts are unchanged |
| `PruneModel.SortKeysByCount` | src/lib/table_column_info.go:53 | every table's keys can be listed once each, ascending by count, which is what `PruneTopK` needs |
| `Registry.TableGetIntInfo` | src/lib/table_column_info.go:121-124 | the table's own summary for `name` is nil exactly when the column has no entry, and is that entry otherwise |
| `Registry.TableUpdateIntInfo` | src/lib/table_column_info.go:97-99 | the table's own summary for `name` exists afterwards; a first-seen column reads back with Min = Max = val and Count 2, a known one with Min = min(old Min, val), Max = max(old Max, val) and Count + 1; other columns read as before; KeyTable and KeyTypes are untouched |
| `Registry.BlockGetIntInfo` | src/lib/table_column_info.go:126-128 | a block's integer summary is nil exactly when the block name or the column is missing from `INT_INFO_BLOCK`, and is the stored entry otherwise |
| `Registry.BlockGetStrInfo` | src/lib/table_column_info.go:130-132 | a block's frequency table is nil exactly when the block name or the column is missing from `STR_INFO_BLOCK`, and is the stored entry otherwise |
| `Registry.BlockUpdateIntInfo` | src/lib/table_column_info.go:111-119 | the block name is registered afterwards; other blocks and the string registry are unchanged; the column reads back, when first seen, with Min = Max = val and Count 2, and otherwise with Min = min(old Min, val), Max = max(old Max, val) and Count + 1; other columns of the block read as before |
| `Registry.BlockUpdateStrInfo` | src/lib/table_column_info.go:101-109 | the block name is registered afterwards; other blocks and the integer registry are unchanged; the column reads back with `int32(val)` added to its keys and no other key added or removed, exactly `increment` added to the count of `int32(val)`, every other count and Cardinality unchanged |
| `Registry.ApplyReads` | src/lib/table_column_info.go:101-132 | one write makes a (block, column) pair readable exactly when it is addressed to that pair, and never hides a readable pair |
| `Registry.ReplayReads` | src/lib/table_column_info.go:121-132 | from process start, `get_int_info` / `get_str_info` return nil exactly when no write of that kind ever addressed that block and column |
| `Registry.ReplayIsolation` | src/lib/table_column_info.go:101-119 | what a block holds depends only on the writes addressed to that block name |
| `ColumnListing.Less` | src/lib/table_column_info.go:146 | the order `sort.Strings` uses: a proper prefix sorts first and no name sorts before itself |
| `ColumnListing.LessFirstDifference` | src/lib/table_column_info.go:146 | that order is lexicographic: `a` sorts before `b` exactly when, at the first index where they differ or where `a` ends, `a` has the smaller character |
| `ColumnListing.SortStrings` | src/lib/table_column_info.go:146 | `sort.Strings` on distinct names: strictly ascending, same names, same length |
| `ColumnListing.ColsOfType` | src/lib/table_column_info.go:134-146 | the listing holds exactly the names n in KeyTable with KeyTypes[KeyTable[n]] == wanted_type (a missing id reads as type 0), strictly ascending, so without duplicates |
| `ColumnListing.SortedListUnique` | src/lib/table_column_info.go:146 | the listing is determined by its set of names, whatever order the map was ranged in |

## Left out

- Avg is modelled with exact rational arithmetic, not float64. Rounding is not modelled.
- IntInfos.Observe: for an entry with Count 0, Go divides by 0.0 and gets an infinite or NaN mean. The model leaves Avg unchanged there. Such an entry is never produced by `update_int_info`.
- Go's 64-bit `int` is unbounded here. Overflow of Count, of counts under `+= increment` and of Min/Max is not modelled.
- Go maps hold pointers. `get_*` hands the caller a pointer it could mutate later. The model returns values, so writes a caller makes through such a pointer are not modelled.
- A nil `Table.IntInfo` map would make `update_int_info` panic. The table's map is modelled as always present.
- `Table` and `TableBlock` are declared elsewhere in the repository. Only the fields read here are modelled: IntInfo, KeyTable, KeyTypes and Name.
- `TOP_STRING_COUNT` is a package variable (20, `PruneModel.TOP_STRING_COUNT`, used by `PruneModel.PruneDefault`). `Prune` takes it as a `nat` parameter, so a negative value is not modelled. With -1 or -2 the prefix is len or len + 1 slots long, which `interim`'s len + 1 slots allow, and nearly every or every key is deleted. With -3 or below the slice expression exceeds the capacity and Go panics.
- The order `sort.Sort` gives to equal counts is not fixed. Every claim about `Prune` holds for every ascending permutation.
- Only ids in the int32 range are keys. Wider values go through the explicit truncation `GoTypes.ToInt32`.
- `printColsOfType` prints. The model returns the list it would print. `PrintColInfo` only prints headings and calls it with the `STR_VAL` / `INT_VAL` constants defined elsewhere, so it is not modelled. The type tag is a parameter.
- Column names are Dafny `string`, a sequence of Unicode scalar values. Go strings are byte strings and `sort.Strings` compares bytes. The two orders agree on valid UTF-8, but names that are not valid UTF-8 cannot be represented.
- Concurrency: the registries have no locking. The model is single-threaded explicit state.
- `src/enable_profiler.go` only wraps an external profiling library. `src/lib/version.go` only returns a constant feature map. Neither holds logic to model.

## Findings

| source | as written | input that shows it | evidently intended | confidence | as-written member | corrected member |
|---|---|---|---|---|---|---|
| src/lib/table_column_info.go:47-56 | `interim` has len + 1 slots. The slot no key lands in keeps the zero value, whose Name is 0, and it sorts with the real entries. When it falls in the deleted prefix, key 0 is deleted whatever its count. | TOP_STRING_COUNT = 0, counts {0: 100, 1: 5}: the slice sorts to (0,0), (1,5), (0,100); the one-slot prefix deletes key 0 and keeps key 1 | delete the lowest-count entries only, keeping the limit + 1 heaviest | medium, not executed | `PruneModel.PruneDropsHeaviestZero` | `PruneModel.PruneTopK` |
| src/lib/table_column_info.go:47-50 | `interim[s]` indexes the slice by the value id itself, so any id outside [0, len] panics | counts {7: 3, 9: 2, 2: 1} with TOP_STRING_COUNT = 1: len is 3 and id 7 is out of range | collect the entries without indexing by id | medium, not executed | `PruneModel.PruneRejectsSparseIds` | `PruneModel.PruneTopK` |
| src/lib/table_column_info.go:46-56 | the prefix length len - TOP_STRING_COUNT - 1 counts the padding slot as a deletion. When there is no key 0, deleting the padding's name 0 removes nothing, so the number kept depends on where the padding sorts | TOP_STRING_COUNT = 0, counts {1: 5, 2: 6}: the slice sorts to (0,0), (1,5), (2,6); the one-slot prefix deletes the absent key 0 and both entries stay | keep a fixed number, limit + 1, of the heaviest entries | medium, not executed | `PruneModel.PruneKeepsExtraWithoutZero` | `PruneModel.PruneTopK` |
