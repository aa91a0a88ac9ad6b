# Peloton storage and late-materialization core, modelled in Dafny

This project models five pieces of the Peloton storage and execution engine.
Each piece is a Dafny module. Every operation is a pure function over
immutable values, and a few loops are written as methods.

- **Logical schema** (`LogicalSchemas`, `logical_schema.dfy`). For each
  logical column it records the base tile, the origin column id inside that
  tile, and a valid bit. These live in three parallel sequences. The column
  count includes invalidated columns.
- **Logical tiles** (`LogicalTiles`, `logical_tile.dfy`). A physical tile is a
  grid of cells. A logical tile is a logical schema plus the list of physical
  row ids of its logical rows. A value is read through both levels of
  indirection.
- **Materialization executor** (`Materialization`, `materialization.dfy`).
  It resolves the output schema and the old-to-new column map, using the
  identity map when the plan node gives none. It then groups the requested
  columns by base tile and copies them tile by tile into a fresh physical
  tile. Destination row `i` receives the `i`-th logical row. Finally it wraps
  the new tile in a logical tile that owns it. `DExecute` decides between no
  output, pass-through and physify.
- **Table** (`Tables`, `tables.dfy`). A table holds an ordered tile-group list
  whose ids are list positions, an index list, an optional primary-key index,
  and a per-table group capacity that defaults to 1000. The null check and
  tuple insertion are modelled too. Insertion, whose body the header does
  not give, fills the last group and appends a fresh group when that one is
  full; that policy is a choice of this model.
- **Tile-group iterator** (`TileGroupIterators`, `tile_group_iterator.dfy`).
  A cursor over the tile-group list, with `Next` and `HasNext`. The iterator
  refers to its table rather than copying it, so it is only a position and
  every call is given the table as it is at that moment.
- **Hash-join plan mapping** (`HashJoinMapper`, `hash_join_mapper.dfy`). It
  rejects an invalid join type and combines the join filter with the plan
  filter. It then chooses between a projection-rooted and a join-rooted plan
  tree whose children are outer, then inner.

`Common` (`common.dfy`) holds `Option` and a few sequence helpers.

Cell values are a type parameter `V` that only needs equality. A tile is
identified by a number (`TileRef`) standing for its address. The unordered
maps of the source are Dafny maps. Wherever the source iterates over an
unordered map, the model takes the iteration order as an argument (any
enumeration of the keys) or fixes one order, and lemmas say when the order
does not matter.

## Model

| member | source | states |
|---|---|---|
| `LogicalSchemas.AddColumn` | src/executor/logical_schema.h:29-32 | AddColumn appends exactly one valid entry recording the given tile and column; every earlier entry is unchanged and NumCols grows by one |
| `LogicalSchemas.BuildSchemaLookup` | src/executor/logical_schema.h:27-29 | after the k-th AddColumn(tile, col), GetBaseTile(k) is tile, GetOriginColumnId(k) is col, and NumCols is the number of calls |
| `LogicalSchemas.Invalidate` | src/executor/logical_schema.h:47-50 | clearing a valid bit keeps the column's position, base tile and origin id, and every other column's entry |
| `LogicalSchemas.InvalidateKeepsNumCols` | src/executor/logical_schema.h:30-32 | NumCols counts invalidated columns: invalidating a column removes one from the valid count but leaves NumCols unchanged |
| `LogicalTiles.WrapTile` | src/backend/executor/materialization_executor.cpp:170-173 | wrapping a physical tile gives a well-formed logical tile with the same row and column counts and the given ownership, whose value (i, j) is the tile's cell (i, j) |
| `Materialization.BuildIdentityMapping` | src/backend/executor/materialization_executor.cpp:114-123 | the identity mapping has exactly column_count entries, its keys are 0..column_count-1, and every key maps to itself |
| `Materialization.GroupByTile` | src/backend/executor/materialization_executor.cpp:56-70 | the tiles with a list are exactly the base tiles of the keys, and each tile's list is the keys from that tile in iteration order |
| `Materialization.GenerateTileToColMap` | src/backend/executor/materialization_executor.cpp:56-70 | the grouping partitions the map's keys: no list is empty, every listed column is a key whose base tile is the list's tile, and every key occurs exactly once in its base tile's list |
| `Materialization.CopyColumnsCells` | src/backend/executor/materialization_executor.cpp:92-107 | after copying a list of columns through an injective map, output cell (i, m[c]) is the source value at logical row i and column c, and cells of columns nobody writes keep their old contents |
| `Materialization.CopyColumnsOrderIndependent` | src/backend/executor/materialization_executor.cpp:53-54 | with an injective map, copying the same set of columns in any two orders gives the same tile |
| `Materialization.CopyRows` | src/backend/executor/materialization_executor.cpp:99-106 | the row loop, with its destination row counter starting at 0, writes source row i of the old column into destination row i of the new column and touches no other column |
| `Materialization.CopyTileColumns` | src/backend/executor/materialization_executor.cpp:91-108 | the column loop over one base tile copies its columns in list order on top of what is already copied; every column it copies has an entry in the old-to-new map |
| `Materialization.MaterializeByTiles` | src/backend/executor/materialization_executor.cpp:79-112 | every copied column has an entry in the map and fits both tiles; the result is the columns of each tile copied in turn, and with an injective map cell (i, old_to_new[c]) holds the source value at logical row i, column c |
| `Materialization.TileOrderedColumns` | src/backend/executor/materialization_executor.cpp:158-167 | the grouped visiting order covers exactly the keys of the old-to-new map |
| `Materialization.TileOrderCovers` | src/backend/executor/materialization_executor.cpp:158-160 | every tile in the visiting order has a list in the grouping, and concatenating the lists gives exactly the keys of the map |
| `Materialization.Physify` | src/backend/executor/materialization_executor.cpp:130-174 | the output is a well-formed logical tile that owns its base tile, has exactly as many rows as the source has tuples, and has one column per output-schema column |
| `Materialization.PhysifyPositional` | src/backend/executor/materialization_executor.cpp:158-167 | with an injective map, output value (i, m[c]) is the source value at logical row i and column c: destination row i is the i-th logical row |
| `Materialization.PhysifyUnmappedBlank` | src/backend/executor/materialization_executor.cpp:162-167 | output columns that no source column maps to keep the fresh tile's contents in every row |
| `Materialization.PhysifyIdentityRoundTrip` | src/backend/executor/materialization_executor.cpp:138-156 | with no plan node, or one without a schema, the output has the source's column count and every value of every logical row, in logical row order |
| `Materialization.PhysifyMatchesPlainCopy` | src/backend/executor/materialization_executor.cpp:88-110 | with an injective map, the physified tile equals a plain column-by-column copy of the requested columns in any enumeration order |
| `Materialization.TileGroupedCopyMatches` | src/backend/executor/materialization_executor.cpp:79-112 | with an injective map, copying the tile map's column lists in any visiting order of the tile map, built from any iteration order of the old-to-new map, gives the same cells as Physify's own order |
| `Materialization.MaterializeInAnyOrder` | src/backend/executor/materialization_executor.cpp:158-167 | running the tile-map construction and the tile-by-tile copy with both hash orders chosen freely yields exactly the cells Physify shows, for an injective map |
| `Materialization.ResolveProjection` | src/backend/executor/materialization_executor.cpp:138-156 | with a plan node carrying a schema, its schema and old-to-new map are used; otherwise the output has one column per source column and the map is the identity, which is injective and fits both tiles |
| `Materialization.DExecute` | src/backend/executor/materialization_executor.cpp:182-219 | there is output exactly when the child produced a tile with at least one tuple, and an empty tile is refused before anything of it is read; with the flag off the output is the input tile, otherwise it is Physify of it; with no node the flag is on |
| `Materialization.SingleTileRun` | tests/executor/executor_tests_util.cpp:274-285 | a child that yields one non-empty tile and then nothing gives one output tile with the same row count, then no output; with no plan node the output is a faithful physical copy |
| `Tables.NewTable` | src/storage/table.h:49-57 | a new table has invalid catalog ids, the given schema and name, no tile groups, no indexes, no primary-key index, and 1000 tuples per tile group |
| `Tables.GetTable` | src/storage/table.h:172-184 | the factory's table records the given database id and is otherwise a new table with the given name |
| `Tables.GetTableDefaultName` | src/storage/table.h:172-174 | a factory call without a name names the table "temp" |
| `Tables.Table.GetTileGroup` | src/storage/table.h:93-96 | for an id below the group count, the result is the group at that position of the list |
| `Tables.AddTileGroup` | src/storage/table.h:91 | the group is appended: the count grows by one, the new last group is the given one, every earlier group keeps its id and contents, and nothing else in the table changes |
| `Tables.AddDefaultTileGroup` | src/storage/table.h:88-89 | an empty group sized by the table's capacity is appended and its id, the old group count, is returned; earlier groups are unchanged |
| `Tables.AddIndex` | src/storage/table.h:109-119 | registering an index raises GetIndexCount by one and puts the new index at the next position, every earlier index keeping its position; a primary-key index becomes GetPrimaryKeyIndex; tile groups, catalog ids, schema, name and capacity are unchanged |
| `Tables.PrimaryThenSecondaryIndex` | tests/executor/executor_tests_util.cpp:300-333 | registering a primary then a secondary index on a table without indexes puts the primary at position 0 and the secondary at position 1, and leaves schema, capacity and tile groups as they were |
| `Tables.CheckNullsMeaning` | src/storage/table.h:127 | CheckNulls passes exactly when every non-nullable column of the tuple holds a value |
| `Tables.InsertTupleContract` | src/storage/table.h:103 | a tuple of the wrong width is refused as a schema mismatch and one with a null in a non-nullable column as a constraint violation, and a refusal leaves the table as it was; an accepted tuple is stored at the returned (group, offset), within the group's capacity, in the last group; a group is appended exactly when the last group is full or there is none, and an appended group has the table's capacity and holds only the new tuple; in an existing group the tuple takes the slot right after the last occupied one; only the slot's group grows, at its end, and every other group is unchanged |
| `Tables.InsertAllGroups` | src/storage/table.h:88-103 | inserting well-formed tuples into a packed table accepts all of them and keeps it packed: every group holds the capacity, all but the last are full, the last is not empty, and the stored count grows by the number of tuples |
| `Tables.FreshTableGroups` | tests/executor/executor_tests_util.cpp:198-200 | filling a new table with n well-formed tuples accepts every insert and leaves k groups where (k-1)*capacity < n <= k*capacity |
| `Tables.ThreeGroupsOfTuples` | tests/executor/executor_tests_util.cpp:343-346 | three groups' worth of tuples into a new table gives exactly three tile groups, every insert returning a valid slot |
| `Tables.OneGroupOfTuples` | tests/executor/mutate_test.cpp:328 | between one tuple and one group's worth of tuples into a new table gives exactly one tile group |
| `Tables.DefaultCapacityThreeThousand` | src/storage/table.h:155-157 | with the default capacity, 3000 tuples into a factory-made table give exactly three tile groups |
| `Tables.NullTupleRejected` | tests/executor/mutate_test.cpp:190-201 | a tuple with a null in a non-nullable column is refused as a constraint violation and the table is unchanged |
| `TileGroupIterators.NewIterator` | src/backend/storage/tile_group_iterator.h:38-39 | a new iterator starts at position 0, and has a next group exactly when the table has a group |
| `TileGroupIterators.CopyIteratorSameRun` | src/backend/storage/tile_group_iterator.h:43-45 | over any table, a copy agrees with its original on HasNext, on Next and on the whole remaining run |
| `TileGroupIterators.Next` | src/backend/storage/tile_group_iterator.h:48-52 | Next fails exactly when no tile group remains; otherwise it yields the group at the cursor and advances the cursor by one |
| `TileGroupIterators.AppendedGroupSeen` | src/backend/storage/tile_group_iterator.h:57-61 | because the iterator reads the table through a reference, an iterator at the end fails, and after a group is appended its Next yields exactly that group |
| `TileGroupIterators.AppendExtendsRun` | src/backend/storage/tile_group_iterator.h:57-61 | appending a group mid-scan leaves the next group of an unfinished iterator unchanged and adds exactly the appended group to the end of its remaining run |
| `TileGroupIterators.HasNextPredictsNext` | src/backend/storage/tile_group_iterator.h:52-54 | HasNext is true exactly when a following Next succeeds |
| `TileGroupIterators.DrainYieldsSuffix` | src/backend/storage/tile_group_iterator.h:48-61 | calling Next until it fails yields the remaining groups from the cursor on, in list order |
| `TileGroupIterators.FullRunVisitsAll` | src/backend/storage/tile_group_iterator.h:30-31 | a full run from a new iterator visits every tile group once, in list order, with as many successful Next calls as there are groups |
| `TileGroupIterators.ScanTileGroups` | src/backend/storage/tile_group_iterator.h:30-54 | the loop "while HasNext, Next" collects exactly the table's tile groups in order, with one Next per group |
| `HashJoinMapper.TransformHashJoin` | src/backend/bridge/dml/mapper/mapper_hash_join.cpp:29-99 | an invalid join type gives no plan and any other type gives one; the root is a projection plan exactly when the projection is non-trivial |
| `HashJoinMapper.CombinePredicates` | src/backend/bridge/dml/mapper/mapper_hash_join.cpp:54-62 | there is no predicate exactly when both filters are absent |
| `HashJoinMapper.CombinePredicatesShape` | src/backend/bridge/dml/mapper/mapper_hash_join.cpp:55-61 | with both filters the predicate is AND(join filter, plan filter) in that order; with only the join filter it is the join filter; otherwise it is the plan filter, possibly absent |
| `HashJoinMapper.CombinePredicatesMeaning` | src/backend/bridge/dml/mapper/mapper_hash_join.cpp:54-62 | the chosen predicate accepts a row pair exactly when both filters do, an absent filter accepting everything |
| `HashJoinMapper.CombinePredicatesAtoms` | src/backend/bridge/dml/mapper/mapper_hash_join.cpp:54-62 | the chosen predicate mentions exactly the conditions of the two filters |
| `HashJoinMapper.JoinNodeInvariant` | src/backend/bridge/dml/mapper/mapper_hash_join.cpp:71-95 | in both shapes the tree has one hash-join node; it carries the combined predicate and the outer hash keys, and its children are the outer plan then the inner plan |
| `HashJoinMapper.ProjectionPlacement` | src/backend/bridge/dml/mapper/mapper_hash_join.cpp:73-86 | a non-trivial projection gives a projection root, with the projection and schema, whose single child is a hash join without project info; a trivial one makes the hash join the root, carrying the project info |

## Left out

- Visibility bitmap of logical tiles: a logical tile here has one position list shared by all its columns, and every listed row is visible. The source iterates over visible rows only, and `GetTupleCount` counts only those. The model's position list is that visible sequence.
- Physical schema of a logical tile: the logical-tile code that builds it is not part of this model. It is taken to have one column per logical column. Materialization never reads valid bits.
- Column validity in Physify: the design leaves a column whose valid bit is cleared out of the materialized output. The executor code never consults the valid bits, and neither does the model, so invalidated columns are materialized like any other.
- Non-injective column maps: when two source columns map to the same output column, the source's result depends on hash-map iteration order. `Physify` fixes one order: ascending column id, with tiles in order of first use. `MaterializeInAnyOrder` shows that every other pair of hash orders gives the same cells, but only for an injective map. The positional lemmas assume an injective map too.
- Output column bounds: the source writes `old_to_new` targets into the destination without checking them. `Physify` and `DExecute` require, through `ProjectionFits`, that every source column exists and every target is inside the output schema.
- Fresh tile contents: the temporary tile's initial cells are a `blank` parameter.
- Memory management and ownership transfer (`unique_ptr`, `release`, deleting tiles): only the owns-base-tiles flag is kept.
- `DInit` and the child-count assertion of the executor are not modelled.
- Tile-group ids: the catalog manager that hands out global oids is not part of this model. A group's id is its position in the table's list, and that is the id `GetTileGroup` accepts.
- `InsertTuple`: the header only declares `InsertTuple`; its body is not part of this model. The documented behaviour is to find a tile group with free capacity or create one. The model chooses one policy: it looks only at the last group and appends a fresh group when that one is full, so free slots in earlier groups are not reused. On tables built only by insertion every group but the last is full, so the two policies agree there. The model also refuses a wrong width or a null in a non-nullable column. When the last group is full or absent and the table's capacity is 0, the fresh group has no slot either, so the tuple is refused (`NoCapacity`); a table of capacity 0 can still accept tuples into a last group added with room of its own.
- `InsertTuple` result: the header declares the result as an `oid_t`. The model returns the slot's (group, offset) location, as the newer table class used by the tests does.
- Index maintenance (`InsertInIndexes`, `TryInsertInIndexes`, `DeleteInIndexes`, `UpdateInIndexes`), index internals and range lookups: declared in the header without bodies. Indexes are an opaque list of references.
- Adding an index: the header exposes only the index list, its count and the primary-key pointer. `AddIndex` stands for the registration that fills them. Its `isPrimaryKey` flag is this model's choice: the tests call `AddIndex` with the index alone, and how the table decides on its primary key is not part of this model.
- Tile-group count in the tests: the tests build a newer table class that starts with one empty tile group, while the modelled `Table` starts with none. The group-count lemmas are stated for the table as modelled, starting from no groups.
- Concurrency: the table mutex, atomic slot reservation, the iterator's thread-safety caveat and the parallel mutation tests are left out. Every operation is sequential. An iterator sees groups appended between its calls, but never a change in the middle of one call.
- Backend allocator and the `GetSchema`/`GetBackend`/`GetName` getters: plain accessors with no behaviour beyond returning a field.
- Valid bits: the logical-schema header keeps a valid bit per column but declares no method that clears one. `Invalidate` stands for clearing `valid_bits[k]` directly.
- Hash-join sub-translations: `TransformJoinType`, `ExprTransformer::TransformExpr`, `BuildProjectInfoFromTLSkipJunk`, `BuildColumnListFromExpStateList`, `SchemaTransformer::GetSchemaFromTupleDesc` and `TransformPlan` of the children are host-planner code. Their results are inputs to the model. Logging and the commented-out join-clause builder are omitted.
- Join type in the plan: the source checks the join type but builds the hash-join node without it. The model does the same, so a valid join type only decides whether a plan is built.
- Floating-point column values: values are an abstract type with equality.
