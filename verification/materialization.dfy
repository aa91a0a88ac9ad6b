/** The materialization executor: turns a logical tile into a fresh physical
    tile, optionally applying a column projection, and wraps it back in a
    logical tile that owns it. */
module Materialization {
  import opened Common
  import opened LogicalSchemas
  import opened LogicalTiles

  /** Output schema of a materialization; only its column count matters here. */
  datatype Schema = Schema(columnCount: nat)

  /** The plan node of a materialization: an optional output schema, the map
      from source logical column ids to output column ids, and whether the
      output must be a physical tile. */
  datatype MaterializationNode = MaterializationNode(
    schema: Option<Schema>,
    oldToNewCols: map<nat, nat>,
    physifyFlag: bool)

  /** No two columns are sent to the same output column. */
  ghost predicate Injective(m: map<nat, nat>) {
    forall a, b :: a in m && b in m && a != b ==> m[a] != m[b]
  }

  /** Every source column of `m` exists in `src` and every target column
      exists in an output of `width` columns. */
  ghost predicate MapFits<V>(m: map<nat, nat>, src: LogicalTile<V>, width: nat)
    requires src.schema.Valid()
  {
    forall c: nat :: c in m ==> c < src.schema.NumCols() && m[c] < width
  }

  //===------------------------------------------------------------------===//
  // Identity mapping
  //===------------------------------------------------------------------===//

  /** The map sending each of the first `columnCount` columns to itself. */
  function BuildIdentityMapping(columnCount: nat): (m: map<nat, nat>)
    ensures forall c: nat :: c in m <==> c < columnCount
    ensures forall c: nat :: c in m ==> m[c] == c
    ensures |m| == columnCount
  {
    if columnCount == 0 then map[]
    else BuildIdentityMapping(columnCount - 1)[columnCount - 1 := columnCount - 1]
  }

  //===------------------------------------------------------------------===//
  // Grouping columns by base tile
  //===------------------------------------------------------------------===//

  /** Every column of `keys` is below `n`. */
  ghost predicate ColumnsBelow(keys: seq<nat>, n: nat) {
    forall i :: 0 <= i < |keys| ==> keys[i] < n
  }

  /** The base tiles of the columns in `keys`. */
  ghost function BaseTilesOf(keys: seq<nat>, schema: LogicalSchema): set<TileRef>
    requires schema.Valid()
    requires ColumnsBelow(keys, schema.NumCols())
  {
    set c | c in keys :: schema.GetBaseTile(c)
  }

  /** The columns of `keys` that come from `tile`, in the order of `keys`. */
  function ColumnsFromTile(keys: seq<nat>, schema: LogicalSchema, tile: TileRef): seq<nat>
    requires schema.Valid()
    requires ColumnsBelow(keys, schema.NumCols())
  {
    if keys == [] then []
    else
      var last := keys[|keys| - 1];
      var before := ColumnsFromTile(keys[..|keys| - 1], schema, tile);
      if schema.GetBaseTile(last) == tile then before + [last] else before
  }

  /** Visit the columns in `keys` in order and append each to the list of its
      base tile. */
  function GroupByTile(keys: seq<nat>, schema: LogicalSchema): (g: map<TileRef, seq<nat>>)
    requires schema.Valid()
    requires ColumnsBelow(keys, schema.NumCols())
    ensures g.Keys == BaseTilesOf(keys, schema)
    ensures forall t: TileRef :: t in g ==> g[t] == ColumnsFromTile(keys, schema, t)

  {
    if keys == [] then map[]
    else
      var prefix := keys[..|keys| - 1];
      var last := keys[|keys| - 1];
      var g := GroupByTile(prefix, schema);
      var tile := schema.GetBaseTile(last);
      var r := g[tile := (if tile in g then g[tile] else []) + [last]];
      assert forall c: nat :: c in keys <==> c in prefix || c == last;
      assert forall t: TileRef :: t in r ==> t in g || t == tile;
      assert forall t: TileRef :: t in g && t != tile ==> ColumnsFromTile(prefix, schema, t) == ColumnsFromTile(keys, schema, t);
      assert tile !in g ==> ColumnsFromTile(prefix, schema, tile) == [] by {
        if ColumnsFromTile(prefix, schema, tile) != [] {
          ColumnsFromTileNonEmpty(prefix, schema, tile);
        }
      }
      r
  }

  lemma {:induction false} ColumnsFromTileMembers(keys: seq<nat>, schema: LogicalSchema, tile: TileRef)
    requires schema.Valid()
    requires ColumnsBelow(keys, schema.NumCols())
    ensures forall c: nat :: c in ColumnsFromTile(keys, schema, tile) <==>
              c in keys && schema.GetBaseTile(c) == tile
  {
    if keys != [] {
      var prefix := keys[..|keys| - 1];
      assert forall c: nat :: c in keys <==> c in prefix || c == keys[|keys| - 1];
      ColumnsFromTileMembers(prefix, schema, tile);
    }
  }

  lemma ColumnsFromTileNonEmpty(keys: seq<nat>, schema: LogicalSchema, tile: TileRef)
    requires schema.Valid()
    requires ColumnsBelow(keys, schema.NumCols())
    requires ColumnsFromTile(keys, schema, tile) != []
    ensures tile in BaseTilesOf(keys, schema)
  {
    ColumnsFromTileMembers(keys, schema, tile);
    var c := ColumnsFromTile(keys, schema, tile)[0];
    assert c in keys;
    assert schema.GetBaseTile(c) in BaseTilesOf(keys, schema);
  }

  /** A column occurs in the list of `tile` as often as in `keys` when it
      comes from `tile`, and not at all otherwise. */
  lemma {:induction false} ColumnsFromTileCount(keys: seq<nat>, schema: LogicalSchema, tile: TileRef, c: nat)
    requires schema.Valid()
    requires ColumnsBelow(keys, schema.NumCols())
    requires c < schema.NumCols()
    ensures multiset(ColumnsFromTile(keys, schema, tile))[c] ==
              if schema.GetBaseTile(c) == tile then multiset(keys)[c] else 0
  {
    if keys != [] {
      var prefix := keys[..|keys| - 1];
      assert keys == prefix + [keys[|keys| - 1]];
      ColumnsFromTileCount(prefix, schema, tile, c);
    }
  }

  lemma {:induction false} DistinctCountsOne(keys: seq<nat>, c: nat)
    requires Distinct(keys) && c in keys
    ensures multiset(keys)[c] == 1
  {
    var n := |keys| - 1;
    var prefix := keys[..n];
    assert keys == prefix + [keys[n]];
    if keys[n] == c {
      assert c !in prefix;
    } else {
      DistinctCountsOne(prefix, c);
    }
  }

  /** GenerateTileToColMap: `keys` is the iteration order of the old-to-new
      map. The result partitions the map's keys by base tile: every requested
      column is in the list of its own base tile exactly once, and nowhere
      else. */
  function GenerateTileToColMap<V>(oldToNew: map<nat, nat>, keys: seq<nat>, src: LogicalTile<V>)
    : (g: map<TileRef, seq<nat>>)
    requires src.schema.Valid()
    requires Enumerates(keys, oldToNew.Keys)
    requires forall c: nat :: c in oldToNew ==> c < src.schema.NumCols()
    ensures forall t: TileRef :: t in g ==> g[t] != []
    ensures forall t: TileRef, c: nat {:trigger c in g[t]} :: t in g && c in g[t] ==> c in oldToNew && src.schema.GetBaseTile(c) == t
    ensures forall c: nat {:trigger c in oldToNew} :: c in oldToNew ==>
              var t := src.schema.GetBaseTile(c); t in g && multiset(g[t])[c] == 1
  {
    assert forall i :: 0 <= i < |keys| ==> keys[i] in keys;
    var g := GroupByTile(keys, src.schema);
    assert forall t: TileRef :: t in g ==> g[t] != [] && forall c: nat :: c in g[t] <==> c in keys && src.schema.GetBaseTile(c) == t by {
      forall t: TileRef | t in g
        ensures g[t] != [] && forall c: nat :: c in g[t] <==> c in keys && src.schema.GetBaseTile(c) == t
      {
        ColumnsFromTileMembers(keys, src.schema, t);
        var c :| c in keys && src.schema.GetBaseTile(c) == t;
        assert c in g[t];
      }
    }
    assert forall c: nat :: c in oldToNew ==> src.schema.GetBaseTile(c) in g && multiset(g[src.schema.GetBaseTile(c)])[c] == 1 by {
      forall c: nat | c in oldToNew
        ensures src.schema.GetBaseTile(c) in g && multiset(g[src.schema.GetBaseTile(c)])[c] == 1
      {
        var t := src.schema.GetBaseTile(c);
        assert t in BaseTilesOf(keys, src.schema);
        ColumnsFromTileCount(keys, src.schema, t, c);
        DistinctCountsOne(keys, c);
      }
    }
    g
  }

  /** The column lists of the tiles in `order`, one after the other. */
  function ConcatGroups(order: seq<TileRef>, g: map<TileRef, seq<nat>>): seq<nat>
    requires forall t: TileRef :: t in order ==> t in g
  {
    if order == [] then []
    else ConcatGroups(order[..|order| - 1], g) + g[order[|order| - 1]]
  }

  lemma {:induction false} ConcatGroupsMembers(order: seq<TileRef>, g: map<TileRef, seq<nat>>)
    requires forall t: TileRef :: t in order ==> t in g
    ensures forall c: nat :: c in ConcatGroups(order, g) <==> exists t: TileRef {:trigger c in g[t]} :: t in order && c in g[t]
  {
    if order != [] {
      var prefix := order[..|order| - 1];
      assert forall t: TileRef :: t in order <==> t in prefix || t == order[|order| - 1];
      ConcatGroupsMembers(prefix, g);
    }
  }

  /** The concatenated lists hold only elements of `S` when every list does. */
  lemma {:induction false} ConcatGroupsWithin(order: seq<TileRef>, g: map<TileRef, seq<nat>>, S: set<nat>)
    requires forall t: TileRef :: t in order ==> t in g
    requires forall t: TileRef, c: nat {:trigger c in g[t]} :: t in order && c in g[t] ==> c in S
    ensures forall c: nat :: c in ConcatGroups(order, g) ==> c in S
  {
    if order != [] {
      ConcatGroupsWithin(order[..|order| - 1], g, S);
    }
  }

  //===------------------------------------------------------------------===//
  // Copying
  //===------------------------------------------------------------------===//

  /** `d` has `n` rows of `width` cells each. */
  ghost predicate Shaped<V>(d: seq<seq<V>>, n: nat, width: nat) {
    |d| == n && forall i :: 0 <= i < n ==> |d[i]| == width
  }

  /** Every column of `cols` can be copied from `src` through `m` into an
      output of `width` columns. */
  ghost predicate Copyable<V>(src: LogicalTile<V>, cols: seq<nat>, m: map<nat, nat>, width: nat) {
    && src.Valid()
    && forall c: nat :: c in cols ==> c in m && c < src.schema.NumCols() && m[c] < width
  }

  /** Copy logical column `oldCol` of `src` into column `newCol` of `dest`:
      destination row i receives the value of the i-th logical row. */
  function CopyColumn<V>(dest: seq<seq<V>>, src: LogicalTile<V>, oldCol: nat, newCol: nat, width: nat)
    : (d: seq<seq<V>>)
    requires src.Valid() && oldCol < src.schema.NumCols() && newCol < width
    requires Shaped(dest, src.TupleCount(), width)
    ensures Shaped(d, src.TupleCount(), width)
  {
    seq(|dest|, i requires 0 <= i < |dest| => dest[i][newCol := src.GetValue(i, oldCol)])
  }

  /** Copy the columns of `cols` one after the other, each to its image
      under `m`. */
  function CopyColumns<V>(dest: seq<seq<V>>, src: LogicalTile<V>, cols: seq<nat>, m: map<nat, nat>, width: nat)
    : (d: seq<seq<V>>)
    requires Copyable(src, cols, m, width)
    requires Shaped(dest, src.TupleCount(), width)
    ensures Shaped(d, src.TupleCount(), width)
  {
    if cols == [] then dest
    else
      var prefix := cols[..|cols| - 1];
      var c := cols[|cols| - 1];
      assert forall x: nat :: x in prefix ==> x in cols;
      CopyColumn(CopyColumns(dest, src, prefix, m, width), src, c, m[c], width)
  }

  /** The output columns written when copying `cols`. */
  ghost function Written(cols: seq<nat>, m: map<nat, nat>): set<nat>
    requires forall c: nat :: c in cols ==> c in m
  {
    set c | c in cols :: m[c]
  }

  /** Only images of the map are ever written. */
  lemma WrittenWithinValues(cols: seq<nat>, m: map<nat, nat>)
    requires forall c: nat :: c in cols ==> c in m
    ensures Written(cols, m) <= m.Values
  {
    forall j | j in Written(cols, m)
      ensures j in m.Values
    {
      var c :| c in cols && m[c] == j;
      assert c in m;
    }
  }

  /** What a sequence of column copies leaves behind: with an injective map,
      output column m[c] holds column c of every logical row in order, and
      columns nobody writes keep their old contents. */
  lemma {:induction false} CopyColumnsCells<V>(dest: seq<seq<V>>, src: LogicalTile<V>, cols: seq<nat>,
                                               m: map<nat, nat>, width: nat)
    requires Copyable(src, cols, m, width)
    requires Shaped(dest, src.TupleCount(), width)
    ensures Injective(m) ==>
              forall i, c: nat :: 0 <= i < src.TupleCount() && c in cols ==>
                CopyColumns(dest, src, cols, m, width)[i][m[c]] == src.GetValue(i, c)
    ensures forall i, j :: 0 <= i < src.TupleCount() && 0 <= j < width && j !in Written(cols, m) ==>
              CopyColumns(dest, src, cols, m, width)[i][j] == dest[i][j]
  {
    if cols != [] {
      var prefix := cols[..|cols| - 1];
      var last := cols[|cols| - 1];
      assert forall x: nat :: x in cols <==> x in prefix || x == last;
      CopyColumnsCells(dest, src, prefix, m, width);
      assert Written(cols, m) == Written(prefix, m) + {m[last]};
    }
  }

  /** Column lists with the same members write the same output columns. */
  lemma WrittenSameMembers(cols1: seq<nat>, cols2: seq<nat>, m: map<nat, nat>)
    requires forall c: nat :: c in cols1 ==> c in m
    requires forall c: nat :: c in cols1 <==> c in cols2
    ensures Written(cols1, m) == Written(cols2, m)
  {
  }

  /** Copying the same set of columns in any order gives the same tile when
      no two columns share an output column. */
  lemma CopyColumnsOrderIndependent<V>(dest: seq<seq<V>>, src: LogicalTile<V>, cols1: seq<nat>,
                                       cols2: seq<nat>, m: map<nat, nat>, width: nat)
    requires Copyable(src, cols1, m, width) && Copyable(src, cols2, m, width)
    requires Shaped(dest, src.TupleCount(), width)
    requires Injective(m)
    requires forall c: nat :: c in cols1 <==> c in cols2
    ensures CopyColumns(dest, src, cols1, m, width) == CopyColumns(dest, src, cols2, m, width)
  {
    var r1 := CopyColumns(dest, src, cols1, m, width);
    var r2 := CopyColumns(dest, src, cols2, m, width);
    CopyColumnsCells(dest, src, cols1, m, width);
    CopyColumnsCells(dest, src, cols2, m, width);
    WrittenSameMembers(cols1, cols2, m);
    forall i | 0 <= i < |r1|
      ensures r1[i] == r2[i]
    {
      forall j | 0 <= j < width
        ensures r1[i][j] == r2[i][j]
      {
        if j in Written(cols1, m) {
          var c :| c in cols1 && m[c] == j;
          assert c in cols2;
          assert r1[i][m[c]] == src.GetValue(i, c) == r2[i][m[c]];
        } else {
          assert r1[i][j] == dest[i][j] == r2[i][j];
        }
      }
    }
  }

  /** The innermost loop of MaterializeByTiles: walk the logical rows with a
      destination row counter starting at 0, copying column `oldCol` of each
      into column `newCol`. Every other cell is left alone. */
  method CopyRows<V>(dest: seq<seq<V>>, src: LogicalTile<V>, oldCol: nat, newCol: nat, width: nat)
    returns (out: seq<seq<V>>)
    requires src.Valid() && oldCol < src.schema.NumCols() && newCol < width
    requires Shaped(dest, src.TupleCount(), width)
    ensures out == CopyColumn(dest, src, oldCol, newCol, width)
    ensures forall i :: 0 <= i < src.TupleCount() ==> out[i][newCol] == src.GetValue(i, oldCol)
    ensures forall i, j :: 0 <= i < src.TupleCount() && 0 <= j < width && j != newCol ==> out[i][j] == dest[i][j]
  {
    out := dest;
    var n := src.TupleCount();
    for newRow := 0 to n
      invariant |out| == n
      invariant forall i :: 0 <= i < newRow ==> out[i] == dest[i][newCol := src.GetValue(i, oldCol)]
      invariant forall i :: newRow <= i < n ==> out[i] == dest[i]
    {
      out := out[newRow := out[newRow][newCol := src.GetValue(newRow, oldCol)]];
    }
  }

  /** The middle loop of MaterializeByTiles: copy the columns of one base
      tile, in list order, on top of the columns `done` already copied. */
  method CopyTileColumns<V>(dest: seq<seq<V>>, src: LogicalTile<V>, done: seq<nat>, columns: seq<nat>,
                            m: map<nat, nat>, width: nat, current: seq<seq<V>>)
    returns (out: seq<seq<V>>)
    requires Copyable(src, done, m, width) && Copyable(src, columns, m, width)
    requires Shaped(dest, src.TupleCount(), width)
    requires current == CopyColumns(dest, src, done, m, width)
    ensures Copyable(src, done + columns, m, width)
    ensures out == CopyColumns(dest, src, done + columns, m, width)
  {
    out := current;
    assert done + columns[..0] == done;
    for k := 0 to |columns|
      invariant Copyable(src, done + columns[..k], m, width)
      invariant out == CopyColumns(dest, src, done + columns[..k], m, width)
    {
      var oldCol := columns[k];
      assert oldCol in columns;
      assert (done + columns[..k + 1])[..|done + columns[..k]|] == done + columns[..k];
      out := CopyRows(out, src, oldCol, m[oldCol], width);
    }
    assert columns[..|columns|] == columns;
  }

  /** MaterializeByTiles: for each base tile in `tileOrder` (the iteration
      order of `tileToCols`), for each of its columns, copy every logical row
      into the destination with a row counter starting at 0. */
  method MaterializeByTiles<V>(src: LogicalTile<V>, oldToNew: map<nat, nat>,
                               tileToCols: map<TileRef, seq<nat>>, tileOrder: seq<TileRef>,
                               dest: seq<seq<V>>, width: nat)
    returns (out: seq<seq<V>>)
    requires src.Valid()
    requires forall t: TileRef :: t in tileOrder ==> t in tileToCols
    requires forall t: TileRef, c: nat {:trigger c in tileToCols[t]} :: t in tileToCols && c in tileToCols[t] ==>
               c in oldToNew && c < src.schema.NumCols() && oldToNew[c] < width
    requires Shaped(dest, src.TupleCount(), width)
    ensures Copyable(src, ConcatGroups(tileOrder, tileToCols), oldToNew, width)
    ensures out == CopyColumns(dest, src, ConcatGroups(tileOrder, tileToCols), oldToNew, width)
    ensures Injective(oldToNew) ==>
              forall i, t: TileRef, c: nat {:trigger src.GetValue(i, c), c in tileToCols[t]} :: 0 <= i < src.TupleCount() && t in tileOrder && c in tileToCols[t] ==>
                out[i][oldToNew[c]] == src.GetValue(i, c)
  {
    ConcatGroupsMembers(tileOrder, tileToCols);
    out := dest;
    for g := 0 to |tileOrder|
      invariant Copyable(src, ConcatGroups(tileOrder[..g], tileToCols), oldToNew, width)
      invariant out == CopyColumns(dest, src, ConcatGroups(tileOrder[..g], tileToCols), oldToNew, width)
    {
      assert tileOrder[..g + 1][..g] == tileOrder[..g];
      var columns := tileToCols[tileOrder[g]];
      assert forall c: nat :: c in columns ==> c in tileToCols[tileOrder[g]];
      out := CopyTileColumns(dest, src, ConcatGroups(tileOrder[..g], tileToCols), columns, oldToNew, width, out);
    }
    assert tileOrder[..|tileOrder|] == tileOrder;
    CopyColumnsCells(dest, src, ConcatGroups(tileOrder, tileToCols), oldToNew, width);
  }

  //===------------------------------------------------------------------===//
  // Physify
  //===------------------------------------------------------------------===//

  /** The output schema and old-to-new map a materialization uses: those of
      the plan node when it carries a schema, otherwise the source's own
      physical schema (one column per logical column) with the identity map. */
  function ResolveProjection<V>(node: Option<MaterializationNode>, src: LogicalTile<V>)
    : (r: (Schema, map<nat, nat>))
    requires src.schema.Valid()
    ensures node.Some? && node.value.schema.Some? ==>
              r == (node.value.schema.value, node.value.oldToNewCols)
    ensures node.None? || node.value.schema.None? ==>
              && r.0.columnCount == src.schema.NumCols()
              && (forall c: nat :: c in r.1 <==> c < src.schema.NumCols())
              && (forall c: nat :: c in r.1 ==> r.1[c] == c)
              && MapFits(r.1, src, r.0.columnCount) && Injective(r.1)
  {
    match node
    case None =>
      (Schema(src.schema.NumCols()), BuildIdentityMapping(src.schema.NumCols()))
    case Some(n) =>
      if n.schema.Some? then (n.schema.value, n.oldToNewCols)
      else (Schema(src.schema.NumCols()), BuildIdentityMapping(src.schema.NumCols()))
  }

  /** The plan node's projection reads only columns the source has and writes
      only columns the output schema has. */
  ghost predicate ProjectionFits<V>(node: Option<MaterializationNode>, src: LogicalTile<V>)
    requires src.schema.Valid()
  {
    var (schema, m) := ResolveProjection(node, src);
    MapFits(m, src, schema.columnCount)
  }

  /** The base tiles of `keys`, each once, in order of first use. */
  function TileOrder(keys: seq<nat>, schema: LogicalSchema): (order: seq<TileRef>)
    requires schema.Valid() && ColumnsBelow(keys, schema.NumCols())
    ensures Distinct(order)
    ensures forall i :: 0 <= i < |keys| ==> schema.GetBaseTile(keys[i]) in order
    ensures forall t: TileRef :: t in order ==> t in BaseTilesOf(keys, schema)
  {
    var bases := seq(|keys|, i requires 0 <= i < |keys| => schema.GetBaseTile(keys[i]));
    assert forall i :: 0 <= i < |keys| ==> bases[i] == schema.GetBaseTile(keys[i]) && bases[i] in bases;
    assert forall t: TileRef :: t in bases ==> t in BaseTilesOf(keys, schema) by {
      forall t: TileRef | t in bases
        ensures t in BaseTilesOf(keys, schema)
      {
        var i :| 0 <= i < |keys| && bases[i] == t;
        assert keys[i] in keys;
      }
    }
    FirstOccurrences(bases)
  }

  /** The columns of `oldToNew` in the order MaterializeByTiles visits them:
      grouped by base tile, tiles in order of first use. Every requested
      column is visited, and nothing else. */
  function TileOrderedColumns<V>(oldToNew: map<nat, nat>, src: LogicalTile<V>): (cols: seq<nat>)
    requires src.schema.Valid()
    requires forall c: nat :: c in oldToNew ==> c < src.schema.NumCols()
    ensures forall c: nat :: c in cols <==> c in oldToNew
  {
    var keys := Below(src.schema.NumCols(), oldToNew.Keys);
    BelowEnumerates(src.schema.NumCols(), oldToNew.Keys);
    var tileToCols := GenerateTileToColMap(oldToNew, keys, src);
    var tileOrder := TileOrder(keys, src.schema);
    TileOrderCovers(oldToNew, src);
    ConcatGroups(tileOrder, tileToCols)
  }

  lemma BelowEnumerates(n: nat, S: set<nat>)
    requires forall x: nat :: x in S ==> x < n
    ensures Enumerates(Below(n, S), S)
    ensures ColumnsBelow(Below(n, S), n)
  {
  }

  lemma TileOrderCovers<V>(oldToNew: map<nat, nat>, src: LogicalTile<V>)
    requires src.schema.Valid()
    requires forall c: nat :: c in oldToNew ==> c < src.schema.NumCols()
    ensures var keys := Below(src.schema.NumCols(), oldToNew.Keys);
            && Enumerates(keys, oldToNew.Keys)
            && ColumnsBelow(keys, src.schema.NumCols())
            && var tileToCols := GenerateTileToColMap(oldToNew, keys, src);
               var tileOrder := TileOrder(keys, src.schema);
               && (forall t: TileRef :: t in tileOrder ==> t in tileToCols)
               && (forall c: nat :: c in ConcatGroups(tileOrder, tileToCols) <==> c in oldToNew)
  {
    var keys := Below(src.schema.NumCols(), oldToNew.Keys);
    BelowEnumerates(src.schema.NumCols(), oldToNew.Keys);
    var tileToCols := GenerateTileToColMap(oldToNew, keys, src);
    var tileOrder := TileOrder(keys, src.schema);
    forall t: TileRef | t in tileOrder
      ensures t in tileToCols
    {
      var c :| c in keys && src.schema.GetBaseTile(c) == t;
      assert c in oldToNew;
    }
    ConcatGroupsMembers(tileOrder, tileToCols);
    forall c: nat | c in oldToNew
      ensures c in ConcatGroups(tileOrder, tileToCols)
    {
      var i :| 0 <= i < |keys| && keys[i] == c;
      var t := src.schema.GetBaseTile(c);
      assert t in tileOrder;
      assert c in multiset(tileToCols[t]);
      assert c in tileToCols[t];
    }
    forall t: TileRef, c: nat {:trigger c in tileToCols[t]} | t in tileOrder && c in tileToCols[t]
      ensures c in oldToNew.Keys
    {
      assert t in tileToCols;
    }
    ConcatGroupsWithin(tileOrder, tileToCols, oldToNew.Keys);
  }

  /** A freshly allocated tile of `n` rows and `width` columns. */
  function FreshCells<V>(n: nat, width: nat, blank: V): (d: seq<seq<V>>)
    ensures Shaped(d, n, width)
  {
    seq(n, _ => seq(width, _ => blank))
  }

  /** The cells of the new physical tile: the requested columns, visited
      tile by tile, copied over a fresh tile with one row per source tuple. */
  function MaterializedCells<V>(node: Option<MaterializationNode>, src: LogicalTile<V>, blank: V)
    : (cells: seq<seq<V>>)
    requires src.Valid() && ProjectionFits(node, src)
    ensures Shaped(cells, src.TupleCount(), ResolveProjection(node, src).0.columnCount)
  {
    var (schema, oldToNew) := ResolveProjection(node, src);
    CopyColumns(FreshCells(src.TupleCount(), schema.columnCount, blank), src, TileOrderedColumns(oldToNew, src),
                oldToNew, schema.columnCount)
  }

  /** Create a physical tile from a logical tile and wrap it in a new logical
      tile that owns it. The new tile has exactly as many rows as the source
      and one column per output-schema column. */
  function Physify<V>(node: Option<MaterializationNode>, src: LogicalTile<V>, destRef: TileRef, blank: V)
    : (out: LogicalTile<V>)
    requires src.Valid() && ProjectionFits(node, src)
    ensures out.Valid()
    ensures out.TupleCount() == src.TupleCount()
    ensures out.schema.NumCols() == ResolveProjection(node, src).0.columnCount
    ensures out.ownsBaseTiles
  {
    var width := ResolveProjection(node, src).0.columnCount;
    WrapTile(Tile(width, MaterializedCells(node, src, blank)), destRef, true)
  }

  /** Physify's output shows the materialized cells unchanged. */
  lemma PhysifyCells<V>(node: Option<MaterializationNode>, src: LogicalTile<V>, destRef: TileRef, blank: V)
    requires src.Valid() && ProjectionFits(node, src)
    ensures var out := Physify(node, src, destRef, blank);
            var cells := MaterializedCells(node, src, blank);
            forall i, j :: 0 <= i < out.TupleCount() && 0 <= j < out.schema.NumCols() ==>
              out.GetValue(i, j) == cells[i][j]
  {
  }

  /** The positional contract of Physify: destination row i is the i-th
      logical row of the source, and with an injective map output column m[c]
      holds source column c. */
  lemma PhysifyPositional<V>(node: Option<MaterializationNode>, src: LogicalTile<V>, destRef: TileRef, blank: V)
    requires src.Valid() && ProjectionFits(node, src)
    requires Injective(ResolveProjection(node, src).1)
    ensures var m := ResolveProjection(node, src).1;
            forall i, c: nat :: 0 <= i < src.TupleCount() && c in m ==>
              Physify(node, src, destRef, blank).GetValue(i, m[c]) == src.GetValue(i, c)
  {
    var (schema, m) := ResolveProjection(node, src);
    var cols := TileOrderedColumns(m, src);
    PhysifyCells(node, src, destRef, blank);
    CopyColumnsCells(FreshCells(src.TupleCount(), schema.columnCount, blank), src, cols, m, schema.columnCount);
  }

  /** Output columns that no source column maps to keep the fresh tile's
      contents. */
  lemma PhysifyUnmappedBlank<V>(node: Option<MaterializationNode>, src: LogicalTile<V>, destRef: TileRef, blank: V)
    requires src.Valid() && ProjectionFits(node, src)
    ensures var (schema, m) := ResolveProjection(node, src);
            forall i, j: nat :: 0 <= i < src.TupleCount() && j < schema.columnCount && j !in m.Values ==>
              Physify(node, src, destRef, blank).GetValue(i, j) == blank
  {
    var (schema, m) := ResolveProjection(node, src);
    PhysifyCells(node, src, destRef, blank);
    UnwrittenStaysBlank(src, TileOrderedColumns(m, src), m, schema.columnCount, blank);
  }

  /** Copying over a fresh tile leaves every cell of an output column outside
      the map's image as the fresh tile had it. */
  lemma UnwrittenStaysBlank<V>(src: LogicalTile<V>, cols: seq<nat>, m: map<nat, nat>, width: nat, blank: V)
    requires Copyable(src, cols, m, width)
    ensures forall i, j: nat :: 0 <= i < src.TupleCount() && j < width && j !in m.Values ==>
              CopyColumns(FreshCells(src.TupleCount(), width, blank), src, cols, m, width)[i][j] == blank
  {
    var blankCells := FreshCells(src.TupleCount(), width, blank);
    CopyColumnsCells(blankCells, src, cols, m, width);
    WrittenWithinValues(cols, m);
    forall i, j: nat | 0 <= i < src.TupleCount() && j < width && j !in m.Values
      ensures CopyColumns(blankCells, src, cols, m, width)[i][j] == blank
    {
      assert j !in Written(cols, m);
      assert blankCells[i][j] == blank;
    }
  }

  /** With no plan node, or a plan node without a schema, materialization is
      a round trip: the output has the source's columns and every value of
      every logical row, in logical row order. */
  lemma PhysifyIdentityRoundTrip<V>(node: Option<MaterializationNode>, src: LogicalTile<V>, destRef: TileRef, blank: V)
    requires src.Valid()
    requires node.None? || node.value.schema.None?
    ensures ProjectionFits(node, src)
    ensures Physify(node, src, destRef, blank).schema.NumCols() == src.schema.NumCols()
    ensures forall i, c :: 0 <= i < src.TupleCount() && 0 <= c < src.schema.NumCols() ==>
              Physify(node, src, destRef, blank).GetValue(i, c) == src.GetValue(i, c)
  {
    var m := ResolveProjection(node, src).1;
    assert m == BuildIdentityMapping(src.schema.NumCols());
    PhysifyPositional(node, src, destRef, blank);
    forall i, c | 0 <= i < src.TupleCount() && 0 <= c < src.schema.NumCols()
      ensures Physify(node, src, destRef, blank).GetValue(i, c) == src.GetValue(i, c)
    {
      assert c in m && m[c] == c;
    }
  }

  /** Grouping by tile only serves locality: with an injective map, the
      physified tile equals a plain column-by-column copy in any order of the
      requested columns. */
  lemma PhysifyMatchesPlainCopy<V>(node: Option<MaterializationNode>, src: LogicalTile<V>, destRef: TileRef,
                                   blank: V, keys: seq<nat>)
    requires src.Valid() && ProjectionFits(node, src)
    requires Injective(ResolveProjection(node, src).1)
    requires Enumerates(keys, ResolveProjection(node, src).1.Keys)
    ensures var (schema, m) := ResolveProjection(node, src);
            Copyable(src, keys, m, schema.columnCount) &&
            Physify(node, src, destRef, blank).baseTiles[destRef].rows ==
              CopyColumns(FreshCells(src.TupleCount(), schema.columnCount, blank), src, keys, m, schema.columnCount)
  {
    var (schema, m) := ResolveProjection(node, src);
    var cols := TileOrderedColumns(m, src);
    CopyColumnsOrderIndependent(FreshCells(src.TupleCount(), schema.columnCount, blank), src, cols, keys,
                                m, schema.columnCount);
  }

  /** Whatever order the tile map is visited in, the concatenated column
      lists hold exactly the requested columns. */
  lemma AnyTileOrderCovers<V>(oldToNew: map<nat, nat>, keys: seq<nat>, src: LogicalTile<V>, tileOrder: seq<TileRef>)
    requires src.schema.Valid()
    requires Enumerates(keys, oldToNew.Keys)
    requires forall c: nat :: c in oldToNew ==> c < src.schema.NumCols()
    requires Enumerates(tileOrder, GenerateTileToColMap(oldToNew, keys, src).Keys)
    ensures forall c: nat :: c in ConcatGroups(tileOrder, GenerateTileToColMap(oldToNew, keys, src)) <==> c in oldToNew
  {
    var g := GenerateTileToColMap(oldToNew, keys, src);
    ConcatGroupsMembers(tileOrder, g);
    forall c: nat | c in oldToNew
      ensures c in ConcatGroups(tileOrder, g)
    {
      var t := src.schema.GetBaseTile(c);
      assert c in multiset(g[t]);
      assert c in g[t];
    }
  }

  /** Copying the tile map's groups in any visiting order gives the same
      cells as copying in Physify's order, when the map is injective. */
  lemma TileGroupedCopyMatches<V>(src: LogicalTile<V>, m: map<nat, nat>, keys: seq<nat>, tileOrder: seq<TileRef>,
                                  dest: seq<seq<V>>, width: nat)
    requires src.Valid() && MapFits(m, src, width) && Injective(m)
    requires Enumerates(keys, m.Keys)
    requires Enumerates(tileOrder, GenerateTileToColMap(m, keys, src).Keys)
    requires Shaped(dest, src.TupleCount(), width)
    ensures Copyable(src, ConcatGroups(tileOrder, GenerateTileToColMap(m, keys, src)), m, width)
    ensures Copyable(src, TileOrderedColumns(m, src), m, width)
    ensures CopyColumns(dest, src, ConcatGroups(tileOrder, GenerateTileToColMap(m, keys, src)), m, width)
            == CopyColumns(dest, src, TileOrderedColumns(m, src), m, width)
  {
    AnyTileOrderCovers(m, keys, src, tileOrder);
    CopyColumnsOrderIndependent(dest, src, ConcatGroups(tileOrder, GenerateTileToColMap(m, keys, src)),
                                TileOrderedColumns(m, src), m, width);
  }

  /** The source's Physify body with both hash orders left open: `keys` is
      the iteration order of the old-to-new map when the tile map is built,
      `tileOrder` the iteration order of the tile map when it is copied.
      With an injective map every choice yields the cells Physify shows. */
  method MaterializeInAnyOrder<V>(node: Option<MaterializationNode>, src: LogicalTile<V>, blank: V,
                                  keys: seq<nat>, tileOrder: seq<TileRef>)
    returns (cells: seq<seq<V>>)
    requires src.Valid() && ProjectionFits(node, src)
    requires Injective(ResolveProjection(node, src).1)
    requires Enumerates(keys, ResolveProjection(node, src).1.Keys)
    requires Enumerates(tileOrder, GenerateTileToColMap(ResolveProjection(node, src).1, keys, src).Keys)
    ensures cells == MaterializedCells(node, src, blank)
  {
    var (schema, m) := ResolveProjection(node, src);
    var blankCells := FreshCells(src.TupleCount(), schema.columnCount, blank);
    TileGroupedCopyMatches(src, m, keys, tileOrder, blankCells, schema.columnCount);
    cells := MaterializeByTiles(src, m, GenerateTileToColMap(m, keys, src), tileOrder, blankCells, schema.columnCount);
  }

  //===------------------------------------------------------------------===//
  // Execution
  //===------------------------------------------------------------------===//

  /** What the single child produced on one call: nothing (its Execute
      returned false), or a logical tile. */
  datatype ChildStep<V> = ChildExhausted | ChildOutput(tile: LogicalTile<V>)

  /** What one Execute of the materialization executor yields. */
  datatype ExecuteResult<V> = NoOutput | Output(tile: LogicalTile<V>)

  /** Whether the output must be physified; true when there is no plan node. */
  function PhysifyFlag(node: Option<MaterializationNode>): bool
  {
    match node
    case None => true
    case Some(n) => n.physifyFlag
  }

  /** One Execute: fail when the child fails or yields an empty tile;
      otherwise physify the child's tile or pass it through unchanged,
      as the flag says. */
  function DExecute<V>(node: Option<MaterializationNode>, child: ChildStep<V>, destRef: TileRef, blank: V)
    : (r: ExecuteResult<V>)
    requires child.ChildOutput? && child.tile.TupleCount() > 0 && PhysifyFlag(node) ==>
               child.tile.Valid() && ProjectionFits(node, child.tile)
    ensures r.Output? <==> child.ChildOutput? && child.tile.TupleCount() > 0
    ensures r.Output? && !PhysifyFlag(node) ==> r.tile == child.tile
    ensures r.Output? && PhysifyFlag(node) ==> r.tile == Physify(node, child.tile, destRef, blank)
  {
    match child
    case ChildExhausted => NoOutput
    case ChildOutput(source) =>
      if source.TupleCount() == 0 then NoOutput
      else if PhysifyFlag(node) then Output(Physify(node, source, destRef, blank))
      else Output(source)
  }

  /** A run over a child that yields one non-empty tile and then fails: the
      first Execute yields a tile with the same rows, owned by the output when
      physified; the second yields nothing. Without a plan node the output is
      a physical copy holding the source's values row by row. */
  lemma SingleTileRun<V>(node: Option<MaterializationNode>, source: LogicalTile<V>, destRef: TileRef, blank: V)
    requires source.Valid() && source.TupleCount() > 0
    requires PhysifyFlag(node) ==> ProjectionFits(node, source)
    ensures DExecute(node, ChildOutput(source), destRef, blank).Output?
    ensures DExecute(node, ChildExhausted, destRef, blank).NoOutput?
    ensures DExecute(node, ChildOutput(source), destRef, blank).tile.TupleCount() == source.TupleCount()
    ensures node.None? ==>
              var out := DExecute(node, ChildOutput(source), destRef, blank).tile;
              && out.ownsBaseTiles
              && out.Valid() && out.schema.NumCols() == source.schema.NumCols()
              && forall i, c :: 0 <= i < source.TupleCount() && 0 <= c < source.schema.NumCols() ==>
                   out.GetValue(i, c) == source.GetValue(i, c)
  {
    if node.None? {
      PhysifyIdentityRoundTrip(node, source, destRef, blank);
    }
  }
}
