/** Physical tiles and the late-materialized logical tiles that view them. */
module LogicalTiles {
  import opened LogicalSchemas

  /** A dense physical tile: `width` columns and one inner sequence per row. */
  datatype Tile<V> = Tile(width: nat, rows: seq<seq<V>>) {
    ghost predicate Valid() {
      forall i :: 0 <= i < |rows| ==> |rows[i]| == width
    }

    function Height(): nat {
      |rows|
    }
  }

  /** A logical tile: a logical schema naming, for each column, the base tile
      and origin column it reads; the physical row id of every logical row, in
      iteration order; the base tiles themselves; and whether the logical tile
      owns its base tiles (true only for freshly materialized output). */
  datatype LogicalTile<V> = LogicalTile(
    schema: LogicalSchema,
    positions: seq<nat>,
    baseTiles: map<TileRef, Tile<V>>,
    ownsBaseTiles: bool)
  {
    /** Every column resolves to an existing column of a known base tile and
        every logical row to an existing row of that tile. */
    ghost predicate Valid() {
      && schema.Valid()
      && (forall t :: t in baseTiles ==> baseTiles[t].Valid())
      && (forall k :: 0 <= k < schema.NumCols() ==> Resolves(k))
    }

    ghost predicate Resolves(column: nat)
      requires schema.Valid() && column < schema.NumCols()
    {
      var t := schema.GetBaseTile(column);
      && t in baseTiles
      && schema.GetOriginColumnId(column) < baseTiles[t].width
      && forall i :: 0 <= i < |positions| ==> positions[i] < baseTiles[t].Height()
    }

    /** Number of logical rows. */
    function TupleCount(): nat {
      |positions|
    }

    /** The value of logical row `row` in logical column `column`: the cell at
        the row's physical row id and the column's origin column of its base
        tile. */
    function GetValue(row: nat, column: nat): V
      requires Valid() && row < TupleCount() && column < schema.NumCols()
    {
      assert Resolves(column);
      var tile := baseTiles[schema.GetBaseTile(column)];
      tile.rows[positions[row]][schema.GetOriginColumnId(column)]
    }
  }

  /** The schema of a logical tile that exposes every column of tile `ref`
      in order. */
  function WholeTileSchema(ref: TileRef, width: nat): (s: LogicalSchema)
    ensures s.Valid() && s.NumCols() == width
    ensures forall k :: 0 <= k < width ==>
              s.GetBaseTile(k) == ref && s.GetOriginColumnId(k) == k && s.IsValid(k)
  {
    if width == 0 then EmptySchema()
    else AddColumn(WholeTileSchema(ref, width - 1), ref, width - 1)
  }

  /** Wrap one physical tile in a logical tile that shows all its rows and
      columns unchanged. */
  function WrapTile<V>(tile: Tile<V>, ref: TileRef, owns: bool): (lt: LogicalTile<V>)
    requires tile.Valid()
    ensures lt.Valid()
    ensures lt.TupleCount() == tile.Height()
    ensures lt.schema.NumCols() == tile.width
    ensures lt.ownsBaseTiles == owns
    ensures forall i, j :: 0 <= i < tile.Height() && 0 <= j < tile.width ==>
              lt.GetValue(i, j) == tile.rows[i][j]
  {
    LogicalTile(WholeTileSchema(ref, tile.width), seq(tile.Height(), i => i), map[ref := tile], owns)
  }
}
