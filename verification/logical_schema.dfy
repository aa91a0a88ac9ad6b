/** The schema of a logical tile: for every logical column, the physical tile
    it comes from, its column id inside that tile, and a valid bit. The three
    pieces are kept in parallel sequences, one entry per logical column. */
module LogicalSchemas {

  /** Identity of a physical tile (its address). */
  type TileRef = nat

  datatype LogicalSchema = LogicalSchema(
    baseTiles: seq<TileRef>,
    originColumns: seq<nat>,
    validBits: seq<bool>)
  {
    /** The three parallel sequences have one entry per logical column. */
    ghost predicate Valid() {
      |baseTiles| == |originColumns| == |validBits|
    }

    /** Number of logical columns, invalidated ones included. */
    function NumCols(): nat
      requires Valid()
    {
      |baseTiles|
    }

    function GetBaseTile(column: nat): TileRef
      requires Valid() && column < NumCols()
    {
      baseTiles[column]
    }

    function GetOriginColumnId(column: nat): nat
      requires Valid() && column < NumCols()
    {
      originColumns[column]
    }

    function IsValid(column: nat): bool
      requires Valid() && column < NumCols()
    {
      validBits[column]
    }
  }

  /** A schema with no columns. */
  function EmptySchema(): (s: LogicalSchema)
    ensures s.Valid() && s.NumCols() == 0
  {
    LogicalSchema([], [], [])
  }

  /** True when `t` agrees with `s` on every column of `s`. */
  ghost predicate Extends(t: LogicalSchema, s: LogicalSchema)
    requires s.Valid() && t.Valid()
  {
    && s.NumCols() <= t.NumCols()
    && forall k :: 0 <= k < s.NumCols() ==>
         && t.GetBaseTile(k) == s.GetBaseTile(k)
         && t.GetOriginColumnId(k) == s.GetOriginColumnId(k)
         && t.IsValid(k) == s.IsValid(k)
  }

  /** Append one valid column taken from column `column` of tile `tile`. */
  function AddColumn(s: LogicalSchema, tile: TileRef, column: nat): (r: LogicalSchema)
    requires s.Valid()
    ensures r.Valid()
    ensures r.NumCols() == s.NumCols() + 1
    ensures Extends(r, s)
    ensures r.GetBaseTile(s.NumCols()) == tile
    ensures r.GetOriginColumnId(s.NumCols()) == column
    ensures r.IsValid(s.NumCols())
  {
    LogicalSchema(s.baseTiles + [tile], s.originColumns + [column], s.validBits + [true])
  }

  /** Clear the valid bit of one column, leaving its position, tile and origin
      id in place so that the ids of all other columns stay the same. */
  function Invalidate(s: LogicalSchema, column: nat): (r: LogicalSchema)
    requires s.Valid() && column < s.NumCols()
    ensures r.Valid()
    ensures r.NumCols() == s.NumCols()
    ensures !r.IsValid(column)
    ensures forall k :: 0 <= k < s.NumCols() ==>
              && r.GetBaseTile(k) == s.GetBaseTile(k)
              && r.GetOriginColumnId(k) == s.GetOriginColumnId(k)
    ensures forall k :: 0 <= k < s.NumCols() && k != column ==> r.IsValid(k) == s.IsValid(k)
  {
    s.(validBits := s.validBits[column := false])
  }

  /** The schema obtained by adding the given (tile, column) pairs one after
      the other to an empty schema. */
  function BuildSchema(columns: seq<(TileRef, nat)>): (s: LogicalSchema)
    ensures s.Valid()
  {
    if columns == [] then EmptySchema()
    else
      var last := columns[|columns| - 1];
      AddColumn(BuildSchema(columns[..|columns| - 1]), last.0, last.1)
  }

  /** After the k-th AddColumn(tile, column), column k resolves to exactly
      that tile and column, and the count is the number of calls. */
  lemma {:induction false} BuildSchemaLookup(columns: seq<(TileRef, nat)>)
    ensures BuildSchema(columns).NumCols() == |columns|
    ensures forall k :: 0 <= k < |columns| ==>
              && BuildSchema(columns).GetBaseTile(k) == columns[k].0
              && BuildSchema(columns).GetOriginColumnId(k) == columns[k].1
              && BuildSchema(columns).IsValid(k)
  {
    if columns != [] {
      var prefix := columns[..|columns| - 1];
      BuildSchemaLookup(prefix);
      assert forall k :: 0 <= k < |prefix| ==> prefix[k] == columns[k];
    }
  }

  /** Number of columns whose valid bit is set. */
  function ValidCount(bits: seq<bool>): nat
  {
    if bits == [] then 0
    else ValidCount(bits[..|bits| - 1]) + (if bits[|bits| - 1] then 1 else 0)
  }

  /** Invalidating a valid column removes it from the valid ones while the
      column count, which includes invalidated columns, does not move. */
  lemma {:induction false} InvalidateKeepsNumCols(s: LogicalSchema, column: nat)
    requires s.Valid() && column < s.NumCols() && s.IsValid(column)
    ensures Invalidate(s, column).NumCols() == s.NumCols()
    ensures ValidCount(Invalidate(s, column).validBits) + 1 == ValidCount(s.validBits)
    ensures ValidCount(s.validBits) <= s.NumCols()
  {
    ValidCountUpdate(s.validBits, column);
    ValidCountBound(s.validBits);
  }

  lemma {:induction false} ValidCountUpdate(bits: seq<bool>, k: nat)
    requires k < |bits| && bits[k]
    ensures ValidCount(bits[k := false]) + 1 == ValidCount(bits)
  {
    var n := |bits| - 1;
    var updated := bits[k := false];
    if k == n {
      assert updated[..n] == bits[..n];
    } else {
      ValidCountUpdate(bits[..n], k);
      assert updated[..n] == bits[..n][k := false];
    }
  }

  lemma {:induction false} ValidCountBound(bits: seq<bool>)
    ensures ValidCount(bits) <= |bits|
  {
    if bits != [] {
      ValidCountBound(bits[..|bits| - 1]);
    }
  }
}
