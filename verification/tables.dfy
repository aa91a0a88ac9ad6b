/** A table: an ordered list of fixed-capacity tile groups, a schema, and a
    list of indexes. Tuples are inserted into the last tile group while it has
    room; when it is full (or there is none) a fresh group is appended. A
    tuple slot is addressed by an item pointer (group position, offset). */
module Tables {
  import opened Common

  /** Number of tuple slots a tile group gets unless the table says otherwise. */
  const DEFAULT_TUPLES_PER_TILEGROUP: nat := 1000

  /** Catalog identity of a database or table; a table starts with neither. */
  datatype CatalogId = InvalidId | CatalogId(value: nat)

  /** One column of the table schema: only its nullability matters here. */
  datatype Column = Column(allowNull: bool)

  /** One column value of a tuple. */
  datatype Cell<V> = Null | Val(value: V)

  /** An occupied tuple slot: the inserting transaction and the tuple. */
  datatype Slot<V> = Slot(txnId: nat, tuple: seq<Cell<V>>)

  /** A tile group with room for `capacity` tuples; `slots` are the slots
      handed out so far, in allocation order. */
  datatype TileGroup<V> = TileGroup(capacity: nat, slots: seq<Slot<V>>)
  {
    ghost predicate Valid() {
      |slots| <= capacity
    }

    predicate HasRoom() {
      |slots| < capacity
    }
  }

  /** Address of a tuple slot: tile group position and offset inside it. */
  datatype ItemPointer = ItemPointer(block: nat, offset: nat)

  /** An index, known to the table only by identity. */
  datatype IndexRef = IndexRef(id: nat)

  datatype Table<V> = Table(
    databaseId: CatalogId,
    tableId: CatalogId,
    schema: seq<Column>,
    name: string,
    tileGroups: seq<TileGroup<V>>,
    indexes: seq<IndexRef>,
    primaryKeyIndex: Option<IndexRef>,
    tuplesPerTileGroup: nat)
  {
    /** Every tile group respects its own capacity. */
    ghost predicate Valid() {
      forall i :: 0 <= i < |tileGroups| ==> tileGroups[i].Valid()
    }

    function NumTileGroups(): (n: nat)
      ensures n == 0 <==> tileGroups == []
    {
      |tileGroups|
    }

    function GetTileGroup(id: nat): (g: TileGroup<V>)
      requires id < NumTileGroups()
      ensures g == tileGroups[id] && g in tileGroups
    {
      tileGroups[id]
    }

    /** There is a last tile group and it has a free slot. */
    predicate LastGroupHasRoom() {
      tileGroups != [] && tileGroups[|tileGroups| - 1].HasRoom()
    }

    function GetIndexCount(): nat {
      |indexes|
    }

    /** The index registered `i`-th. */
    function GetIndex(i: nat): (x: IndexRef)
      requires i < GetIndexCount()
      ensures x in indexes
    {
      indexes[i]
    }

    function GetPrimaryKeyIndex(): Option<IndexRef> {
      primaryKeyIndex
    }
  }

  //===------------------------------------------------------------------===//
  // Construction
  //===------------------------------------------------------------------===//

  /** The table constructor: no catalog ids yet, no tile groups, no indexes,
      no primary key index, and the default group capacity. */
  function NewTable<V>(schema: seq<Column>, name: string): (t: Table<V>)
    ensures t.Valid()
    ensures t.databaseId == InvalidId && t.tableId == InvalidId
    ensures t.schema == schema && t.name == name
    ensures t.NumTileGroups() == 0 && t.GetIndexCount() == 0
    ensures t.GetPrimaryKeyIndex() == None
    ensures t.tuplesPerTileGroup == DEFAULT_TUPLES_PER_TILEGROUP
  {
    Table(InvalidId, InvalidId, schema, name, [], [], None, DEFAULT_TUPLES_PER_TILEGROUP)
  }

  /** The name a factory-made table gets when the caller gives none. */
  const DEFAULT_TABLE_NAME: string := "temp"

  /** The table factory: a new table that records the given database id.
      The name defaults to `DEFAULT_TABLE_NAME`. */
  function GetTable<V>(databaseId: CatalogId, schema: seq<Column>, name: string := DEFAULT_TABLE_NAME)
    : (t: Table<V>)
    ensures t.databaseId == databaseId
    ensures t.Valid() && t.tableId == InvalidId
    ensures t.schema == schema && t.name == name
    ensures t.NumTileGroups() == 0 && t.GetIndexCount() == 0
    ensures t.GetPrimaryKeyIndex() == None
    ensures t.tuplesPerTileGroup == DEFAULT_TUPLES_PER_TILEGROUP
  {
    NewTable<V>(schema, name).(databaseId := databaseId)
  }

  /** A factory call without a name gives the table the name "temp" and is
      otherwise the constructor's table with the database id recorded. */
  lemma GetTableDefaultName<V>(databaseId: CatalogId, schema: seq<Column>)
    ensures GetTable<V>(databaseId, schema).name == "temp"
    ensures GetTable<V>(databaseId, schema) == NewTable<V>(schema, "temp").(databaseId := databaseId)
  {
  }

  //===------------------------------------------------------------------===//
  // Tile groups
  //===------------------------------------------------------------------===//

  /** `u` is `t` with zero or more tile groups appended and every existing
      group (hence every existing group id) unchanged. */
  ghost predicate GroupsExtend<V>(u: Table<V>, t: Table<V>) {
    && |t.tileGroups| <= |u.tileGroups|
    && forall i :: 0 <= i < |t.tileGroups| ==> u.tileGroups[i] == t.tileGroups[i]
  }

  /** Everything but the tile-group list is the same. */
  ghost predicate SameCatalog<V>(u: Table<V>, t: Table<V>) {
    && u.databaseId == t.databaseId && u.tableId == t.tableId
    && u.schema == t.schema && u.name == t.name
    && u.indexes == t.indexes && u.primaryKeyIndex == t.primaryKeyIndex
    && u.tuplesPerTileGroup == t.tuplesPerTileGroup
  }

  /** Append the given tile group at the end of the list. */
  function AddTileGroup<V>(t: Table<V>, g: TileGroup<V>): (u: Table<V>)
    ensures u.NumTileGroups() == t.NumTileGroups() + 1
    ensures u.GetTileGroup(t.NumTileGroups()) == g
    ensures GroupsExtend(u, t) && SameCatalog(u, t)
    ensures t.Valid() && g.Valid() ==> u.Valid()
  {
    t.(tileGroups := t.tileGroups + [g])
  }

  /** Append an empty tile group sized by the table's capacity and return
      the new group's id, which is its position in the list. */
  function AddDefaultTileGroup<V>(t: Table<V>): (r: (Table<V>, nat))
    ensures r.1 == t.NumTileGroups()
    ensures r.0.NumTileGroups() == t.NumTileGroups() + 1
    ensures r.0.GetTileGroup(r.1) == TileGroup(t.tuplesPerTileGroup, [])
    ensures GroupsExtend(r.0, t) && SameCatalog(r.0, t)
    ensures t.Valid() ==> r.0.Valid()
  {
    (AddTileGroup(t, TileGroup(t.tuplesPerTileGroup, [])), |t.tileGroups|)
  }

  //===------------------------------------------------------------------===//
  // Indexes
  //===------------------------------------------------------------------===//

  /** Register an index; a primary-key index also becomes the table's
      primary key index. */
  function AddIndex<V>(t: Table<V>, index: IndexRef, isPrimaryKey: bool): (u: Table<V>)
    ensures u.GetIndexCount() == t.GetIndexCount() + 1
    ensures u.GetIndex(t.GetIndexCount()) == index
    ensures forall i :: 0 <= i < t.GetIndexCount() ==> u.GetIndex(i) == t.GetIndex(i)
    ensures u.GetPrimaryKeyIndex() == if isPrimaryKey then Some(index) else t.GetPrimaryKeyIndex()
    ensures u.tileGroups == t.tileGroups
    ensures u.databaseId == t.databaseId && u.tableId == t.tableId
    ensures u.schema == t.schema && u.name == t.name && u.tuplesPerTileGroup == t.tuplesPerTileGroup
    ensures t.Valid() ==> u.Valid()
  {
    var u := t.(indexes := t.indexes + [index]);
    if isPrimaryKey then u.(primaryKeyIndex := Some(index)) else u
  }

  /** Registering a primary index and then a secondary one on a table with
      no indexes: position 0 holds the primary index, position 1 the
      secondary one, and the table can still be filled as before. Which
      index is the primary key is given by this model's `isPrimaryKey`
      flag, here set for the first. */
  lemma PrimaryThenSecondaryIndex<V>(t: Table<V>, primary: IndexRef, secondary: IndexRef)
    requires t.GetIndexCount() == 0
    ensures var u := AddIndex(AddIndex(t, primary, true), secondary, false);
            && u.GetIndexCount() == 2
            && u.GetIndex(0) == primary && u.GetIndex(1) == secondary
            && u.GetPrimaryKeyIndex() == Some(primary)
            && u.schema == t.schema && u.tuplesPerTileGroup == t.tuplesPerTileGroup
            && u.tileGroups == t.tileGroups
  {
  }

  //===------------------------------------------------------------------===//
  // Insertion
  //===------------------------------------------------------------------===//

  /** True when every non-nullable column of `schema` holds a value in
      `tuple`; columns are checked one by one from the last. */
  function CheckNulls<V>(schema: seq<Column>, tuple: seq<Cell<V>>): bool
    requires |tuple| == |schema|
  {
    if schema == [] then true
    else
      var k := |schema| - 1;
      (schema[k].allowNull || tuple[k] != Null) && CheckNulls(schema[..k], tuple[..k])
  }

  /** The independent statement of the null check. */
  ghost predicate NoNullViolation<V>(schema: seq<Column>, tuple: seq<Cell<V>>)
    requires |tuple| == |schema|
  {
    forall k :: 0 <= k < |schema| && !schema[k].allowNull ==> tuple[k] != Null
  }

  lemma {:induction false} CheckNullsMeaning<V>(schema: seq<Column>, tuple: seq<Cell<V>>)
    requires |tuple| == |schema|
    ensures CheckNulls(schema, tuple) <==> NoNullViolation(schema, tuple)
  {
    if schema != [] {
      var k := |schema| - 1;
      CheckNullsMeaning(schema[..k], tuple[..k]);
      assert forall j :: 0 <= j < k ==> schema[..k][j] == schema[j] && tuple[..k][j] == tuple[j];
    }
  }

  /** Why an insertion did not happen. */
  datatype InsertError =
    | SchemaMismatch       // the tuple does not have one value per column
    | ConstraintViolation  // a non-nullable column holds null
    | NoCapacity           // a fresh tile group has no slot (capacity 0)

  datatype InsertResult = Inserted(location: ItemPointer) | Rejected(error: InsertError)

  /** Append a slot to group `block`, which must have room. */
  function FillSlot<V>(t: Table<V>, block: nat, slot: Slot<V>): (u: Table<V>)
    requires block < t.NumTileGroups() && t.GetTileGroup(block).HasRoom()
    ensures t.Valid() ==> u.Valid()
  {
    var g := t.tileGroups[block];
    t.(tileGroups := t.tileGroups[block := g.(slots := g.slots + [slot])])
  }

  /** Insert a tuple for transaction `txnId`. The tuple is rejected when it
      has the wrong width or breaks a null constraint; otherwise it goes to
      the next free slot of the last tile group, after appending a fresh
      group when there is none or the last one is full. */
  function InsertTuple<V>(t: Table<V>, txnId: nat, tuple: seq<Cell<V>>): (r: (Table<V>, InsertResult))
    ensures t.Valid() ==> r.0.Valid()
  {
    if |tuple| != |t.schema| then (t, Rejected(SchemaMismatch))
    else if !CheckNulls(t.schema, tuple) then (t, Rejected(ConstraintViolation))
    else
      var t1 := if t.LastGroupHasRoom() then t
                else AddDefaultTileGroup(t).0;
      var block := |t1.tileGroups| - 1;
      if !t1.tileGroups[block].HasRoom() then (t, Rejected(NoCapacity))
      else
        var offset := |t1.tileGroups[block].slots|;
        (FillSlot(t1, block, Slot(txnId, tuple)), Inserted(ItemPointer(block, offset)))
  }

  /** What InsertTuple promises: which tuples it rejects and why; that a
      rejection leaves the table as it was; that an accepted tuple can be
      read back at the returned location, which lies within the group's
      capacity; and that every other slot and group keeps its contents. */
  lemma InsertTupleContract<V>(t: Table<V>, txnId: nat, tuple: seq<Cell<V>>)
    ensures var (u, res) := InsertTuple(t, txnId, tuple);
            && (res == Rejected(SchemaMismatch) <==> |tuple| != |t.schema|)
            && (|tuple| == |t.schema| ==>
                  (res == Rejected(ConstraintViolation) <==> !NoNullViolation(t.schema, tuple)))
            && (res.Rejected? ==> u == t)
            && (res.Rejected? <==> |tuple| != |t.schema| || !NoNullViolation(t.schema, tuple)
                                   || (t.tuplesPerTileGroup == 0 && !t.LastGroupHasRoom()))
            && (res.Inserted? ==>
                  var p := res.location;
                  && p.block < u.NumTileGroups()
                  && p.offset < u.GetTileGroup(p.block).capacity
                  && p.offset < |u.GetTileGroup(p.block).slots|
                  && u.GetTileGroup(p.block).slots[p.offset] == Slot(txnId, tuple)
                  && GroupsExtendExcept(u, t, p.block)
                  && |u.GetTileGroup(p.block).slots| == p.offset + 1
                  && u.NumTileGroups() == p.block + 1
                  && u.NumTileGroups() <= t.NumTileGroups() + 1
                  && (u.NumTileGroups() == t.NumTileGroups() + 1 <==> !t.LastGroupHasRoom())
                  && (u.NumTileGroups() == t.NumTileGroups() + 1 ==>
                        && u.GetTileGroup(p.block).capacity == t.tuplesPerTileGroup
                        && p.offset == 0)
                  && (p.block < t.NumTileGroups() ==> p.offset == |t.GetTileGroup(p.block).slots|)
                  && SameCatalog(u, t))
  {
    if |tuple| == |t.schema| {
      CheckNullsMeaning(t.schema, tuple);
    }
  }

  /** `u` is `t` with groups possibly appended, where every group other than
      `block` is unchanged and group `block` only gained slots at its end. */
  ghost predicate GroupsExtendExcept<V>(u: Table<V>, t: Table<V>, block: nat) {
    && |t.tileGroups| <= |u.tileGroups|
    && block < |u.tileGroups|
    && (forall i :: 0 <= i < |t.tileGroups| && i != block ==> u.tileGroups[i] == t.tileGroups[i])
    && (block < |t.tileGroups| ==>
          && u.tileGroups[block].capacity == t.tileGroups[block].capacity
          && |t.tileGroups[block].slots| <= |u.tileGroups[block].slots|
          && u.tileGroups[block].slots[..|t.tileGroups[block].slots|] == t.tileGroups[block].slots)
  }

  //===------------------------------------------------------------------===//
  // Growth of the tile-group list
  //===------------------------------------------------------------------===//

  /** Insert the tuples one after the other, all for transaction `txnId`;
      returns the final table and the result of every insert in order. */
  function InsertAll<V>(t: Table<V>, txnId: nat, tuples: seq<seq<Cell<V>>>): (r: (Table<V>, seq<InsertResult>))
    ensures |r.1| == |tuples|
    decreases |tuples|
  {
    if tuples == [] then (t, [])
    else
      var (t1, res) := InsertTuple(t, txnId, tuples[0]);
      var (t2, rest) := InsertAll(t1, txnId, tuples[1..]);
      (t2, [res] + rest)
  }

  /** Every tuple has one non-null value per column. */
  ghost predicate WellFormedRows<V>(schema: seq<Column>, tuples: seq<seq<Cell<V>>>) {
    forall i :: 0 <= i < |tuples| ==> |tuples[i]| == |schema| && NoNullViolation(schema, tuples[i])
  }

  /** The layout that insertion maintains: every group is sized by the
      table's capacity, every group before the last is full, and the last
      is not empty. */
  ghost predicate Packed<V>(t: Table<V>) {
    && (forall i :: 0 <= i < |t.tileGroups| ==> t.tileGroups[i].capacity == t.tuplesPerTileGroup)
    && (forall i :: 0 <= i < |t.tileGroups| - 1 ==> |t.tileGroups[i].slots| == t.tuplesPerTileGroup)
    && (t.tileGroups != [] ==> 1 <= |t.tileGroups[|t.tileGroups| - 1].slots| <= t.tuplesPerTileGroup)
  }

  /** Number of tuples stored in the table. */
  function TupleCount<V>(groups: seq<TileGroup<V>>): nat {
    if groups == [] then 0 else TupleCount(groups[..|groups| - 1]) + |groups[|groups| - 1].slots|
  }

  /** In a packed table of capacity `cap`, the stored tuples fill all groups
      but the last, which holds between 1 and `cap` of them. */
  lemma {:induction false} PackedCount<V>(groups: seq<TileGroup<V>>, cap: nat)
    requires forall i :: 0 <= i < |groups| - 1 ==> |groups[i].slots| == cap
    requires groups != [] ==> 1 <= |groups[|groups| - 1].slots| <= cap
    ensures groups == [] ==> TupleCount(groups) == 0
    ensures groups != [] ==> (|groups| - 1) * cap < TupleCount(groups) <= |groups| * cap
  {
    if groups != [] {
      var prefix := groups[..|groups| - 1];
      FullCount(prefix, cap);
    }
  }

  lemma {:induction false} FullCount<V>(groups: seq<TileGroup<V>>, cap: nat)
    requires forall i :: 0 <= i < |groups| ==> |groups[i].slots| == cap
    ensures TupleCount(groups) == |groups| * cap
  {
    if groups != [] {
      FullCount(groups[..|groups| - 1], cap);
    }
  }

  /** One accepted insert into a packed table keeps it packed and stores
      one more tuple. */
  lemma InsertKeepsPacked<V>(t: Table<V>, txnId: nat, tuple: seq<Cell<V>>)
    requires Packed(t) && t.tuplesPerTileGroup > 0
    requires |tuple| == |t.schema| && NoNullViolation(t.schema, tuple)
    ensures InsertTuple(t, txnId, tuple).1.Inserted?
    ensures Packed(InsertTuple(t, txnId, tuple).0)
    ensures InsertTuple(t, txnId, tuple).0.tuplesPerTileGroup == t.tuplesPerTileGroup
    ensures TupleCount(InsertTuple(t, txnId, tuple).0.tileGroups) == TupleCount(t.tileGroups) + 1
  {
    CheckNullsMeaning(t.schema, tuple);
    var u := InsertTuple(t, txnId, tuple).0;
    var n := |t.tileGroups|;
    if n > 0 && t.tileGroups[n - 1].HasRoom() {
      assert u.tileGroups[..n - 1] == t.tileGroups[..n - 1];
    } else {
      assert |u.tileGroups| == n + 1;
      assert u.tileGroups[..|u.tileGroups| - 1] == t.tileGroups;
    }
  }

  /** Inserting well-formed tuples into a packed table (a new table is one)
      accepts every tuple and leaves ceil(n / capacity) groups for n stored
      tuples: the group count grows exactly when the last group is full. */
  lemma {:induction false} InsertAllGroups<V>(t: Table<V>, txnId: nat, tuples: seq<seq<Cell<V>>>)
    requires Packed(t) && t.tuplesPerTileGroup > 0
    requires WellFormedRows(t.schema, tuples)
    ensures var (u, results) := InsertAll(t, txnId, tuples);
            && Packed(u) && u.tuplesPerTileGroup == t.tuplesPerTileGroup && u.schema == t.schema
            && TupleCount(u.tileGroups) == TupleCount(t.tileGroups) + |tuples|
            && (forall i :: 0 <= i < |results| ==> results[i].Inserted?)
    decreases |tuples|
  {
    if tuples != [] {
      InsertKeepsPacked(t, txnId, tuples[0]);
      var t1 := InsertTuple(t, txnId, tuples[0]).0;
      InsertTupleContract(t, txnId, tuples[0]);
      assert WellFormedRows(t1.schema, tuples[1..]) by {
        forall i | 0 <= i < |tuples[1..]|
          ensures |tuples[1..][i]| == |t1.schema| && NoNullViolation(t1.schema, tuples[1..][i])
        {
          assert tuples[1..][i] == tuples[i + 1];
        }
      }
      InsertAllGroups(t1, txnId, tuples[1..]);
    }
  }

  /** Filling a new table with `n` well-formed tuples, for any capacity:
      the number of groups k satisfies (k - 1) * cap < n <= k * cap. */
  lemma FreshTableGroups<V>(t: Table<V>, txnId: nat, tuples: seq<seq<Cell<V>>>)
    requires t.tileGroups == [] && t.tuplesPerTileGroup > 0
    requires WellFormedRows(t.schema, tuples)
    ensures var (u, results) := InsertAll(t, txnId, tuples);
            var k := u.NumTileGroups();
            && (forall i :: 0 <= i < |results| ==> results[i].Inserted?)
            && (tuples == [] ==> k == 0)
            && (tuples != [] ==> (k - 1) * t.tuplesPerTileGroup < |tuples| <= k * t.tuplesPerTileGroup)
  {
    InsertAllGroups(t, txnId, tuples);
    var u := InsertAll(t, txnId, tuples).0;
    PackedCount(u.tileGroups, u.tuplesPerTileGroup);
  }

  /** Multiplication by a positive number preserves and reflects order. */
  lemma MulCancel(a: nat, b: nat, c: nat)
    requires c > 0
    ensures a * c < b * c ==> a < b
    ensures a * c <= b * c ==> a <= b
  {
  }

  /** Three groups' worth of tuples gives exactly three groups. */
  lemma ThreeGroupsOfTuples<V>(t: Table<V>, txnId: nat, tuples: seq<seq<Cell<V>>>)
    requires t.tileGroups == [] && t.tuplesPerTileGroup > 0
    requires |tuples| == 3 * t.tuplesPerTileGroup
    requires WellFormedRows(t.schema, tuples)
    ensures InsertAll(t, txnId, tuples).0.NumTileGroups() == 3
    ensures forall i :: 0 <= i < |tuples| ==> InsertAll(t, txnId, tuples).1[i].Inserted?
  {
    FreshTableGroups(t, txnId, tuples);
    var k := InsertAll(t, txnId, tuples).0.NumTileGroups();
    var cap := t.tuplesPerTileGroup;
    assert k >= 1;
    MulCancel(k - 1, 3, cap);
    MulCancel(3, k, cap);
  }

  /** At most one group's worth of tuples into a new table gives one group. */
  lemma OneGroupOfTuples<V>(t: Table<V>, txnId: nat, tuples: seq<seq<Cell<V>>>)
    requires t.tileGroups == [] && t.tuplesPerTileGroup > 0
    requires 1 <= |tuples| <= t.tuplesPerTileGroup
    requires WellFormedRows(t.schema, tuples)
    ensures InsertAll(t, txnId, tuples).0.NumTileGroups() == 1
  {
    FreshTableGroups(t, txnId, tuples);
    var k := InsertAll(t, txnId, tuples).0.NumTileGroups();
    var cap := t.tuplesPerTileGroup;
    assert k >= 1;
    MulCancel(k - 1, 1, cap);
  }

  /** With the default capacity, 3000 tuples fill exactly three groups. */
  lemma DefaultCapacityThreeThousand<V>(schema: seq<Column>, name: string, txnId: nat, tuples: seq<seq<Cell<V>>>)
    requires |tuples| == 3000
    requires WellFormedRows(schema, tuples)
    ensures InsertAll(GetTable<V>(InvalidId, schema, name), txnId, tuples).0.NumTileGroups() == 3
  {
    ThreeGroupsOfTuples(GetTable<V>(InvalidId, schema, name), txnId, tuples);
  }

  /** Inserting rejected tuples changes nothing: a tuple with a null in a
      non-nullable column is refused with a constraint violation. */
  lemma NullTupleRejected<V>(t: Table<V>, txnId: nat, tuple: seq<Cell<V>>)
    requires |tuple| == |t.schema|
    requires exists k :: 0 <= k < |t.schema| && !t.schema[k].allowNull && tuple[k] == Null
    ensures InsertTuple(t, txnId, tuple) == (t, Rejected(ConstraintViolation))
  {
    CheckNullsMeaning(t.schema, tuple);
  }
}
