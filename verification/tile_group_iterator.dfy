/** A cursor over a table's tile-group list: it starts at position 0, and
    each successful Next yields the group at the cursor and moves it one
    step on. The iterator refers to its table rather than holding a copy, so
    the table is an argument of every operation: each call sees the table as
    it is at that moment, groups appended during a scan included. Nothing
    here protects against concurrent changes. */
module TileGroupIterators {
  import opened Tables

  datatype TileGroupIterator = TileGroupIterator(position: nat)

  /** Outcome of one Next: no group left, or the group at the cursor and the
      advanced iterator. */
  datatype NextResult<V> = Exhausted | Advanced(group: TileGroup<V>, next: TileGroupIterator)

  /** A new iterator, positioned before the table's first group. */
  function NewIterator<V>(table: Table<V>): (it: TileGroupIterator)
    ensures it.position == 0
    ensures HasNext(it, table) <==> table.NumTileGroups() > 0
  {
    TileGroupIterator(0)
  }

  /** The copy constructor: same position over the same table, so the copy
      yields the same groups as the original from here on. */
  function CopyIterator(other: TileGroupIterator): (it: TileGroupIterator)
    ensures it.position == other.position
  {
    TileGroupIterator(other.position)
  }

  /** Over any table, a copy and its original agree on HasNext, on Next and
      on the whole remaining run. */
  lemma CopyIteratorSameRun<V>(other: TileGroupIterator, table: Table<V>)
    ensures HasNext(CopyIterator(other), table) == HasNext(other, table)
    ensures Next(CopyIterator(other), table) == Next(other, table)
    ensures Drain(CopyIterator(other), table) == Drain(other, table)
  {
  }

  /** Yield the group at the cursor of `table` and advance; fail when none
      is left. */
  function Next<V>(it: TileGroupIterator, table: Table<V>): (r: NextResult<V>)
    ensures r.Exhausted? <==> it.position >= table.NumTileGroups()
    ensures r.Advanced? ==>
              && r.group == table.GetTileGroup(it.position)
              && r.next.position == it.position + 1
  {
    if it.position < |table.tileGroups| then
      Advanced(table.tileGroups[it.position], TileGroupIterator(it.position + 1))
    else
      Exhausted
  }

  function HasNext<V>(it: TileGroupIterator, table: Table<V>): bool {
    it.position < table.NumTileGroups()
  }

  /** HasNext predicts exactly whether the next Next succeeds. */
  lemma HasNextPredictsNext<V>(it: TileGroupIterator, table: Table<V>)
    ensures HasNext(it, table) <==> Next(it, table).Advanced?
  {
  }

  /** An iterator that has run off the end sees a group appended afterwards:
      the next Next yields exactly that group. */
  lemma AppendedGroupSeen<V>(it: TileGroupIterator, table: Table<V>, group: TileGroup<V>)
    requires it.position == table.NumTileGroups()
    ensures Next(it, table).Exhausted?
    ensures Next(it, AddTileGroup(table, group)) == Advanced(group, TileGroupIterator(it.position + 1))
  {
  }

  /** Appending a group mid-scan changes nothing before the end: an iterator
      with groups left yields the same group and position as before, and its
      remaining run gains exactly the appended group at its end. */
  lemma {:induction false} AppendExtendsRun<V>(it: TileGroupIterator, table: Table<V>, group: TileGroup<V>)
    requires it.position <= table.NumTileGroups()
    ensures it.position < table.NumTileGroups() ==> Next(it, AddTileGroup(table, group)) == Next(it, table)
    ensures Drain(it, AddTileGroup(table, group)) == Drain(it, table) + [group]
  {
    var grown := AddTileGroup(table, group);
    DrainYieldsSuffix(it, table);
    DrainYieldsSuffix(it, grown);
    assert grown.tileGroups[it.position..] == table.tileGroups[it.position..] + [group];
  }

  /** Call Next until it fails; the groups yielded, in order. */
  function Drain<V>(it: TileGroupIterator, table: Table<V>): (groups: seq<TileGroup<V>>)
    ensures it.position <= table.NumTileGroups() ==>
              |groups| == table.NumTileGroups() - it.position
    decreases table.NumTileGroups() - it.position
  {
    match Next(it, table)
    case Exhausted => []
    case Advanced(g, next) => [g] + Drain(next, table)
  }

  /** From any position, draining yields the remaining groups in list order. */
  lemma {:induction false} DrainYieldsSuffix<V>(it: TileGroupIterator, table: Table<V>)
    requires it.position <= table.NumTileGroups()
    ensures Drain(it, table) == table.tileGroups[it.position..]
    decreases table.NumTileGroups() - it.position
  {
    match Next(it, table)
    case Exhausted =>
    case Advanced(g, next) =>
      DrainYieldsSuffix(next, table);
  }

  /** A full run from a new iterator visits every tile group once, in list
      order: as many successful Next calls as there are groups. */
  lemma FullRunVisitsAll<V>(table: Table<V>)
    ensures Drain(NewIterator(table), table) == table.tileGroups
    ensures |Drain(NewIterator(table), table)| == table.NumTileGroups()
  {
    DrainYieldsSuffix(NewIterator(table), table);
  }

  /** The usual scan loop over a table nobody changes meanwhile: while
      HasNext, take the next group. */
  method ScanTileGroups<V>(table: Table<V>) returns (visited: seq<TileGroup<V>>, nextCalls: nat)
    ensures visited == table.tileGroups
    ensures nextCalls == table.NumTileGroups()
  {
    var it := NewIterator(table);
    visited := [];
    nextCalls := 0;
    while HasNext(it, table)
      invariant it.position <= table.NumTileGroups()
      invariant visited == table.tileGroups[..it.position]
      invariant nextCalls == it.position
      decreases table.NumTileGroups() - it.position
    {
      var r := Next(it, table);
      assert table.tileGroups[..it.position + 1] == table.tileGroups[..it.position] + [r.group];
      visited := visited + [r.group];
      nextCalls := nextCalls + 1;
      it := r.next;
    }
    assert table.tileGroups[..it.position] == table.tileGroups;
  }
}
