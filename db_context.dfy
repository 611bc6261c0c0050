/** The database context's save pipeline: every save first rewrites the
    tracked entries (audit stamps, physical delete turned into a soft delete),
    then persists them; every read of a `BaseEntity` table goes through the
    global `IsDeleted == false` filter unless filters are ignored. */
module DbContext {
  import opened Common

  datatype EntityState = Detached | Unchanged | Deleted | Modified | Added

  /** The `BaseEntity` columns of a row: key and audit fields. */
  datatype Row = Row(id: int, created: Time, modified: Option<Time>, isDeleted: bool, dateDeleted: Option<Time>)

  /** A change-tracker entry: the tracked entity and its state. */
  datatype Entry = Entry(state: EntityState, row: Row)

  /** What `HandleSoftDelete` does to one entry. */
  function Handled(e: Entry, now: Time): Entry {
    match e.state
    case Added => e.(row := e.row.(created := now, modified := Some(now)))
    case Modified => e.(row := e.row.(modified := Some(now)))
    case Deleted => Entry(Modified, e.row.(isDeleted := true, dateDeleted := Some(now)))
    case _ => e
  }

  function HandledAll(es: seq<Entry>, now: Time): (r: seq<Entry>)
    ensures |r| == |es|
    ensures forall i :: 0 <= i < |es| ==> r[i] == Handled(es[i], now)
  {
    seq(|es|, i requires 0 <= i < |es| => Handled(es[i], now))
  }

  /** Per-state effect of the rewrite: Added rows get both stamps, Modified
      rows a new `Modified` stamp with `Created` kept, Deleted rows become
      Modified with the deletion flag and date set and `Modified` untouched,
      all other states are left alone; the key never changes. */
  lemma HandledEffect(e: Entry, now: Time)
    ensures Handled(e, now).row.id == e.row.id
    ensures Handled(e, now).state != Deleted
    ensures e.state == Added ==>
      (Handled(e, now).state == Added && Handled(e, now).row.created == now
       && Handled(e, now).row.modified == Some(now) && Handled(e, now).row.isDeleted == e.row.isDeleted)
    ensures e.state == Modified ==>
      (Handled(e, now).state == Modified && Handled(e, now).row.created == e.row.created
       && Handled(e, now).row.modified == Some(now))
    ensures e.state == Deleted ==>
      (Handled(e, now).state == Modified && Handled(e, now).row.isDeleted
       && Handled(e, now).row.dateDeleted == Some(now) && Handled(e, now).row.created == e.row.created
       && Handled(e, now).row.modified == e.row.modified)
    ensures e.state == Unchanged || e.state == Detached ==> Handled(e, now) == e
  {
  }

  // ---- Persistence by the underlying provider ----

  function ReplaceById(table: seq<Row>, row: Row): (r: seq<Row>)
    ensures |r| == |table|
    ensures forall i :: 0 <= i < |table| ==> r[i] == if table[i].id == row.id then row else table[i]
  {
    seq(|table|, i requires 0 <= i < |table| => if table[i].id == row.id then row else table[i])
  }

  /** Writes one entry to the table: insert, update by key, or physical delete. */
  function Apply(table: seq<Row>, e: Entry): seq<Row> {
    match e.state
    case Added => table + [e.row]
    case Modified => ReplaceById(table, e.row)
    case Deleted => Filter(table, (x: Row) => x.id != e.row.id)
    case _ => table
  }

  function PersistAll(table: seq<Row>, es: seq<Entry>): seq<Row>
    decreases |es|
  {
    if es == [] then table else PersistAll(Apply(table, es[0]), es[1..])
  }

  predicate IsPending(e: Entry) {
    e.state == Added || e.state == Modified || e.state == Deleted
  }

  /** The number of entries a save writes, which `SaveChanges` returns. */
  function PendingCount(es: seq<Entry>): (n: nat)
    ensures n <= |es|
    ensures n == 0 <==> forall i :: 0 <= i < |es| ==> !IsPending(es[i])
  {
    if es == [] then 0 else (if IsPending(es[0]) then 1 else 0) + PendingCount(es[1..])
  }

  /** After a save the tracker accepts all changes. */
  function Accepted(e: Entry): Entry {
    match e.state
    case Added => e.(state := Unchanged)
    case Modified => e.(state := Unchanged)
    case Deleted => e.(state := Detached)
    case _ => e
  }

  function AcceptedAll(es: seq<Entry>): (r: seq<Entry>)
    ensures |r| == |es|
    ensures forall i :: 0 <= i < |es| ==> r[i] == Accepted(es[i])
  {
    seq(|es|, i requires 0 <= i < |es| => Accepted(es[i]))
  }

  predicate HasRow(table: seq<Row>, id: int) {
    exists i :: 0 <= i < |table| && table[i].id == id
  }

  /** Once no entry is in the Deleted state, persisting removes no row. */
  lemma {:induction false} PersistKeepsRows(table: seq<Row>, es: seq<Entry>, id: int)
    requires forall i :: 0 <= i < |es| ==> es[i].state != Deleted
    requires HasRow(table, id)
    ensures HasRow(PersistAll(table, es), id)
    decreases |es|
  {
    if es != [] {
      var next := Apply(table, es[0]);
      var i :| 0 <= i < |table| && table[i].id == id;
      if es[0].state == Added {
        assert next[i] == table[i];
      } else if es[0].state == Modified {
        assert next[i].id == id;
      }
      assert HasRow(next, id);
      PersistKeepsRows(next, es[1..], id);
    }
  }

  /** The global query filter: a read sees only rows whose `IsDeleted` is
      false, unless the query ignores filters. */
  function Query(table: seq<Row>, ignoreFilters: bool): (r: seq<Row>)
    ensures ignoreFilters ==> r == table
    ensures forall x :: x in r <==> x in table && (ignoreFilters || !x.isDeleted)
  {
    if ignoreFilters then table else Filter(table, (x: Row) => !x.isDeleted)
  }

  predicate UniqueIds(table: seq<Row>) {
    forall i, j :: 0 <= i < j < |table| ==> table[i].id != table[j].id
  }

  /** Removing a stored row through the tracker soft-deletes it: afterwards
      the row is still stored, flagged and dated, a filtered read no longer
      sees any row with that key, and a read that ignores filters still does. */
  lemma SoftDeleteHidesRow(table: seq<Row>, row: Row, now: Time)
    requires UniqueIds(table)
    requires HasRow(table, row.id)
    ensures var after := PersistAll(table, HandledAll([Entry(Deleted, row)], now));
      && row.(isDeleted := true, dateDeleted := Some(now)) in after
      && (forall x :: x in Query(after, false) ==> x.id != row.id)
      && HasRow(Query(after, true), row.id)
  {
    var es := HandledAll([Entry(Deleted, row)], now);
    var gone := row.(isDeleted := true, dateDeleted := Some(now));
    assert es == [Entry(Modified, gone)];
    var after := ReplaceById(table, gone);
    assert PersistAll(table, es) == PersistAll(after, []);
    var k :| 0 <= k < |table| && table[k].id == row.id;
    assert after[k] == gone;
    forall x | x in after && !x.isDeleted ensures x.id != row.id {
      var j :| 0 <= j < |after| && after[j] == x;
      if j != k { assert table[j].id != table[k].id; }
    }
  }

  /** The entries tracked by one context and the stored rows of one table. */
  class ChangeTracker {
    var entries: seq<Entry>
    var table: seq<Row>

    constructor (table0: seq<Row>)
      ensures entries == [] && table == table0
    {
      entries := [];
      table := table0;
    }

    /** Start tracking a row in the given state (`Add`, `Update`, `Remove`). */
    method Track(e: Entry)
      modifies this`entries
      ensures entries == old(entries) + [e]
    {
      entries := entries + [e];
    }

    /** The rewrite that both save paths perform before persisting. */
    method HandleSoftDelete(now: Time)
      modifies this`entries
      ensures entries == HandledAll(old(entries), now)
    {
      var i := 0;
      while i < |entries|
        invariant 0 <= i <= |entries| == |old(entries)|
        invariant forall k :: 0 <= k < i ==> entries[k] == Handled(old(entries)[k], now)
        invariant forall k :: i <= k < |entries| ==> entries[k] == old(entries)[k]
      {
        var e := entries[i];
        match e.state {
          case Added =>
            e := e.(row := e.row.(created := now, modified := Some(now)));
          case Modified =>
            e := e.(row := e.row.(modified := Some(now)));
          case Deleted =>
            e := Entry(Modified, e.row.(isDeleted := true, dateDeleted := Some(now)));
          case _ =>
        }
        entries := entries[i := e];
        i := i + 1;
      }
    }

    /** `SaveChanges` and `SaveChangesAsync`: rewrite, then persist, then
        accept; the result is the number of entries written. No row that
        was stored before the save is physically removed. */
    method SaveChanges(now: Time) returns (count: nat)
      modifies this
      ensures table == PersistAll(old(table), HandledAll(old(entries), now))
      ensures entries == AcceptedAll(HandledAll(old(entries), now))
      ensures count == PendingCount(HandledAll(old(entries), now))
      ensures forall id :: HasRow(old(table), id) ==> HasRow(table, id)
    {
      HandleSoftDelete(now);
      forall id | HasRow(table, id) ensures HasRow(PersistAll(table, entries), id) {
        forall i | 0 <= i < |entries| ensures entries[i].state != Deleted {
          HandledEffect(old(entries)[i], now);
        }
        PersistKeepsRows(table, entries, id);
      }
      count := PendingCount(entries);
      table := PersistAll(table, entries);
      entries := AcceptedAll(entries);
    }
  }
}
