/**
 * The `model_preferences` table as the `preferences()` relation of
 * src/HasPreferences.php sees it: rows in insertion order, each owned by one
 * polymorphic owner. The queries the trait issues (`where(...)->first()`,
 * insert, update of one row, filtered delete) are the functions below; the
 * lemmas state what each of them does to the table.
 */
module PreferenceTable {
  import opened Wrappers
  import opened Preference

  /** The polymorphic owner reference: `preferable_type` and `preferable_id`. */
  datatype Owner = Owner(kind: string, key: int)

  /** One stored preference: `id`, the owner, `preference` and `value`. */
  datatype Row = Row(id: nat, owner: Owner, name: string, value: Value)

  /**
   * The whole table: its rows in insertion order, and the id the store's
   * auto-increment counter hands to the next inserted row.
   */
  datatype TableState = TableState(rows: seq<Row>, nextId: nat)

  /**
   * The filter of a delete issued through an owner's relation: the rows whose
   * name is in a set (`where`/`whereIn`), or every row of the owner.
   */
  datatype Selector = Names(names: set<string>) | AllNames

  /** `where('preference', $name)` on the relation of `owner`. */
  predicate Matches(r: Row, owner: Owner, name: string) {
    r.owner == owner && r.name == name
  }

  /** A delete through `owner`'s relation with filter `sel` hits `(rowOwner, rowName)`. */
  predicate Targets(owner: Owner, sel: Selector, rowOwner: Owner, rowName: string) {
    rowOwner == owner && (sel.AllNames? || rowName in sel.names)
  }

  predicate Selects(r: Row, owner: Owner, sel: Selector) {
    Targets(owner, sel, r.owner, r.name)
  }

  /**
   * Ids come from an auto-increment counter: every id is below the counter and
   * ids grow in insertion order, so "first in insertion order" is also "lowest id".
   */
  ghost predicate WellFormed(t: TableState) {
    (forall i :: 0 <= i < |t.rows| ==> t.rows[i].id < t.nextId) && IdsIncreasing(t.rows)
  }

  ghost predicate IdsIncreasing(rows: seq<Row>) {
    forall i, j :: 0 <= i < j < |rows| ==> rows[i].id < rows[j].id
  }

  /**
   * No owner has two rows with the same name. The schema does not enforce
   * this; the lemmas show that the trait's own operations keep it.
   */
  ghost predicate Unique(rows: seq<Row>) {
    forall i, j :: 0 <= i < j < |rows| && rows[i].owner == rows[j].owner ==> rows[i].name != rows[j].name
  }

  /** Row `k` is the first row of `owner` named `name`. */
  ghost predicate IsFirst(rows: seq<Row>, owner: Owner, name: string, k: int) {
    0 <= k < |rows| && Matches(rows[k], owner, name) &&
    forall j :: 0 <= j < k ==> !Matches(rows[j], owner, name)
  }

  /** `owner` has no row named `name`. */
  ghost predicate Absent(rows: seq<Row>, owner: Owner, name: string) {
    forall j :: 0 <= j < |rows| ==> !Matches(rows[j], owner, name)
  }

  /**
   * `where('preference', $name)->first()`: the position of the first matching
   * row in insertion order, if there is one.
   */
  function FirstMatch(rows: seq<Row>, owner: Owner, name: string): (k: Option<nat>)
    ensures k.None? <==> Absent(rows, owner, name)
    ensures k.Some? ==> IsFirst(rows, owner, name, k.value)
    decreases |rows|
  {
    if |rows| == 0 then None
    else if Matches(rows[0], owner, name) then Some(0)
    else
      match FirstMatch(rows[1..], owner, name)
      case None =>
        assert forall j :: 1 <= j < |rows| ==> rows[j] == rows[1..][j - 1];
        None
      case Some(k) =>
        assert forall j :: 1 <= j <= k ==> rows[j] == rows[1..][j - 1];
        Some(k + 1)
  }

  /** The stored value of that first row, if there is one. */
  function Lookup(rows: seq<Row>, owner: Owner, name: string): (v: Option<Value>)
    ensures v.None? <==> Absent(rows, owner, name)
    ensures forall k :: IsFirst(rows, owner, name, k) ==> v == Some(rows[k].value)
  {
    match FirstMatch(rows, owner, name)
    case None => None
    case Some(k) => Some(rows[k].value)
  }

  /** How many rows `owner` has under `name`. */
  function Count(rows: seq<Row>, owner: Owner, name: string): (c: nat)
    ensures c <= |rows|
    decreases |rows|
  {
    if |rows| == 0 then 0
    else (if Matches(rows[0], owner, name) then 1 else 0) + Count(rows[1..], owner, name)
  }

  /**
   * `setPreference` on the table: without a matching row a new row is
   * inserted at the end with the next id; otherwise the first matching row
   * gets the new value.
   */
  function Upsert(t: TableState, owner: Owner, name: string, value: Value): (after: TableState)
    ensures Absent(t.rows, owner, name) ==>
      after.nextId == t.nextId + 1 && |after.rows| == |t.rows| + 1 &&
      after.rows[..|t.rows|] == t.rows && after.rows[|t.rows|] == Row(t.nextId, owner, name, value)
    ensures forall k :: IsFirst(t.rows, owner, name, k) ==>
      after.nextId == t.nextId && |after.rows| == |t.rows| &&
      after.rows[k] == t.rows[k].(value := value) &&
      forall i :: 0 <= i < |t.rows| && i != k ==> after.rows[i] == t.rows[i]
  {
    match FirstMatch(t.rows, owner, name)
    case None => TableState(t.rows + [Row(t.nextId, owner, name, value)], t.nextId + 1)
    case Some(k) => TableState(t.rows[k := t.rows[k].(value := value)], t.nextId)
  }

  /** `setPreferences`: one upsert per entry, in iteration order. */
  function UpsertAll(t: TableState, owner: Owner, entries: seq<(string, Value)>): (after: TableState)
    ensures t.nextId <= after.nextId <= t.nextId + |entries|
    ensures |after.rows| - |t.rows| == after.nextId - t.nextId
    decreases |entries|
  {
    if |entries| == 0 then t
    else
      var last := entries[|entries| - 1];
      Upsert(UpsertAll(t, owner, entries[..|entries| - 1]), owner, last.0, last.1)
  }

  /** The value the last entry named `name` carries, if any entry does. */
  function LastValue(entries: seq<(string, Value)>, name: string): (v: Option<Value>)
    ensures v.Some? <==> exists i :: 0 <= i < |entries| && entries[i].0 == name
    ensures v.Some? ==> exists i :: 0 <= i < |entries| && entries[i] == (name, v.value) &&
                                 (forall j :: i < j < |entries| ==> entries[j].0 != name)
    decreases |entries|
  {
    if |entries| == 0 then None
    else if entries[|entries| - 1].0 == name then Some(entries[|entries| - 1].1)
    else LastValue(entries[..|entries| - 1], name)
  }

  /** A filtered `delete()` through `owner`'s relation: the rows it keeps, in order. */
  function Deleted(rows: seq<Row>, owner: Owner, sel: Selector): (kept: seq<Row>)
    ensures |kept| <= |rows|
    ensures forall r :: r in kept <==> r in rows && !Selects(r, owner, sel)
    decreases |rows|
  {
    if |rows| == 0 then []
    else
      assert rows == [rows[0]] + rows[1..];
      (if Selects(rows[0], owner, sel) then [] else [rows[0]]) + Deleted(rows[1..], owner, sel)
  }

  /** The rows of one owner, in order: the contents of its `preferences` relation. */
  function OwnedBy(rows: seq<Row>, owner: Owner): (mine: seq<Row>)
    ensures |mine| <= |rows|
    ensures forall r :: r in mine <==> r in rows && r.owner == owner
    decreases |rows|
  {
    if |rows| == 0 then []
    else (if rows[0].owner == owner then [rows[0]] else []) + OwnedBy(rows[1..], owner)
  }

  // ---------------------------------------------------------------------
  // Lookup

  /** A lookup decides on the head row first, then on the rest. */
  lemma LookupCons(x: Row, rest: seq<Row>, owner: Owner, name: string)
    ensures Lookup([x] + rest, owner, name)
         == if Matches(x, owner, name) then Some(x.value) else Lookup(rest, owner, name)
  {
  }

  /**
   * In a well-formed table the first matching row in insertion order is the
   * matching row with the lowest id, so reading `first()` as "first inserted"
   * agrees with ordering by the primary key.
   */
  lemma FirstIsLowestId(t: TableState, owner: Owner, name: string, k: nat)
    requires WellFormed(t) && IsFirst(t.rows, owner, name, k)
    ensures forall j :: 0 <= j < |t.rows| && Matches(t.rows[j], owner, name) ==> t.rows[k].id <= t.rows[j].id
  {
  }

  /**
   * Two tables that agree on which rows match `(owner, name)` and on the value
   * of every matching row give the same lookup.
   */
  lemma LookupAgrees(a: seq<Row>, b: seq<Row>, owner: Owner, name: string)
    requires |a| == |b|
    requires forall i :: 0 <= i < |a| ==> (Matches(a[i], owner, name) <==> Matches(b[i], owner, name))
    requires forall i :: 0 <= i < |a| && Matches(a[i], owner, name) ==> a[i].value == b[i].value
    ensures Lookup(a, owner, name) == Lookup(b, owner, name)
  {
  }

  // ---------------------------------------------------------------------
  // Count

  lemma {:induction false} CountAppend(rows: seq<Row>, x: Row, owner: Owner, name: string)
    ensures Count(rows + [x], owner, name)
         == Count(rows, owner, name) + (if Matches(x, owner, name) then 1 else 0)
    decreases |rows|
  {
    if |rows| == 0 {
      assert [] + [x] == [x];
    } else {
      assert (rows + [x])[1..] == rows[1..] + [x];
      CountAppend(rows[1..], x, owner, name);
    }
  }

  /** Replacing a matching row by another matching row keeps the count. */
  lemma {:induction false} CountUpdate(rows: seq<Row>, k: nat, x: Row, owner: Owner, name: string)
    requires k < |rows| && Matches(rows[k], owner, name) && Matches(x, owner, name)
    ensures Count(rows[k := x], owner, name) == Count(rows, owner, name)
    decreases |rows|
  {
    if k > 0 {
      assert rows[k := x][1..] == rows[1..][k - 1 := x];
      CountUpdate(rows[1..], k - 1, x, owner, name);
    }
  }

  /** The count is zero exactly when the owner has no row of that name. */
  lemma {:induction false} CountZeroIffAbsent(rows: seq<Row>, owner: Owner, name: string)
    ensures Count(rows, owner, name) == 0 <==> Absent(rows, owner, name)
    decreases |rows|
  {
    if |rows| > 0 {
      CountZeroIffAbsent(rows[1..], owner, name);
      if Absent(rows[1..], owner, name) && !Matches(rows[0], owner, name) {
        forall j | 0 <= j < |rows| ensures !Matches(rows[j], owner, name) {
          if j > 0 { assert rows[j] == rows[1..][j - 1]; }
        }
      }
    }
  }

  /** In a table without duplicates every `(owner, name)` has at most one row. */
  lemma {:induction false} UniqueCountAtMostOne(rows: seq<Row>, owner: Owner, name: string)
    requires Unique(rows)
    ensures Count(rows, owner, name) <= 1
    decreases |rows|
  {
    if |rows| > 0 {
      var rest := rows[1..];
      assert Unique(rest) by {
        forall i, j | 0 <= i < j < |rest| && rest[i].owner == rest[j].owner
          ensures rest[i].name != rest[j].name
        {
          assert rest[i] == rows[i + 1] && rest[j] == rows[j + 1];
        }
      }
      UniqueCountAtMostOne(rest, owner, name);
      if Matches(rows[0], owner, name) {
        assert Absent(rest, owner, name) by {
          forall j | 0 <= j < |rest| ensures !Matches(rest[j], owner, name) {
            assert rest[j] == rows[j + 1];
          }
        }
        CountZeroIffAbsent(rest, owner, name);
      }
    }
  }

  // ---------------------------------------------------------------------
  // Deleted and OwnedBy

  lemma {:induction false} DeletedAppend(a: seq<Row>, b: seq<Row>, owner: Owner, sel: Selector)
    ensures Deleted(a + b, owner, sel) == Deleted(a, owner, sel) + Deleted(b, owner, sel)
    decreases |a|
  {
    if |a| == 0 {
      assert a + b == b;
    } else {
      assert (a + b)[0] == a[0];
      assert (a + b)[1..] == a[1..] + b;
      DeletedAppend(a[1..], b, owner, sel);
    }
  }

  /**
   * A delete removes every copy of a selected row and keeps every copy of an
   * unselected one: the kept rows are the table's rows minus the selected ones,
   * counted with multiplicity.
   */
  lemma {:induction false} DeletedMultiplicity(rows: seq<Row>, owner: Owner, sel: Selector, r: Row)
    ensures multiset(Deleted(rows, owner, sel))[r] == if Selects(r, owner, sel) then 0 else multiset(rows)[r]
    decreases |rows|
  {
    if |rows| > 0 {
      DeletedMultiplicity(rows[1..], owner, sel, r);
      assert rows == [rows[0]] + rows[1..];
      assert multiset(rows) == multiset([rows[0]]) + multiset(rows[1..]);
    }
  }

  /** Replacing a deleted row by another deleted row does not change what a delete keeps. */
  lemma {:induction false} DeletedUpdateSelected(rows: seq<Row>, k: nat, x: Row, owner: Owner, sel: Selector)
    requires k < |rows| && Selects(rows[k], owner, sel) && Selects(x, owner, sel)
    ensures Deleted(rows[k := x], owner, sel) == Deleted(rows, owner, sel)
    decreases |rows|
  {
    if k > 0 {
      assert rows[k := x][1..] == rows[1..][k - 1 := x];
      DeletedUpdateSelected(rows[1..], k - 1, x, owner, sel);
    }
  }

  /** Deleting through one owner's relation never touches another owner's rows. */
  lemma {:induction false} DeletedKeepsOtherOwners(rows: seq<Row>, owner: Owner, sel: Selector, other: Owner)
    requires other != owner
    ensures OwnedBy(Deleted(rows, owner, sel), other) == OwnedBy(rows, other)
    decreases |rows|
  {
    if |rows| > 0 {
      var head := if Selects(rows[0], owner, sel) then [] else [rows[0]];
      DeletedKeepsOtherOwners(rows[1..], owner, sel, other);
      OwnedByAppend(head, Deleted(rows[1..], owner, sel), other);
    }
  }

  lemma {:induction false} OwnedByAppend(a: seq<Row>, b: seq<Row>, owner: Owner)
    ensures OwnedBy(a + b, owner) == OwnedBy(a, owner) + OwnedBy(b, owner)
    decreases |a|
  {
    if |a| == 0 {
      assert a + b == b;
    } else {
      assert (a + b)[0] == a[0];
      assert (a + b)[1..] == a[1..] + b;
      OwnedByAppend(a[1..], b, owner);
    }
  }

  /** After deleting all of an owner's rows, its relation is empty. */
  lemma {:induction false} DeletedAllEmptiesOwner(rows: seq<Row>, owner: Owner)
    ensures OwnedBy(Deleted(rows, owner, AllNames), owner) == []
    decreases |rows|
  {
    if |rows| > 0 {
      var head := if Selects(rows[0], owner, AllNames) then [] else [rows[0]];
      DeletedAllEmptiesOwner(rows[1..], owner);
      OwnedByAppend(head, Deleted(rows[1..], owner, AllNames), owner);
    }
  }

  /** A delete that selects nothing leaves the table as it was. */
  lemma {:induction false} DeletedNothing(rows: seq<Row>, owner: Owner, sel: Selector)
    requires forall i :: 0 <= i < |rows| ==> !Selects(rows[i], owner, sel)
    ensures Deleted(rows, owner, sel) == rows
    decreases |rows|
  {
    if |rows| > 0 {
      DeletedNothing(rows[1..], owner, sel);
      assert rows == [rows[0]] + rows[1..];
    }
  }

  /**
   * After a delete, a lookup of a targeted `(owner, name)` finds nothing, and
   * a lookup of anything else finds what it found before.
   */
  lemma {:induction false} DeletedLookup(rows: seq<Row>, owner: Owner, sel: Selector, o: Owner, name: string)
    ensures Lookup(Deleted(rows, owner, sel), o, name)
         == if Targets(owner, sel, o, name) then None else Lookup(rows, o, name)
    decreases |rows|
  {
    if |rows| > 0 {
      var x, tail := rows[0], rows[1..];
      var rest := Deleted(tail, owner, sel);
      DeletedLookup(tail, owner, sel, o, name);
      assert rows == [x] + tail;
      LookupCons(x, tail, o, name);
      if Selects(x, owner, sel) {
        assert Deleted(rows, owner, sel) == rest;
      } else {
        assert Deleted(rows, owner, sel) == [x] + rest;
        LookupCons(x, rest, o, name);
      }
    }
  }

  lemma IdsIncreasingCons(x: Row, rest: seq<Row>)
    requires IdsIncreasing(rest)
    requires forall r :: r in rest ==> x.id < r.id
    ensures IdsIncreasing([x] + rest)
  {
  }

  lemma IdsIncreasingTail(rows: seq<Row>)
    requires |rows| > 0 && IdsIncreasing(rows)
    ensures IdsIncreasing(rows[1..])
    ensures forall r :: r in rows[1..] ==> rows[0].id < r.id
  {
  }

  lemma {:induction false} DeletedIdsIncreasing(rows: seq<Row>, owner: Owner, sel: Selector)
    requires IdsIncreasing(rows)
    ensures IdsIncreasing(Deleted(rows, owner, sel))
    decreases |rows|
  {
    if |rows| > 0 {
      IdsIncreasingTail(rows);
      DeletedIdsIncreasing(rows[1..], owner, sel);
      if !Selects(rows[0], owner, sel) {
        IdsIncreasingCons(rows[0], Deleted(rows[1..], owner, sel));
      }
    }
  }

  /** A delete keeps ids increasing and below the counter. */
  lemma DeletedWellFormed(t: TableState, owner: Owner, sel: Selector)
    requires WellFormed(t)
    ensures WellFormed(TableState(Deleted(t.rows, owner, sel), t.nextId))
  {
    DeletedIdsIncreasing(t.rows, owner, sel);
    var kept := Deleted(t.rows, owner, sel);
    forall i | 0 <= i < |kept| ensures kept[i].id < t.nextId {
      assert kept[i] in t.rows;
    }
  }

  lemma UniqueCons(x: Row, rest: seq<Row>)
    requires Unique(rest)
    requires forall r :: r in rest && r.owner == x.owner ==> r.name != x.name
    ensures Unique([x] + rest)
  {
  }

  lemma UniqueTail(rows: seq<Row>)
    requires |rows| > 0 && Unique(rows)
    ensures Unique(rows[1..])
    ensures forall r :: r in rows[1..] && r.owner == rows[0].owner ==> r.name != rows[0].name
  {
  }

  /** A delete keeps the table free of duplicates. */
  lemma {:induction false} DeletedUnique(rows: seq<Row>, owner: Owner, sel: Selector)
    requires Unique(rows)
    ensures Unique(Deleted(rows, owner, sel))
    decreases |rows|
  {
    if |rows| > 0 {
      UniqueTail(rows);
      DeletedUnique(rows[1..], owner, sel);
      if !Selects(rows[0], owner, sel) {
        UniqueCons(rows[0], Deleted(rows[1..], owner, sel));
      }
    }
  }

  // ---------------------------------------------------------------------
  // Upsert

  /** After an upsert, the lookup of its `(owner, name)` finds the new value. */
  lemma UpsertReadsBack(t: TableState, owner: Owner, name: string, value: Value)
    ensures Lookup(Upsert(t, owner, name, value).rows, owner, name) == Some(value)
  {
    var rows := Upsert(t, owner, name, value).rows;
    match FirstMatch(t.rows, owner, name)
    case None =>
      assert IsFirst(rows, owner, name, |t.rows|);
    case Some(k) =>
      assert IsFirst(rows, owner, name, k);
  }

  /** An upsert leaves the lookup of every other `(owner, name)` as it was. */
  lemma UpsertKeepsOtherLookups(t: TableState, owner: Owner, name: string, value: Value, o: Owner, n: string)
    requires (o, n) != (owner, name)
    ensures Lookup(Upsert(t, owner, name, value).rows, o, n) == Lookup(t.rows, o, n)
  {
    var rows := Upsert(t, owner, name, value).rows;
    match FirstMatch(t.rows, owner, name)
    case None =>
      var x := Row(t.nextId, owner, name, value);
      assert rows == [] + t.rows + [x];
      if Absent(t.rows, o, n) {
        assert Absent(rows, o, n);
      } else {
        var k := FirstMatch(t.rows, o, n).value;
        assert forall j :: 0 <= j < |t.rows| ==> rows[j] == t.rows[j];
        assert IsFirst(rows, o, n, k);
      }
    case Some(k) =>
      LookupAgrees(t.rows, rows, o, n);
  }

  /**
   * An upsert touches only rows of its own `(owner, name)`: once those are set
   * aside, the table before and after is the same sequence of rows.
   */
  lemma UpsertTouchesOnlyItsName(t: TableState, owner: Owner, name: string, value: Value)
    ensures Deleted(Upsert(t, owner, name, value).rows, owner, Names({name}))
         == Deleted(t.rows, owner, Names({name}))
  {
    match FirstMatch(t.rows, owner, name)
    case None =>
      var x := Row(t.nextId, owner, name, value);
      DeletedAppend(t.rows, [x], owner, Names({name}));
      assert Deleted([x], owner, Names({name})) == [];
    case Some(k) =>
      DeletedUpdateSelected(t.rows, k, t.rows[k].(value := value), owner, Names({name}));
  }

  /**
   * An upsert on a name the owner does not have adds exactly one row; on a
   * name it has, it adds none. So it never creates a duplicate.
   */
  lemma UpsertNeverDuplicates(t: TableState, owner: Owner, name: string, value: Value)
    ensures var after := Upsert(t, owner, name, value).rows;
      |after| == |t.rows| + (if Absent(t.rows, owner, name) then 1 else 0) &&
      Count(after, owner, name) == if Count(t.rows, owner, name) == 0 then 1 else Count(t.rows, owner, name)
  {
    CountZeroIffAbsent(t.rows, owner, name);
    match FirstMatch(t.rows, owner, name)
    case None =>
      CountAppend(t.rows, Row(t.nextId, owner, name, value), owner, name);
    case Some(k) =>
      CountUpdate(t.rows, k, t.rows[k].(value := value), owner, name);
  }

  /**
   * Setting a new name twice leaves exactly one row for it, holding the
   * second value.
   */
  lemma OverwriteKeepsOneRow(t: TableState, owner: Owner, name: string, v1: Value, v2: Value)
    requires Absent(t.rows, owner, name)
    ensures var after := Upsert(Upsert(t, owner, name, v1), owner, name, v2).rows;
      Count(after, owner, name) == 1 && Lookup(after, owner, name) == Some(v2)
  {
    CountZeroIffAbsent(t.rows, owner, name);
    UpsertNeverDuplicates(t, owner, name, v1);
    UpsertNeverDuplicates(Upsert(t, owner, name, v1), owner, name, v2);
    UpsertReadsBack(Upsert(t, owner, name, v1), owner, name, v2);
  }

  /** An upsert leaves every other owner's rows exactly as they were. */
  lemma UpsertKeepsOtherOwners(t: TableState, owner: Owner, name: string, value: Value, other: Owner)
    requires other != owner
    ensures OwnedBy(Upsert(t, owner, name, value).rows, other) == OwnedBy(t.rows, other)
  {
    var sel := Names({name});
    DeletedKeepsOtherOwners(Upsert(t, owner, name, value).rows, owner, sel, other);
    DeletedKeepsOtherOwners(t.rows, owner, sel, other);
    UpsertTouchesOnlyItsName(t, owner, name, value);
  }

  lemma UpsertWellFormed(t: TableState, owner: Owner, name: string, value: Value)
    requires WellFormed(t)
    ensures WellFormed(Upsert(t, owner, name, value))
  {
  }

  lemma UpsertUnique(t: TableState, owner: Owner, name: string, value: Value)
    requires Unique(t.rows)
    ensures Unique(Upsert(t, owner, name, value).rows)
  {
  }

  // ---------------------------------------------------------------------
  // UpsertAll

  /**
   * After `setPreferences(entries)` the owner reads, for every name the
   * entries mention, the value of the last entry with that name; everything
   * else reads as before.
   */
  lemma {:induction false} UpsertAllReadsBack(t: TableState, owner: Owner, entries: seq<(string, Value)>, o: Owner, name: string)
    ensures Lookup(UpsertAll(t, owner, entries).rows, o, name)
         == if o == owner && LastValue(entries, name).Some? then LastValue(entries, name) else Lookup(t.rows, o, name)
    decreases |entries|
  {
    if |entries| > 0 {
      var init := entries[..|entries| - 1];
      var last := entries[|entries| - 1];
      UpsertAllReadsBack(t, owner, init, o, name);
      if (o, name) == (owner, last.0) {
        UpsertReadsBack(UpsertAll(t, owner, init), owner, last.0, last.1);
      } else {
        UpsertKeepsOtherLookups(UpsertAll(t, owner, init), owner, last.0, last.1, o, name);
      }
    }
  }

  /** `setPreferences` leaves every other owner's rows exactly as they were. */
  lemma {:induction false} UpsertAllKeepsOtherOwners(t: TableState, owner: Owner, entries: seq<(string, Value)>, other: Owner)
    requires other != owner
    ensures OwnedBy(UpsertAll(t, owner, entries).rows, other) == OwnedBy(t.rows, other)
    decreases |entries|
  {
    if |entries| > 0 {
      var init := entries[..|entries| - 1];
      var last := entries[|entries| - 1];
      UpsertAllKeepsOtherOwners(t, owner, init, other);
      UpsertKeepsOtherOwners(UpsertAll(t, owner, init), owner, last.0, last.1, other);
    }
  }

  /** `setPreferences` keeps the ids well formed and the table free of duplicates. */
  lemma {:induction false} UpsertAllInvariants(t: TableState, owner: Owner, entries: seq<(string, Value)>)
    ensures WellFormed(t) ==> WellFormed(UpsertAll(t, owner, entries))
    ensures Unique(t.rows) ==> Unique(UpsertAll(t, owner, entries).rows)
    decreases |entries|
  {
    if |entries| > 0 {
      var init := entries[..|entries| - 1];
      var last := entries[|entries| - 1];
      UpsertAllInvariants(t, owner, init);
      var mid := UpsertAll(t, owner, init);
      if WellFormed(mid) { UpsertWellFormed(mid, owner, last.0, last.1); }
      if Unique(mid.rows) { UpsertUnique(mid, owner, last.0, last.1); }
    }
  }
}
