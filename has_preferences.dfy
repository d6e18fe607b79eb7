/**
 * The `HasPreferences` trait of src/HasPreferences.php, applied to one owning
 * record. The record reaches the shared preferences table through its
 * `preferences()` relation; here that table is a `Store` object whose rows
 * the record's methods update in place.
 */
module HasPreferences {
  import opened Wrappers
  import opened Preference
  import opened PreferenceTable

  /** The `model_preferences` table: its rows and its auto-increment counter. */
  class Store {
    var rows: seq<Row>
    var nextId: nat

    /** An empty table whose first inserted row gets id 1. */
    constructor ()
      ensures rows == [] && nextId == 1
      ensures Valid()
    {
      rows := [];
      nextId := 1;
    }

    function State(): TableState
      reads this
    {
      TableState(rows, nextId)
    }

    ghost predicate Valid()
      reads this
    {
      WellFormed(State())
    }
  }

  /**
   * The model-declared default for `name`: it counts only when the record
   * declares `$preference_defaults` as an array (`Some`) and that array has
   * the key.
   */
  function DeclaredDefault(defaults: Option<map<string, Value>>, name: string): (d: Option<Value>)
    ensures d.Some? <==> defaults.Some? && name in defaults.value
    ensures d.Some? ==> d.value == defaults.value[name]
  {
    match defaults
    case Some(declared) => if name in declared then Some(declared[name]) else None
    case None => None
  }

  /** What a read returns when the owner has no row: the declared default, else the caller's. */
  function Fallback(defaults: Option<map<string, Value>>, name: string, defaultValue: Value): (v: Value)
    ensures defaults.Some? && name in defaults.value ==> v == defaults.value[name]
    ensures !(defaults.Some? && name in defaults.value) ==> v == defaultValue
  {
    match DeclaredDefault(defaults, name)
    case Some(declared) => declared
    case None => defaultValue
  }

  /**
   * An owning record that uses the trait: its polymorphic owner reference,
   * its `$preference_defaults` (`None` when the property is missing or is
   * not an array) and the table its relation reads and writes.
   */
  class Preferable {
    const owner: Owner
    const defaults: Option<map<string, Value>>
    const store: Store

    constructor (owner: Owner, defaults: Option<map<string, Value>>, store: Store)
      ensures this.owner == owner && this.defaults == defaults && this.store == store
    {
      this.owner := owner;
      this.defaults := defaults;
      this.store := store;
    }

    /**
     * `getPreference($name, $defaultValue = null)`: the value of the owner's
     * first row named `name`, even when a default exists; without such a row
     * the model-declared default, even when the caller passes another; and
     * only then the caller's default.
     */
    function GetPreference(name: string, defaultValue: Value := Null): (v: Value)
      reads store
      ensures forall k :: IsFirst(store.rows, owner, name, k) ==> v == store.rows[k].value
      ensures Absent(store.rows, owner, name) && DeclaredDefault(defaults, name).Some? ==>
        v == DeclaredDefault(defaults, name).value
      ensures Absent(store.rows, owner, name) && DeclaredDefault(defaults, name).None? ==>
        v == defaultValue
    {
      match Lookup(store.rows, owner, name)
      case Some(stored) => stored
      case None => Fallback(defaults, name, defaultValue)
    }

    /** `prefers`: the same answer as `getPreference` for every table state. */
    function Prefers(name: string, defaultValue: Value := Null): (v: Value)
      reads store
      ensures forall k :: IsFirst(store.rows, owner, name, k) ==> v == store.rows[k].value
      ensures Absent(store.rows, owner, name) && DeclaredDefault(defaults, name).Some? ==>
        v == DeclaredDefault(defaults, name).value
      ensures Absent(store.rows, owner, name) && DeclaredDefault(defaults, name).None? ==>
        v == defaultValue
    {
      GetPreference(name, defaultValue)
    }

    /**
     * `setPreference`: update the first row named `name` in place, or insert
     * a new one when there is none; afterwards the name reads back as `value`.
     * Returns the owner for chaining.
     */
    method SetPreference(name: string, value: Value) returns (self: Preferable)
      requires store.Valid()
      modifies store
      ensures store.Valid()
      ensures store.State() == Upsert(old(store.State()), owner, name, value)
      ensures Unique(old(store.rows)) ==> Unique(store.rows)
      ensures forall d :: GetPreference(name, d) == value
      ensures Count(store.rows, owner, name)
           == if Count(old(store.rows), owner, name) == 0 then 1 else Count(old(store.rows), owner, name)
      ensures forall o :: o != owner ==> OwnedBy(store.rows, o) == OwnedBy(old(store.rows), o)
      ensures self == this
    {
      ghost var before := store.State();
      var saved := FirstMatch(store.rows, owner, name);
      match saved {
        case None =>
          store.rows := store.rows + [Row(store.nextId, owner, name, value)];
          store.nextId := store.nextId + 1;
        case Some(k) =>
          store.rows := store.rows[k := store.rows[k].(value := value)];
      }
      UpsertWellFormed(before, owner, name, value);
      UpsertReadsBack(before, owner, name, value);
      UpsertNeverDuplicates(before, owner, name, value);
      forall o | o != owner ensures OwnedBy(store.rows, o) == OwnedBy(before.rows, o) {
        UpsertKeepsOtherOwners(before, owner, name, value, o);
      }
      if Unique(before.rows) {
        UpsertUnique(before, owner, name, value);
      }
      self := this;
    }

    /**
     * `setPreferences`: one `setPreference` per entry, in iteration order;
     * afterwards every name reads back as the value of its last entry.
     */
    method SetPreferences(entries: seq<(string, Value)> := []) returns (self: Preferable)
      requires store.Valid()
      modifies store
      ensures store.Valid()
      ensures store.State() == UpsertAll(old(store.State()), owner, entries)
      ensures Unique(old(store.rows)) ==> Unique(store.rows)
      ensures forall name, d :: LastValue(entries, name).Some? ==>
        GetPreference(name, d) == LastValue(entries, name).value
      ensures forall o :: o != owner ==> OwnedBy(store.rows, o) == OwnedBy(old(store.rows), o)
      ensures self == this
    {
      ghost var before := store.State();
      for i := 0 to |entries|
        invariant store.Valid()
        invariant store.State() == UpsertAll(before, owner, entries[..i])
      {
        assert entries[..i + 1][..i] == entries[..i];
        var _ := SetPreference(entries[i].0, entries[i].1);
      }
      assert entries[..|entries|] == entries;
      UpsertAllInvariants(before, owner, entries);
      forall name | LastValue(entries, name).Some?
        ensures Lookup(store.rows, owner, name) == LastValue(entries, name)
      {
        UpsertAllReadsBack(before, owner, entries, owner, name);
      }
      forall o | o != owner ensures OwnedBy(store.rows, o) == OwnedBy(before.rows, o) {
        UpsertAllKeepsOtherOwners(before, owner, entries, o);
      }
      self := this;
    }

    /** The filtered delete the three `clear*` methods share. */
    method Clear(sel: Selector)
      requires store.Valid()
      modifies store
      ensures store.Valid()
      ensures store.rows == Deleted(old(store.rows), owner, sel) && store.nextId == old(store.nextId)
      ensures Unique(old(store.rows)) ==> Unique(store.rows)
      ensures forall o :: o != owner ==> OwnedBy(store.rows, o) == OwnedBy(old(store.rows), o)
    {
      ghost var before := store.State();
      store.rows := Deleted(store.rows, owner, sel);
      DeletedWellFormed(before, owner, sel);
      if Unique(before.rows) {
        DeletedUnique(before.rows, owner, sel);
      }
      forall o | o != owner ensures OwnedBy(store.rows, o) == OwnedBy(before.rows, o) {
        DeletedKeepsOtherOwners(before.rows, owner, sel, o);
      }
    }

    /**
     * `clearPreference`: delete every row of this owner named `name` (a no-op
     * when there is none); afterwards the name reads as its fallback.
     */
    method ClearPreference(name: string) returns (self: Preferable)
      requires store.Valid()
      modifies store
      ensures store.Valid()
      ensures store.rows == Deleted(old(store.rows), owner, Names({name})) && store.nextId == old(store.nextId)
      ensures Unique(old(store.rows)) ==> Unique(store.rows)
      ensures forall d :: GetPreference(name, d) == Fallback(defaults, name, d)
      ensures forall o :: o != owner ==> OwnedBy(store.rows, o) == OwnedBy(old(store.rows), o)
      ensures self == this
    {
      Clear(Names({name}));
      DeletedLookup(old(store.rows), owner, Names({name}), owner, name);
      self := this;
    }

    /**
     * `clearPreferences`: delete this owner's rows whose name is listed, in
     * one filtered delete; afterwards each listed name reads as its fallback.
     */
    method ClearPreferences(names: seq<string> := []) returns (self: Preferable)
      requires store.Valid()
      modifies store
      ensures store.Valid()
      ensures store.rows == Deleted(old(store.rows), owner, Names(set n | n in names))
      ensures store.nextId == old(store.nextId)
      ensures Unique(old(store.rows)) ==> Unique(store.rows)
      ensures forall name, d :: name in names ==> GetPreference(name, d) == Fallback(defaults, name, d)
      ensures forall o :: o != owner ==> OwnedBy(store.rows, o) == OwnedBy(old(store.rows), o)
      ensures self == this
    {
      var sel := Names(set n | n in names);
      Clear(sel);
      forall name | name in names ensures Lookup(store.rows, owner, name) == None {
        DeletedLookup(old(store.rows), owner, sel, owner, name);
      }
      self := this;
    }

    /**
     * `clearAllPreferences`: delete every row of this owner; afterwards every
     * name reads as its fallback.
     */
    method ClearAllPreferences() returns (self: Preferable)
      requires store.Valid()
      modifies store
      ensures store.Valid()
      ensures store.rows == Deleted(old(store.rows), owner, AllNames) && store.nextId == old(store.nextId)
      ensures Unique(old(store.rows)) ==> Unique(store.rows)
      ensures forall name, d :: GetPreference(name, d) == Fallback(defaults, name, d)
      ensures OwnedBy(store.rows, owner) == []
      ensures forall o :: o != owner ==> OwnedBy(store.rows, o) == OwnedBy(old(store.rows), o)
      ensures self == this
    {
      Clear(AllNames);
      forall name ensures Lookup(store.rows, owner, name) == None {
        DeletedLookup(old(store.rows), owner, AllNames, owner, name);
      }
      DeletedAllEmptiesOwner(old(store.rows), owner);
      self := this;
    }
  }
}
