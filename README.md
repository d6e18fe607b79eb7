# eloquent-preferences, modelled in Dafny

This package attaches named preferences to any Eloquent model. A record that
uses the `HasPreferences` trait reaches its preference rows through a
polymorphic `preferences()` relation. It reads them with `getPreference` and
`prefers`, which fall back first to the model's `$preference_defaults` and then
to the caller's default. It writes them with `setPreference` and
`setPreferences`, and deletes them with `clearPreference`, `clearPreferences`
and `clearAllPreferences`. Each `Preference` row picks its table name from
Laravel's `config()` helper, else from the `MODEL_PREFERENCE_TABLE`
constant, else from the default `model_preferences`.

The project has four modules:

- `Wrappers` (wrappers.dfy): the `Option` datatype.
- `Preference` (preference.dfy) covers src/Preference.php. It holds the value
  type, the table-name precedence over an `Environment` of optional `config()`
  helper and optional constant, mass assignment restricted to `$fillable`,
  and the `Preference` record class with its constructor.
- `PreferenceTable` (preference_table.dfy) is the preferences table as plain
  data. A table is a sequence of rows `(id, owner, name, value)` in insertion
  order plus the auto-increment counter. The module defines the queries the
  trait issues and the lemmas about them: first-match lookup, upsert,
  upsert of a batch, and filtered delete.
- `HasPreferences` (has_preferences.dfy) covers src/HasPreferences.php. The
  table is a `Store` object whose `rows` field the trait's methods reassign in
  place. The owning record is a `Preferable` object with an owner reference,
  its declared defaults and the store. `GetPreference` and `Prefers` are
  functions that read the store. The set and clear methods modify it, and
  their contracts give the new table and what it then reads as.

Assumptions of the model:

- `first()` carries no ordering in the source. The model reads it as "first
  in insertion order". `FirstIsLowestId` shows this is also the matching row
  with the lowest id.
- Every call is atomic. The read-then-write in `setPreference` cannot race
  with another caller.
- `$preference_defaults` is `None` when the property is missing or is not an
  array. It is `Some(map)` otherwise.
- Default arguments follow the source. `getPreference` and `prefers` default
  their last argument to `Null`, PHP's `null`. `setPreferences` and
  `clearPreferences` default to an empty list. The `Preference` constructor
  defaults to no attributes.
- The argument of `setPreferences` is a sequence of `(name, value)` pairs in
  the array's iteration order.
- The argument of `clearPreferences` is a sequence of names, used as a set,
  like `whereIn`. An empty list deletes nothing.
- I/O and the environment become inputs. The `config()` helper is an
  optional total function `(key, default) -> string`. The constant is an
  optional string.
- The store's other queries are not modelled: SQL, query building and
  `save`/`update`/`delete` persistence. They are stood in for by the
  functions of `PreferenceTable`.

Where the repository's tests and its code disagree, the model follows the
code. The tests expect reads to pass through a per-model cast table, but
`getPreference` returns the stored value untouched, so the model has
no casts. The tests also expect hidden attributes configured in three tiers,
which src/Preference.php does not implement, so they are not modelled.

## Model

| member | source | states |
|---|---|---|
| `Preference.QualifiedTableName` | src/Preference.php:55-69 | A defined `config()` helper decides the table name, asked for `eloquent-preferences.table` with `model_preferences` as its fallback. Without the helper a defined `MODEL_PREFERENCE_TABLE` decides. With neither, the name is `model_preferences`. |
| `Preference.ConfigOverridesConstant` | src/Preference.php:58-60 | When `config()` exists, the constant has no influence on the table name. |
| `Preference.MassAssign` | src/Preference.php:22-25 | Only `preference` and `value` are mass-assignable. The filled attributes are exactly the given ones whose key is fillable, with their given values. |
| `Preference.NewPreferenceAttributes` | src/HasPreferences.php:78-80 | The record that `setPreference` builds keeps both attributes it is given, `preference` and `value`. |
| `Preference.Preference.constructor` | src/Preference.php:33-38 | A new record takes its table from the table-name precedence, then receives exactly the mass-assignable attributes. |
| `PreferenceTable.FirstMatch` | src/HasPreferences.php:34 | `where('preference', $name)->first()` yields nothing exactly when the owner has no row of that name. Otherwise it yields the position of the first such row, and no earlier row matches. |
| `PreferenceTable.Lookup` | src/HasPreferences.php:34-38 | The stored value of that first row. It is absent exactly when the owner has no row of that name. |
| `PreferenceTable.OwnedBy` | src/HasPreferences.php:20-23 | The contents of the owner's `preferences()` relation: exactly the table's rows that belong to the owner, in table order. |
| `PreferenceTable.FirstIsLowestId` | src/HasPreferences.php:34 | In a table with auto-increment ids, the first matching row in insertion order is the matching row with the lowest id. |
| `PreferenceTable.Deleted` | src/HasPreferences.php:111 | A filtered delete keeps a row exactly when it is in the table and the filter does not select it. It never grows the table. |
| `PreferenceTable.DeletedMultiplicity` | src/HasPreferences.php:111 | With multiplicity: a delete keeps every copy of an unselected row and no copy of a selected one. |
| `PreferenceTable.DeletedLookup` | src/HasPreferences.php:109-139 | After a delete, a targeted `(owner, name)` reads as absent. Every other owner and name reads as before. |
| `PreferenceTable.DeletedNothing` | src/HasPreferences.php:109-114 | A delete whose filter matches no row leaves the table unchanged, so clearing a missing preference is a no-op. |
| `PreferenceTable.DeletedKeepsOtherOwners` | src/HasPreferences.php:109-139 | A delete through one owner's relation leaves every other owner's rows, in order, exactly as they were. |
| `PreferenceTable.DeletedAllEmptiesOwner` | src/HasPreferences.php:134-139 | After deleting all of an owner's rows, the owner has no rows. |
| `PreferenceTable.DeletedWellFormed` | src/HasPreferences.php:109-139 | A delete keeps ids below the counter and increasing in insertion order. |
| `PreferenceTable.DeletedUnique` | src/HasPreferences.php:109-139 | A delete never introduces a duplicate `(owner, name)`. |
| `PreferenceTable.Upsert` | src/HasPreferences.php:75-83 | `setPreference`'s write. When the owner has no row of that name, it appends `Row(nextId, owner, name, value)`, leaves the earlier rows as they were, and advances the counter. Otherwise it replaces only the first matching row's value, and the counter and every other row stay as they were. |
| `PreferenceTable.UpsertReadsBack` | src/HasPreferences.php:72-86 | After `setPreference(name, value)`, the owner's lookup of `name` finds `value`, whether a row was inserted or updated. This is the value as the model stores it; see "Column types" under Left out. |
| `PreferenceTable.UpsertKeepsOtherLookups` | src/HasPreferences.php:72-86 | `setPreference` leaves the lookup of every other `(owner, name)` unchanged. |
| `PreferenceTable.UpsertTouchesOnlyItsName` | src/HasPreferences.php:75-83 | Apart from the rows of its own `(owner, name)`, the table is the same sequence of rows before and after `setPreference`. |
| `PreferenceTable.UpsertNeverDuplicates` | src/HasPreferences.php:75-83 | On an absent name, `setPreference` adds exactly one row, and the name then has one row. On a present name it adds no row and keeps the row count. |
| `PreferenceTable.OverwriteKeepsOneRow` | src/HasPreferences.php:75-83 | Setting a new name twice leaves exactly one row, holding the second value. This is the value as the model stores it; see "Column types" under Left out. |
| `PreferenceTable.UpsertKeepsOtherOwners` | src/HasPreferences.php:72-86 | `setPreference` leaves every other owner's rows exactly as they were. |
| `PreferenceTable.UpsertWellFormed` | src/HasPreferences.php:77-80 | An inserted row takes the next auto-increment id, so ids stay below the counter and increasing. |
| `PreferenceTable.UpsertUnique` | src/HasPreferences.php:75-83 | Because it looks up before it inserts, `setPreference` never creates a duplicate `(owner, name)` in a table without duplicates. |
| `PreferenceTable.UniqueCountAtMostOne` | src/HasPreferences.php:75-83 | In a table without duplicates each `(owner, name)` has at most one row. |
| `PreferenceTable.UpsertAll` | src/HasPreferences.php:94-101 | `setPreferences`' loop, one upsert per entry in order. Each entry adds at most one row, and the table grows by exactly as many rows as the counter advances. |
| `PreferenceTable.LastValue` | src/HasPreferences.php:96-98 | The value a name ends up with after the loop: there is one exactly when some entry has the name, and it comes from the last such entry. |
| `PreferenceTable.UpsertAllReadsBack` | src/HasPreferences.php:94-101 | After `setPreferences(entries)`, each name in the entries reads as the value of its last entry. This is the value as the model stores it; see "Column types" under Left out. Every other `(owner, name)` reads as before. |
| `PreferenceTable.UpsertAllKeepsOtherOwners` | src/HasPreferences.php:94-101 | `setPreferences` leaves every other owner's rows exactly as they were. |
| `PreferenceTable.UpsertAllInvariants` | src/HasPreferences.php:94-101 | `setPreferences` keeps ids well formed and keeps a duplicate-free table duplicate-free. |
| `HasPreferences.Store.constructor` | database/migrations/2015_12_20_000000_create_model_preferences_table.php:20-25 | A freshly created table: no rows, and an auto-increment counter that gives the first row id 1. |
| `HasPreferences.DeclaredDefault` | src/HasPreferences.php:40-45 | A model default exists only when `$preference_defaults` is declared as an array holding the name, and it is that array's entry. |
| `HasPreferences.Fallback` | src/HasPreferences.php:40-48 | Without a stored row, the model-declared default is used when `$preference_defaults` is an array holding the name. Otherwise the caller's default is used. |
| `HasPreferences.Preferable.GetPreference` | src/HasPreferences.php:32-49 | If the owner has a row of that name, the result is the first such row's value, ignoring both defaults. Without a row, the result is the model-declared default when there is one, even if the caller passes another. Otherwise it is the caller's default, `Null` when omitted. |
| `HasPreferences.Preferable.Prefers` | src/HasPreferences.php:60-63 | The same three-way resolution as `getPreference`, for every table state. |
| `HasPreferences.Preferable.SetPreference` | src/HasPreferences.php:72-86 | The table becomes the upsert of the old table, with ids still well formed. The name then reads back as the new value. This is the value as the model stores it; see "Column types" under Left out. Its row count becomes 1 if it was 0 and is otherwise unchanged. Other owners' rows are untouched. The owner is returned. |
| `HasPreferences.Preferable.SetPreferences` | src/HasPreferences.php:94-101 | The loop equals one upsert per entry in iteration order. Each name then reads as its last entry's value. This is the value as the model stores it; see "Column types" under Left out. Other owners' rows are untouched. The owner is returned. |
| `HasPreferences.Preferable.Clear` | src/HasPreferences.php:109-139 | The shared filtered delete: the table keeps exactly the unselected rows. Ids stay well formed, and other owners' rows are untouched. |
| `HasPreferences.Preferable.ClearPreference` | src/HasPreferences.php:109-114 | Removes exactly this owner's rows with that name. The name then reads as its fallback. Other owners are untouched. The owner is returned. |
| `HasPreferences.Preferable.ClearPreferences` | src/HasPreferences.php:122-127 | Removes exactly this owner's rows whose name is listed. Each listed name then reads as its fallback. Other owners are untouched. The owner is returned. |
| `HasPreferences.Preferable.ClearAllPreferences` | src/HasPreferences.php:134-139 | Removes every row of this owner, which is left with none. Every name then reads as its fallback. Other owners are untouched. The owner is returned. |

## Left out

- Value casting: no cast tag, coercion or serialization is modelled. src/HasPreferences.php stores and returns values untouched, even though the repository's tests expect typed results.
- Value: PHP values are modelled as null, strings, integers and booleans only. Floats, arrays, objects, collections and dates are not. Nothing in the code inspects a value, so nothing depends on this.
- Hidden attributes: the three-tier hidden-attribute configuration is asserted by the tests but not implemented in src/Preference.php, so it is not modelled.
- `preferences()` and `preferable()`: the `morphMany` and `morphTo` relations are framework calls. They are represented by the `owner` field of each row, and resolving a row back to its owner record is not modelled.
- Timestamps: `created_at` and `updated_at` come from the clock and are not modelled.
- Name comparison: names are compared with exact string equality. A database collation that compares names case-insensitively is not modelled.
- PHP array keys: PHP turns integer-like string keys of the `setPreferences` array into integers. The model keeps every name a string.
- Concurrency: the read-then-write race of `setPreference` is outside this sequential model. Every call is atomic here.
- Store failures: connection and query errors propagate unchanged in the source. The model's store never fails.
- Column types: the `value` column is a non-null string column. The model keeps a value exactly as it was given. It omits the store's conversion of a value to the column's text, and the store rejecting a `null` value.
- Plumbing is not part of this model: the migration, the service provider, the contents of the config file, and the test harness's connection resolver.
- `HasPreferences.Preferable.SetPreference`, `Preference.Preference.constructor`: the record built by `new Preference([...])` and the table it names are not connected to the `Store`. The model has one table, and `NewPreferenceAttributes` states only what that record holds.
