/**
 * The preference record of src/Preference.php: the values a preference can
 * hold, how the record decides which table it lives in, and which attributes
 * can be mass-assigned when a record is built.
 */
module Preference {
  import opened Wrappers

  /**
   * A PHP value as the preference layer sees it. The package stores and
   * returns values untouched, so only the scalars a caller typically passes are
   * distinguished; `Null` is PHP's `null`, the default of every optional
   * argument.
   */
  datatype Value = Null | Str(s: string) | Int(i: int) | Bool(b: bool)

  /** `Preference::DEFAULT_MODEL_PREFERENCE_TABLE`. */
  const DefaultModelPreferenceTable: string := "model_preferences"

  /** The configuration key handed to Laravel's `config()` helper. */
  const TableConfigKey: string := "eloquent-preferences.table"

  /** The attributes listed in `$fillable`. */
  const Fillable: set<string> := {"preference", "value"}

  /** Laravel's `config($key, $default)` helper, as seen by this package. */
  type ConfigHelper = (string, string) -> string

  /**
   * What the global PHP environment offers when a record is built: the
   * `config()` function if it is defined, and the `MODEL_PREFERENCE_TABLE`
   * constant if it is defined.
   */
  datatype Environment = Environment(config: Option<ConfigHelper>, tableConstant: Option<string>)

  /**
   * `getQualifiedTableName`: the `config()` helper wins whenever it exists
   * (asked for the table key, with the package default as its fallback); only
   * without it does the constant count; with neither the default is used.
   */
  function QualifiedTableName(env: Environment): (table: string)
    ensures env.config.Some? ==>
      table == env.config.value(TableConfigKey, DefaultModelPreferenceTable)
    ensures env.config.None? && env.tableConstant.Some? ==> table == env.tableConstant.value
    ensures env.config.None? && env.tableConstant.None? ==> table == DefaultModelPreferenceTable
  {
    match env.config
    case Some(config) => config(TableConfigKey, DefaultModelPreferenceTable)
    case None =>
      match env.tableConstant
      case Some(constant) => constant
      case None => DefaultModelPreferenceTable
  }

  /**
   * Whatever the constant says, a defined `config()` helper alone decides the
   * table name.
   */
  lemma ConfigOverridesConstant(config: ConfigHelper, c1: Option<string>, c2: Option<string>)
    ensures QualifiedTableName(Environment(Some(config), c1))
         == QualifiedTableName(Environment(Some(config), c2))
  {
  }

  /**
   * Eloquent's mass assignment with `$fillable` set: every attribute whose key
   * is fillable is kept with its value, every other key is dropped.
   */
  function MassAssign(attributes: map<string, Value>): (filled: map<string, Value>)
    ensures filled.Keys == attributes.Keys * Fillable
    ensures forall key :: key in filled ==> filled[key] == attributes[key]
  {
    map key | key in attributes && key in Fillable :: attributes[key]
  }

  /**
   * The attributes `setPreference` passes to a new record, `preference` and
   * `value`, are both fillable, so the record carries exactly them.
   */
  lemma NewPreferenceAttributes(name: string, value: Value)
    ensures MassAssign(map["preference" := Str(name), "value" := value])
         == map["preference" := Str(name), "value" := value]
  {
  }

  /** An in-memory `Preference` model instance. */
  class Preference {
    var table: string
    var attributes: map<string, Value>

    /**
     * `new Preference($attributes)`: the table is fixed from the environment
     * first, then the fillable attributes are assigned.
     */
    constructor (env: Environment, attributes: map<string, Value> := map[])
      ensures table == QualifiedTableName(env)
      ensures this.attributes == MassAssign(attributes)
    {
      table := QualifiedTableName(env);
      this.attributes := MassAssign(attributes);
    }
  }
}
