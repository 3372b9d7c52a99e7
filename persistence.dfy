/**
 * The host's key/value persistence (Montoya `preferences()` and `extensionData()`)
 * and the Gson codec, seen only through their interfaces: a store maps keys to
 * strings (a missing key is what `getString` reports as null), and decoding a
 * JSON string either yields a value, yields JSON `null`, or throws.
 */
module Persistence {

  /** Key under which the finding list is kept in the project's extension data. */
  const FindingsKey: string := "jsminer_findings"

  /** Key under which the rule list is kept in the user's preferences. */
  const RulesKey: string := "jsminer_rules"

  /** A persisted key/value store. */
  type Store = map<string, string>

  /** What `gson.fromJson` does with a string. */
  datatype Decoded<T> =
    | Parsed(value: T)   // a well-formed JSON array
    | JsonNull           // the literal `null` (or blank input): fromJson returns null
    | Malformed          // fromJson throws JsonSyntaxException

  /** Why loading a persisted list fails: the exception that escapes the loader. */
  datatype LoadFailure = NullList | SyntaxError

  /** `getString(key)` is null or empty. */
  predicate Blank(store: Store, key: string)
  {
    key !in store || store[key] == ""
  }
}
