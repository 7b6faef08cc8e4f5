/** The JSON documents the stores hold, seen through the foreign functions
    that handle them. `JSON.parse` / `parse-json`, `JSON.stringify(v, null, 2)`,
    JavaScript truthiness and string conversion of a value are opaque: a store
    receives them as a `Json` record, and what the stores' properties need of
    them is stated as predicates that the lemmas take as preconditions. */
module Documents {
  import opened Js

  /** The foreign functions on documents of type `V`.
      `parse` fails with the parser's syntax message; `stringify` is
      `JSON.stringify(v, null, 2)`; `truthy` is JavaScript truthiness of a
      value; `show` is the template-literal conversion `${v}`. */
  datatype Json<!V> = Json(
    parse: string -> Result<V, string>,
    stringify: V -> string,
    truthy: V -> bool,
    show: V -> string)

  /** The stringified form of every value parses back to that value. */
  ghost predicate RoundTrips<V(!new)>(json: Json<V>) {
    forall v :: json.parse(json.stringify(v)) == Success(v)
  }

  /** The stringified form followed by a newline parses back to the value
      (JSON allows whitespace after the document). */
  ghost predicate RoundTripsWithNewline<V(!new)>(json: Json<V>) {
    forall v :: json.parse(json.stringify(v) + "\n") == Success(v)
  }

  /** What an updater callback does to the configuration it is handed: the
      configuration after its in-place edits, and whether it returned
      something other than `undefined`. */
  datatype Mutation<V> = Mutation(config: V, returned: bool)
}
