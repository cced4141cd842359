/**
 Values shared by every part of the library demo: optional values, record
 identifiers, and the outcome of an HTTP request as the components see it.
 */
module Common {

  /** An optional value; `None` stands for JavaScript's `undefined`/`null`. */
  datatype Option<+T> = None | Some(value: T)

  /**
   Record identifiers. The components compare them with strict `===`, so a
   single identifier type with plain equality is all that is modelled.
   */
  type Id = string

  /**
   What a `fetch` call delivered:
   - `Ok(body)`: the request resolved with a 2xx status and its JSON body
     (if one is read) parsed to `body`;
   - `NotOk`: the request resolved with a non-2xx status;
   - `NetworkError`: the promise rejected (network failure, or a body that
     could not be parsed where the code reads one).
   */
  datatype Reply<+T> = Ok(body: T) | NotOk | NetworkError

  /** JavaScript truthiness of an optional string field. */
  predicate Truthy(v: Option<string>) {
    v.Some? && v.value != ""
  }

  /** A new state of a record list together with the alert the user sees, if any. */
  datatype Update<T> = Update(data: seq<T>, alert: Option<string>)
}
