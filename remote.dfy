/**
 * What the pages receive from the REST collection: JSON objects, and the
 * result of each awaited call as an outcome instead of a resolved or
 * rejected promise.
 */
module Remote {

  /** A JSON object whose values are strings; a key that is absent reads as
      `undefined`. */
  type Obj = map<string, string>

  datatype Option<T> = None | Some(value: T)

  /** The settled state of an awaited call: resolved with a value, or
      rejected with an error whose `response?.status` is `status`
      (None when there was no HTTP response, as for a network failure or a
      TypeError raised on the client). */
  datatype Outcome<T> = Ok(value: T) | Failed(status: Option<int>)

  /** `o[k]`, where an absent key is `undefined`. */
  function Get(o: Obj, k: string): (v: Option<string>) {
    if k in o then Some(o[k]) else None
  }

  /** `o[k] || ''`: an absent key or the empty string both give ''. */
  function GetOrEmpty(o: Obj, k: string): (v: string)
    ensures k in o ==> v == o[k]
    ensures k !in o ==> v == ""
  {
    if k in o then o[k] else ""
  }
}
