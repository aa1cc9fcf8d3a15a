/** Values as the request handlers see them: optional request fields, JavaScript
    truthiness of ids and strings, and an HTTP response as a status with a body. */
module JsValues {

  /** A field that may be absent (`undefined` or `null` in the request). */
  datatype Option<+T> = None | Some(value: T)

  /** An HTTP response: the status code and the JSON body the handler sends. */
  datatype Response<+B> = Response(status: int, body: B)

  /** `!!x` for a numeric id: absent and 0 are falsy. */
  predicate TruthyId(x: Option<int>) {
    x.Some? && x.value != 0
  }

  /** `!!s` for a string field: absent and the empty string are falsy. */
  predicate TruthyStr(s: Option<string>) {
    s.Some? && s.value != ""
  }
}
