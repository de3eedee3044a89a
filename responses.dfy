/**
 * What a handler hands back to Flask: a status code and a JSON document (the
 * value `jsonify` encodes), or an exception that escapes every handler and
 * becomes Flask's default 500 page.
 */
module Responses {

  /** A JSON document as built by the handlers before encoding. */
  datatype Json =
    | JNull
    | JInt(i: int)
    | JStr(s: string)
    | JList(items: seq<Json>)
    | JObject(fields: map<string, Json>)

  datatype Response =
    | Response(status: int, body: Json)
    /** An exception no error handler catches (a database error, for one). */
    | Unhandled
}
