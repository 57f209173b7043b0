/**
 * JSON values as the Go standard library's encoding/json sees them, and the
 * rules by which it decodes an object into the fields of a freshly allocated
 * struct and encodes struct fields tagged `omitempty`.
 */
module Wire {

  import opened Wrappers

  /** A JSON value (RFC 8259, sections 3 to 8). Numbers are integers only. */
  datatype Json =
    | JNull
    | JBool(b: bool)
    | JNumber(n: int)
    | JString(s: string)
    | JArray(items: seq<Json>)
    | JObject(members: map<string, Json>)

  /** Go's `int` on a 64-bit platform. */
  newtype int64 = x: int | InInt64Range(x)

  predicate InInt64Range(x: int) {
    -0x8000_0000_0000_0000 <= x < 0x8000_0000_0000_0000
  }

  /**
   * The member `key` of an object. A missing member reads as null, as indexing
   * a decoded `map[string]interface{}` gives nil both for a missing key and for
   * a JSON null.
   */
  function Member(o: map<string, Json>, key: string): (j: Json)
    ensures key !in o ==> j == JNull
    ensures key in o ==> j == o[key]
  {
    if key in o then o[key] else JNull
  }

  /**
   * The outcome of decoding into a fresh struct: Go stores every member whose
   * type fits, leaves the others at their zero value and reports a type error
   * (`ok` false) if any member did not fit.
   */
  datatype Decoded<T> = Decoded(value: T, ok: bool)

  /** A `string` struct field: absent or null keeps "", a string is stored, anything else is a type error. */
  function StringField(o: map<string, Json>, key: string): (d: Decoded<string>)
    ensures d.ok <==> Member(o, key).JNull? || Member(o, key).JString?
    ensures d.ok && d.value != "" ==> Member(o, key) == JString(d.value)
  {
    match Member(o, key)
    case JNull => Decoded("", true)
    case JString(s) => Decoded(s, true)
    case _ => Decoded("", false)
  }

  /** An `int` struct field: a number outside the 64-bit range is a type error, as is any non-number. */
  function IntField(o: map<string, Json>, key: string): (d: Decoded<int64>)
    ensures d.ok <==> Member(o, key).JNull? || (Member(o, key).JNumber? && InInt64Range(Member(o, key).n))
    ensures d.ok && d.value != 0 ==> Member(o, key) == JNumber(d.value as int)
  {
    match Member(o, key)
    case JNull => Decoded(0, true)
    case JNumber(n) => if InInt64Range(n) then Decoded(n as int64, true) else Decoded(0, false)
    case _ => Decoded(0, false)
  }

  /**
   * A pointer-to-struct field, given the decoder of the struct's members.
   * Null leaves the pointer nil; an object allocates the struct and decodes
   * into it; any other value also allocates it (Go allocates before it checks
   * the kind) and is a type error.
   */
  function PointerField<T>(o: map<string, Json>, key: string, decode: map<string, Json> -> Decoded<T>): (d: Decoded<Option<T>>)
    ensures Member(o, key).JNull? <==> d.value.None?
    ensures Member(o, key).JObject? ==> d == Decoded(Some(decode(Member(o, key).members).value), decode(Member(o, key).members).ok)
    ensures !Member(o, key).JNull? && !Member(o, key).JObject? ==> !d.ok
  {
    match Member(o, key)
    case JNull => Decoded(None, true)
    case JObject(m) => var s := decode(m); Decoded(Some(s.value), s.ok)
    case _ => Decoded(Some(decode(map[]).value), false)
  }

  /** Writes a `string` field tagged `omitempty` into the object being encoded. */
  function PutString(o: map<string, Json>, key: string, s: string): (r: map<string, Json>)
    ensures Member(r, key) == if s == "" then Member(o, key) else JString(s)
    ensures forall k :: k != key ==> Member(r, k) == Member(o, k)
  {
    if s == "" then o else o[key := JString(s)]
  }

  /** Writes an `int` field tagged `omitempty`. */
  function PutInt(o: map<string, Json>, key: string, n: int64): (r: map<string, Json>)
    ensures Member(r, key) == if n == 0 then Member(o, key) else JNumber(n as int)
    ensures forall k :: k != key ==> Member(r, k) == Member(o, k)
  {
    if n == 0 then o else o[key := JNumber(n as int)]
  }

  /** Writes a pointer-to-struct field tagged `omitempty`: nothing when nil. */
  function PutPointer<T>(o: map<string, Json>, key: string, p: Option<T>, encode: T -> map<string, Json>): (r: map<string, Json>)
    ensures Member(r, key) == if p.None? then Member(o, key) else JObject(encode(p.value))
    ensures forall k :: k != key ==> Member(r, k) == Member(o, k)
  {
    match p
    case None => o
    case Some(v) => o[key := JObject(encode(v))]
  }
}
