/**
 * The server-assigned metadata (`Sys`) that assets and entries carry. Its
 * Go declaration lives outside the files modelled here; the model keeps the
 * four members the modelled code reads (ID, Version, CreatedAt and the
 * content type's ID) with the JSON keys of the Contentful wire format,
 * the content type being a link `{"sys": {"id": ...}}`.
 */
module Meta {

  import opened Wrappers
  import opened Wire

  datatype Sys = Sys(id: string, version: int64, createdAt: string, contentType: string)

  /** `Sys{}`, the zero value Go allocates before decoding. */
  const ZeroSys := Sys("", 0, "", "")

  /**
   * GetVersion of both assets and entries: 1 while no metadata has been
   * seen, the last known server version afterwards.
   */
  function VersionOf(sys: Option<Sys>): (v: int64)
    ensures sys.None? ==> v == 1
    ensures sys.Some? ==> v == sys.value.version
  {
    match sys
    case None => 1
    case Some(s) => s.version
  }

  function LinkToObject(id: string): map<string, Json> {
    map["sys" := JObject(PutString(map[], "id", id))]
  }

  function SysToObject(s: Sys): map<string, Json> {
    var o := PutString(map[], "id", s.id);
    var o := PutInt(o, "version", s.version);
    var o := PutString(o, "createdAt", s.createdAt);
    if s.contentType == "" then o else o["contentType" := JObject(LinkToObject(s.contentType))]
  }

  /** The ID of a link object, decoded as Go decodes nested pointers. */
  function LinkFromObject(o: map<string, Json>): Decoded<string> {
    match Member(o, "sys")
    case JNull => Decoded("", true)
    case JObject(m) => StringField(m, "id")
    case _ => Decoded("", false)
  }

  function SysFromObject(o: map<string, Json>): Decoded<Sys> {
    var id := StringField(o, "id");
    var version := IntField(o, "version");
    var createdAt := StringField(o, "createdAt");
    var contentType :=
      match Member(o, "contentType")
      case JNull => Decoded("", true)
      case JObject(m) => LinkFromObject(m)
      case _ => Decoded("", false);
    Decoded(Sys(id.value, version.value, createdAt.value, contentType.value),
            id.ok && version.ok && createdAt.ok && contentType.ok)
  }

  /**
   * Decoding a JSON value into a freshly allocated `Sys`: null leaves it
   * zero, an object fills it, anything else is a type error.
   */
  function DecodeSys(j: Json): (d: Decoded<Sys>)
    ensures j.JNull? ==> d == Decoded(ZeroSys, true)
    ensures !j.JNull? && !j.JObject? ==> d == Decoded(ZeroSys, false)
  {
    match j
    case JNull => Decoded(ZeroSys, true)
    case JObject(o) => SysFromObject(o)
    case _ => Decoded(ZeroSys, false)
  }

  /** Metadata survives being written and read back. */
  lemma SysRoundTrip(s: Sys)
    ensures SysFromObject(SysToObject(s)) == Decoded(s, true)
    ensures DecodeSys(JObject(SysToObject(s))) == Decoded(s, true)
  {
  }
}
