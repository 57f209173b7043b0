/**
 * Assets: the file models, the locale codec that folds the server's
 * per-locale maps into one active locale (MarshalJSON / UnmarshalJSON), the
 * version rule, and the requests that Upsert, Delete, Process and Publish send.
 */
module Assets {

  import opened Wrappers
  import opened Wire
  import opened Meta
  import opened Decimal
  import opened Http

  // ---------------------------------------------------------------------
  // File models. Go `int` fields are int64; pointers are Options.
  // ---------------------------------------------------------------------

  datatype FileImage = FileImage(width: int64, height: int64)

  datatype FileDetail = FileDetail(size: int64, image: Option<FileImage>)

  datatype UploadFrom = UploadFrom(sys: Option<Sys>)

  datatype File = File(
    name: string,
    contentType: string,
    url: string,
    uploadUrl: string,
    detail: Option<FileDetail>,
    uploadFrom: Option<UploadFrom>)

  /** `File{}`: what a missing or null file entry decodes to. */
  const EmptyFile := File("", "", "", "", None, None)

  /** The in-memory fields of an asset, for its one active locale. */
  datatype FileFields = FileFields(title: string, description: string, file: Option<File>)

  // ---------------------------------------------------------------------
  // Wire form of a File: every member is tagged omitempty.
  // ---------------------------------------------------------------------

  function ImageToObject(i: FileImage): (o: map<string, Json>) {
    var o := PutInt(map[], "width", i.width);
    PutInt(o, "height", i.height)
  }

  function DetailToObject(d: FileDetail): (o: map<string, Json>) {
    var o := PutInt(map[], "size", d.size);
    PutPointer(o, "image", d.image, ImageToObject)
  }

  function UploadFromToObject(u: UploadFrom): (o: map<string, Json>) {
    PutPointer(map[], "sys", u.sys, SysToObject)
  }

  /** A File's wire object: each member present exactly when it is not empty. */
  function FileToObject(f: File): (o: map<string, Json>)
    ensures Member(o, "fileName") == if f.name == "" then JNull else JString(f.name)
    ensures Member(o, "contentType") == if f.contentType == "" then JNull else JString(f.contentType)
    ensures Member(o, "url") == if f.url == "" then JNull else JString(f.url)
    ensures Member(o, "upload") == if f.uploadUrl == "" then JNull else JString(f.uploadUrl)
    ensures Member(o, "details") == if f.detail.None? then JNull else JObject(DetailToObject(f.detail.value))
    ensures Member(o, "uploadFrom") == if f.uploadFrom.None? then JNull else JObject(UploadFromToObject(f.uploadFrom.value))
  {
    var o := PutString(map[], "fileName", f.name);
    var o := PutString(o, "contentType", f.contentType);
    var o := PutString(o, "url", f.url);
    var o := PutString(o, "upload", f.uploadUrl);
    var o := PutPointer(o, "details", f.detail, DetailToObject);
    PutPointer(o, "uploadFrom", f.uploadFrom, UploadFromToObject)
  }

  function ImageFromObject(o: map<string, Json>): (d: Decoded<FileImage>) {
    var w := IntField(o, "width");
    var h := IntField(o, "height");
    Decoded(FileImage(w.value, h.value), w.ok && h.ok)
  }

  function DetailFromObject(o: map<string, Json>): (d: Decoded<FileDetail>) {
    var size := IntField(o, "size");
    var image := PointerField(o, "image", ImageFromObject);
    Decoded(FileDetail(size.value, image.value), size.ok && image.ok)
  }

  function UploadFromFromObject(o: map<string, Json>): (d: Decoded<UploadFrom>) {
    var sys := PointerField(o, "sys", SysFromObject);
    Decoded(UploadFrom(sys.value), sys.ok)
  }

  /**
   * Decoding a File's members: an empty object gives the empty File, and
   * every non-empty string and every allocated pointer in the result comes
   * from a member of the object.
   */
  function FileFromObject(o: map<string, Json>): (d: Decoded<File>)
    ensures o == map[] ==> d == Decoded(EmptyFile, true)
    ensures d.value.name != "" ==> Member(o, "fileName") == JString(d.value.name)
    ensures d.value.contentType != "" ==> Member(o, "contentType") == JString(d.value.contentType)
    ensures d.value.url != "" ==> Member(o, "url") == JString(d.value.url)
    ensures d.value.uploadUrl != "" ==> Member(o, "upload") == JString(d.value.uploadUrl)
    ensures d.value.detail.Some? <==> !Member(o, "details").JNull?
    ensures d.value.uploadFrom.Some? <==> !Member(o, "uploadFrom").JNull?
  {
    var name := StringField(o, "fileName");
    var contentType := StringField(o, "contentType");
    var url := StringField(o, "url");
    var upload := StringField(o, "upload");
    var detail := PointerField(o, "details", DetailFromObject);
    var uploadFrom := PointerField(o, "uploadFrom", UploadFromFromObject);
    Decoded(File(name.value, contentType.value, url.value, upload.value, detail.value, uploadFrom.value),
            name.ok && contentType.ok && url.ok && upload.ok && detail.ok && uploadFrom.ok)
  }

  /**
   * Decoding a JSON value into the freshly allocated `File{}` (asset.go:130,
   * 135-137): null leaves it empty, an object fills it, anything else is a
   * type error that leaves it empty.
   */
  function DecodeFile(j: Json): (d: Decoded<File>)
    ensures j.JNull? ==> d == Decoded(EmptyFile, true)
    ensures !j.JNull? && !j.JObject? ==> d == Decoded(EmptyFile, false)
  {
    match j
    case JNull => Decoded(EmptyFile, true)
    case JObject(o) => FileFromObject(o)
    case _ => Decoded(EmptyFile, false)
  }

  /** The value written under the locale key of `fields.file`: a nil File becomes null. */
  function FileValue(f: Option<File>): (j: Json) {
    match f
    case None => JNull
    case Some(x) => JObject(FileToObject(x))
  }

  lemma DetailRoundTrip(d: FileDetail)
    ensures DetailFromObject(DetailToObject(d)) == Decoded(d, true)
  {
  }

  lemma UploadFromRoundTrip(u: UploadFrom)
    ensures UploadFromFromObject(UploadFromToObject(u)) == Decoded(u, true)
  {
    if u.sys.Some? {
      SysRoundTrip(u.sys.value);
    }
  }

  /** A File, with all its omitted-when-empty members, survives being written and read back. */
  lemma FileRoundTrip(f: File)
    ensures FileFromObject(FileToObject(f)) == Decoded(f, true)
  {
    if f.detail.Some? {
      DetailRoundTrip(f.detail.value);
    }
    if f.uploadFrom.Some? {
      UploadFromRoundTrip(f.uploadFrom.value);
    }
  }

  // ---------------------------------------------------------------------
  // MarshalJSON (asset.go:55-87)
  // ---------------------------------------------------------------------

  /** The `fields` member: each field as a one-member object keyed by the locale. */
  function FieldsObject(locale: string, fields: FileFields): (o: map<string, Json>) {
    map[
      "title" := JObject(map[locale := JString(fields.title)]),
      "description" := JObject(map[locale := JString(fields.description)]),
      "file" := JObject(map[locale := FileValue(fields.file)])]
  }

  /**
   * The wire object of an asset. As in the source, the payload starts with
   * a placeholder `sys` member that is replaced by the metadata or deleted.
   */
  function Marshal(locale: string, sys: Option<Sys>, fields: FileFields): (j: Json)
    ensures j.JObject? && ("sys" in j.members <==> sys.Some?)
    ensures "fields" in j.members && j.members["fields"] == JObject(FieldsObject(locale, fields))
  {
    var payload := map["sys" := JString(""), "fields" := JObject(FieldsObject(locale, fields))];
    var payload := if sys.Some? then payload["sys" := JObject(SysToObject(sys.value))] else payload - {"sys"};
    JObject(payload)
  }

  /** `sys` is present exactly when the asset has metadata, and then carries it unchanged. */
  lemma MarshalSys(locale: string, sys: Option<Sys>, fields: FileFields)
    ensures var j := Marshal(locale, sys, fields);
      && j.JObject?
      && j.members.Keys == (if sys.Some? then {"sys", "fields"} else {"fields"})
      && j.members["fields"] == JObject(FieldsObject(locale, fields))
      && (sys.Some? ==> DecodeSys(j.members["sys"]) == Decoded(sys.value, true))
  {
    var j := Marshal(locale, sys, fields);
    if sys.Some? {
      SysRoundTrip(sys.value);
    } else {
      assert j.members == map["fields" := JObject(FieldsObject(locale, fields))];
    }
  }

  /**
   * `fields` holds exactly title, description and file, each with exactly
   * one member, under the active locale, holding the in-memory value (a nil
   * File as null).
   */
  lemma MarshalFields(locale: string, fields: FileFields)
    ensures var f := FieldsObject(locale, fields);
      && f.Keys == {"title", "description", "file"}
      && f["title"] == JObject(map[locale := JString(fields.title)])
      && f["description"] == JObject(map[locale := JString(fields.description)])
      && f["file"].JObject? && f["file"].members.Keys == {locale}
      && (f["file"].members[locale] == JNull <==> fields.file.None?)
      && (fields.file.Some? ==> DecodeFile(f["file"].members[locale]) == Decoded(fields.file.value, true))
  {
    if fields.file.Some? {
      FileRoundTrip(fields.file.value);
    }
  }

  // ---------------------------------------------------------------------
  // UnmarshalJSON (asset.go:90-142)
  // ---------------------------------------------------------------------

  /**
   * Why decoding stopped. The first is the error json.Unmarshal returns for a
   * payload that is not an object (asset.go:94-95); the two type errors are
   * returned from asset.go:104-105 and 137-138; the rest are the panics of
   * failed type assertions, at the line each names.
   */
  datatype DecodeError =
    | NotAnObject           // asset.go:94
    | SysTypeError          // asset.go:104
    | FieldsNotObject       // asset.go:108
    | TitleNotObject        // asset.go:114
    | DescriptionNotObject  // asset.go:122
    | TitleNotString        // asset.go:128
    | DescriptionNotString  // asset.go:129
    | FileNotObject         // asset.go:133
    | FileTypeError         // asset.go:137

  /** The receiver's three fields, the state UnmarshalJSON reads and overwrites. */
  datatype AssetState = AssetState(locale: string, sys: Option<Sys>, fields: Option<FileFields>)

  /** The receiver after decoding, and the error, if any. */
  datatype Unmarshalled = Unmarshalled(state: AssetState, err: Option<DecodeError>)

  /** The active locale: a preset one is kept, an empty one becomes "en". */
  function ResolveLocale(preset: string): (l: string)
    ensures l != ""
    ensures preset == "" ==> l == "en"
    ensures preset != "" ==> l == preset
  {
    if preset == "" then "en" else preset
  }

  /**
   * The value of `title` before its final conversion to string (asset.go:108-118):
   * a missing or null title is "", a string is taken as it is, an object is
   * looked up at the locale, and anything else fails the map assertion.
   */
  function RawTitle(fields: map<string, Json>, locale: string): Result<Json, DecodeError> {
    match Member(fields, "title")
    case JNull => Success(JString(""))
    case JString(s) => Success(JString(s))
    case JObject(m) => Success(Member(m, locale))
    case _ => Failure(TitleNotObject)
  }

  /**
   * The value of `description` before its conversion to string (asset.go:120-125):
   * there is no bare-string case, so only null or an object get through.
   */
  function RawDescription(fields: map<string, Json>, locale: string): Result<Json, DecodeError> {
    match Member(fields, "description")
    case JNull => Success(JString(""))
    case JObject(m) => Success(Member(m, locale))
    case _ => Failure(DescriptionNotObject)
  }

  /**
   * UnmarshalJSON as a function from the receiver's state and the decoded
   * payload to the receiver's new state and the error. Each failure leaves
   * the receiver as far as the source had got when it stopped.
   */
  function Unmarshal(before: AssetState, payload: Json): (r: Unmarshalled)
    ensures r.err == Some(NotAnObject) <==> !payload.JObject? && !payload.JNull?
    ensures r.err != Some(NotAnObject) ==> r.state.locale == ResolveLocale(before.locale) && r.state.sys.Some?
    ensures r.err.None? ==> r.state.fields.Some? && r.state.fields.value.file.Some?
    ensures !FieldsAssigned(r) ==> r.state.fields == before.fields
  {
    if !payload.JObject? && !payload.JNull? then Unmarshalled(before, Some(NotAnObject))
    else
      // json.Unmarshal of `null` leaves the payload map nil, which reads as empty.
      var top := if payload.JObject? then payload.members else map[];
      var locale := ResolveLocale(before.locale);
      var sys := DecodeSys(Member(top, "sys"));
      var s1 := AssetState(locale, Some(sys.value), before.fields);
      if !sys.ok then Unmarshalled(s1, Some(SysTypeError))
      else if !Member(top, "fields").JObject? then Unmarshalled(s1, Some(FieldsNotObject))
      else
        var fields := Member(top, "fields").members;
        var title := RawTitle(fields, locale);
        var description := RawDescription(fields, locale);
        if title.Failure? then Unmarshalled(s1, Some(title.error))
        else if description.Failure? then Unmarshalled(s1, Some(description.error))
        else if !title.value.JString? then Unmarshalled(s1, Some(TitleNotString))
        else if !description.value.JString? then Unmarshalled(s1, Some(DescriptionNotString))
        else
          var ff := FileFields(title.value.s, description.value.s, Some(EmptyFile));
          var s2 := s1.(fields := Some(ff));
          if !Member(fields, "file").JObject? then Unmarshalled(s2, Some(FileNotObject))
          else
            var file := DecodeFile(Member(Member(fields, "file").members, locale));
            var s3 := s2.(fields := Some(ff.(file := Some(file.value))));
            Unmarshalled(s3, if file.ok then None else Some(FileTypeError))
  }

  /** Decoding got past the title and description checks and assigned the receiver's Fields. */
  predicate FieldsAssigned(r: Unmarshalled) {
    r.err.None? || r.err == Some(FileNotObject) || r.err == Some(FileTypeError)
  }

  /** A title that converts to a string at the locale: null, a bare string, or an object with a string there. */
  predicate TitleReadable(title: Json, locale: string) {
    title.JNull? || title.JString? || (title.JObject? && Member(title.members, locale).JString?)
  }

  /** A description that converts to a string at the locale: null, or an object with a string there. */
  predicate DescriptionReadable(description: Json, locale: string) {
    description.JNull? || (description.JObject? && Member(description.members, locale).JString?)
  }

  /**
   * Locale and metadata (asset.go:94-106): a non-object payload changes
   * nothing; otherwise a preset locale is kept, an empty one becomes "en",
   * and Sys is always set, to the zero Sys when the payload has none, so that
   * GetVersion afterwards reports the payload's version (0 when absent), never 1.
   */
  lemma UnmarshalLocaleAndSys(before: AssetState, payload: Json)
    ensures var r := Unmarshal(before, payload);
      && (!payload.JObject? && !payload.JNull? ==> r == Unmarshalled(before, Some(NotAnObject)))
      && (payload.JObject? || payload.JNull? ==>
            && r.state.locale == (if before.locale == "" then "en" else before.locale)
            && r.state.sys.Some?
            && var top := if payload.JObject? then payload.members else map[];
            && r.state.sys.value == DecodeSys(Member(top, "sys")).value
            && VersionOf(r.state.sys) == DecodeSys(Member(top, "sys")).value.version
            && ("sys" !in top ==> VersionOf(r.state.sys) == 0)
            && (r.err == Some(SysTypeError) <==> !DecodeSys(Member(top, "sys")).ok))
  {
  }

  /**
   * Decoding reaches the receiver's Fields exactly when the payload is an
   * object with well-typed metadata, `fields` is an object, and both the
   * title and the description read as strings at the active locale.
   */
  lemma FieldsAssignedIff(before: AssetState, payload: Json)
    ensures var locale := ResolveLocale(before.locale);
      FieldsAssigned(Unmarshal(before, payload)) <==>
        && payload.JObject?
        && DecodeSys(Member(payload.members, "sys")).ok
        && Member(payload.members, "fields").JObject?
        && TitleReadable(Member(Member(payload.members, "fields").members, "title"), locale)
        && DescriptionReadable(Member(Member(payload.members, "fields").members, "description"), locale)
  {
  }

  /**
   * The decoded title (asset.go:108-118, 128): a bare string whatever the
   * locale, the locale's entry of an object, "" when absent or null; an
   * object without a string at the locale, or any other shape, fails.
   */
  lemma UnmarshalTitle(before: AssetState, top: map<string, Json>)
    requires DecodeSys(Member(top, "sys")).ok && Member(top, "fields").JObject?
    ensures var r := Unmarshal(before, JObject(top));
      var locale := ResolveLocale(before.locale);
      var title := Member(Member(top, "fields").members, "title");
      && (FieldsAssigned(r) ==> r.state.fields.Some?)
      && (FieldsAssigned(r) && title.JString? ==> r.state.fields.value.title == title.s)
      && (FieldsAssigned(r) && title.JNull? ==> r.state.fields.value.title == "")
      && (FieldsAssigned(r) && title.JObject? ==> Member(title.members, locale) == JString(r.state.fields.value.title))
      && (title.JObject? && !Member(title.members, locale).JString? ==>
            r.err == Some(DescriptionNotObject) || r.err == Some(TitleNotString))
      && (!title.JNull? && !title.JString? && !title.JObject? ==> r.err == Some(TitleNotObject))
  {
  }

  /**
   * The decoded description (asset.go:120-125, 129): "" when absent or null,
   * otherwise the locale's entry of an object; a bare string is not accepted.
   */
  lemma UnmarshalDescription(before: AssetState, top: map<string, Json>)
    requires DecodeSys(Member(top, "sys")).ok && Member(top, "fields").JObject?
    ensures var r := Unmarshal(before, JObject(top));
      var locale := ResolveLocale(before.locale);
      var fields := Member(top, "fields").members;
      var description := Member(fields, "description");
      && (FieldsAssigned(r) && description.JNull? ==> r.state.fields.value.description == "")
      && (FieldsAssigned(r) && description.JObject? ==>
            Member(description.members, locale) == JString(r.state.fields.value.description))
      && (description.JString? && RawTitle(fields, locale).Success? ==> r.err == Some(DescriptionNotObject))
      && (!DescriptionReadable(description, locale) ==> !FieldsAssigned(r) && r.err.Some?)
  {
  }

  /**
   * The decoded file (asset.go:127-139): once the title and description are
   * in, Fields holds a non-nil File; `fields.file` must be an object, its
   * locale entry decodes into a fresh File (empty when missing or null), and
   * an entry of any other shape is a type error.
   */
  lemma UnmarshalFile(before: AssetState, top: map<string, Json>)
    requires FieldsAssigned(Unmarshal(before, JObject(top)))
    ensures var r := Unmarshal(before, JObject(top));
      var locale := ResolveLocale(before.locale);
      var file := Member(Member(top, "fields").members, "file");
      && r.state.fields.Some? && r.state.fields.value.file.Some?
      && (!file.JObject? ==> r.err == Some(FileNotObject) && r.state.fields.value.file == Some(EmptyFile))
      && (file.JObject? ==>
            var entry := Member(file.members, locale);
            && r.state.fields.value.file == Some(DecodeFile(entry).value)
            && (r.err.None? <==> DecodeFile(entry).ok)
            && (entry.JNull? ==> r.err.None? && r.state.fields.value.file == Some(EmptyFile))
            && (!entry.JNull? && !entry.JObject? ==> r.err == Some(FileTypeError)))
  {
  }

  /**
   * Round trip: decoding what an asset encodes to, with the same active
   * locale, gives back its title, description and file (a nil file comes
   * back as an empty File) and its metadata (absent metadata comes back as
   * the zero Sys), without error.
   */
  lemma UnmarshalMarshal(before: AssetState, locale: string, sys: Option<Sys>, fields: FileFields)
    requires ResolveLocale(before.locale) == locale
    ensures Unmarshal(before, Marshal(locale, sys, fields)) ==
      Unmarshalled(
        AssetState(locale,
                   Some(if sys.Some? then sys.value else ZeroSys),
                   Some(fields.(file := Some(if fields.file.Some? then fields.file.value else EmptyFile)))),
        None)
  {
    MarshalSys(locale, sys, fields);
    MarshalFields(locale, fields);
  }

  /**
   * An asset whose locale was never set is written under the empty locale
   * key, while decoding looks under "en": its round trip fails.
   */
  lemma EmptyLocaleDoesNotRoundTrip(before: AssetState, sys: Option<Sys>, fields: FileFields)
    requires before.locale == ""
    ensures Unmarshal(before, Marshal("", sys, fields)).err == Some(TitleNotString)
  {
    MarshalSys("", sys, fields);
  }

  /** The asset as the source declares it; Decode mutates it in place. */
  class Asset {
    var locale: string
    var sys: Option<Sys>
    var fields: Option<FileFields>

    constructor (locale: string, sys: Option<Sys>, fields: Option<FileFields>)
      ensures State() == AssetState(locale, sys, fields)
    {
      this.locale := locale;
      this.sys := sys;
      this.fields := fields;
    }

    function State(): AssetState
      reads this
    {
      AssetState(locale, sys, fields)
    }

    /** GetVersion (asset.go:145-152). */
    function GetVersion(): (v: int64)
      reads this
      ensures sys.None? ==> v == 1
      ensures sys.Some? ==> v == sys.value.version
    {
      VersionOf(sys)
    }

    /** MarshalJSON (asset.go:55-87); a nil Fields makes the source panic. */
    function MarshalJson(): (j: Json)
      reads this
      requires fields.Some?
      ensures var r := Unmarshal(State(), j);
        locale != "" ==>
          && r.err.None?
          && r.state.locale == locale
          && r.state.fields.value.title == fields.value.title
          && r.state.fields.value.description == fields.value.description
    {
      var j := Marshal(locale, sys, fields.value);
      if locale == "" then j
      else
        UnmarshalMarshal(State(), locale, sys, fields.value);
        j
    }

    /**
     * UnmarshalJSON (asset.go:90-142): resolves the locale, then overwrites
     * the metadata and the fields step by step, stopping at the first error.
     */
    method UnmarshalJson(payload: Json) returns (err: Option<DecodeError>)
      modifies this
      ensures Unmarshal(old(State()), payload) == Unmarshalled(State(), err)
    {
      if !payload.JObject? && !payload.JNull? {
        return Some(NotAnObject);
      }
      var top := if payload.JObject? then payload.members else map[];
      if locale == "" {
        locale := "en";
      }
      var decodedSys := DecodeSys(Member(top, "sys"));
      sys := Some(decodedSys.value);
      if !decodedSys.ok {
        return Some(SysTypeError);
      }
      if !Member(top, "fields").JObject? {
        return Some(FieldsNotObject);
      }
      var wireFields := Member(top, "fields").members;
      var title := RawTitle(wireFields, locale);
      if title.Failure? {
        return Some(title.error);
      }
      var description := RawDescription(wireFields, locale);
      if description.Failure? {
        return Some(description.error);
      }
      if !title.value.JString? {
        return Some(TitleNotString);
      }
      if !description.value.JString? {
        return Some(DescriptionNotString);
      }
      fields := Some(FileFields(title.value.s, description.value.s, Some(EmptyFile)));
      if !Member(wireFields, "file").JObject? {
        return Some(FileNotObject);
      }
      var file := DecodeFile(Member(Member(wireFields, "file").members, locale));
      fields := Some(fields.value.(file := Some(file.value)));
      err := if file.ok then None else Some(FileTypeError);
    }
  }

  // ---------------------------------------------------------------------
  // Requests of Upsert, Delete, Process and Publish (asset.go:189-263)
  // ---------------------------------------------------------------------

  function AssetsPath(spaceId: string): string {
    SpacePath(spaceId) + "/assets"
  }

  function AssetPath(spaceId: string, assetId: string): string {
    AssetsPath(spaceId) + "/" + assetId
  }

  /**
   * Upsert (asset.go:190-214): an asset the server has already created
   * (metadata with a creation time) is replaced with PUT at its own path,
   * anything else is created with POST on the collection; either way the
   * body is the encoded asset and the version header is GetVersion.
   */
  function UpsertRequest(spaceId: string, a: AssetState): (r: Request)
    requires a.fields.Some?
    ensures r.verb == PUT <==> a.sys.Some? && a.sys.value.createdAt != ""
    ensures r.verb != PUT ==> r.verb == POST && r.path == AssetsPath(spaceId)
    ensures r.verb == PUT ==> r.path == AssetPath(spaceId, a.sys.value.id)
    ensures r.headers == map[VersionHeader := Itoa(VersionOf(a.sys) as int)]
    ensures r.body == Some(Marshal(a.locale, a.sys, a.fields.value))
  {
    var body := Some(Marshal(a.locale, a.sys, a.fields.value));
    var headers := map[VersionHeader := Itoa(VersionOf(a.sys) as int)];
    if a.sys.Some? && a.sys.value.createdAt != "" then
      Request(PUT, AssetPath(spaceId, a.sys.value.id), headers, body)
    else
      Request(POST, AssetsPath(spaceId), headers, body)
  }

  /** Delete (asset.go:218-231): DELETE at the asset's path, stamped with the metadata's version. */
  function DeleteRequest(spaceId: string, a: AssetState): (r: Request)
    requires a.sys.Some?
    ensures r.verb == DELETE && r.path == AssetPath(spaceId, a.sys.value.id) && r.body.None?
    ensures r.headers == map[VersionHeader := Itoa(a.sys.value.version as int)]
  {
    Request(DELETE, AssetPath(spaceId, a.sys.value.id), map[VersionHeader := Itoa(a.sys.value.version as int)], None)
  }

  /** Process (asset.go:234-247): PUT to the active locale's file processing path. */
  function ProcessRequest(spaceId: string, a: AssetState): (r: Request)
    requires a.sys.Some?
    ensures r.verb == PUT && r.body.None?
    ensures r.path == AssetPath(spaceId, a.sys.value.id) + "/files/" + a.locale + "/process"
    ensures r.headers == map[VersionHeader := Itoa(a.sys.value.version as int)]
  {
    Request(PUT, AssetPath(spaceId, a.sys.value.id) + "/files/" + a.locale + "/process",
            map[VersionHeader := Itoa(a.sys.value.version as int)], None)
  }

  /** Publish (asset.go:250-263): PUT to the asset's `published` path. */
  function PublishRequest(spaceId: string, a: AssetState): (r: Request)
    requires a.sys.Some?
    ensures r.verb == PUT && r.body.None?
    ensures r.path == AssetPath(spaceId, a.sys.value.id) + "/published"
    ensures r.headers == map[VersionHeader := Itoa(a.sys.value.version as int)]
  {
    Request(PUT, AssetPath(spaceId, a.sys.value.id) + "/published",
            map[VersionHeader := Itoa(a.sys.value.version as int)], None)
  }

  /**
   * The version header of every asset mutation reads back as the asset's
   * current version: GetVersion for Upsert (1 for an asset without
   * metadata), the metadata's version for Delete, Process and Publish.
   */
  lemma AssetVersionHeaders(spaceId: string, a: AssetState)
    ensures a.fields.Some? ==>
      Atoi(UpsertRequest(spaceId, a).headers[VersionHeader]) == Some(VersionOf(a.sys) as int)
    ensures a.fields.Some? && a.sys.None? ==>
      Atoi(UpsertRequest(spaceId, a).headers[VersionHeader]) == Some(1)
    ensures a.sys.Some? ==>
      && Atoi(DeleteRequest(spaceId, a).headers[VersionHeader]) == Some(a.sys.value.version as int)
      && Atoi(ProcessRequest(spaceId, a).headers[VersionHeader]) == Some(a.sys.value.version as int)
      && Atoi(PublishRequest(spaceId, a).headers[VersionHeader]) == Some(a.sys.value.version as int)
  {
    ItoaReadsBack(VersionOf(a.sys) as int);
  }

  /**
   * An asset decoded from a server response is re-sent with that response's
   * version: Upsert after a successful decode never stamps the new-entity
   * version 1 unless the response said 1.
   */
  lemma UpsertAfterDecodeStampsDecodedVersion(spaceId: string, before: AssetState, top: map<string, Json>)
    requires Unmarshal(before, JObject(top)).err.None?
    ensures var a := Unmarshal(before, JObject(top)).state;
      && a.fields.Some?
      && Atoi(UpsertRequest(spaceId, a).headers[VersionHeader]) == Some(DecodeSys(Member(top, "sys")).value.version as int)
  {
    var a := Unmarshal(before, JObject(top)).state;
    UnmarshalLocaleAndSys(before, JObject(top));
    AssetVersionHeaders(spaceId, a);
  }

  /**
   * The requests built for an asset object: Upsert sends its MarshalJSON
   * and, like Delete, Process and Publish, a header that reads back as its
   * GetVersion.
   */
  lemma AssetObjectRequests(spaceId: string, asset: Asset)
    ensures asset.fields.Some? ==>
      && UpsertRequest(spaceId, asset.State()).body == Some(asset.MarshalJson())
      && Atoi(UpsertRequest(spaceId, asset.State()).headers[VersionHeader]) == Some(asset.GetVersion() as int)
    ensures asset.sys.Some? ==>
      && Atoi(DeleteRequest(spaceId, asset.State()).headers[VersionHeader]) == Some(asset.GetVersion() as int)
      && Atoi(ProcessRequest(spaceId, asset.State()).headers[VersionHeader]) == Some(asset.GetVersion() as int)
      && Atoi(PublishRequest(spaceId, asset.State()).headers[VersionHeader]) == Some(asset.GetVersion() as int)
  {
    AssetVersionHeaders(spaceId, asset.State());
  }
}
