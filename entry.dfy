/**
 * Entries: the version rule, the field-type lookup of GetEntryKey, and the
 * requests of Update, Publish and Unpublish.
 */
module Entries {

  import opened Wrappers
  import opened Wire
  import opened Meta
  import opened Decimal
  import opened Http

  /** An entry: its resolution locale (not serialised), metadata and raw field map. */
  class Entry {
    var locale: string
    var sys: Option<Sys>
    var fields: map<string, Json>

    constructor (locale: string, sys: Option<Sys>, fields: map<string, Json>)
      ensures this.locale == locale && this.sys == sys && this.fields == fields
    {
      this.locale := locale;
      this.sys := sys;
      this.fields := fields;
    }

    /** GetVersion (entry.go:22-29). */
    function GetVersion(): (v: int64)
      reads this
      ensures sys.None? ==> v == 1
      ensures sys.Some? ==> v == sys.value.version
    {
      VersionOf(sys)
    }
  }

  /** A field definition of a content type: its ID and its declared type. */
  datatype FieldDef = FieldDef(id: string, fieldType: string)

  /** A content type as listed for a space: its ID and its field definitions, in order. */
  datatype ContentType = ContentType(id: string, fields: seq<FieldDef>)

  /** The raw value of one field of an entry, paired with its declared type ("" when unknown). */
  datatype EntryField = EntryField(value: Json, dataType: string)

  // ---------------------------------------------------------------------
  // The reference definition of the scan in GetEntryKey
  // ---------------------------------------------------------------------

  /** The declared types of the definitions with ID `key`, in order. */
  function FieldMatches(defs: seq<FieldDef>, key: string): (types: seq<string>) {
    if defs == [] then []
    else
      var last := defs[|defs| - 1];
      FieldMatches(defs[..|defs| - 1], key) + (if last.id == key then [last.fieldType] else [])
  }

  /**
   * The declared types of field `key` across the content types with ID
   * `contentTypeId`, in the order the scan visits them.
   */
  function Matches(types: seq<ContentType>, contentTypeId: string, key: string): (found: seq<string>) {
    if types == [] then []
    else
      var last := types[|types| - 1];
      Matches(types[..|types| - 1], contentTypeId, key)
      + (if last.id == contentTypeId then FieldMatches(last.fields, key) else [])
  }

  /** The last element, or `zero` for an empty sequence. */
  function LastOr(s: seq<string>, zero: string): (last: string) {
    if s == [] then zero else s[|s| - 1]
  }

  /** A type lies among FieldMatches exactly when some definition with that ID declares it. */
  lemma {:induction false} FieldMatchesMembers(defs: seq<FieldDef>, key: string, t: string)
    ensures t in FieldMatches(defs, key) <==> exists j :: 0 <= j < |defs| && defs[j] == FieldDef(key, t)
  {
    if defs != [] {
      var init := defs[..|defs| - 1];
      FieldMatchesMembers(init, key, t);
      if t in FieldMatches(init, key) {
        var j :| 0 <= j < |init| && init[j] == FieldDef(key, t);
        assert defs[j] == FieldDef(key, t);
      }
      if exists j :: 0 <= j < |defs| && defs[j] == FieldDef(key, t) {
        var j :| 0 <= j < |defs| && defs[j] == FieldDef(key, t);
        if j < |init| {
          assert init[j] == FieldDef(key, t);
        }
      }
    }
  }

  /**
   * A type lies among Matches exactly when a content type with the entry's
   * content-type ID has a definition of `key` declaring it.
   */
  lemma {:induction false} MatchesMembers(types: seq<ContentType>, contentTypeId: string, key: string, t: string)
    ensures t in Matches(types, contentTypeId, key) <==>
      exists i, j :: 0 <= i < |types| && types[i].id == contentTypeId
        && 0 <= j < |types[i].fields| && types[i].fields[j] == FieldDef(key, t)
  {
    if types != [] {
      var init := types[..|types| - 1];
      var last := types[|types| - 1];
      MatchesMembers(init, contentTypeId, key, t);
      FieldMatchesMembers(last.fields, key, t);
      if t in Matches(init, contentTypeId, key) {
        var i, j :| 0 <= i < |init| && init[i].id == contentTypeId
          && 0 <= j < |init[i].fields| && init[i].fields[j] == FieldDef(key, t);
        assert types[i] == init[i];
      }
      if exists i, j :: 0 <= i < |types| && types[i].id == contentTypeId
          && 0 <= j < |types[i].fields| && types[i].fields[j] == FieldDef(key, t) {
        var i, j :| 0 <= i < |types| && types[i].id == contentTypeId
          && 0 <= j < |types[i].fields| && types[i].fields[j] == FieldDef(key, t);
        if i < |init| {
          assert init[i] == types[i];
        }
      }
    }
  }

  /** With no matching definition the type tag keeps its zero value. */
  lemma NoMatchLeavesZero(types: seq<ContentType>, contentTypeId: string, key: string)
    requires forall i, j | 0 <= i < |types| && types[i].id == contentTypeId && 0 <= j < |types[i].fields| ::
               types[i].fields[j].id != key
    ensures LastOr(Matches(types, contentTypeId, key), "") == ""
  {
    var m := Matches(types, contentTypeId, key);
    if m != [] {
      MatchesMembers(types, contentTypeId, key, m[|m| - 1]);
      assert false;
    }
  }

  /** The types declared by the definitions with ID `key` at positions `j` and after. */
  lemma {:induction false} FieldMatchesAfter(defs: seq<FieldDef>, key: string, j: nat)
    requires j < |defs| && defs[j].id == key
    requires forall j' :: j < j' < |defs| ==> defs[j'].id != key
    ensures FieldMatches(defs, key) == FieldMatches(defs[..j], key) + [defs[j].fieldType]
  {
    if j < |defs| - 1 {
      var init := defs[..|defs| - 1];
      assert init[..j] == defs[..j];
      FieldMatchesAfter(init, key, j);
    } else {
      assert defs[..|defs| - 1] == defs[..j];
    }
  }

  /** Content types past position `i` that contribute nothing leave Matches as it was at `i`. */
  lemma {:induction false} MatchesUnchangedAfter(types: seq<ContentType>, contentTypeId: string, key: string, n: nat)
    requires n <= |types|
    requires forall i, j | n <= i < |types| && types[i].id == contentTypeId && 0 <= j < |types[i].fields| ::
               types[i].fields[j].id != key
    ensures Matches(types, contentTypeId, key) == Matches(types[..n], contentTypeId, key)
    decreases |types|
  {
    if |types| > n {
      var init := types[..|types| - 1];
      var last := types[|types| - 1];
      assert init[..n] == types[..n];
      MatchesUnchangedAfter(init, contentTypeId, key, n);
      if last.id == contentTypeId {
        NoFieldMatches(last.fields, key);
      }
    } else {
      assert types[..n] == types;
    }
  }

  lemma {:induction false} NoFieldMatches(defs: seq<FieldDef>, key: string)
    requires forall j :: 0 <= j < |defs| ==> defs[j].id != key
    ensures FieldMatches(defs, key) == []
  {
    if defs != [] {
      NoFieldMatches(defs[..|defs| - 1], key);
    }
  }

  /**
   * Last match wins: the tag is the type declared by the last definition of
   * `key`, in scan order, inside a content type with the entry's ID.
   */
  lemma LastMatchWins(types: seq<ContentType>, contentTypeId: string, key: string, i: nat, j: nat)
    requires i < |types| && types[i].id == contentTypeId
    requires j < |types[i].fields| && types[i].fields[j].id == key
    requires forall j' :: j < j' < |types[i].fields| ==> types[i].fields[j'].id != key
    requires forall i', j' | i < i' < |types| && types[i'].id == contentTypeId && 0 <= j' < |types[i'].fields| ::
               types[i'].fields[j'].id != key
    ensures LastOr(Matches(types, contentTypeId, key), "") == types[i].fields[j].fieldType
  {
    MatchesUnchangedAfter(types, contentTypeId, key, i + 1);
    var prefix := types[..i + 1];
    assert prefix[..i] == types[..i];
    FieldMatchesAfter(types[i].fields, key, j);
  }

  // ---------------------------------------------------------------------
  // GetEntryKey (entry.go:32-57)
  // ---------------------------------------------------------------------

  /**
   * GetEntryKey, given the outcome of listing the space's content types
   * (the network call itself is not modelled). A failed listing is returned
   * as it is; otherwise the entry's raw value for `key` is paired with the
   * type declared by the last matching field definition, "" if none.
   */
  method GetEntryKey(entry: Entry, key: string, listed: Result<seq<ContentType>, TransportError>)
    returns (r: Result<EntryField, TransportError>)
    requires entry.sys.Some?
    ensures listed.Failure? ==> r == Failure(listed.error)
    ensures listed.Success? ==>
              && r.Success?
              && r.value.value == Member(entry.fields, key)
              && r.value.dataType == LastOr(Matches(listed.value, entry.sys.value.contentType, key), "")
  {
    var value := Member(entry.fields, key);
    if listed.Failure? {
      return Failure(listed.error);
    }
    var types := listed.value;
    var contentTypeId := entry.sys.value.contentType;
    var dataType := "";
    var i := 0;
    while i < |types|
      invariant 0 <= i <= |types|
      invariant dataType == LastOr(Matches(types[..i], contentTypeId, key), "")
    {
      assert types[..i + 1][..i] == types[..i];
      if types[i].id == contentTypeId {
        var defs := types[i].fields;
        var j := 0;
        while j < |defs|
          invariant 0 <= j <= |defs|
          invariant dataType == LastOr(Matches(types[..i], contentTypeId, key) + FieldMatches(defs[..j], key), "")
        {
          assert defs[..j + 1][..j] == defs[..j];
          if defs[j].id == key {
            dataType := defs[j].fieldType;
          }
          j := j + 1;
        }
        assert defs[..j] == defs;
      }
      i := i + 1;
    }
    assert types[..i] == types;
    return Success(EntryField(value, dataType));
  }

  // ---------------------------------------------------------------------
  // Update, Publish and Unpublish (entry.go:155-211)
  // ---------------------------------------------------------------------

  function EntryPath(spaceId: string, entryId: string): string {
    SpacePath(spaceId) + "/entries/" + entryId
  }

  /** The media type Update declares for its body. */
  const ManagementMediaType := "application/vnd.contentful.management.v1+json"

  /**
   * An entry encoded by its struct tags (entry.go:14-19): `sys` is written
   * even when nil (no omitempty), the field map goes under the Go field name
   * `Fields`, and the unexported locale is not written.
   */
  function EntryBody(sys: Option<Sys>, fields: map<string, Json>): (j: Json)
    ensures j.JObject? && j.members.Keys == {"sys", "Fields"}
    ensures j.members["Fields"] == JObject(fields)
    ensures j.members["sys"] == JNull <==> sys.None?
    ensures sys.Some? ==> j.members["sys"] == JObject(SysToObject(sys.value))
  {
    JObject(map[
      "sys" := (if sys.Some? then JObject(SysToObject(sys.value)) else JNull),
      "Fields" := JObject(fields)])
  }

  /**
   * Update (entry.go:187-211): captures the ID, content-type ID and version,
   * clears the entry's metadata, and sends the entry without it in a PUT to
   * the captured ID's path, stamped with the captured values.
   */
  method Update(spaceId: string, entry: Entry) returns (req: Request)
    requires entry.sys.Some?
    modifies entry
    ensures entry.sys.None? && entry.fields == old(entry.fields) && entry.locale == old(entry.locale)
    ensures req.verb == PUT && req.path == EntryPath(spaceId, old(entry.sys).value.id)
    ensures req.headers == map[
      "Content-Type" := ManagementMediaType,
      "X-Contentful-Content-Type" := old(entry.sys).value.contentType,
      VersionHeader := Itoa(old(entry.sys).value.version as int)]
    ensures req.body == Some(EntryBody(None, entry.fields))
  {
    var entryId := entry.sys.value.id;
    var contentTypeId := entry.sys.value.contentType;
    var version := entry.sys.value.version;
    entry.sys := None;
    var body := EntryBody(entry.sys, entry.fields);
    req := Request(PUT, EntryPath(spaceId, entryId), map[
      "Content-Type" := ManagementMediaType,
      "X-Contentful-Content-Type" := contentTypeId,
      VersionHeader := Itoa(version as int)], Some(body));
  }

  /** What Update sends carries no metadata: its `sys` member is null. */
  lemma UpdateBodyHasNoSys(fields: map<string, Json>)
    ensures EntryBody(None, fields).members["sys"] == JNull
    ensures EntryBody(None, fields).members["Fields"] == JObject(fields)
    ensures EntryBody(None, fields).members.Keys == {"sys", "Fields"}
  {
  }

  /** Publish (entry.go:155-168): PUT to the entry's `published` path, stamped with its version. */
  function PublishRequest(spaceId: string, sys: Sys): (r: Request)
    ensures r.verb == PUT && r.body.None?
    ensures r.path == EntryPath(spaceId, sys.id) + "/published"
    ensures r.headers == map[VersionHeader := Itoa(sys.version as int)]
  {
    Request(PUT, EntryPath(spaceId, sys.id) + "/published", map[VersionHeader := Itoa(sys.version as int)], None)
  }

  /** Unpublish (entry.go:171-184): DELETE on the same path, with the same stamp. */
  function UnpublishRequest(spaceId: string, sys: Sys): (r: Request)
    ensures r.verb == DELETE && r.body.None?
    ensures r.path == EntryPath(spaceId, sys.id) + "/published"
    ensures r.headers == map[VersionHeader := Itoa(sys.version as int)]
  {
    Request(DELETE, EntryPath(spaceId, sys.id) + "/published", map[VersionHeader := Itoa(sys.version as int)], None)
  }

  /**
   * Publish and Unpublish differ only in the HTTP method, and both stamp a
   * header that reads back as the entry's version.
   */
  lemma PublishUnpublishAgree(spaceId: string, sys: Sys)
    ensures PublishRequest(spaceId, sys).(verb := DELETE) == UnpublishRequest(spaceId, sys)
    ensures Atoi(PublishRequest(spaceId, sys).headers[VersionHeader]) == Some(sys.version as int)
  {
    ItoaReadsBack(sys.version as int);
  }

  /**
   * The Publish and Unpublish requests for an entry object stamp its
   * GetVersion, since both require metadata to be present.
   */
  lemma EntryRequestsStampGetVersion(spaceId: string, entry: Entry)
    requires entry.sys.Some?
    ensures Atoi(PublishRequest(spaceId, entry.sys.value).headers[VersionHeader]) == Some(entry.GetVersion() as int)
    ensures Atoi(UnpublishRequest(spaceId, entry.sys.value).headers[VersionHeader]) == Some(entry.GetVersion() as int)
  {
    ItoaReadsBack(entry.GetVersion() as int);
  }
}
