# contentful-go asset codec and entry helpers, modelled in Dafny

This project models the deterministic core of a Go client for Contentful's
Content Management API:

- **Assets** (`asset.go`): the file models (`File`, `FileDetail`,
  `FileImage`, `UploadFrom`, `FileFields`, `Asset`), the locale codec that
  writes each of `fields.title`, `fields.description` and `fields.file` as a
  one-member object keyed by the asset's locale (`MarshalJSON`) and folds
  the server's per-locale maps back to one active locale (`UnmarshalJSON`),
  `GetVersion`, and the request each of `Upsert`, `Delete`, `Process` and
  `Publish` hands to the transport (method, path, version header, body).
- **Entries** (`entry.go`): `GetVersion`, the field-type lookup of
  `GetEntryKey` over an already listed set of content types (last match
  wins, zero type when nothing matches), and the requests of `Update`
  (which clears the entry's metadata before encoding it), `Publish` and
  `Unpublish`.

Wire values are a JSON value tree (`Wire.Json`). Decoding into Go structs
follows encoding/json: a missing member and a JSON null both leave the zero
value, a member of the wrong type leaves the zero value and makes the
decode report a type error, pointers to structs are allocated on an object
(and, as Go does, also on a wrongly typed value) and left nil on null.
Encoding honours the `omitempty` tags. Go `int` is a 64-bit integer
(`Wire.int64`), so every in-memory value has a wire form that reads back.

The Go type assertions that panic on malformed payloads (asset.go lines
108, 114, 122, 128, 129 and 133) are explicit `Assets.DecodeError` values,
checked in the order Go evaluates them. `Assets.Unmarshal` also fixes the
state the receiver is left in when decoding stops: the locale is already
resolved, `Sys` already replaced, and from line 127 on the fields already
assigned. `Assets.Asset.UnmarshalJson` performs the same steps on the
object in place and is proved equal to it.

Behaviour of the code worth knowing (the model follows the code):

- A description has no bare-string form: a string description fails
  (asset.go:120-125), unlike a title.
- A decoded asset always has metadata. A payload without `sys` leaves the
  zero `Sys`, so `GetVersion` afterwards returns 0, not 1 (asset.go:102-106).
- Malformed shapes are Go panics, not returned errors. The model reports
  them as decode errors.
- `Update` does not omit `sys` from the body. `Entry` has no custom encoder
  and its tag has no `omitempty`, so the body is `{"sys": null, "Fields": {...}}`.
  The field map goes under the Go field name `Fields` (entry.go:14-19).
- An asset whose locale was never set is encoded under the key `""`, while
  decoding looks under `"en"`, so its round trip fails
  (`Assets.EmptyLocaleDoesNotRoundTrip`).

The Go declaration of `Sys` is not part of this model. `Meta.Sys` keeps the
four members the modelled code reads: ID, version, creation time and the
content type's ID. It uses Contentful's wire keys `id`, `version`,
`createdAt` and the link `contentType.sys.id`.

## Model

| member | source | states |
|---|---|---|
| Meta.VersionOf | asset.go:145-152 | GetVersion of assets and entries (also entry.go:22-29): 1 when there is no metadata, the metadata's version otherwise |
| Assets.Asset.GetVersion | asset.go:145-152 | 1 for an asset without metadata, else its version; after decoding it is the payload's version (Assets.UnmarshalLocaleAndSys) and it is what Upsert stamps (Assets.AssetObjectRequests) |
| Entries.Entry.GetVersion | entry.go:22-29 | 1 for an entry without metadata, else its version; Publish and Unpublish stamp it (Entries.EntryRequestsStampGetVersion) |
| Meta.DecodeSys | asset.go:102-106 | decoding `sys` into a fresh Sys: null gives the zero Sys, a non-object is a type error that leaves it zero |
| Meta.SysRoundTrip | asset.go:65-66 | metadata written into the payload decodes back to itself without error |
| Decimal.ItoaReadsBack | asset.go:212 | the version header text made by strconv.Itoa reads back as the version, sign included |
| Decimal.ItoaInjective | asset.go:212 | different versions never produce the same header text |
| Assets.FileToObject | asset.go:13-21 | the wire object of a File has each of fileName, contentType, url, upload, details and uploadFrom exactly when that member is not empty or nil; Assets.FileRoundTrip proves it decodes back |
| Assets.FileFromObject | asset.go:13-21 | an empty object decodes to File{}; every non-empty string and allocated pointer in the result comes from the matching member; Assets.FileRoundTrip proves it inverts Assets.FileToObject |
| Assets.DecodeFile | asset.go:130-139 | decoding the locale's file entry into `File{}`: null gives the empty File, a non-object is a type error leaving it empty |
| Assets.DetailRoundTrip | asset.go:23-33 | a FileDetail with its image survives the omitempty encoding and decoding |
| Assets.UploadFromRoundTrip | asset.go:49-52 | an UploadFrom with or without metadata survives encoding and decoding |
| Assets.FileRoundTrip | asset.go:13-21 | a File with all its optional members survives encoding and decoding, so zero members may be omitted |
| Assets.Marshal | asset.go:55-87 | MarshalJSON: an object with `sys` exactly when there is metadata and `fields` built from the locale; the full shape is in Assets.MarshalSys and Assets.MarshalFields, the round trip in Assets.UnmarshalMarshal |
| Assets.Asset.MarshalJson | asset.go:55-87 | the object's own encoding decodes back into it, at a non-empty locale, without error and with its title and description unchanged |
| Assets.MarshalSys | asset.go:56-69 | the payload has `sys` exactly when the asset has metadata, carrying it unchanged, and otherwise only `fields` |
| Assets.MarshalFields | asset.go:72-84 | `fields` has exactly title, description and file, each one member under the locale holding the in-memory value; a nil File is null |
| Assets.ResolveLocale | asset.go:98-100 | the active locale is never empty and a preset locale is kept |
| Assets.Unmarshal | asset.go:90-142 | UnmarshalJSON on values: only a payload neither object nor null is rejected unchanged; otherwise the locale is resolved and Sys set; success leaves a non-nil File; a stop before asset.go:127 leaves Fields as it was; each rule is a lemma below |
| Assets.UnmarshalLocaleAndSys | asset.go:93-106 | a payload that is neither an object nor null changes nothing; otherwise an empty locale becomes "en", Sys is always set to the decoded (or zero) Sys, and GetVersion then gives the payload's version, 0 without `sys` |
| Assets.FieldsAssignedIff | asset.go:108-129 | Fields is assigned exactly when `sys` is well typed, `fields` is an object and title and description read as strings at the locale |
| Assets.UnmarshalTitle | asset.go:108-118 | a bare string title is used for any locale, an object is read at the locale, absent or null gives ""; a missing locale entry or another shape fails |
| Assets.UnmarshalDescription | asset.go:120-125 | absent or null gives "", an object is read at the locale; a bare string fails the map assertion |
| Assets.UnmarshalFile | asset.go:127-139 | after title and description, Fields holds a non-nil File; a non-object `file` fails; the locale entry decodes into it, empty when missing or null, type error otherwise |
| Assets.UnmarshalMarshal | asset.go:55-142 | decoding an encoded asset at the same active locale gives back title, description, file (nil as empty) and metadata (nil as zero) without error |
| Assets.EmptyLocaleDoesNotRoundTrip | asset.go:74-80 | an asset encoded with the empty locale fails to decode with no preset locale |
| Assets.Asset.UnmarshalJson | asset.go:90-142 | the in-place decode leaves the receiver's locale, Sys and Fields and returns the error exactly as Unmarshal prescribes |
| Assets.UpsertRequest | asset.go:190-214 | PUT to the asset's path exactly when it has metadata with a creation time, else POST to the collection; body is the encoded asset; version header is GetVersion |
| Assets.DeleteRequest | asset.go:218-231 | DELETE at the asset's path with the metadata's version as header |
| Assets.ProcessRequest | asset.go:234-247 | PUT to `/files/{locale}/process` under the asset's path with the metadata's version |
| Assets.PublishRequest | asset.go:250-263 | PUT to `/published` under the asset's path with the metadata's version |
| Assets.AssetVersionHeaders | asset.go:212-260 | every asset mutation's header reads back as its version; Upsert without metadata sends 1 |
| Assets.AssetObjectRequests | asset.go:199-260 | for an Asset object, Upsert's body is its MarshalJSON and every asset request's header reads back as its GetVersion |
| Assets.UpsertAfterDecodeStampsDecodedVersion | asset.go:199-212 | an asset decoded from a response is upserted with that response's version |
| Entries.MatchesMembers | entry.go:42-54 | a type is among the scan's matches exactly when a content type with the entry's ID declares it for a field with ID `key` |
| Entries.NoMatchLeavesZero | entry.go:33-56 | with no matching field definition the type tag stays "" |
| Entries.LastMatchWins | entry.go:42-54 | the type tag is the type of the last matching definition in scan order |
| Entries.GetEntryKey | entry.go:32-57 | a failed listing is returned as is; otherwise the value is the entry's raw field (null when absent) and the tag is the last match's type, "" if none |
| Entries.Update | entry.go:187-211 | clears Sys, keeps the fields, PUTs the entry without metadata to the captured ID's path with the captured content-type ID and version as headers |
| Entries.EntryBody | entry.go:14-19 | `json.Marshal(entry)` at entry.go:194: exactly the members `sys` (null when nil, otherwise the metadata) and `Fields` (the field map); the locale is not written |
| Entries.UpdateBodyHasNoSys | entry.go:192-194 | the body Update encodes has `sys` null and the field map under `Fields`, nothing else |
| Entries.PublishRequest | entry.go:155-168 | PUT to the entry's `/published` path with its version as header |
| Entries.UnpublishRequest | entry.go:171-184 | DELETE on the entry's `/published` path with its version as header |
| Entries.PublishUnpublishAgree | entry.go:155-184 | Publish and Unpublish differ only in the method, and their header reads back as the version |
| Entries.EntryRequestsStampGetVersion | entry.go:164-181 | for an Entry object with metadata, the Publish and Unpublish headers read back as its GetVersion |

## Left out

- The HTTP transport (`newRequest`, `do`): the model stops at the request
  handed to it. Decoding the response into the receiver after Upsert,
  Publish or Update is transport work and is not modelled.
- `List`, `Get`, `ListWithQueryParam`, `GetWithQueryParam`, `Delete` of
  entries, `Collection`, and `resource.go`: request plumbing and file I/O
  with no logic of their own. Query-parameter order is Go map order and is
  unspecified.
- The content-type listing inside `GetEntryKey` (entry.go:37) is a network
  call. Its outcome is a parameter.
- The error that entry `Get` swallows (entry.go:110-111) belongs to the
  I/O path.
- JSON text: parsing and printing bytes, the syntax error at asset.go:94,
  and member order are not modelled. The type error json.Unmarshal
  reports there for a non-object payload is modelled.
- Numbers are integers. Go routes `sys` and the file entry through
  `interface{}` and back (asset.go:103, 135), and that rounds integers
  beyond 2^53 to float64. Fractional numbers are also not modelled.
- encoding/json matches struct keys case-insensitively. The model matches
  them exactly.
- An `Entry` with a nil field map (written as `null`) is modelled as an
  empty map.
- Nil `Fields` in MarshalJSON and nil `Sys` in asset Delete, Process and
  Publish, entry Update and GetEntryKey make Go panic. These are
  preconditions. Entry Publish and Unpublish (entry.go:156, 172) take a
  `Sys` rather than an optional one, so their nil-Sys panic is excluded by
  the parameter type.
- The content type of `Sys` is modelled as a flat ID. So the nil
  `ContentType` panic (entry.go:43, 189) cannot arise in the model.
- A panic in the source aborts the program. The model returns a decode
  error in the receiver's state at that point.
