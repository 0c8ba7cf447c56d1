/** The decision logic of the GridFS adapter (index.js): how `save` prepares an
    upload, what `findById` settles with and what `removeById` returns. The
    bucket, the uuid generator, the MIME table and the ObjectId constructor are
    parameters; the byte streams themselves are not modelled.

    `save` first checks `isStream(entity)` and rejects when it fails, but does
    not return, so the preparation below runs either way; the check is left out. */
module Adapter {
  import opened Wrappers
  import opened Js
  import opened GridFs
  import Versioning
  import JsNumber

  const MultipartKey := "$multipart"

  /** The rejection `findById` gives for a name nothing is stored under. */
  const NotFound: Error := Moleculer("CAD file not found", 404, "ERR_NOT_FOUND")

  /** `meta.id || meta.filename || uuidv4()`, with `token` the fresh uuid. */
  function LogicalName(meta: Props, token: string): (name: Value)
    ensures Truthy(Prop(meta, "id")) ==> name == Prop(meta, "id")
    ensures !Truthy(Prop(meta, "id")) && Truthy(Prop(meta, "filename")) ==> name == Prop(meta, "filename")
    ensures !Truthy(Prop(meta, "id")) && !Truthy(Prop(meta, "filename")) ==> name == Str(token)
    ensures token != [] ==> Truthy(name)
  {
    Or(Or(Prop(meta, "id"), Prop(meta, "filename")), Str(token))
  }

  /** `meta.contentType || mime.lookup(filename)`, where `filename` is the
      logical name, not `meta.filename`. */
  function ContentType(meta: Props, token: string, mimeLookup: Value -> Value): (contentType: Value)
    ensures Truthy(Prop(meta, "contentType")) ==> contentType == Prop(meta, "contentType")
    ensures !Truthy(Prop(meta, "contentType")) ==> contentType == mimeLookup(LogicalName(meta, token))
  {
    Or(Prop(meta, "contentType"), mimeLookup(LogicalName(meta, token)))
  }

  /** `if (meta?.$multipart) delete meta.$multipart`: the marker is removed
      only when it is truthy; every other property is kept as it is. */
  function StripMultipart(meta: Props): (stripped: Props)
    ensures !Truthy(Prop(stripped, MultipartKey))
    ensures MultipartKey in stripped <==> MultipartKey in meta && !Truthy(meta[MultipartKey])
    ensures forall k :: k != MultipartKey ==> (k in stripped <==> k in meta)
    ensures forall k :: k in stripped ==> stripped[k] == meta[k]
  {
    if Truthy(Prop(meta, MultipartKey)) then meta - {MultipartKey} else meta
  }

  /** The call `save(entity, meta)` makes to `openUploadStream`, given the
      fresh uuid `token`, the MIME table and the bucket's answer to the
      version lookup. */
  function Save(meta: Props, token: string, mimeLookup: Value -> Value, find: Finder): (call: UploadCall)
    // the upload is tagged with the caller's `filename`, whatever name was derived
    ensures call.filename == Prop(meta, "filename")
    ensures call.contentType == ContentType(meta, token, mimeLookup)
    // the version is looked up under the derived logical name and always overwritten
    ensures VersionKey in call.metadata
    ensures call.metadata[VersionKey] == Str(Versioning.NextVersion(find(LogicalName(meta, token))))
    ensures !Truthy(Prop(call.metadata, MultipartKey))
    ensures MultipartKey in call.metadata <==> MultipartKey in meta && !Truthy(meta[MultipartKey])
    // nothing else of the caller's metadata changes
    ensures forall k :: k != MultipartKey && k != VersionKey ==> (k in call.metadata <==> k in meta)
    ensures forall k :: k in call.metadata && k != VersionKey ==> k in meta && call.metadata[k] == meta[k]
  {
    var name := LogicalName(meta, token);
    var contentType := ContentType(meta, token, mimeLookup);
    var stripped := StripMultipart(meta);
    var stored := stripped[VersionKey := Str(Versioning.NextVersion(find(name)))];
    UploadCall(Prop(stored, "filename"), stored, contentType)
  }

  /** `updateById(entity, meta)` is `save(entity, meta)`: it takes no id and
      always stores a new version. */
  function UpdateById(meta: Props, token: string, mimeLookup: Value -> Value, find: Finder): (call: UploadCall)
    ensures call == Save(meta, token, mimeLookup, find)
  {
    Save(meta, token, mimeLookup, find)
  }

  /** What `findById(fd)` settles with: a download stream by name when the
      lookup finds a file, NotFound when it finds none, and the lookup's own
      error when it fails. */
  function FindById(fd: Value, find: Finder): (settled: Result<DownloadStream, Error>)
    ensures settled.Success? <==> find(fd).Success? && |find(fd).value| > 0
    ensures settled.Success? ==> settled.value == DownloadByName(fd)
    ensures find(fd).Success? && |find(fd).value| == 0 ==> settled == Failure(NotFound)
    ensures find(fd).Failure? ==> settled == Failure(find(fd).error)
  {
    match find(fd)
    case Failure(e) => Failure(e)
    case Success(files) =>
      if |files| > 0 then Success(DownloadByName(fd)) else Failure(NotFound)
  }

  /** What `removeById(_id)` settles with: `{ id }` carrying the coerced id,
      whatever the (unawaited) delete does; a rejection only when the ObjectId
      constructor throws. */
  function RemoveById(id: Value, toObjectId: Value -> Result<ObjectId, Error>, deleted: Result<(), Error>)
    : (settled: Result<Removed, Error>)
    ensures toObjectId(id).Success? ==> settled == Success(Removed(toObjectId(id).value))
    ensures toObjectId(id).Failure? ==> settled == Failure(toObjectId(id).error)
  {
    match toObjectId(id)
    case Failure(e) => Failure(e)
    case Success(oid) => Success(Removed(oid))
  }

  /** The caller's `version` never matters: setting it to anything leaves the
      upload call unchanged. */
  lemma CallerVersionIsOverwritten(meta: Props, given: Value, token: string, mimeLookup: Value -> Value, find: Finder)
    ensures Save(meta[VersionKey := given], token, mimeLookup, find) == Save(meta, token, mimeLookup, find)
  {
    var meta' := meta[VersionKey := given];
    assert Prop(meta', "id") == Prop(meta, "id");
    assert Prop(meta', "filename") == Prop(meta, "filename");
    assert Prop(meta', "contentType") == Prop(meta, "contentType");
    var a := Save(meta', token, mimeLookup, find).metadata;
    var b := Save(meta, token, mimeLookup, find).metadata;
    assert a.Keys == b.Keys;
  }

  /** The upload tag and the name the version was looked up under differ
      exactly when a truthy `id` differs from `filename`, or when neither is
      truthy and `filename` is not the uuid itself. */
  lemma TagDiffersFromVersionedName(meta: Props, token: string, mimeLookup: Value -> Value, find: Finder)
    ensures Save(meta, token, mimeLookup, find).filename != LogicalName(meta, token)
            <==> || (Truthy(Prop(meta, "id")) && Prop(meta, "id") != Prop(meta, "filename"))
                 || (!Truthy(Prop(meta, "id")) && !Truthy(Prop(meta, "filename")) && Prop(meta, "filename") != Str(token))
  {
  }

  /** With a non-empty uuid, both falsy `id` and `filename` make the tag and
      the versioned name differ: the version is looked up under the uuid while
      the upload is tagged with the falsy `filename`. */
  lemma NoNameTagsWithFalsyFilename(meta: Props, token: string, mimeLookup: Value -> Value, find: Finder)
    requires token != []
    requires !Truthy(Prop(meta, "id")) && !Truthy(Prop(meta, "filename"))
    ensures LogicalName(meta, token) == Str(token)
    ensures !Truthy(Save(meta, token, mimeLookup, find).filename)
  {
  }

  /** A name `findById` reports as not found is versioned from "1" by `save`,
      and so is one whose lookup fails (there the failure is swallowed). */
  lemma UnknownNameStartsAtOne(meta: Props, token: string, mimeLookup: Value -> Value, find: Finder)
    requires FindById(LogicalName(meta, token), find).Failure?
    ensures Save(meta, token, mimeLookup, find).metadata[VersionKey] == Str("1")
  {
  }

  /** When `findById` would stream a name whose top record holds a stored
      version parsing to `p`, `save` under that name stores `p + 1`. */
  lemma KnownNameIncrements(meta: Props, token: string, mimeLookup: Value -> Value, find: Finder, md: Props, p: int)
    requires FindById(LogicalName(meta, token), find).Success?
    requires find(LogicalName(meta, token)).value[0].metadata == Some(md)
    requires Truthy(Prop(md, VersionKey)) && Prop(md, VersionKey).Str?
    requires JsNumber.ParseInt(Prop(md, VersionKey).s) == Some(p)
    ensures Save(meta, token, mimeLookup, find).metadata[VersionKey].Str?
    ensures JsNumber.ParseInt(Save(meta, token, mimeLookup, find).metadata[VersionKey].s) == Some(p + 1)
  {
    var lookup := find(LogicalName(meta, token));
    assert Versioning.TopVersion(lookup) == Some(Prop(md, VersionKey));
    assert ToString(Prop(md, VersionKey)) == Prop(md, VersionKey).s;
    Versioning.NextVersionReadsBack(lookup);
  }

  /** The delete's own outcome never reaches the caller. */
  lemma RemoveIgnoresDelete(id: Value, toObjectId: Value -> Result<ObjectId, Error>, d1: Result<(), Error>, d2: Result<(), Error>)
    ensures RemoveById(id, toObjectId, d1) == RemoveById(id, toObjectId, d2)
  {
  }
}
