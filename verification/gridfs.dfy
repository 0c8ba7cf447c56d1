/** The shapes exchanged with the MongoDB GridFS bucket and with callers of the
    adapter. The bucket itself is not modelled: its query is a function from a
    file name to an already ordered result. */
module GridFs {
  import opened Wrappers
  import opened Js

  /** What an adapter promise rejects with. */
  datatype Error =
    | Moleculer(message: string, code: int, kind: string)  // new MoleculerError(message, code, type)
    | Driver(thrown: Value)                                 // anything the driver throws, passed on untouched

  /** The metadata property holding an upload's version string. */
  const VersionKey := "version"

  /** A stored file document, as far as the adapter reads it: its `metadata`
      field, None when that field is absent or null. */
  datatype FileRecord = FileRecord(metadata: Option<Props>)

  /** The settled value of `find({filename: name}).sort({"metadata.version": -1}).toArray()`. */
  type Lookup = Result<seq<FileRecord>, Error>

  /** The bucket's answer to that query, for every name. */
  type Finder = Value -> Lookup

  /** The arguments of `openUploadStream(filename, {metadata, contentType})`. */
  datatype UploadCall = UploadCall(filename: Value, metadata: Props, contentType: Value)

  /** The stream `openDownloadStreamByName(name)` returns. */
  datatype DownloadStream = DownloadByName(name: Value)

  /** A MongoDB ObjectId, as produced by `new ObjectId(x)`. */
  datatype ObjectId = ObjectId(hex: string)

  /** The `{ id }` object `removeById` resolves with. */
  datatype Removed = Removed(id: ObjectId)
}
