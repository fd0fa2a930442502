/**
 * The request handlers of `FileController`
 * (src/FileHostingApi/Controllers/FileController.cs). The server state is
 * the metadata store together with the upload directory, the latter an
 * abstract map from file name to content. Each handler is a transition from
 * a state and a request to a new state and a response.
 */
module FileEndpoint {
  import opened Wrappers
  import opened Models
  import opened MetadataStore

  /** The upload directory: file name to file content. */
  type Files = map<string, seq<bv8>>

  /** The multipart `File` field (`IFormFile`): its name and its bytes. */
  datatype UploadedFile = UploadedFile(fileName: string, content: seq<bv8>)

  /** `UploadFileRequest`: both form fields may be absent. */
  datatype UploadFileRequest = UploadFileRequest(file: Option<UploadedFile>, uploader: Option<string>)

  datatype Server = Server(store: Store, files: Files)

  /** The action results the handlers return. */
  datatype Response =
    | UploadOk(message: string, metadata: FileMetadata)
    | ListOk(records: seq<FileMetadata>)
    | DeleteOk(message: string)
    | BadRequest(message: string)
    | NotFound(message: string)
    | PhysicalFile(content: seq<bv8>, mimeType: string, downloadName: string)

  datatype Step = Step(server: Server, response: Response)

  const FileNotSelected := "File not selected."
  const UploadSucceeded := "File uploaded successfully."
  const NotFoundById := "File not found by ID."
  const PhysicalFileMissing := "Physical file not present on server."
  const NotFoundByName := "File not found by name on server."
  const MetadataNotFound := "Metadata not found for file with given ID."
  const DeleteSucceeded := "File and metadata deleted."
  const OctetStream := "application/octet-stream"
  const Anonymous := "anonymous"

  /** The upload carries a non-empty file. */
  predicate HasPayload(req: UploadFileRequest) {
    req.file.Some? && |req.file.value.content| > 0
  }

  /**
   * `Upload`: rejects a missing or empty file; otherwise writes the bytes
   * under the file's name (replacing any earlier file of that name) and
   * creates a record with that name, the clock reading `now`, the byte
   * count and the uploader, or "anonymous" when none was sent. The record
   * leaves the controller without an identifier, so the store assigns
   * `generated`, the generator's output.
   */
  function Upload(st: Server, req: UploadFileRequest, now: Timestamp, generated: string): (r: Step)
    ensures !HasPayload(req) ==> r == Step(st, BadRequest(FileNotSelected))
    ensures HasPayload(req) ==>
      var file := req.file.value;
      && r.server.files.Keys == st.files.Keys + {file.fileName}
      && r.server.files[file.fileName] == file.content
      && (forall n :: n in st.files && n != file.fileName ==> r.server.files[n] == st.files[n])
      && r.response.UploadOk?
      && r.response.message == UploadSucceeded
      && r.response.metadata.id == generated
      && r.response.metadata.fileName == file.fileName
      && r.response.metadata.uploadDate == now
      && r.response.metadata.size == |file.content|
      && (req.uploader.Some? ==> r.response.metadata.uploader == req.uploader.value)
      && (req.uploader.None? ==> r.response.metadata.uploader == Anonymous)
      && r.server.store == st.store + [r.response.metadata]
  {
    if req.file.None? || |req.file.value.content| == 0 then
      Step(st, BadRequest(FileNotSelected))
    else
      var file := req.file.value;
      var files := st.files[file.fileName := file.content];
      var metadata := FileMetadata("", file.fileName, now, |file.content|, req.uploader.GetOr(Anonymous));
      var created := Create(st.store, metadata, generated);
      Step(Server(created.store, files), UploadOk(UploadSucceeded, created.record))
  }

  /**
   * `DownloadById`: "not found by ID" when no record carries `id`; "physical
   * file not present" when the first such record names a file that is not
   * in the directory; otherwise that file's bytes under the record's name.
   */
  function DownloadById(st: Server, id: string): (r: Step)
    ensures r.server == st
    ensures !HasId(st.store, id) ==> r.response == NotFound(NotFoundById)
    ensures forall k :: IsFirstMatch(st.store, id, k) ==>
      var name := st.store[k].fileName;
      r.response == if name in st.files then PhysicalFile(st.files[name], OctetStream, name)
                    else NotFound(PhysicalFileMissing)
  {
    match GetById(st.store, id)
    case None => Step(st, NotFound(NotFoundById))
    case Some(metadata) =>
      if metadata.fileName !in st.files then Step(st, NotFound(PhysicalFileMissing))
      else Step(st, PhysicalFile(st.files[metadata.fileName], OctetStream, metadata.fileName))
  }

  /** `DownloadByName`: the named file from the directory, metadata unconsulted. */
  function DownloadByName(st: Server, name: string): (r: Step)
    ensures r.server == st
    ensures name !in st.files ==> r.response == NotFound(NotFoundByName)
    ensures name in st.files ==> r.response == PhysicalFile(st.files[name], OctetStream, name)
  {
    if name !in st.files then Step(st, NotFound(NotFoundByName))
    else Step(st, PhysicalFile(st.files[name], OctetStream, name))
  }

  /** `ListFiles`: every stored record, in insertion order, with nothing changed. */
  function ListFiles(st: Server): (r: Step)
    ensures r.server == st
    ensures r.response.ListOk? && r.response.records == st.store
  {
    Step(st, ListOk(List(st.store)))
  }

  /**
   * `DeleteFile`: "metadata not found" and no change when no record carries
   * `id`; otherwise the file the first such record names is removed if it
   * is present, then that record is removed from the store.
   */
  function DeleteFile(st: Server, id: string): (r: Step)
    ensures !HasId(st.store, id) ==> r == Step(st, NotFound(MetadataNotFound))
    ensures forall k :: IsFirstMatch(st.store, id, k) ==>
      var name := st.store[k].fileName;
      && r.response == DeleteOk(DeleteSucceeded)
      && name !in r.server.files
      && (forall n :: n in st.files && n != name ==> n in r.server.files && r.server.files[n] == st.files[n])
      && r.server.files.Keys <= st.files.Keys
      && r.server.store == Delete(st.store, id)
  {
    match GetById(st.store, id)
    case None => Step(st, NotFound(MetadataNotFound))
    case Some(metadata) =>
      var files := if metadata.fileName in st.files then st.files - {metadata.fileName} else st.files;
      Step(Server(Delete(st.store, id), files), DeleteOk(DeleteSucceeded))
  }
}
