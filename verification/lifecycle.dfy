/**
 * Properties that span several requests to the file endpoint: the store
 * invariant the handlers keep, and the upload / list / download / delete
 * cycle of tests/FileHostingApi.Tests/FileHostingApiTests.cs.
 */
module Lifecycle {
  import opened Wrappers
  import opened Models
  import opened MetadataStore
  import opened FileEndpoint

  /** Every record has an identifier of its own. */
  predicate WellFormed(st: Server) {
    UniqueIds(st.store) && IdsAssigned(st.store)
  }

  /** Uploading with a fresh generated identifier keeps the store well formed. */
  lemma UploadPreservesWellFormed(st: Server, req: UploadFileRequest, now: Timestamp, generated: string)
    requires WellFormed(st) && FreshId(st.store, generated)
    ensures WellFormed(Upload(st, req, now, generated).server)
  {
    if HasPayload(req) {
      var file := req.file.value;
      var metadata := FileMetadata("", file.fileName, now, |file.content|, req.uploader.GetOr(Anonymous));
      CreatePreservesUniqueIds(st.store, metadata, generated);
    }
  }

  /** Deleting keeps the store well formed. */
  lemma DeleteFilePreservesWellFormed(st: Server, id: string)
    requires WellFormed(st)
    ensures WellFormed(DeleteFile(st, id).server)
  {
    DeletePreservesUniqueIds(st.store, id);
  }

  /** Download by name reads only the directory: two states with the same files answer alike. */
  lemma DownloadByNameIgnoresMetadata(st: Server, st': Server, name: string)
    requires st.files == st'.files
    ensures DownloadByName(st, name).response == DownloadByName(st', name).response
  {
  }

  /** The identifier an upload returns downloads the uploaded bytes under the uploaded name. */
  lemma UploadThenDownloadById(st: Server, req: UploadFileRequest, now: Timestamp, generated: string)
    requires HasPayload(req) && FreshId(st.store, generated)
    ensures var u := Upload(st, req, now, generated);
      DownloadById(u.server, u.response.metadata.id).response
      == PhysicalFile(req.file.value.content, OctetStream, req.file.value.fileName)
  {
    var u := Upload(st, req, now, generated);
    assert IsFirstMatch(u.server.store, generated, |st.store|);
  }

  /** The uploaded name downloads the uploaded bytes, whatever was stored under it before. */
  lemma UploadThenDownloadByName(st: Server, req: UploadFileRequest, now: Timestamp, generated: string)
    requires HasPayload(req)
    ensures var u := Upload(st, req, now, generated);
      DownloadByName(u.server, req.file.value.fileName).response
      == PhysicalFile(req.file.value.content, OctetStream, req.file.value.fileName)
  {
  }

  /**
   * Deleting the identifier an upload returned gives back the store as it
   * was before the upload, and a directory without the uploaded name.
   */
  lemma UploadThenDeleteFile(st: Server, req: UploadFileRequest, now: Timestamp, generated: string)
    requires HasPayload(req) && FreshId(st.store, generated)
    ensures var u := Upload(st, req, now, generated);
      DeleteFile(u.server, u.response.metadata.id)
      == Step(Server(st.store, st.files - {req.file.value.fileName}), DeleteOk(DeleteSucceeded))
  {
    var file := req.file.value;
    var u := Upload(st, req, now, generated);
    var metadata := FileMetadata("", file.fileName, now, |file.content|, req.uploader.GetOr(Anonymous));
    assert IsFirstMatch(u.server.store, generated, |st.store|);
    DeleteAfterCreate(st.store, metadata, generated);
    assert u.server.files - {file.fileName} == st.files - {file.fileName};
  }

  /** In a well-formed store, after a delete the identifier no longer downloads. */
  lemma DeleteFileThenDownloadById(st: Server, id: string)
    requires WellFormed(st)
    ensures DownloadById(DeleteFile(st, id).server, id).response == NotFound(NotFoundById)
  {
    DeleteThenGetById(st.store, id);
  }

  /**
   * The full cycle from an empty list: upload, list one record with the
   * uploaded name, size and uploader, download by identifier and by name,
   * delete, and list nothing again.
   */
  lemma FullCrudCycle(files: Files, name: string, content: seq<bv8>, uploader: Option<string>,
                      now: Timestamp, generated: string)
    requires |content| > 0 && !IsNullOrWhiteSpace(generated)
    ensures var st := Server([], files);
      var u := Upload(st, UploadFileRequest(Some(UploadedFile(name, content)), uploader), now, generated);
      var id := u.response.metadata.id;
      var listed := ListFiles(u.server).response.records;
      var d := DeleteFile(u.server, id);
      && ListFiles(st).response == ListOk([])
      && u.response.UploadOk?
      && !IsNullOrWhiteSpace(id)
      && |listed| == 1
      && listed[0].fileName == name
      && listed[0].size == |content|
      && listed[0].uploader == uploader.GetOr(Anonymous)
      && DownloadById(u.server, id).response == PhysicalFile(content, OctetStream, name)
      && DownloadByName(u.server, name).response == PhysicalFile(content, OctetStream, name)
      && d.response == DeleteOk(DeleteSucceeded)
      && ListFiles(d.server).response == ListOk([])
  {
    var st := Server([], files);
    var req := UploadFileRequest(Some(UploadedFile(name, content)), uploader);
    UploadThenDownloadById(st, req, now, generated);
    UploadThenDeleteFile(st, req, now, generated);
  }
}
