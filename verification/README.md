# File hosting API: metadata store and file endpoint

A Dafny model of the logic of a small file-hosting web service. Clients
upload a file with an optional uploader name, list the stored metadata,
download a file by record identifier or by file name, and delete a file
by record identifier.

Two components are modelled:

- **Metadata store** (`MetadataStore`, the in-memory backend of
  `FileMetadataService`): a sequence of `FileMetadata` records in insertion
  order, with `List`, `GetById`, `Create` and `Delete` as pure functions.
  `GetById` and `Delete` both work on the *first* record carrying the
  identifier, as `FirstOrDefault` and `FindIndex` do.
- **File endpoint** (`FileEndpoint`, the handlers of `FileController`): a
  state machine over `Server(store, files)`. The upload directory is an
  abstract map from file name to bytes. Every handler maps a state and a
  request to a new state and an action result (`UploadOk`, `ListOk`,
  `DeleteOk`, `BadRequest`, `NotFound`, `PhysicalFile`), with the source's
  message strings.

`Lifecycle` states what holds across requests. With a fresh generated
identifier, uploads and deletes keep identifiers distinct and assigned. An
upload's identifier downloads the uploaded bytes. Deleting it restores the
previous list. The integration test's full create/list/download/delete
cycle is one lemma.

Modelling choices:

- The identifier generator (`ObjectId.GenerateNewId`) and the clock
  (`DateTime.UtcNow`) are parameters (`generated`, `now`). The generator is
  relied on through `FreshId`: a non-blank identifier no record carries yet.
  Lemmas that need it take it as a hypothesis.
- A C# `null` string identifier is the empty string. `IsNullOrWhiteSpace`
  treats the two alike, and it is the only test applied to an identifier.
  `IsWhiteSpace` lists the characters .NET's `char.IsWhiteSpace` accepts.
- An absent form field is `None`: `UploadFileRequest.file` and
  `UploadFileRequest.uploader`. An empty uploader string is kept as it is.
  Only a missing uploader becomes `"anonymous"`, as with the `??` operator.
- The `UploadFileRequest` class is not part of this model's sources. Its two
  fields (`File`, an `IFormFile`, and `Uploader`) are taken from how
  `FileController.Upload` uses them.
- The store holds records by value. In the source, `GetByIdAsync` returns
  the stored object itself and `CreateAsync` sets the identifier on the
  caller's object. No caller mutates a record afterwards, so value
  semantics gives the same results.

## Model

| member | source | states |
|---|---|---|
| MetadataStore.List | src/FileHostingApi/Services/FileMetadataService.cs:39-49 | the returned list has the store's length and, position by position, records equal field for field to the stored ones, in insertion order |
| MetadataStore.FindIndex | src/FileHostingApi/Services/FileMetadataService.cs:95 | the result is -1 exactly when no record carries the id, and otherwise the position of the first record that does |
| MetadataStore.GetById | src/FileHostingApi/Services/FileMetadataService.cs:59-62 | absent exactly when no record carries the id (a miss is not an error), otherwise the first record carrying it |
| MetadataStore.Create | src/FileHostingApi/Services/FileMetadataService.cs:65-83 | a null or white-space id is replaced by the generated one and any other id is kept; the other fields are unchanged; the store grows by exactly this record at the end, earlier records untouched |
| MetadataStore.RemoveAt | src/FileHostingApi/Services/FileMetadataService.cs:97 | the list loses exactly the given position; records before it stay in place and records after it move up by one |
| MetadataStore.Delete | src/FileHostingApi/Services/FileMetadataService.cs:93-98 | an absent id leaves the store unchanged; otherwise the length drops by one, the first record with the id is the one removed and all others keep their relative order |
| MetadataStore.CreateThenGetById | src/FileHostingApi/Services/FileMetadataService.cs:59-82 | a record created under an id no record carried yet is what GetById returns for that id |
| MetadataStore.CreatePreservesUniqueIds | src/FileHostingApi/Services/FileMetadataService.cs:67-82 | with a fresh generated id, creating a blank-id record keeps all ids pairwise distinct and non-blank |
| MetadataStore.DeleteAfterCreate | src/FileHostingApi/Services/FileMetadataService.cs:78-98 | deleting the id of a record just created under a new id gives back the previous store |
| MetadataStore.DeletePreservesUniqueIds | src/FileHostingApi/Services/FileMetadataService.cs:93-98 | deleting keeps ids pairwise distinct and non-blank |
| MetadataStore.DeleteThenGetById | src/FileHostingApi/Services/FileMetadataService.cs:59-62 | when ids are distinct, GetById on a deleted id finds nothing |
| FileEndpoint.Upload | src/FileHostingApi/Controllers/FileController.cs:22-43 | a missing or empty file gives BadRequest "File not selected." and changes nothing; otherwise the file's bytes are stored under its name with every other file entry unchanged, and exactly one record is appended with the generated id, the file name, the clock reading, the byte count and the uploader ("anonymous" only when none was sent) |
| FileEndpoint.DownloadById | src/FileHostingApi/Controllers/FileController.cs:46-58 | state unchanged; no record gives NotFound "File not found by ID.", a record whose file is absent gives NotFound "Physical file not present on server.", otherwise the stored bytes as application/octet-stream under the record's file name |
| FileEndpoint.DownloadByName | src/FileHostingApi/Controllers/FileController.cs:61-69 | state unchanged; an absent name gives NotFound "File not found by name on server.", otherwise the bytes stored under that name |
| FileEndpoint.ListFiles | src/FileHostingApi/Controllers/FileController.cs:72-76 | state unchanged; the result lists exactly the stored records in order |
| FileEndpoint.DeleteFile | src/FileHostingApi/Controllers/FileController.cs:79-91 | an unknown id gives NotFound and changes nothing; otherwise the result is Ok, the file the record names is gone, every other file is unchanged, and the store is the one Delete leaves |
| Lifecycle.UploadPreservesWellFormed | src/FileHostingApi/Controllers/FileController.cs:33-41 | with a fresh generated id, an upload keeps record ids distinct and non-blank |
| Lifecycle.DeleteFilePreservesWellFormed | src/FileHostingApi/Controllers/FileController.cs:79-91 | a delete keeps record ids distinct and non-blank |
| Lifecycle.DownloadByNameIgnoresMetadata | src/FileHostingApi/Controllers/FileController.cs:61-69 | two states with the same files give the same download-by-name answer, whatever their metadata |
| Lifecycle.UploadThenDownloadById | tests/FileHostingApi.Tests/FileHostingApiTests.cs:72-75 | the id an upload returns downloads exactly the uploaded bytes under the uploaded name |
| Lifecycle.UploadThenDownloadByName | tests/FileHostingApi.Tests/FileHostingApiTests.cs:78-81 | the uploaded name downloads exactly the uploaded bytes, whatever was stored under it before |
| Lifecycle.UploadThenDeleteFile | tests/FileHostingApi.Tests/FileHostingApiTests.cs:84-91 | deleting an upload's id returns Ok, restores the previous metadata list and leaves the directory without the uploaded name |
| Lifecycle.DeleteFileThenDownloadById | src/FileHostingApi/Controllers/FileController.cs:48-50 | in a store with distinct ids, a deleted id then gives NotFound "File not found by ID." |
| Lifecycle.FullCrudCycle | tests/FileHostingApi.Tests/FileHostingApiTests.cs:32-92 | from an empty list: the list is empty, the upload gives a non-blank id, the list then has one record with the uploaded name, size and uploader, both downloads return the bytes, the delete succeeds and the list is empty again |

## Left out

- The MongoDB backend and the constructor's choice between backends
  (FileMetadataService.cs:13-30 and the `_fileMetadata != null` branches).
  These are calls into the database driver. Only the in-memory backend is
  modelled.
- The `lock`, the `static` sharing of the in-memory list between service
  instances, and the async plumbing. The operations are modelled as
  sequential calls on one store.
- Real filesystem semantics: `Path.Combine`, directory creation, file
  streams and `PhysicalFile` streaming. The directory is a map keyed by
  opaque names, so path traversal and rooted file names are not modelled.
- `DateTime.UtcNow` and `ObjectId.GenerateNewId` are parameters, not
  implementations. The 24-hex-digit identifier format is not modelled.
- `FileMetadata.Size` is a 64-bit `long`. The model uses an unbounded
  `nat`, because no upload comes near the 64-bit limit.
- `Program.cs`, `Startup.cs` and `HealthController.cs` are hosting, routing
  and documentation wiring. They contain no request logic.
- The test double `MockFileMetadataService` is not used by the integration
  test, so it is not modelled.
- Partial failures are not modelled: an I/O error between the file write
  and the metadata write, or between the file delete and the record delete.
  Each handler is one atomic transition.
