/**
 * The metadata record kept for every uploaded file
 * (src/FileHostingApi/Models/FileMetadata.cs) and the blank-string test
 * that decides whether a record still needs an identifier.
 */
module Models {

  /**
   * `UploadDate` is a `DateTime`; the model keeps it as an opaque tick
   * count supplied by the caller, since no operation inspects it.
   */
  type Timestamp = int

  /**
   * One stored file record. A C# `null` identifier is represented by the
   * empty string: both are blank for `string.IsNullOrWhiteSpace`, which is
   * the only test ever applied to an identifier before it is assigned.
   */
  datatype FileMetadata = FileMetadata(
    id: string,
    fileName: string,
    uploadDate: Timestamp,
    size: nat,
    uploader: string)

  /**
   * `char.IsWhiteSpace` of .NET: the space separators (Unicode category Zs),
   * the line and paragraph separators, the controls U+0009 to U+000D and
   * U+0085.
   */
  predicate IsWhiteSpace(c: char) {
    || ('\U{9}' <= c <= '\U{D}')
    || c == '\U{20}'
    || c == '\U{85}'
    || c == '\U{A0}'
    || c == '\U{1680}'
    || ('\U{2000}' <= c <= '\U{200A}')
    || c == '\U{2028}'
    || c == '\U{2029}'
    || c == '\U{202F}'
    || c == '\U{205F}'
    || c == '\U{3000}'
  }

  /** `string.IsNullOrWhiteSpace`, with `null` represented by `""`. */
  predicate IsNullOrWhiteSpace(s: string) {
    forall i :: 0 <= i < |s| ==> IsWhiteSpace(s[i])
  }

}
