/** The plain values the converter passes around: files, blobs and pixel sizes. */
module Media {

  /** One byte of file content. */
  newtype Byte = x: int | 0 <= x < 256

  /** A browser `File`: its name, its declared MIME type (possibly empty) and its content. */
  datatype SourceFile = SourceFile(name: string, mimeType: string, content: seq<Byte>)

  /** A browser `Blob`: bytes tagged with a MIME type. */
  datatype Blob = Blob(data: seq<Byte>, mimeType: string)

  /** Natural pixel size reported by the platform decoder. */
  datatype Dims = Dims(width: nat, height: nat)
}
