/** Values shared by the search engine: the request, the listed objects, the
    outcomes of the storage calls the engine consumes, and its constants. */
module SearchTypes {

  type Byte = bv8
  type Bytes = seq<Byte>

  /** Objects larger than this (500 MiB) are never downloaded or matched. */
  const MaxAllowedFileSize: int := 500 * 1024 * 1024

  /** The MaxKeys value sent with every listing request: a page holds at most
      this many objects when the storage service honours it. */
  const MaxObjectSizePerRequest: int := 1000

  /** An error reported by the storage service, carried through unchanged. */
  datatype Error = Error(message: string)

  datatype Option<+T> = None | Some(value: T)

  /** The pair (value, error) returned by `Start`: on failure no value at all. */
  datatype Result<+T> = Success(value: T) | Failure(error: Error)

  /** A listed object: its key, its size in bytes and its last-modified time
      in Unix seconds. */
  datatype Object = Object(key: string, size: nat, lastModified: int)

  /** The search request. `text` is the pattern as the bytes of the Go string;
      `startDate` and `endDate` are Unix seconds, 0 meaning "not given". */
  datatype SReq = SReq(
    bucket: string,
    text: Bytes,
    resultCount: int,
    region: string,
    startDate: int,
    endDate: int)

  /** What downloading one object yields: the bytes of the download buffer,
      or the download error. */
  datatype Download = Downloaded(body: Bytes) | DownloadFailed(error: Error)

  /** The answer to one listing request: a page of objects, or an error. */
  datatype ListResponse = Page(contents: seq<Object>) | ListFailed(error: Error)

  /** The collaborators the engine calls but whose code is not modelled:
      - `fetch(bucket, key, size)` is the outcome of downloading `key` into a
        buffer pre-sized to `size` bytes;
      - `detects(pattern, consumed)` is what a fresh matcher for `pattern`
        answers on the last byte after being fed exactly the bytes `consumed`. */
  datatype Env = Env(
    fetch: (string, string, nat) -> Download,
    detects: (Bytes, Bytes) -> bool)
}
