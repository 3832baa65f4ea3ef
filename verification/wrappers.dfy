/** Value types shared by every module: optional values, results carrying the
    error that the Python code would raise, and bytes. */
module Wrappers {

  datatype Option<+T> = None | Some(value: T)

  /** The exceptions the pipeline can end in. Each one aborts the run it happens in. */
  datatype Error =
    | MissingTag(image: string)                        // `name.split(":")[1]` raises IndexError
    | ManifestNotFound(repository: string, tag: string) // the source registry has no such manifest
    | MalformedManifest(repository: string)            // `config.digest`, `layers` or a layer's `digest` is missing
    | ContentNotFetchable(image: string)               // the ValueError of the decoder side
    | BlobNotFound(repository: string, digest: string) // the source registry has no such blob
    | EntryNotFound(path: string)                      // KeyError of `ZipFile.read`
    | NullManifestPath(image: string)                  // `ZipFile.read(None)`: there is no item named None
    | MalformedDescriptor                              // `payload_descriptor.json` is not an object of paths

  datatype Result<+T> = Ok(value: T) | Err(error: Error)

  newtype byte = x: int | 0 <= x < 256

  type Bytes = seq<byte>

  function Last<T>(s: seq<T>): T
    requires s != []
  {
    s[|s| - 1]
  }

  function DropLast<T>(s: seq<T>): seq<T>
    requires s != []
  {
    s[..|s| - 1]
  }
}
