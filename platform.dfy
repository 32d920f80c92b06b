/**
 * The library functions of the PHP runtime that the core calls but whose
 * internals lie outside the model (libmagic, GD, base64, JSON text, date
 * formatting, iconv). They are bundled as uninterpreted functions so that
 * every statement about the core holds whatever they compute.
 */
module Platform {
  import opened Outcomes
  import opened Entries

  /** A decoded image's side length; GD images are never empty. */
  type Side = x: int | x >= 1 witness 1

  /** The size of a decoded image (`imagesx`, `imagesy`). */
  datatype Canvas = Canvas(width: Side, height: Side)

  /** A requested canvas size, which may be degenerate. */
  datatype Dims = Dims(width: int, height: int)

  datatype Probe = Probe(
    /** the size the file system reports for a directory */
    dirSize: int,
    /** `mime_content_type` of a regular file's bytes */
    mimeType: seq<bv8> -> string,
    /** `getimagesize`: width and height when the bytes are a known image format */
    imageSize: seq<bv8> -> Option<(int, int)>,
    /** `imagecreatefromstring` */
    decode: seq<bv8> -> Option<Canvas>,
    /** names of the `image*` encoder functions that exist (`function_exists`) */
    encoders: set<string>,
    /** the resampled image, as the encoder for the given extension writes it */
    render: (seq<bv8>, string, Dims) -> seq<bv8>,
    /** `base64_encode` */
    base64: seq<bv8> -> string,
    /** `json_encode` of a cache listing */
    json: seq<CacheRecord> -> seq<bv8>,
    /** `(new DateTimeImmutable('@' . t))->format('c')` */
    isoTime: int -> string,
    /** `iconv('UTF-8', 'ASCII//TRANSLIT', s)`; None when it fails */
    translit: string -> Option<string>)

  /** What `mime_content_type` reports for a directory. */
  const DirectoryMime: string := "directory"
}
