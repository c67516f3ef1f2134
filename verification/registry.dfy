/**
 * The static format registry of the converter page: which output formats each
 * input MIME type may be converted to, how a MIME type is classified, and the
 * MIME type a converted blob carries.
 */
module Registry {

  /** Every raster format an image input may be converted to, in menu order. */
  const ImageFormats: seq<string> := ["jpg", "png", "webp", "gif", "avif", "bmp", "ico", "tiff"]

  /** Input MIME type to its ordered list of allowed output formats. */
  const ConversionFormats: map<string, seq<string>> := map[
    "video/mp4" := ["mp4", "mp3", "webm", "avi", "mov", "gif"],
    "video/webm" := ["webm", "mp4", "mp3", "avi", "mov", "gif"],
    "video/quicktime" := ["mov", "mp4", "webm", "mp3", "avi", "gif"],
    "video/x-msvideo" := ["avi", "mp4", "webm", "mp3", "mov", "gif"],
    "audio/mpeg" := ["mp3", "wav", "ogg", "aac"],
    "audio/wav" := ["wav", "mp3", "ogg", "aac"],
    "audio/ogg" := ["ogg", "mp3", "wav", "aac"],
    "audio/aac" := ["aac", "mp3", "wav", "ogg"],
    "image/png" := ImageFormats,
    "image/jpeg" := ImageFormats,
    "image/webp" := ImageFormats,
    "image/gif" := ImageFormats,
    "image/avif" := ImageFormats,
    "image/bmp" := ImageFormats,
    "image/x-icon" := ImageFormats,
    "image/tiff" := ImageFormats,
    "image/heic" := ImageFormats,
    "image/heif" := ImageFormats
  ]

  /** The registry entry for `mime`, empty when the registry has none. */
  function Formats(mime: string): (r: seq<string>)
    ensures mime in ConversionFormats <==> |r| > 0
    ensures mime in ConversionFormats ==> r == ConversionFormats[mime]
  {
    if mime in ConversionFormats then ConversionFormats[mime] else []
  }

  /** The format preselected for a new item: the first registry entry, else `"jpg"`. */
  function DefaultFormat(mime: string): (r: string)
    ensures |Formats(mime)| > 0 ==> r == Formats(mime)[0] && r in Formats(mime)
    ensures mime !in ConversionFormats ==> r == "jpg"
  {
    var formats := Formats(mime);
    if |formats| > 0 && formats[0] != "" then formats[0] else "jpg"
  }

  /** Coarse media kind of a MIME type. */
  datatype Category = Video | Audio | Image | Unknown

  predicate HasPrefix(s: string, prefix: string) {
    |prefix| <= |s| && s[..|prefix|] == prefix
  }

  /** Classification by the `video/`, `audio/` or `image/` prefix. */
  function GetFileCategory(mime: string): (r: Category)
    ensures r == Video <==> HasPrefix(mime, "video/")
    ensures r == Audio <==> HasPrefix(mime, "audio/")
    ensures r == Image <==> HasPrefix(mime, "image/")
    ensures r == Unknown <==>
      !HasPrefix(mime, "video/") && !HasPrefix(mime, "audio/") && !HasPrefix(mime, "image/")
  {
    if HasPrefix(mime, "video/") then Video
    else if HasPrefix(mime, "audio/") then Audio
    else if HasPrefix(mime, "image/") then Image
    else Unknown
  }

  /** MIME types of the raster encoder, keyed by image format. */
  const ImageMimeTypes: map<string, string> := map[
    "jpg" := "image/jpeg",
    "jpeg" := "image/jpeg",
    "png" := "image/png",
    "webp" := "image/webp",
    "gif" := "image/gif",
    "avif" := "image/avif",
    "bmp" := "image/bmp",
    "ico" := "image/x-icon",
    "tiff" := "image/tiff"
  ]

  /** MIME type requested from the raster encoder: the table, else `image/<format>`. */
  function ImageOutputMime(format: string): (r: string)
    ensures HasPrefix(r, "image/")
    ensures format in ImageMimeTypes ==> r == ImageMimeTypes[format]
    ensures format !in ImageMimeTypes ==> r == "image/" + format
  {
    if format in ImageMimeTypes && ImageMimeTypes[format] != "" then ImageMimeTypes[format]
    else "image/" + format
  }

  /** MIME types of transcoder output, keyed by container format. */
  const MediaMimeTypes: map<string, string> := map[
    "mp3" := "audio/mpeg",
    "wav" := "audio/wav",
    "ogg" := "audio/ogg",
    "aac" := "audio/aac",
    "mp4" := "video/mp4",
    "webm" := "video/webm",
    "avi" := "video/x-msvideo",
    "mov" := "video/quicktime",
    "gif" := "image/gif"
  ]

  const GenericBinary: string := "application/octet-stream"

  /** MIME type of a transcoded blob: the table, else the generic binary type. */
  function MediaOutputMime(format: string): (r: string)
    ensures format in MediaMimeTypes <==> r != GenericBinary
    ensures format in MediaMimeTypes ==> r == MediaMimeTypes[format]
  {
    if format in MediaMimeTypes && MediaMimeTypes[format] != "" then MediaMimeTypes[format]
    else GenericBinary
  }

  /** Every registry entry is non-empty and keyed by a classifiable MIME type. */
  lemma RegistryEntriesUsable(mime: string)
    requires mime in ConversionFormats
    ensures |Formats(mime)| > 0
    ensures GetFileCategory(mime) != Unknown
    ensures GetFileCategory(mime) == Image <==> Formats(mime) == ImageFormats
  {
  }

  /**
   * For every audio or video registry entry the preselected format converts
   * back to the same MIME type: the default conversion preserves the kind.
   */
  lemma MediaDefaultRoundTrip(mime: string)
    requires mime in ConversionFormats
    requires GetFileCategory(mime) != Image
    ensures MediaOutputMime(DefaultFormat(mime)) == mime
  {
    assert !HasPrefix(mime, "image/");
    assert mime in MediaInputs;
    MediaEntries(mime);
  }

  /** The registry keys that are video types. */
  const VideoInputs: set<string> := {"video/mp4", "video/webm", "video/quicktime", "video/x-msvideo"}

  /** The registry keys that are audio types. */
  const AudioInputs: set<string> := {"audio/mpeg", "audio/wav", "audio/ogg", "audio/aac"}

  /** The registry keys that are not image types. */
  const MediaInputs: set<string> := VideoInputs + AudioInputs

  /** The output type of a conversion, chosen by the category of the declared input type. */
  function OutputMime(category: Category, format: string): string {
    if category == Image then ImageOutputMime(format) else MediaOutputMime(format)
  }

  /**
   * Closure: converting any registered type to any of its allowed formats
   * yields a blob whose MIME type is again registered, so it can be resubmitted.
   */
  lemma OutputsAreRegistered(mime: string, format: string)
    requires mime in ConversionFormats
    requires format in Formats(mime)
    ensures OutputMime(GetFileCategory(mime), format) in ConversionFormats
  {
    RegistryEntriesUsable(mime);
    if GetFileCategory(mime) == Image {
      ImageOutputsRegistered(format);
    } else {
      assert !HasPrefix(mime, "image/");
      assert mime in MediaInputs;
      MediaOutputsRegistered(mime, format);
    }
  }

  /** Every raster format encodes to a registered image type. */
  lemma ImageOutputsRegistered(format: string)
    requires format in ImageFormats
    ensures ImageOutputMime(format) in ConversionFormats
  {
    assert format in ImageMimeTypes;
  }

  /** Every format offered for an audio or video type transcodes to a registered type. */
  lemma MediaOutputsRegistered(mime: string, format: string)
    requires mime in MediaInputs && format in Formats(mime)
    ensures MediaOutputMime(format) in ConversionFormats
  {
    MediaEntries(mime);
    assert format in MediaMimeTypes;
  }

  /** Each audio and video registry entry offers only transcodable formats and starts with its own kind. */
  lemma MediaEntries(mime: string)
    requires mime in MediaInputs
    ensures forall format :: format in Formats(mime) ==> format in MediaMimeTypes
    ensures MediaOutputMime(Formats(mime)[0]) == mime
  {
    if mime in VideoInputs {
      VideoEntries(mime);
    } else {
      AudioEntries(mime);
    }
  }

  lemma VideoEntries(mime: string)
    requires mime in VideoInputs
    ensures forall format :: format in Formats(mime) ==> format in MediaMimeTypes
    ensures MediaOutputMime(Formats(mime)[0]) == mime
  {
    if mime == "video/mp4" {
    } else if mime == "video/webm" {
    } else if mime == "video/quicktime" {
    } else {
    }
  }

  lemma AudioEntries(mime: string)
    requires mime in AudioInputs
    ensures forall format :: format in Formats(mime) ==> format in MediaMimeTypes
    ensures MediaOutputMime(Formats(mime)[0]) == mime
  {
    if mime == "audio/mpeg" {
    } else if mime == "audio/wav" {
    } else if mime == "audio/ogg" {
    } else {
    }
  }

  /** A file with no declared type has no registry entry of its own. */
  lemma EmptyTypeUnregistered()
    ensures "" !in ConversionFormats
  {
  }

  /** The generic binary type has no registry entry. */
  lemma GenericBinaryUnregistered()
    ensures GenericBinary !in ConversionFormats
  {
  }

  /** A type can be classified yet have no registry entry, and is then refused. */
  lemma ClassifiedButUnregistered()
    ensures GetFileCategory("video/ogg") == Video && Formats("video/ogg") == []
  {
  }
}
