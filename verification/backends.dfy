/**
 * The two conversion backends, with everything the browser does for them
 * (decoding, HEIC normalisation, canvas encoding, the WebAssembly engine)
 * supplied as observed outcomes rather than computed.
 */
module Backends {
  import opened Wrappers
  import opened Media
  import opened Registry
  import opened Classifier
  import opened Command
  import opened Queue

  /** A thrown value: an `Error` object with its message, or anything else. */
  datatype Thrown = ErrorObject(message: string) | OtherValue

  /** The message an item shows for a thrown value. */
  function Message(t: Thrown): (r: string)
    ensures t.ErrorObject? ==> r == t.message
    ensures t.OtherValue? ==> r == "Conversion failed"
  {
    match t
    case ErrorObject(m) => m
    case OtherValue => "Conversion failed"
  }

  const LoadImageFailed: string := "Failed to load image"
  const ConvertImageFailed: string := "Failed to convert image"
  const EngineLoadFailed: string := "Failed to load conversion engine."

  /** What the browser does during one raster conversion. */
  datatype ImagePlatform = ImagePlatform(
    heicFailure: Option<Thrown>,
    decoded: Option<Dims>,
    encode: (int, int, string) -> Option<Blob>)

  const PngMime: string := "image/png"

  /**
   * The canvas rule for `toBlob`: the blob has the requested type, or PNG
   * when the browser cannot encode that type (the HTML Standard's rule for
   * serialising a bitmap as a file).
   */
  ghost predicate CanvasEncodes(p: ImagePlatform) {
    forall w, h, mime :: p.encode(w, h, mime).Some? ==>
      p.encode(w, h, mime).value.mimeType == mime || p.encode(w, h, mime).value.mimeType == PngMime
  }

  /** Canvas size: each target dimension when truthy, else the decoded natural one. */
  function CanvasSize(width: Option<int>, height: Option<int>, natural: Dims): (r: (int, int))
    ensures Truthy(width) ==> r.0 == width.value
    ensures !Truthy(width) ==> r.0 == natural.width
    ensures Truthy(height) ==> r.1 == height.value
    ensures !Truthy(height) ==> r.1 == natural.height
  {
    (if Truthy(width) then width.value else natural.width,
     if Truthy(height) then height.value else natural.height)
  }

  /** Drawing the decoded image at the canvas size and asking the canvas for a `mime` blob. */
  function Draw(f: Item, natural: Dims, mime: string, p: ImagePlatform): (r: Result<Blob, Thrown>)
    ensures r.Success? ==>
      p.encode(CanvasSize(f.width, f.height, natural).0, CanvasSize(f.width, f.height, natural).1, mime)
        == Some(r.value)
    ensures r.Success? && CanvasEncodes(p) ==> r.value.mimeType in {mime, PngMime}
    ensures r.Failure? ==>
      p.encode(CanvasSize(f.width, f.height, natural).0, CanvasSize(f.width, f.height, natural).1, mime).None?
      && r.error == ErrorObject(ConvertImageFailed)
  {
    var size := CanvasSize(f.width, f.height, natural);
    match p.encode(size.0, size.1, mime)
    case None => Failure(ErrorObject(ConvertImageFailed))
    case Some(blob) => Success(blob)
  }

  /**
   * `convertImage`: normalise HEIC first, decode, draw at the canvas size
   * and ask the canvas for the format's image MIME type. A HEIC failure propagates
   * as thrown; a decode failure and an empty encoding have fixed messages.
   */
  function ConvertImage(f: Item, p: ImagePlatform): (r: Result<Blob, Thrown>)
    ensures IsHeicFileByType(f.file) && p.heicFailure.Some? ==> r == Failure(p.heicFailure.value)
    ensures r.Success? ==>
      && p.decoded.Some?
      && p.encode(CanvasSize(f.width, f.height, p.decoded.value).0,
                  CanvasSize(f.width, f.height, p.decoded.value).1,
                  ImageOutputMime(f.outputFormat)) == Some(r.value)
    ensures r.Success? && CanvasEncodes(p) ==> r.value.mimeType in {ImageOutputMime(f.outputFormat), PngMime}
    ensures r.Failure? && !(IsHeicFileByType(f.file) && p.heicFailure.Some?) ==>
      r.error in {ErrorObject(LoadImageFailed), ErrorObject(ConvertImageFailed)}
    ensures (!IsHeicFileByType(f.file) || p.heicFailure.None?) && p.decoded.None? ==>
      r == Failure(ErrorObject(LoadImageFailed))
    ensures (!IsHeicFileByType(f.file) || p.heicFailure.None?) && p.decoded.Some? ==>
      r == Draw(f, p.decoded.value, ImageOutputMime(f.outputFormat), p)
    ensures r.Success? <==>
      && (!IsHeicFileByType(f.file) || p.heicFailure.None?)
      && p.decoded.Some?
      && p.encode(CanvasSize(f.width, f.height, p.decoded.value).0,
                  CanvasSize(f.width, f.height, p.decoded.value).1,
                  ImageOutputMime(f.outputFormat)).Some?
  {
    if IsHeicFileByType(f.file) && p.heicFailure.Some? then Failure(p.heicFailure.value)
    else if p.decoded.None? then Failure(ErrorObject(LoadImageFailed))
    else Draw(f, p.decoded.value, ImageOutputMime(f.outputFormat), p)
  }

  /** A progress percentage. */
  type Percent = x: int | 0 <= x <= 100

  /** The shared transcoding engine: whether it is loaded and which files its file system holds. */
  datatype Engine = Engine(loaded: bool, files: set<string>)

  /** What the engine and browser do during one transcode. */
  datatype MediaPlatform = MediaPlatform(
    loads: bool,
    writeFailure: Option<Thrown>,
    run: seq<string> -> Result<seq<Byte>, Thrown>,
    lastProgress: Option<Percent>)

  /** The engine command for an item. */
  function CommandFor(f: Item): seq<string> {
    BuildCommand(f.outputFormat, f.width, f.height, f.originalWidth, f.originalHeight, f.id, f.file.name)
  }

  /**
   * `convertMedia` as written: load the engine once, write the scoped
   * input, run the command and read the output, then delete both scoped
   * files. The deletions sit on the success path only, so a failing run
   * leaves the input behind in the engine's file system.
   */
  function ConvertMediaAsWritten(f: Item, engine: Engine, p: MediaPlatform): (r: (Result<Blob, Thrown>, Engine))
    ensures !engine.loaded && !p.loads ==> r == (Failure(ErrorObject(EngineLoadFailed)), engine)
    ensures r.1.loaded == (engine.loaded || p.loads)
    ensures r.0.Success? ==>
      p.run(CommandFor(f)) == Success(r.0.value.data) && r.0.value.mimeType == MediaOutputMime(f.outputFormat)
    ensures (engine.loaded || p.loads) && p.writeFailure.None? && p.run(CommandFor(f)).Failure? ==>
      r.1.files == engine.files + {InputName(f.id, f.file.name)}
    ensures (engine.loaded || p.loads) && p.writeFailure.Some? ==> r.0 == Failure(p.writeFailure.value)
    ensures (engine.loaded || p.loads) && p.writeFailure.None? && p.run(CommandFor(f)).Failure? ==>
      r.0 == Failure(p.run(CommandFor(f)).error)
    ensures r.0.Success? <==> (engine.loaded || p.loads) && p.writeFailure.None? && p.run(CommandFor(f)).Success?
  {
    if !engine.loaded && !p.loads then (Failure(ErrorObject(EngineLoadFailed)), engine)
    else
      var ready := engine.(loaded := true);
      var input, output := InputName(f.id, f.file.name), OutputName(f.id, f.outputFormat);
      if p.writeFailure.Some? then (Failure(p.writeFailure.value), ready)
      else
        var written := ready.(files := ready.files + {input});
        match p.run(CommandFor(f))
        case Failure(t) => (Failure(t), written)
        case Success(data) =>
          (Success(Blob(data, MediaOutputMime(f.outputFormat))), written.(files := written.files - {input, output}))
  }

  /** A failing run, as written, leaves the scoped input file in the engine's file system. */
  lemma FailedRunLeaksInput(f: Item, engine: Engine, p: MediaPlatform)
    requires engine.loaded || p.loads
    requires p.writeFailure.None? && p.run(CommandFor(f)).Failure?
    ensures InputName(f.id, f.file.name) in ConvertMediaAsWritten(f, engine, p).1.files
  {
  }

  /** From an empty file system, one failing run as written leaves it non-empty. */
  lemma LeakExample(f: Item, p: MediaPlatform)
    requires p.loads && p.writeFailure.None? && p.run(CommandFor(f)).Failure?
    ensures ConvertMediaAsWritten(f, Engine(false, {}), p).1.files != {}
  {
    FailedRunLeaksInput(f, Engine(false, {}), p);
  }

  /**
   * `convertMedia` with the scoped files deleted whether or not the run
   * succeeds: the file system never grows and never keeps this item's files.
   */
  function ConvertMedia(f: Item, engine: Engine, p: MediaPlatform): (r: (Result<Blob, Thrown>, Engine))
    ensures !engine.loaded && !p.loads ==> r == (Failure(ErrorObject(EngineLoadFailed)), engine)
    ensures r.1.loaded == (engine.loaded || p.loads)
    ensures r.1.files <= engine.files
    ensures (engine.loaded || p.loads) ==>
      r.1.files == engine.files - {InputName(f.id, f.file.name), OutputName(f.id, f.outputFormat)}
    ensures r.0.Success? ==>
      p.run(CommandFor(f)) == Success(r.0.value.data) && r.0.value.mimeType == MediaOutputMime(f.outputFormat)
    ensures (engine.loaded || p.loads) && p.writeFailure.Some? ==> r.0 == Failure(p.writeFailure.value)
    ensures (engine.loaded || p.loads) && p.writeFailure.None? && p.run(CommandFor(f)).Failure? ==>
      r.0 == Failure(p.run(CommandFor(f)).error)
    ensures r.0.Success? <==> (engine.loaded || p.loads) && p.writeFailure.None? && p.run(CommandFor(f)).Success?
  {
    if !engine.loaded && !p.loads then (Failure(ErrorObject(EngineLoadFailed)), engine)
    else
      var ready := engine.(loaded := true);
      var input, output := InputName(f.id, f.file.name), OutputName(f.id, f.outputFormat);
      var cleaned := ready.(files := ready.files - {input, output});
      if p.writeFailure.Some? then (Failure(p.writeFailure.value), cleaned)
      else
        match p.run(CommandFor(f))
        case Failure(t) => (Failure(t), cleaned)
        case Success(data) => (Success(Blob(data, MediaOutputMime(f.outputFormat))), cleaned)
  }

  /** The transcode's result depends on the engine only through whether it is, or can be, loaded. */
  lemma MediaResultLoadOnly(f: Item, engine: Engine, p: MediaPlatform)
    ensures ConvertMedia(f, engine, p).0 ==
      if engine.loaded || p.loads then ConvertMedia(f, Engine(true, {}), p).0
      else Failure(ErrorObject(EngineLoadFailed))
  {
  }

  /** The corrected transcode differs from the one as written only in the file system it leaves. */
  lemma MediaVersionsAgree(f: Item, engine: Engine, p: MediaPlatform)
    ensures ConvertMedia(f, engine, p).0 == ConvertMediaAsWritten(f, engine, p).0
    ensures ConvertMedia(f, engine, p).1.loaded == ConvertMediaAsWritten(f, engine, p).1.loaded
  {
  }
}
