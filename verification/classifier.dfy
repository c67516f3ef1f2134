/**
 * How the converter decides what a submitted file is: its extension, whether
 * it is a HEIC/HEIF still image, its effective MIME type, and whether it is
 * accepted into the queue at all.
 */
module Classifier {
  import opened Text
  import opened Media
  import opened Registry

  /** `file.name.toLowerCase().split(".").pop()`: the lower-cased text after the last dot. */
  function Extension(file: SourceFile): (r: string)
    ensures '.' !in r
    ensures '.' !in file.name ==> r == ToLower(file.name)
  {
    ToLowerKeepsSeparator(file.name, '.');
    LastSegment(ToLower(file.name), '.')
  }

  predicate IsHeicExtension(ext: string) {
    ext == "heic" || ext == "heif"
  }

  /** A HEIC/HEIF file, recognised by its declared type or by its extension. */
  predicate IsHeicFileByType(file: SourceFile) {
    || file.mimeType == "image/heic"
    || file.mimeType == "image/heif"
    || IsHeicExtension(Extension(file))
  }

  /**
   * The declared type when there is one; otherwise `image/heic` for a
   * `.heic`/`.heif` name and the empty string for anything else.
   */
  function GetEffectiveMimeType(file: SourceFile): (r: string)
    ensures file.mimeType != "" ==> r == file.mimeType
    ensures file.mimeType == "" ==> (r == "image/heic" <==> IsHeicExtension(Extension(file)))
    ensures file.mimeType == "" ==> (r == "" <==> !IsHeicExtension(Extension(file)))
  {
    if file.mimeType != "" then file.mimeType
    else if IsHeicExtension(Extension(file)) then "image/heic"
    else ""
  }

  /** The submission filter: the effective type has a non-empty registry entry. */
  predicate Accepts(file: SourceFile) {
    |Formats(GetEffectiveMimeType(file))| > 0
  }

  /**
   * A file is accepted exactly when its declared type is registered, or it
   * declares no type and carries a HEIC/HEIF extension.
   */
  lemma AcceptsCharacterized(file: SourceFile)
    ensures Accepts(file) <==>
      (file.mimeType != "" && file.mimeType in ConversionFormats)
      || (file.mimeType == "" && IsHeicExtension(Extension(file)))
  {
    assert "" !in ConversionFormats;
    assert "image/heic" in ConversionFormats;
  }

  /** An effective type of `image/heic` always means the file is treated as HEIC. */
  lemma EffectiveHeicIsHeic(file: SourceFile)
    ensures GetEffectiveMimeType(file) == "image/heic" ==> IsHeicFileByType(file)
    ensures file.mimeType == "" && IsHeicFileByType(file) ==> GetEffectiveMimeType(file) == "image/heic"
  {
  }

  /** The extension of `stem.ext` is the lower-cased `ext`, whatever the stem holds. */
  lemma ExtensionOf(stem: string, ext: string)
    requires '.' !in ext
    ensures Extension(SourceFile(stem + "." + ext, "", [])) == ToLower(ext)
  {
    ToLowerAppend(stem + ".", ext);
    ToLowerAppend(stem, ".");
    assert ToLower(".") == ".";
    ToLowerKeepsSeparator(ext, '.');
    LastSegmentAfterSep(ToLower(stem), ToLower(ext), '.');
  }

  /**
   * HEIC treatment of a file named `stem.ext` depends on the declared type and
   * on `ext` with its case ignored, never on the stem.
   */
  lemma HeicByNameOrType(file: SourceFile, stem: string, ext: string)
    requires file.name == stem + "." + ext && '.' !in ext
    ensures IsHeicFileByType(file) <==>
      file.mimeType in {"image/heic", "image/heif"} || IsHeicExtension(ToLower(ext))
  {
    ExtensionOf(stem, ext);
    assert Extension(file) == Extension(SourceFile(stem + "." + ext, "", []));
  }

  /** Lower-casing the upper-case HEIC extension. */
  lemma LowerHeic()
    ensures ToLower("HEIC") == "heic"
  {
    var lowered := ToLower("HEIC");
    assert lowered[0] == 'h' && lowered[1] == 'e' && lowered[2] == 'i' && lowered[3] == 'c';
  }

  /**
   * A `.HEIC` photo with no declared type is accepted as `image/heic` and
   * treated as HEIC, yet its declared type classifies as unknown.
   */
  lemma UntypedHeicPhoto(file: SourceFile, stem: string)
    requires file.name == stem + ".HEIC" && file.mimeType == ""
    ensures GetEffectiveMimeType(file) == "image/heic"
    ensures Accepts(file)
    ensures IsHeicFileByType(file)
    ensures GetFileCategory(file.mimeType) == Unknown
  {
    assert stem + ".HEIC" == stem + "." + "HEIC";
    ExtensionOf(stem, "HEIC");
    LowerHeic();
    assert Extension(file) == "heic";
    assert Formats("image/heic") == ImageFormats;
    assert !HasPrefix("", "video/");
  }
}
