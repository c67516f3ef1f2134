/**
 * The argument list handed to the transcoding engine: a scoped input file,
 * format-specific codec and filter arguments, and a scoped output file.
 */
module Command {
  import opened Wrappers
  import opened Text

  /** Joining two dot-free parts with a dot splits back into exactly those parts. */
  lemma TwoSegments(a: string, b: string)
    requires '.' !in a && '.' !in b
    ensures Split(a + "." + b, '.') == [a, b]
  {
    assert Join([a, b], '.') == a + "." + b by {
      assert [a, b][1..] == [b];
    }
    SplitJoin([a, b], '.');
  }

  /** Virtual-file-system name of the input: `input_<id>.<last segment of the file name>`. */
  function InputName(id: string, fileName: string): (r: string)
    ensures LastSegment(r, '.') == LastSegment(fileName, '.')
    ensures '.' !in id ==> FirstSegment(r, '.') == "input_" + id
    ensures '.' !in id ==> Split(r, '.') == ["input_" + id, LastSegment(fileName, '.')]
  {
    var ext := LastSegment(fileName, '.');
    assert '.' !in id ==> Split("input_" + id + "." + ext, '.') == ["input_" + id, ext] by {
      if '.' !in id {
        TwoSegments("input_" + id, ext);
      }
    }
    LastSegmentAfterSep("input_" + id, ext, '.');
    assert '.' !in id ==> FirstSegment("input_" + id + "." + ext, '.') == "input_" + id by {
      if '.' !in id {
        FirstSegmentBeforeSep("input_" + id, ext, '.');
      }
    }
    "input_" + id + "." + ext
  }

  /** Virtual-file-system name of the output: `output_<id>.<format>`. */
  function OutputName(id: string, format: string): (r: string)
    ensures '.' !in format ==> LastSegment(r, '.') == format
    ensures '.' !in id ==> FirstSegment(r, '.') == "output_" + id
    ensures '.' !in id && '.' !in format ==> Split(r, '.') == ["output_" + id, format]
  {
    assert '.' !in id && '.' !in format ==> Split("output_" + id + "." + format, '.') == ["output_" + id, format] by {
      if '.' !in id && '.' !in format {
        TwoSegments("output_" + id, format);
      }
    }
    assert '.' !in format ==> LastSegment("output_" + id + "." + format, '.') == format by {
      if '.' !in format {
        LastSegmentAfterSep("output_" + id, format, '.');
      }
    }
    assert '.' !in id ==> FirstSegment("output_" + id + "." + format, '.') == "output_" + id by {
      if '.' !in id {
        FirstSegmentBeforeSep("output_" + id, format, '.');
      }
    }
    "output_" + id + "." + format
  }

  /** JavaScript truthiness of a `number | null`: present and not zero. */
  predicate Truthy(n: Option<int>) {
    n.Some? && n.value != 0
  }

  /** Both targets and both originals are set and the target differs from the original. */
  predicate HasCustomDimensions(width: Option<int>, height: Option<int>,
                                originalWidth: Option<int>, originalHeight: Option<int>) {
    && Truthy(width) && Truthy(height) && Truthy(originalWidth) && Truthy(originalHeight)
    && (width.value != originalWidth.value || height.value != originalHeight.value)
  }

  const AudioTargets: set<string> := {"mp3", "wav", "ogg"}
  const VideoContainers: set<string> := {"webm", "mp4", "avi", "mov"}
  const KnownTargets: set<string> := AudioTargets + VideoContainers + {"gif"}

  /** The `scale=W:H` resize filter. */
  function ScaleFilter(width: int, height: int): string {
    "scale=" + IntToString(width) + ":" + IntToString(height)
  }

  /** Frame width of an animated GIF when the item has no usable target width. */
  const GifDefaultWidth: int := 480

  function GifWidth(width: Option<int>): (r: int)
    ensures Truthy(width) ==> r == width.value
    ensures !Truthy(width) ==> r == GifDefaultWidth
  {
    if Truthy(width) then width.value else GifDefaultWidth
  }

  /** Ten frames a second, width `w`, height keeping the aspect ratio, Lanczos resampling. */
  function GifFilter(w: int): string {
    "fps=10,scale=" + IntToString(w) + ":-1:flags=lanczos"
  }

  /** Video and audio codec arguments of each video container. */
  function CodecArgs(format: string): (r: seq<string>)
    requires format in VideoContainers
    ensures |r| == 4 && r[0] == "-c:v" && r[2] == "-c:a"
    ensures "-vf" !in r && "-vn" !in r
    ensures format == "webm" ==> r[1] == "libvpx" && r[3] == "libvorbis"
    ensures format == "mp4" || format == "mov" ==> r[1] == "libx264" && r[3] == "aac"
    ensures format == "avi" ==> r[1] == "mpeg4" && r[3] == "mp3"
  {
    if format == "webm" then ["-c:v", "libvpx", "-c:a", "libvorbis"]
    else if format == "mp4" then ["-c:v", "libx264", "-c:a", "aac"]
    else if format == "avi" then ["-c:v", "mpeg4", "-c:a", "mp3"]
    else ["-c:v", "libx264", "-c:a", "aac"]
  }

  /** The resize filter of a video container, present only for a custom size. */
  function ScaleArgs(width: Option<int>, height: Option<int>,
                     originalWidth: Option<int>, originalHeight: Option<int>): (r: seq<string>)
    ensures "-vf" in r <==> HasCustomDimensions(width, height, originalWidth, originalHeight)
    ensures HasCustomDimensions(width, height, originalWidth, originalHeight) ==>
      r == ["-vf", ScaleFilter(width.value, height.value)]
    ensures !HasCustomDimensions(width, height, originalWidth, originalHeight) ==> r == []
  {
    if HasCustomDimensions(width, height, originalWidth, originalHeight)
    then ["-vf", ScaleFilter(width.value, height.value)]
    else []
  }

  /** The arguments between the input and the output file. */
  function FormatArgs(format: string, width: Option<int>, height: Option<int>,
                      originalWidth: Option<int>, originalHeight: Option<int>): (r: seq<string>)
    ensures format in AudioTargets ==> "-vn" in r && "-vf" !in r
    ensures format == "mp3" ==> r == ["-vn", "-acodec", "libmp3lame", "-q:a", "2"]
    ensures format == "wav" ==> r == ["-vn", "-acodec", "pcm_s16le"]
    ensures format == "ogg" ==> r == ["-vn", "-acodec", "libvorbis", "-q:a", "4"]
    ensures format !in KnownTargets ==> r == []
    ensures format in VideoContainers ==>
      r == ScaleArgs(width, height, originalWidth, originalHeight) + CodecArgs(format)
    ensures format == "gif" ==> r == ["-vf", GifFilter(GifWidth(width)), "-loop", "0"]
  {
    if format == "mp3" then ["-vn", "-acodec", "libmp3lame", "-q:a", "2"]
    else if format == "wav" then ["-vn", "-acodec", "pcm_s16le"]
    else if format == "ogg" then ["-vn", "-acodec", "libvorbis", "-q:a", "4"]
    else if format == "gif" then ["-vf", GifFilter(GifWidth(width)), "-loop", "0"]
    else if format in VideoContainers then
      ScaleArgs(width, height, originalWidth, originalHeight) + CodecArgs(format)
    else []
  }

  /** The engine command for one item, framed by its scoped input and output names. */
  function BuildCommand(format: string, width: Option<int>, height: Option<int>,
                        originalWidth: Option<int>, originalHeight: Option<int>,
                        id: string, fileName: string): (r: seq<string>)
    ensures |r| >= 3
    ensures r[0] == "-i" && r[1] == InputName(id, fileName)
    ensures r[|r| - 1] == OutputName(id, format)
  {
    ["-i", InputName(id, fileName)] + FormatArgs(format, width, height, originalWidth, originalHeight)
      + [OutputName(id, format)]
  }

  /**
   * What the command holds between its input and output: audio targets drop
   * the video stream and never scale; `aac` and unknown targets add nothing;
   * a video container gets a resize filter exactly when the item asks for a
   * size other than its original, then its codecs; a GIF always gets its
   * frame-rate filter and loops forever.
   */
  lemma CommandShape(format: string, width: Option<int>, height: Option<int>,
                     originalWidth: Option<int>, originalHeight: Option<int>,
                     id: string, fileName: string)
    ensures var r := BuildCommand(format, width, height, originalWidth, originalHeight, id, fileName);
      && (format in AudioTargets ==> "-vn" in r && "-vf" !in r)
      && (format !in KnownTargets ==> r == ["-i", InputName(id, fileName), OutputName(id, format)])
      && (format in VideoContainers ==>
            ("-vf" in r <==> HasCustomDimensions(width, height, originalWidth, originalHeight)))
      && (format in VideoContainers && HasCustomDimensions(width, height, originalWidth, originalHeight) ==>
            r[2] == "-vf" && r[3] == ScaleFilter(width.value, height.value))
      && (format in VideoContainers ==> |r| >= 7 && r[|r| - 5..|r| - 1] == CodecArgs(format))
      && (format == "gif" ==> r[2..|r| - 1] == ["-vf", GifFilter(GifWidth(width)), "-loop", "0"])
  {
    var input, output := InputName(id, fileName), OutputName(id, format);
    var middle := FormatArgs(format, width, height, originalWidth, originalHeight);
    var r := BuildCommand(format, width, height, originalWidth, originalHeight, id, fileName);
    assert r == ["-i", input] + middle + [output];
    assert r[2..|r| - 1] == middle;
    FramedMembership(input, middle, output);
    if format in VideoContainers {
      assert r[|r| - 5..|r| - 1] == middle[|middle| - 4..];
    }
  }

  /** Which words occur in a framed command. */
  lemma FramedMembership(input: string, middle: seq<string>, output: string)
    requires |input| > 0 && input[0] == 'i' && |output| > 0 && output[0] == 'o'
    ensures "-vf" in ["-i", input] + middle + [output] <==> "-vf" in middle
    ensures "-vn" in middle ==> "-vn" in ["-i", input] + middle + [output]
  {
    var r := ["-i", input] + middle + [output];
    if "-vf" in r {
      var k :| 0 <= k < |r| && r[k] == "-vf";
      assert 2 <= k < |r| - 1 && r[k] == middle[k - 2];
    }
    if "-vf" in middle {
      var k :| 0 <= k < |middle| && middle[k] == "-vf";
      assert r[k + 2] == "-vf";
    }
    if "-vn" in middle {
      var k :| 0 <= k < |middle| && middle[k] == "-vn";
      assert r[k + 2] == "-vn";
    }
  }

  /** Audio targets ignore every dimension field of the item. */
  lemma AudioIgnoresDimensions(format: string, w1: Option<int>, h1: Option<int>,
                               ow1: Option<int>, oh1: Option<int>,
                               w2: Option<int>, h2: Option<int>,
                               ow2: Option<int>, oh2: Option<int>, id: string, fileName: string)
    requires format in AudioTargets || format == "aac"
    ensures BuildCommand(format, w1, h1, ow1, oh1, id, fileName)
         == BuildCommand(format, w2, h2, ow2, oh2, id, fileName)
  {
    var m1, m2 := FormatArgs(format, w1, h1, ow1, oh1), FormatArgs(format, w2, h2, ow2, oh2);
    assert m1 == m2 by {
      if format == "aac" {
        assert "aac" !in KnownTargets;
      }
    }
  }

  /** An item left at its original size never gets a resize filter, whatever the target. */
  lemma NoOpScaleAvoided(format: string, width: Option<int>, height: Option<int>, id: string, fileName: string)
    requires format != "gif"
    ensures "-vf" !in BuildCommand(format, width, height, width, height, id, fileName)
  {
    CommandShape(format, width, height, width, height, id, fileName);
  }

  /** Reads back the size a `scale=W:H` filter asks for. */
  function ParseScale(filter: string): Option<(int, int)> {
    if !(|filter| >= 6 && filter[..6] == "scale=") then None
    else
      var parts := Split(filter[6..], ':');
      if |parts| != 2 then None
      else match (ParseInt(parts[0]), ParseInt(parts[1]))
        case (Some(w), Some(h)) => Some((w, h))
        case _ => None
  }

  /** The resize filter states the requested size unambiguously. */
  lemma ScaleFilterRoundTrip(width: int, height: int)
    ensures ParseScale(ScaleFilter(width, height)) == Some((width, height))
  {
    var ws, hs := IntToString(width), IntToString(height);
    var filter := ScaleFilter(width, height);
    assert filter[..6] == "scale=";
    assert filter[6..] == Join([ws, hs], ':');
    IntToStringChars(width, ':');
    IntToStringChars(height, ':');
    SplitJoin([ws, hs], ':');
    ParseIntToString(width);
    ParseIntToString(height);
  }

  /** Names scoped by distinct dot-free ids never collide in the shared file system. */
  lemma ScopedNamesDistinct(id1: string, id2: string, name1: string, name2: string,
                            format1: string, format2: string)
    requires '.' !in id1 && '.' !in id2 && id1 != id2
    ensures InputName(id1, name1) != InputName(id2, name2)
    ensures OutputName(id1, format1) != OutputName(id2, format2)
    ensures InputName(id1, name1) != OutputName(id2, format2)
  {
    FirstSegmentBeforeSep("input_" + id1, LastSegment(name1, '.'), '.');
    FirstSegmentBeforeSep("input_" + id2, LastSegment(name2, '.'), '.');
    FirstSegmentBeforeSep("output_" + id1, format1, '.');
    FirstSegmentBeforeSep("output_" + id2, format2, '.');
    assert ("input_" + id1)[6..] == id1;
    assert ("output_" + id1)[7..] == id1;
    assert ("input_" + id1)[0] != ("output_" + id2)[0];
  }
}
