/**
 * Converting queued items: `convertFile` drives one item from converting
 * to complete or error, and `convertAll` converts the pending and failed
 * items of a snapshot strictly one after another.
 */
module Conversion {
  import opened Wrappers
  import opened Media
  import opened Registry
  import opened Classifier
  import opened Queue
  import opened Backends

  /** An object URL handed out by `URL.createObjectURL`; never empty. */
  type ObjectUrl = s: string | s != "" witness "blob:"

  /** Everything the browser contributes to one conversion attempt. */
  datatype Platform = Platform(image: ImagePlatform, media: MediaPlatform, url: ObjectUrl)

  /** The result of one attempt: a blob, or a thrown value and the progress last shown. */
  datatype Outcome = Converted(blob: Blob) | Failed(error: Thrown, progress: Percent)

  /** The simulated progress of a raster conversion, shown before it starts. */
  const ImageProgressSteps: seq<int> := [0, 30, 60, 90]

  /** Routing uses the declared type, not the effective one. */
  predicate RoutesToImage(f: Item) {
    GetFileCategory(f.file.mimeType) == Image
  }

  /** A raster attempt: a failure is shown at 90%, the last simulated step. */
  function ImageOutcome(f: Item, p: ImagePlatform): (r: Outcome)
    ensures r.Converted? <==> ConvertImage(f, p).Success?
    ensures r.Converted? ==> r.blob == ConvertImage(f, p).value
    ensures r.Failed? ==> r.progress == 90 && r.error == ConvertImage(f, p).error
  {
    match ConvertImage(f, p)
    case Success(blob) => Converted(blob)
    case Failure(t) => Failed(t, 90)
  }

  /** A transcode attempt: a failure is shown at the last percentage the engine reported, or 0. */
  function MediaOutcome(f: Item, engine: Engine, p: MediaPlatform): (r: (Outcome, Engine))
    ensures r.1 == ConvertMedia(f, engine, p).1
    ensures r.0.Converted? <==> ConvertMedia(f, engine, p).0.Success?
    ensures r.0.Converted? ==> r.0.blob == ConvertMedia(f, engine, p).0.value
    ensures r.0.Failed? ==>
      r.0.progress == p.lastProgress.GetOr(0) && r.0.error == ConvertMedia(f, engine, p).0.error
  {
    var (result, after) := ConvertMedia(f, engine, p);
    match result
    case Success(blob) => (Converted(blob), after)
    case Failure(t) => (Failed(t, p.lastProgress.GetOr(0)), after)
  }

  /**
   * One attempt: a declared image goes to the raster backend and leaves the
   * engine alone; anything else goes to the transcoder. A converted blob
   * carries the output type chosen by the declared category.
   */
  function Attempt(f: Item, engine: Engine, p: Platform): (r: (Outcome, Engine))
    ensures RoutesToImage(f) ==> r == (ImageOutcome(f, p.image), engine)
    ensures !RoutesToImage(f) ==> r == MediaOutcome(f, engine, p.media)
    ensures r.0.Converted? && !RoutesToImage(f) ==> r.0.blob.mimeType == MediaOutputMime(f.outputFormat)
    ensures r.0.Converted? && RoutesToImage(f) && CanvasEncodes(p.image) ==>
      r.0.blob.mimeType in {ImageOutputMime(f.outputFormat), PngMime}
  {
    if RoutesToImage(f) then (ImageOutcome(f, p.image), engine)
    else MediaOutcome(f, engine, p.media)
  }

  /**
   * A valid item whose declared type is registered converts to a blob whose
   * type is registered again, so the result can be queued once more.
   */
  lemma ConvertedOutputRegistered(f: Item, engine: Engine, p: Platform)
    requires Valid(f) && f.file.mimeType in ConversionFormats && CanvasEncodes(p.image)
    requires Attempt(f, engine, p).0.Converted?
    ensures Attempt(f, engine, p).0.blob.mimeType in ConversionFormats
  {
    var mime, o := f.file.mimeType, Attempt(f, engine, p).0;
    assert mime != "" by {
      EmptyTypeUnregistered();
    }
    assert f.outputFormat in Formats(mime);
    OutputsAreRegistered(mime, f.outputFormat);
    if RoutesToImage(f) {
      assert o.blob.mimeType in {ImageOutputMime(f.outputFormat), PngMime};
      assert PngMime in ConversionFormats;
    } else {
      assert o.blob.mimeType == MediaOutputMime(f.outputFormat);
    }
  }

  /**
   * A `.HEIC` photo with no declared type is queued with the raster default
   * `jpg`, yet is routed to the transcoder, whose table has no `jpg`: if that
   * attempt converts, the blob has the generic binary type, which the
   * registry does not accept.
   */
  lemma UntypedHeicTranscoded(s: Submission, stem: string, engine: Engine, p: Platform)
    requires s.file.name == stem + ".HEIC" && s.file.mimeType == ""
    ensures Accepts(s.file)
    ensures var f := NewItem(s);
      && f.outputFormat == "jpg" && !RoutesToImage(f)
      && (Attempt(f, engine, p).0.Converted? ==>
            Attempt(f, engine, p).0.blob.mimeType == GenericBinary
            && GenericBinary !in ConversionFormats)
  {
    UntypedHeicPhoto(s.file, stem);
    var f := NewItem(s);
    assert f.outputFormat == Formats("image/heic")[0] == "jpg";
    TranscodedJpg(f, engine, p);
  }

  /** The transcoder has no MIME type for `jpg`, so a transcoded `jpg` is generic binary. */
  lemma TranscodedJpg(f: Item, engine: Engine, p: Platform)
    requires !RoutesToImage(f) && f.outputFormat == "jpg"
    ensures Attempt(f, engine, p).0.Converted? ==>
      Attempt(f, engine, p).0.blob.mimeType == GenericBinary && GenericBinary !in ConversionFormats
  {
    assert MediaOutputMime("jpg") == GenericBinary by {
      assert "jpg" !in MediaMimeTypes;
    }
    GenericBinaryUnregistered();
  }

  /**
   * The item after an attempt: complete at 100% with its blob and URL, or
   * failed with the thrown value's message at the progress last shown. The
   * identity, the file and the settings are kept.
   */
  function Settle(f: Item, o: Outcome, url: ObjectUrl): (r: Item)
    ensures r.status == (if o.Converted? then Complete else Error)
    ensures o.Converted? ==>
      r.progress == 100 && r.convertedBlob == Some(o.blob) && r.convertedUrl == url
      && r.errorMessage == f.errorMessage
    ensures o.Failed? ==>
      r.progress == o.progress && r.errorMessage == Message(o.error)
      && r.convertedBlob == f.convertedBlob && r.convertedUrl == f.convertedUrl
    ensures r.id == f.id && r.file == f.file && r.outputFormat == f.outputFormat
    ensures r.width == f.width && r.height == f.height && r.maintainAspectRatio == f.maintainAspectRatio
    ensures r == f.(status := r.status, progress := r.progress, convertedBlob := r.convertedBlob,
                    convertedUrl := r.convertedUrl, errorMessage := r.errorMessage)
  {
    match o
    case Converted(blob) =>
      f.(status := Complete, progress := 100, convertedBlob := Some(blob), convertedUrl := url)
    case Failed(t, shown) =>
      f.(status := Error, progress := shown, errorMessage := Message(t))
  }

  /** Settling keeps a valid item valid unless it was already complete. */
  lemma SettleKeepsValid(f: Item, o: Outcome, url: ObjectUrl)
    requires Valid(f) && f.status != Complete
    ensures Valid(Settle(f, o, url))
    ensures Settle(f, o, url).status == (if o.Converted? then Complete else Error)
  {
  }

  const StartPatch: Patch := NoChange.(status := Some(Converting), progress := Some(0))

  function ProgressPatch(percent: int): Patch {
    NoChange.(progress := Some(percent))
  }

  function CompletePatch(blob: Blob, url: ObjectUrl): Patch {
    NoChange.(status := Some(Complete), progress := Some(100),
              convertedBlob := Some(Some(blob)), convertedUrl := Some(url))
  }

  function ErrorPatch(t: Thrown): Patch {
    NoChange.(status := Some(Error), errorMessage := Some(Message(t)))
  }

  /** The first update of `convertFile`: the item is converting at 0%. */
  function BeginConversion(q: seq<Item>, id: string): (r: seq<Item>)
    ensures |r| == |q| && Ids(r) == Ids(q)
    ensures forall i :: 0 <= i < |q| && q[i].id == id ==> r[i].status == Converting && r[i].progress == 0
    ensures forall i :: 0 <= i < |q| && q[i].id == id ==> r[i] == q[i].(status := Converting, progress := 0)
    ensures forall i :: 0 <= i < |q| && q[i].id != id ==> r[i] == q[i]
  {
    UpdateFile(q, id, StartPatch)
  }

  /** Progress updates applied in order: the last one shows. */
  function ShowProgress(q: seq<Item>, id: string, steps: seq<int>): (r: seq<Item>)
    ensures |r| == |q| && Ids(r) == Ids(q)
    ensures forall i :: 0 <= i < |q| && q[i].id != id ==> r[i] == q[i]
    ensures forall i :: 0 <= i < |q| && q[i].id == id ==>
      r[i] == (if |steps| == 0 then q[i] else q[i].(progress := steps[|steps| - 1]))
    decreases |steps|
  {
    if |steps| == 0 then q
    else ShowProgress(UpdateFile(q, id, ProgressPatch(steps[0])), id, steps[1..])
  }

  /** Starting a conversion does not show once the item has settled. */
  lemma SettleAfterStart(f: Item, shown: int, o: Outcome, url: ObjectUrl)
    ensures Settle(f.(status := Converting, progress := shown), o, url) == Settle(f, o, url)
  {
  }

  /** The raster path of `convertFile` once the item is converting: simulated progress, then the outcome. */
  function ImageUpdates(q: seq<Item>, f: Item, p: Platform): (r: seq<Item>)
    ensures |r| == |q| && Ids(r) == Ids(q)
    ensures forall i :: 0 <= i < |q| && q[i].id != f.id ==> r[i] == q[i]
    ensures forall i :: 0 <= i < |q| && q[i].id == f.id ==>
      r[i] == Settle(q[i], ImageOutcome(f, p.image), p.url)
  {
    var stepped := ShowProgress(q, f.id, ImageProgressSteps);
    match ConvertImage(f, p.image)
    case Success(blob) =>
      UpdateFile(UpdateFile(stepped, f.id, ProgressPatch(100)), f.id, CompletePatch(blob, p.url))
    case Failure(t) =>
      UpdateFile(stepped, f.id, ErrorPatch(t))
  }

  /** The transcode path of `convertFile` once the item is converting: reported progress, then the outcome. */
  function MediaUpdates(q: seq<Item>, f: Item, engine: Engine, p: Platform): (r: seq<Item>)
    requires forall i :: 0 <= i < |q| && q[i].id == f.id ==> q[i].progress == 0
    ensures |r| == |q| && Ids(r) == Ids(q)
    ensures forall i :: 0 <= i < |q| && q[i].id != f.id ==> r[i] == q[i]
    ensures forall i :: 0 <= i < |q| && q[i].id == f.id ==>
      r[i] == Settle(q[i], MediaOutcome(f, engine, p.media).0, p.url)
  {
    var o := MediaOutcome(f, engine, p.media).0;
    var reported := match p.media.lastProgress
      case Some(percent) => UpdateFile(q, f.id, ProgressPatch(percent))
      case None => q;
    var r := UpdateFile(reported, f.id, OutcomePatch(o, p.url));
    assert forall i :: 0 <= i < |q| && q[i].id == f.id ==> r[i] == Settle(q[i], o, p.url) by {
      forall i | 0 <= i < |q| && q[i].id == f.id ensures r[i] == Settle(q[i], o, p.url) {
        assert Ids(reported)[i] == Ids(q)[i];
        MediaSettle(q[i], reported[i], p.media.lastProgress, o, p.url);
      }
    }
    r
  }

  /** The final update of an attempt: the complete patch or the error patch. */
  function OutcomePatch(o: Outcome, url: ObjectUrl): Patch {
    match o
    case Converted(blob) => CompletePatch(blob, url)
    case Failed(t, _) => ErrorPatch(t)
  }

  /** The reported progress, then the outcome's patch, settle an item that started at 0%. */
  lemma MediaSettle(x: Item, y: Item, last: Option<Percent>, o: Outcome, url: ObjectUrl)
    requires x.progress == 0 && (o.Failed? ==> o.progress == last.GetOr(0))
    requires y == if last.Some? then Apply(x, ProgressPatch(last.value)) else x
    ensures Apply(y, OutcomePatch(o, url)) == Settle(x, o, url)
  {
  }

  /**
   * `convertFile`: the sequence of updates the page makes for one item.
   * Every item with that id ends settled by the attempt's outcome; every
   * other item is untouched.
   */
  function ConvertFile(q: seq<Item>, f: Item, engine: Engine, p: Platform): (r: (seq<Item>, Engine))
    ensures |r.0| == |q| && Ids(r.0) == Ids(q)
    ensures forall i :: 0 <= i < |q| && q[i].id != f.id ==> r.0[i] == q[i]
    ensures forall i :: 0 <= i < |q| && q[i].id == f.id ==>
      r.0[i] == Settle(q[i], Attempt(f, engine, p).0, p.url)
    ensures r.1 == Attempt(f, engine, p).1
  {
    var started := BeginConversion(q, f.id);
    if RoutesToImage(f) then
      var r := ImageUpdates(started, f, p);
      assert forall i :: 0 <= i < |q| && q[i].id == f.id ==> r[i] == Settle(q[i], Attempt(f, engine, p).0, p.url) by {
        forall i | 0 <= i < |q| && q[i].id == f.id
          ensures r[i] == Settle(q[i], Attempt(f, engine, p).0, p.url)
        {
          SettleAfterStart(q[i], 0, ImageOutcome(f, p.image), p.url);
        }
      }
      (r, engine)
    else
      var r := MediaUpdates(started, f, engine, p);
      assert forall i :: 0 <= i < |q| && q[i].id == f.id ==> r[i] == Settle(q[i], Attempt(f, engine, p).0, p.url) by {
        forall i | 0 <= i < |q| && q[i].id == f.id
          ensures r[i] == Settle(q[i], Attempt(f, engine, p).0, p.url)
        {
          SettleAfterStart(q[i], 0, MediaOutcome(f, engine, p.media).0, p.url);
        }
      }
      (r, MediaOutcome(f, engine, p.media).1)
  }

  /**
   * The lifecycle of one item: it ends complete exactly when the attempt
   * converted, then at 100% with the blob and a URL; otherwise in error with
   * the thrown value's message, a raster failure showing 90%. Its identity,
   * file and settings are untouched.
   */
  lemma ConvertFileSettles(q: seq<Item>, f: Item, engine: Engine, p: Platform, i: int)
    requires 0 <= i < |q| && q[i].id == f.id
    ensures var g, o := ConvertFile(q, f, engine, p).0[i], Attempt(f, engine, p).0;
      && g.id == q[i].id && g.file == q[i].file && g.outputFormat == q[i].outputFormat
      && g.width == q[i].width && g.height == q[i].height
      && (g.status == Complete <==> o.Converted?)
      && (g.status == Complete || g.status == Error)
      && (g.status == Complete ==>
            g.progress == 100 && g.convertedBlob == Some(o.blob) && g.convertedUrl == p.url)
      && (g.status == Error ==> g.errorMessage == Message(o.error))
      && (g.status == Error && RoutesToImage(f) ==> g.progress == 90)
      && g == q[i].(status := g.status, progress := g.progress, convertedBlob := g.convertedBlob,
                    convertedUrl := g.convertedUrl, errorMessage := g.errorMessage)
  {
  }

  /** The outcome of an attempt when the engine is, or is not, already loaded. */
  function OutcomeWith(f: Item, loaded: bool, p: Platform): Outcome {
    Attempt(f, Engine(loaded, {}), p).0
  }

  /**
   * An attempt's outcome depends on the engine only through whether it is
   * loaded; an attempt that succeeds on an unloaded engine succeeds alike
   * on a loaded one, and one that fails on a loaded engine fails on any.
   */
  lemma OutcomeDependsOnLoadOnly(f: Item, engine: Engine, p: Platform)
    ensures Attempt(f, engine, p).0 == OutcomeWith(f, engine.loaded, p)
    ensures OutcomeWith(f, false, p).Converted? ==> OutcomeWith(f, true, p) == OutcomeWith(f, false, p)
    ensures OutcomeWith(f, true, p).Failed? ==> OutcomeWith(f, false, p).Failed?
  {
    if !RoutesToImage(f) {
      MediaResultLoadOnly(f, engine, p.media);
      MediaResultLoadOnly(f, Engine(false, {}), p.media);
      MediaResultLoadOnly(f, Engine(true, {}), p.media);
    }
  }

  /** Items `convertAll` picks up: those pending or failed. */
  predicate IsSelected(f: Item) {
    f.status == Pending || f.status == Error
  }

  /** The pending and failed items of a snapshot, in queue order. */
  function Selected(q: seq<Item>): (r: seq<Item>)
    ensures |r| <= |q|
    ensures forall x :: x in r <==> x in q && IsSelected(x)
    ensures forall k :: 0 <= k < |r| ==> IsSelected(r[k])
  {
    if |q| == 0 then []
    else if IsSelected(q[0]) then [q[0]] + Selected(q[1..])
    else Selected(q[1..])
  }

  /** A single item is selected exactly when it is pending or failed. */
  lemma SelectedOne(x: Item)
    ensures Selected([x]) == (if IsSelected(x) then [x] else [])
  {
    assert [x][1..] == [];
  }

  /** Selection distributes over concatenation, so it keeps queue order. */
  lemma {:induction false} SelectedAppend(a: seq<Item>, b: seq<Item>)
    ensures Selected(a + b) == Selected(a) + Selected(b)
  {
    if |a| > 0 {
      assert (a + b)[1..] == a[1..] + b;
      SelectedAppend(a[1..], b);
    } else {
      assert a + b == b;
    }
  }

  /** Each selected item occurs in the snapshot exactly as often as in the queue. */
  lemma {:induction false} SelectedCount(q: seq<Item>, x: Item)
    ensures multiset(Selected(q))[x] == if IsSelected(x) then multiset(q)[x] else 0
  {
    if |q| > 0 {
      var t := q[1..];
      SelectedCount(t, x);
      HeadTail(q);
      CountCons(x, q[0], t);
      if IsSelected(q[0]) {
        assert Selected(q) == [q[0]] + Selected(t);
        CountCons(x, q[0], Selected(t));
      } else {
        assert Selected(q) == Selected(t);
      }
    }
  }

  /** Prepending `y` adds one occurrence of `x` exactly when `y` is `x`. */
  lemma CountCons<T>(x: T, y: T, t: seq<T>)
    ensures multiset([y] + t)[x] == (if x == y then 1 else 0) + multiset(t)[x]
  {
    assert multiset([y] + t) == multiset([y]) + multiset(t);
  }

  /** Selection keeps ids unique. */
  lemma {:induction false} SelectedUnique(q: seq<Item>)
    requires UniqueIds(q)
    ensures UniqueIds(Selected(q))
  {
    if |q| > 0 {
      var t := q[1..];
      assert UniqueIds(t) by {
        forall i, j | 0 <= i < |t| && 0 <= j < |t| && t[i].id == t[j].id ensures i == j {
          assert q[i + 1].id == q[j + 1].id;
        }
      }
      SelectedUnique(t);
      if IsSelected(q[0]) {
        var s := Selected(q);
        assert s == [q[0]] + Selected(t);
        forall x | x in Selected(t) ensures x.id != q[0].id {
          var m :| 0 <= m < |t| && t[m] == x;
          assert q[m + 1] == x;
        }
        forall i, j | 0 <= i < |s| && 0 <= j < |s| && s[i].id == s[j].id ensures i == j {
          if i > 0 && j > 0 {
            assert Selected(t)[i - 1].id == Selected(t)[j - 1].id;
          }
        }
      }
    }
  }

  /** With unique ids, the item carrying a selected item's id is that item. */
  lemma SelectedOwnsId(q: seq<Item>, i: int, x: Item)
    requires UniqueIds(q) && 0 <= i < |q| && x in Selected(q) && q[i].id == x.id
    ensures q[i] == x
  {
    var j :| 0 <= j < |q| && q[j] == x;
  }

  /** With unique ids, an item's id is selected exactly when the item is. */
  lemma SelectedIdsExact(q: seq<Item>, i: int)
    requires UniqueIds(q) && 0 <= i < |q|
    ensures q[i].id in Ids(Selected(q)) <==> IsSelected(q[i])
  {
    var s := Selected(q);
    if q[i].id in Ids(s) {
      var k :| 0 <= k < |s| && Ids(s)[k] == q[i].id;
      SelectedOwnsId(q, i, s[k]);
    }
    if IsSelected(q[i]) {
      assert q[i] in s;
      var k :| 0 <= k < |s| && s[k] == q[i];
      assert Ids(s)[k] == q[i].id;
    }
  }

  /** With unique ids, the selected ids are those of the pending and failed items. */
  lemma SelectedIdsCover(q: seq<Item>)
    requires UniqueIds(q)
    ensures forall i :: 0 <= i < |q| && IsSelected(q[i]) ==> q[i].id in Ids(Selected(q))
    ensures forall i :: 0 <= i < |q| && q[i].status == Complete ==> q[i].id !in Ids(Selected(q))
  {
    forall i | 0 <= i < |q| ensures q[i].id in Ids(Selected(q)) <==> IsSelected(q[i]) {
      SelectedIdsExact(q, i);
    }
  }

  /** The prefix of full length is the whole sequence. */
  lemma Whole<T>(s: seq<T>)
    ensures s[..|s|] == s
  {
  }

  /** Observable steps of `convertAll`: an item starts converting, then settles. */
  datatype Event = Began(id: string) | Ended(id: string, status: Status)

  /** Items whose id has not been converted yet are as in the snapshot. */
  ghost predicate Untouched(q: seq<Item>, r: seq<Item>, done: seq<string>) {
    |r| == |q| && forall i :: 0 <= i < |q| && q[i].id !in done ==> r[i] == q[i]
  }

  /** Items whose id has been converted are complete or failed. */
  ghost predicate Finished(q: seq<Item>, r: seq<Item>, done: seq<string>) {
    |r| == |q| && forall i :: 0 <= i < |q| && q[i].id in done ==> r[i].status == Complete || r[i].status == Error
  }

  /**
   * With unique ids, each converted item reflects its own attempt: it is
   * settled by that attempt on a loaded or an unloaded engine, completes as
   * on an unloaded engine when that succeeds, and fails when even a loaded
   * engine fails.
   */
  ghost predicate Isolated(q: seq<Item>, r: seq<Item>, done: seq<string>, env: Item -> Platform) {
    |r| == |q| &&
    (UniqueIds(q) ==> forall i :: 0 <= i < |q| && q[i].id in done ==>
      && (|| r[i] == Settle(q[i], OutcomeWith(q[i], false, env(q[i])), env(q[i]).url)
          || r[i] == Settle(q[i], OutcomeWith(q[i], true, env(q[i])), env(q[i]).url))
      && (OutcomeWith(q[i], false, env(q[i])).Converted? ==>
            r[i] == Settle(q[i], OutcomeWith(q[i], false, env(q[i])), env(q[i]).url))
      && (OutcomeWith(q[i], true, env(q[i])).Failed? ==> r[i].status == Error))
  }

  /** The log of the first `k` conversions: begin, then settle, item by item. */
  ghost predicate Sequential(log: seq<Event>, sel: seq<Item>, k: int)
    requires 0 <= k <= |sel|
  {
    && |log| == 2 * k
    && forall j :: 0 <= j < k ==>
      && log[2 * j] == Began(sel[j].id)
      && log[2 * j + 1].Ended? && log[2 * j + 1].id == sel[j].id
      && log[2 * j + 1].status in {Complete, Error}
  }

  /** Logging one more conversion extends the log of the earlier ones. */
  lemma SequentialStep(log: seq<Event>, sel: seq<Item>, k: int, status: Status)
    requires 0 <= k < |sel| && Sequential(log, sel, k) && status in {Complete, Error}
    ensures Sequential(log + [Began(sel[k].id), Ended(sel[k].id, status)], sel, k + 1)
  {
    var next := log + [Began(sel[k].id), Ended(sel[k].id, status)];
    forall j | 0 <= j < k + 1
      ensures next[2 * j] == Began(sel[j].id)
      ensures next[2 * j + 1].Ended? && next[2 * j + 1].id == sel[j].id
      ensures next[2 * j + 1].status in {Complete, Error}
    {
      if j < k {
        assert next[2 * j] == log[2 * j] && next[2 * j + 1] == log[2 * j + 1];
      }
    }
  }

  /**
   * With unique ids, the status logged when the `j`-th selected item settled
   * is the status its item holds now.
   */
  ghost predicate Logged(q: seq<Item>, r: seq<Item>, log: seq<Event>, k: int) {
    UniqueIds(q) ==> forall j, i :: 0 <= j < k && 0 <= j < |Selected(q)| && 0 <= i < |q| && q[i].id == Selected(q)[j].id ==>
      2 * j + 1 < |log| && i < |r| && log[2 * j + 1].Ended? && log[2 * j + 1].status == r[i].status
  }

  /** Once every selected item is logged, each logged status is its item's final status. */
  lemma LoggedDone(q: seq<Item>, r: seq<Item>, log: seq<Event>)
    requires Logged(q, r, log, |Selected(q)|)
    ensures UniqueIds(q) ==> forall k, i :: 0 <= k < |Selected(q)| && 0 <= i < |q| && q[i].id == Selected(q)[k].id ==>
      2 * k + 1 < |log| && i < |r| && log[2 * k + 1].status == r[i].status
  {
    var sel := Selected(q);
    var n := |sel|;
    if UniqueIds(q) {
      forall k, i | 0 <= k < n && 0 <= i < |q| && q[i].id == sel[k].id
        ensures 2 * k + 1 < |log| && i < |r| && log[2 * k + 1].status == r[i].status
      {
        assert 0 <= k < n && 0 <= k < |Selected(q)| && 0 <= i < |q| && q[i].id == Selected(q)[k].id;
      }
    }
  }

  /** Settling the next selected item and logging its status keeps the log in step with the queue. */
  lemma LoggedStep(q: seq<Item>, k: int, r: seq<Item>, next: seq<Item>, log: seq<Event>, status: Status)
    requires 0 <= k < |Selected(q)| && |log| == 2 * k && |r| == |q| && |next| == |q|
    requires Ids(r) == Ids(q)
    requires Logged(q, r, log, k)
    requires forall i :: 0 <= i < |q| && r[i].id != Selected(q)[k].id ==> next[i] == r[i]
    requires forall i :: 0 <= i < |q| && r[i].id == Selected(q)[k].id ==> next[i].status == status
    ensures Logged(q, next, log + [Began(Selected(q)[k].id), Ended(Selected(q)[k].id, status)], k + 1)
  {
    var sel := Selected(q);
    var log2 := log + [Began(sel[k].id), Ended(sel[k].id, status)];
    if UniqueIds(q) {
      NextIdFresh(q, k);
      forall j, i | 0 <= j < k + 1 && 0 <= j < |sel| && 0 <= i < |q| && q[i].id == sel[j].id
        ensures 2 * j + 1 < |log2| && i < |next| && log2[2 * j + 1].Ended? && log2[2 * j + 1].status == next[i].status
      {
        assert r[i].id == q[i].id by { assert Ids(r)[i] == Ids(q)[i]; }
        if j < k {
          assert Ids(sel[..k])[j] == sel[j].id;
          assert next[i] == r[i];
          assert log2[2 * j + 1] == log[2 * j + 1];
        }
      }
    }
  }

  /** The ids of a prefix of a sequence grow one id at a time. */
  lemma IdsSnoc(s: seq<Item>, k: int)
    requires 0 <= k < |s|
    ensures Ids(s[..k + 1]) == Ids(s[..k]) + [s[k].id]
  {
    assert s[..k + 1] == s[..k] + [s[k]];
  }

  /** With unique ids, the next selected item's id has not been converted yet. */
  lemma NextIdFresh(q: seq<Item>, k: int)
    requires UniqueIds(q) && 0 <= k < |Selected(q)|
    ensures Selected(q)[k].id !in Ids(Selected(q)[..k])
  {
    SelectedUnique(q);
  }

  /** Settling one id leaves the other ids as they were and finishes that one. */
  lemma FrameStep(q: seq<Item>, r: seq<Item>, next: seq<Item>, done: seq<string>, id: string)
    requires |r| == |q| && |next| == |q|
    requires forall i :: 0 <= i < |q| ==> r[i].id == q[i].id
    requires Untouched(q, r, done) && Finished(q, r, done)
    requires forall i :: 0 <= i < |q| && r[i].id != id ==> next[i] == r[i]
    requires forall i :: 0 <= i < |q| && r[i].id == id ==>
      next[i].status == Complete || next[i].status == Error
    ensures Untouched(q, next, done + [id]) && Finished(q, next, done + [id])
  {
  }

  /** Settling a fresh selected id by its own attempt keeps every converted item isolated. */
  lemma IsolatedStep(q: seq<Item>, r: seq<Item>, next: seq<Item>, done: seq<string>,
                     f: Item, e: Engine, env: Item -> Platform)
    requires forall i :: 0 <= i < |q| && q[i].id == f.id ==> q[i] == f
    requires UniqueIds(q) && f.id !in done
    requires |r| == |q| && |next| == |q|
    requires Isolated(q, r, done, env)
    requires forall i :: 0 <= i < |q| && q[i].id != f.id ==> next[i] == r[i]
    requires forall i :: 0 <= i < |q| && q[i].id == f.id ==>
      next[i] == Settle(f, Attempt(f, e, env(f)).0, env(f).url)
    ensures Isolated(q, next, done + [f.id], env)
  {
    OutcomeDependsOnLoadOnly(f, e, env(f));
  }

  /** Settling a selected item keeps a valid queue valid. */
  lemma ValidStep(q: seq<Item>, r: seq<Item>, next: seq<Item>, f: Item, o: Outcome, url: ObjectUrl)
    requires forall i :: 0 <= i < |q| && q[i].id == f.id ==> q[i] == f
    requires AllValid(q) && AllValid(r) && IsSelected(f)
    requires |r| == |q| && |next| == |q|
    requires forall i :: 0 <= i < |q| && q[i].id != f.id ==> next[i] == r[i]
    requires forall i :: 0 <= i < |q| && q[i].id == f.id ==> next[i] == Settle(f, o, url)
    ensures AllValid(next)
  {
    forall i | 0 <= i < |q| ensures Valid(next[i]) {
      if q[i].id == f.id {
        assert q[i] == f;
        SettleKeepsValid(f, o, url);
      }
    }
  }

  /** Converting the next selected item extends every loop fact to its id. */
  lemma ConvertStep(q: seq<Item>, k: int, r: seq<Item>, e: Engine, env: Item -> Platform)
    requires 0 <= k < |Selected(q)|
    requires Ids(r) == Ids(q)
    requires Untouched(q, r, Ids(Selected(q)[..k]))
    requires Finished(q, r, Ids(Selected(q)[..k]))
    requires Isolated(q, r, Ids(Selected(q)[..k]), env)
    requires UniqueIds(q) && AllValid(q) ==> AllValid(r)
    ensures var f := Selected(q)[k];
      var next := ConvertFile(r, f, e, env(f)).0;
      var done := Ids(Selected(q)[..k + 1]);
      && Ids(next) == Ids(q)
      && Untouched(q, next, done) && Finished(q, next, done) && Isolated(q, next, done, env)
      && (UniqueIds(q) && AllValid(q) ==> AllValid(next))
  {
    var sel := Selected(q);
    IdsSnoc(sel, k);
    FramedStep(q, k, r, e, env);
    OwnStep(q, k, r, e, env);
  }

  /** The frame half of a step: ids kept, others untouched, the converted id finished. */
  lemma FramedStep(q: seq<Item>, k: int, r: seq<Item>, e: Engine, env: Item -> Platform)
    requires 0 <= k < |Selected(q)|
    requires Ids(r) == Ids(q)
    requires Untouched(q, r, Ids(Selected(q)[..k]))
    requires Finished(q, r, Ids(Selected(q)[..k]))
    ensures var f := Selected(q)[k];
      var next := ConvertFile(r, f, e, env(f)).0;
      && Ids(next) == Ids(q)
      && Untouched(q, next, Ids(Selected(q)[..k]) + [f.id])
      && Finished(q, next, Ids(Selected(q)[..k]) + [f.id])
  {
    var f := Selected(q)[k];
    var next := ConvertFile(r, f, e, env(f)).0;
    assert forall i :: 0 <= i < |q| ==> r[i].id == q[i].id by {
      forall i | 0 <= i < |q| ensures r[i].id == q[i].id {
        assert Ids(r)[i] == Ids(q)[i];
      }
    }
    assert forall i :: 0 <= i < |q| && r[i].id == f.id ==> next[i].status == Complete || next[i].status == Error by {
      forall i | 0 <= i < |q| && r[i].id == f.id ensures next[i].status == Complete || next[i].status == Error {
        var o := Attempt(f, e, env(f)).0;
        assert next[i] == Settle(r[i], o, env(f).url);
      }
    }
    FrameStep(q, r, next, Ids(Selected(q)[..k]), f.id);
  }

  /** The per-item half of a step: the converted item reflects its own attempt and stays valid. */
  lemma OwnStep(q: seq<Item>, k: int, r: seq<Item>, e: Engine, env: Item -> Platform)
    requires 0 <= k < |Selected(q)|
    requires Ids(r) == Ids(q)
    requires Untouched(q, r, Ids(Selected(q)[..k]))
    requires Isolated(q, r, Ids(Selected(q)[..k]), env)
    requires UniqueIds(q) && AllValid(q) ==> AllValid(r)
    ensures var f := Selected(q)[k];
      var next := ConvertFile(r, f, e, env(f)).0;
      && Isolated(q, next, Ids(Selected(q)[..k]) + [f.id], env)
      && (UniqueIds(q) && AllValid(q) ==> AllValid(next))
  {
    var sel := Selected(q);
    var f := sel[k];
    var p := env(f);
    var next := ConvertFile(r, f, e, p).0;
    var done := Ids(sel[..k]);
    assert f in sel;
    if UniqueIds(q) {
      NextIdFresh(q, k);
      forall i | 0 <= i < |q| && q[i].id == f.id ensures q[i] == f {
        SelectedOwnsId(q, i, f);
      }
      IsolatedStep(q, r, next, done, f, e, env);
      if AllValid(q) {
        ValidStep(q, r, next, f, Attempt(f, e, p).0, p.url);
      }
    }
  }


  /**
   * `convertAll`: take the pending and failed items of the snapshot, in
   * queue order, and convert them one at a time, each settling before the
   * next begins. Every selected id ends complete or error whatever happened
   * to the others; unselected ids are untouched. The engine's file system
   * never grows because the transcode here removes its scratch files on
   * every path; the transcode as the page writes it leaves the input behind
   * when the run fails (`Backends.FailedRunLeaksInput`). With unique ids,
   * each selected item is settled by its own attempt on a loaded or an
   * unloaded engine: an item that would convert even on an unloaded engine
   * completes with that outcome, an item that fails even on a loaded one
   * ends in error, complete items are unchanged, validity is kept, and the
   * status logged for each item is the status it ends with.
   */
  method ConvertAll(q: seq<Item>, engine: Engine, env: Item -> Platform)
    returns (r: seq<Item>, e: Engine, log: seq<Event>)
    ensures |r| == |q| && Ids(r) == Ids(q)
    ensures forall i :: 0 <= i < |q| && q[i].id !in Ids(Selected(q)) ==> r[i] == q[i]
    ensures forall i :: 0 <= i < |q| && q[i].id in Ids(Selected(q)) ==>
      r[i].status == Complete || r[i].status == Error
    ensures |log| == 2 * |Selected(q)|
    ensures forall k :: 0 <= k < |Selected(q)| ==>
      && log[2 * k] == Began(Selected(q)[k].id)
      && log[2 * k + 1].Ended? && log[2 * k + 1].id == Selected(q)[k].id
      && log[2 * k + 1].status in {Complete, Error}
    ensures UniqueIds(q) ==> forall k, i :: 0 <= k < |Selected(q)| && 0 <= i < |q| && q[i].id == Selected(q)[k].id ==>
      log[2 * k + 1].status == r[i].status
    ensures e.files <= engine.files
    ensures UniqueIds(q) ==> forall i :: 0 <= i < |q| && IsSelected(q[i]) ==>
      && (|| r[i] == Settle(q[i], OutcomeWith(q[i], false, env(q[i])), env(q[i]).url)
          || r[i] == Settle(q[i], OutcomeWith(q[i], true, env(q[i])), env(q[i]).url))
      && (OutcomeWith(q[i], false, env(q[i])).Converted? ==>
            r[i] == Settle(q[i], OutcomeWith(q[i], false, env(q[i])), env(q[i]).url))
      && (OutcomeWith(q[i], true, env(q[i])).Failed? ==> r[i].status == Error)
    ensures UniqueIds(q) ==> forall i :: 0 <= i < |q| && q[i].status == Complete ==> r[i] == q[i]
    ensures UniqueIds(q) && AllValid(q) ==> AllValid(r)
  {
    var sel := Selected(q);
    r, e, log := q, engine, [];
    var k := 0;
    while k < |sel|
      invariant LoopInv(q, engine, env, k, r, e, log)
      decreases |sel| - k
    {
      r, e, log := ConvertNext(q, engine, env, k, r, e, log);
      k := k + 1;
    }
    Whole(sel);
    LoggedDone(q, r, log);
    if UniqueIds(q) {
      SelectedIdsCover(q);
    }
  }

  /** What holds after `convertAll` has converted the first `k` selected items. */
  ghost predicate LoopInv(q: seq<Item>, engine: Engine, env: Item -> Platform,
                          k: int, r: seq<Item>, e: Engine, log: seq<Event>) {
    && 0 <= k <= |Selected(q)|
    && Ids(r) == Ids(q)
    && Untouched(q, r, Ids(Selected(q)[..k]))
    && Finished(q, r, Ids(Selected(q)[..k]))
    && Isolated(q, r, Ids(Selected(q)[..k]), env)
    && e.files <= engine.files
    && Sequential(log, Selected(q), k)
    && Logged(q, r, log, k)
    && (UniqueIds(q) && AllValid(q) ==> AllValid(r))
  }

  /** One iteration of `convertAll`: convert the `k`-th selected item and log it. */
  method ConvertNext(q: seq<Item>, engine: Engine, env: Item -> Platform,
                     k: int, r: seq<Item>, e: Engine, log: seq<Event>)
    returns (r2: seq<Item>, e2: Engine, log2: seq<Event>)
    requires LoopInv(q, engine, env, k, r, e, log) && k < |Selected(q)|
    ensures LoopInv(q, engine, env, k + 1, r2, e2, log2)
  {
    var sel := Selected(q);
    var f := sel[k];
    ConvertStep(q, k, r, e, env);
    var outcome := Attempt(f, e, env(f)).0;
    var status := if outcome.Converted? then Complete else Error;
    SequentialStep(log, sel, k, status);
    var result := ConvertFile(r, f, e, env(f));
    assert forall i :: 0 <= i < |q| && r[i].id == f.id ==> result.0[i].status == status by {
      forall i | 0 <= i < |q| && r[i].id == f.id ensures result.0[i].status == status {
        assert result.0[i] == Settle(r[i], outcome, env(f).url);
      }
    }
    LoggedStep(q, k, r, result.0, log, status);
    log2 := log + [Began(f.id), Ended(f.id, status)];
    r2, e2 := result.0, result.1;
  }
}
