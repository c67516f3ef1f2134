/**
 * The conversion queue of the converter page: the item record, partial
 * updates by id, the aspect-locked dimension editor, removal, reset, the
 * submission filter and the download name.
 */
module Queue {
  import opened Wrappers
  import opened Text
  import opened Media
  import opened Registry
  import opened Classifier
  import opened Command

  /** Lifecycle of one item: pending, converting, then complete or error. */
  datatype Status = Pending | Converting | Complete | Error

  /** One queued file with its settings and conversion state. */
  datatype Item = Item(
    id: string,
    file: SourceFile,
    outputFormat: string,
    width: Option<int>,
    height: Option<int>,
    originalWidth: Option<int>,
    originalHeight: Option<int>,
    maintainAspectRatio: bool,
    status: Status,
    progress: int,
    convertedBlob: Option<Blob>,
    convertedUrl: string,
    errorMessage: string,
    showSettings: bool)

  /**
   * The state every item keeps: a blob and an object URL exactly when it is
   * complete, progress within 0..100 and at 100 once complete, and an output
   * format the registry allows for its effective type.
   */
  predicate Valid(f: Item) {
    && (f.status == Complete <==> f.convertedBlob.Some?)
    && (f.status == Complete <==> f.convertedUrl != "")
    && 0 <= f.progress <= 100
    && (f.status == Complete ==> f.progress == 100)
    && f.outputFormat in Formats(GetEffectiveMimeType(f.file))
  }

  predicate AllValid(q: seq<Item>) {
    forall i :: 0 <= i < |q| ==> Valid(q[i])
  }

  function Ids(q: seq<Item>): (r: seq<string>)
    ensures |r| == |q| && forall i :: 0 <= i < |q| ==> r[i] == q[i].id
  {
    seq(|q|, i requires 0 <= i < |q| => q[i].id)
  }

  /** No two items share an id. */
  predicate UniqueIds(q: seq<Item>) {
    forall i, j :: 0 <= i < |q| && 0 <= j < |q| && q[i].id == q[j].id ==> i == j
  }

  /** A `Partial<FileItem>`: the fields an update sets; absent fields are kept. */
  datatype Patch = Patch(
    outputFormat: Option<string>,
    width: Option<Option<int>>,
    height: Option<Option<int>>,
    maintainAspectRatio: Option<bool>,
    status: Option<Status>,
    progress: Option<int>,
    convertedBlob: Option<Option<Blob>>,
    convertedUrl: Option<string>,
    errorMessage: Option<string>,
    showSettings: Option<bool>)

  const NoChange: Patch := Patch(None, None, None, None, None, None, None, None, None, None)

  /** `{ ...f, ...patch }`: the fields the patch sets take its values; the id, file and originals never change. */
  function Apply(f: Item, p: Patch): (r: Item)
    ensures r.id == f.id && r.file == f.file
    ensures r.originalWidth == f.originalWidth && r.originalHeight == f.originalHeight
    ensures p.outputFormat.Some? ==> r.outputFormat == p.outputFormat.value
    ensures p.outputFormat.None? ==> r.outputFormat == f.outputFormat
    ensures p.width.Some? ==> r.width == p.width.value
    ensures p.width.None? ==> r.width == f.width
    ensures p.height.Some? ==> r.height == p.height.value
    ensures p.height.None? ==> r.height == f.height
    ensures p.maintainAspectRatio.Some? ==> r.maintainAspectRatio == p.maintainAspectRatio.value
    ensures p.maintainAspectRatio.None? ==> r.maintainAspectRatio == f.maintainAspectRatio
    ensures p.status.Some? ==> r.status == p.status.value
    ensures p.status.None? ==> r.status == f.status
    ensures p.progress.Some? ==> r.progress == p.progress.value
    ensures p.progress.None? ==> r.progress == f.progress
    ensures p.convertedBlob.Some? ==> r.convertedBlob == p.convertedBlob.value
    ensures p.convertedBlob.None? ==> r.convertedBlob == f.convertedBlob
    ensures p.convertedUrl.Some? ==> r.convertedUrl == p.convertedUrl.value
    ensures p.convertedUrl.None? ==> r.convertedUrl == f.convertedUrl
    ensures p.errorMessage.Some? ==> r.errorMessage == p.errorMessage.value
    ensures p.errorMessage.None? ==> r.errorMessage == f.errorMessage
    ensures p.showSettings.Some? ==> r.showSettings == p.showSettings.value
    ensures p.showSettings.None? ==> r.showSettings == f.showSettings
    ensures p == NoChange ==> r == f
  {
    f.(
      outputFormat := p.outputFormat.GetOr(f.outputFormat),
      width := p.width.GetOr(f.width),
      height := p.height.GetOr(f.height),
      maintainAspectRatio := p.maintainAspectRatio.GetOr(f.maintainAspectRatio),
      status := p.status.GetOr(f.status),
      progress := p.progress.GetOr(f.progress),
      convertedBlob := p.convertedBlob.GetOr(f.convertedBlob),
      convertedUrl := p.convertedUrl.GetOr(f.convertedUrl),
      errorMessage := p.errorMessage.GetOr(f.errorMessage),
      showSettings := p.showSettings.GetOr(f.showSettings))
  }

  /** The later of two values when it is present. */
  function Later<T>(first: Option<T>, second: Option<T>): Option<T> {
    if second.Some? then second else first
  }

  /** `{ ...p, ...q }`: the single patch with the effect of `p` then `q`. */
  function Merge(p: Patch, q: Patch): Patch {
    Patch(
      Later(p.outputFormat, q.outputFormat),
      Later(p.width, q.width),
      Later(p.height, q.height),
      Later(p.maintainAspectRatio, q.maintainAspectRatio),
      Later(p.status, q.status),
      Later(p.progress, q.progress),
      Later(p.convertedBlob, q.convertedBlob),
      Later(p.convertedUrl, q.convertedUrl),
      Later(p.errorMessage, q.errorMessage),
      Later(p.showSettings, q.showSettings))
  }

  /**
   * Spreading patches one after the other is spreading their merge; an
   * empty patch changes nothing; a patch applied twice acts once. None of
   * them touches the id, the file or the original size.
   */
  lemma ApplyLaws(f: Item, p: Patch, q: Patch)
    ensures Apply(Apply(f, p), q) == Apply(f, Merge(p, q))
    ensures Apply(f, NoChange) == f
    ensures Apply(Apply(f, p), p) == Apply(f, p)
    ensures var g := Apply(f, p);
      g.id == f.id && g.file == f.file
      && g.originalWidth == f.originalWidth && g.originalHeight == f.originalHeight
  {
  }

  /** `updateFile`: patch every item carrying `id`, keep the others. */
  function UpdateFile(q: seq<Item>, id: string, p: Patch): (r: seq<Item>)
    ensures |r| == |q| && Ids(r) == Ids(q)
    ensures forall i :: 0 <= i < |q| && q[i].id == id ==> r[i] == Apply(q[i], p)
    ensures forall i :: 0 <= i < |q| && q[i].id != id ==> r[i] == q[i]
  {
    seq(|q|, i requires 0 <= i < |q| => if q[i].id == id then Apply(q[i], p) else q[i])
  }

  /**
   * Two updates of the same id compose into one, and an update for an id
   * that is no longer queued (a late result for a removed item) is dropped.
   */
  lemma UpdateLaws(q: seq<Item>, id: string, p: Patch, p2: Patch)
    ensures UpdateFile(UpdateFile(q, id, p), id, p2) == UpdateFile(q, id, Merge(p, p2))
    ensures id !in Ids(q) ==> UpdateFile(q, id, p) == q
  {
    var a, b := UpdateFile(UpdateFile(q, id, p), id, p2), UpdateFile(q, id, Merge(p, p2));
    forall i | 0 <= i < |q| ensures a[i] == b[i] {
      if q[i].id == id {
        ApplyLaws(q[i], p, p2);
      }
    }
    if id !in Ids(q) {
      var c := UpdateFile(q, id, p);
      forall i | 0 <= i < |q| ensures c[i] == q[i] {
        assert Ids(q)[i] == q[i].id;
      }
    }
  }

  /** Choosing an output format offered by the registry sets it on the matching items and keeps them valid. */
  lemma SelectFormatKeepsValid(q: seq<Item>, id: string, format: string)
    requires AllValid(q)
    requires forall i :: 0 <= i < |q| && q[i].id == id ==>
      format in Formats(GetEffectiveMimeType(q[i].file))
    ensures AllValid(UpdateFile(q, id, NoChange.(outputFormat := Some(format))))
    ensures forall i :: 0 <= i < |q| ==>
      UpdateFile(q, id, NoChange.(outputFormat := Some(format)))[i] ==
        if q[i].id == id then q[i].(outputFormat := format) else q[i]
  {
  }

  /** `toggleSettings`: flip the settings panel flag of the matching items only. */
  function ToggleSettings(q: seq<Item>, id: string): (r: seq<Item>)
    ensures |r| == |q|
    ensures forall i :: 0 <= i < |q| ==> r[i] == q[i].(showSettings := r[i].showSettings)
    ensures forall i :: 0 <= i < |q| ==> (r[i].showSettings != q[i].showSettings <==> q[i].id == id)
  {
    seq(|q|, i requires 0 <= i < |q| =>
      if q[i].id == id then q[i].(showSettings := !q[i].showSettings) else q[i])
  }

  /** Toggling the same id twice restores the queue. */
  lemma ToggleTwice(q: seq<Item>, id: string)
    ensures ToggleSettings(ToggleSettings(q, id), id) == q
  {
  }

  /** `r` is `n / d` rounded to the nearest integer, halves rounded up (`Math.round`). */
  ghost predicate IsRoundedQuotient(r: int, n: int, d: int)
    requires d != 0
  {
    var num, den := if d > 0 then n else -n, if d > 0 then d else -d;
    den * (2 * r - 1) <= 2 * num < den * (2 * r + 1)
  }

  /** `Math.round(n / d)` computed exactly. */
  function RoundDiv(n: int, d: int): (r: int)
    requires d != 0
    ensures IsRoundedQuotient(r, n, d)
  {
    var num, den := if d > 0 then n else -n, if d > 0 then d else -d;
    var r := (2 * num + den) / (2 * den);
    DivBounds(2 * num + den, 2 * den);
    r
  }

  lemma DivBounds(a: int, b: int)
    requires b > 0
    ensures b * (a / b) <= a < b * (a / b) + b
  {
  }

  /** An exact quotient rounds to itself. */
  lemma RoundDivExact(k: int, d: int)
    requires d != 0
    ensures RoundDiv(k * d, d) == k
  {
    var den := if d > 0 then d else -d;
    var num := if d > 0 then k * d else -(k * d);
    assert num == k * den;
    assert 2 * num + den == (2 * den) * k + den;
    DivUnique(2 * num + den, 2 * den, k);
  }

  /** Integer division is the unique quotient within one divisor of the dividend. */
  lemma DivUnique(a: int, b: int, q: int)
    requires b > 0 && b * q <= a < b * q + b
    ensures a / b == q
  {
    DivBounds(a, b);
    var r := a / b;
    if r < q {
      MulMonotone(b, r + 1, q);
    } else if r > q {
      MulMonotone(b, q + 1, r);
    }
  }

  lemma MulMonotone(b: int, x: int, y: int)
    requires b > 0 && x <= y
    ensures b * x <= b * y
  {
    assert b * y - b * x == b * (y - x);
  }

  datatype Dimension = Width | Height

  /** The aspect lock recomputes the other dimension: lock on, both originals set, a value given. */
  predicate LockApplies(f: Item, value: Option<int>) {
    f.maintainAspectRatio && Truthy(f.originalWidth) && Truthy(f.originalHeight) && value.Some?
  }

  /**
   * One item after editing `dimension` to `value`: the edited field takes
   * the value; under the lock the other is the value scaled by the original
   * ratio and rounded to nearest; otherwise the other field is kept.
   */
  function Resize(f: Item, dimension: Dimension, value: Option<int>): (r: Item)
    ensures r == f.(width := r.width, height := r.height)
    ensures dimension == Width ==> r.width == value
    ensures dimension == Height ==> r.height == value
    ensures !LockApplies(f, value) && dimension == Width ==> r.height == f.height
    ensures !LockApplies(f, value) && dimension == Height ==> r.width == f.width
    ensures LockApplies(f, value) && dimension == Width ==>
      && r.height.Some?
      && IsRoundedQuotient(r.height.value, value.value * f.originalHeight.value, f.originalWidth.value)
    ensures LockApplies(f, value) && dimension == Height ==>
      && r.width.Some?
      && IsRoundedQuotient(r.width.value, value.value * f.originalWidth.value, f.originalHeight.value)
  {
    if !LockApplies(f, value) then
      if dimension == Width then f.(width := value) else f.(height := value)
    else if dimension == Width then
      f.(width := value,
         height := Some(RoundDiv(value.value * f.originalHeight.value, f.originalWidth.value)))
    else
      f.(height := value,
         width := Some(RoundDiv(value.value * f.originalWidth.value, f.originalHeight.value)))
  }

  /** `handleDimensionChange`: resize the matching items, keep the others. */
  function HandleDimensionChange(q: seq<Item>, id: string, dimension: Dimension, value: Option<int>): (r: seq<Item>)
    ensures |r| == |q| && Ids(r) == Ids(q)
    ensures forall i :: 0 <= i < |q| && q[i].id == id ==> r[i] == Resize(q[i], dimension, value)
    ensures forall i :: 0 <= i < |q| && q[i].id != id ==> r[i] == q[i]
  {
    seq(|q|, i requires 0 <= i < |q| => if q[i].id == id then Resize(q[i], dimension, value) else q[i])
  }

  /** Editing dimensions never disturbs the validity of the queue. */
  lemma DimensionChangeKeepsValid(q: seq<Item>, id: string, dimension: Dimension, value: Option<int>)
    requires AllValid(q)
    ensures AllValid(HandleDimensionChange(q, id, dimension, value))
  {
  }

  /**
   * With the lock on, a width whose rescaled height is exact round-trips:
   * setting the width, then setting the height it produced, gives the width
   * back unchanged.
   */
  lemma AspectRoundTrip(f: Item, w: int)
    requires f.maintainAspectRatio
    requires Truthy(f.originalWidth) && Truthy(f.originalHeight)
    requires (w * f.originalHeight.value) % f.originalWidth.value == 0
    ensures var g := Resize(f, Width, Some(w));
      g.height == Some(w * f.originalHeight.value / f.originalWidth.value)
      && Resize(g, Height, g.height).width == Some(w)
  {
    var ow, oh := f.originalWidth.value, f.originalHeight.value;
    var h := w * oh / ow;
    assert w * oh == h * ow;
    RoundDivExact(h, ow);
    var g := Resize(f, Width, Some(w));
    assert g.height == Some(h);
    assert h * ow == w * oh;
    RoundDivExact(w, oh);
  }

  /** A 1920×1080 item set to width 960 gets height 540, and height 540 gives width 960 back. */
  lemma AspectExample(f: Item)
    requires f.maintainAspectRatio && f.originalWidth == Some(1920) && f.originalHeight == Some(1080)
    ensures Resize(f, Width, Some(960)).height == Some(540)
    ensures Resize(Resize(f, Width, Some(960)), Height, Some(540)).width == Some(960)
  {
    AspectRoundTrip(f, 960);
  }

  /** The queue without the items carrying `id`, in their original order. */
  function Without(q: seq<Item>, id: string): (r: seq<Item>)
    ensures |r| <= |q|
    ensures forall x :: x in r <==> x in q && x.id != id
  {
    if |q| == 0 then []
    else if q[0].id == id then Without(q[1..], id)
    else [q[0]] + Without(q[1..], id)
  }

  /** Removing from a concatenation removes from each part. */
  lemma {:induction false} WithoutAppend(a: seq<Item>, b: seq<Item>, id: string)
    ensures Without(a + b, id) == Without(a, id) + Without(b, id)
  {
    if |a| == 0 {
      assert a + b == b;
    } else {
      assert (a + b)[1..] == a[1..] + b;
      WithoutAppend(a[1..], b, id);
    }
  }

  /** An id nobody carries removes nothing. */
  lemma {:induction false} WithoutAbsent(q: seq<Item>, id: string)
    requires forall i :: 0 <= i < |q| ==> q[i].id != id
    ensures Without(q, id) == q
  {
    if |q| > 0 {
      WithoutAbsent(q[1..], id);
      assert [q[0]] + q[1..] == q;
    }
  }

  /** The first item carrying `id`, as `Array.prototype.find` returns it. */
  function Find(q: seq<Item>, id: string): (r: Option<Item>)
    ensures r.Some? ==> r.value in q && r.value.id == id
    ensures forall k :: IsFirstMatch(q, id, k) ==> r == Some(q[k])
    ensures r.None? <==> forall i :: 0 <= i < |q| ==> q[i].id != id
  {
    if |q| == 0 then None
    else if q[0].id == id then Some(q[0])
    else
      assert forall k :: IsFirstMatch(q, id, k) ==> IsFirstMatch(q[1..], id, k - 1) && q[1..][k - 1] == q[k];
      Find(q[1..], id)
  }

  /** Position `k` holds the first item carrying `id`. */
  predicate IsFirstMatch(q: seq<Item>, id: string, k: int) {
    0 <= k < |q| && q[k].id == id && forall j :: 0 <= j < k ==> q[j].id != id
  }

  /** Object URLs released by removing `id`: the found item's URL when it has one. */
  function RemovalReleases(q: seq<Item>, id: string): set<string> {
    match Find(q, id)
    case Some(f) => if f.convertedUrl != "" then {f.convertedUrl} else {}
    case None => {}
  }

  /** `removeFile`: the queue without `id`, and the object URLs it revokes. */
  function RemoveFile(q: seq<Item>, id: string): (r: (seq<Item>, set<string>))
    ensures r.0 == Without(q, id)
    ensures |r.1| <= 1
    ensures (forall i :: 0 <= i < |q| ==> q[i].id != id) ==> r.1 == {}
    ensures forall k :: IsFirstMatch(q, id, k) ==>
      r.1 == (if q[k].convertedUrl != "" then {q[k].convertedUrl} else {})
  {
    (Without(q, id), RemovalReleases(q, id))
  }

  /**
   * When two items share an id, removing it drops both, yet only the first
   * one's object URL is revoked; the second URL stays allocated.
   */
  lemma CollidingIdsRemoval(a: Item, b: Item)
    requires a.id == b.id && a.convertedUrl != "" && b.convertedUrl != a.convertedUrl
    ensures RemoveFile([a, b], a.id) == ([], {a.convertedUrl})
    ensures b.convertedUrl !in RemoveFile([a, b], a.id).1
  {
    assert IsFirstMatch([a, b], a.id, 0);
    assert [a, b][1..] == [b];
    assert [b][1..] == [];
    assert Without([b], a.id) == Without([], a.id) == [];
    assert Without([a, b], a.id) == [];
  }

  /**
   * Removing the item at position `k` of a queue with unique ids deletes
   * exactly that item, keeps the rest in order, and revokes its object URL
   * when it has one (a complete valid item always has one).
   */
  lemma RemoveExactlyOne(q: seq<Item>, k: int)
    requires UniqueIds(q) && 0 <= k < |q|
    ensures RemoveFile(q, q[k].id).0 == q[..k] + q[k + 1..]
    ensures q[k].convertedUrl != "" ==> RemoveFile(q, q[k].id).1 == {q[k].convertedUrl}
    ensures Valid(q[k]) && q[k].status == Complete ==> q[k].convertedUrl in RemoveFile(q, q[k].id).1
  {
    WithoutAt(q, k);
    FindFirst(q, k);
  }

  /** A sequence is what precedes position `k`, the element there, and what follows. */
  lemma Spliced<T>(s: seq<T>, k: int)
    requires 0 <= k < |s|
    ensures s == s[..k] + ([s[k]] + s[k + 1..])
  {
  }

  /** Removing the id of an item that nothing around it carries removes just that item. */
  lemma WithoutSplice(before: seq<Item>, x: Item, after: seq<Item>)
    requires Without(before, x.id) == before && Without(after, x.id) == after
    ensures Without(before + ([x] + after), x.id) == before + after
  {
    assert ([x] + after)[1..] == after;
    WithoutAppend(before, [x] + after, x.id);
  }

  /** With unique ids, the items around position `k` do not carry its id. */
  lemma OthersKept(q: seq<Item>, k: int)
    requires UniqueIds(q) && 0 <= k < |q|
    ensures Without(q[..k], q[k].id) == q[..k]
    ensures Without(q[k + 1..], q[k].id) == q[k + 1..]
  {
    var id, before, after := q[k].id, q[..k], q[k + 1..];
    forall i | 0 <= i < |before| ensures before[i].id != id {
      assert before[i] == q[i];
    }
    forall i | 0 <= i < |after| ensures after[i].id != id {
      assert after[i] == q[k + 1 + i];
    }
    WithoutAbsent(before, id);
    WithoutAbsent(after, id);
  }

  /** With unique ids, dropping the id of position `k` drops exactly that position. */
  lemma WithoutAt(q: seq<Item>, k: int)
    requires UniqueIds(q) && 0 <= k < |q|
    ensures Without(q, q[k].id) == q[..k] + q[k + 1..]
  {
    OthersKept(q, k);
    Spliced(q, k);
    WithoutSplice(q[..k], q[k], q[k + 1..]);
  }

  /** With unique ids, looking up the id of position `k` finds position `k`. */
  lemma {:induction false} FindFirst(q: seq<Item>, k: int)
    requires UniqueIds(q) && 0 <= k < |q|
    ensures Find(q, q[k].id) == Some(q[k])
  {
    if k > 0 {
      assert q[0].id != q[k].id;
      var t := q[1..];
      assert UniqueIds(t) by {
        forall i, j | 0 <= i < |t| && 0 <= j < |t| && t[i].id == t[j].id ensures i == j {
          assert q[i + 1].id == q[j + 1].id;
        }
      }
      FindFirst(t, k - 1);
    }
  }

  /** The object URLs held by the items of a queue. */
  function HeldUrls(q: seq<Item>): (r: set<string>)
    ensures forall u :: u in r <==> exists i :: 0 <= i < |q| && q[i].convertedUrl == u && u != ""
  {
    set i | 0 <= i < |q| && q[i].convertedUrl != "" :: q[i].convertedUrl
  }

  /** `resetAll`: an empty queue, revoking every object URL any item holds. */
  function ResetAll(q: seq<Item>): (r: (seq<Item>, set<string>))
    ensures r.0 == []
    ensures forall i :: 0 <= i < |q| && q[i].status == Complete && Valid(q[i]) ==> q[i].convertedUrl in r.1
    ensures "" !in r.1
    ensures r.1 == HeldUrls(q)
  {
    ([], HeldUrls(q))
  }

  /** The queue of the first render: `useState` starts it empty. */
  const InitialQueue: seq<Item> := []

  /**
   * The unmount cleanup as written. Its effect is registered once, with no
   * dependencies, so the cleanup reads the queue of the first render, not
   * the queue at unmount, and revokes the URLs that empty queue holds.
   */
  function UnmountCleanupAsWritten(current: seq<Item>): (r: set<string>)
    ensures r == {}
  {
    HeldUrls(InitialQueue)
  }

  /** The unmount cleanup as intended: revoke every URL the queue holds at unmount. */
  function UnmountCleanup(current: seq<Item>): (r: set<string>)
    ensures forall i :: 0 <= i < |current| && current[i].convertedUrl != "" ==> current[i].convertedUrl in r
    ensures "" !in r
    ensures r == ResetAll(current).1
  {
    HeldUrls(current)
  }

  /**
   * As written, a URL an item still holds at unmount is never revoked; the
   * intended cleanup revokes it.
   */
  lemma UnmountLeaksUrls(current: seq<Item>, i: int)
    requires 0 <= i < |current| && current[i].convertedUrl != ""
    ensures current[i].convertedUrl !in UnmountCleanupAsWritten(current)
    ensures current[i].convertedUrl in UnmountCleanup(current)
  {
  }

  /** One offered file together with what the page learns about it on submission. */
  datatype Submission = Submission(file: SourceFile, id: string, decoded: Option<Dims>)

  /**
   * `getFileDimensions`: images and videos (by effective type) report the
   * decoder's natural size, or nothing when decoding failed; anything else
   * reports nothing.
   */
  function ProbeDimensions(s: Submission): (r: Option<Dims>)
    ensures GetFileCategory(GetEffectiveMimeType(s.file)) in {Image, Video} ==> r == s.decoded
    ensures GetFileCategory(GetEffectiveMimeType(s.file)) !in {Image, Video} ==> r == None
  {
    var category := GetFileCategory(GetEffectiveMimeType(s.file));
    if category == Image || category == Video then s.decoded else None
  }

  /** `n || null` for a pixel count: zero is treated as unknown. */
  function NonZero(n: nat): (r: Option<int>)
    ensures r.Some? <==> n != 0
    ensures r.Some? ==> r.value == n
  {
    if n == 0 then None else Some(n)
  }

  /** A freshly submitted item: pending, nothing converted, the lock on, the default format. */
  predicate IsFresh(f: Item) {
    && f.status == Pending && f.progress == 0
    && f.convertedBlob == None && f.convertedUrl == "" && f.errorMessage == ""
    && f.maintainAspectRatio && !f.showSettings
    && |Formats(GetEffectiveMimeType(f.file))| > 0
    && f.outputFormat == Formats(GetEffectiveMimeType(f.file))[0]
    && f.width == f.originalWidth && f.height == f.originalHeight
  }

  /** The queue item built for an accepted submission. */
  function NewItem(s: Submission): (r: Item)
    requires Accepts(s.file)
    ensures IsFresh(r) && Valid(r)
    ensures r.id == s.id && r.file == s.file
    ensures r.originalWidth == (if ProbeDimensions(s).Some? then NonZero(ProbeDimensions(s).value.width) else None)
    ensures r.originalHeight == (if ProbeDimensions(s).Some? then NonZero(ProbeDimensions(s).value.height) else None)
  {
    var mime := GetEffectiveMimeType(s.file);
    var dims := ProbeDimensions(s);
    var w := if dims.Some? then NonZero(dims.value.width) else None;
    var h := if dims.Some? then NonZero(dims.value.height) else None;
    Item(s.id, s.file, DefaultFormat(mime), w, h, w, h, true, Pending, 0, None, "", "", false)
  }

  /** The offered files the registry accepts, in the order they were offered. */
  function Admit(subs: seq<Submission>): (r: seq<Submission>)
    ensures |r| <= |subs|
    ensures forall k :: 0 <= k < |r| ==> Accepts(r[k].file)
  {
    if |subs| == 0 then []
    else if Accepts(subs[0].file) then [subs[0]] + Admit(subs[1..])
    else Admit(subs[1..])
  }

  /** Admission keeps exactly the accepted submissions, with their multiplicity. */
  lemma AdmitExactly(subs: seq<Submission>)
    ensures multiset(Admit(subs)) + multiset(Rejected(subs)) == multiset(subs)
    ensures forall s :: s in Admit(subs) <==> s in subs && Accepts(s.file)
  {
    AdmitPartition(subs);
    AdmitMembers(subs);
  }

  /** Admitted and refused submissions together are the offered ones. */
  lemma {:induction false} AdmitPartition(subs: seq<Submission>)
    ensures multiset(Admit(subs)) + multiset(Rejected(subs)) == multiset(subs)
  {
    if |subs| > 0 {
      var t := subs[1..];
      AdmitPartition(t);
      AdmitCons(subs);
      HeadTail(subs);
      PartitionStep(subs[0], t, Admit(subs), Rejected(subs), Admit(t), Rejected(t), Accepts(subs[0].file));
    }
  }

  /** A non-empty sequence is its head followed by its tail. */
  lemma HeadTail<T>(s: seq<T>)
    requires |s| > 0
    ensures s == [s[0]] + s[1..]
  {
  }

  /** The head of the offered files goes to exactly one side. */
  lemma AdmitCons(subs: seq<Submission>)
    requires |subs| > 0
    ensures Accepts(subs[0].file) ==> Admit(subs) == [subs[0]] + Admit(subs[1..]) && Rejected(subs) == Rejected(subs[1..])
    ensures !Accepts(subs[0].file) ==> Admit(subs) == Admit(subs[1..]) && Rejected(subs) == [subs[0]] + Rejected(subs[1..])
  {
  }

  /** Sending the head of a sequence to one side of a partition of its tail partitions it. */
  lemma PartitionStep<T>(x: T, t: seq<T>, kept: seq<T>, dropped: seq<T>,
                         keptT: seq<T>, droppedT: seq<T>, keep: bool)
    requires multiset(keptT) + multiset(droppedT) == multiset(t)
    requires keep ==> kept == [x] + keptT && dropped == droppedT
    requires !keep ==> kept == keptT && dropped == [x] + droppedT
    ensures multiset(kept) + multiset(dropped) == multiset([x] + t)
  {
    assert multiset([x] + t) == multiset([x]) + multiset(t);
    if keep {
      assert multiset(kept) == multiset([x]) + multiset(keptT);
    } else {
      assert multiset(dropped) == multiset([x]) + multiset(droppedT);
    }
  }

  /** A submission is admitted exactly when it is offered and accepted. */
  lemma {:induction false} AdmitMembers(subs: seq<Submission>)
    ensures forall s :: s in Admit(subs) <==> s in subs && Accepts(s.file)
  {
    if |subs| > 0 {
      var t := subs[1..];
      AdmitMembers(t);
      assert subs == [subs[0]] + t;
    }
  }

  /** The offered files the registry refuses. */
  function Rejected(subs: seq<Submission>): seq<Submission> {
    if |subs| == 0 then []
    else if Accepts(subs[0].file) then Rejected(subs[1..])
    else [subs[0]] + Rejected(subs[1..])
  }

  /** Admission of a concatenation admits from each part, preserving order. */
  lemma {:induction false} AdmitAppend(a: seq<Submission>, b: seq<Submission>)
    ensures Admit(a + b) == Admit(a) + Admit(b)
  {
    if |a| > 0 {
      assert (a + b)[1..] == a[1..] + b;
      AdmitAppend(a[1..], b);
    } else {
      assert a + b == b;
    }
  }

  /** The items built for the accepted submissions, in the order offered. */
  function NewItems(subs: seq<Submission>): (r: seq<Item>)
    ensures |r| == |Admit(subs)|
    ensures forall k :: 0 <= k < |r| ==> r[k] == NewItem(Admit(subs)[k])
  {
    var admitted := Admit(subs);
    seq(|admitted|, k requires 0 <= k < |admitted| => NewItem(admitted[k]))
  }

  /**
   * `addFiles`: the queue is kept as it was and the accepted files are
   * appended as fresh items, in the order offered.
   */
  function AddFiles(q: seq<Item>, subs: seq<Submission>): (r: seq<Item>)
    ensures |r| == |q| + |Admit(subs)|
    ensures r[..|q|] == q
    ensures forall k :: |q| <= k < |r| ==> r[k] == NewItem(Admit(subs)[k - |q|])
    ensures forall k :: |q| <= k < |r| ==> IsFresh(r[k]) && Valid(r[k])
    ensures AllValid(q) ==> AllValid(r)
  {
    var items := NewItems(subs);
    var all := q + items;
    assert forall k :: |q| <= k < |all| ==> all[k] == items[k - |q|];
    assert forall k :: 0 <= k < |q| ==> all[k] == q[k];
    all
  }

  /** `downloadFile`: no download without an object URL; else `<first name segment>.<format>`. */
  function DownloadName(f: Item): (r: Option<string>)
    ensures r.Some? <==> f.convertedUrl != ""
    ensures r.Some? ==> FirstSegment(r.value, '.') == FirstSegment(f.file.name, '.')
    ensures r.Some? && '.' !in f.outputFormat ==> LastSegment(r.value, '.') == f.outputFormat
    ensures r.Some? && '.' !in f.outputFormat ==>
      Split(r.value, '.') == [FirstSegment(f.file.name, '.'), f.outputFormat]
  {
    if f.convertedUrl == "" then None
    else
      var stem := FirstSegment(f.file.name, '.');
      FirstSegmentBeforeSep(stem, f.outputFormat, '.');
      if '.' !in f.outputFormat then
        LastSegmentAfterSep(stem, f.outputFormat, '.');
        assert Join([stem, f.outputFormat], '.') == stem + "." + f.outputFormat by {
          assert [stem, f.outputFormat][1..] == [f.outputFormat];
        }
        SplitJoin([stem, f.outputFormat], '.');
        Some(stem + "." + f.outputFormat)
      else Some(stem + "." + f.outputFormat)
  }

  /**
   * `downloadAll`: the download names of the complete items, in queue order.
   * In a valid queue every complete item holds a URL, so none is skipped.
   */
  function DownloadAll(q: seq<Item>): (r: seq<string>)
    ensures |r| <= |Completed(q)|
  {
    if |q| == 0 then []
    else if q[0].status == Complete then
      match DownloadName(q[0])
      case Some(name) => [name] + DownloadAll(q[1..])
      case None => DownloadAll(q[1..])
    else DownloadAll(q[1..])
  }

  /** A lone item yields its download exactly when it is complete and holds a URL. */
  lemma DownloadOne(x: Item)
    ensures DownloadAll([x]) ==
      if x.status == Complete && x.convertedUrl != "" then [DownloadName(x).value] else []
  {
    assert [x][1..] == [];
  }

  /** Downloading a concatenation downloads each part in turn. */
  lemma {:induction false} DownloadAllAppend(a: seq<Item>, b: seq<Item>)
    ensures DownloadAll(a + b) == DownloadAll(a) + DownloadAll(b)
  {
    if |a| > 0 {
      assert (a + b)[1..] == a[1..] + b;
      DownloadAllAppend(a[1..], b);
    } else {
      assert a + b == b;
    }
  }

  /** Every complete item of the queue holds an object URL. */
  predicate UrlsHeld(q: seq<Item>) {
    forall i :: 0 <= i < |q| && q[i].status == Complete ==> q[i].convertedUrl != ""
  }

  /** In a valid queue, the `k`-th download is the `k`-th complete item under its own download name. */
  lemma DownloadAllNames(q: seq<Item>)
    requires AllValid(q)
    ensures |DownloadAll(q)| == |Completed(q)|
    ensures forall k :: 0 <= k < |DownloadAll(q)| ==>
      DownloadName(Completed(q)[k]) == Some(DownloadAll(q)[k])
  {
    assert UrlsHeld(q) by {
      forall i | 0 <= i < |q| && q[i].status == Complete ensures q[i].convertedUrl != "" {
        assert Valid(q[i]);
      }
    }
    DownloadsNamed(q);
  }

  lemma {:induction false} DownloadsNamed(q: seq<Item>)
    requires UrlsHeld(q)
    ensures NamesMatch(Completed(q), DownloadAll(q))
  {
    if |q| > 0 {
      UrlsHeldTail(q);
      DownloadsNamed(q[1..]);
      if q[0].status == Complete {
        NamesMatchCons(q[0], Completed(q[1..]), DownloadName(q[0]).value, DownloadAll(q[1..]));
      }
    }
  }

  /** Each complete item, in order, downloads under the corresponding name. */
  predicate NamesMatch(c: seq<Item>, r: seq<string>) {
    |c| == |r| && forall k :: 0 <= k < |r| ==> DownloadName(c[k]) == Some(r[k])
  }

  lemma UrlsHeldTail(q: seq<Item>)
    requires |q| > 0 && UrlsHeld(q)
    ensures UrlsHeld(q[1..])
  {
    forall i | 0 <= i < |q| - 1 && q[1..][i].status == Complete ensures q[1..][i].convertedUrl != "" {
      assert q[1..][i] == q[i + 1];
    }
  }

  lemma NamesMatchCons(f: Item, c: seq<Item>, name: string, r: seq<string>)
    requires DownloadName(f) == Some(name) && NamesMatch(c, r)
    ensures NamesMatch([f] + c, [name] + r)
  {
    forall k | 0 < k < |r| + 1 ensures DownloadName(([f] + c)[k]) == Some(([name] + r)[k]) {
      assert ([f] + c)[k] == c[k - 1] && ([name] + r)[k] == r[k - 1];
    }
  }

  /** The complete items of a queue, in order. */
  function Completed(q: seq<Item>): (r: seq<Item>)
    ensures |r| <= |q|
    ensures forall x :: x in r <==> x in q && x.status == Complete
  {
    if |q| == 0 then [] else (if q[0].status == Complete then [q[0]] else []) + Completed(q[1..])
  }

  /** A lone item is kept exactly when it is complete. */
  lemma CompletedOne(x: Item)
    ensures Completed([x]) == if x.status == Complete then [x] else []
  {
    assert [x][1..] == [];
  }

  /** The complete items of a concatenation are those of each part, in order. */
  lemma {:induction false} CompletedAppend(a: seq<Item>, b: seq<Item>)
    ensures Completed(a + b) == Completed(a) + Completed(b)
  {
    if |a| > 0 {
      assert (a + b)[1..] == a[1..] + b;
      CompletedAppend(a[1..], b);
    } else {
      assert a + b == b;
    }
  }
}
