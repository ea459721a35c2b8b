/**
 * The `Savile` orchestrator of src/index.ts: it discovers and measures the
 * image records, and runs the resize, optimise, reformat and progressive
 * workflows. Each workflow settles its prompts on the user's replies
 * (given here as parameters), selects records, and then stages and
 * commits every selected record in turn.
 */
module Workflows {
  import opened Wrappers
  import opened Paths
  import opened Codec
  import opened Disk
  import opened JsParseInt
  import opened ImageRecord
  import opened Selection
  import opened Prompts

  /** The staging call a batch makes on each record before `overwriteImg`. */
  datatype Action = Shrink(width: int) | Recompress(quality: int) | Retarget(target: Format) | Progressive

  /** How a workflow ends. */
  datatype Outcome =
    /** The user cancelled a prompt or declined to go on (`process.exit(0)`). */
    | Cancelled
    /** Every reply given so far was rejected: the prompt is still open. */
    | Waiting
    /** `progresiviseAll` found no JPEG (it logs and returns). */
    | NoJpegs
    /** Every selected record was staged and committed. */
    | Done(selection: seq<Image>)
    /** Something threw: no images yet, a missing measurement, or a record whose staging or commit threw. */
    | Failed(selection: seq<Image>)

  /** The glob `*.{jpg,jpeg}` `progresiviseAll` passes to `matchImagesByQuery`. */
  const JpegQuery := "*.{jpg,jpeg}"

  /** Where the rounds of `progresiviseByQuery` end. */
  datatype Pick =
    /** A round is still waiting for an accepted query, or no round is left. */
    | Open
    /** A round's query prompt was cancelled. */
    | Quit
    /** A round's query matched these JPEGs. */
    | Picked(query: string, jpegs: seq<Image>)

  /** A round whose accepted query matches no JPEG, so the query is asked again. */
  predicate Fruitless(imgs: seq<Image>, isMatch: (string, string) -> bool, replies: seq<Option<string>>)
    reads imgs
  {
    var a := Ask(QueryPrompt, imgs, isMatch, replies);
    && a.Given?
    && (SelectWithin(imgs, PathMatch(isMatch, a.value));
        Select(Select(imgs, PathMatch(isMatch, a.value)), JpegBase) == [])
  }

  /**
   * The rounds of `progresiviseByQuery`: `queryImages`, then the base-name
   * JPEG filter; an empty result starts the next round.
   */
  function PickJpegs(imgs: seq<Image>, isMatch: (string, string) -> bool, rounds: seq<seq<Option<string>>>): (r: Pick)
    reads imgs
    ensures r.Picked? ==>
              && r.jpegs != []
              && Ask(QueryPrompt, imgs, isMatch, [Some(r.query)]) == Given(r.query)
              && (SelectWithin(imgs, PathMatch(isMatch, r.query));
                  r.jpegs == Select(Select(imgs, PathMatch(isMatch, r.query)), JpegBase))
    decreases |rounds|
  {
    if rounds == [] then Open
    else
      var a := Ask(QueryPrompt, imgs, isMatch, rounds[0]);
      if a.Unanswered? then Open
      else if a.Cancel? then Quit
      else
        SelectWithin(imgs, PathMatch(isMatch, a.value));
        var jpegs := Select(Select(imgs, PathMatch(isMatch, a.value)), JpegBase);
        if jpegs == [] then PickJpegs(imgs, isMatch, rounds[1..]) else Picked(a.value, jpegs)
  }

  /**
   * A pick is the accepted query of some round, and every round before it
   * was fruitless.
   */
  lemma {:induction false} PickJpegsSpec(imgs: seq<Image>, isMatch: (string, string) -> bool, rounds: seq<seq<Option<string>>>)
    ensures var r := PickJpegs(imgs, isMatch, rounds);
            r.Picked? ==>
              exists k :: 0 <= k < |rounds| && Ask(QueryPrompt, imgs, isMatch, rounds[k]) == Given(r.query)
                          && forall j :: 0 <= j < k ==> Fruitless(imgs, isMatch, rounds[j])
    decreases |rounds|
  {
    var r := PickJpegs(imgs, isMatch, rounds);
    if rounds != [] && r.Picked? && Ask(QueryPrompt, imgs, isMatch, rounds[0]) != Given(r.query) {
      assert Fruitless(imgs, isMatch, rounds[0]);
      assert r == PickJpegs(imgs, isMatch, rounds[1..]);
      PickJpegsSpec(imgs, isMatch, rounds[1..]);
      var k :| 0 <= k < |rounds[1..]| && Ask(QueryPrompt, imgs, isMatch, rounds[1..][k]) == Given(r.query)
               && forall j :: 0 <= j < k ==> Fruitless(imgs, isMatch, rounds[1..][j]);
      assert rounds[k + 1] == rounds[1..][k];
      forall j | 0 <= j < k + 1 ensures Fruitless(imgs, isMatch, rounds[j]) {
        if j > 0 {
          assert rounds[j] == rounds[1..][j - 1];
        }
      }
    }
  }

  /** Rounds that are all fruitless leave the prompt open: `progresiviseByQuery` asks again. */
  lemma {:induction false} FruitlessRoundsOpen(imgs: seq<Image>, isMatch: (string, string) -> bool, rounds: seq<seq<Option<string>>>)
    requires forall j :: 0 <= j < |rounds| ==> Fruitless(imgs, isMatch, rounds[j])
    ensures PickJpegs(imgs, isMatch, rounds).Open?
    decreases |rounds|
  {
    if rounds != [] {
      assert Fruitless(imgs, isMatch, rounds[0]);
      forall j | 0 <= j < |rounds[1..]| ensures Fruitless(imgs, isMatch, rounds[1..][j]) {
        assert rounds[1..][j] == rounds[j + 1];
      }
      FruitlessRoundsOpen(imgs, isMatch, rounds[1..]);
    }
  }

  class Savile {
    /** `images`, once `findImages` has set it. */
    var images: seq<Image>
    /** Whether `images` has been set. */
    var found: bool
    /** The file system the records read and write. */
    const disk: FileSystem
    /** sharp and image-size. */
    const codec: Codec
    /** micromatch's `isMatch` with the options `matchImagesByQuery` passes. */
    const isMatch: (string, string) -> bool

    /** Every record is well formed, and no record is listed twice. */
    ghost predicate Valid()
      reads this, images
    {
      (forall i :: i in images ==> i.Valid()) && Distinct(images)
    }

    constructor (disk: FileSystem, codec: Codec, isMatch: (string, string) -> bool)
      ensures Valid() && !found && images == []
      ensures this.disk == disk && this.codec == codec && this.isMatch == isMatch
    {
      this.disk := disk;
      this.codec := codec;
      this.isMatch := isMatch;
      images := [];
      found := false;
    }

    /**
     * `findImages`: one record per discovered path (each with the random
     * id of its temporary file), then `measureImages`, which measures every
     * record and fails when any measurement fails.
     */
    method FindImages(paths: seq<string>, ids: seq<string>) returns (ok: bool)
      requires |ids| == |paths|
      requires forall k :: 0 <= k < |paths| ==> GetType(paths[k]).Some? && IdLike(ids[k])
      modifies this
      ensures Valid() && found && |images| == |paths|
      ensures forall k :: 0 <= k < |paths| ==> fresh(images[k]) && images[k].path == paths[k]
      ensures ok <==> forall i :: i in images ==> MeasureFile(codec, disk.files, i.path).Some?
      ensures forall i :: i in images ==> i.stats == MeasureFile(codec, disk.files, i.path)
      ensures ok ==> Measured(images)
    {
      var made := NewRecords(paths, ids);
      images := made;
      found := true;
      ok := MeasureImages();
    }

    /** `imageFiles.map((imgPath) => new Image(imgPath, this.rootDir))`. */
    static method NewRecords(paths: seq<string>, ids: seq<string>) returns (made: seq<Image>)
      requires |ids| == |paths|
      requires forall k :: 0 <= k < |paths| ==> GetType(paths[k]).Some? && IdLike(ids[k])
      ensures |made| == |paths| && Distinct(made)
      ensures forall i :: i in made ==> i.Valid()
      ensures forall k :: 0 <= k < |paths| ==> fresh(made[k]) && made[k].path == paths[k] && made[k].stats == None
      decreases |paths|
    {
      if paths == [] {
        return [];
      }
      var img := NewRecord(paths[0], ids[0]);
      var rest := NewRecords(paths[1..], ids[1..]);
      made := [img] + rest;
      assert img !in rest;
      DistinctCons(img, rest);
      forall k | 0 <= k < |paths| ensures fresh(made[k]) && made[k].path == paths[k] && made[k].stats == None {
        if k > 0 {
          assert made[k] == rest[k - 1] && paths[k] == paths[1..][k - 1];
        }
      }
    }

    /** One `new Image(imgPath, rootDir)`. */
    static method NewRecord(p: string, id: string) returns (img: Image)
      requires GetType(p).Some? && IdLike(id)
      ensures fresh(img) && img.Valid() && img.path == p && img.stats == None
    {
      img := new Image(p, id);
    }

    /** `measureImages`: `getStats` on every record; it fails when any of them fails. */
    method MeasureImages() returns (ok: bool)
      requires Valid()
      modifies images
      ensures Valid()
      ensures ok <==> forall i :: i in images ==> MeasureFile(codec, disk.files, i.path).Some?
      ensures forall i :: i in images ==>
                i.stats == if MeasureFile(codec, disk.files, i.path).Some? then MeasureFile(codec, disk.files, i.path) else old(i.stats)
      ensures forall i :: i in images ==> i.path == old(i.path)
      ensures ok ==> Measured(images)
    {
      ok := MeasureAll(images);
    }

    /** The `spinLoop` of `measureImages` over a run of distinct records. */
    method MeasureAll(sel: seq<Image>) returns (ok: bool)
      requires forall i :: i in sel ==> i.Valid()
      requires Distinct(sel)
      modifies sel
      ensures forall i :: i in sel ==> i.Valid()
      ensures ok <==> forall i :: i in sel ==> MeasureFile(codec, disk.files, i.path).Some?
      ensures forall i :: i in sel ==>
                i.stats == if MeasureFile(codec, disk.files, i.path).Some? then MeasureFile(codec, disk.files, i.path) else old(i.stats)
      ensures forall i :: i in sel ==> i.path == old(i.path)
      decreases |sel|
    {
      if sel == [] {
        return true;
      }
      var r := sel[0].GetStats(disk, codec);
      assert sel[0] !in sel[1..];
      ok := MeasureAll(sel[1..]);
      ok := r.Some? && ok;
    }

    /**
     * The body of a resize batch: `resize(width)`, then `overwriteImg`. A
     * shrink never enlarges: a record wider than `width` ends `width`
     * wide, a record no wider keeps its pipeline, and with a fresh
     * pipeline and a current measurement it keeps its width.
     */
    method ShrinkOne(img: Image, width: int) returns (ok: bool)
      requires img.Valid()
      modifies img`sharpImg, img`path, img`pathExt, img`stats, disk
      ensures img.Valid()
      ensures ok ==> img.Committed()
      ensures ok && Sound(codec) && old(img.stats).Some? && old(img.stats).value.width > width ==>
                img.stats.value.width == width
      ensures ok && old(img.stats).Some? && old(img.stats).value.width <= width ==>
                img.sharpImg == old(img.Pending(disk.files))
      ensures ok && Sound(codec) && old(img.sharpImg).None?
              && old(img.stats).Some? && old(img.stats) == old(MeasureFile(codec, disk.files, img.path))
              && old(img.stats).value.width <= width ==>
                img.stats.value.width == old(img.stats).value.width
      ensures img.stats.Some? || img.stats == old(img.stats)
    {
      ghost var measured := MeasureFile(codec, disk.files, img.path);
      ghost var untouched := img.sharpImg.None? && img.stats == measured && measured.Some?;
      if untouched {
        MeasuredWidth(codec, disk.files, img.path);
        assert img.Pending(disk.files) == Some(Pipeline(disk.files[img.path], []));
      }
      var staged := img.Resize(width, disk);
      if !staged {
        return false;
      }
      ok := img.Commit(disk, codec);
    }

    /**
     * The body of an optimise batch: `optimise(quality)`, then
     * `overwriteImg`. The committed pipeline is the one pending before,
     * with the format's encoder at that quality staged last.
     */
    method RecompressOne(img: Image, quality: int) returns (ok: bool)
      requires img.Valid()
      modifies img`sharpImg, img`path, img`pathExt, img`stats, disk
      ensures img.Valid()
      ensures ok ==> img.Committed() && QualityInRange(img.format.value, quality)
      ensures ok ==> old(img.Pending(disk.files)).Some?
                     && img.sharpImg == Some(Then(old(img.Pending(disk.files)).value, EncoderFor(img.format.value, quality)))
      ensures ok ==> img.Recompressed(quality)
      ensures img.stats.Some? || img.stats == old(img.stats)
    {
      var staged := img.Optimise(quality, disk);
      if !staged {
        return false;
      }
      ok := img.Commit(disk, codec);
    }

    /**
     * The body of a progressive batch: `makeProgressive()`, then
     * `overwriteImg`. A JPEG record's committed pipeline has progressive
     * output staged last; any other record's is the one pending before.
     */
    method ProgressiveOne(img: Image) returns (ok: bool)
      requires img.Valid()
      modifies img`sharpImg, img`path, img`pathExt, img`stats, disk
      ensures img.Valid()
      ensures ok ==> img.Committed()
      ensures ok ==> old(img.Pending(disk.files)).Some?
                     && img.sharpImg == if img.format == Some(Jpeg) then Some(Then(old(img.Pending(disk.files)).value, ProgressiveJpeg))
                                        else old(img.Pending(disk.files))
      ensures ok ==> img.ProgressiveIfJpeg()
      ensures img.stats.Some? || img.stats == old(img.stats)
    {
      var staged := img.MakeProgressive(disk);
      if !staged {
        return false;
      }
      ok := img.Commit(disk, codec);
    }

    /**
     * The body of every batch loop: the staging call, then
     * `overwriteImg`. A record whose staging throws is not committed. A
     * shrink is `ShrinkOne`, a recompression `RecompressOne` and a
     * progressive conversion `ProgressiveOne`.
     */
    method Process(img: Image, a: Action) returns (ok: bool)
      requires img.Valid()
      modifies img`sharpImg, img`format, img`tempPath, img`tempExt, img`path, img`pathExt, img`stats, disk
      ensures img.Valid()
      ensures ok ==> img.Committed()
      ensures ok && a.Shrink? && Sound(codec) && old(img.stats).Some? && old(img.stats).value.width > a.width ==>
                img.stats.value.width == a.width
      ensures ok && a.Shrink? && old(img.stats).Some? && old(img.stats).value.width <= a.width ==>
                img.sharpImg == old(img.Pending(disk.files))
      ensures ok && a.Shrink? && Sound(codec) && old(img.sharpImg).None?
              && old(img.stats).Some? && old(img.stats) == old(MeasureFile(codec, disk.files, img.path))
              && old(img.stats).value.width <= a.width ==>
                img.stats.value.width == old(img.stats).value.width
      ensures ok && a.Recompress? ==> QualityInRange(img.format.value, a.quality)
      ensures ok && (a.Recompress? || a.Progressive?) ==> old(img.Pending(disk.files)).Some?
      ensures ok && a.Recompress? ==>
                img.sharpImg == Some(Then(old(img.Pending(disk.files)).value, EncoderFor(img.format.value, a.quality)))
      ensures ok && a.Progressive? ==>
                img.sharpImg == if img.format == Some(Jpeg) then Some(Then(old(img.Pending(disk.files)).value, ProgressiveJpeg))
                                else old(img.Pending(disk.files))
      ensures ok && !a.Retarget? ==> img.format == old(img.format)
      ensures ok && a.Recompress? ==> img.Recompressed(a.quality)
      ensures ok && a.Progressive? ==> img.ProgressiveIfJpeg()
      ensures ok && a.Retarget? ==> img.format == Some(a.target)
      ensures img.stats.Some? || img.stats == old(img.stats)
    {
      var staged;
      match a {
        case Shrink(w) =>
          ok := ShrinkOne(img, w);
          return;
        case Recompress(q) =>
          ok := RecompressOne(img, q);
          return;
        case Progressive =>
          ok := ProgressiveOne(img);
          return;
        case Retarget(f) => staged := img.Reformat(f, disk);
      }
      if !staged {
        return false;
      }
      ok := img.Commit(disk, codec);
    }

    /**
     * The `spinLoop` of a workflow: every selected record is processed
     * (`items.map` hands each to the callback), and the batch fails when
     * any of them fails (`Promise.all`).
     */
    method RunBatch(sel: seq<Image>, a: Action) returns (ok: bool)
      requires forall i :: i in sel ==> i.Valid()
      requires Distinct(sel)
      modifies sel, disk
      ensures forall i :: i in sel ==> i.Valid()
      ensures ok ==> forall i :: i in sel ==> i.Committed()
      ensures ok && a.Shrink? && Sound(codec) ==>
                forall i :: i in sel && old(i.stats).Some? && old(i.stats).value.width > a.width ==>
                  i.stats.Some? && i.stats.value.width == a.width
      ensures ok && a.Retarget? ==> forall i :: i in sel ==> i.format == Some(a.target)
      ensures ok && a.Recompress? ==> forall i :: i in sel ==> i.Recompressed(a.quality)
      ensures ok && a.Progressive? ==> forall i :: i in sel ==> i.ProgressiveIfJpeg()
      ensures forall i :: i in sel ==> i.stats.Some? || i.stats == old(i.stats)
      decreases |sel|
    {
      if sel == [] {
        return true;
      }
      var first := Process(sel[0], a);
      DistinctTail(sel);
      ok := RunBatch(sel[1..], a);
      ok := first && ok;
      assert forall i :: i in sel ==> i == sel[0] || i in sel[1..];
    }


    /**
     * The confirmation every workflow ends with, then its batch: nothing
     * is touched unless the user confirms, and measured records stay
     * measured.
     */
    method Proceed(sel: seq<Image>, a: Action, confirmed: bool) returns (o: Outcome)
      requires Valid() && Distinct(sel) && forall i :: i in sel ==> i in images
      modifies sel, disk
      ensures Valid()
      ensures o.Cancelled? || o.Done? || o.Failed?
      ensures o.Cancelled? <==> !confirmed
      ensures o.Cancelled? ==> unchanged(sel) && unchanged(disk)
      ensures !o.Cancelled? ==> o.selection == sel
      ensures old(Measured(images)) ==> Measured(images)
      ensures o.Done? ==> forall i :: i in sel ==> i.Committed()
      ensures o.Done? && a.Shrink? && Sound(codec) ==>
                forall i :: i in sel && old(i.stats).Some? && old(i.stats).value.width > a.width ==>
                  i.stats.Some? && i.stats.value.width == a.width
      ensures o.Done? && a.Retarget? ==> forall i :: i in sel ==> i.format == Some(a.target)
      ensures o.Done? && a.Recompress? ==> forall i :: i in sel ==> i.Recompressed(a.quality)
      ensures o.Done? && a.Progressive? ==> forall i :: i in sel ==> i.ProgressiveIfJpeg()
      ensures forall i :: i in sel ==> i.stats.Some? || i.stats == old(i.stats)
    {
      if !confirmed {
        return Cancelled;
      }
      var ok := RunBatch(sel, a);
      o := if ok then Done(sel) else Failed(sel);
    }

    /** `matchImagesByQuery`: the records whose path matches the glob `query`, in order. */
    method MatchImagesByQuery(query: string) returns (sel: seq<Image>)
      requires Valid()
      ensures sel == Select(images, PathMatch(isMatch, query))
      ensures Distinct(sel)
      ensures forall i :: i in sel <==> i in images && isMatch(i.path, query)
    {
      sel := Select(images, PathMatch(isMatch, query));
      SelectSpec(images, PathMatch(isMatch, query));
      SelectDistinct(images, PathMatch(isMatch, query));
    }

    /**
     * `queryImages`: the records whose path matches the query the user
     * settles on; the validator only lets through a query that matches.
     */
    method QueryImages(queries: seq<Option<string>>) returns (answer: Answer, sel: seq<Image>)
      requires Valid()
      ensures answer == Ask(QueryPrompt, images, isMatch, queries)
      ensures !answer.Given? ==> sel == []
      ensures answer.Given? ==>
                && sel == Select(images, PathMatch(isMatch, answer.value))
                && sel != [] && Distinct(sel)
                && forall i :: i in sel <==> i in images && isMatch(i.path, answer.value)
    {
      answer := Ask(QueryPrompt, images, isMatch, queries);
      if !answer.Given? {
        return answer, [];
      }
      sel := MatchImagesByQuery(answer.value);
    }

    /** `matchImagesByWidth`: the measured records strictly wider than `width`, in order. */
    method MatchImagesByWidth(width: int) returns (sel: seq<Image>)
      requires Valid() && Measured(images)
      ensures sel == Select(images, WiderThan(width))
      ensures Distinct(sel)
      ensures forall i :: i in sel <==> i in images && i.stats.value.width > width
    {
      sel := Select(images, WiderThan(width));
      SelectSpec(images, WiderThan(width));
      SelectDistinct(images, WiderThan(width));
    }

    /**
     * `resizeByMaxWidth`: asks for a maximum width, selects every image
     * wider than it, asks for confirmation and resizes them all. Afterwards
     * (with a codec that keeps its promises) every selected image is
     * exactly that wide and no image is wider.
     */
    method ResizeByMaxWidth(replies: seq<Option<string>>, confirmed: bool) returns (o: Outcome, width: int)
      requires Valid()
      modifies images, disk
      ensures Valid()
      ensures !confirmed ==> unchanged(disk) && forall i :: i in images ==> unchanged(i)
      ensures !old(found && Measured(images)) ==> o == Failed([])
      ensures o.Waiting? <==> old(found && Measured(images)) && old(Ask(MaxWidthPrompt, images, isMatch, replies)).Unanswered?
      ensures o.Done? ==>
                && old(found && Measured(images)) && confirmed
                && old(Ask(MaxWidthPrompt, images, isMatch, replies)).Given?
                && ParseInt(old(Ask(MaxWidthPrompt, images, isMatch, replies)).value) == Num(width)
                && width > 0
                && o.selection == old(Select(images, WiderThan(width))) && o.selection != []
                && Measured(images)
                && (Sound(codec) ==>
                      (forall i :: i in o.selection ==> i.stats.Some? && i.stats.value.width == width)
                      && Select(images, WiderThan(width)) == [])
    {
      width := 0;
      if !found || !Measured(images) {
        return Failed([]), 0;
      }
      var answer := Ask(MaxWidthPrompt, images, isMatch, replies);
      if answer.Unanswered? {
        return Waiting, 0;
      } else if answer.Cancel? {
        return Cancelled, 0;
      }
      width := ParseInt(answer.value).value;
      var sel := MatchImagesByWidth(width);
      assert forall k :: 0 <= k < |sel| ==> sel[k] in images;
      label Chosen:
      o := Proceed(sel, Shrink(width), confirmed);
      if o.Done? && Sound(codec) {
        forall i | i in sel ensures i.stats.Some? && i.stats.value.width == width {
          assert old@Chosen(i.stats).Some? && old@Chosen(i.stats).value.width > width;
        }
        forall i | i in images ensures !Keeps(WiderThan(width), i) {
          if i !in sel {
            assert i.stats == old(i.stats);
          }
        }
        SelectNone(images, WiderThan(width));
      }
    }

    /**
     * `resizeByQuery`: asks for a query, lists the matching images with
     * their widths, asks for a width above zero and for confirmation, and
     * resizes every matching image wider than that width.
     */
    method ResizeByQuery(queries: seq<Option<string>>, widths: seq<Option<string>>, confirmed: bool) returns (o: Outcome, width: int)
      requires Valid()
      modifies images, disk
      ensures Valid()
      ensures !confirmed ==> unchanged(disk) && forall i :: i in images ==> unchanged(i)
      ensures !old(found) ==> o == Failed([])
      ensures o.Waiting? ==>
                old(Ask(QueryPrompt, images, isMatch, queries)).Unanswered?
                || old(Ask(WidthPrompt, images, isMatch, widths)).Unanswered?
      ensures o.Done? ==>
                && old(found) && confirmed
                && old(Ask(QueryPrompt, images, isMatch, queries)).Given?
                && o.selection == old(Select(images, PathMatch(isMatch, Ask(QueryPrompt, images, isMatch, queries).value)))
                && o.selection != [] && old(Measured(o.selection))
                && old(Ask(WidthPrompt, images, isMatch, widths)).Given?
                && ParseInt(old(Ask(WidthPrompt, images, isMatch, widths)).value) == Num(width)
                && width > 0
                && (forall i :: i in o.selection ==> i.Committed())
                && (Sound(codec) ==>
                      forall i :: i in o.selection && old(i.stats.value.width) > width ==> i.stats.value.width == width)
    {
      width := 0;
      if !found {
        return Failed([]), 0;
      }
      var query, sel := QueryImages(queries);
      if query.Unanswered? {
        return Waiting, 0;
      } else if query.Cancel? {
        return Cancelled, 0;
      }
      if !Measured(sel) {
        return Failed([]), 0;
      }
      var answer := Ask(WidthPrompt, images, isMatch, widths);
      if answer.Unanswered? {
        return Waiting, 0;
      } else if answer.Cancel? {
        return Cancelled, 0;
      }
      width := ParseInt(answer.value).value;
      assert forall k :: 0 <= k < |sel| ==> sel[k] in images;
      o := Proceed(sel, Shrink(width), confirmed);
    }

    /**
     * `optimise`: asks for a query, lists the matching images with their
     * sizes, asks for a quality from 1 to 100 and for confirmation, and
     * re-encodes every matching image at that quality.
     */
    method Optimise(queries: seq<Option<string>>, qualities: seq<Option<string>>, confirmed: bool) returns (o: Outcome, quality: int)
      requires Valid()
      modifies images, disk
      ensures Valid()
      ensures !confirmed ==> unchanged(disk) && forall i :: i in images ==> unchanged(i)
      ensures !old(found) ==> o == Failed([])
      ensures o.Waiting? ==>
                old(Ask(QueryPrompt, images, isMatch, queries)).Unanswered?
                || old(Ask(QualityPrompt, images, isMatch, qualities)).Unanswered?
      ensures o.Done? ==>
                && old(found) && confirmed
                && old(Ask(QueryPrompt, images, isMatch, queries)).Given?
                && o.selection == old(Select(images, PathMatch(isMatch, Ask(QueryPrompt, images, isMatch, queries).value)))
                && o.selection != [] && old(Measured(o.selection))
                && old(Ask(QualityPrompt, images, isMatch, qualities)).Given?
                && ParseInt(old(Ask(QualityPrompt, images, isMatch, qualities)).value) == Num(quality)
                && 1 <= quality <= 100
                && (forall i :: i in o.selection ==> i.Committed())
                && (forall i :: i in o.selection ==> i.Recompressed(quality))
    {
      quality := 0;
      if !found {
        return Failed([]), 0;
      }
      var query, sel := QueryImages(queries);
      if query.Unanswered? {
        return Waiting, 0;
      } else if query.Cancel? {
        return Cancelled, 0;
      }
      if !Measured(sel) {
        return Failed([]), 0;
      }
      var answer := Ask(QualityPrompt, images, isMatch, qualities);
      if answer.Unanswered? {
        return Waiting, 0;
      } else if answer.Cancel? {
        return Cancelled, 0;
      }
      quality := ParseInt(answer.value).value;
      assert forall k :: 0 <= k < |sel| ==> sel[k] in images;
      o := Proceed(sel, Recompress(quality), confirmed);
    }

    /**
     * `reformat`: asks for a query, then for a target among JPEG, WebP and
     * AVIF (`None` standing for a cancelled choice), then for
     * confirmation, and converts every matching image to that format.
     */
    method Reformat(queries: seq<Option<string>>, target: Option<Format>, confirmed: bool) returns (o: Outcome)
      requires target != Some(Png)
      requires Valid()
      modifies images, disk
      ensures Valid()
      ensures !confirmed ==> unchanged(disk) && forall i :: i in images ==> unchanged(i)
      ensures !old(found) ==> o == Failed([])
      ensures o.Waiting? ==> old(Ask(QueryPrompt, images, isMatch, queries)).Unanswered?
      ensures o.Done? ==>
                && old(found) && confirmed && target.Some?
                && old(Ask(QueryPrompt, images, isMatch, queries)).Given?
                && o.selection == old(Select(images, PathMatch(isMatch, Ask(QueryPrompt, images, isMatch, queries).value)))
                && o.selection != []
                && forall i :: i in o.selection ==> i.Committed() && i.format == target
    {
      if !found {
        return Failed([]);
      }
      var query, sel := QueryImages(queries);
      if query.Unanswered? {
        return Waiting;
      } else if query.Cancel? || target.None? {
        return Cancelled;
      }
      assert forall k :: 0 <= k < |sel| ==> sel[k] in images;
      o := Proceed(sel, Retarget(target.value), confirmed);
    }

    /**
     * `progresiviseAll`: every image whose path matches `*.{jpg,jpeg}`;
     * when there is none it stops, otherwise it asks for confirmation and
     * makes them all progressive.
     */
    method ProgresiviseAll(confirmed: bool) returns (o: Outcome)
      requires Valid()
      modifies images, disk
      ensures Valid()
      ensures !confirmed ==> unchanged(disk) && forall i :: i in images ==> unchanged(i)
      ensures !old(found) ==> o == Failed([])
      ensures o.NoJpegs? <==> old(found) && old(Select(images, PathMatch(isMatch, JpegQuery))) == []
      ensures o.Done? ==>
                && old(found) && confirmed
                && o.selection == old(Select(images, PathMatch(isMatch, JpegQuery)))
                && o.selection != [] && old(Measured(o.selection))
                && (forall i :: i in o.selection ==> i.Committed())
                && forall i :: i in o.selection ==> i.ProgressiveIfJpeg()
    {
      if !found {
        return Failed([]);
      }
      var sel := MatchImagesByQuery(JpegQuery);
      if sel == [] {
        return NoJpegs;
      }
      if !Measured(sel) {
        return Failed([]);
      }
      assert forall k :: 0 <= k < |sel| ==> sel[k] in images;
      o := Proceed(sel, Progressive, confirmed);
    }

    /**
     * `progresiviseByQuery`: asks for queries until one matches a JPEG
     * (each round with its own replies), then asks for confirmation and
     * makes those JPEGs progressive.
     */
    method ProgresiviseByQuery(rounds: seq<seq<Option<string>>>, confirmed: bool) returns (o: Outcome)
      requires Valid()
      modifies images, disk
      ensures Valid()
      ensures !confirmed ==> unchanged(disk) && forall i :: i in images ==> unchanged(i)
      ensures !old(found) ==> o == Failed([])
      ensures o.Waiting? <==> old(found) && old(PickJpegs(images, isMatch, rounds)).Open?
      ensures o.Done? ==>
                && old(found) && confirmed
                && old(PickJpegs(images, isMatch, rounds)).Picked?
                && o.selection == old(PickJpegs(images, isMatch, rounds)).jpegs
                && old(Measured(o.selection))
                && (forall i :: i in o.selection ==> i.Committed())
                && forall i :: i in o.selection ==> i.ProgressiveIfJpeg()
    {
      if !found {
        return Failed([]);
      }
      var pick := PickJpegs(images, isMatch, rounds);
      if pick.Open? {
        return Waiting;
      } else if pick.Quit? {
        return Cancelled;
      }
      var matched := Select(images, PathMatch(isMatch, pick.query));
      SelectSpec(images, PathMatch(isMatch, pick.query));
      SelectDistinct(images, PathMatch(isMatch, pick.query));
      SelectWithin(images, PathMatch(isMatch, pick.query));
      var sel := pick.jpegs;
      SelectWithin(matched, JpegBase);
      SelectDistinct(matched, JpegBase);
      if !Measured(sel) {
        return Failed([]);
      }
      assert forall k :: 0 <= k < |sel| ==> sel[k] in images;
      o := Proceed(sel, Progressive, confirmed);
    }
  }
}
