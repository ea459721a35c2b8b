/**
 * The per-image record of src/image.ts: its extension classifier, its
 * measurement rule, and the `Image` object whose staging calls record
 * sharp operations on a pending pipeline and whose `overwriteImg` commits
 * them through a temporary file.
 */
module ImageRecord {
  import opened Wrappers
  import opened Paths
  import opened Codec
  import opened Disk

  /** `Stats` of src/image.ts: pixel width and height, and size in KB. */
  datatype Stats = Stats(width: nat, height: nat, size: nat)

  /** `Math.ceil(bytes / 1024)`: the least number of whole KB that holds the bytes. */
  function KiB(bytes: nat): (kb: nat)
    ensures kb * 1024 >= bytes
    ensures kb > 0 ==> (kb - 1) * 1024 < bytes
  {
    (bytes + 1023) / 1024
  }

  /** Lower-casing keeps the length and a leading dot. */
  lemma LowerKeepsDot(e: string)
    ensures |Lower(e)| == |e|
    ensures e != [] ==> (Lower(e)[0] == '.' <==> e[0] == '.')
  {
  }

  /** The lower-cased extensions `getType` recognises. */
  const KnownExtensions: set<string> := {".png", ".jpg", ".jpeg", ".webp", ".avif"}

  /**
   * The `switch` of `getType` on a lower-cased extension: `.png`, `.jpg` or
   * `.jpeg`, `.webp`, `.avif`, and nothing else.
   */
  function TypeOfExtension(e: string): (r: Option<Format>)
    ensures r.Some? ==> 4 <= |e| <= 5 && e[0] == '.'
  {
    LowerKeepsDot(e);
    var l := Lower(e);
    if l == ".png" then Some(Png)
    else if l == ".jpg" || l == ".jpeg" then Some(Jpeg)
    else if l == ".webp" then Some(Webp)
    else if l == ".avif" then Some(Avif)
    else None
  }

  /** `getType`: the format named by the path's extension, in any case. */
  function GetType(p: string): (r: Option<Format>)
    ensures Ext(p) == [] ==> r.None?
  {
    TypeOfExtension(Ext(p))
  }

  /**
   * Exactly the known extensions have a format, and each names its own
   * format, `.jpg` standing for JPEG too.
   */
  lemma TypeOfExtensionSpec(e: string)
    ensures TypeOfExtension(e).Some? <==> Lower(e) in KnownExtensions
    ensures TypeOfExtension(e).Some? ==>
              Lower(e) == "." + FormatName(TypeOfExtension(e).value)
              || (TypeOfExtension(e) == Some(Jpeg) && Lower(e) == ".jpg")
  {
  }

  /** Upper-casing an extension does not change the format it names. */
  lemma TypeIgnoresCase(e: string)
    ensures TypeOfExtension(Upper(e)) == TypeOfExtension(e)
  {
    LowerOfUpper(e);
  }

  /** A format's own name, as an extension, names that format. */
  lemma TypeOfFormatName(f: Format)
    ensures TypeOfExtension("." + FormatName(f)) == Some(f)
  {
    var e := "." + FormatName(f);
    match f {
      case Png => assert e == ".png";
      case Jpeg => assert e == ".jpeg";
      case Webp => assert e == ".webp";
      case Avif => assert e == ".avif";
    }
    LowerOfLower(e);
  }

  /** A format's name can stand as an extension. */
  lemma FormatNameIsWord(f: Format)
    ensures Word(FormatName(f))
  {
    var n := FormatName(f);
    forall k | 0 <= k < |n| ensures n[k] != '.' && n[k] != '/' {
      match f {
        case Png => assert n == "png";
        case Jpeg => assert n == "jpeg";
        case Webp => assert n == "webp";
        case Avif => assert n == "avif";
      }
    }
  }

  /** Every recognised extension is a dot and at least three more characters. */
  lemma KnownExtensionLength(e: string)
    requires TypeOfExtension(e).Some?
    ensures |e| >= 4
  {
    TypeOfExtensionSpec(e);
    assert |Lower(e)| >= 4;
  }

  /**
   * After `replaceExtension(p, f)` the path's format is `f`: the round trip
   * `overwriteImg` relies on when it renames a reformatted image.
   */
  lemma TypeOfRenamed(p: string, f: Format)
    requires Base(p) != []
    ensures GetType(ReplaceExtension(p, FormatName(f))) == Some(f)
  {
    ReplaceExtensionParts(p, FormatName(f));
    TypeOfFormatName(f);
  }

  /** A path with a recognised extension: a stem, a dot, and a one-word extension. */
  lemma TypedPathShape(p: string)
    requires GetType(p).Some?
    ensures Ext(p) == "." + Ext(p)[1..] && Word(Ext(p)[1..])
    ensures Stem(p) != [] && NoSlash(Stem(p)) && Base(p) != []
    ensures p == DirPrefix(p) + Stem(p) + "." + Ext(p)[1..] && DirLike(DirPrefix(p))
    ensures GetType(p) == TypeOfExtension("." + Ext(p)[1..])
  {
    KnownExtensionLength(Ext(p));
    WithExtension(p);
  }

  /** A recognised path split into the parts a new record keeps, and where its temporary file goes. */
  lemma NewRecordParts(p: string, id: string) returns (d: string, s: string, w: string)
    requires GetType(p).Some?
    ensures DirLike(d) && s != [] && NoSlash(s) && Word(w)
    ensures p == d + s + "." + w && Uniqify(p, id) == d + (s + ".temp." + id) + "." + w
    ensures TypeOfExtension("." + w) == GetType(p)
  {
    TypedPathShape(p);
    UniqifyRegroup(p, id);
    d, s, w := DirPrefix(p), Stem(p), Ext(p)[1..];
  }

  /** Bytes `getStats` accepts: image-size reads them with a non-zero width and height. */
  predicate Measurable(c: Codec, bytes: seq<int>)
  {
    c.measure(bytes).Some? && c.measure(bytes).value.width > 0 && c.measure(bytes).value.height > 0
  }

  /** A stored measurement is the width image-size reports for the file. */
  lemma MeasuredWidth(c: Codec, files: map<string, seq<int>>, p: string)
    requires MeasureFile(c, files, p).Some?
    ensures p in files && c.measure(files[p]).Some?
    ensures c.measure(files[p]).value.width == MeasureFile(c, files, p).value.width
  {
  }

  /**
   * What `getStats` stores: it fails when the file is missing or image-size
   * reports no width or height, or a zero one; otherwise width and height
   * as measured and the size rounded up to whole KB.
   */
  function MeasureFile(c: Codec, files: map<string, seq<int>>, p: string): (r: Option<Stats>)
    ensures r.Some? <==> p in files && Measurable(c, files[p])
    ensures r.Some? ==> r.value.width > 0 && r.value.height > 0 && r.value.size == KiB(|files[p]|)
  {
    if p !in files then None
    else match c.measure(files[p])
      case None => None
      case Some(d) =>
        if d.width == 0 || d.height == 0 then None
        else Some(Stats(d.width, d.height, KiB(|files[p]|)))
  }

  /**
   * `getStats` succeeds exactly for an existing file image-size reads with
   * a non-zero width and height, and then reports those and the size in
   * whole KB, rounded up.
   */
  lemma MeasureFileSpec(c: Codec, files: map<string, seq<int>>, p: string)
    ensures var r := MeasureFile(c, files, p);
            && (r.Some? <==> p in files && Measurable(c, files[p]))
            && (r.Some? ==> r.value.width == c.measure(files[p]).value.width
                            && r.value.height == c.measure(files[p]).value.height
                            && r.value.size * 1024 >= |files[p]| > (r.value.size - 1) * 1024)
  {
  }

  /**
   * The encoder `optimise` picks for a format: the record's own format at
   * the given quality, lossless only for webp and optimised scans only
   * for JPEG.
   */
  function EncoderFor(f: Format, quality: int): (op: Op)
    ensures op.Encode? && op.format == f && op.options.quality == Some(quality)
    ensures op.options.lossless <==> f == Webp
    ensures op.options.optimiseScans <==> f == Jpeg
  {
    match f
    case Png => Encode(Png, EncodeOptions(Some(quality), false, false))
    case Jpeg => Encode(Jpeg, EncodeOptions(Some(quality), false, true))
    case Webp => Encode(Webp, EncodeOptions(Some(quality), true, false))
    case Avif => Encode(Avif, EncodeOptions(Some(quality), false, false))
  }

  /** The qualities sharp's encoder for a format accepts: 0 to 100 for PNG, 1 to 100 for the others. */
  predicate QualityInRange(f: Format, quality: int)
  {
    if f == Png then 0 <= quality <= 100 else 1 <= quality <= 100
  }

  /** The call `makeProgressive` stages: `jpeg({ optimiseScans: true })`. */
  const ProgressiveJpeg: Op := Encode(Jpeg, EncodeOptions(None, false, true))

  /** The value of an image record's fields at one moment. */
  datatype ImageView = ImageView(
    path: string, tempPath: string, format: Option<Format>,
    stats: Option<Stats>, sharpImg: Option<Pipeline>)

  /**
   * `overwriteImg`'s final path: the old one renamed to the record's format
   * when the old path's extension names another format.
   */
  function CommitPath(oldPath: string, format: Format): (p: string)
    ensures GetType(oldPath) == Some(format) ==> p == oldPath
    ensures Base(oldPath) != [] ==> GetType(p) == Some(format)
  {
    if GetType(oldPath) != Some(format) then
      if Base(oldPath) != [] then
        TypeOfRenamed(oldPath, format);
        ReplaceExtension(oldPath, FormatName(format))
      else ReplaceExtension(oldPath, FormatName(format))
    else oldPath
  }

  /** What `toBuffer()` yields for a pipeline: the encoded bytes, or None when sharp rejects. */
  function Encoded(c: Codec, p: Pipeline): Option<seq<int>>
  {
    c.encode(p.source, p.ops)
  }

  /**
   * The path a commit writes to, for an image path built from its parts:
   * the same directory and stem, with an extension naming the format.
   */
  lemma CommitPathParts(d: string, s: string, w: string, f: Format)
    requires DirLike(d) && s != [] && NoSlash(s) && Word(w)
    ensures var p := d + s + "." + w;
            CommitPath(p, f) == d + s + "." + (if GetType(p) == Some(f) then w else FormatName(f))
    ensures GetType(CommitPath(d + s + "." + w, f)) == Some(f)
  {
    var p := d + s + "." + w;
    PartsOf(d, s, w);
    if GetType(p) != Some(f) {
      FormatNameIsWord(f);
      TypeOfRenamed(p, f);
      RenamePath(d, s, w, FormatName(f));
    }
  }

  /**
   * Writing `v` to `t`, deleting `p0`, copying `t` to `p` and deleting `t`
   * leaves the files as if `p0` and `t` were deleted and `v` written to `p`.
   */
  lemma ThroughTemporary<K, V>(files: map<K, V>, t: K, p0: K, p: K, v: V)
    requires t != p0 && t != p
    ensures ((files[t := v] - {p0})[p := (files[t := v] - {p0})[t]]) - {t} == (files - {p0, t})[p := v]
  {
  }

  /**
   * `replaceExtension(p, e)` on a path known by its parts `d`, `s`, `w`:
   * the record's two renamings go through here.
   */
  method RenameExtension(p: string, e: string, ghost d: string, ghost s: string, ghost w: string)
    returns (r: string)
    requires DirLike(d) && s != [] && NoSlash(s) && Word(w) && p == d + s + "." + w
    ensures r == ReplaceExtension(p, e) == d + s + "." + e
  {
    RenamePath(d, s, w, e);
    r := ReplaceExtension(p, e);
  }

  class Image {
    /** Path of the image file as it is on disk now. */
    var path: string
    /** Path of the temporary file a commit writes first. */
    var tempPath: string
    /** `type` in the source (a reserved word here): the format as most recently staged. */
    var format: Option<Format>
    /** Last measurement, if any. */
    var stats: Option<Stats>
    /** The pending sharp instance, created on first use and then kept. */
    var sharpImg: Option<Pipeline>

    /** The directory and stem every path of this record shares, and the random id. */
    ghost const dir: string
    ghost const stem: string
    ghost const id: string
    /** The stem of the temporary path: `stem + ".temp." + id`. */
    ghost const tempStem: string
    /** The extensions (without their dot) of `path` and `tempPath`. */
    ghost var pathExt: string
    ghost var tempExt: string

    /**
     * Both paths are built from their parts: the temporary one sits beside
     * the image under the stem `<stem>.temp.<id>`, and its extension names
     * the format; a staged output method never disagrees with the format.
     */
    ghost predicate Valid()
      reads this
    {
      && DirLike(dir) && stem != [] && NoSlash(stem) && IdLike(id)
      && tempStem == stem + ".temp." + id
      && Word(pathExt) && Word(tempExt)
      && path == dir + stem + "." + pathExt
      && tempPath == dir + tempStem + "." + tempExt
      && format.Some? && TypeOfExtension("." + tempExt) == format
      && (sharpImg.Some? ==> LastFormat(sharpImg.value.ops) in {None, format})
    }

    /** The image file and its temporary file are never the same file. */
    lemma Apart()
      requires Valid()
      ensures path != tempPath
    {
      TempRegroup(dir, stem, id, tempExt);
      NotTempPath(dir, stem, pathExt, id, tempExt);
    }

    /** The state a successful `overwriteImg` leaves: measured, and the path's extension names the format. */
    predicate Committed()
      reads this
    {
      stats.Some? && GetType(path) == format
    }

    /** The newest call staged on the kept pipeline is `op`. */
    predicate StagedLast(op: Op)
      reads this
    {
      sharpImg.Some? && sharpImg.value.ops != [] && sharpImg.value.ops[|sharpImg.value.ops| - 1] == op
    }

    /** What a committed `optimise(quality)` leaves: the format's encoder at that quality staged last. */
    predicate Recompressed(quality: int)
      reads this
    {
      format.Some? && StagedLast(EncoderFor(format.value, quality))
    }

    /** What a committed `makeProgressive()` leaves: progressive output staged last on a JPEG record. */
    predicate ProgressiveIfJpeg()
      reads this
    {
      format == Some(Jpeg) ==> StagedLast(ProgressiveJpeg)
    }

    function View(): ImageView
      reads this
    {
      ImageView(path, tempPath, format, stats, sharpImg)
    }

    /**
     * The pipeline `getSharpImg` returns: the kept one, or a fresh one over
     * the bytes now at `path` (None when `readFileSync` would throw).
     */
    function Pending(files: map<string, seq<int>>): Option<Pipeline>
      reads this
    {
      if sharpImg.Some? then sharpImg
      else if path in files then Some(Pipeline(files[path], []))
      else None
    }

    /** `new Image(imgPath, rootDir)`, `nanoid` being the id `uniqifyBasename` draws. */
    constructor (imgPath: string, nanoid: string)
      requires GetType(imgPath).Some? && IdLike(nanoid)
      ensures Valid()
      ensures path == imgPath && tempPath == Uniqify(imgPath, nanoid) && format == GetType(imgPath)
      ensures stats == None && sharpImg == None
    {
      ghost var d, s, w := NewRecordParts(imgPath, nanoid);
      path := imgPath;
      tempPath := Uniqify(imgPath, nanoid);
      format := GetType(imgPath);
      stats := None;
      sharpImg := None;
      dir := d;
      stem := s;
      id := nanoid;
      tempStem := s + ".temp." + nanoid;
      pathExt := w;
      tempExt := w;
    }

    /** `getStats`: measures the file at `path` and stores the result. */
    method GetStats(disk: FileSystem, c: Codec) returns (r: Option<Stats>)
      requires Valid()
      modifies this`stats
      ensures Valid()
      ensures r == MeasureFile(c, disk.files, path)
      ensures stats == if r.Some? then r else old(stats)
    {
      r := MeasureFile(c, disk.files, path);
      if r.Some? {
        stats := r;
      }
    }

    /** `getSharpImg`: creates the pipeline from the file on first use and keeps it. */
    method GetSharpImg(disk: FileSystem) returns (ok: bool)
      requires Valid()
      modifies this`sharpImg
      ensures Valid()
      ensures ok == old(Pending(disk.files)).Some?
      ensures sharpImg == if ok then old(Pending(disk.files)) else old(sharpImg)
    {
      if sharpImg.Some? {
        return true;
      }
      var bytes := disk.Read(path);
      if bytes.None? {
        return false;
      }
      sharpImg := Some(Pipeline(bytes.value, []));
      ok := true;
    }

    /**
     * `resize(width)`: stages a resize only when the measured width exceeds
     * `width`, so it never enlarges. It throws when the file cannot be read,
     * when there is no measurement, and when sharp rejects a width below 1.
     */
    method Resize(width: int, disk: FileSystem) returns (ok: bool)
      requires Valid()
      modifies this`sharpImg
      ensures Valid()
      ensures ok <==> old(Pending(disk.files)).Some? && stats.Some?
                      && (stats.value.width > width ==> width > 0)
      ensures var p := old(Pending(disk.files));
              sharpImg == if p.None? then old(sharpImg)
                          else if ok && stats.value.width > width then Some(Then(p.value, ResizeTo(width)))
                          else p
      ensures ok && stats.value.width > width ==> LastResize(sharpImg.value.ops) == Some(width)
    {
      ok := GetSharpImg(disk);
      if !ok {
        return;
      }
      if stats.None? {
        return false;
      }
      if stats.value.width <= width {
        return;
      }
      if width <= 0 {
        return false;
      }
      StageOne(sharpImg.value.ops, ResizeTo(width));
      sharpImg := Some(Then(sharpImg.value, ResizeTo(width)));
    }

    /**
     * `optimise(quality)`: stages the encoder for the record's format, with
     * lossless forced for webp; sharp throws for a quality outside 0..100
     * for PNG and outside 1..100 for the other formats.
     */
    method Optimise(quality: int, disk: FileSystem) returns (ok: bool)
      requires Valid()
      modifies this`sharpImg
      ensures Valid()
      ensures ok <==> old(Pending(disk.files)).Some? && QualityInRange(format.value, quality)
      ensures var p := old(Pending(disk.files));
              sharpImg == if p.None? then old(sharpImg)
                          else if ok then Some(Then(p.value, EncoderFor(format.value, quality)))
                          else p
    {
      ok := GetSharpImg(disk);
      if !ok {
        return;
      }
      if !QualityInRange(format.value, quality) {
        return false;
      }
      StageOne(sharpImg.value.ops, EncoderFor(format.value, quality));
      sharpImg := Some(Then(sharpImg.value, EncoderFor(format.value, quality)));
    }

    /**
     * `reformat(format)`: nothing at all when `target` is already the
     * record's format; otherwise it stages the conversion and, before any
     * commit, sets the format and gives the temporary path the new extension.
     */
    method Reformat(target: Format, disk: FileSystem) returns (ok: bool)
      requires Valid()
      modifies this`sharpImg, this`format, this`tempPath, this`tempExt
      ensures Valid()
      ensures path == old(path)
      ensures old(format) == Some(target) ==> ok && View() == old(View())
      ensures old(format) != Some(target) ==> ok == old(Pending(disk.files)).Some?
      ensures old(format) != Some(target) && ok ==>
                format == Some(target)
                && tempPath == ReplaceExtension(old(tempPath), FormatName(target))
                && sharpImg == Some(Then(old(Pending(disk.files)).value, Encode(target, Defaults)))
      ensures !ok ==> View() == old(View())
    {
      if format == Some(target) {
        return true;
      }
      ok := GetSharpImg(disk);
      if ok {
        Convert(target);
      }
    }

    /** The second half of `reformat`: stage the conversion, retype, rename the temporary file. */
    method Convert(target: Format)
      requires Valid() && sharpImg.Some?
      modifies this`sharpImg, this`format, this`tempPath, this`tempExt
      ensures Valid()
      ensures format == Some(target)
      ensures tempPath == ReplaceExtension(old(tempPath), FormatName(target))
      ensures sharpImg == Some(Then(old(sharpImg.value), Encode(target, Defaults)))
    {
      TempStemShape(stem, id);
      FormatNameIsWord(target);
      TypeOfFormatName(target);
      StageOne(sharpImg.value.ops, Encode(target, Defaults));
      sharpImg := Some(Then(sharpImg.value, Encode(target, Defaults)));
      format := Some(target);
      tempPath := RenameExtension(tempPath, FormatName(target), dir, tempStem, tempExt);
      tempExt := FormatName(target);
    }

    /** `makeProgressive()`: stages progressive JPEG output, for JPEG records only. */
    method MakeProgressive(disk: FileSystem) returns (ok: bool)
      requires Valid()
      modifies this`sharpImg
      ensures Valid()
      ensures ok == old(Pending(disk.files)).Some?
      ensures var p := old(Pending(disk.files));
              sharpImg == if p.None? then old(sharpImg)
                          else if format == Some(Jpeg) then Some(Then(p.value, ProgressiveJpeg))
                          else p
    {
      ok := GetSharpImg(disk);
      if !ok {
        return;
      }
      if format == Some(Jpeg) {
        StageOne(sharpImg.value.ops, ProgressiveJpeg);
        sharpImg := Some(Then(sharpImg.value, ProgressiveJpeg));
      }
    }

    /**
     * `overwriteImg()`: encodes the pipeline, writes the result to the
     * temporary path, deletes the original, renames the path to the
     * record's format when its extension names another one, copies the
     * temporary file there, deletes the temporary file and measures the
     * result. Each step throws the way its call does.
     */
    method Commit(disk: FileSystem, c: Codec) returns (ok: bool)
      requires Valid()
      modifies this`sharpImg, this`path, this`pathExt, this`stats, disk
      ensures Valid()
      ensures var p := old(Pending(disk.files));
              ok <==> p.Some? && Encoded(c, p.value).Some? && old(path) in old(disk.files)
                      && Measurable(c, Encoded(c, p.value).value)
      ensures ok ==> sharpImg == old(Pending(disk.files))
                     && path == CommitPath(old(path), format.value)
                     && GetType(path) == format
                     && disk.files == (old(disk.files) - {old(path), tempPath})[path := Encoded(c, sharpImg.value).value]
                     && stats == MeasureFile(c, disk.files, path) && stats.Some?
      ensures ok && Sound(c) && LastResize(sharpImg.value.ops).Some? ==>
                stats.value.width == LastResize(sharpImg.value.ops).value
      ensures ok && Sound(c) && LastResize(sharpImg.value.ops).None? && c.measure(sharpImg.value.source).Some? ==>
                stats.value.width == c.measure(sharpImg.value.source).value.width
      ensures !ok ==> stats == old(stats)
      ensures !ok && (old(Pending(disk.files)).None? || Encoded(c, old(Pending(disk.files)).value).None?) ==>
                disk.files == old(disk.files) && path == old(path)
      ensures var p := old(Pending(disk.files));
              p.Some? && Encoded(c, p.value).Some? && old(path) !in old(disk.files) ==>
                path == old(path) && disk.files == old(disk.files)[tempPath := Encoded(c, p.value).value]
      ensures var p := old(Pending(disk.files));
              p.Some? && Encoded(c, p.value).Some? && old(path) in old(disk.files) ==>
                path == CommitPath(old(path), format.value)
                && disk.files == (old(disk.files) - {old(path), tempPath})[path := Encoded(c, p.value).value]
    {
      ok := GetSharpImg(disk);
      if !ok {
        return;
      }
      var buffer := Encoded(c, sharpImg.value);
      if buffer.None? {
        return false;
      }
      ok := Store(disk, c, buffer.value);
    }

    /** The rest of `overwriteImg` once `toBuffer()` has produced the bytes. */
    method Store(disk: FileSystem, c: Codec, bytes: seq<int>) returns (ok: bool)
      requires Valid()
      modifies this`path, this`pathExt, this`stats, disk
      ensures Valid()
      ensures ok <==> old(path) in old(disk.files) && Measurable(c, bytes)
      ensures ok ==> path == CommitPath(old(path), format.value)
                     && GetType(path) == format
                     && disk.files == (old(disk.files) - {old(path), tempPath})[path := bytes]
                     && stats == MeasureFile(c, disk.files, path) && stats.Some?
                     && stats.value.width == c.measure(bytes).value.width
      ensures !ok ==> stats == old(stats)
      ensures old(path) !in old(disk.files) ==>
                path == old(path) && disk.files == old(disk.files)[tempPath := bytes]
      ensures old(path) in old(disk.files) ==>
                path == CommitPath(old(path), format.value)
                && disk.files == (old(disk.files) - {old(path), tempPath})[path := bytes]
    {
      ok := Install(disk, bytes);
      if !ok {
        return;
      }
      MeasureFileSpec(c, disk.files, path);
      var measured := GetStats(disk, c);
      ok := measured.Some?;
    }

    /**
     * The file steps of `overwriteImg` once the bytes are encoded: write
     * the temporary file, delete the original (which throws when it is
     * already gone), rename, copy back and delete the temporary file. The
     * copy and the last delete cannot fail, because the temporary path
     * never equals the image path.
     */
    method Install(disk: FileSystem, bytes: seq<int>) returns (ok: bool)
      requires Valid()
      modifies this`path, this`pathExt, disk
      ensures Valid()
      ensures ok == (old(path) in old(disk.files))
      ensures ok ==> path == CommitPath(old(path), format.value) && GetType(path) == format
                     && disk.files == (old(disk.files) - {old(path), tempPath})[path := bytes]
      ensures !ok ==> path == old(path) && disk.files == old(disk.files)[tempPath := bytes]
    {
      Apart();
      ghost var before := disk.files;
      ghost var original := path;
      disk.Write(tempPath, bytes);
      ok := disk.Unlink(path);
      if !ok {
        return;
      }
      Rename();
      var copied := disk.Copy(tempPath, path);
      var cleaned := disk.Unlink(tempPath);
      assert copied && cleaned;
      ThroughTemporary(before, tempPath, original, path, bytes);
    }

    /**
     * A fresh record measured, resized to `width` and committed: with a
     * codec that keeps its promises the new width is `width` when the
     * image was wider, and the width it had otherwise, so a resize never
     * enlarges an image.
     */
    method MeasureResizeCommit(width: int, disk: FileSystem, c: Codec) returns (ok: bool)
      requires Valid() && sharpImg.None?
      modifies this`sharpImg, this`path, this`pathExt, this`stats, disk
      ensures Valid()
      ensures ok ==> var m := MeasureFile(c, old(disk.files), old(path));
                     && m.Some? && stats.Some?
                     && (Sound(c) ==> stats.value.width == if m.value.width > width then width else m.value.width)
    {
      var measured := GetStats(disk, c);
      if measured.None? {
        return false;
      }
      ok := Resize(width, disk);
      if !ok {
        return;
      }
      ok := Commit(disk, c);
    }

    /** `this.path = replaceExtension(this.path, this.type)` when the extension names another format. */
    method Rename()
      requires Valid()
      modifies this`path, this`pathExt
      ensures Valid()
      ensures path == CommitPath(old(path), format.value) && GetType(path) == format
      ensures path != tempPath
    {
      CommitPathParts(dir, stem, pathExt, format.value);
      if GetType(path) != format {
        FormatNameIsWord(format.value);
        path := RenameExtension(path, FormatName(format.value), dir, stem, pathExt);
        pathExt := FormatName(format.value);
      }
      Apart();
    }
  }
}
