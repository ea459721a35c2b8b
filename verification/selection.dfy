/**
 * The selections `Savile` makes over its image records in src/index.ts:
 * the threshold filters behind `logImageFileSize`, `logImageWidth` and
 * `matchImagesByWidth`, the glob filter of `matchImagesByQuery` (the glob
 * matcher itself is a parameter), and the base-name JPEG filter of
 * `progresiviseByQuery`. Every filter keeps the records it accepts, in
 * their order.
 */
module Selection {
  import opened Wrappers
  import opened Paths
  import opened Codec
  import opened ImageRecord

  datatype Metric = Size | Width

  /** What a selection keeps. */
  datatype Criterion =
    /** `stats!.<metric>` strictly above `above` (when given) and at most `atMost` (when given). */
    | Band(metric: Metric, above: Option<int>, atMost: Option<int>)
    /** `micromatch.isMatch(path, query, { contains: true, nocase: true })`. */
    | PathMatch(isMatch: (string, string) -> bool, query: string)
    /** `micromatch.isMatch(basename(path), '*.{jpg,jpeg}', { nocase: true })`. */
    | JpegBase

  function Measure(m: Metric, s: Stats): nat
  {
    match m
    case Size => s.size
    case Width => s.width
  }

  /** Every record has been measured, as the `stats!` of the filters takes for granted. */
  predicate Measured(imgs: seq<Image>)
    reads imgs
  {
    forall i :: i in imgs ==> i.stats.Some?
  }

  /**
   * micromatch's `*.{jpg,jpeg}` against a base name, ignoring case: `*`
   * matches no leading dot, so the name must not start with one, and it
   * must end in `.jpg` or `.jpeg`.
   */
  predicate IsJpegName(b: string)
  {
    var l := Lower(b);
    && b != [] && b[0] != '.'
    && ((|l| >= 4 && l[|l| - 4..] == ".jpg") || (|l| >= 5 && l[|l| - 5..] == ".jpeg"))
  }

  /** Lower-casing a suffix is the suffix of the lower-cased string. */
  lemma LowerSuffix(b: string, i: nat)
    requires i <= |b|
    ensures Lower(b)[i..] == Lower(b[i..])
  {
  }

  /** Lower-casing turns a character into a dot exactly when it is one. */
  lemma LowerDot(c: char)
    ensures LowerChar(c) == '.' <==> c == '.'
  {
  }

  /**
   * A base name ending in `.jpg` or `.jpeg` (in any case) has that ending
   * as its extension, so the filter and `getType` agree on it.
   */
  lemma JpegEnding(b: string, n: nat)
    requires n == 4 || n == 5
    requires b != [] && b[0] != '.' && |b| >= n
    requires Lower(b)[|b| - n..] == (if n == 4 then ".jpg" else ".jpeg")
    ensures ExtStart(b) == |b| - n
  {
    var e := b[|b| - n..];
    LowerSuffix(b, |b| - n);
    assert Lower(e)[0] == '.';
    LowerDot(e[0]);
    forall k | |b| - n < k < |b| ensures b[k] != '.' {
      assert Lower(e)[k - (|b| - n)] != '.';
      LowerDot(b[k]);
    }
    LastIndexIsLast(b, '.');
    assert LastIndex(b, '.') == |b| - n;
  }

  /**
   * The JPEG filter of `progresiviseByQuery` keeps exactly the files
   * `getType` calls JPEG, except those whose name starts with a dot.
   */
  lemma JpegNameSpec(p: string)
    ensures IsJpegName(Base(p)) <==> Base(p) != [] && Base(p)[0] != '.' && GetType(p) == Some(Jpeg)
  {
    if IsJpegName(Base(p)) {
      JpegNameIsJpeg(p);
    }
    if Base(p) != [] && Base(p)[0] != '.' && GetType(p) == Some(Jpeg) {
      JpegIsJpegName(p);
    }
  }

  lemma JpegNameIsJpeg(p: string)
    requires IsJpegName(Base(p))
    ensures GetType(p) == Some(Jpeg)
  {
    var b := Base(p);
    var l := Lower(b);
    var n := if |l| >= 4 && l[|l| - 4..] == ".jpg" then 4 else 5;
    JpegEnding(b, n);
    LowerSuffix(b, |b| - n);
  }

  lemma JpegIsJpegName(p: string)
    requires Base(p) != [] && Base(p)[0] != '.' && GetType(p) == Some(Jpeg)
    ensures IsJpegName(Base(p))
  {
    var b := Base(p);
    var i := ExtStart(b);
    JpegExtension(b[i..]);
    LowerSuffix(b, i);
    EndsWith(Lower(b), i, Lower(b[i..]));
  }

  /** An extension `getType` calls JPEG is `.jpg` or `.jpeg` in some case. */
  lemma JpegExtension(e: string)
    requires TypeOfExtension(e) == Some(Jpeg)
    ensures Lower(e) == ".jpg" || Lower(e) == ".jpeg"
  {
  }

  lemma EndsWith(l: string, i: nat, e: string)
    requires i <= |l| && l[i..] == e
    ensures |l| >= |e| && l[|l| - |e|..] == e
  {
  }

  predicate Keeps(c: Criterion, i: Image)
    requires c.Band? ==> i.stats.Some?
    reads i
  {
    match c
    case Band(m, above, atMost) =>
      var v := Measure(m, i.stats.value);
      (above.None? || v > above.value) && (atMost.None? || v <= atMost.value)
    case PathMatch(isMatch, query) => isMatch(i.path, query)
    case JpegBase => IsJpegName(Base(i.path))
  }

  /** `images.filter(...)` with the test `c`. */
  function Select(imgs: seq<Image>, c: Criterion): (r: seq<Image>)
    requires c.Band? ==> Measured(imgs)
    reads imgs
    ensures |r| <= |imgs|
  {
    if imgs == [] then []
    else (if Keeps(c, imgs[0]) then [imgs[0]] else []) + Select(imgs[1..], c)
  }

  /** `matchImagesByWidth(width)`: the records strictly wider than `width`. */
  function WiderThan(width: int): Criterion
  {
    Band(Width, Some(width), None)
  }

  /** A selection holds exactly the records that pass the test, and no more of them than there are. */
  lemma {:induction false} SelectSpec(imgs: seq<Image>, c: Criterion)
    requires c.Band? ==> Measured(imgs)
    ensures |Select(imgs, c)| <= |imgs|
    ensures forall i :: i in Select(imgs, c) <==> i in imgs && Keeps(c, i)
  {
    if imgs != [] {
      SelectSpec(imgs[1..], c);
      assert forall i :: i in imgs <==> i == imgs[0] || i in imgs[1..];
    }
  }

  /** Every record a selection holds, position by position, is one of the records it was drawn from. */
  lemma SelectWithin(imgs: seq<Image>, c: Criterion)
    requires c.Band? ==> Measured(imgs)
    ensures forall k :: 0 <= k < |Select(imgs, c)| ==> Select(imgs, c)[k] in imgs
  {
    SelectSpec(imgs, c);
    forall k | 0 <= k < |Select(imgs, c)| ensures Select(imgs, c)[k] in imgs {
      assert Select(imgs, c)[k] in Select(imgs, c);
    }
  }

  /** A test no record passes selects nothing. */
  lemma {:induction false} SelectNone(imgs: seq<Image>, c: Criterion)
    requires c.Band? ==> Measured(imgs)
    requires forall i :: i in imgs ==> !Keeps(c, i)
    ensures Select(imgs, c) == []
  {
    if imgs != [] {
      assert imgs[0] in imgs;
      SelectNone(imgs[1..], c);
    }
  }

  /** No record appears twice. */
  predicate Distinct(imgs: seq<Image>)
  {
    forall j, k :: 0 <= j < k < |imgs| ==> imgs[j] != imgs[k]
  }

  /** A run without repeats stays without repeats when a new record is put in front. */
  lemma DistinctCons(x: Image, s: seq<Image>)
    requires x !in s && Distinct(s)
    ensures Distinct([x] + s)
  {
    var t := [x] + s;
    forall j, k | 0 <= j < k < |t| ensures t[j] != t[k] {
      assert t[k] == s[k - 1];
      if j > 0 {
        assert t[j] == s[j - 1];
      }
    }
  }

  /** The first record of a run without repeats is not among the rest, which have none either. */
  lemma DistinctTail(imgs: seq<Image>)
    requires imgs != [] && Distinct(imgs)
    ensures imgs[0] !in imgs[1..] && Distinct(imgs[1..])
  {
    var rest := imgs[1..];
    forall k | 0 <= k < |rest| ensures rest[k] != imgs[0] {
      assert rest[k] == imgs[k + 1];
    }
    forall j, k | 0 <= j < k < |rest| ensures rest[j] != rest[k] {
      assert rest[j] == imgs[j + 1] && rest[k] == imgs[k + 1];
    }
  }

  /** A selection from distinct records is itself free of repeats. */
  lemma {:induction false} SelectDistinct(imgs: seq<Image>, c: Criterion)
    requires c.Band? ==> Measured(imgs)
    requires Distinct(imgs)
    ensures Distinct(Select(imgs, c))
  {
    if imgs != [] {
      var rest := imgs[1..];
      DistinctTail(imgs);
      SelectDistinct(rest, c);
      SelectUnfold(imgs, c);
      if Keeps(c, imgs[0]) {
        SelectOmits(rest, c, imgs[0]);
        DistinctCons(imgs[0], Select(rest, c));
      }
    }
  }

  /** One step of the filter: the first record, when it passes, then the selection from the rest. */
  lemma SelectUnfold(imgs: seq<Image>, c: Criterion)
    requires imgs != [] && (c.Band? ==> Measured(imgs))
    ensures Select(imgs, c) == if Keeps(c, imgs[0]) then [imgs[0]] + Select(imgs[1..], c) else Select(imgs[1..], c)
  {
    if !Keeps(c, imgs[0]) {
      assert [] + Select(imgs[1..], c) == Select(imgs[1..], c);
    }
  }

  /** A record missing from the input is missing from the selection. */
  lemma SelectOmits(imgs: seq<Image>, c: Criterion, x: Image)
    requires (c.Band? ==> Measured(imgs)) && x !in imgs
    ensures x !in Select(imgs, c)
  {
    SelectSpec(imgs, c);
  }

  /** Two runs of measured records make a measured run. */
  lemma MeasuredAppend(a: seq<Image>, b: seq<Image>)
    requires Measured(a) && Measured(b)
    ensures Measured(a + b)
  {
    forall i | i in a + b ensures i.stats.Some? {
      assert i in a || i in b;
    }
  }

  lemma ConcatAssoc<T>(x: seq<T>, y: seq<T>, z: seq<T>)
    ensures x + (y + z) == (x + y) + z
  {
  }

  /** Selecting from two runs of records selects from each in turn: the order is kept. */
  lemma {:induction false} SelectAppend(a: seq<Image>, b: seq<Image>, c: Criterion)
    requires c.Band? ==> Measured(a) && Measured(b)
    ensures c.Band? ==> Measured(a + b)
    ensures Select(a + b, c) == Select(a, c) + Select(b, c)
  {
    if c.Band? {
      MeasuredAppend(a, b);
    }
    if a == [] {
      assert a + b == b;
    } else {
      var ab := a + b;
      assert ab[0] == a[0] && ab[1..] == a[1..] + b;
      SelectAppend(a[1..], b, c);
      SelectUnfold(ab, c);
      SelectUnfold(a, c);
      if Keeps(c, a[0]) {
        ConcatAssoc([a[0]], Select(a[1..], c), Select(b, c));
      }
    }
  }

  /** Selecting again with the same test changes nothing. */
  lemma {:induction false} SelectTwice(imgs: seq<Image>, c: Criterion)
    requires c.Band? ==> Measured(imgs)
    ensures c.Band? ==> Measured(Select(imgs, c))
    ensures Select(Select(imgs, c), c) == Select(imgs, c)
  {
    SelectSpec(imgs, c);
    if imgs != [] {
      SelectTwice(imgs[1..], c);
      var rest := Select(imgs[1..], c);
      SelectSpec(imgs[1..], c);
      if Keeps(c, imgs[0]) {
        var s := Select(imgs, c);
        assert s == [imgs[0]] + rest;
        assert s[0] == imgs[0] && s[1..] == rest;
        assert Select(s, c) == [s[0]] + Select(s[1..], c);
      } else {
        assert Select(imgs, c) == [] + rest == rest;
      }
    }
  }

  /** The four counts a report shows: above `hi`, in (`mid`, `hi`], in (`lo`, `mid`], and at most `lo`. */
  datatype Report = Report(over: nat, large: nat, medium: nat, ok: nat)

  function Buckets(imgs: seq<Image>, m: Metric, hi: int, mid: int, lo: int): Report
    requires Measured(imgs)
    reads imgs
  {
    Report(|Select(imgs, Band(m, Some(hi), None))|,
           |Select(imgs, Band(m, Some(mid), Some(hi)))|,
           |Select(imgs, Band(m, Some(lo), Some(mid)))|,
           |Select(imgs, Band(m, None, Some(lo)))|)
  }

  /** `logImageFileSize`: the records over 500 KB, over 350, over 250, and the rest. */
  function SizeReport(imgs: seq<Image>): (r: Report)
    requires Measured(imgs)
    reads imgs
    ensures r.over + r.large + r.medium + r.ok == |imgs|
  {
    BucketCounts(imgs, Size, 500, 350, 250);
    Buckets(imgs, Size, 500, 350, 250)
  }

  /** `logImageWidth`: the records over 2400 px, over 1800, over 1200, and the rest. */
  function WidthReport(imgs: seq<Image>): (r: Report)
    requires Measured(imgs)
    reads imgs
    ensures r.over + r.large + r.medium + r.ok == |imgs|
  {
    BucketCounts(imgs, Width, 2400, 1800, 1200);
    Buckets(imgs, Width, 2400, 1800, 1200)
  }

  /** How many of the four buckets hold the record `i`. */
  function Placements(imgs: seq<Image>, m: Metric, hi: int, mid: int, lo: int, i: Image): nat
    requires Measured(imgs)
    reads imgs
  {
    (if i in Select(imgs, Band(m, Some(hi), None)) then 1 else 0)
    + (if i in Select(imgs, Band(m, Some(mid), Some(hi))) then 1 else 0)
    + (if i in Select(imgs, Band(m, Some(lo), Some(mid))) then 1 else 0)
    + (if i in Select(imgs, Band(m, None, Some(lo))) then 1 else 0)
  }

  /** Thresholds in order split the records into four buckets whose counts add up to all of them. */
  lemma {:induction false} BucketCounts(imgs: seq<Image>, m: Metric, hi: int, mid: int, lo: int)
    requires Measured(imgs) && lo <= mid <= hi
    ensures var r := Buckets(imgs, m, hi, mid, lo); r.over + r.large + r.medium + r.ok == |imgs|
  {
    if imgs != [] {
      BucketCounts(imgs[1..], m, hi, mid, lo);
    }
  }

  /** ... and every record lands in exactly one of them. */
  lemma BucketPlacement(imgs: seq<Image>, m: Metric, hi: int, mid: int, lo: int)
    requires Measured(imgs) && lo <= mid <= hi
    ensures forall i :: i in imgs ==> Placements(imgs, m, hi, mid, lo, i) == 1
  {
    SelectSpec(imgs, Band(m, Some(hi), None));
    SelectSpec(imgs, Band(m, Some(mid), Some(hi)));
    SelectSpec(imgs, Band(m, Some(lo), Some(mid)));
    SelectSpec(imgs, Band(m, None, Some(lo)));
  }

  /** The file-size buckets partition the records. */
  lemma SizeReportPartition(imgs: seq<Image>)
    requires Measured(imgs)
    ensures var r := SizeReport(imgs); r.over + r.large + r.medium + r.ok == |imgs|
    ensures forall i :: i in imgs ==> Placements(imgs, Size, 500, 350, 250, i) == 1
  {
    BucketCounts(imgs, Size, 500, 350, 250);
    BucketPlacement(imgs, Size, 500, 350, 250);
  }

  /** The width buckets partition the records. */
  lemma WidthReportPartition(imgs: seq<Image>)
    requires Measured(imgs)
    ensures var r := WidthReport(imgs); r.over + r.large + r.medium + r.ok == |imgs|
    ensures forall i :: i in imgs ==> Placements(imgs, Width, 2400, 1800, 1200, i) == 1
  {
    BucketCounts(imgs, Width, 2400, 1800, 1200);
    BucketPlacement(imgs, Width, 2400, 1800, 1200);
  }
}
