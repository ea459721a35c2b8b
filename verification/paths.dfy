/**
 * The path helpers of src/image.ts (`uniqifyBasename`, `replaceExtension`)
 * and the parts of Node's POSIX `path` module they are built from
 * (`extname`, `basename`, `dirname`, `join`), on normalised paths:
 * no `.` or `..` segments, no repeated and no trailing `/`.
 *
 * A path splits as `DirPrefix(p) + Stem(p) + Ext(p)`: the directory part
 * up to and including the last `/`, the base name without its extension,
 * and the extension (from the last `.` of the base name, or empty).
 * `path.join(path.dirname(p), name)` is `DirPrefix(p) + name` on such paths.
 */
module Paths {

  /** Position of the last `c` in `s`, or -1 when `s` has none. */
  function LastIndex(s: string, c: char): (r: int)
    ensures -1 <= r < |s|
    ensures r >= 0 ==> s[r] == c
  {
    if s == [] then -1
    else if s[|s| - 1] == c then |s| - 1
    else LastIndex(s[..|s| - 1], c)
  }

  /** Nothing after the position `LastIndex` finds is a `c`. */
  lemma {:induction false} LastIndexIsLast(s: string, c: char)
    ensures forall k :: LastIndex(s, c) < k < |s| ==> s[k] != c
  {
    if s != [] && s[|s| - 1] != c {
      LastIndexIsLast(s[..|s| - 1], c);
    }
  }

  /** What follows the last `/` holds no `/`. */
  lemma {:induction false} AfterLastSlash(s: string)
    ensures NoSlash(s[LastIndex(s, '/') + 1..])
  {
    if s != [] && s[|s| - 1] != '/' {
      var u := s[..|s| - 1];
      AfterLastSlash(u);
      var t := s[LastIndex(s, '/') + 1..];
      var v := u[LastIndex(u, '/') + 1..];
      assert t == v + [s[|s| - 1]];
      forall k | 0 <= k < |t| ensures t[k] != '/' {
        if k < |v| {
          assert t[k] == v[k];
        }
      }
    }
  }

  /** What follows the last `.` holds no `.`. */
  lemma {:induction false} AfterLastDot(s: string)
    ensures NoDot(s[LastIndex(s, '.') + 1..])
  {
    if s != [] && s[|s| - 1] != '.' {
      var u := s[..|s| - 1];
      AfterLastDot(u);
      var t := s[LastIndex(s, '.') + 1..];
      var v := u[LastIndex(u, '.') + 1..];
      assert t == v + [s[|s| - 1]];
      forall k | 0 <= k < |t| ensures t[k] != '.' {
        if k < |v| {
          assert t[k] == v[k];
        }
      }
    }
  }

  /** `path.dirname(p)` together with the separator that `path.join` puts after it. */
  function DirPrefix(p: string): string
  {
    p[..LastIndex(p, '/') + 1]
  }

  /** `path.basename(p)`. */
  function Base(p: string): string
  {
    p[LastIndex(p, '/') + 1..]
  }

  /**
   * Where the extension of the base name `b` begins: at its last `.`, or
   * at its end when that `.` is missing or is the first character, and for
   * the base name "..".
   */
  function ExtStart(b: string): (i: nat)
    ensures i <= |b|
  {
    var j := LastIndex(b, '.');
    if j <= 0 || b == ".." then |b| else j
  }

  /** `path.extname(p)`. */
  function Ext(p: string): string
  {
    Base(p)[ExtStart(Base(p))..]
  }

  /** `path.basename(p, path.extname(p))`. */
  function Stem(p: string): string
  {
    Base(p)[..ExtStart(Base(p))]
  }

  /** Six characters of the alphabet the source hands to `customAlphabet`. */
  const IdAlphabet: string := "abcdefghijkABCDEFGHIJK"

  predicate IdLike(id: string)
  {
    |id| == 6 && forall k :: 0 <= k < |id| ==> id[k] in IdAlphabet
  }

  /**
   * `uniqifyBasename`: `.temp.<id>` inserted between base name and
   * extension, `id` standing for the call to `nanoid()`.
   */
  function Uniqify(p: string, id: string): (r: string)
    ensures |r| == |p| + 6 + |id|
  {
    Decompose(p);
    DirPrefix(p) + Stem(p) + ".temp." + id + Ext(p)
  }

  /** `replaceExtension`: the final extension replaced by `.` + `e`. */
  function ReplaceExtension(p: string, e: string): (r: string)
    ensures |r| == |p| - |Ext(p)| + 1 + |e|
  {
    Decompose(p);
    DirPrefix(p) + Stem(p) + "." + e
  }

  predicate NoSlash(s: string)
  {
    forall k :: 0 <= k < |s| ==> s[k] != '/'
  }

  predicate NoDot(s: string)
  {
    forall k :: 0 <= k < |s| ==> s[k] != '.'
  }

  /** A directory prefix: empty, or ending in the separator. */
  predicate DirLike(d: string)
  {
    d == [] || d[|d| - 1] == '/'
  }

  /** An extension without its dot, such as "png": non-empty, no `.`, no `/`. */
  predicate Word(w: string)
  {
    w != [] && NoDot(w) && NoSlash(w)
  }

  lemma IdIsWord(id: string)
    requires IdLike(id)
    ensures Word(id)
  {
    forall k | 0 <= k < |id| ensures id[k] != '.' && id[k] != '/' {
      assert id[k] in IdAlphabet;
    }
  }

  /** A sequence is its prefix up to `n` followed by the rest. */
  lemma Cut(s: string, n: int)
    requires 0 <= n <= |s|
    ensures s == s[..n] + s[n..]
  {
  }

  /** An extension is empty, or a dot followed by dot-free text, after a non-empty stem. */
  lemma ExtShape(p: string)
    ensures Ext(p) == [] || (Ext(p)[0] == '.' && NoDot(Ext(p)[1..]) && |Ext(p)| < |Base(p)|)
  {
    ExtOfBase(Base(p));
  }

  /** The same on a base name: its extension is empty, or a dot followed by dot-free text, after a non-empty stem. */
  lemma ExtOfBase(b: string)
    ensures var e := b[ExtStart(b)..]; e == [] || (e[0] == '.' && NoDot(e[1..]) && |e| < |b|)
  {
    var j := LastIndex(b, '.');
    if ExtStart(b) < |b| {
      AfterLastDot(b);
      assert b[ExtStart(b)..][1..] == b[j + 1..];
    }
  }

  /** A path is its directory part followed by its base name. */
  lemma DirThenBase(p: string)
    ensures p == DirPrefix(p) + Base(p)
    ensures DirLike(DirPrefix(p)) && NoSlash(Base(p))
  {
    var i := LastIndex(p, '/');
    var b := p[i + 1..];
    AfterLastSlash(p);
    Cut(p, i + 1);
  }

  /** A base name is its stem followed by its extension. */
  lemma StemThenExt(p: string)
    ensures Base(p) == Stem(p) + Ext(p)
    ensures Ext(p) == [] ==> Stem(p) == Base(p)
  {
    Cut(Base(p), |Base(p)| - |Ext(p)|);
  }

  lemma Join3(p: string, d: string, b: string, s: string, e: string)
    requires p == d + b && b == s + e
    ensures p == d + s + e
  {
  }

  /** Every path is its directory part, stem and extension, in that order. */
  lemma Decompose(p: string)
    ensures p == DirPrefix(p) + Stem(p) + Ext(p)
    ensures DirLike(DirPrefix(p)) && NoSlash(Base(p))
    ensures Base(p) == Stem(p) + Ext(p)
    ensures Ext(p) == [] || (Ext(p)[0] == '.' && NoDot(Ext(p)[1..]) && Stem(p) != [])
    ensures Ext(p) == [] ==> Stem(p) == Base(p)
  {
    DirThenBase(p);
    StemThenExt(p);
    ExtShape(p);
    Join3(p, DirPrefix(p), Base(p), Stem(p), Ext(p));
  }

  /** A path whose extension is more than a dot: a stem, a dot, and a one-word extension. */
  lemma WithExtension(p: string)
    requires |Ext(p)| >= 2
    ensures Ext(p) == "." + Ext(p)[1..] && Word(Ext(p)[1..])
    ensures Stem(p) != [] && NoSlash(Stem(p)) && Base(p) != []
    ensures p == DirPrefix(p) + Stem(p) + "." + Ext(p)[1..] && DirLike(DirPrefix(p))
  {
    Decompose(p);
    StemShape(p);
    NoSlashSlice(Base(p), ExtStart(Base(p)));
    NoSlashSlice(Ext(p), 1);
    DotAfter(p, DirPrefix(p), Stem(p), Ext(p));
  }

  lemma NoSlashSlice(s: string, i: int)
    requires NoSlash(s) && 0 <= i <= |s|
    ensures NoSlash(s[i..])
  {
    forall k | 0 <= k < |s[i..]| ensures s[i..][k] != '/' {
      assert s[i..][k] == s[i + k];
    }
  }

  lemma DotAfter(p: string, d: string, s: string, e: string)
    requires p == d + s + e && e != [] && e[0] == '.'
    ensures p == d + s + "." + e[1..]
  {
    assert e == "." + e[1..];
  }

  /** Directory part and base name of a directory prefix followed by a slash-free name. */
  lemma SplitAtDir(d: string, b: string)
    requires DirLike(d) && NoSlash(b)
    ensures DirPrefix(d + b) == d && Base(d + b) == b
  {
    var s := d + b;
    var i := LastIndex(s, '/');
    LastIndexIsLast(s, '/');
    if d == [] {
      assert s == b;
      assert i == -1;
    } else {
      assert s[|d| - 1] == '/';
      assert forall k :: |d| <= k < |s| ==> s[k] == b[k - |d|];
      assert i == |d| - 1;
    }
    assert s[..i + 1] == d;
    assert s[i + 1..] == b;
  }

  /** Extension and stem of a path whose base name is `x + "." + y`, `y` free of dots. */
  lemma SplitAtDot(p: string, x: string, y: string)
    requires Base(p) == x + "." + y
    requires NoDot(y) && x != [] && (y != [] || |x| > 1)
    ensures Ext(p) == "." + y && Stem(p) == x
  {
    var b := Base(p);
    var j := LastIndex(b, '.');
    LastIndexIsLast(b, '.');
    assert b[|x|] == '.';
    assert forall k :: |x| < k < |b| ==> b[k] == y[k - |x| - 1];
    assert j == |x|;
    assert b != "..";
    assert b[j..] == "." + y;
  }

  lemma NoSlashCat(a: string, b: string)
    requires NoSlash(a) && NoSlash(b)
    ensures NoSlash(a + b)
  {
    forall k | 0 <= k < |a + b| ensures (a + b)[k] != '/' {
      if k >= |a| { assert (a + b)[k] == b[k - |a|]; }
    }
  }

  /** The stem of a path has no separator and is empty only with the base name. */
  lemma StemShape(p: string)
    ensures NoSlash(Stem(p)) && (Stem(p) == [] <==> Base(p) == [])
  {
    Decompose(p);
    var s := Stem(p);
    forall k | 0 <= k < |s| ensures s[k] != '/' {
      assert s[k] == Base(p)[k];
    }
  }

  lemma Regroup(d: string, s: string, id: string, e: string)
    ensures d + s + ".temp." + id + e == d + (s + ".temp." + id + e)
  {
  }

  lemma SplitOffDot(x: string, e: string)
    requires e != [] && e[0] == '.'
    ensures x + e == x + "." + e[1..]
  {
  }

  lemma SplitTemp(s: string, id: string)
    ensures s + ".temp." + id == (s + ".temp") + "." + id
  {
  }

  lemma TempRegroup(d: string, s: string, id: string, w: string)
    ensures d + s + ".temp." + id + "." + w == d + (s + ".temp." + id) + "." + w
  {
  }

  /** `uniqifyBasename` on a path with an extension, grouped by the parts of the result. */
  lemma UniqifyRegroup(p: string, id: string)
    requires Ext(p) != [] && Ext(p)[0] == '.'
    ensures Uniqify(p, id) == DirPrefix(p) + (Stem(p) + ".temp." + id) + "." + Ext(p)[1..]
  {
    SplitOffDot(DirPrefix(p) + Stem(p) + ".temp." + id, Ext(p));
    TempRegroup(DirPrefix(p), Stem(p), id, Ext(p)[1..]);
  }

  /** `replaceExtension` on a path given by its parts swaps the last part. */
  lemma RenamePath(d: string, s: string, w: string, e: string)
    requires DirLike(d) && s != [] && NoSlash(s) && Word(w)
    ensures ReplaceExtension(d + s + "." + w, e) == d + s + "." + e
  {
    PartsOf(d, s, w);
  }

  /** The stem of a temporary path is a non-empty, slash-free stem in its own right. */
  lemma TempStemShape(s: string, id: string)
    requires NoSlash(s) && IdLike(id)
    ensures s + ".temp." + id != [] && NoSlash(s + ".temp." + id)
  {
    IdIsWord(id);
    NoSlashCat(s, ".temp.");
    NoSlashCat(s + ".temp.", id);
  }

  /**
   * Renaming a temporary path `d + s + ".temp." + id + "." + w` keeps
   * everything up to the last dot and puts the new extension after it.
   */
  lemma RenameTempPath(d: string, s: string, id: string, w: string, n: string)
    requires DirLike(d) && s != [] && NoSlash(s) && IdLike(id) && Word(w)
    ensures ReplaceExtension(d + s + ".temp." + id + "." + w, n) == d + s + ".temp." + id + "." + n
  {
    IdIsWord(id);
    NoSlashCat(s, ".temp.");
    NoSlashCat(s + ".temp.", id);
    TempRegroup(d, s, id, w);
    PartsOf(d, s + ".temp." + id, w);
    TempRegroup(d, s, id, n);
  }

  /** The parts of `d + s + ".temp." + id + e`, for an extension `e` (possibly empty). */
  lemma TempParts(d: string, s: string, id: string, e: string)
    requires DirLike(d) && NoSlash(s) && Word(id) && NoSlash(e)
    requires e == [] || (e[0] == '.' && NoDot(e[1..]))
    ensures DirPrefix(d + s + ".temp." + id + e) == d
    ensures e != [] ==> Ext(d + s + ".temp." + id + e) == e
                        && Stem(d + s + ".temp." + id + e) == s + ".temp." + id
    ensures e == [] ==> Ext(d + s + ".temp." + id + e) == "." + id
                        && Stem(d + s + ".temp." + id + e) == s + ".temp"
  {
    var u := d + s + ".temp." + id + e;
    var b := s + ".temp." + id + e;
    Regroup(d, s, id, e);
    NoSlashCat(s, ".temp.");
    NoSlashCat(s + ".temp.", id);
    NoSlashCat(s + ".temp." + id, e);
    SplitAtDir(d, b);
    if e != [] {
      SplitOffDot(s + ".temp." + id, e);
      SplitAtDot(u, s + ".temp." + id, e[1..]);
    } else {
      SplitTemp(s, id);
      SplitAtDot(u, s + ".temp", id);
    }
  }

  /** An extension holds no `/`: it lies inside the base name. */
  lemma ExtNoSlash(p: string)
    ensures NoSlash(Ext(p))
  {
    DirThenBase(p);
    NoSlashSuffix(Base(p), ExtStart(Base(p)));
  }

  lemma NoSlashSuffix(b: string, i: nat)
    requires NoSlash(b) && i <= |b|
    ensures NoSlash(b[i..])
  {
    var e := b[i..];
    forall k | 0 <= k < |e| ensures e[k] != '/' {
      assert e[k] == b[i + k];
    }
  }

  /**
   * `uniqifyBasename` keeps the directory and the extension and puts
   * `.temp.<id>` after the stem; a path without an extension gets the id
   * itself as its new extension.
   */
  lemma UniqifyParts(p: string, id: string)
    requires IdLike(id)
    ensures DirPrefix(Uniqify(p, id)) == DirPrefix(p)
    ensures Ext(p) != [] ==> Ext(Uniqify(p, id)) == Ext(p)
                             && Stem(Uniqify(p, id)) == Stem(p) + ".temp." + id
    ensures Ext(p) == [] ==> Ext(Uniqify(p, id)) == "." + id
                             && Stem(Uniqify(p, id)) == Stem(p) + ".temp"
    ensures |Uniqify(p, id)| == |p| + 12
  {
    Decompose(p);
    IdIsWord(id);
    StemShape(p);
    ExtNoSlash(p);
    TempParts(DirPrefix(p), Stem(p), id, Ext(p));
  }

  /**
   * `replaceExtension` keeps the directory and the stem and ends the path
   * in `.` + `e`, so that `e` is the new extension (for a path with a
   * non-empty base name).
   */
  lemma ReplaceExtensionParts(p: string, e: string)
    requires Word(e) && Base(p) != []
    ensures DirPrefix(ReplaceExtension(p, e)) == DirPrefix(p)
    ensures Stem(ReplaceExtension(p, e)) == Stem(p)
    ensures Ext(ReplaceExtension(p, e)) == "." + e
    ensures Base(ReplaceExtension(p, e)) != []
  {
    Decompose(p);
    StemShape(p);
    PartsOf(DirPrefix(p), Stem(p), e);
  }

  /** Replacing the extension twice is replacing it once with the second one. */
  lemma ReplaceExtensionTwice(p: string, e1: string, e2: string)
    requires Word(e1) && Base(p) != []
    ensures ReplaceExtension(ReplaceExtension(p, e1), e2) == ReplaceExtension(p, e2)
  {
    ReplaceExtensionParts(p, e1);
  }

  /** A path built from its parts gives those parts back. */
  lemma PartsOf(d: string, s: string, w: string)
    requires DirLike(d) && s != [] && NoSlash(s) && Word(w)
    ensures DirPrefix(d + s + "." + w) == d
    ensures Stem(d + s + "." + w) == s
    ensures Ext(d + s + "." + w) == "." + w
    ensures Base(d + s + "." + w) == s + "." + w
  {
    var b := s + "." + w;
    assert d + s + "." + w == d + b;
    forall k | 0 <= k < |b| ensures b[k] != '/' {
      if k < |s| { assert b[k] == s[k]; } else if k > |s| { assert b[k] == w[k - |s| - 1]; }
    }
    SplitAtDir(d, b);
    SplitAtDot(d + b, s, w);
  }

  /**
   * A path `d + s + "." + w` with a one-word extension never equals the
   * temporary path `d + s + ".temp." + id + "." + t` of the same stem.
   */
  lemma NotTempPath(d: string, s: string, w: string, id: string, t: string)
    requires Word(w)
    ensures d + s + "." + w != d + s + ".temp." + id + "." + t
  {
    var a := d + s + "." + w;
    var b := d + s + ".temp." + id + "." + t;
    var n := |d| + |s|;
    if |a| == |b| {
      assert |w| >= 5;
      assert a[n + 5] == w[4];
      assert b[n + 5] == '.';
    }
  }

  /** ASCII lower-casing, which is all `toLowerCase` changes in the extensions compared here. */
  function LowerChar(c: char): char
  {
    if 'A' <= c <= 'Z' then (c as int + 32) as char else c
  }

  /** `toLowerCase()` on ASCII letters; other characters are kept. */
  function Lower(s: string): string
  {
    seq(|s|, k requires 0 <= k < |s| => LowerChar(s[k]))
  }

  function UpperChar(c: char): char
  {
    if 'a' <= c <= 'z' then (c as int - 32) as char else c
  }

  function Upper(s: string): string
  {
    seq(|s|, k requires 0 <= k < |s| => UpperChar(s[k]))
  }

  /** A string without upper-case ASCII letters is its own lower-case form. */
  lemma LowerOfLower(s: string)
    requires forall k :: 0 <= k < |s| ==> !('A' <= s[k] <= 'Z')
    ensures Lower(s) == s
  {
  }

  /** Lower-casing sees through upper-casing. */
  lemma LowerOfUpper(s: string)
    ensures Lower(Upper(s)) == Lower(s)
  {
  }
}
