/** POSIX-style path helpers standing in for Node's `path.basename`,
    `path.extname`, `path.dirname`, `path.join` and the `replace-ext` package.
    Only `/` separates segments and no normalisation is done. */
module Paths {
  import opened Types

  /** `s` holds no occurrence of `c`. */
  predicate Lacks(s: string, c: char)
  {
    forall i :: 0 <= i < |s| ==> s[i] != c
  }

  /** The position of the last occurrence of `c` in `s`, if any. */
  function LastIndexOf(s: string, c: char): (r: Option<nat>)
    ensures r.Some? ==> r.value < |s| && s[r.value] == c
    ensures r.Some? ==> forall j :: r.value < j < |s| ==> s[j] != c
    ensures r.None? <==> Lacks(s, c)
  {
    if s == [] then None
    else if s[|s| - 1] == c then Some(|s| - 1)
    else LastIndexOf(s[..|s| - 1], c)
  }

  /** The last segment of `p`: what follows its last `/`. */
  function Basename(p: string): string
  {
    match LastIndexOf(p, '/')
    case None => p
    case Some(k) => p[k + 1..]
  }

  /** Everything before the last segment, without its trailing `/`;
      `"."` when there is no `/`, `"/"` when the only one comes first. */
  function Dirname(p: string): string
  {
    match LastIndexOf(p, '/')
    case None => "."
    case Some(k) => if k == 0 then "/" else p[..k]
  }

  /** The extension of the last segment: from its last `.` to the end,
      empty when it has no `.` or its only `.` is its first character. */
  function Extname(p: string): string
  {
    var b := Basename(p);
    match LastIndexOf(b, '.')
    case None => ""
    case Some(k) => if k == 0 then "" else b[k..]
  }

  /** A last segment without its extension. */
  function Stem(b: string): string
  {
    var n := |b| - |Extname(b)|;
    if 0 <= n then b[..n] else b
  }

  /** `dir` and `base` joined by one `/`. */
  function Join(dir: string, base: string): string
    requires dir != ""
  {
    if dir[|dir| - 1] == '/' then dir + base else dir + "/" + base
  }

  /** `p` with its extension replaced by `ext` (appended when it has none);
      the empty path is returned as it is. */
  function ReplaceExt(p: string, ext: string): string
  {
    var n := |p| - |Extname(p)|;
    if p == "" || n < 0 then p else p[..n] + ext
  }

  /** The last segment is a suffix of the path, holds no `/`, and is the
      whole path or preceded by a `/`. */
  lemma BasenameIsLastSegment(p: string)
    ensures Lacks(Basename(p), '/')
    ensures |Basename(p)| <= |p| && p == p[..|p| - |Basename(p)|] + Basename(p)
    ensures var head := p[..|p| - |Basename(p)|]; head == [] || head[|head| - 1] == '/'
  {
    match LastIndexOf(p, '/')
    case None =>
    case Some(k) =>
      assert p == p[..k + 1] + p[k + 1..];
  }

  /** A string without `/` is its own last segment. */
  lemma SegmentIsOwnBasename(b: string)
    requires Lacks(b, '/')
    ensures Basename(b) == b
  {
    assert LastIndexOf(b, '/') == None;
  }

  /** A path and its last segment have the same extension. */
  lemma ExtnameOfBasename(p: string)
    ensures Extname(Basename(p)) == Extname(p)
  {
    BasenameIsLastSegment(p);
    SegmentIsOwnBasename(Basename(p));
  }

  /** A segment is its stem followed by its extension, which is empty or
      starts with a dot. */
  lemma StemThenExtname(b: string)
    requires Lacks(b, '/')
    ensures Extname(b) == "" || Extname(b)[0] == '.'
    ensures b == Stem(b) + Extname(b)
  {
    SegmentIsOwnBasename(b);
    match LastIndexOf(b, '.')
    case None =>
      assert Extname(b) == "";
      assert b + "" == b;
    case Some(k) =>
      if k == 0 {
        assert Extname(b) == "";
        assert b + "" == b;
      } else {
        assert Extname(b) == b[k..];
        assert b == b[..k] + b[k..];
      }
  }

  /** Appending text to a string moves its last `c` only if that text holds one. */
  lemma {:induction false} LastIndexAppend(s: string, t: string, c: char)
    ensures Lacks(t, c) ==> LastIndexOf(s + t, c) == LastIndexOf(s, c)
    ensures !Lacks(t, c) ==>
              LastIndexOf(s + t, c).Some? && LastIndexOf(t, c).Some? &&
              LastIndexOf(s + t, c).value == |s| + LastIndexOf(t, c).value
  {
    if t != [] {
      var t' := t[..|t| - 1];
      assert (s + t)[..|s + t| - 1] == s + t';
      LastIndexAppend(s, t', c);
      if t[|t| - 1] != c {
        assert Lacks(t, c) <==> Lacks(t', c);
      }
    } else {
      assert s + t == s;
    }
  }

  /** A segment without `/` placed after a directory prefix is the last segment. */
  lemma BasenameAfter(head: string, tail: string)
    requires Lacks(tail, '/')
    requires head == [] || head[|head| - 1] == '/'
    ensures Basename(head + tail) == tail
  {
    LastIndexAppend(head, tail, '/');
    if head != [] {
      assert LastIndexOf(head, '/') == Some(|head| - 1);
      assert (head + tail)[|head|..] == tail;
    } else {
      assert head + tail == tail;
    }
  }

  /** Joining a directory with a segment yields a non-empty path whose last
      segment is that segment. */
  lemma JoinBasename(dir: string, base: string)
    requires dir != "" && Lacks(base, '/')
    ensures Join(dir, base) != ""
    ensures Basename(Join(dir, base)) == base
  {
    if dir[|dir| - 1] == '/' {
      BasenameAfter(dir, base);
    } else {
      BasenameAfter(dir + "/", base);
      assert dir + "/" + base == (dir + "/") + base;
    }
  }

  /** Replacing the extension keeps the directory part and the stem. */
  lemma ReplaceExtKeepsStem(p: string, ext: string)
    requires p != ""
    ensures ReplaceExt(p, ext) == p[..|p| - |Basename(p)|] + (Stem(Basename(p)) + ext)
  {
    var b := Basename(p);
    var head := p[..|p| - |b|];
    var e := Extname(p);
    var stem := Stem(b);
    SplitPath(p);
    ReplaceExtCuts(p, ext);
    CutSuffix(p, head, stem, e, ext);
  }

  /** A path is its directory part, the stem of its last segment and its
      extension. */
  lemma SplitPath(p: string)
    ensures |Basename(p)| <= |p|
    ensures p == p[..|p| - |Basename(p)|] + (Stem(Basename(p)) + Extname(p))
  {
    var b := Basename(p);
    BasenameIsLastSegment(p);
    ExtnameOfBasename(p);
    StemThenExtname(b);
    Assemble(p, p[..|p| - |b|], b, Stem(b), Extname(p));
  }

  /** `ReplaceExt` cuts the extension off and appends the new one. */
  lemma ReplaceExtCuts(p: string, ext: string)
    requires p != "" && |Extname(p)| <= |p|
    ensures ReplaceExt(p, ext) == p[..|p| - |Extname(p)|] + ext
  {
  }

  /** The last segment of `ReplaceExt(p, ext)` is the stem of `p`'s last
      segment followed by `ext`, whenever `ext` has no `/`. */
  lemma BasenameOfReplaceExt(p: string, ext: string)
    requires p != "" && Lacks(ext, '/')
    ensures Basename(ReplaceExt(p, ext)) == Stem(Basename(p)) + ext
  {
    var head := ReplaceExtShape(p, ext);
    NewSegmentNoSlash(p, ext);
    BasenameAfter(head, Stem(Basename(p)) + ext);
  }

  /** `ReplaceExt(p, ext)` is a directory prefix, empty or ending in `/`,
      followed by the stem of the last segment and `ext`. */
  lemma ReplaceExtShape(p: string, ext: string) returns (head: string)
    requires p != ""
    ensures ReplaceExt(p, ext) == head + (Stem(Basename(p)) + ext)
    ensures head == [] || head[|head| - 1] == '/'
  {
    DirectoryPrefix(p);
    head := p[..|p| - |Basename(p)|];
    ReplaceExtKeepsStem(p, ext);
  }

  /** What precedes the last segment is empty or ends in `/`. */
  lemma DirectoryPrefix(p: string)
    ensures |Basename(p)| <= |p|
    ensures var head := p[..|p| - |Basename(p)|]; head == [] || head[|head| - 1] == '/'
  {
    BasenameIsLastSegment(p);
  }

  /** The stem of a last segment followed by an extension without `/` has no `/`. */
  lemma NewSegmentNoSlash(p: string, ext: string)
    requires Lacks(ext, '/')
    ensures Lacks(Stem(Basename(p)) + ext, '/')
  {
    BasenameIsLastSegment(p);
    NoSlashAfterStem(Basename(p), ext);
  }

  /** A path that is a head and a segment, the segment a stem and an
      extension, is the head, the stem and the extension. */
  lemma Assemble(p: string, head: string, b: string, stem: string, e: string)
    requires p == head + b && b == stem + e
    ensures p == head + (stem + e)
  {
  }

  /** Cutting the extension off a head, stem and extension, and appending
      another. */
  lemma CutSuffix(p: string, head: string, stem: string, e: string, ext: string)
    requires p == head + (stem + e)
    ensures p[..|p| - |e|] + ext == head + (stem + ext)
  {
    assert p[..|p| - |e|] == head + stem;
  }

  /** A stem followed by an extension without `/` has no `/`. */
  lemma NoSlashAfterStem(b: string, ext: string)
    requires Lacks(b, '/') && Lacks(ext, '/')
    ensures Lacks(Stem(b) + ext, '/')
  {
    var stem := Stem(b);
    assert forall i :: 0 <= i < |stem| ==> stem[i] == b[i];
  }
}
