/**
 * The pieces of Node's POSIX `path` module the handlers use on file names: the last part of a
 * `/`-separated text, `basename` and `extname`, and the base name without its extension.
 * The functions carry only their length bounds; what their results look like is stated by the
 * lemmas beside them, so that a proof about a path does not take all of it into account.
 */
module Paths {

  /** The text after the last `/`: the last element of `s.split('/')`. */
  function LastPart(s: string): string {
    if s == [] then []
    else if s[|s| - 1] == '/' then []
    else LastPart(s[..|s| - 1]) + [s[|s| - 1]]
  }

  /** The last part holds no `/`, ends `s`, and is preceded in `s` by a `/` unless it is all of `s`. */
  lemma {:induction false} LastPartShape(s: string)
    ensures var r := LastPart(s);
            '/' !in r && |r| <= |s| && r == s[|s| - |r|..] &&
            (|r| < |s| ==> s[|s| - |r| - 1] == '/')
  {
    if s != [] && s[|s| - 1] != '/' {
      var front := s[..|s| - 1];
      var init := LastPart(front);
      LastPartShape(front);
      var r := init + [s[|s| - 1]];
      assert LastPart(s) == r;
      assert init == front[|front| - |init|..];
      assert r == s[|s| - |r|..] by {
        assert front[|front| - |init|..] + [s[|s| - 1]] == s[|s| - |r|..];
      }
      assert '/' !in r by {
        assert forall c :: c in r ==> c in init || c == s[|s| - 1];
      }
      if |r| < |s| {
        assert s[|s| - |r| - 1] == front[|front| - |init| - 1];
      }
    }
  }

  /** Drops the trailing run of `/`, which `basename` and `extname` ignore. */
  function StripTrailingSlashes(s: string): (r: string)
    ensures |r| <= |s|
  {
    if s != [] && s[|s| - 1] == '/' then StripTrailingSlashes(s[..|s| - 1]) else s
  }

  /** What is dropped is a run of `/` at the end, and what is kept does not end in `/`. */
  lemma {:induction false} StripTrailingSlashesShape(s: string)
    ensures var r := StripTrailingSlashes(s);
            r == s[..|r|] && (r == [] || r[|r| - 1] != '/') &&
            forall i :: |r| <= i < |s| ==> s[i] == '/'
  {
    if s != [] && s[|s| - 1] == '/' {
      StripTrailingSlashesShape(s[..|s| - 1]);
    }
  }

  /** `path.basename(p)`: the last part once trailing slashes are dropped. */
  function BaseName(p: string): string {
    LastPart(StripTrailingSlashes(p))
  }

  /** A base name never holds a `/`. */
  lemma BaseNameNoSlash(p: string)
    ensures '/' !in BaseName(p)
  {
    LastPartShape(StripTrailingSlashes(p));
  }

  /** The index of the last `.` of `s`, or -1 when it has none. */
  function LastDot(s: string): (d: int)
    ensures -1 <= d < |s|
  {
    if s == [] then -1
    else if s[|s| - 1] == '.' then |s| - 1
    else LastDot(s[..|s| - 1])
  }

  /** The last dot is a `.`, and none follows it. */
  lemma {:induction false} LastDotShape(s: string)
    ensures var d := LastDot(s);
            (d >= 0 ==> s[d] == '.') && forall i :: d < i < |s| ==> s[i] != '.'
  {
    if s != [] && s[|s| - 1] != '.' {
      LastDotShape(s[..|s| - 1]);
    }
  }

  /**
   * `path.extname(p)`: the base name from its last `.` on, or empty when the base has no `.`,
   * when its only candidate `.` is its first character (`.bashrc`), or when it is `..`.
   */
  function ExtName(p: string): (r: string)
    ensures |r| <= |BaseName(p)|
  {
    var b := BaseName(p);
    var d := LastDot(b);
    if d <= 0 || b == ".." then [] else b[d..]
  }

  /** A non-empty extension is a proper suffix of the base name that starts with its only `.`. */
  lemma ExtNameShape(p: string)
    ensures var b := BaseName(p);
            var r := ExtName(p);
            (r == [] || (|r| < |b| && r == b[|b| - |r|..])) &&
            (r != [] ==> r[0] == '.' && '.' !in r[1..])
  {
    var b := BaseName(p);
    var d := LastDot(b);
    LastDotShape(b);
    if d > 0 && b != ".." {
      var r := b[d..];
      assert forall i :: 1 <= i < |r| ==> r[i] == b[d + i];
    }
  }

  /**
   * `path.basename(p, path.extname(p))`: the base name with its extension cut off. The extension
   * is always a proper suffix of the base, so it is always cut.
   */
  function Stem(p: string): string {
    var b := BaseName(p);
    b[..|b| - |ExtName(p)|]
  }

  /** The stem followed by the extension is the base name, and the stem is never empty when the extension is not. */
  lemma StemThenExtension(p: string)
    ensures Stem(p) + ExtName(p) == BaseName(p)
    ensures ExtName(p) != [] ==> Stem(p) != []
  {
    var b := BaseName(p);
    var e := ExtName(p);
    ExtNameShape(p);
    assert e == b[|b| - |e|..];
    assert b[..|b| - |e|] + b[|b| - |e|..] == b;
  }

  /** A name with a `.` inside its last part keeps what follows the last `.` as its extension. */
  lemma ExtensionOfPlainName(stem: string, ext: string)
    requires stem != [] && '/' !in stem && '/' !in ext && '.' !in ext
    requires stem + "." + ext != ".."
    ensures ExtName(stem + "." + ext) == "." + ext
    ensures Stem(stem + "." + ext) == stem
  {
    var p := stem + "." + ext;
    assert StripTrailingSlashes(p) == p;
    LastPartNoSlash(p);
    assert BaseName(p) == p;
    LastDotAfter(stem, ext);
    assert p[|stem|..] == "." + ext;
  }

  /** A text with no `/` is its own last part. */
  lemma {:induction false} LastPartNoSlash(s: string)
    requires '/' !in s
    ensures LastPart(s) == s
  {
    if s != [] {
      assert s[|s| - 1] in s;
      assert forall c :: c in s[..|s| - 1] ==> c in s;
      LastPartNoSlash(s[..|s| - 1]);
    }
  }

  lemma {:induction false} LastDotAfter(stem: string, ext: string)
    requires '.' !in ext && stem != []
    ensures LastDot(stem + "." + ext) == |stem|
  {
    var p := stem + "." + ext;
    if ext == [] {
      assert p[|p| - 1] == '.';
    } else {
      assert ext[|ext| - 1] in ext;
      assert p[|p| - 1] == ext[|ext| - 1];
      assert p[..|p| - 1] == stem + "." + ext[..|ext| - 1];
      assert forall c :: c in ext[..|ext| - 1] ==> c in ext;
      LastDotAfter(stem, ext[..|ext| - 1]);
    }
  }
}
