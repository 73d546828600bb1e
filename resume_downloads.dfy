/**
 * The resume downloads of the student controller: the clean name a student's resume is saved
 * under (`name.trim()`, drop everything but ASCII letters, digits and whitespace, turn each
 * whitespace run into one `_`, keep at most 50 characters), and the bulk download, which packs
 * the resumes of the requested students into one archive whose entry names are made unique with
 * a `_N` counter.
 */
module ResumeDownloads {
  import opened Wrappers
  import opened JsText
  import opened Tables
  import Ordering
  import Paths
  import Database

  // ---------------------------------------------------------------------------------------
  // The clean name
  // ---------------------------------------------------------------------------------------

  predicate IsAsciiAlnum(c: char) {
    'a' <= c <= 'z' || 'A' <= c <= 'Z' || '0' <= c <= '9'
  }

  /** The ASCII letters and digits of `s`, in order: what no step of the cleaning may lose. */
  function Alnums(s: string): (r: string)
    ensures |r| <= |s|
  {
    if s == [] then []
    else if IsAsciiAlnum(s[0]) then [s[0]] + Alnums(s[1..])
    else Alnums(s[1..])
  }

  lemma {:induction false} AlnumsAppend(a: string, b: string)
    ensures Alnums(a + b) == Alnums(a) + Alnums(b)
  {
    if a == [] {
      assert a + b == b;
    } else {
      assert (a + b)[0] == a[0] && (a + b)[1..] == a[1..] + b;
      AlnumsAppend(a[1..], b);
    }
  }

  /** Whitespace holds no letter or digit. */
  lemma {:induction false} AlnumsOfSpace(s: string)
    requires AllSpace(s)
    ensures Alnums(s) == []
  {
    if s != [] {
      AlnumsOfSpace(s[1..]);
    }
  }

  /** `replace(/[^a-zA-Z0-9\s]/g, '')`: keeps the letters, digits and whitespace. */
  function KeepNameChars(s: string): (r: string)
    ensures |r| <= |s|
    ensures forall i :: 0 <= i < |r| ==> IsAsciiAlnum(r[i]) || IsSpace(r[i])
  {
    if s == [] then []
    else if IsAsciiAlnum(s[0]) || IsSpace(s[0]) then [s[0]] + KeepNameChars(s[1..])
    else KeepNameChars(s[1..])
  }

  /** `replace(/\s+/g, '_')`: each maximal run of whitespace becomes a single `_`. */
  function CollapseSpace(s: string): (r: string)
    ensures |r| <= |s|
    ensures s != [] && !IsSpace(s[0]) ==> r != [] && r[0] == s[0]
    decreases |s|
  {
    if s == [] then []
    else if IsSpace(s[0]) then
      var rest := TrimStart(s);
      assert rest != s;
      "_" + CollapseSpace(rest)
    else [s[0]] + CollapseSpace(s[1..])
  }

  /** The download name of a student, before its extension. */
  function CleanName(name: string): string {
    Prefix(CollapseSpace(KeepNameChars(Trim(name))), 50)
  }

  /** Two `_` never follow each other. */
  predicate NoDoubleUnderscore(s: string) {
    forall i :: 0 <= i < |s| - 1 ==> s[i] != '_' || s[i + 1] != '_'
  }

  /**
   * Collapsing a text of letters, digits and whitespace leaves letters, digits and `_` that never
   * come twice in a row.
   */
  lemma {:induction false} CollapseSpaceChars(s: string)
    requires forall i :: 0 <= i < |s| ==> IsAsciiAlnum(s[i]) || IsSpace(s[i])
    ensures NameChars(CollapseSpace(s)) && NoDoubleUnderscore(CollapseSpace(s))
    decreases |s|
  {
    if s != [] {
      if IsSpace(s[0]) {
        var next := TrimStart(s);
        assert next != s;
        assert forall i :: 0 <= i < |next| ==> next[i] == s[|s| - |next| + i];
        CollapseSpaceChars(next);
        if next != [] {
          assert IsAsciiAlnum(next[0]);
        }
        ConsShape('_', CollapseSpace(next));
      } else {
        assert forall i :: 0 <= i < |s[1..]| ==> s[1..][i] == s[i + 1];
        CollapseSpaceChars(s[1..]);
        ConsShape(s[0], CollapseSpace(s[1..]));
      }
    }
  }

  /** Letters, digits and `_`. */
  predicate NameChars(s: string) {
    forall i :: 0 <= i < |s| ==> IsAsciiAlnum(s[i]) || s[i] == '_'
  }

  lemma ConsShape(h: char, t: string)
    requires IsAsciiAlnum(h) || h == '_'
    requires NameChars(t) && NoDoubleUnderscore(t)
    requires h == '_' && t != [] ==> t[0] != '_'
    ensures NameChars([h] + t) && NoDoubleUnderscore([h] + t)
  {
    var r := [h] + t;
    assert forall i :: 1 <= i < |r| ==> r[i] == t[i - 1];
  }

  /** Collapsing keeps every letter and digit. */
  lemma {:induction false} CollapseSpaceAlnums(s: string)
    ensures Alnums(CollapseSpace(s)) == Alnums(s)
    decreases |s|
  {
    if s != [] {
      if IsSpace(s[0]) {
        var rest := TrimStart(s);
        assert rest != s;
        CollapseSpaceAlnums(rest);
        assert s == s[..|s| - |rest|] + rest;
        AlnumsAppend(s[..|s| - |rest|], rest);
        AlnumsOfSpace(s[..|s| - |rest|]);
        assert ("_" + CollapseSpace(rest))[1..] == CollapseSpace(rest);
      } else {
        CollapseSpaceAlnums(s[1..]);
        assert ([s[0]] + CollapseSpace(s[1..]))[1..] == CollapseSpace(s[1..]);
      }
    }
  }

  lemma {:induction false} KeepNameCharsAlnums(s: string)
    ensures Alnums(KeepNameChars(s)) == Alnums(s)
  {
    if s != [] {
      KeepNameCharsAlnums(s[1..]);
    }
  }

  lemma TrimAlnums(s: string)
    ensures Alnums(Trim(s)) == Alnums(s)
  {
    TrimStartAlnums(s);
    TrimEndAlnums(TrimStart(s));
  }

  lemma TrimStartAlnums(s: string)
    ensures Alnums(TrimStart(s)) == Alnums(s)
  {
    var t := TrimStart(s);
    assert s == s[..|s| - |t|] + t;
    AlnumsAppend(s[..|s| - |t|], t);
    AlnumsOfSpace(s[..|s| - |t|]);
  }

  lemma TrimEndAlnums(t: string)
    ensures Alnums(TrimEnd(t)) == Alnums(t)
  {
    var u := TrimEnd(t);
    assert t == u + t[|u|..];
    AlnumsAppend(u, t[|u|..]);
    AlnumsOfSpace(t[|u|..]);
  }

  /**
   * The clean name is at most 50 characters of letters, digits and single `_`; its letters and
   * digits are the first ones of the student's name, and all of them when the name fits in 50.
   */
  lemma CleanNameShape(name: string)
    ensures var r := CleanName(name);
            |r| <= 50 &&
            NameChars(r) && NoDoubleUnderscore(r) &&
            StartsWith(Alnums(name), Alnums(r)) &&
            (|name| <= 50 ==> Alnums(r) == Alnums(name))
  {
    var kept := KeepNameChars(Trim(name));
    var full := CollapseSpace(kept);
    CollapseSpaceChars(kept);
    CollapseSpaceAlnums(kept);
    KeepNameCharsAlnums(Trim(name));
    TrimAlnums(name);
    PrefixShape(full, 50);
  }

  /** Cutting a name short keeps its shape and the first of its letters and digits. */
  lemma PrefixShape(s: string, n: nat)
    requires NameChars(s) && NoDoubleUnderscore(s)
    ensures var r := Prefix(s, n);
            NameChars(r) && NoDoubleUnderscore(r) && StartsWith(Alnums(s), Alnums(r)) &&
            (|s| <= n ==> r == s)
  {
    var r := Prefix(s, n);
    assert forall i :: 0 <= i < |r| ==> r[i] == s[i];
    PrefixAlnums(r, s[|r|..]);
    assert s == r + s[|r|..];
  }

  lemma PrefixAlnums(a: string, b: string)
    ensures StartsWith(Alnums(a + b), Alnums(a))
  {
    AlnumsAppend(a, b);
    assert (Alnums(a) + Alnums(b))[..|Alnums(a)|] == Alnums(a);
  }

  /** A text made only of letters and digits, as removing its spaces leaves it. */
  predicate Plain(s: string) {
    forall i :: 0 <= i < |s| ==> IsAsciiAlnum(s[i])
  }

  lemma {:induction false} PlainKept(s: string)
    requires Plain(s)
    ensures KeepNameChars(s) == s && CollapseSpace(s) == s
  {
    if s != [] {
      PlainKept(s[1..]);
    }
  }

  /** A first and a last name of letters and digits are joined by one `_`, whatever spaces lie between them. */
  lemma CleanNameOfFullName(first: string, gap: string, last: string)
    requires first != [] && last != [] && Plain(first) && Plain(last)
    requires gap != [] && AllSpace(gap)
    requires |first| + 1 + |last| <= 50
    ensures CleanName(first + (gap + last)) == first + "_" + last
  {
    var s := first + (gap + last);
    assert s[0] == first[0] && s[|s| - 1] == last[|last| - 1];
    AlnumNotSpace(first[0]);
    AlnumNotSpace(last[|last| - 1]);
    TrimmedIsFixed(s);
    FullNameKept(first, gap, last);
    FullNameCollapsed(first, gap, last);
  }

  lemma FullNameKept(first: string, gap: string, last: string)
    requires Plain(first) && Plain(last) && AllSpace(gap)
    ensures KeepNameChars(first + (gap + last)) == first + (gap + last)
  {
    KeepAppend(first, gap + last);
    KeepAppend(gap, last);
    PlainKept(first);
    PlainKept(last);
    KeepSpace(gap);
  }

  lemma FullNameCollapsed(first: string, gap: string, last: string)
    requires last != [] && Plain(first) && Plain(last) && gap != [] && AllSpace(gap)
    ensures CollapseSpace(first + (gap + last)) == first + "_" + last
  {
    AlnumNotSpace(last[0]);
    CollapsePlainThen(first, gap + last);
    TrimStartOfSpace(gap, last);
    PlainKept(last);
  }

  lemma {:induction false} KeepAppend(a: string, b: string)
    ensures KeepNameChars(a + b) == KeepNameChars(a) + KeepNameChars(b)
  {
    if a == [] {
      assert a + b == b;
    } else {
      assert (a + b)[0] == a[0] && (a + b)[1..] == a[1..] + b;
      KeepAppend(a[1..], b);
    }
  }

  lemma {:induction false} KeepSpace(s: string)
    requires AllSpace(s)
    ensures KeepNameChars(s) == s
  {
    if s != [] {
      KeepSpace(s[1..]);
    }
  }

  lemma {:induction false} TrimStartOfSpace(gap: string, rest: string)
    requires AllSpace(gap) && (rest == [] || !IsSpace(rest[0]))
    ensures TrimStart(gap + rest) == rest
  {
    if gap != [] {
      assert (gap + rest)[1..] == gap[1..] + rest;
      TrimStartOfSpace(gap[1..], rest);
    }
  }

  /** Collapsing runs through a leading stretch of letters and digits unchanged. */
  lemma {:induction false} CollapsePlainThen(a: string, b: string)
    requires Plain(a) && b != [] && IsSpace(b[0])
    ensures CollapseSpace(a + b) == a + "_" + CollapseSpace(TrimStart(b))
  {
    if a == [] {
      assert a + b == b;
      assert a + "_" == "_";
    } else {
      assert (a + b)[0] == a[0] && (a + b)[1..] == a[1..] + b;
      AlnumNotSpace(a[0]);
      assert CollapseSpace(a + b) == [a[0]] + CollapseSpace(a[1..] + b);
      CollapsePlainThen(a[1..], b);
      ConsJoin(a, CollapseSpace(TrimStart(b)));
    }
  }

  /** Runs of letters and digits separated by the whitespace runs `gaps`. */
  function Spaced(words: seq<string>, gaps: seq<string>): string
    requires |gaps| + 1 == |words|
  {
    if |gaps| == 0 then words[0] else words[0] + (gaps[0] + Spaced(words[1..], gaps[1..]))
  }

  /** The same runs joined by single `_`. */
  function Underscored(words: seq<string>): string
    requires words != []
  {
    if |words| == 1 then words[0] else words[0] + "_" + Underscored(words[1..])
  }

  /**
   * Each whitespace run becomes exactly one `_` and nothing else changes: words of letters and
   * digits separated by whitespace collapse to the words joined by `_`. Only the first and the
   * last word may be empty, which is leading or trailing whitespace.
   */
  lemma {:induction false} CollapseSpaced(words: seq<string>, gaps: seq<string>)
    requires |gaps| + 1 == |words|
    requires forall k :: 0 <= k < |words| ==> Plain(words[k])
    requires forall k :: 0 < k < |words| - 1 ==> words[k] != []
    requires forall k :: 0 <= k < |gaps| ==> gaps[k] != [] && AllSpace(gaps[k])
    ensures CollapseSpace(Spaced(words, gaps)) == Underscored(words)
  {
    if |gaps| == 0 {
      PlainKept(words[0]);
    } else {
      var rest := Spaced(words[1..], gaps[1..]);
      RestStartsPlain(words[1..], gaps[1..]);
      CollapsePlainThen(words[0], gaps[0] + rest);
      TrimStartOfSpace(gaps[0], rest);
      CollapseSpaced(words[1..], gaps[1..]);
    }
  }

  /** The spaced text starts with its first word, so not with whitespace when that word has a letter or digit. */
  lemma RestStartsPlain(words: seq<string>, gaps: seq<string>)
    requires |gaps| + 1 == |words|
    requires Plain(words[0])
    requires |gaps| > 0 ==> words[0] != []
    ensures var r := Spaced(words, gaps); r == [] || !IsSpace(r[0])
  {
    var r := Spaced(words, gaps);
    if words[0] != [] {
      assert r[0] == words[0][0];
      AlnumNotSpace(words[0][0]);
    }
  }

  lemma ConsJoin(a: string, x: string)
    requires a != []
    ensures [a[0]] + (a[1..] + "_" + x) == a + "_" + x
  {
    assert a == [a[0]] + a[1..];
  }

  lemma AlnumNotSpace(c: char)
    requires IsAsciiAlnum(c)
    ensures !IsSpace(c)
  {
  }

  // ---------------------------------------------------------------------------------------
  // Archive entry names
  // ---------------------------------------------------------------------------------------

  /** The `c`-th name tried for a file: `stem + ext` first, then `stem_1 + ext`, `stem_2 + ext`, ... */
  function Candidate(stem: string, ext: string, c: nat): string {
    if c == 0 then stem + ext else stem + "_" + NatToString(c) + ext
  }

  /** Different counters give different names. */
  lemma CandidateInjective(stem: string, ext: string, a: nat, b: nat)
    requires Candidate(stem, ext, a) == Candidate(stem, ext, b)
    ensures a == b
  {
    var x := Candidate(stem, ext, a);
    if a != 0 && b != 0 {
      var da, db := NatToString(a), NatToString(b);
      assert |da| == |db|;
      assert x[|stem| + 1..|stem| + 1 + |da|] == da;
      assert Candidate(stem, ext, b)[|stem| + 1..|stem| + 1 + |db|] == db;
      NatToStringInjective(a, b);
    }
  }

  /** When the first `n` names are all taken, at least `n` names are taken. */
  lemma {:induction false} CandidatesBound(stem: string, ext: string, used: set<string>, n: nat)
    requires forall c :: 0 <= c < n ==> Candidate(stem, ext, c) in used
    ensures n <= |used|
  {
    if n > 0 {
      var last := Candidate(stem, ext, n - 1);
      forall c | 0 <= c < n - 1
        ensures Candidate(stem, ext, c) in used - {last}
      {
        if Candidate(stem, ext, c) == last {
          CandidateInjective(stem, ext, c, n - 1);
        }
      }
      CandidatesBound(stem, ext, used - {last}, n - 1);
    }
  }

  function FirstFreeFrom(stem: string, ext: string, used: set<string>, c: nat): (r: nat)
    requires forall k :: 0 <= k < c ==> Candidate(stem, ext, k) in used
    ensures c <= r && Candidate(stem, ext, r) !in used
    ensures forall k :: 0 <= k < r ==> Candidate(stem, ext, k) in used
    decreases |used| - c
  {
    if Candidate(stem, ext, c) !in used then c
    else
      CandidatesBound(stem, ext, used, c + 1);
      FirstFreeFrom(stem, ext, used, c + 1)
  }

  /** The counter at which the de-duplication loop stops: the first name not yet used. */
  function FirstFree(stem: string, ext: string, used: set<string>): (r: nat)
    ensures Candidate(stem, ext, r) !in used
    ensures forall k :: 0 <= k < r ==> Candidate(stem, ext, k) in used
  {
    FirstFreeFrom(stem, ext, used, 0)
  }

  /** A counter whose name is free while all before it are taken is the first free one. */
  lemma FirstFreeUnique(stem: string, ext: string, used: set<string>, c: nat)
    requires Candidate(stem, ext, c) !in used
    requires forall k :: 0 <= k < c ==> Candidate(stem, ext, k) in used
    ensures FirstFree(stem, ext, used) == c
  {
  }

  /**
   * The de-duplication loop of the bulk download: tries `stem + ext`, then `stem_1 + ext`, ...
   * until a name is not among `processed`.
   */
  method NextName(stem: string, ext: string, processed: set<string>) returns (name: string)
    ensures name !in processed
    ensures name == Candidate(stem, ext, FirstFree(stem, ext, processed))
  {
    name := stem + ext;
    var counter: nat := 1;
    while name in processed
      invariant name == Candidate(stem, ext, counter - 1)
      invariant forall k :: 0 <= k < counter - 1 ==> Candidate(stem, ext, k) in processed
      decreases |processed| - counter + 1
    {
      CandidatesBound(stem, ext, processed, counter);
      name := stem + "_" + NatToString(counter) + ext;
      counter := counter + 1;
    }
    FirstFreeUnique(stem, ext, processed, counter - 1);
  }

  function NameSet(names: seq<string>): set<string> {
    set n | n in names
  }

  /** The stem and the extension an entry name is built from. */
  datatype Key = Key(stem: string, ext: string)

  /** The entry names the loop gives the keys in order, each the first candidate no earlier key took. */
  function ArchiveNames(keys: seq<Key>): (r: seq<string>)
    ensures |r| == |keys|
  {
    if keys == [] then []
    else
      var prev := ArchiveNames(keys[..|keys| - 1]);
      var f := keys[|keys| - 1];
      prev + [Candidate(f.stem, f.ext, FirstFree(f.stem, f.ext, NameSet(prev)))]
  }

  lemma {:induction false} ArchiveNamesPrefix(keys: seq<Key>, k: nat)
    requires k <= |keys|
    ensures ArchiveNames(keys[..k]) == ArchiveNames(keys)[..k]
    decreases |keys|
  {
    if k < |keys| {
      assert keys[..|keys| - 1][..k] == keys[..k];
      ArchiveNamesPrefix(keys[..|keys| - 1], k);
    } else {
      assert keys[..k] == keys;
    }
  }

  predicate NamesDistinct(names: seq<string>) {
    forall j, k :: 0 <= j < k < |names| ==> names[j] != names[k]
  }

  /** No two keys are given the same name. */
  lemma {:induction false} ArchiveNamesDistinct(keys: seq<Key>)
    ensures NamesDistinct(ArchiveNames(keys))
  {
    if keys != [] {
      var prev := ArchiveNames(keys[..|keys| - 1]);
      ArchiveNamesDistinct(keys[..|keys| - 1]);
      var r := ArchiveNames(keys);
      forall j, k | 0 <= j < k < |r|
        ensures r[j] != r[k]
      {
        assert r[j] == prev[j] && prev[j] in NameSet(prev);
        if k == |prev| {
          assert r[k] !in NameSet(prev);
        } else {
          assert r[k] == prev[k];
        }
      }
    }
  }

  /**
   * Each key is named by the first of its candidates that no earlier key took: all smaller
   * counters are taken by earlier keys.
   */
  lemma ArchiveNameChosen(keys: seq<Key>, k: nat)
    requires k < |keys|
    ensures var r := ArchiveNames(keys);
            var f := keys[k];
            exists c: nat :: r[k] == Candidate(f.stem, f.ext, c) && r[k] !in r[..k] &&
                        forall c' :: 0 <= c' < c ==> Candidate(f.stem, f.ext, c') in r[..k]
  {
    var r := ArchiveNames(keys);
    ArchiveNamesPrefix(keys, k + 1);
    ArchiveNamesPrefix(keys, k);
    assert keys[..k + 1][..k] == keys[..k];
    var prev := ArchiveNames(keys[..k]);
    var f := keys[k];
    var c := FirstFree(f.stem, f.ext, NameSet(prev));
    assert r[k] == ArchiveNames(keys[..k + 1])[k] == Candidate(f.stem, f.ext, c);
    assert r[..k] == prev;
    assert forall x :: x in NameSet(prev) <==> x in prev;
  }

  /** A key whose plain name `stem + ext` no earlier key took is named by it. */
  lemma PlainNameWhenFree(keys: seq<Key>, k: nat)
    requires k < |keys|
    requires keys[k].stem + keys[k].ext !in ArchiveNames(keys)[..k]
    ensures ArchiveNames(keys)[k] == keys[k].stem + keys[k].ext
  {
    var r := ArchiveNames(keys);
    var f := keys[k];
    ArchiveNameChosen(keys, k);
    var c: nat :| r[k] == Candidate(f.stem, f.ext, c) && forall c' :: 0 <= c' < c ==> Candidate(f.stem, f.ext, c') in r[..k];
    assert Candidate(f.stem, f.ext, 0) == f.stem + f.ext;
  }

  // ---------------------------------------------------------------------------------------
  // downloadBulkResumes
  // ---------------------------------------------------------------------------------------

  /**
   * Where a stored resume link is looked for, below the backend directory `appRoot`: a link
   * starting with `http` names a file of `uploads` by its last part, a relative link is taken
   * from `appRoot`, an absolute one as it is.
   */
  function ResolvedPath(appRoot: string, link: string): string {
    if StartsWith(link, "http") then appRoot + "/uploads/" + Paths.LastPart(link)
    else if !StartsWith(link, "/") then appRoot + "/" + link
    else link
  }

  predicate EndsWith(s: string, suffix: string) {
    |suffix| <= |s| && s[|s| - |suffix|..] == suffix
  }

  /** One member of the archive: the file read and the name it is stored under. */
  datatype Entry = Entry(path: string, name: string)

  datatype DownloadOutcome =
    | IdsRequired
    | DownloadFailed
    | NoResumes
    | Archive(zipName: string, entries: seq<Entry>)

  function DownloadStatus(o: DownloadOutcome): nat {
    match o
    case IdsRequired => 400
    case DownloadFailed => 500
    case NoResumes => 404
    case Archive(_, _) => 200
  }

  /** The requested students that have a resume link: the rows of the query. */
  function ResumeRows(db: Db, ids: set<int>): set<int> {
    set id | id in ids && id in db.students && db.students[id].resumeLink.Some?
  }

  predicate HasResume(db: Db, id: int) {
    id in db.students && db.students[id].resumeLink.Some?
  }

  /** The path the loop looks for the resume of the row `id` at. */
  function PathOf(db: Db, id: int, appRoot: string): string
    requires HasResume(db, id)
  {
    ResolvedPath(appRoot, db.students[id].resumeLink.value)
  }

  /** A row with a resume link whose file is on disk. */
  predicate Available(db: Db, id: int, appRoot: string, onDisk: string -> bool) {
    HasResume(db, id) && onDisk(PathOf(db, id, appRoot))
  }

  /** The rows listed in id order all have a resume link. */
  lemma RowsHaveResumes(db: Db, ids: set<int>)
    ensures AllHaveResumes(db, Ordering.SortBy(ResumeRows(db, ids), Ordering.ById))
  {
    var order := Ordering.SortBy(ResumeRows(db, ids), Ordering.ById);
    assert forall k :: 0 <= k < |order| ==> order[k] in order;
  }

  /** The rows of `order` whose file is on disk, in order; the others are skipped. */
  function FoundRows(db: Db, order: seq<int>, appRoot: string, onDisk: string -> bool): (r: seq<int>)
    ensures |r| <= |order|
    ensures AllHaveResumes(db, r)
  {
    if order == [] then []
    else
      var prev := FoundRows(db, order[..|order| - 1], appRoot, onDisk);
      var id := order[|order| - 1];
      if Available(db, id, appRoot, onDisk) then prev + [id] else prev
  }

  /** Reading one more row adds it when its file is on disk. */
  lemma FoundRowsStep(db: Db, order: seq<int>, i: nat, appRoot: string, onDisk: string -> bool)
    requires i < |order|
    ensures FoundRows(db, order[..i + 1], appRoot, onDisk) ==
              FoundRows(db, order[..i], appRoot, onDisk) + if Available(db, order[i], appRoot, onDisk) then [order[i]] else []
  {
    assert order[..i + 1][..i] == order[..i];
  }

  /** The rows found are exactly the rows of the list whose file is on disk. */
  lemma {:induction false} FoundRowsExactly(db: Db, order: seq<int>, appRoot: string, onDisk: string -> bool)
    ensures var r := FoundRows(db, order, appRoot, onDisk);
            forall id :: id in r <==> id in order && Available(db, id, appRoot, onDisk)
  {
    if order != [] {
      var init := order[..|order| - 1];
      FoundRowsExactly(db, init, appRoot, onDisk);
      assert order == init + [order[|order| - 1]];
    }
  }

  /** The stem and extension the entry name of the row `id` is built from: the student's clean name and the file's lower-cased extension. */
  function KeyOf(db: Db, id: int, appRoot: string): Key
    requires HasResume(db, id)
  {
    Key(CleanName(db.students[id].name), ToLower(Paths.ExtName(PathOf(db, id, appRoot))))
  }

  predicate AllHaveResumes(db: Db, rows: seq<int>) {
    forall k :: 0 <= k < |rows| ==> HasResume(db, rows[k])
  }

  /** The paths of the files of `rows`, in order. */
  function RowPaths(db: Db, rows: seq<int>, appRoot: string): (r: seq<string>)
    requires AllHaveResumes(db, rows)
    ensures |r| == |rows|
  {
    if rows == [] then [] else RowPaths(db, rows[..|rows| - 1], appRoot) + [PathOf(db, rows[|rows| - 1], appRoot)]
  }

  /** The keys of the files of `rows`, in order. */
  function RowKeys(db: Db, rows: seq<int>, appRoot: string): (r: seq<Key>)
    requires AllHaveResumes(db, rows)
    ensures |r| == |rows|
  {
    if rows == [] then [] else RowKeys(db, rows[..|rows| - 1], appRoot) + [KeyOf(db, rows[|rows| - 1], appRoot)]
  }

  /** One more row adds its path and its key at the end. */
  lemma RowsAppend(db: Db, rows: seq<int>, id: int, appRoot: string)
    requires AllHaveResumes(db, rows) && HasResume(db, id)
    ensures AllHaveResumes(db, rows + [id])
    ensures RowPaths(db, rows + [id], appRoot) == RowPaths(db, rows, appRoot) + [PathOf(db, id, appRoot)]
    ensures RowKeys(db, rows + [id], appRoot) == RowKeys(db, rows, appRoot) + [KeyOf(db, id, appRoot)]
  {
    assert (rows + [id])[..|rows|] == rows;
  }

  /** The `k`-th path and key are those of the `k`-th row. */
  lemma {:induction false} RowsAt(db: Db, rows: seq<int>, appRoot: string, k: nat)
    requires AllHaveResumes(db, rows) && k < |rows|
    ensures RowPaths(db, rows, appRoot)[k] == PathOf(db, rows[k], appRoot)
    ensures RowKeys(db, rows, appRoot)[k] == KeyOf(db, rows[k], appRoot)
  {
    if k < |rows| - 1 {
      var init := rows[..|rows| - 1];
      assert AllHaveResumes(db, init) by {
        assert forall j :: 0 <= j < |init| ==> init[j] == rows[j];
      }
      RowsAt(db, init, appRoot, k);
    }
  }

  /** The archive entries: the `k`-th path under the name the loop gives the `k`-th key. */
  function Entries(paths: seq<string>, keys: seq<Key>): (r: seq<Entry>)
    requires |paths| == |keys|
    ensures |r| == |paths|
  {
    var names := ArchiveNames(keys);
    seq(|paths|, k requires 0 <= k < |paths| => Entry(paths[k], names[k]))
  }

  /** The names of the entries are the names given to the keys, in order. */
  lemma NamesOfEntries(paths: seq<string>, keys: seq<Key>)
    requires |paths| == |keys|
    ensures NamesOf(Entries(paths, keys)) == ArchiveNames(keys)
  {
    var r := NamesOf(Entries(paths, keys));
    assert forall k :: 0 <= k < |r| ==> r[k] == ArchiveNames(keys)[k];
  }

  /** Naming one more file appends the first free candidate for its key. */
  lemma EntriesStep(paths: seq<string>, keys: seq<Key>, path: string, key: Key)
    requires |paths| == |keys|
    ensures var name := Candidate(key.stem, key.ext, FirstFree(key.stem, key.ext, NameSet(ArchiveNames(keys))));
            Entries(paths + [path], keys + [key]) == Entries(paths, keys) + [Entry(path, name)] &&
            NameSet(ArchiveNames(keys + [key])) == NameSet(ArchiveNames(keys)) + {name}
  {
    assert (keys + [key])[..|keys|] == keys;
    var name := Candidate(key.stem, key.ext, FirstFree(key.stem, key.ext, NameSet(ArchiveNames(keys))));
    assert ArchiveNames(keys + [key]) == ArchiveNames(keys) + [name];
    var a := Entries(paths + [path], keys + [key]);
    var b := Entries(paths, keys) + [Entry(path, name)];
    forall k | 0 <= k < |a|
      ensures a[k] == b[k]
    {
      assert (paths + [path])[k] == if k < |paths| then paths[k] else path;
    }
  }

  /**
   * `downloadBulkResumes`: an id list that is missing or empty is refused, one that is not a list
   * of 32-bit integers fails, no requested student with a resume link gives 404; otherwise the
   * archive `Resumes_<date>.zip` holds one entry per row (in id order) whose file exists.
   * `today` is the date part of the current time; `onDisk` says which paths hold a file.
   */
  function DownloadPlan(db: Db, studentIds: JsArray<JsValue>, appRoot: string, onDisk: string -> bool,
                        today: string): DownloadOutcome
  {
    if !studentIds.Items? || studentIds.items == [] then IdsRequired
    else
      var ids := IdList(studentIds.items);
      if ids.None? then DownloadFailed
      else if ResumeRows(db, ids.value) == {} then NoResumes
      else Archive("Resumes_" + today + ".zip", ArchiveOf(db, ids.value, appRoot, onDisk))
  }

  /** The entries of the archive for the requested ids `ids`: the rows in id order, each file found named in turn. */
  function ArchiveOf(db: Db, ids: set<int>, appRoot: string, onDisk: string -> bool): seq<Entry> {
    var rows := FoundRows(db, Ordering.SortBy(ResumeRows(db, ids), Ordering.ById), appRoot, onDisk);
    Entries(RowPaths(db, rows, appRoot), RowKeys(db, rows, appRoot))
  }

  function NamesOf(entries: seq<Entry>): (r: seq<string>)
    ensures |r| == |entries| && forall k :: 0 <= k < |r| ==> r[k] == entries[k].name
  {
    seq(|entries|, k requires 0 <= k < |entries| => entries[k].name)
  }

  /** Each name tried starts with the stem and ends with the extension. */
  lemma CandidateShape(stem: string, ext: string, c: nat)
    ensures var n := Candidate(stem, ext, c);
            StartsWith(n, stem) && EndsWith(n, ext)
  {
  }

  /** The refusals of the bulk download, each exactly when its condition holds. */
  lemma DownloadRefusals(db: Db, studentIds: JsArray<JsValue>, appRoot: string, onDisk: string -> bool, today: string)
    ensures var o := DownloadPlan(db, studentIds, appRoot, onDisk, today);
            (o.IdsRequired? <==> !studentIds.Items? || studentIds.items == []) &&
            (o.DownloadFailed? <==>
               studentIds.Items? && studentIds.items != [] &&
               exists k :: 0 <= k < |studentIds.items| &&
                 (ParseIntValue(studentIds.items[k]).None? || !IsInt32(ParseIntValue(studentIds.items[k]).value))) &&
            (o.NoResumes? <==>
               studentIds.Items? && studentIds.items != [] && IdList(studentIds.items).Some? &&
               ResumeRows(db, IdList(studentIds.items).value) == {}) &&
            (o.Archive? ==> o.zipName == "Resumes_" + today + ".zip")
  {
    if studentIds.Items? {
      IdListReads(studentIds.items);
    }
  }

  /** No requested student with a resume link means nothing is packed; the ids read are exactly the values sent. */
  lemma NoResumesMeansNoneRequested(db: Db, studentIds: JsArray<JsValue>, appRoot: string, onDisk: string -> bool, today: string)
    requires DownloadPlan(db, studentIds, appRoot, onDisk, today).NoResumes?
    ensures forall k :: 0 <= k < |studentIds.items| ==>
              ParseIntValue(studentIds.items[k]).Some? && !HasResume(db, ParseIntValue(studentIds.items[k]).value)
  {
    var ids := IdList(studentIds.items).value;
    IdListReads(studentIds.items);
    forall k | 0 <= k < |studentIds.items|
      ensures ParseIntValue(studentIds.items[k]).Some? && !HasResume(db, ParseIntValue(studentIds.items[k]).value)
    {
      var id := ParseIntValue(studentIds.items[k]).value;
      assert id in ids;
      assert id !in ResumeRows(db, ids);
    }
  }

  /** No two entries of the archive share a name. */
  lemma ArchiveNamesUnique(db: Db, ids: set<int>, appRoot: string, onDisk: string -> bool)
    ensures NamesDistinct(NamesOf(ArchiveOf(db, ids, appRoot, onDisk)))
  {
    var rows := FoundRows(db, Ordering.SortBy(ResumeRows(db, ids), Ordering.ById), appRoot, onDisk);
    var keys := RowKeys(db, rows, appRoot);
    ArchiveNamesDistinct(keys);
    NamesOfEntries(RowPaths(db, rows, appRoot), keys);
  }

  /**
   * Each entry of the archive is the file of a requested student with a resume link, found on
   * disk, stored under the student's clean name, an optional `_N`, and the lower-cased
   * extension of the file.
   */
  lemma ArchiveSound(db: Db, ids: set<int>, appRoot: string, onDisk: string -> bool)
    ensures var entries := ArchiveOf(db, ids, appRoot, onDisk);
            forall k :: 0 <= k < |entries| ==> FromRequest(db, ids, appRoot, onDisk, entries[k])
  {
    var entries := ArchiveOf(db, ids, appRoot, onDisk);
    forall k | 0 <= k < |entries|
      ensures FromRequest(db, ids, appRoot, onDisk, entries[k])
    {
      EntryOfRow(db, ids, appRoot, onDisk, k);
    }
  }

  /**
   * The entry `e` is the file of a requested student with a resume link, found on disk, stored
   * under a name that starts with the student's clean name and ends with the lower-cased
   * extension of the file.
   */
  predicate FromRequest(db: Db, ids: set<int>, appRoot: string, onDisk: string -> bool, e: Entry) {
    exists id :: id in ids && Available(db, id, appRoot, onDisk) && e.path == PathOf(db, id, appRoot) &&
      StartsWith(e.name, CleanName(db.students[id].name)) &&
      EndsWith(e.name, ToLower(Paths.ExtName(PathOf(db, id, appRoot))))
  }

  lemma EntryOfRow(db: Db, ids: set<int>, appRoot: string, onDisk: string -> bool, k: nat)
    requires k < |ArchiveOf(db, ids, appRoot, onDisk)|
    ensures FromRequest(db, ids, appRoot, onDisk, ArchiveOf(db, ids, appRoot, onDisk)[k])
  {
    var order := Ordering.SortBy(ResumeRows(db, ids), Ordering.ById);
    var rows := FoundRows(db, order, appRoot, onDisk);
    var paths := RowPaths(db, rows, appRoot);
    var keys := RowKeys(db, rows, appRoot);
    var names := ArchiveNames(keys);
    var e := ArchiveOf(db, ids, appRoot, onDisk)[k];
    assert e == Entry(paths[k], names[k]);
    FoundRowsExactly(db, order, appRoot, onDisk);
    var id := rows[k];
    assert id in rows;
    RowsAt(db, rows, appRoot, k);
    var f := keys[k];
    ArchiveNameChosen(keys, k);
    var c: nat :| names[k] == Candidate(f.stem, f.ext, c);
    CandidateShape(f.stem, f.ext, c);
    assert id in ids && Available(db, id, appRoot, onDisk) && e.path == PathOf(db, id, appRoot);
    assert f == KeyOf(db, id, appRoot);
  }

  /** Every requested student with a resume link whose file is on disk has an entry for that file. */
  lemma ArchiveComplete(db: Db, ids: set<int>, appRoot: string, onDisk: string -> bool)
    ensures var entries := ArchiveOf(db, ids, appRoot, onDisk);
            forall id :: id in ids && Available(db, id, appRoot, onDisk) ==>
              exists k :: 0 <= k < |entries| && entries[k].path == PathOf(db, id, appRoot)
  {
    var order := Ordering.SortBy(ResumeRows(db, ids), Ordering.ById);
    var rows := FoundRows(db, order, appRoot, onDisk);
    var entries := ArchiveOf(db, ids, appRoot, onDisk);
    FoundRowsExactly(db, order, appRoot, onDisk);
    forall id | id in ids && Available(db, id, appRoot, onDisk)
      ensures exists k :: 0 <= k < |entries| && entries[k].path == PathOf(db, id, appRoot)
    {
      assert id in ResumeRows(db, ids) && id in order;
      var k :| 0 <= k < |rows| && rows[k] == id;
      RowsAt(db, rows, appRoot, k);
      assert entries[k].path == RowPaths(db, rows, appRoot)[k] == PathOf(db, id, appRoot);
    }
  }

  /** The bulk download: reads the store, refuses what it must, then packs the rows in id order. */
  method DownloadBulkResumes(store: Database.Store, studentIds: JsArray<JsValue>, appRoot: string,
                             onDisk: string -> bool, today: string) returns (o: DownloadOutcome)
    ensures o == DownloadPlan(store.State(), studentIds, appRoot, onDisk, today)
  {
    var db := store.State();
    if !studentIds.Items? || studentIds.items == [] {
      return IdsRequired;
    }
    var ids := IdList(studentIds.items);
    if ids.None? {
      return DownloadFailed;
    }
    var rows := ResumeRows(db, ids.value);
    if rows == {} {
      return NoResumes;
    }
    var order := Ordering.SortBy(rows, Ordering.ById);
    RowsHaveResumes(db, ids.value);
    var entries := PackResumes(db, order, appRoot, onDisk);
    o := Archive("Resumes_" + today + ".zip", entries);
  }

  /**
   * The loop of the bulk download over the rows of the query: a row whose file is not on disk
   * is skipped, the others are named with the de-duplication loop and added in turn.
   */
  method PackResumes(db: Db, order: seq<int>, appRoot: string, onDisk: string -> bool) returns (entries: seq<Entry>)
    requires AllHaveResumes(db, order)
    ensures var found := FoundRows(db, order, appRoot, onDisk);
            entries == Entries(RowPaths(db, found, appRoot), RowKeys(db, found, appRoot))
  {
    entries := [];
    var processed: set<string> := {};
    ghost var found: seq<int> := [];
    ghost var paths: seq<string> := [];
    ghost var keys: seq<Key> := [];
    for i := 0 to |order|
      invariant found == FoundRows(db, order[..i], appRoot, onDisk)
      invariant paths == RowPaths(db, found, appRoot) && keys == RowKeys(db, found, appRoot)
      invariant entries == Entries(paths, keys)
      invariant processed == NameSet(ArchiveNames(keys))
    {
      assert HasResume(db, order[i]);
      var st := db.students[order[i]];
      var path := ResolvedPath(appRoot, st.resumeLink.value);
      FoundRowsStep(db, order, i, appRoot, onDisk);
      if onDisk(path) {
        var stem := CleanName(st.name);
        var ext := ToLower(Paths.ExtName(path));
        var name := NextName(stem, ext, processed);
        EntriesStep(paths, keys, path, Key(stem, ext));
        RowsAppend(db, found, order[i], appRoot);
        assert KeyOf(db, order[i], appRoot) == Key(stem, ext);
        processed := processed + {name};
        entries := entries + [Entry(path, name)];
        found := found + [order[i]];
        paths := paths + [path];
        keys := keys + [Key(stem, ext)];
      }
    }
    assert order[..|order|] == order;
  }
}
