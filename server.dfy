/**
 * The decisions the server makes itself: which uploads the file filter lets through, the name
 * an upload is stored under, how the error handler answers, and which unmatched paths get the
 * single-page application. Express, multer and the file system are left to their libraries.
 */
module Server {
  import opened JsText
  import Paths

  // ---------------------------------------------------------------- fileFilter

  /** The spreadsheet content types. */
  const ExcelTypes: seq<string> := [
    "application/vnd.openxmlformats-officedocument.spreadsheetml.sheet",
    "application/vnd.ms-excel"
  ]

  /** The résumé content types: PDF, DOC and DOCX. */
  const ResumeTypes: seq<string> := [
    "application/pdf",
    "application/msword",
    "application/vnd.openxmlformats-officedocument.wordprocessingml.document"
  ]

  datatype FilterDecision = Accept | Refuse(message: string)

  const WrongExcelType: string := "Invalid Excel file type. Only .xlsx and .xls files are allowed."
  const WrongResumeType: string := "Invalid resume file type. Only PDF, DOC, and DOCX files are allowed."
  const UnknownTypeForExcel: string := "Invalid file type. Only Excel files (.xlsx, .xls) are allowed."
  const UnknownTypeOtherwise: string := "Invalid file type. Only PDF, DOC, and DOCX files are allowed for resumes."

  /**
   * `fileFilter`: a known type is accepted unless it is of the other kind than its field asks
   * for; an unknown type is refused with a message chosen by the field name alone.
   */
  function FileFilter(fieldname: string, mimetype: string): (r: FilterDecision)
    ensures r.Accept? <==>
              mimetype in ExcelTypes + ResumeTypes &&
              (fieldname == "excel" ==> mimetype in ExcelTypes) &&
              (fieldname == "resume" ==> mimetype in ResumeTypes)
  {
    if mimetype in ExcelTypes + ResumeTypes then
      if fieldname == "excel" && mimetype !in ExcelTypes then Refuse(WrongExcelType)
      else if fieldname == "resume" && mimetype !in ResumeTypes then Refuse(WrongResumeType)
      else Accept
    else
      Refuse(if fieldname == "excel" then UnknownTypeForExcel else UnknownTypeOtherwise)
  }

  /** The `excel` field takes exactly the spreadsheet types and the `resume` field exactly the résumé types. */
  lemma FieldTakesItsOwnKind(mimetype: string)
    ensures FileFilter("excel", mimetype).Accept? <==> mimetype in ExcelTypes
    ensures FileFilter("resume", mimetype).Accept? <==> mimetype in ResumeTypes
  {
  }

  /** A field of any other name takes every known type, of either kind. */
  lemma OtherFieldTakesEitherKind(fieldname: string, mimetype: string)
    requires fieldname != "excel" && fieldname != "resume"
    ensures FileFilter(fieldname, mimetype).Accept? <==> mimetype in ExcelTypes || mimetype in ResumeTypes
  {
  }

  /**
   * The message for an unknown type depends only on whether the field is `excel`: the résumé
   * wording is used for every other field, `resume` or not.
   */
  lemma UnknownTypeMessage(f1: string, m1: string, f2: string, m2: string)
    requires m1 !in ExcelTypes + ResumeTypes && m2 !in ExcelTypes + ResumeTypes
    requires (f1 == "excel") == (f2 == "excel")
    ensures FileFilter(f1, m1) == FileFilter(f2, m2)
    ensures FileFilter(f1, m1).Refuse? &&
            FileFilter(f1, m1).message == if f1 == "excel" then UnknownTypeForExcel else UnknownTypeOtherwise
  {
  }

  /** A file of the wrong known kind gets the message naming its field's kind. */
  lemma WrongKindMessage(mimetype: string)
    ensures mimetype in ResumeTypes ==> FileFilter("excel", mimetype) == Refuse(WrongExcelType)
    ensures mimetype in ExcelTypes ==> FileFilter("resume", mimetype) == Refuse(WrongResumeType)
  {
    assert forall m :: m in ResumeTypes ==> m !in ExcelTypes;
  }

  // ---------------------------------------------------------------- storage filename

  /** The replacement of `/[^a-zA-Z0-9]/g` by `_`, one character at a time. */
  predicate IsAsciiAlnum(c: char) {
    ('a' <= c <= 'z') || ('A' <= c <= 'Z') || ('0' <= c <= '9')
  }

  predicate IsWordChar(c: char) {
    IsAsciiAlnum(c) || c == '_'
  }

  /** `baseName.replace(/[^a-zA-Z0-9]/g, '_')`. */
  function CleanBase(s: string): (r: string)
    ensures |r| == |s|
    ensures forall i :: 0 <= i < |s| ==> IsWordChar(r[i])
    ensures forall i :: 0 <= i < |s| ==> (IsAsciiAlnum(s[i]) ==> r[i] == s[i]) && (!IsAsciiAlnum(s[i]) ==> r[i] == '_')
  {
    if s == [] then []
    else CleanBase(s[..|s| - 1]) + [if IsAsciiAlnum(s[|s| - 1]) then s[|s| - 1] else '_']
  }

  /** Cleaning changes a text exactly when it has a character other than a letter, a digit or `_`. */
  lemma CleanBaseFixedIff(s: string)
    ensures CleanBase(s) == s <==> forall i :: 0 <= i < |s| ==> IsWordChar(s[i])
  {
    if forall i :: 0 <= i < |s| ==> IsWordChar(s[i]) {
      assert forall i :: 0 <= i < |s| ==> CleanBase(s)[i] == s[i];
    }
  }

  /** Cleaning twice is cleaning once. */
  lemma CleanBaseIdempotent(s: string)
    ensures CleanBase(CleanBase(s)) == CleanBase(s)
  {
    CleanBaseFixedIff(CleanBase(s));
  }

  /**
   * `uniqueSuffix`: `Date.now()`, a `-`, and `Math.round(Math.random() * 1E9)`. The clock's
   * reading `millis` and the rounded draw `roll` are parameters.
   */
  function UniqueSuffix(millis: nat, roll: nat): string {
    NatToString(millis) + "-" + NatToString(roll)
  }

  /** `${file.fieldname}-${cleanBaseName}-${uniqueSuffix}${fileExtension}`. */
  function StoredFileName(fieldname: string, originalname: string, millis: nat, roll: nat): string {
    fieldname + "-" + CleanBase(Paths.Stem(originalname)) + "-" + UniqueSuffix(millis, roll) + Paths.ExtName(originalname)
  }

  /** The part of the stored name before its extension. */
  function StoredStem(fieldname: string, originalname: string, millis: nat, roll: nat): string {
    fieldname + "-" + CleanBase(Paths.Stem(originalname)) + "-" + UniqueSuffix(millis, roll)
  }

  /** Digits hold neither a `/`, a `.` nor a `-`. */
  lemma NumeralPlain(n: nat)
    ensures '/' !in NatToString(n) && '.' !in NatToString(n) && '-' !in NatToString(n)
  {
    var s := NatToString(n);
    forall i | 0 <= i < |s| ensures s[i] != '/' && s[i] != '.' && s[i] != '-' {
      assert IsDigit(s[i]);
    }
  }

  /** The cleaned stem holds neither a `/` nor a `.`. */
  lemma CleanPlain(s: string)
    ensures '/' !in CleanBase(s) && '.' !in CleanBase(s)
  {
    var c := CleanBase(s);
    forall i | 0 <= i < |c| ensures c[i] != '/' && c[i] != '.' {
      assert IsWordChar(c[i]);
    }
  }

  lemma StoredStemPlain(fieldname: string, originalname: string, millis: nat, roll: nat)
    requires '/' !in fieldname && '.' !in fieldname
    ensures var t := StoredStem(fieldname, originalname, millis, roll);
            '/' !in t && '.' !in t && |t| >= 4
  {
    NumeralPlain(millis);
    NumeralPlain(roll);
    CleanPlain(Paths.Stem(originalname));
  }

  /** An extension holds no `/`, being the end of a base name. */
  lemma ExtensionHasNoSlash(p: string)
    ensures '/' !in Paths.ExtName(p)
  {
    Paths.ExtNameShape(p);
    Paths.BaseNameNoSlash(p);
    var b := Paths.BaseName(p);
    var e := Paths.ExtName(p);
    assert forall i :: 0 <= i < |e| ==> e[i] == b[|b| - |e| + i];
  }

  /**
   * For a field name without `/` or `.` (the routes use `excel` and `resume`), the stored name is
   * a single path element, so the upload lands directly in `uploads/`, and it has the uploaded
   * file's extension, so `path.extname` of the stored file gives back what the client sent.
   */
  lemma StoredNameKeepsExtension(fieldname: string, originalname: string, millis: nat, roll: nat)
    requires '/' !in fieldname && '.' !in fieldname
    ensures var stored := StoredFileName(fieldname, originalname, millis, roll);
            '/' !in stored && Paths.BaseName(stored) == stored &&
            Paths.ExtName(stored) == Paths.ExtName(originalname) &&
            Paths.Stem(stored) == StoredStem(fieldname, originalname, millis, roll)
  {
    var t := StoredStem(fieldname, originalname, millis, roll);
    var e := Paths.ExtName(originalname);
    var stored := StoredFileName(fieldname, originalname, millis, roll);
    assert stored == t + e;
    StoredStemPlain(fieldname, originalname, millis, roll);
    ExtensionHasNoSlash(originalname);
    Paths.ExtNameShape(originalname);
    assert '/' !in stored by {
      assert forall c :: c in stored ==> c in t || c in e;
    }
    assert Paths.StripTrailingSlashes(stored) == stored;
    Paths.LastPartNoSlash(stored);
    if e == [] {
      assert stored == t;
      Paths.LastDotShape(stored);
      assert Paths.LastDot(stored) == -1;
    } else {
      var rest := e[1..];
      assert e == "." + rest;
      assert '/' !in rest by {
        assert forall c :: c in rest ==> c in e;
      }
      assert stored == t + "." + rest;
      Paths.ExtensionOfPlainName(t, rest);
    }
  }

  /**
   * Two uploads of the same file through the same field are stored under different names
   * unless the clock and the random draw both repeat.
   */
  lemma StoredNamesDistinct(fieldname: string, originalname: string, m1: nat, r1: nat, m2: nat, r2: nat)
    requires (m1, r1) != (m2, r2)
    ensures StoredFileName(fieldname, originalname, m1, r1) != StoredFileName(fieldname, originalname, m2, r2)
  {
    var head := fieldname + "-" + CleanBase(Paths.Stem(originalname)) + "-";
    var e := Paths.ExtName(originalname);
    var u1 := UniqueSuffix(m1, r1);
    var u2 := UniqueSuffix(m2, r2);
    if StoredFileName(fieldname, originalname, m1, r1) == StoredFileName(fieldname, originalname, m2, r2) {
      assert head + u1 + e == head + u2 + e;
      assert |u1| == |u2|;
      assert u1 == (head + u1 + e)[|head|..|head| + |u1|];
      assert u2 == (head + u2 + e)[|head|..|head| + |u2|];
      SuffixInjective(m1, r1, m2, r2);
    }
  }

  /** The suffix can be read back: the `-` between the numbers is the only one. */
  lemma SuffixInjective(m1: nat, r1: nat, m2: nat, r2: nat)
    requires UniqueSuffix(m1, r1) == UniqueSuffix(m2, r2)
    ensures m1 == m2 && r1 == r2
  {
    var a1 := NatToString(m1);
    var a2 := NatToString(m2);
    var u := UniqueSuffix(m1, r1);
    NumeralPlain(m1);
    NumeralPlain(m2);
    assert u == a1 + "-" + NatToString(r1) && u == a2 + "-" + NatToString(r2);
    assert u[|a1|] == '-' && u[|a2|] == '-';
    assert forall j :: 0 <= j < |a1| ==> u[j] == a1[j];
    assert forall j :: 0 <= j < |a2| ==> u[j] == a2[j];
    assert |a1| == |a2|;
    assert a1 == u[..|a1|] && a2 == u[..|a2|];
    NatToStringInjective(m1, m2);
    assert NatToString(r1) == u[|a1| + 1..] && NatToString(r2) == u[|a2| + 1..];
    NatToStringInjective(r1, r2);
  }

  // ---------------------------------------------------------------- error handler

  /** What reaches the error handler: an error multer raised, with its code, or any other error. */
  datatype ServerError = MulterError(code: string, message: string) | OtherError(message: string)

  datatype ErrorReply = ErrorReply(status: int, error: string)

  const FileTooLarge: string := "File too large. Maximum size allowed is 5MB."

  /** The upload size limit, 5 MB. */
  const MaxUploadBytes: nat := 5 * 1024 * 1024

  /**
   * The error handler: multer's errors are the client's (400, with a fixed text for an oversized
   * file), every other error is answered with 500 and its message, or a default when it has none.
   */
  function HandleError(e: ServerError): (r: ErrorReply)
    ensures r.status == 400 <==> e.MulterError?
    ensures r.status == 500 <==> e.OtherError?
  {
    match e
    case MulterError(code, message) =>
      if code == "LIMIT_FILE_SIZE" then ErrorReply(400, FileTooLarge) else ErrorReply(400, message)
    case OtherError(message) =>
      ErrorReply(500, if message != "" then message else "Internal server error")
  }

  /**
   * The filter refuses with a plain `Error`, not a multer one, so an upload of the wrong type is
   * answered with 500 and the filter's message, while an oversized upload is answered with 400.
   */
  lemma RefusedUploadIsServerError(fieldname: string, mimetype: string)
    requires FileFilter(fieldname, mimetype).Refuse?
    ensures HandleError(OtherError(FileFilter(fieldname, mimetype).message)) ==
            ErrorReply(500, FileFilter(fieldname, mimetype).message)
    ensures HandleError(MulterError("LIMIT_FILE_SIZE", "File too large")) == ErrorReply(400, FileTooLarge)
  {
  }

  // ---------------------------------------------------------------- SPA fallback

  datatype FallbackReply = RouteNotFound | FrontendIndex | BuildNotFound

  /**
   * The catch-all `GET`: a path under `/api` or `/uploads` that nothing served is 404 JSON;
   * any other path gets the built front end's index page when `indexExists`, else 404.
   */
  function Fallback(url: string, indexExists: bool): (r: FallbackReply)
    ensures r == RouteNotFound <==> StartsWith(url, "/api") || StartsWith(url, "/uploads")
    ensures r == FrontendIndex <==> !StartsWith(url, "/api") && !StartsWith(url, "/uploads") && indexExists
  {
    if StartsWith(url, "/api") || StartsWith(url, "/uploads") then RouteNotFound
    else if indexExists then FrontendIndex
    else BuildNotFound
  }

  /**
   * The test is on the text, not on path elements: `/apiary` and `/uploads2` are refused like
   * API paths, while `/API/x`, differing in case, and the root get the front end.
   */
  lemma PrefixIsTextual()
    ensures Fallback("/apiary", true) == RouteNotFound
    ensures Fallback("/uploads2", true) == RouteNotFound
    ensures Fallback("/API/x", true) == FrontendIndex
    ensures Fallback("/", true) == FrontendIndex && Fallback("/", false) == BuildNotFound
  {
    assert "/apiary"[..4] == "/api";
    assert "/uploads2"[..8] == "/uploads";
    assert "/API/x"[1] != "/api"[1];
    assert "/API/x"[..4] != "/api";
  }
}
