/**
  The upload helpers used by the `src/` API route: `validateFile` without
  an empty-file check, and the strict `sanitizeFilename` (replaces `_` runs by
  one `_`, keeps `..`, at most 100 characters).
 */
module SrcUtils {
  import opened Wrappers
  import opened Text
  import opened FileMeta

  /** The three outcomes of `validateFile` that are not `null`. */
  datatype ValidationError = NoFile | TooLarge(maxSize: int) | TypeNotAllowed

  /** The message `validateFile` returns for each error. */
  function Message(e: ValidationError): (m: string)
    ensures |m| > 0
  {
    match e
    case NoFile => "No file provided"
    case TooLarge(maxSize) => "File too large. Max size: " + MebibyteText(maxSize) + "MB"
    case TypeNotAllowed => "File type not allowed for security reasons"
  }

  /**
    The upload checks, in the source's order: a missing file, then the size
    limit, then the denylist; `None` stands for `null`.
   */
  function ValidateFile(file: Option<File>, maxSize: int): (r: Option<ValidationError>)
    ensures r == None <==> file.Some? && file.value.size <= maxSize && !IsDangerous(file.value.name)
    ensures r == Some(NoFile) <==> file.None?
    ensures r == Some(TooLarge(maxSize)) <==> file.Some? && file.value.size > maxSize
    ensures r == Some(TypeNotAllowed) <==>
              file.Some? && file.value.size <= maxSize && IsDangerous(file.value.name)
  {
    match file
    case None => Some(NoFile)
    case Some(f) =>
      if f.size > maxSize then Some(TooLarge(maxSize))
      else if IsDangerous(f.name) then Some(TypeNotAllowed)
      else None
  }

  /** There is no empty-file check: an empty file with a harmless name is accepted. */
  lemma EmptyFileAccepted(name: string)
    requires !IsDangerous(name)
    ensures ValidateFile(Some(File(name, 0)), DefaultMaxSize) == None
  {
  }

  /** Characters that survive `/[^a-zA-Z0-9.-]/g`; `_` is not one of them. */
  predicate IsKeptChar(c: char) {
    IsUpper(c) || IsLower(c) || IsDigit(c) || c == '.' || c == '-'
  }

  /** The characters a sanitized name is made of: the kept ones and `_`. */
  predicate AllSafe(s: string) {
    forall i :: 0 <= i < |s| ==> IsKeptChar(s[i]) || s[i] == '_'
  }

  /** No two consecutive underscores. */
  predicate NoDoubleUnderscore(s: string) {
    forall i :: 0 <= i < |s| - 1 ==> !(s[i] == '_' && s[i + 1] == '_')
  }

  const MaxNameLength := 100

  /** `replace(/[^a-zA-Z0-9.-]/g, '_')`. */
  function ReplaceDisallowed(s: string): (r: string)
    ensures |r| == |s| && AllSafe(r)
    ensures forall i :: 0 <= i < |s| && IsKeptChar(s[i]) ==> r[i] == s[i]
    ensures forall i :: 0 <= i < |s| && !IsKeptChar(s[i]) ==> r[i] == '_'
  {
    if s == [] then []
    else [if IsKeptChar(s[0]) then s[0] else '_'] + ReplaceDisallowed(s[1..])
  }

  /**
    `replace(/_{2,}/g, '_')`: each maximal run of underscores becomes one
    underscore; every other character stays.
   */
  function CollapseUnderscores(s: string): (r: string)
    ensures |r| <= |s|
    ensures NoDoubleUnderscore(r)
    ensures s != [] ==> r != [] && r[0] == s[0]
    ensures Without(r, '_') == Without(s, '_')
    ensures AllSafe(s) ==> AllSafe(r)
    ensures NoDoubleUnderscore(s) ==> r == s
  {
    if |s| >= 2 && s[0] == '_' && s[1] == '_' then
      var r := CollapseUnderscores(s[1..]);
      assert Without(s, '_') == Without(s[1..], '_');
      r
    else if s == [] then []
    else
      var t := CollapseUnderscores(s[1..]);
      var r := [s[0]] + t;
      assert r[1..] == t;
      r
  }

  /** A run of `k >= 1` underscores in front of anything but `_` becomes exactly one `_`. */
  lemma {:induction false} UnderscoreRunCollapses(k: nat, rest: string)
    requires k >= 1 && (rest == [] || rest[0] != '_')
    ensures CollapseUnderscores(Repeat('_', k) + rest) == "_" + CollapseUnderscores(rest)
  {
    var s := Repeat('_', k) + rest;
    if k >= 2 {
      assert s[0] == '_' && s[1] == '_';
      assert s[1..] == Repeat('_', k - 1) + rest;
      UnderscoreRunCollapses(k - 1, rest);
    } else {
      assert s == "_" + rest;
      assert s[1..] == rest;
    }
  }

  /**
    Cutting the input after a character other than `_` cuts the output at the
    same place: no `_` run spans the cut.
   */
  lemma {:induction false} CollapseUnderscoresSplit(a: string, b: string)
    requires a == [] || a[|a| - 1] != '_'
    ensures CollapseUnderscores(a + b) == CollapseUnderscores(a) + CollapseUnderscores(b)
  {
    if a == [] {
      assert a + b == b;
    } else if |a| >= 2 && a[0] == '_' && a[1] == '_' {
      CollapseUnderscoresSplit(a[1..], b);
      UnderscorePairSplit(a, b);
    } else {
      CollapseUnderscoresSplit(a[1..], b);
      KeptHeadSplit(a, b);
    }
  }

  /** The first `_` of a leading `__` in `a` is dropped on both sides of the cut. */
  lemma UnderscorePairSplit(a: string, b: string)
    requires |a| >= 2 && a[0] == '_' && a[1] == '_'
    requires CollapseUnderscores(a[1..] + b) == CollapseUnderscores(a[1..]) + CollapseUnderscores(b)
    ensures CollapseUnderscores(a + b) == CollapseUnderscores(a) + CollapseUnderscores(b)
  {
    var s := a + b;
    assert s[0] == '_' && s[1] == '_';
    DropFirstOfAppend(a, b);
  }

  /** When the head of `a` starts no `__`, it is kept in front of both sides. */
  lemma KeptHeadSplit(a: string, b: string)
    requires a != [] && a[|a| - 1] != '_' && !(|a| >= 2 && a[0] == '_' && a[1] == '_')
    requires CollapseUnderscores(a[1..] + b) == CollapseUnderscores(a[1..]) + CollapseUnderscores(b)
    ensures CollapseUnderscores(a + b) == CollapseUnderscores(a) + CollapseUnderscores(b)
  {
    var s := a + b;
    assert a[0] == '_' ==> |a| >= 2;
    assert s[0] == a[0] && (|a| >= 2 ==> s[1] == a[1]);
    DropFirstOfAppend(a, b);
    var ra, rb := CollapseUnderscores(a[1..]), CollapseUnderscores(b);
    assert CollapseUnderscores(s) == [a[0]] + (ra + rb);
    ConsAppend(a[0], ra, rb);
  }

  /** `sanitizeFilename`: replace disallowed characters, collapse `_` runs, keep at most 100. */
  function SanitizeFilename(filename: string): (r: string)
    ensures AllSafe(r) && NoDoubleUnderscore(r)
    ensures |r| <= MaxNameLength && |r| <= |filename|
  {
    Substring(CollapseUnderscores(ReplaceDisallowed(filename)), 0, MaxNameLength)
  }

  /** A name already made of safe characters, without `__` and short enough, is returned unchanged. */
  lemma {:induction false} SafeNameUnchanged(s: string)
    requires AllSafe(s) && NoDoubleUnderscore(s) && |s| <= MaxNameLength
    ensures SanitizeFilename(s) == s
  {
    assert ReplaceDisallowed(s) == s;
  }

  /** `sanitizeFilename` changes its input exactly when the input is not already safe. */
  lemma SanitizeFixedPointIff(s: string)
    ensures SanitizeFilename(s) == s <==> AllSafe(s) && NoDoubleUnderscore(s) && |s| <= MaxNameLength
  {
    if AllSafe(s) && NoDoubleUnderscore(s) && |s| <= MaxNameLength {
      SafeNameUnchanged(s);
    }
  }

  /** Sanitizing twice is sanitizing once. */
  lemma SanitizeIdempotent(s: string)
    ensures SanitizeFilename(SanitizeFilename(s)) == SanitizeFilename(s)
  {
    SafeNameUnchanged(SanitizeFilename(s));
  }

  /** A non-empty name never sanitizes to the empty string. */
  lemma NonEmptyNameStaysNonEmpty(s: string)
    requires s != []
    ensures SanitizeFilename(s) != []
  {
  }

  /** The default limit appears as 100 MiB in the size message. */
  lemma DefaultTooLargeMessage()
    ensures Message(TooLarge(DefaultMaxSize)) == "File too large. Max size: 100MB"
  {
    DefaultLimitText();
  }

  /** Dots are kept, so a traversal prefix keeps its `..` and loses only the slash. */
  lemma TraversalKeepsDots()
    ensures SanitizeFilename("../x") == ".._x"
  {
    var r := ReplaceDisallowed("../x");
    assert IsKeptChar('.') && !IsKeptChar('/') && IsKeptChar('x');
    assert r[0] == '.' && r[1] == '.' && r[2] == '_' && r[3] == 'x';
    assert r == ".._x";
    assert NoDoubleUnderscore(".._x");
  }
}
