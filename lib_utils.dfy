/**
  The upload helpers used by the root API route: `validateFile`, the
  permissive `sanitizeFilename` (drops `..`, keeps `_`, at most 200
  characters) and `getClientIp`.
 */
module LibUtils {
  import opened Wrappers
  import opened Text
  import opened FileMeta

  /** The four outcomes of `validateFile` that are not `null`. */
  datatype ValidationError = NoFile | TooLarge(maxSize: int) | Empty | TypeNotAllowed

  /** The message `validateFile` returns for each error. */
  function Message(e: ValidationError): (m: string)
    ensures |m| > 0
  {
    match e
    case NoFile => "No file provided"
    case TooLarge(maxSize) => "File too large. Max: " + MebibyteText(maxSize) + "MB"
    case Empty => "File is empty"
    case TypeNotAllowed => "File type not allowed"
  }

  /**
    The upload checks, in the source's order: a missing file, then the size
    limit, then an empty file, then the denylist; `None` stands for `null`.
   */
  function ValidateFile(file: Option<File>, maxSize: int): (r: Option<ValidationError>)
    ensures r == None <==> file.Some? && 0 < file.value.size <= maxSize && !IsDangerous(file.value.name)
    ensures r == Some(NoFile) <==> file.None?
    ensures file.Some? && file.value.size > maxSize ==> r == Some(TooLarge(maxSize))
    ensures r == Some(Empty) <==> file.Some? && file.value.size == 0 && 0 <= maxSize
    ensures r == Some(TypeNotAllowed) <==>
              file.Some? && 0 < file.value.size <= maxSize && IsDangerous(file.value.name)
  {
    match file
    case None => Some(NoFile)
    case Some(f) =>
      if f.size > maxSize then Some(TooLarge(maxSize))
      else if f.size == 0 then Some(Empty)
      else if IsDangerous(f.name) then Some(TypeNotAllowed)
      else None
  }

  /** The default limit appears as 100 MiB in the size message. */
  lemma DefaultTooLargeMessage()
    ensures Message(TooLarge(DefaultMaxSize)) == "File too large. Max: 100MB"
  {
    DefaultLimitText();
  }

  /** An empty `virus.exe` within the limit is reported as empty, not as a refused type. */
  lemma EmptyCheckedBeforeType()
    ensures ValidateFile(Some(File("virus.exe", 0)), DefaultMaxSize) == Some(Empty)
  {
  }

  /** An oversized `.exe` is reported as too large. */
  lemma SizeCheckedBeforeType(name: string, size: nat)
    requires size > DefaultMaxSize
    ensures ValidateFile(Some(File(name, size)), DefaultMaxSize) == Some(TooLarge(DefaultMaxSize))
  {
  }

  /** Characters that survive `/[^a-zA-Z0-9._-]/g`. */
  predicate IsSafeChar(c: char) {
    IsUpper(c) || IsLower(c) || IsDigit(c) || c == '.' || c == '_' || c == '-'
  }

  predicate AllSafe(s: string) {
    forall i :: 0 <= i < |s| ==> IsSafeChar(s[i])
  }

  /** No two consecutive dots. */
  predicate NoDotDot(s: string) {
    forall i :: 0 <= i < |s| - 1 ==> !(s[i] == '.' && s[i + 1] == '.')
  }

  /** A character in front of a string without `..` adds none unless both are dots. */
  lemma NoDotDotCons(x: char, t: string)
    requires NoDotDot(t) && (x == '.' ==> t == [] || t[0] != '.')
    ensures NoDotDot([x] + t)
  {
    var r := [x] + t;
    forall i | 0 <= i < |r| - 1 ensures !(r[i] == '.' && r[i + 1] == '.') {
      if i > 0 {
        assert r[i] == t[i - 1] && r[i + 1] == t[i];
      }
    }
  }

  const MaxNameLength := 200

  /**
    `replace(/\.\./g, '')`: the match is non-overlapping and runs left to
    right, so every pair of dots met in a run is dropped.
   */
  function RemoveDotDot(s: string): (r: string)
    ensures |r| <= |s|
    ensures NoDotDot(r)
    ensures s != [] && s[0] != '.' ==> r != [] && r[0] == s[0]
    ensures NoDotDot(s) ==> r == s
    ensures Without(r, '.') == Without(s, '.')
  {
    if |s| >= 2 && s[0] == '.' && s[1] == '.' then
      var r := RemoveDotDot(s[2..]);
      assert s[1..][1..] == s[2..];
      assert Without(s, '.') == Without(s[1..], '.') == Without(s[2..], '.');
      r
    else if s == [] then []
    else
      var t := RemoveDotDot(s[1..]);
      var r := [s[0]] + t;
      assert r[1..] == t;
      NoDotDotCons(s[0], t);
      WithoutCons(s[0], t, '.');
      r
  }

  /**
    Cutting the input after a character other than `.` cuts the output at the
    same place: no `..` match spans the cut.
   */
  lemma {:induction false} RemoveDotDotSplit(a: string, b: string)
    requires a == [] || a[|a| - 1] != '.'
    ensures RemoveDotDot(a + b) == RemoveDotDot(a) + RemoveDotDot(b)
  {
    if a == [] {
      assert a + b == b;
    } else if |a| >= 2 && a[0] == '.' && a[1] == '.' {
      RemoveDotDotSplit(a[2..], b);
      DotPairSplit(a, b);
    } else {
      RemoveDotDotSplit(a[1..], b);
      KeptHeadSplit(a, b);
    }
  }

  /** A leading `..` of `a` is dropped on both sides of the cut. */
  lemma DotPairSplit(a: string, b: string)
    requires |a| >= 2 && a[0] == '.' && a[1] == '.'
    requires RemoveDotDot(a[2..] + b) == RemoveDotDot(a[2..]) + RemoveDotDot(b)
    ensures RemoveDotDot(a + b) == RemoveDotDot(a) + RemoveDotDot(b)
  {
    var s := a + b;
    assert s[0] == '.' && s[1] == '.';
    DropFirstOfAppend(a, b);
    DropFirstOfAppend(a[1..], b);
    assert s[1..][1..] == s[2..] && a[1..][1..] == a[2..];
  }

  /** When the head of `a` starts no `..`, it is kept in front of both sides. */
  lemma KeptHeadSplit(a: string, b: string)
    requires a != [] && a[|a| - 1] != '.' && !(|a| >= 2 && a[0] == '.' && a[1] == '.')
    requires RemoveDotDot(a[1..] + b) == RemoveDotDot(a[1..]) + RemoveDotDot(b)
    ensures RemoveDotDot(a + b) == RemoveDotDot(a) + RemoveDotDot(b)
  {
    var s := a + b;
    assert a[0] == '.' ==> |a| >= 2;
    assert s[0] == a[0] && (|a| >= 2 ==> s[1] == a[1]);
    DropFirstOfAppend(a, b);
    var ra, rb := RemoveDotDot(a[1..]), RemoveDotDot(b);
    assert RemoveDotDot(s) == [a[0]] + (ra + rb);
    ConsAppend(a[0], ra, rb);
  }

  /** `replace(/[^a-zA-Z0-9._-]/g, '_')`. */
  function ReplaceUnsafe(s: string): (r: string)
    ensures |r| == |s| && AllSafe(r)
    ensures forall i :: 0 <= i < |s| && IsSafeChar(s[i]) ==> r[i] == s[i]
    ensures forall i :: 0 <= i < |s| && !IsSafeChar(s[i]) ==> r[i] == '_'
  {
    if s == [] then []
    else [if IsSafeChar(s[0]) then s[0] else '_'] + ReplaceUnsafe(s[1..])
  }

  /** `sanitizeFilename`: drop `..`, replace unsafe characters, keep at most 200. */
  function SanitizeFilename(filename: string): (r: string)
    ensures AllSafe(r) && NoDotDot(r)
    ensures |r| <= MaxNameLength && |r| <= |filename|
  {
    var clean := ReplaceUnsafe(RemoveDotDot(filename));
    assert NoDotDot(clean) by {
      var d := RemoveDotDot(filename);
      assert forall i :: 0 <= i < |d| ==> (clean[i] == '.' <==> d[i] == '.');
    }
    Substring(clean, 0, MaxNameLength)
  }

  /** Two fewer has the same parity. */
  lemma ParityStep(k: nat)
    requires k >= 2
    ensures (k - 2) % 2 == k % 2
  {
  }

  /** The first two dots of a run form a `..` match and are dropped. */
  lemma DotPairInFront(k: nat, rest: string)
    requires k >= 2
    ensures RemoveDotDot(Repeat('.', k) + rest) == RemoveDotDot(Repeat('.', k - 2) + rest)
  {
    var s := Repeat('.', k) + rest;
    var tail := Repeat('.', k - 2) + rest;
    assert Repeat('.', k) == ['.'] + Repeat('.', k - 1);
    assert Repeat('.', k - 1) == ['.'] + Repeat('.', k - 2);
    ConsAppend('.', Repeat('.', k - 1), rest);
    ConsAppend('.', Repeat('.', k - 2), rest);
    assert s == ['.'] + (['.'] + tail);
    assert s[0] == '.' && s[1] == '.' && s[2..] == tail;
  }

  /** A lone dot in front of a non-dot is no match and stays. */
  lemma SingleDotKept(rest: string)
    requires rest == [] || rest[0] != '.'
    ensures RemoveDotDot(['.'] + rest) == ['.'] + RemoveDotDot(rest)
  {
    var s := ['.'] + rest;
    assert s[1..] == rest;
    assert !(|s| >= 2 && s[1] == '.');
  }

  /** A run of `k` dots in front of a non-dot leaves `k mod 2` dots. */
  lemma {:induction false} DotRunParity(k: nat, rest: string)
    requires rest == [] || rest[0] != '.'
    ensures RemoveDotDot(Repeat('.', k) + rest) == Repeat('.', k % 2) + RemoveDotDot(rest)
  {
    if k >= 2 {
      DotRunParity(k - 2, rest);
      DotRunParityStep(k, rest);
    } else {
      ShortDotRun(k, rest);
    }
  }

  /** The step of `DotRunParity`: two more dots in front change nothing. */
  lemma DotRunParityStep(k: nat, rest: string)
    requires k >= 2
    requires RemoveDotDot(Repeat('.', k - 2) + rest) == Repeat('.', (k - 2) % 2) + RemoveDotDot(rest)
    ensures RemoveDotDot(Repeat('.', k) + rest) == Repeat('.', k % 2) + RemoveDotDot(rest)
  {
    DotPairInFront(k, rest);
    ParityStep(k);
  }

  /** No dot or one dot in front of a non-dot stays as it is. */
  lemma ShortDotRun(k: nat, rest: string)
    requires k < 2 && (rest == [] || rest[0] != '.')
    ensures RemoveDotDot(Repeat('.', k) + rest) == Repeat('.', k % 2) + RemoveDotDot(rest)
  {
    if k == 1 {
      assert Repeat('.', 1) == ['.'];
      SingleDotKept(rest);
    } else {
      assert Repeat('.', 0) == [];
      assert Repeat('.', 0) + rest == rest;
    }
  }

  /** A name that is already safe is returned unchanged. */
  lemma {:induction false} SafeNameUnchanged(s: string)
    requires AllSafe(s) && NoDotDot(s) && |s| <= MaxNameLength
    ensures SanitizeFilename(s) == s
  {
    assert ReplaceUnsafe(s) == s;
  }

  /** `sanitizeFilename` changes its input exactly when the input is not already safe. */
  lemma SanitizeFixedPointIff(s: string)
    ensures SanitizeFilename(s) == s <==> AllSafe(s) && NoDotDot(s) && |s| <= MaxNameLength
  {
    if AllSafe(s) && NoDotDot(s) && |s| <= MaxNameLength {
      SafeNameUnchanged(s);
    }
  }

  /** Sanitizing twice is sanitizing once. */
  lemma SanitizeIdempotent(s: string)
    ensures SanitizeFilename(SanitizeFilename(s)) == SanitizeFilename(s)
  {
    SafeNameUnchanged(SanitizeFilename(s));
  }

  /** The leading `..` of `../x` is dropped. */
  lemma TraversalDotsDropped()
    ensures RemoveDotDot("../x") == "/x"
  {
    var s := "../x";
    assert s[0] == '.' && s[1] == '.' && s[2..] == "/x";
    assert NoDotDot("/x");
  }

  /** The slash of `/x` becomes `_`. */
  lemma TraversalSlashReplaced()
    ensures ReplaceUnsafe("/x") == "_x"
  {
    var r := ReplaceUnsafe("/x");
    assert !IsSafeChar('/') && IsSafeChar('x');
    assert r[0] == '_' && r[1] == 'x';
  }

  /** A traversal attempt loses its `..` and its slashes. */
  lemma TraversalExample()
    ensures SanitizeFilename("../x") == "_x"
  {
    TraversalDotsDropped();
    TraversalSlashReplaced();
    assert Substring("_x", 0, MaxNameLength) == "_x";
  }

  /** A name made only of dot pairs sanitizes to the empty string. */
  lemma DotsOnlyBecomeEmpty()
    ensures SanitizeFilename("..") == ""
  {
  }

  /** `request.headers.get('x-forwarded-for')?.split(',')[0]`: the text before the first comma. */
  function FirstSegment(h: string): (r: string)
    ensures ',' !in r
    ensures ',' !in h ==> r == h
    ensures ',' in h ==> |r| < |h| && r == h[..|r|] && h[|r|] == ','
  {
    var i := IndexOf(h, ',');
    if i < 0 then h else h[..i]
  }

  /**
    `getClientIp`: a missing or empty `x-forwarded-for` header gives
    `"unknown"`; otherwise the trimmed first comma-separated segment, which
    may itself be empty.
   */
  function GetClientIp(forwarded: Option<string>): (r: string)
    ensures forwarded == None || forwarded == Some("") ==> r == "unknown"
    ensures forwarded.Some? && forwarded.value != "" ==>
              ',' !in r && |r| <= |forwarded.value|
              && (r != [] ==> !IsWhitespace(r[0]) && !IsWhitespace(r[|r| - 1]))
  {
    match forwarded
    case None => "unknown"
    case Some(h) =>
      if h == "" then "unknown"
      else
        var seg := FirstSegment(h);
        TrimmedHasNoNewCharacter(Trim(seg), seg, ',');
        Trim(seg)
  }

  /**
    The client address is the first segment with only white space removed
    around it: `seg == pre + r + post` with `pre` and `post` all white space.
   */
  lemma ClientIpIsTrimmedFirstSegment(h: string)
    requires h != ""
    ensures IsTrimOf(GetClientIp(Some(h)), FirstSegment(h))
  {
    assert GetClientIp(Some(h)) == Trim(FirstSegment(h));
  }

  /** The first hop of `" a ,b"` is `" a "`. */
  lemma ProxyChainFirstSegment()
    ensures FirstSegment(" a ,b") == " a "
  {
    var h := " a ,b";
    assert h[3] == ',' && ',' !in h[..3];
    assert IndexOf(h, ',') == 3;
  }

  /** Trimming `" a "` leaves `"a"`. */
  lemma PaddedHopTrimmed()
    ensures Trim(" a ") == "a"
  {
    assert " a "[1..] == "a " && !IsWhitespace('a');
    assert TrimStart("a ") == "a ";
    assert TrimStart(" a ") == "a ";
    assert "a "[..1] == "a";
    assert TrimEnd("a") == "a";
    assert TrimEnd("a ") == "a";
  }

  /** A proxy chain yields the first hop, trimmed. */
  lemma ClientIpExample()
    ensures GetClientIp(Some(" a ,b")) == "a"
  {
    ProxyChainFirstSegment();
    PaddedHopTrimmed();
  }
}
