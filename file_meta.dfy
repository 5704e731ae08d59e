/**
  What both copies of `validateFile` know about an upload: its name and its
  declared size, the default size limit, and the extension denylist, which
  looks only at the text from the last `.` on, lower-cased.
 */
module FileMeta {
  import opened Text

  /** The metadata of an uploaded file; its bytes are never examined. */
  datatype File = File(name: string, size: nat)

  /** 100 MiB, the default `maxSize` of both validators. */
  const DefaultMaxSize: int := 104857600

  /** Bytes in one MiB: `maxSize / 1024 / 1024` is the limit in MiB. */
  const BytesPerMebibyte: int := 1048576

  /**
    The limit in MiB as it appears in the "File too large" message, for a
    limit that is a whole number of MiB.
   */
  function MebibyteText(maxSize: int): (t: string)
    ensures |t| >= 1
    ensures maxSize >= 0 ==> forall i :: 0 <= i < |t| ==> IsDigit(t[i])
    ensures maxSize >= 0 ==> ParseDigits(t) == maxSize / BytesPerMebibyte
  {
    if maxSize >= 0 then
      NatToStringRoundTrip(maxSize / BytesPerMebibyte);
      NatToString(maxSize / BytesPerMebibyte)
    else "-" + NatToString(-maxSize / BytesPerMebibyte)
  }

  /** The default limit reads as 100 MiB. */
  lemma DefaultLimitText()
    ensures MebibyteText(DefaultMaxSize) == "100"
  {
    assert NatToString(100) == NatToString(10) + "0";
  }

  const DangerousExtensions: seq<string> := [".exe", ".bat", ".cmd", ".sh", ".com", ".scr"]

  /**
    `name.substring(name.lastIndexOf('.')).toLowerCase()`. With no `.` in the
    name `lastIndexOf` gives -1, which `substring` clamps to 0, so the
    "extension" is then the whole name.
   */
  function Extension(name: string): (ext: string)
    ensures '.' in name ==> |ext| >= 1 && ext[0] == '.' && '.' !in ext[1..]
    ensures '.' !in name ==> ext == Lower(name) && '.' !in ext
    ensures forall i :: 0 <= i < |ext| ==> !IsUpper(ext[i])
  {
    var tail := SubstringFrom(name, LastIndexOf(name, '.'));
    LastSegmentWithDot(name, tail);
    LowerKeepsDots(tail);
    Lower(tail)
  }

  /** With a `.` in the name, the text from the last `.` on starts with that `.` and holds no other. */
  lemma LastSegmentWithDot(name: string, tail: string)
    requires tail == SubstringFrom(name, LastIndexOf(name, '.'))
    ensures '.' in name ==> |tail| >= 1 && tail[0] == '.' && '.' !in tail[1..]
  {
    var k := LastIndexOf(name, '.');
    if 0 <= k {
      assert tail == name[k..];
      assert tail[1..] == name[k + 1..];
    }
  }

  /**
    The denylist test: `dangerous.includes(ext)`. A refused name holds a `.`
    and ends with a denylisted extension whatever the case of its letters.
   */
  predicate IsDangerous(name: string): (b: bool)
    ensures b ==> '.' in name
    ensures b ==> exists d :: d in DangerousExtensions && |d| <= |name| && Lower(name[|name| - |d|..]) == d
  {
    var ext := Extension(name);
    assert forall d :: d in DangerousExtensions ==> |d| >= 1 && d[0] == '.';
    assert |ext| <= |name| && Lower(name[|name| - |ext|..]) == ext;
    ext in DangerousExtensions
  }

  /** A name without `.` is never refused for its type: every denylisted entry holds a `.`. */
  lemma NoDotNeverDangerous(name: string)
    requires '.' !in name
    ensures !IsDangerous(name)
  {
    var ext := Extension(name);
    forall d | d in DangerousExtensions ensures ext != d {
      assert d[0] == '.';
    }
  }

  /** Only the text after the last `.` decides: `stem + "." + tail` has the extension `"." + tail`, lower-cased. */
  lemma {:induction false} OnlyLastExtension(stem: string, tail: string)
    requires '.' !in tail
    ensures Extension(stem + "." + tail) == Lower("." + tail)
  {
    var name := stem + "." + tail;
    var k := LastIndexOf(name, '.');
    assert name[|stem|] == '.';
    assert name[|stem| + 1..] == tail;
    assert k == |stem|;
    assert name[k..] == "." + tail;
  }

  /** `".EXE".toLowerCase()` is `".exe"`. */
  lemma LowerDotExe()
    ensures Lower(".EXE") == ".exe"
  {
    assert Lower("E") == "e";
    assert Lower("XE") == "xe";
    assert Lower("EXE") == "exe";
  }

  /** The denylist is case-insensitive: `A.EXE` is refused. */
  lemma UpperCaseExtensionDangerous()
    ensures IsDangerous("A.EXE")
  {
    OnlyLastExtension("A", "EXE");
    assert "A" + "." + "EXE" == "A.EXE";
    LowerDotExe();
  }

  /** The extension of `a.exe.txt` is `.txt`. */
  lemma LastExtensionOfInnerExe()
    ensures Extension("a.exe.txt") == ".txt"
  {
    OnlyLastExtension("a.exe", "txt");
    assert "a.exe" + "." + "txt" == "a.exe.txt";
    LowerWithoutUpper(".txt");
  }

  /** A denylisted extension that is not the last one does not count: `a.exe.txt` passes. */
  lemma InnerExtensionNotDangerous()
    ensures !IsDangerous("a.exe.txt")
  {
    LastExtensionOfInnerExe();
    assert forall d :: d in DangerousExtensions ==> |d| >= 2 && d[1] != 't';
  }
}
