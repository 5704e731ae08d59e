/**
  The few JavaScript string operations that the upload helpers rely on, with
  the semantics of the ECMAScript built-ins restricted to ASCII text:
  `toLowerCase`, `lastIndexOf`, `substring` (with its clamping of
  out-of-range arguments) and `trim`; `IndexOf` is how the model expresses
  `split(',')[0]`, and `Without` removes one character throughout.
 */
module Text {

  /** The ASCII white-space characters that `String.prototype.trim` removes. */
  predicate IsWhitespace(c: char) {
    c == ' ' || c == '\t' || c == '\n' || c == '\r' || c == '\U{B}' || c == '\U{C}'
  }

  predicate AllWhitespace(s: string) {
    forall i :: 0 <= i < |s| ==> IsWhitespace(s[i])
  }

  predicate IsUpper(c: char) { 'A' <= c <= 'Z' }

  predicate IsLower(c: char) { 'a' <= c <= 'z' }

  predicate IsDigit(c: char) { '0' <= c <= '9' }

  /** `toLowerCase` on one ASCII character. */
  function ToLowerChar(c: char): (r: char)
    ensures IsUpper(c) ==> IsLower(r) && r as int == c as int + 32
    ensures !IsUpper(c) ==> r == c
  {
    if IsUpper(c) then (c as int + 32) as char else c
  }

  /** `toLowerCase`: every upper-case letter is replaced, nothing else moves. */
  function Lower(s: string): (r: string)
    ensures |r| == |s|
    ensures forall i :: 0 <= i < |s| ==> r[i] == ToLowerChar(s[i])
    ensures forall i :: 0 <= i < |s| ==> !IsUpper(r[i])
  {
    if s == [] then [] else [ToLowerChar(s[0])] + Lower(s[1..])
  }

  /** `toLowerCase` leaves text without upper-case letters as it is. */
  lemma LowerWithoutUpper(s: string)
    requires forall i :: 0 <= i < |s| ==> !IsUpper(s[i])
    ensures Lower(s) == s
  {
  }

  /** `toLowerCase` neither creates nor removes a `.`. */
  lemma LowerKeepsDots(s: string)
    ensures forall i :: 0 <= i < |s| ==> (Lower(s)[i] == '.' <==> s[i] == '.')
  {
  }

  /** `s.lastIndexOf(c)`: the position of the last `c`, or -1 when there is none. */
  function LastIndexOf(s: string, c: char): (r: int)
    ensures -1 <= r < |s|
    ensures r == -1 <==> c !in s
    ensures 0 <= r ==> s[r] == c && c !in s[r + 1..]
  {
    if s == [] then -1
    else if s[|s| - 1] == c then |s| - 1
    else
      var r := LastIndexOf(s[..|s| - 1], c);
      assert s == s[..|s| - 1] + [s[|s| - 1]];
      assert 0 <= r ==> s[r + 1..] == s[..|s| - 1][r + 1..] + [s[|s| - 1]];
      r
  }

  /**
    The position of the first `c`, or -1 when there is none: where
    `s.split(c)[0]` ends.
   */
  function IndexOf(s: string, c: char): (r: int)
    ensures -1 <= r < |s|
    ensures r == -1 <==> c !in s
    ensures 0 <= r ==> s[r] == c && c !in s[..r]
  {
    if s == [] then -1
    else if s[0] == c then 0
    else
      var r := IndexOf(s[1..], c);
      assert s == [s[0]] + s[1..];
      if r == -1 then -1
      else
        assert s[..r + 1] == [s[0]] + s[1..][..r];
        r + 1
  }

  /** How `substring` clamps one argument into `0..n`. */
  function ClampIndex(i: int, n: nat): (r: nat)
    ensures r <= n
    ensures 0 <= i <= n ==> r == i
  {
    if i < 0 then 0 else if i > n then n else i
  }

  /**
    `s.substring(start, end)`: both arguments are clamped into `0..|s|`, and
    they are swapped when `start` ends up beyond `end`.
   */
  function Substring(s: string, start: int, end: int): (r: string)
    ensures |r| <= |s|
    ensures 0 <= start <= end <= |s| ==> r == s[start..end]
    ensures start <= 0 && |s| <= end ==> r == s
    ensures start <= 0 ==> r == s[..ClampIndex(end, |s|)]
  {
    var a, b := ClampIndex(start, |s|), ClampIndex(end, |s|);
    if a <= b then s[a..b] else s[b..a]
  }

  /** `s.substring(start)`, where the end defaults to the length. */
  function SubstringFrom(s: string, start: int): (r: string)
    ensures start <= 0 ==> r == s
    ensures 0 <= start <= |s| ==> r == s[start..]
  {
    Substring(s, start, |s|)
  }

  /** Drops the leading white space. */
  function TrimStart(s: string): (r: string)
    ensures |r| <= |s| && r == s[|s| - |r|..]
    ensures AllWhitespace(s[..|s| - |r|])
    ensures r != [] ==> !IsWhitespace(r[0])
  {
    if s != [] && IsWhitespace(s[0]) then
      var r := TrimStart(s[1..]);
      assert s[..|s| - |r|] == [s[0]] + s[1..][..|s| - 1 - |r|];
      r
    else s
  }

  /** Drops the trailing white space. */
  function TrimEnd(s: string): (r: string)
    ensures |r| <= |s| && r == s[..|r|]
    ensures AllWhitespace(s[|r|..])
    ensures r != [] ==> !IsWhitespace(r[|r| - 1])
  {
    if s != [] && IsWhitespace(s[|s| - 1]) then
      var r := TrimEnd(s[..|s| - 1]);
      assert s[|r|..] == s[..|s| - 1][|r|..] + [s[|s| - 1]];
      r
    else s
  }

  /** `r` is `s` with only white space removed from its two ends. */
  ghost predicate IsTrimOf(r: string, s: string) {
    exists a :: 0 <= a <= |s| - |r| && r == s[a..a + |r|]
                && AllWhitespace(s[..a]) && AllWhitespace(s[a + |r|..])
  }

  /** Trimming removes characters only, so a character absent from `s` is absent from the result. */
  lemma TrimmedHasNoNewCharacter(r: string, s: string, c: char)
    requires IsTrimOf(r, s) && c !in s
    ensures c !in r
  {
    var a :| 0 <= a <= |s| - |r| && r == s[a..a + |r|]
             && AllWhitespace(s[..a]) && AllWhitespace(s[a + |r|..]);
  }

  /** Removing white space from the front and then from the back of `s` leaves a trim of `s`. */
  lemma TrimOfSlices(s: string, t: string, r: string)
    requires |t| <= |s| && t == s[|s| - |t|..] && AllWhitespace(s[..|s| - |t|])
    requires |r| <= |t| && r == t[..|r|] && AllWhitespace(t[|r|..])
    ensures IsTrimOf(r, s)
  {
    var a := |s| - |t|;
    assert r == s[a..a + |r|];
    assert s[a + |r|..] == t[|r|..];
  }

  /**
    `s.trim()`: the slice `s[a..a + |r|]` left after removing white space from
    both ends; it neither starts nor ends with white space.
   */
  function Trim(s: string): (r: string)
    ensures |r| <= |s|
    ensures IsTrimOf(r, s)
    ensures r != [] ==> !IsWhitespace(r[0]) && !IsWhitespace(r[|r| - 1])
  {
    var t := TrimStart(s);
    var r := TrimEnd(t);
    TrimOfSlices(s, t, r);
    r
  }

  /** Putting one character in front commutes with concatenation. */
  lemma ConsAppend(c: char, p: string, q: string)
    ensures [c] + (p + q) == ([c] + p) + q
  {
  }

  /** Dropping the first character of `a + b` drops it from `a`. */
  lemma DropFirstOfAppend(a: string, b: string)
    requires a != []
    ensures (a + b)[1..] == a[1..] + b
  {
  }

  /** `s` with every `c` removed: what an operation that only drops `c` must leave alone. */
  function Without(s: string, c: char): (r: string)
    ensures c !in r
  {
    if s == [] then []
    else (if s[0] == c then [] else [s[0]]) + Without(s[1..], c)
  }

  /** Removing `c` from `[x] + t` keeps `x` exactly when it is not `c`. */
  lemma WithoutCons(x: char, t: string, c: char)
    ensures Without([x] + t, c) == (if x == c then [] else [x]) + Without(t, c)
  {
    assert ([x] + t)[1..] == t;
  }

  /** `k` copies of `c`. */
  function Repeat(c: char, k: nat): (r: string)
    ensures |r| == k && forall i :: 0 <= i < k ==> r[i] == c
  {
    if k == 0 then [] else [c] + Repeat(c, k - 1)
  }

  /** The decimal digit for `d < 10`. */
  function DigitChar(d: nat): (c: char)
    requires d < 10
    ensures IsDigit(c) && c as int - '0' as int == d
  {
    ('0' as int + d) as char
  }

  /** `String(n)` for a whole number: its decimal digits, no leading zero. */
  function NatToString(n: nat): (r: string)
    ensures |r| >= 1 && forall i :: 0 <= i < |r| ==> IsDigit(r[i])
    ensures |r| > 1 ==> r[0] != '0'
  {
    if n < 10 then [DigitChar(n)] else NatToString(n / 10) + [DigitChar(n % 10)]
  }

  /** Reads a string of decimal digits back as a number. */
  function ParseDigits(s: string): int
    requires forall i :: 0 <= i < |s| ==> IsDigit(s[i])
  {
    if s == [] then 0 else ParseDigits(s[..|s| - 1]) * 10 + (s[|s| - 1] as int - '0' as int)
  }

  /** The decimal rendering of a number reads back as that number. */
  lemma {:induction false} NatToStringRoundTrip(n: nat)
    ensures ParseDigits(NatToString(n)) == n
  {
    var r := NatToString(n);
    if n >= 10 {
      NatToStringRoundTrip(n / 10);
      assert r[..|r| - 1] == NatToString(n / 10);
    } else {
      assert r[..0] == [];
    }
  }
}
