/** The string operations the core relies on, each as its platform defines it:
    whitespace classes (Java regex `\s`, Kotlin `Char.isWhitespace`,
    JavaScript `\s` and `trim`), removal of whitespace, trimming, lower-casing,
    prefix tests and JavaScript's clamping `slice`. */
module Text {

  /** Which platform's notion of whitespace is meant. */
  datatype SpaceClass =
    | JavaRegex   // `\s` in a `java.util.regex` pattern: [ \t\n\x0B\f\r]
    | Kotlin      // `Char.isWhitespace()`, used by `String.trim()`
    | JavaScript  // `\s` in a JavaScript pattern, and `String.prototype.trim`

  predicate IsSpace(k: SpaceClass, c: char) {
    match k
    case JavaRegex =>
      c == ' ' || c == '\t' || c == '\n' || c == '\U{B}' || c == '\U{C}' || c == '\r'
    case Kotlin =>
      c == ' ' || c == '\t' || c == '\n' || c == '\U{B}' || c == '\U{C}' || c == '\r'
      || ('\U{1C}' <= c <= '\U{1F}') || IsUnicodeSeparator(c)
    case JavaScript =>
      c == ' ' || c == '\t' || c == '\n' || c == '\U{B}' || c == '\U{C}' || c == '\r'
      || c == '\U{FEFF}' || IsUnicodeSeparator(c)
  }

  /** The space, line and paragraph separators of Unicode (categories Zs, Zl, Zp). */
  predicate IsUnicodeSeparator(c: char) {
    c == ' ' || c == '\U{A0}' || c == '\U{1680}' || ('\U{2000}' <= c <= '\U{200A}')
    || c == '\U{2028}' || c == '\U{2029}' || c == '\U{202F}' || c == '\U{205F}' || c == '\U{3000}'
  }

  predicate NoSpace(k: SpaceClass, s: string) {
    forall i :: 0 <= i < |s| ==> !IsSpace(k, s[i])
  }

  /** `s.replace(/\s/g, "")` and `s.replace("\\s".toRegex(), "")`. */
  function StripSpace(k: SpaceClass, s: string): (r: string)
    ensures NoSpace(k, r)
    ensures NoSpace(k, s) ==> r == s
    ensures |r| <= |s|
  {
    if s == [] then []
    else if IsSpace(k, s[0]) then StripSpace(k, s[1..])
    else [s[0]] + StripSpace(k, s[1..])
  }

  /** Removing whitespace keeps exactly the input's other characters: the
      result's characters are the input's characters that are not
      whitespace. */
  lemma {:induction false} StripSpaceChars(k: SpaceClass, s: string)
    ensures forall c :: c in StripSpace(k, s) <==> c in s && !IsSpace(k, c)
  {
    if s != [] {
      StripSpaceChars(k, s[1..]);
      assert forall c :: c in s <==> c == s[0] || c in s[1..];
    }
  }

  lemma {:induction false} StripSpaceAppend(k: SpaceClass, a: string, b: string)
    ensures StripSpace(k, a + b) == StripSpace(k, a) + StripSpace(k, b)
  {
    if a == [] {
      assert a + b == b;
    } else {
      assert (a + b)[0] == a[0];
      assert (a + b)[1..] == a[1..] + b;
      StripSpaceAppend(k, a[1..], b);
    }
  }

  /** Leading whitespace removed. */
  function TrimStart(k: SpaceClass, s: string): (r: string)
    ensures |r| <= |s|
  {
    if s != [] && IsSpace(k, s[0]) then TrimStart(k, s[1..]) else s
  }

  /** Trailing whitespace removed. */
  function TrimEnd(k: SpaceClass, s: string): (r: string)
    ensures |r| <= |s|
  {
    if s != [] && IsSpace(k, s[|s| - 1]) then TrimEnd(k, s[..|s| - 1]) else s
  }

  /** `String.trim()`: the longest middle part that neither starts nor ends
      with whitespace. */
  function Trim(k: SpaceClass, s: string): (r: string)
    ensures |r| <= |s|
    ensures NoSpace(k, s) ==> r == s
  {
    TrimEnd(k, TrimStart(k, s))
  }

  /** `TrimStart` keeps a suffix that does not start with whitespace and
      drops only whitespace. */
  lemma {:induction false} TrimStartSpec(k: SpaceClass, s: string)
    ensures var r := TrimStart(k, s);
      && |r| <= |s| && r == s[|s| - |r|..]
      && (r == [] || !IsSpace(k, r[0]))
      && forall i :: 0 <= i < |s| - |r| ==> IsSpace(k, s[i])
  {
    if s != [] && IsSpace(k, s[0]) {
      TrimStartSpec(k, s[1..]);
      var r := TrimStart(k, s[1..]);
      assert s[1..][|s| - 1 - |r|..] == s[|s| - |r|..];
      forall i | 1 <= i < |s| - |r| ensures IsSpace(k, s[i]) {
        assert s[1..][i - 1] == s[i];
      }
    }
  }

  /** `TrimEnd` keeps a prefix that does not end with whitespace and drops
      only whitespace. */
  lemma {:induction false} TrimEndSpec(k: SpaceClass, s: string)
    ensures var r := TrimEnd(k, s);
      && |r| <= |s| && r == s[..|r|]
      && (r == [] || !IsSpace(k, r[|r| - 1]))
      && forall i :: |r| <= i < |s| ==> IsSpace(k, s[i])
  {
    if s != [] && IsSpace(k, s[|s| - 1]) {
      TrimEndSpec(k, s[..|s| - 1]);
      var r := TrimEnd(k, s[..|s| - 1]);
      assert s[..|s| - 1][..|r|] == s[..|r|];
      forall i | |r| <= i < |s| - 1 ensures IsSpace(k, s[i]) {
        assert s[..|s| - 1][i] == s[i];
      }
    }
  }

  /** The trimmed text is a slice of the input, neither end of which is
      whitespace, and everything cut off is whitespace. */
  lemma TrimSpec(k: SpaceClass, s: string)
    ensures var r := Trim(k, s);
      && (r == [] || (!IsSpace(k, r[0]) && !IsSpace(k, r[|r| - 1])))
      && exists a, b ::
           && 0 <= a <= b <= |s| && r == s[a..b]
           && (forall i :: 0 <= i < a ==> IsSpace(k, s[i]))
           && (forall i :: b <= i < |s| ==> IsSpace(k, s[i]))
  {
    TrimStartSpec(k, s);
    var u := TrimStart(k, s);
    TrimEndSpec(k, u);
    var r := TrimEnd(k, u);
    var a := |s| - |u|;
    var b := a + |r|;
    assert r == s[a..b];
    forall i | b <= i < |s| ensures IsSpace(k, s[i]) {
      assert u[i - a] == s[i];
    }
  }

  /** Trimming twice is trimming once. */
  lemma TrimIdempotent(k: SpaceClass, s: string)
    ensures Trim(k, Trim(k, s)) == Trim(k, s)
  {
    TrimStartSpec(k, s);
    var u := TrimStart(k, s);
    TrimEndSpec(k, u);
    var t := TrimEnd(k, u);
    if t != [] {
      assert t[0] == u[0];
    }
    assert TrimStart(k, t) == t;
  }

  /** Lower case of one character: ASCII and Latin-1 letters (this covers
      Æ, Ø and Å); every other character is left as it is. */
  function LowerChar(c: char): (r: char)
    ensures IsUpper(c) ==> r as int == c as int + 32
    ensures !IsUpper(c) ==> r == c
    ensures !IsUpper(r)
  {
    if IsUpper(c) then (c as int + 32) as char else c
  }

  predicate IsLatin1Upper(c: char) {
    '\U{C0}' <= c <= '\U{DE}' && c != '\U{D7}'
  }

  /** An upper-case letter of ASCII or Latin-1. */
  predicate IsUpper(c: char) {
    'A' <= c <= 'Z' || IsLatin1Upper(c)
  }

  /** `lowercase()` / `toLowerCase()`: the same length, no upper-case letter
      left, every upper-case letter moved to its lower-case partner and every
      other character kept. */
  function Lower(s: string): (r: string)
    ensures |r| == |s|
    ensures forall i :: 0 <= i < |r| ==> !IsUpper(r[i])
    ensures forall i :: 0 <= i < |s| && !IsUpper(s[i]) ==> r[i] == s[i]
    ensures forall i :: 0 <= i < |s| && IsUpper(s[i]) ==> r[i] as int == s[i] as int + 32
  {
    seq(|s|, i requires 0 <= i < |s| => LowerChar(s[i]))
  }

  /** Lower-casing twice is lower-casing once: no lower-cased character is
      an upper-case one. */
  lemma LowerIdempotent(s: string)
    ensures Lower(Lower(s)) == Lower(s)
  {
    forall i | 0 <= i < |s| ensures LowerChar(LowerChar(s[i])) == LowerChar(s[i]) {
      var c := s[i];
      if 'A' <= c <= 'Z' || IsLatin1Upper(c) {
        assert !('A' <= LowerChar(c) <= 'Z') && !IsLatin1Upper(LowerChar(c));
      }
    }
  }

  /** Lower-casing neither makes nor removes whitespace. */
  lemma LowerCharSpace(k: SpaceClass, c: char)
    ensures IsSpace(k, LowerChar(c)) <==> IsSpace(k, c)
  {
  }

  /** Every Java-regex whitespace character is JavaScript whitespace too. */
  lemma NoJavaScriptSpaceNoJavaRegexSpace(s: string)
    requires NoSpace(JavaScript, s)
    ensures NoSpace(JavaRegex, s)
  {
  }

  predicate StartsWith(s: string, prefix: string) {
    |prefix| <= |s| && s[..|prefix|] == prefix
  }

  /** How JavaScript's `slice` turns an argument into an index: a negative one
      counts from the end, and the result is clamped to [0, len]. */
  function SliceIndex(i: int, len: nat): (r: nat)
    ensures r <= len
    ensures 0 <= i <= len ==> r == i
    ensures i > len ==> r == len
    ensures i < 0 ==> r == (if len + i < 0 then 0 else len + i)
  {
    if i < 0 then (if len + i < 0 then 0 else len + i)
    else if i > len then len
    else i
  }

  /** `s.slice(start, end)`. */
  function Slice(s: string, start: int, end: int): (r: string)
    ensures 0 <= start <= end <= |s| ==> r == s[start..end]
    ensures |r| <= |s|
  {
    var from, to := SliceIndex(start, |s|), SliceIndex(end, |s|);
    if from < to then s[from..to] else []
  }

  /** `s.slice(start)`. */
  function SliceFrom(s: string, start: int): (r: string)
    ensures 0 <= start <= |s| ==> r == s[start..]
  {
    Slice(s, start, |s|)
  }

  /** Cutting a string at 3 and 5 with `slice` and joining the pieces gives
      the string back, however short it is. */
  lemma SliceThreeParts(s: string)
    ensures Slice(s, 0, 3) + Slice(s, 3, 5) + SliceFrom(s, 5) == s
  {
    if |s| >= 5 {
      assert s[0..3] + s[3..5] + s[5..] == s;
    } else if |s| >= 3 {
      assert s[0..3] + s[3..] == s;
    }
  }
}
