/** The JavaScript string primitives the ingredient checker relies on:
    `String.prototype.trim`, `String.prototype.toLowerCase` (restricted to the
    letters that occur in the checker's data) and `String.prototype.includes`.
    A JavaScript string is modelled as a sequence of Unicode characters. */
module Text {

  // ---------------------------------------------------------------------------
  // Whitespace and trim
  // ---------------------------------------------------------------------------

  /** ECMAScript WhiteSpace and LineTerminator code points: the characters
      `trim` removes (TAB, LF, VT, FF, CR, SPACE, NBSP, the Unicode space
      separators, LINE/PARAGRAPH SEPARATOR, ZWNBSP). */
  predicate IsWhitespace(c: char): (r: bool)
    ensures r ==> !IsUpper(c)
  {
    || c == '\t' || c == '\n' || c == '\U{000B}' || c == '\U{000C}' || c == '\r'
    || c == ' ' || c == '\U{00A0}' || c == '\U{1680}'
    || ('\U{2000}' <= c <= '\U{200A}')
    || c == '\U{2028}' || c == '\U{2029}' || c == '\U{202F}' || c == '\U{205F}'
    || c == '\U{3000}' || c == '\U{FEFF}'
  }

  /** Every character of `s` is whitespace. */
  predicate AllWhitespace(s: string) {
    forall i :: 0 <= i < |s| ==> IsWhitespace(s[i])
  }

  /** Neither end of `s` is whitespace (vacuously true of the empty string). */
  predicate Trimmed(s: string) {
    s == [] || (!IsWhitespace(s[0]) && !IsWhitespace(s[|s| - 1]))
  }

  /** A whitespace run stays one when whitespace is added at either end. */
  lemma WhitespaceAppend(a: string, c: char)
    requires AllWhitespace(a) && IsWhitespace(c)
    ensures AllWhitespace(a + [c])
  {
  }

  lemma WhitespacePrepend(c: char, a: string)
    requires IsWhitespace(c) && AllWhitespace(a)
    ensures AllWhitespace([c] + a)
  {
  }

  /** A suffix of `s[1..]` preceded there by whitespace is a suffix of `s`
      preceded by whitespace, when `s[0]` is whitespace too. */
  lemma DropOneMore(s: string, r: string)
    requires |s| > 0 && IsWhitespace(s[0])
    requires |r| <= |s| - 1 && r == s[1..][|s| - 1 - |r|..]
    requires AllWhitespace(s[1..][..|s| - 1 - |r|])
    ensures r == s[|s| - |r|..] && AllWhitespace(s[..|s| - |r|])
  {
    WhitespacePrepend(s[0], s[1..][..|s| - 1 - |r|]);
    assert s[..|s| - |r|] == [s[0]] + s[1..][..|s| - 1 - |r|];
  }

  /** Drops the leading whitespace of `s`: the result is a suffix of `s`, what
      was dropped is all whitespace, and the result does not start with it. */
  function TrimStart(s: string): (r: string)
    ensures |r| <= |s| && r == s[|s| - |r|..]
    ensures AllWhitespace(s[..|s| - |r|])
    ensures r == [] || !IsWhitespace(r[0])
    decreases |s|
  {
    if |s| > 0 && IsWhitespace(s[0]) then
      var r := TrimStart(s[1..]);
      DropOneMore(s, r);
      r
    else
      s
  }

  /** Drops the trailing whitespace of `s`: the result is a prefix of `s`, what
      was dropped is all whitespace, and the result does not end with it. */
  function TrimEnd(s: string): (r: string)
    ensures |r| <= |s| && r == s[..|r|]
    ensures AllWhitespace(s[|r|..])
    ensures r == [] || !IsWhitespace(r[|r| - 1])
    decreases |s|
  {
    if |s| > 0 && IsWhitespace(s[|s| - 1]) then
      var r := TrimEnd(s[..|s| - 1]);
      WhitespaceAppend(s[..|s| - 1][|r|..], s[|s| - 1]);
      assert s[|r|..] == s[..|s| - 1][|r|..] + [s[|s| - 1]];
      r
    else
      s
  }

  /** `String.prototype.trim`: drops the leading and the trailing whitespace
      (`TrimIsSlice` says what is kept). */
  function Trim(s: string): (r: string)
    ensures |r| <= |s|
    ensures Trimmed(r)
  {
    TrimEnd(TrimStart(s))
  }

  /** What `Trim` keeps: the slice of `s` between a run of leading and a run
      of trailing whitespace. */
  lemma TrimIsSlice(s: string)
    ensures var r := Trim(s);
            exists i :: 0 <= i <= |s| - |r| && r == s[i..i + |r|]
                        && AllWhitespace(s[..i]) && AllWhitespace(s[i + |r|..])
  {
    var t := TrimStart(s);
    var r := TrimEnd(t);
    var i := |s| - |t|;
    SliceOfSuffix(s, i, |r|);
    assert r == s[i..i + |r|] && AllWhitespace(s[..i]) && AllWhitespace(s[i + |r|..]);
  }

  /** Slicing a suffix is slicing the whole string further along. */
  lemma SliceOfSuffix(s: string, i: int, m: int)
    requires 0 <= i && 0 <= m && i + m <= |s|
    ensures s[i..][..m] == s[i..i + m] && s[i..][m..] == s[i + m..]
  {
  }

  lemma TrimStartOfTrimmed(s: string)
    requires s == [] || !IsWhitespace(s[0])
    ensures TrimStart(s) == s
  {
  }

  lemma TrimEndOfTrimmed(s: string)
    requires s == [] || !IsWhitespace(s[|s| - 1])
    ensures TrimEnd(s) == s
  {
  }

  /** A string with no whitespace at either end is its own trim; in
      particular, trimming twice is trimming once. */
  lemma TrimOfTrimmed(s: string)
    requires Trimmed(s)
    ensures Trim(s) == s
  {
    TrimStartOfTrimmed(s);
    TrimEndOfTrimmed(s);
  }

  /** A string made only of whitespace trims to the empty string. */
  lemma {:induction false} TrimAllWhitespace(s: string)
    requires AllWhitespace(s)
    ensures Trim(s) == []
  {
    if s != [] {
      assert AllWhitespace(s[1..]);
      TrimAllWhitespace(s[1..]);
      assert TrimStart(s) == TrimStart(s[1..]);
    }
  }

  // ---------------------------------------------------------------------------
  // Character-wise maps and toLowerCase
  // ---------------------------------------------------------------------------

  /** Applies `f` to every character of `s`, as a per-character `replace` or a
      simple case mapping does. */
  function MapChars(f: char -> char, s: string): (r: string)
    ensures |r| == |s|
    ensures forall i :: 0 <= i < |s| ==> r[i] == f(s[i])
  {
    seq(|s|, i requires 0 <= i < |s| => f(s[i]))
  }

  /** `f` neither turns whitespace into something else nor creates it. */
  ghost predicate KeepsWhitespace(f: char -> char) {
    forall c :: IsWhitespace(f(c)) == IsWhitespace(c)
  }

  lemma {:induction false} TrimStartMap(f: char -> char, s: string)
    requires KeepsWhitespace(f)
    ensures TrimStart(MapChars(f, s)) == MapChars(f, TrimStart(s))
    decreases |s|
  {
    var m := MapChars(f, s);
    if |s| > 0 && IsWhitespace(s[0]) {
      assert IsWhitespace(m[0]);
      assert m[1..] == MapChars(f, s[1..]);
      TrimStartMap(f, s[1..]);
    } else if |s| > 0 {
      assert !IsWhitespace(m[0]);
    }
  }

  lemma {:induction false} TrimEndMap(f: char -> char, s: string)
    requires KeepsWhitespace(f)
    ensures TrimEnd(MapChars(f, s)) == MapChars(f, TrimEnd(s))
    decreases |s|
  {
    var m := MapChars(f, s);
    if |s| > 0 && IsWhitespace(s[|s| - 1]) {
      assert IsWhitespace(m[|m| - 1]);
      assert m[..|m| - 1] == MapChars(f, s[..|s| - 1]);
      TrimEndMap(f, s[..|s| - 1]);
    } else if |s| > 0 {
      assert !IsWhitespace(m[|m| - 1]);
    }
  }

  /** A character map that keeps whitespace keeps a trimmed string
      trimmed. */
  lemma MapCharsTrimmed(f: char -> char, s: string)
    requires KeepsWhitespace(f) && Trimmed(s)
    ensures Trimmed(MapChars(f, s))
  {
  }

  /** Trimming commutes with any character map that keeps whitespace as
      whitespace and everything else as non-whitespace. */
  lemma TrimMap(f: char -> char, s: string)
    requires KeepsWhitespace(f)
    ensures Trim(MapChars(f, s)) == MapChars(f, Trim(s))
  {
    TrimStartMap(f, s);
    TrimEndMap(f, TrimStart(s));
  }

  predicate IsAsciiUpper(c: char) { 'A' <= c <= 'Z' }

  /** FULLWIDTH LATIN CAPITAL LETTER A .. Z. */
  predicate IsFullwidthUpper(c: char) { '\U{FF21}' <= c <= '\U{FF3A}' }

  predicate IsUpper(c: char) { IsAsciiUpper(c) || IsFullwidthUpper(c) }

  /** The lower-case mapping of one character, for the capital letters this
      model knows (ASCII and fullwidth Latin); every other character maps to
      itself. */
  function LowerChar(c: char): (d: char)
    ensures !IsUpper(d)
    ensures IsUpper(c) ==> d as int == c as int + 0x20
    ensures !IsUpper(c) ==> d == c
    ensures IsWhitespace(d) == IsWhitespace(c)
  {
    if IsUpper(c) then (c as int + 0x20) as char else c
  }

  /** `String.prototype.toLowerCase`, character by character. */
  function Lower(s: string): (r: string)
    ensures |r| == |s|
    ensures forall i :: 0 <= i < |s| ==> r[i] == LowerChar(s[i])
    ensures forall i :: 0 <= i < |r| ==> !IsUpper(r[i])
  {
    MapChars(LowerChar, s)
  }

  lemma LowerKeepsWhitespace()
    ensures KeepsWhitespace(LowerChar)
  {
  }

  /** Lower-casing leaves a string without capitals unchanged; so
      lower-casing twice is lower-casing once. */
  lemma LowerOfLower(s: string)
    requires forall i :: 0 <= i < |s| ==> !IsUpper(s[i])
    ensures Lower(s) == s
  {
  }

  // ---------------------------------------------------------------------------
  // includes
  // ---------------------------------------------------------------------------

  predicate IsPrefix(p: string, s: string) {
    |p| <= |s| && s[..|p|] == p
  }

  /** `s.includes(sub)`: `sub` is a prefix of `s` or of one of its suffixes. */
  predicate Includes(s: string, sub: string): (r: bool)
    ensures |sub| == 0 ==> r
    ensures r ==> |sub| <= |s|
    ensures r && |sub| == |s| ==> sub == s
    decreases |s|
  {
    IsPrefix(sub, s) || (|s| > 0 && Includes(s[1..], sub))
  }

  /** `sub` occurs in `s` starting at index `i`. */
  predicate OccursAt(s: string, sub: string, i: int) {
    0 <= i && i + |sub| <= |s| && s[i..i + |sub|] == sub
  }

  /** The scanning definition of `Includes` agrees with the positional one:
      `s` includes `sub` exactly when `sub` occurs in `s` at some index. */
  lemma {:induction false} IncludesIff(s: string, sub: string)
    ensures Includes(s, sub) <==> exists i :: OccursAt(s, sub, i)
    decreases |s|
  {
    if Includes(s, sub) {
      if IsPrefix(sub, s) {
        assert OccursAt(s, sub, 0);
      } else {
        IncludesIff(s[1..], sub);
        var i :| OccursAt(s[1..], sub, i);
        assert s[1..][i..i + |sub|] == s[i + 1..i + 1 + |sub|];
        assert OccursAt(s, sub, i + 1);
      }
    }
    if exists i :: OccursAt(s, sub, i) {
      var i :| OccursAt(s, sub, i);
      if i > 0 {
        assert s[1..][i - 1..i - 1 + |sub|] == s[i..i + |sub|];
        assert OccursAt(s[1..], sub, i - 1);
        IncludesIff(s[1..], sub);
      } else {
        assert IsPrefix(sub, s);
      }
    }
  }

  /** Every string includes the empty string. */
  lemma IncludesEmpty(s: string)
    ensures Includes(s, [])
  {
    assert IsPrefix([], s);
  }

  /** Every string includes itself. */
  lemma IncludesSelf(s: string)
    ensures Includes(s, s)
  {
    assert IsPrefix(s, s);
  }

  /** A string includes no string longer than itself, and includes one of
      its own length only when the two are equal. */
  lemma IncludesNoLonger(s: string, sub: string)
    requires Includes(s, sub)
    ensures |sub| <= |s|
    ensures |sub| == |s| ==> sub == s
  {
    IncludesIff(s, sub);
    var i :| OccursAt(s, sub, i);
    if |sub| == |s| {
      assert i == 0;
      assert s[..] == s;
    }
  }

  /** A string includes no other string of its own length. */
  lemma IncludesOtherOfSameLength(s: string, sub: string)
    requires |sub| == |s| && sub != s
    ensures !Includes(s, sub)
  {
    if Includes(s, sub) {
      IncludesNoLonger(s, sub);
    }
  }

  /** A string includes nothing longer than itself. */
  lemma NotIncludesLonger(s: string, sub: string)
    requires |sub| > |s|
    ensures !Includes(s, sub)
  {
    if Includes(s, sub) {
      IncludesNoLonger(s, sub);
    }
  }

  /** A string includes nothing holding a character it lacks. */
  lemma NotIncludesForeignChar(s: string, sub: string, k: int)
    requires 0 <= k < |sub| && sub[k] !in s
    ensures !Includes(s, sub)
  {
    if Includes(s, sub) {
      IncludesChars(s, sub, k);
    }
  }

  /** Every character of an included string is a character of the including
      string. */
  lemma IncludesChars(s: string, sub: string, k: int)
    requires Includes(s, sub) && 0 <= k < |sub|
    ensures sub[k] in s
  {
    IncludesIff(s, sub);
    var i :| OccursAt(s, sub, i);
    assert s[i + k] == sub[k];
  }
}
