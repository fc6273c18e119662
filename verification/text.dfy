/** The java.lang.String operations the recipe manager relies on: trim,
    isBlank, toLowerCase and equalsIgnoreCase (ASCII letters only), contains,
    compareTo (on code points), length (in UTF-16 code units), split on one
    character and String.join. */
module Text {

  /** String.trim removes every leading and trailing char at or below U+0020. */
  predicate IsTrimSpace(c: char) {
    c <= ' '
  }

  /** Character.isWhitespace, the test behind String.isBlank: the Unicode
      space, line and paragraph separators other than the no-break spaces
      U+00A0, U+2007 and U+202F, and the controls U+0009-U+000D and
      U+001C-U+001F. */
  predicate IsWhitespace(c: char) {
    var n := c as int;
    || n == 0x20 || (0x09 <= n <= 0x0D) || (0x1C <= n <= 0x1F)
    || n == 0x1680 || (0x2000 <= n <= 0x2006) || (0x2008 <= n <= 0x200A)
    || n == 0x2028 || n == 0x2029 || n == 0x205F || n == 0x3000
  }

  /** `s.trim().isEmpty()` */
  predicate TrimsToEmpty(s: string) {
    forall k :: 0 <= k < |s| ==> IsTrimSpace(s[k])
  }

  /** `s.isBlank()` */
  predicate IsBlank(s: string) {
    forall k :: 0 <= k < |s| ==> IsWhitespace(s[k])
  }

  /** Neither end of `s` is a char that trim would remove. */
  predicate IsTrimmed(s: string) {
    |s| == 0 || (!IsTrimSpace(s[0]) && !IsTrimSpace(s[|s| - 1]))
  }

  /** Number of leading chars trim removes. */
  function LeadingSpace(s: string): (n: nat)
    ensures n <= |s|
    ensures forall k :: 0 <= k < n ==> IsTrimSpace(s[k])
    ensures n == |s| || !IsTrimSpace(s[n])
  {
    if |s| == 0 || !IsTrimSpace(s[0]) then 0 else 1 + LeadingSpace(s[1..])
  }

  /** Index just past the last char trim keeps. */
  function TrailingStart(s: string): (n: nat)
    ensures n <= |s|
    ensures forall k :: n <= k < |s| ==> IsTrimSpace(s[k])
    ensures n == 0 || !IsTrimSpace(s[n - 1])
  {
    if |s| == 0 || !IsTrimSpace(s[|s| - 1]) then |s| else TrailingStart(s[..|s| - 1])
  }

  /** `s.trim()` */
  function Trim(s: string): (r: string)
    ensures |r| <= |s|
    ensures r == [] <==> TrimsToEmpty(s)
    ensures IsTrimmed(r)
    ensures exists i :: 0 <= i <= |s| - |r| && r <= s[i..] && TrimsToEmpty(s[..i]) && TrimsToEmpty(s[i + |r|..])
  {
    var i := LeadingSpace(s);
    var j := TrailingStart(s);
    if i >= j then
      assert TrimsToEmpty(s[..0]) && TrimsToEmpty(s[0..]);
      []
    else
      assert TrimsToEmpty(s[..i]) && TrimsToEmpty(s[j..]);
      s[i..j]
  }

  /** Trimming a string that is already trimmed changes nothing. */
  lemma TrimOfTrimmed(s: string)
    requires IsTrimmed(s)
    ensures Trim(s) == s
  {
    if |s| > 0 {
      assert LeadingSpace(s) == 0;
      assert TrailingStart(s) == |s|;
    }
  }

  /** Below U+0080 every blank string trims to empty; trim also drops the
      other control chars, so the converse fails. Above it, isBlank also
      accepts the Unicode spaces, which trim keeps. */
  lemma BlankTrimsToEmpty(s: string)
    requires IsBlank(s)
    requires forall k :: 0 <= k < |s| ==> s[k] as int < 0x80
    ensures TrimsToEmpty(s)
  {
  }

  /** A string of one ideographic space U+3000 is blank, yet trim keeps it. */
  lemma IdeographicSpaceIsBlankNotTrimmed()
    ensures IsBlank([0x3000 as char]) && !TrimsToEmpty([0x3000 as char])
  {
    assert [0x3000 as char][0] == 0x3000 as char;
  }

  function LowerChar(c: char): char {
    if 'A' <= c <= 'Z' then (c as int + 32) as char else c
  }

  /** `s.toLowerCase()` on ASCII letters. */
  function Lower(s: string): (r: string)
    ensures |r| == |s|
    ensures forall k :: 0 <= k < |s| ==> r[k] == LowerChar(s[k])
  {
    if |s| == 0 then [] else [LowerChar(s[0])] + Lower(s[1..])
  }

  lemma LowerAppend(a: string, b: string)
    ensures Lower(a + b) == Lower(a) + Lower(b)
  {
    forall k | 0 <= k < |a + b| ensures Lower(a + b)[k] == (Lower(a) + Lower(b))[k] {
      if k < |a| {
        assert (a + b)[k] == a[k];
      } else {
        assert (a + b)[k] == b[k - |a|];
      }
    }
  }

  /** A char outside the Basic Multilingual Plane: Java stores it as a
      surrogate pair, two UTF-16 code units. */
  predicate IsSupplementary(c: char) {
    c as int > 0xFFFF
  }

  /** `s.length()`: the number of UTF-16 code units, so a supplementary
      char counts twice. */
  function Utf16Length(s: string): (n: nat)
    ensures |s| <= n <= 2 * |s|
    ensures n == |s| <==> forall k :: 0 <= k < |s| ==> !IsSupplementary(s[k])
  {
    if |s| == 0 then 0
    else
      var rest := Utf16Length(s[1..]);
      assert forall k :: 0 <= k < |s[1..]| ==> s[1..][k] == s[k + 1];
      (if IsSupplementary(s[0]) then 2 else 1) + rest
  }

  /** The UTF-16 length of a concatenation is the sum of the lengths. */
  lemma {:induction false} Utf16LengthAppend(a: string, b: string)
    ensures Utf16Length(a + b) == Utf16Length(a) + Utf16Length(b)
    decreases |a|
  {
    if |a| == 0 {
      assert a + b == b;
    } else {
      assert (a + b)[0] == a[0] && (a + b)[1..] == a[1..] + b;
      Utf16LengthAppend(a[1..], b);
    }
  }

  /** `a.equalsIgnoreCase(b)` */
  predicate EqualsIgnoreCase(a: string, b: string) {
    Lower(a) == Lower(b)
  }

  /** `s.contains(q)` */
  predicate Contains(s: string, q: string) {
    exists i :: 0 <= i <= |s| && q <= s[i..]
  }

  /** `a.compareTo(b) < 0`: the first differing char decides, otherwise the shorter string is smaller. */
  predicate StrLess(a: string, b: string)
    decreases |a|
  {
    if |a| == 0 then |b| > 0
    else if |b| == 0 then false
    else if a[0] != b[0] then a[0] < b[0]
    else StrLess(a[1..], b[1..])
  }

  lemma StrLessIrreflexive(a: string)
    ensures !StrLess(a, a)
  {
  }

  lemma StrLessTransitive(a: string, b: string, c: string)
    requires StrLess(a, b) && StrLess(b, c)
    ensures StrLess(a, c)
    decreases |a|
  {
    if |a| > 0 && |b| > 0 && |c| > 0 && a[0] == b[0] && b[0] == c[0] {
      StrLessTransitive(a[1..], b[1..], c[1..]);
    }
  }

  lemma StrLessTotal(a: string, b: string)
    requires a != b
    ensures StrLess(a, b) || StrLess(b, a)
    decreases |a|
  {
    if |a| > 0 && |b| > 0 && a[0] == b[0] {
      assert a == [a[0]] + a[1..] && b == [b[0]] + b[1..];
      StrLessTotal(a[1..], b[1..]);
    }
  }

  /** `String.join(sep, parts)`. */
  function Join(parts: seq<string>, sep: char): string
  {
    if |parts| == 0 then ""
    else if |parts| == 1 then parts[0]
    else parts[0] + [sep] + Join(parts[1..], sep)
  }

  /** `s.split(sep, -1)` for a one-char literal separator: every piece, empty ones included. */
  function Split(s: string, sep: char): (parts: seq<string>)
    ensures |parts| >= 1
    ensures forall k :: 0 <= k < |parts| ==> sep !in parts[k]
    ensures Join(parts, sep) == s
  {
    if |s| == 0 then [""]
    else
      var rest := Split(s[1..], sep);
      if s[0] == sep then
        assert Join([""] + rest, sep) == [sep] + Join(rest, sep) by {
          assert ([""] + rest)[1..] == rest;
        }
        [""] + rest
      else
        var parts := [[s[0]] + rest[0]] + rest[1..];
        assert Join(parts, sep) == [s[0]] + Join(rest, sep) by {
          if |rest| > 1 {
            assert parts[1..] == rest[1..];
          }
        }
        assert s == [s[0]] + s[1..];
        parts
  }

  lemma SplitWithoutSeparator(a: string, sep: char)
    requires sep !in a
    ensures Split(a, sep) == [a]
    decreases |a|
  {
    if |a| > 0 {
      SplitWithoutSeparator(a[1..], sep);
      assert a == [a[0]] + a[1..];
    }
  }

  lemma {:induction false} SplitAtFirstSeparator(a: string, b: string, sep: char)
    requires sep !in a
    ensures Split(a + [sep] + b, sep) == [a] + Split(b, sep)
    decreases |a|
  {
    if |a| == 0 {
      assert a + [sep] + b == [sep] + b;
      assert ([sep] + b)[1..] == b;
    } else {
      var s := a + [sep] + b;
      assert s[1..] == a[1..] + [sep] + b;
      SplitAtFirstSeparator(a[1..], b, sep);
      var rest := Split(s[1..], sep);
      assert rest[0] == a[1..] && rest[1..] == Split(b, sep);
      assert s[0] == a[0] != sep;
      assert Split(s, sep) == [[s[0]] + rest[0]] + rest[1..];
      assert [s[0]] + a[1..] == a;
    }
  }

  /** Splitting a join recovers the pieces when no piece holds the separator. */
  lemma {:induction false} SplitJoin(parts: seq<string>, sep: char)
    requires |parts| >= 1
    requires forall k :: 0 <= k < |parts| ==> sep !in parts[k]
    ensures Split(Join(parts, sep), sep) == parts
    decreases |parts|
  {
    if |parts| == 1 {
      SplitWithoutSeparator(parts[0], sep);
    } else {
      SplitJoin(parts[1..], sep);
      SplitAtFirstSeparator(parts[0], Join(parts[1..], sep), sep);
      assert [parts[0]] + parts[1..] == parts;
    }
  }
}
