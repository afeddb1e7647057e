/** The ECMAScript string operations the core relies on (trim, includes, startsWith,
    split, substring, padStart, length, slice), over Dafny strings.

    A Dafny `char` is a Unicode scalar value, whereas an ECMAScript string is a sequence
    of UTF-16 code units; `Utf16Length` gives the ECMAScript `length` of a string. */
module JsText {

  /** WhiteSpace or LineTerminator code points (sections 12.2 and 12.3 of ECMA-262):
      exactly what String.prototype.trim and parseInt skip. */
  predicate IsWhitespace(c: char) {
    var n := c as int;
    || 0x09 <= n <= 0x0D
    || n == 0x20 || n == 0xA0 || n == 0x1680
    || 0x2000 <= n <= 0x200A
    || n == 0x2028 || n == 0x2029 || n == 0x202F || n == 0x205F
    || n == 0x3000 || n == 0xFEFF
  }

  /** The LineTerminator code points: the ones a regular expression `.` does not match. */
  predicate IsLineTerminator(c: char) {
    c == '\n' || c == '\r' || c as int == 0x2028 || c as int == 0x2029
  }

  predicate AllWhitespace(s: string) {
    forall i :: 0 <= i < |s| ==> IsWhitespace(s[i])
  }

  /** How many whitespace characters `s` begins with. */
  function LeadingWhitespace(s: string): (n: nat)
    ensures n <= |s|
    ensures forall i :: 0 <= i < n ==> IsWhitespace(s[i])
    ensures n < |s| ==> !IsWhitespace(s[n])
    decreases |s|
  {
    if |s| > 0 && IsWhitespace(s[0]) then
      var m := LeadingWhitespace(s[1..]);
      assert forall i :: 1 <= i < 1 + m ==> s[i] == s[1..][i - 1];
      1 + m
    else 0
  }

  /** How many whitespace characters `s` ends with. */
  function TrailingWhitespace(s: string): (n: nat)
    ensures n <= |s|
    ensures forall i :: |s| - n <= i < |s| ==> IsWhitespace(s[i])
    ensures n < |s| ==> !IsWhitespace(s[|s| - n - 1])
    decreases |s|
  {
    if |s| > 0 && IsWhitespace(s[|s| - 1]) then
      var m := TrailingWhitespace(s[..|s| - 1]);
      assert forall i :: |s| - 1 - m <= i < |s| - 1 ==> s[i] == s[..|s| - 1][i];
      1 + m
    else 0
  }

  /** String.prototype.trimStart: the longest whitespace prefix is dropped. */
  function TrimStart(s: string): string {
    s[LeadingWhitespace(s)..]
  }

  /** Whitespace followed by a part that does not begin with whitespace trims to that part. */
  lemma TrimStartAfterBlank(w: string, rest: string)
    requires AllWhitespace(w)
    requires rest == [] || !IsWhitespace(rest[0])
    ensures TrimStart(w + rest) == rest
  {
    var s := w + rest;
    assert forall i :: 0 <= i < |w| ==> s[i] == w[i];
    assert |rest| > 0 ==> s[|w|] == rest[0];
    assert s[|w|..] == rest;
  }

  /** String.prototype.trimEnd: the longest whitespace suffix is dropped. */
  function TrimEnd(s: string): string {
    s[..|s| - TrailingWhitespace(s)]
  }

  /** String.prototype.trim. */
  function Trim(s: string): string {
    TrimEnd(TrimStart(s))
  }

  /** Where the trimmed part of `s` begins. */
  function TrimFrom(s: string): nat {
    LeadingWhitespace(s)
  }

  /** Where the trimmed part of `s` ends. */
  function TrimTo(s: string): nat {
    |s| - TrailingWhitespace(TrimStart(s))
  }

  /** Trim keeps one contiguous run of the string, and what it drops on either side is
      whitespace. */
  lemma TrimSlice(s: string)
    ensures TrimFrom(s) <= TrimTo(s) <= |s|
    ensures Trim(s) == s[TrimFrom(s)..TrimTo(s)]
    ensures forall i :: 0 <= i < TrimFrom(s) ==> IsWhitespace(s[i])
    ensures forall i :: TrimTo(s) <= i < |s| ==> IsWhitespace(s[i])
  {
    var a := LeadingWhitespace(s);
    var u := s[a..];
    var m := TrailingWhitespace(u);
    assert forall i :: |u| - m <= i < |u| ==> u[i] == s[a + i];
  }

  /** A trimmed string neither begins nor ends with whitespace. */
  lemma TrimmedEnds(s: string)
    ensures Trim(s) == [] || (!IsWhitespace(Trim(s)[0]) && !IsWhitespace(Trim(s)[|Trim(s)| - 1]))
  {
    var a := LeadingWhitespace(s);
    var u := s[a..];
    var m := TrailingWhitespace(u);
    if Trim(s) != [] {
      assert Trim(s)[0] == s[a];
      assert Trim(s)[|Trim(s)| - 1] == u[|u| - m - 1];
    }
  }

  /** A string trims to "" exactly when every character of it is whitespace. */
  lemma TrimEmptyIffBlank(s: string)
    ensures Trim(s) == [] <==> AllWhitespace(s)
  {
    TrimSlice(s);
    if AllWhitespace(s) {
      assert LeadingWhitespace(s) == |s|;
    }
  }

  /** String.prototype.startsWith(p). */
  predicate StartsWith(s: string, p: string) {
    |p| <= |s| && s[..|p|] == p
  }

  /** String.prototype.includes(t). */
  predicate Contains(s: string, t: string) {
    exists i | 0 <= i <= |s| - |t| :: OccursAt(s, t, i)
  }

  predicate OccursAt(s: string, t: string, i: int) {
    0 <= i <= |s| - |t| && s[i..i + |t|] == t
  }

  /** String.prototype.substring(start) for one argument: the start is clamped into the string. */
  function Substring(s: string, start: int): (r: string)
    ensures 0 <= start <= |s| ==> r == s[start..]
    ensures start >= |s| ==> r == []
    ensures start <= 0 ==> r == s
  {
    if start <= 0 then s else if start >= |s| then [] else s[start..]
  }

  /** String.prototype.padStart(n, fill) for a one-character fill string. */
  function PadStart(s: string, n: nat, fill: char): (r: string)
    ensures |s| >= n ==> r == s
    ensures |s| < n ==> |r| == n && r[n - |s|..] == s
    ensures forall i :: 0 <= i < |r| - |s| ==> r[i] == fill
    decreases n - |s|
  {
    if |s| >= n then s else PadStart([fill] + s, n, fill)
  }

  /** String.prototype.split(sep) for a one-character separator: the maximal runs
      between separators, in order, always at least one of them. */
  function Split(s: string, sep: char): (parts: seq<string>)
    ensures |parts| >= 1
    ensures forall k :: 0 <= k < |parts| ==> sep !in parts[k]
    ensures Join(parts, sep) == s
    decreases |s|
  {
    if |s| == 0 then [""]
    else
      var rest := Split(s[1..], sep);
      if s[0] == sep then [""] + rest
      else
        var parts := [[s[0]] + rest[0]] + rest[1..];
        assert parts[1..] == rest[1..];
        assert [s[0]] + s[1..] == s;
        parts
  }

  /** Array.prototype.join(sep): the inverse of Split. */
  function Join(parts: seq<string>, sep: char): string {
    if |parts| == 0 then ""
    else if |parts| == 1 then parts[0]
    else parts[0] + [sep] + Join(parts[1..], sep)
  }

  /** A string without the separator splits into itself alone. */
  lemma {:induction false} SplitWithoutSeparator(s: string, sep: char)
    requires sep !in s
    ensures Split(s, sep) == [s]
    decreases |s|
  {
    if |s| > 0 {
      assert sep !in s[1..] by {
        forall k | 0 <= k < |s[1..]| ensures s[1..][k] != sep {
          assert s[1..][k] == s[k + 1];
        }
      }
      SplitWithoutSeparator(s[1..], sep);
      assert [s[0]] + s[1..] == s;
    }
  }

  /** A field followed by a separator splits off as the first field. */
  lemma {:induction false} SplitFieldThenRest(a: string, b: string, sep: char)
    requires sep !in a
    ensures Split(a + [sep] + b, sep) == [a] + Split(b, sep)
    decreases |a|
  {
    if |a| == 0 {
      assert a + [sep] + b == [sep] + b;
      SplitLeadingSeparator(b, sep);
    } else {
      assert sep !in a[1..] by {
        forall k | 0 <= k < |a[1..]| ensures a[1..][k] != sep {
          assert a[1..][k] == a[k + 1];
        }
      }
      SplitFieldThenRest(a[1..], b, sep);
      assert a + [sep] + b == [a[0]] + (a[1..] + [sep] + b);
      SplitLeadingChar(a[0], a[1..] + [sep] + b, sep);
      assert [a[0]] + a[1..] == a;
    }
  }

  /** The last field of a split is the suffix after the last separator. */
  lemma {:induction false} SplitLastField(s: string, sep: char)
    ensures var parts := Split(s, sep); var last := parts[|parts| - 1];
      |last| <= |s| && s[|s| - |last|..] == last && (|last| == |s| || s[|s| - |last| - 1] == sep)
    decreases |s|
  {
    if |s| > 0 {
      var t := s[1..];
      SplitLastField(t, sep);
      SplitLastStep(s, sep);
      var rest := Split(t, sep);
      var last := rest[|rest| - 1];
      if s[0] == sep || |rest| > 1 {
        assert t[|t| - |last|..] == s[|s| - |last|..];
        if |last| == |t| {
          assert s[0] == sep by {
            if s[0] != sep {
              SplitWithoutLast(t, sep);
            }
          }
        } else {
          assert s[|s| - |last| - 1] == t[|t| - |last| - 1];
        }
      }
    }
  }

  /** One step of Split from the left: the last field stays the same unless the first
      character joins a single field. */
  lemma SplitLastStep(s: string, sep: char)
    requires |s| > 0
    ensures var parts, rest := Split(s, sep), Split(s[1..], sep);
      && (s[0] == sep || |rest| > 1 ==> parts[|parts| - 1] == rest[|rest| - 1])
      && (s[0] != sep && |rest| == 1 ==> parts == [s])
  {
    var rest := Split(s[1..], sep);
    if s[0] != sep && |rest| == 1 {
      assert Join(rest, sep) == rest[0];
      assert [s[0]] + s[1..] == s;
    }
  }

  /** A split into more than one field whose last field is the whole string is impossible. */
  lemma SplitWithoutLast(t: string, sep: char)
    requires |Split(t, sep)| > 1
    ensures |Split(t, sep)[|Split(t, sep)| - 1]| < |t|
  {
    var parts := Split(t, sep);
    JoinLength(parts, sep);
  }

  /** Joining at least two fields writes at least one separator after the first field. */
  lemma {:induction false} JoinLength(parts: seq<string>, sep: char)
    requires |parts| > 1
    ensures |Join(parts, sep)| > |parts[|parts| - 1]|
    decreases |parts|
  {
    if |parts| > 2 {
      JoinLength(parts[1..], sep);
    }
  }

  /** A leading separator contributes an empty first field. */
  lemma SplitLeadingSeparator(s: string, sep: char)
    ensures Split([sep] + s, sep) == [""] + Split(s, sep)
  {
    assert ([sep] + s)[1..] == s;
  }

  /** A leading non-separator character is prepended to the first field. */
  lemma SplitLeadingChar(c: char, s: string, sep: char)
    requires c != sep
    ensures Split([c] + s, sep) == [[c] + Split(s, sep)[0]] + Split(s, sep)[1..]
  {
    assert ([c] + s)[1..] == s;
  }

  /** An index argument of slice (section 23.2.3.27 of ECMA-262): a negative index counts
      from the end, and the result is clamped into [0, len]. */
  function RelativeIndex(k: int, len: nat): (i: nat)
    ensures i <= len
    ensures 0 <= k <= len ==> i == k
    ensures 0 - len <= k < 0 ==> i == len + k
    ensures k < 0 - len ==> i == 0
    ensures k > len ==> i == len
  {
    if k < 0 then (if len + k < 0 then 0 else len + k) else if k > len then len else k
  }

  /** Array.prototype.slice / TypedArray.prototype.slice(start, end). */
  function Slice<T>(s: seq<T>, start: int, end: int): (r: seq<T>)
    ensures |r| <= |s|
    ensures RelativeIndex(start, |s|) <= RelativeIndex(end, |s|) ==>
      r == s[RelativeIndex(start, |s|)..RelativeIndex(end, |s|)]
    ensures RelativeIndex(end, |s|) <= RelativeIndex(start, |s|) ==> r == []
  {
    var from, to := RelativeIndex(start, |s|), RelativeIndex(end, |s|);
    if from < to then s[from..to] else []
  }

  /** The ECMAScript `length` of a string: one UTF-16 code unit per character of the
      Basic Multilingual Plane, two (a surrogate pair) per character above it. */
  function Utf16Length(s: string): (n: nat)
    ensures |s| <= n <= 2 * |s|
    ensures |s| == 1 ==> n == (if s[0] as int >= 0x10000 then 2 else 1)
    ensures (forall i :: 0 <= i < |s| ==> s[i] as int < 0x10000) ==> n == |s|
    ensures (forall i :: 0 <= i < |s| ==> s[i] as int >= 0x10000) ==> n == 2 * |s|
  {
    if |s| == 0 then 0
    else
      assert forall i :: 0 <= i < |s| - 1 ==> s[..|s| - 1][i] == s[i];
      Utf16Length(s[..|s| - 1]) + (if s[|s| - 1] as int >= 0x10000 then 2 else 1)
  }

  /** The length of a concatenation is the sum of the lengths: with the one-character
      case of `Utf16Length`, this fixes the length of every string. */
  lemma {:induction false} Utf16LengthConcat(a: string, b: string)
    ensures Utf16Length(a + b) == Utf16Length(a) + Utf16Length(b)
    decreases |b|
  {
    if |b| > 0 {
      var b' := b[..|b| - 1];
      Utf16LengthConcat(a, b');
      assert (a + b)[..|a + b| - 1] == a + b';
      assert (a + b)[|a + b| - 1] == b[|b| - 1];
    } else {
      assert a + b == a;
    }
  }
}
