/**
 * The handful of Python `str` operations the script relies on, stated over
 * `string` (a sequence of Unicode scalar values, as a Python `str` is).
 */
module Text {

  /** `c.isspace()`; also what `\s` matches in a `str` pattern and what `strip()` removes. */
  predicate IsSpace(c: char) {
    || ('\t' <= c <= '\r')
    || ('\U{1C}' <= c <= '\U{1F}')
    || c == ' ' || c == '\U{85}' || c == '\U{A0}' || c == '\U{1680}'
    || ('\U{2000}' <= c <= '\U{200A}')
    || c == '\U{2028}' || c == '\U{2029}' || c == '\U{202F}' || c == '\U{205F}' || c == '\U{3000}'
  }

  /** The characters at which `str.splitlines()` ends a line. */
  predicate IsLineBreak(c: char) {
    || c == '\n' || c == '\r' || c == '\U{B}' || c == '\U{C}'
    || ('\U{1C}' <= c <= '\U{1E}')
    || c == '\U{85}' || c == '\U{2028}' || c == '\U{2029}'
  }

  predicate NoLineBreak(s: string) {
    forall i :: 0 <= i < |s| ==> !IsLineBreak(s[i])
  }

  /** Python's `a < b` on `str`: lexicographic order by code point. */
  predicate Less(a: string, b: string)
    decreases |a|
  {
    if b == [] then false
    else if a == [] then true
    else if a[0] != b[0] then a[0] < b[0]
    else Less(a[1..], b[1..])
  }

  lemma {:induction false} LessIrreflexive(a: string)
    ensures !Less(a, a)
  {
    if a != [] {
      LessIrreflexive(a[1..]);
    }
  }

  lemma {:induction false} LessAsymmetric(a: string, b: string)
    requires Less(a, b)
    ensures !Less(b, a)
  {
    if a != [] && b != [] && a[0] == b[0] {
      LessAsymmetric(a[1..], b[1..]);
    }
  }

  lemma {:induction false} LessTransitive(a: string, b: string, c: string)
    requires Less(a, b) && Less(b, c)
    ensures Less(a, c)
  {
    if a != [] && a[0] == b[0] && b[0] == c[0] {
      LessTransitive(a[1..], b[1..], c[1..]);
    }
  }

  lemma {:induction false} LessTotal(a: string, b: string)
    ensures Less(a, b) || a == b || Less(b, a)
  {
    if a != [] && b != [] && a[0] == b[0] {
      LessTotal(a[1..], b[1..]);
      if a[1..] == b[1..] {
        assert a == [a[0]] + a[1..] && b == [b[0]] + b[1..];
      }
    }
  }

  /** Comparing two equal-length strings splits at any index into prefix, then rest. */
  lemma {:induction false} LessSplit(x: string, y: string, k: nat)
    requires |x| == |y| && k <= |x|
    ensures Less(x, y) <==> Less(x[..k], y[..k]) || (x[..k] == y[..k] && Less(x[k..], y[k..]))
  {
    if k > 0 && x[0] == y[0] {
      LessSplit(x[1..], y[1..], k - 1);
      assert x[1..][..k - 1] == x[..k][1..] && y[1..][..k - 1] == y[..k][1..];
      assert x[1..][k - 1..] == x[k..] && y[1..][k - 1..] == y[k..];
      assert x[..k] == [x[0]] + x[..k][1..] && y[..k] == [y[0]] + y[..k][1..];
    }
  }

  /** Python's `sub in s` for strings. */
  predicate Contains(s: string, sub: string)
    decreases |s|
  {
    sub <= s || (s != [] && Contains(s[1..], sub))
  }

  /** `sub` occurs in `s` starting at index `i`. */
  predicate OccursAt(s: string, sub: string, i: nat) {
    i + |sub| <= |s| && s[i..i + |sub|] == sub
  }

  /** `sub in s` holds exactly when `sub` occurs at some index of `s`. */
  lemma {:induction false} ContainsAt(s: string, sub: string)
    ensures Contains(s, sub) <==> exists i: nat :: OccursAt(s, sub, i)
  {
    if s == [] {
      if sub == [] {
        assert OccursAt(s, sub, 0);
      }
    } else {
      ContainsAt(s[1..], sub);
      if sub <= s {
        assert OccursAt(s, sub, 0);
      } else if Contains(s[1..], sub) {
        var i: nat :| OccursAt(s[1..], sub, i);
        assert s[1..][i..i + |sub|] == s[i + 1..i + 1 + |sub|];
        assert OccursAt(s, sub, i + 1);
      }
      if exists i: nat :: OccursAt(s, sub, i) {
        var i: nat :| OccursAt(s, sub, i);
        if i == 0 {
          assert sub <= s;
        } else {
          assert s[1..][i - 1..i - 1 + |sub|] == s[i..i + |sub|];
          assert OccursAt(s[1..], sub, i - 1);
        }
      }
    }
  }

  /** `s.count(c)` for a one-character argument. */
  function Count(s: string, c: char): (n: nat)
    ensures n <= |s|
    ensures n == 0 <==> c !in s
  {
    if s == [] then 0 else (if s[0] == c then 1 else 0) + Count(s[1..], c)
  }

  lemma {:induction false} CountAppend(a: string, b: string, c: char)
    ensures Count(a + b, c) == Count(a, c) + Count(b, c)
  {
    if a != [] {
      assert (a + b)[1..] == a[1..] + b;
      CountAppend(a[1..], b, c);
    } else {
      assert a + b == b;
    }
  }

  /** `s.replace(c, '')` for a one-character `c`. */
  function RemoveAll(s: string, c: char): (r: string)
    ensures c !in r
  {
    if s == [] then []
    else if s[0] == c then RemoveAll(s[1..], c)
    else [s[0]] + RemoveAll(s[1..], c)
  }

  lemma {:induction false} RemoveAbsent(s: string, c: char)
    requires c !in s
    ensures RemoveAll(s, c) == s
  {
    if s != [] {
      RemoveAbsent(s[1..], c);
    }
  }

  /** `s.split(sep)` for a one-character separator. */
  function Split(s: string, sep: char): (parts: seq<string>)
    ensures |parts| == Count(s, sep) + 1
    ensures forall i :: 0 <= i < |parts| ==> sep !in parts[i]
    decreases |s|
  {
    if s == [] then [""]
    else
      var rest := Split(s[1..], sep);
      if s[0] == sep then [""] + rest
      else [[s[0]] + rest[0]] + rest[1..]
  }

  /** `sep.join(parts)`. */
  function Join(parts: seq<string>, sep: string): string
  {
    if parts == [] then ""
    else if |parts| == 1 then parts[0]
    else parts[0] + sep + Join(parts[1..], sep)
  }

  /** Splitting undoes joining with the same separator, and conversely. */
  lemma {:induction false} JoinSplit(s: string, sep: char)
    ensures Join(Split(s, sep), [sep]) == s
  {
    if s != [] {
      JoinSplit(s[1..], sep);
      var rest := Split(s[1..], sep);
      if s[0] != sep {
        if |rest| > 1 {
          assert ([[s[0]] + rest[0]] + rest[1..])[1..] == rest[1..];
        }
      }
    }
  }

  /** A string without the separator is a single part. */
  lemma {:induction false} SplitWithoutSeparator(s: string, sep: char)
    requires sep !in s
    ensures Split(s, sep) == [s]
  {
    if s != [] {
      SplitWithoutSeparator(s[1..], sep);
      var rest := Split(s[1..], sep);
      assert [s[0]] + rest[0] == s;
      assert rest[1..] == [];
    }
  }

  /** A separator-free segment followed by the separator becomes the first part. */
  lemma {:induction false} SplitFirstSegment(a: string, sep: char, b: string)
    requires sep !in a
    ensures Split(a + [sep] + b, sep) == [a] + Split(b, sep)
  {
    if a != [] {
      assert (a + [sep] + b)[1..] == a[1..] + [sep] + b;
      SplitFirstSegment(a[1..], sep, b);
      assert [a[0]] + a[1..] == a;
    } else {
      assert (a + [sep] + b)[1..] == b;
    }
  }

  /** Index of the first line break in `s`, or `|s|`. */
  function LineEnd(s: string): (k: nat)
    ensures k <= |s|
    ensures NoLineBreak(s[..k])
    ensures k < |s| ==> IsLineBreak(s[k])
  {
    if s == [] || IsLineBreak(s[0]) then 0
    else
      var k := 1 + LineEnd(s[1..]);
      assert s[..k] == [s[0]] + s[1..][..k - 1];
      k
  }

  /** `s.splitlines()`: "\r\n" ends one line, and a final line break opens no empty line. */
  function SplitLines(s: string): (lines: seq<string>)
    ensures forall i :: 0 <= i < |lines| ==> NoLineBreak(lines[i])
    decreases |s|
  {
    if s == [] then []
    else
      var k := LineEnd(s);
      if k == |s| then [s]
      else
        var width := if s[k] == '\r' && k + 1 < |s| && s[k + 1] == '\n' then 2 else 1;
        [s[..k]] + SplitLines(s[k + width..])
  }

  lemma SplitLinesOneLine(a: string)
    requires NoLineBreak(a) && a != []
    ensures SplitLines(a) == [a]
  {
    assert a[..|a|] == a;
  }

  lemma SplitLinesFirstLine(a: string, b: string)
    requires NoLineBreak(a)
    ensures SplitLines(a + "\n" + b) == [a] + SplitLines(b)
  {
    var s := a + "\n" + b;
    var k := LineEnd(s);
    assert IsLineBreak(s[|a|]);
    assert k == |a|;
    assert s[..|a|] == a;
    assert s[|a| + 1..] == b;
  }

  /** Joining break-free lines with "\n" and splitting them again gives the lines back. */
  lemma {:induction false} SplitLinesJoin(lines: seq<string>)
    requires forall i :: 0 <= i < |lines| ==> NoLineBreak(lines[i])
    requires lines != [] ==> lines[|lines| - 1] != []
    ensures SplitLines(Join(lines, "\n")) == lines
  {
    if |lines| == 1 {
      SplitLinesOneLine(lines[0]);
    } else if |lines| > 1 {
      SplitLinesFirstLine(lines[0], Join(lines[1..], "\n"));
      SplitLinesJoin(lines[1..]);
    }
  }

  /** No line of `lines` breaks: they survive `splitlines()` as they are. */
  predicate PlainLines(lines: seq<string>) {
    lines == [] || (NoLineBreak(lines[0]) && PlainLines(lines[1..]))
  }

  lemma {:induction false} PlainLinesEach(lines: seq<string>)
    requires PlainLines(lines)
    ensures forall i :: 0 <= i < |lines| ==> NoLineBreak(lines[i])
  {
    if lines != [] {
      PlainLinesEach(lines[1..]);
      assert forall i :: 1 <= i < |lines| ==> lines[i] == lines[1..][i - 1];
    }
  }

  lemma {:induction false} EachPlainLines(lines: seq<string>)
    requires forall i :: 0 <= i < |lines| ==> NoLineBreak(lines[i])
    ensures PlainLines(lines)
  {
    if lines != [] {
      assert forall i :: 0 <= i < |lines[1..]| ==> lines[1..][i] == lines[i + 1];
      EachPlainLines(lines[1..]);
    }
  }

  lemma NoLineBreakAppend(a: string, b: string)
    requires NoLineBreak(a) && NoLineBreak(b)
    ensures NoLineBreak(a + b)
  {
    forall i | 0 <= i < |a + b|
      ensures !IsLineBreak((a + b)[i])
    {
      if i >= |a| {
        assert (a + b)[i] == b[i - |a|];
      }
    }
  }

  /** `s` without one closing "\n", if it has one. */
  function Chomp(s: string): string {
    if s != [] && s[|s| - 1] == '\n' then s[..|s| - 1] else s
  }

  lemma ChompLine(s: string)
    requires s != [] && s == s[..|s| - 1] + "\n"
    ensures s == Chomp(s) + "\n"
  {
    assert s[|s| - 1] == '\n';
  }

  /** Each line followed by "\n": the text `str.splitlines()` reads back as those lines. */
  function Terminated(lines: seq<string>): string {
    if lines == [] then "" else lines[0] + "\n" + Terminated(lines[1..])
  }

  /** Lines without "\n" give one "\n" each. */
  lemma {:induction false} CountTerminated(lines: seq<string>)
    requires forall i :: 0 <= i < |lines| ==> '\n' !in lines[i]
    ensures Count(Terminated(lines), '\n') == |lines|
  {
    if lines != [] {
      CountTerminated(lines[1..]);
      CountAppend(lines[0] + "\n", Terminated(lines[1..]), '\n');
      CountAppend(lines[0], "\n", '\n');
    }
  }

  /** A character in none of the lines, and not "\n" itself, is not in their terminated text. */
  lemma {:induction false} TerminatedAvoids(lines: seq<string>, c: char)
    requires c != '\n' && forall i :: 0 <= i < |lines| ==> c !in lines[i]
    ensures c !in Terminated(lines)
  {
    if lines != [] {
      TerminatedAvoids(lines[1..], c);
    }
  }

  /** A character in none of the parts and not in the separator is not in the joined text. */
  lemma {:induction false} JoinAvoids(parts: seq<string>, sep: string, c: char)
    requires c !in sep && forall i :: 0 <= i < |parts| ==> c !in parts[i]
    ensures c !in Join(parts, sep)
  {
    if |parts| > 1 {
      JoinAvoids(parts[1..], sep, c);
    }
  }

  /** Terminated break-free lines come back first, ahead of the lines of what follows them. */
  lemma {:induction false} SplitLinesAfterTerminated(lines: seq<string>, rest: string)
    requires forall i :: 0 <= i < |lines| ==> NoLineBreak(lines[i])
    ensures SplitLines(Terminated(lines) + rest) == lines + SplitLines(rest)
  {
    if lines == [] {
      assert Terminated(lines) + rest == rest;
    } else {
      var tail := Terminated(lines[1..]);
      calc {
        SplitLines(Terminated(lines) + rest);
        { assert Terminated(lines) + rest == lines[0] + "\n" + (tail + rest); }
        SplitLines(lines[0] + "\n" + (tail + rest));
        { SplitLinesFirstLine(lines[0], tail + rest); }
        [lines[0]] + SplitLines(tail + rest);
        { SplitLinesAfterTerminated(lines[1..], rest); }
        [lines[0]] + (lines[1..] + SplitLines(rest));
        { assert [lines[0]] + lines[1..] == lines; }
        lines + SplitLines(rest);
      }
    }
  }

  /** `s.lstrip()`. */
  function TrimStart(s: string): (r: string)
    ensures |r| <= |s| && r == s[|s| - |r|..]
    ensures forall k :: 0 <= k < |s| - |r| ==> IsSpace(s[k])
    ensures r != [] ==> !IsSpace(r[0])
  {
    if s != [] && IsSpace(s[0]) then TrimStart(s[1..]) else s
  }

  predicate AllSpace(s: string) {
    forall i :: 0 <= i < |s| ==> IsSpace(s[i])
  }

  lemma TrimStartAllSpace(s: string)
    requires AllSpace(s)
    ensures TrimStart(s) == []
  {
  }

  /** `s.rstrip()`. */
  function TrimEnd(s: string): (r: string)
    ensures |r| <= |s| && r == s[..|r|]
    ensures forall k :: |r| <= k < |s| ==> IsSpace(s[k])
    ensures r != [] ==> !IsSpace(r[|r| - 1])
  {
    if s != [] && IsSpace(s[|s| - 1]) then TrimEnd(s[..|s| - 1]) else s
  }

  /** `r` is `s` with whitespace `s[..i]` and `s[i + |r|..]` cut off. */
  predicate TrimmedAt(s: string, r: string, i: nat) {
    && i + |r| <= |s| && s[i..i + |r|] == r
    && (forall k :: 0 <= k < i ==> IsSpace(s[k]))
    && (forall k :: i + |r| <= k < |s| ==> IsSpace(s[k]))
  }

  /** `s.strip()`: the slice of `s` left after whitespace is removed from both ends. */
  function Strip(s: string): (r: string)
    ensures TrimmedAt(s, r, |s| - |TrimStart(s)|)
    ensures r != [] ==> !IsSpace(r[0]) && !IsSpace(r[|r| - 1])
  {
    TrimBothEnds(s);
    TrimEnd(TrimStart(s))
  }

  lemma TrimBothEnds(s: string)
    ensures TrimmedAt(s, TrimEnd(TrimStart(s)), |s| - |TrimStart(s)|)
    ensures TrimEnd(TrimStart(s)) != [] ==> TrimEnd(TrimStart(s))[0] == TrimStart(s)[0]
  {
    TrimmedWithin(s, TrimStart(s), TrimEnd(TrimStart(s)));
  }

  /** A suffix `t` of `s` with only spaces before it, and a prefix `r` of `t` with only spaces after it. */
  lemma TrimmedWithin(s: string, t: string, r: string)
    requires |t| <= |s| && t == s[|s| - |t|..]
    requires forall k :: 0 <= k < |s| - |t| ==> IsSpace(s[k])
    requires |r| <= |t| && r == t[..|r|]
    requires forall k :: |r| <= k < |t| ==> IsSpace(t[k])
    ensures TrimmedAt(s, r, |s| - |t|)
  {
    var i := |s| - |t|;
    assert s[i..i + |r|] == r by {
      assert s[i..][..|r|] == s[i..i + |r|];
    }
    forall k | i + |r| <= k < |s|
      ensures IsSpace(s[k])
    {
      assert s[k] == t[k - i];
    }
  }

  function DigitChar(d: nat): (c: char)
    requires d < 10
    ensures '0' <= c <= '9'
  {
    ('0' as int + d) as char
  }

  predicate AllDigits(s: string) {
    forall i :: 0 <= i < |s| ==> '0' <= s[i] <= '9'
  }

  /** `str(n)` for a non-negative integer: decimal digits, no leading zero. */
  function NatToString(n: nat): (s: string)
    ensures s != [] && AllDigits(s)
    ensures s[0] == '0' <==> n == 0
    decreases n
  {
    if n < 10 then [DigitChar(n)] else NatToString(n / 10) + [DigitChar(n % 10)]
  }

  /** `int(s)` for a string of decimal digits. */
  function DecimalValue(s: string): nat
    requires AllDigits(s)
  {
    if s == [] then 0 else 10 * DecimalValue(s[..|s| - 1]) + (s[|s| - 1] as int - '0' as int)
  }

  lemma {:induction false} DecimalRoundTrip(n: nat)
    ensures DecimalValue(NatToString(n)) == n
  {
    if n >= 10 {
      var s := NatToString(n);
      assert s[..|s| - 1] == NatToString(n / 10);
      DecimalRoundTrip(n / 10);
    }
  }
}
