/**
 * The Python string built-ins the scheduling core relies on: `str.isspace`,
 * `str.strip`, `str.startswith`, the `in` substring test, `str.split` with an
 * explicit separator and `str(int)`.
 */
module Text {
  import opened Wrappers

  /** Python's `str.isspace()` for one character. */
  predicate IsSpace(c: char) {
    ('\t' <= c <= '\r') || ('\U{1c}' <= c <= ' ') || c == '\U{85}' || c == '\U{a0}' || c == '\U{1680}'
    || ('\U{2000}' <= c <= '\U{200a}') || c == '\U{2028}' || c == '\U{2029}' || c == '\U{202f}'
    || c == '\U{205f}' || c == '\U{3000}'
  }

  predicate AllSpace(s: string) {
    forall i :: 0 <= i < |s| ==> IsSpace(s[i])
  }

  predicate IsDigit(c: char) {
    '0' <= c <= '9'
  }

  predicate AllDigits(s: string) {
    forall i :: 0 <= i < |s| ==> IsDigit(s[i])
  }

  /** `s.lstrip()`: drops the leading whitespace and nothing else. */
  function TrimLeft(s: string): (r: string)
    ensures |r| <= |s| && r == s[|s| - |r|..]
    ensures AllSpace(s[..|s| - |r|])
    ensures r == [] || !IsSpace(r[0])
    decreases |s|
  {
    if s != [] && IsSpace(s[0]) then TrimLeft(s[1..]) else s
  }

  /** `s.rstrip()`: drops the trailing whitespace and nothing else. */
  function TrimRight(s: string): (r: string)
    ensures |r| <= |s| && r == s[..|r|]
    ensures AllSpace(s[|r|..])
    ensures r == [] || !IsSpace(r[|r| - 1])
    decreases |s|
  {
    if s != [] && IsSpace(s[|s| - 1]) then
      var r := TrimRight(s[..|s| - 1]);
      assert s[|r|..] == s[..|s| - 1][|r|..] + [s[|s| - 1]];
      r
    else s
  }

  /** `s.strip()`. */
  function Strip(s: string): (r: string)
    ensures |r| <= |s|
    ensures r == [] || (!IsSpace(r[0]) && !IsSpace(r[|r| - 1]))
    ensures r == [] <==> AllSpace(s)
  {
    var t := TrimLeft(s);
    var r := TrimRight(t);
    assert r != [] ==> r[0] == t[0];
    assert AllSpace(s) ==> t == [];
    assert r == [] ==> s == s[..|s| - |t|] + t && AllSpace(t);
    r
  }

  /** A string that `strip` leaves alone: no whitespace at either end. */
  predicate Unpadded(s: string) {
    s == [] || (!IsSpace(s[0]) && !IsSpace(s[|s| - 1]))
  }

  lemma {:induction false} TrimLeftPadded(a: string, m: string)
    requires AllSpace(a) && (m == [] || !IsSpace(m[0]))
    ensures TrimLeft(a + m) == m
    decreases |a|
  {
    if a != [] {
      assert (a + m)[1..] == a[1..] + m;
      TrimLeftPadded(a[1..], m);
    } else {
      assert a + m == m;
    }
  }

  lemma {:induction false} TrimRightPadded(m: string, b: string)
    requires AllSpace(b) && (m == [] || !IsSpace(m[|m| - 1]))
    ensures TrimRight(m + b) == m
    decreases |b|
  {
    if b != [] {
      assert (m + b)[..|m + b| - 1] == m + b[..|b| - 1];
      TrimRightPadded(m, b[..|b| - 1]);
    } else {
      assert m + b == m;
    }
  }

  /** `strip` removes exactly the surrounding whitespace: padding an unpadded string and stripping it gives the string back. */
  lemma StripPadded(a: string, m: string, b: string)
    requires AllSpace(a) && AllSpace(b) && Unpadded(m)
    ensures Strip(a + m + b) == m
  {
    if m == [] {
      assert a + m + b == a + b;
      assert AllSpace(a + b);
    } else {
      assert a + m + b == a + (m + b);
      TrimLeftPadded(a, m + b);
      TrimRightPadded(m, b);
    }
  }

  /** Stripping twice is stripping once. */
  lemma StripIdempotent(s: string)
    ensures Strip(Strip(s)) == Strip(s)
  {
    var r := Strip(s);
    assert Unpadded(r);
    StripUnpadded(r);
  }

  /** A string without surrounding whitespace strips to itself. */
  lemma StripUnpadded(m: string)
    requires Unpadded(m)
    ensures Strip(m) == m
  {
    if m != [] {
      assert [] + m == m;
      TrimLeftPadded([], m);
      assert m + [] == m;
      TrimRightPadded(m, []);
    }
  }

  /** `s.startswith(p)`. */
  predicate StartsWith(s: string, p: string) {
    |p| <= |s| && s[..|p|] == p
  }

  /** Python's `sub in s`. */
  predicate Contains(s: string, sub: string)
    decreases |s|
  {
    StartsWith(s, sub) || (s != [] && Contains(s[1..], sub))
  }

  /** `s.find(d)` when it is not -1: the first position where `d` occurs. */
  function FirstIndex(s: string, d: string): (r: Option<nat>)
    ensures r.Some? ==> r.value + |d| <= |s| && s[r.value..r.value + |d|] == d
    ensures r.None? <==> !Contains(s, d)
    decreases |s|
  {
    if StartsWith(s, d) then Some(0)
    else if s == [] then None
    else
      match FirstIndex(s[1..], d)
      case None => None
      case Some(i) => Some(i + 1)
  }

  /** No occurrence of `d` starts before the one `FirstIndex` finds. */
  lemma {:induction false} FirstIndexIsFirst(s: string, d: string, j: nat)
    requires FirstIndex(s, d).Some? && j < FirstIndex(s, d).value
    ensures !StartsWith(s[j..], d)
    decreases |s|
  {
    if j > 0 {
      assert s[j..] == s[1..][j - 1..];
      FirstIndexIsFirst(s[1..], d, j - 1);
    }
  }

  /** `s.split(d)` for a non-empty separator `d`. */
  function SplitOn(s: string, d: string): (parts: seq<string>)
    requires d != []
    ensures |parts| >= 1
    decreases |s|
  {
    match FirstIndex(s, d)
    case None => [s]
    case Some(i) => [s[..i]] + SplitOn(s[i + |d|..], d)
  }

  /** `d.join(parts)`. */
  function Join(parts: seq<string>, d: string): string
    requires |parts| >= 1
  {
    if |parts| == 1 then parts[0] else parts[0] + d + Join(parts[1..], d)
  }

  /** A string is the text before an occurrence of `d`, then `d`, then the text after it. */
  lemma AroundOccurrence(s: string, d: string, i: nat)
    requires i + |d| <= |s| && s[i..i + |d|] == d
    ensures s[..i] + d + s[i + |d|..] == s
  {
    assert s == s[..i] + s[i..i + |d|] + s[i + |d|..];
  }

  /** `d.join` adds the last part after the join of the others. */
  lemma {:induction false} JoinSnoc(parts: seq<string>, d: string)
    requires |parts| >= 2
    ensures Join(parts, d) == Join(parts[..|parts| - 1], d) + d + parts[|parts| - 1]
    decreases |parts|
  {
    var n := |parts|;
    var init := parts[..n - 1];
    assert parts[1..][|parts[1..]| - 1] == parts[n - 1];
    if n == 2 {
      assert parts[1..] == [parts[1]];
    } else {
      JoinSnoc(parts[1..], d);
      assert parts[1..][..n - 2] == init[1..];
      assert Join(init, d) == init[0] + d + Join(init[1..], d);
    }
  }

  /** Splitting and joining with the same separator gives the string back. */
  lemma {:induction false} SplitJoin(s: string, d: string)
    requires d != []
    ensures Join(SplitOn(s, d), d) == s
    decreases |s|
  {
    var f := FirstIndex(s, d);
    if f.Some? {
      var i := f.value;
      var rest := s[i + |d|..];
      var tail := SplitOn(rest, d);
      var parts := SplitOn(s, d);
      assert parts == [s[..i]] + tail;
      SplitJoin(rest, d);
      assert parts[1..] == tail;
      assert Join(parts, d) == s[..i] + d + Join(tail, d);
      AroundOccurrence(s, d, i);
    }
  }

  /** No part of a split holds the separator. */
  lemma {:induction false} SplitPartsAvoidSeparator(s: string, d: string, k: nat)
    requires d != [] && k < |SplitOn(s, d)|
    ensures !Contains(SplitOn(s, d)[k], d)
    decreases |s|
  {
    var f := FirstIndex(s, d);
    if f.Some? {
      var i := f.value;
      var rest := s[i + |d|..];
      var parts := SplitOn(s, d);
      assert parts == [s[..i]] + SplitOn(rest, d);
      if k == 0 {
        forall j | 0 <= j < i ensures !StartsWith(s[j..], d) {
          FirstIndexIsFirst(s, d, j);
        }
        PrefixBeforeFirst(s, d, i);
      } else {
        SplitPartsAvoidSeparator(rest, d, k - 1);
        assert parts[k] == SplitOn(rest, d)[k - 1];
      }
    }
  }

  /** The text before the first occurrence of `d` does not contain `d`. */
  lemma {:induction false} PrefixBeforeFirst(s: string, d: string, i: nat)
    requires d != [] && i <= |s|
    requires forall j :: 0 <= j < i ==> !StartsWith(s[j..], d)
    ensures !Contains(s[..i], d)
    decreases i
  {
    if i > 0 {
      assert !StartsWith(s[..i], d) by {
        assert !StartsWith(s[0..], d);
        assert s[0..] == s;
      }
      assert forall j :: 0 <= j < i - 1 ==> s[1..][j..] == s[j + 1..];
      PrefixBeforeFirst(s[1..], d, i - 1);
      assert s[..i][1..] == s[1..][..i - 1];
    }
  }

  /** A string none of whose characters is the first character of `sub` does not contain `sub`. */
  lemma {:induction false} AbsentHead(s: string, sub: string)
    requires sub != [] && forall i :: 0 <= i < |s| ==> s[i] != sub[0]
    ensures !Contains(s, sub)
    decreases |s|
  {
    if s != [] {
      assert |sub| <= |s| ==> s[..|sub|][0] != sub[0];
      AbsentHead(s[1..], sub);
    }
  }

  /** The first occurrence of a character that `a` lacks, in `a + [c] + b`, is right after `a`. */
  lemma {:induction false} FirstIndexAfter(a: string, c: char, b: string)
    requires forall i :: 0 <= i < |a| ==> a[i] != c
    ensures FirstIndex(a + [c] + b, [c]) == Some(|a|)
    decreases |a|
  {
    if a == [] {
      assert (a + [c] + b)[..1] == [c];
    } else {
      assert (a + [c] + b)[1..] == a[1..] + [c] + b;
      assert (a + [c] + b)[..1] == [a[0]];
      FirstIndexAfter(a[1..], c, b);
    }
  }

  /** Splitting on a character that occurs exactly once gives the two sides. */
  lemma SplitAtOnly(a: string, c: char, b: string)
    requires forall i :: 0 <= i < |a| ==> a[i] != c
    requires forall i :: 0 <= i < |b| ==> b[i] != c
    ensures SplitOn(a + [c] + b, [c]) == [a, b]
  {
    var s := a + [c] + b;
    FirstIndexAfter(a, c, b);
    assert s[..|a|] == a && s[|a| + 1..] == b;
    AbsentHead(b, [c]);
  }

  /** In `a + d + b`, the first `d` starts right after `a` when no character of `a` starts `d`. */
  lemma {:induction false} FirstIndexAfterFree(a: string, d: string, b: string)
    requires d != [] && forall i :: 0 <= i < |a| ==> a[i] != d[0]
    ensures FirstIndex(a + d + b, d) == Some(|a|)
    decreases |a|
  {
    var s := a + d + b;
    if a == [] {
      assert s[..|d|] == d;
    } else {
      assert s[1..] == a[1..] + d + b;
      assert s[0] == a[0];
      FirstIndexAfterFree(a[1..], d, b);
    }
  }

  /** Splitting `a + d + rest` cuts off `a` first, when no character of `a` starts `d`. */
  lemma SplitAfterFree(a: string, d: string, rest: string)
    requires d != [] && forall i :: 0 <= i < |a| ==> a[i] != d[0]
    ensures SplitOn(a + d + rest, d) == [a] + SplitOn(rest, d)
  {
    var s := a + d + rest;
    FirstIndexAfterFree(a, d, rest);
    assert s[..|a|] == a;
    assert s[|a| + |d|..] == rest;
  }

  /** Splitting a join gives the parts back when no part holds the separator's first character. */
  lemma {:induction false} SplitOfJoin(parts: seq<string>, d: string)
    requires d != [] && |parts| >= 1
    requires forall k, i :: 0 <= k < |parts| && 0 <= i < |parts[k]| ==> parts[k][i] != d[0]
    ensures SplitOn(Join(parts, d), d) == parts
    decreases |parts|
  {
    if |parts| == 1 {
      AbsentHead(parts[0], d);
    } else {
      var tail := parts[1..];
      forall k, i | 0 <= k < |tail| && 0 <= i < |tail[k]| ensures tail[k][i] != d[0] {
        assert tail[k] == parts[k + 1];
      }
      SplitOfJoin(tail, d);
      assert Join(parts, d) == parts[0] + d + Join(tail, d);
      SplitAfterFree(parts[0], d, Join(tail, d));
      assert parts == [parts[0]] + tail;
    }
  }

  /** `s.strip()` is a piece of `s`, starting at `k`. */
  lemma StripInfix(s: string) returns (k: nat)
    ensures k + |Strip(s)| <= |s| && Strip(s) == s[k..k + |Strip(s)|]
  {
    var t := TrimLeft(s);
    k := |s| - |t|;
    var r := TrimRight(t);
    assert r == Strip(s);
    PrefixOfSuffix(s, k, r);
  }

  /** A prefix of the suffix of `s` from `k` is the piece of `s` from `k`. */
  lemma PrefixOfSuffix<T>(s: seq<T>, k: nat, r: seq<T>)
    requires k <= |s| && |r| <= |s| - k && r == s[k..][..|r|]
    ensures r == s[k..k + |r|]
  {
    assert forall m :: 0 <= m < |r| ==> r[m] == s[k + m];
  }

  /** What a piece of `s` contains, `s` contains. */
  lemma ContainsSlice(s: string, k: nat, j: nat, d: string)
    requires k <= j <= |s| && Contains(s[k..j], d)
    ensures Contains(s, d)
  {
    var piece := s[k..j];
    var i := FirstIndex(piece, d).value;
    assert piece[i..i + |d|] == d;
    forall m | 0 <= m < |d| ensures s[k + i + m] == d[m] {
      assert s[k + i + m] == piece[i + m] == piece[i..i + |d|][m];
    }
    assert s[k + i..k + i + |d|] == d;
    ContainsAt(s, d, k + i);
  }

  /** Stripping a string that lacks `d` leaves a string that lacks `d`. */
  lemma StripKeepsAbsence(s: string, d: string)
    requires !Contains(s, d)
    ensures !Contains(Strip(s), d)
  {
    var k := StripInfix(s);
    SliceKeepsAbsence(s, k, k + |Strip(s)|, d);
  }

  /** A piece of a string without `d` is without `d`. */
  lemma SliceKeepsAbsence(s: string, k: nat, j: nat, d: string)
    requires k <= j <= |s| && !Contains(s, d)
    ensures !Contains(s[k..j], d)
  {
    if Contains(s[k..j], d) {
      ContainsSlice(s, k, j, d);
    }
  }

  /** Number of occurrences of the character `c` in `s`. */
  function Count(s: string, c: char): nat
  {
    if s == [] then 0 else (if s[0] == c then 1 else 0) + Count(s[1..], c)
  }

  lemma {:induction false} CountAppend(a: string, b: string, c: char)
    ensures Count(a + b, c) == Count(a, c) + Count(b, c)
    decreases |a|
  {
    if a == [] {
      assert a + b == b;
    } else {
      assert (a + b)[1..] == a[1..] + b;
      CountAppend(a[1..], b, c);
    }
  }

  lemma {:induction false} CountAbsent(s: string, c: char)
    requires forall j :: 0 <= j < |s| ==> s[j] != c
    ensures Count(s, c) == 0
    decreases |s|
  {
    if s != [] {
      CountAbsent(s[1..], c);
    }
  }

  /** Splitting on one character yields one more part than there are occurrences of it. */
  lemma {:induction false} SplitCount(s: string, c: char)
    ensures |SplitOn(s, [c])| == Count(s, c) + 1
    decreases |s|
  {
    match FirstIndex(s, [c])
    case None =>
      NoOccurrence(s, c);
      CountAbsent(s, c);
    case Some(i) =>
      SplitCount(s[i + 1..], c);
      FirstOccurrence(s, c, i);
      CountAround(s, c, i);
  }

  /** Without an occurrence of `[c]`, no character of `s` is `c`. */
  lemma NoOccurrence(s: string, c: char)
    ensures !Contains(s, [c]) ==> forall j :: 0 <= j < |s| ==> s[j] != c
  {
    forall j | 0 <= j < |s| && s[j] == c ensures Contains(s, [c]) {
      assert s[j..j + 1] == [c];
      ContainsAt(s, [c], j);
    }
  }

  /** The first occurrence of `[c]` is the first character equal to `c`. */
  lemma FirstOccurrence(s: string, c: char, i: nat)
    requires FirstIndex(s, [c]) == Some(i)
    ensures i < |s| && s[i] == c
    ensures forall j :: 0 <= j < i ==> s[j] != c
  {
    OccurrenceAt(s, [c], i);
    forall j | 0 <= j < i ensures s[j] != c {
      FirstIndexIsFirst(s, [c], j);
      HeadDiffers(s[j..], c);
    }
  }

  /** The occurrence `FirstIndex` reports begins with the first character of `d`. */
  lemma OccurrenceAt(s: string, d: string, i: nat)
    requires d != [] && FirstIndex(s, d) == Some(i)
    ensures i < |s| && s[i] == d[0]
  {
    assert s[i..i + |d|][0] == s[i];
  }

  /** A non-empty string that does not start with `[c]` does not start with `c`. */
  lemma HeadDiffers(t: string, c: char)
    requires t != [] && !StartsWith(t, [c])
    ensures t[0] != c
  {
    assert t[..1] == [t[0]];
  }

  /** The count of `c` is one for its first occurrence plus the count after it. */
  lemma CountAround(s: string, c: char, i: nat)
    requires i < |s| && s[i] == c
    requires forall j :: 0 <= j < i ==> s[j] != c
    ensures Count(s, c) == 1 + Count(s[i + 1..], c)
  {
    var before := s[..i];
    assert forall j :: 0 <= j < |before| ==> before[j] != c;
    CountAbsent(before, c);
    assert s == before + [c] + s[i + 1..];
    CountAppend(before + [c], s[i + 1..], c);
    CountAppend(before, [c], c);
  }

  /** An occurrence at a known position makes `Contains` true. */
  lemma {:induction false} ContainsAt(s: string, d: string, j: nat)
    requires j + |d| <= |s| && s[j..j + |d|] == d
    ensures Contains(s, d)
    decreases j
  {
    if j > 0 {
      assert s[1..][j - 1..j - 1 + |d|] == s[j..j + |d|];
      ContainsAt(s[1..], d, j - 1);
    }
  }

  /** A string that contains `d` keeps containing it when text is added around it. */
  lemma {:induction false} ContainsInfix(a: string, m: string, b: string, d: string)
    requires Contains(m, d)
    ensures Contains(a + m + b, d)
  {
    var i := FirstIndex(m, d).value;
    assert (a + m + b)[|a| + i..|a| + i + |d|] == m[i..i + |d|];
    ContainsAt(a + m + b, d, |a| + i);
  }

  function DigitChar(d: nat): (c: char)
    requires d < 10
    ensures IsDigit(c)
  {
    ('0' as int + d) as char
  }

  function DigitValue(c: char): (d: nat)
    requires IsDigit(c)
    ensures d < 10 && DigitChar(d) == c
  {
    c as int - '0' as int
  }

  /** `str(n)` for a non-negative integer: its decimal digits, no leading zero. */
  function NatToString(n: nat): (r: string)
    ensures |r| >= 1 && AllDigits(r)
    ensures (|r| == 1) == (n < 10)
    decreases n
  {
    if n < 10 then [DigitChar(n)] else NatToString(n / 10) + [DigitChar(n % 10)]
  }

  /** The number a string of decimal digits denotes. */
  function DecimalValue(s: string): nat
    requires AllDigits(s)
  {
    if s == [] then 0 else DecimalValue(s[..|s| - 1]) * 10 + DigitValue(s[|s| - 1])
  }

  /** The value of a one- or two-digit text. */
  lemma DecimalOfShort(s: string)
    requires 1 <= |s| <= 2 && AllDigits(s)
    ensures DecimalValue(s) == if |s| == 1 then DigitValue(s[0]) else 10 * DigitValue(s[0]) + DigitValue(s[1])
  {
    assert s[..1][..0] == s[..0] == [];
    if |s| == 2 {
      assert s[..1] == [s[0]];
    }
  }

  /** Reading back the decimal text of `n` gives `n`. */
  lemma {:induction false} DecimalRoundTrip(n: nat)
    ensures DecimalValue(NatToString(n)) == n
    decreases n
  {
    var r := NatToString(n);
    if n < 10 {
      assert r[..0] == [];
    } else {
      DecimalRoundTrip(n / 10);
      assert r[..|r| - 1] == NatToString(n / 10);
    }
  }

  /** `str(n)` for any integer: a leading '-' for negative numbers. */
  function IntToString(n: int): (r: string)
    ensures |r| >= 1
    ensures r[0] == '-' <==> n < 0
  {
    if n < 0 then "-" + NatToString(-n) else NatToString(n)
  }

  /** Different naturals have different decimal texts. */
  lemma NatToStringInjective(a: nat, b: nat)
    requires NatToString(a) == NatToString(b)
    ensures a == b
  {
    DecimalRoundTrip(a);
    DecimalRoundTrip(b);
  }

  /** Different integers have different decimal texts. */
  lemma IntToStringInjective(a: int, b: int)
    requires IntToString(a) == IntToString(b)
    ensures a == b
  {
    var t := IntToString(a);
    if a < 0 {
      assert b < 0;
      assert t[1..] == NatToString(-a) && t[1..] == NatToString(-b);
      NatToStringInjective(-a, -b);
    } else {
      assert b >= 0;
      NatToStringInjective(a, b);
    }
  }
}
