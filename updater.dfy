/**
 * Spreadsheet column letters (updater.py): the bijective base-26 numbering
 * A..Z, AA..AZ, ... in both directions.
 */
module Updater {
  import opened Wrappers
  import opened Text

  const InvalidColumn := "Invalid column string. It must contain only alphabetic characters."
  const NotPositive := "n must be a positive integer."

  predicate IsAsciiLetter(c: char) {
    'A' <= c <= 'Z' || 'a' <= c <= 'z'
  }

  /** `str.isalpha()` over ASCII: non-empty and letters only. */
  predicate IsAlpha(s: string) {
    |s| > 0 && forall i :: 0 <= i < |s| ==> IsAsciiLetter(s[i])
  }

  /** Upper-case column letters only (possibly none). */
  predicate IsColumnText(s: string) {
    forall i :: 0 <= i < |s| ==> 'A' <= s[i] <= 'Z'
  }

  function ToUpper(c: char): (u: char)
    ensures IsAsciiLetter(c) ==> 'A' <= u <= 'Z'
    ensures 'A' <= u <= 'Z' ==> IsAsciiLetter(c)
  {
    if 'a' <= c <= 'z' then (c as int - 32) as char else c
  }

  /** `str.upper()` over ASCII. */
  function Upper(s: string): (r: string)
    ensures |r| == |s|
    ensures forall i :: 0 <= i < |s| ==> r[i] == ToUpper(s[i])
  {
    seq(|s|, i requires 0 <= i < |s| => ToUpper(s[i]))
  }

  lemma UpperKeepsAlpha(s: string)
    ensures IsAlpha(Upper(s)) <==> IsAlpha(s)
    ensures IsAlpha(s) ==> IsColumnText(Upper(s))
  {
  }

  /** The digit a letter stands for: A is 1, Z is 26. */
  function LetterValue(c: char): (d: nat)
    requires 'A' <= c <= 'Z'
    ensures 1 <= d <= 26
  {
    c as int - 'A' as int + 1
  }

  /** The letter for the remainder `r`: 0 is A, 25 is Z. */
  function Letter(r: nat): (c: char)
    requires r < 26
    ensures 'A' <= c <= 'Z' && LetterValue(c) == r + 1
  {
    ('A' as int + r) as char
  }

  /** The column number that upper-case letters denote, read left to right. */
  function ColumnValue(s: string): nat
    requires IsColumnText(s)
  {
    if s == [] then 0 else ColumnValue(s[..|s| - 1]) * 26 + LetterValue(s[|s| - 1])
  }

  /** The letters of column `n` (the empty text for 0). */
  function ColumnLetters(n: nat): (r: string)
    ensures IsColumnText(r)
    ensures r == [] <==> n == 0
    decreases n
  {
    if n == 0 then "" else ColumnLetters((n - 1) / 26) + [Letter((n - 1) % 26)]
  }

  /** `col_to_num`: strips and upper-cases its argument, rejects anything but letters, then accumulates left to right. */
  method ColToNum(colStr: string) returns (r: Result<nat>)
    ensures r.Ok? <==> IsAlpha(Strip(colStr))
    ensures r.Ok? ==> IsColumnText(Upper(Strip(colStr))) && r.value == ColumnValue(Upper(Strip(colStr)))
    ensures r.Ok? ==> r.value >= 1
    ensures r.Err? ==> r.error == InvalidColumn
  {
    var s := Upper(Strip(colStr));
    UpperKeepsAlpha(Strip(colStr));
    if !IsAlpha(s) {
      return Err(InvalidColumn);
    }
    var num := Accumulate(s);
    return Ok(num);
  }

  /** The loop of `col_to_num`: `num = num * 26 + digit` for each letter, left to right. */
  method Accumulate(s: string) returns (num: nat)
    requires IsAlpha(s) && IsColumnText(s)
    ensures num == ColumnValue(s) && num >= 1
  {
    num := 0;
    for i := 0 to |s|
      invariant num == ColumnValue(s[..i])
    {
      assert s[..i + 1][..i] == s[..i];
      num := num * 26 + LetterValue(s[i]);
    }
    assert s[..|s|] == s;
  }

  /** `num_to_col`: rejects n < 1, then peels off base-26 digits from the right with divmod(n - 1, 26). */
  method NumToCol(n: int) returns (r: Result<string>)
    ensures r.Ok? <==> n >= 1
    ensures r.Ok? ==> r.value == ColumnLetters(n)
    ensures r.Ok? ==> |r.value| > 0 && IsColumnText(r.value)
    ensures r.Err? ==> r.error == NotPositive
  {
    if n < 1 {
      return Err(NotPositive);
    }
    var m := n;
    var result := "";
    while m > 0
      invariant 0 <= m <= n
      invariant ColumnLetters(m) + result == ColumnLetters(n)
      decreases m
    {
      var q, rem := (m - 1) / 26, (m - 1) % 26;
      m := q;
      result := [Letter(rem)] + result;
    }
    return Ok(result);
  }

  /** Column letters then back to a number gives the number: `col_to_num(num_to_col(n)) == n`. */
  lemma {:induction false} NumberRoundTrip(n: nat)
    ensures ColumnValue(ColumnLetters(n)) == n
    decreases n
  {
    if n > 0 {
      var p := ColumnLetters((n - 1) / 26);
      var s := ColumnLetters(n);
      NumberRoundTrip((n - 1) / 26);
      assert s[..|s| - 1] == p;
    }
  }

  /** Letters to a number and back gives the letters: `num_to_col(col_to_num(s)) == s` for upper-case s. */
  lemma {:induction false} LettersRoundTrip(s: string)
    requires IsColumnText(s)
    ensures ColumnLetters(ColumnValue(s)) == s
    decreases |s|
  {
    if s != [] {
      var p, c := s[..|s| - 1], s[|s| - 1];
      assert IsColumnText(p);
      LettersRoundTrip(p);
      assert ColumnValue(s) == ColumnValue(p) * 26 + LetterValue(c);
      LastLetter(ColumnValue(p), c);
      assert ColumnLetters(ColumnValue(s)) == p + [c];
      assert s == p + [c];
    }
  }

  /** Appending a letter to the letters of `q` appends that letter's digit. */
  lemma LastLetter(q: nat, c: char)
    requires 'A' <= c <= 'Z'
    ensures ColumnLetters(q * 26 + LetterValue(c)) == ColumnLetters(q) + [c]
  {
    var d := LetterValue(c) - 1;
    DivMod26(q, d);
    assert Letter(d) == c;
  }

  lemma DivMod26(q: nat, d: nat)
    requires d < 26
    ensures (q * 26 + d) / 26 == q && (q * 26 + d) % 26 == d
  {
  }

  /** The codec is case-insensitive and ignores surrounding whitespace; round trip through it upper-cases. */
  lemma PaddingAndCaseIgnored(a: string, s: string, b: string)
    requires AllSpace(a) && AllSpace(b) && IsAlpha(s)
    ensures IsAlpha(Strip(a + s + b)) && Upper(Strip(a + s + b)) == Upper(s)
    ensures ColumnLetters(ColumnValue(Upper(s))) == Upper(s)
  {
    assert Unpadded(s);
    StripPadded(a, s, b);
    UpperKeepsAlpha(s);
    LettersRoundTrip(Upper(s));
  }

  lemma UnpaddedLetters(s: string)
    requires IsAlpha(s)
    ensures Strip(s) == s
  {
    StripPadded("", s, "");
    assert "" + s + "" == s;
  }

  /** The first worked example of `col_to_num`: AAA is 703. */
  lemma ColToNumExampleAAA()
    ensures IsAlpha(Strip("AAA")) && Upper(Strip("AAA")) == "AAA" && ColumnValue("AAA") == 703
  {
    UnpaddedLetters("AAA");
    ColumnValueSteps();
  }

  /** The second worked example of `col_to_num`, lower case: acdd is 19712. */
  lemma ColToNumExampleAcdd()
    ensures IsAlpha(Strip("acdd")) && Upper(Strip("acdd")) == "ACDD" && ColumnValue("ACDD") == 19712
  {
    UnpaddedLetters("acdd");
    ColumnValueSteps();
  }

  lemma ColumnValueSteps()
    ensures ColumnValue("AAA") == 703 && ColumnValue("ACDD") == 19712
  {
    assert "A"[..0] == "" && "AA"[..1] == "A" && "AAA"[..2] == "AA";
    assert ColumnValue("AA") == 27;
    assert "AC"[..1] == "A" && "ACD"[..2] == "AC" && "ACDD"[..3] == "ACD";
    assert ColumnValue("AC") == 29;
    assert ColumnValue("ACD") == 758;
  }

  /** The worked examples of `num_to_col`: 1 is A, 26 is Z, 27 is AA (and 703 is AAA). */
  lemma NumToColExamples()
    ensures ColumnLetters(1) == "A" && ColumnLetters(26) == "Z" && ColumnLetters(27) == "AA"
    ensures ColumnLetters(703) == "AAA"
  {
  }
}
