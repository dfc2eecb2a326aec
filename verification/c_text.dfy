/** The character classes and the `strtol` conversion that the
    multiple-response parser uses, with the decimal rendering that
    inverts the conversion. Characters are compared as the C code compares
    them: by code point, in the "C" locale. */
module CText {

  /** A character the grammar allows in a set or variable name:
      `[A-Za-z0-9_]`. */
  predicate IsNameChar(c: char) {
    c == '_' || ('0' <= c <= '9') || ('A' <= c <= 'Z') || ('a' <= c <= 'z')
  }

  predicate IsDigit(c: char) {
    '0' <= c <= '9'
  }

  /** `isspace` in the "C" locale: space, tab, newline, vertical tab,
      form feed and carriage return. */
  predicate IsCSpace(c: char) {
    c == ' ' || ('\t' <= c <= '\r')
  }

  /** The blank the grammar allows before the first subvariable. */
  predicate IsBlank(c: char) {
    c == ' '
  }

  /** A character that stands for one byte: the C code works on `char`,
      so every length and count in the text counts bytes. */
  predicate IsByte(c: char) {
    c as int < 256
  }

  /** A C string: bytes with no NUL inside, because `strlen` ends the text
      at the first one. */
  predicate IsCString(s: string) {
    forall k | 0 <= k < |s| :: s[k] != '\0' && IsByte(s[k])
  }

  /** Every character of `s` satisfies `P`. */
  predicate AllChars(s: string, P: char -> bool) {
    forall k | 0 <= k < |s| :: P(s[k])
  }

  lemma AllCharsConcat(a: string, b: string, P: char -> bool)
    requires AllChars(a, P) && AllChars(b, P)
    ensures AllChars(a + b, P)
  {
    assert forall k | |a| <= k < |a + b| :: (a + b)[k] == b[k - |a|];
  }

  lemma CStringConcat(a: string, b: string)
    requires IsCString(a) && IsCString(b)
    ensures IsCString(a + b)
  {
    assert forall k | |a| <= k < |a + b| :: (a + b)[k] == b[k - |a|];
  }

  lemma CStringSlice(s: string, i: nat, j: nat)
    requires IsCString(s) && i <= j <= |s|
    ensures IsCString(s[i..j])
  {
    assert forall k | 0 <= k < j - i :: s[i..j][k] == s[i + k];
  }

  /** A non-empty run of name characters. */
  predicate IsName(s: string) {
    |s| > 0 && forall k | 0 <= k < |s| :: IsNameChar(s[k])
  }

  predicate AllDigits(s: string) {
    forall k | 0 <= k < |s| :: IsDigit(s[k])
  }

  /** The end of the longest run of characters satisfying `P` that starts
      at position `i`. */
  function SpanEnd(s: string, i: nat, P: char -> bool): (e: nat)
    requires i <= |s|
    ensures i <= e <= |s|
    ensures e == |s| || !P(s[e])
    decreases |s| - i
  {
    if i == |s| || !P(s[i]) then i else SpanEnd(s, i + 1, P)
  }

  /** Every character of the run satisfies `P`. */
  lemma {:induction false} SpanEndCovers(s: string, i: nat, P: char -> bool)
    requires i <= |s|
    ensures forall k | i <= k < SpanEnd(s, i, P) :: P(s[k])
    decreases |s| - i
  {
    if i < |s| && P(s[i]) {
      SpanEndCovers(s, i + 1, P);
    }
  }

  /** A run is determined by where it starts. */
  lemma {:induction false} SpanEndAt(s: string, i: nat, P: char -> bool, j: nat)
    requires i <= j <= |s|
    requires forall k | i <= k < j :: P(s[k])
    requires j == |s| || !P(s[j])
    ensures SpanEnd(s, i, P) == j
    decreases j - i
  {
    if i < j {
      SpanEndAt(s, i + 1, P, j);
    }
  }

  // ---------------------------------------------------------------------
  // Text at a position

  /** The characters of `w` from index `j` on appear in `s` from position
      `i` on. */
  predicate OccursFrom(s: string, i: nat, w: string, j: nat)
    decreases |w| - j
  {
    if j >= |w| then i <= |s| else i < |s| && s[i] == w[j] && OccursFrom(s, i + 1, w, j + 1)
  }

  /** `w` appears in `s` at position `i`. */
  predicate Occurs(s: string, i: nat, w: string) {
    OccursFrom(s, i, w, 0)
  }

  lemma {:induction false} OccursFromIndex(s: string, i: nat, w: string, j: nat)
    requires j <= |w| && OccursFrom(s, i, w, j)
    ensures i + |w| - j <= |s|
    ensures forall k | j <= k < |w| :: s[i + k - j] == w[k]
    decreases |w| - j
  {
    if j < |w| {
      OccursFromIndex(s, i + 1, w, j + 1);
    }
  }

  lemma {:induction false} OccursFromOfIndex(s: string, i: nat, w: string, j: nat)
    requires j <= |w| && i + |w| - j <= |s|
    requires forall k | j <= k < |w| :: s[i + k - j] == w[k]
    ensures OccursFrom(s, i, w, j)
    decreases |w| - j
  {
    if j < |w| {
      OccursFromOfIndex(s, i + 1, w, j + 1);
    }
  }

  /** Occurrence, character by character. */
  lemma OccursIndex(s: string, i: nat, w: string)
    ensures Occurs(s, i, w) <==> i + |w| <= |s| && forall k | 0 <= k < |w| :: s[i + k] == w[k]
  {
    if Occurs(s, i, w) {
      OccursFromIndex(s, i, w, 0);
    }
    if i + |w| <= |s| && forall k | 0 <= k < |w| :: s[i + k] == w[k] {
      OccursFromOfIndex(s, i, w, 0);
    }
  }

  /** `a + b` appears at `i` exactly when `a` does and `b` follows it. */
  lemma OccursConcat(s: string, i: nat, a: string, b: string)
    ensures Occurs(s, i, a + b) <==> Occurs(s, i, a) && Occurs(s, i + |a|, b)
  {
    OccursIndex(s, i, a + b);
    OccursIndex(s, i, a);
    OccursIndex(s, i + |a|, b);
    if Occurs(s, i, a) && Occurs(s, i + |a|, b) {
      forall k | 0 <= k < |a + b|
        ensures s[i + k] == (a + b)[k]
      {
        if k >= |a| {
          assert s[i + |a| + (k - |a|)] == b[k - |a|];
        }
      }
    }
    if Occurs(s, i, a + b) {
      forall k | 0 <= k < |a|
        ensures s[i + k] == a[k]
      {
        assert (a + b)[k] == a[k];
      }
      forall k | 0 <= k < |b|
        ensures s[i + |a| + k] == b[k]
      {
        assert s[i + (|a| + k)] == (a + b)[|a| + k];
      }
    }
  }

  /** A one-character text appears where that character is. */
  lemma OccursChar(s: string, i: nat, c: char)
    ensures Occurs(s, i, [c]) <==> i < |s| && s[i] == c
  {
    OccursIndex(s, i, [c]);
  }

  /** A non-empty occurrence starts with the first character. */
  lemma OccursHead(s: string, i: nat, w: string)
    requires Occurs(s, i, w) && |w| > 0
    ensures i < |s| && s[i] == w[0]
  {
  }

  /** An occurrence is a slice. */
  lemma OccursSlice(s: string, i: nat, w: string)
    requires Occurs(s, i, w)
    ensures i + |w| <= |s| && s[i..i + |w|] == w
  {
    OccursIndex(s, i, w);
  }

  /** The whole text appears at its start. */
  lemma OccursWhole(s: string)
    ensures Occurs(s, 0, s)
  {
    OccursIndex(s, 0, s);
  }

  /** The run from `i` is the text `w` when `w` appears there, consists of
      such characters, and is not followed by one. */
  lemma SpanEndOver(s: string, i: nat, w: string, P: char -> bool)
    requires Occurs(s, i, w)
    requires forall k | 0 <= k < |w| :: P(w[k])
    requires i + |w| == |s| || (i + |w| < |s| && !P(s[i + |w|]))
    ensures SpanEnd(s, i, P) == i + |w|
  {
    OccursIndex(s, i, w);
    assert forall k | i <= k < i + |w| :: s[k] == w[k - i] by {
      forall k | i <= k < i + |w| ensures s[k] == w[k - i] {
        assert s[i + (k - i)] == w[k - i];
      }
    }
    SpanEndAt(s, i, P, i + |w|);
  }

  function DigitValue(c: char): (d: nat)
    requires IsDigit(c)
    ensures d < 10
  {
    (c as int - '0' as int) as nat
  }

  function DigitChar(d: nat): (c: char)
    requires d < 10
    ensures IsDigit(c) && DigitValue(c) == d
  {
    ('0' as int + d) as char
  }

  /** The value of a string of decimal digits; the empty string is 0, as
      `strtol` returns 0 when it finds no digit. */
  function Dec(ds: string): nat
    requires AllDigits(ds)
  {
    if ds == [] then 0 else 10 * Dec(ds[..|ds| - 1]) + DigitValue(ds[|ds| - 1])
  }

  /** The decimal text of `n`, without sign or leading zeros. */
  function DecString(n: nat): (ds: string)
    ensures |ds| > 0 && AllDigits(ds)
  {
    if n < 10 then [DigitChar(n)] else DecString(n / 10) + [DigitChar(n % 10)]
  }

  lemma {:induction false} DecOfDecString(n: nat)
    ensures Dec(DecString(n)) == n
  {
    var ds := DecString(n);
    if n >= 10 {
      DecOfDecString(n / 10);
      assert ds[..|ds| - 1] == DecString(n / 10);
    }
  }

  /** `acc` followed by the digits of `s` from position `i` on, up to the
      first character that is not a digit or up to `end`. */
  function DigitsValue(acc: nat, s: string, i: nat, end: nat): nat
    requires i <= end <= |s|
    decreases end - i
  {
    if i < end && IsDigit(s[i]) then DigitsValue(10 * acc + DigitValue(s[i]), s, i + 1, end) else acc
  }

  /** `strtol` applied to a copy of `s[i..end]`, base 10: leading white
      space is skipped, one sign is read, then the longest run of digits;
      0 when there is no digit. */
  function StrToL(s: string, i: nat, end: nat): int
    requires i <= end <= |s|
    decreases end - i
  {
    if i < end && IsCSpace(s[i]) then StrToL(s, i + 1, end)
    else if i < end && s[i] == '-' then -(DigitsValue(0, s, i + 1, end) as int)
    else if i < end && s[i] == '+' then DigitsValue(0, s, i + 1, end)
    else DigitsValue(0, s, i, end)
  }

  /** Reading a run of digits `s[i..j]` accumulates its decimal value. */
  lemma {:induction false} DigitsValueOfRun(s: string, i: nat, j: nat, end: nat)
    requires i <= j <= end <= |s|
    requires forall k | i <= k < j :: IsDigit(s[k])
    ensures DigitsValue(0, s, i, end) == DigitsValue(Dec(s[i..j]), s, j, end)
  {
    if i < j {
      DigitsValueOfRun(s, i, j - 1, end);
      assert s[i..j][..j - i - 1] == s[i..j - 1];
    }
  }

  /** A non-empty run of digits `ds` at position `i`, ending at `end` or
      before a character that is not a digit, converts to its decimal
      value, and so does the same run with one blank in front. */
  lemma StrToLOfDigits(s: string, i: nat, ds: string, end: nat)
    requires |ds| > 0 && AllDigits(ds) && Occurs(s, i, ds)
    requires i + |ds| <= end <= |s|
    requires i + |ds| == end || !IsDigit(s[i + |ds|])
    ensures StrToL(s, i, end) == Dec(ds)
    ensures 0 < i && s[i - 1] == ' ' ==> StrToL(s, i - 1, end) == Dec(ds)
  {
    OccursSlice(s, i, ds);
    assert forall k | i <= k < i + |ds| :: s[k] == s[i..i + |ds|][k - i];
    DigitsValueOfRun(s, i, i + |ds|, end);
  }
}
