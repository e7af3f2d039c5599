/** The few pieces of Python's string and integer semantics that the
    record sync application relies on: str.strip, str.lower, str.split,
    the `in` substring test, int() on text, str() of an int and the
    zero-padded `{n:03d}` format. Characters are ASCII-exact except for
    whitespace, which follows str.isspace() in full. */
module Text {
  import opened Wrappers

  /** Python's str.isspace() for a single character. */
  predicate IsSpace(c: char)
  {
    || ('\U{9}' <= c <= '\U{D}')
    || ('\U{1C}' <= c <= '\U{1F}')
    || c == ' ' || c == '\U{85}' || c == '\U{A0}' || c == '\U{1680}'
    || ('\U{2000}' <= c <= '\U{200A}')
    || c == '\U{2028}' || c == '\U{2029}' || c == '\U{202F}' || c == '\U{205F}'
    || c == '\U{3000}'
  }

  /** The first position at or after `i` that holds no whitespace. */
  function SkipSpaces(s: string, i: nat): (k: nat)
    requires i <= |s|
    ensures i <= k <= |s|
    ensures k == |s| || !IsSpace(s[k])
    decreases |s| - i
  {
    if i < |s| && IsSpace(s[i]) then SkipSpaces(s, i + 1) else i
  }

  /** The end of `s[lo..j]` once its trailing whitespace is dropped. */
  function SkipSpacesBack(s: string, lo: nat, j: nat): (k: nat)
    requires lo <= j <= |s|
    ensures lo <= k <= j
    ensures k == lo || !IsSpace(s[k - 1])
    decreases j
  {
    if j > lo && IsSpace(s[j - 1]) then SkipSpacesBack(s, lo, j - 1) else j
  }

  /** str.strip(): drops the whitespace at both ends. */
  function Strip(s: string): (r: string)
    ensures |r| <= |s|
  {
    var start := SkipSpaces(s, 0);
    s[start..SkipSpacesBack(s, start, |s|)]
  }

  /** Neither end of a stripped text is whitespace. */
  lemma StripEnds(s: string)
    ensures Strip(s) == [] || (!IsSpace(Strip(s)[0]) && !IsSpace(Strip(s)[|Strip(s)| - 1]))
  {
  }

  /** What strip drops is whitespace, and what it keeps is the middle of
      the text. */
  lemma {:induction false} StripDropsSpaces(s: string) returns (start: nat, end: nat)
    ensures start <= end <= |s| && Strip(s) == s[start..end]
    ensures forall i :: 0 <= i < start ==> IsSpace(s[i])
    ensures forall i :: end <= i < |s| ==> IsSpace(s[i])
  {
    start := SkipSpaces(s, 0);
    end := SkipSpacesBack(s, start, |s|);
    SkipSpacesSkipped(s, 0);
    SkipSpacesBackSkipped(s, start, |s|);
  }

  lemma {:induction false} SkipSpacesSkipped(s: string, i: nat)
    requires i <= |s|
    ensures forall k :: i <= k < SkipSpaces(s, i) ==> IsSpace(s[k])
    decreases |s| - i
  {
    if i < |s| && IsSpace(s[i]) {
      SkipSpacesSkipped(s, i + 1);
    }
  }

  lemma {:induction false} SkipSpacesBackSkipped(s: string, lo: nat, j: nat)
    requires lo <= j <= |s|
    ensures forall k :: SkipSpacesBack(s, lo, j) <= k < j ==> IsSpace(s[k])
    decreases j
  {
    if j > lo && IsSpace(s[j - 1]) {
      SkipSpacesBackSkipped(s, lo, j - 1);
    }
  }

  /** A string with no whitespace at either end is its own strip. */
  lemma StripUnchanged(s: string)
    requires s == [] || (!IsSpace(s[0]) && !IsSpace(s[|s| - 1]))
    ensures Strip(s) == s
  {
  }

  /** Stripping twice is stripping once. */
  lemma StripIdempotent(s: string)
    ensures Strip(Strip(s)) == Strip(s)
  {
    StripEnds(s);
    StripUnchanged(Strip(s));
  }

  /** The first position at or after `i` that does not hold `c`. */
  function SkipChar(s: string, c: char, i: nat): (k: nat)
    requires i <= |s|
    ensures i <= k <= |s|
    ensures k == |s| || s[k] != c
    ensures forall j :: i <= j < k ==> s[j] == c
    decreases |s| - i
  {
    if i < |s| && s[i] == c then SkipChar(s, c, i + 1) else i
  }

  /** str.lstrip(c): drops every leading occurrence of `c`. */
  function TrimStartChar(s: string, c: char): (r: string)
    ensures |r| <= |s|
    ensures r == [] || r[0] != c
  {
    s[SkipChar(s, c, 0)..]
  }

  /** ASCII lower-casing of one character. */
  function LowerChar(c: char): char
  {
    if 'A' <= c <= 'Z' then (c as int + 32) as char else c
  }

  /** str.lower(), ASCII letters only. */
  function Lower(s: string): (r: string)
    ensures |r| == |s|
    ensures forall i :: 0 <= i < |s| ==> r[i] == LowerChar(s[i])
  {
    seq(|s|, i requires 0 <= i < |s| => LowerChar(s[i]))
  }

  /** Lower-casing a lower-cased string changes nothing. */
  lemma LowerIdempotent(s: string)
    ensures Lower(Lower(s)) == Lower(s)
  {
    assert forall i :: 0 <= i < |s| ==> LowerChar(LowerChar(s[i])) == LowerChar(s[i]);
  }

  /** Lower-casing commutes with stripping (the whitespace set has no letters). */
  lemma LowerStrip(s: string)
    ensures Lower(Strip(s)) == Strip(Lower(s))
  {
    var start := SkipSpaces(s, 0);
    LowerSkipSpaces(s, 0);
    var end := SkipSpacesBack(s, start, |s|);
    LowerSkipSpacesBack(s, start, |s|);
    assert Strip(s) == s[start..end];
    assert Strip(Lower(s)) == Lower(s)[start..end];
    LowerSlice(s, start, end);
  }

  /** Lower-casing commutes with slicing. */
  lemma LowerSlice(s: string, lo: nat, hi: nat)
    requires lo <= hi <= |s|
    ensures Lower(s[lo..hi]) == Lower(s)[lo..hi]
  {
  }

  /** Lower-casing never turns a character into whitespace or back. */
  lemma LowerCharSpace(c: char)
    ensures IsSpace(LowerChar(c)) == IsSpace(c)
  {
  }

  lemma {:induction false} LowerSkipSpaces(s: string, i: nat)
    requires i <= |s|
    ensures SkipSpaces(Lower(s), i) == SkipSpaces(s, i)
    decreases |s| - i
  {
    if i < |s| {
      assert IsSpace(Lower(s)[i]) == IsSpace(s[i]) by {
        LowerCharSpace(s[i]);
      }
      if IsSpace(s[i]) {
        LowerSkipSpaces(s, i + 1);
      }
    }
  }

  lemma {:induction false} LowerSkipSpacesBack(s: string, lo: nat, j: nat)
    requires lo <= j <= |s|
    ensures SkipSpacesBack(Lower(s), lo, j) == SkipSpacesBack(s, lo, j)
    decreases j
  {
    if j > lo {
      assert IsSpace(Lower(s)[j - 1]) == IsSpace(s[j - 1]) by {
        LowerCharSpace(s[j - 1]);
      }
      if IsSpace(s[j - 1]) {
        LowerSkipSpacesBack(s, lo, j - 1);
      }
    }
  }

  predicate StartsWith(s: string, prefix: string)
  {
    |prefix| <= |s| && s[..|prefix|] == prefix
  }

  /** `sub` occurs in `s` starting at position `i`. */
  predicate OccursAt(s: string, sub: string, i: int)
  {
    0 <= i <= |s| - |sub| && s[i..i + |sub|] == sub
  }

  /** Python's `sub in s` for strings. */
  predicate Contains(s: string, sub: string)
  {
    exists i | 0 <= i <= |s| - |sub| :: OccursAt(s, sub, i)
  }

  /** A string does not contain a text one of whose characters it lacks. */
  lemma NotContainsMissingChar(s: string, sub: string, k: nat)
    requires k < |sub| && sub[k] !in s
    ensures !Contains(s, sub)
  {
  }

  /** A text occurs in any string that has it at a given position. */
  lemma ContainsAt(s: string, sub: string, i: nat)
    requires i + |sub| <= |s| && s[i..i + |sub|] == sub
    ensures Contains(s, sub)
  {
    assert OccursAt(s, sub, i);
  }

  /** str.split(sep): the pieces between separators, empty ones included. */
  function Split(s: string, sep: char): (parts: seq<string>)
    ensures |parts| >= 1
    ensures forall k :: 0 <= k < |parts| ==> sep !in parts[k]
    decreases |s|
  {
    if |s| == 0 then [""]
    else
      var rest := Split(s[1..], sep);
      if s[0] == sep then [""] + rest
      else [[s[0]] + rest[0]] + rest[1..]
  }

  /** A string without the separator splits into itself alone. */
  lemma {:induction false} SplitNoSeparator(s: string, sep: char)
    requires sep !in s
    ensures Split(s, sep) == [s]
    decreases |s|
  {
    if |s| > 0 {
      SplitNoSeparator(s[1..], sep);
      assert [s[0]] + s[1..] == s;
    }
  }

  /** Splitting `a + sep + b` with no separator in `a` gives `a` first. */
  lemma {:induction false} SplitFirstPiece(a: string, sep: char, b: string)
    requires sep !in a
    ensures Split(a + [sep] + b, sep) == [a] + Split(b, sep)
    decreases |a|
  {
    var s := a + [sep] + b;
    if |a| == 0 {
      assert s[1..] == b;
    } else {
      assert s[1..] == a[1..] + [sep] + b;
      SplitFirstPiece(a[1..], sep, b);
      assert [a[0]] + a[1..] == a;
    }
  }

  /** s.replace(from, to) for single characters. */
  function ReplaceChar(s: string, from: char, to: char): (r: string)
    ensures |r| == |s|
    ensures forall i :: 0 <= i < |s| ==> r[i] == if s[i] == from then to else s[i]
  {
    seq(|s|, i requires 0 <= i < |s| => if s[i] == from then to else s[i])
  }

  /** s.replace(c, ""): every occurrence of `c` removed, the rest in order. */
  function RemoveChar(s: string, c: char): (r: string)
    ensures c !in r
    ensures forall i :: 0 <= i < |r| ==> r[i] in s
    decreases |s|
  {
    if |s| == 0 then ""
    else if s[0] == c then RemoveChar(s[1..], c)
    else [s[0]] + RemoveChar(s[1..], c)
  }

  lemma {:induction false} RemoveCharAbsent(s: string, c: char)
    requires c !in s
    ensures RemoveChar(s, c) == s
    decreases |s|
  {
    if |s| > 0 {
      RemoveCharAbsent(s[1..], c);
      assert [s[0]] + s[1..] == s;
    }
  }

  lemma {:induction false} RemoveCharAppend(a: string, b: string, c: char)
    ensures RemoveChar(a + b, c) == RemoveChar(a, c) + RemoveChar(b, c)
    decreases |a|
  {
    if |a| > 0 {
      assert (a + b)[1..] == a[1..] + b;
      RemoveCharAppend(a[1..], b, c);
    } else {
      assert a + b == b;
    }
  }

  // ---------------------------------------------------------------
  // Decimal digits
  // ---------------------------------------------------------------

  /** An ASCII decimal digit. */
  predicate IsDigit(c: char)
  {
    '0' <= c <= '9'
  }

  predicate AllDigits(s: string)
  {
    forall i :: 0 <= i < |s| ==> IsDigit(s[i])
  }

  function DigitValue(c: char): nat
    requires IsDigit(c)
  {
    c as int - '0' as int
  }

  function DigitChar(d: nat): (c: char)
    requires d < 10
    ensures IsDigit(c) && DigitValue(c) == d
  {
    ('0' as int + d) as char
  }

  /** The number a run of decimal digits denotes (leading zeros allowed). */
  function DigitsValue(s: string): nat
    requires AllDigits(s)
    decreases |s|
  {
    if s == [] then 0 else DigitsValue(s[..|s| - 1]) * 10 + DigitValue(s[|s| - 1])
  }

  /** The decimal digits of a natural number, without leading zeros. */
  function NatDigits(n: nat): (r: string)
    ensures |r| >= 1 && AllDigits(r)
    decreases n
  {
    if n < 10 then [DigitChar(n)] else NatDigits(n / 10) + [DigitChar(n % 10)]
  }

  lemma {:induction false} NatDigitsValue(n: nat)
    ensures DigitsValue(NatDigits(n)) == n
    decreases n
  {
    if n >= 10 {
      var s := NatDigits(n);
      assert s[..|s| - 1] == NatDigits(n / 10);
      NatDigitsValue(n / 10);
    }
  }

  /** A single-digit number is written as one character. */
  lemma NatDigitsSmall(n: nat)
    requires n < 10
    ensures |NatDigits(n)| == 1
  {
  }

  /** A two-digit number is written as two characters. */
  lemma NatDigitsTwo(n: nat)
    requires 10 <= n < 100
    ensures |NatDigits(n)| == 2
  {
    NatDigitsSmall(n / 10);
  }

  function Zeros(k: nat): (r: string)
    ensures |r| == k && AllDigits(r)
    ensures forall i :: 0 <= i < k ==> r[i] == '0'
  {
    seq(k, _ => '0')
  }

  /** Leading zeros do not change the value of a digit run. */
  lemma {:induction false} LeadingZerosValue(k: nat, s: string)
    requires AllDigits(s)
    ensures AllDigits(Zeros(k) + s) && DigitsValue(Zeros(k) + s) == DigitsValue(s)
    decreases |s|
  {
    var z := Zeros(k) + s;
    if s == [] {
      assert z == Zeros(k);
      ZerosValue(k);
    } else {
      assert z[..|z| - 1] == Zeros(k) + s[..|s| - 1];
      LeadingZerosValue(k, s[..|s| - 1]);
    }
  }

  lemma {:induction false} ZerosValue(k: nat)
    ensures DigitsValue(Zeros(k)) == 0
    decreases k
  {
    if k > 0 {
      assert Zeros(k)[..k - 1] == Zeros(k - 1);
      ZerosValue(k - 1);
    }
  }

  /** Left-pads a digit run with zeros to at least `width` characters. */
  function ZeroPad(s: string, width: nat): (r: string)
    ensures |r| == if |s| >= width then |s| else width
  {
    if |s| >= width then s else Zeros(width - |s|) + s
  }

  /** Python's f"{n:03d}": zero-padded to width 3, the sign counted in the width. */
  function Format03(n: int): string
  {
    if n < 0 then "-" + ZeroPad(NatDigits(-n), 2) else ZeroPad(NatDigits(n), 3)
  }

  /** The value of a non-negative number's `{n:03d}` text is the number. */
  lemma Format03Value(n: nat)
    ensures |Format03(n)| >= 3 && AllDigits(Format03(n)) && DigitsValue(Format03(n)) == n
  {
    NatDigitsValue(n);
    var d := NatDigits(n);
    if |d| < 3 {
      LeadingZerosValue(3 - |d|, d);
    }
  }

  /** Python's str(n) for an int. */
  function DecimalString(n: int): (r: string)
    ensures |r| >= 1
  {
    if n < 0 then "-" + NatDigits(-n) else NatDigits(n)
  }

  // ---------------------------------------------------------------
  // int() on text
  // ---------------------------------------------------------------

  /** The body int() accepts after an optional sign: digits, single
      underscores allowed between digits. */
  predicate IsUnderscoredDigits(s: string)
  {
    && |s| > 0 && IsDigit(s[0]) && IsDigit(s[|s| - 1])
    && (forall i :: 0 <= i < |s| ==> IsDigit(s[i]) || s[i] == '_')
    && (forall i, j :: 0 <= i < |s| && 0 <= j < |s| && j == i + 1 ==> s[i] != '_' || s[j] != '_')
  }

  function UnderscoredValue(s: string): nat
    requires IsUnderscoredDigits(s)
  {
    var d := RemoveChar(s, '_');
    assert AllDigits(d) by {
      forall i | 0 <= i < |d| ensures IsDigit(d[i]) {
        assert d[i] in s && d[i] != '_';
      }
    }
    DigitsValue(d)
  }

  /** Python's int(text) in base 10: surrounding whitespace stripped,
      an optional sign, then digits; None where int() raises ValueError. */
  function ParseInt(s: string): Option<int>
  {
    var t := Strip(s);
    if |t| > 0 && (t[0] == '-' || t[0] == '+') then
      var body := t[1..];
      if IsUnderscoredDigits(body) then
        Some(if t[0] == '-' then -(UnderscoredValue(body) as int) else UnderscoredValue(body))
      else None
    else if IsUnderscoredDigits(t) then Some(UnderscoredValue(t))
    else None
  }

  /** The digits of a natural number have no underscore and no blank end. */
  lemma NatDigitsPlain(m: nat)
    ensures '_' !in NatDigits(m)
    ensures IsUnderscoredDigits(NatDigits(m))
    ensures !IsSpace(NatDigits(m)[0]) && !IsSpace(NatDigits(m)[|NatDigits(m)| - 1])
  {
    var d := NatDigits(m);
    forall i | 0 <= i < |d| ensures d[i] != '_' && !IsSpace(d[i]) {
      assert IsDigit(d[i]);
    }
  }

  lemma ParseIntUnsigned(t: string)
    requires IsUnderscoredDigits(t) && Strip(t) == t
    ensures ParseInt(t) == Some(UnderscoredValue(t))
  {
    assert t[0] != '-' && t[0] != '+';
  }

  lemma UnderscoredNatDigits(m: nat)
    ensures IsUnderscoredDigits(NatDigits(m)) && UnderscoredValue(NatDigits(m)) == m
  {
    NatDigitsPlain(m);
    RemoveCharAbsent(NatDigits(m), '_');
    NatDigitsValue(m);
  }

  /** int() reads back the digits of a natural number. */
  lemma ParseIntNatDigits(m: nat)
    ensures ParseInt(NatDigits(m)) == Some(m)
  {
    var d := NatDigits(m);
    NatDigitsPlain(m);
    StripUnchanged(d);
    ParseIntUnsigned(d);
    UnderscoredNatDigits(m);
  }

  lemma ParseIntNegative(d: string, m: nat)
    requires IsUnderscoredDigits(d) && !IsSpace(d[|d| - 1]) && UnderscoredValue(d) == m
    ensures ParseInt("-" + d) == Some(-(m as int))
  {
    var t := "-" + d;
    assert Strip(t) == t by {
      assert t[|t| - 1] == d[|d| - 1];
      StripUnchanged(t);
    }
    assert t[0] == '-' && t[1..] == d;
  }

  /** int() reads back a minus sign followed by digits. */
  lemma ParseIntNegDigits(m: nat)
    ensures ParseInt("-" + NatDigits(m)) == Some(-(m as int))
  {
    var d := NatDigits(m);
    assert IsUnderscoredDigits(d) && !IsSpace(d[|d| - 1]) && UnderscoredValue(d) == m by {
      NatDigitsPlain(m);
      UnderscoredNatDigits(m);
    }
    ParseIntNegative(d, m);
  }

  /** int(str(n)) == n: the text the application writes for a counter or
      an id reads back as the same number. */
  lemma ParseIntDecimal(n: int)
    ensures ParseInt(DecimalString(n)) == Some(n)
  {
    if n < 0 {
      var m: nat := -n;
      ParseIntNegDigits(m);
      assert DecimalString(n) == "-" + NatDigits(m);
    } else {
      ParseIntNatDigits(n);
    }
  }
}
