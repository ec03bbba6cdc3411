/** The pieces of Python's `str` behaviour that the RC-line parser relies on:
    `strip()`, `split(sep)`, the `in` substring test, and `int(s)` in base 10. */
module Text {
  import opened Optional

  /** Characters for which Python's `str.isspace()` holds, and which
      `str.strip()` with no argument removes. */
  predicate IsSpace(c: char) {
    || '\t' <= c <= '\r'
    || '\U{1C}' <= c <= ' '
    || c == '\U{85}' || c == '\U{A0}' || c == '\U{1680}'
    || '\U{2000}' <= c <= '\U{200A}'
    || c == '\U{2028}' || c == '\U{2029}' || c == '\U{202F}' || c == '\U{205F}' || c == '\U{3000}'
  }

  /** Whitespace that `int()` skips around a number: the ASCII C-locale
      spaces, plus every non-ASCII character `str.isspace()` accepts.
      Unlike `strip()`, it does not skip the separators U+001C..U+001F. */
  predicate IsIntSpace(c: char) {
    IsSpace(c) && !('\U{1C}' <= c <= '\U{1F}')
  }

  /** Number of leading characters satisfying `ws`. */
  function LeadingRun(s: string, ws: char -> bool): (n: nat)
    ensures n <= |s|
    ensures forall i :: 0 <= i < n ==> ws(s[i])
    ensures n < |s| ==> !ws(s[n])
  {
    if |s| == 0 || !ws(s[0]) then 0 else 1 + LeadingRun(s[1..], ws)
  }

  /** Number of trailing characters satisfying `ws`. */
  function TrailingRun(s: string, ws: char -> bool): (n: nat)
    ensures n <= |s|
    ensures forall i :: |s| - n <= i < |s| ==> ws(s[i])
    ensures n < |s| ==> !ws(s[|s| - n - 1])
  {
    if |s| == 0 || !ws(s[|s| - 1]) then 0 else 1 + TrailingRun(s[..|s| - 1], ws)
  }

  /** `a` leading and `b` trailing characters of `s` all satisfy `ws`, and
      the two runs do not overlap. */
  predicate TrimmedAt(s: string, ws: char -> bool, a: int, b: int) {
    && 0 <= a && 0 <= b && a + b <= |s|
    && (forall i :: 0 <= i < a ==> ws(s[i]))
    && (forall i :: |s| - b <= i < |s| ==> ws(s[i]))
  }

  /** `s` with every leading and trailing `ws` character removed: the
      maximal leading run and the maximal trailing run, which cover all of
      `s` when it is nothing but `ws` characters. */
  function TrimBy(s: string, ws: char -> bool): (r: string)
    ensures |r| <= |s|
    ensures LeadingRun(s, ws) == |s| ==> r == []
    ensures LeadingRun(s, ws) < |s| ==>
      && LeadingRun(s, ws) + TrailingRun(s, ws) < |s|
      && r == s[LeadingRun(s, ws)..|s| - TrailingRun(s, ws)]
    ensures |r| > 0 ==> !ws(r[0]) && !ws(r[|r| - 1])
    ensures forall i :: 0 <= i < |s| && !ws(s[i]) ==> |r| > 0
    ensures (|s| == 0 || (!ws(s[0]) && !ws(s[|s| - 1]))) ==> r == s
  {
    var a := LeadingRun(s, ws);
    if a == |s| then []
    else
      var b := TrailingRun(s[a..], ws);
      TrailingRunFrom(s, ws, a);
      s[a..|s| - b]
  }

  /** Trimming is determined by its description: removing whitespace runs
      from both ends so that what remains neither starts nor ends with
      whitespace (or is empty) gives exactly `TrimBy`. */
  lemma TrimByUnique(s: string, ws: char -> bool, a: int, b: int)
    requires TrimmedAt(s, ws, a, b)
    requires a + b < |s| ==> !ws(s[a]) && !ws(s[|s| - b - 1])
    ensures TrimBy(s, ws) == s[a..|s| - b]
  {
    if a + b == |s| {
      LeadingRunUnique(s, ws, |s|);
    } else {
      LeadingRunUnique(s, ws, a);
      TrailingRunUnique(s, ws, b);
    }
  }

  /** Past a non-`ws` character, the trailing run of a suffix is that of
      the whole. */
  lemma TrailingRunFrom(s: string, ws: char -> bool, a: nat)
    requires a < |s| && !ws(s[a])
    ensures TrailingRun(s[a..], ws) == TrailingRun(s, ws)
    ensures a + TrailingRun(s, ws) < |s|
  {
    var t := s[a..];
    var b := TrailingRun(t, ws);
    assert forall i :: |t| - b <= i < |t| ==> t[i] == s[a + i];
    if b < |t| {
      assert t[|t| - b - 1] == s[|s| - b - 1];
    }
    TrailingRunUnique(s, ws, b);
  }

  /** The leading run is the only count it can be. */
  lemma LeadingRunUnique(s: string, ws: char -> bool, n: nat)
    requires n <= |s| && forall i :: 0 <= i < n ==> ws(s[i])
    requires n < |s| ==> !ws(s[n])
    ensures LeadingRun(s, ws) == n
  {
  }

  /** The trailing run is the only count it can be. */
  lemma TrailingRunUnique(s: string, ws: char -> bool, n: nat)
    requires n <= |s| && forall i :: |s| - n <= i < |s| ==> ws(s[i])
    requires n < |s| ==> !ws(s[|s| - n - 1])
    ensures TrailingRun(s, ws) == n
  {
  }

  /** Python's `s.strip()`: leading and trailing whitespace removed, and
      nothing else. */
  function Strip(s: string): (r: string)
    ensures LeadingRun(s, IsSpace) == |s| ==> r == []
    ensures LeadingRun(s, IsSpace) < |s| ==> r == s[LeadingRun(s, IsSpace)..|s| - TrailingRun(s, IsSpace)]
    ensures |r| > 0 ==> !IsSpace(r[0]) && !IsSpace(r[|r| - 1])
    ensures forall i :: 0 <= i < |s| && !IsSpace(s[i]) ==> |r| > 0
  {
    TrimBy(s, IsSpace)
  }

  /** Stripping twice strips nothing more. */
  lemma StripIdempotent(s: string)
    ensures Strip(Strip(s)) == Strip(s)
  {
    var r := Strip(s);
    TrimByUnique(r, IsSpace, 0, 0);
  }

  /** Index of the first `c` in `s`, or `|s|` when there is none. */
  function IndexOf(s: string, c: char): (i: nat)
    ensures i <= |s|
    ensures c !in s[..i]
    ensures i < |s| ==> s[i] == c
  {
    if |s| == 0 then 0
    else if s[0] == c then 0
    else
      var j := IndexOf(s[1..], c);
      assert s[1..][..j] == s[1..j + 1];
      assert s[..j + 1] == [s[0]] + s[1..][..j];
      1 + j
  }

  /** Number of occurrences of `c` in `s`. */
  function Count(s: string, c: char): (n: nat)
    ensures n == 0 <==> c !in s
  {
    if |s| == 0 then 0
    else (if s[0] == c then 1 else 0) + Count(s[1..], c)
  }

  /** The parts joined back together with `sep` between them. */
  function Join(parts: seq<string>, sep: char): string
    requires |parts| >= 1
  {
    if |parts| == 1 then parts[0] else parts[0] + [sep] + Join(parts[1..], sep)
  }

  /** Python's `s.split(sep)` for a one-character separator: always at least
      one part, none containing `sep`, one more part than there are
      separators, and joining the parts restores `s`. */
  function Split(s: string, sep: char): (parts: seq<string>)
    ensures |parts| == Count(s, sep) + 1
    ensures forall i :: 0 <= i < |parts| ==> sep !in parts[i]
    ensures Join(parts, sep) == s
    decreases |s|
  {
    var i := IndexOf(s, sep);
    if i == |s| then
      assert s[..i] == s;
      [s]
    else
      var tail := Split(s[i + 1..], sep);
      SplitStep(s, sep, i, tail);
      [s[..i]] + tail
  }

  /** One step of Split: the part before the first separator, then the
      parts of the rest. */
  lemma SplitStep(s: string, sep: char, i: nat, tail: seq<string>)
    requires i < |s| && s[i] == sep && sep !in s[..i]
    requires |tail| == Count(s[i + 1..], sep) + 1
    requires forall k :: 0 <= k < |tail| ==> sep !in tail[k]
    requires Join(tail, sep) == s[i + 1..]
    ensures var parts := [s[..i]] + tail;
      && |parts| == Count(s, sep) + 1
      && (forall k :: 0 <= k < |parts| ==> sep !in parts[k])
      && Join(parts, sep) == s
  {
    CountSplit(s, sep, i);
    var parts := [s[..i]] + tail;
    assert parts[1..] == tail;
    assert Join(parts, sep) == s[..i] + [sep] + s[i + 1..];
    assert s == s[..i] + [sep] + s[i + 1..];
  }

  /** Splitting parts that were joined with a separator none of them
      contains gives the parts back. */
  lemma {:induction false} SplitJoin(parts: seq<string>, sep: char)
    requires |parts| >= 1
    requires forall i :: 0 <= i < |parts| ==> sep !in parts[i]
    ensures Split(Join(parts, sep), sep) == parts
    decreases |parts|
  {
    var s := Join(parts, sep);
    if |parts| == 1 {
      assert IndexOf(s, sep) == |s|;
    } else {
      var a := parts[0];
      var rest := Join(parts[1..], sep);
      assert s == a + [sep] + rest;
      var i := IndexOf(s, sep);
      assert s[|a|] == sep;
      assert i == |a|;
      assert s[..i] == a;
      assert s[i + 1..] == rest;
      SplitJoin(parts[1..], sep);
      assert Split(s, sep) == [a] + Split(rest, sep);
      assert parts == [a] + parts[1..];
    }
  }

  /** The last character of a join is that of its last part. */
  lemma {:induction false} JoinLast(parts: seq<string>, sep: char)
    requires |parts| >= 1 && |parts[|parts| - 1]| > 0
    ensures |Join(parts, sep)| > 0
    ensures Join(parts, sep)[|Join(parts, sep)| - 1] == parts[|parts| - 1][|parts[|parts| - 1]| - 1]
    decreases |parts|
  {
    if |parts| > 1 {
      JoinLast(parts[1..], sep);
    }
  }

  /** Counting occurrences across the first separator. */
  lemma {:induction false} CountSplit(s: string, c: char, i: nat)
    requires i < |s| && s[i] == c && c !in s[..i]
    ensures Count(s, c) == 1 + Count(s[i + 1..], c)
  {
    if i > 0 {
      assert s[1..][..i - 1] == s[1..i];
      assert c !in s[1..][..i - 1] by {
        assert forall k :: 0 <= k < i - 1 ==> s[1..][k] == s[..i][k + 1];
      }
      CountSplit(s[1..], c, i - 1);
      assert s[1..][i..] == s[i + 1..];
    }
  }

  /** `w` occurs in `s` starting at index `k`. */
  predicate OccursAt(w: string, s: string, k: int) {
    0 <= k && k + |w| <= |s| && s[k..k + |w|] == w
  }

  /** Whether `w` occurs in `s` as a contiguous substring (Python's `w in s`). */
  function IsInfix(w: string, s: string): (b: bool)
    ensures b <==> exists k :: OccursAt(w, s, k)
    decreases |s|
  {
    if |s| < |w| then false
    else if s[..|w|] == w then
      assert OccursAt(w, s, 0);
      true
    else
      var rest := s[1..];
      var b := IsInfix(w, rest);
      if b then
        var k :| OccursAt(w, rest, k);
        assert rest[k..k + |w|] == s[k + 1..k + 1 + |w|];
        assert OccursAt(w, s, k + 1);
        true
      else
        forall k | OccursAt(w, s, k)
          ensures k > 0 && OccursAt(w, rest, k - 1)
        {
          assert k != 0;
          assert rest[k - 1..k - 1 + |w|] == s[k..k + |w|];
        }
        false
  }

  predicate IsDigit(c: char) {
    '0' <= c <= '9'
  }

  /** Digits in Python's integer-literal grammar: at least one digit, and an
      underscore only ever between two digits. */
  predicate ValidDigits(s: string) {
    && |s| > 0
    && IsDigit(s[0])
    && (forall i :: 0 <= i < |s| ==> IsDigit(s[i]) || s[i] == '_')
    && s[|s| - 1] != '_'
    && (forall i, j :: 0 <= i < |s| && 0 <= j < |s| && j == i + 1 && s[i] == '_' ==> IsDigit(s[j]))
  }

  /** Decimal value of the digits of `s`, underscores skipped. */
  function DigitsValue(s: string): (n: nat)
    requires forall i :: 0 <= i < |s| ==> IsDigit(s[i]) || s[i] == '_'
  {
    if |s| == 0 then 0
    else
      var init := s[..|s| - 1];
      var last := s[|s| - 1];
      assert forall i :: 0 <= i < |init| ==> init[i] == s[i];
      if last == '_' then DigitsValue(init)
      else
        assert IsDigit(last);
        DigitsValue(init) * 10 + (last as int - '0' as int)
  }

  /** Python's `int(s)` in base 10: optional surrounding whitespace, an
      optional sign, then digits with single underscores between them.
      None stands for the ValueError Python raises; an accepted string holds
      a digit, holds no character other than digits, '_', signs and
      whitespace, and holds a '-' when the value is negative. */
  function ParseInt(s: string): (r: Option<int>)
    ensures r.Some? ==> exists c :: c in s && IsDigit(c)
    ensures r.Some? ==> forall c :: c in s ==> IntChar(c)
    ensures r.Some? && r.value < 0 ==> '-' in s
  {
    var t := TrimBy(s, IsIntSpace);
    if |t| > 0 && (t[0] == '-' || t[0] == '+') then
      var body := t[1..];
      if ValidDigits(body) then
        LiteralChars(s);
        var v: int := DigitsValue(body);
        Some(if t[0] == '-' then -v else v)
      else None
    else if ValidDigits(t) then
      LiteralChars(s);
      Some(DigitsValue(t))
    else None
  }

  /** Characters that may appear in a string `int()` accepts. */
  predicate IntChar(c: char) {
    IsDigit(c) || c == '_' || c == '+' || c == '-' || IsIntSpace(c)
  }

  /** The trimmed text is a literal: valid digits, with at most one sign. */
  predicate IntLiteral(t: string) {
    ValidDigits(t) || (|t| > 0 && (t[0] == '-' || t[0] == '+') && ValidDigits(t[1..]))
  }

  /** A string whose trimmed text is a literal holds a digit and only
      characters `int()` accepts. */
  lemma LiteralChars(s: string)
    requires IntLiteral(TrimBy(s, IsIntSpace))
    ensures exists c :: c in s && IsDigit(c)
    ensures forall c :: c in s ==> IntChar(c)
    ensures '-' in TrimBy(s, IsIntSpace) ==> '-' in s
  {
    var t := TrimBy(s, IsIntSpace);
    TrimKeeps(s, IsIntSpace);
    if ValidDigits(t) {
      assert t[0] in t;
    } else {
      var body := t[1..];
      assert body[0] in t;
      assert forall c :: c in t ==> c in body || c == t[0];
    }
  }

  /** Trimming keeps characters and only removes `ws` ones. */
  lemma TrimKeeps(s: string, ws: char -> bool)
    ensures forall c :: c in TrimBy(s, ws) ==> c in s
    ensures forall c :: c in s ==> ws(c) || c in TrimBy(s, ws)
  {
    var r := TrimBy(s, ws);
    var a := LeadingRun(s, ws);
    if a < |s| {
      var b := TrailingRun(s, ws);
      assert r == s[a..|s| - b];
      forall c | c in s
        ensures ws(c) || c in r
      {
        var i :| 0 <= i < |s| && s[i] == c;
        if a <= i < |s| - b {
          assert r[i - a] == c;
        }
      }
    }
  }

  /** Decimal rendering of a natural number, as Python's `str(n)`. */
  function NatToString(n: nat): (s: string)
    ensures |s| > 0
    ensures forall i :: 0 <= i < |s| ==> IsDigit(s[i])
  {
    var d := ['0' + (n % 10) as char];
    if n < 10 then d else NatToString(n / 10) + d
  }

  /** Decimal rendering of an integer, as Python's `str(n)`. */
  function IntToString(n: int): (s: string)
    ensures |s| > 0
  {
    if n < 0 then "-" + NatToString(-n) else NatToString(n)
  }

  lemma {:induction false} NatToStringValue(n: nat)
    ensures DigitsValue(NatToString(n)) == n
  {
    var s := NatToString(n);
    if n >= 10 {
      NatToStringValue(n / 10);
      assert s[..|s| - 1] == NatToString(n / 10);
    }
  }

  /** A rendered natural number has no whitespace to trim. */
  lemma TrimDigits(s: string, d: string)
    requires |d| > 0 && forall i :: 0 <= i < |d| ==> IsDigit(d[i])
    requires s == d || s == "-" + d
    ensures TrimBy(s, IsIntSpace) == s
  {
    assert !IsIntSpace(s[0]);
    assert s[|s| - 1] == d[|d| - 1];
    assert !IsIntSpace(s[|s| - 1]);
  }

  /** `int()` reads back what `str()` writes. */
  lemma ParseIntToString(n: int)
    ensures ParseInt(IntToString(n)) == Some(n)
  {
    if n < 0 {
      ParseNegative(-n);
    } else {
      ParseNatural(n);
    }
  }

  lemma ParseNatural(m: nat)
    ensures ParseInt(IntToString(m)) == Some(m)
  {
    var d := NatToString(m);
    assert IntToString(m) == d;
    assert TrimBy(d, IsIntSpace) == d && ValidDigits(d) && DigitsValue(d) == m by {
      NatToStringValue(m);
      DigitsOnlyValid(d);
      TrimDigits(d, d);
    }
  }

  lemma ParseNegative(m: nat)
    requires m > 0
    ensures ParseInt(IntToString(-(m as int))) == Some(-(m as int))
  {
    NegativeRendering(m);
    ParseMinus("-" + NatToString(m));
  }

  /** The rendering of -m is '-' followed by the digits of m, and it reads
      back through `int()` as a sign and a valid digit body of value m. */
  lemma NegativeRendering(m: nat)
    requires m > 0
    ensures var s := "-" + NatToString(m);
      && IntToString(-(m as int)) == s
      && |s| > 0 && s[0] == '-' && TrimBy(s, IsIntSpace) == s
      && ValidDigits(s[1..]) && DigitsValue(s[1..]) == m
  {
    var d := NatToString(m);
    var s := "-" + d;
    assert s[1..] == d;
    NatToStringValue(m);
    DigitsOnlyValid(d);
    TrimDigits(s, d);
  }

  /** A string that nothing trims, made of '-' and valid digits, parses to
      the negated digit value. */
  lemma ParseMinus(s: string)
    requires |s| > 0 && s[0] == '-' && TrimBy(s, IsIntSpace) == s
    requires ValidDigits(s[1..])
    ensures ParseInt(s) == Some(-(DigitsValue(s[1..]) as int))
  {
  }

  /** A non-empty run of plain digits is a valid literal body. */
  lemma DigitsOnlyValid(d: string)
    requires |d| > 0 && forall i :: 0 <= i < |d| ==> IsDigit(d[i])
    ensures ValidDigits(d)
  {
  }

  /** `int()` on a few strings a radio line could carry: surrounding
      whitespace and single underscores are accepted; a doubled underscore,
      a space after the sign, a leading U+001C separator (which `strip()`
      would remove but `int()` does not skip) and the empty string are
      rejected. */
  lemma ParseIntExamples()
    ensures ParseInt(" 15 ") == Some(15)
    ensures ParseInt("1_5") == Some(15)
    ensures ParseInt("1__5") == None
    ensures ParseInt("- 7") == None
    ensures ParseInt("\U{1C}5") == None
    ensures ParseInt("") == None
  {
    TrimExample();
    DigitsExample();
    ParseUnsigned(" 15 ");
    ParseUnsigned("1_5");
    RejectDoubleUnderscore();
    RejectSpaceAfterSign();
    RejectSeparator();
  }

  lemma TrimExample()
    ensures TrimBy(" 15 ", IsIntSpace) == "15"
  {
    assert TrimmedAt(" 15 ", IsIntSpace, 1, 1);
    TrimByUnique(" 15 ", IsIntSpace, 1, 1);
    assert " 15 "[1..3] == "15";
  }

  lemma DigitsExample()
    ensures ValidDigits("15") && DigitsValue("15") == 15
    ensures ValidDigits("1_5") && DigitsValue("1_5") == 15
  {
    assert "15"[..1] == "1" && "1"[..0] == "";
    assert "1_5"[..2] == "1_" && "1_"[..1] == "1";
  }

  /** A string whose trimmed text is a valid digit body parses to its value. */
  lemma ParseUnsigned(s: string)
    requires ValidDigits(TrimBy(s, IsIntSpace))
    ensures ParseInt(s) == Some(DigitsValue(TrimBy(s, IsIntSpace)))
  {
  }

  lemma RejectDoubleUnderscore()
    ensures ParseInt("1__5") == None
  {
    assert TrimBy("1__5", IsIntSpace) == "1__5";
    assert !ValidDigits("1__5") by {
      assert "1__5"[1] == '_' && "1__5"[2] == '_';
    }
  }

  lemma RejectSpaceAfterSign()
    ensures ParseInt("- 7") == None
  {
    assert TrimBy("- 7", IsIntSpace) == "- 7";
    assert !ValidDigits("- 7"[1..]) by {
      assert "- 7"[1..][0] == ' ';
    }
  }

  lemma RejectSeparator()
    ensures ParseInt("\U{1C}5") == None
  {
    assert TrimBy("\U{1C}5", IsIntSpace) == "\U{1C}5";
  }
}
