/** Character-level helpers shared by the backend and the frontend: decimal
    numerals (Python `str`/`int`, JavaScript `String`/`parseInt`/`Number`
    restricted to integers), zero-padded fields of ISO dates, ASCII lower-casing,
    substring search (`String.prototype.includes`) and a lexicographic string
    order by character. On the `yyyy-mm` month keys it is compared on (ASCII
    digits and a hyphen) it agrees with JavaScript `<`, which compares UTF-16
    code units, and with the ordering of SQL Server collations; on arbitrary
    text neither need agree with it. */
module Text {
  import opened Base

  predicate IsDigit(c: char) {
    '0' <= c <= '9'
  }

  predicate AllDigits(s: string) {
    forall i | 0 <= i < |s| :: IsDigit(s[i])
  }

  function DigitValue(c: char): nat
    requires IsDigit(c)
  {
    c as int - '0' as int
  }

  function DigitChar(d: nat): (c: char)
    requires d < 10
    ensures IsDigit(c) && DigitValue(c) == d
  {
    (d + '0' as int) as char
  }

  function Pow10(w: nat): (p: nat)
    ensures p >= 1
  {
    if w == 0 then 1 else 10 * Pow10(w - 1)
  }

  /** The number a string of decimal digits denotes, most significant digit first. */
  function DigitsValue(s: string): nat
    requires AllDigits(s)
  {
    if |s| == 0 then 0 else DigitsValue(s[..|s| - 1]) * 10 + DigitValue(s[|s| - 1])
  }

  lemma {:induction false} DigitsValueBound(s: string)
    requires AllDigits(s)
    ensures DigitsValue(s) < Pow10(|s|)
  {
    if |s| > 0 {
      DigitsValueBound(s[..|s| - 1]);
    }
  }

  lemma DigitsValueSnoc(p: string, c: char)
    requires AllDigits(p) && IsDigit(c)
    ensures AllDigits(p + [c]) && DigitsValue(p + [c]) == DigitsValue(p) * 10 + DigitValue(c)
  {
    assert (p + [c])[..|p|] == p;
  }

  /** `n` written with exactly `width` digits, with leading zeros (the `yyyy`,
      `mm` and `dd` fields of an ISO date). */
  function Padded(n: nat, width: nat): (s: string)
    requires n < Pow10(width)
    ensures |s| == width && AllDigits(s) && DigitsValue(s) == n
  {
    if width == 0 then ""
    else
      assert n / 10 < Pow10(width - 1);
      DigitsValueSnoc(Padded(n / 10, width - 1), DigitChar(n % 10));
      Padded(n / 10, width - 1) + [DigitChar(n % 10)]
  }

  /** Reading a digit string back and padding it to its own width gives the
      string again: fixed-width digit fields have exactly one spelling. */
  lemma {:induction false} PaddedOfDigits(s: string)
    requires AllDigits(s)
    ensures DigitsValue(s) < Pow10(|s|) && Padded(DigitsValue(s), |s|) == s
  {
    DigitsValueBound(s);
    if |s| > 0 {
      var p := s[..|s| - 1];
      PaddedOfDigits(p);
      var n := DigitsValue(s);
      assert n / 10 == DigitsValue(p) && n % 10 == DigitValue(s[|s| - 1]);
      assert s == p + [s[|s| - 1]];
    }
  }

  /** Two numbers below 10^width are equal exactly when their padded forms are. */
  lemma PaddedInjective(a: nat, b: nat, width: nat)
    requires a < Pow10(width) && b < Pow10(width)
    ensures Padded(a, width) == Padded(b, width) <==> a == b
  {
  }

  /** The shortest decimal numeral of `n` (no leading zeros). */
  function NaturalString(n: nat): (s: string)
    ensures |s| >= 1 && AllDigits(s) && DigitsValue(s) == n
    ensures |s| > 1 ==> s[0] != '0'
  {
    if n < 10 then [DigitChar(n)]
    else
      DigitsValueSnoc(NaturalString(n / 10), DigitChar(n % 10));
      NaturalString(n / 10) + [DigitChar(n % 10)]
  }

  /** `str(n)` in Python and `String(n)` in JavaScript for an integer `n`. */
  function DecimalString(n: int): (s: string)
    ensures |s| >= 1
    ensures n < 0 <==> s[0] == '-'
  {
    if n < 0 then "-" + NaturalString(-n) else NaturalString(n)
  }

  /** A signed decimal numeral: an optional sign and at least one digit. */
  predicate IsNumeral(s: string) {
    if |s| > 0 && (s[0] == '-' || s[0] == '+') then |s| > 1 && AllDigits(s[1..])
    else |s| > 0 && AllDigits(s)
  }

  /** Whole-string integer parsing: Python `int(s)` and JavaScript `Number(s)`
      on the numerals they both accept; anything else is a failure (None). */
  function ParseDecimal(s: string): (r: Option<int>)
    ensures r.Some? <==> IsNumeral(s)
    ensures r.Some? && r.value < 0 ==> s[0] == '-'
  {
    if |s| > 0 && s[0] == '-' then
      if |s| > 1 && AllDigits(s[1..]) then Some(-(DigitsValue(s[1..]) as int)) else None
    else if |s| > 0 && s[0] == '+' then
      if |s| > 1 && AllDigits(s[1..]) then Some(DigitsValue(s[1..])) else None
    else if |s| > 0 && AllDigits(s) then Some(DigitsValue(s))
    else None
  }

  /** Writing an integer and parsing it back gives the integer. */
  lemma DecimalRoundTrip(n: int)
    ensures ParseDecimal(DecimalString(n)) == Some(n)
  {
    var s := DecimalString(n);
    if n < 0 {
      assert s[1..] == NaturalString(-n);
    } else {
      assert s[0] != '-' && s[0] != '+';
    }
  }

  /** The longest run of digits at the front of `s`. */
  function DigitPrefix(s: string): (p: string)
    ensures |p| <= |s| && p == s[..|p|] && AllDigits(p)
    ensures |p| < |s| ==> !IsDigit(s[|p|])
  {
    if |s| > 0 && IsDigit(s[0]) then [s[0]] + DigitPrefix(s[1..]) else ""
  }

  /** JavaScript `parseInt(s, 10)` on strings without leading white space:
      an optional sign, then the digits up to the first non-digit; NaN
      (None) when no digit follows the sign. */
  function ParseIntPrefix(s: string): (r: Option<int>)
    ensures r.Some? <==> (exists k :: 0 <= k <= 1 && k < |s| && IsDigit(s[k]) && (k == 1 ==> s[0] == '-' || s[0] == '+'))
  {
    var body := if |s| > 0 && (s[0] == '-' || s[0] == '+') then s[1..] else s;
    var digits := DigitPrefix(body);
    if |digits| == 0 then None
    else if |s| > 0 && s[0] == '-' then Some(-(DigitsValue(digits) as int))
    else Some(DigitsValue(digits))
  }

  lemma DigitPrefixOfDigits(s: string)
    requires AllDigits(s)
    ensures DigitPrefix(s) == s
  {
  }

  /** `parseInt` agrees with whole-string parsing on every numeral. */
  lemma ParseIntPrefixOfNumeral(s: string)
    requires IsNumeral(s)
    ensures ParseIntPrefix(s) == ParseDecimal(s)
  {
    if |s| > 0 && (s[0] == '-' || s[0] == '+') {
      DigitPrefixOfDigits(s[1..]);
    } else {
      DigitPrefixOfDigits(s);
    }
  }

  function LowerChar(c: char): (r: char) {
    if 'A' <= c <= 'Z' then (c as int + 32) as char else c
  }

  /** `toLowerCase()` restricted to ASCII letters. */
  function Lower(s: string): (r: string)
    ensures |r| == |s|
    ensures forall i | 0 <= i < |s| :: r[i] == LowerChar(s[i])
  {
    if |s| == 0 then "" else [LowerChar(s[0])] + Lower(s[1..])
  }

  /** Lower-casing twice is lower-casing once. */
  lemma LowerIdempotent(s: string)
    ensures Lower(Lower(s)) == Lower(s)
  {
  }

  /** A numeral has no letters, so lower-casing leaves it alone. */
  lemma LowerOfDecimal(n: int)
    ensures Lower(DecimalString(n)) == DecimalString(n)
  {
    var s := DecimalString(n);
    if n < 0 {
      assert forall i | 1 <= i < |s| :: s[i] == NaturalString(-n)[i - 1];
    }
  }

  /** Python's `str.isspace()`: the ASCII blanks and separators and the
      Unicode spaces and line and paragraph separators. */
  predicate IsSpace(c: char) {
    || c == ' ' || '\t' <= c <= '\r' || '\U{001C}' <= c <= '\U{001F}'
    || c == '\U{0085}' || c == '\U{00A0}' || c == '\U{1680}' || '\U{2000}' <= c <= '\U{200A}'
    || c == '\U{2028}' || c == '\U{2029}' || c == '\U{202F}' || c == '\U{205F}' || c == '\U{3000}'
  }

  /** `lstrip()`: the longest suffix that does not start with a space. */
  function TrimStart(s: string): (r: string)
    ensures |r| <= |s| && r == s[|s| - |r|..]
    ensures forall k | 0 <= k < |s| - |r| :: IsSpace(s[k])
    ensures |r| > 0 ==> !IsSpace(r[0])
  {
    if |s| > 0 && IsSpace(s[0]) then TrimStart(s[1..]) else s
  }

  /** `rstrip()`: the longest prefix that does not end with a space. */
  function TrimEnd(s: string): (r: string)
    ensures |r| <= |s| && r == s[..|r|]
    ensures forall k | |r| <= k < |s| :: IsSpace(s[k])
    ensures |r| > 0 ==> !IsSpace(r[|r| - 1])
  {
    if |s| > 0 && IsSpace(s[|s| - 1]) then TrimEnd(s[..|s| - 1]) else s
  }

  /** How many spaces `strip()` cuts off the front of `s`. */
  function LeadingSpaces(s: string): (n: nat)
    ensures n <= |s|
    ensures forall k | 0 <= k < n :: IsSpace(s[k])
    ensures n < |s| ==> !IsSpace(s[n])
  {
    |s| - |TrimStart(s)|
  }

  /** `strip()`: the slice of `s` after its leading spaces and before its
      trailing ones, with no space left at either end. */
  function Trim(s: string): (r: string)
    ensures LeadingSpaces(s) + |r| <= |s|
    ensures r == s[LeadingSpaces(s)..LeadingSpaces(s) + |r|]
    ensures forall k | LeadingSpaces(s) + |r| <= k < |s| :: IsSpace(s[k])
    ensures |r| > 0 ==> !IsSpace(r[0]) && !IsSpace(r[|r| - 1])
  {
    var a := TrimStart(s);
    var r := TrimEnd(a);
    var i := |s| - |a|;
    assert forall k | i + |r| <= k < |s| :: s[k] == a[k - i];
    r
  }

  /** A string with no space at either end is its own strip. */
  lemma TrimOfTrimmed(s: string)
    requires |s| > 0 ==> !IsSpace(s[0]) && !IsSpace(s[|s| - 1])
    ensures Trim(s) == s
  {
  }

  /** Every character of `s` is a space. */
  predicate AllSpaces(s: string) {
    forall k | 0 <= k < |s| :: IsSpace(s[k])
  }

  /** `lstrip()` removes a run of blanks in front of a string that does not
      start with one, and nothing else. */
  lemma {:induction false} TrimStartSkipsSpaces(pre: string, s: string)
    requires AllSpaces(pre)
    requires |s| > 0 ==> !IsSpace(s[0])
    ensures TrimStart(pre + s) == s
    decreases |pre|
  {
    if |pre| == 0 {
      assert pre + s == s;
    } else {
      assert (pre + s)[0] == pre[0];
      assert (pre + s)[1..] == pre[1..] + s;
      TrimStartSkipsSpaces(pre[1..], s);
    }
  }

  /** `rstrip()` removes a run of blanks after a string that does not end
      with one, and nothing else. */
  lemma {:induction false} TrimEndSkipsSpaces(s: string, post: string)
    requires AllSpaces(post)
    requires |s| > 0 ==> !IsSpace(s[|s| - 1])
    ensures TrimEnd(s + post) == s
    decreases |post|
  {
    if |post| == 0 {
      assert s + post == s;
    } else {
      var p := s + post;
      assert p[|p| - 1] == post[|post| - 1];
      assert p[..|p| - 1] == s + post[..|post| - 1];
      TrimEndSkipsSpaces(s, post[..|post| - 1]);
    }
  }

  /** Stripping a string with no space at either end, padded on both sides
      by blanks, gives back exactly that string; a blank-only string strips
      to the empty one. */
  lemma TrimPadded(pre: string, s: string, post: string)
    requires AllSpaces(pre) && AllSpaces(post)
    requires |s| > 0 ==> !IsSpace(s[0]) && !IsSpace(s[|s| - 1])
    ensures Trim(pre + s + post) == s
  {
    var p := pre + s + post;
    if |s| == 0 {
      assert p == pre + post;
      TrimStartSkipsSpaces(pre + post, "");
      assert pre + post + "" == p;
    } else {
      assert p == pre + (s + post);
      TrimStartSkipsSpaces(pre, s + post);
      TrimEndSkipsSpaces(s, post);
    }
  }

  /** Blanks after a string with no space at either end are all that
      stripping removes. */
  lemma TrimDropsTrailingSpaces(s: string, pad: string)
    requires AllSpaces(pad)
    requires |s| > 0 ==> !IsSpace(s[0]) && !IsSpace(s[|s| - 1])
    ensures Trim(s + pad) == s
  {
    TrimPadded("", s, pad);
    assert "" + s + pad == s + pad;
  }

  /** Stripping twice is stripping once. */
  lemma TrimIdempotent(s: string)
    ensures Trim(Trim(s)) == Trim(s)
  {
    TrimOfTrimmed(Trim(s));
  }

  /** `t` occurs in `s` starting at index `i`. */
  predicate OccursAt(s: string, t: string, i: int) {
    0 <= i && i + |t| <= |s| && s[i..i + |t|] == t
  }

  /** JavaScript `s.includes(t)`. */
  function Contains(s: string, t: string): (r: bool)
    ensures r <==> exists i :: OccursAt(s, t, i)
    decreases |s|
  {
    if |t| > |s| then false
    else if s[..|t|] == t then (assert OccursAt(s, t, 0); true)
    else
      var r := Contains(s[1..], t);
      assert forall i :: OccursAt(s[1..], t, i) <==> OccursAt(s, t, i + 1) by {
        forall i ensures OccursAt(s[1..], t, i) <==> OccursAt(s, t, i + 1) {
          if 0 <= i && i + |t| <= |s| - 1 {
            assert s[1..][i..i + |t|] == s[i + 1..i + 1 + |t|];
          }
        }
      }
      assert r ==> exists i :: OccursAt(s, t, i);
      assert (exists i :: OccursAt(s, t, i)) ==> r by {
        if i :| OccursAt(s, t, i) {
          assert i != 0;
          assert OccursAt(s[1..], t, i - 1);
        }
      }
      r
  }

  /** The empty string occurs in every string, so an empty filter matches everything. */
  lemma ContainsEmpty(s: string)
    ensures Contains(s, "")
  {
    assert OccursAt(s, "", 0);
  }

  /** Strict lexicographic order by character, a proper prefix coming first.
      On ASCII text, such as month keys, this is JavaScript's `<`. */
  predicate LexLess(a: string, b: string) {
    if |a| == 0 then |b| > 0
    else if |b| == 0 then false
    else a[0] < b[0] || (a[0] == b[0] && LexLess(a[1..], b[1..]))
  }

  lemma {:induction false} LexIrreflexive(a: string)
    ensures !LexLess(a, a)
  {
    if |a| > 0 {
      LexIrreflexive(a[1..]);
    }
  }

  lemma {:induction false} LexTransitive(a: string, b: string, c: string)
    requires LexLess(a, b) && LexLess(b, c)
    ensures LexLess(a, c)
  {
    if |a| > 0 && |b| > 0 && |c| > 0 && a[0] == b[0] == c[0] {
      LexTransitive(a[1..], b[1..], c[1..]);
    }
  }

  lemma {:induction false} LexTotal(a: string, b: string)
    ensures LexLess(a, b) || a == b || LexLess(b, a)
  {
    if |a| > 0 && |b| > 0 && a[0] == b[0] {
      LexTotal(a[1..], b[1..]);
      if a[1..] == b[1..] {
        assert a == [a[0]] + a[1..] && b == [b[0]] + b[1..];
      }
    }
  }

  /** Comparing two concatenations whose first parts have equal length
      compares the first parts, and the second parts only on a tie. */
  lemma {:induction false} LexAppend(p: string, q: string, s: string, t: string)
    requires |p| == |q|
    ensures LexLess(p + s, q + t) <==> LexLess(p, q) || (p == q && LexLess(s, t))
  {
    if |p| > 0 {
      assert (p + s)[1..] == p[1..] + s && (p + t)[1..] == p[1..] + t;
      assert (q + t)[1..] == q[1..] + t;
      LexAppend(p[1..], q[1..], s, t);
      if p[0] == q[0] && p[1..] == q[1..] {
        assert p == [p[0]] + p[1..] && q == [q[0]] + q[1..];
      }
    } else {
      assert p + s == s && q + t == t;
    }
  }

  /** On fixed-width digit fields the string order is the numeric order. */
  lemma {:induction false} PaddedLess(a: nat, b: nat, width: nat)
    requires a < Pow10(width) && b < Pow10(width)
    ensures LexLess(Padded(a, width), Padded(b, width)) <==> a < b
  {
    if width == 0 {
    } else {
      var pa, pb := Padded(a / 10, width - 1), Padded(b / 10, width - 1);
      var ca, cb := DigitChar(a % 10), DigitChar(b % 10);
      assert Padded(a, width) == pa + [ca] && Padded(b, width) == pb + [cb];
      LexAppend(pa, pb, [ca], [cb]);
      PaddedLess(a / 10, b / 10, width - 1);
      PaddedInjective(a / 10, b / 10, width - 1);
      assert LexLess([ca], [cb]) <==> ca < cb;
      assert ca < cb <==> a % 10 < b % 10;
    }
  }
}
