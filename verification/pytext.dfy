/** The Python string built-ins the segmentation code relies on:
    `str.strip()`, `str.endswith`, `s.split("/")[-1]`, `int(s)` and `str(n)`. */
module PyText {
  import opened Wrappers

  /** Python's `str.isspace` for a single character. */
  predicate IsSpace(c: char) {
    || ('\t' <= c <= '\r')
    || ('\U{1C}' <= c <= '\U{1F}')
    || c == ' ' || c == '\U{85}' || c == '\U{A0}' || c == '\U{1680}'
    || ('\U{2000}' <= c <= '\U{200A}')
    || c == '\U{2028}' || c == '\U{2029}' || c == '\U{202F}' || c == '\U{205F}' || c == '\U{3000}'
  }

  predicate AllSpace(s: string) {
    forall i :: 0 <= i < |s| ==> IsSpace(s[i])
  }

  lemma AllSpaceConcat(a: string, b: string)
    requires AllSpace(a) && AllSpace(b)
    ensures AllSpace(a + b)
  {
    forall i | 0 <= i < |a + b| ensures IsSpace((a + b)[i]) {
      if i < |a| { assert (a + b)[i] == a[i]; } else { assert (a + b)[i] == b[i - |a|]; }
    }
  }

  /** `s.lstrip()`: the longest suffix of `s` that does not start with whitespace. */
  function LStrip(s: string): (r: string)
    ensures |r| <= |s| && r == s[|s| - |r|..]
    ensures AllSpace(s[..|s| - |r|])
    ensures r == [] || !IsSpace(r[0])
  {
    if |s| > 0 && IsSpace(s[0]) then
      var t := s[1..];
      var r := LStrip(t);
      LStripStep(s, t, r);
      r
    else s
  }

  /** Whatever `lstrip` leaves of `s[1..]` it leaves of `s` when `s[0]` is whitespace. */
  lemma LStripStep(s: string, t: string, r: string)
    requires |s| > 0 && IsSpace(s[0]) && t == s[1..]
    requires |r| <= |t| && r == t[|t| - |r|..]
    requires AllSpace(t[..|t| - |r|])
    ensures |r| <= |s| && r == s[|s| - |r|..]
    ensures AllSpace(s[..|s| - |r|])
  {
    assert s[|s| - |r|..] == t[|t| - |r|..];
    assert s[..|s| - |r|] == [s[0]] + t[..|t| - |r|];
    AllSpaceConcat([s[0]], t[..|t| - |r|]);
  }

  /** `s.rstrip()`: the longest prefix of `s` that does not end with whitespace. */
  function RStrip(s: string): (r: string)
    ensures |r| <= |s| && r == s[..|r|]
    ensures AllSpace(s[|r|..])
    ensures r == [] || !IsSpace(r[|r| - 1])
  {
    if |s| > 0 && IsSpace(s[|s| - 1]) then
      var p := s[..|s| - 1];
      var r := RStrip(p);
      RStripStep(s, p, r);
      r
    else s
  }

  /** Whatever `rstrip` leaves of `s` without its last character it leaves of
      `s` when that character is whitespace. */
  lemma RStripStep(s: string, p: string, r: string)
    requires |s| > 0 && IsSpace(s[|s| - 1]) && p == s[..|s| - 1]
    requires |r| <= |p| && r == p[..|r|]
    requires AllSpace(p[|r|..])
    ensures |r| <= |s| && r == s[..|r|]
    ensures AllSpace(s[|r|..])
  {
    assert s[..|r|] == p[..|r|];
    assert s[|r|..] == p[|r|..] + [s[|s| - 1]];
    AllSpaceConcat(p[|r|..], [s[|s| - 1]]);
  }

  /** `r` sits in `s` at offset `i` with nothing but whitespace around it. */
  predicate Margins(s: string, i: nat, r: string) {
    && i + |r| <= |s|
    && r == s[i..i + |r|]
    && AllSpace(s[..i])
    && AllSpace(s[i + |r|..])
  }

  /** `s.strip()`: `s` with leading and trailing whitespace removed — the
      text after the whitespace `lstrip` drops, up to the whitespace `rstrip`
      drops. */
  function Strip(s: string): (r: string)
    ensures Margins(s, |s| - |LStrip(s)|, r)
    ensures r == [] || (!IsSpace(r[0]) && !IsSpace(r[|r| - 1]))
  {
    var l := LStrip(s);
    var r := RStrip(l);
    StripMargins(s, l, r);
    r
  }

  /** Whitespace stripped from the front and then from the back leaves margins
      on both sides and text that neither starts nor ends with whitespace. */
  lemma StripMargins(s: string, l: string, r: string)
    requires |l| <= |s| && l == s[|s| - |l|..] && AllSpace(s[..|s| - |l|])
    requires l == [] || !IsSpace(l[0])
    requires |r| <= |l| && r == l[..|r|] && AllSpace(l[|r|..])
    requires r == [] || !IsSpace(r[|r| - 1])
    ensures Margins(s, |s| - |l|, r)
    ensures r == [] || (!IsSpace(r[0]) && !IsSpace(r[|r| - 1]))
  {
    var i := |s| - |l|;
    assert s[i..i + |r|] == r by {
      forall j | 0 <= j < |r| ensures s[i..i + |r|][j] == r[j] {
        assert r[j] == l[j] == s[i + j];
      }
    }
    assert s[i + |r|..] == l[|r|..] by {
      forall j | 0 <= j < |l| - |r| ensures s[i + |r|..][j] == l[|r|..][j] {
        assert l[|r| + j] == s[i + |r| + j];
      }
    }
    assert Margins(s, i, r);
    if r != [] {
      assert r[0] == l[0];
    }
  }

  /** Dropping a whitespace prefix in front of text that does not start with
      whitespace is what `lstrip` does. */
  lemma {:induction false} LStripSpacePrefix(a: string, t: string)
    requires AllSpace(a)
    requires t == [] || !IsSpace(t[0])
    ensures LStrip(a + t) == t
    decreases |a|
  {
    if a != [] {
      assert (a + t)[1..] == a[1..] + t;
      LStripSpacePrefix(a[1..], t);
    }
  }

  /** Dropping a whitespace suffix behind text that does not end with
      whitespace is what `rstrip` does. */
  lemma {:induction false} RStripSpaceSuffix(t: string, c: string)
    requires AllSpace(c)
    requires t == [] || !IsSpace(t[|t| - 1])
    ensures RStrip(t + c) == t
    decreases |c|
  {
    if c != [] {
      assert (t + c)[..|t + c| - 1] == t + c[..|c| - 1];
      RStripSpaceSuffix(t, c[..|c| - 1]);
    }
  }

  /** Whatever sits between whitespace margins and neither starts nor ends with
      whitespace is exactly what `strip` returns. */
  lemma StripUnique(a: string, b: string, c: string)
    requires AllSpace(a) && AllSpace(c)
    requires b == [] || (!IsSpace(b[0]) && !IsSpace(b[|b| - 1]))
    ensures Strip(a + b + c) == b
  {
    if b == [] {
      assert a + b + c == a + c;
    } else {
      assert a + b + c == a + (b + c);
      LStripSpacePrefix(a, b + c);
      RStripSpaceSuffix(b, c);
    }
  }

  /** Stripping twice changes nothing. */
  lemma StripIdempotent(s: string)
    ensures Strip(Strip(s)) == Strip(s)
  {
    var r := Strip(s);
    StripUnique([], r, []);
    assert [] + r + [] == r;
  }

  predicate EndsWith(s: string, suffix: string) {
    |suffix| <= |s| && s[|s| - |suffix|..] == suffix
  }

  /** `s.split("/")[-1]`: the text after the last slash, or all of `s` when it has none. */
  function LastSegment(s: string): (r: string)
    ensures '/' !in r
    ensures |r| <= |s| && r == s[|s| - |r|..]
    ensures |r| < |s| ==> s[|s| - |r| - 1] == '/'
  {
    if |s| == 0 || s[|s| - 1] == '/' then []
    else
      var p := s[..|s| - 1];
      var q := LastSegment(p);
      LastSegmentStep(s, p, q);
      q + [s[|s| - 1]]
  }

  /** One more character that is not a slash extends the last segment. */
  lemma LastSegmentStep(s: string, p: string, q: string)
    requires |s| > 0 && s[|s| - 1] != '/' && p == s[..|s| - 1]
    requires '/' !in q
    requires |q| <= |p| && q == p[|p| - |q|..]
    requires |q| < |p| ==> p[|p| - |q| - 1] == '/'
    ensures var r := q + [s[|s| - 1]];
      && '/' !in r
      && |r| <= |s| && r == s[|s| - |r|..]
      && (|r| < |s| ==> s[|s| - |r| - 1] == '/')
  {
    var r := q + [s[|s| - 1]];
    forall i | 0 <= i < |r| ensures r[i] != '/' {
      if i < |q| { assert r[i] == q[i]; }
    }
    assert s[|s| - |r|..] == p[|p| - |q|..] + [s[|s| - 1]];
    if |r| < |s| {
      assert s[|s| - |r| - 1] == p[|p| - |q| - 1];
    }
  }

  /** Appending a slash and a slash-free name to any path yields that name back. */
  lemma {:induction false} LastSegmentOfPath(dir: string, name: string)
    requires '/' !in name
    ensures LastSegment(dir + "/" + name) == name
    decreases |name|
  {
    var s := dir + "/" + name;
    if name != [] {
      var last := name[|name| - 1];
      assert last in name;
      assert s[..|s| - 1] == dir + "/" + name[..|name| - 1];
      LastSegmentOfPath(dir, name[..|name| - 1]);
      assert name == name[..|name| - 1] + [last];
    }
  }

  predicate IsDigit(c: char) {
    '0' <= c <= '9'
  }

  function DigitValue(c: char): nat
    requires IsDigit(c)
  {
    (c as int) - ('0' as int)
  }

  /** The digit part `int()` accepts in base 10: digits, with single underscores
      allowed between two digits. */
  predicate IsDecimal(b: string) {
    && |b| > 0
    && IsDigit(b[0])
    && IsDigit(b[|b| - 1])
    && (forall i :: 0 <= i < |b| ==> IsDigit(b[i]) || b[i] == '_')
    && Separated(b)
  }

  /** No two neighbouring characters are both non-digits. */
  predicate Separated(b: string) {
    |b| < 2 || ((IsDigit(b[0]) || IsDigit(b[1])) && Separated(b[1..]))
  }

  lemma {:induction false} DigitsSeparated(b: string)
    requires forall i :: 0 <= i < |b| ==> IsDigit(b[i])
    ensures Separated(b)
    decreases |b|
  {
    if |b| >= 2 {
      assert forall i :: 0 <= i < |b| - 1 ==> b[1..][i] == b[i + 1];
      DigitsSeparated(b[1..]);
    }
  }

  /** The value of a digit string, underscores skipped. */
  function DecimalValue(b: string): nat
    requires forall i :: 0 <= i < |b| ==> IsDigit(b[i]) || b[i] == '_'
  {
    if |b| == 0 then 0
    else if b[|b| - 1] == '_' then DecimalValue(b[..|b| - 1])
    else 10 * DecimalValue(b[..|b| - 1]) + DigitValue(b[|b| - 1])
  }

  /** The only characters a text `int()` accepts may hold: digits and
      underscores, a sign in front, and a digit at the end. */
  predicate Numeral(s: string) {
    && |s| > 0
    && IsDigit(s[|s| - 1])
    && forall i :: 0 <= i < |s| ==> IsDigit(s[i]) || s[i] == '_' || (i == 0 && (s[i] == '-' || s[i] == '+'))
  }

  /** `int(s)` for a string with no surrounding whitespace. */
  function ParseInt(s: string): (r: Result<int>)
    ensures r.Err? ==> r.error == InvalidLiteral(s)
    ensures r.Ok? ==> |s| > 0 && (IsDigit(s[0]) || s[0] == '-' || s[0] == '+')
    ensures r.Ok? && r.value < 0 ==> s[0] == '-'
  {
    var signed := |s| > 0 && (s[0] == '-' || s[0] == '+');
    var body := if signed then s[1..] else s;
    if !IsDecimal(body) then Err(InvalidLiteral(s))
    else
      var magnitude: int := DecimalValue(body);
      Ok(if signed && s[0] == '-' then -magnitude else magnitude)
  }

  /** `int()` raises for any text holding a character other than a digit,
      an underscore or a leading sign, and for one that does not end in a digit. */
  lemma ParseIntRejects(s: string)
    ensures !Numeral(s) ==> ParseInt(s) == Err(InvalidLiteral(s))
  {
    if ParseInt(s).Ok? {
      var signed := |s| > 0 && (s[0] == '-' || s[0] == '+');
      var body := if signed then s[1..] else s;
      assert IsDecimal(body);
      forall i | 0 <= i < |s| ensures IsDigit(s[i]) || s[i] == '_' || (i == 0 && (s[i] == '-' || s[i] == '+')) {
        if signed && i > 0 {
          assert s[i] == body[i - 1];
        }
      }
      assert s[|s| - 1] == body[|body| - 1];
    }
  }

  function DigitChar(d: nat): (c: char)
    requires d < 10
    ensures IsDigit(c) && DigitValue(c) == d
  {
    "0123456789"[d]
  }

  /** The decimal digits of `n`, most significant first, with no leading zero. */
  function NatToString(n: nat): (r: string)
    ensures |r| > 0
    ensures forall i :: 0 <= i < |r| ==> IsDigit(r[i])
    ensures r[0] == '0' ==> r == "0"
    ensures r == "0" <==> n == 0
  {
    if n < 10 then [DigitChar(n)]
    else
      var r := NatToString(n / 10) + [DigitChar(n % 10)];
      assert r[0] == NatToString(n / 10)[0];
      r
  }

  /** The form `str()` gives an integer: an optional minus sign, then digits
      with no leading zero, and no minus sign in front of zero. */
  predicate Canonical(s: string) {
    var digits := if |s| > 0 && s[0] == '-' then s[1..] else s;
    && |digits| > 0
    && (forall i :: 0 <= i < |digits| ==> IsDigit(digits[i]))
    && (digits[0] == '0' ==> digits == "0")
    && (digits == "0" ==> s == "0")
  }

  /** `str(n)` for an integer. */
  function IntToString(n: int): (r: string)
    ensures |r| > 0 && (r[0] == '-' <==> n < 0)
    ensures '/' !in r
    ensures !IsSpace(r[0]) && !IsSpace(r[|r| - 1])
  {
    if n < 0 then "-" + NatToString(-n) else NatToString(n)
  }

  /** `str(n)` is in canonical form. */
  lemma IntToStringCanonical(n: int)
    ensures Canonical(IntToString(n))
  {
    if n < 0 {
      assert IntToString(n)[1..] == NatToString(-n);
    }
  }

  lemma {:induction false} NatToStringValue(n: nat)
    ensures IsDecimal(NatToString(n)) && DecimalValue(NatToString(n)) == n
  {
    var s := NatToString(n);
    DigitsSeparated(s);
    if n >= 10 {
      NatToStringValue(n / 10);
      assert s[..|s| - 1] == NatToString(n / 10);
    }
  }

  /** `int(str(n)) == n`. */
  lemma ParseIntRoundTrip(n: int)
    ensures ParseInt(IntToString(n)) == Ok(n)
  {
    if n < 0 {
      NegativeRoundTrip(n);
    } else {
      NaturalRoundTrip(n);
    }
  }

  lemma NegativeRoundTrip(n: int)
    requires n < 0
    ensures ParseInt(IntToString(n)) == Ok(n)
  {
    var digits := NatToString(-n);
    NatToStringValue(-n);
    ParseIntNegative(digits, -n);
    assert IntToString(n) == "-" + digits;
  }

  lemma NaturalRoundTrip(n: nat)
    ensures ParseInt(IntToString(n)) == Ok(n)
  {
    var digits := NatToString(n);
    assert IntToString(n) == digits;
    NatToStringValue(n);
    ParseIntUnsigned(digits);
  }

  lemma ParseIntUnsigned(digits: string)
    requires IsDecimal(digits)
    ensures ParseInt(digits) == Ok(DecimalValue(digits))
  {
  }

  lemma ParseIntNegative(digits: string, m: nat)
    requires IsDecimal(digits) && DecimalValue(digits) == m
    ensures ParseInt("-" + digits) == Ok(-(m as int))
  {
    assert ("-" + digits)[1..] == digits;
  }

  lemma ParseIntPositive(digits: string)
    requires IsDecimal(digits)
    ensures ParseInt("+" + digits) == Ok(DecimalValue(digits))
  {
    assert ("+" + digits)[1..] == digits;
  }

  /** A digit string whose value is zero is all zeros. */
  lemma {:induction false} ZeroValue(p: string)
    requires forall i :: 0 <= i < |p| ==> IsDigit(p[i])
    requires DecimalValue(p) == 0
    ensures forall i :: 0 <= i < |p| ==> p[i] == '0'
    decreases |p|
  {
    if |p| > 0 {
      var init := p[..|p| - 1];
      assert forall i :: 0 <= i < |init| ==> init[i] == p[i];
      ZeroValue(init);
    }
  }

  lemma DigitCharValue(c: char)
    requires IsDigit(c)
    ensures DigitChar(DigitValue(c)) == c
  {
  }

  /** A digit string without a leading zero is the one `NatToString` gives its value. */
  lemma {:induction false} DigitsUnique(p: string)
    requires |p| > 0 && forall i :: 0 <= i < |p| ==> IsDigit(p[i])
    requires p[0] == '0' ==> |p| == 1
    ensures p == NatToString(DecimalValue(p))
    decreases |p|
  {
    var last := p[|p| - 1];
    DigitCharValue(last);
    if |p| > 1 {
      var init := p[..|p| - 1];
      assert forall i :: 0 <= i < |init| ==> init[i] == p[i];
      DigitsUnique(init);
      var m := DecimalValue(p);
      assert m == 10 * DecimalValue(init) + DigitValue(last);
      if DecimalValue(init) == 0 {
        ZeroValue(init);
      }
      assert m / 10 == DecimalValue(init) && m % 10 == DigitValue(last);
      assert p == init + [last];
    }
  }

  /** The only canonical text `int()` reads as `n` is `str(n)`. */
  lemma CanonicalUnique(s: string, n: int)
    requires Canonical(s) && ParseInt(s) == Ok(n)
    ensures s == IntToString(n)
  {
    if s[0] == '-' {
      CanonicalNegative(s, n);
    } else {
      CanonicalNatural(s, n);
    }
  }

  lemma CanonicalNegative(s: string, n: int)
    requires Canonical(s) && ParseInt(s) == Ok(n) && s[0] == '-'
    ensures s == IntToString(n)
  {
    var digits := s[1..];
    assert s == "-" + digits;
    DigitsUnique(digits);
    var m := DecimalValue(digits);
    assert n == -(m as int);
    if m == 0 {
      ZeroValue(digits);
    }
    assert IntToString(n) == "-" + NatToString(m);
  }

  lemma CanonicalNatural(s: string, n: int)
    requires Canonical(s) && ParseInt(s) == Ok(n) && s[0] != '-'
    ensures s == IntToString(n)
  {
    DigitsUnique(s);
    assert n == DecimalValue(s);
  }
}
