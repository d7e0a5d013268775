/** The handful of Python string primitives the scraper relies on, as
    CPython defines them (up to the limits listed in README.md):
    `str.strip()`, `str.replace`, `int(text)` in
    base 10, `str(n)` of an integer, zero-padded `strftime` fields, and the
    code-point ordering behind `<` on strings (which is also the order the
    document store uses for a `$lt` filter on a string field). */
module Text {

  datatype Option<+T> = None | Some(value: T)

  // ---------------------------------------------------------------------
  // Whitespace and str.strip()
  // ---------------------------------------------------------------------

  /** The characters for which Python's `str.isspace()` is true. */
  predicate IsSpace(c: char) {
    c == ' ' || ('\t' <= c <= '\r') || ('\U{1c}' <= c <= '\U{1f}')
    || c == '\U{85}' || c == '\U{a0}' || c == '\U{1680}'
    || ('\U{2000}' <= c <= '\U{200a}') || c == '\U{2028}' || c == '\U{2029}'
    || c == '\U{202f}' || c == '\U{205f}' || c == '\U{3000}'
  }

  /** Neither end of `s` is whitespace: `s.strip() == s`. */
  predicate Stripped(s: string) {
    s == [] || (!IsSpace(s[0]) && !IsSpace(s[|s| - 1]))
  }

  predicate AllSpace(s: string) {
    forall k | 0 <= k < |s| :: IsSpace(s[k])
  }

  /** `s.lstrip()`: the suffix of `s` left after dropping leading whitespace. */
  function TrimStart(s: string): (r: string)
    ensures |r| <= |s| && r == s[|s| - |r|..]
    ensures AllSpace(s[..|s| - |r|])
    ensures r == [] || !IsSpace(r[0])
  {
    if s != [] && IsSpace(s[0]) then TrimStart(s[1..]) else s
  }

  /** `s.rstrip()`: the prefix of `s` left after dropping trailing whitespace. */
  function TrimEnd(s: string): (r: string)
    ensures |r| <= |s| && r == s[..|r|]
    ensures AllSpace(s[|r|..])
    ensures r == [] || !IsSpace(r[|r| - 1])
  {
    if s != [] && IsSpace(s[|s| - 1]) then TrimEnd(s[..|s| - 1]) else s
  }

  /** `s.strip()`. */
  function Strip(s: string): (r: string)
    ensures Stripped(r)
    ensures Stripped(s) ==> r == s
  {
    StripEnds(s);
    TrimEnd(TrimStart(s))
  }

  /** `s.strip()` is empty exactly when `s` is blank. */
  lemma StripEmpty(s: string)
    ensures Strip(s) == [] <==> AllSpace(s)
  {
    var t := TrimStart(s);
    var r := TrimEnd(t);
    var n := |s| - |t|;
    if r == [] {
      assert t == [] by {
        assert t[|r|..] == t;
      }
      forall k | 0 <= k < |s| ensures IsSpace(s[k]) {
        assert s[k] == s[..n][k];
      }
    } else {
      assert r[0] == t[0];
      assert t[0] == s[n];
    }
  }

  lemma StripEnds(s: string)
    ensures Stripped(TrimEnd(TrimStart(s)))
    ensures Stripped(s) ==> TrimEnd(TrimStart(s)) == s
  {
    var t := TrimStart(s);
    var r := TrimEnd(t);
    if r != [] {
      assert r[0] == t[0];
    }
  }

  /** Stripping twice is stripping once: `s.strip().strip() == s.strip()`. */
  lemma StripIdempotent(s: string)
    ensures Strip(Strip(s)) == Strip(s)
  {
  }

  /** Whitespace around the text does not change what `strip()` returns. */
  lemma StripPadded(pre: string, s: string, post: string)
    requires AllSpace(pre) && AllSpace(post)
    ensures Strip(pre + s + post) == Strip(s)
  {
    if AllSpace(s) {
      BlankPadded(pre, s, post);
    } else {
      TrimPadded(pre, s, post);
    }
  }

  /** Trailing whitespace alone does not change what `strip()` returns. */
  lemma StripAppended(s: string, post: string)
    requires AllSpace(post)
    ensures Strip(s + post) == Strip(s)
  {
    assert AllSpace([]);
    StripPadded([], s, post);
    assert [] + s + post == s + post;
  }

  lemma BlankPadded(pre: string, s: string, post: string)
    requires AllSpace(pre) && AllSpace(s) && AllSpace(post)
    ensures TrimEnd(TrimStart(pre + s + post)) == []
  {
    AllSpaceConcat(pre, s);
    AllSpaceConcat(pre + s, post);
    StripEmpty(pre + s + post);
  }

  lemma AllSpaceConcat(a: string, b: string)
    requires AllSpace(a) && AllSpace(b)
    ensures AllSpace(a + b)
  {
    var x := a + b;
    forall k | 0 <= k < |x| ensures IsSpace(x[k]) {
      if k < |a| {
        assert x[k] == a[k];
      } else {
        assert x[k] == b[k - |a|];
      }
    }
  }

  lemma TrimPadded(pre: string, s: string, post: string)
    requires AllSpace(pre) && !AllSpace(s) && AllSpace(post)
    ensures TrimEnd(TrimStart(pre + s + post)) == TrimEnd(TrimStart(s))
  {
    var x := pre + s + post;
    TrimStartSpaces(pre, s + post);
    assert x == pre + (s + post);
    var t := TrimStart(s);
    TrimStartAppend(s, post);
    TrimEndSpaces(t, post);
  }

  lemma {:induction false} TrimStartSpaces(pre: string, s: string)
    requires AllSpace(pre)
    ensures TrimStart(pre + s) == TrimStart(s)
  {
    if pre != [] {
      assert (pre + s)[0] == pre[0] && IsSpace(pre[0]);
      assert (pre + s)[1..] == pre[1..] + s;
      assert TrimStart(pre + s) == TrimStart(pre[1..] + s);
      TrimStartSpaces(pre[1..], s);
    } else {
      assert pre + s == s;
    }
  }

  /** Trailing text does not disturb `lstrip()` unless all of `s` is blank. */
  lemma {:induction false} TrimStartAppend(s: string, post: string)
    requires !AllSpace(s)
    ensures TrimStart(s + post) == TrimStart(s) + post
  {
    assert (s + post)[0] == s[0];
    if IsSpace(s[0]) {
      assert (s + post)[1..] == s[1..] + post;
      TrimStartAppend(s[1..], post);
    }
  }

  lemma {:induction false} TrimEndSpaces(s: string, post: string)
    requires AllSpace(post)
    ensures TrimEnd(s + post) == TrimEnd(s)
  {
    if post != [] {
      var p := post[..|post| - 1];
      assert (s + post)[..|s + post| - 1] == s + p;
      TrimEndSpaces(s, p);
    } else {
      assert s + post == s;
    }
  }

  // ---------------------------------------------------------------------
  // str.replace
  // ---------------------------------------------------------------------

  /** `s.replace(pat, rep)`: every non-overlapping occurrence of `pat`,
      scanning left to right, is replaced by `rep`. */
  function ReplaceAll(s: string, pat: string, rep: string): (r: string)
    requires |pat| > 0
    decreases |s|
  {
    if |s| < |pat| then s
    else if s[..|pat|] == pat then rep + ReplaceAll(s[|pat|..], pat, rep)
    else [s[0]] + ReplaceAll(s[1..], pat, rep)
  }

  /** Text in which the pattern cannot start is left as it is. */
  lemma {:induction false} ReplaceAllNoMatch(s: string, pat: string, rep: string)
    requires |pat| > 0
    requires forall k | 0 <= k < |s| :: s[k] != pat[0]
    ensures ReplaceAll(s, pat, rep) == s
    decreases |s|
  {
    if |s| >= |pat| {
      assert s[..|pat|][0] == s[0];
      ReplaceAllNoMatch(s[1..], pat, rep);
    }
  }

  /** A prefix in which the pattern cannot start passes through unchanged. */
  lemma {:induction false} ReplaceAllSkip(a: string, b: string, pat: string, rep: string)
    requires |pat| > 0
    requires forall k | 0 <= k < |a| :: a[k] != pat[0]
    ensures ReplaceAll(a + b, pat, rep) == a + ReplaceAll(b, pat, rep)
    decreases |a|
  {
    if a != [] {
      var s := a + b;
      if |s| >= |pat| {
        assert s[..|pat|][0] == s[0] == a[0];
        assert s[1..] == a[1..] + b;
        ReplaceAllSkip(a[1..], b, pat, rep);
      }
    } else {
      assert a + b == b;
    }
  }

  /** A leading occurrence of the pattern becomes the replacement. */
  lemma ReplaceAllLeading(pat: string, b: string, rep: string)
    requires |pat| > 0
    ensures ReplaceAll(pat + b, pat, rep) == rep + ReplaceAll(b, pat, rep)
  {
    assert (pat + b)[..|pat|] == pat;
    assert (pat + b)[|pat|..] == b;
  }

  /** With a one-character pattern, `replace` works character by character:
      it distributes over concatenation... */
  lemma {:induction false} ReplaceCharAppend(a: string, b: string, c: char, rep: string)
    ensures ReplaceAll(a + b, [c], rep) == ReplaceAll(a, [c], rep) + ReplaceAll(b, [c], rep)
    decreases |a|
  {
    if a != [] {
      assert (a + b)[..1] == a[..1];
      assert (a + b)[1..] == a[1..] + b;
      ReplaceCharAppend(a[1..], b, c, rep);
    } else {
      assert a + b == b;
    }
  }

  /** ...and rewrites each character on its own. */
  lemma ReplaceCharSingle(x: char, c: char, rep: string)
    ensures ReplaceAll([x], [c], rep) == if x == c then rep else [x]
  {
    assert [x][..1] == [x];
  }

  /** Replacing one character by another keeps the length, leaves no
      occurrence of the replaced character, and changes nothing else. */
  lemma {:induction false} ReplaceCharByChar(s: string, c: char, d: char)
    requires c != d
    ensures |ReplaceAll(s, [c], [d])| == |s|
    ensures forall k | 0 <= k < |s| ::
      ReplaceAll(s, [c], [d])[k] == if s[k] == c then d else s[k]
    ensures c !in ReplaceAll(s, [c], [d])
    decreases |s|
  {
    if s != [] {
      assert s == [s[0]] + s[1..];
      ReplaceCharAppend([s[0]], s[1..], c, [d]);
      ReplaceCharSingle(s[0], c, [d]);
      ReplaceCharByChar(s[1..], c, d);
    }
  }

  /** Removing a character leaves no occurrence of it. */
  lemma {:induction false} RemoveCharGone(s: string, c: char)
    ensures c !in ReplaceAll(s, [c], [])
    decreases |s|
  {
    if s != [] {
      assert s == [s[0]] + s[1..];
      ReplaceCharAppend([s[0]], s[1..], c, []);
      ReplaceCharSingle(s[0], c, []);
      RemoveCharGone(s[1..], c);
    }
  }

  // ---------------------------------------------------------------------
  // Decimal digits, str(n) and int(text)
  // ---------------------------------------------------------------------

  predicate IsDigit(c: char) {
    '0' <= c <= '9'
  }

  lemma DigitNotSpace(c: char)
    requires IsDigit(c)
    ensures !IsSpace(c)
  {
  }

  predicate AllDigits(s: string) {
    forall k | 0 <= k < |s| :: IsDigit(s[k])
  }

  predicate DigitsOrUnderscores(s: string) {
    forall k | 0 <= k < |s| :: IsDigit(s[k]) || s[k] == '_'
  }

  /** What Python's int() accepts after the sign: decimal digits, optionally
      separated by single underscores, beginning and ending with a digit. */
  predicate DigitGroups(s: string) {
    && |s| > 0
    && IsDigit(s[0]) && IsDigit(s[|s| - 1])
    && DigitsOrUnderscores(s)
    && forall k | 0 <= k < |s| - 1 :: !(s[k] == '_' && s[k + 1] == '_')
  }

  function DigitChar(d: nat): (c: char)
    requires d < 10
    ensures IsDigit(c) && DigitOf(c) == d
  {
    (48 + d) as char
  }

  function DigitOf(c: char): nat
    requires IsDigit(c)
  {
    c as int - 48
  }

  /** The number a digit string denotes; underscores are skipped. */
  function DecimalValue(s: string): nat
    requires DigitsOrUnderscores(s)
  {
    if s == [] then 0
    else if s[|s| - 1] == '_' then DecimalValue(s[..|s| - 1])
    else 10 * DecimalValue(s[..|s| - 1]) + DigitOf(s[|s| - 1])
  }

  /** `str(n)` for a non-negative integer: shortest decimal form. */
  function NatToString(n: nat): (r: string)
    ensures |r| > 0 && AllDigits(r)
    ensures |r| > 1 ==> r[0] != '0'
  {
    if n < 10 then [DigitChar(n)] else NatToString(n / 10) + [DigitChar(n % 10)]
  }

  /** `str(n)` for any integer. */
  function IntToString(n: int): string {
    if n < 0 then "-" + NatToString(-n) else NatToString(n)
  }

  /** The information separators U+001C to U+001F. `str.isspace()` holds
      for them, but `int()` skips only ASCII whitespace among the ASCII
      characters, so text holding one of them never converts. */
  predicate IsSeparator(c: char) {
    '\U{1c}' <= c <= '\U{1f}'
  }

  predicate NoSeparator(s: string) {
    forall k | 0 <= k < |s| :: !IsSeparator(s[k])
  }

  /** The whitespace `int()` skips around the number. */
  predicate IntSpace(c: char) {
    IsSpace(c) && !IsSeparator(c)
  }

  predicate AllIntSpace(s: string) {
    forall k | 0 <= k < |s| :: IntSpace(s[k])
  }

  /** Python's `int(text)` in base 10: surrounding whitespace other than
      the separators is ignored, then an optional `+` or `-` sign, then
      digit groups. `None` stands for the `ValueError` Python raises on
      anything else. */
  function ParseInt(s: string): Option<int> {
    if NoSeparator(s) then ParseStripped(Strip(s)) else None
  }

  /** What `int()` makes of text that has no surrounding whitespace. */
  function ParseStripped(t: string): Option<int> {
    if |t| > 0 && (t[0] == '+' || t[0] == '-') then
      if DigitGroups(t[1..]) then
        var v: int := DecimalValue(t[1..]);
        Some(if t[0] == '-' then -v else v)
      else None
    else if DigitGroups(t) then Some(DecimalValue(t))
    else None
  }

  lemma {:induction false} DecimalValueOfString(n: nat)
    ensures DecimalValue(NatToString(n)) == n
  {
    if n >= 10 {
      var p := NatToString(n / 10);
      var r := NatToString(n);
      assert r == p + [DigitChar(n % 10)];
      assert r[..|r| - 1] == p;
      DecimalValueOfString(n / 10);
    }
  }

  /** `int(str(n)) == n` for every integer. */
  lemma {:induction false} ParseIntOfString(n: int)
    ensures ParseInt(IntToString(n)) == Some(n)
  {
    if n < 0 {
      ParseIntOfNegative(-n);
    } else {
      ParseIntOfNatural(n);
    }
  }

  lemma {:induction false} ParseIntOfNatural(n: nat)
    ensures ParseInt(NatToString(n)) == Some(n)
  {
    var d := NatToString(n);
    DecimalValueOfString(n);
    ParseIntDigits(d);
  }

  lemma {:induction false} ParseIntOfNegative(m: int)
    requires m > 0
    ensures ParseInt(IntToString(-m)) == Some(-m)
  {
    var d := NatToString(m);
    var s := "-" + d;
    assert IntToString(-m) == s;
    DecimalValueOfString(m);
    DigitsAreGroups(d);
    SignedStripped(d);
    assert NoSeparator(s) by {
      forall k | 0 <= k < |s| ensures !IsSeparator(s[k]) {
        if k > 0 {
          assert s[k] == d[k - 1];
        }
      }
    }
    ParseIntStripped(s);
    ParseStrippedNegative(d);
  }

  /** `int()` of text with no surrounding whitespace does not strip. */
  lemma ParseIntStripped(s: string)
    requires Stripped(s) && NoSeparator(s)
    ensures ParseInt(s) == ParseStripped(s)
  {
  }

  lemma DigitsNoSeparator(d: string)
    requires AllDigits(d)
    ensures NoSeparator(d)
  {
  }

  lemma DigitsAreGroups(d: string)
    requires |d| > 0 && AllDigits(d)
    ensures DigitGroups(d)
  {
  }

  lemma SignedStripped(d: string)
    requires |d| > 0 && AllDigits(d)
    ensures Stripped("-" + d)
  {
    var s := "-" + d;
    DigitNotSpace(d[|d| - 1]);
    assert s[|s| - 1] == d[|d| - 1];
    assert Stripped(s);
  }

  lemma ParseStrippedNegative(d: string)
    requires DigitGroups(d)
    ensures ParseStripped("-" + d) == Some(-(DecimalValue(d) as int))
  {
    assert ("-" + d)[1..] == d;
  }

  /** `int()` ignores whitespace other than the separators around the
      number. */
  lemma ParseIntPadded(pre: string, s: string, post: string)
    requires AllIntSpace(pre) && AllIntSpace(post)
    ensures ParseInt(pre + s + post) == ParseInt(s)
  {
    var t := pre + s + post;
    assert AllSpace(pre) && AllSpace(post);
    StripPadded(pre, s, post);
    if NoSeparator(s) {
      forall k | 0 <= k < |t| ensures !IsSeparator(t[k]) {
        if k < |pre| {
          assert t[k] == pre[k];
        } else if k < |pre| + |s| {
          assert t[k] == s[k - |pre|];
        } else {
          assert t[k] == post[k - |pre| - |s|];
        }
      }
    } else {
      var k :| 0 <= k < |s| && IsSeparator(s[k]);
      assert t[|pre| + k] == s[k];
    }
  }

  /** A separator anywhere makes `int()` raise, even where `strip()` would
      remove it: `int('\x1c5')` raises while `'\x1c5'.strip()` is `'5'`. */
  lemma SeparatorRejected(s: string, k: nat)
    requires k < |s| && IsSeparator(s[k])
    ensures IsSpace(s[k])
    ensures ParseInt(s) == None
  {
  }

  lemma SeparatorPadding(c: char, d: string)
    requires IsSeparator(c) && |d| > 0 && AllDigits(d)
    ensures Strip([c] + d) == d
    ensures ParseInt([c] + d) == None
    ensures ParseInt(d) == Some(DecimalValue(d))
  {
    ParseIntDigits(d);
    assert AllSpace([c]) && AllSpace([]);
    StripPadded([c], d, []);
    assert [c] + d + [] == [c] + d;
    DigitNotSpace(d[0]);
    DigitNotSpace(d[|d| - 1]);
    assert Stripped(d);
    SeparatorRejected([c] + d, 0);
  }

  /** `int()` rejects blank text. */
  lemma ParseIntBlank(s: string)
    requires AllSpace(s)
    ensures ParseInt(s) == None
  {
    StripEmpty(s);
  }

  function Zeros(n: nat): (r: string)
    ensures |r| == n && forall k | 0 <= k < n :: r[k] == '0'
  {
    if n == 0 then [] else Zeros(n - 1) + "0"
  }

  /** An integer as strftime prints it: decimal, left-padded with zeros to at
      least `width` characters. */
  function Padded(n: nat, width: nat): (r: string)
    ensures AllDigits(r) && |r| >= width
    ensures |NatToString(n)| <= width ==> |r| == width
  {
    var d := NatToString(n);
    if |d| < width then Zeros(width - |d|) + d else d
  }

  /** Leading zeros do not change a digit string's value. */
  lemma {:induction false} DecimalValueZeros(z: nat, s: string)
    requires DigitsOrUnderscores(s)
    ensures DigitsOrUnderscores(Zeros(z) + s)
    ensures DecimalValue(Zeros(z) + s) == DecimalValue(s)
    decreases |s|
  {
    var t := Zeros(z) + s;
    if s == [] {
      assert t == Zeros(z);
      ZerosValue(z);
    } else {
      assert t[..|t| - 1] == Zeros(z) + s[..|s| - 1];
      DecimalValueZeros(z, s[..|s| - 1]);
    }
  }

  lemma {:induction false} ZerosValue(z: nat)
    ensures DecimalValue(Zeros(z)) == 0
  {
    if z > 0 {
      var s := Zeros(z);
      assert s == Zeros(z - 1) + "0";
      assert s[..z - 1] == Zeros(z - 1);
      assert s[z - 1] == '0' && DigitOf('0') == 0;
      ZerosValue(z - 1);
      assert DecimalValue(s) == 10 * DecimalValue(s[..z - 1]) + DigitOf(s[z - 1]);
    }
  }

  /** A zero-padded field denotes the number it was printed from. */
  lemma PaddedDecimal(n: nat, width: nat)
    ensures DecimalValue(Padded(n, width)) == n
  {
    var d := NatToString(n);
    DecimalValueOfString(n);
    if |d| < width {
      DecimalValueZeros(width - |d|, d);
    }
  }

  /** Reading back a zero-padded field gives the number: `int('%02d' % n) == n`. */
  lemma PaddedValue(n: nat, width: nat)
    ensures ParseInt(Padded(n, width)) == Some(n)
  {
    PaddedDecimal(n, width);
    ParseIntDigits(Padded(n, width));
  }

  /** `int()` of a run of plain digits is the number they denote. */
  lemma ParseIntDigits(d: string)
    requires |d| > 0 && AllDigits(d)
    ensures ParseInt(d) == Some(DecimalValue(d))
  {
    DigitNotSpace(d[0]);
    DigitNotSpace(d[|d| - 1]);
    assert Stripped(d);
    DigitsNoSeparator(d);
    DigitsAreGroups(d);
  }

  function Pow10(k: nat): (r: nat)
    ensures r >= 1
  {
    if k == 0 then 1 else 10 * Pow10(k - 1)
  }

  /** Decimal place value: digits appended on the right shift the left part. */
  lemma {:induction false} DecimalValueAppend(a: string, b: string)
    requires DigitsOrUnderscores(a) && AllDigits(b)
    ensures DigitsOrUnderscores(a + b)
    ensures DecimalValue(a + b) == DecimalValue(a) * Pow10(|b|) + DecimalValue(b)
    decreases |b|
  {
    if b == [] {
      assert a + b == a;
    } else {
      var b' := b[..|b| - 1];
      var d := DigitOf(b[|b| - 1]);
      assert (a + b)[..|a + b| - 1] == a + b';
      assert (a + b)[|a + b| - 1] == b[|b| - 1];
      DecimalValueAppend(a, b');
      var x, p, y := DecimalValue(a), Pow10(|b'|), DecimalValue(b');
      assert DecimalValue(a + b) == 10 * DecimalValue(a + b') + d;
      assert DecimalValue(b) == 10 * y + d;
      assert Pow10(|b|) == 10 * p;
      ShiftDigit(x, p, y, d);
    }
  }

  lemma ShiftDigit(x: int, p: int, y: int, d: int)
    ensures 10 * (x * p + y) + d == x * (10 * p) + (10 * y + d)
  {
  }

  /** A number below 10^k has at most k digits. */
  lemma {:induction false} NatToStringLength(n: nat, k: nat)
    requires k >= 1 && n < Pow10(k)
    ensures |NatToString(n)| <= k
  {
    if n >= 10 {
      NatToStringLength(n / 10, k - 1);
    }
  }

  // ---------------------------------------------------------------------
  // String ordering
  // ---------------------------------------------------------------------

  /** Python's `a < b` on strings (and the document store's `$lt` on string
      fields): lexicographic by code point, a proper prefix coming first. */
  predicate LexLess(a: string, b: string) {
    if a == [] then b != []
    else if b == [] then false
    else if a[0] != b[0] then a[0] < b[0]
    else LexLess(a[1..], b[1..])
  }

  lemma {:induction false} LexIrreflexive(a: string)
    ensures !LexLess(a, a)
  {
    if a != [] {
      LexIrreflexive(a[1..]);
    }
  }

  lemma {:induction false} LexTransitive(a: string, b: string, c: string)
    requires LexLess(a, b) && LexLess(b, c)
    ensures LexLess(a, c)
  {
    if a != [] && a[0] == b[0] && b[0] == c[0] {
      LexTransitive(a[1..], b[1..], c[1..]);
    }
  }

  lemma {:induction false} LexTotal(a: string, b: string)
    ensures a == b || LexLess(a, b) || LexLess(b, a)
  {
    if a != [] && b != [] && a[0] == b[0] {
      LexTotal(a[1..], b[1..]);
      if a[1..] == b[1..] {
        assert a == [a[0]] + a[1..] && b == [b[0]] + b[1..];
      }
    }
  }

  lemma {:induction false} LexAsymmetric(a: string, b: string)
    requires LexLess(a, b)
    ensures !LexLess(b, a)
  {
    if a != [] && a[0] == b[0] {
      LexAsymmetric(a[1..], b[1..]);
    }
  }

  /** Strings compare on equal-length prefixes first. */
  lemma {:induction false} LexConcat(x1: string, y1: string, x2: string, y2: string)
    requires |x1| == |x2|
    ensures LexLess(x1 + y1, x2 + y2) == if x1 == x2 then LexLess(y1, y2) else LexLess(x1, x2)
  {
    if x1 == [] {
      assert x1 + y1 == y1 && x2 + y2 == y2;
    } else {
      assert (x1 + y1)[0] == x1[0] && (x2 + y2)[0] == x2[0];
      assert (x1 + y1)[1..] == x1[1..] + y1 && (x2 + y2)[1..] == x2[1..] + y2;
      if x1[0] == x2[0] {
        LexConcat(x1[1..], y1, x2[1..], y2);
        assert x1 == x2 <==> x1[1..] == x2[1..] by {
          if x1[1..] == x2[1..] {
            assert x1 == [x1[0]] + x1[1..] && x2 == [x2[0]] + x2[1..];
          }
        }
      }
    }
  }

  lemma {:induction false} DecimalValueBound(s: string)
    requires AllDigits(s)
    ensures DecimalValue(s) < Pow10(|s|)
  {
    if s != [] {
      DecimalValueBound(s[..|s| - 1]);
    }
  }

  lemma PlaceCompare(p: nat, q: nat, u: nat, v: nat, w: nat)
    requires u < w && v < w && p < q
    ensures p * w + u < q * w + v
  {
    assert (p + 1) * w <= q * w;
  }

  /** The leading digit of a digit string carries the highest place value. */
  lemma DecimalValueFront(x: string)
    requires x != [] && AllDigits(x)
    ensures DecimalValue(x) == DigitOf(x[0]) * Pow10(|x| - 1) + DecimalValue(x[1..])
    ensures DecimalValue(x[1..]) < Pow10(|x| - 1)
  {
    var h, t := [x[0]], x[1..];
    assert x == h + t;
    assert h[..0] == [];
    assert DecimalValue(h) == DigitOf(x[0]);
    assert |t| == |x| - 1;
    DecimalValueAppend(h, t);
    DecimalValueBound(t);
  }

  /** On digit strings of one length, string order is numeric order. */
  lemma {:induction false} LexDigits(x: string, y: string)
    requires |x| == |y| && AllDigits(x) && AllDigits(y)
    ensures LexLess(x, y) <==> DecimalValue(x) < DecimalValue(y)
  {
    if x != [] {
      var x', y' := x[1..], y[1..];
      var w := Pow10(|x'|);
      DecimalValueFront(x);
      DecimalValueFront(y);
      var p, q := DigitOf(x[0]), DigitOf(y[0]);
      var u, v := DecimalValue(x'), DecimalValue(y');
      if x[0] == y[0] {
        LexDigits(x', y');
      } else if x[0] < y[0] {
        PlaceCompare(p, q, u, v, w);
      } else {
        PlaceCompare(q, p, v, u, w);
      }
    }
  }

  /** "Not less than" is transitive too. */
  lemma LexNotLessTransitive(a: string, b: string, c: string)
    requires !LexLess(a, b) && !LexLess(b, c)
    ensures !LexLess(a, c)
  {
    LexTotal(a, b);
    LexTotal(b, c);
    if LexLess(b, a) && LexLess(c, b) {
      LexTransitive(c, b, a);
      LexAsymmetric(c, a);
    } else if LexLess(b, a) {
      LexAsymmetric(b, a);
    } else if LexLess(c, b) {
      LexAsymmetric(c, b);
    } else {
      LexIrreflexive(a);
    }
  }
}
