/** Characters and strings as the scripts' JavaScript sees them: the `\s`
    class, `String.prototype.trim`, `startsWith`/`endsWith`/`includes`, ASCII
    case folding for the `/i` file-name filters, and `Array.prototype.join`. */
module Text {

  datatype Option<T> = None | Some(value: T)

  /** The code points of JavaScript's `\s` (WhiteSpace and LineTerminator),
      numbered 0 to 24; `trim` removes the same set. */
  function SpaceCode(k: nat): int {
    if k == 0 then 0x20
    else if k <= 5 then 0x08 + k                  // \t \n \v \f \r
    else if k == 6 then 0xA0
    else if k == 7 then 0x1680
    else if k <= 18 then 0x2000 + (k - 8)         // U+2000 .. U+200A
    else if k == 19 then 0x2028
    else if k == 20 then 0x2029
    else if k == 21 then 0x202F
    else if k == 22 then 0x205F
    else if k == 23 then 0x3000
    else 0xFEFF
  }

  const SPACE_COUNT := 25

  /** `code` is one of the space codes numbered `k` or above. */
  predicate SpaceFrom(code: int, k: nat)
    decreases SPACE_COUNT - k
  {
    k < SPACE_COUNT && (SpaceCode(k) == code || SpaceFrom(code, k + 1))
  }

  predicate IsSpace(c: char) {
    SpaceFrom(c as int, 0)
  }

  lemma {:induction false} SpaceFromAbove(code: int, k: nat)
    requires 6 <= k && code < 0xA0
    decreases SPACE_COUNT - k
    ensures !SpaceFrom(code, k)
  {
    if k < SPACE_COUNT {
      SpaceFromAbove(code, k + 1);
    }
  }

  /** Below U+00A0 the whitespace characters are the space and `\t` to `\r`. */
  lemma AsciiSpace(c: char)
    requires c as int < 0xA0
    ensures IsSpace(c) <==> c == ' ' || '\t' <= c <= '\r'
  {
    var code := c as int;
    SpaceFromAbove(code, 6);
    assert SpaceFrom(code, 5) <==> code == 0x0D;
    assert SpaceFrom(code, 4) <==> code == 0x0C || code == 0x0D;
    assert SpaceFrom(code, 3) <==> 0x0B <= code <= 0x0D;
    assert SpaceFrom(code, 2) <==> 0x0A <= code <= 0x0D;
    assert SpaceFrom(code, 1) <==> 0x09 <= code <= 0x0D;
  }

  /** Splitting the first element off the left operand of a concatenation. */
  lemma ConsAppend<T>(a: seq<T>, x: seq<T>)
    requires a != []
    ensures (a + x)[0] == a[0] && (a + x)[1..] == a[1..] + x
    ensures [a[0]] + (a[1..] + x) == a + x
  {
    assert a == [a[0]] + a[1..];
  }

  /** Every element of a suffix is an element of the whole. */
  lemma InSuffix<T>(a: seq<T>, k: nat)
    requires k <= |a|
    ensures forall c :: c in a[k..] ==> c in a
  {
  }

  /** Drops the leading run of whitespace; what is left is a suffix of `s`. */
  function SkipSpaces(s: string): (r: string)
    ensures |r| <= |s|
    ensures r == [] || !IsSpace(r[0])
    ensures forall i :: 0 <= i < |s| - |r| ==> IsSpace(s[i])
  {
    if s != [] && IsSpace(s[0]) then SkipSpaces(s[1..]) else s
  }

  /** What `SkipSpaces` leaves is a suffix of its argument. */
  lemma {:induction false} SkipSpacesSuffix(s: string)
    ensures SkipSpaces(s) == s[|s| - |SkipSpaces(s)|..]
  {
    if s != [] && IsSpace(s[0]) {
      SkipSpacesSuffix(s[1..]);
    }
  }

  /** Drops the trailing run of whitespace; what is left is a prefix of `s`. */
  function TrimEnd(s: string): (r: string)
    ensures |r| <= |s| && r == s[..|r|]
    ensures r == [] || !IsSpace(r[|r| - 1])
    ensures forall i :: |r| <= i < |s| ==> IsSpace(s[i])
  {
    if s != [] && IsSpace(s[|s| - 1]) then TrimEnd(s[..|s| - 1]) else s
  }

  /** `String.prototype.trim`. */
  function Trim(s: string): string {
    TrimEnd(SkipSpaces(s))
  }

  predicate StartsWith(s: string, prefix: string) {
    |prefix| <= |s| && s[..|prefix|] == prefix
  }

  predicate EndsWith(s: string, suffix: string) {
    |suffix| <= |s| && s[|s| - |suffix|..] == suffix
  }

  /** `String.prototype.includes`: some position of `s` starts with `part`. */
  predicate Contains(s: string, part: string)
    decreases |s|
  {
    StartsWith(s, part) || (s != [] && Contains(s[1..], part))
  }

  function ToLowerChar(c: char): char {
    if 'A' <= c <= 'Z' then (c as int + 32) as char else c
  }

  /** Case folding as a non-unicode `/i` regular expression applies it to names
      that end in ASCII letters: only `A`..`Z` map to `a`..`z`. */
  function ToLower(s: string): (r: string)
    ensures |r| == |s|
    ensures forall i :: 0 <= i < |s| ==> r[i] == ToLowerChar(s[i])
  {
    seq(|s|, i requires 0 <= i < |s| => ToLowerChar(s[i]))
  }

  /** Lowering commutes with taking a suffix. */
  lemma LowerSuffix(s: string, i: nat)
    requires i <= |s|
    ensures ToLower(s[i..]) == ToLower(s)[i..]
  {
    var a, b := ToLower(s[i..]), ToLower(s)[i..];
    forall j | 0 <= j < |a|
      ensures a[j] == b[j]
    {
      assert s[i..][j] == s[i + j];
    }
  }

  /** A name whose lowered form ends in `e` ends in a part that lowers to `e`. */
  lemma LowerEnding(s: string, e: string)
    requires EndsWith(ToLower(s), e)
    ensures ToLower(s[|s| - |e|..]) == e
  {
    var l, i := ToLower(s), |s| - |e|;
    assert l[i..] == e;
    LowerSuffix(s, i);
  }

  /** The elements of `xs` that `keep` accepts, in their original order. */
  function Filter<T>(xs: seq<T>, keep: T -> bool): (r: seq<T>)
    ensures |r| <= |xs|
  {
    if xs == [] then []
    else (if keep(xs[0]) then [xs[0]] else []) + Filter(xs[1..], keep)
  }

  /** `Filter` keeps exactly the accepted elements: everything it returns
      comes from `xs` and is accepted, and every accepted element of `xs`
      is returned. */
  lemma {:induction false} FilterSelects<T>(xs: seq<T>, keep: T -> bool)
    ensures forall x :: x in Filter(xs, keep) <==> x in xs && keep(x)
  {
    if xs != [] {
      FilterSelects(xs[1..], keep);
      InSuffix(xs, 1);
      assert xs == [xs[0]] + xs[1..];
    }
  }

  lemma {:induction false} FilterAppend<T>(a: seq<T>, b: seq<T>, keep: T -> bool)
    ensures Filter(a + b, keep) == Filter(a, keep) + Filter(b, keep)
  {
    if a == [] {
      assert a + b == b;
    } else {
      var head := if keep(a[0]) then [a[0]] else [];
      assert (a + b)[0] == a[0];
      assert (a + b)[1..] == a[1..] + b;
      FilterAppend(a[1..], b, keep);
      assert Filter(a + b, keep) == head + (Filter(a[1..], keep) + Filter(b, keep));
      assert head + (Filter(a[1..], keep) + Filter(b, keep)) == (head + Filter(a[1..], keep)) + Filter(b, keep);
    }
  }

  /** `Array.prototype.join(sep)`. */
  function JoinWith(parts: seq<string>, sep: string): string {
    if parts == [] then ""
    else if |parts| == 1 then parts[0]
    else parts[0] + sep + JoinWith(parts[1..], sep)
  }

  /** A substring's characters all occur in the string that contains it. */
  lemma {:induction false} ContainsChars(s: string, part: string)
    requires Contains(s, part)
    decreases |s|
    ensures forall c :: c in part ==> c in s
  {
    if StartsWith(s, part) {
      assert forall c :: c in part ==> c in s[..|part|];
    } else {
      ContainsChars(s[1..], part);
      InSuffix(s, 1);
    }
  }

  /** `part` found at position `k` of `s` means `s` includes it. */
  lemma {:induction false} ContainsAt(s: string, part: string, k: nat)
    requires k + |part| <= |s| && s[k..k + |part|] == part
    decreases k
    ensures Contains(s, part)
  {
    if k > 0 {
      assert s[1..][k - 1..k - 1 + |part|] == s[k..k + |part|];
      ContainsAt(s[1..], part, k - 1);
    }
  }

  predicate IsDigit(c: char) {
    '0' <= c <= '9'
  }

  function DigitValue(c: char): nat
    requires IsDigit(c)
  {
    c as int - '0' as int
  }

  function DigitChar(d: nat): (c: char)
    requires d < 10
    ensures IsDigit(c) && DigitValue(c) == d
  {
    ('0' as int + d) as char
  }

  /** `String(n)` for a non-negative integer: its decimal digits, most
      significant first, without leading zeros. */
  function Decimal(n: nat): (r: string)
    ensures r != [] && forall i :: 0 <= i < |r| ==> IsDigit(r[i])
  {
    if n < 10 then [DigitChar(n)] else Decimal(n / 10) + [DigitChar(n % 10)]
  }

  /** The number a string of decimal digits denotes. */
  function DecimalValue(s: string): nat
    requires forall i :: 0 <= i < |s| ==> IsDigit(s[i])
  {
    if s == [] then 0 else DecimalValue(s[..|s| - 1]) * 10 + DigitValue(s[|s| - 1])
  }

  /** Reading back the digits of `Decimal(n)` gives `n`; so distinct numbers
      have distinct decimal strings. */
  lemma {:induction false} DecimalRoundTrip(n: nat)
    ensures DecimalValue(Decimal(n)) == n
  {
    if n >= 10 {
      var r := Decimal(n);
      assert r[..|r| - 1] == Decimal(n / 10);
      DecimalRoundTrip(n / 10);
    }
  }
}
