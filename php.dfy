/**
  * The pieces of PHP and SQL behaviour that the four admin endpoints lean on:
  * optional request fields, `empty()`, the pincode regular expression,
  * `LIKE '%term%'`, `strtolower`, `pathinfo(..., PATHINFO_EXTENSION)`,
  * `str_pad(..., STR_PAD_LEFT)` and `ORDER BY` on strings.
  */
module Php {

  /** A request field or a nullable column: None is "not set" / NULL. */
  datatype Option<T> = None | Some(value: T) {
    function GetOr(default: T): T {
      if Some? then value else default
    }
  }

  /** The JSON envelope of every endpoint: a payload on success; on failure a
      message and, for the staff validator, the list of violations. */
  datatype Reply<T> = Ok(value: T) | Err(message: string, errors: seq<string>)

  function Fail<T>(message: string): Reply<T> {
    Err(message, [])
  }

  /** PHP's `empty()` on a string: both "" and "0" are empty. */
  predicate Empty(s: string) {
    s == "" || s == "0"
  }

  /** `isset($x) && !empty($x)` on a field that may be absent; also PHP's
      truthiness of a nullable string such as a stored picture path. */
  predicate Given(field: Option<string>) {
    field.Some? && !Empty(field.value)
  }

  /** `empty($id)` on an id that the endpoints then cast to an integer: absent,
      "" and "0" are all empty, and the two strings both denote 0. */
  predicate IdMissing(id: Option<int>) {
    id.None? || id.value == 0
  }

  predicate IsDigit(c: char) {
    '0' <= c <= '9'
  }

  function AllDigits(s: string): (b: bool)
    ensures b <==> forall i :: 0 <= i < |s| ==> IsDigit(s[i])
  {
    if s == [] then true else IsDigit(s[0]) && AllDigits(s[1..])
  }

  /** `preg_match('/^\d{6}$/', $s)` (also written `^[0-9]{6}$`). */
  predicate SixDigits(s: string) {
    |s| == 6 && AllDigits(s)
  }

  /** s begins with prefix. */
  predicate StartsWith(s: string, prefix: string) {
    |prefix| <= |s| && s[..|prefix|] == prefix
  }

  /** s ends with suffix. */
  predicate EndsWith(s: string, suffix: string) {
    |suffix| <= |s| && s[|s| - |suffix|..] == suffix
  }

  /** A concatenation starts with its first part and ends with its last. */
  lemma AffixesOfConcat(prefix: string, middle: string, suffix: string)
    ensures StartsWith(prefix + middle + suffix, prefix) && EndsWith(prefix + middle + suffix, suffix)
  {
    var s := prefix + middle + suffix;
    assert s[..|prefix|] == prefix;
    assert s[|s| - |suffix|..] == suffix;
  }

  /** needle occurs in haystack starting at index i. */
  predicate OccursAt(haystack: string, needle: string, i: int) {
    0 <= i <= |haystack| - |needle| && haystack[i..i + |needle|] == needle
  }

  /** `haystack LIKE '%needle%'`, with `%` and `_` in the needle taken literally
      and without case folding: the needle occurs somewhere in the haystack. */
  function Contains(haystack: string, needle: string): (b: bool)
    ensures b <==> exists i :: OccursAt(haystack, needle, i)
    decreases |haystack|
  {
    if |needle| > |haystack| then false
    else if haystack[..|needle|] == needle then assert OccursAt(haystack, needle, 0); true
    else
      OccursInTail(haystack, needle);
      Contains(haystack[1..], needle)
  }

  lemma OccursInTail(haystack: string, needle: string)
    requires haystack != [] && (|needle| > |haystack| || haystack[..|needle|] != needle)
    ensures forall i :: OccursAt(haystack, needle, i) ==> OccursAt(haystack[1..], needle, i - 1)
    ensures forall j :: OccursAt(haystack[1..], needle, j) ==> OccursAt(haystack, needle, j + 1)
  {
    forall i | OccursAt(haystack, needle, i) ensures OccursAt(haystack[1..], needle, i - 1) {
      assert haystack[1..][i - 1..i - 1 + |needle|] == haystack[i..i + |needle|];
    }
    forall j | OccursAt(haystack[1..], needle, j) ensures OccursAt(haystack, needle, j + 1) {
      assert haystack[1..][j..j + |needle|] == haystack[j + 1..j + 1 + |needle|];
    }
  }

  function LowerChar(c: char): char {
    if 'A' <= c <= 'Z' then (c as int + 32) as char else c
  }

  /** `strtolower`: ASCII letters only. */
  function Lower(s: string): (r: string)
    ensures |r| == |s|
    ensures forall i :: 0 <= i < |s| ==> r[i] == LowerChar(s[i])
  {
    if s == [] then [] else [LowerChar(s[0])] + Lower(s[1..])
  }

  /** The part of s after its last occurrence of c; all of s when c does not occur. */
  function AfterLast(s: string, c: char): (r: string)
    ensures c !in r
    ensures |r| <= |s| && r == s[|s| - |r|..]
    ensures |r| < |s| ==> s[|s| - |r| - 1] == c
  {
    if s == [] then []
    else if s[|s| - 1] == c then []
    else AfterLast(s[..|s| - 1], c) + [s[|s| - 1]]
  }

  /** `pathinfo($name, PATHINFO_EXTENSION)` of an uploaded file's name (PHP has
      already removed any directory part): the text after the last '.', or ""
      when the name has no '.'. */
  function Extension(name: string): (e: string)
    ensures '.' !in e
    ensures '.' in name ==> |e| < |name| && name == name[..|name| - |e| - 1] + "." + e
    ensures '.' !in name ==> e == ""
  {
    if '.' in name then AfterLast(name, '.') else ""
  }

  /** The extension of `base.ext` is ext, whatever base holds, as long as ext
      has no '.' of its own. */
  lemma ExtensionOfJoin(base: string, ext: string)
    requires '.' !in ext
    ensures Extension(base + "." + ext) == ext
  {
    var s := base + "." + ext;
    assert s[|s| - |ext| - 1] == '.';
    var r := AfterLast(s, '.');
    assert |r| == |ext|;
    assert r == s[|s| - |ext|..] == ext;
  }

  /** strtolower never introduces a '.'. */
  lemma LowerKeepsNoDot(s: string)
    requires '.' !in s
    ensures '.' !in Lower(s)
  {
    forall i | 0 <= i < |s|
      ensures Lower(s)[i] != '.'
    {
      assert s[i] != '.';
    }
  }

  function DigitChar(d: nat): (c: char)
    requires d < 10
    ensures IsDigit(c)
  {
    ('0' as int + d) as char
  }

  /** The number a string of decimal digits denotes (most significant first). */
  function DigitsValue(s: string): nat
    requires AllDigits(s)
  {
    if s == [] then 0 else DigitsValue(s[..|s| - 1]) * 10 + (s[|s| - 1] as int - '0' as int)
  }

  /** The decimal representation PHP gives an integer converted to a string. */
  function Decimal(n: nat): (s: string)
    ensures 1 <= |s| && AllDigits(s) && DigitsValue(s) == n
  {
    if n < 10 then [DigitChar(n)]
    else
      var s := Decimal(n / 10) + [DigitChar(n % 10)];
      assert s[..|s| - 1] == Decimal(n / 10);
      s
  }

  function Pow10(k: nat): nat {
    if k == 0 then 1 else 10 * Pow10(k - 1)
  }

  lemma {:induction false} DecimalLength(n: nat, k: nat)
    requires 1 <= k && n < Pow10(k)
    ensures |Decimal(n)| <= k
  {
    if n >= 10 {
      assert k >= 2;
      DecimalLength(n / 10, k - 1);
    }
  }

  /** Leading zeros do not change the number a digit string denotes. */
  lemma {:induction false} LeadingZeroValue(s: string)
    requires AllDigits(s)
    ensures AllDigits("0" + s) && DigitsValue("0" + s) == DigitsValue(s)
  {
    if s != [] {
      var t := "0" + s;
      assert t[..|t| - 1] == "0" + s[..|s| - 1];
      LeadingZeroValue(s[..|s| - 1]);
    }
  }

  /** `str_pad($s, $width, '0', STR_PAD_LEFT)`. */
  function ZeroPad(s: string, width: nat): (r: string)
    requires AllDigits(s)
    ensures |r| == if |s| < width then width else |s|
    ensures AllDigits(r) && DigitsValue(r) == DigitsValue(s)
    decreases width - |s|
  {
    if |s| >= width then s
    else
      LeadingZeroValue(s);
      ZeroPad("0" + s, width)
  }

  /** `str_pad(rand(0, 999999), 6, '0', STR_PAD_LEFT)` for the drawn number n. */
  function PadPin(n: nat): (pin: string)
    requires n <= 999999
    ensures SixDigits(pin) && DigitsValue(pin) == n
  {
    DecimalLength(n, 6);
    ZeroPad(Decimal(n), 6)
  }

  /** `ORDER BY` on strings, compared character by character; a proper prefix
      sorts first. */
  predicate LessEq(a: string, b: string) {
    a == [] || (b != [] && (a[0] < b[0] || (a[0] == b[0] && LessEq(a[1..], b[1..]))))
  }

  lemma {:induction false} LessEqTotal(a: string, b: string)
    ensures LessEq(a, b) || LessEq(b, a)
  {
    if a != [] && b != [] && a[0] == b[0] {
      LessEqTotal(a[1..], b[1..]);
    }
  }

  lemma {:induction false} LessEqTransitive(a: string, b: string, c: string)
    ensures LessEq(a, b) && LessEq(b, c) ==> LessEq(a, c)
  {
    if a != [] && b != [] && c != [] {
      LessEqTransitive(a[1..], b[1..], c[1..]);
    }
  }

  lemma {:induction false} LessEqAntisymmetric(a: string, b: string)
    ensures LessEq(a, b) && LessEq(b, a) ==> a == b
  {
    if a != [] && b != [] {
      LessEqAntisymmetric(a[1..], b[1..]);
    }
  }
}
