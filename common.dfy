/**
 * Shared vocabulary: optional values, the C library's character classes in the
 * "C" locale, and the decimal/hexadecimal renderings that printf produces.
 */
module Common {

  datatype Option<T> = None | Some(value: T)

  /** An unsigned char */
  type Byte = x: int | 0 <= x < 256

  /** The elements of s, last first */
  function Reversed<T>(s: seq<T>): (r: seq<T>)
    ensures |r| == |s| && forall i :: 0 <= i < |s| ==> r[i] == s[|s| - 1 - i]
  {
    seq(|s|, i requires 0 <= i < |s| => s[|s| - 1 - i])
  }

  // ---------------------------------------------------------------------------
  // <ctype.h> in the "C" locale

  /** isspace: space, \t, \n, \v, \f, \r */
  predicate IsSpace(c: char) {
    c == ' ' || ('\t' <= c <= '\r')
  }

  predicate IsDigit(c: char) {
    '0' <= c <= '9'
  }

  predicate IsLower(c: char) {
    'a' <= c <= 'z'
  }

  predicate IsUpper(c: char) {
    'A' <= c <= 'Z'
  }

  predicate IsAlpha(c: char) {
    IsLower(c) || IsUpper(c)
  }

  /** ispunct: printable ASCII that is neither alphanumeric nor a space */
  predicate IsPunct(c: char) {
    ('!' <= c <= '/') || (':' <= c <= '@') || ('[' <= c <= '`') || ('{' <= c <= '~')
  }

  /** tolower applied to an unsigned char, as an int */
  function ToLower(c: char): (r: int)
    ensures IsUpper(c) ==> r == c as int + 32
    ensures !IsUpper(c) ==> r == c as int
    ensures r == 0 <==> c == '\0'
  {
    if IsUpper(c) then c as int + 32 else c as int
  }

  /** A C string: every character is a non-NUL unsigned char. */
  predicate IsCString(s: seq<char>) {
    forall i :: 0 <= i < |s| ==> 0 < s[i] as int < 256
  }

  /** The character at position i of a NUL-terminated buffer: past the end reads the terminator. */
  function At(s: seq<char>, i: nat): char {
    if i < |s| then s[i] else '\0'
  }

  // ---------------------------------------------------------------------------
  // printf conversions

  function DigitChar(d: nat): (c: char)
    requires d < 10
    ensures IsDigit(c)
  {
    ('0' as int + d) as char
  }

  /** "%u" of a natural number */
  function NatToDecimal(n: nat): (s: string)
    ensures |s| >= 1
    ensures forall i :: 0 <= i < |s| ==> IsDigit(s[i])
    decreases n
  {
    if n < 10 then [DigitChar(n)] else NatToDecimal(n / 10) + [DigitChar(n % 10)]
  }

  /** "%d" of an integer */
  function IntToDecimal(x: int): (s: string)
    ensures |s| >= 1
    ensures x >= 0 ==> s == NatToDecimal(x)
    ensures x < 0 ==> s == "-" + NatToDecimal(-x)
  {
    if x < 0 then "-" + NatToDecimal(-x) else NatToDecimal(x)
  }

  /** The value of a string of decimal digits */
  function DecimalValue(s: string): nat
    requires forall i :: 0 <= i < |s| ==> IsDigit(s[i])
  {
    if s == [] then 0 else DecimalValue(s[..|s| - 1]) * 10 + DigitValue(s[|s| - 1])
  }

  function DigitValue(c: char): (d: nat)
    requires IsDigit(c)
    ensures d < 10 && DigitChar(d) == c
  {
    c as int - '0' as int
  }

  lemma {:induction false} DecimalRoundTrip(n: nat)
    ensures DecimalValue(NatToDecimal(n)) == n
    decreases n
  {
    var s := NatToDecimal(n);
    if n >= 10 {
      DecimalRoundTrip(n / 10);
      assert s[..|s| - 1] == NatToDecimal(n / 10);
    }
  }

  /** A lower-case hexadecimal digit, as `%x` prints them */
  predicate IsHexDigit(c: char) {
    IsDigit(c) || 'a' <= c <= 'f'
  }

  function HexDigitValue(c: char): (d: nat)
    requires IsHexDigit(c)
    ensures d < 16
  {
    if IsDigit(c) then c as int - '0' as int else c as int - 'a' as int + 10
  }

  function HexDigit(d: nat): (c: char)
    requires d < 16
    ensures IsHexDigit(c) && HexDigitValue(c) == d
  {
    if d < 10 then DigitChar(d) else ('a' as int + (d - 10)) as char
  }

  /** The value of a string of hexadecimal digits */
  function HexValue(s: string): nat
    requires forall i :: 0 <= i < |s| ==> IsHexDigit(s[i])
  {
    if s == [] then 0 else HexValue(s[..|s| - 1]) * 16 + HexDigitValue(s[|s| - 1])
  }

  /** "%0<width>x": lower-case hexadecimal, zero padded to at least `width` digits, that reads back as n */
  function Hex(n: nat, width: nat): (s: string)
    ensures |s| >= width
    ensures forall i :: 0 <= i < |s| ==> IsHexDigit(s[i])
    ensures HexValue(s) == n
    decreases width + n
  {
    if n < 16 && width <= 1 then [HexDigit(n)]
    else
      var p := Hex(n / 16, if width == 0 then 0 else width - 1);
      assert (p + [HexDigit(n % 16)])[..|p|] == p;
      p + [HexDigit(n % 16)]
  }

  // ---------------------------------------------------------------------------
  // Cursors over a NUL-terminated buffer

  /** The cursor after a run of isspace characters */
  function SkipSpaces(buf: seq<char>, p: nat): (q: nat)
    requires p <= |buf|
    ensures p <= q <= |buf| && !IsSpace(At(buf, q))
    decreases |buf| - p
  {
    if IsSpace(At(buf, p)) then SkipSpaces(buf, p + 1) else p
  }

  /** Everything skipped is blank. */
  lemma {:induction false} SkippedBlank(buf: seq<char>, p: nat, k: nat)
    requires p <= |buf| && p <= k < SkipSpaces(buf, p)
    ensures IsSpace(buf[k])
    decreases |buf| - p
  {
    if k > p {
      SkippedBlank(buf, p + 1, k);
    }
  }

  /** A `while (isspace (buf[*ptr])) (*ptr)++;` loop */
  method SkipWhitespace(buf: seq<char>, ptr: nat) returns (q: nat)
    requires ptr <= |buf|
    ensures q == SkipSpaces(buf, ptr)
  {
    q := ptr;
    while IsSpace(At(buf, q))
      invariant ptr <= q <= |buf| && SkipSpaces(buf, ptr) == SkipSpaces(buf, q)
      decreases |buf| - q
    {
      q := q + 1;
    }
  }

  /** d occurs in buf at p */
  predicate IsAt(buf: seq<char>, p: nat, d: string) {
    p + |d| <= |buf| && forall k :: 0 <= k < |d| ==> buf[p + k] == d[k]
  }

  lemma IsAtChar(buf: seq<char>, p: nat, d: string, k: nat)
    requires IsAt(buf, p, d) && k < |d|
    ensures p + k < |buf| && buf[p + k] == d[k]
  {
  }

  /** Where x + y occurs, x occurs and y follows it. */
  lemma IsAtSplit(buf: seq<char>, p: nat, x: string, y: string)
    requires IsAt(buf, p, x + y)
    ensures IsAt(buf, p, x) && IsAt(buf, p + |x|, y)
  {
    forall k | 0 <= k < |x|
      ensures buf[p + k] == x[k]
    {
      assert (x + y)[k] == x[k];
    }
    forall k | 0 <= k < |y|
      ensures buf[p + |x| + k] == y[k]
    {
      assert (x + y)[|x| + k] == y[k];
    }
  }

  /** A buffer holds itself at 0. */
  lemma IsAtWhole(buf: seq<char>)
    ensures IsAt(buf, 0, buf)
  {
  }

  /** A buffer built as x + y holds x at 0. */
  lemma IsAtStart(x: string, y: string)
    ensures IsAt(x + y, 0, x)
  {
    forall k | 0 <= k < |x|
      ensures (x + y)[k] == x[k]
    {
    }
  }

  /** Where d occurs, the slice of that length is d. */
  lemma IsAtSlice(buf: seq<char>, p: nat, d: string)
    requires p <= |buf| && IsAt(buf, p, d)
    ensures p + |d| <= |buf| && buf[p..p + |d|] == d
  {
    assert forall k :: 0 <= k < |d| ==> buf[p..p + |d|][k] == d[k];
  }
}
