/**
 * The string and number primitives the engine leans on from the Java library:
 * decimal rendering and parsing, String.trim, String.split on one character,
 * Collectors.joining, and Java's fixed-width integer arithmetic.
 */
module Text {
  import opened Wrappers

  // ---------------------------------------------------------------------------
  // Fixed-width integers
  // ---------------------------------------------------------------------------

  const TWO_31: int := 0x8000_0000
  const TWO_32: int := 0x1_0000_0000
  const TWO_63: int := 0x8000_0000_0000_0000
  const TWO_64: int := 0x1_0000_0000_0000_0000

  predicate IsInt32(x: int) {
    -TWO_31 <= x < TWO_31
  }

  predicate IsInt64(x: int) {
    -TWO_63 <= x < TWO_63
  }

  /** A Java `int` result: the low 32 bits of x read as a signed number (the `(int)` cast of a long). */
  function ToInt32(x: int): (r: int)
    ensures IsInt32(r)
    ensures IsInt32(x) ==> r == x
    ensures (x - r) % TWO_32 == 0
  {
    (x + TWO_31) % TWO_32 - TWO_31
  }

  /** A Java `long` result: the low 64 bits of x read as a signed number (long overflow). */
  function Wrap64(x: int): (r: int)
    ensures IsInt64(r)
    ensures IsInt64(x) ==> r == x
    ensures (x - r) % TWO_64 == 0
  {
    (x + TWO_63) % TWO_64 - TWO_63
  }

  lemma ToInt32Periodic(x: int, k: int)
    ensures ToInt32(x + k * TWO_32) == ToInt32(x)
  {
    assert (x + k * TWO_32 + TWO_31) % TWO_32 == (x + TWO_31) % TWO_32;
  }

  lemma Wrap64Periodic(x: int, k: int)
    ensures Wrap64(x + k * TWO_64) == Wrap64(x)
  {
    assert (x + k * TWO_64 + TWO_63) % TWO_64 == (x + TWO_63) % TWO_64;
  }

  /** Casting a wrapped long to int gives the same int as casting the exact value: 2^32 divides 2^64. */
  lemma ToInt32OfWrap64(x: int)
    ensures ToInt32(Wrap64(x)) == ToInt32(x)
  {
    var k := (x - Wrap64(x)) / TWO_64;
    assert Wrap64(x) == x - k * TWO_64;
    ToInt32Periodic(x, -k * 0x1_0000_0000);
    assert x - k * TWO_64 == x + (-k * 0x1_0000_0000) * TWO_32;
  }

  /** Accumulating in a long: wrapping after every addition equals wrapping once at the end. */
  lemma Wrap64Add(a: int, b: int)
    ensures Wrap64(Wrap64(a) + b) == Wrap64(a + b)
  {
    var k := (a - Wrap64(a)) / TWO_64;
    assert Wrap64(a) + b == a + b + (-k) * TWO_64;
    Wrap64Periodic(a + b, -k);
  }

  /** Multiplying in a long: wrapping after every product equals wrapping once at the end. */
  lemma Wrap64Mul(a: int, b: int)
    ensures Wrap64(Wrap64(a) * b) == Wrap64(a * b)
  {
    var k := (a - Wrap64(a)) / TWO_64;
    assert Wrap64(a) == a - k * TWO_64;
    assert Wrap64(a) * b == a * b - (k * TWO_64) * b;
    assert (k * TWO_64) * b == (k * b) * TWO_64;
    Wrap64Periodic(a * b, -(k * b));
  }

  // ---------------------------------------------------------------------------
  // Decimal digits
  // ---------------------------------------------------------------------------

  predicate IsDigit(c: char) {
    '0' <= c <= '9'
  }

  predicate AllDigits(s: string) {
    forall k :: 0 <= k < |s| ==> IsDigit(s[k])
  }

  function DigitChar(d: nat): (c: char)
    requires d < 10
    ensures IsDigit(c)
  {
    ('0' as int + d) as char
  }

  function DigitValue(c: char): (d: nat)
    requires IsDigit(c)
    ensures d < 10
  {
    c as int - '0' as int
  }

  /** The decimal digits of n, most significant first, without leading zeros. */
  function NatToString(n: nat): (s: string)
    ensures |s| > 0 && AllDigits(s)
  {
    if n < 10 then [DigitChar(n)] else NatToString(n / 10) + [DigitChar(n % 10)]
  }

  /** Integer.toString and Long.toString: decimal digits, preceded by '-' when negative. */
  function IntToString(i: int): (s: string)
    ensures |s| > 0
    ensures forall k :: 0 <= k < |s| ==> IsDigit(s[k]) || s[k] == '-'
  {
    if i < 0 then "-" + NatToString(-i) else NatToString(i)
  }

  function DigitsValue(s: string): nat
    requires AllDigits(s)
  {
    if s == [] then 0 else DigitsValue(s[..|s| - 1]) * 10 + DigitValue(s[|s| - 1])
  }

  /**
   * The syntax Integer.parseInt and Long.parseLong accept, before the range
   * check: an optional '+' or '-' followed by at least one decimal digit.
   */
  function ParseDecimal(s: string): Option<int> {
    if |s| > 0 && (s[0] == '-' || s[0] == '+') then
      if |s| > 1 && AllDigits(s[1..]) then
        var v: int := DigitsValue(s[1..]);
        Some(if s[0] == '-' then -v else v)
      else None
    else if |s| > 0 && AllDigits(s) then Some(DigitsValue(s))
    else None
  }

  /** Integer.parseInt: None where Java throws NumberFormatException. */
  function ParseInt(s: string): (r: Option<int>)
    ensures r.Some? <==> ParseDecimal(s).Some? && IsInt32(ParseDecimal(s).value)
    ensures r.Some? ==> r.value == ParseDecimal(s).value
  {
    match ParseDecimal(s)
    case Some(v) => if IsInt32(v) then Some(v) else None
    case None => None
  }

  /** Long.parseLong: None where Java throws NumberFormatException. */
  function ParseLong(s: string): (r: Option<int>)
    ensures r.Some? <==> ParseDecimal(s).Some? && IsInt64(ParseDecimal(s).value)
    ensures r.Some? ==> r.value == ParseDecimal(s).value
  {
    match ParseDecimal(s)
    case Some(v) => if IsInt64(v) then Some(v) else None
    case None => None
  }

  lemma {:induction false} NatToStringRoundTrip(n: nat)
    ensures DigitsValue(NatToString(n)) == n
  {
    if n >= 10 {
      var s := NatToString(n);
      assert s[..|s| - 1] == NatToString(n / 10);
      NatToStringRoundTrip(n / 10);
      assert DigitValue(DigitChar(n % 10)) == n % 10;
    } else {
      assert DigitValue(DigitChar(n)) == n;
    }
  }

  /** Rendering an integer in decimal and parsing it back gives the integer. */
  lemma IntToStringRoundTrip(i: int)
    ensures ParseDecimal(IntToString(i)) == Some(i)
  {
    var s := IntToString(i);
    if i < 0 {
      assert s[1..] == NatToString(-i);
      NatToStringRoundTrip(-i);
    } else {
      NatToStringRoundTrip(i);
    }
  }

  lemma ParseIntOfIntToString(i: int)
    requires IsInt32(i)
    ensures ParseInt(IntToString(i)) == Some(i)
  {
    IntToStringRoundTrip(i);
  }

  lemma ParseLongOfIntToString(i: int)
    requires IsInt64(i)
    ensures ParseLong(IntToString(i)) == Some(i)
  {
    IntToStringRoundTrip(i);
  }

  lemma IntToStringInjective(a: int, b: int)
    ensures IntToString(a) == IntToString(b) ==> a == b
  {
    IntToStringRoundTrip(a);
    IntToStringRoundTrip(b);
  }

  /** A decimal rendering contains no character other than digits and '-'. */
  lemma IntToStringAvoids(i: int, c: char)
    requires !IsDigit(c) && c != '-'
    ensures c !in IntToString(i)
  {
  }

  // ---------------------------------------------------------------------------
  // String.trim
  // ---------------------------------------------------------------------------

  function TrimStart(s: string): (r: string)
    ensures |r| <= |s| && r == s[|s| - |r|..]
    ensures forall k :: 0 <= k < |s| - |r| ==> s[k] <= ' '
    ensures r == [] || r[0] > ' '
  {
    if |s| > 0 && s[0] <= ' ' then TrimStart(s[1..]) else s
  }

  function TrimEnd(s: string): (r: string)
    ensures |r| <= |s| && r == s[..|r|]
    ensures forall k :: |r| <= k < |s| ==> s[k] <= ' '
    ensures r == [] || r[|r| - 1] > ' '
  {
    if |s| > 0 && s[|s| - 1] <= ' ' then TrimEnd(s[..|s| - 1]) else s
  }

  /** String.trim: removes every leading and trailing character at or below U+0020. */
  function Trim(s: string): string {
    TrimEnd(TrimStart(s))
  }

  predicate Unpadded(s: string) {
    s == [] || (s[0] > ' ' && s[|s| - 1] > ' ')
  }

  lemma TrimUnpadded(s: string)
    requires Unpadded(s)
    ensures Trim(s) == s
  {
  }

  lemma TrimAfterSpace(s: string)
    requires Unpadded(s)
    ensures Trim(" " + s) == s
  {
    assert (" " + s)[1..] == s;
  }

  // ---------------------------------------------------------------------------
  // String.split on one character, Collectors.joining
  // ---------------------------------------------------------------------------

  /** Every field of s between occurrences of c, empty fields included. */
  function SplitAll(s: string, c: char): (r: seq<string>)
    ensures |r| > 0
    ensures forall k :: 0 <= k < |r| ==> c !in r[k]
  {
    if s == [] then [""]
    else
      var rest := SplitAll(s[1..], c);
      if s[0] == c then [""] + rest else [[s[0]] + rest[0]] + rest[1..]
  }

  function StripTrailingEmpty(parts: seq<string>): (r: seq<string>)
    ensures |r| <= |parts| && r == parts[..|r|]
    ensures r == [] || r[|r| - 1] != ""
    ensures forall k :: |r| <= k < |parts| ==> parts[k] == ""
  {
    if parts != [] && parts[|parts| - 1] == "" then StripTrailingEmpty(parts[..|parts| - 1]) else parts
  }

  /**
   * String.split with a one-character separator: a string without the
   * separator is its only field; otherwise every field, trailing empty fields dropped.
   */
  function Split(s: string, c: char): seq<string> {
    if c !in s then [s] else StripTrailingEmpty(SplitAll(s, c))
  }

  /** Collectors.joining(sep): the parts in order with sep between neighbours and nowhere else. */
  function Join(parts: seq<string>, sep: string): string {
    if |parts| == 0 then ""
    else if |parts| == 1 then parts[0]
    else parts[0] + sep + Join(parts[1..], sep)
  }

  lemma {:induction false} SplitAllNoSeparator(a: string, c: char)
    requires c !in a
    ensures SplitAll(a, c) == [a]
  {
    if a != [] {
      SplitAllNoSeparator(a[1..], c);
      assert [a[0]] + a[1..] == a;
    }
  }

  lemma {:induction false} SplitAllAfterField(a: string, b: string, c: char)
    requires c !in a
    ensures SplitAll(a + [c] + b, c) == [a] + SplitAll(b, c)
  {
    var s := a + [c] + b;
    if a == [] {
      assert s[1..] == b;
    } else {
      assert s[1..] == a[1..] + [c] + b;
      SplitAllAfterField(a[1..], b, c);
      assert [a[0]] + a[1..] == a;
    }
  }

  /**
   * Splitting a joined list at the separator's first character gives back the
   * parts, each after the first carrying the rest of the separator (pad) in front.
   */
  lemma {:induction false} SplitAllJoin(parts: seq<string>, c: char, pad: string, p: string)
    requires |parts| > 0
    requires c !in p && c !in pad
    requires forall k :: 0 <= k < |parts| ==> c !in parts[k]
    ensures |SplitAll(p + Join(parts, [c] + pad), c)| == |parts|
    ensures SplitAll(p + Join(parts, [c] + pad), c)[0] == p + parts[0]
    ensures forall k :: 1 <= k < |parts| ==> SplitAll(p + Join(parts, [c] + pad), c)[k] == pad + parts[k]
  {
    if |parts| == 1 {
      SplitAllNoSeparator(p + parts[0], c);
    } else {
      var rest := Join(parts[1..], [c] + pad);
      assert p + Join(parts, [c] + pad) == (p + parts[0]) + [c] + (pad + rest);
      SplitAllAfterField(p + parts[0], pad + rest, c);
      SplitAllJoin(parts[1..], c, pad, pad);
      FieldsCons(p + parts[0], SplitAll(pad + rest, c), parts, pad);
    }
  }

  /** A first field in front of the fields pad + parts[1], pad + parts[2], ... */
  lemma FieldsCons(first: string, tail: seq<string>, parts: seq<string>, pad: string)
    requires |parts| > 1 && |tail| == |parts| - 1
    requires forall k :: 1 <= k < |parts[1..]| ==> tail[k] == pad + parts[1..][k]
    requires tail[0] == pad + parts[1..][0]
    ensures |[first] + tail| == |parts| && ([first] + tail)[0] == first
    ensures forall k :: 1 <= k < |parts| ==> ([first] + tail)[k] == pad + parts[k]
  {
    forall k | 1 <= k < |parts|
      ensures ([first] + tail)[k] == pad + parts[k]
    {
      assert parts[1..][k - 1] == parts[k];
    }
  }

  /** Split keeps every field of SplitAll when the string holds the separator and its last field is not empty. */
  lemma SplitKeepsAll(s: string, c: char)
    requires c in s && SplitAll(s, c)[|SplitAll(s, c)| - 1] != ""
    ensures Split(s, c) == SplitAll(s, c)
  {
  }

  /**
   * Splitting "f0<c><pad>f1<c><pad>f2..." at c gives f0, pad+f1, pad+f2, ...
   * when no field holds c or is empty.
   */
  lemma {:induction false} SplitJoined(fs: seq<string>, c: char, pad: string)
    requires c !in pad
    requires |fs| >= 1 && forall k :: 0 <= k < |fs| ==> c !in fs[k] && fs[k] != ""
    ensures |Split(Join(fs, [c] + pad), c)| == |fs|
    ensures Split(Join(fs, [c] + pad), c)[0] == fs[0]
    ensures forall k :: 1 <= k < |fs| ==> Split(Join(fs, [c] + pad), c)[k] == pad + fs[k]
  {
    var sep := [c] + pad;
    var line := Join(fs, sep);
    SplitAllJoin(fs, c, pad, "");
    assert "" + line == line;
    assert "" + fs[0] == fs[0];
    if |fs| == 1 {
      assert line == fs[0];
    } else {
      JoinContains(fs, sep, c);
      SplitKeepsAll(line, c);
    }
  }

  lemma {:induction false} JoinAvoids(parts: seq<string>, sep: string, c: char)
    requires c !in sep
    requires forall k :: 0 <= k < |parts| ==> c !in parts[k]
    ensures c !in Join(parts, sep)
  {
    if |parts| > 1 {
      JoinAvoids(parts[1..], sep, c);
    }
  }

  lemma JoinContains(parts: seq<string>, sep: string, c: char)
    requires |parts| > 1 && sep != [] && sep[0] == c
    ensures c in Join(parts, sep)
  {
    assert Join(parts, sep)[|parts[0]|] == c;
  }

  // ---------------------------------------------------------------------------
  // Whitespace-separated words (String.split("\\s+") on a trimmed string)
  // ---------------------------------------------------------------------------

  /** The characters the regular expression class \s matches: space, \t, \n, \u000B, \f, \r. */
  predicate IsWhitespace(c: char) {
    c == ' ' || 9 <= c as int <= 13
  }

  function LeadingWord(s: string): (w: string)
    ensures |w| <= |s| && w == s[..|w|]
    ensures forall k :: 0 <= k < |w| ==> !IsWhitespace(w[k])
    ensures |w| < |s| ==> IsWhitespace(s[|w|])
    ensures s != [] && !IsWhitespace(s[0]) ==> |w| > 0
  {
    if s == [] || IsWhitespace(s[0]) then [] else [s[0]] + LeadingWord(s[1..])
  }

  /** The maximal runs of non-whitespace characters of s, in order. */
  function Words(s: string): (ws: seq<string>)
    ensures forall k :: 0 <= k < |ws| ==> ws[k] != []
    ensures forall k, j :: 0 <= k < |ws| && 0 <= j < |ws[k]| ==> !IsWhitespace(ws[k][j])
    decreases |s|
  {
    if s == [] then []
    else if IsWhitespace(s[0]) then Words(s[1..])
    else
      var w := LeadingWord(s);
      [w] + Words(s[|w|..])
  }

  lemma {:induction false} LeadingWordOf(w: string, rest: string)
    requires forall k :: 0 <= k < |w| ==> !IsWhitespace(w[k])
    requires rest == [] || IsWhitespace(rest[0])
    ensures LeadingWord(w + rest) == w
  {
    if w != [] {
      assert (w + rest)[1..] == w[1..] + rest;
      LeadingWordOf(w[1..], rest);
      assert [w[0]] + w[1..] == w;
    }
  }

  /** Joining words with single spaces and splitting at whitespace gives the words back. */
  lemma {:induction false} WordsOfJoin(ws: seq<string>)
    requires forall k :: 0 <= k < |ws| ==> ws[k] != []
    requires forall k, j :: 0 <= k < |ws| && 0 <= j < |ws[k]| ==> !IsWhitespace(ws[k][j])
    ensures Words(Join(ws, " ")) == ws
  {
    if |ws| == 1 {
      var s := Join(ws, " ");
      assert s == ws[0] + "";
      LeadingWordOf(ws[0], "");
      assert s[|ws[0]|..] == [];
      assert !IsWhitespace(s[0]) by { assert s[0] == ws[0][0]; }
    } else if |ws| > 1 {
      var s := Join(ws, " ");
      var tail := Join(ws[1..], " ");
      assert s == ws[0] + (" " + tail);
      LeadingWordOf(ws[0], " " + tail);
      assert !IsWhitespace(s[0]) by { assert s[0] == ws[0][0]; }
      assert s[|ws[0]|..] == " " + tail;
      assert (" " + tail)[1..] == tail;
      WordsOfJoin(ws[1..]);
      assert [ws[0]] + ws[1..] == ws;
    }
  }

  // ---------------------------------------------------------------------------
  // Prefixes, suffixes, searching, case
  // ---------------------------------------------------------------------------

  predicate StartsWith(s: string, prefix: string) {
    |prefix| <= |s| && s[..|prefix|] == prefix
  }

  predicate EndsWith(s: string, suffix: string) {
    |suffix| <= |s| && s[|s| - |suffix|..] == suffix
  }

  /** String.indexOf(c): the first position of c, or -1. */
  function IndexOf(s: string, c: char): (r: int)
    ensures -1 <= r < |s|
    ensures r == -1 <==> c !in s
    ensures r >= 0 ==> s[r] == c && c !in s[..r]
  {
    if s == [] then -1
    else if s[0] == c then 0
    else
      var k := IndexOf(s[1..], c);
      assert k >= 0 ==> s[..k + 1] == [s[0]] + s[1..][..k];
      if k == -1 then -1 else k + 1
  }

  /** String.lastIndexOf(c): the last position of c, or -1. */
  function LastIndexOf(s: string, c: char): (r: int)
    ensures -1 <= r < |s|
    ensures r == -1 <==> c !in s
    ensures r >= 0 ==> s[r] == c && c !in s[r + 1..]
  {
    if s == [] then -1
    else if s[|s| - 1] == c then |s| - 1
    else
      var k := LastIndexOf(s[..|s| - 1], c);
      assert s[..|s| - 1] + [s[|s| - 1]] == s;
      k
  }

  /** Character.toUpperCase restricted to ASCII letters. */
  function UpperChar(c: char): char {
    if 'a' <= c <= 'z' then (c as int - 32) as char else c
  }

  /** String.toUpperCase restricted to ASCII letters: same length, each character upper-cased. */
  function ToUpper(s: string): (r: string)
    ensures |r| == |s|
    ensures forall k :: 0 <= k < |s| ==> r[k] == UpperChar(s[k])
  {
    seq(|s|, k requires 0 <= k < |s| => UpperChar(s[k]))
  }
}
