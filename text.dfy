/** The JavaScript string operations the host app relies on, stated over `seq<char>`:
    indexOf, split and join on one separator character, decimal and hexadecimal numerals
    (template literals, Number.prototype.toString(16), sprintf's "%08x"), parseInt's
    leading-digit parse, toLowerCase on ASCII letters, and the ASCII part of
    TextEncoder.encodeInto and TextDecoder.decode. */
module Text {
  import opened Base

  // ---------------------------------------------------------------------------
  // indexOf, split, join

  /** String.prototype.indexOf for one character: its first index, or -1. */
  function IndexOf(s: string, c: char): (r: int)
    ensures -1 <= r < |s|
    ensures r == -1 <==> c !in s
    ensures r >= 0 ==> s[r] == c && c !in s[..r]
  {
    if |s| == 0 then -1
    else if s[0] == c then 0
    else
      var k := IndexOf(s[1..], c);
      if k < 0 then -1
      else
        assert s[..k + 1] == [s[0]] + s[1..][..k];
        k + 1
  }

  /** String.prototype.split on one separator character: the pieces between separators,
      always at least one (the empty string splits into one empty piece). */
  function Split(s: string, sep: char): (parts: seq<string>)
    ensures |parts| >= 1
    ensures forall i :: 0 <= i < |parts| ==> sep !in parts[i]
    decreases |s|
  {
    var k := IndexOf(s, sep);
    if k < 0 then [s] else [s[..k]] + Split(s[k + 1..], sep)
  }

  /** Array.prototype.join with a one-character separator. */
  function Join(parts: seq<string>, sep: char): string
    decreases |parts|
  {
    if |parts| == 0 then ""
    else if |parts| == 1 then parts[0]
    else parts[0] + [sep] + Join(parts[1..], sep)
  }

  /** Joining the pieces of a split with the same separator gives back the string. */
  lemma {:induction false} JoinSplit(s: string, sep: char)
    ensures Join(Split(s, sep), sep) == s
    decreases |s|
  {
    var k := IndexOf(s, sep);
    if k >= 0 {
      var t := s[k + 1..];
      var rest := Split(t, sep);
      calc {
        Join(Split(s, sep), sep);
        Join([s[..k]] + rest, sep);
        { JoinCons(s[..k], rest, sep); }
        s[..k] + [sep] + Join(rest, sep);
        { JoinSplit(t, sep); }
        s[..k] + [sep] + t;
        s;
      }
    } else {
      assert Split(s, sep) == [s];
    }
  }

  lemma JoinCons(p: string, rest: seq<string>, sep: char)
    requires |rest| >= 1
    ensures Join([p] + rest, sep) == p + [sep] + Join(rest, sep)
  {
    assert ([p] + rest)[1..] == rest;
  }

  /** Splitting a join of separator-free pieces gives back the pieces. */
  lemma {:induction false} SplitJoin(parts: seq<string>, sep: char)
    requires |parts| >= 1
    requires forall i :: 0 <= i < |parts| ==> sep !in parts[i]
    ensures Split(Join(parts, sep), sep) == parts
    decreases |parts|
  {
    if |parts| > 1 {
      var s := Join(parts, sep);
      var tail := Join(parts[1..], sep);
      assert s == parts[0] + [sep] + tail;
      IndexOfAfterFreePrefix(parts[0], tail, sep);
      assert s[..|parts[0]|] == parts[0];
      assert s[|parts[0]| + 1..] == tail;
      SplitJoin(parts[1..], sep);
      assert parts == [parts[0]] + parts[1..];
    } else {
      assert IndexOf(parts[0], sep) == -1;
    }
  }

  lemma IndexOfAfterFreePrefix(p: string, t: string, c: char)
    requires c !in p
    ensures IndexOf(p + [c] + t, c) == |p|
  {
    var s := p + [c] + t;
    assert s[..|p|] == p;
    assert s[|p|] == c;
  }

  /** The join of pieces followed by a further join continues it with one separator. */
  lemma {:induction false} JoinAppend(a: seq<string>, b: seq<string>, sep: char)
    requires |a| >= 1 && |b| >= 1
    ensures Join(a + b, sep) == Join(a, sep) + [sep] + Join(b, sep)
    decreases |a|
  {
    if |a| == 1 {
      assert (a + b)[1..] == b;
    } else {
      JoinAppend(a[1..], b, sep);
      assert (a + b)[1..] == a[1..] + b;
    }
  }

  /** Appending to the last piece appends to the join. */
  lemma {:induction false} JoinExtendLast(a: seq<string>, x: string, sep: char)
    requires |a| >= 1
    ensures Join(a[..|a| - 1] + [a[|a| - 1] + x], sep) == Join(a, sep) + x
    decreases |a|
  {
    if |a| > 1 {
      JoinExtendLast(a[1..], x, sep);
      assert (a[..|a| - 1] + [a[|a| - 1] + x])[1..] == a[1..][..|a[1..]| - 1] + [a[1..][|a[1..]| - 1] + x];
    }
  }

  /** String.prototype.repeat for one character. */
  function Repeat(c: char, n: nat): (s: string)
    ensures |s| == n && forall i :: 0 <= i < n ==> s[i] == c
  {
    seq(n, _ => c)
  }

  // ---------------------------------------------------------------------------
  // Numerals

  /** The radixes the app prints numbers in. */
  type Radix = r: nat | r == 10 || r == 16 witness 10

  /** A digit character of Number.prototype.toString: 0-9, then lower-case a-f. */
  predicate IsDigitChar(c: char) {
    '0' <= c <= '9' || 'a' <= c <= 'f'
  }

  /** The value of one digit character. */
  function DigitValue(c: char): (d: nat)
    requires IsDigitChar(c)
    ensures d < 16 && DigitChar(d) == c
  {
    if c <= '9' then c as int - '0' as int else c as int - 'a' as int + 10
  }

  /** The character for a digit value below 16. */
  function DigitChar(d: nat): (c: char)
    requires d < 16
    ensures IsDigitChar(c)
  {
    if d < 10 then (d + '0' as int) as char else (d - 10 + 'a' as int) as char
  }

  lemma DigitCharValue(d: nat)
    requires d < 16
    ensures DigitValue(DigitChar(d)) == d
  {
  }

  predicate IsDigitOf(c: char, radix: Radix) {
    IsDigitChar(c) && DigitValue(c) < radix
  }

  predicate AllDigitsOf(s: string, radix: Radix) {
    forall i :: 0 <= i < |s| ==> IsDigitOf(s[i], radix)
  }

  /** Digits in radix 10 or 16, most significant first, no leading zeros, lower case:
      JavaScript's Number.prototype.toString(radix) on a non-negative integer. */
  function Numeral(n: nat, radix: Radix): (s: string)
    ensures |s| >= 1 && AllDigitsOf(s, radix)
    ensures n > 0 ==> s[0] != '0'
    decreases n
  {
    DigitCharValue(n % radix);
    if n < radix then
      DigitCharValue(n);
      [DigitChar(n)]
    else
      Numeral(n / radix, radix) + [DigitChar(n % radix)]
  }

  /** The number a string of digits denotes in the given radix. */
  function NumeralValue(s: string, radix: Radix): nat
    requires AllDigitsOf(s, radix)
  {
    if |s| == 0 then 0
    else NumeralValue(s[..|s| - 1], radix) * radix + DigitValue(s[|s| - 1])
  }

  /** Reading back a numeral gives the number. */
  lemma {:induction false} NumeralRoundTrip(n: nat, radix: Radix)
    ensures NumeralValue(Numeral(n, radix), radix) == n
    decreases n
  {
    var s := Numeral(n, radix);
    DigitCharValue(n % radix);
    if n >= radix {
      NumeralRoundTrip(n / radix, radix);
      assert s[..|s| - 1] == Numeral(n / radix, radix);
      assert DigitValue(s[|s| - 1]) == n % radix;
      if radix == 10 {
        assert n == (n / 10) * 10 + n % 10;
      } else {
        assert n == (n / 16) * 16 + n % 16;
      }
    } else {
      DigitCharValue(n);
    }
  }

  /** Leading zeros do not change the value of a numeral. */
  lemma {:induction false} LeadingZeros(k: nat, s: string, radix: Radix)
    requires AllDigitsOf(s, radix)
    ensures AllDigitsOf(Repeat('0', k) + s, radix)
    ensures NumeralValue(Repeat('0', k) + s, radix) == NumeralValue(s, radix)
    decreases |s|, k
  {
    var z := Repeat('0', k);
    if |s| == 0 {
      assert z + s == z;
      if k > 0 {
        assert z[..k - 1] == Repeat('0', k - 1) + s;
        LeadingZeros(k - 1, s, radix);
      }
    } else {
      var init := s[..|s| - 1];
      LeadingZeros(k, init, radix);
      assert (z + s)[..|z + s| - 1] == z + init;
    }
  }

  /** A numeral of a number below radix^k, k at least 1, has at most k digits. */
  lemma {:induction false} NumeralLength(n: nat, radix: Radix, k: nat)
    requires k >= 1
    requires n < Power(radix, k)
    ensures |Numeral(n, radix)| <= k
    decreases k
  {
    if n >= radix {
      var p := Power(radix, k - 1);
      assert Power(radix, k) == radix * p;
      if k > 1 {
        if radix == 10 {
          assert n / 10 < p;
        } else {
          assert n / 16 < p;
        }
        NumeralLength(n / radix, radix, k - 1);
      }
    }
  }

  function Power(b: nat, k: nat): nat
  {
    if k == 0 then 1 else b * Power(b, k - 1)
  }

  /** The decimal numeral of a non-negative integer, as a template literal prints it. */
  function DecimalString(n: nat): (s: string)
    ensures |s| >= 1 && AllDigitsOf(s, 10)
  {
    Numeral(n, 10)
  }

  /** Number.prototype.toString(16): lower-case hex digits, no leading zeros. */
  function HexString(n: nat): (s: string)
    ensures |s| >= 1 && AllDigitsOf(s, 16)
  {
    Numeral(n, 16)
  }

  /** sprintf("%08x", v) for a 32-bit value: exactly eight lower-case hex digits that
      denote v, zero-padded on the left. */
  function Hex8(v: uint32): (s: string)
    ensures |s| == 8 && AllDigitsOf(s, 16)
    ensures NumeralValue(s, 16) == v
  {
    var h := HexString(v);
    assert Power(16, 2) == 0x100;
    assert Power(16, 4) == 0x1_0000 by { assert Power(16, 4) == 16 * 16 * Power(16, 2); }
    assert Power(16, 6) == 0x100_0000 by { assert Power(16, 6) == 16 * 16 * Power(16, 4); }
    assert Power(16, 8) == 0x1_0000_0000 by { assert Power(16, 8) == 16 * 16 * Power(16, 6); }
    NumeralLength(v, 16, 8);
    LeadingZeros(8 - |h|, h, 16);
    NumeralRoundTrip(v, 16);
    Repeat('0', 8 - |h|) + h
  }

  /** Different 32-bit values never share a "%08x" key. */
  lemma Hex8Injective(v: uint32, w: uint32)
    requires Hex8(v) == Hex8(w)
    ensures v == w
  {
  }

  // ---------------------------------------------------------------------------
  // parseInt

  predicate IsDecimalDigit(c: char) {
    '0' <= c <= '9'
  }

  /** The number of decimal digits at the start of a string. */
  function LeadingDigits(s: string): (k: nat)
    ensures k <= |s|
    ensures forall i :: 0 <= i < k ==> IsDecimalDigit(s[i])
    ensures k < |s| ==> !IsDecimalDigit(s[k])
  {
    if |s| == 0 || !IsDecimalDigit(s[0]) then 0 else 1 + LeadingDigits(s[1..])
  }

  lemma DecimalDigitIsDigitOf(c: char)
    requires IsDecimalDigit(c)
    ensures IsDigitOf(c, 10)
  {
  }

  /** parseInt(s) on a string that starts with its digits: the value of the leading decimal
      digits, or None (JavaScript's NaN) when the string does not start with a digit. */
  function ParseLeadingInt(s: string): (r: Option<nat>)
    ensures r.None? <==> (|s| == 0 || !IsDecimalDigit(s[0]))
  {
    var k := LeadingDigits(s);
    if k == 0 then None
    else
      forall i | 0 <= i < k ensures IsDigitOf(s[..k][i], 10) {
        DecimalDigitIsDigitOf(s[i]);
      }
      Some(NumeralValue(s[..k], 10))
  }

  /** parseInt reads back a decimal numeral that is not followed by another digit. */
  lemma ParseDecimal(n: nat, rest: string)
    requires |rest| == 0 || !IsDecimalDigit(rest[0])
    ensures ParseLeadingInt(DecimalString(n) + rest) == Some(n)
  {
    var d := DecimalString(n);
    var s := d + rest;
    assert forall i :: 0 <= i < |d| ==> IsDecimalDigit(d[i]);
    LeadingDigitsOfDigits(d, rest);
    assert s[..|d|] == d;
    NumeralRoundTrip(n, 10);
  }

  lemma {:induction false} LeadingDigitsOfDigits(d: string, rest: string)
    requires forall i :: 0 <= i < |d| ==> IsDecimalDigit(d[i])
    requires |rest| == 0 || !IsDecimalDigit(rest[0])
    ensures LeadingDigits(d + rest) == |d|
    decreases |d|
  {
    if |d| > 0 {
      assert (d + rest)[1..] == d[1..] + rest;
      LeadingDigitsOfDigits(d[1..], rest);
    } else {
      assert d + rest == rest;
    }
  }

  // ---------------------------------------------------------------------------
  // toLowerCase, trim, startsWith

  function LowerChar(c: char): char {
    if 'A' <= c <= 'Z' then (c as int - 'A' as int + 'a' as int) as char else c
  }

  /** String.prototype.toLowerCase, on the ASCII letters. */
  function ToLower(s: string): (r: string)
    ensures |r| == |s|
    ensures forall i :: 0 <= i < |s| ==> !('A' <= r[i] <= 'Z')
  {
    seq(|s|, i requires 0 <= i < |s| => LowerChar(s[i]))
  }

  /** The characters String.prototype.trim removes: ECMAScript's WhiteSpace (tab, vertical tab,
      form feed, the byte-order mark and the space separators of category Zs) and its
      LineTerminator (line feed, carriage return, U+2028, U+2029). */
  predicate IsWhitespace(c: char) {
    || c == '\t' || c == '\U{0B}' || c == '\U{0C}' || c == ' ' || c == '\U{A0}' || c == '\U{FEFF}'
    || c == '\U{1680}' || ('\U{2000}' <= c <= '\U{200A}') || c == '\U{202F}' || c == '\U{205F}'
    || c == '\U{3000}'
    || c == '\n' || c == '\r' || c == '\U{2028}' || c == '\U{2029}'
  }

  /** The string holds nothing but white space. */
  predicate IsBlank(s: string) {
    forall i :: 0 <= i < |s| ==> IsWhitespace(s[i])
  }

  /** How many characters of white space `s` starts with. */
  function LeadingWhite(s: string): (n: nat)
    ensures n <= |s|
    ensures forall i :: 0 <= i < n ==> IsWhitespace(s[i])
    ensures n < |s| ==> !IsWhitespace(s[n])
    decreases |s|
  {
    if |s| > 0 && IsWhitespace(s[0]) then 1 + LeadingWhite(s[1..]) else 0
  }

  /** How many characters of white space `s` ends with. */
  function TrailingWhite(s: string): (n: nat)
    ensures n <= |s|
    ensures forall i :: |s| - n <= i < |s| ==> IsWhitespace(s[i])
    ensures n < |s| ==> !IsWhitespace(s[|s| - n - 1])
    decreases |s|
  {
    if |s| > 0 && IsWhitespace(s[|s| - 1]) then 1 + TrailingWhite(s[..|s| - 1]) else 0
  }

  /** String.prototype.trim: the slice of `s` left once the white space at both ends is
      removed; it neither starts nor ends with white space, and everything removed is white
      space. */
  function Trim(s: string): (r: string)
    ensures var k := LeadingWhite(s);
      && k + |r| <= |s| && r == s[k..k + |r|]
      && (forall i :: 0 <= i < k ==> IsWhitespace(s[i]))
      && (forall i :: k + |r| <= i < |s| ==> IsWhitespace(s[i]))
    ensures |r| > 0 ==> !IsWhitespace(r[0]) && !IsWhitespace(r[|r| - 1])
  {
    var k := LeadingWhite(s);
    var m := TrailingWhite(s[k..]);
    TrimmedEnd(s, k, m);
    s[k..|s| - m]
  }

  /** The trailing white space of a suffix lies at the end of the whole string. */
  lemma TrimmedEnd(s: string, k: nat, m: nat)
    requires k <= |s| && m == TrailingWhite(s[k..])
    ensures forall i :: |s| - m <= i < |s| ==> IsWhitespace(s[i])
    ensures k < |s| - m ==> !IsWhitespace(s[|s| - m - 1])
  {
    var t := s[k..];
    forall i | |s| - m <= i < |s|
      ensures IsWhitespace(s[i])
    {
      assert s[i] == t[i - k];
    }
    if k < |s| - m {
      assert s[|s| - m - 1] == t[|t| - m - 1];
    }
  }

  /** `s.trim().length > 0` is false exactly when the string holds nothing but white space. */
  lemma TrimBlank(s: string)
    ensures |Trim(s)| == 0 <==> IsBlank(s)
  {
    var k := LeadingWhite(s);
    if !IsBlank(s) {
      var j :| 0 <= j < |s| && !IsWhitespace(s[j]);
      assert k <= j < k + |Trim(s)|;
    }
  }

  predicate StartsWith(s: string, c: char) {
    |s| > 0 && s[0] == c
  }

  // ---------------------------------------------------------------------------
  // TextEncoder.encodeInto and TextDecoder.decode

  /** The UTF-8 encoding of one Unicode scalar value. */
  function Utf8(c: char): (e: seq<byte>)
    ensures 1 <= |e| <= 4
    ensures |e| == 1 <==> (c as int) < 0x80
    ensures (c as int) < 0x80 ==> e == [c as int]
  {
    var n := c as int;
    if n < 0x80 then [n]
    else if n < 0x800 then [0xC0 + n / 0x40, 0x80 + n % 0x40]
    else if n < 0x1_0000 then [0xE0 + n / 0x1000, 0x80 + (n / 0x40) % 0x40, 0x80 + n % 0x40]
    else [0xF0 + n / 0x4_0000, 0x80 + (n / 0x1000) % 0x40, 0x80 + (n / 0x40) % 0x40, 0x80 + n % 0x40]
  }

  /** The bytes TextEncoder.encodeInto writes into a destination with room for `room` bytes:
      the UTF-8 encodings of the longest prefix of characters that fits whole. */
  function EncodeInto(s: string, room: nat): (e: seq<byte>)
    ensures |e| <= room
    decreases |s|
  {
    if |s| == 0 then []
    else
      var c := Utf8(s[0]);
      if |c| <= room then c + EncodeInto(s[1..], room - |c|) else []
  }

  predicate IsAscii(s: string) {
    forall i :: 0 <= i < |s| ==> (s[i] as int) < 0x80
  }

  /** ASCII text of length n encodes to min(n, room) bytes, one per character, as the
      characters' codes. */
  lemma {:induction false} EncodeIntoAscii(s: string, room: nat)
    requires IsAscii(s)
    ensures |EncodeInto(s, room)| == if |s| < room then |s| else room
    ensures forall i :: 0 <= i < |EncodeInto(s, room)| ==> EncodeInto(s, room)[i] == s[i] as int
    decreases |s|
  {
    if |s| > 0 && room > 0 {
      EncodeIntoAscii(s[1..], room - 1);
      assert Utf8(s[0]) == [s[0] as int];
    }
  }

  /** TextDecoder.decode on bytes that are ASCII; any other byte is read as U+FFFD. */
  function Decode(data: seq<byte>): (s: string)
    ensures |s| == |data|
    ensures forall i :: 0 <= i < |data| && data[i] < 0x80 ==> s[i] as int == data[i]
  {
    seq(|data|, i requires 0 <= i < |data| => if data[i] < 0x80 then data[i] as char else '\U{FFFD}')
  }
}
