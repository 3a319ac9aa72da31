/**
 * Percent-decoding as Python's `urllib.parse.unquote` does it with its
 * defaults: the `%XY` escapes of section 2.1 of RFC 3986 are turned into
 * bytes, and the bytes are read as UTF-8 (RFC 3629), a malformed part
 * becoming U+FFFD.
 */
module Percent {
  import opened Wrappers

  /** A byte. */
  type Byte = b: int | 0 <= b < 256

  /** Value of a hexadecimal digit. */
  function HexValue(c: char): (r: Option<nat>)
    ensures r.Some? ==> r.value < 16
  {
    if '0' <= c <= '9' then Some(c as int - '0' as int)
    else if 'a' <= c <= 'f' then Some(c as int - 'a' as int + 10)
    else if 'A' <= c <= 'F' then Some(c as int - 'A' as int + 10)
    else None
  }

  /** The upper-case hexadecimal digit of `n`. */
  function HexDigit(n: nat): (c: char)
    requires n < 16
    ensures HexValue(c) == Some(n)
  {
    if n < 10 then ('0' as int + n) as char else ('A' as int + n - 10) as char
  }

  /** `%XY` with two hexadecimal digits at the start of `s`. */
  predicate StartsWithEscape(s: string) {
    |s| >= 3 && s[0] == '%' && HexValue(s[1]).Some? && HexValue(s[2]).Some?
  }

  /** A character in the range `[\x00-\x7f]`. */
  predicate IsAscii(c: char) {
    c as int < 0x80
  }

  predicate AllAscii(s: string) {
    forall i :: 0 <= i < |s| ==> IsAscii(s[i])
  }

  /**
   * `unquote_to_bytes` on a run of ASCII characters: each `%XY` becomes the
   * byte 0xXY, every other character (a `%` without two hexadecimal digits
   * after it included) the byte of its own code.
   */
  function UnquoteToBytes(s: string): (r: seq<Byte>)
    requires AllAscii(s)
    ensures |r| <= |s|
    decreases |s|
  {
    if |s| == 0 then []
    else if StartsWithEscape(s) then
      [16 * HexValue(s[1]).value + HexValue(s[2]).value] + UnquoteToBytes(s[3..])
    else [s[0] as int] + UnquoteToBytes(s[1..])
  }

  /** The character that replaces a malformed part of the UTF-8 input. */
  const Replacement: char := '\U{FFFD}'

  /** The length of the sequence a lead byte starts, or 0 for a byte no sequence starts with. */
  function SequenceLength(lead: Byte): nat {
    if lead < 0x80 then 1
    else if lead < 0xC2 then 0
    else if lead < 0xE0 then 2
    else if lead < 0xF0 then 3
    else if lead < 0xF5 then 4
    else 0
  }

  predicate IsContinuation(b: Byte) {
    0x80 <= b <= 0xBF
  }

  /**
   * The range allowed for the byte after a lead byte (table 3-7 of the
   * Unicode standard), which rules out overlong forms, surrogates and codes
   * above U+10FFFF.
   */
  predicate SecondFits(lead: Byte, b: Byte) {
    if lead == 0xE0 then 0xA0 <= b <= 0xBF
    else if lead == 0xED then 0x80 <= b <= 0x9F
    else if lead == 0xF0 then 0x90 <= b <= 0xBF
    else if lead == 0xF4 then 0x80 <= b <= 0x8F
    else IsContinuation(b)
  }

  /**
   * How many of the `n - 1` bytes after the lead byte at the start of `b`
   * are present and continue its sequence correctly.
   */
  function Continued(b: seq<Byte>, n: nat): (k: nat)
    requires |b| > 0 && 2 <= n <= 4
    ensures k < n && k < |b|
  {
    if |b| < 2 || !SecondFits(b[0], b[1]) then 0
    else if n < 3 || |b| < 3 || !IsContinuation(b[2]) then 1
    else if n < 4 || |b| < 4 || !IsContinuation(b[3]) then 2
    else 3
  }

  /** A well-formed sequence of `n` bytes at the start of `b`. */
  predicate WellFormed(b: seq<Byte>, n: nat) {
    |b| > 0 && 2 <= n <= 4 && SequenceLength(b[0]) == n && Continued(b, n) == n - 1
  }

  predicate IsScalar(x: int) {
    0 <= x < 0xD800 || 0xE000 <= x < 0x11_0000
  }

  /** The code of a well-formed sequence: a scalar value that needs exactly `n` bytes. */
  function CodePoint(b: seq<Byte>, n: nat): (x: int)
    requires WellFormed(b, n)
    ensures IsScalar(x)
    ensures n == 2 ==> 0x80 <= x < 0x800
    ensures n == 3 ==> 0x800 <= x < 0x1_0000
    ensures n == 4 ==> 0x1_0000 <= x
  {
    if n == 2 then (b[0] as int - 0xC0) * 64 + (b[1] as int - 0x80)
    else if n == 3 then (b[0] as int - 0xE0) * 4096 + (b[1] as int - 0x80) * 64 + (b[2] as int - 0x80)
    else (b[0] as int - 0xF0) * 262144 + (b[1] as int - 0x80) * 4096 + (b[2] as int - 0x80) * 64 + (b[3] as int - 0x80)
  }

  /**
   * `bytes.decode("utf-8", "replace")`: a well-formed sequence becomes its
   * character; a byte no sequence starts with, and each longest prefix of a
   * sequence that breaks off, becomes one U+FFFD.
   */
  function DecodeUtf8(b: seq<Byte>): (r: string)
    ensures |r| <= |b|
    decreases |b|
  {
    if |b| == 0 then []
    else
      var n := SequenceLength(b[0]);
      if n == 1 then [b[0] as char] + DecodeUtf8(b[1..])
      else if n == 0 then [Replacement] + DecodeUtf8(b[1..])
      else if WellFormed(b, n) then [CodePoint(b, n) as char] + DecodeUtf8(b[n..])
      else [Replacement] + DecodeUtf8(b[Continued(b, n) + 1..])
  }

  /** The length of the leading run of ASCII characters of `s`. */
  function AsciiRun(s: string): (n: nat)
    ensures n <= |s| && AllAscii(s[..n])
    ensures n < |s| ==> !IsAscii(s[n])
  {
    if |s| == 0 || !IsAscii(s[0]) then 0
    else
      var n := 1 + AsciiRun(s[1..]);
      assert s[..n] == [s[0]] + s[1..][..n - 1];
      n
  }

  /**
   * The general path of `unquote`: each longest run of ASCII characters is
   * unquoted to bytes and decoded as UTF-8, any other character is kept.
   */
  function UnquoteRuns(s: string): (r: string)
    ensures |r| <= |s|
    decreases |s|
  {
    if |s| == 0 then []
    else if !IsAscii(s[0]) then [s[0]] + UnquoteRuns(s[1..])
    else
      var n := AsciiRun(s);
      DecodeUtf8(UnquoteToBytes(s[..n])) + UnquoteRuns(s[n..])
  }

  /**
   * Python's `urllib.parse.unquote(s)` (UTF-8, errors replaced), which
   * returns a string without `%` as it is.
   */
  function Unquote(s: string): (r: string)
    ensures |r| <= |s|
  {
    if '%' !in s then s else UnquoteRuns(s)
  }

  // ----- The partner: UTF-8 encoding and full percent-encoding -----

  /** The UTF-8 encoding of one character (RFC 3629, section 3). */
  function EncodeChar(c: char): (r: seq<Byte>)
    ensures 1 <= |r| <= 4
  {
    var x := c as int;
    if x < 0x80 then [x]
    else if x < 0x800 then [0xC0 + x / 64, 0x80 + x % 64]
    else if x < 0x1_0000 then [0xE0 + x / 4096, 0x80 + x / 64 % 64, 0x80 + x % 64]
    else [0xF0 + x / 262144, 0x80 + x / 4096 % 64, 0x80 + x / 64 % 64, 0x80 + x % 64]
  }

  function EncodeUtf8(s: string): seq<Byte> {
    if |s| == 0 then [] else EncodeChar(s[0]) + EncodeUtf8(s[1..])
  }

  /** Every byte written as `%XY`, as `quote(s, safe="")` does for every byte outside the unreserved set. */
  function EscapeBytes(b: seq<Byte>): (r: string)
    ensures |r| == 3 * |b| && AllAscii(r)
  {
    if |b| == 0 then []
    else
      var r := ['%', HexDigit(b[0] / 16), HexDigit(b[0] % 16)] + EscapeBytes(b[1..]);
      assert forall i :: 3 <= i < |r| ==> r[i] == EscapeBytes(b[1..])[i - 3];
      r
  }

  function PercentEncode(s: string): string {
    EscapeBytes(EncodeUtf8(s))
  }

  lemma {:induction false} UnquoteEscaped(b: seq<Byte>)
    ensures UnquoteToBytes(EscapeBytes(b)) == b
    decreases |b|
  {
    if |b| > 0 {
      var e := EscapeBytes(b);
      assert StartsWithEscape(e);
      assert e[3..] == EscapeBytes(b[1..]);
      UnquoteEscaped(b[1..]);
    }
  }

  lemma CodePointOfTwo(x: int)
    requires 0x80 <= x < 0x800
    ensures var b := [0xC0 + x / 64, 0x80 + x % 64];
      SequenceLength(b[0]) == 2 && SecondFits(b[0], b[1]) &&
      (b[0] - 0xC0) * 64 + (b[1] - 0x80) == x
  {
  }

  lemma CodePointOfThree(x: int)
    requires 0x800 <= x < 0x1_0000 && IsScalar(x)
    ensures var b := [0xE0 + x / 4096, 0x80 + x / 64 % 64, 0x80 + x % 64];
      SequenceLength(b[0]) == 3 && SecondFits(b[0], b[1]) && IsContinuation(b[2]) &&
      (b[0] - 0xE0) * 4096 + (b[1] - 0x80) * 64 + (b[2] - 0x80) == x
  {
    var q, r := x / 64, x % 64;
    var q2, r2 := q / 64, q % 64;
    assert x == 64 * q + r && q == 64 * q2 + r2;
    assert x == 4096 * q2 + 64 * r2 + r;
    assert x / 4096 == q2;
  }

  lemma CodePointOfFour(x: int)
    requires 0x1_0000 <= x < 0x11_0000
    ensures var b := [0xF0 + x / 262144, 0x80 + x / 4096 % 64, 0x80 + x / 64 % 64, 0x80 + x % 64];
      SequenceLength(b[0]) == 4 && SecondFits(b[0], b[1]) && IsContinuation(b[2]) && IsContinuation(b[3]) &&
      (b[0] - 0xF0) * 262144 + (b[1] - 0x80) * 4096 + (b[2] - 0x80) * 64 + (b[3] - 0x80) == x
  {
    var q, r := x / 64, x % 64;
    var q2, r2 := q / 64, q % 64;
    var q3, r3 := q2 / 64, q2 % 64;
    assert x == 64 * q + r && q == 64 * q2 + r2 && q2 == 64 * q3 + r3;
    assert x == 262144 * q3 + 4096 * r3 + 64 * r2 + r;
    assert x / 4096 == q2 && x / 262144 == q3;
  }

  /** Decoding reads back the character whose encoding comes first. */
  lemma DecodeChar(c: char, rest: seq<Byte>)
    ensures DecodeUtf8(EncodeChar(c) + rest) == [c] + DecodeUtf8(rest)
  {
    var x := c as int;
    if x < 0x80 {
      assert (EncodeChar(c) + rest)[1..] == rest;
    } else {
      DecodeLong(c, |EncodeChar(c)|, rest);
    }
  }

  /** The same for a character of `n` bytes, `n` from 2 to 4. */
  lemma DecodeLong(c: char, n: nat, rest: seq<Byte>)
    requires c as int >= 0x80 && n == |EncodeChar(c)|
    ensures DecodeUtf8(EncodeChar(c) + rest) == [c] + DecodeUtf8(rest)
  {
    var b := EncodeChar(c) + rest;
    ExactlyWellFormed(c, rest);
    assert b[n..] == rest;
  }

  /** The encoding of a character of two to four bytes is well-formed, and its code is the character's. */
  lemma ExactlyWellFormed(c: char, rest: seq<Byte>)
    requires c as int >= 0x80
    ensures var n := |EncodeChar(c)|; var b := EncodeChar(c) + rest;
      WellFormed(b, n) && CodePoint(b, n) == c as int
  {
    var x := c as int;
    if x < 0x800 {
      CodePointOfTwo(x);
    } else if x < 0x1_0000 {
      CodePointOfThree(x);
    } else {
      CodePointOfFour(x);
    }
  }

  lemma {:induction false} DecodeEncode(s: string)
    ensures DecodeUtf8(EncodeUtf8(s)) == s
    decreases |s|
  {
    if |s| > 0 {
      DecodeChar(s[0], EncodeUtf8(s[1..]));
      DecodeEncode(s[1..]);
      assert s == [s[0]] + s[1..];
    }
  }

  /** Unquoting undoes percent-encoding, for every string. */
  lemma UnquoteEncoded(s: string)
    ensures Unquote(PercentEncode(s)) == s
  {
    var p := PercentEncode(s);
    if |s| == 0 {
      assert p == [];
    } else {
      assert |EncodeUtf8(s)| > 0;
      assert p[0] == '%';
      assert AsciiRun(p) == |p| by { AllAsciiRun(p); }
      assert p[..|p|] == p && p[|p|..] == [];
      UnquoteEscaped(EncodeUtf8(s));
      DecodeEncode(s);
    }
  }

  lemma {:induction false} AllAsciiRun(s: string)
    requires AllAscii(s)
    ensures AsciiRun(s) == |s|
    decreases |s|
  {
    if |s| > 0 {
      AllAsciiRun(s[1..]);
    }
  }

  /** The shortcut for strings without `%` agrees with the general path. */
  lemma {:induction false} PlainUnquotedAsIs(s: string)
    requires '%' !in s
    ensures UnquoteRuns(s) == s
    decreases |s|
  {
    if |s| > 0 {
      if !IsAscii(s[0]) {
        PlainUnquotedAsIs(s[1..]);
      } else {
        var n := AsciiRun(s);
        PlainBytes(s[..n]);
        PlainUnquotedAsIs(s[n..]);
        assert s == s[..n] + s[n..];
      }
    }
  }

  /** Without `%`, an ASCII run becomes its own codes and decodes to itself. */
  lemma {:induction false} PlainBytes(s: string)
    requires AllAscii(s) && '%' !in s
    ensures DecodeUtf8(UnquoteToBytes(s)) == s
    decreases |s|
  {
    if |s| > 0 {
      assert s[0] in s;
      PlainBytes(s[1..]);
      var t := UnquoteToBytes(s[1..]);
      assert UnquoteToBytes(s) == [s[0] as int] + t;
      assert ([s[0] as int] + t)[1..] == t;
      assert s == [s[0]] + s[1..];
    }
  }

  /** Each `%` written as `%25`, every other character kept: percent-encoding a second time. */
  function EscapePercents(t: string): (r: string)
    ensures AllAscii(t) ==> AllAscii(r)
    ensures |t| > 0 && t[0] == '%' ==> |r| > 0 && r[0] == '%'
  {
    if |t| == 0 then []
    else
      var r := (if t[0] == '%' then "%25" else [t[0]]) + EscapePercents(t[1..]);
      assert AllAscii(t) ==> AllAscii(t[1..]) && IsAscii(t[0]);
      r
  }

  /** The codes of an ASCII string, as bytes. */
  function Codes(t: string): (r: seq<Byte>)
    requires AllAscii(t)
    ensures |r| == |t| && forall i :: 0 <= i < |t| ==> r[i] < 0x80 && r[i] as char == t[i]
  {
    seq(|t|, i requires 0 <= i < |t| => t[i] as int)
  }

  /** Unquoting the escaped `%`s gives back the codes of the ASCII string. */
  lemma {:induction false} UnquoteEscapedPercentsBytes(t: string)
    requires AllAscii(t)
    ensures UnquoteToBytes(EscapePercents(t)) == Codes(t)
    decreases |t|
  {
    if |t| > 0 {
      var e := EscapePercents(t);
      var rest := EscapePercents(t[1..]);
      UnquoteEscapedPercentsBytes(t[1..]);
      if t[0] == '%' {
        assert e == "%25" + rest && StartsWithEscape(e) && e[3..] == rest;
      } else {
        assert e == [t[0]] + rest && !StartsWithEscape(e) && e[1..] == rest;
      }
      assert Codes(t) == [t[0] as int] + Codes(t[1..]);
    }
  }

  /** One pass of `unquote` undoes percent-encoding a second time, for every ASCII string with a `%`. */
  lemma UnquoteEscapedPercents(t: string)
    requires AllAscii(t) && |t| > 0 && t[0] == '%'
    ensures Unquote(EscapePercents(t)) == t
  {
    var e := EscapePercents(t);
    AsciiRunWhole(e);
    UnquoteEscapedPercentsBytes(t);
    PlainDecode(Codes(t));
  }

  /**
   * The two passes of `unquote(unquote(...))` on a value percent-encoded twice give back
   * the value, for every string.
   */
  lemma UnquoteTwiceEncoded(s: string)
    ensures Unquote(Unquote(EscapePercents(PercentEncode(s)))) == s
  {
    var p := PercentEncode(s);
    if |s| == 0 {
      assert p == [] && EscapePercents(p) == [];
    } else {
      assert |EncodeUtf8(s)| > 0;
      UnquoteEscapedPercents(p);
      UnquoteEncoded(s);
    }
  }

  /** The first pass of the twice-escaped `é`, `%25C3%25A9`, yields `%C3%A9`. */
  lemma UnquoteDoublyEscapedLetter(s: string)
    requires s == "%25C3%25A9"
    ensures Unquote(s) == "%C3%A9"
  {
    var t := "%C3%A9";
    assert AllAscii(t);
    assert s == EscapePercents(t);
    UnquoteEscapedPercents(t);
  }

  /** A string of ASCII that holds `%` goes to the decoder as one run. */
  lemma AsciiRunWhole(s: string)
    requires AllAscii(s) && |s| > 0 && s[0] == '%'
    ensures Unquote(s) == DecodeUtf8(UnquoteToBytes(s))
  {
    AllAsciiRun(s);
    assert s[..|s|] == s && s[|s|..] == [];
  }

  /** Bytes below 0x80 decode to the characters of the same codes. */
  lemma {:induction false} PlainDecode(b: seq<Byte>)
    requires forall i :: 0 <= i < |b| ==> b[i] < 0x80
    ensures DecodeUtf8(b) == seq(|b|, i requires 0 <= i < |b| => b[i] as char)
    decreases |b|
  {
    if |b| > 0 {
      PlainDecode(b[1..]);
    }
  }

  /** The second pass reads the bytes C3 A9 as UTF-8: the letter `é`. */
  lemma UnquoteTwoByteLetter()
    ensures Unquote("%C3%A9") == "\U{E9}"
  {
    var s := "%C3%A9";
    assert s[0] == '%';
    AllAsciiRun(s);
    assert s[..|s|] == s && s[|s|..] == [];
    assert StartsWithEscape(s) && s[3..] == "%A9" && StartsWithEscape(s[3..]) && s[6..] == [];
    var b: seq<Byte> := [0xC3, 0xA9];
    assert UnquoteToBytes(s) == b;
    assert WellFormed(b, 2) && b[2..] == [];
  }
}
