/**
 * The Python string operations the scripts rely on (`in`, `split`, `strip`,
 * `replace`, `startswith`, `int()`, `zfill`), written over
 * `seq<char>`.  Each function states how its result relates to its input so
 * that the modules built on top of it can reason without unfolding bodies.
 */
module Text {
  import opened Wrappers

  /** `t` occurs in `s` starting at index `i`. */
  predicate OccursAt(s: string, t: string, i: nat) {
    i + |t| <= |s| && s[i..i + |t|] == t
  }

  /** Index of the first occurrence of `t` in `s` at or after `k` (Python's `s.find(t, k)`). */
  function FindFrom(s: string, t: string, k: nat): (r: Option<nat>)
    decreases |s| - k
    ensures r.Some? ==> k <= r.value && OccursAt(s, t, r.value)
    ensures r.Some? ==> forall j :: k <= j < r.value ==> !OccursAt(s, t, j)
    ensures r.None? ==> forall j :: k <= j ==> !OccursAt(s, t, j)
  {
    if k + |t| > |s| then None
    else if s[k..k + |t|] == t then Some(k)
    else FindFrom(s, t, k + 1)
  }

  /** Index of the first occurrence of `t` in `s`. */
  function Find(s: string, t: string): Option<nat> {
    FindFrom(s, t, 0)
  }

  /** Python's `t in s`. */
  predicate Contains(s: string, t: string) {
    Find(s, t).Some?
  }

  lemma ContainsIff(s: string, t: string)
    ensures Contains(s, t) <==> exists i: nat :: OccursAt(s, t, i)
  {
    if !Contains(s, t) {
      forall i: nat ensures !OccursAt(s, t, i) { }
    }
  }

  /** A substring of a prefix is a substring of the whole. */
  lemma OccursInPrefix(s: string, p: string, t: string, i: nat)
    requires p <= s && OccursAt(p, t, i)
    ensures OccursAt(s, t, i)
  {
    assert s[i..i + |t|] == p[i..i + |t|];
  }

  /** Python's `s.split(t)[0]`: everything before the first `t`, or all of `s`. */
  function Before(s: string, t: string): (r: string)
    ensures r <= s
    ensures Find(s, t).None? ==> r == s
    ensures Find(s, t).Some? ==> |r| == Find(s, t).value
  {
    match Find(s, t)
    case None => s
    case Some(i) => s[..i]
  }

  /** Nothing before the first occurrence contains the separator. */
  lemma BeforeHasNone(s: string, t: string)
    requires |t| > 0
    ensures !Contains(Before(s, t), t)
  {
    var r := Before(s, t);
    forall j: nat | OccursAt(r, t, j) ensures false {
      OccursInPrefix(s, r, t, j);
    }
    ContainsIff(r, t);
  }

  /** Everything after the first occurrence of `t` (the tail of Python's `s.split(t, 1)`). */
  function After(s: string, t: string): (r: string)
    requires Contains(s, t)
    ensures |r| == |s| - Find(s, t).value - |t|
    ensures s == s[..Find(s, t).value] + t + r
  {
    var i := Find(s, t).value;
    assert s == s[..i] + s[i..i + |t|] + s[i + |t|..];
    s[i + |t|..]
  }

  /** Python's `s.split(t)[1]`: the text between the first and the second `t` (or the end). */
  function SplitSecond(s: string, t: string): string
    requires Contains(s, t)
  {
    Before(After(s, t), t)
  }

  /** Python's `s.split(c)[-1]`: the text after the last `c`, or all of `s`. */
  function LastSegment(s: string, c: char): (r: string)
    ensures |r| <= |s| && r == s[|s| - |r|..]
    ensures c !in r
    ensures |r| == |s| || s[|s| - |r| - 1] == c
    decreases |s|
  {
    if |s| == 0 then []
    else if s[|s| - 1] == c then []
    else LastSegment(s[..|s| - 1], c) + [s[|s| - 1]]
  }

  /** Python's `s.endswith(t)`. */
  predicate EndsWith(s: string, t: string) {
    |t| <= |s| && s[|s| - |t|..] == t
  }

  /** Appending the same text to both sides keeps a suffix a suffix. */
  lemma EndsWithAppend(s: string, t: string, u: string)
    requires EndsWith(s, t)
    ensures EndsWith(s + u, t + u)
  {
    assert (s + u)[|s + u| - |t + u|..] == s[|s| - |t|..] + u;
  }

  /** A suffix of `b` is a suffix of anything ending with `b`. */
  lemma EndsWithPrepend(a: string, b: string, t: string)
    requires EndsWith(b, t)
    ensures EndsWith(a + b, t)
  {
    assert (a + b)[|a + b| - |t|..] == b[|b| - |t|..];
  }

  /** A suffix occurs in the string. */
  lemma EndsWithContains(s: string, t: string)
    requires EndsWith(s, t)
    ensures Contains(s, t)
  {
    assert OccursAt(s, t, |s| - |t|);
    ContainsIff(s, t);
  }

  /** The last segment of `a + [c] + b` is `b` when `b` has no `c`. */
  lemma {:induction false} LastSegmentAfter(a: string, c: char, b: string)
    requires c !in b
    ensures LastSegment(a + [c] + b, c) == b
    decreases |b|
  {
    if |b| > 0 {
      var n := |b| - 1;
      assert a + [c] + b == (a + [c] + b[..n]) + [b[n]];
      assert (a + [c] + b)[..|a + [c] + b| - 1] == a + [c] + b[..n];
      LastSegmentAfter(a, c, b[..n]);
      assert b == b[..n] + [b[n]];
    } else {
      assert a + [c] + b == a + [c];
    }
  }

  /** The index of the first `c` in `s`. */
  function FirstIndex(s: string, c: char): (i: nat)
    requires c in s
    ensures i < |s| && s[i] == c && c !in s[..i]
  {
    if s[0] == c then 0
    else
      assert c in s[1..] by {
        var j :| 0 <= j < |s| && s[j] == c;
        assert s[1..][j - 1] == c;
      }
      var j := FirstIndex(s[1..], c);
      assert s[..j + 1] == [s[0]] + s[1..][..j];
      j + 1
  }

  /** Python's `s.split(c)`: the pieces between the occurrences of `c`. */
  function Split(s: string, c: char): (r: seq<string>)
    ensures |r| >= 1 && forall i :: 0 <= i < |r| ==> c !in r[i]
    decreases |s|
  {
    if c !in s then [s]
    else
      var i := FirstIndex(s, c);
      [s[..i]] + Split(s[i + 1..], c)
  }

  /** Splitting `a`, a separator and `b`, where `a` has no separator, gives `a` and the pieces of `b`. */
  lemma SplitCons(a: string, c: char, b: string)
    requires c !in a
    ensures Split(a + [c] + b, c) == [a] + Split(b, c)
  {
    var s := a + [c] + b;
    assert s[|a|] == c;
    var i := FirstIndex(s, c);
    assert s[..i] == a && s[i + 1..] == b;
  }

  /** Python's `s.split(c)[-2]`: defined only when `c` occurs in `s`. */
  function SecondLastSegment(s: string, c: char): Option<string> {
    var last := LastSegment(s, c);
    if |last| == |s| then None
    else Some(LastSegment(s[..|s| - |last| - 1], c))
  }

  /** Python's `s.lstrip(cs)`. */
  function LStrip(s: string, cs: set<char>): (r: string)
    ensures |r| <= |s| && r == s[|s| - |r|..]
    ensures r == [] || r[0] !in cs
    ensures forall i :: 0 <= i < |s| - |r| ==> s[i] in cs
    decreases |s|
  {
    if |s| > 0 && s[0] in cs then LStrip(s[1..], cs) else s
  }

  /** Python's `s.rstrip(cs)`. */
  function RStrip(s: string, cs: set<char>): (r: string)
    ensures r <= s
    ensures r == [] || r[|r| - 1] !in cs
    ensures forall i :: |r| <= i < |s| ==> s[i] in cs
    decreases |s|
  {
    if |s| > 0 && s[|s| - 1] in cs then RStrip(s[..|s| - 1], cs) else s
  }

  /** `c * n` */
  function Repeat(c: char, n: nat): (r: string)
    ensures |r| == n && forall i :: 0 <= i < n ==> r[i] == c
  {
    seq(n, i => c)
  }

  /** Stripping a run of `c` from the right gives back what came before it. */
  lemma {:induction false} RStripRepeat(core: string, c: char, n: nat)
    requires |core| > 0 && core[|core| - 1] != c
    ensures RStrip(core + Repeat(c, n), {c}) == core
    decreases n
  {
    if n > 0 {
      var s := core + Repeat(c, n);
      assert s[..|s| - 1] == core + Repeat(c, n - 1);
      RStripRepeat(core, c, n - 1);
    }
  }

  /** Python's `s.strip(cs)`. */
  function Strip(s: string, cs: set<char>): string {
    RStrip(LStrip(s, cs), cs)
  }

  /** The characters for which Python's `str.isspace()` holds; `s.strip()` removes these. */
  const Whitespace: set<char> :=
    {' ', '\t', '\n', '\r', '\U{000B}', '\U{000C}', '\U{001C}', '\U{001D}', '\U{001E}',
     '\U{001F}', '\U{0085}', '\U{00A0}', '\U{1680}', '\U{2000}', '\U{2001}', '\U{2002}',
     '\U{2003}', '\U{2004}', '\U{2005}', '\U{2006}', '\U{2007}', '\U{2008}', '\U{2009}',
     '\U{200A}', '\U{2028}', '\U{2029}', '\U{202F}', '\U{205F}', '\U{3000}'}

  /** Python's `s.strip()`. */
  function StripWs(s: string): string {
    Strip(s, Whitespace)
  }

  /** A string that neither starts nor ends with whitespace is its own `strip()`. */
  lemma StripWsNoop(s: string)
    requires |s| == 0 || (s[0] !in Whitespace && s[|s| - 1] !in Whitespace)
    ensures StripWs(s) == s
  {
  }

  /** Every character of `s.strip()` is a character of `s`. */
  lemma StripWsChars(s: string)
    ensures forall c :: c in StripWs(s) ==> c in s
  {
    var l := LStrip(s, Whitespace);
    assert forall c :: c in l ==> c in s;
  }

  /** Every character of `s` that is in `cs` replaced by `sub`, the others kept. */
  function ReplaceChars(s: string, cs: set<char>, sub: char): (r: string)
    ensures |r| == |s|
    ensures forall i :: 0 <= i < |s| ==> r[i] == (if s[i] in cs then sub else s[i])
  {
    if |s| == 0 then [] else ReplaceChars(s[..|s| - 1], cs, sub) + [if s[|s| - 1] in cs then sub else s[|s| - 1]]
  }

  /** Python's `s.replace(pat, repl)` for a non-empty `pat`: left to right, non-overlapping. */
  function ReplaceAll(s: string, pat: string, repl: string): string
    requires |pat| > 0
    decreases |s|
  {
    if |s| < |pat| then s
    else if s[..|pat|] == pat then repl + ReplaceAll(s[|pat|..], pat, repl)
    else [s[0]] + ReplaceAll(s[1..], pat, repl)
  }

  /** `s.replace(pat, "")` introduces no character that `s` lacks. */
  lemma {:induction false} ReplaceAllChars(s: string, pat: string)
    requires |pat| > 0
    ensures forall c :: c in ReplaceAll(s, pat, "") ==> c in s
    decreases |s|
  {
    if |s| >= |pat| {
      if s[..|pat|] == pat {
        ReplaceAllChars(s[|pat|..], pat);
      } else {
        ReplaceAllChars(s[1..], pat);
      }
    }
  }

  /** ASCII decimal digit. */
  predicate IsDigit(c: char) {
    '0' <= c <= '9'
  }

  /** Python's `s.isdigit()` on ASCII text: non-empty and every character a digit. */
  predicate IsDigits(s: string) {
    |s| > 0 && forall i :: 0 <= i < |s| ==> IsDigit(s[i])
  }

  /** The value of one decimal digit. */
  function DigitValue(c: char): nat
    requires IsDigit(c)
  {
    c as int - '0' as int
  }

  /** A string of digits holds no non-digit character. */
  lemma DigitsLack(s: string, c: char)
    requires IsDigits(s) && !IsDigit(c)
    ensures c !in s
  {
  }

  /** A digit is not whitespace. */
  lemma DigitIsNoSpace(c: char)
    requires IsDigit(c)
    ensures c !in Whitespace
  {
  }

  /** The number that a string of decimal digits denotes. */
  function DigitsValue(s: string): nat
    requires forall i :: 0 <= i < |s| ==> IsDigit(s[i])
  {
    if |s| == 0 then 0 else 10 * DigitsValue(s[..|s| - 1]) + DigitValue(s[|s| - 1])
  }

  /** Leading zeros do not change a number. */
  lemma {:induction false} DigitsValueZeros(k: nat, s: string)
    requires forall i :: 0 <= i < |s| ==> IsDigit(s[i])
    ensures forall i :: 0 <= i < |Zeros(k) + s| ==> IsDigit((Zeros(k) + s)[i])
    ensures DigitsValue(Zeros(k) + s) == DigitsValue(s)
    decreases |s| + k
  {
    var z := Zeros(k) + s;
    if |s| > 0 {
      DigitsValueZeros(k, s[..|s| - 1]);
      assert z[..|z| - 1] == Zeros(k) + s[..|s| - 1];
    } else if k > 0 {
      DigitsValueZeros(k - 1, s);
      assert z[..|z| - 1] == Zeros(k - 1) + s;
    }
  }

  /** Python's `str(n)` for a natural number. */
  function NatToString(n: nat): (r: string)
    ensures IsDigits(r)
  {
    if n < 10 then ['0' + n as char] else NatToString(n / 10) + ['0' + (n % 10) as char]
  }

  lemma {:induction false} NatToStringValue(n: nat)
    ensures DigitsValue(NatToString(n)) == n
  {
    if n >= 10 {
      var s := NatToString(n);
      assert s[..|s| - 1] == NatToString(n / 10);
      NatToStringValue(n / 10);
    }
  }

  /** `str` is injective on natural numbers, so distinct shard numbers name distinct directories. */
  lemma NatToStringInjective(m: nat, n: nat)
    requires NatToString(m) == NatToString(n)
    ensures m == n
  {
    NatToStringValue(m);
    NatToStringValue(n);
  }

  /** Digits with single underscores between them: the body Python's `int()` accepts. */
  predicate IsDigitGroups(s: string)
    decreases |s|
  {
    && |s| > 0 && IsDigit(s[0])
    && (|s| == 1 || if s[1] == '_' then IsDigitGroups(s[2..]) else IsDigitGroups(s[1..]))
  }

  /** The digits of a digit-group string, underscores dropped. */
  function GroupDigits(s: string): (r: string)
    requires IsDigitGroups(s)
    ensures IsDigits(r) && |r| <= |s|
    decreases |s|
  {
    if |s| == 1 then s
    else if s[1] == '_' then [s[0]] + GroupDigits(s[2..])
    else [s[0]] + GroupDigits(s[1..])
  }

  /** Plain digits are digit groups, and their digits are themselves. */
  lemma {:induction false} DigitsAreGroups(s: string)
    requires IsDigits(s)
    ensures IsDigitGroups(s) && GroupDigits(s) == s
    decreases |s|
  {
    if |s| > 1 {
      assert IsDigits(s[1..]);
      DigitsAreGroups(s[1..]);
      assert s == [s[0]] + s[1..];
    }
  }

  /** Python's `int(t)` on an already stripped string. */
  function ParseInt(t: string): (r: Option<int>)
    ensures t == [] ==> r == None
  {
    if |t| > 0 && (t[0] == '+' || t[0] == '-') && IsDigitGroups(t[1..]) then
      var v := DigitsValue(GroupDigits(t[1..]));
      Some(if t[0] == '-' then 0 - v as int else v as int)
    else if IsDigitGroups(t) then Some(DigitsValue(GroupDigits(t)))
    else None
  }

  /** Python's `int(s)` on a string: surrounding whitespace, an optional sign, digit groups. */
  function PyInt(s: string): Option<int> {
    ParseInt(StripWs(s))
  }

  /** On plain digits (after stripping whitespace) `int()` is the decimal value. */
  lemma PyIntOfDigits(s: string)
    requires IsDigits(StripWs(s))
    ensures PyInt(s) == Some(DigitsValue(StripWs(s)))
  {
    DigitsAreGroups(StripWs(s));
  }

  /** `n` zero characters. */
  function Zeros(n: nat): (r: string)
    ensures |r| == n && forall i :: 0 <= i < n ==> r[i] == '0'
  {
    if n == 0 then [] else Zeros(n - 1) + ['0']
  }

  /** Python's `s.zfill(w)`: left-pad with zeros (after a sign) to width `w`. */
  function ZFill(s: string, w: nat): (r: string)
    ensures |r| == if |s| >= w then |s| else w
    ensures |s| >= w ==> r == s
    ensures |s| < w && IsDigits(s) ==> r == Zeros(w - |s|) + s
  {
    if |s| >= w then s
    else if |s| > 0 && (s[0] == '+' || s[0] == '-') then [s[0]] + Zeros(w - |s|) + s[1..]
    else Zeros(w - |s|) + s
  }

  function Pow10(w: nat): (r: nat)
    ensures r >= 1
  {
    if w == 0 then 1 else 10 * Pow10(w - 1)
  }

  /** `n` as exactly `w` decimal digits, zero-padded on the left (Python's `f"{n:0{w}d}"` for `n < 10^w`). */
  function Pad(n: nat, w: nat): (r: string)
    ensures |r| == w && forall i :: 0 <= i < w ==> IsDigit(r[i])
  {
    if w == 0 then [] else Pad(n / 10, w - 1) + ['0' + (n % 10) as char]
  }

  /** A padded number reads back as itself when it fits in the width. */
  lemma {:induction false} PadValue(n: nat, w: nat)
    requires n < Pow10(w)
    ensures DigitsValue(Pad(n, w)) == n
  {
    if w > 0 {
      var r := Pad(n, w);
      assert r[..w - 1] == Pad(n / 10, w - 1);
      PadValue(n / 10, w - 1);
    }
  }

  /** A string of `w` digits denotes a number below `10^w` and is that number padded to `w`. */
  lemma {:induction false} DigitsPad(s: string)
    requires forall i :: 0 <= i < |s| ==> IsDigit(s[i])
    ensures DigitsValue(s) < Pow10(|s|)
    ensures Pad(DigitsValue(s), |s|) == s
  {
    if |s| > 0 {
      var init := s[..|s| - 1];
      DigitsPad(init);
      var v := DigitsValue(s);
      assert v / 10 == DigitsValue(init) && v % 10 == DigitValue(s[|s| - 1]);
      assert s == init + [s[|s| - 1]];
    }
  }

  /** Python's `s.upper()` on ASCII letters. */
  function Upper(s: string): (r: string)
    ensures |r| == |s|
  {
    if |s| == 0 then []
    else Upper(s[..|s| - 1]) + [if 'a' <= s[|s| - 1] <= 'z' then (s[|s| - 1] as int - 32) as char else s[|s| - 1]]
  }

  /** One character of `lower()`. */
  function LowerChar(c: char): char {
    if 'A' <= c <= 'Z' then (c as int + 32) as char else c
  }

  /** Python's `s.lower()` on ASCII letters. */
  function Lower(s: string): (r: string)
    ensures |r| == |s|
    ensures forall i :: 0 <= i < |s| ==> r[i] == LowerChar(s[i])
  {
    if |s| == 0 then []
    else Lower(s[..|s| - 1]) + [LowerChar(s[|s| - 1])]
  }
  /**
   * `a <= b` in the byte order SQLite's default collation uses on text (for UTF-8 this is
   * the order of code points, compared character by character).
   */
  predicate StrLe(a: string, b: string)
    decreases |a|
  {
    |a| == 0 || (|b| > 0 && (a[0] < b[0] || (a[0] == b[0] && StrLe(a[1..], b[1..]))))
  }

  /** Any two strings are comparable. */
  lemma {:induction false} StrLeTotal(a: string, b: string)
    ensures StrLe(a, b) || StrLe(b, a)
    decreases |a|
  {
    if |a| > 0 && |b| > 0 && a[0] == b[0] {
      StrLeTotal(a[1..], b[1..]);
    }
  }

  /** The order is transitive. */
  lemma {:induction false} StrLeTrans(a: string, b: string, c: string)
    requires StrLe(a, b) && StrLe(b, c)
    ensures StrLe(a, c)
    decreases |a|
  {
    if |a| > 0 && a[0] == b[0] && b[0] == c[0] {
      StrLeTrans(a[1..], b[1..], c[1..]);
    }
  }
}
