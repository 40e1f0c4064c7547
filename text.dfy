/**
 * The pieces of Go's `strings`, `strconv` and `regexp` character classes the
 * matcher relies on, written out over `string` (a sequence of code points).
 */
module Text {
  import opened Wrappers

  /** `\d` in Go's regexp syntax: an ASCII digit. */
  predicate IsDigit(c: char) { '0' <= c <= '9' }

  /** `\w` in Go's regexp syntax: `[0-9A-Za-z_]`. */
  predicate IsWordChar(c: char) { IsDigit(c) || 'a' <= c <= 'z' || 'A' <= c <= 'Z' || c == '_' }

  /** `\s` in Go's regexp syntax: `[\t\n\f\r ]`. */
  predicate IsRegexpSpace(c: char) {
    c == '\t' || c == '\n' || c == '\U{000C}' || c == '\r' || c == ' '
  }

  /** `unicode.IsSpace`, the set `strings.TrimSpace` removes. */
  predicate IsSpace(c: char) {
    || c == '\t' || c == '\n' || c == '\U{000B}' || c == '\U{000C}' || c == '\r' || c == ' '
    || c == '\U{0085}' || c == '\U{00A0}' || c == '\U{1680}'
    || ('\U{2000}' <= c <= '\U{200A}')
    || c == '\U{2028}' || c == '\U{2029}' || c == '\U{202F}' || c == '\U{205F}' || c == '\U{3000}'
  }

  predicate AllWordChars(s: string) { forall i :: 0 <= i < |s| ==> IsWordChar(s[i]) }

  predicate AllDigits(s: string) { forall i :: 0 <= i < |s| ==> IsDigit(s[i]) }

  predicate AllRegexpSpaces(s: string) { forall i :: 0 <= i < |s| ==> IsRegexpSpace(s[i]) }

  /** `strings.HasPrefix`. */
  predicate StartsWith(s: string, prefix: string) {
    |prefix| <= |s| && s[..|prefix|] == prefix
  }

  /** `strings.Contains`: `p` occurs somewhere in `s`. */
  predicate Occurs(s: string, p: string) {
    exists i :: 0 <= i <= |s| && StartsWith(s[i..], p)
  }

  /** The longest prefix of `s` made of word characters (what a greedy `\w+` consumes). */
  function WordPrefix(s: string): (w: string)
    ensures |w| <= |s| && w == s[..|w|] && AllWordChars(w)
    ensures |w| < |s| ==> !IsWordChar(s[|w|])
  {
    if s != [] && IsWordChar(s[0]) then [s[0]] + WordPrefix(s[1..]) else []
  }

  /** The longest prefix of `s` made of `\s` characters (what a greedy `\s*` consumes). */
  function SpacePrefix(s: string): (w: string)
    ensures |w| <= |s| && w == s[..|w|] && AllRegexpSpaces(w)
    ensures |w| < |s| ==> !IsRegexpSpace(s[|w|])
  {
    if s != [] && IsRegexpSpace(s[0]) then [s[0]] + SpacePrefix(s[1..]) else []
  }

  /** A run of spaces followed by a non-space (or nothing) is exactly what `\s*` consumes. */
  lemma {:induction false} SpacePrefixOf(w: string, d: string)
    requires AllRegexpSpaces(w)
    requires d == [] || !IsRegexpSpace(d[0])
    ensures SpacePrefix(w + d) == w
  {
    if w != [] {
      assert (w + d)[1..] == w[1..] + d;
      SpacePrefixOf(w[1..], d);
    }
  }

  /** The position of the first `c` in `s`, or |s| when there is none. */
  function FirstIndex(s: string, c: char): (i: nat)
    ensures i <= |s| && c !in s[..i]
    ensures i < |s| ==> s[i] == c
  {
    if s == [] || s[0] == c then 0
    else
      var j := FirstIndex(s[1..], c);
      assert s[..j + 1] == [s[0]] + s[1..][..j];
      j + 1
  }

  lemma {:induction false} FirstIndexAfter(x: string, p: string, c: char)
    requires c !in x && p != [] && p[0] == c
    ensures FirstIndex(x + p, c) == |x|
  {
    if x != [] {
      assert (x + p)[1..] == x[1..] + p;
      FirstIndexAfter(x[1..], p, c);
    }
  }

  function TrimLeft(s: string): (r: string)
    ensures |r| <= |s|
    ensures r != [] ==> !IsSpace(r[0])
  {
    if s != [] && IsSpace(s[0]) then TrimLeft(s[1..]) else s
  }

  /** What `TrimLeft` drops is a run of spaces at the front. */
  lemma {:induction false} TrimLeftSuffix(s: string)
    ensures TrimLeft(s) == s[|s| - |TrimLeft(s)|..]
    ensures forall k :: 0 <= k < |s| - |TrimLeft(s)| ==> IsSpace(s[k])
  {
    if s != [] && IsSpace(s[0]) {
      TrimLeftSuffix(s[1..]);
      assert s[1..][|s| - 1 - |TrimLeft(s)|..] == s[|s| - |TrimLeft(s)|..];
      forall k | 1 <= k < |s| - |TrimLeft(s)| ensures IsSpace(s[k]) {
        assert s[k] == s[1..][k - 1];
      }
    }
  }

  function TrimRight(s: string): (r: string)
    ensures |r| <= |s|
    ensures r != [] ==> !IsSpace(r[|r| - 1])
  {
    if s != [] && IsSpace(s[|s| - 1]) then TrimRight(s[..|s| - 1]) else s
  }

  /** What `TrimRight` drops is a run of spaces at the back. */
  lemma {:induction false} TrimRightPrefix(s: string)
    ensures TrimRight(s) == s[..|TrimRight(s)|]
    ensures forall k :: |TrimRight(s)| <= k < |s| ==> IsSpace(s[k])
  {
    if s != [] && IsSpace(s[|s| - 1]) {
      TrimRightPrefix(s[..|s| - 1]);
      forall k | |TrimRight(s)| <= k < |s| - 1 ensures IsSpace(s[k]) {
        assert s[k] == s[..|s| - 1][k];
      }
    }
  }

  /** `strings.TrimSpace`: drop leading and trailing white space. */
  function TrimSpace(s: string): (r: string)
    ensures r != [] ==> !IsSpace(r[0]) && !IsSpace(r[|r| - 1])
  {
    TrimRightPrefix(TrimLeft(s));
    TrimRight(TrimLeft(s))
  }

  /** Number of occurrences of `c` in `s`. */
  function CountChar(s: string, c: char): nat {
    if s == [] then 0 else (if s[0] == c then 1 else 0) + CountChar(s[1..], c)
  }

  /** `strings.Join`. */
  function Join(parts: seq<string>, sep: string): string {
    if parts == [] then ""
    else if |parts| == 1 then parts[0]
    else parts[0] + sep + Join(parts[1..], sep)
  }

  /** `strings.Split` with a one-character separator: the pieces between separators. */
  function Split(s: string, sep: char): (parts: seq<string>)
    ensures |parts| == CountChar(s, sep) + 1
    ensures Join(parts, [sep]) == s
    ensures forall i :: 0 <= i < |parts| ==> sep !in parts[i]
  {
    if s == [] then [""]
    else
      var rest := Split(s[1..], sep);
      if s[0] == sep then [""] + rest
      else
        assert s == [s[0]] + Join(rest, [sep]);
        [[s[0]] + rest[0]] + rest[1..]
  }

  /**
   * `strings.Replace(s, pattern, repl, -1)`: every leftmost, non-overlapping
   * occurrence of `pattern`, scanning left to right, becomes `repl`.
   */
  function ReplaceAll(s: string, pattern: string, repl: string): string
    requires |pattern| > 0
  {
    if |s| < |pattern| then s
    else if s[..|pattern|] == pattern then repl + ReplaceAll(s[|pattern|..], pattern, repl)
    else [s[0]] + ReplaceAll(s[1..], pattern, repl)
  }

  /** A string in which `pattern` does not occur does not start with it, and neither does its tail. */
  lemma NotOccursTail(x: string, pattern: string)
    requires !Occurs(x, pattern) && x != []
    ensures !StartsWith(x, pattern) && !Occurs(x[1..], pattern)
  {
    assert x[0..] == x;
    forall i | 0 <= i <= |x[1..]| ensures !StartsWith(x[1..][i..], pattern) {
      assert x[1..][i..] == x[i + 1..];
    }
  }

  lemma {:induction false} ReplaceAllAbsent(s: string, pattern: string, repl: string)
    requires |pattern| > 0
    requires !Occurs(s, pattern)
    ensures ReplaceAll(s, pattern, repl) == s
  {
    if |s| >= |pattern| {
      NotOccursTail(s, pattern);
      ReplaceAllAbsent(s[1..], pattern, repl);
    }
  }

  /** Where `pattern` does not start, one character is copied and scanning moves on. */
  lemma ReplaceAllSkip(s: string, pattern: string, repl: string)
    requires |pattern| > 0 && s != [] && !StartsWith(s, pattern)
    ensures ReplaceAll(s, pattern, repl) == [s[0]] + ReplaceAll(s[1..], pattern, repl)
  {
  }

  /**
   * The first occurrence is replaced and scanning resumes after it: when `pattern`
   * does not occur before position |p| of `p + pattern + q`.
   */
  lemma {:induction false} ReplaceAllFirst(p: string, q: string, pattern: string, repl: string)
    requires |pattern| > 0
    requires !Occurs(p + pattern[..|pattern| - 1], pattern)
    ensures ReplaceAll(p + pattern + q, pattern, repl) == p + repl + ReplaceAll(q, pattern, repl)
  {
    var s := p + pattern + q;
    if p == [] {
      assert s[..|pattern|] == pattern && s[|pattern|..] == q;
    } else {
      var pre := p + pattern[..|pattern| - 1];
      assert !StartsWith(s, pattern) by {
        NotOccursTail(pre, pattern);
        assert s[..|pattern|] == pre[..|pattern|];
      }
      assert !Occurs(p[1..] + pattern[..|pattern| - 1], pattern) by {
        NotOccursTail(pre, pattern);
        assert pre[1..] == p[1..] + pattern[..|pattern| - 1];
      }
      calc {
        ReplaceAll(s, pattern, repl);
        == { ReplaceAllSkip(s, pattern, repl); }
        [s[0]] + ReplaceAll(s[1..], pattern, repl);
        == { assert s[0] == p[0] && s[1..] == p[1..] + pattern + q; }
        [p[0]] + ReplaceAll(p[1..] + pattern + q, pattern, repl);
        == { ReplaceAllFirst(p[1..], q, pattern, repl); }
        [p[0]] + (p[1..] + repl + ReplaceAll(q, pattern, repl));
        == { assert p == [p[0]] + p[1..]; }
        p + repl + ReplaceAll(q, pattern, repl);
      }
    }
  }

  function DigitChar(d: nat): char
    requires d < 10
  {
    "0123456789"[d]
  }

  function DigitValue(c: char): nat
    requires IsDigit(c)
  {
    (c as int - '0' as int) as nat
  }

  /** Decimal rendering of a natural number, most significant digit first. */
  function NatToString(n: nat): (s: string)
    ensures s != [] && AllDigits(s)
  {
    if n < 10 then [DigitChar(n)] else NatToString(n / 10) + [DigitChar(n % 10)]
  }

  /** The value of a string of decimal digits. */
  function DigitsValue(s: string): nat
    requires AllDigits(s)
  {
    if s == [] then 0 else DigitsValue(s[..|s| - 1]) * 10 + DigitValue(s[|s| - 1])
  }

  /** `strconv.Itoa`. */
  function Itoa(n: int): string {
    if n < 0 then "-" + NatToString(-n) else NatToString(n)
  }

  const MinInt64: int := -0x8000_0000_0000_0000
  const MaxInt64: int := 0x7FFF_FFFF_FFFF_FFFF

  /**
   * `strconv.Atoi` on a 64-bit platform: an optional sign followed by at
   * least one decimal digit, whose value fits in 64 bits.
   */
  function Atoi(s: string): (r: Option<int>)
    ensures r.Some? ==> MinInt64 <= r.value <= MaxInt64
  {
    var negative := s != [] && s[0] == '-';
    var digits := if s != [] && (s[0] == '-' || s[0] == '+') then s[1..] else s;
    if digits == [] || !AllDigits(digits) then None
    else
      var d: int := DigitsValue(digits);
      var v: int := if negative then -d else d;
      if MinInt64 <= v <= MaxInt64 then Some(v) else None
  }

  /** `strconv.ParseInt(s, 10, 64)` on a string already known to be digits only. */
  function ParseDigits64(s: string): (r: Option<nat>)
    requires AllDigits(s)
    ensures r.Some? ==> r.value <= MaxInt64
  {
    if s != [] && DigitsValue(s) <= MaxInt64 then Some(DigitsValue(s)) else None
  }

  lemma {:induction false} DigitsOfNat(n: nat)
    ensures DigitsValue(NatToString(n)) == n
  {
    if n >= 10 {
      var s := NatToString(n);
      assert s[..|s| - 1] == NatToString(n / 10);
      DigitsOfNat(n / 10);
    }
  }

  /** Itoa and Atoi are inverse on the 64-bit range. */
  lemma AtoiItoa(n: int)
    requires MinInt64 <= n <= MaxInt64
    ensures Atoi(Itoa(n)) == Some(n)
  {
    if n < 0 {
      DigitsOfNat(-n);
      assert Itoa(n)[1..] == NatToString(-n);
    } else {
      DigitsOfNat(n);
    }
  }

  /** ASCII lower-casing of one character. */
  function LowerChar(c: char): char {
    if 'A' <= c <= 'Z' then (c as int + 32) as char else c
  }

  /** ASCII lower-casing; the only characters `strings.ToLower` maps onto "true" or "false". */
  function AsciiLower(s: string): (r: string)
    ensures |r| == |s| && forall i :: 0 <= i < |s| ==> r[i] == LowerChar(s[i])
  {
    if s == [] then [] else [LowerChar(s[0])] + AsciiLower(s[1..])
  }

  /** An integer wrapped to two's-complement 64 bits, as Go's int64 arithmetic does. */
  function Wrap64(x: int): (r: int)
    ensures MinInt64 <= r <= MaxInt64
    ensures (r - x) % 0x1_0000_0000_0000_0000 == 0
  {
    var m := x % 0x1_0000_0000_0000_0000;
    if m > MaxInt64 then m - 0x1_0000_0000_0000_0000 else m
  }
}
