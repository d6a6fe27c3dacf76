/** Text helpers shared by the log writer and the log reader: Python's
    `str.strip()`, substring search (`in` on strings), the search for a
    two-character separator that the log grammar relies on, and decimal
    digits. */
module Strings {
  import opened Wrappers

  /** The characters for which Python's `str.isspace()` is true. */
  predicate IsSpace(c: char)
  {
    || c == ' ' || c == '\t' || c == '\n' || c == '\r'
    || c == '\U{0B}' || c == '\U{0C}'
    || ('\U{1C}' <= c <= '\U{1F}')
    || c == '\U{85}' || c == '\U{A0}' || c == '\U{1680}'
    || ('\U{2000}' <= c <= '\U{200A}')
    || c == '\U{2028}' || c == '\U{2029}' || c == '\U{202F}'
    || c == '\U{205F}' || c == '\U{3000}'
  }

  /** `s.lstrip()`. */
  function LStrip(s: string): string
  {
    if s != [] && IsSpace(s[0]) then LStrip(s[1..]) else s
  }

  /** `s.rstrip()`. */
  function RStrip(s: string): string
  {
    if s != [] && IsSpace(s[|s| - 1]) then RStrip(s[..|s| - 1]) else s
  }

  /** `s.strip()`. */
  function Strip(s: string): string
  {
    RStrip(LStrip(s))
  }

  /** `lstrip` drops leading whitespace and nothing else. */
  lemma {:induction false} LStripSpec(s: string)
    ensures |LStrip(s)| <= |s| && LStrip(s) == s[|s| - |LStrip(s)|..]
    ensures LStrip(s) == [] || !IsSpace(LStrip(s)[0])
    ensures forall k :: 0 <= k < |s| - |LStrip(s)| ==> IsSpace(s[k])
  {
    if s != [] && IsSpace(s[0]) {
      var rest := s[1..];
      LStripSpec(rest);
      assert LStrip(s) == LStrip(rest);
      assert forall k :: 1 <= k < |s| ==> s[k] == rest[k - 1];
    }
  }

  /** `rstrip` drops trailing whitespace and nothing else. */
  lemma {:induction false} RStripSpec(s: string)
    ensures |RStrip(s)| <= |s| && RStrip(s) == s[..|RStrip(s)|]
    ensures RStrip(s) == [] || !IsSpace(RStrip(s)[|RStrip(s)| - 1])
    ensures forall k :: |RStrip(s)| <= k < |s| ==> IsSpace(s[k])
  {
    if s != [] && IsSpace(s[|s| - 1]) {
      RStripSpec(s[..|s| - 1]);
    }
  }

  /** Whitespace appended to a text is all taken off again by `rstrip`. */
  lemma {:induction false} RStripPadded(s: string, w: string)
    requires forall k :: 0 <= k < |w| ==> IsSpace(w[k])
    ensures RStrip(s + w) == RStrip(s)
  {
    if w != [] {
      var front := w[..|w| - 1];
      assert (s + w)[..|s + w| - 1] == s + front;
      RStripPadded(s, front);
    } else {
      assert s + w == s;
    }
  }

  /** A string that neither starts nor ends with whitespace is its own strip. */
  lemma StripUnpadded(s: string)
    requires s != [] ==> !IsSpace(s[0]) && !IsSpace(s[|s| - 1])
    ensures Strip(s) == s
  {
  }

  /** The two characters `a`, `b` stand at positions `k`, `k + 1` of `s`. */
  predicate PairAt(s: string, k: int, a: char, b: char)
  {
    0 <= k && k + 1 < |s| && s[k] == a && s[k + 1] == b
  }

  /** `s` contains the separator `ab` somewhere. */
  predicate HasPair(s: string, a: char, b: char)
  {
    exists k :: 0 <= k < |s| && PairAt(s, k, a, b)
  }

  /** The first position at or after `from` where the separator `ab` starts,
      the search a lazy `(.*?)ab` in a regular expression performs. */
  function FindPair(s: string, from: nat, a: char, b: char): (r: Option<nat>)
    decreases |s| - from
    ensures r.Some? ==> from <= r.value && PairAt(s, r.value, a, b)
    ensures r.Some? ==> forall k :: from <= k < r.value ==> !PairAt(s, k, a, b)
    ensures r.None? ==> forall k :: from <= k ==> !PairAt(s, k, a, b)
  {
    if from + 1 >= |s| then None
    else if s[from] == a && s[from + 1] == b then Some(from)
    else FindPair(s, from + 1, a, b)
  }

  /** `p` occurs in `s` starting at position `k`. */
  predicate InfixAt(s: string, p: string, k: int)
  {
    0 <= k && k + |p| <= |s| && s[k..k + |p|] == p
  }

  /** Python's `p in s` for strings. */
  function Contains(s: string, p: string): (r: bool)
    ensures r <==> exists k :: InfixAt(s, p, k)
  {
    if |p| <= |s| && s[..|p|] == p then
      assert InfixAt(s, p, 0);
      true
    else if s == [] then
      false
    else
      var r := Contains(s[1..], p);
      assert forall k :: InfixAt(s[1..], p, k) ==> InfixAt(s, p, k + 1);
      assert forall k :: InfixAt(s, p, k) && k > 0 ==> InfixAt(s[1..], p, k - 1);
      r
  }

  /** What Python's regular-expression `.` can consume of `s`: the text before
      the first newline. */
  function BeforeNewline(s: string): string
  {
    if s == [] || s[0] == '\n' then [] else [s[0]] + BeforeNewline(s[1..])
  }

  /** `BeforeNewline` is the longest prefix without a newline. */
  lemma {:induction false} BeforeNewlineSpec(s: string)
    ensures |BeforeNewline(s)| <= |s| && BeforeNewline(s) == s[..|BeforeNewline(s)|]
    ensures '\n' !in BeforeNewline(s)
    ensures |BeforeNewline(s)| < |s| ==> s[|BeforeNewline(s)|] == '\n'
  {
    if s != [] && s[0] != '\n' {
      BeforeNewlineSpec(s[1..]);
    }
  }

  predicate IsDigit(c: char)
  {
    '0' <= c <= '9'
  }

  function DigitChar(d: int): (c: char)
    requires 0 <= d < 10
    ensures IsDigit(c)
  {
    ('0' as int + d) as char
  }

  function DigitValue(c: char): (d: int)
    requires IsDigit(c)
    ensures 0 <= d < 10 && DigitChar(d) == c
  {
    c as int - '0' as int
  }

  /** Python's `str(n)` for a natural number. */
  function NatToDecimal(n: nat): (r: string)
    ensures r != [] && forall k :: 0 <= k < |r| ==> IsDigit(r[k])
  {
    if n < 10 then [DigitChar(n)] else NatToDecimal(n / 10) + [DigitChar(n % 10)]
  }
}
