/** The string primitives the serialisers and the palette parser rely on:
    `str::split_whitespace`, `str::lines`, `format!("{}", n)` for unsigned integers,
    unsigned `from_str`, `chars().take(n)`, `str::contains` and `to_lowercase`. */
module Text {
  import opened Wrappers

  /** `char::is_whitespace`: the Unicode White_Space property. */
  predicate IsWhitespace(c: char)
  {
    ('\t' <= c <= '\r') || c == ' ' || c == '\U{85}' || c == '\U{A0}' || c == '\U{1680}' ||
    ('\U{2000}' <= c <= '\U{200A}') || c == '\U{2028}' || c == '\U{2029}' || c == '\U{202F}' ||
    c == '\U{205F}' || c == '\U{3000}'
  }

  predicate NoWhitespace(s: string)
  {
    forall i :: 0 <= i < |s| ==> !IsWhitespace(s[i])
  }

  /** The length of the run of non-whitespace characters at the front of s. */
  function TokenLength(s: string): (n: nat)
    ensures n <= |s| && NoWhitespace(s[..n]) && (n < |s| ==> IsWhitespace(s[n]))
  {
    if s == [] || IsWhitespace(s[0]) then 0
    else
      var n := TokenLength(s[1..]);
      assert s[..n + 1] == [s[0]] + s[1..][..n];
      n + 1
  }

  /** `split_whitespace`: the maximal runs of non-whitespace characters, in order. */
  function Split(s: string): (tokens: seq<string>)
    ensures forall k :: 0 <= k < |tokens| ==> tokens[k] != [] && NoWhitespace(tokens[k])
    decreases |s|
  {
    if s == [] then []
    else if IsWhitespace(s[0]) then Split(s[1..])
    else
      var n := TokenLength(s);
      [s[..n]] + Split(s[n..])
  }

  /** Text that ends in whitespace splits independently of what follows it. */
  lemma {:induction false} SplitAppend(a: string, b: string)
    requires a == [] || IsWhitespace(a[|a| - 1])
    ensures Split(a + b) == Split(a) + Split(b)
    decreases |a|
  {
    if a == [] {
      assert a + b == b;
    } else if IsWhitespace(a[0]) {
      assert (a + b)[1..] == a[1..] + b;
      SplitAppend(a[1..], b);
    } else {
      var n := TokenLength(a);
      assert n < |a|;
      TokenLengthAppend(a, b);
      assert (a + b)[..n] == a[..n];
      assert (a + b)[n..] == a[n..] + b;
      SplitAppend(a[n..], b);
    }
  }

  /** A token that ends inside a ends at the same place in a + b. */
  lemma {:induction false} TokenLengthAppend(a: string, b: string)
    requires TokenLength(a) < |a|
    ensures TokenLength(a + b) == TokenLength(a)
    decreases |a|
  {
    if !IsWhitespace(a[0]) {
      assert (a + b)[1..] == a[1..] + b;
      TokenLengthAppend(a[1..], b);
    }
  }

  /** A token followed by one whitespace character splits into just that token. */
  lemma {:induction false} SplitToken(t: string, sep: char)
    requires t != [] && NoWhitespace(t) && IsWhitespace(sep)
    ensures Split(t + [sep]) == [t]
  {
    var s := t + [sep];
    TokenLengthWhole(t, sep);
    assert s[..|t|] == t;
    assert s[|t|..] == [sep];
    assert Split([sep]) == Split([sep][1..]) == [];
  }

  lemma {:induction false} TokenLengthWhole(t: string, sep: char)
    requires NoWhitespace(t) && IsWhitespace(sep)
    ensures TokenLength(t + [sep]) == |t|
    decreases |t|
  {
    if t != [] {
      assert (t + [sep])[1..] == t[1..] + [sep];
      TokenLengthWhole(t[1..], sep);
    }
  }

  predicate IsDigit(c: char)
  {
    '0' <= c <= '9'
  }

  predicate AllDigits(s: string)
  {
    forall i :: 0 <= i < |s| ==> IsDigit(s[i])
  }

  function DigitChar(d: nat): (c: char)
    requires d < 10
    ensures IsDigit(c) && !IsWhitespace(c)
  {
    ('0' as int + d) as char
  }

  function DigitValue(c: char): (d: nat)
    requires IsDigit(c)
    ensures d < 10
  {
    (c as int) - ('0' as int)
  }

  /** `format!("{}", n)` for an unsigned integer: its decimal digits, without leading zeros. */
  function NatToString(n: nat): (s: string)
    ensures s != [] && AllDigits(s) && NoWhitespace(s)
    ensures n < 10 <==> |s| == 1
    decreases n
  {
    if n < 10 then [DigitChar(n)] else NatToString(n / 10) + [DigitChar(n % 10)]
  }

  /** The number a digit string denotes. */
  function DigitsValue(s: string): nat
    requires AllDigits(s)
  {
    if s == [] then 0 else DigitsValue(s[..|s| - 1]) * 10 + DigitValue(s[|s| - 1])
  }

  lemma {:induction false} DigitsOfNat(n: nat)
    ensures DigitsValue(NatToString(n)) == n
    decreases n
  {
    if n >= 10 {
      DigitsOfNat(n / 10);
      var s := NatToString(n);
      assert s[..|s| - 1] == NatToString(n / 10);
      assert DigitValue(DigitChar(n % 10)) == n % 10;
    } else {
      assert DigitValue(DigitChar(n)) == n;
    }
  }

  function Pow10(n: nat): (p: nat)
    ensures p >= 1
  {
    if n == 0 then 1 else 10 * Pow10(n - 1)
  }

  /** k digits denote a number below 10^k. */
  lemma {:induction false} DigitsBound(s: string)
    requires AllDigits(s)
    ensures DigitsValue(s) < Pow10(|s|)
  {
    if s != [] {
      DigitsBound(s[..|s| - 1]);
    }
  }

  /** At most three digits denote a number below 1000. */
  lemma {:induction false} ShortDigitsBound(s: string)
    requires AllDigits(s) && |s| <= 3
    ensures DigitsValue(s) < 1000
  {
    DigitsBound(s);
    assert Pow10(3) == 1000;
  }

  /** A number below 256 prints in at most three digits. */
  lemma {:induction false} ByteDigits(n: nat)
    requires n < 256
    ensures |NatToString(n)| <= 3
  {
    if n >= 10 {
      assert n / 10 < 100;
      if n / 10 >= 10 {
        assert |NatToString(n / 10 / 10)| == 1;
      }
    }
  }

  /** A non-empty string of ASCII digits read as a number; anything else is None. */
  function ParseDigits(s: string): (r: Option<nat>)
    ensures r.Some? <==> s != [] && AllDigits(s)
    ensures r.Some? ==> r.value == DigitsValue(s)
  {
    if s == [] || !AllDigits(s) then None else Some(DigitsValue(s))
  }

  /** `from_str` for an unsigned integer type whose values lie below `bound`: an optional
      leading '+', then one or more ASCII digits whose value fits the type; anything
      else (empty text, a lone sign, a '-', another character, an overflow) is an error. */
  function ParseUnsigned(s: string, bound: nat): (r: Option<nat>)
    ensures r.Some? ==> r.value < bound
    ensures s != [] && s[0] != '+' ==> (r.Some? <==> ParseDigits(s).Some? && ParseDigits(s).value < bound)
  {
    var digits := if s != [] && s[0] == '+' then s[1..] else s;
    match ParseDigits(digits)
    case Some(n) => if n < bound then Some(n) else None
    case None => None
  }

  /** Printing then parsing gives the number back. */
  lemma {:induction false} ParsePrinted(n: nat, bound: nat)
    requires n < bound
    ensures ParseUnsigned(NatToString(n), bound) == Some(n)
  {
    DigitsOfNat(n);
  }

  /** `s.chars().take(n).collect::<String>()`. */
  function Take(s: string, n: nat): (r: string)
    ensures |r| <= n && |r| <= |s| && r == s[..|r|] && (|s| >= n ==> |r| == n) && (|s| < n ==> r == s)
  {
    if |s| <= n then s else s[..n]
  }

  /** `s.contains(sub)`. */
  predicate Contains(s: string, sub: string)
    decreases |s|
  {
    |sub| <= |s| && (s[..|sub|] == sub || Contains(s[1..], sub))
  }

  lemma {:induction false} ContainsAt(s: string, sub: string, i: nat)
    requires i + |sub| <= |s| && s[i..i + |sub|] == sub
    ensures Contains(s, sub)
    decreases i
  {
    if i > 0 {
      assert s[1..][i - 1..i - 1 + |sub|] == s[i..i + |sub|];
      ContainsAt(s[1..], sub, i - 1);
    }
  }

  /** `to_lowercase` on ASCII letters; every other character is kept. */
  function ToLower(s: string): (r: string)
    ensures |r| == |s|
    ensures forall i :: 0 <= i < |s| ==> r[i] == if 'A' <= s[i] <= 'Z' then (s[i] as int + 32) as char else s[i]
  {
    seq(|s|, i requires 0 <= i < |s| => if 'A' <= s[i] <= 'Z' then (s[i] as int + 32) as char else s[i])
  }

  /** The end of the first line: the index of the first '\n', or |s| without one. */
  function LineEnd(s: string): (n: nat)
    ensures n <= |s| && (forall i :: 0 <= i < n ==> s[i] != '\n') && (n < |s| ==> s[n] == '\n')
  {
    if s == [] || s[0] == '\n' then 0 else LineEnd(s[1..]) + 1
  }

  /** `str::lines`: the text cut at every '\n', a '\r' before the '\n' dropped, and no
      empty line after a final '\n'. */
  function Lines(s: string): (lines: seq<string>)
    ensures forall k :: 0 <= k < |lines| ==> '\n' !in lines[k]
    decreases |s|
  {
    if s == [] then []
    else
      var n := LineEnd(s);
      var line := s[..n];
      assert '\n' !in line by {
        assert forall i :: 0 <= i < |line| ==> line[i] == s[i];
      }
      if n == |s| then [line]
      else
        var stripped := if line != [] && line[|line| - 1] == '\r' then line[..|line| - 1] else line;
        [stripped] + Lines(s[n + 1..])
  }
}
