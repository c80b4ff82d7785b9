/** Character and string helpers that the pages get from the JavaScript runtime:
    decimal digits and `String(n)`, `toLowerCase`, the `\s` character class and `trim`. */
module Text {

  predicate IsDigit(c: char) { '0' <= c <= '9' }

  predicate AllDigits(s: string) { forall k :: 0 <= k < |s| ==> IsDigit(s[k]) }

  function DigitValue(c: char): nat
    requires IsDigit(c)
  {
    c as int - '0' as int
  }

  function DigitChar(d: nat): (c: char)
    requires d < 10
    ensures IsDigit(c) && DigitValue(c) == d
  {
    ('0' as int + d) as char
  }

  /** The value of a run of decimal digits, as `Number("0042")` reads it (leading zeros allowed). */
  function DigitsValue(s: string): nat
    requires AllDigits(s)
  {
    if s == [] then 0 else 10 * DigitsValue(s[..|s| - 1]) + DigitValue(s[|s| - 1])
  }

  /** The shortest decimal spelling of n, as `String(n)` writes a non-negative integer. */
  function Decimal(n: nat): (r: string)
    ensures |r| > 0 && AllDigits(r)
    ensures DigitsValue(r) == n
    ensures |r| > 1 ==> r[0] != '0'
  {
    if n < 10 then [DigitChar(n)]
    else
      var init := Decimal(n / 10);
      var r := init + [DigitChar(n % 10)];
      assert r[..|r| - 1] == init;
      r
  }

  /** `String(n)` for an integer-valued number. */
  function IntDecimal(i: int): (r: string)
    ensures |r| > 0
    ensures i >= 0 ==> AllDigits(r) && DigitsValue(r) == i
    ensures i < 0 ==> r[0] == '-' && AllDigits(r[1..]) && DigitsValue(r[1..]) == -i
  {
    if i < 0 then "-" + Decimal(-i) else Decimal(i)
  }

  /** `toLowerCase` on one character; only the ASCII letters are folded here. */
  function LowerChar(c: char): char
  {
    if 'A' <= c <= 'Z' then (c as int + 32) as char else c
  }

  function Lower(s: string): (r: string)
    ensures |r| == |s| && forall k :: 0 <= k < |s| ==> r[k] == LowerChar(s[k])
  {
    seq(|s|, k requires 0 <= k < |s| => LowerChar(s[k]))
  }

  /** The JavaScript `\s` class, which is also the set `trim` removes: white space and line terminators. */
  predicate IsWhitespace(c: char)
  {
    || c == '\t' || c == '\n' || c == '\U{000B}' || c == '\U{000C}' || c == '\r' || c == ' '
    || c == '\U{00A0}' || c == '\U{1680}' || ('\U{2000}' <= c <= '\U{200A}')
    || c == '\U{2028}' || c == '\U{2029}' || c == '\U{202F}' || c == '\U{205F}'
    || c == '\U{3000}' || c == '\U{FEFF}'
  }

  predicate AllWhitespace(s: string) { forall k :: 0 <= k < |s| ==> IsWhitespace(s[k]) }

  function TrimStart(s: string): (r: string)
    ensures |r| <= |s| && r == s[|s| - |r|..]
    ensures AllWhitespace(s[..|s| - |r|])
    ensures r == [] || !IsWhitespace(r[0])
  {
    if s != [] && IsWhitespace(s[0]) then TrimStart(s[1..]) else s
  }

  function TrimEnd(s: string): (r: string)
    ensures |r| <= |s| && r == s[..|r|]
    ensures AllWhitespace(s[|r|..])
    ensures r == [] || !IsWhitespace(r[|r| - 1])
  {
    if s != [] && IsWhitespace(s[|s| - 1]) then TrimEnd(s[..|s| - 1]) else s
  }

  /** `String.prototype.trim`. */
  function Trim(s: string): string
  {
    TrimEnd(TrimStart(s))
  }

  /** Padding made only of white space on either side does not change what `trim` returns. */
  lemma {:induction false} TrimIgnoresPadding(left: string, s: string, right: string)
    requires AllWhitespace(left) && AllWhitespace(right)
    ensures Trim(left + s + right) == Trim(s)
  {
    assert left + s + right == left + (s + right);
    TrimStartPadding(left, s + right);
    TrimStartAppend(s, right);
    if TrimStart(s) != [] {
      TrimEndPadding(TrimStart(s), right);
    }
  }

  lemma {:induction false} TrimStartPadding(left: string, s: string)
    requires AllWhitespace(left)
    ensures TrimStart(left + s) == TrimStart(s)
    decreases |left|
  {
    if left != [] {
      assert (left + s)[1..] == left[1..] + s;
      TrimStartPadding(left[1..], s);
    } else {
      assert left + s == s;
    }
  }

  lemma {:induction false} TrimEndPadding(s: string, right: string)
    requires AllWhitespace(right)
    ensures TrimEnd(s + right) == TrimEnd(s)
    decreases |right|
  {
    if right != [] {
      var n := |right|;
      assert (s + right)[..|s| + n - 1] == s + right[..n - 1];
      TrimEndPadding(s, right[..n - 1]);
    } else {
      assert s + right == s;
    }
  }

  /** Appending white space after a string that is not all white space survives `TrimStart`. */
  lemma {:induction false} TrimStartAppend(s: string, right: string)
    requires AllWhitespace(right)
    ensures TrimStart(s + right) == if TrimStart(s) == [] then [] else TrimStart(s) + right
    decreases |s|
  {
    if s == [] {
      assert s + right == right;
      AllWhitespaceTrimsAway(right);
    } else if IsWhitespace(s[0]) {
      assert (s + right)[1..] == s[1..] + right;
      TrimStartAppend(s[1..], right);
    } else {
      assert (s + right)[0] == s[0];
    }
  }

  lemma {:induction false} AllWhitespaceTrimsAway(s: string)
    requires AllWhitespace(s)
    ensures TrimStart(s) == []
    decreases |s|
  {
    if s != [] {
      AllWhitespaceTrimsAway(s[1..]);
    }
  }

  /** Concatenation regroups freely; stated once so proofs need not unfold recursive functions to see it. */
  lemma Assoc<T>(x: seq<T>, y: seq<T>, z: seq<T>)
    ensures x + (y + z) == x + y + z
  {
  }
}
