/**
 * Decimal text of unsigned integers (Rust's `to_string` on `u8` and `usize`),
 * its inverse, and the whitespace tokenisation a plain-PPM reader applies.
 */
module Numerals {

  predicate IsDigit(c: char) {
    '0' <= c <= '9'
  }

  /** The separators a Netpbm reader skips; the writer emits only these two. */
  predicate IsSpace(c: char) {
    c == ' ' || c == '\n'
  }

  function DigitChar(d: nat): (c: char)
    requires d < 10
    ensures IsDigit(c) && c as int - '0' as int == d
  {
    ('0' as int + d) as char
  }

  /** Decimal digits of `n` without leading zeros. */
  function ToDecimal(n: nat): (s: string)
    ensures 1 <= |s|
    ensures n < 10 ==> |s| == 1
    ensures n < 100 ==> |s| <= 2
    ensures n < 1000 ==> |s| <= 3
    decreases n
  {
    if n < 10 then [DigitChar(n)] else ToDecimal(n / 10) + [DigitChar(n % 10)]
  }

  /** The decimal text has no leading zero: it starts with `0` only for `n == 0`. */
  lemma {:induction false} NoLeadingZero(n: nat)
    ensures ToDecimal(n)[0] == '0' <==> n == 0
    decreases n
  {
    if n >= 10 {
      NoLeadingZero(n / 10);
      assert ToDecimal(n)[0] == ToDecimal(n / 10)[0];
    }
  }

  /** Reads a string of decimal digits, most significant first. */
  function ParseDecimal(s: string): nat
    requires IsDecimal(s)
  {
    if s == [] then 0
    else
      assert IsDigit(s[|s| - 1]);
      ParseDecimal(s[..|s| - 1]) * 10 + (s[|s| - 1] as int - '0' as int)
  }

  /** The decimal text consists of digits only. */
  lemma {:induction false} DecimalDigits(n: nat)
    ensures IsDecimal(ToDecimal(n))
  {
    if n >= 10 {
      DecimalDigits(n / 10);
    }
  }

  /** Reading back the decimal text gives the number. */
  lemma {:induction false} ParseToDecimal(n: nat)
    ensures IsDecimal(ToDecimal(n)) && ParseDecimal(ToDecimal(n)) == n
  {
    var s := ToDecimal(n);
    DecimalDigits(n);
    if n >= 10 {
      ParseToDecimal(n / 10);
      assert s[..|s| - 1] == ToDecimal(n / 10);
    }
  }

  /** A word: non-empty and free of separators. */
  predicate IsWord(s: string) {
    |s| > 0 && forall i :: 0 <= i < |s| ==> !IsSpace(s[i])
  }

  /** `String::from_utf8(vec![b' '; n])`. */
  function Spaces(n: nat): (s: string)
    ensures |s| == n
  {
    seq(n, _ => ' ')
  }

  /**
   * Splits `s` into its maximal runs of non-separators; `cur` is the part of
   * the current word already read.
   */
  function TokensFrom(s: string, cur: string): seq<string>
  {
    if s == [] then
      (if cur == [] then [] else [cur])
    else if IsSpace(s[0]) then
      (if cur == [] then [] else [cur]) + TokensFrom(s[1..], [])
    else
      TokensFrom(s[1..], cur + [s[0]])
  }

  /** The whitespace-separated tokens of `s`. */
  function Tokens(s: string): seq<string> {
    TokensFrom(s, [])
  }

  /** Text that ends in a separator tokenises independently of what follows. */
  lemma {:induction false} TokensSplit(a: string, b: string, cur: string)
    requires |a| > 0 && IsSpace(a[|a| - 1])
    ensures TokensFrom(a + b, cur) == TokensFrom(a, cur) + TokensFrom(b, [])
  {
    assert (a + b)[1..] == a[1..] + b;
    if |a| == 1 {
      assert a[1..] == [];
    } else if IsSpace(a[0]) {
      TokensSplit(a[1..], b, []);
    } else {
      TokensSplit(a[1..], b, cur + [a[0]]);
    }
  }

  /** A word followed by a separator is exactly one token. */
  lemma {:induction false} TokensOfWord(w: string, c: char, cur: string)
    requires forall i :: 0 <= i < |w| ==> !IsSpace(w[i])
    requires IsSpace(c) && |cur + w| > 0
    ensures TokensFrom(w + [c], cur) == [cur + w]
  {
    if w == [] {
      assert w + [c] == [c] && [c][1..] == [] && cur + w == cur;
    } else {
      assert (w + [c])[1..] == w[1..] + [c];
      TokensOfWord(w[1..], c, cur + [w[0]]);
      assert cur + [w[0]] + w[1..] == cur + w;
    }
  }

  /** Separators alone yield no token. */
  lemma {:induction false} TokensOfSpaces(s: string)
    requires forall i :: 0 <= i < |s| ==> IsSpace(s[i])
    ensures Tokens(s) == []
  {
    if s != [] {
      TokensOfSpaces(s[1..]);
    }
  }

  /** A decimal is a word. */
  lemma DecimalIsWord(n: nat)
    ensures IsWord(ToDecimal(n))
  {
    var s := ToDecimal(n);
    DecimalDigits(n);
    forall i | 0 <= i < |s| ensures !IsSpace(s[i]) {
      assert IsDigit(s[i]);
    }
  }

  /** `n` followed by one separator tokenises to the decimal of `n`. */
  lemma TokensOfDecimal(n: nat, c: char)
    requires IsSpace(c)
    ensures Tokens(ToDecimal(n) + [c]) == [ToDecimal(n)]
  {
    DecimalIsWord(n);
    TokensOfWord(ToDecimal(n), c, []);
    assert [] + ToDecimal(n) == ToDecimal(n);
  }

  /** Tokenising distributes over text whose first part is empty or ends in a separator. */
  lemma TokensAppend(a: string, b: string)
    requires a == [] || IsSpace(a[|a| - 1])
    ensures Tokens(a + b) == Tokens(a) + Tokens(b)
  {
    if a == [] {
      assert a + b == b;
    } else {
      TokensSplit(a, b, []);
    }
  }

  /** Text made only of digits. */
  predicate IsDecimal(s: string) {
    forall i :: 0 <= i < |s| ==> IsDigit(s[i])
  }

  /** The decimal text of a byte value. */
  predicate IsByteText(s: string) {
    IsDecimal(s) && ParseDecimal(s) < 256
  }

  /** Every token in `ts` is the decimal text of a byte value. */
  predicate AllByteTexts(ts: seq<string>) {
    forall s :: s in ts ==> IsByteText(s)
  }

  lemma ByteText(b: nat)
    requires b < 256
    ensures 1 <= |ToDecimal(b)| <= 3
    ensures IsByteText(ToDecimal(b))
  {
    ParseToDecimal(b);
  }
}
