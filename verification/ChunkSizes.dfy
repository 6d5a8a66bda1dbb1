/**
  Size lines that other writers send: strtoul on base 16 takes blanks, a sign, a prefix, digits in either
  case, and stops at whatever follows.
*/
module ChunkSizes {
  import opened Text
  import opened Query
  import opened QueryLaws
  import opened ChunkedCoding

  // The number that a list of digit values stands for.
  function ValueOf(v: seq<nat>): nat {
    if v == [] then 0 else ValueOf(v[..|v| - 1]) * 16 + v[|v| - 1]
  }

  ghost predicate AreDigits(d: string, v: seq<nat>) {
    |d| == |v| && forall i :: 0 <= i < |v| ==> IsDigitOf(d[i], v[i])
  }

  ghost predicate EndsDigits(tail: string) {
    tail == "" || HexValue(tail[0]) < 0
  }

  lemma {:induction false} DigitsHaveValue(d: string, v: seq<nat>)
    requires AreDigits(d, v)
    ensures DigitCount(d) == |d| && DigitsValue(d, 0) == ValueOf(v)
    decreases |d|
  {
    hide IsDigitOf, HexValue;
    if d != "" {
      var init, last := d[..|d| - 1], d[|d| - 1];
      DigitsHaveValue(init, v[..|v| - 1]);
      DigitHasValue(last, v[|v| - 1]);
      DigitsValueSnoc(init, last, 0);
      assert d == init + [last];
    }
  }

  lemma DigitsEnd(d: string, v: seq<nat>, tail: string)
    requires AreDigits(d, v) && EndsDigits(tail)
    ensures DigitCount(d + tail) == |d| && DigitsValue(d + tail, 0) == ValueOf(v)
  {
    DigitsHaveValue(d, v);
    if tail == "" {
      Nothing(d);
    } else {
      DigitsStop(d, tail, 0);
    }
  }

  // What stands before the digits.
  ghost predicate IsPrefix(prefix: string) {
    prefix == "" || prefix == "0x" || prefix == "0X"
  }

  ghost predicate IsSign(sign: string) {
    sign == "" || sign == "+" || sign == "-"
  }

  ghost predicate AreCSpaces(s: string) {
    forall i :: 0 <= i < |s| ==> IsCSpace(s[i])
  }

  // A lone zero is no prefix, unless more digits follow an x.
  ghost predicate IsNoPrefix(digits: string, tail: string) {
    digits == "0" ==> !(|tail| > 1 && (tail[0] == 'x' || tail[0] == 'X') && HexValue(tail[1]) >= 0)
  }

  lemma UnsignedIs(prefix: string, digits: string, v: seq<nat>, tail: string)
    requires IsPrefix(prefix) && digits != "" && AreDigits(digits, v) && EndsDigits(tail)
    requires prefix == "" ==> IsNoPrefix(digits, tail)
    ensures Unsigned(prefix + digits + tail) == ValueOf(v)
  {
    hide IsDigitOf;
    var s := prefix + digits + tail;
    DigitsEnd(digits, v, tail);
    DigitHasValue(digits[0], v[0]);
    if prefix != "" {
      assert s[2..] == digits + tail && s[2] == digits[0];
    } else {
      assert s == digits + tail;
      if |digits| > 1 { DigitHasValue(digits[1], v[1]); }
      NoDigit();
    }
  }

  lemma NoDigit()
    ensures HexValue('x') < 0 && HexValue('X') < 0
  {
  }

  lemma {:induction false} SkipsCSpace(spaces: string, s: string)
    requires AreCSpaces(spaces) && s != "" && !IsCSpace(s[0])
    ensures SkipCSpace(spaces + s) == s
    decreases |spaces|
  {
    if spaces == "" {
      assert spaces + s == s;
    } else {
      assert (spaces + s)[1..] == spaces[1..] + s;
      SkipsCSpace(spaces[1..], s);
    }
  }

  lemma DigitIsNoMark(c: char, v: nat)
    requires IsDigitOf(c, v)
    ensures c != '+' && c != '-' && c != '\0' && !IsCSpace(c)
  {
  }

  lemma DigitsAreNoMarks(digits: string, v: seq<nat>)
    requires AreDigits(digits, v)
    ensures '\0' !in digits && (digits != "" ==> digits[0] != '+' && digits[0] != '-' && !IsCSpace(digits[0]))
  {
    forall i | 0 <= i < |digits| ensures digits[i] != '\0' { DigitIsNoMark(digits[i], v[i]); }
    if digits != "" { DigitIsNoMark(digits[0], v[0]); }
  }

  lemma NoZeroByte(spaces: string, sign: string, prefix: string, digits: string, v: seq<nat>)
    requires AreCSpaces(spaces) && IsSign(sign) && IsPrefix(prefix) && AreDigits(digits, v)
    ensures '\0' !in spaces + (sign + (prefix + digits))
  {
    hide IsDigitOf;
    DigitsAreNoMarks(digits, v);
    forall c | c in spaces + (sign + (prefix + digits)) ensures c != '\0' {
      assert c in spaces || c in sign || c in prefix || c in digits;
    }
  }

  // The text up to its first zero byte.
  lemma CutAtZero(s: string, tail: string)
    requires '\0' !in s
    ensures (s + tail)[..IndexOf(s + tail, '\0')] == s + tail[..IndexOf(tail, '\0')]
  {
    var k := IndexOf(tail, '\0');
    assert (s + tail)[..|s| + k] == s + tail[..k];
    assert '\0' !in tail[..k];
    IndexOfIs(s + tail, '\0', |s| + k);
  }

  // The size that a line announces: what follows the digits, an extension say, does not matter, a minus sign
  // wraps, and a number that is too large saturates.
  lemma SizeLineIs(spaces: string, sign: string, prefix: string, digits: string, v: seq<nat>, tail: string)
    requires AreCSpaces(spaces) && IsSign(sign) && IsPrefix(prefix) && AreDigits(digits, v) && digits != ""
    requires EndsDigits(tail) && (prefix == "" ==> IsNoPrefix(digits, tail))
    ensures Strtoul16(spaces + (sign + (prefix + digits)) + tail)
         == if ValueOf(v) > ULONG_MAX then ULONG_MAX
            else if sign == "-" && ValueOf(v) > 0 then ULONG_MAX + 1 - ValueOf(v)
            else ValueOf(v)
  {
    hide IsDigitOf, Unsigned, SkipCSpace, IndexOf;
    var end := tail[..IndexOf(tail, '\0')];
    var number := prefix + digits + end;
    NoZeroByte(spaces, sign, prefix, digits, v);
    CutAtZero(spaces + (sign + (prefix + digits)), tail);
    DigitsAreNoMarks(digits, v);
    assert spaces + (sign + (prefix + digits)) + end == spaces + (sign + number);
    assert number[0] == if prefix == "" then digits[0] else '0';
    SkipsCSpace(spaces, sign + number);
    assert sign != "" ==> (sign + number)[1..] == number;
    assert sign == "" ==> sign + number == number;
    UnsignedIs(prefix, digits, v, end);
  }
}
