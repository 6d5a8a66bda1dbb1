/**
  Percent coding by its effect on characters: what decoding does with every kind of character and escape,
  and which characters encoding puts out.
*/
module QueryLaws {
  import opened Text
  import opened Query

  // ---- decoding from the left ----

  const HEX_DIGITS := "0123456789abcdef"

  function Lower(c: char): char {
    if 'A' <= c <= 'F' then (c as int + 32) as char else c
  }

  // c is the hexadecimal digit, in either case, that stands for v.
  ghost predicate IsDigitOf(c: char, v: nat) {
    v < 16 && Lower(c) == HEX_DIGITS[v]
  }

  lemma DigitHasValue(c: char, v: nat)
    requires IsDigitOf(c, v)
    ensures HexValue(c) == v && c != 'u'
  {
  }

  lemma DecodeFirst(s: string, plus: bool)
    requires s != ""
    ensures var (out, n) := DecodeStep(s, 0, plus);
      0 < n <= |s| && Decoded(s, plus) == out + Decoded(s[n..], plus)
  {
    hide DecodeStep;
    var n := DecodeStep(s, 0, plus).1;
    DecodeStepInside(s, 0, plus);
    assert s == s[..n] + s[n..];
    DecodedShift(s[..n], s[n..], 0, plus);
  }

  lemma CharDecodes(c: char, rest: string, plus: bool)
    requires c != '%'
    ensures Decoded([c] + rest, plus) == [if plus && c == '+' then ' ' else c] + Decoded(rest, plus)
  {
    var s := [c] + rest;
    hide Decoded;
    DecodeFirst(s, plus);
    assert s[1..] == rest;
  }

  lemma EscapeDecodes(c: char, d: char, v: nat, w: nat, rest: string, plus: bool)
    requires IsDigitOf(c, v) && IsDigitOf(d, w)
    ensures Decoded(['%', c, d] + rest, plus) == [(16 * v + w) as char] + Decoded(rest, plus)
  {
    var s := ['%', c, d] + rest;
    DigitHasValue(c, v);
    DigitHasValue(d, w);
    hide Decoded, IsDigitOf;
    DecodeFirst(s, plus);
    assert FromHex(s, 1, 2, 0) == FromHex(s, 2, 1, v) == FromHex(s, 3, 0, 16 * v + w);
    assert s[3..] == rest;
  }

  // A percent sign that begins no complete escape stands for itself.
  lemma PercentDecodes(rest: string, plus: bool)
    requires !IsEscapeAt("%" + rest, 0)
    ensures Decoded("%" + rest, plus) == "%" + Decoded(rest, plus)
  {
    var s := "%" + rest;
    FromHexIff(s, 2, 4, 0);
    FromHexIff(s, 1, 2, 0);
    hide Decoded, FromHex, IsHexRun;
    DecodeFirst(s, plus);
    assert s[1..] == rest;
  }

  // ---- Unicode escapes ----

  function Trailing(s: string, i: nat): int {
    if i < |s| && 0x80 <= s[i] as int < 0xC0 then s[i] as int - 0x80 else -1
  }

  // A decoder of UTF-8 (section 3 of RFC 3629), up to three bytes: the first code and its length, or -1.
  function Utf8Code(s: string): (int, nat) {
    if s == "" then (-1, 0)
    else
      var b, c, d := s[0] as int, Trailing(s, 1), Trailing(s, 2);
      if b < 0x80 then (b, 1)
      else if 0xC0 <= b < 0xE0 && c >= 0 && (b - 0xC0) * 64 + c >= 0x80 then ((b - 0xC0) * 64 + c, 2)
      else if 0xE0 <= b < 0xF0 && c >= 0 && d >= 0 then
        var code := (b - 0xE0) * 4096 + c * 64 + d;
        if code < 0x800 || 0xD800 <= code < 0xE000 then (-1, 0) else (code, 3)
      else (-1, 0)
  }

  lemma Utf8ReadsBack(code: nat)
    requires code < 0x1_0000
    ensures if 0xD800 <= code < 0xE000 then ToUtf8(code) == "" else Utf8Code(ToUtf8(code)) == (code, |ToUtf8(code)|)
  {
    if code >= 0x800 && !(0xD800 <= code < 0xE000) {
      var s := ToUtf8(code);
      assert s[0] as int == 0xE0 + code / 4096;
      assert Trailing(s, 1) == code / 64 % 64 && Trailing(s, 2) == code % 64;
      assert code == code / 4096 * 4096 + code / 64 % 64 * 64 + code % 64;
    }
  }

  // %uXXXX becomes the bytes of its code, and one from the surrogate range becomes nothing.
  lemma UnicodeDecodes(d: string, v: seq<nat>, rest: string, plus: bool)
    requires |d| == |v| == 4 && forall i :: 0 <= i < 4 ==> IsDigitOf(d[i], v[i])
    ensures var code := 4096 * v[0] + 256 * v[1] + 16 * v[2] + v[3];
      && code < 0x1_0000
      && Decoded("%u" + d + rest, plus) == ToUtf8(code) + Decoded(rest, plus)
      && (if 0xD800 <= code < 0xE000 then ToUtf8(code) == "" else Utf8Code(ToUtf8(code)) == (code, |ToUtf8(code)|))
  {
    var s := "%u" + d + rest;
    forall i | 0 <= i < 4 ensures HexValue(s[i + 2]) == v[i] < 16 {
      assert s[i + 2] == d[i];
      DigitHasValue(d[i], v[i]);
    }
    hide Decoded, IsDigitOf, HexValue, ToUtf8;
    var code := 4096 * v[0] + 256 * v[1] + 16 * v[2] + v[3];
    Utf8ReadsBack(code);
    FromFourDigits(s, v);
    DecodeFirst(s, plus);
    assert s[6..] == rest;
  }

  lemma FromFourDigits(s: string, v: seq<nat>)
    requires |s| >= 6 && |v| == 4
    requires forall i :: 0 <= i < 4 ==> HexValue(s[i + 2]) == v[i] < 16
    ensures FromHex(s, 2, 4, 0) == 4096 * v[0] + 256 * v[1] + 16 * v[2] + v[3]
  {
    hide HexValue;
    assert HexValue(s[0 + 2]) == v[0] && HexValue(s[1 + 2]) == v[1] && HexValue(s[2 + 2]) == v[2];
    assert HexValue(s[3 + 2]) == v[3];
    assert FromHex(s, 2, 4, 0) == FromHex(s, 3, 3, v[0]) == FromHex(s, 4, 2, v[0] * 16 + v[1]);
    assert FromHex(s, 4, 2, v[0] * 16 + v[1]) == FromHex(s, 5, 1, (v[0] * 16 + v[1]) * 16 + v[2]);
  }

  // ---- decoding in parts ----

  // A character that is part of no escape, or begins one, cuts the text for the decoder.
  lemma {:induction false} DecodingCuts(s: string, c: char, rest: string, plus: bool)
    requires HexValue(c) < 0 && c != 'u'
    ensures Decoded(s + [c] + rest, plus) == Decoded(s, plus) + Decoded([c] + rest, plus)
    decreases |s|
  {
    var all := s + [c] + rest;
    if s == "" {
      assert all == [c] + rest;
    } else {
      StepCuts(s, c, rest, plus);
      var n := DecodeStep(s, 0, plus).1;
      hide DecodeStep, Decoded;
      DecodeFirst(s, plus);
      DecodeFirst(all, plus);
      assert all[n..] == s[n..] + [c] + rest;
      DecodingCuts(s[n..], c, rest, plus);
      Assoc(DecodeStep(s, 0, plus).0, Decoded(s[n..], plus), Decoded([c] + rest, plus));
    }
  }

  lemma StepCuts(s: string, c: char, rest: string, plus: bool)
    requires s != "" && HexValue(c) < 0 && c != 'u'
    ensures DecodeStep(s + [c] + rest, 0, plus) == DecodeStep(s, 0, plus)
  {
    FromHexCuts(s, c, rest, 2, 4, 0);
    FromHexCuts(s, c, rest, 1, 2, 0);
    hide FromHex, ToUtf8;
    var all := s + [c] + rest;
    assert all[0] == s[0] && all[1] == if |s| > 1 then s[1] else c;
    if |s| == 1 { FromHexStops(all, 1, 2, 0); }
  }

  lemma FromHexStops(s: string, i: nat, cnt: nat, val: nat)
    requires i < |s| && HexValue(s[i]) < 0 && cnt > 0
    ensures FromHex(s, i, cnt, val) == -1
  {
  }

  lemma {:induction false} FromHexCuts(s: string, c: char, rest: string, i: nat, cnt: nat, val: nat)
    requires HexValue(c) < 0 && i <= |s| + 1 && (i == |s| + 1 ==> cnt > 0)
    ensures i <= |s| ==> FromHex(s + [c] + rest, i, cnt, val) == FromHex(s, i, cnt, val)
    decreases cnt
  {
    var all := s + [c] + rest;
    if i < |s| && cnt > 0 && HexValue(s[i]) >= 0 {
      FromHexCuts(s, c, rest, i + 1, cnt - 1, val * 16 + HexValue(s[i]));
    } else if i == |s| {
      assert all[i] == c;
    }
  }

  // A plus sign is a blank, wherever it stands.
  lemma PlusIsBlank(s: string, rest: string)
    ensures Decoded(s + "+" + rest, true) == Decoded(s, true) + " " + Decoded(rest, true)
    ensures Decoded(s + "+" + rest, false) == Decoded(s, false) + "+" + Decoded(rest, false)
  {
    hide Decoded;
    DecodingCuts(s, '+', rest, true);
    DecodingCuts(s, '+', rest, false);
    CharDecodes('+', rest, true);
    CharDecodes('+', rest, false);
    Assoc(Decoded(s, true), " ", Decoded(rest, true));
    Assoc(Decoded(s, false), "+", Decoded(rest, false));
  }

  // Text without a percent sign keeps its length and every character but the plus signs.
  lemma {:induction false} NoPercentDecodes(s: string, plus: bool)
    requires '%' !in s
    ensures |Decoded(s, plus)| == |s|
    ensures forall i :: 0 <= i < |s| ==> Decoded(s, plus)[i] == if plus && s[i] == '+' then ' ' else s[i]
    decreases |s|
  {
    hide Decoded;
    if s != "" {
      assert s == [s[0]] + s[1..];
      CharDecodes(s[0], s[1..], plus);
      NoPercentDecodes(s[1..], plus);
    } else {
      NothingDecoded(plus);
    }
  }

  lemma NothingDecoded(plus: bool)
    ensures Decoded("", plus) == ""
  {
  }

  // ---- what encoding puts out ----

  const MARKS := "-_.!~*'()"

  predicate IsPlainChar(c: char) {
    '0' <= c <= '9' || 'A' <= c <= 'Z' || 'a' <= c <= 'z' || c in MARKS
  }

  predicate IsUpperHex(c: char) {
    '0' <= c <= '9' || 'A' <= c <= 'F'
  }

  lemma PlainCharIff(c: char)
    ensures IsPlainChar(c) <==> IsUnreserved(c)
  {
    assert MARKS == ['-', '_', '.', '!', '~', '*', '\'', '(', ')'];
  }

  lemma {:induction false} EncodedConcat(a: string, b: string)
    requires AreBytes(a) && AreBytes(b)
    ensures AreBytes(a + b) && Encoded(a + b) == Encoded(a) + Encoded(b)
    decreases |a|
  {
    if a == "" {
      assert a + b == b;
    } else {
      assert (a + b)[1..] == a[1..] + b;
      EncodedConcat(a[1..], b);
      Assoc(EncodedChar(a[0]), Encoded(a[1..]), Encoded(b));
    }
  }

  // Letters, digits and marks stay; any other byte becomes a percent sign and two digits in upper case.
  lemma OneEncoded(c: char)
    requires c as int < 256
    ensures AreBytes([c])
    ensures var e := Encoded([c]);
      if IsPlainChar(c) then e == [c]
      else |e| == 3 && e[0] == '%' && IsUpperHex(e[1]) && IsUpperHex(e[2]) && Decoded(e, true) == [c]
  {
    hide IsPlainChar;
    PlainCharIff(c);
    DecodeEncode([c], true);
    var s := [c];
    assert s[1..] == "" && EncodedChar(c) + "" == EncodedChar(c) == Encoded(s);
  }

  // A value is left unchanged exactly when it consists of letters, digits and the nine marks; in the
  // output there is nothing else but percent signs.
  lemma {:induction false} EncodedUnchangedIff(s: string)
    requires AreBytes(s)
    ensures Encoded(s) == s <==> forall c :: c in s ==> IsPlainChar(c)
    ensures |Encoded(s)| >= |s| && forall c :: c in Encoded(s) ==> IsPlainChar(c) || c == '%'
    ensures |Encoded(s)| == |s| <==> forall c :: c in s ==> IsPlainChar(c)
    decreases |s|
  {
    hide IsPlainChar, Encoded;
    if s == "" {
      EncodedEmpty();
    } else {
      assert s == [s[0]] + s[1..];
      EncodedUnchangedIff(s[1..]);
      EncodedConcat([s[0]], s[1..]);
      OneEncoded(s[0]);
      UpperHexIsPlain(Encoded([s[0]]));
      assert (forall c :: c in s ==> IsPlainChar(c)) <==> IsPlainChar(s[0]) && forall c :: c in s[1..] ==>
        IsPlainChar(c);
    }
  }

  lemma UpperHexIsPlain(e: string)
    ensures forall i :: 0 <= i < |e| && IsUpperHex(e[i]) ==> IsPlainChar(e[i])
  {
  }
}
