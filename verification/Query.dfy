/**
  Percent coding and query strings.
*/
module Query {
  import opened Text

  // ---- percent coding of one value ----

  // is_hex: the value of a hexadecimal digit, or -1.
  function HexValue(c: char): (v: int)
    ensures -1 <= v < 16
  {
    if IsDigit(c) then c as int - '0' as int
    else if 'A' <= c <= 'F' then c as int - 'A' as int + 10
    else if 'a' <= c <= 'f' then c as int - 'a' as int + 10
    else -1
  }

  // from_hex_to_i: cnt digits from position i, or -1.  Past the end of the string no digit is read.
  function FromHex(s: string, i: nat, cnt: nat, val: nat): (r: int)
    ensures r >= -1
    decreases cnt
  {
    if cnt == 0 then val
    else if i >= |s| || HexValue(s[i]) < 0 then -1
    else FromHex(s, i + 1, cnt - 1, val * 16 + HexValue(s[i]))
  }

  lemma FromHexBound(s: string, i: nat, cnt: nat, val: nat, bound: nat)
    requires val < bound
    ensures cnt == 2 ==> FromHex(s, i, cnt, val) < 256 * bound
    ensures cnt == 4 ==> FromHex(s, i, cnt, val) < 0x1_0000 * bound
  {
    if cnt == 2 || cnt == 4 {
      if FromHex(s, i, cnt, val) >= 0 {
        var a := val * 16 + HexValue(s[i]);
        var b := a * 16 + HexValue(s[i + 1]);
        assert FromHex(s, i, cnt, val) == FromHex(s, i + 1, cnt - 1, a) == FromHex(s, i + 2, cnt - 2, b);
        if cnt == 4 {
          var c := b * 16 + HexValue(s[i + 2]);
          assert FromHex(s, i + 2, 2, b) == FromHex(s, i + 3, 1, c);
        }
      }
    }
  }

  function Byte(n: nat): char
    requires n < 256
  {
    n as char
  }

  // to_utf8 for a code of four hexadecimal digits.
  function ToUtf8(code: nat): string
    requires code < 0x1_0000
  {
    if code < 0x80 then [Byte(code)]
    else if code < 0x800 then [Byte(0xC0 + code / 64), Byte(0x80 + code % 64)]
    else if 0xD800 <= code < 0xE000 then ""
    else [Byte(0xE0 + code / 4096), Byte(0x80 + code / 64 % 64), Byte(0x80 + code % 64)]
  }

  // What decode_url makes of position i: the bytes it appends and how far it moves on.
  function DecodeStep(s: string, i: nat, plus: bool): (r: (string, nat))
    requires i < |s|
    ensures r.1 > 0
  {
    if s[i] == '%' && i + 1 < |s| then
      if s[i + 1] == 'u' then
        var v := FromHex(s, i + 2, 4, 0);
        FromHexBound(s, i + 2, 4, 0, 1);
        if v >= 0 then (ToUtf8(v), 6) else ([s[i]], 1)
      else
        var v := FromHex(s, i + 1, 2, 0);
        FromHexBound(s, i + 1, 2, 0, 1);
        if v >= 0 then ([Byte(v)], 3) else ([s[i]], 1)
    else if plus && s[i] == '+' then (" ", 1)
    else ([s[i]], 1)
  }

  function DecodedFrom(s: string, i: nat, plus: bool): string
    decreases |s| - i
  {
    if i >= |s| then "" else DecodeStep(s, i, plus).0 + DecodedFrom(s, i + DecodeStep(s, i, plus).1, plus)
  }

  function Decoded(s: string, plus: bool): string {
    DecodedFrom(s, 0, plus)
  }

  method DecodeUrl(s: string, convertPlusToSpace: bool) returns (result: string)
    ensures result == Decoded(s, convertPlusToSpace)
  {
    hide FromHex;
    hide DecodedFrom;
    hide ToUtf8;
    result := "";
    var i := 0;
    while i < |s|
      invariant 0 <= i
      invariant Decoded(s, convertPlusToSpace) == result + DecodedFrom(s, i, convertPlusToSpace)
    {
      DecodedUnfold(s, i, convertPlusToSpace, result);
      if s[i] == '%' && i + 1 < |s| {
        if s[i + 1] == 'u' {
          var val := FromHex(s, i + 2, 4, 0);
          if val >= 0 {
            FromHexBound(s, i + 2, 4, 0, 1);
            result := result + ToUtf8(val);
            i := i + 5;
          } else {
            result := result + [s[i]];
          }
        } else {
          var val := FromHex(s, i + 1, 2, 0);
          if val >= 0 {
            FromHexBound(s, i + 1, 2, 0, 1);
            result := result + [Byte(val)];
            i := i + 2;
          } else {
            result := result + [s[i]];
          }
        }
      } else if convertPlusToSpace && s[i] == '+' {
        result := result + " ";
      } else {
        result := result + [s[i]];
      }
      i := i + 1;
    }
    DecodedEnd(s, i, convertPlusToSpace);
  }

  lemma DecodedUnfold(s: string, i: nat, plus: bool, before: string)
    requires i < |s|
    ensures before + DecodedFrom(s, i, plus)
            == before + DecodeStep(s, i, plus).0 + DecodedFrom(s, i + DecodeStep(s, i, plus).1, plus)
  {
  }

  lemma DecodedEnd(s: string, i: nat, plus: bool)
    requires i >= |s|
    ensures DecodedFrom(s, i, plus) == ""
  {
  }

  // The characters encode_query_param leaves alone.
  predicate IsUnreserved(c: char) {
    IsAlnum(c) || c == '-' || c == '_' || c == '.' || c == '!' || c == '~' || c == '*' || c == '\'' || c == '('
      || c == ')'
  }

  function HexDigit(n: nat): (c: char)
    requires n < 16
    ensures HexValue(c) == n && c != 'u' && IsUnreserved(c)
  {
    if n < 10 then (n + '0' as int) as char else (n - 10 + 'A' as int) as char
  }

  function EncodedChar(c: char): string
    requires c as int < 256
  {
    if IsUnreserved(c) then [c] else ['%', HexDigit(c as int / 16), HexDigit(c as int % 16)]
  }

  function Encoded(s: string): string
    requires AreBytes(s)
  {
    if s == "" then "" else EncodedChar(s[0]) + Encoded(s[1..])
  }

  method EncodeQueryParam(value: string) returns (escaped: string)
    requires AreBytes(value)
    ensures escaped == Encoded(value)
  {
    hide Encoded;
    assert value[0..] == value;
    escaped := "";
    for i := 0 to |value|
      invariant escaped + Encoded(value[i..]) == Encoded(value)
    {
      var c := value[i];
      EncodedUnfold(value, i, escaped);
      if IsAlnum(c) || c == '-' || c == '_' || c == '.' || c == '!' || c == '~' || c == '*' || c == '\'' || c == '('
        || c == ')' {
        escaped := escaped + [c];
      } else {
        escaped := escaped + ['%', HexDigit(c as int / 16), HexDigit(c as int % 16)];
      }
    }
    EncodedEmpty();
  }

  lemma EncodedUnfold(s: string, i: nat, before: string)
    requires AreBytes(s) && i < |s|
    ensures before + Encoded(s[i..]) == before + EncodedChar(s[i]) + Encoded(s[i + 1..])
  {
    assert s[i..][1..] == s[i + 1..];
  }

  lemma EncodedEmpty()
    ensures Encoded("") == ""
  {
  }

  // Decoding looks only ahead, so what precedes position i does not matter.
  lemma {:induction false} DecodedShift(pre: string, s: string, i: nat, plus: bool)
    requires i <= |s|
    ensures DecodedFrom(pre + s, |pre| + i, plus) == DecodedFrom(s, i, plus)
    decreases |s| - i
  {
    hide DecodeStep;
    hide FromHex;
    assert (|pre| + i >= |pre + s|) == (i >= |s|);
    if i < |s| {
      DecodeStepShift(pre, s, i, plus);
      DecodeStepInside(s, i, plus);
      DecodedShift(pre, s, i + DecodeStep(s, i, plus).1, plus);
    }
  }

  lemma DecodeStepShift(pre: string, s: string, i: nat, plus: bool)
    requires i < |s|
    ensures DecodeStep(pre + s, |pre| + i, plus) == DecodeStep(s, i, plus)
  {
    FromHexShift(pre, s, i + 2, 4, 0);
    FromHexShift(pre, s, i + 1, 2, 0);
    hide FromHex;
    assert |pre| + i + 2 == |pre| + (i + 2) && |pre| + i + 1 == |pre| + (i + 1);
  }

  lemma {:induction false} FromHexShift(pre: string, s: string, i: nat, cnt: nat, val: nat)
    ensures FromHex(pre + s, |pre| + i, cnt, val) == FromHex(s, i, cnt, val)
    decreases cnt
  {
    if cnt > 0 && i < |s| && HexValue(s[i]) >= 0 {
      FromHexShift(pre, s, i + 1, cnt - 1, val * 16 + HexValue(s[i]));
    }
  }

  // A step never leaves the string: an escape is taken only when all its digits are there.
  lemma DecodeStepInside(s: string, i: nat, plus: bool)
    requires i < |s|
    ensures i + DecodeStep(s, i, plus).1 <= |s|
  {
    FromHexInside(s, i + 2, 4, 0);
    FromHexInside(s, i + 1, 2, 0);
  }

  lemma {:induction false} FromHexInside(s: string, i: nat, cnt: nat, val: nat)
    requires cnt > 0
    ensures FromHex(s, i, cnt, val) >= 0 ==> i + cnt <= |s|
    decreases cnt
  {
    if cnt > 1 && i < |s| && HexValue(s[i]) >= 0 {
      FromHexInside(s, i + 1, cnt - 1, val * 16 + HexValue(s[i]));
    }
  }

  // decode_url undoes encode_query_param on every byte string, whether or not '+' means a space.
  lemma {:induction false} DecodeEncode(s: string, plus: bool)
    requires AreBytes(s)
    ensures Decoded(Encoded(s), plus) == s
  {
    if s != "" {
      var head, tail := EncodedChar(s[0]), Encoded(s[1..]);
      DecodeEncode(s[1..], plus);
      DecodedShift(head, tail, 0, plus);
      var all := head + tail;
      EncodedCharDecodes(s[0], tail, plus);
      hide DecodeStep;
      assert DecodedFrom(all, 0, plus) == [s[0]] + DecodedFrom(all, |head|, plus);
    }
  }

  lemma EncodedCharDecodes(c: char, tail: string, plus: bool)
    requires c as int < 256
    ensures DecodeStep(EncodedChar(c) + tail, 0, plus) == ([c], |EncodedChar(c)|)
  {
    var all := EncodedChar(c) + tail;
    if !IsUnreserved(c) {
      var n := c as int;
      assert all[0] == '%' && all[1] == HexDigit(n / 16) && all[2] == HexDigit(n % 16);
      assert FromHex(all, 1, 2, 0) == FromHex(all, 2, 1, n / 16) == FromHex(all, 3, 0, n / 16 * 16 + n % 16);
    }
  }

  // Encoding only emits unreserved characters and '%'.
  lemma {:induction false} EncodedChars(s: string)
    requires AreBytes(s)
    ensures forall c :: c in Encoded(s) ==> IsUnreserved(c) || c == '%'
  {
    if s != "" {
      EncodedChars(s[1..]);
      forall c | c in Encoded(s) ensures IsUnreserved(c) || c == '%' {
        if c !in Encoded(s[1..]) { assert c in EncodedChar(s[0]); }
      }
    }
  }

  lemma EncodeInjective(s: string, t: string)
    requires AreBytes(s) && AreBytes(t) && Encoded(s) == Encoded(t)
    ensures s == t
  {
    DecodeEncode(s, true);
    DecodeEncode(t, true);
  }

  // ---- what decoding leaves alone ----

  predicate IsHexRun(s: string, i: nat, cnt: nat) {
    i + cnt <= |s| && forall j | i <= j < i + cnt :: HexValue(s[j]) >= 0
  }

  // A complete escape, %XX or %uXXXX, begins here.
  predicate IsEscapeAt(s: string, i: nat)
    requires i < |s|
  {
    s[i] == '%' && i + 1 < |s| && if s[i + 1] == 'u' then IsHexRun(s, i + 2, 4) else IsHexRun(s, i + 1, 2)
  }

  predicate IsLiteralFrom(s: string, i: nat, plus: bool) {
    forall j | i <= j < |s| :: !IsEscapeAt(s, j) && !(plus && s[j] == '+')
  }

  predicate IsLiteral(s: string, plus: bool) {
    IsLiteralFrom(s, 0, plus)
  }

  lemma {:induction false} FromHexIff(s: string, i: nat, cnt: nat, val: nat)
    requires cnt > 0
    ensures FromHex(s, i, cnt, val) >= 0 <==> IsHexRun(s, i, cnt)
    decreases cnt
  {
    if i < |s| && HexValue(s[i]) >= 0 && cnt > 1 {
      FromHexIff(s, i + 1, cnt - 1, val * 16 + HexValue(s[i]));
      assert IsHexRun(s, i, cnt) <==> IsHexRun(s, i + 1, cnt - 1);
    }
  }

  // Characters, a plus sign that will be read as a blank counting twice.
  function Weight(s: string, plus: bool): nat {
    if s == "" then 0 else (if plus && s[0] == '+' then 2 else 1) + Weight(s[1..], plus)
  }

  lemma {:induction false} WeightConcat(a: string, b: string, plus: bool)
    ensures Weight(a + b, plus) == Weight(a, plus) + Weight(b, plus)
    ensures |a| <= Weight(a, plus) <= 2 * |a|
    decreases |a|
  {
    if a == "" {
      assert a + b == b;
    } else {
      assert (a + b)[1..] == a[1..] + b;
      WeightConcat(a[1..], b, plus);
    }
  }

  // An escape or such a plus sign loses weight, anything else is taken over.
  lemma StepWeight(s: string, i: nat, plus: bool)
    requires i < |s|
    ensures var (out, n) := DecodeStep(s, i, plus);
      && i + n <= |s| && Weight(s[i..], plus) == Weight(s[i..i + n], plus) + Weight(s[i + n..], plus)
      && if IsEscapeAt(s, i) || (plus && s[i] == '+') then Weight(out, plus) < Weight(s[i..i + n], plus)
         else n == 1 && out == s[i..i + 1]
  {
    var (out, n) := DecodeStep(s, i, plus);
    DecodeStepInside(s, i, plus);
    assert s[i..] == s[i..i + n] + s[i + n..];
    WeightConcat(s[i..i + n], s[i + n..], plus);
    FromHexIff(s, i + 2, 4, 0);
    FromHexIff(s, i + 1, 2, 0);
    hide FromHex, IsHexRun;
    if IsEscapeAt(s, i) {
      EscapeWeight(s, i, plus);
      WeightConcat(s[i..i + n], "", plus);
    } else if plus && s[i] == '+' {
      assert s[i..i + 1] == ['+'] && ['+'][1..] == "" && " "[1..] == "";
    }
  }

  lemma EscapeWeight(s: string, i: nat, plus: bool)
    requires i < |s| && IsEscapeAt(s, i)
    ensures var (out, n) := DecodeStep(s, i, plus);
      n == (if s[i + 1] == 'u' then 6 else 3) && Weight(out, plus) < n && i + n <= |s|
  {
    var (out, n) := DecodeStep(s, i, plus);
    FromHexIff(s, i + 2, 4, 0);
    FromHexIff(s, i + 1, 2, 0);
    FromHexBound(s, i + 2, 4, 0, 1);
    hide FromHex, IsHexRun;
    WeightConcat(out, "", plus);
    if s[i + 1] == 'u' { Utf8Weight(FromHex(s, i + 2, 4, 0), plus); }
  }

  lemma {:induction false} WeightPlain(s: string, plus: bool)
    requires '+' !in s
    ensures Weight(s, plus) == |s|
  {
    if s != "" { WeightPlain(s[1..], plus); }
  }

  lemma Utf8Weight(code: nat, plus: bool)
    requires code < 0x1_0000
    ensures Weight(ToUtf8(code), plus) < 6
  {
    var t := ToUtf8(code);
    if code < 0x800 {
      assert |t| <= 2;
      WeightConcat(t, "", plus);
    } else {
      assert |t| <= 3 && '+' !in t;
      WeightPlain(t, plus);
    }
  }

  // Decoding never adds weight, and takes some away exactly when there is something to decode.
  lemma {:induction false} DecodedWeight(s: string, i: nat, plus: bool)
    requires i <= |s|
    ensures Weight(DecodedFrom(s, i, plus), plus) <= Weight(s[i..], plus)
    ensures IsLiteralFrom(s, i, plus) ==> DecodedFrom(s, i, plus) == s[i..]
    ensures !IsLiteralFrom(s, i, plus) ==> Weight(DecodedFrom(s, i, plus), plus) < Weight(s[i..], plus)
    decreases |s| - i
  {
    hide DecodeStep, IsEscapeAt, Weight;
    if i < |s| {
      StepWeight(s, i, plus);
      var (out, n) := DecodeStep(s, i, plus);
      DecodedWeight(s, i + n, plus);
      WeightConcat(out, DecodedFrom(s, i + n, plus), plus);
      if !IsEscapeAt(s, i) && !(plus && s[i] == '+') {
        assert s[i..] == s[i..i + 1] + s[i + 1..];
        assert IsLiteralFrom(s, i, plus) <==> IsLiteralFrom(s, i + 1, plus);
      }
    } else {
      assert s[i..] == "";
    }
  }

  // Text decodes to itself exactly when no complete escape begins in it, nor, where a plus sign means a
  // blank, is there a plus sign.
  lemma DecodedUnchangedIff(s: string, plus: bool)
    ensures Decoded(s, plus) == s <==> IsLiteral(s, plus)
    ensures Weight(Decoded(s, plus), plus) <= Weight(s, plus)
    ensures !IsLiteral(s, plus) ==> Weight(Decoded(s, plus), plus) < Weight(s, plus)
  {
    assert s[0..] == s;
    DecodedWeight(s, 0, plus);
  }
}
