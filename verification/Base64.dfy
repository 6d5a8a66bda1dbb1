/**
  The base64 encoder (section 4 of RFC 4648), with its one accumulator of 32 bits that is never cleared.
*/
module Base64 {
  import opened Basics
  import opened Text

  // ---- the encoding, group by group ----

  // The lookup table: upper-case letters, lower-case letters, digits, plus and slash.
  function Symbol(n: nat): char
    requires n < 64
  {
    if n < 26 then (n + 'A' as int) as char
    else if n < 52 then (n - 26 + 'a' as int) as char
    else if n < 62 then (n - 52 + '0' as int) as char
    else if n == 62 then '+'
    else '/'
  }

  // A group of 24 bits as four symbols.
  function Quad(n: nat): (q: string)
    requires n < 0x100_0000
    ensures |q| == 4
  {
    [Symbol(n / 262144), Symbol(n / 4096 % 64), Symbol(n / 64 % 64), Symbol(n % 64)]
  }

  // A last group of one or two bytes is filled up with zero bits and padded.
  function Tail(s: string): string
    requires |s| < 3 && AreBytes(s)
  {
    if s == "" then ""
    else if |s| == 1 then Quad(s[0] as int * 65536)[..2] + "=="
    else Quad(s[0] as int * 65536 + s[1] as int * 256)[..3] + "="
  }

  function Encoded(s: string): string
    requires AreBytes(s)
  {
    if |s| < 3 then Tail(s)
    else Quad(s[0] as int * 65536 + s[1] as int * 256 + s[2] as int) + Encoded(s[3..])
  }

  lemma {:induction false} LengthOfEncoding(s: string)
    requires AreBytes(s)
    ensures |Encoded(s)| == 4 * ((|s| + 2) / 3)
  {
    hide Quad;
    if |s| >= 3 {
      LengthOfEncoding(s[3..]);
      assert (|s| + 2) / 3 == 1 + (|s[3..]| + 2) / 3;
    }
  }

  // ---- decoding ----

  function Value(c: char): (n: int)
    ensures -1 <= n < 64
  {
    if 'A' <= c <= 'Z' then c as int - 'A' as int
    else if 'a' <= c <= 'z' then c as int - 'a' as int + 26
    else if '0' <= c <= '9' then c as int - '0' as int + 52
    else if c == '+' then 62
    else if c == '/' then 63
    else -1
  }

  lemma ValueOfSymbol(n: nat)
    requires n < 64
    ensures Value(Symbol(n)) == n && Symbol(n) != '='
  {
  }

  function Byte(n: nat): string
    requires n < 256
  {
    [n as char]
  }

  function DecodeQuad(q: string): Option<string>
    requires |q| == 4
  {
    var a, b, c, d := Value(q[0]), Value(q[1]), Value(q[2]), Value(q[3]);
    if a < 0 || b < 0 then None
    else if q[2] == '=' && q[3] == '=' then Some(Byte(a * 4 + b / 16))
    else if c < 0 then None
    else if q[3] == '=' then Some(Byte(a * 4 + b / 16) + Byte(b % 16 * 16 + c / 4))
    else if d < 0 then None
    else Some(Byte(a * 4 + b / 16) + Byte(b % 16 * 16 + c / 4) + Byte(c % 4 * 64 + d))
  }

  function Decode(s: string): Option<string>
    decreases |s|
  {
    if s == "" then Some("")
    else if |s| < 4 then None
    else
      match DecodeQuad(s[..4])
      case None => None
      case Some(bytes) =>
        match Decode(s[4..])
        case None => None
        case Some(more) => Some(bytes + more)
  }

  // The four digits of a group to the base 64, from its bytes.
  lemma QuadOf(a: nat, b: nat, c: nat)
    requires a < 256 && b < 256 && c < 256
    ensures Quad(a * 65536 + b * 256 + c)
         == [Symbol(a / 4), Symbol(a % 4 * 16 + b / 16), Symbol(b % 16 * 4 + c / 64), Symbol(c % 64)]
  {
    hide Symbol;
    Sixths(a, b, c);
  }

  lemma Sixths(a: nat, b: nat, c: nat)
    requires a < 256 && b < 256 && c < 256
    ensures var n := a * 65536 + b * 256 + c;
      && n / 262144 == a / 4 && n / 4096 % 64 == a % 4 * 16 + b / 16
      && n / 64 % 64 == b % 16 * 4 + c / 64 && n % 64 == c % 64
  {
    var n := a * 65536 + b * 256 + c;
    Divided(n, 262144, a / 4, a % 4 * 65536 + b * 256 + c);
    Divided(n, 4096, a * 16 + b / 16, b % 16 * 256 + c);
    Divided(a * 16 + b / 16, 64, a / 4, a % 4 * 16 + b / 16);
    Divided(n, 64, a * 1024 + b * 4 + c / 64, c % 64);
    Divided(a * 1024 + b * 4 + c / 64, 64, a * 16 + b / 16, b % 16 * 4 + c / 64);
  }

  lemma Divided(n: int, d: int, q: int, r: int)
    requires 0 <= r < d && n == q * d + r
    ensures n / d == q && n % d == r
  {
    var k := n / d - q;
    assert k * d == r - n % d;
    assert k >= 1 ==> k * d >= d;
    assert k <= -1 ==> k * d <= -d;
  }

  lemma QuadDecodes(a: nat, b: nat, c: nat)
    requires a < 256 && b < 256 && c < 256
    ensures var q := Quad(a * 65536 + b * 256 + c);
      && DecodeQuad(q) == Some(Byte(a) + Byte(b) + Byte(c))
      && (c == 0 ==> DecodeQuad(q[..3] + "=") == Some(Byte(a) + Byte(b)))
      && (b == 0 && c == 0 ==> DecodeQuad(q[..2] + "==") == Some(Byte(a)))
  {
    hide Symbol, Value, Quad;
    QuadOf(a, b, c);
    var w, x, y, z := a / 4, a % 4 * 16 + b / 16, b % 16 * 4 + c / 64, c % 64;
    ValueOfSymbol(w);
    ValueOfSymbol(x);
    ValueOfSymbol(y);
    ValueOfSymbol(z);
    assert w * 4 + x / 16 == a && x % 16 * 16 + y / 4 == b && y % 4 * 64 + z == c;
  }

  lemma DecodeFirst(q: string, bytes: string, rest: string)
    requires |q| == 4 && DecodeQuad(q) == Some(bytes)
    ensures Decode(q + rest) == match Decode(rest) case None => None case Some(more) => Some(bytes + more)
  {
    hide DecodeQuad;
    assert (q + rest)[..4] == q && (q + rest)[4..] == rest;
  }

  lemma {:induction false} DecodeEncoded(s: string)
    requires AreBytes(s)
    ensures Decode(Encoded(s)) == Some(s)
  {
    hide DecodeQuad, Quad, Decode;
    NothingDecodes();
    if 0 < |s| < 3 {
      var a, b := s[0] as int, if |s| > 1 then s[1] as int else 0;
      QuadDecodes(a, b, 0);
      assert s == if |s| == 1 then Byte(a) else Byte(a) + Byte(b);
      DecodeFirst(Encoded(s), s, "");
      assert s + "" == s && Encoded(s) + "" == Encoded(s);
    } else if s != "" {
      QuadDecodes(s[0] as int, s[1] as int, s[2] as int);
      assert s[..3] == Byte(s[0] as int) + Byte(s[1] as int) + Byte(s[2] as int);
      DecodeFirst(Quad(s[0] as int * 65536 + s[1] as int * 256 + s[2] as int), s[..3], Encoded(s[3..]));
      DecodeEncoded(s[3..]);
      assert s == s[..3] + s[3..];
    }
  }

  lemma NothingDecodes()
    ensures Decode("") == Some("")
  {
  }

  // ---- the program ----

  // The value of a 32-bit int after an operation that may leave its range.
  function Wrap(x: int): int {
    (x + 0x8000_0000) % 0x1_0000_0000 - 0x8000_0000
  }

  function Power(n: nat): (p: nat)
    ensures p > 0
  {
    if n == 0 then 1 else 2 * Power(n - 1)
  }

  // (val >> shift) & 0x3F
  function Bits(val: int, shift: nat): (n: nat)
    ensures n < 64
  {
    val / Power(shift) % 64
  }

  // What has been put out after some bytes, short of the last symbol of an incomplete group.
  function SoFar(s: string): string
    requires AreBytes(s)
  {
    if s == "" then ""
    else if |s| == 1 then Quad(s[0] as int * 65536)[..1]
    else if |s| == 2 then Quad(s[0] as int * 65536 + s[1] as int * 256)[..2]
    else Quad(s[0] as int * 65536 + s[1] as int * 256 + s[2] as int) + SoFar(s[3..])
  }

  // The accumulator knows the last bytes, whatever it has dropped at the other end.
  lemma Accumulated(val: int, last: nat, c: nat)
    requires val % 256 == last && c < 256
    ensures Wrap(val * 256 + c) % 65536 == last * 256 + c && Wrap(val * 256 + c) % 256 == c
  {
    var x := val * 256 + c;
    var w, k := Wrap(x), (x + 0x8000_0000) / 0x1_0000_0000;
    assert w == x - k * 0x1_0000_0000;
    var q := val / 256;
    assert x == (q * 256 + last) * 256 + c;
    Divided(w, 65536, q - k * 65536, last * 256 + c);
    Divided(w, 256, q * 256 + last - k * 0x100_0000, c);
  }

  lemma Powers()
    ensures Power(0) == 1 && Power(2) == 4 && Power(4) == 16 && Power(6) == 64
  {
    assert Power(1) == 2 && Power(3) == 8 && Power(5) == 32;
  }

  // The low bits of the accumulator, `val` being k * 65536 + last * 256 + c.
  lemma BitsLow(val: int, k: int, last: nat, c: nat)
    requires val == k * 65536 + last * 256 + c && last < 256 && c < 256
    ensures Bits(val, 0) == c % 64 && Bits(val, 6) == last % 16 * 4 + c / 64
  {
    Powers();
    hide Power;
    Divided(val, 64, k * 1024 + last * 4 + c / 64, c % 64);
    Divided(k * 1024 + last * 4 + c / 64, 64, k * 16 + last / 16, last % 16 * 4 + c / 64);
  }

  lemma BitsHigh(val: int, k: int, last: nat, c: nat)
    requires val == k * 65536 + last * 256 + c && last < 256 && c < 256
    ensures Bits(val, 2) == c / 4 && Bits(val, 4) == last % 4 * 16 + c / 16
  {
    Powers();
    hide Power;
    Divided(val, 4, k * 16384 + last * 64 + c / 4, c % 4);
    Divided(k * 16384 + last * 64 + c / 4, 64, k * 256 + last, c / 4);
    Divided(val, 16, k * 4096 + last * 16 + c / 16, c % 16);
    Divided(k * 4096 + last * 16 + c / 16, 64, k * 64 + last / 4, last % 4 * 16 + c / 16);
  }

  // The symbols that a byte completes, from the last two bytes.
  lemma BitsOf(val: int, last: nat, c: nat)
    requires val % 65536 == last * 256 + c && last < 256 && c < 256
    ensures Bits(val, 0) == c % 64 && Bits(val, 2) == c / 4
    ensures Bits(val, 4) == last % 4 * 16 + c / 16 && Bits(val, 6) == last % 16 * 4 + c / 64
  {
    hide Bits;
    BitsLow(val, val / 65536, last, c);
    BitsHigh(val, val / 65536, last, c);
  }

  function LastOf(s: string): nat {
    if s == "" then 0 else s[|s| - 1] as int
  }

  // The symbols that one more byte puts out, by its place in the group.
  function Completed(place: nat, last: nat, b: nat): string
    requires place < 3 && last < 256 && b < 256
  {
    if place == 0 then [Symbol(b / 4)]
    else if place == 1 then [Symbol(last % 4 * 16 + b / 16)]
    else [Symbol(last % 16 * 4 + b / 64), Symbol(b % 64)]
  }

  lemma SoFarShort(a: char, b: char, c: char)
    requires a as int < 256 && b as int < 256 && c as int < 256
    ensures AreBytes([a]) && AreBytes([a, b]) && AreBytes([a, b, c])
    ensures SoFar([a]) == Completed(0, 0, a as int)
    ensures SoFar([a, b]) == SoFar([a]) + Completed(1, a as int, b as int)
    ensures SoFar([a, b, c]) == SoFar([a, b]) + Completed(2, b as int, c as int)
  {
    hide Symbol, Quad;
    QuadOf(a as int, 0, 0);
    QuadOf(a as int, b as int, 0);
    QuadOf(a as int, b as int, c as int);
    assert [a, b, c][3..] == "";
  }

  lemma SoFarGroup(s: string, c: char)
    requires |s| < 3 && AreBytes(s) && c as int < 256
    ensures AreBytes(s + [c]) && SoFar(s + [c]) == SoFar(s) + Completed(|s|, LastOf(s), c as int)
  {
    hide Completed, SoFar;
    if |s| == 0 {
      NothingSoFar();
      SoFarShort(c, c, c);
      assert s + [c] == [c];
    } else if |s| == 1 {
      SoFarShort(s[0], c, c);
      assert s == [s[0]] && s + [c] == [s[0], c];
    } else {
      SoFarShort(s[0], s[1], c);
      assert s == [s[0], s[1]] && s + [c] == [s[0], s[1], c];
    }
  }

  lemma {:induction false} SoFarMore(s: string, c: char)
    requires AreBytes(s) && c as int < 256
    ensures AreBytes(s + [c]) && SoFar(s + [c]) == SoFar(s) + Completed(|s| % 3, LastOf(s), c as int)
  {
    hide Symbol, Quad, Completed;
    if |s| >= 3 {
      assert (s + [c])[3..] == s[3..] + [c];
      SoFarMore(s[3..], c);
      assert (|s| - 3) % 3 == |s| % 3;
      if |s| == 3 { Restart(s[2] as int, c as int); }
    } else {
      SoFarGroup(s, c);
    }
  }

  lemma Restart(last: nat, b: nat)
    requires last < 256 && b < 256
    ensures Completed(0, 0, b) == Completed(0, last, b)
  {
  }

  // The last symbol of an incomplete group, and the padding.
  function Rest(place: nat, last: nat): string
    requires place < 3 && last < 256
  {
    if place == 0 then ""
    else if place == 1 then [Symbol(last % 4 * 16)] + "=="
    else [Symbol(last % 16 * 4)] + "="
  }

  lemma TailShort(a: char, b: char)
    requires a as int < 256 && b as int < 256
    ensures AreBytes([a]) && AreBytes([a, b])
    ensures Tail([a]) == SoFar([a]) + Rest(1, a as int)
    ensures Tail([a, b]) == SoFar([a, b]) + Rest(2, b as int)
  {
    hide Symbol, Quad;
    QuadOf(a as int, 0, 0);
    QuadOf(a as int, b as int, 0);
  }

  lemma TailFromSoFar(s: string)
    requires AreBytes(s) && |s| < 3
    ensures Tail(s) == SoFar(s) + Rest(|s|, LastOf(s))
  {
    hide Tail, SoFar, Rest;
    if s == "" {
      NoTail();
    } else if |s| == 1 {
      TailShort(s[0], s[0]);
      assert s == [s[0]];
    } else {
      TailShort(s[0], s[1]);
      assert s == [s[0], s[1]];
    }
  }

  lemma NoTail()
    ensures Tail("") == SoFar("") + Rest(0, 0)
  {
  }

  lemma {:induction false} LengthSoFar(s: string)
    requires AreBytes(s)
    ensures |SoFar(s)| == |s| / 3 * 4 + |s| % 3
  {
    hide Quad;
    if |s| >= 3 {
      LengthSoFar(s[3..]);
      assert |s| / 3 == 1 + |s[3..]| / 3 && |s| % 3 == |s[3..]| % 3;
    }
  }

  lemma {:induction false} EncodedFromSoFar(s: string)
    requires AreBytes(s)
    ensures Encoded(s) == SoFar(s) + Rest(|s| % 3, LastOf(s))
  {
    hide Symbol, Quad, Rest, Tail;
    if |s| >= 3 {
      EncodedFromSoFar(s[3..]);
      assert (|s| - 3) % 3 == |s| % 3;
      NoRest(0, LastOf(s));
    } else {
      TailFromSoFar(s);
    }
  }

  lemma NoRest(a: nat, b: nat)
    requires a < 256 && b < 256
    ensures Rest(0, a) == Rest(0, b) == ""
  {
  }

  // The symbols that the inner loop puts out from a bit position on.
  function Pending(val: int, valb: int): string
    decreases valb + 6
  {
    if valb < 0 then "" else [Symbol(Bits(val, valb))] + Pending(val, valb - 6)
  }

  lemma PendingIs(val: int, last: nat, c: nat, place: nat)
    requires val % 65536 == last * 256 + c && last < 256 && c < 256 && place < 3
    ensures Pending(val, 2 + 2 * place) == Completed(place, last, c)
  {
    hide Bits, Symbol;
    BitsOf(val, last, c);
    assert Pending(val, 0) == [Symbol(Bits(val, 0))] + "";
  }

  lemma LastBits(val: int, last: nat)
    requires val % 256 == last
    ensures Bits(Wrap(val * 256), 4) == last % 4 * 16 && Bits(Wrap(val * 256), 6) == last % 16 * 4
  {
    hide Bits, Wrap;
    Accumulated(val, last, 0);
    BitsOf(Wrap(val * 256), last, 0);
  }

  // The inner loop: six bits at a time, from the top.
  method PutSymbols(val: int, valb: int) returns (symbols: string, left: int)
    ensures symbols == Pending(val, valb)
    ensures left == if valb < 0 then valb else valb % 6 - 6
  {
    hide Bits, Symbol;
    symbols, left := "", valb;
    while left >= 0
      invariant symbols + Pending(val, left) == Pending(val, valb)
      invariant left <= valb && (left - valb) % 6 == 0 && if valb < 0 then left == valb else left >= -6
    {
      symbols := symbols + [Symbol(Bits(val, left))];
      left := left - 6;
    }
    assert symbols + "" == symbols;
  }

  method Pad(symbols: string, ghost goal: string) returns (out: string)
    requires |goal| - 4 < |symbols| && symbols <= goal && |goal| % 4 == 0
    requires forall k :: |symbols| <= k < |goal| ==> goal[k] == '='
    ensures out == goal
  {
    out := symbols;
    while |out| % 4 != 0
      invariant |goal| - 4 < |out| && out <= goal
      invariant forall k :: |out| <= k < |goal| ==> goal[k] == '='
      decreases |goal| - |out|
    {
      out := out + "=";
    }
    assert out == goal[..|out|] == goal;
  }

  method Base64Encode(input: string) returns (out: string)
    requires AreBytes(input)
    ensures out == Encoded(input)
  {
    hide SoFar, Encoded, Symbol, Wrap, Bits, Pending, Completed, Rest;
    out := "";
    var val, valb := 0, -6;
    NothingSoFar();
    for i := 0 to |input|
      invariant AreBytes(input[..i]) && out == SoFar(input[..i])
      invariant valb == 2 * (i % 3) - 6
      invariant val % 256 == LastOf(input[..i])
    {
      var c := input[i];
      ghost var last := val % 256;
      assert input[..i + 1] == input[..i] + [c];
      SoFarMore(input[..i], c);
      Accumulated(val, last, c as int);
      val := Wrap(val * 256 + c as int);
      PendingIs(val, last, c as int, i % 3);
      var symbols;
      symbols, valb := PutSymbols(val, valb + 8);
      out := out + symbols;
    }
    assert input[..|input|] == input;
    EncodedFromSoFar(input);
    RestIs(|input| % 3, val % 256);
    LengthOfEncoding(input);
    LengthSoFar(input);
    if valb > -6 {
      LastBits(val, val % 256);
      out := out + [Symbol(Bits(Wrap(val * 256), valb + 8))];
    }
    out := Pad(out, Encoded(input));
  }

  lemma RestIs(place: nat, last: nat)
    requires place < 3 && last < 256
    ensures place == 0 ==> Rest(place, last) == ""
    ensures place == 1 ==> Rest(place, last) == [Symbol(last % 4 * 16)] + "=="
    ensures place == 2 ==> Rest(place, last) == [Symbol(last % 16 * 4)] + "="
  {
  }

  lemma NothingSoFar()
    ensures SoFar("") == ""
  {
  }
}
