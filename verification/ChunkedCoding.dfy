/**
  The chunked transfer coding (section 7.1 of RFC 9112) as functions: what the writer emits, what the
  reader makes of a byte sequence, and the round trip between the two.
*/
module ChunkedCoding {
  import opened Text
  import opened Streams
  import Q = Query
  import H = MultipartHeader
  import opened HeaderLaws

  // unsigned long and size_t are 64 bits wide.
  const ULONG_MAX := 0xFFFF_FFFF_FFFF_FFFF
  const HEADER_MAX_COUNT := 100

  // ---- sizes ----

  function HexDigit(n: nat): (c: char)
    requires n < 16
    ensures Q.HexValue(c) == n && !IsCSpace(c) && c != '+' && c != '-' && c != '\0'
  {
    if n < 10 then (n + '0' as int) as char else (n - 10 + 'a' as int) as char
  }

  // from_i_to_hex
  function Hex(n: nat): string {
    if n < 16 then [HexDigit(n)] else Hex(n / 16) + [HexDigit(n % 16)]
  }

  method FromIToHex(size: nat) returns (ret: string)
    ensures ret == Hex(size)
  {
    var n := size;
    ret := [HexDigit(n % 16)];
    n := n / 16;
    while n > 0
      invariant Hex(size) == (if n == 0 then "" else Hex(n)) + ret
    {
      ret := [HexDigit(n % 16)] + ret;
      n := n / 16;
    }
  }

  predicate IsCSpace(c: char) {
    c == ' ' || 9 <= c as int <= 13
  }

  // The digits of a C string: their number, and their value.
  function DigitCount(s: string): nat {
    if s != "" && Q.HexValue(s[0]) >= 0 then 1 + DigitCount(s[1..]) else 0
  }

  function DigitsValue(s: string, acc: nat): nat {
    if s != "" && Q.HexValue(s[0]) >= 0 then DigitsValue(s[1..], acc * 16 + Q.HexValue(s[0])) else acc
  }

  function SkipCSpace(s: string): string {
    if s != "" && IsCSpace(s[0]) then SkipCSpace(s[1..]) else s
  }

  function Unsigned(s: string): int {
    var t := if |s| > 2 && s[0] == '0' && (s[1] == 'x' || s[1] == 'X') && Q.HexValue(s[2]) >= 0 then s[2..] else s;
    if DigitCount(t) == 0 then -1 else DigitsValue(t, 0)
  }

  // strtoul(line, &end, 16): -1 when nothing converts, ULONG_MAX on overflow; a minus sign wraps.
  function Strtoul16(line: string): int {
    var s := SkipCSpace(line[..IndexOf(line, '\0')]);
    var neg := s != "" && s[0] == '-';
    var v := Unsigned(if s != "" && (s[0] == '-' || s[0] == '+') then s[1..] else s);
    if v < 0 then -1
    else if v > ULONG_MAX then ULONG_MAX
    else if neg && v > 0 then ULONG_MAX + 1 - v
    else v
  }

  lemma {:induction false} DigitsValueSnoc(s: string, c: char, acc: nat)
    requires DigitCount(s) == |s|
    ensures DigitsValue(s + [c], acc)
            == if Q.HexValue(c) >= 0 then DigitsValue(s, acc) * 16 + Q.HexValue(c) else DigitsValue(s, acc)
    ensures Q.HexValue(c) >= 0 ==> DigitCount(s + [c]) == |s| + 1
    decreases |s|
  {
    if s == "" {
      assert (s + [c])[1..] == "";
    } else {
      assert (s + [c])[1..] == s[1..] + [c];
      DigitsValueSnoc(s[1..], c, acc * 16 + Q.HexValue(s[0]));
    }
  }

  lemma {:induction false} DigitsStop(s: string, rest: string, acc: nat)
    requires DigitCount(s) == |s| && rest != "" && Q.HexValue(rest[0]) < 0
    ensures DigitsValue(s + rest, acc) == DigitsValue(s, acc) && DigitCount(s + rest) == |s|
    decreases |s|
  {
    if s == "" {
      assert s + rest == rest;
    } else {
      assert (s + rest)[1..] == s[1..] + rest;
      DigitsStop(s[1..], rest, acc * 16 + Q.HexValue(s[0]));
    }
  }

  ghost predicate IsHexText(s: string) {
    forall i :: 0 <= i < |s| ==> Q.HexValue(s[i]) >= 0 && !IsCSpace(s[i]) && s[i] != '+' && s[i] != '-' && s[i] != '\0'
  }

  lemma {:induction false} HexDigits(n: nat)
    ensures Hex(n) != "" && IsHexText(Hex(n)) && DigitCount(Hex(n)) == |Hex(n)| && DigitsValue(Hex(n), 0) == n
    ensures n > 0 ==> Hex(n)[0] != '0'
  {
    if n >= 16 {
      HexDigits(n / 16);
      DigitsValueSnoc(Hex(n / 16), HexDigit(n % 16), 0);
    } else {
      var s := [HexDigit(n)];
      assert s[1..] == "";
    }
  }

  // A size line converts back to the size it was written from.
  lemma SizeLineConverts(n: nat)
    requires n <= ULONG_MAX
    ensures Strtoul16(Hex(n) + CRLF) == n
  {
    var h, line := Hex(n), Hex(n) + CRLF;
    HexDigits(n);
    forall i | 0 <= i < |line| ensures line[i] != '\0' { if i < |h| { assert line[i] == h[i]; } }
    IndexOfIs(line, '\0', |line|);
    assert line[..|line|] == line;
    assert line[0] == h[0];
    assert SkipCSpace(line) == line;
    DigitsStop(h, CRLF, 0);
    if |h| == 1 { assert line[1] == '\r'; }
  }

  // ---- the writer ----

  // done is done_with_trailer without fields.
  datatype SinkCall = Write(data: string) | Done(trailer: seq<(string, string)>)

  function Chunk(payload: string): string {
    if payload == "" then "" else Hex(|payload|) + CRLF + payload + CRLF
  }

  const DONE_MARKER := "0\r\n"

  function TrailerText(fields: seq<(string, string)>): string {
    if fields == [] then "" else fields[0].0 + ": " + fields[0].1 + CRLF + TrailerText(fields[1..])
  }

  function Closing(trailer: seq<(string, string)>): string {
    DONE_MARKER + (TrailerText(trailer) + CRLF)
  }

  // The sink's answer to one call: what goes out, and whether more data may come.
  function SinkOutput(call: SinkCall): string {
    match call
    case Write(data) => Chunk(data)
    case Done(trailer) => Closing(trailer)
  }

  function SinkOpen(call: SinkCall): bool {
    call.Write? && call.data != ""
  }

  function CallsOutput(calls: seq<SinkCall>): string {
    if calls == [] then "" else SinkOutput(calls[0]) + CallsOutput(calls[1..])
  }

  // Everything the loop of write_content_chunked emits, and whether it ends by itself: the provider is
  // called as long as the last sink call left it open; a provider with nothing more to do cancels.
  function Emitted(rounds: seq<seq<SinkCall>>, open: bool): (string, bool) {
    if !open then ("", true)
    else if rounds == [] then ("", false)
    else
      var calls := rounds[0];
      var (out, ok) := Emitted(rounds[1..], if calls == [] then open else SinkOpen(calls[|calls| - 1]));
      (CallsOutput(calls) + out, ok)
  }

  function Chunks(writes: seq<string>): string {
    if writes == [] then "" else Chunk(writes[0]) + Chunks(writes[1..])
  }

  function Encoded(writes: seq<string>, trailer: seq<(string, string)>): string {
    Chunks(writes) + Closing(trailer)
  }

  // ---- the reader ----

  // body: what the receiver was given; rest: what is left in the stream.
  datatype Decoded = Decoded(ok: bool, body: string, trailer: seq<(string, string)>, rest: string)

  // The bytes getline leaves behind, whether or not it succeeds.
  function AfterLine(input: string): string {
    if LineFits(input) then input[|LineOf(input)|..]
    else if |input| < MAX_LINE_LENGTH then "" else input[MAX_LINE_LENGTH..]
  }

  // The header a trailer line adds; its last two bytes are taken for the line end.
  function TrailerField(line: string): seq<(string, string)> {
    match H.ParseHeader(line[..if |line| < 2 then 0 else |line| - 2])
    case None => []
    case Some(kv) => [kv]
  }

  // The trailer section, from the line that was just read.
  function Trailer(line: string, input: string, body: string, trailer: seq<(string, string)>, count: nat): Decoded
    decreases |input|
  {
    if line == CRLF then Decoded(true, body, trailer, input)
    else if |line| > HEADER_MAX_LENGTH || count >= HEADER_MAX_COUNT then Decoded(false, body, trailer, input)
    else
      var trailer' := trailer + TrailerField(line);
      if !LineFits(input) then Decoded(false, body, trailer', AfterLine(input))
      else Trailer(LineOf(input), input[|LineOf(input)|..], body, trailer', count + 1)
  }

  // The chunks, from the size line that was just read.
  function ReadChunks(line: string, input: string, body: string): Decoded
    decreases |input|
  {
    var size := Strtoul16(line);
    if size < 0 || size == ULONG_MAX then Decoded(false, body, [], input)
    else if size == 0 then
      if !LineFits(input) then Decoded(true, body, [], AfterLine(input))
      else Trailer(LineOf(input), input[|LineOf(input)|..], body, [], 0)
    else if |input| < size then Decoded(false, body + input, [], "")
    else
      var body', input' := body + input[..size], input[size..];
      if !LineFits(input') then Decoded(false, body', [], AfterLine(input'))
      else
        var end, input'' := LineOf(input'), input'[|LineOf(input')|..];
        if end != CRLF then Decoded(false, body', [], input'')
        else if !LineFits(input'') then Decoded(false, body', [], AfterLine(input''))
        else ReadChunks(LineOf(input''), input''[|LineOf(input'')|..], body')
  }

  function Decode(input: string): Decoded {
    if !LineFits(input) then Decoded(false, "", [], AfterLine(input))
    else ReadChunks(LineOf(input), input[|LineOf(input)|..], "")
  }

  // ---- the round trip ----

  // A short line followed by anything is the next line.
  lemma LineFirst(line: string, rest: string)
    requires '\r' !in line && |line| + 2 <= MAX_LINE_LENGTH
    ensures var input := line + CRLF + rest;
      LineFits(input) && LineOf(input) == line + CRLF && input[|line| + 2..] == rest
  {
    var input := line + CRLF + rest;
    assert input[|line|..|line| + 2] == CRLF;
    forall k | 0 <= k < |line| ensures !StartsAt(input, k, CRLF) {
      EndsIsStarts(input, k);
      assert input[k] == line[k];
    }
    FindIs(input, CRLF, |line|);
    assert input[..|line| + 2] == line + CRLF;
  }

  lemma {:induction false} HexIsShort(n: nat, k: nat)
    requires n < Power16(k) && k > 0
    ensures |Hex(n)| <= k
    decreases k
  {
    if n >= 16 { HexIsShort(n / 16, k - 1); }
  }

  function Power16(k: nat): nat {
    if k == 0 then 1 else 16 * Power16(k - 1)
  }

  lemma HexLine(n: nat)
    requires n < ULONG_MAX
    ensures '\r' !in Hex(n) && |Hex(n)| + 2 <= MAX_LINE_LENGTH
  {
    HexDigits(n);
    assert Power16(4) == 0x1_0000 by { assert Power16(2) == 256; }
    assert Power16(8) == 0x1_0000_0000 by { assert Power16(6) == 0x100_0000; }
    assert Power16(12) == 0x1_0000_0000_0000 by { assert Power16(10) == 0x100_0000_0000; }
    assert Power16(16) == ULONG_MAX + 1 by { assert Power16(14) == 0x100_0000_0000_0000; }
    HexIsShort(n, 16);
    forall i | 0 <= i < |Hex(n)| ensures Hex(n)[i] != '\r' { assert !IsCSpace(Hex(n)[i]); }
  }

  ghost predicate Sendable(writes: seq<string>) {
    forall i :: 0 <= i < |writes| ==> 0 < |writes[i]| < ULONG_MAX
  }

  // After a chunk, the reader stands where it stood before it, the payload delivered.
  lemma ChunkDecodes(payload: string, next: string, rest: string, body: string)
    requires 0 < |payload| < ULONG_MAX && '\r' !in next && |next| + 2 <= MAX_LINE_LENGTH
    ensures ReadChunks(Hex(|payload|) + CRLF, payload + CRLF + (next + CRLF + rest), body)
         == ReadChunks(next + CRLF, rest, body + payload)
  {
    var n := |payload|;
    SizeLineConverts(n);
    var input := payload + CRLF + (next + CRLF + rest);
    assert input[..n] == payload;
    assert input[n..] == "" + CRLF + (next + CRLF + rest);
    LineFirst("", next + CRLF + rest);
    LineFirst(next, rest);
  }

  // What comes after a chunk begins with a line: the next size or the closing zero.
  function NextSize(writes: seq<string>): string {
    if writes == [] then "0" else Hex(|writes[0]|)
  }

  function AfterSize(writes: seq<string>, trailer: seq<(string, string)>): string {
    if writes == [] then TrailerText(trailer) + CRLF else writes[0] + CRLF + Encoded(writes[1..], trailer)
  }

  lemma EncodedSplits(writes: seq<string>, trailer: seq<(string, string)>)
    requires Sendable(writes)
    ensures Encoded(writes, trailer) == NextSize(writes) + CRLF + AfterSize(writes, trailer)
    ensures '\r' !in NextSize(writes) && |NextSize(writes)| + 2 <= MAX_LINE_LENGTH
  {
    hide TrailerText;
    if writes != [] { HexLine(|writes[0]|); }
  }

  // What the reader makes of the trailer section, once the closing zero is read.
  function ReadLast(trailer: seq<(string, string)>, rest: string, body: string): Decoded {
    ReadChunks("0" + CRLF, TrailerText(trailer) + CRLF + rest, body)
  }

  lemma {:induction false} ChunksDecode(writes: seq<string>, trailer: seq<(string, string)>, rest: string, body: string)
    requires Sendable(writes)
    ensures ReadChunks(NextSize(writes) + CRLF, AfterSize(writes, trailer) + rest, body)
         == ReadLast(trailer, rest, body + Concat(writes))
    decreases |writes|
  {
    hide ReadChunks, Encoded, Hex, TrailerText;
    if writes == [] {
      Nothing(body);
    } else {
      var w, more := writes[0], writes[1..];
      EncodedSplits(more, trailer);
      ChunksDecode(more, trailer, rest, body + w);
      var next, after := NextSize(more), AfterSize(more, trailer) + rest;
      Assoc(w + CRLF, Encoded(more, trailer), rest);
      Assoc(next + CRLF, AfterSize(more, trailer), rest);
      ChunkDecodes(w, next, after, body);
      Assoc(body, w, Concat(more));
    }
  }

  // ---- the trailer section ----

  // A field that a line can carry: a token, and a value in which nothing decodes.
  ghost predicate IsPlainField(field: (string, string)) {
    H.IsToken(field.0) && H.IsFieldValue(field.1) && Content(field.0, field.1) == field.1
  }

  ghost predicate IsPlainTrailer(trailer: seq<(string, string)>) {
    forall i :: 0 <= i < |trailer| ==> IsPlainField(trailer[i])
  }

  ghost predicate LinesAreShort(trailer: seq<(string, string)>) {
    forall i :: 0 <= i < |trailer| ==> |trailer[i].0| + 2 + |trailer[i].1| + 2 <= HEADER_MAX_LENGTH
  }

  // Both limits of the reader.
  ghost predicate IsWithinLimits(trailer: seq<(string, string)>) {
    |trailer| <= HEADER_MAX_COUNT && LinesAreShort(trailer)
  }

  lemma FieldHasNoReturn(field: (string, string))
    requires IsPlainField(field)
    ensures '\r' !in field.0 + ": " + field.1 && Trimmed(field.1)
  {
    hide Content;
    var line := field.0 + ": " + field.1;
    forall i | 0 <= i < |line| ensures line[i] != '\r' {
      if i < |field.0| {
        assert line[i] == field.0[i];
      } else if i >= |field.0| + 2 {
        assert line[i] == field.1[i - |field.0| - 2];
      }
    }
  }

  lemma FieldIsRead(field: (string, string))
    requires IsPlainField(field)
    ensures TrailerField(field.0 + ": " + field.1 + CRLF) == [field]
  {
    hide Content, H.IsToken, H.IsFieldValue, H.ParseHeader;
    FieldHasNoReturn(field);
    var text := field.0 + ": " + field.1;
    assert (text + CRLF)[..|text|] == text;
    BlankBefore(field.0, field.1);
    FieldParses(field.0, " ", field.1, "");
  }

  lemma LongLineDoesNotFit(line: string, rest: string)
    requires '\r' !in line && |line| + 2 > MAX_LINE_LENGTH
    ensures !LineFits(line + CRLF + rest)
  {
    var input := line + CRLF + rest;
    assert input[|line|..|line| + 2] == CRLF;
    forall k | 0 <= k < |line| ensures !StartsAt(input, k, CRLF) {
      EndsIsStarts(input, k);
      assert input[k] == line[k];
    }
    FindIs(input, CRLF, |line|);
  }

  lemma TrailerTextStep(trailer: seq<(string, string)>, rest: string)
    requires trailer != []
    ensures TrailerText(trailer) + CRLF + rest
         == trailer[0].0 + ": " + trailer[0].1 + CRLF + (TrailerText(trailer[1..]) + CRLF + rest)
  {
    var line, more := trailer[0].0 + ": " + trailer[0].1 + CRLF, TrailerText(trailer[1..]);
    Assoc(line, more, CRLF);
    Assoc(line, more + CRLF, rest);
  }

  lemma TrailerEnd(rest: string)
    ensures TrailerText([]) + CRLF + rest == "" + CRLF + rest
  {
  }

  lemma ShortLinesRest(trailer: seq<(string, string)>)
    requires trailer != []
    ensures LinesAreShort(trailer)
       <==> |trailer[0].0| + 2 + |trailer[0].1| + 2 <= HEADER_MAX_LENGTH && LinesAreShort(trailer[1..])
  {
    assert forall i :: 0 < i < |trailer| ==> trailer[i] == trailer[1..][i - 1];
  }

  lemma AppendFields(fields: seq<(string, string)>, trailer: seq<(string, string)>)
    requires trailer != []
    ensures fields + [trailer[0]] + trailer[1..] == fields + trailer
  {
  }

  // The lines of a trailer are read, field by field, exactly when they are within both limits.
  lemma {:induction false} TrailerIff(trailer: seq<(string, string)>, rest: string, body: string,
                                      fields: seq<(string, string)>, count: nat)
    requires IsPlainTrailer(trailer) && count <= HEADER_MAX_COUNT
    ensures var text := TrailerText(trailer) + CRLF + rest;
      if count + |trailer| <= HEADER_MAX_COUNT && LinesAreShort(trailer) then
        LineFits(text) && Trailer(LineOf(text), text[|LineOf(text)|..], body, fields, count)
                          == Decoded(true, body, fields + trailer, rest)
      else LineFits(text) ==> !Trailer(LineOf(text), text[|LineOf(text)|..], body, fields, count).ok
    decreases |trailer|
  {
    hide LineFits, LineOf, TrailerText, LinesAreShort, IsPlainField, TrailerField;
    if trailer == [] {
      TrailerEnd(rest);
      LineFirst("", rest);
      NoFields(fields);
    } else {
      var line, more := trailer[0].0 + ": " + trailer[0].1, TrailerText(trailer[1..]) + CRLF + rest;
      TrailerTextStep(trailer, rest);
      FieldHasNoReturn(trailer[0]);
      ShortLinesRest(trailer);
      if |line| + 2 > MAX_LINE_LENGTH {
        LongLineDoesNotFit(line, more);
      } else {
        LineFirst(line, more);
        assert line + CRLF != CRLF by { LineIsLonger(trailer[0].0, trailer[0].1); }
        if |line| + 2 <= HEADER_MAX_LENGTH && count < HEADER_MAX_COUNT {
          FieldIsRead(trailer[0]);
          AppendFields(fields, trailer);
          TrailerIff(trailer[1..], rest, body, fields + [trailer[0]], count + 1);
        }
      }
    }
  }

  lemma LineIsLonger(key: string, val: string)
    ensures key + ": " + val + CRLF != CRLF
  {
    assert |key + ": " + val + CRLF| >= 4;
  }

  lemma NoFields(fields: seq<(string, string)>)
    ensures LinesAreShort([]) && fields + [] == fields
  {
  }

  lemma LastReadIff(trailer: seq<(string, string)>, rest: string, body: string)
    requires IsPlainTrailer(trailer)
    ensures IsWithinLimits(trailer) ==> ReadLast(trailer, rest, body) == Decoded(true, body, trailer, rest)
    ensures ReadLast(trailer, rest, body).ok && ReadLast(trailer, rest, body).trailer == trailer ==>
      IsWithinLimits(trailer)
    ensures trailer == [] ==> IsWithinLimits(trailer)
  {
    hide LineFits, LineOf, TrailerText, LinesAreShort, Strtoul16, Trailer;
    assert Hex(0) == "0";
    SizeLineConverts(0);
    TrailerIff(trailer, rest, body, [], 0);
    NoFields([]);
    if trailer == [] {
      TrailerEnd(rest);
      LineFirst("", rest);
    }
    assert [] + trailer == trailer;
  }

  // Chunked coding round trip: reading what was written for a sequence of non-empty writes delivers their
  // concatenation and leaves the stream exactly at the end of the coding.  The fields of a plain trailer
  // come back with it, in order, exactly when they are within the limits.
  lemma ChunkedRoundTrip(writes: seq<string>, trailer: seq<(string, string)>, rest: string)
    requires Sendable(writes) && IsPlainTrailer(trailer)
    ensures Decode(Encoded(writes, trailer) + rest) == Decoded(true, Concat(writes), trailer, rest)
       <==> IsWithinLimits(trailer)
    ensures Decode(Encoded(writes, trailer) + rest) == ReadLast(trailer, rest, Concat(writes))
    ensures trailer == [] ==> IsWithinLimits(trailer)
  {
    hide IsPlainTrailer, IsWithinLimits;
    EncodedDecodes(writes, trailer, rest);
    LastReadIff(trailer, rest, Concat(writes));
  }

  lemma EncodedDecodes(writes: seq<string>, trailer: seq<(string, string)>, rest: string)
    requires Sendable(writes)
    ensures Decode(Encoded(writes, trailer) + rest) == ReadLast(trailer, rest, Concat(writes))
  {
    hide Encoded, NextSize, AfterSize, ReadChunks, LineFits, LineOf, ReadLast;
    EncodedSplits(writes, trailer);
    var line, after := NextSize(writes), AfterSize(writes, trailer) + rest;
    Assoc(line + CRLF, AfterSize(writes, trailer), rest);
    LineFirst(line, after);
    ChunksDecode(writes, trailer, rest, "");
    Nothing(Concat(writes));
  }

  // A provider that writes non-empty pieces, in however many rounds, and then closes once, with a trailer.
  function AsCalls(writes: seq<string>, trailer: seq<(string, string)>): seq<SinkCall> {
    if writes == [] then [Done(trailer)] else [Write(writes[0])] + AsCalls(writes[1..], trailer)
  }

  function Flatten(rounds: seq<seq<SinkCall>>): seq<SinkCall> {
    if rounds == [] then [] else rounds[0] + Flatten(rounds[1..])
  }

  lemma {:induction false} CallsOutputConcat(a: seq<SinkCall>, b: seq<SinkCall>)
    ensures CallsOutput(a + b) == CallsOutput(a) + CallsOutput(b)
    decreases |a|
  {
    if a == [] {
      assert a + b == b;
    } else {
      assert (a + b)[1..] == a[1..] + b;
      CallsOutputConcat(a[1..], b);
    }
  }

  lemma {:induction false} AsCallsEncode(writes: seq<string>, trailer: seq<(string, string)>)
    ensures CallsOutput(AsCalls(writes, trailer)) == Encoded(writes, trailer)
  {
    if writes == [] {
      var calls := [Done(trailer)];
      assert CallsOutput(calls[1..]) == "";
    } else {
      hide Closing;
      AsCallsEncode(writes[1..], trailer);
      Assoc(Chunk(writes[0]), Chunks(writes[1..]), Closing(trailer));
      assert AsCalls(writes, trailer)[1..] == AsCalls(writes[1..], trailer);
    }
  }

  // A cut through such a sequence of calls: the first part leaves the sink open unless it is everything.
  lemma {:induction false} AsCallsCut(writes: seq<string>, trailer: seq<(string, string)>, a: seq<SinkCall>,
                                       b: seq<SinkCall>)
    requires Sendable(writes) && AsCalls(writes, trailer) == a + b && a != []
    ensures SinkOpen(a[|a| - 1]) <==> b != []
    ensures b != [] ==> |a| <= |writes| && b == AsCalls(writes[|a|..], trailer)
    decreases |writes|
  {
    if writes == [] {
      assert |a + b| == 1;
    } else if |a| == 1 {
      assert a[0] == (a + b)[0] && b == (a + b)[1..] == AsCalls(writes[1..], trailer);
    } else {
      assert a[1..] + b == (a + b)[1..] == AsCalls(writes[1..], trailer);
      AsCallsCut(writes[1..], trailer, a[1..], b);
      assert a[1..][|a| - 2] == a[|a| - 1];
      if b != [] { assert writes[1..][|a| - 1..] == writes[|a|..]; }
    }
  }

  // The writer's loop emits the coding of the pieces written, however they are spread over its rounds.
  lemma {:induction false} WriterEmitsCoding(rounds: seq<seq<SinkCall>>, writes: seq<string>,
                                             trailer: seq<(string, string)>)
    requires Sendable(writes) && Flatten(rounds) == AsCalls(writes, trailer)
    ensures Emitted(rounds, true) == (Encoded(writes, trailer), true)
    decreases |rounds|
  {
    hide Encoded;
    if rounds != [] {
      var a, more := rounds[0], rounds[1..];
      if a == [] {
        assert Flatten(rounds) == Flatten(more);
        WriterEmitsCoding(more, writes, trailer);
        assert "" + Encoded(writes, trailer) == Encoded(writes, trailer);
      } else {
        AsCallsCut(writes, trailer, a, Flatten(more));
        AsCallsEncode(writes, trailer);
        CallsOutputConcat(a, Flatten(more));
        if Flatten(more) != [] {
          AsCallsEncode(writes[|a|..], trailer);
          WriterEmitsCoding(more, writes[|a|..], trailer);
        } else {
          assert Emitted(more, false) == ("", true);
          assert CallsOutput(a) + "" == Encoded(writes, trailer);
        }
      }
    }
  }

  // ---- any sequence of calls ----

  // The calls that the loop makes: it asks for another round as long as the last call left the sink open.
  function Made(rounds: seq<seq<SinkCall>>, open: bool): seq<SinkCall> {
    if !open || rounds == [] then []
    else
      var calls := rounds[0];
      calls + Made(rounds[1..], if calls == [] then open else SinkOpen(calls[|calls| - 1]))
  }

  function Written(calls: seq<SinkCall>): string {
    if calls == [] then "" else (if calls[0].Write? then calls[0].data else "") + Written(calls[1..])
  }

  ghost predicate IsSilent(calls: seq<SinkCall>) {
    forall i :: 0 <= i < |calls| ==> calls[i] == Write("")
  }

  // Writes, then done once, and nothing but empty writes after it.
  ghost predicate ClosesOnce(calls: seq<SinkCall>) {
    calls != [] && if calls[0].Done? then IsSilent(calls[1..]) else ClosesOnce(calls[1..])
  }

  ghost predicate AreSized(calls: seq<SinkCall>) {
    forall i :: 0 <= i < |calls| ==> calls[i].Write? ==> |calls[i].data| < ULONG_MAX
  }

  // Up to the first done.
  function BeforeDone(calls: seq<SinkCall>): (k: nat)
    ensures k <= |calls| && (k < |calls| ==> calls[k].Done?)
    ensures forall i :: 0 <= i < k ==> calls[i].Write?
  {
    if calls == [] || calls[0].Done? then 0 else 1 + BeforeDone(calls[1..])
  }

  function Payloads(calls: seq<SinkCall>): seq<string> {
    if calls == [] then []
    else (if calls[0].Write? && calls[0].data != "" then [calls[0].data] else []) + Payloads(calls[1..])
  }

  lemma {:induction false} WritesAreChunks(calls: seq<SinkCall>)
    requires AreSized(calls) && forall i :: 0 <= i < |calls| ==> calls[i].Write?
    ensures Sendable(Payloads(calls)) && CallsOutput(calls) == Chunks(Payloads(calls))
    ensures Concat(Payloads(calls)) == Written(calls)
  {
    hide Chunk;
    if calls != [] {
      var data, more := calls[0].data, calls[1..];
      WritesAreChunks(more);
      assert calls[0] == Write(data);
      if data != "" {
        assert Payloads(calls) == [data] + Payloads(more) && Payloads(calls)[1..] == Payloads(more);
      } else {
        NoChunk();
        Nothing(CallsOutput(more));
        Nothing(Written(more));
        assert Payloads(calls) == Payloads(more);
      }
    }
  }

  lemma NoChunk()
    ensures Chunk("") == ""
  {
  }

  lemma {:induction false} ClosesOnceSplits(calls: seq<SinkCall>)
    ensures var k := BeforeDone(calls);
      ClosesOnce(calls) <==> k < |calls| && IsSilent(calls[k + 1..])
  {
    if calls != [] && calls[0].Write? {
      ClosesOnceSplits(calls[1..]);
      var k := BeforeDone(calls);
      if k < |calls| { assert calls[1..][k..] == calls[k + 1..]; }
    }
  }

  lemma {:induction false} SilentIff(calls: seq<SinkCall>)
    ensures IsSilent(calls) <==> CallsOutput(calls) == ""
    ensures IsSilent(calls) ==> Written(calls) == ""
  {
    if calls != [] {
      SilentIff(calls[1..]);
      assert IsSilent(calls) <==> calls[0] == Write("") && IsSilent(calls[1..]);
    }
  }

  lemma {:induction false} WrittenConcat(a: seq<SinkCall>, b: seq<SinkCall>)
    ensures Written(a + b) == Written(a) + Written(b)
    decreases |a|
  {
    if a == [] {
      assert a + b == b;
    } else {
      assert (a + b)[1..] == a[1..] + b;
      WrittenConcat(a[1..], b);
    }
  }

  lemma LoneChunkIsRefused(w: string, body: string)
    requires 0 < |w| < ULONG_MAX
    ensures !ReadChunks(Hex(|w|) + CRLF, w + CRLF, body).ok
  {
    hide LineFits, LineOf, Hex;
    SizeLineConverts(|w|);
    var input := w + CRLF;
    assert input[..|w|] == w && input[|w|..] == "" + CRLF + "";
    LineFirst("", "");
    NoLine();
  }

  // Chunks that no terminator follows.
  lemma {:induction false} UnclosedIsRefused(writes: seq<string>, body: string)
    requires Sendable(writes) && writes != []
    ensures !ReadChunks(Hex(|writes[0]|) + CRLF, writes[0] + CRLF + Chunks(writes[1..]), body).ok
    decreases |writes|
  {
    hide LineFits, LineOf, ReadChunks, Hex;
    var w, more := writes[0], writes[1..];
    if more == [] {
      LoneChunkIsRefused(w, body);
      Nothing(w + CRLF);
    } else {
      HexLine(|more[0]|);
      var size, after := Hex(|more[0]|), more[0] + CRLF + Chunks(more[1..]);
      assert Chunks(more) == size + CRLF + after;
      hide Chunks;
      ChunkDecodes(w, size, after, body);
      UnclosedIsRefused(more, body + w);
    }
  }

  lemma NoLine()
    ensures !LineFits("")
  {
  }

  lemma ChunksAreRefused(writes: seq<string>)
    requires Sendable(writes)
    ensures !Decode(Chunks(writes)).ok
  {
    hide ReadChunks, LineFits, LineOf;
    NoLine();
    if writes != [] {
      HexLine(|writes[0]|);
      var after := writes[0] + CRLF + Chunks(writes[1..]);
      assert Chunks(writes) == Hex(|writes[0]|) + CRLF + after;
      LineFirst(Hex(|writes[0]|), after);
      UnclosedIsRefused(writes, "");
    }
  }

  lemma DoneDecodes(before: seq<SinkCall>, trailer: seq<(string, string)>, after: seq<SinkCall>, rest: string)
    requires AreSized(before) && forall i :: 0 <= i < |before| ==> before[i].Write?
    ensures Decode(CallsOutput(before + ([Done(trailer)] + after)) + rest)
         == ReadLast(trailer, CallsOutput(after) + rest, Written(before))
  {
    hide Decode, Chunks, CallsOutput, Payloads, Written, Sendable, AreSized, ReadLast, Closing;
    WritesAreChunks(before);
    CallsOutputConcat(before, [Done(trailer)] + after);
    DoneOutput(trailer, after);
    Assoc(Chunks(Payloads(before)), Closing(trailer), CallsOutput(after));
    Assoc(Encoded(Payloads(before), trailer), CallsOutput(after), rest);
    EncodedDecodes(Payloads(before), trailer, CallsOutput(after) + rest);
  }

  // What a reader makes of the calls, up to the first done and after it.
  lemma CallsDecode(calls: seq<SinkCall>, rest: string)
    requires AreSized(calls)
    ensures var k := BeforeDone(calls);
      && (k == |calls| ==> !Decode(CallsOutput(calls)).ok)
      && (k < |calls| ==>
            Decode(CallsOutput(calls) + rest)
            == ReadLast(calls[k].trailer, CallsOutput(calls[k + 1..]) + rest, Written(calls[..k])))
  {
    hide Decode, CallsOutput, Written, Payloads, Chunks, Sendable, BeforeDone, AreSized, ReadLast;
    var k := BeforeDone(calls);
    if k < |calls| {
      CutAtDone(calls, k);
      DoneDecodes(calls[..k], calls[k].trailer, calls[k + 1..], rest);
    } else {
      WritesAreChunks(calls);
      ChunksAreRefused(Payloads(calls));
    }
  }

  lemma CutAtDone(calls: seq<SinkCall>, k: nat)
    requires k < |calls| && calls[k].Done? && AreSized(calls)
    ensures calls == calls[..k] + ([Done(calls[k].trailer)] + calls[k + 1..]) && AreSized(calls[..k])
  {
  }

  lemma DoneOutput(trailer: seq<(string, string)>, after: seq<SinkCall>)
    ensures CallsOutput([Done(trailer)] + after) == Closing(trailer) + CallsOutput(after)
  {
    hide Closing;
    assert ([Done(trailer)] + after)[1..] == after;
  }

  // The fields that the first done sends.
  function TrailerOf(calls: seq<SinkCall>): seq<(string, string)> {
    if calls == [] then [] else if calls[0].Done? then calls[0].trailer else TrailerOf(calls[1..])
  }

  lemma {:induction false} TrailerAtDone(calls: seq<SinkCall>)
    ensures var k := BeforeDone(calls);
      TrailerOf(calls) == if k < |calls| then calls[k].trailer else []
  {
    if calls != [] && calls[0].Write? { TrailerAtDone(calls[1..]); }
  }

  // What was written comes back, the trailer with it and nothing left over, exactly when the calls close
  // the sink once and the trailer is within the reader's limits.
  lemma CallsRoundTripIff(calls: seq<SinkCall>)
    requires AreSized(calls) && IsPlainTrailer(TrailerOf(calls))
    ensures Decode(CallsOutput(calls)) == Decoded(true, Written(calls), TrailerOf(calls), "")
       <==> ClosesOnce(calls) && IsWithinLimits(TrailerOf(calls))
    ensures ClosesOnce(calls) && IsWithinLimits(TrailerOf(calls)) ==>
      forall rest :: Decode(CallsOutput(calls) + rest) == Decoded(true, Written(calls), TrailerOf(calls), rest)
    ensures var d := Decode(CallsOutput(calls));
      d.ok && d.trailer == TrailerOf(calls) && d.rest == "" ==> ClosesOnce(calls) && IsWithinLimits(TrailerOf(calls))
  {
    hide Decode, CallsOutput, Written, ClosesOnce, IsSilent, AreSized, ReadLast, IsWithinLimits, IsPlainTrailer;
    hide TrailerOf;
    var k, trailer := BeforeDone(calls), TrailerOf(calls);
    TrailerAtDone(calls);
    ClosesOnceSplits(calls);
    CallsDecode(calls, "");
    Nothing(CallsOutput(calls));
    if k < |calls| {
      var after := calls[k + 1..];
      SilentIff(after);
      Nothing(CallsOutput(after));
      LastReadIff(trailer, CallsOutput(after), Written(calls[..k]));
      if IsSilent(after) && IsWithinLimits(trailer) {
        CutAtDone(calls, k);
        WrittenConcat(calls[..k], [Done(trailer)] + after);
        DoneWrites(trailer, after);
        Nothing(Written(calls[..k]));
        forall rest ensures Decode(CallsOutput(calls) + rest) == Decoded(true, Written(calls), trailer, rest) {
          CallsDecode(calls, rest);
          Nothing(rest);
          LastReadIff(trailer, rest, Written(calls[..k]));
        }
      }
    }
  }

  lemma DoneWrites(trailer: seq<(string, string)>, after: seq<SinkCall>)
    ensures Written([Done(trailer)] + after) == Written(after)
  {
    assert ([Done(trailer)] + after)[1..] == after;
  }

  lemma {:induction false} EmittedIsMade(rounds: seq<seq<SinkCall>>, open: bool)
    ensures Emitted(rounds, open).0 == CallsOutput(Made(rounds, open))
    decreases |rounds|
  {
    if open && rounds != [] {
      var calls := rounds[0];
      var next := if calls == [] then open else SinkOpen(calls[|calls| - 1]);
      EmittedIsMade(rounds[1..], next);
      CallsOutputConcat(calls, Made(rounds[1..], next));
    }
  }

  lemma {:induction false} ClosedByLast(a: seq<SinkCall>, b: seq<SinkCall>)
    requires ClosesOnce(a + b)
    ensures ClosesOnce(b) || (a != [] && !SinkOpen(a[|a| - 1]))
    decreases |a|
  {
    if a == [] {
      assert a + b == b;
    } else {
      assert (a + b)[1..] == a[1..] + b && (a + b)[0] == a[0];
      if a[0].Done? {
        assert |a| > 1 ==> (a[1..] + b)[|a| - 2] == a[|a| - 1];
      } else {
        ClosedByLast(a[1..], b);
      }
    }
  }

  lemma {:induction false} ClosingEndsLoop(rounds: seq<seq<SinkCall>>, open: bool)
    requires ClosesOnce(Made(rounds, open))
    ensures Emitted(rounds, open).1
    decreases |rounds|
  {
    var calls := rounds[0];
    var next := if calls == [] then open else SinkOpen(calls[|calls| - 1]);
    ClosedByLast(calls, Made(rounds[1..], next));
    if next { ClosingEndsLoop(rounds[1..], next); }
  }

  // The loop reports success, and a reader gets what was written, with nothing left over, exactly when the
  // calls that were made close the sink once and the trailer is within the reader's limits.
  lemma RoundsRoundTripIff(rounds: seq<seq<SinkCall>>)
    requires AreSized(Made(rounds, true)) && IsPlainTrailer(TrailerOf(Made(rounds, true)))
    ensures var (out, ok) := Emitted(rounds, true);
      var calls := Made(rounds, true);
      ok && Decode(out) == Decoded(true, Written(calls), TrailerOf(calls), "")
      <==> ClosesOnce(calls) && IsWithinLimits(TrailerOf(calls))
  {
    hide Decode, CallsOutput, Written, ClosesOnce, AreSized, Emitted, Made, TrailerOf, IsWithinLimits, IsPlainTrailer;
    EmittedIsMade(rounds, true);
    CallsRoundTripIff(Made(rounds, true));
    if ClosesOnce(Made(rounds, true)) { ClosingEndsLoop(rounds, true); }
  }

  // A round that ends with an empty write ends the loop with success and no last chunk on the wire.
  lemma EmptyWriteEndsUnclosed(writes: seq<string>)
    requires Sendable(writes)
    ensures var rounds := [AsWrites(writes) + [Write("")]];
      Emitted(rounds, true) == (Chunks(writes), true) && !Decode(Chunks(writes)).ok
  {
    var calls := AsWrites(writes) + [Write("")];
    var rounds := [calls];
    hide Decode, Chunks, CallsOutput, Sendable;
    ChunksAreRefused(writes);
    AsWritesOutput(writes);
    CallsOutputConcat(AsWrites(writes), [Write("")]);
    EmptyWriteOutput();
    assert calls[|calls| - 1] == Write("") && rounds[0] == calls && !SinkOpen(Write(""));
    assert Emitted(rounds[1..], false) == ("", true);
    Nothing(Chunks(writes));
  }

  function AsWrites(writes: seq<string>): seq<SinkCall> {
    if writes == [] then [] else [Write(writes[0])] + AsWrites(writes[1..])
  }

  lemma {:induction false} AsWritesOutput(writes: seq<string>)
    ensures CallsOutput(AsWrites(writes)) == Chunks(writes)
  {
    if writes != [] {
      AsWritesOutput(writes[1..]);
      assert AsWrites(writes)[1..] == AsWrites(writes[1..]);
    }
  }

  lemma EmptyWriteOutput()
    ensures CallsOutput([Write("")]) == ""
  {
    var calls := [Write("")];
    assert calls[1..] == [];
  }

  // A provider that writes non-empty pieces and then closes makes all its calls, and closes once.
  lemma {:induction false} AsCallsAreMade(rounds: seq<seq<SinkCall>>, writes: seq<string>,
                                          trailer: seq<(string, string)>)
    requires Sendable(writes) && Flatten(rounds) == AsCalls(writes, trailer)
    ensures Made(rounds, true) == AsCalls(writes, trailer)
    decreases |rounds|
  {
    if rounds != [] {
      var a, more := rounds[0], rounds[1..];
      if a == [] {
        assert Flatten(rounds) == Flatten(more);
        AsCallsAreMade(more, writes, trailer);
      } else {
        AsCallsCut(writes, trailer, a, Flatten(more));
        if Flatten(more) != [] { AsCallsAreMade(more, writes[|a|..], trailer); }
      }
    }
  }

  lemma {:induction false} AsCallsCloseOnce(writes: seq<string>, trailer: seq<(string, string)>)
    requires Sendable(writes)
    ensures var calls := AsCalls(writes, trailer);
      ClosesOnce(calls) && AreSized(calls) && Written(calls) == Concat(writes) && TrailerOf(calls) == trailer
  {
    var calls := AsCalls(writes, trailer);
    if writes == [] {
      assert calls[1..] == [];
    } else {
      AsCallsCloseOnce(writes[1..], trailer);
      assert calls[1..] == AsCalls(writes[1..], trailer);
      assert forall i :: 0 < i < |calls| ==> calls[i] == calls[1..][i - 1];
    }
  }
}
