/**
  The body of a partial response: the frame around several ranges, the pass that counts its length and the
  pass that writes it with a content provider.
*/
module RangeBody {
  import opened Basics
  import opened Text
  import opened Ranges
  import W = ChunkedTransfer

  // ---- the bytes a partial response should have ----

  function Digit(n: nat): (c: char)
    requires n < 10
    ensures IsDigit(c) && c as int - '0' as int == n
  {
    (n + '0' as int) as char
  }

  // std::to_string
  function Decimal(n: nat): string {
    if n < 10 then [Digit(n)] else Decimal(n / 10) + [Digit(n % 10)]
  }

  function ContentRange(r: Range, n: nat): string
    requires Inside(r, n)
  {
    "bytes " + Decimal(r.first) + "-" + Decimal(r.last) + "/" + Decimal(n)
  }

  // ---- reading a Content-Range ----

  function NumberAt(s: string, acc: nat): (nat, string) {
    if s != "" && IsDigit(s[0]) then NumberAt(s[1..], acc * 10 + (s[0] as int - '0' as int)) else (acc, s)
  }

  // A reader of a Content-Range (section 14.4 of RFC 9110): the range and the length of the content.
  function ReadContentRange(s: string): Option<(Range, nat)> {
    if !("bytes " <= s) then None
    else
      var (first, s1) := NumberAt(s[6..], 0);
      if !("-" <= s1) then None
      else
        var (last, s2) := NumberAt(s1[1..], 0);
        if !("/" <= s2) then None
        else
          var (n, s3) := NumberAt(s2[1..], 0);
          if s3 != "" then None else Some((Range(first, last), n))
  }

  lemma {:induction false} NumberAfterDigits(s: string, c: char, rest: string, acc: nat)
    requires IsDigit(c) && (rest == "" || !IsDigit(rest[0]))
    requires forall i :: 0 <= i < |s| ==> IsDigit(s[i])
    ensures NumberAt(s + [c] + rest, acc) == (NumberAt(s + rest, acc).0 * 10 + (c as int - '0' as int), rest)
    decreases |s|
  {
    if s == "" {
      assert (s + [c] + rest)[1..] == rest && s + rest == rest;
    } else {
      assert (s + [c] + rest)[1..] == s[1..] + [c] + rest && (s + rest)[1..] == s[1..] + rest;
      NumberAfterDigits(s[1..], c, rest, acc * 10 + (s[0] as int - '0' as int));
    }
  }

  lemma {:induction false} DecimalReadsBack(n: nat, rest: string)
    requires rest == "" || !IsDigit(rest[0])
    ensures NumberAt(Decimal(n) + rest, 0) == (n, rest)
    ensures forall i :: 0 <= i < |Decimal(n)| ==> IsDigit(Decimal(n)[i])
  {
    if n < 10 {
      assert (Decimal(n) + rest)[1..] == rest;
    } else {
      DecimalReadsBack(n / 10, rest);
      NumberAfterDigits(Decimal(n / 10), Digit(n % 10), rest, 0);
    }
  }

  lemma ContentRangeReadsBack(r: Range, n: nat)
    requires Inside(r, n)
    ensures ReadContentRange(ContentRange(r, n)) == Some((r, n))
  {
    hide Decimal, NumberAt;
    var s2 := "/" + Decimal(n);
    var s1 := "-" + (Decimal(r.last) + s2);
    Regroup("bytes " + Decimal(r.first), "-", Decimal(r.last), "/" + Decimal(n));
    Assoc("bytes " + Decimal(r.first) + "-" + Decimal(r.last), "/", Decimal(n));
    Assoc("bytes ", Decimal(r.first), s1);
    Strip("bytes ", Decimal(r.first) + s1);
    DecimalReadsBack(r.first, s1);
    Strip("-", Decimal(r.last) + s2);
    DecimalReadsBack(r.last, s2);
    Strip("/", Decimal(n));
    Nothing(Decimal(n));
    DecimalReadsBack(n, "");
  }

  lemma Strip(a: string, b: string)
    ensures a <= a + b && (a + b)[|a|..] == b && (a + b)[..|a|] == a
  {
  }

  function TypeLine(contentType: string): string {
    if contentType == "" then "" else "Content-Type: " + contentType + CRLF
  }

  function PartHead(r: Range, boundary: string, contentType: string, n: nat): string
    requires Inside(r, n)
  {
    "--" + boundary + CRLF + TypeLine(contentType) + ("Content-Range: " + ContentRange(r, n) + CRLF + CRLF)
  }

  function Slice(r: Range, body: string): string
    requires Inside(r, |body|)
  {
    body[r.first..r.last + 1]
  }

  function Part(r: Range, boundary: string, contentType: string, body: string): string
    requires Inside(r, |body|)
  {
    PartHead(r, boundary, contentType, |body|) + Slice(r, body) + CRLF
  }

  function Parts(ranges: seq<Range>, boundary: string, contentType: string, body: string): string
    requires AllInside(ranges, |body|)
  {
    if ranges == [] then ""
    else
      InitInside(ranges, |body|);
      Parts(Init(ranges), boundary, contentType, body) + Part(Last(ranges), boundary, contentType, body)
  }

  lemma InitInside(ranges: seq<Range>, n: nat)
    requires ranges != [] && AllInside(ranges, n)
    ensures AllInside(Init(ranges), n) && Inside(Last(ranges), n)
  {
    assert Last(ranges) in ranges;
  }

  // A multipart/byteranges body.
  function Framed(ranges: seq<Range>, boundary: string, contentType: string, body: string): string
    requires AllInside(ranges, |body|)
  {
    Parts(ranges, boundary, contentType, body) + ("--" + boundary + "--")
  }

  // What write_content_with_provider sends, whatever the status.
  function Sent(ranges: seq<Range>, boundary: string, contentType: string, body: string): string
    requires AllInside(ranges, |body|)
  {
    if ranges == [] then body
    else if |ranges| == 1 then
      InitInside(ranges, |body|);
      Slice(ranges[0], body)
    else Framed(ranges, boundary, contentType, body)
  }

  // ---- providers and streams ----

  // The application's content provider.  A call that succeeds has handed between one byte and all that was
  // asked for to the sink, in any number of writes.
  class ContentProvider {
    const body: string
    const willing: bool

    constructor (body: string, willing: bool)
      ensures this.body == body && this.willing == willing
    {
      this.body, this.willing := body, willing;
    }

    method Provide(offset: nat, length: nat) returns (ok: bool, writes: seq<string>)
      requires 0 < length && offset + length <= |body|
      ensures willing ==> ok
      ensures ok ==> 0 < |Concat(writes)| <= length && Concat(writes) == body[offset..offset + |Concat(writes)|]
    {
      ok := *;
      var n := *;
      if willing { ok := true; }
      if !(0 < n <= length) { n := length; }
      writes := [body[offset..offset + n]];
      assert writes[1..] == [];
    }
  }

  lemma ConcatMore(pieces: seq<string>, i: nat)
    requires i < |pieces|
    ensures Concat(pieces[i..]) == pieces[i] + Concat(pieces[i + 1..])
  {
    assert pieces[i..][1..] == pieces[i + 1..];
  }

  // The sink of write_content, for the writes of one provider call.
  method SinkWrites(strm: W.WriteStream, writes: seq<string>) returns (ok: bool, count: nat)
    modifies strm
    ensures ok ==> strm.written == old(strm.written) + Concat(writes) && count == |Concat(writes)|
    ensures strm.healthy ==> ok
  {
    ok, count := true, 0;
    var i := 0;
    assert writes[0..] == writes;
    while i < |writes|
      invariant 0 <= i <= |writes| && (strm.healthy ==> ok)
      invariant ok ==> old(strm.written) + Concat(writes) == strm.written + Concat(writes[i..])
      invariant ok ==> count + |Concat(writes[i..])| == |Concat(writes)|
    {
      ConcatMore(writes, i);
      if ok {
        ghost var before := strm.written;
        ok := W.WriteData(strm, writes[i]);
        if ok {
          count := count + |writes[i]|;
          Assoc(before, writes[i], Concat(writes[i + 1..]));
        }
      }
      i := i + 1;
    }
  }

  // Writes `length` bytes of the content; when the server is shutting down it stops early, and still
  // reports success.
  method WriteContent(strm: W.WriteStream, provider: ContentProvider, offset: nat, length: nat, mayStop: bool)
    returns (ok: bool, ghost done: nat)
    requires offset + length <= |provider.body|
    modifies strm
    ensures done <= length && (ok && !mayStop ==> done == length)
    ensures ok ==> strm.written == old(strm.written) + provider.body[offset..offset + done]
    ensures strm.healthy && provider.willing ==> ok
  {
    var pos, end := offset, offset + length;
    var stopped := false;
    assert provider.body[offset..pos] == "";
    while pos < end && !stopped
      invariant offset <= pos <= end && (stopped ==> mayStop)
      invariant strm.written == old(strm.written) + provider.body[offset..pos]
      decreases end - pos, !stopped
    {
      done := pos - offset;
      stopped := *;
      if !mayStop { stopped := false; }
      if !stopped {
        var writable: bool := *;
        if !writable && !strm.healthy { return false, done; }
        var provided, writes := provider.Provide(pos, end - pos);
        if !provided { return false, done; }
        var written, count := SinkWrites(strm, writes);
        if !written { return false, done; }
        SliceMore(provider.body, offset, pos, count);
        Assoc(old(strm.written), provider.body[offset..pos], Concat(writes));
        pos := pos + count;
      }
    }
    return true, pos - offset;
  }

  lemma SliceMore(s: string, from: nat, mid: nat, count: nat)
    requires from <= mid && mid + count <= |s|
    ensures s[from..mid] + s[mid..mid + count] == s[from..mid + count]
  {
  }

  // ---- the writes of a frame's tokens ----

  // A token goes to the stream in a single write, of which nobody looks at the result; `lost` is the number
  // of its bytes that the write did not take.
  datatype TokenWrite = TokenWrite(text: string, lost: nat)

  function Texts(writes: seq<TokenWrite>): seq<string> {
    seq(|writes|, i requires 0 <= i < |writes| => writes[i].text)
  }

  function Lost(writes: seq<TokenWrite>): nat {
    if writes == [] then 0 else Lost(writes[..|writes| - 1]) + writes[|writes| - 1].lost
  }

  ghost predicate IsWhole(writes: seq<TokenWrite>) {
    forall i :: 0 <= i < |writes| ==> writes[i].lost == 0
  }

  // Every write took all it had room for.
  ghost predicate IsCutAt(writes: seq<TokenWrite>, room: nat) {
    forall i :: 0 <= i < |writes| ==> writes[i].lost + Min(|writes[i].text|, room) == |writes[i].text|
  }

  ghost predicate AllFit(tokens: seq<string>, room: nat) {
    forall i :: 0 <= i < |tokens| ==> |tokens[i]| <= room
  }

  lemma {:induction false} LostNothingIff(writes: seq<TokenWrite>)
    ensures Lost(writes) == 0 <==> IsWhole(writes)
  {
    if writes != [] {
      var some := writes[..|writes| - 1];
      LostNothingIff(some);
      assert forall i :: 0 <= i < |some| ==> some[i] == writes[i];
    }
  }

  lemma AppendWrite(writes: seq<TokenWrite>, w: TokenWrite)
    ensures Lost(writes + [w]) == Lost(writes) + w.lost && Texts(writes + [w]) == Texts(writes) + [w.text]
    ensures IsWhole(writes + [w]) ==> IsWhole(writes) && w.lost == 0
    ensures forall room: nat ::
      IsCutAt(writes, room) && w.lost + Min(|w.text|, room) == |w.text| ==> IsCutAt(writes + [w], room)
  {
    var all := writes + [w];
    assert all[..|writes|] == writes && all[|writes|] == w;
    assert forall i :: 0 <= i < |writes| ==> all[i] == writes[i];
  }

  lemma WholeIffAllFit(writes: seq<TokenWrite>, room: nat)
    requires IsCutAt(writes, room)
    ensures IsWhole(writes) <==> AllFit(Texts(writes), room)
  {
    assert forall i :: 0 <= i < |writes| ==> Texts(writes)[i] == writes[i].text;
    assert forall i :: 0 <= i < |writes| ==> (writes[i].lost == 0 <==> |writes[i].text| <= room);
  }

  // The tokens of a frame, in the order in which they are written.
  function TypeTokens(contentType: string): seq<string> {
    if contentType == "" then [] else ["Content-Type: ", contentType, CRLF]
  }

  function HeadTokens(r: Range, boundary: string, contentType: string, n: nat): seq<string>
    requires Inside(r, n)
  {
    ["--", boundary, CRLF] + TypeTokens(contentType) + ["Content-Range: ", ContentRange(r, n), CRLF, CRLF]
  }

  function PartsTokens(ranges: seq<Range>, boundary: string, contentType: string, n: nat): seq<string>
    requires AllInside(ranges, n)
  {
    if ranges == [] then []
    else
      InitInside(ranges, n);
      PartsTokens(Init(ranges), boundary, contentType, n)
        + (HeadTokens(Last(ranges), boundary, contentType, n) + [CRLF])
  }

  function FrameTokens(ranges: seq<Range>, boundary: string, contentType: string, n: nat): seq<string>
    requires AllInside(ranges, n)
  {
    PartsTokens(ranges, boundary, contentType, n) + ["--", boundary, "--"]
  }

  // Only a frame has tokens.
  function SentTokens(ranges: seq<Range>, boundary: string, contentType: string, n: nat): seq<string>
    requires AllInside(ranges, n)
  {
    if |ranges| <= 1 then [] else FrameTokens(ranges, boundary, contentType, n)
  }

  // ---- one loop, three sinks ----

  datatype Mode =
    | Counting
    | Appending(body: string)
    | Sending(strm: W.WriteStream, provider: ContentProvider, mayStop: bool)

  // The three callbacks that process_multipart_ranges_data is given.  `out` is all it was told to put out,
  // `writes` what became of its tokens.
  class Output {
    const mode: Mode
    ghost const body: string
    var length: nat
    var data: string
    ghost var out: string
    ghost var base: string
    ghost var writes: seq<TokenWrite>

    ghost function Stream(): set<object> {
      if mode.Sending? then {mode.strm} else {}
    }

    ghost predicate MayStop() {
      mode.Sending? && mode.mayStop
    }

    ghost predicate Reliable() {
      mode.Sending? ==> mode.strm.healthy && mode.provider.willing
    }

    ghost predicate Valid()
      reads this, Stream()
    {
      match mode
      case Counting => length == |out|
      case Appending(b) => b == body && data == out
      case Sending(strm, provider, _) =>
        && provider.body == body
        && |strm.written| + Lost(writes) == |base| + |out|
        && (IsWhole(writes) ==> strm.written == base + out)
        && (strm.healthy && strm.eager ==> IsCutAt(writes, strm.room))
    }

    constructor (mode: Mode, ghost body: string)
      requires mode.Appending? ==> mode.body == body
      requires mode.Sending? ==> mode.provider.body == body
      ensures Valid() && this.mode == mode && this.body == body && out == "" && writes == []
      ensures mode.Sending? ==> base == mode.strm.written
    {
      this.mode, this.body := mode, body;
      length, data, out, writes := 0, "", "", [];
      base := if mode.Sending? then mode.strm.written else "";
    }

    method Token(token: string)
      requires Valid()
      modifies this`length, this`data, this`out, this`writes, Stream()
      ensures Valid() && out == old(out) + token && Texts(writes) == Texts(old(writes)) + [token]
    {
      hide Lost, IsWhole, IsCutAt, Texts;
      ghost var lost := 0;
      match mode {
        case Counting => length := length + |token|;
        case Appending(_) => data := data + token;
        case Sending(strm, _, _) =>
          if token != "" {
            var n := strm.Write(token);
            lost := |token| - if n < 0 then 0 else n;
            Assoc(base, out, token);
          }
      }
      AppendWrite(writes, TokenWrite(token, lost));
      out, writes := out + token, writes + [TokenWrite(token, lost)];
    }

    method Content(offset: nat, length: nat) returns (ok: bool, ghost done: nat)
      requires Valid() && offset + length <= |body|
      modifies this`length, this`data, this`out, this`writes, Stream()
      ensures done <= length && (ok && !MayStop() ==> done == length)
      ensures ok ==> Valid() && out == old(out) + body[offset..offset + done]
      ensures writes == old(writes)
      ensures Reliable() ==> ok
    {
      ok, done := true, length;
      match mode {
        case Counting => this.length := this.length + length;
        case Appending(b) => data := data + b[offset..offset + length];
        case Sending(strm, provider, mayStop) =>
          ok, done := WriteContent(strm, provider, offset, length, mayStop);
          Assoc(base, out, body[offset..offset + done]);
      }
      out := out + body[offset..offset + done];
    }
  }

  // ---- what becomes of a writer ----

  // It can end, fail with its stream or its provider, or run into an assertion.
  datatype Outcome = Finished | Failed | Aborted

  // get_range_offset_and_length, with its assertions.
  method GetRangeOffsetAndLength(r: Range, n: nat) returns (holds: bool, offset: nat, length: nat)
    ensures holds <==> Inside(r, n)
    ensures holds ==> offset == r.first && offset + length == r.last + 1 <= n
  {
    if !(r.first != -1 && r.last != -1) { return false, 0, 0; }
    if !(0 <= r.first < n) { return false, 0, 0; }
    if !(r.first <= r.last < n) { return false, 0, 0; }
    return true, r.first, r.last - r.first + 1;
  }

  method PutThree(output: Output, first: string, second: string, third: string)
    requires output.Valid()
    modifies output`length, output`data, output`out, output`writes, output.Stream()
    ensures output.Valid() && output.out == old(output.out) + (first + second + third)
    ensures Texts(output.writes) == Texts(old(output.writes)) + [first, second, third]
  {
    hide Texts;
    Assoc4(output.out, first, second, third);
    output.Token(first);
    output.Token(second);
    output.Token(third);
  }

  // What process_multipart_ranges_data does with a range before its content.
  method PutHead(r: Range, boundary: string, contentType: string, n: nat, output: Output)
    returns (holds: bool, offset: nat, length: nat)
    requires output.Valid()
    modifies output`length, output`data, output`out, output`writes, output.Stream()
    ensures output.Valid() && (holds <==> Inside(r, n))
    ensures holds ==>
      && offset == r.first && offset + length == r.last + 1 <= n
      && output.out == old(output.out) + PartHead(r, boundary, contentType, n)
      && Texts(output.writes) == Texts(old(output.writes)) + HeadTokens(r, boundary, contentType, n)
  {
    hide ContentRange, Texts, Output.Valid;
    ghost var before, texts := output.out, Texts(output.writes);
    PutThree(output, "--", boundary, CRLF);
    if contentType != "" { PutThree(output, "Content-Type: ", contentType, CRLF); }
    holds, offset, length := GetRangeOffsetAndLength(r, n);
    if !holds { return; }
    var field := ContentRange(r, n);
    PutThree(output, "Content-Range: ", field, CRLF);
    output.Token(CRLF);
    HeadParts(before, "--" + boundary + CRLF, TypeLine(contentType), "Content-Range: " + field + CRLF, CRLF);
    HeadParts(texts, ["--", boundary, CRLF], TypeTokens(contentType), ["Content-Range: ", field, CRLF], [CRLF]);
  }

  lemma HeadParts<T>(s: seq<T>, a: seq<T>, b: seq<T>, c: seq<T>, d: seq<T>)
    ensures s + a + b + c + d == s + (a + b + (c + d))
    ensures s + a == s + a + []
  {
  }

  // process_multipart_ranges_data.
  method ProcessMultipartRangesData(ranges: seq<Range>, boundary: string, contentType: string, n: nat, output: Output)
    returns (outcome: Outcome)
    requires output.Valid() && output.out == "" && output.writes == [] && |output.body| == n
    modifies output`length, output`data, output`out, output`writes, output.Stream()
    ensures outcome == Aborted ==> !AllInside(ranges, n)
    ensures outcome == Finished ==>
      && AllInside(ranges, n) && output.Valid()
      && Texts(output.writes) == FrameTokens(ranges, boundary, contentType, n)
    ensures outcome == Finished && !output.MayStop() ==>
      output.out == Framed(ranges, boundary, contentType, output.body)
    ensures output.Reliable() ==> outcome != Failed
  {
    hide Parts, PartHead, Slice, AllInside, Output.Valid, Output.Reliable, Texts, HeadTokens, PartsTokens;
    ghost var body := output.body;
    NoParts(boundary, contentType, body);
    for i := 0 to |ranges|
      invariant output.Valid() && AllInside(ranges[..i], n)
      invariant Texts(output.writes) == PartsTokens(ranges[..i], boundary, contentType, n)
      invariant !output.MayStop() ==> output.out == Parts(ranges[..i], boundary, contentType, body)
    {
      ghost var before := output.out;
      var holds, offset, length := PutHead(ranges[i], boundary, contentType, n, output);
      if !holds {
        OutsideOne(ranges, i, n);
        return Aborted;
      }
      OnePart(ranges, i, boundary, contentType, body);
      var ok;
      ghost var done;
      ok, done := output.Content(offset, length);
      if !ok { return Failed; }
      output.Token(CRLF);
      Assoc4(before, PartHead(ranges[i], boundary, contentType, n), Slice(ranges[i], body), CRLF);
    }
    assert ranges[..|ranges|] == ranges;
    PutThree(output, "--", boundary, "--");
    return Finished;
  }

  lemma OutsideOne(ranges: seq<Range>, i: nat, n: nat)
    requires i < |ranges| && !Inside(ranges[i], n)
    ensures !AllInside(ranges, n)
  {
    assert ranges[i] in ranges;
  }

  lemma NoParts(boundary: string, contentType: string, body: string)
    ensures AllInside([], |body|) && Parts([], boundary, contentType, body) == ""
    ensures PartsTokens([], boundary, contentType, |body|) == [] == Texts([])
  {
  }

  lemma OnePart(ranges: seq<Range>, i: nat, boundary: string, contentType: string, body: string)
    requires i < |ranges| && AllInside(ranges[..i], |body|) && Inside(ranges[i], |body|)
    ensures AllInside(ranges[..i + 1], |body|)
    ensures var r := ranges[i];
      && Slice(r, body) == body[r.first..r.last + 1]
      && Parts(ranges[..i + 1], boundary, contentType, body)
         == Parts(ranges[..i], boundary, contentType, body)
            + (PartHead(r, boundary, contentType, |body|) + Slice(r, body) + CRLF)
      && PartsTokens(ranges[..i + 1], boundary, contentType, |body|)
         == PartsTokens(ranges[..i], boundary, contentType, |body|)
            + (HeadTokens(r, boundary, contentType, |body|) + [CRLF])
  {
    hide PartHead, HeadTokens;
    assert ranges[..i + 1] == ranges[..i] + [ranges[i]];
    assert Init(ranges[..i + 1]) == ranges[..i] && Last(ranges[..i + 1]) == ranges[i];
  }

  method GetMultipartRangesDataLength(ranges: seq<Range>, boundary: string, contentType: string, n: nat,
                                      ghost body: string)
    returns (outcome: Outcome, length: nat)
    requires |body| == n
    ensures outcome == if AllInside(ranges, n) then Finished else Aborted
    ensures outcome == Finished ==> length == |Framed(ranges, boundary, contentType, body)|
  {
    hide Framed;
    var output := new Output(Counting, body);
    outcome := ProcessMultipartRangesData(ranges, boundary, contentType, n, output);
    length := output.length;
  }

  method MakeMultipartRangesData(ranges: seq<Range>, boundary: string, contentType: string, body: string)
    returns (outcome: Outcome, data: string)
    ensures outcome == if AllInside(ranges, |body|) then Finished else Aborted
    ensures outcome == Finished ==> data == Framed(ranges, boundary, contentType, body)
  {
    hide Framed;
    var output := new Output(Appending(body), body);
    outcome := ProcessMultipartRangesData(ranges, boundary, contentType, |body|, output);
    data := output.data;
  }

  // The stream got the text, up to the bytes that the writes lost.
  ghost predicate IsSent(before: string, after: string, text: string, writes: seq<TokenWrite>) {
    |after| + Lost(writes) == |before| + |text| && (IsWhole(writes) ==> after == before + text)
  }

  lemma NoWrites()
    ensures Lost([]) == 0 && IsWhole([]) && Texts([]) == [] && forall room: nat :: IsCutAt([], room)
  {
  }

  method WriteMultipartRangesData(strm: W.WriteStream, provider: ContentProvider, ranges: seq<Range>,
                                  boundary: string, contentType: string, n: nat, mayStop: bool)
    returns (outcome: Outcome, ghost writes: seq<TokenWrite>)
    requires n == |provider.body|
    modifies strm
    ensures outcome == Aborted ==> !AllInside(ranges, n)
    ensures outcome == Finished ==>
      AllInside(ranges, n) && Texts(writes) == FrameTokens(ranges, boundary, contentType, n)
    ensures outcome == Finished && strm.healthy && strm.eager ==> IsCutAt(writes, strm.room)
    ensures outcome == Finished && !mayStop ==>
      IsSent(old(strm.written), strm.written, Framed(ranges, boundary, contentType, provider.body), writes)
    ensures strm.healthy && provider.willing ==> outcome != Failed
  {
    hide Framed, AllInside, FrameTokens, Texts, Lost, IsWhole, IsCutAt;
    NoWrites();
    var output := new Output(Sending(strm, provider, mayStop), provider.body);
    outcome := ProcessMultipartRangesData(ranges, boundary, contentType, n, output);
    writes := output.writes;
  }

  // ---- the response ----

  const PARTIAL_CONTENT := 206

  // apply_ranges: the type line and the boundary reach the frame of a partial response only.
  function FrameTexts(ranges: seq<Range>, status: int, boundary: string, contentType: string): (string, string) {
    if |ranges| > 1 && status == PARTIAL_CONTENT then (boundary, contentType) else ("", "")
  }

  ghost function Declared(ranges: seq<Range>, status: int, boundary: string, contentType: string, body: string): nat
    requires status == PARTIAL_CONTENT ==> AllInside(ranges, |body|)
  {
    if status == PARTIAL_CONTENT then |Sent(ranges, boundary, contentType, body)| else |body|
  }

  function RangeHeader(ranges: seq<Range>, status: int, n: nat): Option<string>
    requires status == PARTIAL_CONTENT ==> AllInside(ranges, n)
  {
    if status == PARTIAL_CONTENT && |ranges| == 1 then
      assert ranges[0] in ranges;
      Some(ContentRange(ranges[0], n))
    else None
  }

  // The header is there exactly for a partial response of one range, and names it and the length of the
  // content.
  ghost predicate Names(contentRange: Option<string>, ranges: seq<Range>, status: int, n: nat) {
    && (contentRange.Some? <==> status == PARTIAL_CONTENT && |ranges| == 1)
    && (contentRange.Some? ==> ReadContentRange(contentRange.value) == Some((ranges[0], n)))
  }

  lemma RangeHeaderNames(ranges: seq<Range>, status: int, n: nat)
    requires status == PARTIAL_CONTENT ==> AllInside(ranges, n)
    ensures Names(RangeHeader(ranges, status, n), ranges, status, n)
  {
    hide ContentRange, ReadContentRange;
    if status == PARTIAL_CONTENT && |ranges| == 1 {
      OneInside(ranges, n);
      ContentRangeReadsBack(ranges[0], n);
    }
  }

  // apply_ranges, for content from a provider: the Content-Length and the Content-Range headers.
  method ApplyRanges(ranges: seq<Range>, status: int, boundary: string, contentType: string, n: nat, ghost body: string)
    returns (outcome: Outcome, length: nat, contentRange: Option<string>)
    requires |body| == n
    ensures outcome == if status == PARTIAL_CONTENT && !AllInside(ranges, n) then Aborted else Finished
    ensures outcome == Finished ==>
      && length == Declared(ranges, status, boundary, contentType, body)
      && contentRange == RangeHeader(ranges, status, n) && Names(contentRange, ranges, status, n)
  {
    hide Framed, Names;
    if status == PARTIAL_CONTENT ==> AllInside(ranges, n) { RangeHeaderNames(ranges, status, n); }
    contentRange, outcome := None, Finished;
    if ranges == [] || status != PARTIAL_CONTENT { return outcome, n, None; }
    if |ranges| == 1 {
      var holds, offset;
      holds, offset, length := GetRangeOffsetAndLength(ranges[0], n);
      OneInside(ranges, n);
      if !holds { return Aborted, 0, None; }
      contentRange := Some(ContentRange(ranges[0], n));
    } else {
      outcome, length := GetMultipartRangesDataLength(ranges, boundary, contentType, n, body);
    }
  }

  lemma OneInside(ranges: seq<Range>, n: nat)
    requires |ranges| == 1
    ensures AllInside(ranges, n) <==> Inside(ranges[0], n)
  {
    assert ranges[0] in ranges;
  }

  // apply_ranges, for a body held in memory: what is sent is what is left of it, and declared as such.
  method ApplyRangesToBody(body: string, ranges: seq<Range>, status: int, boundary: string, contentType: string)
    returns (outcome: Outcome, out: string, contentRange: Option<string>)
    ensures outcome == if status == PARTIAL_CONTENT && !AllInside(ranges, |body|) then Aborted else Finished
    ensures outcome == Finished ==>
      && out == (if status == PARTIAL_CONTENT then Sent(ranges, boundary, contentType, body) else body)
      && contentRange == RangeHeader(ranges, status, |body|) && Names(contentRange, ranges, status, |body|)
  {
    hide Framed, Names;
    if status == PARTIAL_CONTENT ==> AllInside(ranges, |body|) { RangeHeaderNames(ranges, status, |body|); }
    contentRange, outcome := None, Finished;
    if ranges == [] || status != PARTIAL_CONTENT { return outcome, body, None; }
    if |ranges| == 1 {
      var holds, offset, length := GetRangeOffsetAndLength(ranges[0], |body|);
      OneInside(ranges, |body|);
      if !holds { return Aborted, body, None; }
      contentRange := Some(ContentRange(ranges[0], |body|));
      out := body[offset..offset + length];
    } else {
      outcome, out := MakeMultipartRangesData(ranges, boundary, contentType, body);
    }
  }

  method WriteContentWithProvider(strm: W.WriteStream, provider: ContentProvider, ranges: seq<Range>,
                                  boundary: string, contentType: string, mayStop: bool)
    returns (outcome: Outcome, ghost writes: seq<TokenWrite>)
    modifies strm
    ensures outcome == Aborted ==> !AllInside(ranges, |provider.body|)
    ensures outcome == Finished ==>
      && AllInside(ranges, |provider.body|)
      && Texts(writes) == SentTokens(ranges, boundary, contentType, |provider.body|)
    ensures outcome == Finished && strm.healthy && strm.eager ==> IsCutAt(writes, strm.room)
    ensures outcome == Finished && !mayStop ==>
      IsSent(old(strm.written), strm.written, Sent(ranges, boundary, contentType, provider.body), writes)
    ensures strm.healthy && provider.willing ==> outcome != Failed
  {
    hide Framed, FrameTokens, Texts, Lost, IsWhole, IsCutAt;
    writes := [];
    NoWrites();
    var n, ok := |provider.body|, true;
    ghost var done;
    if ranges == [] {
      ok, done := WriteContent(strm, provider, 0, n, mayStop);
      assert provider.body[0..n] == provider.body;
    } else if |ranges| == 1 {
      var holds, offset, length := GetRangeOffsetAndLength(ranges[0], n);
      OneInside(ranges, n);
      if !holds { return Aborted, []; }
      ok, done := WriteContent(strm, provider, offset, length, mayStop);
    } else {
      outcome, writes := WriteMultipartRangesData(strm, provider, ranges, boundary, contentType, n, mayStop);
      return;
    }
    outcome := if ok then Finished else Failed;
  }

  // The headers' promise against the bytes of the body.
  method SendBody(strm: W.WriteStream, provider: ContentProvider, ranges: seq<Range>, status: int,
                  boundary: string, contentType: string)
    returns (outcome: Outcome, declared: nat, contentRange: Option<string>, ghost writes: seq<TokenWrite>)
    modifies strm
    ensures outcome == Aborted ==> !AllInside(ranges, |provider.body|)
    ensures outcome == Finished ==> AllInside(ranges, |provider.body|)
    ensures outcome == Finished ==> Names(contentRange, ranges, status, |provider.body|)
    ensures outcome == Finished ==>
      var (b, t) := FrameTexts(ranges, status, boundary, contentType);
      && declared == Declared(ranges, status, boundary, contentType, provider.body)
      && IsSent(old(strm.written), strm.written, Sent(ranges, b, t, provider.body), writes)
      && Texts(writes) == SentTokens(ranges, b, t, |provider.body|)
      && (strm.healthy && strm.eager ==> IsCutAt(writes, strm.room))
    ensures strm.healthy && provider.willing ==> outcome != Failed
  {
    hide Framed, FrameTokens, IsSent, Texts, IsCutAt, Lost, IsWhole;
    hide Names;
    writes := [];
    outcome, declared, contentRange :=
      ApplyRanges(ranges, status, boundary, contentType, |provider.body|, provider.body);
    if outcome == Aborted { return; }
    var (b, t) := FrameTexts(ranges, status, boundary, contentType);
    outcome, writes := WriteContentWithProvider(strm, provider, ranges, b, t, false);
  }

  // A partial response is as long as declared, and the text it should be, exactly when every write of a
  // token was whole; on a stream whose writes take what they have room for, exactly when the tokens fit.
  ghost predicate IsAccountedFor(before: string, strm: W.WriteStream, declared: nat, blocks: seq<Range>,
                                 boundary: string, contentType: string, body: string, writes: seq<TokenWrite>)
    requires AllInside(blocks, |body|)
    reads strm
  {
    && declared == |Sent(blocks, boundary, contentType, body)|
    && Texts(writes) == SentTokens(blocks, boundary, contentType, |body|)
    && (|strm.written| == |before| + declared <==> IsWhole(writes))
    && (IsWhole(writes) ==> strm.written == before + Sent(blocks, boundary, contentType, body))
    && (strm.healthy && strm.eager ==>
          && IsCutAt(writes, strm.room)
          && (IsWhole(writes) <==> AllFit(SentTokens(blocks, boundary, contentType, |body|), strm.room)))
  }

  // A request for content from a provider, from the check of its ranges to the last byte.  The assertions
  // about ranges hold exactly when there are none, or the status is one for which they were checked, or
  // every raw range happens to be one.  A partial response declares the length of the frame or of the
  // single block, and sends it but for what the writes of tokens lose.
  method Respond(strm: W.WriteStream, provider: ContentProvider, ranges: seq<Range>, status: int,
                 boundary: string, contentType: string)
    returns (refused: bool, blocks: seq<Range>, outcome: Outcome, declared: nat, contentRange: Option<string>,
             ghost writes: seq<TokenWrite>)
    requires provider.body != ""
    modifies strm
    ensures refused <==> Applies(ranges, status) && !IsAcceptable(ranges, |provider.body|)
    ensures !refused && strm.healthy && provider.willing ==>
      outcome == if ranges == [] || 200 <= status < 300 || AllInside(ranges, |provider.body|) then Finished else Aborted
    ensures !refused ==> if Applies(ranges, status) then Answers(blocks, ranges, |provider.body|) else blocks == ranges
    ensures !refused && outcome == Finished ==>
      var (b, t) := FrameTexts(blocks, status, boundary, contentType);
      && AllInside(blocks, |provider.body|)
      && declared == Declared(blocks, status, boundary, contentType, provider.body)
      && IsSent(old(strm.written), strm.written, Sent(blocks, b, t, provider.body), writes)
      && (|blocks| <= 1 ==> writes == [])
    ensures !refused && outcome == Finished && status == PARTIAL_CONTENT ==>
      && IsAccountedFor(old(strm.written), strm, declared, blocks, boundary, contentType, provider.body, writes)
      && (|blocks| <= 1 || (strm.healthy && strm.eager && declared <= strm.room) ==>
            strm.written == old(strm.written) + Sent(blocks, boundary, contentType, provider.body))
    ensures !refused && outcome == Finished ==>
      && Names(contentRange, blocks, status, |provider.body|)
      && (contentRange.Some? ==>
            var (r, n) := ReadContentRange(contentRange.value).value;
            n == |provider.body| && Inside(r, n)
            && strm.written == old(strm.written) + provider.body[r.first..r.last + 1])
  {
    hide IsAcceptable, InSteps, Framed, Slice, IsSent, Sent, SentTokens, Texts, IsCutAt, Lost, IsWhole;
    hide IsAccountedFor;
    outcome, declared, contentRange, writes := Failed, 0, None, [];
    ghost var before := strm.written;
    refused, blocks := RangeError(ranges, status, |provider.body|, 0);
    if refused { return; }
    outcome, declared, contentRange, writes := SendBody(strm, provider, blocks, status, boundary, contentType);
    if outcome == Finished {
      if |blocks| == 1 { OneIsSent(blocks, boundary, contentType, provider.body); }
      if |blocks| <= 1 { NoTokens(blocks, status, boundary, contentType, provider.body, writes); }
      if status == PARTIAL_CONTENT {
        Account(before, strm, declared, blocks, boundary, contentType, provider.body, writes);
      }
    }
  }

  lemma OneIsSent(blocks: seq<Range>, boundary: string, contentType: string, body: string)
    requires AllInside(blocks, |body|) && |blocks| == 1
    ensures Inside(blocks[0], |body|)
    ensures Sent(blocks, boundary, contentType, body) == body[blocks[0].first..blocks[0].last + 1]
  {
    OneInside(blocks, |body|);
  }

  lemma Account(before: string, strm: W.WriteStream, declared: nat, blocks: seq<Range>, boundary: string,
                contentType: string, body: string, writes: seq<TokenWrite>)
    requires AllInside(blocks, |body|) && declared == |Sent(blocks, boundary, contentType, body)|
    requires IsSent(before, strm.written, Sent(blocks, boundary, contentType, body), writes)
    requires Texts(writes) == SentTokens(blocks, boundary, contentType, |body|)
    requires strm.healthy && strm.eager ==> IsCutAt(writes, strm.room)
    ensures IsAccountedFor(before, strm, declared, blocks, boundary, contentType, body, writes)
    ensures |blocks| <= 1 || (strm.healthy && strm.eager && declared <= strm.room) ==>
      strm.written == before + Sent(blocks, boundary, contentType, body)
  {
    LostNothingIff(writes);
    hide Lost, IsWhole, IsCutAt, Texts, Framed, FrameTokens, Slice;
    if strm.healthy && strm.eager { WholeIffAllFit(writes, strm.room); }
    if declared <= strm.room { SentTokensFit(blocks, boundary, contentType, body, strm.room); }
    if |blocks| <= 1 { NoTextsNoWrites(writes); }
  }

  // On a healthy stream that takes one byte at a time, a partial response of two blocks falls short of its
  // declared length.
  method ShortTokenWrites(boundary: string, contentType: string) returns (outcome: Outcome, declared: nat, sent: string)
    ensures outcome == Finished && |sent| < declared
  {
    hide Answers, IsAcceptable, IsAccountedFor, Framed, Lost, IsCutAt;
    var provider := new ContentProvider("abc", true);
    var strm := new W.WriteStream(true, true, 1);
    var ranges := [Range(0, 0), Range(2, 2)];
    TwoAccepted(ranges);
    var refused, blocks, contentRange;
    ghost var writes;
    refused, blocks, outcome, declared, contentRange, writes :=
      Respond(strm, provider, ranges, PARTIAL_CONTENT, boundary, contentType);
    TwoBlocks(ranges, blocks);
    FallsShort(strm, declared, blocks, boundary, contentType, writes);
    return outcome, declared, strm.written;
  }

  lemma TwoAccepted(ranges: seq<Range>)
    requires ranges == [Range(0, 0), Range(2, 2)]
    ensures Applies(ranges, PARTIAL_CONTENT) && IsAcceptable(ranges, 3)
  {
    assert Normals(ranges, 3) == ranges;
    var one := Init(ranges);
    assert one == [Range(0, 0)] && Init(one) == [];
    assert !OverlapsAny([], Last(one)) && !OverlapsAny(one, Range(2, 2));
    assert Overlaps(Init(one)) == 0 && Overlaps(one) == 0;
  }

  lemma TwoBlocks(ranges: seq<Range>, blocks: seq<Range>)
    requires ranges == [Range(0, 0), Range(2, 2)] && Answers(blocks, ranges, 3)
    ensures |blocks| > 1
  {
    assert ranges[0] in ranges && ranges[1] in ranges;
    assert Requested(ranges[0], 3, 0) && Requested(ranges[1], 3, 2);
    assert Covered(blocks, 0) && Covered(blocks, 2) && !Covered(blocks, 1);
    OneBlockHasNoGap(blocks);
  }

  lemma OneBlockHasNoGap(blocks: seq<Range>)
    ensures |blocks| <= 1 && Covered(blocks, 0) && Covered(blocks, 2) ==> Covered(blocks, 1)
  {
    if |blocks| <= 1 && Covered(blocks, 0) && Covered(blocks, 2) { assert Holds(blocks[0], 1); }
  }

  lemma FallsShort(strm: W.WriteStream, declared: nat, blocks: seq<Range>, boundary: string, contentType: string,
                   writes: seq<TokenWrite>)
    requires AllInside(blocks, 3) && |blocks| > 1 && strm.healthy && strm.eager && strm.room == 1
    requires IsAccountedFor("", strm, declared, blocks, boundary, contentType, "abc", writes)
    requires IsSent("", strm.written, Sent(blocks, boundary, contentType, "abc"), writes)
    ensures |strm.written| < declared
  {
    var tokens := SentTokens(blocks, boundary, contentType, 3);
    hide PartsTokens, Lost, IsWhole, IsCutAt, Framed;
    assert |tokens[|tokens| - 1]| == 2;
  }

  lemma NoTextsNoWrites(writes: seq<TokenWrite>)
    ensures Texts(writes) == [] ==> writes == [] && IsWhole(writes)
  {
  }

  // The frame's texts matter only where there is a frame.
  lemma NoTokens(ranges: seq<Range>, status: int, boundary: string, contentType: string, body: string,
                 writes: seq<TokenWrite>)
    requires AllInside(ranges, |body|) && |ranges| <= 1
    ensures var (b, t) := FrameTexts(ranges, status, boundary, contentType);
      && Sent(ranges, b, t, body) == Sent(ranges, boundary, contentType, body)
      && SentTokens(ranges, b, t, |body|) == SentTokens(ranges, boundary, contentType, |body|) == []
    ensures Texts(writes) == [] ==> writes == []
  {
  }

  // No token is longer than the frame.
  lemma HeadTokensFit(r: Range, boundary: string, contentType: string, n: nat, room: nat)
    requires Inside(r, n) && |PartHead(r, boundary, contentType, n)| <= room
    ensures AllFit(HeadTokens(r, boundary, contentType, n), room)
  {
    hide ContentRange;
  }

  lemma FitTogether(a: seq<string>, b: seq<string>, room: nat)
    ensures AllFit(a + b, room) <==> AllFit(a, room) && AllFit(b, room)
  {
    assert forall i :: 0 <= i < |a| ==> (a + b)[i] == a[i];
    assert forall i :: 0 <= i < |b| ==> (a + b)[|a| + i] == b[i];
    assert forall i :: |a| <= i < |a + b| ==> (a + b)[i] == b[i - |a|];
  }

  lemma {:induction false} PartsTokensFit(ranges: seq<Range>, boundary: string, contentType: string, body: string,
                                          room: nat)
    requires AllInside(ranges, |body|) && |Parts(ranges, boundary, contentType, body)| <= room
    ensures AllFit(PartsTokens(ranges, boundary, contentType, |body|), room)
  {
    hide PartHead, HeadTokens, Slice, AllFit;
    NoTokensFit(room);
    if ranges != [] {
      InitInside(ranges, |body|);
      PartsTokensFit(Init(ranges), boundary, contentType, body, room);
      HeadTokensFit(Last(ranges), boundary, contentType, |body|, room);
      var head := HeadTokens(Last(ranges), boundary, contentType, |body|);
      FitTogether(head, [CRLF], room);
      FitTogether(PartsTokens(Init(ranges), boundary, contentType, |body|), head + [CRLF], room);
      LineEndFits(room);
    }
  }

  lemma NoTokensFit(room: nat)
    ensures AllFit([], room)
  {
  }

  lemma LineEndFits(room: nat)
    ensures room >= 2 ==> AllFit([CRLF], room)
  {
  }

  lemma SentTokensFit(ranges: seq<Range>, boundary: string, contentType: string, body: string, room: nat)
    requires AllInside(ranges, |body|) && |Sent(ranges, boundary, contentType, body)| <= room
    ensures AllFit(SentTokens(ranges, boundary, contentType, |body|), room)
  {
    hide Parts, PartsTokens, Slice;
    if |ranges| > 1 {
      PartsTokensFit(ranges, boundary, contentType, body, room);
      FitTogether(PartsTokens(ranges, boundary, contentType, |body|), ["--", boundary, "--"], room);
    }
  }

  // Such a request, with a status that a handler may well have set.
  lemma UncheckedRange()
    ensures !Applies([Range(-1, 5)], 404) && !AllInside([Range(-1, 5)], 10)
  {
    assert Range(-1, 5) in [Range(-1, 5)];
  }

  // ---- the length of a frame, from numbers alone ----

  function Width(n: nat): nat {
    if n < 10 then 1 else 1 + Width(n / 10)
  }

  // A part's boundary line, its type line, its range line, the blank line, its bytes and their line end.
  function PartLength(r: Range, boundaryLength: nat, typeLength: nat, n: nat): nat
    requires Inside(r, n)
  {
    boundaryLength + 4 + (if typeLength == 0 then 0 else typeLength + 16)
    + (15 + 6 + Width(r.first) + 1 + Width(r.last) + 1 + Width(n) + 4) + (r.last - r.first + 1) + 2
  }

  function FrameLength(ranges: seq<Range>, boundaryLength: nat, typeLength: nat, n: nat): nat
    requires AllInside(ranges, n)
  {
    if ranges == [] then boundaryLength + 4
    else
      InitInside(ranges, n);
      FrameLength(Init(ranges), boundaryLength, typeLength, n) + PartLength(Last(ranges), boundaryLength, typeLength, n)
  }

  lemma {:induction false} DecimalWidth(n: nat)
    ensures |Decimal(n)| == Width(n)
  {
    if n >= 10 { DecimalWidth(n / 10); }
  }

  lemma PartHasLength(r: Range, boundary: string, contentType: string, body: string)
    requires Inside(r, |body|)
    ensures |Part(r, boundary, contentType, body)| == PartLength(r, |boundary|, |contentType|, |body|)
  {
    hide Decimal, Width;
    DecimalWidth(r.first);
    DecimalWidth(r.last);
    DecimalWidth(|body|);
    assert |"Content-Range: "| == 15 && |"Content-Type: "| == 14 && |"bytes "| == 6;
  }

  lemma {:induction false} FrameHasLength(ranges: seq<Range>, boundary: string, contentType: string, body: string)
    requires AllInside(ranges, |body|)
    ensures |Framed(ranges, boundary, contentType, body)| == FrameLength(ranges, |boundary|, |contentType|, |body|)
  {
    hide Part, PartLength;
    if ranges != [] {
      InitInside(ranges, |body|);
      FrameHasLength(Init(ranges), boundary, contentType, body);
      PartHasLength(Last(ranges), boundary, contentType, body);
    }
  }

  // A response's body is sent, and is as long as declared.
  ghost predicate LengthAgrees(ranges: seq<Range>, status: int, boundary: string, contentType: string, body: string) {
    AllInside(ranges, |body|) &&
    var (b, t) := FrameTexts(ranges, status, boundary, contentType);
    Declared(ranges, status, boundary, contentType, body) == |Sent(ranges, b, t, body)|
  }

  // Exactly when it is: for a partial response with checked ranges; for another status, where the writer
  // still looks at the ranges and the declaration does not, only without ranges, with one for everything, or
  // with several whose bytes and frame, without boundary and type, happen to add up to the full length.
  lemma LengthAgreesIff(ranges: seq<Range>, status: int, boundary: string, contentType: string, body: string)
    requires body != ""
    ensures LengthAgrees(ranges, status, boundary, contentType, body) <==>
      || ranges == []
      || (AllInside(ranges, |body|) &&
          (|| status == PARTIAL_CONTENT
           || (|ranges| == 1 && ranges[0] == Range(0, |body| - 1))
           || (|ranges| > 1 && FrameLength(ranges, 0, 0, |body|) == |body|)))
  {
    hide Framed, FrameLength;
    if AllInside(ranges, |body|) {
      FrameHasLength(ranges, "", "", body);
      if |ranges| == 1 { OneInside(ranges, |body|); }
    }
  }

  // The first byte of ten, asked for in a response with status 200: ten are declared, one is sent.
  lemma OneByteOfTen(body: string, boundary: string, contentType: string)
    requires |body| == 10
    ensures AllInside([Range(0, 0)], 10)
    ensures Declared([Range(0, 0)], 200, boundary, contentType, body) == 10
    ensures |Sent([Range(0, 0)], "", "", body)| == 1 && !LengthAgrees([Range(0, 0)], 200, boundary, contentType, body)
  {
    OneInside([Range(0, 0)], 10);
  }

  // ---- reading a multipart/byteranges body back ----

  // A reader that knows nothing of the writer: it takes the range from the part's header and the number of
  // bytes that range has.
  function ReadPart(s: string, head: string): Result {
    if !(head <= s) then Unreadable
    else
      var (first, s1) := NumberAt(s[|head|..], 0);
      if !("-" <= s1) then Unreadable
      else
        var (last, s2) := NumberAt(s1[1..], 0);
        if !("/" <= s2) then Unreadable
        else
          var (n, s3) := NumberAt(s2[1..], 0);
          if !(CRLF + CRLF <= s3) || first > last || |s3| < 4 + (last - first + 1) + 2 then Unreadable
          else
            var text := s3[4..][..last - first + 1];
            var s4 := s3[4..][last - first + 1..];
            if CRLF <= s4 then OnePartRead(Range(first, last), n, text, s4[2..]) else Unreadable
  }

  datatype Result = Unreadable | OnePartRead(range: Range, n: nat, text: string, rest: string)

  function ReadParts(s: string, head: string, end: string): seq<(Range, nat, string)>
    decreases |s|
  {
    if s == end then []
    else
      match ReadPart(s, head)
      case Unreadable => []
      case OnePartRead(r, n, text, rest) =>
        if |rest| < |s| then [(r, n, text)] + ReadParts(rest, head, end) else []
  }

  function Expected(ranges: seq<Range>, body: string): seq<(Range, nat, string)>
    requires AllInside(ranges, |body|)
  {
    seq(|ranges|, i requires 0 <= i < |ranges| =>
      assert ranges[i] in ranges; (ranges[i], |body|, Slice(ranges[i], body)))
  }

  function RangeHead(boundary: string, contentType: string): string {
    "--" + boundary + CRLF + (if contentType == "" then "" else "Content-Type: " + contentType + CRLF)
    + "Content-Range: bytes "
  }

  function AfterLast(r: Range, body: string, rest: string): string
    requires Inside(r, |body|)
  {
    "/" + (Decimal(|body|) + (CRLF + CRLF + (Slice(r, body) + (CRLF + rest))))
  }

  lemma FieldShape(a: string, first: string, b: string, last: string, c: string, n: string, rest: string)
    ensures (a + first + b + last + c + n) + rest == a + (first + (b + (last + (c + (n + rest)))))
  {
    Assoc(a + first + b + last + c, n, rest);
    Assoc(a + first + b + last, c, n + rest);
    Assoc(a + first + b, last, c + (n + rest));
    Regroup(a, first, b, last + (c + (n + rest)));
  }

  // A header field, the blank line, the content and what follows, from the left and from the right.
  lemma LineShape(start: string, name: string, field: string, slice: string, rest: string)
    ensures (start + (name + field + CRLF + CRLF)) + slice + CRLF + rest
         == start + name + (field + (CRLF + CRLF + (slice + (CRLF + rest))))
  {
    var line := name + field + CRLF + CRLF;
    Regroup(start + line, slice, CRLF, rest);
    Assoc(start, line, slice + (CRLF + rest));
    Assoc(name + field, CRLF, CRLF);
    Assoc(name + field, CRLF + CRLF, slice + (CRLF + rest));
    Assoc(name, field, CRLF + CRLF + (slice + (CRLF + rest)));
    Assoc(start, name, field + (CRLF + CRLF + (slice + (CRLF + rest))));
  }

  lemma RangeHeadIs(boundary: string, contentType: string)
    ensures RangeHead(boundary, contentType) == "--" + boundary + CRLF + TypeLine(contentType) + "Content-Range: bytes "
  {
  }

  lemma PartShape(r: Range, boundary: string, contentType: string, body: string, rest: string)
    requires Inside(r, |body|)
    ensures Part(r, boundary, contentType, body) + rest
         == RangeHead(boundary, contentType) + (Decimal(r.first) + ("-" + (Decimal(r.last) + AfterLast(r, body, rest))))
  {
    RangeHeadIs(boundary, contentType);
    hide Decimal, TypeLine, Slice, RangeHead;
    var start := "--" + boundary + CRLF + TypeLine(contentType);
    var first, last, n, slice := Decimal(r.first), Decimal(r.last), Decimal(|body|), Slice(r, body);
    LineShape(start, "Content-Range: ", ContentRange(r, |body|), slice, rest);
    FieldShape("bytes ", first, "-", last, "/", n, CRLF + CRLF + (slice + (CRLF + rest)));
    var tail := first + ("-" + (last + AfterLast(r, body, rest)));
    Assoc(start + "Content-Range: ", "bytes ", tail);
    assert "Content-Range: " + "bytes " == "Content-Range: bytes ";
    Assoc(start, "Content-Range: ", "bytes ");
  }

  lemma PartReadsBack(r: Range, boundary: string, contentType: string, body: string, rest: string)
    requires Inside(r, |body|)
    ensures ReadPart(Part(r, boundary, contentType, body) + rest, RangeHead(boundary, contentType))
         == OnePartRead(r, |body|, Slice(r, body), rest)
  {
    hide Decimal, RangeHead, Part, NumberAt;
    var head, slice := RangeHead(boundary, contentType), Slice(r, body);
    PartShape(r, boundary, contentType, body, rest);
    var end := CRLF + rest;
    var s3 := CRLF + CRLF + (slice + end);
    var s2 := AfterLast(r, body, rest);
    var s1 := "-" + (Decimal(r.last) + s2);
    Strip(head, Decimal(r.first) + s1);
    DecimalReadsBack(r.first, s1);
    Strip("-", Decimal(r.last) + s2);
    DecimalReadsBack(r.last, s2);
    Strip("/", Decimal(|body|) + s3);
    DecimalReadsBack(|body|, s3);
    Strip(CRLF + CRLF, slice + end);
    Strip(slice, end);
    Strip(CRLF, rest);
  }

  lemma PartsSnoc(ranges: seq<Range>, boundary: string, contentType: string, body: string)
    requires ranges != [] && AllInside(ranges, |body|)
    ensures AllInside(Init(ranges), |body|) && Inside(Last(ranges), |body|)
    ensures Parts(ranges, boundary, contentType, body)
         == Parts(Init(ranges), boundary, contentType, body) + Part(Last(ranges), boundary, contentType, body)
  {
    InitInside(ranges, |body|);
  }

  lemma FrontInside(ranges: seq<Range>, n: nat)
    requires ranges != [] && AllInside(ranges, n)
    ensures AllInside(ranges[1..], n) && Inside(ranges[0], n)
  {
    assert ranges[0] in ranges && forall r :: r in ranges[1..] ==> r in ranges;
  }

  lemma Ends(ranges: seq<Range>)
    requires |ranges| > 1
    ensures Init(ranges)[1..] == Init(ranges[1..]) && Last(ranges[1..]) == Last(ranges) && Init(ranges)[0] == ranges[0]
  {
  }

  lemma {:induction false} PartsFront(ranges: seq<Range>, boundary: string, contentType: string, body: string)
    requires ranges != [] && AllInside(ranges, |body|)
    ensures AllInside(ranges[1..], |body|) && Inside(ranges[0], |body|)
    ensures Parts(ranges, boundary, contentType, body)
         == Part(ranges[0], boundary, contentType, body) + Parts(ranges[1..], boundary, contentType, body)
    decreases |ranges|
  {
    hide Part, Parts, AllInside, Inside;
    FrontInside(ranges, |body|);
    PartsSnoc(ranges, boundary, contentType, body);
    if |ranges| > 1 {
      Ends(ranges);
      PartsSnoc(ranges[1..], boundary, contentType, body);
      PartsFront(Init(ranges), boundary, contentType, body);
      Assoc(Part(ranges[0], boundary, contentType, body), Parts(Init(ranges[1..]), boundary, contentType, body),
            Part(Last(ranges), boundary, contentType, body));
    } else {
      assert Init(ranges) == [] && ranges[1..] == [];
      NoParts(boundary, contentType, body);
      Nothing(Part(ranges[0], boundary, contentType, body));
    }
  }

  lemma ReadOne(head: string, end: string, s: string, r: Range, n: nat, text: string, rest: string)
    requires s != end && |rest| < |s| && ReadPart(s, head) == OnePartRead(r, n, text, rest)
    ensures ReadParts(s, head, end) == [(r, n, text)] + ReadParts(rest, head, end)
  {
    hide ReadPart;
  }

  lemma PartIsNotEnd(r: Range, boundary: string, contentType: string, body: string, rest: string)
    requires Inside(r, |body|)
    ensures Part(r, boundary, contentType, body) + rest != "--" + boundary + "--"
  {
    var head := "--" + boundary + CRLF;
    PartShape(r, boundary, contentType, body, rest);
    var s := Part(r, boundary, contentType, body) + rest;
    hide Part;
    assert head <= s;
    assert s[|boundary| + 2] == head[|boundary| + 2] == '\r';
  }

  // Reading the frame back gives every range, with the bytes it asked for, in order.
  lemma {:induction false} FrameReadsBack(ranges: seq<Range>, boundary: string, contentType: string, body: string)
    requires AllInside(ranges, |body|)
    ensures ReadParts(Framed(ranges, boundary, contentType, body), RangeHead(boundary, contentType),
                      "--" + boundary + "--")
         == Expected(ranges, body)
    decreases |ranges|
  {
    hide Part, Parts, ReadPart, ReadParts, RangeHead;
    var end := "--" + boundary + "--";
    if ranges != [] {
      PartsFront(ranges, boundary, contentType, body);
      var part, rest := Part(ranges[0], boundary, contentType, body), Framed(ranges[1..], boundary, contentType, body);
      Assoc(part, Parts(ranges[1..], boundary, contentType, body), end);
      assert Framed(ranges, boundary, contentType, body) == part + rest;
      hide Framed;
      PartReadsBack(ranges[0], boundary, contentType, body, rest);
      PartIsNotEnd(ranges[0], boundary, contentType, body, rest);
      PartNotEmpty(ranges[0], boundary, contentType, body);
      ReadOne(RangeHead(boundary, contentType), end, part + rest, ranges[0], |body|, Slice(ranges[0], body), rest);
      FrameReadsBack(ranges[1..], boundary, contentType, body);
      hide Slice;
      assert Expected(ranges, body) == [(ranges[0], |body|, Slice(ranges[0], body))] + Expected(ranges[1..], body);
    } else {
      NoParts(boundary, contentType, body);
      assert "" + end == end;
      EndOfParts(RangeHead(boundary, contentType), end);
    }
  }

  lemma EndOfParts(head: string, end: string)
    ensures ReadParts(end, head, end) == []
  {
  }

  lemma PartNotEmpty(r: Range, boundary: string, contentType: string, body: string)
    requires Inside(r, |body|)
    ensures Part(r, boundary, contentType, body) != ""
  {
  }
}
