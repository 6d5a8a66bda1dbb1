/**
  The loops that put chunked content on a connection and take it off again.
*/
module ChunkedTransfer {
  import opened Basics
  import opened Text
  import opened Streams
  import opened ChunkedCoding
  import H = MultipartHeader

  const RECV_BUFSIZ := 16384

  // The writing side of a connection: a write takes some of the bytes, or fails.  No write takes more than
  // `room` bytes; an eager stream takes all that it has room for.
  class WriteStream {
    const healthy: bool
    const eager: bool
    const room: Positive
    var written: string

    constructor (healthy: bool, eager: bool, room: Positive)
      ensures this.healthy == healthy && this.eager == eager && this.room == room && written == ""
    {
      this.healthy, this.eager, this.room := healthy, eager, room;
      written := "";
    }

    method Write(data: string) returns (n: int)
      requires data != ""
      modifies this
      ensures n == -1 || 0 < n <= |data|
      ensures n <= room
      ensures written == old(written) + (if n < 0 then "" else data[..n])
      ensures healthy ==> n > 0
      ensures healthy && eager ==> n == Min(|data|, room)
    {
      n := *;
      if n != -1 && !(0 < n <= Min(|data|, room)) { n := Min(|data|, room); }
      if healthy && (eager || n == -1) { n := Min(|data|, room); }
      written := written + (if n < 0 then "" else data[..n]);
    }
  }

  method WriteData(strm: WriteStream, d: string) returns (ok: bool)
    modifies strm
    ensures ok ==> strm.written == old(strm.written) + d
    ensures strm.healthy ==> ok
  {
    var offset := 0;
    while offset < |d|
      invariant 0 <= offset <= |d| && strm.written == old(strm.written) + d[..offset]
    {
      var n := strm.Write(d[offset..]);
      if n < 0 { return false; }
      assert d[..offset] + d[offset..][..n] == d[..offset + n];
      offset := offset + n;
    }
    assert d[..offset] == d;
    return true;
  }

  // The sink of write_content_chunked, one call.
  method SinkWrite(strm: WriteStream, call: SinkCall) returns (ok: bool, available: bool)
    modifies strm
    ensures available == SinkOpen(call)
    ensures ok ==> strm.written == old(strm.written) + SinkOutput(call)
    ensures strm.healthy ==> ok
  {
    ok := true;
    match call {
      case Write(data) =>
        available := |data| > 0;
        if |data| > 0 {
          var size := FromIToHex(|data|);
          ok := WriteData(strm, size + CRLF + data + CRLF);
        }
      case Done(trailer) =>
        available := false;
        ok := WriteClosing(strm, trailer);
    }
  }

  // done_with_trailer; the writes go on after one that failed.
  method WriteClosing(strm: WriteStream, trailer: seq<(string, string)>) returns (ok: bool)
    modifies strm
    ensures ok ==> strm.written == old(strm.written) + Closing(trailer)
    ensures strm.healthy ==> ok
  {
    hide TrailerText;
    ghost var before := old(strm.written) + DONE_MARKER;
    ok := WriteData(strm, DONE_MARKER);
    assert trailer[0..] == trailer;
    for i := 0 to |trailer|
      invariant strm.healthy ==> ok
      invariant ok ==> strm.written + TrailerText(trailer[i..]) == before + TrailerText(trailer)
    {
      TrailerFrom(trailer, i);
      ghost var so := strm.written;
      var field := trailer[i].0 + ": " + trailer[i].1 + CRLF;
      var sent := WriteData(strm, field);
      ok := ok && sent;
      Assoc(so, field, TrailerText(trailer[i + 1..]));
    }
    NoTrailer(trailer[|trailer|..]);
    Nothing(strm.written);
    var ended := WriteData(strm, CRLF);
    ok := ok && ended;
    Assoc(before, TrailerText(trailer), CRLF);
    Assoc(old(strm.written), DONE_MARKER, TrailerText(trailer) + CRLF);
  }

  lemma TrailerFrom(trailer: seq<(string, string)>, i: nat)
    requires i < |trailer|
    ensures TrailerText(trailer[i..]) == trailer[i].0 + ": " + trailer[i].1 + CRLF + TrailerText(trailer[i + 1..])
  {
    assert trailer[i..][1..] == trailer[i + 1..];
  }

  lemma NoTrailer(trailer: seq<(string, string)>)
    requires trailer == []
    ensures TrailerText(trailer) == ""
  {
  }

  // The provider's calls of one round; once a write has failed the sink does nothing any more.
  method ProviderRound(strm: WriteStream, calls: seq<SinkCall>, open: bool) returns (ok: bool, available: bool)
    modifies strm
    ensures ok ==> strm.written == old(strm.written) + CallsOutput(calls)
    ensures ok ==> available == if calls == [] then open else SinkOpen(calls[|calls| - 1])
    ensures strm.healthy ==> ok
  {
    hide CallsOutput;
    hide SinkOutput;
    hide SinkOpen;
    ok, available := true, open;
    assert calls[..0] == [];
    NoCall();
    assert strm.written + "" == strm.written;
    for i := 0 to |calls|
      invariant strm.healthy ==> ok
      invariant ok ==> strm.written == old(strm.written) + CallsOutput(calls[..i])
      invariant ok ==> available == if i == 0 then open else SinkOpen(calls[i - 1])
    {
      if ok {
        ok, available := SinkWrite(strm, calls[i]);
        assert calls[..i + 1] == calls[..i] + [calls[i]];
        CallsOutputConcat(calls[..i], [calls[i]]);
        OneCall(calls[i]);
        Assoc(old(strm.written), CallsOutput(calls[..i]), SinkOutput(calls[i]));
      }
    }
    assert calls[..|calls|] == calls;
  }

  lemma NoCall()
    ensures CallsOutput([]) == ""
  {
  }

  lemma OneCall(call: SinkCall)
    ensures CallsOutput([call]) == SinkOutput(call)
  {
    var calls := [call];
    assert CallsOutput(calls[1..]) == "";
  }

  // The loop of write_content_chunked over the provider's rounds.  When the server is shutting down it may
  // end after any round, and still reports success.
  method WriteContentChunked(strm: WriteStream, rounds: seq<seq<SinkCall>>, mayStop: bool)
    returns (ok: bool, ghost done: nat)
    modifies strm
    ensures ok ==> done <= |rounds| && strm.written == old(strm.written) + CallsOutput(Flatten(rounds[..done]))
    ensures ok && !mayStop ==> Emitted(rounds, true).1 && strm.written == old(strm.written) + Emitted(rounds, true).0
    ensures strm.healthy ==> (Emitted(rounds, true).1 ==> ok) && (ok && !mayStop ==> Emitted(rounds, true).1)
  {
    hide CallsOutput, SinkOpen, Flatten;
    var available := true;
    var i := 0;
    ghost var total := Emitted(rounds, true);
    NoRounds(rounds);
    assert rounds[0..] == rounds && strm.written + "" == strm.written;
    while available
      invariant 0 <= i <= |rounds|
      invariant total.1 == Emitted(rounds[i..], available).1
      invariant old(strm.written) + total.0 == strm.written + Emitted(rounds[i..], available).0
      invariant strm.written == old(strm.written) + CallsOutput(Flatten(rounds[..i]))
      decreases |rounds| - i, available
    {
      var stopping := *;
      if stopping && mayStop { return true, i; }
      var writable: bool := *;
      if !writable && !strm.healthy { return false, i; }
      if i == |rounds| { return false, i; }
      ghost var before := strm.written;
      var written, next := ProviderRound(strm, rounds[i], available);
      if !written { return false, i; }
      assert rounds[i..][0] == rounds[i] && rounds[i..][1..] == rounds[i + 1..];
      Assoc(before, CallsOutput(rounds[i]), Emitted(rounds[i + 1..], next).0);
      OneMoreRound(rounds, i);
      Assoc(old(strm.written), CallsOutput(Flatten(rounds[..i])), CallsOutput(rounds[i]));
      available := next;
      i := i + 1;
    }
    return true, i;
  }

  lemma NoRounds(rounds: seq<seq<SinkCall>>)
    ensures CallsOutput(Flatten(rounds[..0])) == ""
  {
  }

  lemma {:induction false} FlattenSnoc(rounds: seq<seq<SinkCall>>, calls: seq<SinkCall>)
    ensures Flatten(rounds + [calls]) == Flatten(rounds) + calls
    decreases |rounds|
  {
    if rounds == [] {
      assert [calls][1..] == [] && rounds + [calls] == [calls];
    } else {
      assert (rounds + [calls])[1..] == rounds[1..] + [calls];
      FlattenSnoc(rounds[1..], calls);
    }
  }

  lemma OneMoreRound(rounds: seq<seq<SinkCall>>, i: nat)
    requires i < |rounds|
    ensures CallsOutput(Flatten(rounds[..i + 1])) == CallsOutput(Flatten(rounds[..i])) + CallsOutput(rounds[i])
  {
    assert rounds[..i + 1] == rounds[..i] + [rounds[i]];
    FlattenSnoc(rounds[..i], rounds[i]);
    CallsOutputConcat(Flatten(rounds[..i]), rounds[i]);
  }

  // ---- the reading side ----

  // The content receiver, and the progress callback behind it, take every piece.
  ghost predicate TakesAll(accepts: string -> bool) {
    forall piece :: accepts(piece)
  }

  // Content of a known length: all of it, or failure.
  method ReadContentWithLength(strm: SocketStream, len: nat, accepts: string -> bool)
    returns (ok: bool, content: string)
    requires strm.Valid()
    modifies strm, strm.sock, strm.read_buff_
    ensures strm.Valid() && old(strm.Unread()) == content + strm.Unread()
    ensures |content| <= len && (ok ==> |content| == len)
    ensures strm.sock.healthy && TakesAll(accepts) ==>
      (ok <==> |old(strm.Unread())| >= len) && (!ok ==> strm.Unread() == "")
  {
    content := "";
    var r := 0;
    ghost var input := strm.Unread();
    while r < len
      invariant strm.Valid() && 0 <= r <= len && r <= |input|
      invariant content == input[..r] && strm.Unread() == input[r..]
    {
      Halves(input, r);
      var toRead := len - r;
      var n, buf := strm.Read(if toRead < RECV_BUFSIZ then toRead else RECV_BUFSIZ);
      if n <= 0 { return false, content; }
      TakeMore(input, r, buf, strm.Unread());
      content := content + buf;
      r := r + n;
      Halves(input, r);
      if !accepts(buf) { return false, content; }
    }
    Halves(input, r);
    return true, content;
  }

  lemma TakeMore(input: string, r: nat, buf: string, rest: string)
    requires r <= |input| && input[r..] == buf + rest
    ensures r + |buf| <= |input| && input[..r] + buf == input[..r + |buf|] && rest == input[r + |buf|..]
  {
    assert buf == input[r..][..|buf|] && rest == input[r..][|buf|..];
    assert input[..r] + input[r..][..|buf|] == input[..r + |buf|];
  }

  // What getline left behind is what the specification says.
  lemma LineSplits(input: string, line: string, rest: string, ok: bool)
    requires input == line + rest && (ok <==> LineFits(input))
    requires ok ==> line == LineOf(input)
    requires !ok ==> |line| == if input == "" then 0 else MAX_LINE_LENGTH
    ensures rest == AfterLine(input)
    ensures ok ==> rest == input[|LineOf(input)|..]
  {
    assert rest == input[|line|..];
  }

  lemma ContentSplits(input: string, content: string, rest: string, size: nat)
    requires input == content + rest && |content| <= size && (|content| == size <==> |input| >= size)
    requires |input| < size ==> rest == ""
    ensures if |input| >= size then content == input[..size] && rest == input[size..]
      else content == input && rest == ""
  {
  }

  // Nothing is read twice or out of order, on any connection.
  ghost predicate IsSuffix(rest: string, input: string) {
    |rest| <= |input| && input[|input| - |rest|..] == rest
  }

  lemma TakenLeavesSuffix(input: string, taken: string, rest: string)
    requires input == taken + rest
    ensures IsSuffix(rest, input)
  {
  }

  lemma SuffixTwice(a: string, b: string, c: string)
    requires IsSuffix(b, a) && IsSuffix(c, b)
    ensures IsSuffix(c, a)
  {
    assert a[|a| - |b|..][|b| - |c|..] == a[|a| - |c|..];
  }

  method ReadTrailer(reader: StreamLineReader, ghost body: string) returns (ok: bool, trailer: seq<(string, string)>)
    requires reader.Valid() && reader.strm.Valid()
    modifies reader, reader.fixed_buffer_, reader.strm, reader.strm.sock, reader.strm.read_buff_
    ensures reader.strm.Valid() && IsSuffix(reader.strm.Unread(), old(reader.strm.Unread()))
    ensures reader.strm.sock.healthy ==>
      Trailer(old(reader.Line()), old(reader.strm.Unread()), body, [], 0)
        == Decoded(ok, body, trailer, reader.strm.Unread())
  {
    hide LineFits;
    hide LineOf;
    hide TrailerField;
    hide H.ParseHeader;
    hide IsSuffix;
    trailer := [];
    var count := 0;
    ghost var start := reader.strm.Unread();
    ghost var goal := Trailer(reader.Line(), start, body, [], 0);
    TakenLeavesSuffix(start, "", start);
    while reader.Line() != CRLF
      invariant reader.Valid() && reader.strm.Valid() && IsSuffix(reader.strm.Unread(), start)
      invariant reader.strm.sock.healthy ==>
        Trailer(reader.Line(), reader.strm.Unread(), body, trailer, count) == goal
      invariant count <= HEADER_MAX_COUNT
      decreases HEADER_MAX_COUNT - count
    {
      if |reader.Line()| > HEADER_MAX_LENGTH { return false, trailer; }
      if count >= HEADER_MAX_COUNT { return false, trailer; }
      var line := reader.Line();
      trailer := trailer + TrailerField(line);
      count := count + 1;
      ghost var input := reader.strm.Unread();
      var got := reader.Getline();
      TakenLeavesSuffix(input, reader.Line(), reader.strm.Unread());
      SuffixTwice(start, input, reader.strm.Unread());
      if reader.strm.sock.healthy { LineSplits(input, reader.Line(), reader.strm.Unread(), got); }
      if !got { return false, trailer; }
    }
    return true, trailer;
  }

  // One whole chunk after its size line: its bytes, its line end, and the next size line.
  method ReadChunk(reader: StreamLineReader, size: nat, accepts: string -> bool) returns (ok: bool, content: string)
    requires reader.Valid() && reader.strm.Valid()
    requires Strtoul16(reader.Line()) == size && 0 < size < ULONG_MAX
    modifies reader, reader.fixed_buffer_, reader.strm, reader.strm.sock, reader.strm.read_buff_
    ensures reader.Valid() && reader.strm.Valid() && IsSuffix(reader.strm.Unread(), old(reader.strm.Unread()))
    ensures content <= old(reader.strm.Unread()) && |content| <= size && (ok ==> |content| == size)
    ensures reader.strm.sock.healthy && TakesAll(accepts) ==>
      forall body: string :: ReadChunks(old(reader.Line()), old(reader.strm.Unread()), body)
              == (if ok then ReadChunks(reader.Line(), reader.strm.Unread(), body + content)
                  else Decoded(false, body + content, [], reader.strm.Unread()))
    ensures ok ==> |reader.strm.Unread()| < |old(reader.strm.Unread())|
  {
    hide LineFits;
    hide LineOf;
    hide Strtoul16;
    hide IsSuffix;
    hide TakesAll;
    ghost var input := reader.strm.Unread();
    ok, content := ReadContentWithLength(reader.strm, size, accepts);
    ghost var input' := reader.strm.Unread();
    TakenLeavesSuffix(input, content, input');
    if reader.strm.sock.healthy && TakesAll(accepts) { ContentSplits(input, content, input', size); }
    if !ok { return; }
    ok := reader.Getline();
    ghost var input'' := reader.strm.Unread();
    TakenLeavesSuffix(input', reader.Line(), input'');
    SuffixTwice(input, input', input'');
    if reader.strm.sock.healthy { LineSplits(input', reader.Line(), input'', ok); }
    if !ok { return; }
    if reader.Line() != CRLF { return false, content; }
    ok := reader.Getline();
    TakenLeavesSuffix(input'', reader.Line(), reader.strm.Unread());
    SuffixTwice(input, input'', reader.strm.Unread());
    if reader.strm.sock.healthy { LineSplits(input'', reader.Line(), reader.strm.Unread(), ok); }
  }

  // On a healthy connection, with a receiver that takes everything, the reader computes the decoding of the
  // bytes, whatever their fragments.
  method ReadContentChunked(strm: SocketStream, accepts: string -> bool)
    returns (ok: bool, body: string, trailer: seq<(string, string)>)
    requires strm.Valid()
    modifies strm, strm.sock, strm.read_buff_
    ensures strm.Valid() && IsSuffix(strm.Unread(), old(strm.Unread()))
    ensures strm.sock.healthy && TakesAll(accepts) ==>
      Decode(old(strm.Unread())) == Decoded(ok, body, trailer, strm.Unread())
  {
    hide LineFits;
    hide LineOf;
    hide Strtoul16;
    hide IsSuffix;
    hide TakesAll;
    body, trailer := "", [];
    ghost var input := strm.Unread();
    var buf := new char[16];
    var reader := new StreamLineReader(strm, buf);
    var got := reader.Getline();
    TakenLeavesSuffix(input, reader.Line(), strm.Unread());
    if strm.sock.healthy { LineSplits(input, reader.Line(), strm.Unread(), got); }
    if !got { return false, body, trailer; }
    while true
      invariant reader.Valid() && strm.Valid() && fresh(reader) && fresh(buf)
      invariant IsSuffix(strm.Unread(), input)
      invariant strm.sock.healthy && TakesAll(accepts) ==>
        ReadChunks(reader.Line(), strm.Unread(), body) == Decode(input)
      decreases |strm.Unread()|
    {
      var size := Strtoul16(reader.Line());
      if size < 0 { return false, body, trailer; }
      if size == ULONG_MAX { return false, body, trailer; }
      if size == 0 { break; }
      StrtoulBelow(reader.Line());
      ghost var before := strm.Unread();
      var content;
      got, content := ReadChunk(reader, size, accepts);
      SuffixTwice(input, before, strm.Unread());
      body := body + content;
      if !got { return false, body, trailer; }
    }
    ghost var input' := strm.Unread();
    got := reader.Getline();
    TakenLeavesSuffix(input', reader.Line(), strm.Unread());
    SuffixTwice(input, input', strm.Unread());
    if strm.sock.healthy { LineSplits(input', reader.Line(), strm.Unread(), got); }
    if !got { return true, body, trailer; }
    ghost var input'' := strm.Unread();
    ok, trailer := ReadTrailer(reader, body);
    SuffixTwice(input, input'', strm.Unread());
  }

  lemma StrtoulBelow(line: string)
    ensures Strtoul16(line) <= ULONG_MAX
  {
  }

  // Over one connection, whatever the fragments: what the provider writes is what is read, its trailer with
  // it and nothing left over, exactly when its calls close the sink once and the trailer is within the limits.
  method Transfer(rounds: seq<seq<SinkCall>>)
    returns (ok: bool, body: string, trailer: seq<(string, string)>, ghost rest: string)
    requires AreSized(Made(rounds, true)) && IsPlainTrailer(TrailerOf(Made(rounds, true)))
    ensures var calls := Made(rounds, true);
      ok && body == Written(calls) && trailer == TrailerOf(calls) && rest == ""
      <==> ClosesOnce(calls) && IsWithinLimits(TrailerOf(calls))
    ensures forall writes, fields ::
      (Sendable(writes) && IsWithinLimits(fields) && Flatten(rounds) == AsCalls(writes, fields)) ==>
        ok && body == Concat(writes) && trailer == fields
  {
    hide Decode, CallsOutput, Written, ClosesOnce, AreSized, Emitted, Made, TrailerOf, IsPlainTrailer, IsWithinLimits;
    var eager: bool, room: Positive := *, *;
    var sender := new WriteStream(true, eager, room);
    ghost var done;
    ok, done := WriteContentChunked(sender, rounds, false);
    RoundsRoundTripIff(rounds);
    forall writes, fields | Sendable(writes) && Flatten(rounds) == AsCalls(writes, fields)
      ensures var calls := Made(rounds, true);
        ClosesOnce(calls) && Written(calls) == Concat(writes) && TrailerOf(calls) == fields
    {
      AsCallsAreMade(rounds, writes, fields);
      AsCallsCloseOnce(writes, fields);
    }
    if !ok { return false, "", [], ""; }
    EmittedIsMade(rounds, true);
    CallsRoundTripIff(Made(rounds, true));
    Nothing(Emitted(rounds, true).0);
    var sock := new Socket(sender.written, true);
    var strm := new SocketStream(sock);
    ok, body, trailer := ReadContentChunked(strm, _ => true);
    return ok, body, trailer, strm.Unread();
  }
}
