/**
  Which byte sequences are accepted as chunked content, whoever wrote them.
*/
module ChunkInput {
  import opened Text
  import opened Streams
  import opened ChunkedCoding

  // A size line as it stands, and the data of its chunk.
  datatype Piece = Piece(line: string, data: string)

  ghost predicate IsWholeLine(line: string) {
    |line| >= 2 && |line| <= MAX_LINE_LENGTH && Find(line, CRLF) == |line| - 2
  }

  ghost predicate IsPiece(p: Piece) {
    IsWholeLine(p.line) && p.data != "" && Strtoul16(p.line) == |p.data| < ULONG_MAX
  }

  ghost predicate ArePieces(pieces: seq<Piece>) {
    forall i :: 0 <= i < |pieces| ==> IsPiece(pieces[i])
  }

  function PiecesText(pieces: seq<Piece>): string {
    if pieces == [] then "" else pieces[0].line + (pieces[0].data + CRLF + PiecesText(pieces[1..]))
  }

  function PiecesData(pieces: seq<Piece>): string {
    if pieces == [] then "" else pieces[0].data + PiecesData(pieces[1..])
  }

  // A line that announces no data, with what follows it.
  ghost predicate IsLast(last: string, rest: string) {
    LineFits(last + rest) && LineOf(last + rest) == last && Strtoul16(last) == 0
  }

  // The trailer section: a connection that ends here has none, and is accepted.
  function AfterLast(input: string, body: string): Decoded {
    if !LineFits(input) then Decoded(true, body, [], AfterLine(input))
    else Trailer(LineOf(input), input[|LineOf(input)|..], body, [], 0)
  }

  lemma WholeLineFirst(line: string, rest: string)
    requires IsWholeLine(line)
    ensures LineFits(line + rest) && LineOf(line + rest) == line && (line + rest)[|line|..] == rest
  {
    var s, k := line + rest, |line| - 2;
    assert line[k..k + 2] == CRLF && s[k..k + 2] == CRLF;
    forall i | 0 <= i < k ensures !StartsAt(s, i, CRLF) {
      assert !StartsAt(line, i, CRLF);
      assert s[i..i + 2] == line[i..i + 2];
    }
    FindIs(s, CRLF, k);
  }

  lemma LineIsWhole(input: string)
    requires LineFits(input) && HasLineEnd(input)
    ensures IsWholeLine(LineOf(input)) && input == LineOf(input) + input[|LineOf(input)|..]
  {
    var k, line := Find(input, CRLF), LineOf(input);
    assert input[k..k + 2] == CRLF;
    assert line == input[..k + 2] && line[k..k + 2] == CRLF;
    forall i | 0 <= i < k ensures !StartsAt(line, i, CRLF) {
      assert !StartsAt(input, i, CRLF);
      assert line[i..i + 2] == input[i..i + 2];
    }
    FindIs(line, CRLF, k);
  }

  lemma LineEndIsWhole()
    ensures IsWholeLine(CRLF)
  {
    assert CRLF[0..2] == CRLF;
    FindIs(CRLF, CRLF, 0);
  }

  // One chunk with its line end, whatever its size line looks like.
  lemma PieceIsRead(p: Piece, next: string, rest: string, body: string)
    requires IsPiece(p) && LineFits(next + rest) && LineOf(next + rest) == next
    ensures ReadChunks(p.line, p.data + CRLF + (next + rest), body) == ReadChunks(next, rest, body + p.data)
  {
    hide LineFits, LineOf, Strtoul16;
    var input := p.data + CRLF + (next + rest);
    assert input[..|p.data|] == p.data && input[|p.data|..] == CRLF + (next + rest);
    LineEndIsWhole();
    WholeLineFirst(CRLF, next + rest);
    assert (next + rest)[|next|..] == rest;
  }

  // What follows a size line: the next one, whether it announces data or not.
  lemma NextLine(pieces: seq<Piece>, last: string, rest: string) returns (next: string, after: string)
    requires ArePieces(pieces) && IsLast(last, rest)
    ensures PiecesText(pieces) + (last + rest) == next + after && LineFits(next + after) && LineOf(next + after) == next
    ensures next == if pieces == [] then last else pieces[0].line
    ensures after == if pieces == [] then rest
                     else pieces[0].data + CRLF + (PiecesText(pieces[1..]) + (last + rest))
  {
    hide LineFits, LineOf, IsWholeLine, Strtoul16;
    if pieces == [] {
      next, after := last, rest;
      Nothing(last + rest);
    } else {
      next := pieces[0].line;
      var data, more := pieces[0].data + CRLF, PiecesText(pieces[1..]);
      after := data + (more + (last + rest));
      Assoc(next, data + more, last + rest);
      Assoc(data, more, last + rest);
      WholeLineFirst(next, after);
    }
  }

  lemma {:induction false} PiecesAreRead(pieces: seq<Piece>, last: string, rest: string, line: string, input: string,
                                         body: string)
    requires ArePieces(pieces) && IsLast(last, rest)
    requires line == if pieces == [] then last else pieces[0].line
    requires input == if pieces == [] then rest
                      else pieces[0].data + CRLF + (PiecesText(pieces[1..]) + (last + rest))
    ensures ReadChunks(line, input, body) == AfterLast(rest, body + PiecesData(pieces))
    decreases |pieces|
  {
    hide LineFits, LineOf, IsWholeLine, Strtoul16, PiecesText;
    if pieces == [] {
      Nothing(body);
    } else {
      var next, after := NextLine(pieces[1..], last, rest);
      PieceIsRead(pieces[0], next, after, body);
      hide ReadChunks;
      PiecesAreRead(pieces[1..], last, rest, next, after, body + pieces[0].data);
      Assoc(body, pieces[0].data, PiecesData(pieces[1..]));
    }
  }

  // Chunks with size lines of any form, ended by a line that announces no data, are read to the end.
  lemma PiecesAreAccepted(pieces: seq<Piece>, last: string, rest: string)
    requires ArePieces(pieces) && IsLast(last, rest)
    ensures Decode(PiecesText(pieces) + (last + rest)) == AfterLast(rest, PiecesData(pieces))
  {
    hide LineFits, LineOf, IsWholeLine, Strtoul16, PiecesText, ReadChunks, AfterLast;
    var next, after := NextLine(pieces, last, rest);
    assert (next + after)[|next|..] == after;
    PiecesAreRead(pieces, last, rest, next, after, "");
    Nothing(PiecesData(pieces));
  }

  // A line that more input follows has its end.
  lemma SizedLineIsWhole(line: string, input: string)
    requires input != "" && LineFits(line + input) && LineOf(line + input) == line
    ensures IsWholeLine(line)
  {
    LineIsWhole(line + input);
  }

  lemma OneMorePiece(p: Piece, pieces: seq<Piece>, last: string, rest: string, all: string, after: string)
    requires all == p.line + (p.data + CRLF + after) && after == PiecesText(pieces) + (last + rest)
    requires IsPiece(p) && ArePieces(pieces)
    ensures all == PiecesText([p] + pieces) + (last + rest) && ArePieces([p] + pieces)
    ensures PiecesData([p] + pieces) == p.data + PiecesData(pieces)
  {
    hide IsPiece;
    assert ([p] + pieces)[1..] == pieces;
    Assoc(p.data + CRLF, PiecesText(pieces), last + rest);
    Assoc(p.line, p.data + CRLF + PiecesText(pieces), last + rest);
  }

  lemma NoData(line: string, input: string, body: string)
    requires Strtoul16(line) == 0
    ensures ReadChunks(line, input, body) == AfterLast(input, body)
  {
    hide LineFits, LineOf, Strtoul16, Trailer;
  }

  // What the reader does after the data of a chunk.
  function AfterData(input: string, body: string): Decoded {
    if !LineFits(input) then Decoded(false, body, [], AfterLine(input))
    else
      var end, more := LineOf(input), input[|LineOf(input)|..];
      if end != CRLF then Decoded(false, body, [], more)
      else if !LineFits(more) then Decoded(false, body, [], AfterLine(more))
      else ReadChunks(LineOf(more), more[|LineOf(more)|..], body)
  }

  lemma DataIsTaken(line: string, input: string, body: string)
    requires Strtoul16(line) != 0
    ensures var size := Strtoul16(line);
      if 0 < size < ULONG_MAX && size <= |input|
      then ReadChunks(line, input, body) == AfterData(input[size..], body + input[..size])
      else !ReadChunks(line, input, body).ok
  {
    hide LineFits, LineOf, Strtoul16, Trailer, AfterLine;
    StrtoulRange(line);
  }

  lemma StrtoulRange(line: string)
    ensures Strtoul16(line) <= ULONG_MAX
  {
  }

  // What it takes to get past a size line: its data, a line end, and another line.
  lemma AcceptedStep(line: string, input: string, body: string) returns (data: string, after: string)
    requires ReadChunks(line, input, body).ok && Strtoul16(line) != 0
    ensures 0 < |data| == Strtoul16(line) < ULONG_MAX && input == data + CRLF + after && LineFits(after)
    ensures ReadChunks(line, input, body) == ReadChunks(LineOf(after), after[|LineOf(after)|..], body + data)
  {
    hide LineFits, LineOf, Strtoul16, ReadChunks, AfterLine;
    DataIsTaken(line, input, body);
    var size := Strtoul16(line);
    data := input[..size];
    var input' := input[size..];
    assert LineOf(input') == CRLF && CRLF <= input';
    after := input'[|LineOf(input')|..];
    hide AfterData;
    assert input' == CRLF + after && input == data + input';
    Assoc(data, CRLF, after);
  }

  lemma {:induction false} AcceptedFromLine(line: string, input: string, body: string)
    returns (pieces: seq<Piece>, last: string, rest: string)
    requires ReadChunks(line, input, body).ok && LineFits(line + input) && LineOf(line + input) == line
    ensures ArePieces(pieces) && IsLast(last, rest)
    ensures line + input == PiecesText(pieces) + (last + rest)
    ensures ReadChunks(line, input, body) == AfterLast(rest, body + PiecesData(pieces))
    decreases |input|
  {
    hide ReadChunks, LineFits, LineOf, IsWholeLine, Strtoul16, AfterLast;
    if Strtoul16(line) == 0 {
      NoData(line, input, body);
      pieces, last, rest := [], line, input;
      Nothing(line + input);
      Nothing(body);
    } else {
      var data, after := AcceptedStep(line, input, body);
      assert |input| > 0;
      SizedLineIsWhole(line, input);
      var next := LineOf(after);
      assert after == next + after[|next|..];
      pieces, last, rest := AcceptedFromLine(next, after[|next|..], body + data);
      hide PiecesText, PiecesData, IsLast;
      OneMorePiece(Piece(line, data), pieces, last, rest, line + input, after);
      Assoc(body, data, PiecesData(pieces));
      pieces := [Piece(line, data)] + pieces;
    }
  }

  // Bytes that were accepted are chunks that announce their data truly, up to a line that announces none.
  lemma AcceptedArePieces(input: string) returns (pieces: seq<Piece>, last: string, rest: string)
    requires Decode(input).ok
    ensures ArePieces(pieces) && IsLast(last, rest) && input == PiecesText(pieces) + (last + rest)
    ensures Decode(input) == AfterLast(rest, PiecesData(pieces))
  {
    hide ReadChunks, LineFits, PiecesText, AfterLast, IsLast;
    var line := LineOf(input);
    assert input == line + input[|line|..];
    pieces, last, rest := AcceptedFromLine(line, input[|line|..], "");
    Nothing(PiecesData(pieces));
  }
}
