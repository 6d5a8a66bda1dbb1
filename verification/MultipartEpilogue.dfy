/**
  What may follow the closing delimiter of a multipart body without anybody noticing, however the input is
  cut: exactly the inert epilogues.
*/
module MultipartEpilogue {
  import opened Text
  import opened MultipartHeader
  import opened MultipartMachine
  import opened MultipartSplit

  // The calls accept everything, find the body valid and see no part beyond those before.
  ghost predicate IsUnseen(cfg: Config, m: Machine, pieces: seq<string>) {
    var (m', ok) := DriveAll(cfg, m, pieces);
    ok && m'.valid && m'.parts == m.parts
  }

  // ---- inert epilogues ----

  lemma Waits(cfg: Config, m: Machine)
    requires m.state == 4 && |m.buf| < 2
    ensures Drive(cfg, m) == (m, true)
  {
  }

  lemma CloseDiscards(cfg: Config, m: Machine, rest: string)
    requires m.state == 4 && m.buf == DASH + rest
    ensures Drive(cfg, m) == (m.(valid := true, buf := ""), true)
  {
    assert m.buf[0..2] == DASH && DASH[0] != CRLF[0];
    assert Step(cfg, m) == Next(m.(valid := true, buf := ""));
  }

  lemma {:induction false} InertIsUnseen(cfg: Config, m: Machine, pieces: seq<string>, e: string)
    requires m.state == 4 && |m.buf| < 2 && m.buf + Concat(pieces) == DASH + e && Inert(e)
    ensures IsUnseen(cfg, m, pieces)
    decreases |pieces|
  {
    hide Drive, Inert;
    assert |m.buf + Concat(pieces)| >= 2;
    var fed, rest := Feed(m, pieces[0]), Concat(pieces[1..]);
    assert m.buf + (pieces[0] + rest) == fed.buf + rest;
    if |fed.buf| < 2 {
      Waits(cfg, fed);
      InertIsUnseen(cfg, fed, pieces[1..], e);
    } else {
      var x := fed.buf[2..];
      assert (fed.buf + rest)[..2] == DASH && (fed.buf + rest)[2..] == x + rest;
      assert fed.buf == DASH + x && e == x + rest;
      CloseDiscards(cfg, fed, x);
      InertSuffix(x, rest);
      assert "" + rest == rest;
      SettledAll(cfg, fed.(valid := true, buf := ""), pieces[1..]);
    }
  }

  // ---- all others show ----

  lemma {:induction false} HeadersGrow(cfg: Config, m: Machine)
    ensures |Headers(cfg, m).m.parts| >= |m.parts|
    decreases |m.buf|
  {
    hide HeaderLine, Find, StartsAt, Headers;
    HeadersUnfold(cfg, m);
    var pos := Find(m.buf, CRLF);
    if 0 < pos < |m.buf| {
      FoundFits(m.buf, CRLF);
      HeadersGrow(cfg, Skip(m, pos + 2).(file := HeaderLine(m.file, m.buf[..pos]).0));
    }
  }

  lemma {:induction false} PartsGrow(cfg: Config, m: Machine)
    ensures |Drive(cfg, m).0.parts| >= |m.parts|
    decreases |m.buf|, Rank(m)
  {
    hide Find, StartsAt, Headers;
    if m.buf != "" {
      HeadersGrow(cfg, m);
      if Step(cfg, m).Next? {
        StepProgress(cfg, m);
        PartsGrow(cfg, Step(cfg, m).m);
      }
    }
  }

  lemma {:induction false} AllPartsGrow(cfg: Config, m: Machine, pieces: seq<string>)
    ensures |DriveAll(cfg, m, pieces).0.parts| >= |m.parts|
    decreases |pieces|
  {
    hide Drive;
    if pieces != [] {
      var fed := Feed(m, pieces[0]);
      PartsGrow(cfg, fed);
      if Drive(cfg, fed).1 { AllPartsGrow(cfg, Drive(cfg, fed).0, pieces[1..]); }
    }
  }

  // A call refuses, or another part appears.
  ghost predicate Shows(cfg: Config, m: Machine, pieces: seq<string>) {
    var (m', ok) := DriveAll(cfg, m, pieces);
    !ok || |m'.parts| > |m.parts|
  }

  lemma NoneInPrefix(s: string, n: nat)
    requires n <= |s| && Find(s, CRLF) + 2 > n
    ensures Find(s[..n], CRLF) == n
  {
    forall k | 0 <= k < n ensures !StartsAt(s[..n], k, CRLF) {
      if k + 2 <= n {
        assert s[..n][k..k + 2] == s[k..k + 2];
        assert !StartsAt(s, k, CRLF);
      }
    }
    FindIs(s[..n], CRLF, n);
  }

  // More than the limit without a line end is refused.
  lemma TooLongShows(cfg: Config, m: Machine, lines: string) returns (pieces: seq<string>)
    requires m.state == 2 && m.buf == "" && HEADER_MAX_LENGTH < |lines| && HEADER_MAX_LENGTH <= Find(lines, CRLF)
    ensures Concat(pieces) == lines && pieces != [] && pieces[0] != ""
    ensures Shows(cfg, m, pieces) && !DriveAll(cfg, m, pieces).1
  {
    hide Find, StartsAt, Headers;
    var n := HEADER_MAX_LENGTH + 1;
    NoneInPrefix(lines, n);
    pieces := [lines[..n], lines[n..]];
    assert pieces[1..] == [lines[n..]] && [lines[n..]][1..] == [];
    assert Concat([lines[n..]]) == lines[n..] + "";
    assert lines[..n] + (lines[n..] + "") == lines;
    assert "" + lines[..n] == lines[..n];
    assert Step(cfg, Feed(m, lines[..n])) == Return(Feed(m, lines[..n]), false);
  }

  lemma OnePiece(cfg: Config, m: Machine, lines: string)
    ensures Concat([lines]) == lines
    ensures m.buf == "" ==> Feed(m, lines) == m.(buf := lines)
    ensures DriveAll(cfg, m, [lines]) == Drive(cfg, Feed(m, lines))
  {
    hide Drive;
    assert [lines][1..] == [] && lines + "" == lines;
    assert m.buf == "" ==> m.buf + lines == lines;
  }

  // So is a line that is no header, and an empty line begins a part.
  lemma BadLineShows(cfg: Config, m: Machine, lines: string)
    requires m.state == 2 && m.buf == ""
    requires var pos := Find(lines, CRLF);
      pos < |lines| && pos < HEADER_MAX_LENGTH && (pos == 0 || !HeaderLine(m.file, lines[..pos]).1)
    ensures Shows(cfg, m, [lines])
  {
    hide Find, StartsAt, HeaderLine, Headers;
    OnePiece(cfg, m, lines);
    var fed := Feed(m, lines);
    FoundFits(lines, CRLF);
    HeadersUnfold(cfg, fed);
    if Step(cfg, fed).Next? {
      StepProgress(cfg, fed);
      PartsGrow(cfg, Step(cfg, fed).m);
    }
  }

  lemma FindInFirstLine(lines: string)
    requires Find(lines, CRLF) < |lines|
    ensures var pos := Find(lines, CRLF);
      pos + 2 <= |lines| && Find(lines[..pos + 2], CRLF) == pos
  {
    var pos := Find(lines, CRLF);
    FoundFits(lines, CRLF);
    var line := lines[..pos + 2];
    forall k | 0 <= k < pos ensures !StartsAt(line, k, CRLF) {
      assert line[k..k + 2] == lines[k..k + 2];
      assert !StartsAt(lines, k, CRLF);
    }
    assert line[pos..pos + 2] == lines[pos..pos + 2];
    FindIs(line, CRLF, pos);
  }

  // A good line, arriving on its own, is read and forgotten.
  lemma GoodLineIsRead(cfg: Config, m: Machine, lines: string)
    requires m.state == 2 && m.buf == ""
    requires var pos := Find(lines, CRLF);
      0 < pos < |lines| && pos < HEADER_MAX_LENGTH && HeaderLine(m.file, lines[..pos]).1
    ensures var pos := Find(lines, CRLF);
      && pos + 2 <= |lines|
      && Drive(cfg, Feed(m, lines[..pos + 2])) == (m.(file := HeaderLine(m.file, lines[..pos]).0), true)
  {
    hide HeaderLine, Find, StartsAt, Headers;
    var pos := Find(lines, CRLF);
    FoundFits(lines, CRLF);
    var line := lines[..pos + 2];
    FindInFirstLine(lines);
    assert "" + line == line && line[..pos] == lines[..pos] && line[pos + 2..] == "";
    var fed := Feed(m, line);
    var next := m.(file := HeaderLine(m.file, lines[..pos]).0);
    HeadersUnfold(cfg, fed);
    HeadersUnfold(cfg, next);
    assert Skip(fed, pos + 2).(file := next.file) == next;
    assert Step(cfg, fed) == Return(next, true);
  }

  lemma {:induction false} HarmShows(cfg: Config, m: Machine, lines: string) returns (pieces: seq<string>)
    requires m.state == 2 && m.buf == "" && !Harmless(m.file, lines)
    ensures Concat(pieces) == lines && pieces != [] && pieces[0] != "" && Shows(cfg, m, pieces)
    decreases |lines|
  {
    hide Drive, Find, HeaderLine;
    var pos := Find(lines, CRLF);
    if pos == |lines| || pos >= HEADER_MAX_LENGTH {
      pieces := TooLongShows(cfg, m, lines);
    } else if pos == 0 || !HeaderLine(m.file, lines[..pos]).1 {
      BadLineShows(cfg, m, lines);
      OnePiece(cfg, m, lines);
      pieces := [lines];
    } else {
      GoodLineIsRead(cfg, m, lines);
      var more := HarmShows(cfg, m.(file := HeaderLine(m.file, lines[..pos]).0), lines[pos + 2..]);
      pieces := [lines[..pos + 2]] + more;
      assert pieces[1..] == more && lines[..pos + 2] + lines[pos + 2..] == lines;
    }
  }

  // Between the line end after a delimiter and the first header line.
  lemma NewEntry(cfg: Config, m: Machine, pieces: seq<string>)
    requires m.state == 1 && m.buf == "" && pieces != [] && pieces[0] != ""
    ensures DriveAll(cfg, m, pieces) == DriveAll(cfg, m.(file := NO_FILE, state := 2), pieces)
  {
    hide Headers, Find;
    var fed := Feed(m, pieces[0]);
    assert Step(cfg, fed) == Next(fed.(file := NO_FILE, state := 2));
    StepProgress(cfg, fed);
    assert Drive(cfg, fed) == Drive(cfg, fed.(file := NO_FILE, state := 2));
  }

  lemma LineEndIsTaken(cfg: Config, m: Machine)
    requires m.state == 4 && m.buf == ""
    ensures Drive(cfg, Feed(m, CRLF)) == (m.(state := 1), true)
  {
    var fed := Feed(m, CRLF);
    assert fed.buf == CRLF && fed.buf[0..2] == CRLF && fed.buf[2..] == "";
    assert Step(cfg, fed) == Next(m.(state := 1));
  }

  // The cut that shows it: up to the line end, the line end alone, and then the lines.
  lemma HarmfulShows(cfg: Config, m: Machine, e: string, k: nat) returns (pieces: seq<string>)
    requires m.state == 4 && m.buf == "" && StartsAt(e, k, CRLF) && !Harmless(NO_FILE, e[k + 2..])
    ensures Concat(pieces) == DASH + e && !IsUnseen(cfg, m, pieces)
  {
    hide Drive, Harmless;
    var closed := m.(valid := true);
    var start := closed.(state := 2, file := NO_FILE);
    var lines := HarmShows(cfg, start, e[k + 2..]);
    var end := [CRLF] + lines;
    pieces := [DASH + e[..k]] + end;
    assert pieces[1..] == end && end[1..] == lines;
    assert e == e[..k] + (CRLF + e[k + 2..]) by { assert e[k..] == e[k..k + 2] + e[k + 2..] && e == e[..k] + e[k..]; }
    assert DASH + e[..k] + (CRLF + e[k + 2..]) == DASH + (e[..k] + (CRLF + e[k + 2..]));
    assert "" + (DASH + e[..k]) == DASH + e[..k];
    CloseDiscards(cfg, Feed(m, DASH + e[..k]), e[..k]);
    LineEndIsTaken(cfg, closed);
    NewEntry(cfg, closed.(state := 1), lines);
    assert DriveAll(cfg, m, pieces) == DriveAll(cfg, closed, end);
    assert DriveAll(cfg, closed, end) == DriveAll(cfg, start, lines);
  }

  // After a part, the closing dashes and an epilogue go unseen under every cut, as they do in one call,
  // exactly when the epilogue is inert.
  lemma EpilogueIff(cfg: Config, m: Machine, e: string)
    requires m.state == 4 && m.buf == ""
    ensures (forall pieces :: Concat(pieces) == DASH + e ==> IsUnseen(cfg, m, pieces)) <==> Inert(e)
    ensures IsUnseen(cfg, m, [DASH + e])
  {
    hide Drive, DriveAll, IsUnseen, Harmless;
    if Inert(e) {
      forall pieces | Concat(pieces) == DASH + e ensures IsUnseen(cfg, m, pieces) {
        assert m.buf + Concat(pieces) == DASH + e;
        InertIsUnseen(cfg, m, pieces, e);
      }
    } else {
      var k: nat :| StartsAt(e, k, CRLF) && !Harmless(NO_FILE, e[k + 2..]);
      var pieces := HarmfulShows(cfg, m, e, k);
    }
    WholeIsUnseen(cfg, m, e);
  }

  lemma WholeIsUnseen(cfg: Config, m: Machine, e: string)
    requires m.state == 4 && m.buf == ""
    ensures IsUnseen(cfg, m, [DASH + e])
  {
    hide Drive;
    OnePiece(cfg, m, DASH + e);
    CloseDiscards(cfg, Feed(m, DASH + e), e);
  }

  // ---- one that shows ----

  lemma LineAfterBoundary(cfg: Config, m: Machine, line: string)
    requires m.state == 4 && m.buf == CRLF + (line + CRLF)
    requires 0 < |line| < HEADER_MAX_LENGTH && '\r' !in line && ':' !in line
    ensures Drive(cfg, m) == (m.(file := NO_FILE, state := 2, buf := line + CRLF, valid := false), false)
  {
    assert m.buf[0..2] == CRLF && m.buf[2..] == line + CRLF;
    var m3 := m.(buf := line + CRLF, state := 1);
    var m4 := m3.(file := NO_FILE, state := 2);
    assert Step(cfg, m) == Next(m3) && Step(cfg, m3) == Next(m4);
    BadHeader(cfg, m4, line);
    hide Step;
    assert Drive(cfg, m4) == (m4.(valid := false), false);
    assert Drive(cfg, m3) == Drive(cfg, m4);
  }

  lemma BadHeader(cfg: Config, m: Machine, line: string)
    requires m.state == 2 && m.file == NO_FILE && m.buf == line + CRLF
    requires 0 < |line| < HEADER_MAX_LENGTH && '\r' !in line && ':' !in line
    ensures Step(cfg, m) == Return(m.(valid := false), false)
  {
    var n := |line|;
    assert m.buf[n..n + 2] == CRLF && m.buf[..n] == line;
    forall k | 0 <= k < n ensures !StartsAt(m.buf, k, CRLF) {
      assert m.buf[k..k + 2][0] == line[k];
    }
    FindIs(m.buf, CRLF, n);
    NoColonNoHeader(NO_FILE, line);
    hide HeaderLine;
  }

  // An epilogue that is not inert: thrown away when it arrives with the closing delimiter, and read as
  // another part's header line when it comes later.
  lemma EpilogueMatters(cfg: Config, m: Machine)
    requires m.state == 4 && m.buf == ""
    ensures var (m1, ok1) := Drive(cfg, Feed(m, DASH + (CRLF + ("bye" + CRLF))));
      ok1 && m1.valid
    ensures var (m2, ok2) := DriveAll(cfg, m, [DASH, CRLF + ("bye" + CRLF)]);
      !ok2 && !m2.valid
  {
    hide Drive;
    var line := "bye";
    assert |line| == 3;
    var e := CRLF + (line + CRLF);
    CloseDiscards(cfg, Feed(m, DASH + e), e);
    CloseDiscards(cfg, Feed(m, DASH), "");
    var m1 := m.(valid := true, buf := "");
    LineAfterBoundary(cfg, Feed(m1, e), line);
    var pieces, last := [DASH, e], [e];
    assert pieces[1..] == last;
    assert !DriveAll(cfg, m1, last).1 && !DriveAll(cfg, m1, last).0.valid;
  }

  lemma NoColonNoHeader(file: FormData, line: string)
    requires ':' !in line
    ensures HeaderLine(file, line) == (file, false)
  {
    NoColonAfterTrim(line);
  }

  lemma {:induction false} NoColonAfterTrim(line: string)
    requires ':' !in line
    ensures ':' !in TrimRight(line)
    decreases |line|
  {
    if line != "" && IsSpaceOrTab(line[|line| - 1]) { NoColonAfterTrim(line[..|line| - 1]); }
  }

  // ---- anything else after a delimiter ----

  // Neither a line end nor two dashes: the calls go on being accepted, and nothing is ever parsed again.
  lemma {:induction false} OtherTextIsStuck(cfg: Config, m: Machine, pieces: seq<string>)
    requires m.state == 4 && |m.buf| >= 2 && m.buf[..2] != CRLF && m.buf[..2] != DASH
    ensures var (m', ok) := DriveAll(cfg, m, pieces);
      ok && m'.parts == m.parts && m'.valid == m.valid
    decreases |pieces|
  {
    if pieces != [] {
      var fed := Feed(m, pieces[0]);
      assert fed.buf[..2] == m.buf[..2] == fed.buf[0..2];
      assert Drive(cfg, fed) == (fed, true);
      hide Drive;
      OtherTextIsStuck(cfg, fed, pieces[1..]);
    }
  }
}
