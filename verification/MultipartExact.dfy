/**
  The converse of the multipart round trip: a part whose name, file name, content type or content is not
  plain, or whose header lines are too long, does not come back.
*/
module MultipartExact {
  import opened Basics
  import opened Text
  import opened MultipartHeader
  import opened MultipartMachine
  import opened MultipartSplit
  import opened MultipartEpilogue
  import opened MultipartRoundTrip
  import R = MultipartRoundTrip
  import Q = Query

  // ---- what a parsed name is made of ----

  ghost predicate Within(a: string, b: string) {
    |a| <= |b| && forall c :: c in a ==> c in b
  }

  lemma SliceWithin(s: string, i: nat, j: nat)
    requires i <= j <= |s|
    ensures Within(s[i..j], s) && Within(s[i..], s) && Within(s[..j], s)
  {
  }

  lemma {:induction false} TrimLeftWithin(s: string)
    ensures Within(TrimLeft(s), s)
    ensures TrimLeft(s) != "" ==> !IsSpaceOrTab(TrimLeft(s)[0])
    decreases |s|
  {
    if s != "" && IsSpaceOrTab(s[0]) { TrimLeftWithin(s[1..]); }
  }

  lemma {:induction false} TrimRightWithin(s: string)
    ensures Within(TrimRight(s), s) && TrimRight(s) <= s
    ensures TrimRight(s) != "" ==> !IsSpaceOrTab(TrimRight(s)[|TrimRight(s)| - 1])
    ensures forall i :: |TrimRight(s)| <= i < |s| ==> IsSpaceOrTab(s[i])
    decreases |s|
  {
    if s != "" && IsSpaceOrTab(s[|s| - 1]) { TrimRightWithin(s[..|s| - 1]); }
  }

  lemma TrimWithin(s: string)
    ensures Within(Trim(s), s) && Trimmed(Trim(s))
  {
    TrimLeftWithin(s);
    TrimRightWithin(TrimLeft(s));
  }

  lemma WithinTrans(a: string, b: string, c: string)
    requires Within(a, b) && Within(b, c)
    ensures Within(a, c)
  {
  }

  ghost predicate ArePieces(pieces: seq<string>, s: string, d: char) {
    forall p :: p in pieces ==> Within(p, s) && d !in p
  }

  ghost predicate AreApart(pieces: seq<string>, n: nat) {
    |pieces| > 1 ==> |pieces[0]| + 1 + |pieces[|pieces| - 1]| <= n
  }

  lemma PiecesJoinWithin(piece: string, more: seq<string>, s: string, i: nat, d: char)
    requires i < |s| && Within(piece, s[..i]) && d !in piece && ArePieces(more, s[i + 1..], d)
      && AreApart(more, |s| - i - 1)
    ensures ArePieces(Kept(piece) + more, s, d) && AreApart(Kept(piece) + more, |s|)
  {
    SliceWithin(s, i + 1, |s|);
    SliceWithin(s, 0, i);
    if more != [] { assert more[|more| - 1] in more; }
  }

  lemma KeptIsPieces(piece: string, s: string, d: char)
    requires Within(piece, s) && d !in piece
    ensures ArePieces(Kept(piece), s, d) && AreApart(Kept(piece), |s|)
  {
  }

  // A piece holds no delimiter; the first and the last piece are at least one delimiter apart.
  lemma {:induction false} PiecesWithin(s: string, d: char)
    ensures ArePieces(Pieces(s, d), s, d) && AreApart(Pieces(s, d), |s|)
    decreases |s|
  {
    hide Trim, Pieces, Kept, IndexOf;
    var i := IndexOf(s, d);
    TrimWithin(s[..i]);
    assert d !in s[..i];
    if i < |s| {
      PiecesFirst(s, d, i);
      PiecesWithin(s[i + 1..], d);
      PiecesJoinWithin(Trim(s[..i]), Pieces(s[i + 1..], d), s, i, d);
    } else {
      PieceLast(s, 0, d);
      assert s[0..] == s == s[..i];
      KeptIsPieces(Trim(s), s, d);
    }
  }

  lemma UnquoteWithin(s: string)
    ensures Within(UnquoteCopy(s), s)
  {
  }

  lemma DispositionParamBounds(kv: string)
    requires DispositionParam(kv).Some?
    ensures var (k, v) := DispositionParam(kv).value;
      Within(v, kv) && '=' !in v && (v != "" ==> |k| + 1 + |v| <= |kv|)
  {
    hide Pieces, UnquoteCopy;
    var ps := Pieces(kv, '=');
    PiecesWithin(kv, '=');
    UnquoteWithin(ps[0]);
    UnquoteWithin(ps[|ps| - 1]);
    UnquoteWithin("");
    assert ps[|ps| - 1] in ps;
  }

  lemma {:induction false} ParamFromPiece(pieces: seq<string>, seen: set<string>, p: (string, string))
    returns (kv: string)
    requires p in DispositionParamsOf(pieces, seen)
    ensures kv in pieces && DispositionParam(kv) == Some(p)
    decreases |pieces|
  {
    hide DispositionParam;
    kv := pieces[0];
    if pieces[0] in seen {
      kv := ParamFromPiece(pieces[1..], seen, p);
    } else if DispositionParam(kv) != Some(p) {
      kv := ParamFromPiece(pieces[1..], seen + {pieces[0]}, p);
    }
  }

  lemma ParamBounds(s: string, seen: set<string>, p: (string, string))
    requires p in DispositionParamsOf(Pieces(s, ';'), seen)
    ensures Within(p.1, s) && ';' !in p.1 && '=' !in p.1 && (p.1 != "" ==> |p.0| + 1 + |p.1| <= |s|)
  {
    hide Pieces, DispositionParamsOf, DispositionParam;
    var kv := ParamFromPiece(Pieces(s, ';'), seen, p);
    PiecesWithin(s, ';');
    DispositionParamBounds(kv);
  }

  lemma {:induction false} LookupIsIn(params: seq<(string, string)>, key: string)
    ensures Lookup(params, key).Some? ==> (key, Lookup(params, key).value) in params
  {
    if params != [] && params[0].0 != key { LookupIsIn(params[1..], key); }
  }

  lemma HeaderTextWithin(a: string, b: string)
    requires Within(a, b) && HeaderText(b)
    ensures HeaderText(a)
  {
    forall i | 0 <= i < |a| ensures IsSpaceOrTab(a[i]) || IsFieldVchar(a[i]) { assert a[i] in b; }
  }

  // A line that passes for a header is header text all over.
  lemma ParsedIsHeaderText(line: string)
    requires ParseHeader(line).Some?
    ensures HeaderText(line)
  {
    var t := TrimRight(line);
    TrimRightWithin(line);
    var p := IndexOf(t, ':');
    var val := TrimLeft(t[p + 1..]);
    TrimmedOffIsBlank(t[p + 1..]);
    hide TrimRight, TrimLeft, IndexOf;
    forall i | 0 <= i < |line| ensures IsSpaceOrTab(line[i]) || IsFieldVchar(line[i]) {
      if i < p {
        assert t[..p][i] == line[i];
      } else if p < i < |t| {
        assert t[p + 1..][i - p - 1] == line[i];
      }
    }
  }

  lemma {:induction false} TrimmedOffIsBlank(s: string)
    requires IsFieldValue(TrimLeft(s))
    ensures HeaderText(s)
    decreases |s|
  {
    if s != "" && IsSpaceOrTab(s[0]) {
      TrimmedOffIsBlank(s[1..]);
      assert forall i :: 0 < i < |s| ==> s[i] == s[1..][i - 1];
    }
  }

  lemma {:induction false} SkipSpaceWithin(s: string)
    ensures Within(SkipSpace(s), s)
    decreases |s|
  {
    if s != "" && IsRegexSpace(s[0]) { SkipSpaceWithin(s[1..]); }
  }

  lemma DispositionWithin(line: string)
    requires Disposition(line).Some?
    ensures Within(Disposition(line).value, line) && |Disposition(line).value| + 30 <= |line|
  {
    assert |"Content-Disposition:"| == 20 && |"form-data;"| == 10;
    var s, rest := SkipSpace(line[20..]), Disposition(line).value;
    SkipSpaceWithin(line[20..]);
    SkipSpaceWithin(s[10..]);
    hide SkipSpace;
    SliceWithin(line, 20, |line|);
    SliceWithin(s, 10, |s|);
    WithinTrans(rest, s[10..], s);
    WithinTrans(rest, s, line[20..]);
    WithinTrans(rest, line[20..], line);
  }

  lemma PlainIf(s: string)
    requires HeaderText(s) && ';' !in s && '=' !in s
    ensures PlainText(s)
  {
  }

  lemma FieldValueIf(s: string)
    requires HeaderText(s) && Trimmed(s)
    ensures IsFieldValue(s)
  {
  }

  ghost predicate IsClean(file: FormData) {
    PlainText(file.name) && IsFieldValue(file.contentType)
  }

  lemma LookedUpIsPlain(line: string, key: string)
    requires ParseHeader(line).Some? && Disposition(line).Some?
    ensures var found := Lookup(DispositionParams(Disposition(line).value), key);
      found.Some? ==> PlainText(found.value)
  {
    hide ParseHeader, Disposition, DispositionParamsOf, Pieces, PlainText, HeaderText;
    var rest := Disposition(line).value;
    var found := Lookup(DispositionParams(rest), key);
    LookupIsIn(DispositionParams(rest), key);
    if found.Some? {
      ParsedIsHeaderText(line);
      DispositionWithin(line);
      ParamBounds(rest, {}, (key, found.value));
      HeaderTextWithin(rest, line);
      HeaderTextWithin(found.value, rest);
      PlainIf(found.value);
    }
  }

  // Whatever the lines are, no part gets a name or a content type that is not plain.
  lemma HeaderLineIsClean(file: FormData, line: string)
    requires IsClean(file)
    ensures IsClean(HeaderLine(file, line).0)
  {
    hide ParseHeader, Disposition, DispositionParams, PlainText, IsFieldValue, StartsCI, HeaderText, Lookup,
      ExtendedValue;
    if ParseHeader(line).Some? {
      if StartsCI(line, "Content-Type:") {
        ContentTypeIsClean(line);
      } else if Disposition(line).Some? {
        LookedUpIsPlain(line, "name");
      }
    }
  }

  lemma ContentTypeIsClean(line: string)
    requires ParseHeader(line).Some? && StartsCI(line, "Content-Type:")
    ensures |line| >= 13 && IsFieldValue(Trim(line[13..]))
  {
    assert |"Content-Type:"| == 13;
    ParsedIsHeaderText(line);
    TrimWithin(line[13..]);
    hide Trim, ParseHeader;
    HeaderTextWithin(Trim(line[13..]), line);
    FieldValueIf(Trim(line[13..]));
  }

  lemma DecodedIsNotLonger(s: string)
    ensures |Q.Decoded(s, false)| <= |s|
  {
    Q.DecodedUnchangedIff(s, false);
    WeightIsLength(s);
    WeightIsLength(Q.Decoded(s, false));
  }

  lemma {:induction false} WeightIsLength(s: string)
    ensures Q.Weight(s, false) == |s|
  {
    if s != "" { WeightIsLength(s[1..]); }
  }

  // A file name that is not plain stems from an earlier line or from a longer extended parameter.
  ghost predicate IsExtended(filename: string, line: string) {
    Disposition(line).Some? &&
    exists v :: ("filename*", v) in DispositionParams(Disposition(line).value) && |filename| + 7 <= |v|
  }

  lemma FileNameCases(file: FormData, line: string)
    ensures var f := HeaderLine(file, line).0.filename;
      f == file.filename || PlainText(f) || IsExtended(f, line)
  {
    hide ParseHeader, Disposition, DispositionParams, PlainText, StartsCI, Lookup;
    if ParseHeader(line).Some? && !StartsCI(line, "Content-Type:") && Disposition(line).Some? {
      var params := DispositionParams(Disposition(line).value);
      LookedUpIsPlain(line, "filename");
      LookupIsIn(params, "filename*");
      var found := Lookup(params, "filename*");
      if found.Some? && ExtendedValue(found.value).Some? {
        DecodedIsNotLonger(ExtendedValue(found.value).value);
      }
    }
  }

  // ---- one disposition line ----

  // The line up to the opening quote of the file name.
  function LineStart(name: string): string {
    DISPOSITION + ": " + ("form-data; " + ("name=\"" + name + "\"; filename=\""))
  }

  lemma ParamsOfStart(name: string, end: string)
    requires PlainText(name)
    ensures var first, others := "name=\"" + name + "\"", " filename=\"" + end;
      DispositionParams(first + [';'] + others) == [("name", name)] + DispositionParamsOf(Pieces(others, ';'), {first})
  {
    hide Pieces, PlainText, DispositionParam, DispositionParamsOf;
    var first, others := "name" + "=\"" + name + "\"", " filename=\"" + end;
    assert first == "name=\"" + name + "\"";
    QuotedParam("name", name);
    PlainHasNoSemicolon(name);
    NoCharIn("name", name, ';');
    PiecesCons(first, ';', others);
    FirstOfPieces(first, Pieces(others, ';'));
  }

  // An extended parameter in what follows is shorter than it.
  lemma ExtendedIsShort(name: string, end: string, filename: string)
    requires PlainText(name) && IsExtended(filename, LineStart(name) + end)
    ensures |filename| < |end| - 1
  {
    hide Pieces, PlainText, DispositionParamsOf, IsExtended, Disposition;
    var first, others := "name=\"" + name + "\"", " filename=\"" + end;
    var params := first + [';'] + others;
    assert LineStart(name) + end == DISPOSITION + ": " + ("form-data; " + params);
    assert params[0] == 'n';
    DispositionExtracts(params);
    ParamsOfStart(name, end);
    assert |" filename=\""| == 11 && |"filename*"| == 9 && |"name"| == 4;
    var v := ExtendedParam(filename, LineStart(name) + end);
    assert ("filename*", v) in DispositionParams(params) && ("filename*", v) != ("name", name);
    ParamBounds(others, {first}, ("filename*", v));
  }

  lemma ExtendedParam(filename: string, line: string) returns (v: string)
    requires IsExtended(filename, line)
    ensures Disposition(line).Some? && ("filename*", v) in DispositionParams(Disposition(line).value)
    ensures |filename| + 7 <= |v|
  {
    hide Disposition, DispositionParams;
    v :| ("filename*", v) in DispositionParams(Disposition(line).value) && |filename| + 7 <= |v|;
  }

  lemma FirstOfPieces(first: string, others: seq<string>)
    requires DispositionParam(first).Some?
    ensures DispositionParamsOf([first] + others, {})
         == [DispositionParam(first).value] + DispositionParamsOf(others, {first})
  {
    hide DispositionParam;
    var all, seen: set<string> := [first] + others, {};
    assert all[0] == first && all[1..] == others && seen + {first} == {first};
  }

  // A file name other than the one it had is plain or too short to be what stands between the quotes.
  lemma FirstLineFileName(name: string, end: string)
    requires PlainText(name)
    ensures var f := HeaderLine(NO_FILE, LineStart(name) + end).0.filename;
      PlainText(f) || |f| < |end| - 1
  {
    var line := LineStart(name) + end;
    hide HeaderLine, IsExtended, LineStart;
    FileNameCases(NO_FILE, line);
    var f := HeaderLine(NO_FILE, line).0.filename;
    if IsExtended(f, line) { ExtendedIsShort(name, end, f); }
  }

  lemma WholeLine(item: Item)
    ensures item.filename != "" ==> DispositionLine(item) == LineStart(item.name) + (item.filename + "\"")
  {
    LineSplits(item);
  }

  // A disposition line gives the name and the file name back exactly when both are plain.
  lemma DispositionIff(item: Item)
    ensures var (file, ok) := HeaderLine(NO_FILE, DispositionLine(item));
      (ok && file.name == item.name && file.filename == item.filename)
      <==> PlainText(item.name) && PlainText(item.filename)
  {
    hide HeaderLine, DispositionLine, LineStart, PlainText;
    PlainEmpty();
    HeaderLineIsClean(NO_FILE, DispositionLine(item));
    if PlainText(item.name) && PlainText(item.filename) { DispositionHeaderLine(item); }
    if PlainText(item.name) && item.filename != "" {
      FirstLineFileName(item.name, item.filename + "\"");
      WholeLine(item);
    }
  }

  lemma PlainEmpty()
    ensures PlainText("") && IsClean(NO_FILE)
  {
  }

  // A name with a quote and a semicolon in it gives a part without a file name one.
  lemma SmuggledFileName(name: string, filename: string, item: Item)
    requires PlainText(name) && PlainText(filename) && filename != ""
    requires item.name == name + "\"; filename=\"" + filename && item.filename == ""
    ensures var (file, ok) := HeaderLine(NO_FILE, DispositionLine(item));
      ok && file.name == name && file.filename == filename
  {
    hide HeaderLine, PlainText;
    var other := item.(name := name, filename := filename);
    assert DispositionLine(item) == DispositionLine(other);
    DispositionHeaderLine(other);
  }

  // ---- what a round adds stays ----

  // Parts keep their headers, and their contents but for the last one's while it is being received.
  ghost predicate Keeps(before: seq<Part>, after: seq<Part>, open: bool) {
    |before| <= |after| && forall i :: 0 <= i < |before| ==>
      && after[i].file == before[i].file
      && (i < |before| - 1 || !open ==> after[i].content == before[i].content)
  }

  lemma {:induction false} HeadersAdd(cfg: Config, m: Machine)
    ensures var r := Headers(cfg, m);
      || r.m.parts == m.parts + [Part(r.m.file, "")]
      || (r.Return? && r.m.parts == m.parts)
    ensures IsClean(m.file) ==> IsClean(Headers(cfg, m).m.file)
    decreases |m.buf|
  {
    hide HeaderLine, Find, StartsAt, Headers, IsClean;
    HeadersUnfold(cfg, m);
    var pos := Find(m.buf, CRLF);
    if 0 < pos < |m.buf| {
      FoundFits(m.buf, CRLF);
      if IsClean(m.file) { HeaderLineIsClean(m.file, m.buf[..pos]); }
      HeadersAdd(cfg, Skip(m, pos + 2).(file := HeaderLine(m.file, m.buf[..pos]).0));
    }
  }

  lemma StepKeeps(cfg: Config, m: Machine)
    requires m.buf != ""
    ensures var m' := Step(cfg, m).m;
      Keeps(m.parts, m'.parts, m.state == 3) &&
      (Step(cfg, m).Next? && m'.state == 3 ==> |m'.parts| > |m.parts|)
  {
    hide Find, StartsAt, Headers;
    HeadersAdd(cfg, m);
    HeadersConsume(cfg, m);
  }

  lemma {:induction false} DriveKeeps(cfg: Config, m: Machine)
    ensures Keeps(m.parts, Drive(cfg, m).0.parts, m.state == 3)
    decreases |m.buf|, Rank(m)
  {
    hide Step;
    if m.buf != "" {
      StepKeeps(cfg, m);
      if Step(cfg, m).Next? {
        StepProgress(cfg, m);
        DriveKeeps(cfg, Step(cfg, m).m);
      }
    }
  }

  // ---- headers that do not come back ----

  // Another part, if there is one after n, is not the item.
  ghost predicate IsOther(parts: seq<Part>, n: nat, item: Item) {
    |parts| > n ==> !IsItem(parts[n], item)
  }

  // From the header lines of a part on.
  lemma WrongFileShows(cfg: Config, m: Machine, item: Item)
    requires m.state == 2 && m.buf != "" && !IsHeader(Headers(cfg, m).m.file, item)
    ensures IsOther(Drive(cfg, m).0.parts, |m.parts|, item)
  {
    hide Find, StartsAt, Headers;
    HeadersAdd(cfg, m);
    HeadersConsume(cfg, m);
    StepProgress(cfg, m);
    if Step(cfg, m).Next? {
      DriveKeeps(cfg, Step(cfg, m).m);
      assert Step(cfg, m).m.parts[|m.parts|].file == Headers(cfg, m).m.file;
    }
  }

  ghost predicate IsShort(filename: string, n: nat) {
    PlainText(filename) || |filename| < n
  }

  lemma LaterLineFileName(file: FormData, line: string, n: nat)
    requires IsShort(file.filename, n) && |line| <= n + 1
    ensures IsShort(HeaderLine(file, line).0.filename, n)
  {
    hide HeaderLine, IsExtended, PlainText;
    FileNameCases(file, line);
    var f := HeaderLine(file, line).0.filename;
    if IsExtended(f, line) {
      var v := ExtendedParam(f, line);
      DispositionWithin(line);
      hide Pieces, DispositionParamsOf;
      ParamBounds(Disposition(line).value, {}, ("filename*", v));
    }
  }

  lemma TypesKeepFileName(cfg: Config, m: Machine, item: Item, rest: string)
    requires AcceptsAll(cfg) && IsFieldValue(item.contentType) && m.buf == TypeBlock(item, rest)
    ensures Headers(cfg, m).m.file.filename == m.file.filename
  {
    hide Headers, HeaderLine, TypeLine, ShortLines;
    if item.contentType != "" {
      TypeHeaderLine(m.file, item);
      TypeHasNoReturn(item);
      LineNotEmpty(item);
      HeadersOnLine(cfg, m, TypeLine(item), CRLF + rest);
      var m' := m.(buf := CRLF + rest, file := HeaderLine(m.file, TypeLine(item)).0);
      HeadersOnEmptyLine(cfg, m', rest);
    } else {
      HeadersOnEmptyLine(cfg, m, rest);
    }
  }

  lemma TypeHasNoReturn(item: Item)
    requires IsFieldValue(item.contentType)
    ensures '\r' !in TypeLine(item)
  {
    HeaderTextConcat("Content-Type: ", item.contentType);
    HeaderTextHasNoReturn(TypeLine(item));
  }

  lemma FindPast(start: string, s: string)
    requires '\r' !in start
    ensures Find(start + s, CRLF) == |start| + Find(s, CRLF)
  {
    var all, r := start + s, |start| + Find(s, CRLF);
    forall i | 0 <= i < r ensures !StartsAt(all, i, CRLF) {
      if i < |start| {
        assert all[i] == start[i] && (i + 2 <= |all| ==> all[i..i + 2][0] == all[i]);
      } else {
        assert !StartsAt(s, i - |start|, CRLF);
        assert i + 2 <= |all| ==> all[i..i + 2] == s[i - |start|..i - |start| + 2];
      }
    }
    if r < |all| { assert all[r..r + 2] == s[r - |start|..r - |start| + 2]; }
    FindIs(all, CRLF, r);
  }

  // The first line end after a text that cannot end in the middle of one.
  lemma FindInQuoted(text: string, rest: string)
    requires text != "" && text[|text| - 1] == '"'
    ensures Find(text + CRLF + rest, CRLF) == Find(text, CRLF)
    ensures Find(text, CRLF) < |text| ==> Find(text, CRLF) + 2 < |text|
  {
    var k, s := Find(text, CRLF), text + CRLF + rest;
    forall i | 0 <= i < k ensures !StartsAt(s, i, CRLF) {
      assert !StartsAt(text, i, CRLF);
      assert s[i..i + 2][0] == text[i] && (i + 2 <= |text| ==> s[i..i + 2] == text[i..i + 2]);
    }
    if k < |text| {
      assert text[k..k + 2] == CRLF && s[k..k + 2] == text[k..k + 2];
      assert text[k..k + 2][1] == text[k + 1] == CRLF[1];
    } else {
      assert s[k..k + 2] == CRLF;
    }
    FindIs(s, CRLF, k);
  }

  // The text between the quotes of a file name, cut into lines at the line ends in it.
  lemma {:induction false} BlockFileName(cfg: Config, m: Machine, start: string, text: string, item: Item, rest: string)
    requires AcceptsAll(cfg) && PlainText(item.name) && IsFieldValue(item.contentType)
    requires start == "" || (start == LineStart(item.name) && m.file == NO_FILE)
    requires m.buf == start + (text + CRLF + TypeBlock(item, rest))
    requires text != "" && text[|text| - 1] == '"' && |text| <= |item.filename| + 1
    requires IsShort(m.file.filename, |item.filename|)
    ensures IsShort(Headers(cfg, m).m.file.filename, |item.filename|)
    decreases |text|
  {
    hide Find, StartsAt, Headers, HeaderLine, TypeBlock, PlainText, LineStart, IsShort;
    var n, k, types := |item.filename|, Find(text, CRLF), TypeBlock(item, rest);
    LineStartHasNoReturn(item.name);
    FindPast(start, text + CRLF + types);
    FindInQuoted(text, types);
    FileAfterLine(cfg, m);
    var line := start + text[..k];
    CutLine(start, text, types, k);
    if line != "" {
      var m' := m.(buf := m.buf[|line| + 2..], file := HeaderLine(m.file, line).0);
      BlockLineFileName(m.file, start, text[..k], item);
      if k < |text| {
        Nothing(text[k + 2..] + CRLF + types);
        QuoteStays(text, k);
        BlockFileName(cfg, m', "", text[k + 2..], item, rest);
      } else {
        assert m'.buf == types;
        TypesKeepFileName(cfg, m', item, rest);
      }
    }
  }

  lemma QuoteStays(text: string, k: nat)
    requires text != "" && text[|text| - 1] == '"' && k + 2 < |text|
    ensures text[k + 2..] != "" && text[k + 2..][|text[k + 2..]| - 1] == '"'
  {
  }

  // What is known of the part after one line.
  lemma FileAfterLine(cfg: Config, m: Machine)
    requires AcceptsAll(cfg) && Find(m.buf, CRLF) < |m.buf|
    ensures var pos := Find(m.buf, CRLF);
      pos + 2 <= |m.buf| && Headers(cfg, m).m.file ==
        if pos == 0 then m.file
        else
          var (file, ok) := HeaderLine(m.file, m.buf[..pos]);
          if ok then Headers(cfg, m.(buf := m.buf[pos + 2..], file := file)).m.file else file
  {
    hide Find, StartsAt, Headers, HeaderLine;
    HeadersUnfold(cfg, m);
    FoundFits(m.buf, CRLF);
  }

  lemma CutLine(start: string, text: string, types: string, k: nat)
    requires k <= |text|
    ensures var buf := start + (text + CRLF + types);
      && buf[..|start| + k] == start + text[..k]
      && (k + 2 < |text| ==> buf[|start| + k + 2..] == text[k + 2..] + CRLF + types)
      && (k == |text| ==> buf[|start| + k + 2..] == types)
  {
  }

  lemma LineStartHasNoReturn(name: string)
    requires PlainText(name)
    ensures '\r' !in LineStart(name)
  {
    var before, after := "name=\"", "\"; filename=\"";
    HeaderTextConcat(before, name);
    HeaderTextConcat(before + name, after);
    HeaderTextConcat("form-data; ", before + name + after);
    HeaderTextConcat(DISPOSITION + ": ", "form-data; " + (before + name + after));
    HeaderTextHasNoReturn(LineStart(name));
  }

  lemma BlockLineFileName(file: FormData, start: string, text: string, item: Item)
    requires PlainText(item.name) && |text| <= |item.filename| + 1 && IsShort(file.filename, |item.filename|)
    requires start == "" || (start == LineStart(item.name) && file == NO_FILE)
    ensures IsShort(HeaderLine(file, start + text).0.filename, |item.filename|)
  {
    hide HeaderLine, PlainText, LineStart;
    if start == "" {
      assert start + text == text;
      LaterLineFileName(file, text, |item.filename|);
    } else {
      FirstLineFileName(item.name, text);
    }
  }

  lemma BadHeaderIsRead(cfg: Config, m: Machine, item: Item, rest: string)
    requires AcceptsAll(cfg) && m.file == NO_FILE && m.buf == HeaderBlock(item) + rest
    requires !(PlainText(item.name) && PlainText(item.filename) && IsFieldValue(item.contentType))
    ensures !IsHeader(Headers(cfg, m).m.file, item)
  {
    hide Headers, PlainText, IsFieldValue, HeaderBlock, TypeBlock;
    PlainEmpty();
    HeadersAdd(cfg, m);
    if PlainText(item.name) && IsFieldValue(item.contentType) {
      HeaderBlockSplits(item, rest);
      WholeLine(item);
      hide DispositionLine, LineStart;
      var text := item.filename + "\"";
      assert m.buf == LineStart(item.name) + (text + CRLF + TypeBlock(item, rest));
      BlockFileName(cfg, m, LineStart(item.name), text, item, rest);
    }
  }

  // A machine that expects a part.
  ghost predicate IsAtPart(m: Machine) {
    m.state == 1 && m.buf == ""
  }

  // The calls fail, or the part they see first is not the item.
  ghost predicate Differs(cfg: Config, m: Machine, pieces: seq<string>, item: Item) {
    var (m', ok) := DriveAll(cfg, m, pieces);
    ok ==> IsOther(m'.parts, |m.parts|, item)
  }

  lemma BadHeaderShows(cfg: Config, m: Machine, item: Item, rest: string)
    requires AcceptsAll(cfg) && IsAtPart(m)
    requires !(PlainText(item.name) && PlainText(item.filename) && IsFieldValue(item.contentType))
    ensures Differs(cfg, m, [HeaderBlock(item) + rest], item)
  {
    hide Drive, Headers, PlainText, HeaderBlock;
    var m2 := m.(file := NO_FILE, state := 2);
    HeaderBlockNotEmpty(item);
    NewEntry(cfg, m, [HeaderBlock(item) + rest]);
    OnePiece(cfg, m2, HeaderBlock(item) + rest);
    BadHeaderIsRead(cfg, Feed(m2, HeaderBlock(item) + rest), item, rest);
    WrongFileShows(cfg, Feed(m2, HeaderBlock(item) + rest), item);
  }

  // ---- header lines that are too long ----

  lemma LongLineShows(cfg: Config, m: Machine, item: Item, rest: string) returns (pieces: seq<string>)
    requires AcceptsAll(cfg) && IsAtPart(m) && !PlainHeader(item)
    requires PlainText(item.name) && PlainText(item.filename) && IsFieldValue(item.contentType)
    ensures Concat(pieces) == HeaderBlock(item) + rest && pieces != []
    ensures !DriveAll(cfg, m, pieces).1
  {
    hide Drive, Headers, PlainText, HeaderBlock, DispositionLine, TypeLine, Find, TypeBlock, HeaderLine;
    var m2, line, types := m.(file := NO_FILE, state := 2), DispositionLine(item), TypeBlock(item, rest);
    HeaderBlockSplits(item, rest);
    PlainIsHeaderText(item);
    LinesHaveNoReturn(item);
    FindLine(line, types);
    LineNotEmpty(item);
    if |line| >= HEADER_MAX_LENGTH {
      pieces := TooLongShows(cfg, m2, HeaderBlock(item) + rest);
    } else {
      DispositionHeaderLine(item);
      var lines := line + CRLF + types;
      assert lines[..|line|] == line && lines[..|line| + 2] == line + CRLF;
      GoodLineIsRead(cfg, m2, lines);
      LongTypeLine(item, rest);
      var more := TooLongShows(cfg, m2.(file := HeaderLine(NO_FILE, line).0), types);
      pieces := [line + CRLF] + more;
      assert pieces[1..] == more;
    }
    NewEntry(cfg, m, pieces);
  }

  lemma LongTypeLine(item: Item, rest: string)
    requires IsFieldValue(item.contentType) && |TypeLine(item)| >= HEADER_MAX_LENGTH
    ensures |TypeBlock(item, rest)| > HEADER_MAX_LENGTH && Find(TypeBlock(item, rest), CRLF) >= HEADER_MAX_LENGTH
  {
    TypeHasNoReturn(item);
    assert |"Content-Type: "| == 14;
    FindLine(TypeLine(item), CRLF + rest);
  }

  // ---- a delimiter in the content ----

  lemma BadContentShows(cfg: Config, m: Machine, item: Item, rest: string)
    requires AcceptsAll(cfg) && PlainHeader(item) && Find(item.content, cfg.CrlfDashBoundary()) < |item.content|
    requires IsAtPart(m)
    ensures Differs(cfg, m, [HeaderBlock(item) + (item.content + cfg.CrlfDashBoundary() + rest)], item)
  {
    hide Drive, Headers, PlainHeader, HeaderBlock, Find, Step, FileOf;
    var more := item.content + cfg.CrlfDashBoundary() + rest;
    var m2 := m.(file := NO_FILE, state := 2);
    HeaderBlockNotEmpty(item);
    NewEntry(cfg, m, [HeaderBlock(item) + more]);
    OnePiece(cfg, m2, HeaderBlock(item) + more);
    var fed := Feed(m2, HeaderBlock(item) + more);
    HeaderBlockParses(cfg, fed, item, more);
    DriveNext(cfg, fed);
    CutContent(cfg, Step(cfg, fed).m, item, rest);
  }

  lemma CutContent(cfg: Config, m: Machine, item: Item, rest: string)
    requires AcceptsAll(cfg) && Find(item.content, cfg.CrlfDashBoundary()) < |item.content|
    requires m.state == 3 && m.parts != [] && m.parts[|m.parts| - 1].content == ""
    requires m.buf == item.content + cfg.CrlfDashBoundary() + rest
    ensures IsOther(Drive(cfg, m).0.parts, |m.parts| - 1, item)
  {
    hide Find, Drive, Step;
    var d := cfg.CrlfDashBoundary();
    FindFound(item.content, d + rest, d);
    Assoc(item.content, d, rest);
    FoundIsDelivered(cfg, m);
    DriveNext(cfg, m);
    DriveKeeps(cfg, Step(cfg, m).m);
  }

  lemma FoundIsDelivered(cfg: Config, m: Machine)
    requires AcceptsAll(cfg) && m.state == 3 && Find(m.buf, cfg.CrlfDashBoundary()) < |m.buf|
    requires m.parts != [] && m.parts[|m.parts| - 1].content == ""
    ensures Step(cfg, m).Next? && Step(cfg, m).m.state == 4 && |Step(cfg, m).m.parts| == |m.parts|
    ensures |Step(cfg, m).m.parts[|m.parts| - 1].content| == Find(m.buf, cfg.CrlfDashBoundary())
  {
    hide Find;
    FoundFits(m.buf, cfg.CrlfDashBoundary());
  }

  // ---- the whole body ----

  // The calls succeed, and the parts they add are the items.
  ghost predicate ComeBack(cfg: Config, m: Machine, pieces: seq<string>, items: seq<Item>) {
    var (m', ok) := DriveAll(cfg, m, pieces);
    ok && m'.valid && |m.parts| <= |m'.parts| && AreItems(m'.parts[|m.parts|..], items)
  }

  lemma OtherIsNoItem(cfg: Config, m: Machine, pieces: seq<string>, items: seq<Item>)
    requires items != [] && Differs(cfg, m, pieces, items[0])
    ensures !ComeBack(cfg, m, pieces, items)
  {
    hide DriveAll, IsItem;
  }

  // An item that is not plain, the first of them: a cut under which it does not come back.
  lemma FirstDiffers(cfg: Config, m: Machine, item: Item, rest: string) returns (pieces: seq<string>)
    requires AcceptsAll(cfg) && IsAtPart(m) && !PlainItem(item, cfg.boundary)
    ensures Concat(pieces) == HeaderBlock(item) + (item.content + cfg.CrlfDashBoundary() + rest) && pieces != []
    ensures Differs(cfg, m, pieces, item)
  {
    hide DriveAll, HeaderBlock, PlainText, IsFieldValue, Find;
    var more := item.content + cfg.CrlfDashBoundary() + rest;
    pieces := [HeaderBlock(item) + more];
    OnePiece(cfg, m, HeaderBlock(item) + more);
    if !(PlainText(item.name) && PlainText(item.filename) && IsFieldValue(item.contentType)) {
      BadHeaderShows(cfg, m, item, more);
    } else if !PlainHeader(item) {
      pieces := LongLineShows(cfg, m, item, more);
    } else {
      BadContentShows(cfg, m, item, rest);
    }
  }

  // A plain item and the delimiter after it take the machine to the next part.
  lemma PlainIsRead(cfg: Config, m: Machine, item: Item, rest: string)
    requires AcceptsAll(cfg) && BoundaryCharsValid(cfg.boundary) && PlainItem(item, cfg.boundary) && IsAtPart(m)
    ensures var text := HeaderBlock(item) + (item.content + cfg.CrlfDashBoundary() + (CRLF + rest));
      var m' := m.(file := FileOf(item), parts := m.parts + [Part(FileOf(item), item.content)]);
      Drive(cfg, Feed(m, text)) == Drive(cfg, Feed(m', rest)) && IsItem(m'.parts[|m.parts|], item)
  {
    hide Drive, HeaderBlock, PlainItem, Find, FileOf, Regular, ShortLines, Step, Closes;
    var text := HeaderBlock(item) + (item.content + cfg.CrlfDashBoundary() + (CRLF + rest));
    Nothing(text);
    Nothing(rest);
    PartParses(cfg, Feed(m, text), item, CRLF + rest);
    var parts := m.parts + [Part(FileOf(item), item.content)];
    var m4 := m.(file := FileOf(item), parts := parts, buf := CRLF + rest, state := 4);
    NextBoundaryParses(cfg, m4, rest);
    DriveNext(cfg, m4);
  }

  lemma LaterDiffers(cfg: Config, m: Machine, items: seq<Item>, pieces: seq<string>, m': Machine, more: seq<string>)
    requires items != [] && |m'.parts| == |m.parts| + 1
    requires DriveAll(cfg, m, pieces) == DriveAll(cfg, m', more) && !ComeBack(cfg, m', more, items[1..])
    ensures !ComeBack(cfg, m, pieces, items)
  {
    hide DriveAll, IsItem;
    var n, parts := |m.parts|, DriveAll(cfg, m, pieces).0.parts;
    if n < |parts| { assert parts[n..][1..] == parts[n + 1..]; }
    assert forall i :: 0 <= i < |items| - 1 ==> items[1..][i] == items[i + 1];
  }

  lemma MorePieces(cfg: Config, m: Machine, before: string, m': Machine, pieces: seq<string>)
    requires pieces != [] && Drive(cfg, Feed(m, before + pieces[0])) == Drive(cfg, Feed(m', pieces[0]))
    ensures DriveAll(cfg, m, [before + pieces[0]] + pieces[1..]) == DriveAll(cfg, m', pieces)
    ensures Concat([before + pieces[0]] + pieces[1..]) == before + Concat(pieces)
  {
    hide Drive;
    var all := [before + pieces[0]] + pieces[1..];
    assert all[1..] == pieces[1..];
    Assoc(before, pieces[0], Concat(pieces[1..]));
  }

  lemma {:induction false} NotPlainShows(cfg: Config, m: Machine, items: seq<Item>) returns (pieces: seq<string>)
    requires AcceptsAll(cfg) && BoundaryCharsValid(cfg.boundary) && IsAtPart(m) && items != []
    requires exists i :: 0 <= i < |items| && !PlainItem(items[i], cfg.boundary)
    ensures Concat(pieces) == Tail(items, cfg.boundary) && pieces != []
    ensures !ComeBack(cfg, m, pieces, items)
    decreases |items|
  {
    hide Tail, PlainItem, HeaderBlock, DriveAll, Drive, ComeBack, Differs, FileOf, IsItem;
    var item, d := items[0], cfg.CrlfDashBoundary();
    TailUnfold(items, cfg.boundary);
    if !PlainItem(item, cfg.boundary) {
      pieces := FirstDiffers(cfg, m, item, if |items| == 1 then DASH + CRLF else CRLF + Tail(items[1..], cfg.boundary));
      OtherIsNoItem(cfg, m, pieces, items);
    } else {
      var i :| 0 <= i < |items| && !PlainItem(items[i], cfg.boundary);
      assert items[1..][i - 1] == items[i];
      var m' := m.(file := FileOf(item), parts := m.parts + [Part(FileOf(item), item.content)]);
      var more := NotPlainShows(cfg, m', items[1..]);
      PlainIsRead(cfg, m, item, more[0]);
      var before := HeaderBlock(item) + (item.content + d) + CRLF;
      Regroup(HeaderBlock(item), item.content + d, CRLF, more[0]);
      Regroup(HeaderBlock(item), item.content + d, CRLF, Concat(more));
      MorePieces(cfg, m, before, m', more);
      pieces := [before + more[0]] + more[1..];
      LaterDiffers(cfg, m, items, pieces, m', more);
    }
  }

  // Without items only the closing boundary is written, and that is not read as a body.
  lemma NoItemsIsInvalid(cfg: Config)
    ensures !Drive(cfg, Initial().(buf := Serialized([], cfg.boundary, true))).0.valid
  {
    hide Find, StartsAt;
    var m := Initial().(buf := Serialized([], cfg.boundary, true));
    if Step(cfg, m).Next? {
      var m1 := Step(cfg, m).m;
      FoundFits(m.buf, cfg.DashBoundaryCrlf());
      StepProgress(cfg, m);
      LittleIsInvalid(cfg, m1);
    }
  }

  lemma LittleIsInvalid(cfg: Config, m: Machine)
    requires m.state == 1 && |m.buf| <= 2 && !m.valid
    ensures !Drive(cfg, m).0.valid
  {
    hide Find, StartsAt, Headers;
    var m2 := m.(file := NO_FILE, state := 2);
    if m.buf != "" {
      StepProgress(cfg, m);
      assert Drive(cfg, m) == Drive(cfg, m2);
      HeadersUnfold(cfg, m2);
      if Find(m2.buf, CRLF) < |m2.buf| { FoundFits(m2.buf, CRLF); }
      assert !Step(cfg, m2).m.valid && (Step(cfg, m2).Next? ==> Step(cfg, m2).m.buf == "");
      DriveEnds(cfg, m2);
    }
  }

  lemma DriveEnds(cfg: Config, m: Machine)
    requires m.buf != "" && (Step(cfg, m).Next? ==> Step(cfg, m).m.buf == "")
    ensures Drive(cfg, m).0 == Step(cfg, m).m
  {
    hide Step;
    StepProgress(cfg, m);
  }

  // The items come back under every cutting of the body exactly when there is at least one and
  // every one is plain.
  lemma MultipartRoundTripIff(cfg: Config, items: seq<Item>)
    requires AcceptsAll(cfg) && BoundaryCharsValid(cfg.boundary)
    ensures (forall pieces :: Concat(pieces) == Serialized(items, cfg.boundary, true) ==>
               ComeBack(cfg, Initial(), pieces, items))
       <==> items != [] && forall i :: 0 <= i < |items| ==> PlainItem(items[i], cfg.boundary)
  {
    hide DriveAll, Drive, Serialized, AreItems, PlainItem, ComeBack;
    if items == [] {
      var whole := Serialized(items, cfg.boundary, true);
      OnePiece(cfg, Initial(), whole);
      NoItemsIsInvalid(cfg);
      InvalidIsNot(cfg, [whole], items);
    } else if forall i :: 0 <= i < |items| ==> PlainItem(items[i], cfg.boundary) {
      forall pieces | Concat(pieces) == Serialized(items, cfg.boundary, true)
        ensures ComeBack(cfg, Initial(), pieces, items)
      {
        R.MultipartRoundTrip(cfg, items, pieces);
        ItemsAreBack(cfg, pieces, items);
      }
    } else {
      var pieces := WholeShows(cfg, items);
    }
  }

  lemma InvalidIsNot(cfg: Config, pieces: seq<string>, items: seq<Item>)
    requires !DriveAll(cfg, Initial(), pieces).0.valid
    ensures !ComeBack(cfg, Initial(), pieces, items)
  {
  }

  lemma ItemsAreBack(cfg: Config, pieces: seq<string>, items: seq<Item>)
    requires var (m, ok) := DriveAll(cfg, Initial(), pieces); ok && m.valid && AreItems(m.parts, items)
    ensures ComeBack(cfg, Initial(), pieces, items)
  {
    hide DriveAll, AreItems;
    var parts := DriveAll(cfg, Initial(), pieces).0.parts;
    assert parts[0..] == parts;
  }

  lemma WholeShows(cfg: Config, items: seq<Item>) returns (pieces: seq<string>)
    requires AcceptsAll(cfg) && BoundaryCharsValid(cfg.boundary) && items != []
    requires exists i :: 0 <= i < |items| && !PlainItem(items[i], cfg.boundary)
    ensures Concat(pieces) == Serialized(items, cfg.boundary, true) && !ComeBack(cfg, Initial(), pieces, items)
  {
    hide DriveAll, Drive, Step, AreItems, PlainItem, Serialized, Tail, Regular, ShortLines, Closes;
    var m, before := Initial().(state := 1), cfg.DashBoundaryCrlf();
    var more := NotPlainShows(cfg, m, items);
    SerializedIsTail(items, cfg.boundary);
    var first := Feed(Initial(), before + more[0]);
    Nothing(before + more[0]);
    Nothing(more[0]);
    FirstBoundaryParses(cfg, first, more[0]);
    DriveNext(cfg, first);
    MorePieces(cfg, Initial(), before, m, more);
    pieces := [before + more[0]] + more[1..];
  }
}
