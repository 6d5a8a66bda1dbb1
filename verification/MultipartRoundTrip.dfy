/**
  The multipart/form-data serializer, and the round trip: what it writes, however it is cut on the way,
  parses back to the same items (section 5.1.1 of RFC 2046, section 4 of RFC 7578).
*/
module MultipartRoundTrip {
  import opened Basics
  import opened Text
  import opened Query
  import opened MultipartHeader
  import opened HeaderLaws
  import opened MultipartMachine
  import opened MultipartSplit

  datatype Item = Item(name: string, content: string, filename: string, contentType: string)

  function DispositionLine(item: Item): string {
    "Content-Disposition: form-data; name=\"" + item.name + "\"" +
    if item.filename == "" then "" else "; filename=\"" + item.filename + "\""
  }

  function TypeLine(item: Item): string {
    "Content-Type: " + item.contentType
  }

  function ItemBegin(item: Item, boundary: string): string {
    "--" + boundary + CRLF + DispositionLine(item) + CRLF +
    (if item.contentType == "" then "" else TypeLine(item) + CRLF) + CRLF
  }

  function Finish(boundary: string): string {
    "--" + boundary + "--" + CRLF
  }

  function ItemsText(items: seq<Item>, boundary: string): string {
    if items == [] then ""
      else ItemBegin(items[0], boundary) + items[0].content + CRLF + ItemsText(items[1..], boundary)
  }

  function Serialized(items: seq<Item>, boundary: string, finish: bool): string {
    ItemsText(items, boundary) + if finish then Finish(boundary) else ""
  }

  method SerializeMultipartFormdata(items: seq<Item>, boundary: string, finish: bool) returns (body: string)
    ensures body == Serialized(items, boundary, finish)
  {
    hide ItemBegin;
    hide ItemsText;
    body := "";
    assert items[0..] == items;
    for i := 0 to |items|
      invariant body + ItemsText(items[i..], boundary) == ItemsText(items, boundary)
    {
      ItemsTextStep(items, i, boundary, body);
      body := body + ItemBegin(items[i], boundary);
      body := body + (items[i].content + CRLF);
    }
    ItemsTextEnd(boundary);
    assert items[|items|..] == [] && ItemsText(items, boundary) + "" == ItemsText(items, boundary) == body;
    if finish {
      body := body + Finish(boundary);
    }
  }

  lemma ItemsTextStep(items: seq<Item>, i: nat, boundary: string, before: string)
    requires i < |items|
    ensures before + ItemsText(items[i..], boundary)
            == before + ItemBegin(items[i], boundary) + (items[i].content + CRLF) + ItemsText(items[i + 1..], boundary)
  {
    hide ItemBegin;
    assert items[i..][1..] == items[i + 1..];
  }

  lemma ItemsTextEnd(boundary: string)
    ensures ItemsText([], boundary) == ""
  {
  }

  // is_multipart_boundary_chars_valid
  predicate BoundaryCharsValid(boundary: string) {
    forall i | 0 <= i < |boundary| :: IsAlnum(boundary[i]) || boundary[i] == '-' || boundary[i] == '_'
  }

  // Text that may stand between the quotes of a disposition parameter: header text without the
  // characters that the parameter list is cut at.
  predicate PlainText(s: string) {
    forall i | 0 <= i < |s| :: (IsSpaceOrTab(s[i]) || IsFieldVchar(s[i])) && s[i] != ';' && s[i] != '='
  }

  predicate PlainHeader(item: Item) {
    && PlainText(item.name) && PlainText(item.filename) && IsFieldValue(item.contentType)
    && |DispositionLine(item)| < HEADER_MAX_LENGTH && |TypeLine(item)| < HEADER_MAX_LENGTH
  }

  predicate PlainItem(item: Item, boundary: string) {
    PlainHeader(item) && Find(item.content, CRLF + DASH + boundary) == |item.content|
  }

  // The list of a part's header fields: the two that were written, decoded like any other.
  function Fields(item: Item): seq<(string, string)> {
    [("Content-Disposition", Decoded("form-data; " + ParamText(item), false))]
    + if item.contentType == "" then [] else [("Content-Type", Decoded(item.contentType, false))]
  }

  ghost predicate IsHeader(file: FormData, item: Item) {
    && file.name == item.name && file.filename == item.filename && file.contentType == item.contentType
    && file.headers == Fields(item)
  }

  ghost predicate IsItem(p: Part, item: Item) {
    IsHeader(p.file, item) && p.content == item.content
  }

  // ---- header lines ----

  lemma QuotedParam(key: string, val: string)
    requires key != "" && '=' !in key && Trimmed(key) && PlainText(val)
    requires key[0] != '"'
    ensures DispositionParam(key + "=\"" + val + "\"") == Some((key, val))
  {
    hide Pieces;
    var q := "\"" + val + "\"";
    assert key + "=\"" + val + "\"" == key + ['='] + q;
    forall i | 0 <= i < |q| ensures q[i] != '=' {
      if 0 < i < |q| - 1 { assert q[i] == val[i - 1]; }
    }
    PiecesOne(q, '=');
    PiecesCons(key, '=', q);
    assert q[1..|q| - 1] == val;
  }

  lemma NoCharIn(key: string, val: string, d: char)
    requires d !in key && d != '=' && d != '"' && forall i :: 0 <= i < |val| ==> val[i] != d
    ensures d !in key + "=\"" + val + "\""
  {
    var s := key + "=\"" + val + "\"";
    forall i | 0 <= i < |s| ensures s[i] != d {
      if |key| + 2 <= i < |s| - 1 { assert s[i] == val[i - |key| - 2]; }
    }
  }

  // The parameters of a serialized item, as the text after "form-data; ".
  function ParamText(item: Item): string {
    "name=\"" + item.name + "\"" + if item.filename == "" then "" else "; filename=\"" + item.filename + "\""
  }

  function ParamList(item: Item): seq<(string, string)> {
    [("name", item.name)] + if item.filename == "" then [] else [("filename", item.filename)]
  }

  lemma ParamTextParses(item: Item)
    requires PlainText(item.name) && PlainText(item.filename)
    ensures DispositionParams(ParamText(item)) == ParamList(item)
  {
    hide DispositionParam;
    hide DispositionParamsOf;
    hide Pieces;
    hide PlainText;
    var p1 := "name" + "=\"" + item.name + "\"";
    QuotedParam("name", item.name);
    PlainHasNoSemicolon(item.name);
    PlainHasNoSemicolon(item.filename);
    NoCharIn("name", item.name, ';');
    if item.filename == "" {
      assert ParamText(item) == p1;
      PiecesOne(p1, ';');
      OneParam(p1);
    } else {
      var p2 := "filename" + "=\"" + item.filename + "\"";
      QuotedParam("filename", item.filename);
      NoCharIn("filename", item.filename, ';');
      assert ParamText(item) == p1 + [';'] + (" " + p2);
      PiecesCons(p1, ';', " " + p2);
      LeadingBlank(p2);
      TwoParams(p1, p2);
      assert Pieces(ParamText(item), ';') == [p1, p2];
    }
  }

  lemma PlainHasNoSemicolon(s: string)
    requires PlainText(s)
    ensures forall i :: 0 <= i < |s| ==> s[i] != ';'
  {
  }

  lemma LeadingBlank(p: string)
    requires p != "" && Trimmed(p) && ';' !in p
    ensures Pieces(" " + p, ';') == [p]
  {
    var s := " " + p;
    assert s[1..] == p && s[0..] == s;
    forall k | 0 <= k < |s| ensures s[k] != ';' { if k > 0 { assert s[k] == p[k - 1]; } }
    PieceLast(s, 0, ';');
    TrimTrimmed(p);
  }

  lemma OneParam(p: string)
    requires DispositionParam(p).Some?
    ensures DispositionParamsOf([p], {}) == [DispositionParam(p).value]
  {
    var ps := [p];
    assert |ps[1..]| == 0;
  }

  lemma TwoParams(p: string, q: string)
    requires DispositionParam(p).Some? && DispositionParam(q).Some? && p[0] != q[0]
    requires p != "" && q != ""
    ensures DispositionParamsOf([p, q], {}) == [DispositionParam(p).value, DispositionParam(q).value]
  {
    hide DispositionParam;
    var ps, qs := [p, q], [q];
    assert ps[1..] == qs && |qs[1..]| == 0;
    var seen: set<string> := {};
    assert q !in seen + {p};
    assert DispositionParamsOf(qs, seen + {p}) == [DispositionParam(q).value];
    assert DispositionParamsOf(ps, seen) == [DispositionParam(p).value] + DispositionParamsOf(qs, seen + {p});
  }

  lemma ParamListLooksUp(file: FormData, item: Item)
    requires file.filename == ""
    ensures WithDisposition(file, ParamList(item)) == (file.(name := item.name, filename := item.filename), true)
  {
    var n, f, x := "name", "filename", "filename*";
    assert |n| == 4 && |f| == 8 && |x| == 9;
    if item.filename == "" {
      LookupOne((n, item.name), n);
      LookupOne((n, item.name), f);
      LookupOne((n, item.name), x);
    } else {
      LookupTwo((n, item.name), (f, item.filename), n);
      LookupTwo((n, item.name), (f, item.filename), f);
      LookupTwo((n, item.name), (f, item.filename), x);
    }
  }

  lemma LookupOne(p: (string, string), key: string)
    ensures Lookup([p], key) == if p.0 == key then Some(p.1) else None
  {
    var ps := [p];
    assert |ps[1..]| == 0;
  }

  lemma LookupTwo(p: (string, string), q: (string, string), key: string)
    ensures Lookup([p] + [q], key) == if p.0 == key then Some(p.1) else if q.0 == key then Some(q.1) else None
  {
    var ps, qs := [p] + [q], [q];
    assert ps[1..] == qs;
    LookupOne(q, key);
  }

  lemma ParamTextOneLine(item: Item)
    requires HeaderText(item.name) && HeaderText(item.filename)
    ensures OneLine(ParamText(item)) && HeaderText(ParamText(item))
  {
    var n := "name=\"" + item.name + "\"";
    HeaderTextConcat("name=\"", item.name);
    HeaderTextConcat("name=\"" + item.name, "\"");
    if item.filename != "" {
      var f := "; filename=\"";
      HeaderTextConcat(f, item.filename);
      HeaderTextConcat(f + item.filename, "\"");
      HeaderTextConcat(n, f + item.filename + "\"");
      assert ParamText(item) == n + (f + item.filename + "\"");
    } else {
      assert ParamText(item) == n;
    }
  }

  ghost predicate HeaderText(s: string) {
    forall i :: 0 <= i < |s| ==> IsSpaceOrTab(s[i]) || IsFieldVchar(s[i])
  }

  lemma HeaderTextConcat(a: string, b: string)
    requires HeaderText(a) && HeaderText(b)
    ensures HeaderText(a + b)
  {
  }

  const DISPOSITION := "Content-Disposition"

  lemma DispositionIsToken()
    ensures IsToken(DISPOSITION) && ':' !in DISPOSITION && |DISPOSITION| == 19
  {
  }

  lemma LineSplits(item: Item)
    ensures DispositionLine(item) == DISPOSITION + ": " + ("form-data; " + ParamText(item))
  {
  }

  lemma ParamTextShape(item: Item)
    ensures |ParamText(item)| >= 7 && ParamText(item)[0] == 'n' && ParamText(item)[|ParamText(item)| - 1] == '"'
  {
  }

  lemma SkipRegexBlank(val: string)
    requires val != "" && !IsRegexSpace(val[0])
    ensures SkipSpace(" " + val) == val
  {
    assert (" " + val)[1..] == val;
    assert SkipSpace(val) == val;
  }

  lemma StartsWithItself(b: string, rest: string)
    ensures StartsCI(b + rest, b) && (b + rest)[|b|..] == rest
  {
    assert (b + rest)[..|b|] == b;
  }

  lemma DispositionHeaderParses(item: Item)
    requires HeaderText(item.name) && HeaderText(item.filename)
    ensures ParseHeader(DispositionLine(item)) == Some(Fields(item)[0])
  {
    hide ParamText;
    var f := "form-data; ";
    LineSplits(item);
    ParamTextOneLine(item);
    ParamTextShape(item);
    DispositionIsToken();
    HeaderTextConcat(f, ParamText(item));
    BlankBefore(DISPOSITION, f + ParamText(item));
    FieldParses(DISPOSITION, " ", f + ParamText(item), "");
    NamesDiffer();
  }

  lemma NamesDiffer()
    ensures !EqualCI(DISPOSITION, "Location") && !EqualCI(DISPOSITION, "Referer")
    ensures !EqualCI("Content-Type", "Location") && !EqualCI("Content-Type", "Referer")
    ensures IsTypeKey("Content-Type") && !IsTypeKey(DISPOSITION)
  {
    var t, l, f := "Content-Type", "Location", "Referer";
    assert |DISPOSITION| == 19 && |t| == 12 && |l| == 8 && |f| == 7;
  }

  lemma DispositionExtracts(params: string)
    requires params != "" && !IsRegexSpace(params[0])
    ensures var line := DISPOSITION + ": " + ("form-data; " + params);
      && Disposition(line) == (if OneLine(params) then Some(params) else None)
      && !StartsCI(line, "Content-Type:")
  {
    hide StartsCI;
    var line := DISPOSITION + ": " + ("form-data; " + params);
    var c, f := "Content-Disposition:", "form-data;";
    assert line == c + (" " + (f + (" " + params)));
    assert |c| == 20 && |f| == 10 && line[8] == c[8];
    StartsWithItself(c, " " + (f + (" " + params)));
    SkipRegexBlank(f + (" " + params));
    StartsWithItself(f, " " + params);
    SkipRegexBlank(params);
    NotContentType(line);
  }

  lemma NotContentType(line: string)
    requires |line| > 8 && line[8] == 'D'
    ensures !StartsCI(line, "Content-Type:")
  {
    var t := "Content-Type:";
    if |t| <= |line| { assert line[..|t|][8] == 'D' && t[8] == 'T'; }
  }

  lemma DispositionHeaderLine(item: Item)
    requires PlainText(item.name) && PlainText(item.filename)
    ensures var (file, ok) := HeaderLine(NO_FILE, DispositionLine(item));
      && ok && file.name == item.name && file.filename == item.filename && file.contentType == ""
      && file.headers == [Fields(item)[0]]
  {
    hide ParseHeader, Fields;
    hide Disposition;
    hide StartsCI;
    hide DispositionLine;
    hide WithDisposition;
    hide DispositionParams;
    DispositionHeaderParses(item);
    LineSplits(item);
    ParamTextOneLine(item);
    ParamTextShape(item);
    DispositionExtracts(ParamText(item));
    ParamTextParses(item);
    var kv := ParseHeader(DispositionLine(item)).value;
    ParamListLooksUp(NO_FILE.(headers := NO_FILE.headers + [kv]), item);
  }

  lemma TypeIsToken()
    ensures IsToken("Content-Type") && ':' !in "Content-Type"
  {
    var key := "Content-Type";
    assert |key| == 12;
  }

  lemma TypeHeaderLine(file: FormData, item: Item)
    requires item.contentType != "" && IsFieldValue(item.contentType)
    ensures var (file', ok) := HeaderLine(file, TypeLine(item));
      && ok && file'.name == file.name && file'.filename == file.filename && file'.contentType == item.contentType
      && file'.headers == file.headers + [("Content-Type", Decoded(item.contentType, false))]
  {
    var line, key, t := TypeLine(item), "Content-Type", item.contentType;
    hide HeaderLine, EqualCI;
    TypeIsToken();
    BlankBefore(key, t);
    assert line == key + ": " + t;
    FieldIsRecorded(file, key, " ", t, "");
    NamesDiffer();
    hide FieldLine;
    assert !IsDispositionKey(key) by { TypeIsNoDisposition(); }
  }

  lemma TypeIsNoDisposition()
    ensures !IsDispositionKey("Content-Type")
  {
    var t := "Content-Type";
    assert |t| == 12 && |DISPOSITION| == 19;
  }

  // ---- the whole body ----

  lemma FindLine(line: string, rest: string)
    requires '\r' !in line
    ensures Find(line + CRLF + rest, CRLF) == |line|
  {
    var s := line + CRLF + rest;
    assert s[|line|..|line| + 2] == CRLF;
    forall k | 0 <= k < |line| ensures !StartsAt(s, k, CRLF) {
      if k + 2 <= |s| { assert s[k..k + 2][0] == s[k] == line[k]; }
    }
    FindIs(s, CRLF, |line|);
  }

  // The delimiter begins with the only carriage return it has, so it cannot overlap its own start.
  lemma DelimiterHasNoBorder(boundary: string, i: nat)
    requires BoundaryCharsValid(boundary) && 0 < i < 4 + |boundary|
    ensures (CRLF + DASH + boundary)[i] != '\r'
  {
    var d := CRLF + DASH + boundary;
    if i >= 4 { assert d[i] == boundary[i - 4]; }
  }

  // So the first delimiter after a content that does not hold one is the one that was written.
  lemma FindDelimiter(content: string, boundary: string, rest: string)
    requires BoundaryCharsValid(boundary)
    requires Find(content, CRLF + DASH + boundary) == |content|
    ensures Find(content + (CRLF + DASH + boundary) + rest, CRLF + DASH + boundary) == |content|
  {
    var d := CRLF + DASH + boundary;
    var s := content + d + rest;
    assert s[|content|..|content| + |d|] == d;
    forall k | 0 <= k < |content| ensures !StartsAt(s, k, d) {
      if k + |d| <= |content| {
        assert s[k..k + |d|] == content[k..k + |d|];
        assert !StartsAt(content, k, d);
      } else if k + |d| <= |s| {
        var i := |content| - k;
        assert s[k..k + |d|][i] == s[|content|] == d[0];
        DelimiterHasNoBorder(boundary, i);
      }
    }
    FindIs(s, d, |content|);
  }

  function HeaderBlock(item: Item): string {
    DispositionLine(item) + CRLF + ((if item.contentType == "" then "" else TypeLine(item) + CRLF) + CRLF)
  }

  // Everything after the first boundary line.
  function Tail(items: seq<Item>, boundary: string): string
    requires items != []
  {
    HeaderBlock(items[0]) + (items[0].content + (CRLF + DASH + boundary) +
      if |items| == 1 then DASH + CRLF else CRLF + Tail(items[1..], boundary))
  }

  lemma ItemBeginIs(item: Item, boundary: string)
    ensures ItemBegin(item, boundary) == DASH + boundary + CRLF + HeaderBlock(item)
  {
  }

  lemma DelimiterRegroups(b: string, h: string, c: string, end: string)
    ensures b + CRLF + h + c + CRLF + (b + end) == b + CRLF + (h + (c + (CRLF + b) + end))
  {
    assert h + (c + (CRLF + b) + end) == h + c + CRLF + (b + end);
  }

  lemma {:induction false} SerializedIsTail(items: seq<Item>, boundary: string)
    requires items != []
    ensures Serialized(items, boundary, true) == DASH + boundary + CRLF + Tail(items, boundary)
  {
    hide HeaderBlock;
    hide ItemBegin;
    hide Serialized;
    hide Tail;
    var b, h, c := DASH + boundary, HeaderBlock(items[0]), items[0].content;
    var rest := if |items| == 1 then DASH + CRLF else CRLF + Tail(items[1..], boundary);
    ItemBeginIs(items[0], boundary);
    SerializedCons(items, boundary);
    if |items| == 1 {
      SerializedNone(items[1..], boundary);
    } else {
      SerializedIsTail(items[1..], boundary);
      assert b + CRLF + Tail(items[1..], boundary) == b + rest;
    }
    DelimiterRegroups(b, h, c, rest);
    assert CRLF + DASH + boundary == CRLF + b;
    TailUnfold(items, boundary);
  }

  lemma SerializedNone(items: seq<Item>, boundary: string)
    requires items == []
    ensures Serialized(items, boundary, true) == DASH + boundary + (DASH + CRLF)
  {
  }

  lemma SerializedCons(items: seq<Item>, boundary: string)
    requires items != []
    ensures Serialized(items, boundary, true)
            == ItemBegin(items[0], boundary) + items[0].content + CRLF + Serialized(items[1..], boundary, true)
  {
    hide ItemBegin;
    hide Finish;
    var x := ItemBegin(items[0], boundary) + items[0].content + CRLF;
    assert x + ItemsText(items[1..], boundary) + Finish(boundary)
      == x + (ItemsText(items[1..], boundary) + Finish(boundary));
  }

  ghost predicate AcceptsAll(cfg: Config) {
    AcceptsContent(cfg) && forall file :: cfg.acceptHeader(file)
  }

  lemma HeadersOnLine(cfg: Config, m: Machine, line: string, rest: string)
    requires m.buf == line + CRLF + rest && line != "" && '\r' !in line && HeaderLine(m.file, line).1
    ensures var m' := m.(buf := rest, file := HeaderLine(m.file, line).0);
      && Headers(cfg, m) == Headers(cfg, m')
      && (|line| < HEADER_MAX_LENGTH && ShortLines(m'.file, m'.buf) ==> ShortLines(m.file, m.buf))
  {
    FindLine(line, rest);
    assert m.buf[..|line|] == line && m.buf[|line| + 2..] == rest;
  }

  lemma HeadersOnEmptyLine(cfg: Config, m: Machine, rest: string)
    requires cfg.acceptHeader(m.file) && m.buf == CRLF + rest
    ensures Headers(cfg, m) == Next(m.(parts := m.parts + [Part(m.file, "")], buf := rest, state := 3))
    ensures ShortLines(m.file, m.buf)
  {
    assert m.buf == "" + CRLF + rest;
    FindLine("", rest);
    assert m.buf[2..] == rest;
  }

  lemma HeaderTextHasNoReturn(s: string)
    requires HeaderText(s)
    ensures '\r' !in s
  {
  }

  lemma LinesHaveNoReturn(item: Item)
    requires HeaderText(item.name) && HeaderText(item.filename) && IsFieldValue(item.contentType)
    ensures '\r' !in DispositionLine(item) && '\r' !in TypeLine(item)
  {
    hide ParamText;
    LineSplits(item);
    ParamTextOneLine(item);
    var p := DISPOSITION + ": ";
    HeaderTextConcat("form-data; ", ParamText(item));
    HeaderTextConcat(p, "form-data; " + ParamText(item));
    HeaderTextHasNoReturn(DispositionLine(item));
    HeaderTextConcat("Content-Type: ", item.contentType);
    HeaderTextHasNoReturn(TypeLine(item));
  }

  // What the parser makes of the header lines of an item.
  function FileOf(item: Item): FormData {
    var file := HeaderLine(NO_FILE, DispositionLine(item)).0;
    if item.contentType == "" then file else HeaderLine(file, TypeLine(item)).0
  }

  // A part's header lines are read, up to the empty one, in one round of state 2.
  lemma HeaderLinesAreRead(cfg: Config, m: Machine, item: Item, rest: string)
    requires PlainHeader(item) && m.file == NO_FILE && m.buf == HeaderBlock(item) + rest
    ensures IsHeader(FileOf(item), item) && Find(m.buf, CRLF) < HEADER_MAX_LENGTH
    ensures var m' := m.(file := FileOf(item), buf := CRLF + rest);
      Headers(cfg, m) == Headers(cfg, m') && (ShortLines(m'.file, m'.buf) ==> ShortLines(m.file, m.buf))
  {
    hide HeaderLine;
    hide DispositionLine;
    hide TypeLine;
    hide Headers;
    hide ShortLines;
    hide Find;
    hide PlainText;
    PlainIsHeaderText(item);
    LinesHaveNoReturn(item);
    DispositionHeaderLine(item);
    LineNotEmpty(item);
    var types := TypeBlock(item, rest);
    HeaderBlockSplits(item, rest);
    HeadersOnLine(cfg, m, DispositionLine(item), types);
    FindLine(DispositionLine(item), types);
    if item.contentType != "" {
      var file := HeaderLine(NO_FILE, DispositionLine(item)).0;
      TypeHeaderLine(file, item);
      HeadersOnLine(cfg, m.(buf := types, file := file), TypeLine(item), CRLF + rest);
    }
  }

  lemma HeaderBlockParses(cfg: Config, m: Machine, item: Item, rest: string)
    requires cfg.acceptHeader(FileOf(item)) && PlainHeader(item)
    requires m.state == 2 && m.file == NO_FILE && m.buf == HeaderBlock(item) + rest
    ensures IsHeader(FileOf(item), item)
    ensures Step(cfg, m)
         == Next(m.(file := FileOf(item), parts := m.parts + [Part(FileOf(item), "")], buf := rest, state := 3))
    ensures ShortLines(m.file, m.buf)
  {
    hide FileOf, HeaderBlock, Headers, Find, ShortLines, PlainHeader;
    HeaderLinesAreRead(cfg, m, item, rest);
    HeadersOnEmptyLine(cfg, m.(file := FileOf(item), buf := CRLF + rest), rest);
  }

  function TypeBlock(item: Item, rest: string): string {
    if item.contentType == "" then CRLF + rest else TypeLine(item) + CRLF + (CRLF + rest)
  }

  lemma HeaderBlockSplits(item: Item, rest: string)
    ensures HeaderBlock(item) + rest == DispositionLine(item) + CRLF + TypeBlock(item, rest)
  {
    hide DispositionLine;
    hide TypeLine;
  }

  lemma LineNotEmpty(item: Item)
    ensures TypeLine(item) != "" && DispositionLine(item) != ""
  {
  }

  lemma ContentParses(cfg: Config, m: Machine, content: string, rest: string)
    requires cfg.acceptContent(content) && BoundaryCharsValid(cfg.boundary)
    requires Find(content, cfg.CrlfDashBoundary()) == |content|
    requires m.state == 3 && m.buf == content + cfg.CrlfDashBoundary() + rest
    ensures Step(cfg, m) == Next(m.(parts := Deliver(m.parts, content), buf := rest, state := 4))
  {
    hide Find;
    hide Deliver;
    var d := cfg.CrlfDashBoundary();
    FindDelimiter(content, cfg.boundary, rest);
    assert m.buf[..|content|] == content && m.buf[|content| + |d|..] == rest;
  }

  lemma FirstBoundaryParses(cfg: Config, m: Machine, rest: string)
    requires m.state == 0 && m.buf == cfg.DashBoundaryCrlf() + rest
    ensures Step(cfg, m) == Next(m.(buf := rest, state := 1))
  {
    var d := cfg.DashBoundaryCrlf();
    assert m.buf[0..|d|] == d && m.buf[|d|..] == rest;
    FindIs(m.buf, d, 0);
  }

  lemma NextBoundaryParses(cfg: Config, m: Machine, rest: string)
    requires m.state == 4
    ensures m.buf == CRLF + rest ==> !Closes(m) && Step(cfg, m) == Next(m.(buf := rest, state := 1))
    ensures m.buf == DASH + rest ==>
      Closes(m) && Step(cfg, m) == Next(m.(valid := true, buf := "")) && m.buf[2..] == rest
  {
    if m.buf == CRLF + rest { assert m.buf[0..2] == CRLF && m.buf[2..] == rest; }
    if m.buf == DASH + rest { assert m.buf[0..2] == DASH && m.buf[2..] == rest; assert DASH[0] != CRLF[0]; }
  }

  lemma DriveNext(cfg: Config, m: Machine)
    requires m.buf != "" && Step(cfg, m).Next?
    ensures Drive(cfg, m) == Drive(cfg, Step(cfg, m).m)
    ensures (m.state == 2 ==> ShortLines(m.file, m.buf)) && !Closes(m) && Regular(cfg, Step(cfg, m).m) ==>
      Regular(cfg, m)
  {
    StepProgress(cfg, m);
  }

  ghost predicate AreItems(parts: seq<Part>, items: seq<Item>) {
    |parts| == |items| && forall i :: 0 <= i < |items| ==> IsItem(parts[i], items[i])
  }

  lemma LineEndIsInert()
    ensures Inert(CRLF)
  {
    forall k: nat | StartsAt(CRLF, k, CRLF) ensures Harmless(NO_FILE, CRLF[k + 2..]) {
      assert CRLF[k + 2..] == "";
    }
  }

  // One part: header, content and the delimiter after it.
  lemma PartParses(cfg: Config, m: Machine, item: Item, rest: string)
    requires cfg.acceptHeader(FileOf(item)) && cfg.acceptContent(item.content)
    requires BoundaryCharsValid(cfg.boundary) && PlainItem(item, cfg.boundary) && m.state == 1
    requires m.buf == HeaderBlock(item) + (item.content + cfg.CrlfDashBoundary() + rest)
    ensures IsHeader(FileOf(item), item)
    ensures var file := FileOf(item);
      var m' := m.(file := file, parts := m.parts + [Part(file, item.content)], buf := rest, state := 4);
      Drive(cfg, m) == Drive(cfg, m') && (Regular(cfg, m') ==> Regular(cfg, m))
  {
    hide Drive;
    hide Regular;
    hide ShortLines;
    hide HeaderBlock;
    hide PlainItem, FileOf;
    HeaderBlockNotEmpty(item);
    var more := item.content + cfg.CrlfDashBoundary() + rest;
    var m2 := m.(file := NO_FILE, state := 2);
    assert Step(cfg, m) == Next(m2);
    DriveNext(cfg, m);
    PlainContent(item, cfg.boundary);
    HeaderBlockParses(cfg, m2, item, more);
    DriveNext(cfg, m2);
    var m3 := Step(cfg, m2).m;
    ContentParses(cfg, m3, item.content, rest);
    DriveNext(cfg, m3);
    DeliverLast(m.parts, FileOf(item), item.content);
  }

  lemma HeaderBlockNotEmpty(item: Item)
    ensures HeaderBlock(item) != ""
  {
  }

  lemma PlainIsHeaderText(item: Item)
    requires PlainText(item.name) && PlainText(item.filename)
    ensures HeaderText(item.name) && HeaderText(item.filename)
  {
  }

  lemma PlainContent(item: Item, boundary: string)
    requires PlainItem(item, boundary)
    ensures PlainHeader(item) && Find(item.content, CRLF + DASH + boundary) == |item.content|
  {
  }

  lemma DeliverLast(parts: seq<Part>, file: FormData, content: string)
    ensures Deliver(parts + [Part(file, "")], content) == parts + [Part(file, content)]
  {
    assert "" + content == content;
  }

  lemma EndParses(cfg: Config, m: Machine)
    requires m.state == 4 && m.buf == DASH + CRLF
    ensures Drive(cfg, m) == (m.(valid := true, buf := ""), true) && Regular(cfg, m)
  {
    hide Find, Inert, Step;
    NextBoundaryParses(cfg, m, CRLF);
    LineEndIsInert();
    DriveNext(cfg, m);
  }

  lemma {:induction false} TailParses(cfg: Config, m: Machine, items: seq<Item>)
    requires AcceptsAll(cfg) && BoundaryCharsValid(cfg.boundary)
    requires items != [] && forall i :: 0 <= i < |items| ==> PlainItem(items[i], cfg.boundary)
    requires m.state == 1 && m.buf == Tail(items, cfg.boundary)
    ensures var (m', ok) := Drive(cfg, m);
      ok && m'.valid && m.parts <= m'.parts && AreItems(m'.parts[|m.parts|..], items)
    ensures Regular(cfg, m)
    decreases |items|
  {
    hide Tail;
    hide PlainItem;
    hide HeaderBlock;
    hide Find;
    hide Step;
    hide Inert;
    hide FileOf, Regular, ShortLines, Drive, Closes;
    var item := items[0];
    var rest := if |items| == 1 then DASH + CRLF else CRLF + Tail(items[1..], cfg.boundary);
    TailUnfold(items, cfg.boundary);
    PartParses(cfg, m, item, rest);
    var file := FileOf(item);
    var m4 := m.(file := file, parts := m.parts + [Part(file, item.content)], buf := rest, state := 4);
    if |items| == 1 {
      EndParses(cfg, m4);
    } else {
      var m5 := m4.(buf := Tail(items[1..], cfg.boundary), state := 1);
      NextBoundaryParses(cfg, m4, m5.buf);
      DriveNext(cfg, m4);
      TailParses(cfg, m5, items[1..]);
      var parts := Drive(cfg, m5).0.parts;
      assert parts[|m.parts|] == m5.parts[|m.parts|];
      OneMoreItem(parts, |m.parts|, items);
    }
  }

  lemma OneMoreItem(parts: seq<Part>, n: nat, items: seq<Item>)
    requires items != [] && n < |parts| && IsItem(parts[n], items[0]) && AreItems(parts[n + 1..], items[1..])
    ensures AreItems(parts[n..], items)
  {
    forall i | 0 <= i < |items| ensures IsItem(parts[n..][i], items[i]) {
      if i > 0 { assert parts[n..][i] == parts[n + 1..][i - 1] && items[i] == items[1..][i - 1]; }
    }
  }

  lemma TailUnfold(items: seq<Item>, boundary: string)
    requires items != []
    ensures Tail(items, boundary) == HeaderBlock(items[0]) + (items[0].content + (CRLF + DASH + boundary) +
      if |items| == 1 then DASH + CRLF else CRLF + Tail(items[1..], boundary))
  {
  }

  // Serializing a non-empty list of plain items and parsing the bytes, cut into calls in any way, gives
  // the items back and a valid body.
  lemma MultipartRoundTrip(cfg: Config, items: seq<Item>, pieces: seq<string>)
    requires AcceptsAll(cfg) && BoundaryCharsValid(cfg.boundary)
    requires items != [] && forall i :: 0 <= i < |items| ==> PlainItem(items[i], cfg.boundary)
    requires Concat(pieces) == Serialized(items, cfg.boundary, true)
    ensures var (m, ok) := DriveAll(cfg, Initial(), pieces);
      ok && m.valid && AreItems(m.parts, items)
  {
    hide Tail;
    hide PlainItem;
    hide AreItems;
    hide DriveAll;
    SerializedIsTail(items, cfg.boundary);
    var tail := Tail(items, cfg.boundary);
    var m := Feed(Initial(), Concat(pieces));
    assert m.buf == cfg.DashBoundaryCrlf() + tail;
    FirstBoundaryParses(cfg, m, tail);
    DriveNext(cfg, m);
    TailParses(cfg, Step(cfg, m).m, items);
    SplittingIndependence(cfg, pieces);
    var parts := Drive(cfg, m).0.parts;
    assert parts[0..] == parts;
  }
}
