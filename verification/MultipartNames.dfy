/**
  File names in the extended notation of a Content-Disposition (section 3.2 of RFC 5987).
*/
module MultipartNames {
  import opened Basics
  import opened Text
  import opened Query
  import opened MultipartHeader
  import opened HeaderLaws
  import opened MultipartRoundTrip
  import L = QueryLaws

  predicate IsParamChar(c: char) {
    IsFieldVchar(c) && c != ';' && c != '=' && c != '"'
  }

  // Text that may stand unquoted in a parameter.
  ghost predicate IsParamValue(v: string) {
    v != "" && forall c :: c in v ==> IsParamChar(c)
  }

  // A file name of any bytes.
  function Extended(filename: string): string
    requires AreBytes(filename)
  {
    "UTF-8''" + Encoded(filename)
  }

  lemma {:induction false} ParamsSnoc(pieces: seq<string>, last: string, seen: set<string>)
    requires last !in pieces && last !in seen && DispositionParam(last).Some?
    ensures DispositionParamsOf(pieces + [last], seen)
         == DispositionParamsOf(pieces, seen) + [DispositionParam(last).value]
    decreases |pieces|
  {
    hide DispositionParam;
    if pieces == [] {
      assert pieces + [last] == [last] && [last][1..] == [];
      assert DispositionParamsOf([last][1..], seen + {last}) == [];
    } else {
      assert (pieces + [last])[1..] == pieces[1..] + [last] && (pieces + [last])[0] == pieces[0];
      ParamsSnoc(pieces[1..], last, if pieces[0] in seen then seen else seen + {pieces[0]});
    }
  }

  lemma {:induction false} LookupSnoc(params: seq<(string, string)>, last: (string, string), key: string)
    ensures Lookup(params + [last], key)
         == if Lookup(params, key).Some? then Lookup(params, key) else if last.0 == key then Some(last.1) else None
    decreases |params|
  {
    if params == [] {
      assert params + [last] == [last] && [last][1..] == [];
    } else {
      assert (params + [last])[1..] == params[1..] + [last] && (params + [last])[0] == params[0];
      LookupSnoc(params[1..], last, key);
    }
  }

  lemma InEither(a: string, b: string)
    ensures forall c :: c in a + b <==> c in a || c in b
  {
  }

  // What encoding puts out may stand in a parameter.
  lemma ExtendedIsParamValue(filename: string)
    requires AreBytes(filename) && filename != ""
    ensures Encoded(filename) != "" && IsParamValue(Extended(filename))
    ensures ExtendedValue(Extended(filename)) == Some(Encoded(filename))
  {
    hide Encoded, StartsCI, L.IsPlainChar;
    var mark, e := "UTF-8''", Encoded(filename);
    L.EncodedUnchangedIff(filename);
    assert forall c :: c in e ==> IsParamChar(c) by { PlainIsParamChar(); }
    assert forall c :: c in mark ==> IsParamChar(c);
    assert |mark| == 7 && e != "";
    InEither(mark, e);
    StartsWithItself(mark, e);
  }

  lemma PlainIsParamChar()
    ensures forall c :: L.IsPlainChar(c) || c == '%' ==> IsParamChar(c)
  {
    assert L.MARKS == ['-', '_', '.', '!', '~', '*', '\'', '(', ')'];
  }

  lemma ParamValueParses(v: string)
    requires IsParamValue(v)
    ensures DispositionParam("filename*=" + v) == Some(("filename*", v))
  {
    hide Pieces;
    var key := "filename*";
    assert |key| == 9 && "filename*=" + v == key + ['='] + v;
    assert v[0] in v && v[|v| - 1] in v;
    PiecesOne(v, '=');
    PiecesCons(key, '=', v);
  }

  lemma ParamValueChars(v: string)
    requires IsParamValue(v)
    ensures var p := "filename*=" + v; ';' !in p && Trimmed(p) && HeaderText(p) && OneLine(p)
  {
    var p := "filename*=" + v;
    assert v[|v| - 1] in v && p[|p| - 1] == v[|v| - 1];
    InEither("filename*=", v);
    forall i | 0 <= i < |v| ensures IsFieldVchar(v[i]) { assert v[i] in v; }
    hide IsParamChar;
    HeaderTextConcat("filename*=", v);
    hide HeaderText;
    HeaderTextIsOneLine(p);
  }

  // The parameters of an item, with an extended file name behind them.
  function ExtendedText(item: Item, v: string): string {
    ParamText(item) + ";" + (" filename*=" + v)
  }

  lemma ParamTextPieces(item: Item)
    requires PlainText(item.name) && PlainText(item.filename)
    ensures forall p :: p in Pieces(ParamText(item), ';') ==> |p| > 8 ==> p[8] != '*' || p[0] == 'n'
    ensures DispositionParams(ParamText(item)) == ParamList(item)
  {
    hide Pieces, DispositionParamsOf, PlainText;
    ParamTextParses(item);
    var p1 := "name" + "=\"" + item.name + "\"";
    PlainHasNoSemicolon(item.name);
    NoCharIn("name", item.name, ';');
    if item.filename == "" {
      assert ParamText(item) == p1;
      PiecesOne(p1, ';');
    } else {
      var p2 := "filename" + "=\"" + item.filename + "\"";
      PlainHasNoSemicolon(item.filename);
      NoCharIn("filename", item.filename, ';');
      assert ParamText(item) == p1 + [';'] + (" " + p2);
      PiecesCons(p1, ';', " " + p2);
      LeadingBlank(p2);
      assert Pieces(ParamText(item), ';') == [p1] + [p2];
      assert |"filename"| == 8 && p2[8] == '=';
    }
  }

  lemma ExtendedParams(item: Item, v: string)
    requires PlainText(item.name) && PlainText(item.filename) && IsParamValue(v)
    ensures DispositionParams(ExtendedText(item, v)) == ParamList(item) + [("filename*", v)]
  {
    hide Pieces, DispositionParamsOf, PlainText, DispositionParam, ParamText, ParamList;
    var last := "filename*=" + v;
    ParamValueParses(v);
    ParamValueChars(v);
    ParamTextPieces(item);
    assert " filename*=" + v == " " + last;
    PiecesJoin(ParamText(item), ';', " " + last);
    LeadingBlank(last);
    assert |"filename*="| == 10 && last[8] == '*' && last[0] == 'f';
    ParamsSnoc(Pieces(ParamText(item), ';'), last, {});
  }

  lemma ExtendedLookups(item: Item, v: string)
    ensures var params := ParamList(item) + [("filename*", v)];
      && Lookup(params, "name") == Some(item.name) && Lookup(params, "filename*") == Some(v)
  {
    hide Lookup;
    var last := ("filename*", v);
    ItemLookups(item);
    LookupSnoc(ParamList(item), last, "name");
    LookupSnoc(ParamList(item), last, "filename*");
    assert |"name"| == 4 && |"filename"| == 8 && |"filename*"| == 9;
  }

  lemma ItemLookups(item: Item)
    ensures Lookup(ParamList(item), "name") == Some(item.name) && Lookup(ParamList(item), "filename*") == None
  {
    var n, f, x := "name", "filename", "filename*";
    assert |n| == 4 && |f| == 8 && |x| == 9;
    if item.filename == "" {
      LookupOne((n, item.name), n);
      LookupOne((n, item.name), x);
    } else {
      LookupTwo((n, item.name), (f, item.filename), n);
      LookupTwo((n, item.name), (f, item.filename), x);
    }
  }

  lemma LiteralsAreHeaderText()
    ensures HeaderText(" ") && HeaderText(";") && HeaderText("form-data; ")
    ensures HeaderText("filename=\"") && HeaderText("\"")
  {
  }

  lemma ExtendedTextIsHeader(item: Item, v: string)
    requires PlainText(item.name) && PlainText(item.filename) && IsParamValue(v)
    ensures var text := ExtendedText(item, v);
      && OneLine(text) && HeaderText("form-data; " + text) && |text| > 7 && text[0] == 'n'
      && !IsSpaceOrTab(text[|text| - 1])
  {
    hide PlainText, HeaderText, OneLine, IsParamValue, ParamText;
    LiteralsAreHeaderText();
    PlainIsHeaderText(item);
    ParamTextOneLine(item);
    ParamTextShape(item);
    ParamValueChars(v);
    var text, last := ExtendedText(item, v), "filename*=" + v;
    assert " filename*=" + v == " " + last;
    HeaderTextConcat(" ", last);
    HeaderTextConcat(ParamText(item), ";");
    HeaderTextConcat(ParamText(item) + ";", " " + last);
    HeaderTextConcat("form-data; ", text);
    HeaderTextIsOneLine(text);
    assert |last| > 0 && text[|text| - 1] == last[|last| - 1];
  }

  lemma HeaderTextIsOneLine(s: string)
    requires HeaderText(s)
    ensures OneLine(s)
  {
  }

  // A disposition line with parameters of any kind.
  lemma DispositionWith(text: string)
    requires OneLine(text) && HeaderText("form-data; " + text) && text != "" && !IsRegexSpace(text[0])
    requires !IsSpaceOrTab(text[|text| - 1])
    ensures var line := DISPOSITION + ": " + ("form-data; " + text);
      && ParseHeader(line).Some?
      && HeaderLine(NO_FILE, line)
         == WithDisposition(NO_FILE.(headers := [ParseHeader(line).value]), DispositionParams(text))
  {
    hide DispositionParams, WithDisposition, Disposition, StartsCI, OneLine, HeaderText, IsToken, EqualCI;
    var line := DISPOSITION + ": " + ("form-data; " + text);
    HeaderTextIsFieldValue(text);
    DispositionExtracts(text);
    DispositionIsToken();
    BlankBefore(DISPOSITION, "form-data; " + text);
    FieldParses(DISPOSITION, " ", "form-data; " + text, "");
    hide ParseHeader;
    assert NO_FILE.headers + [ParseHeader(line).value] == [ParseHeader(line).value];
  }

  lemma HeaderTextIsFieldValue(text: string)
    requires HeaderText("form-data; " + text) && text != "" && !IsSpaceOrTab(text[|text| - 1])
    ensures IsFieldValue("form-data; " + text) && Trimmed("form-data; " + text)
  {
    var val := "form-data; " + text;
    assert val[|val| - 1] == text[|text| - 1];
  }

  lemma ExtendedLine(item: Item, v: string)
    requires PlainText(item.name) && PlainText(item.filename) && IsParamValue(v)
    ensures var (file, ok) := HeaderLine(NO_FILE, DISPOSITION + ": " + ("form-data; " + ExtendedText(item, v)));
      if ExtendedValue(v).Some?
      then ok && file.name == item.name && file.filename == Decoded(ExtendedValue(v).value, false)
      else !ok
  {
    hide PlainText, ParamText, ParamList, DispositionParams, Lookup, HeaderLine, ExtendedValue, Decoded;
    ExtendedTextIsHeader(item, v);
    DispositionWith(ExtendedText(item, v));
    ExtendedParams(item, v);
    ExtendedLookups(item, v);
    hide ParseHeader, ExtendedText;
  }

  // A disposition that carries a file name as percent-coded UTF-8 gives back the very bytes, whatever plain
  // file name stands beside it.
  lemma ExtendedFileName(item: Item, filename: string)
    requires PlainText(item.name) && PlainText(item.filename) && AreBytes(filename) && filename != ""
    ensures var line := DISPOSITION + ": " + ("form-data; " + ExtendedText(item, Extended(filename)));
      var (file, ok) := HeaderLine(NO_FILE, line);
      ok && file.name == item.name && file.filename == filename
  {
    hide PlainText, Encoded, ExtendedText, HeaderLine, ExtendedValue;
    ExtendedIsParamValue(filename);
    ExtendedLine(item, Extended(filename));
    DecodeEncode(filename, false);
  }

  // With any other character set the line is refused.
  lemma OtherCharsetIsRefused(item: Item, v: string)
    requires PlainText(item.name) && PlainText(item.filename) && IsParamValue(v) && !StartsCI(v, "UTF-8''")
    ensures !HeaderLine(NO_FILE, DISPOSITION + ": " + ("form-data; " + ExtendedText(item, v))).1
  {
    hide PlainText, ExtendedText, HeaderLine, StartsCI;
    ExtendedLine(item, v);
  }

  // So it is with nothing behind the character set.
  lemma EmptyExtendedIsRefused(item: Item)
    requires PlainText(item.name) && PlainText(item.filename)
    ensures !HeaderLine(NO_FILE, DISPOSITION + ": " + ("form-data; " + ExtendedText(item, "UTF-8''"))).1
  {
    hide PlainText, ExtendedText, HeaderLine, StartsCI;
    var v := "UTF-8''";
    assert |v| == 7 && IsParamValue(v);
    ExtendedLine(item, v);
  }

  // So is one without a name.
  lemma NamelessIsRefused(filename: string)
    requires PlainText(filename)
    ensures !HeaderLine(NO_FILE, DISPOSITION + ": " + ("form-data; " + ("filename=\"" + filename + "\""))).1
  {
    hide PlainText, HeaderText, OneLine, HeaderLine, Lookup, DispositionParams;
    var text := "filename=\"" + filename + "\"";
    FileNameAlone(filename);
    NameIsNot(filename);
    LiteralsAreHeaderText();
    PlainIsHeaderText(Item(filename, "", filename, ""));
    HeaderTextConcat("filename=\"", filename);
    HeaderTextConcat("filename=\"" + filename, "\"");
    HeaderTextConcat("form-data; ", text);
    HeaderTextIsOneLine(text);
    DispositionWith(text);
  }

  lemma FileNameAlone(filename: string)
    requires PlainText(filename)
    ensures DispositionParams("filename=\"" + filename + "\"") == [("filename", filename)]
  {
    hide PlainText, Pieces, DispositionParam, DispositionParamsOf;
    var text := "filename" + "=\"" + filename + "\"";
    assert text == "filename=\"" + filename + "\"";
    QuotedParam("filename", filename);
    PlainHasNoSemicolon(filename);
    NoCharIn("filename", filename, ';');
    PiecesOne(text, ';');
    OneParam(text);
  }

  lemma NameIsNot(filename: string)
    ensures Lookup([("filename", filename)], "name") == None
  {
    assert |"filename"| == 8 && |"name"| == 4;
    LookupOne(("filename", filename), "name");
  }

  // ---- other ways to write a disposition ----

  ghost predicate AreRegexSpaces(s: string) {
    forall i :: 0 <= i < |s| ==> IsRegexSpace(s[i])
  }

  lemma {:induction false} SkipsSpaces(spaces: string, rest: string)
    requires AreRegexSpaces(spaces) && rest != "" && !IsRegexSpace(rest[0])
    ensures SkipSpace(spaces + rest) == rest
    decreases |spaces|
  {
    if spaces == "" {
      assert spaces + rest == rest;
    } else {
      assert (spaces + rest)[1..] == spaces[1..] + rest;
      SkipsSpaces(spaces[1..], rest);
    }
  }

  // Neither the case of the letters nor the blanks after the colon and the semicolon matter.
  lemma DispositionInAnyForm(head: string, s1: string, form: string, s2: string, params: string)
    requires EqualCI(head, "Content-Disposition:") && EqualCI(form, "form-data;")
    requires AreRegexSpaces(s1) && AreRegexSpaces(s2) && params != "" && !IsRegexSpace(params[0])
    ensures Disposition(head + (s1 + (form + (s2 + params)))) == if OneLine(params) then Some(params) else None
  {
    assert |"Content-Disposition:"| == 20 && |"form-data;"| == 10;
    var rest := form + (s2 + params);
    var line := head + (s1 + rest);
    assert line[..20] == head && line[20..] == s1 + rest;
    assert rest[..10] == form && rest[10..] == s2 + params;
    assert ToLower(form[0]) == ToLower('f') && !IsRegexSpace(form[0]);
    hide EqualCI, OneLine;
    SkipsSpaces(s1, rest);
    SkipsSpaces(s2, params);
  }

  // With more than one equals sign the last value counts, and of what stands in quotes only the inside.
  lemma LastValueCounts(key: string, first: string, val: string)
    requires key != "" && '=' !in key && Trimmed(key) && key[0] != '"'
    requires first != "" && '=' !in first && Trimmed(first) && PlainText(val)
    ensures DispositionParam(key + "=" + first + "=\"" + val + "\"") == Some((key, val))
  {
    hide Pieces;
    var q := "\"" + val + "\"";
    forall i | 0 <= i < |q| ensures q[i] != '=' {
      if 0 < i < |q| - 1 { assert q[i] == val[i - 1]; }
    }
    assert key + "=" + first + "=\"" + val + "\"" == key + ['='] + (first + ['='] + q);
    PiecesOne(q, '=');
    PiecesCons(first, '=', q);
    PiecesCons(key, '=', first + ['='] + q);
    assert q[1..|q| - 1] == val;
  }

  // A disposition of another kind is recorded like any field, and has no other effect.
  lemma OtherDispositionIsIgnored(file: FormData, key: string, before: string, val: string, after: string)
    requires IsFieldLine(key, before, val, after) && IsFieldValue(val) && IsDispositionKey(key)
    requires !StartsCI(val + after, "form-data;")
    ensures var (f, ok) := HeaderLine(file, FieldLine(key, before, val, after));
      ok && f == file.(headers := file.headers + [(key, Content(key, val))])
  {
    var line := FieldLine(key, before, val, after);
    FieldIsRecorded(file, key, before, val, after);
    FieldParses(key, before, val, after);
    assert |"Content-Disposition:"| == 20 && |"Content-Type"| == 12 && |"Content-Disposition"| == 19;
    NamesHaveNoColon();
    Regroup(key + ":", before, val, after);
    StartsWithKey(key, "Content-Type", before + (val + after));
    StartsWithKey(key, "Content-Disposition", before + (val + after));
    assert line[20..] == before + (val + after);
    BlanksAreSkipped(before, val, after);
    hide ParseHeader, StartsCI, EqualCI, DispositionParams, FieldLine, SkipSpace;
  }

  lemma BlanksAreSkipped(before: string, val: string, after: string)
    requires AreBlanks(before) && AreBlanks(after) && IsFieldValue(val)
    ensures SkipSpace(before + (val + after)) == if val == "" then "" else val + after
    ensures !StartsCI("", "form-data;")
  {
    assert |"form-data;"| == 10;
    if val != "" {
      assert forall i :: 0 <= i < |before| ==> IsRegexSpace(before[i]);
      SkipsSpaces(before, val + after);
    } else {
      assert before + (val + after) == before + after;
      AllBlanksAreSkipped(before + after);
    }
  }

  lemma {:induction false} AllBlanksAreSkipped(s: string)
    requires AreBlanks(s)
    ensures SkipSpace(s) == ""
    decreases |s|
  {
    if s != "" { AllBlanksAreSkipped(s[1..]); }
  }
}
