/**
  One header line of a multipart part, and what the parser remembers of it.
*/
module MultipartHeader {
  import opened Basics
  import opened Text
  import opened Query

  datatype FormData = FormData(name: string, filename: string, contentType: string, headers: seq<(string, string)>)

  const NO_FILE := FormData("", "", "", [])

  predicate IsTokenChar(c: char) {
    IsAlnum(c) || c == '!' || c == '#' || c == '$' || c == '%' || c == '&' || c == '\'' || c == '*' || c == '+'
    || c == '-' || c == '.' || c == '^' || c == '_' || c == '`' || c == '|' || c == '~'
  }

  predicate IsToken(s: string) {
    s != "" && forall i | 0 <= i < |s| :: IsTokenChar(s[i])
  }

  predicate IsFieldVchar(c: char) {
    33 <= c as int <= 126 || 128 <= c as int
  }

  predicate IsFieldValue(s: string) {
    s == "" ||
    (IsFieldVchar(s[0]) && IsFieldVchar(s[|s| - 1]) &&
     forall i | 0 <= i < |s| :: IsSpaceOrTab(s[i]) || IsFieldVchar(s[i]))
  }

  function ToLower(c: char): char {
    if 'A' <= c <= 'Z' then (c as int + 32) as char else c
  }

  predicate EqualCI(a: string, b: string) {
    |a| == |b| && forall i | 0 <= i < |a| :: ToLower(a[i]) == ToLower(b[i])
  }

  // s starts with the ASCII text b, up to the case of letters.
  predicate StartsCI(s: string, b: string) {
    |b| <= |s| && EqualCI(s[..|b|], b)
  }

  // parse_header: the key and value handed to the callback.
  function ParseHeader(line: string): Option<(string, string)> {
    var t := TrimRight(line);
    var p := IndexOf(t, ':');
    if !IsToken(t[..p]) || p == |t| then None
    else
      var val := TrimLeft(t[p + 1..]);
      if !IsFieldValue(val) then None
      else if EqualCI(t[..p], "Location") || EqualCI(t[..p], "Referer") then Some((t[..p], val))
      else Some((t[..p], Decoded(val, false)))
  }

  function UnquoteCopy(s: string): string {
    if |s| >= 2 && s[0] == '"' && s[|s| - 1] == '"' then s[1..|s| - 1] else s
  }

  // One name=value piece of a Content-Disposition; with several '=' the last value wins.
  function DispositionParam(kv: string): Option<(string, string)> {
    var ps := Pieces(kv, '=');
    if ps == [] then None
    else Some((UnquoteCopy(ps[0]), UnquoteCopy(if |ps| == 1 then "" else ps[|ps| - 1])))
  }

  function DispositionParamsOf(pieces: seq<string>, seen: set<string>): seq<(string, string)> {
    if pieces == [] then []
    else if pieces[0] in seen then DispositionParamsOf(pieces[1..], seen)
    else
      (match DispositionParam(pieces[0]) case None => [] case Some(p) => [p])
      + DispositionParamsOf(pieces[1..], seen + {pieces[0]})
  }

  function DispositionParams(s: string): seq<(string, string)> {
    DispositionParamsOf(Pieces(s, ';'), {})
  }

  function Lookup(params: seq<(string, string)>, key: string): Option<string> {
    if params == [] then None
    else if params[0].0 == key then Some(params[0].1)
    else Lookup(params[1..], key)
  }

  predicate IsRegexSpace(c: char) {
    c == ' ' || 9 <= c as int <= 13
  }

  function SkipSpace(s: string): string {
    if s != "" && IsRegexSpace(s[0]) then SkipSpace(s[1..]) else s
  }

  predicate OneLine(s: string) {
    '\r' !in s && '\n' !in s
  }

  // The text after "Content-Disposition: form-data;", when the line has that form.
  function Disposition(line: string): Option<string> {
    if !StartsCI(line, "Content-Disposition:") then None
    else
      var s := SkipSpace(line[20..]);
      if !StartsCI(s, "form-data;") then None
      else
        var rest := SkipSpace(s[10..]);
        if OneLine(rest) then Some(rest) else None
  }

  // The text after UTF-8'' in an extended parameter value.
  function ExtendedValue(v: string): Option<string> {
    if StartsCI(v, "UTF-8''") && |v| > 7 && OneLine(v[7..]) then Some(v[7..]) else None
  }

  function WithDisposition(file: FormData, params: seq<(string, string)>): (FormData, bool) {
    match Lookup(params, "name")
    case None => (file, false)
    case Some(name) =>
      var f := file.(name := name);
      var f' := match Lookup(params, "filename") case Some(v) => f.(filename := v) case None => f;
      match Lookup(params, "filename*")
      case None => (f', true)
      case Some(v) =>
        match ExtendedValue(v)
        case Some(e) => (f'.(filename := Decoded(e, false)), true)
        case None => (f', false)
  }

  // The effect of one header line, and whether the parser goes on.
  function HeaderLine(file: FormData, line: string): (FormData, bool) {
    match ParseHeader(line)
    case None => (file, false)
    case Some(kv) =>
      var f := file.(headers := file.headers + [kv]);
      if StartsCI(line, "Content-Type:") then (f.(contentType := Trim(line[13..])), true)
      else
        match Disposition(line)
        case None => (f, true)
        case Some(rest) => WithDisposition(f, DispositionParams(rest))
  }
}
