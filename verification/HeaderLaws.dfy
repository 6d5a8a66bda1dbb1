/**
  Header lines by their parts: which lines are header fields, what field each of them is, and what a
  multipart part takes from it.
*/
module HeaderLaws {
  import opened Basics
  import opened Text
  import opened Query
  import opened MultipartHeader

  // Keys are tokens (section 5.6.2 of RFC 9110), values hold visible characters (section 5.5).
  lemma CharacterClasses(c: char)
    ensures IsTokenChar(c) <==> '0' <= c <= '9' || 'A' <= c <= 'Z' || 'a' <= c <= 'z' || c in "!#$%&'*+-.^_`|~"
    ensures IsFieldVchar(c) <==> '!' <= c <= '~' || 0x80 <= c as int
    ensures IsSpaceOrTab(c) <==> c == ' ' || c == '\t'
  {
    assert "!#$%&'*+-.^_`|~" == ['!', '#', '$', '%', '&', '\'', '*', '+', '-', '.', '^', '_', '`', '|', '~'];
  }

  predicate AreBlanks(s: string) {
    forall i | 0 <= i < |s| :: IsSpaceOrTab(s[i])
  }

  // A key, a colon, and a value between blanks.
  function FieldLine(key: string, before: string, val: string, after: string): string {
    key + ":" + before + val + after
  }

  ghost predicate IsFieldLine(key: string, before: string, val: string, after: string) {
    IsToken(key) && AreBlanks(before) && AreBlanks(after) && Trimmed(val)
  }

  // Locations are kept as they are; other values are decoded, where a plus sign is no blank.
  function Content(key: string, val: string): string {
    if EqualCI(key, "Location") || EqualCI(key, "Referer") then val else Decoded(val, false)
  }

  lemma {:induction false} TrimLeftOff(blanks: string, s: string)
    requires AreBlanks(blanks) && (s == "" || !IsSpaceOrTab(s[0]))
    ensures TrimLeft(blanks + s) == s
    decreases |blanks|
  {
    if blanks == "" {
      assert blanks + s == s;
    } else {
      assert (blanks + s)[1..] == blanks[1..] + s;
      TrimLeftOff(blanks[1..], s);
    }
  }

  lemma {:induction false} TrimRightOff(s: string, blanks: string)
    requires AreBlanks(blanks) && (s == "" || !IsSpaceOrTab(s[|s| - 1]))
    ensures TrimRight(s + blanks) == s
    decreases |blanks|
  {
    if blanks == "" {
      assert s + blanks == s;
    } else {
      assert (s + blanks)[..|s + blanks| - 1] == s + blanks[..|blanks| - 1];
      TrimRightOff(s, blanks[..|blanks| - 1]);
    }
  }

  lemma TokenHasNoColon(key: string)
    requires IsToken(key)
    ensures ':' !in key && !IsSpaceOrTab(key[|key| - 1])
  {
  }

  lemma KeyEnds(key: string, rest: string)
    requires IsToken(key)
    ensures var t := key + ":" + rest;
      IndexOf(t, ':') == |key| && t[..|key|] == key && t[|key| + 1..] == rest
  {
    TokenHasNoColon(key);
    var t := key + ":" + rest;
    assert t[..|key|] == key && t[|key|] == ':';
    IndexOfIs(t, ':', |key|);
  }

  lemma BlankBefore(key: string, val: string)
    ensures FieldLine(key, " ", val, "") == key + ": " + val && AreBlanks(" ") && AreBlanks("")
  {
    assert ":" + " " == ": ";
    Regroup(key, ":", " ", val);
  }

  // A field line is accepted exactly when its value is a field value, and then gives its key and value.
  lemma FieldParses(key: string, before: string, val: string, after: string)
    requires IsFieldLine(key, before, val, after)
    ensures ParseHeader(FieldLine(key, before, val, after))
         == if IsFieldValue(val) then Some((key, Content(key, val))) else None
  {
    hide TrimLeft, TrimRight, IndexOf, IsToken, IsFieldValue, EqualCI;
    var line := FieldLine(key, before, val, after);
    if val == "" {
      var t, blanks := key + ":", before + after;
      assert line == t + blanks && t[|t| - 1] == ':';
      TrimRightOff(t, blanks);
      Nothing(t);
      KeyEnds(key, "");
      Nothing("");
      TrimLeftOff("", "");
    } else {
      var t := key + ":" + (before + val);
      assert line == t + after && t[|t| - 1] == val[|val| - 1];
      TrimRightOff(t, after);
      KeyEnds(key, before + val);
      TrimLeftOff(before, val);
    }
  }

  lemma {:induction false} TrimLeftSplits(s: string) returns (blanks: string)
    ensures s == blanks + TrimLeft(s) && AreBlanks(blanks)
    ensures TrimLeft(s) != "" ==> !IsSpaceOrTab(TrimLeft(s)[0])
    decreases |s|
  {
    blanks := "";
    if s != "" && IsSpaceOrTab(s[0]) {
      var more := TrimLeftSplits(s[1..]);
      blanks := [s[0]] + more;
      assert s == [s[0]] + s[1..];
    }
  }

  lemma {:induction false} TrimRightSplits(s: string) returns (blanks: string)
    ensures s == TrimRight(s) + blanks && AreBlanks(blanks)
    ensures TrimRight(s) != "" ==> !IsSpaceOrTab(TrimRight(s)[|TrimRight(s)| - 1])
    decreases |s|
  {
    blanks := "";
    if s != "" && IsSpaceOrTab(s[|s| - 1]) {
      var more := TrimRightSplits(s[..|s| - 1]);
      blanks := more + [s[|s| - 1]];
      assert s == s[..|s| - 1] + [s[|s| - 1]];
    }
  }

  // Nothing else is accepted.
  lemma AcceptedIsFieldLine(line: string) returns (key: string, before: string, val: string, after: string)
    requires ParseHeader(line).Some?
    ensures IsFieldLine(key, before, val, after) && IsFieldValue(val) && line == FieldLine(key, before, val, after)
    ensures ParseHeader(line) == Some((key, Content(key, val)))
  {
    hide EqualCI, IsFieldValue, TrimRight, TrimLeft;
    var t := TrimRight(line);
    var p := IndexOf(t, ':');
    after := TrimRightSplits(line);
    before := TrimLeftSplits(t[p + 1..]);
    key, val := t[..p], TrimLeft(t[p + 1..]);
    AcceptedParts(t, p, before, val);
    FieldParses(key, before, val, after);
  }

  lemma AcceptedParts(t: string, p: nat, before: string, val: string)
    requires p < |t| && t[p] == ':' && t[p + 1..] == before + val && !IsSpaceOrTab(t[|t| - 1])
    ensures t == t[..p] + ":" + before + val && (val != "" ==> !IsSpaceOrTab(val[|val| - 1]))
  {
    assert t == t[..p] + ":" + t[p + 1..];
    if val != "" { assert t[|t| - 1] == t[p + 1..][|t| - p - 2]; }
  }

  // A value stands in the list as it was written exactly if it is a location or nothing in it decodes.
  lemma ContentUnchangedIff(key: string, val: string)
    ensures Content(key, val) == val <==> EqualCI(key, "Location") || EqualCI(key, "Referer") || IsLiteral(val, false)
  {
    DecodedUnchangedIff(val, false);
  }

  // ---- what a part takes from a field ----

  lemma StartsWithKey(key: string, name: string, rest: string)
    requires IsToken(key) && ':' !in name
    ensures StartsCI(key + ":" + rest, name + ":") <==> EqualCI(key, name)
  {
    hide IsToken;
    var line, b := key + ":" + rest, name + ":";
    TokenHasNoColon(key);
    assert |key| < |line| && line[|key|] == ':' && forall i :: 0 <= i < |key| ==> line[i] == key[i] != ':';
    if EqualCI(key, name) {
      assert line[..|b|] == key + ":";
    }
    if StartsCI(line, b) {
      assert |b| <= |line| && EqualCI(line[..|b|], b);
      forall i | 0 <= i < |b| ensures ToLower(line[i]) == ToLower(b[i]) && (line[i] == ':' <==> i == |name|) {
        assert line[..|b|][i] == line[i];
        OnlyColonIsColon(line[i]);
        OnlyColonIsColon(b[i]);
      }
      assert |name| == |key|;
      forall i | 0 <= i < |name| ensures ToLower(key[i]) == ToLower(name[i]) {
        assert line[i] == key[i] && b[i] == name[i];
      }
    }
  }

  lemma OnlyColonIsColon(c: char)
    ensures ToLower(c) == ToLower(':') <==> c == ':'
  {
  }

  ghost predicate IsTypeKey(key: string) {
    EqualCI(key, "Content-Type")
  }

  ghost predicate IsDispositionKey(key: string) {
    EqualCI(key, "Content-Disposition")
  }

  lemma NamesHaveNoColon()
    ensures ':' !in "Content-Type" && ':' !in "Content-Disposition"
    ensures "Content-Type" + ":" == "Content-Type:" && "Content-Disposition" + ":" == "Content-Disposition:"
    ensures |"Content-Type"| == 12 && |"Content-Disposition"| == 19
  {
    var t, d := "Content-Type", "Content-Disposition";
    assert |t| == 12 && |d| == 19;
  }

  // Every accepted line adds its field at the end of the part's list; a type field sets the type, a
  // disposition at most the two names, and any other field nothing else.  A line that is not accepted
  // changes nothing.
  lemma FieldIsRecorded(file: FormData, key: string, before: string, val: string, after: string)
    requires IsFieldLine(key, before, val, after)
    ensures var (f, ok) := HeaderLine(file, FieldLine(key, before, val, after));
      if !IsFieldValue(val) then f == file && !ok
      else
        && f.headers == file.headers + [(key, Content(key, val))]
        && f.contentType == (if IsTypeKey(key) then val else file.contentType)
        && (!IsDispositionKey(key) ==> ok && f.name == file.name && f.filename == file.filename)
  {
    var line := FieldLine(key, before, val, after);
    FieldParses(key, before, val, after);
    NamesHaveNoColon();
    Regroup(key + ":", before, val, after);
    StartsWithKey(key, "Content-Type", before + (val + after));
    StartsWithKey(key, "Content-Disposition", before + (val + after));
    hide ParseHeader, StartsCI, EqualCI, DispositionParams, Trim, IsFieldValue, FieldLine;
    if IsTypeKey(key) { TypeOf(key, before, val, after); }
  }

  lemma TypeOf(key: string, before: string, val: string, after: string)
    requires IsFieldLine(key, before, val, after) && IsTypeKey(key)
    ensures |FieldLine(key, before, val, after)| >= 13 && Trim(FieldLine(key, before, val, after)[13..]) == val
  {
    NamesHaveNoColon();
    var line := FieldLine(key, before, val, after);
    assert line[13..] == before + val + after;
    hide TrimLeft, TrimRight;
    if val == "" {
      TrimLeftOff(before + after, "");
      assert before + val + after == before + after + "";
      TrimRightOff("", "");
    } else {
      assert before + val + after == before + (val + after);
      TrimLeftOff(before, val + after);
      TrimRightOff(val, after);
    }
  }
}
