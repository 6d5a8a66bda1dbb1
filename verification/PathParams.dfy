/**
  Route patterns with parameters, such as "/users/:id/posts": how a pattern is compiled into static
  fragments and parameter names, and how a request path is matched against them.
*/
module PathParams {
  import opened Basics
  import opened Text

  const MARKER := "/:"

  // ---- what a pattern means ----

  // The parameters are the segments after the first that begin with a colon.
  predicate IsParam(segment: string, first: bool) {
    !first && segment != "" && segment[0] == ':'
  }

  function Names(pattern: string, first: bool): seq<string>
    decreases |pattern|
  {
    var i := IndexOf(pattern, '/');
    (if IsParam(pattern[..i], first) then [pattern[1..i]] else [])
    + if i == |pattern| then [] else Names(pattern[i + 1..], false)
  }

  // The pattern with the values in the places of its parameters.
  function Instance(pattern: string, first: bool, values: seq<string>): string
    requires |values| == |Names(pattern, first)|
    decreases |pattern|
  {
    var i := IndexOf(pattern, '/');
    var isParam := IsParam(pattern[..i], first);
    assert |values| == (if isParam then 1 else 0) + if i == |pattern| then 0 else |Names(pattern[i + 1..], false)|;
    (if isParam then values[0] else pattern[..i])
    + if i == |pattern| then "" else "/" + Instance(pattern[i + 1..], false, if isParam then values[1..] else values)
  }

  // ---- compiled patterns ----

  datatype Matcher = Matcher(fragments: seq<string>, names: seq<string>)

  // Every parameter follows its fragment; there may be one fragment more.
  predicate IsWhole(fragments: seq<string>, count: nat) {
    count <= |fragments| <= count + 1
  }

  function Fill(fragments: seq<string>, values: seq<string>): string
    requires IsWhole(fragments, |values|)
    decreases |fragments|
  {
    if fragments == [] then ""
    else if values == [] then fragments[0]
    else if |fragments| == 1 then fragments[0] + values[0]
    else fragments[0] + values[0] + ("/" + Fill(fragments[1..], values[1..]))
  }

  function Scanned(s: string, first: bool): string {
    if first then s else "/" + s
  }

  // Where the first parameter's marker ends.
  function MarkerEnd(s: string, first: bool): (n: int)
    ensures -1 <= n < |s|
  {
    var t := Scanned(s, first);
    var at := Find(t, MARKER);
    if at == |t| then -1 else if first then at + 1 else at
  }

  function Compiled(s: string, first: bool): (m: Matcher)
    ensures IsWhole(m.fragments, |m.names|)
    decreases |s|
  {
    var n := MarkerEnd(s, first);
    if n < 0 then Matcher(if s == "" then [] else [s], [])
    else
      var i := IndexOf(s[n + 1..], '/');
      var name := s[n + 1..][..i];
      if n + 1 + i == |s| then Matcher([s[..n]], [name])
      else
        var rest := Compiled(s[n + 1 + i + 1..], false);
        Matcher([s[..n]] + rest.fragments, [name] + rest.names)
  }

  // A slash after a parameter at the very end of the pattern is dropped.
  predicate DropsSlash(s: string, m: Matcher) {
    |m.fragments| == |m.names| && m.names != [] && s != "" && s[|s| - 1] == '/'
  }

  lemma FindSkip(t: string, pat: string, k: nat)
    requires pat != "" && k <= |t| && forall j :: 0 <= j < k ==> !StartsAt(t, j, pat)
    ensures Find(t, pat) == k + Find(t[k..], pat)
  {
    var r := k + Find(t[k..], pat);
    forall j | 0 <= j <= |t| - k ensures StartsAt(t[k..], j, pat) == StartsAt(t, k + j, pat) {
      if k + j + |pat| <= |t| { assert t[k..][j..j + |pat|] == t[k + j..k + j + |pat|]; }
    }
    forall j | 0 <= j < r ensures !StartsAt(t, j, pat) {
      if j >= k { assert !StartsAt(t[k..], j - k, pat); }
    }
    FindIs(t, pat, r);
  }

  lemma NoMarkerBefore(t: string, k: nat)
    requires k <= |t| && !StartsAt(t, 0, MARKER)
    requires forall j :: 0 < j < k ==> t[j] != '/'
    ensures forall j :: 0 <= j < k ==> !StartsAt(t, j, MARKER)
  {
    forall j | 0 <= j < k ensures !StartsAt(t, j, MARKER) {
      if j > 0 && j + 2 <= |t| { assert t[j..j + 2][0] == t[j]; }
    }
  }

  lemma NotMarkedAtStart(s: string, first: bool)
    requires !IsParam(s[..IndexOf(s, '/')], first)
    requires first ==> s != "" && s[0] != '/'
    ensures !StartsAt(Scanned(s, first), 0, MARKER)
  {
    var t := Scanned(s, first);
    if |t| >= 2 {
      assert t[0..2][0] == t[0] && t[0..2][1] == t[1];
      if !first && IndexOf(s, '/') > 0 { assert s[..IndexOf(s, '/')][0] == s[0]; }
    }
  }

  lemma FirstMarkerSkip(s: string, first: bool, i: nat)
    requires i == IndexOf(s, '/') < |s| && !IsParam(s[..i], first)
    ensures Find(Scanned(s, first), MARKER) == (if first then i else i + 1) + Find(Scanned(s[i + 1..], false), MARKER)
    ensures |Scanned(s, first)| == (if first then i else i + 1) + |Scanned(s[i + 1..], false)|
  {
    hide StartsAt, IsParam, Find;
    var t := Scanned(s, first);
    var k := if first then i else i + 1;
    assert t[k..] == Scanned(s[i + 1..], false);
    if k > 0 {
      NotMarkedAtStart(s, first);
      NoMarkerBefore(t, k);
    }
    FindSkip(t, MARKER, k);
  }

  // A first segment that is no parameter can be cut off.
  lemma MarkerEndSkip(s: string, first: bool)
    requires IndexOf(s, '/') < |s| && !IsParam(s[..IndexOf(s, '/')], first)
    ensures var i := IndexOf(s, '/');
      var n := MarkerEnd(s[i + 1..], false);
      MarkerEnd(s, first) == if n < 0 then -1 else i + 1 + n
  {
    hide StartsAt, IsParam, Find, Scanned, MarkerEnd;
    FirstMarkerSkip(s, first, IndexOf(s, '/'));
    hide IndexOf;
    MarkerEndIs(s, first);
    MarkerEndIs(s[IndexOf(s, '/') + 1..], false);
  }

  lemma MarkerEndNone(s: string, first: bool)
    requires IndexOf(s, '/') == |s| && !IsParam(s, first)
    ensures MarkerEnd(s, first) == -1
  {
    assert s[..|s|] == s;
    var t := Scanned(s, first);
    if t != "" {
      NotMarkedAtStart(s, first);
      hide StartsAt, IsParam;
      NoMarkerBefore(t, |t|);
      FindIs(t, MARKER, |t|);
    }
  }

  lemma MarkerEndParam(s: string)
    requires IsParam(s[..IndexOf(s, '/')], false)
    ensures MarkerEnd(s, false) == 0
  {
    assert s[..IndexOf(s, '/')][0] == s[0];
    var t := Scanned(s, false);
    assert t[0..2] == MARKER;
    FindIs(t, MARKER, 0);
  }

  function Prefixed(text: string, fragments: seq<string>): seq<string> {
    if fragments == [] then [text] else [text + fragments[0]] + fragments[1..]
  }

  lemma PrefixedCons(text: string, head: string, tail: seq<string>)
    ensures Prefixed(text, [head] + tail) == [text + head] + tail
    ensures Prefixed(text, [head]) == [text + head] && Prefixed(text, []) == [text]
  {
  }

  lemma CompiledIs(s: string, first: bool, n: nat, i: nat)
    requires MarkerEnd(s, first) == n && i == IndexOf(s[n + 1..], '/')
    ensures n + 1 + i == |s| ==> Compiled(s, first) == Matcher([s[..n]], [s[n + 1..][..i]])
    ensures n + 1 + i < |s| ==>
      var rest := Compiled(s[n + 1 + i + 1..], false);
      Compiled(s, first) == Matcher([s[..n]] + rest.fragments, [s[n + 1..][..i]] + rest.names)
  {
    hide MarkerEnd, IndexOf;
  }

  lemma CompiledStatic(s: string, first: bool)
    requires MarkerEnd(s, first) == -1
    ensures Compiled(s, first) == Matcher(if s == "" then [] else [s], [])
  {
    hide MarkerEnd;
  }

  lemma SlicesLater(s: string, k: nat, n: nat, m: nat)
    requires k + n + 1 <= |s|
    ensures s[..k] + s[k..][..n] == s[..k + n] && s[k..][n + 1..] == s[k + n + 1..]
    ensures k + m <= |s| ==> s[k..][m..] == s[k + m..]
  {
  }

  // What compiling a first segment does: it becomes part of the first fragment ...
  lemma CompiledSkip(s: string, first: bool)
    requires IndexOf(s, '/') < |s| && !IsParam(s[..IndexOf(s, '/')], first)
    ensures var i := IndexOf(s, '/');
      var rest := Compiled(s[i + 1..], false);
      Compiled(s, first) == Matcher(Prefixed(s[..i + 1], rest.fragments), rest.names)
  {
    hide MarkerEnd, IsParam, IndexOf, Compiled, Prefixed;
    MarkerEndSkip(s, first);
    var i := IndexOf(s, '/');
    var n := MarkerEnd(s[i + 1..], false);
    if n < 0 {
      CompiledStatic(s, first);
      CompiledStatic(s[i + 1..], false);
      assert s == s[..i + 1] + s[i + 1..];
      PrefixedCons(s[..i + 1], s[i + 1..], []);
      if s[i + 1..] == "" { assert s == s[..i + 1]; }
    } else {
      CompiledLater(s, first, i + 1, n);
    }
  }

  lemma CompiledLater(s: string, first: bool, k: nat, n: nat)
    requires k <= |s| && MarkerEnd(s[k..], false) == n && MarkerEnd(s, first) == k + n
    ensures var rest := Compiled(s[k..], false);
      Compiled(s, first) == Matcher(Prefixed(s[..k], rest.fragments), rest.names)
  {
    hide MarkerEnd, IndexOf, Compiled, Prefixed;
    var i := IndexOf(s[k..][n + 1..], '/');
    SlicesLater(s, k, n, n + 1 + i + 1);
    CompiledIs(s[k..], false, n, i);
    CompiledIs(s, first, k + n, i);
    if n + 1 + i == |s[k..]| {
      PrefixedCons(s[..k], s[k..][..n], []);
    } else {
      CompiledLaterMore(s, k, n, n + 1 + i + 1);
    }
  }

  lemma CompiledLaterMore(s: string, k: nat, n: nat, far: nat)
    requires k + n + 1 <= |s| && k + far <= |s|
    ensures var rest := Compiled(s[k + far..], false);
      && s[k..][far..] == s[k + far..]
      && [s[..k + n]] + rest.fragments == Prefixed(s[..k], [s[k..][..n]] + rest.fragments)
  {
    hide Compiled, Prefixed;
    SlicesLater(s, k, n, far);
    PrefixedCons(s[..k], s[k..][..n], Compiled(s[k + far..], false).fragments);
  }

  // ... or a parameter after an empty fragment.
  lemma CompiledParam(s: string)
    requires IsParam(s[..IndexOf(s, '/')], false)
    ensures var i := IndexOf(s, '/');
      i >= 1 &&
      if i == |s| then Compiled(s, false) == Matcher([""], [s[1..i]])
      else
        var rest := Compiled(s[i + 1..], false);
        Compiled(s, false) == Matcher([""] + rest.fragments, [s[1..i]] + rest.names)
  {
    hide Compiled, MarkerEnd, IsParam, IndexOf;
    MarkerEndParam(s);
    NameEnd(s);
    CompiledName(s, IndexOf(s, '/'));
  }

  lemma CompiledName(s: string, i: nat)
    requires 1 <= i <= |s| && MarkerEnd(s, false) == 0
    requires IndexOf(s[1..], '/') == i - 1 && s[1..][..i - 1] == s[1..i]
    ensures i == |s| ==> Compiled(s, false) == Matcher([""], [s[1..i]])
    ensures i < |s| ==>
      var rest := Compiled(s[i + 1..], false);
      Compiled(s, false) == Matcher([""] + rest.fragments, [s[1..i]] + rest.names)
  {
    hide Compiled, MarkerEnd, IndexOf;
    assert s[..0] == "";
    CompiledIs(s, false, 0, i - 1);
  }

  lemma NameEnd(s: string)
    requires IsParam(s[..IndexOf(s, '/')], false)
    ensures var i := IndexOf(s, '/');
      i >= 1 && IndexOf(s[1..], '/') == i - 1 && s[1..][..i - 1] == s[1..i]
  {
    var i := IndexOf(s, '/');
    assert s[..i][0] == s[0] == ':';
  }

  lemma FillPrefixed(text: string, fragments: seq<string>, values: seq<string>)
    requires IsWhole(fragments, |values|)
    ensures IsWhole(Prefixed(text, fragments), |values|)
    ensures Fill(Prefixed(text, fragments), values) == text + Fill(fragments, values)
  {
    if fragments == [] {
      assert text + "" == text;
    } else if values != [] {
      var f, v := fragments[0], values[0];
      var more := if |fragments| == 1 then "" else "/" + Fill(fragments[1..], values[1..]);
      assert text + f + v + more == text + (f + v + more);
      assert text + f + v == text + (f + v);
    }
  }

  lemma FillParam(fragments: seq<string>, values: seq<string>)
    requires values != [] && IsWhole(fragments, |values| - 1)
    ensures Fill([""] + fragments, values)
         == if fragments == [] then values[0] else values[0] + "/" + Fill(fragments, values[1..])
  {
    var all := [""] + fragments;
    assert all[1..] == fragments;
    assert "" + values[0] == values[0];
    if fragments != [] {
      assert values[0] + ("/" + Fill(fragments, values[1..])) == values[0] + "/" + Fill(fragments, values[1..]);
    }
  }

  function Dropped(s: string, m: Matcher): string {
    if DropsSlash(s, m) then "/" else ""
  }

  lemma InstanceLast(s: string, first: bool, values: seq<string>)
    requires IndexOf(s, '/') == |s| && |values| == |Names(s, first)|
    ensures s[..|s|] == s
    ensures if IsParam(s, first) then Names(s, first) == [s[1..]] && Instance(s, first, values) == values[0]
            else Names(s, first) == [] && Instance(s, first, values) == s
  {
    assert s[..|s|] == s;
    if IsParam(s, first) { assert s[1..|s|] == s[1..]; }
  }

  lemma InstanceMore(s: string, first: bool, values: seq<string>, i: nat)
    requires i == IndexOf(s, '/') < |s| && |values| == |Names(s, first)|
    ensures if IsParam(s[..i], first) then
              && |values| == 1 + |Names(s[i + 1..], false)|
              && Names(s, first) == [s[1..i]] + Names(s[i + 1..], false)
              && Instance(s, first, values) == values[0] + ("/" + Instance(s[i + 1..], false, values[1..]))
            else
              && Names(s, first) == Names(s[i + 1..], false)
              && Instance(s, first, values) == s[..i] + ("/" + Instance(s[i + 1..], false, values))
  {
    hide IndexOf;
  }

  // Compiling finds the parameters, and filling the fragments gives the pattern with the values in their
  // places, but for a dropped slash.
  lemma {:induction false} CompiledMeans(s: string, first: bool, values: seq<string>)
    requires |values| == |Names(s, first)|
    ensures var m := Compiled(s, first);
      m.names == Names(s, first) && Fill(m.fragments, values) + Dropped(s, m) == Instance(s, first, values)
    decreases |s|
  {
    hide Compiled, Names, Instance, Fill, IsParam, IndexOf, Dropped;
    var i := IndexOf(s, '/');
    if i == |s| {
      InstanceLast(s, first, values);
      LastSegment(s, first, values);
    } else if IsParam(s[..i], first) {
      InstanceMore(s, first, values, i);
      CompiledMeans(s[i + 1..], false, values[1..]);
      assert !first by { NotFirst(s[..i], first); }
      ParamSegment(s, i, Compiled(s[i + 1..], false), values);
    } else {
      InstanceMore(s, first, values, i);
      CompiledMeans(s[i + 1..], false, values);
      StaticSegment(s, first, i, Compiled(s[i + 1..], false), values);
    }
  }

  lemma NotFirst(segment: string, first: bool)
    requires IsParam(segment, first)
    ensures !first
  {
  }

  lemma LastSegment(s: string, first: bool, values: seq<string>)
    requires IndexOf(s, '/') == |s|
    requires |values| == if IsParam(s, first) then 1 else 0
    ensures s[..|s|] == s
    ensures var m := Compiled(s, first);
      && m.names == (if IsParam(s, first) then [s[1..]] else [])
      && Fill(m.fragments, values) + Dropped(s, m) == if IsParam(s, first) then values[0] else s
  {
    hide Compiled, MarkerEnd;
    assert s[..|s|] == s;
    if IsParam(s, first) {
      CompiledParam(s);
      assert s[1..|s|] == s[1..];
      assert s[|s| - 1] != '/';
      FillParam([], values);
      assert [""] + [] == [""];
    } else {
      MarkerEndNone(s, first);
      CompiledStatic(s, first);
    }
  }

  lemma DroppedRest(s: string, m: Matcher, i: nat, rest: Matcher)
    requires i < |s| && s[i] == '/'
    requires IsWhole(rest.fragments, |rest.names|) && (s[i + 1..] != "" <==> rest.fragments != [])
    requires m.fragments == [""] + rest.fragments && |m.names| == 1 + |rest.names|
    ensures Dropped(s, m) == if rest.fragments == [] then "/" else Dropped(s[i + 1..], rest)
  {
    if s[i + 1..] != "" { assert s[i + 1..][|s| - i - 2] == s[|s| - 1]; }
  }

  lemma ParamSegment(s: string, i: nat, rest: Matcher, values: seq<string>)
    requires i == IndexOf(s, '/') < |s| && IsParam(s[..i], false)
    requires rest == Compiled(s[i + 1..], false) && |values| == 1 + |rest.names|
    ensures var m := Compiled(s, false);
      && m.names == [s[1..i]] + rest.names
      && Fill(m.fragments, values) + Dropped(s, m)
         == values[0] + ("/" + (Fill(rest.fragments, values[1..]) + Dropped(s[i + 1..], rest)))
  {
    hide Compiled, Fill, IsParam, Dropped, IndexOf;
    CompiledParam(s);
    FillParam(rest.fragments, values);
    SomeFragment(s[i + 1..], false);
    SlashAt(s, i);
    DroppedRest(s, Compiled(s, false), i, rest);
    NoFill();
    JoinSlash(values[0], Fill(rest.fragments, values[1..]), Dropped(s[i + 1..], rest));
  }

  lemma SlashAt(s: string, i: nat)
    requires i == IndexOf(s, '/') < |s|
    ensures s[i] == '/'
  {
  }

  lemma JoinSlash(v: string, fill: string, dropped: string)
    ensures v + "/" + fill + dropped == v + ("/" + (fill + dropped))
    ensures v + "/" == v + ("/" + ("" + ""))
  {
  }

  lemma NoFill()
    ensures Fill([], []) == ""
    ensures forall m :: Dropped("", m) == ""
  {
  }

  lemma SomeFragment(s: string, first: bool)
    ensures Compiled(s, first).fragments == [] <==> s == ""
  {
    hide IndexOf;
  }

  lemma DroppedPrefixed(s: string, i: nat, rest: Matcher)
    requires i < |s| && IsWhole(rest.fragments, |rest.names|) && (rest.fragments != [] ==> s[i + 1..] != "")
    ensures Dropped(s, Matcher(Prefixed(s[..i + 1], rest.fragments), rest.names)) == Dropped(s[i + 1..], rest)
  {
    if rest.fragments != [] { assert s[i + 1..][|s| - i - 2] == s[|s| - 1]; }
  }

  lemma StaticSegment(s: string, first: bool, i: nat, rest: Matcher, values: seq<string>)
    requires i == IndexOf(s, '/') < |s| && !IsParam(s[..i], first)
    requires rest == Compiled(s[i + 1..], false) && |values| == |rest.names|
    ensures var m := Compiled(s, first);
      && m.names == rest.names
      && Fill(m.fragments, values) + Dropped(s, m)
         == s[..i] + ("/" + (Fill(rest.fragments, values) + Dropped(s[i + 1..], rest)))
  {
    hide Compiled, Fill, IsParam, Dropped, Prefixed;
    CompiledSkip(s, first);
    FillPrefixed(s[..i + 1], rest.fragments, values);
    SomeFragment(s[i + 1..], false);
    DroppedPrefixed(s, i, rest);
    hide IndexOf;
    var fill, dropped := Fill(rest.fragments, values), Dropped(s[i + 1..], rest);
    assert s[..i + 1] == s[..i] + "/";
    assert s[..i + 1] + fill + dropped == s[..i] + ("/" + (fill + dropped));
  }

  // ---- the compiler ----

  datatype Compilation = Success(matcher: Matcher) | Repeated(name: string)

  ghost predicate AreDistinct(names: seq<string>) {
    forall i, j :: 0 <= i < j < |names| ==> names[i] != names[j]
  }

  lemma FindFromSkip(s: string, pat: string, i: nat)
    requires i <= |s| && pat != ""
    ensures FindFrom(s, pat, i) == i + Find(s[i..], pat)
  {
    var r := FindFrom(s, pat, i);
    forall j | 0 <= j <= |s| - i ensures StartsAt(s[i..], j, pat) == StartsAt(s, i + j, pat) {
      if i + j + |pat| <= |s| { assert s[i..][j..j + |pat|] == s[i + j..i + j + |pat|]; }
    }
    forall j | 0 <= j < r - i ensures !StartsAt(s[i..], j, pat) {
      assert !StartsAt(s, i + j, pat);
    }
    FindIs(s[i..], pat, r - i);
  }

  // `end` is one past the end of the last parameter, and may be one past the end of the pattern.
  ghost predicate CompiledSoFar(pattern: string, end: nat, fragments: seq<string>, names: seq<string>) {
    && end <= |pattern| + 1
    && (0 < end <= |pattern| ==> pattern[end - 1] == '/')
    && var m := Compiled(pattern, true);
      if end == |pattern| + 1 then m == Matcher(fragments, names)
      else
        var rest := Compiled(pattern[end..], end == 0);
        m == Matcher(fragments + rest.fragments, names + rest.names)
  }

  lemma MarkerEndIs(s: string, first: bool)
    ensures var t := Scanned(s, first);
      var at := Find(t, MARKER);
      if at == |t| then MarkerEnd(s, first) == -1
      else at + 2 <= |t| && MarkerEnd(s, first) == if first then at + 1 else at
  {
  }

  lemma MarkerFrom(pattern: string, end: nat)
    requires end <= |pattern| && (end > 0 ==> pattern[end - 1] == '/')
    ensures var at := FindFrom(pattern, MARKER, if end == 0 then 0 else end - 1);
      var n := MarkerEnd(pattern[end..], end == 0);
      if at == |pattern| then n == -1 else end <= at + 1 && at + 2 <= |pattern| && n == at + 1 - end
  {
    var from := if end == 0 then 0 else end - 1;
    FindFromSkip(pattern, MARKER, from);
    assert pattern[from..] == Scanned(pattern[end..], end == 0);
    hide Scanned, StartsAt, Find;
    MarkerEndIs(pattern[end..], end == 0);
  }

  lemma SoFarStart(pattern: string)
    ensures CompiledSoFar(pattern, 0, [], [])
  {
    assert pattern[0..] == pattern;
    var m := Compiled(pattern, true);
    assert [] + m.fragments == m.fragments && [] + m.names == m.names;
  }

  lemma SlicesAt(pattern: string, end: nat, at: nat, sep: nat)
    requires end <= at + 1 && at + 2 <= sep <= |pattern|
    ensures var s, n, i := pattern[end..], at + 1 - end, sep - (at + 2);
      && s[n + 1..] == pattern[at + 2..] && s[..n] == pattern[end..at + 1]
      && s[n + 1..][..i] == pattern[at + 2..sep]
      && (sep < |pattern| ==> s[n + 1 + i + 1..] == pattern[sep + 1..])
  {
  }

  lemma SeparatorIsSlash(pattern: string, at: nat, sep: nat)
    requires at + 2 <= sep <= |pattern| && sep - (at + 2) == IndexOf(pattern[at + 2..], '/')
    ensures sep < |pattern| ==> pattern[sep] == '/'
  {
    if sep < |pattern| { assert pattern[at + 2..][sep - (at + 2)] == '/'; }
  }

  // The next fragment and name of what is still to be compiled.
  lemma CompiledNext(pattern: string, end: nat, at: nat, sep: nat)
    requires end <= at + 1 && at + 2 <= sep <= |pattern|
    requires MarkerEnd(pattern[end..], end == 0) == at + 1 - end
    requires sep - (at + 2) == IndexOf(pattern[at + 2..], '/')
    ensures sep < |pattern| ==> pattern[sep] == '/'
    ensures var fragment, name := pattern[end..at + 1], pattern[at + 2..sep];
      Compiled(pattern[end..], end == 0) ==
        if sep == |pattern| then Matcher([fragment], [name])
        else
          var rest := Compiled(pattern[sep + 1..], false);
          Matcher([fragment] + rest.fragments, [name] + rest.names)
  {
    hide Compiled, MarkerEnd, IndexOf;
    SlicesAt(pattern, end, at, sep);
    SeparatorIsSlash(pattern, at, sep);
    CompiledIs(pattern[end..], end == 0, at + 1 - end, sep - (at + 2));
  }

  lemma AppendTwo<T>(xs: seq<T>, x: T, rest: seq<T>)
    ensures xs + ([x] + rest) == xs + [x] + rest
    ensures xs + [x] <= xs + [x] + rest
  {
  }

  lemma SoFarNext(pattern: string, end: nat, fragments: seq<string>, names: seq<string>, at: nat, sep: nat)
    requires CompiledSoFar(pattern, end, fragments, names) && end <= |pattern| && at + 2 <= sep <= |pattern|
    requires end <= at + 1 && MarkerEnd(pattern[end..], end == 0) == at + 1 - end
    requires sep - (at + 2) == IndexOf(pattern[at + 2..], '/')
    ensures CompiledSoFar(pattern, sep + 1, fragments + [pattern[end..at + 1]], names + [pattern[at + 2..sep]])
    ensures names + [pattern[at + 2..sep]] <= Compiled(pattern, true).names
  {
    hide Compiled, MarkerEnd, IndexOf;
    CompiledNext(pattern, end, at, sep);
    var fragment, name := pattern[end..at + 1], pattern[at + 2..sep];
    var rest := if sep == |pattern| then Matcher([], []) else Compiled(pattern[sep + 1..], false);
    AppendTwo(fragments, fragment, rest.fragments);
    AppendTwo(names, name, rest.names);
  }

  lemma SoFarEnd(pattern: string, end: nat, fragments: seq<string>, names: seq<string>)
    requires CompiledSoFar(pattern, end, fragments, names)
    requires end <= |pattern| ==> MarkerEnd(pattern[end..], end == 0) == -1
    ensures Compiled(pattern, true)
         == Matcher(if end < |pattern| then fragments + [pattern[end..]] else fragments, names)
  {
    hide Compiled, MarkerEnd;
    if end <= |pattern| { CompiledStatic(pattern[end..], end == 0); }
  }

  lemma CompiledNames(pattern: string)
    ensures Compiled(pattern, true).names == Names(pattern, true)
  {
    CompiledMeans(pattern, true, seq(|Names(pattern, true)|, _ => ""));
  }

  lemma RepeatedIn(names: seq<string>, name: string, all: seq<string>)
    requires name in names && names + [name] <= all
    ensures multiset(all)[name] >= 2 && !AreDistinct(all)
  {
    var i :| 0 <= i < |names| && names[i] == name;
    assert all[i] == name && all[|names|] == (names + [name])[|names|] == name;
    assert all == names + [name] + all[|names| + 1..];
    assert multiset(all) == multiset(names) + multiset{name} + multiset(all[|names| + 1..]);
    assert name in multiset(names);
  }

  method Compile(pattern: string) returns (c: Compilation)
    ensures c.Success? <==> AreDistinct(Names(pattern, true))
    ensures c.Success? ==> c.matcher == Compiled(pattern, true)
    ensures c.Repeated? ==> multiset(Names(pattern, true))[c.name] >= 2
  {
    hide Compiled, MarkerEnd, IndexOf, FindFrom, CompiledSoFar, Names;
    CompiledNames(pattern);
    var fragments, names: seq<string> := [], [];
    var end := 0;
    SoFarStart(pattern);
    while true
      invariant CompiledSoFar(pattern, end, fragments, names) && AreDistinct(names)
      invariant end <= |pattern| + 1
      decreases |pattern| + 1 - end
    {
      var at := FindFrom(pattern, MARKER, if end == 0 then 0 else end - 1);
      SoFarSlash(pattern, end, fragments, names);
      if end <= |pattern| { MarkerFrom(pattern, end); }
      if at == |pattern| { break; }
      var start := at + 2;
      var sep := start + IndexOf(pattern[start..], '/');
      var name := pattern[start..sep];
      SoFarNext(pattern, end, fragments, names, at, sep);
      fragments := fragments + [pattern[end..at + 1]];
      if name in names {
        RepeatedIn(names, name, Names(pattern, true));
        return Repeated(name);
      }
      names := names + [name];
      end := sep + 1;
    }
    SoFarEnd(pattern, end, fragments, names);
    if end < |pattern| {
      fragments := fragments + [pattern[end..]];
    }
    return Success(Matcher(fragments, names));
  }

  lemma SoFarSlash(pattern: string, end: nat, fragments: seq<string>, names: seq<string>)
    requires CompiledSoFar(pattern, end, fragments, names)
    ensures 0 < end <= |pattern| ==> pattern[end - 1] == '/'
  {
  }

  // ---- the matcher ----

  // strncmp(a, b, |a|) == 0: the comparison ends at a common NUL.
  predicate IsSame(a: string, b: string)
    requires |a| == |b|
  {
    a == "" || (a[0] == b[0] && (a[0] == '\0' || IsSame(a[1..], b[1..])))
  }

  predicate HasNoInnerNul(f: string) {
    forall i :: 0 <= i < |f| - 1 ==> f[i] != '\0'
  }

  // Exactly the fragments without a NUL inside are compared as a whole.
  lemma {:induction false} ComparesWholeIff(f: string)
    ensures (forall a | |a| == |f| :: IsSame(a, f) <==> a == f) <==> HasNoInnerNul(f)
  {
    if HasNoInnerNul(f) {
      forall a | |a| == |f| ensures IsSame(a, f) <==> a == f { SameMeansEqual(a, f); }
    } else {
      var x := SameButDifferent(f);
    }
  }

  lemma {:induction false} SameMeansEqual(a: string, f: string)
    requires |a| == |f| && HasNoInnerNul(f)
    ensures IsSame(a, f) <==> a == f
  {
    if |f| > 1 {
      SameMeansEqual(a[1..], f[1..]);
      assert a == [a[0]] + a[1..] && f == [f[0]] + f[1..];
    }
  }

  lemma {:induction false} SameToNul(a: string, f: string, i: nat)
    requires |a| == |f| && i < |f| && f[i] == '\0' && a[..i + 1] == f[..i + 1]
    ensures IsSame(a, f)
    decreases i
  {
    assert a[0] == a[..i + 1][0] == f[..i + 1][0] == f[0];
    if i > 0 {
      assert a[1..][..i] == a[..i + 1][1..] == f[..i + 1][1..] == f[1..][..i];
      SameToNul(a[1..], f[1..], i - 1);
    }
  }

  function Cons(value: string, rest: Option<seq<string>>): Option<seq<string>> {
    match rest
    case None => None
    case Some(values) => Some([value] + values)
  }

  // The values of the parameters, when the whole path matches.
  function Matched(fragments: seq<string>, count: nat, path: string): (values: Option<seq<string>>)
    requires IsWhole(fragments, count)
    decreases |fragments|
  {
    if fragments == [] then if path == "" then Some([]) else None
    else
      var f := fragments[0];
      if |path| < |f| || !IsSame(path[..|f|], f) then None
      else if count == 0 then Matched(fragments[1..], 0, path[|f|..])
      else
        var rest := path[|f|..];
        var i := IndexOf(rest, '/');
        if i == |rest| then if |fragments| == 1 then Some([rest]) else None
        else Cons(rest[..i], Matched(fragments[1..], count - 1, rest[i + 1..]))
  }

  predicate HasNoSlash(values: seq<string>) {
    forall i :: 0 <= i < |values| ==> '/' !in values[i]
  }

  ghost predicate ComparesWhole(fragments: seq<string>) {
    forall i :: 0 <= i < |fragments| ==> HasNoInnerNul(fragments[i])
  }

  // One optional slash after a parameter at the end.
  ghost predicate Fits(fragments: seq<string>, values: seq<string>, path: string)
    requires IsWhole(fragments, |values|)
  {
    path == Fill(fragments, values) || (|fragments| == |values| > 0 && path == Fill(fragments, values) + "/")
  }

  lemma FitsStart(fragments: seq<string>, values: seq<string>, path: string)
    requires fragments != [] && IsWhole(fragments, |values|) && Fits(fragments, values, path)
    ensures fragments[0] <= path
  {
  }

  lemma FitsLast(f: string, values: seq<string>, rest: string)
    requires |values| <= 1
    ensures Fits([f], values, f + rest) <==>
      if values == [] then rest == "" else rest == values[0] || rest == values[0] + "/"
  {
    if values != [] {
      var v := values[0];
      assert f + v + "/" == f + (v + "/");
      Cancel(f, rest, v);
      Cancel(f, rest, v + "/");
    } else {
      assert f + "" == f;
      Cancel(f, rest, "");
    }
  }

  lemma Cancel(a: string, b: string, c: string)
    ensures a + b == a + c <==> b == c
  {
    assert (a + b)[|a|..] == b && (a + c)[|a|..] == c;
  }

  predicate IsCutAt(rest: string, v: string) {
    |v| < |rest| && rest[..|v|] == v && rest[|v|] == '/'
  }

  lemma FitsMore(fragments: seq<string>, values: seq<string>, rest: string)
    requires |fragments| > 1 && values != [] && IsWhole(fragments, |values|)
    ensures Fits(fragments, values, fragments[0] + rest) <==>
      IsCutAt(rest, values[0]) && Fits(fragments[1..], values[1..], rest[|values[0]| + 1..])
  {
    var f, v, fill := fragments[0], values[0], Fill(fragments[1..], values[1..]);
    hide Fill;
    FillMore(fragments, values);
    assert f + v + ("/" + fill) == f + (v + "/" + fill);
    assert f + v + ("/" + fill) + "/" == f + (v + "/" + (fill + "/"));
    Cancel(f, rest, v + "/" + fill);
    Cancel(f, rest, v + "/" + (fill + "/"));
    CutAt(rest, v, fill);
    CutAt(rest, v, fill + "/");
  }

  lemma FillMore(fragments: seq<string>, values: seq<string>)
    requires |fragments| > 1 && values != [] && IsWhole(fragments, |values|)
    ensures Fill(fragments, values) == fragments[0] + values[0] + ("/" + Fill(fragments[1..], values[1..]))
  {
  }

  lemma CutAt(rest: string, v: string, x: string)
    ensures rest == v + "/" + x <==>
      |v| < |rest| && rest[..|v|] == v && rest[|v|] == '/' && rest[|v| + 1..] == x
  {
    if |v| < |rest| && rest[|v|] == '/' {
      assert rest == rest[..|v|] + "/" + rest[|v| + 1..];
    }
    var s := v + "/" + x;
    assert s[..|v|] == v && s[|v|] == '/' && s[|v| + 1..] == x;
  }

  lemma SlashFreePrefix(rest: string, v: string)
    requires '/' !in v && |v| <= |rest| && rest[..|v|] == v && (|v| == |rest| || rest[|v|] == '/')
    ensures IndexOf(rest, '/') == |v|
  {
    forall k | 0 <= k < |v| ensures rest[k] != '/' { assert rest[k] == v[k]; }
    IndexOfIs(rest, '/', |v|);
  }

  lemma {:induction false} SameItself(f: string)
    ensures IsSame(f, f)
  {
    if f != "" { SameItself(f[1..]); }
  }

  // A path that does not begin with the first fragment.
  lemma MatchedElsewhere(fragments: seq<string>, count: nat, path: string, values: seq<string>)
    requires fragments != [] && IsWhole(fragments, count) && |values| == count && !(fragments[0] <= path)
    ensures !Fits(fragments, values, path)
    ensures ComparesWhole(fragments) ==> Matched(fragments, count, path) == None
  {
    hide IsSame, HasNoInnerNul;
    var f := fragments[0];
    if Fits(fragments, values, path) { FitsStart(fragments, values, path); }
    if |f| <= |path| && HasNoInnerNul(f) { SameMeansEqual(path[..|f|], f); }
  }

  // What fits matches; what matches fits, when the fragments are compared as wholes.
  lemma {:induction false} MatchedIff(fragments: seq<string>, count: nat, path: string, values: seq<string>)
    requires IsWhole(fragments, count) && |values| == count
    ensures HasNoSlash(values) && Fits(fragments, values, path) ==> Matched(fragments, count, path) == Some(values)
    ensures ComparesWhole(fragments) && Matched(fragments, count, path) == Some(values) ==>
      HasNoSlash(values) && Fits(fragments, values, path)
    decreases |fragments|
  {
    hide Matched, Fits, IndexOf, HasNoInnerNul, HasNoSlash;
    if fragments == [] {
      MatchedNothing(path);
      FitsNothing(path);
    } else if !(fragments[0] <= path) {
      MatchedElsewhere(fragments, count, path, values);
    } else {
      var f, rest := fragments[0], path[|fragments[0]|..];
      assert path == f + rest;
      if |fragments| == 1 {
        assert fragments == [f];
        MatchedLast(f, values, rest);
      } else {
        if IndexOf(rest, '/') < |rest| {
          MatchedIff(fragments[1..], count - 1, rest[IndexOf(rest, '/') + 1..], values[1..]);
        }
        MatchedMore(fragments, values, rest);
      }
    }
  }

  lemma FitsNothing(path: string)
    ensures Fits([], [], path) <==> path == ""
    ensures HasNoSlash([])
  {
  }

  // A path that begins with text that compares equal to the first fragment.
  lemma MatchedStep(fragments: seq<string>, count: nat, start: string, rest: string)
    requires fragments != [] && IsWhole(fragments, count)
    requires |start| == |fragments[0]| && IsSame(start, fragments[0])
    ensures Matched(fragments, count, start + rest) ==
      if count == 0 then Matched(fragments[1..], 0, rest)
      else
        var i := IndexOf(rest, '/');
        if i == |rest| then if |fragments| == 1 then Some([rest]) else None
        else Cons(rest[..i], Matched(fragments[1..], count - 1, rest[i + 1..]))
  {
    hide IndexOf, IsSame;
    assert (start + rest)[..|start|] == start && (start + rest)[|start|..] == rest;
  }

  lemma ConsIs(value: string, rest: Option<seq<string>>, values: seq<string>)
    requires values != []
    ensures Cons(value, rest) == Some(values) <==> values[0] == value && rest == Some(values[1..])
  {
    assert values == [values[0]] + values[1..];
    if rest.Some? { assert ([value] + rest.value)[1..] == rest.value; }
  }

  lemma AtSlash(rest: string)
    ensures var i := IndexOf(rest, '/');
      && '/' !in rest[..i] && (i == |rest| ==> rest[..i] == rest)
      && (i < |rest| && rest[i + 1..] == "" ==> rest == rest[..i] + "/")
  {
  }

  lemma MatchedLast(f: string, values: seq<string>, rest: string)
    requires |values| <= 1
    ensures Matched([f], |values|, f + rest) == Some(values) <==> HasNoSlash(values) && Fits([f], values, f + rest)
  {
    hide Fits, Matched, IndexOf, Cons, IsSame;
    SameItself(f);
    FitsLast(f, values, rest);
    MatchedStep([f], |values|, f, rest);
    assert [f][1..] == [];
    if values != [] {
      var v, i := values[0], IndexOf(rest, '/');
      AtSlash(rest);
      if '/' !in v && rest == v { SlashFreePrefix(rest, v); }
      if '/' !in v && rest == v + "/" { SlashFreePrefix(rest, v); }
      if i < |rest| {
        ConsIs(rest[..i], Matched([], 0, rest[i + 1..]), values);
        MatchedNothing(rest[i + 1..]);
      } else {
        assert values == [v];
      }
    } else {
      MatchedNothing(rest);
    }
  }

  lemma MatchedNothing(path: string)
    ensures Matched([], 0, path) == if path == "" then Some([]) else None
  {
  }

  lemma MatchedMore(fragments: seq<string>, values: seq<string>, rest: string)
    requires |fragments| > 1 && IsWhole(fragments, |values|)
    ensures var i := IndexOf(rest, '/');
      var f := fragments[0];
      if i == |rest| then
        Matched(fragments, |values|, f + rest) != Some(values)
          && !(HasNoSlash(values) && Fits(fragments, values, f + rest))
      else
        && (Matched(fragments, |values|, f + rest) == Some(values) <==>
             rest[..i] == values[0] && Matched(fragments[1..], |values| - 1, rest[i + 1..]) == Some(values[1..]))
        && (HasNoSlash(values) && Fits(fragments, values, f + rest) <==>
             rest[..i] == values[0] && HasNoSlash(values[1..]) && Fits(fragments[1..], values[1..], rest[i + 1..]))
  {
    hide Fits, Matched, IndexOf, Cons, IsSame, HasNoSlash, IsCutAt;
    var v, i := values[0], IndexOf(rest, '/');
    SameItself(fragments[0]);
    NoSlashCons(values);
    FitsMore(fragments, values, rest);
    MatchedStep(fragments, |values|, fragments[0], rest);
    CutIffSlash(rest, v);
    if i < |rest| { ConsIs(rest[..i], Matched(fragments[1..], |values| - 1, rest[i + 1..]), values); }
  }

  lemma CutIffSlash(rest: string, v: string)
    ensures var i := IndexOf(rest, '/');
      '/' !in v && IsCutAt(rest, v) <==> i < |rest| && rest[..i] == v
    ensures '/' !in v && IsCutAt(rest, v) ==> IndexOf(rest, '/') == |v|
  {
    AtSlash(rest);
    if '/' !in v && IsCutAt(rest, v) { SlashFreePrefix(rest, v); }
  }

  lemma NoSlashCons(values: seq<string>)
    requires values != []
    ensures HasNoSlash(values) <==> '/' !in values[0] && HasNoSlash(values[1..])
  {
  }

  // unordered_map::emplace, which keeps what is there.
  function Assigned(names: seq<string>, values: seq<string>): map<string, string>
    requires |names| == |values|
  {
    if names == [] then map[]
    else
      var n := |names| - 1;
      var others := Assigned(names[..n], values[..n]);
      if names[n] in others then others else others[names[n] := values[n]]
  }

  lemma {:induction false} AssignedKeys(names: seq<string>, values: seq<string>)
    requires |names| == |values|
    ensures forall name :: name in Assigned(names, values) <==> name in names
  {
    if names != [] {
      var n := |names| - 1;
      AssignedKeys(names[..n], values[..n]);
      assert names == names[..n] + [names[n]];
    }
  }

  lemma {:induction false} AssignedIs(names: seq<string>, values: seq<string>, i: nat)
    requires |names| == |values| && AreDistinct(names) && i < |names|
    ensures names[i] in Assigned(names, values) && Assigned(names, values)[names[i]] == values[i]
    decreases |names|
  {
    var n := |names| - 1;
    AssignedKeys(names[..n], values[..n]);
    if i < n {
      AssignedIs(names[..n], values[..n], i);
    } else {
      assert forall j :: 0 <= j < n ==> names[..n][j] == names[j] != names[n];
      assert names[n] !in names[..n];
    }
  }

  function After(values: seq<string>, rest: Option<seq<string>>): Option<seq<string>> {
    match rest
    case None => None
    case Some(more) => Some(values + more)
  }

  // What is left to match when `pos` bytes of the path and k fragments are done; a position past the end
  // has no use for another fragment.
  ghost function Left(m: Matcher, k: nat, path: string, pos: nat): Option<seq<string>>
    requires k <= |m.fragments| && IsWhole(m.fragments, |m.names|)
  {
    var count := if k < |m.names| then |m.names| - k else 0;
    if pos <= |path| then Matched(m.fragments[k..], count, path[pos..])
    else if k == |m.fragments| then Some([])
    else None
  }

  lemma LeftStep(m: Matcher, k: nat, path: string, pos: nat)
    requires k < |m.fragments| && IsWhole(m.fragments, |m.names|)
    ensures var f := m.fragments[k];
      Left(m, k, path, pos) ==
        if pos + |f| > |path| || !IsSame(path[pos..pos + |f|], f) then None
        else if k >= |m.names| then Left(m, k + 1, path, pos + |f|)
        else
          var sep := pos + |f| + IndexOf(path[pos + |f|..], '/');
          Cons(path[pos + |f|..sep], Left(m, k + 1, path, sep + 1))
  {
    hide IndexOf, IsSame;
    var f := m.fragments[k];
    assert m.fragments[k..][0] == f && m.fragments[k..][1..] == m.fragments[k + 1..];
    if pos + |f| <= |path| {
      assert path[pos..][..|f|] == path[pos..pos + |f|] && path[pos..][|f|..] == path[pos + |f|..];
      var rest := path[pos + |f|..];
      var i := IndexOf(rest, '/');
      assert rest[..i] == path[pos + |f|..pos + |f| + i];
      if i < |rest| { assert rest[i + 1..] == path[pos + |f| + i + 1..]; }
      else { assert rest[..i] == rest && [rest] + [] == [rest]; }
    }
  }

  method Match(m: Matcher, path: string) returns (ok: bool, params: map<string, string>)
    requires IsWhole(m.fragments, |m.names|)
    ensures ok <==> Matched(m.fragments, |m.names|, path).Some?
    ensures ok ==>
      var values := Matched(m.fragments, |m.names|, path).value;
      |values| == |m.names| && params == Assigned(m.names, values)
  {
    hide Matched, IsSame, IndexOf, Left;
    params := map[];
    var pos: nat := 0;
    ghost var values: seq<string> := [];
    LeftStart(m, path);
    for k := 0 to |m.fragments|
      invariant |values| == if k < |m.names| then k else |m.names|
      invariant params == Assigned(m.names[..|values|], values)
      invariant Matched(m.fragments, |m.names|, path) == After(values, Left(m, k, path, pos))
    {
      LeftStep(m, k, path, pos);
      var fragment := m.fragments[k];
      if pos + |fragment| > |path| { return false, params; }
      if !IsSame(path[pos..pos + |fragment|], fragment) { return false, params; }
      pos := pos + |fragment|;
      if k >= |m.names| { continue; }
      var sep := pos + IndexOf(path[pos..], '/');
      var name, value := m.names[k], path[pos..sep];
      if name !in params { params := params[name := value]; }
      AssignedMore(m.names, values, value);
      AfterCons(values, value, Left(m, k + 1, path, sep + 1));
      values := values + [value];
      pos := sep + 1;
    }
    LeftEnd(m, path, pos);
    assert m.names[..|m.names|] == m.names && values + [] == values;
    return pos >= |path|, params;
  }

  lemma AssignedMore(names: seq<string>, values: seq<string>, value: string)
    requires |values| < |names|
    ensures var others, name := Assigned(names[..|values|], values), names[|values|];
      Assigned(names[..|values| + 1], values + [value]) == if name in others then others else others[name := value]
  {
    var n := |values|;
    assert names[..n + 1][..n] == names[..n] && (values + [value])[..n] == values;
  }

  lemma AfterCons(values: seq<string>, value: string, rest: Option<seq<string>>)
    ensures After(values, Cons(value, rest)) == After(values + [value], rest)
  {
    if rest.Some? { assert values + ([value] + rest.value) == values + [value] + rest.value; }
  }

  lemma LeftStart(m: Matcher, path: string)
    requires IsWhole(m.fragments, |m.names|)
    ensures Matched(m.fragments, |m.names|, path) == After([], Left(m, 0, path, 0))
  {
    hide Matched;
    assert m.fragments[0..] == m.fragments && path[0..] == path;
    var matched := Matched(m.fragments, |m.names|, path);
    if matched.Some? { assert [] + matched.value == matched.value; }
  }

  lemma LeftEnd(m: Matcher, path: string, pos: nat)
    requires IsWhole(m.fragments, |m.names|)
    ensures Left(m, |m.fragments|, path, pos) == if pos >= |path| then Some([]) else None
  {
  }

  // ---- patterns and paths ----

  // Does the pattern end in a parameter, or in a parameter and a slash?
  predicate EndsInParam(pattern: string, first: bool)
    decreases |pattern|
  {
    var i := IndexOf(pattern, '/');
    if i + 1 >= |pattern| then IsParam(pattern[..i], first) else EndsInParam(pattern[i + 1..], false)
  }

  lemma {:induction false} EndsInParamIff(s: string, first: bool)
    ensures var m := Compiled(s, first);
      EndsInParam(s, first) <==> |m.fragments| == |m.names| > 0
    decreases |s|
  {
    hide Compiled, IsParam, MarkerEnd;
    var i := IndexOf(s, '/');
    SomeFragment(s[if i < |s| then i + 1 else |s|..], false);
    if i < |s| {
      if IsParam(s[..i], first) {
        NotFirst(s[..i], first);
        CompiledParam(s);
      } else {
        CompiledSkip(s, first);
      }
      if i + 1 < |s| { EndsInParamIff(s[i + 1..], false); }
    } else {
      assert s[..i] == s;
      LastSegment(s, first, if IsParam(s, first) then [""] else []);
      if IsParam(s, first) {
        NotFirst(s, first);
        CompiledParam(s);
      } else {
        MarkerEndNone(s, first);
        CompiledStatic(s, first);
      }
    }
  }

  // A path is an instance of a pattern, up to one slash at the end where the pattern ends in a parameter.
  ghost predicate IsInstance(pattern: string, values: seq<string>, path: string)
    requires |values| == |Names(pattern, true)|
  {
    var instance := Instance(pattern, true, values);
    || path == instance
    || (EndsInParam(pattern, true) && if pattern[|pattern| - 1] == '/' then path + "/" == instance
                                      else path == instance + "/")
  }

  // The fragments of a pattern without NULs are compared as wholes.
  lemma {:induction false} PlainPattern(s: string, first: bool)
    requires '\0' !in s
    ensures ComparesWhole(Compiled(s, first).fragments)
    decreases |s|
  {
    hide IndexOf, MarkerEnd, Compiled;
    var n := MarkerEnd(s, first);
    if n < 0 {
      CompiledStatic(s, first);
    } else {
      var i := IndexOf(s[n + 1..], '/');
      CompiledIs(s, first, n, i);
      if n + 1 + i < |s| { PlainPattern(s[n + 1 + i + 1..], false); }
    }
  }

  lemma InstanceFits(pattern: string, values: seq<string>, path: string)
    requires |values| == |Names(pattern, true)|
    ensures var m := Compiled(pattern, true);
      m.names == Names(pattern, true) && (Fits(m.fragments, values, path) <==> IsInstance(pattern, values, path))
  {
    hide Compiled, Names, Instance, Fill, EndsInParam;
    CompiledMeans(pattern, true, values);
    EndsInParamIff(pattern, true);
    SomeFragment(pattern, true);
    var m := Compiled(pattern, true);
    var fill := Fill(m.fragments, values);
    assert fill + "" == fill;
    assert path + "/" == fill + "/" <==> path == fill by {
      if path + "/" == fill + "/" { assert (path + "/")[..|path|] == (fill + "/")[..|fill|]; }
    }
  }

  // Both directions: a path matches a pattern and yields these values exactly when it is an instance of the
  // pattern with these values, none of which has a slash.
  lemma PathMatchesIff(pattern: string, path: string, values: seq<string>)
    requires |values| == |Names(pattern, true)|
    ensures var m := Compiled(pattern, true);
      && |m.names| == |values|
      && (HasNoSlash(values) && IsInstance(pattern, values, path) ==>
          Matched(m.fragments, |m.names|, path) == Some(values))
      && (ComparesWhole(m.fragments) && Matched(m.fragments, |m.names|, path) == Some(values) ==>
            HasNoSlash(values) && IsInstance(pattern, values, path))
  {
    hide Compiled, Names, Fits, IsInstance, ComparesWhole, Matched;
    InstanceFits(pattern, values, path);
    MatchedIff(Compiled(pattern, true).fragments, |values|, path, values);
  }

  // ---- patterns with a NUL ----

  ghost predicate AreSame(fragments: seq<string>, others: seq<string>) {
    |others| == |fragments| &&
    forall i :: 0 <= i < |fragments| ==> |others[i]| == |fragments[i]| && IsSame(others[i], fragments[i])
  }

  // Fragments that compare equal are as good as the pattern's own.
  lemma {:induction false} SameFillMatches(fragments: seq<string>, others: seq<string>, values: seq<string>)
    requires IsWhole(fragments, |values|) && AreSame(fragments, others) && HasNoSlash(values)
    ensures Matched(fragments, |values|, Fill(others, values)) == Some(values)
    decreases |fragments|
  {
    hide IndexOf, IsSame, Matched;
    MatchedNothing("");
    if fragments == [] {
    } else if |fragments| == 1 {
      var start, rest := others[0], if values == [] then "" else values[0];
      assert start + "" == start && fragments[1..] == [];
      MatchedStep(fragments, |values|, start, rest);
      if values != [] {
        SlashFreePrefix(rest, rest);
        assert values == [rest];
      }
    } else {
      var v, tail := values[0], Fill(others[1..], values[1..]);
      SameFillMatches(fragments[1..], others[1..], values[1..]);
      FillMore(others, values);
      var rest := v + ("/" + tail);
      assert others[0] + v + ("/" + tail) == others[0] + rest;
      hide Fill;
      CutRest(v, tail);
      MatchedStep(fragments, |values|, others[0], rest);
      assert [v] + values[1..] == values;
    }
  }

  lemma CutRest(v: string, tail: string)
    requires '/' !in v
    ensures var rest := v + ("/" + tail);
      IndexOf(rest, '/') == |v| < |rest| && rest[..|v|] == v && rest[|v| + 1..] == tail
  {
    var rest := v + ("/" + tail);
    assert rest[..|v|] == v && rest[|v|] == '/' && rest[|v| + 1..] == tail;
    SlashFreePrefix(rest, v);
  }

  lemma {:induction false} FillDiffers(fragments: seq<string>, values: seq<string>, i: nat, x: string)
    requires IsWhole(fragments, |values|) && i < |fragments| && |x| == |fragments[i]| && x != fragments[i]
    ensures |Fill(fragments[i := x], values)| == |Fill(fragments, values)|
    ensures Fill(fragments[i := x], values) != Fill(fragments, values)
    decreases |fragments|
  {
    var others := fragments[i := x];
    if values != [] && |fragments| > 1 {
      FillMore(fragments, values);
      FillMore(others, values);
      var f, g, v := fragments[0], others[0], values[0];
      var s, t := Fill(fragments[1..], values[1..]), Fill(others[1..], values[1..]);
      if i > 0 {
        assert others[1..] == fragments[1..][i - 1 := x];
        FillDiffers(fragments[1..], values[1..], i - 1, x);
        var a, b := f + v + ("/" + s), f + v + ("/" + t);
        assert a[|f| + |v| + 1..] == s && b[|f| + |v| + 1..] == t;
      } else {
        assert others[1..] == fragments[1..];
        assert (f + v + ("/" + s))[..|f|] == f && (g + v + ("/" + s))[..|f|] == g;
      }
    } else {
      var v := if values == [] then "" else values[0];
      assert (fragments[0] + v)[..|x|] == fragments[0] && (x + v)[..|x|] == x;
    }
  }

  // With a NUL inside some fragment a path that is no instance matches: one that differs after the NUL.
  lemma NulMatchesTooMuch(pattern: string, i: nat) returns (path: string, values: seq<string>)
    requires i < |Compiled(pattern, true).fragments| && !HasNoInnerNul(Compiled(pattern, true).fragments[i])
    ensures |values| == |Names(pattern, true)| == |Compiled(pattern, true).names|
    ensures Matched(Compiled(pattern, true).fragments, |values|, path) == Some(values)
    ensures !IsInstance(pattern, values, path)
  {
    hide Compiled, Names, Instance, EndsInParam, Matched, IsInstance, IsSame;
    var m := Compiled(pattern, true);
    values := seq(|Names(pattern, true)|, _ => "");
    CompiledNames(pattern);
    var x := SameButDifferent(m.fragments[i]);
    var others := m.fragments[i := x];
    forall j | 0 <= j < |others| ensures |others[j]| == |m.fragments[j]| && IsSame(others[j], m.fragments[j]) {
      SameItself(m.fragments[j]);
    }
    path := Fill(others, values);
    SameFillMatches(m.fragments, others, values);
    FillDiffers(m.fragments, values, i, x);
    InstanceFits(pattern, values, path);
  }

  lemma SameButDifferent(f: string) returns (x: string)
    requires !HasNoInnerNul(f)
    ensures |x| == |f| && x != f && IsSame(x, f)
  {
    var i :| 0 <= i < |f| - 1 && f[i] == '\0';
    x := f[i + 1 := if f[i + 1] == 'a' then 'b' else 'a'];
    SameToNul(x, f, i);
  }

  ghost predicate MatchesAsWritten(pattern: string) {
    forall path, values ::
      |values| == |Names(pattern, true)| == |Compiled(pattern, true).names| ==>
        (Matched(Compiled(pattern, true).fragments, |values|, path) == Some(values)
         <==> HasNoSlash(values) && IsInstance(pattern, values, path))
  }

  // So a route matches exactly its instances, for all paths and values, exactly when none of its fragments
  // has a NUL inside.
  lemma RouteIsExactIff(pattern: string)
    ensures MatchesAsWritten(pattern) <==> ComparesWhole(Compiled(pattern, true).fragments)
  {
    hide Compiled, Names, Matched, IsInstance;
    var fragments := Compiled(pattern, true).fragments;
    if ComparesWhole(fragments) {
      forall path, values | |values| == |Names(pattern, true)| == |Compiled(pattern, true).names|
        ensures Matched(fragments, |values|, path) == Some(values)
          <==> HasNoSlash(values) && IsInstance(pattern, values, path)
      {
        PathMatchesIff(pattern, path, values);
      }
    } else {
      var i :| 0 <= i < |fragments| && !HasNoInnerNul(fragments[i]);
      var path, values := NulMatchesTooMuch(pattern, i);
    }
  }

  lemma PlainRouteIsExact(pattern: string)
    requires '\0' !in pattern
    ensures MatchesAsWritten(pattern)
  {
    hide MatchesAsWritten;
    PlainPattern(pattern, true);
    RouteIsExactIff(pattern);
  }

  // Compiling a pattern and matching one of its instances gives every parameter its value.
  method RouteRoundTrip(pattern: string, values: seq<string>) returns (params: map<string, string>)
    requires AreDistinct(Names(pattern, true)) && |values| == |Names(pattern, true)|
    requires HasNoSlash(values)
    ensures params.Keys == set name | name in Names(pattern, true)
    ensures forall i :: 0 <= i < |values| ==> params[Names(pattern, true)[i]] == values[i]
  {
    hide Compiled, Names, Fits, Matched, Assigned;
    var c := Compile(pattern);
    PathMatchesIff(pattern, Instance(pattern, true, values), values);
    var ok;
    ok, params := Match(c.matcher, Instance(pattern, true, values));
    CompiledNames(pattern);
    AssignedKeys(c.matcher.names, values);
    forall i | 0 <= i < |values| ensures params[c.matcher.names[i]] == values[i] {
      AssignedIs(c.matcher.names, values, i);
    }
  }
}
