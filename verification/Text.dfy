/**
  Byte strings and the small scanners that the HTTP code shares.  A `char` stands for one byte; the
  character classes are those of the "C" locale.
*/
module Text {

  const CRLF := "\r\n"

  // The limit the server sets on a header line.
  const HEADER_MAX_LENGTH := 8192

  predicate IsDigit(c: char) { '0' <= c <= '9' }

  predicate IsAlnum(c: char) { IsDigit(c) || 'A' <= c <= 'Z' || 'a' <= c <= 'z' }

  predicate IsSpaceOrTab(c: char) { c == ' ' || c == '\t' }

  ghost predicate AreBytes(s: string) {
    forall i | 0 <= i < |s| :: s[i] as int < 256
  }

  predicate StartsAt(s: string, i: nat, pat: string) {
    i + |pat| <= |s| && s[i..i + |pat|] == pat
  }

  function Concat(pieces: seq<string>): string {
    if pieces == [] then "" else pieces[0] + Concat(pieces[1..])
  }

  // ---- regrouping ----

  lemma Assoc(a: string, b: string, c: string)
    ensures (a + b) + c == a + (b + c)
  {
  }

  lemma Nothing(a: string)
    ensures "" + a == a && a + "" == a
  {
  }

  lemma Halves(s: string, i: nat)
    requires i <= |s|
    ensures s == s[..i] + s[i..]
  {
  }

  lemma Assoc4(a: string, b: string, c: string, d: string)
    ensures a + b + c + d == a + (b + c + d)
  {
  }

  lemma Regroup(a: string, b: string, c: string, d: string)
    ensures a + b + c + d == a + (b + (c + d))
  {
    Assoc(a + b, c, d);
    Assoc(a, b, c + d);
  }

  // ---- scanning ----

  // The first position of a pattern, or |s| when it does not occur.
  function FindFrom(s: string, pat: string, i: nat): (r: nat)
    requires i <= |s| && pat != ""
    ensures i <= r <= |s|
    ensures r < |s| ==> StartsAt(s, r, pat)
    ensures forall k :: i <= k < r ==> !StartsAt(s, k, pat)
    decreases |s| - i
  {
    if i == |s| then i
    else if StartsAt(s, i, pat) then i
    else FindFrom(s, pat, i + 1)
  }

  function Find(s: string, pat: string): (r: nat)
    requires pat != ""
    ensures r <= |s|
    ensures r < |s| ==> StartsAt(s, r, pat)
    ensures forall k :: 0 <= k < r ==> !StartsAt(s, k, pat)
  {
    FindFrom(s, pat, 0)
  }

  lemma FindIs(s: string, pat: string, r: nat)
    requires pat != "" && r <= |s|
    requires r < |s| ==> StartsAt(s, r, pat)
    requires forall k :: 0 <= k < r ==> !StartsAt(s, k, pat)
    ensures Find(s, pat) == r
  {
  }

  // The first position of a character, or |s|.
  function IndexOf(s: string, c: char): (r: nat)
    ensures r <= |s|
    ensures r < |s| ==> s[r] == c
    ensures forall k :: 0 <= k < r ==> s[k] != c
  {
    if s == "" || s[0] == c then 0 else 1 + IndexOf(s[1..], c)
  }

  lemma IndexOfIs(s: string, c: char, r: nat)
    requires r <= |s| && (r < |s| ==> s[r] == c) && c !in s[..r]
    ensures IndexOf(s, c) == r
  {
    forall k | 0 <= k < r ensures s[k] != c { assert s[k] == s[..r][k]; }
  }

  function TrimLeft(s: string): string {
    if s != "" && IsSpaceOrTab(s[0]) then TrimLeft(s[1..]) else s
  }

  function TrimRight(s: string): string {
    if s != "" && IsSpaceOrTab(s[|s| - 1]) then TrimRight(s[..|s| - 1]) else s
  }

  function Trim(s: string): string {
    TrimRight(TrimLeft(s))
  }

  predicate Trimmed(s: string) {
    s != "" ==> !IsSpaceOrTab(s[0]) && !IsSpaceOrTab(s[|s| - 1])
  }

  lemma TrimTrimmed(s: string)
    requires Trimmed(s)
    ensures Trim(s) == s
  {
  }

  // The trimmed pieces between delimiters, empty ones left out.
  function Pieces(s: string, d: char): seq<string>
    decreases |s|
  {
    if s == "" then []
    else
      var i := IndexOf(s, d);
      var piece := Trim(s[..i]);
      Kept(piece) + (if i == |s| then [] else Pieces(s[i + 1..], d))
  }

  lemma TrimLeftStep(s: string, l: nat, r: nat)
    requires l <= r <= |s|
    ensures l < r && IsSpaceOrTab(s[l]) ==> TrimLeft(s[l..r]) == TrimLeft(s[l + 1..r])
    ensures l == r || !IsSpaceOrTab(s[l]) ==> TrimLeft(s[l..r]) == s[l..r]
  {
    if l < r { assert s[l..r][1..] == s[l + 1..r]; }
  }

  lemma TrimRightStep(s: string, l: nat, r: nat)
    requires l <= r <= |s|
    ensures l < r && IsSpaceOrTab(s[r - 1]) ==> TrimRight(s[l..r]) == TrimRight(s[l..r - 1])
    ensures l == r || !IsSpaceOrTab(s[r - 1]) ==> TrimRight(s[l..r]) == s[l..r]
  {
    if l < r { assert s[l..r][..r - l - 1] == s[l..r - 1]; }
  }

  // trim(b, e, left, right): shrink [left, right) over blanks.  Over a window of nothing but blanks the
  // two bounds run past each other, and on beyond the window.
  method TrimRange(s: string, left: nat, right: nat) returns (l: nat, r: nat)
    requires left <= right <= |s|
    ensures l < r ==> left <= l && r <= right
    ensures (if l < r then s[l..r] else "") == Trim(s[left..right])
  {
    hide TrimLeft;
    hide TrimRight;
    l, r := left, right;
    while l < |s| && IsSpaceOrTab(s[l])
      invariant left <= l <= |s|
      invariant TrimLeft(s[left..right]) == if l <= right then TrimLeft(s[l..right]) else ""
    {
      if l <= right { TrimLeftStep(s, l, right); }
      l := l + 1;
    }
    if l <= right { TrimLeftStep(s, l, right); }
    NothingTrims();
    while r > 0 && IsSpaceOrTab(s[r - 1])
      invariant r <= right && (l < right ==> l < r)
      invariant l < right ==> Trim(s[left..right]) == TrimRight(s[l..r])
    {
      if l < r { TrimRightStep(s, l, r); }
      r := r - 1;
    }
    if l < r { TrimRightStep(s, l, r); }
  }

  lemma NothingTrims()
    ensures TrimRight("") == ""
  {
  }

  function Kept(piece: string): seq<string> {
    if piece == "" then [] else [piece]
  }

  // The first piece of a string, up to position i, and the others.
  lemma PiecesFirst(s: string, d: char, i: nat)
    requires i < |s| && s[i] == d && d !in s[..i]
    ensures Pieces(s, d) == Kept(Trim(s[..i])) + Pieces(s[i + 1..], d)
  {
    IndexOfIs(s, d, i);
    hide Trim, IndexOf;
  }

  lemma PieceStep(s: string, beg: nat, i: nat, d: char)
    requires beg <= i < |s| && s[i] == d && forall k :: beg <= k < i ==> s[k] != d
    ensures Pieces(s[beg..], d) == Kept(Trim(s[beg..i])) + Pieces(s[i + 1..], d)
  {
    hide Pieces, Trim, Kept;
    var t, n := s[beg..], i - beg;
    assert t[..n] == s[beg..i] && t[n] == d && t[n + 1..] == s[i + 1..];
    PiecesFirst(t, d, n);
  }

  lemma PiecesEmpty(d: char)
    ensures Pieces("", d) == []
  {
  }

  lemma PieceLast(s: string, beg: nat, d: char)
    requires beg <= |s| && forall k :: beg <= k < |s| ==> s[k] != d
    ensures Pieces(s[beg..], d) == Kept(Trim(s[beg..]))
  {
    if beg < |s| {
      hide Trim;
      assert s[beg..][..|s| - beg] == s[beg..];
      IndexOfIs(s[beg..], d, |s| - beg);
      hide IndexOf;
    } else {
      assert Trim("") == "";
    }
  }

  // split(b, e, d, fn): what fn is called with, in order.
  method Split(s: string, d: char) returns (out: seq<string>)
    ensures out == Pieces(s, d)
  {
    hide Pieces;
    hide Trim;
    out := [];
    var i, beg := 0, 0;
    assert s[0..] == s;
    while i < |s|
      invariant 0 <= beg <= i <= |s|
      invariant forall k :: beg <= k < i ==> s[k] != d
      invariant out + Pieces(s[beg..], d) == Pieces(s, d)
    {
      if s[i] == d {
        var l, r := TrimRange(s, beg, i);
        PieceStep(s, beg, i, d);
        assert out + Pieces(s[beg..], d) == out + Kept(if l < r then s[l..r] else "") + Pieces(s[i + 1..], d);
        if l < r { out := out + [s[l..r]]; }
        beg := i + 1;
      }
      i := i + 1;
    }
    if i > 0 {
      var l, r := TrimRange(s, beg, i);
      assert s[beg..i] == s[beg..];
      PieceLast(s, beg, d);
      if l < r { out := out + [s[l..r]]; }
    } else {
      PiecesEmpty(d);
    }
  }

  // A string with no delimiter in it is its own single piece, and a prefix up to a delimiter is the first.
  lemma PiecesOne(s: string, d: char)
    requires s != "" && d !in s && Trimmed(s)
    ensures Pieces(s, d) == [s]
  {
    IndexOfIs(s, d, |s|);
    assert s[..|s|] == s;
    TrimTrimmed(s);
  }

  lemma PiecesCons(s: string, d: char, rest: string)
    requires s != "" && d !in s && Trimmed(s)
    ensures Pieces(s + [d] + rest, d) == [s] + Pieces(rest, d)
  {
    var all := s + [d] + rest;
    assert all[..|s|] == s && all[|s|] == d && all[|s| + 1..] == rest;
    IndexOfIs(all, d, |s|);
    TrimTrimmed(s);
  }

  // Cutting at a delimiter, whatever stands before it.
  lemma {:induction false} PiecesJoin(a: string, d: char, b: string)
    ensures Pieces(a + [d] + b, d) == Pieces(a, d) + Pieces(b, d)
    decreases |a|
  {
    hide Trim, Pieces, Kept;
    var s, i := a + [d] + b, IndexOf(a, d);
    assert s[i] == d && s[..i] == a[..i] && d !in a[..i];
    PiecesFirst(s, d, i);
    if i < |a| {
      assert s[i + 1..] == a[i + 1..] + [d] + b;
      PiecesFirst(a, d, i);
      PiecesJoin(a[i + 1..], d, b);
    } else {
      assert s[i + 1..] == b && a[..i] == a;
      PieceLast(a, 0, d);
      assert a[0..] == a;
    }
  }
}
