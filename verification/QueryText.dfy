/**
  Query strings: a multimap of parameters, written as key=value pairs joined by '&' and parsed back.
*/
module QueryText {
  import opened Text
  import opened Query

  type Param = (string, string)

  // std::less<std::string>
  predicate Less(a: string, b: string) {
    if b == "" then false
    else if a == "" then true
    else if a[0] != b[0] then a[0] < b[0]
    else Less(a[1..], b[1..])
  }

  // A multimap, listed in key order; equal keys keep their order of arrival.
  ghost predicate Ordered(params: seq<Param>) {
    forall i, j :: 0 <= i < j < |params| ==> !Less(params[j].0, params[i].0)
  }

  // multimap::emplace: after every element whose key is not greater.
  function Emplaced(params: seq<Param>, p: Param): seq<Param> {
    if params == [] then [p]
    else if Less(p.0, params[0].0) then [p] + params
    else [params[0]] + Emplaced(params[1..], p)
  }

  function Pair(p: Param): string
    requires AreBytes(p.1)
  {
    p.0 + "=" + Encoded(p.1)
  }

  ghost predicate ByteValues(params: seq<Param>) {
    forall i :: 0 <= i < |params| ==> AreBytes(params[i].1)
  }

  function Joined(params: seq<Param>): string
    requires ByteValues(params)
  {
    if params == [] then ""
    else if |params| == 1 then Pair(params[0])
    else Pair(params[0]) + "&" + Joined(params[1..])
  }

  method ParamsToQueryStr(params: seq<Param>) returns (query: string)
    requires ByteValues(params)
    ensures query == Joined(params)
  {
    hide Joined;
    hide Pair;
    query := "";
    assert params[0..] == params;
    if params == [] { JoinedNone(params); }
    for i := 0 to |params|
      invariant i < |params| ==> (if i == 0 then query else query + "&") + Joined(params[i..]) == Joined(params)
      invariant i == |params| ==> query == Joined(params)
    {
      JoinedStep(params, i, if i == 0 then query else query + "&");
      if i != 0 {
        query := query + "&";
      }
      query := query + Pair(params[i]);
    }
  }

  lemma JoinedNone(params: seq<Param>)
    requires params == []
    ensures Joined(params) == ""
  {
  }

  lemma JoinedStep(params: seq<Param>, i: nat, before: string)
    requires ByteValues(params) && i < |params|
    ensures before + Joined(params[i..])
            == if i + 1 == |params| then before + Pair(params[i])
               else before + Pair(params[i]) + "&" + Joined(params[i + 1..])
  {
    assert params[i..][1..] == params[i + 1..];
  }

  // One piece of a query: key up to the first '=', value after it.
  function ParsePair(kv: string): Param {
    var i := IndexOf(kv, '=');
    (Decoded(kv[..i], true), if i == |kv| then "" else Decoded(kv[i + 1..], true))
  }

  predicate HasKey(kv: string) {
    IndexOf(kv, '=') > 0
  }

  // The pieces that count: those with a key, not seen before.
  function ParsedPieces(pieces: seq<string>, seen: set<string>, params: seq<Param>): seq<Param> {
    if pieces == [] then params
    else if pieces[0] in seen then ParsedPieces(pieces[1..], seen, params)
    else ParsedPieces(pieces[1..], seen + {pieces[0]},
                      if HasKey(pieces[0]) then Emplaced(params, ParsePair(pieces[0])) else params)
  }

  method Emplace(params: seq<Param>, p: Param) returns (r: seq<Param>)
    ensures r == Emplaced(params, p)
  {
    hide Less;
    hide Emplaced;
    var i := 0;
    assert params[0..] == params;
    EmplacedStep(params, i, p);
    while i < |params| && !Less(p.0, params[i].0)
      invariant 0 <= i <= |params|
      invariant Emplaced(params, p) == params[..i] + Emplaced(params[i..], p)
    {
      EmplacedStep(params, i, p);
      i := i + 1;
    }
    EmplacedStep(params, i, p);
    r := params[..i] + [p] + params[i..];
  }

  lemma EmplacedStep(params: seq<Param>, i: nat, p: Param)
    requires i <= |params|
    ensures params[..i] + Emplaced(params[i..], p)
            == if i < |params| && !Less(p.0, params[i].0) then params[..i + 1] + Emplaced(params[i + 1..], p)
               else params[..i] + [p] + params[i..]
  {
    if i < |params| { assert params[i..][1..] == params[i + 1..] && params[..i + 1] == params[..i] + [params[i]]; }
  }

  // Parse a query into a multimap that may already hold parameters.
  method ParseQueryText(s: string, given: seq<Param>) returns (params: seq<Param>)
    ensures params == ParsedPieces(Pieces(s, '&'), {}, given)
  {
    params := given;
    var cache: set<string> := {};
    var pieces := Split(s, '&');
    assert pieces[0..] == pieces;
    for i := 0 to |pieces|
      invariant ParsedPieces(pieces[i..], cache, params) == ParsedPieces(pieces, {}, given)
    {
      hide Decoded;
      var kv := pieces[i];
      assert pieces[i..][0] == kv && pieces[i..][1..] == pieces[i + 1..];
      if kv !in cache {
        cache := cache + {kv};
        var eq := IndexOf(kv, '=');
        var key, val := kv[..eq], if eq == |kv| then "" else kv[eq + 1..];
        if key != "" {
          var k := DecodeUrl(key, true);
          var v := DecodeUrl(val, true);
          DecodedNothing();
          params := Emplace(params, (k, v));
        }
      }
    }
  }

  lemma DecodedNothing()
    ensures Decoded("", true) == ""
  {
  }

  // ---- the round trip ----

  // Keys are written as they are, so they must survive the parser: not empty, not cut, not trimmed, and
  // nothing in them to decode.  Every key of unreserved characters is plain.
  predicate PlainKey(k: string) {
    k != "" && '&' !in k && '=' !in k && !IsSpaceOrTab(k[0]) && IsLiteral(k, true)
  }

  lemma UnreservedIsPlain(k: string)
    requires k != "" && forall i :: 0 <= i < |k| ==> IsUnreserved(k[i])
    ensures PlainKey(k)
  {
    assert !IsUnreserved('%') && !IsUnreserved('+') && !IsUnreserved('&') && !IsUnreserved('=');
  }

  ghost predicate PlainKeys(params: seq<Param>) {
    forall i :: 0 <= i < |params| ==> PlainKey(params[i].0)
  }

  // Later copies of an exact (key, value) pair dropped.
  function Dedup(params: seq<Param>): seq<Param> {
    if params == [] then []
    else
      var rest := Dedup(params[..|params| - 1]);
      if params[|params| - 1] in rest then rest else rest + [params[|params| - 1]]
  }

  function Pairs(params: seq<Param>): (kvs: seq<string>)
    requires ByteValues(params)
    ensures |kvs| == |params|
    ensures forall i :: 0 <= i < |params| ==> kvs[i] == Pair(params[i])
  {
    seq(|params|, i requires 0 <= i < |params| => Pair(params[i]))
  }

  lemma PairChars(p: Param)
    requires AreBytes(p.1) && PlainKey(p.0)
    ensures '&' !in Pair(p) && Trimmed(Pair(p)) && Pair(p) != ""
    ensures IndexOf(Pair(p), '=') == |p.0| && HasKey(Pair(p))
    ensures Pair(p)[..|p.0|] == p.0 && Pair(p)[|p.0| + 1..] == Encoded(p.1)
  {
    hide Encoded;
    hide Decoded;
    var kv := Pair(p);
    EncodedChars(p.1);
    assert forall c :: c in kv ==> c in p.0 || c == '=' || c in Encoded(p.1);
    if p.1 != "" { EncodedNotEmpty(p.1); }
    if Encoded(p.1) != "" { assert kv[|kv| - 1] in Encoded(p.1); }
    IndexOfIs(kv, '=', |p.0|);
  }

  lemma EncodedNotEmpty(s: string)
    requires AreBytes(s) && s != ""
    ensures Encoded(s) != ""
  {
  }

  lemma PairParses(p: Param)
    requires AreBytes(p.1) && PlainKey(p.0)
    ensures ParsePair(Pair(p)) == p
  {
    PairChars(p);
    DecodeEncode(p.1, true);
    DecodedUnchangedIff(p.0, true);
  }

  lemma PairInjective(p: Param, q: Param)
    requires AreBytes(p.1) && PlainKey(p.0) && AreBytes(q.1) && PlainKey(q.0) && Pair(p) == Pair(q)
    ensures p == q
  {
    PairParses(p);
    PairParses(q);
  }

  // The pieces of each parameter, one after the other.
  function AllPieces(params: seq<Param>): seq<string>
    requires ByteValues(params)
  {
    if params == [] then [] else Pieces(Pair(params[0]), '&') + AllPieces(params[1..])
  }

  lemma {:induction false} JoinedPieces(params: seq<Param>)
    requires ByteValues(params)
    ensures Pieces(Joined(params), '&') == AllPieces(params)
  {
    hide Pieces, Pair;
    if params == [] {
      PiecesEmpty('&');
    } else if |params| == 1 {
      assert AllPieces(params[1..]) == [];
    } else {
      JoinedPieces(params[1..]);
      PiecesJoin(Pair(params[0]), '&', Joined(params[1..]));
      assert Pair(params[0]) + "&" + Joined(params[1..]) == Pair(params[0]) + ['&'] + Joined(params[1..]);
    }
  }

  lemma {:induction false} AllPiecesSnoc(params: seq<Param>, p: Param)
    requires ByteValues(params) && AreBytes(p.1)
    ensures ByteValues(params + [p]) && AllPieces(params + [p]) == AllPieces(params) + Pieces(Pair(p), '&')
    decreases |params|
  {
    hide Pieces, Pair;
    if params == [] {
      assert params + [p] == [p] && AllPieces([p][1..]) == [];
    } else {
      assert (params + [p])[1..] == params[1..] + [p];
      AllPiecesSnoc(params[1..], p);
    }
  }

  lemma {:induction false} PlainPieces(params: seq<Param>)
    requires ByteValues(params) && PlainKeys(params)
    ensures AllPieces(params) == Pairs(params)
  {
    hide Pieces, Pair, PlainKey;
    if params != [] {
      PlainPieces(params[1..]);
      PairChars(params[0]);
      PiecesOne(Pair(params[0]), '&');
      assert Pairs(params) == [Pair(params[0])] + Pairs(params[1..]);
    }
  }

  lemma {:induction false} EmplacedLast(params: seq<Param>, p: Param)
    requires forall i :: 0 <= i < |params| ==> !Less(p.0, params[i].0)
    ensures Emplaced(params, p) == params + [p]
  {
    if params != [] {
      EmplacedLast(params[1..], p);
    }
  }

  lemma {:induction false} ParsedConcat(a: seq<string>, b: seq<string>, seen: set<string>, params: seq<Param>)
    ensures ParsedPieces(a + b, seen, params) == ParsedPieces(b, seen + (set q | q in a), ParsedPieces(a, seen, params))
    decreases |a|
  {
    hide HasKey, ParsePair, Emplaced;
    if a == [] {
      assert a + b == b && seen + (set q | q in a) == seen;
    } else {
      var head, tail := a[0], a[1..];
      assert (a + b)[1..] == tail + b && (a + b)[0] == head;
      if head in seen {
        ParsedConcat(tail, b, seen, params);
        assert seen + (set q | q in a) == seen + (set q | q in tail);
      } else {
        ParsedConcat(tail, b, seen + {head}, if HasKey(head) then Emplaced(params, ParsePair(head)) else params);
        assert seen + (set q | q in a) == seen + {head} + (set q | q in tail);
      }
    }
  }

  // Reading one more piece at the end.
  lemma ParsedSnoc(pieces: seq<string>, last: string, seen: set<string>, params: seq<Param>)
    ensures var all := seen + (set kv | kv in pieces);
            ParsedPieces(pieces + [last], seen, params)
            == var before := ParsedPieces(pieces, seen, params);
               if last in all || !HasKey(last) then before else Emplaced(before, ParsePair(last))
  {
    hide HasKey, ParsePair, Emplaced;
    ParsedConcat(pieces, [last], seen, params);
    assert [last][1..] == [];
  }

  lemma {:induction false} DedupMembers(params: seq<Param>)
    ensures forall p :: p in Dedup(params) <==> p in params
  {
    if params != [] {
      var init := params[..|params| - 1];
      DedupMembers(init);
      assert params == init + [params[|params| - 1]];
    }
  }

  // One more pair: new if its parameter is.
  lemma PairIsNew(params: seq<Param>, p: Param)
    requires ByteValues(params + [p]) && PlainKeys(params + [p])
    ensures ByteValues(params) && PlainKeys(params) && AreBytes(p.1) && PlainKey(p.0)
    ensures Pair(p) in Pairs(params) <==> p in params
  {
    hide Pair, PlainKey;
    forall i | 0 <= i < |params| ensures AreBytes(params[i].1) && PlainKey(params[i].0) {
      assert (params + [p])[i] == params[i];
    }
    assert (params + [p])[|params|] == p;
    if Pair(p) in Pairs(params) {
      var i :| 0 <= i < |params| && Pairs(params)[i] == Pair(p);
      PairInjective(params[i], p);
    }
    if p in params {
      var i :| 0 <= i < |params| && params[i] == p;
      assert Pairs(params)[i] == Pair(p);
    }
  }

  lemma {:induction false} PairsParse(params: seq<Param>)
    requires ByteValues(params) && PlainKeys(params) && Ordered(params)
    ensures ParsedPieces(Pairs(params), {}, []) == Dedup(params)
  {
    hide Less, Encoded, Decoded, IndexOf, Pair, PlainKey, HasKey, ParsePair;
    if params != [] {
      var n := |params| - 1;
      var init, last := params[..n], params[n];
      assert params == init + [last];
      PairsParse(init);
      PairIsNew(init, last);
      assert Pairs(params) == Pairs(init) + [Pair(last)];
      ParsedSnoc(Pairs(init), Pair(last), {}, []);
      PairChars(last);
      PairParses(last);
      if last !in init {
        DedupMembers(init);
        forall i | 0 <= i < |Dedup(init)| ensures !Less(last.0, Dedup(init)[i].0) {
          assert Dedup(init)[i] in init;
        }
        EmplacedLast(Dedup(init), last);
      } else {
        DedupMembers(init);
      }
    }
  }

  // Writing a parameter multimap as a query string and parsing that into an empty one gives it back,
  // each exact duplicate pair once.
  lemma QueryRoundTrip(params: seq<Param>)
    requires ByteValues(params) && PlainKeys(params) && Ordered(params)
    ensures ParsedPieces(Pieces(Joined(params), '&'), {}, []) == Dedup(params)
  {
    JoinedPieces(params);
    PlainPieces(params);
    PairsParse(params);
  }

  // ---- only plain keys survive ----

  // What a parameter and a list of parameters are worth: more than any pieces that one of them is cut into.
  function Worth(p: Param): nat {
    1 + 2 * Weight(p.0, true)
  }

  function Worths(params: seq<Param>): nat {
    if params == [] then 0 else Worths(params[..|params| - 1]) + Worth(params[|params| - 1])
  }

  function PieceWorth(kv: string): nat {
    if HasKey(kv) then Worth(ParsePair(kv)) else 0
  }

  function PieceWorths(pieces: seq<string>): nat {
    if pieces == [] then 0 else PieceWorth(pieces[0]) + PieceWorths(pieces[1..])
  }

  lemma {:induction false} PieceWorthsConcat(a: seq<string>, b: seq<string>)
    ensures PieceWorths(a + b) == PieceWorths(a) + PieceWorths(b)
    decreases |a|
  {
    if a == [] {
      assert a + b == b;
    } else {
      assert (a + b)[1..] == a[1..] + b;
      PieceWorthsConcat(a[1..], b);
    }
  }

  lemma {:induction false} WorthsConcat(a: seq<Param>, b: seq<Param>)
    ensures Worths(a + b) == Worths(a) + Worths(b)
    decreases |b|
  {
    if b == [] {
      assert a + b == a;
    } else {
      var n := |b| - 1;
      assert (a + b)[..|a| + n] == a + b[..n];
      WorthsConcat(a, b[..n]);
    }
  }

  lemma {:induction false} EmplacedWorth(params: seq<Param>, p: Param)
    ensures Worths(Emplaced(params, p)) == Worths(params) + Worth(p)
    decreases |params|
  {
    hide Worth, Less;
    assert [p][..0] == [] && Worths([p]) == Worth(p);
    if params == [] {
    } else if Less(p.0, params[0].0) {
      WorthsConcat([p], params);
    } else {
      EmplacedWorth(params[1..], p);
      WorthsConcat([params[0]], Emplaced(params[1..], p));
      WorthsConcat([params[0]], params[1..]);
      assert [params[0]] + params[1..] == params;
    }
  }

  lemma CutWeight(s: string, i: nat)
    requires i <= |s|
    ensures Weight(s[..i], true) + Weight(s[i..], true) == Weight(s, true)
    ensures i < |s| ==> Weight(s[..i], true) < Weight(s, true)
  {
    assert s == s[..i] + s[i..] && s[i..] + "" == s[i..];
    WeightConcat(s[..i], s[i..], true);
    WeightConcat(s[i..], "", true);
  }

  // A key cut at '=' decodes to no more weight than it has itself.
  lemma PieceWorthBound(kv: string)
    ensures PieceWorth(kv) <= 1 + 2 * Weight(kv[..IndexOf(kv, '=')], true)
    ensures PieceWorth(kv) <= 1 + 2 * Weight(kv, true)
    ensures IndexOf(kv, '=') == 0 || !IsLiteral(kv[..IndexOf(kv, '=')], true) ==>
      PieceWorth(kv) < 1 + 2 * Weight(kv[..IndexOf(kv, '=')], true)
  {
    hide Decoded, Weight, IsLiteral;
    var i := IndexOf(kv, '=');
    DecodedUnchangedIff(kv[..i], true);
    CutWeight(kv, i);
  }

  lemma {:induction false} TrimLeftWeight(s: string)
    ensures Weight(TrimLeft(s), true) <= Weight(s, true)
    ensures s != "" && IsSpaceOrTab(s[0]) ==> Weight(TrimLeft(s), true) < Weight(s, true)
    decreases |s|
  {
    if s != "" && IsSpaceOrTab(s[0]) { TrimLeftWeight(s[1..]); }
  }

  lemma {:induction false} TrimRightWeight(s: string)
    ensures Weight(TrimRight(s), true) <= Weight(s, true)
    decreases |s|
  {
    if s != "" && IsSpaceOrTab(s[|s| - 1]) {
      var init := s[..|s| - 1];
      TrimRightWeight(init);
      WeightConcat(init, s[|s| - 1..], true);
      assert s == init + s[|s| - 1..];
    }
  }

  // Blanks before a key are trimmed; none follow an encoded value.
  lemma {:induction false} TrimPair(k: string, e: string)
    requires forall i :: 0 <= i < |e| ==> !IsSpaceOrTab(e[i])
    ensures Trim(k + "=" + e) == TrimLeft(k) + "=" + e
    decreases |k|
  {
    var s := k + "=" + e;
    if k != "" && IsSpaceOrTab(k[0]) {
      assert s[1..] == k[1..] + "=" + e;
      TrimPair(k[1..], e);
    } else {
      assert !IsSpaceOrTab(s[0]) && !IsSpaceOrTab(s[|s| - 1]);
    }
  }

  lemma KeyOfPair(k: string, e: string)
    ensures IndexOf(k + "=" + e, '=') == IndexOf(k, '=')
    ensures (k + "=" + e)[..IndexOf(k, '=')] == k[..IndexOf(k, '=')]
  {
    var s, i := k + "=" + e, IndexOf(k, '=');
    forall j | 0 <= j < i ensures s[j] != '=' { assert s[j] == k[j]; }
    assert s[i] == '=';
    IndexOfIs(s, '=', i);
  }

  lemma LonePieceWorth(k: string, e: string)
    requires '&' !in k && forall i :: 0 <= i < |e| ==> !IsSpaceOrTab(e[i])
    ensures PieceWorth(Trim(k + "=" + e)) <= 1 + 2 * Weight(k, true)
    ensures !PlainKey(k) ==> PieceWorth(Trim(k + "=" + e)) < 1 + 2 * Weight(k, true)
  {
    hide PieceWorth, Weight, IsLiteral;
    var t := TrimLeft(k);
    TrimPair(k, e);
    TrimLeftWeight(k);
    KeyOfPair(t, e);
    PieceWorthBound(t + "=" + e);
    var i := IndexOf(t, '=');
    CutWeight(t, i);
    if k == "" || IsSpaceOrTab(k[0]) {
    } else if i == |k| {
      assert t == k && t[..i] == k;
      forall j | 0 <= j < |k| ensures k[j] != '=' {}
    } else {
      assert t == k;
    }
  }

  lemma KeptWorth(piece: string)
    ensures PieceWorths(Kept(piece)) == PieceWorth(piece)
  {
    var pieces := [piece];
    assert pieces[1..] == [];
    assert PieceWorth("") == 0;
  }

  // The pieces of one written parameter are worth no more than it is, and less unless its key is plain.
  lemma {:induction false} PiecesWorth(k: string, e: string)
    requires '&' !in e && forall i :: 0 <= i < |e| ==> !IsSpaceOrTab(e[i])
    ensures PieceWorths(Pieces(k + "=" + e, '&')) <= 1 + 2 * Weight(k, true)
    ensures !PlainKey(k) ==> PieceWorths(Pieces(k + "=" + e, '&')) < 1 + 2 * Weight(k, true)
    decreases |k|
  {
    hide PieceWorth, PieceWorths, Weight, Trim, Pieces;
    var i := IndexOf(k, '&');
    if i < |k| {
      CutPair(k, e, i);
      PiecesWorth(k[i + 1..], e);
      var piece := Trim(k[..i]);
      PieceWorthBound(piece);
      TrimWeight(k[..i]);
      KeptWorth(piece);
      PieceWorthsConcat(Kept(piece), Pieces(k[i + 1..] + "=" + e, '&'));
      CutWeight(k, i);
      assert k[i..][..1] == ['&'] && k[i..][1..] == k[i + 1..];
      CutWeight(k[i..], 1);
      WeightPlain(['&'], true);
    } else {
      LonePiece(k, e);
      KeptWorth(Trim(k + "=" + e));
      LonePieceWorth(k, e);
    }
  }

  lemma TrimWeight(s: string)
    ensures Weight(Trim(s), true) <= Weight(s, true)
  {
    TrimLeftWeight(s);
    TrimRightWeight(TrimLeft(s));
  }

  lemma CutPair(k: string, e: string, i: nat)
    requires i == IndexOf(k, '&') < |k|
    ensures Pieces(k + "=" + e, '&') == Kept(Trim(k[..i])) + Pieces(k[i + 1..] + "=" + e, '&')
  {
    hide Trim;
    var s := k + "=" + e;
    forall j | 0 <= j < i ensures s[j] != '&' { assert s[j] == k[j]; }
    assert s[i] == k[i];
    IndexOfIs(s, '&', i);
    assert s[..i] == k[..i] && s[i + 1..] == k[i + 1..] + "=" + e;
    hide IndexOf;
  }

  lemma LonePiece(k: string, e: string)
    requires '&' !in k && '&' !in e
    ensures Pieces(k + "=" + e, '&') == Kept(Trim(k + "=" + e))
  {
    hide Trim;
    var s := k + "=" + e;
    IndexOfIs(s, '&', |s|);
    assert s[..|s|] == s;
  }

  lemma PairWorth(p: Param)
    requires AreBytes(p.1)
    ensures PieceWorths(Pieces(Pair(p), '&')) <= Worth(p)
    ensures !PlainKey(p.0) ==> PieceWorths(Pieces(Pair(p), '&')) < Worth(p)
  {
    hide PieceWorths, Weight, PlainKey;
    var e := Encoded(p.1);
    EncodedChars(p.1);
    forall i | 0 <= i < |e| ensures e[i] != '&' && !IsSpaceOrTab(e[i]) { assert e[i] in e; }
    PiecesWorth(p.0, e);
  }

  lemma {:induction false} ParsedWorths(pieces: seq<string>, seen: set<string>, params: seq<Param>)
    ensures Worths(ParsedPieces(pieces, seen, params)) <= Worths(params) + PieceWorths(pieces)
    ensures (forall q :: q in pieces ==> q in seen) ==> ParsedPieces(pieces, seen, params) == params
    decreases |pieces|
  {
    hide Worth, Worths, HasKey, ParsePair, Emplaced;
    if pieces != [] {
      var kv := pieces[0];
      HeadWorth(params, kv);
      if kv in seen {
        ParsedWorths(pieces[1..], seen, params);
      } else {
        ParsedWorths(pieces[1..], seen + {kv}, if HasKey(kv) then Emplaced(params, ParsePair(kv)) else params);
        assert kv in pieces;
      }
    }
  }

  lemma HeadWorth(params: seq<Param>, kv: string)
    ensures Worths(if HasKey(kv) then Emplaced(params, ParsePair(kv)) else params) == Worths(params) + PieceWorth(kv)
  {
    EmplacedWorth(params, ParsePair(kv));
    hide Worth, Worths, HasKey, ParsePair, Emplaced;
  }

  function PairWorths(params: seq<Param>): nat
    requires ByteValues(params)
  {
    if params == [] then 0
    else PairWorths(params[..|params| - 1]) + PieceWorths(Pieces(Pair(params[|params| - 1]), '&'))
  }

  lemma {:induction false} PairWorthsBound(params: seq<Param>)
    requires ByteValues(params)
    ensures PairWorths(params) <= Worths(params)
    ensures !PlainKeys(params) ==> PairWorths(params) < Worths(params)
  {
    hide PieceWorths, Pieces, Pair, Worth, PlainKey;
    if params != [] {
      var n := |params| - 1;
      PairWorthsBound(params[..n]);
      PairWorth(params[n]);
      assert PlainKeys(params[..n]) && PlainKey(params[n].0) ==> PlainKeys(params);
    }
  }

  lemma {:induction false} PiecesOfMember(params: seq<Param>, p: Param)
    requires ByteValues(params) && p in params
    ensures AreBytes(p.1) && forall q :: q in Pieces(Pair(p), '&') ==> q in AllPieces(params)
    decreases |params|
  {
    hide Pieces, Pair;
    if p != params[0] {
      assert p in params[1..];
      PiecesOfMember(params[1..], p);
    }
  }

  // What comes back is worth no more than the different parameters' own pieces.
  lemma {:induction false} ParsedListWorth(params: seq<Param>)
    requires ByteValues(params)
    ensures ByteValues(Dedup(params))
    ensures Worths(ParsedPieces(AllPieces(params), {}, [])) <= PairWorths(Dedup(params))
    decreases |params|
  {
    hide PieceWorths, Pieces, Pair, Worth, Worths;
    NothingWorth();
    if params != [] {
      var n := |params| - 1;
      var init, last := params[..n], params[n];
      assert params == init + [last];
      ParsedListWorth(init);
      AllPiecesSnoc(init, last);
      DedupMembers(init);
      var before, more := AllPieces(init), Pieces(Pair(last), '&');
      ParsedConcat(before, more, {}, []);
      ParsedWorths(more, {} + (set q | q in before), ParsedPieces(before, {}, []));
      if last in init {
        PiecesOfMember(init, last);
      } else {
        PairWorthsSnoc(Dedup(init), last);
      }
    }
  }

  lemma NothingWorth()
    ensures Worths([]) == 0
  {
  }

  lemma PairWorthsSnoc(params: seq<Param>, p: Param)
    requires ByteValues(params) && AreBytes(p.1)
    ensures ByteValues(params + [p])
      && PairWorths(params + [p]) == PairWorths(params) + PieceWorths(Pieces(Pair(p), '&'))
  {
    hide PieceWorths, Pieces, Pair;
    assert (params + [p])[..|params|] == params;
  }

  // A multimap survives being written and parsed exactly when all its keys are plain.
  lemma QueryRoundTripIff(params: seq<Param>)
    requires ByteValues(params) && Ordered(params)
    ensures ParsedPieces(Pieces(Joined(params), '&'), {}, []) == Dedup(params) <==> PlainKeys(params)
  {
    if PlainKeys(params) {
      QueryRoundTrip(params);
    } else {
      hide ParsedPieces, Dedup, Joined, Worths, PairWorths, Pieces, PlainKey;
      JoinedPieces(params);
      ParsedListWorth(params);
      PairWorthsBound(Dedup(params));
      DedupMembers(params);
      var i :| 0 <= i < |params| && !PlainKey(params[i].0);
      assert params[i] in Dedup(params);
    }
  }

  lemma OneParamRoundTripIff(k: string, v: string)
    requires AreBytes(v)
    ensures ParsedPieces(Pieces(Joined([(k, v)]), '&'), {}, []) == [(k, v)] <==> PlainKey(k)
  {
    hide ParsedPieces, Joined, Pieces, PlainKey;
    var params: seq<Param> := [(k, v)];
    assert |params[..0]| == 0 && Dedup(params) == params;
    QueryRoundTripIff(params);
  }
}
