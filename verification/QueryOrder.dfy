/**
  What parsing any query text gives: the values of every key, in the order in which they arrive, under keys
  in byte order.
*/
module QueryOrder {
  import opened Text
  import opened Query
  import opened QueryText

  // ---- the order of keys ----

  ghost predicate DifferAt(a: string, b: string, i: nat) {
    i < |a| && i < |b| && a[i] != b[i] && a[..i] == b[..i]
  }

  // A proper prefix comes first; otherwise the first different byte decides.
  lemma {:induction false} LessIff(a: string, b: string)
    ensures Less(a, b) <==> (a <= b && a != b) || exists i: nat :: DifferAt(a, b, i) && a[i] < b[i]
    decreases |a|
  {
    if a != "" && b != "" && a[0] == b[0] {
      LessIff(a[1..], b[1..]);
      forall i: nat ensures DifferAt(a[1..], b[1..], i) <==> DifferAt(a, b, i + 1) {
        if i < |a| - 1 && i < |b| - 1 {
          assert a[..i + 1] == [a[0]] + a[1..][..i] && b[..i + 1] == [b[0]] + b[1..][..i];
          assert a[1..][..i] == a[..i + 1][1..] && b[1..][..i] == b[..i + 1][1..];
        }
      }
      assert a <= b <==> a[1..] <= b[1..] by {
        assert a == [a[0]] + a[1..] && b == [b[0]] + b[1..];
      }
      assert !DifferAt(a, b, 0);
      if i: nat :| DifferAt(a, b, i) && a[i] < b[i] {
        assert DifferAt(a[1..], b[1..], i - 1) && a[1..][i - 1] < b[1..][i - 1];
      }
      if i: nat :| DifferAt(a[1..], b[1..], i) && a[1..][i] < b[1..][i] {
        assert DifferAt(a, b, i + 1) && a[i + 1] < b[i + 1];
      }
    } else if a != "" && b != "" {
      assert a[0] != b[0] && a[..0] == b[..0];
      assert DifferAt(a, b, 0);
    }
  }

  lemma {:induction false} LessIsTotal(a: string, b: string)
    ensures Less(a, b) || Less(b, a) || a == b
    ensures !(Less(a, b) && Less(b, a)) && !Less(a, a)
    decreases |a|
  {
    if a != "" && b != "" && a[0] == b[0] { LessIsTotal(a[1..], b[1..]); }
    if a != "" { LessIsIrreflexive(a); }
  }

  lemma {:induction false} LessIsIrreflexive(a: string)
    ensures !Less(a, a)
  {
    if a != "" { LessIsIrreflexive(a[1..]); }
  }

  lemma {:induction false} LessIsTransitive(a: string, b: string, c: string)
    ensures Less(a, b) && !Less(c, b) ==> Less(a, c)
    decreases |a|
  {
    if a != "" && b != "" && c != "" { LessIsTransitive(a[1..], b[1..], c[1..]); }
  }

  // ---- the multimap ----

  // The values under one key, in their order.
  function ValuesOf(params: seq<Param>, key: string): seq<string> {
    if params == [] then [] else (if params[0].0 == key then [params[0].1] else []) + ValuesOf(params[1..], key)
  }

  lemma {:induction false} ValuesConcat(a: seq<Param>, b: seq<Param>, key: string)
    ensures ValuesOf(a + b, key) == ValuesOf(a, key) + ValuesOf(b, key)
    decreases |a|
  {
    if a == [] {
      assert a + b == b;
    } else {
      assert (a + b)[1..] == a[1..] + b;
      ValuesConcat(a[1..], b, key);
    }
  }

  lemma RestIsOrdered(params: seq<Param>)
    requires params != [] && Ordered(params)
    ensures Ordered(params[1..]) && forall i :: 0 <= i < |params| ==> !Less(params[i].0, params[0].0)
  {
    LessIsIrreflexive(params[0].0);
  }

  lemma {:induction false} NoValuesBefore(params: seq<Param>, key: string)
    requires forall i :: 0 <= i < |params| ==> Less(key, params[i].0)
    ensures ValuesOf(params, key) == []
  {
    LessIsIrreflexive(key);
    if params != [] { NoValuesBefore(params[1..], key); }
  }

  lemma {:induction false} EmplacedMembers(params: seq<Param>, p: Param)
    ensures multiset(Emplaced(params, p)) == multiset(params) + multiset{p}
    ensures forall q :: q in Emplaced(params, p) <==> q == p || q in params
  {
    if params != [] && !Less(p.0, params[0].0) {
      EmplacedMembers(params[1..], p);
      assert params == [params[0]] + params[1..];
    }
  }

  // A new element comes behind those with the same key, and the keys stay in order.
  lemma {:induction false} EmplacedIsLast(params: seq<Param>, p: Param, key: string)
    requires Ordered(params)
    ensures Ordered(Emplaced(params, p))
    ensures ValuesOf(Emplaced(params, p), key) == ValuesOf(params, key) + if p.0 == key then [p.1] else []
    decreases |params|
  {
    hide Less, Ordered;
    if params == [] {
      OneIsOrdered(p);
      OneValue(p, key);
    } else if Less(p.0, params[0].0) {
      FirstIsOrdered(params, p, key);
    } else {
      RestIsOrdered(params);
      EmplacedIsLast(params[1..], p, key);
      EmplacedMembers(params[1..], p);
      var rest := Emplaced(params[1..], p);
      assert ([params[0]] + rest)[1..] == rest;
      forall i | 0 <= i < |rest| ensures !Less(rest[i].0, params[0].0) { assert rest[i] in rest; }
      ConsIsOrdered(params[0], rest);
    }
  }

  lemma OneIsOrdered(p: Param)
    ensures Ordered([p])
  {
  }

  lemma ConsIsOrdered(p: Param, rest: seq<Param>)
    requires Ordered(rest) && forall i :: 0 <= i < |rest| ==> !Less(rest[i].0, p.0)
    ensures Ordered([p] + rest)
  {
    hide Less;
    var all := [p] + rest;
    assert forall i :: 0 < i < |all| ==> all[i] == rest[i - 1];
  }

  lemma FirstIsOrdered(params: seq<Param>, p: Param, key: string)
    requires Ordered(params) && params != [] && Less(p.0, params[0].0)
    ensures Ordered([p] + params)
    ensures ValuesOf([p] + params, key) == ValuesOf(params, key) + if p.0 == key then [p.1] else []
  {
    hide Less;
    RestIsOrdered(params);
    forall i | 0 <= i < |params| ensures Less(p.0, params[i].0) && !Less(params[i].0, p.0) {
      LessIsTransitive(p.0, params[0].0, params[i].0);
      LessIsTotal(p.0, params[i].0);
    }
    ConsIsOrdered(p, params);
    assert ([p] + params)[1..] == params;
    if p.0 == key { NoValuesBefore(params, key); }
  }

  lemma OneValue(p: Param, key: string)
    ensures ValuesOf([p], key) == if p.0 == key then [p.1] else []
  {
    assert [p][1..] == [];
  }

  // ---- any text ----

  // The pieces that name a key, repeats left out, each cut at its first equals sign and decoded.
  function Entries(pieces: seq<string>, seen: set<string>): seq<Param> {
    if pieces == [] then []
    else
      (if pieces[0] in seen || pieces[0] == "" || pieces[0][0] == '=' then [] else [Entry(pieces[0])])
      + Entries(pieces[1..], seen + {pieces[0]})
  }

  // A piece without an equals sign is a key with an empty value.
  function Entry(kv: string): Param
  {
    if '=' !in kv then (Decoded(kv, true), "")
    else
      var (key, val) := Cut(kv);
      (Decoded(key, true), Decoded(val, true))
  }

  function Cut(kv: string): (string, string) {
    if kv == "" then ("", "")
    else if kv[0] == '=' then ("", kv[1..])
    else (([kv[0]] + Cut(kv[1..]).0), Cut(kv[1..]).1)
  }

  lemma {:induction false} CutIs(kv: string)
    ensures '=' in kv ==>
      var i := IndexOf(kv, '='); i < |kv| && Cut(kv) == (kv[..i], kv[i + 1..]) && kv == Cut(kv).0 + "=" + Cut(kv).1
  {
    if kv != "" && kv[0] != '=' {
      CutIs(kv[1..]);
      var i := IndexOf(kv, '=');
      if '=' in kv {
        assert '=' in kv[1..];
        assert kv[1..][..i - 1] == kv[..i][1..] && kv[1..][i..] == kv[i + 1..] && [kv[0]] + kv[..i][1..] == kv[..i];
      }
    }
  }

  lemma EntryIs(kv: string)
    ensures HasKey(kv) <==> kv != "" && kv[0] != '='
    ensures ParsePair(kv) == Entry(kv)
  {
    hide Decoded;
    if '=' in kv {
      CutIs(kv);
    } else {
      IndexOfIs(kv, '=', |kv|);
      assert kv[..|kv|] == kv;
    }
  }

  lemma EntriesStep(pieces: seq<string>, seen: set<string>, key: string)
    requires pieces != []
    ensures var kv := pieces[0];
      ValuesOf(Entries(pieces, seen), key)
      == (if kv !in seen && HasKey(kv) && Entry(kv).0 == key then [Entry(kv).1] else [])
         + ValuesOf(Entries(pieces[1..], seen + {kv}), key)
  {
    hide Entry;
    var kv, more := pieces[0], Entries(pieces[1..], seen + {pieces[0]});
    EntryIs(kv);
    hide HasKey;
    if kv !in seen && HasKey(kv) {
      ValuesConcat([Entry(kv)], more, key);
      OneValue(Entry(kv), key);
    } else {
      assert [] + more == more;
    }
  }

  // Under every key stand the values it had and then those of its pieces, in order of arrival, and the keys
  // stay in order.
  lemma {:induction false} ParsedValues(pieces: seq<string>, seen: set<string>, params: seq<Param>, key: string)
    requires Ordered(params)
    ensures var parsed := ParsedPieces(pieces, seen, params);
      && Ordered(parsed)
      && ValuesOf(parsed, key) == ValuesOf(params, key) + ValuesOf(Entries(pieces, seen), key)
    decreases |pieces|
  {
    hide Ordered, ParsePair, HasKey, Entry, Emplaced, Entries, ValuesOf;
    if pieces == [] {
      NoEntries(seen, params, key);
    } else {
      var kv, more := pieces[0], pieces[1..];
      EntriesStep(pieces, seen, key);
      EntryIs(kv);
      if kv in seen {
        assert seen + {kv} == seen;
        ParsedValues(more, seen, params, key);
      } else if HasKey(kv) {
        EmplacedIsLast(params, ParsePair(kv), key);
        ParsedValues(more, seen + {kv}, Emplaced(params, ParsePair(kv)), key);
      } else {
        ParsedValues(more, seen + {kv}, params, key);
      }
    }
  }

  lemma NoEntries(seen: set<string>, params: seq<Param>, key: string)
    ensures ValuesOf(params, key) == ValuesOf(params, key) + ValuesOf(Entries([], seen), key)
  {
  }

  // One piece without an equals sign.
  lemma FlagHasEmptyValue(flag: string)
    requires flag != "" && '&' !in flag && '=' !in flag && Trimmed(flag)
    ensures ParsedPieces(Pieces(flag, '&'), {}, []) == [(Decoded(flag, true), "")]
  {
    hide Decoded, Pieces;
    PiecesOne(flag, '&');
    EntryIs(flag);
    assert [flag][1..] == [];
  }
}
