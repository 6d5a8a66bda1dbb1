/**
  Splitting independence of the multipart parser: however the input is cut into calls, the headers, the
  concatenated content of every part and the final verdict are those of a single call.
*/
module MultipartSplit {
  import opened Text
  import opened MultipartHeader
  import opened MultipartMachine

  // ---- searching in a string that is still growing ----

  lemma Slices(s: string, t: string, p: nat)
    requires p <= |s|
    ensures (s + t)[..p] == s[..p] && (s + t)[p..] == s[p..] + t
  {
  }

  lemma FindFound(s: string, t: string, pat: string)
    requires pat != "" && Find(s, pat) < |s|
    ensures Find(s + t, pat) == Find(s, pat)
  {
    var r := Find(s, pat);
    assert (s + t)[r..r + |pat|] == s[r..r + |pat|];
    forall k | 0 <= k < r ensures !StartsAt(s + t, k, pat) {
      NotYet(s, t, pat, k);
    }
    FindIs(s + t, pat, r);
  }

  lemma NotYet(s: string, t: string, pat: string, k: nat)
    requires k + |pat| <= |s| && !StartsAt(s, k, pat)
    ensures !StartsAt(s + t, k, pat)
  {
    assert (s + t)[k..k + |pat|] == s[k..k + |pat|];
  }

  // An occurrence that needs more bytes starts within the last |pat| - 1 bytes.
  lemma FindNotFound(s: string, t: string, pat: string)
    requires pat != "" && Find(s, pat) == |s|
    ensures Find(s + t, pat) + |pat| > |s|
  {
    var r := Find(s + t, pat);
    if r + |pat| <= |s| {
      NotYet(s, t, pat, r);
      if r == |s + t| { assert false; }
    }
  }

  // Dropping a prefix without occurrences moves the first occurrence along.
  lemma FindAfter(s: string, pat: string, n: nat)
    requires pat != "" && n <= |s| && n <= Find(s, pat)
    ensures Find(s[n..], pat) == Find(s, pat) - n
  {
    var r := Find(s, pat);
    forall k | 0 <= k < r - n ensures !StartsAt(s[n..], k, pat) {
      assert !StartsAt(s, n + k, pat);
      if n + k + |pat| <= |s| {
        assert s[n..][k..k + |pat|] == s[n + k..n + k + |pat|];
      }
    }
    if r < |s| { assert s[n..][r - n..r - n + |pat|] == s[r..r + |pat|]; }
    FindIs(s[n..], pat, r - n);
  }

  // ---- the inputs considered ----

  ghost predicate AcceptsContent(cfg: Config) {
    forall chunk :: cfg.acceptContent(chunk)
  }

  // Every header line is under the limit; an unfinished last one may have reached it.
  ghost predicate ShortLines(file: FormData, buf: string)
    decreases |buf|
  {
    var pos := Find(buf, CRLF);
    && (pos < HEADER_MAX_LENGTH || pos == |buf| == HEADER_MAX_LENGTH)
    && (0 < pos < |buf| && HeaderLine(file, buf[..pos]).1 ==>
        ShortLines(HeaderLine(file, buf[..pos]).0, buf[pos + 2..]))
  }

  // Header lines that change nothing that anybody sees: complete ones are accepted and not empty, and under
  // the limit, which an unfinished last one may have reached.
  ghost predicate Harmless(file: FormData, lines: string)
    decreases |lines|
  {
    var pos := Find(lines, CRLF);
    if pos == |lines| then |lines| <= HEADER_MAX_LENGTH
    else
      && 0 < pos < HEADER_MAX_LENGTH
      && HeaderLine(file, lines[..pos]).1
      && Harmless(HeaderLine(file, lines[..pos]).0, lines[pos + 2..])
  }

  // What may follow the closing delimiter: wherever a line end begins, as another delimiter's would, what
  // follows it is harmless.
  ghost predicate Inert(e: string) {
    forall k: nat | StartsAt(e, k, CRLF) :: Harmless(NO_FILE, e[k + 2..])
  }

  ghost predicate Closes(m: Machine) {
    m.state == 4 && !StartsAt(m.buf, 0, CRLF) && StartsAt(m.buf, 0, DASH)
  }

  // An input, all of it in m.buf, on which the parser's answer must not depend on the cutting.
  ghost predicate Regular(cfg: Config, m: Machine)
    decreases |m.buf|, Rank(m)
  {
    m.buf == "" ||
    (&& (m.state == 2 ==> ShortLines(m.file, m.buf))
     && (if Closes(m) then Inert(m.buf[2..])
         else
           StepProgress(cfg, m);
           var r := Step(cfg, m);
           r.Next? ==> Regular(cfg, r.m)))
  }

  // ---- one round, with more input to come ----

  lemma {:induction false} HeadersExtend(cfg: Config, m: Machine, t: string)
    ensures var r, r' := Headers(cfg, m), Headers(cfg, Feed(m, t));
      match r
      case Next(m') => r' == Next(Feed(m', t))
      case Return(m', ok) =>
        if ok then r' == Headers(cfg, Feed(m', t)) && Find(m'.buf, CRLF) == |m'.buf| && m'.state == m.state
        else r'.Return? && !r'.ok && r'.m == Feed(m', t)
    decreases |m.buf|
  {
    hide HeaderLine;
    hide Find;
    hide StartsAt;
    hide Headers;
    HeadersUnfold(cfg, m);
    HeadersUnfold(cfg, Feed(m, t));
    var pos := Find(m.buf, CRLF);
    if pos < |m.buf| {
      FoundFits(m.buf, CRLF);
      FindFound(m.buf, t, CRLF);
      Slices(m.buf, t, pos);
      Slices(m.buf, t, pos + 2);
      if pos > 0 {
        var (file, ok) := HeaderLine(m.file, m.buf[..pos]);
        if ok { HeadersExtend(cfg, Skip(m, pos + 2).(file := file), t); }
      }
    }
  }

  lemma {:induction false} ShortLinesRest(cfg: Config, m: Machine, t: string)
    requires ShortLines(m.file, m.buf + t)
    ensures Find(m.buf, CRLF) <= HEADER_MAX_LENGTH
    ensures var r := Headers(cfg, m);
      r.Return? && r.ok ==> ShortLines(r.m.file, r.m.buf + t)
    decreases |m.buf|
  {
    hide HeaderLine;
    hide Find;
    hide StartsAt;
    hide Headers;
    HeadersUnfold(cfg, m);
    var pos := Find(m.buf, CRLF);
    if pos < |m.buf| {
      FoundFits(m.buf, CRLF);
      FindFound(m.buf, t, CRLF);
      Slices(m.buf, t, pos);
      Slices(m.buf, t, pos + 2);
      if pos > 0 {
        var (file, ok) := HeaderLine(m.file, m.buf[..pos]);
        if ok { ShortLinesRest(cfg, Skip(m, pos + 2).(file := file), t); }
      }
    } else {
      FindNotFound(m.buf, t, CRLF);
    }
  }

  lemma FirstLineShort(file: FormData, buf: string)
    requires ShortLines(file, buf)
    ensures Find(buf, CRLF) <= HEADER_MAX_LENGTH
  {
  }

  lemma DeliverTwice(parts: seq<Part>, a: string, b: string)
    ensures Deliver(Deliver(parts, a), b) == Deliver(parts, a + b)
    ensures Deliver(parts, "") == parts
  {
    if parts != [] {
      var last := parts[|parts| - 1];
      assert last.content + (a + b) == last.content + a + b;
      assert last.content + "" == last.content;
      assert Deliver(parts, a)[..|parts| - 1] == parts[..|parts| - 1];
      assert parts[..|parts| - 1] + [last] == parts;
    }
  }

  // The body state holds back as many bytes as the delimiter has, so no delimiter is ever cut in two.
  lemma BodyExtend(cfg: Config, m: Machine, t: string)
    requires AcceptsContent(cfg)
    ensures var r, r' := Body(cfg, m), Body(cfg, Feed(m, t));
      match r
      case Next(m') => r' == Next(Feed(m', t))
      case Return(m', ok) => ok && m'.state == m.state && Body(cfg, Feed(m', t)) == r'
  {
    var d := cfg.CrlfDashBoundary();
    var all := m.buf + t;
    if |d| <= |m.buf| {
      var pos := Find(m.buf, d);
      if pos < |m.buf| {
        FindFound(m.buf, t, d);
        Slices(m.buf, t, pos);
        Slices(m.buf, t, pos + |d|);
      } else {
        BodyHeldBack(cfg, m, t);
      }
    }
  }

  function Cut(m: Machine, pos: nat, n: nat, state: State): Machine
    requires pos <= |m.buf| && n <= |m.buf|
  {
    m.(parts := Deliver(m.parts, m.buf[..pos]), buf := m.buf[n..], state := state)
  }

  lemma BodyIs(cfg: Config, m: Machine)
    requires AcceptsContent(cfg) && |cfg.CrlfDashBoundary()| <= |m.buf|
    ensures var d := cfg.CrlfDashBoundary();
      var pos := Find(m.buf, d);
      Body(cfg, m) == if pos < |m.buf| then Next(Cut(m, pos, pos + |d|, 4))
                      else Return(Cut(m, |m.buf| - |d|, |m.buf| - |d|, m.state), true)
  {
    hide Find;
    DeliverTwice(m.parts, "", "");
    assert m.buf[..0] == "" && m.buf[0..] == m.buf;
  }

  lemma CutTwice(m: Machine, t: string, len: nat, pos: nat, n: nat, state: State)
    requires len <= |m.buf| && len <= pos <= |m.buf + t| && len <= n <= |m.buf + t|
    ensures |Feed(Cut(m, len, len, m.state), t).buf| == |m.buf + t| - len
    ensures Cut(Feed(Cut(m, len, len, m.state), t), pos - len, n - len, state) == Cut(Feed(m, t), pos, n, state)
  {
    var all := m.buf + t;
    assert m.buf[len..] + t == all[len..] && m.buf[..len] == all[..len];
    DeliverFrom(m.parts, all, len, pos);
    assert all[len..][n - len..] == all[n..];
  }

  lemma BodyHeldBack(cfg: Config, m: Machine, t: string)
    requires AcceptsContent(cfg) && |cfg.CrlfDashBoundary()| <= |m.buf|
    requires Find(m.buf, cfg.CrlfDashBoundary()) == |m.buf|
    ensures var len := |m.buf| - |cfg.CrlfDashBoundary()|;
      && Body(cfg, m) == Return(Cut(m, len, len, m.state), true)
      && Body(cfg, Feed(Cut(m, len, len, m.state), t)) == Body(cfg, Feed(m, t))
  {
    hide Find;
    hide Body;
    hide Cut;
    var d := cfg.CrlfDashBoundary();
    var len := |m.buf| - |d|;
    var all := m.buf + t;
    BodyIs(cfg, m);
    BodyIs(cfg, Feed(m, t));
    FindNotFound(m.buf, t, d);
    FindAfter(all, d, len);
    CutTwice(m, t, len, len, len, m.state);
    CutBuf(m, t, len);
    BodyIs(cfg, Feed(Cut(m, len, len, m.state), t));
    var pos := Find(all, d);
    if pos < |all| {
      CutTwice(m, t, len, pos, pos + |d|, 4);
    } else {
      CutTwice(m, t, len, |all| - |d|, |all| - |d|, m.state);
    }
  }

  lemma CutBuf(m: Machine, t: string, len: nat)
    requires len <= |m.buf|
    ensures Feed(Cut(m, len, len, m.state), t).buf == (m.buf + t)[len..]
    ensures Cut(m, len, len, m.state).state == m.state
  {
  }

  lemma DeliverFrom(parts: seq<Part>, all: string, len: nat, end: nat)
    requires len <= end <= |all|
    ensures Deliver(Deliver(parts, all[..len]), all[len..][..end - len]) == Deliver(parts, all[..end])
  {
    DeliverTwice(parts, all[..len], all[len..][..end - len]);
    assert all[..len] + all[len..][..end - len] == all[..end];
  }

  lemma StepNext(cfg: Config, m: Machine, t: string)
    requires AcceptsContent(cfg) && m.buf != "" && !Closes(m) && Step(cfg, m).Next?
    requires m.state == 2 ==> ShortLines(m.file, m.buf + t)
    ensures Step(cfg, Feed(m, t)) == Next(Feed(Step(cfg, m).m, t)) && !Closes(Feed(m, t))
  {
    match m.state
    case 0 => StartNext(cfg, m, t);
    case 1 =>
    case 2 =>
      HeadersExtend(cfg, m, t);
      FirstLineShort(m.file, m.buf + t);
      hide Headers, FindFrom;
    case 3 =>
      BodyExtend(cfg, m, t);
      hide Body;
    case 4 => BoundaryNext(cfg, m, t);
  }

  lemma StartNext(cfg: Config, m: Machine, t: string)
    requires m.buf != "" && m.state == 0 && Step(cfg, m).Next?
    ensures Step(cfg, Feed(m, t)) == Next(Feed(Step(cfg, m).m, t))
  {
    var d := cfg.DashBoundaryCrlf();
    FindFound(m.buf, t, d);
    Slices(m.buf, t, Find(m.buf, d) + |d|);
    hide Find;
  }

  lemma BoundaryNext(cfg: Config, m: Machine, t: string)
    requires m.buf != "" && m.state == 4 && !Closes(m) && Step(cfg, m).Next?
    ensures Step(cfg, Feed(m, t)) == Next(Feed(Step(cfg, m).m, t)) && !Closes(Feed(m, t))
  {
    var all := m.buf + t;
    assert all[0..2] == m.buf[0..2];
    assert all[2..] == m.buf[2..] + t;
  }

  // A call that returned because it needs more bytes left the machine where one call would pass through.
  lemma StepReturn(cfg: Config, m: Machine, t: string)
    requires AcceptsContent(cfg) && m.buf != "" && Step(cfg, m).Return? && Regular(cfg, Feed(m, t))
    ensures var r := Step(cfg, m);
      if r.ok then Drive(cfg, Feed(r.m, t)) == Drive(cfg, Feed(m, t)) && Regular(cfg, Feed(r.m, t))
      else
        var (m', ok) := Drive(cfg, Feed(m, t));
        !ok && m' == Feed(r.m, t)
  {
    var all := m.buf + t;
    match m.state
    case 0 =>
    case 1 =>
    case 2 =>
      HeadersExtend(cfg, m, t);
      ShortLinesRest(cfg, m, t);
      FirstLineShort(m.file, all);
      var r := Step(cfg, m);
      if r.ok {
        FirstLineShort(r.m.file, r.m.buf + t);
        if r.m.buf + t == "" { assert t == "" && all == m.buf && Feed(m, t) == m && Feed(r.m, t) == r.m; }
      }
    case 3 =>
      BodyExtend(cfg, m, t);
      BodyRest(cfg, m);
    case 4 =>
  }

  lemma BodyRest(cfg: Config, m: Machine)
    requires m.buf != ""
    ensures Body(cfg, m).m.buf != "" || Body(cfg, m).Next?
  {
  }

  // ---- after the closing delimiter ----

  // The verdict is in and what is left cannot change it.
  ghost predicate Settled(m: Machine, rest: string) {
    && m.valid
    && match m.state
       case 1 => Harmless(NO_FILE, m.buf + rest)
       case 2 => Harmless(m.file, m.buf + rest)
       case 4 => Inert(m.buf + rest)
       case _ => false
  }

  lemma InertSuffix(a: string, b: string)
    requires Inert(a + b)
    ensures Inert(b)
  {
    forall k: nat | StartsAt(b, k, CRLF) ensures Harmless(NO_FILE, b[k + 2..]) {
      assert b[k..k + 2] == (a + b)[|a| + k..|a| + k + 2];
      assert StartsAt(a + b, |a| + k, CRLF);
      assert (a + b)[|a| + k + 2..] == b[k + 2..];
    }
  }

  // Header lines as far as they have arrived, harmless with what is still to come.
  lemma {:induction false} HarmlessHeaders(cfg: Config, m: Machine, rest: string)
    requires Harmless(m.file, m.buf + rest)
    ensures Find(m.buf, CRLF) <= HEADER_MAX_LENGTH
    ensures var r := Headers(cfg, m);
      r.Return? && r.ok && r.m.parts == m.parts && r.m.valid == m.valid && r.m.state == m.state
      && Harmless(r.m.file, r.m.buf + rest)
    decreases |m.buf|
  {
    hide HeaderLine, Find, StartsAt, Headers;
    HeadersUnfold(cfg, m);
    var pos := Find(m.buf, CRLF);
    if pos < |m.buf| {
      FoundFits(m.buf, CRLF);
      FindFound(m.buf, rest, CRLF);
      Slices(m.buf, rest, pos);
      Slices(m.buf, rest, pos + 2);
      HarmlessHeaders(cfg, Skip(m, pos + 2).(file := HeaderLine(m.file, m.buf[..pos]).0), rest);
    } else {
      FindNotFound(m.buf, rest, CRLF);
    }
  }

  lemma {:induction false} SettledDrive(cfg: Config, m: Machine, rest: string)
    requires Settled(m, rest)
    ensures var (m', ok) := Drive(cfg, m);
      ok && m'.parts == m.parts && Settled(m', rest)
    decreases |m.buf|, Rank(m)
  {
    if m.buf != "" {
      StepProgress(cfg, m);
      if m.state == 4 {
        if |m.buf| >= 2 {
          assert (m.buf + rest)[0..2] == m.buf[0..2];
          Slices(m.buf, rest, 2);
          if StartsAt(m.buf, 0, CRLF) {
            assert StartsAt(m.buf + rest, 0, CRLF);
            SettledDrive(cfg, Skip(m, 2).(state := 1), rest);
          } else if StartsAt(m.buf, 0, DASH) {
            InertSuffix(m.buf, rest);
            assert "" + rest == rest;
            SettledDrive(cfg, m.(valid := true, buf := ""), rest);
          }
        }
      } else if m.state == 1 {
        SettledDrive(cfg, m.(file := NO_FILE, state := 2), rest);
      } else {
        HarmlessHeaders(cfg, m, rest);
      }
    }
  }

  // ---- cutting once, and cutting any number of times ----

  // One call on a prefix and what it leads to on the rest, against one call on everything.
  lemma {:induction false} CutOnce(cfg: Config, m: Machine, t: string)
    requires AcceptsContent(cfg) && Regular(cfg, Feed(m, t))
    ensures var (m1, ok1) := Drive(cfg, m);
      var (m2, ok2) := Drive(cfg, Feed(m, t));
      if !ok1 then !ok2 && m1.parts == m2.parts && m1.valid == m2.valid
      else
        || (Drive(cfg, Feed(m1, t)) == (m2, ok2) && Regular(cfg, Feed(m1, t)))
        || (ok2 && m2.valid && m1.parts == m2.parts && Settled(m1, t))
    decreases |m.buf|, Rank(m)
  {
    if m.buf != "" {
      StepProgress(cfg, m);
      if Closes(m) {
        var done := m.(valid := true, buf := "");
        assert (m.buf + t)[0..2] == m.buf[0..2];
        assert (m.buf + t)[2..] == m.buf[2..] + t;
        InertSuffix(m.buf[2..], t);
        assert "" + t == t;
        assert Drive(cfg, m) == (done, true) && Drive(cfg, Feed(m, t)) == (done, true);
      } else if Step(cfg, m).Next? {
        StepNext(cfg, m, t);
        StepProgress(cfg, Feed(m, t));
        CutOnce(cfg, Step(cfg, m).m, t);
      } else {
        StepReturn(cfg, m, t);
      }
    }
  }

  lemma {:induction false} SettledAll(cfg: Config, m: Machine, pieces: seq<string>)
    requires Settled(m, Concat(pieces))
    ensures var (m', ok) := DriveAll(cfg, m, pieces);
      ok && m'.valid && m'.parts == m.parts
    decreases |pieces|
  {
    if pieces != [] {
      var p, rest := pieces[0], Concat(pieces[1..]);
      assert m.buf + (p + rest) == m.buf + p + rest;
      SettledDrive(cfg, Feed(m, p), rest);
      SettledAll(cfg, Drive(cfg, Feed(m, p)).0, pieces[1..]);
    }
  }

  lemma {:induction false} CutAll(cfg: Config, m: Machine, pieces: seq<string>)
    requires AcceptsContent(cfg) && Regular(cfg, Feed(m, Concat(pieces)))
    requires pieces == [] ==> Drive(cfg, m) == (m, true)
    ensures var (m1, ok1) := DriveAll(cfg, m, pieces);
      var (m2, ok2) := Drive(cfg, Feed(m, Concat(pieces)));
      m1.parts == m2.parts && m1.valid == m2.valid && ok1 == ok2
    decreases |pieces|
  {
    if pieces == [] {
      assert m.buf + "" == m.buf;
      assert Feed(m, Concat(pieces)) == m;
    } else {
      var p, rest := pieces[0], Concat(pieces[1..]);
      var fed := Feed(m, p);
      assert m.buf + (p + rest) == m.buf + p + rest;
      assert Feed(m, Concat(pieces)) == Feed(fed, rest);
      CutOnce(cfg, fed, rest);
      var (m1, ok1) := Drive(cfg, fed);
      if ok1 {
        if Drive(cfg, Feed(m1, rest)) == Drive(cfg, Feed(fed, rest)) && Regular(cfg, Feed(m1, rest)) {
          if pieces[1..] == [] {
            assert rest == "" && Feed(m1, rest).buf == m1.buf && Feed(fed, rest).buf == fed.buf;
            assert Feed(m1, rest) == m1 && Feed(fed, rest) == fed;
          }
          CutAll(cfg, m1, pieces[1..]);
        } else {
          SettledAll(cfg, m1, pieces[1..]);
        }
      }
    }
  }

  // Splitting independence: same part headers, same content of each part, same validity, same answer.
  lemma SplittingIndependence(cfg: Config, pieces: seq<string>)
    requires AcceptsContent(cfg) && Regular(cfg, Feed(Initial(), Concat(pieces)))
    ensures var (m1, ok1) := DriveAll(cfg, Initial(), pieces);
      var (m2, ok2) := Drive(cfg, Feed(Initial(), Concat(pieces)));
      m1.parts == m2.parts && m1.valid == m2.valid && ok1 == ok2
  {
    CutAll(cfg, Initial(), pieces);
  }
}
