/**
  The parser object: a byte buffer of which only a window is live, and the loop of parse().
*/
module MultipartParser {
  import opened Text
  import opened MultipartHeader
  import opened MultipartMachine
  import S = MultipartSplit

  class MultipartFormDataParser {
    const cfg: Config

    var state_: State
    var is_valid_: bool
    var file_: FormData
    var buf_: string
    var buf_spos_: nat
    var buf_epos_: nat
    // What the callbacks were given.
    var parts: seq<Part>

    ghost predicate Valid()
      reads this
    {
      buf_spos_ <= buf_epos_ <= |buf_|
    }

    // The bytes received and not consumed.
    ghost function Window(): string
      requires Valid()
      reads this
    {
      buf_[buf_spos_..buf_epos_]
    }

    ghost function View(): Machine
      requires Valid()
      reads this
    {
      Machine(state_, file_, is_valid_, Window(), parts)
    }

    constructor (cfg: Config)
      ensures Valid() && this.cfg == cfg && View() == Initial()
    {
      this.cfg := cfg;
      state_, is_valid_, file_ := 0, false, NO_FILE;
      buf_, buf_spos_, buf_epos_ := "", 0, 0;
      parts := [];
    }

    function BufSize(): nat
      requires Valid()
      reads this
    {
      buf_epos_ - buf_spos_
    }

    function BufHead(l: nat): (s: string)
      requires Valid() && l <= BufSize()
      reads this
      ensures s == Window()[..l]
    {
      assert forall k | 0 <= k < l :: buf_[buf_spos_..buf_spos_ + l][k] == Window()[..l][k];
      buf_[buf_spos_..buf_spos_ + l]
    }

    method StartWith(spos: nat, b: string) returns (r: bool)
      requires Valid() && buf_spos_ <= spos <= buf_epos_
      ensures r <==> StartsAt(Window(), spos - buf_spos_, b)
    {
      ghost var k := spos - buf_spos_;
      if buf_epos_ - spos < |b| { return false; }
      for i := 0 to |b|
        invariant buf_[spos..spos + i] == b[..i]
      {
        if buf_[i + spos] != b[i] {
          assert Window()[k..k + |b|][i] == buf_[spos + i];
          return false;
        }
        assert b[..i + 1] == b[..i] + [b[i]];
      }
      assert Window()[k..k + |b|] == buf_[spos..spos + |b|];
      return true;
    }

    // The first position of s in the window, or the window's size.
    method BufFind(s: string) returns (r: nat)
      requires Valid() && s != ""
      ensures r == Find(Window(), s)
    {
      var c := s[0];
      var off := buf_spos_;
      while off < buf_epos_
        invariant buf_spos_ <= off <= buf_epos_
        invariant forall k: nat :: k < off - buf_spos_ ==> !StartsAt(Window(), k, s)
      {
        var pos := off;
        while pos < buf_epos_ && buf_[pos] != c
          invariant off <= pos <= buf_epos_
          invariant forall k: nat :: off <= k < pos ==> buf_[k] != c
        {
          pos := pos + 1;
        }
        forall k: nat | off - buf_spos_ <= k < pos - buf_spos_ ensures !StartsAt(Window(), k, s) {
          DifferentStart(k, s);
        }
        if pos == buf_epos_ || |s| > buf_epos_ - pos {
          FindIs(Window(), s, |Window()|);
          return BufSize();
        }
        var found := StartWith(pos, s);
        if found {
          FindIs(Window(), s, pos - buf_spos_);
          return pos - buf_spos_;
        }
        off := pos + 1;
      }
      FindIs(Window(), s, |Window()|);
      return BufSize();
    }

    lemma DifferentStart(k: nat, s: string)
      requires Valid() && s != "" && k < buf_epos_ - buf_spos_ && buf_[buf_spos_ + k] != s[0]
      ensures !StartsAt(Window(), k, s)
    {
      if k + |s| <= |Window()| {
        assert Window()[k..k + |s|][0] == Window()[k];
      }
    }

    method BufErase(size: nat)
      requires Valid() && size <= BufSize()
      modifies this`buf_spos_
      ensures Valid() && Window() == old(Window())[size..]
    {
      buf_spos_ := buf_spos_ + size;
    }

    lemma OneMore(s: string, i: nat)
      requires i < |s|
      ensures s[..i + 1] == s[..i] + [s[i]]
    {
    }

    // Move the live bytes to the front of the buffer.
    method MoveToFront()
      requires Valid()
      modifies this`buf_, this`buf_spos_, this`buf_epos_
      ensures Valid() && buf_spos_ == 0 && Window() == old(Window())
    {
      var remaining := BufSize();
      if remaining > 0 && buf_spos_ > 0 {
        for i := 0 to remaining
          invariant buf_spos_ == old(buf_spos_) && |buf_| == |old(buf_)|
          invariant forall k :: 0 <= k < i ==> buf_[k] == old(buf_)[buf_spos_ + k]
          invariant forall k :: i <= k < |buf_| ==> buf_[k] == old(buf_)[k]
        {
          buf_ := buf_[i := buf_[buf_spos_ + i]];
        }
      }
      buf_spos_ := 0;
      buf_epos_ := remaining;
    }

    // Append bytes to the window, growing the buffer if needed.
    method BufAppend(data: string)
      requires Valid()
      modifies this`buf_, this`buf_spos_, this`buf_epos_
      ensures Valid() && Window() == old(Window()) + data
    {
      MoveToFront();
      ghost var kept := Window();
      if buf_epos_ + |data| > |buf_| {
        buf_ := buf_ + seq(buf_epos_ + |data| - |buf_|, _ => '\0');
      }
      for i := 0 to |data|
        invariant buf_spos_ == 0 && buf_epos_ == |kept| && |kept| + |data| <= |buf_|
        invariant buf_[..|kept| + i] == kept + data[..i]
      {
        OneMore(data, i);
        buf_ := buf_[buf_epos_ + i := data[i]];
        OneMore(buf_, |kept| + i);
      }
      buf_epos_ := buf_epos_ + |data|;
      assert data[..|data|] == data;
    }

    // One round's outcome: go on, or return ok.
    ghost predicate Did(round: Round, go: bool, ok: bool)
      requires Valid()
      reads this
    {
      if go then round == Next(View()) else round == Return(View(), ok)
    }

    method ParseHeaders() returns (go: bool, ok: bool)
      requires Valid() && state_ == 2
      modifies this`state_, this`is_valid_, this`file_, this`buf_spos_, this`parts
      ensures Valid() && Did(Headers(cfg, old(View())), go, ok)
    {
      hide HeaderLine;
      hide Headers;
      hide Find;
      hide StartsAt;
      var pos := BufFind(CRLF);
      while pos < BufSize()
        invariant Valid() && state_ == 2 && pos == Find(Window(), CRLF)
        invariant Headers(cfg, View()) == Headers(cfg, old(View()))
        decreases BufSize()
      {
        HeadersUnfold(cfg, View());
        FoundFits(Window(), CRLF);
        if pos == 0 {
          parts := parts + [Part(file_, "")];
          if !cfg.acceptHeader(file_) {
            is_valid_ := false;
            return false, false;
          }
          BufErase(2);
          state_ := 3;
          return true, true;
        }
        ghost var before := View();
        var header := BufHead(pos);
        var (file, accepted) := HeaderLine(file_, header);
        file_ := file;
        if !accepted {
          is_valid_ := false;
          return false, false;
        }
        BufErase(pos + 2);
        assert View() == Skip(before, pos + 2).(file := file);
        pos := BufFind(CRLF);
      }
      HeadersUnfold(cfg, View());
      return false, true;
    }

    method ReceiveContent(n: nat) returns (accepted: bool)
      requires Valid() && n <= BufSize()
      modifies this`parts, this`is_valid_
      ensures parts == Deliver(old(parts), Window()[..n])
      ensures accepted == cfg.acceptContent(Window()[..n]) && is_valid_ == (old(is_valid_) && accepted)
    {
      var chunk := BufHead(n);
      parts := Deliver(parts, chunk);
      accepted := cfg.acceptContent(chunk);
      if !accepted {
        is_valid_ := false;
      }
    }

    method ParseBody() returns (go: bool, ok: bool)
      requires Valid() && state_ == 3
      modifies this`state_, this`is_valid_, this`buf_spos_, this`parts
      ensures Valid() && Did(Body(cfg, old(View())), go, ok)
    {
      hide Deliver;
      var d := cfg.CrlfDashBoundary();
      if |d| > BufSize() {
        return false, true;
      }
      var pos := BufFind(d);
      if pos < BufSize() {
        var accepted := ReceiveContent(pos);
        if !accepted {
          return false, false;
        }
        BufErase(pos + |d|);
        state_ := 4;
        return true, true;
      }
      var len := BufSize() - |d|;
      if len > 0 {
        var accepted := ReceiveContent(len);
        if !accepted {
          return false, false;
        }
        BufErase(len);
      }
      return false, true;
    }

    method ParseBoundary() returns (go: bool, ok: bool)
      requires Valid() && state_ == 4
      modifies this`state_, this`is_valid_, this`buf_spos_
      ensures Valid() && Did(AfterBoundary(old(View())), go, ok)
    {
      if |CRLF| > BufSize() {
        return false, true;
      }
      var startsCrlf := StartWith(buf_spos_, CRLF);
      if startsCrlf {
        BufErase(|CRLF|);
        state_ := 1;
        return true, true;
      }
      var startsDash := StartWith(buf_spos_, DASH);
      if startsDash {
        BufErase(|DASH|);
        is_valid_ := true;
        BufErase(BufSize());
        return true, true;
      }
      return false, true;
    }

    // One call of parse() is one run of the machine's loop on the window with the new bytes appended.
    method Parse(data: string) returns (ok: bool)
      requires Valid()
      modifies this
      ensures Valid() && (View(), ok) == Drive(cfg, Feed(old(View()), data))
    {
      hide Drive;
      hide Headers;
      hide Body;
      hide AfterBoundary;
      hide Find;
      hide StartsAt;
      BufAppend(data);
      ghost var start := View();
      while BufSize() > 0
        invariant Valid() && Drive(cfg, View()) == Drive(cfg, start)
        decreases BufSize(), Rank(View())
      {
        ghost var m := View();
        DriveUnfold(cfg, m);
        var go;
        if state_ == 0 {
          var d := cfg.DashBoundaryCrlf();
          var pos := BufFind(d);
          if pos == BufSize() { return true; }
          FoundFits(Window(), d);
          BufErase(pos + |d|);
          state_ := 1;
          go, ok := true, true;
        } else if state_ == 1 {
          file_ := NO_FILE;
          state_ := 2;
          go, ok := true, true;
        } else if state_ == 2 {
          var pos := BufFind(CRLF);
          if pos > HEADER_MAX_LENGTH { return false; }
          go, ok := ParseHeaders();
        } else if state_ == 3 {
          go, ok := ParseBody();
        } else {
          go, ok := ParseBoundary();
        }
        assert Did(Step(cfg, m), go, ok);
        if !go { return ok; }
      }
      DriveEmpty(cfg, View());
      return true;
    }

    lemma DriveUnfold(cfg: Config, m: Machine)
      requires m.buf != ""
      ensures Drive(cfg, m) == match Step(cfg, m) case Next(m') => Drive(cfg, m') case Return(m', ok) => (m', ok)
      ensures var r := Step(cfg, m);
        r.Next? ==> |r.m.buf| < |m.buf| || (|r.m.buf| == |m.buf| && Rank(r.m) < Rank(m))
    {
      StepProgress(cfg, m);
    }

    lemma DriveEmpty(cfg: Config, m: Machine)
      requires m.buf == ""
      ensures Drive(cfg, m) == (m, true)
    {
    }

    // A caller's loop over the pieces of a body, stopping at the first refusal: on a regular input it
    // ends as one call on the whole input would.
    method ParseAll(pieces: seq<string>) returns (ok: bool)
      requires Valid() && View() == Initial()
      modifies this
      ensures Valid() && (View(), ok) == DriveAll(cfg, Initial(), pieces)
      ensures S.AcceptsContent(cfg) && S.Regular(cfg, Feed(Initial(), Concat(pieces))) ==>
        var (once, onceOk) := Drive(cfg, Feed(Initial(), Concat(pieces)));
        parts == once.parts && is_valid_ == once.valid && ok == onceOk
    {
      if S.AcceptsContent(cfg) && S.Regular(cfg, Feed(Initial(), Concat(pieces))) {
        S.SplittingIndependence(cfg, pieces);
      }
      hide Drive;
      assert pieces[0..] == pieces;
      for i := 0 to |pieces|
        invariant Valid() && DriveAll(cfg, View(), pieces[i..]) == DriveAll(cfg, Initial(), pieces)
      {
        assert pieces[i..][0] == pieces[i] && pieces[i..][1..] == pieces[i + 1..];
        ok := Parse(pieces[i]);
        if !ok { return; }
      }
      return true;
    }
  }
}
