/**
  What becomes of a multipart body when the application refuses a part.
*/
module MultipartRefusal {
  import opened Basics
  import opened Text
  import opened MultipartHeader
  import opened MultipartMachine
  import opened MultipartSplit
  import opened MultipartRoundTrip

  // The parts that a list of items becomes.
  function PartsOf(items: seq<Item>): seq<Part> {
    if items == [] then [] else PartsOf(items[..|items| - 1]) + [PartOf(items[|items| - 1])]
  }

  function PartOf(item: Item): Part {
    Part(FileOf(item), item.content)
  }

  ghost predicate AcceptsItem(cfg: Config, item: Item) {
    cfg.acceptHeader(FileOf(item)) && cfg.acceptContent(item.content)
  }

  ghost predicate ArePlain(cfg: Config, items: seq<Item>) {
    forall i :: 0 <= i < |items| ==> PlainItem(items[i], cfg.boundary)
  }

  // The items before k are read, and the machine stands before item k.
  ghost function Before(cfg: Config, m: Machine, items: seq<Item>, k: nat): Machine
    requires k < |items|
  {
    m.(file := if k == 0 then m.file else FileOf(items[k - 1]), parts := m.parts + PartsOf(items[..k]),
       buf := Tail(items[k..], cfg.boundary), state := 1)
  }

  lemma {:induction false} PrefixIsRead(cfg: Config, m: Machine, items: seq<Item>, k: nat)
    requires BoundaryCharsValid(cfg.boundary) && ArePlain(cfg, items) && k < |items|
    requires forall i :: 0 <= i < k ==> AcceptsItem(cfg, items[i])
    requires m.state == 1 && m.buf == Tail(items, cfg.boundary)
    ensures var m' := Before(cfg, m, items, k);
      Drive(cfg, m) == Drive(cfg, m') && (Regular(cfg, m') ==> Regular(cfg, m))
    decreases k
  {
    hide Tail, PlainItem, Drive, Regular, FileOf;
    if k == 0 {
      assert items[0..] == items && items[..0] == [] && m.parts + [] == m.parts;
    } else {
      PrefixIsRead(cfg, m, items, k - 1);
      ItemIsRead(cfg, Before(cfg, m, items, k - 1), items[k - 1..]);
      assert items[k - 1..][1..] == items[k..] && items[k - 1..][0] == items[k - 1];
      PartsOfSnoc(items, k - 1);
      AppendPart(m.parts, PartsOf(items[..k - 1]), PartOf(items[k - 1]));
    }
  }

  lemma PartsOfSnoc(items: seq<Item>, k: nat)
    requires k < |items|
    ensures PartsOf(items[..k + 1]) == PartsOf(items[..k]) + [PartOf(items[k])]
  {
    assert items[..k + 1][..k] == items[..k] && items[..k + 1][k] == items[k];
  }

  lemma AppendPart(a: seq<Part>, b: seq<Part>, p: Part)
    ensures a + b + [p] == a + (b + [p])
  {
  }

  lemma ItemIsRead(cfg: Config, m: Machine, items: seq<Item>)
    requires BoundaryCharsValid(cfg.boundary) && |items| > 1 && PlainItem(items[0], cfg.boundary)
    requires AcceptsItem(cfg, items[0]) && m.state == 1 && m.buf == Tail(items, cfg.boundary)
    ensures var m' := m.(file := FileOf(items[0]), parts := m.parts + [PartOf(items[0])],
                         buf := Tail(items[1..], cfg.boundary), state := 1);
      Drive(cfg, m) == Drive(cfg, m') && (Regular(cfg, m') ==> Regular(cfg, m))
  {
    hide Tail, PlainItem, HeaderBlock, Find, Step, FileOf, Regular, ShortLines, Drive, Closes;
    var item, next := items[0], Tail(items[1..], cfg.boundary);
    TailUnfold(items, cfg.boundary);
    PartParses(cfg, m, item, CRLF + next);
    var m4 := m.(file := FileOf(item), parts := m.parts + [PartOf(item)], buf := CRLF + next, state := 4);
    NextBoundaryParses(cfg, m4, next);
    DriveNext(cfg, m4);
  }

  lemma ItemStarts(cfg: Config, m: Machine, items: seq<Item>) returns (rest: string)
    requires items != [] && m.state == 1 && m.buf == Tail(items, cfg.boundary)
    ensures var m2 := m.(file := NO_FILE, state := 2);
      && m.buf == HeaderBlock(items[0]) + (items[0].content + cfg.CrlfDashBoundary() + rest)
      && m.buf != "" && Drive(cfg, m) == Drive(cfg, m2) && (Regular(cfg, m2) ==> Regular(cfg, m))
  {
    hide Drive, Regular, Headers, Find, HeaderBlock;
    TailUnfold(items, cfg.boundary);
    HeaderBlockNotEmpty(items[0]);
    rest := if |items| == 1 then DASH + CRLF else CRLF + Tail(items[1..], cfg.boundary);
    assert Step(cfg, m) == Next(m.(file := NO_FILE, state := 2));
    DriveNext(cfg, m);
  }

  // A part whose header is refused: it has been announced, and the call ends.
  lemma HeaderIsRefused(cfg: Config, m: Machine, item: Item, rest: string)
    requires PlainHeader(item) && !cfg.acceptHeader(FileOf(item))
    requires m.state == 2 && m.file == NO_FILE && m.buf == HeaderBlock(item) + rest && m.buf != ""
    ensures var (m', ok) := Drive(cfg, m);
      !ok && !m'.valid && m'.parts == m.parts + [Part(FileOf(item), "")]
    ensures Regular(cfg, m)
  {
    hide FileOf, HeaderBlock, PlainHeader;
    HeaderLinesAreRead(cfg, m, item, rest);
    FindLine("", rest);
    assert "" + CRLF + rest == CRLF + rest;
    var m' := m.(file := FileOf(item), buf := CRLF + rest);
    HeadersUnfold(cfg, m');
    assert ShortLines(m'.file, m'.buf);
    hide Find, ShortLines;
    assert Step(cfg, m) == Return(m'.(parts := m.parts + [Part(FileOf(item), "")], valid := false), false);
  }

  // Under every cut of the body: the parts before the refused one arrive as a whole, the refused one is
  // announced, and the answer is that the body is not accepted.
  lemma RefusedHeader(cfg: Config, items: seq<Item>, k: nat, pieces: seq<string>)
    requires AcceptsContent(cfg) && BoundaryCharsValid(cfg.boundary) && ArePlain(cfg, items) && k < |items|
    requires (forall i :: 0 <= i < k ==> cfg.acceptHeader(FileOf(items[i]))) && !cfg.acceptHeader(FileOf(items[k]))
    requires Concat(pieces) == Serialized(items, cfg.boundary, true)
    ensures var (m, ok) := DriveAll(cfg, Initial(), pieces);
      !ok && !m.valid && m.parts == PartsOf(items[..k]) + [Part(FileOf(items[k]), "")]
  {
    hide Tail, PlainItem, DriveAll, Drive, Regular, FileOf, HeaderBlock, Serialized, Step, ShortLines;
    SerializedIsTail(items, cfg.boundary);
    var tail := Tail(items, cfg.boundary);
    var m := Feed(Initial(), Concat(pieces));
    assert m.buf == cfg.DashBoundaryCrlf() + tail;
    FirstBoundaryParses(cfg, m, tail);
    DriveNext(cfg, m);
    var m1 := Step(cfg, m).m;
    PrefixIsRead(cfg, m1, items, k);
    var m2 := Before(cfg, m1, items, k);
    var rest := ItemStarts(cfg, m2, items[k..]);
    PlainContent(items[k], cfg.boundary);
    HeaderIsRefused(cfg, m2.(file := NO_FILE, state := 2), items[k],
                    items[k].content + cfg.CrlfDashBoundary() + rest);
    SplittingIndependence(cfg, pieces);
    assert [] + PartsOf(items[..k]) == PartsOf(items[..k]);
  }

  lemma ContentIsRefused(cfg: Config, m: Machine, item: Item, rest: string)
    requires PlainItem(item, cfg.boundary) && BoundaryCharsValid(cfg.boundary)
    requires cfg.acceptHeader(FileOf(item)) && !cfg.acceptContent(item.content)
    requires m.state == 2 && m.file == NO_FILE && m.buf != ""
    requires m.buf == HeaderBlock(item) + (item.content + cfg.CrlfDashBoundary() + rest)
    ensures var (m', ok) := Drive(cfg, m); !ok && !m'.valid && m'.parts == m.parts + [PartOf(item)]
  {
    hide FileOf, HeaderBlock, PlainItem, Drive;
    PlainContent(item, cfg.boundary);
    var more := item.content + cfg.CrlfDashBoundary() + rest;
    HeaderBlockParses(cfg, m, item, more);
    DriveNext(cfg, m);
    RefusedInBody(cfg, Step(cfg, m).m, item.content, rest);
    DeliverLast(m.parts, FileOf(item), item.content);
  }

  lemma RefusedInBody(cfg: Config, m: Machine, content: string, rest: string)
    requires BoundaryCharsValid(cfg.boundary) && !cfg.acceptContent(content)
    requires Find(content, cfg.CrlfDashBoundary()) == |content|
    requires m.state == 3 && m.buf == content + cfg.CrlfDashBoundary() + rest
    ensures Drive(cfg, m) == (m.(parts := Deliver(m.parts, content), valid := false), false)
  {
    hide Find, Deliver;
    FindDelimiter(content, cfg.boundary, rest);
    assert m.buf[..|content|] == content;
  }

  // The same when the content of a part is refused, for a body that arrives in one piece.
  lemma RefusedContent(cfg: Config, items: seq<Item>, k: nat)
    requires BoundaryCharsValid(cfg.boundary) && ArePlain(cfg, items) && k < |items|
    requires forall i :: 0 <= i < k ==> AcceptsItem(cfg, items[i])
    requires cfg.acceptHeader(FileOf(items[k])) && !cfg.acceptContent(items[k].content)
    ensures var (m, ok) := Drive(cfg, Feed(Initial(), Serialized(items, cfg.boundary, true)));
      !ok && !m.valid && m.parts == PartsOf(items[..k + 1])
  {
    hide Tail, PlainItem, Drive, Regular, FileOf, HeaderBlock, Serialized, Step, Closes, ShortLines;
    SerializedIsTail(items, cfg.boundary);
    var tail := Tail(items, cfg.boundary);
    var m := Feed(Initial(), Serialized(items, cfg.boundary, true));
    assert m.buf == cfg.DashBoundaryCrlf() + tail;
    FirstBoundaryParses(cfg, m, tail);
    DriveNext(cfg, m);
    var m1 := Step(cfg, m).m;
    PrefixIsRead(cfg, m1, items, k);
    var m2 := Before(cfg, m1, items, k);
    var rest := ItemStarts(cfg, m2, items[k..]);
    ContentIsRefused(cfg, m2.(file := NO_FILE, state := 2), items[k], rest);
    PartsOfSnoc(items, k);
    assert [] + PartsOf(items[..k]) == PartsOf(items[..k]);
  }

  // The parts of plain items are the items.
  lemma PartIsItem(item: Item)
    requires PlainHeader(item)
    ensures IsItem(PartOf(item), item)
  {
    hide HeaderBlock, PlainHeader, FileOf, Headers, ShortLines, Find;
    var cfg := Config("", _ => true, _ => true);
    var m := Initial().(buf := HeaderBlock(item) + "");
    HeaderLinesAreRead(cfg, m, item, "");
  }
}
