/**
  Byte ranges of a request (sections 14.1.2 and 14.2 of RFC 9110): how they are checked and rewritten
  against the length of the content, and how overlapping ones are coalesced.
*/
module Ranges {

  const RANGE_MAX_COUNT := 1024

  // As parsed or rewritten; -1 stands for an absent position.
  datatype Range = Range(first: int, last: int)

  // ---- what a range asks for ----

  ghost predicate Requested(r: Range, n: nat, p: int) {
    0 <= p < n &&
    if r.first == -1 then r.last == -1 || n - r.last <= p
    else r.first <= p && (r.last == -1 || p <= r.last)
  }

  predicate Holds(r: Range, p: int) {
    r.first <= p <= r.last
  }

  ghost predicate Covered(ranges: seq<Range>, p: int) {
    exists r :: r in ranges && Holds(r, p)
  }

  predicate Inside(r: Range, n: nat) {
    0 <= r.first <= r.last < n
  }

  ghost predicate AllInside(ranges: seq<Range>, n: nat) {
    forall r :: r in ranges ==> Inside(r, n)
  }

  // ---- rewriting against the content length ----

  function Normal(r: Range, n: nat): Range {
    var whole := if r.first == -1 && r.last == -1 then Range(0, n) else r;
    var suffix := if whole.first == -1 then Range(n - whole.last, n - 1) else whole;
    if suffix.last == -1 || suffix.last >= n then suffix.(last := n - 1) else suffix
  }

  function Normals(ranges: seq<Range>, n: nat): (out: seq<Range>)
    ensures |out| == |ranges|
    ensures forall i :: 0 <= i < |ranges| ==> out[i] == Normal(ranges[i], n)
  {
    seq(|ranges|, i requires 0 <= i < |ranges| => Normal(ranges[i], n))
  }

  // Which ranges pass: unlike section 14.1.2 of RFC 9110, a suffix longer than the content does not.
  lemma InsideIff(r: Range, n: nat)
    ensures Inside(Normal(r, n), n) <==>
      n > 0 && if r.first == -1 then r.last == -1 || 1 <= r.last <= n
               else 0 <= r.first < n && (r.last == -1 || r.first <= r.last)
  {
  }

  lemma NormalIsRequested(r: Range, n: nat)
    requires Inside(Normal(r, n), n)
    ensures forall p :: Holds(Normal(r, n), p) <==> Requested(r, n, p)
    ensures Normal(Normal(r, n), n) == Normal(r, n)
  {
  }

  lemma LongSuffixIsRefused(r: Range, n: nat, p: int)
    requires r.first == -1 && r.last > n && 0 <= p < n
    ensures Requested(r, n, p) && !Inside(Normal(r, n), n)
  {
  }

  // ---- coalescing ----

  ghost predicate IsSorted(ranges: seq<Range>) {
    forall i, j :: 0 <= i < j < |ranges| ==> ranges[i].first <= ranges[j].first
  }

  function Last(ranges: seq<Range>): Range
    requires ranges != []
  {
    ranges[|ranges| - 1]
  }

  function Init(ranges: seq<Range>): seq<Range>
    requires ranges != []
  {
    ranges[..|ranges| - 1]
  }

  // The next range is merged into the last block, unless it lies apart from it or is identical to it.
  function Joined(out: seq<Range>, r: Range): seq<Range> {
    if out != [] && r.first <= Last(out).last + 1 && r != Last(out)
    then Init(out) + [Range(Last(out).first, if Last(out).last < r.last then r.last else Last(out).last)]
    else out + [r]
  }

  function Coalesced(ranges: seq<Range>): seq<Range> {
    if ranges == [] then [] else Joined(Coalesced(Init(ranges)), Last(ranges))
  }

  function Kept(ranges: seq<Range>, n: nat): seq<Range> {
    if ranges == [] then []
    else Kept(Init(ranges), n) + if Inside(Normal(Last(ranges), n), n) then [Normal(Last(ranges), n)] else []
  }

  ghost predicate IsSorting(ranges: seq<Range>, sorted: seq<Range>) {
    IsSorted(sorted) && multiset(sorted) == multiset(ranges)
  }

  // Coalescing promises: every block after another lies past a gap, or starts where that one starts and
  // is no shorter.
  ghost predicate IsApart(a: Range, b: Range) {
    a.last + 1 < b.first
  }

  ghost predicate InSteps(out: seq<Range>) {
    forall i :: 0 < i < |out| ==>
      IsApart(out[i - 1], out[i]) || (out[i - 1].first == out[i].first && out[i - 1].last <= out[i].last)
  }

  ghost predicate IsSeparated(out: seq<Range>) {
    forall i :: 0 < i < |out| ==> IsApart(out[i - 1], out[i])
  }

  // The last block reaches as far as any range so far, and its end is the end of one of them.  Where the
  // last range starts with it, the block is itself one of the ranges; ranges that start before it end
  // before it, with a gap.
  ghost predicate LastBlock(s: seq<Range>, block: Range)
    requires s != []
  {
    && block.first <= Last(s).first <= block.last
    && (forall q :: q in s ==> q.last <= block.last)
    && (exists q :: q in s && q.last == block.last)
    && (Last(s).first == block.first ==> block in s)
    && (forall q :: q in s && q.first < block.first ==> IsApart(q, block))
  }

  lemma Split(s: seq<Range>)
    requires s != []
    ensures s == Init(s) + [Last(s)]
    ensures forall q :: q in s <==> q in Init(s) || q == Last(s)
    ensures IsSorted(s) ==> IsSorted(Init(s)) && forall q :: q in s ==> q.first <= Last(s).first
  {
  }

  // The three ways on from a last block: the next range lies apart from it, is identical to it, or grows it.
  lemma LastBlockApart(s: seq<Range>, block: Range, n: nat)
    requires |s| > 1 && IsSorted(s) && AllInside(s, n) && LastBlock(Init(s), block) && IsApart(block, Last(s))
    ensures LastBlock(s, Last(s))
  {
    Split(s);
    assert Last(s) in s;
    hide AllInside, IsSorted, Init;
  }

  lemma LastBlockSame(s: seq<Range>, block: Range, n: nat)
    requires |s| > 1 && IsSorted(s) && AllInside(s, n) && LastBlock(Init(s), block) && Last(s) == block
    ensures LastBlock(s, block)
  {
    Split(s);
    assert Last(s) in s;
    hide AllInside, IsSorted, Init;
  }

  lemma LastBlockGrown(s: seq<Range>, block: Range, grown: Range, n: nat)
    requires |s| > 1 && IsSorted(s) && AllInside(s, n) && LastBlock(Init(s), block)
    requires Last(s) != block && !IsApart(block, Last(s))
    requires grown == Range(block.first, if block.last < Last(s).last then Last(s).last else block.last)
    ensures LastBlock(s, grown)
  {
    Split(s);
    var init, r := Init(s), Last(s);
    assert r in s && Last(init).first <= r.first;
    assert Inside(r, n);
    hide AllInside, IsSorted, Init;
    if grown.last == r.last {
      assert r.first == grown.first ==> grown == r;
    } else {
      assert grown == block;
      assert r.first == grown.first ==> Last(init).first == block.first && block in init;
      var q :| q in init && q.last == block.last;
      assert q in s;
    }
    forall q | q in s ensures q.last <= grown.last && (q.first < grown.first ==> IsApart(q, grown)) {
      assert q in init || q == r;
    }
  }

  lemma LastBlockStep(s: seq<Range>, block: Range, n: nat)
    requires |s| > 1 && IsSorted(s) && AllInside(s, n) && LastBlock(Init(s), block)
    ensures LastBlock(s, Last(Joined([block], Last(s))))
  {
    if IsApart(block, Last(s)) {
      LastBlockApart(s, block, n);
    } else if Last(s) == block {
      LastBlockSame(s, block, n);
    } else {
      LastBlockGrown(s, block, Last(Joined([block], Last(s))), n);
    }
    hide LastBlock, AllInside, IsSorted, Init;
  }

  lemma JoinedLast(out: seq<Range>, r: Range)
    requires out != []
    ensures Joined(out, r) != [] && Last(Joined(out, r)) == Last(Joined([Last(out)], r))
  {
    assert Last([Last(out)]) == Last(out);
  }

  lemma {:induction false} CoalescedLast(s: seq<Range>, n: nat)
    requires s != [] && IsSorted(s) && AllInside(s, n)
    ensures Coalesced(s) != [] && LastBlock(s, Last(Coalesced(s)))
  {
    Split(s);
    if |s| == 1 {
      assert Coalesced(Init(s)) == [];
      assert Coalesced(s) == [Last(s)];
      assert Last(s) in s;
    } else {
      CoalescedLast(Init(s), n);
      LastBlockStep(s, Last(Coalesced(Init(s))), n);
      JoinedLast(Coalesced(Init(s)), Last(s));
    }
  }

  lemma PushedCovers(out: seq<Range>, r: Range)
    ensures forall p :: Covered(out + [r], p) <==> Covered(out, p) || Holds(r, p)
  {
    forall p ensures Covered(out + [r], p) <==> Covered(out, p) || Holds(r, p) {
      if Covered(out, p) {
        var q :| q in out && Holds(q, p);
        assert q in out + [r];
      }
      if Holds(r, p) { assert r in out + [r]; }
    }
  }

  lemma JoinedCovers(out: seq<Range>, r: Range, n: nat)
    requires AllInside(out, n) && Inside(r, n) && (out != [] ==> Last(out).first <= r.first)
    ensures AllInside(Joined(out, r), n)
    ensures forall p :: Covered(Joined(out, r), p) <==> Covered(out, p) || Holds(r, p)
  {
    if out != [] && r.first <= Last(out).last + 1 && r != Last(out) {
      var block, grown := Last(out), Last(Joined(out, r));
      Split(out);
      assert block in out;
      assert forall p :: Holds(grown, p) <==> Holds(block, p) || Holds(r, p);
      PushedCovers(Init(out), grown);
      PushedCovers(Init(out), block);
    } else {
      PushedCovers(out, r);
    }
  }

  lemma JoinedSteps(out: seq<Range>, r: Range)
    requires InSteps(out) && (out != [] ==> Last(out).first <= r.first)
    ensures InSteps(Joined(out, r))
  {
    if out != [] { assert out == Init(out) + [Last(out)]; }
  }

  // Coalescing sorted ranges keeps every position and adds none, stays inside the content, and leaves
  // the blocks in steps.
  lemma {:induction false} CoalescedCovers(s: seq<Range>, n: nat)
    requires IsSorted(s) && AllInside(s, n)
    ensures AllInside(Coalesced(s), n) && InSteps(Coalesced(s))
    ensures forall p :: Covered(Coalesced(s), p) <==> Covered(s, p)
  {
    if s != [] {
      Split(s);
      CoalescedCovers(Init(s), n);
      if Init(s) != [] { CoalescedLast(Init(s), n); }
      assert Last(s) in s;
      JoinedCovers(Coalesced(Init(s)), Last(s), n);
      JoinedSteps(Coalesced(Init(s)), Last(s));
      forall p ensures Covered(s, p) <==> Covered(Init(s), p) || Holds(Last(s), p) {
        if Covered(Init(s), p) {
          var q :| q in Init(s) && Holds(q, p);
          assert q in s;
        }
      }
    }
  }

  // ---- when the blocks are separated by gaps ----

  // A range asked for twice that no range starting before it reaches, not even up to its doorstep.
  ghost predicate IsFreeDuplicate(ranges: multiset<Range>, r: Range) {
    ranges[r] >= 2 && forall q :: q in ranges && q.first < r.first ==> IsApart(q, r)
  }

  lemma PushedSame(s: seq<Range>, n: nat)
    requires |s| > 1 && IsSorted(s) && AllInside(s, n)
    requires LastBlock(Init(s), Last(s))
    ensures IsFreeDuplicate(multiset(s), Last(s))
  {
    Split(s);
    var r := Last(s);
    assert Last(Init(s)) in s;
    assert multiset(s) == multiset(Init(s)) + multiset{r};
    assert r in Init(s);
    forall q | q in multiset(s) && q.first < r.first ensures IsApart(q, r) {
      assert q in s;
    }
  }

  // Only pushing a range onto an identical block makes two blocks touch.
  lemma JoinedSeparated(out: seq<Range>, r: Range)
    requires IsSeparated(out) && !IsSeparated(Joined(out, r))
    ensures out != [] && Last(out) == r
  {
    if out != [] { assert out == Init(out) + [Last(out)]; }
  }

  lemma {:induction false} OverlapMeansDuplicate(s: seq<Range>, n: nat) returns (r: Range)
    requires IsSorted(s) && AllInside(s, n) && !IsSeparated(Coalesced(s))
    ensures IsFreeDuplicate(multiset(s), r)
  {
    Split(s);
    if IsSeparated(Coalesced(Init(s))) {
      r := Last(s);
      JoinedSeparated(Coalesced(Init(s)), r);
      CoalescedLast(Init(s), n);
      PushedSame(s, n);
    } else {
      r := OverlapMeansDuplicate(Init(s), n);
      MoreDuplicates(s, r);
    }
  }

  lemma MoreDuplicates(s: seq<Range>, r: Range)
    requires s != [] && IsSorted(s) && IsFreeDuplicate(multiset(Init(s)), r)
    ensures IsFreeDuplicate(multiset(s), r)
  {
    Split(s);
    assert multiset(s) == multiset(Init(s)) + multiset{Last(s)};
    assert r in multiset(Init(s));
    assert r in Init(s);
    forall q | q in multiset(s) && q.first < r.first ensures IsApart(q, r) {
      assert q in s && q in multiset(Init(s));
    }
  }

  // Sorting by first and then last position, the order that keeps duplicates together.
  predicate Before(a: Range, b: Range) {
    a.first < b.first || (a.first == b.first && a.last <= b.last)
  }

  ghost predicate IsOrdered(s: seq<Range>) {
    forall i, j :: 0 <= i < j < |s| ==> Before(s[i], s[j])
  }

  function Placed(s: seq<Range>, r: Range): seq<Range> {
    if s == [] || Before(Last(s), r) then s + [r] else Placed(Init(s), r) + [Last(s)]
  }

  function Ordered(s: seq<Range>): seq<Range> {
    if s == [] then [] else Placed(Ordered(Init(s)), Last(s))
  }

  lemma {:induction false} PlacedIsOrdered(s: seq<Range>, r: Range)
    requires IsOrdered(s)
    ensures IsOrdered(Placed(s, r))
  {
    PlacedMembers(s, r);
    if s != [] && !Before(Last(s), r) {
      PlacedIsOrdered(Init(s), r);
      PlacedMembers(Init(s), r);
      forall q | q in Placed(Init(s), r) ensures Before(q, Last(s)) {
        assert q == r || q in Init(s);
      }
    }
  }

  lemma {:induction false} PlacedMembers(s: seq<Range>, r: Range)
    ensures multiset(Placed(s, r)) == multiset(s) + multiset{r}
    ensures forall q :: q in Placed(s, r) <==> q == r || q in s
  {
    if s != [] && !Before(Last(s), r) {
      PlacedMembers(Init(s), r);
      assert s == Init(s) + [Last(s)];
    }
  }

  lemma {:induction false} OrderedIsSorting(s: seq<Range>)
    ensures IsOrdered(Ordered(s)) && IsSorting(s, Ordered(s))
  {
    if s != [] {
      OrderedIsSorting(Init(s));
      PlacedIsOrdered(Ordered(Init(s)), Last(s));
      PlacedMembers(Ordered(Init(s)), Last(s));
      Split(s);
      assert multiset(s) == multiset(Init(s)) + multiset{Last(s)};
    }
  }

  // In that order an unreached range becomes a block of its own.
  lemma {:induction false} UnreachedIsBlock(s: seq<Range>, n: nat)
    requires s != [] && IsOrdered(s) && AllInside(s, n)
    requires forall q :: q in s && q.first < Last(s).first ==> IsApart(q, Last(s))
    ensures Coalesced(s) != [] && Last(Coalesced(s)) == Last(s)
  {
    hide Coalesced, LastBlock, IsOrdered, IsSorted;
    OrderedSplit(s);
    assert Last(s) in s && Inside(Last(s), n);
    CoalescedMore(Init(s), Last(s));
    if |s| > 1 {
      var r, out := Last(Init(s)), Coalesced(Init(s));
      assert r in s;
      CoalescedLast(Init(s), n);
      if r.first == Last(s).first {
        UnreachedIsBlock(Init(s), n);
      } else {
        BlockEnd(Init(s), Last(out));
        var q :| q in Init(s) && q.last == Last(out).last;
        assert q in s && q.first <= r.first;
        assert IsApart(q, Last(s));
      }
    } else {
      assert Init(s) == [];
    }
  }

  lemma OrderedSplit(s: seq<Range>)
    requires s != [] && IsOrdered(s)
    ensures s == Init(s) + [Last(s)] && IsSorted(s) && IsOrdered(Init(s)) && IsSorted(Init(s))
    ensures forall q :: q in s <==> q in Init(s) || q == Last(s)
    ensures Init(s) != [] ==> Before(Last(Init(s)), Last(s)) && forall q :: q in Init(s) ==> Before(q, Last(Init(s)))
  {
  }

  lemma BlockEnd(s: seq<Range>, block: Range)
    requires s != [] && LastBlock(s, block)
    ensures exists q :: q in s && q.last == block.last
  {
  }

  lemma {:induction false} OverlapStays(s: seq<Range>, i: nat)
    requires i <= |s| && !IsSeparated(Coalesced(s[..i]))
    ensures !IsSeparated(Coalesced(s))
  {
    if i < |s| {
      assert Init(s)[..i] == s[..i];
      OverlapStays(Init(s), i);
      var out := Coalesced(Init(s));
      var k :| 0 < k < |out| && !IsApart(out[k - 1], out[k]);
      var out' := Joined(out, Last(s));
      assert out'[k - 1] == out[k - 1] && out'[k].first == out[k].first;
      assert !IsApart(out'[k - 1], out'[k]);
    } else {
      assert s[..i] == s;
    }
  }

  lemma {:induction false} TwiceIn(s: seq<Range>, r: Range) returns (i: nat)
    requires IsOrdered(s) && multiset(s)[r] >= 2
    ensures 0 < i < |s| && s[i - 1] == r && s[i] == r
  {
    var init := Init(s);
    assert s == init + [Last(s)];
    assert multiset(s) == multiset(init) + multiset{Last(s)};
    if multiset(init)[r] >= 2 {
      i := TwiceIn(init, r);
    } else {
      assert r in multiset(init);
      assert r in init && Last(s) == r;
      var j :| 0 <= j < |init| && init[j] == r;
      i := |s| - 1;
      assert s[j] == r && s[i] == r;
      assert Before(s[i - 1], s[i]) && (j == i - 1 || Before(s[j], s[i - 1]));
    }
  }

  lemma PushedTwice(out: seq<Range>, r: Range)
    requires out != [] && Last(out) == r && r.first <= r.last
    ensures !IsSeparated(Joined(out, r))
  {
    var out' := Joined(out, r);
    assert out' == out + [r];
    var k := |out|;
    assert out'[k - 1] == r && out'[k] == r;
    assert !IsApart(out'[k - 1], out'[k]);
  }

  lemma DuplicateMeansOverlap(s: seq<Range>, n: nat, r: Range)
    requires IsOrdered(s) && AllInside(s, n) && IsFreeDuplicate(multiset(s), r)
    ensures !IsSeparated(Coalesced(s))
  {
    hide Coalesced, Joined, IsSeparated;
    var i := TwiceIn(s, r);
    assert r in s && Inside(r, n);
    assert s[..i + 1] == s[..i] + [r];
    UnreachedPrefix(s, i, n);
    hide IsOrdered, AllInside, IsFreeDuplicate;
    PushedTwice(Coalesced(s[..i]), r);
    CoalescedMore(s[..i], r);
    OverlapStays(s, i + 1);
  }

  lemma UnreachedPrefix(s: seq<Range>, i: nat, n: nat)
    requires IsOrdered(s) && AllInside(s, n) && 0 < i < |s|
    requires IsFreeDuplicate(multiset(s), s[i - 1])
    ensures Coalesced(s[..i]) != [] && Last(Coalesced(s[..i])) == s[i - 1]
  {
    forall q | q in s[..i] ensures q in multiset(s) && Inside(q, n) {
      assert q in s;
    }
    UnreachedIsBlock(s[..i], n);
  }

  // The sort may leave ranges with the same start in any order.  Whatever it does, the blocks are
  // separated by gaps exactly when no range is asked for twice without an earlier one reaching it.
  lemma GapsIff(ranges: seq<Range>, n: nat)
    requires AllInside(ranges, n)
    ensures (forall s :: IsSorting(ranges, s) ==> IsSeparated(Coalesced(s)))
       <==> !exists r :: IsFreeDuplicate(multiset(ranges), r)
  {
    if exists r :: IsFreeDuplicate(multiset(ranges), r) {
      var r :| IsFreeDuplicate(multiset(ranges), r);
      OrderedIsSorting(ranges);
      SortingIsInside(ranges, Ordered(ranges), n);
      DuplicateMeansOverlap(Ordered(ranges), n, r);
    } else {
      forall s | IsSorting(ranges, s) ensures IsSeparated(Coalesced(s)) {
        SortingIsInside(ranges, s, n);
        if !IsSeparated(Coalesced(s)) {
          var r := OverlapMeansDuplicate(s, n);
        }
      }
    }
  }

  lemma SortingIsInside(ranges: seq<Range>, s: seq<Range>, n: nat)
    requires IsSorting(ranges, s) && AllInside(ranges, n)
    ensures AllInside(s, n)
    ensures forall q :: q in s <==> q in ranges
  {
    forall q ensures q in s <==> q in ranges {
      assert q in multiset(s) <==> q in multiset(ranges);
    }
  }

  // In particular for ranges that are all different.
  lemma DistinctRangesAreSeparated(ranges: seq<Range>, s: seq<Range>, n: nat)
    requires AllInside(ranges, n) && IsSorting(ranges, s)
    requires forall i, j :: 0 <= i < j < |ranges| ==> ranges[i] != ranges[j]
    ensures IsSeparated(Coalesced(s))
  {
    GapsIff(ranges, n);
    forall r ensures multiset(ranges)[r] <= 1 { OnceIn(ranges, r); }
  }

  lemma {:induction false} OnceIn(s: seq<Range>, r: Range)
    requires forall i, j :: 0 <= i < j < |s| ==> s[i] != s[j]
    ensures multiset(s)[r] <= 1
  {
    if s != [] {
      Split(s);
      OnceIn(Init(s), r);
      assert multiset(s) == multiset(Init(s)) + multiset{Last(s)};
    }
  }

  // Three ranges whose answer depends on the order the sort leaves them in.
  lemma AnswerDependsOnSort(a: Range, b: Range)
    requires a.first == b.first <= a.last < b.last
    ensures IsSorting([a, b, a], [a, b, a]) && Coalesced([a, b, a]) == [b]
    ensures IsSorting([a, b, a], [a, a, b]) && Coalesced([a, a, b]) == [a, b]
  {
    hide Coalesced, Joined;
    OneBlock(a);
    TwoBlocks(a, b);
    TwoBlocks(a, a);
    CoalescedMore([a], b);
    assert [a] + [b] == [a, b];
    CoalescedMore([a, b], a);
    assert [a, b] + [a] == [a, b, a];
    CoalescedMore([a], a);
    assert [a] + [a] == [a, a];
    CoalescedMore([a, a], b);
    assert [a, a] + [b] == [a, a, b];
    TwoBlocks(b, a);
    JoinedSame(a, b);
  }

  lemma TwoBlocks(a: Range, b: Range)
    requires a.first == b.first <= a.last && b.first <= b.last
    ensures Joined([a], b) == if a == b then [a, b] else [if a.last < b.last then b else a]
  {
    assert Init([a]) == [];
  }

  lemma JoinedSame(a: Range, b: Range)
    requires a.first == b.first <= a.last < b.last
    ensures Joined([a, a], b) == [a, b]
  {
    assert Init([a, a]) == [a];
  }

  lemma OneBlock(a: Range)
    ensures Coalesced([a]) == [a]
  {
    assert Init([a]) == [];
  }

  lemma CoalescedMore(s: seq<Range>, r: Range)
    ensures Coalesced(s + [r]) == Joined(Coalesced(s), r)
    ensures Coalesced([]) == []
  {
    assert Init(s + [r]) == s;
  }

  // ---- the program ----

  // The first lines of both loops below.
  method Rewrite(r: Range, n: nat) returns (first: int, last: int)
    ensures Range(first, last) == Normal(r, n)
  {
    first, last := r.first, r.last;
    if first == -1 && last == -1 {
      first, last := 0, n;
    }
    if first == -1 {
      first, last := n - last, n - 1;
    }
    if last == -1 || last >= n {
      last := n - 1;
    }
  }

  lemma Rewritten(ranges: seq<Range>, normals: seq<Range>, i: nat, out: seq<Range>)
    requires i < |ranges| == |normals| && out == normals[..i] + ranges[i..]
    ensures out[i := normals[i]] == normals[..i + 1] + ranges[i + 1..]
    ensures normals[..i + 1] == normals[..i] + [normals[i]]
  {
  }

  // std::sort on the start position: which of the sortings it returns is the library's choice.
  method Sort(ranges: seq<Range>) returns (sorted: seq<Range>)
    ensures IsSorting(ranges, sorted)
  {
    OrderedIsSorting(ranges);
    sorted := Ordered(ranges);
  }

  lemma {:induction false} KeptAll(ranges: seq<Range>, n: nat)
    requires AllInside(ranges, n)
    ensures Kept(ranges, n) == ranges
  {
    if ranges != [] {
      Split(ranges);
      assert Last(ranges) in ranges;
      KeptAll(Init(ranges), n);
    }
  }

  lemma KeptMore(s: seq<Range>, i: nat, n: nat)
    requires i < |s|
    ensures Kept(s[..i + 1], n) ==
      if Inside(Normal(s[i], n), n) then Kept(s[..i], n) + [Normal(s[i], n)] else Kept(s[..i], n)
  {
    assert Init(s[..i + 1]) == s[..i] && Last(s[..i + 1]) == s[i];
  }

  method CoalesceRanges(ranges: seq<Range>, n: nat) returns (out: seq<Range>)
    ensures |ranges| <= 1 ==> out == ranges
    ensures |ranges| > 1 ==> exists s :: IsSorting(ranges, s) && out == Coalesced(Kept(s, n))
  {
    hide IsSorting, Kept, Coalesced;
    if |ranges| <= 1 { return ranges; }
    var sorted := Sort(ranges);
    out := [];
    NothingKept(sorted, n);
    for i := 0 to |sorted|
      invariant out == Coalesced(Kept(sorted[..i], n))
    {
      KeptMore(sorted, i, n);
      CoalescedMore(Kept(sorted[..i], n), Normal(sorted[i], n));
      var first, last := Rewrite(sorted[i], n);
      if !(0 <= first <= last < n) {
        continue;
      }
      if out != [] {
        var prev := out[|out| - 1];
        if first <= prev.last + 1 && !(first == prev.first && last == prev.last) {
          out := out[..|out| - 1] + [Range(prev.first, if prev.last < last then last else prev.last)];
          continue;
        }
      }
      out := out + [Range(first, last)];
    }
    assert sorted[..|sorted|] == sorted;
  }

  lemma NothingKept(s: seq<Range>, n: nat)
    ensures Coalesced(Kept(s[..0], n)) == []
  {
  }

  // ---- acceptance ----

  predicate Overlap(a: Range, b: Range) {
    !(a.last < b.first || a.first > b.last)
  }

  // How many ranges overlap one that was named before them.
  function Overlaps(ranges: seq<Range>): nat {
    if ranges == [] then 0
    else Overlaps(Init(ranges)) + if OverlapsAny(Init(ranges), Last(ranges)) then 1 else 0
  }

  predicate OverlapsAny(ranges: seq<Range>, r: Range) {
    exists i :: 0 <= i < |ranges| && Overlap(r, ranges[i])
  }

  predicate Applies(ranges: seq<Range>, status: int) {
    ranges != [] && 200 <= status < 300
  }

  ghost predicate IsAcceptable(ranges: seq<Range>, n: nat) {
    && |ranges| <= RANGE_MAX_COUNT
    && AllInside(Normals(ranges, n), n)
    && Overlaps(Normals(ranges, n)) <= 2
  }

  // What the response is built from: blocks inside the content that hold exactly the requested positions.
  ghost predicate Answers(out: seq<Range>, ranges: seq<Range>, n: nat) {
    && AllInside(out, n) && InSteps(out)
    && (forall p :: Covered(out, p) <==> exists r :: r in ranges && Requested(r, n, p))
  }

  // Range i shares a position with one named before it.
  ghost predicate SharesEarlier(ranges: seq<Range>, i: nat)
    requires i < |ranges|
  {
    exists j: nat, p: int :: j < i && Holds(ranges[i], p) && Holds(ranges[j], p)
  }

  ghost function Sharing(ranges: seq<Range>): set<nat> {
    set i: nat | i < |ranges| && SharesEarlier(ranges, i)
  }

  lemma OverlapsAnyIff(ranges: seq<Range>, n: nat)
    requires ranges != [] && AllInside(ranges, n)
    ensures OverlapsAny(Init(ranges), Last(ranges)) <==> SharesEarlier(ranges, |ranges| - 1)
  {
    var r := Last(ranges);
    assert r in ranges;
    forall j: nat | j < |ranges| - 1
      ensures Overlap(r, Init(ranges)[j]) <==> exists p: int :: Holds(r, p) && Holds(ranges[j], p)
    {
      var s := ranges[j];
      assert s in ranges && s == Init(ranges)[j];
      var p := if r.first < s.first then s.first else r.first;
      if Overlap(r, s) { assert Holds(r, p) && Holds(s, p); }
    }
  }

  lemma SharingInInit(ranges: seq<Range>, i: nat)
    requires i < |ranges| - 1
    ensures SharesEarlier(Init(ranges), i) <==> SharesEarlier(ranges, i)
  {
    var init := Init(ranges);
    assert init[i] == ranges[i] && forall j: nat :: j < i ==> init[j] == ranges[j];
  }

  lemma SharingGrows(ranges: seq<Range>)
    requires ranges != []
    ensures var last := |ranges| - 1;
      && Sharing(ranges) == Sharing(Init(ranges)) + (if SharesEarlier(ranges, last) then {last} else {})
      && last !in Sharing(Init(ranges))
  {
    hide SharesEarlier;
    forall i: nat | i < |ranges| - 1 ensures SharesEarlier(Init(ranges), i) <==> SharesEarlier(ranges, i) {
      SharingInInit(ranges, i);
    }
  }

  // The ranges that count as overlapping are those that share a position with an earlier one.
  lemma {:induction false} OverlapsCounts(ranges: seq<Range>, n: nat)
    requires AllInside(ranges, n)
    ensures Overlaps(ranges) == |Sharing(ranges)|
  {
    hide SharesEarlier, OverlapsAny;
    if ranges == [] {
      assert Sharing(ranges) == {};
    } else {
      assert forall r :: r in Init(ranges) ==> r in ranges;
      OverlapsCounts(Init(ranges), n);
      OverlapsAnyIff(ranges, n);
      SharingGrows(ranges);
    }
  }

  lemma {:induction false} OverlapsGrow(ranges: seq<Range>, i: nat)
    requires i <= |ranges|
    ensures Overlaps(ranges[..i]) <= Overlaps(ranges)
  {
    if i < |ranges| {
      assert Init(ranges)[..i] == ranges[..i];
      OverlapsGrow(Init(ranges), i);
    } else {
      assert ranges[..i] == ranges;
    }
  }

  lemma NormalsCover(ranges: seq<Range>, n: nat)
    requires AllInside(Normals(ranges, n), n)
    ensures forall p :: Covered(Normals(ranges, n), p) <==> exists r :: r in ranges && Requested(r, n, p)
  {
    var normals := Normals(ranges, n);
    forall i | 0 <= i < |ranges| ensures forall p :: Holds(normals[i], p) <==> Requested(ranges[i], n, p) {
      assert normals[i] in normals;
      NormalIsRequested(ranges[i], n);
    }
    forall p ensures Covered(normals, p) <==> exists r :: r in ranges && Requested(r, n, p) {
      if Covered(normals, p) {
        var i :| 0 <= i < |normals| && Holds(normals[i], p);
        assert ranges[i] in ranges;
      }
      if exists r :: r in ranges && Requested(r, n, p) {
        var i :| 0 <= i < |ranges| && Requested(ranges[i], n, p);
        assert normals[i] in normals && Holds(normals[i], p);
      }
    }
  }

  lemma CoalescedAnswers(ranges: seq<Range>, s: seq<Range>, n: nat)
    requires AllInside(Normals(ranges, n), n) && IsSorting(Normals(ranges, n), s)
    ensures Kept(s, n) == s && Answers(Coalesced(s), ranges, n)
  {
    SortingIsInside(Normals(ranges, n), s, n);
    KeptAll(s, n);
    CoalescedCovers(s, n);
    NormalsCover(ranges, n);
    forall p ensures Covered(s, p) <==> Covered(Normals(ranges, n), p) {
    }
  }

  lemma OverlapsMore(s: seq<Range>, r: Range)
    ensures Overlaps(s + [r]) == Overlaps(s) + if OverlapsAny(s, r) then 1 else 0
    ensures Overlaps([]) == 0
  {
    assert Init(s + [r]) == s;
  }

  method OverlapsProcessed(processed: seq<Range>, r: Range) returns (found: bool)
    ensures found <==> OverlapsAny(processed, r)
  {
    for i := 0 to |processed|
      invariant forall k :: 0 <= k < i ==> !Overlap(r, processed[k])
    {
      if !(r.last < processed[i].first || r.first > processed[i].last) { return true; }
    }
    return false;
  }

  lemma RefusedAt(ranges: seq<Range>, i: nat, n: nat)
    requires i < |ranges|
    requires !Inside(Normal(ranges[i], n), n) || Overlaps(Normals(ranges, n)[..i + 1]) > 2
    ensures !IsAcceptable(ranges, n)
  {
    assert Normals(ranges, n)[i] in Normals(ranges, n);
    OverlapsGrow(Normals(ranges, n), i + 1);
  }

  lemma AcceptableMeans(ranges: seq<Range>, n: nat)
    ensures IsAcceptable(ranges, n) <==>
      |ranges| <= RANGE_MAX_COUNT && AllInside(Normals(ranges, n), n) && Overlaps(Normals(ranges, n)) <= 2
    ensures AllInside([], n)
  {
  }

  lemma MoreInside(s: seq<Range>, r: Range, n: nat)
    requires AllInside(s, n) && Inside(r, n)
    ensures AllInside(s + [r], n)
  {
  }

  // On refusal the ranges up to the offending one have been rewritten.
  ghost predicate IsPartlyRewritten(ranges: seq<Range>, out: seq<Range>, n: nat) {
    exists k :: 0 <= k <= |ranges| && out == Normals(ranges, n)[..k] + ranges[k..]
  }

  lemma PartlyRewritten(ranges: seq<Range>, k: nat, out: seq<Range>, n: nat)
    requires k <= |ranges| && out == Normals(ranges, n)[..k] + ranges[k..]
    ensures IsPartlyRewritten(ranges, out, n)
  {
  }

  method CheckRanges(ranges: seq<Range>, n: nat) returns (error: bool, out: seq<Range>)
    ensures error <==> !IsAcceptable(ranges, n)
    ensures !error ==> out == Normals(ranges, n)
    ensures IsPartlyRewritten(ranges, out, n)
  {
    hide OverlapsAny, Overlaps, AllInside, IsAcceptable, Normal, IsPartlyRewritten;
    out := ranges;
    ghost var normals := Normals(ranges, n);
    AcceptableMeans(ranges, n);
    if |ranges| > RANGE_MAX_COUNT {
      PartlyRewritten(ranges, 0, out, n);
      return true, out;
    }
    var processed := [];
    var overlapping := 0;
    OverlapsMore([], Range(0, 0));
    for i := 0 to |ranges|
      invariant processed == normals[..i] && out == normals[..i] + ranges[i..]
      invariant AllInside(processed, n)
      invariant overlapping == Overlaps(processed) <= 2
    {
      var first, last := Rewrite(out[i], n);
      Rewritten(ranges, normals, i, out);
      out := out[i := Range(first, last)];
      PartlyRewritten(ranges, i + 1, out, n);
      if !(0 <= first <= last <= n - 1) {
        RefusedAt(ranges, i, n);
        return true, out;
      }
      var found := OverlapsProcessed(processed, Range(first, last));
      OverlapsMore(processed, Range(first, last));
      if found {
        overlapping := overlapping + 1;
        if overlapping > 2 {
          RefusedAt(ranges, i, n);
          return true, out;
        }
      }
      MoreInside(processed, Range(first, last), n);
      processed := processed + [Range(first, last)];
    }
    assert normals[..|ranges|] == normals && out == normals;
    PartlyRewritten(ranges, |ranges|, out, n);
    return false, out;
  }

  // The status and the two lengths are the response's.
  method RangeError(ranges: seq<Range>, status: int, contentLength: nat, bodySize: nat)
    returns (error: bool, out: seq<Range>)
    ensures !Applies(ranges, status) ==> !error && out == ranges
    ensures var n := if contentLength != 0 then contentLength else bodySize;
      Applies(ranges, status) ==>
        && (error <==> !IsAcceptable(ranges, n))
        && (error ==> IsPartlyRewritten(ranges, out, n))
        && (!error ==> Answers(out, ranges, n))
        && (!error && (forall r :: !IsFreeDuplicate(multiset(Normals(ranges, n)), r)) ==> IsSeparated(out))
  {
    hide Answers, InSteps, IsSeparated, IsFreeDuplicate, IsSorting, Kept, Coalesced, Overlaps;
    if ranges == [] || !(200 <= status < 300) { return false, ranges; }
    var n := if contentLength != 0 then contentLength else bodySize;
    error, out := CheckRanges(ranges, n);
    if error { return true, out; }
    if |ranges| > 1 {
      out := CoalesceRanges(out, n);
      ghost var s :| IsSorting(Normals(ranges, n), s) && out == Coalesced(Kept(s, n));
      CoalescedAnswers(ranges, s, n);
      GapsIff(Normals(ranges, n), n);
    } else {
      OneRangeAnswers(ranges, n);
      out := CoalesceRanges(out, n);
    }
    return false, out;
  }

  lemma OneRangeAnswers(ranges: seq<Range>, n: nat)
    requires |ranges| == 1 && AllInside(Normals(ranges, n), n)
    ensures Answers(Normals(ranges, n), ranges, n) && IsSeparated(Normals(ranges, n))
  {
    NormalsCover(ranges, n);
  }
}
