/** The block-read planner: points of one register type, sorted by address, are merged
    greedily into block reads bounded by a gap limit and a span limit. */
module BlockPlanner {
  import opened Options
  import opened ModbusTypes

  // A point as the planner sees it: which point, and which address range it occupies.
  datatype Member = Member(registerType: RegisterType, index: nat, address: nat, count: nat) {
    function End(): nat { address + count }
  }

  datatype BlockPoint = BlockPoint(pointIndex: nat, offset: nat, regCount: nat)

  datatype Block = Block(registerType: RegisterType, startAddress: nat, count: nat, points: seq<BlockPoint>)

  function MemberOf(points: seq<PointConfig>, i: nat): Member
    requires i < |points|
  {
    var m := points[i].mapping;
    Member(m.registerType, i, m.address, UnitsOf(m))
  }

  function Members(points: seq<PointConfig>): seq<Member> {
    seq(|points|, i requires 0 <= i < |points| => MemberOf(points, i))
  }

  // The members whose register type is in `ts`, in their original order.
  function OfTypes(ms: seq<Member>, ts: set<RegisterType>): seq<Member> {
    if ms == [] then []
    else
      var rest := OfTypes(ms[..|ms| - 1], ts);
      var m := ms[|ms| - 1];
      if m.registerType in ts then rest + [m] else rest
  }

  // ----- sorting by address -----

  // Stable: a later point goes behind every point with the same address.
  function InsertByAddress(s: seq<Member>, m: Member): seq<Member> {
    if s == [] || s[|s| - 1].address <= m.address then s + [m]
    else InsertByAddress(s[..|s| - 1], m) + [s[|s| - 1]]
  }

  function SortByAddress(s: seq<Member>): seq<Member> {
    if s == [] then [] else InsertByAddress(SortByAddress(s[..|s| - 1]), s[|s| - 1])
  }

  ghost predicate Sorted(s: seq<Member>) {
    forall i, j | 0 <= i < j < |s| :: s[i].address <= s[j].address
  }

  lemma {:induction false} InsertPermutes(s: seq<Member>, m: Member)
    ensures multiset(InsertByAddress(s, m)) == multiset(s) + multiset{m}
  {
    if s != [] && s[|s| - 1].address > m.address {
      var front, last := s[..|s| - 1], s[|s| - 1];
      InsertPermutes(front, m);
      assert s == front + [last];
      assert multiset(s) == multiset(front) + multiset{last};
    }
  }

  lemma {:induction false} InsertSorts(s: seq<Member>, m: Member)
    requires Sorted(s)
    ensures Sorted(InsertByAddress(s, m))
  {
    if s != [] && s[|s| - 1].address > m.address {
      var front, last := s[..|s| - 1], s[|s| - 1];
      InsertSorts(front, m);
      InsertPermutes(front, m);
      var r := InsertByAddress(front, m);
      forall j | 0 <= j < |r| ensures r[j].address <= last.address {
        assert r[j] in multiset(r);
        assert r[j] == m || r[j] in front;
      }
    }
  }

  lemma {:induction false} SortSorts(s: seq<Member>)
    ensures Sorted(SortByAddress(s))
    ensures multiset(SortByAddress(s)) == multiset(s)
  {
    hide InsertByAddress;
    if s != [] {
      SortSorts(s[..|s| - 1]);
      InsertSorts(SortByAddress(s[..|s| - 1]), s[|s| - 1]);
      InsertPermutes(SortByAddress(s[..|s| - 1]), s[|s| - 1]);
      assert s == s[..|s| - 1] + [s[|s| - 1]];
    }
  }

  // Members with the same address keep their order of configuration.
  ghost predicate Stable(s: seq<Member>) {
    forall i, j | 0 <= i < j < |s| && s[i].address == s[j].address :: s[i].index < s[j].index
  }

  lemma StableWithLast(r: seq<Member>, last: Member)
    requires Stable(r) && forall x <- r :: x.address == last.address ==> x.index < last.index
    ensures Stable(r + [last])
  {
    forall i | 0 <= i < |r| && r[i].address == last.address ensures r[i].index < last.index {
      assert r[i] in r;
    }
  }

  lemma {:induction false} InsertKeepsStable(s: seq<Member>, m: Member)
    requires Sorted(s) && Stable(s) && forall x <- s :: x.index < m.index
    ensures Stable(InsertByAddress(s, m))
  {
    if s == [] || s[|s| - 1].address <= m.address {
      StableWithLast(s, m);
    } else {
      var front, last := s[..|s| - 1], s[|s| - 1];
      InsertKeepsStable(front, m);
      InsertPermutes(front, m);
      var r := InsertByAddress(front, m);
      hide InsertByAddress;
      forall x <- r | x.address == last.address ensures x.index < last.index {
        assert x in multiset(r);
        assert x in front;
      }
      StableWithLast(r, last);
    }
  }

  lemma {:induction false} SortIsStable(s: seq<Member>)
    requires forall i, j | 0 <= i < j < |s| :: s[i].index < s[j].index
    ensures Stable(SortByAddress(s))
  {
    hide InsertByAddress;
    if s != [] {
      var front, m := s[..|s| - 1], s[|s| - 1];
      SortIsStable(front);
      SortSorts(front);
      forall x <- SortByAddress(front) ensures x.index < m.index {
        assert x in multiset(SortByAddress(front));
        assert x in front;
      }
      InsertKeepsStable(SortByAddress(front), m);
    }
  }

  // ----- greedy merging -----

  function SaturatingSub(a: nat, b: nat): nat {
    if a < b then 0 else a - b
  }

  function Open(m: Member): Block {
    Block(m.registerType, m.address, m.count, [BlockPoint(m.index, 0, m.count)])
  }

  predicate Fits(b: Block, m: Member) {
    var gap := SaturatingSub(m.address, b.startAddress + b.count);
    var newCount := SaturatingSub(m.End(), b.startAddress);
    gap <= MAX_BLOCK_GAP && newCount <= MaxBlock(m.registerType)
  }

  function Extend(b: Block, m: Member): Block
    requires b.startAddress <= m.address
  {
    b.(count := SaturatingSub(m.End(), b.startAddress),
       points := b.points + [BlockPoint(m.index, m.address - b.startAddress, m.count)])
  }

  // The blocks, the open one last, after the first `n` members went through the loop.
  function Merge(ms: seq<Member>, n: nat): (bs: seq<Block>)
    requires Sorted(ms) && n <= |ms|
    ensures (bs == []) <==> (n == 0)
    ensures n != 0 ==> bs[|bs| - 1].startAddress <= ms[n - 1].address
  {
    if n == 0 then []
    else
      var bs := Merge(ms, n - 1);
      var m := ms[n - 1];
      if bs != [] && Fits(bs[|bs| - 1], m)
      then bs[..|bs| - 1] + [Extend(bs[|bs| - 1], m)]
      else bs + [Open(m)]
  }

  // ----- runs: the same partition, read off the sorted members -----

  // Does member `k` join the run that member `k - 1` belongs to?
  predicate Joins(ms: seq<Member>, k: nat)
    requires 0 < k < |ms|
    decreases k, 0
  {
    && ms[k].address <= ms[k - 1].End() + MAX_BLOCK_GAP
    && ms[k].End() - ms[RunStart(ms, k - 1)].address <= MaxBlock(ms[k].registerType)
  }

  // The first member of the run that member `k` belongs to.
  function RunStart(ms: seq<Member>, k: nat): (a: nat)
    requires k < |ms|
    ensures a <= k
    decreases k, 1
  {
    if k > 0 && Joins(ms, k) then RunStart(ms, k - 1) else k
  }

  function RunBlock(ms: seq<Member>, a: nat, n: nat): Block
    requires a < n <= |ms| && Sorted(ms)
  {
    var start := ms[a].address;
    Block(ms[a].registerType, start, ms[n - 1].End() - start,
          seq(n - a, i requires 0 <= i < n - a =>
            assert start <= ms[a + i].address;
            BlockPoint(ms[a + i].index, ms[a + i].address - start, ms[a + i].count)))
  }

  ghost predicate OneType(ms: seq<Member>, t: RegisterType) {
    forall i | 0 <= i < |ms| :: ms[i].registerType == t
  }

  // Everything from a run's start up to `k` belongs to that run.
  lemma {:induction false} RunIsContiguous(ms: seq<Member>, i: nat, k: nat)
    requires i <= k < |ms| && RunStart(ms, k) <= i
    ensures RunStart(ms, i) == RunStart(ms, k)
  {
    if i < k {
      RunIsContiguous(ms, i, k - 1);
    }
  }

  lemma {:induction false} RunStartMonotone(ms: seq<Member>, i: nat, k: nat)
    requires i <= k < |ms|
    ensures RunStart(ms, i) <= RunStart(ms, k)
  {
    if RunStart(ms, k) <= i {
      RunIsContiguous(ms, i, k);
    }
  }

  lemma RunBlockGrows(ms: seq<Member>, a: nat, n: nat)
    requires Sorted(ms) && a < n < |ms|
    ensures Extend(RunBlock(ms, a, n), ms[n]) == RunBlock(ms, a, n + 1)
    ensures RunStart(ms, n - 1) == a ==> (Fits(RunBlock(ms, a, n), ms[n]) <==> Joins(ms, n))
  {
  }

  lemma OpenIsRunBlock(ms: seq<Member>, k: nat)
    requires Sorted(ms) && k < |ms|
    ensures RunBlock(ms, k, k + 1) == Open(ms[k])
  {
  }

  // What the last member does to the blocks, given the run that is open before it.
  lemma MergeStepIs(ms: seq<Member>, n: nat, closed: seq<Block>, open: Block)
    requires Sorted(ms) && 0 < n < |ms| && Merge(ms, n) == closed + [open]
    ensures open.startAddress <= ms[n].address
    ensures Merge(ms, n + 1)
         == if Fits(open, ms[n]) then closed + [Extend(open, ms[n])] else Merge(ms, n) + [Open(ms[n])]
  {
    hide Fits, Extend, Open;
    var bs := Merge(ms, n);
    assert bs[|bs| - 1] == open && bs[..|bs| - 1] == closed;
    assert ms[n - 1].address <= ms[n].address;
  }

  lemma RunStartStep(ms: seq<Member>, k: nat, start: nat)
    requires 0 < k < |ms| && RunStart(ms, k - 1) == start
    ensures RunStart(ms, k) ==
            if ms[k].address <= ms[k - 1].End() + MAX_BLOCK_GAP && ms[k].End() - ms[start].address <= MaxBlock(ms[k].registerType)
            then start else k
  {
  }

  // The loop closes exactly one block per run, and the block holds exactly that run.
  lemma {:induction false} MergeIsRuns(ms: seq<Member>, n: nat)
    requires Sorted(ms) && 0 < n <= |ms|
    ensures var a := RunStart(ms, n - 1);
            Merge(ms, n) == Merge(ms, a) + [RunBlock(ms, a, n)]
  {
    OpenIsRunBlock(ms, n - 1);
    if n > 1 {
      assert RunStart(ms, n - 1) == if Joins(ms, n - 1) then RunStart(ms, n - 2) else n - 1;
      hide Fits, Extend, Open, RunBlock, Merge, RunStart, Joins, Sorted;
      var a := RunStart(ms, n - 2);
      MergeIsRuns(ms, n - 1);
      MergeStepIs(ms, n - 1, Merge(ms, a), RunBlock(ms, a, n - 1));
      RunBlockGrows(ms, a, n - 1);
    }
  }

  // ----- partition and bounds -----

  function MembersOf(b: Block): seq<Member> {
    seq(|b.points|, i requires 0 <= i < |b.points| =>
      var p := b.points[i];
      Member(b.registerType, p.pointIndex, b.startAddress + p.offset, p.regCount))
  }

  function FlattenFirst(bs: seq<Block>, k: nat): seq<Member>
    requires k <= |bs|
  {
    if k == 0 then [] else FlattenFirst(bs, k - 1) + MembersOf(bs[k - 1])
  }

  function Flatten(bs: seq<Block>): seq<Member> {
    FlattenFirst(bs, |bs|)
  }

  lemma {:induction false} FlattenConcat(bs: seq<Block>, cs: seq<Block>, k: nat)
    requires k <= |cs|
    ensures FlattenFirst(bs + cs, |bs| + k) == Flatten(bs) + FlattenFirst(cs, k)
  {
    hide MembersOf;
    if k == 0 {
      FlattenPrefix(bs, cs, |bs|);
    } else {
      FlattenConcat(bs, cs, k - 1);
      assert (bs + cs)[|bs| + k - 1] == cs[k - 1];
    }
  }

  lemma {:induction false} FlattenPrefix(bs: seq<Block>, cs: seq<Block>, k: nat)
    requires k <= |bs|
    ensures FlattenFirst(bs + cs, k) == FlattenFirst(bs, k)
  {
    if k > 0 {
      hide MembersOf;
      FlattenPrefix(bs, cs, k - 1);
    }
  }

  lemma RunBlockHoldsRun(ms: seq<Member>, t: RegisterType, a: nat, n: nat)
    requires Sorted(ms) && OneType(ms, t) && a < n <= |ms|
    ensures MembersOf(RunBlock(ms, a, n)) == ms[a..n]
  {
  }

  lemma FlattenLastRun(ms: seq<Member>, t: RegisterType, n: nat)
    requires Sorted(ms) && OneType(ms, t) && 0 < n <= |ms|
    ensures var a := RunStart(ms, n - 1); Flatten(Merge(ms, n)) == Flatten(Merge(ms, a)) + ms[a..n]
  {
    hide RunStart, RunBlock, MembersOf;
    var a := RunStart(ms, n - 1);
    MergeIsRuns(ms, n);
    FlattenConcat(Merge(ms, a), [RunBlock(ms, a, n)], 1);
    RunBlockHoldsRun(ms, t, a, n);
  }

  lemma FrontSplits(ms: seq<Member>, a: nat, n: nat)
    requires a <= n <= |ms|
    ensures ms[..n] == ms[..a] + ms[a..n]
  {
  }

  // Merging keeps every member, once, in order, with its own address and count.
  lemma {:induction false} MergeKeepsMembers(ms: seq<Member>, t: RegisterType, n: nat)
    requires Sorted(ms) && OneType(ms, t) && n <= |ms|
    ensures Flatten(Merge(ms, n)) == ms[..n]
  {
    if n == 0 {
      assert Merge(ms, 0) == [];
    } else {
      hide RunStart, MembersOf, Merge, FlattenFirst, Flatten, Sorted, OneType;
      var a := RunStart(ms, n - 1);
      MergeKeepsMembers(ms, t, a);
      FlattenLastRun(ms, t, n);
      FrontSplits(ms, a, n);
    }
  }

  // A request a device can serve: at least one unit, at most a frame full, inside the address space.
  ghost predicate WithinLimits(b: Block) {
    && b.points != []
    && 1 <= b.count <= RequestLimit(b.registerType)
    && b.startAddress + b.count < 0x1_0000
  }

  ghost predicate Requestable(ms: seq<Member>, t: RegisterType) {
    forall m <- ms :: 1 <= m.count <= RequestLimit(t) && m.End() < 0x1_0000
  }

  lemma {:induction false} MergeIsBounded(ms: seq<Member>, t: RegisterType, n: nat)
    requires Sorted(ms) && OneType(ms, t) && Requestable(ms, t) && n <= |ms|
    ensures forall b <- Merge(ms, n) :: b.registerType == t && WithinLimits(b)
  {
    if n > 0 {
      var a := RunStart(ms, n - 1);
      MergeIsRuns(ms, n);
      MergeIsBounded(ms, t, a);
      assert ms[n - 1] in ms;
      assert a == n - 1 || ms[a].address <= ms[n - 1].address;
    }
  }

  // ----- coverage -----

  ghost predicate Covers(b: Block) {
    forall p <- b.points :: p.offset + p.regCount <= b.count
  }

  ghost predicate EndsNeverDecrease(ms: seq<Member>) {
    forall i, j | 0 <= i < j < |ms| :: ms[i].End() <= ms[j].End()
  }

  predicate IsRunEnd(ms: seq<Member>, n: nat, k: nat)
    requires k < n <= |ms|
  {
    k == n - 1 || RunStart(ms, k + 1) == k + 1
  }

  // Where a run stops, no earlier member of the run reaches further than the last one.
  ghost predicate LastReachesFurthest(ms: seq<Member>, n: nat)
    requires n <= |ms|
  {
    forall i, k | 0 <= i <= k < n && IsRunEnd(ms, n, k) && RunStart(ms, k) <= i ::
      ms[i].End() <= ms[k].End()
  }

  lemma LastRunReachesFurthest(ms: seq<Member>, n: nat)
    requires 0 < n <= |ms|
    ensures var a := RunStart(ms, n - 1);
            LastReachesFurthest(ms, n) <==>
              LastReachesFurthest(ms, a) && forall i | a <= i < n :: ms[i].End() <= ms[n - 1].End()
  {
    var a := RunStart(ms, n - 1);
    forall k | 0 <= k < n - 1
      ensures IsRunEnd(ms, n, k) <==> k < a && IsRunEnd(ms, a, k)
    {
      if a <= k + 1 {
        RunIsContiguous(ms, k + 1, n - 1);
      }
    }
  }

  lemma RunBlockCovers(ms: seq<Member>, a: nat, n: nat)
    requires Sorted(ms) && a < n <= |ms|
    ensures Covers(RunBlock(ms, a, n)) <==> forall i | a <= i < n :: ms[i].End() <= ms[n - 1].End()
  {
    var ps := RunBlock(ms, a, n).points;
    forall i | a <= i < n
      ensures ps[i - a] in ps && ps[i - a].offset + ps[i - a].regCount == ms[i].End() - ms[a].address
    {
      assert ms[a + (i - a)] == ms[i];
    }
  }

  // A block count is the end of its last member, so every member lies inside its block
  // exactly when no run ends on a member that stops short of an earlier one.
  lemma {:induction false} CoverageExactly(ms: seq<Member>, n: nat)
    requires Sorted(ms) && n <= |ms|
    ensures (forall b <- Merge(ms, n) :: Covers(b)) <==> LastReachesFurthest(ms, n)
  {
    if n > 0 {
      var a := RunStart(ms, n - 1);
      MergeIsRuns(ms, n);
      CoverageExactly(ms, a);
      LastRunReachesFurthest(ms, n);
      RunBlockCovers(ms, a, n);
    }
  }

  lemma CoverageWhenEndsNeverDecrease(ms: seq<Member>)
    requires Sorted(ms) && EndsNeverDecrease(ms)
    ensures forall b <- Merge(ms, |ms|) :: Covers(b)
  {
    CoverageExactly(ms, |ms|);
  }

  // A four-register range with a one-register range nested inside it: the block shrinks
  // from four registers to two, and the first point no longer fits.
  lemma NestedRangeShrinksBlock()
    ensures var ms := [Member(Holding, 0, 100, 4), Member(Holding, 1, 101, 1)];
            && Merge(ms, 1) == [Block(Holding, 100, 4, [BlockPoint(0, 0, 4)])]
            && Merge(ms, 2) == [Block(Holding, 100, 2, [BlockPoint(0, 0, 4), BlockPoint(1, 1, 1)])]
            && !LastReachesFurthest(ms, 2)
  {
    var ms := [Member(Holding, 0, 100, 4), Member(Holding, 1, 101, 1)];
    MergeIsRuns(ms, 1);
    MergeIsRuns(ms, 2);
    assert Joins(ms, 1) && RunStart(ms, 1) == 0;
    assert Merge(ms, 0) == [];
    assert RunBlock(ms, 0, 2).points == [BlockPoint(0, 0, 4), BlockPoint(1, 1, 1)];
    assert ms[0].End() > ms[1].End();
  }

  // ----- optimality -----

  // `group[i]` names the block read that serves member `i`. A grouping respects the limits when
  // neighbouring members of a group leave a gap of at most ten, and no two of its members, of
  // which one may be the same twice, span more than one request.
  ghost predicate RespectsLimits(ms: seq<Member>, group: seq<nat>) {
    && |group| == |ms|
    && (forall i, k | 0 <= i < k < |ms| && Neighbours(group, i, k) :: ms[k].address <= ms[i].End() + 10)
    && (forall i, k | 0 <= i <= k < |ms| && group[i] == group[k] ::
          ms[k].End() - ms[i].address <= RequestLimit(ms[k].registerType))
  }

  ghost predicate Neighbours(group: seq<nat>, i: nat, k: nat)
    requires i < k < |group|
  {
    group[i] == group[k] && forall j | i < j < k :: group[j] != group[i]
  }

  function Names(group: seq<nat>): set<nat> {
    set g | g in group
  }

  // The last member before `k` that is in the group of `i`.
  lemma NeighbourBefore(group: seq<nat>, i: nat, k: nat) returns (l: nat)
    requires i < k < |group| && group[i] == group[k]
    ensures i <= l < k && Neighbours(group, l, k)
  {
    l := k - 1;
    while group[l] != group[k]
      invariant i <= l < k
      invariant forall j | l < j < k :: group[j] != group[k]
      decreases l
    {
      l := l - 1;
    }
  }

  // Every group is a stretch of the sorted members.
  ghost predicate Consecutive(group: seq<nat>) {
    forall i, j, k | 0 <= i < j < k < |group| && group[i] == group[k] :: group[j] == group[i]
  }

  // A member that shares an admissible group with the first member of an earlier run does not
  // start a run of its own.
  lemma GroupMatesJoin(ms: seq<Member>, group: seq<nat>, g: nat, h: nat)
    requires Sorted(ms) && RespectsLimits(ms, group) && (EndsNeverDecrease(ms) || Consecutive(group))
    requires g < h < |ms| && RunStart(ms, g) == g && group[g] == group[h]
    ensures RunStart(ms, h) < h
  {
    hide RunStart;
    RunStartMonotone(ms, g, h - 1);
    var s := RunStart(ms, h - 1);
    var l := NeighbourBefore(group, g, h);
    assert ms[h].address <= ms[l].End() + MAX_BLOCK_GAP;
    assert l == h - 1 || ms[l].End() <= ms[h - 1].End();
    assert g == s || ms[g].address <= ms[s].address;
    assert ms[h].End() - ms[g].address <= MaxBlock(ms[h].registerType);
    RunStartStep(ms, h, s);
  }

  function RunStarts(ms: seq<Member>, n: nat): (starts: set<nat>)
    requires n <= |ms|
    ensures forall k <- starts :: k < n && RunStart(ms, k) == k
  {
    if n == 0 then {}
    else
      var a := RunStart(ms, n - 1);
      RunIsContiguous(ms, a, n - 1);
      RunStarts(ms, a) + {a}
  }

  lemma {:induction false} OneBlockPerRun(ms: seq<Member>, n: nat)
    requires Sorted(ms) && n <= |ms|
    ensures |Merge(ms, n)| == |RunStarts(ms, n)|
  {
    if n > 0 {
      MergeIsRuns(ms, n);
      OneBlockPerRun(ms, RunStart(ms, n - 1));
    }
  }

  lemma {:induction false} Pigeonhole(birds: set<nat>, hole: seq<nat>, holes: set<nat>)
    requires forall b <- birds :: b < |hole| && hole[b] in holes
    requires forall b <- birds, c <- birds :: b != c ==> hole[b] != hole[c]
    ensures |birds| <= |holes|
  {
    if b :| b in birds {
      Pigeonhole(birds - {b}, hole, holes - {hole[b]});
    }
  }

  // Serving the same members within the same limits takes at least as many block reads, if stretches
  // of the sorted members are read together, or if range ends never decrease, whichever they are.
  lemma MergeIsOptimal(ms: seq<Member>, group: seq<nat>)
    requires Sorted(ms) && RespectsLimits(ms, group) && (EndsNeverDecrease(ms) || Consecutive(group))
    ensures |Merge(ms, |ms|)| <= |Names(group)|
  {
    var starts := RunStarts(ms, |ms|);
    forall g <- starts, h <- starts | g < h ensures group[g] != group[h] {
      if group[g] == group[h] {
        GroupMatesJoin(ms, group, g, h);
        assert false;
      }
    }
    Pigeonhole(starts, group, Names(group));
    OneBlockPerRun(ms, |ms|);
  }

  function NestedRanges(): seq<Member> {
    [Member(Holding, 0, 0, 10), Member(Holding, 1, 15, 70), Member(Holding, 2, 94, 100), Member(Holding, 3, 95, 1),
     Member(Holding, 4, 202, 1)]
  }

  lemma NestedRangesMerge()
    ensures Sorted(NestedRanges()) && |Merge(NestedRanges(), 5)| == 3
  {
    var ms := NestedRanges();
    assert RunStart(ms, 0) == 0;
    hide RunStart, Merge;
    RunStartStep(ms, 1, 0);
    RunStartStep(ms, 2, 0);
    RunStartStep(ms, 3, 2);
    RunStartStep(ms, 4, 2);
    assert RunStarts(ms, 5) == RunStarts(ms, 4) + {4} == RunStarts(ms, 2) + {2} + {4} == {0, 2, 4};
    OneBlockPerRun(ms, 5);
  }

  const NESTED_GROUPS: seq<nat> := [0, 0, 1, 0, 1]

  lemma NestedGroupsRespectLimits()
    ensures RespectsLimits(NestedRanges(), NESTED_GROUPS)
  {
    var ms, group := NestedRanges(), NESTED_GROUPS;
    forall i, k | 0 <= i < k < 5 && Neighbours(group, i, k) ensures ms[k].address <= ms[i].End() + 10 {
      assert group[0] == group[1] == group[3];
    }
  }

  // Where a range is nested in another, reading members together that are not neighbours can save a
  // read: three blocks, where two groups are enough.
  lemma NestedRangeCostsARead()
    ensures var ms, group := NestedRanges(), NESTED_GROUPS;
            && Sorted(ms) && !EndsNeverDecrease(ms) && !Consecutive(group) && RespectsLimits(ms, group)
            && |Merge(ms, 5)| == 3 && |Names(group)| == 2
  {
    hide RunStart, Merge, RespectsLimits, Sorted;
    var ms, group := NestedRanges(), NESTED_GROUPS;
    NestedRangesMerge();
    NestedGroupsRespectLimits();
    assert ms[2].End() > ms[3].End();
    assert group[2] != group[1] == group[3];
    assert Names(group) == {0, 1};
  }

  lemma RunsAreConsecutive(ms: seq<Member>, group: seq<nat>)
    requires |group| == |ms| && forall k | 0 <= k < |ms| :: group[k] == RunStart(ms, k)
    ensures Consecutive(group)
  {
    hide RunStart;
    forall i, k | 0 <= i < k < |ms| ensures group[i] <= group[k] {
      RunStartMonotone(ms, i, k);
    }
  }

  lemma RunsHaveNoGap(ms: seq<Member>, group: seq<nat>, i: nat, k: nat)
    requires |group| == |ms| && forall k | 0 <= k < |ms| :: group[k] == RunStart(ms, k)
    requires i < k < |ms| && Neighbours(group, i, k)
    ensures ms[k].address <= ms[i].End() + 10
  {
    assert RunStart(ms, k) <= i;
    RunIsContiguous(ms, k - 1, k);
    assert group[k - 1] == group[i];
  }

  lemma RunsFitRequest(ms: seq<Member>, i: nat, k: nat)
    requires Sorted(ms) && i <= k < |ms| && RunStart(ms, i) == RunStart(ms, k)
    requires ms[k].count <= RequestLimit(ms[k].registerType)
    ensures ms[k].End() - ms[i].address <= RequestLimit(ms[k].registerType)
  {
    assert ms[RunStart(ms, k)].address <= ms[i].address;
  }

  // The greedy runs form such a grouping, so the bound is attained.
  lemma MergeAttainsOptimum(ms: seq<Member>)
    requires Sorted(ms)
    requires forall i | 0 <= i < |ms| :: ms[i].count <= RequestLimit(ms[i].registerType)
    ensures var group := seq(|ms|, k requires 0 <= k < |ms| => RunStart(ms, k));
            RespectsLimits(ms, group) && Consecutive(group) && |Names(group)| == |Merge(ms, |ms|)|
  {
    hide Merge, RunStart, Sorted, Consecutive, Names, RequestLimit, Neighbours;
    var group := seq(|ms|, k requires 0 <= k < |ms| => RunStart(ms, k));
    RunsAreConsecutive(ms, group);
    forall i, k | 0 <= i < k < |ms| && Neighbours(group, i, k)
      ensures ms[k].address <= ms[i].End() + 10
    {
      RunsHaveNoGap(ms, group, i, k);
    }
    forall i, k | 0 <= i <= k < |ms| && group[i] == group[k]
      ensures ms[k].End() - ms[i].address <= RequestLimit(ms[k].registerType)
    {
      RunsFitRequest(ms, i, k);
    }
    NamesAreStarts(ms, |ms|, group);
    OneBlockPerRun(ms, |ms|);
  }

  lemma {:induction false} NamesAreStarts(ms: seq<Member>, n: nat, group: seq<nat>)
    requires n <= |ms| == |group|
    requires forall k | 0 <= k < |ms| :: group[k] == RunStart(ms, k)
    ensures Names(group[..n]) == RunStarts(ms, n)
    ensures group[..|ms|] == group
  {
    if n > 0 {
      var a := RunStart(ms, n - 1);
      NamesAreStarts(ms, a, group);
      forall k | a <= k < n ensures group[k] == a {
        RunIsContiguous(ms, k, n - 1);
      }
      assert group[..n][n - 1] == a;
      assert forall x :: x in group[..n] <==> x in group[..a] || x == a;
    }
  }

  // ----- one sorted list per register type -----

  ghost predicate AllSorted(lists: seq<seq<Member>>) {
    forall i | 0 <= i < |lists| :: Sorted(lists[i])
  }

  function ConcatFirst(lists: seq<seq<Member>>, k: nat): seq<Member>
    requires k <= |lists|
  {
    if k == 0 then [] else ConcatFirst(lists, k - 1) + lists[k - 1]
  }

  function MergeFirst(lists: seq<seq<Member>>, k: nat): seq<Block>
    requires AllSorted(lists) && k <= |lists|
  {
    if k == 0 then [] else MergeFirst(lists, k - 1) + Merge(lists[k - 1], |lists[k - 1]|)
  }

  ghost predicate AllCover(bs: seq<Block>) {
    forall b <- bs :: Covers(b)
  }

  lemma AllCoverConcat(bs: seq<Block>, cs: seq<Block>)
    ensures AllCover(bs + cs) <==> AllCover(bs) && AllCover(cs)
  {
  }

  lemma {:induction false} MergeFirstCoversExactly(lists: seq<seq<Member>>, k: nat)
    requires AllSorted(lists) && k <= |lists|
    ensures AllCover(MergeFirst(lists, k)) <==> forall i | 0 <= i < k :: LastReachesFurthest(lists[i], |lists[i]|)
  {
    hide Merge, LastReachesFurthest, Covers;
    if k > 0 {
      var ms := lists[k - 1];
      MergeFirstCoversExactly(lists, k - 1);
      AllCoverConcat(MergeFirst(lists, k - 1), Merge(ms, |ms|));
      CoverageExactly(ms, |ms|);
    }
  }

  lemma {:induction false} MergeFirstKeepsMembers(lists: seq<seq<Member>>, order: seq<RegisterType>, k: nat)
    requires AllSorted(lists) && k <= |lists| == |order|
    requires forall i | 0 <= i < |lists| :: OneType(lists[i], order[i])
    ensures Flatten(MergeFirst(lists, k)) == ConcatFirst(lists, k)
  {
    hide Merge, MembersOf;
    if k > 0 {
      var ms := lists[k - 1];
      MergeFirstKeepsMembers(lists, order, k - 1);
      FlattenConcat(MergeFirst(lists, k - 1), Merge(ms, |ms|), |Merge(ms, |ms|)|);
      MergeKeepsMembers(ms, order[k - 1], |ms|);
      assert ms[..|ms|] == ms;
    }
  }

  lemma {:induction false} MergeFirstWithinLimits(lists: seq<seq<Member>>, order: seq<RegisterType>, k: nat)
    requires AllSorted(lists) && k <= |lists| == |order|
    requires forall i | 0 <= i < |lists| :: OneType(lists[i], order[i])
    requires forall i | 0 <= i < |lists| :: Requestable(lists[i], order[i])
    ensures forall b <- MergeFirst(lists, k) :: WithinLimits(b)
  {
    if k > 0 {
      MergeFirstWithinLimits(lists, order, k - 1);
      MergeIsBounded(lists[k - 1], order[k - 1], |lists[k - 1]|);
    }
  }

  // ----- the whole plan -----

  // The order in which the types come out of the hash map: any order at all.
  ghost predicate IsTypeOrder(order: seq<RegisterType>) {
    && (forall t: RegisterType :: t in order)
    && (forall i, j | 0 <= i < j < |order| :: order[i] != order[j])
  }

  lemma {:induction false} OfTypesHasTypes(ms: seq<Member>, ts: set<RegisterType>)
    ensures forall m <- OfTypes(ms, ts) :: m in ms && m.registerType in ts
  {
    if ms != [] {
      OfTypesHasTypes(ms[..|ms| - 1], ts);
    }
  }

  function SortedOf(points: seq<PointConfig>, t: RegisterType): (ms: seq<Member>)
    ensures Sorted(ms)
  {
    var unsorted := OfTypes(Members(points), {t});
    SortSorts(unsorted);
    SortByAddress(unsorted)
  }

  lemma SortedOfPermutes(points: seq<PointConfig>, t: RegisterType)
    ensures multiset(SortedOf(points, t)) == multiset(OfTypes(Members(points), {t}))
  {
    SortSorts(OfTypes(Members(points), {t}));
  }

  lemma SortedOfFrom(points: seq<PointConfig>, t: RegisterType)
    ensures OneType(SortedOf(points, t), t)
    ensures forall m <- SortedOf(points, t) :: m in Members(points)
  {
    var ms, unsorted := SortedOf(points, t), OfTypes(Members(points), {t});
    SortedOfPermutes(points, t);
    OfTypesHasTypes(Members(points), {t});
    forall m | m in ms ensures m in unsorted {
      assert m in multiset(ms);
    }
  }

  ghost predicate Increasing(ms: seq<Member>) {
    forall i, j | 0 <= i < j < |ms| :: ms[i].index < ms[j].index
  }

  lemma {:induction false} OfTypesKeepsOrder(ms: seq<Member>, ts: set<RegisterType>)
    requires Increasing(ms)
    ensures Increasing(OfTypes(ms, ts))
  {
    if ms != [] {
      var front, last := ms[..|ms| - 1], ms[|ms| - 1];
      OfTypesKeepsOrder(front, ts);
      OfTypesHasTypes(front, ts);
      forall x <- OfTypes(front, ts) ensures x.index < last.index {
        assert x in front;
      }
    }
  }

  // The list the planner merges: by address, and in configuration order where addresses are equal.
  lemma SortedOfIsStable(points: seq<PointConfig>, t: RegisterType)
    ensures Stable(SortedOf(points, t))
  {
    assert forall i | 0 <= i < |points| :: Members(points)[i].index == i;
    OfTypesKeepsOrder(Members(points), {t});
    SortIsStable(OfTypes(Members(points), {t}));
  }

  function SortedLists(points: seq<PointConfig>, order: seq<RegisterType>): (lists: seq<seq<Member>>)
    ensures |lists| == |order| && AllSorted(lists)
  {
    seq(|order|, i requires 0 <= i < |order| => SortedOf(points, order[i]))
  }

  function Plan(points: seq<PointConfig>, order: seq<RegisterType>): seq<Block> {
    MergeFirst(SortedLists(points, order), |order|)
  }

  lemma {:induction false} OfTypesSplits(ms: seq<Member>, ts: set<RegisterType>, t: RegisterType)
    requires t !in ts
    ensures multiset(OfTypes(ms, ts + {t})) == multiset(OfTypes(ms, ts)) + multiset(OfTypes(ms, {t}))
  {
    if ms != [] {
      OfTypesSplits(ms[..|ms| - 1], ts, t);
    }
  }

  lemma {:induction false} OfAllTypes(ms: seq<Member>, ts: set<RegisterType>)
    requires forall t: RegisterType :: t in ts
    ensures OfTypes(ms, ts) == ms
  {
    if ms != [] {
      OfAllTypes(ms[..|ms| - 1], ts);
    }
  }

  lemma {:induction false} NoTypes(ms: seq<Member>)
    ensures OfTypes(ms, {}) == []
  {
    if ms != [] {
      NoTypes(ms[..|ms| - 1]);
    }
  }

  function FirstTypes(order: seq<RegisterType>, k: nat): (ts: set<RegisterType>)
    requires k <= |order|
    ensures forall t :: t in ts <==> t in order[..k]
  {
    if k == 0 then {}
    else
      assert order[..k] == order[..k - 1] + [order[k - 1]];
      FirstTypes(order, k - 1) + {order[k - 1]}
  }

  lemma NotYetListed(order: seq<RegisterType>, k: nat)
    requires IsTypeOrder(order) && k < |order|
    ensures order[k] !in FirstTypes(order, k)
  {
    assert forall i | 0 <= i < k :: order[..k][i] == order[i];
  }

  lemma TypesStep(points: seq<PointConfig>, order: seq<RegisterType>, k: nat)
    requires IsTypeOrder(order) && 0 < k <= |order|
    ensures ConcatFirst(SortedLists(points, order), k)
         == ConcatFirst(SortedLists(points, order), k - 1) + SortedOf(points, order[k - 1])
    ensures FirstTypes(order, k) == FirstTypes(order, k - 1) + {order[k - 1]}
    ensures order[k - 1] !in FirstTypes(order, k - 1)
  {
    hide SortedOf;
    NotYetListed(order, k - 1);
  }

  lemma JoinedBags(a: seq<Member>, b: seq<Member>, x: seq<Member>, y: seq<Member>, z: seq<Member>)
    requires multiset(a) == multiset(x) && multiset(b) == multiset(y) && multiset(z) == multiset(x) + multiset(y)
    ensures multiset(a + b) == multiset(z)
  {
  }

  lemma {:induction false} SortedListsPermute(points: seq<PointConfig>, order: seq<RegisterType>, k: nat)
    requires IsTypeOrder(order) && k <= |order|
    ensures multiset(ConcatFirst(SortedLists(points, order), k)) == multiset(OfTypes(Members(points), FirstTypes(order, k)))
  {
    hide SortedOf, Members, OfTypes, IsTypeOrder;
    var ms := Members(points);
    if k == 0 {
      NoTypes(ms);
    } else {
      hide ConcatFirst, FirstTypes, SortedLists;
      var t, before := order[k - 1], FirstTypes(order, k - 1);
      TypesStep(points, order, k);
      SortedListsPermute(points, order, k - 1);
      OfTypesSplits(ms, before, t);
      SortedOfPermutes(points, t);
      JoinedBags(ConcatFirst(SortedLists(points, order), k - 1), SortedOf(points, t),
                 OfTypes(ms, before), OfTypes(ms, {t}), OfTypes(ms, before + {t}));
    }
  }

  // Whatever the order of types, the blocks together hold every configured point exactly once,
  // in a block of its own register type, at its own address and with its own count.
  lemma PlanPartitions(points: seq<PointConfig>, order: seq<RegisterType>)
    requires IsTypeOrder(order)
    ensures multiset(Flatten(Plan(points, order))) == multiset(Members(points))
  {
    var n := |order|;
    SortedListsPermute(points, order, n);
    assert order[..n] == order;
    OfAllTypes(Members(points), FirstTypes(order, n));
    forall i | 0 <= i < n ensures OneType(SortedLists(points, order)[i], order[i]) {
      SortedOfFrom(points, order[i]);
    }
    MergeFirstKeepsMembers(SortedLists(points, order), order, n);
  }

  // Every request is one a device can serve: no more than 125 registers or 2000 bits.
  lemma PlanWithinLimits(points: seq<PointConfig>, order: seq<RegisterType>)
    requires Readable(points)
    ensures forall b <- Plan(points, order) :: WithinLimits(b)
  {
    forall i | 0 <= i < |order|
      ensures OneType(SortedLists(points, order)[i], order[i])
      ensures Requestable(SortedLists(points, order)[i], order[i])
    {
      SortedOfFrom(points, order[i]);
      forall m <- SortedOf(points, order[i]) ensures 1 <= m.count <= RequestLimit(order[i]) && m.End() < 0x1_0000 {
        assert m.registerType == order[i];
        assert points[m.index] in points;
      }
    }
    MergeFirstWithinLimits(SortedLists(points, order), order, |order|);
  }

  // In the sorted order of type `t`, every run ends on the point that reaches furthest.
  ghost predicate RunsEndFurthest(points: seq<PointConfig>, t: RegisterType) {
    LastReachesFurthest(SortedOf(points, t), |SortedOf(points, t)|)
  }

  // Every point lies inside the block that is to serve it exactly when, in each type's sorted
  // order, every run ends on the point that reaches furthest.
  lemma PlanCoversExactly(points: seq<PointConfig>, order: seq<RegisterType>)
    requires IsTypeOrder(order)
    ensures AllCover(Plan(points, order)) <==> forall t: RegisterType :: RunsEndFurthest(points, t)
  {
    var lists := SortedLists(points, order);
    MergeFirstCoversExactly(lists, |order|);
    forall i | 0 <= i < |order|
      ensures LastReachesFurthest(lists[i], |lists[i]|) <==> RunsEndFurthest(points, order[i])
    {
    }
    if forall i | 0 <= i < |order| :: LastReachesFurthest(lists[i], |lists[i]|) {
      forall t: RegisterType ensures RunsEndFurthest(points, t) {
        assert t in order;
      }
    }
  }

  lemma LastAside<T>(before: seq<T>, all: seq<T>, front: seq<T>, last: T)
    requires all != [] && front + [last] == before + all
    ensures all[|all| - 1] == last
    ensures forall x: T :: before + (all[..|all| - 1] + [x]) == front + [x]
    ensures forall x: T :: before + (all + [x]) == front + [last] + [x]
  {
    assert (before + all)[|before + all| - 1] == last;
    assert front == (front + [last])[..|front|] == before + all[..|all| - 1];
  }

  lemma MergeStep(before: seq<Block>, ms: seq<Member>, j: nat, blocks: seq<Block>, blk: Block)
    requires Sorted(ms) && 0 < j < |ms| && blocks + [blk] == before + Merge(ms, j)
    ensures blk.startAddress <= ms[j].address
    ensures before + Merge(ms, j + 1)
         == if Fits(blk, ms[j]) then blocks + [Extend(blk, ms[j])] else blocks + [blk] + [Open(ms[j])]
  {
    hide Fits, Extend, Open;
    LastAside(before, Merge(ms, j), blocks, blk);
    assert ms[j - 1].address <= ms[j].address;
  }

  // One pass over the sorted points of one type, after the blocks of earlier types.
  method MergeSorted(pts: seq<Member>, before: seq<Block>) returns (blocks: seq<Block>)
    requires Sorted(pts)
    ensures blocks == before + Merge(pts, |pts|)
  {
    hide RunStart, Fits, Extend;
    blocks := before;
    var current: Option<Block> := None;
    for j := 0 to |pts|
      invariant current.None? ==> j == 0 && blocks == before
      invariant current.Some? ==> j > 0 && blocks + [current.value] == before + Merge(pts, j)
    {
      var pt := pts[j];
      if current.Some? {
        var blk := current.value;
        MergeStep(before, pts, j, blocks, blk);
        if Fits(blk, pt) {
          current := Some(Extend(blk, pt));
          continue;
        }
        blocks := blocks + [blk];
      }
      current := Some(Open(pt));
    }
    if current.Some? {
      blocks := blocks + [current.value];
    }
  }

  method GroupByType(points: seq<PointConfig>) returns (byType: map<RegisterType, seq<Member>>)
    ensures forall t: RegisterType :: t in byType && byType[t] == OfTypes(Members(points), {t})
  {
    byType := map[Holding := [], Input := [], Coil := [], DiscreteInput := []];
    forall t: RegisterType ensures t in byType && byType[t] == [] {
      match t case Holding => case Input => case Coil => case DiscreteInput =>
    }
    for i := 0 to |points|
      invariant forall t: RegisterType :: t in byType && byType[t] == OfTypes(Members(points)[..i], {t})
    {
      var m := MemberOf(points, i);
      byType := byType[m.registerType := byType[m.registerType] + [m]];
      assert Members(points)[..i + 1][..i] == Members(points)[..i];
    }
    assert Members(points)[..|points|] == Members(points);
  }

  // The planner itself. `order` is the order in which the hash map yields its types.
  method PlanBlockReads(points: seq<PointConfig>, order: seq<RegisterType>) returns (blocks: seq<Block>)
    requires Addressable(points) && IsTypeOrder(order)
    ensures blocks == Plan(points, order)
  {
    hide Merge, Members, Sorted, OfTypes, SortByAddress;
    var byType := GroupByType(points);
    blocks := [];
    for k := 0 to |order|
      invariant blocks == MergeFirst(SortedLists(points, order), k)
    {
      var pts := SortByAddress(byType[order[k]]);
      assert pts == SortedOf(points, order[k]);
      blocks := MergeSorted(pts, blocks);
    }
  }
}
