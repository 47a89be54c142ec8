/** What a run of the poll loop has made of every configured point: the samples of the attempted
    cycles decide its value and its fault flag. */
module PollHistory {
  import opened Options
  import opened ModbusTypes
  import opened BlockPlanner
  import opened DeviceAccess
  import opened LivePoints
  import opened PollLoop
  import opened PollFlags
  import opened PollRuns

  // ----- the place of a point in the plan -----

  predicate Serves(blocks: seq<Block>, k: nat, j: nat, i: nat) {
    k < |blocks| && j < |blocks[k].points| && blocks[k].points[j].pointIndex == i
  }

  lemma {:induction false} FlattenedFrom(bs: seq<Block>, n: nat, m: Member) returns (k: nat, j: nat)
    requires n <= |bs| && m in FlattenFirst(bs, n)
    ensures k < n && j < |bs[k].points| && MembersOf(bs[k])[j] == m
  {
    if m in MembersOf(bs[n - 1]) {
      k := n - 1;
      j :| 0 <= j < |bs[k].points| && MembersOf(bs[k])[j] == m;
    } else {
      k, j := FlattenedFrom(bs, n - 1, m);
    }
  }

  lemma EveryPointIsServed(points: seq<PointConfig>, order: seq<RegisterType>, i: nat)
    requires IsTypeOrder(order) && i < |points|
    ensures exists k: nat, j: nat :: Serves(Plan(points, order), k, j, i)
  {
    hide Plan, FlattenFirst, MembersOf;
    var blocks, m := Plan(points, order), MemberOf(points, i);
    PlanPartitions(points, order);
    assert Members(points)[i] == m;
    assert m in multiset(Members(points));
    assert m in multiset(Flatten(blocks));
    var k, j := FlattenedFrom(blocks, |blocks|, m);
    assert blocks[k].points[j].pointIndex == i by { PlaceOfMember(blocks[k], j, m); }
    assert Serves(blocks, k, j, i);
  }

  lemma PlaceOfMember(b: Block, j: nat, m: Member)
    requires j < |b.points| && MembersOf(b)[j] == m
    ensures b.points[j].pointIndex == m.index
  {
  }

  // What a cycle learns about a configured point.
  ghost function SampleFor(c: Config, blocks: seq<Block>, replies: seq<BlockReply>, i: nat): Sample
    requires ValidPlan(c, blocks) && |replies| == |blocks| && i < |c.points|
  {
    if exists k: nat, j: nat :: Serves(blocks, k, j, i) then
      var k: nat, j: nat :| Serves(blocks, k, j, i);
      SampleOf(c.points, c.setup, blocks[k], blocks[k].points[j], replies[k])
    else Fault
  }

  // Every configured point follows its own sample in every cycle.
  lemma PointFollowsSample(c: Config, order: seq<RegisterType>, s: LoopState, now: int, replies: seq<BlockReply>, i: nat)
    requires Pollable(c.points) && IsTypeOrder(order) && DistinctIds(c) && i < |c.points|
    requires |replies| == |Plan(c.points, order)|
    ensures var blocks := Plan(c.points, order);
            && ValidPlan(c, blocks)
            && FollowsSample(SampleFor(c, blocks, replies, i),
                             Lookup(s.store, KeyOf(c, i)), Lookup(Cycle(c, blocks, s, now, replies).store, KeyOf(c, i)))
  {
    hide Plan, Pollable, Cycle, FollowsSample, SampleOf;
    var blocks := Plan(c.points, order);
    PlanIsValid(c, order);
    EveryPointIsServed(c.points, order, i);
    forall k: nat, j: nat | Serves(blocks, k, j, i)
      ensures FollowsSample(SampleOf(c.points, c.setup, blocks[k], blocks[k].points[j], replies[k]),
                            Lookup(s.store, KeyOf(c, i)), Lookup(Cycle(c, blocks, s, now, replies).store, KeyOf(c, i)))
    {
      CycleFollowsSamples(c, order, s, now, replies, k, j);
    }
  }

  // ----- whole runs -----

  // The samples of a point in the attempted cycles among the first `n` wakes.
  ghost function Samples(c: Config, blocks: seq<Block>, s: LoopState, ws: seq<WakeUp>, n: nat, i: nat): seq<Sample>
    requires ValidPlan(c, blocks) && ValidRun(blocks, ws) && n <= |ws| && i < |c.points|
  {
    if n == 0 then []
    else
      var before := Samples(c, blocks, s, ws, n - 1, i);
      if Run(c, blocks, s, ws, n - 1).backoff.SkipsAt(ws[n - 1].now) then before
      else before + [SampleFor(c, blocks, ws[n - 1].replies, i)]
  }

  // The last value among the samples, or else the one from before.
  function LastValue(samples: seq<Sample>, before: Option<PointValue>): (r: Option<PointValue>)
    ensures before.Some? ==> r.Some?
  {
    if samples == [] then before
    else
      match samples[|samples| - 1]
      case Value(v) => Some(v)
      case Fault => LastValue(samples[..|samples| - 1], before)
  }

  function ValueOf(e: Option<Entry>): Option<PointValue> {
    match e
    case Some(entry) => Some(entry.value)
    case None => None
  }

  // The entry of a point after its samples: the last good value, FAULT as the last attempt left it,
  // and the other flags as they were.
  ghost predicate FollowsSamples(samples: seq<Sample>, pre: Option<Entry>, post: Option<Entry>) {
    && ValueOf(post) == LastValue(samples, ValueOf(pre))
    && (post.Some? ==>
          && (Has(post.value.status, FAULT) <==>
                if samples == [] then pre.Some? && Has(pre.value.status, FAULT) else samples[|samples| - 1] == Fault)
          && Others(post.value.status) == if pre.Some? then Others(pre.value.status) else 0)
  }

  lemma FollowsOneMore(samples: seq<Sample>, x: Sample, pre: Option<Entry>, mid: Option<Entry>, post: Option<Entry>)
    requires FollowsSamples(samples, pre, mid) && FollowsSample(x, mid, post)
    ensures FollowsSamples(samples + [x], pre, post)
  {
    hide Has, Others;
    assert (samples + [x])[..|samples|] == samples;
  }

  // With distinct point ids, after every run every configured point holds the value of the last attempt
  // that brought one, carries FAULT exactly when the last attempt did not, and has kept its flags other
  // than FAULT and DOWN. Wakes that are skipped have no part in it.
  lemma {:induction false} RunFollowsSamples(c: Config, order: seq<RegisterType>, s: LoopState, ws: seq<WakeUp>, n: nat, i: nat)
    requires Pollable(c.points) && IsTypeOrder(order) && DistinctIds(c) && i < |c.points|
    requires ValidRun(Plan(c.points, order), ws) && n <= |ws|
    ensures var blocks := Plan(c.points, order);
            && ValidPlan(c, blocks)
            && FollowsSamples(Samples(c, blocks, s, ws, n, i),
                              Lookup(s.store, KeyOf(c, i)), Lookup(Run(c, blocks, s, ws, n).store, KeyOf(c, i)))
  {
    hide Plan, Pollable, ValidPlan, Cycle, FollowsSample, SampleFor;
    var blocks := Plan(c.points, order);
    PlanIsValid(c, order);
    if n > 0 {
      hide FollowsSamples;
      RunFollowsSamples(c, order, s, ws, n - 1, i);
      var key, before, w := KeyOf(c, i), Run(c, blocks, s, ws, n - 1), ws[n - 1];
      var samples := Samples(c, blocks, s, ws, n - 1, i);
      if before.backoff.SkipsAt(w.now) {
        assert Run(c, blocks, s, ws, n) == before;
        assert Samples(c, blocks, s, ws, n, i) == samples;
      } else {
        var after, x := Cycle(c, blocks, before, w.now, w.replies), SampleFor(c, blocks, w.replies, i);
        assert Run(c, blocks, s, ws, n) == after;
        assert Samples(c, blocks, s, ws, n, i) == samples + [x];
        PointFollowsSample(c, order, before, w.now, w.replies, i);
        FollowsOneMore(samples, x, Lookup(s.store, key), Lookup(before.store, key), Lookup(after.store, key));
      }
    }
  }
}
