/** What one cycle of the poll loop does to the flags and values of every point. */
module PollFlags {
  import opened Options
  import opened ModbusTypes
  import opened BlockPlanner
  import opened DeviceAccess
  import opened LivePoints
  import opened PollLoop

  // ----- an update list with distinct keys touches every key once -----

  ghost predicate DistinctKeys(us: seq<Update>) {
    forall i, j | 0 <= i < j < |us| :: us[i].key != us[j].key
  }

  lemma AppliedAt(store: map<PointKey, Entry>, u: Update, key: PointKey)
    ensures key != u.key ==> Lookup(Applied(store, u), key) == Lookup(store, key)
    ensures u.sample.Value? ==>
              Lookup(Applied(store, u), u.key)
                == Some(Entry(u.sample.v, ClearFlag(if u.key in store then store[u.key].status else 0, FAULT)))
    ensures u.sample.Fault? ==>
              Lookup(Applied(store, u), u.key)
                == if u.key in store then Some(store[u.key].(status := SetFlag(store[u.key].status, FAULT))) else None
  {
  }

  lemma {:induction false} AppliedElsewhere(store: map<PointKey, Entry>, us: seq<Update>, n: nat, key: PointKey)
    requires n <= |us| && forall i | 0 <= i < n :: us[i].key != key
    ensures Lookup(AppliedFirst(store, us, n), key) == Lookup(store, key)
  {
    if n > 0 {
      hide Applied;
      AppliedElsewhere(store, us, n - 1, key);
      AppliedAt(AppliedFirst(store, us, n - 1), us[n - 1], key);
    }
  }

  lemma {:induction false} AppliedOnce(store: map<PointKey, Entry>, us: seq<Update>, n: nat, j: nat)
    requires j < n <= |us| && DistinctKeys(us)
    ensures Lookup(AppliedFirst(store, us, n), us[j].key) == Lookup(Applied(store, us[j]), us[j].key)
  {
    hide Applied;
    var before := AppliedFirst(store, us, n - 1);
    if j == n - 1 {
      AppliedElsewhere(store, us, n - 1, us[j].key);
      AppliedAt(before, us[j], us[j].key);
      AppliedAt(store, us[j], us[j].key);
    } else {
      AppliedOnce(store, us, n - 1, j);
      AppliedAt(before, us[n - 1], us[j].key);
    }
  }

  // ----- a plan updates distinct keys -----

  lemma CountedOnce(s: seq<Member>, x: Member, i: nat, j: nat)
    requires multiset(s)[x] <= 1 && i < j < |s|
    ensures s[i] != x || s[j] != x
  {
    assert s == s[..j] + [s[j]] + s[j + 1..];
    assert s[i] in s[..j];
  }

  lemma {:induction false} DistinctCountOnce(s: seq<Member>, x: Member)
    requires forall i, j | 0 <= i < j < |s| :: s[i].index != s[j].index
    ensures multiset(s)[x] <= 1
  {
    if s != [] {
      var front, last := s[..|s| - 1], s[|s| - 1];
      assert s == front + [last];
      DistinctCountOnce(front, x);
      if x == last {
        forall i | 0 <= i < |front| ensures front[i] != last {
          assert front[i] == s[i];
        }
        assert x !in front;
      }
    }
  }

  lemma PlanIndicesDistinct(points: seq<PointConfig>, order: seq<RegisterType>)
    requires IsTypeOrder(order)
    ensures var ms := Flatten(Plan(points, order));
            && (forall i | 0 <= i < |ms| :: ms[i].index < |points|)
            && (forall i, j | 0 <= i < j < |ms| :: ms[i].index != ms[j].index)
  {
    hide Plan, Flatten;
    var ms, all := Flatten(Plan(points, order)), Members(points);
    PlanPartitions(points, order);
    forall i | 0 <= i < |ms| ensures ms[i].index < |points| && ms[i] == all[ms[i].index] {
      assert ms[i] in multiset(ms);
      assert ms[i] in multiset(all);
    }
    forall i, j | 0 <= i < j < |ms| ensures ms[i].index != ms[j].index {
      DistinctCountOnce(all, ms[i]);
      CountedOnce(ms, ms[i], i, j);
    }
  }

  lemma {:induction false} UpdatesFollowMembers(c: Config, blocks: seq<Block>, replies: seq<BlockReply>, k: nat)
    requires ValidPlan(c, blocks) && |replies| == |blocks| && k <= |blocks|
    ensures var us, ms := UpdatesFirst(c, blocks, replies, k), FlattenFirst(blocks, k);
            |us| == |ms| && forall i | 0 <= i < |us| :: ms[i].index < |c.points| && us[i].key == KeyOf(c, ms[i].index)
  {
    if k > 0 {
      hide SampleOf, Pollable;
      UpdatesFollowMembers(c, blocks, replies, k - 1);
      var b := blocks[k - 1];
      forall j | 0 <= j < |b.points|
        ensures b.points[j].pointIndex < |c.points|
        ensures BlockUpdates(c, b, replies[k - 1])[j].key == KeyOf(c, MembersOf(b)[j].index)
      {
        assert b.points[j] in b.points;
      }
    }
  }

  lemma PlanIsValid(c: Config, order: seq<RegisterType>)
    requires Pollable(c.points) && IsTypeOrder(order)
    ensures ValidPlan(c, Plan(c.points, order))
  {
    hide Plan, Pollable;
    forall b <- Plan(c.points, order), p <- b.points ensures p.pointIndex < |c.points| {
      PlannedPoint(c.points, order, b, p);
    }
  }

  lemma PlanUpdatesDistinct(c: Config, order: seq<RegisterType>, replies: seq<BlockReply>)
    requires Pollable(c.points) && IsTypeOrder(order) && DistinctIds(c)
    requires |replies| == |Plan(c.points, order)|
    ensures ValidPlan(c, Plan(c.points, order))
    ensures DistinctKeys(Updates(c, Plan(c.points, order), replies))
  {
    hide Plan, Pollable, UpdatesFirst, FlattenFirst;
    var blocks := Plan(c.points, order);
    PlanIsValid(c, order);
    UpdatesFollowMembers(c, blocks, replies, |blocks|);
    PlanIndicesDistinct(c.points, order);
    var us, ms := Updates(c, blocks, replies), Flatten(blocks);
    forall i, j | 0 <= i < j < |us| ensures us[i].key != us[j].key {
      assert ms[i].index != ms[j].index;
    }
  }

  lemma {:induction false} UpdateIsThere(c: Config, blocks: seq<Block>, replies: seq<BlockReply>, n: nat, k: nat, j: nat)
    requires ValidPlan(c, blocks) && |replies| == |blocks| && k < n <= |blocks| && j < |blocks[k].points|
    ensures BlockUpdates(c, blocks[k], replies[k])[j] in UpdatesFirst(c, blocks, replies, n)
  {
    hide SampleOf, Pollable, BlockUpdates;
    if k < n - 1 {
      UpdateIsThere(c, blocks, replies, n - 1, k, j);
    }
  }

  // ----- the down flags at the end of a cycle -----

  // Two entries that differ at most in the DOWN flag.
  ghost predicate SameButDown(a: Option<Entry>, b: Option<Entry>) {
    && (a.Some? <==> b.Some?)
    && (a.Some? ==>
          && a.value.value == b.value.value
          && Has(a.value.status, FAULT) == Has(b.value.status, FAULT)
          && Others(a.value.status) == Others(b.value.status))
  }

  predicate CarriesDown(e: Option<Entry>) {
    e.Some? && Has(e.value.status, DOWN)
  }

  lemma FlaggedAt(store: map<PointKey, Entry>, flagged: PointKey, key: PointKey)
    ensures var after := Flagged(store, flagged, DOWN);
            && SameButDown(Lookup(after, key), Lookup(store, key))
            && (key in store ==> (CarriesDown(Lookup(after, key)) <==> CarriesDown(Lookup(store, key)) || flagged == key))
  {
    hide Has, SetFlag, Others;
    if key in store {
      DownFlagFacts(store[key].status);
    }
  }

  lemma {:induction false} AllFlaggedAt(c: Config, store: map<PointKey, Entry>, n: nat, key: PointKey)
    requires n <= |c.points|
    ensures SameButDown(Lookup(AllFlagged(c, store, n), key), Lookup(store, key))
    ensures key in store ==> (CarriesDown(Lookup(AllFlagged(c, store, n), key)) <==>
              CarriesDown(Lookup(store, key)) || exists i | 0 <= i < n :: KeyOf(c, i) == key)
  {
    if n > 0 {
      hide Has, Others, Flagged, KeyOf, CarriesDown;
      AllFlaggedAt(c, store, n - 1, key);
      FlaggedAt(AllFlagged(c, store, n - 1), KeyOf(c, n - 1), key);
    }
  }

  lemma {:induction false} AllUnflaggedAt(c: Config, store: map<PointKey, Entry>, n: nat, key: PointKey)
    requires n <= |c.points|
    ensures SameButDown(Lookup(AllUnflagged(c, store, n), key), Lookup(store, key))
    ensures key in store ==> (CarriesDown(Lookup(AllUnflagged(c, store, n), key)) <==>
              CarriesDown(Lookup(store, key)) && forall i | 0 <= i < n :: KeyOf(c, i) != key)
  {
    if n > 0 {
      hide Has, ClearFlag, Others;
      AllUnflaggedAt(c, store, n - 1, key);
      var before := AllUnflagged(c, store, n - 1);
      if key in before {
        DownFlagFacts(before[key].status);
      }
    }
  }

  lemma SettledAt(c: Config, s: LoopState, now: int, failed: bool, key: PointKey)
    ensures SameButDown(Lookup(Settled(c, s, now, failed).store, key), Lookup(s.store, key))
  {
    hide Has, Others, AllFlagged, AllUnflagged;
    AllFlaggedAt(c, s.store, |c.points|, key);
    AllUnflaggedAt(c, s.store, |c.points|, key);
  }

  // ----- the fault flag, value and other flags of every point after a cycle -----

  // How a cycle that learned `sample` about a point turns its entry `pre` into `post`.
  ghost predicate FollowsSample(sample: Sample, pre: Option<Entry>, post: Option<Entry>) {
    && (sample.Value? ==> post.Some? && post.value.value == sample.v && !Has(post.value.status, FAULT))
    && (sample.Fault? ==> (post.Some? <==> pre.Some?))
    && (sample.Fault? && pre.Some? ==> post.value.value == pre.value.value && Has(post.value.status, FAULT))
    && (post.Some? ==> Others(post.value.status) == if pre.Some? then Others(pre.value.status) else 0)
  }

  lemma AppliedFollowsSample(store: map<PointKey, Entry>, u: Update)
    ensures FollowsSample(u.sample, Lookup(store, u.key), Lookup(Applied(store, u), u.key))
  {
    hide Has, SetFlag, ClearFlag, Others, Applied;
    AppliedAt(store, u, u.key);
    NoFlagFacts();
    FaultFlagFacts(if u.key in store then store[u.key].status else 0);
  }

  // With distinct point ids, after a cycle a known point is faulted exactly when its block read
  // failed or its slice fell past a short response. It then keeps its last value; otherwise it
  // has the decoded one. Flags other than FAULT and DOWN stay as they were.
  lemma CycleFollowsSamples(c: Config, order: seq<RegisterType>, s: LoopState, now: int, replies: seq<BlockReply>, k: nat, j: nat)
    requires Pollable(c.points) && IsTypeOrder(order) && DistinctIds(c)
    requires |replies| == |Plan(c.points, order)|
    requires k < |replies| && j < |Plan(c.points, order)[k].points|
    ensures var blocks := Plan(c.points, order);
            var p := blocks[k].points[j];
            && ValidPlan(c, blocks) && p.pointIndex < |c.points|
            && var key := KeyOf(c, p.pointIndex);
               FollowsSample(SampleOf(c.points, c.setup, blocks[k], p, replies[k]),
                             Lookup(s.store, key), Lookup(Cycle(c, blocks, s, now, replies).store, key))
  {
    hide Plan, Pollable, Has, Others, SampleOf, UpdatesFirst, AppliedFirst, Settled, Applied;
    var blocks := Plan(c.points, order);
    var p := blocks[k].points[j];
    PlanUpdatesDistinct(c, order, replies);
    assert blocks[k] in blocks && p in blocks[k].points;
    var us := Updates(c, blocks, replies);
    var u := BlockUpdates(c, blocks[k], replies[k])[j];
    UpdateIsThere(c, blocks, replies, |blocks|, k, j);
    var i :| 0 <= i < |us| && us[i] == u;
    AppliedOnce(s.store, us, |us|, i);
    AppliedFollowsSample(s.store, u);
    SettledAt(c, s.(store := AppliedFirst(s.store, us, |us|)), now, AnyError(replies), u.key);
  }

  // What a reply to a block read holds for a point `offset` units into the block: nothing usable when
  // the read failed or the reply ends before the point does.
  predicate Misses(reply: BlockReply, offset: nat, units: nat) {
    match reply
    case Error => true
    case Bits(bits) => offset >= |bits|
    case Words(words) => offset + units > |words|
  }

  // The same on the store alone, with distinct point ids. If the reply misses a point, its entry, if any,
  // keeps its value and carries FAULT, and a new one is not made. If not, the entry holds the bit of the
  // point, or what its registers decode to, and does not carry FAULT.
  lemma CycleDecidesPoint(c: Config, order: seq<RegisterType>, s: LoopState, now: int, replies: seq<BlockReply>, k: nat, j: nat)
    requires Pollable(c.points) && IsTypeOrder(order) && DistinctIds(c)
    requires |replies| == |Plan(c.points, order)|
    requires k < |replies| && j < |Plan(c.points, order)[k].points|
    ensures var blocks := Plan(c.points, order);
            var i := blocks[k].points[j].pointIndex;
            && ValidPlan(c, blocks) && i < |c.points|
            && var m := c.points[i].mapping;
               var offset, units := m.address - blocks[k].startAddress, UnitsOf(m);
               var key := PointKey(c.device, c.points[i].pointId);
               var pre, post := Lookup(s.store, key), Lookup(Cycle(c, blocks, s, now, replies).store, key);
               && offset >= 0
               && (pre.Some? ==> post.Some? && (post.value.status & FAULT != 0 <==> Misses(replies[k], offset, units)))
               && (Misses(replies[k], offset, units) ==>
                     (post.Some? <==> pre.Some?) && (pre.Some? ==> post.value.value == pre.value.value))
               && (!Misses(replies[k], offset, units) ==>
                     && post.Some? && post.value.status & FAULT == 0
                     && post.value.value ==
                          match replies[k]
                          case Bits(bits) => Bool(bits[offset])
                          case Words(words) => DecodePoint(m, words[offset..offset + units], c.setup))
  {
    hide Plan, Pollable, Cycle, Others, ValidPlan, DecodePoint;
    var b := Plan(c.points, order)[k];
    CycleFollowsSamples(c, order, s, now, replies, k, j);
    assert b in Plan(c.points, order) && b.points[j] in b.points;
    PlannedPoint(c.points, order, b, b.points[j]);
  }

  // A cycle leaves every other point of the store alone, whatever its flags.
  lemma CycleLeavesOthers(c: Config, blocks: seq<Block>, s: LoopState, now: int, replies: seq<BlockReply>, key: PointKey)
    requires ValidPlan(c, blocks) && |replies| == |blocks|
    requires forall i | 0 <= i < |c.points| :: KeyOf(c, i) != key
    ensures SameButDown(Lookup(Cycle(c, blocks, s, now, replies).store, key), Lookup(s.store, key))
    ensures CarriesDown(Lookup(Cycle(c, blocks, s, now, replies).store, key)) == CarriesDown(Lookup(s.store, key))
  {
    hide Pollable, Has, Others, UpdatesFirst, FlattenFirst, AllFlagged, AllUnflagged;
    var us := Updates(c, blocks, replies);
    UpdatesFollowMembers(c, blocks, replies, |blocks|);
    AppliedElsewhere(s.store, us, |us|, key);
    var store := AppliedFirst(s.store, us, |us|);
    AllFlaggedAt(c, store, |c.points|, key);
    AllUnflaggedAt(c, store, |c.points|, key);
  }
}
