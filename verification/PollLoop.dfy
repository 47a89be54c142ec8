/** The poll loop of one device: block reads, fault and down flags, backoff and lifecycle events. */
module PollLoop {
  import opened ModbusTypes
  import opened BlockPlanner
  import opened DeviceAccess
  import opened LivePoints
  import B = DeviceBackoff

  datatype LifecycleEvent = DeviceDown | DeviceRecovered

  datatype Config = Config(device: string, points: seq<PointConfig>, setup: Setup)

  // `attempts` records, oldest first, whether each attempted cycle met a read error.
  datatype LoopState = LoopState(
    backoff: B.Backoff,
    store: map<PointKey, Entry>,
    events: seq<LifecycleEvent>,
    attempts: seq<bool>)

  function KeyOf(c: Config, i: nat): PointKey
    requires i < |c.points|
  {
    PointKey(c.device, c.points[i].pointId)
  }

  ghost predicate DistinctIds(c: Config) {
    forall i, j | 0 <= i < j < |c.points| :: c.points[i].pointId != c.points[j].pointId
  }

  // The configuration, and a block list that only mentions configured points.
  ghost predicate ValidPlan(c: Config, blocks: seq<Block>) {
    && Pollable(c.points)
    && forall b <- blocks :: forall p <- b.points :: p.pointIndex < |c.points|
  }

  // ----- one cycle -----

  // What a cycle learns about one point.
  datatype Update = Update(key: PointKey, sample: Sample)

  function Applied(store: map<PointKey, Entry>, u: Update): map<PointKey, Entry> {
    match u.sample
    case Value(v) => Unflagged(Stored(store, u.key, v), u.key, FAULT)
    case Fault => Flagged(store, u.key, FAULT)
  }

  function AppliedFirst(store: map<PointKey, Entry>, us: seq<Update>, n: nat): map<PointKey, Entry>
    requires n <= |us|
  {
    if n == 0 then store else Applied(AppliedFirst(store, us, n - 1), us[n - 1])
  }

  function BlockUpdates(c: Config, b: Block, reply: BlockReply): (us: seq<Update>)
    requires Pollable(c.points) && forall p <- b.points :: p.pointIndex < |c.points|
    ensures |us| == |b.points|
  {
    seq(|b.points|, j requires 0 <= j < |b.points| =>
      assert b.points[j] in b.points;
      Update(KeyOf(c, b.points[j].pointIndex), SampleOf(c.points, c.setup, b, b.points[j], reply)))
  }

  function UpdatesFirst(c: Config, blocks: seq<Block>, replies: seq<BlockReply>, k: nat): seq<Update>
    requires ValidPlan(c, blocks) && |replies| == |blocks| && k <= |blocks|
  {
    if k == 0 then [] else UpdatesFirst(c, blocks, replies, k - 1) + BlockUpdates(c, blocks[k - 1], replies[k - 1])
  }

  function Updates(c: Config, blocks: seq<Block>, replies: seq<BlockReply>): seq<Update>
    requires ValidPlan(c, blocks) && |replies| == |blocks|
  {
    UpdatesFirst(c, blocks, replies, |blocks|)
  }

  predicate AnyError(replies: seq<BlockReply>) {
    exists r <- replies :: r.Error?
  }

  function AllFlagged(c: Config, store: map<PointKey, Entry>, n: nat): map<PointKey, Entry>
    requires n <= |c.points|
  {
    if n == 0 then store else Flagged(AllFlagged(c, store, n - 1), KeyOf(c, n - 1), DOWN)
  }

  function AllUnflagged(c: Config, store: map<PointKey, Entry>, n: nat): map<PointKey, Entry>
    requires n <= |c.points|
  {
    if n == 0 then store else Unflagged(AllUnflagged(c, store, n - 1), KeyOf(c, n - 1), DOWN)
  }

  // The backoff and event step that ends a cycle.
  function Settled(c: Config, s: LoopState, now: int, failed: bool): LoopState {
    var s := s.(attempts := s.attempts + [failed]);
    if failed then
      var b := s.backoff.Failed(now);
      if b.IsDown() && !b.wasDown
      then LoopState(b.(wasDown := true), AllFlagged(c, s.store, |c.points|), s.events + [DeviceDown], s.attempts)
      else s.(backoff := b)
    else
      var b := s.backoff;
      if b.wasDown
      then LoopState(b.(wasDown := false).Succeeded(now), AllUnflagged(c, s.store, |c.points|), s.events + [DeviceRecovered], s.attempts)
      else s.(backoff := b.Succeeded(now))
  }

  function Cycle(c: Config, blocks: seq<Block>, s: LoopState, now: int, replies: seq<BlockReply>): LoopState
    requires ValidPlan(c, blocks) && |replies| == |blocks|
  {
    var us := Updates(c, blocks, replies);
    Settled(c, s.(store := AppliedFirst(s.store, us, |us|)), now, AnyError(replies))
  }

  // One wake of the loop: nothing happens before the next retry time.
  function Woken(c: Config, blocks: seq<Block>, s: LoopState, now: int, replies: seq<BlockReply>): LoopState
    requires ValidPlan(c, blocks) && |replies| == |blocks|
  {
    if s.backoff.SkipsAt(now) then s else Cycle(c, blocks, s, now, replies)
  }

  // ----- the loop itself -----

  lemma {:induction false} AppliedFirstConcat(store: map<PointKey, Entry>, us: seq<Update>, vs: seq<Update>, n: nat)
    requires n <= |vs|
    ensures AppliedFirst(store, us + vs, |us| + n) == AppliedFirst(AppliedFirst(store, us, |us|), vs, n)
  {
    if n == 0 {
      AppliedFirstPrefix(store, us, vs, |us|);
    } else {
      AppliedFirstConcat(store, us, vs, n - 1);
    }
  }

  lemma {:induction false} AppliedFirstPrefix(store: map<PointKey, Entry>, us: seq<Update>, vs: seq<Update>, n: nat)
    requires n <= |us|
    ensures AppliedFirst(store, us + vs, n) == AppliedFirst(store, us, n)
  {
    if n > 0 {
      AppliedFirstPrefix(store, us, vs, n - 1);
    }
  }

  class Poller {
    const config: Config
    const blocks: seq<Block>
    const backoff: B.DeviceBackoff
    const store: PointStore
    var events: seq<LifecycleEvent>
    ghost var attempts: seq<bool>

    ghost predicate Valid() {
      ValidPlan(config, blocks)
    }

    ghost function State(): LoopState
      reads this, backoff, store
    {
      LoopState(backoff.State(), store.data, events, attempts)
    }

    constructor (config: Config, order: seq<RegisterType>, store: PointStore, now: int)
      requires Pollable(config.points) && IsTypeOrder(order)
      ensures Valid() && fresh(backoff) && this.store == store && this.config == config
      ensures blocks == Plan(config.points, order)
      ensures State() == LoopState(B.Backoff(0, now, false), old(store.data), [], [])
    {
      this.config := config;
      this.store := store;
      backoff := new B.DeviceBackoff(now);
      var planned := PlanBlockReads(config.points, order);
      blocks := planned;
      events := [];
      attempts := [];
      forall b <- planned, p <- b.points ensures p.pointIndex < |config.points| {
        PlannedPoint(config.points, order, b, p);
      }
    }

    // Applies the reply to one block read.
    method ApplyBlock(b: Block, reply: BlockReply)
      requires Valid() && b in blocks
      modifies store
      ensures var us := BlockUpdates(config, b, reply); store.data == AppliedFirst(old(store.data), us, |us|)
    {
      hide SampleOf, KeyOf, Pollable, Stored, Flagged, Unflagged;
      ghost var us := BlockUpdates(config, b, reply);
      for j := 0 to |b.points|
        invariant store.data == AppliedFirst(old(store.data), us, j)
      {
        var p := b.points[j];
        assert p in b.points;
        var key := KeyOf(config, p.pointIndex);
        var sample := SampleOf(config.points, config.setup, b, p, reply);
        assert us[j] == Update(key, sample);
        match sample {
          case Value(v) =>
            store.SetIfChanged(key, v);
            store.ClearStatus(key, FAULT);
          case Fault =>
            store.SetStatus(key, FAULT);
        }
      }
    }

    // One wake of the loop, given what each block read would bring back.
    method Wake(now: int, replies: seq<BlockReply>)
      requires Valid() && |replies| == |blocks|
      modifies this, backoff, store
      ensures Valid() && State() == Woken(config, blocks, old(State()), now, replies)
    {
      hide BlockUpdates, Pollable, Settled, Applied;
      if now < backoff.nextRetry {
        return;
      }
      var anyError := false;
      for k := 0 to |blocks|
        modifies store
        invariant anyError <==> exists i | 0 <= i < k :: replies[i].Error?
        invariant var us := UpdatesFirst(config, blocks, replies, k); store.data == AppliedFirst(old(store.data), us, |us|)
      {
        ghost var us, vs := UpdatesFirst(config, blocks, replies, k), BlockUpdates(config, blocks[k], replies[k]);
        ApplyBlock(blocks[k], replies[k]);
        AppliedFirstConcat(old(store.data), us, vs, |vs|);
        if replies[k].Error? {
          anyError := true;
        }
      }
      Settle(now, anyError);
    }

    method Settle(now: int, anyError: bool)
      modifies this, backoff, store
      ensures State() == Settled(config, old(State()), now, anyError)
    {
      attempts := attempts + [anyError];
      if anyError {
        backoff.RecordFailure(now);
        if backoff.failures >= B.DEVICE_DOWN_THRESHOLD && !backoff.wasDown {
          backoff.wasDown := true;
          for i := 0 to |config.points|
            modifies store
            invariant store.data == AllFlagged(config, old(store.data), i)
          {
            store.SetStatus(KeyOf(config, i), DOWN);
          }
          events := events + [DeviceDown];
        }
      } else {
        if backoff.wasDown {
          backoff.wasDown := false;
          for i := 0 to |config.points|
            modifies store
            invariant store.data == AllUnflagged(config, old(store.data), i)
          {
            store.ClearStatus(KeyOf(config, i), DOWN);
          }
          events := events + [DeviceRecovered];
        }
        backoff.RecordSuccess(now);
      }
    }
  }
}
