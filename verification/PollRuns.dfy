/** Whole runs of the poll loop: lifecycle events, down flags and retry times. */
module PollRuns {
  import opened Options
  import opened ModbusTypes
  import opened BlockPlanner
  import opened DeviceAccess
  import opened LivePoints
  import opened PollLoop
  import opened PollFlags
  import B = DeviceBackoff

  // A wake of the loop: when it happens, and what each block read would bring back.
  datatype WakeUp = WakeUp(now: int, replies: seq<BlockReply>)

  ghost predicate ValidRun(blocks: seq<Block>, ws: seq<WakeUp>) {
    forall i | 0 <= i < |ws| :: |ws[i].replies| == |blocks|
  }

  function Run(c: Config, blocks: seq<Block>, s: LoopState, ws: seq<WakeUp>, n: nat): LoopState
    requires ValidPlan(c, blocks) && ValidRun(blocks, ws) && n <= |ws|
  {
    if n == 0 then s else Woken(c, blocks, Run(c, blocks, s, ws, n - 1), ws[n - 1].now, ws[n - 1].replies)
  }

  predicate Fresh(s: LoopState) {
    s.backoff.failures == 0 && !s.backoff.wasDown && s.events == [] && s.attempts == []
  }

  // ----- the event log, read off the history of attempts -----

  // The number of consecutive failures that ends the first `n` attempts.
  function Streak(attempts: seq<bool>, n: nat): (k: nat)
    requires n <= |attempts|
    ensures k <= n
    ensures forall i | n - k <= i < n :: attempts[i]
  {
    if n == 0 || !attempts[n - 1] then 0 else 1 + Streak(attempts, n - 1)
  }

  // Down at the fifth failure of a streak; recovered at the first clean attempt after five or more.
  function EventsAt(attempts: seq<bool>, n: nat): seq<LifecycleEvent>
    requires n < |attempts|
  {
    if Streak(attempts, n + 1) == B.DEVICE_DOWN_THRESHOLD then [DeviceDown]
    else if Streak(attempts, n) >= B.DEVICE_DOWN_THRESHOLD && !attempts[n] then [DeviceRecovered]
    else []
  }

  function EventsOf(attempts: seq<bool>, n: nat): seq<LifecycleEvent>
    requires n <= |attempts|
  {
    if n == 0 then [] else EventsOf(attempts, n - 1) + EventsAt(attempts, n - 1)
  }

  ghost predicate Consistent(s: LoopState) {
    var n := |s.attempts|;
    && s.backoff.failures == B.Min(Streak(s.attempts, n), B.U32_MAX)
    && (s.backoff.wasDown <==> Streak(s.attempts, n) >= B.DEVICE_DOWN_THRESHOLD)
    && s.events == EventsOf(s.attempts, n)
  }

  lemma {:induction false} StreakOfPrefix(a: seq<bool>, b: bool, n: nat)
    requires n <= |a|
    ensures Streak(a + [b], n) == Streak(a, n)
  {
    if n > 0 {
      StreakOfPrefix(a, b, n - 1);
    }
  }

  lemma {:induction false} EventsOfPrefix(a: seq<bool>, b: bool, n: nat)
    requires n <= |a|
    ensures EventsOf(a + [b], n) == EventsOf(a, n)
  {
    if n > 0 {
      EventsOfPrefix(a, b, n - 1);
      StreakOfPrefix(a, b, n);
      StreakOfPrefix(a, b, n - 1);
    }
  }

  lemma SettledStaysConsistent(c: Config, s: LoopState, now: int, failed: bool)
    requires Consistent(s)
    ensures Consistent(Settled(c, s, now, failed))
  {
    hide AllFlagged, AllUnflagged, B.DelayMs;
    var n := |s.attempts|;
    StreakOfPrefix(s.attempts, failed, n);
    EventsOfPrefix(s.attempts, failed, n);
  }

  // After any run, the failure count, the down mark and the whole event log are those that the
  // history of attempts calls for.
  lemma {:induction false} RunIsConsistent(c: Config, blocks: seq<Block>, s: LoopState, ws: seq<WakeUp>, n: nat)
    requires ValidPlan(c, blocks) && ValidRun(blocks, ws) && n <= |ws| && Fresh(s)
    ensures Consistent(Run(c, blocks, s, ws, n))
  {
    if n > 0 {
      hide Settled, Consistent, ValidPlan, AppliedFirst, Updates;
      RunIsConsistent(c, blocks, s, ws, n - 1);
      var before := Run(c, blocks, s, ws, n - 1);
      var us := Updates(c, blocks, ws[n - 1].replies);
      var sampled := before.(store := AppliedFirst(before.store, us, |us|));
      assert Consistent(sampled) by { SameLogConsistent(before, sampled); }
      SettledStaysConsistent(c, sampled, ws[n - 1].now, AnyError(ws[n - 1].replies));
    } else {
      FreshIsConsistent(s);
    }
  }

  lemma SameLogConsistent(a: LoopState, b: LoopState)
    requires Consistent(a) && b == a.(store := b.store)
    ensures Consistent(b)
  {
  }

  lemma FreshIsConsistent(s: LoopState)
    requires Fresh(s)
    ensures Consistent(s)
  {
  }

  // The log alternates, starting with a down event, and ends on one exactly while a streak of
  // five or more failures lasts.
  lemma {:induction false} EventsAlternate(attempts: seq<bool>, n: nat)
    requires n <= |attempts|
    ensures var es := EventsOf(attempts, n);
            && (forall i | 0 <= i < |es| :: es[i] == if i % 2 == 0 then DeviceDown else DeviceRecovered)
            && (|es| % 2 == 1 <==> Streak(attempts, n) >= B.DEVICE_DOWN_THRESHOLD)
  {
    if n > 0 {
      EventsAlternate(attempts, n - 1);
    }
  }

  // In every run the events alternate, starting with a down event, and the device is marked down
  // exactly while the last one is a down event; that is while five or more attempts in a row have failed.
  lemma RunEventsAlternate(c: Config, blocks: seq<Block>, s: LoopState, ws: seq<WakeUp>, n: nat)
    requires ValidPlan(c, blocks) && ValidRun(blocks, ws) && n <= |ws| && Fresh(s)
    ensures var r := Run(c, blocks, s, ws, n);
            && (forall i | 0 <= i < |r.events| :: r.events[i] == if i % 2 == 0 then DeviceDown else DeviceRecovered)
            && (r.backoff.wasDown <==> r.events != [] && r.events[|r.events| - 1] == DeviceDown)
            && (r.backoff.wasDown <==> Streak(r.attempts, |r.attempts|) >= B.DEVICE_DOWN_THRESHOLD)
  {
    hide Run, ValidPlan, EventsOf, Streak;
    RunIsConsistent(c, blocks, s, ws, n);
    var r := Run(c, blocks, s, ws, n);
    EventsAlternate(r.attempts, |r.attempts|);
  }

  // ----- down flags -----

  lemma {:induction false} AppliedKeepsDown(store: map<PointKey, Entry>, us: seq<Update>, n: nat, key: PointKey)
    requires n <= |us| && key in store
    ensures key in AppliedFirst(store, us, n)
    ensures CarriesDown(Lookup(AppliedFirst(store, us, n), key)) == CarriesDown(Lookup(store, key))
  {
    if n > 0 {
      hide Applied, Has, SetFlag, ClearFlag;
      AppliedKeepsDown(store, us, n - 1, key);
      var before := AppliedFirst(store, us, n - 1);
      AppliedAt(before, us[n - 1], key);
      FaultFlagFacts(before[key].status);
    }
  }

  lemma {:induction false} AppliedKeepsAbsent(store: map<PointKey, Entry>, us: seq<Update>, n: nat, key: PointKey)
    requires n <= |us| && key !in store
    requires forall i | 0 <= i < |us| :: us[i].sample == Fault
    ensures key !in AppliedFirst(store, us, n)
  {
    if n > 0 {
      hide Applied;
      AppliedKeepsAbsent(store, us, n - 1, key);
      AppliedAt(AppliedFirst(store, us, n - 1), us[n - 1], key);
    }
  }

  ghost predicate AllKnown(c: Config, s: LoopState) {
    forall i | 0 <= i < |c.points| :: KeyOf(c, i) in s.store
  }

  // Every configured point carries DOWN exactly while the device is marked down.
  ghost predicate DownFlagsAgree(c: Config, s: LoopState) {
    forall i | 0 <= i < |c.points| :: CarriesDown(Lookup(s.store, KeyOf(c, i))) == s.backoff.wasDown
  }

  lemma SettledKeepsDownFlags(c: Config, s: LoopState, now: int, failed: bool)
    requires AllKnown(c, s) && DownFlagsAgree(c, s)
    ensures AllKnown(c, Settled(c, s, now, failed)) && DownFlagsAgree(c, Settled(c, s, now, failed))
  {
    hide Has, AllFlagged, AllUnflagged, Others, B.DelayMs;
    forall i | 0 <= i < |c.points|
      ensures KeyOf(c, i) in Settled(c, s, now, failed).store
      ensures CarriesDown(Lookup(Settled(c, s, now, failed).store, KeyOf(c, i))) == Settled(c, s, now, failed).backoff.wasDown
    {
      AllFlaggedAt(c, s.store, |c.points|, KeyOf(c, i));
      AllUnflaggedAt(c, s.store, |c.points|, KeyOf(c, i));
    }
  }

  lemma {:induction false} RunKeepsDownFlags(c: Config, blocks: seq<Block>, s: LoopState, ws: seq<WakeUp>, n: nat)
    requires ValidPlan(c, blocks) && ValidRun(blocks, ws) && n <= |ws|
    requires AllKnown(c, s) && DownFlagsAgree(c, s)
    ensures AllKnown(c, Run(c, blocks, s, ws, n)) && DownFlagsAgree(c, Run(c, blocks, s, ws, n))
  {
    if n > 0 {
      hide Settled, ValidPlan, AppliedFirst, Updates, CarriesDown;
      RunKeepsDownFlags(c, blocks, s, ws, n - 1);
      var before := Run(c, blocks, s, ws, n - 1);
      var us := Updates(c, blocks, ws[n - 1].replies);
      var sampled := before.(store := AppliedFirst(before.store, us, |us|));
      forall i | 0 <= i < |c.points|
        ensures KeyOf(c, i) in sampled.store
        ensures CarriesDown(Lookup(sampled.store, KeyOf(c, i))) == CarriesDown(Lookup(before.store, KeyOf(c, i)))
      {
        AppliedKeepsDown(before.store, us, |us|, KeyOf(c, i));
      }
      SettledKeepsDownFlags(c, sampled, ws[n - 1].now, AnyError(ws[n - 1].replies));
    }
  }

  // Five failing attempts, far enough apart that none is skipped.
  function FailingRun(blocks: seq<Block>, start: int, n: nat): (ws: seq<WakeUp>)
    ensures |ws| == n && ValidRun(blocks, ws)
  {
    var errors := seq(|blocks|, _ => Error);
    seq(n, i requires 0 <= i < n => WakeUp(start + 300_000 * i, errors))
  }

  lemma {:induction false} ErrorsFaultEverything(c: Config, blocks: seq<Block>, replies: seq<BlockReply>, k: nat)
    requires ValidPlan(c, blocks) && |replies| == |blocks| && k <= |blocks|
    requires forall i | 0 <= i < |replies| :: replies[i] == Error
    ensures forall i | 0 <= i < |UpdatesFirst(c, blocks, replies, k)| :: UpdatesFirst(c, blocks, replies, k)[i].sample == Fault
  {
    if k > 0 {
      ErrorsFaultEverything(c, blocks, replies, k - 1);
      var us := BlockUpdates(c, blocks[k - 1], replies[k - 1]);
      forall j | 0 <= j < |us| ensures us[j].sample == Fault {
        assert blocks[k - 1].points[j] in blocks[k - 1].points;
      }
    }
  }

  lemma AllFlaggedKeepsAbsent(c: Config, store: map<PointKey, Entry>, key: PointKey)
    requires key !in store
    ensures key !in AllFlagged(c, store, |c.points|)
  {
    AllFlaggedAt(c, store, |c.points|, key);
  }

  lemma {:induction false} FailingRunGoesDown(c: Config, blocks: seq<Block>, s: LoopState, ws: seq<WakeUp>, n: nat, key: PointKey)
    requires ValidPlan(c, blocks) && blocks != [] && Fresh(s) && key !in s.store
    requires ws == FailingRun(blocks, s.backoff.nextRetry, 5) && n <= 5
    ensures var r := Run(c, blocks, s, ws, n);
            && r.backoff.failures == n && (r.backoff.wasDown <==> n == 5)
            && r.backoff.nextRetry <= s.backoff.nextRetry + 300_000 * n
            && key !in r.store
  {
    if n > 0 {
      hide AllFlagged, ValidPlan, AppliedFirst, Updates, UpdatesFirst, AllUnflagged;
      FailingRunGoesDown(c, blocks, s, ws, n - 1, key);
      var before, w := Run(c, blocks, s, ws, n - 1), ws[n - 1];
      assert w.replies[0] in w.replies;
      var us := Updates(c, blocks, w.replies);
      ErrorsFaultEverything(c, blocks, w.replies, |blocks|);
      AppliedKeepsAbsent(before.store, us, |us|, key);
      AllFlaggedKeepsAbsent(c, AppliedFirst(before.store, us, |us|), key);
    }
  }

  lemma PlanIsNotEmpty(points: seq<PointConfig>, order: seq<RegisterType>)
    requires IsTypeOrder(order) && points != []
    ensures Plan(points, order) != []
  {
    hide Plan;
    PlanPartitions(points, order);
    assert Members(points)[0] in multiset(Members(points));
  }

  lemma UnknownPointMissesDown(c: Config, order: seq<RegisterType>, s: LoopState, i: nat)
    requires Pollable(c.points) && IsTypeOrder(order) && Fresh(s) && i < |c.points| && KeyOf(c, i) !in s.store
    ensures ValidPlan(c, Plan(c.points, order))
    ensures var blocks := Plan(c.points, order);
            var ws := FailingRun(blocks, s.backoff.nextRetry, 5);
            ValidRun(blocks, ws) && !DownFlagsAgree(c, Run(c, blocks, s, ws, 5))
  {
    hide Plan, Pollable, Run;
    PlanIsValid(c, order);
    PlanIsNotEmpty(c.points, order);
    var blocks := Plan(c.points, order);
    FailingRunGoesDown(c, blocks, s, FailingRun(blocks, s.backoff.nextRetry, 5), 5, KeyOf(c, i));
  }

  // Whatever the reads bring and whenever the loop wakes, every configured point carries DOWN exactly
  // while the device is marked down: this holds of all runs exactly when every configured point is in
  // the store from the start, without that flag. The store cannot flag a point it does not know.
  lemma DownFlagsAgreeExactly(c: Config, order: seq<RegisterType>, s: LoopState)
    requires Pollable(c.points) && IsTypeOrder(order) && Fresh(s)
    ensures ValidPlan(c, Plan(c.points, order))
    ensures (forall ws | ValidRun(Plan(c.points, order), ws) :: DownFlagsAgree(c, Run(c, Plan(c.points, order), s, ws, |ws|)))
            <==> (forall i | 0 <= i < |c.points| :: KeyOf(c, i) in s.store && !Has(s.store[KeyOf(c, i)].status, DOWN))
  {
    hide Plan, Pollable, ValidPlan, Has, Updates;
    PlanIsValid(c, order);
    var blocks := Plan(c.points, order);
    if forall i | 0 <= i < |c.points| :: KeyOf(c, i) in s.store && !Has(s.store[KeyOf(c, i)].status, DOWN) {
      forall ws | ValidRun(blocks, ws) ensures DownFlagsAgree(c, Run(c, blocks, s, ws, |ws|)) {
        RunKeepsDownFlags(c, blocks, s, ws, |ws|);
      }
    } else if i :| 0 <= i < |c.points| && KeyOf(c, i) !in s.store {
      UnknownPointMissesDown(c, order, s, i);
    } else {
      assert ValidRun(blocks, []);
      assert Run(c, blocks, s, [], 0) == s;
    }
  }

  // ----- retry times -----

  function CeilDiv(a: nat, b: nat): nat
    requires b > 0
  {
    (a + b - 1) / b
  }

  lemma CeilDivFacts(a: nat, b: nat)
    requires a > 0 && b > 0
    ensures CeilDiv(a, b) > 0
    ensures a <= CeilDiv(a, b) * b < a + b
    ensures forall m: nat | m < CeilDiv(a, b) :: m * b < a
  {
    var q := CeilDiv(a, b);
    assert (a + b - 1) == q * b + (a + b - 1) % b;
    forall m: nat | m < q ensures m * b < a {
      assert m * b <= (q - 1) * b;
    }
  }

  // The loop sleeps a fixed interval before each wake.
  ghost predicate Periodic(ws: seq<WakeUp>, start: int, interval: nat) {
    forall i | 0 <= i < |ws| :: ws[i].now == start + (i + 1) * interval
  }

  lemma {:induction false} SkippedWakesChangeNothing(c: Config, blocks: seq<Block>, s: LoopState, ws: seq<WakeUp>, i: nat, n: nat)
    requires ValidPlan(c, blocks) && ValidRun(blocks, ws) && i <= n <= |ws|
    requires forall m | i <= m < n :: ws[m].now < Run(c, blocks, s, ws, i).backoff.nextRetry
    ensures Run(c, blocks, s, ws, n) == Run(c, blocks, s, ws, i)
  {
    if i < n {
      hide Cycle, ValidPlan;
      SkippedWakesChangeNothing(c, blocks, s, ws, i, n - 1);
    }
  }

  // After a failed attempt at wake `i`, with `k` the length of the failure streak, all wakes before
  // the first one that lies at least min(2^k, 300) seconds later change nothing, and that one
  // attempts again; it comes less than one interval after the delay is over.
  lemma RetryTiming(c: Config, blocks: seq<Block>, s: LoopState, ws: seq<WakeUp>, start: int, interval: nat, i: nat)
    requires ValidPlan(c, blocks) && ValidRun(blocks, ws) && Fresh(s) && Periodic(ws, start, interval) && interval > 0
    requires i < |ws| && !Run(c, blocks, s, ws, i).backoff.SkipsAt(ws[i].now) && AnyError(ws[i].replies)
    ensures var after := Run(c, blocks, s, ws, i + 1);
            var k := Streak(after.attempts, |after.attempts|);
            var delay := 1000 * B.Min(B.Pow(2, k), 300);
            var next := i + CeilDiv(delay, interval);
            && k > 0
            && (forall n | i < n <= next && n <= |ws| :: Run(c, blocks, s, ws, n) == after)
            && delay <= (next - i) * interval < delay + interval
            && (next < |ws| ==> !after.backoff.SkipsAt(ws[next].now) && ws[next].now - ws[i].now == (next - i) * interval)
  {
    hide ValidPlan, Updates, AppliedFirst, AllFlagged, AllUnflagged, AnyError, Streak, EventsOf, B.Pow, Periodic;
    var after := Run(c, blocks, s, ws, i + 1);
    var k := Streak(after.attempts, |after.attempts|);
    DelayAfterFailure(c, blocks, s, ws, i);
    var delay := B.DelayMs(k);
    CeilDivFacts(delay, interval);
    var next := i + CeilDiv(delay, interval);
    forall m | i <= m < |ws| ensures ws[m].now - ws[i].now == (m - i) * interval {
      PeriodicGap(ws, start, interval, i, m);
    }
    forall n | i < n <= next && n <= |ws| ensures Run(c, blocks, s, ws, n) == after {
      forall m | i + 1 <= m < n ensures ws[m].now < after.backoff.nextRetry {
        assert m - i < CeilDiv(delay, interval);
      }
      SkippedWakesChangeNothing(c, blocks, s, ws, i + 1, n);
    }
  }

  lemma PeriodicGap(ws: seq<WakeUp>, start: int, interval: nat, i: nat, m: nat)
    requires Periodic(ws, start, interval) && i <= m < |ws|
    ensures ws[m].now - ws[i].now == (m - i) * interval
  {
  }

  lemma DelayAfterFailure(c: Config, blocks: seq<Block>, s: LoopState, ws: seq<WakeUp>, i: nat)
    requires ValidPlan(c, blocks) && ValidRun(blocks, ws) && Fresh(s)
    requires i < |ws| && !Run(c, blocks, s, ws, i).backoff.SkipsAt(ws[i].now) && AnyError(ws[i].replies)
    ensures var after := Run(c, blocks, s, ws, i + 1);
            var k := Streak(after.attempts, |after.attempts|);
            && k > 0
            && after.backoff.nextRetry == ws[i].now + B.DelayMs(k)
            && B.DelayMs(k) == 1000 * B.Min(B.Pow(2, k), 300) > 0
  {
    hide ValidPlan, Updates, AppliedFirst, AllFlagged, AllUnflagged, AnyError, EventsOf;
    RunIsConsistent(c, blocks, s, ws, i + 1);
    var after := Run(c, blocks, s, ws, i + 1);
    var k := Streak(after.attempts, |after.attempts|);
    assert after.attempts[|after.attempts| - 1];
    B.DelayGrows(0, k);
    SaturatedDelay(k);
  }

  // The saturation of the 32-bit failure count does not show in the delay.
  lemma SaturatedDelay(k: nat)
    ensures B.DelayMs(B.Min(k, B.U32_MAX)) == B.DelayMs(k)
  {
    if k > B.U32_MAX {
      assert B.Pow(2, 9) == 512;
      B.DelayGrows(9, B.U32_MAX);
      B.DelayGrows(9, k);
    }
  }

  // After a clean attempt the very next wake attempts again.
  lemma CleanAttemptIsNotDelayed(c: Config, blocks: seq<Block>, s: LoopState, ws: seq<WakeUp>, start: int, interval: nat, i: nat)
    requires ValidPlan(c, blocks) && ValidRun(blocks, ws) && Periodic(ws, start, interval)
    requires i + 1 < |ws| && !Run(c, blocks, s, ws, i).backoff.SkipsAt(ws[i].now) && !AnyError(ws[i].replies)
    ensures !Run(c, blocks, s, ws, i + 1).backoff.SkipsAt(ws[i + 1].now)
  {
    hide ValidPlan, Updates, AppliedFirst, AllFlagged, AllUnflagged, AnyError, Periodic;
    PeriodicGap(ws, start, interval, i, i + 1);
  }
}
