/** Concurrent use of the alarm engine: every per-rule critical section is one atomic step, and
    the sink is told about a transition in a later step, after the lock is released. */
module AlarmInterleaving {
  import opened Options
  import opened AlarmEngine

  // An `evaluate` call in progress: the rules it still has to visit, and the transition, by its
  // place in the log, that it has made but not yet told the sink.
  datatype Call = Call(e: ValueChanged, rest: seq<Rule>, pending: Option<nat>) {
    predicate Done() { rest == [] && pending == None }
  }

  // `log` lists all transitions in lock order, `heard` the log places in the order the sink hears them.
  datatype System = System(rules: seq<Rule>, core: Core, log: seq<Transition>, heard: seq<nat>, calls: seq<Call>)

  datatype Step =
    | AddRule(r: Rule)
    | Begin(e: ValueChanged)
    | Enter(call: nat)
    | Deliver(call: nat)
    | Ack(ruleId: string, ts: int)

  predicate Enabled(s: System, a: Step) {
    match a
    case AddRule(_) => true
    case Begin(_) => true
    case Enter(i) => i < |s.calls| && s.calls[i].rest != [] && s.calls[i].pending == None
    case Deliver(i) => i < |s.calls| && s.calls[i].pending.Some?
    case Ack(_, _) => true
  }

  function Next(s: System, a: Step, render: Render): System
    requires Enabled(s, a)
  {
    match a
    case AddRule(r) => s.(rules := s.rules + [r])
    case Begin(e) => s.(calls := s.calls + [Call(e, Matching(s.rules, e), None)])
    case Enter(i) =>
      var call := s.calls[i];
      var (core, t) := Critical(s.core, call.rest[0], call.e, render);
      var pending := if t.Some? then Some(|s.log|) else None;
      s.(core := core, log := s.log + ToSeq(t), calls := s.calls[i := call.(rest := call.rest[1..], pending := pending)])
    case Deliver(i) =>
      s.(heard := s.heard + [s.calls[i].pending.value], calls := s.calls[i := s.calls[i].(pending := None)])
    case Ack(ruleId, ts) => s.(core := Acknowledge(s.core, ruleId, ts))
  }

  const INITIAL: System := System([], Core(map[], 1), [], [], [])

  // The states that some interleaving of calls reaches.
  ghost predicate IsRun(states: seq<System>, steps: seq<Step>, render: Render) {
    && |states| == |steps| + 1 && states[0] == INITIAL
    && forall i | 0 <= i < |steps| :: Enabled(states[i], steps[i]) && states[i + 1] == Next(states[i], steps[i], render)
  }

  // Every logged transition is either heard, once, or pending in exactly one call.
  ghost predicate DeliveriesAgree(s: System) {
    && (forall i, j | 0 <= i < j < |s.heard| :: s.heard[i] != s.heard[j])
    && (forall i | 0 <= i < |s.calls| && s.calls[i].pending.Some? :: s.calls[i].pending.value !in s.heard)
    && (forall i, j | 0 <= i < j < |s.calls| && s.calls[i].pending.Some? :: s.calls[i].pending != s.calls[j].pending)
    && (forall k | 0 <= k < |s.log| :: k in s.heard || exists i :: 0 <= i < |s.calls| && s.calls[i].pending == Some(k))
    && (forall k <- s.heard :: k < |s.log|)
    && (forall i | 0 <= i < |s.calls| && s.calls[i].pending.Some? :: s.calls[i].pending.value < |s.log|)
  }

  ghost predicate Invariant(s: System) {
    LogAgrees(s.core, s.log) && DeliveriesAgree(s)
  }

  lemma NextKeepsLog(s: System, a: Step, render: Render)
    requires LogAgrees(s.core, s.log) && Enabled(s, a)
    ensures LogAgrees(Next(s, a, render).core, Next(s, a, render).log)
  {
    hide Critical, Acknowledge, LogAgrees;
    match a
    case AddRule(_) =>
    case Begin(_) =>
    case Enter(i) => CriticalKeepsLog(s.core, s.log, s.calls[i].rest[0], s.calls[i].e, render);
    case Deliver(_) =>
    case Ack(ruleId, ts) => AcknowledgeKeepsLog(s.core, s.log, ruleId, ts);
  }

  lemma EnterKeepsDeliveries(s: System, i: nat, render: Render)
    requires DeliveriesAgree(s) && Enabled(s, Enter(i))
    ensures DeliveriesAgree(Next(s, Enter(i), render))
  {
    hide Critical;
    var s' := Next(s, Enter(i), render);
    forall k | 0 <= k < |s'.log| ensures k in s'.heard || exists j :: 0 <= j < |s'.calls| && s'.calls[j].pending == Some(k) {
      if k == |s.log| {
        assert s'.calls[i].pending == Some(k);
      } else if k !in s.heard {
        var j :| 0 <= j < |s.calls| && s.calls[j].pending == Some(k);
        assert s'.calls[j].pending == Some(k);
      }
    }
  }

  lemma DeliverKeepsDeliveries(s: System, i: nat, render: Render)
    requires DeliveriesAgree(s) && Enabled(s, Deliver(i))
    ensures DeliveriesAgree(Next(s, Deliver(i), render))
  {
    var s' := Next(s, Deliver(i), render);
    var k0 := s.calls[i].pending.value;
    assert s'.heard == s.heard + [k0];
    forall k | 0 <= k < |s'.log| ensures k in s'.heard || exists j :: 0 <= j < |s'.calls| && s'.calls[j].pending == Some(k) {
      if k !in s.heard && k != k0 {
        var j :| 0 <= j < |s.calls| && s.calls[j].pending == Some(k);
        assert s'.calls[j].pending == Some(k);
      }
    }
  }

  lemma BeginKeepsDeliveries(s: System, e: ValueChanged, render: Render)
    requires DeliveriesAgree(s)
    ensures DeliveriesAgree(Next(s, Begin(e), render))
  {
    var s' := Next(s, Begin(e), render);
    forall k | 0 <= k < |s'.log| ensures k in s'.heard || exists j :: 0 <= j < |s'.calls| && s'.calls[j].pending == Some(k) {
      if k !in s.heard {
        var j :| 0 <= j < |s.calls| && s.calls[j].pending == Some(k);
        assert s'.calls[j].pending == Some(k);
      }
    }
  }

  lemma NextKeepsInvariant(s: System, a: Step, render: Render)
    requires Invariant(s) && Enabled(s, a)
    ensures Invariant(Next(s, a, render))
  {
    hide LogAgrees;
    NextKeepsLog(s, a, render);
    match a
    case AddRule(_) =>
    case Begin(e) => BeginKeepsDeliveries(s, e, render);
    case Enter(i) => EnterKeepsDeliveries(s, i, render);
    case Deliver(i) => DeliverKeepsDeliveries(s, i, render);
    case Ack(_, _) =>
  }

  lemma {:induction false} RunKeepsInvariant(states: seq<System>, steps: seq<Step>, render: Render, n: nat)
    requires IsRun(states, steps, render) && n < |states|
    ensures Invariant(states[n])
  {
    if n > 0 {
      hide Next, Invariant, Enabled;
      RunKeepsInvariant(states, steps, render, n - 1);
      NextKeepsInvariant(states[n - 1], steps[n - 1], render);
    }
  }

  // Under every interleaving, in lock order: triggers and clears of a rule alternate, starting with
  // a trigger; a clear carries the id, time, value and message of its own trigger; a rule is
  // active exactly when its last transition is a trigger; and no alarm id is issued twice.
  lemma TransitionsAlternate(states: seq<System>, steps: seq<Step>, render: Render, n: nat)
    requires IsRun(states, steps, render) && n < |states|
    ensures var s := states[n];
            && (forall j | 0 <= j < |s.log| :: FollowsIts(s.log, j))
            && (forall r :: r in s.core.active <==>
                  Last(s.log, |s.log|, r).Some? && Last(s.log, |s.log|, r).value.OnTriggered?)
            && (forall i, j | 0 <= i < j < |s.log| && s.log[i].OnTriggered? && s.log[j].OnTriggered? ::
                  s.log[i].alarm.id != s.log[j].alarm.id)
  {
    RunKeepsInvariant(states, steps, render, n);
    var s := states[n];
    forall r ensures r in s.core.active <==>
                       Last(s.log, |s.log|, r).Some? && Last(s.log, |s.log|, r).value.OnTriggered? {
      assert ActiveAgrees(s.core, s.log, r);
    }
    forall i, j | 0 <= i < j < |s.log| && s.log[i].OnTriggered? && s.log[j].OnTriggered?
      ensures s.log[i].alarm.id != s.log[j].alarm.id
    {
      TriggerIdsDistinct(s.core, s.log, i, j);
    }
  }

  // The step is a critical section of a rule with this id.
  predicate IsSection(s: System, a: Step, id: string) {
    a.Enter? && Enabled(s, a) && s.calls[a.call].rest[0].id == id
  }

  // The step is a critical section, and the value trips the condition of its rule.
  predicate Trips(s: System, a: Step) {
    a.Enter? && Enabled(s, a) && s.calls[a.call].rest[0].condition.Trips(s.calls[a.call].e.value)
  }

  // Of the first `n` steps, the one at `k` is the last critical section of the id, and tripped.
  ghost predicate LastSectionAt(states: seq<System>, steps: seq<Step>, n: nat, id: string, k: nat)
    requires n <= |steps| < |states|
  {
    && k < n && IsSection(states[k], steps[k], id) && Trips(states[k], steps[k])
    && forall j | k < j < n :: !IsSection(states[j], steps[j], id)
  }

  ghost predicate LastSectionTripped(states: seq<System>, steps: seq<Step>, n: nat, id: string)
    requires n <= |steps| < |states|
  {
    exists k: nat :: LastSectionAt(states, steps, n, id, k)
  }

  lemma SectionDecides(s: System, a: Step, render: Render, id: string)
    requires Enabled(s, a)
    ensures id in Next(s, a, render).core.active
            <==> if IsSection(s, a, id) then Trips(s, a) else id in s.core.active
  {
    hide Condition.Trips, Critical, Matching;
    if a.Enter? {
      CriticalDecides(s.core, s.calls[a.call].rest[0], s.calls[a.call].e, render, id);
    }
  }

  lemma LastSectionStep(states: seq<System>, steps: seq<Step>, n: nat, id: string)
    requires 0 < n <= |steps| < |states|
    ensures LastSectionTripped(states, steps, n, id)
            <==> if IsSection(states[n - 1], steps[n - 1], id) then Trips(states[n - 1], steps[n - 1])
                 else LastSectionTripped(states, steps, n - 1, id)
  {
    hide IsSection, Trips;
    var last := n - 1;
    if LastSectionTripped(states, steps, last, id) && !IsSection(states[last], steps[last], id) {
      var k: nat :| LastSectionAt(states, steps, last, id, k);
      assert LastSectionAt(states, steps, n, id, k);
    }
    if LastSectionTripped(states, steps, n, id) {
      var k: nat :| LastSectionAt(states, steps, n, id, k);
      assert k < last ==> LastSectionAt(states, steps, last, id, k);
    }
    if Trips(states[last], steps[last]) && IsSection(states[last], steps[last], id) {
      assert LastSectionAt(states, steps, n, id, last);
    }
  }

  // Under every interleaving, an alarm is active for a rule id exactly when, of the critical sections of
  // that id so far, the last one in lock order had a tripping value.
  lemma {:induction false} ActiveFollowsLastSection(states: seq<System>, steps: seq<Step>, render: Render, n: nat, id: string)
    requires IsRun(states, steps, render) && n < |states|
    ensures id in states[n].core.active <==> LastSectionTripped(states, steps, n, id)
  {
    if n > 0 {
      hide Next, Enabled, IsSection, Trips, LastSectionTripped;
      ActiveFollowsLastSection(states, steps, render, n - 1, id);
      SectionDecides(states[n - 1], steps[n - 1], render, id);
      LastSectionStep(states, steps, n, id);
    }
  }

  // Every transition reaches the sink at most once, and exactly once when all calls have returned.
  lemma DeliveredOnce(states: seq<System>, steps: seq<Step>, render: Render, n: nat)
    requires IsRun(states, steps, render) && n < |states|
    ensures var s := states[n];
            && (forall i, j | 0 <= i < j < |s.heard| :: s.heard[i] != s.heard[j])
            && (forall k <- s.heard :: k < |s.log|)
            && ((forall i | 0 <= i < |s.calls| :: s.calls[i].Done()) ==> forall k | 0 <= k < |s.log| :: k in s.heard)
  {
    hide LogAgrees;
    RunKeepsInvariant(states, steps, render, n);
  }

  // The two critical sections of the run below.
  lemma TriggerThenClear(rule: Rule, high: ValueChanged, low: ValueChanged, render: Render)
    requires rule.condition.Trips(high.value) && !rule.condition.Trips(low.value)
    ensures var a := NewAlarm(INITIAL.core, rule, high, render);
            && Critical(INITIAL.core, rule, high, render) == (Core(map[rule.id := a], 2), Some(OnTriggered(a)))
            && Critical(Core(map[rule.id := a], 2), rule, low, render)
                 == (Core(map[], 2), Some(OnCleared(a.(status := Cleared, clearedTs := Some(low.ts)))))
  {
    hide NewAlarm;
    var a := NewAlarm(INITIAL.core, rule, high, render);
    assert map[rule.id := a] - {rule.id} == map[];
  }

  lemma OneRuleMatches(rule: Rule, e: ValueChanged)
    requires Watches(rule, e)
    ensures Matching([rule], e) == [rule]
  {
    assert MatchingFirst([rule], e, 0) == [];
  }

  ghost predicate FewCalls(states: seq<System>) {
    forall s <- states :: |s.calls| <= 2 && |s.rules| <= 1
  }

  // Two calls for the same node, neither of which has visited the rule yet.
  lemma TwoCallsBegun(rule: Rule, high: ValueChanged, low: ValueChanged, render: Render)
    returns (states: seq<System>, steps: seq<Step>)
    requires Watches(rule, high) && Watches(rule, low)
    ensures IsRun(states, steps, render) && |states| > 0 && FewCalls(states)
    ensures states[|states| - 1] ==
            System([rule], INITIAL.core, [], [], [Call(high, [rule], None), Call(low, [rule], None)])
  {
    hide Matching, IsRun;
    OneRuleMatches(rule, high);
    OneRuleMatches(rule, low);
    states, steps := EmptyRun(render);
    var s := System([rule], INITIAL.core, [], [], []);
    states, steps := ExtendRun(states, steps, AddRule(rule), s, render);
    s := s.(calls := [Call(high, [rule], None)]);
    states, steps := ExtendRun(states, steps, Begin(high), s, render);
    s := s.(calls := s.calls + [Call(low, [rule], None)]);
    states, steps := ExtendRun(states, steps, Begin(low), s, render);
  }

  // Lock order is not sink order: a call that is overtaken between its critical section and its
  // sink call lets the sink hear a clear before the trigger it clears.
  lemma SinkMayHearClearFirst(render: Render) returns (states: seq<System>, steps: seq<Step>)
    ensures IsRun(states, steps, render) && |states| > 0 && FewCalls(states)
    ensures var s := states[|states| - 1];
            && (forall i | 0 <= i < |s.calls| :: s.calls[i].Done())
            && |s.log| == 2 && s.heard == [1, 0] && s.log[0].OnTriggered? && s.log[1].OnCleared?
            && s.log[0].alarm.ruleId == s.log[1].alarm.ruleId
  {
    hide Critical, Matching, IsRun, AlarmId;
    var rule := Rule("r", "n", Gt(0.0), "", true);
    var high, low := ValueChanged("n", 1.0, 1), ValueChanged("n", -1.0, 2);
    TriggerThenClear(rule, high, low, render);
    assert [rule][1..] == [];
    var a := NewAlarm(INITIAL.core, rule, high, render);
    var b := a.(status := Cleared, clearedTs := Some(2));
    states, steps := TwoCallsBegun(rule, high, low, render);
    var triggered, log := Call(high, [], Some(0)), [OnTriggered(a), OnCleared(b)];
    states, steps := ExtendRun(states, steps, Enter(0),
      System([rule], Core(map["r" := a], 2), log[..1], [], [triggered, Call(low, [rule], None)]), render);
    var s := System([rule], Core(map[], 2), log, [], [triggered, Call(low, [], Some(1))]);
    states, steps := ExtendRun(states, steps, Enter(1), s, render);
    s := s.(heard := [1], calls := [triggered, Call(low, [], None)]);
    states, steps := ExtendRun(states, steps, Deliver(1), s, render);
    s := s.(heard := [1, 0], calls := [Call(high, [], None), Call(low, [], None)]);
    states, steps := ExtendRun(states, steps, Deliver(0), s, render);
  }

  lemma EmptyRun(render: Render) returns (states: seq<System>, steps: seq<Step>)
    ensures IsRun(states, steps, render) && states == [INITIAL]
  {
    states, steps := [INITIAL], [];
  }

  lemma ExtendRun(states: seq<System>, steps: seq<Step>, a: Step, s: System, render: Render)
    returns (states': seq<System>, steps': seq<Step>)
    requires IsRun(states, steps, render) && |states| > 0
    requires Enabled(states[|states| - 1], a) && Next(states[|states| - 1], a, render) == s
    ensures IsRun(states', steps', render) && |states'| > 0 && states'[|states'| - 1] == s
    ensures FewCalls(states) && |s.calls| <= 2 && |s.rules| <= 1 ==> FewCalls(states')
  {
    hide Next, Enabled;
    states', steps' := states + [s], steps + [a];
  }
}
