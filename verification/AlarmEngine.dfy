/** The threshold alarm engine: rules, active alarms, and the transitions handed to a sink. */
module AlarmEngine {
  import opened Options
  import opened Numerals

  datatype Condition =
    | Gt(threshold: real) | Gte(threshold: real) | Lt(threshold: real) | Lte(threshold: real)
    | Eq(threshold: real, epsilon: real) | Ne(threshold: real, epsilon: real)
  {
    predicate Trips(v: real) {
      match this
      case Gt(t) => v > t
      case Gte(t) => v >= t
      case Lt(t) => v < t
      case Lte(t) => v <= t
      case Eq(t, e) => Distance(v, t) <= e
      case Ne(t, e) => Distance(v, t) > e
    }
  }

  function Distance(a: real, b: real): real { if a < b then b - a else a - b }

  datatype Rule = Rule(id: string, nodeId: string, condition: Condition, template: string, enabled: bool)

  datatype Status = Active | Acknowledged | Cleared

  datatype Alarm = Alarm(
    id: string, ruleId: string, nodeId: string, status: Status, triggeredTs: int,
    acknowledgedTs: Option<int>, clearedTs: Option<int>, triggeredValue: real, message: string)

  datatype ValueChanged = ValueChanged(nodeId: string, value: real, ts: int)

  // What the sink is told.
  datatype Transition = OnTriggered(alarm: Alarm) | OnCleared(alarm: Alarm)

  // The state behind the engine's locks.
  datatype Core = Core(active: map<string, Alarm>, nextId: nat)

  // How a rule's message template and a value make a message.
  type Render = (string, real) -> string

  function AlarmId(n: nat): string {
    "alarm-" + PadTo(Print(n), 8)
  }

  lemma AlarmIdInjective(m: nat, n: nat)
    requires AlarmId(m) == AlarmId(n)
    ensures m == n
  {
    assert AlarmId(m)[6..] == PadTo(Print(m), 8);
    assert AlarmId(n)[6..] == PadTo(Print(n), 8);
    ParseOfPaddedPrint(m, 8);
    ParseOfPaddedPrint(n, 8);
  }

  predicate Watches(r: Rule, e: ValueChanged) {
    r.enabled && r.nodeId == e.nodeId
  }

  function MatchingFirst(rules: seq<Rule>, e: ValueChanged, n: nat): seq<Rule>
    requires n <= |rules|
  {
    if n == 0 then []
    else MatchingFirst(rules, e, n - 1) + if Watches(rules[n - 1], e) then [rules[n - 1]] else []
  }

  function Matching(rules: seq<Rule>, e: ValueChanged): seq<Rule> {
    MatchingFirst(rules, e, |rules|)
  }

  function NewAlarm(c: Core, r: Rule, e: ValueChanged, render: Render): Alarm {
    Alarm(AlarmId(c.nextId), r.id, r.nodeId, Active, e.ts, None, None, e.value, render(r.template, e.value))
  }

  // The critical section of one rule: at most one transition, on an edge only.
  function Critical(c: Core, r: Rule, e: ValueChanged, render: Render): (Core, Option<Transition>) {
    var tripped := r.condition.Trips(e.value);
    if r.id !in c.active && tripped then
      var alarm := NewAlarm(c, r, e, render);
      (Core(c.active[r.id := alarm], c.nextId + 1), Some(OnTriggered(alarm)))
    else if r.id in c.active && !tripped then
      (c.(active := c.active - {r.id}),
       Some(OnCleared(c.active[r.id].(status := Cleared, clearedTs := Some(e.ts)))))
    else (c, None)
  }

  function Acknowledge(c: Core, ruleId: string, ts: int): Core {
    if ruleId in c.active
    then c.(active := c.active[ruleId := c.active[ruleId].(status := Acknowledged, acknowledgedTs := Some(ts))])
    else c
  }

  function ToSeq(t: Option<Transition>): seq<Transition> {
    if t.Some? then [t.value] else []
  }

  // The first `n` rules of a snapshot, one critical section each.
  function EvaluateFirst(c: Core, rs: seq<Rule>, e: ValueChanged, render: Render, n: nat): (Core, seq<Transition>)
    requires n <= |rs|
  {
    if n == 0 then (c, [])
    else
      var (before, told) := EvaluateFirst(c, rs, e, render, n - 1);
      var (after, t) := Critical(before, rs[n - 1], e, render);
      (after, told + ToSeq(t))
  }

  class Sink {
    var heard: seq<Transition>

    constructor ()
      ensures heard == []
    {
      heard := [];
    }

    method Hear(t: Transition)
      modifies this
      ensures heard == old(heard) + [t]
    {
      heard := heard + [t];
    }
  }

  class AlarmEngine {
    const render: Render
    var rules: seq<Rule>
    var active: map<string, Alarm>
    var nextId: nat

    function State(): Core
      reads this
    {
      Core(active, nextId)
    }

    constructor (render: Render)
      ensures rules == [] && State() == Core(map[], 1) && this.render == render
    {
      this.render := render;
      rules, active, nextId := [], map[], 1;
    }

    method AddRule(r: Rule)
      modifies this
      ensures rules == old(rules) + [r] && State() == old(State())
    {
      rules := rules + [r];
    }

    method NextAlarmId() returns (id: string)
      modifies this`nextId
      ensures id == AlarmId(old(nextId)) && nextId == old(nextId) + 1
    {
      id := "alarm-" + PadTo(Print(nextId), 8);
      nextId := nextId + 1;
    }

    method MatchingRules(e: ValueChanged) returns (matching: seq<Rule>)
      ensures matching == Matching(rules, e)
    {
      matching := [];
      for i := 0 to |rules|
        invariant matching == MatchingFirst(rules, e, i)
      {
        if Watches(rules[i], e) {
          matching := matching + [rules[i]];
        }
      }
    }

    // One rule: the critical section, and then the sink call.
    method EvaluateRule(rule: Rule, e: ValueChanged, sink: Sink)
      modifies this, sink
      ensures rules == old(rules)
      ensures var (core, t) := Critical(old(State()), rule, e, render);
              State() == core && sink.heard == old(sink.heard) + ToSeq(t)
    {
      var tripped := rule.condition.Trips(e.value);
      if rule.id !in active {
        if tripped {
          var id := NextAlarmId();
          var alarm := Alarm(id, rule.id, rule.nodeId, Active, e.ts, None, None, e.value, render(rule.template, e.value));
          active := active[rule.id := alarm];
          sink.Hear(OnTriggered(alarm));
        }
      } else if !tripped {
        var existing := active[rule.id].(status := Cleared, clearedTs := Some(e.ts));
        active := active - {rule.id};
        sink.Hear(OnCleared(existing));
      }
    }

    // Without other calls in between: the matching rules, one after the other.
    method Evaluate(e: ValueChanged, sink: Sink)
      modifies this, sink
      ensures rules == old(rules)
      ensures var rs := Matching(rules, e);
              var (core, told) := EvaluateFirst(old(State()), rs, e, render, |rs|);
              State() == core && sink.heard == old(sink.heard) + told
    {
      hide Critical, ToSeq;
      var matching := MatchingRules(e);
      for i := 0 to |matching|
        invariant rules == old(rules)
        invariant var (core, told) := EvaluateFirst(old(State()), matching, e, render, i);
                  State() == core && sink.heard == old(sink.heard) + told
      {
        EvaluateRule(matching[i], e, sink);
      }
    }

    method AcknowledgeAlarm(ruleId: string, ts: int) returns (updated: Option<Alarm>)
      modifies this`active
      ensures State() == Acknowledge(old(State()), ruleId, ts)
      ensures updated == if ruleId in active then Some(active[ruleId]) else None
    {
      if ruleId !in active {
        return None;
      }
      var entry := active[ruleId].(status := Acknowledged, acknowledgedTs := Some(ts));
      active := active[ruleId := entry];
      updated := Some(entry);
    }
  }

  // ----- one critical section, written out -----

  // The value is on the tripping side of the threshold, or within or outside the band around it.
  ghost predicate OnTrippingSide(c: Condition, v: real) {
    match c
    case Gt(t) => t < v
    case Gte(t) => !(v < t)
    case Lt(t) => v < t
    case Lte(t) => !(t < v)
    case Eq(t, e) => t - e <= v <= t + e
    case Ne(t, e) => v < t - e || t + e < v
  }

  // A value on the tripping side makes an alarm that is not active: a new one, with the next id, the
  // node of the rule, and the time, value and message of the event. A value on the other side clears an
  // active one, which keeps everything but its status and the time of clearing. Nothing else happens.
  lemma SectionSpelledOut(c: Core, r: Rule, e: ValueChanged, render: Render)
    ensures var trips, (after, t) := OnTrippingSide(r.condition, e.value), Critical(c, r, e, render);
            && (trips && r.id !in c.active ==>
                  var alarm := Alarm(AlarmId(c.nextId), r.id, r.nodeId, Active, e.ts, None, None, e.value, render(r.template, e.value));
                  after == Core(c.active[r.id := alarm], c.nextId + 1) && t == Some(OnTriggered(alarm)))
            && (!trips && r.id in c.active ==>
                  var a := c.active[r.id];
                  && after == Core(c.active - {r.id}, c.nextId)
                  && t == Some(OnCleared(Alarm(a.id, a.ruleId, a.nodeId, Cleared, a.triggeredTs, a.acknowledgedTs, Some(e.ts),
                                               a.triggeredValue, a.message))))
            && (trips == (r.id in c.active) ==> after == c && t == None)
  {
  }

  // The rules visited one by one, the disabled ones and those of other nodes left out.
  ghost function EvaluateRules(c: Core, rules: seq<Rule>, e: ValueChanged, render: Render, n: nat): (Core, seq<Transition>)
    requires n <= |rules|
  {
    if n == 0 then (c, [])
    else
      var (before, told) := EvaluateRules(c, rules, e, render, n - 1);
      var r := rules[n - 1];
      if !r.enabled || r.nodeId != e.nodeId then (before, told)
      else
        var (after, t) := Critical(before, r, e, render);
        (after, told + ToSeq(t))
  }

  lemma {:induction false} EvaluateFirstPrefix(c: Core, rs: seq<Rule>, r: Rule, e: ValueChanged, render: Render, n: nat)
    requires n <= |rs|
    ensures EvaluateFirst(c, rs + [r], e, render, n) == EvaluateFirst(c, rs, e, render, n)
  {
    if n > 0 {
      hide Critical, ToSeq;
      EvaluateFirstPrefix(c, rs, r, e, render, n - 1);
    }
  }

  // Evaluating the matching rules is visiting all rules in their order.
  lemma {:induction false} EvaluateVisitsRules(c: Core, rules: seq<Rule>, e: ValueChanged, render: Render, n: nat)
    requires n <= |rules|
    ensures var ms := MatchingFirst(rules, e, n);
            EvaluateFirst(c, ms, e, render, |ms|) == EvaluateRules(c, rules, e, render, n)
  {
    if n > 0 {
      hide Critical, ToSeq;
      EvaluateVisitsRules(c, rules, e, render, n - 1);
      var ms := MatchingFirst(rules, e, n - 1);
      EvaluateFirstPrefix(c, ms, rules[n - 1], e, render, |ms|);
      assert ms + [] == ms;
    }
  }

  // Acknowledging marks the active alarm of the rule, with the time, and nothing else.
  lemma AcknowledgeMarksOne(c: Core, ruleId: string, ts: int, id: string)
    ensures var after := Acknowledge(c, ruleId, ts);
            && after.nextId == c.nextId && after.active.Keys == c.active.Keys
            && (id in c.active ==>
                  var a := c.active[id];
                  after.active[id] ==
                    if id == ruleId
                    then Alarm(a.id, a.ruleId, a.nodeId, Acknowledged, a.triggeredTs, Some(ts), a.clearedTs, a.triggeredValue, a.message)
                    else a)
  {
  }

  // An alarm id is `alarm-` and the number in at least eight digits.
  lemma AlarmIdReads(n: nat)
    ensures var id, width := AlarmId(n), if DigitCount(n) < 8 then 8 else DigitCount(n);
            && |id| == 6 + width && id[..6] == "alarm-"
            && AllDigits(id[6..]) && Parse(id[6..]) == n
  {
    ParseOfPaddedPrint(n, 8);
    PaddedLength(n, 8);
    assert AlarmId(n)[6..] == PadTo(Print(n), 8);
  }

  // ----- the log of transitions in lock order -----

  // The last transition of a rule among the first `n`.
  function Last(log: seq<Transition>, n: nat, ruleId: string): (t: Option<Transition>)
    requires n <= |log|
    ensures t.Some? ==> t.value.alarm.ruleId == ruleId
  {
    if n == 0 then None
    else if log[n - 1].alarm.ruleId == ruleId then Some(log[n - 1])
    else Last(log, n - 1, ruleId)
  }

  function TriggerCount(log: seq<Transition>, n: nat): nat
    requires n <= |log|
  {
    if n == 0 then 0 else TriggerCount(log, n - 1) + if log[n - 1].OnTriggered? then 1 else 0
  }

  // The same alarm, at most acknowledged and cleared since.
  predicate SameAlarm(a: Alarm, b: Alarm) {
    && a.id == b.id && a.ruleId == b.ruleId && a.nodeId == b.nodeId
    && a.triggeredTs == b.triggeredTs && a.triggeredValue == b.triggeredValue && a.message == b.message
  }

  // A trigger follows nothing or a clear, and a clear follows the trigger of the same alarm.
  predicate FollowsIts(log: seq<Transition>, j: nat)
    requires j < |log|
  {
    var before := Last(log, j, log[j].alarm.ruleId);
    match log[j]
    case OnTriggered(a) => (before.Some? ==> before.value.OnCleared?) && a.id == AlarmId(1 + TriggerCount(log, j))
    case OnCleared(a) => before.Some? && before.value.OnTriggered? && SameAlarm(before.value.alarm, a) && a.status == Cleared
  }

  ghost predicate LogAgrees(c: Core, log: seq<Transition>) {
    && c.nextId == 1 + TriggerCount(log, |log|)
    && (forall j | 0 <= j < |log| :: FollowsIts(log, j))
    && (forall r :: ActiveAgrees(c, log, r))
  }

  // A rule is active exactly when its last transition is a trigger, of the alarm it holds.
  predicate ActiveAgrees(c: Core, log: seq<Transition>, r: string) {
    var last := Last(log, |log|, r);
    && (r in c.active <==> last.Some? && last.value.OnTriggered?)
    && (r in c.active ==> SameAlarm(last.value.alarm, c.active[r]))
  }

  lemma {:induction false} LogPrefix(log: seq<Transition>, t: Transition, n: nat, r: string)
    requires n <= |log|
    ensures Last(log + [t], n, r) == Last(log, n, r)
    ensures TriggerCount(log + [t], n) == TriggerCount(log, n)
  {
    if n > 0 {
      LogPrefix(log, t, n - 1, r);
    }
  }

  lemma LogGrows(log: seq<Transition>, t: Transition)
    ensures forall j | 0 <= j < |log| :: FollowsIts(log + [t], j) == FollowsIts(log, j)
    ensures forall r :: Last(log + [t], |log| + 1, r) == if t.alarm.ruleId == r then Some(t) else Last(log, |log|, r)
    ensures Last(log + [t], |log|, t.alarm.ruleId) == Last(log, |log|, t.alarm.ruleId)
    ensures TriggerCount(log + [t], |log|) == TriggerCount(log, |log|)
  {
    hide SameAlarm, AlarmId;
    forall j | 0 <= j < |log| ensures FollowsIts(log + [t], j) == FollowsIts(log, j) {
      FollowsGrown(log, t, j);
    }
    hide FollowsIts;
    forall r ensures Last(log + [t], |log| + 1, r) == if t.alarm.ruleId == r then Some(t) else Last(log, |log|, r) {
      LastOfGrown(log, t, r);
    }
    LogPrefix(log, t, |log|, t.alarm.ruleId);
  }

  lemma FollowsGrown(log: seq<Transition>, t: Transition, j: nat)
    requires j < |log|
    ensures FollowsIts(log + [t], j) == FollowsIts(log, j)
  {
    hide SameAlarm, AlarmId;
    assert (log + [t])[j] == log[j];
    LogPrefix(log, t, j, log[j].alarm.ruleId);
  }

  lemma LastOfGrown(log: seq<Transition>, t: Transition, r: string)
    ensures Last(log + [t], |log| + 1, r) == if t.alarm.ruleId == r then Some(t) else Last(log, |log|, r)
  {
    LogPrefix(log, t, |log|, r);
    assert (log + [t])[|log|] == t;
  }

  // Every critical section keeps the engine and the log of its transitions in agreement.
  lemma CriticalKeepsLog(c: Core, log: seq<Transition>, r: Rule, e: ValueChanged, render: Render)
    requires LogAgrees(c, log)
    ensures var (after, t) := Critical(c, r, e, render); LogAgrees(after, log + ToSeq(t))
  {
    hide AlarmId, SameAlarm, Condition.Trips;
    var (after, t) := Critical(c, r, e, render);
    assert ActiveAgrees(c, log, r.id);
    if t.Some? {
      LogGrows(log, t.value);
      assert t.value.alarm.ruleId == r.id by {
        if r.id in c.active { HeldAlarmNamesRule(c, log, r.id); }
      }
      assert FollowsIts(log + [t.value], |log|) by { NewTransitionFollows(c, log, r, e, render); }
      forall q ensures ActiveAgrees(after, log + [t.value], q) {
        assert ActiveAgrees(c, log, q);
        SameAlarmReflexive(t.value.alarm);
      }
    } else {
      assert log + [] == log;
    }
  }

  lemma SameAlarmReflexive(a: Alarm)
    ensures SameAlarm(a, a)
  {
  }

  lemma HeldAlarmNamesRule(c: Core, log: seq<Transition>, r: string)
    requires ActiveAgrees(c, log, r) && r in c.active
    ensures c.active[r].ruleId == r
  {
  }

  lemma NewTransitionFollows(c: Core, log: seq<Transition>, r: Rule, e: ValueChanged, render: Render)
    requires LogAgrees(c, log) && Critical(c, r, e, render).1.Some?
    ensures FollowsIts(log + [Critical(c, r, e, render).1.value], |log|)
  {
    hide AlarmId, Condition.Trips;
    var t := Critical(c, r, e, render).1.value;
    assert ActiveAgrees(c, log, r.id);
    LogGrows(log, t);
    assert t.alarm.ruleId == r.id;
  }

  // Acknowledging changes no alarm's identity and logs nothing.
  lemma AcknowledgeKeepsLog(c: Core, log: seq<Transition>, ruleId: string, ts: int)
    requires LogAgrees(c, log)
    ensures LogAgrees(Acknowledge(c, ruleId, ts), log)
  {
    forall q ensures ActiveAgrees(Acknowledge(c, ruleId, ts), log, q) {
      assert ActiveAgrees(c, log, q);
    }
  }

  lemma {:induction false} TriggerCountGrows(log: seq<Transition>, i: nat, j: nat)
    requires i < j <= |log| && log[i].OnTriggered?
    ensures TriggerCount(log, i) < TriggerCount(log, j)
  {
    if i < j - 1 {
      TriggerCountGrows(log, i, j - 1);
    }
  }

  // No alarm id is issued twice.
  lemma TriggerIdsDistinct(c: Core, log: seq<Transition>, i: nat, j: nat)
    requires LogAgrees(c, log) && i < j < |log| && log[i].OnTriggered? && log[j].OnTriggered?
    ensures log[i].alarm.id != log[j].alarm.id
  {
    TriggerCountGrows(log, i, j);
    assert FollowsIts(log, i) && FollowsIts(log, j);
    if log[i].alarm.id == log[j].alarm.id {
      AlarmIdInjective(1 + TriggerCount(log, i), 1 + TriggerCount(log, j));
    }
  }

  // ----- sequential runs: active alarms follow the latest values -----

  datatype Input = Value(e: ValueChanged) | Ack(ruleId: string, ts: int)

  function RunInputs(rules: seq<Rule>, inputs: seq<Input>, render: Render, n: nat): Core
    requires n <= |inputs|
  {
    if n == 0 then Core(map[], 1)
    else
      var c := RunInputs(rules, inputs, render, n - 1);
      match inputs[n - 1]
      case Value(e) => EvaluateFirst(c, Matching(rules, e), e, render, |Matching(rules, e)|).0
      case Ack(ruleId, ts) => Acknowledge(c, ruleId, ts)
  }

  function Latest(inputs: seq<Input>, n: nat, nodeId: string): Option<real>
    requires n <= |inputs|
  {
    if n == 0 then None
    else if inputs[n - 1].Value? && inputs[n - 1].e.nodeId == nodeId then Some(inputs[n - 1].e.value)
    else Latest(inputs, n - 1, nodeId)
  }

  // The rule's node has reported, and its latest value trips the condition.
  predicate ShouldBeActive(r: Rule, inputs: seq<Input>, n: nat)
    requires n <= |inputs|
  {
    var v := Latest(inputs, n, r.nodeId);
    r.enabled && v.Some? && r.condition.Trips(v.value)
  }

  ghost predicate DistinctRuleIds(rules: seq<Rule>) {
    forall i, j | 0 <= i < j < |rules| :: rules[i].id != rules[j].id
  }

  // A critical section decides its own rule and leaves the others.
  lemma CriticalDecides(c: Core, r: Rule, e: ValueChanged, render: Render, id: string)
    ensures id in Critical(c, r, e, render).0.active
            <==> if r.id == id then r.condition.Trips(e.value) else id in c.active
  {
    hide Condition.Trips, NewAlarm;
  }

  lemma {:induction false} EvaluateDecides(c: Core, rs: seq<Rule>, e: ValueChanged, render: Render, n: nat, id: string)
    requires n <= |rs| && DistinctRuleIds(rs)
    ensures var after := EvaluateFirst(c, rs, e, render, n).0;
            && ((forall i | 0 <= i < n :: rs[i].id != id) ==> (id in after.active <==> id in c.active))
            && (forall i | 0 <= i < n && rs[i].id == id :: id in after.active <==> rs[i].condition.Trips(e.value))
  {
    if n > 0 {
      assert forall i | 0 <= i < n - 1 :: rs[i].id != rs[n - 1].id;
      hide Condition.Trips, Critical, ToSeq;
      EvaluateDecides(c, rs, e, render, n - 1, id);
      CriticalDecides(EvaluateFirst(c, rs, e, render, n - 1).0, rs[n - 1], e, render, id);
    }
  }

  lemma {:induction false} MatchingFacts(rules: seq<Rule>, e: ValueChanged, n: nat)
    requires n <= |rules| && DistinctRuleIds(rules)
    ensures var ms := MatchingFirst(rules, e, n);
            && (forall m <- ms :: Watches(m, e) && m in rules[..n])
            && (forall i | 0 <= i < n && Watches(rules[i], e) :: rules[i] in ms)
            && DistinctRuleIds(ms)
  {
    if n > 0 {
      MatchingFacts(rules, e, n - 1);
      var ms := MatchingFirst(rules, e, n - 1);
      forall i | 0 <= i < |ms| ensures ms[i].id != rules[n - 1].id {
        assert ms[i] in rules[..n - 1];
      }
    }
  }

  lemma {:induction false} ActiveFollowsLatestAt(rules: seq<Rule>, inputs: seq<Input>, render: Render, n: nat, k: nat)
    requires DistinctRuleIds(rules) && n <= |inputs| && k < |rules|
    ensures rules[k].id in RunInputs(rules, inputs, render, n).active <==> ShouldBeActive(rules[k], inputs, n)
  {
    if n > 0 {
      hide Condition.Trips, EvaluateFirst, Matching;
      ActiveFollowsLatestAt(rules, inputs, render, n - 1, k);
      if inputs[n - 1].Value? {
        var e := inputs[n - 1].e;
        EvaluateDecidesRule(RunInputs(rules, inputs, render, n - 1), rules, e, render, k);
      }
    }
  }

  lemma EvaluateDecidesRule(c: Core, rules: seq<Rule>, e: ValueChanged, render: Render, k: nat)
    requires DistinctRuleIds(rules) && k < |rules|
    ensures var after := EvaluateFirst(c, Matching(rules, e), e, render, |Matching(rules, e)|).0;
            rules[k].id in after.active <==>
              if Watches(rules[k], e) then rules[k].condition.Trips(e.value) else rules[k].id in c.active
  {
    hide Condition.Trips, EvaluateFirst;
    var ms := Matching(rules, e);
    MatchingFacts(rules, e, |rules|);
    assert rules[..|rules|] == rules;
    EvaluateDecides(c, ms, e, render, |ms|, rules[k].id);
    forall i | 0 <= i < |ms| ensures ms[i].id == rules[k].id ==> ms[i] == rules[k] {
      assert ms[i] in rules;
    }
    if Watches(rules[k], e) {
      var i :| 0 <= i < |ms| && ms[i] == rules[k];
    }
  }

  lemma {:induction false} ActiveIdsAreRules(rules: seq<Rule>, inputs: seq<Input>, render: Render, n: nat, id: string)
    requires DistinctRuleIds(rules) && n <= |inputs|
    requires forall k | 0 <= k < |rules| :: rules[k].id != id
    ensures id !in RunInputs(rules, inputs, render, n).active
  {
    if n > 0 {
      hide Condition.Trips, EvaluateFirst, Matching;
      ActiveIdsAreRules(rules, inputs, render, n - 1, id);
      if inputs[n - 1].Value? {
        var e := inputs[n - 1].e;
        var ms := Matching(rules, e);
        assert DistinctRuleIds(ms) && forall i | 0 <= i < |ms| :: ms[i].id != id by {
          MatchingAvoids(rules, e, id);
        }
        EvaluateDecides(RunInputs(rules, inputs, render, n - 1), ms, e, render, |ms|, id);
      }
    }
  }

  lemma MatchingAvoids(rules: seq<Rule>, e: ValueChanged, id: string)
    requires DistinctRuleIds(rules) && forall k | 0 <= k < |rules| :: rules[k].id != id
    ensures DistinctRuleIds(Matching(rules, e))
    ensures forall i | 0 <= i < |Matching(rules, e)| :: Matching(rules, e)[i].id != id
  {
    MatchingFacts(rules, e, |rules|);
    assert rules[..|rules|] == rules;
    forall i | 0 <= i < |Matching(rules, e)| ensures Matching(rules, e)[i].id != id {
      assert Matching(rules, e)[i] in rules;
    }
  }

  // With distinct rule ids, after any inputs the active alarms are exactly the enabled rules whose
  // node's latest value trips the condition.
  lemma ActiveFollowsLatest(rules: seq<Rule>, inputs: seq<Input>, render: Render, n: nat, id: string)
    requires DistinctRuleIds(rules) && n <= |inputs|
    ensures id in RunInputs(rules, inputs, render, n).active
            <==> exists k :: 0 <= k < |rules| && rules[k].id == id && ShouldBeActive(rules[k], inputs, n)
  {
    hide ShouldBeActive, RunInputs;
    if k :| 0 <= k < |rules| && rules[k].id == id {
      ActiveFollowsLatestAt(rules, inputs, render, n, k);
    } else {
      ActiveIdsAreRules(rules, inputs, render, n, id);
    }
  }
}
