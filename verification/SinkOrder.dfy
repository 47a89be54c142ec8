/** When the sink of the alarm engine hears the transitions in the order in which they were made. */
module SinkOrder {
  import opened Options
  import opened AlarmEngine
  import opened AlarmInterleaving

  // ----- the whole log -----

  // The calls that have not returned.
  ghost function OpenCalls(s: System): set<nat> {
    set i | 0 <= i < |s.calls| && !s.calls[i].Done()
  }

  ghost predicate AtMostOpen(states: seq<System>, k: nat) {
    forall s <- states :: |OpenCalls(s)| <= k
  }

  // The n-th thing the sink hears is the n-th transition made.
  ghost predicate HeardInOrder(s: System) {
    forall i | 0 <= i < |s.heard| :: s.heard[i] == i
  }

  ghost predicate OneOpen(s: System) {
    forall i, j | 0 <= i < j < |s.calls| :: s.calls[i].Done() || s.calls[j].Done()
  }

  // What is heard is a prefix of the log, and what is not heard is pending.
  ghost predicate HeardPrefix(s: System) {
    HeardInOrder(s) && |s.heard| <= |s.log| <= |s.heard| + 1
  }

  lemma TwoInSet(open: set<nat>, i: nat, j: nat)
    requires i != j && i in open && j in open
    ensures |open| >= 2
  {
    assert |open| == |{i, j}| + |open - {i, j}| by { assert open == {i, j} + (open - {i, j}); }
  }

  lemma AtMostOneIsOneOpen(s: System)
    requires |OpenCalls(s)| <= 1
    ensures OneOpen(s)
  {
    forall i, j | 0 <= i < j < |s.calls| ensures s.calls[i].Done() || s.calls[j].Done() {
      if !s.calls[i].Done() && !s.calls[j].Done() {
        TwoInSet(OpenCalls(s), i, j);
      }
    }
  }

  lemma HeardPlaces(s: System)
    requires HeardInOrder(s)
    ensures forall k: nat :: k in s.heard <==> k < |s.heard|
  {
    forall k: nat | k < |s.heard| ensures k in s.heard {
      assert s.heard[k] == k;
    }
  }

  lemma NextKeepsPrefix(s: System, a: Step, render: Render)
    requires DeliveriesAgree(s) && Enabled(s, a) && OneOpen(s) && HeardPrefix(s)
    ensures HeardPrefix(Next(s, a, render))
  {
    hide Critical, Acknowledge, Matching;
    HeardPlaces(s);
    match a
    case Enter(i) =>
      // No other call can have a transition pending.
      assert forall j | 0 <= j < |s.calls| :: s.calls[j].pending == None;
      assert |s.heard| < |s.log| ==> |s.heard| in s.heard;
    case Deliver(i) =>
    case AddRule(_) =>
    case Begin(_) =>
    case Ack(_, _) =>
  }

  // With one call at a time the sink hears the log itself, and at most the last transition is still on its way.
  lemma {:induction false} OneCallAtATime(states: seq<System>, steps: seq<Step>, render: Render, n: nat)
    requires IsRun(states, steps, render) && AtMostOpen(states, 1) && n < |states|
    ensures HeardPrefix(states[n])
  {
    if n > 0 {
      hide Next, Enabled, OpenCalls, HeardPrefix, LogAgrees, DeliveriesAgree;
      OneCallAtATime(states, steps, render, n - 1);
      RunKeepsInvariant(states, steps, render, n - 1);
      AtMostOneIsOneOpen(states[n - 1]);
      NextKeepsPrefix(states[n - 1], steps[n - 1], render);
    }
  }

  lemma FewOpen(calls: nat, open: set<nat>)
    requires calls <= 2 && forall i <- open :: i < calls
    ensures |open| <= 2
  {
    assert open <= {0, 1};
    assert {0, 1} == open + ({0, 1} - open);
  }

  // The sink hears every run in lock order, as long as no state of the run has more than k open
  // calls, exactly when k is at most one.
  lemma SinkHearsInOrderExactly(k: nat, render: Render)
    ensures (forall states, steps | IsRun(states, steps, render) && AtMostOpen(states, k) ::
               forall s <- states :: HeardInOrder(s)) <==> k <= 1
  {
    if k <= 1 {
      forall states, steps | IsRun(states, steps, render) && AtMostOpen(states, k) ensures forall s <- states :: HeardInOrder(s) {
        forall n | 0 <= n < |states| ensures HeardInOrder(states[n]) {
          OneCallAtATime(states, steps, render, n);
        }
      }
    } else {
      var states, steps := SinkMayHearClearFirst(render);
      forall s <- states ensures |OpenCalls(s)| <= k {
        FewOpen(|s.calls|, OpenCalls(s));
      }
      var last := states[|states| - 1];
      assert last in states && last.heard[0] != 0;
    }
  }

  // ----- the transitions of one rule -----

  ghost function OpenOn(s: System, node: string): set<nat> {
    set i | 0 <= i < |s.calls| && !s.calls[i].Done() && s.calls[i].e.nodeId == node
  }

  ghost predicate AtMostOpenPerNode(states: seq<System>, k: nat) {
    forall s <- states :: DistinctRuleIds(s.rules) && forall node: string :: |OpenOn(s, node)| <= k
  }

  ghost predicate HeardInRuleOrder(s: System) {
    forall i, j | 0 <= i < j < |s.heard| && s.heard[i] < |s.log| && s.heard[j] < |s.log| ::
      s.log[s.heard[i]].alarm.ruleId == s.log[s.heard[j]].alarm.ruleId ==> s.heard[i] < s.heard[j]
  }

  ghost predicate OneOpenPerNode(s: System) {
    forall i, j | 0 <= i < j < |s.calls| && s.calls[i].e.nodeId == s.calls[j].e.nodeId ::
      s.calls[i].Done() || s.calls[j].Done()
  }

  // Some rule of the node has the id.
  ghost predicate RuleOn(s: System, id: string, node: string) {
    exists r <- s.rules :: r.id == id && r.nodeId == node
  }

  // A call only visits rules of its node.
  ghost predicate VisitsNode(s: System, c: Call) {
    forall r <- c.rest :: r in s.rules && r.nodeId == c.e.nodeId
  }

  // A pending transition is of a rule of the call's node, and the last one of that rule.
  ghost predicate PendingIsLast(s: System, c: Call) {
    c.pending.Some? ==>
      && c.pending.value < |s.log|
      && var id := s.log[c.pending.value].alarm.ruleId;
         && RuleOn(s, id, c.e.nodeId)
         && forall k | c.pending.value < k < |s.log| :: s.log[k].alarm.ruleId != id
  }

  ghost predicate CallsAgree(s: System) {
    forall i | 0 <= i < |s.calls| :: VisitsNode(s, s.calls[i]) && PendingIsLast(s, s.calls[i])
  }

  lemma SameRuleSameNode(s: System, id: string, a: string, b: string)
    requires DistinctRuleIds(s.rules) && RuleOn(s, id, a) && RuleOn(s, id, b)
    ensures a == b
  {
  }

  lemma OneOnIsOneOpen(s: System)
    requires forall node: string :: |OpenOn(s, node)| <= 1
    ensures OneOpenPerNode(s)
  {
    forall i, j | 0 <= i < j < |s.calls| && s.calls[i].e.nodeId == s.calls[j].e.nodeId
      ensures s.calls[i].Done() || s.calls[j].Done()
    {
      if !s.calls[i].Done() && !s.calls[j].Done() {
        TwoInSet(OpenOn(s, s.calls[i].e.nodeId), i, j);
      }
    }
  }

  lemma TransitionNamesRule(c: Core, log: seq<Transition>, r: Rule, e: ValueChanged, render: Render)
    requires LogAgrees(c, log) && Critical(c, r, e, render).1.Some?
    ensures Critical(c, r, e, render).1.value.alarm.ruleId == r.id
  {
    assert ActiveAgrees(c, log, r.id);
  }

  // A critical section of one call does not outdate the transition that another has pending.
  lemma EnterKeepsOther(s: System, i: nat, j: nat, render: Render)
    requires LogAgrees(s.core, s.log) && Enabled(s, Enter(i)) && j < |s.calls| && j != i
    requires DistinctRuleIds(s.rules) && OneOpenPerNode(s) && CallsAgree(s)
    ensures PendingIsLast(Next(s, Enter(i), render), s.calls[j])
  {
    hide Critical, LogAgrees, DistinctRuleIds, RuleOn;
    var call, other, s' := s.calls[i], s.calls[j], Next(s, Enter(i), render);
    assert VisitsNode(s, call) && PendingIsLast(s, other);
    var r := call.rest[0];
    var t := Critical(s.core, r, call.e, render).1;
    if other.pending.Some? {
      SameRules(s, s');
      assert other.e.nodeId != call.e.nodeId;
      assert r in call.rest;
      RuleIsOn(s, r);
      if t.Some? {
        TransitionNamesRule(s.core, s.log, r, call.e, render);
        if s.log[other.pending.value].alarm.ruleId == r.id {
          SameRuleSameNode(s, r.id, other.e.nodeId, call.e.nodeId);
        }
      }
    }
  }

  lemma EnterKeepsOwn(s: System, i: nat, render: Render)
    requires LogAgrees(s.core, s.log) && Enabled(s, Enter(i)) && VisitsNode(s, s.calls[i])
    ensures var s' := Next(s, Enter(i), render); VisitsNode(s', s'.calls[i]) && PendingIsLast(s', s'.calls[i])
  {
    hide Critical, LogAgrees, RuleOn;
    var call, s' := s.calls[i], Next(s, Enter(i), render);
    var r := call.rest[0];
    assert r in call.rest;
    RuleIsOn(s, r);
    SameRules(s, s');
    if Critical(s.core, r, call.e, render).1.Some? {
      TransitionNamesRule(s.core, s.log, r, call.e, render);
    }
  }

  lemma EnterKeepsCalls(s: System, i: nat, render: Render)
    requires LogAgrees(s.core, s.log) && Enabled(s, Enter(i))
    requires DistinctRuleIds(s.rules) && OneOpenPerNode(s) && CallsAgree(s)
    ensures CallsAgree(Next(s, Enter(i), render))
  {
    hide Critical, LogAgrees, DistinctRuleIds, PendingIsLast, OneOpenPerNode;
    var s' := Next(s, Enter(i), render);
    EnterKeepsOwn(s, i, render);
    forall j | 0 <= j < |s.calls| && j != i ensures VisitsNode(s', s'.calls[j]) && PendingIsLast(s', s'.calls[j]) {
      EnterKeepsOther(s, i, j, render);
      assert VisitsNode(s, s.calls[j]);
    }
  }

  lemma CarriesOver(s: System, s': System, c: Call)
    requires (forall r <- s.rules :: r in s'.rules) && s'.log == s.log && VisitsNode(s, c) && PendingIsLast(s, c)
    ensures VisitsNode(s', c) && PendingIsLast(s', c) && PendingIsLast(s', c.(pending := None))
  {
    SameRules(s, s');
  }

  lemma NextKeepsCalls(s: System, a: Step, render: Render)
    requires LogAgrees(s.core, s.log) && Enabled(s, a)
    requires DistinctRuleIds(s.rules) && OneOpenPerNode(s) && CallsAgree(s)
    ensures CallsAgree(Next(s, a, render))
  {
    hide Critical, Acknowledge, LogAgrees, DistinctRuleIds, Matching, PendingIsLast, OneOpenPerNode;
    if a.Enter? {
      EnterKeepsCalls(s, a.call, render);
    } else {
      var s' := Next(s, a, render);
      forall i | 0 <= i < |s'.calls| ensures VisitsNode(s', s'.calls[i]) && PendingIsLast(s', s'.calls[i]) {
        if i < |s.calls| {
          CarriesOver(s, s', s.calls[i]);
        } else {
          MatchingVisits(s.rules, a.e);
          NothingPending(s', s'.calls[i]);
        }
      }
    }
  }

  lemma NothingPending(s: System, c: Call)
    requires c.pending == None
    ensures PendingIsLast(s, c)
  {
  }

  lemma MatchingVisits(rules: seq<Rule>, e: ValueChanged)
    requires DistinctRuleIds(rules)
    ensures forall r <- Matching(rules, e) :: r in rules && r.nodeId == e.nodeId
  {
    MatchingFacts(rules, e, |rules|);
    assert rules[..|rules|] == rules;
  }

  lemma NextKeepsRuleOrder(s: System, a: Step, render: Render)
    requires DeliveriesAgree(s) && Enabled(s, a) && CallsAgree(s) && HeardInRuleOrder(s)
    ensures HeardInRuleOrder(Next(s, a, render))
  {
    hide Critical, Acknowledge, Matching, RuleOn;
    forall x | 0 <= x < |s.heard| ensures s.heard[x] < |s.log| {
      assert s.heard[x] in s.heard;
    }
    match a
    case Deliver(i) =>
      var k := s.calls[i].pending.value;
      assert PendingIsLast(s, s.calls[i]);
      forall x | 0 <= x < |s.heard| && s.log[s.heard[x]].alarm.ruleId == s.log[k].alarm.ruleId
        ensures s.heard[x] < k
      {
        assert s.heard[x] in s.heard;
      }
    case Enter(_) =>
    case AddRule(_) =>
    case Begin(_) =>
    case Ack(_, _) =>
  }

  // With one call at a time per node the sink hears the transitions of every rule in lock order.
  lemma {:induction false} OneCallPerNode(states: seq<System>, steps: seq<Step>, render: Render, n: nat)
    requires IsRun(states, steps, render) && AtMostOpenPerNode(states, 1) && n < |states|
    ensures CallsAgree(states[n]) && HeardInRuleOrder(states[n])
  {
    if n > 0 {
      hide Next, Enabled, OpenOn, CallsAgree, HeardInRuleOrder, LogAgrees, DeliveriesAgree, DistinctRuleIds, OneOpenPerNode;
      OneCallPerNode(states, steps, render, n - 1);
      RunKeepsInvariant(states, steps, render, n - 1);
      OneOnIsOneOpen(states[n - 1]);
      NextKeepsCalls(states[n - 1], steps[n - 1], render);
      NextKeepsRuleOrder(states[n - 1], steps[n - 1], render);
    }
  }

  // With distinct rule ids, the sink hears the transitions of every rule of every run in lock order,
  // as long as no state of the run has more than k open calls for one node, exactly when k is at most one.
  lemma RulesHeardInOrderExactly(k: nat, render: Render)
    ensures (forall states, steps | IsRun(states, steps, render) && AtMostOpenPerNode(states, k) ::
               forall s <- states :: HeardInRuleOrder(s)) <==> k <= 1
  {
    if k <= 1 {
      forall states, steps | IsRun(states, steps, render) && AtMostOpenPerNode(states, k)
        ensures forall s <- states :: HeardInRuleOrder(s)
      {
        forall n | 0 <= n < |states| ensures HeardInRuleOrder(states[n]) {
          OneCallPerNode(states, steps, render, n);
        }
      }
    } else {
      var states, steps := SinkMayHearClearFirst(render);
      forall s <- states, node: string ensures |OpenOn(s, node)| <= k {
        FewOpen(|s.calls|, OpenOn(s, node));
      }
      var last := states[|states| - 1];
      assert last in states && last.heard[0] == 1 && last.heard[1] == 0;
    }
  }

  lemma RuleIsOn(s: System, r: Rule)
    requires r in s.rules
    ensures RuleOn(s, r.id, r.nodeId)
  {
  }

  lemma SameRules(s: System, s': System)
    requires forall r <- s.rules :: r in s'.rules
    ensures forall id: string, node: string | RuleOn(s, id, node) :: RuleOn(s', id, node)
  {
  }
}
