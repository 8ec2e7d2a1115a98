/**
 * The alert engine: once per tick it evaluates every active rule against one
 * shared metrics snapshot, advances the rule's runtime state through
 * Idle -> Violating -> Triggered (with cooldown re-fires and immediate
 * recovery), writes the new state back to the store by id, and hands fired
 * alerts and recoveries to the action dispatcher.
 */
module Alerting {
  import opened Wrappers
  import opened Text
  import opened Config
  import Metrics

  // ---------------------------------------------------------------------------
  // The per-rule decision
  // ---------------------------------------------------------------------------

  /** getMetricValue: the reading a rule watches; an unknown metric reads as 0. */
  function MetricValue(metricType: string, stats: Metrics.SystemStats): real {
    if metricType == "CPU" then stats.cpuUsage
    else if metricType == "RAM" then stats.memUsage
    else if metricType == "Disk" then stats.diskUsage
    else 0.0
  }

  function Abs(x: real): real {
    if x < 0.0 then -x else x
  }

  /** The rule's comparison; "==" tolerates a difference below 0.01 and an unknown operator means >=. */
  predicate IsViolating(operator: string, value: real, threshold: real) {
    if operator == ">" then value > threshold
    else if operator == "<" then value < threshold
    else if operator == "==" then Abs(value - threshold) < 0.01
    else value >= threshold
  }

  /** Whether `rule`'s comparison holds on `stats`. */
  predicate Violates(rule: AlertRule, stats: Metrics.SystemStats) {
    IsViolating(rule.operator, MetricValue(rule.metricType, stats), rule.thresholdPercent)
  }

  /** A store write the engine issues for a rule: UpdateRuleState or MarkRuleSent. */
  datatype Write = SetState(since: Option<int>, triggered: bool) | MarkSent

  /** A dispatcher call: executeAction (an alert) or sendRecoveryNotification. */
  datatype Event = Alert(rule: AlertRule, value: real) | Recovery(rule: AlertRule, value: real)

  /** What one tick decides for one rule: the store writes, in order, and the dispatcher call. */
  datatype Decision = Decision(writes: seq<Write>, event: Option<Event>)

  /**
   * One tick of one rule, decided on the engine's copy of the rule.
   * Inactive rules are skipped. A first violation opens the window and stops
   * there. Once the window is at least `durationSeconds` old the first alert
   * fires; after that an alert fires again only with a positive cooldown that
   * has elapsed since the last send. A tick without violation sends a recovery
   * if the rule had triggered, and clears whatever state was set.
   */
  function Decide(rule: AlertRule, stats: Metrics.SystemStats, now: int): Decision {
    if !rule.isActive then Decision([], None)
    else
      var value := MetricValue(rule.metricType, stats);
      if IsViolating(rule.operator, value, rule.thresholdPercent) then
        if rule.violatingSince.None? then
          Decision([SetState(Some(now), false)], None)
        else if now - rule.violatingSince.value >= rule.durationSeconds then
          if !rule.hasTriggered then
            Decision([SetState(rule.violatingSince, true), MarkSent], Some(Alert(rule, value)))
          else if rule.cooldownSeconds > 0 && rule.lastSentAt.Some?
                  && now - rule.lastSentAt.value >= rule.cooldownSeconds then
            Decision([MarkSent], Some(Alert(rule, value)))
          else
            Decision([], None)
        else
          Decision([], None)
      else
        Decision(if rule.violatingSince.Some? || rule.hasTriggered then [SetState(None, false)] else [],
                 if rule.hasTriggered then Some(Recovery(rule, value)) else None)
  }

  /** A write applied to the rule it targets; `now` is the clock reading of MarkRuleSent. */
  function ApplyWrite(r: AlertRule, w: Write, now: int): AlertRule {
    match w
    case SetState(since, triggered) => r.(violatingSince := since, hasTriggered := triggered)
    case MarkSent => r.(sentCount := r.sentCount + 1, lastSentAt := Some(now))
  }

  function ApplyWrites(r: AlertRule, ws: seq<Write>, now: int): AlertRule
    decreases |ws|
  {
    if ws == [] then r else ApplyWrites(ApplyWrite(r, ws[0], now), ws[1..], now)
  }

  /** The rule after one tick, when the store held exactly the engine's copy. */
  function Next(rule: AlertRule, stats: Metrics.SystemStats, now: int): AlertRule {
    ApplyWrites(rule, Decide(rule, stats, now).writes, now)
  }

  lemma {:induction false} ApplyWritesShort(r: AlertRule, ws: seq<Write>, now: int)
    ensures |ws| == 0 ==> ApplyWrites(r, ws, now) == r
    ensures |ws| == 1 ==> ApplyWrites(r, ws, now) == ApplyWrite(r, ws[0], now)
    ensures |ws| == 2 ==> ApplyWrites(r, ws, now) == ApplyWrite(ApplyWrite(r, ws[0], now), ws[1], now)
    decreases |ws|
  {
    if |ws| > 0 {
      ApplyWritesShort(ApplyWrite(r, ws[0], now), ws[1..], now);
    }
  }

  /**
   * The rule's state machine read as a transition table: Idle or Violating
   * (window open, not triggered) or Triggered, with the send bookkeeping on
   * each fire and a return to Idle on any tick without violation.
   */
  function Step(rule: AlertRule, stats: Metrics.SystemStats, now: int): AlertRule {
    if !rule.isActive then rule
    else if !Violates(rule, stats) then rule.(violatingSince := None, hasTriggered := false)
    else if rule.violatingSince.None? then rule.(violatingSince := Some(now), hasTriggered := false)
    else if now - rule.violatingSince.value < rule.durationSeconds then rule
    else if !rule.hasTriggered then
      rule.(hasTriggered := true, sentCount := rule.sentCount + 1, lastSentAt := Some(now))
    else if rule.cooldownSeconds > 0 && rule.lastSentAt.Some? && now - rule.lastSentAt.value >= rule.cooldownSeconds then
      rule.(sentCount := rule.sentCount + 1, lastSentAt := Some(now))
    else rule
  }

  /** Applying the writes the engine decides gives exactly the transition table. */
  lemma NextIsStep(rule: AlertRule, stats: Metrics.SystemStats, now: int)
    ensures Next(rule, stats, now) == Step(rule, stats, now)
  {
    ApplyWritesShort(rule, Decide(rule, stats, now).writes, now);
  }

  /** The user-set part of a rule, which the engine never changes. */
  predicate SameDefinition(a: AlertRule, b: AlertRule) {
    a.id == b.id && a.metricType == b.metricType && a.operator == b.operator
    && a.thresholdPercent == b.thresholdPercent && a.durationSeconds == b.durationSeconds
    && a.cooldownSeconds == b.cooldownSeconds && a.messageTemplate == b.messageTemplate
    && a.shellCommand == b.shellCommand && a.notificationChannel == b.notificationChannel
    && a.isActive == b.isActive
  }

  /** Only UpdateRuleState-style and MarkRuleSent-style fields ever change. */
  lemma {:induction false} ApplyWritesKeepsDefinition(r: AlertRule, ws: seq<Write>, now: int)
    ensures SameDefinition(ApplyWrites(r, ws, now), r)
    ensures ApplyWrites(r, ws, now).sentCount >= r.sentCount
    decreases |ws|
  {
    if ws != [] {
      ApplyWritesKeepsDefinition(ApplyWrite(r, ws[0], now), ws[1..], now);
    }
  }

  /** A state write never claims a trigger without a violation window. */
  predicate WellFormed(w: Write) {
    w.SetState? ==> (w.triggered ==> w.since.Some?)
  }

  /** Every write the engine issues is well formed, whatever state the copy was in. */
  lemma DecideWritesWellFormed(rule: AlertRule, stats: Metrics.SystemStats, now: int)
    ensures forall k :: 0 <= k < |Decide(rule, stats, now).writes| ==> WellFormed(Decide(rule, stats, now).writes[k])
  {
  }

  // ---------------------------------------------------------------------------
  // Single-tick properties of the decision
  // ---------------------------------------------------------------------------

  /** An inactive rule is skipped: no write and no dispatcher call, whatever the reading. */
  lemma InactiveSkipped(rule: AlertRule, stats: Metrics.SystemStats, now: int)
    requires !rule.isActive
    ensures Decide(rule, stats, now) == Decision([], None)
    ensures Next(rule, stats, now) == rule
  {
    NextIsStep(rule, stats, now);
  }

  /** The first violating tick records `now` as the start of the window, clears the trigger and fires nothing. */
  lemma FirstViolationOpensWindow(rule: AlertRule, stats: Metrics.SystemStats, now: int)
    requires rule.isActive && Violates(rule, stats) && rule.violatingSince.None?
    ensures Decide(rule, stats, now) == Decision([SetState(Some(now), false)], None)
    ensures Next(rule, stats, now) == rule.(violatingSince := Some(now), hasTriggered := false)
  {
    NextIsStep(rule, stats, now);
  }

  /**
   * An alert fires exactly when the rule is active and violating, its window
   * is at least `durationSeconds` old (inclusive), and either it has not
   * triggered yet or a positive cooldown has elapsed since the last send.
   */
  lemma AlertCondition(rule: AlertRule, stats: Metrics.SystemStats, now: int)
    ensures var e := Decide(rule, stats, now).event;
      (e.Some? && e.value.Alert?) <==>
        (rule.isActive && Violates(rule, stats) && rule.violatingSince.Some?
         && now - rule.violatingSince.value >= rule.durationSeconds
         && (!rule.hasTriggered
             || (rule.cooldownSeconds > 0 && rule.lastSentAt.Some? && now - rule.lastSentAt.value >= rule.cooldownSeconds)))
  {
  }

  /**
   * The first alert sets the trigger, keeps the window start, counts one send
   * and stamps it; a re-fire only counts and stamps the send.
   */
  lemma AlertUpdates(rule: AlertRule, stats: Metrics.SystemStats, now: int)
    requires var e := Decide(rule, stats, now).event; e.Some? && e.value.Alert?
    ensures Next(rule, stats, now) ==
              rule.(hasTriggered := true, sentCount := rule.sentCount + 1, lastSentAt := Some(now))
    ensures Next(rule, stats, now).violatingSince == rule.violatingSince
  {
    NextIsStep(rule, stats, now);
  }

  /**
   * A tick without violation sends a recovery exactly when the rule had
   * triggered, and leaves the rule idle; no write is issued when it already was.
   */
  lemma RecoveryCondition(rule: AlertRule, stats: Metrics.SystemStats, now: int)
    requires rule.isActive && !Violates(rule, stats)
    ensures var d := Decide(rule, stats, now);
      && (d.event.Some? <==> rule.hasTriggered)
      && (d.event.Some? ==> d.event.value.Recovery?)
      && (d.writes == [] <==> (rule.violatingSince.None? && !rule.hasTriggered))
    ensures Next(rule, stats, now) == rule.(violatingSince := None, hasTriggered := false)
  {
    NextIsStep(rule, stats, now);
  }

  /** After every tick a triggered rule has an open window. */
  lemma NextKeepsTriggerInvariant(rule: AlertRule, stats: Metrics.SystemStats, now: int)
    requires TriggerInvariant(rule)
    ensures TriggerInvariant(Next(rule, stats, now))
  {
    NextIsStep(rule, stats, now);
  }

  /** The "==" operator is a 0.01 tolerance: 90.005 matches 90, 90.02 does not. */
  lemma EqualityTolerance()
    ensures IsViolating("==", 90.005, 90.0)
    ensures !IsViolating("==", 90.02, 90.0)
    ensures IsViolating("frobnicate", 90.0, 90.0)
  {
  }

  // ---------------------------------------------------------------------------
  // One rule over many ticks
  // ---------------------------------------------------------------------------

  datatype Tick = Tick(now: int, stats: Metrics.SystemStats)

  /** The rule after a sequence of ticks. */
  function Run(rule: AlertRule, ticks: seq<Tick>): AlertRule
    decreases |ticks|
  {
    if ticks == [] then rule else Run(Next(rule, ticks[0].stats, ticks[0].now), ticks[1..])
  }

  /** The dispatcher calls over a sequence of ticks. */
  function RunEvents(rule: AlertRule, ticks: seq<Tick>): seq<Event>
    decreases |ticks|
  {
    if ticks == [] then []
    else
      var d := Decide(rule, ticks[0].stats, ticks[0].now);
      (if d.event.Some? then [d.event.value] else [])
      + RunEvents(Next(rule, ticks[0].stats, ticks[0].now), ticks[1..])
  }

  function AlertCount(events: seq<Event>): nat {
    if events == [] then 0 else (if events[0].Alert? then 1 else 0) + AlertCount(events[1..])
  }

  /** An inactive rule stays frozen across any number of ticks and never fires. */
  lemma {:induction false} InactiveFrozen(rule: AlertRule, ticks: seq<Tick>)
    requires !rule.isActive
    ensures Run(rule, ticks) == rule
    ensures RunEvents(rule, ticks) == []
    decreases |ticks|
  {
    if ticks != [] {
      InactiveFrozen(rule, ticks[1..]);
    }
  }

  /** While the violation lasts, the window start never moves. */
  lemma {:induction false} WindowStartStays(rule: AlertRule, ticks: seq<Tick>)
    requires rule.isActive && rule.violatingSince.Some?
    requires forall t :: t in ticks ==> Violates(rule, t.stats)
    ensures Run(rule, ticks).violatingSince == rule.violatingSince
    decreases |ticks|
  {
    if ticks != [] {
      var t := ticks[0];
      assert t in ticks;
      var r' := Next(rule, t.stats, t.now);
      ApplyWritesKeepsDefinition(rule, Decide(rule, t.stats, t.now).writes, t.now);
      NextIsStep(rule, t.stats, t.now);
      forall u | u in ticks[1..] ensures Violates(r', u.stats) {
        assert u in ticks;
      }
      WindowStartStays(r', ticks[1..]);
    }
  }

  /** A breach episode starting from idle records the time of its first tick, not a later one. */
  lemma FirstViolationTimeRecorded(rule: AlertRule, ticks: seq<Tick>)
    requires rule.isActive && rule.violatingSince.None?
    requires ticks != []
    requires forall t :: t in ticks ==> Violates(rule, t.stats)
    ensures Run(rule, ticks).violatingSince == Some(ticks[0].now)
  {
    var t := ticks[0];
    assert t in ticks;
    var r' := Next(rule, t.stats, t.now);
    ApplyWritesKeepsDefinition(rule, Decide(rule, t.stats, t.now).writes, t.now);
    NextIsStep(rule, t.stats, t.now);
    forall u | u in ticks[1..] ensures Violates(r', u.stats) {
      assert u in ticks;
    }
    WindowStartStays(r', ticks[1..]);
  }

  /**
   * Without a positive cooldown, an uninterrupted violation fires at most once:
   * never again once triggered, at most once from an untriggered state.
   */
  lemma {:induction false} NoRefireWithoutCooldown(rule: AlertRule, ticks: seq<Tick>)
    requires rule.isActive && TriggerInvariant(rule) && rule.cooldownSeconds <= 0
    requires forall t :: t in ticks ==> Violates(rule, t.stats)
    ensures AlertCount(RunEvents(rule, ticks)) <= if rule.hasTriggered then 0 else 1
    decreases |ticks|
  {
    if ticks != [] {
      var t := ticks[0];
      assert t in ticks;
      var r' := Next(rule, t.stats, t.now);
      ApplyWritesKeepsDefinition(rule, Decide(rule, t.stats, t.now).writes, t.now);
      NextIsStep(rule, t.stats, t.now);
      NextKeepsTriggerInvariant(rule, t.stats, t.now);
      forall u | u in ticks[1..] ensures Violates(r', u.stats) {
        assert u in ticks;
      }
      NoRefireWithoutCooldown(r', ticks[1..]);
      var d := Decide(rule, t.stats, t.now);
      var first := if d.event.Some? then [d.event.value] else [];
      AlertCountAppend(first, RunEvents(r', ticks[1..]));
      if d.event.Some? {
        assert r'.hasTriggered;
      }
    }
  }

  lemma {:induction false} AlertCountAppend(a: seq<Event>, b: seq<Event>)
    ensures AlertCount(a + b) == AlertCount(a) + AlertCount(b)
    decreases |a|
  {
    if a != [] {
      assert a + b != [] && (a + b)[0] == a[0] && (a + b)[1..] == a[1..] + b;
      AlertCountAppend(a[1..], b);
      assert AlertCount(a + b) == (if a[0].Alert? then 1 else 0) + AlertCount(a[1..] + b);
    } else {
      assert a + b == b;
    }
  }

  /** A snapshot in which only the CPU reading matters. */
  function CpuStats(cpu: real): Metrics.SystemStats {
    Metrics.SystemStats(cpu, 1, 0, 0, 0.0, 0, 0, 0.0, 0, 0, 0.0, 0.0)
  }

  /** One tick off the front of a run. */
  lemma RunPrepend(rule: AlertRule, t: Tick, rest: seq<Tick>)
    ensures Run(rule, [t] + rest) == Run(Next(rule, t.stats, t.now), rest)
    ensures var e := Decide(rule, t.stats, t.now).event;
      RunEvents(rule, [t] + rest) == (if e.Some? then [e.value] else []) + RunEvents(Next(rule, t.stats, t.now), rest)
  {
    assert ([t] + rest)[0] == t && ([t] + rest)[1..] == rest;
  }

  /** An active CPU > 80 rule with a 10 s duration and a 60 s cooldown that has never fired. */
  predicate DebounceRule(rule: AlertRule) {
    && rule.isActive && rule.metricType == "CPU" && rule.operator == ">" && rule.thresholdPercent == 80.0
    && rule.durationSeconds == 10 && rule.cooldownSeconds == 60 && rule.sentCount == 0
    && rule.violatingSince.None? && !rule.hasTriggered && rule.lastSentAt.None?
  }

  /**
   * The single ticks of the scenario below: the first violating reading opens
   * the window at 0 s, readings at 3, 6 and 9 s change nothing, the reading at
   * 12 s fires and marks the rule sent, and the reading at 15 s is inside the cooldown.
   */
  lemma DebounceTicks(rule: AlertRule, high: real, low: real)
    requires DebounceRule(rule) && high > 80.0 && low > 80.0
    ensures var r1 := rule.(violatingSince := Some(0));
      var r5 := r1.(hasTriggered := true, sentCount := 1, lastSentAt := Some(12));
      && Next(rule, CpuStats(high), 0) == r1 && Decide(rule, CpuStats(high), 0).event.None?
      && Next(r1, CpuStats(high), 3) == r1 && Decide(r1, CpuStats(high), 3).event.None?
      && Next(r1, CpuStats(high), 6) == r1 && Decide(r1, CpuStats(high), 6).event.None?
      && Next(r1, CpuStats(high), 9) == r1 && Decide(r1, CpuStats(high), 9).event.None?
      && Next(r1, CpuStats(high), 12) == r5 && Decide(r1, CpuStats(high), 12).event == Some(Alert(r1, high))
      && Next(r5, CpuStats(low), 15) == r5 && Decide(r5, CpuStats(low), 15).event.None?
  {
    var r1 := rule.(violatingSince := Some(0));
    var r5 := r1.(hasTriggered := true, sentCount := 1, lastSentAt := Some(12));
    NextIsStep(rule, CpuStats(high), 0);
    NextIsStep(r1, CpuStats(high), 3);
    NextIsStep(r1, CpuStats(high), 6);
    NextIsStep(r1, CpuStats(high), 9);
    NextIsStep(r1, CpuStats(high), 12);
    NextIsStep(r5, CpuStats(low), 15);
  }

  /** In the scenario below, the ticks at 0, 3, 6 and 9 s fire nothing: 9 s of violation is under the duration. */
  lemma DebounceQuietStart(rule: AlertRule, high: real, low: real)
    requires DebounceRule(rule) && high > 80.0 && low > 80.0
    ensures RunEvents(rule, [Tick(0, CpuStats(high)), Tick(3, CpuStats(high)), Tick(6, CpuStats(high)), Tick(9, CpuStats(high))]) == []
  {
    var t0, t3, t6, t9 := Tick(0, CpuStats(high)), Tick(3, CpuStats(high)), Tick(6, CpuStats(high)), Tick(9, CpuStats(high));
    var r1 := rule.(violatingSince := Some(0));
    DebounceTicks(rule, high, low);
    var q3 := [t9];
    var q2 := [t6] + q3;
    var q1 := [t3] + q2;
    assert [t0, t3, t6, t9] == [t0] + q1;
    RunPrepend(r1, t9, []);
    assert RunEvents(r1, q3) == [];
    RunPrepend(r1, t6, q3);
    assert RunEvents(r1, q2) == [];
    RunPrepend(r1, t3, q2);
    assert RunEvents(r1, q1) == [];
    RunPrepend(rule, t0, q1);
  }

  /**
   * CPU > 80 for 10 s with a 60 s cooldown, ticking every 3 s with readings
   * above 80: exactly one alert fires over the six ticks, at 12 s (the first
   * tick at or past the duration), and a reading at 15 s, still violating but
   * inside the cooldown, fires nothing more.
   */
  lemma DebounceScenario(rule: AlertRule, high: real, low: real)
    requires DebounceRule(rule) && high > 80.0 && low > 80.0
    ensures var ticks := [Tick(0, CpuStats(high)), Tick(3, CpuStats(high)), Tick(6, CpuStats(high)),
                          Tick(9, CpuStats(high)), Tick(12, CpuStats(high)), Tick(15, CpuStats(low))];
      && |RunEvents(rule, ticks)| == 1 && RunEvents(rule, ticks)[0].Alert?
      && Run(rule, ticks).sentCount == 1 && Run(rule, ticks).lastSentAt == Some(12)
      && Run(rule, ticks).violatingSince == Some(0)
  {
    var t0, t3, t6, t9 := Tick(0, CpuStats(high)), Tick(3, CpuStats(high)), Tick(6, CpuStats(high)), Tick(9, CpuStats(high));
    var t12, t15 := Tick(12, CpuStats(high)), Tick(15, CpuStats(low));
    var ticks := [t0, t3, t6, t9, t12, t15];
    var r1 := rule.(violatingSince := Some(0));
    var r5 := r1.(hasTriggered := true, sentCount := 1, lastSentAt := Some(12));
    DebounceTicks(rule, high, low);
    var s5 := [t15];
    var s4 := [t12] + s5;
    var s3 := [t9] + s4;
    var s2 := [t6] + s3;
    var s1 := [t3] + s2;
    assert ticks == [t0] + s1;
    var alert := [Alert(r1, high)];
    RunPrepend(r5, t15, []);
    assert Run(r5, s5) == r5 && RunEvents(r5, s5) == [];
    RunPrepend(r1, t12, s5);
    assert Run(r1, s4) == r5 && RunEvents(r1, s4) == alert;
    RunPrepend(r1, t9, s4);
    assert Run(r1, s3) == r5 && RunEvents(r1, s3) == alert;
    RunPrepend(r1, t6, s3);
    assert Run(r1, s2) == r5 && RunEvents(r1, s2) == alert;
    RunPrepend(r1, t3, s2);
    assert Run(r1, s1) == r5 && RunEvents(r1, s1) == alert;
    RunPrepend(rule, t0, s1);
    assert Run(rule, ticks) == r5 && RunEvents(rule, ticks) == alert;

  }

  // ---------------------------------------------------------------------------
  // The evaluation pass over the store
  // ---------------------------------------------------------------------------

  /** A write as the store applies it: to the first rule carrying `id`. */
  function StoreWrite(rules: seq<AlertRule>, id: string, w: Write, now: int): seq<AlertRule> {
    match w
    case SetState(since, triggered) => WithState(rules, id, since, triggered)
    case MarkSent => WithSent(rules, id, now)
  }

  function StoreWrites(rules: seq<AlertRule>, id: string, ws: seq<Write>, now: int): seq<AlertRule>
    decreases |ws|
  {
    if ws == [] then rules else StoreWrites(StoreWrite(rules, id, ws[0], now), id, ws[1..], now)
  }

  lemma {:induction false} StoreWritesShort(rules: seq<AlertRule>, id: string, ws: seq<Write>, now: int)
    ensures |ws| == 0 ==> StoreWrites(rules, id, ws, now) == rules
    ensures |ws| == 1 ==> StoreWrites(rules, id, ws, now) == StoreWrite(rules, id, ws[0], now)
    ensures |ws| == 2 ==> StoreWrites(rules, id, ws, now) == StoreWrite(StoreWrite(rules, id, ws[0], now), id, ws[1], now)
    decreases |ws|
  {
    if |ws| > 0 {
      StoreWritesShort(StoreWrite(rules, id, ws[0], now), id, ws[1..], now);
    }
  }

  /**
   * The store after a pass that decides on the rules of `copy` in order and
   * applies each decision's writes, by id, to the store's current list.
   */
  function Pass(copy: seq<AlertRule>, stats: Metrics.SystemStats, now: int, rules: seq<AlertRule>): seq<AlertRule>
    decreases |copy|
  {
    if copy == [] then rules
    else Pass(copy[1..], stats, now, StoreWrites(rules, copy[0].id, Decide(copy[0], stats, now).writes, now))
  }

  /** The dispatcher calls of a pass, in rule order. */
  function PassEvents(copy: seq<AlertRule>, stats: Metrics.SystemStats, now: int): seq<Event>
    decreases |copy|
  {
    if copy == [] then []
    else
      var e := Decide(copy[0], stats, now).event;
      (if e.Some? then [e.value] else []) + PassEvents(copy[1..], stats, now)
  }

  /** One step of a pass: the first rule of the remaining copy is decided and written back. */
  lemma PassStep(rules: seq<AlertRule>, i: nat, stats: Metrics.SystemStats, now: int, cur: seq<AlertRule>)
    requires i < |rules|
    ensures Pass(rules[i..], stats, now, cur) ==
              Pass(rules[i + 1..], stats, now, StoreWrites(cur, rules[i].id, Decide(rules[i], stats, now).writes, now))
    ensures var e := Decide(rules[i], stats, now).event;
              PassEvents(rules[i..], stats, now) == (if e.Some? then [e.value] else []) + PassEvents(rules[i + 1..], stats, now)
  {
    assert rules[i..][0] == rules[i] && rules[i..][1..] == rules[i + 1..];
  }

  /**
   * evaluateRules: one tick. An empty rule list returns before the metrics are
   * sampled. Otherwise one snapshot is taken and shared by every rule, and each
   * active rule of the copy is decided and written back by id.
   */
  method EvaluateRules(store: Store, sampler: Metrics.Sampler, reading: Metrics.HostReading, now: int)
    returns (events: seq<Event>)
    requires sampler.Valid()
    modifies store`alertRules, sampler, sampler.historyList
    ensures sampler.Valid()
    ensures old(store.alertRules) == [] ==>
              store.alertRules == [] && events == [] && unchanged(sampler, sampler.historyList)
    ensures old(store.alertRules) != [] ==>
              var stats := Metrics.Snapshot(reading, sampler.cores, old(sampler.lastNet), now);
              && sampler.samples == old(sampler.samples) + [stats]
              && sampler.lastNet == Metrics.NetStep(old(sampler.lastNet), reading.net, now).next
              && sampler.historyIndex == (old(sampler.historyIndex) + 1) % Metrics.HistorySize
              && store.alertRules == Pass(old(store.alertRules), stats, now, old(store.alertRules))
              && events == PassEvents(old(store.alertRules), stats, now)
  {
    var rules := store.GetRules();
    assert rules == store.alertRules;
    if |rules| == 0 {
      return [];
    }
    var stats := sampler.GetStats(reading, now);
    events := [];
    var i := 0;
    while i < |rules|
      modifies store`alertRules
      invariant 0 <= i <= |rules|
      invariant Pass(rules[i..], stats, now, store.alertRules) == Pass(rules, stats, now, rules)
      invariant events + PassEvents(rules[i..], stats, now) == PassEvents(rules, stats, now)
    {
      PassStep(rules, i, stats, now, store.alertRules);
      ghost var rest := PassEvents(rules[i + 1..], stats, now);
      var event := EvaluateRule(store, rules[i], stats, now);
      if event.Some? {
        assert events + [event.value] + rest == events + ([event.value] + rest);
        events := events + [event.value];
      } else {
        assert [] + rest == rest;
      }
      i := i + 1;
    }
    assert rules[|rules|..] == [];
  }

  /**
   * The body of evaluateRules' loop for one rule of the copy: the decision is
   * taken on the copy, the writes go to the store by id, and a fired alert or
   * recovery is handed to the dispatcher.
   */
  method EvaluateRule(store: Store, rule: AlertRule, stats: Metrics.SystemStats, now: int)
    returns (event: Option<Event>)
    modifies store`alertRules
    ensures store.alertRules == StoreWrites(old(store.alertRules), rule.id, Decide(rule, stats, now).writes, now)
    ensures event == Decide(rule, stats, now).event
  {
    StoreWritesShort(store.alertRules, rule.id, Decide(rule, stats, now).writes, now);
    event := None;
    if !rule.isActive {
      return;
    }
    var value := MetricValue(rule.metricType, stats);
    var violating := IsViolating(rule.operator, value, rule.thresholdPercent);
    if violating {
      if rule.violatingSince.None? {
        store.UpdateRuleState(rule.id, Some(now), false);
        return;
      }
      if now - rule.violatingSince.value >= rule.durationSeconds {
        if !rule.hasTriggered {
          event := Some(Alert(rule, value));
          store.UpdateRuleState(rule.id, rule.violatingSince, true);
          store.MarkRuleSent(rule.id, now);
        } else if rule.cooldownSeconds > 0 && rule.lastSentAt.Some? {
          if now - rule.lastSentAt.value >= rule.cooldownSeconds {
            event := Some(Alert(rule, value));
            store.MarkRuleSent(rule.id, now);
          }
        }
      }
    } else {
      if rule.hasTriggered {
        event := Some(Recovery(rule, value));
      }
      if rule.violatingSince.Some? || rule.hasTriggered {
        store.UpdateRuleState(rule.id, None, false);
      }
    }
  }

  // ---------------------------------------------------------------------------
  // Properties of a pass
  // ---------------------------------------------------------------------------

  predicate UniqueIds(rules: seq<AlertRule>) {
    forall i, j :: 0 <= i < j < |rules| ==> rules[i].id != rules[j].id
  }

  /** A write only changes the target's runtime state: lengths, ids and definitions stay. */
  lemma StoreWriteFrame(rules: seq<AlertRule>, id: string, w: Write, now: int)
    ensures var r := StoreWrite(rules, id, w, now);
      |r| == |rules| && forall k :: 0 <= k < |rules| ==> SameDefinition(r[k], rules[k]) && r[k].sentCount >= rules[k].sentCount
  {
    var r := StoreWrite(rules, id, w, now);
    forall k | 0 <= k < |rules| ensures SameDefinition(r[k], rules[k]) && r[k].sentCount >= rules[k].sentCount {
      match w
      case SetState(s, t) => WithStateSpec(rules, id, s, t, k);
      case MarkSent => WithSentSpec(rules, id, now, k);
    }
  }

  /** When the first match is at `j`, the writes land on position `j` as they would on the rule alone. */
  lemma {:induction false} StoreWritesAt(rules: seq<AlertRule>, id: string, ws: seq<Write>, now: int, j: nat)
    requires FindRule(rules, id) == Some(j)
    ensures StoreWrites(rules, id, ws, now) == rules[j := ApplyWrites(rules[j], ws, now)]
    decreases |ws|
  {
    if ws != [] {
      var r1 := StoreWrite(rules, id, ws[0], now);
      assert r1 == rules[j := ApplyWrite(rules[j], ws[0], now)] by {
        match ws[0]
        case SetState(since, t) => UpdateFirstSpec(rules, id, (r: AlertRule) => r.(violatingSince := since, hasTriggered := t));
        case MarkSent => UpdateFirstSpec(rules, id, (r: AlertRule) => r.(sentCount := r.sentCount + 1, lastSentAt := Some(now)));
      }
      assert r1[j].id == id;
      assert forall k :: 0 <= k < j ==> r1[k] == rules[k];
      StoreWritesAt(r1, id, ws[1..], now, j);
      assert r1[j := ApplyWrites(r1[j], ws[1..], now)] == rules[j := ApplyWrites(rules[j], ws, now)];
    }
  }

  /** Writes by id keep the store's length, ids and definitions, and never lower a send count. */
  lemma {:induction false} StoreWritesFrame(rules: seq<AlertRule>, id: string, ws: seq<Write>, now: int)
    ensures var r := StoreWrites(rules, id, ws, now);
      |r| == |rules| && forall k :: 0 <= k < |rules| ==> SameDefinition(r[k], rules[k]) && r[k].sentCount >= rules[k].sentCount
    decreases |ws|
  {
    if ws != [] {
      StoreWriteFrame(rules, id, ws[0], now);
      StoreWritesFrame(StoreWrite(rules, id, ws[0], now), id, ws[1..], now);
    }
  }

  /**
   * With distinct ids and no concurrent edit (the store still holds the copy),
   * a pass leaves every rule exactly as its own tick decides.
   */
  lemma PassPerRule(copy: seq<AlertRule>, stats: Metrics.SystemStats, now: int)
    requires UniqueIds(copy)
    ensures |Pass(copy, stats, now, copy)| == |copy|
    ensures forall k :: 0 <= k < |copy| ==> Pass(copy, stats, now, copy)[k] == Next(copy[k], stats, now)
  {
    assert copy[0..] == copy;
    PassFrom(copy, stats, now, copy, 0);
  }

  lemma {:induction false} PassFrom(copy: seq<AlertRule>, stats: Metrics.SystemStats, now: int, s: seq<AlertRule>, j: nat)
    requires UniqueIds(copy) && |s| == |copy| && j <= |copy|
    requires forall k :: 0 <= k < |copy| ==> s[k].id == copy[k].id
    requires forall k :: 0 <= k < j ==> s[k] == Next(copy[k], stats, now)
    requires forall k :: j <= k < |copy| ==> s[k] == copy[k]
    ensures |Pass(copy[j..], stats, now, s)| == |copy|
    ensures forall k :: 0 <= k < |copy| ==> Pass(copy[j..], stats, now, s)[k] == Next(copy[k], stats, now)
    decreases |copy| - j
  {
    if j < |copy| {
      var rule := copy[j];
      var ws := Decide(rule, stats, now).writes;
      assert copy[j..][0] == rule && copy[j..][1..] == copy[j + 1..];
      assert FindRule(s, rule.id) == Some(j);
      StoreWritesAt(s, rule.id, ws, now, j);
      var s' := s[j := ApplyWrites(s[j], ws, now)];
      ApplyWritesKeepsDefinition(s[j], ws, now);
      PassFrom(copy, stats, now, s', j + 1);
    }
  }

  /**
   * Whatever the copy holds (stale, duplicated or deleted rules), a pass keeps
   * "triggered implies an open window" for every rule of the store.
   */
  lemma {:induction false} PassKeepsTriggerInvariant(copy: seq<AlertRule>, stats: Metrics.SystemStats, now: int, rules: seq<AlertRule>)
    requires AllTriggerInvariant(rules)
    ensures AllTriggerInvariant(Pass(copy, stats, now, rules))
    decreases |copy|
  {
    if copy != [] {
      var ws := Decide(copy[0], stats, now).writes;
      DecideWritesWellFormed(copy[0], stats, now);
      StoreWritesKeepTriggerInvariant(rules, copy[0].id, ws, now);
      PassKeepsTriggerInvariant(copy[1..], stats, now, StoreWrites(rules, copy[0].id, ws, now));
    }
  }

  lemma {:induction false} StoreWritesKeepTriggerInvariant(rules: seq<AlertRule>, id: string, ws: seq<Write>, now: int)
    requires AllTriggerInvariant(rules)
    requires forall k :: 0 <= k < |ws| ==> WellFormed(ws[k])
    ensures AllTriggerInvariant(StoreWrites(rules, id, ws, now))
    decreases |ws|
  {
    if ws != [] {
      var r1 := StoreWrite(rules, id, ws[0], now);
      assert WellFormed(ws[0]);
      forall k | 0 <= k < |rules| ensures TriggerInvariant(r1[k]) {
        match ws[0]
        case SetState(s, t) => WithStateSpec(rules, id, s, t, k);
        case MarkSent => WithSentSpec(rules, id, now, k);
      }
      StoreWriteFrame(rules, id, ws[0], now);
      StoreWritesKeepTriggerInvariant(r1, id, ws[1..], now);
    }
  }

  /** A pass keeps the store's length, ids and definitions, and no send count ever goes down. */
  lemma {:induction false} PassSentCountMonotone(copy: seq<AlertRule>, stats: Metrics.SystemStats, now: int, rules: seq<AlertRule>)
    ensures var r := Pass(copy, stats, now, rules);
      |r| == |rules| && forall k :: 0 <= k < |rules| ==> SameDefinition(r[k], rules[k]) && r[k].sentCount >= rules[k].sentCount
    decreases |copy|
  {
    if copy != [] {
      var ws := Decide(copy[0], stats, now).writes;
      var r1 := StoreWrites(rules, copy[0].id, ws, now);
      StoreWritesFrame(rules, copy[0].id, ws, now);
      PassSentCountMonotone(copy[1..], stats, now, r1);
    }
  }

  // ---------------------------------------------------------------------------
  // Action dispatch
  // ---------------------------------------------------------------------------

  const AllowedCommands: seq<string> := [
    "docker stop $(docker ps -q)",
    "sync; echo 1 > /proc/sys/vm/drop_caches",
    "systemctl restart my-app"
  ]

  const DangerousFragments: seq<string> := [";", "&", "|", "$", ">", "<", "`", "\n"]

  /** Whether any of `fragments` occurs in `cmd`. */
  predicate ContainsAny(cmd: string, fragments: seq<string>) {
    exists k :: 0 <= k < |fragments| && Contains(cmd, fragments[k])
  }

  /**
   * containsShellInjection: a command whose trimmed text is one of the three
   * presets is safe; any other is unsafe exactly when it contains a shell
   * metacharacter.
   */
  predicate ContainsShellInjection(cmd: string) {
    if TrimSpace(cmd) in AllowedCommands then false
    else ContainsAny(cmd, DangerousFragments)
  }

  /** The fragment list is the eight one-character shell metacharacters. */
  lemma DangerousChars(cmd: string)
    ensures ContainsAny(cmd, DangerousFragments) <==>
              (';' in cmd || '&' in cmd || '|' in cmd || '$' in cmd || '>' in cmd || '<' in cmd || '`' in cmd || '\n' in cmd)
  {
    var f := DangerousFragments;
    if ContainsAny(cmd, f) {
      var k :| 0 <= k < |f| && Contains(cmd, f[k]);
      assert f[k] == [f[k][0]];
      ContainsChar(cmd, f[k][0]);
      assert f[k][0] in cmd;
      assert f[k][0] in [';', '&', '|', '$', '>', '<', '`', '\n'];
    }
    var i := if ';' in cmd then 0 else if '&' in cmd then 1 else if '|' in cmd then 2 else if '$' in cmd then 3
             else if '>' in cmd then 4 else if '<' in cmd then 5 else if '`' in cmd then 6 else 7;
    if f[i][0] in cmd {
      assert f[i] == [f[i][0]];
      ContainsChar(cmd, f[i][0]);
      assert Contains(cmd, f[i]);
    }
  }

  /**
   * A command is refused exactly when its trimmed text is none of the presets
   * and it holds one of ; & | $ > < ` or a newline.
   */
  lemma ShellGuardSpec(cmd: string)
    ensures ContainsShellInjection(cmd) <==>
              (TrimSpace(cmd) !in AllowedCommands &&
               (';' in cmd || '&' in cmd || '|' in cmd || '$' in cmd || '>' in cmd || '<' in cmd || '`' in cmd || '\n' in cmd))
  {
    DangerousChars(cmd);
  }

  /** A preset padded with white space is still accepted. */
  lemma PaddedPresetAccepted(pre: string, k: nat, post: string)
    requires AllSpace(pre) && AllSpace(post) && k < |AllowedCommands|
    ensures !ContainsShellInjection(pre + AllowedCommands[k] + post)
  {
    var w := AllowedCommands[k];
    assert w[0] in "dsy" && w[|w| - 1] in "ps)";
    TrimSpaceOfPadded(pre, w, post);
  }

  /** How numbers and the host name reach a message: "%.2f", "%d" and os.Hostname. */
  datatype Render = Render(hostname: string, fixed2: real -> string, decimal: int -> string)

  const DefaultRecoveryTemplate: string :=
    "[ZeroStat-Go] {hostname} Recovery: {metric} is now at {value}%. System is safe."
  const DefaultAlertTemplate: string :=
    "[ZeroStat-Go] {hostname} Warning: {metric} value is {value}%! (Threshold: {operator}{threshold}, Duration: {duration}s)"

  /** The rule's own template serves alerts and recoveries alike; an empty one selects the default of the kind. */
  function SelectTemplate(template: string, isRecovery: bool): (t: string)
    ensures template != "" ==> t == template
    ensures template == "" && isRecovery ==> t == DefaultRecoveryTemplate
    ensures template == "" && !isRecovery ==> t == DefaultAlertTemplate
  {
    if isRecovery && template == "" then DefaultRecoveryTemplate
    else if template == "" then DefaultAlertTemplate
    else template
  }

  /**
   * buildMessage: the selected template with {hostname}, {metric}, {value},
   * {threshold}, {operator} and {duration} replaced literally, in that order,
   * each replacement working on the result of the previous one.
   */
  function BuildMessage(rule: AlertRule, value: real, isRecovery: bool, env: Render): string {
    var host := if env.hostname == "" then "unknown-host" else env.hostname;
    var m0 := SelectTemplate(rule.messageTemplate, isRecovery);
    var m1 := ReplaceAll(m0, "{hostname}", host);
    var m2 := ReplaceAll(m1, "{metric}", rule.metricType);
    var m3 := ReplaceAll(m2, "{value}", env.fixed2(value));
    var m4 := ReplaceAll(m3, "{threshold}", env.fixed2(rule.thresholdPercent));
    var m5 := ReplaceAll(m4, "{operator}", rule.operator);
    ReplaceAll(m5, "{duration}", env.decimal(rule.durationSeconds))
  }

  /** The six placeholders, in the order buildMessage replaces them. */
  const Placeholders: seq<string> := ["{hostname}", "{metric}", "{value}", "{threshold}", "{operator}", "{duration}"]

  /** What each placeholder of Placeholders is replaced by. */
  function Rendered(rule: AlertRule, value: real, env: Render): (vals: seq<string>)
    ensures |vals| == |Placeholders|
    ensures vals[0] != ""
  {
    [if env.hostname == "" then "unknown-host" else env.hostname,
     rule.metricType, env.fixed2(value), env.fixed2(rule.thresholdPercent),
     rule.operator, env.decimal(rule.durationSeconds)]
  }

  /** The message after the first `j` replacements, for a template holding one placeholder, number k. */
  ghost function Stage(pre: string, k: nat, post: string, vals: seq<string>, j: nat): string
    requires k < |Placeholders| == |vals|
  {
    if j <= k then pre + Placeholders[k] + post else pre + vals[k] + post
  }

  /** One replacement step: placeholders before k find nothing, k is substituted, later ones find no `{`. */
  lemma StageStep(pre: string, k: nat, post: string, vals: seq<string>, j: nat)
    requires k < |Placeholders| == |vals| && j < |Placeholders|
    requires '{' !in pre && '{' !in post && '{' !in vals[k]
    ensures ReplaceAll(Stage(pre, k, post, vals, j), Placeholders[j], vals[j]) == Stage(pre, k, post, vals, j + 1)
  {
    var pj, pk := Placeholders[j], Placeholders[k];
    assert pj[0] == '{' && |pj| > 1 && '{' !in pj[1..];
    assert pk[0] == '{' && |pk| > 1 && '{' !in pk[1..];
    if j < k {
      assert pk[1] != pj[1];
      ReplaceAllOther(pre, pk, post, pj, vals[j]);
    } else if j == k {
      ReplaceAllOccurrence(pre, pj, vals[j], post);
      ReplaceAllNoBrace(post, pj, vals[j]);
    } else {
      ReplaceAllNoBrace(pre + vals[k] + post, pj, vals[j]);
    }
  }

  /**
   * A custom template holding one placeholder and no other `{` is sent with
   * that placeholder replaced by its value, provided the value holds no `{`.
   */
  lemma BuildMessageSubstitutes(rule: AlertRule, value: real, isRecovery: bool, env: Render,
                                pre: string, k: nat, post: string)
    requires k < |Placeholders| && rule.messageTemplate == pre + Placeholders[k] + post
    requires '{' !in pre && '{' !in post && '{' !in Rendered(rule, value, env)[k]
    ensures BuildMessage(rule, value, isRecovery, env) == pre + Rendered(rule, value, env)[k] + post
  {
    var vals := Rendered(rule, value, env);
    assert SelectTemplate(rule.messageTemplate, isRecovery) == Stage(pre, k, post, vals, 0);
    StageStep(pre, k, post, vals, 0);
    StageStep(pre, k, post, vals, 1);
    StageStep(pre, k, post, vals, 2);
    StageStep(pre, k, post, vals, 3);
    StageStep(pre, k, post, vals, 4);
    StageStep(pre, k, post, vals, 5);
  }

  /** A custom template without placeholders is sent as written, for alerts and recoveries. */
  lemma PlainTemplateVerbatim(rule: AlertRule, value: real, isRecovery: bool, env: Render)
    requires rule.messageTemplate != "" && '{' !in rule.messageTemplate
    ensures BuildMessage(rule, value, isRecovery, env) == rule.messageTemplate
  {
    var t := rule.messageTemplate;
    var host := if env.hostname == "" then "unknown-host" else env.hostname;
    ReplaceAllNoBrace(t, "{hostname}", host);
    ReplaceAllNoBrace(t, "{metric}", rule.metricType);
    ReplaceAllNoBrace(t, "{value}", env.fixed2(value));
    ReplaceAllNoBrace(t, "{threshold}", env.fixed2(rule.thresholdPercent));
    ReplaceAllNoBrace(t, "{operator}", rule.operator);
    ReplaceAllNoBrace(t, "{duration}", env.decimal(rule.durationSeconds));
  }

  /**
   * Replacement is sequential: a host name that itself reads "{metric}" is
   * turned into the metric name by the next replacement.
   */
  lemma ReplacementIsSequential(rule: AlertRule, value: real, isRecovery: bool, env: Render)
    requires rule.messageTemplate == "{hostname}" && env.hostname == "{metric}"
    requires '{' !in rule.metricType
    ensures BuildMessage(rule, value, isRecovery, env) == rule.metricType
  {
    var m := rule.metricType;
    assert ReplaceAll("{hostname}", "{hostname}", "{metric}") == "{metric}" by {
      assert "{hostname}"[..|"{hostname}"|] == "{hostname}";
      assert "{hostname}"[|"{hostname}"|..] == "";
    }
    assert ReplaceAll("{metric}", "{metric}", m) == m by {
      assert "{metric}"[..|"{metric}"|] == "{metric}";
      assert "{metric}"[|"{metric}"|..] == "";
    }
    ReplaceAllNoBrace(m, "{value}", env.fixed2(value));
    ReplaceAllNoBrace(m, "{threshold}", env.fixed2(rule.thresholdPercent));
    ReplaceAllNoBrace(m, "{operator}", rule.operator);
    ReplaceAllNoBrace(m, "{duration}", env.decimal(rule.durationSeconds));
  }

  /** What a dispatch leads to: a notification, a guarded shell run, or a refused command. */
  datatype Effect = Notify(channel: string, message: string) | RunShell(command: string) | BlockedShell(command: string)

  predicate ChannelEnabled(channel: string) {
    channel != "" && channel != "none"
  }

  /** executeSafeShell's guard. */
  function ShellEffect(command: string): (e: Effect)
    ensures e.RunShell? || e.BlockedShell?
    ensures e.RunShell? <==> !ContainsShellInjection(command)
    ensures e.command == command
  {
    if ContainsShellInjection(command) then BlockedShell(command) else RunShell(command)
  }

  /** executeAction: notify on an enabled channel, then hand any configured command to the guard. */
  function ExecuteAction(rule: AlertRule, value: real, env: Render): seq<Effect> {
    (if ChannelEnabled(rule.notificationChannel)
     then [Notify(rule.notificationChannel, BuildMessage(rule, value, false, env))] else [])
    + (if rule.shellCommand != "" then [ShellEffect(rule.shellCommand)] else [])
  }

  /** sendRecoveryNotification: a notification on an enabled channel, never a command. */
  function SendRecovery(rule: AlertRule, value: real, env: Render): seq<Effect> {
    if ChannelEnabled(rule.notificationChannel)
    then [Notify(rule.notificationChannel, BuildMessage(rule, value, true, env))] else []
  }

  function Dispatch(e: Event, env: Render): seq<Effect> {
    match e
    case Alert(rule, value) => ExecuteAction(rule, value, env)
    case Recovery(rule, value) => SendRecovery(rule, value, env)
  }

  /** The notification a dispatch sends, if the rule's channel is enabled. */
  function NotifyPart(e: Event, env: Render): seq<Effect> {
    if ChannelEnabled(e.rule.notificationChannel)
    then [Notify(e.rule.notificationChannel, BuildMessage(e.rule, e.value, e.Recovery?, env))] else []
  }

  /** A dispatch is its notification followed, for an alert with a command, by the guarded command. */
  lemma DispatchParts(e: Event, env: Render)
    ensures Dispatch(e, env) == NotifyPart(e, env) +
              (if e.Alert? && e.rule.shellCommand != "" then [ShellEffect(e.rule.shellCommand)] else [])
  {
    if e.Recovery? {
      assert Dispatch(e, env) == NotifyPart(e, env) + [];
    }
  }

  /** Only alerts run commands, only their rule's own command, and only what the guard passes. */
  lemma DispatchGating(e: Event, env: Render)
    ensures forall f :: f in Dispatch(e, env) && f.RunShell? ==>
              e.Alert? && f.command == e.rule.shellCommand && !ContainsShellInjection(f.command)
  {
    DispatchParts(e, env);
    forall f | f in Dispatch(e, env) && f.RunShell?
      ensures e.Alert? && f.command == e.rule.shellCommand && !ContainsShellInjection(f.command)
    {
      assert f !in NotifyPart(e, env);
    }
  }

  /** Every notification goes to the rule's enabled channel with the message built for the event's kind. */
  lemma DispatchNotifications(e: Event, env: Render)
    ensures forall f :: f in Dispatch(e, env) && f.Notify? ==>
              f.channel == e.rule.notificationChannel && ChannelEnabled(f.channel)
              && f.message == BuildMessage(e.rule, e.value, e.Recovery?, env)
  {
    DispatchParts(e, env);
    forall f | f in Dispatch(e, env) && f.Notify?
      ensures f.channel == e.rule.notificationChannel && ChannelEnabled(f.channel)
              && f.message == BuildMessage(e.rule, e.value, e.Recovery?, env)
    {
      if e.Alert? && e.rule.shellCommand != "" {
        assert ShellEffect(e.rule.shellCommand).RunShell? || ShellEffect(e.rule.shellCommand).BlockedShell?;
      }
      assert f in NotifyPart(e, env);
    }
  }

  /** An alert whose command passes the guard does run it. */
  lemma DispatchRunsPassedCommand(e: Event, env: Render)
    requires e.Alert? && e.rule.shellCommand != "" && !ContainsShellInjection(e.rule.shellCommand)
    ensures RunShell(e.rule.shellCommand) in Dispatch(e, env)
  {
    DispatchParts(e, env);
    assert ShellEffect(e.rule.shellCommand) == RunShell(e.rule.shellCommand);
  }

  /** Where sendNotification delivers a message; a channel without its settings delivers nothing. */
  datatype Delivery =
    | Webhook(url: string, text: string)
    | Telegram(botToken: string, chatId: string, text: string)
    | Email(host: string, port: string, user: string, to: string, text: string)
    | NotConfigured(channel: string)
    | UnknownChannel

  function Route(channel: string, notif: NotificationConfig, message: string): (d: Delivery)
    ensures d.Webhook? <==> channel == "webhook" && notif.webhookUrl != ""
    ensures d.Telegram? <==> channel == "telegram" && notif.tgBotToken != "" && notif.tgChatId != ""
    ensures d.Email? <==> channel == "email" && notif.smtpHost != "" && notif.smtpTo != ""
    ensures d.UnknownChannel? <==> channel !in {"webhook", "telegram", "email"}
    ensures d.NotConfigured? ==> d.channel == channel
    ensures d.Webhook? ==> d == Webhook(notif.webhookUrl, message)
    ensures d.Telegram? ==> d == Telegram(notif.tgBotToken, notif.tgChatId, message)
    ensures d.Email? ==> d == Email(notif.smtpHost, notif.smtpPort, notif.smtpUser, notif.smtpTo, message)
  {
    if channel == "webhook" then
      if notif.webhookUrl != "" then Webhook(notif.webhookUrl, message) else NotConfigured(channel)
    else if channel == "telegram" then
      if notif.tgBotToken != "" && notif.tgChatId != "" then Telegram(notif.tgBotToken, notif.tgChatId, message)
      else NotConfigured(channel)
    else if channel == "email" then
      if notif.smtpHost != "" && notif.smtpTo != "" then Email(notif.smtpHost, notif.smtpPort, notif.smtpUser, notif.smtpTo, message)
      else NotConfigured(channel)
    else UnknownChannel
  }
}
