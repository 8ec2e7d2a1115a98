/**
 * The rule store: alert rules with their engine-owned runtime state, the
 * notification settings and the scalar settings, held by one configuration
 * object whose methods update it in place.
 */
module Config {
  import opened Wrappers

  /** Connection parameters of the three notification channels. */
  datatype NotificationConfig = NotificationConfig(
    tgBotToken: string, tgChatId: string, webhookUrl: string,
    smtpHost: string, smtpPort: string, smtpUser: string, smtpPass: string, smtpTo: string)

  /**
   * A user-authored rule plus its runtime state. Timestamps are whole seconds;
   * `None` stands for Go's nil *time.Time.
   */
  datatype AlertRule = AlertRule(
    id: string,
    metricType: string,         // "CPU", "RAM" or "Disk"
    operator: string,           // ">", "<", "==" (anything else means >=)
    thresholdPercent: real,
    durationSeconds: int,
    cooldownSeconds: int,
    sentCount: int,
    messageTemplate: string,
    shellCommand: string,
    notificationChannel: string,
    isActive: bool,
    // runtime state
    violatingSince: Option<int>,
    hasTriggered: bool,
    lastSentAt: Option<int>)

  /** A trigger cannot exist without an open violation window. */
  predicate TriggerInvariant(r: AlertRule) {
    r.hasTriggered ==> r.violatingSince.Some?
  }

  predicate AllTriggerInvariant(rules: seq<AlertRule>) {
    forall k :: 0 <= k < |rules| ==> TriggerInvariant(rules[k])
  }

  /** The position of the first rule carrying `id`, if any. */
  function FindRule(rules: seq<AlertRule>, id: string): (r: Option<nat>)
    ensures r.Some? ==> r.value < |rules| && rules[r.value].id == id
    ensures r.Some? ==> forall k :: 0 <= k < r.value ==> rules[k].id != id
    ensures r.None? ==> forall k :: 0 <= k < |rules| ==> rules[k].id != id
  {
    if rules == [] then None
    else if rules[0].id == id then Some(0)
    else match FindRule(rules[1..], id)
      case None => None
      case Some(i) => Some(i + 1)
  }

  /** Applies `f` to the first rule carrying `id`; an unknown id leaves the list as it is. */
  function UpdateFirst(rules: seq<AlertRule>, id: string, f: AlertRule -> AlertRule): seq<AlertRule> {
    match FindRule(rules, id)
    case None => rules
    case Some(i) => rules[i := f(rules[i])]
  }

  /** What UpdateRuleState does to the list. */
  function WithState(rules: seq<AlertRule>, id: string, since: Option<int>, triggered: bool): seq<AlertRule> {
    UpdateFirst(rules, id, (r: AlertRule) => r.(violatingSince := since, hasTriggered := triggered))
  }

  /** What MarkRuleSent does to the list, `now` being the clock reading it takes. */
  function WithSent(rules: seq<AlertRule>, id: string, now: int): seq<AlertRule> {
    UpdateFirst(rules, id, (r: AlertRule) => r.(sentCount := r.sentCount + 1, lastSentAt := Some(now)))
  }

  /**
   * Find-first-by-id update: exactly the first rule with the id is replaced by
   * `f` of it, every other rule stays, and an unknown id changes nothing.
   */
  lemma UpdateFirstSpec(rules: seq<AlertRule>, id: string, f: AlertRule -> AlertRule)
    ensures |UpdateFirst(rules, id, f)| == |rules|
    ensures forall k :: 0 <= k < |rules| && rules[k].id == id && (forall j :: 0 <= j < k ==> rules[j].id != id)
              ==> UpdateFirst(rules, id, f)[k] == f(rules[k])
    ensures forall k :: 0 <= k < |rules| && (rules[k].id != id || exists j :: 0 <= j < k && rules[j].id == id)
              ==> UpdateFirst(rules, id, f)[k] == rules[k]
    ensures (forall k :: 0 <= k < |rules| ==> rules[k].id != id) ==> UpdateFirst(rules, id, f) == rules
  {
  }

  /** UpdateRuleState touches only the two state fields of the first matching rule. */
  lemma WithStateSpec(rules: seq<AlertRule>, id: string, since: Option<int>, triggered: bool, k: nat)
    requires k < |rules|
    ensures |WithState(rules, id, since, triggered)| == |rules|
    ensures WithState(rules, id, since, triggered)[k] ==
              if FindRule(rules, id) == Some(k)
              then rules[k].(violatingSince := since, hasTriggered := triggered)
              else rules[k]
  {
  }

  /** MarkRuleSent counts one more send and stamps the time on the first matching rule only. */
  lemma WithSentSpec(rules: seq<AlertRule>, id: string, now: int, k: nat)
    requires k < |rules|
    ensures |WithSent(rules, id, now)| == |rules|
    ensures WithSent(rules, id, now)[k] ==
              if FindRule(rules, id) == Some(k)
              then rules[k].(sentCount := rules[k].sentCount + 1, lastSentAt := Some(now))
              else rules[k]
    ensures WithSent(rules, id, now)[k].sentCount >= rules[k].sentCount
  {
  }

  /** The configuration object: scalar settings, notification settings and the rule list. */
  class Store {
    var port: string
    var password: string
    var theme: string
    var locale: string
    var alertRules: seq<AlertRule>
    var notif: NotificationConfig

    /**
     * Init: environment values, or the built-in defaults when they are empty.
     * The theme always starts dark and the rule list empty.
     */
    constructor Init(envPort: string, envPassword: string, envLocale: string, envNotif: NotificationConfig)
      ensures port == if envPort == "" then "9124" else envPort
      ensures password == if envPassword == "" then "admin" else envPassword
      ensures locale == if envLocale == "" then "en" else envLocale
      ensures theme == "dark"
      ensures alertRules == []
      ensures notif == envNotif
    {
      port := if envPort == "" then "9124" else envPort;
      password := if envPassword == "" then "admin" else envPassword;
      locale := if envLocale == "" then "en" else envLocale;
      theme := "dark";
      alertRules := [];
      notif := envNotif;
    }

    /** LoadRules: a list read and decoded from disk replaces the rules; a failed read or decode keeps them. */
    method LoadRules(decoded: Option<seq<AlertRule>>)
      modifies this`alertRules
      ensures alertRules == if decoded.Some? then decoded.value else old(alertRules)
    {
      if decoded.Some? {
        SetRules(decoded.value);
      }
    }

    function GetPort(): string reads this { port }
    function GetPassword(): string reads this { password }
    function GetTheme(): string reads this { theme }
    function GetLocale(): string reads this { locale }
    function GetNotif(): NotificationConfig reads this { notif }

    method SetPort(p: string)
      modifies this`port
      ensures GetPort() == p
    {
      port := p;
    }

    method SetPassword(p: string)
      modifies this`password
      ensures GetPassword() == p
    {
      password := p;
    }

    method SetTheme(t: string)
      modifies this`theme
      ensures GetTheme() == t
    {
      theme := t;
    }

    method SetLocale(l: string)
      modifies this`locale
      ensures GetLocale() == l
    {
      locale := l;
    }

    method SetNotif(n: NotificationConfig)
      modifies this`notif
      ensures GetNotif() == n
    {
      notif := n;
    }

    /** A copy of the rule list; being a value, later edits of it never reach the store. */
    method GetRules() returns (rules: seq<AlertRule>)
      ensures |rules| == |alertRules|
      ensures forall k :: 0 <= k < |rules| ==> rules[k] == alertRules[k]
    {
      rules := alertRules;
    }

    /** Replaces the whole collection. */
    method SetRules(rules: seq<AlertRule>)
      modifies this`alertRules
      ensures alertRules == rules
    {
      alertRules := rules;
    }

    /** Sets the violation window and the triggered flag of the first rule with `id`. */
    method UpdateRuleState(id: string, since: Option<int>, triggered: bool)
      modifies this`alertRules
      ensures alertRules == WithState(old(alertRules), id, since, triggered)
    {
      var i := 0;
      while i < |alertRules|
        invariant 0 <= i <= |alertRules|
        invariant alertRules == old(alertRules)
        invariant forall k :: 0 <= k < i ==> alertRules[k].id != id
      {
        if alertRules[i].id == id {
          alertRules := alertRules[i := alertRules[i].(violatingSince := since, hasTriggered := triggered)];
          return;
        }
        i := i + 1;
      }
    }

    /** Counts one more send of the first rule with `id` and records `now` as its last send. */
    method MarkRuleSent(id: string, now: int)
      modifies this`alertRules
      ensures alertRules == WithSent(old(alertRules), id, now)
    {
      var i := 0;
      while i < |alertRules|
        invariant 0 <= i <= |alertRules|
        invariant alertRules == old(alertRules)
        invariant forall k :: 0 <= k < i ==> alertRules[k].id != id
      {
        if alertRules[i].id == id {
          alertRules := alertRules[i := alertRules[i].(sentCount := alertRules[i].sentCount + 1, lastSentAt := Some(now))];
          return;
        }
        i := i + 1;
      }
    }
  }
}
