/**
 * The request layer's state changes: the login back-off counter, the
 * settings form, and the rule list operations behind the automation page
 * (add, toggle, delete), each a read-copy-modify-write of the store's list.
 */
module Handlers {
  import opened Wrappers
  import opened Config

  // ---------------------------------------------------------------------------
  // Login back-off
  // ---------------------------------------------------------------------------

  const DelayStepMs: nat := 500
  const MaxDelayMs: nat := 5000

  /** The wait before a password is checked: 500 ms per earlier failure, at most 5 s. */
  function LoginDelayMs(failedAttempts: nat): (d: nat)
    ensures d <= MaxDelayMs && d <= failedAttempts * DelayStepMs
    ensures d == failedAttempts * DelayStepMs || d == MaxDelayMs
  {
    if failedAttempts * DelayStepMs > MaxDelayMs then MaxDelayMs else failedAttempts * DelayStepMs
  }

  /** More failures never shorten the wait. */
  lemma LoginDelayMonotone(a: nat, b: nat)
    requires a <= b
    ensures LoginDelayMs(a) <= LoginDelayMs(b)
  {
  }

  /** There is no wait exactly when nothing failed yet, and the cap is reached from the tenth failure on. */
  lemma LoginDelayBounds(n: nat)
    ensures LoginDelayMs(n) == 0 <==> n == 0
    ensures LoginDelayMs(n) == MaxDelayMs <==> n >= 10
  {
  }

  datatype LoginResult = AlreadyLoggedIn | ShowForm | LoggedIn | SessionError | InvalidCredentials

  /** The process-wide failure counter of ServeLogin. */
  class LoginGuard {
    var failedAttempts: nat

    constructor ()
      ensures failedAttempts == 0
    {
      failedAttempts := 0;
    }

    /**
     * ServeLogin: an authenticated visitor is sent home and a GET shows the form,
     * neither touching the counter. A POST waits according to the failures so
     * far; a correct password resets the counter (even when saving the session
     * then fails) and a wrong one adds exactly one failure.
     */
    method ServeLogin(store: Store, authenticated: bool, isPost: bool, submitted: string, sessionSaved: bool)
      returns (delayMs: nat, result: LoginResult)
      modifies this
      ensures authenticated ==> result == AlreadyLoggedIn && delayMs == 0 && failedAttempts == old(failedAttempts)
      ensures !authenticated && !isPost ==> result == ShowForm && delayMs == 0 && failedAttempts == old(failedAttempts)
      ensures !authenticated && isPost ==> delayMs == LoginDelayMs(old(failedAttempts))
      ensures !authenticated && isPost && submitted == store.password ==>
                failedAttempts == 0 && result == (if sessionSaved then LoggedIn else SessionError)
      ensures !authenticated && isPost && submitted != store.password ==>
                failedAttempts == old(failedAttempts) + 1 && result == InvalidCredentials
    {
      delayMs := 0;
      if authenticated {
        return 0, AlreadyLoggedIn;
      }
      if !isPost {
        return 0, ShowForm;
      }
      delayMs := failedAttempts * DelayStepMs;
      if delayMs > MaxDelayMs {
        delayMs := MaxDelayMs;
      }
      if submitted == store.GetPassword() {
        failedAttempts := 0;
        result := if sessionSaved then LoggedIn else SessionError;
        return;
      }
      failedAttempts := failedAttempts + 1;
      result := InvalidCredentials;
    }
  }

  // ---------------------------------------------------------------------------
  // Settings
  // ---------------------------------------------------------------------------

  /** The settings form; `notif` is present exactly when the form carries a tg_bot_token field. */
  datatype SettingsForm = SettingsForm(
    port: string, theme: string, locale: string, password: string,
    notif: Option<NotificationConfig>)

  predicate ValidTheme(t: string) { t == "dark" || t == "light" }
  predicate ValidLocale(l: string) { l == "en" || l == "tr" }

  /**
   * ServeSettings, POST: a non-empty port or password replaces the stored one,
   * a theme or locale is taken only from its allowed pair, and the
   * notification settings are replaced as a whole only when the form has them.
   * The rule list is never touched; a GET changes nothing.
   */
  method ServeSettings(store: Store, isPost: bool, form: SettingsForm)
    modifies store`port, store`theme, store`locale, store`password, store`notif
    ensures !isPost ==>
              && store.port == old(store.port) && store.theme == old(store.theme)
              && store.locale == old(store.locale) && store.password == old(store.password)
              && store.notif == old(store.notif)
    ensures isPost ==> store.port == (if form.port != "" then form.port else old(store.port))
    ensures isPost ==> store.theme == (if ValidTheme(form.theme) then form.theme else old(store.theme))
    ensures isPost ==> store.locale == (if ValidLocale(form.locale) then form.locale else old(store.locale))
    ensures isPost ==> store.password == (if form.password != "" then form.password else old(store.password))
    ensures isPost ==> store.notif == (if form.notif.Some? then form.notif.value else old(store.notif))
    ensures ValidTheme(old(store.theme)) ==> ValidTheme(store.theme)
    ensures ValidLocale(old(store.locale)) ==> ValidLocale(store.locale)
    ensures store.password != "" || old(store.password) == ""
  {
    if !isPost {
      return;
    }
    if form.port != "" {
      store.SetPort(form.port);
    }
    if form.theme == "dark" || form.theme == "light" {
      store.SetTheme(form.theme);
    }
    if form.locale == "en" || form.locale == "tr" {
      store.SetLocale(form.locale);
    }
    if form.password != "" {
      store.SetPassword(form.password);
    }
    if form.notif.Some? {
      store.SetNotif(form.notif.value);
    }
  }

  // ---------------------------------------------------------------------------
  // Rule list operations
  // ---------------------------------------------------------------------------

  /** The rule form, with each number as strconv parsed it (None on a syntax error). */
  datatype RuleForm = RuleForm(
    metric: string, operator: string,
    threshold: Option<real>, duration: Option<int>, cooldown: Option<int>,
    template: string, command: string, channel: string)

  /** A rule built from the form: active, never sent, idle; an unparsable number becomes 0. */
  function NewRule(form: RuleForm, id: string): (r: AlertRule)
    ensures r.id == id && r.isActive && r.sentCount == 0
    ensures r.violatingSince.None? && !r.hasTriggered && r.lastSentAt.None? && TriggerInvariant(r)
    ensures r.thresholdPercent == form.threshold.GetOr(0.0)
    ensures r.durationSeconds == form.duration.GetOr(0) && r.cooldownSeconds == form.cooldown.GetOr(0)
  {
    AlertRule(id, form.metric, form.operator, form.threshold.GetOr(0.0), form.duration.GetOr(0),
              form.cooldown.GetOr(0), 0, form.template, form.command, form.channel, true, None, false, None)
  }

  /** AddAutomationRule: a POST appends exactly one new rule at the end; anything else changes nothing. */
  method AddAutomationRule(store: Store, isPost: bool, form: RuleForm, id: string)
    modifies store`alertRules
    ensures store.alertRules == if isPost then old(store.alertRules) + [NewRule(form, id)] else old(store.alertRules)
  {
    if !isPost {
      return;
    }
    var rules := store.GetRules();
    assert rules == store.alertRules;
    rules := rules + [NewRule(form, id)];
    store.SetRules(rules);
  }

  /** Toggling flips the active flag and clears the violation state, leaving the send history. */
  function Toggled(r: AlertRule): AlertRule {
    r.(isActive := !r.isActive, violatingSince := None, hasTriggered := false)
  }

  /** ToggleAutomationRule: a POST toggles the first rule with the id; an unknown id writes the same list back. */
  method ToggleAutomationRule(store: Store, isPost: bool, id: string)
    modifies store`alertRules
    ensures store.alertRules == if isPost then UpdateFirst(old(store.alertRules), id, Toggled) else old(store.alertRules)
  {
    if !isPost {
      return;
    }
    var rules := store.GetRules();
    assert rules == store.alertRules;
    var i := 0;
    while i < |rules|
      invariant 0 <= i <= |rules|
      invariant rules == old(store.alertRules)
      invariant forall k :: 0 <= k < i ==> rules[k].id != id
    {
      if rules[i].id == id {
        rules := rules[i := Toggled(rules[i])];
        break;
      }
      i := i + 1;
    }
    store.SetRules(rules);
  }

  /**
   * Toggle changes only the first rule with the id: its active flag flips, its
   * violation state is cleared and its send history kept; every other rule
   * stays, and "triggered implies an open window" survives.
   */
  lemma ToggleSpec(rules: seq<AlertRule>, id: string, k: nat)
    requires k < |rules|
    ensures |UpdateFirst(rules, id, Toggled)| == |rules|
    ensures var t := UpdateFirst(rules, id, Toggled)[k];
      if FindRule(rules, id) == Some(k)
      then t.isActive == !rules[k].isActive && t.violatingSince.None? && !t.hasTriggered
           && t.sentCount == rules[k].sentCount && t.lastSentAt == rules[k].lastSentAt
      else t == rules[k]
    ensures AllTriggerInvariant(rules) ==> AllTriggerInvariant(UpdateFirst(rules, id, Toggled))
  {
    UpdateFirstSpec(rules, id, Toggled);
  }

  /** Toggling the same id twice restores every active flag and send count. */
  lemma ToggleTwice(rules: seq<AlertRule>, id: string)
    ensures var twice := UpdateFirst(UpdateFirst(rules, id, Toggled), id, Toggled);
      |twice| == |rules|
      && forall k :: 0 <= k < |rules| ==>
           twice[k].id == rules[k].id && twice[k].isActive == rules[k].isActive && twice[k].sentCount == rules[k].sentCount
  {
    var once := UpdateFirst(rules, id, Toggled);
    match FindRule(rules, id)
    case None =>
    case Some(j) =>
      assert once == rules[j := Toggled(rules[j])];
      assert once[j].id == id;
      assert forall k :: 0 <= k < j ==> once[k] == rules[k];
      assert FindRule(once, id) == Some(j);
  }

  /** The rules whose id differs from `id`, in their original order. */
  function WithoutId(rules: seq<AlertRule>, id: string): seq<AlertRule>
    decreases |rules|
  {
    if rules == [] then []
    else WithoutId(rules[..|rules| - 1], id) + (if rules[|rules| - 1].id != id then [rules[|rules| - 1]] else [])
  }

  /** DeleteAutomationRule: a POST rebuilds the list without every rule carrying the id. */
  method DeleteAutomationRule(store: Store, isPost: bool, id: string)
    modifies store`alertRules
    ensures store.alertRules == if isPost then WithoutId(old(store.alertRules), id) else old(store.alertRules)
  {
    if !isPost {
      return;
    }
    var rules := store.GetRules();
    assert rules == store.alertRules;
    var newRules: seq<AlertRule> := [];
    var i := 0;
    while i < |rules|
      invariant 0 <= i <= |rules|
      invariant newRules == WithoutId(rules[..i], id)
    {
      assert rules[..i + 1][..i] == rules[..i] && rules[..i + 1][i] == rules[i];
      if rules[i].id != id {
        newRules := newRules + [rules[i]];
      }
      i := i + 1;
    }
    assert rules[..i] == rules;
    store.SetRules(newRules);
  }

  /** Delete keeps exactly the rules with another id. */
  lemma {:induction false} WithoutIdMembers(rules: seq<AlertRule>, id: string)
    ensures forall r :: r in WithoutId(rules, id) <==> r in rules && r.id != id
    decreases |rules|
  {
    if rules != [] {
      var init := rules[..|rules| - 1];
      WithoutIdMembers(init, id);
      assert rules == init + [rules[|rules| - 1]];
    }
  }

  /** Delete keeps the surviving rules in their original order: it distributes over concatenation. */
  lemma {:induction false} WithoutIdAppend(a: seq<AlertRule>, b: seq<AlertRule>, id: string)
    ensures WithoutId(a + b, id) == WithoutId(a, id) + WithoutId(b, id)
    decreases |b|
  {
    if b == [] {
      assert a + b == a;
    } else {
      var binit := b[..|b| - 1];
      WithoutIdAppend(a, binit, id);
      assert (a + b)[..|a + b| - 1] == a + binit;
      assert (a + b)[|a + b| - 1] == b[|b| - 1];
    }
  }

  /** The number of rules carrying `id`. */
  function CountId(rules: seq<AlertRule>, id: string): nat
    decreases |rules|
  {
    if rules == [] then 0
    else CountId(rules[..|rules| - 1], id) + (if rules[|rules| - 1].id == id then 1 else 0)
  }

  /** Delete removes exactly as many rules as carry the id, and is the identity when none does. */
  lemma {:induction false} WithoutIdCount(rules: seq<AlertRule>, id: string)
    ensures |WithoutId(rules, id)| + CountId(rules, id) == |rules|
    ensures CountId(rules, id) == 0 ==> WithoutId(rules, id) == rules
    decreases |rules|
  {
    if rules != [] {
      var init, last := rules[..|rules| - 1], rules[|rules| - 1];
      WithoutIdCount(init, id);
      assert WithoutId(rules, id) == WithoutId(init, id) + (if last.id != id then [last] else []);
      assert CountId(rules, id) == CountId(init, id) + (if last.id == id then 1 else 0);
      if CountId(rules, id) == 0 {
        assert rules == init + [last];
      }
    }
  }

  /** Deleting twice is deleting once. */
  lemma {:induction false} WithoutIdIdempotent(rules: seq<AlertRule>, id: string)
    ensures WithoutId(WithoutId(rules, id), id) == WithoutId(rules, id)
  {
    var w := WithoutId(rules, id);
    WithoutIdMembers(rules, id);
    NoIdCount(w, id);
    WithoutIdCount(w, id);
  }

  lemma {:induction false} NoIdCount(rules: seq<AlertRule>, id: string)
    requires forall r :: r in rules ==> r.id != id
    ensures CountId(rules, id) == 0
    decreases |rules|
  {
    if rules != [] {
      assert rules[|rules| - 1] in rules;
      forall r | r in rules[..|rules| - 1] ensures r.id != id {
        assert r in rules;
      }
      NoIdCount(rules[..|rules| - 1], id);
    }
  }
}
