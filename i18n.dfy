/**
 * Translation lookup: the loaded dictionaries per locale, the English
 * dictionary standing in for a locale that was never loaded, and the built-in
 * English table behind both.
 */
module I18n {
  import opened Wrappers

  type Dictionary = map<string, string>

  /** The built-in English strings, consulted when the chosen dictionary lacks a key. */
  const FallbackEn: Dictionary := map[
    "LoginTitle" := "Secure Login",
    "Password" := "Password",
    "LoginBtn" := "Sign In",
    "InvalidCreds" := "Invalid credentials",
    "Dashboard" := "Dashboard",
    "Settings" := "Settings",
    "Logout" := "Logout",
    "CPUUsage" := "CPU Usage",
    "RAMUsage" := "RAM Usage",
    "DiskUsage" := "Disk Capacity",
    "NetworkRx" := "Network (Rx)",
    "NetworkTx" := "Network (Tx)",
    "Configuration" := "Configuration",
    "AppPort" := "Application Port",
    "AppTheme" := "Theme",
    "AppLocale" := "Language",
    "AdminPassword" := "Admin Password",
    "SaveSettings" := "Save Settings",
    "ThemeDark" := "Dark",
    "ThemeLight" := "Light",
    "LocaleEn" := "English",
    "LocaleTr" := "T\U{00FC}rk\U{00E7}e",
    "SettingsSaved" := "Settings saved successfully",
    "Automation" := "Automation",
    "GuardrailsDesc" := "Guardrails & Safety Actions: Define rules that trigger automatically when a metric breaches the threshold for the specified duration.",
    "CreateRule" := "Create New Metric Rule",
    "TargetMetric" := "Target Metric",
    "ThresholdPct" := "Threshold (%)",
    "DebounceSec" := "Debounce Duration (Sec)",
    "DebounceHint" := "Must sustain breach for this many seconds",
    "ShellCmd" := "Execute Shell Command",
    "Optional" := "Optional",
    "SelectPreset" := "-- Select a safe preset template --",
    "PresetDockerStop" := "Halt all running Docker containers",
    "PresetClearCache" := "Clear OS PageCache",
    "PresetRestartApp" := "Restart your main application service",
    "PlaceholderCmd" := "e.g. docker stop $(docker ps -q)",
    "NotifChannel" := "Notification Channel",
    "Disabled" := "Disabled",
    "Webhook" := "Webhook (POST)",
    "TelegramBot" := "Telegram Bot",
    "EmailSMTP" := "Email (SMTP)",
    "AddRule" := "Add Rule",
    "ActiveRulesEngine" := "Active Rules Engine",
    "NoRulesConfigured" := "No automation rules configured yet.",
    "DebounceLabel" := "Debounce:",
    "ViolationActive" := "VIOLATION ACTIVE",
    "ChannelLabel" := "Channel:",
    "Disable" := "Disable",
    "Enable" := "Enable",
    "Remove" := "Remove",
    "NotificationConfig" := "Notification Configuration",
    "TgBotToken" := "Telegram Bot Token",
    "TgChatId" := "Telegram Chat ID",
    "WebhookUrl" := "Webhook URL (POST)",
    "SmtpHost" := "SMTP Host",
    "SmtpPort" := "SMTP Port",
    "SmtpUser" := "SMTP User",
    "SmtpPass" := "SMTP Password",
    "SmtpTo" := "Recipient Email",
    "OperatorLabel" := "Logic Operator",
    "OpGreater" := "Greater Than (>)",
    "OpLess" := "Less Than (<)",
    "OpEqual" := "Equals (==)",
    "MessageTemplate" := "Custom Message Template",
    "TemplateHint" := "Available tags: {hostname}, {metric}, {value}, {threshold}, {operator}, {duration}",
    "TemplateCritical" := "Critical Load!",
    "TemplateWarning" := "Soft Warning",
    "TemplateRecovery" := "Recovery",
    "CooldownSec" := "Cooldown (Sec)",
    "CooldownHint" := "Wait this long before sending another alert",
    "TagLegendTitle" := "Tag Legend",
    "TagHostname" := "Server Hostname",
    "TagMetric" := "Monitored Metric",
    "TagValue" := "Current Actual Value",
    "TagThreshold" := "Set Limit Value",
    "TagOperator" := "Logic Operator (>,<,==)",
    "TagDuration" := "Debounce Seconds",
    "SentCountLabel" := "Total Sent",
    "CooldownLabel" := "Cooldown:"
  ]

  /** The dictionary T consults: the locale's own, else the loaded English one, else none (an empty map). */
  function Consulted(dictionaries: map<string, Dictionary>, locale: string): Dictionary {
    if locale in dictionaries then dictionaries[locale]
    else if "en" in dictionaries then dictionaries["en"]
    else map[]
  }

  /**
   * T: the consulted dictionary's entry, else the built-in English entry,
   * else the key itself, so that no label is ever blank by omission.
   */
  function T(dictionaries: map<string, Dictionary>, locale: string, key: string): (r: string)
    ensures r == key || r in Consulted(dictionaries, locale).Values || r in FallbackEn.Values
  {
    var dict := Consulted(dictionaries, locale);
    if key in dict then dict[key]
    else if key in FallbackEn then FallbackEn[key]
    else key
  }

  /** TFunc: the translation function handed to the page templates, fixed to one locale. */
  function TFunc(dictionaries: map<string, Dictionary>, locale: string): (f: string -> string)
    ensures forall key :: f(key) == T(dictionaries, locale, key)
  {
    (key: string) => T(dictionaries, locale, key)
  }

  /** A loaded locale that has the key answers with its own entry. */
  lemma LoadedLocaleWins(dictionaries: map<string, Dictionary>, locale: string, key: string)
    requires locale in dictionaries && key in dictionaries[locale]
    ensures T(dictionaries, locale, key) == dictionaries[locale][key]
  {
  }

  /** A locale that was never loaded reads from the loaded English dictionary. */
  lemma MissingLocaleReadsEnglish(dictionaries: map<string, Dictionary>, locale: string, key: string)
    requires locale !in dictionaries && "en" in dictionaries
    ensures T(dictionaries, locale, key) == T(dictionaries, "en", key)
  {
  }

  /**
   * A key a loaded locale lacks goes straight to the built-in table: the
   * loaded English dictionary is not consulted, even when it has the key.
   */
  lemma GapSkipsLoadedEnglish(dictionaries: map<string, Dictionary>, locale: string, key: string)
    requires locale in dictionaries && key !in dictionaries[locale]
    ensures T(dictionaries, locale, key) == (if key in FallbackEn then FallbackEn[key] else key)
    ensures T(dictionaries, locale, key) == T(dictionaries[locale := map[]], locale, key)
  {
  }

  /** A key found nowhere comes back unchanged. */
  lemma UnknownKeyEchoed(dictionaries: map<string, Dictionary>, locale: string, key: string)
    requires key !in Consulted(dictionaries, locale) && key !in FallbackEn
    ensures T(dictionaries, locale, key) == key
  {
  }

  /**
   * A locale that was never loaded, while English was not loaded either, gets
   * the built-in English text (or the key), whatever other locales are loaded.
   */
  lemma NeitherLoaded(dictionaries: map<string, Dictionary>, locale: string, key: string)
    requires locale !in dictionaries && "en" !in dictionaries
    ensures T(dictionaries, locale, key) == if key in FallbackEn then FallbackEn[key] else key
    ensures T(dictionaries, locale, key) == T(map[], locale, key)
  {
  }

  /** With nothing loaded at all, every locale shows the built-in English text, or the key. */
  lemma NothingLoaded(locale: string, key: string)
    ensures T(map[], locale, key) == if key in FallbackEn then FallbackEn[key] else key
  {
  }

  /** The package-level table of loaded dictionaries. */
  class Catalog {
    var dictionaries: map<string, Dictionary>

    constructor ()
      ensures dictionaries == map[]
    {
      dictionaries := map[];
    }

    /** loadLocale: a dictionary that was read and parsed is installed; a failed read or parse changes nothing. */
    method LoadLocale(lang: string, parsed: Option<Dictionary>)
      modifies this
      ensures dictionaries == if parsed.Some? then old(dictionaries)[lang := parsed.value] else old(dictionaries)
    {
      if parsed.None? {
        return;
      }
      dictionaries := dictionaries[lang := parsed.value];
    }

    /** Init: English first, then Turkish. */
    method Init(en: Option<Dictionary>, tr: Option<Dictionary>)
      modifies this
      ensures var d1 := if en.Some? then old(dictionaries)["en" := en.value] else old(dictionaries);
              dictionaries == if tr.Some? then d1["tr" := tr.value] else d1
      ensures "en" in dictionaries <==> "en" in old(dictionaries) || en.Some?
      ensures "tr" in dictionaries <==> "tr" in old(dictionaries) || tr.Some?
      ensures forall l :: l != "en" && l != "tr" ==> (l in dictionaries <==> l in old(dictionaries))
    {
      LoadLocale("en", en);
      LoadLocale("tr", tr);
    }

    function Translate(locale: string, key: string): string
      reads this
    {
      T(dictionaries, locale, key)
    }
  }
}
