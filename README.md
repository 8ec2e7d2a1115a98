# ZeroStat-Go core, modelled in Dafny

ZeroStat-Go is a small self-hosted server monitor: it samples CPU, memory,
disk and network counters, keeps a one-minute history for the dashboard
sparklines, lists and kills processes, stops Docker containers, and runs a
per-rule alerting engine that fires notifications and guarded shell
commands when a metric stays over (or under) a threshold for long enough.

This project models the deterministic heart of that system:

- `config.dfy`: the `AlertRule` record and the configuration store (`Config.Store`, a class).
  - Its scalar getters and setters.
  - The copying `GetRules`, `SetRules`, and the find-first-by-id updates `UpdateRuleState` and `MarkRuleSent`.
  - The start-up defaults.
- `alerting.dfy`: the per-rule state machine (Idle, Violating, Triggered) that drives each tick.
  - `Decide` yields the store writes and the event of one rule.
  - `Next` is the rule after those writes.
  - `EvaluateRules` is the imperative pass over a copy of the rules, writing back into the store by id.
  - Also the shell-command guard, template selection with sequential placeholder replacement, and the gating of notifications and shell runs.
- `metrics.dfy`: the sampler (`Metrics.Sampler`, a class).
  - The 60-slot history ring and its index, read back oldest-first.
  - Clamping and scaling of chart points.
  - Network-rate bookkeeping with 64-bit wrap-around subtraction.
- `handlers.dfy`: the login back-off counter, the settings form's acceptance rules, and the add / toggle / delete operations on the rule list.
- `tasks.dfy`: the list defaults, pagination and page window of the process table, and the input checks of the kill and stop handlers.
- `i18n.dfy`: the translation lookup with its fallback chain.
- `process.dfy`: id truncation, the container-name map, the row filter, the sort comparator (shown to be a strict weak order), the sort and the 150-row cap.
- `text.dfy` and `wrappers.dfy`: the Go string and `strconv` helpers the core relies on.
  - Trimming, substring search, `ReplaceAll`, ASCII lower-casing.
  - Decimal rendering and 32-bit parsing, with a round-trip lemma.
  - `Option`.

Time is integer seconds, so Go's `time.Since(t)` is `now - t`. Metric values and thresholds are `real`, since the code only compares them. Everything the engine cannot see is passed in as a parameter:
- host readings;
- the Docker reply;
- the process list;
- the number renderer and the hostname;
- JSON decoding results.

## Model

| member | source | states |
|---|---|---|
| Config.FindRule | internal/config/config.go:177-183 | the index found is the first rule with that id; `None` exactly when no rule has it |
| Config.UpdateFirst | internal/config/config.go:174-197 | the find-first update shared by the store and the toggle handler; no contract of its own, pinned by `UpdateFirstSpec` |
| Config.WithState | internal/config/config.go:174-184 | the state update by id; no contract of its own, pinned by `WithStateSpec` |
| Config.WithSent | internal/config/config.go:186-197 | the send stamp by id; no contract of its own, pinned by `WithSentSpec` |
| Config.UpdateFirstSpec | internal/config/config.go:174-197 | a find-first update keeps the length, changes only the first rule with the id, and is a no-op for an unknown id |
| Config.WithStateSpec | internal/config/config.go:174-184 | after `UpdateRuleState` the first matching rule has the new `ViolatingSince`/`HasTriggered` and nothing else changed; every other rule is identical |
| Config.WithSentSpec | internal/config/config.go:186-197 | after `MarkRuleSent` the first matching rule has `SentCount + 1` and `LastSentAt = now`; other rules are identical; no send count decreases |
| Config.Store.Init | internal/config/config.go:60-97 | defaults: port "9124", password "admin", locale "en" when unset; theme "dark"; empty rule list |
| Config.Store.LoadRules | internal/config/config.go:233-255 | a decoded rule file replaces the rule list; a failed read or decode leaves it unchanged |
| Config.Store.SetPort | internal/config/config.go:117-121 | only the port changes, and the getter returns the value set |
| Config.Store.SetPassword | internal/config/config.go:129-133 | only the password changes, and the getter returns the value set |
| Config.Store.SetTheme | internal/config/config.go:141-145 | only the theme changes, and the getter returns the value set |
| Config.Store.SetLocale | internal/config/config.go:153-157 | only the locale changes, and the getter returns the value set |
| Config.Store.SetNotif | internal/config/config.go:205-209 | only the notification settings change, and the getter returns the value set |
| Config.Store.GetRules | internal/config/config.go:159-166 | returns a value copy of the same length with equal elements, and the store is unchanged |
| Config.Store.SetRules | internal/config/config.go:168-172 | the rule list becomes exactly the given list |
| Config.Store.UpdateRuleState | internal/config/config.go:174-184 | the loop leaves the rule list equal to the find-first state update of the old list |
| Config.Store.MarkRuleSent | internal/config/config.go:186-197 | the loop leaves the rule list equal to the find-first send stamp of the old list |
| Alerting.NextIsStep | internal/alerting/alerting.go:43-99 | applying the writes of `Decide` equals an independent case-by-case transition of the rule |
| Alerting.Decide | internal/alerting/alerting.go:43-99 | the per-rule decision (store writes and event); no contract of its own, pinned by `NextIsStep`, `InactiveSkipped`, `FirstViolationOpensWindow`, `AlertCondition`, `AlertUpdates` and `RecoveryCondition` |
| Alerting.IsViolating | internal/alerting/alerting.go:51-62 | the operator switch; no contract of its own, pinned by `EqualityTolerance` and used by `AlertCondition` and `RecoveryCondition` |
| Alerting.MetricValue | internal/alerting/alerting.go:103-113 | CPU, RAM or disk usage by name, 0 for any other metric; a three-way lookup with no contract of its own |
| Alerting.InactiveSkipped | internal/alerting/alerting.go:44-46 | an inactive rule gets no write and no event, whatever the metric value |
| Alerting.EqualityTolerance | internal/alerting/alerting.go:51-62 | three instances of the operator switch: "==" holds for 90.005 against 90 (inside the 0.01 tolerance) and fails for 90.02; an unknown operator violates at equality, i.e. falls back to `>=` |
| Alerting.FirstViolationOpensWindow | internal/alerting/alerting.go:64-70 | the first violating tick records `now` as the window start with the trigger cleared, and fires nothing |
| Alerting.AlertCondition | internal/alerting/alerting.go:72-89 | an alert fires iff the rule is active, violating, the window is at least the duration (inclusive), and either it has not triggered or the positive cooldown has elapsed since the last send |
| Alerting.AlertUpdates | internal/alerting/alerting.go:77-87 | an alert sets the trigger, keeps the window start, adds exactly one to the send count and stamps the send time |
| Alerting.RecoveryCondition | internal/alerting/alerting.go:90-99 | a non-violating tick sends a recovery iff the rule had triggered, resets the state, and writes nothing when it was already clear |
| Alerting.NextKeepsTriggerInvariant | internal/alerting/alerting.go:64-99 | "triggered implies a window start" holds after every transition when it held before |
| Alerting.DecideWritesWellFormed | internal/alerting/alerting.go:64-99 | every state write sets the trigger only together with a window start |
| Alerting.ApplyWritesKeepsDefinition | internal/alerting/alerting.go:68-97 | a tick's writes change only runtime state, never the rule's definition, and never lower the send count |
| Alerting.InactiveFrozen | internal/alerting/alerting.go:44-46 | over any tick sequence an inactive rule never changes and produces no events |
| Alerting.WindowStartStays | internal/alerting/alerting.go:64-89 | while every tick keeps violating, an open window's start never moves, even across alerts and re-fires |
| Alerting.FirstViolationTimeRecorded | internal/alerting/alerting.go:64-70 | a run of violating ticks starting idle ends with the window opened at the first tick's time |
| Alerting.NoRefireWithoutCooldown | internal/alerting/alerting.go:76-88 | with cooldown 0, one violation episode produces at most one alert, and none once triggered |
| Alerting.AlertCountAppend | internal/alerting/alerting.go:76-88 | alerts over two runs of events add up |
| Alerting.RunPrepend | internal/alerting/alerting.go:43-99 | a run is its first tick followed by the run from the resulting rule, with the first tick's event in front |
| Alerting.DebounceTicks | internal/alerting/alerting.go:64-88 | for a CPU > 80, 10 s, 60 s cooldown rule, ticking every 3 s: the rule state and event after each of the ticks at 0, 3, 6, 9, 12 and 15 s |
| Alerting.DebounceQuietStart | internal/alerting/alerting.go:72-76 | the same rule fires nothing during the first 9 s of violation |
| Alerting.DebounceScenario | internal/alerting/alerting.go:64-88 | over those six ticks exactly one alert fires, at 12 s; the send count is 1 and the window start stays 0 |
| Alerting.EvaluateRule | internal/alerting/alerting.go:44-99 | one loop body leaves the store equal to the rule's writes applied by id, and reports its event |
| Alerting.EvaluateRules | internal/alerting/alerting.go:33-101 | an empty rule list returns before sampling: store, events, sampler and history ring all unchanged; otherwise exactly one sample is taken (appended to the history, index advanced by one modulo 60, network state advanced as `GetStats` does) and the store ends as the sequential pass over the copy, with that pass's events |
| Alerting.PassStep | internal/alerting/alerting.go:43-99 | one iteration of the pass equals the writes of that rule followed by the rest of the pass |
| Alerting.StoreWritesShort | internal/alerting/alerting.go:64-99 | each branch's one or two store calls compose as written, in order |
| Alerting.StoreWritesAt | internal/config/config.go:174-197 | writes by id land on the first rule with that id exactly as on the rule alone |
| Alerting.StoreWritesFrame | internal/config/config.go:174-197 | store writes keep the length and every rule's definition, and never lower a send count |
| Alerting.PassPerRule | internal/alerting/alerting.go:43-99 | with distinct ids, the pass leaves each rule as its own single-rule transition |
| Alerting.PassFrom | internal/alerting/alerting.go:43-99 | the per-rule result of a pass holds from any midpoint of the loop |
| Alerting.PassKeepsTriggerInvariant | internal/alerting/alerting.go:43-99 | a pass preserves "triggered implies a window start" for every stored rule |
| Alerting.StoreWritesKeepTriggerInvariant | internal/config/config.go:174-184 | well-formed state writes preserve that invariant across the whole list |
| Alerting.PassSentCountMonotone | internal/alerting/alerting.go:80-86 | a pass never removes rules, never changes a rule's definition, and never lowers a send count |
| Alerting.DangerousChars | internal/alerting/alerting.go:145-150 | the deny-list check holds iff the command contains one of the eight metacharacters |
| Alerting.ContainsShellInjection | internal/alerting/alerting.go:130-152 | the guard; no contract of its own, pinned by `ShellGuardSpec` and `PaddedPresetAccepted` |
| Alerting.ShellGuardSpec | internal/alerting/alerting.go:130-152 | a command is rejected iff its trimmed text is none of the three allow-listed presets and its untrimmed text contains one of the eight metacharacters |
| Alerting.PaddedPresetAccepted | internal/alerting/alerting.go:132-142 | an allow-listed preset with surrounding whitespace is accepted, although it contains metacharacters |
| Alerting.SelectTemplate | internal/alerting/alerting.go:192-197 | an empty template selects the recovery or warning default; a non-empty one is used for both |
| Alerting.BuildMessage | internal/alerting/alerting.go:191-212 | template choice then six replacements in order; no contract of its own, pinned by `SelectTemplate`, `BuildMessageSubstitutes`, `PlainTemplateVerbatim` and `ReplacementIsSequential` |
| Alerting.Rendered | internal/alerting/alerting.go:199-209 | the six values the placeholders stand for, the host name defaulting to "unknown-host" so it is never empty |
| Alerting.StageStep | internal/alerting/alerting.go:204-209 | in a template holding one placeholder, each replacement before it finds nothing, its own replacement substitutes it, and the later ones find no `{` |
| Alerting.BuildMessageSubstitutes | internal/alerting/alerting.go:191-212 | a custom template `pre + placeholder + post` with no other `{` becomes `pre + value + post`, for each of the six placeholders, whenever the value holds no `{` |
| Alerting.PlainTemplateVerbatim | internal/alerting/alerting.go:191-212 | a custom template without placeholders comes back verbatim, for alerts and recoveries alike |
| Alerting.ReplacementIsSequential | internal/alerting/alerting.go:204-209 | placeholders are replaced one after another, so a hostname that spells "{metric}" is itself replaced by the metric |
| Alerting.ShellEffect | internal/alerting/alerting.go:154-158 | a command runs iff the guard passes it; otherwise it is blocked |
| Alerting.ExecuteAction | internal/alerting/alerting.go:115-128 | an alert's effects; no contract of its own, pinned by `DispatchGating`, `DispatchNotifications` and `DispatchRunsPassedCommand` |
| Alerting.SendRecovery | internal/alerting/alerting.go:182-189 | a recovery's effects; no contract of its own, pinned by `DispatchGating` (no shell run) and `DispatchNotifications` |
| Alerting.Dispatch | internal/alerting/alerting.go:115-189 | an event's effects; no contract of its own, pinned by `DispatchParts`, `DispatchGating`, `DispatchNotifications` and `DispatchRunsPassedCommand` |
| Alerting.DispatchParts | internal/alerting/alerting.go:115-128 | an event's effects are its notification part followed by its shell part |
| Alerting.DispatchGating | internal/alerting/alerting.go:115-189 | a shell command runs only for an alert, only the rule's own command, and only when the guard passes it; recoveries never run commands |
| Alerting.DispatchNotifications | internal/alerting/alerting.go:115-189 | notifications go only to the rule's channel, only when it is neither "" nor "none", with the alert or recovery message |
| Alerting.DispatchRunsPassedCommand | internal/alerting/alerting.go:125-127 | an alert whose non-empty command passes the guard does run it |
| Alerting.Route | internal/alerting/alerting.go:214-262 | "webhook", "telegram" and "email" deliver iff their settings are present, and then deliver the given message with those settings; a known channel without its settings is `NotConfigured` of that channel; any other channel does nothing |
| Metrics.WrappingSub | internal/metrics/metrics.go:97-98 | the byte delta is the plain difference, or the difference plus 2^64 when the counter went down |
| Metrics.WrappingSubRoundTrip | internal/metrics/metrics.go:97-98 | adding the delta to the previous counter modulo 2^64 gives the current counter |
| Metrics.NetStep | internal/metrics/metrics.go:85-109 | no counters: rate 0 and state unchanged; counters: state becomes the reading; rate 0 on the first reading or when no time elapsed, otherwise the wrapped byte difference over the elapsed seconds, in KB/s, for receive and send |
| Metrics.NetRateAfterReset | internal/metrics/metrics.go:94-100 | a counter that went down yields the wrapped delta's rate, not a negative one |
| Metrics.Snapshot | internal/metrics/metrics.go:57-83 | failed probes leave their fields zero; successful ones supply the first CPU percentage and the memory and disk totals, used bytes and percentages; the network fields are the counters and rates of `NetStep`; the core count is copied |
| Metrics.Recent | internal/metrics/metrics.go:126-133 | the chart history is the last min(n, 60) samples in order |
| Metrics.RecentAppend | internal/metrics/metrics.go:111-115 | a new sample appends to the history, dropping the oldest once 60 are held |
| Metrics.SlotAfterAppend | internal/metrics/metrics.go:113-114 | after a sample every logical slot shifts by one and the newest is last |
| Metrics.NextPosition | internal/metrics/metrics.go:114 | the index advanced modulo 60 still equals the sample count modulo 60 |
| Metrics.RingEmpty | internal/metrics/metrics.go:38-39 | the all-empty ring with index 0 holds no samples |
| Metrics.RingWrite | internal/metrics/metrics.go:113-114 | storing at the index and advancing it keeps the ring's relation to the samples |
| Metrics.Sampler.constructor | internal/metrics/metrics.go:38-49 | an empty ring at index 0, no network reading, cores from the probe or 1 |
| Metrics.Sampler.GetStats | internal/metrics/metrics.go:57-118 | the sample is stored at the old index, only that slot changes, the index advances by one modulo 60, the network state advances, and the ring invariant holds |
| Metrics.Sampler.Chronological | internal/metrics/metrics.go:126-133 | the loop from the index over all 60 slots yields the picked values of the recent samples, oldest first |
| Metrics.Sampler.GeneratePoints | internal/metrics/metrics.go:122-159 | no points without samples; one sample gives an unclamped flat line; otherwise one point per sample with its value clamped to [0, maxVal] |
| Metrics.Clamp | internal/metrics/metrics.go:147-154 | the clamped value lies in [0, maxVal] and in-range values are kept |
| Metrics.ClampedPointInBox | internal/metrics/metrics.go:147-155 | a clamped value is drawn inside the chart's height |
| Metrics.SixtyFiveSamples | internal/metrics/metrics.go:126-133 | after 65 samples the chart shows exactly the 60 most recent, oldest first |
| Handlers.LoginDelayMs | internal/handlers/handlers.go:81-86 | the delay is failures × 500 ms, capped at 5 s |
| Handlers.LoginDelayMonotone | internal/handlers/handlers.go:81-86 | more failures never shorten the delay |
| Handlers.LoginDelayBounds | internal/handlers/handlers.go:81-86 | no delay iff no failures; the 5 s cap is reached iff there are at least 10 failures |
| Handlers.LoginGuard.constructor | internal/handlers/handlers.go:20-24 | the failure counter starts at 0 |
| Handlers.LoginGuard.ServeLogin | internal/handlers/handlers.go:70-114 | logged-in users are redirected and GETs show the form, both with the counter unchanged; a POST waits the back-off delay; a right password resets the counter; a wrong one adds exactly 1 |
| Handlers.ServeSettings | internal/handlers/handlers.go:137-173 | only a POST changes settings; empty port/password are ignored; theme and locale must be in their lists; notification settings change only when the form carries them; valid theme and locale stay valid |
| Handlers.NewRule | internal/handlers/handlers.go:234-250 | a new rule is active, never sent, idle, and fields that fail to parse are 0 |
| Handlers.AddAutomationRule | internal/handlers/handlers.go:225-256 | a POST appends exactly that rule at the end; anything else changes nothing |
| Handlers.ToggleAutomationRule | internal/handlers/handlers.go:259-278 | a POST leaves the list equal to the find-first toggle of the old list; anything else changes nothing |
| Handlers.Toggled | internal/handlers/handlers.go:269-272 | the toggle of one rule; no contract of its own, pinned by `ToggleSpec` and `ToggleTwice` |
| Handlers.ToggleSpec | internal/handlers/handlers.go:267-275 | toggle flips only the first match's active flag and clears its state, keeps its send count and time, leaves the other rules equal, and keeps the trigger invariant |
| Handlers.ToggleTwice | internal/handlers/handlers.go:267-275 | toggling an id twice restores every rule's active flag |
| Handlers.DeleteAutomationRule | internal/handlers/handlers.go:281-297 | a POST leaves the list without every rule of that id, in order; anything else changes nothing |
| Handlers.WithoutId | internal/handlers/handlers.go:289-294 | the delete filter; no contract of its own, pinned by `WithoutIdMembers`, `WithoutIdAppend`, `WithoutIdCount` and `WithoutIdIdempotent` |
| Handlers.WithoutIdMembers | internal/handlers/handlers.go:289-294 | a rule survives a delete iff it was in the list and has another id |
| Handlers.WithoutIdAppend | internal/handlers/handlers.go:289-294 | the delete filter distributes over concatenation, so relative order is kept |
| Handlers.WithoutIdCount | internal/handlers/handlers.go:289-294 | exactly the rules with the id are removed; with none, the list is unchanged |
| Handlers.WithoutIdIdempotent | internal/handlers/handlers.go:289-294 | deleting the same id twice is the same as once |
| Tasks.WithDefaults | internal/handlers/tasks.go:19-27 | an empty sort column is "cpu" and an empty direction "desc"; given values and the query are kept |
| Tasks.RequestedPage | internal/handlers/tasks.go:31-35 | the page is the parsed value when positive, else 1 |
| Tasks.Paginate | internal/handlers/tasks.go:31-100 | pages = ceil(total/15); the page is lowered to the last one; rows are that page's slice (at most 15, non-empty when there are processes); the window is min(5, pages) consecutive numbers in range containing the page; prev/next flags and numbers |
| Tasks.HandleKillProcess | internal/handlers/tasks.go:107-129 | non-POST is 405; a pid that is not a base-10 32-bit integer is 400; otherwise the parsed pid is signalled and the answer says whether that succeeded |
| Tasks.KillAcceptsListedPid | internal/handlers/tasks.go:113-128 | any 32-bit PID rendered in decimal is accepted and signalled |
| Tasks.KillRejectsMalformed | internal/handlers/tasks.go:108-117 | an empty or sign-only pid is 400; a GET is 405 |
| Tasks.HandleStopContainerAsWritten | internal/handlers/tasks.go:131-149 | the handler as written has no answer (it panics) exactly for a successful stop of an id shorter than 12 characters |
| Tasks.StopShortIdPanics | internal/handlers/tasks.go:148 | stopping the container named "web" panics after the stop |
| Tasks.HandleStopContainer | internal/handlers/tasks.go:131-149 | non-POST is 405 and an empty id 400; success echoes the truncated id, which is non-empty and at most 12 characters |
| Tasks.StopCorrectionAgrees | internal/handlers/tasks.go:131-149 | wherever the original answers, the corrected handler answers the same |
| I18n.T | internal/i18n/i18n.go:122-138 | the translation is the key itself, a value of the consulted dictionary, or a value of the built-in English table |
| I18n.Consulted | internal/i18n/i18n.go:123-126 | the dictionary `T` reads: the locale's, else "en", else none; no contract of its own, pinned by `LoadedLocaleWins`, `MissingLocaleReadsEnglish` and `GapSkipsLoadedEnglish` |
| I18n.TFunc | internal/i18n/i18n.go:141-145 | the returned function is `T` for that locale, at every key |
| I18n.LoadedLocaleWins | internal/i18n/i18n.go:122-138 | a loaded locale that has the key gives its value |
| I18n.MissingLocaleReadsEnglish | internal/i18n/i18n.go:123-126 | a locale that is not loaded reads exactly as "en" |
| I18n.GapSkipsLoadedEnglish | internal/i18n/i18n.go:128-135 | a key missing from a loaded locale falls through to the built-in table, skipping the loaded English dictionary |
| I18n.UnknownKeyEchoed | internal/i18n/i18n.go:135 | a key found nowhere is returned unchanged |
| I18n.NeitherLoaded | internal/i18n/i18n.go:121-135 | a locale that is not loaded, with English not loaded either, gets the built-in English text or the key, whatever other locales are loaded |
| I18n.NothingLoaded | internal/i18n/i18n.go:128-135 | with no dictionary loaded, the built-in table or the key answers |
| I18n.Catalog.constructor | internal/i18n/i18n.go:13 | no dictionary is loaded at start |
| I18n.Catalog.LoadLocale | internal/i18n/i18n.go:103-119 | a parsed file installs that locale's dictionary; a failed read or parse changes nothing |
| I18n.Catalog.Init | internal/i18n/i18n.go:98-101 | the table afterwards is the old one with "en" set to the parsed English file when it parsed, then "tr" set to the parsed Turkish file when it parsed; other locales are untouched |
| Process.TruncateID | internal/process/process.go:116-121 | the result is the prefix of length min(len, 12), and the identity on short ids |
| Process.TruncateIDIdempotent | internal/process/process.go:116-121 | truncating twice is truncating once |
| Process.GetContainersMap | internal/process/process.go:44-82 | no socket, a non-200 status or a decode error gives the empty map; otherwise the map built from the containers in order |
| Process.AddContainer | internal/process/process.go:69-80 | one loop step of the map construction; no contract of its own, pinned by `ContainersOfKeys` and `ContainersOfLastWins` |
| Process.ContainersOfKeys | internal/process/process.go:69-80 | a key is mapped iff some named container has it as its full or 12-character id |
| Process.ContainersOfLastWins | internal/process/process.go:69-80 | a key maps to the first name, without one leading "/", of the last container claiming it |
| Process.RowOf | internal/process/process.go:135-179 | a process is listed iff its command (or "[name]") is non-empty and the query is empty, contained in the lower-cased command, or the decimal pid; a row carries that command, the pid, CPU and RAM, the user or "root" when it is empty, the container id of its cgroup match, and the container name looked up by that id |
| Process.CommandFallback | internal/process/process.go:136-143 | a process without a usable command line is listed as "[name]", and dropped when its name is missing or empty too |
| Process.CommandOf | internal/process/process.go:136-143 | the command line or "[name]"; no contract of its own, pinned by `RowOf` and `CommandFallback` |
| Process.Matches | internal/process/process.go:145-152 | the query filter; no contract of its own, pinned by `RowOf` and `PidQueryFinds` |
| Process.ContainerIdOf | internal/process/process.go:161 | the first 12 characters of the cgroup match, or ""; no contract of its own, pinned by `RowOf` and `TruncateID` |
| Process.ContainerNameOf | internal/process/process.go:162-169 | no id gives no name; an id present in the map gives its name; otherwise its 12-character prefix is looked up, and a miss gives ""; any name found is one of the map's names |
| Process.RowsAdmitted | internal/process/process.go:135-180 | the collected rows are at most the processes, and each row comes from one process that passed the filter |
| Process.PidQueryFinds | internal/process/process.go:145-152 | searching for a listed process's decimal pid always finds it |
| Process.QueryCaseInsensitive | internal/process/process.go:125-152 | a query typed in any letter case lists a process whose command holds the same word in any letter case |
| Process.RowsSnoc | internal/process/process.go:135-180 | one more process extends the collected rows by its row, if any |
| Process.CollectRows | internal/process/process.go:135-180 | the loop collects exactly the filtered rows, in process order |
| Process.LessIrreflexive | internal/process/process.go:183-236 | no row sorts before itself under any column and direction |
| Process.LessTransitive | internal/process/process.go:183-236 | the comparator is transitive for every column and direction |
| Process.LessWeak | internal/process/process.go:183-236 | whatever sorts before `c` sorts before any `b`, or `b` sorts before `c`: incomparable rows are interchangeable |
| Process.Less | internal/process/process.go:183-236 | the comparator, per column and direction; no contract of its own, pinned by `LessIrreflexive`, `LessTransitive`, `LessWeak`, `ContainerOrder` and `CpuOrder` |
| Process.ComparatorIsStrictOrder | internal/process/process.go:183-236 | for every column and direction the comparator is a strict weak order (irreflexive, transitive, incomparability transitive), as `sort.Slice` expects |
| Process.Insert | internal/process/process.go:183 | inserting into a sorted list keeps it sorted and adds exactly that element |
| Process.InsertedSorted | internal/process/process.go:183 | placing an element before the first larger one keeps the list sorted |
| Process.SortRows | internal/process/process.go:183-236 | the result is sorted by the comparator and a permutation of the rows |
| Process.PrefixOfSorted | internal/process/process.go:238-241 | a prefix of a sorted list is sorted, drawn from it, and nothing left out sorts before anything kept |
| Process.ContainerOrder | internal/process/process.go:196-211 | sorted by container, ascending puts processes with a container first and descending puts them last |
| Process.CpuOrder | internal/process/process.go:222-234 | for "cpu" or an unknown column, CPU is ordered in the given direction with RAM as tie-breaker |
| Process.GetProcesses | internal/process/process.go:124-244 | no process list gives no rows; otherwise at most 150 rows, sorted, drawn from the filtered rows, all of them when there are at most 150, and no omitted row sorts before a kept one |
| Text.TrimSpaceOfPadded | internal/alerting/alerting.go:139 | white space padded around a word is removed again by trimming, which is why a padded preset still matches the allow-list |
| Text.DecimalParseRoundTrip | internal/handlers/tasks.go:113 | parsing the decimal rendering of a 32-bit integer gives it back |
| Text.TrimSpace | internal/alerting/alerting.go:139 | the result is no longer than the input, starts and ends with non-space, and is empty exactly when the input is all white space |
| Text.ReplaceAll | internal/alerting/alerting.go:204-209 | no contract of its own, pinned by `ReplaceAllOccurrence`, `ReplaceAllOther`, `ReplaceAllAbsent`, `ReplaceAllSelf` and `ReplaceAllNoBrace` |
| Text.ReplaceAllOccurrence | internal/alerting/alerting.go:204-209 | the first occurrence of a `{...}` placeholder, with no `{` before it, is replaced and the scan resumes right after it |
| Text.ReplaceAllOther | internal/alerting/alerting.go:204-209 | a string whose only `{` opens a different placeholder is left unchanged by the replacement |
| Text.ToLower | internal/process/process.go:125 | same length, each character lowered; idempotent (`ToLowerIdempotent`) |
| Text.ContainsLower | internal/process/process.go:149 | a word contained in a command is still contained once both are lower-cased |
| Text.ParseInt32 | internal/handlers/tasks.go:113 | a parsed value is a 32-bit integer and the empty string is refused; pinned by `DecimalParseRoundTrip`, `NonDigitRejected` and `OutOfRangeRejected` |
| Text.NonDigitRejected | internal/handlers/tasks.go:113 | any character other than a digit after the optional sign makes the input an error |
| Text.OutOfRangeRejected | internal/handlers/tasks.go:113 | digits whose value exceeds 2147483647 are an error unsigned or with "+"; with "-" the bound is 2147483648 |
| Text.StrLess | internal/process/process.go:193-215 | Go's byte-wise string `<`; no contract of its own, pinned by `StrLessIrreflexive`, `StrLessTransitive`, `StrLessTotal` and `StrLessWeak` |
| Text.StrLessWeak | internal/process/process.go:193-215 | whatever sorts before `z` sorts before `y`, or `y` sorts before `z` |

## Left out

- Concurrency is not modelled: the engine's goroutine and ticker, the `go` dispatch of notifications and shell runs, and the mutexes. The model is one sequential pass, so the lost-update race between the handlers' copy-modify-`SetRules` and the engine's store writes is outside it.
- Each tick uses one clock reading, `now`. The source reads `time.Now()` separately in `evaluateRules` and in `MarkRuleSent`.
- `time.Duration` overflow of huge duration or cooldown values is not modelled; integers are unbounded.
- Notification transports (HTTP webhook, Telegram, SMTP) are not modelled. `Route` decides only which delivery would be attempted.
- `executeSafeShell`'s `sh -c` execution, its 30 s timeout and its logging are not modelled. Only the guard decision is (`ShellEffect`).
- `%.2f`/`%d` rendering and `os.Hostname` (with its "unknown-host" default) are parameters of `BuildMessage`, not computed.
- Host probes (CPU, memory, disk, network counters) are inputs (`HostReading`). The KB/s division is a real division and float32/float64 rounding is not modelled.
- Metrics.Sampler.GeneratePoints: requires `maxVal != 0`, because the source would divide by zero and produce Inf/NaN coordinates. It returns points instead of the SVG text.
- The `.env`/JSON persistence (`SaveEnv`, `SaveRules`, the locale file read) and the environment lookup are not modelled. Decoded files and environment values are inputs.
- The Docker socket client, `KillProcess` and `StopContainer` are inputs: a reply datatype and success booleans.
- The cgroup file scan and its regular expressions are not modelled: each process carries an optional cgroup match, and `Process.GetProcesses` requires every match to be exactly 64 characters long (`CgroupWellFormed`), as the 64-hex-digit patterns guarantee; the container id is its first 12 characters.
- `strconv.Atoi`/`ParseFloat` results for the page and rule forms are `Option` inputs. `ParseInt(pid, 10, 32)` is modelled.
- `ToLower` is ASCII-only; Unicode case folding is not modelled.
- Strings are sequences of code points, not UTF-8 bytes: lengths and slices such as `truncateID`'s 12 and the stop handler's `id[:12]` count characters, where Go counts bytes. They agree on ASCII text, which Docker ids and names are.
- `sort.Slice`'s algorithm is not modelled. An insertion sort stands in, proved sorted and a permutation; no stability is claimed, as `sort.Slice` is unstable.
- Pagination arithmetic is on unbounded integers; the Go `int` overflow for absurd page numbers is not modelled.
- HTML templates, redirects, sessions and `auth.Check`/`auth.Login` are not modelled; the last two are booleans.
- `ServeDashboard`, `ServeStats`, `ServeTasks`, `GetFormatted`, `TestNotification`/`SendTestNotification` and `main.go` are not part of this model.
- I18n.Catalog.Translate: has no contract of its own; it is `T` over the catalog's current dictionaries.

## Findings

| source | as written | input that shows it | evidently intended | confidence | as-written member | corrected member |
|---|---|---|---|---|---|---|
| internal/handlers/tasks.go:148 | the success message slices `id[:12]` without checking the length | a POST with id "web" (a container name the daemon accepts) whose stop succeeds: the slice is out of range and the handler panics after the container was stopped | echo the id truncated to at most 12 characters, as `truncateID` does | not executed | Tasks.HandleStopContainerAsWritten, Tasks.StopShortIdPanics | Tasks.HandleStopContainer, Tasks.StopCorrectionAgrees |
