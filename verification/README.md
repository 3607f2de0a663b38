# Uptime monitor status engine, modelled in Dafny

This project models the core of a Cloudflare-Worker uptime monitor. A cron
handler (`handleScheduled`) probes every configured monitor once per tick. For
each monitor it then:

- reconciles the raw probe result with the monitor's persisted state under a
  grace-period policy;
- upserts the new state;
- appends a history row holding the raw classification;
- decides whether to send a notification.

The read-only `/api/status` endpoint merges the configuration with the
persisted states and the recent history rows into the dashboard payload.

Modules:

- `Wrappers` (`wrappers.dfy`): `Option` and a helper that keeps the present values of a sequence.
- `Types` (`types.dfy`): the status enum, the monitor/group/settings configuration with the defaults the schema fills in, `MonitorState` (including `last_error`) and `CheckHistory`.
- `Engine` (`engine.dfy`): one monitor's step as a pure function `Step(prev, monitor, observation, downOnly)`. It returns the new state, the optional history row and the optional notification.
- `Streak` (`streak.dfy`): `Trace` folds `Step` over consecutive observations of one monitor. Its lemmas cover three behaviours: grace absorbs blips, DOWN is shown once the grace period is reached, and one non-DOWN result resets the streak.
- `Cycle` (`cycle.dfy`): a whole cron tick over all configured monitors. A probe that throws is contained per monitor.
- `StatusView` (`status_view.dfy`): the `/api/status` assembly. It buckets history per monitor and maps groups and monitors in order, with an UNKNOWN placeholder.

Modelling choices:

- **Timestamps and inputs.** The clock reading (`Date.now()`) and the probe result come in as an `Observation`. Timestamps, latencies and the grace period are unbounded `int`s.
- **First-fail time and JavaScript truthiness.** The code reads the carried first-fail time with `||` and tests it with `!`. A stored first-fail time of `0` therefore counts as unset and is replaced by the current time. `Engine.PriorFirstFail` models this, and `Engine.ZeroFirstFailTimeIsReplaced` states it. It only matters for a clock reading of 0.
- **Notification text.** The text falls back to `Status Changed` when the probe message is absent or empty (the `||` in the source).
- **Field missing from the declared record.** `MonitorState` in `src/types.ts` has no `last_error` field, but the handler writes one. The model's record includes it.
- **The UNKNOWN placeholder.** Its status is outside the three-valued enum. The view therefore uses its own type, `StatusView.ViewStatus = Reported(Status) | Unknown`. Persisted and history statuses stay `Types.Status`, so they are one of UP, DEGRADED or DOWN by construction.
- **Last error.** On a DOWN result the handler stores the probe's message as `last_error`, and that message may itself be absent, so a DOWN state can carry no last error. On any other result it stores none. `Engine.NextState` states this.
- **No prior state.** The engine has no UNKNOWN status. A first DOWN with no prior state is shown as DOWN at once, and a first non-DOWN is shown as itself.
- **Recent history in the view.** The store's recent-history query (`getRecentHistory(30)`) is not modelled. `StatusView.BuildStatusView` takes the rows it returns as input and buckets them per monitor.
- **Ordering within a cycle.** Each monitor's read of its prior state is issued before any write of the cycle. For distinct identifiers this is the same as reading the pre-cycle store, which is what the model does. Writes are applied in configuration order, and the last write to an identifier wins. In the source the write order depends on which probe finishes first.

## Model

| member | source | states |
|---|---|---|
| Types.ResolveDisplay | src/types.ts:11-15 | history is on unless the configuration sets it to false; charts default on, public link defaults off |
| Types.ResolveMonitor | src/types.ts:17-31 | an unset grace period is 3, an unset method is GET, an unset timeout is 5000; history stays on unless the display block turns it off |
| Types.ResolveSettings | src/types.ts:39-46 | notify-on-down-only is on only when the configuration says true |
| Types.AllMonitors | src/index.ts:90-92 | the flattened monitor list contains every monitor of every group and nothing else |
| Engine.PriorFirstFail | src/index.ts:107 | the carried first-fail time is the stored one when it is set and non-zero, otherwise unset |
| Engine.VisibleStatus | src/index.ts:109-133 | a non-DOWN result is shown as is; a DOWN result is shown as DOWN exactly when there is no prior state, the prior state is DOWN, or the count reached the grace period; otherwise the prior status is kept |
| Engine.NextState | src/index.ts:104-144 | the new state is well formed (zero failures iff no first-fail time); non-DOWN resets count, first-fail time and last error; DOWN adds one to the prior count (absent counts 0), keeps a set first-fail time or sets it to now, and stores the message as last error; time and latency come from this check |
| Engine.HistoryEntry | src/index.ts:151-158 | a history row exists exactly when history is on, and it carries the raw status, the check's time, latency and message |
| Engine.NotificationText | src/index.ts:167 | the text is the probe's message when non-empty, otherwise "Status Changed", never empty |
| Engine.Notify | src/index.ts:161-169 | a notification is sent iff a prior state exists, its status differs from the new one, and the policy is every-change or the new status is DOWN |
| Engine.Step | src/index.ts:95-169 | one monitor's evaluation: well-formed state for this monitor at this time, history gated by the flag and raw, notification exactly on a policy-allowed visible change, carrying the monitor's identifier, the new status and the message or its fallback |
| Engine.NonDownResets | src/index.ts:129-133 | after a non-DOWN result: fail count 0, no first-fail time, no last error, visible status equals the raw status |
| Engine.NonDownForgetsPrior | src/index.ts:129-144 | the state written after a non-DOWN result is the same whatever the prior state was |
| Engine.DownVisibility | src/index.ts:113-128 | for a DOWN result: shown DOWN iff no prior state, prior DOWN, or prior count plus one reaches the grace period; otherwise the prior status is shown |
| Engine.FreshDownIsDown | src/index.ts:120-125 | a first DOWN with no prior state is shown DOWN with count 1, first-fail time now, and no notification |
| Engine.DefaultPolicyNotifiesEveryChange | src/types.ts:45 | with the policy left at its default, every visible-status change of a known monitor is notified |
| Engine.DownOnlyPolicyNotifiesOnlyDown | src/index.ts:162-168 | under the down-only policy a notification is sent exactly on a change from non-DOWN into DOWN |
| Engine.DefaultRecordsHistory | src/types.ts:13 | with the history flag left at its default, every check records a history row with the raw status |
| Engine.ZeroFirstFailTimeIsReplaced | src/index.ts:107-111 | a stored first-fail time of 0 reads as unset and a DOWN result replaces it with now |
| Streak.Trace | src/index.ts:94-170 | consecutive cycles of one monitor, each reading the state the previous wrote; every state is well formed and belongs to the monitor |
| Streak.DownStreak | src/index.ts:106-128 | over consecutive raw DOWNs the count grows by one per cycle, and cycle i is shown DOWN iff no prior state, prior DOWN, or the count reached the grace period, else the prior status |
| Streak.GraceAbsorbsBlips | src/index.ts:114-121 | while a streak from a shown UP/DEGRADED stays below the grace period, that status is shown throughout and nothing is notified |
| Streak.ReachesDown | src/index.ts:126-128 | once the carried count plus the streak length reaches the grace period, the monitor is shown DOWN |
| Streak.FirstVisibleDownIsAtGrace | src/index.ts:114-128 | from a non-DOWN state with no failures, the grace-period-th consecutive DOWN is the first shown as DOWN |
| Streak.DefaultGraceIsThree | src/types.ts:27 | with the default grace period, three DOWNs from UP/DEGRADED are shown as that status, that status, DOWN |
| Streak.StreakKeepsFirstFailTime | src/index.ts:107-111 | throughout a DOWN streak the first-fail time stays the carried one, or the first DOWN's time when that reading is non-zero |
| Streak.FailCountIsTrailingDowns | src/index.ts:106-133 | the persisted fail count equals the number of trailing raw DOWNs since the last non-DOWN, or continues the prior count when there was none |
| Streak.NonDownSeversHistory | src/index.ts:129-144 | from a non-DOWN result on, two runs with different prior states write the same states, and from the next cycle on produce identical outcomes |
| Streak.HistoryRecordsRaw | src/index.ts:151-158 | every cycle records the raw classification with its own timestamp, exactly when history is on |
| Streak.NotifiesOnVisibleChange | src/index.ts:162-168 | along a run a notification is sent exactly where the visible status differs from the previous cycle's, as the policy allows |
| Streak.GraceExample | src/index.ts:109-133 | grace 3, prior UP, raw DOWN, DOWN, DOWN, UP are shown as UP, UP, DOWN, UP |
| Cycle.Persist | src/index.ts:146 | upserting keeps unwritten keys, adds written ones, and the last write to a key wins |
| Cycle.Outcomes | src/index.ts:94-100 | every monitor is evaluated against the pre-cycle store; a crashed probe produces no outcome |
| Cycle.RunCycle | src/index.ts:86-171 | one outcome per configured monitor, each the step from that monitor's stored state, none for a crashed probe |
| Cycle.CrashWritesNothing | src/index.ts:94-100 | no outcome of a cycle writes an identifier whose probes all threw |
| Cycle.CrashLeavesStateUntouched | src/index.ts:94-100 | a monitor whose probe threw has its stored state unchanged and gains none |
| Cycle.LastResultIsStored | src/index.ts:136-146 | the stored state of a monitor is the one computed from its last returning probe |
| Cycle.OutcomeHistory | src/index.ts:151-158 | over any list of monitors, the history rows are exactly the raw rows of the monitors whose probe returned and that keep history, one row per such monitor: each row occurs as often as there are monitors recording it |
| Cycle.HistoryRowsAreRaw | src/index.ts:151-158 | the history rows appended in a cycle are exactly the raw rows of the monitors whose probe returned and that keep history, one row per such monitor: each row occurs as often as there are monitors recording it |
| Cycle.OutcomeNotifications | src/index.ts:162-168 | over any list of monitors, the notifications are exactly those of the checked monitors with a stored state whose visible status changed as the policy allows, each carrying the monitor's identifier, new status and message text; one per such monitor, each occurring as often as there are monitors sending it |
| Cycle.NotificationsAreChanges | src/index.ts:162-168 | the notifications of a cycle are exactly one per checked monitor whose stored status differs from its new visible status as the policy allows (DOWN only under the down-only policy), carrying its identifier, new status and message text, with matching multiplicities |
| StatusView.OfMonitor | src/index.ts:54-59 | a monitor's history rows are exactly the rows for it, in input order |
| StatusView.Buckets | src/index.ts:52-59 | a monitor has a bucket iff it has rows, and its bucket is exactly its rows in input order |
| StatusView.StateIndex | src/index.ts:47-48 | every id with a state row is indexed, to a row of its own; the last row for an id wins |
| StatusView.BuildStatusView | src/index.ts:61-72 | groups and their monitors keep their configured order and count; each monitor gets its last persisted state or the placeholder when it has none, and its rows in order or an empty list |
| StatusView.ViewListsEveryMonitor | src/index.ts:62-72 | listing the view's monitors group by group gives exactly the configured monitors in order |
| StatusView.StatusViewListsEveryMonitor | src/index.ts:62-72 | the status view never drops, adds or reorders a monitor |
| StatusView.UnknownExactlyWhenNoState | src/index.ts:65-68 | a monitor is shown UNKNOWN at time 0 with latency 0 exactly when no state exists for it; otherwise its persisted status is shown |

## Left out

- HTTP routing, CORS, the HTML page and the `/api/config` secret stripping (src/index.ts:17-43): request plumbing with no state-machine logic.
- The store (`getMonitorState`, `getAllMonitorStates`, `getRecentHistory`, `upsertMonitorState`, `addCheckHistory`, `getHistory`): the store is a map parameter or a returned value. Its SQL, the row limit passed to `getRecentHistory` and the order in which rows come back are not modelled. `/api/history/:id` is a plain store read and is left out with it.
- `checkMonitor` (network probing, timeouts, validation rules): its result, or the fact that it threw, is an input (`Cycle.Probe`). The probe-only configuration fields are dropped for the same reason: headers, body, validation, tags.
- `sendNotification`: the model only produces the decision and its content. Delivery and delivery failure are not modelled.
- The `Promise.allSettled` fan-out is modelled as one pass over the monitors. Store failures and notifier failures inside a monitor's evaluation are not modelled.
- Cycle.RunCycle: in the source, the order of a cycle's state writes, appended history rows and sent notifications depends on which probe finishes first. The model produces all three in configuration order. For state writes this only matters when two monitors share an identifier. The order of history rows and notifications within a cycle is not modelled; the contracts fix which rows and notifications there are and how often each occurs.
- Streak.StreakKeepsFirstFailTime: when there is no usable prior first-fail time, it assumes the streak's first clock reading is non-zero. With a zero reading the code stamps 0 and then replaces it at the next DOWN, which is the truthiness case `Engine.ZeroFirstFailTimeIsReplaced` covers.
- `loadConfig` and schema validation: only the resulting record shapes and their defaults are kept (`Types.Resolve*`). Non-integer grace periods, which the schema's `number` would accept, are not modelled.
- Logging (`console.log`).
