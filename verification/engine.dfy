/** One evaluation of one monitor in the scheduled cycle: the prior
    persisted state and one probe result go in; the new state, the optional
    history row and the optional notification come out.

    The step is a pure function of its inputs. Reading the prior state,
    probing, reading the clock, writing the store and sending the
    notification are done by the caller (see module Cycle). */
module Engine {
  import opened Wrappers
  import opened Types

  /** One probe result together with the clock reading taken right after it. */
  datatype Observation = Observation(result: CheckResult, now: int)

  /** The decision to notify: which monitor, its new visible status, and the text. */
  datatype Notification = Notification(monitorId: string, status: Status, message: string)

  /** Everything one step produces. */
  datatype StepOutcome = StepOutcome(
    state: MonitorState,
    history: Option<CheckHistory>,
    notification: Option<Notification>)

  /** The notification text used when the probe gave no message. */
  const FallbackMessage: string := "Status Changed"

  /** The failure count carried over; an absent prior state counts as zero. */
  function PriorFailCount(prev: Option<MonitorState>): nat {
    if prev.Some? then prev.value.failCount else 0
  }

  /** The first-failure time carried over. JavaScript truthiness applies:
      a stored time of 0 reads as unset, like an absent one. */
  function PriorFirstFail(prev: Option<MonitorState>): (t: Option<int>)
    ensures t.Some? <==> prev.Some? && prev.value.firstFailTime.Some? && prev.value.firstFailTime.value != 0
    ensures t.Some? ==> t == prev.value.firstFailTime
  {
    if prev.Some? && prev.value.firstFailTime.Some? && prev.value.firstFailTime.value != 0
    then prev.value.firstFailTime
    else None
  }

  /** The grace-period policy: the status shown to the outside for a raw
      classification `raw`, given the prior state and the new failure count. */
  function VisibleStatus(prev: Option<MonitorState>, raw: Status, failCount: nat, grace: int): (s: Status)
    ensures raw != Down ==> s == raw
    ensures s == Down <==> raw == Down && (prev.None? || prev.value.status == Down || failCount >= grace)
    ensures s != Down && raw == Down ==> prev.Some? && s == prev.value.status
  {
    if raw != Down then raw
    else if failCount < grace && prev.Some? && prev.value.status != Down then prev.value.status
    else Down
  }

  /** The state written back after the probe. */
  function NextState(prev: Option<MonitorState>, m: Monitor, obs: Observation): (s: MonitorState)
    ensures WellFormed(s)
    ensures s.monitorId == m.id && s.lastCheckedAt == obs.now && s.lastLatency == obs.result.latency
    ensures obs.result.status != Down ==>
      s.failCount == 0 && s.firstFailTime.None? && s.status == obs.result.status && s.lastError.None?
    ensures obs.result.status == Down ==>
      && s.failCount == PriorFailCount(prev) + 1
      && s.lastError == obs.result.message
      && (PriorFirstFail(prev).Some? ==> s.firstFailTime == PriorFirstFail(prev))
      && (PriorFirstFail(prev).None? ==> s.firstFailTime == Some(obs.now))
  {
    var raw := obs.result.status;
    var failCount: nat := if raw == Down then PriorFailCount(prev) + 1 else 0;
    var firstFail :=
      if raw != Down then None
      else if PriorFirstFail(prev).Some? then PriorFirstFail(prev)
      else Some(obs.now);
    MonitorState(
      m.id,
      VisibleStatus(prev, raw, failCount, m.gracePeriod),
      obs.now,
      obs.result.latency,
      failCount,
      firstFail,
      if raw == Down then obs.result.message else None)
  }

  /** The history row, recorded unless the monitor turns history off. It
      carries the raw classification, not the visible status. */
  function HistoryEntry(m: Monitor, obs: Observation): (h: Option<CheckHistory>)
    ensures h.Some? <==> m.display.history
    ensures h.Some? ==>
      && h.value.monitorId == m.id
      && h.value.status == obs.result.status
      && h.value.timestamp == obs.now
      && h.value.latency == obs.result.latency
      && h.value.message == obs.result.message
  {
    if m.display.history
    then Some(CheckHistory(m.id, obs.now, obs.result.status, obs.result.latency, obs.result.message))
    else None
  }

  /** The text sent: the probe's message, or the fallback when it is absent or empty. */
  function NotificationText(message: Option<string>): (t: string)
    ensures message.Some? && message.value != "" ==> t == message.value
    ensures message.None? || message.value == "" ==> t == FallbackMessage
    ensures t != ""
  {
    if message.Some? && message.value != "" then message.value else FallbackMessage
  }

  /** Notify when a prior state exists, the visible status changed, and the
      policy allows it: every change, or only changes into DOWN. */
  function Notify(prev: Option<MonitorState>, m: Monitor, newStatus: Status, message: Option<string>, downOnly: bool)
    : (n: Option<Notification>)
    ensures n.Some? <==> prev.Some? && prev.value.status != newStatus && (!downOnly || newStatus == Down)
    ensures n.Some? ==> n.value.monitorId == m.id && n.value.status == newStatus && n.value.message == NotificationText(message)
  {
    if prev.Some? && prev.value.status != newStatus && (!downOnly || newStatus == Down)
    then Some(Notification(m.id, newStatus, NotificationText(message)))
    else None
  }

  /** One monitor's evaluation in a scheduled cycle. */
  function Step(prev: Option<MonitorState>, m: Monitor, obs: Observation, downOnly: bool): (o: StepOutcome)
    ensures WellFormed(o.state)
    ensures o.state.monitorId == m.id && o.state.lastCheckedAt == obs.now
    ensures o.history.Some? <==> m.display.history
    ensures o.history.Some? ==> o.history.value.status == obs.result.status && o.history.value.timestamp == o.state.lastCheckedAt
    ensures o.notification.Some? <==>
      prev.Some? && prev.value.status != o.state.status && (!downOnly || o.state.status == Down)
    ensures o.notification.Some? ==>
      o.notification.value == Notification(m.id, o.state.status, NotificationText(obs.result.message))
  {
    var s := NextState(prev, m, obs);
    StepOutcome(s, HistoryEntry(m, obs), Notify(prev, m, s.status, obs.result.message, downOnly))
  }

  // ---------------------------------------------------------------------
  // Single-step properties

  /** A non-DOWN result clears the failure streak and is shown as it is,
      whatever came before. */
  lemma NonDownResets(prev: Option<MonitorState>, m: Monitor, obs: Observation, downOnly: bool)
    requires obs.result.status != Down
    ensures var s := Step(prev, m, obs, downOnly).state;
      s.failCount == 0 && s.firstFailTime.None? && s.status == obs.result.status && s.lastError.None?
  {
  }

  /** The new state after a non-DOWN result does not depend on the prior state. */
  lemma NonDownForgetsPrior(p1: Option<MonitorState>, p2: Option<MonitorState>, m: Monitor, obs: Observation, downOnly: bool)
    requires obs.result.status != Down
    ensures Step(p1, m, obs, downOnly).state == Step(p2, m, obs, downOnly).state
  {
  }

  /** A DOWN result becomes visible at once in three cases: no prior state,
      a prior state already DOWN, or the failure count reached the grace period;
      otherwise the prior visible status is kept. */
  lemma DownVisibility(prev: Option<MonitorState>, m: Monitor, obs: Observation, downOnly: bool)
    requires obs.result.status == Down
    ensures var s := Step(prev, m, obs, downOnly).state;
      && (s.status == Down <==> prev.None? || prev.value.status == Down || PriorFailCount(prev) + 1 >= m.gracePeriod)
      && (s.status != Down ==> s.status == prev.value.status)
  {
  }

  /** Without a prior state, a monitor's first DOWN is shown as DOWN and
      sends nothing. */
  lemma FreshDownIsDown(m: Monitor, obs: Observation, downOnly: bool)
    requires obs.result.status == Down
    ensures var o := Step(None, m, obs, downOnly);
      o.state.status == Down && o.state.failCount == 1 && o.state.firstFailTime == Some(obs.now) && o.notification.None?
  {
  }

  /** Under the default policy every visible change sends a notification. */
  lemma DefaultPolicyNotifiesEveryChange(prev: Option<MonitorState>, m: Monitor, obs: Observation, downOnly: Option<bool>)
    requires downOnly.None?
    ensures var o := Step(prev, m, obs, ResolveSettings("", downOnly).notificationOnDownOnly);
      o.notification.Some? <==> prev.Some? && prev.value.status != o.state.status
  {
  }

  /** Under the down-only policy nothing but a change into DOWN is sent. */
  lemma DownOnlyPolicyNotifiesOnlyDown(prev: Option<MonitorState>, m: Monitor, obs: Observation)
    ensures var o := Step(prev, m, obs, true);
      o.notification.Some? <==> prev.Some? && prev.value.status != Down && o.state.status == Down
  {
  }

  /** History stays on when the configuration does not turn it off. */
  lemma DefaultRecordsHistory(prev: Option<MonitorState>, m: MonitorInput, obs: Observation, downOnly: bool)
    requires m.display.None? || m.display.value.history.None?
    ensures var o := Step(prev, ResolveMonitor(m), obs, downOnly);
      o.history.Some? && o.history.value.status == obs.result.status
  {
  }

  /** The JavaScript truthiness of the carried first-failure time: a stored
      time of 0 is treated as unset and replaced by the current time. */
  lemma ZeroFirstFailTimeIsReplaced(s: MonitorState, m: Monitor, obs: Observation, downOnly: bool)
    requires s.firstFailTime == Some(0) && obs.result.status == Down
    ensures Step(Some(s), m, obs, downOnly).state.firstFailTime == Some(obs.now)
  {
  }
}
