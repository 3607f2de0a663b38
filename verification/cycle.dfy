/** One scheduled cycle over every configured monitor. Each monitor's read
    of its prior state is issued before any write of the cycle; for distinct
    identifiers this is the same as reading the store as it was before the
    cycle, and the model evaluates every monitor against that snapshot. The
    writes are then applied in configuration order, the last write to an
    identifier winning. A probe
    that throws instead of returning a result is contained: that monitor
    writes, records and sends nothing this cycle. */
module Cycle {
  import opened Wrappers
  import opened Types
  import opened Engine

  /** What the probe of one monitor did this cycle. */
  datatype Probe = Checked(obs: Observation) | Crashed

  /** The store after the cycle, each monitor's outcome (none for a crashed
      probe), the appended history rows and the notifications sent. */
  datatype CycleOutcome = CycleOutcome(
    store: map<string, MonitorState>,
    outcomes: seq<Option<StepOutcome>>,
    history: seq<CheckHistory>,
    notifications: seq<Notification>)

  /** The stored state of a monitor, absent when it was never evaluated. */
  function Lookup(store: map<string, MonitorState>, id: string): (r: Option<MonitorState>)
    ensures r.Some? <==> id in store
    ensures r.Some? ==> r.value == store[id]
  {
    if id in store then Some(store[id]) else None
  }

  /** One monitor's evaluation against the pre-cycle store. */
  function Evaluate(snapshot: map<string, MonitorState>, m: Monitor, p: Probe, downOnly: bool): Option<StepOutcome> {
    match p
    case Crashed => None
    case Checked(obs) => Some(Step(Lookup(snapshot, m.id), m, obs, downOnly))
  }

  /** The identifiers a sequence of outcomes writes. */
  function Written(os: seq<Option<StepOutcome>>): set<string>
    decreases |os|
  {
    if |os| == 0 then {}
    else
      var last := os[|os| - 1];
      Written(os[..|os| - 1]) + (if last.Some? then {last.value.state.monitorId} else {})
  }

  /** The written identifiers are exactly those of the outcomes that write. */
  lemma {:induction false} WrittenMembers(os: seq<Option<StepOutcome>>)
    decreases |os|
    ensures forall i :: 0 <= i < |os| && os[i].Some? ==> os[i].value.state.monitorId in Written(os)
    ensures forall id :: id in Written(os) ==> exists i :: 0 <= i < |os| && os[i].Some? && os[i].value.state.monitorId == id
  {
    if |os| > 0 {
      var init := os[..|os| - 1];
      WrittenMembers(init);
      assert forall i :: 0 <= i < |init| ==> init[i] == os[i];
    }
  }

  /** Outcome `i` writes, and no later outcome writes the same identifier. */
  predicate LastWrite(os: seq<Option<StepOutcome>>, i: int)
    requires 0 <= i < |os|
  {
    os[i].Some? &&
    forall j :: i < j < |os| && os[j].Some? ==> os[j].value.state.monitorId != os[i].value.state.monitorId
  }

  /** A last write in `os` that is not the final outcome is a last write of the prefix. */
  lemma LastWritePrefix(os: seq<Option<StepOutcome>>, i: int)
    requires 0 <= i < |os| - 1 && LastWrite(os, i)
    ensures LastWrite(os[..|os| - 1], i)
    ensures os[|os| - 1].Some? ==> os[|os| - 1].value.state.monitorId != os[i].value.state.monitorId
  {
  }

  /** Upserts every written state, in order, into the store. */
  function Persist(store: map<string, MonitorState>, os: seq<Option<StepOutcome>>): (r: map<string, MonitorState>)
    decreases |os|
    ensures r.Keys == store.Keys + Written(os)
    ensures forall k :: k in store && k !in Written(os) ==> r[k] == store[k]
    ensures forall i :: 0 <= i < |os| && LastWrite(os, i) ==>
      os[i].value.state.monitorId in r && r[os[i].value.state.monitorId] == os[i].value.state
  {
    if |os| == 0 then store
    else
      var init := os[..|os| - 1];
      var last := os[|os| - 1];
      var before := Persist(store, init);
      forall i | 0 <= i < |os| - 1 && LastWrite(os, i) {
        LastWritePrefix(os, i);
      }
      if last.None? then before
      else before[last.value.state.monitorId := last.value.state]
  }

  /** Each outcome's history row, if it has one. */
  function HistoryOf(os: seq<Option<StepOutcome>>): (hs: seq<Option<CheckHistory>>)
    ensures |hs| == |os|
    ensures forall i :: 0 <= i < |os| ==> hs[i] == (if os[i].Some? then os[i].value.history else None)
  {
    seq(|os|, i requires 0 <= i < |os| => if os[i].Some? then os[i].value.history else None)
  }

  /** The history rows of the outcomes: one per outcome that has one. */
  function HistoryRows(os: seq<Option<StepOutcome>>): (rows: seq<CheckHistory>)
    ensures forall h :: h in rows <==> exists i :: 0 <= i < |os| && os[i].Some? && os[i].value.history == Some(h)
    ensures |rows| == CountSome(HistoryOf(os))
    ensures forall h :: multiset(rows)[h] == CountOf(HistoryOf(os), h)
  {
    Somes(HistoryOf(os))
  }

  /** Each outcome's notification, if it has one. */
  function NotificationOf(os: seq<Option<StepOutcome>>): (xs: seq<Option<Notification>>)
    ensures |xs| == |os|
    ensures forall i :: 0 <= i < |os| ==> xs[i] == (if os[i].Some? then os[i].value.notification else None)
  {
    seq(|os|, i requires 0 <= i < |os| => if os[i].Some? then os[i].value.notification else None)
  }

  /** The notifications of the outcomes: one per outcome that has one. */
  function Notifications(os: seq<Option<StepOutcome>>): (ns: seq<Notification>)
    ensures forall n :: n in ns <==> exists i :: 0 <= i < |os| && os[i].Some? && os[i].value.notification == Some(n)
    ensures |ns| == CountSome(NotificationOf(os))
    ensures forall n :: multiset(ns)[n] == CountOf(NotificationOf(os), n)
  {
    Somes(NotificationOf(os))
  }

  /** Every monitor evaluated against the same pre-cycle store. */
  function Outcomes(snapshot: map<string, MonitorState>, ms: seq<Monitor>, probes: seq<Probe>, downOnly: bool)
    : (os: seq<Option<StepOutcome>>)
    requires |probes| == |ms|
    ensures |os| == |ms|
    ensures forall i :: 0 <= i < |ms| ==> (os[i].None? <==> probes[i].Crashed?)
    ensures forall i :: 0 <= i < |ms| && probes[i].Checked? ==>
      os[i].value == Step(Lookup(snapshot, ms[i].id), ms[i], probes[i].obs, downOnly)
  {
    seq(|ms|, i requires 0 <= i < |ms| => Evaluate(snapshot, ms[i], probes[i], downOnly))
  }

  /** The scheduled cycle: `probes[i]` is what probing the `i`-th configured
      monitor gave, groups flattened in order. */
  function RunCycle(config: Config, store: map<string, MonitorState>, probes: seq<Probe>): (c: CycleOutcome)
    requires |probes| == |AllMonitors(config.groups)|
    ensures var ms := AllMonitors(config.groups);
      && |c.outcomes| == |ms|
      && (forall i :: 0 <= i < |ms| ==> (c.outcomes[i].None? <==> probes[i].Crashed?))
      && (forall i :: 0 <= i < |ms| && probes[i].Checked? ==>
            c.outcomes[i].value == Step(Lookup(store, ms[i].id), ms[i], probes[i].obs, config.settings.notificationOnDownOnly))
    ensures c.store == Persist(store, c.outcomes)
    ensures c.history == HistoryRows(c.outcomes) && c.notifications == Notifications(c.outcomes)
  {
    var os := Outcomes(store, AllMonitors(config.groups), probes, config.settings.notificationOnDownOnly);
    CycleOutcome(Persist(store, os), os, HistoryRows(os), Notifications(os))
  }

  /** No monitor with identifier `k` returned a result this cycle. */
  predicate NeverChecked(ms: seq<Monitor>, probes: seq<Probe>, k: string)
    requires |probes| == |ms|
  {
    forall i :: 0 <= i < |ms| && ms[i].id == k ==> probes[i].Crashed?
  }

  /** Monitor `i` returned a result, and no later monitor with its identifier did. */
  predicate LastChecked(ms: seq<Monitor>, probes: seq<Probe>, i: int)
    requires |probes| == |ms| && 0 <= i < |ms|
  {
    probes[i].Checked? && forall j :: i < j < |ms| && ms[j].id == ms[i].id ==> probes[j].Crashed?
  }

  /** A pass over `ms` writes no identifier that no returning probe carries. */
  lemma CrashWritesNothing(snapshot: map<string, MonitorState>, ms: seq<Monitor>, probes: seq<Probe>, downOnly: bool, k: string)
    requires |probes| == |ms| && NeverChecked(ms, probes, k)
    ensures k !in Written(Outcomes(snapshot, ms, probes, downOnly))
  {
    var os := Outcomes(snapshot, ms, probes, downOnly);
    WrittenMembers(os);
    forall i | 0 <= i < |os| && os[i].Some?
      ensures os[i].value.state.monitorId != k
    {
      assert probes[i].Checked? && os[i].value.state.monitorId == ms[i].id;
    }
  }

  /** A monitor whose probe threw keeps its stored state untouched, and the
      cycle never invents state for an identifier nobody checked. */
  lemma CrashLeavesStateUntouched(config: Config, store: map<string, MonitorState>, probes: seq<Probe>, k: string)
    requires |probes| == |AllMonitors(config.groups)|
    requires NeverChecked(AllMonitors(config.groups), probes, k)
    ensures var c := RunCycle(config, store, probes);
      (k in c.store <==> k in store) && (k in store ==> c.store[k] == store[k])
  {
    CrashWritesNothing(store, AllMonitors(config.groups), probes, config.settings.notificationOnDownOnly, k);
  }

  /** The state stored for a monitor is the one its last returning probe computed. */
  lemma LastResultIsStored(config: Config, store: map<string, MonitorState>, probes: seq<Probe>, i: nat)
    requires |probes| == |AllMonitors(config.groups)| && i < |probes|
    requires LastChecked(AllMonitors(config.groups), probes, i)
    ensures var ms := AllMonitors(config.groups); var c := RunCycle(config, store, probes);
      ms[i].id in c.store &&
      c.store[ms[i].id] == Step(Lookup(store, ms[i].id), ms[i], probes[i].obs, config.settings.notificationOnDownOnly).state
  {
    var c := RunCycle(config, store, probes);
    assert LastWrite(c.outcomes, i);
  }

  /** Monitor `i`'s probe returned, the monitor keeps history, and `h` is its raw row. */
  predicate RecordsRow(ms: seq<Monitor>, probes: seq<Probe>, i: int, h: CheckHistory)
    requires |probes| == |ms| && 0 <= i < |ms|
  {
    probes[i].Checked? && ms[i].display.history && Some(h) == HistoryEntry(ms[i], probes[i].obs)
  }

  /** How many monitors of `ms` keep history and had their probe return. */
  function Recording(ms: seq<Monitor>, probes: seq<Probe>): (n: nat)
    requires |probes| == |ms|
    decreases |ms|
    ensures n <= |ms|
  {
    if |ms| == 0 then 0
    else (if probes[0].Checked? && ms[0].display.history then 1 else 0) + Recording(ms[1..], probes[1..])
  }

  /** Entries present exactly for the recording monitors number `Recording`. */
  lemma {:induction false} RecordingCount<T>(xs: seq<Option<T>>, ms: seq<Monitor>, probes: seq<Probe>)
    requires |xs| == |ms| && |probes| == |ms|
    requires forall i :: 0 <= i < |ms| ==> (xs[i].Some? <==> probes[i].Checked? && ms[i].display.history)
    ensures CountSome(xs) == Recording(ms, probes)
    decreases |ms|
  {
    if |ms| > 0 {
      RecordingCount(xs[1..], ms[1..], probes[1..]);
    }
  }

  /** How many monitors of `ms` record exactly the row `h`. */
  function RowCopies(ms: seq<Monitor>, probes: seq<Probe>, h: CheckHistory): (n: nat)
    requires |probes| == |ms|
    decreases |ms|
    ensures n <= Recording(ms, probes)
  {
    if |ms| == 0 then 0
    else (if RecordsRow(ms, probes, 0, h) then 1 else 0) + RowCopies(ms[1..], probes[1..], h)
  }

  /** Entries equal to `Some(h)` exactly for the monitors recording `h` number `RowCopies`. */
  lemma {:induction false} RowCopiesCount(xs: seq<Option<CheckHistory>>, ms: seq<Monitor>, probes: seq<Probe>, h: CheckHistory)
    requires |xs| == |ms| && |probes| == |ms|
    requires forall i :: 0 <= i < |ms| ==> (xs[i] == Some(h) <==> RecordsRow(ms, probes, i, h))
    ensures CountOf(xs, h) == RowCopies(ms, probes, h)
    decreases |ms|
  {
    if |ms| > 0 {
      assert forall i :: 0 <= i < |ms| - 1 ==> RecordsRow(ms[1..], probes[1..], i, h) == RecordsRow(ms, probes, i + 1, h);
      RowCopiesCount(xs[1..], ms[1..], probes[1..], h);
    }
  }

  /** The history rows of a pass over `ms` are exactly the raw rows of the
      monitors that keep history and whose probe returned, one row each:
      a row occurs as often as there are monitors recording it. */
  lemma OutcomeHistory(snapshot: map<string, MonitorState>, ms: seq<Monitor>, probes: seq<Probe>, downOnly: bool)
    requires |probes| == |ms|
    ensures forall h :: h in HistoryRows(Outcomes(snapshot, ms, probes, downOnly)) <==>
      exists i :: 0 <= i < |ms| && RecordsRow(ms, probes, i, h)
    ensures |HistoryRows(Outcomes(snapshot, ms, probes, downOnly))| == Recording(ms, probes)
    ensures forall h :: multiset(HistoryRows(Outcomes(snapshot, ms, probes, downOnly)))[h] == RowCopies(ms, probes, h)
  {
    var os := Outcomes(snapshot, ms, probes, downOnly);
    RecordingCount(HistoryOf(os), ms, probes);
    forall h ensures multiset(HistoryRows(os))[h] == RowCopies(ms, probes, h) {
      forall i | 0 <= i < |ms| ensures HistoryOf(os)[i] == Some(h) <==> RecordsRow(ms, probes, i, h) {
        assert HistoryOf(os)[i] == (if probes[i].Checked? then HistoryEntry(ms[i], probes[i].obs) else None);
      }
      RowCopiesCount(HistoryOf(os), ms, probes, h);
    }
    forall h | h in HistoryRows(os)
      ensures exists i :: 0 <= i < |ms| && RecordsRow(ms, probes, i, h)
    {
      var i :| 0 <= i < |os| && os[i].Some? && os[i].value.history == Some(h);
      assert RecordsRow(ms, probes, i, h);
    }
    forall h, i | 0 <= i < |ms| && RecordsRow(ms, probes, i, h)
      ensures h in HistoryRows(os)
    {
      assert os[i].Some? && os[i].value.history == Some(h);
    }
  }

  /** The history rows appended this cycle are exactly the raw results of
      the monitors that keep history and whose probe returned, one row for
      each such monitor. */
  lemma HistoryRowsAreRaw(config: Config, store: map<string, MonitorState>, probes: seq<Probe>)
    requires |probes| == |AllMonitors(config.groups)|
    ensures var ms := AllMonitors(config.groups);
      forall h :: h in RunCycle(config, store, probes).history <==>
        exists i :: 0 <= i < |ms| && RecordsRow(ms, probes, i, h)
    ensures |RunCycle(config, store, probes).history| == Recording(AllMonitors(config.groups), probes)
    ensures forall h :: multiset(RunCycle(config, store, probes).history)[h] == RowCopies(AllMonitors(config.groups), probes, h)
  {
    OutcomeHistory(store, AllMonitors(config.groups), probes, config.settings.notificationOnDownOnly);
  }

  /** Monitor `i`'s probe returned, it had a stored state, its visible status
      changed, and the policy lets the change be announced. */
  predicate AnnouncesChange(snapshot: map<string, MonitorState>, ms: seq<Monitor>, probes: seq<Probe>, downOnly: bool, i: int)
    requires |probes| == |ms| && 0 <= i < |ms|
  {
    && probes[i].Checked?
    && ms[i].id in snapshot
    && var status := Step(Lookup(snapshot, ms[i].id), ms[i], probes[i].obs, downOnly).state.status;
       snapshot[ms[i].id].status != status && (!downOnly || status == Down)
  }

  /** The notification monitor `i` sends: its identifier, its new visible
      status and its probe's message (or the fallback text). */
  function Announcement(snapshot: map<string, MonitorState>, ms: seq<Monitor>, probes: seq<Probe>, downOnly: bool, i: int): Notification
    requires |probes| == |ms| && 0 <= i < |ms| && probes[i].Checked?
  {
    Notification(
      ms[i].id,
      Step(Lookup(snapshot, ms[i].id), ms[i], probes[i].obs, downOnly).state.status,
      NotificationText(probes[i].obs.result.message))
  }

  /** How many monitors of `ms` announce a change. */
  function Announcing(snapshot: map<string, MonitorState>, ms: seq<Monitor>, probes: seq<Probe>, downOnly: bool): (n: nat)
    requires |probes| == |ms|
    decreases |ms|
    ensures n <= |ms|
  {
    if |ms| == 0 then 0
    else (if AnnouncesChange(snapshot, ms, probes, downOnly, 0) then 1 else 0) + Announcing(snapshot, ms[1..], probes[1..], downOnly)
  }

  /** Monitor `i` announces a change, and its notification is `n`. */
  predicate Sends(snapshot: map<string, MonitorState>, ms: seq<Monitor>, probes: seq<Probe>, downOnly: bool, i: int, n: Notification)
    requires |probes| == |ms| && 0 <= i < |ms|
  {
    AnnouncesChange(snapshot, ms, probes, downOnly, i) && Announcement(snapshot, ms, probes, downOnly, i) == n
  }

  /** How many monitors of `ms` send exactly the notification `n`. */
  function NotificationCopies(snapshot: map<string, MonitorState>, ms: seq<Monitor>, probes: seq<Probe>, downOnly: bool, n: Notification)
    : (k: nat)
    requires |probes| == |ms|
    decreases |ms|
    ensures k <= Announcing(snapshot, ms, probes, downOnly)
  {
    if |ms| == 0 then 0
    else (if Sends(snapshot, ms, probes, downOnly, 0, n) then 1 else 0) + NotificationCopies(snapshot, ms[1..], probes[1..], downOnly, n)
  }

  /** Entries present exactly for the announcing monitors number `Announcing`. */
  lemma {:induction false} AnnouncingCount<T>(xs: seq<Option<T>>, snapshot: map<string, MonitorState>, ms: seq<Monitor>, probes: seq<Probe>, downOnly: bool)
    requires |xs| == |ms| && |probes| == |ms|
    requires forall i :: 0 <= i < |ms| ==> (xs[i].Some? <==> AnnouncesChange(snapshot, ms, probes, downOnly, i))
    ensures CountSome(xs) == Announcing(snapshot, ms, probes, downOnly)
    decreases |ms|
  {
    if |ms| > 0 {
      assert forall i :: 0 <= i < |ms| - 1 ==>
        AnnouncesChange(snapshot, ms[1..], probes[1..], downOnly, i) == AnnouncesChange(snapshot, ms, probes, downOnly, i + 1);
      AnnouncingCount(xs[1..], snapshot, ms[1..], probes[1..], downOnly);
    }
  }

  /** Entries equal to `Some(n)` exactly for the monitors sending `n` number `NotificationCopies`. */
  lemma {:induction false} NotificationCopiesCount(xs: seq<Option<Notification>>, snapshot: map<string, MonitorState>, ms: seq<Monitor>, probes: seq<Probe>, downOnly: bool, n: Notification)
    requires |xs| == |ms| && |probes| == |ms|
    requires forall i :: 0 <= i < |ms| ==> (xs[i] == Some(n) <==> Sends(snapshot, ms, probes, downOnly, i, n))
    ensures CountOf(xs, n) == NotificationCopies(snapshot, ms, probes, downOnly, n)
    decreases |ms|
  {
    if |ms| > 0 {
      assert forall i :: 0 <= i < |ms| - 1 ==>
        Sends(snapshot, ms[1..], probes[1..], downOnly, i, n) == Sends(snapshot, ms, probes, downOnly, i + 1, n);
      NotificationCopiesCount(xs[1..], snapshot, ms[1..], probes[1..], downOnly, n);
    }
  }

  /** Monitor `i`'s notification slot holds its announcement exactly when it announces a change. */
  lemma NotificationSlot(snapshot: map<string, MonitorState>, ms: seq<Monitor>, probes: seq<Probe>, downOnly: bool, i: int)
    requires |probes| == |ms| && 0 <= i < |ms|
    ensures var xs := NotificationOf(Outcomes(snapshot, ms, probes, downOnly));
      && (xs[i].Some? <==> AnnouncesChange(snapshot, ms, probes, downOnly, i))
      && (xs[i].Some? ==> xs[i].value == Announcement(snapshot, ms, probes, downOnly, i))
  {
  }

  /** The notifications of a pass over `ms` are exactly the announcements of
      the monitors that announce a change, one each: a notification occurs
      as often as there are monitors sending it. Each is therefore for a
      checked monitor that had a stored state with a different status, and
      for DOWN under the down-only policy. */
  lemma OutcomeNotifications(snapshot: map<string, MonitorState>, ms: seq<Monitor>, probes: seq<Probe>, downOnly: bool)
    requires |probes| == |ms|
    ensures forall n :: n in Notifications(Outcomes(snapshot, ms, probes, downOnly)) ==>
      && n.monitorId in snapshot && snapshot[n.monitorId].status != n.status
      && (downOnly ==> n.status == Down)
      && exists i :: 0 <= i < |ms| && probes[i].Checked? && ms[i].id == n.monitorId
    ensures forall n :: n in Notifications(Outcomes(snapshot, ms, probes, downOnly)) <==>
      exists i :: 0 <= i < |ms| && Sends(snapshot, ms, probes, downOnly, i, n)
    ensures |Notifications(Outcomes(snapshot, ms, probes, downOnly))| == Announcing(snapshot, ms, probes, downOnly)
    ensures var ns := Notifications(Outcomes(snapshot, ms, probes, downOnly));
      forall n :: multiset(ns)[n] == NotificationCopies(snapshot, ms, probes, downOnly, n)
  {
    var os := Outcomes(snapshot, ms, probes, downOnly);
    var xs := NotificationOf(os);
    forall i | 0 <= i < |ms| {
      NotificationSlot(snapshot, ms, probes, downOnly, i);
    }
    AnnouncingCount(xs, snapshot, ms, probes, downOnly);
    forall n ensures multiset(Notifications(os))[n] == NotificationCopies(snapshot, ms, probes, downOnly, n) {
      NotificationCopiesCount(xs, snapshot, ms, probes, downOnly, n);
    }
    forall n | n in Notifications(os)
      ensures exists i :: 0 <= i < |ms| && Sends(snapshot, ms, probes, downOnly, i, n)
    {
      var i :| 0 <= i < |os| && os[i].Some? && os[i].value.notification == Some(n);
      assert xs[i] == Some(n);
      assert Sends(snapshot, ms, probes, downOnly, i, n);
    }
    forall n, i | 0 <= i < |ms| && Sends(snapshot, ms, probes, downOnly, i, n)
      ensures n in Notifications(os)
    {
      assert os[i].Some? && os[i].value.notification == Some(n);
    }
  }

  /** Every notification sent this cycle is for a monitor with a stored state
      whose visible status changed to the notified one, and is for DOWN under
      the down-only policy; conversely, every checked monitor whose visible
      status changed in a way the policy announces is notified, with its new
      status and its probe's message. */
  lemma NotificationsAreChanges(config: Config, store: map<string, MonitorState>, probes: seq<Probe>)
    requires |probes| == |AllMonitors(config.groups)|
    ensures var ms := AllMonitors(config.groups);
      forall n :: n in RunCycle(config, store, probes).notifications ==>
        && n.monitorId in store && store[n.monitorId].status != n.status
        && (config.settings.notificationOnDownOnly ==> n.status == Down)
        && exists i :: 0 <= i < |ms| && probes[i].Checked? && ms[i].id == n.monitorId
    ensures var ms := AllMonitors(config.groups); var downOnly := config.settings.notificationOnDownOnly;
      forall n :: n in RunCycle(config, store, probes).notifications <==>
        exists i :: 0 <= i < |ms| && Sends(store, ms, probes, downOnly, i, n)
    ensures var ms := AllMonitors(config.groups); var downOnly := config.settings.notificationOnDownOnly;
      |RunCycle(config, store, probes).notifications| == Announcing(store, ms, probes, downOnly)
    ensures var ms := AllMonitors(config.groups); var downOnly := config.settings.notificationOnDownOnly;
      forall n :: multiset(RunCycle(config, store, probes).notifications)[n] == NotificationCopies(store, ms, probes, downOnly, n)
  {
    OutcomeNotifications(store, AllMonitors(config.groups), probes, config.settings.notificationOnDownOnly);
  }
}
