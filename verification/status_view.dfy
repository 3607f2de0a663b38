/** The status payload served to the dashboard: the configured groups and
    monitors, in order, each with its persisted state (or an UNKNOWN
    placeholder) and its recent history rows (or none). */
module StatusView {
  import opened Wrappers
  import opened Types

  /** The status the view shows: a persisted one, or UNKNOWN for a monitor
      that has never been evaluated. */
  datatype ViewStatus = Reported(status: Status) | Unknown

  /** A monitor's state in the view: its persisted row, or the placeholder
      with status UNKNOWN, last check time 0 and latency 0. */
  datatype ViewState = Persisted(state: MonitorState) | Placeholder {

    function Status(): ViewStatus {
      match this
      case Persisted(s) => Reported(s.status)
      case Placeholder => Unknown
    }

    function LastCheckedAt(): int {
      match this
      case Persisted(s) => s.lastCheckedAt
      case Placeholder => 0
    }

    function LastLatency(): int {
      match this
      case Persisted(s) => s.lastLatency
      case Placeholder => 0
    }
  }

  datatype MonitorView = MonitorView(monitor: Monitor, state: ViewState, recentChecks: seq<CheckHistory>)

  datatype GroupView = GroupView(id: string, name: string, monitors: seq<MonitorView>)

  // ---------------------------------------------------------------------
  // Lookup tables built from what the store returned

  /** Reference definition: the rows of `hs` that belong to monitor `id`, in order. */
  function OfMonitor(hs: seq<CheckHistory>, id: string): (r: seq<CheckHistory>)
    ensures |r| <= |hs|
    ensures forall h :: h in r <==> h in hs && h.monitorId == id
  {
    if |hs| == 0 then []
    else (if hs[0].monitorId == id then [hs[0]] else []) + OfMonitor(hs[1..], id)
  }

  /** Filtering distributes over appending one row at the end. */
  lemma {:induction false} OfMonitorSnoc(hs: seq<CheckHistory>, h: CheckHistory, id: string)
    ensures OfMonitor(hs + [h], id) == OfMonitor(hs, id) + (if h.monitorId == id then [h] else [])
  {
    if |hs| > 0 {
      assert (hs + [h])[0] == hs[0];
      assert (hs + [h])[1..] == hs[1..] + [h];
      OfMonitorSnoc(hs[1..], h, id);
    } else {
      assert hs + [h] == [h];
    }
  }

  /** The history rows grouped by monitor, each group in input order: rows are
      visited in order and each is pushed onto its monitor's list, the list
      being created at that monitor's first row. */
  function Buckets(hs: seq<CheckHistory>): (b: map<string, seq<CheckHistory>>)
    decreases |hs|
    ensures forall id :: id in b <==> OfMonitor(hs, id) != []
    ensures forall id :: id in b ==> b[id] == OfMonitor(hs, id)
  {
    if |hs| == 0 then map[]
    else
      var init := hs[..|hs| - 1];
      var h := hs[|hs| - 1];
      var before := Buckets(init);
      assert hs == init + [h];
      var after := before[h.monitorId := (if h.monitorId in before then before[h.monitorId] else []) + [h]];
      forall id ensures (id in after <==> OfMonitor(hs, id) != []) && (id in after ==> after[id] == OfMonitor(hs, id)) {
        OfMonitorSnoc(init, h, id);
      }
      after
  }

  /** The persisted states keyed by monitor; a later row for the same
      monitor replaces an earlier one. */
  function StateIndex(states: seq<MonitorState>): (idx: map<string, MonitorState>)
    decreases |states|
    ensures forall id :: id in idx <==> exists s :: s in states && s.monitorId == id
    ensures forall id :: id in idx ==> idx[id] in states && idx[id].monitorId == id
    ensures forall i :: 0 <= i < |states| && LastOfId(states, i) ==> idx[states[i].monitorId] == states[i]
  {
    if |states| == 0 then map[]
    else
      var init := states[..|states| - 1];
      var s := states[|states| - 1];
      assert states == init + [s];
      assert forall i :: 0 <= i < |init| ==> init[i] == states[i];
      assert forall i :: 0 <= i < |init| && LastOfId(states, i) ==> LastOfId(init, i);
      StateIndex(init)[s.monitorId := s]
  }

  /** No row after row `i` belongs to the same monitor. */
  predicate LastOfId(states: seq<MonitorState>, i: int)
    requires 0 <= i < |states|
  {
    forall j :: i < j < |states| ==> states[j].monitorId != states[i].monitorId
  }

  // ---------------------------------------------------------------------
  // Assembly

  function ViewMonitor(m: Monitor, idx: map<string, MonitorState>, buckets: map<string, seq<CheckHistory>>): MonitorView {
    MonitorView(
      m,
      if m.id in idx then Persisted(idx[m.id]) else Placeholder,
      if m.id in buckets then buckets[m.id] else [])
  }

  function ViewGroup(g: Group, idx: map<string, MonitorState>, buckets: map<string, seq<CheckHistory>>): (v: GroupView)
    ensures v.id == g.id && v.name == g.name && |v.monitors| == |g.monitors|
    ensures forall i :: 0 <= i < |g.monitors| ==> v.monitors[i] == ViewMonitor(g.monitors[i], idx, buckets)
  {
    GroupView(g.id, g.name, seq(|g.monitors|, i requires 0 <= i < |g.monitors| => ViewMonitor(g.monitors[i], idx, buckets)))
  }

  function ViewGroups(groups: seq<Group>, idx: map<string, MonitorState>, buckets: map<string, seq<CheckHistory>>)
    : (vs: seq<GroupView>)
    ensures |vs| == |groups|
    ensures forall i :: 0 <= i < |groups| ==> vs[i] == ViewGroup(groups[i], idx, buckets)
  {
    seq(|groups|, i requires 0 <= i < |groups| => ViewGroup(groups[i], idx, buckets))
  }

  /** The status payload: every group in configured order, every monitor of
      each group in declared order, with its state (the last persisted row
      for it, or the placeholder when there is none) and its recent rows. */
  function BuildStatusView(config: Config, states: seq<MonitorState>, recent: seq<CheckHistory>): (v: seq<GroupView>)
    ensures |v| == |config.groups|
    ensures forall gi :: 0 <= gi < |v| ==>
      var g := config.groups[gi];
      v[gi].id == g.id && v[gi].name == g.name && |v[gi].monitors| == |g.monitors|
    ensures forall gi, mi :: 0 <= gi < |v| && 0 <= mi < |v[gi].monitors| ==>
      var m := config.groups[gi].monitors[mi];
      var mv := v[gi].monitors[mi];
      && mv.monitor == m
      && mv.recentChecks == OfMonitor(recent, m.id)
      && (mv.state.Placeholder? <==> forall s :: s in states ==> s.monitorId != m.id)
      && (mv.state.Persisted? ==> mv.state.state in states && mv.state.state.monitorId == m.id)
      && (forall i :: 0 <= i < |states| && states[i].monitorId == m.id && LastOfId(states, i) ==>
            mv.state == Persisted(states[i]))
  {
    ViewGroups(config.groups, StateIndex(states), Buckets(recent))
  }

  // ---------------------------------------------------------------------
  // Properties of the assembled view

  /** The monitors of a view, group by group. */
  function ViewedMonitors(vs: seq<GroupView>): seq<Monitor> {
    if |vs| == 0 then []
    else seq(|vs[0].monitors|, i requires 0 <= i < |vs[0].monitors| => vs[0].monitors[i].monitor) + ViewedMonitors(vs[1..])
  }

  /** The view never drops, adds or reorders a monitor: listing its monitors
      group by group gives exactly the configured monitors in order. */
  lemma {:induction false} ViewListsEveryMonitor(groups: seq<Group>, idx: map<string, MonitorState>, buckets: map<string, seq<CheckHistory>>)
    ensures ViewedMonitors(ViewGroups(groups, idx, buckets)) == AllMonitors(groups)
  {
    var vs := ViewGroups(groups, idx, buckets);
    if |groups| > 0 {
      assert vs[1..] == ViewGroups(groups[1..], idx, buckets);
      ViewListsEveryMonitor(groups[1..], idx, buckets);
      var first := seq(|vs[0].monitors|, i requires 0 <= i < |vs[0].monitors| => vs[0].monitors[i].monitor);
      assert first == groups[0].monitors;
    }
  }

  /** The status view lists exactly the configured monitors, in order. */
  lemma StatusViewListsEveryMonitor(config: Config, states: seq<MonitorState>, recent: seq<CheckHistory>)
    ensures ViewedMonitors(BuildStatusView(config, states, recent)) == AllMonitors(config.groups)
  {
    ViewListsEveryMonitor(config.groups, StateIndex(states), Buckets(recent));
  }

  /** A monitor is shown as UNKNOWN, checked at 0 with latency 0, exactly
      when the store holds no state for it; otherwise its persisted status
      is shown. */
  lemma UnknownExactlyWhenNoState(config: Config, states: seq<MonitorState>, recent: seq<CheckHistory>, gi: nat, mi: nat)
    requires gi < |config.groups| && mi < |config.groups[gi].monitors|
    ensures var mv := BuildStatusView(config, states, recent)[gi].monitors[mi];
      var id := config.groups[gi].monitors[mi].id;
      && (mv.state.Status() == Unknown <==> forall s :: s in states ==> s.monitorId != id)
      && (mv.state.Status() == Unknown ==> mv.state.LastCheckedAt() == 0 && mv.state.LastLatency() == 0)
      && (mv.state.Status().Reported? ==> exists s :: s in states && s.monitorId == id && mv.state.Status() == Reported(s.status))
  {
  }
}
