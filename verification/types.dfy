/** The records the uptime monitor works on: the parsed configuration
    (monitors, groups, settings) with the defaults its schema fills in, and
    the two persisted records, the per-monitor state and the history log. */
module Types {
  import opened Wrappers

  /** The three classifications a probe can return and a state can persist. */
  datatype Status = Up | Degraded | Down

  datatype MonitorKind = Http | Tcp

  /** Per-monitor display flags. */
  datatype Display = Display(chart: bool, history: bool, publicLink: bool)

  /** A monitor's configuration after defaults are applied. The probe-only
      fields (headers, body, validation rules) are not part of this model. */
  datatype Monitor = Monitor(
    id: string,
    name: string,
    kind: MonitorKind,
    url: string,
    httpMethod: string,
    timeout: int,
    expectedLatency: int,
    gracePeriod: int,
    display: Display)

  datatype Group = Group(id: string, name: string, monitors: seq<Monitor>)

  datatype Settings = Settings(title: string, notificationOnDownOnly: bool)

  datatype Config = Config(settings: Settings, groups: seq<Group>)

  /** The persisted per-monitor row. `lastError` is written by the engine
      although the declared interface omits it. */
  datatype MonitorState = MonitorState(
    monitorId: string,
    status: Status,
    lastCheckedAt: int,
    lastLatency: int,
    failCount: nat,
    firstFailTime: Option<int>,
    lastError: Option<string>)

  /** One appended history row: the raw probe classification at a time. */
  datatype CheckHistory = CheckHistory(
    monitorId: string,
    timestamp: int,
    status: Status,
    latency: int,
    message: Option<string>)

  /** What one probe returns. */
  datatype CheckResult = CheckResult(status: Status, latency: int, message: Option<string>)

  /** A state row is well formed when it carries a first-failure time exactly
      while it counts failures. */
  predicate WellFormed(s: MonitorState) {
    s.failCount == 0 <==> s.firstFailTime.None?
  }

  // ---------------------------------------------------------------------
  // Defaults filled in while the configuration is parsed

  const DefaultMethod: string := "GET"
  const DefaultTimeout: int := 5000
  const DefaultExpectedLatency: int := 1000
  const DefaultGracePeriod: int := 3

  /** The display flags as written in the configuration file, each optional. */
  datatype DisplayInput = DisplayInput(chart: Option<bool>, history: Option<bool>, publicLink: Option<bool>)

  /** A monitor as written in the configuration file: the defaulted fields are optional. */
  datatype MonitorInput = MonitorInput(
    id: string,
    name: string,
    kind: MonitorKind,
    url: string,
    httpMethod: Option<string>,
    timeout: Option<int>,
    expectedLatency: Option<int>,
    gracePeriod: Option<int>,
    display: Option<DisplayInput>)

  /** Fills in the display defaults: charts and history on, public link off. */
  function ResolveDisplay(d: DisplayInput): (r: Display)
    ensures r.history <==> d.history != Some(false)
    ensures r.chart <==> d.chart != Some(false)
    ensures r.publicLink <==> d.publicLink == Some(true)
  {
    Display(d.chart.GetOr(true), d.history.GetOr(true), d.publicLink.GetOr(false))
  }

  /** Fills in every monitor default; a missing display block is an empty one. */
  function ResolveMonitor(m: MonitorInput): (r: Monitor)
    ensures r.id == m.id && r.name == m.name && r.kind == m.kind && r.url == m.url
    ensures m.gracePeriod.None? ==> r.gracePeriod == 3
    ensures m.gracePeriod.Some? ==> r.gracePeriod == m.gracePeriod.value
    ensures r.display.history <==> m.display.None? || m.display.value.history != Some(false)
    ensures m.timeout.None? ==> r.timeout == 5000
    ensures m.httpMethod.None? ==> r.httpMethod == "GET"
  {
    Monitor(
      m.id, m.name, m.kind, m.url,
      m.httpMethod.GetOr(DefaultMethod),
      m.timeout.GetOr(DefaultTimeout),
      m.expectedLatency.GetOr(DefaultExpectedLatency),
      m.gracePeriod.GetOr(DefaultGracePeriod),
      ResolveDisplay(m.display.GetOr(DisplayInput(None, None, None))))
  }

  /** Fills in the settings default: notify on every transition. */
  function ResolveSettings(title: string, notificationOnDownOnly: Option<bool>): (r: Settings)
    ensures r.title == title
    ensures r.notificationOnDownOnly <==> notificationOnDownOnly == Some(true)
  {
    Settings(title, notificationOnDownOnly.GetOr(false))
  }

  // ---------------------------------------------------------------------
  // The configured monitors as one list

  /** Every configured monitor, group by group, each group in declared order. */
  function AllMonitors(groups: seq<Group>): (ms: seq<Monitor>)
    ensures forall g, m :: g in groups && m in g.monitors ==> m in ms
    ensures forall m :: m in ms ==> exists g :: g in groups && m in g.monitors
  {
    if |groups| == 0 then [] else groups[0].monitors + AllMonitors(groups[1..])
  }
}
