/** One monitor over many consecutive cycles: the steps of module Engine
    folded over a sequence of observations, and what the grace-period policy
    guarantees along the way. */
module Streak {
  import opened Wrappers
  import opened Types
  import opened Engine

  /** The outcomes of consecutive cycles for one monitor, each step reading
      the state the previous one wrote. */
  function Trace(prev: Option<MonitorState>, m: Monitor, obs: seq<Observation>, downOnly: bool)
    : (t: seq<StepOutcome>)
    decreases |obs|
    ensures |t| == |obs|
    ensures forall i :: 0 <= i < |t| ==> WellFormed(t[i].state) && t[i].state.monitorId == m.id
  {
    if |obs| == 0 then []
    else
      var o := Step(prev, m, obs[0], downOnly);
      [o] + Trace(Some(o.state), m, obs[1..], downOnly)
  }

  /** The state read by cycle `i` of a trace. */
  function Before(prev: Option<MonitorState>, t: seq<StepOutcome>, i: nat): Option<MonitorState>
    requires i <= |t|
  {
    if i == 0 then prev else Some(t[i - 1].state)
  }

  /** The visible statuses of a trace. */
  function Visible(t: seq<StepOutcome>): (v: seq<Status>)
    ensures |v| == |t|
    ensures forall i :: 0 <= i < |t| ==> v[i] == t[i].state.status
  {
    seq(|t|, i requires 0 <= i < |t| => t[i].state.status)
  }

  predicate AllDown(obs: seq<Observation>) {
    forall i :: 0 <= i < |obs| ==> obs[i].result.status == Down
  }

  /** Reference count of consecutive raw DOWN results at the end of `obs`. */
  function TrailingDowns(obs: seq<Observation>): nat {
    if |obs| == 0 || obs[|obs| - 1].result.status != Down then 0
    else TrailingDowns(obs[..|obs| - 1]) + 1
  }

  // ---------------------------------------------------------------------
  // Each cycle of a trace is one step

  /** Cycle `i` of a trace is the step from the state cycle `i - 1` wrote. */
  lemma {:induction false} TraceStep(prev: Option<MonitorState>, m: Monitor, obs: seq<Observation>, downOnly: bool, i: nat)
    requires i < |obs|
    decreases |obs|
    ensures var t := Trace(prev, m, obs, downOnly);
      t[i] == Step(Before(prev, t, i), m, obs[i], downOnly)
  {
    if i > 0 {
      var o := Step(prev, m, obs[0], downOnly);
      TraceStep(Some(o.state), m, obs[1..], downOnly, i - 1);
    }
  }

  /** Traces split: running `a` then `b` is running `a + b`. */
  lemma {:induction false} TraceAppend(prev: Option<MonitorState>, m: Monitor, a: seq<Observation>, b: seq<Observation>, downOnly: bool)
    decreases |a|
    ensures var ta := Trace(prev, m, a, downOnly);
      Trace(prev, m, a + b, downOnly) == ta + Trace(Before(prev, ta, |a|), m, b, downOnly)
  {
    if |a| > 0 {
      var o := Step(prev, m, a[0], downOnly);
      assert (a + b)[0] == a[0] && (a + b)[1..] == a[1..] + b;
      TraceAppend(Some(o.state), m, a[1..], b, downOnly);
      var ta := Trace(prev, m, a, downOnly);
      var tail := Trace(Some(o.state), m, a[1..], downOnly);
      assert ta == [o] + tail;
      assert Before(Some(o.state), tail, |a| - 1) == Before(prev, ta, |a|);
      var rest := Trace(Before(prev, ta, |a|), m, b, downOnly);
      calc {
        Trace(prev, m, a + b, downOnly);
        [o] + Trace(Some(o.state), m, a[1..] + b, downOnly);
        [o] + (tail + rest);
        ta + rest;
      }
    } else {
      assert a + b == b;
    }
  }

  // ---------------------------------------------------------------------
  // The grace-period policy over a failure streak

  /** Over a run of raw DOWN results, the failure count grows by one per
      cycle, and cycle `i` is shown DOWN exactly when there was no prior state,
      the prior state was already DOWN, or the count reached the grace period;
      otherwise it keeps the prior visible status. */
  lemma {:induction false} DownStreak(prev: Option<MonitorState>, m: Monitor, obs: seq<Observation>, downOnly: bool)
    requires AllDown(obs)
    decreases |obs|
    ensures var t := Trace(prev, m, obs, downOnly);
      forall i :: 0 <= i < |t| ==>
        && t[i].state.failCount == PriorFailCount(prev) + i + 1
        && (t[i].state.status == Down <==>
              prev.None? || prev.value.status == Down || PriorFailCount(prev) + i + 1 >= m.gracePeriod)
        && (t[i].state.status != Down ==> t[i].state.status == prev.value.status)
  {
    if |obs| > 0 {
      var o := Step(prev, m, obs[0], downOnly);
      assert AllDown(obs[1..]) by {
        forall i | 0 <= i < |obs[1..]| ensures obs[1..][i].result.status == Down {
          assert obs[1..][i] == obs[i + 1];
        }
      }
      DownStreak(Some(o.state), m, obs[1..], downOnly);
      var t := Trace(prev, m, obs, downOnly);
      forall i | 1 <= i < |t|
        ensures t[i].state.failCount == PriorFailCount(prev) + i + 1
        ensures t[i].state.status == Down <==>
          prev.None? || prev.value.status == Down || PriorFailCount(prev) + i + 1 >= m.gracePeriod
        ensures t[i].state.status != Down ==> t[i].state.status == prev.value.status
      {
        assert t[i] == Trace(Some(o.state), m, obs[1..], downOnly)[i - 1];
      }
    }
  }

  /** Grace absorbs blips: while a streak that began from a shown UP or
      DEGRADED stays shorter than the grace period, nothing but that status is
      shown and nothing is sent. */
  lemma GraceAbsorbsBlips(s: MonitorState, m: Monitor, obs: seq<Observation>, downOnly: bool)
    requires s.status != Down && AllDown(obs)
    requires s.failCount + |obs| < m.gracePeriod
    ensures var t := Trace(Some(s), m, obs, downOnly);
      forall i :: 0 <= i < |t| ==> t[i].state.status == s.status && t[i].notification.None?
  {
    DownStreak(Some(s), m, obs, downOnly);
    var t := Trace(Some(s), m, obs, downOnly);
    forall i | 0 <= i < |t| ensures t[i].notification.None? {
      TraceStep(Some(s), m, obs, downOnly, i);
    }
  }

  /** Once the failure count reaches the grace period, the monitor is shown DOWN. */
  lemma ReachesDown(prev: Option<MonitorState>, m: Monitor, obs: seq<Observation>, downOnly: bool)
    requires AllDown(obs) && |obs| > 0
    requires PriorFailCount(prev) + |obs| >= m.gracePeriod
    ensures Trace(prev, m, obs, downOnly)[|obs| - 1].state.status == Down
  {
    DownStreak(prev, m, obs, downOnly);
  }

  /** From a shown UP or DEGRADED state with no failures counted, the
      `grace`-th consecutive DOWN is the first one shown as DOWN. */
  lemma FirstVisibleDownIsAtGrace(s: MonitorState, m: Monitor, obs: seq<Observation>, downOnly: bool)
    requires s.status != Down && s.failCount == 0 && AllDown(obs)
    requires 1 <= m.gracePeriod <= |obs|
    ensures var t := Trace(Some(s), m, obs, downOnly);
      && (forall i :: 0 <= i < m.gracePeriod - 1 ==> t[i].state.status == s.status)
      && t[m.gracePeriod - 1].state.status == Down
  {
    DownStreak(Some(s), m, obs, downOnly);
  }

  /** With the configured defaults (a grace period of 3), the third
      consecutive DOWN from a shown UP or DEGRADED state is the first shown. */
  lemma DefaultGraceIsThree(s: MonitorState, m: MonitorInput, obs: seq<Observation>, downOnly: bool)
    requires m.gracePeriod.None? && s.status != Down && s.failCount == 0
    requires |obs| == 3 && AllDown(obs)
    ensures Visible(Trace(Some(s), ResolveMonitor(m), obs, downOnly)) == [s.status, s.status, Down]
  {
    FirstVisibleDownIsAtGrace(s, ResolveMonitor(m), obs, downOnly);
  }

  /** During a streak the first-failure time stays the one set by the first
      DOWN of the streak. When there is no usable prior time, that is the
      first clock reading, which must be non-zero for the code's falsy test
      to keep it. */
  lemma {:induction false} StreakKeepsFirstFailTime(prev: Option<MonitorState>, m: Monitor, obs: seq<Observation>, downOnly: bool)
    requires AllDown(obs) && |obs| > 0
    requires PriorFirstFail(prev).None? ==> obs[0].now != 0
    decreases |obs|
    ensures var t := Trace(prev, m, obs, downOnly);
      var first := if PriorFirstFail(prev).Some? then PriorFirstFail(prev) else Some(obs[0].now);
      forall i :: 0 <= i < |t| ==> t[i].state.firstFailTime == first
  {
    var o := Step(prev, m, obs[0], downOnly);
    if |obs| > 1 {
      assert AllDown(obs[1..]) by {
        forall i | 0 <= i < |obs[1..]| ensures obs[1..][i].result.status == Down {
          assert obs[1..][i] == obs[i + 1];
        }
      }
      assert PriorFirstFail(Some(o.state)) == o.state.firstFailTime;
      StreakKeepsFirstFailTime(Some(o.state), m, obs[1..], downOnly);
      var t := Trace(prev, m, obs, downOnly);
      forall i | 1 <= i < |t|
        ensures t[i].state.firstFailTime == o.state.firstFailTime
      {
        assert t[i] == Trace(Some(o.state), m, obs[1..], downOnly)[i - 1];
      }
    }
  }

  // ---------------------------------------------------------------------
  // A single non-DOWN result resets

  /** The persisted failure count is the number of trailing raw DOWN results
      since the last non-DOWN one; if there was none, the prior count goes on. */
  lemma {:induction false} FailCountIsTrailingDowns(prev: Option<MonitorState>, m: Monitor, obs: seq<Observation>, downOnly: bool)
    requires |obs| > 0
    ensures var t := Trace(prev, m, obs, downOnly);
      t[|obs| - 1].state.failCount ==
        if AllDown(obs) then PriorFailCount(prev) + |obs| else TrailingDowns(obs)
  {
    var n := |obs|;
    var a := obs[..n - 1];
    assert obs == a + [obs[n - 1]];
    TraceAppend(prev, m, a, [obs[n - 1]], downOnly);
    var ta := Trace(prev, m, a, downOnly);
    var p := Before(prev, ta, |a|);
    var last := Step(p, m, obs[n - 1], downOnly);
    assert Trace(prev, m, obs, downOnly)[n - 1] == last;
    if obs[n - 1].result.status == Down {
      if n == 1 {
        assert AllDown(obs);
      } else {
        FailCountIsTrailingDowns(prev, m, a, downOnly);
        assert AllDown(obs) <==> AllDown(a) by {
          if AllDown(a) {
            forall i | 0 <= i < n ensures obs[i].result.status == Down {
              if i < n - 1 { assert obs[i] == a[i]; }
            }
          }
          if AllDown(obs) {
            forall i | 0 <= i < n - 1 ensures a[i].result.status == Down {
              assert a[i] == obs[i];
            }
          }
        }
      }
    } else {
      assert !AllDown(obs);
    }
  }

  /** One non-DOWN result resets: from that cycle on, two traces over the
      same observations agree on every state whatever their prior states,
      and from the next cycle on they agree on everything they produce. */
  lemma {:induction false} NonDownSeversHistory(
    p1: Option<MonitorState>, p2: Option<MonitorState>, m: Monitor, obs: seq<Observation>, downOnly: bool, k: nat)
    requires k < |obs| && obs[k].result.status != Down
    ensures var t1 := Trace(p1, m, obs, downOnly); var t2 := Trace(p2, m, obs, downOnly);
      && (forall i :: k <= i < |obs| ==> t1[i].state == t2[i].state)
      && (forall i :: k < i < |obs| ==> t1[i] == t2[i])
  {
    var a := obs[..k];
    var b := obs[k..];
    assert obs == a + b;
    TraceAppend(p1, m, a, b, downOnly);
    TraceAppend(p2, m, a, b, downOnly);
    var q1 := Before(p1, Trace(p1, m, a, downOnly), |a|);
    var q2 := Before(p2, Trace(p2, m, a, downOnly), |a|);
    var o1 := Step(q1, m, b[0], downOnly);
    var o2 := Step(q2, m, b[0], downOnly);
    NonDownForgetsPrior(q1, q2, m, b[0], downOnly);
    assert o1.state == o2.state;
    var t1 := Trace(p1, m, obs, downOnly);
    var t2 := Trace(p2, m, obs, downOnly);
    var rest := Trace(Some(o1.state), m, b[1..], downOnly);
    assert Trace(q1, m, b, downOnly) == [o1] + rest;
    assert Trace(q2, m, b, downOnly) == [o2] + rest;
    forall i | k <= i < |obs| ensures t1[i].state == t2[i].state {
      if i > k {
        assert t1[i] == rest[i - k - 1] == t2[i];
      }
    }
    forall i | k < i < |obs| ensures t1[i] == t2[i] {
      assert t1[i] == rest[i - k - 1] == t2[i];
    }
  }

  // ---------------------------------------------------------------------
  // History and notifications along a trace

  /** Every cycle records its raw classification, never the visible one,
      exactly when the monitor keeps history. */
  lemma HistoryRecordsRaw(prev: Option<MonitorState>, m: Monitor, obs: seq<Observation>, downOnly: bool)
    ensures var t := Trace(prev, m, obs, downOnly);
      forall i :: 0 <= i < |t| ==>
        && (t[i].history.Some? <==> m.display.history)
        && (t[i].history.Some? ==> t[i].history.value.status == obs[i].result.status
                                   && t[i].history.value.timestamp == obs[i].now)
  {
    forall i | 0 <= i < |obs| {
      TraceStep(prev, m, obs, downOnly, i);
    }
  }

  /** A notification is sent exactly at the cycles where the visible status
      differs from the one shown by the cycle before, as the policy allows. */
  lemma NotifiesOnVisibleChange(s: MonitorState, m: Monitor, obs: seq<Observation>, downOnly: bool, i: nat)
    requires i < |obs|
    ensures var t := Trace(Some(s), m, obs, downOnly);
      var before := if i == 0 then s.status else t[i - 1].state.status;
      t[i].notification.Some? <==> before != t[i].state.status && (!downOnly || t[i].state.status == Down)
  {
    TraceStep(Some(s), m, obs, downOnly, i);
  }

  /** The worked example: grace period 3, prior state UP, raw results
      DOWN, DOWN, DOWN, UP are shown as UP, UP, DOWN, UP. */
  lemma GraceExample(s: MonitorState, m: Monitor, obs: seq<Observation>, downOnly: bool)
    requires m.gracePeriod == 3 && s.status == Up && s.failCount == 0
    requires |obs| == 4
    requires obs[0].result.status == Down && obs[1].result.status == Down && obs[2].result.status == Down
    requires obs[3].result.status == Up
    ensures Visible(Trace(Some(s), m, obs, downOnly)) == [Up, Up, Down, Up]
  {
    var t := Trace(Some(s), m, obs, downOnly);
    assert AllDown(obs[..3]);
    TraceAppend(Some(s), m, obs[..3], obs[3..], downOnly);
    assert obs == obs[..3] + obs[3..];
    DownStreak(Some(s), m, obs[..3], downOnly);
    TraceStep(Some(s), m, obs, downOnly, 3);
  }
}
