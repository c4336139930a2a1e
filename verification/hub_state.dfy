/**
 * The hub's in-memory operating state: the playback mode set through
 * `/api/playback`, the bounded metrics history the collector appends to
 * every tick, and the bounded list of raised alerts.
 *
 * The collector's float arithmetic (utilisation, rates, rule thresholds)
 * decides *whether* an alert fires; the model takes that decision, the
 * formatted message and the clock reading as arguments.
 */
module HubState {
  import opened Wrappers
  import opened Widths
  import opened Text
  import opened SeqOps

  /** `PlaybackMode`; `RealTime` is the default. */
  datatype PlaybackMode = RealTime | Paused(atSlot: u64, atTs: u64)

  /** One metrics sample (its float fields are not modelled). */
  datatype MetricsSnapshot = MetricsSnapshot(events: u64, head: nat, tail: nat, uptimeSeconds: u64)

  datatype Alert = Alert(
    id: u64,
    severity: string,
    message: string,
    timestamp: string,
    ruleName: string,
    resolved: bool)

  /** The most alerts the collector keeps. */
  const ALERT_KEEP: nat := 100
  /** The most alerts `/api/alerts` returns. */
  const ALERTS_SHOWN: nat := 50
  /** The default `history_capacity` of the server configuration. */
  const DEFAULT_HISTORY_CAPACITY: nat := 3600
  /** `/api/metrics/history` never returns more than an hour of one-second samples. */
  const HISTORY_QUERY_CAP: nat := 3600
  /** The window `/api/metrics/history` uses without a `minutes` parameter. */
  const DEFAULT_MINUTES: nat := 5

  /**
   * The mode a playback request names: `real_time`, or `paused` with a
   * missing slot or timestamp read as 0; any other name is refused.
   */
  function RequestedMode(mode: string, slot: Option<u64>, ts: Option<u64>): (r: Option<PlaybackMode>)
    ensures r.Some? <==> mode == "real_time" || mode == "paused"
    ensures mode == "real_time" ==> r == Some(RealTime)
    ensures mode == "paused" ==>
      (r.Some? && r.value.Paused?
       && (slot.Some? ==> r.value.atSlot == slot.value) && (slot.None? ==> r.value.atSlot == 0)
       && (ts.Some? ==> r.value.atTs == ts.value) && (ts.None? ==> r.value.atTs == 0))
  {
    if mode == "real_time" then Some(RealTime)
    else if mode == "paused" then
      Some(Paused(if slot.Some? then slot.value else 0, if ts.Some? then ts.value else 0))
    else None
  }

  /**
   * `(minutes * 60).min(3600)` as a release build computes it: the product
   * wraps around modulo 2^64 before the minimum is taken.
   */
  function HistoryCountAsWritten(minutes: u64): (r: nat)
    ensures r <= HISTORY_QUERY_CAP
    ensures minutes * 60 < U64_MODULUS ==> r == (if minutes * 60 < HISTORY_QUERY_CAP then minutes * 60 else HISTORY_QUERY_CAP)
  {
    var product := (minutes * 60) % U64_MODULUS;
    if product < HISTORY_QUERY_CAP then product else HISTORY_QUERY_CAP
  }

  /** A window of more than 2^64/60 minutes asks for 44 samples instead of the whole hour. */
  lemma HistoryCountWraps()
    ensures HistoryCountAsWritten(307445734561825861) == 44
  {
    assert 307445734561825861 * 60 == U64_MODULUS + 44;
  }

  /** The sample count a window of `minutes` asks for, with the product saturating. */
  function HistoryCount(minutes: nat): (r: nat)
    ensures r <= HISTORY_QUERY_CAP
  {
    if minutes < HISTORY_QUERY_CAP / 60 then minutes * 60 else HISTORY_QUERY_CAP
  }

  /**
   * The count is one minute's samples per minute up to an hour, the full
   * hour from then on, and never falls when the window grows; it agrees
   * with the wrapping computation wherever the product does not overflow.
   */
  lemma HistoryCountMeaning(minutes: nat, more: nat)
    requires minutes <= more
    ensures HistoryCount(minutes) == (if minutes * 60 < HISTORY_QUERY_CAP then minutes * 60 else HISTORY_QUERY_CAP)
    ensures HistoryCount(minutes) <= HistoryCount(more)
    ensures minutes * 60 < U64_MODULUS ==> HistoryCountAsWritten(minutes) == HistoryCount(minutes)
    ensures HistoryCount(minutes) == HISTORY_QUERY_CAP <==> minutes >= 60
  {
  }

  class Hub {
    /** `playback`. */
    var playback: PlaybackMode
    /** `metrics_history`, oldest first. */
    var metricsHistory: seq<MetricsSnapshot>
    /** `alerts`, oldest first. */
    var alerts: seq<Alert>
    /** The collector's `alert_counter`: the id of the last alert raised. */
    var alertCounter: u64
    /** `config.server.history_capacity`. */
    const historyCapacity: nat

    /** Both logs respect their bounds. */
    ghost predicate Valid()
      reads this
    {
      |metricsHistory| <= (if historyCapacity == 0 then 1 else historyCapacity)
      && |alerts| <= ALERT_KEEP
    }

    constructor (historyCapacity: nat)
      ensures Valid()
      ensures playback == RealTime && metricsHistory == [] && alerts == [] && alertCounter == 0
      ensures this.historyCapacity == historyCapacity
    {
      playback := RealTime;
      metricsHistory := [];
      alerts := [];
      alertCounter := 0;
      this.historyCapacity := historyCapacity;
    }

    /**
     * `api_playback_set`: switch to the requested mode and report it, or
     * refuse an unknown mode name and keep the current one.
     */
    method SetPlayback(mode: string, slot: Option<u64>, ts: Option<u64>) returns (r: Result<PlaybackMode, string>)
      modifies this`playback
      ensures RequestedMode(mode, slot, ts).None? ==>
        r == Err("Invalid playback mode") && playback == old(playback)
      ensures RequestedMode(mode, slot, ts).Some? ==>
        r == Ok(RequestedMode(mode, slot, ts).value) && playback == r.value
    {
      if mode == "real_time" {
        playback := RealTime;
      } else if mode == "paused" {
        var atSlot := if slot.Some? then slot.value else 0;
        var atTs := if ts.Some? then ts.value else 0;
        playback := Paused(atSlot, atTs);
      } else {
        return Err("Invalid playback mode");
      }
      r := Ok(playback);
    }

    /**
     * The collector's history step: drop the oldest sample when the
     * history is at capacity, then append the new one.
     */
    method RecordSnapshot(snapshot: MetricsSnapshot)
      requires Valid()
      modifies this`metricsHistory
      ensures Valid()
      ensures metricsHistory == Last(old(metricsHistory) + [snapshot], if historyCapacity == 0 then 1 else historyCapacity)
    {
      PushBoundedKeepsNewest(metricsHistory, snapshot, historyCapacity);
      if |metricsHistory| >= historyCapacity && |metricsHistory| > 0 {
        metricsHistory := metricsHistory[1..];
      }
      metricsHistory := metricsHistory + [snapshot];
    }

    /**
     * A triggered rule: the counter advances (wrapping like a release-mode
     * `u64`), the alert carries the new counter value as its id and is
     * unresolved, and only the newest 100 alerts are kept.
     */
    method RaiseAlert(severity: string, message: string, now: string, ruleName: string) returns (a: Alert)
      requires Valid()
      modifies this`alerts, this`alertCounter
      ensures Valid()
      ensures alertCounter == WrapAdd64(old(alertCounter), 1)
      ensures a == Alert(alertCounter, severity, message, now, ruleName, false)
      ensures alerts == Last(old(alerts) + [a], ALERT_KEEP)
    {
      alertCounter := WrapAdd64(alertCounter, 1);
      a := Alert(alertCounter, severity, message, now, ruleName, false);
      alerts := alerts + [a];
      if |alerts| > ALERT_KEEP {
        alerts := alerts[|alerts| - ALERT_KEEP..];
      }
    }

    /** `api_alerts_get`: the newest 50 alerts, newest first. */
    function AlertsShown(): (r: seq<Alert>)
      reads this
      ensures |r| == (if |alerts| <= ALERTS_SHOWN then |alerts| else ALERTS_SHOWN)
      ensures forall i :: 0 <= i < |r| ==> r[i] == alerts[|alerts| - 1 - i]
    {
      NewestFirst(alerts, ALERTS_SHOWN)
    }

    /**
     * `api_metrics_history`: the newest samples of the requested window
     * (five minutes when `minutes` is absent or not a `usize`), oldest first.
     */
    function MetricsHistory(minutes: Option<string>): (r: seq<MetricsSnapshot>)
      reads this
      ensures var window := if minutes.Some? && ParseUsize(minutes.value).Some? then ParseUsize(minutes.value).value else DEFAULT_MINUTES;
        |r| == (if |metricsHistory| <= HistoryCount(window) then |metricsHistory| else HistoryCount(window))
      ensures |r| <= |metricsHistory| && r == metricsHistory[|metricsHistory| - |r|..]
    {
      var window := if minutes.Some? && ParseUsize(minutes.value).Some? then ParseUsize(minutes.value).value else DEFAULT_MINUTES;
      var r := Last(metricsHistory, HistoryCount(window));
      assert r == metricsHistory[|metricsHistory| - |r|..];
      r
    }
  }

  /** Raising an alert when 100 are kept evicts exactly the oldest one. */
  lemma AlertEvictsOldest(alerts: seq<Alert>, a: Alert)
    requires |alerts| == ALERT_KEEP
    ensures Last(alerts + [a], ALERT_KEEP) == alerts[1..] + [a]
  {
    assert (alerts + [a])[1..] == alerts[1..] + [a];
  }
}
