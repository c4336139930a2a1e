/**
 * The incident side of the alerting engine: incidents opened by rules,
 * acknowledged and resolved by operators, and moved on resolution into a
 * bounded history.
 *
 * Identifiers (`inc-<uuid>`) and clock readings are arguments; the
 * notification dispatch only logs and is not modelled.
 */
module Alerts {
  import opened Wrappers
  import opened SeqOps

  datatype IncidentStatus = Open | Acknowledged | Resolved

  datatype TimelineEntry = TimelineEntry(timestamp: string, action: string, detail: string, actor: Option<string>)

  datatype Incident = Incident(
    id: string,
    ruleId: string,
    ruleName: string,
    severity: string,
    status: IncidentStatus,
    message: string,
    timeline: seq<TimelineEntry>,
    createdAt: string,
    updatedAt: string,
    resolvedAt: Option<string>,
    acknowledgedBy: Option<string>)

  /** The fields of `AlertRuleV2` an incident copies. */
  datatype AlertRule = AlertRule(id: string, name: string, severity: string, notificationChannels: seq<string>)

  /** The test `i.id == id` the lookups use. */
  function HasId(id: string): Incident -> bool
  {
    (inc: Incident) => inc.id == id
  }

  function NotFound(id: string): string
  {
    "Incident '" + id + "' not found"
  }

  /**
   * The incident after an operator acknowledges it: status and
   * acknowledger set, update time moved, one timeline entry appended.
   */
  function AcknowledgedBy(inc: Incident, actor: string, now: string): (r: Incident)
    ensures r.status == Acknowledged && r.acknowledgedBy == Some(actor) && r.updatedAt == now
    ensures |r.timeline| == |inc.timeline| + 1 && r.timeline[..|inc.timeline|] == inc.timeline
    ensures r.timeline[|inc.timeline|] == TimelineEntry(now, "acknowledged", "Acknowledged by " + actor, Some(actor))
    ensures r.id == inc.id && r.ruleId == inc.ruleId && r.message == inc.message && r.resolvedAt == inc.resolvedAt
    ensures r.createdAt == inc.createdAt && r.severity == inc.severity && r.ruleName == inc.ruleName
  {
    inc.(status := Acknowledged, acknowledgedBy := Some(actor), updatedAt := now,
         timeline := inc.timeline + [TimelineEntry(now, "acknowledged", "Acknowledged by " + actor, Some(actor))])
  }

  /**
   * The incident after an operator resolves it: status Resolved, resolution
   * and update time now, one timeline entry appended.
   */
  function ResolvedBy(inc: Incident, actor: string, now: string): (r: Incident)
    ensures r.status == Resolved && r.resolvedAt == Some(now) && r.updatedAt == now
    ensures |r.timeline| == |inc.timeline| + 1 && r.timeline[..|inc.timeline|] == inc.timeline
    ensures r.timeline[|inc.timeline|] == TimelineEntry(now, "resolved", "Resolved by " + actor, Some(actor))
    ensures r.id == inc.id && r.ruleId == inc.ruleId && r.message == inc.message && r.acknowledgedBy == inc.acknowledgedBy
    ensures r.createdAt == inc.createdAt && r.severity == inc.severity && r.ruleName == inc.ruleName
  {
    inc.(status := Resolved, resolvedAt := Some(now), updatedAt := now,
         timeline := inc.timeline + [TimelineEntry(now, "resolved", "Resolved by " + actor, Some(actor))])
  }

  /** Every incident of the list is still active (Open or Acknowledged). */
  predicate AllActive(incidents: seq<Incident>)
  {
    forall j :: 0 <= j < |incidents| ==> incidents[j].status != Resolved
  }

  /** Every incident of the list is resolved. */
  predicate AllResolved(history: seq<Incident>)
  {
    forall j :: 0 <= j < |history| ==> history[j].status == Resolved
  }

  class AlertEngine {
    /** `incidents`: the active incidents, in creation order. */
    var incidents: seq<Incident>
    /** `incident_history`: resolved incidents, oldest first. */
    var history: seq<Incident>
    const historyCapacity: nat

    /**
     * Active incidents are never resolved, every history entry is
     * resolved, and the history respects its bound (one entry survives a
     * zero bound).
     */
    ghost predicate Valid()
      reads this
    {
      AllActive(incidents) && AllResolved(history)
      && |history| <= (if historyCapacity == 0 then 1 else historyCapacity)
    }

    constructor (historyCapacity: nat)
      ensures Valid()
      ensures incidents == [] && history == [] && this.historyCapacity == historyCapacity
    {
      incidents := [];
      history := [];
      this.historyCapacity := historyCapacity;
    }

    /**
     * `create_incident`: append one Open incident that copies the rule's
     * id, name and severity, with a single `opened` timeline entry by the
     * system and neither resolution nor acknowledger.
     */
    method CreateIncident(rule: AlertRule, message: string, uuid: string, now: string) returns (inc: Incident)
      requires Valid()
      modifies this`incidents
      ensures Valid()
      ensures incidents == old(incidents) + [inc]
      ensures inc.id == "inc-" + uuid && inc.ruleId == rule.id && inc.ruleName == rule.name
      ensures inc.severity == rule.severity && inc.status == Open && inc.message == message
      ensures inc.timeline == [TimelineEntry(now, "opened", "Alert rule '" + rule.name + "' triggered", Some("system"))]
      ensures inc.createdAt == now && inc.updatedAt == now && inc.resolvedAt == None && inc.acknowledgedBy == None
    {
      var entry := TimelineEntry(now, "opened", "Alert rule '" + rule.name + "' triggered", Some("system"));
      inc := Incident("inc-" + uuid, rule.id, rule.name, rule.severity, Open, message, [entry], now, now, None, None);
      incidents := incidents + [inc];
    }

    /**
     * `acknowledge_incident`: acknowledge the first incident with that id,
     * whatever its current status, leaving every other incident alone; an
     * unknown id is an error and changes nothing.
     */
    method AcknowledgeIncident(id: string, actor: string, now: string) returns (r: Result<Incident, string>)
      requires Valid()
      modifies this`incidents
      ensures Valid()
      ensures FirstWhere(old(incidents), HasId(id)).None? ==> r == Err(NotFound(id)) && incidents == old(incidents)
      ensures FirstWhere(old(incidents), HasId(id)).Some? ==>
        var i := FirstWhere(old(incidents), HasId(id)).value;
        incidents == old(incidents)[i := AcknowledgedBy(old(incidents)[i], actor, now)] && r == Ok(incidents[i])
    {
      match FirstWhere(incidents, HasId(id))
      case None =>
        r := Err(NotFound(id));
      case Some(i) =>
        incidents := incidents[i := AcknowledgedBy(incidents[i], actor, now)];
        r := Ok(incidents[i]);
    }

    /**
     * `resolve_incident`: the first incident with that id is resolved,
     * taken out of the active list (the rest keep their order) and pushed
     * into the bounded history, which drops its oldest entry when full;
     * the incident returned is the one pushed. An unknown id is an error
     * and changes neither list.
     */
    method ResolveIncident(id: string, actor: string, now: string) returns (r: Result<Incident, string>)
      requires Valid()
      modifies this`incidents, this`history
      ensures Valid()
      ensures FirstWhere(old(incidents), HasId(id)).None? ==>
        r == Err(NotFound(id)) && incidents == old(incidents) && history == old(history)
      ensures FirstWhere(old(incidents), HasId(id)).Some? ==>
        var i := FirstWhere(old(incidents), HasId(id)).value;
        r == Ok(ResolvedBy(old(incidents)[i], actor, now))
        && incidents == RemoveAt(old(incidents), i)
        && history == PushBounded(old(history), r.value, historyCapacity)
    {
      match FirstWhere(incidents, HasId(id))
      case None =>
        r := Err(NotFound(id));
      case Some(i) =>
        var resolved := ResolvedBy(incidents[i], actor, now);
        incidents := RemoveAt(incidents, i);
        HistoryStaysResolved(history, resolved, historyCapacity);
        if |history| >= historyCapacity && |history| > 0 {
          history := history[1..];
        }
        history := history + [resolved];
        r := Ok(resolved);
    }

    /** `list_active`: the active incidents, in creation order. */
    function ListActive(): (r: seq<Incident>)
      reads this
      ensures r == incidents
      ensures Valid() ==> forall j :: 0 <= j < |r| ==> r[j].status == Open || r[j].status == Acknowledged
    {
      incidents
    }
  }

  /**
   * Pushing a resolved incident into a resolved, bounded history keeps it
   * resolved and bounded, and what is kept is the newest entries.
   */
  lemma HistoryStaysResolved(history: seq<Incident>, inc: Incident, cap: nat)
    requires AllResolved(history) && inc.status == Resolved
    requires |history| <= (if cap == 0 then 1 else cap)
    ensures AllResolved(PushBounded(history, inc, cap))
    ensures |PushBounded(history, inc, cap)| <= (if cap == 0 then 1 else cap)
    ensures PushBounded(history, inc, cap) == Last(history + [inc], if cap == 0 then 1 else cap)
  {
    PushBoundedKeepsNewest(history, inc, cap);
    var r := PushBounded(history, inc, cap);
    forall j | 0 <= j < |r|
      ensures r[j].status == Resolved
    {
      if j < |r| - 1 {
        assert r[j] in history;
      }
    }
  }

  /**
   * Acknowledging twice is accepted: the incident stays acknowledged, the
   * later actor is recorded, and the timeline grows by two entries.
   */
  lemma AcknowledgeTwice(inc: Incident, first: string, second: string, t1: string, t2: string)
    ensures var twice := AcknowledgedBy(AcknowledgedBy(inc, first, t1), second, t2);
      twice.status == Acknowledged && twice.acknowledgedBy == Some(second)
      && |twice.timeline| == |inc.timeline| + 2 && twice.timeline[..|inc.timeline|] == inc.timeline
  {
    var once := AcknowledgedBy(inc, first, t1);
    var twice := AcknowledgedBy(once, second, t2);
    assert twice.timeline[..|inc.timeline|] == once.timeline[..|once.timeline|][..|inc.timeline|];
  }

  /**
   * A resolved incident keeps its whole history: the original timeline is
   * a prefix of the resolved one, and an acknowledgement made before stays.
   */
  lemma ResolveKeepsAcknowledgement(inc: Incident, a: string, b: string, t1: string, t2: string)
    ensures var done := ResolvedBy(AcknowledgedBy(inc, a, t1), b, t2);
      done.status == Resolved && done.acknowledgedBy == Some(a) && done.resolvedAt == Some(t2)
      && |done.timeline| == |inc.timeline| + 2 && done.timeline[..|inc.timeline|] == inc.timeline
      && done.timeline[|inc.timeline|].action == "acknowledged" && done.timeline[|inc.timeline| + 1].action == "resolved"
  {
    var acked := AcknowledgedBy(inc, a, t1);
    var done := ResolvedBy(acked, b, t2);
    assert done.timeline[..|inc.timeline|] == acked.timeline[..|acked.timeline|][..|inc.timeline|];
    assert done.timeline[|inc.timeline|] == acked.timeline[|inc.timeline|];
  }
}
