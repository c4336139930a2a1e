/**
 * The webhook connector: every posted payload is normalised by provider,
 * wrapped in a `StreamEvent` with the connector's next sequence number,
 * counted, and broadcast; `start`/`stop` flip its running flag.
 *
 * The broadcast channel is the list of events sent; whether any
 * subscriber receives them is not modelled. The clock is an argument.
 */
module Webhook {
  import opened Wrappers
  import opened Widths
  import opened Text
  import opened JsonValues
  import opened QueryTypes

  datatype ConnectorStatus = Connected | Connecting | Disconnected | Error | Stopped

  /** `payload.get(key).unwrap_or(&Null)`. */
  function FieldOrNull(payload: Json, key: string): (r: Json)
    ensures Field(payload, key).None? ==> r == Null
    ensures Field(payload, key).Some? ==> r == Field(payload, key).value
  {
    match Field(payload, key)
    case Some(v) => v
    case None => Null
  }

  /** `payload.pointer(p).unwrap_or(&Null)`. */
  function PointerOrNull(payload: Json, p: string): (r: Json)
    ensures Pointer(payload, p).None? ==> r == Null
    ensures Pointer(payload, p).Some? ==> r == Pointer(payload, p).value
  {
    match Pointer(payload, p)
    case Some(v) => v
    case None => Null
  }

  /**
   * `normalize_payload`: the fixed-key summaries of GitHub, Stripe and
   * PagerDuty payloads (keys in `serde_json`'s sorted order), and any
   * other provider's payload unchanged.
   */
  function Normalize(provider: string, payload: Json): (r: Json)
  {
    if provider == "github" then
      Object([("action", FieldOrNull(payload, "action")),
              ("provider", Str("github")),
              ("raw", payload),
              ("repository", PointerOrNull(payload, "/repository/full_name")),
              ("sender", PointerOrNull(payload, "/sender/login"))])
    else if provider == "stripe" then
      Object([("data", FieldOrNull(payload, "data")),
              ("id", FieldOrNull(payload, "id")),
              ("provider", Str("stripe")),
              ("type", FieldOrNull(payload, "type"))])
    else if provider == "pagerduty" then
      Object([("event_action", PointerOrNull(payload, "/event/event_action")),
              ("incident", PointerOrNull(payload, "/event/data")),
              ("provider", Str("pagerduty"))])
    else payload
  }

  /**
   * What a reader of the normalised payload sees: an unknown provider's
   * payload passes through; a known provider's summary names the provider
   * and carries the payload's fields (Null where they are missing), and a
   * GitHub summary also the whole payload.
   */
  lemma NormalizeMeaning(provider: string, payload: Json)
    ensures provider !in {"github", "stripe", "pagerduty"} ==> Normalize(provider, payload) == payload
    ensures provider in {"github", "stripe", "pagerduty"} ==>
      Field(Normalize(provider, payload), "provider") == Some(Str(provider))
    ensures provider == "github" ==>
      var n := Normalize(provider, payload);
      Field(n, "action") == Some(FieldOrNull(payload, "action")) && Field(n, "raw") == Some(payload)
      && Field(n, "repository") == Some(PointerOrNull(payload, "/repository/full_name"))
      && Field(n, "sender") == Some(PointerOrNull(payload, "/sender/login"))
    ensures provider == "stripe" ==>
      var n := Normalize(provider, payload);
      Field(n, "type") == Some(FieldOrNull(payload, "type")) && Field(n, "id") == Some(FieldOrNull(payload, "id"))
      && Field(n, "data") == Some(FieldOrNull(payload, "data"))
    ensures provider == "pagerduty" ==>
      var n := Normalize(provider, payload);
      Field(n, "event_action") == Some(PointerOrNull(payload, "/event/event_action"))
      && Field(n, "incident") == Some(PointerOrNull(payload, "/event/data"))
  {
    if provider == "github" {
      GithubFields(payload);
    } else if provider == "stripe" {
      StripeFields(payload);
    } else if provider == "pagerduty" {
      PagerDutyFields(payload);
    }
  }

  /** Looking up each key of a five-entry object with distinct keys. */
  lemma FiveFields(k0: string, k1: string, k2: string, k3: string, k4: string,
                   v0: Json, v1: Json, v2: Json, v3: Json, v4: Json)
    requires k0 != k1 && k0 != k2 && k0 != k3 && k0 != k4
    requires k1 != k2 && k1 != k3 && k1 != k4 && k2 != k3 && k2 != k4 && k3 != k4
    ensures var fields := [(k0, v0), (k1, v1), (k2, v2), (k3, v3), (k4, v4)];
      Get(fields, k0) == Some(v0) && Get(fields, k1) == Some(v1) && Get(fields, k2) == Some(v2)
      && Get(fields, k3) == Some(v3) && Get(fields, k4) == Some(v4)
  {
    var fields := [(k0, v0), (k1, v1), (k2, v2), (k3, v3), (k4, v4)];
    FourFields(k1, k2, k3, k4, v1, v2, v3, v4);
    assert fields[1..] == [(k1, v1), (k2, v2), (k3, v3), (k4, v4)];
  }

  /** Looking up each key of a four-entry object with distinct keys. */
  lemma FourFields(k0: string, k1: string, k2: string, k3: string, v0: Json, v1: Json, v2: Json, v3: Json)
    requires k0 != k1 && k0 != k2 && k0 != k3 && k1 != k2 && k1 != k3 && k2 != k3
    ensures var fields := [(k0, v0), (k1, v1), (k2, v2), (k3, v3)];
      Get(fields, k0) == Some(v0) && Get(fields, k1) == Some(v1) && Get(fields, k2) == Some(v2)
      && Get(fields, k3) == Some(v3)
  {
    var fields := [(k0, v0), (k1, v1), (k2, v2), (k3, v3)];
    ThreeFields(k1, k2, k3, v1, v2, v3);
    assert fields[1..] == [(k1, v1), (k2, v2), (k3, v3)];
  }

  /** Looking up each key of a three-entry object with distinct keys. */
  lemma ThreeFields(k0: string, k1: string, k2: string, v0: Json, v1: Json, v2: Json)
    requires k0 != k1 && k0 != k2 && k1 != k2
    ensures var fields := [(k0, v0), (k1, v1), (k2, v2)];
      Get(fields, k0) == Some(v0) && Get(fields, k1) == Some(v1) && Get(fields, k2) == Some(v2)
  {
    var fields := [(k0, v0), (k1, v1), (k2, v2)];
    TwoFields(k1, k2, v1, v2);
    assert fields[1..] == [(k1, v1), (k2, v2)];
  }

  /** Looking up each key of a two-entry object with distinct keys. */
  lemma TwoFields(k0: string, k1: string, v0: Json, v1: Json)
    requires k0 != k1
    ensures Get([(k0, v0), (k1, v1)], k0) == Some(v0) && Get([(k0, v0), (k1, v1)], k1) == Some(v1)
  {
    var fields := [(k0, v0), (k1, v1)];
    assert fields[1..] == [(k1, v1)];
  }

  lemma GithubFields(payload: Json)
    ensures var n := Normalize("github", payload);
      Field(n, "provider") == Some(Str("github"))
      && Field(n, "action") == Some(FieldOrNull(payload, "action")) && Field(n, "raw") == Some(payload)
      && Field(n, "repository") == Some(PointerOrNull(payload, "/repository/full_name"))
      && Field(n, "sender") == Some(PointerOrNull(payload, "/sender/login"))
  {
    FiveFields("action", "provider", "raw", "repository", "sender",
      FieldOrNull(payload, "action"), Str("github"), payload,
      PointerOrNull(payload, "/repository/full_name"), PointerOrNull(payload, "/sender/login"));
  }

  lemma StripeFields(payload: Json)
    ensures var n := Normalize("stripe", payload);
      Field(n, "provider") == Some(Str("stripe"))
      && Field(n, "type") == Some(FieldOrNull(payload, "type")) && Field(n, "id") == Some(FieldOrNull(payload, "id"))
      && Field(n, "data") == Some(FieldOrNull(payload, "data"))
  {
    FourFields("data", "id", "provider", "type",
      FieldOrNull(payload, "data"), FieldOrNull(payload, "id"), Str("stripe"), FieldOrNull(payload, "type"));
  }

  lemma PagerDutyFields(payload: Json)
    ensures var n := Normalize("pagerduty", payload);
      Field(n, "provider") == Some(Str("pagerduty"))
      && Field(n, "event_action") == Some(PointerOrNull(payload, "/event/event_action"))
      && Field(n, "incident") == Some(PointerOrNull(payload, "/event/data"))
  {
    ThreeFields("event_action", "incident", "provider",
      PointerOrNull(payload, "/event/event_action"), PointerOrNull(payload, "/event/data"), Str("pagerduty"));
  }

  /** Events of one connector with different sequence numbers have different ids. */
  lemma EventIdsDistinct(connectorId: string, a: u64, b: u64)
    requires a != b
    ensures connectorId + "-" + Decimal(a) != connectorId + "-" + Decimal(b)
  {
    ParseU64Decimal(a);
    ParseU64Decimal(b);
    var prefix := connectorId + "-";
    assert (prefix + Decimal(a))[|prefix|..] == Decimal(a);
    assert (prefix + Decimal(b))[|prefix|..] == Decimal(b);
  }

  class WebhookConnector {
    const id: string
    const name: string
    const params: map<string, string>
    const createdAt: string
    /** The `status` lock, written by `start`/`stop`. */
    var statusField: ConnectorStatus
    var running: bool
    var eventsTotal: u64
    var bytesTotal: u64
    var errorsTotal: u64
    var sequence: u64
    /** Every event handed to the broadcast channel, oldest first. */
    var sent: seq<StreamEvent>

    /** `new`: a stopped connector `webhook-<uuid>` with all counters at zero. */
    constructor (name: string, params: map<string, string>, uuid: string, now: string)
      ensures id == "webhook-" + uuid && this.name == name && this.params == params && createdAt == now
      ensures statusField == Stopped && !running
      ensures eventsTotal == 0 && bytesTotal == 0 && errorsTotal == 0 && sequence == 0 && sent == []
    {
      id := "webhook-" + uuid;
      this.name := name;
      this.params := params;
      createdAt := now;
      statusField := Stopped;
      running := false;
      eventsTotal := 0;
      bytesTotal := 0;
      errorsTotal := 0;
      sequence := 0;
      sent := [];
    }

    /** The `provider` parameter, `generic` when absent. */
    function Provider(): (r: string)
      reads this
      ensures "provider" in params ==> r == params["provider"]
      ensures "provider" !in params ==> r == "generic"
    {
      if "provider" in params then params["provider"] else "generic"
    }

    /**
     * `ingest_payload`: take the next sequence number, emit an event
     * `<id>-<seq>` on stream `webhook:<provider>` carrying the normalised
     * payload and the headers as metadata, count it and its serialised
     * size (both counters wrap like `AtomicU64::fetch_add`), and succeed.
     */
    method IngestPayload(payload: Json, headers: map<string, string>, now: string) returns (r: Result<Unit, string>)
      modifies this`sequence, this`eventsTotal, this`bytesTotal, this`sent
      ensures r == Ok(Unit)
      ensures sequence == WrapAdd64(old(sequence), 1) && eventsTotal == WrapAdd64(old(eventsTotal), 1)
      ensures |sent| == |old(sent)| + 1 && sent[..|old(sent)|] == old(sent)
      ensures var e := sent[|old(sent)|];
        && e.id == id + "-" + Decimal(old(sequence)) && e.connectorId == id && e.stream == "webhook:" + Provider()
        && e.sequence == old(sequence) && e.timestamp == now && e.payload == Normalize(Provider(), payload)
        && e.metadata == headers
        && bytesTotal == WrapAdd64(old(bytesTotal), Utf8Len(Serialize(e.payload)) % U64_MODULUS)
    {
      var seqNo := sequence;
      sequence := WrapAdd64(sequence, 1);
      var provider := Provider();
      var normalized := Normalize(provider, payload);
      var event := StreamEvent(id + "-" + Decimal(seqNo), id, "webhook:" + provider, seqNo, now, normalized, headers);
      var payloadSize := Utf8Len(Serialize(event.payload)) % U64_MODULUS;
      eventsTotal := WrapAdd64(eventsTotal, 1);
      bytesTotal := WrapAdd64(bytesTotal, payloadSize);
      sent := sent + [event];
      r := Ok(Unit);
    }

    /** `status`: Connected while running, Stopped otherwise. */
    function Status(): (r: ConnectorStatus)
      reads this
      ensures r == Connected <==> running
      ensures !running ==> r == Stopped
    {
      if running then Connected else Stopped
    }

    /** `start`: running, and the status lock says Connected. */
    method Start() returns (r: Result<Unit, string>)
      modifies this`running, this`statusField
      ensures r == Ok(Unit) && running && statusField == Connected && Status() == Connected
    {
      running := true;
      statusField := Connected;
      r := Ok(Unit);
    }

    /** `stop`: not running, and the status lock says Stopped. */
    method Stop() returns (r: Result<Unit, string>)
      modifies this`running, this`statusField
      ensures r == Ok(Unit) && !running && statusField == Stopped && Status() == Stopped
    {
      running := false;
      statusField := Stopped;
      r := Ok(Unit);
    }
  }
}
