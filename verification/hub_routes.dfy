/**
 * The hub's pure request logic: which journal slots count as empty, the
 * one-line event filter language of `/api/events?query=…`, and the
 * route-to-scope rule with the bearer-token check in front of `/api`.
 */
module HubRoutes {
  import opened Wrappers
  import opened Widths
  import opened Text
  import opened CausalEvents
  import opened EventLayout
  import opened Crc32
  import opened IngestLoop
  import opened Auth

  // ---------------------------------------------------------------------------
  // Empty slots
  // ---------------------------------------------------------------------------

  /** `is_empty_event`: every field, `flags` included, is zero. */
  predicate IsEmptyEvent(e: CausalEvent)
  {
    e.lamportTs == 0 && e.nodeId == 0 && e.streamId == 0
    && e.flags == 0 && e.payloadOffset == 0 && e.checksum == 0
  }

  /** The all-zero record is the only empty one, so an unwritten slot reads as empty. */
  lemma EmptyIsAllZero(e: CausalEvent)
    ensures IsEmptyEvent(e) <==> e == CausalEvent(0, 0, 0, 0, 0, 0)
    ensures IsEmptyEvent(DecodeEvent(seq(EVENT_SIZE, _ => 0)))
  {
    ZeroBytesDecodeToZeroEvent();
  }

  /**
   * The first event the ingest loop accepts can be indistinguishable from an
   * empty slot: it gets Lamport value 0 and blob offset 0, and a header with
   * node 0, stream 0 and checksum 0 and no payload passes the CRC-32 check.
   * Readers that skip empty slots then hide it.
   */
  lemma FirstAcceptedEventLooksEmpty(blob: seq<u8>, header: CausalEvent)
    requires MAX_PACKET_SIZE <= |blob|
    requires blob[..EVENT_SIZE] == EncodeEvent(header)
    requires header.nodeId == 0 && header.streamId == 0 && header.checksum == 0
    ensures Allocate(0, |blob|, 2) == Some(0)
    ensures Classify(EVENT_SIZE, blob, 0) == Accepted(header)
    ensures IsEmptyEvent(Sequenced(header, 0, 0))
  {
    AllocateTerminates(0, |blob|);
    assert blob[0..EVENT_SIZE] == blob[..EVENT_SIZE];
    ZeroHeaderAccepted(blob, 0, header);
  }

  // ---------------------------------------------------------------------------
  // The event filter language
  // ---------------------------------------------------------------------------

  /** The event field a filter names, widened to `u64`; `ts` and `lamport` are synonyms. */
  function DslField(field: string, e: CausalEvent): (r: Option<u64>)
    ensures field == "node_id" ==> r == Some(e.nodeId as u64)
    ensures field == "stream_id" ==> r == Some(e.streamId as u64)
    ensures field == "ts" || field == "lamport" ==> r == Some(e.lamportTs)
    ensures field != "node_id" && field != "stream_id" && field != "ts" && field != "lamport" ==> r == None
  {
    if field == "node_id" then Some(e.nodeId as u64)
    else if field == "stream_id" then Some(e.streamId as u64)
    else if field == "ts" || field == "lamport" then Some(e.lamportTs)
    else None
  }

  /** One comparison; an operator the language does not know lets everything through. */
  function DslCompare(op: string, x: u64, v: u64): (r: bool)
    ensures op == "==" ==> (r <==> x == v)
    ensures op == ">" ==> (r <==> x > v)
    ensures op == "<" ==> (r <==> x < v)
    ensures op != "==" && op != ">" && op != "<" ==> r
  {
    if op == "==" then x == v
    else if op == ">" then x > v
    else if op == "<" then x < v
    else true
  }

  /**
   * `evaluate_dsl`: `<field> <op> <value>` as the first three whitespace
   * separated tokens (later tokens are ignored). Anything it cannot read
   * keeps the event.
   */
  function EvaluateDsl(query: string, e: CausalEvent): (r: bool)
  {
    var parts := SplitWhitespace(query);
    if |parts| < 3 then true
    else match ParseU64(parts[2])
      case None => true
      case Some(v) =>
        match DslField(parts[0], e)
        case None => true
        case Some(x) => DslCompare(parts[1], x, v)
  }

  /** The three ways a query keeps every event. */
  lemma DslIsPermissive(query: string, e: CausalEvent)
    ensures |SplitWhitespace(query)| < 3 ==> EvaluateDsl(query, e)
    ensures |SplitWhitespace(query)| >= 3 && ParseU64(SplitWhitespace(query)[2]).None? ==> EvaluateDsl(query, e)
    ensures |SplitWhitespace(query)| >= 3 && DslField(SplitWhitespace(query)[0], e).None? ==> EvaluateDsl(query, e)
    ensures |SplitWhitespace(query)| >= 3
            && SplitWhitespace(query)[1] != "==" && SplitWhitespace(query)[1] != ">" && SplitWhitespace(query)[1] != "<"
            ==> EvaluateDsl(query, e)
  {
  }

  lemma DigitsHaveNoWhitespace(s: string)
    requires AllDigits(s)
    ensures NoWhitespace(s)
  {
    forall k | 0 <= k < |s|
      ensures !IsWhitespace(s[k])
    {
      assert IsDigit(s[k]);
    }
  }

  /** The query text `<field> <op> <n>` splits back into its three tokens. */
  lemma DslTokens(field: string, op: string, n: u64)
    requires |field| > 0 && NoWhitespace(field) && |op| > 0 && NoWhitespace(op)
    ensures SplitWhitespace(field + " " + op + " " + Decimal(n)) == [field, op, Decimal(n)]
    ensures ParseU64(Decimal(n)) == Some(n)
  {
    DigitsHaveNoWhitespace(Decimal(n));
    SplitThreeTokens(field, op, Decimal(n));
    ParseU64Decimal(n);
  }

  /**
   * A well-formed query `<field> <op> <n>`, written with single spaces and
   * `n` in decimal, compares the named field with `n`.
   */
  lemma DslCompares(field: string, op: string, n: u64, e: CausalEvent)
    requires field == "node_id" || field == "stream_id" || field == "ts" || field == "lamport"
    requires op == "==" || op == ">" || op == "<"
    ensures var x := if field == "node_id" then e.nodeId as u64
                     else if field == "stream_id" then e.streamId as u64
                     else e.lamportTs;
            EvaluateDsl(field + " " + op + " " + Decimal(n), e)
            == (if op == "==" then x == n else if op == ">" then x > n else x < n)
  {
    FieldNameIsOneToken(field);
    assert NoWhitespace(op) by {
      if op == "==" {
        assert op[0] == '=' && op[1] == '=';
      }
    }
    DslTokens(field, op, n);
    var parts := SplitWhitespace(field + " " + op + " " + Decimal(n));
    assert parts[0] == field && parts[1] == op && parts[2] == Decimal(n);
    assert EvaluateDsl(field + " " + op + " " + Decimal(n), e) == DslCompare(op, DslField(field, e).value, n);
  }

  /** The field names the query language knows contain no whitespace. */
  lemma FieldNameIsOneToken(field: string)
    requires field == "node_id" || field == "stream_id" || field == "ts" || field == "lamport"
    ensures |field| > 0 && NoWhitespace(field)
  {
    forall k | 0 <= k < |field|
      ensures !IsWhitespace(field[k])
    {
      assert 'a' <= field[k] <= 'z' || field[k] == '_';
    }
  }

  // ---------------------------------------------------------------------------
  // Scopes and the bearer-token check
  // ---------------------------------------------------------------------------

  datatype HttpMethod = Get | Head | Options | Post | Put | Patch | Delete | Other(name: string)

  /** `required_scope`: the scope a request needs, or none for routes outside the key check. */
  function RequiredScope(path: string, m: HttpMethod): (r: Option<Scope>)
  {
    if !Text.StartsWith(path, "/api") then None
    else if path == "/api/status" then None
    else if Text.StartsWith(path, "/api/auth") then Some(Admin)
    else if m == Get || m == Head then Some(Read)
    else Some(Write)
  }

  /** Whether a key's scopes allow a request, when one is required. */
  predicate ScopeAllows(key: ApiKey, path: string, m: HttpMethod)
  {
    RequiredScope(path, m).None? || HasScope(key, RequiredScope(path, m).value)
  }

  lemma AuthPrefixIsApi(path: string)
    requires Text.StartsWith(path, "/api/auth")
    ensures Text.StartsWith(path, "/api")
  {
    assert path[..4] == path[..9][..4];
  }

  /**
   * Only Admin stands for the other scopes: a key holding Admin may call
   * every route, while a key holding only Write may not read and a key
   * holding only Read may not write; neither may call `/api/auth…`.
   */
  lemma ScopesOnlyAdminImplies(key: ApiKey, path: string, m: HttpMethod)
    ensures Admin in key.scopes ==> ScopeAllows(key, path, m)
    ensures key.scopes == [Write] ==>
      (ScopeAllows(key, path, m) <==>
         !Text.StartsWith(path, "/api") || path == "/api/status"
         || (!Text.StartsWith(path, "/api/auth") && m != Get && m != Head))
    ensures key.scopes == [Read] ==>
      (ScopeAllows(key, path, m) <==>
         !Text.StartsWith(path, "/api") || path == "/api/status"
         || (!Text.StartsWith(path, "/api/auth") && (m == Get || m == Head)))
  {
    if Text.StartsWith(path, "/api/auth") {
      AuthPrefixIsApi(path);
      assert path[5] == "/api/auth"[5];
      assert path != "/api/status";
    }
  }

  /** How the middleware answers a request. */
  datatype Decision = Pass | Unauthorized | Forbidden

  /** Routes that skip the key check entirely. */
  predicate IsPublic(path: string, m: HttpMethod)
  {
    path == "/api/status" || Text.StartsWith(path, "/ws") || !Text.StartsWith(path, "/api") || m == Options
  }

  /** The token carried by an `Authorization: Bearer <token>` header. */
  function BearerToken(header: Option<string>): (r: Option<string>)
    ensures r.Some? <==> header.Some? && Text.StartsWith(header.value, "Bearer ")
    ensures r.Some? ==> header.value == "Bearer " + r.value
  {
    if header.Some? && Text.StartsWith(header.value, "Bearer ") then Some(header.value[7..]) else None
  }

  /**
   * `auth_middleware` (without forwarding the request): public routes pass
   * untouched; otherwise the bearer token must validate (which stamps the
   * key's last use) and the key must hold the route's scope.
   */
  method AuthMiddleware(auth: AuthLayer, path: string, m: HttpMethod, header: Option<string>, now: string)
    returns (d: Decision)
    modifies auth`apiKeys
    ensures IsPublic(path, m) ==> d == Pass && auth.apiKeys == old(auth.apiKeys)
    ensures !IsPublic(path, m) && BearerToken(header).None? ==> d == Unauthorized && auth.apiKeys == old(auth.apiKeys)
    ensures !IsPublic(path, m) && BearerToken(header).Some? ==>
      var found := FirstValid(old(auth.apiKeys), auth.hash(BearerToken(header).value));
      (found.None? ==> d == Unauthorized && auth.apiKeys == old(auth.apiKeys))
      && (found.Some? ==>
            auth.apiKeys == old(auth.apiKeys)[found.value := old(auth.apiKeys)[found.value].(lastUsedAt := Some(now))]
            && (d == Pass <==> ScopeAllows(old(auth.apiKeys)[found.value], path, m))
            && (d != Pass ==> d == Forbidden))
  {
    if IsPublic(path, m) {
      return Pass;
    }
    var token := BearerToken(header);
    if token.None? {
      return Unauthorized;
    }
    ghost var i := FirstValid(auth.apiKeys, auth.hash(token.value));
    ghost var before := auth.apiKeys;
    var key := auth.ValidateToken(token.value, now);
    match key
    case None =>
      d := Unauthorized;
    case Some(k) =>
      assert k.scopes == before[i.value].scopes;
      match RequiredScope(path, m)
      case None =>
        d := Pass;
      case Some(scope) =>
        d := if HasScope(k, scope) then Pass else Forbidden;
  }

  /** A request the middleware lets through on a protected route was made with a valid key holding the scope. */
  lemma PassedRequestsAreAuthorized(keys: seq<ApiKey>, hash: string -> Bytes, path: string, m: HttpMethod, header: Option<string>)
    requires !IsPublic(path, m)
    requires BearerToken(header).Some?
    requires FirstValid(keys, hash(BearerToken(header).value)).Some?
    requires ScopeAllows(keys[FirstValid(keys, hash(BearerToken(header).value)).value], path, m)
    ensures var key := keys[FirstValid(keys, hash(BearerToken(header).value)).value];
            !key.revoked && key.keyHash == hash(BearerToken(header).value)
            && RequiredScope(path, m).Some? && HasScope(key, RequiredScope(path, m).value)
  {
  }
}
