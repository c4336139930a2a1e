/**
 * Access control and audit: API keys with scopes, bearer-token
 * validation against stored hashes, and a bounded audit log.
 *
 * SHA-256 is the parameter `hash` of the layer; uuids and the clock's
 * RFC 3339 reading are arguments of the operations that use them.
 */
module Auth {
  import opened Wrappers
  import opened SeqOps

  /** A string as its UTF-8 bytes; the stored digests are ASCII hex. */
  type Bytes = seq<bv8>

  datatype Scope = Read | Write | Admin

  datatype ApiKey = ApiKey(
    id: string,
    keyLabel: string,
    key: Option<string>,
    keyHash: Bytes,
    scopes: seq<Scope>,
    createdAt: string,
    lastUsedAt: Option<string>,
    revoked: bool)

  datatype AuditEntry = AuditEntry(
    id: string,
    timestamp: string,
    actor: string,
    action: string,
    resource: string,
    detail: string,
    ip: Option<string>)

  /** `has_scope`: an Admin key may do anything; any other key needs the scope itself. */
  predicate HasScope(key: ApiKey, required: Scope)
  {
    Admin in key.scopes || required in key.scopes
  }

  /** Admin implies every scope, and granting more scopes never takes one away. */
  lemma HasScopeMonotone(key: ApiKey, required: Scope, more: seq<Scope>)
    ensures Admin in key.scopes ==> HasScope(key, Read) && HasScope(key, Write) && HasScope(key, Admin)
    ensures Admin !in key.scopes ==> (HasScope(key, required) <==> required in key.scopes)
    ensures HasScope(key, required) ==> HasScope(key.(scopes := key.scopes + more), required)
  {
    if Admin in key.scopes {
      var i :| 0 <= i < |key.scopes| && key.scopes[i] == Admin;
      assert (key.scopes + more)[i] == Admin;
    } else if required in key.scopes {
      var i :| 0 <= i < |key.scopes| && key.scopes[i] == required;
      assert (key.scopes + more)[i] == required;
    }
  }

  /**
   * `constant_time_eq`: compares every position, OR-ing the XOR of each
   * pair into `diff`, so the time taken does not depend on where the
   * strings first differ.
   */
  method ConstantTimeEq(a: Bytes, b: Bytes) returns (eq: bool)
    ensures eq <==> a == b
  {
    if |a| != |b| {
      return false;
    }
    var diff: bv8 := 0;
    for i := 0 to |a|
      invariant diff == 0 <==> a[..i] == b[..i]
    {
      assert a[..i + 1] == a[..i] + [a[i]] && b[..i + 1] == b[..i] + [b[i]];
      diff := diff | (a[i] ^ b[i]);
    }
    assert a[..|a|] == a && b[..|b|] == b;
    eq := diff == 0;
  }

  /** The test `k.id == key_id` of `revoke_key`. */
  function WithId(id: string): ApiKey -> bool
  {
    (k: ApiKey) => k.id == id
  }

  /** The test of `validate_token`: the stored hash matches and the key is not revoked. */
  function Usable(hash: Bytes): ApiKey -> bool
  {
    (k: ApiKey) => k.keyHash == hash && !k.revoked
  }

  /** Index of the first key with identifier `id`. */
  function FirstWithId(keys: seq<ApiKey>, id: string): (r: Option<nat>)
    ensures r.Some? ==> r.value < |keys| && keys[r.value].id == id
    ensures r.Some? ==> forall j :: 0 <= j < r.value ==> keys[j].id != id
    ensures r.None? ==> forall j :: 0 <= j < |keys| ==> keys[j].id != id
  {
    FirstWhere(keys, WithId(id))
  }

  /** Index of the first usable key whose stored hash is `hash`. */
  function FirstValid(keys: seq<ApiKey>, hash: Bytes): (r: Option<nat>)
    ensures r.Some? ==> r.value < |keys| && keys[r.value].keyHash == hash && !keys[r.value].revoked
    ensures r.Some? ==> forall j :: 0 <= j < r.value ==> keys[j].keyHash != hash || keys[j].revoked
    ensures r.None? ==> forall j :: 0 <= j < |keys| ==> keys[j].keyHash != hash || keys[j].revoked
  {
    FirstWhere(keys, Usable(hash))
  }

  /** A key as handed out after creation: the raw value cleared, and putting it back gives the key. */
  function Redacted(k: ApiKey): (r: ApiKey)
    ensures r.key == None
    ensures r.(key := k.key) == k
  {
    k.(key := None)
  }

  /** A revoked key is never the one a token validates to. */
  lemma RevokedNeverValid(keys: seq<ApiKey>, hash: Bytes, i: nat)
    requires i < |keys| && keys[i].revoked
    ensures FirstValid(keys, hash) != Some(i)
  {
  }

  class AuthLayer {
    /** `api_keys`, in creation order. */
    var apiKeys: seq<ApiKey>
    /** `audit_log`, oldest first. */
    var auditLog: seq<AuditEntry>
    const auditCapacity: nat
    /** `sha256_hex`, as the bytes of the lower-case hex digest. */
    const hash: string -> Bytes

    /** The audit log respects its bound (at least one entry is always kept). */
    ghost predicate Valid()
      reads this
    {
      |auditLog| <= (if auditCapacity == 0 then 1 else auditCapacity)
    }

    constructor (auditCapacity: nat, hash: string -> Bytes)
      ensures Valid()
      ensures apiKeys == [] && auditLog == []
      ensures this.auditCapacity == auditCapacity && this.hash == hash
    {
      apiKeys := [];
      auditLog := [];
      this.auditCapacity := auditCapacity;
      this.hash := hash;
    }

    /** `log_audit`: append one entry, first dropping the oldest when at capacity. */
    method LogAudit(entry: AuditEntry)
      requires Valid()
      modifies this`auditLog
      ensures Valid()
      ensures auditLog == PushBounded(old(auditLog), entry, auditCapacity)
      ensures auditLog == Last(old(auditLog) + [entry], if auditCapacity == 0 then 1 else auditCapacity)
    {
      PushBoundedKeepsNewest(auditLog, entry, auditCapacity);
      if |auditLog| >= auditCapacity && |auditLog| > 0 {
        auditLog := auditLog[1..];
      }
      auditLog := auditLog + [entry];
    }

    /**
     * `create_key`: a fresh key `cz_<rawUuid>` stored by its hash with the
     * requested scopes, unused and not revoked; one audit entry records it.
     * The raw value is returned this once.
     */
    method CreateKey(keyLabel: string, scopes: seq<Scope>, rawUuid: string, idUuid: string, auditUuid: string, now: string)
      returns (k: ApiKey)
      requires Valid()
      modifies this`apiKeys, this`auditLog
      ensures Valid()
      ensures apiKeys == old(apiKeys) + [k]
      ensures k.id == "key-" + idUuid && k.keyLabel == keyLabel && k.scopes == scopes && k.createdAt == now
      ensures k.key == Some("cz_" + rawUuid) && k.keyHash == hash("cz_" + rawUuid)
      ensures k.lastUsedAt == None && !k.revoked
      ensures auditLog == PushBounded(old(auditLog),
        AuditEntry("audit-" + auditUuid, now, "system", "create_key", "api_key:" + k.id,
                   "Created API key '" + keyLabel + "'", None), auditCapacity)
    {
      var rawKey := "cz_" + rawUuid;
      k := ApiKey("key-" + idUuid, keyLabel, Some(rawKey), hash(rawKey), scopes, now, None, false);
      apiKeys := apiKeys + [k];
      LogAudit(AuditEntry("audit-" + auditUuid, now, "system", "create_key", "api_key:" + k.id,
                          "Created API key '" + keyLabel + "'", None));
    }

    /** `revoke_key`: mark the first key with that id revoked, or fail and change nothing. */
    method RevokeKey(keyId: string) returns (r: Result<Unit, string>)
      modifies this`apiKeys
      ensures FirstWithId(old(apiKeys), keyId).None? ==>
        r == Err("Key '" + keyId + "' not found") && apiKeys == old(apiKeys)
      ensures FirstWithId(old(apiKeys), keyId).Some? ==>
        var i := FirstWithId(old(apiKeys), keyId).value;
        r == Ok(Unit) && apiKeys == old(apiKeys)[i := old(apiKeys)[i].(revoked := true)]
    {
      match FirstWithId(apiKeys, keyId)
      case None =>
        r := Err("Key '" + keyId + "' not found");
      case Some(i) =>
        apiKeys := apiKeys[i := apiKeys[i].(revoked := true)];
        r := Ok(Unit);
    }

    /** `list_keys`: every key, in order, with its raw value cleared. */
    function ListKeys(): (r: seq<ApiKey>)
      reads this
      ensures |r| == |apiKeys|
      ensures forall i :: 0 <= i < |r| ==> r[i] == Redacted(apiKeys[i])
    {
      seq(|apiKeys|, i requires 0 <= i < |apiKeys| reads this => Redacted(apiKeys[i]))
    }

    /**
     * `validate_token`: the first non-revoked key whose stored hash equals
     * the token's hash (compared in constant time); only that key's
     * `last_used_at` is updated, and it is returned without its raw value.
     */
    method ValidateToken(token: string, now: string) returns (r: Option<ApiKey>)
      modifies this`apiKeys
      ensures FirstValid(old(apiKeys), hash(token)).None? ==> r == None && apiKeys == old(apiKeys)
      ensures FirstValid(old(apiKeys), hash(token)).Some? ==>
        var i := FirstValid(old(apiKeys), hash(token)).value;
        apiKeys == old(apiKeys)[i := old(apiKeys)[i].(lastUsedAt := Some(now))]
        && r == Some(Redacted(apiKeys[i]))
    {
      var h := hash(token);
      var i := 0;
      while i < |apiKeys|
        invariant i <= |apiKeys|
        invariant apiKeys == old(apiKeys)
        invariant forall j :: 0 <= j < i ==> apiKeys[j].keyHash != h || apiKeys[j].revoked
      {
        var same := ConstantTimeEq(apiKeys[i].keyHash, h);
        if same && !apiKeys[i].revoked {
          FirstValidIs(apiKeys, h, i);
          apiKeys := apiKeys[i := apiKeys[i].(lastUsedAt := Some(now))];
          return Some(Redacted(apiKeys[i]));
        }
        i := i + 1;
      }
      r := None;
    }

    /** `get_audit_log(limit)`: the newest `limit` entries, newest first. */
    function GetAuditLog(limit: nat): (r: seq<AuditEntry>)
      reads this
      ensures |r| == (if limit < |auditLog| then limit else |auditLog|)
      ensures forall i :: 0 <= i < |r| ==> r[i] == auditLog[|auditLog| - 1 - i]
    {
      NewestFirst(auditLog, limit)
    }
  }

  /** The first usable match is the one a left-to-right scan stops at. */
  lemma FirstValidIs(keys: seq<ApiKey>, hash: Bytes, i: nat)
    requires i < |keys| && keys[i].keyHash == hash && !keys[i].revoked
    requires forall j :: 0 <= j < i ==> keys[j].keyHash != hash || keys[j].revoked
    ensures FirstValid(keys, hash) == Some(i)
  {
    FirstWhereIs(keys, Usable(hash), i);
  }

  /**
   * After `create_key`, the raw key it returned validates to the new key
   * as long as no earlier usable key has the same hash.
   */
  lemma CreatedKeyValidates(keys: seq<ApiKey>, k: ApiKey, hash: string -> Bytes, raw: string)
    requires k.keyHash == hash(raw) && !k.revoked
    requires FirstValid(keys, hash(raw)).None?
    ensures FirstValid(keys + [k], hash(raw)) == Some(|keys|)
  {
    var all := keys + [k];
    forall j | 0 <= j < |keys|
      ensures all[j].keyHash != hash(raw) || all[j].revoked
    {
      assert all[j] == keys[j];
    }
    FirstValidIs(all, hash(raw), |keys|);
  }
}
