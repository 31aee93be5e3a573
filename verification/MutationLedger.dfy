/** Idempotent mutations of the web API (src/api/mutation.rs) and the handler that uses
    them (src/api/handlers/memory_governance.rs). The digest is a parameter. */
module MutationLedger {
  import opened Wrappers
  import opened Text
  import opened Json
  import opened CanonicalJson

  const KEY_MAX_BYTES := 128
  const SCHEMA_VERSION := 1
  const OPERATION_NAMESPACE := "remem-web-operation-v1\0"

  type Digest = string -> string

  ghost predicate Injective(hash: Digest) { forall a, b :: hash(a) == hash(b) ==> a == b }

  datatype Identity = Identity(keyHash: string, operationId: string)

  predicate IsKeyChar(c: char) {
    '0' <= c <= '9' || 'a' <= c <= 'z' || 'A' <= c <= 'Z' || c in "._~-"
  }

  predicate IsValidKey(key: string) {
    var k := Trim(key);
    k != [] && |k| <= KEY_MAX_BYTES && forall i :: 0 <= i < |k| ==> IsKeyChar(k[i])
  }

  function ValidateKey(key: string, hash: Digest): Result<Identity> {
    if IsValidKey(key)
    then Ok(Identity(hash(Trim(key)), "op_" + hash(OPERATION_NAMESPACE + Trim(key))))
    else Err
  }

  /** The identity stands for the trimmed key and for nothing else; and no operation id
      gives a key hash away. */
  lemma IdentityBindsKey(a: string, b: string, hash: Digest)
    requires Injective(hash) && IsValidKey(a) && IsValidKey(b)
    ensures var x, y := ValidateKey(a, hash).value, ValidateKey(b, hash).value;
      && (x.keyHash == y.keyHash <==> Trim(a) == Trim(b))
      && (x.operationId == y.operationId <==> Trim(a) == Trim(b))
      && x.operationId != "op_" + y.keyHash
  {
    var x, y := ValidateKey(a, hash).value, ValidateKey(b, hash).value;
    var ka, kb := OPERATION_NAMESPACE + Trim(a), OPERATION_NAMESPACE + Trim(b);
    var n := |OPERATION_NAMESPACE|;
    assert ka[n..] == Trim(a) && kb[n..] == Trim(b);
    assert x.operationId[3..] == hash(ka) && y.operationId[3..] == hash(kb);
    assert ("op_" + y.keyHash)[3..] == hash(Trim(b));
    assert ka[n - 1] == '\0';
    assert |Trim(b)| >= n ==> IsKeyChar(Trim(b)[n - 1]);
  }

  function RequestValue(kind: string, id: nat, action: string, body: Json): Json {
    Object(map["action" := Str(action), "body" := body, "resource_id" := Number(Decimal(id)),
      "resource_kind" := Str(kind)])
  }

  ghost function RequestHash(kind: string, id: int, action: string, body: Json, hash: Digest): Result<string> {
    if kind == "" || id <= 0 || action == "" then Err
    else Ok(hash(Canonical(RequestValue(kind, id, action, body))))
  }

  lemma RequestValueWellFormed(kind: string, id: nat, action: string, body: Json)
    requires WellFormed(body)
    ensures WellFormed(RequestValue(kind, id, action, body))
  {
    assert IsNumberText(Decimal(id));
  }

  lemma RequestValueInjective(k1: string, i1: nat, a1: string, b1: Json, k2: string, i2: nat, a2: string, b2: Json)
    requires RequestValue(k1, i1, a1, b1) == RequestValue(k2, i2, a2, b2)
    ensures k1 == k2 && i1 == i2 && a1 == a2 && b1 == b2
  {
    hide Decimal;
    var v, w := RequestValue(k1, i1, a1, b1).fields, RequestValue(k2, i2, a2, b2).fields;
    assert v["action"] == w["action"] && v["body"] == w["body"];
    assert v["resource_id"] == w["resource_id"] && v["resource_kind"] == w["resource_kind"];
    DecimalInjective(i1, i2);
  }

  /** Equal request hashes mean the same resource, action and body, bodies compared up to
      key order; the hash is refused exactly for an empty kind or action or a bad id. */
  lemma RequestHashBinds(k1: string, i1: int, a1: string, b1: Json, k2: string, i2: int, a2: string, b2: Json,
          hash: Digest)
    requires Injective(hash) && WellFormed(b1) && WellFormed(b2)
    requires RequestHash(k1, i1, a1, b1, hash).Ok? && RequestHash(k2, i2, a2, b2, hash).Ok?
    ensures RequestHash(k1, i1, a1, b1, hash) == RequestHash(k2, i2, a2, b2, hash)
      <==> k1 == k2 && i1 == i2 && a1 == a2 && b1 == b2
  {
    hide Canonical, RequestValue, WellFormed;
    if RequestHash(k1, i1, a1, b1, hash) == RequestHash(k2, i2, a2, b2, hash) {
      RequestValueWellFormed(k1, i1, a1, b1);
      RequestValueWellFormed(k2, i2, a2, b2);
      CanonicalInjective(RequestValue(k1, i1, a1, b1), RequestValue(k2, i2, a2, b2));
      RequestValueInjective(k1, i1, a1, b1, k2, i2, a2, b2);
    }
  }

  // ---------------------------------------------------------------- the ledger

  datatype Row = Row(requestHash: string, operationId: string, kind: string, id: int, action: string,
                     schemaVersion: int, response: string, auditId: int, createdAt: int)

  type Rows = map<string, Row>

  datatype Lookup = Miss | Replay(row: Row) | Conflict | UnsupportedSchema(version: int)

  function LookupMutation(rows: Rows, keyHash: string, requestHash: string): Lookup {
    if keyHash !in rows then Miss
    else if rows[keyHash].requestHash != requestHash then Conflict
    else if rows[keyHash].schemaVersion != SCHEMA_VERSION then UnsupportedSchema(rows[keyHash].schemaVersion)
    else Replay(rows[keyHash])
  }

  /** The table's keys: `idempotency_key_hash` is primary, `operation_id` unique. */
  predicate CanInsert(rows: Rows, keyHash: string, row: Row) {
    keyHash !in rows && forall k :: k in rows ==> rows[k].operationId != row.operationId
  }

  /** What the store answers when the mutation is tried: the response and audit row of
      an applied mutation, or a refusal. */
  datatype Decision = Applied(response: string, auditId: int, at: int) | Refused

  datatype Request = Request(key: string, kind: string, id: int, action: string, body: Json, decision: Decision)

  datatype Reply =
    | Invalid
    | Fresh(response: string)
    | Replayed(response: string)
    | KeyReused
    | Unsupported
    | Declined
    | LedgerFailed

  /** The store: the ledger and the operations whose effect was committed, in order. */
  datatype Store = Store(rows: Rows, effects: seq<string>)

  class Web {
    var rows: Rows
    var effects: seq<string>

    constructor ()
      ensures rows == map[] && effects == []
    {
      rows := map[];
      effects := [];
    }

    function State(): Store
      reads this
    {
      Store(rows, effects)
    }

    /** `insert_mutation`: refused by the table's keys, or one more row. */
    method InsertMutation(keyHash: string, row: Row) returns (ok: bool)
      modifies this`rows
      ensures ok <==> CanInsert(old(rows), keyHash, row)
      ensures rows == if ok then old(rows)[keyHash := row] else old(rows)
    {
      ok := keyHash !in rows && forall k :: k in rows ==> rows[k].operationId != row.operationId;
      if ok { rows := rows[keyHash := row]; }
    }

    /** The handler's transaction; `requestHash` was computed before it began. The mutation
        is made first; a ledger row that cannot go in rolls it back. */
    method Execute(identity: Identity, requestHash: string, request: Request) returns (reply: Reply)
      modifies this
      ensures (State(), reply) == Transact(old(State()), identity, requestHash, request)
      ensures !reply.Fresh? ==> State() == old(State())
      ensures reply.Fresh? ==>
                && request.decision.Applied? && reply.response == request.decision.response
                && effects == old(effects) + [identity.operationId]
                && rows == old(rows)[identity.keyHash :=
                             Row(requestHash, identity.operationId, request.kind, request.id, request.action, 1,
                                 reply.response, request.decision.auditId, request.decision.at)]
    {
      match LookupMutation(rows, identity.keyHash, requestHash)
      case Replay(row) => reply := Replayed(row.response);
      case Conflict => reply := KeyReused;
      case UnsupportedSchema(version) => reply := Unsupported;
      case Miss =>
        if request.decision.Refused? {
          reply := Declined;
          return;
        }
        var row := Row(requestHash, identity.operationId, request.kind, request.id, request.action,
                       SCHEMA_VERSION, request.decision.response, request.decision.auditId, request.decision.at);
        var before := effects;
        effects := effects + [identity.operationId];
        var ok := InsertMutation(identity.keyHash, row);
        if ok {
          reply := Fresh(request.decision.response);
        } else {
          effects := before;
          reply := LedgerFailed;
        }
    }
  }

  function Transact(s: Store, identity: Identity, requestHash: string, request: Request): (Store, Reply) {
    match LookupMutation(s.rows, identity.keyHash, requestHash)
    case Replay(row) => (s, Replayed(row.response))
    case Conflict => (s, KeyReused)
    case UnsupportedSchema(version) => (s, Unsupported)
    case Miss =>
      if request.decision.Refused? then (s, Declined)
      else
        var row := Row(requestHash, identity.operationId, request.kind, request.id, request.action,
                       SCHEMA_VERSION, request.decision.response, request.decision.auditId, request.decision.at);
        if CanInsert(s.rows, identity.keyHash, row)
        then (Store(s.rows[identity.keyHash := row], s.effects + [identity.operationId]),
          Fresh(request.decision.response))
        else (s, LedgerFailed)
  }

  ghost function Handle(s: Store, r: Request, hash: Digest): (Store, Reply) {
    match (ValidateKey(r.key, hash), RequestHash(r.kind, r.id, r.action, r.body, hash))
    case (Ok(identity), Ok(requestHash)) => Transact(s, identity, requestHash, r)
    case _ => (s, Invalid)
  }

  /** A request that names nothing the ledger could stand for: an unusable key, or no kind,
      no action or no positive id. */
  ghost predicate Unusable(r: Request) {
    || Trim(r.key) == "" || |Trim(r.key)| > 128
    || (exists c :: c in Trim(r.key) && c !in "._~-" && !('0' <= c <= '9' || 'A' <= c <= 'Z' || 'a' <= c <= 'z'))
    || r.kind == "" || r.action == "" || r.id <= 0
  }

  /** What one request does. It is refused as unusable before the ledger is read. Behind
      that, a key on record is answered from its row, which decides by request hash first
      and schema second; a key that is not is put to the decision, and only an applied one
      whose operation is not on record under another key is committed: exactly its
      operation is added to the effects and exactly one row to the ledger, which holds the
      request's kind, id and action and the decision's response, audit row and time. No
      other reply changes anything. */
  lemma HandleExactly(s: Store, r: Request, hash: Digest)
    ensures var (s', reply) := Handle(s, r, hash);
      && (reply.Invalid? <==> Unusable(r))
      && (!reply.Fresh? ==> s' == s)
    ensures !Unusable(r) ==>
      var (s', reply) := Handle(s, r, hash);
      var keyHash, operationId := hash(Trim(r.key)), "op_" + hash("remem-web-operation-v1\0" + Trim(r.key));
      var requestHash := hash(Canonical(Object(map["action" := Str(r.action), "body" := r.body,
        "resource_id" := Number(Decimal(r.id)), "resource_kind" := Str(r.kind)])));
      if keyHash in s.rows then
        var row := s.rows[keyHash];
        && (reply == KeyReused <==> row.requestHash != requestHash)
        && (reply == Unsupported <==> row.requestHash == requestHash && row.schemaVersion != 1)
        && (row.requestHash == requestHash && row.schemaVersion == 1 ==> reply == Replayed(row.response))
      else
        && (reply == Declined <==> r.decision.Refused?)
        && (reply == LedgerFailed
            <==> r.decision.Applied? && exists k :: k in s.rows && s.rows[k].operationId == operationId)
        && (r.decision.Applied? && reply != LedgerFailed ==>
              && reply == Fresh(r.decision.response)
              && s'.effects == s.effects + [operationId]
              && s'.rows == s.rows[keyHash := Row(requestHash, operationId, r.kind, r.id, r.action, 1,
                                                  r.decision.response, r.decision.auditId, r.decision.at)])
  {
    hide Canonical, Trim;
    assert forall c :: c in Trim(r.key) ==> exists i :: 0 <= i < |Trim(r.key)| && Trim(r.key)[i] == c;
  }

  ghost function After(s: Store, requests: seq<Request>, hash: Digest): Store
    decreases |requests|
  {
    if requests == [] then s else After(Handle(s, requests[0], hash).0, requests[1..], hash)
  }

  predicate SameRequest(a: Request, b: Request) {
    a.kind == b.kind && a.id == b.id && a.action == b.action && a.body == b.body
  }

  lemma {:induction false} RowsAreKept(s: Store, requests: seq<Request>, hash: Digest, keyHash: string)
    requires keyHash in s.rows
    ensures keyHash in After(s, requests, hash).rows && After(s, requests, hash).rows[keyHash] == s.rows[keyHash]
    decreases |requests|
  {
    hide Handle;
    if requests != [] {
      HandleKeeps(s, requests[0], hash, keyHash);
      RowsAreKept(Handle(s, requests[0], hash).0, requests[1..], hash, keyHash);
    }
  }

  lemma HandleKeeps(s: Store, r: Request, hash: Digest, keyHash: string)
    requires keyHash in s.rows
    ensures keyHash in Handle(s, r, hash).0.rows && Handle(s, r, hash).0.rows[keyHash] == s.rows[keyHash]
  {
    hide ValidateKey, RequestHash;
  }

  /** A mutation takes effect once per idempotency key. After it was applied, and after
      any other requests, the same key with the same request is answered from the ledger
      with the first response, with any other valid request it is refused, and in both
      cases nothing changes. */
  lemma AppliedOnce(s: Store, first: Request, between: seq<Request>, again: Request, hash: Digest)
    requires Injective(hash) && WellFormed(first.body) && WellFormed(again.body)
    requires Handle(s, first, hash).1.Fresh?
    requires IsValidKey(again.key) && Trim(again.key) == Trim(first.key)
    requires again.kind != "" && again.id > 0 && again.action != ""
    ensures var later := After(Handle(s, first, hash).0, between, hash);
      Handle(later, again, hash)
      == (later, if SameRequest(first, again) then Replayed(first.decision.response) else KeyReused)
  {
    hide Canonical, RequestValue, Trim, After, WellFormed, IsKeyChar;
    var now := Handle(s, first, hash).0;
    var keyHash := ValidateKey(first.key, hash).value.keyHash;
    RowsAreKept(now, between, hash, keyHash);
    IdentityBindsKey(first.key, again.key, hash);
    RequestHashBinds(first.kind, first.id, first.action, first.body, again.kind, again.id, again.action, again.body,
        hash);
  }

  /** Every row was written under the key whose hash it has: its operation id is that
      key's. */
  ghost predicate RowsMatchKeys(rows: Rows, hash: Digest) {
    forall k :: k in rows ==> exists key :: WrittenUnder(k, rows[k], key, hash)
  }

  ghost predicate WrittenUnder(keyHash: string, row: Row, key: string, hash: Digest) {
    IsValidKey(key) && ValidateKey(key, hash) == Ok(Identity(keyHash, row.operationId))
  }

  lemma OperationIsNew(rows: Rows, key: string, hash: Digest)
    requires Injective(hash) && RowsMatchKeys(rows, hash) && IsValidKey(key)
    ensures var id := ValidateKey(key, hash).value;
      forall k :: k in rows && k != id.keyHash ==> rows[k].operationId != id.operationId
  {
    hide IsValidKey;
    var id := ValidateKey(key, hash).value;
    forall k | k in rows && k != id.keyHash ensures rows[k].operationId != id.operationId {
      var other :| WrittenUnder(k, rows[k], other, hash);
      IdentityBindsKey(other, key, hash);
    }
  }

  lemma NewRowMatchesKey(rows: Rows, key: string, row: Row, hash: Digest)
    requires RowsMatchKeys(rows, hash) && IsValidKey(key)
    requires row.operationId == ValidateKey(key, hash).value.operationId
    ensures RowsMatchKeys(rows[ValidateKey(key, hash).value.keyHash := row], hash)
  {
    hide IsValidKey;
    var keyHash := ValidateKey(key, hash).value.keyHash;
    assert WrittenUnder(keyHash, row, key, hash);
    var rows' := rows[keyHash := row];
    forall k | k in rows' ensures exists other :: WrittenUnder(k, rows'[k], other, hash) {
      if k != keyHash {
        var other :| WrittenUnder(k, rows[k], other, hash);
        assert WrittenUnder(k, rows'[k], other, hash);
      }
    }
  }

  lemma HandleMatchesKeys(s: Store, r: Request, hash: Digest)
    requires Injective(hash) && RowsMatchKeys(s.rows, hash)
    ensures RowsMatchKeys(Handle(s, r, hash).0.rows, hash)
    ensures Handle(s, r, hash).1 != LedgerFailed
  {
    hide RequestHash, IsValidKey, RowsMatchKeys;
    if IsValidKey(r.key) {
      OperationIsNew(s.rows, r.key, hash);
      var (s', reply) := Handle(s, r, hash);
      var keyHash := ValidateKey(r.key, hash).value.keyHash;
      if reply.Fresh? { NewRowMatchesKey(s.rows, r.key, s'.rows[keyHash], hash); }
    }
  }

  /** In a store built by requests alone, an insert after a miss never fails: the two
      unique columns cannot disagree. */
  lemma {:induction false} InsertAfterMissSucceeds(s: Store, requests: seq<Request>, r: Request, hash: Digest)
    requires Injective(hash) && RowsMatchKeys(s.rows, hash)
    ensures Handle(After(s, requests, hash), r, hash).1 != LedgerFailed
    decreases |requests|
  {
    if requests == [] {
      HandleMatchesKeys(s, r, hash);
    } else {
      HandleMatchesKeys(s, requests[0], hash);
      InsertAfterMissSucceeds(Handle(s, requests[0], hash).0, requests[1..], r, hash);
    }
  }

  /** The effects are those on record: each row's operation is among them once, and each
      of them is some row's. */
  ghost predicate EffectsOnRecord(s: Store) {
    && (forall k :: k in s.rows ==> multiset(s.effects)[s.rows[k].operationId] == 1)
    && (forall id :: id in s.effects ==> exists k :: k in s.rows && s.rows[k].operationId == id)
  }

  lemma HandleKeepsRecord(s: Store, r: Request, hash: Digest)
    requires EffectsOnRecord(s)
    ensures EffectsOnRecord(Handle(s, r, hash).0)
  {
    hide RequestHash, Trim, IsValidKey;
    var (s', reply) := Handle(s, r, hash);
    if reply.Fresh? {
      var identity := ValidateKey(r.key, hash).value;
      var id := identity.operationId;
      assert s'.effects == s.effects + [id] && multiset(s'.effects) == multiset(s.effects) + multiset{id};
      assert id !in s.effects;
      assert s'.rows[identity.keyHash].operationId == id;
      forall other | other in s'.effects ensures exists k :: k in s'.rows && s'.rows[k].operationId == other {
        if other != id {
          var k :| k in s.rows && s.rows[k].operationId == other;
          assert s'.rows[k].operationId == other;
        }
      }
    }
  }

  lemma {:induction false} RunKeepsRecord(s: Store, requests: seq<Request>, hash: Digest)
    requires EffectsOnRecord(s)
    ensures EffectsOnRecord(After(s, requests, hash))
    decreases |requests|
  {
    hide EffectsOnRecord, Handle;
    if requests != [] {
      HandleKeepsRecord(s, requests[0], hash);
      RunKeepsRecord(Handle(s, requests[0], hash).0, requests[1..], hash);
    }
  }

  /** Whatever requests an empty store has seen, exactly the operations on record were
      made, and each once: nothing is answered as made that was not, and nothing made
      goes unrecorded. */
  lemma EffectsAreTheRecord(requests: seq<Request>, hash: Digest)
    ensures var s := After(Store(map[], []), requests, hash);
      && (forall k :: k in s.rows ==> multiset(s.effects)[s.rows[k].operationId] == 1)
      && (forall id :: id in s.effects ==> exists k :: k in s.rows && s.rows[k].operationId == id)
  {
    hide After;
    RunKeepsRecord(Store(map[], []), requests, hash);
  }
}
