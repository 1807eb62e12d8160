/** The overrides table and the operations that edit one override at a time. */
module OverrideTable {
  import opened Text
  import opened DomainScope

  type Id = nat

  datatype Row = Row(scopeType: string, scopeValue: string, action: string, reason: Option<string>,
                     createdBy: Option<string>, expiresAt: Option<int>, status: string,
                     createdAt: int, updatedAt: int)

  type Table = map<Id, Row>

  /** `status = 'active'`, as the SQL statements test it. */
  predicate IsActive(row: Row) {
    row.status == "active"
  }

  /** `status.eq_ignore_ascii_case("active")`, as the import tests it in Rust. */
  predicate IsActiveAnyCase(row: Row) {
    Lower(row.status) == "active"
  }

  predicate SameScope(a: Row, b: Row) {
    a.scopeType == b.scopeType && a.scopeValue == b.scopeValue
  }

  /** At most one active override per scope. */
  predicate OneActivePerScope(t: Table) {
    forall i, j :: i in t && j in t && IsActive(t[i]) && IsActive(t[j]) && SameScope(t[i], t[j]) ==> i == j
  }

  // ---------- payloads ----------

  datatype RawPayload = RawPayload(scopeType: string, scopeValue: string, action: string, reason: Option<string>,
                                   createdBy: Option<string>, expiresAt: Option<int>, status: Option<string>)

  datatype Payload = Payload(scopeType: string, scopeValue: string, action: string, reason: Option<string>,
                             createdBy: Option<string>, expiresAt: Option<int>, status: Option<string>)

  datatype ApiError = BadScopeType | BadScope(error: ScopeError) | BadAction | BadStatus | NotFound

  predicate IsAction(s: string) {
    s == "allow" || s == "block"
  }

  predicate IsStatus(s: string) {
    s == "active" || s == "inactive" || s == "expired" || s == "revoked"
  }

  function NormalizeOptional(value: Option<string>): Option<string> {
    if value.Some? && Trim(value.value) != "" then Some(Trim(value.value)) else None
  }

  /** A given text is kept without the white space around it, unless it is blank. */
  predicate KeepsText(stored: Option<string>, given: Option<string>) {
    && (stored.Some? <==> given.Some? && !IsBlank(given.value))
    && (stored.Some? ==> stored.value == Trim(given.value))
  }

  lemma NormalizeOptionalKeeps(given: Option<string>)
    ensures KeepsText(NormalizeOptional(given), given)
  {
    if given.Some? {
      BlankExactly(given.value);
    }
  }

  /** `validate_override_payload`, with the actor as the default creator. */
  function Validate(raw: RawPayload, actor: string): (r: Result<Payload, ApiError>)
    ensures r.Ok? ==> ValidPayload(r.value) && r.value.scopeValue == Lower(Trim(raw.scopeValue))
    ensures r.Ok? ==> r.value.action == Lower(Trim(raw.action)) && r.value.expiresAt == raw.expiresAt
    ensures r.Ok? ==> KeepsText(r.value.reason, raw.reason)
    ensures r.Ok? ==> KeepsText(r.value.createdBy, if raw.createdBy.Some? then raw.createdBy else Some(actor))
    ensures r.Ok? ==> (r.value.status.Some? <==> raw.status.Some?)
    ensures r.Ok? && raw.status.Some? ==> r.value.status == Some(Lower(Trim(raw.status.value)))
    ensures r.Ok? <==>
              && Lower(Trim(raw.scopeType)) == "domain" && IsNormal(Lower(Trim(raw.scopeValue)))
              && Lower(Trim(raw.action)) in {"allow", "block"}
              && (raw.status.Some? ==>
                    Lower(Trim(raw.status.value)) in {"active", "inactive", "expired", "revoked"})
    ensures r.Err? ==> match r.error
                       case BadScopeType => Lower(Trim(raw.scopeType)) != "domain"
                       case BadScope(_) => !IsNormal(Lower(Trim(raw.scopeValue)))
                       case BadAction => !IsAction(Lower(Trim(raw.action)))
                       case BadStatus => raw.status.Some? && !IsStatus(Lower(Trim(raw.status.value)))
                       case NotFound => false
  {
    NormalizeAcceptsExactly(raw.scopeValue);
    if Lower(Trim(raw.scopeType)) != "domain" then Err(BadScopeType)
    else if Normalize(raw.scopeValue).Err? then Err(BadScope(Normalize(raw.scopeValue).error))
    else if !IsAction(Lower(Trim(raw.action))) then Err(BadAction)
    else if raw.status.Some? && !IsStatus(Lower(Trim(raw.status.value))) then Err(BadStatus)
    else
      NormalizeIdempotent(raw.scopeValue);
      NormalizeOptionalKeeps(raw.reason);
      NormalizeOptionalKeeps(if raw.createdBy.Some? then raw.createdBy else Some(actor));
      Ok(Payload("domain", Normalize(raw.scopeValue).value, Lower(Trim(raw.action)), NormalizeOptional(raw.reason),
                 NormalizeOptional(if raw.createdBy.Some? then raw.createdBy else Some(actor)), raw.expiresAt,
                 if raw.status.Some? then Some(Lower(Trim(raw.status.value))) else None))
  }

  predicate ValidPayload(p: Payload) {
    && p.scopeType == "domain"
    && IsNormal(p.scopeValue)
    && IsAction(p.action)
    && (p.status.Some? ==> IsStatus(p.status.value))
  }

  // ---------- what create, update and delete do to the table ----------

  /** `SET status = 'revoked', updated_at = NOW() WHERE id = ANY(ids)` */
  function Revoke(t: Table, ids: set<Id>, now: int): Table {
    map id | id in t :: if id in ids then t[id].(status := "revoked", updatedAt := now) else t[id]
  }

  function NewRow(p: Payload, status: string, now: int): Row {
    Row(p.scopeType, p.scopeValue, p.action, p.reason, p.createdBy, p.expiresAt, status, now, now)
  }

  /** The active rows of one scope, newest first, as a query lists them. */
  ghost predicate ListsActive(t: Table, scopeType: string, scopeValue: string, listed: seq<Id>) {
    && (forall i, j :: 0 <= i < j < |listed| ==> listed[i] != listed[j])
    && (forall id :: id in listed <==>
                     id in t && IsActive(t[id]) && t[id].scopeType == scopeType && t[id].scopeValue == scopeValue)
    && NewestFirst(t, listed)
  }

  /** `ORDER BY updated_at DESC, created_at DESC, id DESC` */
  predicate Newer(t: Table, a: Id, b: Id)
    requires a in t && b in t
  {
    || t[a].updatedAt > t[b].updatedAt
    || (t[a].updatedAt == t[b].updatedAt && t[a].createdAt > t[b].createdAt)
    || (t[a].updatedAt == t[b].updatedAt && t[a].createdAt == t[b].createdAt && a > b)
  }

  /** The order of the queries is total and strict, so the newest row is always one row. */
  lemma NewerIsStrictOrder(t: Table, a: Id, b: Id, c: Id)
    requires a in t && b in t && c in t
    ensures !Newer(t, a, a) && (a != b ==> Newer(t, a, b) != Newer(t, b, a))
    ensures Newer(t, a, b) && Newer(t, b, c) ==> Newer(t, a, c)
    ensures t[a].updatedAt > t[b].updatedAt ==> Newer(t, a, b)
  {
  }

  predicate NewestFirst(t: Table, listed: seq<Id>) {
    && (forall i :: 0 <= i < |listed| ==> listed[i] in t)
    && (forall i, j :: 0 <= i < j < |listed| && SameScope(t[listed[i]], t[listed[j]]) ==>
        Newer(t, listed[i], listed[j]))
  }

  /** `create_override`: an active payload takes over the newest active row of its scope and
      revokes the other ones; anything else is inserted. */
  function Created(t: Table, p: Payload, listed: seq<Id>, newId: Id, now: int): Table {
    var status := if p.status.Some? then p.status.value else "active";
    if Lower(status) == "active" && listed != [] then
      var t' := Revoke(t, (set id | id in listed[1..]), now);
      if listed[0] in t' then
        t'[listed[0] := t'[listed[0]].(action := p.action, reason := p.reason, createdBy := p.createdBy,
                                       expiresAt := p.expiresAt, status := status, updatedAt := now)]
      else t'
    else
      t[newId := NewRow(p, status, now)]
  }

  /** The row `create_override` returns. */
  function CreatedId(p: Payload, listed: seq<Id>, newId: Id): Id {
    var status := if p.status.Some? then p.status.value else "active";
    if Lower(status) == "active" && listed != [] then listed[0] else newId
  }

  function Rivals(t: Table, scopeType: string, scopeValue: string, id: Id): set<Id> {
    set other | other in t && t[other].scopeType == scopeType && t[other].scopeValue == scopeValue
                && IsActive(t[other]) && other != id
  }

  /** `update_override`: the row moves to the payload's scope; if it is active there, the other
      active rows of that scope are revoked. */
  function Updated(t: Table, id: Id, p: Payload, now: int): Table {
    if id !in t then t
    else
      var status := if p.status.Some? then p.status.value else t[id].status;
      var t' := if Lower(status) == "active" then Revoke(t, Rivals(t, p.scopeType, p.scopeValue, id), now) else t;
      t'[id := Row(p.scopeType, p.scopeValue, p.action, p.reason, p.createdBy, p.expiresAt, status, t[id].createdAt,
                   now)]
  }

  function Deleted(t: Table, id: Id): Table {
    t - {id}
  }

  /** `override_invalidation_scopes`: the cached scopes an update makes stale. */
  function InvalidationScopes(previous: Row, updated: Row): seq<(string, string)> {
    [(previous.scopeType, previous.scopeValue)] +
    if SameScope(previous, updated) then [] else [(updated.scopeType, updated.scopeValue)]
  }

  // ---------- the invariant the operations keep ----------

  predicate ValidRow(row: Row) {
    row.scopeType == "domain" && IsStatus(row.status) && IsNormal(row.scopeValue) && IsAction(row.action)
  }

  /** What holds of every table reached through the API. */
  predicate WellFormed(t: Table) {
    && (forall id :: id in t ==> ValidRow(t[id]))
    && OneActivePerScope(t)
  }

  lemma StatusCase(status: string)
    requires IsStatus(status)
    ensures Lower(status) == "active" <==> status == "active"
  {
    assert forall i :: 0 <= i < |status| ==> Lower(status)[i] == status[i];
    assert Lower(status) == status;
  }

  /** Revoking only takes rows out of the active ones. */
  lemma RevokeMeaning(t: Table, ids: set<Id>, now: int)
    ensures var t' := Revoke(t, ids, now);
            && t'.Keys == t.Keys
            && (forall id :: id in t ==> SameScope(t'[id], t[id]) && t'[id].action == t[id].action)
            && (forall id :: id in t ==> (IsActive(t'[id]) <==> IsActive(t[id]) && id !in ids))
            && (forall id :: id in t && id !in ids ==> t'[id] == t[id])
  {
    assert "revoked"[0] != "active"[0];
  }

  lemma RevokeKeepsValidRows(t: Table, ids: set<Id>, now: int)
    requires forall id :: id in t ==> ValidRow(t[id])
    ensures forall id :: id in Revoke(t, ids, now) ==> ValidRow(Revoke(t, ids, now)[id])
  {
    var t' := Revoke(t, ids, now);
    forall id | id in t' ensures ValidRow(t'[id]) {
      assert ValidRow(t[id]);
    }
  }

  /** Writing one row keeps uniqueness if no other active row shares its scope. */
  lemma WriteKeepsOneActive(t: Table, id: Id, row: Row)
    requires OneActivePerScope(t)
    requires IsActive(row) ==> forall other :: other in t && other != id && IsActive(t[other]) ==>
                 !SameScope(t[other], row)
    ensures OneActivePerScope(t[id := row])
  {
  }

  lemma RevokeKeepsOneActive(t: Table, ids: set<Id>, now: int)
    requires OneActivePerScope(t)
    ensures OneActivePerScope(Revoke(t, ids, now))
  {
    RevokeMeaning(t, ids, now);
  }

  lemma CreateKeepsWellFormed(t: Table, p: Payload, listed: seq<Id>, newId: Id, now: int)
    requires WellFormed(t) && ValidPayload(p) && newId !in t
    requires ListsActive(t, p.scopeType, p.scopeValue, listed)
    ensures WellFormed(Created(t, p, listed, newId, now))
  {
    var status := if p.status.Some? then p.status.value else "active";
    StatusCase(status);
    if status == "active" && listed != [] {
      TakeoverKeepsWellFormed(t, p, listed, newId, now);
    } else {
      InsertKeepsWellFormed(t, p, listed, newId, status, now);
    }
  }

  lemma TakeoverKeepsWellFormed(t: Table, p: Payload, listed: seq<Id>, newId: Id, now: int)
    requires WellFormed(t) && ValidPayload(p)
    requires ListsActive(t, p.scopeType, p.scopeValue, listed) && listed != []
    requires p.status.None? || p.status.value == "active"
    ensures WellFormed(Created(t, p, listed, newId, now))
  {
    StatusCase("active");
    var id, others := listed[0], set id | id in listed[1..];
    var t' := Revoke(t, others, now);
    RevokeMeaning(t, others, now);
    RevokeKeepsValidRows(t, others, now);
    RevokeKeepsOneActive(t, others, now);
    assert id in listed;
    var row := Created(t, p, listed, newId, now)[id];
    assert ValidRow(t'[id]) && ValidRow(row);
    WriteKeepsOneActive(t', id, row);
  }

  lemma InsertKeepsWellFormed(t: Table, p: Payload, listed: seq<Id>, newId: Id, status: string, now: int)
    requires WellFormed(t) && ValidPayload(p) && newId !in t && IsStatus(status)
    requires ListsActive(t, p.scopeType, p.scopeValue, listed) && (status == "active" ==> listed == [])
    ensures WellFormed(t[newId := NewRow(p, status, now)])
  {
    var row := NewRow(p, status, now);
    assert ValidRow(row);
    forall other | other in t && IsActive(row) && IsActive(t[other]) ensures !SameScope(t[other], row) {
      assert other !in listed;
    }
    WriteKeepsOneActive(t, newId, row);
  }

  /** From any table, an active create leaves exactly one active override on its scope. */
  lemma CreateRepairsScope(t: Table, p: Payload, listed: seq<Id>, newId: Id, now: int)
    requires ValidPayload(p) && newId !in t
    requires ListsActive(t, p.scopeType, p.scopeValue, listed)
    requires p.status.None? || p.status.value == "active"
    ensures var t', id := Created(t, p, listed, newId, now), CreatedId(p, listed, newId);
            && id in t' && IsActive(t'[id]) && t'[id].scopeType == p.scopeType && t'[id].scopeValue == p.scopeValue
            && t'[id].action == p.action
            && (forall other :: other in t' && IsActive(t'[other]) && SameScope(t'[other], t'[id]) ==> other == id)
            && (forall other :: other in t && !SameScope(t[other], t'[id]) ==> other in t' && t'[other] == t[other])
  {
    StatusCase("active");
    if listed != [] {
      assert listed[0] in listed;
      assert listed == [listed[0]] + listed[1..];
      forall id | id in listed ensures id == listed[0] || id in listed[1..] {
      }
    }
  }

  lemma UpdateKeepsWellFormed(t: Table, id: Id, p: Payload, now: int)
    requires WellFormed(t) && ValidPayload(p)
    ensures WellFormed(Updated(t, id, p, now))
  {
    if id in t {
      var status := if p.status.Some? then p.status.value else t[id].status;
      assert ValidRow(t[id]);
      StatusCase(status);
      var rivals := Rivals(t, p.scopeType, p.scopeValue, id);
      var t' := if status == "active" then Revoke(t, rivals, now) else t;
      RevokeMeaning(t, rivals, now);
      RevokeKeepsValidRows(t, rivals, now);
      RevokeKeepsOneActive(t, rivals, now);
      var row := Updated(t, id, p, now)[id];
      assert ValidRow(row);
      WriteKeepsOneActive(t', id, row);
    }
  }

  // ---------- what each operation leaves ----------

  /** The row says what the payload says. */
  predicate Carries(row: Row, p: Payload) {
    && row.scopeType == p.scopeType && row.scopeValue == p.scopeValue && row.action == p.action
    && row.reason == p.reason && row.createdBy == p.createdBy && row.expiresAt == p.expiresAt
    && (p.status.Some? ==> row.status == p.status.value)
  }

  /** A rival of an active row is revoked; any other row stays as it was. */
  predicate OtherRow(before: Row, after: Row, written: Row, now: int) {
    if IsActiveAnyCase(written) && IsActive(before) && SameScope(before, written)
    then after == before.(status := "revoked", updatedAt := now)
    else after == before
  }

  ghost predicate OthersFollow(t: Table, t': Table, id: Id, now: int) {
    id in t' && forall other :: other in t && other != id ==> other in t' && OtherRow(t[other], t'[other], t'[id], now)
  }

  /** After an update the row carries the payload, with its old status if none is given and its old creation time;
      the other active rows of its scope are revoked if it is active, and every other row is untouched. */
  lemma UpdateMeaning(t: Table, id: Id, p: Payload, now: int)
    requires id in t
    ensures var t' := Updated(t, id, p, now);
            && t'.Keys == t.Keys && Carries(t'[id], p) && OthersFollow(t, t', id, now)
            && (p.status.None? ==> t'[id].status == t[id].status)
            && t'[id].createdAt == t[id].createdAt && t'[id].updatedAt == now
  {
    var status := if p.status.Some? then p.status.value else t[id].status;
    var t' := Updated(t, id, p, now);
    forall other | other in t && other != id ensures OtherRow(t[other], t'[other], t'[id], now) {
    }
  }

  /** A create takes over the newest active row of its scope if it is active and there is one, and else adds a row.
      Either way that row carries the payload, active if no status is given; the other active rows of the scope are
      revoked if it is active, and every other row is untouched. */
  lemma CreateMeaning(t: Table, p: Payload, listed: seq<Id>, newId: Id, now: int)
    requires newId !in t && ListsActive(t, p.scopeType, p.scopeValue, listed)
    ensures var t', id := Created(t, p, listed, newId, now), CreatedId(p, listed, newId);
            && t'.Keys == t.Keys + {id} && Carries(t'[id], p) && OthersFollow(t, t', id, now)
            && (p.status.None? ==> t'[id].status == "active")
            && (id == newId <==> !IsActiveAnyCase(t'[id]) || listed == [])
            && (id != newId ==> id in t && IsActive(t[id]) && SameScope(t[id], t'[id]) && NewestActive(t, id))
            && t'[id].createdAt == (if id == newId then now else t[id].createdAt) && t'[id].updatedAt == now
  {
    assert Lower("active") == "active";
    if CreatedId(p, listed, newId) != newId {
      TakeoverMeaning(t, p, listed, newId, now);
    } else {
      InsertMeaning(t, p, listed, newId, now);
    }
  }

  /** No other active row of the scope is newer. */
  ghost predicate NewestActive(t: Table, id: Id) {
    && id in t
    && forall other :: other in t && other != id && IsActive(t[other]) && SameScope(t[other], t[id]) ==>
         Newer(t, id, other)
  }

  lemma FirstIsNewest(t: Table, scopeType: string, scopeValue: string, listed: seq<Id>)
    requires ListsActive(t, scopeType, scopeValue, listed) && listed != []
    ensures listed[0] in t && IsActive(t[listed[0]]) && NewestActive(t, listed[0])
    ensures t[listed[0]].scopeType == scopeType && t[listed[0]].scopeValue == scopeValue
  {
    var id := listed[0];
    assert id in listed;
    forall other | other in t && other != id && IsActive(t[other]) && SameScope(t[other], t[id])
      ensures Newer(t, id, other)
    {
      assert other in listed;
      var k :| 0 <= k < |listed| && listed[k] == other;
      assert k > 0;
    }
  }

  lemma TakeoverMeaning(t: Table, p: Payload, listed: seq<Id>, newId: Id, now: int)
    requires newId !in t && ListsActive(t, p.scopeType, p.scopeValue, listed) && CreatedId(p, listed, newId) != newId
    ensures var t', id := Created(t, p, listed, newId, now), CreatedId(p, listed, newId);
            && t'.Keys == t.Keys && Carries(t'[id], p) && OthersFollow(t, t', id, now)
            && (p.status.None? ==> t'[id].status == "active") && IsActiveAnyCase(t'[id])
            && id in t && IsActive(t[id]) && SameScope(t[id], t'[id]) && NewestActive(t, id)
            && t'[id].createdAt == t[id].createdAt && t'[id].updatedAt == now
  {
    FirstIsNewest(t, p.scopeType, p.scopeValue, listed);
    var t', id := Created(t, p, listed, newId, now), listed[0];
    forall other | other in t && other != id ensures other in t' && OtherRow(t[other], t'[other], t'[id], now) {
      ListedIsFirstOrRest(listed, other);
    }
  }

  lemma ListedIsFirstOrRest(listed: seq<Id>, id: Id)
    requires listed != []
    ensures id in listed <==> id == listed[0] || id in listed[1..]
  {
    assert listed == [listed[0]] + listed[1..];
  }

  lemma InsertMeaning(t: Table, p: Payload, listed: seq<Id>, newId: Id, now: int)
    requires newId !in t && ListsActive(t, p.scopeType, p.scopeValue, listed) && CreatedId(p, listed, newId) == newId
    ensures var t' := Created(t, p, listed, newId, now);
            && t'.Keys == t.Keys + {newId} && Carries(t'[newId], p) && OthersFollow(t, t', newId, now)
            && (p.status.None? ==> t'[newId].status == "active")
            && (!IsActiveAnyCase(t'[newId]) || listed == [])
            && t'[newId].createdAt == now && t'[newId].updatedAt == now
  {
    var t' := Created(t, p, listed, newId, now);
    assert listed != [] ==> listed[0] in listed;
    forall other | other in t && other != newId
      ensures other in t' && OtherRow(t[other], t'[other], t'[newId], now)
    {
      assert listed == [] ==> other !in listed;
    }
  }

  /** A delete takes this row and no other. */
  lemma DeleteMeaning(t: Table, id: Id)
    ensures Deleted(t, id).Keys == t.Keys - {id}
    ensures forall other :: other in t && other != id ==> Deleted(t, id)[other] == t[other]
  {
  }

  /** The row decides about its scope. */
  predicate DecidesOn(t: Table, id: Id, scopeType: string, scopeValue: string) {
    id in t && IsActive(t[id]) && t[id].scopeType == scopeType && t[id].scopeValue == scopeValue
  }

  /** The cached scopes that an update drops include every scope on which a deciding row appears, goes or changes. */
  lemma UpdateInvalidatesChangedScopes(t: Table, id: Id, p: Payload, now: int, other: Id, scopeType: string,
                                       scopeValue: string)
    requires id in t
    requires var t' := Updated(t, id, p, now);
             || DecidesOn(t, other, scopeType, scopeValue) != DecidesOn(t', other, scopeType, scopeValue)
             || (DecidesOn(t, other, scopeType, scopeValue) && t[other] != t'[other])
    ensures (scopeType, scopeValue) in InvalidationScopes(t[id], Updated(t, id, p, now)[id])
  {
    UpdateMeaning(t, id, p, now);
    var t' := Updated(t, id, p, now);
    if other in t && other != id {
      assert OtherRow(t[other], t'[other], t'[id], now);
      assert "revoked"[0] != "active"[0];
    }
  }

  lemma DeleteKeepsWellFormed(t: Table, id: Id)
    requires WellFormed(t)
    ensures WellFormed(Deleted(t, id))
  {
  }
}
