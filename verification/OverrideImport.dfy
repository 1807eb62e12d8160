/** Merge and replace import of override scopes: the index over the existing rows, duplicate repair,
    the upsert of each scope, the deletion of stale rows, and the counters of a dry run. */
module OverrideImport {
  import opened Text
  import opened DomainScope
  import opened OverrideExchange
  import opened OverrideTable

  datatype Mode = Merge | Replace

  datatype Counters = Counters(imported: nat, updated: nat, deleted: nat, skipped: nat)

  datatype Index = Index(active: map<string, (Id, string)>, latest: map<(string, string), Id>,
                         byAction: map<string, set<string>>, duplicates: seq<Id>)

  /** The domain rows as the import's query lists them: each once, newest first within a scope. */
  ghost predicate Lists(t: Table, listed: seq<Id>) {
    && Distinct(listed)
    && (forall id :: id in listed <==> id in t && t[id].scopeType == "domain")
    && NewestFirst(t, listed)
  }

  // ---------- the index ----------

  function IndexRow(ix: Index, id: Id, row: Row): Index {
    var key := (row.scopeValue, row.action);
    var latest := if key in ix.latest then ix.latest else ix.latest[key := id];
    if !IsActiveAnyCase(row) then ix.(latest := latest)
    else if row.scopeValue in ix.active then ix.(latest := latest, duplicates := ix.duplicates + [id])
    else
      var scopes := (if row.action in ix.byAction then ix.byAction[row.action] else {}) + {row.scopeValue};
      Index(ix.active[row.scopeValue := (id, row.action)], latest, ix.byAction[row.action := scopes], ix.duplicates)
  }

  function IndexOf(t: Table, listed: seq<Id>): Index
    requires forall i :: 0 <= i < |listed| ==> listed[i] in t
  {
    if listed == [] then Index(map[], map[], map[], [])
    else
      var last := |listed| - 1;
      IndexRow(IndexOf(t, listed[..last]), listed[last], t[listed[last]])
  }

  predicate HoldsScope(t: Table, id: Id, scope: string) {
    id in t && t[id].scopeValue == scope
  }

  /** A listed row that the import regards as active on this scope. */
  predicate Holds(t: Table, listed: seq<Id>, id: Id, scope: string) {
    id in listed && HoldsScope(t, id, scope) && IsActiveAnyCase(t[id])
  }

  /** `active` names one active row of each scope that has any, and `duplicates` all its others. */
  ghost predicate ActiveMeaning(t: Table, listed: seq<Id>, ix: Index) {
    && (forall scope :: scope in ix.active ==>
          Holds(t, listed, ix.active[scope].0, scope) && t[ix.active[scope].0].action == ix.active[scope].1)
    && (forall id, scope :: Holds(t, listed, id, scope) ==> scope in ix.active)
    && (forall id :: id in ix.duplicates <==>
          id in t && Holds(t, listed, id, t[id].scopeValue) && id != ix.active[t[id].scopeValue].0)
  }

  /** `latest` names one row of each scope and action that has any. */
  ghost predicate LatestMeaning(t: Table, listed: seq<Id>, ix: Index) {
    && (forall key :: key in ix.latest ==>
          ix.latest[key] in listed && HoldsScope(t, ix.latest[key], key.0) && t[ix.latest[key]].action == key.1)
    && (forall id :: id in listed && id in t ==> (t[id].scopeValue, t[id].action) in ix.latest)
  }

  predicate InByAction(ix: Index, action: string, scope: string) {
    action in ix.byAction && scope in ix.byAction[action]
  }

  ghost predicate ByActionMeaning(ix: Index) {
    forall action, scope :: InByAction(ix, action, scope) <==> scope in ix.active && ix.active[scope].1 == action
  }

  lemma IndexRowActive(t: Table, before: seq<Id>, ix: Index, id: Id)
    requires ActiveMeaning(t, before, ix) && id in t && id !in before
    ensures ActiveMeaning(t, before + [id], IndexRow(ix, id, t[id]))
  {
    var listed, ix', row := before + [id], IndexRow(ix, id, t[id]), t[id];
    forall other, scope
      ensures Holds(t, listed, other, scope) <==>
              Holds(t, before, other, scope) || (other == id && scope == row.scopeValue && IsActiveAnyCase(row))
    {
    }
    forall other, scope | Holds(t, listed, other, scope) ensures scope in ix'.active {
      assert Holds(t, before, other, scope) ==> scope in ix.active;
    }
  }

  lemma {:induction false} IndexActive(t: Table, listed: seq<Id>)
    requires Distinct(listed) && forall i :: 0 <= i < |listed| ==> listed[i] in t
    ensures ActiveMeaning(t, listed, IndexOf(t, listed))
  {
    if listed != [] {
      var last := |listed| - 1;
      var before, id := listed[..last], listed[last];
      IndexActive(t, before);
      assert listed == before + [id];
      IndexRowActive(t, before, IndexOf(t, before), id);
    }
  }

  lemma {:induction false} IndexLatest(t: Table, listed: seq<Id>)
    requires forall i :: 0 <= i < |listed| ==> listed[i] in t
    ensures LatestMeaning(t, listed, IndexOf(t, listed))
  {
    if listed != [] {
      var last := |listed| - 1;
      var before, id := listed[..last], listed[last];
      IndexLatest(t, before);
      assert listed == before + [id];
      IndexRowLatest(t, before, IndexOf(t, before), id);
    }
  }

  lemma IndexRowLatest(t: Table, before: seq<Id>, ix: Index, id: Id)
    requires LatestMeaning(t, before, ix) && id in t
    ensures LatestMeaning(t, before + [id], IndexRow(ix, id, t[id]))
  {
    var key := (t[id].scopeValue, t[id].action);
    assert IndexRow(ix, id, t[id]).latest == if key in ix.latest then ix.latest else ix.latest[key := id];
  }

  lemma IndexRowByAction(ix: Index, id: Id, row: Row)
    requires ByActionMeaning(ix)
    ensures ByActionMeaning(IndexRow(ix, id, row))
  {
    var ix' := IndexRow(ix, id, row);
    forall action, scope
      ensures InByAction(ix', action, scope) <==> scope in ix'.active && ix'.active[scope].1 == action
    {
      assert InByAction(ix, action, scope) <==> scope in ix.active && ix.active[scope].1 == action;
    }
  }

  lemma {:induction false} IndexByAction(t: Table, listed: seq<Id>)
    requires forall i :: 0 <= i < |listed| ==> listed[i] in t
    ensures ByActionMeaning(IndexOf(t, listed))
  {
    if listed != [] {
      var last := |listed| - 1;
      IndexByAction(t, listed[..last]);
      IndexRowByAction(IndexOf(t, listed[..last]), listed[last], t[listed[last]]);
    }
  }

  lemma LastIsOlder(t: Table, listed: seq<Id>, other: Id)
    requires listed != [] && NewestFirst(t, listed) && other in listed && other != listed[|listed| - 1]
    requires forall i :: 0 <= i < |listed| ==> listed[i] in t && t[listed[i]].scopeType == "domain"
    requires t[other].scopeValue == t[listed[|listed| - 1]].scopeValue
    ensures Newer(t, other, listed[|listed| - 1])
  {
    var k :| 0 <= k < |listed| && listed[k] == other;
  }

  /** Of several active rows of a scope, the import keeps the newest. */
  lemma {:induction false} IndexKeepsNewest(t: Table, listed: seq<Id>)
    requires Distinct(listed) && NewestFirst(t, listed)
    requires forall i :: 0 <= i < |listed| ==> listed[i] in t && t[listed[i]].scopeType == "domain"
    ensures ActiveMeaning(t, listed, IndexOf(t, listed)) && KeptAreNewest(t, IndexOf(t, listed))
  {
    IndexActive(t, listed);
    if listed != [] {
      var last := |listed| - 1;
      IndexKeepsNewest(t, listed[..last]);
      IndexRowKeepsNewest(t, listed, IndexOf(t, listed[..last]));
    }
  }

  /** Every other row of the scope and action is older than the one `latest` names. */
  ghost predicate LatestAreNewest(t: Table, listed: seq<Id>, ix: Index) {
    forall id :: id in listed && id in t && (t[id].scopeValue, t[id].action) in ix.latest ==>
      var kept := ix.latest[(t[id].scopeValue, t[id].action)];
      kept in t && (kept == id || Newer(t, kept, id))
  }

  lemma {:induction false} LatestKeepsNewest(t: Table, listed: seq<Id>)
    requires Distinct(listed) && NewestFirst(t, listed)
    requires forall i :: 0 <= i < |listed| ==> listed[i] in t && t[listed[i]].scopeType == "domain"
    ensures LatestMeaning(t, listed, IndexOf(t, listed)) && LatestAreNewest(t, listed, IndexOf(t, listed))
  {
    IndexLatest(t, listed);
    if listed != [] {
      var last := |listed| - 1;
      LatestKeepsNewest(t, listed[..last]);
      LatestRowNewest(t, listed, IndexOf(t, listed[..last]));
    }
  }

  lemma LatestRowNewest(t: Table, listed: seq<Id>, ix: Index)
    requires listed != [] && NewestFirst(t, listed)
    requires forall i :: 0 <= i < |listed| ==> listed[i] in t && t[listed[i]].scopeType == "domain"
    requires var before := listed[..|listed| - 1]; LatestMeaning(t, before, ix) && LatestAreNewest(t, before, ix)
    ensures var id := listed[|listed| - 1]; LatestAreNewest(t, listed, IndexRow(ix, id, t[id]))
  {
    var id, before := listed[|listed| - 1], listed[..|listed| - 1];
    assert listed == before + [id];
    var key := (t[id].scopeValue, t[id].action);
    assert IndexRow(ix, id, t[id]).latest == if key in ix.latest then ix.latest else ix.latest[key := id];
    if key in ix.latest && ix.latest[key] != id {
      assert ix.latest[key] in before;
      LastIsOlder(t, listed, ix.latest[key]);
    }
  }

  /** Every duplicate is older than the row kept for its scope. */
  ghost predicate KeptAreNewest(t: Table, ix: Index) {
    forall id :: id in ix.duplicates ==>
      && id in t && t[id].scopeValue in ix.active && ix.active[t[id].scopeValue].0 in t
      && Newer(t, ix.active[t[id].scopeValue].0, id)
  }

  lemma IndexRowKeepsNewest(t: Table, listed: seq<Id>, ix: Index)
    requires listed != [] && NewestFirst(t, listed) && KeptAreNewest(t, ix)
    requires forall i :: 0 <= i < |listed| ==> listed[i] in t && t[listed[i]].scopeType == "domain"
    requires var id := listed[|listed| - 1]; ActiveMeaning(t, listed, IndexRow(ix, id, t[id]))
    ensures var id := listed[|listed| - 1]; KeptAreNewest(t, IndexRow(ix, id, t[id]))
  {
    var id := listed[|listed| - 1];
    var ix' := IndexRow(ix, id, t[id]);
    if id in ix'.duplicates {
      var primary := ix'.active[t[id].scopeValue].0;
      assert Holds(t, listed, primary, t[id].scopeValue);
      LastIsOlder(t, listed, primary);
    }
  }

  // ---------- the upsert of each scope ----------

  datatype Edit = Edit(action: string, actor: string, now: int)

  const REASON := "Imported via Allow / Deny Exchange"

  predicate Known(ix: Index, scope: string, action: string) {
    scope in ix.active || (scope, action) in ix.latest
  }

  /** The row an import writes for a scope: its active row, else its latest row of this action,
      else a new one. */
  function Target(ix: Index, scope: string, action: string, newId: Id): Id {
    if scope in ix.active then ix.active[scope].0
    else if (scope, action) in ix.latest then ix.latest[(scope, action)]
    else newId
  }

  function Imported(row: Row, e: Edit): Row {
    row.(action := e.action, reason := Some(REASON), createdBy := Some(e.actor), expiresAt := None,
         status := "active", updatedAt := e.now)
  }

  function Upsert(t: Table, ix: Index, scope: string, e: Edit, newId: Id): Table {
    if Known(ix, scope, e.action) then
      var id := Target(ix, scope, e.action, newId);
      if id in t then t[id := Imported(t[id], e)] else t
    else
      t[newId := Row("domain", scope, e.action, Some(REASON), Some(e.actor), None, "active", e.now, e.now)]
  }

  function UpsertAll(t: Table, ix: Index, scopes: seq<string>, e: Edit, newIds: seq<Id>): Table
    requires |newIds| == |scopes|
  {
    if scopes == [] then t
    else
      var last := |scopes| - 1;
      Upsert(UpsertAll(t, ix, scopes[..last], e, newIds[..last]), ix, scopes[last], e, newIds[last])
  }

  predicate IsTarget(ix: Index, scopes: seq<string>, e: Edit, newIds: seq<Id>, id: Id)
    requires |newIds| == |scopes|
  {
    exists i :: 0 <= i < |scopes| && Target(ix, scopes[i], e.action, newIds[i]) == id
  }

  /** What the index and the new ids must be for the upserts to hit one row per scope. */
  ghost predicate Ready(t: Table, listed: seq<Id>, ix: Index, scopes: seq<string>, newIds: seq<Id>) {
    && |newIds| == |scopes|
    && Distinct(scopes) && Distinct(newIds)
    && (forall i :: 0 <= i < |newIds| ==> newIds[i] !in t)
    && (forall id :: id in listed <==> id in t && t[id].scopeType == "domain")
    && ActiveMeaning(t, listed, ix) && LatestMeaning(t, listed, ix)
  }

  /** A known scope's target is one of its own rows, so targets of different scopes differ. */
  lemma TargetScope(t: Table, listed: seq<Id>, ix: Index, scope: string, action: string, newId: Id)
    requires ActiveMeaning(t, listed, ix) && LatestMeaning(t, listed, ix)
    requires Known(ix, scope, action)
    ensures Target(ix, scope, action, newId) in listed && HoldsScope(t, Target(ix, scope, action, newId), scope)
  {
    if scope in ix.active {
      assert Holds(t, listed, ix.active[scope].0, scope);
    } else {
      assert HoldsScope(t, ix.latest[(scope, action)], scope);
    }
  }

  lemma TargetsDiffer(t: Table, listed: seq<Id>, ix: Index, scopes: seq<string>, action: string, newIds: seq<Id>,
                      i: nat, j: nat)
    requires Ready(t, listed, ix, scopes, newIds) && i < j < |scopes|
    ensures Target(ix, scopes[i], action, newIds[i]) != Target(ix, scopes[j], action, newIds[j])
  {
    if Known(ix, scopes[i], action) {
      TargetScope(t, listed, ix, scopes[i], action, newIds[i]);
    }
    if Known(ix, scopes[j], action) {
      TargetScope(t, listed, ix, scopes[j], action, newIds[j]);
    }
  }

  /** The row of a scope after the import. */
  predicate IsImported(t: Table, id: Id, scope: string, e: Edit) {
    && id in t && t[id].scopeType == "domain" && t[id].scopeValue == scope
    && t[id].action == e.action && IsActive(t[id]) && t[id].updatedAt == e.now
    && t[id].reason == Some(REASON) && t[id].createdBy == Some(e.actor) && t[id].expiresAt == None
  }

  /** One more upsert writes its own target and nothing else. */
  lemma UpsertMeaning(t: Table, base: Table, listed: seq<Id>, ix: Index, before: Table, scope: string, e: Edit,
                      newId: Id)
    requires ActiveMeaning(t, listed, ix) && LatestMeaning(t, listed, ix)
    requires forall id :: id in listed <==> id in t && t[id].scopeType == "domain"
    requires base.Keys == t.Keys && forall id :: id in t ==> SameScope(base[id], t[id])
    requires base.Keys <= before.Keys
    requires var id := Target(ix, scope, e.action, newId); id in base ==> before[id] == base[id]
    ensures var id, after := Target(ix, scope, e.action, newId), Upsert(before, ix, scope, e, newId);
            && IsImported(after, id, scope, e)
            && after.Keys == before.Keys + {id}
            && forall other :: other in before && other != id ==> after[other] == before[other]
  {
    if Known(ix, scope, e.action) {
      TargetScope(t, listed, ix, scope, e.action, newId);
    }
  }

  /** The upserts write one row per scope and leave every other row as it was. */
  lemma {:induction false} UpsertAllMeaning(t: Table, base: Table, listed: seq<Id>, ix: Index, scopes: seq<string>,
                                            e: Edit, newIds: seq<Id>)
    requires Ready(t, listed, ix, scopes, newIds)
    requires base.Keys == t.Keys && forall id :: id in t ==> SameScope(base[id], t[id])
    ensures var t' := UpsertAll(base, ix, scopes, e, newIds);
            && base.Keys <= t'.Keys
            && (forall i :: 0 <= i < |scopes| ==>
                IsImported(t', Target(ix, scopes[i], e.action, newIds[i]), scopes[i], e))
            && (forall id :: id in t' && !IsTarget(ix, scopes, e, newIds, id) ==> id in base && t'[id] == base[id])
  {
    if scopes != [] {
      var last := |scopes| - 1;
      var scopes0, newIds0 := scopes[..last], newIds[..last];
      var before := UpsertAll(base, ix, scopes0, e, newIds0);
      UpsertAllMeaning(t, base, listed, ix, scopes0, e, newIds0);
      var id := Target(ix, scopes[last], e.action, newIds[last]);
      forall i | 0 <= i < last ensures Target(ix, scopes0[i], e.action, newIds0[i]) != id {
        TargetsDiffer(t, listed, ix, scopes, e.action, newIds, i, last);
      }
      assert !IsTarget(ix, scopes0, e, newIds0, id);
      UpsertMeaning(t, base, listed, ix, before, scopes[last], e, newIds[last]);
      var t' := UpsertAll(base, ix, scopes, e, newIds);
      assert t' == Upsert(before, ix, scopes[last], e, newIds[last]);
      forall i | 0 <= i < |scopes| ensures IsImported(t', Target(ix, scopes[i], e.action, newIds[i]), scopes[i], e) {
        if i < last {
          var other := Target(ix, scopes0[i], e.action, newIds0[i]);
          assert IsImported(before, other, scopes0[i], e) && other != id;
        }
      }
      forall other | other in t' && !IsTarget(ix, scopes, e, newIds, other)
        ensures other in base && t'[other] == base[other]
      {
        assert Target(ix, scopes[last], e.action, newIds[last]) != other;
        assert forall i :: 0 <= i < last ==>
            Target(ix, scopes0[i], e.action, newIds0[i]) == Target(ix, scopes[i], e.action, newIds[i]);
        assert !IsTarget(ix, scopes0, e, newIds0, other);
      }
    }
  }

  // ---------- the whole import ----------

  /** Active rows of the action whose scope the content does not name. */
  function Stale(t: Table, action: string, scopes: seq<string>): set<Id> {
    set id | id in t && t[id].scopeType == "domain" && t[id].action == action && IsActive(t[id])
        && t[id].scopeValue !in scopes
  }

  function Repaired(t: Table, ix: Index, now: int): Table {
    Revoke(t, (set id | id in ix.duplicates), now)
  }

  function BeforeDelete(t: Table, listed: seq<Id>, scopes: seq<string>, e: Edit, newIds: seq<Id>): Table
    requires |newIds| == |scopes| && forall i :: 0 <= i < |listed| ==> listed[i] in t
  {
    var ix := IndexOf(t, listed);
    UpsertAll(Repaired(t, ix, e.now), ix, scopes, e, newIds)
  }

  function ImportedTable(t: Table, listed: seq<Id>, scopes: seq<string>, mode: Mode, e: Edit, newIds: seq<Id>): Table
    requires |newIds| == |scopes| && forall i :: 0 <= i < |listed| ==> listed[i] in t
  {
    var t' := BeforeDelete(t, listed, scopes, e, newIds);
    if mode.Replace? then t' - Stale(t', e.action, scopes) else t'
  }

  function CountKnown(ix: Index, scopes: seq<string>, action: string): nat {
    if scopes == [] then 0
    else
      var last := |scopes| - 1;
      CountKnown(ix, scopes[..last], action) + if Known(ix, scopes[last], action) then 1 else 0
  }

  lemma {:induction false} CountKnownBound(ix: Index, scopes: seq<string>, action: string)
    ensures CountKnown(ix, scopes, action) <= |scopes|
  {
    if scopes != [] {
      CountKnownBound(ix, scopes[..|scopes| - 1], action);
    }
  }

  function StaleScopes(ix: Index, action: string, scopes: seq<string>): set<string> {
    if action in ix.byAction then set scope | scope in ix.byAction[action] && scope !in scopes else {}
  }

  /** The counters a dry run reports: computed from the index alone. */
  function DryRunCounters(t: Table, listed: seq<Id>, scopes: seq<string>, mode: Mode, action: string): Counters
    requires forall i :: 0 <= i < |listed| ==> listed[i] in t
  {
    var ix := IndexOf(t, listed);
    var known := CountKnown(ix, scopes, action);
    CountKnownBound(ix, scopes, action);
    Counters(|scopes| - known, known, if mode.Replace? then |StaleScopes(ix, action, scopes)| else 0, 0)
  }

  /** The counters an applied import reports: what it inserted, updated and deleted. */
  function AppliedCounters(t: Table, listed: seq<Id>, scopes: seq<string>, mode: Mode, e: Edit,
                           newIds: seq<Id>): Counters
    requires |newIds| == |scopes| && forall i :: 0 <= i < |listed| ==> listed[i] in t
  {
    var ix := IndexOf(t, listed);
    var known := CountKnown(ix, scopes, e.action);
    CountKnownBound(ix, scopes, e.action);
    var t' := BeforeDelete(t, listed, scopes, e, newIds);
    Counters(|scopes| - known, known, if mode.Replace? then |Stale(t', e.action, scopes)| else 0, 0)
  }

  lemma UpsertKeys(t: Table, ix: Index, scope: string, e: Edit, newId: Id)
    ensures Upsert(t, ix, scope, e, newId).Keys == t.Keys + if Known(ix, scope, e.action) then {} else {newId}
  {
  }

  /** The upserts add one row for each scope that is not known. */
  lemma {:induction false} AddedRows(base: Table, ix: Index, scopes: seq<string>, e: Edit, newIds: seq<Id>)
    requires |newIds| == |scopes| && Distinct(newIds) && forall i :: 0 <= i < |newIds| ==> newIds[i] !in base
    ensures var added := UpsertAll(base, ix, scopes, e, newIds).Keys - base.Keys;
            && |added| + CountKnown(ix, scopes, e.action) == |scopes|
            && forall id :: id in added ==> id in newIds
  {
    if scopes != [] {
      var last := |scopes| - 1;
      var before := UpsertAll(base, ix, scopes[..last], e, newIds[..last]).Keys;
      AddedRows(base, ix, scopes[..last], e, newIds[..last]);
      UpsertAllKeys(base, ix, scopes, e, newIds);
      AddedStep(base.Keys, before, newIds, Known(ix, scopes[last], e.action));
    }
  }

  lemma UpsertAllKeys(base: Table, ix: Index, scopes: seq<string>, e: Edit, newIds: seq<Id>)
    requires |newIds| == |scopes| && scopes != []
    ensures var last := |scopes| - 1;
            UpsertAll(base, ix, scopes, e, newIds).Keys ==
            UpsertAll(base, ix, scopes[..last], e, newIds[..last]).Keys
            + if Known(ix, scopes[last], e.action) then {} else {newIds[last]}
  {
    var last := |scopes| - 1;
    UpsertKeys(UpsertAll(base, ix, scopes[..last], e, newIds[..last]), ix, scopes[last], e, newIds[last]);
  }

  lemma AddedStep(base: set<Id>, before: set<Id>, newIds: seq<Id>, known: bool)
    requires newIds != [] && Distinct(newIds) && newIds[|newIds| - 1] !in base
    requires forall id :: id in before - base ==> id in newIds[..|newIds| - 1]
    ensures var added := before + (if known then {} else {newIds[|newIds| - 1]}) - base;
            |added| == |before - base| + (if known then 0 else 1) && forall id :: id in added ==> id in newIds
  {
    var newId := newIds[|newIds| - 1];
    if known {
      assert before + {} - base == before - base;
    } else {
      assert newId !in newIds[..|newIds| - 1];
      OneMore(base, before, newId);
    }
  }

  lemma OneMore(base: set<Id>, before: set<Id>, newId: Id)
    requires newId !in base && newId !in before - base
    ensures before + {newId} - base == before - base + {newId} && |before + {newId} - base| == |before - base| + 1
  {
    assert before + {newId} - base == before - base + {newId};
  }

  /** A row keeps the time of its creation; a new one was created now. */
  lemma {:induction false} CreationTimes(base: Table, ix: Index, scopes: seq<string>, e: Edit, newIds: seq<Id>)
    requires |newIds| == |scopes| && forall i :: 0 <= i < |newIds| ==> newIds[i] !in base
    ensures var t' := UpsertAll(base, ix, scopes, e, newIds);
            forall id :: id in t' ==> t'[id].createdAt == if id in base then base[id].createdAt else e.now
  {
    if scopes != [] {
      var last := |scopes| - 1;
      CreationTimes(base, ix, scopes[..last], e, newIds[..last]);
    }
  }

  /** What callers of an import provide: the query's answer, distinct scopes, fresh ids. */
  ghost predicate Importable(t: Table, listed: seq<Id>, scopes: seq<string>, newIds: seq<Id>) {
    && Lists(t, listed)
    && |newIds| == |scopes| && Distinct(scopes) && Distinct(newIds)
    && forall i :: 0 <= i < |newIds| ==> newIds[i] !in t
  }

  lemma ImportIsReady(t: Table, listed: seq<Id>, scopes: seq<string>, newIds: seq<Id>)
    requires Importable(t, listed, scopes, newIds)
    ensures Ready(t, listed, IndexOf(t, listed), scopes, newIds)
  {
    IndexActive(t, listed);
    IndexLatest(t, listed);
  }

  /** Before the deletion: every row is a written target, or an untouched row of the repaired table. */
  lemma BeforeDeleteMeaning(t: Table, listed: seq<Id>, scopes: seq<string>, e: Edit, newIds: seq<Id>)
    requires Importable(t, listed, scopes, newIds)
    ensures var ix, t' := IndexOf(t, listed), BeforeDelete(t, listed, scopes, e, newIds);
            && Ready(t, listed, ix, scopes, newIds)
            && t.Keys <= t'.Keys
            && (forall i :: 0 <= i < |scopes| ==>
                IsImported(t', Target(ix, scopes[i], e.action, newIds[i]), scopes[i], e))
            && (forall id :: id in t' && !IsTarget(ix, scopes, e, newIds, id) ==>
                id in t && t'[id] == Repaired(t, ix, e.now)[id])
  {
    ImportIsReady(t, listed, scopes, newIds);
    var ix := IndexOf(t, listed);
    RevokeMeaning(t, (set id | id in ix.duplicates), e.now);
    UpsertAllMeaning(t, Repaired(t, ix, e.now), listed, ix, scopes, e, newIds);
  }

  /** The row written for a scope: its newest active row if it has one, else its newest row of the action, else a new
      row. Active means in any case of letters. */
  lemma TargetExactly(t: Table, listed: seq<Id>, scope: string, action: string, newId: Id)
    requires Lists(t, listed) && newId !in t
    ensures var id := Target(IndexOf(t, listed), scope, action, newId);
            if exists other :: Holds(t, listed, other, scope) then
              && Holds(t, listed, id, scope)
              && forall other :: Holds(t, listed, other, scope) && other != id ==> Newer(t, id, other)
            else if exists other :: IsRowOf(t, other, scope, action) then
              && IsRowOf(t, id, scope, action)
              && forall other :: IsRowOf(t, other, scope, action) && other != id ==> Newer(t, id, other)
            else id == newId
  {
    var ix := IndexOf(t, listed);
    assert forall i :: 0 <= i < |listed| ==> listed[i] in listed;
    IndexKeepsNewest(t, listed);
    LatestKeepsNewest(t, listed);
    if other :| Holds(t, listed, other, scope) {
      forall other | Holds(t, listed, other, scope) && other != ix.active[scope].0
        ensures Newer(t, ix.active[scope].0, other)
      {
        assert other in ix.duplicates;
      }
    } else {
      assert scope !in ix.active;
      if other :| IsRowOf(t, other, scope, action) {
        assert other in listed;
      }
      assert (scope, action) in ix.latest ==> IsRowOf(t, ix.latest[(scope, action)], scope, action);
    }
  }

  /** A domain row of this scope and action, active or not. */
  predicate IsRowOf(t: Table, id: Id, scope: string, action: string) {
    id in t && t[id].scopeType == "domain" && t[id].scopeValue == scope && t[id].action == action
  }

  lemma TargetIsNamed(t: Table, listed: seq<Id>, scopes: seq<string>, e: Edit, newIds: seq<Id>, id: Id)
    requires Importable(t, listed, scopes, newIds) && IsTarget(IndexOf(t, listed), scopes, e, newIds, id)
    ensures var t' := BeforeDelete(t, listed, scopes, e, newIds);
            id in t' && t'[id].scopeValue in scopes && IsImported(t', id, t'[id].scopeValue, e)
  {
    var ix, t' := IndexOf(t, listed), BeforeDelete(t, listed, scopes, e, newIds);
    BeforeDeleteMeaning(t, listed, scopes, e, newIds);
    var i :| 0 <= i < |scopes| && Target(ix, scopes[i], e.action, newIds[i]) == id;
    assert IsImported(t', id, scopes[i], e);
  }

  lemma OtherRowIsOld(t: Table, listed: seq<Id>, scopes: seq<string>, e: Edit, newIds: seq<Id>, id: Id)
    requires Importable(t, listed, scopes, newIds) && !IsTarget(IndexOf(t, listed), scopes, e, newIds, id)
    ensures var ix, t' := IndexOf(t, listed), BeforeDelete(t, listed, scopes, e, newIds);
            && (id in t' <==> id in t)
            && (id in t ==>
                  t'[id] == if id in ix.duplicates then t[id].(status := "revoked", updatedAt := e.now) else t[id])
  {
    BeforeDeleteMeaning(t, listed, scopes, e, newIds);
  }

  lemma StaleRowsWereThere(t: Table, listed: seq<Id>, scopes: seq<string>, e: Edit, newIds: seq<Id>, id: Id)
    requires Importable(t, listed, scopes, newIds)
    requires id in Stale(BeforeDelete(t, listed, scopes, e, newIds), e.action, scopes)
    ensures id in t
  {
    if IsTarget(IndexOf(t, listed), scopes, e, newIds, id) {
      TargetIsNamed(t, listed, scopes, e, newIds, id);
    } else {
      OtherRowIsOld(t, listed, scopes, e, newIds, id);
    }
  }

  lemma ImportedRowCount(t: Table, listed: seq<Id>, scopes: seq<string>, e: Edit, newIds: seq<Id>)
    requires Importable(t, listed, scopes, newIds)
    ensures var t' := BeforeDelete(t, listed, scopes, e, newIds);
            t.Keys <= t'.Keys && |t'.Keys - t.Keys| + CountKnown(IndexOf(t, listed), scopes, e.action) == |scopes|
  {
    var ix := IndexOf(t, listed);
    BeforeDeleteMeaning(t, listed, scopes, e, newIds);
    RevokeMeaning(t, (set id | id in ix.duplicates), e.now);
    AddedRows(Repaired(t, ix, e.now), ix, scopes, e, newIds);
  }

  lemma CountsOfKeys(had: set<Id>, before: set<Id>, stale: set<Id>)
    requires had <= before && stale <= had
    ensures |before - stale - had| == |before - had| && |had - (before - stale)| == |stale|
  {
    assert before - stale - had == before - had && had - (before - stale) == stale;
  }

  lemma StaleWereThere(t: Table, listed: seq<Id>, scopes: seq<string>, mode: Mode, e: Edit, newIds: seq<Id>)
    returns (stale: set<Id>)
    requires Importable(t, listed, scopes, newIds)
    ensures var t' := BeforeDelete(t, listed, scopes, e, newIds);
            && stale == (if mode.Replace? then Stale(t', e.action, scopes) else {}) && stale <= t.Keys
            && ImportedTable(t, listed, scopes, mode, e, newIds).Keys == t'.Keys - stale
  {
    var t' := BeforeDelete(t, listed, scopes, e, newIds);
    stale := if mode.Replace? then Stale(t', e.action, scopes) else {};
    forall id | id in stale ensures id in t.Keys {
      StaleRowsWereThere(t, listed, scopes, e, newIds, id);
    }
  }

  /** The counters count rows: an applied import reports as imported the rows that the table did not have, as deleted
      the rows it has no more, and as updated the other named scopes. */
  lemma CountersCountRows(t: Table, listed: seq<Id>, scopes: seq<string>, mode: Mode, e: Edit, newIds: seq<Id>)
    requires Importable(t, listed, scopes, newIds)
    ensures var final := ImportedTable(t, listed, scopes, mode, e, newIds);
            var c := AppliedCounters(t, listed, scopes, mode, e, newIds);
            && c.imported == |final.Keys - t.Keys| && c.deleted == |t.Keys - final.Keys|
            && c.updated == |scopes| - |final.Keys - t.Keys|
  {
    var stale := StaleWereThere(t, listed, scopes, mode, e, newIds);
    ImportedRowCount(t, listed, scopes, e, newIds);
    CountsOfKeys(t.Keys, BeforeDelete(t, listed, scopes, e, newIds).Keys, stale);
  }

  lemma ImportCreationTimes(t: Table, listed: seq<Id>, scopes: seq<string>, e: Edit, newIds: seq<Id>, id: Id)
    requires Importable(t, listed, scopes, newIds) && id in BeforeDelete(t, listed, scopes, e, newIds)
    ensures BeforeDelete(t, listed, scopes, e, newIds)[id].createdAt == if id in t then t[id].createdAt else e.now
  {
    CreationTimes(Repaired(t, IndexOf(t, listed), e.now), IndexOf(t, listed), scopes, e, newIds);
  }

  predicate IsStaleRow(row: Row, action: string, scopes: seq<string>) {
    row.scopeType == "domain" && row.action == action && IsActive(row) && row.scopeValue !in scopes
  }

  /** What an applied import leaves of each row. A row written for a named scope is active with the action, reason and
      actor of the import and without expiry, and keeps the time of its creation. Of the other rows, a replace
      deletes the active ones of the action on unnamed scopes, duplicates are revoked, and the rest is as it was. */
  lemma ImportMeaning(t: Table, listed: seq<Id>, scopes: seq<string>, mode: Mode, e: Edit, newIds: seq<Id>, id: Id)
    requires Importable(t, listed, scopes, newIds)
    ensures var ix, final := IndexOf(t, listed), ImportedTable(t, listed, scopes, mode, e, newIds);
            if IsTarget(ix, scopes, e, newIds, id) then
              && id in final && final[id].scopeValue in scopes && IsImported(final, id, final[id].scopeValue, e)
              && final[id].createdAt == if id in t then t[id].createdAt else e.now
            else
              && (id in final <==>
                    id in t && !(mode.Replace? && id !in ix.duplicates && IsStaleRow(t[id], e.action, scopes)))
              && (id in final ==>
                    final[id] == if id in ix.duplicates then t[id].(status := "revoked", updatedAt := e.now) else t[id])
  {
    if IsTarget(IndexOf(t, listed), scopes, e, newIds, id) {
      TargetIsNamed(t, listed, scopes, e, newIds, id);
      ImportCreationTimes(t, listed, scopes, e, newIds, id);
    } else {
      OtherRowIsOld(t, listed, scopes, e, newIds, id);
      assert "revoked"[0] != "active"[0];
    }
  }

  function ActiveScopes(t: Table, action: string): set<string> {
    set id | id in t && t[id].scopeType == "domain" && t[id].action == action && IsActive(t[id]) :: t[id].scopeValue
  }

  predicate ActiveOn(t: Table, id: Id, action: string, scope: string) {
    id in t && t[id].scopeType == "domain" && t[id].action == action && IsActive(t[id]) && t[id].scopeValue == scope
  }

  lemma ActiveScopesMeaning(t: Table, action: string, scope: string)
    ensures scope in ActiveScopes(t, action) <==> exists id :: ActiveOn(t, id, action, scope)
  {
    if scope in ActiveScopes(t, action) {
      var id :| id in t && t[id].scopeType == "domain" && t[id].action == action && IsActive(t[id])
          && t[id].scopeValue == scope;
      assert ActiveOn(t, id, action, scope);
    }
  }

  /** A replace import of any scopes into any table leaves exactly those scopes active for the action. */
  lemma ReplaceLeavesExactlyTheScopes(t: Table, listed: seq<Id>, scopes: seq<string>, e: Edit, newIds: seq<Id>)
    requires Importable(t, listed, scopes, newIds)
    ensures ActiveScopes(ImportedTable(t, listed, scopes, Replace, e, newIds), e.action) == set scope | scope in scopes
  {
    var final := ImportedTable(t, listed, scopes, Replace, e, newIds);
    forall scope | scope in scopes ensures scope in ActiveScopes(final, e.action) {
      var id := NamedScopeIsActive(t, listed, scopes, e, newIds, scope);
      ActiveScopesMeaning(final, e.action, scope);
    }
    forall scope | scope in ActiveScopes(final, e.action) ensures scope in scopes {
      ActiveScopesMeaning(final, e.action, scope);
      var id :| ActiveOn(final, id, e.action, scope);
    }
  }

  lemma NamedScopeIsActive(t: Table, listed: seq<Id>, scopes: seq<string>, e: Edit, newIds: seq<Id>, scope: string)
    returns (id: Id)
    requires Importable(t, listed, scopes, newIds) && scope in scopes
    ensures ActiveOn(ImportedTable(t, listed, scopes, Replace, e, newIds), id, e.action, scope)
  {
    BeforeDeleteMeaning(t, listed, scopes, e, newIds);
    var i :| 0 <= i < |scopes| && scopes[i] == scope;
    id := Target(IndexOf(t, listed), scopes[i], e.action, newIds[i]);
    assert IsImported(BeforeDelete(t, listed, scopes, e, newIds), id, scope, e);
  }

  lemma RevokedIsNotActive(row: Row)
    ensures row.status == "revoked" ==> !IsActiveAnyCase(row)
  {
    assert Lower("revoked")[0] == 'r';
  }

  /** An untouched row that the import still regards as active is the scope's indexed row. */
  lemma UntouchedActiveIsIndexed(t: Table, listed: seq<Id>, now: int, id: Id)
    requires Distinct(listed) && forall other :: other in listed <==> other in t && t[other].scopeType == "domain"
    requires ActiveMeaning(t, listed, IndexOf(t, listed))
    requires id in t && t[id].scopeType == "domain" && IsActiveAnyCase(Repaired(t, IndexOf(t, listed), now)[id])
    ensures var ix := IndexOf(t, listed);
            && id !in ix.duplicates && Repaired(t, ix, now)[id] == t[id]
            && t[id].scopeValue in ix.active && ix.active[t[id].scopeValue].0 == id
  {
    var ix := IndexOf(t, listed);
    RevokedIsNotActive(Repaired(t, ix, now)[id]);
    assert Holds(t, listed, id, t[id].scopeValue);
  }

  /** An active row is the target of its scope, at place `i` of the content, or else (-1) the scope is not named
      in the content and the row is its indexed row, untouched. */
  lemma RowOfScope(t: Table, listed: seq<Id>, scopes: seq<string>, e: Edit, newIds: seq<Id>, id: Id) returns (i: int)
    requires Importable(t, listed, scopes, newIds)
    requires var t' := BeforeDelete(t, listed, scopes, e, newIds);
             id in t' && t'[id].scopeType == "domain" && IsActiveAnyCase(t'[id])
    ensures var ix, t' := IndexOf(t, listed), BeforeDelete(t, listed, scopes, e, newIds);
            if i >= 0 then
              i < |scopes| && scopes[i] == t'[id].scopeValue && id == Target(ix, scopes[i], e.action, newIds[i])
            else
              && t'[id].scopeValue !in scopes && id in t && t'[id] == t[id]
              && t[id].scopeValue in ix.active && ix.active[t[id].scopeValue].0 == id
  {
    var ix, t' := IndexOf(t, listed), BeforeDelete(t, listed, scopes, e, newIds);
    BeforeDeleteMeaning(t, listed, scopes, e, newIds);
    if IsTarget(ix, scopes, e, newIds, id) {
      i :| 0 <= i < |scopes| && Target(ix, scopes[i], e.action, newIds[i]) == id;
      assert IsImported(t', id, scopes[i], e);
    } else {
      i := -1;
      RevokeMeaning(t, (set d | d in ix.duplicates), e.now);
      UntouchedActiveIsIndexed(t, listed, e.now, id);
      forall k | 0 <= k < |scopes| ensures scopes[k] != t'[id].scopeValue {
        assert Target(ix, scopes[k], e.action, newIds[k]) != id;
      }
    }
  }

  /** Any applied import, into any table, leaves at most one active override per domain scope,
      even if statuses were stored in mixed case. */
  lemma ImportRestoresUniqueness(t: Table, listed: seq<Id>, scopes: seq<string>, mode: Mode, e: Edit, newIds: seq<Id>,
                                 a: Id, b: Id)
    requires Importable(t, listed, scopes, newIds)
    requires var final := ImportedTable(t, listed, scopes, mode, e, newIds);
             && a in final && final[a].scopeType == "domain" && IsActiveAnyCase(final[a])
             && b in final && final[b].scopeType == "domain" && IsActiveAnyCase(final[b])
             && final[a].scopeValue == final[b].scopeValue
    ensures a == b
  {
    var i := RowOfScope(t, listed, scopes, e, newIds, a);
    var j := RowOfScope(t, listed, scopes, e, newIds, b);
  }

  // ---------- what changes and what is invalidated ----------

  /** The scopes an applied import invalidates: those it writes, and those of the rows it deletes. */
  function Invalidated(t: Table, listed: seq<Id>, scopes: seq<string>, mode: Mode, e: Edit,
                       newIds: seq<Id>): set<string>
    requires |newIds| == |scopes| && forall i :: 0 <= i < |listed| ==> listed[i] in t
  {
    var t' := BeforeDelete(t, listed, scopes, e, newIds);
    (set scope | scope in scopes) +
    if mode.Replace? then set id | id in Stale(t', e.action, scopes) :: t'[id].scopeValue else {}
  }

  predicate ActiveAt(t: Table, id: Id, scope: string) {
    id in t && t[id].scopeType == "domain" && t[id].scopeValue == scope && IsActive(t[id])
  }

  /** The active domain rows of a scope. */
  function ActiveRows(t: Table, scope: string): map<Id, Row> {
    map id | id in t && ActiveAt(t, id, scope) :: t[id]
  }

  /** A row whose scope the content does not name is at most revoked as a duplicate. */
  lemma UnnamedRow(t: Table, listed: seq<Id>, scopes: seq<string>, e: Edit, newIds: seq<Id>, id: Id)
    requires Importable(t, listed, scopes, newIds)
    requires id in t && t[id].scopeValue !in scopes
    ensures var t' := BeforeDelete(t, listed, scopes, e, newIds);
            id in t' && t'[id] == Repaired(t, IndexOf(t, listed), e.now)[id]
  {
    var ix := IndexOf(t, listed);
    BeforeDeleteMeaning(t, listed, scopes, e, newIds);
    RevokeMeaning(t, (set d | d in ix.duplicates), e.now);
    if IsTarget(ix, scopes, e, newIds, id) {
      var i :| 0 <= i < |scopes| && Target(ix, scopes[i], e.action, newIds[i]) == id;
      TargetScope(t, listed, ix, scopes[i], e.action, newIds[i]);
    }
  }

  lemma ActiveRowOfUnnamed(t: Table, listed: seq<Id>, scopes: seq<string>, e: Edit, newIds: seq<Id>, scope: string,
                           id: Id)
    requires Importable(t, listed, scopes, newIds) && scope !in scopes
    ensures var t' := BeforeDelete(t, listed, scopes, e, newIds);
            && (ActiveAt(t', id, scope) <==> ActiveAt(t, id, scope) && id !in IndexOf(t, listed).duplicates)
            && (ActiveAt(t', id, scope) ==> t'[id] == t[id])
  {
    var ix, t' := IndexOf(t, listed), BeforeDelete(t, listed, scopes, e, newIds);
    BeforeDeleteMeaning(t, listed, scopes, e, newIds);
    RevokeMeaning(t, (set d | d in ix.duplicates), e.now);
    if id in t && t[id].scopeValue == scope {
      UnnamedRow(t, listed, scopes, e, newIds, id);
    }
    if ActiveAt(t', id, scope) {
      forall i | 0 <= i < |scopes| ensures Target(ix, scopes[i], e.action, newIds[i]) != id {
        assert IsImported(t', Target(ix, scopes[i], e.action, newIds[i]), scopes[i], e);
      }
    }
  }

  lemma ActiveRowAfterDelete(t: Table, listed: seq<Id>, scopes: seq<string>, mode: Mode, e: Edit, newIds: seq<Id>,
                             scope: string, id: Id)
    requires |newIds| == |scopes| && forall i :: 0 <= i < |listed| ==> listed[i] in t
    requires scope !in Invalidated(t, listed, scopes, mode, e, newIds)
    ensures scope !in scopes
    ensures var t', final := BeforeDelete(t, listed, scopes, e, newIds),
            ImportedTable(t, listed, scopes, mode, e, newIds);
            (ActiveAt(final, id, scope) <==> ActiveAt(t', id, scope))
                && (ActiveAt(final, id, scope) ==> final[id] == t'[id])
  {
  }

  /** A scope that an applied import does not invalidate keeps its active rows except the repaired duplicates; so
      its active rows change if and only if one of them was a duplicate. */
  lemma UninvalidatedScopesChangeExactly(t: Table, listed: seq<Id>, scopes: seq<string>, mode: Mode, e: Edit,
                                         newIds: seq<Id>, scope: string)
    requires Importable(t, listed, scopes, newIds) && scope !in Invalidated(t, listed, scopes, mode, e, newIds)
    ensures var before, after := ActiveRows(t, scope),
            ActiveRows(ImportedTable(t, listed, scopes, mode, e, newIds), scope);
            var duplicates := set id | id in IndexOf(t, listed).duplicates;
            && after == before - duplicates
            && (after == before <==> forall id :: id in duplicates ==> !ActiveAt(t, id, scope))
  {
    var final := ImportedTable(t, listed, scopes, mode, e, newIds);
    var duplicates := set id | id in IndexOf(t, listed).duplicates;
    forall id ensures id in ActiveRows(final, scope) <==> id in ActiveRows(t, scope) - duplicates
      ensures id in ActiveRows(final, scope) ==> ActiveRows(final, scope)[id] == ActiveRows(t, scope)[id]
    {
      ActiveRowAfterDelete(t, listed, scopes, mode, e, newIds, scope, id);
      ActiveRowOfUnnamed(t, listed, scopes, e, newIds, scope, id);
    }
    assert ActiveRows(final, scope) == ActiveRows(t, scope) - duplicates;
    forall id | id in duplicates && ActiveAt(t, id, scope)
      ensures ActiveRows(t, scope) - duplicates != ActiveRows(t, scope) {
      assert id in ActiveRows(t, scope);
    }
  }

  /** So on a table with one active row per scope, whatever the case of its statuses, every scope whose active rows
      an import changes is invalidated. */
  lemma ChangedScopesAreInvalidated(t: Table, listed: seq<Id>, scopes: seq<string>, mode: Mode, e: Edit,
                                    newIds: seq<Id>, scope: string)
    requires Importable(t, listed, scopes, newIds) && IndexOf(t, listed).duplicates == []
    requires ActiveRows(ImportedTable(t, listed, scopes, mode, e, newIds), scope) != ActiveRows(t, scope)
    ensures scope in Invalidated(t, listed, scopes, mode, e, newIds)
  {
    if scope !in Invalidated(t, listed, scopes, mode, e, newIds) {
      UninvalidatedScopesChangeExactly(t, listed, scopes, mode, e, newIds, scope);
    }
  }

  // ---------- dry run against applied import ----------

  /** Scopes that would be reported deleted but whose stored status is not literally `active`. */
  function OddlyCased(t: Table, listed: seq<Id>, action: string, scopes: seq<string>): set<string>
    requires forall i :: 0 <= i < |listed| ==> listed[i] in t
  {
    var ix := IndexOf(t, listed);
    set scope | scope in StaleScopes(ix, action, scopes) && scope in ix.active && ix.active[scope].0 in t
        && !IsActive(t[ix.active[scope].0])
  }

  /** The rows deleted by a replace are the indexed rows of the stale scopes stored as `active`. */
  lemma StaleRows(t: Table, listed: seq<Id>, scopes: seq<string>, e: Edit, newIds: seq<Id>)
    requires Importable(t, listed, scopes, newIds)
    ensures var ix, t' := IndexOf(t, listed), BeforeDelete(t, listed, scopes, e, newIds);
            var kept := StaleScopes(ix, e.action, scopes) - OddlyCased(t, listed, e.action, scopes);
            && (forall scope :: scope in kept ==>
                scope in ix.active && ix.active[scope].0 in t && t[ix.active[scope].0].scopeValue == scope)
            && Stale(t', e.action, scopes) == set scope | scope in kept :: ix.active[scope].0
  {
    var ix, t' := IndexOf(t, listed), BeforeDelete(t, listed, scopes, e, newIds);
    var kept := StaleScopes(ix, e.action, scopes) - OddlyCased(t, listed, e.action, scopes);
    BeforeDeleteMeaning(t, listed, scopes, e, newIds);
    IndexByAction(t, listed);
    forall scope | scope in StaleScopes(ix, e.action, scopes)
      ensures scope in ix.active && ix.active[scope].1 == e.action && Holds(t, listed, ix.active[scope].0, scope)
    {
      assert InByAction(ix, e.action, scope);
    }
    forall id | id in Stale(t', e.action, scopes)
      ensures t'[id].scopeValue in kept && ix.active[t'[id].scopeValue].0 == id
    {
      ActiveStatus(t'[id]);
      var _ := RowOfScope(t, listed, scopes, e, newIds, id);
      assert InByAction(ix, e.action, t[id].scopeValue);
    }
    forall scope | scope in kept ensures ix.active[scope].0 in Stale(t', e.action, scopes) {
      UntouchedScope(t, listed, scopes, e, newIds, ix.active[scope].0);
    }
  }

  lemma ActiveStatus(row: Row)
    requires IsActive(row)
    ensures IsActiveAnyCase(row)
  {
    assert Lower("active") == "active";
  }

  /** The indexed row of a scope that the content does not name is left as it was. */
  lemma UntouchedScope(t: Table, listed: seq<Id>, scopes: seq<string>, e: Edit, newIds: seq<Id>, id: Id)
    requires Importable(t, listed, scopes, newIds)
    requires var ix := IndexOf(t, listed);
             id in t && t[id].scopeValue in ix.active && ix.active[t[id].scopeValue].0 == id
                 && t[id].scopeValue !in scopes
    ensures var t' := BeforeDelete(t, listed, scopes, e, newIds);
            id in t' && t'[id] == t[id]
  {
    var ix := IndexOf(t, listed);
    BeforeDeleteMeaning(t, listed, scopes, e, newIds);
    RevokeMeaning(t, (set d | d in ix.duplicates), e.now);
    if IsTarget(ix, scopes, e, newIds, id) {
      var i :| 0 <= i < |scopes| && Target(ix, scopes[i], e.action, newIds[i]) == id;
      TargetScope(t, listed, ix, scopes[i], e.action, newIds[i]);
    }
  }

  /** An injective image is as large as its source. */
  lemma {:induction false} ImageSize(scopes: set<string>, active: map<string, (Id, string)>, scopeOf: map<Id, string>)
    requires forall scope :: scope in scopes ==>
                 scope in active && active[scope].0 in scopeOf && scopeOf[active[scope].0] == scope
    ensures |set scope | scope in scopes :: active[scope].0| == |scopes|
    decreases |scopes|
  {
    var image := set scope | scope in scopes :: active[scope].0;
    if scopes != {} {
      var one :| one in scopes;
      ImageSize(scopes - {one}, active, scopeOf);
      assert image == (set scope | scope in scopes - {one} :: active[scope].0) + {active[one].0};
    }
  }

  lemma SubsetSize(small: set<string>, large: set<string>)
    requires small <= large
    ensures |large - small| == |large| - |small|
    ensures |large - small| == |large| <==> small == {}
  {
    assert large == small + (large - small);
  }

  /** From any table, even one with several active rows per scope, a dry run reports the imported and
      updated counts of the applied import; it reports the same deletions if and only if no scope that
      would be deleted is stored with a status other than the literal `active`. */
  lemma DryRunTellsTheTruth(t: Table, listed: seq<Id>, scopes: seq<string>, mode: Mode, e: Edit, newIds: seq<Id>)
    requires Importable(t, listed, scopes, newIds)
    ensures var dry := DryRunCounters(t, listed, scopes, mode, e.action);
            var applied := AppliedCounters(t, listed, scopes, mode, e, newIds);
            && dry.imported == applied.imported && dry.updated == applied.updated && dry.skipped == applied.skipped
            && dry.imported + dry.updated == |scopes|
            && (dry == applied <==> mode.Merge? || OddlyCased(t, listed, e.action, scopes) == {})
            && dry.deleted == applied.deleted + if mode.Replace? then |OddlyCased(t, listed, e.action, scopes)| else 0
  {
    var ix := IndexOf(t, listed);
    var odd := OddlyCased(t, listed, e.action, scopes);
    var stale := StaleScopes(ix, e.action, scopes);
    StaleRows(t, listed, scopes, e, newIds);
    ImageSize(stale - odd, ix.active, map id | id in t :: t[id].scopeValue);
    SubsetSize(odd, stale);
  }

  /** Tables reached through the API hold literal statuses only, so there the two always agree. */
  lemma DryRunAgreesOnWellFormed(t: Table, listed: seq<Id>, scopes: seq<string>, mode: Mode, e: Edit, newIds: seq<Id>)
    requires Importable(t, listed, scopes, newIds) && WellFormed(t)
    ensures DryRunCounters(t, listed, scopes, mode, e.action) == AppliedCounters(t, listed, scopes, mode, e, newIds)
  {
    DryRunTellsTheTruth(t, listed, scopes, mode, e, newIds);
    var ix := IndexOf(t, listed);
    ImportIsReady(t, listed, scopes, newIds);
    if scope :| scope in OddlyCased(t, listed, e.action, scopes) {
      var id := ix.active[scope].0;
      assert Holds(t, listed, id, scope) && ValidRow(t[id]);
      StatusCase(t[id].status);
      assert false;
    }
  }

  /** A table on which the counts differ: one row of status `Active`. The API stores statuses in lower case, so
      such a row was written by other means; the table's unique index (migration 0025) does not look at it. */
  lemma MixedCaseStatusMiscounts()
    ensures var t: Table := map[7 := Row("domain", "a.b", "block", None, None, None, "Active", 0, 0)];
            && Importable(t, [7], [], [])
            && DryRunCounters(t, [7], [], Replace, "block").deleted == 1
            && AppliedCounters(t, [7], [], Replace, Edit("block", "ops", 1), []).deleted == 0
  {
    var row := Row("domain", "a.b", "block", None, None, None, "Active", 0, 0);
    var t: Table := map[7 := row];
    assert Lower("Active") == "active";
    assert "Active"[0] != "active"[0];
    assert [7][..0] == [];
    assert IndexOf(t, []) == Index(map[], map[], map[], []);
    var ix := IndexOf(t, [7]);
    assert ix == IndexRow(Index(map[], map[], map[], []), 7, row);
    assert StaleScopes(ix, "block", []) == {"a.b"};
    assert Repaired(t, ix, 1) == t;
    assert Stale(t, "block", []) == {};
  }

  /** A table on which a scope loses its one literally active row without being invalidated: a newer row of status
      `Active` makes it a duplicate, and the content names another scope. */
  lemma RepairedScopeIsNotInvalidated()
    ensures var t := TwoCases();
            && Importable(t, [1, 2], ["c.d"], [3])
            && "a.b" !in Invalidated(t, [1, 2], ["c.d"], Merge, Edit("block", "ops", 5), [3])
            && ActiveAt(t, 2, "a.b")
            && ActiveRows(ImportedTable(t, [1, 2], ["c.d"], Merge, Edit("block", "ops", 5), [3]), "a.b") == map[]
  {
    var t, e := TwoCases(), Edit("block", "ops", 5);
    TwoCasesIndex();
    UninvalidatedScopesChangeExactly(t, [1, 2], ["c.d"], Merge, e, [3], "a.b");
    assert "Active"[0] != "active"[0];
    assert ActiveRows(t, "a.b").Keys == {2};
  }

  function TwoCases(): Table {
    map[1 := Row("domain", "a.b", "block", None, None, None, "Active", 0, 1),
        2 := Row("domain", "a.b", "block", None, None, None, "active", 0, 0)]
  }

  lemma TwoCasesIndex()
    ensures Importable(TwoCases(), [1, 2], ["c.d"], [3]) && IndexOf(TwoCases(), [1, 2]).duplicates == [2]
  {
    var t := TwoCases();
    assert Lower("Active") == "active" && Lower("active") == "active";
    assert [1, 2][..1] == [1] && [1][..0] == [];
    assert IndexOf(t, [1]) == IndexRow(IndexOf(t, []), 1, t[1]);
    assert IndexOf(t, [1, 2]) == IndexRow(IndexOf(t, [1]), 2, t[2]);
  }
}
