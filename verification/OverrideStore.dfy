/** The override operations as they update the table in place, and what every run of them keeps. */
module OverrideStore {
  import opened Text
  import opened DomainScope
  import opened OverrideExchange
  import opened OverrideTable
  import opened OverrideImport

  /** `normalize_override_import_mode` */
  function ParseMode(value: Option<string>): Option<Mode> {
    var mode := Lower(Trim(if value.Some? then value.value else "merge"));
    if mode == "merge" then Some(Merge) else if mode == "replace" then Some(Replace) else None
  }

  /** A mode is named in any case and with white space around it; merge is the default, and nothing else is one. */
  lemma ParseModeExactly(value: string)
    ensures ParseMode(Some(value)) == Some(Merge) <==> Lower(Trim(value)) == "merge"
    ensures ParseMode(Some(value)) == Some(Replace) <==> Lower(Trim(value)) == "replace"
    ensures ParseMode(None) == Some(Merge)
  {
    assert "merge"[0] != "replace"[0];
    TrimFixpoint("merge");
    assert Lower("merge") == "merge";
  }

  datatype ImportError = InvalidAction | InvalidMode

  /** The maps of an import agree with the index on every scope it has not reached yet. */
  ghost predicate AgreeOutside(active: map<string, (Id, string)>, latest: map<(string, string), Id>, ix: Index,
                               action: string, done: seq<string>) {
    forall scope :: scope !in done ==>
      && (scope in active <==> scope in ix.active)
      && (scope in active ==> active[scope] == ix.active[scope])
      && ((scope, action) in latest <==> (scope, action) in ix.latest)
      && ((scope, action) in latest ==> latest[(scope, action)] == ix.latest[(scope, action)])
  }

  /** What an import answers with: the report on the lines, the counters, and the scopes it invalidated on the way. */
  datatype Report = Report(lines: Parsed, counters: Counters, invalidated: set<string>)

  class Store {
    var rows: Table

    constructor ()
      ensures rows == map[]
    {
      rows := map[];
    }

    method Create(raw: RawPayload, actor: string, listed: seq<Id>, newId: Id, now: int)
      returns (r: Result<Id, ApiError>)
      requires newId !in rows
      requires Validate(raw, actor).Ok? ==>
                 ListsActive(rows, Validate(raw, actor).value.scopeType, Validate(raw, actor).value.scopeValue, listed)
      modifies this
      ensures Validate(raw, actor).Err? ==> r == Err(Validate(raw, actor).error) && rows == old(rows)
      ensures Validate(raw, actor).Ok? ==>
                var p := Validate(raw, actor).value;
                && rows == Created(old(rows), p, listed, newId, now)
                && r == Ok(CreatedId(p, listed, newId)) && r.value in rows
    {
      var validated := Validate(raw, actor);
      if validated.Err? {
        return Err(validated.error);
      }
      var id := CreateValidated(validated.value, listed, newId, now);
      return Ok(id);
    }

    method CreateValidated(p: Payload, listed: seq<Id>, newId: Id, now: int) returns (id: Id)
      requires newId !in rows && ListsActive(rows, p.scopeType, p.scopeValue, listed)
      modifies this
      ensures rows == Created(old(rows), p, listed, newId, now)
      ensures id == CreatedId(p, listed, newId) && id in rows
    {
      var status := if p.status.Some? then p.status.value else "active";
      if Lower(status) == "active" && listed != [] {
        id := listed[0];
        assert id in listed;
        var others := set other | other in listed[1..];
        if |listed| > 1 {
          rows := Revoke(rows, others, now);
        } else {
          assert Revoke(rows, others, now) == rows;
        }
        rows := rows[id := rows[id].(action := p.action, reason := p.reason, createdBy := p.createdBy,
                                     expiresAt := p.expiresAt, status := status, updatedAt := now)];
      } else {
        id := newId;
        rows := rows[newId := NewRow(p, status, now)];
      }
    }

    method Update(id: Id, raw: RawPayload, actor: string, now: int) returns (r: Result<seq<(string, string)>, ApiError>)
      modifies this
      ensures Validate(raw, actor).Err? ==> r == Err(Validate(raw, actor).error) && rows == old(rows)
      ensures Validate(raw, actor).Ok? && id !in old(rows) ==> r == Err(NotFound) && rows == old(rows)
      ensures Validate(raw, actor).Ok? && id in old(rows) ==>
                && rows == Updated(old(rows), id, Validate(raw, actor).value, now) && id in rows
                && r == Ok(InvalidationScopes(old(rows)[id], rows[id]))
    {
      var validated := Validate(raw, actor);
      if validated.Err? {
        return Err(validated.error);
      }
      if id !in rows {
        return Err(NotFound);
      }
      var p, previous := validated.value, rows[id];
      var status := if p.status.Some? then p.status.value else previous.status;
      if Lower(status) == "active" {
        rows := Revoke(rows, Rivals(rows, p.scopeType, p.scopeValue, id), now);
      }
      rows := rows[id := Row(p.scopeType, p.scopeValue, p.action, p.reason, p.createdBy, p.expiresAt, status,
                             previous.createdAt, now)];
      r := Ok(InvalidationScopes(previous, rows[id]));
    }

    method Delete(id: Id) returns (r: Result<(string, string), ApiError>)
      modifies this
      ensures rows == Deleted(old(rows), id)
      ensures r == if id in old(rows) then Ok((old(rows)[id].scopeType, old(rows)[id].scopeValue)) else Err(NotFound)
    {
      if id !in rows {
        return Err(NotFound);
      }
      r := Ok((rows[id].scopeType, rows[id].scopeValue));
      rows := rows - {id};
    }

    /** The first loop of the import: `active_by_scope`, `latest_by_scope_action`,
        `active_scope_values_by_action` and `duplicate_active_ids`. */
    method BuildIndex(listed: seq<Id>) returns (ix: Index)
      requires forall i :: 0 <= i < |listed| ==> listed[i] in rows
      ensures ix == IndexOf(rows, listed)
    {
      var active: map<string, (Id, string)> := map[];
      var latest: map<(string, string), Id> := map[];
      var byAction: map<string, set<string>> := map[];
      var duplicates: seq<Id> := [];
      for i := 0 to |listed|
        invariant Index(active, latest, byAction, duplicates) == IndexOf(rows, listed[..i])
      {
        assert listed[..i + 1][..i] == listed[..i];
        var id, row := listed[i], rows[listed[i]];
        if (row.scopeValue, row.action) !in latest {
          latest := latest[(row.scopeValue, row.action) := id];
        }
        if IsActiveAnyCase(row) {
          if row.scopeValue in active {
            duplicates := duplicates + [id];
            continue;
          }
          var scopes := if row.action in byAction then byAction[row.action] else {};
          byAction := byAction[row.action := scopes + {row.scopeValue}];
          active := active[row.scopeValue := (id, row.action)];
        }
      }
      assert listed[..|listed|] == listed;
      ix := Index(active, latest, byAction, duplicates);
    }

    /** The second loop: what a dry run reports. */
    method CountWould(ix: Index, scopes: seq<string>, action: string) returns (imported: nat, updated: nat)
      ensures updated == CountKnown(ix, scopes, action) && imported + updated == |scopes|
    {
      imported, updated := 0, 0;
      for i := 0 to |scopes|
        invariant updated == CountKnown(ix, scopes[..i], action) && imported + updated == i
      {
        assert scopes[..i + 1][..i] == scopes[..i];
        if scopes[i] in ix.active || (scopes[i], action) in ix.latest {
          updated := updated + 1;
        } else {
          imported := imported + 1;
        }
      }
      assert scopes[..|scopes|] == scopes;
    }

    /** The third loop: write one row per scope, keeping the two maps up to date. */
    method UpsertScopes(ix: Index, scopes: seq<string>, e: Edit, newIds: seq<Id>) returns (imported: nat, updated: nat)
      requires |newIds| == |scopes| && Distinct(scopes)
      modifies this
      ensures rows == UpsertAll(old(rows), ix, scopes, e, newIds)
      ensures updated == CountKnown(ix, scopes, e.action) && imported + updated == |scopes|
    {
      var active, latest := ix.active, ix.latest;
      imported, updated := 0, 0;
      for i := 0 to |scopes|
        invariant rows == UpsertAll(old(rows), ix, scopes[..i], e, newIds[..i])
        invariant updated == CountKnown(ix, scopes[..i], e.action) && imported + updated == i
        invariant AgreeOutside(active, latest, ix, e.action, scopes[..i])
      {
        assert scopes[..i + 1][..i] == scopes[..i] && newIds[..i + 1][..i] == newIds[..i];
        var scope, key := scopes[i], (scopes[i], e.action);
        assert scope !in scopes[..i];
        if scope in active {
          var id := active[scope].0;
          if id in rows {
            rows := rows[id := Imported(rows[id], e)];
          }
          updated := updated + 1;
          active := active[scope := (id, e.action)];
        } else if key in latest {
          var id := latest[key];
          if id in rows {
            rows := rows[id := Imported(rows[id], e)];
          }
          updated := updated + 1;
          active := active[scope := (id, e.action)];
        } else {
          rows := rows[newIds[i] := Row("domain", scope, e.action, Some(REASON), Some(e.actor), None, "active", e.now,
                                        e.now)];
          imported := imported + 1;
          latest := latest[key := newIds[i]];
          active := active[scope := (newIds[i], e.action)];
        }
        latest := latest[key := active[scope].0];
      }
      assert scopes[..|scopes|] == scopes && newIds[..|newIds|] == newIds;
    }

    /** `import_overrides` */
    method Import(content: string, rawAction: string, rawMode: Option<string>, dryRun: bool, actor: string,
                  listed: seq<Id>, newIds: seq<Id>, now: int) returns (r: Result<Report, ImportError>)
      requires Importable(rows, listed, ParseText(content).scopes, newIds)
      modifies this
      ensures !IsAction(Lower(Trim(rawAction))) ==> r == Err(InvalidAction) && rows == old(rows)
      ensures IsAction(Lower(Trim(rawAction))) && ParseMode(rawMode).None? ==>
              r == Err(InvalidMode) && rows == old(rows)
      ensures IsAction(Lower(Trim(rawAction))) && ParseMode(rawMode).Some? ==>
                var scopes, mode := ParseText(content).scopes, ParseMode(rawMode).value;
                var e := Edit(Lower(Trim(rawAction)), actor, now);
                if dryRun then
                  && rows == old(rows)
                  && r == Ok(Report(ParseText(content), DryRunCounters(old(rows), listed, scopes, mode, e.action), {}))
                else
                  && rows == ImportedTable(old(rows), listed, scopes, mode, e, newIds)
                  && r == Ok(Report(ParseText(content), AppliedCounters(old(rows), listed, scopes, mode, e, newIds),
                                    Invalidated(old(rows), listed, scopes, mode, e, newIds)))
    {
      var action := Lower(Trim(rawAction));
      if !IsAction(action) {
        return Err(InvalidAction);
      }
      var mode := ParseMode(rawMode);
      if mode.None? {
        return Err(InvalidMode);
      }
      var parsed := Parse(content);
      var counters, invalidated := ImportScopes(parsed.scopes, mode.value, dryRun, Edit(action, actor, now), listed,
                                                newIds);
      return Ok(Report(parsed, counters, invalidated));
    }

    method ImportScopes(scopes: seq<string>, mode: Mode, dryRun: bool, e: Edit, listed: seq<Id>, newIds: seq<Id>)
      returns (counters: Counters, invalidated: set<string>)
      requires Importable(rows, listed, scopes, newIds)
      modifies this
      ensures dryRun ==> rows == old(rows) && invalidated == {}
      ensures dryRun ==> counters == DryRunCounters(old(rows), listed, scopes, mode, e.action)
      ensures !dryRun ==>
                && rows == ImportedTable(old(rows), listed, scopes, mode, e, newIds)
                && counters == AppliedCounters(old(rows), listed, scopes, mode, e, newIds)
                && invalidated == Invalidated(old(rows), listed, scopes, mode, e, newIds)
    {
      var ix := BuildIndex(listed);
      var imported, updated := CountWould(ix, scopes, e.action);
      var deleted := if mode.Replace? then |StaleScopes(ix, e.action, scopes)| else 0;
      invalidated := {};
      if !dryRun {
        if ix.duplicates != [] {
          rows := Revoke(rows, (set id | id in ix.duplicates), e.now);
        } else {
          assert Repaired(rows, ix, e.now) == rows;
        }
        imported, updated := UpsertScopes(ix, scopes, e, newIds);
        invalidated := set scope | scope in scopes;
        deleted := 0;
        if mode.Replace? {
          var removed := Stale(rows, e.action, scopes);
          invalidated := invalidated + set id | id in removed :: rows[id].scopeValue;
          rows := rows - removed;
          deleted := |removed|;
        }
      }
      counters := Counters(imported, updated, deleted, 0);
    }
  }

  // ---------- every run ----------

  datatype Op =
    | Create(raw: RawPayload, actor: string, listed: seq<Id>, newId: Id, now: int)
    | Update(id: Id, raw: RawPayload, actor: string, now: int)
    | Delete(id: Id)
    | Import(content: string, action: string, mode: Mode, actor: string, listed: seq<Id>, newIds: seq<Id>, now: int)

  /** The database answers each query truthfully and new ids are fresh. */
  ghost predicate Fits(t: Table, op: Op) {
    match op
    case Create(raw, actor, listed, newId, _) =>
      && newId !in t
      && (Validate(raw, actor).Ok? ==>
            ListsActive(t, Validate(raw, actor).value.scopeType, Validate(raw, actor).value.scopeValue, listed))
    case Import(content, action, _, _, listed, newIds, _) =>
      IsAction(action) && Importable(t, listed, ParseText(content).scopes, newIds)
    case _ => true
  }

  ghost function Apply(t: Table, op: Op): Table
    requires Fits(t, op)
  {
    match op
    case Create(raw, actor, listed, newId, now) =>
      if Validate(raw, actor).Ok? then Created(t, Validate(raw, actor).value, listed, newId, now) else t
    case Update(id, raw, actor, now) =>
      if Validate(raw, actor).Ok? then Updated(t, id, Validate(raw, actor).value, now) else t
    case Delete(id) => Deleted(t, id)
    case Import(content, action, mode, actor, listed, newIds, now) =>
      ImportedTable(t, listed, ParseText(content).scopes, mode, Edit(action, actor, now), newIds)
  }

  /** Each operation fits the table that the ones before it leave. */
  ghost predicate Executable(t: Table, ops: seq<Op>)
    decreases |ops|
  {
    ops != [] ==> Fits(t, ops[0]) && Executable(Apply(t, ops[0]), ops[1..])
  }

  ghost function Run(t: Table, ops: seq<Op>): Table
    requires Executable(t, ops)
    decreases |ops|
  {
    if ops == [] then t else Run(Apply(t, ops[0]), ops[1..])
  }

  lemma ImportedRowIsValid(row: Row, scope: string, e: Edit)
    requires row.scopeType == "domain" && row.scopeValue == scope && row.action == e.action && IsActive(row)
    requires IsNormal(scope) && IsAction(e.action)
    ensures ValidRow(row)
  {
  }

  lemma ImportKeepsValidRows(t: Table, listed: seq<Id>, scopes: seq<string>, mode: Mode, e: Edit, newIds: seq<Id>,
                             id: Id)
    requires Importable(t, listed, scopes, newIds) && IsAction(e.action)
    requires forall other :: other in t ==> ValidRow(t[other])
    requires forall scope :: scope in scopes ==> IsNormal(scope)
    requires id in ImportedTable(t, listed, scopes, mode, e, newIds)
    ensures ValidRow(ImportedTable(t, listed, scopes, mode, e, newIds)[id])
  {
    var ix, t' := IndexOf(t, listed), BeforeDelete(t, listed, scopes, e, newIds);
    BeforeDeleteMeaning(t, listed, scopes, e, newIds);
    if IsTarget(ix, scopes, e, newIds, id) {
      var i :| 0 <= i < |scopes| && Target(ix, scopes[i], e.action, newIds[i]) == id;
      assert IsImported(t', id, scopes[i], e);
      ImportedRowIsValid(t'[id], scopes[i], e);
    } else {
      RevokeKeepsValidRows(t, (set d | d in ix.duplicates), e.now);
    }
  }

  lemma ImportKeepsWellFormed(t: Table, content: string, action: string, mode: Mode, actor: string, listed: seq<Id>,
                              newIds: seq<Id>, now: int)
    requires Importable(t, listed, ParseText(content).scopes, newIds) && IsAction(action)
    requires forall id :: id in t ==> ValidRow(t[id])
    ensures WellFormed(ImportedTable(t, listed, ParseText(content).scopes, mode, Edit(action, actor, now), newIds))
  {
    var scopes, e := ParseText(content).scopes, Edit(action, actor, now);
    var final := ImportedTable(t, listed, scopes, mode, e, newIds);
    ParsedScopesAreNormal(content);
    forall id | id in final ensures ValidRow(final[id]) {
      ImportKeepsValidRows(t, listed, scopes, mode, e, newIds, id);
    }
    forall a, b | a in final && b in final && IsActive(final[a]) && IsActive(final[b]) && SameScope(final[a], final[b])
      ensures a == b
    {
      assert ValidRow(final[a]) && ValidRow(final[b]);
      ActiveStatus(final[a]);
      ActiveStatus(final[b]);
      ImportRestoresUniqueness(t, listed, scopes, mode, e, newIds, a, b);
    }
  }

  lemma StepKeepsWellFormed(t: Table, op: Op)
    requires WellFormed(t) && Fits(t, op)
    ensures WellFormed(Apply(t, op))
  {
    match op
    case Create(raw, actor, listed, newId, now) =>
      if Validate(raw, actor).Ok? {
        CreateKeepsWellFormed(t, Validate(raw, actor).value, listed, newId, now);
      }
    case Update(id, raw, actor, now) =>
      if Validate(raw, actor).Ok? {
        UpdateKeepsWellFormed(t, id, Validate(raw, actor).value, now);
      }
    case Delete(id) =>
      DeleteKeepsWellFormed(t, id);
    case Import(content, action, mode, actor, listed, newIds, now) =>
      ImportKeepsWellFormed(t, content, action, mode, actor, listed, newIds, now);
  }

  /** Every run of create, update, delete and import from a well-formed table, such as the empty one,
      keeps at most one active override per scope. */
  lemma {:induction false} EveryRunKeepsOneActive(t: Table, ops: seq<Op>)
    requires WellFormed(t) && Executable(t, ops)
    ensures WellFormed(Run(t, ops))
    ensures OneActivePerScope(Run(t, ops))
    decreases |ops|
  {
    if ops != [] {
      StepKeepsWellFormed(t, ops[0]);
      EveryRunKeepsOneActive(Apply(t, ops[0]), ops[1..]);
    }
  }

  // ---------- export, import, export ----------

  /** The scope values the export query returns, in any order and with any repetition. */
  ghost predicate ListsScopes(t: Table, action: string, values: seq<string>) {
    forall v :: v in values <==> v in ActiveScopes(t, action)
  }

  /** Exporting an action, replace-importing the text and exporting again gives the same bytes. */
  lemma ExportImportExport(t: Table, action: string, values: seq<string>, actor: string, listed: seq<Id>,
                           newIds: seq<Id>, now: int, again: seq<string>)
    requires ListsScopes(t, action, values) && forall v :: v in values ==> IsNormal(v)
    requires Importable(t, listed, ParseText(Join(SortDedup(values))).scopes, newIds)
    requires ListsScopes(ImportedTable(t, listed, ParseText(Join(SortDedup(values))).scopes, Replace,
                                       Edit(action, actor, now), newIds),
                         action, again)
    ensures Join(SortDedup(again)) == Join(SortDedup(values))
  {
    var lines := SortDedup(values);
    ExportParsesBack(values);
    SortDedupMeaning(values);
    SortDedupMeaning(again);
    ReplaceLeavesExactlyTheScopes(t, listed, lines, Edit(action, actor, now), newIds);
    assert forall y :: y in SortDedup(again) <==> y in lines;
    SortedUnique(SortDedup(again), lines);
  }
}
