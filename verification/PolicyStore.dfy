/** The policy lifecycle: create, update, publish and delete over the policies, their rule rows and their
    version history. */
module PolicyStore {
  import opened Text
  import opened CommonTypes
  import opened PolicyRules

  type PolicyId = nat

  datatype Status = Active | Draft | Archived

  datatype Policy = Policy(name: string, version: string, status: Status)

  datatype Version = Version(version: string, status: Status, deployed: bool, rules: seq<Rule>)

  /** The three tables; `versions` lists each policy's history, oldest first. */
  datatype Store = Store(policies: map<PolicyId, Policy>, rows: map<PolicyId, seq<RuleRow>>,
                         versions: map<PolicyId, seq<Version>>)

  datatype Error = NotFound | InvalidRules(error: RuleError) | InvalidStatus | CannotActivate | ActiveGuard

  /** `normalize_policy_status` */
  function ParseStatus(value: string): Option<Status> {
    var v := Lower(Trim(value));
    if v == "active" then Some(Active)
    else if v == "draft" then Some(Draft)
    else if v == "archived" then Some(Archived)
    else None
  }

  /** The submitted rules, with the ids that are generated where none is given. */
  datatype Submission = Submission(payloads: seq<Payload>, generated: nat -> string)

  /** A submitted rule list after `normalize_rules` and `validate_rules_against_taxonomy`. */
  function Accepted(submitted: Submission, known: string -> bool): Result<seq<Rule>, RuleError> {
    match NormalizeRules(CheckAll(submitted.payloads, submitted.generated))
    case Err(e) => Err(e)
    case Ok(rules) => if CategoriesKnown(rules, known) then Ok(rules) else Err(BadCategory)
  }

  predicate CategoriesKnown(rules: seq<Rule>, known: string -> bool) {
    forall i :: 0 <= i < |rules| && rules[i].conditions.categories.Some? ==>
      forall j :: 0 <= j < |rules[i].conditions.categories.value| ==> known(rules[i].conditions.categories.value[j])
  }

  /** `load_rules_from_latest_version` */
  function LatestRules(s: Store, id: PolicyId): seq<Rule> {
    if id in s.versions && s.versions[id] != [] then s.versions[id][|s.versions[id]| - 1].rules else []
  }

  function WithVersion(s: Store, id: PolicyId, v: Version): Store {
    s.(versions := s.versions[id := (if id in s.versions then s.versions[id] else []) + [v]])
  }

  function WithRules(s: Store, id: PolicyId, rules: seq<Rule>): Store {
    s.(rows := s.rows[id := RowsOf(rules)])
  }

  // ---------- the operations ----------

  datatype Op =
    | Create(id: PolicyId, name: string, version: string, rules: Submission)
    | Update(id: PolicyId, newName: Option<string>, newVersion: Option<string>, status: Option<string>,
             newRules: Option<Submission>)
    | Publish(id: PolicyId, version: string)
    | Delete(id: PolicyId)

  function Created(s: Store, id: PolicyId, name: string, version: string, rules: seq<Rule>): Store {
    WithVersion(WithRules(s.(policies := s.policies[id := Policy(name, version, Draft)]), id, rules), id,
                Version(version, Draft, false, rules))
  }

  /** The status an update asks for, or why it may not. */
  function NextStatus(current: Status, requested: Option<string>): Result<Status, Error> {
    if requested.None? then Ok(current)
    else match ParseStatus(requested.value)
      case None => Err(InvalidStatus)
      case Some(next) =>
        if next.Active? then Err(CannotActivate)
        else if current.Active? && next.Archived? then Err(ActiveGuard)
        else Ok(next)
  }

  function Edited(p: Policy, name: Option<string>, version: Option<string>, status: Status): Policy {
    Policy(if name.Some? then Trim(name.value) else p.name,
           if version.Some? then Trim(version.value) else p.version,
           status)
  }

  function Updated(s: Store, id: PolicyId, p: Policy, replacement: Option<seq<Rule>>): Store {
    var s1 := s.(policies := s.policies[id := p]);
    var s2 := if replacement.Some? then WithRules(s1, id, replacement.value) else s1;
    var rules := if replacement.Some? then replacement.value else LatestRules(s, id);
    WithVersion(s2, id, Version(p.version, p.status, false, rules))
  }

  function ArchiveOthers(policies: map<PolicyId, Policy>, id: PolicyId): map<PolicyId, Policy> {
    map other | other in policies :: if other != id && policies[other].status.Active?
        then policies[other].(status := Archived) else policies[other]
  }

  function Activated(policies: map<PolicyId, Policy>, id: PolicyId, version: string): map<PolicyId, Policy>
    requires id in policies
  {
    ArchiveOthers(policies, id)[id := policies[id].(status := Active, version := version)]
  }

  function Published(s: Store, id: PolicyId, version: string): Store
    requires id in s.policies
  {
    WithVersion(s.(policies := Activated(s.policies, id, version)), id,
                Version(version, Active, true, LatestRules(s, id)))
  }

  /** Deleting cascades to rules and versions. */
  function Deleted(s: Store, id: PolicyId): Store {
    Store(s.policies - {id}, s.rows - {id}, s.versions - {id})
  }

  function UpdatedTo(s: Store, id: PolicyId, p: Policy, submitted: Option<Submission>, known: string -> bool)
    : (Store, Option<Error>)
  {
    if submitted.None? then (Updated(s, id, p, None), None)
    else match Accepted(submitted.value, known)
      case Err(e) => (s, Some(InvalidRules(e)))
      case Ok(rules) => (Updated(s, id, p, Some(rules)), None)
  }

  /** The store after an operation and the error it answers with; a refused operation rolls back. */
  function Apply(s: Store, op: Op, known: string -> bool): (Store, Option<Error>) {
    match op
    case Create(id, name, version, rules) =>
      (match Accepted(rules, known)
       case Err(e) => (s, Some(InvalidRules(e)))
       case Ok(rules) => (Created(s, id, name, version, rules), None))
    case Update(id, name, version, status, newRules) =>
      if id !in s.policies then (s, Some(NotFound))
      else (match NextStatus(s.policies[id].status, status)
            case Err(e) => (s, Some(e))
            case Ok(next) =>
              UpdatedTo(s, id, Edited(s.policies[id], name, version, next), newRules, known))
    case Publish(id, version) =>
      if id !in s.policies then (s, Some(NotFound)) else (Published(s, id, version), None)
    case Delete(id) =>
      if id !in s.policies then (s, Some(NotFound))
      else if s.policies[id].status.Active? then (s, Some(ActiveGuard))
      else (Deleted(s, id), None)
  }

  class PolicyTables {
    var policies: map<PolicyId, Policy>
    var rows: map<PolicyId, seq<RuleRow>>
    var versions: map<PolicyId, seq<Version>>

    constructor ()
      ensures Contents() == Store(map[], map[], map[])
    {
      policies, rows, versions := map[], map[], map[];
    }

    function Contents(): Store
      reads this
    {
      Store(policies, rows, versions)
    }

    /** `replace_policy_rules`: delete, then insert one row per rule. */
    method ReplaceRules(id: PolicyId, rules: seq<Rule>)
      modifies this`rows
      ensures rows == old(rows)[id := RowsOf(rules)]
    {
      rows := rows[id := []];
      for i := 0 to |rules|
        invariant rows == old(rows)[id := RowsOf(rules)[..i]]
      {
        rows := rows[id := rows[id] + [RowOf(rules[i])]];
        assert RowsOf(rules)[..i + 1] == RowsOf(rules)[..i] + [RowOf(rules[i])];
      }
      assert RowsOf(rules)[..|rules|] == RowsOf(rules);
    }

    method InsertVersion(id: PolicyId, v: Version)
      modifies this`versions
      ensures Contents() == WithVersion(old(Contents()), id, v)
    {
      versions := versions[id := (if id in versions then versions[id] else []) + [v]];
    }

    method Create(id: PolicyId, name: string, version: string, submitted: Submission, known: string -> bool)
      returns (error: Option<Error>)
      modifies this
      ensures (Contents(), error) == Apply(old(Contents()), Op.Create(id, name, version, submitted), known)
    {
      var normalized := Normalize(submitted.payloads, submitted.generated);
      if normalized.Err? {
        return Some(InvalidRules(normalized.error));
      }
      if !CategoriesKnown(normalized.value, known) {
        return Some(InvalidRules(BadCategory));
      }
      policies := policies[id := Policy(name, version, Draft)];
      ReplaceRules(id, normalized.value);
      InsertVersion(id, Version(version, Draft, false, normalized.value));
      return None;
    }

    method Update(id: PolicyId, name: Option<string>, version: Option<string>, status: Option<string>,
                  submitted: Option<Submission>, known: string -> bool) returns (error: Option<Error>)
      modifies this
      ensures (Contents(), error) == Apply(old(Contents()), Op.Update(id, name, version, status, submitted), known)
    {
      if id !in policies {
        return Some(NotFound);
      }
      var next := NextStatus(policies[id].status, status);
      if next.Err? {
        return Some(next.error);
      }
      error := UpdateTo(id, Edited(policies[id], name, version, next.value), submitted, known);
    }

    method UpdateTo(id: PolicyId, p: Policy, submitted: Option<Submission>, known: string -> bool)
      returns (error: Option<Error>)
      modifies this
      ensures (Contents(), error) == UpdatedTo(old(Contents()), id, p, submitted, known)
    {
      if submitted.None? {
        WriteUpdate(id, p, None);
        return None;
      }
      var normalized := Normalize(submitted.value.payloads, submitted.value.generated);
      if normalized.Err? {
        return Some(InvalidRules(normalized.error));
      }
      if !CategoriesKnown(normalized.value, known) {
        return Some(InvalidRules(BadCategory));
      }
      WriteUpdate(id, p, Some(normalized.value));
      return None;
    }

    method WriteUpdate(id: PolicyId, p: Policy, replacement: Option<seq<Rule>>)
      modifies this
      ensures Contents() == Updated(old(Contents()), id, p, replacement)
    {
      policies := policies[id := p];
      var rules := LatestRules(Contents(), id);
      if replacement.Some? {
        rules := replacement.value;
        ReplaceRules(id, rules);
      }
      InsertVersion(id, Version(p.version, p.status, false, rules));
    }

    method Publish(id: PolicyId, version: string) returns (error: Option<Error>)
      modifies this
      ensures forall known :: (Contents(), error) == Apply(old(Contents()), Op.Publish(id, version), known)
    {
      if id !in policies {
        return Some(NotFound);
      }
      var rules := LatestRules(Contents(), id);
      policies := ArchiveOthers(policies, id);
      policies := policies[id := policies[id].(status := Active, version := version)];
      InsertVersion(id, Version(version, Active, true, rules));
      return None;
    }

    method Delete(id: PolicyId) returns (error: Option<Error>)
      modifies this
      ensures forall known :: (Contents(), error) == Apply(old(Contents()), Op.Delete(id), known)
    {
      if id !in policies {
        return Some(NotFound);
      }
      if policies[id].status.Active? {
        return Some(ActiveGuard);
      }
      policies, rows, versions := policies - {id}, rows - {id}, versions - {id};
      return None;
    }
  }

  // ---------- what each operation leaves ----------

  /** The rules of a submission can be stored, and the taxonomy knows every category they name. */
  predicate Fits(submitted: Submission, known: string -> bool) {
    && Submittable(submitted.payloads, submitted.generated)
    && forall i :: 0 <= i < |submitted.payloads| ==> NamesKnown(submitted.payloads[i].conditions, known)
  }

  predicate NamesKnown(conditions: Conditions, known: string -> bool) {
    conditions.categories.Some? ==>
      forall j :: 0 <= j < |conditions.categories.value| ==> known(conditions.categories.value[j])
  }

  lemma AcceptedExactly(submitted: Submission, known: string -> bool)
    ensures Accepted(submitted, known).Ok? <==> Fits(submitted, known)
    ensures Accepted(submitted, known).Ok? ==>
            AreSubmitted(Accepted(submitted, known).value, submitted.payloads, submitted.generated)
  {
    SubmittedRulesExactly(submitted.payloads, submitted.generated);
    var r := NormalizeRules(CheckAll(submitted.payloads, submitted.generated));
    if r.Ok? {
      forall i | 0 <= i < |r.value| ensures r.value[i].conditions == submitted.payloads[i].conditions {
      }
      assert forall i :: 0 <= i < |r.value| ==>
          (NamesKnown(submitted.payloads[i].conditions, known) <==> NamesKnown(r.value[i].conditions, known));
    }
  }

  predicate IsStatusText(value: string, name: string) {
    Lower(Trim(value)) == name
  }

  lemma ParseStatusExactly(value: string)
    ensures ParseStatus(value) == Some(Active) <==> IsStatusText(value, "active")
    ensures ParseStatus(value) == Some(Draft) <==> IsStatusText(value, "draft")
    ensures ParseStatus(value) == Some(Archived) <==> IsStatusText(value, "archived")
  {
  }

  /** The status may be left alone, become a draft, or be archived unless the policy is active; never activated. */
  predicate MayBecome(current: Status, requested: Option<string>) {
    requested.Some? ==>
      IsStatusText(requested.value, "draft") || (IsStatusText(requested.value, "archived") && !current.Active?)
  }

  /** Each operation is accepted exactly on this condition on the stored policy and the request; a refused one
      changes nothing. */
  lemma AppliedExactly(s: Store, op: Op, known: string -> bool)
    ensures Apply(s, op, known).1.None? <==>
            match op
            case Create(_, _, _, rules) => Fits(rules, known)
            case Update(id, _, _, status, rules) =>
              id in s.policies && MayBecome(s.policies[id].status, status) && (rules.Some? ==> Fits(rules.value, known))
            case Publish(id, _) => id in s.policies
            case Delete(id) => id in s.policies && !s.policies[id].status.Active?
    ensures Apply(s, op, known).1.Some? ==> Apply(s, op, known).0 == s
  {
    match op
    case Create(_, _, _, rules) => AcceptedExactly(rules, known);
    case Update(id, _, _, status, rules) =>
      if status.Some? {
        ParseStatusExactly(status.value);
      }
      if rules.Some? {
        AcceptedExactly(rules.value, known);
      }
    case _ =>
  }

  /** Which error a refused operation answers with. */
  lemma RefusalNamesItsCause(s: Store, op: Op, known: string -> bool)
    requires Apply(s, op, known).1.Some?
    ensures match Apply(s, op, known).1.value
            case NotFound => !op.Create? && op.id !in s.policies
            case InvalidRules(_) =>
              || (op.Create? && !Fits(op.rules, known))
              || (op.Update? && op.newRules.Some? && !Fits(op.newRules.value, known))
            case InvalidStatus => op.Update? && op.status.Some? && ParseStatus(op.status.value).None?
            case CannotActivate => op.Update? && op.status.Some? && IsStatusText(op.status.value, "active")
            case ActiveGuard =>
              && op.id in s.policies && s.policies[op.id].status.Active?
              && (op.Delete? || (op.Update? && op.status.Some? && IsStatusText(op.status.value, "archived")))
  {
    match op
    case Create(_, _, _, rules) => AcceptedExactly(rules, known);
    case Update(_, _, _, status, rules) =>
      if status.Some? {
        ParseStatusExactly(status.value);
      }
      if rules.Some? {
        AcceptedExactly(rules.value, known);
      }
    case _ =>
  }

  predicate SameIn<T(==)>(before: map<PolicyId, T>, after: map<PolicyId, T>, id: PolicyId) {
    (id in before <==> id in after) && (id in before ==> after[id] == before[id])
  }

  /** Rules and history of every other policy stay. */
  ghost predicate OnlyTouches(s: Store, s': Store, id: PolicyId) {
    forall other :: other != id ==> SameIn(s.rows, s'.rows, other) && SameIn(s.versions, s'.versions, other)
  }

  ghost predicate OtherPoliciesSame(s: Store, s': Store, id: PolicyId) {
    forall other :: other != id ==> SameIn(s.policies, s'.policies, other)
  }

  /** The history gets one more version, which says what the policy now says. */
  predicate Records(s: Store, s': Store, id: PolicyId, deployed: bool) {
    && id in s'.policies && id in s'.versions && s'.versions[id] != []
    && var last := |s'.versions[id]| - 1;
    && s'.versions[id][..last] == (if id in s.versions then s.versions[id] else [])
    && var v := s'.versions[id][last];
    && v.version == s'.policies[id].version && v.status == s'.policies[id].status && v.deployed == deployed
  }

  /** Rule rows and the latest version hold the rules of the submission. */
  predicate HoldsSubmitted(s: Store, id: PolicyId, submitted: Submission) {
    && AreSubmitted(LatestRules(s, id), submitted.payloads, submitted.generated)
    && id in s.rows && s.rows[id] == RowsOf(LatestRules(s, id))
  }

  predicate HoldsRules(s: Store, id: PolicyId, rules: seq<Rule>) {
    LatestRules(s, id) == rules && id in s.rows && s.rows[id] == RowsOf(rules)
  }

  lemma CreatedMeaning(s: Store, id: PolicyId, name: string, version: string, rules: seq<Rule>)
    ensures var s' := Created(s, id, name, version, rules);
            && Records(s, s', id, false) && HoldsRules(s', id, rules)
            && s'.policies[id] == Policy(name, version, Draft)
            && OnlyTouches(s, s', id) && OtherPoliciesSame(s, s', id)
  {
  }

  lemma UpdatedMeaning(s: Store, id: PolicyId, p: Policy, replacement: Option<seq<Rule>>)
    ensures var s' := Updated(s, id, p, replacement);
            && Records(s, s', id, false) && s'.policies[id] == p
            && OnlyTouches(s, s', id) && OtherPoliciesSame(s, s', id)
    ensures var s' := Updated(s, id, p, replacement);
            if replacement.Some? then HoldsRules(s', id, replacement.value)
            else LatestRules(s', id) == LatestRules(s, id) && s'.rows == s.rows
  {
  }

  lemma NextStatusMeaning(current: Status, requested: Option<string>)
    requires NextStatus(current, requested).Ok?
    ensures NextStatus(current, requested).value ==
            if requested.None? then current else if IsStatusText(requested.value, "draft") then Draft else Archived
  {
    if requested.Some? {
      ParseStatusExactly(requested.value);
    }
  }

  /** An accepted create stores a draft with the submitted rules. */
  lemma CreateMeaning(s: Store, op: Op, known: string -> bool)
    requires op.Create? && Apply(s, op, known).1.None?
    ensures var s' := Apply(s, op, known).0;
            && Records(s, s', op.id, false) && HoldsSubmitted(s', op.id, op.rules)
            && s'.policies[op.id] == Policy(op.name, op.version, Draft)
            && OnlyTouches(s, s', op.id) && OtherPoliciesSame(s, s', op.id)
  {
    AcceptedExactly(op.rules, known);
    CreatedMeaning(s, op.id, op.name, op.version, Accepted(op.rules, known).value);
  }

  /** An accepted update writes what is submitted, trimmed, and keeps what is not; an update without rules leaves
      rules and rule rows as they were. */
  lemma UpdateMeaning(s: Store, op: Op, known: string -> bool)
    requires op.Update? && Apply(s, op, known).1.None?
    ensures var s', id := Apply(s, op, known).0, op.id;
            && Records(s, s', id, false) && id in s.policies && OnlyTouches(s, s', id) && OtherPoliciesSame(s, s', id)
            && s'.policies[id].name == (if op.newName.Some? then Trim(op.newName.value) else s.policies[id].name)
            && s'.policies[id].version ==
               (if op.newVersion.Some? then Trim(op.newVersion.value) else s.policies[id].version)
            && (op.status.None? ==> s'.policies[id].status == s.policies[id].status)
            && (op.status.Some? ==>
                  s'.policies[id].status == if IsStatusText(op.status.value, "draft") then Draft else Archived)
    ensures var s', id := Apply(s, op, known).0, op.id;
            if op.newRules.Some? then HoldsSubmitted(s', id, op.newRules.value)
            else LatestRules(s', id) == LatestRules(s, id) && s'.rows == s.rows
  {
    var current := s.policies[op.id];
    NextStatusMeaning(current.status, op.status);
    var p := Edited(current, op.newName, op.newVersion, NextStatus(current.status, op.status).value);
    if op.newRules.Some? {
      AcceptedExactly(op.newRules.value, known);
      UpdatedMeaning(s, op.id, p, Some(Accepted(op.newRules.value, known).value));
    } else {
      UpdatedMeaning(s, op.id, p, None);
    }
  }

  /** A publish activates this policy under the given version, archives the one that was active, deploys the latest
      rules, and changes nothing else. */
  lemma PublishMeaning(s: Store, op: Op, known: string -> bool)
    requires op.Publish? && Apply(s, op, known).1.None?
    ensures var s', id := Apply(s, op, known).0, op.id;
            && Records(s, s', id, true) && OnlyTouches(s, s', id) && s'.rows == s.rows
            && LatestRules(s', id) == LatestRules(s, id)
            && id in s.policies && s'.policies[id] == Policy(s.policies[id].name, op.version, Active)
            && s'.policies.Keys == s.policies.Keys
            && (forall other :: other in s.policies && other != id ==>
                  var p := s.policies[other];
                  s'.policies[other] == if p.status.Active? then p.(status := Archived) else p)
  {
  }

  /** An accepted delete takes the policy with its rules and its history, and nothing else. */
  lemma DeleteMeaning(s: Store, op: Op, known: string -> bool)
    requires op.Delete? && Apply(s, op, known).1.None?
    ensures var s' := Apply(s, op, known).0;
            && op.id !in s'.policies && op.id !in s'.rows && op.id !in s'.versions
            && OnlyTouches(s, s', op.id) && OtherPoliciesSame(s, s', op.id)
  {
  }

  // ---------- what every run keeps ----------

  predicate OneActive(policies: map<PolicyId, Policy>) {
    forall a, b :: a in policies && b in policies && policies[a].status.Active? && policies[b].status.Active? ==> a == b
  }

  /** The rule rows of a policy are the rules of its latest version, and those are well formed. */
  predicate RulesAgree(s: Store, id: PolicyId) {
    && id in s.rows && id in s.versions && s.versions[id] != []
    && s.rows[id] == RowsOf(LatestRules(s, id))
    && WellFormed(LatestRules(s, id))
  }

  /** The latest version carries the policy's own version name and, unless another policy was published
      since, its status. */
  predicate VersionAgrees(s: Store, id: PolicyId) {
    && id in s.policies && id in s.versions && s.versions[id] != []
    && var latest := s.versions[id][|s.versions[id]| - 1];
    && latest.version == s.policies[id].version
    && (latest.status == s.policies[id].status || (latest.status.Active? && s.policies[id].status.Archived?))
  }

  predicate Consistent(s: Store) {
    && OneActive(s.policies)
    && s.rows.Keys == s.policies.Keys && s.versions.Keys == s.policies.Keys
    && (forall id :: id in s.policies ==> RulesAgree(s, id))
    && (forall id :: id in s.policies ==> VersionAgrees(s, id))
  }

  lemma AcceptedAreWellFormed(submitted: Submission, known: string -> bool)
    ensures Accepted(submitted, known).Ok? ==> WellFormed(Accepted(submitted, known).value)
  {
    NormalizeRulesExactly(CheckAll(submitted.payloads, submitted.generated));
  }

  /** One policy is written, a version is appended to it, and its rule rows are those of that version. */
  function Edit(s: Store, policies: map<PolicyId, Policy>, id: PolicyId, v: Version): Store {
    Store(policies, s.rows[id := RowsOf(v.rules)],
          s.versions[id := (if id in s.versions then s.versions[id] else []) + [v]])
  }

  /** The other policies stay as they are, or are archived from being active. */
  predicate OthersStay(before: map<PolicyId, Policy>, after: map<PolicyId, Policy>, id: PolicyId) {
    && after.Keys == before.Keys + {id}
    && forall other :: other in before && other != id ==>
         after[other] == before[other]
             || (before[other].status.Active? && after[other] == before[other].(status := Archived))
  }

  lemma EditKeepsOthers(s: Store, policies: map<PolicyId, Policy>, id: PolicyId, v: Version, other: PolicyId)
    requires RulesAgree(s, other) && VersionAgrees(s, other)
    requires OthersStay(s.policies, policies, id) && other in s.policies && other != id
    ensures RulesAgree(Edit(s, policies, id, v), other) && VersionAgrees(Edit(s, policies, id, v), other)
  {
    assert LatestRules(Edit(s, policies, id, v), other) == LatestRules(s, other);
  }

  lemma EditAgrees(s: Store, policies: map<PolicyId, Policy>, id: PolicyId, v: Version)
    requires id in policies && WellFormed(v.rules) && policies[id].version == v.version
    requires policies[id].status == v.status
    ensures RulesAgree(Edit(s, policies, id, v), id) && VersionAgrees(Edit(s, policies, id, v), id)
  {
    assert LatestRules(Edit(s, policies, id, v), id) == v.rules;
  }

  lemma EditKeepsConsistent(s: Store, policies: map<PolicyId, Policy>, id: PolicyId, v: Version)
    requires Consistent(s) && OthersStay(s.policies, policies, id) && OneActive(policies)
    requires WellFormed(v.rules) && policies[id].version == v.version && policies[id].status == v.status
    ensures Consistent(Edit(s, policies, id, v))
  {
    var s' := Edit(s, policies, id, v);
    assert s'.rows.Keys == policies.Keys && s'.versions.Keys == policies.Keys;
    forall other | other in policies ensures RulesAgree(s', other) && VersionAgrees(s', other) {
      if other == id {
        EditAgrees(s, policies, id, v);
      } else {
        EditKeepsOthers(s, policies, id, v, other);
      }
    }
  }

  lemma CreateKeepsConsistent(s: Store, id: PolicyId, name: string, version: string, rules: seq<Rule>)
    requires Consistent(s) && id !in s.policies && WellFormed(rules)
    ensures Consistent(Created(s, id, name, version, rules))
  {
    var policies, v := s.policies[id := Policy(name, version, Draft)], Version(version, Draft, false, rules);
    assert OneActive(policies) && OthersStay(s.policies, policies, id);
    assert Created(s, id, name, version, rules) == Edit(s, policies, id, v);
    EditKeepsConsistent(s, policies, id, v);
  }

  lemma RowsUnchanged(s: Store, id: PolicyId)
    requires RulesAgree(s, id)
    ensures s.rows[id := RowsOf(LatestRules(s, id))] == s.rows
  {
  }

  lemma UpdatedIsEdit(s: Store, id: PolicyId, p: Policy, replacement: Option<seq<Rule>>)
    requires RulesAgree(s, id)
    ensures var rules := if replacement.Some? then replacement.value else LatestRules(s, id);
            Updated(s, id, p, replacement) ==
                Edit(s, s.policies[id := p], id, Version(p.version, p.status, false, rules))
  {
    RowsUnchanged(s, id);
  }

  lemma OneWritten(policies: map<PolicyId, Policy>, id: PolicyId, p: Policy)
    requires OneActive(policies) && id in policies && (p.status == policies[id].status || !p.status.Active?)
    ensures OneActive(policies[id := p]) && OthersStay(policies, policies[id := p], id)
  {
  }

  lemma UpdateKeepsConsistent(s: Store, id: PolicyId, p: Policy, replacement: Option<seq<Rule>>)
    requires Consistent(s) && id in s.policies
    requires p.status == s.policies[id].status || !p.status.Active?
    requires replacement.Some? ==> WellFormed(replacement.value)
    ensures Consistent(Updated(s, id, p, replacement))
  {
    assert RulesAgree(s, id);
    var rules := if replacement.Some? then replacement.value else LatestRules(s, id);
    UpdatedIsEdit(s, id, p, replacement);
    OneWritten(s.policies, id, p);
    EditKeepsConsistent(s, s.policies[id := p], id, Version(p.version, p.status, false, rules));
  }

  lemma PublishedIsEdit(s: Store, id: PolicyId, version: string)
    requires RulesAgree(s, id) && id in s.policies
    ensures Published(s, id, version) ==
            Edit(s, Activated(s.policies, id, version), id, Version(version, Active, true, LatestRules(s, id)))
  {
    RowsUnchanged(s, id);
  }

  lemma OneActivated(policies: map<PolicyId, Policy>, id: PolicyId, version: string)
    requires id in policies
    ensures OneActive(Activated(policies, id, version)) && OthersStay(policies, Activated(policies, id, version), id)
    ensures forall other :: other in policies ==>
            (Activated(policies, id, version)[other].status.Active? <==> other == id)
  {
  }

  /** Publishing makes this policy the one active policy. */
  lemma PublishKeepsConsistent(s: Store, id: PolicyId, version: string)
    requires Consistent(s) && id in s.policies
    ensures Consistent(Published(s, id, version))
    ensures forall other :: other in s.policies ==>
            (Published(s, id, version).policies[other].status.Active? <==> other == id)
  {
    assert RulesAgree(s, id);
    PublishedIsEdit(s, id, version);
    OneActivated(s.policies, id, version);
    EditKeepsConsistent(s, Activated(s.policies, id, version), id, Version(version, Active, true, LatestRules(s, id)));
  }

  lemma DeleteKeepsConsistent(s: Store, id: PolicyId)
    requires Consistent(s)
    ensures Consistent(Deleted(s, id))
  {
    var s' := Deleted(s, id);
    assert s'.rows.Keys == s'.policies.Keys && s'.versions.Keys == s'.policies.Keys;
    forall other | other in s'.policies ensures RulesAgree(s', other) && VersionAgrees(s', other) {
      assert RulesAgree(s, other) && VersionAgrees(s, other);
      DeleteKeepsOther(s, id, other);
    }
  }

  lemma DeleteKeepsOther(s: Store, id: PolicyId, other: PolicyId)
    requires other != id && RulesAgree(s, other) && VersionAgrees(s, other)
    ensures RulesAgree(Deleted(s, id), other) && VersionAgrees(Deleted(s, id), other)
  {
    assert LatestRules(Deleted(s, id), other) == LatestRules(s, other);
  }

  lemma StepKeepsConsistent(s: Store, op: Op, known: string -> bool)
    requires Consistent(s) && (op.Create? ==> op.id !in s.policies)
    ensures Consistent(Apply(s, op, known).0)
  {
    match op
    case Create(id, name, version, rules) =>
      AcceptedAreWellFormed(rules, known);
      if Accepted(rules, known).Ok? {
        CreateKeepsConsistent(s, id, name, version, Accepted(rules, known).value);
      }
    case Update(id, name, version, status, newRules) =>
      if id in s.policies && NextStatus(s.policies[id].status, status).Ok? {
        var p := Edited(s.policies[id], name, version, NextStatus(s.policies[id].status, status).value);
        if newRules.None? {
          UpdateKeepsConsistent(s, id, p, None);
        } else {
          AcceptedAreWellFormed(newRules.value, known);
          if Accepted(newRules.value, known).Ok? {
            UpdateKeepsConsistent(s, id, p, Some(Accepted(newRules.value, known).value));
          }
        }
      }
    case Publish(id, version) =>
      if id in s.policies {
        PublishKeepsConsistent(s, id, version);
      }
    case Delete(id) =>
      DeleteKeepsConsistent(s, id);
  }

  /** New policy ids are fresh. */
  predicate Executable(s: Store, ops: seq<Op>, known: string -> bool)
    decreases |ops|
  {
    ops != [] ==>
      && (ops[0].Create? ==> ops[0].id !in s.policies)
      && Executable(Apply(s, ops[0], known).0, ops[1..], known)
  }

  function Run(s: Store, ops: seq<Op>, known: string -> bool): Store
    decreases |ops|
  {
    if ops == [] then s else Run(Apply(s, ops[0], known).0, ops[1..], known)
  }

  lemma {:induction false} RunKeepsConsistent(s: Store, ops: seq<Op>, known: string -> bool)
    requires Consistent(s) && Executable(s, ops, known)
    ensures Consistent(Run(s, ops, known))
    decreases |ops|
  {
    if ops != [] {
      StepKeepsConsistent(s, ops[0], known);
      RunKeepsConsistent(Apply(s, ops[0], known).0, ops[1..], known);
    }
  }

  /** The rules last submitted for a policy, as the accepted operations of a run leave them. */
  function Submitted(last: Option<Submission>, op: Op, accepted: bool, id: PolicyId): Option<Submission> {
    if !accepted || op.id != id then last
    else match op
      case Create(_, _, _, rules) => Some(rules)
      case Update(_, _, _, _, rules) => if rules.Some? then rules else last
      case Publish(_, _) => last
      case Delete(_) => None
  }

  function LastSubmitted(s: Store, ops: seq<Op>, known: string -> bool, id: PolicyId, last: Option<Submission>)
    : Option<Submission>
    decreases |ops|
  {
    if ops == [] then last
    else
      var (s', error) := Apply(s, ops[0], known);
      LastSubmitted(s', ops[1..], known, id, Submitted(last, ops[0], error.None?, id))
  }

  /** The policy exists if and only if rules were submitted for it, and then it holds the last ones. */
  predicate Remembers(s: Store, id: PolicyId, last: Option<Submission>) {
    (id in s.policies <==> last.Some?) && (last.Some? ==> HoldsSubmitted(s, id, last.value))
  }

  lemma StepOnOther(s: Store, op: Op, known: string -> bool, id: PolicyId)
    requires op.id != id
    ensures var s' := Apply(s, op, known).0;
            && (id in s'.policies <==> id in s.policies)
            && SameIn(s.rows, s'.rows, id) && SameIn(s.versions, s'.versions, id)
  {
  }

  lemma StepRemembers(s: Store, op: Op, known: string -> bool, id: PolicyId, last: Option<Submission>)
    requires Remembers(s, id, last)
    ensures var (s', error) := Apply(s, op, known); Remembers(s', id, Submitted(last, op, error.None?, id))
  {
    var (s', error) := Apply(s, op, known);
    if op.id != id {
      StepOnOther(s, op, known, id);
      assert LatestRules(s', id) == LatestRules(s, id);
    } else if error.Some? {
      AppliedExactly(s, op, known);
    } else {
      AcceptedStepRemembers(s, op, known, last);
    }
  }

  lemma AcceptedStepRemembers(s: Store, op: Op, known: string -> bool, last: Option<Submission>)
    requires Remembers(s, op.id, last) && Apply(s, op, known).1.None?
    ensures Remembers(Apply(s, op, known).0, op.id, Submitted(last, op, true, op.id))
  {
    match op
    case Create(_, _, _, _) => CreateMeaning(s, op, known);
    case Update(_, _, _, _, _) => UpdateMeaning(s, op, known);
    case Publish(_, _) => PublishMeaning(s, op, known);
    case Delete(_) => DeleteMeaning(s, op, known);
  }

  lemma {:induction false} RunRemembers(s: Store, ops: seq<Op>, known: string -> bool, id: PolicyId,
                                        last: Option<Submission>)
    requires Remembers(s, id, last)
    ensures Remembers(Run(s, ops, known), id, LastSubmitted(s, ops, known, id, last))
    decreases |ops|
  {
    if ops != [] {
      StepRemembers(s, ops[0], known, id, last);
      var (s', error) := Apply(s, ops[0], known);
      RunRemembers(s', ops[1..], known, id, Submitted(last, ops[0], error.None?, id));
    }
  }

  /** After every run from the empty store, whatever was published, renamed or refused in between: a policy exists if
      and only if rules were accepted for it since its last deletion, and then its latest version and its rule rows
      hold the rules that were accepted last. */
  lemma EveryRunHoldsLastSubmitted(ops: seq<Op>, known: string -> bool, id: PolicyId)
    ensures var empty := Store(map[], map[], map[]);
            var s, last := Run(empty, ops, known), LastSubmitted(empty, ops, known, id, None);
            (id in s.policies <==> last.Some?) && (last.Some? ==> HoldsSubmitted(s, id, last.value))
  {
    RunRemembers(Store(map[], map[], map[]), ops, known, id, None);
  }

  /** What `fetch_policy_detail` reports: the count comes from the rule rows, the list from the versions. */
  function ReportedCount(s: Store, id: PolicyId): nat {
    if id in s.rows then |s.rows[id]| else 0
  }

  /** After every run from the empty store at most one policy is active, the reported rule count is the length of
      the reported rule list, and its ids and its stored priorities are distinct. */
  lemma EveryRunReportsConsistently(ops: seq<Op>, known: string -> bool, id: PolicyId)
    requires Executable(Store(map[], map[], map[]), ops, known)
    ensures var s := Run(Store(map[], map[], map[]), ops, known);
            && OneActive(s.policies)
            && (id in s.policies ==>
                  && ReportedCount(s, id) == |LatestRules(s, id)|
                  && WellFormed(LatestRules(s, id))
                  && forall i, j :: 0 <= i < j < |s.rows[id]| ==> s.rows[id][i].priority != s.rows[id][j].priority)
  {
    RunKeepsConsistent(Store(map[], map[], map[]), ops, known);
    var s := Run(Store(map[], map[], map[]), ops, known);
    if id in s.policies {
      assert RulesAgree(s, id);
      StoredPrioritiesDistinct(LatestRules(s, id));
    }
  }
}
