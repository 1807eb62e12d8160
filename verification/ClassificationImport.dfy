/** Import of a classification bundle: validation per entry, last-wins deduplication by key, merge and
    replace, skip detection, and the counters of a dry run. */
module ClassificationImport {
  import opened Text
  import opened CommonTypes
  import opened DomainScope
  import Taxonomy
  import LabelIndex

  datatype Entry = Entry(normalizedKey: string, primaryCategory: string, subcategory: string, riskLevel: Option<string>,
                         recommendedAction: Option<string>, confidence: Option<real>)

  datatype Prepared = Prepared(key: string, category: string, subcategory: string, risk: string, action: PolicyAction,
                               confidence: real)

  datatype RowError = InvalidKey | InvalidTaxonomy | PolicyDecisionFailed | MissingAction | InvalidAction
                    | MissingRisk | InvalidRisk | InvalidConfidence

  /** What the import consults: the ids of accepted labels (`AcceptedLabels` of a taxonomy store), the
      registered domain of a host, and the policy engine's answer for a key and its labels. */
  datatype Services = Services(labels: (string, string) -> Option<(string, string)>, registered: string -> string,
                               engine: (string, string, string) -> Option<(string, PolicyAction, real)>)

  // ---------- keys ----------

  function KeyHost(key: string): Option<string> {
    if HasPrefix(key, DOMAIN) then Some(key[|DOMAIN|..])
    else if HasPrefix(key, SUBDOMAIN) then Some(key[|SUBDOMAIN|..])
    else None
  }

  /** `parse_normalized_key` succeeds. */
  predicate Parses(key: string) {
    KeyHost(key).Some? && Trim(KeyHost(key).value) != ""
  }

  /** `trim_end_matches('.')` */
  function TrimDots(s: string): string {
    if s != [] && s[|s| - 1] == '.' then TrimDots(s[..|s| - 1]) else s
  }

  /** The host a key is canonicalized from; empty if the key's host is all dots. */
  function CanonicalHost(key: string): string {
    if KeyHost(key).Some? then Lower(TrimDots(Trim(KeyHost(key).value))) else ""
  }

  function Dots(n: nat): string {
    seq(n, _ => '.')
  }

  lemma {:induction false} TrimDotsMeaning(s: string) returns (n: nat)
    ensures s == TrimDots(s) + Dots(n) && (TrimDots(s) != [] ==> TrimDots(s)[|TrimDots(s)| - 1] != '.')
  {
    if s != [] && s[|s| - 1] == '.' {
      var before := TrimDotsMeaning(s[..|s| - 1]);
      n := before + 1;
      assert s == s[..|s| - 1] + ".";
      assert Dots(n) == Dots(before) + ".";
    } else {
      n := 0;
      assert Dots(0) == [];
    }
  }

  /** The host of a key in small letters, without white space around it and without the dots at its end: `n` of them. */
  lemma CanonicalHostMeaning(key: string) returns (n: nat)
    requires KeyHost(key).Some?
    ensures var host := CanonicalHost(key);
            host + Dots(n) == Lower(Trim(KeyHost(key).value)) && (host != [] ==> host[|host| - 1] != '.')
  {
    var trimmed := Trim(KeyHost(key).value);
    n := TrimDotsMeaning(trimmed);
    assert Lower(TrimDots(trimmed) + Dots(n)) == Lower(TrimDots(trimmed)) + Dots(n);
  }

  /** A key parses if and only if something other than white space follows its prefix. */
  lemma ParsesExactly(key: string)
    ensures Parses(key) <==>
            || (HasPrefix(key, DOMAIN) && !IsBlank(key[|DOMAIN|..]))
            || (HasPrefix(key, SUBDOMAIN) && !IsBlank(key[|SUBDOMAIN|..]))
  {
    PrefixesDiffer(key);
    if KeyHost(key).Some? {
      BlankExactly(KeyHost(key).value);
    }
  }

  /** `canonicalize_key`: the registered domain's key, or the key itself if it has no host. */
  function Canonicalize(key: string, registered: string -> string): string {
    if CanonicalHost(key) == "" then key else DOMAIN + registered(CanonicalHost(key))
  }

  predicate IsDomainKey(key: string) {
    HasPrefix(key, DOMAIN)
  }

  /** A key that parses is canonicalized to a `domain:` key, except a `subdomain:` key of dots only. */
  lemma CanonicalKeyIsDomainExactly(key: string, registered: string -> string)
    requires Parses(key)
    ensures IsDomainKey(Canonicalize(key, registered)) <==> !(HasPrefix(key, SUBDOMAIN) && CanonicalHost(key) == "")
  {
    if CanonicalHost(key) == "" {
      PrefixesDiffer(key);
    } else {
      assert HasPrefix(DOMAIN + registered(CanonicalHost(key)), DOMAIN);
    }
  }

  lemma PrefixesDiffer(key: string)
    ensures !(HasPrefix(key, DOMAIN) && HasPrefix(key, SUBDOMAIN))
  {
    assert DOMAIN[0] == 'd' && SUBDOMAIN[0] == 's';
  }

  /** The one family that is not: its own key stays, outside the `domain:` keys. */
  lemma DotsOnlyKeyStays(registered: string -> string)
    ensures Parses("subdomain:.") && Canonicalize("subdomain:.", registered) == "subdomain:."
    ensures !IsDomainKey("subdomain:.")
  {
    var key := "subdomain:.";
    assert SUBDOMAIN[0] == 's' && DOMAIN[0] == 'd';
    assert HasPrefix(key, SUBDOMAIN) && key[|SUBDOMAIN|..] == ".";
    assert !HasPrefix(key, DOMAIN);
    assert Trim(".") == "." by {
      TrimFixpoint(".");
    }
    assert TrimDots(".") == "";
    assert Lower("") == "";
  }

  // ---------- one entry ----------

  /** `parse_policy_action` */
  function ParseAction(value: string): Option<PolicyAction> {
    if value == "Allow" then Some(Allow)
    else if value == "Block" then Some(Block)
    else if value == "Warn" then Some(Warn)
    else if value == "Monitor" then Some(Monitor)
    else if value == "Review" then Some(Review)
    else if value == "RequireApproval" then Some(RequireApproval)
    else if value == "ContentPending" then Some(ContentPending)
    else None
  }

  /** Parsing undoes printing, and accepts nothing else. */
  lemma ParseActionInverse(value: string, action: PolicyAction)
    ensures ParseAction(value) == Some(action) <==> value == ActionName(action)
  {
  }

  predicate IsRiskLevel(s: string) {
    s == "low" || s == "medium" || s == "high" || s == "critical"
  }

  predicate Resolvable(store: Taxonomy.Store, category: string) {
    Taxonomy.ResolveCategory(store, Trim(category),
                             LabelIndex.NormalizeLabel(Trim(category))).index < |store.categories|
  }

  function IdsOf(store: Taxonomy.Store, r: Taxonomy.Labels): Option<(string, string)> {
    if r.fallback.Some? || r.category >= |store.categories|
        || r.subcategory >= |store.categories[r.category].subcategories| then None
    else Some((store.categories[r.category].id, store.categories[r.category].subcategories[r.subcategory].id))
  }

  function SubcategoryInput(subcategory: string): Option<string> {
    if Trim(subcategory) == "" then None else Some(subcategory)
  }

  /** The ids of accepted labels; `None` if validation falls back. */
  function AcceptedLabels(store: Taxonomy.Store, category: string, subcategory: string): Option<(string, string)> {
    if !Resolvable(store, category) then None
    else IdsOf(store, Taxonomy.ValidateLabels(store, category, SubcategoryInput(subcategory)))
  }

  /** The policy fields of an entry when they are taken as given. */
  function GivenFields(entry: Entry): Result<(string, PolicyAction, real), RowError> {
    if entry.recommendedAction.None? then Err(MissingAction)
    else if ParseAction(entry.recommendedAction.value).None? then Err(InvalidAction)
    else if entry.riskLevel.None? || Trim(entry.riskLevel.value) == "" then Err(MissingRisk)
    else if !IsRiskLevel(Lower(Trim(entry.riskLevel.value))) then Err(InvalidRisk)
    else if entry.confidence.None? || !(0.0 <= entry.confidence.value <= 1.0) then Err(InvalidConfidence)
    else Ok((Lower(Trim(entry.riskLevel.value)), ParseAction(entry.recommendedAction.value).value,
             entry.confidence.value))
  }

  /** One iteration of the preparation loop. */
  function Prepare(services: Services, entry: Entry, recompute: bool): Result<Prepared, RowError> {
    if !Parses(entry.normalizedKey) then Err(InvalidKey)
    else
      var key := Canonicalize(entry.normalizedKey, services.registered);
      match services.labels(entry.primaryCategory, entry.subcategory)
      case None => Err(InvalidTaxonomy)
      case Some((category, subcategory)) =>
        var fields :=
          if !recompute then GivenFields(entry)
          else match services.engine(key, category, subcategory)
            case None => Err(PolicyDecisionFailed)
            case Some(answer) => Ok(answer);
        match fields
        case Err(e) => Err(e)
        case Ok((risk, action, confidence)) => Ok(Prepared(key, category, subcategory, risk, action, confidence))
  }

  /** The fields are taken as given if and only if the action is a known name, the risk level is one of the four in any
      case and with white space around it, and the confidence lies between zero and one. */
  lemma GivenFieldsExactly(entry: Entry)
    ensures GivenFields(entry).Ok? <==>
            && (exists action :: entry.recommendedAction == Some(ActionName(action)))
            && entry.riskLevel.Some? && Lower(Trim(entry.riskLevel.value)) in {"low", "medium", "high", "critical"}
            && entry.confidence.Some? && 0.0 <= entry.confidence.value <= 1.0
    ensures GivenFields(entry).Ok? ==>
              var (risk, action, confidence) := GivenFields(entry).value;
              && risk == Lower(Trim(entry.riskLevel.value)) && entry.recommendedAction == Some(ActionName(action))
              && entry.confidence == Some(confidence)
  {
    if entry.recommendedAction.Some? {
      var parsed := ParseAction(entry.recommendedAction.value);
      forall action ensures parsed == Some(action) <==> entry.recommendedAction == Some(ActionName(action)) {
        ParseActionInverse(entry.recommendedAction.value, action);
      }
      if parsed.Some? {
        assert entry.recommendedAction == Some(ActionName(parsed.value));
      }
    }
    assert Lower("") == "";
  }

  /** Which fault each error stands for. */
  lemma RowErrorNamesItsCause(services: Services, entry: Entry, recompute: bool)
    requires Prepare(services, entry, recompute).Err?
    ensures match Prepare(services, entry, recompute).error
            case InvalidKey => !Parses(entry.normalizedKey)
            case InvalidTaxonomy => services.labels(entry.primaryCategory, entry.subcategory).None?
            case PolicyDecisionFailed => recompute
            case MissingAction => !recompute && entry.recommendedAction.None?
            case InvalidAction => !recompute && forall action :: entry.recommendedAction != Some(ActionName(action))
            case MissingRisk => !recompute && (entry.riskLevel.None? || IsBlank(entry.riskLevel.value))
            case InvalidRisk => !recompute && entry.riskLevel.Some? && !IsBlank(entry.riskLevel.value)
            case InvalidConfidence => !recompute && !(entry.confidence.Some? && 0.0 <= entry.confidence.value <= 1.0)
  {
    if entry.recommendedAction.Some? {
      forall action ensures ParseAction(entry.recommendedAction.value) == Some(action) <==>
                            entry.recommendedAction == Some(ActionName(action)) {
        ParseActionInverse(entry.recommendedAction.value, action);
      }
    }
    if entry.riskLevel.Some? {
      BlankExactly(entry.riskLevel.value);
    }
  }

  /** An entry is prepared under the registered domain of its host with the ids of its labels, and with the fields given
      or, with recomputation on, those the engine answers for that key and those ids. */
  lemma PrepareExactly(services: Services, entry: Entry, recompute: bool)
    ensures var r := Prepare(services, entry, recompute);
            var labels := services.labels(entry.primaryCategory, entry.subcategory);
            var key := Canonicalize(entry.normalizedKey, services.registered);
            && (r.Ok? <==>
                  && Parses(entry.normalizedKey) && labels.Some?
                  && if recompute then services.engine(key, labels.value.0, labels.value.1).Some?
                     else GivenFields(entry).Ok?)
            && (r.Ok? ==>
                  && r.value.key == key && labels == Some((r.value.category, r.value.subcategory))
                  && var fields := (r.value.risk, r.value.action, r.value.confidence);
                  if recompute then services.engine(key, r.value.category, r.value.subcategory) == Some(fields)
                  else GivenFields(entry) == Ok(fields))
  {
  }

  type Outcome = Result<Prepared, RowError>
  type PreparedMap = map<string, Prepared>

  function PrepareAll(services: Services, entries: seq<Entry>, recompute: bool): (outcomes: seq<Outcome>)
    ensures |outcomes| == |entries|
    ensures forall i :: 0 <= i < |entries| ==> outcomes[i] == Prepare(services, entries[i], recompute)
  {
    seq(|entries|, i requires 0 <= i < |entries| => Prepare(services, entries[i], recompute))
  }

  /** `prepared_by_key` after the loop. */
  function Deduplicated(outcomes: seq<Outcome>): PreparedMap {
    if outcomes == [] then map[]
    else
      var last := |outcomes| - 1;
      var before := Deduplicated(outcomes[..last]);
      match outcomes[last]
      case Ok(p) => before[p.key := p]
      case Err(_) => before
  }

  datatype InvalidRow = InvalidRow(index: nat, error: RowError)

  function InvalidRows(outcomes: seq<Outcome>): seq<InvalidRow> {
    if outcomes == [] then []
    else
      var last := |outcomes| - 1;
      InvalidRows(outcomes[..last]) + if outcomes[last].Err? then [InvalidRow(last, outcomes[last].error)] else []
  }

  /** The preparation loop: each outcome goes to `prepared_by_key`, overwriting, or to `invalid_rows`. */
  method Collect(outcomes: seq<Outcome>) returns (prepared: PreparedMap, invalid: seq<InvalidRow>)
    ensures prepared == Deduplicated(outcomes) && invalid == InvalidRows(outcomes)
  {
    prepared, invalid := map[], [];
    for index := 0 to |outcomes|
      invariant prepared == Deduplicated(outcomes[..index]) && invalid == InvalidRows(outcomes[..index])
    {
      assert outcomes[..index + 1][..index] == outcomes[..index];
      match outcomes[index]
      case Ok(p) => prepared := prepared[p.key := p];
      case Err(e) => invalid := invalid + [InvalidRow(index, e)];
    }
    assert outcomes[..|outcomes|] == outcomes;
  }

  predicate Gives(outcome: Outcome, key: string) {
    outcome.Ok? && outcome.value.key == key
  }

  /** The last valid entry with this key. */
  predicate IsLastFor(outcomes: seq<Outcome>, i: int, key: string) {
    0 <= i < |outcomes| && Gives(outcomes[i], key) && forall j :: i < j < |outcomes| ==> !Gives(outcomes[j], key)
  }

  /** A key is prepared if and only if a valid entry has it, and then the last such entry counts. */
  lemma {:induction false} LastValidEntryWins(outcomes: seq<Outcome>, key: string)
    ensures key in Deduplicated(outcomes) <==> exists i :: IsLastFor(outcomes, i, key)
    ensures forall i :: IsLastFor(outcomes, i, key) ==>
            key in Deduplicated(outcomes) && Deduplicated(outcomes)[key] == outcomes[i].value
  {
    if outcomes != [] {
      var last := |outcomes| - 1;
      LastValidEntryWins(outcomes[..last], key);
      if Gives(outcomes[last], key) {
        assert IsLastFor(outcomes, last, key);
      } else {
        forall i ensures IsLastFor(outcomes, i, key) <==> IsLastFor(outcomes[..last], i, key) {
          assert 0 <= i < last ==> outcomes[..last][i] == outcomes[i];
          assert forall j :: i < j < last && 0 <= i ==> outcomes[..last][j] == outcomes[j];
        }
      }
    }
  }

  // ---------- the tables ----------

  datatype Row = Row(category: string, subcategory: string, risk: string, action: string, confidence: real,
                     taxonomyVersion: string)

  datatype Tables = Tables(classifications: map<string, Row>, requests: set<string>, pages: set<string>)

  datatype Mode = Merge | Replace

  datatype Counters = Counters(imported: nat, updated: nat, skipped: nat, deleted: nat)

  /** Storing a confidence as `NUMERIC(5,4)` rounds it to four decimals. */
  function Rounded(x: real): real {
    (x * 10000.0 + 0.5).Floor as real / 10000.0
  }

  lemma RoundingError(x: real)
    ensures -0.00005 <= Rounded(x) - x <= 0.00005
  {
    var scaled := x * 10000.0 + 0.5;
    var n := scaled.Floor as real;
    assert n <= scaled < n + 1.0;
    assert Rounded(x) * 10000.0 == n;
  }

  function StoredRow(p: Prepared, version: string): Row {
    Row(p.category, p.subcategory, p.risk, ActionName(p.action), Rounded(p.confidence), version)
  }

  /** `is_same_classification` */
  predicate IsSame(row: Row, p: Prepared) {
    && row.category == p.category && row.subcategory == p.subcategory
    && row.risk == p.risk && row.action == ActionName(p.action)
    && -0.0001 < row.confidence - p.confidence < 0.0001
  }

  /** Same labels, same risk, an action that parses as the entry's, and confidences less than 0.0001 apart. */
  lemma IsSameExactly(row: Row, p: Prepared)
    ensures IsSame(row, p) <==>
            && (row.category, row.subcategory, row.risk) == (p.category, p.subcategory, p.risk)
            && ParseAction(row.action) == Some(p.action)
            && (if row.confidence < p.confidence then p.confidence - row.confidence
                else row.confidence - p.confidence) < 0.0001
  {
    ParseActionInverse(row.action, p.action);
  }

  /** The row an import compares an entry with: only `domain:` rows are read back. */
  predicate Exists(t: Tables, key: string) {
    IsDomainKey(key) && key in t.classifications
  }

  predicate Skips(t: Tables, prepared: PreparedMap, key: string) {
    key in prepared && Exists(t, key) && IsSame(t.classifications[key], prepared[key])
  }

  function Written(t: Tables, prepared: PreparedMap): set<string> {
    set key | key in prepared && !Skips(t, prepared, key)
  }

  /** `list_existing_domain_keys_union`, without the prepared keys. */
  function ToDelete(t: Tables, prepared: PreparedMap, mode: Mode): set<string> {
    var keys := t.classifications.Keys + t.requests + t.pages;
    if mode.Replace? then set key | key in keys && IsDomainKey(key) && key !in prepared else {}
  }

  /** The tables after an import, said without any order of the prepared keys. */
  function ImportedTables(t: Tables, prepared: PreparedMap, mode: Mode, version: string): Tables {
    var written, gone := Written(t, prepared), ToDelete(t, prepared, mode);
    Tables(map key | key in t.classifications.Keys + written && key !in gone ::
             if key in written then StoredRow(prepared[key], version) else t.classifications[key],
           t.requests - written - gone, t.pages - gone)
  }

  function NewKeys(t: Tables, keys: set<string>): set<string> {
    set key | key in keys && !Exists(t, key)
  }

  function ChangedKeys(t: Tables, prepared: PreparedMap, keys: set<string>): set<string> {
    set key | key in keys && Exists(t, key) && !Skips(t, prepared, key)
  }

  function SkippedKeys(t: Tables, prepared: PreparedMap, keys: set<string>): set<string> {
    set key | key in keys && Skips(t, prepared, key)
  }

  function CountersFor(t: Tables, prepared: PreparedMap, keys: set<string>, deleted: nat): Counters {
    Counters(|NewKeys(t, keys)|, |ChangedKeys(t, prepared, keys)|, |SkippedKeys(t, prepared, keys)|, deleted)
  }

  function ImportCounters(t: Tables, prepared: PreparedMap, mode: Mode): Counters {
    CountersFor(t, prepared, prepared.Keys, |ToDelete(t, prepared, mode)|)
  }

  lemma AddedIf(before: set<string>, after: set<string>, key: string, added: bool)
    requires key !in before && after == if added then before + {key} else before
    ensures |after| == |before| + if added then 1 else 0
  {
  }

  lemma NewStep(t: Tables, keys: set<string>, key: string)
    requires key !in keys
    ensures |NewKeys(t, keys + {key})| == |NewKeys(t, keys)| + if Exists(t, key) then 0 else 1
  {
    AddedIf(NewKeys(t, keys), NewKeys(t, keys + {key}), key, !Exists(t, key));
  }

  lemma SkippedStep(t: Tables, prepared: PreparedMap, keys: set<string>, key: string)
    requires key !in keys
    ensures |SkippedKeys(t, prepared, keys + {key})| ==
            |SkippedKeys(t, prepared, keys)| + if Skips(t, prepared, key) then 1 else 0
  {
    AddedIf(SkippedKeys(t, prepared, keys), SkippedKeys(t, prepared, keys + {key}), key, Skips(t, prepared, key));
  }

  lemma ChangedStep(t: Tables, prepared: PreparedMap, keys: set<string>, key: string)
    requires key !in keys
    ensures |ChangedKeys(t, prepared, keys + {key})| ==
            |ChangedKeys(t, prepared, keys)| + if Exists(t, key) && !Skips(t, prepared, key) then 1 else 0
  {
    AddedIf(ChangedKeys(t, prepared, keys), ChangedKeys(t, prepared, keys + {key}), key, Exists(t, key)
            && !Skips(t, prepared, key));
  }

  /** One more key is counted once. */
  lemma CountStep(t: Tables, prepared: PreparedMap, keys: set<string>, key: string, deleted: nat)
    requires key !in keys && key in prepared
    ensures var before, after := CountersFor(t, prepared, keys, deleted),
            CountersFor(t, prepared, keys + {key}, deleted);
            after == if Skips(t, prepared, key) then before.(skipped := before.skipped + 1)
                     else if Exists(t, key) then before.(updated := before.updated + 1)
                     else before.(imported := before.imported + 1)
  {
    NewStep(t, keys, key);
    SkippedStep(t, prepared, keys, key);
    ChangedStep(t, prepared, keys, key);
  }

  /** The iteration order of a hash map: every key once, in any order. */
  ghost predicate IsOrderOf(order: seq<string>, prepared: PreparedMap) {
    && (forall i, j :: 0 <= i < j < |order| ==> order[i] != order[j])
    && (forall key :: key in order <==> key in prepared)
  }

  function KeysOf(order: seq<string>): set<string> {
    set key | key in order
  }

  lemma KeysOfStep(order: seq<string>, prepared: PreparedMap, i: nat)
    requires IsOrderOf(order, prepared) && i < |order|
    ensures order[i] in prepared && order[i] !in KeysOf(order[..i])
    ensures KeysOf(order[..i + 1]) == KeysOf(order[..i]) + {order[i]}
  {
    assert order[i] in order;
    assert order[..i + 1] == order[..i] + [order[i]];
  }

  /** The tables once these keys have been upserted. */
  function AfterUpserts(t: Tables, prepared: PreparedMap, done: set<string>, version: string): Tables {
    var written := Written(t, prepared) * done;
    Tables(map key | key in t.classifications.Keys + written ::
             if key in written then StoredRow(prepared[key], version) else t.classifications[key],
           t.requests - written, t.pages)
  }

  /** `upsert_import_entry`, and the request it settles. */
  function Upserted(t: Tables, key: string, row: Row): Tables {
    Tables(t.classifications[key := row], t.requests - {key}, t.pages)
  }

  lemma UpsertStep(t: Tables, prepared: PreparedMap, done: set<string>, key: string, version: string)
    requires key in prepared && key !in done
    ensures var before, after := AfterUpserts(t, prepared, done, version),
            AfterUpserts(t, prepared, done + {key}, version);
            after ==
            if Skips(t, prepared, key) then before else Upserted(before, key, StoredRow(prepared[key], version))
  {
    if Skips(t, prepared, key) {
      assert Written(t, prepared) * (done + {key}) == Written(t, prepared) * done;
    } else {
      assert Written(t, prepared) * (done + {key}) == Written(t, prepared) * done + {key};
    }
  }

  lemma UpsertsThenDeletion(t: Tables, prepared: PreparedMap, mode: Mode, version: string)
    ensures AfterUpserts(t, prepared, {}, version) == t
    ensures var t', gone := AfterUpserts(t, prepared, prepared.Keys, version), ToDelete(t, prepared, mode);
            ImportedTables(t, prepared, mode, version) ==
                Tables(t'.classifications - gone, t'.requests - gone, t'.pages - gone)
  {
    assert Written(t, prepared) * prepared.Keys == Written(t, prepared);
    assert Written(t, prepared) * {} == {};
  }

  class Store {
    var tables: Tables

    constructor (tables: Tables)
      ensures this.tables == tables
    {
      this.tables := tables;
    }

    /** One iteration: skip, update or import; `existing` is what was there before the loop. */
    method ApplyEntry(existing: Tables, prepared: PreparedMap, key: string, version: string, before: Counters,
                      ghost done: set<string>) returns (counters: Counters)
      requires key in prepared && key !in done && tables == AfterUpserts(existing, prepared, done, version)
      requires before == CountersFor(existing, prepared, done, 0)
      modifies this
      ensures tables == AfterUpserts(existing, prepared, done + {key}, version)
      ensures counters == CountersFor(existing, prepared, done + {key}, 0)
    {
      CountStep(existing, prepared, done, key, 0);
      UpsertStep(existing, prepared, done, key, version);
      if IsDomainKey(key) && key in existing.classifications {
        if IsSame(existing.classifications[key], prepared[key]) {
          return before.(skipped := before.skipped + 1);
        }
        counters := before.(updated := before.updated + 1);
      } else {
        counters := before.(imported := before.imported + 1);
      }
      tables := Upserted(tables, key, StoredRow(prepared[key], version));
    }

    /** The loop of an applied import over the prepared entries in hash-map order. */
    method ApplyEntries(prepared: PreparedMap, order: seq<string>, version: string) returns (counters: Counters)
      requires IsOrderOf(order, prepared)
      modifies this
      ensures tables == AfterUpserts(old(tables), prepared, prepared.Keys, version)
      ensures counters == CountersFor(old(tables), prepared, prepared.Keys, 0)
    {
      var existing := tables;
      counters := Counters(0, 0, 0, 0);
      ghost var done := {};
      UpsertsThenDeletion(existing, prepared, Merge, version);
      for i := 0 to |order|
        invariant existing == old(tables) && done == KeysOf(order[..i])
        invariant tables == AfterUpserts(existing, prepared, done, version)
        invariant counters == CountersFor(existing, prepared, done, 0)
      {
        KeysOfStep(order, prepared, i);
        counters := ApplyEntry(existing, prepared, order[i], version, counters, done);
        done := done + {order[i]};
      }
      assert order[..|order|] == order && KeysOf(order) == prepared.Keys;
    }

    /** The loop of a dry run. */
    method CountEntries(prepared: PreparedMap, order: seq<string>) returns (counters: Counters)
      requires IsOrderOf(order, prepared)
      ensures counters == CountersFor(tables, prepared, prepared.Keys, 0)
    {
      var imported, updated, skipped := 0, 0, 0;
      for i := 0 to |order|
        invariant Counters(imported, updated, skipped, 0) == CountersFor(tables, prepared, KeysOf(order[..i]), 0)
      {
        var key := order[i];
        KeysOfStep(order, prepared, i);
        CountStep(tables, prepared, KeysOf(order[..i]), key, 0);
        if IsDomainKey(key) && key in tables.classifications {
          if IsSame(tables.classifications[key], prepared[key]) {
            skipped := skipped + 1;
          } else {
            updated := updated + 1;
          }
        } else {
          imported := imported + 1;
        }
      }
      assert order[..|order|] == order && KeysOf(order) == prepared.Keys;
      counters := Counters(imported, updated, skipped, 0);
    }

    /** `import_bundle` from the prepared entries on: nothing it promises mentions `order`. */
    method Import(prepared: PreparedMap, order: seq<string>, mode: Mode, dryRun: bool, version: string)
      returns (counters: Counters)
      requires IsOrderOf(order, prepared)
      modifies this
      ensures tables == if dryRun then old(tables) else ImportedTables(old(tables), prepared, mode, version)
      ensures counters == ImportCounters(old(tables), prepared, mode)
    {
      var gone := ToDelete(tables, prepared, mode);
      UpsertsThenDeletion(tables, prepared, mode, version);
      if dryRun {
        counters := CountEntries(prepared, order);
      } else {
        counters := ApplyEntries(prepared, order, version);
        tables := Tables(tables.classifications - gone, tables.requests - gone, tables.pages - gone);
      }
      counters := counters.(deleted := |gone|);
    }
  }

  // ---------- the laws ----------

  /** Imported, updated and skipped together are the distinct prepared keys, in a dry run too. */
  lemma CountersAddUp(t: Tables, prepared: PreparedMap, mode: Mode)
    ensures var c := ImportCounters(t, prepared, mode);
            c.imported + c.updated + c.skipped == |prepared|
  {
    var keys := prepared.Keys;
    var a, b, c := NewKeys(t, keys), ChangedKeys(t, prepared, keys), SkippedKeys(t, prepared, keys);
    assert a !! b && a + b !! c;
    assert keys == a + b + c;
  }

  /** A replace leaves exactly the prepared `domain:` keys among the `domain:` keys of the table, each with
      the labels of its entry, and no pending request or page of any other `domain:` key. */
  lemma ReplaceLeavesPreparedKeys(t: Tables, prepared: PreparedMap, version: string)
    ensures var t' := ImportedTables(t, prepared, Replace, version);
            && (forall key :: IsDomainKey(key) ==> (key in t'.classifications <==> key in prepared))
            && (forall key :: IsDomainKey(key) && key in prepared ==> IsSame(t'.classifications[key], prepared[key]))
            && (forall key :: IsDomainKey(key) && (key in t'.requests || key in t'.pages) ==> key in prepared)
            && (forall key :: !IsDomainKey(key) && key !in prepared ==>
                  && (key in t'.classifications <==> key in t.classifications)
                  && (key in t.classifications ==> t'.classifications[key] == t.classifications[key]))
  {
    forall key | key in prepared ensures IsSame(StoredRow(prepared[key], version), prepared[key]) {
      StoredIsSame(prepared[key], version);
    }
  }

  predicate SameAt(t: Tables, t': Tables, key: string) {
    && (key in t'.classifications <==> key in t.classifications)
    && (key in t.classifications ==> t'.classifications[key] == t.classifications[key])
    && (key in t'.requests <==> key in t.requests) && (key in t'.pages <==> key in t.pages)
  }

  predicate NowhereIn(t: Tables, key: string) {
    key !in t.classifications && key !in t.requests && key !in t.pages
  }

  /** The tables at one key after an import. A prepared key holds its entry: the old row if that was a `domain:` row
      that says the same, and then its request stays; else a row of this taxonomy version, and no request. Any other
      key is as it was, except that a replace removes every `domain:` key. */
  lemma ImportedExactly(t: Tables, prepared: PreparedMap, mode: Mode, version: string, key: string)
    ensures var t' := ImportedTables(t, prepared, mode, version);
            if key in prepared then
              && key in t'.classifications && IsSame(t'.classifications[key], prepared[key])
              && (key in t'.pages <==> key in t.pages)
              && if IsDomainKey(key) && key in t.classifications && IsSame(t.classifications[key], prepared[key])
                 then SameAt(t, t', key)
                 else key !in t'.requests && t'.classifications[key].taxonomyVersion == version
            else if mode.Replace? && IsDomainKey(key) then NowhereIn(t', key)
            else SameAt(t, t', key)
  {
    if key in prepared {
      ImportedIsSame(t, prepared, mode, version, key);
    }
  }

  /** A merge removes nothing: a key that is not prepared keeps its classification, its request and its page. */
  lemma MergeKeepsTheRest(t: Tables, prepared: PreparedMap, version: string)
    ensures var t' := ImportedTables(t, prepared, Merge, version);
            && (forall key :: key !in prepared ==> SameAt(t, t', key))
            && (forall key :: key in prepared ==>
                  key in t'.classifications && IsSame(t'.classifications[key], prepared[key]))
            && ImportCounters(t, prepared, Merge).deleted == 0
  {
    forall key ensures key !in prepared ==> SameAt(t, ImportedTables(t, prepared, Merge, version), key) {
      ImportedExactly(t, prepared, Merge, version, key);
    }
    forall key | key in prepared
      ensures var t' := ImportedTables(t, prepared, Merge, version);
              key in t'.classifications && IsSame(t'.classifications[key], prepared[key])
    {
      ImportedExactly(t, prepared, Merge, version, key);
    }
  }

  /** All keys that occur in one of the three tables. */
  function AllKeys(t: Tables): set<string> {
    t.classifications.Keys + t.requests + t.pages
  }

  function DomainKeys(t: Tables): set<string> {
    set key | key in t.classifications && IsDomainKey(key)
  }

  /** The keys of `domain:` rows that are there before and after, with another row. */
  function RewrittenKeys(t: Tables, t': Tables): set<string> {
    set key | key in DomainKeys(t) * DomainKeys(t') && t.classifications[key] != t'.classifications[key]
  }

  lemma AppearedKeys(t: Tables, prepared: PreparedMap, mode: Mode, version: string)
    ensures var appeared := DomainKeys(ImportedTables(t, prepared, mode, version)) - DomainKeys(t);
            NewKeys(t, prepared.Keys) == appeared + OddKeys(prepared) && appeared !! OddKeys(prepared)
  {
    var t' := ImportedTables(t, prepared, mode, version);
    forall key ensures key in DomainKeys(t') - DomainKeys(t) <==> key in NewKeys(t, prepared.Keys) && IsDomainKey(key) {
      ImportedExactly(t, prepared, mode, version, key);
    }
  }

  lemma RewrittenAreChanged(t: Tables, prepared: PreparedMap, mode: Mode, version: string)
    ensures RewrittenKeys(t, ImportedTables(t, prepared, mode, version)) == ChangedKeys(t, prepared, prepared.Keys)
  {
    var t' := ImportedTables(t, prepared, mode, version);
    forall key ensures key in RewrittenKeys(t, t') <==> key in ChangedKeys(t, prepared, prepared.Keys) {
      ImportedExactly(t, prepared, mode, version, key);
    }
  }

  lemma VanishedKeys(t: Tables, prepared: PreparedMap, mode: Mode, version: string)
    ensures AllKeys(t) - AllKeys(ImportedTables(t, prepared, mode, version)) == ToDelete(t, prepared, mode)
  {
    var t' := ImportedTables(t, prepared, mode, version);
    forall key ensures key in AllKeys(t) - AllKeys(t') <==> key in ToDelete(t, prepared, mode) {
      ImportedExactly(t, prepared, mode, version, key);
    }
  }

  /** What the counters of an import count, in the tables before and after it and whichever the mode: the `domain:`
      rows that appeared (and every prepared key that is not a `domain:` key), the `domain:` rows that changed, the
      prepared `domain:` rows that did not, and the keys that were in some table and are in none any more. */
  lemma CountersCount(t: Tables, prepared: PreparedMap, mode: Mode, version: string)
    ensures var t', c := ImportedTables(t, prepared, mode, version), ImportCounters(t, prepared, mode);
            && c.imported == |DomainKeys(t') - DomainKeys(t)| + |OddKeys(prepared)|
            && c.updated == |RewrittenKeys(t, t')|
            && c.skipped == |prepared.Keys * DomainKeys(t) - RewrittenKeys(t, t')|
            && c.deleted == |AllKeys(t) - AllKeys(t')|
  {
    AppearedKeys(t, prepared, mode, version);
    RewrittenAreChanged(t, prepared, mode, version);
    VanishedKeys(t, prepared, mode, version);
    var changed := ChangedKeys(t, prepared, prepared.Keys);
    assert prepared.Keys * DomainKeys(t) - changed == SkippedKeys(t, prepared, prepared.Keys);
  }

  lemma StoredIsSame(p: Prepared, version: string)
    ensures IsSame(StoredRow(p, version), p)
  {
    RoundingError(p.confidence);
  }

  lemma ImportedIsSame(t: Tables, prepared: PreparedMap, mode: Mode, version: string, key: string)
    requires key in prepared
    ensures var t' := ImportedTables(t, prepared, mode, version);
            key in t'.classifications && IsSame(t'.classifications[key], prepared[key])
  {
    StoredIsSame(prepared[key], version);
  }

  lemma NewAgain(t: Tables, prepared: PreparedMap, mode: Mode, version: string)
    ensures var t' := ImportedTables(t, prepared, mode, version);
            && ChangedKeys(t', prepared, prepared.Keys) == {} && NewKeys(t', prepared.Keys) == OddKeys(prepared)
            && forall key :: key in prepared && IsDomainKey(key) ==> Skips(t', prepared, key)
  {
    var t' := ImportedTables(t, prepared, mode, version);
    forall key | key in prepared ensures Exists(t', key) <==> IsDomainKey(key)
      ensures Skips(t', prepared, key) <==> IsDomainKey(key)
    {
      ImportedIsSame(t, prepared, mode, version, key);
    }
  }

  /** Importing the same entries again skips every `domain:` key; it only skips, and changes nothing, if and
      only if every prepared key is a `domain:` key. */
  lemma ReimportSkipsExactly(t: Tables, prepared: PreparedMap, mode: Mode, version: string)
    ensures var t' := ImportedTables(t, prepared, mode, version);
            var again := ImportCounters(t', prepared, mode);
            && again.updated == 0 && again.deleted == 0
            && again.imported == |OddKeys(prepared)|
            && (again.skipped == |prepared| <==> OddKeys(prepared) == {})
            && (OddKeys(prepared) == {} ==> ImportedTables(t', prepared, mode, version) == t')
  {
    var t' := ImportedTables(t, prepared, mode, version);
    NewAgain(t, prepared, mode, version);
    NothingLeftToDelete(t, prepared, mode, version);
    CountersAddUp(t', prepared, mode);
    if OddKeys(prepared) == {} {
      forall key | key in prepared ensures IsDomainKey(key) {
        assert key !in OddKeys(prepared);
      }
      NothingToDo(t', prepared, mode, version);
    }
  }

  /** Prepared keys outside the `domain:` keys. */
  function OddKeys(prepared: PreparedMap): set<string> {
    set key | key in prepared && !IsDomainKey(key)
  }

  lemma NothingLeftToDelete(t: Tables, prepared: PreparedMap, mode: Mode, version: string)
    ensures ToDelete(ImportedTables(t, prepared, mode, version), prepared, mode) == {}
  {
  }

  lemma NothingToDo(t: Tables, prepared: PreparedMap, mode: Mode, version: string)
    requires forall key :: key in prepared ==> IsDomainKey(key) && Skips(t, prepared, key)
    requires ToDelete(t, prepared, mode) == {}
    ensures ImportedTables(t, prepared, mode, version) == t
  {
    assert Written(t, prepared) == {};
  }

  /** An entry whose `subdomain:` host is dots only. */
  predicate DotsOnly(entry: Entry) {
    HasPrefix(entry.normalizedKey, SUBDOMAIN) && CanonicalHost(entry.normalizedKey) == ""
  }

  lemma PreparedKey(services: Services, entry: Entry, recompute: bool)
    ensures Prepare(services, entry, recompute).Ok? ==>
              (IsDomainKey(Prepare(services, entry, recompute).value.key) <==> !DotsOnly(entry))
  {
    if Parses(entry.normalizedKey) {
      CanonicalKeyIsDomainExactly(entry.normalizedKey, services.registered);
    }
  }

  lemma {:induction false} ValidKeysArePrepared(outcomes: seq<Outcome>, i: nat)
    requires i < |outcomes| && outcomes[i].Ok?
    ensures outcomes[i].value.key in Deduplicated(outcomes)
    decreases |outcomes|
  {
    if i < |outcomes| - 1 {
      ValidKeysArePrepared(outcomes[..|outcomes| - 1], i);
    }
  }

  /** An odd key comes from a valid entry that gives one, and every such entry does. */
  lemma OddKeysExactly(outcomes: seq<Outcome>, odd: seq<bool>)
    requires |odd| == |outcomes|
    requires forall i :: 0 <= i < |outcomes| && outcomes[i].Ok? ==> (odd[i] <==> !IsDomainKey(outcomes[i].value.key))
    ensures OddKeys(Deduplicated(outcomes)) == {} <==> forall i :: 0 <= i < |outcomes| && outcomes[i].Ok? ==> !odd[i]
  {
    var prepared := Deduplicated(outcomes);
    forall i | 0 <= i < |outcomes| && outcomes[i].Ok? ensures outcomes[i].value.key in prepared {
      ValidKeysArePrepared(outcomes, i);
    }
    forall key | key in OddKeys(prepared) ensures exists i :: 0 <= i < |outcomes| && outcomes[i].Ok? && odd[i] {
      LastValidEntryWins(outcomes, key);
      var i :| IsLastFor(outcomes, i, key);
      assert outcomes[i].Ok?;
    }
    if i :| 0 <= i < |outcomes| && outcomes[i].Ok? && odd[i] {
      assert outcomes[i].value.key in OddKeys(prepared);
    }
  }

  /** Seen from the bundle: importing it a second time only skips if and only if no valid entry has a `subdomain:`
      key of dots only. With recomputation on this holds for a policy engine that answers the same key and labels
      the same way both times, which is what a function parameter says of it. */
  lemma ReimportOfBundle(t: Tables, services: Services, entries: seq<Entry>, recompute: bool, mode: Mode,
                         version: string)
    ensures var outcomes := PrepareAll(services, entries, recompute);
            var prepared := Deduplicated(outcomes);
            var again := ImportCounters(ImportedTables(t, prepared, mode, version), prepared, mode);
            again.skipped == |prepared| <==> forall i :: 0 <= i < |entries| && outcomes[i].Ok? ==> !DotsOnly(entries[i])
  {
    var outcomes := PrepareAll(services, entries, recompute);
    var odd := seq(|entries|, i requires 0 <= i < |entries| => DotsOnly(entries[i]));
    forall i | 0 <= i < |outcomes| && outcomes[i].Ok? ensures odd[i] <==> !IsDomainKey(outcomes[i].value.key) {
      PreparedKey(services, entries[i], recompute);
    }
    ReimportSkipsExactly(t, Deduplicated(outcomes), mode, version);
    OddKeysExactly(outcomes, odd);
  }

  function DotsOnlyEntry(): Entry {
    Entry("subdomain:.", "c", "s", Some("low"), Some("Block"), Some(0.5))
  }

  lemma DotsOnlyEntryIsPrepared(services: Services)
    requires services.labels("c", "s").Some?
    ensures var outcome := Prepare(services, DotsOnlyEntry(), false); outcome.Ok? && outcome.value.key == "subdomain:."
  {
    DotsOnlyKeyStays(services.registered);
    RiskLevelIsPlain("low");
  }

  lemma DeduplicatedOne(outcome: Outcome)
    requires outcome.Ok?
    ensures Deduplicated([outcome]) == map[outcome.value.key := outcome.value]
  {
    assert [outcome][..0] == [];
    assert Deduplicated([]) == map[];
  }

  /** A bundle that fails: its one entry is valid, has the key `subdomain:.`, and is imported anew each time. */
  lemma DotsOnlyBundleIsImportedAgain(t: Tables, services: Services, mode: Mode, version: string)
    requires services.labels("c", "s").Some?
    ensures var prepared := Deduplicated(PrepareAll(services, [DotsOnlyEntry()], false));
            var again := ImportCounters(ImportedTables(t, prepared, mode, version), prepared, mode);
            prepared.Keys == {"subdomain:."} && again.imported == 1 && again.skipped == 0
  {
    var outcome := Prepare(services, DotsOnlyEntry(), false);
    assert PrepareAll(services, [DotsOnlyEntry()], false) == [outcome];
    DotsOnlyEntryIsPrepared(services);
    DeduplicatedOne(outcome);
    assert !IsDomainKey("subdomain:.") by {
      DotsOnlyKeyStays(services.registered);
    }
    OddKeyIsImportedAgain(t, outcome.value, mode, version);
  }

  lemma OddKeyIsImportedAgain(t: Tables, p: Prepared, mode: Mode, version: string)
    requires !IsDomainKey(p.key)
    ensures var prepared := map[p.key := p];
            var again := ImportCounters(ImportedTables(t, prepared, mode, version), prepared, mode);
            again.imported == 1 && again.skipped == 0
  {
    var prepared := map[p.key := p];
    assert OddKeys(prepared) == {p.key};
    ReimportSkipsExactly(t, prepared, mode, version);
    CountersAddUp(ImportedTables(t, prepared, mode, version), prepared, mode);
  }

  // ---------- export and import again ----------

  /** The labels are validated by this taxonomy store. */
  ghost predicate UsesStore(services: Services, store: Taxonomy.Store) {
    forall category, subcategory ::
      services.labels(category, subcategory) == AcceptedLabels(store, category, subcategory)
  }

  /** Accepted labels are accepted again, as themselves. */
  lemma AcceptedLabelsAreStable(store: Taxonomy.Store, t: Taxonomy.CanonicalTaxonomy, category: string,
                                subcategory: string)
    requires Taxonomy.Valid(t) && Taxonomy.TidyIds(t) && Taxonomy.IsStoreOf(store, t)
    ensures var labels := AcceptedLabels(store, category, subcategory);
            labels.Some? ==> AcceptedLabels(store, labels.value.0, labels.value.1) == labels
  {
    if AcceptedLabels(store, category, subcategory).Some? {
      var sub := SubcategoryInput(subcategory);
      Taxonomy.ValidatedLabelsAreStable(store, t, Taxonomy.NormalizedAliases(Taxonomy.CATEGORY_ALIASES),
                                        Taxonomy.NormalizedSubAliases(Taxonomy.SUBCATEGORY_ALIASES), category, sub);
      var r := Taxonomy.ValidateLabels(store, category, sub);
      TrimFixpoint(t.categories[r.category].subcategories[r.subcategory].id);
    }
  }

  /** `export_bundle`, one row: what is stored, under its key. */
  function ExportedEntry(key: string, row: Row): Entry {
    Entry(key, row.category, row.subcategory, Some(row.risk), Some(row.action), Some(row.confidence))
  }

  lemma RiskLevelIsPlain(risk: string)
    requires IsRiskLevel(risk)
    ensures Lower(Trim(risk)) == risk && Trim(risk) != ""
  {
    TrimFixpoint(risk);
    assert forall i :: 0 <= i < |risk| ==> Lower(risk)[i] == risk[i];
  }

  lemma RoundedStaysInRange(x: real)
    requires 0.0 <= x <= 1.0
    ensures 0.0 <= Rounded(x) <= 1.0
  {
    var n := (x * 10000.0 + 0.5).Floor;
    assert 0 <= n <= 10000;
    assert Rounded(x) * 10000.0 == n as real;
  }

  lemma PreparedFields(services: Services, entry: Entry)
    requires Prepare(services, entry, false).Ok?
    ensures var p := Prepare(services, entry, false).value;
            && services.labels(entry.primaryCategory, entry.subcategory) == Some((p.category, p.subcategory))
            && IsRiskLevel(p.risk) && 0.0 <= p.confidence <= 1.0
  {
  }

  lemma GivenFieldsOfExport(key: string, p: Prepared, version: string)
    requires IsRiskLevel(p.risk) && 0.0 <= p.confidence <= 1.0
    ensures GivenFields(ExportedEntry(key, StoredRow(p, version))) == Ok((p.risk, p.action, Rounded(p.confidence)))
  {
    ParseActionInverse(ActionName(p.action), p.action);
    RiskLevelIsPlain(p.risk);
    RoundedStaysInRange(p.confidence);
  }

  lemma PrepareOfExport(services: Services, p: Prepared, version: string)
    requires IsRiskLevel(p.risk) && 0.0 <= p.confidence <= 1.0
    requires services.labels(p.category, p.subcategory) == Some((p.category, p.subcategory))
    requires Parses(p.key) && Canonicalize(p.key, services.registered) == p.key
    ensures Prepare(services, ExportedEntry(p.key, StoredRow(p, version)), false) ==
            Ok(p.(confidence := Rounded(p.confidence)))
  {
    GivenFieldsOfExport(p.key, p, version);
  }

  /** What an import stores is accepted when it is exported and imported again, and found to be the same: for every
      tidy taxonomy, and every key that canonicalizes to itself. */
  lemma ExportedRowIsTheSame(services: Services, store: Taxonomy.Store, t: Taxonomy.CanonicalTaxonomy, entry: Entry,
                             version: string)
    requires Taxonomy.Valid(t) && Taxonomy.TidyIds(t) && Taxonomy.IsStoreOf(store, t) && UsesStore(services, store)
    requires Prepare(services, entry, false).Ok?
    requires var key := Prepare(services, entry, false).value.key;
             Parses(key) && Canonicalize(key, services.registered) == key
    ensures var p := Prepare(services, entry, false).value;
            var again := Prepare(services, ExportedEntry(p.key, StoredRow(p, version)), false);
            again == Ok(p.(confidence := Rounded(p.confidence))) && IsSame(StoredRow(p, version), again.value)
  {
    var p := Prepare(services, entry, false).value;
    PreparedFields(services, entry);
    StableLabels(services, store, t, entry.primaryCategory, entry.subcategory);
    PrepareOfExport(services, p, version);
  }

  lemma StableLabels(services: Services, store: Taxonomy.Store, t: Taxonomy.CanonicalTaxonomy, category: string,
                     subcategory: string)
    requires Taxonomy.Valid(t) && Taxonomy.TidyIds(t) && Taxonomy.IsStoreOf(store, t) && UsesStore(services, store)
    ensures var labels := services.labels(category, subcategory);
            labels.Some? ==> services.labels(labels.value.0, labels.value.1) == labels
  {
    AcceptedLabelsAreStable(store, t, category, subcategory);
  }
}
