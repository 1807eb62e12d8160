/** The rules of a policy: normalization of a submitted rule list, and the two forms in which it is stored. */
module PolicyRules {
  import opened Text
  import opened CommonTypes

  type U32 = x: nat | x < 0x1_0000_0000

  datatype Conditions = Conditions(domains: Option<seq<string>>, categories: Option<seq<string>>,
                                   users: Option<seq<string>>, groups: Option<seq<string>>,
                                   sourceIps: Option<seq<string>>, riskLevels: Option<seq<string>>)

  datatype Payload = Payload(id: Option<string>, description: Option<string>, priority: U32, action: string,
                             conditions: Conditions)

  datatype Rule = Rule(id: string, description: Option<string>, priority: U32, action: PolicyAction,
                       conditions: Conditions)

  datatype RuleError = NoRules | DuplicatePriority | BadAction | BadDomain | EmptyId | DuplicateId | BadCategory

  // ---------- one rule ----------

  /** `parse_action` of the policy routes. */
  function ParseAction(value: string): Option<PolicyAction> {
    ParseName(Trim(value))
  }

  function ParseName(v: string): Option<PolicyAction> {
    if v == "Allow" || v == "allow" then Some(Allow)
    else if v == "Block" || v == "block" then Some(Block)
    else if v == "Warn" || v == "warn" then Some(Warn)
    else if v == "Monitor" || v == "monitor" then Some(Monitor)
    else if v == "Review" || v == "review" then Some(Review)
    else if v == "RequireApproval" || v == "requireapproval" || v == "require-approval" then Some(RequireApproval)
    else if v == "ContentPending" || v == "contentpending" || v == "content-pending" then Some(ContentPending)
    else None
  }

  /** The three spellings of an action: its name, the name in small letters, and that with a hyphen between words. */
  predicate Spells(v: string, action: PolicyAction) {
    v == ActionName(action) || v == Lower(ActionName(action)) || v == Hyphenated(action)
  }

  function Hyphenated(action: PolicyAction): string {
    match action
    case RequireApproval => "require-approval"
    case ContentPending => "content-pending"
    case _ => Lower(ActionName(action))
  }

  lemma LowerName(action: PolicyAction)
    ensures Lower(ActionName(action)) ==
            match action
            case Allow => "allow" case Block => "block" case Warn => "warn" case Monitor => "monitor"
            case Review => "review" case RequireApproval => "requireapproval" case ContentPending => "contentpending"
  {
  }

  lemma SpellingParses(v: string, action: PolicyAction)
    requires Spells(v, action)
    ensures ParseName(v) == Some(action)
  {
    LowerName(action);
  }

  lemma ParsedIsSpelling(v: string)
    ensures ParseName(v).Some? ==> Spells(v, ParseName(v).value)
  {
    if ParseName(v).Some? {
      LowerName(ParseName(v).value);
    }
  }

  /** The spellings of an action, with white space around them, are parsed as it, and nothing else is. */
  lemma ParseActionExactly(value: string, action: PolicyAction)
    ensures ParseAction(value) == Some(action) <==> Spells(Trim(value), action)
  {
    ParsedIsSpelling(Trim(value));
    if Spells(Trim(value), action) {
      SpellingParses(Trim(value), action);
    }
  }

  function Split(s: string, c: char): (parts: seq<string>)
    ensures parts != []
    decreases |s|
  {
    if c !in s then [s]
    else
      var i := IndexOf(s, c);
      [s[..i]] + Split(s[i + 1..], c)
  }

  function IndexOf(s: string, c: char): (i: nat)
    requires c in s
    ensures i < |s| && s[i] == c && forall k :: 0 <= k < i ==> s[k] != c
  {
    if s[0] == c then 0 else 1 + IndexOf(s[1..], c)
  }

  predicate IsLabelChar(c: char) {
    'a' <= c <= 'z' || 'A' <= c <= 'Z' || '0' <= c <= '9' || c == '-'
  }

  /** `is_valid_domain_label` */
  predicate IsLabel(s: string) {
    s != [] && s[0] != '-' && s[|s| - 1] != '-' && forall i :: 0 <= i < |s| ==> IsLabelChar(s[i])
  }

  function HostPart(domain: string): string {
    var candidate := Lower(Trim(domain));
    if HasPrefix(candidate, "*.") then candidate[2..] else candidate
  }

  /** `validate_domain_patterns` for one pattern. */
  predicate IsDomainPattern(domain: string) {
    var candidate, labels := Lower(Trim(domain)), Split(HostPart(domain), '.');
    candidate != [] && '/' !in candidate && |labels| >= 2 && AllLabels(labels)
  }

  predicate AllLabels(labels: seq<string>) {
    forall i :: 0 <= i < |labels| ==> IsLabel(labels[i])
  }

  predicate IsEdge(c: char) {
    IsLabelChar(c) && c != '-'
  }

  /** What may follow what in a host: only a letter or a digit next to a dot. */
  predicate MayFollow(a: char, b: char) {
    (a == '.' ==> IsEdge(b)) && (b == '.' ==> IsEdge(a))
  }

  predicate Chained(s: string) {
    forall i :: 0 <= i < |s| - 1 ==> MayFollow(s[i], s[i + 1])
  }

  /** A host: letters, digits, `-` and `.`, with a letter or a digit at both ends and on both sides of every dot. */
  predicate IsHost(s: string) {
    s != [] && IsEdge(s[0]) && IsEdge(s[|s| - 1]) && HostChars(s) && Chained(s)
  }

  predicate HostChars(s: string) {
    forall i :: 0 <= i < |s| ==> s[i] == '.' || IsLabelChar(s[i])
  }

  /** The two parts and the dot between them, read off the whole. */
  predicate IsJoined(s: string, head: string, tail: string) {
    && |s| == |head| + 1 + |tail| && s[|head|] == '.'
    && (forall i :: 0 <= i < |head| ==> s[i] == head[i])
    && (forall i :: 0 <= i < |tail| ==> s[|head| + 1 + i] == tail[i])
  }

  lemma ChainedWhole(s: string, head: string, tail: string)
    requires IsJoined(s, head, tail) && head != [] && tail != [] && Chained(s)
    ensures Chained(head) && Chained(tail) && IsEdge(head[|head| - 1]) && IsEdge(tail[0])
  {
    var n := |head|;
    forall i | 0 <= i < |head| - 1 ensures MayFollow(head[i], head[i + 1]) {
      assert MayFollow(s[i], s[i + 1]);
    }
    forall i | 0 <= i < |tail| - 1 ensures MayFollow(tail[i], tail[i + 1]) {
      assert MayFollow(s[n + 1 + i], s[n + 1 + i + 1]);
    }
    assert MayFollow(s[n - 1], s[n]) && MayFollow(s[n], s[n + 1]);
  }

  lemma ChainedParts(s: string, head: string, tail: string)
    requires IsJoined(s, head, tail) && head != [] && tail != []
    requires Chained(head) && Chained(tail) && IsEdge(head[|head| - 1]) && IsEdge(tail[0])
    ensures Chained(s)
  {
    var n := |head|;
    forall i | 0 <= i < |s| - 1 ensures MayFollow(s[i], s[i + 1]) {
      if i < n - 1 {
        assert MayFollow(head[i], head[i + 1]);
      } else if i > n {
        var k := i - n - 1;
        assert s[i] == tail[k] && s[i + 1] == tail[k + 1] && MayFollow(tail[k], tail[k + 1]);
      }
    }
  }

  lemma CharsOfParts(head: string, tail: string)
    ensures HostChars(head + "." + tail) <==> HostChars(head) && HostChars(tail)
  {
    var s, n := head + "." + tail, |head|;
    assert forall i :: 0 <= i < n ==> s[i] == head[i];
    assert s[n] == '.' && forall i :: 0 <= i < |tail| ==> s[n + 1 + i] == tail[i];
  }

  lemma LabelIsHost(s: string)
    requires '.' !in s
    ensures IsLabel(s) <==> IsHost(s)
  {
    assert forall i :: 0 <= i < |s| ==> s[i] != '.';
  }

  lemma HostOfParts(head: string, tail: string)
    requires '.' !in head
    ensures IsHost(head + "." + tail) <==> IsLabel(head) && IsHost(tail)
  {
    var s := head + "." + tail;
    LabelIsHost(head);
    CharsOfParts(head, tail);
    if head != [] && tail != [] {
      if Chained(s) {
        ChainedWhole(s, head, tail);
      } else if Chained(head) && Chained(tail) && IsEdge(head[|head| - 1]) && IsEdge(tail[0]) {
        ChainedParts(s, head, tail);
      }
      assert s[0] == head[0] && s[|s| - 1] == tail[|tail| - 1];
    } else if head == [] {
      assert s[0] == '.';
    } else {
      assert s[|s| - 1] == '.';
    }
  }

  lemma LabelsCons(first: string, rest: seq<string>)
    ensures AllLabels([first] + rest) <==> IsLabel(first) && AllLabels(rest)
  {
    var all := [first] + rest;
    assert all[0] == first && forall k :: 0 <= k < |rest| ==> all[k + 1] == rest[k];
    if AllLabels(rest) && IsLabel(first) {
      forall i | 0 <= i < |all| ensures IsLabel(all[i]) {
        assert i > 0 ==> all[i] == rest[i - 1];
      }
    }
  }

  lemma {:induction false} SplitHost(s: string)
    ensures AllLabels(Split(s, '.')) <==> IsHost(s)
    decreases |s|
  {
    if '.' in s {
      var i := IndexOf(s, '.');
      assert s == s[..i] + "." + s[i + 1..];
      HostOfParts(s[..i], s[i + 1..]);
      SplitHost(s[i + 1..]);
      LabelsCons(s[..i], Split(s[i + 1..], '.'));
    } else {
      LabelIsHost(s);
      LabelsCons(s, []);
      assert [s] + [] == [s];
    }
  }

  predicate IsDottedHost(s: string) {
    IsHost(s) && '.' in s
  }

  /** An accepted pattern is, after an optional `*.`, a host with at least one dot. */
  lemma DomainPatternExactly(domain: string)
    ensures IsDomainPattern(domain) <==> IsDottedHost(HostPart(domain))
  {
    SplitHost(HostPart(domain));
    SplitCount(HostPart(domain));
    if IsHost(HostPart(domain)) {
      HostHasNoSlash(Lower(Trim(domain)), HostPart(domain));
    }
  }

  lemma SplitCount(s: string)
    ensures |Split(s, '.')| >= 2 <==> '.' in s
  {
  }

  lemma HostHasNoSlash(candidate: string, host: string)
    requires host == (if HasPrefix(candidate, "*.") then candidate[2..] else candidate) && IsHost(host)
    ensures candidate != [] && '/' !in candidate
  {
    assert forall i :: 0 <= i < |host| ==> host[i] != '/';
    if HasPrefix(candidate, "*.") {
      assert candidate == "*." + host;
    }
  }

  /** The checks of `validate_domain_patterns` for one pattern, in the order of the source. */
  method ValidateDomain(domain: string) returns (ok: bool)
    ensures ok <==> IsDomainPattern(domain)
  {
    var candidate := Lower(Trim(domain));
    if candidate == [] {
      return false;
    }
    if '/' in candidate {
      return false;
    }
    var labels := Split(HostPart(domain), '.');
    if |labels| < 2 {
      return false;
    }
    for i := 0 to |labels|
      invariant AllLabels(labels[..i])
    {
      if !IsLabel(labels[i]) {
        return false;
      }
      assert labels[..i + 1] == labels[..i] + [labels[i]];
    }
    assert labels[..|labels|] == labels;
    return true;
  }

  lemma PatternsFrom(domains: seq<string>, i: nat)
    requires i < |domains|
    ensures AllPatterns(domains[i..]) <==> IsDomainPattern(domains[i]) && AllPatterns(domains[i + 1..])
  {
    assert domains[i..][0] == domains[i] && domains[i..][1..] == domains[i + 1..];
  }

  method ValidateDomains(conditions: Conditions) returns (ok: bool)
    ensures ok <==> DomainsValid(conditions)
  {
    if conditions.domains.None? {
      return true;
    }
    var domains := conditions.domains.value;
    for i := 0 to |domains|
      invariant AllPatterns(domains) <==> AllPatterns(domains[i..])
    {
      PatternsFrom(domains, i);
      var valid := ValidateDomain(domains[i]);
      if !valid {
        return false;
      }
    }
    return true;
  }

  predicate AllPatterns(domains: seq<string>) {
    domains == [] || (IsDomainPattern(domains[0]) && AllPatterns(domains[1..]))
  }

  predicate DomainsValid(conditions: Conditions) {
    conditions.domains.Some? ==> AllPatterns(conditions.domains.value)
  }

  /** What normalization needs to know of a payload by itself. */
  datatype Checked = Checked(priority: U32, action: Option<PolicyAction>, domainsValid: bool, id: string,
                             description: Option<string>, conditions: Conditions)

  /** The id a rule gets: the submitted one or a generated one, trimmed. */
  function IdOf(p: Payload, generated: string): string {
    Trim(if p.id.Some? then p.id.value else generated)
  }

  /** The id is the given one without the white space around it. */
  lemma IdOfMeaning(p: Payload, generated: string) returns (lo: nat, hi: nat)
    ensures var given := if p.id.Some? then p.id.value else generated;
            && lo <= hi <= |given| && IdOf(p, generated) == given[lo..hi] && IsTrimmed(IdOf(p, generated))
            && forall i :: 0 <= i < |given| && !(lo <= i < hi) ==> IsWhitespace(given[i])
  {
    lo, hi := TrimMeaning(if p.id.Some? then p.id.value else generated);
  }

  /** `generated` stands for a new UUID. */
  function Check(p: Payload, generated: string): Checked {
    Checked(p.priority, ParseAction(p.action), DomainsValid(p.conditions), IdOf(p, generated), p.description,
            p.conditions)
  }

  function CheckAll(payloads: seq<Payload>, generated: nat -> string): (checked: seq<Checked>)
    ensures |checked| == |payloads|
    ensures forall i :: 0 <= i < |payloads| ==> checked[i] == Check(payloads[i], generated(i))
  {
    seq(|payloads|, i requires 0 <= i < |payloads| => Check(payloads[i], generated(i)))
  }

  // ---------- the list ----------

  predicate PriorityTaken(rules: seq<Rule>, priority: U32) {
    exists i :: 0 <= i < |rules| && rules[i].priority == priority
  }

  predicate IdTaken(rules: seq<Rule>, id: string) {
    exists i :: 0 <= i < |rules| && rules[i].id == id
  }

  function RuleOf(c: Checked): Rule
    requires c.action.Some?
  {
    Rule(c.id, c.description, c.priority, c.action.value, c.conditions)
  }

  function Fault(rules: seq<Rule>, c: Checked): Option<RuleError> {
    if PriorityTaken(rules, c.priority) then Some(DuplicatePriority)
    else if c.action.None? then Some(BadAction)
    else if !c.domainsValid then Some(BadDomain)
    else if c.id == "" then Some(EmptyId)
    else if IdTaken(rules, c.id) then Some(DuplicateId)
    else None
  }

  /** The rules so far, or the first error. */
  function NormalizedPrefix(checked: seq<Checked>): Result<seq<Rule>, RuleError> {
    if checked == [] then Ok([])
    else
      var last := |checked| - 1;
      match NormalizedPrefix(checked[..last])
      case Err(e) => Err(e)
      case Ok(rules) => Extended(rules, checked[last])
  }

  function Extended(rules: seq<Rule>, c: Checked): Result<seq<Rule>, RuleError> {
    var fault := Fault(rules, c);
    if fault.Some? || c.action.None? then Err(if fault.Some? then fault.value else BadAction)
    else Ok(rules + [RuleOf(c)])
  }

  /** `normalize_rules` */
  function NormalizeRules(checked: seq<Checked>): Result<seq<Rule>, RuleError> {
    if checked == [] then Err(NoRules) else NormalizedPrefix(checked)
  }

  /** The loop of `normalize_rules`, with its two sets. */
  method Normalize(payloads: seq<Payload>, generated: nat -> string) returns (r: Result<seq<Rule>, RuleError>)
    ensures r == NormalizeRules(CheckAll(payloads, generated))
  {
    ghost var checked := CheckAll(payloads, generated);
    if payloads == [] {
      return Err(NoRules);
    }
    var seenPriorities: set<U32> := {};
    var seenIds: set<string> := {};
    var normalized: seq<Rule> := [];
    for i := 0 to |payloads|
      invariant NormalizedPrefix(checked[..i]) == Ok(normalized)
      invariant forall p :: p in seenPriorities <==> PriorityTaken(normalized, p)
      invariant forall id :: id in seenIds <==> IdTaken(normalized, id)
    {
      OneMore(checked, i);
      ErrorStays(checked, i + 1);
      var fault, rule := NormalizeOne(payloads[i], generated(i), seenPriorities, seenIds, normalized);
      if fault.Some? {
        return Err(fault.value);
      }
      TakenAfterAppend(normalized, rule);
      seenPriorities, seenIds := seenPriorities + {rule.priority}, seenIds + {rule.id};
      normalized := normalized + [rule];
    }
    assert checked[..|checked|] == checked;
    return Ok(normalized);
  }

  /** One iteration: the checks in the order of the source. */
  method NormalizeOne(p: Payload, generated: string, seenPriorities: set<U32>, seenIds: set<string>,
                      ghost normalized: seq<Rule>)
    returns (fault: Option<RuleError>, rule: Rule)
    requires forall x :: x in seenPriorities <==> PriorityTaken(normalized, x)
    requires forall id :: id in seenIds <==> IdTaken(normalized, id)
    ensures var c := Check(p, generated);
            fault == Fault(normalized, c) && (fault.None? ==> c.action.Some? && rule == RuleOf(c))
  {
    rule := Rule("", p.description, p.priority, Block, p.conditions);
    if p.priority in seenPriorities {
      return Some(DuplicatePriority), rule;
    }
    var action := ParseAction(p.action);
    if action.None? {
      return Some(BadAction), rule;
    }
    var valid := ValidateDomains(p.conditions);
    if !valid {
      return Some(BadDomain), rule;
    }
    var id := Trim(if p.id.Some? then p.id.value else generated);
    if id == "" {
      return Some(EmptyId), rule;
    }
    if id in seenIds {
      return Some(DuplicateId), rule;
    }
    return None, Rule(id, p.description, p.priority, action.value, p.conditions);
  }

  lemma OneMore(checked: seq<Checked>, i: nat)
    requires i < |checked|
    ensures NormalizedPrefix(checked[..i + 1]) ==
            match NormalizedPrefix(checked[..i])
            case Err(e) => Err(e)
            case Ok(rules) => Extended(rules, checked[i])
  {
    assert checked[..i + 1][..i] == checked[..i];
  }

  lemma {:induction false} ErrorStays(checked: seq<Checked>, n: nat)
    requires n <= |checked|
    ensures NormalizedPrefix(checked[..n]).Err? ==> NormalizedPrefix(checked) == NormalizedPrefix(checked[..n])
    decreases |checked|
  {
    if n == |checked| {
      assert checked[..n] == checked;
    } else {
      ErrorStays(checked[..|checked| - 1], n);
      assert checked[..|checked| - 1][..n] == checked[..n];
    }
  }

  lemma TakenAfterAppend(rules: seq<Rule>, rule: Rule)
    ensures forall p :: PriorityTaken(rules + [rule], p) <==> PriorityTaken(rules, p) || p == rule.priority
    ensures forall id :: IdTaken(rules + [rule], id) <==> IdTaken(rules, id) || id == rule.id
  {
    var all := rules + [rule];
    assert all[|rules|] == rule;
    forall p ensures PriorityTaken(all, p) <==> PriorityTaken(rules, p) || p == rule.priority {
      if PriorityTaken(rules, p) {
        var i :| 0 <= i < |rules| && rules[i].priority == p;
        assert all[i] == rules[i];
      }
    }
    forall id ensures IdTaken(all, id) <==> IdTaken(rules, id) || id == rule.id {
      if IdTaken(rules, id) {
        var i :| 0 <= i < |rules| && rules[i].id == id;
        assert all[i] == rules[i];
      }
    }
  }

  /** A rule list that can be stored: not empty, with distinct priorities and distinct ids, none empty. */
  predicate WellFormed(rules: seq<Rule>) {
    && rules != []
    && (forall i, j :: 0 <= i < j < |rules| ==> rules[i].priority != rules[j].priority && rules[i].id != rules[j].id)
    && (forall i :: 0 <= i < |rules| ==> rules[i].id != "")
  }

  predicate Acceptable(checked: seq<Checked>) {
    && (forall i, j :: 0 <= i < j < |checked| ==>
        checked[i].priority != checked[j].priority && checked[i].id != checked[j].id)
    && (forall i :: 0 <= i < |checked| ==> checked[i].action.Some? && checked[i].domainsValid && checked[i].id != "")
  }

  /** Normalization accepts a list if and only if it is not empty, every action, domain and id in it is valid,
      and priorities and ids are distinct; it then keeps the rules in order. */
  lemma {:induction false} NormalizePrefixExactly(checked: seq<Checked>)
    ensures NormalizedPrefix(checked).Ok? <==> Acceptable(checked)
    ensures NormalizedPrefix(checked).Ok? ==> AreRulesOf(NormalizedPrefix(checked).value, checked)
  {
    if checked != [] {
      var last := |checked| - 1;
      var before, c := checked[..last], checked[last];
      NormalizePrefixExactly(before);
      assert before + [c] == checked;
      AcceptableAppend(before, c);
      if NormalizedPrefix(before).Ok? {
        ExtendedExactly(NormalizedPrefix(before).value, before, c);
      }
    }
  }

  predicate AreRulesOf(rules: seq<Rule>, checked: seq<Checked>) {
    |rules| == |checked| && forall i :: 0 <= i < |checked| ==> checked[i].action.Some? && rules[i] == RuleOf(checked[i])
  }

  lemma ExtendedExactly(rules: seq<Rule>, before: seq<Checked>, c: Checked)
    requires AreRulesOf(rules, before)
    ensures Extended(rules, c).Ok? <==> c.action.Some? && c.domainsValid && c.id != "" && !Repeats(before, c)
    ensures Extended(rules, c).Ok? ==> AreRulesOf(Extended(rules, c).value, before + [c])
  {
    TakenInChecked(rules, before, c);
  }

  /** Whether one more entry repeats a priority or an id of the entries before it. */
  predicate Repeats(before: seq<Checked>, c: Checked) {
    exists i :: 0 <= i < |before| && (before[i].priority == c.priority || before[i].id == c.id)
  }

  lemma TakenInChecked(rules: seq<Rule>, before: seq<Checked>, c: Checked)
    requires AreRulesOf(rules, before)
    ensures PriorityTaken(rules, c.priority) || IdTaken(rules, c.id) <==> Repeats(before, c)
  {
    if PriorityTaken(rules, c.priority) {
      var i :| 0 <= i < |rules| && rules[i].priority == c.priority;
      assert before[i].priority == c.priority;
    }
    if IdTaken(rules, c.id) {
      var i :| 0 <= i < |rules| && rules[i].id == c.id;
      assert before[i].id == c.id;
    }
  }

  lemma AcceptableAppend(before: seq<Checked>, c: Checked)
    ensures Acceptable(before + [c]) <==>
            Acceptable(before) && c.action.Some? && c.domainsValid && c.id != "" && !Repeats(before, c)
  {
    var all := before + [c];
    assert all[|before|] == c && forall i :: 0 <= i < |before| ==> all[i] == before[i];
    if Repeats(before, c) {
      var i :| 0 <= i < |before| && (before[i].priority == c.priority || before[i].id == c.id);
      assert all[i].priority == all[|before|].priority || all[i].id == all[|before|].id;
    }
    if Acceptable(all) {
      forall i, j | 0 <= i < j < |before|
        ensures before[i].priority != before[j].priority && before[i].id != before[j].id {
        assert all[i].priority != all[j].priority && all[i].id != all[j].id;
      }
    }
  }

  lemma NormalizeRulesExactly(checked: seq<Checked>)
    ensures NormalizeRules(checked).Ok? <==> checked != [] && Acceptable(checked)
    ensures NormalizeRules(checked).Ok? ==>
            WellFormed(NormalizeRules(checked).value) && |NormalizeRules(checked).value| == |checked|
  {
    NormalizePrefixExactly(checked);
  }

  predicate ListsHosts(conditions: Conditions) {
    conditions.domains.Some? ==>
      forall i :: 0 <= i < |conditions.domains.value| ==> IsDottedHost(HostPart(conditions.domains.value[i]))
  }

  predicate AcceptablePayload(p: Payload, generated: string) {
    ParseAction(p.action).Some? && ListsHosts(p.conditions) && IdOf(p, generated) != ""
  }

  /** Every rule is acceptable by itself, and priorities and trimmed ids are distinct. */
  predicate Submittable(payloads: seq<Payload>, generated: nat -> string) {
    && payloads != []
    && (forall i :: 0 <= i < |payloads| ==> AcceptablePayload(payloads[i], generated(i)))
    && (forall i, j :: 0 <= i < j < |payloads| ==>
          payloads[i].priority != payloads[j].priority
              && IdOf(payloads[i], generated(i)) != IdOf(payloads[j], generated(j)))
  }

  /** The submitted rules in order, with the parsed action and the trimmed id. */
  predicate AreSubmitted(rules: seq<Rule>, payloads: seq<Payload>, generated: nat -> string) {
    && |rules| == |payloads|
    && forall i :: 0 <= i < |payloads| ==>
         && ParseAction(payloads[i].action).Some?
         && rules[i] == Rule(IdOf(payloads[i], generated(i)), payloads[i].description, payloads[i].priority,
                             ParseAction(payloads[i].action).value, payloads[i].conditions)
  }

  /** A submitted list is accepted if and only if it is not empty, every action is a known name, every listed domain
      is a dotted host with an optional `*.`, every trimmed id is not empty, and priorities and trimmed ids are
      distinct. The rules then are the submitted ones, in order, with the parsed action and the trimmed id. */
  lemma SubmittedRulesExactly(payloads: seq<Payload>, generated: nat -> string)
    ensures var r := NormalizeRules(CheckAll(payloads, generated));
            && (r.Ok? <==> Submittable(payloads, generated))
            && (r.Ok? ==> WellFormed(r.value) && AreSubmitted(r.value, payloads, generated))
  {
    var checked := CheckAll(payloads, generated);
    NormalizePrefixExactly(checked);
    NormalizeRulesExactly(checked);
    forall i | 0 <= i < |payloads|
      ensures checked[i].action.Some? && checked[i].domainsValid && checked[i].id != "" <==>
              AcceptablePayload(payloads[i], generated(i))
    {
      DomainsValidExactly(payloads[i].conditions);
    }
  }

  /** The fault that an error stands for, at one place of the submitted list. */
  predicate IsFault(e: RuleError, payloads: seq<Payload>, generated: nat -> string, n: nat)
    requires n < |payloads|
  {
    match e
    case NoRules => false
    case DuplicatePriority => exists i :: 0 <= i < n && payloads[i].priority == payloads[n].priority
    case BadAction => ParseAction(payloads[n].action).None?
    case BadDomain => !ListsHosts(payloads[n].conditions)
    case EmptyId => IdOf(payloads[n], generated(n)) == ""
    case DuplicateId => exists i :: 0 <= i < n && IdOf(payloads[i], generated(i)) == IdOf(payloads[n], generated(n))
    case BadCategory => false
  }

  lemma {:induction false} FirstFault(checked: seq<Checked>) returns (n: nat)
    requires NormalizedPrefix(checked).Err?
    ensures n < |checked| && NormalizedPrefix(checked[..n]).Ok?
    ensures Extended(NormalizedPrefix(checked[..n]).value, checked[n]) == Err(NormalizedPrefix(checked).error)
  {
    var last := |checked| - 1;
    if NormalizedPrefix(checked[..last]).Ok? {
      n := last;
    } else {
      n := FirstFault(checked[..last]);
      assert checked[..last][..n] == checked[..n];
    }
  }

  lemma FaultOfChecked(checked: seq<Checked>, n: nat)
    requires n < |checked| && NormalizedPrefix(checked[..n]).Ok?
    requires Extended(NormalizedPrefix(checked[..n]).value, checked[n]).Err?
    ensures match Extended(NormalizedPrefix(checked[..n]).value, checked[n]).error
            case DuplicatePriority => exists i :: 0 <= i < n && checked[i].priority == checked[n].priority
            case BadAction => checked[n].action.None?
            case BadDomain => !checked[n].domainsValid
            case EmptyId => checked[n].id == ""
            case DuplicateId => exists i :: 0 <= i < n && checked[i].id == checked[n].id
            case _ => false
  {
    NormalizePrefixExactly(checked[..n]);
    var rules := NormalizedPrefix(checked[..n]).value;
    if PriorityTaken(rules, checked[n].priority) {
      var i :| 0 <= i < n && rules[i].priority == checked[n].priority;
      assert checked[..n][i].priority == rules[i].priority;
    } else if IdTaken(rules, checked[n].id) {
      var i :| 0 <= i < n && rules[i].id == checked[n].id;
      assert checked[..n][i].id == rules[i].id;
    }
  }

  /** A refused list is refused for the first place at which it goes wrong: what stands before that place is fine by
      itself, and the error is a fault of that place. */
  lemma RefusalNamesFirstFault(payloads: seq<Payload>, generated: nat -> string) returns (n: nat)
    requires NormalizeRules(CheckAll(payloads, generated)).Err? && payloads != []
    ensures n < |payloads| && IsFault(NormalizeRules(CheckAll(payloads, generated)).error, payloads, generated, n)
    ensures n > 0 ==> Submittable(payloads[..n], generated)
  {
    var checked := CheckAll(payloads, generated);
    n := FirstFault(checked);
    FaultOfChecked(checked, n);
    DomainsValidExactly(payloads[n].conditions);
    if n > 0 {
      assert CheckAll(payloads[..n], generated) == checked[..n];
      SubmittedRulesExactly(payloads[..n], generated);
    }
  }

  lemma DomainsValidExactly(conditions: Conditions)
    ensures DomainsValid(conditions) <==> ListsHosts(conditions)
  {
    if conditions.domains.Some? {
      AllPatternsExactly(conditions.domains.value);
    }
  }

  lemma {:induction false} AllPatternsExactly(domains: seq<string>)
    ensures AllPatterns(domains) <==> forall i :: 0 <= i < |domains| ==> IsDottedHost(HostPart(domains[i]))
  {
    if domains != [] {
      DomainPatternExactly(domains[0]);
      AllPatternsExactly(domains[1..]);
      assert forall i :: 1 <= i < |domains| ==> domains[i] == domains[1..][i - 1];
      if AllPatterns(domains) {
        forall i | 0 <= i < |domains| ensures IsDottedHost(HostPart(domains[i])) {
          assert i > 0 ==> domains[i] == domains[1..][i - 1];
        }
      }
    }
  }

  // ---------- the stored rows ----------

  datatype RuleRow = RuleRow(priority: int, action: string, description: Option<string>, conditions: Conditions)

  /** `priority as i32` */
  function AsI32(x: U32): int {
    if x < 0x8000_0000 then x else x - 0x1_0000_0000
  }

  /** The cast keeps the value modulo 2^32 and lands in the range of a signed 32-bit integer. */
  lemma CastExactly(x: U32, y: int)
    ensures AsI32(x) == y <==> -0x8000_0000 <= y < 0x8000_0000 && (y - x) % 0x1_0000_0000 == 0
  {
  }

  function RowOf(rule: Rule): RuleRow {
    RuleRow(AsI32(rule.priority), ActionName(rule.action), rule.description, rule.conditions)
  }

  function RowsOf(rules: seq<Rule>): (rows: seq<RuleRow>)
    ensures |rows| == |rules| && forall i :: 0 <= i < |rules| ==> rows[i] == RowOf(rules[i])
  {
    seq(|rules|, i requires 0 <= i < |rules| => RowOf(rules[i]))
  }

  /** A stored row holds all of its rule but the id. */
  lemma RowKeepsRule(a: Rule, b: Rule)
    ensures RowOf(a) == RowOf(b) <==> a == b.(id := a.id)
    ensures var row := RowOf(a); row.description == a.description && row.conditions == a.conditions
    ensures ParseAction(RowOf(a).action) == Some(a.action)
  {
    ParseActionExactly(RowOf(a).action, a.action);
    NameIsTrimmed(a.action);
  }

  lemma NameIsTrimmed(action: PolicyAction)
    ensures Trim(ActionName(action)) == ActionName(action)
  {
    TrimFixpoint(ActionName(action));
  }

  /** The cast loses nothing: distinct priorities stay distinct in the stored rows. */
  lemma StoredPrioritiesDistinct(rules: seq<Rule>)
    requires WellFormed(rules)
    ensures forall i, j :: 0 <= i < j < |rules| ==> RowsOf(rules)[i].priority != RowsOf(rules)[j].priority
  {
  }
}
