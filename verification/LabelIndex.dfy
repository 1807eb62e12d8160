/** Label normalization, and the lookup index that the taxonomy store builds over a list of items:
    built by insertion into maps, and shown equal to a search over the list. */
module LabelIndex {
  import opened Text

  // ---------- normalized labels ----------

  predicate IsWordChar(c: char) {
    'a' <= c <= 'z' || '0' <= c <= '9'
  }

  function MapChar(c: char): char {
    if IsWordChar(LowerChar(c)) then LowerChar(c) else ' '
  }

  /** Every character mapped, with runs of blanks collapsed; `blank` says whether one was just written. */
  function Collapse(s: string, blank: bool): string {
    if s == [] then []
    else if MapChar(s[0]) != ' ' then [MapChar(s[0])] + Collapse(s[1..], false)
    else if blank then Collapse(s[1..], true)
    else [' '] + Collapse(s[1..], true)
  }

  /** `normalize_label` */
  function NormalizeLabel(value: string): Option<string> {
    var trimmed := Trim(value);
    if trimmed == [] then None
    else
      var normalized := Trim(Collapse(trimmed, false));
      if normalized == [] then None else Some(normalized)
  }

  method NormalizeLabelText(value: string) returns (r: Option<string>)
    ensures r == NormalizeLabel(value)
  {
    var trimmed := Trim(value);
    if trimmed == [] {
      return None;
    }
    var buf := FillBuffer(trimmed);
    var normalized := Trim(buf);
    if normalized == [] {
      return None;
    }
    return Some(normalized);
  }

  /** The loop of `normalize_label`. */
  method FillBuffer(trimmed: string) returns (buf: string)
    ensures buf == Collapse(trimmed, false)
  {
    buf := [];
    var lastWasSpace := false;
    for i := 0 to |trimmed|
      invariant buf + Collapse(trimmed[i..], lastWasSpace) == Collapse(trimmed, false)
    {
      var mapped := MapChar(trimmed[i]);
      CollapseStep(buf, trimmed, i, lastWasSpace);
      if mapped == ' ' {
        if !lastWasSpace {
          buf := buf + [' '];
          lastWasSpace := true;
        }
      } else {
        buf := buf + [mapped];
        lastWasSpace := false;
      }
    }
  }

  lemma CollapseStep(buf: string, s: string, i: nat, blank: bool)
    requires i < |s|
    ensures var mapped := MapChar(s[i]);
            buf + Collapse(s[i..], blank) ==
            if mapped != ' ' then buf + [mapped] + Collapse(s[i + 1..], false)
            else if blank then buf + Collapse(s[i + 1..], true)
            else buf + [' '] + Collapse(s[i + 1..], true)
  {
    assert s[i..][1..] == s[i + 1..];
  }

  /** Words of lower-case letters and digits, one blank between two words. */
  predicate IsCanonical(s: string) {
    && s != [] && s[0] != ' ' && s[|s| - 1] != ' '
    && (forall i :: 0 <= i < |s| ==> s[i] == ' ' || IsWordChar(s[i]))
    && (forall i :: 0 <= i < |s| - 1 ==> !(s[i] == ' ' && s[i + 1] == ' '))
  }

  predicate IsCollapsed(s: string) {
    && (forall i :: 0 <= i < |s| ==> s[i] == ' ' || IsWordChar(s[i]))
    && (forall i :: 0 <= i < |s| - 1 ==> !(s[i] == ' ' && s[i + 1] == ' '))
  }

  lemma {:induction false} CollapseMeaning(s: string, blank: bool)
    ensures IsCollapsed(Collapse(s, blank))
    ensures blank && Collapse(s, blank) != [] ==> Collapse(s, blank)[0] != ' '
    decreases |s|
  {
    if s != [] {
      CollapseMeaning(s[1..], MapChar(s[0]) == ' ');
      var rest := Collapse(s[1..], MapChar(s[0]) == ' ');
      var r := Collapse(s, blank);
      if r != rest {
        assert r == [r[0]] + rest;
        forall i | 0 <= i < |r| - 1 ensures !(r[i] == ' ' && r[i + 1] == ' ') {
          if i > 0 {
            assert r[i] == rest[i - 1] && r[i + 1] == rest[i];
          }
        }
      }
    }
  }

  lemma {:induction false} CollapseFixpoint(s: string, blank: bool)
    requires IsCollapsed(s) && (blank && s != [] ==> s[0] != ' ')
    ensures Collapse(s, blank) == s
    decreases |s|
  {
    if s != [] {
      assert s == [s[0]] + s[1..];
      assert s[0] == ' ' && |s| > 1 ==> s[1] != ' ';
      CollapseFixpoint(s[1..], s[0] == ' ');
    }
  }

  lemma SliceOfCollapsed(s: string, lo: int, hi: int)
    requires IsCollapsed(s) && 0 <= lo <= hi <= |s|
    ensures IsCollapsed(s[lo..hi])
  {
    var t := s[lo..hi];
    forall i | 0 <= i < |t| - 1 ensures !(t[i] == ' ' && t[i + 1] == ' ') {
      assert t[i] == s[lo + i] && t[i + 1] == s[lo + i + 1];
    }
  }

  lemma TrimmedIsCanonical(collapsed: string)
    requires IsCollapsed(collapsed) && Trim(collapsed) != []
    ensures IsCanonical(Trim(collapsed))
  {
    var lo, hi := TrimMeaning(collapsed);
    SliceOfCollapsed(collapsed, lo, hi);
    assert IsWhitespace(' ');
  }

  lemma CanonicalIsTrimmed(value: string)
    requires IsCanonical(value)
    ensures Trim(value) == value
  {
    assert forall c :: IsWordChar(c) ==> !IsWhitespace(c);
    TrimFixpoint(value);
  }

  /** Normalized labels are canonical, and a canonical label normalizes to itself. */
  lemma NormalizeLabelCanonical(value: string)
    ensures NormalizeLabel(value).Some? ==> IsCanonical(NormalizeLabel(value).value)
    ensures IsCanonical(value) ==> NormalizeLabel(value) == Some(value)
  {
    var collapsed := Collapse(Trim(value), false);
    CollapseMeaning(Trim(value), false);
    if Trim(collapsed) != [] {
      TrimmedIsCanonical(collapsed);
    }
    if IsCanonical(value) {
      CanonicalIsTrimmed(value);
      CollapseFixpoint(value, false);
    }
  }

  /** The small form of an ASCII letter or digit. */
  function Letter(c: char): Option<char> {
    if 'a' <= c <= 'z' || '0' <= c <= '9' then Some(c)
    else if 'A' <= c <= 'Z' then Some((c as int + 32) as char)
    else None
  }

  /** The letters and digits of a text in order, each with whether a word begins with it. */
  function Spelling(s: string, begins: bool): seq<(char, bool)> {
    if s == [] then []
    else if Letter(s[0]).Some? then [(Letter(s[0]).value, begins)] + Spelling(s[1..], false)
    else Spelling(s[1..], true)
  }

  lemma {:induction false} CollapseSpells(s: string, blank: bool, begins: bool)
    requires blank ==> begins
    ensures Spelling(Collapse(s, blank), begins) == Spelling(s, begins)
    decreases |s|
  {
    if s != [] {
      var c, rest := MapChar(s[0]), Collapse(s[1..], MapChar(s[0]) == ' ');
      CollapseSpells(s[1..], c == ' ', c == ' ');
      assert ([c] + rest)[1..] == rest;
    }
  }

  lemma {:induction false} TrimStartSpells(s: string)
    ensures Spelling(TrimStart(s), true) == Spelling(s, true)
  {
    if s != [] && IsWhitespace(s[0]) {
      TrimStartSpells(s[1..]);
    }
  }

  lemma {:induction false} LastBlankSpells(s: string, begins: bool)
    requires s != [] && Letter(s[|s| - 1]).None?
    ensures Spelling(s[..|s| - 1], begins) == Spelling(s, begins)
    decreases |s|
  {
    if |s| > 1 {
      LastBlankSpells(s[1..], Letter(s[0]).None?);
      assert s[1..][..|s| - 2] == s[..|s| - 1][1..];
    } else {
      assert Spelling(s[1..], true) == [];
    }
  }

  lemma {:induction false} TrimEndSpells(s: string, begins: bool)
    ensures Spelling(TrimEnd(s), begins) == Spelling(s, begins)
    decreases |s|
  {
    if s != [] && IsWhitespace(s[|s| - 1]) {
      LastBlankSpells(s, begins);
      TrimEndSpells(s[..|s| - 1], begins);
    }
  }

  lemma TrimSpells(s: string)
    ensures Spelling(Trim(s), true) == Spelling(s, true)
  {
    TrimStartSpells(s);
    TrimEndSpells(TrimStart(s), true);
  }

  predicate IsEndOfCanonical(s: string) {
    IsCollapsed(s) && (s != [] ==> s[|s| - 1] != ' ')
  }

  lemma EndOfCanonicalRest(s: string)
    requires IsEndOfCanonical(s) && s != []
    ensures IsEndOfCanonical(s[1..])
    ensures s[0] == ' ' ==> |s| > 1 && s[1] != ' '
  {
    SliceOfCollapsed(s, 1, |s|);
    assert s[1..|s|] == s[1..];
  }

  /** Texts with the same spelling are the same, if their words are one blank apart. */
  lemma {:induction false} SpellingDetermines(a: string, b: string, begins: bool)
    requires IsEndOfCanonical(a) && IsEndOfCanonical(b) && Spelling(a, begins) == Spelling(b, begins)
    requires begins ==> (a != [] ==> a[0] != ' ') && (b != [] ==> b[0] != ' ')
    ensures a == b
    decreases |a| + |b|
  {
    if a != [] {
      EndOfCanonicalRest(a);
    }
    if b != [] {
      EndOfCanonicalRest(b);
    }
    if a != [] && b != [] {
      var blank := a[0] == ' ';
      assert a[0] == b[0];
      assert blank || Spelling(a, begins)[1..] == Spelling(b, begins)[1..];
      SpellingDetermines(a[1..], b[1..], blank);
      assert a == [a[0]] + a[1..] && b == [b[0]] + b[1..];
    }
  }

  /** A normalized label spells what the text spells, and a text has none exactly if it has no letter or digit. */
  lemma NormalizeLabelSpells(value: string)
    ensures NormalizeLabel(value).None? <==> Spelling(value, true) == []
    ensures NormalizeLabel(value).Some? ==> Spelling(NormalizeLabel(value).value, true) == Spelling(value, true)
  {
    TrimSpells(value);
    CollapseSpells(Trim(value), false, true);
    TrimSpells(Collapse(Trim(value), false));
    NormalizeLabelCanonical(value);
  }

  /** Two texts have the same normalized label if and only if they spell the same words, whatever the case of their
      letters and whatever stands between the words. */
  lemma NormalizedAlikeExactly(a: string, b: string)
    ensures NormalizeLabel(a) == NormalizeLabel(b) <==> Spelling(a, true) == Spelling(b, true)
  {
    NormalizeLabelSpells(a);
    NormalizeLabelSpells(b);
    NormalizeLabelCanonical(a);
    NormalizeLabelCanonical(b);
    if NormalizeLabel(a).Some? && NormalizeLabel(b).Some? && Spelling(a, true) == Spelling(b, true) {
      SpellingDetermines(NormalizeLabel(a).value, NormalizeLabel(b).value, true);
    }
  }

  // ---------- the index ----------

  /** What the index knows of one item: its id, its normalized name and its normalized id. */
  datatype Keys = Keys(id: string, name: Option<string>, term: Option<string>)

  /** An alias, normalized, and the id it stands for. */
  datatype Alias = Alias(term: Option<string>, target: string)

  type Index = map<string, nat>

  function Find(m: Index, key: string): Option<nat> {
    if key in m then Some(m[key]) else None
  }

  function OrElse(a: Option<nat>, b: Option<nat>): Option<nat> {
    if a.Some? then a else b
  }

  function Insert(m: Index, key: Option<string>, value: nat): Index {
    if key.Some? then m[key.value := value] else m
  }

  /** `entry(key).or_insert(value)` */
  function OrInsert(m: Index, key: Option<string>, value: nat): Index {
    if key.Some? && key.value !in m then m[key.value := value] else m
  }

  function ById(items: seq<Keys>): Index {
    if items == [] then map[]
    else
      var last := |items| - 1;
      ById(items[..last])[items[last].id := last]
  }

  /** The lookup map after the loop: each name overwrites, each id only fills a gap. */
  function Lookup(items: seq<Keys>): Index {
    if items == [] then map[]
    else
      var last := |items| - 1;
      OrInsert(Insert(Lookup(items[..last]), items[last].name, last), items[last].term, last)
  }

  /** The lookup map after the aliases: each fills a gap if its target exists. */
  function WithAliases(lookup: Index, byId: Index, aliases: seq<Alias>): Index {
    if aliases == [] then lookup
    else
      var last := |aliases| - 1;
      var m := WithAliases(lookup, byId, aliases[..last]);
      if aliases[last].target in byId then OrInsert(m, aliases[last].term, byId[aliases[last].target]) else m
  }

  // ---------- the search it stands for ----------

  /** The item with this id; the last one, if ids repeat. */
  function WithId(items: seq<Keys>, id: string): Option<nat> {
    if items == [] then None
    else
      var last := |items| - 1;
      if items[last].id == id then Some(last) else WithId(items[..last], id)
  }

  /** The last item whose normalized name is this term. */
  function LastNamed(items: seq<Keys>, term: string): Option<nat> {
    if items == [] then None
    else
      var last := |items| - 1;
      if items[last].name == Some(term) then Some(last) else LastNamed(items[..last], term)
  }

  /** The first item whose normalized id is this term. */
  function FirstLabelled(items: seq<Keys>, term: string): Option<nat> {
    if items == [] then None
    else
      var last := |items| - 1;
      var earlier := FirstLabelled(items[..last], term);
      if earlier.Some? then earlier else if items[last].term == Some(term) then Some(last) else None
  }

  /** The item of the first alias with this term whose target exists. */
  function FirstAliased(items: seq<Keys>, aliases: seq<Alias>, term: string): Option<nat> {
    if aliases == [] then None
    else
      var last := |aliases| - 1;
      var earlier := FirstAliased(items, aliases[..last], term);
      if earlier.Some? then earlier
      else if aliases[last].term == Some(term) then WithId(items, aliases[last].target)
      else None
  }

  function SearchLabel(items: seq<Keys>, aliases: seq<Alias>, term: string): Option<nat> {
    OrElse(OrElse(LastNamed(items, term), FirstLabelled(items, term)), FirstAliased(items, aliases, term))
  }

  /** Exact id first; else the term, if there is one. */
  function Search(items: seq<Keys>, aliases: seq<Alias>, input: Option<string>, term: Option<string>): Option<nat> {
    var exact := if input.Some? then WithId(items, input.value) else None;
    if exact.Some? then exact else if term.Some? then SearchLabel(items, aliases, term.value) else None
  }

  // ---------- the search says what it claims ----------

  lemma {:induction false} WithIdMeaning(items: seq<Keys>, id: string)
    ensures WithId(items, id).None? <==> forall i :: 0 <= i < |items| ==> items[i].id != id
    ensures WithId(items, id).Some? ==> WithId(items, id).value < |items| && items[WithId(items, id).value].id == id
  {
    if items != [] {
      WithIdMeaning(items[..|items| - 1], id);
    }
  }

  lemma {:induction false} LastNamedMeaning(items: seq<Keys>, term: string)
    ensures var r := LastNamed(items, term);
            && (r.None? <==> forall i :: 0 <= i < |items| ==> items[i].name != Some(term))
            && (r.Some? ==> r.value < |items| && items[r.value].name == Some(term)
                            && forall i :: r.value < i < |items| ==> items[i].name != Some(term))
  {
    if items != [] {
      LastNamedMeaning(items[..|items| - 1], term);
    }
  }

  lemma {:induction false} FirstLabelledMeaning(items: seq<Keys>, term: string)
    ensures var r := FirstLabelled(items, term);
            && (r.None? <==> forall i :: 0 <= i < |items| ==> items[i].term != Some(term))
            && (r.Some? ==> r.value < |items| && items[r.value].term == Some(term)
                            && forall i :: 0 <= i < r.value ==> items[i].term != Some(term))
  {
    if items != [] {
      FirstLabelledMeaning(items[..|items| - 1], term);
    }
  }

  /** An alias counts if its label is this term and its target exists. */
  predicate Answers(items: seq<Keys>, alias: Alias, term: string) {
    alias.term == Some(term) && WithId(items, alias.target).Some?
  }

  lemma {:induction false} FirstAliasedMeaning(items: seq<Keys>, aliases: seq<Alias>, term: string)
    ensures FirstAliased(items, aliases, term).None? <==>
            forall i :: 0 <= i < |aliases| ==> !Answers(items, aliases[i], term)
    ensures forall i :: 0 <= i < |aliases| && Answers(items, aliases[i], term)
                        && (forall j :: 0 <= j < i ==> !Answers(items, aliases[j], term)) ==>
              FirstAliased(items, aliases, term) == WithId(items, aliases[i].target)
  {
    if aliases != [] {
      var last := |aliases| - 1;
      FirstAliasedMeaning(items, aliases[..last], term);
      assert forall i :: 0 <= i < last ==> aliases[..last][i] == aliases[i];
    }
  }

  lemma {:induction false} FirstAliasedInRange(items: seq<Keys>, aliases: seq<Alias>, term: string)
    ensures FirstAliased(items, aliases, term).Some? ==> FirstAliased(items, aliases, term).value < |items|
  {
    if aliases != [] {
      FirstAliasedInRange(items, aliases[..|aliases| - 1], term);
      WithIdMeaning(items, aliases[|aliases| - 1].target);
    }
  }

  lemma SearchInRange(items: seq<Keys>, aliases: seq<Alias>, input: Option<string>, term: Option<string>)
    ensures Search(items, aliases, input, term).Some? ==> Search(items, aliases, input, term).value < |items|
  {
    if input.Some? {
      WithIdMeaning(items, input.value);
    }
    if term.Some? {
      LastNamedMeaning(items, term.value);
      FirstLabelledMeaning(items, term.value);
      FirstAliasedInRange(items, aliases, term.value);
    }
  }

  // ---------- the index refines the search ----------

  lemma {:induction false} ByIdRefines(items: seq<Keys>, id: string)
    ensures Find(ById(items), id) == WithId(items, id)
  {
    if items != [] {
      ByIdRefines(items[..|items| - 1], id);
    }
  }

  lemma {:induction false} LookupRefines(items: seq<Keys>, term: string)
    ensures Find(Lookup(items), term) == OrElse(LastNamed(items, term), FirstLabelled(items, term))
  {
    if items != [] {
      LookupRefines(items[..|items| - 1], term);
    }
  }

  lemma {:induction false} AliasesRefine(items: seq<Keys>, lookup: Index, byId: Index, aliases: seq<Alias>,
                                         term: string)
    requires forall id :: Find(byId, id) == WithId(items, id)
    ensures Find(WithAliases(lookup, byId, aliases), term) ==
            OrElse(Find(lookup, term), FirstAliased(items, aliases, term))
  {
    if aliases != [] {
      var last := |aliases| - 1;
      AliasesRefine(items, lookup, byId, aliases[..last], term);
      assert Find(byId, aliases[last].target) == WithId(items, aliases[last].target);
    }
  }

  /** The maps, looked up as the store does, answer as the search over the list. */
  lemma IndexRefinesSearch(items: seq<Keys>, aliases: seq<Alias>, input: Option<string>, term: Option<string>)
    ensures var byId := ById(items);
            var lookup := WithAliases(Lookup(items), byId, aliases);
            var exact := if input.Some? then Find(byId, input.value) else None;
            (if exact.Some? then exact else if term.Some? then Find(lookup, term.value) else None)
            == Search(items, aliases, input, term)
  {
    forall id ensures Find(ById(items), id) == WithId(items, id) {
      ByIdRefines(items, id);
    }
    if term.Some? {
      LookupRefines(items, term.value);
      AliasesRefine(items, Lookup(items), ById(items), aliases, term.value);
    }
  }
}
