/** The text exchange format of overrides: one scope per line, `#` comments, sorted on export. */
module OverrideExchange {
  import opened Text
  import opened DomainScope

  // ---------- lines ----------

  function LineEnd(s: string): (n: nat)
    ensures n <= |s|
    ensures n < |s| ==> s[n] == '\n'
    ensures forall i :: 0 <= i < n ==> s[i] != '\n'
  {
    if s == [] || s[0] == '\n' then 0 else 1 + LineEnd(s[1..])
  }

  function StripCarriageReturn(line: string): string {
    if line != [] && line[|line| - 1] == '\r' then line[..|line| - 1] else line
  }

  /** `str::lines` */
  function Lines(s: string): seq<string> {
    if s == [] then []
    else
      var n := LineEnd(s);
      if n == |s| then [s] else [StripCarriageReturn(s[..n])] + Lines(s[n + 1..])
  }

  /** `lines.join("\n")` */
  function Join(lines: seq<string>): string {
    if lines == [] then ""
    else if |lines| == 1 then lines[0]
    else lines[0] + "\n" + Join(lines[1..])
  }

  predicate OneLine(line: string) {
    line != [] && forall i :: 0 <= i < |line| ==> line[i] != '\n' && line[i] != '\r'
  }

  lemma LineEndAt(line: string, rest: string)
    requires OneLine(line)
    ensures LineEnd(line) == |line|
    ensures LineEnd(line + "\n" + rest) == |line|
  {
    var s := line + "\n" + rest;
    assert s[|line|] == '\n';
  }

  lemma LinesCons(line: string, rest: string)
    requires OneLine(line)
    ensures Lines(line) == [line]
    ensures Lines(line + "\n" + rest) == [line] + Lines(rest)
  {
    LineEndAt(line, rest);
    var s := line + "\n" + rest;
    assert s[..|line|] == line && s[|line| + 1..] == rest;
  }

  /** Splitting undoes joining. */
  lemma {:induction false} LinesOfJoin(lines: seq<string>)
    requires forall i :: 0 <= i < |lines| ==> OneLine(lines[i])
    ensures Lines(Join(lines)) == lines
  {
    if lines != [] {
      LinesCons(lines[0], Join(lines[1..]));
      LinesOfJoin(lines[1..]);
      assert lines == [lines[0]] + lines[1..];
    }
  }

  // ---------- import ----------

  datatype InvalidLine = InvalidLine(lineNumber: nat, value: string, error: ScopeError)

  datatype Parsed = Parsed(totalLines: nat, scopes: seq<string>, duplicates: nat, invalidLines: seq<InvalidLine>)

  /** What one line of the exchange text is. */
  datatype Line = Ignored | Scope(scope: string) | Invalid(value: string, error: ScopeError)

  function Classify(raw: string): Line {
    var trimmed := Trim(raw);
    if trimmed == [] || trimmed[0] == '#' then Ignored
    else match Normalize(trimmed)
      case Ok(scope) => Scope(scope)
      case Err(e) => Invalid(trimmed, e)
  }

  function ClassifyAll(raws: seq<string>): (lines: seq<Line>)
    ensures |lines| == |raws|
    ensures forall i :: 0 <= i < |raws| ==> lines[i] == Classify(raws[i])
  {
    seq(|raws|, i requires 0 <= i < |raws| => Classify(raws[i]))
  }

  function AddLine(p: Parsed, line: Line): Parsed {
    var q := p.(totalLines := p.totalLines + 1);
    match line
    case Ignored => q
    case Scope(scope) =>
      if scope in p.scopes then q.(duplicates := p.duplicates + 1) else q.(scopes := p.scopes + [scope])
    case Invalid(value, error) =>
      q.(invalidLines := p.invalidLines + [InvalidLine(p.totalLines + 1, value, error)])
  }

  function ParseLines(lines: seq<Line>): Parsed {
    if lines == [] then Parsed(0, [], 0, []) else AddLine(ParseLines(lines[..|lines| - 1]), lines[|lines| - 1])
  }

  function ParseText(content: string): Parsed {
    ParseLines(ClassifyAll(Lines(content)))
  }

  lemma ParseOneMore(lines: seq<Line>, i: nat)
    requires i < |lines|
    ensures ParseLines(lines[..i + 1]) == AddLine(ParseLines(lines[..i]), lines[i])
  {
    assert lines[..i + 1][..i] == lines[..i];
  }

  /** `parse_override_exchange_lines` */
  method Parse(content: string) returns (p: Parsed)
    ensures p == ParseText(content)
  {
    var raws := Lines(content);
    ghost var lines := ClassifyAll(raws);
    var seen: set<string> := {};
    var scopes: seq<string> := [];
    var invalidLines: seq<InvalidLine> := [];
    var duplicates := 0;
    var totalLines := 0;
    for index := 0 to |raws|
      invariant totalLines == index
      invariant forall scope :: scope in seen <==> scope in scopes
      invariant Parsed(totalLines, scopes, duplicates, invalidLines) == ParseLines(lines[..index])
    {
      ParseOneMore(lines, index);
      totalLines := totalLines + 1;
      var line := Classify(raws[index]);
      assert line == lines[index];
      match line
      case Ignored =>
      case Scope(scope) =>
        if scope !in seen {
          seen := seen + {scope};
          scopes := scopes + [scope];
        } else {
          duplicates := duplicates + 1;
        }
      case Invalid(value, error) =>
        invalidLines := invalidLines + [InvalidLine(index + 1, value, error)];
    }
    assert lines[..|lines|] == lines;
    p := Parsed(totalLines, scopes, duplicates, invalidLines);
  }

  predicate Distinct<T(==)>(s: seq<T>) {
    forall i, j :: 0 <= i < j < |s| ==> s[i] != s[j]
  }

  function IgnoredCount(lines: seq<Line>): nat {
    if lines == [] then 0
    else IgnoredCount(lines[..|lines| - 1]) + if lines[|lines| - 1].Ignored? then 1 else 0
  }

  /** Parsing keeps each named scope exactly once and accounts for every line. */
  lemma {:induction false} ParseMeaning(lines: seq<Line>)
    ensures var p := ParseLines(lines);
            && Distinct(p.scopes)
            && (forall scope :: scope in p.scopes <==> Scope(scope) in lines)
            && p.totalLines == |lines|
            && p.totalLines == |p.scopes| + p.duplicates + |p.invalidLines| + IgnoredCount(lines)
  {
    if lines != [] {
      var before, line := lines[..|lines| - 1], lines[|lines| - 1];
      ParseMeaning(before);
      assert lines == before + [line];
    }
  }

  /** Every parsed scope is a normal scope. */
  lemma ParsedScopesAreNormal(content: string)
    ensures forall scope :: scope in ParseText(content).scopes ==> IsNormal(scope)
    ensures Distinct(ParseText(content).scopes)
  {
    var raws := Lines(content);
    var lines := ClassifyAll(raws);
    ParseMeaning(lines);
    forall scope | Scope(scope) in lines ensures IsNormal(scope) {
      var i :| 0 <= i < |lines| && lines[i] == Scope(scope);
      NormalizeIdempotent(Trim(raws[i]));
    }
  }

  lemma ClassifyNormal(scope: string)
    requires IsNormal(scope)
    ensures Classify(scope) == Scope(scope)
  {
    NormalIsTrimmedLower(scope);
    NormalCharacters(scope);
    NormalizeIdempotent(scope);
  }

  lemma {:induction false} ParseOfScopes(scopes: seq<string>, lines: seq<Line>)
    requires Distinct(scopes) && |lines| == |scopes|
    requires forall i :: 0 <= i < |scopes| ==> lines[i] == Scope(scopes[i])
    ensures ParseLines(lines) == Parsed(|scopes|, scopes, 0, [])
  {
    if scopes != [] {
      var last := |scopes| - 1;
      ParseOfScopes(scopes[..last], lines[..last]);
      assert scopes == scopes[..last] + [scopes[last]];
    }
  }

  // ---------- export ----------

  predicate StrictlySorted(s: seq<string>) {
    forall i, j :: 0 <= i < j < |s| ==> Less(s[i], s[j])
  }

  function Insert(x: string, sorted: seq<string>): seq<string> {
    if sorted == [] || Less(x, sorted[0]) then [x] + sorted
    else if x == sorted[0] then sorted
    else [sorted[0]] + Insert(x, sorted[1..])
  }

  /** `lines.sort(); lines.dedup();` */
  function SortDedup(lines: seq<string>): seq<string> {
    if lines == [] then [] else Insert(lines[0], SortDedup(lines[1..]))
  }

  lemma {:induction false} InsertSorts(x: string, sorted: seq<string>)
    requires StrictlySorted(sorted)
    ensures StrictlySorted(Insert(x, sorted))
    ensures forall y :: y in Insert(x, sorted) <==> y == x || y in sorted
  {
    if sorted != [] {
      LessTrichotomy(x, sorted[0]);
      if Less(x, sorted[0]) {
        forall i | 0 < i < |sorted| ensures Less(x, sorted[i]) {
          LessTransitive(x, sorted[0], sorted[i]);
        }
      } else if x != sorted[0] {
        var tail := Insert(x, sorted[1..]);
        InsertSorts(x, sorted[1..]);
        assert forall y :: y in sorted[1..] ==> Less(sorted[0], y);
        forall i | 0 <= i < |tail| ensures Less(sorted[0], tail[i]) {
          assert tail[i] in tail;
        }
        assert sorted == [sorted[0]] + sorted[1..];
      }
    }
  }

  lemma {:induction false} SortDedupMeaning(lines: seq<string>)
    ensures StrictlySorted(SortDedup(lines))
    ensures forall y :: y in SortDedup(lines) <==> y in lines
  {
    if lines != [] {
      SortDedupMeaning(lines[1..]);
      InsertSorts(lines[0], SortDedup(lines[1..]));
      assert lines == [lines[0]] + lines[1..];
    }
  }

  lemma SortedHead(a: seq<string>, b: seq<string>)
    requires StrictlySorted(a) && StrictlySorted(b) && a != [] && b != []
    requires a[0] in b && b[0] in a
    ensures a[0] == b[0]
  {
    var i :| 0 <= i < |b| && b[i] == a[0];
    var j :| 0 <= j < |a| && a[j] == b[0];
    LessTrichotomy(a[0], b[0]);
  }

  /** A strictly sorted list is determined by its elements. */
  lemma {:induction false} SortedUnique(a: seq<string>, b: seq<string>)
    requires StrictlySorted(a) && StrictlySorted(b)
    requires forall y :: y in a <==> y in b
    ensures a == b
  {
    assert a != [] ==> a[0] in a;
    assert b != [] ==> b[0] in b;
    if a != [] && b != [] {
      SortedHead(a, b);
      TailElements(a);
      TailElements(b);
      SortedUnique(a[1..], b[1..]);
      assert a == [a[0]] + a[1..] && b == [b[0]] + b[1..];
    }
  }

  lemma TailElements(a: seq<string>)
    requires StrictlySorted(a) && a != []
    ensures forall y :: y in a[1..] <==> y in a && y != a[0]
  {
    forall i | 1 <= i < |a| ensures a[i] != a[0] {
      LessTrichotomy(a[0], a[i]);
    }
    assert a == [a[0]] + a[1..];
  }

  lemma SortedIsDistinct(a: seq<string>)
    requires StrictlySorted(a)
    ensures Distinct(a)
  {
    forall i, j | 0 <= i < j < |a| ensures a[i] != a[j] {
      LessTrichotomy(a[i], a[j]);
    }
  }

  /** Ascending, possibly with repetitions. */
  predicate Sorted(s: seq<string>) {
    forall i, j :: 0 <= i < j < |s| ==> s[i] == s[j] || Less(s[i], s[j])
  }

  method InsertLine(sorted: seq<string>, x: string) returns (r: seq<string>)
    requires Sorted(sorted)
    ensures Sorted(r) && multiset(r) == multiset(sorted) + multiset{x}
  {
    var p := 0;
    while p < |sorted| && Less(sorted[p], x)
      invariant p <= |sorted| && forall i :: 0 <= i < p ==> Less(sorted[i], x)
    {
      p := p + 1;
    }
    r := sorted[..p] + [x] + sorted[p..];
    forall j | p <= j < |sorted| ensures x == sorted[j] || Less(x, sorted[j]) {
      LessTrichotomy(x, sorted[p]);
      if x != sorted[p] && sorted[p] != sorted[j] {
        LessTransitive(x, sorted[p], sorted[j]);
      }
    }
    assert sorted == sorted[..p] + sorted[p..];
  }

  /** `lines.sort()` */
  method SortLines(values: seq<string>) returns (sorted: seq<string>)
    ensures Sorted(sorted) && multiset(sorted) == multiset(values)
  {
    sorted := [];
    for i := 0 to |values|
      invariant Sorted(sorted) && multiset(sorted) == multiset(values[..i])
    {
      assert values[..i + 1] == values[..i] + [values[i]];
      sorted := InsertLine(sorted, values[i]);
    }
    assert values[..|values|] == values;
  }

  /** `lines.dedup()`: of equal neighbours only one stays. */
  method DedupLines(lines: seq<string>) returns (r: seq<string>)
    requires Sorted(lines)
    ensures StrictlySorted(r) && forall v :: v in r <==> v in lines
  {
    r := [];
    for i := 0 to |lines|
      invariant StrictlySorted(r) && forall v :: v in r <==> v in lines[..i]
      invariant i > 0 ==> r != [] && r[|r| - 1] == lines[i - 1]
    {
      assert lines[..i + 1] == lines[..i] + [lines[i]];
      if i == 0 {
        r := [lines[0]];
      } else if lines[i] != lines[i - 1] {
        forall k | 0 <= k < |r| ensures Less(r[k], lines[i]) {
          assert Less(lines[i - 1], lines[i]);
          if k < |r| - 1 {
            LessTransitive(r[k], lines[i - 1], lines[i]);
          }
        }
        r := r + [lines[i]];
      }
    }
    assert lines[..|lines|] == lines;
  }

  lemma {:induction false} JoinMore(lines: seq<string>, line: string)
    requires lines != []
    ensures Join(lines + [line]) == Join(lines) + "\n" + line
  {
    assert (lines + [line])[1..] == lines[1..] + [line];
    if |lines| > 1 {
      JoinMore(lines[1..], line);
    }
  }

  /** `lines.join("\n")` */
  method JoinLines(lines: seq<string>) returns (body: string)
    ensures body == Join(lines)
  {
    body := "";
    for i := 0 to |lines|
      invariant body == Join(lines[..i])
    {
      assert lines[..i + 1] == lines[..i] + [lines[i]];
      if i == 0 {
        assert lines[..1] == [lines[0]];
        body := lines[0];
      } else {
        JoinMore(lines[..i], lines[i]);
        body := body + "\n" + lines[i];
      }
    }
    assert lines[..|lines|] == lines;
  }

  /** `export_overrides`, from the scope values the query returned: the lines of the text are strictly ascending
      and are exactly these values. */
  method Export(values: seq<string>) returns (body: string)
    ensures body == Join(SortDedup(values))
    ensures (forall v :: v in values ==> OneLine(v)) ==>
            StrictlySorted(Lines(body)) && forall v :: v in Lines(body) <==> v in values
  {
    var sorted := SortLines(values);
    var lines := DedupLines(sorted);
    forall v ensures v in lines <==> v in values {
      assert v in sorted <==> v in multiset(sorted);
    }
    SortDedupMeaning(values);
    SortedUnique(lines, SortDedup(values));
    if forall v :: v in values ==> OneLine(v) {
      LinesOfJoin(lines);
    }
    body := JoinLines(lines);
  }

  /** Importing an export parses back to the exported scopes, in order, with nothing invalid. */
  lemma ExportParsesBack(values: seq<string>)
    requires forall v :: v in values ==> IsNormal(v)
    ensures var lines := SortDedup(values);
            ParseText(Join(lines)) == Parsed(|lines|, lines, 0, [])
  {
    var lines := SortDedup(values);
    SortDedupMeaning(values);
    SortedIsDistinct(lines);
    forall i | 0 <= i < |lines| ensures OneLine(lines[i]) && Classify(lines[i]) == Scope(lines[i]) {
      assert lines[i] in lines;
      NormalIsOneLine(lines[i]);
      ClassifyNormal(lines[i]);
    }
    LinesOfJoin(lines);
    ParseOfScopes(lines, ClassifyAll(lines));
  }

  lemma NormalIsOneLine(scope: string)
    requires IsNormal(scope)
    ensures OneLine(scope)
  {
    NormalCharacters(scope);
    assert IsWhitespace('\n') && IsWhitespace('\r');
  }
}
