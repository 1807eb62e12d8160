/** Reading one line of the proxy's access log: fields separated by white space, with
    the two forwarding headers quoted at the end
    (the `open_defender` log format of deploy/docker/squid/squid.conf). */
module AccessLogLine {
  import opened Text

  predicate IsWord(s: string) {
    s != [] && forall i :: 0 <= i < |s| ==> !IsWhitespace(s[i])
  }

  predicate IsGap(s: string) {
    s != [] && forall i :: 0 <= i < |s| ==> IsWhitespace(s[i])
  }

  // ---------- split_whitespace ----------

  function WordLength(s: string): (n: nat)
    ensures n <= |s|
    ensures forall i :: 0 <= i < n ==> !IsWhitespace(s[i])
    ensures n < |s| ==> IsWhitespace(s[n])
  {
    if s == [] || IsWhitespace(s[0]) then 0 else 1 + WordLength(s[1..])
  }

  /** `str::split_whitespace` */
  function Words(s: string): seq<string>
    decreases |s|
  {
    var t := TrimStart(s);
    if t == [] then [] else [t[..WordLength(t)]] + Words(t[WordLength(t)..])
  }

  lemma {:induction false} TrimStartOfGap(gap: string, rest: string)
    requires forall i :: 0 <= i < |gap| ==> IsWhitespace(gap[i])
    requires rest != [] ==> !IsWhitespace(rest[0])
    ensures TrimStart(gap + rest) == rest
  {
    if gap == [] {
      assert gap + rest == rest;
    } else {
      assert (gap + rest)[1..] == gap[1..] + rest;
      TrimStartOfGap(gap[1..], rest);
    }
  }

  lemma {:induction false} WordLengthOf(w: string, rest: string)
    requires forall i :: 0 <= i < |w| ==> !IsWhitespace(w[i])
    requires rest != [] ==> IsWhitespace(rest[0])
    ensures WordLength(w + rest) == |w|
  {
    if w == [] {
      assert w + rest == rest;
    } else {
      assert (w + rest)[1..] == w[1..] + rest;
      WordLengthOf(w[1..], rest);
    }
  }

  lemma FirstWord(gap: string, w: string, rest: string)
    requires forall i :: 0 <= i < |gap| ==> IsWhitespace(gap[i])
    requires IsWord(w) && (rest != [] ==> IsWhitespace(rest[0]))
    ensures Words(gap + w + rest) == [w] + Words(rest)
  {
    assert gap + w + rest == gap + (w + rest);
    TrimStartOfGap(gap, w + rest);
    WordLengthOf(w, rest);
  }

  /** The words written one after the other, each after its gap. */
  function Spaced(words: seq<string>, gaps: seq<string>): string
    requires |words| == |gaps|
  {
    if words == [] then [] else gaps[0] + words[0] + Spaced(words[1..], gaps[1..])
  }

  predicate WellSpaced(words: seq<string>, gaps: seq<string>) {
    && |words| == |gaps|
    && (forall i :: 0 <= i < |words| ==> IsWord(words[i]))
    && (forall i :: 0 < i < |gaps| ==> IsGap(gaps[i]))
    && (gaps != [] ==> gaps[0] == [] || IsGap(gaps[0]))
  }

  lemma SpacedTail(words: seq<string>, gaps: seq<string>, rest: string)
    requires WellSpaced(words, gaps) && words != []
    requires rest != [] ==> IsWhitespace(rest[0])
    ensures WellSpaced(words[1..], gaps[1..])
    ensures var tail := Spaced(words[1..], gaps[1..]) + rest;
            && Spaced(words, gaps) + rest == gaps[0] + words[0] + tail
            && (tail != [] ==> IsWhitespace(tail[0]))
  {
    var tail := Spaced(words[1..], gaps[1..]) + rest;
    assert Spaced(words, gaps) + rest == gaps[0] + words[0] + tail;
    if |words| > 1 {
      assert gaps[1..][0] == gaps[1] && IsGap(gaps[1]);
      StartsWithGap(words[1..], gaps[1..], rest);
    } else {
      assert tail == rest;
    }
  }

  lemma StartsWithGap(words: seq<string>, gaps: seq<string>, rest: string)
    requires |words| == |gaps| && words != [] && IsGap(gaps[0])
    ensures var text := Spaced(words, gaps) + rest; text != [] && IsWhitespace(text[0])
  {
    assert (Spaced(words, gaps) + rest)[0] == gaps[0][0];
  }

  lemma PrependWord(words: seq<string>, others: seq<string>)
    requires words != []
    ensures [words[0]] + (words[1..] + others) == words + others
  {
  }

  /** What `FirstWord` says, of any function from texts to words. */
  ghost predicate TakesFirstWord(split: string -> seq<string>) {
    forall gap: string, w: string, rest: string ::
      (forall i :: 0 <= i < |gap| ==> IsWhitespace(gap[i])) && IsWord(w) && (rest != [] ==> IsWhitespace(rest[0]))
      ==> split(gap + w + rest) == [w] + split(rest)
  }

  lemma {:induction false} SplitOfSpaced(split: string -> seq<string>, words: seq<string>, gaps: seq<string>,
                                         rest: string)
    requires TakesFirstWord(split) && WellSpaced(words, gaps)
    requires rest != [] ==> IsWhitespace(rest[0])
    ensures split(Spaced(words, gaps) + rest) == words + split(rest)
    decreases |words|
  {
    if words == [] {
      assert Spaced(words, gaps) + rest == rest;
    } else {
      SpacedTail(words, gaps, rest);
      var tail := Spaced(words[1..], gaps[1..]) + rest;
      SplitOfSpaced(split, words[1..], gaps[1..], rest);
      assert split(gaps[0] + words[0] + tail) == [words[0]] + split(tail);
      PrependWord(words, split(rest));
    }
  }

  lemma WordsTakesFirstWord()
    ensures TakesFirstWord(Words)
  {
    forall gap: string, w: string, rest: string |
      (forall i :: 0 <= i < |gap| ==> IsWhitespace(gap[i])) && IsWord(w) && (rest != [] ==> IsWhitespace(rest[0]))
      ensures Words(gap + w + rest) == [w] + Words(rest)
    {
      FirstWord(gap, w, rest);
    }
  }

  /** Whatever gaps the words were written with, they are read back, followed by the words of what comes after. */
  lemma WordsOfSpaced(words: seq<string>, gaps: seq<string>, rest: string)
    requires WellSpaced(words, gaps)
    requires rest != [] ==> IsWhitespace(rest[0])
    ensures Words(Spaced(words, gaps) + rest) == words + Words(rest)
  {
    WordsTakesFirstWord();
    SplitOfSpaced(Words, words, gaps, rest);
  }

  // ---------- quoted fields at the end ----------

  /** `str::rfind` of one character. */
  function FindLast(s: string, c: char): (r: Option<nat>)
    ensures r.Some? ==> r.value < |s| && s[r.value] == c && forall i :: r.value < i < |s| ==> s[i] != c
    ensures r.None? ==> c !in s
  {
    if s == [] then None
    else if s[|s| - 1] == c then Some(|s| - 1)
    else FindLast(s[..|s| - 1], c)
  }

  /** The quoted field that ends the text, and the text before it. */
  function LastQuoted(cursor: string): (r: Option<(string, string)>)
    ensures r.Some? ==> |r.value.1| < |cursor|
  {
    if cursor == [] || cursor[|cursor| - 1] != '"' then None
    else
      var before := cursor[..|cursor| - 1];
      match FindLast(before, '"')
      case None => None
      case Some(start) => Some((Trim(before[start + 1..]), TrimEnd(before[..start])))
  }

  /** Fields taken off the end one by one, at most `max` of them, in the order of the text. */
  function Peel(last: string -> Option<(string, string)>, cursor: string, max: nat): seq<string>
    decreases max
  {
    if max == 0 then []
    else match last(cursor)
         case None => []
         case Some(found) => Peel(last, found.1, max - 1) + [found.0]
  }

  function QuotedAtEnd(cursor: string, max: nat): seq<string> {
    Peel(LastQuoted, cursor, max)
  }

  function Reversed(s: seq<string>): (r: seq<string>)
    ensures |r| == |s|
  {
    if s == [] then [] else Reversed(s[1..]) + [s[0]]
  }

  lemma {:induction false} ReversedAppend(s: seq<string>, x: string)
    ensures Reversed(s + [x]) == [x] + Reversed(s)
  {
    if s == [] {
      assert s + [x] == [x];
    } else {
      assert (s + [x])[1..] == s[1..] + [x];
      ReversedAppend(s[1..], x);
    }
  }

  method TakeLastQuoted(cursor: string) returns (found: Option<(string, string)>)
    ensures found == LastQuoted(cursor)
  {
    if cursor == [] || cursor[|cursor| - 1] != '"' {
      return None;
    }
    var beforeEnd := cursor[..|cursor| - 1];
    var start := FindLast(beforeEnd, '"');
    if start.None? {
      return None;
    }
    return Some((Trim(beforeEnd[start.value + 1..]), TrimEnd(beforeEnd[..start.value])));
  }

  lemma PeelStep(last: string -> Option<(string, string)>, cursor: string, max: nat, out: seq<string>)
    requires max > 0 && last(cursor).Some?
    ensures Peel(last, cursor, max) + Reversed(out)
         == Peel(last, last(cursor).value.1, max - 1) + Reversed(out + [last(cursor).value.0])
  {
    ReversedAppend(out, last(cursor).value.0);
  }

  method ExtractTrailingQuotedFields(message: string, max: nat) returns (fields: seq<string>)
    ensures fields == QuotedAtEnd(TrimEnd(message), max)
  {
    var out: seq<string> := [];
    var cursor := TrimEnd(message);
    var taken := 0;
    while taken < max
      invariant taken <= max
      invariant QuotedAtEnd(TrimEnd(message), max) == QuotedAtEnd(cursor, max - taken) + Reversed(out)
    {
      var found := TakeLastQuoted(cursor);
      if found.None? {
        break;
      }
      PeelStep(LastQuoted, cursor, max - taken, out);
      out := out + [found.value.0];
      cursor := found.value.1;
      taken := taken + 1;
    }
    fields := Reversed(out);
  }

  lemma TrimKeepsQuotes(text: string)
    ensures '"' in Trim(text) <==> '"' in text
  {
    var lo, hi := TrimMeaning(text);
    if i :| 0 <= i < |text| && text[i] == '"' {
      assert Trim(text)[i - lo] == '"';
    }
  }

  lemma LastQuotedOf(before: string, field: string)
    requires '"' !in field
    ensures LastQuoted(before + "\"" + field + "\"") == Some((Trim(field), TrimEnd(before)))
  {
    var cursor := before + "\"" + field + "\"";
    var text := before + "\"" + field;
    assert cursor[..|cursor| - 1] == text;
    var start := FindLast(text, '"');
    assert text[|before|] == '"';
    assert start == Some(|before|) by {
      assert forall i :: |before| < i < |text| ==> text[i] == field[i - |before| - 1];
    }
    assert text[|before| + 1..] == field && text[..|before|] == before;
  }

  // ---------- the line ----------

  datatype Line = Line(words: seq<string>, forwarded: Option<string>, forwardedFor: Option<string>) {
    function Word(k: nat): Option<string> {
      if k < |words| then Some(words[k]) else None
    }
  }

  function Headers(quoted: seq<string>): (Option<string>, Option<string>) {
    if |quoted| == 1 then (None, Some(quoted[0]))
    else if |quoted| == 2 then (Some(quoted[0]), Some(quoted[1]))
    else (None, None)
  }

  function Read(message: string): Line {
    var (forwarded, forwardedFor) := Headers(QuotedAtEnd(TrimEnd(message), 2));
    Line(Words(message), forwarded, forwardedFor)
  }

  /** A log line: its leading fields, anything, and the two quoted headers. */
  function Format(words: seq<string>, gaps: seq<string>, between: string, forwarded: string, gap: string,
                  forwardedFor: string): string
    requires |words| == |gaps|
  {
    Spaced(words, gaps) + between + "\"" + forwarded + "\"" + gap + "\"" + forwardedFor + "\""
  }

  lemma {:induction false} TrimEndOfGap(text: string, gap: string)
    requires text != [] && !IsWhitespace(text[|text| - 1])
    requires forall i :: 0 <= i < |gap| ==> IsWhitespace(gap[i])
    ensures TrimEnd(text + gap) == text
    decreases |gap|
  {
    if gap == [] {
      assert text + gap == text;
    } else {
      var last := |gap| - 1;
      assert (text + gap)[..|text + gap| - 1] == text + gap[..last];
      TrimEndOfGap(text, gap[..last]);
    }
  }

  predicate HeadersComeBack(line: Line, forwarded: string, forwardedFor: string) {
    line.forwarded == Some(Trim(forwarded)) && line.forwardedFor == Some(Trim(forwardedFor))
  }

  /** What stands before and after the last quote of a text; all of it is after, if there is none. */
  function BeforeQuote(s: string): string {
    var n := FindLast(s, '"');
    if n.Some? then s[..n.value] else ""
  }

  function AfterQuote(s: string): (r: string)
    ensures '"' !in r
  {
    var n := FindLast(s, '"');
    if n.Some? then s[n.value + 1..] else s
  }

  /** What is read as the two headers, whatever was written. The second is what follows the last quote of the second
      header. The first is what follows the last quote of the first header if the second has no quote; otherwise it
      comes from the second header as well: blank if nothing but the opening quote precedes, a field if one ends
      there, and missing if not. */
  function HeadersRead(forwarded: string, forwardedFor: string): (Option<string>, Option<string>) {
    var rest := TrimEnd(BeforeQuote(forwardedFor));
    (if '"' !in forwardedFor then Some(Trim(AfterQuote(forwarded)))
     else if rest == "" then Some("")
     else if rest[|rest| - 1] == '"' then Some(Trim(AfterQuote(rest[..|rest| - 1])))
     else None,
     Some(Trim(AfterQuote(forwardedFor))))
  }

  /** Reading a written line: the leading fields come back as the leading words whatever else stands between; the
      headers are read as `HeadersRead` says; and both come back if and only if neither holds a quote. */
  lemma ReadOfFormat(words: seq<string>, gaps: seq<string>, between: string, forwarded: string, gap: string,
                     forwardedFor: string)
    requires WellSpaced(words, gaps)
    requires between != [] && IsWhitespace(between[0]) && IsGap(gap)
    ensures var line := Read(Format(words, gaps, between, forwarded, gap, forwardedFor));
            && words <= line.words
            && (line.forwarded, line.forwardedFor) == HeadersRead(forwarded, forwardedFor)
            && (HeadersComeBack(line, forwarded, forwardedFor) <==> '"' !in forwarded && '"' !in forwardedFor)
  {
    WordsOfFormat(words, gaps, between, forwarded, gap, forwardedFor);
    HeadersOfFormat(words, gaps, between, forwarded, gap, forwardedFor);
    ComeBackExactly(forwarded, forwardedFor);
  }

  lemma WordsOfFormat(words: seq<string>, gaps: seq<string>, between: string, forwarded: string, gap: string,
                      forwardedFor: string)
    requires WellSpaced(words, gaps) && between != [] && IsWhitespace(between[0])
    ensures words <= Words(Format(words, gaps, between, forwarded, gap, forwardedFor))
  {
    var rest := between + "\"" + forwarded + "\"" + gap + "\"" + forwardedFor + "\"";
    assert Format(words, gaps, between, forwarded, gap, forwardedFor) == Spaced(words, gaps) + rest;
    WordsOfSpaced(words, gaps, rest);
  }

  lemma HeadersOfFormat(words: seq<string>, gaps: seq<string>, between: string, forwarded: string, gap: string,
                        forwardedFor: string)
    requires |words| == |gaps| && IsGap(gap)
    ensures var message := Format(words, gaps, between, forwarded, gap, forwardedFor);
            Headers(QuotedAtEnd(TrimEnd(message), 2)) == HeadersRead(forwarded, forwardedFor)
  {
    HeadersOfEnd(Spaced(words, gaps) + between, forwarded, gap, forwardedFor);
  }

  /** What is read as a header never holds a quote, so a header that does cannot come back. */
  lemma ComeBackExactly(forwarded: string, forwardedFor: string)
    ensures HeadersRead(forwarded, forwardedFor) == (Some(Trim(forwarded)), Some(Trim(forwardedFor))) <==>
            '"' !in forwarded && '"' !in forwardedFor
  {
    TrimKeepsQuotes(forwarded);
    TrimKeepsQuotes(forwardedFor);
    TrimKeepsQuotes(AfterQuote(forwarded));
    TrimKeepsQuotes(AfterQuote(forwardedFor));
  }

  /** The last field of a text that ends in something quoted, quotes inside it or not. */
  lemma LastQuotedAny(before: string, field: string)
    ensures LastQuoted(before + "\"" + field + "\"") ==
            Some((Trim(AfterQuote(field)),
                  TrimEnd(if '"' in field then before + "\"" + BeforeQuote(field) else before)))
  {
    if '"' in field {
      var y, z := BeforeQuote(field), AfterQuote(field);
      assert field == y + "\"" + z;
      assert before + "\"" + field + "\"" == (before + "\"" + y) + "\"" + z + "\"";
      LastQuotedOf(before + "\"" + y, z);
    } else {
      LastQuotedOf(before, field);
    }
  }

  function FieldOf(found: Option<(string, string)>): Option<string> {
    if found.Some? then Some(found.value.0) else None
  }

  /** The headers are the last two quoted fields, or one. */
  lemma HeadersFrom(message: string, rest: string, last: string)
    requires LastQuoted(message) == Some((last, rest))
    ensures Headers(QuotedAtEnd(message, 2)) == (FieldOf(LastQuoted(rest)), Some(last))
  {
    HeadersPeeled(LastQuoted, message, rest, last);
  }

  lemma HeadersPeeled(split: string -> Option<(string, string)>, message: string, rest: string, last: string)
    requires split(message) == Some((last, rest))
    ensures Headers(Peel(split, message, 2)) == (FieldOf(split(rest)), Some(last))
  {
    if split(rest).None? {
      assert Peel(split, rest, 1) == [];
      assert Peel(split, message, 2) == [last];
    } else {
      var field := split(rest).value.0;
      assert Peel(split, rest, 1) == [] + [field];
      assert Peel(split, message, 2) == [field, last];
    }
  }

  lemma HeadersOfEnd(before: string, forwarded: string, gap: string, forwardedFor: string)
    requires IsGap(gap)
    ensures Headers(QuotedAtEnd(TrimEnd(before + "\"" + forwarded + "\"" + gap + "\"" + forwardedFor + "\""), 2))
         == HeadersRead(forwarded, forwardedFor)
  {
    var first := before + "\"" + forwarded + "\"";
    var message := first + gap + "\"" + forwardedFor + "\"";
    assert message == before + "\"" + forwarded + "\"" + gap + "\"" + forwardedFor + "\"";
    assert TrimEnd(message) == message;
    LastQuotedAny(first + gap, forwardedFor);
    HeadersFrom(message, LastQuoted(message).value.1, Trim(AfterQuote(forwardedFor)));
    if '"' in forwardedFor {
      FirstFromSecond(before + "\"" + forwarded, gap, BeforeQuote(forwardedFor));
      assert first + gap + "\"" == before + "\"" + forwarded + "\"" + gap + "\"";
    } else {
      TrimEndOfGap(first, gap);
      LastQuotedAny(before, forwarded);
    }
  }

  /** The first header when the second holds a quote: `y` is what precedes its last quote. */
  lemma FirstFromSecond(before: string, gap: string, y: string)
    requires IsGap(gap)
    ensures var rest := TrimEnd(y);
            FieldOf(LastQuoted(TrimEnd(before + "\"" + gap + "\"" + y))) ==
            if rest == "" then Some("")
            else if rest[|rest| - 1] == '"' then Some(Trim(AfterQuote(rest[..|rest| - 1])))
            else None
  {
    var start, rest := before + "\"" + gap + "\"", TrimEnd(y);
    TrimEndAfter(start, y);
    if rest == "" {
      assert start + rest == before + "\"" + gap + "\"";
      LastQuotedAny(before, gap);
      BlankGap(gap);
    } else if rest[|rest| - 1] == '"' {
      EndsInField(before + "\"" + gap, rest);
    } else {
      assert (start + rest)[|start + rest| - 1] == rest[|rest| - 1];
    }
  }

  lemma TrimEndAfter(start: string, y: string)
    requires start != [] && !IsWhitespace(start[|start| - 1])
    ensures TrimEnd(start + y) == start + TrimEnd(y)
  {
    var rest := TrimEnd(y);
    TrimEndMeaning(y);
    var blanks := y[|rest|..];
    assert y == rest + blanks;
    assert start + y == (start + rest) + blanks;
    TrimEndOfGap(start + rest, blanks);
  }

  lemma EndsInField(before: string, rest: string)
    requires rest != "" && rest[|rest| - 1] == '"'
    ensures FieldOf(LastQuoted(before + "\"" + rest)) == Some(Trim(AfterQuote(rest[..|rest| - 1])))
  {
    var u := rest[..|rest| - 1];
    assert before + "\"" + rest == before + "\"" + u + "\"";
    LastQuotedAny(before, u);
  }

  lemma BlankGap(gap: string)
    requires IsGap(gap)
    ensures Trim(AfterQuote(gap)) == ""
  {
    assert '"' !in gap by {
      assert !IsWhitespace('"');
    }
    var lo, hi := TrimMeaning(gap);
  }
}
