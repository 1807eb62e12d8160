/** Domain scopes of overrides, and the two ways a cached key is matched against one:
    the Redis keys the admin service deletes (two literals and a glob), and the
    predicate each adaptor applies to its own memory. */
module DomainScope {
  import opened Text

  datatype ScopeError = Required | NoHostname | TooLong | BadCharacter

  const WILDCARD := "*."

  predicate IsHostChar(c: char) {
    'a' <= c <= 'z' || 'A' <= c <= 'Z' || '0' <= c <= '9' || c == '-' || c == '.'
  }

  predicate AllHostChars(s: string) {
    forall i :: 0 <= i < |s| ==> IsHostChar(s[i])
  }

  /** The part of a scope after an optional `*.`. */
  function ScopeDomain(scope: string): string {
    if HasPrefix(scope, WILDCARD) then scope[2..] else scope
  }

  predicate IsWildcard(scope: string) {
    HasPrefix(scope, WILDCARD)
  }

  /** `normalize_domain_scope` */
  function Normalize(value: string): Result<string, ScopeError> {
    CheckLowered(Lower(Trim(value)))
  }

  function CheckLowered(lowered: string): Result<string, ScopeError> {
    var domain := ScopeDomain(lowered);
    if lowered == [] then Err(Required)
    else if domain == [] || '.' !in domain then Err(NoHostname)
    else if ByteLen(domain) > 253 then Err(TooLong)
    else if !AllHostChars(domain) then Err(BadCharacter)
    else Ok((if IsWildcard(lowered) then WILDCARD else "") + domain)
  }

  /** Lower-case letters, digits, `-` and `.`: none of them is special in a glob. */
  predicate IsPlain(s: string) {
    forall i :: 0 <= i < |s| ==> IsHostChar(s[i]) && !('A' <= s[i] <= 'Z')
  }

  /** Small letters, digits, `-` and `.`, at least one dot and at most 253 characters. */
  predicate IsPlainHost(domain: string) {
    IsPlain(domain) && '.' in domain && |domain| <= 253
  }

  /** The scopes that normalization can return. */
  predicate IsNormal(scope: string) {
    IsPlainHost(ScopeDomain(scope))
  }

  predicate IsLowered(s: string) {
    forall i :: 0 <= i < |s| ==> !('A' <= s[i] <= 'Z')
  }

  lemma HostCharsAreBytes(s: string)
    requires AllHostChars(s)
    ensures ByteLen(s) == |s|
  {
    ByteLenAscii(s);
  }

  lemma ScopeParts(scope: string)
    ensures var start := if IsWildcard(scope) then 2 else 0;
            ScopeDomain(scope) == scope[start..]
                && scope == (if IsWildcard(scope) then WILDCARD else "") + ScopeDomain(scope)
  {
  }

  /** Normalization accepts exactly the texts whose trimmed lower-case form is a normal
      scope, and then returns that form. */
  lemma NormalizeAcceptsExactly(value: string)
    ensures Normalize(value).Ok? <==> IsNormal(Lower(Trim(value)))
    ensures Normalize(value).Ok? ==> Normalize(value).value == Lower(Trim(value))
  {
    assert IsLowered(Lower(Trim(value)));
    CheckLoweredAcceptsExactly(Lower(Trim(value)));
  }

  lemma CheckLoweredAcceptsExactly(lowered: string)
    requires IsLowered(lowered)
    ensures CheckLowered(lowered).Ok? <==> IsNormal(lowered)
    ensures CheckLowered(lowered).Ok? ==> CheckLowered(lowered).value == lowered
  {
    var domain := ScopeDomain(lowered);
    ScopeParts(lowered);
    assert IsPlain(domain) <==> AllHostChars(domain);
    if AllHostChars(domain) {
      HostCharsAreBytes(domain);
    }
  }

  lemma PlainCharacter(c: char)
    requires c == '*' || (IsHostChar(c) && !('A' <= c <= 'Z'))
    ensures !IsWhitespace(c) && c != '#' && LowerChar(c) == c
  {
  }

  /** A normal scope holds no white space, no `#` and no upper-case letter. */
  lemma NormalCharacters(scope: string)
    requires IsNormal(scope)
    ensures scope != []
    ensures forall i :: 0 <= i < |scope| ==>
            !IsWhitespace(scope[i]) && scope[i] != '#' && LowerChar(scope[i]) == scope[i]
  {
    forall i | 0 <= i < |scope|
      ensures !IsWhitespace(scope[i]) && scope[i] != '#' && LowerChar(scope[i]) == scope[i]
    {
      NormalCharacter(scope, i);
      PlainCharacter(scope[i]);
    }
  }

  lemma NormalCharacter(scope: string, i: nat)
    requires IsNormal(scope) && i < |scope|
    ensures scope[i] == '*' || (IsHostChar(scope[i]) && !('A' <= scope[i] <= 'Z'))
  {
    var domain := ScopeDomain(scope);
    if IsWildcard(scope) {
      assert i >= 2 ==> scope[i] == domain[i - 2];
    } else {
      assert scope[i] == domain[i];
    }
  }

  lemma NormalIsTrimmedLower(scope: string)
    requires IsNormal(scope)
    ensures Trim(scope) == scope && Lower(scope) == scope
  {
    NormalCharacters(scope);
    TrimFixpoint(scope);
    assert forall i :: 0 <= i < |scope| ==> Lower(scope)[i] == scope[i];
  }

  /** A normal scope is a plain host, or `*.` and a plain host. */
  lemma NormalScopesExactly(scope: string)
    ensures IsNormal(scope) <==> IsPlainHost(scope) || (HasPrefix(scope, "*.") && IsPlainHost(scope[2..]))
  {
    if HasPrefix(scope, "*.") {
      assert scope[0] == '*' && !IsHostChar('*');
    }
  }

  /** Which fault each error stands for; `domain` is what follows an optional `*.`. */
  lemma ScopeErrorNamesItsCause(value: string, domain: string)
    requires Normalize(value).Err? && domain == ScopeDomain(Lower(Trim(value)))
    ensures match Normalize(value).error
            case Required => IsBlank(value)
            case NoHostname => '.' !in domain
            case TooLong => ByteLen(domain) > 253
            case BadCharacter => exists i :: 0 <= i < |domain| && !IsHostChar(domain[i])
  {
    BlankExactly(value);
  }

  /** Normal scopes are the fixpoints of normalization, and every accepted value lands on one. */
  lemma NormalizeIdempotent(value: string)
    ensures Normalize(value).Ok? ==> IsNormal(Normalize(value).value)
    ensures IsNormal(value) <==> Normalize(value) == Ok(value)
  {
    NormalizeAcceptsExactly(value);
    if IsNormal(value) {
      NormalIsTrimmedLower(value);
    }
  }

  // ---------- glob patterns ----------

  /** A character class without its opening bracket: whether it lists the character. An escaped character
      stands for itself, `a-z` is a range in either direction, and the end of the pattern closes the class. */
  predicate InClass(p: string, c: char) {
    if |p| >= 2 && p[0] == '\\' then p[1] == c || InClass(p[2..], c)
    else if p == [] || p[0] == ']' then false
    else if |p| >= 3 && p[1] == '-' then p[0] <= c <= p[2] || p[2] <= c <= p[0] || InClass(p[3..], c)
    else p[0] == c || InClass(p[1..], c)
  }

  /** The pattern after the class. */
  function AfterClass(p: string): (rest: string)
    ensures |rest| <= |p| && (p != [] ==> |rest| < |p|)
  {
    if |p| >= 2 && p[0] == '\\' then AfterClass(p[2..])
    else if p == [] then []
    else if p[0] == ']' then p[1..]
    else if |p| >= 3 && p[1] == '-' then AfterClass(p[3..])
    else AfterClass(p[1..])
  }

  /** The class that starts after `[`, possibly negated. */
  predicate ClassMatches(p: string, c: char) {
    if p != [] && p[0] == '^' then !InClass(p[1..], c) else InClass(p, c)
  }

  function ClassRest(p: string): (rest: string)
    ensures |rest| <= |p| && (p != [] ==> |rest| < |p|)
  {
    if p != [] && p[0] == '^' then AfterClass(p[1..]) else AfterClass(p)
  }

  /** Glob matching as Redis does it for `SCAN … MATCH`. */
  predicate Glob(pattern: string, s: string)
    decreases |pattern| + |s|
  {
    if pattern == [] then s == []
    else if pattern[0] == '*' then Glob(pattern[1..], s) || (s != [] && Glob(pattern, s[1..]))
    else if s == [] then false
    else if pattern[0] == '?' then Glob(pattern[1..], s[1..])
    else if pattern[0] == '[' then ClassMatches(pattern[1..], s[0]) && Glob(ClassRest(pattern[1..]), s[1..])
    else if pattern[0] == '\\' && |pattern| >= 2 then pattern[1] == s[0] && Glob(pattern[2..], s[1..])
    else pattern[0] == s[0] && Glob(pattern[1..], s[1..])
  }

  predicate IsSpecial(c: char) {
    c == '*' || c == '?' || c == '['
  }

  /** A pattern that stands for itself: nothing special, and a backslash at most as its last character. */
  predicate IsLiteral(pattern: string) {
    && (forall i :: 0 <= i < |pattern| ==> !IsSpecial(pattern[i]))
    && (forall i :: 0 <= i < |pattern| - 1 ==> pattern[i] != '\\')
  }

  predicate HasNoBackslash(pattern: string) {
    forall i :: 0 <= i < |pattern| ==> pattern[i] != '\\'
  }

  lemma {:induction false} GlobLiteralPrefix(literal: string, rest: string, s: string)
    requires IsLiteral(literal) && HasNoBackslash(literal)
    ensures Glob(literal + rest, s) <==> HasPrefix(s, literal) && Glob(rest, s[|literal|..])
  {
    if literal == [] {
      assert literal + rest == rest;
    } else {
      assert (literal + rest)[1..] == literal[1..] + rest;
      if s != [] {
        GlobLiteralPrefix(literal[1..], rest, s[1..]);
        assert literal[0] == s[0] ==> (HasPrefix(s, literal) <==> HasPrefix(s[1..], literal[1..]))
        by {
          assert literal == [literal[0]] + literal[1..] && s == [s[0]] + s[1..];
        }
      }
    }
  }

  lemma {:induction false} GlobLiteral(literal: string, s: string)
    requires IsLiteral(literal)
    ensures Glob(literal, s) <==> s == literal
  {
    if literal != [] && s != [] {
      assert literal == [literal[0]] + literal[1..] && s == [s[0]] + s[1..];
      GlobLiteral(literal[1..], s[1..]);
    }
  }

  lemma {:induction false} GlobStar(rest: string, s: string)
    ensures Glob("*" + rest, s) <==> exists k :: 0 <= k <= |s| && Glob(rest, s[k..])
  {
    assert ("*" + rest)[1..] == rest && s[0..] == s;
    if s != [] {
      GlobStar(rest, s[1..]);
      assert forall k :: 0 < k <= |s| ==> s[1..][k - 1..] == s[k..];
      if Glob("*" + rest, s[1..]) {
        var k :| 0 <= k <= |s[1..]| && Glob(rest, s[1..][k..]);
        assert Glob(rest, s[k + 1..]);
      }
      if k :| 0 < k <= |s| && Glob(rest, s[k..]) {
        assert Glob(rest, s[1..][k - 1..]);
      }
    }
  }

  lemma GlobStarSuffix(suffix: string, s: string)
    requires IsLiteral(suffix)
    ensures Glob("*" + suffix, s) <==> HasSuffix(s, suffix)
  {
    GlobStar(suffix, s);
    forall k | 0 <= k <= |s| ensures Glob(suffix, s[k..]) <==> s[k..] == suffix {
      GlobLiteral(suffix, s[k..]);
    }
    if HasSuffix(s, suffix) {
      assert s[|s| - |suffix|..] == suffix;
    }
  }

  /** A pattern that matches anything matches something no longer than itself. */
  lemma {:induction false} ShortMatch(p: string, s: string) returns (w: string)
    requires Glob(p, s)
    ensures Glob(p, w) && |w| <= |p|
    decreases |p| + |s|
  {
    if p == [] {
      w := [];
    } else if p[0] == '*' {
      if Glob(p[1..], s) {
        w := ShortMatch(p[1..], s);
      } else {
        w := ShortMatch(p, s[1..]);
      }
    } else {
      var rest := if p[0] == '?' then p[1..] else if p[0] == '[' then ClassRest(p[1..])
                  else if p[0] == '\\' && |p| >= 2 then p[2..] else p[1..];
      var tail := ShortMatch(rest, s[1..]);
      w := [s[0]] + tail;
      assert w[1..] == tail;
    }
  }

  lemma NotLiteralAfter(p: string)
    requires p != [] && !IsSpecial(p[0]) && (p[0] == '\\' ==> |p| == 1)
    ensures IsLiteral(p[1..]) ==> IsLiteral(p)
  {
    assert forall i :: 1 <= i < |p| ==> p[i] == p[1..][i - 1];
  }

  /** A pattern that does not stand for itself but matches something matches something else than itself. */
  lemma {:induction false} OtherMatch(p: string, s: string) returns (w: string)
    requires !IsLiteral(p) && Glob(p, s)
    ensures Glob(p, w) && |w| <= |p| && w != p
    decreases |p| + |s|
  {
    if p[0] == '*' {
      if Glob(p[1..], s) {
        w := ShortMatch(p[1..], s);
      } else {
        w := OtherMatch(p, s[1..]);
      }
    } else if p[0] == '?' {
      var tail := ShortMatch(p[1..], s[1..]);
      w := ['a'] + tail;
      assert w[1..] == tail;
    } else if p[0] == '[' {
      var tail := ShortMatch(ClassRest(p[1..]), s[1..]);
      w := [s[0]] + tail;
      assert w[1..] == tail;
      EmptyClass(p, s[0]);
    } else if p[0] == '\\' && |p| >= 2 {
      var tail := ShortMatch(p[2..], s[1..]);
      w := [s[0]] + tail;
      assert w[1..] == tail;
    } else {
      assert !IsLiteral(p[1..]) by {
        NotLiteralAfter(p);
      }
      var tail := OtherMatch(p[1..], s[1..]);
      w := [s[0]] + tail;
      assert w[1..] == tail && p == [p[0]] + p[1..];
    }
  }

  lemma EmptyClass(p: string, c: char)
    requires p != [] && p[0] == '[' && ClassMatches(p[1..], c)
    ensures |p| >= 2
  {
  }

  const DOMAIN := "domain:"
  const SUBDOMAIN := "subdomain:"

  predicate IsDecisionKey(key: string) {
    HasPrefix(key, DOMAIN) || HasPrefix(key, SUBDOMAIN)
  }

  function ScopeGlob(scope: string): string {
    "subdomain:*." + ScopeDomain(scope)
  }

  /** The Redis keys that `delete_domain_scope` names. */
  predicate RedisRemoves(scope: string, key: string) {
    || key == DOMAIN + ScopeDomain(scope)
    || key == SUBDOMAIN + ScopeDomain(scope)
    || Glob(ScopeGlob(scope), key)
  }

  /** `key_matches_domain_scope` */
  predicate KeyMatches(key: string, domain: string, wildcard: bool) {
    if HasPrefix(key, DOMAIN) then key[|DOMAIN|..] == domain
    else if HasPrefix(key, SUBDOMAIN) then
      var host := key[|SUBDOMAIN|..];
      var suffix := "." + domain;
      if wildcard then host == domain || HasSuffix(host, suffix)
      else if host == domain then true
      else HasSuffix(host, suffix)
    else false
  }

  /** The memory keys that an adaptor drops for an override event of this scope. */
  predicate MemoryRemoves(scope: string, key: string) {
    KeyMatches(key, ScopeDomain(scope), IsWildcard(scope))
  }

  /** `subdomain:*.V` matches exactly the keys whose host ends in `.V`. */
  lemma ScopeGlobMeaning(scope: string, key: string)
    requires IsLiteral(ScopeDomain(scope))
    ensures Glob(ScopeGlob(scope), key) <==>
            HasPrefix(key, SUBDOMAIN) && HasSuffix(key[|SUBDOMAIN|..], "." + ScopeDomain(scope))
  {
    var suffix := "." + ScopeDomain(scope);
    ScopeGlobHost(scope, key);
    assert IsLiteral(suffix);
    if HasPrefix(key, SUBDOMAIN) {
      GlobStarSuffix(suffix, key[|SUBDOMAIN|..]);
    }
  }

  lemma ScopeGlobHost(scope: string, key: string)
    ensures Glob(ScopeGlob(scope), key) <==>
            HasPrefix(key, SUBDOMAIN) && Glob("*" + ("." + ScopeDomain(scope)), key[|SUBDOMAIN|..])
  {
    assert ScopeGlob(scope) == SUBDOMAIN + ("*" + ("." + ScopeDomain(scope)));
    assert IsLiteral(SUBDOMAIN) && HasNoBackslash(SUBDOMAIN);
    GlobLiteralPrefix(SUBDOMAIN, "*" + ("." + ScopeDomain(scope)), key);
  }

  lemma PlainIsLiteral(scope: string)
    requires IsNormal(scope)
    ensures IsLiteral(ScopeDomain(scope))
  {
  }

  /** For every scope that normalization accepts, every key and both wildcard flags, the keys
      deleted from Redis are the keys dropped from memory. */
  lemma RedisAndMemoryAgree(value: string, key: string, wildcard: bool)
    requires Normalize(value).Ok?
    ensures var scope := Normalize(value).value;
            RedisRemoves(scope, key) <==> KeyMatches(key, ScopeDomain(scope), wildcard)
  {
    NormalizeIdempotent(value);
    PlainIsLiteral(Normalize(value).value);
    LiteralScopesAgree(Normalize(value).value, key, wildcard);
  }

  lemma LiteralScopesAgree(scope: string, key: string, wildcard: bool)
    requires IsLiteral(ScopeDomain(scope))
    ensures RedisRemoves(scope, key) <==> KeyMatches(key, ScopeDomain(scope), wildcard)
  {
    ScopeGlobMeaning(scope, key);
    if HasPrefix(key, DOMAIN) {
      assert key == DOMAIN + key[|DOMAIN|..];
      assert key[0] == 'd' && SUBDOMAIN[0] == 's';
    } else if HasPrefix(key, SUBDOMAIN) {
      assert key == SUBDOMAIN + key[|SUBDOMAIN|..];
      assert key[0] == 's' && DOMAIN[0] == 'd';
    }
  }

  /** Both sides remove the same keys. */
  ghost predicate Agree(scope: string) {
    forall key :: RedisRemoves(scope, key) <==> MemoryRemoves(scope, key)
  }

  /** Whatever scope is handed to the two sides, normalized or not, they remove the same keys if and only if its
      domain is literal as a glob: no `*`, `?` or `[`, and no backslash before its last character. */
  lemma AgreeExactly(scope: string)
    ensures Agree(scope) <==> IsLiteral(ScopeDomain(scope))
  {
    if IsLiteral(ScopeDomain(scope)) {
      forall key ensures RedisRemoves(scope, key) <==> MemoryRemoves(scope, key) {
        LiteralScopesAgree(scope, key, IsWildcard(scope));
      }
    } else {
      var key := DisagreeingKey(scope);
      assert !Agree(scope);
    }
  }

  /** A key that only one side removes: one that the glob matches although its host does not end in the domain,
      or, where the glob matches nothing, one whose host does. */
  lemma DisagreeingKey(scope: string) returns (key: string)
    requires !IsLiteral(ScopeDomain(scope))
    ensures RedisRemoves(scope, key) != MemoryRemoves(scope, key)
  {
    var domain := ScopeDomain(scope);
    if s :| Glob(domain, s) {
      var w := OtherMatch(domain, s);
      var host := if "." + w == domain then "a." + w else "." + w;
      MatchedHost(domain, w, host);
      key := SUBDOMAIN + host;
      HostOfKey(scope, host);
    } else {
      var host := "." + domain;
      UnmatchedHost(domain);
      key := SUBDOMAIN + host;
      HostOfKey(scope, host);
    }
  }

  /** What the two sides say of a `subdomain:` key with this host. */
  lemma HostOfKey(scope: string, host: string)
    ensures RedisRemoves(scope, SUBDOMAIN + host) <==>
            host == ScopeDomain(scope) || Glob("*" + ("." + ScopeDomain(scope)), host)
    ensures MemoryRemoves(scope, SUBDOMAIN + host) <==>
            host == ScopeDomain(scope) || HasSuffix(host, "." + ScopeDomain(scope))
  {
    var key := SUBDOMAIN + host;
    assert key[0] == 's' && DOMAIN[0] == 'd';
    assert key[|SUBDOMAIN|..] == host;
    assert key == SUBDOMAIN + ScopeDomain(scope) <==> host == ScopeDomain(scope) by {
      assert (SUBDOMAIN + ScopeDomain(scope))[|SUBDOMAIN|..] == ScopeDomain(scope);
    }
    ScopeGlobHost(scope, key);
  }

  lemma GlobDot(domain: string, s: string)
    ensures Glob("." + domain, s) <==> s != [] && s[0] == '.' && Glob(domain, s[1..])
  {
    assert ("." + domain)[1..] == domain;
  }

  lemma MatchedHost(domain: string, w: string, host: string)
    requires Glob(domain, w) && |w| <= |domain| && w != domain
    requires host == if "." + w == domain then "a." + w else "." + w
    ensures host != domain && Glob("*" + ("." + domain), host) && !HasSuffix(host, "." + domain)
  {
    var k := |host| - |w| - 1;
    assert host[k..] == "." + w && ("." + w)[1..] == w;
    GlobDot(domain, host[k..]);
    GlobStar("." + domain, host);
    assert ("." + domain)[1..] == domain;
    if "." + w == domain {
      assert |host| == |domain| + 1 && host[0] == 'a';
    } else {
      assert host[1..] == w;
    }
  }

  lemma UnmatchedHost(domain: string)
    requires !exists s :: Glob(domain, s)
    ensures !Glob("*" + ("." + domain), "." + domain) && HasSuffix("." + domain, "." + domain) && "." + domain != domain
  {
    var host := "." + domain;
    GlobStar("." + domain, host);
    forall k | 0 <= k <= |host| ensures !Glob("." + domain, host[k..]) {
      GlobDot(domain, host[k..]);
    }
    assert host[0..] == host;
  }

  /** A matched key is always a `domain:` or `subdomain:` key. */
  lemma MatchedKeysAreDecisionKeys(scope: string, key: string)
    requires MemoryRemoves(scope, key)
    ensures IsDecisionKey(key)
  {
  }
}
