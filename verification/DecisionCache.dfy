/** The adaptor's two-level decision cache: a map in memory in front of Redis, written together
    and invalidated by override and policy events. Times are in milliseconds. */
module DecisionCache {
  import opened Text
  import opened CommonTypes
  import opened DomainScope

  datatype Entry = Entry(decision: PolicyDecision, expiresAt: int)
  type Memory = map<string, Entry>

  /** What Redis stores under a key: a decision as JSON, or text that does not parse as one. */
  datatype Payload = Encoded(decision: PolicyDecision) | Malformed
  datatype RedisEntry = RedisEntry(payload: Payload, expiresAt: int)
  type RedisKeys = map<string, RedisEntry>

  datatype Event =
    | Override(scopeType: string, scopeValue: string)
    | Review(normalizedKey: string)
    | Policy

  // ---------- what each operation does to the two maps ----------

  function MemoryGet(memory: Memory, key: string, now: int): Option<PolicyDecision> {
    if key in memory && now <= memory[key].expiresAt then Some(memory[key].decision) else None
  }

  /** Whether Redis still answers for an entry. `lingers` says what happens at the very
      millisecond of expiry, which is the server's choice. */
  predicate RedisLive(entry: RedisEntry, now: int, lingers: bool) {
    now < entry.expiresAt || (lingers && now == entry.expiresAt)
  }

  function RedisGet(redis: RedisKeys, key: string, now: int, lingers: bool): Option<PolicyDecision> {
    if key in redis && RedisLive(redis[key], now, lingers) && redis[key].payload.Encoded?
    then Some(redis[key].payload.decision)
    else None
  }

  /** `CacheClient::get`: memory first, then Redis. */
  function TwoLevelGet(memory: Memory, redis: RedisKeys, key: string, now: int, lingers: bool): Option<PolicyDecision> {
    var hit := MemoryGet(memory, key, now);
    if hit.Some? then hit else RedisGet(redis, key, now, lingers)
  }

  /** The lifetime Redis is given: whole seconds, and at least one. */
  function RedisTtl(ttl: nat): nat {
    if ttl / 1000 < 1 then 1000 else ttl / 1000 * 1000
  }

  function MemorySet(memory: Memory, key: string, decision: PolicyDecision, ttl: nat, now: int): Memory {
    memory[key := Entry(decision, now + ttl)]
  }

  function RedisSet(redis: RedisKeys, key: string, decision: PolicyDecision, ttl: nat, now: int): RedisKeys {
    redis[key := RedisEntry(Encoded(decision), now + RedisTtl(ttl))]
  }

  function WithoutScope(memory: Memory, scope: string): Memory {
    map key | key in memory && !MemoryRemoves(scope, key) :: memory[key]
  }

  /** `apply_invalidation` on an adaptor's memory. */
  function AfterEvent(memory: Memory, event: Event): Memory {
    match event
    case Override(scopeType, scope) => if scopeType == "domain" then WithoutScope(memory, scope) else map[]
    case Review(key) => memory - {key}
    case Policy => map[]
  }

  function WithoutPattern(redis: RedisKeys, pattern: string): RedisKeys {
    map key | key in redis && !Glob(pattern, key) :: redis[key]
  }

  /** `flush_domain_entries` */
  function Flushed(redis: RedisKeys): RedisKeys {
    WithoutPattern(WithoutPattern(redis, "domain:*"), "subdomain:*")
  }

  /** `delete_scope` */
  function WithoutRedisScope(redis: RedisKeys, scopeType: string, scope: string): RedisKeys {
    if scopeType == "domain" then map key | key in redis && !RedisRemoves(scope, key) :: redis[key]
    else Flushed(redis)
  }

  lemma FlushedMeaning(redis: RedisKeys)
    ensures forall key :: key in Flushed(redis) <==> key in redis && !IsDecisionKey(key)
    ensures forall key :: key in Flushed(redis) ==> Flushed(redis)[key] == redis[key]
  {
    forall key ensures Glob("domain:*", key) <==> HasPrefix(key, DOMAIN) {
      assert DOMAIN + "*" == "domain:*";
      GlobPrefix(DOMAIN, key);
    }
    forall key ensures Glob("subdomain:*", key) <==> HasPrefix(key, SUBDOMAIN) {
      assert SUBDOMAIN + "*" == "subdomain:*";
      GlobPrefix(SUBDOMAIN, key);
    }
  }

  lemma GlobPrefix(prefix: string, key: string)
    requires IsLiteral(prefix) && HasNoBackslash(prefix)
    ensures Glob(prefix + "*", key) <==> HasPrefix(key, prefix)
  {
    GlobLiteralPrefix(prefix, "*", key);
    if HasPrefix(key, prefix) {
      GlobStarSuffix("", key[|prefix|..]);
      assert "*" + "" == "*";
    }
  }

  // ---------- the services, with the maps as state they update ----------

  class RedisServer {
    var entries: RedisKeys

    constructor ()
      ensures entries == map[]
    {
      entries := map[];
    }
  }

  class CacheClient {
    var memory: Memory
    const redis: RedisServer?

    constructor (redis: RedisServer?)
      ensures memory == map[] && this.redis == redis
    {
      memory := map[];
      this.redis := redis;
    }

    /** `redis_get`: up to three connection attempts, whose outcomes are `up`. */
    method ReadRedis(key: string, now: int, lingers: bool, up: seq<bool>) returns (found: Option<Payload>)
      requires |up| == 3
      ensures found.Some? <==>
              && redis != null && true in up
              && key in redis.entries && RedisLive(redis.entries[key], now, lingers)
      ensures found.Some? ==> found.value == redis.entries[key].payload
    {
      if redis == null {
        return None;
      }
      for attempt := 0 to 3
        invariant true !in up[..attempt]
      {
        if up[attempt] {
          if key in redis.entries && RedisLive(redis.entries[key], now, lingers) {
            return Some(redis.entries[key].payload);
          }
          return None;
        }
        assert up[..attempt + 1] == up[..attempt] + [up[attempt]];
      }
      assert up[..3] == up;
      return None;
    }

    method Get(key: string, now: int, lingers: bool, up: seq<bool>) returns (decision: Option<PolicyDecision>)
      requires |up| == 3
      ensures var reached := if redis != null && true in up then redis.entries else map[];
              decision == TwoLevelGet(memory, reached, key, now, lingers)
    {
      decision := MemoryGet(memory, key, now);
      if decision.Some? {
        return;
      }
      var payload := ReadRedis(key, now, lingers, up);
      if payload.Some? && payload.value.Encoded? {
        return Some(payload.value.decision);
      }
      return None;
    }

    /** `set`: memory at once, then Redis if one of three attempts gets through. */
    method Set(key: string, decision: PolicyDecision, ttl: nat, now: int, up: seq<bool>)
      requires |up| == 3
      modifies this, redis
      ensures memory == MemorySet(old(memory), key, decision, ttl, now)
      ensures redis != null ==>
                redis.entries == if true in up then RedisSet(old(redis.entries), key, decision, ttl, now)
                    else old(redis.entries)
    {
      memory := memory[key := Entry(decision, now + ttl)];
      if redis != null {
        var attempt := 0;
        while attempt < 3
          invariant 0 <= attempt <= 3
          invariant true !in up[..attempt]
          invariant redis.entries == old(redis.entries)
          invariant memory == MemorySet(old(memory), key, decision, ttl, now)
        {
          if up[attempt] {
            redis.entries := redis.entries[key := RedisEntry(Encoded(decision), now + RedisTtl(ttl))];
            return;
          }
          assert up[..attempt + 1] == up[..attempt] + [up[attempt]];
          attempt := attempt + 1;
        }
        assert up[..3] == up;
      }
    }

    method ApplyInvalidation(event: Event)
      modifies this
      ensures memory == AfterEvent(old(memory), event)
    {
      match event
      case Override(scopeType, scope) =>
        if scopeType != "domain" {
          memory := map[];
        } else {
          memory := map key | key in memory && !KeyMatches(key, ScopeDomain(scope), IsWildcard(scope)) :: memory[key];
        }
      case Review(key) =>
        if key in memory {
          memory := memory - {key};
        }
      case Policy =>
        memory := map[];
    }
  }

  /** One answer of `SCAN`: the cursor to go on from, zero at the end, and some keys. */
  datatype ScanReply = ScanReply(next: nat, keys: seq<string>)

  /** What Redis promises of a full iteration that nothing else writes into: it ends at the first
      zero cursor, answers only with matching keys, and reaches every matching key. */
  predicate CompleteScan(keys: set<string>, pattern: string, replies: seq<ScanReply>) {
    && replies != []
    && replies[|replies| - 1].next == 0
    && (forall i :: 0 <= i < |replies| - 1 ==> replies[i].next != 0)
    && (forall i, key :: 0 <= i < |replies| && key in replies[i].keys ==> Glob(pattern, key))
    && (forall key :: key in keys && Glob(pattern, key) ==> Reached(replies, key))
  }

  predicate Reached(replies: seq<ScanReply>, key: string) {
    exists i :: 0 <= i < |replies| && key in replies[i].keys
  }

  class CacheInvalidator {
    const redis: RedisServer

    constructor (redis: RedisServer)
      ensures this.redis == redis
    {
      this.redis := redis;
    }

    method DeleteKey(key: string)
      modifies redis
      ensures redis.entries == if Trim(key) == "" then old(redis.entries) else old(redis.entries) - {key}
    {
      if Trim(key) == "" {
        return;
      }
      redis.entries := redis.entries - {key};
    }

    /** `delete_pattern`: scan and delete until the cursor is back at zero. */
    method DeletePattern(pattern: string, replies: seq<ScanReply>)
      requires CompleteScan(redis.entries.Keys, pattern, replies)
      modifies redis
      ensures redis.entries == if Trim(pattern) == "" then old(redis.entries)
              else WithoutPattern(old(redis.entries), pattern)
    {
      if Trim(pattern) == "" {
        return;
      }
      var received := 0;
      while received < |replies|
        invariant 0 <= received <= |replies|
        invariant forall key :: key in redis.entries <==>
                                key in old(redis.entries) && !Reached(replies[..received], key)
        invariant forall key :: key in redis.entries ==> redis.entries[key] == old(redis.entries)[key]
        decreases |replies| - received
      {
        var reply := replies[received];
        if reply.keys != [] {
          redis.entries := map key | key in redis.entries && key !in reply.keys :: redis.entries[key];
        }
        ReachedStep(replies, received);
        received := received + 1;
        if reply.next == 0 {
          break;
        }
      }
      assert replies[..received] == replies;
    }

    method DeleteDomainScope(scope: string, replies: seq<ScanReply>)
      requires CompleteScan(redis.entries.Keys, ScopeGlob(scope), replies)
      modifies redis
      ensures redis.entries == WithoutRedisScope(old(redis.entries), "domain", scope)
    {
      var domain := ScopeDomain(scope);
      VisibleText(DOMAIN + domain, 'd');
      VisibleText(SUBDOMAIN + domain, 's');
      VisibleText(ScopeGlob(scope), 's');
      DeleteKey(DOMAIN + domain);
      DeleteKey(SUBDOMAIN + domain);
      DeletePattern(ScopeGlob(scope), replies);
    }

    /** `invalidate_override`: delete from Redis, then hand the event to the subscribers. */
    method InvalidateOverride(scopeType: string, scope: string, replies: seq<ScanReply>, more: seq<ScanReply>)
      returns (published: Event)
      requires scopeType == "domain" ==> CompleteScan(redis.entries.Keys, ScopeGlob(scope), replies)
      requires scopeType != "domain" ==>
                 && CompleteScan(redis.entries.Keys, "domain:*", replies)
                 && CompleteScan(redis.entries.Keys, "subdomain:*", more)
      modifies redis
      ensures redis.entries == WithoutRedisScope(old(redis.entries), scopeType, scope)
      ensures published == Override(scopeType, scope)
    {
      if scopeType == "domain" {
        DeleteDomainScope(scope, replies);
      } else {
        FlushDomainEntries(replies, more);
      }
      published := Override(scopeType, scope);
    }

    method FlushDomainEntries(replies: seq<ScanReply>, more: seq<ScanReply>)
      requires CompleteScan(redis.entries.Keys, "domain:*", replies)
      requires CompleteScan(redis.entries.Keys, "subdomain:*", more)
      modifies redis
      ensures redis.entries == Flushed(old(redis.entries))
    {
      VisibleText("domain:*", 'd');
      VisibleText("subdomain:*", 's');
      DeletePattern("domain:*", replies);
      DeletePattern("subdomain:*", more);
    }

    method InvalidatePolicy(replies: seq<ScanReply>, more: seq<ScanReply>) returns (published: Event)
      requires CompleteScan(redis.entries.Keys, "domain:*", replies)
      requires CompleteScan(redis.entries.Keys, "subdomain:*", more)
      modifies redis
      ensures redis.entries == Flushed(old(redis.entries))
      ensures published == Policy
    {
      FlushDomainEntries(replies, more);
      published := Policy;
    }
  }

  lemma ReachedStep(replies: seq<ScanReply>, n: nat)
    requires n < |replies|
    ensures forall key :: Reached(replies[..n + 1], key) <==> Reached(replies[..n], key) || key in replies[n].keys
  {
    forall key
      ensures Reached(replies[..n + 1], key) <==> Reached(replies[..n], key) || key in replies[n].keys
    {
      if key in replies[n].keys {
        assert replies[..n + 1][n] == replies[n];
      }
      if Reached(replies[..n], key) {
        var i :| 0 <= i < n && key in replies[..n][i].keys;
        assert replies[..n + 1][i] == replies[..n][i];
      }
      if Reached(replies[..n + 1], key) {
        var i :| 0 <= i < n + 1 && key in replies[..n + 1][i].keys;
        assert i < n ==> replies[..n][i] == replies[..n + 1][i];
      }
    }
  }

  lemma VisibleText(s: string, first: char)
    requires s != [] && s[0] == first && !IsWhitespace(first)
    ensures Trim(s) != ""
  {
    var lo, hi := TrimMeaning(s);
  }

  // ---------- several adaptors, one Redis, against one map with one lifetime per key ----------

  type AdaptorId = nat

  datatype Op =
    | Set(adaptor: AdaptorId, key: string, decision: PolicyDecision, ttl: nat)
    | Tick(elapsed: nat)
    | InvalidateOverride(scopeType: string, scope: string)
    | InvalidatePolicy
    | Evict(key: string)

  /** The scopes on which deletion in Redis and in memory agree (`DomainScope.AgreeExactly`). */
  predicate Legal(op: Op) {
    op.InvalidateOverride? && op.scopeType == "domain" ==> IsLiteral(ScopeDomain(op.scope))
  }

  datatype System = System(memories: map<AdaptorId, Memory>, redis: RedisKeys, now: int, lingers: bool)

  function MemoryOf(memories: map<AdaptorId, Memory>, adaptor: AdaptorId): Memory {
    if adaptor in memories then memories[adaptor] else map[]
  }

  function AllAfter(memories: map<AdaptorId, Memory>, event: Event): map<AdaptorId, Memory> {
    map adaptor | adaptor in memories :: AfterEvent(memories[adaptor], event)
  }

  /** A paired invalidation deletes from Redis and delivers the event to every adaptor. */
  function Apply(s: System, op: Op): System {
    match op
    case Set(adaptor, key, decision, ttl) =>
      s.(memories := s.memories[adaptor := MemorySet(MemoryOf(s.memories, adaptor), key, decision, ttl, s.now)],
         redis := RedisSet(s.redis, key, decision, ttl, s.now))
    case Tick(elapsed) => s.(now := s.now + elapsed)
    case InvalidateOverride(scopeType, scope) =>
      s.(memories := AllAfter(s.memories, Override(scopeType, scope)),
         redis := WithoutRedisScope(s.redis, scopeType, scope))
    case InvalidatePolicy => s.(memories := AllAfter(s.memories, Policy), redis := Flushed(s.redis))
    case Evict(key) =>
      if key in s.redis && !RedisLive(s.redis[key], s.now, s.lingers) then s.(redis := s.redis - {key}) else s
  }

  function Run(s: System, ops: seq<Op>): System {
    if ops == [] then s else Apply(Run(s, ops[..|ops| - 1]), ops[|ops| - 1])
  }

  function Answer(s: System, adaptor: AdaptorId, key: string): Option<PolicyDecision> {
    TwoLevelGet(MemoryOf(s.memories, adaptor), s.redis, key, s.now, s.lingers)
  }

  datatype Lease = Lease(decision: PolicyDecision, setAt: int, ttl: nat)

  /** The reference: one map, one lifetime of max(ttl, 1 s) per key. Beside it, for the statement of when an
      adaptor answers like it, what each adaptor itself set last since the key was invalidated. */
  datatype Book = Book(leases: map<string, Lease>, own: map<(AdaptorId, string), Lease>, now: int)

  function LeaseEnd(lease: Lease): int {
    lease.setAt + if lease.ttl < 1000 then 1000 else lease.ttl
  }

  function SingleGet(b: Book, key: string): Option<PolicyDecision> {
    if key in b.leases && b.now <= LeaseEnd(b.leases[key]) then Some(b.leases[key].decision) else None
  }

  predicate Dropped(op: Op, key: string) {
    op.InvalidatePolicy? || (op.InvalidateOverride? && (op.scopeType != "domain" || MemoryRemoves(op.scope, key)))
  }

  function ApplyBook(b: Book, op: Op): Book {
    match op
    case Set(adaptor, key, decision, ttl) =>
      var lease := Lease(decision, b.now, ttl);
      b.(leases := b.leases[key := lease], own := b.own[(adaptor, key) := lease])
    case Tick(elapsed) => b.(now := b.now + elapsed)
    case _ =>
      b.(leases := map key | key in b.leases && !Dropped(op, key) :: b.leases[key],
         own := map pair | pair in b.own && !Dropped(op, pair.1) :: b.own[pair])
  }

  function RunBook(b: Book, ops: seq<Op>): Book {
    if ops == [] then b else ApplyBook(RunBook(b, ops[..|ops| - 1]), ops[|ops| - 1])
  }

  predicate InMemory(lease: Lease, now: int) {
    now <= lease.setAt + lease.ttl
  }

  /** The whole seconds of a lifetime, and at least one. */
  function Seconds(ttl: nat): nat {
    if ttl < 1000 then 1 else ttl / 1000
  }

  /** Fewer whole seconds have passed than the lifetime has; at the very end of the last one the server decides. */
  predicate InRedis(lease: Lease, now: int, lingers: bool) {
    var elapsed := now - lease.setAt;
    elapsed / 1000 < Seconds(lease.ttl) || (lingers && elapsed == 1000 * Seconds(lease.ttl))
  }

  // ---------- the invariant ----------

  /** A leased key is in Redis as leased or already evicted; a key without a lease is not. */
  predicate RedisRelated(s: System, b: Book, key: string) {
    if key in b.leases then
      var lease := b.leases[key];
      if key in s.redis then s.redis[key] == RedisEntry(Encoded(lease.decision), lease.setAt + RedisTtl(lease.ttl))
      else !InRedis(lease, s.now, s.lingers)
    else key !in s.redis
  }

  /** An adaptor's memory holds what it set itself, which is leased to someone. */
  predicate MemoryRelated(s: System, b: Book, adaptor: AdaptorId, key: string) {
    var memory := MemoryOf(s.memories, adaptor);
    if (adaptor, key) in b.own then
      var lease := b.own[(adaptor, key)];
      key in b.leases && key in memory && memory[key] == Entry(lease.decision, lease.setAt + lease.ttl)
    else key !in memory
  }

  ghost predicate Related(s: System, b: Book) {
    && s.now == b.now
    && (forall key :: IsDecisionKey(key) ==> RedisRelated(s, b, key))
    && (forall adaptor, key :: IsDecisionKey(key) ==> MemoryRelated(s, b, adaptor, key))
  }

  lemma InvalidationDrops(s: System, op: Op, key: string)
    requires Legal(op) && (op.InvalidateOverride? || op.InvalidatePolicy?) && IsDecisionKey(key)
    ensures key in Apply(s, op).redis <==> key in s.redis && !Dropped(op, key)
    ensures key in Apply(s, op).redis ==> Apply(s, op).redis[key] == s.redis[key]
  {
    FlushedMeaning(s.redis);
    if op.InvalidateOverride? && op.scopeType == "domain" {
      LiteralScopesAgree(op.scope, key, IsWildcard(op.scope));
    }
  }

  lemma StepKeepsRedis(s: System, b: Book, op: Op, key: string)
    requires s.now == b.now && Legal(op) && IsDecisionKey(key) && RedisRelated(s, b, key)
    ensures RedisRelated(Apply(s, op), ApplyBook(b, op), key)
  {
    if op.InvalidateOverride? || op.InvalidatePolicy? {
      InvalidationDrops(s, op, key);
    }
  }

  lemma StepKeepsMemory(s: System, b: Book, op: Op, adaptor: AdaptorId, key: string)
    requires s.now == b.now && MemoryRelated(s, b, adaptor, key)
    ensures MemoryRelated(Apply(s, op), ApplyBook(b, op), adaptor, key)
  {
  }

  lemma StepKeepsRelated(s: System, b: Book, op: Op)
    requires Related(s, b) && Legal(op)
    ensures Related(Apply(s, op), ApplyBook(b, op))
  {
    forall key | IsDecisionKey(key) ensures RedisRelated(Apply(s, op), ApplyBook(b, op), key) {
      StepKeepsRedis(s, b, op, key);
    }
    forall adaptor, key | IsDecisionKey(key) ensures MemoryRelated(Apply(s, op), ApplyBook(b, op), adaptor, key) {
      StepKeepsMemory(s, b, op, adaptor, key);
    }
  }

  lemma {:induction false} RunKeepsRelated(s: System, b: Book, ops: seq<Op>)
    requires Related(s, b)
    requires forall op :: op in ops ==> Legal(op)
    ensures Related(Run(s, ops), RunBook(b, ops)) && Run(s, ops).lingers == s.lingers
  {
    if ops != [] {
      var before, op := ops[..|ops| - 1], ops[|ops| - 1];
      assert forall o :: o in before ==> o in ops;
      RunKeepsRelated(s, b, before);
      StepKeepsRelated(Run(s, before), RunBook(b, before), op);
    }
  }

  // ---------- what every adaptor answers ----------

  function Empty(start: int, lingers: bool): System {
    System(map[], map[], start, lingers)
  }

  function NoLeases(start: int): Book {
    Book(map[], map[], start)
  }

  /** After every run from the empty cache and for every adaptor: its own last set while that is in memory, else
      the last set of any adaptor while that is in Redis, else nothing. */
  lemma AnswerExactly(ops: seq<Op>, adaptor: AdaptorId, key: string, start: int, lingers: bool)
    requires forall op :: op in ops ==> Legal(op)
    requires IsDecisionKey(key)
    ensures var b := RunBook(NoLeases(start), ops);
            Answer(Run(Empty(start, lingers), ops), adaptor, key) ==
            if (adaptor, key) in b.own && InMemory(b.own[(adaptor, key)], b.now)
                then Some(b.own[(adaptor, key)].decision)
            else if key in b.leases && InRedis(b.leases[key], b.now, lingers) then Some(b.leases[key].decision)
            else None
    ensures var b := RunBook(NoLeases(start), ops); (adaptor, key) in b.own ==> key in b.leases
  {
    RunKeepsRelated(Empty(start, lingers), NoLeases(start), ops);
    var s, b := Run(Empty(start, lingers), ops), RunBook(NoLeases(start), ops);
    assert RedisRelated(s, b, key) && MemoryRelated(s, b, adaptor, key);
  }

  /** When an adaptor answers as the single map does: its own entry, while in memory, carries the decision of the
      last set and that has not ended; or it has none in memory, and the last set is in Redis or has ended. */
  predicate IsCurrent(b: Book, adaptor: AdaptorId, key: string, lingers: bool) {
    key in b.leases ==>
      var last := b.leases[key];
      if (adaptor, key) in b.own && InMemory(b.own[(adaptor, key)], b.now)
      then b.own[(adaptor, key)].decision == last.decision && b.now <= LeaseEnd(last)
      else InRedis(last, b.now, lingers) || LeaseEnd(last) < b.now
  }

  /** Of any run: an adaptor without an own entry in memory answers with another adaptor's set while fewer whole
      seconds have passed than its lifetime has (one second if it has none), and misses after the last of them. */
  lemma OtherSetAnsweredExactly(ops: seq<Op>, writer: AdaptorId, adaptor: AdaptorId, key: string,
                                decision: PolicyDecision, ttl: nat, elapsed: nat, start: int, lingers: bool)
    requires forall op :: op in ops ==> Legal(op)
    requires IsDecisionKey(key) && adaptor != writer
    requires var b := RunBook(NoLeases(start), ops);
             (adaptor, key) in b.own ==> !InMemory(b.own[(adaptor, key)], b.now + elapsed)
    ensures var answer := Answer(Run(Empty(start, lingers), ops + [Set(writer, key, decision, ttl), Tick(elapsed)]),
                                 adaptor, key);
            var seconds := if ttl / 1000 < 1 then 1 else ttl / 1000;
            && (elapsed / 1000 < seconds ==> answer == Some(decision))
            && (elapsed == 1000 * seconds ==> answer == if lingers then Some(decision) else None)
            && (elapsed > 1000 * seconds ==> answer == None)
  {
    var more := [Set(writer, key, decision, ttl), Tick(elapsed)];
    assert (ops + more)[..|ops| + 1] == ops + [more[0]];
    assert (ops + [more[0]])[..|ops|] == ops;
    assert RunBook(NoLeases(start), ops + more) ==
           ApplyBook(ApplyBook(RunBook(NoLeases(start), ops), more[0]), more[1]);
    AnswerExactly(ops + more, adaptor, key, start, lingers);
  }

  lemma RedisWithinLease(lease: Lease, now: int, lingers: bool)
    ensures InRedis(lease, now, lingers) ==> now <= LeaseEnd(lease)
  {
  }

  /** For all runs, adaptors and keys: the two-level `get` answers as one map if and only if `IsCurrent`. */
  lemma SharedRedisRefinesSingleExactly(ops: seq<Op>, adaptor: AdaptorId, key: string, start: int, lingers: bool)
    requires forall op :: op in ops ==> Legal(op)
    requires IsDecisionKey(key)
    ensures var b := RunBook(NoLeases(start), ops);
            Answer(Run(Empty(start, lingers), ops), adaptor, key) == SingleGet(b, key) <==>
                IsCurrent(b, adaptor, key, lingers)
  {
    var b := RunBook(NoLeases(start), ops);
    AnswerExactly(ops, adaptor, key, start, lingers);
    if key in b.leases {
      RedisWithinLease(b.leases[key], b.now, lingers);
    }
  }

  /** If one adaptor makes all the sets of a key, its own last set is the last set. */
  lemma {:induction false} SoleWriterOwns(ops: seq<Op>, adaptor: AdaptorId, key: string, start: int)
    requires forall op :: op in ops && op.Set? && op.key == key ==> op.adaptor == adaptor
    ensures var b := RunBook(NoLeases(start), ops);
            key in b.leases ==> (adaptor, key) in b.own && b.own[(adaptor, key)] == b.leases[key]
  {
    if ops != [] {
      assert forall op :: op in ops[..|ops| - 1] ==> op in ops;
      assert ops[|ops| - 1] in ops;
      SoleWriterOwns(ops[..|ops| - 1], adaptor, key, start);
    }
  }

  /** So for the adaptor that makes all the sets of a key, `get` answers as the single map does. The one exception
      is the last millisecond of a lifetime that was raised to one second, if the server no longer answers then. */
  lemma TwoLevelRefinesSingle(ops: seq<Op>, adaptor: AdaptorId, key: string, start: int, lingers: bool)
    requires forall op :: op in ops ==> Legal(op)
    requires forall op :: op in ops && op.Set? && op.key == key ==> op.adaptor == adaptor
    requires IsDecisionKey(key)
    ensures var b := RunBook(NoLeases(start), ops);
            var boundary := !lingers && key in b.leases && b.leases[key].ttl < 1000 && b.now == LeaseEnd(b.leases[key]);
            Answer(Run(Empty(start, lingers), ops), adaptor, key) == if boundary then None else SingleGet(b, key)
  {
    AnswerExactly(ops, adaptor, key, start, lingers);
    SoleWriterOwns(ops, adaptor, key, start);
  }

  // ---------- two ways in which another adaptor breaks the law ----------

  lemma RunTwo(s: System, b: Book, x: Op, y: Op)
    ensures Run(s, [x, y]) == Apply(Apply(s, x), y) && RunBook(b, [x, y]) == ApplyBook(ApplyBook(b, x), y)
  {
    assert [x, y][..1] == [x] && [x][..0] == [];
    assert Run(s, [x]) == Apply(s, x) && RunBook(b, [x]) == ApplyBook(b, x);
  }

  /** Another adaptor's later set is not seen while the own entry is in memory. */
  lemma LaterSetIsNotSeen(first: PolicyDecision, second: PolicyDecision, key: string, start: int, lingers: bool)
    requires first != second && IsDecisionKey(key)
    ensures var ops := [Set(0, key, first, 60000), Set(1, key, second, 60000)];
            Answer(Run(Empty(start, lingers), ops), 0, key) != SingleGet(RunBook(NoLeases(start), ops), key)
  {
    var ops := [Set(0, key, first, 60000), Set(1, key, second, 60000)];
    RunTwo(Empty(start, lingers), NoLeases(start), ops[0], ops[1]);
    SharedRedisRefinesSingleExactly(ops, 0, key, start, lingers);
  }

  /** Redis drops the fraction of a second, so another adaptor misses before the lifetime ends. */
  lemma FractionOfSecondIsLost(decision: PolicyDecision, key: string, start: int, lingers: bool)
    requires IsDecisionKey(key)
    ensures var ops := [Set(0, key, decision, 1500), Tick(1200)];
            Answer(Run(Empty(start, lingers), ops), 1, key) != SingleGet(RunBook(NoLeases(start), ops), key)
  {
    var ops := [Set(0, key, decision, 1500), Tick(1200)];
    RunTwo(Empty(start, lingers), NoLeases(start), ops[0], ops[1]);
    SharedRedisRefinesSingleExactly(ops, 1, key, start, lingers);
  }

  lemma RunThree(s: System, b: Book, x: Op, y: Op, z: Op)
    ensures Run(s, [x, y, z]) == Apply(Apply(Apply(s, x), y), z)
    ensures RunBook(b, [x, y, z]) == ApplyBook(ApplyBook(ApplyBook(b, x), y), z)
  {
    assert [x, y, z][..2] == [x, y];
    RunTwo(s, b, x, y);
  }

  /** The guard `Legal` cannot be weakened: for every other scope there is a run of one adaptor that sets a key and
      invalidates the scope, after which `get` and the single map differ. */
  lemma IllegalScopeBreaksTheLaw(scope: string, decision: PolicyDecision, start: int, lingers: bool)
    returns (key: string, ttl: nat)
    requires !IsLiteral(ScopeDomain(scope))
    ensures var ops := [Set(0, key, decision, ttl), InvalidateOverride("domain", scope), Tick(500)];
            Answer(Run(Empty(start, lingers), ops), 0, key) != SingleGet(RunBook(NoLeases(start), ops), key)
  {
    key := DisagreeingKey(scope);
    ttl := if MemoryRemoves(scope, key) then 60000 else 0;
    RunThree(Empty(start, lingers), NoLeases(start), Set(0, key, decision, ttl), InvalidateOverride("domain", scope),
             Tick(500));
  }
}
