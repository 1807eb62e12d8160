/** The invalidation protocol between the admin service and any number of adaptors that share one
    Redis. Every Redis command, memory write and event delivery is a step of its own, and steps of
    different adaptors and of several invalidation jobs interleave freely. */
module InvalidationProtocol {
  import opened Text
  import opened CommonTypes
  import opened DomainScope
  import opened DecisionCache

  type JobId = nat

  /** How far `invalidate_override` for a domain scope has got. While it scans, `owed` holds the
      keys that have been in Redis since the scan began and that the scan has not answered with. */
  datatype Phase =
    | AtDomainKey
    | AtSubdomainKey
    | AtScan
    | Scanning(owed: set<string>)
    | Holding(batch: set<string>, owed: set<string>, last: bool)
    | AtPublish
    | Published

  datatype Job = Job(scope: string, phase: Phase)

  datatype State = State(now: int, lingers: bool, memories: map<AdaptorId, Memory>, redis: RedisKeys,
                         jobs: map<JobId, Job>, delivered: set<(AdaptorId, JobId)>)

  datatype Step =
    | MemoryWrite(adaptor: AdaptorId, key: string, decision: PolicyDecision, ttl: nat)
    | RedisWrite(key: string, decision: PolicyDecision, ttl: nat)
    | RedisDrop(keys: set<string>)
    | OtherEvent(adaptor: AdaptorId, event: Event)
    | Tick(elapsed: nat)
    | Begin(job: JobId, scope: string)
    | DeleteDomainKey(job: JobId)
    | DeleteSubdomainKey(job: JobId)
    | StartScan(job: JobId)
    | ScanAnswer(job: JobId, keys: set<string>, last: bool)
    | DeleteBatch(job: JobId)
    | Publish(job: JobId)
    | Deliver(adaptor: AdaptorId, job: JobId)

  function MemoryOf(s: State, adaptor: AdaptorId): Memory {
    DecisionCache.MemoryOf(s.memories, adaptor)
  }

  predicate Live(s: State, key: string) {
    key in s.redis && RedisLive(s.redis[key], s.now, s.lingers)
  }

  function Get(s: State, adaptor: AdaptorId, key: string): Option<PolicyDecision> {
    TwoLevelGet(MemoryOf(s, adaptor), s.redis, key, s.now, s.lingers)
  }

  /** A scan owes nothing about a key once it has left Redis, even if the key comes back. */
  function Unowed(job: Job, keys: set<string>): Job {
    match job.phase
    case Scanning(owed) => job.(phase := Scanning(owed - keys))
    case Holding(batch, owed, last) => job.(phase := Holding(batch, owed - keys, last))
    case _ => job
  }

  function Removed(s: State, keys: set<string>): State {
    s.(redis := s.redis - keys, jobs := map j | j in s.jobs :: Unowed(s.jobs[j], keys))
  }

  function InPhase(s: State, job: JobId, phase: Phase): State
    requires job in s.jobs
  {
    s.(jobs := s.jobs[job := s.jobs[job].(phase := phase)])
  }

  predicate Enabled(s: State, step: Step) {
    match step
    case Begin(job, scope) => job !in s.jobs
    case DeleteDomainKey(job) => job in s.jobs && s.jobs[job].phase.AtDomainKey?
    case DeleteSubdomainKey(job) => job in s.jobs && s.jobs[job].phase.AtSubdomainKey?
    case StartScan(job) => job in s.jobs && s.jobs[job].phase.AtScan?
    case ScanAnswer(job, keys, last) =>
      && job in s.jobs && s.jobs[job].phase.Scanning?
      && (forall key :: key in keys ==> Glob(ScopeGlob(s.jobs[job].scope), key))
      && (last ==> forall key :: key in s.jobs[job].phase.owed && Live(s, key) ==> key in keys)
    case DeleteBatch(job) => job in s.jobs && s.jobs[job].phase.Holding?
    case Publish(job) => job in s.jobs && s.jobs[job].phase.AtPublish?
    case Deliver(_, job) => job in s.jobs && s.jobs[job].phase.Published?
    case _ => true
  }

  function Next(s: State, step: Step): State
    requires Enabled(s, step)
  {
    match step
    case MemoryWrite(adaptor, key, decision, ttl) =>
      s.(memories := s.memories[adaptor := MemorySet(MemoryOf(s, adaptor), key, decision, ttl, s.now)])
    case RedisWrite(key, decision, ttl) => s.(redis := RedisSet(s.redis, key, decision, ttl, s.now))
    case RedisDrop(keys) => Removed(s, keys)
    case OtherEvent(adaptor, event) => s.(memories := s.memories[adaptor := AfterEvent(MemoryOf(s, adaptor), event)])
    case Tick(elapsed) => s.(now := s.now + elapsed)
    case Begin(job, scope) => s.(jobs := s.jobs[job := Job(scope, AtDomainKey)])
    case DeleteDomainKey(job) => InPhase(Removed(s, {DOMAIN + ScopeDomain(s.jobs[job].scope)}), job, AtSubdomainKey)
    case DeleteSubdomainKey(job) => InPhase(Removed(s, {SUBDOMAIN + ScopeDomain(s.jobs[job].scope)}), job, AtScan)
    case StartScan(job) =>
      InPhase(s, job, Scanning(set key | key in s.redis && Live(s, key) && Glob(ScopeGlob(s.jobs[job].scope), key)))
    case ScanAnswer(job, keys, last) =>
      InPhase(s, job, Holding(keys, s.jobs[job].phase.owed - keys, last))
    case DeleteBatch(job) =>
      var phase := s.jobs[job].phase;
      InPhase(Removed(s, phase.batch), job, if phase.last then AtPublish else Scanning(phase.owed - phase.batch))
    case Publish(job) => InPhase(s, job, Published)
    case Deliver(adaptor, job) =>
      s.(memories := s.memories[adaptor := AfterEvent(MemoryOf(s, adaptor), Override("domain", s.jobs[job].scope))],
         delivered := s.delivered + {(adaptor, job)})
  }

  /** Whether a run can take these steps one after the other. */
  predicate Executable(s: State, steps: seq<Step>)
    decreases |steps|, 0
  {
    steps != [] ==>
      && Executable(s, steps[..|steps| - 1])
      && Enabled(After(s, steps[..|steps| - 1]), steps[|steps| - 1])
  }

  function After(s: State, steps: seq<Step>): State
    requires Executable(s, steps)
    decreases |steps|, 1
  {
    if steps == [] then s else Next(After(s, steps[..|steps| - 1]), steps[|steps| - 1])
  }

  /** A write of a key of the scope, to Redis or to this adaptor's memory. */
  predicate Writes(step: Step, adaptor: AdaptorId, scope: string) {
    match step
    case MemoryWrite(a, key, _, _) => a == adaptor && MemoryRemoves(scope, key)
    case RedisWrite(key, _, _) => MemoryRemoves(scope, key)
    case _ => false
  }

  // ---------- the invariant of one job, seen from one adaptor ----------

  predicate ScopeGlobGone(s: State, scope: string, except: set<string>) {
    forall key :: key in s.redis && Glob(ScopeGlob(scope), key) && Live(s, key) ==> key in except
  }

  predicate DomainGone(s: State, scope: string) {
    !Live(s, DOMAIN + ScopeDomain(scope))
  }

  predicate SubdomainGone(s: State, scope: string) {
    !Live(s, SUBDOMAIN + ScopeDomain(scope))
  }

  predicate PhaseHolds(s: State, scope: string, phase: Phase) {
    match phase
    case AtDomainKey => true
    case AtSubdomainKey => DomainGone(s, scope)
    case AtScan => DomainGone(s, scope) && SubdomainGone(s, scope)
    case Scanning(owed) => DomainGone(s, scope) && SubdomainGone(s, scope) && ScopeGlobGone(s, scope, owed)
    case Holding(batch, owed, last) =>
      && DomainGone(s, scope) && SubdomainGone(s, scope)
      && ScopeGlobGone(s, scope, if last then batch else owed + batch)
    case AtPublish => DomainGone(s, scope) && SubdomainGone(s, scope) && ScopeGlobGone(s, scope, {})
    case Published => DomainGone(s, scope) && SubdomainGone(s, scope) && ScopeGlobGone(s, scope, {})
  }

  predicate MemoryClean(s: State, adaptor: AdaptorId, scope: string) {
    forall key :: key in MemoryOf(s, adaptor) ==> !MemoryRemoves(scope, key)
  }

  predicate JobInvariant(s: State, job: JobId, adaptor: AdaptorId, scope: string) {
    && job in s.jobs
    && s.jobs[job].scope == scope
    && PhaseHolds(s, scope, s.jobs[job].phase)
    && ((adaptor, job) in s.delivered ==> s.jobs[job].phase.Published? && MemoryClean(s, adaptor, scope))
  }

  /** Nothing that is live afterwards was not live before. */
  ghost predicate LiveShrinks(s: State, s': State) {
    forall key :: Live(s', key) ==> Live(s, key)
  }

  lemma PhaseHoldsUnderRemoval(s: State, keys: set<string>, scope: string, job: Job)
    requires PhaseHolds(s, scope, job.phase)
    ensures PhaseHolds(Removed(s, keys), scope, Unowed(job, keys).phase)
    ensures LiveShrinks(s, Removed(s, keys))
    ensures forall key :: Live(Removed(s, keys), key) ==> key !in keys
  {
    var s' := Removed(s, keys);
    assert forall key :: Live(s', key) ==> Live(s, key) && key !in keys;
  }

  /** A step of this very job moves it to a phase whose clause then holds. */
  lemma OwnStepKeepsPhase(s: State, step: Step, job: JobId, scope: string)
    requires Enabled(s, step) && job in s.jobs && s.jobs[job].scope == scope
    requires PhaseHolds(s, scope, s.jobs[job].phase)
    requires step.DeleteDomainKey? || step.DeleteSubdomainKey? || step.StartScan? || step.ScanAnswer?
             || step.DeleteBatch? || step.Publish?
    requires step.job == job
    ensures PhaseHolds(Next(s, step), scope, Next(s, step).jobs[job].phase)
  {
    var s' := Next(s, step);
    match step
    case DeleteDomainKey(_) =>
      PhaseHoldsUnderRemoval(s, {DOMAIN + ScopeDomain(scope)}, scope, s.jobs[job]);
      assert forall key :: Live(s', key) ==> Live(Removed(s, {DOMAIN + ScopeDomain(scope)}), key);
    case DeleteSubdomainKey(_) =>
      PhaseHoldsUnderRemoval(s, {SUBDOMAIN + ScopeDomain(scope)}, scope, s.jobs[job]);
      assert forall key :: Live(s', key) ==> Live(Removed(s, {SUBDOMAIN + ScopeDomain(scope)}), key);
    case DeleteBatch(_) =>
      PhaseHoldsUnderRemoval(s, s.jobs[job].phase.batch, scope, s.jobs[job]);
      assert forall key :: Live(s', key) ==> Live(Removed(s, s.jobs[job].phase.batch), key);
    case StartScan(_) =>
      assert forall key :: Live(s', key) ==> Live(s, key);
    case ScanAnswer(_, _, _) =>
      assert forall key :: Live(s', key) ==> Live(s, key);
    case Publish(_) =>
      assert forall key :: Live(s', key) ==> Live(s, key);
  }

  /** Any other step leaves the job in its phase, or only unburdens its scan. */
  lemma OtherStepKeepsPhase(s: State, step: Step, job: JobId, scope: string, adaptor: AdaptorId)
    requires Enabled(s, step) && job in s.jobs && s.jobs[job].scope == scope && IsLiteral(ScopeDomain(scope))
    requires PhaseHolds(s, scope, s.jobs[job].phase)
    requires !Writes(step, adaptor, scope)
    requires (step.DeleteDomainKey? || step.DeleteSubdomainKey? || step.StartScan? || step.ScanAnswer?
              || step.DeleteBatch? || step.Publish?) ==> step.job != job
    ensures var s' := Next(s, step);
            job in s'.jobs && s'.jobs[job].scope == scope && PhaseHolds(s', scope, s'.jobs[job].phase)
            && (s.jobs[job].phase.Published? ==> s'.jobs[job].phase.Published?)
  {
    var s' := Next(s, step);
    match step
    case RedisDrop(keys) =>
      PhaseHoldsUnderRemoval(s, keys, scope, s.jobs[job]);
    case DeleteDomainKey(j) =>
      var keys := {DOMAIN + ScopeDomain(s.jobs[j].scope)};
      PhaseHoldsUnderRemoval(s, keys, scope, s.jobs[job]);
      SameRedis(Removed(s, keys), s', scope, Unowed(s.jobs[job], keys).phase);
    case DeleteSubdomainKey(j) =>
      var keys := {SUBDOMAIN + ScopeDomain(s.jobs[j].scope)};
      PhaseHoldsUnderRemoval(s, keys, scope, s.jobs[job]);
      SameRedis(Removed(s, keys), s', scope, Unowed(s.jobs[job], keys).phase);
    case DeleteBatch(j) =>
      var keys := s.jobs[j].phase.batch;
      PhaseHoldsUnderRemoval(s, keys, scope, s.jobs[job]);
      SameRedis(Removed(s, keys), s', scope, Unowed(s.jobs[job], keys).phase);
    case RedisWrite(key, _, _) =>
      LiteralScopesAgree(scope, key, IsWildcard(scope));
      assert forall k :: Live(s', k) && k != key ==> Live(s, k);
    case _ =>
      assert forall key :: Live(s', key) ==> Live(s, key);
  }

  lemma SameRedis(s: State, s': State, scope: string, phase: Phase)
    requires s.redis == s'.redis && s.now == s'.now && s.lingers == s'.lingers
    requires PhaseHolds(s, scope, phase)
    ensures PhaseHolds(s', scope, phase)
  {
    assert forall key :: Live(s', key) <==> Live(s, key);
  }

  /** Once delivered, the adaptor's memory holds no key of the scope until one is written again. */
  lemma StepKeepsMemory(s: State, step: Step, job: JobId, adaptor: AdaptorId, scope: string)
    requires Enabled(s, step) && JobInvariant(s, job, adaptor, scope)
    requires !Writes(step, adaptor, scope)
    ensures (adaptor, job) in Next(s, step).delivered ==>
              s.jobs[job].phase.Published? && MemoryClean(Next(s, step), adaptor, scope)
  {
    var s' := Next(s, step);
    if (adaptor, job) in s'.delivered && step != Deliver(adaptor, job) {
      assert (adaptor, job) in s.delivered;
    }
  }

  lemma StepKeepsInvariant(s: State, step: Step, job: JobId, adaptor: AdaptorId, scope: string)
    requires Enabled(s, step) && JobInvariant(s, job, adaptor, scope) && IsLiteral(ScopeDomain(scope))
    requires !Writes(step, adaptor, scope)
    ensures JobInvariant(Next(s, step), job, adaptor, scope)
  {
    StepKeepsMemory(s, step, job, adaptor, scope);
    if (step.DeleteDomainKey? || step.DeleteSubdomainKey? || step.StartScan? || step.ScanAnswer?
        || step.DeleteBatch? || step.Publish?) && step.job == job {
      OwnStepKeepsPhase(s, step, job, scope);
    } else {
      OtherStepKeepsPhase(s, step, job, scope, adaptor);
    }
  }

  lemma {:induction false} RunKeepsInvariant(s: State, steps: seq<Step>, b: nat, job: JobId, adaptor: AdaptorId,
                                             scope: string)
    requires Executable(s, steps) && b < |steps|
    requires steps[b] == Begin(job, scope) && IsLiteral(ScopeDomain(scope))
    requires forall i :: b < i < |steps| ==> !Writes(steps[i], adaptor, scope)
    requires forall a, j :: (a, j) in s.delivered ==> j in s.jobs
    ensures JobInvariant(After(s, steps), job, adaptor, scope)
    decreases |steps|
  {
    var before := steps[..|steps| - 1];
    if b == |steps| - 1 {
      DeliveredAreJobs(s, before);
    } else {
      RunKeepsInvariant(s, before, b, job, adaptor, scope);
      StepKeepsInvariant(After(s, before), steps[|steps| - 1], job, adaptor, scope);
    }
  }

  lemma {:induction false} DeliveredAreJobs(s: State, steps: seq<Step>)
    requires Executable(s, steps)
    requires forall a, j :: (a, j) in s.delivered ==> j in s.jobs
    ensures forall a, j :: (a, j) in After(s, steps).delivered ==> j in After(s, steps).jobs
  {
    if steps != [] {
      DeliveredAreJobs(s, steps[..|steps| - 1]);
      DeliveredStep(After(s, steps[..|steps| - 1]), steps[|steps| - 1]);
    }
  }

  lemma DeliveredStep(s: State, step: Step)
    requires Enabled(s, step) && forall a, j :: (a, j) in s.delivered ==> j in s.jobs
    ensures forall a, j :: (a, j) in Next(s, step).delivered ==> j in Next(s, step).jobs
  {
    assert s.jobs.Keys <= Next(s, step).jobs.Keys;
  }

  lemma {:induction false} DeliveryIsRemembered(s: State, steps: seq<Step>, d: nat)
    requires Executable(s, steps) && d < |steps| && steps[d].Deliver?
    ensures (steps[d].adaptor, steps[d].job) in After(s, steps).delivered
    decreases |steps|
  {
    if d < |steps| - 1 {
      DeliveryIsRemembered(s, steps[..|steps| - 1], d);
    }
  }

  /** In every interleaving: once the event of a domain override has been delivered to an adaptor,
      and since its Redis deletion began no key of the scope has been written to Redis or to that
      adaptor's memory, the adaptor's `get` misses on every key of the scope. */
  lemma DeliveredScopeMisses(s: State, steps: seq<Step>, b: nat, d: nat, key: string)
    requires Executable(s, steps) && b < |steps| && d < |steps|
    requires steps[b].Begin? && IsLiteral(ScopeDomain(steps[b].scope))
    requires steps[d].Deliver? && steps[d].job == steps[b].job
    requires forall i :: b < i < |steps| ==> !Writes(steps[i], steps[d].adaptor, steps[b].scope)
    requires forall a, j :: (a, j) in s.delivered ==> j in s.jobs
    requires MemoryRemoves(steps[b].scope, key)
    ensures Get(After(s, steps), steps[d].adaptor, key) == None
  {
    var job, adaptor, scope := steps[b].job, steps[d].adaptor, steps[b].scope;
    RunKeepsInvariant(s, steps, b, job, adaptor, scope);
    DeliveryIsRemembered(s, steps, d);
    LiteralScopesAgree(scope, key, IsWildcard(scope));
    var end := After(s, steps);
    assert RedisRemoves(scope, key);
    assert !Live(end, key);
  }

  /** The other half of the hypothesis is needed: an adaptor that had decided before the override
      and writes Redis after the deletion makes every adaptor hit again. */
  lemma LateRedisWriteHits(s: State, job: JobId, key: string, decision: PolicyDecision)
    requires job in s.jobs && s.jobs[job].phase.Published?
    requires MemoryRemoves(s.jobs[job].scope, key)
    ensures var steps := [Deliver(0, job), RedisWrite(key, decision, 60000)];
            Executable(s, steps) && Get(After(s, steps), 0, key) == Some(decision)
  {
    var steps := [Deliver(0, job), RedisWrite(key, decision, 60000)];
    assert steps[..1] == [Deliver(0, job)] && [Deliver(0, job)][..0] == [];
    assert Executable(s, []) && After(s, []) == s;
    assert Executable(s, steps[..1]);
    var mid := After(s, steps[..1]);
    assert mid == Next(s, Deliver(0, job));
    assert key !in MemoryOf(mid, 0);
  }

  // ---------- nothing else is lost ----------

  /** A job holds only keys of its scope; what its scan still owes is in Redis, matches, and is not held. */
  predicate JobFits(s: State, job: Job) {
    match job.phase
    case Scanning(owed) => owed <= s.redis.Keys && AllMatch(job.scope, owed)
    case Holding(batch, owed, _) =>
      owed <= s.redis.Keys && AllMatch(job.scope, owed) && AllMatch(job.scope, batch) && batch !! owed
    case _ => true
  }

  predicate AllMatch(scope: string, keys: set<string>) {
    forall key :: key in keys ==> Glob(ScopeGlob(scope), key)
  }

  predicate JobsFit(s: State) {
    forall job :: job in s.jobs ==> JobFits(s, s.jobs[job])
  }

  lemma RemovedFits(s: State, keys: set<string>)
    requires JobsFit(s)
    ensures JobsFit(Removed(s, keys))
  {
    var s' := Removed(s, keys);
    forall job | job in s'.jobs ensures JobFits(s', s'.jobs[job]) {
      assert JobFits(s, s.jobs[job]);
    }
  }

  lemma InPhaseFits(s: State, job: JobId, phase: Phase)
    requires JobsFit(s) && job in s.jobs && JobFits(s, s.jobs[job].(phase := phase))
    ensures JobsFit(InPhase(s, job, phase))
  {
    var s' := InPhase(s, job, phase);
    forall other | other in s'.jobs ensures JobFits(s', s'.jobs[other]) {
      assert other != job ==> JobFits(s, s.jobs[other]);
    }
  }

  lemma BatchFits(s: State, job: JobId)
    requires JobsFit(s) && job in s.jobs && s.jobs[job].phase.Holding?
    ensures JobsFit(Next(s, DeleteBatch(job)))
  {
    var phase := s.jobs[job].phase;
    assert JobFits(s, s.jobs[job]);
    RemovedFits(s, phase.batch);
    InPhaseFits(Removed(s, phase.batch), job, if phase.last then AtPublish else Scanning(phase.owed - phase.batch));
  }

  lemma StepKeepsJobsFit(s: State, step: Step)
    requires Enabled(s, step) && JobsFit(s)
    ensures JobsFit(Next(s, step))
  {
    match step
    case RedisDrop(keys) => RemovedFits(s, keys);
    case DeleteDomainKey(job) =>
      var keys := {DOMAIN + ScopeDomain(s.jobs[job].scope)};
      RemovedFits(s, keys);
      InPhaseFits(Removed(s, keys), job, AtSubdomainKey);
    case DeleteSubdomainKey(job) =>
      var keys := {SUBDOMAIN + ScopeDomain(s.jobs[job].scope)};
      RemovedFits(s, keys);
      InPhaseFits(Removed(s, keys), job, AtScan);
    case StartScan(job) => InPhaseFits(s, job, Next(s, step).jobs[job].phase);
    case ScanAnswer(job, _, _) =>
      assert JobFits(s, s.jobs[job]);
      InPhaseFits(s, job, Next(s, step).jobs[job].phase);
    case DeleteBatch(job) => BatchFits(s, job);
    case Publish(job) => InPhaseFits(s, job, Published);
    case _ => OtherStepFits(s, step);
  }

  lemma OtherStepFits(s: State, step: Step)
    requires Enabled(s, step) && JobsFit(s)
    requires step.MemoryWrite? || step.RedisWrite? || step.OtherEvent? || step.Tick? || step.Begin? || step.Deliver?
    ensures JobsFit(Next(s, step))
  {
    var s' := Next(s, step);
    forall job | job in s'.jobs ensures JobFits(s', s'.jobs[job]) {
      assert job in s.jobs ==> JobFits(s, s.jobs[job]);
    }
  }

  /** No job of this state removes the key. */
  predicate NoJobRemoves(s: State, key: string) {
    forall job :: job in s.jobs ==> !RedisRemoves(s.jobs[job].scope, key) && !MemoryRemoves(s.jobs[job].scope, key)
  }

  /** The step is about this key in Redis or in this adaptor's memory: a write, a drop, an event of another kind, or
      the beginning of a job whose scope covers it. */
  predicate Concerns(step: Step, adaptor: AdaptorId, key: string) {
    match step
    case MemoryWrite(a, k, _, _) => a == adaptor && k == key
    case RedisWrite(k, _, _) => k == key
    case RedisDrop(keys) => key in keys
    case OtherEvent(a, _) => a == adaptor
    case Begin(_, scope) => RedisRemoves(scope, key) || MemoryRemoves(scope, key)
    case _ => false
  }

  predicate SameEntries(s: State, s': State, adaptor: AdaptorId, key: string) {
    && (key in s.redis <==> key in s'.redis) && (key in s.redis ==> s'.redis[key] == s.redis[key])
    && (key in MemoryOf(s, adaptor) <==> key in MemoryOf(s', adaptor))
    && (key in MemoryOf(s, adaptor) ==> MemoryOf(s', adaptor)[key] == MemoryOf(s, adaptor)[key])
  }

  lemma JobsAfter(s: State, step: Step, job: JobId)
    requires Enabled(s, step) && job in Next(s, step).jobs
    ensures var scope := Next(s, step).jobs[job].scope;
            if job in s.jobs then scope == s.jobs[job].scope else step == Begin(job, scope)
  {
  }

  lemma ScopesStay(s: State, step: Step, adaptor: AdaptorId, key: string)
    requires Enabled(s, step) && NoJobRemoves(s, key) && !Concerns(step, adaptor, key)
    ensures NoJobRemoves(Next(s, step), key)
  {
    var s' := Next(s, step);
    forall job | job in s'.jobs
      ensures !RedisRemoves(s'.jobs[job].scope, key) && !MemoryRemoves(s'.jobs[job].scope, key)
    {
      JobsAfter(s, step, job);
    }
  }

  lemma StepSpares(s: State, step: Step, adaptor: AdaptorId, key: string)
    requires Enabled(s, step) && JobsFit(s) && NoJobRemoves(s, key) && !Concerns(step, adaptor, key)
    ensures SameEntries(s, Next(s, step), adaptor, key)
  {
    if step.DeleteBatch? {
      assert JobFits(s, s.jobs[step.job]);
      assert key !in s.jobs[step.job].phase.batch;
    }
  }

  /** In every interleaving of any number of jobs: a key that none of their scopes covers keeps its entry in Redis and
      in each adaptor's memory, as long as no step is about it. So the adaptor goes on answering with it. */
  lemma {:induction false} InvalidationIsSelective(s: State, steps: seq<Step>, adaptor: AdaptorId, key: string)
    requires Executable(s, steps) && JobsFit(s) && NoJobRemoves(s, key)
    requires forall i :: 0 <= i < |steps| ==> !Concerns(steps[i], adaptor, key)
    ensures JobsFit(After(s, steps)) && NoJobRemoves(After(s, steps), key)
    ensures SameEntries(s, After(s, steps), adaptor, key)
    decreases |steps|
  {
    if steps != [] {
      var before := steps[..|steps| - 1];
      InvalidationIsSelective(s, before, adaptor, key);
      StepKeepsJobsFit(After(s, before), steps[|steps| - 1]);
      ScopesStay(After(s, before), steps[|steps| - 1], adaptor, key);
      StepSpares(After(s, before), steps[|steps| - 1], adaptor, key);
    }
  }

  // ---------- a job can always be finished ----------

  /** How many steps of its own a job needs at most. */
  function StepsLeft(phase: Phase): nat {
    match phase
    case AtDomainKey => 7
    case AtSubdomainKey => 6
    case AtScan => 5
    case Holding(_, _, last) => if last then 2 else 4
    case Scanning(_) => 3
    case AtPublish => 1
    case Published => 0
  }

  function NextOf(job: JobId, phase: Phase): Step {
    match phase
    case AtDomainKey => DeleteDomainKey(job)
    case AtSubdomainKey => DeleteSubdomainKey(job)
    case AtScan => StartScan(job)
    case Scanning(owed) => ScanAnswer(job, owed, true)
    case Holding(_, _, _) => DeleteBatch(job)
    case _ => Publish(job)
  }

  lemma JobAdvances(s: State, job: JobId)
    requires JobsFit(s) && job in s.jobs && !s.jobs[job].phase.Published?
    ensures var step := NextOf(job, s.jobs[job].phase);
            && Enabled(s, step) && job in Next(s, step).jobs
            && StepsLeft(Next(s, step).jobs[job].phase) < StepsLeft(s.jobs[job].phase)
  {
    assert JobFits(s, s.jobs[job]);
  }

  lemma {:induction false} ExecutableAppend(s: State, first: Step, rest: seq<Step>)
    requires Enabled(s, first) && Executable(Next(s, first), rest)
    ensures Executable(s, [first] + rest) && After(s, [first] + rest) == After(Next(s, first), rest)
    decreases |rest|
  {
    var all := [first] + rest;
    if rest == [] {
      assert all[..0] == [] && Executable(s, []);
    } else {
      assert all[..|all| - 1] == [first] + rest[..|rest| - 1];
      ExecutableAppend(s, first, rest[..|rest| - 1]);
    }
  }

  /** From every state in which the jobs fit, such as every state reached from one without jobs, a job can be brought
      to its end by at most seven steps of its own, whatever the other jobs have done. */
  lemma {:induction false} JobCanFinish(s: State, job: JobId) returns (steps: seq<Step>)
    requires JobsFit(s) && job in s.jobs
    ensures |steps| <= StepsLeft(s.jobs[job].phase) <= 7 && Executable(s, steps)
    ensures job in After(s, steps).jobs && After(s, steps).jobs[job].phase.Published?
    decreases StepsLeft(s.jobs[job].phase)
  {
    if s.jobs[job].phase.Published? {
      steps := [];
    } else {
      var step := NextOf(job, s.jobs[job].phase);
      JobAdvances(s, job);
      StepKeepsJobsFit(s, step);
      var rest := JobCanFinish(Next(s, step), job);
      ExecutableAppend(s, step, rest);
      steps := [step] + rest;
    }
  }
}
