/** The event ingester's enrichment of proxy log events before they are indexed. */
module EventEnrichment {
  import opened Text
  import opened JsonPaths
  import opened AccessLogLine

  /** What the ingester calls but this model does not look into, and whether proxy headers are trusted at all. */
  datatype Env = Env(
    trustHeaders: bool,
    address: string -> Option<string>,            // `str::parse::<IpAddr>`, printed again
    trustedProxy: string -> bool,                 // the peer is in a trusted network
    forwardedAddress: string -> Option<string>,   // first valid address of a Forwarded header
    forwardedForAddress: string -> Option<string>,// first valid address of an X-Forwarded-For header
    integer: string -> Option<int>,               // `str::parse::<i64>`
    target: (string, Option<string>) -> Option<(string, string)>, // domain and URL of a request target
    normalizedKey: string -> Option<string>,      // key of a domain, if it normalizes
    day: string -> Option<string>)                // UTC day of an RFC 3339 timestamp

  // ---------- what is derived from a line ----------

  /** The derived fields, in the order in which they are assigned. */
  const PATHS: seq<Path> := [
    ["source", "ip"],
    ["od", "forwarded_raw"],
    ["od", "forwarded_for_raw"],
    ["client", "ip"],
    ["od", "client_ip_source"],
    ["proxy", "result_code"],
    ["http", "response", "status_code"],
    ["recommended_action_inferred"],
    ["traffic_class"],
    ["network", "bytes"],
    ["http", "request", "method"],
    ["destination", "domain"],
    ["url", "full"],
    ["normalized_key"]
  ]

  // Their places in that order.
  const SOURCE_IP: nat := 0
  const FORWARDED_RAW: nat := 1
  const FORWARDED_FOR_RAW: nat := 2
  const CLIENT_IP: nat := 3
  const CLIENT_IP_SOURCE: nat := 4
  const RESULT_CODE: nat := 5
  const STATUS_CODE: nat := 6
  const INFERRED_ACTION: nat := 7
  const TRAFFIC_CLASS: nat := 8
  const BYTES: nat := 9
  const METHOD: nat := 10
  const DOMAIN: nat := 11
  const URL: nat := 12
  const NORMALIZED_KEY: nat := 13

  function AsText(value: Option<string>): Option<Json> {
    if value.None? then None else Some(Str(value.value))
  }

  function Peer(line: Line, env: Env): Option<string> {
    if line.Word(2).None? then None else env.address(line.Word(2).value)
  }

  /** The address the request came from, and where it was found. A header counts only behind a trusted
      proxy, and the Forwarded header counts before X-Forwarded-For. */
  function Client(line: Line, env: Env, peer: string): (string, string) {
    var forwarded := if line.forwarded.Some? then env.forwardedAddress(line.forwarded.value) else None;
    var forwardedFor := if line.forwardedFor.Some? then env.forwardedForAddress(line.forwardedFor.value) else None;
    if !(env.trustHeaders && env.trustedProxy(peer)) then (peer, "peer")
    else if forwarded.Some? then (forwarded.value, "forwarded")
    else if forwardedFor.Some? then (forwardedFor.value, "x-forwarded-for")
    else (peer, "peer")
  }

  /** `split_once('/')` */
  function SplitSlash(token: string): Option<(string, string)> {
    if token == [] then None
    else if token[0] == '/' then Some(([], token[1..]))
    else match SplitSlash(token[1..])
         case None => None
         case Some(parts) => Some(([token[0]] + parts.0, parts.1))
  }

  lemma {:induction false} SplitSlashOf(result: string, status: string)
    requires '/' !in result
    ensures SplitSlash(result + "/" + status) == Some((result, status))
  {
    var token := result + "/" + status;
    if result == [] {
      assert token[1..] == status;
    } else {
      assert token[0] == result[0] && result[0] in result;
      assert token[1..] == result[1..] + "/" + status;
      assert [result[0]] + result[1..] == result;
      SplitSlashOf(result[1..], status);
    }
  }

  function Status(line: Line): Option<(string, string)> {
    if line.Word(3).None? then None else SplitSlash(line.Word(3).value)
  }

  function Code(line: Line, env: Env): Option<int> {
    if Status(line).None? then None else env.integer(Status(line).value.1)
  }

  predicate Blocks(code: int) {
    code == 403 || code == 407 || code == 451
  }

  function Bytes(line: Line, env: Env): Option<int> {
    if line.Word(4).None? then None
    else
      var n := env.integer(line.Word(4).value);
      if n.Some? && n.value >= 0 then n else None
  }

  function Target(line: Line, env: Env): Option<(string, string)> {
    if line.Word(6).None? then None else env.target(line.Word(6).value, line.Word(5))
  }

  /** The value of each derived field, where the line gives one. */
  function Values(line: Line, env: Env): (values: seq<Option<Json>>)
    ensures |values| == |PATHS|
  {
    var peer := Peer(line, env);
    var code := Code(line, env);
    var target := Target(line, env);
    [
      AsText(line.Word(2)),
      if peer.Some? then AsText(line.forwarded) else None,
      if peer.Some? && line.forwardedFor != Some([]) then AsText(line.forwardedFor) else None,
      if peer.Some? then Some(Str(Client(line, env, peer.value).0)) else None,
      if line.Word(2).None? then None
      else Some(Str(if peer.Some? then Client(line, env, peer.value).1 else "unknown")),
      if Status(line).Some? then Some(Str(Status(line).value.0)) else None,
      if code.Some? then Some(Num(code.value as real)) else None,
      if code.Some? then Some(Str(if Blocks(code.value) then "block" else "allow")) else None,
      if code.Some? then Some(Str(if Blocks(code.value) then "blocked" else "allowed")) else None,
      if Bytes(line, env).Some? then Some(Num(Bytes(line, env).value as real)) else None,
      AsText(line.Word(5)),
      if target.Some? then Some(Str(target.value.0)) else None,
      if target.Some? then Some(Str(target.value.1)) else None,
      if target.Some? then AsText(env.normalizedKey(target.value.0)) else None
    ]
  }

  lemma ValueIsScalar(line: Line, env: Env, i: nat)
    requires i < |PATHS| && Values(line, env)[i].Some?
    ensures IsScalar(Values(line, env)[i].value)
  {
    if i < RESULT_CODE {
    } else if i < BYTES {
    } else {
    }
  }

  lemma ValuesAreScalars(line: Line, env: Env)
    ensures Scalars(Values(line, env))
  {
    forall i | 0 <= i < |PATHS| && Values(line, env)[i].Some? ensures IsScalar(Values(line, env)[i].value) {
      ValueIsScalar(line, env, i);
    }
  }

  function Message(m: Object): string {
    if "message" in m && m["message"].Str? then Trim(m["message"].text) else []
  }

  function Enriched(m: Object, env: Env): Object {
    if Message(m) == [] then m
    else Assigned(m, PATHS, Values(Read(Message(m)), env), |PATHS|)
  }

  // ---------- the enrichment in place ----------

  /** The event after each number of fields. */
  ghost function States(m: Object, values: seq<Option<Json>>): nat -> Object
    requires |values| == |PATHS|
  {
    (k: nat) => if k <= |PATHS| then Assigned(m, PATHS, values, k) else m
  }

  predicate FollowsAt(states: nat -> Object, values: seq<Option<Json>>, k: nat)
    requires k < |PATHS| == |values|
  {
    states(k + 1) == if values[k].None? then states(k) else Ensure(states(k), PATHS[k], values[k].value)
  }

  /** Each state is the one before it with one more value assigned, where there is one. */
  ghost predicate Follows(states: nat -> Object, values: seq<Option<Json>>) {
    |values| == |PATHS| && forall k: nat :: k < |PATHS| ==> FollowsAt(states, values, k)
  }

  lemma StatesFollow(m: Object, values: seq<Option<Json>>)
    requires |values| == |PATHS|
    ensures Follows(States(m, values), values)
  {
    forall k: nat | k < |PATHS| ensures FollowsAt(States(m, values), values, k) {
    }
  }

  /** Fields without a value are passed over. */
  lemma {:induction false} Skipped(states: nat -> Object, values: seq<Option<Json>>, lo: nat, hi: nat)
    requires Follows(states, values) && lo <= hi <= |PATHS| && forall k :: lo <= k < hi ==> values[k].None?
    ensures states(hi) == states(lo)
    decreases hi
  {
    if lo < hi {
      Skipped(states, values, lo, hi - 1);
      assert FollowsAt(states, values, hi - 1);
    }
  }

  class Event {
    var fields: Object

    constructor (fields: Object)
      ensures this.fields == fields
    {
      this.fields := fields;
    }

    method EnsurePath(path: Path, value: Json)
      modifies this
      ensures fields == Ensure(old(fields), path, value)
    {
      fields := Ensure(fields, path, value);
    }

    /** Assign the value of field `k`, the fields before it being done. */
    method Put(ghost states: nat -> Object, ghost values: seq<Option<Json>>, k: nat, value: Json)
      requires Follows(states, values) && k < |PATHS| && values[k] == Some(value) && fields == states(k)
      modifies this
      ensures fields == states(k + 1)
    {
      assert FollowsAt(states, values, k);
      EnsurePath(PATHS[k], value);
    }

    method EnrichAddresses(line: Line, env: Env, ghost states: nat -> Object, ghost values: seq<Option<Json>>)
      requires Follows(states, values) && values == Values(line, env) && fields == states(SOURCE_IP)
      modifies this
      ensures fields == states(RESULT_CODE)
    {
      if line.Word(2).Some? {
        var ip := line.Word(2).value;
        Put(states, values, SOURCE_IP, Str(ip));
        if env.address(ip).Some? {
          EnrichClient(line, env, env.address(ip).value, states, values);
        } else {
          Skipped(states, values, FORWARDED_RAW, CLIENT_IP_SOURCE);
          Put(states, values, CLIENT_IP_SOURCE, Str("unknown"));
        }
      } else {
        Skipped(states, values, SOURCE_IP, RESULT_CODE);
      }
    }

    method EnrichClient(line: Line, env: Env, peer: string, ghost states: nat -> Object,
                        ghost values: seq<Option<Json>>)
      requires Follows(states, values) && values == Values(line, env) && fields == states(FORWARDED_RAW)
      requires Peer(line, env) == Some(peer)
      modifies this
      ensures fields == states(RESULT_CODE)
    {
      var clientIp, clientIpSource := peer, "peer";
      if line.forwarded.Some? {
        Put(states, values, FORWARDED_RAW, Str(line.forwarded.value));
      } else {
        Skipped(states, values, FORWARDED_RAW, FORWARDED_FOR_RAW);
      }
      if line.forwardedFor.Some? && line.forwardedFor.value != [] {
        Put(states, values, FORWARDED_FOR_RAW, Str(line.forwardedFor.value));
      } else {
        Skipped(states, values, FORWARDED_FOR_RAW, CLIENT_IP);
      }
      if env.trustHeaders && env.trustedProxy(peer) {
        if line.forwarded.Some? && env.forwardedAddress(line.forwarded.value).Some? {
          clientIp, clientIpSource := env.forwardedAddress(line.forwarded.value).value, "forwarded";
        }
        if clientIpSource == "peer" && line.forwardedFor.Some?
            && env.forwardedForAddress(line.forwardedFor.value).Some? {
          clientIp, clientIpSource := env.forwardedForAddress(line.forwardedFor.value).value, "x-forwarded-for";
        }
      }
      assert (clientIp, clientIpSource) == Client(line, env, peer);
      Put(states, values, CLIENT_IP, Str(clientIp));
      Put(states, values, CLIENT_IP_SOURCE, Str(clientIpSource));
    }

    method EnrichStatus(line: Line, env: Env, ghost states: nat -> Object, ghost values: seq<Option<Json>>)
      requires Follows(states, values) && values == Values(line, env) && fields == states(RESULT_CODE)
      modifies this
      ensures fields == states(BYTES)
    {
      if line.Word(3).Some? && SplitSlash(line.Word(3).value).Some? {
        var (resultCode, statusCode) := SplitSlash(line.Word(3).value).value;
        Put(states, values, RESULT_CODE, Str(resultCode));
        if env.integer(statusCode).Some? {
          var code := env.integer(statusCode).value;
          Put(states, values, STATUS_CODE, Num(code as real));
          var inferred := if Blocks(code) then "block" else "allow";
          Put(states, values, INFERRED_ACTION, Str(inferred));
          Put(states, values, TRAFFIC_CLASS, Str(if inferred == "block" then "blocked" else "allowed"));
        } else {
          Skipped(states, values, STATUS_CODE, BYTES);
        }
      } else {
        Skipped(states, values, RESULT_CODE, BYTES);
      }
    }

    method EnrichRequest(line: Line, env: Env, ghost states: nat -> Object, ghost values: seq<Option<Json>>)
      requires Follows(states, values) && values == Values(line, env) && fields == states(BYTES)
      modifies this
      ensures fields == states(DOMAIN)
    {
      if line.Word(4).Some? && env.integer(line.Word(4).value).Some? && env.integer(line.Word(4).value).value >= 0 {
        Put(states, values, BYTES, Num(env.integer(line.Word(4).value).value as real));
      } else {
        Skipped(states, values, BYTES, METHOD);
      }
      if line.Word(5).Some? {
        Put(states, values, METHOD, Str(line.Word(5).value));
      } else {
        Skipped(states, values, METHOD, DOMAIN);
      }
    }

    method EnrichTarget(line: Line, env: Env, ghost states: nat -> Object, ghost values: seq<Option<Json>>)
      requires Follows(states, values) && values == Values(line, env) && fields == states(DOMAIN)
      modifies this
      ensures fields == states(|PATHS|)
    {
      if line.Word(6).Some? && env.target(line.Word(6).value, line.Word(5)).Some? {
        var (domain, url) := env.target(line.Word(6).value, line.Word(5)).value;
        Put(states, values, DOMAIN, Str(domain));
        Put(states, values, URL, Str(url));
        if env.normalizedKey(domain).Some? {
          Put(states, values, NORMALIZED_KEY, Str(env.normalizedKey(domain).value));
        } else {
          Skipped(states, values, NORMALIZED_KEY, |PATHS|);
        }
      } else {
        Skipped(states, values, DOMAIN, |PATHS|);
      }
    }

    method EnrichSquidEvent(env: Env)
      modifies this
      ensures fields == Enriched(old(fields), env)
    {
      ghost var m := fields;
      var message := Message(fields);
      if message == [] {
        return;
      }
      var quoted := ExtractTrailingQuotedFields(message, 2);
      var (forwarded, forwardedFor) := Headers(quoted);
      var line := Line(Words(message), forwarded, forwardedFor);
      ghost var values := Values(line, env);
      ghost var states := States(m, values);
      StatesFollow(m, values);
      EnrichAddresses(line, env, states, values);
      EnrichStatus(line, env, states, values);
      EnrichRequest(line, env, states, values);
      EnrichTarget(line, env, states, values);
    }
  }

  // ---------- what enrichment promises ----------

  lemma PathsAreApart()
    ensures PairwiseApart(PATHS)
  {
    forall i, j | 0 <= i < |PATHS| && 0 <= j < |PATHS| && i != j ensures Apart(PATHS[i], PATHS[j]) {
      if PATHS[i][0] == PATHS[j][0] {
        assert {i, j} <= {1, 2, 4} || {i, j} == {6, 10};
        assert PATHS[i][1..][0] == PATHS[i][1] && PATHS[j][1..][0] == PATHS[j][1];
      }
    }
  }

  lemma EnrichedExtends(m: Object, env: Env)
    ensures Extends(Obj(m), Obj(Enriched(m, env)))
  {
    if Message(m) == [] {
      ExtendsReflexive(Obj(m));
    } else {
      AssignedExtends(m, PATHS, Values(Read(Message(m)), env), |PATHS|);
    }
  }

  /** Nothing is lost or overwritten: whatever the event held at a path, other than null, it still holds there; a
      scalar or an array is the same, and an object holds all it held. */
  lemma EnrichedKeepsValues(m: Object, env: Env, path: Path)
    requires Lookup(m, path).Some? && !Lookup(m, path).value.Null?
    ensures Lookup(Enriched(m, env), path).Some? && Extends(Lookup(m, path).value, Lookup(Enriched(m, env), path).value)
    ensures !Lookup(m, path).value.Obj? ==> Lookup(Enriched(m, env), path) == Lookup(m, path)
  {
    EnrichedExtends(m, env);
    ExtendsKeepsLookup(m, Enriched(m, env), path);
  }

  /** Each derived field ends up with its derived value exactly where the event left room for it. */
  lemma EnrichedFieldExactly(m: Object, env: Env, k: nat)
    requires k < |PATHS| && Message(m) != []
    ensures var value := Values(Read(Message(m)), env)[k];
            Lookup(Enriched(m, env), PATHS[k]) == if value.Some? && Open(m, PATHS[k]) then value
                else Lookup(m, PATHS[k])
  {
    PathsAreApart();
    AssignedExactly(m, PATHS, Values(Read(Message(m)), env), |PATHS|, k);
  }

  /** Away from the derived fields the event is as it was. */
  lemma EnrichedTouchesNothingElse(m: Object, env: Env, path: Path)
    requires forall k :: 0 <= k < |PATHS| ==> Apart(PATHS[k], path)
    ensures Lookup(Enriched(m, env), path) == Lookup(m, path)
  {
    if Message(m) != [] {
      AssignedTouchesNothingElse(m, PATHS, Values(Read(Message(m)), env), |PATHS|, path);
    }
  }

  lemma MessageIsStable(m: Object, env: Env)
    ensures Message(Enriched(m, env)) == Message(m)
  {
    if Message(m) != [] {
      assert Lookup(m, ["message"]) == Some(m["message"]);
      EnrichedKeepsValues(m, env, ["message"]);
    }
  }

  /** Enriching an event a second time changes nothing. */
  lemma EnrichIdempotent(m: Object, env: Env)
    ensures Enriched(Enriched(m, env), env) == Enriched(m, env)
  {
    MessageIsStable(m, env);
    if Message(m) != [] {
      var values := Values(Read(Message(m)), env);
      ValuesAreScalars(Read(Message(m)), env);
      AssignedClosesAll(m, PATHS, values, |PATHS|);
      AssignedOnClosed(Enriched(m, env), PATHS, values, |PATHS|);
    }
  }

  lemma UntrustedPeerValues(line: Line, env: Env, peer: string)
    requires Peer(line, env) == Some(peer) && !(env.trustHeaders && env.trustedProxy(peer))
    ensures Values(line, env)[CLIENT_IP] == Some(Str(peer)) && Values(line, env)[CLIENT_IP_SOURCE] == Some(Str("peer"))
  {
  }

  /** Without a trusted proxy the client address is the peer's, whatever headers the line quotes. */
  lemma ClientAddressOfUntrustedPeer(m: Object, env: Env, line: Line, peer: string)
    requires Message(m) != [] && line == Read(Message(m)) && Peer(line, env) == Some(peer)
    requires !(env.trustHeaders && env.trustedProxy(peer))
    requires Open(m, PATHS[CLIENT_IP]) && Open(m, PATHS[CLIENT_IP_SOURCE])
    ensures Lookup(Enriched(m, env), PATHS[CLIENT_IP]) == Some(Str(peer))
    ensures Lookup(Enriched(m, env), PATHS[CLIENT_IP_SOURCE]) == Some(Str("peer"))
  {
    EnrichedFieldExactly(m, env, CLIENT_IP);
    EnrichedFieldExactly(m, env, CLIENT_IP_SOURCE);
    UntrustedPeerValues(line, env, peer);
  }

  /** A header that counts: it is there, gives an address, and the peer is a trusted proxy. */
  predicate Counts(env: Env, peer: string, header: Option<string>, address: string -> Option<string>) {
    env.trustHeaders && env.trustedProxy(peer) && header.Some? && address(header.value).Some?
  }

  /** Behind a trusted proxy the client is the address of the Forwarded header, else that of X-Forwarded-For, else the
      peer; and the recorded source says which. */
  lemma ClientExactly(line: Line, env: Env, peer: string)
    ensures var (address, source) := Client(line, env, peer);
            var first := Counts(env, peer, line.forwarded, env.forwardedAddress);
            var second := Counts(env, peer, line.forwardedFor, env.forwardedForAddress);
            && (source == "forwarded" <==> first) && (source == "x-forwarded-for" <==> !first && second)
            && (source == "peer" <==> !first && !second)
            && (first ==> Some(address) == env.forwardedAddress(line.forwarded.value))
            && (!first && second ==> Some(address) == env.forwardedForAddress(line.forwardedFor.value))
            && (!first && !second ==> address == peer)
  {
    assert "forwarded"[0] == 'f' && "x-forwarded-for"[0] == 'x' && "peer"[0] == 'p';
  }

  // ---------- the whole normalization ----------

  function TraceId(m: Object): Option<string> {
    match Lookup(m, ["od", "trace_id"])
    case Some(Str(trace)) => Some(trace)
    case _ => None
  }

  function OrInsert(m: Object, key: string, value: Json): Object {
    if key in m then m else m[key := value]
  }

  function Stamped(m: Object, trace: Option<string>, now: string): Object {
    var stamped := OrInsert(m, "ingested_at", Str(now));
    if trace.Some? then OrInsert(stamped, "trace_id", Str(trace.value)) else stamped
  }

  function Normalized(event: Json, env: Env, now: string): Json {
    if event.Obj? then Obj(Stamped(Enriched(event.fields, env), TraceId(event.fields), now)) else event
  }

  /** The timestamp's own day, if the event has a readable one. */
  function Day(event: Json, env: Env): Option<string> {
    if event.Obj? && "@timestamp" in event.fields && event.fields["@timestamp"].Str?
        then env.day(event.fields["@timestamp"].text) else None
  }

  /** One index per day; `today` is the day of ingestion. */
  function IndexName(prefix: string, event: Json, env: Env, today: string): string {
    prefix + "-" + if Day(event, env).Some? then Day(event, env).value else today
  }

  method NormalizeEvent(prefix: string, event: Json, env: Env, now: string, today: string)
    returns (index: string, normalized: Json)
    ensures index == IndexName(prefix, event, env, today)
    ensures normalized == Normalized(event, env, now)
  {
    var timestamp := today;
    if Day(event, env).Some? {
      timestamp := Day(event, env).value;
    }
    index := prefix + "-" + timestamp;
    if !event.Obj? {
      normalized := event;
      return;
    }
    var trace := TraceId(event.fields);
    var map' := new Event(event.fields);
    map'.EnrichSquidEvent(env);
    if "ingested_at" !in map'.fields {
      map'.fields := map'.fields["ingested_at" := Str(now)];
    }
    if trace.Some? && "trace_id" !in map'.fields {
      map'.fields := map'.fields["trace_id" := Str(trace.value)];
    }
    normalized := Obj(map'.fields);
  }

  lemma TimestampIsApart()
    ensures forall k :: 0 <= k < |PATHS| ==> Apart(PATHS[k], ["@timestamp"])
  {
    forall k | 0 <= k < |PATHS| ensures Apart(PATHS[k], ["@timestamp"]) {
      assert PATHS[k][0][0] != '@';
    }
  }

  lemma TimestampOf(m: Object, env: Env)
    ensures Day(Obj(m), env) == match Lookup(m, ["@timestamp"])
                                case Some(Str(text)) => env.day(text)
                                case _ => None
  {
  }

  lemma TimestampIsStable(event: Json, env: Env, now: string)
    ensures Day(Normalized(event, env, now), env) == Day(event, env)
  {
    if event.Obj? {
      TimestampIsApart();
      EnrichedTouchesNothingElse(event.fields, env, ["@timestamp"]);
      var enriched := Enriched(event.fields, env);
      TimestampOf(event.fields, env);
      TimestampOf(enriched, env);
      StampKeepsTimestamp(enriched, TraceId(event.fields), now, env);
    }
  }

  lemma StampKeepsTimestamp(m: Object, trace: Option<string>, now: string, env: Env)
    ensures Day(Obj(Stamped(m, trace, now)), env) == Day(Obj(m), env)
  {
    assert "@timestamp"[0] == '@' && "ingested_at"[0] == 'i' && "trace_id"[0] == 't';
  }

  /** An event is indexed on the same day whenever it is normalized, and normalized again, if and only if it has a
      readable timestamp. */
  lemma IndexStableExactly(prefix: string, event: Json, env: Env, now: string, today: string, later: string)
    requires today != later
    ensures IndexName(prefix, Normalized(event, env, now), env, later) == IndexName(prefix, event, env, today) <==>
            Day(event, env).Some?
  {
    TimestampIsStable(event, env, now);
    if Day(event, env).None? {
      assert (prefix + "-" + later)[|prefix| + 1..] == later && (prefix + "-" + today)[|prefix| + 1..] == today;
    }
  }

  lemma TraceIsApart()
    ensures forall k :: 0 <= k < |PATHS| ==> Apart(PATHS[k], ["od", "trace_id"])
  {
    var trace := ["od", "trace_id"];
    forall k | 0 <= k < |PATHS| ensures Apart(PATHS[k], trace) {
      if PATHS[k][0] == trace[0] {
        assert k in {1, 2, 4};
        assert PATHS[k][1..][0] == PATHS[k][1] && trace[1..][0] == trace[1];
      }
    }
  }

  lemma OrInsertKeepsClosed(m: Object, key: string, value: Json, path: Path)
    requires !Open(m, path)
    ensures !Open(OrInsert(m, key, value), path)
  {
  }

  lemma AssignedAfterInsert(m: Object, key: string, value: Json, values: seq<Option<Json>>)
    requires |values| == |PATHS| && Scalars(values) && Assigned(m, PATHS, values, |PATHS|) == m
    ensures var inserted := OrInsert(m, key, value); Assigned(inserted, PATHS, values, |PATHS|) == inserted
  {
    AssignedClosesAll(m, PATHS, values, |PATHS|);
    forall i | 0 <= i < |PATHS| && values[i].Some? ensures !Open(OrInsert(m, key, value), PATHS[i]) {
      OrInsertKeepsClosed(m, key, value, PATHS[i]);
    }
    AssignedOnClosed(OrInsert(m, key, value), PATHS, values, |PATHS|);
  }

  lemma InsertKeepsTrace(m: Object, key: string, value: Json)
    requires key != "od"
    ensures TraceId(OrInsert(m, key, value)) == TraceId(m)
  {
  }

  /** A field inserted beside an enriched event leaves it enriched. */
  lemma InsertKeepsEnriched(m: Object, key: string, value: Json, env: Env)
    requires key != "message" && Enriched(m, env) == m
    ensures Enriched(OrInsert(m, key, value), env) == OrInsert(m, key, value)
  {
    var inserted := OrInsert(m, key, value);
    var message := Message(m);
    assert Message(inserted) == message;
    if message != [] {
      var values := Values(Read(message), env);
      assert Assigned(m, PATHS, values, |PATHS|) == m;
      ValuesAreScalars(Read(message), env);
      AssignedAfterInsert(m, key, value, values);
    }
  }

  lemma StampKeepsEnriched(m: Object, trace: Option<string>, now: string, env: Env)
    requires Enriched(m, env) == m
    ensures var stamped := Stamped(m, trace, now);
            Enriched(stamped, env) == stamped && TraceId(stamped) == TraceId(m)
  {
    InsertKeepsEnriched(m, "ingested_at", Str(now), env);
    InsertKeepsTrace(m, "ingested_at", Str(now));
    if trace.Some? {
      InsertKeepsTrace(OrInsert(m, "ingested_at", Str(now)), "trace_id", Str(trace.value));
      InsertKeepsEnriched(OrInsert(m, "ingested_at", Str(now)), "trace_id", Str(trace.value), env);
    }
  }

  lemma StampedTwice(m: Object, trace: Option<string>, now: string, later: string)
    ensures Stamped(Stamped(m, trace, now), trace, later) == Stamped(m, trace, now)
  {
  }

  /** A normalized event is left alone by a later normalization, whenever that happens. */
  lemma NormalizeIdempotent(event: Json, env: Env, now: string, later: string)
    ensures Normalized(Normalized(event, env, now), env, later) == Normalized(event, env, now)
  {
    if event.Obj? {
      var m := event.fields;
      EnrichIdempotent(m, env);
      TraceIsApart();
      EnrichedTouchesNothingElse(m, env, ["od", "trace_id"]);
      var enriched := Enriched(m, env);
      StampKeepsEnriched(enriched, TraceId(m), now, env);
      StampedTwice(enriched, TraceId(m), now, later);
    }
  }

  /** A normalized event holds everything the event held. */
  lemma NormalizedExtends(event: Json, env: Env, now: string)
    ensures Extends(event, Normalized(event, env, now))
  {
    if event.Obj? {
      var enriched := Enriched(event.fields, env);
      var normalized := Stamped(enriched, TraceId(event.fields), now);
      EnrichedExtends(event.fields, env);
      assert Extends(Obj(enriched), Obj(normalized)) by {
        forall key | key in enriched ensures key in normalized && Extends(enriched[key], normalized[key]) {
          ExtendsReflexive(enriched[key]);
        }
      }
      ExtendsTransitive(event, Obj(enriched), Obj(normalized));
    } else {
      ExtendsReflexive(event);
    }
  }

  // ---------- from the proxy's log format to the fields ----------

  /** The message is a line in the proxy's log format, with white space around it or not. The words are: time,
      duration, address, result and status, size, method and target; anything may stand between them and the quoted
      headers. */
  ghost predicate IsLogLine(message: string, words: seq<string>, result: string, status: string, forwarded: string,
                            forwardedFor: string) {
    && |words| == 7 && words[3] == result + "/" + status && '/' !in result
    && exists gaps, between, gap, before, after ::
         HoldsLine(message, words, gaps, between, forwarded, gap, forwardedFor, before, after)
  }

  predicate HoldsLine(message: string, words: seq<string>, gaps: seq<string>, between: string, forwarded: string,
                      gap: string, forwardedFor: string, before: string, after: string) {
    && WellSpaced(words, gaps) && gaps != [] && gaps[0] == []
    && between != [] && IsWhitespace(between[0]) && IsGap(gap)
    && (before == [] || IsGap(before)) && (after == [] || IsGap(after))
    && message == before + Format(words, gaps, between, forwarded, gap, forwardedFor) + after
  }

  predicate MessageIs(m: Object, message: string) {
    "message" in m && m["message"] == Str(message)
  }

  /** Such a line is read back field by field, and the headers come back if and only if neither holds a quote. */
  lemma LogLineIsRead(m: Object, message: string, words: seq<string>, result: string, status: string,
                      forwarded: string, forwardedFor: string)
    requires MessageIs(m, message) && IsLogLine(message, words, result, status, forwarded, forwardedFor)
    ensures Message(m) != []
    ensures var line := Read(Message(m));
            && line.Word(2) == Some(words[2]) && Status(line) == Some((result, status))
            && line.Word(4) == Some(words[4]) && line.Word(5) == Some(words[5]) && line.Word(6) == Some(words[6])
            && (line.forwarded, line.forwardedFor) == HeadersRead(forwarded, forwardedFor)
            && (HeadersComeBack(line, forwarded, forwardedFor) <==> '"' !in forwarded && '"' !in forwardedFor)
  {
    var gaps, between, gap, before, after :|
      HoldsLine(message, words, gaps, between, forwarded, gap, forwardedFor, before, after);
    FormatEnds(words, gaps, between, forwarded, gap, forwardedFor);
    TrimOfPadded(before, Format(words, gaps, between, forwarded, gap, forwardedFor), after);
    FormatIsRead(words, gaps, result, status, between, forwarded, gap, forwardedFor);
  }

  lemma FormatEnds(words: seq<string>, gaps: seq<string>, between: string, forwarded: string, gap: string,
                   forwardedFor: string)
    requires WellSpaced(words, gaps) && gaps != [] && gaps[0] == []
    ensures var text := Format(words, gaps, between, forwarded, gap, forwardedFor); text != [] && IsTrimmed(text)
  {
    var text := Format(words, gaps, between, forwarded, gap, forwardedFor);
    assert text[0] == words[0][0] && text[|text| - 1] == '"';
  }

  lemma FormatIsRead(words: seq<string>, gaps: seq<string>, result: string, status: string, between: string,
                     forwarded: string, gap: string, forwardedFor: string)
    requires |words| == 7 && WellSpaced(words, gaps) && gaps[0] == []
    requires words[3] == result + "/" + status && '/' !in result
    requires between != [] && IsWhitespace(between[0]) && IsGap(gap)
    ensures var line := Read(Format(words, gaps, between, forwarded, gap, forwardedFor));
            && line.Word(2) == Some(words[2]) && Status(line) == Some((result, status))
            && line.Word(4) == Some(words[4]) && line.Word(5) == Some(words[5]) && line.Word(6) == Some(words[6])
            && (line.forwarded, line.forwardedFor) == HeadersRead(forwarded, forwardedFor)
            && (HeadersComeBack(line, forwarded, forwardedFor) <==> '"' !in forwarded && '"' !in forwardedFor)
  {
    ReadOfFormat(words, gaps, between, forwarded, gap, forwardedFor);
    SplitSlashOf(result, status);
  }

  function AsNumber(value: Option<int>): Option<Json> {
    if value.None? then None else Some(Num(value.value as real))
  }

  function Verdict(blocked: string, otherwise: string, code: Option<int>): Option<Json> {
    if code.None? then None else Some(Str(if code.value in {403, 407, 451} then blocked else otherwise))
  }

  /** Result and status. The status gives the inferred action, which is a block for 403, 407 and 451 only. */
  lemma StatusValues(line: Line, env: Env, result: string, status: string)
    requires Status(line) == Some((result, status))
    ensures var values, code := Values(line, env), env.integer(status);
            && values[RESULT_CODE] == Some(Str(result)) && values[STATUS_CODE] == AsNumber(code)
            && values[INFERRED_ACTION] == Verdict("block", "allow", code)
            && values[TRAFFIC_CLASS] == Verdict("blocked", "allowed", code)
  {
  }

  /** Size, method and target. A size that is no number, or a negative one, is left out. */
  lemma RequestValues(line: Line, env: Env, size: string, verb: string, address: string)
    requires line.Word(4) == Some(size) && line.Word(5) == Some(verb) && line.Word(6) == Some(address)
    ensures var values, n, target := Values(line, env), env.integer(size), env.target(address, Some(verb));
            && values[BYTES] == (if n.Some? && n.value < 0 then None else AsNumber(n))
            && values[METHOD] == Some(Str(verb))
            && values[DOMAIN] == (if target.Some? then Some(Str(target.value.0)) else None)
            && values[URL] == (if target.Some? then Some(Str(target.value.1)) else None)
            && values[NORMALIZED_KEY] == if target.Some? then AsText(env.normalizedKey(target.value.0)) else None
  {
  }

  /** The peer as it stands; and, if that is an address, the headers and the client behind it. */
  lemma AddressValues(line: Line, env: Env, peer: string)
    requires line.Word(2) == Some(peer)
    ensures var values := Values(line, env);
            && values[SOURCE_IP] == Some(Str(peer))
            && (env.address(peer).None? ==>
                  && values[CLIENT_IP] == None && values[CLIENT_IP_SOURCE] == Some(Str("unknown"))
                  && values[FORWARDED_RAW] == None && values[FORWARDED_FOR_RAW] == None)
            && (env.address(peer).Some? ==>
                  var (address, source) := Client(line, env, env.address(peer).value);
                  && values[CLIENT_IP] == Some(Str(address)) && values[CLIENT_IP_SOURCE] == Some(Str(source))
                  && values[FORWARDED_RAW] == AsText(line.forwarded)
                  && values[FORWARDED_FOR_RAW] ==
                     if line.forwardedFor == Some("") then None else AsText(line.forwardedFor))
  {
  }

  /** Where the event has room for it. */
  lemma FieldOfRoom(m: Object, env: Env, k: nat, path: Path)
    requires k < |PATHS| && PATHS[k] == path && Message(m) != [] && Open(m, path)
    ensures var value := Values(Read(Message(m)), env)[k];
            Lookup(Enriched(m, env), path) == if value.Some? then value else Lookup(m, path)
  {
    EnrichedFieldExactly(m, env, k);
  }

  /** From the log line to the event, where it has room: result, status and what the status means. */
  lemma LineGivesStatus(m: Object, env: Env, message: string, words: seq<string>, result: string, status: string,
                        forwarded: string, forwardedFor: string)
    requires MessageIs(m, message) && IsLogLine(message, words, result, status, forwarded, forwardedFor)
    requires Open(m, ["proxy", "result_code"]) && Open(m, ["http", "response", "status_code"])
    requires Open(m, ["recommended_action_inferred"]) && Open(m, ["traffic_class"])
    ensures var e, code := Enriched(m, env), env.integer(status);
            && Lookup(e, ["proxy", "result_code"]) == Some(Str(result))
            && (code.Some? ==>
                  var blocked := code.value in {403, 407, 451};
                  && Lookup(e, ["http", "response", "status_code"]) == Some(Num(code.value as real))
                  && Lookup(e, ["recommended_action_inferred"]) == Some(Str(if blocked then "block" else "allow"))
                  && Lookup(e, ["traffic_class"]) == Some(Str(if blocked then "blocked" else "allowed")))
  {
    LogLineIsRead(m, message, words, result, status, forwarded, forwardedFor);
    StatusValues(Read(Message(m)), env, result, status);
    FieldOfRoom(m, env, RESULT_CODE, ["proxy", "result_code"]);
    FieldOfRoom(m, env, STATUS_CODE, ["http", "response", "status_code"]);
    FieldOfRoom(m, env, INFERRED_ACTION, ["recommended_action_inferred"]);
    FieldOfRoom(m, env, TRAFFIC_CLASS, ["traffic_class"]);
  }

  /** Size, method, and the parts of the target. */
  lemma LineGivesRequest(m: Object, env: Env, message: string, words: seq<string>, result: string, status: string,
                         forwarded: string, forwardedFor: string)
    requires MessageIs(m, message) && IsLogLine(message, words, result, status, forwarded, forwardedFor)
    requires Open(m, ["network", "bytes"]) && Open(m, ["http", "request", "method"])
    requires Open(m, ["destination", "domain"]) && Open(m, ["url", "full"]) && Open(m, ["normalized_key"])
    ensures var e, n, target := Enriched(m, env), env.integer(words[4]), env.target(words[6], Some(words[5]));
            && (n.Some? && n.value >= 0 ==> Lookup(e, ["network", "bytes"]) == Some(Num(n.value as real)))
            && Lookup(e, ["http", "request", "method"]) == Some(Str(words[5]))
            && (target.Some? ==>
                  && Lookup(e, ["destination", "domain"]) == Some(Str(target.value.0))
                  && Lookup(e, ["url", "full"]) == Some(Str(target.value.1))
                  && var key := env.normalizedKey(target.value.0);
                  key.Some? ==> Lookup(e, ["normalized_key"]) == Some(Str(key.value)))
  {
    LogLineIsRead(m, message, words, result, status, forwarded, forwardedFor);
    RequestValues(Read(Message(m)), env, words[4], words[5], words[6]);
    FieldOfRoom(m, env, BYTES, ["network", "bytes"]);
    FieldOfRoom(m, env, METHOD, ["http", "request", "method"]);
    FieldOfRoom(m, env, DOMAIN, ["destination", "domain"]);
    FieldOfRoom(m, env, URL, ["url", "full"]);
    FieldOfRoom(m, env, NORMALIZED_KEY, ["normalized_key"]);
  }

  lemma ClientFields(m: Object, env: Env, line: Line, word: string)
    requires Message(m) != [] && line == Read(Message(m)) && line.Word(2) == Some(word) && env.address(word).Some?
    requires Open(m, ["source", "ip"]) && Open(m, ["client", "ip"]) && Open(m, ["od", "client_ip_source"])
    ensures var e, (address, source) := Enriched(m, env), Client(line, env, env.address(word).value);
            && Lookup(e, ["source", "ip"]) == Some(Str(word))
            && Lookup(e, ["client", "ip"]) == Some(Str(address))
            && Lookup(e, ["od", "client_ip_source"]) == Some(Str(source))
  {
    AddressValues(line, env, word);
    FieldOfRoom(m, env, SOURCE_IP, ["source", "ip"]);
    FieldOfRoom(m, env, CLIENT_IP, ["client", "ip"]);
    FieldOfRoom(m, env, CLIENT_IP_SOURCE, ["od", "client_ip_source"]);
  }

  lemma HeaderFields(m: Object, env: Env, line: Line, word: string)
    requires Message(m) != [] && line == Read(Message(m)) && line.Word(2) == Some(word) && env.address(word).Some?
    requires Open(m, ["od", "forwarded_raw"]) && Open(m, ["od", "forwarded_for_raw"])
    ensures var e := Enriched(m, env);
            && (line.forwarded.Some? ==> Lookup(e, ["od", "forwarded_raw"]) == Some(Str(line.forwarded.value)))
            && (line.forwardedFor.Some? && line.forwardedFor.value != "" ==>
                  Lookup(e, ["od", "forwarded_for_raw"]) == Some(Str(line.forwardedFor.value)))
  {
    AddressValues(line, env, word);
    FieldOfRoom(m, env, FORWARDED_RAW, ["od", "forwarded_raw"]);
    FieldOfRoom(m, env, FORWARDED_FOR_RAW, ["od", "forwarded_for_raw"]);
  }

  /** The peer, the client behind it and where that was found, for the headers that were read. */
  lemma LineGivesClient(m: Object, env: Env, message: string, words: seq<string>, result: string, status: string,
                        forwarded: string, forwardedFor: string)
    requires MessageIs(m, message) && IsLogLine(message, words, result, status, forwarded, forwardedFor)
    requires Open(m, ["source", "ip"]) && Open(m, ["client", "ip"]) && Open(m, ["od", "client_ip_source"])
    requires env.address(words[2]).Some?
    ensures var e, line, peer := Enriched(m, env), Read(Message(m)), env.address(words[2]).value;
            var (address, source) := Client(line, env, peer);
            && Lookup(e, ["source", "ip"]) == Some(Str(words[2]))
            && Lookup(e, ["client", "ip"]) == Some(Str(address))
            && Lookup(e, ["od", "client_ip_source"]) == Some(Str(source))
            && (line.forwarded, line.forwardedFor) == HeadersRead(forwarded, forwardedFor)
  {
    LogLineIsRead(m, message, words, result, status, forwarded, forwardedFor);
    ClientFields(m, env, Read(Message(m)), words[2]);
  }

  /** The headers as they were read, if the peer is an address; an empty X-Forwarded-For is left out. */
  lemma LineGivesHeaders(m: Object, env: Env, message: string, words: seq<string>, result: string, status: string,
                         forwarded: string, forwardedFor: string)
    requires MessageIs(m, message) && IsLogLine(message, words, result, status, forwarded, forwardedFor)
    requires Open(m, ["od", "forwarded_raw"]) && Open(m, ["od", "forwarded_for_raw"]) && env.address(words[2]).Some?
    ensures var e, (first, second) := Enriched(m, env), HeadersRead(forwarded, forwardedFor);
            && (first.Some? ==> Lookup(e, ["od", "forwarded_raw"]) == Some(Str(first.value)))
            && (second.Some? && second.value != "" ==>
                  Lookup(e, ["od", "forwarded_for_raw"]) == Some(Str(second.value)))
  {
    LogLineIsRead(m, message, words, result, status, forwarded, forwardedFor);
    HeaderFields(m, env, Read(Message(m)), words[2]);
  }
}
