/**
 * The request-boundary decisions of the HTTP middleware
 * (internal/interfaces/api/middleware.go): the bearer-token check, the
 * status-to-message mapping of the error handler, the Redis sliding-window
 * rate limiter and the required-field and priority checks.
 *
 * Token validation and the task-type check live in a package that is not
 * part of this model; they are parameters. The clock reading, the client
 * address and the request path are parameters as well.
 */
module Middleware {
  import opened Common
  import opened Text

  /** A JSON reply written by a middleware, which also stops the chain. */
  datatype Response = Response(code: int, message: string)

  // ---------------------------------------------------------------------------
  // Auth
  // ---------------------------------------------------------------------------

  const BearerPrefix: string := "Bearer "

  /** The decision of Auth: go on with the token's claims, or reply unauthorized. */
  datatype AuthDecision<C> = Authenticated(claims: C) | Unauthorized(message: string)

  /**
   * Auth: an empty Authorization header, a header without the "Bearer "
   * prefix, and a token that fails validation are each refused with their
   * own message; otherwise the claims of the token are passed on. The token
   * is the header with one "Bearer " prefix removed.
   */
  function Auth<C>(header: string, validate: string -> Result<C, string>): (d: AuthDecision<C>)
    ensures header == "" ==> d == Unauthorized("未授权访问")
    ensures header != "" && !HasPrefix(header, BearerPrefix) ==> d == Unauthorized("无效的令牌格式")
    ensures HasPrefix(header, BearerPrefix) ==>
      var token := header[|BearerPrefix|..];
      && header == BearerPrefix + token
      && (validate(token).Ok? ==> d == Authenticated(validate(token).value))
      && (validate(token).Err? ==> d == Unauthorized("令牌验证失败: " + validate(token).error))
  {
    if header == "" then Unauthorized("未授权访问")
    else if !HasPrefix(header, BearerPrefix) then Unauthorized("无效的令牌格式")
    else
      var token := header[|BearerPrefix|..];
      assert header == header[..|BearerPrefix|] + token;
      match validate(token)
      case Err(e) => Unauthorized("令牌验证失败: " + e)
      case Ok(claims) => Authenticated(claims)
  }

  /**
   * A request is let through exactly when it carries "Bearer " followed by a
   * token that validates, and it is that token, with nothing else stripped,
   * that is validated.
   */
  lemma AuthAcceptsExactlyBearerTokens<C>(token: string, validate: string -> Result<C, string>)
    ensures Auth(BearerPrefix + token, validate) ==
      match validate(token)
      case Ok(c) => Authenticated(c)
      case Err(e) => Unauthorized("令牌验证失败: " + e)
  {
    var header := BearerPrefix + token;
    assert HasPrefix(header, BearerPrefix);
    assert header[|BearerPrefix|..] == token;
  }

  // ---------------------------------------------------------------------------
  // ErrorHandler
  // ---------------------------------------------------------------------------

  /** The status codes the error handler has a fixed message for. */
  predicate KnownStatus(code: int) {
    code in {400, 401, 403, 404, 405, 429, 500, 502, 503, 504}
  }

  /** The message for a status code; other codes keep `fallback`, the response buffer's text. */
  function StatusMessage(code: int, fallback: string): (m: string)
    ensures !KnownStatus(code) ==> m == fallback
    ensures KnownStatus(code) ==> |m| >= 4
  {
    match code
    case 400 => "请求参数错误"
    case 401 => "未授权访问"
    case 403 => "禁止访问"
    case 404 => "请求的资源不存在"
    case 405 => "请求方法不允许"
    case 429 => "请求过于频繁"
    case 500 => "服务器内部错误"
    case 502 => "网关错误"
    case 503 => "服务不可用"
    case 504 => "网关超时"
    case _ => fallback
  }

  /**
   * ErrorHandler, after the rest of the chain ran: a response that already
   * has a body is left alone (None); otherwise a JSON reply with the status
   * code and its message is written.
   */
  function ErrorHandler(status: int, buffer: string): (r: Option<Response>)
    ensures r.None? <==> |buffer| > 0
    ensures r.Some? ==> r.value.code == status && r.value.message == StatusMessage(status, buffer)
  {
    if |buffer| > 0 then None
    else Some(Response(status, StatusMessage(status, buffer)))
  }

  /** Distinct known codes get distinct messages. */
  lemma StatusMessagesDistinct(c1: int, c2: int, fallback: string)
    requires KnownStatus(c1) && KnownStatus(c2) && c1 != c2
    ensures StatusMessage(c1, fallback) != StatusMessage(c2, fallback)
  {
  }

  // ---------------------------------------------------------------------------
  // RateLimit
  // ---------------------------------------------------------------------------

  /** The Redis key of one client address and request path. */
  function RateLimitKey(clientIp: string, path: string): (k: string)
    ensures |k| == |"rate_limit:"| + |clientIp| + 1 + |path|
    ensures HasPrefix(k, "rate_limit:")
  {
    "rate_limit:" + clientIp + ":" + path
  }

  /**
   * Keys do not collide: an address never contains '/', and a request
   * path always begins with it, so the first ":/" after the prefix marks
   * where the address ends.
   */
  lemma {:induction false} RateLimitKeyInjective(ip1: string, path1: string, ip2: string, path2: string)
    requires '/' !in ip1 && '/' !in ip2
    requires |path1| > 0 && path1[0] == '/' && |path2| > 0 && path2[0] == '/'
    requires RateLimitKey(ip1, path1) == RateLimitKey(ip2, path2)
    ensures ip1 == ip2 && path1 == path2
  {
    var k := RateLimitKey(ip1, path1);
    var n := |"rate_limit:"|;
    assert forall i :: 0 <= i < |ip1| ==> k[n + i] == ip1[i];
    assert forall i :: 0 <= i < |ip2| ==> k[n + i] == ip2[i];
    assert k[n + |ip1|] == ':' && k[n + |ip1| + 1] == '/';
    assert k[n + |ip2|] == ':' && k[n + |ip2| + 1] == '/';
    if |ip1| == |ip2| {
      assert ip1 == k[n..n + |ip1|] == ip2;
      assert path1 == k[n + |ip1| + 1..] == path2;
    }
  }

  /** A Redis sorted set: member to score. */
  type ZSet = map<int, int>

  /** ZREMRANGEBYSCORE key 0 cutoff: drops every member whose score lies in [0, cutoff]. */
  function Prune(z: ZSet, cutoff: int): (r: ZSet)
    ensures forall m :: m in r <==> m in z && !(0 <= z[m] <= cutoff)
    ensures forall m :: m in r ==> r[m] == z[m]
  {
    map m | m in z && !(0 <= z[m] <= cutoff) :: z[m]
  }

  /** The reply of a request over the limit. */
  const TooManyRequests: Response := Response(429, "请求过于频繁，请稍后再试")

  /**
   * One rate-limit decision on a key's set: prune the entries at least a
   * window old, count the rest, and either refuse (the pruned set stays) or
   * admit and record `now` with `now` as both member and score.
   */
  function Admit(z: ZSet, now: int, window: int, limit: int): (r: (bool, ZSet))
    ensures r.1.Keys <= z.Keys + {now}
    ensures r.0 <==> |Prune(z, now - window)| < limit
    ensures r.0 ==> now in r.1 && |r.1| <= |Prune(z, now - window)| + 1
    ensures !r.0 ==> r.1 == Prune(z, now - window)
    ensures r.0 ==> r.1 == Prune(z, now - window)[now := now]
  {
    var pruned := Prune(z, now - window);
    if |pruned| >= limit then (false, pruned)
    else
      assert pruned[now := now].Keys == pruned.Keys + {now};
      (true, pruned[now := now])
  }

  /** The set stored under `key`; Redis treats a missing key as an empty set. */
  function Lookup(zsets: map<string, ZSet>, key: string): ZSet {
    if key in zsets then zsets[key] else map[]
  }

  /** Redis keeps no empty sorted set: storing an empty one removes the key. */
  function Store(zsets: map<string, ZSet>, key: string, z: ZSet): (r: map<string, ZSet>)
    ensures Lookup(r, key) == z
    ensures forall k :: k != key ==> Lookup(r, k) == Lookup(zsets, k)
  {
    if z == map[] then zsets - {key} else zsets[key := z]
  }

  class RateLimiter {
    var zsets: map<string, ZSet>

    constructor ()
      ensures zsets == map[]
    {
      zsets := map[];
    }

    /**
     * RateLimit: None lets the request through, Some(reply) refuses it.
     * When Redis cannot count the requests the request goes through and
     * nothing is recorded (the limiter fails open).
     */
    method RateLimit(clientIp: string, path: string, now: int, limit: int, window: int, redisUp: bool)
      returns (r: Option<Response>)
      modifies this
      ensures !redisUp ==> r == None && zsets == old(zsets)
      ensures redisUp ==>
        var key := RateLimitKey(clientIp, path);
        var (admitted, z) := Admit(Lookup(old(zsets), key), now, window, limit);
        && zsets == Store(old(zsets), key, z)
        && (r == None <==> admitted)
        && (!admitted ==> r == Some(TooManyRequests))
    {
      if !redisUp {
        return None;
      }
      var key := RateLimitKey(clientIp, path);
      var z := Prune(Lookup(zsets, key), now - window);
      zsets := Store(zsets, key, z);
      var count := |z|;
      if count >= limit {
        return Some(TooManyRequests);
      }
      z := z[now := now];
      zsets := Store(zsets, key, z);
      return None;
    }
  }

  /** A set within the limit stays within the limit after an admission decision. */
  lemma AdmitKeepsSetWithinLimit(z: ZSet, now: int, window: int, limit: int)
    requires |z| <= limit
    ensures |Admit(z, now, window, limit).1| <= limit
  {
    var pruned := Prune(z, now - window);
    assert pruned.Keys <= z.Keys;
    SubsetCardinality(pruned.Keys, z.Keys);
  }

  lemma SubsetCardinality(a: set<int>, b: set<int>)
    requires a <= b
    ensures |a| <= |b|
  {
    assert b == a + (b - a);
  }

  /** How many of `k` requests arriving in the same second are admitted. */
  function BurstAdmitted(z: ZSet, now: int, window: int, limit: int, k: nat): nat
    decreases k
  {
    if k == 0 then 0
    else
      var (admitted, z') := Admit(z, now, window, limit);
      (if admitted then 1 else 0) + BurstAdmitted(z', now, window, limit, k - 1)
  }

  /**
   * As written, requests within the same second share one member, so with a
   * limit of 2 or more and a positive window every request of a same-second
   * burst on a fresh key is admitted, however many there are.
   */
  lemma {:induction false} SameSecondBurstUnlimited(now: int, window: int, limit: int, k: nat)
    requires limit >= 2 && window > 0 && now >= 0
    ensures BurstAdmitted(map[now := now], now, window, limit, k) == k
    ensures BurstAdmitted(map[], now, window, limit, k + 1) == k + 1
    decreases k
  {
    SameSecondAdmit(now, window, limit);
    if k > 0 {
      SameSecondBurstUnlimited(now, window, limit, k - 1);
    }
  }

  /** One step of a same-second burst: the set holding just `now` admits again and stays the same. */
  lemma SameSecondAdmit(now: int, window: int, limit: int)
    requires limit >= 2 && window > 0 && now >= 0
    ensures Admit(map[now := now], now, window, limit) == (true, map[now := now])
    ensures Admit(map[], now, window, limit) == (true, map[now := now])
  {
    var one: ZSet := map[now := now];
    assert Prune(one, now - window) == one;
    assert Prune(map[], now - window) == map[];
    assert |one| == 1 by { assert one.Keys == {now}; }
    assert one[now := now] == one;
  }

  /** Concrete instance: limit 2, window 60 s, three requests at t = 100 are all admitted. */
  lemma ThreeRequestsPastALimitOfTwo()
    ensures BurstAdmitted(map[], 100, 60, 2, 3) == 3
  {
    SameSecondBurstUnlimited(100, 60, 2, 2);
  }

  // Corrected limiter: one entry per request (a unique member per request,
  // scored with its arrival second).

  /** The scores left after ZREMRANGEBYSCORE 0 cutoff, in insertion order. */
  function PruneScores(s: seq<int>, cutoff: int): (r: seq<int>)
    ensures |r| <= |s|
    ensures forall x :: x in r <==> x in s && !(0 <= x <= cutoff)
  {
    if s == [] then []
    else (if 0 <= s[0] <= cutoff then [] else [s[0]]) + PruneScores(s[1..], cutoff)
  }

  /** One decision when every request is its own entry. */
  function AdmitEach(s: seq<int>, now: int, window: int, limit: int): (r: (bool, seq<int>))
    ensures r.0 <==> |PruneScores(s, now - window)| < limit
    ensures r.0 ==> r.1 == PruneScores(s, now - window) + [now]
    ensures !r.0 ==> r.1 == PruneScores(s, now - window)
  {
    var pruned := PruneScores(s, now - window);
    if |pruned| >= limit then (false, pruned) else (true, pruned + [now])
  }

  function BurstAdmittedEach(s: seq<int>, now: int, window: int, limit: int, k: nat): nat
    decreases k
  {
    if k == 0 then 0
    else
      var (admitted, s') := AdmitEach(s, now, window, limit);
      (if admitted then 1 else 0) + BurstAdmittedEach(s', now, window, limit, k - 1)
  }

  /** Pruning twice at the same cutoff prunes nothing more. */
  lemma PruneScoresIdempotent(s: seq<int>, cutoff: int)
    ensures PruneScores(PruneScores(s, cutoff), cutoff) == PruneScores(s, cutoff)
  {
    PruneScoresKeeps(PruneScores(s, cutoff), cutoff);
  }

  /**
   * With one entry per request, a same-second burst is admitted only up to
   * the room the window leaves: limit minus the requests still inside it.
   */
  lemma {:induction false} SameSecondBurstBoundedEach(s: seq<int>, now: int, window: int, limit: int, k: nat)
    requires window > 0 && now >= 0
    ensures var room := limit - |PruneScores(s, now - window)|;
      BurstAdmittedEach(s, now, window, limit, k) == if room <= 0 then 0 else if k <= room then k else room
    decreases k
  {
    if k > 0 {
      var cutoff := now - window;
      var pruned := PruneScores(s, cutoff);
      PruneScoresIdempotent(s, cutoff);
      if |pruned| < limit {
        var next := pruned + [now];
        assert PruneScores(next, cutoff) == next by {
          PruneScoresKeeps(next, cutoff);
        }
        SameSecondBurstBoundedEach(next, now, window, limit, k - 1);
      } else {
        SameSecondBurstBoundedEach(pruned, now, window, limit, k - 1);
      }
    }
  }

  /** A list whose scores all lie after the cutoff is left as it is. */
  lemma {:induction false} PruneScoresKeeps(s: seq<int>, cutoff: int)
    requires forall x :: x in s ==> !(0 <= x <= cutoff)
    ensures PruneScores(s, cutoff) == s
  {
    if s != [] {
      assert forall x :: x in s[1..] ==> x in s;
      assert s[0] in s;
      PruneScoresKeeps(s[1..], cutoff);
      assert s == [s[0]] + s[1..];
    }
  }

  /** The corrected limiter admits no more than `limit` requests of any burst. */
  lemma BurstNeverExceedsLimit(s: seq<int>, now: int, window: int, limit: int, k: nat)
    requires window > 0 && now >= 0
    ensures BurstAdmittedEach(s, now, window, limit, k) <= if limit < 0 then 0 else limit
  {
    SameSecondBurstBoundedEach(s, now, window, limit, k);
  }

  // ---------------------------------------------------------------------------
  // ValidateRequest
  // ---------------------------------------------------------------------------

  /** A decoded request parameter: a string, a number (Go float64), or any other JSON value. */
  datatype JsonValue = JString(s: string) | JNumber(n: real) | JOther

  const RequiredFields: seq<string> := ["work_id", "batch_id", "type"]

  /** The position of the first of `fields` that is not among the parameters. */
  function FirstMissing(fields: seq<string>, params: map<string, JsonValue>): (r: Option<nat>)
    ensures r.Some? ==> r.value < |fields| && fields[r.value] !in params
    ensures r.Some? ==> forall j :: 0 <= j < r.value ==> fields[j] in params
    ensures r.None? ==> forall j :: 0 <= j < |fields| ==> fields[j] in params
  {
    if fields == [] then None
    else if fields[0] !in params then Some(0)
    else
      match FirstMissing(fields[1..], params)
      case None => None
      case Some(k) => Some(k + 1)
  }

  /**
   * ValidateRequest: None lets the request through; otherwise the 400 reply.
   * `parsed` is the outcome of parsing the parameters; `isValidTaskType`
   * is the task-type check of the utility package.
   */
  function ValidateRequest(parsed: Result<map<string, JsonValue>, string>,
                           isValidTaskType: string -> bool): (r: Option<Response>)
    ensures r.Some? ==> r.value.code == 400
    ensures parsed.Err? ==> r == Some(Response(400, "请求参数解析失败: " + parsed.error))
    ensures r.None? <==>
      && parsed.Ok?
      && (forall f :: f in RequiredFields ==> f in parsed.value)
      && (parsed.value["type"].JString? ==> isValidTaskType(parsed.value["type"].s))
      && ("priority" in parsed.value && parsed.value["priority"].JNumber? ==>
            0.0 <= parsed.value["priority"].n <= 3.0)
    ensures parsed.Ok? && (forall f :: f in RequiredFields ==> f in parsed.value)
      && parsed.value["type"].JString? && !isValidTaskType(parsed.value["type"].s)
      ==> r == Some(Response(400, "无效的任务类型"))
    ensures parsed.Ok? && (forall f :: f in RequiredFields ==> f in parsed.value)
      && (parsed.value["type"].JString? ==> isValidTaskType(parsed.value["type"].s))
      && "priority" in parsed.value && parsed.value["priority"].JNumber?
      && (parsed.value["priority"].n < 0.0 || parsed.value["priority"].n > 3.0)
      ==> r == Some(Response(400, "优先级必须在0-3之间"))
  {
    match parsed
    case Err(e) => Some(Response(400, "请求参数解析失败: " + e))
    case Ok(params) =>
      match FirstMissing(RequiredFields, params)
      case Some(i) => Some(Response(400, "缺少必填参数: " + RequiredFields[i]))
      case None =>
        assert "type" in RequiredFields;
        if params["type"].JString? && !isValidTaskType(params["type"].s) then
          Some(Response(400, "无效的任务类型"))
        else if "priority" in params && params["priority"].JNumber?
             && (params["priority"].n < 0.0 || params["priority"].n > 3.0) then
          Some(Response(400, "优先级必须在0-3之间"))
        else None
  }

  /** The missing field reported is the first one in the order work_id, batch_id, type. */
  lemma MissingFieldsReportedInOrder(params: map<string, JsonValue>, isValidTaskType: string -> bool)
    requires "work_id" !in params || "batch_id" !in params || "type" !in params
    ensures ValidateRequest(Ok(params), isValidTaskType) == Some(Response(400, "缺少必填参数: " +
      (if "work_id" !in params then "work_id" else if "batch_id" !in params then "batch_id" else "type")))
  {
    assert RequiredFields[0] == "work_id" && RequiredFields[1] == "batch_id" && RequiredFields[2] == "type";
  }
}
