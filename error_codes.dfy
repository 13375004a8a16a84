/**
 * The error sentinels, their response codes and the error-response value
 * (internal/infrastructure/utils/error.go).
 */
module ErrorCodes {
  import opened Common

  /** The ten sentinel errors the package declares. */
  datatype Sentinel =
    | InvalidParams | Unauthorized | Forbidden | NotFound | InternalServer
    | DatabaseOperation | RedisOperation | OssOperation | AiOperation | TaskOperation

  /**
   * An error value. Go compares errors by identity, so a sentinel is only
   * ever equal to itself; any other error (a wrapped sentinel, a fresh
   * error with the same text) is `OtherError`.
   */
  datatype ErrorValue = SentinelError(sentinel: Sentinel) | OtherError(message: string)

  const CodeSuccess: int := 200
  const CodeInvalidParams: int := 400
  const CodeUnauthorized: int := 401
  const CodeForbidden: int := 403
  const CodeNotFound: int := 404
  const CodeInternalServer: int := 500
  const CodeDatabaseError: int := 501
  const CodeRedisError: int := 502
  const CodeOssError: int := 503
  const CodeAiError: int := 504
  const CodeTaskError: int := 505

  /** The text each sentinel carries. */
  function SentinelMessage(s: Sentinel): string {
    match s
    case InvalidParams => "无效的参数"
    case Unauthorized => "未授权"
    case Forbidden => "禁止访问"
    case NotFound => "资源不存在"
    case InternalServer => "服务器内部错误"
    case DatabaseOperation => "数据库操作失败"
    case RedisOperation => "Redis操作失败"
    case OssOperation => "OSS操作失败"
    case AiOperation => "AI操作失败"
    case TaskOperation => "任务操作失败"
  }

  /** GetErrorCode; `None` is the nil error. */
  function GetErrorCode(err: Option<ErrorValue>): (code: int)
    ensures code in {400, 401, 403, 404, 500, 501, 502, 503, 504, 505}
    ensures code == CodeInternalServer <==>
      err.None? || err.value.OtherError? || err.value == SentinelError(InternalServer)
    ensures code != CodeSuccess
  {
    match err
    case None => CodeInternalServer
    case Some(OtherError(_)) => CodeInternalServer
    case Some(SentinelError(s)) =>
      match s
      case InvalidParams => CodeInvalidParams
      case Unauthorized => CodeUnauthorized
      case Forbidden => CodeForbidden
      case NotFound => CodeNotFound
      case DatabaseOperation => CodeDatabaseError
      case RedisOperation => CodeRedisError
      case OssOperation => CodeOssError
      case AiOperation => CodeAiError
      case TaskOperation => CodeTaskError
      case InternalServer => CodeInternalServer
  }

  /** The client-side sentinels get the 4xx codes, the back-end ones 501 to 505, in declaration order. */
  lemma SentinelCodes()
    ensures GetErrorCode(Some(SentinelError(InvalidParams))) == 400
    ensures GetErrorCode(Some(SentinelError(Unauthorized))) == 401
    ensures GetErrorCode(Some(SentinelError(Forbidden))) == 403
    ensures GetErrorCode(Some(SentinelError(NotFound))) == 404
    ensures GetErrorCode(Some(SentinelError(DatabaseOperation))) == 501
    ensures GetErrorCode(Some(SentinelError(RedisOperation))) == 502
    ensures GetErrorCode(Some(SentinelError(OssOperation))) == 503
    ensures GetErrorCode(Some(SentinelError(AiOperation))) == 504
    ensures GetErrorCode(Some(SentinelError(TaskOperation))) == 505
  {
  }

  /** Distinct sentinels other than InternalServer never share a code. */
  lemma SentinelCodesDistinct(a: Sentinel, b: Sentinel)
    requires a != InternalServer && b != InternalServer && a != b
    ensures GetErrorCode(Some(SentinelError(a))) != GetErrorCode(Some(SentinelError(b)))
  {
  }

  /** The code is all a caller learns: the sentinel is recovered from any code other than 500. */
  function SentinelOfCode(code: int): (s: Option<Sentinel>)
    ensures s.Some? ==> GetErrorCode(Some(SentinelError(s.value))) == code
  {
    if code == CodeInvalidParams then Some(InvalidParams)
    else if code == CodeUnauthorized then Some(Unauthorized)
    else if code == CodeForbidden then Some(Forbidden)
    else if code == CodeNotFound then Some(NotFound)
    else if code == CodeDatabaseError then Some(DatabaseOperation)
    else if code == CodeRedisError then Some(RedisOperation)
    else if code == CodeOssError then Some(OssOperation)
    else if code == CodeAiError then Some(AiOperation)
    else if code == CodeTaskError then Some(TaskOperation)
    else None
  }

  /** Decoding the code of an error gives back its sentinel, unless the code is 500. */
  lemma SentinelOfCodeRoundTrip(err: Option<ErrorValue>)
    ensures GetErrorCode(err) != CodeInternalServer ==>
      err.Some? && SentinelOfCode(GetErrorCode(err)) == Some(err.value.sentinel)
    ensures GetErrorCode(err) == CodeInternalServer ==> SentinelOfCode(GetErrorCode(err)).None?
  {
  }

  /** ErrorResponse. */
  datatype ErrorResponse = ErrorResponse(code: int, message: string)

  /** NewError: a response carrying exactly the given code and message. */
  function NewError(code: int, message: string): (r: ErrorResponse)
    ensures r.code == code && r.message == message
  {
    ErrorResponse(code, message)
  }

  /** IsError: true exactly for a non-nil error. */
  function IsError(err: Option<ErrorValue>): (b: bool)
    ensures b <==> err != None
  {
    err.Some?
  }
}
