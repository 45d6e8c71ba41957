/** Shared vocabulary of the services: nullable values, the response envelope,
    identifier types and the .NET string predicates the services rely on. */
module Common {

  /** A nullable value: `None` stands for C#'s `null`. */
  datatype Option<+T> = None | Some(value: T)

  /** The envelope every service operation returns (Result<T> in the services).
      `status` is the HTTP status code the service writes as a string;
      `message` and `data` are `None` where the service leaves them null. */
  datatype Response<T> = Response(success: bool, status: int, message: Option<string>, data: Option<T>)

  const OK := 200
  const CREATED := 201
  const FORBIDDEN := 403
  const NOT_FOUND := 404
  const CONFLICT := 409
  const UNPROCESSABLE := 422
  const INTERNAL_ERROR := 500

  /** A failed response carrying a status and a message, with no data. */
  function Failure<T>(status: int, message: string): (r: Response<T>)
    ensures !r.success && r.status == status && r.data.None?
  {
    Response(false, status, Some(message), None)
  }

  /** C#'s 32-bit `int`. */
  const INT32_MIN := -0x8000_0000
  const INT32_MAX := 0x7FFF_FFFF
  type Int32 = x: int | INT32_MIN <= x <= INT32_MAX

  /** A 128-bit `Guid`; `EMPTY_GUID` is `Guid.Empty`. */
  type Guid = x: int | 0 <= x < 0x1_0000_0000_0000_0000_0000_0000_0000_0000
  const EMPTY_GUID: Guid := 0

  /** An opaque point in time (`DateTime.UtcNow` is supplied by the caller). */
  type Timestamp = int

  /** Prices (`decimal` in the source); no arithmetic is done on them. */
  type Money = int

  /** `char.IsWhiteSpace`: the Unicode white-space characters. */
  predicate IsWhiteSpace(c: char) {
    ('\U{0009}' <= c <= '\U{000D}') || c == ' ' || c == '\U{0085}' || c == '\U{00A0}'
    || c == '\U{1680}' || ('\U{2000}' <= c <= '\U{200A}') || c == '\U{2028}' || c == '\U{2029}'
    || c == '\U{202F}' || c == '\U{205F}' || c == '\U{3000}'
  }

  /** `string.IsNullOrWhiteSpace`. */
  predicate IsNullOrWhiteSpace(s: Option<string>) {
    match s
    case None => true
    case Some(t) => forall i :: 0 <= i < |t| ==> IsWhiteSpace(t[i])
  }

  /** Upper-casing of one character as `StringComparer.OrdinalIgnoreCase` does it,
      restricted to the ASCII letters. */
  function FoldCase(c: char): (d: char)
    ensures 'a' <= c <= 'z' ==> 'A' <= d <= 'Z' && d as int == c as int - 32
    ensures !('a' <= c <= 'z') ==> d == c
  {
    if 'a' <= c <= 'z' then (c as int - 32) as char else c
  }

  /** `StringComparer.OrdinalIgnoreCase.Equals(a, b)` on non-null strings. */
  predicate EqualsIgnoreCase(a: string, b: string) {
    |a| == |b| && forall i :: 0 <= i < |a| ==> FoldCase(a[i]) == FoldCase(b[i])
  }
}
