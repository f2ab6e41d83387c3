/** Shared vocabulary of the URL shortener model: optional values, the
    error-carrying result every service returns, database cell values and
    the clock. */
module Core {

  /** Python's `Optional[T]`: `None` or a present value. */
  datatype Option<+T> = None | Some(value: T) {
    function GetOr(default: T): T {
      match this
      case Some(v) => v
      case None => default
    }
  }

  /** A business error as the services raise it (`ServiceError` or
      `HTTPException`): an HTTP status code and a message. */
  datatype Error = Error(status: int, message: string)

  /** Either the value an operation returns or the error it raises. */
  datatype Result<+T> = Ok(value: T) | Err(error: Error)

  /** What the web framework answers when an exception the code does not
      catch escapes (a database constraint violation, a failed lookup, an
      `IndexError`). */
  const InternalError := Error(500, "Internal Server Error")

  /** Python truthiness of an optional string: neither `None` nor `""`. */
  predicate Truthy(s: Option<string>) {
    s.Some? && s.value != ""
  }

  /** One cell of a database row, as `dict(record)` exposes it. */
  datatype Value = Int(i: int) | Text(s: string) | Bool(b: bool) | Real(x: real) | Null

  /** A fetched row: column name to cell. */
  type Row = map<string, Value>

  function TextOrNull(s: Option<string>): Value {
    if s.Some? then Text(s.value) else Null
  }

  function IntOrNull(n: Option<int>): Value {
    if n.Some? then Int(n.value) else Null
  }

  function RealOrNull(x: Option<real>): Value {
    if x.Some? then Real(x.value) else Null
  }

  /** Naive UTC timestamps (`datetime.utcnow()`, `TIMESTAMP` columns) as
      microseconds since midnight of 0001-01-01. */
  type Timestamp = int

  const MicrosPerDay: int := 86_400_000_000

  /** A `datetime.time` (a `TIME` column): microseconds since midnight. */
  type TimeOfDay = t: int | 0 <= t < MicrosPerDay

  /** `dt.time()`: the time-of-day part of a timestamp. */
  function TimeOf(t: Timestamp): TimeOfDay {
    t % MicrosPerDay
  }

  /** `timedelta(days=n)` in microseconds. */
  function Days(n: int): int {
    n * MicrosPerDay
  }

  /** `filter(lambda f: f in allowed, fields)`: the listed names that are
      allowed, in their order. */
  function KeepAllowed(fields: seq<string>, allowed: set<string>): (r: seq<string>)
    ensures forall f :: f in r <==> f in fields && f in allowed
    ensures |r| <= |fields|
  {
    if |fields| == 0 then []
    else if fields[0] in allowed then [fields[0]] + KeepAllowed(fields[1..], allowed)
    else KeepAllowed(fields[1..], allowed)
  }

  /** A subset is no larger than its superset. */
  lemma {:induction false} SubsetCard<T>(a: set<T>, b: set<T>)
    requires a <= b
    ensures |a| <= |b|
    decreases |a|
  {
    if |a| > 0 {
      var x :| x in a;
      SubsetCard(a - {x}, b - {x});
    }
  }
}
