/** Request bodies of the link endpoints (dto/schemas.py): the short-code
    constraint and the defaults a missing field takes. */
module Schemas {
  import opened Core

  /** The answer to a body that fails validation. */
  const ValidationFailed := Error(422, "Unprocessable Entity")

  /** One character of `[a-zA-Z0-9_-]`. */
  predicate IsShortCodeChar(c: char) {
    ('a' <= c <= 'z') || ('A' <= c <= 'Z') || ('0' <= c <= '9') || c == '_' || c == '-'
  }

  /** The short-code field constraint: `min_length=3`, `max_length=16`,
      `pattern=^[a-zA-Z0-9_-]+$` (the pattern is matched against the whole
      string; the `+` is subsumed by the minimum length). */
  predicate ValidShortCode(s: string) {
    3 <= |s| <= 16 && forall i :: 0 <= i < |s| ==> IsShortCodeChar(s[i])
  }

  /** The validator run on a submitted short code: the length bounds, then a
      scan of every character against the pattern's class. */
  method ValidateShortCode(s: string) returns (r: Result<string>)
    ensures r.Ok? <==> 3 <= |s| <= 16 && forall i :: 0 <= i < |s| ==> IsShortCodeChar(s[i])
    ensures r.Ok? ==> r.value == s
    ensures r.Err? ==> r.error == ValidationFailed
  {
    if |s| < 3 || |s| > 16 {
      return Err(ValidationFailed);
    }
    var i := 0;
    while i < |s|
      invariant 0 <= i <= |s|
      invariant forall k :: 0 <= k < i ==> IsShortCodeChar(s[k])
    {
      if !IsShortCodeChar(s[i]) {
        return Err(ValidationFailed);
      }
      i := i + 1;
    }
    return Ok(s);
  }

  /** A `POST` body for link creation as it arrives: every field may be
      missing. */
  datatype UrlAddBody = UrlAddBody(
    originalUrl: Option<string>,
    shortCode: Option<string>,
    password: Option<string>,
    validFrom: Option<TimeOfDay>,
    validUntil: Option<TimeOfDay>,
    expiresAt: Option<Timestamp>,
    allowProxy: Option<bool>)

  /** `UrlAddReq` after validation. */
  datatype UrlAddReq = UrlAddReq(
    originalUrl: string,
    shortCode: string,
    password: Option<string>,
    validFrom: Option<TimeOfDay>,
    validUntil: Option<TimeOfDay>,
    expiresAt: Option<Timestamp>,
    allowProxy: bool)

  /** Validation of a creation body. `original_url` and `short_code` are
      required; the URL must pass the `HttpUrl` check (`isHttpUrl`) and the
      short code its constraint. The optional fields keep what was sent and
      default to `None`; `allow_proxy` defaults to true. */
  function ParseUrlAddReq(body: UrlAddBody, isHttpUrl: string -> bool): (r: Result<UrlAddReq>)
    ensures r.Ok? <==>
      && body.originalUrl.Some? && isHttpUrl(body.originalUrl.value)
      && body.shortCode.Some? && ValidShortCode(body.shortCode.value)
    ensures r.Err? ==> r.error == ValidationFailed
    ensures r.Ok? ==>
      && r.value.originalUrl == body.originalUrl.value
      && r.value.shortCode == body.shortCode.value
      && 3 <= |r.value.shortCode| <= 16
      && r.value.password == body.password
      && r.value.validFrom == body.validFrom
      && r.value.validUntil == body.validUntil
      && r.value.expiresAt == body.expiresAt
      && (body.allowProxy.None? ==> r.value.allowProxy)
      && (body.allowProxy.Some? ==> r.value.allowProxy == body.allowProxy.value)
  {
    if body.originalUrl.None? || !isHttpUrl(body.originalUrl.value) then Err(ValidationFailed)
    else if body.shortCode.None? || !ValidShortCode(body.shortCode.value) then Err(ValidationFailed)
    else Ok(UrlAddReq(body.originalUrl.value, body.shortCode.value, body.password,
                      body.validFrom, body.validUntil, body.expiresAt, body.allowProxy.GetOr(true)))
  }

  /** `UrlUpdateReq`: every field optional, `None` when missing. */
  datatype UrlUpdateReq = UrlUpdateReq(
    originalUrl: Option<string>,
    shortCode: Option<string>,
    password: Option<string>,
    validFrom: Option<TimeOfDay>,
    validUntil: Option<TimeOfDay>,
    expiresAt: Option<Timestamp>,
    allowProxy: Option<bool>)

  /** Validation of an update body: nothing is required, but a URL that is
      present must pass `HttpUrl` and a short code that is present must obey
      the same constraint as at creation. */
  function ParseUrlUpdateReq(body: UrlUpdateReq, isHttpUrl: string -> bool): (r: Result<UrlUpdateReq>)
    ensures r.Ok? <==>
      && (body.originalUrl.Some? ==> isHttpUrl(body.originalUrl.value))
      && (body.shortCode.Some? ==> ValidShortCode(body.shortCode.value))
    ensures r.Ok? ==> r.value == body
    ensures r.Err? ==> r.error == ValidationFailed
  {
    if body.originalUrl.Some? && !isHttpUrl(body.originalUrl.value) then Err(ValidationFailed)
    else if body.shortCode.Some? && !ValidShortCode(body.shortCode.value) then Err(ValidationFailed)
    else Ok(body)
  }
}
