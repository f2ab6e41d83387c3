/** The older, function-style access to the `urls` table (database/urls.py),
    used by routers/url.py: URL validation and normalisation, the creation
    checks in their order, and the allow-listed projection. */
module UrlDatabase {
  import opened Core
  import opened UrlRepository
  import Text
  import UrlService

  /** What `urlparse` yields that the code looks at, or the `ValueError` it
      raises on text it cannot split (an unclosed IPv6 bracket, say), with
      that error's message. The parser itself is supplied by the caller. */
  datatype ParsedUrl = ParsedUrl(scheme: string, netloc: string) | Unparsable(message: string)

  const InvalidUrlFormat := "Invalid URL format"

  const Http := "http"
  const Https := "https"

  /** A parse the validator accepts: a web scheme and a host part. */
  predicate WebUrl(p: ParsedUrl) {
    p.ParsedUrl? && (p.scheme == Http || p.scheme == Https) && p.netloc != ""
  }

  /** The message a rejected URL is answered with: the parser's own
      `ValueError` text when it could not split the URL, otherwise the
      validator's. */
  function RejectionMessage(p: ParsedUrl): string {
    if p.Unparsable? then p.message else InvalidUrlFormat
  }

  /** `validate_url`: accepted exactly when the URL parses with scheme
      `http` or `https` and a non-empty network location; the accepted URL
      is returned with surrounding whitespace removed (the check itself
      looks at the unstripped text), so it is already in normal form. Both
      the parser's `ValueError` and the validator's own escape to the
      caller, each with its message. */
  function ValidateUrl(url: string, urlparse: string -> ParsedUrl): (r: Result<string>)
    ensures r.Ok? <==> WebUrl(urlparse(url))
    ensures r.Err? ==> r.error == Error(400, RejectionMessage(urlparse(url)))
    ensures r.Ok? ==> r.value == Text.Strip(url) && Text.Strip(r.value) == r.value
  {
    match urlparse(url)
    case Unparsable(m) => Err(Error(400, m))
    case ParsedUrl(_, _) =>
      if !WebUrl(urlparse(url)) then Err(Error(400, InvalidUrlFormat))
      else
        Text.StripIdempotent(url);
        Ok(Text.Strip(url))
  }

  /** The status, the message and the table after `url_add`. */
  datatype AddReply = AddReply(status: int, message: string, store: LinkStore)

  const CodeExistsMessage := "Short code already exists!"
  const DuplicateMessage := "URL already added by this user"
  const InvertedWindowMessage := "valid_from must be earlier than valid_until"
  const AddedMessage := "URL added successfully"

  /** `url_add`: 409 for a taken code, then 400 for a URL that fails
      validation or parsing (with the `ValueError`'s message), then 422 for an inverted window, then 409 when the user
      already has the normalised URL; otherwise the row is inserted with
      the normalised URL and 201 is answered. The table changes only on
      201. */
  function UrlAdd(s: LinkStore, userId: int, originalUrl: string, shortCode: string,
                  password: Option<string>, validFrom: Option<TimeOfDay>, validUntil: Option<TimeOfDay>,
                  allowProxy: bool, urlparse: string -> ParsedUrl, now: Timestamp): (r: AddReply)
    requires Valid(s)
    ensures Valid(r.store)
    ensures r.status != 201 ==> r.store == s
    ensures ShortcodeExists(s, shortCode) ==> r == AddReply(409, CodeExistsMessage, s)
    ensures !ShortcodeExists(s, shortCode) && ValidateUrl(originalUrl, urlparse).Err? ==>
      r == AddReply(400, RejectionMessage(urlparse(originalUrl)), s)
    ensures (!ShortcodeExists(s, shortCode) && ValidateUrl(originalUrl, urlparse).Ok?
             && UrlService.InvertedWindow(validFrom, validUntil)) ==>
      r == AddReply(422, InvertedWindowMessage, s)
    ensures (!ShortcodeExists(s, shortCode) && ValidateUrl(originalUrl, urlparse).Ok?
             && !UrlService.InvertedWindow(validFrom, validUntil)
             && ExistsByUserAndUrl(s, userId, Text.Strip(originalUrl))) ==>
      r == AddReply(409, DuplicateMessage, s)
    ensures r.status == 201 <==>
      && !ShortcodeExists(s, shortCode) && ValidateUrl(originalUrl, urlparse).Ok?
      && !UrlService.InvertedWindow(validFrom, validUntil)
      && !ExistsByUserAndUrl(s, userId, Text.Strip(originalUrl))
    ensures r.status == 201 ==>
      && r.message == AddedMessage
      && r.store.links.Keys == s.links.Keys + {shortCode}
      && (forall c | c in s.links :: r.store.links[c] == s.links[c])
      && r.store.links[shortCode].originalUrl == Text.Strip(originalUrl)
      && r.store.links[shortCode].userId == userId
      && r.store.links[shortCode].password == password
      && r.store.links[shortCode].validFrom == validFrom
      && r.store.links[shortCode].validUntil == validUntil
      && r.store.links[shortCode].allowProxy == allowProxy
      && r.store.links[shortCode].expiresAt == now + DefaultLifetime
  {
    if ShortcodeExists(s, shortCode) then AddReply(409, CodeExistsMessage, s)
    else match ValidateUrl(originalUrl, urlparse)
      case Err(e) => AddReply(e.status, e.message, s)
      case Ok(url) =>
        if UrlService.InvertedWindow(validFrom, validUntil) then AddReply(422, InvertedWindowMessage, s)
        else if ExistsByUserAndUrl(s, userId, url) then AddReply(409, DuplicateMessage, s)
        else
          var ins := Add(s, userId, url, shortCode, password, validFrom, validUntil, allowProxy, now);
          AddReply(201, AddedMessage, ins.value.store)
  }

  /** Normalisation makes surrounding whitespace irrelevant to duplicate
      detection: once a URL is stored, the same URL with other surrounding
      whitespace is refused for that user under any new code. */
  lemma WhitespaceVariantIsDuplicate(s: LinkStore, userId: int, url: string, code: string,
                                     password: Option<string>, validFrom: Option<TimeOfDay>,
                                     validUntil: Option<TimeOfDay>, allowProxy: bool,
                                     urlparse: string -> ParsedUrl, now: Timestamp,
                                     url2: string, code2: string, later: Timestamp)
    requires Valid(s)
    requires UrlAdd(s, userId, url, code, password, validFrom, validUntil, allowProxy, urlparse, now).status == 201
    requires Text.Strip(url2) == Text.Strip(url)
    requires ValidateUrl(url2, urlparse).Ok?
    requires code2 != code && code2 !in s.links
    requires !UrlService.InvertedWindow(validFrom, validUntil)
    ensures var t := UrlAdd(s, userId, url, code, password, validFrom, validUntil, allowProxy, urlparse, now).store;
      UrlAdd(t, userId, url2, code2, password, validFrom, validUntil, allowProxy, urlparse, later)
        == AddReply(409, DuplicateMessage, t)
  {
    var t := UrlAdd(s, userId, url, code, password, validFrom, validUntil, allowProxy, urlparse, now).store;
    assert code2 !in t.links;
    assert !ShortcodeExists(t, code2);
    var l := t.links[code];
    assert l.userId == userId && l.originalUrl == Text.Strip(url2);
    assert l in FetchByUserId(t, userId);
    assert ExistsByUserAndUrl(t, userId, Text.Strip(url2));
  }

  /** `url_fetchrow`: `None` for an empty field list or when none of the
      names is a column (those are dropped silently), `None` for an unknown
      code, and otherwise the row restricted to the named columns. */
  function UrlFetchrow(s: LinkStore, code: string, fields: seq<string>): (r: Option<Row>)
    requires Valid(s)
    ensures r.Some? <==> (exists f | f in fields :: f in Columns) && ShortcodeExists(s, code)
    ensures r.Some? ==>
      && r.value.Keys == (set f | f in fields && f in Columns)
      && forall f | f in r.value :: r.value[f] == Column(s.links[code], f)
  {
    if |fields| == 0 then None
    else
      var kept := KeepAllowed(fields, Columns);
      if |kept| == 0 then None
      else
        assert kept[0] in kept;
        match FetchrowByShortcode(s, code, kept)
        case Err(_) => None
        case Ok(row) => row
  }
}
