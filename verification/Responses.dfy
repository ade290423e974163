/**
 The response handlers of a denied request: `SimpleResponseHandler`, whose header
 loop runs over an unordered map, and `RedirectHandler`.
 */
module Responses {
  import opened FormCodec
  import opened FormLaws
  import opened Redirect
  import opened RedirectExact
  import opened Sequences
  import opened Uris
  import opened Wrappers
  import Utf8

  type Header = (string, string)
  type Headers = map<string, string>

  const TEMPORARY_REDIRECT := 307
  const INTERNAL_SERVER_ERROR := 500

  const CONTENT_TYPE := "content-type"

  datatype Response = Response(status: int, headers: Headers, body: string)

  // ---- Header names and values of the `http` crate ----

  predicate IsTokenChar(c: char) {
    || '0' <= c <= '9' || 'A' <= c <= 'Z' || 'a' <= c <= 'z'
    || c in "!#$%&'*+-.^_`|~"
  }

  predicate IsHeaderName(name: string) {
    name != "" && forall i | 0 <= i < |name| :: IsTokenChar(name[i])
  }

  predicate IsHeaderValue(value: string) {
    forall i | 0 <= i < |value| :: value[i] == '\t' || ' ' <= value[i] <= '~'
  }

  /** Header names are stored in lower case. */
  function Lower(name: string): string {
    if name == "" then ""
    else [if 'A' <= name[0] <= 'Z' then (name[0] as int + 32) as char else name[0]] + Lower(name[1..])
  }

  predicate IsValid(h: Header) { IsHeaderName(h.0) && IsHeaderValue(h.1) }

  // ---- SimpleResponseHandler ----

  datatype SimpleResponseHandler =
    SimpleResponseHandler(status: int, body: string, contentType: string, headers: Headers)

  /** `order` lists every entry of the map once, in some order. */
  ghost predicate Enumerates(order: seq<Header>, m: Headers) {
    && (forall i | 0 <= i < |order| :: order[i].0 in m && m[order[i].0] == order[i].1)
    && (forall i, j | 0 <= i < j < |order| :: order[i].0 != order[j].0)
    && (forall name | name in m :: (name, m[name]) in order)
  }

  /** The headers after inserting the valid entries of `order` one after the other. */
  function Applied(start: Headers, order: seq<Header>): Headers {
    if order == [] then start
    else
      var last, before := order[|order| - 1], Applied(start, order[..|order| - 1]);
      if IsValid(last) then before[Lower(last.0) := last.1] else before
  }

  function InitialHeaders(handler: SimpleResponseHandler): Headers {
    if IsHeaderValue(handler.contentType) then map[CONTENT_TYPE := handler.contentType] else map[]
  }

  /** The headers carry the content type if it is a legal header value, and none otherwise. */
  ghost predicate HasContentType(headers: Headers, contentType: string) {
    if forall c | c in contentType :: c as int == 9 || 32 <= c as int < 127
    then "content-type" in headers && headers["content-type"] == contentType
    else "content-type" !in headers
  }

  method Handle(handler: SimpleResponseHandler, order: seq<Header>) returns (response: Response)
    requires Enumerates(order, handler.headers)
    ensures response.status == handler.status && response.body == handler.body
    ensures response.headers == Applied(InitialHeaders(handler), order)
    ensures CollisionFree(handler.headers) ==> IsOverride(response.headers, InitialHeaders(handler), handler.headers)
    ensures !Names(handler.headers, CONTENT_TYPE) ==> HasContentType(response.headers, handler.contentType)
  {
    var headers: Headers := map[];
    if IsHeaderValue(handler.contentType) {
      headers := headers[CONTENT_TYPE := handler.contentType];
    }
    for i := 0 to |order|
      invariant headers == Applied(InitialHeaders(handler), order[..i])
    {
      assert order[..i + 1][..i] == order[..i];
      var (name, value) := order[i];
      if IsHeaderName(name) && IsHeaderValue(value) {
        headers := headers[Lower(name) := value];
      }
    }
    assert order[..|order|] == order;
    HeadersAfterLoop(handler, order);
    response := Response(handler.status, headers, handler.body);
  }

  lemma HeadersAfterLoop(handler: SimpleResponseHandler, order: seq<Header>)
    requires Enumerates(order, handler.headers)
    ensures var headers := Applied(InitialHeaders(handler), order);
            && (CollisionFree(handler.headers) ==> IsOverride(headers, InitialHeaders(handler), handler.headers))
            && (!Names(handler.headers, CONTENT_TYPE) ==> HasContentType(headers, handler.contentType))
  {
    if CollisionFree(handler.headers) {
      AppliedIsOverride(InitialHeaders(handler), order, handler.headers);
    }
    if !Names(handler.headers, CONTENT_TYPE) {
      ContentTypeStays(handler, order);
    }
  }

  /** Entries for other names leave the content type, or its absence. */
  lemma ContentTypeStays(handler: SimpleResponseHandler, order: seq<Header>)
    requires Enumerates(order, handler.headers) && !Names(handler.headers, CONTENT_TYPE)
    ensures HasContentType(Applied(InitialHeaders(handler), order), handler.contentType)
  {
    AppliedAt(InitialHeaders(handler), order, CONTENT_TYPE);
    HeaderValueIff(handler.contentType);
  }

  lemma HeaderValueIff(value: string)
    ensures IsHeaderValue(value) <==> forall c | c in value :: c as int == 9 || 32 <= c as int < 127
  {
    assert forall i | 0 <= i < |value| :: value[i] in value;
  }

  /** A name is valid if it consists of printable characters other than the delimiters. */
  lemma HeaderNameIff(name: string)
    ensures IsHeaderName(name) <==>
              name != "" && forall c | c in name :: 33 <= c as int < 127 && c !in "\"(),/:;<=>?@[\\]{}"
  {
    forall c: char ensures IsTokenChar(c) <==> 33 <= c as int < 127 && c !in "\"(),/:;<=>?@[\\]{}" {
      TokenCharIff(c);
    }
    assert forall i | 0 <= i < |name| :: name[i] in name;
  }

  lemma TokenCharIff(c: char)
    ensures IsTokenChar(c) <==> 33 <= c as int < 127 && c !in "\"(),/:;<=>?@[\\]{}"
  {}

  /** Names are folded letter by letter; nothing else changes. */
  lemma {:induction false} LowerAt(name: string)
    ensures |Lower(name)| == |name|
    ensures forall i | 0 <= i < |name| ::
              Lower(name)[i] as int == name[i] as int + if 65 <= name[i] as int <= 90 then 32 else 0
  {
    if name != "" {
      LowerAt(name[1..]);
    }
  }

  // ---- The loop's result does not depend on the order ----

  /** Valid entries whose names differ only in case carry the same value. */
  ghost predicate CollisionFree(m: Headers) {
    forall a, b | a in m && b in m && IsValid((a, m[a])) && IsValid((b, m[b])) && Lower(a) == Lower(b) :: m[a] == m[b]
  }

  ghost predicate Names(m: Headers, h: string) {
    exists name | name in m :: IsValid((name, m[name])) && Lower(name) == h
  }

  /** `result` holds the valid entries of `m` and, for the other names, those of `start`. */
  ghost predicate IsOverride(result: Headers, start: Headers, m: Headers) {
    && (forall h :: h in result <==> h in start || Names(m, h))
    && (forall name | name in m && IsValid((name, m[name])) :: Lower(name) in result && result[Lower(name)] == m[name])
    && (forall h | h in result && !Names(m, h) :: h in start && result[h] == start[h])
  }

  /** The last valid entry for a name wins; without one, `start` shows through. */
  lemma {:induction false} AppliedAt(start: Headers, order: seq<Header>, h: string)
    ensures h in Applied(start, order) ==>
              || (h in start && Applied(start, order)[h] == start[h]
                  && forall i | 0 <= i < |order| :: IsValid(order[i]) ==> Lower(order[i].0) != h)
              || (exists i | 0 <= i < |order| ::
                    IsValid(order[i]) && Lower(order[i].0) == h && Applied(start, order)[h] == order[i].1)
    ensures h !in Applied(start, order) ==>
              h !in start && forall i | 0 <= i < |order| :: IsValid(order[i]) ==> Lower(order[i].0) != h
  {
    if order != [] {
      var n := |order| - 1;
      var before := order[..n];
      AppliedAt(start, before, h);
      assert forall i | 0 <= i < n :: before[i] == order[i];
    }
  }

  lemma AppliedIsOverride(start: Headers, order: seq<Header>, m: Headers)
    requires Enumerates(order, m) && CollisionFree(m)
    ensures IsOverride(Applied(start, order), start, m)
  {
    var result := Applied(start, order);
    forall h ensures h in result <==> h in start || Names(m, h)
             ensures h in result && !Names(m, h) ==> h in start && result[h] == start[h]
    {
      AppliedAt(start, order, h);
      if Names(m, h) {
        var name :| name in m && IsValid((name, m[name])) && Lower(name) == h;
        assert (name, m[name]) in order;
      }
    }
    forall name | name in m && IsValid((name, m[name]))
      ensures Lower(name) in result && result[Lower(name)] == m[name]
    {
      AppliedAt(start, order, Lower(name));
      assert (name, m[name]) in order;
    }
  }

  /** The same entries, with the one at `i` moved to the end. */
  function MovedLast(order: seq<Header>, i: nat): seq<Header>
    requires i < |order|
  {
    order[..i] + order[i + 1..] + [order[i]]
  }

  function MovedFrom(order: seq<Header>, i: nat, k: nat): (j: nat)
    requires i < |order| && k < |order|
    ensures j < |order| && MovedLast(order, i)[k] == order[j]
  {
    if k < i then k else if k < |order| - 1 then k + 1 else i
  }

  lemma MovedLastEnumerates(order: seq<Header>, m: Headers, i: nat)
    requires Enumerates(order, m) && i < |order|
    ensures Enumerates(MovedLast(order, i), m)
  {
    var moved := MovedLast(order, i);
    forall k | 0 <= k < |moved| ensures moved[k].0 in m && m[moved[k].0] == moved[k].1 {
      assert moved[k] == order[MovedFrom(order, i, k)];
    }
    forall k, l | 0 <= k < l < |moved| ensures moved[k].0 != moved[l].0 {
      var from, to := MovedFrom(order, i, k), MovedFrom(order, i, l);
      assert from != to && moved[k] == order[from] && moved[l] == order[to];
    }
    forall name | name in m ensures (name, m[name]) in moved {
      var j :| 0 <= j < |order| && order[j] == (name, m[name]);
      var k := if j < i then j else if j == i then |order| - 1 else j - 1;
      assert MovedFrom(order, i, k) == j;
    }
  }

  /** Every iteration order gives the same headers exactly when no two valid names clash. */
  lemma OrderIndependentIff(start: Headers, order: seq<Header>, m: Headers)
    requires Enumerates(order, m)
    ensures CollisionFree(m) <==>
              (forall other | Enumerates(other, m) :: Applied(start, other) == Applied(start, order))
  {
    if CollisionFree(m) {
      AppliedIsOverride(start, order, m);
      forall other | Enumerates(other, m) ensures Applied(start, other) == Applied(start, order) {
        AppliedIsOverride(start, other, m);
        OverrideIsUnique(Applied(start, other), Applied(start, order), start, m);
      }
    } else {
      var a, b :| a in m && b in m && IsValid((a, m[a])) && IsValid((b, m[b])) && Lower(a) == Lower(b) && m[a] != m[b];
      var i :| 0 <= i < |order| && order[i] == (a, m[a]);
      var j :| 0 <= j < |order| && order[j] == (b, m[b]);
      MovedLastEnumerates(order, m, i);
      MovedLastEnumerates(order, m, j);
      assert Applied(start, MovedLast(order, i))[Lower(a)] == m[a];
      assert Applied(start, MovedLast(order, j))[Lower(b)] == m[b];
    }
  }

  lemma OverrideIsUnique(x: Headers, y: Headers, start: Headers, m: Headers)
    requires IsOverride(x, start, m) && IsOverride(y, start, m)
    ensures x == y
  {
    assert x.Keys == y.Keys;
    forall h | h in x ensures x[h] == y[h] {
      if Names(m, h) {
        var name :| name in m && IsValid((name, m[name])) && Lower(name) == h;
      }
    }
  }

  // ---- RedirectHandler ----

  datatype RedirectHandler = RedirectHandler(redirectField: Option<Utf8.Bytes>, loginUrl: Option<Utf8.Bytes>) {
    function LoginUrl(): Utf8.Bytes { loginUrl.GetOr(DEFAULT_LOGIN_URL) }

    function RedirectField(): Utf8.Bytes { redirectField.GetOr(DEFAULT_REDIRECT_FIELD) }
  }

  datatype RedirectResponse = Redirected(location: Utf8.Bytes) | RedirectFailed

  const DEFAULT_LOGIN_URL: Utf8.Bytes := [SLASH, 0x73, 0x69, 0x67, 0x6E, 0x69, 0x6E]  // /signin
  const DEFAULT_REDIRECT_FIELD: Utf8.Bytes := [0x6E, 0x65, 0x78, 0x74]  // next

  function HandleRedirect(handler: RedirectHandler, requested: Uri): RedirectResponse {
    match UrlWithRedirectQuery(handler.LoginUrl(), handler.RedirectField(), requested)
    case Ok(url) => Redirected(url.Print())
    case Err(_) => RedirectFailed
  }

  function Status(response: RedirectResponse): int {
    if response.Redirected? then TEMPORARY_REDIRECT else INTERNAL_SERVER_ERROR
  }

  /** The handler uses this login URL and this field: the ones that were set, and `/signin` and `next` otherwise. */
  ghost predicate Configures(handler: RedirectHandler, url: Utf8.Bytes, field: Utf8.Bytes) {
    && (match handler.loginUrl
        case Some(given) => url == given
        case None => url == [0x2F, 0x73, 0x69, 0x67, 0x6E, 0x69, 0x6E])
    && (match handler.redirectField
        case Some(given) => field == given
        case None => field == [0x6E, 0x65, 0x78, 0x74])
  }

  /** What the location says when it is read back; `*` with a query, or what is too long, is no URL at all. */
  ghost predicate ReadsBack(location: Utf8.Bytes, url: Utf8.Bytes, login: Uri, field: Utf8.Bytes, requested: Uri) {
    if url == [ASTERISK] || |location| > MAX_URI_LENGTH then ParseUri(location).Err?
    else if NamesField(login.QueryOrEmpty(), field) then ParseUri(location) == Ok(login)
    else Carries(ParseUri(location), login, field, requested)
  }

  lemma RedirectReadsBack(url: Utf8.Bytes, login: Uri, field: Utf8.Bytes, requested: Uri)
    requires ParseUri(url) == Ok(login) && FormSafe(field) && Utf8.Valid(requested.Print())
    ensures UrlWithRedirectQuery(url, field, requested).Ok?
    ensures ReadsBack(UrlWithRedirectQuery(url, field, requested).value.Print(), url, login, field, requested)
  {
    HasKeyIff(login.QueryOrEmpty(), field);
    if !NamesField(login.QueryOrEmpty(), field) {
      RedirectRoundTrip(url, field, requested);
    }
    var u := UrlWithRedirectQuery(url, field, requested).value;
    RedirectNamesField(url, field, requested);
    if u.Rooted() {
      PrintRoundTripIff(u);
    } else {
      AsteriskQueryIsNoUri(u);
    }
  }

  /**
   The behaviour contract of redirect fallbacks: with a usable login URL and a
   form-safe field the answer is a redirect whose location, read back, keeps an
   explicit redirect parameter and otherwise starts with the requested URI.
   */
  lemma RedirectContract(handler: RedirectHandler, url: Utf8.Bytes, field: Utf8.Bytes, login: Uri, requested: Uri)
    requires Configures(handler, url, field) && ParseUri(url) == Ok(login)
    requires FormSafe(field) && Utf8.Valid(requested.Print())
    ensures var response := HandleRedirect(handler, requested);
            && response.Redirected? && Status(response) == 307
            && ReadsBack(response.location, url, login, field, requested)
  {
    RedirectReadsBack(url, login, field, requested);
  }

  /** It answers 500 exactly when the login URL is malformed, or the field is and it has to be inserted. */
  lemma RedirectErrorIff(handler: RedirectHandler, url: Utf8.Bytes, field: Utf8.Bytes, requested: Uri)
    requires Configures(handler, url, field)
    ensures Status(HandleRedirect(handler, requested)) == 500 <==>
              || ParseUri(url).Err?
              || (!NamesField(ParseUri(url).value.QueryOrEmpty(), field) && !IsQuery(field[..IndexOf(field, HASH)]))
  {
    RedirectFailsIff(url, field, requested);
  }

  /** A login URL without a query gets the redirect pair as its whole query. */
  lemma BareRedirect(url: Utf8.Bytes, uri: Uri, field: Utf8.Bytes, requested: Uri)
    requires ParseUri(url) == Ok(uri) && uri.query.None? && IsQuery(field)
    ensures UrlWithRedirectQuery(url, field, requested) ==
              Ok(uri.(query := Some(field + [0x3D] + UriEncode(requested.Print()))))
  {
    ParsedUriIsWellFormed(url);
    UriEncodeIsQuery(requested.Print());
    IsQueryConcat(field, [EQUALS]);
    IsQueryConcat(field + [EQUALS], UriEncode(requested.Print()));
    UpdatedUri(uri, RedirectPair(field, requested));
    assert Parse([]) == [];
  }

  lemma DefaultLoginUrl()
    ensures ParseUri(DEFAULT_LOGIN_URL) == Ok(Uri([], DEFAULT_LOGIN_URL, None))
  {
    ParseBarePath(DEFAULT_LOGIN_URL);
  }

  /** With the default login URL and field every request is redirected to `/signin?next=...`. */
  lemma DefaultRedirect(requested: Uri)
    ensures var start: Utf8.Bytes :=
              [0x2F, 0x73, 0x69, 0x67, 0x6E, 0x69, 0x6E, 0x3F, 0x6E, 0x65, 0x78, 0x74, 0x3D];  // /signin?next=
            HandleRedirect(RedirectHandler(None, None), requested) == Redirected(start + UriEncode(requested.Print()))
  {
    DefaultLoginUrl();
    BareRedirect(DEFAULT_LOGIN_URL, Uri([], DEFAULT_LOGIN_URL, None), DEFAULT_REDIRECT_FIELD, requested);
    DefaultText(UriEncode(requested.Print()));
  }

  lemma DefaultText(encoded: Utf8.Bytes)
    ensures var start: Utf8.Bytes :=
              [0x2F, 0x73, 0x69, 0x67, 0x6E, 0x69, 0x6E, 0x3F, 0x6E, 0x65, 0x78, 0x74, 0x3D];  // /signin?next=
            var query := DEFAULT_REDIRECT_FIELD + [0x3D] + encoded;
            Uri([], DEFAULT_LOGIN_URL, Some(query)).Print() == start + encoded
  {
    var prefix := DEFAULT_LOGIN_URL + [QUESTION] + DEFAULT_REDIRECT_FIELD + [EQUALS];
    ConcatEmpty(DEFAULT_LOGIN_URL);
    ConcatAssociative(DEFAULT_REDIRECT_FIELD, [EQUALS], encoded);
    ConcatAssociative(DEFAULT_LOGIN_URL, [QUESTION], DEFAULT_REDIRECT_FIELD + [EQUALS] + encoded);
    ConcatAssociative(DEFAULT_LOGIN_URL + [QUESTION], DEFAULT_REDIRECT_FIELD + [EQUALS], encoded);
    ConcatAssociative(DEFAULT_LOGIN_URL + [QUESTION], DEFAULT_REDIRECT_FIELD, [EQUALS]);
  }
}
