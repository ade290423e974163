/**
 `url_with_redirect_query`: the login URL with the requested URI added under the
 redirect field, and the redirect handler built on it.
 */
module Redirect {
  import opened FormCodec
  import opened FormLaws
  import opened Sequences
  import opened UriLaws
  import opened Uris
  import opened Utf8
  import opened Wrappers

  function UpdateQuery(uri: Uri, newQuery: Bytes): Result<Uri, HttpError> {
    var updated := ExtendPairs(newQuery, Parse(uri.QueryOrEmpty()));
    WithPathAndQuery(uri.origin, uri.path + [QUESTION] + updated)
  }

  function RedirectPair(field: Bytes, requested: Uri): Bytes {
    field + [EQUALS] + UriEncode(requested.Print())
  }

  function UrlWithRedirectQuery(url: Bytes, field: Bytes, requested: Uri): Result<Uri, HttpError> {
    match ParseUri(url)
    case Err(e) => Err(e)
    case Ok(uri) =>
      if HasKey(Parse(uri.QueryOrEmpty()), field) then Ok(uri)
      else UpdateQuery(uri, RedirectPair(field, requested))
  }

  // ---- Fields that may be inserted as they are ----

  predicate HasEscape(s: Bytes) { s != [] && (StartsEscape(s) || HasEscape(s[1..])) }

  /** Legal in a query, and read by the form parser as itself. */
  predicate FormSafe(field: Bytes) {
    && IsQuery(field) && AMPERSAND !in field && EQUALS !in field && PLUS !in field
    && !HasEscape(field)
  }

  lemma {:induction false} PercentDecodeKeeps(s: Bytes)
    requires !HasEscape(s)
    ensures PercentDecode(s) == s
  {
    if s != [] {
      PercentDecodeKeeps(s[1..]);
    }
  }

  lemma FormSafeReadsAsItself(field: Bytes)
    requires FormSafe(field)
    ensures DecodeText(field) == field
  {
    ReplacePlusKeeps(field);
    PercentDecodeKeeps(field);
    AsciiIsValid(field);
    LossyKeepsValid(field);
  }

  // ---- The rebuilt query is legal ----

  lemma {:induction false} FormEncodeIsQuery(s: Bytes)
    ensures IsQuery(FormEncode(s))
  {
    if s != [] {
      FormEncodeIsQuery(s[1..]);
    }
  }

  lemma {:induction false} UriEncodeIsQuery(s: Bytes)
    ensures IsQuery(UriEncode(s))
  {
    if s != [] {
      UriEncodeIsQuery(s[1..]);
    }
  }

  lemma IsQueryConcat(a: Bytes, b: Bytes)
    ensures IsQuery(a + b) <==> IsQuery(a) && IsQuery(b)
  {
    if IsQuery(a + b) {
      assert forall i | 0 <= i < |a| :: a[i] == (a + b)[i];
      assert forall i | 0 <= i < |b| :: b[i] == (a + b)[|a| + i];
    }
  }

  lemma AppendPairIsQuery(target: Bytes, pair: Pair)
    requires IsQuery(target)
    ensures IsQuery(AppendPair(target, pair))
  {
    FormEncodeIsQuery(pair.0);
    FormEncodeIsQuery(pair.1);
    IsQueryConcat(FormEncode(pair.0), [EQUALS]);
    IsQueryConcat(FormEncode(pair.0) + [EQUALS], FormEncode(pair.1));
    var separator := if target == [] then [] else [AMPERSAND];
    IsQueryConcat(target, separator);
    IsQueryConcat(target + separator, EncodePair(pair));
  }

  lemma {:induction false} ExtendPairsIsQuery(target: Bytes, pairs: seq<Pair>)
    requires IsQuery(target)
    ensures IsQuery(ExtendPairs(target, pairs))
    decreases |pairs|
  {
    if pairs != [] {
      AppendPairIsQuery(target, pairs[0]);
      ExtendPairsIsQuery(AppendPair(target, pairs[0]), pairs[1..]);
    }
  }

  /** A legal new query is taken over whole; everything else of the URI stays. */
  lemma UpdatedUri(uri: Uri, newQuery: Bytes)
    requires uri.WellFormed() && IsQuery(newQuery)
    ensures UpdateQuery(uri, newQuery) == Ok(uri.(query := Some(ExtendPairs(newQuery, Parse(uri.QueryOrEmpty())))))
  {
    var updated := ExtendPairs(newQuery, Parse(uri.QueryOrEmpty()));
    ExtendPairsIsQuery(newQuery, Parse(uri.QueryOrEmpty()));
    ParsePrintedPath(uri.path, Some(updated));
    ConcatAssociative(uri.path, [QUESTION], updated);
  }

  lemma RedirectPairParses(field: Bytes, requested: Uri)
    requires FormSafe(field) && Valid(requested.Print())
    ensures IsQuery(RedirectPair(field, requested))
    ensures Parse(RedirectPair(field, requested)) == [(field, requested.Print())]
  {
    var encoded := UriEncode(requested.Print());
    UriEncodeRoundTrip(requested.Print());
    UriEncodeIsQuery(requested.Print());
    FormSafeReadsAsItself(field);
    ParseOnePair(field, encoded);
    IsQueryConcat(field, [EQUALS]);
    IsQueryConcat(field + [EQUALS], encoded);
  }

  /** What a correct redirect is: the requested URI first, then the old pairs, nothing else changed. */
  ghost predicate Carries(result: Result<Uri, HttpError>, uri: Uri, field: Bytes, requested: Uri) {
    && result.Ok? && result.value.query.Some?
    && result.value.origin == uri.origin && result.value.path == uri.path
    && Parse(result.value.query.value) == [(field, requested.Print())] + Parse(uri.QueryOrEmpty())
  }

  lemma RedirectRoundTrip(url: Bytes, field: Bytes, requested: Uri)
    requires ParseUri(url).Ok? && !HasKey(Parse(ParseUri(url).value.QueryOrEmpty()), field)
    requires FormSafe(field) && Valid(requested.Print())
    ensures Carries(UrlWithRedirectQuery(url, field, requested), ParseUri(url).value, field, requested)
  {
    var uri := ParseUri(url).value;
    ParsedUriIsWellFormed(url);
    RedirectPairParses(field, requested);
    UpdatedUri(uri, RedirectPair(field, requested));
    ParsedPairsAreValid(uri.QueryOrEmpty());
    ParseExtended(RedirectPair(field, requested), Parse(uri.QueryOrEmpty()));
  }

  /**
   A login URL that already names the field comes back with its text: up to a `#`, with
   a `/` for a missing path and its scheme name folded, it is printed as it was given.
   */
  lemma ExistingFieldIsKept(url: Bytes, field: Bytes, requested: Uri)
    requires ParseUri(url).Ok? && NamesField(ParseUri(url).value.QueryOrEmpty(), field)
    ensures UrlWithRedirectQuery(url, field, requested) == ParseUri(url)
    ensures var result := UrlWithRedirectQuery(url, field, requested);
            var text, h := FoldedScheme(url), IndexOf(url, HASH);
            && result.Ok? && |result.value.origin| <= h && result.value.origin == text[..|result.value.origin|]
            && result.value.Print() == InsertedSlash(text[..h], |result.value.origin|)
  {
    HasKeyIff(ParseUri(url).value.QueryOrEmpty(), field);
    ParsedUriKeepsText(url);
  }

  /** A field that stands in the query without a value is present, too. */
  lemma BareFieldIsKept(path: Bytes, field: Bytes, requested: Uri)
    requires path != [] && path[0] == 0x2F && forall i | 0 <= i < |path| :: PathChar(path[i])
    requires field != [] && FormSafe(field) && |path| + 1 + |field| <= 65534
    ensures UrlWithRedirectQuery(path + [0x3F] + field, field, requested) == Ok(Uri([], path, Some(field)))
  {
    BareNameParses(path, field, field);
  }

  /** Any other name without a value stays behind the redirect pair, with `=` after it. */
  lemma BareNameStays(path: Bytes, name: Bytes, field: Bytes, requested: Uri)
    requires path != [] && path[0] == 0x2F && forall i | 0 <= i < |path| :: PathChar(path[i])
    requires name != [] && FormSafe(name) && name != field && FormSafe(field) && |path| + 1 + |name| <= 65534
    ensures var query := field + [0x3D] + UriEncode(requested.Print()) + [0x26] + FormEncode(name) + [0x3D];
            UrlWithRedirectQuery(path + [0x3F] + name, field, requested) == Ok(Uri([], path, Some(query)))
  {
    var uri, pair := Uri([], path, Some(name)), RedirectPair(field, requested);
    BareNameParses(path, name, field);
    PairIsQuery(field, requested);
    UpdatedUri(uri, pair);
    OneBareName(pair, name);
  }

  lemma BareNameParses(path: Bytes, name: Bytes, field: Bytes)
    requires path != [] && path[0] == 0x2F && forall i | 0 <= i < |path| :: PathChar(path[i])
    requires name != [] && FormSafe(name) && |path| + 1 + |name| <= 65534
    ensures var uri := Uri([], path, Some(name));
            ParseUri(path + [0x3F] + name) == Ok(uri) && uri.WellFormed()
    ensures HasKey(Parse(name), field) <==> name == field
    ensures Parse(name) == [(name, [])]
  {
    QueryTextIff(name);
    PathTextIff(path);
    PathUrlParses(path, name);
    BareNameReads(name, field);
  }

  lemma BareNameReads(name: Bytes, field: Bytes)
    requires name != [] && FormSafe(name)
    ensures Parse(name) == [(name, [])] && (HasKey(Parse(name), field) <==> name == field)
  {
    ParseBareName(name);
    FormSafeReadsAsItself(name);
    assert Parse(name)[0] == (name, []);
  }

  lemma PairIsQuery(field: Bytes, requested: Uri)
    requires IsQuery(field)
    ensures IsQuery(RedirectPair(field, requested))
  {
    UriEncodeIsQuery(requested.Print());
    IsQueryConcat(field, [EQUALS]);
    IsQueryConcat(field + [EQUALS], UriEncode(requested.Print()));
  }

  lemma OneBareName(target: Bytes, name: Bytes)
    requires target != []
    ensures ExtendPairs(target, [(name, [])]) == target + [0x26] + FormEncode(name) + [0x3D]
  {
    var pair: Pair := (name, []);
    assert [pair][1..] == [];
    assert ExtendPairs(target, [pair]) == AppendPair(target, pair);
    assert EncodePair(pair) == FormEncode(name) + [EQUALS];
    ConcatAssociative(target + [AMPERSAND], FormEncode(name), [EQUALS]);
  }

  /** A first application either keeps the URL or leads to a query that names the field. */
  lemma RedirectNamesField(url: Bytes, field: Bytes, requested: Uri)
    requires FormSafe(field) && Valid(requested.Print())
    requires UrlWithRedirectQuery(url, field, requested).Ok?
    ensures var u := UrlWithRedirectQuery(url, field, requested).value;
            && u.WellFormed() && u.query.Some? && HasKey(Parse(u.QueryOrEmpty()), field)
            && (u.Rooted() <==> url != [ASTERISK])
  {
    var u := UrlWithRedirectQuery(url, field, requested).value;
    var uri := ParseUri(url).value;
    ParsedUriIsWellFormed(url);
    if !HasKey(Parse(uri.QueryOrEmpty()), field) {
      RedirectRoundTrip(url, field, requested);
      RedirectPairParses(field, requested);
      UpdatedUri(uri, RedirectPair(field, requested));
      ExtendPairsIsQuery(RedirectPair(field, requested), Parse(uri.QueryOrEmpty()));
      assert Parse(u.QueryOrEmpty())[0].0 == field;
    } else {
      assert Parse([]) == [];
    }
  }

  /**
   Redirecting to the printed result again changes nothing, whatever is requested then;
   only for the login URL `*`, or when it is too long, is the printed result no URL.
   */
  lemma RedirectIsIdempotentIff(url: Bytes, field: Bytes, requested: Uri, again: Uri)
    requires FormSafe(field) && Valid(requested.Print())
    requires UrlWithRedirectQuery(url, field, requested).Ok?
    ensures var u := UrlWithRedirectQuery(url, field, requested).value;
            UrlWithRedirectQuery(u.Print(), field, again) == Ok(u) <==>
              url != [ASTERISK] && |u.Print()| <= MAX_URI_LENGTH
  {
    var u := UrlWithRedirectQuery(url, field, requested).value;
    RedirectNamesField(url, field, requested);
    PrintRoundTripIff(u);
    if !u.Rooted() {
      AsteriskQueryIsNoUri(u);
    }
  }
}
