/**
 The part of `http::Uri` (release 0.2) that the redirect code uses: a URI with a
 path, in origin form (`/path?query`), absolute form
 (`scheme://authority/path?query`) or asterisk form (`*`).
 */
module Uris {
  import opened FormCodec
  import opened Sequences
  import opened Utf8
  import opened Wrappers

  datatype HttpError = InvalidUri

  /** `origin` is empty or the text `scheme://authority`. */
  datatype Uri = Uri(origin: Bytes, path: Bytes, query: Option<Bytes>) {
    function QueryOrEmpty(): Bytes { query.GetOr([]) }

    function Print(): Bytes {
      origin + path + (match query case Some(q) => [QUESTION] + q case None => [])
    }

    ghost predicate WellFormed() {
      && (origin == [] || IsOrigin(origin))
      && path != [] && IsPath(path) && (Rooted() || (origin == [] && path == [ASTERISK]))
      && (query.Some? ==> IsQuery(query.value))
    }

    predicate Rooted() { path != [] && path[0] == SLASH }
  }

  predicate IsPathByte(b: Byte) {
    b in [0x21, 0x22, 0x3D, 0x7B, 0x7C, 0x7D, 0x7E] || 0x24 <= b <= 0x3B || 0x40 <= b <= 0x5F || 0x61 <= b <= 0x7A
  }

  predicate IsQueryByte(b: Byte) {
    b in [0x21, 0x3D] || 0x24 <= b <= 0x3B || 0x3F <= b <= 0x7E
  }

  predicate IsPath(s: Bytes) { forall i | 0 <= i < |s| :: IsPathByte(s[i]) }

  predicate IsQuery(s: Bytes) { forall i | 0 <= i < |s| :: IsQueryByte(s[i]) }

  // ---- Parsing ----

  /** Everything from the first `#` on is dropped; an empty path reads as `/`. */
  function ParsePathAndQuery(s: Bytes): Option<(Bytes, Option<Bytes>)> {
    var text := s[..IndexOf(s, HASH)];
    var n := IndexOf(text, QUESTION);
    var path := if n == 0 then [SLASH] else text[..n];
    if !IsPath(path) then None
    else if n == |text| then Some((path, None))
    else if IsQuery(text[n + 1..]) then Some((path, Some(text[n + 1..])))
    else None
  }

  predicate IsSchemeByte(b: Byte) { IsAlpha(b) || IsDigit(b) || b in [0x2B, 0x2D, 0x2E] }

  function SchemeLength(s: Bytes): (n: nat)
    ensures n <= |s|
  {
    if s == [] || !IsSchemeByte(s[0]) then 0 else 1 + SchemeLength(s[1..])
  }

  const MAX_URI_LENGTH := 65534
  const MAX_SCHEME_LENGTH := 64
  const HTTP: Bytes := [0x68, 0x74, 0x74, 0x70]
  const HTTPS: Bytes := [0x68, 0x74, 0x74, 0x70, 0x73]
  const ASTERISK: Byte := 0x2A
  const AT: Byte := 0x40
  const OPEN_BRACKET: Byte := 0x5B
  const CLOSE_BRACKET: Byte := 0x5D

  predicate EndsAuthority(b: Byte) { b in [SLASH, QUESTION, HASH] }

  function AuthorityLength(s: Bytes): (n: nat)
    ensures n <= |s| && (n < |s| ==> EndsAuthority(s[n]))
  {
    if s == [] || EndsAuthority(s[0]) then 0 else 1 + AuthorityLength(s[1..])
  }

  predicate IsAuthorityByte(b: Byte) {
    0x21 <= b <= 0x7E && b !in [0x22, 0x25, 0x3C, 0x3E, 0x5C, 0x5E, 0x60, 0x7B, 0x7C, 0x7D]
  }

  /** What has been seen of an authority; user information and a bracketed address reset the counts. */
  datatype Seen = Seen(colons: nat, hasOpen: bool, hasClose: bool, percent: bool)

  function ScanAuthority(s: Bytes, seen: Seen): Option<Seen> {
    if s == [] then Some(seen)
    else if s[0] == COLON then ScanAuthority(s[1..], seen.(colons := seen.colons + 1))
    else if s[0] == OPEN_BRACKET then
      if seen.percent || seen.hasOpen then None else ScanAuthority(s[1..], seen.(hasOpen := true))
    else if s[0] == CLOSE_BRACKET then
      if !seen.hasOpen || seen.hasClose then None else ScanAuthority(s[1..], Seen(0, true, true, false))
    else if s[0] == AT then ScanAuthority(s[1..], seen.(colons := 0, percent := false))
    else if s[0] == PERCENT then ScanAuthority(s[1..], seen.(percent := true))
    else if IsAuthorityByte(s[0]) then ScanAuthority(s[1..], seen)
    else None
  }

  /** At most one colon and no `%` outside user information and brackets, which must match. */
  predicate IsAuthority(s: Bytes) {
    && s != [] && s[|s| - 1] != AT
    && match ScanAuthority(s, Seen(0, false, false, false))
       case Some(seen) => seen.hasOpen == seen.hasClose && seen.colons <= 1 && !seen.percent
       case None => false
  }

  predicate StartsSeparator(s: Bytes) {
    |s| >= 3 && s[0] == COLON && s[1] == SLASH && s[2] == SLASH
  }

  /** Splits `scheme://authority` off the front of an absolute URI. */
  function SplitOrigin(s: Bytes): Option<(Bytes, Bytes)> {
    var n := SchemeLength(s);
    if !StartsSeparator(s[n..]) || n > MAX_SCHEME_LENGTH then None
    else
      var rest := s[n + 3..];
      var a := AuthorityLength(rest);
      if IsAuthority(rest[..a]) then Some((s[..n + 3 + a], rest[a..])) else None
  }

  function LowerCase(s: Bytes): Bytes {
    seq(|s|, i requires 0 <= i < |s| => if 0x41 <= s[i] <= 0x5A then s[i] + 32 else s[i])
  }

  /** The two scheme names that the crate knows are read in any case and kept in lower case. */
  function FoldedScheme(s: Bytes): (folded: Bytes)
    ensures |folded| == |s|
  {
    var n := SchemeLength(s);
    var name := LowerCase(s[..n]);
    if StartsSeparator(s[n..]) && (name == HTTP || name == HTTPS) then name + s[n..] else s
  }

  predicate IsOrigin(origin: Bytes) {
    SplitOrigin(origin) == Some((origin, [])) && FoldedScheme(origin) == origin
  }

  function WithPathAndQuery(origin: Bytes, text: Bytes): Result<Uri, HttpError> {
    match ParsePathAndQuery(text)
    case Some((path, query)) => Ok(Uri(origin, path, query))
    case None => Err(InvalidUri)
  }

  function ParseUri(s: Bytes): Result<Uri, HttpError> {
    if s == [] || |s| > MAX_URI_LENGTH then Err(InvalidUri)
    else if s[0] == SLASH then WithPathAndQuery([], s)
    else if s == [ASTERISK] then Ok(Uri([], s, None))
    else
      match SplitOrigin(FoldedScheme(s))
      case Some((origin, text)) => WithPathAndQuery(origin, text)
      case None => Err(InvalidUri)
  }

  // ---- Scheme names ----

  lemma {:induction false} SchemeLengthIs(s: Bytes, n: nat)
    requires n <= |s| && (forall i | 0 <= i < n :: IsSchemeByte(s[i])) && (n < |s| ==> !IsSchemeByte(s[n]))
    ensures SchemeLength(s) == n
  {
    if n > 0 {
      SchemeLengthIs(s[1..], n - 1);
    }
  }

  lemma {:induction false} SchemeLengthReached(s: Bytes)
    ensures forall i | 0 <= i < SchemeLength(s) :: IsSchemeByte(s[i])
  {
    if s != [] && IsSchemeByte(s[0]) {
      SchemeLengthReached(s[1..]);
      forall i | 0 <= i < SchemeLength(s) ensures IsSchemeByte(s[i]) {
        assert i > 0 ==> s[i] == s[1..][i - 1];
      }
    }
  }

  lemma FoldedSchemeLength(s: Bytes)
    ensures SchemeLength(FoldedScheme(s)) == SchemeLength(s)
    ensures FoldedScheme(s)[SchemeLength(s)..] == s[SchemeLength(s)..]
  {
    var n, f := SchemeLength(s), FoldedScheme(s);
    if f != s {
      var name := LowerCase(s[..n]);
      assert f == name + s[n..] && |name| == n && f[n..] == s[n..];
      assert f[n] == s[n..][0];
      SchemeLengthReached(s);
      SchemeLengthIs(f, n);
    }
  }

  lemma FoldedSchemeIsFolded(s: Bytes)
    ensures FoldedScheme(FoldedScheme(s)) == FoldedScheme(s)
  {
    var n, f := SchemeLength(s), FoldedScheme(s);
    if f != s {
      var name := LowerCase(s[..n]);
      FoldedSchemeLength(s);
      assert f[..n] == name;
      assert LowerCase(name) == name;
    }
  }

  /** What follows an origin does not change how its scheme is read. */
  lemma FoldedPrefix(origin: Bytes, t: Bytes)
    requires SplitOrigin(origin).Some?
    ensures FoldedScheme(origin + t) == FoldedScheme(origin) + t
  {
    var n := SchemeLength(origin);
    SchemeLengthPrefix(origin, t);
    assert (origin + t)[..n] == origin[..n];
    assert (origin + t)[n..] == origin[n..] + t;
    ConcatAssociative(LowerCase(origin[..n]), origin[n..], t);
  }

  // ---- Printing is undone by parsing ----

  lemma {:induction false} SchemeLengthPrefix(s: Bytes, t: Bytes)
    requires s != [] && SchemeLength(s) < |s|
    ensures SchemeLength(s + t) == SchemeLength(s)
  {
    if IsSchemeByte(s[0]) {
      SchemeLengthPrefix(s[1..], t);
      assert (s + t)[1..] == s[1..] + t;
    }
  }

  lemma {:induction false} AuthorityLengthPrefix(s: Bytes, t: Bytes)
    requires AuthorityLength(s) == |s| && (t == [] || EndsAuthority(t[0]))
    ensures AuthorityLength(s + t) == |s|
  {
    if s == [] {
      assert s + t == t;
    } else {
      AuthorityLengthPrefix(s[1..], t);
      assert (s + t)[1..] == s[1..] + t;
    }
  }

  lemma {:induction false} AuthorityLengthTake(s: Bytes)
    ensures AuthorityLength(s[..AuthorityLength(s)]) == AuthorityLength(s)
  {
    var n := AuthorityLength(s);
    if n > 0 {
      AuthorityLengthTake(s[1..]);
      assert s[..n][1..] == s[1..][..n - 1];
    }
  }

  /** An origin is recognised whatever path and query follow it. */
  lemma OriginPrefix(origin: Bytes, t: Bytes)
    requires SplitOrigin(origin) == Some((origin, []))
    requires t == [] || EndsAuthority(t[0])
    ensures SplitOrigin(origin + t) == Some((origin, t))
  {
    var n := SchemeLength(origin);
    var rest, s := origin[n + 3..], origin + t;
    assert SchemeLength(s) == n by { SchemeLengthPrefix(origin, t); }
    assert s[n..] == origin[n..] + t;
    assert s[n + 3..] == rest + t;
    assert AuthorityLength(rest + t) == |rest| by { AuthorityLengthPrefix(rest, t); }
    assert (rest + t)[..|rest|] == rest && (rest + t)[|rest|..] == t;
    WholeSlice(rest, |rest|);
    assert s[..|origin|] == origin;
  }

  lemma IsOriginPrefix(origin: Bytes, t: Bytes)
    requires IsOrigin(origin) && (t == [] || EndsAuthority(t[0]))
    ensures SplitOrigin(FoldedScheme(origin + t)) == Some((origin, t))
  {
    FoldedPrefix(origin, t);
    OriginPrefix(origin, t);
  }

  /** The origin of an absolute URI, its scheme name folded, is one. */
  lemma ParsedOrigin(s: Bytes, origin: Bytes, t: Bytes)
    requires SplitOrigin(FoldedScheme(s)) == Some((origin, t))
    ensures IsOrigin(origin) && FoldedScheme(s) == origin + t && (t == [] || EndsAuthority(t[0]))
  {
    SplitOriginIsOrigin(FoldedScheme(s), origin, t);
    FoldedSchemeIsFolded(s);
    FoldedPrefix(origin, t);
    SameStart(FoldedScheme(origin), origin, t);
  }

  lemma SameStart(a: Bytes, b: Bytes, t: Bytes)
    requires |a| == |b| && a + t == b + t
    ensures a == b
  {
    assert (a + t)[..|a|] == a && (b + t)[..|b|] == b;
  }

  lemma OriginStart(origin: Bytes)
    requires SplitOrigin(origin).Some?
    ensures origin != [] && origin[0] != SLASH
  {
    assert SchemeLength(origin) == 0 ==> StartsSeparator(origin[0..]);
  }

  lemma OriginTake(s: Bytes, k: nat)
    requires k <= |s| && SplitOrigin(s).Some? && SplitOrigin(s).value.0 == s[..k]
    ensures SplitOrigin(s[..k]) == Some((s[..k], []))
  {
    var n := SchemeLength(s);
    var rest := s[n + 3..];
    var a := AuthorityLength(rest);
    var o := s[..k];
    assert k == n + 3 + a by { assert |s[..k]| == |s[..n + 3 + a]|; }
    assert SchemeLength(o) == n by { SchemeLengthTake(s, k); }
    assert StartsSeparator(o[n..]) by { assert o[n..] == s[n..k]; }
    assert o[n + 3..] == rest[..a];
    assert AuthorityLength(rest[..a]) == a by { AuthorityLengthTake(rest); }
    WholeSlice(rest[..a], a);
    WholeSlice(o, k);
  }

  lemma WholeSlice(s: Bytes, n: nat)
    requires n == |s|
    ensures s[..n] == s && s[n..] == []
  {}

  lemma SplitOriginIsOrigin(s: Bytes, origin: Bytes, t: Bytes)
    requires SplitOrigin(s) == Some((origin, t))
    ensures SplitOrigin(origin) == Some((origin, [])) && s == origin + t
    ensures t == [] || EndsAuthority(t[0])
  {
    var n := SchemeLength(s);
    OriginTake(s, n + 3 + AuthorityLength(s[n + 3..]));
  }

  lemma {:induction false} SchemeLengthTake(s: Bytes, m: nat)
    requires SchemeLength(s) < m <= |s|
    ensures SchemeLength(s[..m]) == SchemeLength(s)
  {
    if IsSchemeByte(s[0]) {
      SchemeLengthTake(s[1..], m - 1);
      assert s[..m][1..] == s[1..][..m - 1];
    }
  }

  /** A query text is cut where a `#` follows it, and refused if it is not legal up to there. */
  lemma ParseCut(path: Bytes, q: Bytes, tail: Bytes)
    requires path != [] && IsPath(path) && HASH !in q && (tail == [] || tail[0] == HASH)
    ensures ParsePathAndQuery(path + [QUESTION] + (q + tail)) == if IsQuery(q) then Some((path, Some(q))) else None
  {
    var text := path + [QUESTION] + q;
    var s := path + [QUESTION] + (q + tail);
    assert s == text + tail && s[..|text|] == text;
    assert HASH !in path && QUESTION !in path;
    IndexOfUnique(s, HASH, |text|);
    assert text[..|path|] == path && text[|path| + 1..] == q;
    IndexOfUnique(text, QUESTION, |path|);
  }

  lemma ParseBarePath(path: Bytes)
    requires path != [] && IsPath(path)
    ensures ParsePathAndQuery(path) == Some((path, None))
  {
    assert HASH !in path && QUESTION !in path;
    WholeSlice(path, |path|);
    IndexOfUnique(path, HASH, |path|);
    IndexOfUnique(path, QUESTION, |path|);
  }

  lemma ParseLegalQuery(path: Bytes, q: Bytes)
    requires path != [] && IsPath(path) && IsQuery(q)
    ensures ParsePathAndQuery(path + ([QUESTION] + q)) == Some((path, Some(q)))
  {
    assert HASH !in q;
    ParseCut(path, q, []);
    ConcatEmpty(q);
    ConcatAssociative(path, [QUESTION], q);
  }

  /** A legal path and query text parses into itself. */
  lemma ParsePrintedPath(path: Bytes, query: Option<Bytes>)
    requires path != [] && IsPath(path) && (query.Some? ==> IsQuery(query.value))
    ensures var tail := match query case Some(q) => [QUESTION] + q case None => [];
            ParsePathAndQuery(path + tail) == Some((path, query))
  {
    match query {
      case None =>
        ParseBarePath(path);
        ConcatEmpty(path);
      case Some(q) => ParseLegalQuery(path, q);
    }
  }

  lemma ParsedPathIsLegal(s: Bytes)
    requires s == [] || EndsAuthority(s[0])
    requires ParsePathAndQuery(s).Some?
    ensures var u := Uri([], ParsePathAndQuery(s).value.0, ParsePathAndQuery(s).value.1);
            u.WellFormed() && u.Rooted()
  {}

  lemma ParsedUriIsWellFormed(s: Bytes)
    requires ParseUri(s).Ok?
    ensures ParseUri(s).value.WellFormed()
    ensures ParseUri(s).value.Rooted() <==> s != [ASTERISK]
  {
    if s[0] == SLASH {
      ParsedPathIsLegal(s);
    } else if s != [ASTERISK] {
      var (origin, t) := SplitOrigin(FoldedScheme(s)).value;
      ParsedOrigin(s, origin, t);
      ParsedPathIsLegal(t);
    }
  }

  lemma OriginRoundTrip(origin: Bytes, text: Bytes)
    requires IsOrigin(origin) && text != [] && text[0] == SLASH && |origin + text| <= MAX_URI_LENGTH
    ensures ParseUri(origin + text) == WithPathAndQuery(origin, text)
  {
    OriginStart(origin);
    IsOriginPrefix(origin, text);
  }

  /** Every well-formed URI with a rooted path prints to a text that parses back to it, unless it is too long. */
  lemma PrintRoundTrip(u: Uri)
    requires u.WellFormed() && u.Rooted() && |u.Print()| <= MAX_URI_LENGTH
    ensures ParseUri(u.Print()) == Ok(u)
  {
    var tail := match u.query case Some(q) => [QUESTION] + q case None => [];
    var text := u.path + tail;
    ParsePrintedPath(u.path, u.query);
    ConcatAssociative(u.origin, u.path, tail);
    if u.origin == [] {
      ConcatEmpty(text);
    } else {
      OriginRoundTrip(u.origin, text);
    }
  }

  /** Only an asterisk with a query, which no text parses to, and what is too long are not read back. */
  lemma PrintRoundTripIff(u: Uri)
    requires u.WellFormed()
    ensures ParseUri(u.Print()) == Ok(u) <==> (u.Rooted() || u.query.None?) && |u.Print()| <= MAX_URI_LENGTH
  {
    if |u.Print()| <= MAX_URI_LENGTH {
      if u.Rooted() {
        PrintRoundTrip(u);
      } else if u.query.Some? {
        AsteriskQueryIsNoUri(u);
      }
    }
  }

  lemma AsteriskQueryIsNoUri(u: Uri)
    requires u.WellFormed() && !u.Rooted() && u.query.Some?
    ensures ParseUri(u.Print()).Err?
  {
    var s := u.Print();
    assert s[0] == ASTERISK && SchemeLength(s) == 0 && s[0..] == s;
    UnfoldedScheme(s);
  }

  // ---- Printed URIs are text ----

  lemma {:induction false} AuthorityIsAscii(s: Bytes, seen: Seen)
    requires ScanAuthority(s, seen).Some?
    ensures Ascii(s)
  {
    if s != [] {
      var rest := s[1..];
      var seen' :| ScanAuthority(rest, seen').Some?;
      AuthorityIsAscii(rest, seen');
      assert s == [s[0]] + rest;
    }
  }

  lemma AtSeparator(s: Bytes, n: nat, i: nat)
    requires n <= |s| && StartsSeparator(s[n..]) && i < |s|
    ensures s[i] in s[..n] || s[i] in [COLON, SLASH] || s[i] in s[n + 3..]
  {
    if i < n {
      assert s[i] == s[..n][i];
    } else if i < n + 3 {
      assert s[i] == s[n..][i - n];
    } else {
      assert s[i] == s[n + 3..][i - n - 3];
    }
  }

  lemma SchemeIsAscii(s: Bytes)
    ensures Ascii(s[..SchemeLength(s)])
  {
    SchemeLengthReached(s);
  }

  lemma OriginIsAscii(origin: Bytes)
    requires IsOrigin(origin)
    ensures Ascii(origin)
  {
    var n := SchemeLength(origin);
    var rest := origin[n + 3..];
    SchemeIsAscii(origin);
    WholeOrigin(origin);
    AuthorityIsAscii(rest, Seen(0, false, false, false));
    forall i | 0 <= i < |origin| ensures origin[i] < 0x80 {
      AtSeparator(origin, n, i);
    }
  }

  lemma WholeOrigin(origin: Bytes)
    requires SplitOrigin(origin) == Some((origin, []))
    ensures var n := SchemeLength(origin);
            && StartsSeparator(origin[n..]) && IsAuthority(origin[n + 3..])
            && AuthorityLength(origin[n + 3..]) == |origin[n + 3..]|
  {
    var n := SchemeLength(origin);
    var rest := origin[n + 3..];
    WholeSlice(rest, AuthorityLength(rest));
  }

  /** What a URI prints is well-formed UTF-8, in fact ASCII. */
  lemma PrintIsValid(u: Uri)
    requires u.WellFormed()
    ensures Ascii(u.Print()) && Valid(u.Print())
  {
    if u.origin != [] {
      OriginIsAscii(u.origin);
    }
    AsciiIsValid(u.Print());
  }

  // ---- The text of a parsed URI ----

  /** `text` with a `/` at position `n`, where a path begins, unless one begins there. */
  function InsertedSlash(text: Bytes, n: nat): Bytes
    requires n <= |text|
  {
    if n == |text| || text[n] == QUESTION then text[..n] + [SLASH] + text[n..] else text
  }

  lemma SlashBefore(text: Bytes)
    ensures text == [] || text[0] == QUESTION ==> InsertedSlash(text, 0) == [SLASH] + text
    ensures text != [] && text[0] != QUESTION ==> InsertedSlash(text, 0) == text
  {
    assert text[..0] == [] && text[0..] == text;
    assert [] + [SLASH] == [SLASH];
  }

  lemma Rejoin(text: Bytes, n: nat)
    requires n < |text|
    ensures text[..n] + ([text[n]] + text[n + 1..]) == text
  {}

  lemma SplitTextPrints(text: Bytes, n: nat)
    requires n == IndexOf(text, QUESTION)
    ensures (if n == 0 then [SLASH] else text[..n]) + (if n < |text| then [QUESTION] + text[n + 1..] else []) ==
              InsertedSlash(text, 0)
  {
    SlashBefore(text);
    if n < |text| {
      Rejoin(text, n);
    } else {
      WholeSlice(text, n);
      ConcatEmpty(text);
    }
    if n > 0 {
      assert text[..n][0] == text[0];
    } else if text != [] {
      assert text[..0] == [];
      ConcatEmpty([QUESTION] + text[1..]);
    }
  }

  lemma ParsedPathPrints(s: Bytes)
    requires ParsePathAndQuery(s).Some?
    ensures var (path, query) := ParsePathAndQuery(s).value;
            Uri([], path, query).Print() == InsertedSlash(s[..IndexOf(s, HASH)], 0)
  {
    var text := s[..IndexOf(s, HASH)];
    SplitTextPrints(text, IndexOf(text, QUESTION));
    ConcatEmpty(ParsePathAndQuery(s).value.0);
  }

  lemma {:induction false} SchemeHasNoHash(s: Bytes)
    ensures HASH !in s[..SchemeLength(s)]
  {
    if s != [] && IsSchemeByte(s[0]) {
      SchemeHasNoHash(s[1..]);
      assert s[..SchemeLength(s)] == [s[0]] + s[1..][..SchemeLength(s) - 1];
    }
  }

  lemma {:induction false} AuthorityHasNoHash(s: Bytes)
    ensures HASH !in s[..AuthorityLength(s)]
  {
    if s != [] && !EndsAuthority(s[0]) {
      AuthorityHasNoHash(s[1..]);
      assert s[..AuthorityLength(s)] == [s[0]] + s[1..][..AuthorityLength(s) - 1];
    }
  }

  lemma NoHashAround(s: Bytes, n: nat)
    requires n <= |s| && StartsSeparator(s[n..]) && HASH !in s[..n] && HASH !in s[n + 3..]
    ensures HASH !in s
  {
    forall i | 0 <= i < |s| ensures s[i] != HASH {
      AtSeparator(s, n, i);
    }
  }

  lemma WholeAuthorityHasNoHash(rest: Bytes)
    requires AuthorityLength(rest) == |rest|
    ensures HASH !in rest
  {
    AuthorityHasNoHash(rest);
    WholeSlice(rest, |rest|);
  }

  lemma OriginHasNoHash(origin: Bytes)
    requires IsOrigin(origin)
    ensures HASH !in origin
  {
    var n := SchemeLength(origin);
    SchemeHasNoHash(origin);
    WholeOrigin(origin);
    WholeAuthorityHasNoHash(origin[n + 3..]);
    NoHashAround(origin, n);
  }

  lemma InsertedSlashAfter(origin: Bytes, t: Bytes)
    requires HASH !in origin
    ensures IndexOf(origin + t, HASH) == |origin| + IndexOf(t, HASH)
    ensures InsertedSlash((origin + t)[..|origin| + IndexOf(t, HASH)], |origin|) ==
              origin + InsertedSlash(t[..IndexOf(t, HASH)], 0)
  {
    var s, h := origin + t, IndexOf(t, HASH);
    assert s[..|origin| + h] == origin + t[..h];
    IndexOfUnique(s, HASH, |origin| + h);
    var text := t[..h];
    assert (origin + text)[..|origin|] == origin && (origin + text)[|origin|..] == text;
    assert text[..0] == [] && text[0..] == text;
  }

  lemma FoldedHash(s: Bytes)
    ensures IndexOf(FoldedScheme(s), HASH) == IndexOf(s, HASH)
  {
    var n, f := SchemeLength(s), FoldedScheme(s);
    if f != s {
      FoldedSchemeLength(s);
      SchemeHasNoHash(s);
      SchemeHasNoHash(f);
      InsertedSlashAfter(s[..n], s[n..]);
      InsertedSlashAfter(f[..n], f[n..]);
      assert s == s[..n] + s[n..] && f == f[..n] + f[n..];
    }
  }

  /**
   A parsed URI keeps the text it was parsed from, up to a `#`, except that the scheme
   names `http` and `https` become lower case and a missing path after the authority
   becomes `/`.
   */
  lemma ParsedUriKeepsText(s: Bytes)
    requires ParseUri(s).Ok?
    ensures var u, text, h := ParseUri(s).value, FoldedScheme(s), IndexOf(s, HASH);
            && |u.origin| <= h && u.origin == text[..|u.origin|]
            && u.Print() == InsertedSlash(text[..h], |u.origin|)
  {
    if s[0] == SLASH {
      UnfoldedScheme(s);
      ParsedPathPrints(s);
    } else if s == [ASTERISK] {
      UnfoldedScheme(s);
      IndexOfUnique(s, HASH, 1);
      assert s[..1] == s && ParseUri(s).value.Print() == s;
    } else {
      var (origin, t) := SplitOrigin(FoldedScheme(s)).value;
      AbsoluteKeepsText(s, origin, t);
    }
  }

  lemma UnfoldedScheme(s: Bytes)
    requires s != [] && !IsSchemeByte(s[0]) && s[0] != COLON
    ensures FoldedScheme(s) == s
  {
    assert SchemeLength(s) == 0 && s[0..] == s;
  }

  lemma TextAfterOrigin(origin: Bytes, plain: Bytes, t: Bytes)
    requires HASH !in origin && plain == InsertedSlash(t[..IndexOf(t, HASH)], 0)
    ensures var text, n := origin + t, |origin|;
            n <= IndexOf(text, HASH) && origin + plain == InsertedSlash(text[..IndexOf(text, HASH)], n)
  {
    InsertedSlashAfter(origin, t);
  }

  lemma AbsoluteKeepsText(s: Bytes, origin: Bytes, t: Bytes)
    requires SplitOrigin(FoldedScheme(s)) == Some((origin, t)) && ParsePathAndQuery(t).Some?
    ensures var u, text, h := WithPathAndQuery(origin, t).value, FoldedScheme(s), IndexOf(s, HASH);
            |origin| <= h && origin == text[..|origin|] && u.Print() == InsertedSlash(text[..h], |origin|)
  {
    ParsedOrigin(s, origin, t);
    FoldedHash(s);
    OriginHasNoHash(origin);
    ParsedPathPrints(t);
    var u := WithPathAndQuery(origin, t).value;
    TextAfterOrigin(origin, Uri([], u.path, u.query).Print(), t);
    PrintAfterOrigin(u);
  }

  lemma PrintAfterOrigin(u: Uri)
    ensures u.Print() == u.origin + Uri([], u.path, u.query).Print()
  {
    var tail := match u.query case Some(q) => [QUESTION] + q case None => [];
    ConcatAssociative(u.origin, u.path, tail);
    ConcatEmpty(u.path);
  }
}
