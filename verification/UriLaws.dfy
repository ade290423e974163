/**
 Which texts are URLs, and what they parse to, in the letters of the text: every text is
 in origin form, in absolute form, `*`, or no URL.
 */
module UriLaws {
  import opened FormCodec
  import opened Sequences
  import opened Uris
  import opened Utf8
  import opened Wrappers

  // ---- Paths and queries ----

  /** Printable characters other than `#`, `<`, `>`, `?` and the backquote. */
  predicate PathChar(b: Byte) { 0x21 <= b <= 0x7E && b !in [0x23, 0x3C, 0x3E, 0x3F, 0x60] }

  /** Printable characters other than `"`, `#`, `<` and `>`. */
  predicate QueryChar(b: Byte) { 0x21 <= b <= 0x7E && b !in [0x22, 0x23, 0x3C, 0x3E] }

  /** The path ends at `k`, at the first `?` before the end `h`, which is the first `#`. */
  ghost predicate Cuts(s: Bytes, k: nat, h: nat) {
    && k <= h <= |s|
    && (forall i | 0 <= i < h :: s[i] != 0x23) && (h < |s| ==> s[h] == 0x23)
    && (forall i | 0 <= i < k :: s[i] != 0x3F) && (k < h ==> s[k] == 0x3F)
  }

  ghost predicate LegalUpTo(s: Bytes, k: nat, h: nat)
    requires k <= h <= |s|
  {
    && (forall i | 0 <= i < k :: PathChar(s[i]))
    && (forall i | k < i < h :: QueryChar(s[i]))
  }

  function CutUri(origin: Bytes, s: Bytes, k: nat, h: nat): Uri
    requires k <= h <= |s|
  {
    Uri(origin, if k == 0 then [0x2F] else s[..k], if k < h then Some(s[k + 1..h]) else None)
  }

  lemma QueryTextIff(q: Bytes)
    ensures IsQuery(q) <==> forall i | 0 <= i < |q| :: QueryChar(q[i])
  {}

  lemma PathTextIff(p: Bytes)
    ensures IsPath(p) <==> forall i | 0 <= i < |p| :: PathChar(p[i])
  {}

  lemma CutsAreFound(s: Bytes, k: nat, h: nat)
    requires Cuts(s, k, h)
    ensures IndexOf(s, HASH) == h && IndexOf(s[..h], QUESTION) == k
  {
    IndexOfUnique(s, HASH, h);
    IndexOfUnique(s[..h], QUESTION, k);
  }

  lemma LegalParts(s: Bytes, k: nat, h: nat)
    requires k <= h <= |s|
    ensures LegalUpTo(s, k, h) <==> IsPath(s[..k]) && (k < h ==> IsQuery(s[k + 1..h]))
  {
    PathTextIff(s[..k]);
    if k < h {
      QueryTextIff(s[k + 1..h]);
      assert forall i | k < i < h :: s[i] == s[k + 1..h][i - k - 1];
    }
  }

  lemma PathAndQueryIff(origin: Bytes, s: Bytes, k: nat, h: nat)
    requires Cuts(s, k, h)
    ensures WithPathAndQuery(origin, s) == if LegalUpTo(s, k, h) then Ok(CutUri(origin, s, k, h)) else Err(InvalidUri)
  {
    var text := s[..h];
    CutsAreFound(s, k, h);
    LegalParts(s, k, h);
    assert text[..k] == s[..k];
    if k < h {
      assert text[k + 1..] == s[k + 1..h];
    }
    assert IsPath([SLASH]);
  }

  /** A text that starts with `/` is a URL exactly if its path and query are legal, and it is kept in two parts. */
  lemma OriginFormIff(s: Bytes, k: nat, h: nat)
    requires s != [] && s[0] == 0x2F && Cuts(s, k, h)
    ensures ParseUri(s) == if |s| <= 65534 && LegalUpTo(s, k, h) then Ok(CutUri([], s, k, h)) else Err(InvalidUri)
  {
    PathAndQueryIff([], s, k, h);
  }

  // ---- Authorities ----

  predicate AuthorityChar(b: Byte) {
    0x21 <= b <= 0x7E && b !in [0x22, 0x3C, 0x3E, 0x5C, 0x5E, 0x60, 0x7B, 0x7C, 0x7D]
  }

  /** Behind the last `@` or `]` before position `i`. */
  function Reset(a: Bytes, i: nat): (r: nat)
    requires i <= |a|
    ensures r <= i
  {
    if i == 0 then 0 else if a[i - 1] == 0x40 || a[i - 1] == 0x5D then i else Reset(a, i - 1)
  }

  /** One `[` at most, not behind a `%`, then one `]` at most. */
  predicate Fits(a: Bytes, i: nat)
    requires i < |a|
  {
    && AuthorityChar(a[i])
    && (a[i] == 0x5B ==> 0x5B !in a[..i] && 0x25 !in a[Reset(a, i)..i])
    && (a[i] == 0x5D ==> 0x5B in a[..i] && 0x5D !in a[..i])
  }

  /** Closed brackets, and behind user information and brackets no `%` and at most one `:`. */
  predicate LegalAuthority(a: Bytes) {
    && a != [] && a[|a| - 1] != 0x40 && (forall i | 0 <= i < |a| :: Fits(a, i)) && (0x5B in a ==> 0x5D in a)
    && var host := a[Reset(a, |a|)..];
       0x25 !in host && forall x, y | 0 <= x < y < |host| :: !(host[x] == 0x3A && host[y] == 0x3A)
  }

  function Count(s: Bytes, b: Byte): nat {
    if s == [] then 0 else Count(s[..|s| - 1], b) + if s[|s| - 1] == b then 1 else 0
  }

  lemma {:induction false} CountNone(s: Bytes, b: Byte)
    ensures Count(s, b) == 0 <==> b !in s
  {
    if s != [] {
      var n := |s| - 1;
      CountNone(s[..n], b);
      assert s == s[..n] + [s[n]];
    }
  }

  lemma {:induction false} CountAtMostOne(s: Bytes, b: Byte)
    ensures Count(s, b) <= 1 <==> forall x, y | 0 <= x < y < |s| :: !(s[x] == b && s[y] == b)
  {
    if s != [] {
      var n := |s| - 1;
      var front := s[..n];
      CountAtMostOne(front, b);
      CountNone(front, b);
      assert forall x | 0 <= x < n :: front[x] == s[x];
      if s[n] == b && b in front {
        var x :| 0 <= x < n && front[x] == b;
        assert s[x] == b && s[n] == b;
      }
    }
  }

  /** What the scan has seen before position `i`. */
  function SeenAt(a: Bytes, i: nat): Seen
    requires i <= |a|
  {
    var host := a[Reset(a, i)..i];
    Seen(Count(host, 0x3A), 0x5B in a[..i], 0x5D in a[..i], 0x25 in host)
  }

  function SeenAfter(seen: Seen, b: Byte): Seen {
    if b == 0x3A then seen.(colons := seen.colons + 1)
    else if b == 0x5B then seen.(hasOpen := true)
    else if b == 0x5D then Seen(0, seen.hasOpen, true, false)
    else if b == 0x40 then seen.(colons := 0, percent := false)
    else if b == 0x25 then seen.(percent := true)
    else seen
  }

  predicate Accepts(seen: Seen, b: Byte) {
    && AuthorityChar(b)
    && (b == 0x5B ==> !seen.hasOpen && !seen.percent)
    && (b == 0x5D ==> seen.hasOpen && !seen.hasClose)
  }

  lemma ScanHead(s: Bytes, seen: Seen)
    requires s != []
    ensures ScanAuthority(s, seen) ==
              if Accepts(seen, s[0]) then ScanAuthority(s[1..], SeenAfter(seen, s[0])) else None
  {}

  lemma HostStep(a: Bytes, i: nat)
    requires i < |a|
    ensures a[..i + 1] == a[..i] + [a[i]]
    ensures a[Reset(a, i + 1)..i + 1] == if a[i] == 0x40 || a[i] == 0x5D then [] else a[Reset(a, i)..i] + [a[i]]
  {}

  lemma Appended(s: Bytes, c: Byte, b: Byte)
    ensures Count(s + [c], b) == Count(s, b) + if c == b then 1 else 0
    ensures b in s + [c] <==> b in s || b == c
  {
    assert (s + [c])[..|s|] == s;
  }

  lemma SeenStep(a: Bytes, i: nat)
    requires i < |a|
    ensures SeenAt(a, i + 1) == SeenAfter(SeenAt(a, i), a[i])
  {
    var host := a[Reset(a, i)..i];
    HostStep(a, i);
    Appended(host, a[i], 0x3A);
    Appended(host, a[i], 0x25);
    Appended(a[..i], a[i], 0x5B);
    Appended(a[..i], a[i], 0x5D);
  }

  lemma ScanStep(a: Bytes, i: nat)
    requires i < |a|
    ensures ScanAuthority(a[i..], SeenAt(a, i)) ==
              if Fits(a, i) then ScanAuthority(a[i + 1..], SeenAt(a, i + 1)) else None
  {
    assert a[i..][1..] == a[i + 1..];
    ScanHead(a[i..], SeenAt(a, i));
    SeenStep(a, i);
  }

  lemma {:induction false} ScanFrom(a: Bytes, i: nat)
    requires i <= |a|
    ensures ScanAuthority(a[i..], SeenAt(a, i)) ==
              if forall j | i <= j < |a| :: Fits(a, j) then Some(SeenAt(a, |a|)) else None
    decreases |a| - i
  {
    if i < |a| {
      ScanStep(a, i);
      ScanFrom(a, i + 1);
    }
  }

  lemma AuthorityIff(a: Bytes)
    ensures IsAuthority(a) <==> LegalAuthority(a)
  {
    ScanFrom(a, 0);
    assert a[0..] == a && a[..|a|] == a;
    var r := Reset(a, |a|);
    assert a[r..|a|] == a[r..];
    CountAtMostOne(a[r..], 0x3A);
    ClosesAfterOpening(a);
  }

  lemma ClosesAfterOpening(a: Bytes)
    ensures (forall i | 0 <= i < |a| :: Fits(a, i)) && 0x5D in a ==> 0x5B in a
  {
    if (forall i | 0 <= i < |a| :: Fits(a, i)) && 0x5D in a {
      var i :| 0 <= i < |a| && a[i] == 0x5D;
      assert Fits(a, i);
    }
  }

  // ---- The absolute form ----

  predicate SchemeChar(b: Byte) {
    0x30 <= b <= 0x39 || 0x41 <= b <= 0x5A || 0x61 <= b <= 0x7A || b == 0x2B || b == 0x2D || b == 0x2E
  }

  predicate SchemeText(s: Bytes) { forall i | 0 <= i < |s| :: SchemeChar(s[i]) }

  predicate EqualsIgnoringCase(s: Bytes, lower: Bytes) {
    |s| == |lower| && forall i | 0 <= i < |s| :: s[i] == lower[i] || s[i] as int + 0x20 == lower[i]
  }

  /** `http` and `https` in lower case, any other scheme as it is. */
  function KnownScheme(s: Bytes): Bytes {
    if EqualsIgnoringCase(s, [0x68, 0x74, 0x74, 0x70]) then [0x68, 0x74, 0x74, 0x70]
    else if EqualsIgnoringCase(s, [0x68, 0x74, 0x74, 0x70, 0x73]) then [0x68, 0x74, 0x74, 0x70, 0x73]
    else s
  }

  const SEPARATOR: Bytes := [0x3A, 0x2F, 0x2F]

  /** `tail` is where the authority ends: at the end of the text or at one of `/`, `?` and `#`. */
  predicate IsTail(tail: Bytes) { tail == [] || tail[0] == 0x2F || tail[0] == 0x3F || tail[0] == 0x23 }

  predicate InAuthority(a: Bytes) { forall i | 0 <= i < |a| :: a[i] != 0x2F && a[i] != 0x3F && a[i] != 0x23 }

  lemma LowerIff(s: Bytes, lower: Bytes)
    requires forall i | 0 <= i < |lower| :: 0x61 <= lower[i] <= 0x7A
    ensures LowerCase(s) == lower <==> EqualsIgnoringCase(s, lower)
  {
    if EqualsIgnoringCase(s, lower) {
      assert forall i | 0 <= i < |s| :: LowerCase(s)[i] == lower[i];
    }
    if LowerCase(s) == lower {
      assert forall i | 0 <= i < |s| :: LowerCase(s)[i] == lower[i];
    }
  }

  lemma Joined(a: Bytes, b: Bytes)
    ensures (a + b)[..|a|] == a && (a + b)[|a|..] == b
    ensures forall i | 0 <= i < |a| :: (a + b)[i] == a[i]
    ensures b != [] ==> (a + b)[|a|] == b[0]
  {}

  lemma SchemeFound(scheme: Bytes, rest: Bytes)
    requires SchemeText(scheme)
    ensures var s := scheme + (SEPARATOR + rest);
            SchemeLength(s) == |scheme| && s[..|scheme|] == scheme && s[|scheme|..] == SEPARATOR + rest
  {
    Joined(scheme, SEPARATOR + rest);
    SchemeLengthIs(scheme + (SEPARATOR + rest), |scheme|);
  }

  lemma SchemeFolds(scheme: Bytes, rest: Bytes)
    requires SchemeText(scheme)
    ensures FoldedScheme(scheme + (SEPARATOR + rest)) == KnownScheme(scheme) + (SEPARATOR + rest)
  {
    var s, n := scheme + (SEPARATOR + rest), |scheme|;
    SchemeFound(scheme, rest);
    LowerIff(scheme, HTTP);
    LowerIff(scheme, HTTPS);
  }

  lemma {:induction false} AuthorityFound(a: Bytes, tail: Bytes)
    requires InAuthority(a) && IsTail(tail)
    ensures AuthorityLength(a + tail) == |a|
  {
    if a == [] {
      assert a + tail == tail;
    } else {
      AuthorityFound(a[1..], tail);
      assert (a + tail)[1..] == a[1..] + tail;
    }
  }

  lemma OriginSplits(scheme: Bytes, a: Bytes, tail: Bytes)
    requires SchemeText(scheme) && InAuthority(a) && IsTail(tail)
    ensures SplitOrigin(scheme + (SEPARATOR + (a + tail))) ==
              if |scheme| <= 64 && LegalAuthority(a) then Some((scheme + (SEPARATOR + a), tail)) else None
  {
    var s, n := scheme + (SEPARATOR + (a + tail)), |scheme|;
    SchemeFound(scheme, a + tail);
    assert s[n + 3..] == a + tail;
    AuthorityFound(a, tail);
    assert (a + tail)[..|a|] == a && (a + tail)[|a|..] == tail;
    assert s[..n + 3 + |a|] == scheme + (SEPARATOR + a);
    AuthorityIff(a);
  }

  lemma KnownSchemeIsScheme(scheme: Bytes)
    requires SchemeText(scheme)
    ensures SchemeText(KnownScheme(scheme)) && |KnownScheme(scheme)| == |scheme|
  {}

  /** A text with scheme and authority is a URL exactly if all its parts are legal, and it is kept in three parts. */
  lemma AbsoluteFormIff(scheme: Bytes, a: Bytes, tail: Bytes, k: nat, h: nat)
    requires SchemeText(scheme) && InAuthority(a) && IsTail(tail) && Cuts(tail, k, h)
    ensures var s := scheme + (SEPARATOR + (a + tail));
            ParseUri(s) ==
              if |s| <= 65534 && |scheme| <= 64 && LegalAuthority(a) && LegalUpTo(tail, k, h)
              then Ok(CutUri(KnownScheme(scheme) + (SEPARATOR + a), tail, k, h))
              else Err(InvalidUri)
  {
    var s, known := scheme + (SEPARATOR + (a + tail)), KnownScheme(scheme);
    SchemeFolds(scheme, a + tail);
    KnownSchemeIsScheme(scheme);
    OriginSplits(known, a, tail);
    PathAndQueryIff(known + (SEPARATOR + a), tail, k, h);
    NeitherSlashNorAsterisk(scheme, a + tail);
  }

  lemma NeitherSlashNorAsterisk(scheme: Bytes, rest: Bytes)
    requires SchemeText(scheme)
    ensures var s := scheme + (SEPARATOR + rest); s != [] && s[0] != 0x2F && s != [0x2A]
  {
    var s := scheme + (SEPARATOR + rest);
    assert s[0] == if scheme == [] then 0x3A else scheme[0];
  }

  lemma SeparatorSlice(s: Bytes, n: nat)
    requires n <= |s| && StartsSeparator(s[n..])
    ensures n + 3 <= |s| && s[n..n + 3] == SEPARATOR
  {
    var rest := s[n..];
    assert s[n] == rest[0] && s[n + 1] == rest[1] && s[n + 2] == rest[2];
    assert s[n..n + 3] == [s[n], s[n + 1], s[n + 2]];
  }

  lemma SchemePrefix(s: Bytes)
    ensures SchemeText(s[..SchemeLength(s)])
  {
    SchemeLengthReached(s);
  }

  lemma SeparatedText(s: Bytes, n: nat)
    requires n == SchemeLength(s) && StartsSeparator(s[n..])
    ensures n + 3 <= |s| && SchemeText(s[..n]) && s[n..n + 3] == SEPARATOR
  {
    SchemePrefix(s);
    SeparatorSlice(s, n);
  }

  /** Nothing else is a URL, except `*`. */
  lemma OtherTextsFail(s: Bytes)
    requires s == [] || (s[0] != 0x2F && s != [0x2A])
    requires forall n: nat | n + 3 <= |s| :: !(SchemeText(s[..n]) && s[n..n + 3] == SEPARATOR)
    ensures ParseUri(s) == Err(InvalidUri)
  {
    var n := SchemeLength(s);
    FoldedSchemeLength(s);
    if StartsSeparator(s[n..]) {
      SeparatedText(s, n);
    }
  }

  lemma AsteriskParses()
    ensures ParseUri([0x2A]) == Ok(Uri([], [0x2A], None))
  {}

  // ---- Authorities that occur ----

  predicate PlainChar(b: Byte) { AuthorityChar(b) && b !in [0x25, 0x3A, 0x40, 0x5B, 0x5D] }

  lemma {:induction false} NoReset(a: Bytes, i: nat)
    requires i <= |a| && forall j | 0 <= j < i :: a[j] != 0x40 && a[j] != 0x5D
    ensures Reset(a, i) == 0
  {
    if i > 0 {
      NoReset(a, i - 1);
    }
  }

  predicate PlainText(s: Bytes) { forall i | 0 <= i < |s| :: PlainChar(s[i]) }

  /** A host of plain characters, with or without a port, is legal; a second port is not. */
  lemma HostAndPort(host: Bytes, port: Bytes, more: Bytes)
    requires host != [] && PlainText(host) && PlainText(port) && PlainText(more)
    ensures LegalAuthority(host) && LegalAuthority(host + [0x3A] + port)
    ensures !LegalAuthority(host + [0x3A] + port + [0x3A] + more)
  {
    PlainOrColon(host);
    PlainOrColon(host + [0x3A] + port);
    SecondPort(host + [0x3A] + port, |host|, more);
  }

  lemma SecondPort(a: Bytes, i: nat, more: Bytes)
    requires i < |a| && a[i] == 0x3A && PlainText(more)
    requires forall j | 0 <= j < |a| :: PlainChar(a[j]) || a[j] == 0x3A
    ensures !LegalAuthority(a + [0x3A] + more)
  {
    var all := a + [0x3A] + more;
    NoReset(all, |all|);
    assert all[0..] == all && all[i] == 0x3A && all[|a|] == 0x3A;
  }

  lemma PlainOrColon(a: Bytes)
    requires a != [] && forall i | 0 <= i < |a| :: PlainChar(a[i]) || a[i] == 0x3A
    requires forall x, y | 0 <= x < y < |a| :: !(a[x] == 0x3A && a[y] == 0x3A)
    ensures LegalAuthority(a)
  {
    NoReset(a, |a|);
    assert a[0..] == a;
  }

  /** A bracket that is not closed makes any absolute URL illegal. */
  lemma OpenBracketFails(scheme: Bytes, a: Bytes, tail: Bytes, k: nat, h: nat)
    requires SchemeText(scheme) && InAuthority(a) && IsTail(tail) && Cuts(tail, k, h)
    requires 0x5B in a && 0x5D !in a
    ensures ParseUri(scheme + (SEPARATOR + (a + tail))) == Err(InvalidUri)
  {
    AbsoluteFormIff(scheme, a, tail, k, h);
  }

  /** So an ordinary host, port and path make a URL, with every path character that is legal. */
  lemma HostUrlParses(host: Bytes, port: Bytes, path: Bytes)
    requires host != [] && PlainText(host) && PlainText(port) && InAuthority(host) && InAuthority(port)
    requires path != [] && path[0] == 0x2F && forall i | 0 <= i < |path| :: PathChar(path[i])
    requires |HTTP| + 3 + |host| + 1 + |port| + |path| <= 65534
    ensures var a := host + [0x3A] + port;
            ParseUri(HTTP + (SEPARATOR + (a + path))) == Ok(Uri(HTTP + (SEPARATOR + a), path, None))
  {
    HostAndPort(host, port, []);
    AbsoluteFormIff(HTTP, host + [0x3A] + port, path, |path|, |path|);
    assert path[..|path|] == path;
  }

  /** A path with a query that is legal makes a URL of just these. */
  lemma PathUrlParses(path: Bytes, query: Bytes)
    requires path != [] && path[0] == 0x2F && forall i | 0 <= i < |path| :: PathChar(path[i])
    requires forall i | 0 <= i < |query| :: QueryChar(query[i])
    requires |path| + 1 + |query| <= 65534
    ensures ParseUri(path + [0x3F] + query) == Ok(Uri([], path, Some(query)))
  {
    var s, k := path + [0x3F] + query, |path|;
    assert s[..k] == path && s[k + 1..] == query;
    assert forall i | k < i < |s| :: s[i] == query[i - k - 1];
    OriginFormIff(s, k, |s|);
    assert s[k + 1..|s|] == s[k + 1..];
  }
}
