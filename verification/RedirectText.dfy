/**
 The text of the rebuilt query: it follows the query grammar of section 3.4 of
 RFC 3986, its length is bounded, and the encoders escape exactly what their
 standards say.
 */
module RedirectText {
  import opened FormCodec
  import opened Redirect
  import opened Sequences
  import opened Uris
  import opened Utf8
  import opened Wrappers

  // ---- Grammar ----

  /** unreserved / sub-delims / ":" / "@" / "/" / "?": `!`, `$`, `&` to `,`, `/`, `:`, `;`, `=`, `?` and `@`. */
  predicate IsRfcQueryChar(b: Byte) {
    || Unreserved(b) || 0x26 <= b <= 0x2C
    || b in [0x21, 0x24, SLASH, COLON, 0x3B, EQUALS, QUESTION, 0x40]
  }

  /** query = *( pchar / "/" / "?" ) */
  predicate IsRfcQuery(s: Bytes) {
    || s == []
    || (IsRfcQueryChar(s[0]) && IsRfcQuery(s[1..]))
    || (StartsEscape(s) && IsRfcQuery(s[3..]))
  }

  lemma {:induction false} RfcQueryConcat(a: Bytes, b: Bytes)
    requires IsRfcQuery(a) && IsRfcQuery(b)
    ensures IsRfcQuery(a + b)
  {
    if a == [] {
      assert a + b == b;
    } else if IsRfcQueryChar(a[0]) {
      RfcQueryConcat(a[1..], b);
      assert (a + b)[1..] == a[1..] + b;
    } else {
      RfcQueryConcat(a[3..], b);
      assert (a + b)[3..] == a[3..] + b;
    }
  }

  lemma {:induction false} SpellingIsRfcQuery(e: Bytes, s: Bytes)
    requires Spells(e, s)
    ensures IsRfcQuery(e)
    decreases |s|
  {
    if s != [] {
      if |e| >= 3 && e[..3] == Escape(s[0]) && Spells(e[3..], s[1..]) {
        SpellingIsRfcQuery(e[3..], s[1..]);
        assert e[0] == e[..3][0] && e[1] == e[..3][1] && e[2] == e[..3][2];
      } else {
        SpellingIsRfcQuery(e[1..], s[1..]);
      }
    }
  }

  lemma EncodePairIsRfcQuery(pair: Pair)
    ensures IsRfcQuery(EncodePair(pair))
  {
    FormEncodeSpells(pair.0);
    FormEncodeSpells(pair.1);
    SpellingIsRfcQuery(FormEncode(pair.0), pair.0);
    SpellingIsRfcQuery(FormEncode(pair.1), pair.1);
    OneCharIsRfcQuery(EQUALS);
    RfcQueryConcat(FormEncode(pair.0), [EQUALS]);
    RfcQueryConcat(FormEncode(pair.0) + [EQUALS], FormEncode(pair.1));
  }

  lemma OneCharIsRfcQuery(b: Byte)
    requires b == EQUALS || b == AMPERSAND
    ensures IsRfcQuery([b])
  {
    assert [b][1..] == [];
  }

  lemma {:induction false} ExtendPairsIsRfcQuery(target: Bytes, pairs: seq<Pair>)
    requires IsRfcQuery(target)
    ensures IsRfcQuery(ExtendPairs(target, pairs))
    decreases |pairs|
  {
    if pairs != [] {
      var separator := if target == [] then [] else [AMPERSAND];
      OneCharIsRfcQuery(AMPERSAND);
      RfcQueryConcat(target, separator);
      EncodePairIsRfcQuery(pairs[0]);
      RfcQueryConcat(target + separator, EncodePair(pairs[0]));
      ExtendPairsIsRfcQuery(AppendPair(target, pairs[0]), pairs[1..]);
    }
  }

  // ---- Length ----

  /** What a decoded byte took to write in ASCII: non-ASCII bytes only come from escapes. */
  function Weight(s: Bytes): nat {
    if s == [] then 0 else (if s[0] < 0x80 then 1 else 3) + Weight(s[1..])
  }

  lemma {:induction false} WeightOfSlice(s: Bytes, n: nat)
    requires n <= |s|
    ensures Weight(s) == Weight(s[..n]) + Weight(s[n..])
  {
    if n == 0 {
      assert s[0..] == s && s[..0] == [];
    } else {
      WeightOfSlice(s[1..], n - 1);
      assert s[..n] == [s[0]] + s[1..][..n - 1];
    }
  }

  lemma {:induction false} WeightOfDecoded(s: Bytes)
    requires Ascii(s)
    ensures Weight(PercentDecode(s)) <= |s|
  {
    if s != [] {
      if StartsEscape(s) {
        WeightOfDecoded(s[3..]);
      } else {
        WeightOfDecoded(s[1..]);
      }
    }
  }

  /** Escaping triples at most, also where a replacement takes the place of broken bytes. */
  lemma {:induction false} FormEncodeLength(s: Bytes)
    ensures |FormEncode(Lossy(s))| <= 3 * Weight(s)
  {
    if s != [] {
      var n := Accepted(s);
      if StartsWell(s) {
        FormEncodeConcat(s[..n], Lossy(s[n..]));
        FormEncodeLength(s[n..]);
        FormEncodeTriples(s[..n]);
        WeightOfSlice(s, n);
      } else {
        var skip := if n == 0 then 1 else n;
        FormEncodeConcat(REPLACEMENT, Lossy(s[skip..]));
        FormEncodeLength(s[skip..]);
        FormEncodeTriples(REPLACEMENT);
        WeightOfSlice(s, skip);
        assert Weight(s[..skip]) >= 3;
      }
    }
  }

  lemma {:induction false} FormEncodeConcat(a: Bytes, b: Bytes)
    ensures FormEncode(a + b) == FormEncode(a) + FormEncode(b)
  {
    if a == [] {
      assert a + b == b;
    } else {
      FormEncodeConcat(a[1..], b);
      assert (a + b)[1..] == a[1..] + b;
      ConcatAssociative(FormEncodeByte(a[0]), FormEncode(a[1..]), FormEncode(b));
    }
  }

  lemma {:induction false} FormEncodeTriples(s: Bytes)
    ensures |FormEncode(s)| <= 3 * |s| && |s| <= Weight(s)
  {
    if s != [] {
      FormEncodeTriples(s[1..]);
    }
  }

  lemma {:induction false} UriEncodeTriples(s: Bytes)
    ensures |UriEncode(s)| <= 3 * |s|
  {
    if s != [] {
      UriEncodeTriples(s[1..]);
    }
  }

  lemma {:induction false} ReplacePlusIsAscii(s: Bytes)
    requires Ascii(s)
    ensures Ascii(ReplacePlus(s))
  {
    if s != [] {
      ReplacePlusIsAscii(s[1..]);
    }
  }

  lemma RecodedTextLength(s: Bytes)
    requires Ascii(s)
    ensures |FormEncode(DecodeText(s))| <= 3 * |s|
  {
    ReplacePlusIsAscii(s);
    WeightOfDecoded(ReplacePlus(s));
    FormEncodeLength(PercentDecode(ReplacePlus(s)));
  }

  lemma RecodedPairLength(segment: Bytes)
    requires Ascii(segment)
    ensures |EncodePair(DecodePair(segment))| <= 3 * |segment| + 1
  {
    var n := IndexOf(segment, EQUALS);
    RecodedTextLength(segment[..n]);
    RecodedTextLength(if n < |segment| then segment[n + 1..] else []);
  }

  lemma ExtendFirst(target: Bytes, query: Bytes, n: nat, rest: Bytes)
    requires n <= |query| && Parse(query) == FirstPair(query, n) + Parse(rest)
    ensures ExtendPairs(target, Parse(query)) ==
              ExtendPairs(if n == 0 then target else AppendPair(target, DecodePair(query[..n])), Parse(rest))
  {
    if n == 0 {
      ConcatEmpty(Parse(rest));
    } else {
      assert Parse(query)[0] == DecodePair(query[..n]) && Parse(query)[1..] == Parse(rest);
    }
  }

  lemma AppendedLength(target: Bytes, segment: Bytes)
    requires Ascii(segment)
    ensures |AppendPair(target, DecodePair(segment))| <= |target| + 3 * |segment| + 2
  {
    RecodedPairLength(segment);
  }

  lemma {:induction false} RecodedQueryLength(target: Bytes, query: Bytes)
    requires Ascii(query)
    ensures |ExtendPairs(target, Parse(query))| <= |target| + (if query == [] then 0 else 3 * |query| + 2)
    decreases |query|
  {
    if query == [] {
      assert ExtendPairs(target, Parse(query)) == target;
    } else {
      var n := IndexOf(query, AMPERSAND);
      var rest := if n < |query| then query[n + 1..] else [];
      var next := if n == 0 then target else AppendPair(target, DecodePair(query[..n]));
      assert |next| <= |target| + (if n == 0 then 0 else 3 * n + 2) by { AppendedLength(target, query[..n]); }
      RecodedQueryLength(next, rest);
      assert ExtendPairs(target, Parse(query)) == ExtendPairs(next, Parse(rest)) by {
        if n < |query| {
          ParseStep(query, n);
        } else {
          ParseLast(query);
          assert Parse(rest) == [];
          ConcatEmpty(FirstPair(query, n));
        }
        ExtendFirst(target, query, n, rest);
      }
    }
  }

  /** An inserted field that is legal in a query leads to a URL with this query. */
  lemma RebuiltQuery(url: Bytes, field: Bytes, requested: Uri)
    requires ParseUri(url).Ok? && !HasKey(Parse(ParseUri(url).value.QueryOrEmpty()), field)
    requires IsQuery(field)
    ensures UrlWithRedirectQuery(url, field, requested) == Ok(ParseUri(url).value.(query :=
              Some(ExtendPairs(RedirectPair(field, requested), Parse(ParseUri(url).value.QueryOrEmpty())))))
  {
    ParsedUriIsWellFormed(url);
    UriEncodeIsQuery(requested.Print());
    IsQueryConcat(field, [EQUALS]);
    IsQueryConcat(field + [EQUALS], UriEncode(requested.Print()));
    UpdatedUri(ParseUri(url).value, RedirectPair(field, requested));
  }

  /** It follows the grammar of RFC 3986 as soon as the field does. */
  lemma RebuiltQueryIsLegal(url: Bytes, field: Bytes, requested: Uri)
    requires ParseUri(url).Ok? && !HasKey(Parse(ParseUri(url).value.QueryOrEmpty()), field)
    requires IsRfcQuery(field)
    ensures var result := UrlWithRedirectQuery(url, field, requested);
            result.Ok? && result.value.query.Some? && IsRfcQuery(result.value.query.value)
  {
    var encoded := UriEncode(requested.Print());
    RfcQueryIsQuery(field);
    RebuiltQuery(url, field, requested);
    OneCharIsRfcQuery(EQUALS);
    RfcQueryConcat(field, [EQUALS]);
    UriEncodeSpells(requested.Print());
    SpellingIsRfcQuery(encoded, requested.Print());
    RfcQueryConcat(field + [EQUALS], encoded);
    ExtendPairsIsRfcQuery(RedirectPair(field, requested), Parse(ParseUri(url).value.QueryOrEmpty()));
  }

  lemma {:induction false} RfcQueryIsQuery(s: Bytes)
    requires IsRfcQuery(s)
    ensures IsQuery(s)
  {
    if s != [] {
      if IsRfcQueryChar(s[0]) && IsRfcQuery(s[1..]) {
        RfcQueryIsQuery(s[1..]);
        assert s == [s[0]] + s[1..];
      } else {
        RfcQueryIsQuery(s[3..]);
        assert s == [s[0], s[1], s[2]] + s[3..];
      }
    }
  }

  lemma ExtendedLength(newQuery: Bytes, uri: Uri)
    requires uri.WellFormed()
    ensures |ExtendPairs(newQuery, Parse(uri.QueryOrEmpty()))| <=
              |newQuery| + (if uri.QueryOrEmpty() == [] then 0 else 3 * |uri.QueryOrEmpty()| + 2)
  {
    RecodedQueryLength(newQuery, uri.QueryOrEmpty());
  }

  /** It is at most about three times as long as what went in. */
  lemma RebuiltQueryIsBounded(url: Bytes, field: Bytes, requested: Uri)
    requires ParseUri(url).Ok? && !HasKey(Parse(ParseUri(url).value.QueryOrEmpty()), field)
    requires IsQuery(field)
    ensures var before, result := ParseUri(url).value.QueryOrEmpty(), UrlWithRedirectQuery(url, field, requested);
            && result.Ok? && result.value.query.Some?
            && |result.value.query.value| <=
                 |field| + 1 + 3 * |requested.Print()| + (if before == [] then 0 else 1 + (3 * |before| + 1))
  {
    ParsedUriIsWellFormed(url);
    RebuiltQuery(url, field, requested);
    UriEncodeTriples(requested.Print());
    ExtendedLength(RedirectPair(field, requested), ParseUri(url).value);
  }

  // ---- The alphabets ----

  /** The two encoders give the same text exactly if it has no space, `*` or `~`. */
  lemma {:induction false} EncodersAgreeIff(s: Bytes)
    ensures FormEncode(s) == UriEncode(s) <==> forall i | 0 <= i < |s| :: s[i] !in [0x20, 0x2A, 0x7E]
  {
    if s != [] {
      var b, form, uri := s[0], FormEncodeByte(s[0]), UriEncodeByte(s[0]);
      EncodersAgreeIff(s[1..]);
      EncodersCompared(b);
      assert s == [b] + s[1..];
      if form == uri {
        assert FormEncode(s)[|form|..] == FormEncode(s[1..]) && UriEncode(s)[|form|..] == UriEncode(s[1..]);
      } else {
        assert FormEncode(s)[0] == form[0] && UriEncode(s)[0] == uri[0];
      }
    }
  }

  /** The two encoders differ on space, `*` and `~` only; both escape in upper case. */
  lemma EncodersCompared(b: Byte)
    ensures FormEncodeByte(b) == UriEncodeByte(b) <==> b !in [0x20, 0x2A, 0x7E]
    ensures b == 0x20 ==> FormEncodeByte(b) == [0x2B] && UriEncodeByte(b) == [0x25, 0x32, 0x30]  // + and %20
    ensures b == 0x2A ==> FormEncodeByte(b) == [0x2A] && UriEncodeByte(b) == [0x25, 0x32, 0x41]  // * and %2A
    ensures b == 0x7E ==> FormEncodeByte(b) == [0x25, 0x37, 0x45] && UriEncodeByte(b) == [0x7E]  // %7E and ~
    ensures FormEncodeByte(b) != [] && UriEncodeByte(b) != []
    ensures FormEncodeByte(b) != UriEncodeByte(b) ==> FormEncodeByte(b)[0] != UriEncodeByte(b)[0]
    ensures UriEncodeByte(b) == [b] <==>
              0x30 <= b <= 0x39 || 0x41 <= b <= 0x5A || 0x61 <= b <= 0x7A || b in [0x2D, 0x2E, 0x5F, 0x7E]
  {
    if b in [0x20, 0x2A, 0x7E] {
      assert FormEncodeByte(b)[0] != UriEncodeByte(b)[0];
    } else {
      assert FormEncodeByte(b) == UriEncodeByte(b);
    }
  }

  /** The form serializer leaves exactly `*-._` and ASCII alphanumerics as they are. */
  lemma {:induction false} FormEncodeAlphabet(s: Bytes)
    ensures FormEncode(s) == s <==> forall i | 0 <= i < |s| :: FormKeeps(s[i])
  {
    if s != [] {
      FormEncodeAlphabet(s[1..]);
      FormEncodeGrows(s[1..]);
      assert s == [s[0]] + s[1..];
      if FormEncode(s) == s {
        assert FormEncode(s)[0] == s[0];
        assert FormEncode(s)[1..] == s[1..];
      }
    }
  }

  lemma {:induction false} FormEncodeGrows(s: Bytes)
    ensures |FormEncode(s)| >= |s|
  {
    if s != [] {
      FormEncodeGrows(s[1..]);
    }
  }
}
