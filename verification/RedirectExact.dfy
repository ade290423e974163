/**
 Exactly when the redirect works: for which fields the round trip holds, when the
 URL cannot be built, and what the rebuilt query looks like.
 */
module RedirectExact {
  import opened FormCodec
  import opened FormLaws
  import opened Redirect
  import opened Sequences
  import opened Uris
  import opened Utf8
  import opened Wrappers

  // ---- The round trip needs a form-safe field ----

  lemma IsQueryIsAscii(s: Bytes)
    requires IsQuery(s)
    ensures Ascii(s)
  {}

  lemma {:induction false} PercentDecodeShrinks(s: Bytes)
    requires |PercentDecode(s)| == |s|
    ensures !HasEscape(s) && PercentDecode(s) == s
  {
    if s != [] {
      PercentDecodeShrinks(s[1..]);
    }
  }

  lemma {:induction false} ReplacePlusFixed(s: Bytes)
    requires ReplacePlus(s) == s
    ensures PLUS !in s
  {
    if s != [] {
      assert ReplacePlus(s)[1..] == ReplacePlus(s[1..]);
      ReplacePlusFixed(s[1..]);
      assert s == [s[0]] + s[1..];
    }
  }

  /** Decoding to ASCII text never lengthens. */
  lemma AsciiTextIsNotLonger(s: Bytes)
    requires Ascii(DecodeText(s))
    ensures |DecodeText(s)| <= |s|
  {
    LossyAsciiIsExact(PercentDecode(ReplacePlus(s)));
  }

  lemma ReadsAsItselfIsEscapeFree(field: Bytes)
    requires Ascii(field) && DecodeText(field) == field
    ensures PLUS !in field && !HasEscape(field)
  {
    var plain := ReplacePlus(field);
    LossyAsciiIsExact(PercentDecode(plain));
    PercentDecodeShrinks(plain);
    ReplacePlusFixed(field);
  }

  /** The first key read from `f=value` is at most as long as `f`, and shorter if `f` is split. */
  ghost predicate KeyWithin(pairs: seq<Pair>, f: Bytes) {
    pairs != [] && (Ascii(pairs[0].0) ==>
      |pairs[0].0| <= |f| && (AMPERSAND in f || EQUALS in f ==> |pairs[0].0| < |f|))
  }

  lemma {:induction false} FirstKeyBound(f: Bytes, value: Bytes)
    requires AMPERSAND !in value
    ensures KeyWithin(Parse(f + [EQUALS] + value), f)
  {
    var q := f + [EQUALS] + value;
    var n := IndexOf(f, AMPERSAND);
    if n == |f| {
      WholeSlice(f, n);
      WholeSlice(q, |q|);
      ParseLast(q);
      var m := IndexOf(f, EQUALS);
      assert q[..m] == f[..m];
      FirstNameBound(q, m);
    } else {
      var rest := f[n + 1..];
      assert q[..n] == f[..n] && q[n + 1..] == rest + [EQUALS] + value;
      ParseStep(q, n);
      FirstKeyBound(rest, value);
      assert FirstPair(q, n) == FirstPair(f, n);
      if n > 0 {
        FirstNameBound(f[..n], IndexOf(f[..n], EQUALS));
      }
    }
  }

  lemma FirstNameBound(segment: Bytes, n: nat)
    requires n <= |segment| && EQUALS !in segment[..n] && (n < |segment| ==> segment[n] == EQUALS)
    ensures Ascii(DecodePair(segment).0) ==> |DecodePair(segment).0| <= n
  {
    IndexOfUnique(segment, EQUALS, n);
    if Ascii(DecodePair(segment).0) {
      AsciiTextIsNotLonger(segment[..n]);
    }
  }

  /** No key read from the part of a field before its `#` is the whole field. */
  lemma {:induction false} CutKeyIsNotField(q: Bytes, field: Bytes)
    requires IsQuery(field[..IndexOf(field, HASH)]) && HASH in field
    requires |q| <= IndexOf(field, HASH)
    ensures forall i | 0 <= i < |Parse(q)| :: Parse(q)[i].0 != field
    decreases |q|
  {
    var n := IndexOf(q, AMPERSAND);
    if n == |q| {
      ParseLast(q);
    } else {
      ParseStep(q, n);
      CutKeyIsNotField(q[n + 1..], field);
    }
    if n > 0 {
      var name := q[..n][..IndexOf(q[..n], EQUALS)];
      var d := PercentDecode(ReplacePlus(name));
      if Lossy(d) == field {
        var h := IndexOf(field, HASH);
        IsQueryIsAscii(field[..h]);
        LossyAsciiPrefix(d, h);
        assert d == d[..h];
        AsciiIsValid(d);
        LossyKeepsValid(d);
      }
    }
  }

  lemma {:induction false} ExtendPairsKeeps(target: Bytes, pairs: seq<Pair>) returns (tail: Bytes)
    requires target != []
    ensures ExtendPairs(target, pairs) == target + tail && IsQuery(tail)
    decreases |pairs|
  {
    if pairs == [] {
      tail := [];
    } else {
      var part := [AMPERSAND] + EncodePair(pairs[0]);
      ConcatAssociative(target, [AMPERSAND], EncodePair(pairs[0]));
      var more := ExtendPairsKeeps(target + part, pairs[1..]);
      ConcatAssociative(target, part, more);
      FormEncodedPairIsQuery(pairs[0]);
      IsQueryConcat(part, more);
      tail := part + more;
    }
  }

  lemma FormEncodedPairIsQuery(pair: Pair)
    ensures IsQuery([AMPERSAND] + EncodePair(pair))
  {
    AppendPairIsQuery([], pair);
    assert AppendPair([], pair) == EncodePair(pair);
  }

  lemma UpdatedQuery(uri: Uri, newQuery: Bytes, q: Bytes, rest: Bytes)
    requires uri.WellFormed() && HASH !in q && (rest == [] || rest[0] == HASH)
    requires ExtendPairs(newQuery, Parse(uri.QueryOrEmpty())) == q + rest
    ensures UpdateQuery(uri, newQuery) == if IsQuery(q) then Ok(uri.(query := Some(q))) else Err(InvalidUri)
  {
    ParseCut(uri.path, q, rest);
  }

  ghost predicate CutAtHash(result: Result<Uri, HttpError>, uri: Uri, field: Bytes) {
    var cut := field[..IndexOf(field, HASH)];
    && (result.Ok? <==> IsQuery(cut))
    && (IsQuery(cut) && HASH in field ==> result.value == uri.(query := Some(cut)))
  }

  lemma QueryCut(uri: Uri, newQuery: Bytes, field: Bytes, tail: Bytes)
    requires uri.WellFormed() && IsQuery(tail)
    requires ExtendPairs(newQuery, Parse(uri.QueryOrEmpty())) == field + tail
    ensures CutAtHash(UpdateQuery(uri, newQuery), uri, field)
  {
    var h := IndexOf(field, HASH);
    if HASH in field {
      assert field[..h] + (field[h..] + tail) == field + tail;
      UpdatedQuery(uri, newQuery, field[..h], field[h..] + tail);
    } else {
      WholeSlice(field, h);
      IsQueryConcat(field, tail);
      ConcatEmpty(field + tail);
      UpdatedQuery(uri, newQuery, field + tail, []);
    }
  }

  /** The URL is built if the field is legal up to a `#`, and what follows that `#` is lost. */
  lemma UpdatedUriCut(uri: Uri, field: Bytes, requested: Uri)
    requires uri.WellFormed()
    ensures CutAtHash(UpdateQuery(uri, RedirectPair(field, requested)), uri, field)
  {
    var tail := RedirectTail(field, requested, Parse(uri.QueryOrEmpty()));
    QueryCut(uri, RedirectPair(field, requested), field, tail);
  }

  lemma RedirectTail(field: Bytes, requested: Uri, pairs: seq<Pair>) returns (tail: Bytes)
    ensures ExtendPairs(RedirectPair(field, requested), pairs) == field + tail && IsQuery(tail)
  {
    var encoded := UriEncode(requested.Print());
    var more := ExtendPairsKeeps(RedirectPair(field, requested), pairs);
    UriEncodeIsQuery(requested.Print());
    IsQueryConcat([EQUALS] + encoded, more);
    tail := [EQUALS] + encoded + more;
    assert field + tail == RedirectPair(field, requested) + more;
  }

  // ---- Main results ----

  /** The URL cannot be built exactly when the login URL or the inserted field is malformed. */
  lemma RedirectFailsIff(url: Bytes, field: Bytes, requested: Uri)
    ensures UrlWithRedirectQuery(url, field, requested).Err? <==>
              || ParseUri(url).Err?
              || (!NamesField(ParseUri(url).value.QueryOrEmpty(), field)
                  && !IsQuery(field[..IndexOf(field, HASH)]))
  {
    if ParseUri(url).Ok? {
      ParsedUriIsWellFormed(url);
      HasKeyIff(ParseUri(url).value.QueryOrEmpty(), field);
      UpdatedUriCut(ParseUri(url).value, field, requested);
    }
  }

  lemma CutFieldDoesNotCarry(uri: Uri, field: Bytes, requested: Uri)
    requires uri.WellFormed() && HASH in field
    ensures !Carries(UpdateQuery(uri, RedirectPair(field, requested)), uri, field, requested)
  {
    var cut := field[..IndexOf(field, HASH)];
    UpdatedUriCut(uri, field, requested);
    if IsQuery(cut) {
      CutKeyIsNotField(cut, field);
      var expected := [(field, requested.Print())] + Parse(uri.QueryOrEmpty());
      assert expected[0].0 == field;
    }
  }

  lemma SplitFieldDoesNotCarry(uri: Uri, field: Bytes, requested: Uri)
    requires uri.WellFormed() && IsQuery(field) && !FormSafe(field)
    ensures !Carries(UpdateQuery(uri, RedirectPair(field, requested)), uri, field, requested)
  {
    var newQuery, pairs := RedirectPair(field, requested), Parse(uri.QueryOrEmpty());
    var encoded := UriEncode(requested.Print());
    UriEncodeSpells(requested.Print());
    SpellingHasNoSeparator(encoded, requested.Print());
    UriEncodeIsQuery(requested.Print());
    IsQueryConcat(field, [EQUALS]);
    IsQueryConcat(field + [EQUALS], encoded);
    UpdatedUri(uri, newQuery);
    ParsedPairsAreValid(uri.QueryOrEmpty());
    ParseExtended(newQuery, pairs);
    IsQueryIsAscii(field);
    FirstKeyBound(field, encoded);
    if AMPERSAND !in field && EQUALS !in field {
      ParseOnePair(field, encoded);
      if DecodeText(field) == field {
        ReadsAsItselfIsEscapeFree(field);
      }
    }
    assert (Parse(newQuery) + pairs)[0] == Parse(newQuery)[0];
    assert ([(field, requested.Print())] + pairs)[0].0 == field;
  }

  /** The round trip holds for exactly the form-safe fields. */
  lemma RedirectRoundTripIff(url: Bytes, field: Bytes, requested: Uri)
    requires ParseUri(url).Ok? && !NamesField(ParseUri(url).value.QueryOrEmpty(), field)
    requires Valid(requested.Print())
    ensures var result := UrlWithRedirectQuery(url, field, requested);
            Carries(result, ParseUri(url).value, field, requested) <==> FormSafe(field)
  {
    var uri := ParseUri(url).value;
    ParsedUriIsWellFormed(url);
    HasKeyIff(uri.QueryOrEmpty(), field);
    if FormSafe(field) {
      RedirectRoundTrip(url, field, requested);
    } else if HASH in field {
      CutFieldDoesNotCarry(uri, field, requested);
    } else if !IsQuery(field) {
      UpdatedUriCut(uri, field, requested);
      WholeSlice(field, IndexOf(field, HASH));
    } else {
      SplitFieldDoesNotCarry(uri, field, requested);
    }
  }
}
