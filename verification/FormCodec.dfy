/**
 `application/x-www-form-urlencoded` as the `form_urlencoded` crate reads it
 (section 5.1 of the WHATWG URL Standard) and writes it (section 5.2), and the
 percent-encoding of the `urlencoding` crate (section 2.3 of RFC 3986).
 */
module FormCodec {
  import opened Sequences
  import opened Utf8

  const SPACE: Byte := 0x20
  const HASH: Byte := 0x23
  const PERCENT: Byte := 0x25
  const AMPERSAND: Byte := 0x26
  const PLUS: Byte := 0x2B
  const SLASH: Byte := 0x2F
  const COLON: Byte := 0x3A
  const EQUALS: Byte := 0x3D
  const QUESTION: Byte := 0x3F

  type Pair = (Bytes, Bytes)

  /** The position of the first `b`, or `|s|`. */
  function IndexOf(s: Bytes, b: Byte): (n: nat)
    ensures n <= |s| && b !in s[..n] && (n < |s| ==> s[n] == b)
  {
    if s == [] || s[0] == b then 0 else
      var n := IndexOf(s[1..], b);
      assert s[..n + 1] == [s[0]] + s[1..][..n];
      n + 1
  }

  lemma {:induction false} IndexOfUnique(s: Bytes, b: Byte, n: nat)
    requires n <= |s| && b !in s[..n] && (n < |s| ==> s[n] == b)
    ensures IndexOf(s, b) == n
  {
    if n > 0 {
      assert s[..n][0] == s[0] && s[..n][1..] == s[1..][..n - 1];
      IndexOfUnique(s[1..], b, n - 1);
    }
  }

  // ---- Percent escapes ----

  predicate IsDigit(b: Byte) { 0x30 <= b <= 0x39 }

  predicate IsAlpha(b: Byte) { 0x41 <= b <= 0x5A || 0x61 <= b <= 0x7A }

  predicate IsHex(b: Byte) { IsDigit(b) || 0x41 <= b <= 0x46 || 0x61 <= b <= 0x66 }

  function HexValue(b: Byte): (v: int)
    requires IsHex(b)
    ensures 0 <= v < 16
  {
    if IsDigit(b) then b - 0x30 else if b <= 0x46 then b - 0x37 else b - 0x57
  }

  function UpperHex(v: int): (b: Byte)
    requires 0 <= v < 16
    ensures IsHex(b) && HexValue(b) == v && !(0x61 <= b)
  {
    if v < 10 then v + 0x30 else v + 0x37
  }

  function Escape(b: Byte): (e: Bytes)
    ensures |e| == 3 && StartsEscape(e) && Unescape(e) == b
  {
    [PERCENT, UpperHex(b / 16), UpperHex(b % 16)]
  }

  predicate StartsEscape(s: Bytes) {
    |s| >= 3 && s[0] == PERCENT && IsHex(s[1]) && IsHex(s[2])
  }

  function Unescape(s: Bytes): Byte
    requires StartsEscape(s)
  {
    16 * HexValue(s[1]) + HexValue(s[2])
  }

  /** Malformed escapes stay as they are. */
  function PercentDecode(s: Bytes): (d: Bytes)
    ensures |d| <= |s|
  {
    if s == [] then []
    else if StartsEscape(s) then [Unescape(s)] + PercentDecode(s[3..])
    else [s[0]] + PercentDecode(s[1..])
  }

  function ReplacePlus(s: Bytes): (r: Bytes)
    ensures |r| == |s|
  {
    if s == [] then [] else [if s[0] == PLUS then SPACE else s[0]] + ReplacePlus(s[1..])
  }

  function DecodeText(s: Bytes): Bytes {
    Lossy(PercentDecode(ReplacePlus(s)))
  }

  lemma {:induction false} ReplacePlusKeeps(s: Bytes)
    requires PLUS !in s
    ensures ReplacePlus(s) == s
  {
    if s != [] {
      ReplacePlusKeeps(s[1..]);
    }
  }

  // ---- The two encoders ----

  /** Bytes the form serializer leaves alone. */
  predicate FormKeeps(b: Byte) { IsAlpha(b) || IsDigit(b) || b in [0x2A, 0x2D, 0x2E, 0x5F] }

  function FormEncodeByte(b: Byte): Bytes {
    if FormKeeps(b) then [b] else if b == SPACE then [PLUS] else Escape(b)
  }

  function FormEncode(s: Bytes): Bytes {
    if s == [] then [] else FormEncodeByte(s[0]) + FormEncode(s[1..])
  }

  /** The unreserved characters of RFC 3986. */
  predicate Unreserved(b: Byte) { IsAlpha(b) || IsDigit(b) || b in [0x2D, 0x2E, 0x5F, 0x7E] }

  function UriEncodeByte(b: Byte): Bytes {
    if Unreserved(b) then [b] else Escape(b)
  }

  function UriEncode(s: Bytes): Bytes {
    if s == [] then [] else UriEncodeByte(s[0]) + UriEncode(s[1..])
  }

  // ---- Parsing and serializing ----

  function DecodePair(segment: Bytes): Pair {
    var n := IndexOf(segment, EQUALS);
    (DecodeText(segment[..n]), DecodeText(if n < |segment| then segment[n + 1..] else []))
  }

  /** The pair of the first segment, `query[..n]`, unless it is empty. */
  function FirstPair(query: Bytes, n: nat): seq<Pair>
    requires n <= |query|
  {
    if n == 0 then [] else [DecodePair(query[..n])]
  }

  /** Splits on `&`, skips empty segments and splits each other one on its first `=`. */
  function Parse(query: Bytes): seq<Pair>
    decreases |query|
  {
    if query == [] then []
    else
      var n := IndexOf(query, AMPERSAND);
      var rest := if n < |query| then query[n + 1..] else [];
      FirstPair(query, n) + Parse(rest)
  }

  function EncodePair(pair: Pair): Bytes {
    FormEncode(pair.0) + [EQUALS] + FormEncode(pair.1)
  }

  function AppendPair(target: Bytes, pair: Pair): Bytes {
    target + (if target == [] then [] else [AMPERSAND]) + EncodePair(pair)
  }

  function ExtendPairs(target: Bytes, pairs: seq<Pair>): Bytes
    decreases |pairs|
  {
    if pairs == [] then target else ExtendPairs(AppendPair(target, pairs[0]), pairs[1..])
  }

  function Serialize(pairs: seq<Pair>): Bytes {
    ExtendPairs([], pairs)
  }

  predicate HasKey(pairs: seq<Pair>, key: Bytes) {
    exists i | 0 <= i < |pairs| :: pairs[i].0 == key
  }

  predicate ValidPairs(pairs: seq<Pair>) {
    forall i | 0 <= i < |pairs| :: Valid(pairs[i].0) && Valid(pairs[i].1)
  }

  // ---- One decoder undoes both encoders ----

  /** `e` spells `s` byte by byte: as itself, as an escape, or a space as `+`. */
  ghost predicate Spells(e: Bytes, s: Bytes)
    decreases |s|
  {
    if s == [] then e == []
    else
      || (e != [] && e[0] == s[0] && (FormKeeps(s[0]) || Unreserved(s[0])) && Spells(e[1..], s[1..]))
      || (e != [] && e[0] == PLUS && s[0] == SPACE && Spells(e[1..], s[1..]))
      || (|e| >= 3 && e[..3] == Escape(s[0]) && Spells(e[3..], s[1..]))
  }

  lemma {:induction false} FormEncodeSpells(s: Bytes)
    ensures Spells(FormEncode(s), s)
  {
    if s != [] {
      FormEncodeSpells(s[1..]);
      var e := FormEncode(s);
      if FormKeeps(s[0]) || s[0] == SPACE {
        assert e[1..] == FormEncode(s[1..]);
      } else {
        assert e[..3] == Escape(s[0]) && e[3..] == FormEncode(s[1..]);
      }
    }
  }

  lemma {:induction false} UriEncodeSpells(s: Bytes)
    ensures Spells(UriEncode(s), s)
  {
    if s != [] {
      UriEncodeSpells(s[1..]);
      var e := UriEncode(s);
      if Unreserved(s[0]) {
        assert e[1..] == UriEncode(s[1..]);
      } else {
        assert e[..3] == Escape(s[0]) && e[3..] == UriEncode(s[1..]);
      }
    }
  }

  /** An escape at the front decodes to its byte, whatever follows. */
  lemma DecodeEscaped(b: Byte, rest: Bytes)
    ensures PercentDecode(ReplacePlus(Escape(b) + rest)) == [b] + PercentDecode(ReplacePlus(rest))
  {
    var e := Escape(b);
    var s := e + rest;
    assert s[1..] == e[1..] + rest && s[1..][1..] == [e[2]] + rest && s[1..][1..][1..] == rest;
    assert ReplacePlus(s) == [e[0]] + ReplacePlus(s[1..]);
    assert ReplacePlus(s[1..]) == [e[1]] + ReplacePlus(s[1..][1..]);
    assert ReplacePlus(s[1..][1..]) == [e[2]] + ReplacePlus(rest);
    var r := ReplacePlus(s);
    assert r[3..] == ReplacePlus(rest) && r[0] == e[0] && r[1] == e[1] && r[2] == e[2];
  }

  lemma DecodeUnescaped(b: Byte, rest: Bytes)
    requires b != PERCENT
    ensures PercentDecode(ReplacePlus([b] + rest)) ==
              [if b == PLUS then SPACE else b] + PercentDecode(ReplacePlus(rest))
  {
    var r := ReplacePlus([b] + rest);
    assert ([b] + rest)[1..] == rest;
    assert r[1..] == ReplacePlus(rest) && !StartsEscape(r);
  }

  lemma DecodeSpelledByte(e: Bytes, b: Byte, n: nat)
    requires n <= |e|
    requires (n == 3 && e[..3] == Escape(b)) || (n == 1 && e[0] != PERCENT && b == if e[0] == PLUS then SPACE else e[0])
    ensures PercentDecode(ReplacePlus(e)) == [b] + PercentDecode(ReplacePlus(e[n..]))
  {
    assert e == e[..n] + e[n..];
    if n == 3 {
      DecodeEscaped(b, e[3..]);
    } else {
      assert e[..1] == [e[0]];
      DecodeUnescaped(e[0], e[1..]);
    }
  }

  lemma {:induction false} DecodeSpelling(e: Bytes, s: Bytes)
    requires Spells(e, s)
    ensures PercentDecode(ReplacePlus(e)) == s
    decreases |s|
  {
    if s != [] {
      if |e| >= 3 && e[..3] == Escape(s[0]) && Spells(e[3..], s[1..]) {
        DecodeSpelling(e[3..], s[1..]);
        DecodeSpelledByte(e, s[0], 3);
      } else {
        DecodeSpelling(e[1..], s[1..]);
        DecodeSpelledByte(e, s[0], 1);
      }
    }
  }

  lemma {:induction false} SpellingHasNoSeparator(e: Bytes, s: Bytes)
    requires Spells(e, s)
    ensures AMPERSAND !in e && EQUALS !in e
    decreases |s|
  {
    if s != [] {
      if |e| >= 3 && e[..3] == Escape(s[0]) && Spells(e[3..], s[1..]) {
        SpellingHasNoSeparator(e[3..], s[1..]);
        assert e == Escape(s[0]) + e[3..];
      } else {
        SpellingHasNoSeparator(e[1..], s[1..]);
        assert e == [e[0]] + e[1..];
      }
    }
  }

  /** The form encoder is undone on all valid text, and its output holds no separator. */
  lemma FormEncodeRoundTrip(s: Bytes)
    requires Valid(s)
    ensures DecodeText(FormEncode(s)) == s
    ensures AMPERSAND !in FormEncode(s) && EQUALS !in FormEncode(s)
  {
    FormEncodeSpells(s);
    DecodeSpelling(FormEncode(s), s);
    SpellingHasNoSeparator(FormEncode(s), s);
    LossyKeepsValid(s);
  }

  /** So is the RFC 3986 encoder, by the same decoder. */
  lemma UriEncodeRoundTrip(s: Bytes)
    requires Valid(s)
    ensures DecodeText(UriEncode(s)) == s
    ensures AMPERSAND !in UriEncode(s) && EQUALS !in UriEncode(s)
  {
    UriEncodeSpells(s);
    DecodeSpelling(UriEncode(s), s);
    SpellingHasNoSeparator(UriEncode(s), s);
    LossyKeepsValid(s);
  }

  // ---- Parsing what was serialized ----

  lemma ParseStep(query: Bytes, n: nat)
    requires n < |query| && query[n] == AMPERSAND && AMPERSAND !in query[..n]
    ensures Parse(query) == FirstPair(query, n) + Parse(query[n + 1..])
  {
    assert IndexOf(query, AMPERSAND) == n by { IndexOfUnique(query, AMPERSAND, n); }
  }

  lemma ParseLast(query: Bytes)
    requires AMPERSAND !in query
    ensures Parse(query) == FirstPair(query, |query|)
  {
    IndexOfUnique(query, AMPERSAND, |query|);
    assert Parse([]) == [];
  }

  lemma ParseJoinLast(a: Bytes, b: Bytes)
    requires AMPERSAND !in a
    ensures Parse(a + [AMPERSAND] + b) == Parse(a) + Parse(b)
  {
    var q := a + [AMPERSAND] + b;
    assert q[..|a|] == a && q[|a| + 1..] == b;
    ParseStep(q, |a|);
    ParseLast(a);
    assert a[..|a|] == a;
  }

  lemma {:induction false} ParseJoin(a: Bytes, b: Bytes)
    ensures Parse(a + [AMPERSAND] + b) == Parse(a) + Parse(b)
    decreases |a|
  {
    var n := IndexOf(a, AMPERSAND);
    if n == |a| {
      ParseJoinLast(a, b);
    } else {
      var q, rest := a + [AMPERSAND] + b, a[n + 1..];
      assert q[..n] == a[..n] && q[n + 1..] == rest + [AMPERSAND] + b;
      ParseStep(q, n);
      ParseStep(a, n);
      ParseJoin(rest, b);
      ConcatAssociative(FirstPair(a, n), Parse(rest), Parse(b));
    }
  }

  lemma ParseOnePair(name: Bytes, value: Bytes)
    requires AMPERSAND !in name && AMPERSAND !in value && EQUALS !in name
    ensures Parse(name + [EQUALS] + value) == [(DecodeText(name), DecodeText(value))]
  {
    var q := name + [EQUALS] + value;
    IndexOfUnique(q, AMPERSAND, |q|);
    assert q[..|q|] == q && q[..|name|] == name && q[|name| + 1..] == value;
    IndexOfUnique(q, EQUALS, |name|);
  }

  lemma ParseEncodedPair(pair: Pair)
    requires Valid(pair.0) && Valid(pair.1)
    ensures Parse(EncodePair(pair)) == [pair]
  {
    FormEncodeRoundTrip(pair.0);
    FormEncodeRoundTrip(pair.1);
    ParseOnePair(FormEncode(pair.0), FormEncode(pair.1));
  }

  lemma ParseAppended(target: Bytes, pair: Pair)
    requires Valid(pair.0) && Valid(pair.1)
    ensures Parse(AppendPair(target, pair)) == Parse(target) + [pair]
  {
    ParseEncodedPair(pair);
    if target == [] {
      assert AppendPair(target, pair) == EncodePair(pair);
    } else {
      ParseJoin(target, EncodePair(pair));
    }
  }

  /** Appending pairs to a query appends exactly them to what it parses to. */
  lemma {:induction false} ParseExtended(target: Bytes, pairs: seq<Pair>)
    requires ValidPairs(pairs)
    ensures Parse(ExtendPairs(target, pairs)) == Parse(target) + pairs
    decreases |pairs|
  {
    if pairs == [] {
      ConcatEmpty(Parse(target));
    } else {
      ParseAppended(target, pairs[0]);
      ParseExtended(AppendPair(target, pairs[0]), pairs[1..]);
      ConcatAssociative(Parse(target), [pairs[0]], pairs[1..]);
      assert pairs == [pairs[0]] + pairs[1..];
    }
  }

  lemma FirstPairIsValid(query: Bytes, n: nat)
    requires n <= |query|
    ensures ValidPairs(FirstPair(query, n))
  {
    var segment := query[..n];
    var m := IndexOf(segment, EQUALS);
    LossyIsValid(PercentDecode(ReplacePlus(segment[..m])));
    LossyIsValid(PercentDecode(ReplacePlus(if m < |segment| then segment[m + 1..] else [])));
  }

  lemma ValidPairsConcat(a: seq<Pair>, b: seq<Pair>)
    requires ValidPairs(a) && ValidPairs(b)
    ensures ValidPairs(a + b)
  {}

  lemma {:induction false} ParsedPairsAreValid(query: Bytes)
    ensures ValidPairs(Parse(query))
    decreases |query|
  {
    var n := IndexOf(query, AMPERSAND);
    FirstPairIsValid(query, n);
    if n == |query| {
      ParseLast(query);
    } else {
      ParsedPairsAreValid(query[n + 1..]);
      ParseStep(query, n);
      ValidPairsConcat(FirstPair(query, n), Parse(query[n + 1..]));
    }
  }

  /** Re-serializing keeps the meaning of every query string, malformed ones included. */
  lemma NormalisationIsSound(query: Bytes)
    ensures Parse(Serialize(Parse(query))) == Parse(query)
    ensures Serialize(Parse(Serialize(Parse(query)))) == Serialize(Parse(query))
  {
    ParsedPairsAreValid(query);
    ParseExtended([], Parse(query));
    assert Parse([]) + Parse(query) == Parse(query);
  }

  /** Every sequence of valid pairs survives serializing and parsing. */
  lemma SerializeRoundTrip(pairs: seq<Pair>)
    requires ValidPairs(pairs)
    ensures Parse(Serialize(pairs)) == pairs
  {
    ParseExtended([], pairs);
    assert Parse([]) + pairs == pairs;
  }
}
