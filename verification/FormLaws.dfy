/**
 What the form parser makes of a text, in the letters of the text: section 5.1 of the
 WHATWG URL Standard byte by byte and segment by segment, whoever wrote the text.
 */
module FormLaws {
  import opened FormCodec
  import opened Scalars
  import opened Sequences
  import opened Utf8

  // ---- Digits and escapes ----

  /** `d` is the hexadecimal digit of value `v`, in either case. */
  predicate IsDigitOf(d: Byte, v: int) {
    || (0 <= v < 10 && d == 0x30 + v)
    || (10 <= v < 16 && (d == 0x41 + (v - 10) || d == 0x61 + (v - 10)))
  }

  lemma DigitIff(d: Byte)
    ensures IsHex(d) <==> exists v :: IsDigitOf(d, v)
    ensures forall v :: IsDigitOf(d, v) <==> IsHex(d) && HexValue(d) == v
  {
    if IsHex(d) {
      assert IsDigitOf(d, HexValue(d));
    }
  }

  /** Both encoders escape with `%` and two digits, letters among them in upper case. */
  lemma EscapeIs(b: Byte)
    ensures Escape(b) == [0x25, Escape(b)[1], Escape(b)[2]]
    ensures IsDigitOf(Escape(b)[1], b / 16) && IsDigitOf(Escape(b)[2], b % 16)
    ensures Escape(b)[1] < 0x61 && Escape(b)[2] < 0x61
  {
    var e := Escape(b);
    assert e == [e[0], e[1], e[2]];
    DigitIff(e[1]);
    DigitIff(e[2]);
  }

  /** `e` is `s` with every byte escaped, in either case. */
  ghost predicate Escapes(e: Bytes, s: Bytes)
    decreases |s|
  {
    if s == [] then e == []
    else
      && |e| >= 3 && e[0] == 0x25 && IsDigitOf(e[1], s[0] / 16) && IsDigitOf(e[2], s[0] % 16)
      && Escapes(e[3..], s[1..])
  }

  lemma UnescapesTo(r: Bytes, b: Byte)
    requires |r| >= 3 && r[0] == 0x25 && IsDigitOf(r[1], b / 16) && IsDigitOf(r[2], b % 16)
    ensures PercentDecode(r) == [b] + PercentDecode(r[3..])
  {
    DigitIff(r[1]);
    DigitIff(r[2]);
  }

  lemma {:induction false} ReplacePlusConcat(a: Bytes, b: Bytes)
    ensures ReplacePlus(a + b) == ReplacePlus(a) + ReplacePlus(b)
  {
    if a == [] {
      ConcatEmpty(b);
    } else {
      var head := [if a[0] == PLUS then SPACE else a[0]];
      ReplacePlusConcat(a[1..], b);
      assert (a + b)[1..] == a[1..] + b;
      ConcatAssociative(head, ReplacePlus(a[1..]), ReplacePlus(b));
    }
  }

  lemma {:induction false} EscapesDecode(e: Bytes, s: Bytes, t: Bytes)
    requires Escapes(e, s)
    ensures PercentDecode(ReplacePlus(e + t)) == s + PercentDecode(ReplacePlus(t))
    decreases |s|
  {
    if s == [] {
      assert e + t == t;
      ConcatEmpty(PercentDecode(ReplacePlus(t)));
    } else {
      var text := e + t;
      EscapesDecode(e[3..], s[1..], t);
      assert text[3..] == e[3..] + t;
      OneEscapeDecodes(text, s[0]);
      assert s == [s[0]] + s[1..];
      ConcatAssociative([s[0]], s[1..], PercentDecode(ReplacePlus(t)));
    }
  }

  lemma OneEscapeDecodes(text: Bytes, b: Byte)
    requires |text| >= 3 && text[0] == 0x25 && IsDigitOf(text[1], b / 16) && IsDigitOf(text[2], b % 16)
    ensures PercentDecode(ReplacePlus(text)) == [b] + PercentDecode(ReplacePlus(text[3..]))
  {
    var head, tail := [text[0], text[1], text[2]], text[3..];
    assert text == head + tail;
    ReplacePlusConcat(head, tail);
    ReplacePlusKeeps(head);
    var r := head + ReplacePlus(tail);
    assert r[3..] == ReplacePlus(tail);
    UnescapesTo(r, b);
  }

  // ---- Decoding, character by character ----

  /** An ASCII character other than `%` and `+` reads as itself, and `+` as a space. */
  lemma ReadsPlain(b: Byte, t: Bytes)
    requires b < 0x80 && b != 0x25
    ensures DecodeText([b] + t) == [if b == 0x2B then 0x20 else b] + DecodeText(t)
  {
    DecodeUnescaped(b, t);
    LossyKeepsFirst([if b == 0x2B then 0x20 else b], PercentDecode(ReplacePlus(t)));
  }

  /** Any character reads as itself when its UTF-8 bytes are escaped, in digits of either case. */
  lemma ReadsEscaped(c: Scalar, e: Bytes, t: Bytes)
    requires Escapes(e, Encode(c))
    ensures DecodeText(e + t) == Encode(c) + DecodeText(t)
  {
    EscapesDecode(e, Encode(c), t);
    EncodedIsAccepted(c);
    LossyKeepsFirst(Encode(c), PercentDecode(ReplacePlus(t)));
  }

  /** A `%` without two digits behind it reads as itself. */
  lemma ReadsStrayPercent(t: Bytes)
    requires forall v, w | |t| >= 2 :: !(IsDigitOf(t[0], v) && IsDigitOf(t[1], w))
    ensures DecodeText([0x25] + t) == [0x25] + DecodeText(t)
  {
    var s := [0x25] + t;
    var r := ReplacePlus(s);
    assert s[1..] == t && r == [0x25] + ReplacePlus(t) && r[1..] == ReplacePlus(t);
    if |t| >= 2 {
      assert ReplacePlus(t) == [if t[0] == PLUS then SPACE else t[0]] + ReplacePlus(t[1..]);
      DigitIff(t[0]);
      DigitIff(t[1]);
    }
    assert !StartsEscape(r);
    LossyKeepsFirst([0x25], PercentDecode(ReplacePlus(t)));
  }

  // ---- Parsing, segment by segment ----

  /** These four laws say what every query parses to; a segment without `=` is a name without a value. */
  lemma ParseLaws(a: Bytes, b: Bytes, name: Bytes, value: Bytes)
    requires 0x26 !in name && 0x26 !in value && 0x3D !in name
    ensures Parse([]) == []
    ensures Parse(a + [0x26] + b) == Parse(a) + Parse(b)
    ensures Parse(name + [0x3D] + value) == [(DecodeText(name), DecodeText(value))]
    ensures name != [] ==> Parse(name) == [(DecodeText(name), [])]
  {
    ParseJoin(a, b);
    ParseOnePair(name, value);
    if name != [] {
      ParseBareName(name);
    }
  }

  lemma ParseBareName(name: Bytes)
    requires name != [] && AMPERSAND !in name && EQUALS !in name
    ensures Parse(name) == [(DecodeText(name), [])]
  {
    ParseLast(name);
    IndexOfUnique(name, EQUALS, |name|);
    assert name[..|name|] == name;
    assert DecodeText([]) == [];
  }

  /** `q[i..j]` is a segment: what stands between two `&`, or before or behind one, and is not empty. */
  ghost predicate IsSegment(q: Bytes, i: nat, j: nat) {
    && i < j <= |q| && (i == 0 || q[i - 1] == 0x26) && (j == |q| || q[j] == 0x26)
    && 0x26 !in q[i..j]
  }

  /** And `q[i..k]` is its name: the segment up to its first `=`. */
  ghost predicate IsName(q: Bytes, i: nat, k: nat, j: nat) {
    IsSegment(q, i, j) && i <= k <= j && 0x3D !in q[i..k] && (k == j || q[k] == 0x3D)
  }

  /** Some segment's name reads as the field. */
  ghost predicate NamesField(q: Bytes, field: Bytes) {
    exists i: nat, k: nat, j: nat :: IsName(q, i, k, j) && DecodeText(q[i..k]) == field
  }

  lemma HasKeyConcat(a: seq<Pair>, b: seq<Pair>, field: Bytes)
    ensures HasKey(a + b, field) <==> HasKey(a, field) || HasKey(b, field)
  {
    if HasKey(a, field) {
      var x :| 0 <= x < |a| && a[x].0 == field;
      assert (a + b)[x].0 == field;
    }
    if HasKey(b, field) {
      var x :| 0 <= x < |b| && b[x].0 == field;
      assert (a + b)[|a| + x].0 == field;
    }
  }

  /** The name of the first segment. */
  lemma FirstName(q: Bytes, n: nat) returns (k: nat)
    requires 0 < n <= |q| && AMPERSAND !in q[..n] && (n < |q| ==> q[n] == AMPERSAND)
    ensures IsName(q, 0, k, n) && DecodePair(q[..n]).0 == DecodeText(q[0..k])
  {
    k := IndexOf(q[..n], EQUALS);
    assert q[0..n] == q[..n] && q[0..k] == q[..n][..k];
  }

  lemma NameIsFirst(q: Bytes, n: nat, i: nat, k: nat, j: nat)
    requires n <= |q| && AMPERSAND !in q[..n] && (n < |q| ==> q[n] == AMPERSAND)
    requires IsName(q, i, k, j) && i <= n
    ensures i == 0 && j == n && DecodePair(q[..n]).0 == DecodeText(q[i..k])
  {
    NotIn(q, 0, n, AMPERSAND);
    NotIn(q, i, j, AMPERSAND);
    assert q[0..n] == q[..n];
    assert i == 0 && j == n;
    assert q[i..k] == q[..n][..k];
    IndexOfUnique(q[..n], EQUALS, k);
  }

  lemma NotIn(s: Bytes, i: nat, j: nat, b: Byte)
    requires i <= j <= |s| && b !in s[i..j]
    ensures forall x | i <= x < j :: s[x] != b
  {
    assert forall x | i <= x < j :: s[x] == s[i..j][x - i];
  }

  /** Behind the first `&` the names are those of the rest. */
  lemma NameShifts(q: Bytes, m: nat, i: nat, k: nat, j: nat)
    requires 0 < m <= |q| && q[m - 1] == AMPERSAND
    ensures IsName(q[m..], i, k, j) <==> IsName(q, m + i, m + k, m + j)
    ensures i <= k <= |q| - m ==> q[m..][i..k] == q[m + i..m + k]
  {
    if i <= k <= j <= |q| - m {
      assert q[m..][i..k] == q[m + i..m + k] && q[m..][i..j] == q[m + i..m + j];
    } else if i <= k <= |q| - m {
      assert q[m..][i..k] == q[m + i..m + k];
    }
  }

  /** A parsed query has a key exactly if some segment names it. */
  lemma {:induction false} HasKeyIff(q: Bytes, field: Bytes)
    ensures HasKey(Parse(q), field) <==> NamesField(q, field)
    decreases |q|, 1
  {
    var n := IndexOf(q, AMPERSAND);
    if HasKey(Parse(q), field) {
      HasKeyIsNamed(q, n, field);
    }
    if NamesField(q, field) {
      NamedIsKey(q, n, field);
    }
  }

  lemma HasKeyFirst(q: Bytes, n: nat, field: Bytes)
    requires n <= |q|
    ensures HasKey(FirstPair(q, n), field) <==> n > 0 && DecodePair(q[..n]).0 == field
  {
    if n > 0 {
      assert FirstPair(q, n)[0] == DecodePair(q[..n]);
    }
  }

  lemma HasKeySplits(q: Bytes, n: nat, field: Bytes)
    requires n == IndexOf(q, AMPERSAND)
    ensures HasKey(Parse(q), field) <==>
              || (n > 0 && DecodePair(q[..n]).0 == field)
              || (n < |q| && HasKey(Parse(q[n + 1..]), field))
  {
    HasKeyFirst(q, n, field);
    if n < |q| {
      ParseStep(q, n);
      HasKeyConcat(FirstPair(q, n), Parse(q[n + 1..]), field);
    } else {
      ParseLast(q);
    }
  }

  lemma HasKeyIsNamed(q: Bytes, n: nat, field: Bytes)
    requires n == IndexOf(q, AMPERSAND) && HasKey(Parse(q), field)
    ensures NamesField(q, field)
    decreases |q|, 0
  {
    HasKeySplits(q, n, field);
    if n > 0 && DecodePair(q[..n]).0 == field {
      var k := FirstName(q, n);
    } else {
      HasKeyIff(q[n + 1..], field);
      var i: nat, k: nat, j: nat :| IsName(q[n + 1..], i, k, j) && DecodeText(q[n + 1..][i..k]) == field;
      NameShifts(q, n + 1, i, k, j);
    }
  }

  lemma NamedIsKey(q: Bytes, n: nat, field: Bytes)
    requires n == IndexOf(q, AMPERSAND) && NamesField(q, field)
    ensures HasKey(Parse(q), field)
    decreases |q|, 0
  {
    HasKeySplits(q, n, field);
    var i: nat, k: nat, j: nat :| IsName(q, i, k, j) && DecodeText(q[i..k]) == field;
    if i <= n {
      NameIsFirst(q, n, i, k, j);
    } else {
      LaterName(q, n + 1, i, k, j);
      HasKeyIff(q[n + 1..], field);
    }
  }

  lemma LaterName(q: Bytes, m: nat, i: nat, k: nat, j: nat)
    requires 0 < m <= i && m <= |q| && q[m - 1] == AMPERSAND && IsName(q, i, k, j)
    ensures NamesField(q[m..], DecodeText(q[i..k]))
  {
    NameShifts(q, m, i - m, k - m, j - m);
  }
}
