/**
 UTF-8 by its definition (section 3 of RFC 3629): the encoding of scalar values. Texts
 are well-formed exactly if they encode scalar values, and lossy decoding replaces
 exactly the maximal subparts of what does not (section 3.9 of the Unicode Standard).
 */
module Scalars {
  import opened Sequences
  import opened Utf8

  type Scalar = c: int | 0 <= c < 0xD800 || 0xE000 <= c < 0x110000

  function Encode(c: Scalar): (s: Bytes)
    ensures s != []
  {
    if c < 0x80 then [c as Byte]
    else if c < 0x800 then [0xC0 + c / 64, 0x80 + c % 64]
    else if c < 0x10000 then [0xE0 + c / 64 / 64, 0x80 + c / 64 % 64, 0x80 + c % 64]
    else [0xF0 + c / 64 / 64 / 64, 0x80 + c / 64 / 64 % 64, 0x80 + c / 64 % 64, 0x80 + c % 64]
  }

  function EncodeAll(text: seq<Scalar>): Bytes {
    if text == [] then [] else Encode(text[0]) + EncodeAll(text[1..])
  }

  /** The two replacement bytes of the definition are U+FFFD. */
  lemma ReplacementIsEncoded()
    ensures REPLACEMENT == Encode(0xFFFD)
  {}

  // ---- Single characters ----

  lemma EncodedIsAccepted(c: Scalar)
    ensures StartsWell(Encode(c)) && Accepted(Encode(c)) == |Encode(c)|
  {
    var e := Encode(c);
    if 0x800 <= c < 0x10000 {
      ThreeByteLead(c);
    } else if 0x10000 <= c {
      FourByteLead(c);
    }
  }

  lemma ThreeByteLead(c: Scalar)
    requires 0x800 <= c < 0x10000
    ensures 0xE0 <= Encode(c)[0] <= 0xEF && IsSecond(Encode(c)[0], Encode(c)[1])
  {}

  lemma FourByteLead(c: Scalar)
    requires 0x10000 <= c
    ensures 0xF0 <= Encode(c)[0] <= 0xF4 && IsSecond(Encode(c)[0], Encode(c)[1])
  {}

  /** Appending a continuation byte to what has been read of a scalar value. */
  function Shifted(c: int, b: Byte): int { 64 * c + (b as int - 0x80) }

  lemma ShiftedBits(c: int, b: Byte)
    requires IsContinuation(b)
    ensures Shifted(c, b) / 64 == c && 0x80 + Shifted(c, b) % 64 == b
  {}

  /** The scalar value that a well-formed sequence encodes. */
  function DecodeOne(s: Bytes): (c: Scalar)
    requires s != [] && StartsWell(s)
    ensures Encode(c) == s[..Accepted(s)]
  {
    var n := Accepted(s);
    if n == 1 then s[0] as int
    else if n == 2 then
      TwoBytes(s[0], s[1]);
      Shifted(s[0] as int - 0xC0, s[1])
    else if n == 3 then
      ThreeBytes(s[0], s[1], s[2]);
      Shifted(Shifted(s[0] as int - 0xE0, s[1]), s[2])
    else
      FourBytes(s[0], s[1], s[2], s[3]);
      Shifted(Shifted(Shifted(s[0] as int - 0xF0, s[1]), s[2]), s[3])
  }

  lemma TwoBytes(a: Byte, b: Byte)
    requires 0xC2 <= a <= 0xDF && IsContinuation(b)
    ensures 0x80 <= Shifted(a as int - 0xC0, b) < 0x800 && Encode(Shifted(a as int - 0xC0, b)) == [a, b]
  {
    ShiftedBits(a as int - 0xC0, b);
  }

  lemma ThreeBytes(a: Byte, b: Byte, d: Byte)
    requires 0xE0 <= a <= 0xEF && IsSecond(a, b) && IsContinuation(d)
    ensures var c := Shifted(Shifted(a as int - 0xE0, b), d);
            && (0x800 <= c < 0xD800 || 0xE000 <= c < 0x10000)
            && Encode(c) == [a, b, d]
  {
    ShiftedBits(a as int - 0xE0, b);
    ShiftedBits(Shifted(a as int - 0xE0, b), d);
  }

  lemma FourBytesInRange(a: Byte, b: Byte, d: Byte, e: Byte)
    requires 0xF0 <= a <= 0xF4 && IsSecond(a, b) && IsContinuation(d) && IsContinuation(e)
    ensures 0x10000 <= Shifted(Shifted(Shifted(a as int - 0xF0, b), d), e) < 0x110000
  {}

  lemma EncodesFour(c: Scalar, c1: int, c2: int, c3: int)
    requires 0x10000 <= c && c1 == c / 64 && c2 == c1 / 64 && c3 == c2 / 64
    ensures Encode(c) == [0xF0 + c3, 0x80 + c2 % 64, 0x80 + c1 % 64, 0x80 + c % 64]
  {}

  lemma FourBytes(a: Byte, b: Byte, d: Byte, e: Byte)
    requires 0xF0 <= a <= 0xF4 && IsSecond(a, b) && IsContinuation(d) && IsContinuation(e)
    ensures var c := Shifted(Shifted(Shifted(a as int - 0xF0, b), d), e);
            0x10000 <= c < 0x110000 && Encode(c) == [a, b, d, e]
  {
    var c3 := a as int - 0xF0;
    var c2 := Shifted(c3, b);
    var c1 := Shifted(c2, d);
    ShiftedBits(c3, b);
    ShiftedBits(c2, d);
    ShiftedBits(c1, e);
    FourBytesInRange(a, b, d, e);
    EncodesFour(Shifted(c1, e), c1, c2, c3);
  }

  // ---- Texts ----

  lemma {:induction false} EncodedIsValid(text: seq<Scalar>)
    ensures Valid(EncodeAll(text))
  {
    if text != [] {
      var first, rest := Encode(text[0]), EncodeAll(text[1..]);
      EncodedIsValid(text[1..]);
      EncodedIsAccepted(text[0]);
      AcceptedPrefix(first, rest);
    }
  }

  lemma {:induction false} ValidIsEncoded(s: Bytes) returns (text: seq<Scalar>)
    requires Valid(s)
    ensures EncodeAll(text) == s
  {
    if s == [] {
      text := [];
    } else {
      var n := Accepted(s);
      var rest := ValidIsEncoded(s[n..]);
      text := [DecodeOne(s)] + rest;
      assert text[1..] == rest && s == s[..n] + s[n..];
    }
  }

  /** Well-formed text is exactly what encodes scalar values. */
  lemma ValidIff(s: Bytes)
    ensures Valid(s) <==> exists text :: EncodeAll(text) == s
  {
    if Valid(s) {
      var text := ValidIsEncoded(s);
    }
    if text :| EncodeAll(text) == s {
      EncodedIsValid(text);
    }
  }

  // ---- What lossy decoding replaces ----

  /** `p` begins the encoding of some character. */
  ghost predicate Begins(p: Bytes) {
    exists c: Scalar :: |p| <= |Encode(c)| && Encode(c)[..|p|] == p
  }

  /** A sequence that agrees with a character's on its first `k` bytes is accepted that far. */
  lemma BegunIsAccepted(s: Bytes, c: Scalar, k: nat)
    requires 0 < k <= |s| && k <= |Encode(c)| && Encode(c)[..k] == s[..k]
    ensures k <= Accepted(s)
  {
    var e := Encode(c);
    EncodedIsAccepted(c);
    assert forall i | 0 <= i < k :: s[i] == s[..k][i] && e[i] == e[..k][i];
  }

  /** A character that begins with the accepted bytes. */
  function Completion(s: Bytes): (p: Bytes)
    requires s != [] && Accepted(s) > 0
    ensures p != [] && StartsWell(p) && |p| == Accepted(p) >= Accepted(s) && p[..Accepted(s)] == s[..Accepted(s)]
  {
    var n, w := Accepted(s), Width(s[0]);
    var second := if n > 1 then s[1] else if s[0] == 0xE0 then 0xA0 else if s[0] == 0xF0 then 0x90 else 0x80;
    var third := if n > 2 then s[2] else 0x80;
    if w == 1 then [s[0]]
    else if w == 2 then [s[0], second]
    else if w == 3 then [s[0], second, third]
    else [s[0], second, third, if n > 3 then s[3] else 0x80]
  }

  lemma AcceptedBegins(s: Bytes, k: nat)
    requires s != [] && k <= Accepted(s) && 0 < Accepted(s)
    ensures Begins(s[..k])
  {
    var p := Completion(s);
    var c := DecodeOne(p);
    assert p[..Accepted(p)] == p && Encode(c) == p;
    assert p[..k] == p[..Accepted(s)][..k] == s[..Accepted(s)][..k] == s[..k];
  }

  /** A prefix begins a character exactly up to the accepted length. */
  lemma AcceptedIff(s: Bytes, k: nat)
    requires s != [] && 0 < k <= |s|
    ensures Begins(s[..k]) <==> k <= Accepted(s)
  {
    if k <= Accepted(s) {
      AcceptedBegins(s, k);
    }
    if Begins(s[..k]) {
      var c: Scalar :| k <= |Encode(c)| && Encode(c)[..k] == s[..k];
      BegunIsAccepted(s, c, k);
    }
  }

  /** The length of the maximal subpart: as far as a character begins, and at least one byte. */
  ghost predicate IsMaximalSubpart(s: Bytes, n: nat)
    requires n <= |s|
  {
    && 0 < n && (n > 1 ==> Begins(s[..n]))
    && forall k | n < k <= |s| :: !Begins(s[..k])
  }

  lemma LossyKeepsFirst(p: Bytes, t: Bytes)
    requires p != [] && StartsWell(p) && Accepted(p) == |p|
    ensures Lossy(p + t) == p + Lossy(t)
  {
    AcceptedPrefix(p, t);
  }

  lemma LossyKeepsStep(first: Bytes, rest: Bytes, t: Bytes)
    requires first != [] && StartsWell(first) && Accepted(first) == |first| && Lossy(rest + t) == rest + Lossy(t)
    ensures Lossy(first + rest + t) == first + rest + Lossy(t)
  {
    LossyKeepsFirst(first, rest + t);
    ConcatAssociative(first, rest, t);
    ConcatAssociative(first, rest, Lossy(t));
  }

  lemma FirstCharacter(v: Bytes) returns (first: Bytes, rest: Bytes)
    requires v != [] && Valid(v)
    ensures v == first + rest && first != [] && Valid(rest)
    ensures StartsWell(first) && Accepted(first) == |first|
  {
    first, rest := v[..Accepted(v)], v[Accepted(v)..];
    PrefixIsAccepted(v);
  }

  lemma {:induction false} LossyKeepsPrefix(v: Bytes, t: Bytes)
    requires Valid(v)
    ensures Lossy(v + t) == v + Lossy(t)
    decreases |v|
  {
    if v == [] {
      ConcatEmpty(t);
      ConcatEmpty(Lossy(t));
    } else {
      var first, rest := FirstCharacter(v);
      LossyKeepsPrefix(rest, t);
      LossyKeepsStep(first, rest, t);
    }
  }

  lemma PrefixIsAccepted(v: Bytes)
    requires v != [] && StartsWell(v)
    ensures var p := v[..Accepted(v)]; p != [] && StartsWell(p) && Accepted(p) == |p|
  {}

  /** Behind well-formed text, what begins no character is replaced by U+FFFD, one maximal subpart at a time. */
  lemma LossyReplaces(v: Bytes, s: Bytes, n: nat)
    requires Valid(v) && s != [] && n <= |s| && IsMaximalSubpart(s, n)
    requires forall c: Scalar :: !(Encode(c) <= s)
    ensures Lossy(v + s) == v + Encode(0xFFFD) + Lossy(s[n..])
  {
    StartsWithCharacterIff(s);
    SubpartIsSkipped(s, n);
    LossyKeepsPrefix(v, s);
    LossySkips(s, n);
    ReplacementIsEncoded();
    ConcatAssociative(v, REPLACEMENT, Lossy(s[n..]));
  }

  lemma StartsWithCharacterIff(s: Bytes)
    requires s != []
    ensures StartsWell(s) <==> exists c: Scalar :: Encode(c) <= s
  {
    if StartsWell(s) {
      var c := DecodeOne(s);
      assert Encode(c) <= s;
    }
    if c: Scalar :| Encode(c) <= s {
      var e := Encode(c);
      EncodedIsAccepted(c);
      AcceptedPrefix(e, s[|e|..]);
      assert s == e + s[|e|..];
    }
  }

  lemma LossySkips(s: Bytes, n: nat)
    requires s != [] && !StartsWell(s) && n <= |s| && n == if Accepted(s) == 0 then 1 else Accepted(s)
    ensures Lossy(s) == REPLACEMENT + Lossy(s[n..])
  {}

  lemma SubpartIsSkipped(s: Bytes, n: nat)
    requires s != [] && n <= |s| && IsMaximalSubpart(s, n)
    ensures n == if Accepted(s) == 0 then 1 else Accepted(s)
  {
    AcceptedIff(s, n);
    if n < |s| {
      AcceptedIff(s, n + 1);
    }
  }

  /** There always is a maximal subpart. */
  lemma MaximalSubpartExists(s: Bytes) returns (n: nat)
    requires s != []
    ensures n <= |s| && IsMaximalSubpart(s, n)
  {
    n := if Accepted(s) == 0 then 1 else Accepted(s);
    if n > 1 {
      AcceptedIff(s, n);
    }
    forall k | n < k <= |s| ensures !Begins(s[..k]) {
      AcceptedIff(s, k);
    }
  }
}
