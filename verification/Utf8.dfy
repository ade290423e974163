/**
 UTF-8 well-formedness (table 3-7 of the Unicode Standard) and lossy decoding, as
 `String::from_utf8_lossy` does it: every maximal prefix of a well-formed
 sequence that is not one itself becomes the three bytes of U+FFFD.
 */
module Utf8 {
  type Byte = x: int | 0 <= x < 256
  type Bytes = seq<Byte>

  const REPLACEMENT: Bytes := [0xEF, 0xBF, 0xBD]

  /** The length announced by a lead byte, and 0 for a byte that leads nothing. */
  function Width(lead: Byte): nat {
    if lead < 0x80 then 1
    else if 0xC2 <= lead <= 0xDF then 2
    else if 0xE0 <= lead <= 0xEF then 3
    else if 0xF0 <= lead <= 0xF4 then 4
    else 0
  }

  predicate IsContinuation(b: Byte) { 0x80 <= b <= 0xBF }

  /** The second byte excludes overlong forms, surrogates and values over U+10FFFF. */
  predicate IsSecond(lead: Byte, b: Byte) {
    && IsContinuation(b)
    && (lead == 0xE0 ==> 0xA0 <= b)
    && (lead == 0xED ==> b <= 0x9F)
    && (lead == 0xF0 ==> 0x90 <= b)
    && (lead == 0xF4 ==> b <= 0x8F)
  }

  /** How many bytes of `s` begin a well-formed sequence. */
  function Accepted(s: Bytes): (n: nat)
    requires s != []
    ensures n <= |s| && n <= Width(s[0])
  {
    var w := Width(s[0]);
    if w == 0 then 0
    else if w == 1 || |s| < 2 || !IsSecond(s[0], s[1]) then 1
    else if w == 2 || |s| < 3 || !IsContinuation(s[2]) then 2
    else if w == 3 || |s| < 4 || !IsContinuation(s[3]) then 3
    else 4
  }

  predicate StartsWell(s: Bytes)
    requires s != []
  {
    0 < Accepted(s) == Width(s[0])
  }

  predicate Valid(s: Bytes) {
    s == [] || (StartsWell(s) && Valid(s[Accepted(s)..]))
  }

  function Lossy(s: Bytes): Bytes {
    if s == [] then []
    else
      var n := Accepted(s);
      if StartsWell(s) then s[..n] + Lossy(s[n..])
      else REPLACEMENT + Lossy(s[if n == 0 then 1 else n..])
  }

  /** A well-formed sequence is recognised whatever follows it. */
  lemma AcceptedPrefix(p: Bytes, rest: Bytes)
    requires p != [] && StartsWell(p) && Accepted(p) == |p|
    ensures StartsWell(p + rest) && Accepted(p + rest) == |p|
    ensures (p + rest)[|p|..] == rest && (p + rest)[..|p|] == p
  {}

  lemma {:induction false} LossyIsValid(s: Bytes)
    ensures Valid(Lossy(s))
  {
    if s != [] {
      var n := Accepted(s);
      if StartsWell(s) {
        LossyIsValid(s[n..]);
        AcceptedPrefix(s[..n], Lossy(s[n..]));
      } else {
        var skip := if n == 0 then 1 else n;
        LossyIsValid(s[skip..]);
        AcceptedPrefix(REPLACEMENT, Lossy(s[skip..]));
      }
    }
  }

  lemma {:induction false} LossyKeepsValid(s: Bytes)
    requires Valid(s)
    ensures Lossy(s) == s
  {
    if s != [] {
      LossyKeepsValid(s[Accepted(s)..]);
    }
  }

  predicate Ascii(s: Bytes) { forall i | 0 <= i < |s| :: s[i] < 0x80 }

  lemma {:induction false} AsciiIsValid(s: Bytes)
    requires Ascii(s)
    ensures Valid(s)
  {
    if s != [] {
      AsciiIsValid(s[1..]);
    }
  }

  lemma AsciiTail(s: Bytes, n: nat)
    requires 0 < n <= |s| && Ascii(s[..n])
    ensures s[0] < 0x80 && Ascii(s[1..][..n - 1])
    ensures s[..n] == [s[0]] + s[1..][..n - 1]
  {
    assert s[..n][0] == s[0];
    assert s[1..][..n - 1] == s[..n][1..];
  }

  /** A leading run of ASCII is never the work of a replacement. */
  lemma {:induction false} LossyAsciiPrefix(s: Bytes, n: nat)
    requires n <= |Lossy(s)| && Ascii(Lossy(s)[..n])
    ensures n <= |s| && s[..n] == Lossy(s)[..n]
  {
    if n > 0 {
      var t := Lossy(s);
      AsciiTail(t, n);
      assert t[0] == if StartsWell(s) then s[0] else 0xEF;
      assert t[1..] == Lossy(s[1..]);
      LossyAsciiPrefix(s[1..], n - 1);
      assert s[..n] == [s[0]] + s[1..][..n - 1];
    }
  }

  /** So text that decodes to ASCII was that ASCII text. */
  lemma LossyAsciiIsExact(s: Bytes)
    requires Ascii(Lossy(s))
    ensures Lossy(s) == s
  {
    var n := |Lossy(s)|;
    assert Lossy(s)[..n] == Lossy(s);
    LossyAsciiPrefix(s, n);
    LossyLength(s, n);
  }

  /** Decoding drops nothing: beyond `n` ASCII bytes there is more output. */
  lemma {:induction false} LossyLength(s: Bytes, n: nat)
    requires n <= |s| && Ascii(s[..n]) && |Lossy(s)| == n
    ensures |s| == n
  {
    if n > 0 {
      AsciiTail(s, n);
      LossyLength(s[1..], n - 1);
    }
  }
}
