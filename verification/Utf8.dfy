// Well-formed UTF-8 byte sequences, section 4 of RFC 3629.
module Utf8 {
  import opened Common

  // (b & 0xC0) == 0x80: not the first byte of a character.
  predicate IsContinuation(b: byte) {
    0x80 <= b < 0xC0
  }

  predicate IsAscii(s: seq<byte>) {
    forall i :: 0 <= i < |s| ==> s[i] < 0x80
  }

  predicate Tails(s: seq<byte>, from: nat, to: nat) {
    to <= |s| && forall i :: from <= i < to ==> IsContinuation(s[i])
  }

  // The length of the character s starts with, 0 when there is none.
  function CharLength(s: seq<byte>): (n: nat)
    ensures n <= |s| && n <= 4
    ensures n > 0 ==> !IsContinuation(s[0]) && forall i :: 1 <= i < n ==> IsContinuation(s[i])
  {
    if s == [] then 0
    else if s[0] < 0x80 then 1
    else if 0xC2 <= s[0] <= 0xDF then (if Tails(s, 1, 2) then 2 else 0)
    else if 0xE0 <= s[0] <= 0xEF then
      (if Tails(s, 1, 3) && (s[0] == 0xE0 ==> s[1] >= 0xA0) && (s[0] == 0xED ==> s[1] <= 0x9F) then 3 else 0)
    else if 0xF0 <= s[0] <= 0xF4 then
      (if Tails(s, 1, 4) && (s[0] == 0xF0 ==> s[1] >= 0x90) && (s[0] == 0xF4 ==> s[1] <= 0x8F) then 4 else 0)
    else 0
  }

  predicate ValidUtf8(s: seq<byte>) {
    s == [] || (CharLength(s) > 0 && ValidUtf8(s[CharLength(s)..]))
  }

  // The first character is decided by its own bytes alone.
  lemma CharLengthOfPrefix(s: seq<byte>, p: nat)
    requires p <= |s| && CharLength(s) > 0
    ensures CharLength(s[..p]) == if p >= CharLength(s) then CharLength(s) else 0
  {
  }

  lemma CharLengthOfAppend(s: seq<byte>, t: seq<byte>)
    requires CharLength(s) > 0
    ensures CharLength(s + t) == CharLength(s)
  {
    CharLengthOfLonger(s + t, |s|);
  }

  lemma CharLengthOfLonger(s: seq<byte>, p: nat)
    requires p <= |s| && CharLength(s[..p]) > 0
    ensures CharLength(s) == CharLength(s[..p])
  {
  }

  lemma DropThenTake(s: seq<byte>, n: nat, p: nat)
    requires n <= p <= |s|
    ensures s[..p][n..] == s[n..][..p - n]
  {
  }

  // A prefix of valid text is whole characters exactly when the text ends there or
  // the next byte starts a character.
  lemma {:induction false} PrefixValidIff(s: seq<byte>, p: nat)
    requires ValidUtf8(s) && p <= |s|
    ensures ValidUtf8(s[..p]) <==> p == |s| || !IsContinuation(s[p])
    decreases |s|
  {
    if p > 0 {
      var n := CharLength(s);
      CharLengthOfPrefix(s, p);
      if p >= n {
        PrefixValidIff(s[n..], p - n);
        DropThenTake(s, n, p);
      }
    }
  }

  // Every byte of valid text is within 3 bytes of the start of its character.
  lemma {:induction false} CharStartNear(s: seq<byte>, p: nat) returns (start: nat)
    requires ValidUtf8(s) && p < |s|
    ensures start <= p <= start + 3 && !IsContinuation(s[start])
    decreases |s|
  {
    var n := CharLength(s);
    if p < n {
      start := 0;
    } else {
      var rest := CharStartNear(s[n..], p - n);
      start := rest + n;
    }
  }

  lemma DropOfConcat(s: seq<byte>, t: seq<byte>, n: nat)
    requires n <= |s|
    ensures (s + t)[n..] == s[n..] + t
  {
  }

  lemma {:induction false} AppendValid(s: seq<byte>, t: seq<byte>)
    requires ValidUtf8(s) && ValidUtf8(t)
    ensures ValidUtf8(s + t)
    decreases |s|
  {
    if s == [] {
      assert s + t == t;
    } else {
      var n := CharLength(s);
      CharLengthOfAppend(s, t);
      AppendValid(s[n..], t);
      DropOfConcat(s, t, n);
    }
  }

  lemma {:induction false} AsciiValid(s: seq<byte>)
    requires IsAscii(s)
    ensures ValidUtf8(s)
    decreases |s|
  {
    if s != [] {
      AsciiValid(s[1..]);
    }
  }

  // ---- what valid text is ----

  // Section 3 of RFC 3629: code points but surrogates, in one to four bytes.
  predicate IsScalar(c: nat) {
    c < 0xD800 || 0xE000 <= c < 0x11_0000
  }

  function Encode(c: nat): (s: seq<byte>)
    requires IsScalar(c)
  {
    if c < 0x80 then [c as byte]
    else if c < 0x800 then [(0xC0 + c / 0x40) as byte, (0x80 + c % 0x40) as byte]
    else if c < 0x1_0000 then
      [(0xE0 + c / 0x1000) as byte, (0x80 + c / 0x40 % 0x40) as byte, (0x80 + c % 0x40) as byte]
    else
      [(0xF0 + c / 0x4_0000) as byte, (0x80 + c / 0x1000 % 0x40) as byte, (0x80 + c / 0x40 % 0x40) as byte,
       (0x80 + c % 0x40) as byte]
  }

  function EncodeAll(text: seq<nat>): seq<byte>
    requires forall i :: 0 <= i < |text| ==> IsScalar(text[i])
  {
    if text == [] then [] else Encode(text[0]) + EncodeAll(text[1..])
  }

  lemma EncodedLength(c: nat)
    requires IsScalar(c)
    ensures CharLength(Encode(c)) == |Encode(c)| > 0
  {
  }

  lemma TwoDigits(a: nat, b: nat)
    requires b < 0x40
    ensures (a * 0x40 + b) / 0x40 == a && (a * 0x40 + b) % 0x40 == b
  {
  }

  lemma ThreeDigits(a: nat, b: nat, d: nat)
    requires b < 0x40 && d < 0x40
    ensures var c := a * 0x1000 + b * 0x40 + d;
            c / 0x1000 == a && c / 0x40 % 0x40 == b && c % 0x40 == d
  {
    TwoDigits(a * 0x40 + b, d);
    TwoDigits(a, b);
  }

  lemma FourDigits(a: nat, b: nat, d: nat, e: nat)
    requires b < 0x40 && d < 0x40 && e < 0x40
    ensures var c := a * 0x4_0000 + b * 0x1000 + d * 0x40 + e;
            c / 0x4_0000 == a && c / 0x1000 % 0x40 == b && c / 0x40 % 0x40 == d && c % 0x40 == e
  {
    ThreeDigits(a * 0x40 + b, d, e);
    TwoDigits(a, b);
  }

  // The bits of a character's bytes.
  function Decode(s: seq<byte>): nat
    requires CharLength(s) > 0
  {
    match CharLength(s)
    case 1 => s[0] as nat
    case 2 => (s[0] as nat - 0xC0) * 0x40 + (s[1] as nat - 0x80)
    case 3 => (s[0] as nat - 0xE0) * 0x1000 + (s[1] as nat - 0x80) * 0x40 + (s[2] as nat - 0x80)
    case _ =>
      (s[0] as nat - 0xF0) * 0x4_0000 + (s[1] as nat - 0x80) * 0x1000 + (s[2] as nat - 0x80) * 0x40
      + (s[3] as nat - 0x80)
  }

  lemma DecodedEncodes(s: seq<byte>)
    requires CharLength(s) > 0
    ensures IsScalar(Decode(s)) && s[..CharLength(s)] == Encode(Decode(s))
  {
    match CharLength(s)
    case 1 =>
    case 2 => TwoDigits(s[0] as nat - 0xC0, s[1] as nat - 0x80);
    case 3 => ThreeDigits(s[0] as nat - 0xE0, s[1] as nat - 0x80, s[2] as nat - 0x80);
    case _ => FourBytes(s);
  }

  lemma FourBytes(s: seq<byte>)
    requires CharLength(s) == 4
    ensures IsScalar(Decode(s)) && s[..4] == Encode(Decode(s))
  {
    FourDigits(s[0] as nat - 0xF0, s[1] as nat - 0x80, s[2] as nat - 0x80, s[3] as nat - 0x80);
  }

  ghost predicate IsEncoded(s: seq<byte>) {
    exists text :: (forall i :: 0 <= i < |text| ==> IsScalar(text[i])) && s == EncodeAll(text)
  }

  lemma {:induction false} EncodedIsValid(text: seq<nat>)
    requires forall i :: 0 <= i < |text| ==> IsScalar(text[i])
    ensures ValidUtf8(EncodeAll(text))
  {
    if text != [] {
      EncodedIsValid(text[1..]);
      var e := Encode(text[0]);
      EncodedLength(text[0]);
      CharLengthOfAppend(e, EncodeAll(text[1..]));
      DropOfConcat(e, EncodeAll(text[1..]), |e|);
      assert e[|e|..] == [];
    }
  }

  lemma OneMoreScalar(c: nat, e: seq<byte>, rest: seq<byte>)
    requires IsScalar(c) && e == Encode(c) && IsEncoded(rest)
    ensures IsEncoded(e + rest)
  {
    var text :| (forall i :: 0 <= i < |text| ==> IsScalar(text[i])) && rest == EncodeAll(text);
    assert ([c] + text)[1..] == text;
    assert e + rest == EncodeAll([c] + text);
  }

  lemma FirstCharacter(s: seq<byte>)
    requires CharLength(s) > 0 && IsEncoded(s[CharLength(s)..])
    ensures IsEncoded(s)
  {
    var n := CharLength(s);
    DecodedEncodes(s);
    OneMoreScalar(Decode(s), s[..n], s[n..]);
    assert s == s[..n] + s[n..];
  }

  // Valid text is the encoding of some sequence of scalar values, and nothing else is.
  lemma {:induction false} ValidIff(s: seq<byte>)
    ensures ValidUtf8(s) <==> IsEncoded(s)
    decreases |s|
  {
    if IsEncoded(s) {
      var text :| (forall i :: 0 <= i < |text| ==> IsScalar(text[i])) && s == EncodeAll(text);
      EncodedIsValid(text);
    }
    if s == [] {
      assert s == EncodeAll([]);
    } else if ValidUtf8(s) {
      ValidIff(s[CharLength(s)..]);
      FirstCharacter(s);
    }
  }
}
