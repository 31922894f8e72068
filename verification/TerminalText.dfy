// Kotlin strings as the terminal log sees them: UTF-16 code units, and their size as UTF-8.
module TerminalText {
  import Utf8

  newtype unit16 = x: int | 0 <= x < 0x1_0000

  type Text = seq<unit16>

  const NEWLINE: unit16 := 10

  predicate IsHigh(u: unit16) {
    0xD800 <= u < 0xDC00
  }

  predicate IsLow(u: unit16) {
    0xDC00 <= u < 0xE000
  }

  // The boundary between a and b falls inside a surrogate pair.
  predicate SplitsPair(a: Text, b: Text) {
    a != [] && b != [] && IsHigh(a[|a| - 1]) && IsLow(b[0])
  }

  // Unit i is half of a surrogate pair: a high one right before a low one.
  predicate InPair(s: Text, i: nat)
    requires i < |s|
  {
    || (IsHigh(s[i]) && i + 1 < |s| && IsLow(s[i + 1]))
    || (IsLow(s[i]) && i > 0 && IsHigh(s[i - 1]))
  }

  // Bytes of unit i in toByteArray(UTF_8): a pair takes 4, a surrogate without its
  // partner becomes "?".
  function UnitSize(s: Text, i: nat): nat
    requires i < |s|
  {
    if InPair(s, i) then 2
    else if s[i] < 0x80 || IsHigh(s[i]) || IsLow(s[i]) then 1
    else if s[i] < 0x800 then 2
    else 3
  }

  function SizeUpTo(s: Text, n: nat): nat
    requires n <= |s|
  {
    if n == 0 then 0 else SizeUpTo(s, n - 1) + UnitSize(s, n - 1)
  }

  function Utf8Size(s: Text): nat {
    SizeUpTo(s, |s|)
  }

  lemma {:induction false} SizeOfFront(a: Text, b: Text, n: nat)
    requires n <= |a|
    ensures SizeUpTo(a + b, n) == SizeUpTo(a, n) + if n == |a| && SplitsPair(a, b) then 1 else 0
  {
    if n > 0 {
      SizeOfFront(a, b, n - 1);
    }
  }

  lemma {:induction false} SizeOfBack(a: Text, b: Text, n: nat)
    requires n <= |b|
    ensures SizeUpTo(a + b, |a| + n) ==
            SizeUpTo(a + b, |a|) + SizeUpTo(b, n) + if n > 0 && SplitsPair(a, b) then 1 else 0
  {
    if n > 0 {
      SizeOfBack(a, b, n - 1);
    }
  }

  // Cutting a text in two keeps its size exactly when no pair is split.
  lemma SizeOfConcat(a: Text, b: Text)
    ensures Utf8Size(a + b) == Utf8Size(a) + Utf8Size(b) + if SplitsPair(a, b) then 2 else 0
  {
    SizeOfFront(a, b, |a|);
    SizeOfBack(a, b, |b|);
  }

  // ---- the size is that of the text's UTF-8 ----

  const REPLACEMENT: nat := 0x3F   // "?"

  // The code points of UTF-16 text, as toByteArray(UTF_8) encodes them.
  function CodePoints(s: Text): (r: seq<nat>)
    ensures forall i :: 0 <= i < |r| ==> Utf8.IsScalar(r[i])
  {
    if s == [] then []
    else if IsHigh(s[0]) && |s| > 1 && IsLow(s[1]) then
      [0x1_0000 + (s[0] as nat - 0xD800) * 0x400 + (s[1] as nat - 0xDC00)] + CodePoints(s[2..])
    else if IsHigh(s[0]) || IsLow(s[0]) then [REPLACEMENT] + CodePoints(s[1..])
    else [s[0] as nat] + CodePoints(s[1..])
  }

  lemma EncodedFirst(c: nat, rest: seq<nat>)
    requires Utf8.IsScalar(c) && forall i :: 0 <= i < |rest| ==> Utf8.IsScalar(rest[i])
    ensures |Utf8.EncodeAll([c] + rest)| == |Utf8.Encode(c)| + |Utf8.EncodeAll(rest)|
  {
    assert ([c] + rest)[1..] == rest;
  }

  lemma SizeOfOne(u: unit16)
    ensures Utf8Size([u]) == if u < 0x80 || IsHigh(u) || IsLow(u) then 1 else if u < 0x800 then 2 else 3
  {
    assert SizeUpTo([u], 1) == SizeUpTo([u], 0) + UnitSize([u], 0);
  }

  lemma SizeOfPair(u: unit16, v: unit16)
    requires IsHigh(u) && IsLow(v)
    ensures Utf8Size([u, v]) == 4
  {
    assert [u, v] == [u] + [v];
    SizeOfConcat([u], [v]);
    SizeOfOne(u);
    SizeOfOne(v);
  }

  // Utf8Size is the number of bytes of that encoding.
  lemma {:induction false} SizeIsEncoded(s: Text)
    ensures Utf8Size(s) == |Utf8.EncodeAll(CodePoints(s))|
    decreases |s|
  {
    if s != [] {
      var pair := IsHigh(s[0]) && |s| > 1 && IsLow(s[1]);
      var n := if pair then 2 else 1;
      SizeIsEncoded(s[n..]);
      SizeOfConcat(s[..n], s[n..]);
      assert s == s[..n] + s[n..];
      EncodedFirst(CodePoints(s)[0], CodePoints(s[n..]));
      if pair {
        assert s[..2] == [s[0], s[1]];
        SizeOfPair(s[0], s[1]);
      } else {
        assert s[..1] == [s[0]];
        SizeOfOne(s[0]);
      }
    }
  }
}
