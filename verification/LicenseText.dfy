// The text operations of gen-licenses.py: whitespace, norm, find, escape.
module LicenseText {
  import opened Common

  // str.isspace, which \s and strip() use.
  predicate IsSpace(c: char) {
    || '\t' <= c <= '\r' || '\U{001C}' <= c <= ' ' || c == '\U{0085}' || c == '\U{00A0}' || c == '\U{1680}'
    || '\U{2000}' <= c <= '\U{200A}' || c == '\U{2028}' || c == '\U{2029}' || c == '\U{202F}' || c == '\U{205F}'
    || c == '\U{3000}'
  }

  const ASCII_SPACES: string := "\t\n\U{000B}\U{000C}\r\U{001C}\U{001D}\U{001E}\U{001F} "
  const WIDE_SPACES: string :=
    "\U{0085}\U{00A0}\U{1680}\U{2000}\U{2001}\U{2002}\U{2003}\U{2004}\U{2005}\U{2006}\U{2007}\U{2008}\U{2009}"
    + "\U{200A}\U{2028}\U{2029}\U{202F}\U{205F}\U{3000}"

  // The 29 characters, one by one.
  lemma SpaceIff(c: char)
    ensures IsSpace(c) <==> c in ASCII_SPACES || c in WIDE_SPACES
  {
    if '\t' <= c <= '\r' {
      assert ASCII_SPACES[c as int - 9] == c;
    } else if '\U{001C}' <= c <= ' ' {
      assert ASCII_SPACES[5 + (c as int - 0x1C)] == c;
    } else if '\U{2000}' <= c <= '\U{200A}' {
      assert WIDE_SPACES[3 + (c as int - 0x2000)] == c;
    } else if IsSpace(c) {
      assert WIDE_SPACES[0] == '\U{0085}' && WIDE_SPACES[1] == '\U{00A0}' && WIDE_SPACES[2] == '\U{1680}';
      assert WIDE_SPACES[14] == '\U{2028}' && WIDE_SPACES[15] == '\U{2029}' && WIDE_SPACES[16] == '\U{202F}';
      assert WIDE_SPACES[17] == '\U{205F}' && WIDE_SPACES[18] == '\U{3000}';
    }
  }

  predicate IsBlank(s: string) {
    forall i :: 0 <= i < |s| ==> IsSpace(s[i])
  }

  // The first index from i on whose character is not dropped.
  function SkipWhile(s: string, i: nat, drop: char -> bool): (r: nat)
    requires i <= |s|
    ensures i <= r <= |s| && (r < |s| ==> !drop(s[r]))
    ensures forall k :: i <= k < r ==> drop(s[k])
    decreases |s| - i
  {
    if i < |s| && drop(s[i]) then SkipWhile(s, i + 1, drop) else i
  }

  // s.find(w, from, to): the leftmost occurrence within [from, to), or -1.
  function Find(s: string, w: string, from: nat, to: nat): (r: int)
    ensures r == -1 || (from <= r && r + |w| <= Min(to, |s|) && OccursAt(s, w, r))
    ensures forall p: nat :: from <= p < (if r == -1 then |s| + 1 else r) && p + |w| <= Min(to, |s|) ==>
              !OccursAt(s, w, p)
    decreases |s| + 1 - from
  {
    if from + |w| > Min(to, |s|) then -1
    else if OccursAt(s, w, from) then from
    else Find(s, w, from + 1, to)
  }

  // strip(), for a given set of characters.
  function LStrip(s: string, drop: char -> bool): string {
    if s != [] && drop(s[0]) then LStrip(s[1..], drop) else s
  }

  function RStrip(s: string, drop: char -> bool): string {
    if s != [] && drop(s[|s| - 1]) then RStrip(s[..|s| - 1], drop) else s
  }

  function Strip(s: string, drop: char -> bool): string {
    RStrip(LStrip(s, drop), drop)
  }

  // text.replace("https://", "http://")
  function HttpsAsHttp(s: string): string {
    if s == [] then []
    else if OccursAt(s, "https://", 0) then "http://" + HttpsAsHttp(s[8..])
    else [s[0]] + HttpsAsHttp(s[1..])
  }

  // re.sub(r"\s+", " ", s)
  function Collapse(s: string): string
    decreases |s|
  {
    if s == [] then []
    else if IsSpace(s[0]) then " " + Collapse(s[SkipWhile(s, 1, IsSpace)..])
    else [s[0]] + Collapse(s[1..])
  }

  function Norm(text: string): string {
    Strip(Collapse(HttpsAsHttp(text)), IsSpace)
  }

  // ---- what norm compares ----

  // The index of the first whitespace from i on.
  function WordEnd(s: string, i: nat): (r: nat)
    requires i <= |s|
    ensures i <= r <= |s| && (r < |s| ==> IsSpace(s[r]))
    ensures forall k :: i <= k < r ==> !IsSpace(s[k])
    decreases |s| - i
  {
    if i < |s| && !IsSpace(s[i]) then WordEnd(s, i + 1) else i
  }

  function Words(s: string): seq<string>
    decreases |s|
  {
    if s == [] then []
    else if IsSpace(s[0]) then Words(s[SkipWhile(s, 1, IsSpace)..])
    else [s[..WordEnd(s, 1)]] + Words(s[WordEnd(s, 1)..])
  }

  function Joined(words: seq<string>): string {
    if words == [] then []
    else if |words| == 1 then words[0]
    else words[0] + " " + Joined(words[1..])
  }

  predicate IsWord(w: string) {
    w != [] && forall i :: 0 <= i < |w| ==> !IsSpace(w[i])
  }

  lemma {:induction false} WordsAreWords(s: string)
    ensures forall i :: 0 <= i < |Words(s)| ==> IsWord(Words(s)[i])
    decreases |s|
  {
    if s != [] {
      if IsSpace(s[0]) {
        WordsAreWords(s[SkipWhile(s, 1, IsSpace)..]);
      } else {
        WordsAreWords(s[WordEnd(s, 1)..]);
      }
    }
  }

  lemma {:induction false} CollapseWord(w: string, rest: string)
    requires forall i :: 0 <= i < |w| ==> !IsSpace(w[i])
    ensures Collapse(w + rest) == w + Collapse(rest)
  {
    if w == [] {
      assert w + rest == rest;
    } else {
      assert (w + rest)[1..] == w[1..] + rest;
      CollapseWord(w[1..], rest);
    }
  }

  lemma SkipIs(s: string, i: nat, r: nat, drop: char -> bool)
    requires i <= r <= |s| && (forall k :: i <= k < r ==> drop(s[k])) && (r < |s| ==> !drop(s[r]))
    ensures SkipWhile(s, i, drop) == r
  {
  }

  lemma WordEndIs(s: string, i: nat, r: nat)
    requires i <= r <= |s| && (r < |s| ==> IsSpace(s[r])) && forall k :: i <= k < r ==> !IsSpace(s[k])
    ensures WordEnd(s, i) == r
  {
  }

  // A run of whitespace in front of text that does not start with any.
  lemma BlankThen(sp: string, more: string)
    requires sp != [] && IsBlank(sp) && (more != [] ==> !IsSpace(more[0]))
    ensures Collapse(sp + more) == " " + Collapse(more)
    ensures Words(sp + more) == Words(more)
  {
    var s := sp + more;
    assert s[1..|sp|] == sp[1..];
    SkipIs(s, 1, |sp|, IsSpace);
    assert s[|sp|..] == more;
  }

  lemma WordThen(w: string, rest: string)
    requires IsWord(w) && (rest != [] ==> IsSpace(rest[0]))
    ensures Collapse(w + rest) == w + Collapse(rest)
    ensures Words(w + rest) == [w] + Words(rest)
  {
    CollapseWord(w, rest);
    WordEndIs(w + rest, 1, |w|);
    assert (w + rest)[..|w|] == w && (w + rest)[|w|..] == rest;
  }

  // Text starts with a word, then whitespace, then more that starts with a word.
  lemma FirstWord(s: string) returns (w: string, sp: string, more: string)
    requires s != [] && !IsSpace(s[0])
    ensures s == w + (sp + more) && IsWord(w) && IsBlank(sp)
    ensures more != [] ==> sp != [] && !IsSpace(more[0])
    ensures sp + more != [] ==> IsSpace((sp + more)[0])
  {
    var e := WordEnd(s, 1);
    var next := SkipWhile(s, e, IsSpace);
    w, sp, more := s[..e], s[e..next], s[next..];
    InThree(s, e, next);
    assert forall k :: 0 <= k < |sp| ==> sp[k] == s[e + k];
  }

  lemma InThree(s: string, i: nat, j: nat)
    requires i <= j <= |s|
    ensures s == s[..i] + (s[i..j] + s[j..])
  {
  }

  // Text that starts with a word collapses to its words joined by single spaces, and one
  // more space for trailing whitespace.
  lemma {:induction false} CollapseIsWords(s: string) returns (tail: string)
    requires s != [] && !IsSpace(s[0])
    ensures Words(s) != [] && Collapse(s) == Joined(Words(s)) + tail && (tail == "" || tail == " ")
    decreases |s|
  {
    var w, sp, more := FirstWord(s);
    WordThen(w, sp + more);
    if more == [] {
      if sp == [] {
        tail := "";
      } else {
        BlankThen(sp, more);
        tail := " ";
      }
      assert Words(s) == [w] + [] == [w];
    } else {
      BlankThen(sp, more);
      tail := CollapseIsWords(more);
      assert Words(s) == [w] + Words(more);
      JoinFirst(w, Words(more), tail);
    }
  }

  lemma JoinFirst(w: string, words: seq<string>, tail: string)
    requires words != []
    ensures w + (" " + (Joined(words) + tail)) == Joined([w] + words) + tail
  {
    assert ([w] + words)[1..] == words;
  }

  lemma {:induction false} JoinedEnds(words: seq<string>)
    requires words != [] && forall i :: 0 <= i < |words| ==> IsWord(words[i])
    ensures var j := Joined(words);
            j != [] && !IsSpace(j[0]) && !IsSpace(j[|j| - 1])
    decreases |words|
  {
    if |words| > 1 {
      JoinedEnds(words[1..]);
    }
  }

  // norm gives the words of the text, joined by single spaces.
  lemma NormIsWords(text: string)
    ensures Norm(text) == Joined(Words(HttpsAsHttp(text)))
  {
    var s := HttpsAsHttp(text);
    var n := SkipWhile(s, 0, IsSpace);
    var sp, more := s[..n], s[n..];
    assert s == sp + more && s[0..n] == sp;
    if more == [] {
      StripBlank(s);
    } else {
      StripWords(sp, more);
    }
  }

  lemma StripBlank(s: string)
    requires IsBlank(s)
    ensures Strip(Collapse(s), IsSpace) == "" && Words(s) == []
  {
    if s != [] {
      BlankThen(s, []);
      assert s + [] == s;
      assert LStrip(" ", IsSpace) == LStrip("", IsSpace) == "";
    }
  }

  lemma StripWords(sp: string, more: string)
    requires IsBlank(sp) && more != [] && !IsSpace(more[0])
    ensures Strip(Collapse(sp + more), IsSpace) == Joined(Words(sp + more))
  {
    var tail := CollapseIsWords(more);
    WordsAreWords(more);
    JoinedEnds(Words(more));
    var j := Joined(Words(more));
    if sp == [] {
      assert sp + more == more && "" + (j + tail) == j + tail;
      StripOne("", j, tail);
    } else {
      BlankThen(sp, more);
      StripOne(" ", j, tail);
    }
  }

  lemma StripOne(lead: string, j: string, tail: string)
    requires j != [] && !IsSpace(j[0]) && !IsSpace(j[|j| - 1])
    requires (lead == "" || lead == " ") && (tail == "" || tail == " ")
    ensures Strip(lead + (j + tail), IsSpace) == j
  {
    var s := lead + (j + tail);
    var t := j + tail;
    assert LStrip(s, IsSpace) == LStrip(t, IsSpace) == t by {
      assert t[0] == j[0];
      if lead == " " {
        assert s[1..] == t;
      } else {
        assert s == t;
      }
    }
    assert RStrip(j, IsSpace) == j;
    if tail == " " {
      assert t[..|t| - 1] == j;
    } else {
      assert t == j;
    }
  }

  // What Joined puts behind the first word.
  lemma BehindFirst(words: seq<string>) returns (rest: string)
    requires words != []
    ensures Joined(words) == words[0] + rest
    ensures |words| == 1 ==> rest == ""
    ensures |words| > 1 ==> rest != "" && rest[0] == ' ' && Joined(words[1..]) == rest[1..]
  {
    rest := if |words| == 1 then "" else " " + Joined(words[1..]);
  }

  // Two lists of words that join to the same text are the same.
  lemma {:induction false} JoinedIsInjective(x: seq<string>, y: seq<string>)
    requires forall i :: 0 <= i < |x| ==> IsWord(x[i])
    requires forall i :: 0 <= i < |y| ==> IsWord(y[i])
    requires Joined(x) == Joined(y)
    ensures x == y
    decreases |x|
  {
    if x == [] || y == [] {
      if x != [] { JoinedEnds(x); }
      if y != [] { JoinedEnds(y); }
    } else {
      var xs := BehindFirst(x);
      var ys := BehindFirst(y);
      SameFirstWord(x[0], xs, y[0], ys);
      if |x| > 1 && |y| > 1 {
        JoinedIsInjective(x[1..], y[1..]);
        assert x == [x[0]] + x[1..] && y == [y[0]] + y[1..];
      }
    }
  }

  lemma SameFirstWord(v: string, vs: string, w: string, ws: string)
    requires IsWord(v) && IsWord(w) && v + vs == w + ws
    requires vs != [] ==> IsSpace(vs[0])
    requires ws != [] ==> IsSpace(ws[0])
    ensures v == w && vs == ws
  {
    WordEndIs(v + vs, 0, |v|);
    WordEndIs(w + ws, 0, |w|);
    assert v == (v + vs)[..|v|] && w == (w + ws)[..|w|];
    assert vs == (v + vs)[|v|..] && ws == (w + ws)[|w|..];
  }

  // So two texts are equal after norm exactly when, https read as http, they have the
  // same words: whitespace is ignored and nothing else is.
  lemma NormEqualIff(a: string, b: string)
    ensures Norm(a) == Norm(b) <==> Words(HttpsAsHttp(a)) == Words(HttpsAsHttp(b))
  {
    NormIsWords(a);
    NormIsWords(b);
    WordsAreWords(HttpsAsHttp(a));
    WordsAreWords(HttpsAsHttp(b));
    if Norm(a) == Norm(b) {
      JoinedIsInjective(Words(HttpsAsHttp(a)), Words(HttpsAsHttp(b)));
    }
  }

  // ---- what replace does ----

  const HTTPS: string := "https://"
  const HTTP: string := "http://"

  lemma {:induction false} NothingToReplace(m: string, rest: string)
    requires forall k :: 0 <= k < |m| ==> !OccursAt(m + rest, HTTPS, k)
    ensures HttpsAsHttp(m + rest) == m + HttpsAsHttp(rest)
  {
    var s := m + rest;
    if m == [] {
      assert s == rest;
    } else {
      assert s[1..] == m[1..] + rest;
      assert !OccursAt(s, HTTPS, 0);
      forall k | 0 <= k < |m[1..]| ensures !OccursAt(m[1..] + rest, HTTPS, k) {
        assert !OccursAt(s, HTTPS, k + 1);
        OneFurther(s, m[1..] + rest, HTTPS, k);
      }
      NothingToReplace(m[1..], rest);
      assert [m[0]] + (m[1..] + HttpsAsHttp(rest)) == m + HttpsAsHttp(rest);
    }
  }

  lemma OneFurther(s: string, t: string, w: string, k: nat)
    requires s != [] && t == s[1..]
    ensures OccursAt(t, w, k) ==> OccursAt(s, w, k + 1)
  {
    if OccursAt(t, w, k) {
      forall i | 0 <= i < |w| ensures s[k + 1 + i] == w[i] {
        assert t[k + i] == s[k + 1 + i];
      }
    }
  }

  // Only h starts it, and only an s follows http in it.
  lemma NotAt(s: string, k: nat, i: nat)
    requires i < |HTTPS| && k + i < |s| && s[k + i] != HTTPS[i]
    ensures !OccursAt(s, HTTPS, k)
  {
  }

  lemma HttpStays(rest: string)
    ensures HttpsAsHttp(HTTP + rest) == HTTP + HttpsAsHttp(rest)
    ensures HttpsAsHttp(HTTPS + rest) == HTTP + HttpsAsHttp(rest)
  {
    var s := HTTP + rest;
    forall k | 0 <= k < |HTTP| ensures !OccursAt(s, HTTPS, k) {
      assert s[k] == HTTP[k] && s[4] == HTTP[4];
      NotAt(s, k, if k == 0 then 4 else 0);
    }
    NothingToReplace(HTTP, rest);
    var t := HTTPS + rest;
    assert OccursAt(t, HTTPS, 0) && t[8..] == rest;
  }

  // Reading one https:// anywhere as http:// does not change the result,
  lemma {:induction false} HttpsIsHttp(x: string, rest: string)
    ensures HttpsAsHttp(x + (HTTPS + rest)) == HttpsAsHttp(x + (HTTP + rest))
    decreases |x|
  {
    var s, t := x + (HTTPS + rest), x + (HTTP + rest);
    if x == [] {
      assert s == HTTPS + rest && t == HTTP + rest;
      HttpStays(rest);
    } else {
      SameStart(x, HTTPS + rest, HTTP + rest);
      if |x| >= 8 && OccursAt(x, HTTPS, 0) {
        assert s[8..] == x[8..] + (HTTPS + rest) && t[8..] == x[8..] + (HTTP + rest);
        HttpsIsHttp(x[8..], rest);
      } else {
        assert s[1..] == x[1..] + (HTTPS + rest) && t[1..] == x[1..] + (HTTP + rest);
        HttpsIsHttp(x[1..], rest);
      }
    }
  }

  lemma SameStart(x: string, y: string, z: string)
    requires x != [] && y != [] && z != [] && y[0] == z[0] == 'h'
    ensures OccursAt(x + y, HTTPS, 0) <==> |x| >= 8 && OccursAt(x, HTTPS, 0)
    ensures OccursAt(x + z, HTTPS, 0) <==> |x| >= 8 && OccursAt(x, HTTPS, 0)
  {
    assert (x + y)[|x|] == (x + z)[|x|] == 'h';
    if |x| < 8 {
      NotAt(x + y, 0, |x|);
      NotAt(x + z, 0, |x|);
    } else {
      assert forall i :: 0 <= i < 8 ==> (x + y)[i] == x[i] == (x + z)[i];
      assert forall i :: 0 <= i < 8 ==> x[0 + i] == x[i] && (x + y)[0 + i] == x[i] && (x + z)[0 + i] == x[i];
    }
  }

  // and a text without any stays as it is: these two say what replace gives.
  lemma WithoutHttps(s: string)
    requires forall k :: 0 <= k < |s| ==> !OccursAt(s, HTTPS, k)
    ensures HttpsAsHttp(s) == s
  {
    assert s + [] == s;
    NothingToReplace(s, []);
  }
}
