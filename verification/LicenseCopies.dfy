// gen-licenses.py: which copies of the licence are replaced by the link, and which stay.
module LicenseCopies {
  import opened Common
  import opened LicenseText
  import opened Licenses

  // ---- headers ----

  // The first letter of the title stands nowhere else in a header, and neither title nor
  // version starts with a character of gap.
  ghost predicate ProperMarks(marks: Marks) {
    && marks.title != "" && marks.version != "" && !marks.gap(marks.title[0]) && !marks.gap(marks.version[0])
    && (forall i :: 0 < i < |marks.title| ==> marks.title[i] != marks.title[0])
    && (forall i :: 0 <= i < |marks.version| ==> marks.version[i] != marks.title[0])
  }

  lemma ApacheProper()
    ensures ProperMarks(APACHE_START)
  {
  }

  // What a header is: the title, at least one character of gap, the version.
  lemma HeaderIff(s: string, p: nat, end: nat, marks: Marks)
    requires ProperMarks(marks)
    ensures HeaderAt(s, p, marks) == Some(end) <==>
            && OccursAt(s, marks.title, p)
            && p + |marks.title| + |marks.version| < end
            && (forall k :: p + |marks.title| <= k < end - |marks.version| && k < |s| ==> marks.gap(s[k]))
            && OccursAt(s, marks.version, end - |marks.version|)
  {
    if OccursAt(s, marks.title, p) && p + |marks.title| + |marks.version| < end
       && (forall k :: p + |marks.title| <= k < end - |marks.version| && k < |s| ==> marks.gap(s[k]))
       && OccursAt(s, marks.version, end - |marks.version|)
    {
      var i := end - |marks.version|;
      assert s[i + 0] == marks.version[0];
      SkipIs(s, p + |marks.title|, i, marks.gap);
    }
  }

  // slice stands in body from pos on.
  ghost predicate IsSlice(body: string, pos: nat, slice: string) {
    pos + |slice| <= |body| && forall k :: 0 <= k < |slice| ==> slice[k] == body[pos + k]
  }

  lemma OccursInSlice(body: string, pos: nat, slice: string, w: string, p: nat)
    requires IsSlice(body, pos, slice) && p + |w| <= |slice|
    ensures OccursAt(slice, w, p) <==> OccursAt(body, w, pos + p)
  {
    forall k | 0 <= k < |w|
      ensures slice[p + k] == w[k] <==> body[pos + p + k] == w[k]
    {
      assert slice[p + k] == body[pos + (p + k)];
    }
  }

  // A gap in a slice ends where it ends in body, or the slice ends first.
  lemma SkipInSlice(body: string, pos: nat, slice: string, from: nat, gap: char -> bool)
    requires IsSlice(body, pos, slice) && from <= |slice|
    ensures var i, j := SkipWhile(slice, from, gap), SkipWhile(body, pos + from, gap);
            if i < |slice| then j == pos + i else j >= pos + |slice|
  {
    var i := SkipWhile(slice, from, gap);
    forall k | pos + from <= k < pos + i
      ensures gap(body[k])
    {
      assert slice[k - pos] == body[k];
    }
    if i < |slice| {
      SkipIs(body, pos + from, pos + i, gap);
    }
  }

  // A match in a slice is one of body,
  predicate FromSlice(start: Pattern, body: string, pos: nat, slice: string, p: nat) {
    p <= |slice| && start(slice, p).Some? ==> start(body, pos + p) == Some(pos + start(slice, p).value)
  }

  // a match in body that ends within the slice is one of the slice,
  predicate IntoSlice(start: Pattern, body: string, pos: nat, slice: string, p: nat) {
    start(body, pos + p).Some? && start(body, pos + p).value <= pos + |slice| ==> start(slice, p).Some?
  }

  // and two matches never overlap.
  predicate Apart(start: Pattern, body: string, p: nat, q: nat) {
    p < q && start(body, p).Some? && start(body, q).Some? ==> start(body, p).value <= q
  }

  ghost predicate Local(start: Pattern, body: string, pos: nat, slice: string) {
    && (forall p: nat :: FromSlice(start, body, pos, slice, p))
    && (forall p: nat :: IntoSlice(start, body, pos, slice, p))
    && (forall p: nat, q: nat :: Apart(start, body, p, q))
  }

  // What HeaderAt looks at, in the slice and in body.
  lemma SameHeaderParts(body: string, pos: nat, slice: string, p: nat, marks: Marks)
    requires IsSlice(body, pos, slice) && p + |marks.title| <= |slice|
    ensures OccursAt(slice, marks.title, p) <==> OccursAt(body, marks.title, pos + p)
    ensures var from := p + |marks.title|;
            var i, j := SkipWhile(slice, from, marks.gap), SkipWhile(body, pos + from, marks.gap);
            && (i < |slice| ==> j == pos + i) && (i == |slice| ==> j >= pos + i)
            && (i + |marks.version| <= |slice| ==>
                  (OccursAt(slice, marks.version, i) <==> OccursAt(body, marks.version, pos + i)))
  {
    var from := p + |marks.title|;
    OccursInSlice(body, pos, slice, marks.title, p);
    SkipInSlice(body, pos, slice, from, marks.gap);
    var i := SkipWhile(slice, from, marks.gap);
    if i + |marks.version| <= |slice| {
      OccursInSlice(body, pos, slice, marks.version, i);
    }
  }

  lemma HeaderFromSlice(body: string, pos: nat, slice: string, p: nat, marks: Marks)
    requires IsSlice(body, pos, slice) && ProperMarks(marks)
    ensures FromSlice(Headers(marks), body, pos, slice, p)
  {
    if HeaderAt(slice, p, marks).Some? {
      SameHeaderParts(body, pos, slice, p, marks);
    }
  }

  lemma HeaderIntoSlice(body: string, pos: nat, slice: string, p: nat, marks: Marks)
    requires IsSlice(body, pos, slice) && ProperMarks(marks)
    ensures IntoSlice(Headers(marks), body, pos, slice, p)
  {
    if HeaderAt(body, pos + p, marks).Some? && HeaderAt(body, pos + p, marks).value <= pos + |slice| {
      SameHeaderParts(body, pos, slice, p, marks);
    }
  }

  lemma TitleOnlyInFront(s: string, p: nat, q: nat, marks: Marks)
    requires ProperMarks(marks) && HeaderAt(s, p, marks).Some? && p < q < HeaderAt(s, p, marks).value
    ensures s[q] != marks.title[0]
  {
    var n := |marks.title|;
    var i := SkipWhile(s, p + n, marks.gap);
    if q < p + n {
      assert s[p + (q - p)] == marks.title[q - p];
    } else if q < i {
      assert marks.gap(s[q]);
    } else {
      assert s[i + (q - i)] == marks.version[q - i];
    }
  }

  lemma HeadersApart(s: string, p: nat, q: nat, marks: Marks)
    requires ProperMarks(marks)
    ensures Apart(Headers(marks), s, p, q)
  {
    if p < q && HeaderAt(s, p, marks).Some? && HeaderAt(s, q, marks).Some? {
      assert s[q + 0] == marks.title[0];
      if q < HeaderAt(s, p, marks).value {
        TitleOnlyInFront(s, p, q, marks);
      }
    }
  }

  lemma HeadersAreLocal(marks: Marks, body: string, pos: nat, slice: string)
    requires IsSlice(body, pos, slice) && ProperMarks(marks)
    ensures Local(Headers(marks), body, pos, slice)
  {
    forall p: nat ensures FromSlice(Headers(marks), body, pos, slice, p) {
      HeaderFromSlice(body, pos, slice, p, marks);
    }
    forall p: nat ensures IntoSlice(Headers(marks), body, pos, slice, p) {
      HeaderIntoSlice(body, pos, slice, p, marks);
    }
    forall p: nat, q: nat ensures Apart(Headers(marks), body, p, q) {
      HeadersApart(body, p, q, marks);
    }
  }

  lemma {:induction false} SearchIs(start: Pattern, s: string, from: nat, p: nat)
    requires from <= p <= |s| && start(s, p).Some?
    requires forall q :: from <= q < p ==> start(s, q).None?
    ensures Search(start, s, from) == Some((p, start(s, p).value))
    decreases p - from
  {
    if from < p {
      assert start(s, from).None?;
      SearchIs(start, s, from + 1, p);
    }
  }

  lemma FindIs(s: string, w: string, from: nat, to: nat, p: nat)
    requires from <= p && p + |w| <= Min(to, |s|) && OccursAt(s, w, p)
    requires forall q: nat :: from <= q < p ==> !OccursAt(s, w, q)
    ensures Find(s, w, from, to) == p
  {
  }

  function Shifted(m: Option<(nat, nat)>, distance: nat): Option<(nat, nat)> {
    if m.None? then None else Some((m.value.0 + distance, m.value.1 + distance))
  }

  // The leftmost match in a slice is the leftmost match in body from there on.
  lemma SearchInSlice(start: Pattern, body: string, pos: nat, slice: string)
    requires pos + |slice| <= |body| && Local(start, body, pos, slice)
    ensures var m := Search(start, slice, 0);
            m.Some? ==> Search(start, body, pos) == Shifted(m, pos)
  {
    var m := Search(start, slice, 0);
    if m.Some? {
      var p := m.value.0;
      assert FromSlice(start, body, pos, slice, p);
      forall q | pos <= q < pos + p
        ensures start(body, q).None?
      {
        SearchIsLeftmost(start, slice, 0, q - pos);
        assert IntoSlice(start, body, pos, slice, q - pos) && Apart(start, body, q, pos + p);
      }
      SearchIs(start, body, pos, pos + p);
    }
  }

  lemma FindInSlice(body: string, pos: nat, slice: string, w: string, from: nat)
    requires IsSlice(body, pos, slice) && from <= |slice|
    ensures var e := Find(slice, w, from, |slice|);
            e >= 0 ==> Find(body, w, pos + from, |body|) == pos + e
  {
    var e := Find(slice, w, from, |slice|);
    if e >= 0 {
      OccursInSlice(body, pos, slice, w, e);
      forall q: nat | pos + from <= q < pos + e
        ensures !OccursAt(body, w, q)
      {
        OccursInSlice(body, pos, slice, w, q - pos);
      }
      FindIs(body, w, pos + from, |body|, pos + e);
    }
  }

  lemma UpToInSlice(body: string, pos: nat, slice: string, m: Option<(nat, nat)>, w: string)
    requires IsSlice(body, pos, slice)
    ensures var span := UpTo(slice, m, w);
            span.Some? ==> UpTo(body, Shifted(m, pos), w) == Shifted(span, pos)
  {
    if m.Some? && m.value.1 <= |slice| {
      FindInSlice(body, pos, slice, w, m.value.1);
    }
  }

  // So a span found in a slice is the one found in body from there on.
  lemma SpanInSlice(start: Pattern, end: string, body: string, pos: nat, slice: string)
    requires IsSlice(body, pos, slice) && Local(start, body, pos, slice)
    ensures var span := Span(start, end, slice, 0);
            span.Some? ==> Span(start, end, body, pos) == Shifted(span, pos)
  {
    SearchInSlice(start, body, pos, slice);
    UpToInSlice(body, pos, slice, Search(start, slice, 0), end);
  }

  // What the generator would find in this text is no copy of the licence.
  ghost predicate NoCopyIn(text: string, start: Pattern, end: string, apache: Option<string>, norm: string -> string) {
    var span := Span(start, end, text, 0);
    span.Some? ==> span.value.0 > span.value.1 || !Matches(text[span.value.0..span.value.1], apache, norm)
  }

  lemma SliceHasNoCopy(body: string, pos: nat, slice: string, start: Pattern, end: string, apache: Option<string>,
                       norm: string -> string)
    requires IsSlice(body, pos, slice) && Local(start, body, pos, slice)
    requires var span := Span(start, end, body, pos);
             span.Some? && span.value.0 <= span.value.1 <= pos + |slice| ==>
               !Matches(body[span.value.0..span.value.1], apache, norm)
    ensures NoCopyIn(slice, start, end, apache, norm)
  {
    SpanInSlice(start, end, body, pos, slice);
    var inner := Span(start, end, slice, 0);
    if inner.Some? && inner.value.0 <= inner.value.1 {
      assert slice[inner.value.0..inner.value.1] == body[pos + inner.value.0..pos + inner.value.1];
    }
  }

  ghost predicate NoneKept(segs: seq<Segment>, free: string -> bool) {
    forall i :: 0 <= i < |segs| && segs[i].Kept? ==> free(segs[i].text)
  }

  ghost function CopyFree(apache: Option<string>): string -> bool {
    text => NoCopyIn(text, Headers(APACHE_START), APACHE_END, apache, Norm)
  }

  // Where the text before or within the turn that may be kept ends.
  function KeptEnd(t: Option<Turn>, length: nat): nat {
    match t
    case None => length
    case Some(Copy(begin, _, _)) => begin
    case Some(Other(end)) => end
  }

  ghost function PiecesOf(body: string, pos: nat, t: Option<Turn>): seq<Segment>
    requires pos <= |body| && (t.Some? ==> Fits(t.value, pos, |body|))
  {
    if t.Some? then Pieces(body, pos, t.value) else [Between(body[pos..])]
  }

  lemma OnlyFirstKept(body: string, pos: nat, t: Option<Turn>, free: string -> bool)
    requires pos <= |body| && (t.Some? ==> Fits(t.value, pos, |body|))
    requires free(body[pos..KeptEnd(t, |body|)])
    ensures NoneKept(PiecesOf(body, pos, t), free)
  {
    assert body[pos..|body|] == body[pos..];
  }

  lemma TurnKeepsNoCopy(body: string, pos: nat, refs: References)
    requires pos <= |body|
    ensures NoneKept(PiecesOf(body, pos, NextTurn(body, pos, refs)), CopyFree(refs.apache))
  {
    var t := NextTurn(body, pos, refs);
    var to := KeptEnd(t, |body|);
    ApacheProper();
    HeadersAreLocal(APACHE_START, body, pos, body[pos..to]);
    SliceHasNoCopy(body, pos, body[pos..to], Headers(APACHE_START), APACHE_END, refs.apache, Norm);
    OnlyFirstKept(body, pos, t, CopyFree(refs.apache));
  }

  lemma {:induction false} TurnsKeepNoCopy(body: string, pos: nat, refs: References)
    requires pos <= |body|
    ensures NoneKept(Segments(body, pos, Turns(body, pos, refs)), CopyFree(refs.apache))
    decreases |body| - pos
  {
    var t := NextTurn(body, pos, refs);
    TurnKeepsNoCopy(body, pos, refs);
    TurnsAre(body, pos, refs);
    if t.Some? {
      TurnsKeepNoCopy(body, After(t.value), refs);
    }
  }

  // What the generator would find first in a kept piece is no copy.
  lemma FirstFindInKeptIsNoCopy(body: string, refs: References)
    ensures var segs := Segments(body, 0, Turns(body, 0, refs));
            forall i :: 0 <= i < |segs| && segs[i].Kept? ==>
              var span := ApacheSpan(segs[i].text, 0);
              span.Some? ==> !Matches(segs[i].text[span.value.0..span.value.1], refs.apache, Norm)
  {
    TurnsKeepNoCopy(body, 0, refs);
    var segs := Segments(body, 0, Turns(body, 0, refs));
    forall i | 0 <= i < |segs| && segs[i].Kept?
      ensures var span := ApacheSpan(segs[i].text, 0);
              span.Some? ==> !Matches(segs[i].text[span.value.0..span.value.1], refs.apache, Norm)
    {
      assert CopyFree(refs.apache)(segs[i].text);
    }
  }

  // ---- which copies are replaced ----

  // Some turn replaces body[b..e].
  predicate Replaces(turns: seq<Turn>, b: nat, e: nat) {
    turns != [] &&
    ((turns[0].Copy? && turns[0].begin == b && turns[0].end == e) || Replaces(turns[1..], b, e))
  }

  // x lies in an appendix that some turn drops.
  predicate InTemplate(turns: seq<Turn>, x: nat) {
    turns != [] &&
    ((turns[0].Copy? && turns[0].template.Some? && turns[0].template.value.0 <= x < turns[0].template.value.1)
     || InTemplate(turns[1..], x))
  }

  // The end mark stands between the header at q and b.
  predicate Closed(start: Pattern, mark: string, body: string, q: nat, b: nat) {
    start(body, q).Some? && Find(body, mark, start(body, q).value, b) >= 0
  }

  // Every header from pos on and before b is closed before b, those in a dropped appendix aside.
  ghost predicate AllClosed(start: Pattern, mark: string, body: string, pos: nat, turns: seq<Turn>, b: nat) {
    forall q :: pos <= q < b && start(body, q).Some? && !InTemplate(turns, q) ==> Closed(start, mark, body, q, b)
  }

  // A header at b, and e the end of the first end mark after it.
  predicate Recognised(start: Pattern, mark: string, body: string, b: nat, e: nat) {
    b <= |body| && Span(start, mark, body, b) == Some((b, e)) && b <= e
  }

  ghost predicate IsReplaced(start: Pattern, mark: string, body: string, pos: nat, turns: seq<Turn>,
                             apache: Option<string>, norm: string -> string, b: nat, e: nat) {
    && Recognised(start, mark, body, b, e)
    && Matches(body[b..e], apache, norm)
    && !InTemplate(turns, b)
    && AllClosed(start, mark, body, pos, turns, b)
  }

  // What the proof needs of the header and the end mark: they never overlap, and no header
  // starts with whitespace.
  ghost predicate Distinct(start: Pattern, mark: string, body: string) {
    && (forall q: nat, r: nat :: ApartFrom(start, mark, body, q, r))
    && (forall q: nat :: q < |body| && IsSpace(body[q]) ==> start(body, q).None?)
  }

  predicate ApartFrom(start: Pattern, mark: string, body: string, q: nat, r: nat) {
    start(body, q).Some? && OccursAt(body, mark, r) ==> start(body, q).value <= r || r + |mark| <= q
  }

  // Turns that do what NextTurn does.
  ghost predicate Follows(turns: seq<Turn>, pos: nat, start: Pattern, mark: string, body: string,
                          apache: Option<string>, norm: string -> string)
    decreases |turns|
  {
    && Chain(turns, pos, |body|)
    && (if turns == [] then Span(start, mark, body, pos).None?
        else
          && FollowsAt(turns[0], pos, start, mark, body, apache, norm)
          && Follows(turns[1..], After(turns[0]), start, mark, body, apache, norm))
  }

  ghost predicate FollowsAt(t: Turn, pos: nat, start: Pattern, mark: string, body: string,
                            apache: Option<string>, norm: string -> string)
    requires Fits(t, pos, |body|)
  {
    var span := Span(start, mark, body, pos);
    && span.Some? && span.value.0 < span.value.1 == t.end && start(body, span.value.0).Some?
    && (t.Copy? <==> Matches(body[span.value.0..t.end], apache, norm))
    && (t.Copy? ==> t.begin == span.value.0)
    && (t.Copy? && t.template.Some? ==> IsBlank(body[t.end..t.template.value.0]))
  }

  lemma {:induction false} Floor(turns: seq<Turn>, pos: nat, length: nat, b: nat, e: nat)
    requires Chain(turns, pos, length)
    ensures Replaces(turns, b, e) ==> pos <= b
    ensures InTemplate(turns, b) ==> pos < b
    decreases |turns|
  {
    if turns != [] {
      Floor(turns[1..], After(turns[0]), length, b, e);
    }
  }

  // The span from pos on starts at the leftmost header, and ends with the first mark.
  lemma SpanParts(start: Pattern, mark: string, body: string, pos: nat)
    requires pos <= |body|
    ensures var m, span := Search(start, body, pos), Span(start, mark, body, pos);
            && (span.Some? ==> m.Some? && span.value.0 == m.value.0
                               && Find(body, mark, m.value.1, |body|) == span.value.1 - |mark|)
            && (span.None? && m.Some? ==> Find(body, mark, m.value.1, |body|) == -1)
  {
  }

  // No header from pos on is closed when the span from there on is missing.
  lemma NoneFollows(start: Pattern, mark: string, body: string, pos: nat, b: nat, e: nat)
    requires pos <= b && pos <= |body| && Span(start, mark, body, pos).None?
    requires Recognised(start, mark, body, b, e)
    ensures !AllClosed(start, mark, body, pos, [], b)
  {
    SpanParts(start, mark, body, pos);
    SpanParts(start, mark, body, b);
    SearchIsLeftmost(start, body, pos, b);
    var m := Search(start, body, pos);
    var p := m.value.0;
    if p == b {
      SameSpan(start, mark, body, pos, b);
    } else {
      assert p < b && start(body, p).Some? && !InTemplate([], p);
      assert !Closed(start, mark, body, p, b);
    }
  }

  // The leftmost header from pos on is the one from itself on.
  lemma SameSpan(start: Pattern, mark: string, body: string, pos: nat, p: nat)
    requires pos <= p <= |body|
    requires Search(start, body, pos).Some? && Search(start, body, pos).value.0 == p
    ensures Search(start, body, p) == Search(start, body, pos)
    ensures Span(start, mark, body, p) == Span(start, mark, body, pos)
  {
  }

  // b before the header that the turn starts at: nothing is there.
  lemma BeforeTurn(turns: seq<Turn>, pos: nat, start: Pattern, mark: string, body: string, apache: Option<string>,
                   norm: string -> string, b: nat, e: nat)
    requires turns != [] && Follows(turns, pos, start, mark, body, apache, norm)
    requires pos <= b < Span(start, mark, body, pos).value.0
    ensures !Replaces(turns, b, e) && !Recognised(start, mark, body, b, e)
  {
    SpanParts(start, mark, body, pos);
    SpanParts(start, mark, body, b);
    SearchIsLeftmost(start, body, pos, b);
    Floor(turns[1..], After(turns[0]), |body|, b, e);
  }

  lemma AtTurn(turns: seq<Turn>, pos: nat, start: Pattern, mark: string, body: string, apache: Option<string>,
               norm: string -> string, e: nat)
    requires turns != [] && Follows(turns, pos, start, mark, body, apache, norm)
    ensures var b := Span(start, mark, body, pos).value.0;
            && !InTemplate(turns, b)
            && (Replaces(turns, b, e) <==> IsReplaced(start, mark, body, pos, turns, apache, norm, b, e))
  {
    var b := Span(start, mark, body, pos).value.0;
    SpanParts(start, mark, body, pos);
    SameSpan(start, mark, body, pos, b);
    Floor(turns[1..], After(turns[0]), |body|, b, e);
    forall q | pos <= q < b
      ensures start(body, q).None?
    {
      SearchIsLeftmost(start, body, pos, q);
    }
  }

  // A header inside the turn is closed before everything after the turn's span.
  lemma ClosedInTurn(t: Turn, pos: nat, start: Pattern, mark: string, body: string, apache: Option<string>,
                     norm: string -> string, q: nat, b: nat)
    requires Fits(t, pos, |body|) && FollowsAt(t, pos, start, mark, body, apache, norm)
    requires Distinct(start, mark, body)
    requires Span(start, mark, body, pos).value.0 <= q < t.end <= b && start(body, q).Some?
    ensures Closed(start, mark, body, q, b)
  {
    SpanParts(start, mark, body, pos);
    var p, r := Span(start, mark, body, pos).value.0, t.end - |mark|;
    assert OccursAt(body, mark, r);
    assert ApartFrom(start, mark, body, q, r);
    assert r >= start(body, q).value;
    assert Find(body, mark, start(body, q).value, b) >= 0;
  }

  lemma NotInBlank(body: string, from: nat, to: nat, q: nat, start: Pattern, mark: string)
    requires from <= q < to <= |body| && IsBlank(body[from..to]) && Distinct(start, mark, body)
    ensures start(body, q).None?
  {
    assert body[from..to][q - from] == body[q];
  }

  // b inside the turn: either the turn's own header is not closed before it, or b is in the
  // template or the whitespace before it.
  lemma InsideTurn(turns: seq<Turn>, pos: nat, start: Pattern, mark: string, body: string, apache: Option<string>,
                   norm: string -> string, b: nat, e: nat)
    requires turns != [] && Follows(turns, pos, start, mark, body, apache, norm) && Distinct(start, mark, body)
    requires Span(start, mark, body, pos).value.0 < b < After(turns[0])
    ensures !Replaces(turns, b, e) && !IsReplaced(start, mark, body, pos, turns, apache, norm, b, e)
  {
    var t, p := turns[0], Span(start, mark, body, pos).value.0;
    Floor(turns[1..], After(t), |body|, b, e);
    Floor(turns[1..], After(t), |body|, p, e);
    SpanParts(start, mark, body, pos);
    SpanParts(start, mark, body, b);
    if b < t.end {
      assert start(body, p).Some? && !InTemplate(turns, p);
      assert !Closed(start, mark, body, p, b);
    } else if b < t.template.value.0 {
      NotInBlank(body, t.end, t.template.value.0, b, start, mark);
    }
  }

  // b after the turn: all that is asked of the text of the turn holds.
  lemma BeyondTurn(turns: seq<Turn>, pos: nat, start: Pattern, mark: string, body: string, apache: Option<string>,
                   norm: string -> string, b: nat, e: nat)
    requires turns != [] && Follows(turns, pos, start, mark, body, apache, norm) && Distinct(start, mark, body)
    requires After(turns[0]) <= b
    ensures Replaces(turns, b, e) <==> Replaces(turns[1..], b, e)
    ensures InTemplate(turns, b) <==> InTemplate(turns[1..], b)
    ensures AllClosed(start, mark, body, pos, turns, b)
            <==> AllClosed(start, mark, body, After(turns[0]), turns[1..], b)
  {
    var t, p := turns[0], Span(start, mark, body, pos).value.0;
    SpanParts(start, mark, body, pos);
    forall q | pos <= q < After(t) && start(body, q).Some? && !InTemplate(turns, q)
      ensures Closed(start, mark, body, q, b)
    {
      if q < p {
        SearchIsLeftmost(start, body, pos, q);
      } else if q < t.end {
        ClosedInTurn(t, pos, start, mark, body, apache, norm, q, b);
      } else if q < t.template.value.0 {
        NotInBlank(body, t.end, t.template.value.0, q, start, mark);
      }
    }
    forall q | After(t) <= q < b
      ensures InTemplate(turns, q) <==> InTemplate(turns[1..], q)
    {
    }
    assert forall q :: After(t) <= q < b ==> (InTemplate(turns, q) <==> InTemplate(turns[1..], q));
  }

  lemma {:induction false} ReplacesIff(turns: seq<Turn>, pos: nat, start: Pattern, mark: string, body: string,
                                       apache: Option<string>, norm: string -> string, b: nat, e: nat)
    requires Follows(turns, pos, start, mark, body, apache, norm) && Distinct(start, mark, body) && pos <= b
    ensures Replaces(turns, b, e) <==> IsReplaced(start, mark, body, pos, turns, apache, norm, b, e)
    decreases |turns|
  {
    if turns == [] {
      if Recognised(start, mark, body, b, e) {
        NoneFollows(start, mark, body, pos, b, e);
      }
    } else {
      var p, next := Span(start, mark, body, pos).value.0, After(turns[0]);
      if b < p {
        BeforeTurn(turns, pos, start, mark, body, apache, norm, b, e);
      } else if b == p {
        AtTurn(turns, pos, start, mark, body, apache, norm, e);
      } else if b < next {
        InsideTurn(turns, pos, start, mark, body, apache, norm, b, e);
      } else {
        BeyondTurn(turns, pos, start, mark, body, apache, norm, b, e);
        ReplacesIff(turns[1..], next, start, mark, body, apache, norm, b, e);
      }
    }
  }

  // ---- the header and the end mark of the licence ----

  // The end mark starts with a character that no header has, and the title's first letter
  // is followed by another one in it than in the title.
  ghost predicate ProperEnd(marks: Marks, mark: string) {
    && mark != "" && |marks.title| > 1 && !marks.gap(mark[0])
    && (forall i :: 0 <= i < |marks.title| ==> marks.title[i] != mark[0])
    && (forall i :: 0 <= i < |marks.version| ==> marks.version[i] != mark[0])
    && (forall i :: 0 <= i < |mark| && mark[i] == marks.title[0] ==> i + 1 < |mark| && mark[i + 1] != marks.title[1])
  }

  lemma ApacheEndProper()
    ensures ProperEnd(APACHE_START, APACHE_END)
  {
  }

  lemma CharOf(s: string, w: string, p: nat, k: nat)
    requires OccursAt(s, w, p) && k < |w|
    ensures s[p + k] == w[k]
  {
  }

  lemma NoEndInHeader(s: string, p: nat, r: nat, marks: Marks, mark: string)
    requires ProperEnd(marks, mark) && HeaderAt(s, p, marks).Some? && p <= r < HeaderAt(s, p, marks).value
    ensures s[r] != mark[0]
  {
    var n := |marks.title|;
    var i := SkipWhile(s, p + n, marks.gap);
    if r < p + n {
      assert s[p + (r - p)] == marks.title[r - p];
    } else if r < i {
      assert marks.gap(s[r]);
    } else {
      assert s[i + (r - i)] == marks.version[r - i];
    }
  }

  lemma NoHeaderInEnd(s: string, q: nat, r: nat, marks: Marks, mark: string)
    requires ProperEnd(marks, mark) && OccursAt(s, mark, r) && r <= q < r + |mark|
    ensures HeaderAt(s, q, marks).None?
  {
    var i := q - r;
    CharOf(s, mark, r, i);
    if i + 1 < |mark| {
      CharOf(s, mark, r, i + 1);
    }
    if OccursAt(s, marks.title, q) {
      CharOf(s, marks.title, q, 0);
      CharOf(s, marks.title, q, 1);
    }
  }

  lemma HeaderApartFromEnd(s: string, q: nat, r: nat, marks: Marks, mark: string)
    requires ProperEnd(marks, mark)
    ensures ApartFrom(Headers(marks), mark, s, q, r)
  {
    if HeaderAt(s, q, marks).Some? && OccursAt(s, mark, r) {
      CharOf(s, mark, r, 0);
      if q <= r < HeaderAt(s, q, marks).value {
        NoEndInHeader(s, q, r, marks, mark);
      } else if r < q < r + |mark| {
        NoHeaderInEnd(s, q, r, marks, mark);
      }
    }
  }

  lemma NoHeaderInSpace(s: string, q: nat, marks: Marks)
    requires ProperMarks(marks) && q < |s| && marks.gap(s[q])
    ensures HeaderAt(s, q, marks).None?
  {
    assert !marks.gap(marks.title[0]);
  }

  lemma HeadersAreDistinct(marks: Marks, mark: string, body: string)
    requires ProperMarks(marks) && ProperEnd(marks, mark) && marks.gap == IsSpace
    ensures Distinct(Headers(marks), mark, body)
  {
    forall q: nat, r: nat ensures ApartFrom(Headers(marks), mark, body, q, r) {
      HeaderApartFromEnd(body, q, r, marks, mark);
    }
    forall q: nat | q < |body| && IsSpace(body[q])
      ensures Headers(marks)(body, q).None?
    {
      NoHeaderInSpace(body, q, marks);
    }
  }

  lemma TemplateAfterBlank(body: string, pos: nat, appendix: Option<string>)
    requires pos <= |body|
    ensures var r := TemplateAt(body, pos, appendix);
            r.Some? ==> IsBlank(body[pos..r.value.0])
  {
  }

  lemma NextTurnFollows(body: string, pos: nat, refs: References)
    requires pos <= |body|
    ensures var t := NextTurn(body, pos, refs);
            if t.None? then Span(Headers(APACHE_START), APACHE_END, body, pos).None?
            else FollowsAt(t.value, pos, Headers(APACHE_START), APACHE_END, body, refs.apache, Norm)
  {
    SpanParts(Headers(APACHE_START), APACHE_END, body, pos);
    var span := ApacheSpan(body, pos);
    if span.Some? {
      TemplateAfterBlank(body, span.value.1, refs.appendix);
    }
  }

  lemma {:induction false} TurnsFollow(body: string, pos: nat, refs: References)
    requires pos <= |body|
    ensures Follows(Turns(body, pos, refs), pos, Headers(APACHE_START), APACHE_END, body, refs.apache, Norm)
    decreases |body| - pos
  {
    NextTurnFollows(body, pos, refs);
    TurnsAre(body, pos, refs);
    var t := NextTurn(body, pos, refs);
    if t.Some? {
      TurnsFollow(body, After(t.value), refs);
    }
  }

  // ---- where a piece stands ----

  predicate HasAt(segs: seq<Segment>, pos: nat, at: nat, seg: Segment) {
    segs != [] && ((pos == at && segs[0] == seg) || HasAt(segs[1..], pos + |segs[0].text|, at, seg))
  }

  lemma {:induction false} HasAtParts(x: seq<Segment>, y: seq<Segment>, pos: nat, at: nat, seg: Segment)
    ensures HasAt(x + y, pos, at, seg) <==> HasAt(x, pos, at, seg) || HasAt(y, pos + |Flatten(x)|, at, seg)
    decreases |x|
  {
    if x == [] {
      assert x + y == y;
    } else {
      HasAtParts(x[1..], y, pos + |x[0].text|, at, seg);
      assert (x + y)[1..] == x[1..] + y;
    }
  }

  lemma HasAtTwo(p: Segment, q: Segment, pos: nat, at: nat, seg: Segment)
    ensures HasAt([p], pos, at, seg) <==> pos == at && p == seg
    ensures HasAt([p, q], pos, at, seg) <==> (pos == at && p == seg) || (pos + |p.text| == at && q == seg)
  {
    assert [p, q][1..] == [q] && [q][1..] == [] && [p][1..] == [];
    assert HasAt([q], pos + |p.text|, at, seg) <==> pos + |p.text| == at && q == seg;
  }

  lemma PiecesHave(body: string, pos: nat, t: Turn, b: nat, e: nat)
    requires Fits(t, pos, |body|) && b < e <= |body|
    ensures HasAt(Pieces(body, pos, t), pos, b, License(body[b..e])) <==> t.Copy? && t.begin == b && t.end == e
  {
    var p, seg := Pieces(body, pos, t), License(body[b..e]);
    match t
    case Copy(begin, end, template) =>
      HasAtTwo(p[0], p[1], pos, b, seg);
      assert b == begin && body[b..e] == body[begin..end] ==> e - b == end - begin;
      if template.Some? {
        HasAtTwo(p[2], p[3], end, b, seg);
        HasAtParts([p[0], p[1]], [p[2], p[3]], pos, b, seg);
        FlattenTwo(p[0], p[1]);
        assert p == [p[0], p[1]] + [p[2], p[3]];
      }
    case Other(end) =>
      HasAtTwo(p[0], p[0], pos, b, seg);
  }

  lemma {:induction false} SegmentsHave(body: string, pos: nat, turns: seq<Turn>, b: nat, e: nat)
    requires Chain(turns, pos, |body|) && b < e <= |body|
    ensures HasAt(Segments(body, pos, turns), pos, b, License(body[b..e])) <==> Replaces(turns, b, e)
    decreases |turns|
  {
    if turns == [] {
      HasAtTwo(Between(body[pos..]), Between(body[pos..]), pos, b, License(body[b..e]));
    } else {
      var next := After(turns[0]);
      SegmentsHave(body, next, turns[1..], b, e);
      PiecesHave(body, pos, turns[0], b, e);
      PiecesAreText(body, pos, turns[0]);
      HasAtParts(Pieces(body, pos, turns[0]), Segments(body, next, turns[1..]), pos, b, License(body[b..e]));
    }
  }

  // ---- the same condition, from the text alone ----

  // covers(e, x): x lies in the appendix that is dropped after a copy ending at e.
  ghost predicate ReplacedAt(start: Pattern, mark: string, body: string, apache: Option<string>,
                             norm: string -> string, covers: (nat, nat) -> bool, b: nat, e: nat)
    decreases b, 1
  {
    && Recognised(start, mark, body, b, e)
    && Matches(body[b..e], apache, norm)
    && !DroppedAt(start, mark, body, apache, norm, covers, b)
    && forall q: nat :: q < b && start(body, q).Some? && !DroppedAt(start, mark, body, apache, norm, covers, q) ==>
         Closed(start, mark, body, q, b)
  }

  ghost predicate DroppedAt(start: Pattern, mark: string, body: string, apache: Option<string>,
                            norm: string -> string, covers: (nat, nat) -> bool, x: nat)
    decreases x, 0
  {
    exists c: nat, e: nat :: c < x && covers(e, x) && ReplacedAt(start, mark, body, apache, norm, covers, c, e)
  }

  ghost predicate CoversTurn(t: Turn, covers: (nat, nat) -> bool) {
    t.Copy? ==>
      forall x: nat :: covers(t.end, x) <==> t.template.Some? && t.template.value.0 <= x < t.template.value.1
  }

  ghost predicate CoversTurns(turns: seq<Turn>, covers: (nat, nat) -> bool) {
    turns != [] ==> CoversTurn(turns[0], covers) && CoversTurns(turns[1..], covers)
  }

  lemma {:induction false} TemplateOf(turns: seq<Turn>, pos: nat, length: nat, covers: (nat, nat) -> bool, x: nat)
    returns (c: nat, e: nat)
    requires Chain(turns, pos, length) && CoversTurns(turns, covers) && InTemplate(turns, x)
    ensures Replaces(turns, c, e) && covers(e, x) && c < x
    decreases |turns|
  {
    var t := turns[0];
    if t.Copy? && t.template.Some? && t.template.value.0 <= x < t.template.value.1 {
      c, e := t.begin, t.end;
    } else {
      c, e := TemplateOf(turns[1..], After(t), length, covers, x);
    }
  }

  lemma {:induction false} CoveredIsInTemplate(turns: seq<Turn>, covers: (nat, nat) -> bool, c: nat, e: nat, x: nat)
    requires CoversTurns(turns, covers) && Replaces(turns, c, e) && covers(e, x)
    ensures InTemplate(turns, x)
    decreases |turns|
  {
    if !(turns[0].Copy? && turns[0].begin == c && turns[0].end == e) {
      CoveredIsInTemplate(turns[1..], covers, c, e, x);
    }
  }

  lemma {:induction false} DroppedIff(turns: seq<Turn>, start: Pattern, mark: string, body: string,
                                      apache: Option<string>, norm: string -> string,
                                      covers: (nat, nat) -> bool, x: nat)
    requires Follows(turns, 0, start, mark, body, apache, norm) && Distinct(start, mark, body)
    requires CoversTurns(turns, covers)
    ensures DroppedAt(start, mark, body, apache, norm, covers, x) <==> InTemplate(turns, x)
    decreases x, 0
  {
    if InTemplate(turns, x) {
      var c, e := TemplateOf(turns, 0, |body|, covers, x);
      ReplacedAtIff(turns, start, mark, body, apache, norm, covers, c, e);
    }
    forall c: nat, e: nat | c < x && covers(e, x)
      ensures ReplacedAt(start, mark, body, apache, norm, covers, c, e) ==> InTemplate(turns, x)
    {
      ReplacedAtIff(turns, start, mark, body, apache, norm, covers, c, e);
      if Replaces(turns, c, e) {
        CoveredIsInTemplate(turns, covers, c, e, x);
      }
    }
  }

  lemma {:induction false} ReplacedAtIff(turns: seq<Turn>, start: Pattern, mark: string, body: string,
                                         apache: Option<string>, norm: string -> string,
                                         covers: (nat, nat) -> bool, b: nat, e: nat)
    requires Follows(turns, 0, start, mark, body, apache, norm) && Distinct(start, mark, body)
    requires CoversTurns(turns, covers)
    ensures ReplacedAt(start, mark, body, apache, norm, covers, b, e) <==> Replaces(turns, b, e)
    decreases b, 1
  {
    ReplacesIff(turns, 0, start, mark, body, apache, norm, b, e);
    DroppedIff(turns, start, mark, body, apache, norm, covers, b);
    forall q: nat | q < b
      ensures DroppedAt(start, mark, body, apache, norm, covers, q) <==> InTemplate(turns, q)
    {
      DroppedIff(turns, start, mark, body, apache, norm, covers, q);
    }
  }

  ghost function Covers(body: string, appendix: Option<string>): (nat, nat) -> bool {
    (e: nat, x: nat) =>
      e <= |body| &&
      var t := TemplateAt(body, e, appendix);
      t.Some? && t.value.0 <= x < t.value.1
  }

  lemma {:induction false} TurnsAreCovered(body: string, pos: nat, refs: References)
    requires pos <= |body|
    ensures CoversTurns(Turns(body, pos, refs), Covers(body, refs.appendix))
    decreases |body| - pos
  {
    TurnsAre(body, pos, refs);
    var t := NextTurn(body, pos, refs);
    if t.Some? {
      TurnsAreCovered(body, After(t.value), refs);
    }
  }

  // Main result, for every text, any references and any stretch of the text: it becomes
  // the link exactly when it equals the reference after norm, starts with a header that
  // the generator recognises, ends with the first end mark after that header, does not
  // start inside the appendix of an earlier replaced copy, and every header before it (not
  // in such an appendix) has an end mark between itself and it.
  lemma CopyReplacedIff(body: string, refs: References, b: nat, e: nat)
    requires b < e <= |body|
    ensures HasAt(Segments(body, 0, Turns(body, 0, refs)), 0, b, License(body[b..e]))
            <==> ReplacedAt(Headers(APACHE_START), APACHE_END, body, refs.apache, Norm,
                            Covers(body, refs.appendix), b, e)
  {
    var turns := Turns(body, 0, refs);
    TurnsFollow(body, 0, refs);
    TurnsAreCovered(body, 0, refs);
    ApacheProper();
    ApacheEndProper();
    HeadersAreDistinct(APACHE_START, APACHE_END, body);
    ReplacedAtIff(turns, Headers(APACHE_START), APACHE_END, body, refs.apache, Norm, Covers(body, refs.appendix), b, e);
    SegmentsHave(body, 0, turns, b, e);
  }

  // ---- which appendix is dropped ----

  // body[x..y] is an appendix right after e, from its title to the first end mark.
  ghost predicate IsAppendix(body: string, e: nat, x: nat, y: nat) {
    && e <= x <= y <= |body| && IsBlank(body[e..x])
    && OccursAt(body, APPENDIX, x) && x + |APPENDIX| <= e + 200
    && y <= x + 2500 && x + |APPENDIX_END| <= y && OccursAt(body, APPENDIX_END, y - |APPENDIX_END|)
    && (forall k: nat :: x <= k < y - |APPENDIX_END| ==> !OccursAt(body, APPENDIX_END, k))
  }

  // With the words of the reference.
  ghost predicate IsTemplate(body: string, e: nat, x: nat, y: nat, appendix: Option<string>) {
    IsAppendix(body, e, x, y) && Matches(body[x..y], appendix, Norm)
  }

  lemma NoTitleInBlank(body: string, e: nat, x: nat, q: nat)
    requires e <= q < x <= |body| && IsBlank(body[e..x])
    ensures !OccursAt(body, APPENDIX, q)
  {
    assert body[e..x][q - e] == body[q];
    assert APPENDIX[0] == 'A';
    assert body[q + 0] != APPENDIX[0];
  }

  lemma AppendixFound(body: string, e: nat, x: nat, y: nat)
    requires IsAppendix(body, e, x, y)
    ensures AppendixSpan(body, e) == Some((x, y))
  {
    forall q: nat | e <= q < x ensures !OccursAt(body, APPENDIX, q) {
      NoTitleInBlank(body, e, x, q);
    }
    FindIs(body, APPENDIX, e, e + 200, x);
    FindIs(body, APPENDIX_END, x, x + 2500, y - |APPENDIX_END|);
    BlankIff(body[e..x]);
  }

  lemma AppendixIs(body: string, e: nat, x: nat, y: nat)
    requires e <= |body| && AppendixSpan(body, e) == Some((x, y))
    ensures IsAppendix(body, e, x, y)
  {
  }

  lemma TemplateIff(body: string, e: nat, x: nat, y: nat, appendix: Option<string>)
    requires e <= |body|
    ensures TemplateAt(body, e, appendix) == Some((x, y)) <==> IsTemplate(body, e, x, y, appendix)
  {
    if IsAppendix(body, e, x, y) {
      AppendixFound(body, e, x, y);
    }
    if AppendixSpan(body, e) == Some((x, y)) {
      AppendixIs(body, e, x, y);
    }
  }

  predicate HasTemplate(turns: seq<Turn>, x: nat, y: nat) {
    turns != [] && ((turns[0].Copy? && turns[0].template == Some((x, y))) || HasTemplate(turns[1..], x, y))
  }

  lemma PiecesHaveTemplate(body: string, pos: nat, t: Turn, x: nat, y: nat)
    requires Fits(t, pos, |body|) && x < y <= |body|
    ensures HasAt(Pieces(body, pos, t), pos, x, Template(body[x..y])) <==> t.Copy? && t.template == Some((x, y))
  {
    var p, seg := Pieces(body, pos, t), Template(body[x..y]);
    match t
    case Copy(begin, end, template) =>
      HasAtTwo(p[0], p[1], pos, x, seg);
      if template.Some? {
        HasAtTwo(p[2], p[3], end, x, seg);
        HasAtParts([p[0], p[1]], [p[2], p[3]], pos, x, seg);
        FlattenTwo(p[0], p[1]);
        assert p == [p[0], p[1]] + [p[2], p[3]];
        assert |p[3].text| == template.value.1 - template.value.0 && |seg.text| == y - x;
      }
    case Other(end) =>
      HasAtTwo(p[0], p[0], pos, x, seg);
  }

  lemma {:induction false} SegmentsHaveTemplate(body: string, pos: nat, turns: seq<Turn>, x: nat, y: nat)
    requires Chain(turns, pos, |body|) && x < y <= |body|
    ensures HasAt(Segments(body, pos, turns), pos, x, Template(body[x..y])) <==> HasTemplate(turns, x, y)
    decreases |turns|
  {
    if turns == [] {
      HasAtTwo(Between(body[pos..]), Between(body[pos..]), pos, x, Template(body[x..y]));
    } else {
      var next := After(turns[0]);
      SegmentsHaveTemplate(body, next, turns[1..], x, y);
      PiecesHaveTemplate(body, pos, turns[0], x, y);
      PiecesAreText(body, pos, turns[0]);
      HasAtParts(Pieces(body, pos, turns[0]), Segments(body, next, turns[1..]), pos, x, Template(body[x..y]));
    }
  }

  lemma {:induction false} TemplateOfTurn(body: string, pos: nat, refs: References, x: nat, y: nat)
    returns (b: nat, e: nat)
    requires pos <= |body| && HasTemplate(Turns(body, pos, refs), x, y)
    ensures b < e <= |body| && Replaces(Turns(body, pos, refs), b, e)
    ensures TemplateAt(body, e, refs.appendix) == Some((x, y))
    decreases |body| - pos
  {
    TurnsAre(body, pos, refs);
    var t := NextTurn(body, pos, refs).value;
    if t.Copy? && t.template == Some((x, y)) {
      b, e := t.begin, t.end;
    } else {
      b, e := TemplateOfTurn(body, After(t), refs, x, y);
    }
  }

  lemma {:induction false} TurnHasTemplate(body: string, pos: nat, refs: References, b: nat, e: nat)
    requires pos <= |body| && Replaces(Turns(body, pos, refs), b, e) && e <= |body|
    ensures var r := TemplateAt(body, e, refs.appendix);
            r.Some? ==> HasTemplate(Turns(body, pos, refs), r.value.0, r.value.1)
    decreases |body| - pos
  {
    TurnsAre(body, pos, refs);
    var t := NextTurn(body, pos, refs).value;
    if !(t.Copy? && t.begin == b && t.end == e) {
      TurnHasTemplate(body, After(t), refs, b, e);
    }
  }

  // A stretch is dropped as an appendix exactly when it is the unfilled one right after
  // a copy that became the link.
  lemma AppendixDroppedIff(body: string, refs: References, x: nat, y: nat)
    requires x < y <= |body|
    ensures var segs := Segments(body, 0, Turns(body, 0, refs));
            HasAt(segs, 0, x, Template(body[x..y])) <==>
            exists b: nat, e: nat :: b < e <= |body| && HasAt(segs, 0, b, License(body[b..e]))
                                     && IsTemplate(body, e, x, y, refs.appendix)
  {
    var turns := Turns(body, 0, refs);
    SegmentsHaveTemplate(body, 0, turns, x, y);
    if HasTemplate(turns, x, y) {
      var b, e := TemplateOfTurn(body, 0, refs, x, y);
      SegmentsHave(body, 0, turns, b, e);
      TemplateIff(body, e, x, y, refs.appendix);
    }
    forall b: nat, e: nat | b < e <= |body| && IsTemplate(body, e, x, y, refs.appendix)
      ensures HasAt(Segments(body, 0, turns), 0, b, License(body[b..e])) ==> HasTemplate(turns, x, y)
    {
      SegmentsHave(body, 0, turns, b, e);
      TemplateIff(body, e, x, y, refs.appendix);
      if Replaces(turns, b, e) {
        TurnHasTemplate(body, 0, refs, b, e);
      }
    }
  }

  // ---- a copy that stays ----

  // The licence named in passing, with the words that start a header.
  const MENTION: string := APACHE_START.title + " " + APACHE_START.version + " "

  lemma HeaderOf(marks: Marks, text: string)
    requires marks.version != "" && marks.gap(' ') && !marks.gap(marks.version[0])
    ensures Headers(marks)(marks.title + " " + marks.version + " " + text, 0)
         == Some(|marks.title| + 1 + |marks.version|)
  {
    var s := marks.title + " " + marks.version + " " + text;
    var n := |marks.title|;
    assert forall k :: 0 <= k < n ==> s[0 + k] == marks.title[k];
    assert forall k :: 0 <= k < |marks.version| ==> s[n + 1 + k] == marks.version[k];
    assert s[n] == ' ' && s[n + 1 + 0] == marks.version[0];
    SkipIs(s, n, n + 1, marks.gap);
  }

  lemma MentionIsHeader(text: string)
    ensures Headers(APACHE_START)(MENTION + text, 0) == Some(|MENTION| - 1)
  {
    ApacheProper();
    HeaderOf(APACHE_START, text);
  }

  // The first end mark after the mention is that of the copy behind it.
  lemma EndAfterMention(copy: string, start: Pattern, mark: string, body: string, from: nat)
    requires Distinct(start, mark, copy) && Recognised(start, mark, copy, 0, |copy|) && start(copy, 0).Some?
    requires |body| == from + 1 + |copy| && IsSlice(body, from + 1, copy) && mark != "" && body[from] != mark[0]
    ensures Find(body, mark, from, |body|) == |body| - |mark|
  {
    SpanParts(start, mark, copy, 0);
    var r := |copy| - |mark|;
    OccursInSlice(body, from + 1, copy, mark, r);
    forall q: nat | from <= q < from + 1 + r
      ensures !OccursAt(body, mark, q)
    {
      NoEndBefore(copy, start, mark, body, from, q);
    }
    FindIs(body, mark, from, |body|, from + 1 + r);
  }

  lemma NoEndBefore(copy: string, start: Pattern, mark: string, body: string, from: nat, q: nat)
    requires Distinct(start, mark, copy) && Recognised(start, mark, copy, 0, |copy|) && start(copy, 0).Some?
    requires |body| == from + 1 + |copy| && IsSlice(body, from + 1, copy) && mark != "" && body[from] != mark[0]
    requires from <= q < from + 1 + |copy| - |mark|
    ensures !OccursAt(body, mark, q)
  {
    SpanParts(start, mark, copy, 0);
    if q == from {
      assert body[from + 0] != mark[0];
    } else {
      OccursInSlice(body, from + 1, copy, mark, q - from - 1);
      assert ApartFrom(start, mark, copy, 0, q - from - 1);
    }
  }

  lemma SpanFromMention(copy: string)
    requires Recognised(Headers(APACHE_START), APACHE_END, copy, 0, |copy|)
    requires Headers(APACHE_START)(copy, 0).Some?
    ensures ApacheSpan(MENTION + copy, 0) == Some((0, |MENTION + copy|))
  {
    var body := MENTION + copy;
    ApacheProper();
    ApacheEndProper();
    HeadersAreDistinct(APACHE_START, APACHE_END, copy);
    var from := |MENTION| - 1;
    assert body[from] == ' ' != APACHE_END[0];
    EndAfterMention(copy, Headers(APACHE_START), APACHE_END, body, from);
    MentionIsHeader(copy);
    SearchIs(Headers(APACHE_START), body, 0, 0);
  }

  // No "https" is made or broken by putting m in front.
  lemma {:induction false} HttpsBehind(m: string, text: string)
    requires forall i :: 0 <= i < |m| && m[i] == 'h' ==> i + 1 < |m| && m[i + 1] != 't'
    ensures HttpsAsHttp(m + text) == m + HttpsAsHttp(text)
    decreases |m|
  {
    if m == [] {
      assert m + text == text;
    } else {
      HttpsBehind(m[1..], text);
      HttpsStep(m, text);
      assert [m[0]] + (m[1..] + HttpsAsHttp(text)) == m + HttpsAsHttp(text);
    }
  }

  lemma HttpsStep(m: string, text: string)
    requires m != "" && (m[0] == 'h' ==> |m| > 1 && m[1] != 't')
    ensures HttpsAsHttp(m + text) == [m[0]] + HttpsAsHttp(m[1..] + text)
  {
    var s := m + text;
    assert s[1..] == m[1..] + text && s[0] == m[0];
    if m[0] == 'h' {
      NotHttps(s, m[1]);
    } else {
      NotHttps(s, 't');
    }
  }

  lemma NotHttps(s: string, second: char)
    requires s != [] && (s[0] == 'h' ==> |s| > 1 && s[1] == second && second != 't')
    ensures !OccursAt(s, "https://", 0)
  {
    assert "https://"[0] == 'h' && "https://"[1] == 't';
    assert s[0 + 0] == s[0];
    assert |s| > 1 ==> s[0 + 1] == s[1];
  }

  lemma DropBehind(c: char, text: string, n: nat)
    requires n <= |text|
    ensures ([c] + text)[1 + n..] == text[n..]
  {
  }

  lemma SpaceInFront(c: char, text: string)
    requires IsSpace(c)
    ensures Words([c] + text) == Words(text)
  {
    var n := SkipWhile(text, 0, IsSpace);
    var s := [c] + text;
    assert forall k :: 1 <= k < 1 + n ==> s[k] == text[k - 1];
    SkipIs(s, 1, 1 + n, IsSpace);
    DropBehind(c, text, n);
    if text != [] && IsSpace(text[0]) {
      SkipIs(text, 1, n, IsSpace);
    }
  }

  lemma SplitWord(m: string) returns (w: string, rest: string)
    requires m != "" && !IsSpace(m[0]) && IsSpace(m[|m| - 1])
    ensures m == w + rest && IsWord(w) && rest != "" && IsSpace(rest[0]) && rest[|rest| - 1] == m[|m| - 1]
  {
    var e := WordEnd(m, 1);
    w, rest := m[..e], m[e..];
  }

  // What is asked of a count of words.
  ghost predicate CountsWords(count: string -> nat) {
    && (forall c, t :: IsSpace(c) ==> count([c] + t) == count(t))
    && (forall w, t :: IsWord(w) && t != "" && IsSpace(t[0]) ==> count(w + t) == 1 + count(t))
  }

  // Text in front, up to a whitespace, takes no word away, and adds one for its own first.
  lemma {:induction false} CountInFront(count: string -> nat, m: string, text: string)
    requires CountsWords(count) && (m != "" ==> IsSpace(m[|m| - 1]))
    ensures count(m + text) >= count(text) + if m != "" && !IsSpace(m[0]) then 1 else 0
    decreases |m|
  {
    if m == "" {
      assert m + text == text;
    } else if IsSpace(m[0]) {
      CountInFront(count, m[1..], text);
      assert m + text == [m[0]] + (m[1..] + text);
    } else {
      var w, rest := SplitWord(m);
      CountInFront(count, rest, text);
      assert m + text == w + (rest + text);
    }
  }

  ghost function WordCount(): string -> nat {
    (s: string) => |Words(s)|
  }

  lemma WordCountCounts()
    ensures CountsWords(WordCount())
  {
    forall c, t | IsSpace(c)
      ensures WordCount()([c] + t) == WordCount()(t)
    {
      SpaceInFront(c, t);
    }
    forall w, t | IsWord(w) && t != "" && IsSpace(t[0])
      ensures WordCount()(w + t) == 1 + WordCount()(t)
    {
      WordThen(w, t);
    }
  }

  lemma MentionChangesNorm(text: string)
    ensures Norm(MENTION + text) != Norm(text)
  {
    HttpsBehind(MENTION, text);
    WordCountCounts();
    CountInFront(WordCount(), MENTION, HttpsAsHttp(text));
    assert |Words(MENTION + HttpsAsHttp(text))| > |Words(HttpsAsHttp(text))|;
    NormEqualIff(MENTION + text, text);
  }

  // Every copy of the licence that is replaced on its own stays, word for word, when the
  // licence was mentioned before it: the generator takes the two for one text that is not
  // the licence.
  lemma CopyAfterMentionStays(copy: string, refs: References)
    requires copy != "" && refs.apache == Some(Norm(copy))
    requires Recognised(Headers(APACHE_START), APACHE_END, copy, 0, |copy|)
    ensures var body := MENTION + copy;
            Segments(body, 0, Turns(body, 0, refs)) == [Kept(body), Blank("")]
    ensures HasAt(Segments(copy, 0, Turns(copy, 0, refs)), 0, 0, License(copy))
  {
    var body := MENTION + copy;
    SpanParts(Headers(APACHE_START), APACHE_END, copy, 0);
    SpanFromMention(copy);
    MentionChangesNorm(copy);
    OneOtherTurn(body, refs);
    AloneReplaced(copy, refs);
  }

  lemma OneOtherTurn(body: string, refs: References)
    requires body != "" && ApacheSpan(body, 0) == Some((0, |body|)) && !Matches(body, refs.apache, Norm)
    ensures Segments(body, 0, Turns(body, 0, refs)) == [Kept(body), Blank("")]
  {
    assert body[0..|body|] == body;
    TurnsAre(body, 0, refs);
    TurnsAre(body, |body|, refs);
    assert body[|body|..] == "";
  }

  lemma AloneReplaced(copy: string, refs: References)
    requires copy != "" && refs.apache == Some(Norm(copy))
    requires Recognised(Headers(APACHE_START), APACHE_END, copy, 0, |copy|)
    ensures HasAt(Segments(copy, 0, Turns(copy, 0, refs)), 0, 0, License(copy))
  {
    assert copy[0..|copy|] == copy;
    CopyReplacedIff(copy, refs, 0, |copy|);
  }

  // A stretch without a header that the generator recognises is never replaced, whatever
  // its words are.
  lemma NoHeaderNotReplaced(body: string, refs: References, b: nat, e: nat)
    requires b < e <= |body| && Headers(APACHE_START)(body, b).None?
    ensures !HasAt(Segments(body, 0, Turns(body, 0, refs)), 0, b, License(body[b..e]))
  {
    SpanParts(Headers(APACHE_START), APACHE_END, body, b);
    CopyReplacedIff(body, refs, b, e);
  }

  // The title with c between its words; a space makes it the title.
  function Title(c: char): string {
    "Apache" + ([c] + "License")
  }

  lemma TitleIs()
    ensures APACHE_START.title == Title(' ')
  {
  }

  lemma OtherTitleIsNoHeader(c: char, rest: string)
    requires c != ' '
    ensures Headers(APACHE_START)(Title(c) + rest, 0).None?
  {
    var s := Title(c) + rest;
    assert s[0 + 6] == Title(c)[6] == c && APACHE_START.title[6] == ' ';
  }

  lemma TitleHttps(c: char, rest: string)
    requires IsSpace(c)
    ensures HttpsAsHttp(Title(c) + rest) == Title(c) + HttpsAsHttp(rest)
  {
    var t := Title(c);
    assert t[4] == 'h' && t[5] == 'e' && forall i :: 0 <= i < |t| && i != 4 ==> t[i] != 'h';
    HttpsBehind(t, rest);
  }

  // The same words for any whitespace.
  lemma TitleWords(c: char, text: string)
    requires IsSpace(c)
    ensures Words(Title(c) + text) == ["Apache"] + Words("License" + text)
  {
    assert Title(c) + text == "Apache" + ([c] + ("License" + text));
    WordThen("Apache", [c] + ("License" + text));
    SpaceInFront(c, "License" + text);
  }

  lemma TitleNorm(c: char, rest: string)
    requires IsSpace(c)
    ensures Norm(Title(c) + rest) == Norm(Title(' ') + rest)
  {
    TitleHttps(c, rest);
    TitleHttps(' ', rest);
    TitleWords(c, HttpsAsHttp(rest));
    TitleWords(' ', HttpsAsHttp(rest));
    NormEqualIff(Title(c) + rest, Title(' ') + rest);
  }

  // So a copy that is replaced stays when any other whitespace, say a line break, stands
  // in its title, although norm makes the two the same.
  lemma BrokenCopyStays(c: char, rest: string, refs: References)
    requires IsSpace(c) && c != ' ' && refs.apache == Some(Norm(Title(' ') + rest))
    requires Recognised(Headers(APACHE_START), APACHE_END, Title(' ') + rest, 0, |Title(' ') + rest|)
    ensures Title(' ') == APACHE_START.title
    ensures var copy, broken := Title(' ') + rest, Title(c) + rest;
            && HasAt(Segments(copy, 0, Turns(copy, 0, refs)), 0, 0, License(copy))
            && Matches(broken, refs.apache, Norm)
            && !HasAt(Segments(broken, 0, Turns(broken, 0, refs)), 0, 0, License(broken))
  {
    var copy, broken := Title(' ') + rest, Title(c) + rest;
    TitleIs();
    AloneReplaced(copy, refs);
    TitleNorm(c, rest);
    OtherTitleIsNoHeader(c, rest);
    assert broken[0..|broken|] == broken;
    NoHeaderNotReplaced(broken, refs, 0, |broken|);
  }
}
