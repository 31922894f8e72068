// gen-licenses.py: in each component's text, copies of the Apache 2.0 licence are
// replaced by a link to the one copy; everything else is kept.
module Licenses {
  import opened Common
  import opened LicenseText

  const APPENDIX: string := "APPENDIX"
  const APPENDIX_END: string := "limitations under the License."

  const APACHE_END: string := "END OF TERMS AND CONDITIONS"

  // A header is title, some characters of gap, version.
  datatype Marks = Marks(title: string, gap: char -> bool, version: string)

  const APACHE_START := Marks("Apache License", IsSpace, "Version 2.0, January 2004")

  // The header at p: the index after it.
  function HeaderAt(s: string, p: nat, marks: Marks): (end: Option<nat>)
    ensures end.Some? ==> p + |marks.title| < end.value <= |s|
  {
    if !OccursAt(s, marks.title, p) then None
    else
      var i := SkipWhile(s, p + |marks.title|, marks.gap);
      if i > p + |marks.title| && OccursAt(s, marks.version, i) then Some(i + |marks.version|) else None
  }

  // What stands at an index of a text, and where it ends.
  type Pattern = (string, nat) -> Option<nat>

  function Headers(marks: Marks): Pattern {
    (s: string, p: nat) => HeaderAt(s, p, marks)
  }

  // start.search(s, p): begin and end of the leftmost match.
  function Search(start: Pattern, s: string, p: nat): (m: Option<(nat, nat)>)
    requires p <= |s|
    ensures m.Some? ==> p <= m.value.0 <= |s| && start(s, m.value.0) == Some(m.value.1)
    decreases |s| - p
  {
    if start(s, p).Some? then Some((p, start(s, p).value))
    else if p < |s| then Search(start, s, p + 1)
    else None
  }

  lemma {:induction false} SearchIsLeftmost(start: Pattern, s: string, p: nat, q: nat)
    requires p <= q <= |s|
    ensures var m := Search(start, s, p);
            m.None? || q < m.value.0 ==> start(s, q).None?
    decreases |s| - p
  {
    if p < q && start(s, p).None? {
      SearchIsLeftmost(start, s, p + 1, q);
    }
  }

  // From the match m to the end of the next w.
  function UpTo(text: string, m: Option<(nat, nat)>, w: string): (r: Option<(nat, nat)>)
    ensures r.Some? ==> m.Some? && r.value.0 == m.value.0 && m.value.1 <= r.value.1 <= |text|
  {
    if m.None? then None
    else
      var end := Find(text, w, m.value.1, |text|);
      if end < 0 then None else Some((m.value.0, end + |w|))
  }

  function Span(start: Pattern, end: string, text: string, from: nat): (r: Option<(nat, nat)>)
    requires from <= |text|
    ensures r.Some? ==> from <= r.value.0 && r.value.1 <= |text|
  {
    UpTo(text, Search(start, text, from), end)
  }

  function ApacheSpan(text: string, start: nat): (r: Option<(nat, nat)>)
    requires start <= |text|
    ensures r.Some? ==> start <= r.value.0 < r.value.1 <= |text|
  {
    Span(Headers(APACHE_START), APACHE_END, text, start)
  }

  function AppendixSpan(text: string, start: nat): (r: Option<(nat, nat)>)
    requires start <= |text|
    ensures r.Some? ==> start <= r.value.0 < r.value.1 <= |text| && IsBlank(text[start..r.value.0])
  {
    var begin := Find(text, APPENDIX, start, start + 200);
    if begin < 0 then None
    else
      BlankIff(text[start..begin]);
      if Strip(text[start..begin], IsSpace) != "" then None
      else
        var end := Find(text, APPENDIX_END, begin, begin + 2500);
        if end < 0 then None else Some((begin, end + |APPENDIX_END|))
  }

  lemma {:induction false} StripBlankOnly(s: string)
    ensures LStrip(s, IsSpace) == "" <==> IsBlank(s)
    ensures LStrip(s, IsSpace) != "" ==> !IsSpace(LStrip(s, IsSpace)[0])
  {
    if s != [] && IsSpace(s[0]) {
      StripBlankOnly(s[1..]);
      assert s == [s[0]] + s[1..];
    }
  }

  lemma {:induction false} RStripKeepsFirst(s: string)
    requires s != [] && !IsSpace(s[0])
    ensures RStrip(s, IsSpace) != ""
    decreases |s|
  {
    if IsSpace(s[|s| - 1]) {
      RStripKeepsFirst(s[..|s| - 1]);
    }
  }

  // strip() leaves nothing exactly of whitespace.
  lemma BlankIff(s: string)
    ensures Strip(s, IsSpace) == "" <==> IsBlank(s)
  {
    StripBlankOnly(s);
    if LStrip(s, IsSpace) != "" {
      RStripKeepsFirst(LStrip(s, IsSpace));
    }
  }

  // ---- the turns of the loop over one component's text ----

  datatype References = References(apache: Option<string>, appendix: Option<string>)

  // Copy: body[begin..end] is a copy of the licence; template: the unfilled appendix after it.
  // Other: some other text with that header, which ends at end.
  datatype Turn = Copy(begin: nat, end: nat, template: Option<(nat, nat)>) | Other(end: nat)

  function After(t: Turn): nat {
    if t.Copy? && t.template.Some? then t.template.value.1 else t.end
  }

  predicate Fits(t: Turn, pos: nat, length: nat) {
    match t
    case Copy(begin, end, None) => pos <= begin < end <= length
    case Copy(begin, end, Some(app)) => pos <= begin < end <= app.0 < app.1 <= length
    case Other(end) => pos < end <= length
  }

  predicate Matches(text: string, reference: Option<string>, norm: string -> string) {
    reference.Some? && norm(text) == reference.value
  }

  // The turn drops nothing but whitespace and copies of the references.
  ghost predicate DropsCopies(t: Turn, pos: nat, body: string, refs: References, norm: string -> string)
    requires Fits(t, pos, |body|)
  {
    t.Copy? ==>
      && Matches(body[t.begin..t.end], refs.apache, norm)
      && (t.template.Some? ==>
            && IsBlank(body[t.end..t.template.value.0])
            && Matches(body[t.template.value.0..t.template.value.1], refs.appendix, norm))
  }

  function TemplateAt(body: string, pos: nat, appendix: Option<string>): (r: Option<(nat, nat)>)
    requires pos <= |body|
    ensures r.Some? ==> pos <= r.value.0 < r.value.1 <= |body|
  {
    var app := AppendixSpan(body, pos);
    if app.Some? && Matches(body[app.value.0..app.value.1], appendix, Norm) then app else None
  }

  function NextTurn(body: string, pos: nat, refs: References): (t: Option<Turn>)
    requires pos <= |body|
    ensures t.Some? ==> Fits(t.value, pos, |body|)
  {
    var span := ApacheSpan(body, pos);
    if span.None? then None
    else
      var (begin, end) := span.value;
      if Matches(body[begin..end], refs.apache, Norm)
      then Some(Copy(begin, end, TemplateAt(body, end, refs.appendix)))
      else Some(Other(end))
  }

  // The turns follow one another and stay inside the text.
  predicate Chain(turns: seq<Turn>, pos: nat, length: nat) {
    pos <= length && (turns != [] ==> Fits(turns[0], pos, length) && Chain(turns[1..], After(turns[0]), length))
  }

  ghost predicate AllDropCopies(turns: seq<Turn>, pos: nat, body: string, refs: References, norm: string -> string)
    requires Chain(turns, pos, |body|)
    decreases |turns|
  {
    turns != [] ==>
      && DropsCopies(turns[0], pos, body, refs, norm)
      && AllDropCopies(turns[1..], After(turns[0]), body, refs, norm)
  }

  // All turns from pos on. They end because pos grows at every turn.
  function Turns(body: string, pos: nat, refs: References): (r: seq<Turn>)
    requires pos <= |body|
    ensures Chain(r, pos, |body|)
    decreases |body| - pos
  {
    var t := NextTurn(body, pos, refs);
    if t.None? then [] else
      var rest := Turns(body, After(t.value), refs);
      assert ([t.value] + rest)[1..] == rest;
      [t.value] + rest
  }

  lemma NextTurnDropsCopies(body: string, pos: nat, refs: References)
    requires pos <= |body|
    ensures var t := NextTurn(body, pos, refs);
            t.Some? ==> DropsCopies(t.value, pos, body, refs, Norm)
  {
  }

  lemma {:induction false} TurnsDropCopies(body: string, pos: nat, refs: References)
    requires pos <= |body|
    ensures AllDropCopies(Turns(body, pos, refs), pos, body, refs, Norm)
    decreases |body| - pos
  {
    var t := NextTurn(body, pos, refs);
    TurnsAre(body, pos, refs);
    if t.Some? {
      NextTurnDropsCopies(body, pos, refs);
      TurnsDropCopies(body, After(t.value), refs);
    }
  }

  // ---- the pieces of the text ----

  datatype Segment =
    | Kept(text: string)
    | Blank(text: string)      // whitespace, dropped
    | License(text: string)    // a copy of the licence, replaced by the link
    | Template(text: string)   // the unfilled appendix after it, dropped

  function Between(text: string): Segment {
    if IsBlank(text) then Blank(text) else Kept(text)
  }

  function Pieces(body: string, pos: nat, t: Turn): seq<Segment>
    requires Fits(t, pos, |body|)
  {
    match t
    case Copy(begin, end, None) => [Between(body[pos..begin]), License(body[begin..end])]
    case Copy(begin, end, Some(app)) =>
      [Between(body[pos..begin]), License(body[begin..end]), Blank(body[end..app.0]), Template(body[app.0..app.1])]
    case Other(end) => [Kept(body[pos..end])]
  }

  function Segments(body: string, pos: nat, turns: seq<Turn>): seq<Segment>
    requires Chain(turns, pos, |body|)
    decreases |turns|
  {
    if turns == [] then [Between(body[pos..])]
    else Pieces(body, pos, turns[0]) + Segments(body, After(turns[0]), turns[1..])
  }

  // ---- the HTML ----

  function EscapeChar(c: char): string {
    if c == '&' then "&amp;" else if c == '<' then "&lt;" else if c == '>' then "&gt;"
    else if c == '"' then "&quot;" else if c == '\'' then "&#x27;" else [c]
  }

  function Escape(s: string): string {
    if s == [] then [] else EscapeChar(s[0]) + Escape(s[1..])
  }

  predicate IsNewline(c: char) {
    c == '\n'
  }

  function Pre(text: string): string {
    "<pre>" + Escape(Strip(text, IsNewline)) + "</pre>\n"
  }

  function Link(reference: string): string {
    "<p><a href=\"#" + reference + "\">Apache License 2.0</a></p>\n"
  }

  function Html(seg: Segment, reference: string): string {
    match seg
    case Kept(text) => Pre(text)
    case License(_) => Link(reference)
    case _ => ""
  }

  function Page(reference: string): Segment -> string {
    (seg: Segment) => Html(seg, reference)
  }

  function Rendered(segs: seq<Segment>, page: Segment -> string): string {
    if segs == [] then "" else page(segs[0]) + Rendered(segs[1..], page)
  }

  function Join(chunks: seq<string>): string {
    if chunks == [] then "" else Join(chunks[..|chunks| - 1]) + chunks[|chunks| - 1]
  }

  function Copies(turns: seq<Turn>): nat {
    if turns == [] then 0 else (if turns[0].Copy? then 1 else 0) + Copies(turns[1..])
  }

  // The chunks that the loop collects over the turns, and the one after the loop.
  function AllChunks(body: string, pos: nat, turns: seq<Turn>, reference: string): seq<string>
    requires Chain(turns, pos, |body|)
    decreases |turns|
  {
    if turns == [] then LastChunks(body[pos..])
    else Chunks(body, pos, turns[0], reference) + AllChunks(body, After(turns[0]), turns[1..], reference)
  }

  function LastChunks(text: string): seq<string> {
    if Strip(text, IsSpace) != "" then [Pre(text)] else []
  }

  function Chunks(body: string, pos: nat, t: Turn, reference: string): seq<string>
    requires Fits(t, pos, |body|)
  {
    match t
    case Copy(begin, _, _) =>
      [if Strip(body[pos..begin], IsSpace) != "" then Pre(body[pos..begin]) else ""] + [Link(reference)]
    case Other(end) => [Pre(body[pos..end])]
  }

  // The per-component loop of main.
  method ReplaceCopies(body: string, refs: References, reference: string) returns (html: string, replaced: nat)
    ensures html == Rendered(Segments(body, 0, Turns(body, 0, refs)), Page(reference))
    ensures PageShows(html, Segments(body, 0, Turns(body, 0, refs)), reference)
    ensures replaced == Links(Segments(body, 0, Turns(body, 0, refs)))
  {
    var chunks: seq<string> := [];
    var pos := 0;
    replaced := 0;
    ghost var turns := Turns(body, 0, refs);
    ghost var all := turns;
    while true
      invariant pos <= |body| && turns == Turns(body, pos, refs)
      invariant chunks + AllChunks(body, pos, turns, reference) == AllChunks(body, 0, all, reference)
      invariant replaced + Copies(turns) == Copies(all)
      decreases |body| - pos
    {
      var span := ApacheSpan(body, pos);
      TurnsAre(body, pos, refs);
      if span.None? {
        break;
      }
      var (begin, end) := span.value;
      ChunksGrow(body, pos, turns, reference, chunks);
      if Matches(body[begin..end], refs.apache, Norm) {
        assert turns[0] == Copy(begin, end, TemplateAt(body, end, refs.appendix));
        var before := if Strip(body[pos..begin], IsSpace) != "" then Pre(body[pos..begin]) else "";
        chunks := chunks + ([before] + [Link(reference)]);
        replaced := replaced + 1;
        pos := end;
        var template := TemplateAt(body, pos, refs.appendix);
        if template.Some? {
          pos := template.value.1;
        }
      } else {
        assert turns[0] == Other(end);
        chunks := chunks + [Pre(body[pos..end])];
        pos := end;
      }
      assert pos == After(turns[0]);
      turns := turns[1..];
    }
    if Strip(body[pos..], IsSpace) != "" {
      chunks := chunks + [Pre(body[pos..])];
    }
    assert chunks == AllChunks(body, 0, all, reference);
    ChunksRendered(body, 0, all, reference);
    RenderedShows(Segments(body, 0, all), reference);
    CopiesAreLinks(body, 0, all);
    html := Join(chunks);
  }

  lemma ChunksGrow(body: string, pos: nat, turns: seq<Turn>, reference: string, chunks: seq<string>)
    requires Chain(turns, pos, |body|) && turns != []
    ensures chunks + AllChunks(body, pos, turns, reference)
         == (chunks + Chunks(body, pos, turns[0], reference)) + AllChunks(body, After(turns[0]), turns[1..], reference)
  {
  }

  // The turns from pos on are the next one, then those after it.
  lemma TurnsAre(body: string, pos: nat, refs: References)
    requires pos <= |body|
    ensures var t := NextTurn(body, pos, refs); var turns := Turns(body, pos, refs);
            if t.None? then turns == []
            else turns != [] && turns[0] == t.value && turns[1..] == Turns(body, After(t.value), refs)
  {
  }

  lemma {:induction false} JoinParts(a: seq<string>, b: seq<string>)
    ensures Join(a + b) == Join(a) + Join(b)
    decreases |b|
  {
    if b == [] {
      assert a + b == a;
    } else {
      var front, last := b[..|b| - 1], b[|b| - 1];
      JoinParts(a, front);
      assert (a + b)[..|a + b| - 1] == a + front && (a + b)[|a + b| - 1] == last;
      assert (Join(a) + Join(front)) + last == Join(a) + (Join(front) + last);
    }
  }

  lemma {:induction false} RenderedParts(a: seq<Segment>, b: seq<Segment>, page: Segment -> string)
    ensures Rendered(a + b, page) == Rendered(a, page) + Rendered(b, page)
    decreases |a|
  {
    if a == [] {
      assert a + b == b;
    } else {
      RenderedParts(a[1..], b, page);
      assert (a + b)[1..] == a[1..] + b;
    }
  }

  // The dropped pieces of a turn do not show.
  lemma PiecesRendered(body: string, pos: nat, t: Turn, page: Segment -> string)
    requires Fits(t, pos, |body|) && forall text :: page(Blank(text)) == page(Template(text)) == ""
    ensures match t
            case Copy(begin, end, _) =>
              Rendered(Pieces(body, pos, t), page) == page(Between(body[pos..begin])) + page(License(body[begin..end]))
            case Other(end) => Rendered(Pieces(body, pos, t), page) == page(Kept(body[pos..end]))
  {
    var p := Pieces(body, pos, t);
    match t
    case Copy(begin, end, template) =>
      RenderedTwo(p[0], p[1], page);
      if template.Some? {
        RenderedFour(p[0], p[1], p[2], p[3], page);
      }
    case Other(end) =>
      RenderedOne(p[0], page);
  }

  // The pieces of one turn show as its chunks.
  lemma TurnRendered(body: string, pos: nat, t: Turn, reference: string)
    requires Fits(t, pos, |body|)
    ensures Rendered(Pieces(body, pos, t), Page(reference)) == Join(Chunks(body, pos, t, reference))
  {
    var page := Page(reference);
    PiecesRendered(body, pos, t, page);
    match t
    case Copy(begin, end, _) =>
      BlankIff(body[pos..begin]);
      JoinTwo(page(Between(body[pos..begin])), page(License(body[begin..end])));
    case Other(end) =>
      JoinOne(page(Kept(body[pos..end])));
  }

  lemma JoinOne(c: string)
    ensures Join([c]) == c
  {
    assert Join([c]) == "" + c;
  }

  lemma JoinTwo(c: string, d: string)
    ensures Join([c] + [d]) == c + d
  {
    JoinOne(c);
    JoinOne(d);
    JoinParts([c], [d]);
  }

  lemma RenderedOne(a: Segment, page: Segment -> string)
    ensures Rendered([a], page) == page(a)
  {
    assert Rendered([a], page) == page(a) + "";
  }

  lemma RenderedTwo(a: Segment, b: Segment, page: Segment -> string)
    ensures Rendered([a, b], page) == page(a) + page(b)
  {
    RenderedOne(b, page);
    assert [a, b][1..] == [b];
  }

  lemma RenderedFour(a: Segment, b: Segment, c: Segment, d: Segment, page: Segment -> string)
    requires page(c) == page(d) == ""
    ensures Rendered([a, b, c, d], page) == page(a) + page(b)
  {
    RenderedTwo(a, b, page);
    RenderedTwo(c, d, page);
    RenderedParts([a, b], [c, d], page);
    assert [a, b, c, d] == [a, b] + [c, d];
  }

  lemma {:induction false} ChunksRendered(body: string, pos: nat, turns: seq<Turn>, reference: string)
    requires Chain(turns, pos, |body|)
    ensures Join(AllChunks(body, pos, turns, reference)) == Rendered(Segments(body, pos, turns), Page(reference))
    decreases |turns|
  {
    if turns == [] {
      LastRendered(body[pos..], reference);
    } else {
      var next := After(turns[0]);
      ChunksRendered(body, next, turns[1..], reference);
      TurnRendered(body, pos, turns[0], reference);
      JoinParts(Chunks(body, pos, turns[0], reference), AllChunks(body, next, turns[1..], reference));
      RenderedParts(Pieces(body, pos, turns[0]), Segments(body, next, turns[1..]), Page(reference));
    }
  }

  lemma LastRendered(text: string, reference: string)
    ensures Join(LastChunks(text)) == Rendered([Between(text)], Page(reference))
  {
    BlankIff(text);
    JoinOne(Pre(text));
    RenderedOne(Between(text), Page(reference));
  }

  // ---- nothing else is lost ----

  function Flatten(segs: seq<Segment>): string {
    if segs == [] then "" else segs[0].text + Flatten(segs[1..])
  }

  // A dropped piece is whitespace, or a copy of the licence or of the appendix template:
  // the same words as the reference.
  ghost predicate Droppable(seg: Segment, refs: References, norm: string -> string) {
    match seg
    case Kept(text) => text != ""
    case Blank(text) => IsBlank(text)
    case License(text) => Matches(text, refs.apache, norm)
    case Template(text) => Matches(text, refs.appendix, norm)
  }

  lemma {:induction false} FlattenParts(a: seq<Segment>, b: seq<Segment>)
    ensures Flatten(a + b) == Flatten(a) + Flatten(b)
    decreases |a|
  {
    if a == [] {
      assert a + b == b;
    } else {
      FlattenParts(a[1..], b);
      assert (a + b)[1..] == a[1..] + b;
    }
  }

  lemma FlattenTwo(a: Segment, b: Segment)
    ensures Flatten([a]) == a.text && Flatten([a, b]) == a.text + b.text
  {
    assert Flatten([b]) == b.text + "";
    assert Flatten([a]) == a.text + "";
    assert [a, b][1..] == [b];
  }

  lemma Consecutive(body: string, a: nat, b: nat, c: nat)
    requires a <= b <= c <= |body|
    ensures body[a..b] + body[b..c] == body[a..c]
  {
  }

  lemma PiecesAreText(body: string, pos: nat, t: Turn)
    requires Fits(t, pos, |body|)
    ensures Flatten(Pieces(body, pos, t)) == body[pos..After(t)]
  {
    var p := Pieces(body, pos, t);
    match t
    case Copy(begin, end, template) =>
      FlattenTwo(p[0], p[1]);
      Consecutive(body, pos, begin, end);
      if template.Some? {
        FlattenTwo(p[2], p[3]);
        Consecutive(body, end, template.value.0, template.value.1);
        Consecutive(body, pos, end, template.value.1);
        FlattenParts([p[0], p[1]], [p[2], p[3]]);
        assert p == [p[0], p[1]] + [p[2], p[3]];
      }
    case Other(end) =>
      FlattenTwo(p[0], p[0]);
  }

  // For every text and any turns, the kept and the dropped pieces, in order, are the text.
  lemma {:induction false} SegmentsAreText(body: string, pos: nat, turns: seq<Turn>)
    requires Chain(turns, pos, |body|)
    ensures Flatten(Segments(body, pos, turns)) == body[pos..]
    decreases |turns|
  {
    if turns == [] {
      assert Flatten([Between(body[pos..])]) == body[pos..] + "";
    } else {
      var next := After(turns[0]);
      SegmentsAreText(body, next, turns[1..]);
      PiecesAreText(body, pos, turns[0]);
      FlattenParts(Pieces(body, pos, turns[0]), Segments(body, next, turns[1..]));
      assert body[pos..] == body[pos..next] + body[next..];
    }
  }

  lemma {:induction false} SegmentsDropCopies(body: string, pos: nat, turns: seq<Turn>, refs: References,
                                              norm: string -> string, i: nat)
    requires Chain(turns, pos, |body|) && AllDropCopies(turns, pos, body, refs, norm)
    requires i < |Segments(body, pos, turns)|
    ensures Droppable(Segments(body, pos, turns)[i], refs, norm)
    decreases |turns|
  {
    if turns != [] {
      var n := |Pieces(body, pos, turns[0])|;
      if i >= n {
        SegmentsDropCopies(body, After(turns[0]), turns[1..], refs, norm, i - n);
      }
    }
  }

  function Links(segs: seq<Segment>): nat {
    if segs == [] then 0 else (if segs[0].License? then 1 else 0) + Links(segs[1..])
  }

  lemma {:induction false} LinksParts(a: seq<Segment>, b: seq<Segment>)
    ensures Links(a + b) == Links(a) + Links(b)
    decreases |a|
  {
    if a == [] {
      assert a + b == b;
    } else {
      LinksParts(a[1..], b);
      assert (a + b)[1..] == a[1..] + b;
    }
  }

  lemma LinksTwo(a: Segment, b: Segment)
    ensures Links([a, b]) == (if a.License? then 1 else 0) + (if b.License? then 1 else 0)
  {
    assert [a, b][1..] == [b];
    assert Links([b]) == (if b.License? then 1 else 0) + Links([]);
  }

  lemma LinksOfPieces(body: string, pos: nat, t: Turn)
    requires Fits(t, pos, |body|)
    ensures Links(Pieces(body, pos, t)) == if t.Copy? then 1 else 0
  {
    var p := Pieces(body, pos, t);
    if t.Copy? {
      LinksTwo(p[0], p[1]);
      if t.template.Some? {
        LinksTwo(p[2], p[3]);
        LinksParts([p[0], p[1]], [p[2], p[3]]);
        assert p == [p[0], p[1]] + [p[2], p[3]];
      }
    }
  }

  lemma {:induction false} CopiesAreLinks(body: string, pos: nat, turns: seq<Turn>)
    requires Chain(turns, pos, |body|)
    ensures Copies(turns) == Links(Segments(body, pos, turns))
    decreases |turns|
  {
    if turns != [] {
      var next := After(turns[0]);
      CopiesAreLinks(body, next, turns[1..]);
      LinksOfPieces(body, pos, turns[0]);
      LinksParts(Pieces(body, pos, turns[0]), Segments(body, next, turns[1..]));
    }
  }

  // Main result, for every text and any references: the kept and the dropped pieces,
  // in order, are the text, and each dropped piece may be dropped.
  lemma NothingElseIsLost(body: string, refs: References)
    ensures var segs := Segments(body, 0, Turns(body, 0, refs));
            && Flatten(segs) == body
            && forall i :: 0 <= i < |segs| ==> Droppable(segs[i], refs, Norm)
  {
    var turns := Turns(body, 0, refs);
    SegmentsAreText(body, 0, turns);
    TurnsDropCopies(body, 0, refs);
    forall i | 0 <= i < |Segments(body, 0, turns)|
      ensures Droppable(Segments(body, 0, turns)[i], refs, Norm)
    {
      SegmentsDropCopies(body, 0, turns, refs, Norm, i);
    }
  }

  // ---- a kept piece can be read back from the HTML ----

  // The character that the text starts with, and how much of the text spells it.
  function FirstChar(s: string): (r: (char, nat))
    requires s != []
    ensures 0 < r.1 <= |s|
  {
    if OccursAt(s, "&amp;", 0) then ('&', 5)
    else if OccursAt(s, "&lt;", 0) then ('<', 4)
    else if OccursAt(s, "&gt;", 0) then ('>', 4)
    else if OccursAt(s, "&quot;", 0) then ('"', 6)
    else if OccursAt(s, "&#x27;", 0) then ('\'', 6)
    else (s[0], 1)
  }

  function Unescape(s: string): string
    decreases |s|
  {
    if s == [] then [] else [FirstChar(s).0] + Unescape(s[FirstChar(s).1..])
  }

  // The second character tells the five apart.
  lemma FirstCharIs(c: char, rest: string)
    ensures FirstChar(EscapeChar(c) + rest) == (c, |EscapeChar(c)|)
  {
    var e := EscapeChar(c);
    var s := e + rest;
    assert s[0] == e[0];
    assert "&amp;"[0] == "&lt;"[0] == "&gt;"[0] == "&quot;"[0] == "&#x27;"[0] == '&';
    if |e| > 1 {
      assert s[1] == e[1];
      assert "&amp;"[1] == 'a' && "&lt;"[1] == 'l' && "&gt;"[1] == 'g' && "&quot;"[1] == 'q' && "&#x27;"[1] == '#';
      assert OccursAt(s, e, 0);
    }
  }

  lemma EscapedCharReadsBack(c: char, e: string, rest: string)
    requires e != [] && FirstChar(e + rest) == (c, |e|)
    ensures Unescape(e + rest) == [c] + Unescape(rest)
  {
    assert (e + rest)[|e|..] == rest;
  }

  lemma {:induction false} EscapeReadsBack(s: string)
    ensures Unescape(Escape(s)) == s
  {
    if s != [] {
      EscapeReadsBack(s[1..]);
      FirstCharIs(s[0], Escape(s[1..]));
      EscapedCharReadsBack(s[0], EscapeChar(s[0]), Escape(s[1..]));
      assert s == [s[0]] + s[1..];
    }
  }

  // ---- what stands on the page, said without the functions that write it ----

  function Concat(parts: seq<string>): string {
    if parts == [] then "" else parts[0] + Concat(parts[1..])
  }

  // s with what drop takes from its ends: all of it, and nothing else.
  ghost predicate Stripped(r: string, s: string, drop: char -> bool) {
    exists i, j {:trigger s[i..j]} ::
      && 0 <= i <= j <= |s| && r == s[i..j]
      && (forall k :: 0 <= k < i || j <= k < |s| ==> drop(s[k]))
      && (i < j ==> !drop(s[i]) && !drop(s[j - 1]))
  }

  // No character that HTML gives a meaning to, but for & at the start of a reference.
  ghost predicate IsHarmless(e: string) {
    forall k :: 0 <= k < |e| ==> e[k] !in "<>\"'" && (e[k] == '&' ==> HasEntity(e, k))
  }

  ghost predicate HasEntity(e: string, k: nat) {
    exists w :: w in ENTITIES && OccursAt(e, w, k)
  }

  const ENTITIES: set<string> := {"&amp;", "&lt;", "&gt;", "&quot;", "&#x27;"}

  // The part of the page for a piece: a kept one is shown but for the newlines at its
  // ends, a copy of the licence becomes the link.
  ghost predicate PartFor(part: string, seg: Segment, reference: string) {
    match seg
    case Kept(text) =>
      exists e :: part == "<pre>" + e + "</pre>\n" && IsHarmless(e) && Stripped(Unescape(e), text, c => c == '\n')
    case License(_) => part == "<p><a href=\"#" + reference + "\">Apache License 2.0</a></p>\n"
    case Blank(_) => part == ""
    case Template(_) => part == ""
  }

  ghost predicate PartsFor(parts: seq<string>, segs: seq<Segment>, reference: string) {
    |parts| == |segs| && forall i :: 0 <= i < |segs| ==> PartFor(parts[i], segs[i], reference)
  }

  ghost predicate PageShows(html: string, segs: seq<Segment>, reference: string) {
    exists parts :: PartsFor(parts, segs, reference) && html == Concat(parts)
  }

  lemma {:induction false} LStripFrom(s: string, drop: char -> bool) returns (i: nat)
    ensures i <= |s| && LStrip(s, drop) == s[i..]
    ensures (forall k :: 0 <= k < i ==> drop(s[k])) && (i < |s| ==> !drop(s[i]))
  {
    i := 0;
    if s != [] && drop(s[0]) {
      var n := LStripFrom(s[1..], drop);
      i := n + 1;
      assert forall k :: 1 <= k < i ==> s[k] == s[1..][k - 1];
    }
  }

  lemma {:induction false} RStripTo(s: string, drop: char -> bool) returns (j: nat)
    ensures j <= |s| && RStrip(s, drop) == s[..j]
    ensures (forall k :: j <= k < |s| ==> drop(s[k])) && (j > 0 ==> !drop(s[j - 1]))
    decreases |s|
  {
    j := |s|;
    if s != [] && drop(s[|s| - 1]) {
      j := RStripTo(s[..|s| - 1], drop);
    }
  }

  lemma StripIsStripped(s: string, drop: char -> bool)
    ensures Stripped(Strip(s, drop), s, drop)
  {
    var i := LStripFrom(s, drop);
    var t := s[i..];
    var n := RStripTo(t, drop);
    var j := i + n;
    assert t[..n] == s[i..j];
    forall k | 0 <= k < i || j <= k < |s| ensures drop(s[k]) {
      if j <= k {
        assert s[k] == t[k - i];
      }
    }
    if i < j {
      assert s[j - 1] == t[n - 1];
    }
  }

  lemma EscapeCharIsHarmless(c: char)
    ensures IsHarmless(EscapeChar(c)) && (|EscapeChar(c)| > 1 ==> EscapeChar(c) in ENTITIES)
  {
    var e := EscapeChar(c);
    if |e| > 1 {
      assert OccursAt(e, e, 0) && HasEntity(e, 0);
      assert forall k :: 0 < k < |e| ==> e[k] != '&' && e[k] !in "<>\"'";
    }
  }

  lemma EntityInParts(a: string, b: string, k: nat)
    ensures k < |a| && HasEntity(a, k) ==> HasEntity(a + b, k)
    ensures k >= |a| && HasEntity(b, k - |a|) ==> HasEntity(a + b, k)
  {
    if k < |a| && HasEntity(a, k) {
      var w :| w in ENTITIES && OccursAt(a, w, k);
      assert OccursAt(a + b, w, k);
    }
    if k >= |a| && HasEntity(b, k - |a|) {
      var w :| w in ENTITIES && OccursAt(b, w, k - |a|);
      OccursBehind(a, b, w, k - |a|);
    }
  }

  lemma OccursBehind(a: string, b: string, w: string, p: nat)
    requires OccursAt(b, w, p)
    ensures OccursAt(a + b, w, |a| + p)
  {
    forall k | 0 <= k < |w| ensures (a + b)[|a| + p + k] == w[k] {
      assert (a + b)[|a| + (p + k)] == b[p + k];
    }
  }

  lemma HarmlessParts(a: string, b: string)
    requires IsHarmless(a) && IsHarmless(b)
    ensures IsHarmless(a + b)
  {
    var s := a + b;
    forall k | 0 <= k < |s|
      ensures s[k] !in "<>\"'" && (s[k] == '&' ==> HasEntity(s, k))
    {
      EntityInParts(a, b, k);
      assert s[k] == if k < |a| then a[k] else b[k - |a|];
    }
  }

  lemma {:induction false} EscapeIsHarmless(s: string)
    ensures IsHarmless(Escape(s))
  {
    if s != [] {
      EscapeIsHarmless(s[1..]);
      EscapeCharIsHarmless(s[0]);
      HarmlessParts(EscapeChar(s[0]), Escape(s[1..]));
    }
  }

  lemma EscapedChar(c: char, e: string)
    requires e == EscapeChar(c)
    ensures Unescape(e) == [c]
  {
    FirstCharIs(c, []);
    EscapedCharReadsBack(c, e, []);
    assert e + [] == e;
  }

  lemma EntitiesMean()
    ensures Unescape("&amp;") == "&" && Unescape("&lt;") == "<" && Unescape("&gt;") == ">"
    ensures Unescape("&quot;") == "\"" && Unescape("&#x27;") == "'"
  {
    EscapedChar('&', "&amp;");
    EscapedChar('<', "&lt;");
    EscapedChar('>', "&gt;");
    EscapedChar('"', "&quot;");
    EscapedChar('\'', "&#x27;");
  }

  lemma PartForSegment(seg: Segment, reference: string)
    ensures PartFor(Html(seg, reference), seg, reference)
  {
    if seg.Kept? {
      var drop := (c: char) => c == '\n';
      var stripped := Strip(seg.text, IsNewline);
      EscapeReadsBack(stripped);
      EscapeIsHarmless(stripped);
      StripIsStripped(seg.text, IsNewline);
      SameStripped(stripped, seg.text, IsNewline, drop);
      assert Html(seg, reference) == "<pre>" + Escape(stripped) + "</pre>\n";
    }
  }

  lemma SameStripped(r: string, s: string, drop: char -> bool, drop': char -> bool)
    requires Stripped(r, s, drop) && forall c :: drop(c) == drop'(c)
    ensures Stripped(r, s, drop')
  {
  }

  lemma OneMorePart(part: string, parts: seq<string>, seg: Segment, segs: seq<Segment>, reference: string)
    requires PartFor(part, seg, reference) && PartsFor(parts, segs, reference)
    ensures PartsFor([part] + parts, [seg] + segs, reference)
  {
    forall i | 0 <= i < |[seg] + segs|
      ensures PartFor(([part] + parts)[i], ([seg] + segs)[i], reference)
    {
      if i > 0 {
        assert PartFor(parts[i - 1], segs[i - 1], reference);
      }
    }
  }

  lemma OneMoreShown(part: string, html: string, seg: Segment, segs: seq<Segment>, reference: string)
    requires PartFor(part, seg, reference) && PageShows(html, segs, reference)
    ensures PageShows(part + html, [seg] + segs, reference)
  {
    var rest :| PartsFor(rest, segs, reference) && html == Concat(rest);
    OneMorePart(part, rest, seg, segs, reference);
    assert ([part] + rest)[1..] == rest;
  }

  lemma {:induction false} RenderedShows(segs: seq<Segment>, reference: string)
    ensures PageShows(Rendered(segs, Page(reference)), segs, reference)
  {
    if segs == [] {
      assert PartsFor([], [], reference) && Concat([]) == "";
    } else {
      RenderedShows(segs[1..], reference);
      PartForSegment(segs[0], reference);
      OneMoreShown(Html(segs[0], reference), Rendered(segs[1..], Page(reference)), segs[0], segs[1..], reference);
      assert segs == [segs[0]] + segs[1..];
    }
  }
}
