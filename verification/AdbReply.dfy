// tools/_upy_adb_core.py: parsing the printed reply of `content call`.
module AdbReply {
  import opened Common

  const MARKER: string := "Result: Bundle[{"
  const OUTPUT: string := "output="
  const ERROR: string := "error="
  const KEYS: set<string> := {"status", "exception", "reset"}

  // ---- string operations of Python ----

  predicate StartsWith(text: string, w: string) {
    OccursAt(text, w, 0)
  }

  predicate EndsWith(text: string, w: string) {
    |w| <= |text| && OccursAt(text, w, |text| - |w|)
  }

  // text.rfind(w), looking at starts up to p.
  function RFind(text: string, w: string, p: nat): (r: int)
    ensures r == -1 || (0 <= r <= p && OccursAt(text, w, r))
    ensures forall q: nat :: r < q <= p ==> !OccursAt(text, w, q)
  {
    if OccursAt(text, w, p) then p else if p == 0 then -1 else RFind(text, w, p - 1)
  }

  predicate IsLetter(c: char) {
    'A' <= c <= 'Z' || 'a' <= c <= 'z' || c == '_'
  }

  // [A-Za-z_][A-Za-z0-9_]*
  predicate IsIdentifier(s: string) {
    s != [] && IsLetter(s[0]) && forall i :: 0 <= i < |s| ==> IsLetter(s[i]) || '0' <= s[i] <= '9'
  }

  const UPPER: string := "ABCDEFGHIJKLMNOPQRSTUVWXYZ"
  const LOWER: string := "abcdefghijklmnopqrstuvwxyz"
  const DIGITS: string := "0123456789"

  lemma UpperIff(c: char)
    ensures 'A' <= c <= 'Z' <==> c in UPPER
  {
    if 'A' <= c <= 'Z' {
      assert UPPER[c as int - 'A' as int] == c;
    }
  }

  lemma LowerIff(c: char)
    ensures 'a' <= c <= 'z' <==> c in LOWER
  {
    if 'a' <= c <= 'z' {
      assert LOWER[c as int - 'a' as int] == c;
    }
  }

  lemma DigitIff(c: char)
    ensures '0' <= c <= '9' <==> c in DIGITS
  {
    if '0' <= c <= '9' {
      assert DIGITS[c as int - '0' as int] == c;
    }
  }

  // The values that fields may have, in words.
  lemma IdentifierIff(s: string)
    ensures IsIdentifier(s) <==>
            && s != [] && s[0] !in DIGITS
            && forall i :: 0 <= i < |s| ==> s[i] in UPPER || s[i] in LOWER || s[i] in DIGITS || s[i] == '_'
  {
    forall i | 0 <= i < |s|
      ensures 'A' <= s[i] <= 'Z' <==> s[i] in UPPER
      ensures 'a' <= s[i] <= 'z' <==> s[i] in LOWER
      ensures '0' <= s[i] <= '9' <==> s[i] in DIGITS
    {
      UpperIff(s[i]);
      LowerIff(s[i]);
      DigitIff(s[i]);
    }
  }

  datatype Field = Field(key: string, value: string)

  datatype Match = Match(start: nat, field: Field)

  function KeyPart(key: string): string {
    ", " + key + "="
  }

  // The end of the expression: an identifier, then $, which also stands before one last newline.
  function ValueOf(rest: string): Option<string> {
    if IsIdentifier(rest) then Some(rest)
    else if rest != [] && rest[|rest| - 1] == '\n' && IsIdentifier(rest[..|rest| - 1]) then Some(rest[..|rest| - 1])
    else None
  }

  function MatchKey(s: string, p: nat, key: string): Option<Match> {
    if !OccursAt(s, KeyPart(key), p) then None
    else
      match ValueOf(s[p + |KeyPart(key)|..])
      case Some(value) => Some(Match(p, Field(key, value)))
      case None => None
  }

  // RUN_FIELD anchored at p: the alternatives in order.
  function MatchAt(s: string, p: nat): Option<Match> {
    var m := MatchKey(s, p, "status");
    if m.Some? then m
    else
      var m := MatchKey(s, p, "exception");
      if m.Some? then m else MatchKey(s, p, "reset")
  }

  // RUN_FIELD.search(s): the leftmost match from p on.
  function Search(s: string, p: nat): (m: Option<Match>)
    requires p <= |s|
    ensures m.Some? ==> p <= m.value.start < |s|
    decreases |s| - p
  {
    if p == |s| then None
    else
      var m := MatchAt(s, p);
      if m.Some? then m else Search(s, p + 1)
  }

  // ---- the simple form ----

  function Peel(output: string, fields: map<string, string>): (r: (string, map<string, string>))
    ensures r.0 <= output
    decreases |output|
  {
    var m := Search(output, 0);
    if m.None? || m.value.field.key in fields then (output, fields)
    else Peel(output[..m.value.start], fields[m.value.field.key := m.value.field.value])
  }

  datatype Reply =
    | Output(output: string)
    | Error(message: string)
    | Unparseable

  function Get(fields: map<string, string>, key: string): string {
    if key in fields then fields[key] else ""
  }

  // Without the end of the Bundle.
  function Cut(body: string): Option<string> {
    if EndsWith(body, "}]\n") then Some(body[..|body| - 3])
    else if EndsWith(body, "}]") then Some(body[..|body| - 2])
    else None
  }

  function Body(text: string): Option<string> {
    BodyFrom(text, RFind(text, MARKER, |text|))
  }

  function BodyFrom(text: string, idx: int): Option<string>
    requires idx == -1 || (0 <= idx && idx + |MARKER| <= |text|)
  {
    if idx == -1 then None else Cut(text[idx + |MARKER|..])
  }

  // The reply, and for a run reply its fields.
  function Parsed(text: string): (Reply, Option<map<string, string>>) {
    match Body(text)
    case None => (Unparseable, None)
    case Some(body) => ParsedBody(body)
  }

  function ParsedBody(body: string): (Reply, Option<map<string, string>>) {
    if body == "" then (Output(""), None)   // empty Bundle: reset or interrupt
    else if StartsWith(body, OUTPUT) then
      var (output, fields) := Peel(body[|OUTPUT|..], map[]);
      (Output(output), Some(fields))
    else if StartsWith(body, ERROR) then (Error(body[|ERROR|..]), None)
    else (Unparseable, None)
  }

  // ---- the code ----

  class AdbClient {
    var lastStatus: string
    var lastException: string
    var lastReset: string

    constructor ()
      ensures lastStatus == lastException == lastReset == ""
    {
      lastStatus, lastException, lastReset := "", "", "";
    }

    // The global that a field of the reply sets.
    function Last(key: string): string
      requires key in KEYS
      reads this
    {
      if key == "status" then lastStatus else if key == "exception" then lastException else lastReset
    }

    // content_call, from the reply's text on.
    method Parse(text: string) returns (reply: Reply)
      modifies this
      ensures reply == Parsed(text).0
      ensures match Parsed(text).1
              case Some(fields) =>
                lastStatus == Get(fields, "status") && lastException == Get(fields, "exception")
                && lastReset == Get(fields, "reset")
              case None =>
                lastStatus == old(lastStatus) && lastException == old(lastException) && lastReset == old(lastReset)
    {
      var idx := RFind(text, MARKER, |text|);
      if idx == -1 {
        return Unparseable;
      }
      var body := text[idx + |MARKER|..];
      if EndsWith(body, "}]\n") {
        body := body[..|body| - 3];
      } else if EndsWith(body, "}]") {
        body := body[..|body| - 2];
      } else {
        return Unparseable;
      }
      assert Body(text) == Some(body);
      if body == "" {
        return Output("");
      }
      if StartsWith(body, OUTPUT) {
        var output := body[|OUTPUT|..];
        var fields := map[];
        while true
          invariant Peel(output, fields) == Peel(body[|OUTPUT|..], map[])
          decreases |output|
        {
          var m := Search(output, 0);
          if m.None? || m.value.field.key in fields {
            break;
          }
          fields := fields[m.value.field.key := m.value.field.value];
          output := output[..m.value.start];
        }
        lastStatus := Get(fields, "status");
        lastException := Get(fields, "exception");
        lastReset := Get(fields, "reset");
        return Output(output);
      }
      if StartsWith(body, ERROR) {
        return Error(body[|ERROR|..]);
      }
      return Unparseable;
    }
  }

  // ---- the printed form ----

  function FieldText(f: Field): string {
    KeyPart(f.key) + f.value
  }

  function FieldsText(fs: seq<Field>): string {
    if fs == [] then "" else FieldsText(fs[..|fs| - 1]) + FieldText(fs[|fs| - 1])
  }

  function FieldsMap(fs: seq<Field>): map<string, string> {
    if fs == [] then map[] else FieldsMap(fs[..|fs| - 1])[fs[|fs| - 1].key := fs[|fs| - 1].value]
  }

  // Some of the three fields, in any order, with identifiers as values.
  ghost predicate ProperFields(fs: seq<Field>) {
    && (forall i :: 0 <= i < |fs| ==> fs[i].key in KEYS && IsIdentifier(fs[i].value))
    && forall i, j :: 0 <= i < j < |fs| ==> fs[i].key != fs[j].key
  }

  // What adb prints for a run: anything, the Bundle, and usually a newline.
  function Printed(before: string, output: string, fs: seq<Field>, newline: bool): string {
    before + MARKER + OUTPUT + output + FieldsText(fs) + End(newline)
  }

  // ---- searching ----

  lemma NoCommaInKey(s: string, p: nat, key: string)
    requires key in KEYS && MatchKey(s, p, key).Some?
    ensures MatchKey(s, p, key).value.start == p && MatchKey(s, p, key).value.field.key == key
    ensures forall q :: p < q < |s| ==> s[q] != ','
  {
    var part := KeyPart(key);
    var rest := s[p + |part|..];
    assert forall i :: 0 < i < |part| ==> part[i] != ',';
    assert forall i :: 0 <= i < |rest| ==> rest[i] != ',' by {
      assert ValueOf(rest).Some?;
    }
    forall q | p < q < |s| ensures s[q] != ',' {
      if q < p + |part| {
        assert s[p + (q - p)] == part[q - p];
      } else {
        assert rest[q - p - |part|] == s[q];
      }
    }
  }

  lemma NoCommaInside(s: string, p: nat)
    requires MatchAt(s, p).Some?
    ensures MatchAt(s, p).value.start == p && MatchAt(s, p).value.field.key in KEYS
    ensures forall q :: p < q < |s| ==> s[q] != ','
  {
    NoCommaInKey(s, p, if MatchKey(s, p, "status").Some? then "status"
                       else if MatchKey(s, p, "exception").Some? then "exception" else "reset");
  }

  lemma {:induction false} SearchSkips(s: string, p: nat, q: nat)
    requires p <= q <= |s| && forall k :: p <= k < q ==> MatchAt(s, k).None?
    ensures Search(s, p) == Search(s, q)
    decreases q - p
  {
    if p < q {
      SearchSkips(s, p + 1, q);
    }
  }

  lemma {:induction false} SearchKey(s: string, p: nat)
    requires p <= |s|
    ensures Search(s, p).Some? ==>
              Search(s, p).value.field.key in KEYS
              && MatchAt(s, Search(s, p).value.start) == Search(s, p)
    decreases |s| - p
  {
    if p < |s| {
      if MatchAt(s, p).Some? {
        NoCommaInside(s, p);
      } else {
        SearchKey(s, p + 1);
      }
    }
  }

  // A field at the end of s, perhaps before one newline.
  ghost predicate IsTail(s: string, x: string, f: Field) {
    f.key in KEYS && IsIdentifier(f.value) && (s == x + FieldText(f) || s == x + FieldText(f) + "\n")
  }

  lemma FieldMatchesKey(s: string, x: string, f: Field)
    requires IsTail(s, x, f)
    ensures OccursAt(s, KeyPart(f.key), |x|) && MatchKey(s, |x|, f.key) == Some(Match(|x|, f))
  {
    var part := KeyPart(f.key);
    if s == x + FieldText(f) {
      assert s == x + (part + f.value);
      ValueAtEnd(f.value, f.value);
      KeyMatches(s, x, f, f.value);
    } else {
      JoinNewline(x, part, f.value);
      ValueAtEnd(f.value + "\n", f.value);
      KeyMatches(s, x, f, f.value + "\n");
    }
  }

  lemma KeyMatches(s: string, x: string, f: Field, rest: string)
    requires s == x + (KeyPart(f.key) + rest) && ValueOf(rest) == Some(f.value)
    ensures OccursAt(s, KeyPart(f.key), |x|) && MatchKey(s, |x|, f.key) == Some(Match(|x|, f))
  {
    PartAndRest(s, x, KeyPart(f.key), rest);
  }

  lemma FieldMatches(s: string, x: string, f: Field)
    requires IsTail(s, x, f)
    ensures MatchAt(s, |x|) == Some(Match(|x|, f))
  {
    FieldMatchesKey(s, x, f);
    KeysDiffer(s, |x|, f.key, "status");
    KeysDiffer(s, |x|, f.key, "exception");
  }

  lemma PartAndRest(s: string, x: string, part: string, rest: string)
    requires s == x + (part + rest)
    ensures OccursAt(s, part, |x|) && s[|x| + |part|..] == rest
  {
  }

  lemma ValueAtEnd(rest: string, value: string)
    ensures ValueOf(rest) == Some(value) <==> IsIdentifier(value) && (rest == value || rest == value + "\n")
  {
    if rest == value + "\n" {
      assert rest[|rest| - 1] == '\n' && rest[..|rest| - 1] == value;
    }
    if rest != [] && rest[|rest| - 1] == '\n' {
      assert rest == rest[..|rest| - 1] + "\n" && !IsIdentifier(rest);
    }
  }

  lemma KeysDiffer(s: string, p: nat, k1: string, k2: string)
    requires k1 in KEYS && k2 in KEYS && OccursAt(s, KeyPart(k1), p)
    ensures OccursAt(s, KeyPart(k2), p) <==> k1 == k2
  {
    assert s[p + 2] == KeyPart(k1)[2] == k1[0];
    if OccursAt(s, KeyPart(k2), p) {
      assert s[p + 2] == KeyPart(k2)[2];
      assert KeyPart(k2)[2] == k2[0];
    }
  }

  // A field at the end is what the search finds.
  lemma SearchFindsLast(s: string, x: string, f: Field)
    requires IsTail(s, x, f)
    ensures Search(s, 0) == Some(Match(|x|, f))
  {
    assert s[|x|] == FieldText(f)[0] == ',';
    forall k | 0 <= k < |x| ensures MatchAt(s, k).None? {
      if MatchAt(s, k).Some? {
        NoCommaInside(s, k);
      }
    }
    SearchSkips(s, 0, |x|);
    FieldMatches(s, x, f);
  }

  lemma MatchKeyIsTail(s: string, p: nat, key: string)
    requires key in KEYS && MatchKey(s, p, key).Some?
    ensures p <= |s| && IsTail(s, s[..p], MatchKey(s, p, key).value.field)
  {
    var part := KeyPart(key);
    var x, rest := s[..p], s[p + |part|..];
    var value := ValueOf(rest).value;
    ValueAtEnd(rest, value);
    assert s[p..] == part + rest;
    assert s == x + s[p..];
    if rest != value {
      JoinNewline(x, part, value);
    }
  }

  lemma JoinNewline(x: string, part: string, value: string)
    ensures x + (part + (value + "\n")) == x + (part + value) + "\n"
  {
  }

  lemma MatchIsTail(s: string, p: nat)
    requires MatchAt(s, p).Some?
    ensures p <= |s| && IsTail(s, s[..p], MatchAt(s, p).value.field)
  {
    MatchKeyIsTail(s, p, if MatchKey(s, p, "status").Some? then "status"
                         else if MatchKey(s, p, "exception").Some? then "exception" else "reset");
  }

  lemma {:induction false} PeelFields(x: string, fs: seq<Field>, fields: map<string, string>)
    requires ProperFields(fs)
    requires forall i :: 0 <= i < |fs| ==> fs[i].key !in fields
    ensures Peel(x + FieldsText(fs), fields) == Peel(x, FieldsMap(fs) + fields)
    decreases |fs|
  {
    if fs == [] {
      assert x + FieldsText(fs) == x && FieldsMap(fs) + fields == fields;
    } else {
      var n := |fs| - 1;
      var f := fs[n];
      var y := x + FieldsText(fs[..n]);
      assert x + FieldsText(fs) == y + FieldText(f);
      PeelLast(y, f, fields);
      PeelFields(x, fs[..n], fields[f.key := f.value]);
      MapSwap(FieldsMap(fs[..n]), fields, f.key, f.value);
    }
  }

  lemma MapSwap(m: map<string, string>, fields: map<string, string>, key: string, value: string)
    requires key !in fields
    ensures m + fields[key := value] == m[key := value] + fields
  {
  }

  lemma PeelLast(y: string, f: Field, fields: map<string, string>)
    requires f.key in KEYS && IsIdentifier(f.value) && f.key !in fields
    ensures Peel(y + FieldText(f), fields) == Peel(y, fields[f.key := f.value])
  {
    SearchFindsLast(y + FieldText(f), y, f);
    assert (y + FieldText(f))[..|y|] == y;
  }

  // m gives each field its value, and has no other keys.
  ghost predicate IsMapOf(m: map<string, string>, fs: seq<Field>) {
    && (forall i :: 0 <= i < |fs| ==> fs[i].key in m && m[fs[i].key] == fs[i].value)
    && (forall key :: key in m ==> exists i :: 0 <= i < |fs| && fs[i].key == key)
  }

  lemma OneMoreField(m: map<string, string>, fs: seq<Field>, f: Field)
    requires IsMapOf(m, fs) && forall i :: 0 <= i < |fs| ==> fs[i].key != f.key
    ensures IsMapOf(m[f.key := f.value], fs + [f])
  {
    var all, more := fs + [f], m[f.key := f.value];
    assert all[|fs|] == f;
    forall key | key in more
      ensures exists i :: 0 <= i < |all| && all[i].key == key
    {
      if key != f.key {
        var i :| 0 <= i < |fs| && fs[i].key == key;
        assert all[i].key == key;
      }
    }
  }

  lemma {:induction false} MapOfFields(fs: seq<Field>)
    requires ProperFields(fs)
    ensures IsMapOf(FieldsMap(fs), fs)
    decreases |fs|
  {
    if fs != [] {
      var n := |fs| - 1;
      MapOfFields(fs[..n]);
      OneMoreField(FieldsMap(fs[..n]), fs[..n], fs[n]);
      assert fs == fs[..n] + [fs[n]];
    }
  }

  // ---- the marker ----

  lemma MarkerChars()
    ensures |MARKER| == 16 && MARKER[0] == 'R' && MARKER[6] == ':'
    ensures forall i :: 0 < i < |MARKER| ==> MARKER[i] != 'R'
    ensures forall i :: 0 <= i < |MARKER| ==> MARKER[i] != ',' && MARKER[i] != '}'
  {
  }

  lemma {:induction false} FieldsTextChars(fs: seq<Field>)
    requires ProperFields(fs)
    ensures FieldsText(fs) != "" ==> FieldsText(fs)[0] == ','
    ensures forall i :: 0 <= i < |FieldsText(fs)| ==> FieldsText(fs)[i] != ':'
    decreases |fs|
  {
    if fs != [] {
      var n := |fs| - 1;
      FieldsTextChars(fs[..n]);
      var f := fs[n];
      assert FieldText(f)[0] == ',';
      assert forall i :: 0 <= i < |f.value| ==> f.value[i] != ':';
      assert forall i :: 0 <= i < |FieldText(f)| ==> FieldText(f)[i] != ':';
    }
  }

  // Occurrences in a + b.
  lemma OccursRight(a: string, b: string, w: string, p: nat)
    requires p >= |a|
    ensures OccursAt(a + b, w, p) <==> OccursAt(b, w, p - |a|)
  {
    forall k | 0 <= k < |w| && p + |w| <= |a + b|
      ensures (a + b)[p + k] == w[k] <==> b[p - |a| + k] == w[k]
    {
      assert (a + b)[p + k] == b[p + k - |a|];
    }
  }

  lemma OccursLeft(a: string, b: string, w: string, p: nat)
    requires p + |w| <= |a|
    ensures OccursAt(a + b, w, p) <==> OccursAt(a, w, p)
  {
    forall k | 0 <= k < |w|
      ensures (a + b)[p + k] == w[k] <==> a[p + k] == w[k]
    {
      assert (a + b)[p + k] == a[p + k];
    }
  }

  // Not when the character at q is none of w's.
  lemma OccursElsewhere(s: string, w: string, p: nat, q: nat)
    requires p <= q < |s| && q < p + |w| && s[q] != w[q - p]
    ensures !OccursAt(s, w, p)
  {
    assert s[p + (q - p)] == s[q];
  }

  const OPENING: string := MARKER + OUTPUT

  function Closing(fs: seq<Field>, newline: bool): string {
    FieldsText(fs) + End(newline)
  }

  lemma PrintedParts(before: string, output: string, fs: seq<Field>, newline: bool)
    ensures Printed(before, output, fs, newline) == before + (OPENING + (output + Closing(fs, newline)))
  {
  }

  lemma MarkerInTail(output: string, fs: seq<Field>, newline: bool, p: nat)
    requires ProperFields(fs)
    ensures OccursAt(output + Closing(fs, newline), MARKER, p) <==> OccursAt(output, MARKER, p)
  {
    MarkerChars();
    FieldsTextChars(fs);
    var tail := Closing(fs, newline);
    assert tail[0] == ',' || tail[0] == '}';
    assert forall i :: 0 <= i < |tail| ==> tail[i] != ':';
    var s := output + tail;
    if p + |MARKER| <= |output| {
      OccursLeft(output, tail, MARKER, p);
    } else if p < |output| {
      OccursElsewhere(s, MARKER, p, |output|);
    } else if p + 6 < |s| {
      assert s[p + 6] == tail[p + 6 - |output|];
      OccursElsewhere(s, MARKER, p, p + 6);
    }
  }

  lemma MarkerAfterOpening(x: string, p: nat)
    requires p > 0
    ensures OccursAt(OPENING + x, MARKER, p) <==> p >= |OPENING| && OccursAt(x, MARKER, p - |OPENING|)
  {
    MarkerChars();
    if p >= |OPENING| {
      OccursRight(OPENING, x, MARKER, p);
    } else {
      assert forall i :: 0 <= i < |OUTPUT| ==> OUTPUT[i] != 'R';
      assert (OPENING + x)[p] == OPENING[p] != 'R';
      OccursElsewhere(OPENING + x, MARKER, p, p);
    }
  }

  // A marker after the first lies inside the output.
  lemma MarkerOnlyInOutput(before: string, output: string, fs: seq<Field>, newline: bool, p: nat)
    requires ProperFields(fs) && p > |before|
    ensures OccursAt(Printed(before, output, fs, newline), MARKER, p) <==>
            p >= |before| + |OPENING| && OccursAt(output, MARKER, p - |before| - |OPENING|)
  {
    var x := output + Closing(fs, newline);
    PrintedParts(before, output, fs, newline);
    OccursRight(before, OPENING + x, MARKER, p);
    MarkerAfterOpening(x, p - |before|);
    if p >= |before| + |OPENING| {
      MarkerInTail(output, fs, newline, p - |before| - |OPENING|);
    }
  }

  ghost predicate HasMarker(output: string) {
    exists j: nat :: OccursAt(output, MARKER, j)
  }

  lemma MarkerStarts(before: string, output: string, fs: seq<Field>, newline: bool)
    ensures OccursAt(Printed(before, output, fs, newline), MARKER, |before|)
  {
    var x := output + Closing(fs, newline);
    PrintedParts(before, output, fs, newline);
    OccursRight(before, OPENING + x, MARKER, |before|);
    assert forall k :: 0 <= k < |MARKER| ==> (OPENING + x)[k] == MARKER[k];
  }

  // Where the search for the marker ends up.
  lemma MarkerFound(before: string, output: string, fs: seq<Field>, newline: bool)
    requires ProperFields(fs)
    ensures var text := Printed(before, output, fs, newline);
            var idx := RFind(text, MARKER, |text|);
            if HasMarker(output)
            then idx >= |before| + |OPENING| && OccursAt(output, MARKER, idx - |before| - |OPENING|)
            else idx == |before|
  {
    var text := Printed(before, output, fs, newline);
    var idx := RFind(text, MARKER, |text|);
    MarkerStarts(before, output, fs, newline);
    if idx > |before| {
      MarkerOnlyInOutput(before, output, fs, newline, idx);
    }
    if HasMarker(output) {
      var j: nat :| OccursAt(output, MARKER, j);
      LaterMarker(before, output, fs, newline, j);
    }
  }

  lemma LaterMarker(before: string, output: string, fs: seq<Field>, newline: bool, j: nat)
    requires ProperFields(fs) && OccursAt(output, MARKER, j)
    ensures var text := Printed(before, output, fs, newline);
            RFind(text, MARKER, |text|) > |before|
  {
    MarkerOnlyInOutput(before, output, fs, newline, |before| + |OPENING| + j);
  }

  function End(newline: bool): string {
    if newline then "}]\n" else "}]"
  }

  // The end of the reply is cut off.
  lemma EndCut(x: string, newline: bool)
    ensures Cut(x + End(newline)) == Some(x)
  {
    var end := End(newline);
    var body := x + end;
    assert body[..|x|] == x;
    assert OccursAt(body, end, |x|);
    if !newline && |body| >= 3 {
      OccursElsewhere(body, "}]\n", |body| - 3, |body| - 1);
    }
  }

  // The text after the marker in the output that the search finds.
  lemma AfterMarker(before: string, output: string, fs: seq<Field>, newline: bool, j: nat)
    requires j + |MARKER| <= |output|
    ensures var idx := |before| + |OPENING| + j;
            var text := Printed(before, output, fs, newline);
            idx + |MARKER| <= |text|
            && text[idx + |MARKER|..] == (output[j + |MARKER|..] + FieldsText(fs)) + End(newline)
  {
    PrintedParts(before, output, fs, newline);
    var x := output + Closing(fs, newline);
    DropSome(output, Closing(fs, newline), j + |MARKER|);
    DropFront(before, OPENING, x, j + |MARKER|);
  }

  lemma DropSome(a: string, b: string, n: nat)
    requires n <= |a|
    ensures (a + b)[n..] == a[n..] + b
  {
  }

  lemma DropFront(a: string, b: string, x: string, n: nat)
    requires n <= |x|
    ensures (a + (b + x))[|a| + |b| + n..] == x[n..]
  {
  }

  // ---- the round trip ----

  // A tail of the output that reads as a field the reply does not have.
  predicate LooksLikeField(output: string, fs: seq<Field>) {
    var m := Search(output, 0);
    m.Some? && forall i :: 0 <= i < |fs| ==> fs[i].key != m.value.field.key
  }

  lemma ParseWithoutMarker(before: string, output: string, fs: seq<Field>, newline: bool)
    requires ProperFields(fs) && !HasMarker(output)
    ensures var (rest, fields) := Peel(output, FieldsMap(fs));
            Parsed(Printed(before, output, fs, newline)) == (Output(rest), Some(fields))
  {
    var text := Printed(before, output, fs, newline);
    MarkerFound(before, output, fs, newline);
    AfterFirstMarker(before, output, fs, newline);
    ParsedAt(text, |before|, OUTPUT + (output + FieldsText(fs)), newline);
    OutputBody(output, fs);
  }

  lemma AfterFirstMarker(before: string, output: string, fs: seq<Field>, newline: bool)
    ensures var text := Printed(before, output, fs, newline);
            |before| + |MARKER| <= |text|
            && text[|before| + |MARKER|..] == OUTPUT + (output + FieldsText(fs)) + End(newline)
  {
    var x := OUTPUT + (output + FieldsText(fs)) + End(newline);
    assert Printed(before, output, fs, newline) == before + (MARKER + x);
    DropFront(before, MARKER, x, 0);
  }

  lemma OutputBody(output: string, fs: seq<Field>)
    requires ProperFields(fs)
    ensures var (rest, fields) := Peel(output, FieldsMap(fs));
            ParsedBody(OUTPUT + (output + FieldsText(fs))) == (Output(rest), Some(fields))
  {
    var body := OUTPUT + (output + FieldsText(fs));
    assert body[|OUTPUT|..] == output + FieldsText(fs);
    assert StartsWith(body, OUTPUT);
    PeelFields(output, fs, map[]);
    assert FieldsMap(fs) + map[] == FieldsMap(fs);
  }

  // With the marker in the output, what is read as the output is shorter than it.
  lemma ParseWithMarker(before: string, output: string, fs: seq<Field>, newline: bool)
    requires ProperFields(fs) && HasMarker(output)
    ensures var reply := Parsed(Printed(before, output, fs, newline)).0;
            reply.Output? ==> |reply.output| < |output|
  {
    var text := Printed(before, output, fs, newline);
    MarkerFound(before, output, fs, newline);
    var idx := RFind(text, MARKER, |text|);
    var j := idx - |before| - |OPENING|;
    var rest := output[j + |MARKER|..];
    AfterMarker(before, output, fs, newline, j);
    ParsedAt(text, idx, rest + FieldsText(fs), newline);
    ShortBody(rest, fs);
  }

  lemma ParsedAt(text: string, idx: nat, body: string, newline: bool)
    requires RFind(text, MARKER, |text|) == idx && idx + |MARKER| <= |text|
    requires text[idx + |MARKER|..] == body + End(newline)
    ensures Parsed(text) == ParsedBody(body)
  {
    CutAt(text, idx, text[idx + |MARKER|..]);
    EndCut(body, newline);
    ParsedFrom(text, body);
  }

  lemma CutAt(text: string, idx: nat, rest: string)
    requires RFind(text, MARKER, |text|) == idx && idx + |MARKER| <= |text| && rest == text[idx + |MARKER|..]
    ensures Body(text) == Cut(rest)
  {
  }

  lemma ParsedFrom(text: string, body: string)
    requires Body(text) == Some(body)
    ensures Parsed(text) == ParsedBody(body)
  {
  }

  lemma ShortBody(rest: string, fs: seq<Field>)
    requires ProperFields(fs)
    ensures var reply := ParsedBody(rest + FieldsText(fs)).0;
            reply.Output? ==> |reply.output| <= |rest|
  {
    var body := rest + FieldsText(fs);
    if StartsWith(body, OUTPUT) {
      StartInside(rest, fs);
      assert body[|OUTPUT|..] == rest[|OUTPUT|..] + FieldsText(fs);
      PeelFields(rest[|OUTPUT|..], fs, map[]);
    }
  }

  lemma StartInside(rest: string, fs: seq<Field>)
    requires ProperFields(fs) && StartsWith(rest + FieldsText(fs), OUTPUT)
    ensures |rest| >= |OUTPUT|
  {
    FieldsTextChars(fs);
    if |rest| < |OUTPUT| && FieldsText(fs) != "" {
      OccursElsewhere(rest + FieldsText(fs), OUTPUT, 0, |rest|);
    }
  }

  // Main result, for every output, every fields in any order and whatever adb printed
  // before: the parser gives back the output and the fields exactly when the output
  // has no marker in it and does not end like a field that the reply lacks.
  lemma RoundTripIff(before: string, output: string, fs: seq<Field>, newline: bool)
    requires ProperFields(fs)
    ensures Parsed(Printed(before, output, fs, newline)) == (Output(output), Some(FieldsMap(fs)))
            <==> !HasMarker(output) && !LooksLikeField(output, fs)
  {
    if HasMarker(output) {
      ParseWithMarker(before, output, fs, newline);
    } else {
      ParseWithoutMarker(before, output, fs, newline);
      MapOfFields(fs);
      var m := Search(output, 0);
      if LooksLikeField(output, fs) {
        assert |Peel(output, FieldsMap(fs)).0| <= m.value.start < |output|;
      }
    }
  }

  // And then the three globals are the fields of the reply, or empty.
  method ParseRun(client: AdbClient, before: string, output: string, fs: seq<Field>, newline: bool)
    returns (reply: Reply)
    requires ProperFields(fs) && !HasMarker(output) && !LooksLikeField(output, fs)
    modifies client
    ensures reply == Output(output)
    ensures forall i :: 0 <= i < |fs| ==> client.Last(fs[i].key) == fs[i].value
    ensures forall key :: key in KEYS && (forall i :: 0 <= i < |fs| ==> fs[i].key != key) ==> client.Last(key) == ""
  {
    ghost var m := RunFields(before, output, fs, newline);
    var text := Printed(before, output, fs, newline);
    reply := ParseText(client, text, output, m);
  }

  method ParseText(client: AdbClient, text: string, ghost output: string, ghost m: map<string, string>)
    returns (reply: Reply)
    requires Parsed(text) == (Output(output), Some(m))
    modifies client
    ensures reply == Output(output)
    ensures forall key :: key in KEYS ==> client.Last(key) == if key in m then m[key] else ""
  {
    reply := client.Parse(text);
  }

  lemma RunFields(before: string, output: string, fs: seq<Field>, newline: bool) returns (m: map<string, string>)
    requires ProperFields(fs) && !HasMarker(output) && !LooksLikeField(output, fs)
    ensures Parsed(Printed(before, output, fs, newline)) == (Output(output), Some(m)) && IsMapOf(m, fs)
  {
    RoundTripIff(before, output, fs, newline);
    MapOfFields(fs);
    m := FieldsMap(fs);
  }

  // ---- the other replies ----

  // A Bundle that holds y.
  function Bundle(before: string, y: string, newline: bool): string {
    before + (MARKER + (y + End(newline)))
  }

  lemma MarkerInBundle(before: string, y: string, newline: bool, p: nat)
    requires p > |before|
    ensures OccursAt(Bundle(before, y, newline), MARKER, p) <==>
            p >= |before| + |MARKER| && OccursAt(y, MARKER, p - |before| - |MARKER|)
  {
    MarkerChars();
    var s := y + End(newline);
    OccursRight(before, MARKER + s, MARKER, p);
    var q := p - |before|;
    if q < |MARKER| {
      assert (MARKER + s)[q] == MARKER[q] != 'R';
      OccursElsewhere(MARKER + s, MARKER, q, q);
    } else {
      OccursRight(MARKER, s, MARKER, q);
      MarkerBeforeEnd(y, newline, q - |MARKER|);
    }
  }

  lemma MarkerBeforeEnd(y: string, newline: bool, p: nat)
    ensures OccursAt(y + End(newline), MARKER, p) <==> OccursAt(y, MARKER, p)
  {
    MarkerChars();
    if p + |MARKER| <= |y| {
      OccursLeft(y, End(newline), MARKER, p);
    } else if p <= |y| {
      assert (y + End(newline))[|y|] == '}';
      OccursElsewhere(y + End(newline), MARKER, p, |y|);
    }
  }

  lemma BundleStarts(before: string, y: string, newline: bool)
    ensures OccursAt(Bundle(before, y, newline), MARKER, |before|)
  {
    var s := y + End(newline);
    OccursRight(before, MARKER + s, MARKER, |before|);
    assert forall k :: 0 <= k < |MARKER| ==> (MARKER + s)[k] == MARKER[k];
  }

  lemma ParseBundle(before: string, y: string, newline: bool)
    requires !HasMarker(y)
    ensures Parsed(Bundle(before, y, newline)) == ParsedBody(y)
  {
    var text := Bundle(before, y, newline);
    var idx := RFind(text, MARKER, |text|);
    BundleStarts(before, y, newline);
    if idx > |before| {
      MarkerInBundle(before, y, newline, idx);
    }
    DropFront(before, MARKER, y + End(newline), 0);
    ParsedAt(text, |before|, y, newline);
  }

  // An error comes back word for word, an empty Bundle is empty output; neither touches the globals.
  lemma ParseOthers(before: string, message: string, newline: bool)
    ensures !HasMarker(message) ==> Parsed(Bundle(before, ERROR + message, newline)) == (Error(message), None)
    ensures Parsed(Bundle(before, "", newline)) == (Output(""), None)
  {
    ParseBundle(before, "", newline);
    if !HasMarker(message) {
      var y := ERROR + message;
      assert !HasMarker(y) by {
        if HasMarker(y) {
          var j: nat :| OccursAt(y, MARKER, j);
          MarkerInError(message, j);
        }
      }
      ParseBundle(before, y, newline);
      assert y[0] == 'e' && OUTPUT[0] == 'o';
      assert y[|ERROR|..] == message && StartsWith(y, ERROR);
    }
  }

  lemma MarkerInError(message: string, j: nat)
    requires OccursAt(ERROR + message, MARKER, j)
    ensures HasMarker(message)
  {
    MarkerChars();
    var y := ERROR + message;
    assert y[j] == 'R';
    assert forall i :: 0 <= i < |ERROR| ==> ERROR[i] != 'R';
    OccursRight(ERROR, message, MARKER, j);
  }

  predicate IsKnown(y: string) {
    y == "" || StartsWith(y, OUTPUT) || StartsWith(y, ERROR)
  }

  // A Bundle with y after the last marker.
  ghost predicate IsBundle(text: string, before: string, y: string, newline: bool) {
    text == Bundle(before, y, newline) && !HasMarker(y)
  }

  // A text is refused exactly when it is no Bundle of one of the three kinds.
  lemma UnparseableIff(text: string)
    ensures Parsed(text).0.Unparseable? <==>
            !exists before, y, newline :: IsBundle(text, before, y, newline) && IsKnown(y)
  {
    if exists before, y, newline :: IsBundle(text, before, y, newline) && IsKnown(y) {
      var before, y, newline :| IsBundle(text, before, y, newline) && IsKnown(y);
      ParseBundle(before, y, newline);
    }
    if Body(text).Some? {
      var before, newline := BodyInBundle(text);
      ParsedFrom(text, Body(text).value);
    }
  }

  lemma BodyInBundle(text: string) returns (before: string, newline: bool)
    requires Body(text).Some?
    ensures IsBundle(text, before, Body(text).value, newline)
  {
    var idx := RFind(text, MARKER, |text|);
    var rest := text[idx + |MARKER|..];
    CutAt(text, idx, rest);
    before := text[..idx];
    newline := EndsWith(rest, "}]\n");
    var y := Cut(rest).value;
    CutIs(rest, newline);
    SplitAt(text, idx, MARKER);
    NoLaterMarker(before, y, newline);
  }

  lemma NoLaterMarker(before: string, y: string, newline: bool)
    requires var text := Bundle(before, y, newline);
             RFind(text, MARKER, |text|) == |before|
    ensures !HasMarker(y)
  {
    forall j: nat ensures !OccursAt(y, MARKER, j) {
      if OccursAt(y, MARKER, j) {
        MarkerInBundle(before, y, newline, |before| + |MARKER| + j);
      }
    }
  }

  lemma CutIs(rest: string, newline: bool)
    requires Cut(rest).Some? && newline == EndsWith(rest, "}]\n")
    ensures rest == Cut(rest).value + End(newline)
  {
    EndIs(rest, End(newline));
  }

  lemma EndIs(rest: string, end: string)
    requires EndsWith(rest, end)
    ensures rest == rest[..|rest| - |end|] + end
  {
    assert rest[|rest| - |end|..] == end;
  }

  lemma SplitAt(s: string, p: nat, w: string)
    requires OccursAt(s, w, p)
    ensures s == s[..p] + (w + s[p + |w|..])
  {
    assert s[p..p + |w|] == w;
  }

  // LooksLikeField spelled out: ", key=identifier" at the end, perhaps before one
  // newline, for a key the reply does not have.
  lemma LooksLikeFieldIff(output: string, fs: seq<Field>)
    requires ProperFields(fs)
    ensures LooksLikeField(output, fs) <==>
            exists x, f :: IsTail(output, x, f) && forall i :: 0 <= i < |fs| ==> fs[i].key != f.key
  {
    if exists x, f :: IsTail(output, x, f) && forall i :: 0 <= i < |fs| ==> fs[i].key != f.key {
      var x, f :| IsTail(output, x, f) && forall i :: 0 <= i < |fs| ==> fs[i].key != f.key;
      SearchFindsLast(output, x, f);
    }
    if LooksLikeField(output, fs) {
      SearchKey(output, 0);
      var m := Search(output, 0).value;
      MatchIsTail(output, m.start);
      assert IsTail(output, output[..m.start], m.field);
    }
  }

  // The loop takes off at most one field of each key.
  function PeelRounds(output: string, fields: map<string, string>): nat
    decreases |output|
  {
    var m := Search(output, 0);
    if m.None? || m.value.field.key in fields then 0
    else 1 + PeelRounds(output[..m.value.start], fields[m.value.field.key := m.value.field.value])
  }

  lemma {:induction false} PeelsAtMostThree(output: string, fields: map<string, string>)
    requires fields.Keys <= KEYS
    ensures PeelRounds(output, fields) <= 3 - |fields.Keys| && Peel(output, fields).1.Keys <= KEYS
    decreases |output|
  {
    SearchKey(output, 0);
    var m := Search(output, 0);
    if m.Some? && m.value.field.key !in fields {
      var more := fields[m.value.field.key := m.value.field.value];
      assert more.Keys == fields.Keys + {m.value.field.key};
      PeelsAtMostThree(output[..m.value.start], more);
    } else {
      SubsetSize(fields.Keys);
    }
  }

  lemma SubsetSize(keys: set<string>)
    requires keys <= KEYS
    ensures |keys| <= 3
  {
    var others := KEYS - keys;
    assert keys + others == KEYS && |keys| + |others| == |KEYS|;
    assert |KEYS| == 3;
  }
}
