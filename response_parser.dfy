/** parse_gemini_response: carve a free-text model answer into eight sections and the
    chart data decoded from its widest brace-delimited span. */
module ResponseParser {
  import opened Wrappers
  import opened JsonValue
  import opened Text

  /** The eight sections the parser's cursor can point at. */
  datatype Section =
    | Overview | Severity | VisualReasoning | Timeline
    | Symptoms | Prevention | RedFlags | Disclaimer

  /** The sections kept as lists of bullet items; the other five are prose. */
  predicate IsListSection(s: Section) {
    s == Symptoms || s == Prevention || s == RedFlags
  }

  /** The record the parser returns; its nine keys are the nine fields. */
  datatype Analysis = Analysis(
    overview: string,
    severity: string,
    visualReasoning: string,
    timeline: string,
    symptoms: seq<string>,
    prevention: seq<string>,
    redFlags: seq<string>,
    disclaimer: string,
    chartData: Json)

  /** The record before anything is parsed: every field empty, chart data `{}`. */
  const Default: Analysis := Analysis("", "", "", "", [], [], [], "", EmptyObject)

  function Prose(a: Analysis, s: Section): string
    requires !IsListSection(s)
  {
    match s
    case Overview => a.overview
    case Severity => a.severity
    case VisualReasoning => a.visualReasoning
    case Timeline => a.timeline
    case Disclaimer => a.disclaimer
  }

  function Items(a: Analysis, s: Section): seq<string>
    requires IsListSection(s)
  {
    match s
    case Symptoms => a.symptoms
    case Prevention => a.prevention
    case RedFlags => a.redFlags
  }

  /** Records `a` and `b` agree on section `s`. */
  predicate SameField(a: Analysis, b: Analysis, s: Section) {
    if IsListSection(s) then Items(a, s) == Items(b, s) else Prose(a, s) == Prose(b, s)
  }

  /** `sections[s] += piece` for a prose section. */
  function AppendProse(a: Analysis, s: Section, piece: string): (r: Analysis)
    requires !IsListSection(s)
    ensures Prose(r, s) == Prose(a, s) + piece
    ensures forall t :: t != s ==> SameField(r, a, t)
    ensures r.chartData == a.chartData
  {
    match s
    case Overview => a.(overview := a.overview + piece)
    case Severity => a.(severity := a.severity + piece)
    case VisualReasoning => a.(visualReasoning := a.visualReasoning + piece)
    case Timeline => a.(timeline := a.timeline + piece)
    case Disclaimer => a.(disclaimer := a.disclaimer + piece)
  }

  /** `sections[s].append(item)` for a list section. */
  function AppendItem(a: Analysis, s: Section, item: string): (r: Analysis)
    requires IsListSection(s)
    ensures Items(r, s) == Items(a, s) + [item]
    ensures forall t :: t != s ==> SameField(r, a, t)
    ensures r.chartData == a.chartData
  {
    match s
    case Symptoms => a.(symptoms := a.symptoms + [item])
    case Prevention => a.(prevention := a.prevention + [item])
    case RedFlags => a.(redFlags := a.redFlags + [item])
  }

  // ---------------------------------------------------------------- markers

  /** The marker substrings that select each section. */
  function Markers(s: Section): seq<string> {
    match s
    case Overview => ["SECTION 1", "OVERVIEW"]
    case Severity => ["SECTION 2", "SEVERITY"]
    case VisualReasoning => ["SECTION 3", "VISUAL REASONING"]
    case Timeline => ["SECTION 4", "TIMELINE"]
    case Symptoms => ["SECTION 5", "SYMPTOMS"]
    case Prevention => ["SECTION 6", "PREVENTION"]
    case RedFlags => ["SECTION 7", "RED-FLAG", "ALERTS"]
    case Disclaimer => ["SECTION 8", "DISCLAIMER"]
  }

  /** The position of a section's test in the marker chain. */
  function Rank(s: Section): nat {
    match s
    case Overview => 1
    case Severity => 2
    case VisualReasoning => 3
    case Timeline => 4
    case Symptoms => 5
    case Prevention => 6
    case RedFlags => 7
    case Disclaimer => 8
  }

  /** The stripped line holds one of the markers of section `s` (case-sensitive substring). */
  predicate Mentions(l: string, s: Section) {
    exists m :: m in Markers(s) && Contains(l, m)
  }

  /** The test the marker chain applies for section `s` to a stripped line. */
  predicate Hit(l: string, s: Section) {
    match s
    case Overview => Contains(l, "SECTION 1") || Contains(l, "OVERVIEW")
    case Severity => Contains(l, "SECTION 2") || Contains(l, "SEVERITY")
    case VisualReasoning => Contains(l, "SECTION 3") || Contains(l, "VISUAL REASONING")
    case Timeline => Contains(l, "SECTION 4") || Contains(l, "TIMELINE")
    case Symptoms => Contains(l, "SECTION 5") || Contains(l, "SYMPTOMS")
    case Prevention => Contains(l, "SECTION 6") || Contains(l, "PREVENTION")
    case RedFlags => Contains(l, "SECTION 7") || Contains(l, "RED-FLAG") || Contains(l, "ALERTS")
    case Disclaimer => Contains(l, "SECTION 8") || Contains(l, "DISCLAIMER")
  }

  /** The section a stripped line switches the cursor to: the if/elif chain of tests. */
  function MarkerOf(l: string): Option<Section> {
    if Hit(l, Overview) then Some(Overview)
    else if Hit(l, Severity) then Some(Severity)
    else if Hit(l, VisualReasoning) then Some(VisualReasoning)
    else if Hit(l, Timeline) then Some(Timeline)
    else if Hit(l, Symptoms) then Some(Symptoms)
    else if Hit(l, Prevention) then Some(Prevention)
    else if Hit(l, RedFlags) then Some(RedFlags)
    else if Hit(l, Disclaimer) then Some(Disclaimer)
    else None
  }

  lemma MentionsIsHit(l: string, s: Section)
    ensures Mentions(l, s) <==> Hit(l, s)
  {
    var ms := Markers(s);
    assert ms[0] in ms && ms[1] in ms;
    if s == RedFlags {
      assert ms[2] in ms;
    }
  }

  /** The marker chain picks the first section, in rank order, that the line mentions;
      a line mentioning none selects nothing. */
  lemma MarkerPriority(l: string, s: Section)
    ensures MarkerOf(l) == Some(s) <==> Mentions(l, s) && forall t :: Rank(t) < Rank(s) ==> !Mentions(l, t)
    ensures MarkerOf(l).None? <==> forall t :: !Mentions(l, t)
  {
    forall t ensures Mentions(l, t) <==> Hit(l, t) {
      MentionsIsHit(l, t);
    }
    MarkerChain(l, s);
  }

  /** The marker chain in terms of its tests: section s is picked exactly when its test
      holds and the tests of all earlier sections fail. */
  lemma MarkerChain(l: string, s: Section)
    ensures MarkerOf(l) == Some(s) <==> Hit(l, s) && forall t :: Rank(t) < Rank(s) ==> !Hit(l, t)
    ensures MarkerOf(l).None? <==> forall t :: !Hit(l, t)
  {
    if MarkerOf(l) == Some(s) {
      MarkerPicked(l, s);
    }
    if Hit(l, s) && forall t :: Rank(t) < Rank(s) ==> !Hit(l, t) {
      MarkerFirst(l, s);
    }
    MarkerNone(l);
  }

  lemma MarkerPicked(l: string, s: Section)
    requires MarkerOf(l) == Some(s)
    ensures Hit(l, s) && forall t :: Rank(t) < Rank(s) ==> !Hit(l, t)
  {
  }

  lemma MarkerFirst(l: string, s: Section)
    requires Hit(l, s) && forall t :: Rank(t) < Rank(s) ==> !Hit(l, t)
    ensures MarkerOf(l) == Some(s)
  {
  }

  lemma MarkerNone(l: string)
    ensures MarkerOf(l).None? <==> forall t :: !Hit(l, t)
  {
  }

  // ------------------------------------------------------------ chart data

  /** Index of the first occurrence of `c` in `s`. */
  function FirstIndex(s: string, c: char): (r: Option<nat>)
    ensures r.None? <==> c !in s
    ensures r.Some? ==> r.value < |s| && s[r.value] == c && forall k :: 0 <= k < r.value ==> s[k] != c
    decreases |s|
  {
    if s == [] then None
    else if s[0] == c then Some(0)
    else match FirstIndex(s[1..], c)
      case None => None
      case Some(i) => Some(i + 1)
  }

  /** Index of the last occurrence of `c` in `s`. */
  function LastIndex(s: string, c: char): (r: Option<nat>)
    ensures r.None? <==> c !in s
    ensures r.Some? ==> r.value < |s| && s[r.value] == c && forall k :: r.value < k < |s| ==> s[k] != c
    decreases |s|
  {
    if s == [] then None
    else if s[|s| - 1] == c then Some(|s| - 1)
    else LastIndex(s[..|s| - 1], c)
  }

  /** The bounds [lo, hi) of what re.search(r'\{[\s\S]*\}') matches: from the first '{'
      to the last '}', present exactly when some '{' comes before some '}', and
      covering every such brace pair. */
  function JsonSpan(t: string): (r: Option<(nat, nat)>)
    ensures r.Some? <==> exists i, j :: 0 <= i < j < |t| && t[i] == '{' && t[j] == '}'
    ensures r.Some? ==> r.value.0 + 1 < r.value.1 <= |t| && t[r.value.0] == '{' && t[r.value.1 - 1] == '}'
    ensures r.Some? ==>
      forall i, j :: 0 <= i < j < |t| && t[i] == '{' && t[j] == '}' ==> r.value.0 <= i && j < r.value.1
  {
    match (FirstIndex(t, '{'), LastIndex(t, '}'))
    case (Some(i), Some(j)) => if i < j then Some((i, j + 1)) else None
    case _ => None
  }

  /** chart_data: the decoded span, or `{}` when there is no span or decoding fails. */
  function ChartData(text: string, decode: string -> Option<Json>): Json {
    match JsonSpan(text)
    case None => EmptyObject
    case Some((lo, hi)) => decode(text[lo..hi]).GetOr(EmptyObject)
  }

  // ------------------------------------------------------------ the cursor

  /** The loop state: `current_section` and the `sections` record. */
  datatype Cursor = Cursor(current: Option<Section>, record: Analysis)

  /** The stripped line starts with one of the bullet glyphs. */
  predicate IsBullet(l: string) {
    l != [] && (l[0] == '-' || l[0] == '\U{2022}' || l[0] == '*')
  }

  const BulletChars: set<char> := {'-', '\U{2022}', '*', ' '}

  /** `l.lstrip("-\U{2022}* ").strip()`: the text of a bullet item. */
  function BulletText(l: string): string {
    Strip(LStripChars(l, BulletChars))
  }

  /** A stripped line that adds content to the selected section: not a marker, not
      empty and not JSON spill-over starting with '{'. */
  predicate IsContent(l: string) {
    MarkerOf(l).None? && l != [] && l[0] != '{'
  }

  /** `line.strip()` applied to every line. */
  function StripAll(lines: seq<string>): (r: seq<string>)
    ensures |r| == |lines|
    decreases |lines|
  {
    if lines == [] then [] else StripAll(lines[..|lines| - 1]) + [Strip(lines[|lines| - 1])]
  }

  lemma {:induction false} StripAllAt(lines: seq<string>, k: nat)
    requires k < |lines|
    ensures StripAll(lines)[k] == Strip(lines[k])
    decreases |lines|
  {
    if k < |lines| - 1 {
      StripAllAt(lines[..|lines| - 1], k);
    }
  }

  /** One iteration of the loop, on the stripped line `l`. */
  function Step(c: Cursor, l: string): (r: Cursor)
    ensures r.record.chartData == c.record.chartData
    ensures r.current == if MarkerOf(l).Some? then MarkerOf(l) else c.current
    ensures MarkerOf(l).Some? || c.current.None? ==> r.record == c.record
    ensures forall t :: r.current != Some(t) ==> SameField(r.record, c.record, t)
  {
    if MarkerOf(l).Some? then c.(current := MarkerOf(l))
    else if c.current.Some? && l != [] && l[0] != '{' then
      var s := c.current.value;
      if IsListSection(s) then
        if IsBullet(l) then c.(record := AppendItem(c.record, s, BulletText(l))) else c
      else c.(record := AppendProse(c.record, s, l + " "))
    else c
  }

  /** The loop over the stripped lines `ls`, started in cursor state `c`. */
  function Run(c: Cursor, ls: seq<string>): Cursor
    decreases |ls|
  {
    if ls == [] then c else Step(Run(c, ls[..|ls| - 1]), ls[|ls| - 1])
  }

  /** parse_gemini_response as a function of the text and of the JSON decoder. */
  function Parse(text: string, decode: string -> Option<Json>): Analysis {
    if text == [] then Default
    else Run(Cursor(None, Default.(chartData := ChartData(text, decode))), StripAll(SplitOn(text, '\n'))).record
  }

  /** The chart-data step of parse_gemini_response: search for the brace span and, when
      there is one and it decodes, take the decoded value; otherwise keep `{}`. The try
      block has no loop: this method only mirrors its statement-by-statement shape, and
      its contract ties it to the `ChartData` definition. */
  method ExtractChart(text: string, decode: string -> Option<Json>) returns (chart: Json)
    ensures chart == ChartData(text, decode)
  {
    chart := EmptyObject;
    var span := JsonSpan(text);
    if span.Some? {
      var decoded := decode(text[span.value.0..span.value.1]);
      if decoded.Some? {
        chart := decoded.value;
      }
    }
  }

  /** parse_gemini_response: the loop over lines, updating the cursor and the record. */
  method ParseResponse(text: string, decode: string -> Option<Json>) returns (sections: Analysis)
    ensures sections == Parse(text, decode)
  {
    sections := Default;
    if text == [] {
      return;
    }
    var chart := ExtractChart(text, decode);
    sections := sections.(chartData := chart);
    ghost var start := Cursor(None, sections);
    assert start == Cursor(None, Default.(chartData := ChartData(text, decode)));
    var lines := SplitOn(text, '\n');
    ghost var stripped := StripAll(lines);
    var current: Option<Section> := None;
    var i := 0;
    while i < |lines|
      invariant 0 <= i <= |lines|
      invariant Cursor(current, sections) == Run(start, stripped[..i])
    {
      ghost var before := Cursor(current, sections);
      StripAllAt(lines, i);
      var l := Strip(lines[i]);
      if MarkerOf(l).Some? {
        current := MarkerOf(l);
      } else if current.Some? && l != [] && l[0] != '{' {
        var s := current.value;
        if IsListSection(s) {
          if IsBullet(l) {
            sections := AppendItem(sections, s, BulletText(l));
          }
        } else {
          sections := AppendProse(sections, s, l + " ");
        }
      }
      assert Cursor(current, sections) == Step(before, l);
      assert stripped[..i + 1][..i] == stripped[..i] && stripped[..i + 1][i] == l;
      assert Run(start, stripped[..i + 1]) == Step(before, l);
      i := i + 1;
    }
    assert stripped[..|lines|] == stripped;
  }

  // ------------------------------------------------ what the loop computes

  /** The section selected by the last marker line among `ls`: the cursor in force
      once they have been read. */
  function LastMarker(ls: seq<string>): Option<Section>
    decreases |ls|
  {
    if ls == [] then None
    else if MarkerOf(ls[|ls| - 1]).Some? then MarkerOf(ls[|ls| - 1])
    else LastMarker(ls[..|ls| - 1])
  }

  /** No section is in force exactly when no line is a marker line. */
  lemma {:induction false} LastMarkerNone(ls: seq<string>)
    ensures LastMarker(ls).None? <==> forall k :: 0 <= k < |ls| ==> MarkerOf(ls[k]).None?
    decreases |ls|
  {
    if ls != [] {
      var n := |ls| - 1;
      LastMarkerNone(ls[..n]);
      assert forall k :: 0 <= k < n ==> ls[..n][k] == ls[k];
    }
  }

  /** The section in force is the one of the last marker line. */
  lemma {:induction false} LastMarkerSome(ls: seq<string>)
    ensures LastMarker(ls).Some? ==>
      exists k :: 0 <= k < |ls| && MarkerOf(ls[k]) == LastMarker(ls)
        && forall m :: k < m < |ls| ==> MarkerOf(ls[m]).None?
    decreases |ls|
  {
    if ls != [] {
      var n := |ls| - 1;
      if MarkerOf(ls[n]).Some? {
        assert MarkerOf(ls[n]) == LastMarker(ls);
      } else if LastMarker(ls[..n]).Some? {
        var front := ls[..n];
        LastMarkerSome(front);
        var k :| 0 <= k < n && MarkerOf(front[k]) == LastMarker(front)
          && forall m :: k < m < n ==> MarkerOf(front[m]).None?;
        assert ls[k] == front[k];
        assert forall m :: k < m < |ls| ==> MarkerOf(ls[m]).None? by {
          forall m | k < m < |ls| ensures MarkerOf(ls[m]).None? {
            if m < n {
              assert ls[m] == front[m];
            }
          }
        }
      }
    }
  }

  /** What line k adds to prose section s: its stripped text and a space, when it is a
      content line read while the last marker before it selected s. */
  function ProsePiece(ls: seq<string>, k: nat, s: Section): string
    requires k < |ls| && !IsListSection(s)
  {
    var l := ls[k];
    if LastMarker(ls[..k]) == Some(s) && IsContent(l) then l + " " else ""
  }

  /** What line k adds to list section s: its bullet text, when it is a bulleted content
      line read while the last marker before it selected s. */
  function ItemPiece(ls: seq<string>, k: nat, s: Section): seq<string>
    requires k < |ls| && IsListSection(s)
  {
    var l := ls[k];
    if LastMarker(ls[..k]) == Some(s) && IsContent(l) && IsBullet(l) then [BulletText(l)] else []
  }

  /** The pieces every line adds to prose section s, in line order. */
  function ProseOf(ls: seq<string>, s: Section): string
    requires !IsListSection(s)
    decreases |ls|
  {
    if ls == [] then "" else ProseOf(ls[..|ls| - 1], s) + ProsePiece(ls, |ls| - 1, s)
  }

  /** The items every line adds to list section s, in line order. */
  function ItemsOf(ls: seq<string>, s: Section): seq<string>
    requires IsListSection(s)
    decreases |ls|
  {
    if ls == [] then [] else ItemsOf(ls[..|ls| - 1], s) + ItemPiece(ls, |ls| - 1, s)
  }

  lemma {:induction false} RunKeepsChart(c: Cursor, ls: seq<string>)
    ensures Run(c, ls).record.chartData == c.record.chartData
    decreases |ls|
  {
    if ls != [] {
      RunKeepsChart(c, ls[..|ls| - 1]);
    }
  }

  /** One step adds the stripped line and a space to prose section s exactly when the
      cursor is on s and the line is content. */
  lemma StepProse(c: Cursor, l: string, s: Section)
    requires !IsListSection(s)
    ensures Prose(Step(c, l).record, s)
      == Prose(c.record, s) + (if c.current == Some(s) && IsContent(l) then l + " " else "")
  {
  }

  /** One step adds the bullet text to list section s exactly when the cursor is on s
      and the line is bulleted content. */
  lemma StepItems(c: Cursor, l: string, s: Section)
    requires IsListSection(s)
    ensures Items(Step(c, l).record, s)
      == Items(c.record, s) + (if c.current == Some(s) && IsContent(l) && IsBullet(l) then [BulletText(l)] else [])
  {
  }

  /** From a cursor with no section, the cursor after the loop is the section of the
      last marker line. */
  lemma {:induction false} RunCurrent(c: Cursor, ls: seq<string>)
    requires c.current.None?
    ensures Run(c, ls).current == LastMarker(ls)
    decreases |ls|
  {
    if ls != [] {
      RunCurrent(c, ls[..|ls| - 1]);
    }
  }

  /** The loop attributes each line to the section of the last marker line before it:
      from a cursor with no section, prose section s grows by exactly the pieces of the
      lines attributed to it, in line order. */
  lemma {:induction false} RunProse(c: Cursor, ls: seq<string>, s: Section)
    requires c.current.None? && !IsListSection(s)
    ensures Prose(Run(c, ls).record, s) == Prose(c.record, s) + ProseOf(ls, s)
    decreases |ls|
  {
    if ls != [] {
      var n := |ls| - 1;
      RunProse(c, ls[..n], s);
      RunCurrent(c, ls[..n]);
      StepProse(Run(c, ls[..n]), ls[n], s);
    }
  }

  /** The same for list section s and its bullet items. */
  lemma {:induction false} RunItems(c: Cursor, ls: seq<string>, s: Section)
    requires c.current.None? && IsListSection(s)
    ensures Items(Run(c, ls).record, s) == Items(c.record, s) + ItemsOf(ls, s)
    decreases |ls|
  {
    if ls != [] {
      var n := |ls| - 1;
      RunItems(c, ls[..n], s);
      RunCurrent(c, ls[..n]);
      StepItems(Run(c, ls[..n]), ls[n], s);
    }
  }

  /** The chart data of the parse result comes from the widest brace span. */
  lemma ParseChart(text: string, decode: string -> Option<Json>)
    ensures Parse(text, decode).chartData == ChartData(text, decode)
  {
    if text != [] {
      RunKeepsChart(Cursor(None, Default.(chartData := ChartData(text, decode))), StripAll(SplitOn(text, '\n')));
    }
  }

  /** Prose section s of the parse result holds the pieces of the lines attributed to it. */
  lemma ParseProse(text: string, decode: string -> Option<Json>, s: Section)
    requires !IsListSection(s)
    ensures Prose(Parse(text, decode), s) == ProseOf(StripAll(SplitOn(text, '\n')), s)
  {
    var ls := StripAll(SplitOn(text, '\n'));
    if text == [] {
      assert ls == [[]];
      assert ls[..0] == [];
    } else {
      RunProse(Cursor(None, Default.(chartData := ChartData(text, decode))), ls, s);
    }
  }

  /** List section s of the parse result holds the items of the lines attributed to it. */
  lemma ParseItems(text: string, decode: string -> Option<Json>, s: Section)
    requires IsListSection(s)
    ensures Items(Parse(text, decode), s) == ItemsOf(StripAll(SplitOn(text, '\n')), s)
  {
    var ls := StripAll(SplitOn(text, '\n'));
    if text == [] {
      assert ls == [[]];
      assert ls[..0] == [];
    } else {
      RunItems(Cursor(None, Default.(chartData := ChartData(text, decode))), ls, s);
    }
  }

  // ------------------------------------------------------------ properties

  /** Two records agreeing on every section and on the chart data are equal. */
  lemma SameRecord(a: Analysis, b: Analysis)
    requires forall s :: SameField(a, b, s)
    requires a.chartData == b.chartData
    ensures a == b
  {
    assert SameField(a, b, Overview) && SameField(a, b, Severity);
    assert SameField(a, b, VisualReasoning) && SameField(a, b, Timeline);
    assert SameField(a, b, Symptoms) && SameField(a, b, Prevention);
    assert SameField(a, b, RedFlags) && SameField(a, b, Disclaimer);
  }

  /** Section s of the parse result is a function of the stripped lines alone. */
  lemma ParseField(text: string, d1: string -> Option<Json>, d2: string -> Option<Json>, s: Section)
    ensures SameField(Parse(text, d1), Parse(text, d2), s)
  {
    if IsListSection(s) {
      ParseItems(text, d1, s);
      ParseItems(text, d2, s);
    } else {
      ParseProse(text, d1, s);
      ParseProse(text, d2, s);
    }
  }

  /** The sections depend on the text alone: whatever the JSON decoder does, only the
      chart data can differ. */
  lemma SegmentationIgnoresJson(text: string, d1: string -> Option<Json>, d2: string -> Option<Json>)
    ensures Parse(text, d1).(chartData := EmptyObject) == Parse(text, d2).(chartData := EmptyObject)
  {
    var p1, p2 := Parse(text, d1), Parse(text, d2);
    var a, b := p1.(chartData := EmptyObject), p2.(chartData := EmptyObject);
    forall s ensures SameField(a, b, s) {
      ParseField(text, d1, d2, s);
    }
    SameRecord(a, b);
  }

  /** With no marker line before them, lines add nothing to any section. */
  lemma {:induction false} NoMarkerNoContent(ls: seq<string>, s: Section)
    requires forall k :: 0 <= k < |ls| ==> MarkerOf(ls[k]).None?
    ensures !IsListSection(s) ==> ProseOf(ls, s) == ""
    ensures IsListSection(s) ==> ItemsOf(ls, s) == []
    decreases |ls|
  {
    if ls != [] {
      var n := |ls| - 1;
      NoMarkerNoContent(ls[..n], s);
      LastMarkerNone(ls[..n]);
    }
  }

  /** With no marker line, section s of the parse result is empty. */
  lemma NoMarkerField(text: string, decode: string -> Option<Json>, s: Section)
    requires forall k :: 0 <= k < |StripAll(SplitOn(text, '\n'))| ==> MarkerOf(StripAll(SplitOn(text, '\n'))[k]).None?
    ensures SameField(Parse(text, decode), Default, s)
  {
    NoMarkerNoContent(StripAll(SplitOn(text, '\n')), s);
    if IsListSection(s) {
      ParseItems(text, decode, s);
    } else {
      ParseProse(text, decode, s);
    }
  }

  /** No line holds a marker once stripped: no stripped line holds one. */
  lemma NoMarkerLines(lines: seq<string>)
    requires forall line :: line in lines ==> MarkerOf(Strip(line)).None?
    ensures forall k :: 0 <= k < |StripAll(lines)| ==> MarkerOf(StripAll(lines)[k]).None?
  {
    forall k | 0 <= k < |lines| ensures MarkerOf(StripAll(lines)[k]).None? {
      assert lines[k] in lines;
      StripAllAt(lines, k);
    }
  }

  /** A text in which no line mentions a marker yields empty sections and only the
      chart data. */
  lemma NoMarkersNoSections(text: string, decode: string -> Option<Json>)
    requires forall line :: line in SplitOn(text, '\n') ==> MarkerOf(Strip(line)).None?
    ensures Parse(text, decode) == Default.(chartData := ChartData(text, decode))
  {
    NoMarkerLines(SplitOn(text, '\n'));
    ParseChart(text, decode);
    var a, b := Parse(text, decode), Default.(chartData := ChartData(text, decode));
    forall s ensures SameField(a, b, s) {
      NoMarkerField(text, decode, s);
    }
    SameRecord(a, b);
  }

  lemma {:induction false} ProseOfShape(ls: seq<string>, s: Section)
    requires !IsListSection(s)
    ensures var p := ProseOf(ls, s); p == [] || p[|p| - 1] == ' '
    decreases |ls|
  {
    if ls != [] {
      ProseOfShape(ls[..|ls| - 1], s);
    }
  }

  /** Every prose section is empty or ends with the space that follows each line. */
  lemma ProseEndsWithSpace(text: string, decode: string -> Option<Json>, s: Section)
    requires !IsListSection(s)
    ensures var p := Prose(Parse(text, decode), s); p == [] || p[|p| - 1] == ' '
  {
    ParseProse(text, decode, s);
    ProseOfShape(StripAll(SplitOn(text, '\n')), s);
  }

  /** Line k, read while s is selected, is bulleted content: it becomes an item of s. */
  predicate Contributes(ls: seq<string>, k: nat, s: Section)
    requires k < |ls|
  {
    LastMarker(ls[..k]) == Some(s) && IsContent(ls[k]) && IsBullet(ls[k])
  }

  lemma ItemPieceLength(ls: seq<string>, k: nat, s: Section)
    requires k < |ls| && IsListSection(s)
    ensures |ItemPiece(ls, k, s)| == if Contributes(ls, k, s) then 1 else 0
    ensures Contributes(ls, k, s) ==> ItemPiece(ls, k, s)[0] == BulletText(ls[k])
  {
  }

  /** The indices of the lines that become items of list section s: exactly the lines
      that contribute, in increasing order. */
  function ItemLines(ls: seq<string>, s: Section): (idx: seq<nat>)
    requires IsListSection(s)
    ensures forall i, j :: 0 <= i < j < |idx| ==> idx[i] < idx[j]
    ensures forall i :: 0 <= i < |idx| ==> idx[i] < |ls|
    decreases |ls|
  {
    if ls == [] then []
    else
      var n := |ls| - 1;
      var front := ItemLines(ls[..n], s);
      if Contributes(ls, n, s) then front + [n] else front
  }

  /** A line's index is among the item lines exactly when the line contributes. */
  lemma {:induction false} ItemLinesExact(ls: seq<string>, s: Section)
    requires IsListSection(s)
    ensures forall k :: 0 <= k < |ls| ==> (k in ItemLines(ls, s) <==> Contributes(ls, k, s))
    decreases |ls|
  {
    if ls != [] {
      var n := |ls| - 1;
      ItemLinesExact(ls[..n], s);
      forall k | 0 <= k < n ensures Contributes(ls[..n], k, s) == Contributes(ls, k, s) {
        ContributesPrefix(ls, n, k, s);
      }
    }
  }

  /** Whether line k contributes depends only on the lines up to k. */
  lemma ContributesPrefix(ls: seq<string>, n: nat, k: nat, s: Section)
    requires k < n <= |ls|
    ensures Contributes(ls[..n], k, s) == Contributes(ls, k, s)
  {
    assert ls[..n][..k] == ls[..k];
  }

  /** The i-th item of list section s is the bullet text of the i-th contributing line. */
  lemma {:induction false} ItemLinesText(ls: seq<string>, s: Section)
    requires IsListSection(s)
    ensures |ItemLines(ls, s)| == |ItemsOf(ls, s)|
    ensures forall i :: 0 <= i < |ItemsOf(ls, s)| ==> ItemsOf(ls, s)[i] == BulletText(ls[ItemLines(ls, s)[i]])
    decreases |ls|
  {
    if ls != [] {
      var n := |ls| - 1;
      var front := ls[..n];
      ItemLinesText(front, s);
      ItemPieceLength(ls, n, s);
      var idx, items := ItemLines(front, s), ItemsOf(front, s);
      assert ItemsOf(ls, s) == items + ItemPiece(ls, n, s);
      assert ItemLines(ls, s) == if Contributes(ls, n, s) then idx + [n] else idx;
      forall i | 0 <= i < |items| ensures items[i] == BulletText(ls[idx[i]]) {
        assert front[idx[i]] == ls[idx[i]];
      }
    }
  }

  /** The items of a list section, in order, are the bullet texts of its bulleted content
      lines and of no other line. */
  lemma ItemsComeFromBullets(text: string, decode: string -> Option<Json>, s: Section)
    requires IsListSection(s)
    ensures var ls, idx := StripAll(SplitOn(text, '\n')), ItemLines(StripAll(SplitOn(text, '\n')), s);
      (forall k :: 0 <= k < |ls| ==> (k in idx <==> Contributes(ls, k, s)))
        && |Items(Parse(text, decode), s)| == |idx|
        && forall i :: 0 <= i < |idx| ==> Items(Parse(text, decode), s)[i] == BulletText(ls[idx[i]])
  {
    ParseItems(text, decode, s);
    ItemLinesText(StripAll(SplitOn(text, '\n')), s);
    ItemLinesExact(StripAll(SplitOn(text, '\n')), s);
  }

  /** The chart span, taken alone, is its own chart span. */
  lemma SpanIdempotent(text: string, decode: string -> Option<Json>)
    requires JsonSpan(text).Some?
    ensures var (lo, hi) := JsonSpan(text).value;
      JsonSpan(text[lo..hi]) == Some((0, hi - lo)) && ChartData(text[lo..hi], decode) == ChartData(text, decode)
  {
    var (lo, hi) := JsonSpan(text).value;
    var sp := text[lo..hi];
    BracedSpan(sp);
    assert sp[0..|sp|] == sp;
  }

  /** A text that starts with '{' and ends with '}' is its own span. */
  lemma BracedSpan(sp: string)
    requires |sp| >= 2 && sp[0] == '{' && sp[|sp| - 1] == '}'
    ensures JsonSpan(sp) == Some((0, |sp|))
  {
    assert FirstIndex(sp, '{') == Some(0);
    assert LastIndex(sp, '}') == Some(|sp| - 1);
  }

  /** Re-parsing the chart span alone finds the same chart data. */
  lemma ChartIdempotent(text: string, decode: string -> Option<Json>)
    requires JsonSpan(text).Some?
    ensures var (lo, hi) := JsonSpan(text).value;
      Parse(text[lo..hi], decode).chartData == Parse(text, decode).chartData
  {
    var (lo, hi) := JsonSpan(text).value;
    SpanIdempotent(text, decode);
    ParseChart(text, decode);
    ParseChart(text[lo..hi], decode);
  }
}
