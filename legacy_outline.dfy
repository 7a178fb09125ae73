/** The older markdown-to-JSON converter. Its scanner unwraps a line before
    it looks at it, separates slides only at a line that is exactly `---`,
    numbers nothing, and keeps only body lines that are not a lone `*`; its
    sections are notes, content, visual and title, without cleaning, and the
    only fix-up is the title taken from the content. */
module LegacyOutline {
  import opened Wrappers
  import opened Strings
  import opened Dicts
  import opened OutlineParts
  import Outline

  /** A line with a leading `*` and then a `(`…`)` wrapper removed, restripping after each. */
  function Unwrap(line: string): string {
    var a := if StartsWith(line, "*") then Strip(line[1..]) else line;
    if StartsWith(a, "(") then
      (var m := Strip(a[1..]); if EndsWith(m, ")") then Strip(m[..|m| - 1]) else m)
    else a
  }

  /** A heading's text cut after the last `:` when it names a `Slide` and
      holds a `:`, then after the last ` – ` when it still names a `Slide`
      and holds one. */
  function CutTitle(title: string): string {
    var t1 := if Contains(title, "Slide") && Contains(title, ":") then Outline.CutAfter(title, ":") else title;
    if Contains(t1, "Slide") && Contains(t1, " \U{2013} ") then Outline.CutAfter(t1, " \U{2013} ") else t1
  }

  /** A heading line: its text after the leading `#`s, cut after the last `:`
      when it names a `Slide` and holds a `:`, then after the last ` – ` when
      it still names a `Slide` and holds one. */
  function HeadingOf(line: string): (k: LineKind)
    requires |line| > 0
    ensures k.Heading? && k.index.None?
  {
    var title := Strip(line[Outline.HashEnd(line)..]);
    Heading(CutTitle(title), None)
  }

  /** The cut title is a suffix of the text. When the text names a `Slide`
      and holds a `:`, the title is taken from what follows the last `:` (and
      holds no `:`); when that, or the whole text otherwise, still names a
      `Slide` and holds a ` – `, the title is what follows its last ` – `;
      otherwise it is kept whole. */
  lemma CutTitleSpec(title: string)
    requires |title| > 0 ==> !IsSpace(title[0]) && !IsSpace(title[|title| - 1])
    ensures var colon := Contains(title, "Slide") && Contains(title, ":");
      var t1 := if colon then Outline.CutAfter(title, ":") else title;
      var dash := Contains(t1, "Slide") && Contains(t1, " \U{2013} ");
      && EndsWith(title, CutTitle(title))
      && (!Contains(title, "Slide") ==> CutTitle(title) == title)
      && (colon ==> ':' !in CutTitle(title) && EndsWith(t1, CutTitle(title)))
      && (dash ==> CutTitle(title) == Outline.CutAfter(t1, " \U{2013} "))
      && (!dash ==> CutTitle(title) == t1)
  {
    var colon := Contains(title, "Slide") && Contains(title, ":");
    var t1 := if colon then Outline.CutAfter(title, ":") else title;
    var dash := Contains(t1, "Slide") && Contains(t1, " \U{2013} ");
    assert EndsWith(title, t1) by {
      if colon {
        Outline.CutAfterSpec(title, ":");
      } else {
        assert EndsWith(title, title);
      }
    }
    assert EndsWith(t1, CutTitle(title)) by {
      if dash {
        Outline.CutAfterSpec(t1, " \U{2013} ");
      } else {
        assert EndsWith(t1, t1);
      }
    }
    Outline.EndsWithTrans(title, t1, CutTitle(title));
    assert colon ==> ':' !in CutTitle(title) by {
      Outline.ColonCutClean(title);
    }
  }

  /** A heading line's title is the cut of its text after the `#`s. */
  lemma HeadingTitle(line: string)
    requires |line| > 0
    ensures HeadingOf(line) == Heading(CutTitle(Strip(line[Outline.HashEnd(line)..])), None)
    ensures EndsWith(Strip(line[Outline.HashEnd(line)..]), HeadingOf(line).title)
  {
    CutTitleSpec(Strip(line[Outline.HashEnd(line)..]));
  }

  /** The kind of one line of the outline. */
  function Classify(raw: string): LineKind {
    var line := Strip(raw);
    if StartsWith(line, "```") then Fence
    else
      var l := Unwrap(line);
      if l == "" then Blank
      else if l == "---" then Separator
      else if StartsWith(l, "#") then HeadingOf(l)
      else if l != "*" then Data(l)
      else Blank
  }

  /** `extract_data`: the same loop as the newer version, without slide numbers. */
  method ExtractData(lines: seq<string>) returns (slides: seq<RawSlide>)
    ensures slides == Slides(Scanned(lines, Classify, false))
  {
    slides := ScanLines(lines, Classify, false);
  }

  /** Only a line that is `---` once stripped and unwrapped separates slides. */
  lemma ClassifySeparator(raw: string)
    ensures Classify(raw) == Separator <==> !StartsWith(Strip(raw), "```") && Unwrap(Strip(raw)) == "---"
  {
  }

  /** A body line the older scanner keeps: neither empty nor a lone `*`. */
  predicate BodyLine(d: string) {
    d != "" && d != "*"
  }

  /** Every body line the classification gives is kept. */
  lemma ClassifyData()
    ensures forall raw :: Classify(raw).Data? ==> BodyLine(Classify(raw).text)
  {
  }

  /** There is one slide more than separators read; a slide's body lines and
      titles come from read lines classified as such, its body lines are
      neither empty nor a lone `*`, and no slide has an index. */
  lemma ExtractedSpec(lines: seq<string>)
    ensures |Slides(Scanned(lines, Classify, false))| == Separators(lines, Classify) + 1
    ensures forall sl :: sl in Slides(Scanned(lines, Classify, false)) ==> FromLines(sl, lines, Classify, false)
    ensures forall sl :: sl in Slides(Scanned(lines, Classify, false)) ==>
      sl.index == [] && forall d :: d in sl.data ==> BodyLine(d)
  {
    SlideCount(lines, Classify, false);
    ClassifyData();
    ScannedData(lines, Classify, false, BodyLine);
    ScannedUnindexed(lines, Classify);
    ScannedFromLines(lines, Classify, false);
  }

  /** The marks table of the older version. */
  const MarkTable: Marks := [
    ("separator", ["---"]),
    ("title", ["title"]),
    ("visual", ["visual idea", "visual", "visuals"]),
    ("notes", ["speaker notes", "notes", "slide", "sample answer", "solution key"]),
    ("content", ["text", "content", "subtitle"])
  ]

  /** A `subtitle:` or `text:` tag opens the content section. */
  lemma ContentTags()
    ensures MarkClass(MarkTable, "subtitle") == Some("content")
    ensures MarkClass(MarkTable, "text") == Some("content")
  {
    MarkClassSpec(MarkTable, "subtitle");
    MarkClassSpec(MarkTable, "text");
  }

  /** The sections dictionary of one slide: the routed sections, with the
      first content line as the title, a bare string, when there is no title. */
  function Parsed(slide: RawSlide): (d: Dict<string, Value>)
    ensures Keys(d) == ["notes", "content", "visual", "title"]
  {
    var routed := Routed(slide.data, (line: string) => Tagged(line, MarkTable), Sections(slide.title, [], [], [])).0;
    var fallback := |routed.title| == 0 && |routed.content| > 0;
    var title := if fallback then Text(routed.content[0]) else Lines(routed.title);
    var content := if fallback then routed.content[1..] else routed.content;
    var d := [("notes", Lines(routed.notes)), ("content", Lines(content)), ("visual", Lines(routed.visual)), ("title", title)];
    assert Keys(d)[0] == "notes" && Keys(d)[1] == "content" && Keys(d)[2] == "visual" && Keys(d)[3] == "title";
    d
  }

  /** Without headings the first content line becomes the title and the
      content keeps the rest; otherwise the headings stay the title. */
  lemma TitleFallback(slide: RawSlide)
    ensures
      var routed := Routed(slide.data, (line: string) => Tagged(line, MarkTable), Sections(slide.title, [], [], [])).0;
      (|routed.title| == 0 && |routed.content| > 0 ==>
        Parsed(slide)[3].1 == Text(routed.content[0]) && Parsed(slide)[1].1 == Lines(routed.content[1..])) &&
      (|routed.title| > 0 ==> Parsed(slide)[3].1 == Lines(routed.title) && Parsed(slide)[1].1 == Lines(routed.content))
  {
  }

  /** One slide of `parse_markdown`: route the body lines, then take the
      title from the content when there is none. */
  method ParseSlide(slide: RawSlide) returns (sections: Dict<string, Value>)
    ensures sections == Parsed(slide)
  {
    var routed := RouteLines(Sections(slide.title, [], [], []), slide.data, MarkTable);
    var title := Lines(routed.title);
    var content := routed.content;
    if |routed.title| == 0 {
      if |routed.content| > 0 {
        title := Text(routed.content[0]);
        content := routed.content[1..];
      }
    }
    sections := [("notes", Lines(routed.notes)), ("content", Lines(content)), ("visual", Lines(routed.visual)), ("title", title)];
  }

  /** `parse_markdown`: the sections of every slide of the outline. */
  method ParseMarkdown(lines: seq<string>) returns (slides: seq<Dict<string, Value>>)
    ensures |slides| == |Slides(Scanned(lines, Classify, false))|
    ensures forall i :: 0 <= i < |slides| ==> slides[i] == Parsed(Slides(Scanned(lines, Classify, false))[i])
  {
    var raw := ExtractData(lines);
    slides := [];
    for i := 0 to |raw|
      invariant |slides| == i
      invariant forall j :: 0 <= j < i ==> slides[j] == Parsed(raw[j])
    {
      var sections := ParseSlide(raw[i]);
      slides := slides + [sections];
    }
  }
}
