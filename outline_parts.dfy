/** What both markdown-to-JSON converters share: the per-line slide scanner
    of `extract_data` (a fence counter, separators, headings and body lines)
    and the tag routing of `parse_markdown` that sorts a slide's body lines
    into sections. Each version classifies lines in its own way and has its
    own table of marks; the state changes that follow are the same. */
module OutlineParts {
  import opened Wrappers
  import opened Strings

  // ---------------------------------------------------------------------------
  // The slide scanner

  /** What one line of the outline is, once stripped and unwrapped. */
  datatype LineKind =
    | Fence                                          // a line starting with three backticks
    | Separator                                      // ends the slide being filled
    | Blank                                          // carries nothing
    | Heading(title: string, index: Option<string>)  // a title, and the slide index it names
    | Data(text: string)                             // a body line

  /** A slide as `extract_data` yields it: its headings, its body lines and its index. */
  datatype RawSlide = RawSlide(title: seq<string>, data: seq<string>, index: seq<string>)

  const NoSlide := RawSlide([], [], [])

  /** The scanner's state: the slides yielded so far, the one being filled,
      the fences seen and the number of the slide being filled. */
  datatype Scan = Scan(done: seq<RawSlide>, current: RawSlide, fences: nat, number: nat)

  const Start := Scan([], NoSlide, 0, 1)

  /** Lines other than fences are read only before the first fence and while
      an odd number of fences has been seen; an even count skips them. */
  predicate Live(fences: nat) {
    fences == 0 || fences % 2 == 1
  }

  /** One line's effect on the scanner. When `numbered`, a heading without a
      `Slide` index gives a slide that has no index yet the index
      `Slide <number>`. */
  function Step(s: Scan, k: LineKind, numbered: bool): Scan {
    if k.Fence? then s.(fences := s.fences + 1)
    else if !Live(s.fences) then s
    else
      match k
      case Separator => Scan(s.done + [s.current], NoSlide, s.fences, s.number + 1)
      case Heading(t, idx) =>
        var index :=
          if idx.Some? then [idx.value]
          else if numbered && s.current.index == [] then ["Slide " + NatToString(s.number)]
          else s.current.index;
        s.(current := s.current.(title := s.current.title + [t], index := index))
      case Data(d) => s.(current := s.current.(data := s.current.data + [d]))
      case _ => s
  }

  /** The scanner's state after the given lines. */
  function Scanned(lines: seq<string>, classify: string -> LineKind, numbered: bool): Scan
    decreases |lines|
  {
    if |lines| == 0 then Start
    else Step(Scanned(lines[..|lines| - 1], classify, numbered), classify(lines[|lines| - 1]), numbered)
  }

  /** The slides yielded: the finished ones, then the one being filled, which
      is always yielded because a slide record is never empty. */
  function Slides(s: Scan): (slides: seq<RawSlide>)
    ensures |slides| == |s.done| + 1 && slides[|s.done|] == s.current
  {
    s.done + [s.current]
  }

  /** The loop of `extract_data`: count fences, skip lines after an even
      count, close a slide at each separator, and fill the current slide's
      titles, body and index. */
  method ScanLines(lines: seq<string>, classify: string -> LineKind, numbered: bool) returns (slides: seq<RawSlide>)
    ensures slides == Slides(Scanned(lines, classify, numbered))
  {
    var done := [];
    var current := NoSlide;
    var countBackticks := 0;
    var nSlides := 1;
    for i := 0 to |lines|
      invariant Scan(done, current, countBackticks, nSlides) == Scanned(lines[..i], classify, numbered)
    {
      assert lines[..i + 1][..i] == lines[..i];
      var kind := classify(lines[i]);
      if kind.Fence? {
        countBackticks := countBackticks + 1;
        continue;
      }
      if countBackticks > 0 && countBackticks % 2 == 0 {
        continue;
      }
      match kind {
        case Separator =>
          done := done + [current];
          current := NoSlide;
          nSlides := nSlides + 1;
        case Heading(title, index) =>
          if index.Some? {
            current := current.(index := [index.value]);
          } else if numbered && current.index == [] {
            current := current.(index := ["Slide " + NatToString(nSlides)]);
          }
          current := current.(title := current.title + [title]);
        case Data(text) =>
          current := current.(data := current.data + [text]);
        case _ =>
      }
    }
    assert lines[..|lines|] == lines;
    slides := done + [current];
  }

  /** The number of fence lines. */
  function Fences(lines: seq<string>, classify: string -> LineKind): nat
    decreases |lines|
  {
    if |lines| == 0 then 0
    else Fences(lines[..|lines| - 1], classify) + if classify(lines[|lines| - 1]).Fence? then 1 else 0
  }

  /** The number of separator lines that are read, that is, not skipped after
      an even number of fences. */
  function Separators(lines: seq<string>, classify: string -> LineKind): nat
    decreases |lines|
  {
    if |lines| == 0 then 0
    else
      var init := lines[..|lines| - 1];
      Separators(init, classify) +
        if classify(lines[|lines| - 1]).Separator? && Live(Fences(init, classify)) then 1 else 0
  }

  /** The scanner counts every fence, closes one slide per separator read,
      and numbers the slide being filled one past the separators. */
  lemma {:induction false} ScannedCounts(lines: seq<string>, classify: string -> LineKind, numbered: bool)
    ensures Scanned(lines, classify, numbered).fences == Fences(lines, classify)
    ensures |Scanned(lines, classify, numbered).done| == Separators(lines, classify)
    ensures Scanned(lines, classify, numbered).number == Separators(lines, classify) + 1
    decreases |lines|
  {
    if |lines| > 0 {
      ScannedCounts(lines[..|lines| - 1], classify, numbered);
    }
  }

  /** As many slides are yielded as separators are read, plus one. */
  lemma SlideCount(lines: seq<string>, classify: string -> LineKind, numbered: bool)
    ensures |Slides(Scanned(lines, classify, numbered))| == Separators(lines, classify) + 1
  {
    ScannedCounts(lines, classify, numbered);
  }

  /** Line `i` is read: it comes before the first fence or after an odd
      number of them. */
  predicate ReadAt(lines: seq<string>, classify: string -> LineKind, i: nat)
    requires i < |lines|
  {
    Live(Fences(lines[..i], classify))
  }

  /** Some read line is the body line `d`. */
  predicate DataFrom(d: string, lines: seq<string>, classify: string -> LineKind) {
    exists i :: 0 <= i < |lines| && ReadAt(lines, classify, i) && classify(lines[i]) == Data(d)
  }

  /** Some read line is a heading titled `t`. */
  predicate TitleFrom(t: string, lines: seq<string>, classify: string -> LineKind) {
    exists i :: 0 <= i < |lines| && ReadAt(lines, classify, i) && classify(lines[i]).Heading? && classify(lines[i]).title == t
  }

  /** Some read line is a heading that names the index `x`. */
  predicate NamedBy(x: string, lines: seq<string>, classify: string -> LineKind) {
    exists i :: 0 <= i < |lines| && ReadAt(lines, classify, i) && classify(lines[i]).Heading? && classify(lines[i]).index == Some(x)
  }

  /** A slide's body lines and titles come from read lines classified as
      such, and it has at most one index, none before its first title, and
      none unless `numbered` or a read heading names one. */
  predicate FromLines(sl: RawSlide, lines: seq<string>, classify: string -> LineKind, numbered: bool) {
    && (forall d :: d in sl.data ==> DataFrom(d, lines, classify))
    && (forall t :: t in sl.title ==> TitleFrom(t, lines, classify))
    && |sl.index| <= 1
    && (sl.index != [] ==> sl.title != [])
    && (!numbered && sl.index != [] ==> NamedBy(sl.index[0], lines, classify))
  }

  /** A line read in a shorter input is read in a longer one. */
  lemma ReadLonger(lines: seq<string>, classify: string -> LineKind, i: nat)
    requires i < |lines| - 1 && ReadAt(lines[..|lines| - 1], classify, i)
    ensures ReadAt(lines, classify, i) && lines[i] == lines[..|lines| - 1][i]
  {
    assert lines[..i] == lines[..|lines| - 1][..i];
  }

  /** What a slide holds once came from a longer input too. */
  lemma FromLonger(sl: RawSlide, lines: seq<string>, classify: string -> LineKind, numbered: bool)
    requires |lines| > 0 && FromLines(sl, lines[..|lines| - 1], classify, numbered)
    ensures FromLines(sl, lines, classify, numbered)
  {
    var init := lines[..|lines| - 1];
    forall d | d in sl.data ensures DataFrom(d, lines, classify) {
      var i :| 0 <= i < |init| && ReadAt(init, classify, i) && classify(init[i]) == Data(d);
      ReadLonger(lines, classify, i);
    }
    forall t | t in sl.title ensures TitleFrom(t, lines, classify) {
      var i :| 0 <= i < |init| && ReadAt(init, classify, i) && classify(init[i]).Heading? && classify(init[i]).title == t;
      ReadLonger(lines, classify, i);
    }
    if !numbered && sl.index != [] {
      var i :| 0 <= i < |init| && ReadAt(init, classify, i) && classify(init[i]).Heading? && classify(init[i]).index == Some(sl.index[0]);
      ReadLonger(lines, classify, i);
    }
  }

  /** The last line is read exactly when the scanner is live before it. */
  lemma ReadLast(lines: seq<string>, classify: string -> LineKind, numbered: bool)
    requires |lines| > 0
    ensures ReadAt(lines, classify, |lines| - 1) <==> Live(Scanned(lines[..|lines| - 1], classify, numbered).fences)
  {
    ScannedCounts(lines[..|lines| - 1], classify, numbered);
  }

  /** Every yielded slide holds only what read lines classified as data and
      headings gave it: a line after an even, positive number of fences
      contributes nothing. */
  lemma {:induction false} ScannedFromLines(lines: seq<string>, classify: string -> LineKind, numbered: bool)
    ensures forall sl :: sl in Slides(Scanned(lines, classify, numbered)) ==> FromLines(sl, lines, classify, numbered)
    decreases |lines|
  {
    if |lines| > 0 {
      var n := |lines| - 1;
      var init := lines[..n];
      var s := Scanned(init, classify, numbered);
      var k := classify(lines[n]);
      ScannedFromLines(init, classify, numbered);
      forall sl | sl in Slides(s) ensures FromLines(sl, lines, classify, numbered) {
        FromLonger(sl, lines, classify, numbered);
      }
      assert FromLines(NoSlide, lines, classify, numbered);
      assert FromLines(s.current, lines, classify, numbered) by {
        assert s.current in Slides(s);
      }
      ReadLast(lines, classify, numbered);
      var c := Step(s, k, numbered).current;
      if k.Heading? && Live(s.fences) {
        forall t | t in c.title ensures TitleFrom(t, lines, classify) {
          if t !in s.current.title {
            assert t == k.title;
          }
        }
        if !numbered && c.index != [] && k.index.Some? {
          assert NamedBy(c.index[0], lines, classify);
        }
        assert FromLines(c, lines, classify, numbered);
      } else if k.Data? && Live(s.fences) {
        forall d | d in c.data ensures DataFrom(d, lines, classify) {
          if d !in s.current.data {
            assert d == k.text;
          }
        }
        assert FromLines(c, lines, classify, numbered);
      }
    }
  }

  /** With numbering, slide `n` (counted from 1) has an index exactly when
      it has a title, and that index is either `Slide n` or the one a read
      heading names. */
  predicate NumberedAs(sl: RawSlide, n: nat, lines: seq<string>, classify: string -> LineKind) {
    && (sl.index != [] <==> sl.title != [])
    && (sl.index != [] ==> sl.index[0] == "Slide " + NatToString(n) || NamedBy(sl.index[0], lines, classify))
  }

  lemma NumberedLonger(sl: RawSlide, n: nat, lines: seq<string>, classify: string -> LineKind)
    requires |lines| > 0 && NumberedAs(sl, n, lines[..|lines| - 1], classify)
    ensures NumberedAs(sl, n, lines, classify)
  {
    var init := lines[..|lines| - 1];
    if sl.index != [] && sl.index[0] != "Slide " + NatToString(n) {
      var i :| 0 <= i < |init| && ReadAt(init, classify, i) && classify(init[i]).Heading? && classify(init[i]).index == Some(sl.index[0]);
      ReadLonger(lines, classify, i);
    }
  }

  /** The numbering invariant of the scanner: every finished slide and the
      one being filled are numbered by their position. */
  predicate NumberedScan(s: Scan, lines: seq<string>, classify: string -> LineKind) {
    && s.number == |s.done| + 1
    && (forall k :: 0 <= k < |s.done| ==> NumberedAs(s.done[k], k + 1, lines, classify))
    && NumberedAs(s.current, s.number, lines, classify)
  }

  lemma {:induction false} ScannedNumbering(lines: seq<string>, classify: string -> LineKind)
    ensures NumberedScan(Scanned(lines, classify, true), lines, classify)
    decreases |lines|
  {
    if |lines| > 0 {
      var n := |lines| - 1;
      var init := lines[..n];
      var s := Scanned(init, classify, true);
      var k := classify(lines[n]);
      ScannedNumbering(init, classify);
      forall j | 0 <= j < |s.done| ensures NumberedAs(s.done[j], j + 1, lines, classify) {
        NumberedLonger(s.done[j], j + 1, lines, classify);
      }
      NumberedLonger(s.current, s.number, lines, classify);
      ReadLast(lines, classify, true);
      var c := Step(s, k, true).current;
      if k.Heading? && Live(s.fences) && k.index.Some? {
        assert NamedBy(c.index[0], lines, classify);
      }
    }
  }

  /** With numbering, slide `k` (counted from 0) has an index exactly when
      it has a title, holds at most one, and that index is `Slide k+1` unless
      a read heading names it. */
  lemma ScannedNumbers(lines: seq<string>, classify: string -> LineKind)
    ensures forall k :: 0 <= k < |Slides(Scanned(lines, classify, true))| ==>
      var sl := Slides(Scanned(lines, classify, true))[k];
      && |sl.index| <= 1
      && (sl.index != [] <==> sl.title != [])
      && (sl.index != [] ==> sl.index[0] == "Slide " + NatToString(k + 1) || NamedBy(sl.index[0], lines, classify))
  {
    var s := Scanned(lines, classify, true);
    ScannedNumbering(lines, classify);
    ScannedFromLines(lines, classify, true);
    forall k | 0 <= k < |Slides(s)| ensures |Slides(s)[k].index| <= 1 {
      assert Slides(s)[k] in Slides(s);
    }
  }

  /** When no heading names an index, no line names `x`. */
  lemma Unnamed(x: string, lines: seq<string>, classify: string -> LineKind)
    requires forall raw :: classify(raw).Heading? ==> classify(raw).index.None?
    ensures !NamedBy(x, lines, classify)
  {
    forall i | 0 <= i < |lines| ensures !(classify(lines[i]).Heading? && classify(lines[i]).index == Some(x)) {
    }
  }

  /** With numbering and no heading that names an index, the titled slide
      `k` (counted from 0) has exactly the index `Slide k+1`. */
  lemma ScannedPositional(lines: seq<string>, classify: string -> LineKind)
    requires forall raw :: classify(raw).Heading? ==> classify(raw).index.None?
    ensures forall k :: 0 <= k < |Slides(Scanned(lines, classify, true))| ==>
      var sl := Slides(Scanned(lines, classify, true))[k];
      sl.index == (if sl.title == [] then [] else ["Slide " + NatToString(k + 1)])
  {
    var s := Scanned(lines, classify, true);
    ScannedNumbers(lines, classify);
    forall k | 0 <= k < |Slides(s)|
      ensures Slides(s)[k].index == (if Slides(s)[k].title == [] then [] else ["Slide " + NatToString(k + 1)])
    {
      var sl := Slides(s)[k];
      if sl.index != [] {
        Unnamed(sl.index[0], lines, classify);
        assert sl.index == [sl.index[0]];
      }
    }
  }

  /** When every body line the classification gives passes `ok`, every
      body line of every slide does. */
  lemma ScannedData(lines: seq<string>, classify: string -> LineKind, numbered: bool, ok: string -> bool)
    requires forall raw :: classify(raw).Data? ==> ok(classify(raw).text)
    ensures forall sl, d :: sl in Slides(Scanned(lines, classify, numbered)) && d in sl.data ==> ok(d)
  {
    ScannedFromLines(lines, classify, numbered);
    forall sl, d | sl in Slides(Scanned(lines, classify, numbered)) && d in sl.data ensures ok(d) {
      assert FromLines(sl, lines, classify, numbered);
      var i :| 0 <= i < |lines| && classify(lines[i]) == Data(d);
    }
  }

  /** Without numbering and without headings that name an index, no slide has an index. */
  lemma ScannedUnindexed(lines: seq<string>, classify: string -> LineKind)
    requires forall raw :: classify(raw).Heading? ==> classify(raw).index.None?
    ensures forall sl :: sl in Slides(Scanned(lines, classify, false)) ==> sl.index == []
  {
    ScannedFromLines(lines, classify, false);
    forall sl | sl in Slides(Scanned(lines, classify, false)) ensures sl.index == [] {
      assert FromLines(sl, lines, classify, false);
    }
  }

  // ---------------------------------------------------------------------------
  // Routing a slide's body lines into sections

  /** The marks table: each section class with the tags that open it, in the
      order the classes are tried. */
  type Marks = seq<(string, seq<string>)>

  /** The first class whose tags include `tag`. */
  function MarkClass(marks: Marks, tag: string): (r: Option<string>)
    decreases |marks|
  {
    if |marks| == 0 then None
    else if tag in marks[0].1 then Some(marks[0].0)
    else MarkClass(marks[1..], tag)
  }

  /** A class is found exactly when some class lists the tag, and the one
      found is the first such class. */
  lemma {:induction false} MarkClassSpec(marks: Marks, tag: string)
    ensures MarkClass(marks, tag).None? <==> forall i :: 0 <= i < |marks| ==> tag !in marks[i].1
    ensures MarkClass(marks, tag).Some? ==>
      exists i :: (0 <= i < |marks| && marks[i].0 == MarkClass(marks, tag).value && tag in marks[i].1 &&
        forall j :: 0 <= j < i ==> tag !in marks[j].1)
    decreases |marks|
  {
    if |marks| > 0 && tag !in marks[0].1 {
      MarkClassSpec(marks[1..], tag);
      if MarkClass(marks, tag).Some? {
        var i :| 0 <= i < |marks[1..]| && marks[1..][i].0 == MarkClass(marks, tag).value && tag in marks[1..][i].1 &&
          forall j :: 0 <= j < i ==> tag !in marks[1..][j].1;
        assert marks[i + 1] == marks[1..][i];
        forall j | 0 <= j < i + 1 ensures tag !in marks[j].1 {
          if j > 0 {
            assert marks[j] == marks[1..][j - 1];
          }
        }
      }
      forall i | 0 < i < |marks| ensures marks[i] == marks[1..][i - 1] { }
    }
  }

  /** The sections a body line can be routed to. */
  const SectionNames: set<string> := {"title", "content", "visual", "notes"}

  /** The sections a slide's body lines are routed to, with the headings as
      the title section's first lines. */
  datatype Sections = Sections(title: seq<string>, content: seq<string>, visual: seq<string>, notes: seq<string>)

  /** `add_to_section` keeps a line only when, stripped, it is neither empty nor a lone `*`. */
  predicate Addable(line: string) {
    Strip(line) != "" && Strip(line) != "*"
  }

  /** `add_to_section(section, line)`. */
  function AddTo(s: Sections, section: string, line: string): Sections {
    if !Addable(line) then s
    else if section == "title" then s.(title := s.title + [line])
    else if section == "visual" then s.(visual := s.visual + [line])
    else if section == "notes" then s.(notes := s.notes + [line])
    else if section == "content" then s.(content := s.content + [line])
    else s
  }

  /** The lines of all sections, in a fixed order. */
  function AllLines(s: Sections): seq<string> {
    s.title + s.content + s.visual + s.notes
  }

  /** Adding puts the line, when it is addable, in exactly one section, the named one. */
  lemma AddToSpec(s: Sections, section: string, line: string)
    requires section in SectionNames
    ensures |AllLines(AddTo(s, section, line))| == |AllLines(s)| + if Addable(line) then 1 else 0
    ensures forall x :: x in AllLines(AddTo(s, section, line)) ==> x in AllLines(s) || (x == line && Addable(line))
  {
  }

  /** The tag of a body line, when it has one: its lower-cased, `*`-free,
      stripped form up to the first `:`. */
  function Tag(line: string): Option<string> {
    var lowered := Strip(Replace(Lower(line), "*", ""));
    if Contains(lowered, ":") then Some(Split(lowered, ":")[0]) else None
  }

  /** The section a line switches to and the text it adds there, when its tag
      belongs to a class that is a section; the text is what follows the last
      `:`, stripped. */
  function Tagged(line: string, marks: Marks): Option<(string, string)> {
    match Tag(line)
    case None => None
    case Some(tag) =>
      match MarkClass(marks, tag)
      case Some(k) =>
        if k in SectionNames then (var parts := Split(line, ":"); Some((k, Strip(parts[|parts| - 1])))) else None
      case None => None
  }

  /** The routing state after the given body lines: the sections and the
      current section, which starts as `content`. */
  function Routed(data: seq<string>, tagged: string -> Option<(string, string)>, start: Sections): (r: (Sections, string))
    decreases |data|
  {
    if |data| == 0 then (start, "content")
    else
      var (s, section) := Routed(data[..|data| - 1], tagged, start);
      var line := data[|data| - 1];
      match tagged(line)
      case Some((k, text)) => (AddTo(s, k, text), k)
      case None => (AddTo(s, section, line), section)
  }

  /** What one body line adds: the text after its tag, or the line itself. */
  function Payload(line: string, tagged: string -> Option<(string, string)>): string {
    match tagged(line)
    case Some((_, text)) => text
    case None => line
  }

  /** The number of body lines whose payload is addable. */
  function AddableCount(data: seq<string>, tagged: string -> Option<(string, string)>): nat
    decreases |data|
  {
    if |data| == 0 then 0
    else AddableCount(data[..|data| - 1], tagged) + if Addable(Payload(data[|data| - 1], tagged)) then 1 else 0
  }

  /** Routing loses no addable payload and adds nothing else: the sections
      grow by one line per body line with an addable payload, each new line
      is such a payload, and the current section is always a section. */
  lemma {:induction false} RoutedSpec(data: seq<string>, tagged: string -> Option<(string, string)>, start: Sections)
    requires forall line :: tagged(line).Some? ==> tagged(line).value.0 in SectionNames
    ensures Routed(data, tagged, start).1 in SectionNames
    ensures |AllLines(Routed(data, tagged, start).0)| == |AllLines(start)| + AddableCount(data, tagged)
    ensures forall x :: x in AllLines(Routed(data, tagged, start).0) ==>
      x in AllLines(start) || (Addable(x) && exists i :: 0 <= i < |data| && x == Payload(data[i], tagged))
    decreases |data|
  {
    if |data| > 0 {
      var init := data[..|data| - 1];
      var line := data[|data| - 1];
      RoutedSpec(init, tagged, start);
      var (s, section) := Routed(init, tagged, start);
      var target := if tagged(line).Some? then tagged(line).value.0 else section;
      AddToSpec(s, target, Payload(line, tagged));
      assert Routed(data, tagged, start).0 == AddTo(s, target, Payload(line, tagged));
      forall x | x in AllLines(Routed(data, tagged, start).0)
        ensures x in AllLines(start) || (Addable(x) && exists i :: 0 <= i < |data| && x == Payload(data[i], tagged))
      {
        if x in AllLines(s) && x !in AllLines(start) {
          var i :| 0 <= i < |init| && x == Payload(init[i], tagged);
          assert data[i] == init[i];
        }
      }
    }
  }

  /** A tagged line always names one of the sections. */
  lemma TaggedSections(marks: Marks)
    ensures forall line :: Tagged(line, marks).Some? ==> Tagged(line, marks).value.0 in SectionNames
  {
  }

  /** Routing by a marks table loses no addable payload and adds nothing else. */
  lemma RoutedByMarks(data: seq<string>, marks: Marks, start: Sections)
    ensures |AllLines(Routed(data, (line: string) => Tagged(line, marks), start).0)| ==
      |AllLines(start)| + AddableCount(data, (line: string) => Tagged(line, marks))
    ensures forall x :: x in AllLines(Routed(data, (line: string) => Tagged(line, marks), start).0) ==>
      x in AllLines(start) || (Addable(x) && exists i :: 0 <= i < |data| && x == Payload(data[i], (line: string) => Tagged(line, marks)))
  {
    TaggedSections(marks);
    RoutedSpec(data, (line: string) => Tagged(line, marks), start);
  }

  /** A body line with a section tag makes that section current. */
  lemma RoutedSwitch(data: seq<string>, tagged: string -> Option<(string, string)>, start: Sections)
    requires |data| > 0 && tagged(data[|data| - 1]).Some?
    ensures Routed(data, tagged, start).1 == tagged(data[|data| - 1]).value.0
  {
  }

  /** `parse_markdown`'s loop over a slide's body lines: a line whose tag opens
      a section switches to it and adds the text after its last `:`; any other
      line goes to the current section, which starts as `content`. */
  method RouteLines(start: Sections, data: seq<string>, marks: Marks) returns (sections: Sections)
    ensures sections == Routed(data, (line: string) => Tagged(line, marks), start).0
  {
    sections := start;
    var section := "content";
    for i := 0 to |data|
      invariant (sections, section) == Routed(data[..i], (line: string) => Tagged(line, marks), start)
    {
      assert data[..i + 1][..i] == data[..i];
      var line := data[i];
      var processed := false;
      var tagged := Tagged(line, marks);
      if tagged.Some? {
        section := tagged.value.0;
        sections := AddTo(sections, section, tagged.value.1);
        processed := true;
      }
      if !processed {
        sections := AddTo(sections, section, line);
      }
    }
    assert data[..|data|] == data;
  }

  // ---------------------------------------------------------------------------
  // Order

  /** `r` is `xs` with some elements left out, in the same order. */
  predicate Subsequence(r: seq<string>, xs: seq<string>)
    decreases |xs|
  {
    if |r| == 0 then true
    else if |xs| == 0 then false
    else if r[|r| - 1] == xs[|xs| - 1] then Subsequence(r[..|r| - 1], xs[..|xs| - 1])
    else Subsequence(r, xs[..|xs| - 1])
  }

  /** A subsequence stays one when an element is added at the end. */
  lemma {:induction false} SubsequenceExtend(r: seq<string>, xs: seq<string>, x: string)
    requires Subsequence(r, xs)
    ensures Subsequence(r, xs + [x])
    decreases |xs|, 1
  {
    assert (xs + [x])[..|xs|] == xs;
    if |r| > 0 && r[|r| - 1] == x {
      SubsequenceDropLast(r, xs);
    }
  }

  /** The same element added at the end of both keeps a subsequence one. */
  lemma SubsequenceBoth(r: seq<string>, xs: seq<string>, x: string)
    requires Subsequence(r, xs)
    ensures Subsequence(r + [x], xs + [x])
  {
    assert (r + [x])[..|r|] == r;
    assert (xs + [x])[..|xs|] == xs;
  }

  /** Leaving out the last element keeps a subsequence one. */
  lemma {:induction false} SubsequenceDropLast(r: seq<string>, xs: seq<string>)
    requires |r| > 0 && Subsequence(r, xs)
    ensures Subsequence(r[..|r| - 1], xs)
    decreases |xs|, 0
  {
    var xs' := xs[..|xs| - 1];
    assert xs == xs' + [xs[|xs| - 1]];
    if r[|r| - 1] == xs[|xs| - 1] {
      SubsequenceExtend(r[..|r| - 1], xs', xs[|xs| - 1]);
    } else {
      SubsequenceDropLast(r, xs');
      SubsequenceExtend(r[..|r| - 1], xs', xs[|xs| - 1]);
    }
  }

  /** The elements of a subsequence are elements of the whole. */
  lemma {:induction false} SubsequenceMembers(r: seq<string>, xs: seq<string>)
    requires Subsequence(r, xs)
    ensures forall x :: x in r ==> x in xs
    decreases |xs|
  {
    if |r| > 0 {
      var xs' := xs[..|xs| - 1];
      if r[|r| - 1] == xs[|xs| - 1] {
        SubsequenceMembers(r[..|r| - 1], xs');
        assert r == r[..|r| - 1] + [r[|r| - 1]];
      } else {
        SubsequenceMembers(r, xs');
      }
    }
  }
}
