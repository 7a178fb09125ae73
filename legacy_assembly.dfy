/** The older slide builder, `create_w_template.py`: the two layouts it uses
    are found by name among the template's layouts, and every slide of the
    outline with a title is built on one of them, its content lines cut into
    runs at every `**`. The template's layouts are given by their names, and
    the template's answers (whether the new slide has a content placeholder,
    how many shapes it has, whether the picture could be inserted) are inputs. */
module LegacyAssembly {
  import opened Wrappers
  import opened Strings
  import opened Dicts
  import SlideAssembly

  type Run = SlideAssembly.Run
  type Paragraph = SlideAssembly.Paragraph
  type SlideData = SlideAssembly.SlideData

  // ---------------------------------------------------------------------------
  // map_layouts

  /** The three spellings a layout answers to: its name, its name with `_`
      turned into spaces, and its lower-cased name with `_` turned into spaces. */
  function Variants(name: string): (vs: seq<string>)
    ensures |vs| == 3 && vs[0] == name
  {
    [name, Replace(name, "_", " "), Replace(Lower(name), "_", " ")]
  }

  /** The second and third spellings have no `_`, and the third no upper-case letter. */
  lemma VariantsShape(name: string)
    ensures '_' !in Variants(name)[1] && '_' !in Variants(name)[2]
    ensures forall c :: c in Variants(name)[2] ==> !IsUpper(c)
  {
    ReplaceRemovesChar(name, '_', " ");
    ReplaceRemovesChar(Lower(name), '_', " ");
    ReplaceChars(Lower(name), "_", " ");
  }

  /** The `available_layouts` dictionary after the layouts `names`, each
      entry holding the spellings `spell` gives its name (`Variants` in the program). */
  function Available(names: seq<string>, spell: string -> seq<string>): Dict<string, seq<string>>
  {
    if |names| == 0 then []
    else
      var n := names[|names| - 1];
      Put(Available(names[..|names| - 1], spell), n, spell(n))
  }

  /** No layout name has two entries. */
  lemma {:induction false} AvailableUnique(names: seq<string>, spell: string -> seq<string>)
    ensures UniqueKeys(Available(names, spell))
    decreases |names|
  {
    if |names| > 0 {
      AvailableUnique(names[..|names| - 1], spell);
    }
  }

  /** Every layout name has an entry. */
  lemma {:induction false} AvailableNames(names: seq<string>, spell: string -> seq<string>)
    ensures forall n :: n in names ==> HasKey(Available(names, spell), n)
    decreases |names|
  {
    if |names| > 0 {
      var init := names[..|names| - 1];
      var n := names[|names| - 1];
      AvailableNames(init, spell);
      var a := Available(init, spell);
      assert names == init + [n];
      forall k | k in names ensures HasKey(Available(names, spell), k) {
        if k != n {
          assert Get(Available(names, spell), k) == Get(a, k);
        }
      }
    }
  }

  /** Every entry is a layout name holding that name's spellings. */
  lemma {:induction false} AvailableEntries(names: seq<string>, spell: string -> seq<string>)
    ensures forall i :: 0 <= i < |Available(names, spell)| ==>
      Available(names, spell)[i].0 in names && Available(names, spell)[i].1 == spell(Available(names, spell)[i].0)
    decreases |names|
  {
    if |names| > 0 {
      var init := names[..|names| - 1];
      var n := names[|names| - 1];
      AvailableEntries(init, spell);
      AvailableUnique(init, spell);
      var a := Available(init, spell);
      var r := Put(a, n, spell(n));
      assert n in names;
      assert forall x :: x in init ==> x in names;
      forall i | 0 <= i < |r| ensures r[i].0 in names && r[i].1 == spell(r[i].0) {
        if i < |a| && a[i].0 != n {
          assert r[i] == a[i];
        } else {
          assert r[i] == (n, spell(n));
        }
      }
    }
  }

  /** Some of `wanted` is among the spellings `vs`. */
  predicate AnyIn(wanted: seq<string>, vs: seq<string>) {
    |wanted| > 0 && (AnyIn(wanted[..|wanted| - 1], vs) || wanted[|wanted| - 1] in vs)
  }

  lemma {:induction false} AnyInMembers(wanted: seq<string>, vs: seq<string>)
    ensures AnyIn(wanted, vs) <==> exists w :: w in wanted && w in vs
    decreases |wanted|
  {
    if |wanted| > 0 {
      var init := wanted[..|wanted| - 1];
      AnyInMembers(init, vs);
      assert wanted == init + [wanted[|wanted| - 1]];
      if exists w :: w in wanted && w in vs {
        var w :| w in wanted && w in vs;
        assert w in init || w == wanted[|wanted| - 1];
      }
      if AnyIn(init, vs) {
        var w :| w in init && w in vs;
        assert w in wanted;
      }
    }
  }

  /** What an entry of `map` holds after a pass over `avail` that sets it to
      every layout having one of the `wanted` spellings: the last such layout,
      or `init` when there is none. */
  function LastWith(avail: Dict<string, seq<string>>, wanted: seq<string>, init: Option<string>): Option<string> {
    if |avail| == 0 then init
    else if AnyIn(wanted, avail[|avail| - 1].1) then Some(avail[|avail| - 1].0)
    else LastWith(avail[..|avail| - 1], wanted, init)
  }

  /** The pass picks the last layout with a wanted spelling, and keeps `init`
      exactly when no layout has one. */
  lemma {:induction false} LastWithSpec(avail: Dict<string, seq<string>>, wanted: seq<string>, init: Option<string>)
    ensures (forall i :: 0 <= i < |avail| ==> !AnyIn(wanted, avail[i].1)) ==> LastWith(avail, wanted, init) == init
    ensures (exists i :: 0 <= i < |avail| && AnyIn(wanted, avail[i].1)) ==>
      exists i :: 0 <= i < |avail| && AnyIn(wanted, avail[i].1) && LastWith(avail, wanted, init) == Some(avail[i].0)
        && forall j :: i < j < |avail| ==> !AnyIn(wanted, avail[j].1)
    decreases |avail|
  {
    if |avail| > 0 {
      var n := |avail| - 1;
      var init' := avail[..n];
      LastWithSpec(init', wanted, init);
      assert forall i :: 0 <= i < n ==> init'[i] == avail[i];
      if !AnyIn(wanted, avail[n].1) && exists i :: 0 <= i < |avail| && AnyIn(wanted, avail[i].1) {
        var i :| 0 <= i < |avail| && AnyIn(wanted, avail[i].1);
        assert i < n && AnyIn(wanted, init'[i].1);
      }
    }
  }

  /** `not map[key]`: unset, or set to an empty name. */
  predicate Falsy(o: Option<string>) {
    o.None? || o.value == ""
  }

  /** The entry of `map` after both passes: the primary pass looks for the
      lower-cased key, the fallback pass, run only when that left the entry
      unset, for the alternatives. */
  function Resolve(avail: Dict<string, seq<string>>, key: string, alternatives: seq<string>): Option<string> {
    var primary := LastWith(avail, [key], None);
    if Falsy(primary) then LastWith(avail, alternatives, primary) else primary
  }

  /** The two layout names `create_presentation` works with. */
  datatype LayoutMap = LayoutMap(titleSlide: string, titleAndContent: string)

  /** The lower-cased keys of `map` and their alternatives. */
  const TitleSlideKey := "title slide"
  const TitleAndContentKey := "title and content"
  const TitleSlideAlternatives := ["title only", "title"]
  const TitleAndContentAlternatives := ["content", "object", "blank"]

  /** `map_layouts` as a value. */
  function LayoutMapOf(names: seq<string>): Result<LayoutMap> {
    var avail := Available(names, Variants);
    var ts := Resolve(avail, TitleSlideKey, TitleSlideAlternatives);
    var tc := Resolve(avail, TitleAndContentKey, TitleAndContentAlternatives);
    if Falsy(ts) || Falsy(tc) then Err(Exit("No suitable layouts found"))
    else Ok(LayoutMap(ts.value, tc.value))
  }

  /** Every entry of `avail` holds the spellings `spell` gives its name. */
  predicate Spelled(avail: Dict<string, seq<string>>, spell: string -> seq<string>) {
    forall i :: 0 <= i < |avail| ==> avail[i].1 == spell(avail[i].0)
  }

  /** A layout without a name answers only to the empty spelling. */
  lemma VariantsEmpty(wanted: seq<string>)
    requires "" !in wanted
    ensures !AnyIn(wanted, Variants(""))
  {
    var name := "";
    ReplaceAbsent(name, "_", " ");
    ReplaceAbsent(Lower(name), "_", " ");
    assert Variants(name) == ["", "", ""];
    AnyInMembers(wanted, Variants(name));
  }

  lemma AnyInAppend(a: seq<string>, b: seq<string>, vs: seq<string>)
    ensures AnyIn(a + b, vs) <==> AnyIn(a, vs) || AnyIn(b, vs)
  {
    AnyInMembers(a + b, vs);
    AnyInMembers(a, vs);
    AnyInMembers(b, vs);
    if AnyIn(a + b, vs) {
      var w :| w in a + b && w in vs;
      assert w in a || w in b;
    }
    if AnyIn(a, vs) {
      var w :| w in a && w in vs;
      assert w in a + b;
    }
    if AnyIn(b, vs) {
      var w :| w in b && w in vs;
      assert w in a + b;
    }
  }

  lemma AnyInOne(k: string, vs: seq<string>)
    ensures AnyIn([k], vs) <==> k in vs
  {
    assert [k][..0] == [];
  }

  /** A pass for spellings an unnamed layout does not have picks, when
      anything answers, a non-empty name of a layout, and otherwise keeps what it had. */
  lemma Pick(avail: Dict<string, seq<string>>, spell: string -> seq<string>, wanted: seq<string>, init: Option<string>)
    requires Spelled(avail, spell) && !AnyIn(wanted, spell(""))
    ensures (forall i :: 0 <= i < |avail| ==> !AnyIn(wanted, avail[i].1)) ==> LastWith(avail, wanted, init) == init
    ensures (exists i :: 0 <= i < |avail| && AnyIn(wanted, avail[i].1)) ==>
      !Falsy(LastWith(avail, wanted, init)) && HasKey(avail, LastWith(avail, wanted, init).value)
  {
    LastWithSpec(avail, wanted, init);
  }

  /** A resolved entry is the name of a layout that answers to the key or,
      when none does, to one of the alternatives; it stays unset exactly when
      no layout answers to the key or to any alternative. The key takes
      precedence: when some layout answers to it, the entry is the last such
      layout, and the alternatives are looked at only when none does. */
  lemma ResolveSpec(avail: Dict<string, seq<string>>, spell: string -> seq<string>, key: string, alternatives: seq<string>)
    requires Spelled(avail, spell) && !AnyIn([key], spell("")) && !AnyIn(alternatives, spell(""))
    ensures !Falsy(Resolve(avail, key, alternatives)) ==> HasKey(avail, Resolve(avail, key, alternatives).value)
    ensures Falsy(Resolve(avail, key, alternatives)) <==>
      forall i :: 0 <= i < |avail| ==> !AnyIn([key] + alternatives, avail[i].1)
    ensures (exists i :: 0 <= i < |avail| && AnyIn([key], avail[i].1)) ==>
      exists i :: (0 <= i < |avail| && AnyIn([key], avail[i].1) && Resolve(avail, key, alternatives) == Some(avail[i].0)
        && forall j :: i < j < |avail| ==> !AnyIn([key], avail[j].1))
    ensures (forall i :: 0 <= i < |avail| ==> !AnyIn([key], avail[i].1)) ==>
      Resolve(avail, key, alternatives) == LastWith(avail, alternatives, None)
  {
    LastWithSpec(avail, [key], None);
    Pick(avail, spell, [key], None);
    var primary := LastWith(avail, [key], None);
    Pick(avail, spell, alternatives, primary);
    forall i | 0 <= i < |avail| ensures AnyIn([key] + alternatives, avail[i].1) <==> AnyIn([key], avail[i].1) || AnyIn(alternatives, avail[i].1) {
      AnyInAppend([key], alternatives, avail[i].1);
    }
  }

  /** A resolved entry is the name of a layout. */
  lemma KeyNamed(names: seq<string>, spell: string -> seq<string>, key: string, alternatives: seq<string>)
    requires !AnyIn([key], spell("")) && !AnyIn(alternatives, spell(""))
    ensures !Falsy(Resolve(Available(names, spell), key, alternatives)) ==>
      Resolve(Available(names, spell), key, alternatives).value in names
  {
    var avail := Available(names, spell);
    AvailableEntries(names, spell);
    ResolveSpec(avail, spell, key, alternatives);
    var r := Resolve(avail, key, alternatives);
    if !Falsy(r) {
      var i :| 0 <= i < |avail| && avail[i].0 == r.value;
    }
  }

  /** An entry stays unset exactly when no layout answers to its key or to
      any of its alternatives. */
  lemma KeyUnset(names: seq<string>, spell: string -> seq<string>, key: string, alternatives: seq<string>)
    requires !AnyIn([key], spell("")) && !AnyIn(alternatives, spell(""))
    ensures Falsy(Resolve(Available(names, spell), key, alternatives)) <==>
      forall n :: n in names ==> !AnyIn([key] + alternatives, spell(n))
  {
    AvailableEntries(names, spell);
    ResolveSpec(Available(names, spell), spell, key, alternatives);
    AnswersByName(names, spell, [key] + alternatives);
  }

  /** Some entry answers to `wanted` exactly when some layout name does. */
  lemma AnswersByName(names: seq<string>, spell: string -> seq<string>, wanted: seq<string>)
    ensures (exists i :: 0 <= i < |Available(names, spell)| && AnyIn(wanted, Available(names, spell)[i].1))
      <==> exists n :: n in names && AnyIn(wanted, spell(n))
  {
    var avail := Available(names, spell);
    AvailableEntries(names, spell);
    if exists n :: n in names && AnyIn(wanted, spell(n)) {
      var n :| n in names && AnyIn(wanted, spell(n));
      AvailableNames(names, spell);
      var i :| 0 <= i < |avail| && avail[i].0 == n;
      assert AnyIn(wanted, avail[i].1);
    }
  }

  /** `map_layouts` fails exactly when, for one of the two entries, no layout
      answers to its key or to any of its alternatives; otherwise both
      entries are names of layouts of the template. */
  lemma LayoutMapSpec(names: seq<string>)
    ensures LayoutMapOf(names).Ok? ==>
      LayoutMapOf(names).value.titleSlide in names && LayoutMapOf(names).value.titleAndContent in names
    ensures LayoutMapOf(names).Err? <==>
      (forall n :: n in names ==> !AnyIn([TitleSlideKey] + TitleSlideAlternatives, Variants(n)))
      || (forall n :: n in names ==> !AnyIn([TitleAndContentKey] + TitleAndContentAlternatives, Variants(n)))
  {
    VariantsEmpty([TitleSlideKey]);
    VariantsEmpty(TitleSlideAlternatives);
    VariantsEmpty([TitleAndContentKey]);
    VariantsEmpty(TitleAndContentAlternatives);
    KeyNamed(names, Variants, TitleSlideKey, TitleSlideAlternatives);
    KeyNamed(names, Variants, TitleAndContentKey, TitleAndContentAlternatives);
    KeyUnset(names, Variants, TitleSlideKey, TitleSlideAlternatives);
    KeyUnset(names, Variants, TitleAndContentKey, TitleAndContentAlternatives);
  }

  /** `map_layouts`. */
  method MapLayouts(names: seq<string>) returns (r: Result<LayoutMap>)
    ensures r == LayoutMapOf(names)
  {
    var avail := BuildAvailable(names);
    var ts, tc := PrimaryPass(avail);
    if Falsy(ts) {
      ts := FallbackPass(avail, TitleSlideAlternatives, ts);
    }
    if Falsy(tc) {
      tc := FallbackPass(avail, TitleAndContentAlternatives, tc);
    }
    if Falsy(ts) || Falsy(tc) {
      return Err(Exit("No suitable layouts found"));
    }
    r := Ok(LayoutMap(ts.value, tc.value));
  }

  /** The first loop of `map_layouts`. */
  method BuildAvailable(names: seq<string>) returns (avail: Dict<string, seq<string>>)
    ensures avail == Available(names, Variants)
  {
    avail := [];
    for i := 0 to |names|
      invariant avail == Available(names[..i], Variants)
    {
      assert names[..i + 1][..i] == names[..i];
      avail := Put(avail, names[i], Variants(names[i]));
    }
    assert names[..|names|] == names;
  }

  /** The second loop of `map_layouts`: every layout, then each of the two keys. */
  method PrimaryPass(avail: Dict<string, seq<string>>) returns (ts: Option<string>, tc: Option<string>)
    ensures ts == LastWith(avail, [TitleSlideKey], None)
    ensures tc == LastWith(avail, [TitleAndContentKey], None)
  {
    ts, tc := None, None;
    for i := 0 to |avail|
      invariant ts == LastWith(avail[..i], [TitleSlideKey], None)
      invariant tc == LastWith(avail[..i], [TitleAndContentKey], None)
    {
      assert avail[..i + 1][..i] == avail[..i];
      var (layout, values) := avail[i];
      AnyInOne(TitleSlideKey, values);
      AnyInOne(TitleAndContentKey, values);
      if TitleSlideKey in values {
        ts := Some(layout);
      }
      if TitleAndContentKey in values {
        tc := Some(layout);
      }
    }
    assert avail[..|avail|] == avail;
  }

  /** A fallback loop of `map_layouts`; the `break` leaves only the loop over
      the alternatives, so a later layout overrides an earlier one. */
  method FallbackPass(avail: Dict<string, seq<string>>, alternatives: seq<string>, init: Option<string>)
    returns (r: Option<string>)
    ensures r == LastWith(avail, alternatives, init)
  {
    r := init;
    for i := 0 to |avail|
      invariant r == LastWith(avail[..i], alternatives, init)
    {
      assert avail[..i + 1][..i] == avail[..i];
      var (layout, values) := avail[i];
      var j := 0;
      while j < |alternatives|
        invariant 0 <= j <= |alternatives|
        invariant !AnyIn(alternatives[..j], values)
        invariant r == LastWith(avail[..i], alternatives, init)
      {
        assert alternatives[..j + 1][..j] == alternatives[..j];
        if alternatives[j] in values {
          r := Some(layout);
          AnyInMembers(alternatives, values);
          break;
        }
        j := j + 1;
      }
      assert j == |alternatives| ==> alternatives[..j] == alternatives;
    }
    assert avail[..|avail|] == avail;
  }

  // ---------------------------------------------------------------------------
  // Runs: every `**`-segment gives a run, the empty ones included

  /** The runs of the segments: one per segment, bold at the odd positions. */
  function AlternateRuns(segs: seq<string>): (runs: seq<Run>)
    ensures |runs| == |segs|
    ensures forall i :: 0 <= i < |segs| ==> runs[i] == SlideAssembly.Run(segs[i], SlideAssembly.Odd(i))
  {
    seq(|segs|, i requires 0 <= i < |segs| => SlideAssembly.Run(segs[i], SlideAssembly.Odd(i)))
  }

  function Texts(runs: seq<Run>): (ts: seq<string>)
    ensures |ts| == |runs| && forall i :: 0 <= i < |runs| ==> ts[i] == runs[i].text
  {
    seq(|runs|, i requires 0 <= i < |runs| => runs[i].text)
  }

  /** The runs hold the text without its separators: their texts, put
      together, are the text with every separator removed. */
  lemma RunsDropSeparators(text: string, sep: string)
    requires |sep| > 0
    ensures Concat(Texts(AlternateRuns(Split(text, sep)))) == Replace(text, sep, "")
  {
    var segs := Split(text, sep);
    assert Texts(AlternateRuns(segs)) == segs;
    JoinEmptyIsConcat(segs);
  }

  /** The run loop of `create_presentation` for one line. */
  method LegacyRuns(text: string) returns (runs: seq<Run>)
    ensures runs == AlternateRuns(Split(text, "**"))
  {
    var segs := Split(text, "**");
    runs := [];
    var bold := false;
    for i := 0 to |segs|
      invariant bold == SlideAssembly.Odd(i)
      invariant |runs| == i && forall j :: 0 <= j < i ==> runs[j] == SlideAssembly.Run(segs[j], SlideAssembly.Odd(j))
    {
      runs := runs + [SlideAssembly.Run(segs[i], bold)];
      bold := !bold;
    }
  }

  /** The paragraph of one content line: a bullet at level 0 exactly when
      the stripped line starts with a dash, no level otherwise. */
  function LegacyParagraph(line: string): (p: Paragraph)
    ensures p.level == Some(0) <==> StartsWith(Strip(line), "-")
    ensures p.level.None? <==> !StartsWith(Strip(line), "-")
  {
    var l := Strip(line);
    if StartsWith(l, "-") then SlideAssembly.Paragraph(Some(0), AlternateRuns(Split(Strip(l[1..]), "**")))
    else SlideAssembly.Paragraph(None, AlternateRuns(Split(l, "**")))
  }

  method LegacyLine(line: string) returns (p: Paragraph)
    ensures p == LegacyParagraph(line)
  {
    var l := Strip(line);
    var text := l;
    var level := None;
    if StartsWith(l, "-") {
      text := Strip(l[1..]);
      level := Some(0);
    }
    var runs := LegacyRuns(text);
    p := SlideAssembly.Paragraph(level, runs);
  }

  /** The cleared text frame followed by one paragraph per content line. */
  function LegacyFrame(lines: seq<string>): (ps: seq<Paragraph>)
    ensures |ps| == |lines| + 1 && ps[0] == SlideAssembly.Paragraph(None, [])
    ensures forall i :: 0 <= i < |lines| ==> ps[i + 1] == LegacyParagraph(lines[i])
  {
    [SlideAssembly.Paragraph(None, [])] + seq(|lines|, i requires 0 <= i < |lines| => LegacyParagraph(lines[i]))
  }

  method LegacyContent(content: Value) returns (frame: seq<Paragraph>)
    ensures frame == LegacyFrame(Items(content))
  {
    var lines := Items(content);
    ghost var want := LegacyFrame(lines);
    frame := [SlideAssembly.Paragraph(None, [])];
    for i := 0 to |lines|
      invariant frame == want[..i + 1]
    {
      var p := LegacyLine(lines[i]);
      SlideAssembly.PrefixNext(want, i + 1, p);
      frame := frame + [p];
    }
    assert want[..|lines| + 1] == want;
  }

  // ---------------------------------------------------------------------------
  // One slide

  /** What the builder takes for one slide: its data, whether the new slide
      has a title placeholder (`slide.shapes.title` is `None` otherwise),
      whether it has a text placeholder of index 1, how many shapes it has and
      whether inserting its picture succeeds. The placeholder of index 1 is
      both the one `slide.placeholders[1]` looks up for the subtitle and the
      one the content search finds. */
  datatype LegacyInput = LegacyInput(data: SlideData, titlePlaceholder: bool, placeholderOne: bool, shapes: nat, pictureOk: bool)

  /** What the placeholder of index 1 shows in the end: the subtitle written
      into it, or the content frame that `text_frame.clear()` wrote over it. */
  datatype Body = Subtitle(text: string) | Content(frame: seq<Paragraph>)

  /** A built slide: the name of its layout, its title, what its placeholder
      of index 1 shows, if anything, its picture if inserted and its notes
      text if written. */
  datatype LegacySlide = LegacySlide(
    layout: string, title: string, body: Option<Body>, picture: Option<string>, notes: Option<string>)

  /** The layout picked for the title parts: the title-slide layout when a
      second part mentions "Title Slide", otherwise the title-and-content layout. */
  function ChosenLayout(titles: seq<string>, m: LayoutMap): string {
    if |titles| > 1 && Contains(titles[1], "Title Slide") then m.titleSlide else m.titleAndContent
  }

  /** The title text: the first part without its leading `#` and spaces, stripped. */
  function TitleText(first: string): (t: string)
    ensures |t| <= |first|
    ensures |t| > 0 ==> !IsSpace(t[0]) && !IsSpace(t[|t| - 1])
  {
    Strip(LStripChars(first, {'#', ' '}))
  }

  /** The heading marks are gone from the title unless whitespace other than
      a plain space hides them from `lstrip("# ")`. */
  lemma TitleTextNoMarks(first: string)
    requires forall k :: 0 <= k < |first| && IsSpace(first[k]) ==> first[k] == ' '
    ensures |TitleText(first)| > 0 ==> TitleText(first)[0] != '#'
  {
    LStripCharsSuffix(first, {'#', ' '});
    var l := LStripChars(first, {'#', ' '});
    StripInfix(l);
    if |l| > 0 {
      assert l[0] == first[|first| - |l|];
      assert !IsSpace(l[0]);
    }
    assert |Strip(l)| > 0 ==> Strip(l)[0] == l[StripStart(l)];
  }

  /** One pass of the slide loop of `create_presentation`: `None` when the
      slide has no title parts and is skipped. Setting the title of a slide
      without a title placeholder raises `AttributeError`; looking up the
      subtitle placeholder of a slide without one raises `KeyError`. */
  function BuildSlide(s: LegacyInput, m: LayoutMap): Result<Option<LegacySlide>> {
    var titles := Items(GetOr(s.data, "title", Lines([])));
    if |titles| == 0 then Ok(None)
    else if !s.titlePlaceholder then Err(AttributeError)
    else
      var layout := ChosenLayout(titles, m);
      var subtitled := layout == m.titleSlide && |titles| > 1;
      if subtitled && !s.placeholderOne then Err(KeyError("1"))
      else
        var content := GetOr(s.data, "content", Lines([]));
        var body :=
          if Len(content) > 0 && s.placeholderOne then Some(Content(LegacyFrame(Items(content))))
          else if subtitled then Some(Subtitle(titles[1]))
          else None;
        match SlideAssembly.ImagesNotes(s.data, s.shapes, s.pictureOk)
        case Err(f) => Err(f)
        case Ok(n) => Ok(Some(LegacySlide(layout, TitleText(titles[0]), body, n.picture, n.text)))
  }

  /** A slide is skipped exactly when it has no title parts. A slide with
      title parts fails on a layout without a title placeholder, and on the
      title-slide layout with a second title part but no placeholder of index
      1. A built slide uses one of the two resolved layouts, the title-slide one
      exactly when its second title part mentions "Title Slide" or both names
      are the same. Its placeholder of index 1 shows the content frame when
      there is content and the placeholder exists, and otherwise the second title part exactly when it
      uses the title-slide layout and has one. */
  lemma BuiltSlide(s: LegacyInput, m: LayoutMap)
    ensures var titles := Items(GetOr(s.data, "title", Lines([])));
      BuildSlide(s, m) == Ok(None) <==> |titles| == 0
    ensures var titles := Items(GetOr(s.data, "title", Lines([])));
      |titles| > 0 && !s.titlePlaceholder ==> BuildSlide(s, m) == Err(AttributeError)
    ensures var titles := Items(GetOr(s.data, "title", Lines([])));
      |titles| > 1 && s.titlePlaceholder && !s.placeholderOne && ChosenLayout(titles, m) == m.titleSlide ==>
        BuildSlide(s, m) == Err(KeyError("1"))
    ensures var titles := Items(GetOr(s.data, "title", Lines([])));
      var content := GetOr(s.data, "content", Lines([]));
      BuildSlide(s, m).Ok? && BuildSlide(s, m).value.Some? ==>
        var b := BuildSlide(s, m).value.value;
        && s.titlePlaceholder
        && b.title == TitleText(titles[0])
        && (b.layout == m.titleSlide <==>
              (|titles| > 1 && Contains(titles[1], "Title Slide")) || m.titleSlide == m.titleAndContent)
        && (b.layout == m.titleSlide || b.layout == m.titleAndContent)
        && (Len(content) > 0 && s.placeholderOne <==> b.body.Some? && b.body.value.Content?)
        && (Len(content) > 0 && s.placeholderOne ==> b.body == Some(Content(LegacyFrame(Items(content)))))
        && (Len(content) == 0 || !s.placeholderOne ==>
              (b.body.Some? <==> b.layout == m.titleSlide && |titles| > 1) &&
              (b.body.Some? ==> b.body.value == Subtitle(titles[1])))
  {
  }

  method BuildOne(s: LegacyInput, m: LayoutMap) returns (r: Result<Option<LegacySlide>>)
    ensures r == BuildSlide(s, m)
  {
    var titles := Items(GetOr(s.data, "title", Lines([])));
    if |titles| == 0 {
      return Ok(None);
    }
    if !s.titlePlaceholder {
      return Err(AttributeError);
    }
    var layout := ChosenLayout(titles, m);
    var title := TitleText(titles[0]);
    var body := None;
    if layout == m.titleSlide && |titles| > 1 {
      if !s.placeholderOne {
        return Err(KeyError("1"));
      }
      body := Some(Subtitle(titles[1]));
    }
    var content := GetOr(s.data, "content", Lines([]));
    if Len(content) > 0 && s.placeholderOne {
      var f := LegacyContent(content);
      body := Some(Content(f));
    }
    match SlideAssembly.ImagesNotes(s.data, s.shapes, s.pictureOk)
    case Err(f) => r := Err(f);
    case Ok(n) => r := Ok(Some(LegacySlide(layout, title, body, n.picture, n.text)));
  }

  // ---------------------------------------------------------------------------
  // The presentation loop

  /** The slides built from the first inputs, the skipped ones left out, or the first failure. */
  function BuildAll(slides: seq<LegacyInput>, m: LayoutMap): Result<seq<LegacySlide>> {
    if |slides| == 0 then Ok([])
    else
      match BuildAll(slides[..|slides| - 1], m)
      case Err(f) => Err(f)
      case Ok(built) =>
        match BuildSlide(slides[|slides| - 1], m)
        case Err(f) => Err(f)
        case Ok(b) => Ok(built + (if b.Some? then [b.value] else []))
  }

  /** The number of inputs that have title parts. */
  function Titled(slides: seq<LegacyInput>): nat {
    if |slides| == 0 then 0
    else Titled(slides[..|slides| - 1]) + (if Len(GetOr(slides[|slides| - 1].data, "title", Lines([]))) > 0 then 1 else 0)
  }

  /** When the loop gets through, it has built one slide per input with title
      parts and no other. */
  lemma {:induction false} BuildAllCount(slides: seq<LegacyInput>, m: LayoutMap)
    ensures BuildAll(slides, m).Ok? ==> |BuildAll(slides, m).value| == Titled(slides)
    decreases |slides|
  {
    if |slides| > 0 {
      BuildAllCount(slides[..|slides| - 1], m);
      BuiltSlide(slides[|slides| - 1], m);
    }
  }

  /** `create_presentation` once the template's layout names and the inputs
      of every slide are known. */
  method CreatePresentation(names: seq<string>, slides: seq<LegacyInput>) returns (r: Result<seq<LegacySlide>>)
    ensures LayoutMapOf(names).Err? ==> r == Err(Exit("No suitable layouts found"))
    ensures LayoutMapOf(names).Ok? ==> r == BuildAll(slides, LayoutMapOf(names).value)
  {
    var m := MapLayouts(names);
    if m.Err? {
      return Err(m.failure);
    }
    r := BuildLoop(slides, m.value);
  }

  /** The slide loop of `create_presentation`. */
  method BuildLoop(slides: seq<LegacyInput>, m: LayoutMap) returns (r: Result<seq<LegacySlide>>)
    ensures r == BuildAll(slides, m)
  {
    var built := [];
    for i := 0 to |slides|
      invariant BuildAll(slides[..i], m) == Ok(built)
    {
      assert slides[..i + 1][..i] == slides[..i];
      var one := BuildOne(slides[i], m);
      if one.Err? {
        assert BuildAll(slides[..i + 1], m) == Err(one.failure);
        BuildAllFails(slides, m, i + 1);
        return Err(one.failure);
      }
      assert BuildAll(slides[..i + 1], m) == Ok(built + (if one.value.Some? then [one.value.value] else []));
      if one.value.Some? {
        built := built + [one.value.value];
      } else {
        assert built + [] == built;
      }
    }
    assert slides[..|slides|] == slides;
    r := Ok(built);
  }

  /** Once the loop fails it stays failed, with the same failure. */
  lemma {:induction false} BuildAllFails(slides: seq<LegacyInput>, m: LayoutMap, n: nat)
    requires n <= |slides| && BuildAll(slides[..n], m).Err?
    ensures BuildAll(slides, m) == BuildAll(slides[..n], m)
    decreases |slides| - n
  {
    if n < |slides| {
      assert slides[..n + 1][..n] == slides[..n];
      BuildAllFails(slides, m, n + 1);
    } else {
      assert slides[..n] == slides;
    }
  }
}
