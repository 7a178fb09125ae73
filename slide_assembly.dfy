/** The slide builder of `src/create_w_template.py`: each slide of the outline
    is matched to a fitted layout, its sections are written into the
    placeholders of that layout, and the sections without a placeholder, as
    well as a picture that could not be inserted, are demoted into the speaker
    notes. Slides, text frames and notes are plain values here; the fit
    scorer's answers (the fitted layouts, which sections got a placeholder)
    and the success of inserting a picture are inputs. */
module SlideAssembly {
  import opened Wrappers
  import opened Strings
  import opened Dicts

  /** The data of one slide: section name to a string or a list of lines. */
  type SlideData = Dict<string, Value>

  /** `on_slide`: the sections that are written onto the slide body. */
  predicate OnSlide(part: string, v: Value) {
    Len(v) > 0 && part !in ["notes", "visual", "index"]
  }

  /** `showed_data`: the slide data restricted to the sections shown on the slide. */
  function Showed(data: SlideData): (r: SlideData)
    ensures forall kv :: kv in r <==> kv in data && OnSlide(kv.0, kv.1)
    ensures UniqueKeys(data) ==> UniqueKeys(r)
  {
    if |data| == 0 then []
    else
      var rest := Showed(data[1..]);
      assert forall kv :: kv in data <==> kv == data[0] || kv in data[1..];
      if OnSlide(data[0].0, data[0].1) then [data[0]] + rest else rest
  }

  // ---------------------------------------------------------------------------
  // Text frames

  datatype Run = Run(text: string, bold: bool)

  /** A paragraph of a text frame; `level` is `Some(0)` where the builder sets
      the level explicitly and `None` where the default is kept. */
  datatype Paragraph = Paragraph(level: Option<nat>, runs: seq<Run>)

  /** What cleaning leaves of a segment: no `*` and no whitespace at either end. */
  predicate Clean(t: string) {
    '*' !in t && (|t| > 0 ==> !IsSpace(t[0]) && !IsSpace(t[|t| - 1]))
  }

  /** A `**`-segment with every `*` turned into a space, then stripped. */
  function CleanSegment(seg: string): (t: string)
    ensures Clean(t)
  {
    var spaced := Replace(seg, "*", " ");
    ReplaceRemovesChar(seg, '*', " ");
    StripChars(spaced);
    Strip(spaced)
  }

  /** The cleaned segments of a line, position by position. */
  function Cleaned(segs: seq<string>): (cl: seq<string>)
    ensures |cl| == |segs|
  {
    if |segs| == 0 then []
    else Cleaned(segs[..|segs| - 1]) + [CleanSegment(segs[|segs| - 1])]
  }

  lemma {:induction false} CleanedAt(segs: seq<string>)
    ensures forall i :: 0 <= i < |segs| ==> Cleaned(segs)[i] == CleanSegment(segs[i])
    ensures forall t :: t in Cleaned(segs) ==> Clean(t)
    decreases |segs|
  {
    if |segs| > 0 {
      var n := |segs| - 1;
      CleanedAt(segs[..n]);
      assert forall i :: 0 <= i < n ==> segs[..n][i] == segs[i];
    }
  }

  /** Whether `n` is odd, counted the way a flag toggled `n` times from false reads. */
  function Odd(n: nat): (b: bool)
    ensures b <==> n % 2 == 1
  {
    if n == 0 then false else !Odd(n - 1)
  }

  /** The runs of a line from its cleaned segments: a blank segment gives
      none, any other its text and a space, bold when its position is odd. */
  function CleanRuns(cl: seq<string>): seq<Run>
  {
    if |cl| == 0 then []
    else
      var n := |cl| - 1;
      CleanRuns(cl[..n]) + (if cl[n] != "" then [Run(cl[n] + " ", Odd(n))] else [])
  }

  /** The runs of a line cut at `**`. */
  function SegmentRuns(segs: seq<string>): seq<Run>
  {
    CleanRuns(Cleaned(segs))
  }

  /** The positions of the non-blank cleaned segments, in increasing order. */
  function Kept(cl: seq<string>): (ix: seq<nat>)
    ensures forall j :: 0 <= j < |ix| ==> ix[j] < |cl| && cl[ix[j]] != ""
    ensures forall j, k :: 0 <= j < k < |ix| ==> ix[j] < ix[k]
    ensures forall i :: 0 <= i < |cl| && cl[i] != "" ==> i in ix
  {
    if |cl| == 0 then []
    else
      var n := |cl| - 1;
      assert forall i :: 0 <= i < n ==> cl[..n][i] == cl[i];
      Kept(cl[..n]) + (if cl[n] != "" then [n] else [])
  }

  /** Run `j` is the run of the `j`-th kept segment: its text is that
      cleaned segment plus one space, and it is bold exactly when the
      segment's position is odd. The bold flag thus toggles at every
      segment, including the blank ones that give no run. */
  lemma {:induction false} CleanRunsKept(cl: seq<string>)
    ensures |CleanRuns(cl)| == |Kept(cl)|
    ensures forall j :: 0 <= j < |Kept(cl)| ==>
      CleanRuns(cl)[j] == Run(cl[Kept(cl)[j]] + " ", Odd(Kept(cl)[j]))
    decreases |cl|
  {
    if |cl| > 0 {
      var n := |cl| - 1;
      var init := cl[..n];
      CleanRunsKept(init);
      var runs, ix := CleanRuns(init), Kept(init);
      var last := if cl[n] != "" then [Run(cl[n] + " ", Odd(n))] else [];
      assert CleanRuns(cl) == runs + last;
      assert Kept(cl) == ix + (if cl[n] != "" then [n] else []);
      forall j | 0 <= j < |ix| ensures CleanRuns(cl)[j] == Run(cl[ix[j]] + " ", Odd(ix[j])) {
        assert CleanRuns(cl)[j] == runs[j];
        assert init[ix[j]] == cl[ix[j]];
      }
    }
  }

  /** No run is empty, none holds a `*`, and each is a stripped word followed
      by exactly one space. */
  lemma RunTexts(segs: seq<string>)
    ensures forall r :: r in SegmentRuns(segs) ==> WordRun(r)
  {
    CleanedAt(segs);
    CleanRunTexts(Cleaned(segs));
  }

  /** A run holding a stripped word without `*`, then one space. */
  predicate WordRun(r: Run) {
    |r.text| >= 2 && '*' !in r.text && r.text[|r.text| - 1] == ' ' &&
    Strip(r.text[..|r.text| - 1]) == r.text[..|r.text| - 1]
  }

  lemma {:induction false} CleanRunTexts(cl: seq<string>)
    requires forall t :: t in cl ==> Clean(t)
    ensures forall r :: r in CleanRuns(cl) ==> WordRun(r)
    decreases |cl|
  {
    if |cl| > 0 {
      var n := |cl| - 1;
      assert forall t :: t in cl[..n] ==> t in cl;
      CleanRunTexts(cl[..n]);
      var t := cl[n];
      if t != "" {
        var r := Run(t + " ", Odd(n));
        assert cl[n] in cl;
        assert r.text[..|r.text| - 1] == t;
        StripStripped(t);
        assert WordRun(r);
      }
    }
  }

  /** The paragraph written for one content line: a bullet at level 0
      exactly when the stripped line starts with a dash, no level otherwise. */
  function LineParagraph(line: string): (p: Paragraph)
    ensures p.level == Some(0) <==> StartsWith(Strip(line), "-")
    ensures p.level.None? <==> !StartsWith(Strip(line), "-")
  {
    var l := Strip(line);
    if StartsWith(l, "-") then Paragraph(Some(0), SegmentRuns(Split(Strip(l[1..]), "**")))
    else Paragraph(None, SegmentRuns(Split(l, "**")))
  }

  /** A text frame after `clear()` keeps one empty paragraph; every content
      line then adds one paragraph after it, in order. */
  function Frame(lines: seq<string>): (ps: seq<Paragraph>)
    ensures |ps| == |lines| + 1 && ps[0] == Paragraph(None, [])
  {
    [Paragraph(None, [])] + Paragraphs(lines)
  }

  /** The paragraph of each content line. */
  function Paragraphs(lines: seq<string>): (ps: seq<Paragraph>)
    ensures |ps| == |lines|
  {
    seq(|lines|, i requires 0 <= i < |lines| => LineParagraph(lines[i]))
  }

  /** A frame built one element at a time: the head, then a prefix of `xs` one longer. */
  lemma FrameNext<T>(head: T, xs: seq<T>, i: nat, x: T)
    requires i < |xs| && x == xs[i]
    ensures [head] + xs[..i] + [x] == [head] + xs[..i + 1]
  {
    assert xs[..i + 1] == xs[..i] + [x];
  }

  /** The runs of `text`, toggling bold at every `**`. */
  method AddRuns(text: string) returns (runs: seq<Run>)
    ensures runs == SegmentRuns(Split(text, "**"))
  {
    runs := ToggleRuns(Split(text, "**"));
  }

  /** The loop of `add_content` over the `**`-segments of one line. */
  method ToggleRuns(segs: seq<string>) returns (runs: seq<Run>)
    ensures runs == SegmentRuns(segs)
  {
    runs := [];
    var bold := false;
    for i := 0 to |segs|
      invariant bold == Odd(i)
      invariant runs == SegmentRuns(segs[..i])
    {
      var t := CleanSegment(segs[i]);
      SegmentRunsNext(segs, i, runs, t);
      if t != "" {
        runs := runs + [Run(t + " ", bold)];
      }
      bold := !bold;
    }
    assert segs[..|segs|] == segs;
  }

  /** One more segment through the loop: a blank one adds no run, any other
      its text and a space, bold when its position is odd. */
  lemma SegmentRunsNext(segs: seq<string>, i: nat, runs: seq<Run>, t: string)
    requires i < |segs| && runs == SegmentRuns(segs[..i]) && t == CleanSegment(segs[i])
    ensures t != "" ==> SegmentRuns(segs[..i + 1]) == runs + [Run(t + " ", Odd(i))]
    ensures t == "" ==> SegmentRuns(segs[..i + 1]) == runs
  {
    assert segs[..i + 1][..i] == segs[..i];
    assert Cleaned(segs[..i + 1]) == Cleaned(segs[..i]) + [t];
    assert (Cleaned(segs[..i]) + [t])[..i] == Cleaned(segs[..i]);
  }

  /** One paragraph of `add_content`. */
  method AddParagraph(line: string) returns (p: Paragraph)
    ensures p == LineParagraph(line)
  {
    var l := Strip(line);
    var text := l;
    var level := None;
    if StartsWith(l, "-") {
      text := Strip(l[1..]);
      level := Some(0);
    }
    var runs := AddRuns(text);
    p := Paragraph(level, runs);
  }

  /** A prefix one element longer. */
  lemma PrefixNext<T>(xs: seq<T>, i: nat, x: T)
    requires i < |xs| && x == xs[i]
    ensures xs[..i] + [x] == xs[..i + 1]
  {
  }

  /** `add_content`: the text frame of a placeholder filled with `content`. */
  method AddContent(content: Value) returns (frame: seq<Paragraph>)
    ensures frame == Frame(Items(content))
  {
    var lines := Items(content);
    ghost var want := Paragraphs(lines);
    frame := [Paragraph(None, [])];
    for i := 0 to |lines|
      invariant frame == [Paragraph(None, [])] + want[..i]
    {
      var p := AddParagraph(lines[i]);
      FrameNext(Paragraph(None, []), want, i, p);
      frame := frame + [p];
    }
    assert want[..|lines|] == want;
  }

  // ---------------------------------------------------------------------------
  // Placing the sections of a slide

  /** The frames written so far (section name and paragraphs, in slide-data
      order) and the slide data as it stands, its notes list extended in place. */
  datatype Placement = Placement(frames: seq<(string, seq<Paragraph>)>, data: SlideData)

  /** What a section without a placeholder adds to the notes. */
  function Block(part: string, v: Value): seq<string> {
    ["Placeholder not found:", part] + Items(v)
  }

  /** One pass of the section loop of `add_slide`. A section without a
      placeholder first reads `slide_data['index']` for its message, then
      extends `slide_data["notes"]`, which must be a list, by a list built
      from the section's value, which must be a list as well. */
  function PlaceSection(placed: set<string>, part: string, v: Value, p: Placement): Result<Placement> {
    if !OnSlide(part, v) then Ok(p)
    else if part in placed then Ok(p.(frames := p.frames + [(part, Frame(Items(v)))]))
    else if !HasKey(p.data, "index") then Err(KeyError("index"))
    else
      match Get<string, Value>(p.data, "notes")
      case None => Err(KeyError("notes"))
      case Some(Text(_)) => Err(AttributeError)
      case Some(Lines(notes)) =>
        if v.Text? then Err(TypeError)
        else Ok(p.(data := Put(p.data, "notes", Lines(notes + Block(part, v)))))
  }

  /** The section loop of `add_slide` over the first `n` entries of `data`. */
  function PlaceSections(data: SlideData, placed: set<string>, n: nat): Result<Placement>
    requires n <= |data|
  {
    if n == 0 then Ok(Placement([], data))
    else
      match PlaceSections(data, placed, n - 1)
      case Err(f) => Err(f)
      case Ok(p) => PlaceSection(placed, data[n - 1].0, data[n - 1].1, p)
  }

  /** A shown section that has no placeholder. */
  predicate Demoted(placed: set<string>, kv: (string, Value)) {
    OnSlide(kv.0, kv.1) && kv.0 !in placed
  }

  /** Independent description of the loop: the frames of the placed sections, in order. */
  function Filled(entries: SlideData, placed: set<string>): seq<(string, seq<Paragraph>)> {
    if |entries| == 0 then []
    else
      var kv := entries[|entries| - 1];
      Filled(entries[..|entries| - 1], placed)
        + (if OnSlide(kv.0, kv.1) && kv.0 in placed then [(kv.0, Frame(Items(kv.1)))] else [])
  }

  /** Independent description of the loop: the notes blocks of the demoted sections, in order. */
  function Demotions(entries: SlideData, placed: set<string>): seq<string> {
    if |entries| == 0 then []
    else
      var kv := entries[|entries| - 1];
      Demotions(entries[..|entries| - 1], placed) + (if Demoted(placed, kv) then Block(kv.0, kv.1) else [])
  }

  /** The notes list of the slide data, when it is one. */
  function NotesList(data: SlideData): seq<string> {
    match Get<string, Value>(data, "notes")
    case Some(Lines(notes)) => notes
    case _ => []
  }

  /** The slide data after the demotions: untouched when nothing is demoted,
      otherwise its notes list extended by the blocks. */
  function Extended(data: SlideData, blocks: seq<string>): SlideData {
    if blocks == [] then data else Put(data, "notes", Lines(NotesList(data) + blocks))
  }

  /** The loop gets through the first `n` entries exactly when every demoted
      section among them can be written to the notes. */
  predicate Demotable(data: SlideData, placed: set<string>, n: nat)
    requires n <= |data|
  {
    forall i :: 0 <= i < n && Demoted(placed, data[i]) ==> NotesOpen(data) && data[i].1.Lines?
  }

  /** Where the notes of the slide data can be extended: the message key is
      there and the notes are a list. */
  predicate NotesOpen(data: SlideData) {
    HasKey(data, "index") && Get(data, "notes").Some? && Get(data, "notes").value.Lines?
  }

  /** Nothing shown is dropped: the loop succeeds exactly when every section
      without a placeholder can be demoted, and then every placed section has
      its frame, in slide-data order, and the notes list has gained the block
      of every other shown section, in slide-data order. */
  lemma {:induction false} PlaceSectionsSummary(data: SlideData, placed: set<string>, n: nat)
    requires UniqueKeys(data) && n <= |data|
    ensures PlaceSections(data, placed, n).Ok? <==> Demotable(data, placed, n)
    ensures PlaceSections(data, placed, n).Ok? ==>
      PlaceSections(data, placed, n).value
        == Placement(Filled(data[..n], placed), Extended(data, Demotions(data[..n], placed)))
  {
    if n > 0 {
      PlaceSectionsSummary(data, placed, n - 1);
      DemotableStep(data, placed, n);
      PrefixStep(data, placed, n);
      if PlaceSections(data, placed, n - 1).Ok? {
        SectionStep(data, placed, n, Filled(data[..n - 1], placed));
      }
    }
  }

  /** One more entry through the loop, from frames and notes blocks so far. */
  lemma SectionStep(data: SlideData, placed: set<string>, n: nat, frames: seq<(string, seq<Paragraph>)>)
    requires UniqueKeys(data) && 0 < n <= |data| && Demotable(data, placed, n - 1)
    requires PlaceSections(data, placed, n - 1).Ok?
    requires PlaceSections(data, placed, n - 1).value == Placement(frames, Extended(data, Demotions(data[..n - 1], placed)))
    ensures var kv, r, ds := data[n - 1], PlaceSections(data, placed, n), Demotions(data[..n - 1], placed);
      && (r.Ok? <==> (!Demoted(placed, kv) || (NotesOpen(data) && kv.1.Lines?)))
      && (r.Ok? ==> r.value == Placement(
           frames + (if OnSlide(kv.0, kv.1) && kv.0 in placed then [(kv.0, Frame(Items(kv.1)))] else []),
           Extended(data, ds + (if Demoted(placed, kv) then Block(kv.0, kv.1) else []))))
  {
    DemotionsFrom(data, placed, n - 1);
    PlaceStep(data, placed, Demotions(data[..n - 1], placed), frames, data[n - 1]);
  }

  /** The frames and notes blocks of `n` entries are those of the first `n - 1` and then those of the last. */
  lemma PrefixStep(data: SlideData, placed: set<string>, n: nat)
    requires 0 < n <= |data|
    ensures var kv := data[n - 1];
      Filled(data[..n], placed)
        == Filled(data[..n - 1], placed) + (if OnSlide(kv.0, kv.1) && kv.0 in placed then [(kv.0, Frame(Items(kv.1)))] else [])
    ensures Demotions(data[..n], placed)
        == Demotions(data[..n - 1], placed) + (if Demoted(placed, data[n - 1]) then Block(data[n - 1].0, data[n - 1].1) else [])
  {
    assert data[..n][..n - 1] == data[..n - 1];
  }

  /** The demotability of `n` entries is that of the first `n - 1` and of the last. */
  lemma DemotableStep(data: SlideData, placed: set<string>, n: nat)
    requires 0 < n <= |data|
    ensures Demotable(data, placed, n) <==>
      Demotable(data, placed, n - 1) && (Demoted(placed, data[n - 1]) ==> NotesOpen(data) && data[n - 1].1.Lines?)
  {
  }

  /** Notes blocks exist only when some section among the entries was demoted. */
  lemma {:induction false} DemotionsFrom(data: SlideData, placed: set<string>, n: nat)
    requires n <= |data| && Demotable(data, placed, n)
    ensures Demotions(data[..n], placed) != [] ==> NotesOpen(data)
  {
    if n > 0 {
      var kv := data[n - 1];
      assert data[..n][..n - 1] == data[..n - 1];
      DemotableStep(data, placed, n);
      DemotionsFrom(data, placed, n - 1);
    }
  }

  /** The slide data after some demotions still has its other keys, and its
      notes list is the old one followed by the blocks. */
  lemma ExtendedGet(data: SlideData, ds: seq<string>)
    requires UniqueKeys(data)
    ensures UniqueKeys(Extended(data, ds))
    ensures HasKey(Extended(data, ds), "index") == HasKey(data, "index")
    ensures ds == [] ==> Extended(data, ds) == data
    ensures ds != [] ==> Get(Extended(data, ds), "notes") == Some(Lines(NotesList(data) + ds))
  {
    if ds != [] {
      var d := Extended(data, ds);
      assert Get(d, "index") == Get(data, "index");
    }
  }

  /** Demoting one more block onto an open notes list extends it once more. */
  lemma ExtendedAppend(data: SlideData, ds: seq<string>, b: seq<string>)
    requires UniqueKeys(data) && NotesOpen(data) && b != []
    ensures Put(Extended(data, ds), "notes", Lines(NotesList(data) + ds + b)) == Extended(data, ds + b)
  {
    var notes := NotesList(data);
    assert notes + ds + b == notes + (ds + b);
    if ds != [] {
      ExtendedTwice(data, notes, ds, b);
    } else {
      assert ds + b == b;
    }
  }

  lemma ExtendedTwice(data: SlideData, notes: seq<string>, ds: seq<string>, b: seq<string>)
    requires UniqueKeys(data) && ds != []
    ensures Put(Put(data, "notes", Lines(notes + ds)), "notes", Lines(notes + ds + b))
      == Put(data, "notes", Lines(notes + ds + b))
  {
    PutTwice(data, "notes", Lines(notes + ds), Lines(notes + ds + b));
  }

  lemma PlaceStep(data: SlideData, placed: set<string>, ds: seq<string>, frames: seq<(string, seq<Paragraph>)>, kv: (string, Value))
    requires UniqueKeys(data)
    requires ds != [] ==> NotesOpen(data)
    ensures var r := PlaceSection(placed, kv.0, kv.1, Placement(frames, Extended(data, ds)));
      && (r.Ok? <==> (!Demoted(placed, kv) || (NotesOpen(data) && kv.1.Lines?)))
      && (r.Ok? ==> r.value == Placement(
           frames + (if OnSlide(kv.0, kv.1) && kv.0 in placed then [(kv.0, Frame(Items(kv.1)))] else []),
           Extended(data, ds + (if Demoted(placed, kv) then Block(kv.0, kv.1) else []))))
  {
    var d := Extended(data, ds);
    ExtendedGet(data, ds);
    if !Demoted(placed, kv) {
      assert ds + [] == ds;
    } else if NotesOpen(data) {
      assert Get(d, "notes") == Some(Lines(NotesList(data) + ds)) by {
        if ds == [] {
          assert NotesList(data) + ds == NotesList(data);
        }
      }
      if kv.1.Lines? {
        ExtendedAppend(data, ds, Block(kv.0, kv.1));
      }
    }
  }

  // ---------------------------------------------------------------------------
  // Pictures and notes

  /** What `add_images_notes` leaves: the slide data (its notes list may have
      grown), the picture inserted, if any, and the notes text written, if any. */
  datatype NotesOutcome = NotesOutcome(data: SlideData, picture: Option<string>, text: Option<string>)

  /** The notes text written for a notes value: nothing when it is empty. */
  function NotesText(notes: Value): (r: Option<string>)
    ensures r.Some? <==> Len(notes) > 0
  {
    if Len(notes) > 0 then Some(Join(Items(notes), "\n")) else None
  }

  /** `add_images_notes`, with `shapes` the number of shapes on the slide and
      `pictureOk` whether inserting the first visual succeeds. On failure the
      notes list is extended by `"Visuals:"` and every visual; when the slide
      data has no notes, that list is a fresh one and the slide data is left as
      it is. A picture is inserted exactly when there are visuals and shapes
      and the insertion succeeds; the notes text written is the newline-join
      of the final notes list, and nothing when that list is empty. */
  function ImagesNotes(data: SlideData, shapes: nat, pictureOk: bool): (r: Result<NotesOutcome>)
    ensures r.Ok? && r.value.picture.Some? ==>
      pictureOk && shapes > 0 && Get(data, "visual").Some? && Len(Get(data, "visual").value) > 0 &&
      r.value.picture.value == Items(Get(data, "visual").value)[0]
    ensures r.Ok? && Len(GetOr(data, "notes", Lines([]))) > 0 ==> r.value.text.Some?
    ensures var notes, visuals := GetOr(data, "notes", Lines([])), GetOr(data, "visual", Lines([]));
      var tried := Len(visuals) > 0 && shapes > 0;
      && (r.Err? <==> tried && !pictureOk && (notes.Text? || visuals.Text?))
      && (r.Ok? ==> (r.value.picture.Some? <==> tried && pictureOk))
      && (r.Ok? && !(tried && !pictureOk) ==> r.value.data == data && r.value.text == NotesText(notes))
      && (r.Ok? && tried && !pictureOk ==>
            r.value.text == Some(Join(notes.lines + ["Visuals:"] + visuals.lines, "\n")) &&
            (HasKey(data, "notes") ==> Get(r.value.data, "notes") == Some(Lines(notes.lines + ["Visuals:"] + visuals.lines))) &&
            (!HasKey(data, "notes") ==> r.value.data == data))
  {
    var notes := GetOr(data, "notes", Lines([]));
    var visuals := GetOr(data, "visual", Lines([]));
    if Len(visuals) > 0 && shapes > 0 then
      if pictureOk then Ok(NotesOutcome(data, Some(Items(visuals)[0]), NotesText(notes)))
      else if notes.Text? then Err(AttributeError)
      else if visuals.Text? then Err(TypeError)
      else
        var extended := Lines(notes.lines + ["Visuals:"] + visuals.lines);
        Ok(NotesOutcome(if HasKey(data, "notes") then Put(data, "notes", extended) else data, None, NotesText(extended)))
    else Ok(NotesOutcome(data, None, NotesText(notes)))
  }

  /** A failed picture puts `"Visuals:"` and every visual after the notes, and
      the notes text splits back into that list when no line holds a newline. */
  lemma FailedPictureNotes(data: SlideData, shapes: nat, notes: seq<string>, visuals: seq<string>)
    requires Get(data, "notes") == Some(Lines(notes)) && Get(data, "visual") == Some(Lines(visuals))
    requires |visuals| > 0 && shapes > 0
    requires forall l :: l in notes + visuals ==> '\n' !in l
    ensures ImagesNotes(data, shapes, false).Ok?
    ensures ImagesNotes(data, shapes, false).value.picture == None
    ensures Get(ImagesNotes(data, shapes, false).value.data, "notes") == Some(Lines(notes + ["Visuals:"] + visuals))
    ensures Split(ImagesNotes(data, shapes, false).value.text.value, "\n") == notes + ["Visuals:"] + visuals
  {
    var all := notes + ["Visuals:"] + visuals;
    forall l | l in all ensures '\n' !in l {
      if l !in notes + visuals {
        assert l == "Visuals:";
      }
    }
    SplitJoinChar(all, '\n');
  }

  /** The whole of `add_slide` once the layout is picked: the section loop, then the pictures and notes. */
  datatype Assembly = Assembly(frames: seq<(string, seq<Paragraph>)>, notes: NotesOutcome)

  function Assemble(data: SlideData, placed: set<string>, shapes: nat, pictureOk: bool): Result<Assembly> {
    match PlaceSections(data, placed, |data|)
    case Err(f) => Err(f)
    case Ok(p) =>
      match ImagesNotes(p.data, shapes, pictureOk)
      case Err(f) => Err(f)
      case Ok(n) => Ok(Assembly(p.frames, n))
  }

  /** A slide as built: the layout picked and the rest of `add_slide`'s effects. */
  datatype Slide<L> = Slide(layout: L, assembly: Assembly)

  /** `add_slide`. `fitted` is the fit scorer's list of layouts for the shown
      sections, `placed` the sections it found a placeholder for, `shapes` the
      number of shapes of the new slide and `pictureOk` whether inserting the
      picture succeeds. The list is shuffled and its first element taken, so
      any element may be used. */
  method AddSlide<L(==)>(data: SlideData, fitted: seq<L>, placed: set<string>, shapes: nat, pictureOk: bool)
    returns (r: Result<Slide<L>>)
    ensures |fitted| == 0 ==> r == Err(IndexError)
    ensures |fitted| > 0 && Assemble(data, placed, shapes, pictureOk).Err? ==>
      r == Err(Assemble(data, placed, shapes, pictureOk).failure)
    ensures |fitted| > 0 && Assemble(data, placed, shapes, pictureOk).Ok? ==>
      r.Ok? && r.value.layout in fitted && r.value.assembly == Assemble(data, placed, shapes, pictureOk).value
  {
    if |fitted| == 0 {
      return Err(IndexError);
    }
    assert fitted[0] in fitted;
    var layout :| layout in fitted;
    var placing := PlaceAll(data, placed);
    match placing
    case Err(f) => r := Err(f);
    case Ok(p) =>
      match ImagesNotes(p.data, shapes, pictureOk)
      case Err(f) => r := Err(f);
      case Ok(n) => r := Ok(Slide(layout, Assembly(p.frames, n)));
  }

  /** The section loop of `add_slide`. */
  method PlaceAll(data: SlideData, placed: set<string>) returns (r: Result<Placement>)
    ensures r == PlaceSections(data, placed, |data|)
  {
    r := Ok(Placement([], data));
    for i := 0 to |data|
      invariant r == PlaceSections(data, placed, i)
    {
      PlaceNext(data, placed, i, r);
      if r.Ok? {
        var (part, v) := data[i];
        var p := r.value;
        if !OnSlide(part, v) {
        } else if part in placed {
          var frame := AddContent(v);
          r := Ok(p.(frames := p.frames + [(part, frame)]));
        } else if !HasKey(p.data, "index") {
          r := Err(KeyError("index"));
        } else {
          match Get<string, Value>(p.data, "notes")
          case None => r := Err(KeyError("notes"));
          case Some(Text(_)) => r := Err(AttributeError);
          case Some(Lines(notes)) =>
            if v.Text? {
              r := Err(TypeError);
            } else {
              r := Ok(p.(data := Put(p.data, "notes", Lines(notes + Block(part, v)))));
            }
        }
      }
    }
  }

  /** One more entry through the section loop: a failure stays, otherwise the entry is placed. */
  lemma PlaceNext(data: SlideData, placed: set<string>, i: nat, r: Result<Placement>)
    requires i < |data| && r == PlaceSections(data, placed, i)
    ensures r.Err? ==> PlaceSections(data, placed, i + 1) == r
    ensures r.Ok? ==> PlaceSections(data, placed, i + 1) == PlaceSection(placed, data[i].0, data[i].1, r.value)
  {
  }

  // ---------------------------------------------------------------------------
  // The alternative notes writer

  /** `add_images_notes_`: every key of the slide data as `"key:"`, followed by its items. */
  function Dump(data: SlideData): seq<string> {
    if |data| == 0 then []
    else Dump(data[..|data| - 1]) + [data[|data| - 1].0 + ":"] + Items(data[|data| - 1].1)
  }

  method DumpNotes(data: SlideData) returns (text: string)
    ensures text == Join(Dump(data), "\n")
  {
    var notes := [];
    for i := 0 to |data|
      invariant notes == Dump(data[..i])
    {
      notes := notes + [data[i].0 + ":"] + Items(data[i].1);
      assert data[..i + 1][..i] == data[..i];
    }
    assert data[..|data|] == data;
    text := Join(notes, "\n");
  }

  /** Every key heads its own block, in dict order: the dump is the key
      headers interleaved with the items, and it has one line per key plus one
      per item. */
  lemma {:induction false} DumpShape(data: SlideData)
    ensures forall i :: 0 <= i < |data| ==> data[i].0 + ":" in Dump(data)
    ensures |Dump(data)| == |data| + ItemCount(data)
    decreases |data|
  {
    if |data| > 0 {
      var init := data[..|data| - 1];
      DumpShape(init);
      forall i | 0 <= i < |data| ensures data[i].0 + ":" in Dump(data) {
        if i < |init| {
          assert init[i] == data[i];
        } else {
          assert Dump(data)[|Dump(init)|] == data[i].0 + ":";
        }
      }
    }
  }

  function ItemCount(data: SlideData): nat {
    if |data| == 0 then 0 else ItemCount(data[..|data| - 1]) + Len(data[|data| - 1].1)
  }

  /** The dump of the first entries is the start of the dump of them all. */
  lemma {:induction false} DumpPrefix(data: SlideData, n: nat)
    requires n <= |data|
    ensures Dump(data[..n]) <= Dump(data)
    decreases |data| - n
  {
    if n < |data| {
      DumpPrefix(data, n + 1);
      assert data[..n + 1][..n] == data[..n];
    } else {
      assert data[..n] == data;
    }
  }

  /** The block of entry `i` starts after the headers and items of the entries
      before it: its `"key:"` header, then exactly its items. */
  predicate BlockAt(data: SlideData, i: nat)
    requires i < |data|
  {
    var off := i + ItemCount(data[..i]);
    off + 1 + Len(data[i].1) <= |Dump(data)|
    && Dump(data)[off] == data[i].0 + ":"
    && Dump(data)[off + 1..off + 1 + Len(data[i].1)] == Items(data[i].1)
  }

  lemma DumpBlock(data: SlideData, i: nat)
    requires i < |data|
    ensures BlockAt(data, i)
  {
    var head := data[..i];
    DumpNext(data, i);
    DumpShape(head);
    DumpPrefix(data, i + 1);
    DumpInto(Dump(head), data[i].0 + ":", Items(data[i].1), Dump(data[..i + 1]), Dump(data));
  }

  /** The dump of the first `i + 1` entries: that of the first `i`, then entry `i`'s block. */
  lemma DumpNext(data: SlideData, i: nat)
    requires i < |data|
    ensures Dump(data[..i + 1]) == Dump(data[..i]) + [data[i].0 + ":"] + Items(data[i].1)
  {
    assert data[..i + 1][..i] == data[..i];
  }

  /** A header and its items placed after `head`, inside a longer sequence. */
  lemma DumpInto(head: seq<string>, header: string, items: seq<string>, block: seq<string>, all: seq<string>)
    requires block == head + [header] + items && block <= all
    ensures |head| + 1 + |items| <= |all| && all[|head|] == header
    ensures all[|head| + 1..|head| + 1 + |items|] == items
  {
    assert block[|head| + 1..] == items;
  }

  /** Every entry's block sits where the entries before it end. */
  lemma DumpBlocks(data: SlideData)
    ensures forall i :: 0 <= i < |data| ==> BlockAt(data, i)
  {
    forall i | 0 <= i < |data| ensures BlockAt(data, i) {
      DumpBlock(data, i);
    }
  }

  // ---------------------------------------------------------------------------
  // The presentation loop

  /** The inputs the model takes for one slide: its data and the fit scorer's
      and the picture insertion's answers for it. */
  datatype SlideInput<L> = SlideInput(data: SlideData, fitted: seq<L>, placed: set<string>, shapes: nat, pictureOk: bool)

  /** The statistics `create_presentation` returns. */
  datatype Stats = Stats(loadedData: nat, newSlides: nat, totalSlides: nat, previousSlides: nat)

  /** Whether `add_slide` raises on a slide. */
  predicate Fails<L>(s: SlideInput<L>) {
    |s.fitted| == 0 || Assemble(s.data, s.placed, s.shapes, s.pictureOk).Err?
  }

  /** The error `add_slide` raises on a failing input: the empty shuffle's
      `IndexError`, otherwise the assembly's. */
  function FailureOf<L>(s: SlideInput<L>): (f: Failure)
    requires Fails(s)
    ensures |s.fitted| == 0 ==> f == IndexError
    ensures |s.fitted| > 0 ==> Assemble(s.data, s.placed, s.shapes, s.pictureOk) == Err(f)
  {
    if |s.fitted| == 0 then IndexError else Assemble(s.data, s.placed, s.shapes, s.pictureOk).failure
  }

  /** The slide `add_slide` builds for an input: a layout among the fitted
      ones, and the assembly of its data. */
  ghost predicate Built<L>(s: SlideInput<L>, slide: Slide<L>) {
    slide.layout in s.fitted
    && Assemble(s.data, s.placed, s.shapes, s.pictureOk).Ok?
    && slide.assembly == Assemble(s.data, s.placed, s.shapes, s.pictureOk).value
  }

  /** What `add_slide` answers for an input: an error exactly when the input fails, otherwise a built slide. */
  lemma SlideOutcome<L>(s: SlideInput<L>, one: Result<Slide<L>>)
    requires |s.fitted| == 0 ==> one == Err(IndexError)
    requires |s.fitted| > 0 && Assemble(s.data, s.placed, s.shapes, s.pictureOk).Err? ==>
      one == Err(Assemble(s.data, s.placed, s.shapes, s.pictureOk).failure)
    requires |s.fitted| > 0 && Assemble(s.data, s.placed, s.shapes, s.pictureOk).Ok? ==>
      one.Ok? && one.value.layout in s.fitted && one.value.assembly == Assemble(s.data, s.placed, s.shapes, s.pictureOk).value
    ensures one.Err? ==> Fails(s) && one.failure == FailureOf(s)
    ensures one.Ok? ==> !Fails(s) && Built(s, one.value)
  {
  }

  /** One more slide built after the first ones. */
  lemma BuiltNext<L>(slides: seq<SlideInput<L>>, built: seq<Slide<L>>, one: Slide<L>)
    requires |built| < |slides| && Built(slides[|built|], one)
    requires forall j :: 0 <= j < |built| ==> !Fails(slides[j]) && Built(slides[j], built[j])
    ensures forall j :: 0 <= j <= |built| ==> !Fails(slides[j]) && Built(slides[j], (built + [one])[j])
  {
  }

  /** The loop of `create_presentation` over the slides of the outline, added
      to a template that already holds `previous` slides. */
  method CreatePresentation<L(==)>(slides: seq<SlideInput<L>>, previous: nat) returns (r: Result<(Stats, seq<Slide<L>>)>)
    ensures r.Err? <==> exists i :: 0 <= i < |slides| && Fails(slides[i])
    ensures r.Err? ==>
      exists i :: (0 <= i < |slides| && Fails(slides[i])
        && (forall j :: 0 <= j < i ==> !Fails(slides[j])) && r.failure == FailureOf(slides[i]))
    ensures r.Ok? ==> r.value.0 == Stats(|slides|, |slides|, previous + |slides|, previous)
    ensures r.Ok? ==> |r.value.1| == |slides| && forall i :: 0 <= i < |slides| ==> Built(slides[i], r.value.1[i])
  {
    var built: seq<Slide<L>> := [];
    var newSlides := 0;
    for i := 0 to |slides|
      invariant newSlides == i == |built|
      invariant forall j :: 0 <= j < i ==> !Fails(slides[j]) && Built(slides[j], built[j])
    {
      var s := slides[i];
      var one := AddSlide(s.data, s.fitted, s.placed, s.shapes, s.pictureOk);
      SlideOutcome(s, one);
      if one.Err? {
        return Err(one.failure);
      }
      BuiltNext(slides, built, one.value);
      built := built + [one.value];
      newSlides := newSlides + 1;
    }
    r := Ok((Stats(|slides|, newSlides, previous + newSlides, previous), built));
  }
}
