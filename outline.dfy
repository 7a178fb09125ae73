/** The newer markdown-to-JSON converter: `extract_data` cuts a markdown
    outline into slides, `clean_text` removes link targets, tags and repeated
    lines from a section, and `parse_markdown` routes each slide's body lines
    into its sections and tidies title, subtitle and content. The outline's
    lines are a parameter; the JSON file written at the end is left out. */
module Outline {
  import opened Wrappers
  import opened Strings
  import opened Dicts
  import opened Patterns
  import opened OutlineParts

  // ---------------------------------------------------------------------------
  // `extract_data`

  /** A line with its leading `- `, its `(`…`)` wrapper and its leading `* `
      removed, in that order, restripping after each. */
  function Unwrap(line: string): string {
    var a := if StartsWith(line, "- ") then Strip(line[1..]) else line;
    var b :=
      if StartsWith(a, "(") then
        (var m := Strip(a[1..]); if EndsWith(m, ")") then Strip(m[..|m| - 1]) else m)
      else a;
    if StartsWith(b, "* ") then Strip(b[1..]) else b
  }

  /** Where a heading's text starts: the first character that is not `#`, or
      the last character when all are `#`, where a loop without `break`
      leaves its variable. */
  function HashEnd(line: string): (i: nat)
    requires |line| > 0
    ensures i < |line|
    ensures forall k :: 0 <= k < i ==> line[k] == '#'
    ensures line[i] != '#' || i == |line| - 1
  {
    if |line| == 1 || line[0] != '#' then 0 else 1 + HashEnd(line[1..])
  }

  /** `s[pos:]`, which is empty past the end. */
  function From(s: string, pos: nat): string {
    if pos <= |s| then s[pos..] else ""
  }

  /** The last piece of `s.split(sep)`. */
  function AfterLast(s: string, sep: string): string
    requires |sep| > 0
  {
    var parts := Split(s, sep);
    parts[|parts| - 1]
  }

  /** `s.split(sep)[-1].strip()`: the text after the last `sep`, stripped. */
  function CutAfter(s: string, sep: string): string
    requires |sep| > 0
  {
    Strip(AfterLast(s, sep))
  }

  /** `s[-n:] == suffix` carries over: a suffix of a suffix is a suffix. */
  lemma EndsWithTrans(a: string, b: string, c: string)
    requires EndsWith(a, b) && EndsWith(b, c)
    ensures EndsWith(a, c)
  {
    assert a[|a| - |c|..] == a[|a| - |b|..][|b| - |c|..];
  }

  /** A string that holds `sep` makes every string ending with it hold `sep`. */
  lemma ContainsInSuffix(a: string, b: string, sep: string)
    requires EndsWith(a, b) && Contains(b, sep)
    ensures Contains(a, sep)
  {
    FindSpec(b, sep);
    FindSpec(a, sep);
    var j := Find(b, sep).value;
    var k := |a| - |b| + j;
    assert a[k..k + |sep|] == b[j..j + |sep|];
    assert OccursAt(a, sep, k);
  }

  /** The last piece of a split is the text after the last `sep`: a suffix
      of `s` without `sep`, preceded by `sep` when `s` holds one, and `s`
      itself when it does not. */
  lemma {:induction false} AfterLastSpec(s: string, sep: string)
    requires |sep| > 0
    ensures EndsWith(s, AfterLast(s, sep))
    ensures !Contains(AfterLast(s, sep), sep)
    ensures Contains(s, sep) ==> EndsWith(s, sep + AfterLast(s, sep))
    ensures !Contains(s, sep) ==> AfterLast(s, sep) == s
    decreases |s|
  {
    if Find(s, sep).Some? {
      var i := Find(s, sep).value;
      var rest := s[i + |sep|..];
      AfterLastSpec(rest, sep);
      AfterLastNext(s, sep, i);
      var r := AfterLast(rest, sep);
      EndsWithTrans(s, rest, r);
      if Contains(rest, sep) {
        EndsWithTrans(s, rest, sep + r);
      } else {
        assert EndsWith(s, sep + rest);
      }
    }
  }

  /** Past the first `sep`, the last piece is that of the rest, which `s`
      ends with, preceded by `sep`. */
  lemma AfterLastNext(s: string, sep: string, i: nat)
    requires |sep| > 0 && Find(s, sep) == Some(i)
    ensures AfterLast(s, sep) == AfterLast(s[i + |sep|..], sep)
    ensures EndsWith(s, s[i + |sep|..]) && EndsWith(s, sep + s[i + |sep|..])
  {
    FindSpec(s, sep);
    var rest := s[i + |sep|..];
    assert Split(s, sep) == [s[..i]] + Split(rest, sep);
    assert s[i..i + |sep|] == sep;
    assert s[|s| - |sep + rest|..] == sep + rest;
  }

  /** A string that does not hold `sep` has no suffix that holds it. */
  lemma SuffixAvoids(a: string, b: string, sep: string)
    requires EndsWith(a, b) && !Contains(a, sep)
    ensures !Contains(b, sep)
  {
    if Contains(b, sep) {
      ContainsInSuffix(a, b, sep);
    }
  }

  /** Stripping a suffix of a string that does not end in whitespace only
      drops leading whitespace: the result is a suffix of both. */
  lemma StripSuffix(t: string, r: string)
    requires |t| > 0 ==> !IsSpace(t[|t| - 1])
    requires EndsWith(t, r)
    ensures EndsWith(r, Strip(r)) && EndsWith(t, Strip(r))
  {
    StripInfix(r);
    var i, n := StripStart(r), |Strip(r)|;
    if |r| > 0 {
      assert r[|r| - 1] == t[|t| - 1];
      assert !IsSpace(r[|r| - 1]);
    }
    assert i + n == |r|;
    assert Strip(r) == r[i..];
    EndsWithTrans(t, r, Strip(r));
  }

  /** A cut of a stripped string is a suffix of it without `sep`: the text
      after its last `sep`, stripped, or the whole string when it has none. */
  lemma CutAfterSpec(t: string, sep: string)
    requires |sep| > 0
    requires |t| > 0 ==> !IsSpace(t[0]) && !IsSpace(t[|t| - 1])
    ensures EndsWith(t, CutAfter(t, sep)) && !Contains(CutAfter(t, sep), sep)
    ensures Contains(t, sep) ==> EndsWith(t, sep + AfterLast(t, sep))
    ensures !Contains(t, sep) ==> CutAfter(t, sep) == t
  {
    AfterLastSpec(t, sep);
    var r := AfterLast(t, sep);
    StripSuffix(t, r);
    SuffixAvoids(r, Strip(r), sep);
    if !Contains(t, sep) {
      StripStripped(t);
    }
  }

  /** The width of a slide index, `len("Slide NNN")`. */
  const IndexWidth := 9

  /** The first title rule: cut after the last `:` when one follows the
      `Slide` at `pos`. */
  function ColonRule(title: string, pos: nat): string {
    if Contains(From(title, pos), ":") then CutAfter(title, ":") else title
  }

  /** The second title rule: it tests for ` - ` after the `Slide` at `pos`,
      but cuts after the last en dash ` – `. */
  function DashRule(title: string, pos: nat): string {
    if Contains(From(title, pos), " - ") then CutAfter(title, " \U{2013} ") else title
  }

  /** The title of a heading that names a `Slide` at `pos`: the colon rule,
      then the dash rule. */
  function SlideTitle(title: string, pos: nat): string {
    DashRule(ColonRule(title, pos), pos)
  }

  /** A heading line: its text after the leading `#`s, and, when the text
      names a `Slide`, the nine characters from there as the slide index. The
      title is then cut after its last `:` when one follows the `Slide`; the
      second rule tests for ` - ` but cuts at the en dash ` – `. */
  function HeadingOf(line: string): (k: LineKind)
    requires |line| > 0
    ensures k.Heading?
  {
    var title := Strip(line[HashEnd(line)..]);
    match Find(title, "Slide")
    case None => Heading(title, None)
    case Some(pos) =>
      var index := title[pos..if pos + IndexWidth <= |title| then pos + IndexWidth else |title|];
      Heading(SlideTitle(title, pos), Some(index))
  }

  /** The kind of one line of the outline. */
  function Classify(raw: string): LineKind {
    var line := Strip(raw);
    if StartsWith(line, "```") then Fence
    else if line == "---" || Contains(line, "---") then Separator
    else if Strip(Replace(Replace(Replace(line, "*", ""), "`", ""), "-", "")) == "" then Blank
    else
      var l := Unwrap(line);
      if StartsWith(l, "#") then HeadingOf(l) else Data(l)
  }

  /** `extract_data`: one pass over the lines, counting fences, closing a
      slide at each separator, and filling the current slide's titles, body
      and index. */
  method ExtractData(lines: seq<string>) returns (slides: seq<RawSlide>)
    ensures slides == Slides(Scanned(lines, Classify, true))
  {
    slides := ScanLines(lines, Classify, true);
  }

  /** A line is a separator exactly when, stripped, it is not a fence and
      holds `---`. */
  lemma ClassifySeparator(raw: string)
    ensures Classify(raw) == Separator <==> !StartsWith(Strip(raw), "```") && Contains(Strip(raw), "---")
  {
    var line := Strip(raw);
    if line == "---" {
      assert line[..3] == "---";
    }
  }

  /** The index cut from a title where `Slide` occurs starts with `Slide`
      and has at most nine characters. */
  lemma IndexCut(title: string, pos: nat)
    requires Find(title, "Slide") == Some(pos)
    ensures StartsWith(title[pos..if pos + IndexWidth <= |title| then pos + IndexWidth else |title|], "Slide")
    ensures |title[pos..if pos + IndexWidth <= |title| then pos + IndexWidth else |title|]| <= IndexWidth
  {
    FindSpec(title, "Slide");
    var index := title[pos..if pos + IndexWidth <= |title| then pos + IndexWidth else |title|];
    assert index[..5] == title[pos..pos + 5];
  }

  /** A heading that names a slide gets an index of at most nine characters
      that starts with `Slide`. */
  lemma HeadingIndex(line: string)
    requires |line| > 0 && HeadingOf(line).index.Some?
    ensures StartsWith(HeadingOf(line).index.value, "Slide") && |HeadingOf(line).index.value| <= IndexWidth
  {
    var title := Strip(line[HashEnd(line)..]);
    IndexCut(title, Find(title, "Slide").value);
  }

  /** A colon cut leaves no `:` in the title, whatever the dash rule does after it. */
  lemma ColonCutClean(t: string)
    ensures ':' !in CutAfter(t, ":")
    ensures ':' !in CutAfter(CutAfter(t, ":"), " \U{2013} ")
  {
    SplitPiecesAvoidSep(t, ':');
    var t1 := AfterLast(t, ":");
    assert t1 in Split(t, ":");
    StripChars(t1);
    var s1 := Strip(t1);
    SplitPiecesChars(s1, " \U{2013} ");
    var t2 := AfterLast(s1, " \U{2013} ");
    assert t2 in Split(s1, " \U{2013} ");
    StripChars(t2);
  }

  /** A character missing from a string is missing from its suffixes. */
  lemma SuffixLacks(a: string, b: string, c: char)
    requires EndsWith(a, b) && c !in a
    ensures c !in b
  {
    assert b == a[|a| - |b|..];
  }

  /** The colon rule leaves a suffix of a stripped text: what follows the
      last `:`, stripped and without `:`, when a `:` follows the `Slide`, and
      the whole text otherwise. */
  lemma ColonRuleSpec(title: string, pos: nat)
    requires |title| > 0 ==> !IsSpace(title[0]) && !IsSpace(title[|title| - 1])
    ensures EndsWith(title, ColonRule(title, pos))
    ensures Contains(From(title, pos), ":") ==>
      ColonRule(title, pos) == CutAfter(title, ":") && ':' !in ColonRule(title, pos)
    ensures !Contains(From(title, pos), ":") ==> ColonRule(title, pos) == title
  {
    if Contains(From(title, pos), ":") {
      CutAfterSpec(title, ":");
      ColonCutClean(title);
    } else {
      assert EndsWith(title, title);
    }
  }

  /** The dash rule leaves a suffix of a stripped text: what follows the last
      ` – `, stripped, when a ` - ` follows the `Slide`, and the whole text
      when none does or the text holds no ` – `. */
  lemma DashRuleSpec(t: string, pos: nat)
    requires |t| > 0 ==> !IsSpace(t[0]) && !IsSpace(t[|t| - 1])
    ensures EndsWith(t, DashRule(t, pos))
    ensures Contains(From(t, pos), " - ") ==> DashRule(t, pos) == CutAfter(t, " \U{2013} ")
    ensures !Contains(From(t, pos), " - ") || !Contains(t, " \U{2013} ") ==> DashRule(t, pos) == t
  {
    CutAfterSpec(t, " \U{2013} ");
    if !Contains(From(t, pos), " - ") {
      assert EndsWith(t, t);
    }
  }

  /** A `Slide` heading's title is a suffix of its text. The colon rule
      first keeps what follows the last `:` if a `:` follows the `Slide`
      (leaving no `:`); the dash rule then keeps what follows the last ` – `
      if a ` - ` follows the `Slide`, and keeps the colon rule's result whole
      otherwise or when that result holds no ` – `. */
  lemma SlideTitleSpec(title: string, pos: nat)
    requires |title| > 0 ==> !IsSpace(title[0]) && !IsSpace(title[|title| - 1])
    ensures EndsWith(title, SlideTitle(title, pos))
    ensures Contains(From(title, pos), ":") ==>
      ':' !in SlideTitle(title, pos) && EndsWith(CutAfter(title, ":"), SlideTitle(title, pos))
    ensures var t1 := ColonRule(title, pos);
      && (Contains(From(t1, pos), " - ") ==> SlideTitle(title, pos) == CutAfter(t1, " \U{2013} "))
      && (!Contains(From(t1, pos), " - ") || !Contains(t1, " \U{2013} ") ==> SlideTitle(title, pos) == t1)
  {
    var t1 := ColonRule(title, pos);
    ColonRuleSpec(title, pos);
    DashRuleSpec(t1, pos);
    EndsWithTrans(title, t1, SlideTitle(title, pos));
    if Contains(From(title, pos), ":") {
      SuffixLacks(t1, SlideTitle(title, pos), ':');
    }
  }

  /** A `Slide` heading's title is a suffix of its text. */
  lemma SlideTitleSuffix(title: string, pos: nat)
    requires |title| > 0 ==> !IsSpace(title[0]) && !IsSpace(title[|title| - 1])
    ensures EndsWith(title, SlideTitle(title, pos))
  {
    ColonRuleSpec(title, pos);
    DashRuleSpec(ColonRule(title, pos), pos);
    EndsWithTrans(title, ColonRule(title, pos), SlideTitle(title, pos));
  }

  /** A heading naming no `Slide` keeps its whole text and has no index; one
      naming a `Slide` has an index and the title `SlideTitle` gives, which
      `SlideTitleSpec` describes. */
  lemma HeadingTitle(line: string)
    requires |line| > 0
    ensures var title := Strip(line[HashEnd(line)..]);
      && (Find(title, "Slide").None? ==> HeadingOf(line) == Heading(title, None))
      && (Find(title, "Slide").Some? ==>
            HeadingOf(line).index.Some? && HeadingOf(line).title == SlideTitle(title, Find(title, "Slide").value))
  {
  }

  /** A heading's title is a suffix of its text after the `#`s. */
  lemma HeadingSuffix(line: string)
    requires |line| > 0
    ensures EndsWith(Strip(line[HashEnd(line)..]), HeadingOf(line).title)
  {
    var title := Strip(line[HashEnd(line)..]);
    HeadingTitle(line);
    if Find(title, "Slide").Some? {
      var pos := Find(title, "Slide").value;
      assert EndsWith(title, SlideTitle(title, pos)) by {
        SlideTitleSuffix(title, pos);
      }
    } else {
      assert EndsWith(title, title);
    }
  }

  /** The en-dash rule leaves a title that has no ` – ` as it is, so a title
      with an ASCII ` - ` is never cut. */
  lemma DashRuleKeeps(t: string)
    requires !Contains(t, " \U{2013} ")
    requires |t| > 0 ==> !IsSpace(t[0]) && !IsSpace(t[|t| - 1])
    ensures Strip(AfterLast(t, " \U{2013} ")) == t
  {
    StripStripped(t);
  }

  /** An index a heading line names starts with `Slide`. */
  lemma ClassifyIndex(raw: string)
    requires Classify(raw).Heading? && Classify(raw).index.Some?
    ensures StartsWith(Classify(raw).index.value, "Slide")
  {
    HeadingIndex(Unwrap(Strip(raw)));
  }

  /** Every slide's body lines and titles come from read lines classified as
      such; there is one slide more than separators read. Slide `k` (counted
      from 0) has an index exactly when it has a title; the index starts
      with `Slide`, and is `Slide k+1` unless a read heading names it. */
  lemma ExtractedSpec(lines: seq<string>)
    ensures |Slides(Scanned(lines, Classify, true))| == Separators(lines, Classify) + 1
    ensures forall sl :: sl in Slides(Scanned(lines, Classify, true)) ==> FromLines(sl, lines, Classify, true)
    ensures forall k :: 0 <= k < |Slides(Scanned(lines, Classify, true))| ==>
      var sl := Slides(Scanned(lines, Classify, true))[k];
      && (sl.index != [] <==> sl.title != [])
      && (sl.index != [] ==> StartsWith(sl.index[0], "Slide"))
      && (sl.index != [] ==> sl.index[0] == "Slide " + NatToString(k + 1) || NamedBy(sl.index[0], lines, Classify))
  {
    SlideCount(lines, Classify, true);
    ScannedFromLines(lines, Classify, true);
    ScannedNumbers(lines, Classify);
    var slides := Slides(Scanned(lines, Classify, true));
    forall k | 0 <= k < |slides| && slides[k].index != [] ensures StartsWith(slides[k].index[0], "Slide") {
      IndexNamesSlide(lines, slides[k].index[0], k);
    }
  }

  /** A positional index and one a heading names both start with `Slide`. */
  lemma IndexNamesSlide(lines: seq<string>, x: string, k: nat)
    requires x == "Slide " + NatToString(k + 1) || NamedBy(x, lines, Classify)
    ensures StartsWith(x, "Slide")
  {
    if x != "Slide " + NatToString(k + 1) {
      var i :| 0 <= i < |lines| && ReadAt(lines, Classify, i) && Classify(lines[i]).Heading? && Classify(lines[i]).index == Some(x);
      ClassifyIndex(lines[i]);
    } else {
      assert x[..5] == "Slide";
    }
  }

  // ---------------------------------------------------------------------------
  // `clean_text`

  /** The form a piece is compared by: `*`, backticks, `-` and `#` removed,
      lower-cased, stripped. */
  function Norm(line: string): string {
    Strip(Lower(Replace(Replace(Replace(Replace(line, "*", ""), "`", ""), "-", ""), "#", "")))
  }

  /** The pieces kept: a piece is kept when its normalised form is not empty
      and is not among the pieces kept before it, compared raw. */
  function FirstSeen(pieces: seq<string>, norm: string -> string): (r: seq<string>)
    ensures |r| <= |pieces|
    decreases |pieces|
  {
    if |pieces| == 0 then []
    else
      var r := FirstSeen(pieces[..|pieces| - 1], norm);
      var x := pieces[|pieces| - 1];
      if norm(x) != "" && norm(x) !in r then r + [x] else r
  }

  /** One more piece through the loop: it is kept exactly when its
      normalised form is not empty and not among the pieces kept so far. */
  lemma FirstSeenNext(pieces: seq<string>, i: nat, norm: string -> string, kept: seq<string>)
    requires i < |pieces| && kept == FirstSeen(pieces[..i], norm)
    ensures norm(pieces[i]) != "" && norm(pieces[i]) !in kept ==> FirstSeen(pieces[..i + 1], norm) == kept + [pieces[i]]
    ensures norm(pieces[i]) == "" || norm(pieces[i]) in kept ==> FirstSeen(pieces[..i + 1], norm) == kept
  {
    assert pieces[..i + 1][..i] == pieces[..i];
  }

  /** The kept pieces are a subsequence of the pieces, each with a non-empty
      normalised form that is none of the pieces kept before it; a dropped
      piece has an empty normalised form or one equal to a kept piece. */
  lemma FirstSeenSpec(pieces: seq<string>, norm: string -> string)
    ensures Subsequence(FirstSeen(pieces, norm), pieces)
    ensures forall x :: x in FirstSeen(pieces, norm) ==> norm(x) != ""
    ensures forall i, j :: 0 <= i < j < |FirstSeen(pieces, norm)| ==>
      norm(FirstSeen(pieces, norm)[j]) != FirstSeen(pieces, norm)[i]
    ensures forall x :: x in pieces && norm(x) != "" ==> x in FirstSeen(pieces, norm) || norm(x) in FirstSeen(pieces, norm)
  {
    FirstSeenOrder(pieces, norm);
    FirstSeenFresh(pieces, norm);
    FirstSeenCovers(pieces, norm);
  }

  /** The last piece decides alone whether it is kept. */
  lemma FirstSeenLast(pieces: seq<string>, norm: string -> string)
    requires |pieces| > 0
    ensures var r, x := FirstSeen(pieces[..|pieces| - 1], norm), pieces[|pieces| - 1];
      FirstSeen(pieces, norm) == if norm(x) != "" && norm(x) !in r then r + [x] else r
  {
  }

  /** The kept pieces come from the pieces, in order. */
  lemma {:induction false} FirstSeenOrder(pieces: seq<string>, norm: string -> string)
    ensures Subsequence(FirstSeen(pieces, norm), pieces)
    decreases |pieces|
  {
    if |pieces| > 0 {
      var init, x := pieces[..|pieces| - 1], pieces[|pieces| - 1];
      var r := FirstSeen(init, norm);
      FirstSeenOrder(init, norm);
      FirstSeenLast(pieces, norm);
      assert init + [x] == pieces;
      if norm(x) != "" && norm(x) !in r {
        SubsequenceBoth(r, init, x);
      } else {
        SubsequenceExtend(r, init, x);
      }
    }
  }

  /** The kept pieces have non-empty normalised forms that name no earlier kept piece. */
  lemma {:induction false} FirstSeenFresh(pieces: seq<string>, norm: string -> string)
    ensures forall x :: x in FirstSeen(pieces, norm) ==> norm(x) != ""
    ensures forall i, j :: 0 <= i < j < |FirstSeen(pieces, norm)| ==>
      norm(FirstSeen(pieces, norm)[j]) != FirstSeen(pieces, norm)[i]
    decreases |pieces|
  {
    if |pieces| > 0 {
      FirstSeenFresh(pieces[..|pieces| - 1], norm);
      FirstSeenLast(pieces, norm);
    }
  }

  /** Every piece with a non-empty normalised form is kept, or its normalised form is. */
  lemma {:induction false} FirstSeenCovers(pieces: seq<string>, norm: string -> string)
    ensures forall x :: x in pieces && norm(x) != "" ==> x in FirstSeen(pieces, norm) || norm(x) in FirstSeen(pieces, norm)
    decreases |pieces|
  {
    if |pieces| > 0 {
      var init, x := pieces[..|pieces| - 1], pieces[|pieces| - 1];
      FirstSeenCovers(init, norm);
      FirstSeenLast(pieces, norm);
      assert forall y :: y in pieces <==> y in init || y == x by {
        assert pieces == init + [x];
      }
    }
  }

  /** The quirk of comparing normalised forms with raw pieces: a piece whose
      normalised form differs from it is kept twice when it comes twice. */
  lemma DuplicateKept(pieces: seq<string>, x: string, norm: string -> string)
    requires norm(x) != "" && norm(x) != x && norm(x) !in FirstSeen(pieces, norm)
    ensures FirstSeen(pieces + [x, x], norm) == FirstSeen(pieces, norm) + [x, x]
  {
    assert (pieces + [x, x])[..|pieces| + 1] == pieces + [x];
    assert (pieces + [x])[..|pieces|] == pieces;
  }

  /** The text `clean_text` splits: the lines joined with `||`, then, when
      asked, link targets `[…]` and tags `<…>` removed, then, when asked,
      every `*` removed and the ends stripped. */
  function Cleaned(lines: seq<string>, removeTags: bool, removeMd: bool): string {
    var joined := Join(lines, "||");
    var untagged := if removeTags then SubTags(DropBrackets(joined), "") else joined;
    if removeMd then Strip(Replace(untagged, "*", "")) else untagged
  }

  /** What `clean_text(lines, remove_tags, remove_md)` returns. */
  function Clean(lines: seq<string>, removeTags: bool, removeMd: bool): seq<string> {
    FirstSeen(Split(Cleaned(lines, removeTags, removeMd), "||"), Norm)
  }

  /** `clean_text(lines, remove_tags, remove_md)`. */
  method CleanText(lines: seq<string>, removeTags: bool, removeMd: bool) returns (result: seq<string>)
    ensures result == Clean(lines, removeTags, removeMd)
  {
    var clean := Join(lines, "||");
    if removeTags {
      clean := DropBrackets(clean);
      clean := SubTags(clean, "");
    }
    if removeMd {
      clean := Strip(Replace(clean, "*", ""));
    }
    var pieces := Split(clean, "||");
    result := [];
    var viewed: set<string> := {};
    for i := 0 to |pieces|
      invariant result == FirstSeen(pieces[..i], Norm)
      invariant forall x :: x in viewed <==> x in result
    {
      var line := pieces[i];
      var normalised := Norm(line);
      FirstSeenNext(pieces, i, Norm, result);
      if normalised != "" && normalised !in viewed {
        result := result + [line];
        viewed := viewed + {line};
      }
    }
    assert pieces[..|pieces|] == pieces;
  }

  /** With `remove_md` no kept piece holds a `*`. */
  lemma CleanTextNoStar(lines: seq<string>, removeTags: bool)
    ensures forall x :: x in Clean(lines, removeTags, true) ==> '*' !in x
  {
    var joined := Join(lines, "||");
    var untagged := if removeTags then SubTags(DropBrackets(joined), "") else joined;
    var starless := Replace(untagged, "*", "");
    ReplaceRemovesChar(untagged, '*', "");
    var clean := Strip(starless);
    StripInfix(starless);
    var pieces := Split(clean, "||");
    SplitPiecesChars(clean, "||");
    FirstSeenSpec(pieces, Norm);
    SubsequenceMembers(FirstSeen(pieces, Norm), pieces);
  }

  /** With `remove_tags` no kept piece holds a tag, whether or not the `*`
      are removed and the text stripped afterwards. */
  lemma CleanTextTagless(lines: seq<string>, removeMd: bool)
    ensures forall x :: x in Clean(lines, true, removeMd) ==> Tagless(x)
  {
    var untagged := SubTags(DropBrackets(Join(lines, "||")), "");
    SubTagsTagless(DropBrackets(Join(lines, "||")), "");
    var clean := Cleaned(lines, true, removeMd);
    assert Tagless(clean) by {
      if removeMd {
        var starless := Replace(untagged, "*", "");
        TaglessRemoveChar(untagged, '*');
        StripInfix(starless);
        TaglessInfix(starless, StripStart(starless), StripStart(starless) + |Strip(starless)|);
      }
    }
    var pieces := Split(clean, "||");
    TaglessSplit(clean, "||");
    FirstSeenSpec(pieces, Norm);
    SubsequenceMembers(FirstSeen(pieces, Norm), pieces);
  }

  // ---------------------------------------------------------------------------
  // `parse_markdown`

  /** The marks table: the section classes, in the order they are tried, with
      the tags that open them. */
  const MarkTable: Marks := [
    ("separator", ["---"]),
    ("title", ["title", "t\U{00ED}tulo"]),
    ("visual", ["visual idea", "visual", "visuals"]),
    ("notes", ["speaker notes", "notes", "slide", "sample answer", "solution key", "notas para el presentador", "notas"]),
    ("content", ["text", "content", "subtitle"])
  ]

  /** A slide's title, subtitle and content after the fix-up rules. */
  datatype Heads = Heads(title: Value, subtitle: Value, content: Value)

  /** `v[1:]`. */
  function Rest(v: Value): Value {
    match v
    case Text(s) => Text(if |s| > 0 then s[1..] else "")
    case Lines(l) => Lines(if |l| > 0 then l[1..] else [])
  }

  /** The fix-up rules: without a title the first content line becomes the
      title, as a bare string; a title of two or more items keeps its first
      and gives the rest to the subtitle; a single content line moves to an
      empty subtitle. */
  function Arrange(title: seq<string>, subtitle: seq<string>, content: seq<string>): Heads {
    var t1 := if |title| == 0 && |content| > 0 then Text(content[0]) else Lines(title);
    var c1 := if |title| == 0 && |content| > 0 then content[1..] else content;
    var t2 := if Len(t1) > 1 then Lines([Items(t1)[0]]) else t1;
    var s2 := if Len(t1) > 1 then Rest(t1) else Lines(subtitle);
    if |c1| == 1 && Len(s2) == 0 then Heads(t2, Lines(c1), Lines([])) else Heads(t2, s2, Lines(c1))
  }

  /** After the rules the title has at most one item. A title of several
      lines keeps the first and hands the others to the subtitle; without a
      title, a first content line of several characters is split
      character-wise into a one-character title and the rest as subtitle. A
      single remaining content line ends up as the subtitle when that is
      empty, and the content is then empty. */
  lemma ArrangeSpec(title: seq<string>, subtitle: seq<string>, content: seq<string>)
    ensures Len(Arrange(title, subtitle, content).title) <= 1
    ensures |title| >= 2 ==>
      Arrange(title, subtitle, content).title == Lines([title[0]]) &&
      (Arrange(title, subtitle, content).subtitle == Lines(title[1..]) || (|content| == 1 && Arrange(title, subtitle, content).subtitle == Lines(content)))
    ensures |title| == 0 && |content| > 0 && |content[0]| > 1 ==>
      Arrange(title, subtitle, content).title == Lines([[content[0][0]]]) &&
      Arrange(title, subtitle, content).subtitle == Text(content[0][1..]) &&
      Arrange(title, subtitle, content).content == Lines(content[1..])
    ensures Len(Arrange(title, subtitle, content).content) == 1 ==> Len(Arrange(title, subtitle, content).subtitle) > 0
  {
  }

  /** Cleaning the subtitle, which is still empty, leaves it empty. */
  lemma CleanNothing()
    ensures Clean([], false, true) == []
  {
    assert Cleaned([], false, true) == "";
  }

  /** The sections of a slide's body lines, after routing. */
  function RoutedSections(slide: RawSlide): Sections {
    Routed(slide.data, (line: string) => Tagged(line, MarkTable), Sections(slide.title, [], [], [])).0
  }

  /** The sections dictionary built from a slide's index and routed
      sections with a given cleaner: title and content keep their markdown
      and lose their tags, the others lose their markdown and keep their tags. */
  function SectionsOf(index: seq<string>, routed: Sections, clean: (seq<string>, bool, bool) -> seq<string>): Dict<string, Value> {
    var heads := Arrange(clean(routed.title, true, false), [], clean(routed.content, true, false));
    [("index", Lines(clean(index, false, true))),
     ("title", heads.title),
     ("subtitle", heads.subtitle),
     ("content", heads.content),
     ("visual", Lines(clean(routed.visual, false, true))),
     ("notes", Lines(clean(routed.notes, false, true)))]
  }

  /** The sections dictionary of one slide, as `parse_markdown` yields it. */
  function Parsed(slide: RawSlide): Dict<string, Value> {
    SectionsOf(slide.index, RoutedSections(slide), Clean)
  }

  /** One slide of `parse_markdown`: route the body lines, clean each
      section, apply the fix-up rules. */
  method ParseSlide(slide: RawSlide) returns (sections: Dict<string, Value>)
    ensures sections == Parsed(slide)
  {
    var routed := RouteLines(Sections(slide.title, [], [], []), slide.data, MarkTable);
    var index := CleanText(slide.index, false, true);
    var title := CleanText(routed.title, true, false);
    var subtitle := CleanText([], false, true);
    var content := CleanText(routed.content, true, false);
    var visual := CleanText(routed.visual, false, true);
    var notes := CleanText(routed.notes, false, true);
    CleanNothing();
    var heads := Arrange(title, subtitle, content);
    sections := [("index", Lines(index)), ("title", heads.title), ("subtitle", heads.subtitle),
                 ("content", heads.content), ("visual", Lines(visual)), ("notes", Lines(notes))];
  }

  /** The dictionary has the six sections, in this order, and a title of
      at most one item. */
  lemma SectionsOfShape(index: seq<string>, routed: Sections, clean: (seq<string>, bool, bool) -> seq<string>)
    ensures Keys(SectionsOf(index, routed, clean)) == ["index", "title", "subtitle", "content", "visual", "notes"]
    ensures Len(SectionsOf(index, routed, clean)[1].1) <= 1
  {
    ArrangeSpec(clean(routed.title, true, false), [], clean(routed.content, true, false));
  }

  /** Every slide has the six sections in order and a title of at most one item. */
  lemma ParsedShape(slide: RawSlide)
    ensures Keys(Parsed(slide)) == ["index", "title", "subtitle", "content", "visual", "notes"]
    ensures Len(Parsed(slide)[1].1) <= 1
  {
    SectionsOfShape(slide.index, RoutedSections(slide), Clean);
  }

  /** Speaker notes and visuals never hold a `*`. */
  lemma ParsedNoStar(slide: RawSlide)
    ensures forall x :: x in Items(Parsed(slide)[4].1) ==> '*' !in x
    ensures forall x :: x in Items(Parsed(slide)[5].1) ==> '*' !in x
  {
    var routed := RoutedSections(slide);
    CleanTextNoStar(routed.visual, false);
    CleanTextNoStar(routed.notes, false);
  }

  /** `parse_markdown`: the sections of every slide of the outline, one per
      separator read plus one. */
  method ParseMarkdown(lines: seq<string>) returns (slides: seq<Dict<string, Value>>)
    ensures |slides| == |Slides(Scanned(lines, Classify, true))|
    ensures forall i :: 0 <= i < |slides| ==> slides[i] == Parsed(Slides(Scanned(lines, Classify, true))[i])
  {
    var raw := ExtractData(lines);
    slides := [];
    for i := 0 to |raw|
      invariant |slides| == i
      invariant forall j :: 0 <= j < i ==> slides[j] == Parsed(raw[j])
    {
      var sections := ParseSlide(raw[i]);
      slides := slides + [sections];
    }
  }
}
