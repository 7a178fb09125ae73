/** The transcript cleaner: it reads a WebVTT subtitle file line by line,
    drops blank lines, cue timings and repeated lines, replaces HTML tags by
    spaces, squeezes runs of spaces and prints the remaining text. The newer
    version also insists that the file opens with the WebVTT preamble. The
    file's lines are a parameter; whether the file exists is a parameter too. */
module Transcript {
  import opened Wrappers
  import opened Strings
  import opened Patterns

  /** What marks a cue timing line, such as `00:00:01.000 --> 00:00:04.000`. */
  const Arrow := " --> "

  // ---------------------------------------------------------------------------
  // The `before` comparison both passes make

  /** The last line yielded so far, or the empty line before the first. */
  function LastOr(out: seq<string>): string {
    if |out| == 0 then "" else out[|out| - 1]
  }

  /** The lines kept by a pass that yields a line only when it differs from
      the last one it yielded, starting from the empty line. */
  function Dedup(xs: seq<string>): (out: seq<string>)
    ensures |out| <= |xs|
    decreases |xs|
  {
    if |xs| == 0 then []
    else
      var kept := Dedup(xs[..|xs| - 1]);
      if xs[|xs| - 1] == LastOr(kept) then kept else kept + [xs[|xs| - 1]]
  }

  /** No yielded line repeats the one just before it, and the first is not empty. */
  predicate NoRepeats(out: seq<string>) {
    && (|out| > 0 ==> out[0] != "")
    && forall i :: 0 < i < |out| ==> out[i] != out[i - 1]
  }

  /** The pass keeps no repeats, yields only lines it was given, and loses no
      non-empty line: a dropped line equals the one yielded just before it. */
  lemma {:induction false} DedupSpec(xs: seq<string>)
    ensures NoRepeats(Dedup(xs))
    ensures forall y :: y in Dedup(xs) ==> y in xs
    ensures forall x :: x in xs && x != "" ==> x in Dedup(xs)
    decreases |xs|
  {
    if |xs| > 0 {
      var init := xs[..|xs| - 1];
      DedupSpec(init);
      assert xs == init + [xs[|xs| - 1]];
    }
  }

  /** A sequence without repeats passes unchanged, so the pass is idempotent. */
  lemma {:induction false} DedupOfNoRepeats(xs: seq<string>)
    requires NoRepeats(xs)
    ensures Dedup(xs) == xs
    decreases |xs|
  {
    if |xs| > 0 {
      var init := xs[..|xs| - 1];
      assert NoRepeats(init) by {
        forall i | 0 < i < |init| ensures init[i] != init[i - 1] {
          assert init[i] == xs[i] && init[i - 1] == xs[i - 1];
        }
      }
      DedupOfNoRepeats(init);
      assert xs == init + [xs[|xs| - 1]];
    }
  }

  // ---------------------------------------------------------------------------
  // `filter_lines`

  /** A stripped line the first pass drops whatever came before it. */
  predicate Noise(line: string) {
    line == "" || Contains(line, Arrow)
  }

  /** The lines, each put through `f`, that `drop` does not reject, in order. */
  function Keep(lines: seq<string>, f: string -> string, drop: string -> bool): (s: seq<string>)
    ensures |s| <= |lines|
    decreases |lines|
  {
    if |lines| == 0 then []
    else
      var rest := Keep(lines[..|lines| - 1], f, drop);
      var line := f(lines[|lines| - 1]);
      if drop(line) then rest else rest + [line]
  }

  /** Each kept line is the image of an input line and is not rejected, and
      the image of each input line that is not rejected is kept. */
  lemma {:induction false} KeepSpec(lines: seq<string>, f: string -> string, drop: string -> bool)
    ensures forall l :: l in Keep(lines, f, drop) ==>
      !drop(l) && exists i :: 0 <= i < |lines| && l == f(lines[i])
    ensures forall i :: 0 <= i < |lines| && !drop(f(lines[i])) ==> f(lines[i]) in Keep(lines, f, drop)
    decreases |lines|
  {
    if |lines| > 0 {
      var init := lines[..|lines| - 1];
      KeepSpec(init, f, drop);
      forall l | l in Keep(lines, f, drop) ensures exists i :: 0 <= i < |lines| && l == f(lines[i]) {
        if l in Keep(init, f, drop) {
          var i :| 0 <= i < |init| && l == f(init[i]);
          assert lines[i] == init[i];
        }
      }
      forall i | 0 <= i < |lines| - 1 ensures lines[i] == init[i] { }
    }
  }

  /** One more line through a pass that keeps and then deduplicates. */
  lemma KeepStep(lines: seq<string>, f: string -> string, drop: string -> bool, i: nat)
    requires i < |lines|
    ensures var d, line := Dedup(Keep(lines[..i], f, drop)), f(lines[i]);
      Dedup(Keep(lines[..i + 1], f, drop))
        == if drop(line) || line == LastOr(d) then d else d + [line]
  {
    assert lines[..i + 1][..i] == lines[..i];
    var k, line := Keep(lines[..i], f, drop), f(lines[i]);
    assert Keep(lines[..i + 1], f, drop) == if drop(line) then k else k + [line];
    if !drop(line) {
      assert (k + [line])[..|k|] == k;
    }
  }

  /** One more line through the deduplicating pass: it is yielded exactly
      when it differs from the line yielded last. */
  lemma DedupNext(xs: seq<string>, i: nat, out: seq<string>, x: string)
    requires i < |xs| && out == Dedup(xs[..i]) && x == xs[i]
    ensures x != LastOr(out) ==> Dedup(xs[..i + 1]) == out + [x]
    ensures x == LastOr(out) ==> Dedup(xs[..i + 1]) == out
  {
    assert xs[..i + 1][..i] == xs[..i];
  }

  /** The stripped lines that are neither blank nor cue timings, in order. */
  function Signal(lines: seq<string>): (s: seq<string>)
    ensures |s| <= |lines|
  {
    Keep(lines, Strip, Noise)
  }

  /** One more line through `filter_lines`: it is yielded exactly when it is
      neither noise nor the line yielded last. */
  lemma SignalNext(lines: seq<string>, i: nat, out: seq<string>, line: string)
    requires i < |lines| && out == Dedup(Signal(lines[..i])) && line == Strip(lines[i])
    ensures !Noise(line) && line != LastOr(out) ==> Dedup(Signal(lines[..i + 1])) == out + [line]
    ensures Noise(line) || line == LastOr(out) ==> Dedup(Signal(lines[..i + 1])) == out
  {
    KeepStep(lines, Strip, Noise, i);
  }

  /** `filter_lines`: strip each line; skip it when it is blank, a cue
      timing, or the same as the line yielded last. */
  method FilterLines(lines: seq<string>) returns (out: seq<string>)
    ensures out == Dedup(Signal(lines))
  {
    out := [];
    var before := "";
    for i := 0 to |lines|
      invariant out == Dedup(Signal(lines[..i]))
      invariant before == LastOr(out)
    {
      var line := Strip(lines[i]);
      SignalNext(lines, i, out, line);
      if line != "" && !Contains(line, Arrow) && line != before {
        out := out + [line];
        before := line;
      }
    }
    assert lines[..|lines|] == lines;
  }

  /** What `filter_lines` yields keeps every stripped non-blank, non-timing
      line, never two equal lines in a row, and nothing else. */
  lemma FilteredSpec(lines: seq<string>)
    ensures NoRepeats(Dedup(Signal(lines)))
    ensures forall l :: l in Dedup(Signal(lines)) ==>
      !Noise(l) && exists i :: 0 <= i < |lines| && l == Strip(lines[i])
    ensures forall i :: 0 <= i < |lines| && !Noise(Strip(lines[i])) ==> Strip(lines[i]) in Dedup(Signal(lines))
  {
    KeepSpec(lines, Strip, Noise);
    DedupSpec(Signal(lines));
  }

  // ---------------------------------------------------------------------------
  // `process_lines`

  /** One filtered line with its tags replaced by a space, its runs of spaces
      squeezed to one and its ends stripped. */
  function Plain(line: string): string {
    Strip(Squeeze(SubTags(line, " ")))
  }

  /** The plain form of each filtered line. */
  function Plains(xs: seq<string>): (ps: seq<string>)
    ensures |ps| == |xs|
  {
    seq(|xs|, i requires 0 <= i < |xs| => Plain(xs[i]))
  }

  /** The plain form holds no tag and no double space, is stripped, and
      keeps only characters of the line and spaces. */
  lemma PlainSpec(line: string)
    ensures Tagless(Plain(line)) && NoDoubleSpace(Plain(line))
    ensures |Plain(line)| > 0 ==> !IsSpace(Plain(line)[0]) && !IsSpace(Plain(line)[|Plain(line)| - 1])
    ensures forall c :: c in Plain(line) ==> c in line || c == ' '
  {
    var t := SubTags(line, " ");
    SubTagsTagless(line, " ");
    SubTagsChars(line, " ");
    StrippedSqueeze(t);
  }

  /** Squeezing and stripping a tagless text leaves it tagless, without
      double spaces, and with no new characters. */
  lemma StrippedSqueeze(t: string)
    requires Tagless(t)
    ensures Tagless(Strip(Squeeze(t))) && NoDoubleSpace(Strip(Squeeze(t)))
    ensures forall c :: c in Strip(Squeeze(t)) ==> c in t
  {
    var q := Squeeze(t);
    SqueezeSpec(t);
    TaglessSqueeze(t);
    StripInfix(q);
    var a := StripStart(q);
    TaglessInfix(q, a, a + |Strip(q)|);
    NoDoubleSpaceInfix(q, a, a + |Strip(q)|);
    forall c | c in Strip(q) ensures c in q {
      var k :| 0 <= k < |Strip(q)| && Strip(q)[k] == c;
      assert q[a + k] == c;
    }
  }

  /** An infix of a text without double spaces has none. */
  lemma NoDoubleSpaceInfix(s: string, a: nat, b: nat)
    requires NoDoubleSpace(s) && a <= b <= |s|
    ensures NoDoubleSpace(s[a..b])
  {
    forall i | 0 <= i < b - a - 1 ensures !(s[a..b][i] == ' ' && s[a..b][i + 1] == ' ') {
      assert s[a..b][i] == s[a + i] && s[a..b][i + 1] == s[a + i + 1];
    }
  }

  /** Squeezing spaces cannot bring a `<` and a `>` together into a tag. */
  lemma {:induction false} TaglessSqueeze(s: string)
    requires Tagless(s)
    ensures Tagless(Squeeze(s))
    decreases |s|
  {
    if |s| > 0 {
      var rest := if s[0] == ' ' then LStripChars(s, {' '}) else s[1..];
      if s[0] == ' ' {
        LStripCharsSuffix(s, {' '});
      }
      TaglessInfix(s, |s| - |rest|, |s|);
      assert s[|s| - |rest|..|s|] == rest;
      TaglessSqueeze(rest);
      var t := Squeeze(rest);
      var r := Squeeze(s);
      assert r == [if s[0] == ' ' then ' ' else s[0]] + t;
      if s[0] != '<' {
        TaglessPrefix([r[0]], t);
        assert r == [r[0]] + t;
      } else {
        forall i | 0 < i < |r| ensures TagLength(r[i..]).None? {
          assert r[i..] == t[i - 1..];
          assert TagLength(t[i - 1..]).None?;
        }
        assert TagLength(r[0..]).None? by {
          assert r[0..] == r;
          TagLengthSpec(r);
          TagLengthSpec(s);
          assert s[0..] == s;
          if TagLength(r).Some? {
            SqueezeSpec(rest);
            assert false;
          }
        }
      }
    }
  }

  /** `process_lines`: turn each filtered line into its plain form and skip
      it when it is the same as the line yielded last. */
  method ProcessLines(lines: seq<string>) returns (out: seq<string>)
    ensures out == Dedup(Plains(Dedup(Signal(lines))))
  {
    var filtered := FilterLines(lines);
    ghost var plains := Plains(filtered);
    out := [];
    var before := "";
    for i := 0 to |filtered|
      invariant out == Dedup(plains[..i])
      invariant before == LastOr(out)
    {
      var plainText := Plain(filtered[i]);
      assert plainText == plains[i];
      DedupNext(plains, i, out, plainText);
      if plainText != before {
        out := out + [plainText];
        before := plainText;
      }
    }
    assert plains[..|filtered|] == plains;
  }

  /** Each processed line is the plain form of a stripped input line, holds no
      tag and no double space, is stripped, and differs from the line before it;
      the first is not empty. */
  lemma ProcessedSpec(lines: seq<string>)
    ensures NoRepeats(Dedup(Plains(Dedup(Signal(lines)))))
    ensures forall l :: l in Dedup(Plains(Dedup(Signal(lines)))) ==>
      Tagless(l) && NoDoubleSpace(l) && (|l| > 0 ==> !IsSpace(l[0]) && !IsSpace(l[|l| - 1])) &&
      exists i :: 0 <= i < |lines| && l == Plain(Strip(lines[i]))
  {
    var f := Dedup(Signal(lines));
    var ps := Plains(f);
    FilteredSpec(lines);
    DedupSpec(ps);
    forall l | l in Dedup(ps)
      ensures Tagless(l) && NoDoubleSpace(l) && (|l| > 0 ==> !IsSpace(l[0]) && !IsSpace(l[|l| - 1]))
      ensures exists i :: 0 <= i < |lines| && l == Plain(Strip(lines[i]))
    {
      var k :| 0 <= k < |ps| && ps[k] == l;
      PlainSpec(f[k]);
      assert f[k] in f;
      var i :| 0 <= i < |lines| && f[k] == Strip(lines[i]);
    }
  }

  // ---------------------------------------------------------------------------
  // The program

  /** The markers one of which each preamble line must start with. */
  const Preamble: set<string> := {"WEBVTT", "Kind:", "Language:"}

  lemma PreambleSize()
    ensures |Preamble| == 3
  {
  }

  predicate PreambleLine(line: string) {
    exists p :: p in Preamble && StartsWith(line, p)
  }

  /** The first line that does not start with a preamble marker. */
  function FirstStray(xs: seq<string>): (r: Option<nat>)
    ensures r.Some? ==> r.value < |xs|
    decreases |xs|
  {
    if |xs| == 0 then None
    else
      match FirstStray(xs[..|xs| - 1])
      case Some(k) => Some(k)
      case None => if PreambleLine(xs[|xs| - 1]) then None else Some(|xs| - 1)
  }

  /** The stray line lacks a marker and every line before it has one; there is
      none exactly when every line has one. */
  lemma {:induction false} FirstStraySpec(xs: seq<string>)
    ensures FirstStray(xs).None? <==> forall i :: 0 <= i < |xs| ==> PreambleLine(xs[i])
    ensures FirstStray(xs).Some? ==>
      !PreambleLine(xs[FirstStray(xs).value]) &&
      forall i :: 0 <= i < FirstStray(xs).value ==> PreambleLine(xs[i])
    decreases |xs|
  {
    if |xs| > 0 {
      var init := xs[..|xs| - 1];
      FirstStraySpec(init);
      forall i | 0 <= i < |init| ensures init[i] == xs[i] { }
    }
  }

  /** Once a prefix holds a stray line, every longer prefix has the same first stray line. */
  lemma {:induction false} FirstStrayPrefix(xs: seq<string>, m: nat)
    requires m <= |xs| && FirstStray(xs[..m]).Some?
    ensures FirstStray(xs) == FirstStray(xs[..m])
    decreases |xs|
  {
    if m < |xs| {
      var init := xs[..|xs| - 1];
      assert init[..m] == xs[..m];
      FirstStrayPrefix(init, m);
    } else {
      assert xs[..m] == xs;
    }
  }

  /** The number of preamble lines the program checks. */
  function PreambleCount(processed: seq<string>): nat {
    if |processed| < |Preamble| then |processed| else |Preamble|
  }

  /** What the newer program prints, or the exit it takes: the first three
      lines must each start with a preamble marker and are not printed;
      the others are. */
  function Screened(path: string, processed: seq<string>): Result<seq<string>> {
    var n := PreambleCount(processed);
    match FirstStray(processed[..n])
    case Some(k) => Err(Exit("Input file " + path + " is not a vtt file " + processed[k]))
    case None => Ok(processed[n..])
  }

  /** The program exits exactly when one of the first three lines lacks a
      marker, naming the first such line; otherwise it prints every line
      after the third. */
  lemma ScreenedSpec(path: string, processed: seq<string>)
    ensures Screened(path, processed).Ok? <==>
      forall i :: 0 <= i < 3 && i < |processed| ==> PreambleLine(processed[i])
    ensures Screened(path, processed).Ok? ==>
      Screened(path, processed).value == if |processed| <= 3 then [] else processed[3..]
    ensures Screened(path, processed).Err? ==>
      exists k :: (0 <= k < 3 && k < |processed| && !PreambleLine(processed[k]) &&
        Screened(path, processed).failure == Exit("Input file " + path + " is not a vtt file " + processed[k]))
  {
    PreambleSize();
    var n := PreambleCount(processed);
    FirstStraySpec(processed[..n]);
    forall i | 0 <= i < n ensures processed[..n][i] == processed[i] { }
  }

  /** One more marked line keeps the preamble free of stray lines. */
  lemma PreambleNext(processed: seq<string>, p: nat)
    requires p < |processed| && FirstStray(processed[..p]).None? && PreambleLine(processed[p])
    ensures FirstStray(processed[..p + 1]).None?
  {
    assert processed[..p + 1][..p] == processed[..p];
  }

  /** The newer main loop over the processed lines: count the preamble lines,
      exit on the first that lacks a marker, print the rest. */
  method Screen(path: string, processed: seq<string>) returns (r: Result<seq<string>>)
    ensures r == Screened(path, processed)
  {
    var printed := [];
    var preambleLines := 0;
    for i := 0 to |processed|
      invariant preambleLines == PreambleCount(processed[..i])
      invariant FirstStray(processed[..preambleLines]).None?
      invariant printed == processed[preambleLines..i]
    {
      assert processed[..i + 1][..preambleLines] == processed[..preambleLines];
      var line := processed[i];
      if preambleLines < |Preamble| {
        if !PreambleLine(line) {
          assert processed[..preambleLines + 1][..preambleLines] == processed[..preambleLines];
          assert FirstStray(processed[..preambleLines + 1]) == Some(i);
          PreambleSize();
          FirstStrayPrefix(processed[..PreambleCount(processed)], i + 1);
          assert processed[..PreambleCount(processed)][..i + 1] == processed[..i + 1];
          return Err(Exit("Input file " + path + " is not a vtt file " + line));
        }
        PreambleNext(processed, preambleLines);
        preambleLines := preambleLines + 1;
      } else {
        printed := printed + [line];
      }
    }
    assert processed[..|processed|] == processed;
    r := Ok(printed);
  }

  /** The newer program as written. Its existence guard names the method
      `exists` without calling it, so the guard always passes and a missing
      file fails only when it is opened. */
  function CleanAsWritten(path: string, present: bool, lines: seq<string>): (r: Result<seq<string>>)
    ensures !present ==> r == Err(FileNotFoundError(path))
  {
    if !present then Err(FileNotFoundError(path))
    else Screened(path, Dedup(Plains(Dedup(Signal(lines)))))
  }

  /** A missing file never reaches the intended exit message. */
  lemma MissingFileAsWritten(path: string, lines: seq<string>)
    ensures CleanAsWritten(path, false, lines).Err?
    ensures CleanAsWritten(path, false, lines).failure != Exit("Input file " + path + " does not exist")
  {
  }

  /** The older program as written. Its guard has the same flaw: a missing
      file fails when `process_lines` opens it; otherwise every processed
      line is printed, none equal to the one before it and the first not empty. */
  function LegacyCleanAsWritten(path: string, present: bool, lines: seq<string>): (r: Result<seq<string>>)
    ensures !present ==> r == Err(FileNotFoundError(path))
    ensures present ==> r.Ok? && NoRepeats(r.value) && forall l :: l in r.value ==> l in Plains(Dedup(Signal(lines)))
  {
    if !present then Err(FileNotFoundError(path))
    else
      var plains := Plains(Dedup(Signal(lines)));
      DedupSpec(plains);
      Ok(Dedup(plains))
  }

  /** In the older program too, a missing file never reaches the intended exit message. */
  lemma LegacyMissingFileAsWritten(path: string, lines: seq<string>)
    ensures LegacyCleanAsWritten(path, false, lines).Err?
    ensures LegacyCleanAsWritten(path, false, lines).failure != Exit("Input file " + path + " does not exist")
  {
  }

  /** The newer program with its existence guard in force: a missing file
      exits with the guard's message; otherwise the processed lines are screened. */
  method Clean(path: string, present: bool, lines: seq<string>) returns (r: Result<seq<string>>)
    ensures !present ==> r == Err(Exit("Input file " + path + " does not exist"))
    ensures present ==> r == Screened(path, Dedup(Plains(Dedup(Signal(lines)))))
  {
    if !present {
      return Err(Exit("Input file " + path + " does not exist"));
    }
    var processed := ProcessLines(lines);
    r := Screen(path, processed);
  }

  /** The older program with its existence guard in force: every processed line is printed. */
  method LegacyClean(path: string, present: bool, lines: seq<string>) returns (r: Result<seq<string>>)
    ensures !present ==> r == Err(Exit("Input file " + path + " does not exist"))
    ensures present ==> r == Ok(Dedup(Plains(Dedup(Signal(lines)))))
  {
    if !present {
      return Err(Exit("Input file " + path + " does not exist"));
    }
    var processed := ProcessLines(lines);
    r := Ok(processed);
  }
}
