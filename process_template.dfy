/** The template reader of `src/process_template.py`: layout names are reduced
    to a sorted tuple of keywords (`simplify_name`), and the layouts of a
    presentation are filed under their keywords (`Layouts`) so that the slide
    builder can ask for the layouts whose keywords are exactly the sections of
    a slide (`get_layouts`). */
module ProcessTemplate {
  import opened Wrappers
  import opened Strings
  import opened Dicts

  // ---------------------------------------------------------------------------
  // The synonym table

  /** The synonym table: each key with the words it replaces, in insertion order. */
  type Synonyms = Dict<string, seq<string>>

  /** The synonyms `simplify_name` applies: each key with the words it replaces. */
  const SynonymTable: Synonyms := [
    ("", ["only", "with", "and", "section"]),
    ("_column", ["_object", "_picture"]),
    ("content", ["description", "text", "picture", "body", "one_column"]),
    ("title", ["big number", "caption", "header", "main point"])
  ]

  /** One rule of the rules text: the comma-separated words, `=`, the key. */
  function RuleLine(rule: (string, seq<string>)): string {
    Join(rule.1, ",") + "=" + rule.0
  }

  function RuleLines(table: Synonyms): (lines: seq<string>)
    ensures |lines| == |table|
    ensures forall i :: 0 <= i < |table| ==> lines[i] == RuleLine(table[i])
  {
    seq(|table|, i requires 0 <= i < |table| => RuleLine(table[i]))
  }

  /** The rules text: one rule per line, between an empty first and an empty last line. */
  function RulesText(table: Synonyms): string {
    Join([""] + RuleLines(table) + [""], "\n")
  }

  /** The triple-quoted rules text of the module: the four lines
      `only,with,and,section=`, `_object,_picture=_column`,
      `description,text,picture,body,one_column=content` and
      `big number,caption,header,main point=title`, each followed by a line break,
      after a leading line break. */
  const ReplacesText: string := RulesText(SynonymTable)

  /** The table built from the first lines of the rules: a line holding `=` must
      split into exactly two pieces (`value, key = line.split("=")` raises
      otherwise) and stores the comma-separated values under the key; a later
      rule for the same key replaces the earlier one. */
  function ParseRules(lines: seq<string>): (r: Result<Synonyms>)
    ensures r.Ok? ==> UniqueKeys(r.value)
    ensures r.Ok? ==> forall i :: 0 <= i < |r.value| ==> |r.value[i].1| >= 1
    decreases |lines|
  {
    if |lines| == 0 then Ok([])
    else
      match ParseRules(lines[..|lines| - 1])
      case Err(f) => Err(f)
      case Ok(table) =>
        var line := lines[|lines| - 1];
        if !Contains(line, "=") then Ok(table)
        else
          var parts := Split(line, "=");
          if |parts| != 2 then Err(ValueError)
          else Ok(Put(table, parts[1], Split(parts[0], ",")))
  }

  /** The module-level loop that builds `repla` from the rules text. */
  method ParseSynonyms(text: string) returns (r: Result<Synonyms>)
    ensures r == ParseRules(Split(text, "\n"))
  {
    var lines := Split(text, "\n");
    r := Ok([]);
    for i := 0 to |lines|
      invariant ParseRules(lines[..i]) == r
    {
      assert lines[..i + 1][..i] == lines[..i];
      var line := lines[i];
      if r.Ok? && Contains(line, "=") {
        var parts := Split(line, "=");
        if |parts| != 2 {
          r := Err(ValueError);
        } else {
          r := Ok(Put(r.value, parts[1], Split(parts[0], ",")));
        }
      }
    }
    assert lines[..|lines|] == lines;
  }

  /** A word of a rule holds none of the separators of the rules text. */
  predicate RuleWord(w: string) {
    ',' !in w && '=' !in w && '\n' !in w
  }

  /** A rule the rules text can carry: at least one word, and no separator inside a word or the key. */
  predicate WellFormedRule(rule: (string, seq<string>)) {
    |rule.1| >= 1 && '=' !in rule.0 && '\n' !in rule.0 && forall w :: w in rule.1 ==> RuleWord(w)
  }

  /** A table the rules text can describe: distinct keys and well-formed rules. */
  predicate WellFormedRules(table: Synonyms) {
    UniqueKeys(table) && forall i :: 0 <= i < |table| ==> WellFormedRule(table[i])
  }

  /** A rule line splits at `=` into its joined words and its key, and the
      joined words split at `,` into the words. */
  lemma RuleLineParts(rule: (string, seq<string>))
    requires WellFormedRule(rule)
    ensures '\n' !in RuleLine(rule)
    ensures Contains(RuleLine(rule), "=")
    ensures Split(RuleLine(rule), "=") == [Join(rule.1, ","), rule.0]
    ensures Split(Join(rule.1, ","), ",") == rule.1
  {
    var values := Join(rule.1, ",");
    JoinChars(rule.1, ",");
    var line := RuleLine(rule);
    assert Join([values, rule.0], "=") == line;
    SplitJoinChar([values, rule.0], '=');
    SplitJoinChar(rule.1, ',');
    assert line[|values|] == '=';
    ContainsChar(line, '=');
    assert '\n' !in "=";
  }

  /** One rule line with a new key read into the table. */
  lemma ParseRuleStep(lines: seq<string>, table: Synonyms, values: string, key: string, words: seq<string>)
    requires |lines| >= 1 && ParseRules(lines[..|lines| - 1]) == Ok(table)
    requires Contains(lines[|lines| - 1], "=")
    requires Split(lines[|lines| - 1], "=") == [values, key]
    requires Split(values, ",") == words
    requires !HasKey(table, key)
    ensures ParseRules(lines) == Ok(table + [(key, words)])
  {
  }

  /** Reading the rules one by one rebuilds the table, rule by rule. */
  lemma {:induction false} ParseRuleLines(table: Synonyms, k: nat)
    requires WellFormedRules(table) && k <= |table|
    ensures ParseRules([""] + RuleLines(table)[..k]) == Ok(table[..k])
  {
    if k == 0 {
      ParseNoRules(table);
    } else {
      ParseRuleLines(table, k - 1);
      ParseNextRule(table, k);
      LastRuleLine(table, k);
    }
  }

  /** The `k`-th rule read after the first `k - 1`. */
  lemma ParseNextRule(table: Synonyms, k: nat)
    requires WellFormedRules(table) && 0 < k <= |table|
    requires ParseRules([""] + RuleLines(table)[..k - 1]) == Ok(table[..k - 1])
    ensures ParseRules([""] + RuleLines(table)[..k - 1] + [RuleLine(table[k - 1])])
      == Ok(table[..k - 1] + [table[k - 1]])
  {
    var prefix := [""] + RuleLines(table)[..k - 1];
    var rule := table[k - 1];
    var lines := prefix + [RuleLine(rule)];
    var prev := table[..k - 1];
    assert !HasKey(prev, rule.0) by {
      assert forall i :: 0 <= i < |prev| ==> prev[i].0 == table[i].0;
    }
    assert lines[..|lines| - 1] == prefix;
    RuleLineParts(rule);
    ParseRuleStep(lines, prev, Join(rule.1, ","), rule.0, rule.1);
  }

  lemma LastRuleLine(table: Synonyms, k: nat)
    requires 0 < k <= |table|
    ensures [""] + RuleLines(table)[..k] == [""] + RuleLines(table)[..k - 1] + [RuleLine(table[k - 1])]
    ensures table[..k] == table[..k - 1] + [table[k - 1]]
  {
  }

  /** The empty first line stores nothing. */
  lemma ParseNoRules(table: Synonyms)
    ensures ParseRules([""] + RuleLines(table)[..0]) == Ok(table[..0])
  {
    ContainsChar("", '=');
    assert ([""] + RuleLines(table)[..0])[..0] == [];
    assert [""] + RuleLines(table)[..0] == [""];
  }

  /** Parsing the rules text of a well-formed table gives the table back. */
  lemma {:induction false} RulesRoundTrip(table: Synonyms)
    requires WellFormedRules(table)
    ensures ParseRules(Split(RulesText(table), "\n")) == Ok(table)
  {
    var lines := [""] + RuleLines(table) + [""];
    forall line | line in lines ensures '\n' !in line {
      if line != "" {
        var i :| 0 <= i < |table| && line == RuleLine(table[i]);
        RuleLineParts(table[i]);
      }
    }
    SplitJoinChar(lines, '\n');
    ParseRuleLines(table, |table|);
    assert RuleLines(table)[..|table|] == RuleLines(table);
    assert lines[..|lines| - 1] == [""] + RuleLines(table)[..|table|];
    ContainsChar("", '=');
    assert table[..|table|] == table;
  }

  lemma Rule0WellFormed()
    ensures WellFormedRule(SynonymTable[0])
  {
    assert RuleWord("only") && RuleWord("with") && RuleWord("and") && RuleWord("section");
  }

  lemma Rule1WellFormed()
    ensures WellFormedRule(SynonymTable[1])
  {
    assert RuleWord("_object") && RuleWord("_picture");
  }

  lemma Rule2WellFormed()
    ensures WellFormedRule(SynonymTable[2])
  {
    assert RuleWord("description") && RuleWord("text") && RuleWord("picture");
    assert RuleWord("body") && RuleWord("one_column");
  }

  lemma Rule3WellFormed()
    ensures WellFormedRule(SynonymTable[3])
  {
    assert RuleWord("big number") && RuleWord("caption") && RuleWord("header") && RuleWord("main point");
  }

  /** The module's table meets the conditions of the round trip. */
  lemma SynonymTableWellFormed()
    ensures WellFormedRules(SynonymTable)
  {
    Rule0WellFormed();
    Rule1WellFormed();
    Rule2WellFormed();
    Rule3WellFormed();
  }

  /** The rules text describes exactly `SynonymTable`: the table `simplify_name` uses. */
  lemma SynonymTableParsed()
    ensures ParseRules(Split(ReplacesText, "\n")) == Ok(SynonymTable)
  {
    SynonymTableWellFormed();
    RulesRoundTrip(SynonymTable);
  }

  // ---------------------------------------------------------------------------
  // simplify_name

  /** The characters `simplify_name` turns into spaces. */
  const BlankedChars: string := "0123456789_-.,"

  /** The number words that are glued to the next word with `_`. */
  const Cardinals: seq<string> := ["one", "two", "three", "four", "five", "six", "seven", "eight", "nine"]

  /** The comma-separated literal the number words are split from:
      `one,two,three,four,five,six,seven,eight,nine`. */
  const CardinalsText: string := Join(Cardinals, ",")

  /** A character a keyword never holds: upper case, digits, `-`, `.` and `,`. */
  predicate Noise(c: char) {
    IsUpper(c) || IsDigit(c) || c == '-' || c == '.' || c == ','
  }

  /** No noise character. */
  predicate Quiet(s: string) {
    forall c :: c in s ==> !Noise(c)
  }

  /** Each character of `cs` in turn replaced by a space. */
  function BlankChars(s: string, cs: string): (r: string)
    ensures forall c :: c in r ==> c in s || c == ' '
    ensures ' ' !in cs ==> forall c :: c in r ==> c !in cs
    decreases |cs|
  {
    if |cs| == 0 then s
    else
      var prev := BlankChars(s, cs[..|cs| - 1]);
      var c := cs[|cs| - 1];
      ReplaceRemovesChar(prev, c, " ");
      ReplaceChars(prev, [c], " ");
      assert forall d :: d in cs[..|cs| - 1] ==> d in cs;
      Replace(prev, [c], " ")
  }

  /** Each number word followed by a space is glued to what follows with `_`. */
  function FuseCardinals(s: string, cards: seq<string>): (r: string)
    ensures Quiet(s) && (forall k :: 0 <= k < |cards| ==> Quiet(cards[k])) ==> Quiet(r)
    decreases |cards|
  {
    if |cards| == 0 then s
    else
      var prev := FuseCardinals(s, cards[..|cards| - 1]);
      var card := cards[|cards| - 1];
      ReplaceChars(prev, card + " ", card + "_");
      if Contains(prev, card + " ") then Replace(prev, card + " ", card + "_") else prev
  }

  /** `name.replace("s ", " ")`: a plural `s` at the end of a word is dropped. */
  function DropPlurals(s: string): (r: string)
    ensures Quiet(s) ==> Quiet(r)
  {
    ReplaceChars(s, "s ", " ");
    Replace(s, "s ", " ")
  }

  /** The words of one synonym rule, in order, replaced by its key where they occur. */
  function ApplyValues(s: string, key: string, values: seq<string>): (r: string)
    requires forall v :: v in values ==> |v| > 0
    ensures Quiet(s) && Quiet(key) ==> Quiet(r)
    decreases |values|
  {
    if |values| == 0 then s
    else
      var prev := ApplyValues(s, key, values[..|values| - 1]);
      var v := values[|values| - 1];
      ReplaceChars(prev, v, key);
      if Contains(prev, v) then Replace(prev, v, key) else prev
  }

  /** Every synonym rule applied, in the table's order. */
  function ApplySynonyms(s: string, table: Synonyms): (r: string)
    requires forall i, v :: 0 <= i < |table| && v in table[i].1 ==> |v| > 0
    ensures Quiet(s) && (forall i :: 0 <= i < |table| ==> Quiet(table[i].0)) ==> Quiet(r)
    decreases |table|
  {
    if |table| == 0 then s
    else
      var prev := ApplySynonyms(s, table[..|table| - 1]);
      ApplyValues(prev, table[|table| - 1].0, table[|table| - 1].1)
  }

  /** `x.strip()` of each piece. */
  function Stripped(pieces: seq<string>): (r: seq<string>)
    ensures |r| == |pieces|
    ensures forall i :: 0 <= i < |pieces| ==> r[i] == Strip(pieces[i])
  {
    seq(|pieces|, i requires 0 <= i < |pieces| => Strip(pieces[i]))
  }

  /** The non-empty strings of a list, in order. */
  function NonEmpty(xs: seq<string>): (r: seq<string>)
    ensures forall t :: t in r <==> t in xs && t != ""
  {
    if |xs| == 0 then []
    else
      var rest := NonEmpty(xs[1..]);
      assert forall t :: t in xs <==> t == xs[0] || t in xs[1..];
      if xs[0] == "" then rest else [xs[0]] + rest
  }

  /** `sorted(set(x.strip() for x in s.split(" ") if x.strip()))`. */
  function Keywords(s: string): (r: seq<string>)
    ensures StrictlySorted(r)
    ensures forall t :: t in r <==> t in Stripped(Split(s, " ")) && t != ""
  {
    SortUnique(NonEmpty(Stripped(Split(s, " "))))
  }

  /** The keyword tuple of a layout name. */
  function SimplifiedName(name: string): seq<string> {
    var blanked := BlankChars(Lower(name), BlankedChars);
    var fused := FuseCardinals(Strip(blanked) + " ", Cardinals);
    SynonymWords();
    Keywords(ApplySynonyms(DropPlurals(fused), SynonymTable))
  }

  /** Every word of the synonym table has at least two characters. */
  lemma SynonymWords()
    ensures forall i, v :: 0 <= i < |SynonymTable| && v in SynonymTable[i].1 ==> |v| >= 2
  {
  }

  /** The first loop of `simplify_name`: each character of `cs` becomes a space. */
  method BlankAll(s0: string, cs: string) returns (s: string)
    ensures s == BlankChars(s0, cs)
  {
    s := s0;
    for i := 0 to |cs|
      invariant s == BlankChars(s0, cs[..i])
    {
      assert cs[..i + 1][..i] == cs[..i];
      s := Replace(s, [cs[i]], " ");
    }
    assert cs[..|cs|] == cs;
  }

  /** The second loop: each number word is glued to the next word. */
  method GlueCardinals(s0: string, cards: seq<string>) returns (s: string)
    ensures s == FuseCardinals(s0, cards)
  {
    s := s0;
    for i := 0 to |cards|
      invariant s == FuseCardinals(s0, cards[..i])
    {
      assert cards[..i + 1][..i] == cards[..i];
      var card := cards[i];
      if Contains(s, card + " ") {
        s := Replace(s, card + " ", card + "_");
      }
    }
    assert cards[..|cards|] == cards;
  }

  /** The nested loop: every word of every rule replaced by the rule's key. */
  method ReplaceSynonyms(s0: string, table: Synonyms) returns (s: string)
    requires forall i, v :: 0 <= i < |table| && v in table[i].1 ==> |v| > 0
    ensures s == ApplySynonyms(s0, table)
  {
    s := s0;
    for i := 0 to |table|
      invariant s == ApplySynonyms(s0, table[..i])
    {
      assert table[..i + 1][..i] == table[..i];
      var (key, values) := table[i];
      var start := s;
      for j := 0 to |values|
        invariant s == ApplyValues(start, key, values[..j])
      {
        assert values[..j + 1][..j] == values[..j];
        var value := values[j];
        if Contains(s, value) {
          s := Replace(s, value, key);
        }
      }
      assert values[..|values|] == values;
    }
    assert table[..|table|] == table;
  }

  /** `simplify_name`, loop by loop as the source runs it. */
  method SimplifyName(name: string) returns (words: seq<string>)
    ensures words == SimplifiedName(name)
  {
    var s := Lower(name);
    s := BlankAll(s, BlankedChars);
    s := Strip(s) + " ";
    var cards := Split(CardinalsText, ",");
    CardinalsSplit();
    s := GlueCardinals(s, cards);
    s := Replace(s, "s ", " ");
    SynonymWords();
    s := ReplaceSynonyms(s, SynonymTable);
    words := Keywords(s);
  }

  /** The number words split back out of their comma-separated literal. */
  lemma CardinalsSplit()
    ensures Split(CardinalsText, ",") == Cardinals
  {
    assert ',' !in "one" && ',' !in "two" && ',' !in "three";
    assert ',' !in "four" && ',' !in "five" && ',' !in "six";
    assert ',' !in "seven" && ',' !in "eight" && ',' !in "nine";
    SplitJoinChar(Cardinals, ',');
  }

  // ---------------------------------------------------------------------------
  // What a keyword tuple looks like

  /** Each keyword is a non-empty word without spaces at its ends or inside,
      and holds only characters of the string it was cut from. */
  lemma {:induction false} KeywordsShape(s: string)
    ensures forall t :: t in Keywords(s) ==>
      t != "" && ' ' !in t && Strip(t) == t && forall c :: c in t ==> c in s
  {
    var pieces := Split(s, " ");
    SplitPiecesAvoidSep(s, ' ');
    SplitPiecesChars(s, " ");
    forall t | t in Keywords(s)
      ensures t != "" && ' ' !in t && Strip(t) == t && forall c :: c in t ==> c in s
    {
      var i :| 0 <= i < |pieces| && Stripped(pieces)[i] == t;
      assert pieces[i] in pieces;
      StripChars(pieces[i]);
      StripStripped(t);
    }
  }

  /** Every character `simplify_name` does not blank is either kept lower-case
      or is not noise to begin with. */
  lemma NoiseIsBlanked(c: char)
    requires Noise(c) && !IsUpper(c)
    ensures c in BlankedChars
  {
    if IsDigit(c) {
      assert BlankedChars[c as int - '0' as int] == c;
    } else {
      assert BlankedChars[11] == '-' && BlankedChars[12] == '.' && BlankedChars[13] == ',';
    }
  }

  lemma CardinalsQuiet()
    ensures forall k :: 0 <= k < |Cardinals| ==> Quiet(Cardinals[k])
  {
    assert Quiet("one") && Quiet("two") && Quiet("three");
    assert Quiet("four") && Quiet("five") && Quiet("six");
    assert Quiet("seven") && Quiet("eight") && Quiet("nine");
  }

  lemma SynonymKeysQuiet()
    ensures forall i :: 0 <= i < |SynonymTable| ==> Quiet(SynonymTable[i].0)
  {
    assert Quiet("") && Quiet("_column") && Quiet("content") && Quiet("title");
  }

  /** The blanked, stripped name with its trailing space holds no noise. */
  lemma BlankedQuiet(name: string)
    ensures Quiet(Strip(BlankChars(Lower(name), BlankedChars)) + " ")
  {
    var blanked := BlankChars(Lower(name), BlankedChars);
    forall c | c in blanked ensures !Noise(c) {
      if Noise(c) {
        NoiseIsBlanked(c);
        assert false;
      }
    }
    StripChars(blanked);
  }

  /** A keyword tuple is strictly sorted, and its keywords are non-empty,
      space-free, lower-case, and free of digits, `-`, `.` and `,`. */
  lemma {:induction false} SimplifiedNameShape(name: string)
    ensures StrictlySorted(SimplifiedName(name))
    ensures forall t :: t in SimplifiedName(name) ==> t != "" && ' ' !in t && Strip(t) == t && Quiet(t)
  {
    BlankedQuiet(name);
    CardinalsQuiet();
    SynonymKeysQuiet();
    SynonymWords();
    var base := Strip(BlankChars(Lower(name), BlankedChars)) + " ";
    var s := ApplySynonyms(DropPlurals(FuseCardinals(base, Cardinals)), SynonymTable);
    assert Quiet(s);
    KeywordsShape(s);
  }

  /** Gluing finds nothing to glue in a one-character string. */
  lemma {:induction false} FuseShort(s: string, cards: seq<string>)
    requires |s| == 1
    requires forall k :: 0 <= k < |cards| ==> |cards[k]| >= 1
    ensures FuseCardinals(s, cards) == s
    decreases |cards|
  {
    if |cards| > 0 {
      FuseShort(s, cards[..|cards| - 1]);
      var card := cards[|cards| - 1];
      if Contains(s, card + " ") {
        ContainsLength(s, card + " ");
      }
    }
  }

  /** No synonym of two or more characters occurs in a one-character string. */
  lemma {:induction false} ApplyValuesShort(s: string, key: string, values: seq<string>)
    requires |s| == 1
    requires forall v :: v in values ==> |v| >= 2
    ensures ApplyValues(s, key, values) == s
    decreases |values|
  {
    if |values| > 0 {
      ApplyValuesShort(s, key, values[..|values| - 1]);
      var v := values[|values| - 1];
      if Contains(s, v) {
        ContainsLength(s, v);
      }
    }
  }

  lemma {:induction false} ApplySynonymsShort(s: string, table: Synonyms)
    requires |s| == 1
    requires forall i, v :: 0 <= i < |table| && v in table[i].1 ==> |v| >= 2
    ensures ApplySynonyms(s, table) == s
    decreases |table|
  {
    if |table| > 0 {
      ApplySynonymsShort(s, table[..|table| - 1]);
      ApplyValuesShort(s, table[|table| - 1].0, table[|table| - 1].1);
    }
  }

  lemma FirstChar(t: string)
    requires t != ""
    ensures t[0] in t
  {
  }

  lemma BlankedNotUpper(c: char)
    requires IsSpace(c) || c in BlankedChars
    ensures !IsUpper(c)
  {
  }

  /** A string of spaces has no keywords. */
  lemma KeywordsOfSpaces(s: string)
    requires forall c :: c in s ==> c == ' '
    ensures Keywords(s) == []
  {
    KeywordsShape(s);
    var r := Keywords(s);
    if |r| > 0 {
      assert r[0] in r;
      FirstChar(r[0]);
      assert false;
    }
  }

  /** Blanking such a name leaves only whitespace, which strips to nothing. */
  lemma BlankNameBlanked(name: string)
    requires forall c :: c in name ==> IsSpace(c) || c in BlankedChars
    ensures Strip(BlankChars(Lower(name), BlankedChars)) == ""
  {
    var lowered := Lower(name);
    forall c | c in lowered ensures IsSpace(c) || c in BlankedChars {
      var i :| 0 <= i < |lowered| && lowered[i] == c;
      assert name[i] in name;
      BlankedNotUpper(name[i]);
    }
    var blanked := BlankChars(lowered, BlankedChars);
    forall k | 0 <= k < |blanked| ensures IsSpace(blanked[k]) {
      assert blanked[k] in blanked;
    }
    StripEmpty(blanked);
  }

  /** A name made only of whitespace, digits, `_`, `-`, `.` and `,` has no
      keywords at all (a layout such as `1.` or `--`). */
  lemma {:induction false} BlankNameHasNoKeywords(name: string)
    requires forall c :: c in name ==> IsSpace(c) || c in BlankedChars
    ensures SimplifiedName(name) == []
  {
    BlankNameBlanked(name);
    var base := Strip(BlankChars(Lower(name), BlankedChars)) + " ";
    SpaceHasNoKeywords(base);
  }

  /** The single space left of such a name survives every rewriting step and has no keywords. */
  lemma SpaceHasNoKeywords(base: string)
    requires base == " "
    ensures Keywords(ApplySynonyms(DropPlurals(FuseCardinals(base, Cardinals)), SynonymTable)) == []
  {
    assert FuseCardinals(base, Cardinals) == base by {
      CardinalsQuiet();
      FuseShort(base, Cardinals);
    }
    assert DropPlurals(base) == base by {
      if Contains(base, "s ") {
        ContainsLength(base, "s ");
      }
      ReplaceAbsent(base, "s ", " ");
    }
    assert ApplySynonyms(base, SynonymTable) == base by {
      SynonymWords();
      ApplySynonymsShort(base, SynonymTable);
    }
    KeywordsOfSpaces(base);
  }

  // ---------------------------------------------------------------------------
  // The layout catalog

  /** What the catalog needs of a slide layout of the template. */
  datatype LayoutRecord = LayoutRecord(name: string, shapes: nat, placeholders: nat)

  /** Which collection of the template a layout was found in. */
  datatype Origin = SlideMasters | SlideLayouts

  /** A catalog entry: the layout, its collection and its position there. */
  datatype Entry = Entry(layout: LayoutRecord, origin: Origin, index: nat)

  /** The catalog: keyword tuple to entries, in insertion order. */
  type Catalog = Dict<seq<string>, seq<Entry>>

  /** A layout with neither shapes nor placeholders is skipped. */
  predicate Usable(l: LayoutRecord) {
    !(l.shapes == 0 && l.placeholders == 0)
  }

  /** The layouts in the order the catalog visits them: the first layout of each
      slide master, then every slide layout, each with its position. */
  function Visits(masters: seq<LayoutRecord>, layouts: seq<LayoutRecord>): (es: seq<Entry>)
    ensures |es| == |masters| + |layouts|
    ensures forall k :: 0 <= k < |masters| ==> es[k] == Entry(masters[k], SlideMasters, k)
    ensures forall k :: 0 <= k < |layouts| ==> es[|masters| + k] == Entry(layouts[k], SlideLayouts, k)
  {
    seq(|masters|, k requires 0 <= k < |masters| => Entry(masters[k], SlideMasters, k)) +
    seq(|layouts|, k requires 0 <= k < |layouts| => Entry(layouts[k], SlideLayouts, k))
  }

  /** One visited entry: a usable layout is appended to the list of its
      keyword tuple (`map[key].append(...)`), any other is skipped. */
  function Filed(m: Catalog, e: Entry): Catalog {
    if Usable(e.layout) then
      var key := SimplifiedName(e.layout.name);
      Put(m, key, GetOr(m, key, []) + [e])
    else m
  }

  /** The catalog after visiting `es`. */
  function Index(es: seq<Entry>): (m: Catalog)
    ensures UniqueKeys(m)
  {
    if |es| == 0 then [] else Filed(Index(es[..|es| - 1]), es[|es| - 1])
  }

  /** One more entry visited. */
  lemma IndexNext(es: seq<Entry>, k: nat, m: Catalog, e: Entry)
    requires k < |es| && m == Index(es[..k]) && e == es[k]
    ensures Filed(m, e) == Index(es[..k + 1])
  {
    assert es[..k + 1][..k] == es[..k];
  }

  /** The usable entries of `es` whose keyword tuple is `key`, in order. */
  function Bucket(es: seq<Entry>, key: seq<string>): (r: seq<Entry>)
    ensures forall e :: e in r <==> e in es && Usable(e.layout) && SimplifiedName(e.layout.name) == key
  {
    if |es| == 0 then []
    else
      var e := es[|es| - 1];
      assert forall x :: x in es <==> x in es[..|es| - 1] || x == e by {
        assert es == es[..|es| - 1] + [e];
      }
      Bucket(es[..|es| - 1], key) +
        (if Usable(e.layout) && SimplifiedName(e.layout.name) == key then [e] else [])
  }

  /** The catalog files under each keyword tuple exactly the usable entries
      with that tuple, in visiting order; a tuple is present iff it has one. */
  lemma IndexBuckets(es: seq<Entry>)
    ensures forall key :: Get(Index(es), key) == if Bucket(es, key) == [] then None else Some(Bucket(es, key))
  {
    forall key ensures Get(Index(es), key) == if Bucket(es, key) == [] then None else Some(Bucket(es, key)) {
      IndexBucket(es, key);
    }
  }

  /** What the catalog holds under one keyword tuple. */
  lemma {:induction false} IndexBucket(es: seq<Entry>, key: seq<string>)
    ensures Get(Index(es), key) == if Bucket(es, key) == [] then None else Some(Bucket(es, key))
    decreases |es|
  {
    if |es| > 0 {
      var init, e := es[..|es| - 1], es[|es| - 1];
      IndexBucket(init, key);
      var m := Index(init);
      assert Index(es) == Filed(m, e);
      if Usable(e.layout) && SimplifiedName(e.layout.name) == key {
        assert Bucket(es, key) == Bucket(init, key) + [e];
      } else {
        assert Bucket(es, key) == Bucket(init, key);
      }
    }
  }

  /** Every keyword tuple of the catalog is strictly sorted. */
  lemma {:induction false} IndexKeysSorted(es: seq<Entry>)
    ensures forall i :: 0 <= i < |Index(es)| ==> StrictlySorted(Index(es)[i].0)
    decreases |es|
  {
    if |es| > 0 {
      var init, e := es[..|es| - 1], es[|es| - 1];
      IndexKeysSorted(init);
      if Usable(e.layout) {
        var key := SimplifiedName(e.layout.name);
        SimplifiedNameShape(e.layout.name);
        var m := Index(init);
        var r := Put(m, key, GetOr(m, key, []) + [e]);
        forall i | 0 <= i < |r| ensures StrictlySorted(r[i].0) {
          if i < |m| {
            assert r[i].0 == m[i].0;
          } else {
            assert r == m + [(key, GetOr(m, key, []) + [e])];
          }
        }
      }
    }
  }

  /** The layouts of a list of entries. */
  function Records(es: seq<Entry>): (r: seq<LayoutRecord>)
    ensures |r| == |es|
    ensures forall i :: 0 <= i < |es| ==> r[i] == es[i].layout
  {
    seq(|es|, i requires 0 <= i < |es| => es[i].layout)
  }

  /** The elements of a list, as a set. */
  function Elements(xs: seq<string>): set<string> {
    set x | x in xs
  }

  /** No element repeated. */
  predicate Distinct(xs: seq<string>) {
    forall i, j :: 0 <= i < j < |xs| ==> xs[i] != xs[j]
  }

  /** `len(key) == n and n == len(set(parts) & set(key))`. */
  predicate Fits(key: seq<string>, parts: seq<string>) {
    |key| == |parts| && |Elements(parts) * Elements(key)| == |parts|
  }

  /** The entries `get_layouts` collects: those of every fitting keyword tuple,
      tuple by tuple in catalog order. */
  function Fitting(m: Catalog, parts: seq<string>): seq<Entry> {
    if |m| == 0 then []
    else
      Fitting(m[..|m| - 1], parts) + (if Fits(m[|m| - 1].0, parts) then m[|m| - 1].1 else [])
  }

  /** `len(set(xs))` is at most `len(xs)`, and equal to it exactly when no element repeats. */
  lemma {:induction false} ElementsCount(xs: seq<string>)
    ensures |Elements(xs)| <= |xs|
    ensures |Elements(xs)| == |xs| <==> Distinct(xs)
    decreases |xs|
  {
    if |xs| > 0 {
      var init, x := xs[..|xs| - 1], xs[|xs| - 1];
      ElementsCount(init);
      assert Elements(xs) == Elements(init) + {x} by {
        assert xs == init + [x];
      }
      if x in init {
        assert x in Elements(init);
        assert Elements(xs) == Elements(init);
        assert !Distinct(xs) by {
          var j :| 0 <= j < |init| && init[j] == x;
          assert xs[j] == xs[|xs| - 1];
        }
      } else {
        assert x !in Elements(init);
        assert Distinct(xs) <==> Distinct(init) by {
          if Distinct(init) {
            forall i, j | 0 <= i < j < |xs| ensures xs[i] != xs[j] {
              if j < |xs| - 1 {
                assert xs[i] == init[i] && xs[j] == init[j];
              } else {
                assert xs[i] == init[i];
              }
            }
          }
        }
      }
    }
  }

  /** A subset is no larger than its superset, and as large only when equal. */
  lemma {:induction false} SubsetCount(a: set<string>, b: set<string>)
    requires a <= b
    ensures |a| <= |b|
    ensures |a| == |b| ==> a == b
    decreases |b|
  {
    if b != {} {
      var x :| x in b;
      SubsetCount(a - {x}, b - {x});
      if x in a {
        assert |a - {x}| == |a| - 1;
        if |a| == |b| {
          assert a - {x} == b - {x};
          assert a == (a - {x}) + {x} && b == (b - {x}) + {x};
        }
      } else {
        assert a - {x} == a;
      }
    }
  }

  /** A strictly sorted list repeats no element. */
  lemma SortedDistinct(xs: seq<string>)
    requires StrictlySorted(xs)
    ensures Distinct(xs)
  {
    forall i, j | 0 <= i < j < |xs| ensures xs[i] != xs[j] {
      if xs[i] == xs[j] {
        LessIrreflexive(xs[i]);
      }
    }
  }

  /** For a keyword tuple without repeats, the source's count test holds exactly
      when `parts` has no repeats and the same elements as the tuple. */
  lemma FitsExactly(key: seq<string>, parts: seq<string>)
    requires Distinct(key)
    ensures Fits(key, parts) <==> Distinct(parts) && Elements(parts) == Elements(key)
  {
    var p, k := Elements(parts), Elements(key);
    ElementsCount(parts);
    ElementsCount(key);
    SubsetCount(p * k, p);
    if Fits(key, parts) {
      assert p * k == p;
      assert p <= k;
      SubsetCount(p, k);
    }
    if Distinct(parts) && p == k {
      assert p * k == p;
    }
  }

  /** A strictly sorted tuple fits `parts` exactly when `parts` has no repeats and
      the tuple is `parts` sorted. */
  lemma SortedKeyFits(key: seq<string>, parts: seq<string>)
    requires StrictlySorted(key)
    ensures Fits(key, parts) <==> Distinct(parts) && key == SortUnique(parts)
  {
    SortedDistinct(key);
    FitsExactly(key, parts);
    var sorted := SortUnique(parts);
    if Elements(parts) == Elements(key) {
      assert forall y :: y in key <==> y in sorted by {
        forall y ensures y in key <==> y in sorted {
          assert y in key <==> y in Elements(key);
          assert y in parts <==> y in Elements(parts);
        }
      }
      StrictlySortedUnique(key, sorted);
    }
    if key == sorted {
      assert forall y :: y in Elements(key) <==> y in Elements(parts);
    }
  }

  /** In a catalog with distinct, strictly sorted tuples, `get_layouts(parts)`
      collects exactly the entries filed under `sorted(parts)`, and nothing when
      `parts` repeats an element. */
  lemma {:induction false} FittingIsLookup(m: Catalog, parts: seq<string>)
    requires UniqueKeys(m)
    requires forall i :: 0 <= i < |m| ==> StrictlySorted(m[i].0)
    ensures Fitting(m, parts) == if Distinct(parts) then GetOr(m, SortUnique(parts), []) else []
    decreases |m|
  {
    if |m| > 0 {
      var init, last := m[..|m| - 1], m[|m| - 1];
      assert UniqueKeys(init);
      FittingIsLookup(init, parts);
      assert Fitting(m, parts) == Fitting(init, parts) + (if Fits(last.0, parts) then last.1 else []);
      SortedKeyFits(last.0, parts);
      GetLast(m, SortUnique(parts));
    }
  }

  /** Visiting order: every slide master before every slide layout, each
      collection by position. */
  predicate VisitedBefore(a: Entry, b: Entry) {
    (a.origin == SlideMasters && b.origin == SlideLayouts) ||
    (a.origin == b.origin && a.index < b.index)
  }

  predicate InVisitOrder(es: seq<Entry>) {
    forall i, j :: 0 <= i < j < |es| ==> VisitedBefore(es[i], es[j])
  }

  lemma VisitsInOrder(masters: seq<LayoutRecord>, layouts: seq<LayoutRecord>)
    ensures InVisitOrder(Visits(masters, layouts))
  {
  }

  /** A bucket keeps the visiting order of the entries it was cut from. */
  lemma {:induction false} BucketInOrder(es: seq<Entry>, key: seq<string>)
    requires InVisitOrder(es)
    ensures InVisitOrder(Bucket(es, key))
    decreases |es|
  {
    if |es| > 0 {
      var init, e := es[..|es| - 1], es[|es| - 1];
      BucketInOrder(init, key);
      var b := Bucket(init, key);
      if Bucket(es, key) != b {
        assert Bucket(es, key) == b + [e];
        forall i | 0 <= i < |b| ensures VisitedBefore(b[i], e) {
          assert b[i] in b;
          var k :| 0 <= k < |init| && init[k] == b[i];
        }
        OrderSnoc(b, e);
      }
    }
  }

  /** An entry visited after every entry of an ordered list extends it in order. */
  lemma OrderSnoc(b: seq<Entry>, e: Entry)
    requires InVisitOrder(b) && forall i :: 0 <= i < |b| ==> VisitedBefore(b[i], e)
    ensures InVisitOrder(b + [e])
  {
  }

  /** What `get_layouts(parts)` answers for the catalog of a template: the
      layouts whose name simplifies to `sorted(parts)`, slide masters first and
      each collection in template order; nothing when `parts` repeats an element. */
  lemma TemplateLookup(masters: seq<LayoutRecord>, layouts: seq<LayoutRecord>, parts: seq<string>)
    ensures var es := Visits(masters, layouts);
      Fitting(Index(es), parts) == if Distinct(parts) then Bucket(es, SortUnique(parts)) else []
    ensures InVisitOrder(Fitting(Index(Visits(masters, layouts)), parts))
  {
    var es := Visits(masters, layouts);
    IndexBuckets(es);
    IndexKeysSorted(es);
    FittingIsLookup(Index(es), parts);
    VisitsInOrder(masters, layouts);
    BucketInOrder(es, SortUnique(parts));
  }

  /** The template's layouts, filed by keyword tuple. */
  class Layouts {
    /** The `map` attribute: the catalog of the template. */
    var catalog: Catalog

    /** Reads the template's slide masters (each given by its first layout) and slide layouts. */
    constructor (masters: seq<LayoutRecord>, layouts: seq<LayoutRecord>)
      ensures catalog == Index(Visits(masters, layouts))
    {
      var m := ProcessPresentation(masters, layouts);
      catalog := m;
    }

    /** The body of both loops of `process_presentation`: a layout without
        shapes and placeholders is skipped, any other is filed under its keywords. */
    static method File(m: Catalog, e: Entry) returns (r: Catalog)
      ensures r == Filed(m, e)
    {
      if Usable(e.layout) {
        var key := SimplifyName(e.layout.name);
        r := Put(m, key, GetOr(m, key, []) + [e]);
      } else {
        r := m;
      }
    }

    /** The catalog of a template, built entry by entry: the first loop
        visits the slide masters, the second the slide layouts. */
    static method ProcessPresentation(masters: seq<LayoutRecord>, layouts: seq<LayoutRecord>)
      returns (m: Catalog)
      ensures m == Index(Visits(masters, layouts))
    {
      m := FileMasters(masters, layouts);
      m := FileLayouts(masters, layouts, m);
    }

    /** The loop over the slide masters, each represented by its first layout. */
    static method FileMasters(masters: seq<LayoutRecord>, layouts: seq<LayoutRecord>)
      returns (m: Catalog)
      ensures m == Index(Visits(masters, layouts)[..|masters|])
    {
      ghost var es := Visits(masters, layouts);
      m := [];
      for idx := 0 to |masters|
        invariant m == Index(es[..idx])
      {
        var obj := masters[idx];
        IndexNext(es, idx, m, Entry(obj, SlideMasters, idx));
        m := File(m, Entry(obj, SlideMasters, idx));
      }
    }

    /** The loop over the slide layouts, continuing the catalog of the masters. */
    static method FileLayouts(masters: seq<LayoutRecord>, layouts: seq<LayoutRecord>, m0: Catalog)
      returns (m: Catalog)
      requires m0 == Index(Visits(masters, layouts)[..|masters|])
      ensures m == Index(Visits(masters, layouts))
    {
      ghost var es := Visits(masters, layouts);
      ghost var k := |masters|;
      m := m0;
      for idx := 0 to |layouts|
        invariant k == |masters| + idx && m == Index(es[..k])
      {
        var obj := layouts[idx];
        IndexNext(es, k, m, Entry(obj, SlideLayouts, idx));
        m := File(m, Entry(obj, SlideLayouts, idx));
        k := k + 1;
      }
      assert es[..k] == es;
    }

    /** The layouts whose keyword tuple has exactly the elements of `parts`. */
    method GetLayouts(parts: seq<string>) returns (fit: seq<LayoutRecord>)
      ensures fit == Records(Fitting(catalog, parts))
    {
      var fitLayouts: seq<Entry> := [];
      var n := |parts|;
      for i := 0 to |catalog|
        invariant fitLayouts == Fitting(catalog[..i], parts)
      {
        assert catalog[..i + 1][..i] == catalog[..i];
        var (key, values) := catalog[i];
        if |key| == n {
          if n == |Elements(parts) * Elements(key)| {
            fitLayouts := fitLayouts + values;
          }
        }
      }
      assert catalog[..|catalog|] == catalog;
      fit := Records(fitLayouts);
    }
  }
}
