/** The regular expressions of the slide tools, as left-to-right scanners.
    Python's `re.sub` tries the pattern at each position from the left; where
    it matches, the match is replaced and the scan resumes after it, and where
    it does not, the character is kept and the scan moves on by one. None of
    the patterns here can match the empty string. */
module Patterns {
  import opened Wrappers
  import opened Strings

  /** The position of the first `c` in `s`. */
  function FirstIndex(s: string, c: char): (r: Option<nat>)
    ensures r.Some? ==> r.value < |s| && s[r.value] == c
  {
    if |s| == 0 then None
    else if s[0] == c then Some(0)
    else
      match FirstIndex(s[1..], c)
      case None => None
      case Some(k) => Some(k + 1)
  }

  lemma {:induction false} FirstIndexSpec(s: string, c: char)
    ensures FirstIndex(s, c).Some? ==> c !in s[..FirstIndex(s, c).value]
    ensures FirstIndex(s, c).None? <==> c !in s
  {
    if |s| > 0 && s[0] != c {
      FirstIndexSpec(s[1..], c);
      assert s == [s[0]] + s[1..];
      if FirstIndex(s, c).Some? {
        assert s[..FirstIndex(s, c).value] == [s[0]] + s[1..][..FirstIndex(s[1..], c).value];
      }
    }
  }

  // ---------------------------------------------------------------------------
  // `<[^>]+>`, and `\<[^>]+?\>`, which matches the same text

  /** The length of the tag `<[^>]+>` matches at the start of `s`, if any: a
      `<`, at least one character, and the first `>` after them. Greedy or
      lazy, `[^>]+` cannot pass a `>`, so both spellings of the pattern stop
      at the first `>`. */
  function TagLength(s: string): (r: Option<nat>)
    ensures r.Some? ==> 3 <= r.value <= |s|
  {
    if |s| == 0 || s[0] != '<' then None
    else
      match FirstIndex(s[1..], '>')
      case None => None
      case Some(k) => if k >= 1 then Some(k + 2) else None
  }

  /** A tag matches at the start of `s` exactly when `s` starts with `<`, a
      `>` comes later, and it is not the very next character. */
  lemma TagLengthSpec(s: string)
    ensures TagLength(s).Some? <==> |s| > 1 && s[0] == '<' && '>' in s[1..] && s[1] != '>'
    ensures TagLength(s).Some? ==> s[TagLength(s).value - 1] == '>' && '>' !in s[1..TagLength(s).value - 1]
  {
    if |s| > 1 && s[0] == '<' {
      FirstIndexSpec(s[1..], '>');
      assert s[1..][0] == s[1];
      if TagLength(s).Some? {
        var k := FirstIndex(s[1..], '>').value;
        assert s[1..][..k] == s[1..k + 1];
      }
    }
  }

  /** `re.sub("<[^>]+>", rep, s)`. */
  function SubTags(s: string, rep: string): string
    decreases |s|
  {
    if |s| == 0 then ""
    else
      match TagLength(s)
      case Some(n) => rep + SubTags(s[n..], rep)
      case None => [s[0]] + SubTags(s[1..], rep)
  }

  /** No tag matches anywhere in `s`. */
  predicate Tagless(s: string) {
    forall i :: 0 <= i < |s| ==> TagLength(s[i..]).None?
  }

  /** Every character of the result comes from `s` or from `rep`. */
  lemma {:induction false} SubTagsChars(s: string, rep: string)
    ensures forall c :: c in SubTags(s, rep) ==> c in s || c in rep
    decreases |s|
  {
    if |s| > 0 {
      match TagLength(s)
      case Some(n) =>
        SubTagsChars(s[n..], rep);
        assert forall c :: c in s[n..] ==> c in s;
      case None =>
        SubTagsChars(s[1..], rep);
        assert forall c :: c in s[1..] ==> c in s;
    }
  }

  /** After the substitution no tag is left, provided the replacement holds
      no angle bracket. */
  lemma {:induction false} SubTagsTagless(s: string, rep: string)
    requires '<' !in rep && '>' !in rep
    ensures Tagless(SubTags(s, rep))
    decreases |s|
  {
    if |s| > 0 {
      match TagLength(s)
      case Some(n) =>
        SubTagsTagless(s[n..], rep);
        TaglessPrefix(rep, SubTags(s[n..], rep));
      case None =>
        var t := SubTags(s[1..], rep);
        SubTagsTagless(s[1..], rep);
        TaglessPrefix([], t);
        var r := [s[0]] + t;
        TagLengthSpec(s);
        TagLengthSpec(r);
        if TagLength(r).Some? {
          if '>' !in s[1..] {
            SubTagsChars(s[1..], rep);
            assert '>' in t;
          } else {
            assert false;
          }
        }
        forall i | 0 < i < |r| ensures TagLength(r[i..]).None? {
          assert r[i..] == t[i - 1..];
        }
    }
  }

  /** A text without angle brackets put before a tagless text keeps it tagless. */
  lemma TaglessPrefix(p: string, t: string)
    requires '<' !in p && Tagless(t)
    ensures Tagless(p + t)
  {
    var r := p + t;
    forall i | 0 <= i < |r| ensures TagLength(r[i..]).None? {
      if i < |p| {
        assert r[i] == p[i];
      } else {
        assert r[i..] == t[i - |p|..];
      }
    }
  }

  /** An infix of a tagless text is tagless. */
  lemma TaglessInfix(s: string, a: nat, b: nat)
    requires Tagless(s) && a <= b <= |s|
    ensures Tagless(s[a..b])
  {
    forall i | 0 <= i < b - a ensures TagLength(s[a..b][i..]).None? {
      var u := s[a..b][i..];
      var v := s[a + i..];
      assert TagLength(v).None?;
      TagLengthSpec(u);
      TagLengthSpec(v);
      if TagLength(u).Some? {
        assert false;
      }
    }
  }

  /** Deleting every `c`, a character that is neither `<` nor `>`, from a
      tagless text cannot bring a `<` and a `>` together into a tag. */
  lemma {:induction false} TaglessRemoveChar(s: string, c: char)
    requires c != '<' && c != '>' && Tagless(s)
    ensures Tagless(Replace(s, [c], ""))
    decreases |s|
  {
    if |s| > 0 {
      TaglessInfix(s, 1, |s|);
      assert s[1..|s|] == s[1..];
      TaglessRemoveChar(s[1..], c);
      var t := Replace(s[1..], [c], "");
      ReplaceCharStep(s, c);
      if s[0] != '<' {
        TaglessPrefix(if s[0] == c then "" else [s[0]], t);
      } else {
        var r := [s[0]] + t;
        assert TagLength(s[0..]).None?;
        assert s[0..] == s;
        TagLengthSpec(s);
        forall i | 0 < i < |r| ensures TagLength(r[i..]).None? {
          assert r[i..] == t[i - 1..];
        }
        assert TagLength(r[0..]).None? by {
          assert r[0..] == r;
          TagLengthSpec(r);
          if '>' in s[1..] {
            assert s[1] == '>';
            ReplaceCharStep(s[1..], c);
            assert t[0] == '>';
          } else {
            ReplaceChars(s[1..], [c], "");
          }
        }
      }
    }
  }

  /** Every piece of a split of a tagless text is tagless. */
  lemma {:induction false} TaglessSplit(s: string, sep: string)
    requires |sep| > 0 && Tagless(s)
    ensures forall p :: p in Split(s, sep) ==> Tagless(p)
    decreases |s|
  {
    match Find(s, sep)
    case None =>
    case Some(i) =>
      TaglessInfix(s, 0, i);
      assert s[0..i] == s[..i];
      TaglessInfix(s, i + |sep|, |s|);
      assert s[i + |sep|..|s|] == s[i + |sep|..];
      TaglessSplit(s[i + |sep|..], sep);
  }

  /** A tagless text goes through unchanged, so the substitution is idempotent. */
  lemma {:induction false} SubTagsOfTagless(s: string, rep: string)
    requires Tagless(s)
    ensures SubTags(s, rep) == s
    decreases |s|
  {
    if |s| > 0 {
      assert TagLength(s[0..]).None?;
      assert s[0..] == s;
      forall i | 0 <= i < |s| - 1 ensures TagLength(s[1..][i..]).None? {
        assert s[1..][i..] == s[i + 1..];
      }
      SubTagsOfTagless(s[1..], rep);
    }
  }

  // ---------------------------------------------------------------------------
  // `\[[^>]+?\]`

  /** The length of the `\[[^>]+?\]` match at the start of `s`, if any: a
      `[`, then the shortest run of at least one character other than `>`
      that is followed by a `]`, then that `]`. */
  function BracketLength(s: string): (r: Option<nat>)
    ensures r.Some? ==> 3 <= r.value <= |s|
  {
    if |s| < 3 || s[0] != '[' then None
    else
      match FirstIndex(s[2..], ']')
      case None => None
      case Some(k) => if '>' in s[1..k + 2] then None else Some(k + 3)
  }

  /** A match starts with `[`, ends at the first `]` after the next
      character, and holds no `>`. */
  lemma BracketLengthSpec(s: string)
    ensures BracketLength(s).Some? ==>
      var n := BracketLength(s).value;
      s[0] == '[' && s[n - 1] == ']' && ']' !in s[2..n - 1] && '>' !in s[..n]
  {
    if BracketLength(s).Some? {
      var n := BracketLength(s).value;
      FirstIndexSpec(s[2..], ']');
      assert s[2..][..n - 3] == s[2..n - 1];
      assert s[..n] == [s[0]] + s[1..n - 1] + [s[n - 1]];
    }
  }

  /** `re.sub(r"\[[^>]+?\]", "", s)`. */
  function DropBrackets(s: string): string
    decreases |s|
  {
    if |s| == 0 then ""
    else
      match BracketLength(s)
      case Some(n) => DropBrackets(s[n..])
      case None => [s[0]] + DropBrackets(s[1..])
  }

  /** Dropping the bracketed runs only removes characters. */
  lemma {:induction false} DropBracketsChars(s: string)
    ensures forall c :: c in DropBrackets(s) ==> c in s
    decreases |s|
  {
    if |s| > 0 {
      match BracketLength(s)
      case Some(n) =>
        DropBracketsChars(s[n..]);
        assert forall c :: c in s[n..] ==> c in s;
      case None =>
        DropBracketsChars(s[1..]);
        assert forall c :: c in s[1..] ==> c in s;
    }
  }

  // ---------------------------------------------------------------------------
  // ` +`

  /** `re.sub(" +", " ", s)`: every run of spaces becomes one space. */
  function Squeeze(s: string): (r: string)
    ensures |r| <= |s|
    decreases |s|
  {
    if |s| == 0 then ""
    else if s[0] == ' ' then " " + Squeeze(LStripChars(s, {' '}))
    else [s[0]] + Squeeze(s[1..])
  }

  /** No two spaces stand next to each other. */
  predicate NoDoubleSpace(s: string) {
    forall i :: 0 <= i < |s| - 1 ==> !(s[i] == ' ' && s[i + 1] == ' ')
  }

  /** The squeezed text has the same characters, and no two spaces in a row. */
  lemma {:induction false} SqueezeSpec(s: string)
    ensures forall c :: c in Squeeze(s) <==> c in s
    ensures NoDoubleSpace(Squeeze(s))
    ensures |Squeeze(s)| > 0 && |s| > 0 ==> (Squeeze(s)[0] == ' ' <==> s[0] == ' ')
    decreases |s|
  {
    if |s| > 0 {
      var rest := if s[0] == ' ' then LStripChars(s, {' '}) else s[1..];
      if s[0] == ' ' {
        LStripCharsSuffix(s, {' '});
      }
      SqueezeSpec(rest);
      var t := Squeeze(rest);
      var r := Squeeze(s);
      assert r == [if s[0] == ' ' then ' ' else s[0]] + t;
      assert forall c :: c in rest ==> c in s;
      forall c | c in s ensures c in r {
        var k :| 0 <= k < |s| && s[k] == c;
        if k > 0 && !(s[0] == ' ' && k < |s| - |rest|) {
          assert c in rest by {
            if s[0] == ' ' {
              assert rest[k - (|s| - |rest|)] == c;
            } else {
              assert rest[k - 1] == c;
            }
          }
        }
      }
      forall i | 0 <= i < |r| - 1 ensures !(r[i] == ' ' && r[i + 1] == ' ') {
        if i > 0 {
          assert r[i] == t[i - 1] && r[i + 1] == t[i];
        } else if s[0] == ' ' {
          assert |rest| > 0 && rest[0] != ' ';
        }
      }
    }
  }

  /** A text without a double space goes through unchanged, so squeezing is idempotent. */
  lemma {:induction false} SqueezeOfSqueezed(s: string)
    requires NoDoubleSpace(s)
    ensures Squeeze(s) == s
    decreases |s|
  {
    if |s| > 0 {
      if s[0] == ' ' {
        assert |s| > 1 ==> s[1] != ' ';
        assert LStripChars(s, {' '}) == s[1..] by {
          assert LStripChars(s, {' '}) == LStripChars(s[1..], {' '});
        }
      }
      assert NoDoubleSpace(s[1..]) by {
        forall i | 0 <= i < |s[1..]| - 1 ensures !(s[1..][i] == ' ' && s[1..][i + 1] == ' ') {
          assert s[1..][i] == s[i + 1] && s[1..][i + 1] == s[i + 2];
        }
      }
      SqueezeOfSqueezed(s[1..]);
    }
  }
}
