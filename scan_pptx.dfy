/** The layout statistics table: the layouts of each template counted by
    keyword tuple, the header row of the table over all templates, and the
    rows and column justification of the table. */
module ScanPptx {
  import opened Wrappers
  import opened Strings
  import opened Dicts
  import opened ProcessTemplate

  /** A statistics value: a number of layouts, or the file name. */
  datatype Cell = Count(n: nat) | Name(name: string)

  /** The statistics of one template file, in insertion order. */
  type Stats = Dict<string, Cell>

  // ---------------------------------------------------------------------------
  // `process_pptx_file`

  /** The column label of a keyword tuple: `" ".join(sorted(k))`. */
  function Label(key: seq<string>): string {
    Join(SortUnique(key), " ")
  }

  /** The comprehension `{label(k): len(v) for k, v in layouts.map.items()}`
      for any labelling: entries are visited in catalog order, and a label met
      again overwrites the count in place. */
  function Tally(catalog: Catalog, labelOf: seq<string> -> string): (s: Stats)
    ensures UniqueKeys(s)
  {
    if |catalog| == 0 then []
    else
      Put(Tally(catalog[..|catalog| - 1], labelOf), labelOf(catalog[|catalog| - 1].0), Count(|catalog[|catalog| - 1].1|))
  }

  /** The comprehension of `process_pptx_file`. */
  function Counts(catalog: Catalog): Stats {
    Tally(catalog, Label)
  }

  /** The labels of the tuples of a catalog. */
  function Labels(catalog: Catalog, labelOf: seq<string> -> string): set<string> {
    set i | 0 <= i < |catalog| :: labelOf(catalog[i].0)
  }

  /** One tuple more brings its label. */
  lemma LabelsSnoc(catalog: Catalog, labelOf: seq<string> -> string)
    requires |catalog| > 0
    ensures Labels(catalog, labelOf) == Labels(catalog[..|catalog| - 1], labelOf) + {labelOf(catalog[|catalog| - 1].0)}
  {
    var init := catalog[..|catalog| - 1];
    assert forall i :: 0 <= i < |init| ==> init[i] == catalog[i];
  }

  /** The comprehension has a key exactly for the labels of the catalog. */
  lemma TallyKeys(catalog: Catalog, labelOf: seq<string> -> string)
    ensures forall l :: HasKey(Tally(catalog, labelOf), l) <==> l in Labels(catalog, labelOf)
  {
    forall l ensures HasKey(Tally(catalog, labelOf), l) <==> l in Labels(catalog, labelOf) {
      TallyKey(catalog, labelOf, l);
    }
  }

  /** One label is a key of the comprehension exactly when some tuple has it. */
  lemma {:induction false} TallyKey(catalog: Catalog, labelOf: seq<string> -> string, l: string)
    ensures HasKey(Tally(catalog, labelOf), l) <==> l in Labels(catalog, labelOf)
    decreases |catalog|
  {
    if |catalog| > 0 {
      var init := catalog[..|catalog| - 1];
      var last := catalog[|catalog| - 1];
      var before := Tally(init, labelOf);
      var k := labelOf(last.0);
      var after := Put(before, k, Count(|last.1|));
      assert Tally(catalog, labelOf) == after;
      LabelsSnoc(catalog, labelOf);
      TallyKey(init, labelOf, l);
      if l == k {
        assert Get(after, l).Some?;
      } else {
        assert Get(after, l) == Get(before, l);
      }
    }
  }

  /** Each label counts the entries of the last tuple that has it. */
  lemma {:induction false} TallyLast(catalog: Catalog, labelOf: seq<string> -> string, i: nat)
    requires i < |catalog|
    requires forall j :: i < j < |catalog| ==> labelOf(catalog[j].0) != labelOf(catalog[i].0)
    ensures Get(Tally(catalog, labelOf), labelOf(catalog[i].0)) == Some(Count(|catalog[i].1|))
    decreases |catalog|
  {
    if i < |catalog| - 1 {
      var init := catalog[..|catalog| - 1];
      assert init[i] == catalog[i];
      TallyLast(init, labelOf, i);
    }
  }

  /** With pairwise different labels there is one key per tuple. */
  lemma {:induction false} TallySize(catalog: Catalog, labelOf: seq<string> -> string)
    requires forall i, j :: 0 <= i < j < |catalog| ==> labelOf(catalog[i].0) != labelOf(catalog[j].0)
    ensures |Tally(catalog, labelOf)| == |catalog|
    decreases |catalog|
  {
    if |catalog| > 0 {
      var init := catalog[..|catalog| - 1];
      var key := catalog[|catalog| - 1].0;
      TallySize(init, labelOf);
      TallyKeys(init, labelOf);
      if HasKey(Tally(init, labelOf), labelOf(key)) {
        assert false;
      }
    }
  }

  /** `process_pptx_file`: the counts, then `Total`, the number of keyword
      tuples, then `Filename`, the file's name. */
  function FileStats(catalog: Catalog, filename: string): (s: Stats)
    ensures UniqueKeys(s)
    ensures Get(s, "Filename") == Some(Name(filename))
    ensures Get(s, "Total") == Some(Count(|catalog|))
    ensures forall l :: l != "Total" && l != "Filename" ==> Get(s, l) == Get(Counts(catalog), l)
  {
    Completed(Counts(catalog), |catalog|, filename)
  }

  /** The counts with `Total` and `Filename` set, in that order. */
  function Completed(counts: Stats, total: nat, filename: string): (s: Stats)
    requires UniqueKeys(counts)
    ensures UniqueKeys(s)
    ensures Get(s, "Filename") == Some(Name(filename))
    ensures Get(s, "Total") == Some(Count(total))
    ensures forall l :: l != "Total" && l != "Filename" ==> Get(s, l) == Get(counts, l)
  {
    Put(Put(counts, "Total", Count(total)), "Filename", Name(filename))
  }

  /** When the counts hold neither key, both go after them. */
  lemma CompletedAppends(counts: Stats, total: nat, filename: string)
    requires UniqueKeys(counts) && !HasKey(counts, "Total") && !HasKey(counts, "Filename")
    ensures Completed(counts, total, filename) == counts + [("Total", Count(total)), ("Filename", Name(filename))]
  {
    PutNewTwice(counts, "Total", Count(total), "Filename", Name(filename));
  }

  /** The statistics of a template file: its catalog is built by the
      `Layouts` constructor, then counted. */
  method ProcessPptxFile(masters: seq<LayoutRecord>, layouts: seq<LayoutRecord>, filename: string)
    returns (stats: Stats)
    ensures stats == FileStats(Index(Visits(masters, layouts)), filename)
  {
    var catalog := new Layouts(masters, layouts);
    stats := FileStats(catalog.catalog, filename);
  }

  /** What the table needs of a catalog: distinct keyword tuples, each
      strictly sorted, of non-empty tokens with neither a space nor an
      upper-case letter. */
  predicate WellKeyed(c: Catalog) {
    UniqueKeys(c) &&
    forall i :: 0 <= i < |c| ==>
      StrictlySorted(c[i].0) && forall t :: t in c[i].0 ==> t != "" && ' ' !in t && Quiet(t)
  }

  /** The catalog of a template is well keyed. */
  lemma CatalogKeys(es: seq<Entry>)
    ensures WellKeyed(Index(es))
  {
    forall i | 0 <= i < |Index(es)|
      ensures StrictlySorted(Index(es)[i].0) && forall t :: t in Index(es)[i].0 ==> t != "" && ' ' !in t && Quiet(t)
    {
      var key := Index(es)[i].0;
      assert HasKey(Index(es), key);
      IndexBucket(es, key);
      var e := Bucket(es, key)[0];
      assert e in Bucket(es, key);
      SimplifiedNameShape(e.layout.name);
    }
  }

  /** Joining with a space loses nothing when the tokens are non-empty and
      space-free: different tuples give different labels. */
  lemma JoinSpaceInjective(a: seq<string>, b: seq<string>)
    requires forall t :: t in a ==> t != "" && ' ' !in t
    requires forall t :: t in b ==> t != "" && ' ' !in t
    requires Join(a, " ") == Join(b, " ")
    ensures a == b
  {
    JoinNonEmpty(a);
    JoinNonEmpty(b);
    if |a| > 0 && |b| > 0 {
      SplitJoinChar(a, ' ');
      SplitJoinChar(b, ' ');
    }
  }

  /** Joining at least one non-empty token gives a non-empty text. */
  lemma JoinNonEmpty(pieces: seq<string>)
    requires forall t :: t in pieces ==> t != ""
    ensures |pieces| > 0 ==> Join(pieces, " ") != ""
  {
    if |pieces| == 1 {
      assert pieces[0] in pieces;
    }
  }

  /** A label of quiet tokens holds no upper-case `T` or `F`, so it is
      neither `Total` nor `Filename`. */
  lemma LabelNotReserved(key: seq<string>)
    requires forall t :: t in key ==> Quiet(t)
    ensures Join(key, " ") != "Total" && Join(key, " ") != "Filename"
  {
    JoinChars(key, " ");
    assert forall c :: c in Join(key, " ") ==> !Noise(c);
    assert Noise("Total"[0]) && "Total"[0] in "Total";
    assert Noise("Filename"[0]) && "Filename"[0] in "Filename";
  }

  /** The labels of a well-keyed catalog are its tuples joined with spaces,
      pairwise different, and never `Total` or `Filename`. */
  lemma CatalogLabels(c: Catalog)
    requires WellKeyed(c)
    ensures forall i :: 0 <= i < |c| ==>
      Label(c[i].0) == Join(c[i].0, " ") && Label(c[i].0) != "Total" && Label(c[i].0) != "Filename"
    ensures forall i, j :: 0 <= i < j < |c| ==> Label(c[i].0) != Label(c[j].0)
  {
    forall i | 0 <= i < |c|
      ensures Label(c[i].0) == Join(c[i].0, " ") && Label(c[i].0) != "Total" && Label(c[i].0) != "Filename"
    {
      SortUniqueOfSorted(c[i].0);
      LabelNotReserved(c[i].0);
    }
    forall i, j | 0 <= i < j < |c| ensures Label(c[i].0) != Label(c[j].0) {
      if Label(c[i].0) == Label(c[j].0) {
        JoinSpaceInjective(c[i].0, c[j].0);
      }
    }
  }

  /** The comprehension over a well-keyed catalog has one key per keyword
      tuple, its tokens joined with spaces, mapped to the number of layouts
      filed under it, and neither `Total` nor `Filename` among its keys. */
  lemma CatalogCounts(c: Catalog)
    requires WellKeyed(c)
    ensures forall i :: 0 <= i < |c| ==> Get(Counts(c), Join(c[i].0, " ")) == Some(Count(|c[i].1|))
    ensures forall l :: HasKey(Counts(c), l) <==> exists i :: 0 <= i < |c| && Join(c[i].0, " ") == l
    ensures |Counts(c)| == |c|
    ensures !HasKey(Counts(c), "Total") && !HasKey(Counts(c), "Filename")
  {
    CatalogLabels(c);
    assert |Counts(c)| == |c| by {
      TallySize(c, Label);
    }
    forall i | 0 <= i < |c| ensures Get(Counts(c), Join(c[i].0, " ")) == Some(Count(|c[i].1|)) {
      TallyLast(c, Label, i);
    }
    forall l ensures HasKey(Counts(c), l) <==> exists i :: 0 <= i < |c| && Join(c[i].0, " ") == l {
      TallyKey(c, Label, l);
      if l in Labels(c, Label) {
        var i :| 0 <= i < |c| && Label(c[i].0) == l;
      }
    }
  }

  /** The statistics of a well-keyed catalog have one entry per keyword
      tuple, its tokens joined with spaces, mapped to the number of layouts
      filed under it, then `Total`, the number of tuples, and `Filename`: two
      keys more than the catalog. */
  lemma StatsSpec(c: Catalog, filename: string)
    requires WellKeyed(c)
    ensures forall i :: 0 <= i < |c| ==> Get(FileStats(c, filename), Join(c[i].0, " ")) == Some(Count(|c[i].1|))
    ensures forall l :: HasKey(FileStats(c, filename), l) <==>
      l == "Total" || l == "Filename" || exists i :: 0 <= i < |c| && Join(c[i].0, " ") == l
    ensures |FileStats(c, filename)| == |c| + 2
  {
    var counts := Counts(c);
    var s := FileStats(c, filename);
    CatalogCounts(c);
    CompletedAppends(counts, |c|, filename);
    forall i | 0 <= i < |c| ensures Get(s, Join(c[i].0, " ")) == Some(Count(|c[i].1|)) {
      LabelNotReserved(c[i].0);
    }
    forall l ensures HasKey(s, l) <==> l == "Total" || l == "Filename" || exists i :: 0 <= i < |c| && Join(c[i].0, " ") == l {
      if l != "Total" && l != "Filename" {
        assert Get(s, l) == Get(counts, l);
      }
    }
  }

  // ---------------------------------------------------------------------------
  // `collect_pptx_metadata`: the header row

  /** The keys of every statistics dict, file after file. */
  function AllKeys(statsLists: seq<Stats>): (ks: seq<string>)
    ensures forall k :: k in ks <==> exists i :: 0 <= i < |statsLists| && HasKey(statsLists[i], k)
  {
    if |statsLists| == 0 then []
    else
      var init := statsLists[..|statsLists| - 1];
      var last := statsLists[|statsLists| - 1];
      assert forall k :: k in Keys(last) <==> HasKey(last, k);
      assert forall i :: 0 <= i < |init| ==> init[i] == statsLists[i];
      AllKeys(init) + Keys(last)
  }

  /** The position of the first `x` in `s` (`s.index(x)`), if any. */
  function IndexOf(s: seq<string>, x: string): (r: Option<nat>)
    ensures r.Some? ==> r.value < |s| && s[r.value] == x && x !in s[..r.value]
    ensures r.None? <==> x !in s
  {
    if |s| == 0 then None
    else if s[0] == x then Some(0)
    else
      match IndexOf(s[1..], x)
      case None => None
      case Some(k) =>
        assert s[..k + 1] == [s[0]] + s[1..][..k];
        Some(k + 1)
  }

  /** `del s[s.index(x)]`: `ValueError` when `x` is missing. */
  function Delete(s: seq<string>, x: string): (r: Result<seq<string>>)
    ensures r.Err? <==> x !in s
    ensures r.Err? ==> r.failure == ValueError
    ensures r.Ok? ==> |r.value| == |s| - 1 && forall y :: y != x ==> (y in r.value <==> y in s)
  {
    match IndexOf(s, x)
    case None => Err(ValueError)
    case Some(i) =>
      assert forall y :: y != x ==> (y in s <==> y in s[..i] || y in s[i + 1..]) by {
        assert s == s[..i] + [x] + s[i + 1..];
      }
      Ok(s[..i] + s[i + 1..])
  }

  /** The header row the source builds from the union of the keys. */
  function Headers(statsLists: seq<Stats>): Result<seq<string>> {
    var sorted := SortUnique(AllKeys(statsLists));
    match Delete(sorted, "Filename")
    case Err(f) => Err(f)
    case Ok(rest) =>
      match Delete(rest, "Total")
      case Err(f) => Err(f)
      case Ok(middle) => Ok(["Filename"] + middle + ["Total"])
  }

  /** Removing from a strictly sorted list keeps it strictly sorted. */
  lemma DeleteSorted(s: seq<string>, x: string)
    requires StrictlySorted(s)
    ensures Delete(s, x).Ok? ==> StrictlySorted(Delete(s, x).value)
  {
    if Delete(s, x).Ok? {
      var i := IndexOf(s, x).value;
      var r := s[..i] + s[i + 1..];
      forall a, b | 0 <= a < b < |r| ensures Less(r[a], r[b]) {
        var a' := if a < i then a else a + 1;
        var b' := if b < i then b else b + 1;
        assert r[a] == s[a'] && r[b] == s[b'];
      }
    }
  }

  /** The header row fails with `ValueError` exactly when no file has a
      `Filename` or none has a `Total`; otherwise it is `Filename`, every
      other key of any file once, in sorted order, and `Total` last. */
  lemma HeadersSpec(statsLists: seq<Stats>)
    ensures Headers(statsLists).Err? <==>
      (forall i :: 0 <= i < |statsLists| ==> !HasKey(statsLists[i], "Filename")) ||
      (forall i :: 0 <= i < |statsLists| ==> !HasKey(statsLists[i], "Total"))
    ensures Headers(statsLists).Err? ==> Headers(statsLists).failure == ValueError
    ensures Headers(statsLists).Ok? ==>
      var h := Headers(statsLists).value;
      |h| >= 2 && h[0] == "Filename" && h[|h| - 1] == "Total" &&
      StrictlySorted(h[1..|h| - 1]) &&
      (forall k :: k in h[1..|h| - 1] <==> k != "Filename" && k != "Total" && k in AllKeys(statsLists))
  {
    var sorted := SortUnique(AllKeys(statsLists));
    DeleteSorted(sorted, "Filename");
    if Delete(sorted, "Filename").Ok? {
      var rest := Delete(sorted, "Filename").value;
      DeleteSorted(rest, "Total");
      if Delete(rest, "Total").Ok? {
        var middle := Delete(rest, "Total").value;
        var h := ["Filename"] + middle + ["Total"];
        assert h[1..|h| - 1] == middle;
        assert "Filename" !in middle by {
          if "Filename" in middle {
            var i :| 0 <= i < |sorted| && sorted[i] == "Filename";
            var j :| 0 <= j < |middle| && middle[j] == "Filename";
            IndexOfUniqueSorted(sorted, "Filename");
            assert false;
          }
        }
        assert "Total" !in middle by {
          if "Total" in middle {
            IndexOfUniqueSorted(rest, "Total");
            assert false;
          }
        }
      }
    }
  }

  /** A strictly sorted list holds each element once, so deleting it leaves none. */
  lemma IndexOfUniqueSorted(s: seq<string>, x: string)
    requires StrictlySorted(s)
    ensures Delete(s, x).Ok? ==> x !in Delete(s, x).value
  {
    LessIrreflexive(x);
  }

  /** With no file found there is no `Filename` to remove: `ValueError`. */
  lemma NoFilesHeaders()
    ensures Headers([]) == Err(ValueError)
  {
    assert AllKeys([]) == [];
  }

  /** `collect_pptx_metadata`: the statistics of every file, and the header
      row built from the union of their keys. `rglob` and the file reading are
      outside the model: the statistics come in as a list. */
  method CollectHeaders(statsLists: seq<Stats>) returns (headers: Result<seq<string>>)
    ensures headers == Headers(statsLists)
  {
    var keys: set<string> := {};
    for i := 0 to |statsLists|
      invariant keys == set k | k in AllKeys(statsLists[..i])
    {
      assert statsLists[..i + 1][..i] == statsLists[..i];
      keys := keys + set k | k in Keys(statsLists[i]);
    }
    assert statsLists[..|statsLists|] == statsLists;
    var listed := Listed(keys);
    var sorted := SortUnique(listed);
    assert sorted == SortUnique(AllKeys(statsLists)) by {
      StrictlySortedUnique(sorted, SortUnique(AllKeys(statsLists)));
    }
    var rest := Delete(sorted, "Filename");
    if rest.Err? {
      return Err(rest.failure);
    }
    var middle := Delete(rest.value, "Total");
    if middle.Err? {
      return Err(middle.failure);
    }
    headers := Ok(["Filename"] + middle.value + ["Total"]);
  }

  /** `list(headers)`: the elements of a set, each once, in an order the
      model leaves open. */
  method Listed(keys: set<string>) returns (list: seq<string>)
    ensures forall k :: k in list <==> k in keys
  {
    list := [];
    var left := keys;
    while left != {}
      invariant forall k :: k in keys <==> k in list || k in left
      decreases left
    {
      var k :| k in left;
      list := list + [k];
      left := left - {k};
    }
  }

  // ---------------------------------------------------------------------------
  // `display_metadata_table`: justification and rows

  datatype Justify = Left | Right

  /** The justification of each column: `Filename` left, every other right. */
  method Justification(headers: seq<string>) returns (columns: seq<Justify>)
    ensures |columns| == |headers|
    ensures forall i :: 0 <= i < |headers| ==> (columns[i] == Left <==> headers[i] == "Filename")
  {
    columns := [];
    for i := 0 to |headers|
      invariant |columns| == i
      invariant forall j :: 0 <= j < i ==> (columns[j] == Left <==> headers[j] == "Filename")
    {
      if headers[i] == "Filename" {
        columns := columns + [Left];
      } else {
        columns := columns + [Right];
      }
    }
  }

  /** `str(value)`. */
  function Show(c: Cell): string {
    match c
    case Count(n) => NatToString(n)
    case Name(name) => name
  }

  /** The cell of one column: the value shown when the key is there, `""` when not. */
  function CellOf(item: Stats, header: string): (r: string)
    ensures !HasKey(item, header) ==> r == ""
    ensures HasKey(item, header) ==> r == Show(Get(item, header).value)
  {
    match Get(item, header)
    case Some(v) => Show(v)
    case None => ""
  }

  /** One row of the table: one cell per header. */
  method Row(item: Stats, headers: seq<string>) returns (row: seq<string>)
    ensures |row| == |headers|
    ensures forall i :: 0 <= i < |headers| ==> row[i] == CellOf(item, headers[i])
  {
    row := [];
    for i := 0 to |headers|
      invariant |row| == i
      invariant forall j :: 0 <= j < i ==> row[j] == CellOf(item, headers[j])
    {
      var header := headers[i];
      if HasKey(item, header) {
        row := row + [Show(Get(item, header).value)];
      } else {
        row := row + [""];
      }
    }
  }

  /** Every row of the table, in file order. */
  method Rows(data: seq<Stats>, headers: seq<string>) returns (rows: seq<seq<string>>)
    ensures |rows| == |data|
    ensures forall r :: 0 <= r < |data| ==> |rows[r]| == |headers|
    ensures forall r, i :: 0 <= r < |data| && 0 <= i < |headers| ==> rows[r][i] == CellOf(data[r], headers[i])
  {
    rows := [];
    for r := 0 to |data|
      invariant |rows| == r
      invariant forall q :: 0 <= q < r ==> |rows[q]| == |headers|
      invariant forall q, i :: 0 <= q < r && 0 <= i < |headers| ==> rows[q][i] == CellOf(data[q], headers[i])
    {
      var row := Row(data[r], headers);
      rows := rows + [row];
    }
  }

  /** In the header row the source builds, `Filename` is the first column
      and no other, so only the first column is justified left. */
  lemma FilenameFirst(statsLists: seq<Stats>)
    ensures Headers(statsLists).Ok? ==>
      var h := Headers(statsLists).value;
      |h| >= 2 && forall i :: 0 <= i < |h| ==> (h[i] == "Filename" <==> i == 0)
  {
    HeadersSpec(statsLists);
    if Headers(statsLists).Ok? {
      var h := Headers(statsLists).value;
      forall i | 0 < i < |h| - 1 ensures h[i] != "Filename" {
        assert h[i] in h[1..|h| - 1];
      }
    }
  }

  /** A file's row in that table starts with its name and ends with its
      number of keyword tuples. */
  lemma RowEnds(catalog: Catalog, filename: string, headers: seq<string>)
    requires |headers| >= 2 && headers[0] == "Filename" && headers[|headers| - 1] == "Total"
    ensures CellOf(FileStats(catalog, filename), headers[0]) == filename
    ensures CellOf(FileStats(catalog, filename), headers[|headers| - 1]) == NatToString(|catalog|)
  {
  }
}
