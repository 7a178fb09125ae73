# Slide automation: a verified model

This project models the text-processing core of a small toolchain that turns a
markdown slide outline into a PowerPoint presentation.

- **Outline converters** (`md2json.py` and the newer `src/md2json.py`). They cut
  the outline into slides at separator lines. Each slide gets titles, body lines
  and, in the newer version, a slide index. Body lines are routed into sections
  (title, content, visual, notes) by tags such as `Speaker notes:`. The newer
  version also cleans each section: link targets, tags and repeated lines are
  removed. It then applies fix-up rules to title, subtitle and content.
- **Layout catalog** (`src/process_template.py`). `simplify_name` reduces a layout
  name to a sorted tuple of keywords, through lower-casing, blanking, number-word
  fusion, plural dropping and a synonym table. `Layouts` files a template's
  layouts under those tuples. `get_layouts` answers which layouts have exactly the
  requested keywords.
- **Slide builders** (`create_w_template.py` and the newer
  `src/create_w_template.py`). They write each section into a placeholder as
  paragraphs of runs, with bold toggled at every `**`. Sections without a
  placeholder, and pictures that could not be inserted, are demoted into the
  speaker notes. The older builder resolves its two layouts by name with
  fallbacks.
- **Transcript cleaner** (`clean_vtt.py` and `src/clean_vtt.py`). It filters a
  WebVTT subtitle file down to its text lines: no blanks, no cue timings, no
  repeats, tags replaced by spaces and spaces squeezed. The newer version checks
  the three-line preamble.
- **Statistics table** (`src/project/scan_pptx.py`). It counts each template's
  layouts per keyword tuple, builds the header row over all templates, and builds
  the rows of the table.

The model is written in Dafny over plain values. A Python string is a
`seq<char>`; a dictionary is a list of key/value pairs in insertion order
(`Dicts`). A JSON section value is either a string or a list of strings, so the
source's habit of indexing a bare string character by character is kept. The
parts of the source that work step by step (the scanners, the cleaning and
dedup loops, the header and row builders, `simplify_name`'s loops, the catalog)
are methods with loops. Each is proved equal to a specification function, and
the properties are proved about those functions.

Python's raising of an exception is modelled as an `Err` result with the
exception's kind (`KeyError`, `IndexError`, `ValueError`, `TypeError`,
`AttributeError`, `FileNotFoundError`, or `sys.exit` with its message).

The pptx library, the fit scorer, file I/O and randomness are outside the model.
Their answers come in as parameters:
- the layouts of a template, with their names and whether they have shapes;
- the fitted layouts of a slide;
- the sections that got a placeholder;
- whether a picture could be inserted;
- whether an input file exists.

Module map:

| module | file | models |
|---|---|---|
| `Wrappers` | wrappers.dfy | `Option`, `Result` and the exceptions raised |
| `Strings` | strings.dfy | `strip`, `lower`, `find`, `split`, `join`, `replace`, `sorted(set(...))`, `str(n)` |
| `Dicts` | dicts.dfy | insertion-ordered dicts, `d.get`, `d[k] = v`, JSON values |
| `Patterns` | patterns.dfy | the regular expressions `<[^>]+>`, `\[[^>]+?\]` and ` +` as scanners |
| `ProcessTemplate` | process_template.dfy | `src/process_template.py` |
| `SlideAssembly` | slide_assembly.dfy | `src/create_w_template.py` |
| `LegacyAssembly` | legacy_assembly.dfy | `create_w_template.py` |
| `OutlineParts` | outline_parts.dfy | the scanner and tag routing both `md2json.py` versions share |
| `Outline` | outline.dfy | `src/md2json.py` |
| `LegacyOutline` | legacy_outline.dfy | `md2json.py` |
| `Transcript` | transcript.dfy | `src/clean_vtt.py` and `clean_vtt.py` |
| `ScanPptx` | scan_pptx.dfy | `src/project/scan_pptx.py` |

## Model

| member | source | states |
|---|---|---|
| ProcessTemplate.ParseRules | src/process_template.py:14-18 | a parsed synonym table has distinct keys (a later rule with the same key replaces the earlier one in place) and every key holds at least one value |
| ProcessTemplate.ParseSynonyms | src/process_template.py:14-18 | the module-level loop over the lines of the rules text builds the table the rule-by-rule reading describes |
| ProcessTemplate.RulesRoundTrip | src/process_template.py:8-18 | writing a well-formed table as rules text (one `values=key` line per rule after an empty first line) and parsing it gives the same table back |
| ProcessTemplate.SynonymTableParsed | src/process_template.py:8-18 | the rules text of the module is exactly the four-rule table: `only,with,and,section` to the empty key, `_object,_picture` to `_column`, `description,text,picture,body,one_column` to `content`, `big number,caption,header,main point` to `title` |
| ProcessTemplate.RuleLineParts | src/process_template.py:15-18 | a well-formed rule line has no newline, holds `=`, splits at `=` into the joined values and the key, and the joined values split at `,` into the values |
| ProcessTemplate.BlankChars | src/process_template.py:26-27 | blanking adds only spaces, and afterwards no blanked character (digits, `_`, `-`, `.`, `,`) is left |
| ProcessTemplate.FuseCardinals | src/process_template.py:30-32 | gluing number words to the next word brings in no noise character (upper-case letter, digit, `-`, `.`, `,`) |
| ProcessTemplate.DropPlurals | src/process_template.py:33 | dropping the plural `s` brings in no noise character |
| ProcessTemplate.ApplySynonyms | src/process_template.py:34-37 | replacing every synonym by its key, rule by rule in table order, brings in no noise character when the keys have none |
| ProcessTemplate.Keywords | src/process_template.py:39-41 | the keywords of a string are strictly sorted and are exactly the non-empty stripped space-separated pieces |
| ProcessTemplate.KeywordsShape | src/process_template.py:39-41 | each keyword is non-empty, has no space inside or at its ends, and holds only characters of the string it was cut from |
| ProcessTemplate.BlankAll | src/process_template.py:26-27 | the first loop of `simplify_name` blanks each listed character in turn |
| ProcessTemplate.GlueCardinals | src/process_template.py:30-32 | the second loop glues each number word found before a space to the next word, in the order of the number words |
| ProcessTemplate.ReplaceSynonyms | src/process_template.py:34-37 | the nested loop replaces every value of every rule by the rule's key, in table order |
| ProcessTemplate.SimplifyName | src/process_template.py:24-41 | the step-by-step `simplify_name` computes the keyword tuple of the name as the composed rewriting steps define it |
| ProcessTemplate.CardinalsSplit | src/process_template.py:30 | the comma-separated literal of number words splits into the nine words `one` to `nine` |
| ProcessTemplate.SimplifiedNameShape | src/process_template.py:24-41 | a keyword tuple is strictly sorted (sorted and free of duplicates); its keywords are non-empty, space-free, and contain no upper-case letter, digit, `-`, `.` or `,` |
| ProcessTemplate.NoiseIsBlanked | src/process_template.py:25-27 | every digit, `-`, `.` and `,` is among the blanked characters |
| ProcessTemplate.BlankNameHasNoKeywords | src/process_template.py:24-41 | a name made only of whitespace, digits, `_`, `-`, `.` and `,` (the empty name included) has the empty keyword tuple |
| ProcessTemplate.SpaceHasNoKeywords | src/process_template.py:28-41 | the lone space such a name leaves goes through number fusion, plural dropping and every synonym rule unchanged and has no keywords |
| ProcessTemplate.Visits | src/process_template.py:51-63 | the catalog visits the first layout of each slide master in order, then each slide layout in order, each tagged with its collection and position |
| ProcessTemplate.Index | src/process_template.py:50-63 | the catalog built from the visited layouts has distinct keyword tuples |
| ProcessTemplate.IndexNext | src/process_template.py:53-57 | visiting one more layout files it on top of the catalog of the earlier ones |
| ProcessTemplate.Bucket | src/process_template.py:53-63 | the entries under a tuple are exactly the visited layouts that have shapes or placeholders and whose name simplifies to that tuple |
| ProcessTemplate.IndexBuckets | src/process_template.py:48-64 | the catalog holds, under every keyword tuple, exactly the usable layouts with that tuple in visiting order; a tuple is a key exactly when it has such a layout, so a layout with neither shapes nor placeholders is never stored |
| ProcessTemplate.IndexBucket | src/process_template.py:48-64 | the same for one given keyword tuple |
| ProcessTemplate.IndexKeysSorted | src/process_template.py:56-63 | every key of the catalog is a strictly sorted tuple |
| ProcessTemplate.BucketInOrder | src/process_template.py:57-63 | within a key, slide-master entries come before slide-layout entries, and each collection is in position order |
| ProcessTemplate.VisitsInOrder | src/process_template.py:51-63 | the visiting order itself is masters first, then layouts, each by position |
| ProcessTemplate.Records | src/process_template.py:73 | the answer lists the layout of each collected entry, in order |
| ProcessTemplate.ElementsCount | src/process_template.py:71 | `len(set(xs))` is at most `len(xs)`, and equal exactly when no element repeats |
| ProcessTemplate.SubsetCount | src/process_template.py:71 | a subset is no larger than its superset, and as large only when equal |
| ProcessTemplate.SortedDistinct | src/process_template.py:70-71 | a strictly sorted key repeats no element |
| ProcessTemplate.FitsExactly | src/process_template.py:70-71 | for a key without repeats, the length test plus the intersection-count test holds exactly when `parts` has no repeats and the same elements as the key |
| ProcessTemplate.SortedKeyFits | src/process_template.py:70-71 | a strictly sorted key passes both tests exactly when `parts` has no repeats and the key is `parts` sorted |
| ProcessTemplate.FittingIsLookup | src/process_template.py:66-73 | on a catalog with distinct strictly sorted keys, `get_layouts(parts)` collects exactly the entries under `sorted(parts)`; it answers nothing when `parts` repeats an element, and the empty-key entries when `parts` is empty |
| ProcessTemplate.TemplateLookup | src/process_template.py:48-73 | for a template, `get_layouts(parts)` answers the usable layouts whose name simplifies to `sorted(parts)`, masters first and each collection in order, and nothing when `parts` repeats an element |
| ProcessTemplate.Layouts.constructor | src/process_template.py:45-46 | a new catalog object holds the catalog of the template's layouts |
| ProcessTemplate.Layouts.File | src/process_template.py:53-57 | one loop body skips a layout with neither shapes nor placeholders and otherwise appends it to the list under its keywords |
| ProcessTemplate.Layouts.ProcessPresentation | src/process_template.py:48-64 | the two loops together build the catalog of all visited layouts |
| ProcessTemplate.Layouts.FileMasters | src/process_template.py:51-57 | the first loop files the first layout of every slide master |
| ProcessTemplate.Layouts.FileLayouts | src/process_template.py:58-63 | the second loop continues that catalog with every slide layout |
| ProcessTemplate.Layouts.GetLayouts | src/process_template.py:66-73 | the method answers the layouts of the fitting entries, which the lemmas above characterise |
| SlideAssembly.Showed | src/create_w_template.py:91-98 | the shown data holds exactly the entries with a non-empty value whose key is not `notes`, `visual` or `index`, and keeps keys distinct |
| SlideAssembly.CleanSegment | src/create_w_template.py:57 | a cleaned `**`-segment holds no `*` and no whitespace at either end |
| SlideAssembly.Odd | src/create_w_template.py:54-62 | the bold flag after `n` toggles from false is set exactly when `n` is odd |
| SlideAssembly.Kept | src/create_w_template.py:58 | the positions of the non-blank cleaned segments, increasing, and all of them |
| SlideAssembly.CleanRunsKept | src/create_w_template.py:54-62 | there is one run per non-blank segment, in order; its text is the cleaned segment plus a space, and it is bold exactly when the segment's position is odd, so blank segments still toggle bold |
| SlideAssembly.RunTexts | src/create_w_template.py:57-61 | no run is empty or holds `*`; each is a stripped word followed by one space |
| SlideAssembly.Frame | src/create_w_template.py:44-48 | after `clear()` the frame has one empty paragraph, followed by as many paragraphs as there are content lines |
| SlideAssembly.Paragraphs | src/create_w_template.py:46-48 | one paragraph per content line |
| SlideAssembly.ToggleRuns | src/create_w_template.py:54-62 | the run loop, toggling bold at every segment, builds the runs described above |
| SlideAssembly.AddRuns | src/create_w_template.py:55-62 | the runs of a line's text split at `**` |
| SlideAssembly.AddParagraph | src/create_w_template.py:47-62 | one loop body builds the paragraph `LineParagraph` defines for the line |
| SlideAssembly.LineParagraph | src/create_w_template.py:47-53 | a paragraph gets level 0 exactly when its stripped line starts with `-`, and keeps the default level otherwise |
| SlideAssembly.AddContent | src/create_w_template.py:43-62 | `add_content` builds the cleared frame followed by the paragraph of each content line, in order |
| SlideAssembly.PlaceSectionsSummary | src/create_w_template.py:109-119 | the section loop succeeds exactly when every shown section without a placeholder can be demoted. Then every placed section has its frame, in slide-data order. The notes list has gained `Placeholder not found:`, the part name and its lines for every other shown section, in slide-data order, so nothing shown is dropped |
| SlideAssembly.NotesText | src/create_w_template.py:77-79 | notes are written, joined by newlines, exactly when they are non-empty |
| SlideAssembly.ImagesNotes | src/create_w_template.py:65-79 | a picture, the first visual, is inserted exactly when there are visuals and shapes and the insertion succeeds. A failed insertion raises `AttributeError` on text notes and `TypeError` on text visuals; otherwise the notes list, when the slide has one, becomes the notes plus `Visuals:` plus the visuals. The notes text is the newline-join of the final list, and is written exactly when that list is non-empty. Without a failed insertion the slide data is unchanged |
| SlideAssembly.FailedPictureNotes | src/create_w_template.py:68-79 | a failed insertion appends `Visuals:` and every visual to the notes, and the notes text written splits back into that list |
| SlideAssembly.AddSlide | src/create_w_template.py:97-123 | an empty fitted list raises `IndexError`; otherwise a failure of the section loop or of the notes step is raised; otherwise the slide uses some layout of the fitted list with the assembled frames and notes |
| SlideAssembly.PlaceAll | src/create_w_template.py:109-119 | the section loop of `add_slide` computes the placement the loop function defines |
| SlideAssembly.PlaceNext | src/create_w_template.py:109-119 | after a failure the loop stays failed; otherwise one more entry is placed |
| SlideAssembly.DumpNotes | src/create_w_template.py:82-88 | `add_images_notes_` writes the key-headed dump joined by newlines |
| SlideAssembly.DumpShape | src/create_w_template.py:82-88 | every key heads its block as `key:`, and the dump has one line per key plus one per item |
| SlideAssembly.DumpBlocks | src/create_w_template.py:84-86 | entry `i`'s block starts right after the headers and items of the entries before it: its `key:` header, then exactly its items, in order |
| SlideAssembly.DumpPrefix | src/create_w_template.py:84-86 | the dump of the first entries is a prefix of the whole dump |
| SlideAssembly.SlideOutcome | src/create_w_template.py:97-123 | `add_slide` raises exactly on an input with no fitted layout or a failing assembly, and the error is `FailureOf` that input; otherwise it builds the slide |
| SlideAssembly.FailureOf | src/create_w_template.py:97-123 | the error of a failing input is `IndexError` when no layout fits (the empty shuffle) and the assembly's own error otherwise |
| SlideAssembly.CreatePresentation | src/create_w_template.py:142-156 | the loop raises exactly when some slide fails, and the error is that of the first failing slide, every slide before it succeeding. Otherwise it builds every slide in order and reports the slides loaded, the new slides, the total (previous plus new) and the previous count |
| LegacyAssembly.Variants | create_w_template.py:16-19 | a layout answers to three spellings, the first being its name |
| LegacyAssembly.VariantsShape | create_w_template.py:18-19 | the second and third spellings have no `_`, and the third has no upper-case letter |
| LegacyAssembly.AvailableUnique | create_w_template.py:14-19 | the spelling dictionary has one entry per layout name |
| LegacyAssembly.AvailableNames | create_w_template.py:14-19 | every layout name has an entry |
| LegacyAssembly.AvailableEntries | create_w_template.py:14-19 | every entry is a layout name holding that name's spellings |
| LegacyAssembly.AnyInMembers | create_w_template.py:27-28 | some wanted spelling is listed exactly when some element of `wanted` is among the spellings |
| LegacyAssembly.LastWithSpec | create_w_template.py:21-36 | a pass keeps its entry when no layout answers; otherwise it picks the last layout, in template order, that has a wanted spelling |
| LegacyAssembly.Pick | create_w_template.py:21-36 | a pass that picks something picks a non-empty layout name from the dictionary |
| LegacyAssembly.ResolveSpec | create_w_template.py:20-36 | a resolved entry names a layout that answers to the key or, when none does, to an alternative; it stays unset exactly when no layout answers to either. The key takes precedence: when some layout answers to it, the entry is the last such layout; when none does, it is the last layout answering to an alternative |
| LegacyAssembly.KeyNamed | create_w_template.py:20-36 | a resolved entry is the name of an existing layout |
| LegacyAssembly.KeyUnset | create_w_template.py:20-36 | an entry stays unset exactly when no layout name has a spelling equal to the key or an alternative |
| LegacyAssembly.AnswersByName | create_w_template.py:14-24 | some dictionary entry answers exactly when some layout name does |
| LegacyAssembly.LayoutMapSpec | create_w_template.py:20-40 | `map_layouts` exits with "No suitable layouts found" exactly when one of the two entries finds no layout through its key or alternatives; otherwise both are names of template layouts |
| LegacyAssembly.MapLayouts | create_w_template.py:13-40 | the step-by-step `map_layouts` computes the layout map described by the passes |
| LegacyAssembly.BuildAvailable | create_w_template.py:14-19 | the first loop builds the spelling dictionary |
| LegacyAssembly.PrimaryPass | create_w_template.py:20-24 | the second loop sets each key to the last layout that has its lower-cased key as a spelling |
| LegacyAssembly.FallbackPass | create_w_template.py:25-36 | a fallback loop sets the entry to the last layout with an alternative spelling; `break` leaves only the inner loop |
| LegacyAssembly.AlternateRuns | create_w_template.py:100-106 | one run per `**`-segment, empty ones included, bold exactly at odd positions |
| LegacyAssembly.RunsDropSeparators | create_w_template.py:101-106 | the run texts, concatenated, give the line with every `**` removed |
| LegacyAssembly.LegacyRuns | create_w_template.py:100-106 | the run loop builds those alternating runs |
| LegacyAssembly.LegacyLine | create_w_template.py:92-106 | one loop body builds the paragraph `LegacyParagraph` defines: a stripped line starting with `-` loses it, is stripped again and gets level 0; the runs are the alternating runs of its `**`-segments |
| LegacyAssembly.LegacyParagraph | create_w_template.py:93-99 | a paragraph gets level 0 exactly when its stripped line starts with `-`, and keeps the default level otherwise |
| LegacyAssembly.LegacyFrame | create_w_template.py:89-106 | the cleared frame is followed by one paragraph per content line, in order |
| LegacyAssembly.LegacyContent | create_w_template.py:89-106 | the content loop builds that frame |
| LegacyAssembly.TitleText | create_w_template.py:72 | the title text is no longer than the first title part and has no whitespace at its ends |
| LegacyAssembly.TitleTextNoMarks | create_w_template.py:72 | when the only whitespace in the first part is plain spaces, the title does not start with `#` |
| LegacyAssembly.BuiltSlide | create_w_template.py:57-90 | a slide is skipped exactly when it has no title parts. A slide without a title placeholder raises `AttributeError`. A title slide with more than one part and no placeholder with index 1 raises `KeyError`. A built slide has the first part, `# `-trimmed, as title. It uses the title-slide layout exactly when its second title part contains "Title Slide" (or both layouts are the same), and the title-and-content layout otherwise. Its body is the content frame exactly when there is content and an index-1 text placeholder (the `clear()` wipes a subtitle). Otherwise it has a subtitle, the second part, exactly when it uses the title-slide layout and has more than one part |
| LegacyAssembly.BuildOne | create_w_template.py:57-124 | one pass of the slide loop: the same errors, skip and slide as `BuildSlide` |
| LegacyAssembly.BuildAllCount | create_w_template.py:55-59 | when the loop gets through, it builds one slide per input with title parts |
| LegacyAssembly.BuildAllFails | create_w_template.py:55-124 | once the loop fails, later slides do not change the failure |
| LegacyAssembly.BuildLoop | create_w_template.py:55-124 | the slide loop builds the slides in order, skipping untitled ones, or raises the first failure |
| LegacyAssembly.CreatePresentation | create_w_template.py:43-127 | a failed layout resolution exits with "No suitable layouts found"; otherwise the slides are built with the resolved layouts |
| OutlineParts.Slides | src/md2json.py:46-48 | the slides yielded are the closed ones followed by the slide being filled |
| OutlineParts.ScanLines | src/md2json.py:31-82 | the scanner loop counts fences, skips lines while the count is positive and even, closes a slide at each separator, and fills titles, body lines and index as the scanner function defines |
| OutlineParts.ScannedCounts | src/md2json.py:39-50 | the scanner counts every fence and closes one slide per separator read; the slide being filled has number separators-plus-one |
| OutlineParts.SlideCount | src/md2json.py:45-50 | one slide more is yielded than separators are read, because the slide being filled is never empty and is always yielded |
| OutlineParts.ScannedFromLines | src/md2json.py:39-79 | every body line and title of a slide comes from a read line classified as such: a line after an even, positive number of fences contributes nothing. A slide has at most one index, none before its first title, and without numbering its index comes from a read heading |
| OutlineParts.ScannedNumbers | src/md2json.py:68-76 | with numbering, slide `k` (from 0) has an index exactly when it has a title; the index is `Slide k+1` unless a read heading names it |
| OutlineParts.ScannedPositional | src/md2json.py:75-76 | with numbering and no heading naming an index, titled slide `k` (from 0) has exactly the index `Slide k+1` and an untitled one none |
| OutlineParts.ScannedNumbering | src/md2json.py:35-76 | after any lines, the slide number is one past the finished slides, and every finished slide and the current one are numbered by their position |
| OutlineParts.ReadLast | src/md2json.py:39-44 | the last line is read exactly when the fence count before it is zero or odd |
| OutlineParts.Unnamed | src/md2json.py:68-70 | when no heading names an index, no read line names one |
| OutlineParts.ScannedData | md2json.py:65-67 | a property every classified body line has holds for every body line of every slide |
| OutlineParts.ScannedUnindexed | md2json.py:31-70 | without numbering and with no heading naming an index, no slide has an index |
| OutlineParts.MarkClassSpec | src/md2json.py:134-140 | a tag finds a class exactly when some class lists it, and it finds the first such class in table order |
| OutlineParts.AddToSpec | src/md2json.py:112-115 | `add_to_section` puts a line that is neither blank nor `*` into exactly one section, and drops any other line |
| OutlineParts.RoutedSpec | src/md2json.py:127-142 | routing loses no addable payload and adds nothing else. The sections grow by one line per body line whose payload is addable, and each new line is such a payload. The current section is always a section |
| OutlineParts.TaggedSections | src/md2json.py:134-139 | a tag switches only to a class that is a section |
| OutlineParts.RoutedByMarks | src/md2json.py:127-142 | routing with a marks table loses no addable payload and adds nothing else |
| OutlineParts.RoutedSwitch | src/md2json.py:131-139 | a body line with a section tag makes that section current |
| OutlineParts.RouteLines | src/md2json.py:127-142 | the routing loop computes the sections the routing function defines |
| Outline.HashEnd | src/md2json.py:64-67 | a heading's text starts after its leading `#`s, or at the last character when the line is all `#` |
| Outline.HeadingOf | src/md2json.py:63-77 | a heading line is classified as a heading |
| Outline.HeadingTitle | src/md2json.py:63-77 | a heading naming no `Slide` keeps its whole text and has no index; one naming a `Slide` has an index, and its title is the text as the colon and dash rules cut it (`SlideTitle`, whose meaning Outline.SlideTitleSpec states) |
| Outline.HeadingSuffix | src/md2json.py:65-74 | a heading's title is a suffix of its text after the `#`s |
| Outline.SlideTitleSpec | src/md2json.py:71-74 | the cut title is a suffix of the text. When a `:` follows the `Slide`, the title holds no `:` and is a suffix of what follows the last `:`, stripped. When a ` - ` follows the `Slide` in that result, the title is what follows its last en dash ` – `, stripped. Otherwise, or when that result holds no ` – `, the title is that result whole |
| Outline.ColonRuleSpec | src/md2json.py:71-72 | the colon rule leaves a suffix of the text: what follows the last `:`, stripped and without `:`, when a `:` follows the `Slide`, and the whole text otherwise |
| Outline.DashRuleSpec | src/md2json.py:73-74 | the dash rule leaves a suffix of the text: what follows the last en dash ` – `, stripped, when a ` - ` follows the `Slide`, and the whole text when none does or the text holds no ` – ` |
| Outline.SlideTitleSuffix | src/md2json.py:71-74 | the cut title is a suffix of the text |
| Outline.AfterLastSpec | src/md2json.py:72-74 | `split(sep)[-1]` is a suffix of the text that holds no `sep`; it follows a `sep` when the text holds one, and is the whole text otherwise |
| Outline.CutAfterSpec | src/md2json.py:72-74 | `split(sep)[-1].strip()` of a stripped text is a suffix of it that holds no `sep`, and the whole text when it holds no `sep` |
| Outline.ColonCutClean | src/md2json.py:71-74 | the colon cut leaves no `:`, and neither does the dash cut after it |
| Outline.ClassifyIndex | src/md2json.py:68-70 | an index a heading line names starts with `Slide` |
| Outline.IndexNamesSlide | src/md2json.py:68-76 | a positional index and a heading-named index both start with `Slide` |
| Outline.ExtractData | src/md2json.py:31-82 | `extract_data` yields the slides of the scanner over the newer classification, numbering slides |
| Outline.ClassifySeparator | src/md2json.py:39-50 | a line is a separator exactly when, stripped, it is not a fence and contains `---` |
| Outline.IndexCut | src/md2json.py:68-70 | the index cut where `Slide` first occurs starts with `Slide` and has at most nine characters |
| Outline.HeadingIndex | src/md2json.py:68-70 | a heading that names a slide gets an index of at most nine characters starting with `Slide` |
| Outline.DashRuleKeeps | src/md2json.py:73-74 | the second title rule tests for ` - ` but cuts at ` – `, so a title without an en dash, such as one with an ASCII dash, is never cut |
| Outline.ExtractedSpec | src/md2json.py:31-82 | one slide more than separators read; every slide's body lines and titles come from read lines classified as such; slide `k` (from 0) has an index exactly when it has a title, the index starts with `Slide` and is `Slide k+1` unless a read heading names it |
| Outline.FirstSeen | src/md2json.py:92-106 | no more pieces are kept than given; what the kept pieces are is stated by Outline.FirstSeenSpec |
| Outline.FirstSeenNext | src/md2json.py:94-105 | one more piece is kept exactly when its normalised form is non-empty and is none of the pieces kept so far |
| Outline.FirstSeenSpec | src/md2json.py:85-106 | the kept pieces are a subsequence of the split pieces. Each kept piece has a non-empty normalised form that is none of the raw pieces kept before it. A dropped piece has an empty normalised form, or a normalised form among the kept raw pieces |
| Outline.FirstSeenOrder | src/md2json.py:94-105 | the kept pieces appear in the pieces, in order |
| Outline.FirstSeenFresh | src/md2json.py:103-105 | each kept piece has a non-empty normalised form that is not an earlier kept piece |
| Outline.FirstSeenCovers | src/md2json.py:103-105 | every piece with a non-empty normalised form is kept, or its normalised form already was |
| Outline.FirstSeenLast | src/md2json.py:103-105 | the last piece alone decides whether it is kept |
| Outline.DuplicateKept | src/md2json.py:103-105 | the comparison of a normalised form with raw pieces keeps a piece twice when it comes twice and is not already in normal form |
| Outline.CleanText | src/md2json.py:85-106 | `clean_text` joins with `\|\|`, optionally removes `[…]` and `<…>` and `*`, splits, and keeps the first-seen pieces as the cleaning function defines |
| Outline.CleanTextNoStar | src/md2json.py:90-91 | with `remove_md`, no kept piece holds a `*` |
| Outline.CleanTextTagless | src/md2json.py:87-94 | with `remove_tags`, no kept piece holds a `<…>` tag, whether or not `remove_md` then deletes the `*` and strips |
| Outline.ArrangeSpec | src/md2json.py:150-160 | after the fix-up rules the title has at most one item, and a title of two or more lines keeps the first and gives the rest to the subtitle. Without a title, a first content line of several characters becomes a one-character title with the rest of the string as subtitle. When a single content line remains, the subtitle is not empty |
| Outline.CleanNothing | src/md2json.py:146-148 | cleaning the still-empty subtitle leaves it empty |
| Outline.ParseSlide | src/md2json.py:118-166 | one slide is routed, each section cleaned (title and content keep markdown, the others keep tags) and arranged |
| Outline.SectionsOfShape | src/md2json.py:119-160 | the dictionary has `index`, `title`, `subtitle`, `content`, `visual`, `notes` in this order, and a title of at most one item |
| Outline.ParsedShape | src/md2json.py:118-166 | every parsed slide has those six sections in order and a title of at most one item |
| Outline.ParsedNoStar | src/md2json.py:146-148 | speaker notes and visuals never hold a `*` |
| Outline.ParseMarkdown | src/md2json.py:109-166 | `parse_markdown` yields one sections dictionary per extracted slide, in order |
| LegacyOutline.HeadingOf | md2json.py:55-64 | a heading line is classified as a heading without an index |
| LegacyOutline.HeadingTitle | md2json.py:59-64 | a heading's title is its text after the `#`s as the colon and dash rules cut it (`CutTitle`, whose meaning LegacyOutline.CutTitleSpec states), a suffix of that text, and it has no index |
| LegacyOutline.CutTitleSpec | md2json.py:60-63 | the cut title is a suffix of the text, and the text whole when it names no `Slide`. When it names a `Slide` and holds a `:`, the title holds no `:` and is a suffix of what follows the last `:`, stripped. When that result still names a `Slide` and holds an en dash ` – `, the title is what follows its last ` – `, stripped; otherwise it is that result whole |
| LegacyOutline.ExtractData | md2json.py:31-70 | `extract_data` yields the slides of the scanner over the older classification, without numbering |
| LegacyOutline.ClassifySeparator | md2json.py:43-54 | only a line that is exactly `---`, once stripped and unwrapped, separates slides |
| LegacyOutline.ClassifyData | md2json.py:49-67 | every body line the classification gives is neither empty nor `*` |
| LegacyOutline.ExtractedSpec | md2json.py:31-70 | one slide more than separators read; every slide's body lines and titles come from read lines classified as such; every body line is neither empty nor `*`; no slide has an index |
| LegacyOutline.ContentTags | md2json.py:9-15 | `subtitle:` and `text:` tags open the content section |
| LegacyOutline.Parsed | md2json.py:83-103 | the sections dictionary has `notes`, `content`, `visual`, `title` in this order |
| LegacyOutline.TitleFallback | md2json.py:100-103 | without headings the first content line becomes the title, as a bare string, and the content keeps the rest; with headings both stay as routed |
| LegacyOutline.ParseSlide | md2json.py:82-107 | one slide is routed and given the title fallback |
| LegacyOutline.ParseMarkdown | md2json.py:73-107 | `parse_markdown` yields one sections dictionary per extracted slide, in order |
| Patterns.FirstIndexSpec | src/clean_vtt.py:27 | the first-occurrence search finds the first `c`, and nothing only when there is none |
| Patterns.TagLengthSpec | src/clean_vtt.py:27 | a tag matches at the start exactly when the text starts with `<`, a `>` follows later, and it is not the next character |
| Patterns.SubTagsChars | src/clean_vtt.py:27 | replacing tags brings in only characters of the replacement |
| Patterns.SubTagsTagless | src/clean_vtt.py:27 | after the replacement no tag is left, when the replacement has no angle bracket |
| Patterns.SubTagsOfTagless | src/md2json.py:89 | a text without tags is unchanged, so the replacement is idempotent |
| Patterns.BracketLengthSpec | src/md2json.py:88 | a `[…]` match starts with `[`, ends at the first `]` after the next character, and holds no `>` |
| Patterns.DropBracketsChars | src/md2json.py:88 | removing `[…]` runs only removes characters |
| Patterns.SqueezeSpec | src/clean_vtt.py:28 | squeezing spaces keeps the same set of characters, leaves no two spaces in a row, and starts with a space exactly when the text does |
| Patterns.SqueezeOfSqueezed | src/clean_vtt.py:28 | a text without double spaces is unchanged, so squeezing is idempotent |
| Transcript.Dedup | src/clean_vtt.py:25-32 | the repeat filter yields no more lines than it gets; which lines it yields is stated by Transcript.DedupSpec |
| Transcript.DedupSpec | src/clean_vtt.py:16-20 | the repeat filter never yields a line equal to the one before, nor `""` first (the comparison starts from `""`); it yields only given lines and loses no non-empty line |
| Transcript.DedupOfNoRepeats | src/clean_vtt.py:25-32 | lines without repeats pass unchanged, so the filter is idempotent |
| Transcript.KeepSpec | src/clean_vtt.py:10-15 | each kept line is an accepted image of an input line, and every accepted image is kept |
| Transcript.SignalNext | src/clean_vtt.py:10-20 | one more line is yielded exactly when, stripped, it is neither blank, nor a cue timing, nor the line yielded last |
| Transcript.FilterLines | src/clean_vtt.py:7-20 | `filter_lines` yields the stripped lines that are neither blank nor cue timings, with repeats of the last yielded line dropped; skipped lines do not reset the comparison |
| Transcript.FilteredSpec | src/clean_vtt.py:7-20 | what `filter_lines` yields never holds a blank or ` --> ` line or two equal lines in a row; it keeps every other stripped line and nothing else |
| Transcript.PlainSpec | src/clean_vtt.py:27-29 | a processed line has no tag and no double space, is stripped, and holds only characters of the line and spaces |
| Transcript.StrippedSqueeze | src/clean_vtt.py:28-29 | squeezing and stripping a tagless text keeps it tagless, leaves no double spaces, and brings in no new characters |
| Transcript.TaglessSqueeze | src/clean_vtt.py:27-28 | squeezing spaces cannot join a `<` and a `>` into a new tag |
| Transcript.ProcessLines | src/clean_vtt.py:23-32 | `process_lines` yields the plain form of each filtered line, dropping repeats of the last yielded line |
| Transcript.ProcessedSpec | src/clean_vtt.py:23-32 | every processed line is the plain form of a stripped input line, without tags or double spaces, stripped and different from the line before; the first is not `""` |
| Transcript.FirstStraySpec | src/clean_vtt.py:50-53 | the first line without a preamble marker has every line before it marked; there is none exactly when all lines are marked |
| Transcript.ScreenedSpec | src/clean_vtt.py:48-56 | the program exits, naming the first bad line, exactly when one of the first three processed lines lacks a `WEBVTT`, `Kind:` or `Language:` prefix; otherwise it prints every line after the third |
| Transcript.Screen | src/clean_vtt.py:48-56 | the main loop counts preamble lines, exits on the first unmarked one, and prints the rest, as the screening function defines |
| Transcript.CleanAsWritten | src/clean_vtt.py:46-56 | as written, a missing input file is not caught by the guard and fails with `FileNotFoundError` when it is opened |
| Transcript.MissingFileAsWritten | src/clean_vtt.py:46-47 | as written, a missing file never gets the guard's "does not exist" exit |
| Transcript.Clean | src/clean_vtt.py:46-56 | with the guard in force, a missing file exits with "Input file … does not exist"; otherwise the processed lines are screened |
| Transcript.LegacyClean | clean_vtt.py:62-65 | with the guard in force, a missing file exits; otherwise every processed line is printed, with no preamble check |
| Transcript.LegacyCleanAsWritten | clean_vtt.py:62-65 | as written, a missing input file fails with `FileNotFoundError` when it is opened; otherwise every processed line is printed, none equal to the one before it |
| Transcript.LegacyMissingFileAsWritten | clean_vtt.py:62-63 | as written, a missing file never gets the guard's "does not exist" exit |
| Transcript.PreambleNext | src/clean_vtt.py:51-54 | a marked line keeps the checked preamble free of stray lines |
| ScanPptx.Tally | src/project/scan_pptx.py:23 | the dict comprehension gives a dictionary with distinct keys |
| ScanPptx.TallyKey | src/project/scan_pptx.py:23 | a label is a key of the comprehension exactly when some keyword tuple has it |
| ScanPptx.TallyLast | src/project/scan_pptx.py:23 | each label maps to the layout count of the last tuple with that label |
| ScanPptx.TallySize | src/project/scan_pptx.py:23 | with pairwise different labels there is one key per tuple |
| ScanPptx.FileStats | src/project/scan_pptx.py:21-26 | the statistics have distinct keys; `Filename` is the file name, `Total` the number of keyword tuples, and every other key keeps its count |
| ScanPptx.CompletedAppends | src/project/scan_pptx.py:24-25 | when the counts hold neither key, `Total` and then `Filename` are appended after them |
| ScanPptx.ProcessPptxFile | src/project/scan_pptx.py:21-26 | the statistics of a template are those of the catalog its `Layouts` object builds |
| ScanPptx.CatalogKeys | src/project/scan_pptx.py:22-23 | the catalog of any template has distinct, strictly sorted tuples of non-empty, space-free tokens without noise characters |
| ScanPptx.JoinSpaceInjective | src/project/scan_pptx.py:23 | different tuples of non-empty space-free tokens get different labels |
| ScanPptx.LabelNotReserved | src/project/scan_pptx.py:23-25 | a label of such tokens is never `Total` or `Filename`, so the counts are not overwritten |
| ScanPptx.CatalogLabels | src/project/scan_pptx.py:23 | the labels of a catalog's tuples are the tuples joined by spaces, pairwise different, and never `Total` or `Filename` |
| ScanPptx.CatalogCounts | src/project/scan_pptx.py:23 | the comprehension has one key per keyword tuple (its tokens joined by spaces) mapped to the number of layouts filed under it, and no `Total` or `Filename` key |
| ScanPptx.StatsSpec | src/project/scan_pptx.py:23-26 | the statistics have one entry per keyword tuple with its layout count, plus `Total` and `Filename`: two more keys than the catalog |
| ScanPptx.AllKeys | src/project/scan_pptx.py:34-39 | the union of the keys holds exactly the keys of some file's statistics |
| ScanPptx.IndexOf | src/project/scan_pptx.py:42-43 | `s.index(x)` is the first position of `x`, and there is none only when `x` is absent |
| ScanPptx.Delete | src/project/scan_pptx.py:42-43 | `del s[s.index(x)]` raises `ValueError` exactly when `x` is absent; otherwise it removes one element and keeps all others |
| ScanPptx.DeleteSorted | src/project/scan_pptx.py:41-43 | removing an element keeps a strictly sorted list strictly sorted |
| ScanPptx.HeadersSpec | src/project/scan_pptx.py:41-45 | the header row raises `ValueError` exactly when no file has `Filename` or none has `Total`. Otherwise it is `Filename`, then every other key once in sorted order, then `Total` |
| ScanPptx.NoFilesHeaders | src/project/scan_pptx.py:42 | with no files found, removing `Filename` raises `ValueError` |
| ScanPptx.CollectHeaders | src/project/scan_pptx.py:30-46 | the loop takes the union of the keys; the sorted list, with `Filename` moved first and `Total` last, is the header row described above whatever order the set is listed in |
| ScanPptx.Listed | src/project/scan_pptx.py:41 | `list(headers)` lists exactly the elements of the set |
| ScanPptx.Justification | src/project/scan_pptx.py:54-58 | there is one justification per column, left exactly for `Filename` |
| ScanPptx.CellOf | src/project/scan_pptx.py:63-66 | a cell is `str(value)` when the key is present and `""` when not |
| ScanPptx.Row | src/project/scan_pptx.py:61-66 | a row has exactly one cell per header, each the cell of that header |
| ScanPptx.Rows | src/project/scan_pptx.py:60-68 | there is one row per file, in order, each with one cell per header |
| ScanPptx.FilenameFirst | src/project/scan_pptx.py:41-58 | in a header row that was built, `Filename` is the first column and no other, so only the first column is left-justified |
| ScanPptx.RowEnds | src/project/scan_pptx.py:25-26 | a file's row starts with its name and ends with its number of keyword tuples |
| Strings.StrictlySortedUnique | src/project/scan_pptx.py:41 | two strictly sorted lists with the same elements are equal, so `sorted(set(...))` does not depend on the set's iteration order |
| Strings.SortUnique | src/process_template.py:39-40 | `sorted(set(xs))` is strictly sorted and has exactly the elements of `xs` |
| Strings.JoinSplit | src/process_template.py:15-18 | joining the pieces of a split with the same separator gives the string back |
| Strings.SplitJoinChar | src/process_template.py:15-18 | splitting at a one-character separator that no piece holds undoes a join |
| Strings.FindSpec | src/md2json.py:69 | `find` answers the first occurrence, and nothing only when there is none |
| Strings.NatToStringRoundTrip | src/project/scan_pptx.py:64 | `str(n)` reads back as `n` |
| Dicts.Get | src/create_w_template.py:66-67 | `d.get(k)` finds a value exactly when the key is present, and with distinct keys it finds that key's value |
| Dicts.Put | src/project/scan_pptx.py:24-25 | `d[k] = v` keeps an existing key in its place and appends a new key last. It keeps keys distinct, and afterwards `k` maps to `v` while every other key keeps its value |
| Dicts.PutTwice | src/project/scan_pptx.py:24-25 | a second assignment to a key overwrites the first |
| Dicts.PutNewTwice | src/project/scan_pptx.py:24-25 | two new keys assigned in turn go last, in that order |

## Left out

- The fit scorer and the `Layout` class (`get_fitted_layouts`, `get_fitting`, `Layout.new_from_slide`). `src/create_w_template.py` imports them, but `src/process_template.py` does not define them, so they are not part of this model. Their answers (the fitted layouts and the sections with a placeholder) are inputs to `SlideAssembly.AddSlide`.
- The python-pptx calls (`Presentation`, `slide_layouts`, `add_slide`, `add_picture`, `text_frame.clear`, `notes_slide`, `save`). Templates, slides, text frames and notes are plain values, and the success of a picture insertion is an input.
- `random.shuffle` before `layouts[0]`: the pick is modelled as a choice of any element of the fitted list. Its uniformity is a statistical property and is not modelled.
- File reading and writing, `argparse`, JSON load and dump, `logging` and the warnings redirection, the `rich` console and table, `print`, `show` and `VERBOSE`. Input files are sequences of lines, and the output files are the values returned.
- `rglob`, `is_file`, `lru_cache` and `debugpy` in `src/project/scan_pptx.py`: the statistics of the files found come in as a list.
- `src/project/create_slides_ia.py` is not part of this model: configuration, clipboard, network client and prompt files.
- `processed_content` in `md2json.py` is not modelled: it is a wrapper around the external `markdown2` library.
- Unicode: `str.lower()` is modelled on ASCII letters only, and whitespace is the ASCII whitespace characters.
- A slide master without layouts (`slide_layouts[0]` raises `IndexError`): masters are given by their first layout.
- `slide.placeholders[1]` and the content search in `create_w_template.py` are modelled by one flag per slide: the placeholder with index 1 is taken to be a text placeholder that both lookups find, or that neither does.
- `Layouts.__str__` and the `__main__` blocks, apart from the transcript cleaner's main loop, which is modelled.
- ScanPptx.Listed: the order in which `list(set)` lists a set's elements is left open; only its elements are stated, and `sorted` makes the header row independent of it.
- ScanPptx.Label: `sorted(k)` of a catalog key is modelled as `sorted(set(k))`. The two agree on the catalog's keys, which are strictly sorted.
- ProcessTemplate.SimplifiedNameShape: does not state that `_` appears in a keyword only through number-word fusion or the `_column` key. It states the absence of upper-case letters, digits, `-`, `.` and `,`.
- ProcessTemplate.SimplifyName: the worked examples ("Title and Content" gives `("content", "title")`, "Title Only" gives `("title",)`, "One Column" gives `("content",)`) are not proved. Evaluating the rewriting steps on literal names is beyond what the verifier unfolds within its limits.
- Outline.HeadingOf: its own contract states only that the line is a heading; the `Slide` index and the cuts are stated by Outline.HeadingTitle, Outline.SlideTitleSpec, Outline.HeadingIndex and Outline.ClassifyIndex.
- LegacyOutline.HeadingOf: its own contract states only that the line is a heading without an index; the cuts are stated by LegacyOutline.HeadingTitle and LegacyOutline.CutTitleSpec.

## Findings

| source | as written | input that shows it | evidently intended | confidence | as-written member | corrected member |
|---|---|---|---|---|---|---|
| src/clean_vtt.py:46-47 | `if not Path(args.input).exists:` names the method without calling it; a bound method is always true, so the guard never fires | a path to a file that does not exist: the program goes on, and opening the file raises `FileNotFoundError` | `exists()` is called, and a missing file exits with "Input file … does not exist" (the same holds for clean_vtt.py:62-63) | not executed | Transcript.CleanAsWritten, Transcript.MissingFileAsWritten, Transcript.LegacyCleanAsWritten, Transcript.LegacyMissingFileAsWritten | Transcript.Clean, Transcript.LegacyClean |
