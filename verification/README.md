# rdictcc in Dafny

A model of the text-processing core of `rdictcc.rb`, a command-line client
for the dict.cc German–English dictionary. The model covers three parts.

**Import.** The program builds two stores from the downloadable dict.cc text
file:
- German to English and English to German.
- Each maps a *headword* to an encoded *entry*.
- The headword is the longest word of a phrase once its `(...)`, `{...}` and
  `[...]` annotations are removed.

**Entries.** An entry is the insertion-ordered hash `phrase => [translation,
...]` of `RDictCcEntry`:
- `to_s` encodes it with the separators `=<>`, `:<>:` and `#<>#`, shortest
  phrase first.
- `format_str` renders an encoding in a *normal* or a *compact* layout.

**Queries.** `RDictCcQueryEvaluator` answers three kinds of query against both
stores:
- an exact lookup;
- a key pattern (`:r:`);
- a full-text search (`:f:`), which prints the matching lines of the rendered
  entries through a small two-state line filter.

Modules, one file each:

| file | module | models |
|---|---|---|
| `results.dfy` | `Results` | `Option` (Ruby's `nil`) and `Result` (an error Ruby raises) |
| `strings.dfy` | `Strings` | the Ruby string operations the program relies on: `strip`, `split` with a literal separator, whitespace `split`, `each_line`, `downcase`, and the `^` line anchor |
| `dict_entry.dfy` | `DictEntry` | `RDictCcEntry`: `append`, `to_s`, `format_str`, and their round trip |
| `headword.dfy` | `Headword`, `HeadwordExamples` | `extract_word`, with worked examples |
| `dict_builder.dfy` | `DictBuilder` | `read_dict_file`, `add_line`, `write_database`, `import` |
| `query_engine.dfy` | `QueryEngine` | `query`, `read_db`, `query_simple`, `query_regexp`, `query_fulltext_regexp` |

## How the program is represented

- **Stores.** A DBM file is a `map<string, string>`. The order in which DBM
  enumerates keys is a parameter: a sequence listing each of the store's
  keys exactly once.
  `each_key` with a lookup then yields `Record`s, and `each_value` the
  values, in that order.
- **The dict.cc file.** It is its text. `IO.foreach` is `Lines`: each line
  keeps its line feed.
- **Output.** What a query writes is a `Run`: the arguments of its `puts`
  calls in order, plus the error that stopped it, if any.
  - A `NoMethodError` or `TypeError` caused by `nil` becomes a `Failure`
    value. Output already
    written stays written.
  - In `add_line`, a line without `::` hits this: `extract_word(nil)` or
    `nil.strip!`.
  - In `format_str`, `strip!` can return `nil`, or a group can lack `=<>`.
- **Regular expressions.** Ruby's engine is a `Matcher` parameter:
  `(subject, pattern) -> bool`.
  - The fixed patterns in the code are written out as functions:
    `/^#/`, `/^\s$/`, `/^\s+/`, `/^:r:/`, `/:<>:$/`, the annotation pattern and
    the character filter of `extract_word`.
  - `^` and `$` are line anchors, as in Ruby.
  - `Literal` is one concrete matcher, for patterns without operators.
- **Character classes.**
  - `\s` is space, `\t`, `\n`, `\v`, `\f`, `\r`.
  - `\w` is `[A-Za-z0-9_]`.
  - `strip` also drops trailing NULs.
  - `downcase` maps `A`–`Z` and `Ä`, `Ö`, `Ü`.
- **Sort order.**
  - Neither block sort is stable: `to_s` uses `Hash#sort` by phrase length,
    and `extract_word` uses `Array#sort!` by word length.
  - The model sorts in one particular way.
  - The contracts promise only what Ruby promises: the order plus a
    permutation, or "a longest word".

## Where the code and its description differ

The model follows the code in each case.

- **Annotation removal is greedy.** `\([^(]*\)` runs from an opener to the
  *last* matching closer before the next opener of the same kind. So in
  `x (a) yyyy)` the word `yyyy` is removed too (`GreedyAnnotation`).
- **Ties in `extract_word` are unspecified.** Among several longest words the
  sort may return any one of them.
- **Full-text search hides matching translations under a non-matching
  phrase.** In the normal layout a translation line is printed only under a
  heading that matches. Searching `feline` for the entry `cat → feline`
  therefore prints nothing in the normal layout. It prints the whole entry
  in the compact layout (`FelineNormal`, `FelineCompact`).
- **An English-pass failure leaves the German store written.** `import`
  writes the German store before it reads the file for the English one
  (`Import`'s `FailedEn`).
- **The round trip needs more than separator-free text.** A translation that
  ends in the first three characters of the separator after it is completed
  into that separator one character early. So a translation followed by
  another must not end in `:<>`, and the last one must not end in `#<>`.
  `=<>` cannot overlap itself, so any phrase without `=<>` and `#<>#` is
  carried. `GroupEncodable` states exactly these conditions.
- **An empty translation makes the entry unreadable.** If a phrase's only
  translation is empty, `to_s` writes `phrase=<>#<>#`. `split(/=<>/)` then
  drops the empty second field, and `format_str` raises on `nil`
  (`EmptyTranslationFails`). Ruby's `split` dropping empty trailing fields
  has the same effect on an empty last translation of a longer list: it
  disappears.

## Model

| member | source | states |
|---|---|---|
| Strings.StripIsSlice | rdictcc.rb:52-53 | `strip` returns a slice of its input, its leading margin blank and its trailing margin blank or NUL; the result has nothing left to strip |
| Strings.DropTrailingEmpty | rdictcc.rb:84 | `split` drops exactly the empty fields at the end: the result is a prefix, ends in a non-empty field, and everything dropped is empty |
| Strings.Fields | rdictcc.rb:193 | the fields of a split, joined back with the separator, give the input |
| Strings.FieldsSeparated | rdictcc.rb:84 | each field but the last has no occurrence of the separator starting in it, and the last holds none |
| Strings.FieldsUnique | rdictcc.rb:84 | any such list of fields is what the split of its join returns, so the split is the only list with both properties |
| Strings.Words | rdictcc.rb:218 | whitespace `split` yields non-empty blank-free words whose concatenation is the input's non-blank characters |
| Strings.WordsOfJoin | rdictcc.rb:218 | words joined by single blanks split back into the same words |
| Strings.WordsOfSpaced | rdictcc.rb:218 | words separated by any non-empty blank runs, with any blank margins, split back into exactly those words |
| Strings.Lines | rdictcc.rb:290 | `each_line` cuts the input into lines that concatenate back to it, each holding a line feed only at its end, and all but the last ending in one |
| Strings.LinesOfFullLine | rdictcc.rb:290 | a line ending in its only line feed is split off whole from what follows |
| DictEntry.IndexOf | rdictcc.rb:54 | the hash lookup finds the first position of the phrase, or reports it absent exactly when it is not a key |
| DictEntry.AppendSpec | rdictcc.rb:51-59 | `append` strips both strings; a new phrase is added last with `[translation]`; a known phrase gets the translation at the end of its list; every other phrase keeps its list; entries stay well formed |
| DictEntry.SortByPhraseLength | rdictcc.rb:66-68 | the sorted groups are in non-decreasing phrase length and are a permutation of the entry's groups |
| DictEntry.InsertByLength | rdictcc.rb:68 | inserting one group keeps the order and adds exactly that group |
| DictEntry.CloseFinalSeparator | rdictcc.rb:74 | on text without line feeds the `gsub!` turns only the final `:<>:` into `#<>#` |
| DictEntry.EncodeGroupsSerializes | rdictcc.rb:69-75 | on single-line text the loop of `to_s` writes each group as `phrase=<>t1:<>:…:<>:tn#<>#`, in order |
| DictEntry.ToS | rdictcc.rb:76-77 | the encoding is non-empty and ends with a line feed |
| DictEntry.ToSLayout | rdictcc.rb:64-78 | `to_s` of a single-line entry is the serialization of a phrase-length-sorted permutation of its groups followed by a line feed |
| DictEntry.RenderParts | rdictcc.rb:86-103 | rendering fails exactly when some group has no `=<>` separating phrase and translations |
| DictEntry.FormatStr | rdictcc.rb:83-105 | `format_str` fails with "nothing to strip" exactly when `strip!` returns `nil`; it fails at all exactly when that happens or a group is malformed |
| DictEntry.DecodeSerialized | rdictcc.rb:83-105 | `format_str` of serialized groups plus a line feed renders exactly those groups, in order, with every translation, when each phrase is stripped and free of `=<>` and `#<>#` and the translations are encodable as described above |
| DictEntry.RoundTrip | rdictcc.rb:64-105 | `format_str(to_s)` of a single-line entry whose groups are encodable shows every phrase once, shortest first, each with all its translations in the order they were appended |
| DictEntry.EmptyTranslationFails | rdictcc.rb:64-92 | an entry whose phrase has only an empty translation encodes to text that `format_str` cannot render: the group lacks its `=<>` field |
| Headword.LastCloser | rdictcc.rb:215 | the greedy `[^o]*c` ends at a closer with no opener up to it, or finds none |
| Headword.LastCloserIsLast | rdictcc.rb:215 | no closer that the match could reach without crossing an opener lies past the one it ends at, so it ends at the last closer before the first opener |
| Headword.LastCloserFinal | rdictcc.rb:215 | in opener-free text ending in a closer, the match runs to the end |
| Headword.AnnotationLength | rdictcc.rb:215 | an annotation at the start runs from an opener to its matching closer, with no second opener of that kind inside |
| Headword.AnnotationLengthMaximal | rdictcc.rb:215 | no matching closer lies after the annotation's end before the next opener of that kind, so the match is the longest one |
| Headword.StripAnnotations | rdictcc.rb:215 | removing annotations never lengthens a phrase |
| Headword.StripAnnotationsPlain | rdictcc.rb:215 | a phrase without openers has no annotation to remove and is left as it is |
| Headword.KeepHeadwordChars | rdictcc.rb:218 | the filter keeps only word characters, `üäöß`, `-` and blanks, and leaves text made only of those as it is |
| Headword.KeepHeadwordCharsAppend | rdictcc.rb:218 | the filter works character by character: filtering a concatenation concatenates the filtered parts |
| Headword.KeepHeadwordCharsDrops | rdictcc.rb:218 | every other character is removed without a trace |
| Headword.Longest | rdictcc.rb:219-220 | the first element after the descending length sort is one of the words and no word is longer |
| Headword.ExtractWordSpec | rdictcc.rb:214-221 | no headword exactly when nothing is left after removing annotations and blanks, or no word survives the filter; otherwise the headword is a longest surviving word |
| Headword.HeadwordChars | rdictcc.rb:218-220 | a headword is non-empty and made only of word characters, `üäöß` and `-` |
| Headword.StripAnnotationsMargins | rdictcc.rb:215 | annotation removal commutes with the blank margins of a phrase |
| Headword.ExtractWordOfStripped | rdictcc.rb:215 | stripping a phrase first does not change its headword |
| HeadwordExamples.SingleWordHeadword | rdictcc.rb:215-220 | a phrase that cleans to one word of headword characters has that word as headword |
| HeadwordExamples.PlainWord | rdictcc.rb:215-220 | a single word has its lower-case form as headword |
| HeadwordExamples.AnnotatedWord | rdictcc.rb:215-220 | a word followed by a parenthesised note has the word as headword |
| HeadwordExamples.OnlyAnnotation | rdictcc.rb:215-216 | a phrase that is only an annotation has no headword |
| HeadwordExamples.Plain | rdictcc.rb:214-221 | `Word` has headword `word` |
| HeadwordExamples.Annotated | rdictcc.rb:214-221 | `go (coll.)` has headword `go` |
| HeadwordExamples.GreedyAnnotation | rdictcc.rb:215 | in `x (a) yyyy)` the annotation runs to the last `)`, leaving headword `x` |
| DictBuilder.SkippedLine | rdictcc.rb:178-180 | a line of the file is skipped exactly when, stripped, it is empty or starts with `#` |
| DictBuilder.AddLine | rdictcc.rb:190-208 | `add_line` fails exactly when the headword side is missing, or when the headword exists but the translation side is missing; a phrase without a headword leaves the dictionary unchanged |
| DictBuilder.AddLineAppends | rdictcc.rb:203-207 | with both sides and a headword, the entry under the headword is created if absent and the stripped pair appended to it; no other key is added and no other entry changes |
| DictBuilder.PairFields | rdictcc.rb:193 | `a::b` with `::`-free sides splits into exactly `[a, b]` |
| DictBuilder.SidesOfPair | rdictcc.rb:192-196 | in the German pass the phrase is the left side and the translation the right; the English pass swaps them |
| DictBuilder.ReadLines | rdictcc.rb:177-184 | reading more lines never removes a headword |
| DictBuilder.AddLineFiled | rdictcc.rb:190-208 | adding a line keeps every entry filed under the headword of each of its phrases |
| DictBuilder.ReadLinesFiled | rdictcc.rb:173-186 | after reading the file, every entry is non-empty, well formed and on one line, and each of its phrases has the entry's key as headword |
| DictBuilder.WriteDatabase | rdictcc.rb:155-161 | the store has exactly the dictionary's headwords as keys |
| DictBuilder.Import | rdictcc.rb:125-132 | the import fails in the German pass exactly when reading for German fails, with that pass's error; it succeeds exactly when both passes do; the German store is written from the German pass whenever that pass succeeds, and the English store from the English pass when both do; a failure of the English pass carries that pass's error |
| DictBuilder.ImportFiled | rdictcc.rb:125-132 | every stored value encodes an entry filed under its key |
| DictBuilder.StoredEntryDecodes | rdictcc.rb:155-158 | the value stored for a headword renders as that entry's groups, shortest phrase first |
| QueryEngine.ParseQuery | rdictcc.rb:256-263 | the query selects key matching exactly when some line of the lower-cased query starts with `:r:`; full-text search exactly when none does but one starts with `:f:`; otherwise an exact lookup of the lower-cased query |
| QueryEngine.ParseSingleLine | rdictcc.rb:257-261 | on a one-line query, `:r:` at the start selects key matching and `:f:` full-text search, each on the rest of the lower-cased query; anything else is an exact lookup |
| QueryEngine.ReadDb | rdictcc.rb:240-252 | the German–English header and block come first; the English–German header and block follow only if the first block raised nothing |
| QueryEngine.LookUpAsKeyMatch | rdictcc.rb:267-281 | an exact lookup does what key matching does with equality as the matcher |
| QueryEngine.LookUpAfterImport | rdictcc.rb:267-271 | an exact lookup in an imported store prints the headword's entry, shortest phrase first, and prints nothing for a word that is not a headword |
| QueryEngine.Matching | rdictcc.rb:277-278 | the records selected are exactly the store's records whose key the pattern matches |
| QueryEngine.MatchKeys | rdictcc.rb:275-281 | key matching raises exactly when a matching key's value does not render |
| QueryEngine.MatchKeysPrinted | rdictcc.rb:275-281 | when nothing raises, key matching prints the rendered entries of exactly the matching records, one each, in the store's key order |
| QueryEngine.MatchedKeyPrinted | rdictcc.rb:275-281 | when nothing raises, the rendered entry of every key the pattern matches is among what is printed |
| QueryEngine.IndentedLine | rdictcc.rb:291 | on one line, `/^\s+/` holds exactly when the line starts with a blank |
| QueryEngine.FilterLines | rdictcc.rb:290-306 | the full-text filter prints only lines of the rendered entry |
| QueryEngine.FilterIsExpected | rdictcc.rb:289-306 | the filter prints each unindented line once if it matches; it prints an indented line only when the most recent unindented line matched, once plus once more if it matches itself |
| QueryEngine.LinesOfBullets | rdictcc.rb:93-99 | the normal layout's translation list consists of one indented bullet line per translation |
| QueryEngine.NormalGroupShown | rdictcc.rb:285-309 | in the normal layout a phrase's translations are printed only under a heading that matches; under one that does, every translation line is printed, twice if it matches |
| QueryEngine.CompactGroupShown | rdictcc.rb:285-309 | in the compact layout a phrase's one line is printed exactly when it matches |
| QueryEngine.FelineNormal | rdictcc.rb:285-309 | searching `feline` in the normal layout of `cat → feline` prints nothing |
| QueryEngine.FelineCompact | rdictcc.rb:285-309 | searching `feline` in the compact layout of `cat → feline` prints the whole entry line |
| QueryEngine.SearchValues | rdictcc.rb:285-309 | full-text search raises exactly when some stored value does not render |
| QueryEngine.SearchValuesPrinted | rdictcc.rb:285-309 | when nothing raises, full-text search prints, value after value, the filter's output on the lines of each rendered entry |
| QueryEngine.SearchValue | rdictcc.rb:288-306 | one stored value raises exactly when it does not render; otherwise it prints each unindented matching line once, and each indented line under the most recent unindented matching line once plus once more if it matches itself |
| QueryEngine.Evaluate | rdictcc.rb:256-263 | every query prints the German–English header first |

## Left out

- DBM files, deleting an old database, creating `~/.rdictcc`, `IO.foreach`
  and the progress messages of the import: these are disk I/O and console
  output. The stores are maps and the input file is its text.
- `GC.start` and `@dict = nil` after writing a store: memory management with
  no effect on the stores.
- The evaluator's constructor, which exits when `~/.rdictcc` is missing:
  process control.
- `show_db_sizes`, option parsing, help and version output, and the
  interactive loop: command-line plumbing around the core.
- Ruby's regular-expression engine: queries are evaluated against any
  `Matcher`. An invalid pattern raising `RegexpError` is not modelled.
- Unicode case mapping: `downcase` maps only `A`–`Z` and `Ä`, `Ö`, `Ü`.
- The order DBM enumerates keys in: `Evaluate` is given each store's keys
  as a sequence; `MatchKeys` and `SearchValues` receive the records or the
  values in that order.
- The layout fixed for `format_str` by the command-line options: the
  search functions take the rendering as a `Formatter`, and `Evaluate`
  passes `format_str` with the given layout.
- `puts` adding a line feed to an argument without one: the model records
  the arguments.
- ReadLines: promises only that keys are kept. Its full effect is stated
  line by line by `AddLine`, `AddLineAppends` and `ReadLinesFiled`.
- Evaluate: promises only the leading header. Its three branches are stated
  by `ParseSingleLine`, `ReadDb`, `LookUp`, `MatchKeys` and `SearchValues`.
- SearchValues: states when the search raises; what it prints is stated by
  `SearchValuesPrinted`.
- QueryEngine.ParseQuery: states the kind of a query for any number of
  lines, and the payload only for an exact lookup. The payload of a pattern
  query is the lower-cased query with every sigil at a line start removed;
  `ParseSingleLine` states it for one-line queries.
- QueryEngine.MatchKeys: states when key matching raises; what it prints is
  stated by `MatchKeysPrinted`.
- Headword.StripAnnotations: states only length. Its identity case is
  `StripAnnotationsPlain`, and its greedy behaviour is pinned down by
  `LastCloser`, `LastCloserIsLast`, `AnnotationLength`,
  `StripAnnotationsMargins` and `GreedyAnnotation`.
- Headword.LastCloser: states the closer it ends at. That it is the last
  one is `LastCloserIsLast`.
