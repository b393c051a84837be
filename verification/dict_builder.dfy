/** `RDictCcDatabaseBuilder`: reading the dict.cc export line by line into
    the two dictionaries, and writing them out as stores. */
module DictBuilder {
  import opened Results
  import opened Strings
  import opened DictEntry
  import opened Headword

  /** `:de` builds the German-English dictionary, `:en` the English-German
      one. */
  datatype Direction = De | En

  /** The `NoMethodError` a line raises when it lacks the side it needs:
      `extract_word(nil)` or `nil.strip!` in `append`. */
  datatype ImportError = PhraseMissing | TranslationMissing

  /** `@dict`: headword to entry. */
  type Dict = map<string, Entry>

  /** A DBM file: headword to the entry's `to_s`. */
  type Store = map<string, string>

  /** The `::` between the two sides of a dict.cc line. */
  const FieldSep: string := "::"

  // ---------------------------------------------------------------------
  // Skipping lines
  // ---------------------------------------------------------------------

  /** `line =~ /^#/` */
  predicate IsComment(l: string)
  {
    exists i :: 0 <= i < |l| && AtLineStart(l, i) && l[i] == '#'
  }

  /** `line =~ /^\s$/`: a single blank that is a whole line. */
  predicate IsBlankLine(l: string)
  {
    exists i :: 0 <= i < |l| && AtLineStart(l, i) && IsSpace(l[i]) && (i + 1 == |l| || l[i + 1] == '\n')
  }

  /** The test `read_dict_file` applies to a stripped line. */
  predicate IsSkipped(l: string)
  {
    IsComment(l) || IsBlankLine(l) || l == []
  }

  lemma {:induction false} StripKeepsNoLineFeed(line: string)
    requires IsLine(line)
    ensures '\n' !in Strip(line)
  {
    StripIsSlice(line);
    var s := Strip(line);
    var i, j :| 0 <= i <= j <= |line| && s == line[i..j];
    forall k | 0 <= k < |s|
      ensures s[k] != '\n'
    {
      assert s[k] == line[i + k];
      if i + k == |line| - 1 {
        assert k == |s| - 1;
      }
    }
  }

  /** A line of the file is skipped exactly when, stripped, it is empty or
      starts with `#`. */
  lemma {:induction false} SkippedLine(line: string)
    requires IsLine(line)
    ensures IsSkipped(Strip(line)) <==> Strip(line) == [] || Strip(line)[0] == '#'
  {
    var l := Strip(line);
    StripKeepsNoLineFeed(line);
    StripIsSlice(line);
    assert forall i :: 0 <= i < |l| ==> l[i] != '\n';
    if l != [] && l[0] == '#' {
      assert AtLineStart(l, 0);
    }
  }

  // ---------------------------------------------------------------------
  // add_line
  // ---------------------------------------------------------------------

  /** The side `add_line` extracts the headword from: the first field of
      `str.split('::')` for `:de`, the second for `:en`; `None` is `nil`. */
  function PhraseSide(line: string, dir: Direction): Option<string>
  {
    var f := Split(line, FieldSep);
    var k := if dir == De then 0 else 1;
    if k < |f| then Some(f[k]) else None
  }

  /** The other side: the translation. */
  function TranslationSide(line: string, dir: Direction): Option<string>
  {
    var f := Split(line, FieldSep);
    var k := if dir == De then 1 else 0;
    if k < |f| then Some(f[k]) else None
  }

  /** `@dict[word]`, with a fresh entry standing for `nil`. */
  function EntryAt(dict: Dict, w: string): Entry
  {
    if w in dict then dict[w] else EmptyEntry
  }

  /** `add_line(str, sym)`. */
  function AddLine(dict: Dict, line: string, dir: Direction): (r: Result<Dict, ImportError>)
    ensures r == Failure(PhraseMissing) <==> PhraseSide(line, dir).None?
    ensures r == Failure(TranslationMissing) <==>
              PhraseSide(line, dir).Some? && ExtractWord(PhraseSide(line, dir).value).Some?
              && TranslationSide(line, dir).None?
    ensures PhraseSide(line, dir).Some? && ExtractWord(PhraseSide(line, dir).value).None? ==>
              r == Success(dict)
  {
    match PhraseSide(line, dir)
    case None => Failure(PhraseMissing)
    case Some(phrase) =>
      match ExtractWord(phrase)
      case None => Success(dict)
      case Some(w) =>
        match TranslationSide(line, dir)
        case None => Failure(TranslationMissing)
        case Some(translation) => Success(dict[w := Append(EntryAt(dict, w), phrase, translation)])
  }

  /** A line with both sides and a headword `w` appends its stripped pair
      to the entry under `w`, creating the entry when it is absent, and
      leaves every other entry as it was. */
  lemma {:induction false} AddLineAppends(dict: Dict, line: string, dir: Direction, w: string)
    requires PhraseSide(line, dir).Some? && TranslationSide(line, dir).Some?
    requires ExtractWord(PhraseSide(line, dir).value) == Some(w)
    ensures AddLine(dict, line, dir).Success?
    ensures var d := AddLine(dict, line, dir).value;
            var p := Strip(PhraseSide(line, dir).value);
            && w in d
            && (forall k :: k in d <==> k in dict || k == w)
            && (forall k :: k in dict && k != w ==> d[k] == dict[k])
            && Phrases(d[w].groups) ==
                 (if p in Phrases(EntryAt(dict, w).groups) then Phrases(EntryAt(dict, w).groups)
                  else Phrases(EntryAt(dict, w).groups) + [p])
            && TranslationsOf(d[w], p) ==
                 TranslationsOf(EntryAt(dict, w), p) + [Strip(TranslationSide(line, dir).value)]
            && (forall q :: q != p ==> TranslationsOf(d[w], q) == TranslationsOf(EntryAt(dict, w), q))
  {
    var phrase, translation := PhraseSide(line, dir).value, TranslationSide(line, dir).value;
    var e := EntryAt(dict, w);
    assert AddLine(dict, line, dir) == Success(dict[w := Append(e, phrase, translation)]);
    AppendSpec(e, phrase, translation);
    UpdateKeepsOthers(dict, w, Append(e, phrase, translation));
  }

  lemma UpdateKeepsOthers(dict: Dict, w: string, x: Entry)
    ensures var d := dict[w := x];
            && (forall k :: k in d <==> k in dict || k == w)
            && (forall k :: k in dict && k != w ==> d[k] == dict[k])
  {
  }

  /** A line `a::b` whose sides hold no `::` (and where `a` does not end
      with `:`, which would move the separator) puts `a` on the German side
      and `b` on the English side. */
  lemma {:induction false} SidesOfPair(a: string, b: string)
    requires Excludes(a, FieldSep) && Excludes(b, FieldSep) && !EndsWith(a, ":") && b != []
    ensures PhraseSide(a + FieldSep + b, De) == Some(a) && TranslationSide(a + FieldSep + b, De) == Some(b)
    ensures PhraseSide(a + FieldSep + b, En) == Some(b) && TranslationSide(a + FieldSep + b, En) == Some(a)
  {
    PairFields(a, b);
  }

  lemma {:induction false} PairFields(a: string, b: string)
    requires Excludes(a, FieldSep) && Excludes(b, FieldSep) && !EndsWith(a, ":") && b != []
    ensures Split(a + FieldSep + b, FieldSep) == [a, b]
  {
    var d := FieldSep;
    assert d[..1] == ":";
    NoEarlyOccurrence(a, d, b);
    FieldsPrefix(a, d + b, d);
    FieldsAfterSeparator(d, b);
    FieldsWithout(b, d);
    assert a + d + b == a + (d + b);
    assert a + "" == a;
  }

  // ---------------------------------------------------------------------
  // read_dict_file
  // ---------------------------------------------------------------------

  /** The loop of `read_dict_file` from `dict` on: each line is stripped,
      skipped or added; the first failing line aborts the import. */
  function ReadLines(dict: Dict, lines: seq<string>, dir: Direction): (r: Result<Dict, ImportError>)
    ensures r.Success? ==> dict.Keys <= r.value.Keys
    decreases |lines|
  {
    if lines == [] then Success(dict)
    else
      var l := Strip(lines[0]);
      if IsSkipped(l) then ReadLines(dict, lines[1..], dir)
      else
        match AddLine(dict, l, dir)
        case Failure(e) => Failure(e)
        case Success(d) => ReadLines(d, lines[1..], dir)
  }

  /** `read_dict_file(sym)` on the text of the dict.cc file. */
  function ReadDictFile(text: string, dir: Direction): Result<Dict, ImportError>
  {
    ReadLines(map[], Lines(text), dir)
  }

  // ---------------------------------------------------------------------
  // The dictionary invariant
  // ---------------------------------------------------------------------

  /** What every entry of `@dict` satisfies: it is non-empty and well formed,
      its text is on one line, and every phrase in it has headword `w`. */
  predicate EntryFiled(e: Entry, w: string)
  {
    && e.groups != [] && WellFormed(e) && SingleLine(e.groups)
    && forall i :: 0 <= i < |e.groups| ==> ExtractWord(e.groups[i].phrase) == Some(w)
  }

  predicate Filed(dict: Dict)
  {
    forall w :: w in dict ==> EntryFiled(dict[w], w)
  }

  lemma {:induction false} JoinMember(xs: seq<string>, d: string, k: nat, c: char)
    requires k < |xs| && c in xs[k]
    ensures c in Join(xs, d)
  {
    if |xs| > 1 {
      if k == 0 {
        assert Join(xs, d) == xs[0] + (d + Join(xs[1..], d));
      } else {
        JoinMember(xs[1..], d, k - 1, c);
        assert Join(xs, d) == (xs[0] + d) + Join(xs[1..], d);
      }
    }
  }

  /** The sides of a line without a line feed have none either. */
  lemma {:induction false} SidesSingleLine(line: string, dir: Direction)
    requires '\n' !in line
    ensures PhraseSide(line, dir).Some? ==> '\n' !in PhraseSide(line, dir).value
    ensures TranslationSide(line, dir).Some? ==> '\n' !in TranslationSide(line, dir).value
  {
    var f := Fields(line, FieldSep);
    forall k | 0 <= k < |f|
      ensures '\n' !in f[k]
    {
      if '\n' in f[k] {
        JoinMember(f, FieldSep, k, '\n');
      }
    }
  }

  lemma {:induction false} StripSingleLine(s: string)
    requires '\n' !in s
    ensures '\n' !in Strip(s)
  {
    var lead, trail := StripParts(s);
    var r := Strip(s);
    forall k | 0 <= k < |r|
      ensures r[k] != '\n'
    {
      assert r[k] == s[|lead| + k];
    }
  }

  /** Every phrase of `gs` has headword `w`. */
  predicate PhrasesUnder(gs: seq<Group>, w: string)
  {
    forall i :: 0 <= i < |gs| ==> ExtractWord(gs[i].phrase) == Some(w)
  }

  lemma AddTranslationUnder(e: Entry, p: string, t: string, w: string)
    requires PhrasesUnder(e.groups, w) && ExtractWord(p) == Some(w)
    ensures PhrasesUnder(AddTranslation(e, p, t).groups, w)
  {
  }

  lemma {:induction false} AddTranslationSingleLine(e: Entry, p: string, t: string)
    requires SingleLine(e.groups) && '\n' !in p && '\n' !in t
    ensures SingleLine(AddTranslation(e, p, t).groups)
  {
    var i := IndexOf(Phrases(e.groups), p);
    if i < |e.groups| {
      var ts := e.groups[i].translations + [t];
      assert forall k :: 0 <= k < |ts| ==> '\n' !in ts[k];
    }
  }

  /** Appending a phrase with headword `w` to an entry filed under `w`
      keeps it filed under `w`. */
  lemma {:induction false} AppendFiled(e: Entry, w: string, phrase: string, translation: string)
    requires e == EmptyEntry || EntryFiled(e, w)
    requires ExtractWord(phrase) == Some(w) && '\n' !in phrase && '\n' !in translation
    ensures EntryFiled(Append(e, phrase, translation), w)
  {
    var p, t := Strip(phrase), Strip(translation);
    assert WellFormed(e);
    AppendSpec(e, phrase, translation);
    ExtractWordOfStripped(phrase);
    StripSingleLine(phrase);
    StripSingleLine(translation);
    AddTranslationUnder(e, p, t, w);
    AddTranslationSingleLine(e, p, t);
  }

  lemma UpdateFiled(dict: Dict, w: string, x: Entry)
    requires Filed(dict) && EntryFiled(x, w)
    ensures Filed(dict[w := x])
  {
  }

  lemma {:induction false} AddLineFiled(dict: Dict, line: string, dir: Direction)
    requires Filed(dict) && '\n' !in line
    ensures AddLine(dict, line, dir).Success? ==> Filed(AddLine(dict, line, dir).value)
  {
    var phrase := PhraseSide(line, dir);
    var translation := TranslationSide(line, dir);
    if phrase.Some? && ExtractWord(phrase.value).Some? && translation.Some? {
      SidesSingleLine(line, dir);
      var w := ExtractWord(phrase.value).value;
      var x := Append(EntryAt(dict, w), phrase.value, translation.value);
      assert AddLine(dict, line, dir) == Success(dict[w := x]);
      AppendFiled(EntryAt(dict, w), w, phrase.value, translation.value);
      UpdateFiled(dict, w, x);
    }
  }

  /** Import invariant: every entry of the dictionary `read_dict_file`
      builds is filed under the headword of each of its phrases. */
  lemma {:induction false} ReadLinesFiled(dict: Dict, lines: seq<string>, dir: Direction)
    requires Filed(dict)
    requires forall k :: 0 <= k < |lines| ==> IsLine(lines[k])
    ensures ReadLines(dict, lines, dir).Success? ==> Filed(ReadLines(dict, lines, dir).value)
    decreases |lines|
  {
    if lines != [] {
      var l := Strip(lines[0]);
      if !IsSkipped(l) {
        StripKeepsNoLineFeed(lines[0]);
        AddLineFiled(dict, l, dir);
        match AddLine(dict, l, dir)
        case Failure(_) =>
        case Success(d) => ReadLinesFiled(d, lines[1..], dir);
      } else {
        ReadLinesFiled(dict, lines[1..], dir);
      }
    }
  }

  // ---------------------------------------------------------------------
  // write_database and import
  // ---------------------------------------------------------------------

  /** `write_database`: every entry stored under its headword as `to_s`. */
  function WriteDatabase(dict: Dict): (s: Store)
    ensures s.Keys == dict.Keys
  {
    map w | w in dict :: ToS(dict[w])
  }

  /** The effect of `import`: both stores, or the first error together with
      the German store when the second pass is the one that fails. */
  datatype Outcome =
    | Imported(de: Store, en: Store)
    | FailedDe(error: ImportError)
    | FailedEn(de: Store, error: ImportError)

  /** `import`: the German pass is read and written before the English pass
      is read. */
  function Import(text: string): (r: Outcome)
    ensures r.FailedDe? <==> ReadDictFile(text, De).Failure?
    ensures r.Imported? <==> ReadDictFile(text, De).Success? && ReadDictFile(text, En).Success?
    ensures !r.FailedDe? ==> r.de == WriteDatabase(ReadDictFile(text, De).value)
    ensures r.Imported? ==> r.en == WriteDatabase(ReadDictFile(text, En).value)
    ensures r.FailedDe? ==> r.error == ReadDictFile(text, De).error
    ensures r.FailedEn? ==> r.error == ReadDictFile(text, En).error
  {
    match ReadDictFile(text, De)
    case Failure(e) => FailedDe(e)
    case Success(de) =>
      match ReadDictFile(text, En)
      case Failure(e) => FailedEn(WriteDatabase(de), e)
      case Success(en) => Imported(WriteDatabase(de), WriteDatabase(en))
  }

  lemma {:induction false} ReadDictFileFiled(text: string, dir: Direction)
    ensures ReadDictFile(text, dir).Success? ==> Filed(ReadDictFile(text, dir).value)
  {
    ReadLinesFiled(map[], Lines(text), dir);
  }

  /** Every value a store holds is the encoding of an entry whose phrases
      all have the value's key as headword. */
  lemma {:induction false} ImportFiled(text: string)
    ensures !Import(text).FailedDe? ==>
              forall w :: w in Import(text).de ==> exists e :: EntryFiled(e, w) && Import(text).de[w] == ToS(e)
    ensures Import(text).Imported? ==>
              forall w :: w in Import(text).en ==> exists e :: EntryFiled(e, w) && Import(text).en[w] == ToS(e)
  {
    ReadDictFileFiled(text, De);
    ReadDictFileFiled(text, En);
    if !Import(text).FailedDe? {
      var dict := ReadDictFile(text, De).value;
      forall w | w in Import(text).de
        ensures exists e :: EntryFiled(e, w) && Import(text).de[w] == ToS(e)
      {
        assert EntryFiled(dict[w], w);
      }
    }
    if Import(text).Imported? {
      var dict := ReadDictFile(text, En).value;
      forall w | w in Import(text).en
        ensures exists e :: EntryFiled(e, w) && Import(text).en[w] == ToS(e)
      {
        assert EntryFiled(dict[w], w);
      }
    }
  }

  /** What a query reads back from a store is the stored entry, rendered
      shortest phrase first, when its text is clean. */
  lemma {:induction false} StoredEntryDecodes(layout: Layout, dict: Dict, w: string)
    requires Filed(dict) && w in dict && Encodable(dict[w].groups)
    ensures exists gs :: SortedByPhraseLength(gs) && multiset(gs) == multiset(dict[w].groups)
                         && FormatStr(layout, WriteDatabase(dict)[w]) == Success(Render(layout, gs))
  {
    RoundTrip(layout, dict[w]);
  }
}
