/** `RDictCcQueryEvaluator`: answering a query from the two stores. */
module QueryEngine {
  import opened Results
  import opened Strings
  import opened DictEntry
  import opened DictBuilder

  /** `string =~ /#{pattern}/`. Ruby's regular-expression engine is outside
      the model; a query is evaluated against any matcher. */
  type Matcher = (string, string) -> bool

  /** The three kinds of query `query` dispatches to. */
  datatype Query = Exact(word: string) | KeyPattern(pattern: string) | FullText(pattern: string)

  const RegexpSigil: string := ":r:"
  const FullTextSigil: string := ":f:"

  /** `s =~ /^p/` for a pattern `p` without regular-expression operators. */
  predicate AtSomeLineStart(s: string, p: string)
  {
    exists i :: 0 <= i <= |s| && AtLineStart(s, i) && Occurs(s, p, i)
  }

  /** `s.gsub(/^p/, '')`: every occurrence of `p` at the start of a line is
      removed, scanning left to right; `atStart` says whether `^` holds at
      the start of `s`. */
  function RemoveAtLineStarts(s: string, p: string, atStart: bool): (r: string)
    requires p != []
    ensures |r| <= |s|
    decreases |s|
  {
    if s == [] then []
    else if atStart && StartsWith(s, p) then RemoveAtLineStarts(s[|p|..], p, p[|p| - 1] == '\n')
    else [s[0]] + RemoveAtLineStarts(s[1..], p, s[0] == '\n')
  }

  /** `query(query)` up to the lookup: the query is lower-cased, then a
      `:r:` at the start of any line selects key matching and a `:f:`
      full-text matching, each with every such sigil removed. */
  function ParseQuery(raw: string): (q: Query)
    ensures var s := Downcase(raw);
            && (q.KeyPattern? <==> AtSomeLineStart(s, RegexpSigil))
            && (q.FullText? <==> !AtSomeLineStart(s, RegexpSigil) && AtSomeLineStart(s, FullTextSigil))
            && (q.Exact? <==> !AtSomeLineStart(s, RegexpSigil) && !AtSomeLineStart(s, FullTextSigil))
    ensures q.Exact? ==> q.word == Downcase(raw)
  {
    var s := Downcase(raw);
    if AtSomeLineStart(s, RegexpSigil) then KeyPattern(RemoveAtLineStarts(s, RegexpSigil, true))
    else if AtSomeLineStart(s, FullTextSigil) then FullText(RemoveAtLineStarts(s, FullTextSigil, true))
    else Exact(s)
  }

  /** Without line feeds, `^` only holds at the start. */
  lemma {:induction false} KeepRest(s: string, p: string)
    requires p != [] && p[|p| - 1] != '\n' && '\n' !in s
    ensures RemoveAtLineStarts(s, p, false) == s
    decreases |s|
  {
    if s != [] {
      KeepRest(s[1..], p);
      assert [s[0]] + s[1..] == s;
    }
  }

  /** On a query of one line, a sigil counts only at the very start, and
      only that one is removed. */
  lemma {:induction false} ParseSingleLine(raw: string)
    requires '\n' !in raw
    ensures var s := Downcase(raw);
            ParseQuery(raw) ==
              if StartsWith(s, RegexpSigil) then KeyPattern(s[|RegexpSigil|..])
              else if StartsWith(s, FullTextSigil) then FullText(s[|FullTextSigil|..])
              else Exact(s)
  {
    var s := Downcase(raw);
    assert '\n' !in s by {
      forall k | 0 <= k < |s|
        ensures s[k] != '\n'
      {
        assert raw[k] != '\n';
      }
    }
    forall p | p == RegexpSigil || p == FullTextSigil
      ensures AtSomeLineStart(s, p) <==> StartsWith(s, p)
      ensures RemoveAtLineStarts(s, p, true) == if StartsWith(s, p) then s[|p|..] else s
    {
      if AtSomeLineStart(s, p) {
        var i :| 0 <= i <= |s| && AtLineStart(s, i) && Occurs(s, p, i);
        assert i == 0;
      }
      if StartsWith(s, p) {
        assert Occurs(s, p, 0);
        KeepRest(s[|p|..], p);
      } else if s != [] {
        KeepRest(s[1..], p);
        assert [s[0]] + s[1..] == s;
      }
    }
  }

  // ---------------------------------------------------------------------
  // Output
  // ---------------------------------------------------------------------

  /** What a query leaves behind: the arguments of its `puts` calls, in
      order, and the error that aborted it, if any. `format_str` failing on
      a stored value raises, and what was printed before stays printed. */
  datatype Run = Run(printed: seq<string>, failure: Option<FormatError>)

  const Quiet := Run([], None)

  function Print(s: string): Run
  {
    Run([s], None)
  }

  /** `a` followed by `b`, unless `a` aborted. */
  function Then(a: Run, b: Run): (r: Run)
    ensures a.failure.Some? ==> r == a
    ensures a.failure.None? ==> r.printed == a.printed + b.printed && r.failure == b.failure
  {
    if a.failure.Some? then a else Run(a.printed + b.printed, b.failure)
  }

  const DeHeader: string := "{DE-EN}"
  const EnHeader: string := "\n{EN-DE}"

  /** `read_db`: each store under its header, German-English first; an
      error in the German-English block ends the query before the
      English-German header. */
  function ReadDb(de: Run, en: Run): (r: Run)
    ensures r.printed == [DeHeader] + de.printed + (if de.failure.None? then [EnHeader] + en.printed else [])
    ensures r.failure == if de.failure.Some? then de.failure else en.failure
  {
    Then(Print(DeHeader), Then(de, Then(Print(EnHeader), en)))
  }

  /** `RDictCcEntry.format_str` under the current output format. */
  type Formatter = string -> Result<string, FormatError>

  function FormatWith(layout: Layout): Formatter
  {
    raw => FormatStr(layout, raw)
  }

  /** `puts RDictCcEntry.format_str(raw)`. */
  function PrintEntry(fmt: Formatter, raw: string): (r: Run)
    ensures r.failure.None? <==> fmt(raw).Success?
    ensures r.failure.None? ==> r.printed == [fmt(raw).value]
  {
    match fmt(raw)
    case Success(text) => Print(text)
    case Failure(e) => Run([], Some(e))
  }

  // ---------------------------------------------------------------------
  // query_simple and query_regexp
  // ---------------------------------------------------------------------

  /** The block of `query_simple` on one store. Its contract only unfolds
      `PrintEntry` for callers; what a lookup means is stated by
      `LookUpAsKeyMatch` and `LookUpAfterImport`. */
  function LookUp(fmt: Formatter, store: Store, word: string): (r: Run)
    ensures word !in store ==> r == Quiet
    ensures word in store ==>
              match fmt(store[word])
              case Success(text) => r == Print(text)
              case Failure(e) => r == Run([], Some(e))
  {
    if word in store then PrintEntry(fmt, store[word]) else Quiet
  }

  /** Looking a headword up in a store written from a dictionary built by
      the import prints that entry's phrases, shortest first, each with the
      translations collected for it; a word that is not a headword prints
      nothing. */
  lemma {:induction false} LookUpAfterImport(layout: Layout, dict: Dict, w: string)
    requires Filed(dict)
    requires w in dict ==> Encodable(dict[w].groups)
    ensures w !in dict ==> LookUp(FormatWith(layout), WriteDatabase(dict), w) == Quiet
    ensures w in dict ==>
              exists gs :: SortedByPhraseLength(gs) && multiset(gs) == multiset(dict[w].groups)
                           && LookUp(FormatWith(layout), WriteDatabase(dict), w) == Print(Render(layout, gs))
  {
    if w in dict {
      StoredEntryDecodes(layout, dict, w);
    }
  }

  /** The matcher of an exact lookup: a key matches only the word itself. */
  const SameKey: Matcher := (k, p) => k == p

  /** Over a listing of a store's keys, key matching with `SameKey` prints
      what the lookup of the word prints, if the word is listed. */
  lemma {:induction false} ExactMatchKeys(fmt: Formatter, store: Store, keys: seq<string>, word: string)
    requires forall k :: k in keys ==> k in store
    requires forall i, j :: 0 <= i < j < |keys| ==> keys[i] != keys[j]
    ensures MatchKeys(SameKey, fmt, RecordsOf(store, keys), word) ==
              if word in keys then LookUp(fmt, store, word) else Quiet
  {
    if keys != [] {
      var rs := RecordsOf(store, keys);
      assert rs[1..] == RecordsOf(store, keys[1..]);
      assert rs[0] == Record(keys[0], store[keys[0]]);
      assert forall i, j :: 0 <= i < j < |keys[1..]| ==> keys[1..][i] != keys[1..][j] by {
        forall i, j | 0 <= i < j < |keys[1..]|
          ensures keys[1..][i] != keys[1..][j]
        {
          assert keys[1..][i] == keys[i + 1] && keys[1..][j] == keys[j + 1];
        }
      }
      ExactMatchKeys(fmt, store, keys[1..], word);
      var h := MatchRecord(SameKey, fmt, rs[0], word);
      if keys[0] == word {
        assert word !in keys[1..] by {
          forall i | 0 <= i < |keys[1..]|
            ensures keys[1..][i] != word
          {
            assert keys[1..][i] == keys[i + 1];
          }
        }
        assert h == LookUp(fmt, store, word);
        assert h.printed + [] == h.printed;
      } else {
        assert h == Quiet;
        assert word in keys <==> word in keys[1..];
      }
    }
  }

  /** `query_simple` is key matching with a matcher that accepts only the
      word itself: over any order listing the store's keys, both print the
      same and raise the same. */
  lemma {:induction false} LookUpAsKeyMatch(fmt: Formatter, store: Store, keys: seq<string>, word: string)
    requires Lists(store, keys)
    ensures LookUp(fmt, store, word) == MatchKeys(SameKey, fmt, RecordsOf(store, keys), word)
  {
    ExactMatchKeys(fmt, store, keys, word);
  }

  /** A stored pair, as DBM yields it. */
  datatype Record = Record(key: string, value: string)

  /** The records whose key the pattern matches, in order. */
  function Matching(m: Matcher, pattern: string, rs: seq<Record>): (r: seq<Record>)
    ensures forall x :: x in r <==> x in rs && m(x.key, pattern)
  {
    if rs == [] then []
    else (if m(rs[0].key, pattern) then [rs[0]] else []) + Matching(m, pattern, rs[1..])
  }

  /** The block of `query_regexp` on one store, whose records `each_key`
      yields in the order `rs`: every entry whose key matches is printed. */
  function MatchKeys(m: Matcher, fmt: Formatter, rs: seq<Record>, pattern: string): (r: Run)
    ensures r.failure.None? <==>
              forall i :: 0 <= i < |rs| && m(rs[i].key, pattern) ==> fmt(rs[i].value).Success?
  {
    if rs == [] then Quiet
    else
      assert forall i :: 0 < i < |rs| ==> rs[i] == rs[1..][i - 1];
      Then(MatchRecord(m, fmt, rs[0], pattern), MatchKeys(m, fmt, rs[1..], pattern))
  }

  /** The block of `query_regexp` on one record. */
  function MatchRecord(m: Matcher, fmt: Formatter, x: Record, pattern: string): (r: Run)
    ensures r.failure.None? <==> (m(x.key, pattern) ==> fmt(x.value).Success?)
    ensures r.failure.None? ==> r.printed == if m(x.key, pattern) then [fmt(x.value).value] else []
  {
    if m(x.key, pattern) then PrintEntry(fmt, x.value) else Quiet
  }

  /** The renderings of the records' values, in order; a value that does
      not render contributes nothing. */
  function Texts(fmt: Formatter, rs: seq<Record>): (ts: seq<string>)
    ensures |ts| <= |rs|
  {
    if rs == [] then []
    else
      (match fmt(rs[0].value)
       case Success(text) => [text]
       case Failure(_) => []) + Texts(fmt, rs[1..])
  }

  lemma {:induction false} TextsMember(fmt: Formatter, rs: seq<Record>, x: Record)
    requires x in rs && fmt(x.value).Success?
    ensures fmt(x.value).value in Texts(fmt, rs)
  {
    if rs[0] != x {
      TextsMember(fmt, rs[1..], x);
    }
  }

  /** When nothing raises, key matching prints the rendered entries of the
      matching records, one each, in order. */
  lemma {:induction false} MatchKeysPrinted(m: Matcher, fmt: Formatter, rs: seq<Record>, pattern: string)
    ensures var r := MatchKeys(m, fmt, rs, pattern);
            r.failure.None? ==> r.printed == Texts(fmt, Matching(m, pattern, rs))
  {
    if rs != [] {
      var r, h, t := MatchKeys(m, fmt, rs, pattern), MatchRecord(m, fmt, rs[0], pattern),
                     MatchKeys(m, fmt, rs[1..], pattern);
      if r.failure.None? {
        MatchKeysPrinted(m, fmt, rs[1..], pattern);
        var rest := Matching(m, pattern, rs[1..]);
        assert r.printed == h.printed + t.printed;
        if m(rs[0].key, pattern) {
          var x := [rs[0]] + rest;
          assert Matching(m, pattern, rs) == x;
          assert x[0] == rs[0] && x[1..] == rest;
          assert Texts(fmt, x) == h.printed + Texts(fmt, rest);
        } else {
          assert Matching(m, pattern, rs) == [] + rest == rest;
          assert h.printed == [];
        }
      }
    }
  }

  // ---------------------------------------------------------------------
  // query_fulltext_regexp
  // ---------------------------------------------------------------------

  /** `line =~ /^\s+/`: a blank at the start of some line of `line`. */
  predicate IsIndented(line: string)
  {
    exists i :: 0 <= i < |line| && AtLineStart(line, i) && IsSpace(line[i])
  }

  /** On a line of `each_line`, the test looks at the first character. */
  lemma {:induction false} IndentedLine(line: string)
    requires IsLine(line)
    ensures IsIndented(line) <==> IsSpace(line[0])
  {
    if IsIndented(line) {
      var i :| 0 <= i < |line| && AtLineStart(line, i) && IsSpace(line[i]);
      assert i == 0;
    }
  }

  /** `line.downcase =~ /#{query}/` */
  predicate Hit(m: Matcher, pattern: string, line: string)
  {
    m(Downcase(line), pattern)
  }

  /** The loop of `query_fulltext_regexp` over the lines of one rendered
      entry, from the state `found` (`match_line_found`) on: an unindented
      line resets the state and is printed, setting it, when it matches; an
      indented line is skipped untested while the state is unset, and
      otherwise printed, and printed again when it matches as well. */
  function FilterLines(m: Matcher, pattern: string, lines: seq<string>, found: bool): (r: seq<string>)
    ensures forall j :: 0 <= j < |r| ==> r[j] in lines
  {
    if lines == [] then []
    else
      var line := lines[0];
      var rest := lines[1..];
      if IsIndented(line) && !found then FilterLines(m, pattern, rest, found)
      else
        var hit := Hit(m, pattern, line);
        var shown := (if IsIndented(line) then [line] else []) + (if hit then [line] else []);
        shown + FilterLines(m, pattern, rest, IsIndented(line) || hit)
  }

  /** Whether the most recent unindented line of `before` matched. */
  predicate HeadMatched(m: Matcher, pattern: string, before: seq<string>)
  {
    if before == [] then false
    else
      var last := before[|before| - 1];
      if IsIndented(last) then HeadMatched(m, pattern, before[..|before| - 1])
      else Hit(m, pattern, last)
  }

  /** What the full-text filter shows of `line` after the lines `before`:
      an unindented line once if it matches; an indented line only under a
      matching unindented line, once, and once more if it matches too. */
  function Shown(m: Matcher, pattern: string, before: seq<string>, line: string): seq<string>
  {
    var again := if Hit(m, pattern, line) then [line] else [];
    if !IsIndented(line) then again
    else if HeadMatched(m, pattern, before) then [line] + again
    else []
  }

  /** The output of the filter, line by line. */
  function Expected(m: Matcher, pattern: string, lines: seq<string>): seq<string>
  {
    if lines == [] then []
    else
      var n := |lines| - 1;
      Expected(m, pattern, lines[..n]) + Shown(m, pattern, lines[..n], lines[n])
  }

  lemma {:induction false} LastLine(m: Matcher, pattern: string, before: seq<string>, line: string)
    ensures HeadMatched(m, pattern, before + [line]) ==
              if IsIndented(line) then HeadMatched(m, pattern, before) else Hit(m, pattern, line)
    ensures Expected(m, pattern, before + [line]) ==
              Expected(m, pattern, before) + Shown(m, pattern, before, line)
  {
    var next := before + [line];
    assert next[..|next| - 1] == before;
  }

  lemma {:induction false} MoveFirst<T>(before: seq<T>, rest: seq<T>)
    requires rest != []
    ensures before + [rest[0]] + rest[1..] == before + rest
  {
    assert [rest[0]] + rest[1..] == rest;
  }

  /** One step of the fold shows what `Shown` says and leaves the state at
      `HeadMatched` of the lines seen so far. */
  lemma {:induction false} FilterStep(m: Matcher, pattern: string, before: seq<string>, rest: seq<string>)
    requires rest != []
    ensures FilterLines(m, pattern, rest, HeadMatched(m, pattern, before)) ==
              Shown(m, pattern, before, rest[0]) +
              FilterLines(m, pattern, rest[1..], HeadMatched(m, pattern, before + [rest[0]]))
  {
    LastLine(m, pattern, before, rest[0]);
  }

  lemma {:induction false} FilterFrom(m: Matcher, pattern: string, before: seq<string>, rest: seq<string>)
    ensures Expected(m, pattern, before + rest) ==
              Expected(m, pattern, before) + FilterLines(m, pattern, rest, HeadMatched(m, pattern, before))
    decreases |rest|
  {
    if rest == [] {
      assert before + rest == before;
    } else {
      var line := rest[0];
      var next := before + [line];
      var e, sh, tail := Expected(m, pattern, before), Shown(m, pattern, before, line),
                         FilterLines(m, pattern, rest[1..], HeadMatched(m, pattern, next));
      calc {
        Expected(m, pattern, before + rest);
        { MoveFirst(before, rest); }
        Expected(m, pattern, next + rest[1..]);
        { FilterFrom(m, pattern, next, rest[1..]); }
        Expected(m, pattern, next) + tail;
        { LastLine(m, pattern, before, line); }
        e + sh + tail;
        e + (sh + tail);
        { FilterStep(m, pattern, before, rest); }
        e + FilterLines(m, pattern, rest, HeadMatched(m, pattern, before));
      }
    }
  }

  /** The fold computes the line-by-line definition: so an indented line
      is printed only when the most recent unindented line matched. */
  lemma {:induction false} FilterIsExpected(m: Matcher, pattern: string, lines: seq<string>)
    ensures FilterLines(m, pattern, lines, false) == Expected(m, pattern, lines)
  {
    FilterFrom(m, pattern, [], lines);
    assert [] + lines == lines;
  }

  // ---------------------------------------------------------------------
  // The filter on rendered entries
  // ---------------------------------------------------------------------

  /** The lines of the normal layout's translation list. */
  function BulletLines(ts: seq<string>): (ls: seq<string>)
    ensures |ls| == |ts|
  {
    if ts == [] then [] else ["    - " + ts[0] + "\n"] + BulletLines(ts[1..])
  }

  /** No text of `ts` holds a line feed. */
  predicate NoLineFeeds(ts: seq<string>)
  {
    forall k :: 0 <= k < |ts| ==> '\n' !in ts[k]
  }

  lemma {:induction false} BulletIsLine(t: string)
    requires '\n' !in t
    ensures IsFullLine("    - " + t + "\n")
  {
    var l := "    - " + t + "\n";
    assert forall k :: 0 <= k < |l| - 1 ==> l[k] != '\n' by {
      forall k | 0 <= k < |l| - 1
        ensures l[k] != '\n'
      {
        if 6 <= k {
          assert l[k] == t[k - 6];
        }
      }
    }
  }

  lemma {:induction false} LinesOfBullets(ts: seq<string>)
    requires NoLineFeeds(ts)
    ensures Lines(Bullets(ts)) == BulletLines(ts)
  {
    if ts != [] {
      BulletIsLine(ts[0]);
      LinesOfBullets(ts[1..]);
      LinesOfFullLine("    - " + ts[0] + "\n", Bullets(ts[1..]));
    }
  }

  /** Each line under a matching heading: once, and once more if it
      matches too. */
  function Echoed(m: Matcher, pattern: string, ls: seq<string>): seq<string>
  {
    if ls == [] then []
    else [ls[0]] + (if Hit(m, pattern, ls[0]) then [ls[0]] else []) + Echoed(m, pattern, ls[1..])
  }

  lemma {:induction false} FilterBullets(m: Matcher, pattern: string, ts: seq<string>)
    ensures FilterLines(m, pattern, BulletLines(ts), false) == []
    ensures FilterLines(m, pattern, BulletLines(ts), true) == Echoed(m, pattern, BulletLines(ts))
  {
    if ts != [] {
      var l := "    - " + ts[0] + "\n";
      assert AtLineStart(l, 0) && IsSpace(l[0]);
      assert BulletLines(ts)[1..] == BulletLines(ts[1..]);
      FilterBullets(m, pattern, ts[1..]);
    }
  }

  /** In the normal layout a phrase's translations are shown only when its
      heading line matches: a translation that matches under a heading that
      does not is not shown. */
  lemma {:induction false} NormalGroupShown(m: Matcher, pattern: string, phrase: string, ts: seq<string>)
    requires IsStripped(phrase) && '\n' !in phrase && NoLineFeeds(ts)
    ensures var heading := phrase + ":\n";
            FilterLines(m, pattern, Lines(RenderGroup(Normal, phrase, ts)), false) ==
              if Hit(m, pattern, heading) then [heading] + Echoed(m, pattern, BulletLines(ts)) else []
  {
    var heading := phrase + ":\n";
    HeadingIsLine(phrase);
    LinesOfFullLine(heading, Bullets(ts));
    LinesOfBullets(ts);
    FilterBullets(m, pattern, ts);
    FilterUnindented(m, pattern, heading, BulletLines(ts));
  }

  /** The heading of the normal layout is an unindented line of its own. */
  lemma {:induction false} HeadingIsLine(phrase: string)
    requires IsStripped(phrase) && '\n' !in phrase
    ensures IsFullLine(phrase + ":\n") && !IsIndented(phrase + ":\n")
  {
    var heading := phrase + ":\n";
    assert forall k :: 0 <= k < |phrase| ==> heading[k] == phrase[k];
    IndentedLine(heading);
  }

  /** From an unindented line on, the filter starts afresh. */
  lemma {:induction false} FilterUnindented(m: Matcher, pattern: string, line: string, rest: seq<string>)
    requires !IsIndented(line)
    ensures FilterLines(m, pattern, [line] + rest, false) ==
              if Hit(m, pattern, line) then [line] + FilterLines(m, pattern, rest, true)
              else FilterLines(m, pattern, rest, false)
  {
    assert ([line] + rest)[1..] == rest;
  }

  /** In the compact layout a phrase is one unindented line, shown exactly
      when it matches. */
  lemma {:induction false} CompactGroupShown(m: Matcher, pattern: string, phrase: string, ts: seq<string>)
    requires phrase == [] || !IsSpace(phrase[0])
    requires '\n' !in RenderGroup(Compact, phrase, ts)[..|RenderGroup(Compact, phrase, ts)| - 1]
    ensures var line := RenderGroup(Compact, phrase, ts);
            FilterLines(m, pattern, Lines(line), false) == if Hit(m, pattern, line) then [line] else []
  {
    var line := RenderGroup(Compact, phrase, ts);
    assert IsLine(line) by {
      forall k | 0 <= k < |line| - 1
        ensures line[k] != '\n'
      {
        assert line[k] in line[..|line| - 1];
      }
    }
    LinesOfLine(line);
    IndentedLine(line);
  }

  /** `s =~ /p/` for a pattern `p` without regular-expression operators. */
  predicate Contains(s: string, p: string)
  {
    exists i :: 0 <= i <= |s| && Occurs(s, p, i)
  }

  /** The matcher for literal patterns. */
  const Literal: Matcher := (s, p) => Contains(s, p)

  /** A literal pattern longer than a line never matches it. */
  lemma ShortLineMisses(pattern: string, line: string)
    requires |line| < |pattern|
    ensures !Hit(Literal, pattern, line)
  {
  }

  /** A full-text search for `feline` over the entry `cat` with translation
      `feline` shows nothing in the normal layout, where only the
      translation line matches... */
  lemma {:induction false} FelineNormal(pattern: string, phrase: string, ts: seq<string>)
    requires pattern == "feline" && phrase == "cat" && ts == ["feline"]
    ensures FilterLines(Literal, pattern, Lines(RenderGroup(Normal, phrase, ts)), false) == []
  {
    assert IsStripped(phrase) && '\n' !in phrase && NoLineFeeds(ts);
    NormalGroupShown(Literal, pattern, phrase, ts);
    ShortLineMisses(pattern, phrase + ":\n");
  }

  /** ...and the whole entry in the compact layout, where it is one line. */
  lemma {:induction false} FelineCompact(pattern: string, phrase: string, ts: seq<string>)
    requires pattern == "feline" && phrase == "cat" && ts == ["feline"]
    ensures FilterLines(Literal, pattern, Lines(RenderGroup(Compact, phrase, ts)), false)
              == ["- cat: feline / \n"]
  {
    var line := RenderGroup(Compact, phrase, ts);
    assert Slashed(ts) == "feline / ";
    assert line == "- cat: feline / \n";
    FelineLine(pattern, line);
    CompactGroupShown(Literal, pattern, phrase, ts);
  }

  lemma {:induction false} FelineLine(pattern: string, line: string)
    requires pattern == "feline" && line == "- cat: feline / \n"
    ensures Hit(Literal, pattern, line)
  {
    var low := Downcase(line);
    assert forall k :: 0 <= k < |low| ==> low[k] == line[k];
    assert low == line;
    assert line[7..13] == pattern;
    assert Occurs(low, pattern, 7);
  }

  /** The block of `query_fulltext_regexp` on one store, whose values
      `each_value` yields in the order `raws`. */
  function SearchValues(m: Matcher, fmt: Formatter, raws: seq<string>, pattern: string): (r: Run)
    ensures r.failure.None? <==> forall i :: 0 <= i < |raws| ==> fmt(raws[i]).Success?
  {
    if raws == [] then Quiet
    else
      assert forall i :: 0 < i < |raws| ==> raws[i] == raws[1..][i - 1];
      Then(SearchValue(m, fmt, raws[0], pattern), SearchValues(m, fmt, raws[1..], pattern))
  }

  /** The block of `query_fulltext_regexp` on one stored value: the lines
      of its rendering that the filter lets through. */
  function SearchValue(m: Matcher, fmt: Formatter, raw: string, pattern: string): (r: Run)
    ensures r.failure.None? <==> fmt(raw).Success?
    ensures r.failure.None? ==> r.printed == Expected(m, pattern, Lines(fmt(raw).value))
  {
    match fmt(raw)
    case Success(text) =>
      FilterIsExpected(m, pattern, Lines(text));
      Run(FilterLines(m, pattern, Lines(text), false), None)
    case Failure(e) => Run([], Some(e))
  }

  /** What a full-text search over the values `raws` shows, value by value:
      the lines `Expected` picks from each rendering, skipping values that
      do not render. */
  function ExpectedAll(m: Matcher, fmt: Formatter, raws: seq<string>, pattern: string): seq<string>
  {
    if raws == [] then []
    else
      (match fmt(raws[0])
       case Success(text) => Expected(m, pattern, Lines(text))
       case Failure(_) => []) + ExpectedAll(m, fmt, raws[1..], pattern)
  }

  /** When nothing raises, full-text search prints, value after value, the
      lines the filter is expected to show. */
  lemma {:induction false} SearchValuesPrinted(m: Matcher, fmt: Formatter, raws: seq<string>, pattern: string)
    ensures var r := SearchValues(m, fmt, raws, pattern);
            r.failure.None? ==> r.printed == ExpectedAll(m, fmt, raws, pattern)
  {
    if raws != [] {
      var r, h, t := SearchValues(m, fmt, raws, pattern), SearchValue(m, fmt, raws[0], pattern),
                     SearchValues(m, fmt, raws[1..], pattern);
      if r.failure.None? {
        assert r.printed == h.printed + t.printed && t.failure.None?;
        assert fmt(raws[0]).Success?;
        SearchValuesPrinted(m, fmt, raws[1..], pattern);
      }
    }
  }

  // ---------------------------------------------------------------------
  // query
  // ---------------------------------------------------------------------

  /** The two stores, each with the order in which DBM yields its keys. */
  datatype Db = Db(de: Store, deKeys: seq<string>, en: Store, enKeys: seq<string>)

  /** `keys` lists every key of `store` exactly once. */
  predicate Lists(store: Store, keys: seq<string>)
  {
    && (forall k :: k in keys ==> k in store)
    && (forall k :: k in store ==> k in keys)
    && (forall i, j :: 0 <= i < j < |keys| ==> keys[i] != keys[j])
  }

  /** Each order lists the keys of its store. */
  predicate Listed(db: Db)
  {
    Lists(db.de, db.deKeys) && Lists(db.en, db.enKeys)
  }

  /** The records of a store in the order of its keys. */
  function RecordsOf(store: Store, keys: seq<string>): (rs: seq<Record>)
    requires forall k :: k in keys ==> k in store
    ensures |rs| == |keys|
    ensures forall i :: 0 <= i < |keys| ==> rs[i] == Record(keys[i], store[keys[i]])
  {
    if keys == [] then [] else [Record(keys[0], store[keys[0]])] + RecordsOf(store, keys[1..])
  }

  /** Every key of a store that the pattern matches has its rendered entry
      printed by key matching, unless some value raised. */
  lemma {:induction false} MatchedKeyPrinted(m: Matcher, fmt: Formatter, store: Store, keys: seq<string>,
                                             pattern: string, k: string)
    requires Lists(store, keys) && k in store && m(k, pattern)
    ensures var r := MatchKeys(m, fmt, RecordsOf(store, keys), pattern);
            r.failure.None? ==> fmt(store[k]).Success? && fmt(store[k]).value in r.printed
  {
    var rs := RecordsOf(store, keys);
    var r := MatchKeys(m, fmt, rs, pattern);
    var i :| 0 <= i < |keys| && keys[i] == k;
    var x := Record(k, store[k]);
    assert rs[i] == x;
    if r.failure.None? {
      assert fmt(rs[i].value).Success?;
      MatchKeysPrinted(m, fmt, rs, pattern);
      assert x in Matching(m, pattern, rs);
      TextsMember(fmt, Matching(m, pattern, rs), x);
    }
  }

  /** The values of a store in the order of its keys, as `each_value`
      yields them. */
  function ValuesOf(store: Store, keys: seq<string>): (raws: seq<string>)
    requires forall k :: k in keys ==> k in store
    ensures |raws| == |keys|
    ensures forall i :: 0 <= i < |keys| ==> raws[i] == store[keys[i]]
  {
    if keys == [] then [] else [store[keys[0]]] + ValuesOf(store, keys[1..])
  }

  /** `query(query)`. */
  function Evaluate(m: Matcher, layout: Layout, db: Db, raw: string): (r: Run)
    requires Listed(db)
    ensures |r.printed| >= 1 && r.printed[0] == DeHeader
  {
    var fmt := FormatWith(layout);
    match ParseQuery(raw)
    case Exact(w) => ReadDb(LookUp(fmt, db.de, w), LookUp(fmt, db.en, w))
    case KeyPattern(p) =>
      ReadDb(MatchKeys(m, fmt, RecordsOf(db.de, db.deKeys), p), MatchKeys(m, fmt, RecordsOf(db.en, db.enKeys), p))
    case FullText(p) =>
      ReadDb(SearchValues(m, fmt, ValuesOf(db.de, db.deKeys), p), SearchValues(m, fmt, ValuesOf(db.en, db.enKeys), p))
  }
}
