/** `RDictCcEntry`: the translations collected for one headword, the string
    encoding written to the store (`to_s`) and the rendering of that encoding
    for display (`format_str`). */
module DictEntry {
  import opened Results
  import opened Strings

  /** One phrase with its translations, in the order they were appended. */
  datatype Group = Group(phrase: string, translations: seq<string>)

  /** The insertion-ordered hash `phrase => [translation, ...]`. */
  datatype Entry = Entry(groups: seq<Group>)

  const EmptyEntry := Entry([])

  /** The process-wide `@@output_format`, passed explicitly. */
  datatype Layout = Normal | Compact

  /** How `format_str` fails: `strip!` found nothing to strip and returned
      `nil`, or a group without `=<>` left `subparts[0]` or `subparts[1]`
      `nil`. Ruby raises `NoMethodError`, or `TypeError` for `"- " + nil`
      in the compact layout. */
  datatype FormatError = NothingToStrip | MissingSeparator

  const GroupEnd: string := "#<>#"
  const PhraseEnd: string := "=<>"
  const TranslationSep: string := ":<>:"

  // ---------------------------------------------------------------------
  // The hash
  // ---------------------------------------------------------------------

  /** The phrases of `gs`, in order (the hash's keys). */
  function Phrases(gs: seq<Group>): (ps: seq<string>)
    ensures |ps| == |gs|
    ensures forall i :: 0 <= i < |gs| ==> ps[i] == gs[i].phrase
  {
    if gs == [] then [] else [gs[0].phrase] + Phrases(gs[1..])
  }

  /** The position of `p` in `ps`, or `|ps|` when it is absent. */
  function IndexOf(ps: seq<string>, p: string): (i: nat)
    ensures i <= |ps|
    ensures i < |ps| ==> ps[i] == p
    ensures i == |ps| <==> p !in ps
    ensures forall j :: 0 <= j < i ==> ps[j] != p
  {
    if ps == [] then 0 else if ps[0] == p then 0 else 1 + IndexOf(ps[1..], p)
  }

  /** `@value_hash[p]`, with `[]` standing for `nil`. */
  function TranslationsOf(e: Entry, p: string): seq<string>
  {
    var i := IndexOf(Phrases(e.groups), p);
    if i < |e.groups| then e.groups[i].translations else []
  }

  /** What every entry built by `append` satisfies: phrases are unique,
      every phrase has at least one translation, and all text is stripped. */
  predicate WellFormed(e: Entry)
  {
    && (forall i, j :: 0 <= i < j < |e.groups| ==> e.groups[i].phrase != e.groups[j].phrase)
    && (forall i :: 0 <= i < |e.groups| ==> e.groups[i].translations != [] && IsStripped(e.groups[i].phrase))
    && (forall i, k :: 0 <= i < |e.groups| && 0 <= k < |e.groups[i].translations| ==>
          IsStripped(e.groups[i].translations[k]))
  }

  /** The hash update of `append` for an already stripped phrase `p` and
      translation `t`. */
  function AddTranslation(e: Entry, p: string, t: string): Entry
  {
    var i := IndexOf(Phrases(e.groups), p);
    if i == |e.groups| then Entry(e.groups + [Group(p, [t])])
    else Entry(e.groups[i := Group(p, e.groups[i].translations + [t])])
  }

  /** `append(phrase, translation)`. */
  function Append(e: Entry, phrase: string, translation: string): Entry
  {
    AddTranslation(e, Strip(phrase), Strip(translation))
  }

  lemma {:induction false} AddTranslationSpec(e: Entry, p: string, t: string)
    ensures var r := AddTranslation(e, p, t);
            && Phrases(r.groups) == (if p in Phrases(e.groups) then Phrases(e.groups) else Phrases(e.groups) + [p])
            && TranslationsOf(r, p) == TranslationsOf(e, p) + [t]
            && (forall q :: q != p ==> TranslationsOf(r, q) == TranslationsOf(e, q))
            && (WellFormed(e) && IsStripped(p) && IsStripped(t) ==> WellFormed(r))
  {
    var i := IndexOf(Phrases(e.groups), p);
    if i == |e.groups| {
      var g := Group(p, [t]);
      forall q {
        AppendNewGroup(e.groups, g, q);
      }
      assert TranslationsOf(e, p) == [];
      if WellFormed(e) && IsStripped(p) && IsStripped(t) {
        AppendedStaysWellFormed(e.groups, p, t);
      }
    } else {
      var g := Group(p, e.groups[i].translations + [t]);
      forall q {
        ExtendGroup(e.groups, i, g, q);
      }
      if WellFormed(e) && IsStripped(t) {
        assert e.groups[i].phrase == p;
        ExtendedStaysWellFormed(e.groups, i, t);
      }
    }
  }

  /** `append` strips both strings; a new phrase gets the list
      `[translation]` at the end of the hash, a known phrase gets
      `translation` added to the end of its list, and nothing else changes. */
  lemma {:induction false} AppendSpec(e: Entry, phrase: string, translation: string)
    ensures var r := Append(e, phrase, translation);
            Phrases(r.groups) ==
              if Strip(phrase) in Phrases(e.groups) then Phrases(e.groups)
              else Phrases(e.groups) + [Strip(phrase)]
    ensures TranslationsOf(Append(e, phrase, translation), Strip(phrase)) ==
              TranslationsOf(e, Strip(phrase)) + [Strip(translation)]
    ensures forall q :: q != Strip(phrase) ==>
              TranslationsOf(Append(e, phrase, translation), q) == TranslationsOf(e, q)
    ensures WellFormed(e) ==> WellFormed(Append(e, phrase, translation))
  {
    StripIsSlice(phrase);
    StripIsSlice(translation);
    AddTranslationSpec(e, Strip(phrase), Strip(translation));
  }

  lemma {:induction false} IndexOfAppended(ps: seq<string>, x: string, q: string)
    ensures q in ps ==> IndexOf(ps + [x], q) == IndexOf(ps, q)
    ensures q !in ps && q == x ==> IndexOf(ps + [x], q) == |ps|
    ensures q !in ps && q != x ==> IndexOf(ps + [x], q) == |ps| + 1
  {
    if ps != [] {
      assert (ps + [x])[1..] == ps[1..] + [x];
      IndexOfAppended(ps[1..], x, q);
    }
  }

  lemma {:induction false} AppendNewGroup(gs: seq<Group>, g: Group, q: string)
    requires g.phrase !in Phrases(gs)
    ensures Phrases(gs + [g]) == Phrases(gs) + [g.phrase]
    ensures TranslationsOf(Entry(gs + [g]), q) ==
              if q == g.phrase then g.translations else TranslationsOf(Entry(gs), q)
  {
    assert Phrases(gs + [g]) == Phrases(gs) + [g.phrase];
    IndexOfAppended(Phrases(gs), g.phrase, q);
  }

  lemma {:induction false} ExtendGroup(gs: seq<Group>, i: nat, g: Group, q: string)
    requires i < |gs| && i == IndexOf(Phrases(gs), g.phrase)
    ensures Phrases(gs[i := g]) == Phrases(gs)
    ensures TranslationsOf(Entry(gs[i := g]), q) ==
              if q == g.phrase then g.translations else TranslationsOf(Entry(gs), q)
  {
    var ps := Phrases(gs);
    assert Phrases(gs[i := g]) == ps by {
      assert forall j :: 0 <= j < |gs| ==> gs[i := g][j].phrase == gs[j].phrase;
    }
    var n := IndexOf(ps, q);
    if q != g.phrase && n < |gs| {
      assert n != i;
    }
  }

  lemma {:induction false} AppendedStaysWellFormed(gs: seq<Group>, p: string, t: string)
    requires WellFormed(Entry(gs)) && IsStripped(p) && IsStripped(t)
    requires p !in Phrases(gs)
    ensures WellFormed(Entry(gs + [Group(p, [t])]))
  {
    var hs := gs + [Group(p, [t])];
    forall i, j | 0 <= i < j < |hs|
      ensures hs[i].phrase != hs[j].phrase
    {
      if j == |gs| {
        assert Phrases(gs)[i] == hs[i].phrase;
      }
    }
  }

  lemma {:induction false} ExtendedStaysWellFormed(gs: seq<Group>, i: nat, t: string)
    requires WellFormed(Entry(gs)) && IsStripped(t)
    requires i < |gs|
    ensures WellFormed(Entry(gs[i := Group(gs[i].phrase, gs[i].translations + [t])]))
  {
    var hs := gs[i := Group(gs[i].phrase, gs[i].translations + [t])];
    forall a, b | 0 <= a < b < |hs|
      ensures hs[a].phrase != hs[b].phrase
    {
      assert hs[a].phrase == gs[a].phrase && hs[b].phrase == gs[b].phrase;
    }
    forall j | 0 <= j < |hs|
      ensures hs[j].translations != [] && IsStripped(hs[j].phrase)
    {
      if j != i {
        assert hs[j] == gs[j];
      }
    }
    forall j, k | 0 <= j < |hs| && 0 <= k < |hs[j].translations|
      ensures IsStripped(hs[j].translations[k])
    {
      if j != i {
        assert hs[j] == gs[j];
      } else if k < |gs[i].translations| {
        assert hs[j].translations[k] == gs[i].translations[k];
      }
    }
  }

  // ---------------------------------------------------------------------
  // to_s
  // ---------------------------------------------------------------------

  /** Groups in non-decreasing order of phrase length. */
  predicate SortedByPhraseLength(gs: seq<Group>)
  {
    forall i, j :: 0 <= i < j < |gs| ==> |gs[i].phrase| <= |gs[j].phrase|
  }

  function InsertByLength(g: Group, gs: seq<Group>): (r: seq<Group>)
    requires SortedByPhraseLength(gs)
    ensures SortedByPhraseLength(r)
    ensures multiset(r) == multiset(gs) + multiset{g}
  {
    if gs == [] || |g.phrase| <= |gs[0].phrase| then [g] + gs
    else
      var rest := InsertByLength(g, gs[1..]);
      InsertBehind(g, gs, rest);
      [gs[0]] + rest
  }

  lemma {:induction false} InsertBehind(g: Group, gs: seq<Group>, rest: seq<Group>)
    requires gs != [] && SortedByPhraseLength(gs) && |gs[0].phrase| < |g.phrase|
    requires SortedByPhraseLength(rest) && multiset(rest) == multiset(gs[1..]) + multiset{g}
    ensures SortedByPhraseLength([gs[0]] + rest)
    ensures multiset([gs[0]] + rest) == multiset(gs) + multiset{g}
  {
    assert gs == [gs[0]] + gs[1..];
    var r := [gs[0]] + rest;
    forall i, j | 0 <= i < j < |r|
      ensures |r[i].phrase| <= |r[j].phrase|
    {
      if i == 0 {
        var x := rest[j - 1];
        assert x in multiset(rest);
        if x != g {
          assert x in multiset(gs[1..]);
          var k :| 0 <= k < |gs[1..]| && gs[1..][k] == x;
          assert gs[k + 1] == x;
        }
      }
    }
  }

  /** The block `sort` of `to_s`, by phrase length. Ruby's sort is not
      stable; only the order and the permutation are promised here, and this
      insertion sort's choice among phrases of equal length is the model's. */
  function SortByPhraseLength(gs: seq<Group>): (r: seq<Group>)
    ensures SortedByPhraseLength(r)
    ensures multiset(r) == multiset(gs)
  {
    if gs == [] then []
    else
      assert gs == [gs[0]] + gs[1..];
      InsertByLength(gs[0], SortByPhraseLength(gs[1..]))
  }

  /** `s.gsub!(/:<>:$/, '#<>#')`: every `:<>:` that ends a line (ends `s` or
      stands before a line feed) becomes `#<>#`. */
  function CloseAtLineEnds(s: string): string
    decreases |s|
  {
    if |s| < 4 then s
    else if s[..4] == TranslationSep && (|s| == 4 || s[4] == '\n') then GroupEnd + CloseAtLineEnds(s[4..])
    else [s[0]] + CloseAtLineEnds(s[1..])
  }

  /** `elem[1].each { |val| s << "#{val}:<>:" }`. */
  function Terminated(ts: seq<string>): string
  {
    if ts == [] then [] else ts[0] + TranslationSep + Terminated(ts[1..])
  }

  /** The loop of `to_s` over the sorted groups, starting from `s`. */
  function EncodeGroups(s: string, gs: seq<Group>): string
    decreases |gs|
  {
    if gs == [] then s
    else EncodeGroups(CloseAtLineEnds(s + gs[0].phrase + PhraseEnd + Terminated(gs[0].translations)), gs[1..])
  }

  /** `to_s`: the store value for an entry. */
  function ToS(e: Entry): (r: string)
    ensures r != [] && r[|r| - 1] == '\n'
  {
    EncodeGroups("", SortByPhraseLength(e.groups)) + "\n"
  }

  /** A group without its terminator: `phrase =<> t1 :<>: ... :<>: tn`. */
  function Body(g: Group): string
  {
    g.phrase + (PhraseEnd + Join(g.translations, TranslationSep))
  }

  /** One group in the serialized grammar:
      `phrase =<> translation (:<>: translation)* #<>#`. */
  function SerializeGroup(g: Group): string
  {
    Body(g) + GroupEnd
  }

  /** The serialized grammar: the groups one after the other. */
  function Serialize(gs: seq<Group>): string
  {
    if gs == [] then [] else SerializeGroup(gs[0]) + Serialize(gs[1..])
  }

  /** No text of the groups holds a line feed. */
  predicate SingleLine(gs: seq<Group>)
  {
    forall i :: 0 <= i < |gs| ==>
      '\n' !in gs[i].phrase && forall k :: 0 <= k < |gs[i].translations| ==> '\n' !in gs[i].translations[k]
  }

  predicate HasTranslations(gs: seq<Group>)
  {
    forall i :: 0 <= i < |gs| ==> gs[i].translations != []
  }

  /** On a single line, only the final `:<>:` ends a line. */
  lemma {:induction false} CloseFinalSeparator(w: string)
    requires '\n' !in w
    ensures CloseAtLineEnds(w + TranslationSep) == w + GroupEnd
    decreases |w|
  {
    var s := w + TranslationSep;
    if w == [] {
      assert s == TranslationSep;
      assert s[4..] == [];
    } else {
      assert s[4] != '\n' by {
        if |w| > 4 {
          assert s[4] == w[4];
        } else {
          assert s[4] == TranslationSep[4 - |w|];
        }
      }
      DropAppend(w, TranslationSep, 1);
      CloseFinalSeparator(w[1..]);
      assert [w[0]] + w[1..] == w;
    }
  }

  lemma {:induction false} TerminatedJoin(ts: seq<string>)
    requires ts != []
    ensures Terminated(ts) == Join(ts, TranslationSep) + TranslationSep
  {
    if |ts| > 1 {
      TerminatedJoin(ts[1..]);
    }
  }

  /** One pass of the loop of `to_s` over a single-line group appends
      exactly its serialization. */
  lemma {:induction false} EncodeGroupSerializes(s: string, g: Group)
    requires '\n' !in s && g.translations != []
    requires '\n' !in g.phrase && forall k :: 0 <= k < |g.translations| ==> '\n' !in g.translations[k]
    ensures CloseAtLineEnds(s + g.phrase + PhraseEnd + Terminated(g.translations)) == s + SerializeGroup(g)
    ensures '\n' !in s + SerializeGroup(g)
  {
    var j := Join(g.translations, TranslationSep);
    var w := s + g.phrase + PhraseEnd + j;
    TerminatedJoin(g.translations);
    JoinSingleLine(g.translations);
    assert '\n' !in w;
    CloseFinalSeparator(w);
    assert s + g.phrase + PhraseEnd + Terminated(g.translations) == w + TranslationSep;
    assert w + GroupEnd == s + SerializeGroup(g);
  }

  /** On single-line text the `gsub!` of `to_s` only closes each group, so
      the loop writes exactly the serialized grammar. */
  lemma {:induction false} EncodeGroupsSerializes(s: string, gs: seq<Group>)
    requires '\n' !in s
    requires SingleLine(gs) && HasTranslations(gs)
    ensures EncodeGroups(s, gs) == s + Serialize(gs)
    decreases |gs|
  {
    if gs != [] {
      var g := gs[0];
      var u := s + SerializeGroup(g);
      EncodeStep(s, gs);
      SingleLineTail(gs);
      EncodeGroupsSerializes(u, gs[1..]);
      assert Serialize(gs) == SerializeGroup(g) + Serialize(gs[1..]);
      assert u + Serialize(gs[1..]) == s + Serialize(gs);
    }
  }

  lemma {:induction false} EncodeStep(s: string, gs: seq<Group>)
    requires '\n' !in s && gs != []
    requires SingleLine(gs) && HasTranslations(gs)
    ensures EncodeGroups(s, gs) == EncodeGroups(s + SerializeGroup(gs[0]), gs[1..])
    ensures '\n' !in s + SerializeGroup(gs[0])
  {
    EncodeGroupSerializes(s, gs[0]);
  }

  lemma {:induction false} SingleLineTail(gs: seq<Group>)
    requires gs != [] && SingleLine(gs) && HasTranslations(gs)
    ensures SingleLine(gs[1..]) && HasTranslations(gs[1..])
  {
    forall i | 0 <= i < |gs[1..]|
      ensures gs[1..][i] == gs[i + 1]
    {
    }
  }

  lemma {:induction false} JoinSingleLine(ts: seq<string>)
    requires forall k :: 0 <= k < |ts| ==> '\n' !in ts[k]
    ensures '\n' !in Join(ts, TranslationSep)
  {
    if |ts| > 1 {
      JoinSingleLine(ts[1..]);
    }
  }

  /** `to_s` writes the groups sorted by phrase length, each one as
      `phrase=<>t1:<>:...:<>:tn#<>#`, and ends with a line feed. Ties in
      phrase length may come out in any order. */
  lemma {:induction false} ToSLayout(e: Entry)
    requires SingleLine(e.groups) && HasTranslations(e.groups)
    ensures exists gs :: SortedByPhraseLength(gs) && multiset(gs) == multiset(e.groups)
                         && ToS(e) == Serialize(gs) + "\n"
  {
    var gs := SortByPhraseLength(e.groups);
    assert forall i :: 0 <= i < |gs| ==> gs[i] in multiset(e.groups);
    assert SingleLine(gs) && HasTranslations(gs) by {
      forall i | 0 <= i < |gs|
        ensures gs[i] in e.groups
      {
        assert gs[i] in multiset(gs);
      }
    }
    EncodeGroupsSerializes("", gs);
    assert "" + Serialize(gs) == Serialize(gs);
  }

  // ---------------------------------------------------------------------
  // format_str
  // ---------------------------------------------------------------------

  /** The normal layout of a translation list: one indented bullet per line. */
  function Bullets(ts: seq<string>): string
  {
    if ts == [] then [] else "    - " + ts[0] + "\n" + Bullets(ts[1..])
  }

  /** The compact layout of a translation list: each one followed by ` / `. */
  function Slashed(ts: seq<string>): string
  {
    if ts == [] then [] else ts[0] + " / " + Slashed(ts[1..])
  }

  /** How `format_str` lays out one phrase with its translations. */
  function RenderGroup(layout: Layout, phrase: string, ts: seq<string>): string
  {
    match layout
    case Normal => phrase + ":\n" + Bullets(ts)
    case Compact => "- " + phrase + ": " + Slashed(ts) + "\n"
  }

  /** The readable form of a list of groups, in the given order. */
  function Render(layout: Layout, gs: seq<Group>): string
  {
    if gs == [] then [] else RenderGroup(layout, gs[0].phrase, gs[0].translations) + Render(layout, gs[1..])
  }

  /** A part that `split(/=<>/)` leaves without a phrase or without
      translations. */
  predicate Malformed(part: string)
  {
    |Split(part, PhraseEnd)| < 2
  }

  /** The loop of `format_str` over the parts of the stripped input. */
  function RenderParts(layout: Layout, parts: seq<string>): (r: Result<string, FormatError>)
    ensures r.Failure? <==> exists k :: 0 <= k < |parts| && Malformed(parts[k])
    ensures r.Failure? ==> r.error == MissingSeparator
  {
    if parts == [] then Success([])
    else
      var sub := Split(parts[0], PhraseEnd);
      if |sub| < 2 then Failure(MissingSeparator)
      else
        match RenderParts(layout, parts[1..])
        case Failure(err) =>
          assert exists k :: 0 <= k < |parts[1..]| && Malformed(parts[1..][k]);
          Failure(err)
        case Success(rest) =>
          assert forall k :: 1 <= k < |parts| ==> parts[k] == parts[1..][k - 1];
          Success(RenderGroup(layout, sub[0], Split(sub[1], TranslationSep)) + rest)
  }

  /** `format_str(str)`: `strip!` must find something to strip (it yields
      `nil` otherwise), then the groups are split on `#<>#`, each group on
      `=<>` and its translations on `:<>:`, and laid out. */
  function FormatStr(layout: Layout, s: string): (r: Result<string, FormatError>)
    ensures r == Failure(NothingToStrip) <==> Strip(s) == s
    ensures r.Failure? <==>
              Strip(s) == s || exists k :: 0 <= k < |Split(Strip(s), GroupEnd)| && Malformed(Split(Strip(s), GroupEnd)[k])
  {
    var t := Strip(s);
    if t == s then Failure(NothingToStrip)
    else RenderParts(layout, Split(t, GroupEnd))
  }

  // ---------------------------------------------------------------------
  // The round trip
  // ---------------------------------------------------------------------

  /** Text that holds none of the three separators. */
  predicate Separatorless(t: string)
  {
    Excludes(t, GroupEnd) && Excludes(t, PhraseEnd) && Excludes(t, TranslationSep)
  }

  /** Translations the encoding carries: separator-free, the last one
      non-empty (`split` drops an empty last field), and none ending in the
      first three characters of the separator that follows it: `:<>`
      before `:<>:`, `#<>` before `#<>#`. That separator's first character
      would complete them into a separator one position early. */
  predicate TranslationsEncodable(ts: seq<string>)
  {
    && ts != [] && ts[|ts| - 1] != []
    && (forall k :: 0 <= k < |ts| ==> Separatorless(ts[k]))
    && (forall k :: 0 <= k < |ts| - 1 ==> !EndsWith(ts[k], ":<>"))
    && !EndsWith(ts[|ts| - 1], "#<>")
  }

  /** A group whose serialization decodes to itself: a stripped phrase
      without `#<>#` and `=<>`, and encodable translations. No separator
      can overlap the `=<>` that follows a phrase, so its ending is free. */
  predicate GroupEncodable(g: Group)
  {
    && IsStripped(g.phrase) && Excludes(g.phrase, GroupEnd) && Excludes(g.phrase, PhraseEnd)
    && TranslationsEncodable(g.translations)
  }

  predicate Encodable(gs: seq<Group>)
  {
    forall i :: 0 <= i < |gs| ==> GroupEncodable(gs[i])
  }

  /** No occurrence of `d` starts inside `t` when `d` follows it, unless `t`
      ends with a prefix of `d` that `d`'s own first character completes. */
  lemma {:induction false} NoEarlyOccurrence(t: string, d: string, rest: string)
    requires |d| > 0 && Excludes(t, d)
    requires forall m :: 0 < m < |d| && d[m] == d[0] ==> !EndsWith(t, d[..m])
    ensures NoneStartsIn(t, d + rest, d)
  {
    var s := t + (d + rest);
    forall i | 0 <= i < |t|
      ensures !Occurs(s, d, i)
    {
      if i + |d| <= |t| {
        assert s[i..i + |d|] == t[i..i + |d|];
        assert !Occurs(t, d, i);
      } else {
        var m := |t| - i;
        var w := s[i..i + |d|];
        assert w[m] == s[|t|] == d[0];
        if d[m] == d[0] {
          assert !EndsWith(t, d[..m]);
          assert w[..m] == t[i..];
        }
      }
    }
  }

  /** No occurrence of `d` starts inside `a` when no character of `a` is the
      first character of `d`. */
  lemma {:induction false} NoStartIn(a: string, b: string, d: string)
    requires |d| > 0 && d[0] !in a
    ensures NoneStartsIn(a, b, d)
  {
    forall i | 0 <= i < |a|
      ensures !Occurs(a + b, d, i)
    {
      assert (a + b)[i] == a[i];
      if i + |d| <= |a + b| {
        assert (a + b)[i..i + |d|][0] == a[i];
      }
    }
  }

  /** No occurrence of `d` starts inside `a` when `a` does not contain `d`
      and is followed by a character that `d` does not contain. */
  lemma {:induction false} ForeignNext(a: string, b: string, d: string)
    requires |d| > 0 && Excludes(a, d)
    requires b != [] && b[0] !in d
    ensures NoneStartsIn(a, b, d)
  {
    var s := a + b;
    forall i | 0 <= i < |a|
      ensures !Occurs(s, d, i)
    {
      if i + |d| <= |a| {
        assert s[i..i + |d|] == a[i..i + |d|];
        assert !Occurs(a, d, i);
      } else if i + |d| <= |s| {
        assert s[i..i + |d|][|a| - i] == b[0];
      }
    }
  }

  lemma {:induction false} PrependTwice(a: string, b: string, fs: seq<string>)
    requires |fs| >= 1
    ensures PrependFirst(a, PrependFirst(b, fs)) == PrependFirst(a + b, fs)
  {
    assert a + (b + fs[0]) == a + b + fs[0];
  }

  /** Joined translations, followed by `tail`, form the start of the first
      field when splitting on a separator `d` that none of them contains. */
  lemma {:induction false} JoinPrefix(ts: seq<string>, d: string, tail: string)
    requires |d| > 0 && ts != []
    requires forall k :: 0 <= k < |ts| ==> Excludes(ts[k], d)
    requires ':' !in d && d[0] !in TranslationSep
    requires NoneStartsIn(ts[|ts| - 1], tail, d)
    ensures Fields(Join(ts, TranslationSep) + tail, d) == PrependFirst(Join(ts, TranslationSep), Fields(tail, d))
    decreases |ts|
  {
    if |ts| == 1 {
      FieldsPrefix(ts[0], tail, d);
    } else {
      var x := Join(ts[1..], TranslationSep);
      assert Join(ts, TranslationSep) + tail == ts[0] + (TranslationSep + (x + tail));
      ForeignNext(ts[0], TranslationSep + (x + tail), d);
      FieldsPrefix(ts[0], TranslationSep + (x + tail), d);
      NoStartIn(TranslationSep, x + tail, d);
      FieldsPrefix(TranslationSep, x + tail, d);
      assert ts[1..][|ts[1..]| - 1] == ts[|ts| - 1];
      JoinPrefix(ts[1..], d, tail);
      PrependTwice(TranslationSep, x, Fields(tail, d));
      PrependTwice(ts[0], TranslationSep + x, Fields(tail, d));
      assert ts[0] + (TranslationSep + x) == Join(ts, TranslationSep);
    }
  }

  lemma {:induction false} JoinEndsWithLast(ts: seq<string>, d: string)
    requires ts != [] && ts[|ts| - 1] != []
    ensures Join(ts, d) != []
  {
    if |ts| > 1 {
      JoinEndsWithLast(ts[1..], d);
    }
  }

  /** Splitting joined translations on `:<>:` gives them back when none
      holds the separator and none but the last ends in `:<>`. */
  lemma {:induction false} TranslationsSplit(ts: seq<string>)
    requires ts != []
    requires forall k :: 0 <= k < |ts| ==> Excludes(ts[k], TranslationSep)
    requires forall k :: 0 <= k < |ts| - 1 ==> !EndsWith(ts[k], ":<>")
    ensures Fields(Join(ts, TranslationSep), TranslationSep) == ts
  {
    assert TranslationSep[..3] == ":<>";
    assert TranslationSep + "" == TranslationSep;
    forall k | 0 <= k < |ts| - 1
      ensures NoneStartsIn(ts[k], TranslationSep, TranslationSep)
    {
      NoEarlyOccurrence(ts[k], TranslationSep, "");
    }
    FieldsUnique(ts, TranslationSep);
  }

  /** A group body splits on `=<>` into its phrase and its joined
      translations. */
  lemma {:induction false} BodyFields(g: Group)
    requires GroupEncodable(g)
    ensures Fields(Body(g), PhraseEnd) == [g.phrase, Join(g.translations, TranslationSep)]
  {
    var ts := g.translations;
    var j := Join(ts, TranslationSep);
    NoEarlyOccurrence(g.phrase, PhraseEnd, j);
    FieldsPrefix(g.phrase, PhraseEnd + j, PhraseEnd);
    FieldsAfterSeparator(PhraseEnd, j);
    var last := ts[|ts| - 1];
    assert NoneStartsIn(last, "", PhraseEnd) by {
      forall i | 0 <= i < |last|
        ensures !Occurs(last + "", PhraseEnd, i)
      {
        assert last + "" == last;
        assert !Occurs(last, PhraseEnd, i);
      }
    }
    JoinPrefix(ts, PhraseEnd, "");
    assert j + "" == j;
    assert Fields("", PhraseEnd) == [""];
    assert g.phrase + "" == g.phrase;
  }

  /** One serialized group splits off as its body. */
  lemma {:induction false} GroupFields(g: Group, rest: string)
    requires GroupEncodable(g)
    ensures Fields(SerializeGroup(g) + rest, GroupEnd) == [Body(g)] + Fields(rest, GroupEnd)
  {
    var j := Join(g.translations, TranslationSep);
    var tail := j + (GroupEnd + rest);
    var f := [""] + Fields(rest, GroupEnd);
    TranslationsFields(g.translations, rest);
    assert SerializeGroup(g) + rest == g.phrase + (PhraseEnd + tail);
    ForeignNext(g.phrase, PhraseEnd + tail, GroupEnd);
    FieldsPrefix(g.phrase, PhraseEnd + tail, GroupEnd);
    NoStartIn(PhraseEnd, tail, GroupEnd);
    FieldsPrefix(PhraseEnd, tail, GroupEnd);
    PrependTwice(PhraseEnd, j, f);
    PrependTwice(g.phrase, PhraseEnd + j, f);
    assert g.phrase + (PhraseEnd + j) + "" == Body(g);
  }

  /** The joined translations of a group run up to its terminator. */
  lemma {:induction false} TranslationsFields(ts: seq<string>, rest: string)
    requires TranslationsEncodable(ts)
    ensures Fields(Join(ts, TranslationSep) + (GroupEnd + rest), GroupEnd) ==
              PrependFirst(Join(ts, TranslationSep), [""] + Fields(rest, GroupEnd))
  {
    assert GroupEnd[..3] == "#<>";
    NoEarlyOccurrence(ts[|ts| - 1], GroupEnd, rest);
    JoinPrefix(ts, GroupEnd, GroupEnd + rest);
    FieldsAfterSeparator(GroupEnd, rest);
  }

  /** The bodies of the groups, in order. */
  function Bodies(gs: seq<Group>): (bs: seq<string>)
    ensures |bs| == |gs|
    ensures forall i :: 0 <= i < |gs| ==> bs[i] == Body(gs[i])
  {
    if gs == [] then [] else [Body(gs[0])] + Bodies(gs[1..])
  }

  /** Splitting a serialization on `#<>#` yields the group bodies and one
      empty field after the last terminator. */
  lemma {:induction false} SerializedFields(gs: seq<Group>)
    requires Encodable(gs)
    ensures Fields(Serialize(gs), GroupEnd) == Bodies(gs) + [""]
    decreases |gs|
  {
    if gs == [] {
      assert Fields("", GroupEnd) == [""];
    } else {
      assert GroupEncodable(gs[0]);
      GroupFields(gs[0], Serialize(gs[1..]));
      assert Encodable(gs[1..]) by {
        forall i | 0 <= i < |gs[1..]|
          ensures gs[1..][i] == gs[i + 1]
        {
        }
      }
      SerializedFields(gs[1..]);
      assert Bodies(gs) == [Body(gs[0])] + Bodies(gs[1..]);
    }
  }

  lemma {:induction false} SerializeEnds(gs: seq<Group>)
    requires gs != []
    ensures Serialize(gs) != [] && Serialize(gs)[|Serialize(gs)| - 1] == '#'
  {
    if |gs| > 1 {
      SerializeEnds(gs[1..]);
    }
  }

  lemma {:induction false} StripBeforeLineFeed(x: string)
    requires IsStripped(x)
    ensures Strip(x + "\n") == x
  {
    var s := x + "\n";
    if x == [] {
      assert TrimStart(s) == [];
    } else {
      assert TrimStart(s) == s;
      assert s[..|s| - 1] == x;
      assert TrimEnd(s) == TrimEnd(x);
    }
  }

  /** The parts of a serialization render as its groups. */
  lemma {:induction false} RenderBodies(layout: Layout, gs: seq<Group>)
    requires Encodable(gs)
    ensures RenderParts(layout, Bodies(gs)) == Success(Render(layout, gs))
    decreases |gs|
  {
    if gs != [] {
      var g := gs[0];
      assert GroupEncodable(g);
      BodyFields(g);
      var j := Join(g.translations, TranslationSep);
      JoinEndsWithLast(g.translations, TranslationSep);
      assert Split(Body(g), PhraseEnd) == [g.phrase, j];
      TranslationsSplit(g.translations);
      assert Split(j, TranslationSep) == g.translations;
      assert Encodable(gs[1..]) by {
        forall i | 0 <= i < |gs[1..]|
          ensures gs[1..][i] == gs[i + 1]
        {
        }
      }
      RenderBodies(layout, gs[1..]);
      assert Bodies(gs)[1..] == Bodies(gs[1..]);
    }
  }

  /** A serialization has no blank margins. */
  lemma {:induction false} SerializeStripped(gs: seq<Group>)
    requires Encodable(gs)
    ensures IsStripped(Serialize(gs))
  {
    var x := Serialize(gs);
    if gs != [] {
      SerializeEnds(gs);
      if gs[0].phrase != [] {
        assert x[0] == gs[0].phrase[0];
      } else {
        assert x[0] == '=';
      }
    }
  }

  /** Splitting a serialization at `#<>` gives the bodies of its groups. */
  lemma {:induction false} SerializedParts(gs: seq<Group>)
    requires Encodable(gs)
    ensures Split(Serialize(gs), GroupEnd) == Bodies(gs)
  {
    SerializedFields(gs);
    if gs != [] {
      assert Bodies(gs)[|gs| - 1] == Body(gs[|gs| - 1]);
      assert PhraseEnd[0] in Body(gs[|gs| - 1]);
    }
    assert (Bodies(gs) + [""])[..|gs|] == Bodies(gs);
  }

  /** `format_str` renders a serialization of encodable groups as exactly
      those groups, in the same order. */
  lemma {:induction false} DecodeSerialized(layout: Layout, gs: seq<Group>)
    requires Encodable(gs)
    ensures FormatStr(layout, Serialize(gs) + "\n") == Success(Render(layout, gs))
  {
    var x := Serialize(gs);
    SerializeStripped(gs);
    StripBeforeLineFeed(x);
    assert x != x + "\n";
    SerializedParts(gs);
    RenderBodies(layout, gs);
  }

  /** An entry whose phrase has only an empty translation cannot be shown:
      `to_s` writes `phrase=<>#<>#`, and `split(/=<>/)` of `phrase=<>`
      drops the empty second field, so `format_str` raises. */
  lemma {:induction false} EmptyTranslationFails(layout: Layout, p: string)
    requires IsStripped(p) && '\n' !in p
    requires Excludes(p, GroupEnd) && Excludes(p, PhraseEnd)
    ensures FormatStr(layout, ToS(Entry([Group(p, [""])]))) == Failure(MissingSeparator)
  {
    var s := ToS(Entry([Group(p, [""])]));
    EmptyTranslationStrips(p);
    EmptyTranslationParts(p);
    HeadOnlyMalformed(p);
    var parts := Split(Strip(s), GroupEnd);
    assert 0 < |parts| && Malformed(parts[0]);
  }

  /** The encoding of that entry is its one line plus a line feed. */
  lemma {:induction false} EmptyTranslationStrips(p: string)
    requires IsStripped(p) && '\n' !in p
    ensures var s := ToS(Entry([Group(p, [""])]));
      Strip(s) == p + PhraseEnd + GroupEnd != s
  {
    var x := p + PhraseEnd + GroupEnd;
    EmptyTranslationEncoding(p);
    HeadStripped(p);
    StripBeforeLineFeed(x);
    assert |x| < |x + "\n"|;
  }

  lemma {:induction false} HeadStripped(p: string)
    requires IsStripped(p)
    ensures IsStripped(p + PhraseEnd + GroupEnd)
  {
    var x := p + PhraseEnd + GroupEnd;
    if p != [] {
      assert x[0] == p[0];
    } else {
      assert x[0] == '=';
    }
    assert x[|x| - 1] == '#';
  }

  lemma {:induction false} EmptyTranslationEncoding(p: string)
    requires '\n' !in p
    ensures ToS(Entry([Group(p, [""])])) == p + PhraseEnd + GroupEnd + "\n"
  {
    var g := Group(p, [""]);
    var gs := SortByPhraseLength([g]);
    assert gs == [g] by {
      assert |gs| == |multiset(gs)| == 1;
      assert gs[0] in multiset([g]);
    }
    assert SingleLine(gs) && HasTranslations(gs);
    EncodeGroupsSerializes("", gs);
    assert Serialize(gs) == SerializeGroup(g) + Serialize([]);
  }

  lemma {:induction false} EmptyTranslationParts(p: string)
    requires Excludes(p, GroupEnd)
    ensures Split(p + PhraseEnd + GroupEnd, GroupEnd) == [p + PhraseEnd]
  {
    var x := p + PhraseEnd + GroupEnd;
    var part := p + PhraseEnd;
    ForeignNext(p, PhraseEnd + GroupEnd, GroupEnd);
    FieldsPrefix(p, PhraseEnd + GroupEnd, GroupEnd);
    NoStartIn(PhraseEnd, GroupEnd, GroupEnd);
    FieldsPrefix(PhraseEnd, GroupEnd, GroupEnd);
    assert GroupEnd + "" == GroupEnd;
    FieldsAfterSeparator(GroupEnd, "");
    assert Fields("", GroupEnd) == [""];
    assert Fields(GroupEnd, GroupEnd) == ["", ""];
    assert PhraseEnd + "" == PhraseEnd && p + PhraseEnd == part;
    assert Fields(PhraseEnd + GroupEnd, GroupEnd) == [PhraseEnd, ""];
    assert p + (PhraseEnd + GroupEnd) == x;
    assert Fields(x, GroupEnd) == [part, ""];
    assert DropTrailingEmpty([part, ""]) == DropTrailingEmpty([part]);
  }

  /** A part with nothing after its `=<>` has no translations. */
  lemma {:induction false} HeadOnlyMalformed(p: string)
    requires Excludes(p, PhraseEnd)
    ensures Malformed(p + PhraseEnd)
  {
    assert PhraseEnd + "" == PhraseEnd;
    NoEarlyOccurrence(p, PhraseEnd, "");
    FieldsPrefix(p, PhraseEnd, PhraseEnd);
    FieldsAfterSeparator(PhraseEnd, "");
    assert Fields("", PhraseEnd) == [""];
    assert Fields(p + PhraseEnd, PhraseEnd) == [p + "", ""];
    assert p + "" == p;
  }

  /** What holds of every group holds of every group of a permutation. */
  lemma {:induction false} PermutationMembers(a: seq<Group>, b: seq<Group>)
    requires multiset(a) == multiset(b)
    ensures forall i :: 0 <= i < |a| ==> a[i] in b
  {
    forall i | 0 <= i < |a|
      ensures a[i] in b
    {
      assert a[i] in multiset(a);
    }
  }

  /** Round trip: `format_str(to_s)` of an entry of clean single-line text
      shows every phrase once, shortest first, each followed by all of its
      translations in the order they were appended. */
  lemma {:induction false} RoundTrip(layout: Layout, e: Entry)
    requires Encodable(e.groups) && SingleLine(e.groups)
    ensures exists gs :: SortedByPhraseLength(gs) && multiset(gs) == multiset(e.groups)
                         && FormatStr(layout, ToS(e)) == Success(Render(layout, gs))
  {
    var gs := SortByPhraseLength(e.groups);
    PermutationMembers(gs, e.groups);
    assert SingleLine(gs) && HasTranslations(gs) && Encodable(gs) by {
      forall i | 0 <= i < |gs|
        ensures GroupEncodable(gs[i])
        ensures '\n' !in gs[i].phrase
        ensures forall k :: 0 <= k < |gs[i].translations| ==> '\n' !in gs[i].translations[k]
      {
        assert gs[i] in e.groups;
        var k :| 0 <= k < |e.groups| && e.groups[k] == gs[i];
      }
    }
    EncodeGroupsSerializes("", gs);
    assert ToS(e) == Serialize(gs) + "\n";
    DecodeSerialized(layout, gs);
  }
}
