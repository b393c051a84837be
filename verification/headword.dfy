/** `RDictCcDatabaseBuilder#extract_word`: the headword a phrase is filed
    under. */
module Headword {
  import opened Results
  import opened Strings

  predicate IsOpener(c: char)
  {
    c == '(' || c == '{' || c == '['
  }

  function CloserOf(o: char): char
    requires IsOpener(o)
  {
    if o == '(' then ')' else if o == '{' then '}' else ']'
  }

  /** The greedy `[^o]*c` after an opener `o`: the index of the last `c` in
      `t` before the first `o`, or -1 when there is none. */
  function LastCloser(t: string, o: char, c: char): (r: int)
    ensures -1 <= r < |t|
    ensures r >= 0 ==> t[r] == c && o !in t[..r + 1]
  {
    if t == [] || t[0] == o then -1
    else
      var rest := LastCloser(t[1..], o, c);
      assert rest >= 0 ==> t[..rest + 2] == [t[0]] + t[1..][..rest + 1];
      if rest >= 0 then rest + 1 else if t[0] == c then 0 else -1
  }

  /** Without an opener, the match runs to a closer that ends the text. */
  lemma {:induction false} LastCloserFinal(t: string, o: char, c: char)
    requires t != [] && t[|t| - 1] == c && o !in t
    ensures LastCloser(t, o, c) == |t| - 1
  {
    assert t[0] != o;
    if |t| > 1 {
      assert t[1..][|t| - 2] == c;
      LastCloserFinal(t[1..], o, c);
    }
  }

  /** No closer follows the one `LastCloser` finds before the first opener:
      the match is as long as it can be. */
  lemma {:induction false} LastCloserIsLast(t: string, o: char, c: char, j: int)
    requires LastCloser(t, o, c) < j < |t| && o !in t[..j + 1]
    ensures t[j] != c
  {
    assert t[0] != o by {
      assert t[0] == t[..j + 1][0];
    }
    if j > 0 {
      assert t[1..][..j] == t[..j + 1][1..];
      LastCloserIsLast(t[1..], o, c, j - 1);
    }
  }

  /** The length of the annotation `(...)`, `{...}` or `[...]` that starts
      `s`, or 0 when `s` does not start with one. */
  function AnnotationLength(s: string): (n: nat)
    ensures n <= |s|
    ensures n > 0 ==> n >= 2 && IsOpener(s[0]) && s[n - 1] == CloserOf(s[0])
    ensures n > 0 ==> s[0] !in s[1..n]
  {
    if s != [] && IsOpener(s[0]) then
      var k := LastCloser(s[1..], s[0], CloserOf(s[0]));
      assert k >= 0 ==> s[1..][..k + 1] == s[1..k + 2];
      if k >= 0 then k + 2 else 0
    else 0
  }

  /** The annotation is as long as it can be: past its end no closer of its
      kind follows before the next opener of its kind. With length 0 this
      says that no annotation starts the text at all. */
  lemma {:induction false} AnnotationLengthMaximal(s: string, j: int)
    requires s != [] && IsOpener(s[0])
    requires 1 <= j < |s| && AnnotationLength(s) <= j
    requires s[0] !in s[1..j + 1]
    ensures s[j] != CloserOf(s[0])
  {
    var t := s[1..];
    assert t[..j] == s[1..j + 1];
    LastCloserIsLast(t, s[0], CloserOf(s[0]), j - 1);
  }

  /** `gsub(/(\([^(]*\)|\{[^{]*\}|\[[^\[]*\])/, '')`: scanning from the left,
      every annotation is removed; it runs from its opener to the last
      matching closer before the next opener of the same kind. */
  function StripAnnotations(s: string): (r: string)
    ensures |r| <= |s|
    decreases |s|
  {
    if s == [] then []
    else
      var n := AnnotationLength(s);
      if n > 0 then StripAnnotations(s[n..]) else [s[0]] + StripAnnotations(s[1..])
  }

  /** A phrase without annotations is kept as it is. */
  lemma {:induction false} StripAnnotationsPlain(s: string)
    requires forall k :: 0 <= k < |s| ==> !IsOpener(s[k])
    ensures StripAnnotations(s) == s
    decreases |s|
  {
    if s != [] {
      StripAnnotationsPlain(s[1..]);
    }
  }

  /** The characters `[^üäöß\w\s-]` does not remove. */
  predicate IsHeadwordChar(c: char)
  {
    c == 'ü' || c == 'ä' || c == 'ö' || c == 'ß' || IsWordChar(c) || c == '-'
  }

  /** `gsub(/[^üäöß\w\s-]/, '')`. */
  function KeepHeadwordChars(s: string): (r: string)
    ensures |r| <= |s|
    ensures forall k :: 0 <= k < |r| ==> IsHeadwordChar(r[k]) || IsSpace(r[k])
    ensures (forall k :: 0 <= k < |s| ==> IsHeadwordChar(s[k]) || IsSpace(s[k])) ==> r == s
  {
    if s == [] then []
    else if IsHeadwordChar(s[0]) || IsSpace(s[0]) then [s[0]] + KeepHeadwordChars(s[1..])
    else KeepHeadwordChars(s[1..])
  }

  /** The filter works character by character: it distributes over
      concatenation... */
  lemma {:induction false} KeepHeadwordCharsAppend(a: string, b: string)
    ensures KeepHeadwordChars(a + b) == KeepHeadwordChars(a) + KeepHeadwordChars(b)
  {
    if a == [] {
      assert a + b == b;
    } else {
      assert (a + b)[0] == a[0];
      assert (a + b)[1..] == a[1..] + b;
      KeepHeadwordCharsAppend(a[1..], b);
    }
  }

  /** ...and a character it does not keep vanishes without a trace. */
  lemma {:induction false} KeepHeadwordCharsDrops(a: string, c: char, b: string)
    requires !IsHeadwordChar(c) && !IsSpace(c)
    ensures KeepHeadwordChars(a + [c] + b) == KeepHeadwordChars(a + b)
  {
    KeepHeadwordCharsAppend(a + [c], b);
    KeepHeadwordCharsAppend(a, [c]);
    KeepHeadwordCharsAppend(a, b);
    assert KeepHeadwordChars([c]) == [];
  }

  /** `ary.sort! { |x, y| y.length <=> x.length }; ary[0]`: a longest word.
      Ruby's sort is not stable, so which of several longest words comes
      first is left open; this model takes the first. */
  function Longest(ws: seq<string>): (r: string)
    requires ws != []
    ensures r in ws
    ensures forall k :: 0 <= k < |ws| ==> |ws[k]| <= |r|
  {
    if |ws| == 1 then ws[0]
    else
      var rest := Longest(ws[1..]);
      if |rest| > |ws[0]| then rest else ws[0]
  }

  /** The phrase with its annotations removed, stripped and lower-cased. */
  function Cleaned(phrase: string): string
  {
    Downcase(Strip(StripAnnotations(phrase)))
  }

  /** The candidate headwords: the words left after dropping the characters
      that are neither word characters, `üäöß`, `-` nor blanks. */
  function Candidates(phrase: string): seq<string>
  {
    Words(KeepHeadwordChars(Cleaned(phrase)))
  }

  /** `extract_word(phrase)`; `None` is `nil`. */
  function ExtractWord(phrase: string): Option<string>
  {
    var w := Cleaned(phrase);
    if w == [] then None
    else
      var ws := Words(KeepHeadwordChars(w));
      if ws == [] then None else Some(Longest(ws))
  }

  /** A phrase has no headword exactly when nothing is left of it once the
      annotations and blanks are gone, or no candidate survives the
      character filter; otherwise its headword is a longest candidate. */
  lemma ExtractWordSpec(phrase: string)
    ensures ExtractWord(phrase).None? <==> Cleaned(phrase) == [] || Candidates(phrase) == []
    ensures ExtractWord(phrase).Some? ==>
              var w := ExtractWord(phrase).value;
              && w in Candidates(phrase)
              && forall k :: 0 <= k < |Candidates(phrase)| ==> |Candidates(phrase)[k]| <= |w|
  {
  }

  lemma {:induction false} ConcatMember(ws: seq<string>, k: nat, j: nat)
    requires k < |ws| && j < |ws[k]|
    ensures ws[k][j] in Concat(ws)
  {
    if k > 0 {
      ConcatMember(ws[1..], k - 1, j);
    }
  }

  lemma {:induction false} NonBlanksMember(s: string, c: char)
    requires c in NonBlanks(s)
    ensures c in s
  {
    if s != [] && !(!IsSpace(s[0]) && c == s[0]) {
      NonBlanksMember(s[1..], c);
    }
  }

  /** A headword is a non-empty run of word characters, `üäöß` and `-`. */
  lemma {:induction false} HeadwordChars(phrase: string)
    requires ExtractWord(phrase).Some?
    ensures var w := ExtractWord(phrase).value;
            w != [] && forall j :: 0 <= j < |w| ==> IsHeadwordChar(w[j])
  {
    ExtractWordSpec(phrase);
    var ws := Candidates(phrase);
    var w := ExtractWord(phrase).value;
    var k :| 0 <= k < |ws| && ws[k] == w;
    assert IsWord(ws[k]);
    forall j | 0 <= j < |w|
      ensures IsHeadwordChar(w[j])
    {
      ConcatMember(ws, k, j);
      NonBlanksMember(KeepHeadwordChars(Cleaned(phrase)), w[j]);
    }
  }

  predicate IsCloser(c: char)
  {
    c == ')' || c == '}' || c == ']'
  }

  /** No bracket of any kind occurs in `s`. */
  predicate NoBrackets(s: string)
  {
    forall k :: 0 <= k < |s| ==> !IsOpener(s[k]) && !IsCloser(s[k])
  }

  lemma {:induction false} LastCloserAppend(t: string, tail: string, o: char)
    requires IsOpener(o) && NoBrackets(tail)
    ensures LastCloser(t + tail, o, CloserOf(o)) == LastCloser(t, o, CloserOf(o))
  {
    if t == [] {
      assert t + tail == tail;
    } else {
      assert (t + tail)[0] == t[0];
      assert (t + tail)[1..] == t[1..] + tail;
      LastCloserAppend(t[1..], tail, o);
    }
  }

  /** Text without openers ahead of an annotation is kept as it is. */
  lemma {:induction false} StripAnnotationsPrefix(lead: string, x: string)
    requires forall k :: 0 <= k < |lead| ==> !IsOpener(lead[k])
    ensures StripAnnotations(lead + x) == lead + StripAnnotations(x)
  {
    if lead == [] {
      assert lead + x == x;
    } else {
      assert (lead + x)[0] == lead[0];
      assert AnnotationLength(lead + x) == 0;
      assert (lead + x)[1..] == lead[1..] + x;
      StripAnnotationsPrefix(lead[1..], x);
    }
  }

  /** Bracket-free text behind the last annotation is kept as it is. */
  lemma {:induction false} StripAnnotationsSuffix(x: string, trail: string)
    requires NoBrackets(trail)
    ensures StripAnnotations(x + trail) == StripAnnotations(x) + trail
    decreases |x|
  {
    if x == [] {
      assert x + trail == trail;
      StripAnnotationsPlain(trail);
    } else {
      var s := x + trail;
      var n := AnnotationLength(s);
      AnnotationLengthAppend(x, trail);
      if n > 0 {
        DropAppend(x, trail, n);
        StripAnnotationsSuffix(x[n..], trail);
      } else {
        DropAppend(x, trail, 1);
        StripAnnotationsSuffix(x[1..], trail);
        assert s[0] == x[0];
      }
    }
  }

  lemma {:induction false} AnnotationLengthAppend(x: string, trail: string)
    requires x != [] && NoBrackets(trail)
    ensures AnnotationLength(x + trail) == AnnotationLength(x)
  {
    var s := x + trail;
    assert s[0] == x[0];
    if IsOpener(x[0]) {
      DropAppend(x, trail, 1);
      LastCloserAppend(x[1..], trail, x[0]);
    }
  }

  lemma {:induction false} BlankMargins(lead: string, core: string, trail: string)
    requires forall k :: 0 <= k < |lead| ==> IsSpace(lead[k])
    requires forall k :: 0 <= k < |trail| ==> IsTrailingBlank(trail[k])
    ensures Strip(StripAnnotations(lead + core + trail)) == Strip(StripAnnotations(core))
  {
    var x := StripAnnotations(core);
    assert NoBrackets(trail);
    assert forall k :: 0 <= k < |lead| ==> !IsOpener(lead[k]);
    StripAnnotationsSuffix(core, trail);
    assert StripAnnotations(core + trail) == x + trail;
    StripAnnotationsPrefix(lead, core + trail);
    assert lead + core + trail == lead + (core + trail);
    assert StripAnnotations(lead + core + trail) == lead + (x + trail);
    assert lead + (x + trail) == lead + x + trail;
    StripMargins(lead, x, trail);
  }

  lemma {:induction false} StripAnnotationsMargins(phrase: string)
    ensures Strip(StripAnnotations(Strip(phrase))) == Strip(StripAnnotations(phrase))
  {
    var lead, trail := StripParts(phrase);
    BlankMargins(lead, Strip(phrase), trail);
  }

  /** `extract_word` strips after removing the annotations, so the blanks
      around a phrase do not change its headword; this is why a phrase
      stored stripped by `append` stays filed under its key. */
  lemma {:induction false} ExtractWordOfStripped(phrase: string)
    ensures ExtractWord(Strip(phrase)) == ExtractWord(phrase)
  {
    StripAnnotationsMargins(phrase);
    assert Cleaned(Strip(phrase)) == Cleaned(phrase);
  }
}

module HeadwordExamples {
  import opened Results
  import opened Strings
  import opened Headword

  /** A phrase that cleans to a single word is filed under that word. */
  lemma {:induction false} SingleWordHeadword(phrase: string, w: string)
    requires Cleaned(phrase) == w && w != []
    requires forall k :: 0 <= k < |w| ==> IsHeadwordChar(w[k])
    ensures ExtractWord(phrase) == Some(w)
  {
    assert IsWord(w);
    assert KeepHeadwordChars(w) == w;
    WordsOfWord(w, "");
    assert w + "" == w;
  }

  /** Lower-casing a word of headword characters keeps it one. */
  lemma DowncasedWord(w: string)
    requires IsWord(w) && forall k :: 0 <= k < |w| ==> IsHeadwordChar(w[k])
    ensures Downcase(w) != [] && forall k :: 0 <= k < |Downcase(w)| ==> IsHeadwordChar(Downcase(w)[k])
  {
  }

  /** A word made of headword characters is filed under its lower-case
      form. */
  lemma {:induction false} PlainWord(w: string)
    requires IsWord(w) && forall k :: 0 <= k < |w| ==> IsHeadwordChar(w[k])
    ensures ExtractWord(w) == Some(Downcase(w))
  {
    StripAnnotationsPlain(w);
    StripStripped(w);
    DowncasedWord(w);
    SingleWordHeadword(w, Downcase(w));
  }

  /** The annotation `(...)` that closes a phrase runs to its last `)`. */
  lemma {:induction false} ClosingAnnotation(note: string)
    requires '(' !in note
    ensures StripAnnotations("(" + note + ")") == []
  {
    var a := "(" + note + ")";
    var t := a[1..];
    assert t == note + ")";
    assert '(' !in t;
    LastCloserFinal(t, '(', ')');
    assert AnnotationLength(a) == |a|;
    assert a[|a|..] == [];
  }

  lemma {:induction false} CleanedAnnotated(w: string, note: string)
    requires IsWord(w) && forall k :: 0 <= k < |w| ==> IsHeadwordChar(w[k])
    requires '(' !in note
    ensures Cleaned(w + " (" + note + ")") == Downcase(w)
  {
    var a := "(" + note + ")";
    var phrase := w + " (" + note + ")";
    ClosingAnnotation(note);
    assert forall k :: 0 <= k < |w + " "| ==> !IsOpener((w + " ")[k]);
    StripAnnotationsPrefix(w + " ", a);
    assert phrase == (w + " ") + a;
    assert StripAnnotations(phrase) == "" + w + " ";
    StripMargins("", w, " ");
    StripStripped(w);
  }

  /** A word followed by an annotation is filed under the word. */
  lemma {:induction false} AnnotatedWord(w: string, note: string)
    requires IsWord(w) && forall k :: 0 <= k < |w| ==> IsHeadwordChar(w[k])
    requires '(' !in note
    ensures ExtractWord(w + " (" + note + ")") == Some(Downcase(w))
  {
    CleanedAnnotated(w, note);
    DowncasedWord(w);
    SingleWordHeadword(w + " (" + note + ")", Downcase(w));
  }

  /** A phrase that is nothing but an annotation has no headword. */
  lemma {:induction false} OnlyAnnotation(note: string)
    requires '(' !in note
    ensures ExtractWord("(" + note + ")") == None
  {
    ClosingAnnotation(note);
  }

  // The worked examples below take their phrase as a `requires s == ...`
  // rather than writing the literal into the `ensures`: this keeps the
  // solver from unfolding `ExtractWord` on the literal before the proof
  // steps name the parts it needs.

  lemma {:induction false} Plain(s: string)
    requires s == "Word"
    ensures ExtractWord(s) == Some("word")
  {
    assert IsWord(s) && forall k :: 0 <= k < |s| ==> IsHeadwordChar(s[k]);
    assert Downcase(s) == "word";
    PlainWord(s);
  }

  lemma {:induction false} Annotated(s: string)
    requires s == "go (coll.)"
    ensures ExtractWord(s) == Some("go")
  {
    var w := "go";
    assert IsWord(w) && forall k :: 0 <= k < |w| ==> IsHeadwordChar(w[k]);
    assert Downcase(w) == "go";
    assert s == w + " (" + "coll." + ")";
    AnnotatedWord(w, "coll.");
  }

  /** An annotation runs to the last closer before the next opener, so the
      text between two closers goes with it: `yyyy` is not a candidate. */
  lemma {:induction false} GreedyAnnotation(s: string)
    requires s == "x (a) yyyy)"
    ensures ExtractWord(s) == Some("x")
  {
    var w := "x";
    assert IsWord(w) && forall k :: 0 <= k < |w| ==> IsHeadwordChar(w[k]);
    assert Downcase(w) == "x";
    assert '(' !in "a) yyyy";
    assert s == w + " (" + "a) yyyy" + ")";
    AnnotatedWord(w, "a) yyyy");
  }
}
