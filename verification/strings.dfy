/** The Ruby string primitives the dictionary code relies on: `strip`,
    `split` with a literal separator, whitespace `split`, `each_line`,
    `downcase` and the character classes `\s` and `\w`. */
module Strings {

  /** `\s` in a Ruby regular expression, and the blanks `lstrip` removes:
      space, tab, line feed, vertical tab, form feed, carriage return. */
  predicate IsSpace(c: char)
  {
    c == ' ' || c == '\t' || c == '\n' || c == '\U{000B}' || c == '\U{000C}' || c == '\r'
  }

  /** What `rstrip` removes at the end of a string: the blanks and NUL. */
  predicate IsTrailingBlank(c: char)
  {
    IsSpace(c) || c == '\0'
  }

  /** `\w` in a Ruby regular expression: ASCII letters, digits and `_`. */
  predicate IsWordChar(c: char)
  {
    ('a' <= c <= 'z') || ('A' <= c <= 'Z') || ('0' <= c <= '9') || c == '_'
  }

  /** `lstrip`: drops the leading blanks. */
  function TrimStart(s: string): (r: string)
    ensures |r| <= |s| && r == s[|s| - |r|..]
    ensures forall k :: 0 <= k < |s| - |r| ==> IsSpace(s[k])
    ensures r != [] ==> !IsSpace(r[0])
  {
    if s != [] && IsSpace(s[0]) then TrimStart(s[1..]) else s
  }

  /** `rstrip`: drops the trailing blanks and NULs. */
  function TrimEnd(s: string): (r: string)
    ensures |r| <= |s| && r == s[..|r|]
    ensures forall k :: |r| <= k < |s| ==> IsTrailingBlank(s[k])
    ensures r != [] ==> !IsTrailingBlank(r[|r| - 1])
  {
    if s != [] && IsTrailingBlank(s[|s| - 1]) then TrimEnd(s[..|s| - 1]) else s
  }

  /** `strip`: the string without its leading and trailing blanks. */
  function Strip(s: string): string
  {
    TrimEnd(TrimStart(s))
  }

  /** A string `strip` leaves as it is. */
  predicate IsStripped(s: string)
  {
    s == [] || (!IsSpace(s[0]) && !IsTrailingBlank(s[|s| - 1]))
  }

  /** The result of `strip` is a slice of its input whose margins are blank,
      and `strip` has nothing left to remove from it. */
  lemma {:induction false} StripIsSlice(s: string)
    ensures IsStripped(Strip(s))
    ensures exists i, j :: 0 <= i <= j <= |s| && Strip(s) == s[i..j]
              && (forall k :: 0 <= k < i ==> IsSpace(s[k]))
              && (forall k :: j <= k < |s| ==> IsTrailingBlank(s[k]))
  {
    var t := TrimStart(s);
    var r := TrimEnd(t);
    var i := |s| - |t|;
    var j := i + |r|;
    assert r == s[i..j] by {
      assert t == s[i..] && r == t[..|r|];
    }
    assert forall k :: j <= k < |s| ==> IsTrailingBlank(s[k]) by {
      forall k | j <= k < |s|
        ensures IsTrailingBlank(s[k])
      {
        assert s[k] == t[k - i];
      }
    }
    assert forall k :: 0 <= k < i ==> IsSpace(s[k]);
    if r != [] {
      assert r[0] == t[0];
    }
  }

  /** A string is its stripped core between a blank lead and a trail of
      blanks and NULs. */
  lemma {:induction false} StripParts(s: string) returns (lead: string, trail: string)
    ensures s == lead + Strip(s) + trail
    ensures forall k :: 0 <= k < |lead| ==> IsSpace(lead[k])
    ensures forall k :: 0 <= k < |trail| ==> IsTrailingBlank(trail[k])
  {
    StripIsSlice(s);
    var i, j :| 0 <= i <= j <= |s| && Strip(s) == s[i..j]
                && (forall k :: 0 <= k < i ==> IsSpace(s[k]))
                && (forall k :: j <= k < |s| ==> IsTrailingBlank(s[k]));
    lead, trail := s[..i], s[j..];
    ThreeParts(s, i, j);
    forall k | 0 <= k < |lead|
      ensures IsSpace(lead[k])
    {
      assert lead[k] == s[k];
    }
    forall k | 0 <= k < |trail|
      ensures IsTrailingBlank(trail[k])
    {
      assert trail[k] == s[j + k];
    }
  }

  lemma {:induction false} ThreeParts(s: string, i: nat, j: nat)
    requires i <= j <= |s|
    ensures s == s[..i] + s[i..j] + s[j..]
  {
    assert s[..j] == s[..i] + s[i..j];
  }

  /** A stripped string is a fixed point of `strip`. */
  lemma StripStripped(s: string)
    requires IsStripped(s)
    ensures Strip(s) == s
  {
  }

  lemma {:induction false} TrimStartBlanks(lead: string, y: string)
    requires forall k :: 0 <= k < |lead| ==> IsSpace(lead[k])
    ensures TrimStart(lead + y) == TrimStart(y)
  {
    if lead == [] {
      assert lead + y == y;
    } else {
      assert (lead + y)[0] == lead[0];
      assert (lead + y)[1..] == lead[1..] + y;
      TrimStartBlanks(lead[1..], y);
    }
  }

  lemma {:induction false} TrimEndBlanks(y: string, trail: string)
    requires forall k :: 0 <= k < |trail| ==> IsTrailingBlank(trail[k])
    ensures TrimEnd(y + trail) == TrimEnd(y)
  {
    if trail == [] {
      assert y + trail == y;
    } else {
      var n := |trail| - 1;
      assert (y + trail)[|y + trail| - 1] == trail[n];
      assert (y + trail)[..|y + trail| - 1] == y + trail[..n];
      TrimEndBlanks(y, trail[..n]);
    }
  }

  lemma {:induction false} TrimStartAppend(x: string, trail: string)
    requires TrimStart(x) != []
    ensures TrimStart(x + trail) == TrimStart(x) + trail
  {
    assert (x + trail)[0] == x[0];
    if IsSpace(x[0]) {
      assert (x + trail)[1..] == x[1..] + trail;
      TrimStartAppend(x[1..], trail);
    }
  }

  /** Blanks around a string do not change what `strip` makes of it. */
  lemma {:induction false} StripMargins(lead: string, x: string, trail: string)
    requires forall k :: 0 <= k < |lead| ==> IsSpace(lead[k])
    requires forall k :: 0 <= k < |trail| ==> IsTrailingBlank(trail[k])
    ensures Strip(lead + x + trail) == Strip(x)
  {
    assert lead + x + trail == lead + (x + trail);
    TrimStartBlanks(lead, x + trail);
    if TrimStart(x) != [] {
      TrimStartAppend(x, trail);
      TrimEndBlanks(TrimStart(x), trail);
    } else {
      var t := TrimStart(x + trail);
      BlankAfterSpaces(x, trail);
      TrimEndBlanks([], t);
      assert [] + t == t;
    }
  }

  /** Once `x` is all spaces, what `lstrip` leaves of `x + trail` is part of
      the trailing blanks. */
  lemma {:induction false} BlankAfterSpaces(x: string, trail: string)
    requires TrimStart(x) == []
    requires forall k :: 0 <= k < |trail| ==> IsTrailingBlank(trail[k])
    ensures forall k :: 0 <= k < |TrimStart(x + trail)| ==> IsTrailingBlank(TrimStart(x + trail)[k])
  {
    var t := TrimStart(x + trail);
    forall k | 0 <= k < |t|
      ensures IsTrailingBlank(t[k])
    {
      var m := |x + trail| - |t| + k;
      assert t[k] == (x + trail)[m];
      if m < |x| {
        assert IsSpace(x[m]);
      } else {
        assert (x + trail)[m] == trail[m - |x|];
      }
    }
  }

  predicate StartsWith(s: string, p: string)
  {
    |p| <= |s| && s[..|p|] == p
  }

  predicate EndsWith(s: string, p: string)
  {
    |p| <= |s| && s[|s| - |p|..] == p
  }

  /** `d` occurs in `s` starting at index `i`. */
  predicate Occurs(s: string, d: string, i: int)
  {
    0 <= i && i + |d| <= |s| && s[i..i + |d|] == d
  }

  /** `d` is not a substring of `s`. */
  predicate Excludes(s: string, d: string)
  {
    forall i :: 0 <= i < |s| ==> !Occurs(s, d, i)
  }

  /** No occurrence of `d` in `a + b` starts inside `a`. */
  predicate NoneStartsIn(a: string, b: string, d: string)
  {
    forall i :: 0 <= i < |a| ==> !Occurs(a + b, d, i)
  }

  /** `^` in a Ruby regular expression holds at index `i` of `s`. */
  predicate AtLineStart(s: string, i: int)
  {
    i == 0 || (0 < i <= |s| && s[i - 1] == '\n')
  }

  /** Dropping a prefix of `x` from `x + y`. */
  lemma DropAppend<T>(x: seq<T>, y: seq<T>, n: nat)
    requires n <= |x|
    ensures (x + y)[n..] == x[n..] + y
  {
  }

  /** The concatenation of `xs`. */
  function Concat(xs: seq<string>): string
  {
    if xs == [] then [] else xs[0] + Concat(xs[1..])
  }

  lemma {:induction false} ConcatAppend(xs: seq<string>, ys: seq<string>)
    ensures Concat(xs + ys) == Concat(xs) + Concat(ys)
  {
    if xs == [] {
      assert xs + ys == ys;
    } else {
      assert (xs + ys)[1..] == xs[1..] + ys;
      ConcatAppend(xs[1..], ys);
      calc {
        Concat(xs + ys);
        (xs + ys)[0] + Concat((xs + ys)[1..]);
        xs[0] + (Concat(xs[1..]) + Concat(ys));
      }
    }
  }

  /** `xs` joined with `d` between neighbours (Ruby's `Array#join(d)`). */
  function Join(xs: seq<string>, d: string): string
  {
    if xs == [] then [] else if |xs| == 1 then xs[0] else xs[0] + d + Join(xs[1..], d)
  }

  /** Prefixes the first of a non-empty list of fields with `a`. */
  function PrependFirst(a: string, fs: seq<string>): seq<string>
    requires |fs| >= 1
  {
    [a + fs[0]] + fs[1..]
  }

  /** Every field of a split with separator `d`, empty ones included, found
      by scanning for the leftmost occurrence of `d` and resuming after it. */
  function Fields(s: string, d: string): (r: seq<string>)
    requires |d| > 0
    ensures |r| >= 1
    ensures Join(r, d) == s
    decreases |s|
  {
    if |s| < |d| then [s]
    else if s[..|d|] == d then
      var rest := Fields(s[|d|..], d);
      JoinCons("", rest, d);
      assert s == d + s[|d|..];
      [""] + rest
    else
      var rest := Fields(s[1..], d);
      JoinPrependFirst([s[0]], rest, d);
      assert s == [s[0]] + s[1..];
      PrependFirst([s[0]], rest)
  }

  lemma {:induction false} JoinCons(x: string, rest: seq<string>, d: string)
    requires rest != []
    ensures Join([x] + rest, d) == x + d + Join(rest, d)
  {
    assert ([x] + rest)[1..] == rest;
  }

  lemma {:induction false} JoinPrependFirst(a: string, fs: seq<string>, d: string)
    requires fs != []
    ensures Join(PrependFirst(a, fs), d) == a + Join(fs, d)
  {
    var p := PrependFirst(a, fs);
    if |fs| > 1 {
      assert p[1..] == fs[1..];
    }
  }

  /** A prefix in which no occurrence of `d` starts is glued to the first
      field of what follows it. */
  lemma {:induction false} FieldsPrefix(a: string, b: string, d: string)
    requires |d| > 0
    requires NoneStartsIn(a, b, d)
    ensures Fields(a + b, d) == PrependFirst(a, Fields(b, d))
    decreases |a|
  {
    if a == [] {
      assert a + b == b;
      var f := Fields(b, d);
      assert a + f[0] == f[0];
      assert [f[0]] + f[1..] == f;
    } else {
      var s := a + b;
      assert !Occurs(s, d, 0);
      if |s| >= |d| {
        assert s[1..] == a[1..] + b;
        forall i | 0 <= i < |a[1..]|
          ensures !Occurs(a[1..] + b, d, i)
        {
          assert !Occurs(a + b, d, i + 1);
          assert !Occurs(s, d, i + 1);
          if i + |d| <= |a[1..] + b| {
            assert (a[1..] + b)[i..i + |d|] == s[1..][i..i + |d|];
            assert s[1..][i..i + |d|] == s[i + 1..i + 1 + |d|];
          }
        }
        FieldsPrefix(a[1..], b, d);
        assert s[..|d|] != d;
        var f := Fields(b, d);
        calc {
          Fields(s, d);
          PrependFirst([s[0]], Fields(s[1..], d));
          PrependFirst([s[0]], PrependFirst(a[1..], f));
          [[s[0]] + (a[1..] + f[0])] + f[1..];
          { assert [s[0]] + (a[1..] + f[0]) == a + f[0]; }
          PrependFirst(a, f);
        }
      }
    }
  }

  /** A leading separator yields an empty first field. */
  lemma {:induction false} FieldsAfterSeparator(d: string, b: string)
    requires |d| > 0
    ensures Fields(d + b, d) == [""] + Fields(b, d)
  {
    assert (d + b)[..|d|] == d;
    assert (d + b)[|d|..] == b;
  }

  /** A string without `d` is a single field. */
  lemma {:induction false} FieldsWithout(s: string, d: string)
    requires |d| > 0
    requires Excludes(s, d)
    ensures Fields(s, d) == [s]
  {
    assert s + "" == s;
    assert NoneStartsIn(s, "", d) by {
      forall i | 0 <= i < |s|
        ensures !Occurs(s + "", d, i)
      {
        assert !Occurs(s, d, i);
      }
    }
    FieldsPrefix(s, "", d);
  }

  /** The lists of fields a split can produce: no occurrence of `d` lies
      inside the last field, and none starts inside any other field, not
      even one that runs on into the separator after it. */
  predicate Separated(r: seq<string>, d: string)
  {
    && r != []
    && (forall i :: 0 <= i < |r| - 1 ==> NoneStartsIn(r[i], d, d))
    && Excludes(r[|r| - 1], d)
  }

  lemma {:induction false} OccursShift(c: char, a: string, d: string, p: nat)
    ensures Occurs([c] + a, d, p + 1) <==> Occurs(a, d, p)
  {
    if p + 1 + |d| <= |[c] + a| {
      assert ([c] + a)[p + 1..p + 1 + |d|] == a[p..p + |d|];
    }
  }

  /** What follows a separator cannot complete an occurrence that starts
      before it. */
  lemma {:induction false} NoneStartsInExtend(a: string, d: string, b: string)
    requires NoneStartsIn(a, d, d)
    ensures NoneStartsIn(a, d + b, d)
  {
    forall i | 0 <= i < |a|
      ensures !Occurs(a + (d + b), d, i)
    {
      assert !Occurs(a + d, d, i);
      assert (a + (d + b))[i..i + |d|] == (a + d)[i..i + |d|];
    }
  }

  /** The fields of a split are separated: each separator the scan consumes
      is the leftmost one left. */
  lemma {:induction false} FieldsSeparated(s: string, d: string)
    requires |d| > 0
    ensures Separated(Fields(s, d), d)
    decreases |s|
  {
    var r := Fields(s, d);
    if |s| < |d| {
      assert r == [s];
    } else if s[..|d|] == d {
      var rest := Fields(s[|d|..], d);
      FieldsSeparated(s[|d|..], d);
      assert r == [""] + rest;
      forall i | 0 < i < |r| - 1
        ensures NoneStartsIn(r[i], d, d)
      {
        assert r[i] == rest[i - 1];
      }
      assert r[|r| - 1] == rest[|rest| - 1];
    } else {
      var rest := Fields(s[1..], d);
      FieldsSeparated(s[1..], d);
      var t := [s[0]] + rest[0];
      assert r == [t] + rest[1..];
      assert !Occurs(s, d, 0) by {
        assert s[0..|d|] == s[..|d|];
      }
      if |rest| == 1 {
        assert t == s by {
          assert Join(rest, d) == rest[0];
          assert s == [s[0]] + s[1..];
        }
        forall i | 0 < i < |t|
          ensures !Occurs(t, d, i)
        {
          OccursShift(s[0], rest[0], d, i - 1);
        }
      } else {
        var u := Join(rest[1..], d);
        assert s == (t + d) + u by {
          assert s == [s[0]] + s[1..];
          assert Join(rest, d) == rest[0] + d + u;
        }
        forall i | 0 <= i < |t|
          ensures !Occurs(t + d, d, i)
        {
          if i == 0 {
            assert (t + d)[0..|d|] == s[0..|d|];
          } else {
            assert t + d == [s[0]] + (rest[0] + d);
            OccursShift(s[0], rest[0] + d, d, i - 1);
          }
        }
        forall i | 0 < i < |r| - 1
          ensures NoneStartsIn(r[i], d, d)
        {
          assert r[i] == rest[i];
        }
        assert r[|r| - 1] == rest[|rest| - 1];
      }
    }
  }

  /** Separated fields joined with `d` split back into themselves, so
      `Fields` is the only separated list that joins back to its input. */
  lemma {:induction false} SeparatedTail(r: seq<string>, d: string)
    requires |r| > 1 && Separated(r, d)
    ensures Separated(r[1..], d)
  {
    forall i | 0 <= i < |r[1..]| - 1
      ensures NoneStartsIn(r[1..][i], d, d)
    {
      assert r[1..][i] == r[i + 1];
    }
    assert r[1..][|r[1..]| - 1] == r[|r| - 1];
  }

  lemma {:induction false} FieldsUnique(r: seq<string>, d: string)
    requires |d| > 0 && Separated(r, d)
    ensures Fields(Join(r, d), d) == r
    decreases |r|
  {
    if |r| == 1 {
      FieldsWithout(r[0], d);
    } else {
      var j := Join(r[1..], d);
      assert Join(r, d) == r[0] + (d + j);
      NoneStartsInExtend(r[0], d, j);
      FieldsPrefix(r[0], d + j, d);
      FieldsAfterSeparator(d, j);
      SeparatedTail(r, d);
      FieldsUnique(r[1..], d);
      assert r[0] + "" == r[0];
      assert [r[0]] + r[1..] == r;
    }
  }

  /** Ruby drops the empty fields at the end of a split. */
  function DropTrailingEmpty(xs: seq<string>): (r: seq<string>)
    ensures |r| <= |xs| && r == xs[..|r|]
    ensures r == [] || r[|r| - 1] != ""
    ensures forall k :: |r| <= k < |xs| ==> xs[k] == ""
  {
    if xs == [] then []
    else if xs[|xs| - 1] == "" then DropTrailingEmpty(xs[..|xs| - 1])
    else xs
  }

  /** `s.split(d)` for a literal separator `d` (also `split(/d/)` when `d`
      holds no regular-expression operator). */
  function Split(s: string, d: string): seq<string>
    requires |d| > 0
  {
    DropTrailingEmpty(Fields(s, d))
  }

  /** A token of a whitespace split: non-empty and blank-free. */
  predicate IsWord(w: string)
  {
    w != [] && forall k :: 0 <= k < |w| ==> !IsSpace(w[k])
  }

  /** The length of the blank-free prefix of `s`. */
  function WordLength(s: string): (n: nat)
    ensures n <= |s|
    ensures forall k :: 0 <= k < n ==> !IsSpace(s[k])
    ensures n == |s| || IsSpace(s[n])
  {
    if s == [] || IsSpace(s[0]) then 0 else 1 + WordLength(s[1..])
  }

  /** The non-blank characters of `s`, in order. */
  function NonBlanks(s: string): string
  {
    if s == [] then [] else (if IsSpace(s[0]) then [] else [s[0]]) + NonBlanks(s[1..])
  }

  lemma {:induction false} NonBlanksAppend(s: string, t: string)
    ensures NonBlanks(s + t) == NonBlanks(s) + NonBlanks(t)
  {
    if s == [] {
      assert s + t == t;
    } else {
      assert (s + t)[1..] == s[1..] + t;
      NonBlanksAppend(s[1..], t);
      var h := if IsSpace(s[0]) then [] else [s[0]];
      calc {
        NonBlanks(s + t);
        h + NonBlanks((s + t)[1..]);
        h + (NonBlanks(s[1..]) + NonBlanks(t));
      }
    }
  }

  lemma {:induction false} NonBlanksOfWord(w: string)
    requires forall k :: 0 <= k < |w| ==> !IsSpace(w[k])
    ensures NonBlanks(w) == w
  {
    if w != [] {
      NonBlanksOfWord(w[1..]);
    }
  }

  /** `s.split` with no argument: the maximal runs of non-blank characters. */
  function Words(s: string): (r: seq<string>)
    ensures forall k :: 0 <= k < |r| ==> IsWord(r[k])
    ensures Concat(r) == NonBlanks(s)
    decreases |s|
  {
    if s == [] then []
    else if IsSpace(s[0]) then Words(s[1..])
    else
      var n := WordLength(s);
      var rest := Words(s[n..]);
      assert s == s[..n] + s[n..];
      NonBlanksAppend(s[..n], s[n..]);
      NonBlanksOfWord(s[..n]);
      [s[..n]] + rest
  }

  /** Words joined by single blanks split back into the same words. */
  lemma {:induction false} WordsOfJoin(ws: seq<string>)
    requires forall k :: 0 <= k < |ws| ==> IsWord(ws[k])
    ensures Words(Join(ws, " ")) == ws
  {
    if |ws| == 1 {
      WordsOfWord(ws[0], "");
      assert ws[0] + "" == ws[0];
    } else if |ws| > 1 {
      var rest := Join(ws[1..], " ");
      WordsOfJoin(ws[1..]);
      WordsOfWord(ws[0], " " + rest);
      assert ws[0] + " " + rest == ws[0] + (" " + rest);
      assert (" " + rest)[1..] == rest;
    }
  }

  predicate IsBlank(g: string)
  {
    forall k :: 0 <= k < |g| ==> IsSpace(g[k])
  }

  /** The words `ws` with the blank gaps `gaps` before, between and after
      them. */
  function Spaced(gaps: seq<string>, ws: seq<string>): string
    requires |gaps| == |ws| + 1
  {
    if ws == [] then gaps[0] else gaps[0] + ws[0] + Spaced(gaps[1..], ws[1..])
  }

  lemma {:induction false} WordsOfBlanks(g: string, t: string)
    requires IsBlank(g)
    ensures Words(g + t) == Words(t)
  {
    if g == [] {
      assert g + t == t;
    } else {
      assert (g + t)[0] == g[0] && IsSpace(g[0]);
      assert (g + t)[1..] == g[1..] + t;
      assert Words(g + t) == Words(g[1..] + t);
      WordsOfBlanks(g[1..], t);
    }
  }

  /** A whitespace split returns exactly the maximal blank-free runs: words
      set apart by non-empty blank gaps, with any blanks at either end,
      split back into those words. */
  lemma {:induction false} WordsOfSpaced(gaps: seq<string>, ws: seq<string>)
    requires |gaps| == |ws| + 1
    requires forall i :: 0 <= i < |gaps| ==> IsBlank(gaps[i])
    requires forall i :: 0 < i < |ws| ==> gaps[i] != []
    requires forall k :: 0 <= k < |ws| ==> IsWord(ws[k])
    ensures Words(Spaced(gaps, ws)) == ws
  {
    if ws == [] {
      WordsOfBlanks(gaps[0], []);
      assert gaps[0] + [] == gaps[0];
    } else {
      var t := Spaced(gaps[1..], ws[1..]);
      assert Spaced(gaps, ws) == gaps[0] + (ws[0] + t);
      WordsOfBlanks(gaps[0], ws[0] + t);
      if |ws| > 1 {
        assert gaps[1..][0] == gaps[1] && gaps[1] != [];
        assert t[0] == gaps[1][0];
      } else {
        assert t == gaps[1];
      }
      WordsOfWord(ws[0], t);
      assert forall i :: 0 <= i < |gaps[1..]| ==> gaps[1..][i] == gaps[i + 1];
      assert forall k :: 0 <= k < |ws[1..]| ==> ws[1..][k] == ws[k + 1];
      WordsOfSpaced(gaps[1..], ws[1..]);
    }
  }

  /** A word followed by nothing or by a blank is split off whole. */
  lemma {:induction false} WordsOfWord(w: string, t: string)
    requires IsWord(w)
    requires t == [] || IsSpace(t[0])
    ensures Words(w + t) == [w] + Words(t)
  {
    var s := w + t;
    assert WordLength(s) == |w| by {
      WordLengthOfWord(w, t);
    }
    assert s[..|w|] == w;
    assert s[|w|..] == t;
  }

  lemma {:induction false} WordLengthOfWord(w: string, t: string)
    requires forall k :: 0 <= k < |w| ==> !IsSpace(w[k])
    requires t == [] || IsSpace(t[0])
    ensures WordLength(w + t) == |w|
  {
    if w != [] {
      assert (w + t)[1..] == w[1..] + t;
      WordLengthOfWord(w[1..], t);
    }
  }

  /** A line of `each_line`: non-empty, with a line feed at most at its end. */
  predicate IsLine(l: string)
  {
    l != [] && forall k :: 0 <= k < |l| - 1 ==> l[k] != '\n'
  }

  /** The length of the first line of `s`, its line feed included. */
  function LineLength(s: string): (n: nat)
    requires s != []
    ensures 1 <= n <= |s|
    ensures forall k :: 0 <= k < n - 1 ==> s[k] != '\n'
    ensures n == |s| || s[n - 1] == '\n'
  {
    if s[0] == '\n' || |s| == 1 then 1 else 1 + LineLength(s[1..])
  }

  /** `s.each_line`: the lines of `s`, each keeping its line feed. */
  function Lines(s: string): (r: seq<string>)
    ensures Concat(r) == s
    ensures forall k :: 0 <= k < |r| ==> IsLine(r[k])
    ensures forall k :: 0 <= k < |r| - 1 ==> r[k] != [] && r[k][|r[k]| - 1] == '\n'
    decreases |s|
  {
    if s == [] then []
    else
      var n := LineLength(s);
      assert s == s[..n] + s[n..];
      [s[..n]] + Lines(s[n..])
  }

  /** A string ending in its only line feed. */
  predicate IsFullLine(a: string)
  {
    IsLine(a) && a[|a| - 1] == '\n'
  }

  lemma {:induction false} LineLengthOfFullLine(a: string, b: string)
    requires IsFullLine(a)
    ensures LineLength(a + b) == |a|
    decreases |a|
  {
    var s := a + b;
    if s[0] != '\n' {
      assert |a| > 1;
      assert s[1..] == a[1..] + b;
      LineLengthOfFullLine(a[1..], b);
    }
  }

  /** A line ending in a line feed is the first line of what it starts. */
  lemma {:induction false} LinesOfFullLine(a: string, b: string)
    requires IsFullLine(a)
    ensures Lines(a + b) == [a] + Lines(b)
  {
    LineLengthOfFullLine(a, b);
    assert (a + b)[..|a|] == a;
    assert (a + b)[|a|..] == b;
  }

  /** A single line, with or without its line feed, is one line. */
  lemma {:induction false} LinesOfLine(a: string)
    requires IsLine(a)
    ensures Lines(a) == [a]
  {
    LineLengthOfLine(a);
    assert a[..|a|] == a;
    assert a[|a|..] == [];
  }

  lemma {:induction false} LineLengthOfLine(a: string)
    requires IsLine(a)
    ensures LineLength(a) == |a|
    decreases |a|
  {
    if a[0] != '\n' && |a| > 1 {
      LineLengthOfLine(a[1..]);
    }
  }

  /** The case mapping of `downcase`, on the letters of the German alphabet. */
  function LowerChar(c: char): char
  {
    if 'A' <= c <= 'Z' then (c as int + 32) as char
    else if c == 'Ä' then 'ä'
    else if c == 'Ö' then 'ö'
    else if c == 'Ü' then 'ü'
    else c
  }

  /** `downcase`, one character at a time. */
  function Downcase(s: string): (r: string)
    ensures |r| == |s|
    ensures forall k :: 0 <= k < |s| ==> r[k] == LowerChar(s[k])
  {
    if s == [] then [] else [LowerChar(s[0])] + Downcase(s[1..])
  }
}
