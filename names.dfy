/**
 * Cleaning of a legislator's name as it is read from the roster table:
 * the link text is stripped, every newline becomes a space, every run of
 * whitespace becomes one space, and the ends are stripped again.
 */
module Names {
  import opened Wrappers

  /**
   * Python's `str.isspace()`: the characters that both `\s` in a regular
   * expression over `str` and `str.strip()` treat as whitespace.
   */
  predicate IsSpace(c: char) {
    || c == ' '
    || ('\t' <= c <= '\r')
    || ('\U{1C}' <= c <= '\U{1F}')
    || c == '\U{85}' || c == '\U{A0}' || c == '\U{1680}'
    || ('\U{2000}' <= c <= '\U{200A}')
    || c == '\U{2028}' || c == '\U{2029}' || c == '\U{202F}' || c == '\U{205F}' || c == '\U{3000}'
  }

  /** Every whitespace character of `s` is the plain space. */
  predicate OnlyPlainSpaces(s: string) {
    forall i :: 0 <= i < |s| && IsSpace(s[i]) ==> s[i] == ' '
  }

  /** No two neighbouring characters of `s` are both whitespace. */
  predicate NoDoubleSpace(s: string) {
    forall i :: 0 < i < |s| ==> !(IsSpace(s[i - 1]) && IsSpace(s[i]))
  }

  /** `s` neither starts nor ends with whitespace. */
  predicate NoEdgeSpace(s: string) {
    s != [] ==> !IsSpace(s[0]) && !IsSpace(s[|s| - 1])
  }

  /** A cleaned name: single plain spaces between words and none at the ends. */
  predicate IsClean(s: string) {
    OnlyPlainSpaces(s) && NoDoubleSpace(s) && NoEdgeSpace(s)
  }

  /** The characters of `s` that are not whitespace, in order. */
  function NonSpace(s: string): (r: string)
    ensures |r| <= |s|
  {
    if s == [] then [] else (if IsSpace(s[0]) then [] else [s[0]]) + NonSpace(s[1..])
  }

  /** `s.replace('\n', ' ')` */
  function ReplaceNewlines(s: string): (r: string)
    ensures |r| == |s|
    ensures forall i :: 0 <= i < |s| ==> r[i] == (if s[i] == '\n' then ' ' else s[i])
  {
    if s == [] then [] else [if s[0] == '\n' then ' ' else s[0]] + ReplaceNewlines(s[1..])
  }

  /** `s.lstrip()`: `s` without its leading whitespace. */
  function TrimStart(s: string): (r: string)
    ensures |r| <= |s| && r == s[|s| - |r|..]
    ensures r == [] || !IsSpace(r[0])
    ensures forall i :: 0 <= i < |s| - |r| ==> IsSpace(s[i])
  {
    if s != [] && IsSpace(s[0]) then
      var r := TrimStart(s[1..]);
      assert s[1..][|s| - 1 - |r|..] == s[|s| - |r|..];
      assert forall i :: 1 <= i < |s| - |r| ==> s[i] == s[1..][i - 1];
      r
    else s
  }

  /** `s.rstrip()`: `s` without its trailing whitespace. */
  function TrimEnd(s: string): (r: string)
    ensures |r| <= |s| && r == s[..|r|]
    ensures r == [] || !IsSpace(r[|r| - 1])
    ensures forall i :: |r| <= i < |s| ==> IsSpace(s[i])
  {
    if s != [] && IsSpace(s[|s| - 1]) then
      var r := TrimEnd(s[..|s| - 1]);
      assert s[..|s| - 1][..|r|] == s[..|r|];
      assert forall i :: |r| <= i < |s| - 1 ==> s[i] == s[..|s| - 1][i];
      r
    else s
  }

  /** `r` is `s[lo..hi]` and everything of `s` outside that slice is whitespace. */
  predicate IsEdgeTrim(s: string, r: string, lo: nat, hi: nat) {
    && lo <= hi <= |s| && r == s[lo..hi]
    && (forall i :: 0 <= i < lo ==> IsSpace(s[i]))
    && (forall i :: hi <= i < |s| ==> IsSpace(s[i]))
  }

  /** `s.strip()`: `s` with its leading and trailing whitespace removed, and nothing else. */
  function Strip(s: string): (r: string)
    ensures exists lo, hi :: IsEdgeTrim(s, r, lo, hi)
    ensures |r| <= |s| && NoEdgeSpace(r)
    ensures NonSpace(r) == NonSpace(s)
  {
    TrimBothIsEdgeTrim(s);
    TrimEndKeepsNonSpace(s);
    TrimStartKeepsNonSpace(TrimEnd(s));
    TrimStart(TrimEnd(s))
  }

  lemma TrimBothIsEdgeTrim(s: string)
    ensures IsEdgeTrim(s, TrimStart(TrimEnd(s)), |TrimEnd(s)| - |TrimStart(TrimEnd(s))|, |TrimEnd(s)|)
  {
    var e := TrimEnd(s);
    var r := TrimStart(e);
    assert r == s[|e| - |r|..|e|];
    forall i | 0 <= i < |e| - |r| ensures IsSpace(s[i]) {
      assert e[i] == s[i];
    }
  }

  /**
   * `re.sub(r'\s+', ' ', s)`: each maximal run of whitespace, scanned left
   * to right, is replaced by one plain space.
   */
  function CollapseSpaces(s: string): (r: string)
    ensures |r| <= |s|
    ensures r == [] <==> s == []
    ensures r != [] ==> (IsSpace(r[0]) <==> IsSpace(s[0]))
    ensures r != [] ==> (IsSpace(r[|r| - 1]) <==> IsSpace(s[|s| - 1]))
    decreases |s|
  {
    if s == [] then []
    else if IsSpace(s[0]) then [' '] + CollapseSpaces(TrimStart(s))
    else [s[0]] + CollapseSpaces(s[1..])
  }

  /**
   * `re.sub(r'\s+', ' ', s.replace('\n', ' ')).strip()`: a clean string no
   * longer than the input.
   */
  function Normalize(s: string): (r: string)
    ensures IsClean(r) && |r| <= |s|
  {
    CollapseSpacesShape(ReplaceNewlines(s));
    StripIsClean(CollapseSpaces(ReplaceNewlines(s)));
    Strip(CollapseSpaces(ReplaceNewlines(s)))
  }

  /**
   * The name as the roster scrape stores it: a missing link gives no name;
   * otherwise the link text is stripped and, when that leaves something,
   * normalised.
   */
  function CleanScrapedName(linkText: Option<string>): (name: Option<string>)
    ensures name.None? <==> linkText.None?
    ensures name.Some? ==> IsClean(name.value) && |name.value| <= |linkText.value|
    ensures name.Some? ==> NonSpace(name.value) == NonSpace(linkText.value)
    ensures name.Some? ==> name.value == JoinWords(Words(linkText.value))
  {
    match linkText
    case None => None
    case Some(text) =>
      var stripped := Strip(text);
      NormalizeKeepsNonSpace(stripped);
      WordsStrip(text);
      NormalizeIsSplitJoin(stripped);
      if stripped != [] then Some(Normalize(stripped)) else Some(stripped)
  }

  // ----- What the cleaning keeps: the non-whitespace characters -----

  lemma {:induction false} NonSpaceAppend(a: string, b: string)
    ensures NonSpace(a + b) == NonSpace(a) + NonSpace(b)
  {
    if a == [] {
      assert a + b == b;
    } else {
      var head := if IsSpace(a[0]) then [] else [a[0]];
      calc {
        NonSpace(a + b);
        head + NonSpace((a + b)[1..]);
        { assert (a + b)[1..] == a[1..] + b; }
        head + NonSpace(a[1..] + b);
        { NonSpaceAppend(a[1..], b); }
        head + (NonSpace(a[1..]) + NonSpace(b));
        (head + NonSpace(a[1..])) + NonSpace(b);
      }
    }
  }

  lemma {:induction false} NonSpaceOfSpaces(s: string)
    requires forall i :: 0 <= i < |s| ==> IsSpace(s[i])
    ensures NonSpace(s) == []
  {
    if s != [] {
      NonSpaceOfSpaces(s[1..]);
    }
  }

  lemma {:induction false} TrimStartKeepsNonSpace(s: string)
    ensures NonSpace(TrimStart(s)) == NonSpace(s)
  {
    if s != [] && IsSpace(s[0]) {
      TrimStartKeepsNonSpace(s[1..]);
    }
  }

  lemma TrimEndKeepsNonSpace(s: string)
    ensures NonSpace(TrimEnd(s)) == NonSpace(s)
  {
    var r := TrimEnd(s);
    assert s == r + s[|r|..];
    NonSpaceAppend(r, s[|r|..]);
    NonSpaceOfSpaces(s[|r|..]);
  }

  lemma {:induction false} ReplaceNewlinesKeepsNonSpace(s: string)
    ensures NonSpace(ReplaceNewlines(s)) == NonSpace(s)
  {
    if s != [] {
      assert ReplaceNewlines(s)[1..] == ReplaceNewlines(s[1..]);
      ReplaceNewlinesKeepsNonSpace(s[1..]);
    }
  }

  lemma {:induction false} CollapseSpacesKeepsNonSpace(s: string)
    ensures NonSpace(CollapseSpaces(s)) == NonSpace(s)
    decreases |s|
  {
    if s == [] {
    } else if IsSpace(s[0]) {
      var rest := TrimStart(s);
      CollapseSpacesKeepsNonSpace(rest);
      NonSpaceAppend([' '], CollapseSpaces(rest));
      TrimStartKeepsNonSpace(s);
    } else {
      CollapseSpacesKeepsNonSpace(s[1..]);
      NonSpaceAppend([s[0]], CollapseSpaces(s[1..]));
    }
  }

  /** Normalising changes whitespace only: the other characters survive, in order. */
  lemma NormalizeKeepsNonSpace(s: string)
    ensures NonSpace(Normalize(s)) == NonSpace(s)
  {
    ReplaceNewlinesKeepsNonSpace(s);
    CollapseSpacesKeepsNonSpace(ReplaceNewlines(s));
  }

  // ----- The shape of a cleaned name -----

  lemma SliceKeepsSpacing(t: string, lo: nat, hi: nat)
    requires lo <= hi <= |t|
    requires OnlyPlainSpaces(t) && NoDoubleSpace(t)
    ensures OnlyPlainSpaces(t[lo..hi]) && NoDoubleSpace(t[lo..hi])
  {
    var u := t[lo..hi];
    forall i | 0 <= i < |u| ensures u[i] == t[lo + i] {
    }
  }

  lemma StripIsClean(t: string)
    requires OnlyPlainSpaces(t) && NoDoubleSpace(t)
    ensures IsClean(Strip(t))
  {
    var u := TrimEnd(t);
    SliceKeepsSpacing(t, 0, |u|);
    var r := TrimStart(u);
    SliceKeepsSpacing(u, |u| - |r|, |u|);
    assert Strip(t) == r;
  }

  /** Putting one character before a string with single plain spaces keeps it so, unless it makes a double space. */
  lemma ConsKeepsSpacing(c: char, t: string)
    requires OnlyPlainSpaces(t) && NoDoubleSpace(t)
    requires IsSpace(c) ==> c == ' ' && (t == [] || !IsSpace(t[0]))
    ensures OnlyPlainSpaces([c] + t) && NoDoubleSpace([c] + t)
  {
    var r := [c] + t;
    forall i | 0 < i < |r|
      ensures r[i] == t[i - 1]
    {
    }
  }

  /** After collapsing, whitespace occurs only as single plain spaces. */
  lemma {:induction false} CollapseSpacesShape(s: string)
    ensures OnlyPlainSpaces(CollapseSpaces(s)) && NoDoubleSpace(CollapseSpaces(s))
    decreases |s|
  {
    if s != [] {
      if IsSpace(s[0]) {
        var rest := TrimStart(s);
        CollapseSpacesShape(rest);
        ConsKeepsSpacing(' ', CollapseSpaces(rest));
      } else {
        CollapseSpacesShape(s[1..]);
        ConsKeepsSpacing(s[0], CollapseSpaces(s[1..]));
      }
    }
  }

  // ----- Idempotence -----

  lemma ReplaceNewlinesFixes(t: string)
    requires OnlyPlainSpaces(t)
    ensures ReplaceNewlines(t) == t
  {
    assert forall i :: 0 <= i < |t| ==> t[i] != '\n' by {
      forall i | 0 <= i < |t| ensures t[i] != '\n' {
        if t[i] == '\n' {
          assert IsSpace(t[i]);
        }
      }
    }
  }

  /** Dropping the first character keeps single plain spaces. */
  lemma TailKeepsSpacing(t: string)
    requires t != [] && OnlyPlainSpaces(t) && NoDoubleSpace(t)
    ensures OnlyPlainSpaces(t[1..]) && NoDoubleSpace(t[1..])
    ensures IsSpace(t[0]) ==> t[0] == ' ' && (|t| == 1 || !IsSpace(t[1]))
  {
    if |t| > 1 {
      assert !(IsSpace(t[0]) && IsSpace(t[1]));
    }
  }

  /** A single leading whitespace character is all that `lstrip()` removes. */
  lemma TrimStartOneSpace(t: string)
    requires t != [] && IsSpace(t[0]) && (|t| == 1 || !IsSpace(t[1]))
    ensures TrimStart(t) == t[1..]
  {
    var tail := t[1..];
    assert tail == [] || !IsSpace(tail[0]);
    assert TrimStart(tail) == tail;
  }

  lemma {:induction false} CollapseSpacesFixes(t: string)
    requires OnlyPlainSpaces(t) && NoDoubleSpace(t)
    ensures CollapseSpaces(t) == t
  {
    if t != [] {
      var tail := t[1..];
      assert t == [t[0]] + tail;
      TailKeepsSpacing(t);
      CollapseSpacesFixes(tail);
      if IsSpace(t[0]) {
        TrimStartOneSpace(t);
        assert CollapseSpaces(t) == [' '] + CollapseSpaces(tail);
      } else {
        assert CollapseSpaces(t) == [t[0]] + CollapseSpaces(tail);
      }
    }
  }

  lemma StripFixes(t: string)
    requires NoEdgeSpace(t)
    ensures Strip(t) == t
  {
  }

  /** A name that is already clean is left as it is. */
  lemma NormalizeFixesClean(t: string)
    requires IsClean(t)
    ensures Normalize(t) == t
  {
    ReplaceNewlinesFixes(t);
    CollapseSpacesFixes(t);
    StripFixes(t);
  }

  /** Normalising twice gives the same result as normalising once. */
  lemma NormalizeIdempotent(s: string)
    ensures Normalize(Normalize(s)) == Normalize(s)
  {
    NormalizeFixesClean(Normalize(s));
  }

  /** Cleaning an already cleaned name changes nothing. */
  lemma CleanScrapedNameIdempotent(linkText: Option<string>)
    ensures CleanScrapedName(CleanScrapedName(linkText)) == CleanScrapedName(linkText)
  {
    var name := CleanScrapedName(linkText);
    if name.Some? {
      StripFixes(name.value);
      if name.value != [] {
        NormalizeFixesClean(name.value);
      }
    }
  }

  // ----- The same result, stated as split-then-join -----

  /** The longest prefix of `s` that holds no whitespace. */
  function FirstWord(s: string): (w: string)
    ensures |w| <= |s| && w == s[..|w|]
    ensures forall i :: 0 <= i < |w| ==> !IsSpace(w[i])
    ensures |w| < |s| ==> IsSpace(s[|w|])
  {
    if s == [] || IsSpace(s[0]) then [] else [s[0]] + FirstWord(s[1..])
  }

  /** `s.split()`: the maximal runs of non-whitespace characters of `s`, in order. */
  function Words(s: string): (ws: seq<string>)
    ensures forall k :: 0 <= k < |ws| ==> ws[k] != [] && NonSpace(ws[k]) == ws[k]
    decreases |s|
  {
    if s == [] then []
    else if IsSpace(s[0]) then Words(s[1..])
    else
      var w := FirstWord(s);
      NonSpaceOfWord(w);
      [w] + Words(s[|w|..])
  }

  /** `" ".join(ws)` */
  function JoinWords(ws: seq<string>): string
  {
    if ws == [] then [] else if |ws| == 1 then ws[0] else ws[0] + " " + JoinWords(ws[1..])
  }

  lemma {:induction false} NonSpaceOfWord(w: string)
    requires forall i :: 0 <= i < |w| ==> !IsSpace(w[i])
    ensures NonSpace(w) == w
  {
    if w != [] {
      NonSpaceOfWord(w[1..]);
      assert w == [w[0]] + w[1..];
    }
  }

  /** A prefix without whitespace that ends where `s` ends or at a whitespace character is the first word. */
  lemma {:induction false} FirstWordUnique(s: string, w: string)
    requires |w| <= |s| && w == s[..|w|]
    requires forall i :: 0 <= i < |w| ==> !IsSpace(w[i])
    requires |w| < |s| ==> IsSpace(s[|w|])
    ensures FirstWord(s) == w
  {
    if w != [] {
      assert s[0] == w[0];
      var rest := w[1..];
      assert rest == s[1..][..|rest|];
      assert |rest| < |s| - 1 ==> s[1..][|rest|] == s[|w|];
      FirstWordUnique(s[1..], rest);
      assert w == [w[0]] + rest;
    }
  }

  lemma {:induction false} WordsOfSpaces(s: string)
    requires forall i :: 0 <= i < |s| ==> IsSpace(s[i])
    ensures Words(s) == []
  {
    if s != [] {
      WordsOfSpaces(s[1..]);
    }
  }

  lemma {:induction false} WordsTrimStart(s: string)
    ensures Words(TrimStart(s)) == Words(s)
  {
    if s != [] && IsSpace(s[0]) {
      WordsTrimStart(s[1..]);
    }
  }

  lemma {:induction false} WordsAppendSpaces(a: string, b: string)
    requires forall i :: 0 <= i < |b| ==> IsSpace(b[i])
    ensures Words(a + b) == Words(a)
    decreases |a|
  {
    if a == [] {
      assert a + b == b;
      WordsOfSpaces(b);
    } else if IsSpace(a[0]) {
      assert (a + b)[1..] == a[1..] + b;
      WordsAppendSpaces(a[1..], b);
    } else {
      var w := FirstWord(a);
      assert (a + b)[..|w|] == w;
      FirstWordUnique(a + b, w);
      assert (a + b)[|w|..] == a[|w|..] + b;
      WordsAppendSpaces(a[|w|..], b);
    }
  }

  /** Stripping the ends changes no word. */
  lemma WordsStrip(s: string)
    ensures Words(Strip(s)) == Words(s)
  {
    var r := TrimEnd(s);
    assert s == r + s[|r|..];
    WordsAppendSpaces(r, s[|r|..]);
    WordsTrimStart(r);
  }

  /** Two strings with whitespace at the same places and equal characters elsewhere have the same words. */
  lemma {:induction false} WordsSameShape(a: string, b: string)
    requires |a| == |b|
    requires forall i :: 0 <= i < |a| ==> (IsSpace(a[i]) <==> IsSpace(b[i]))
    requires forall i :: 0 <= i < |a| && !IsSpace(a[i]) ==> a[i] == b[i]
    ensures Words(a) == Words(b)
    decreases |a|
  {
    if a == [] {
    } else if IsSpace(a[0]) {
      WordsSameShape(a[1..], b[1..]);
    } else {
      var w := FirstWord(a);
      assert b[..|w|] == w;
      FirstWordUnique(b, w);
      WordsSameShape(a[|w|..], b[|w|..]);
    }
  }

  /** The words of a string that starts with a non-whitespace character. */
  lemma WordsCons(c: char, x: string)
    requires !IsSpace(c)
    ensures x == [] || IsSpace(x[0]) ==> Words([c] + x) == [[c]] + Words(x)
    ensures x != [] && !IsSpace(x[0]) ==> Words([c] + x) == [[c] + Words(x)[0]] + Words(x)[1..]
  {
    var s := [c] + x;
    assert s[1..] == x;
    if x == [] || IsSpace(x[0]) {
      FirstWordUnique(s, [c]);
    } else {
      var w := FirstWord(x);
      assert FirstWord(s) == [c] + w;
      assert s[|w| + 1..] == x[|w|..];
    }
  }

  /** Collapsing whitespace runs changes no word. */
  lemma {:induction false} WordsCollapseSpaces(s: string)
    ensures Words(CollapseSpaces(s)) == Words(s)
    decreases |s|
  {
    if s == [] {
    } else if IsSpace(s[0]) {
      var rest := TrimStart(s);
      WordsCollapseSpaces(rest);
      assert ([' '] + CollapseSpaces(rest))[1..] == CollapseSpaces(rest);
      WordsTrimStart(s);
    } else {
      var tail := s[1..];
      WordsCollapseSpaces(tail);
      WordsCons(s[0], tail);
      WordsCons(s[0], CollapseSpaces(tail));
      assert s == [s[0]] + tail;
    }
  }

  /** Normalising changes no word. */
  lemma WordsNormalize(s: string)
    ensures Words(Normalize(s)) == Words(s)
  {
    WordsSameShape(s, ReplaceNewlines(s));
    WordsCollapseSpaces(ReplaceNewlines(s));
    WordsStrip(CollapseSpaces(ReplaceNewlines(s)));
  }

  /** A clean string is its words joined by single spaces. */
  lemma {:induction false} JoinWordsOfClean(t: string)
    requires IsClean(t)
    ensures JoinWords(Words(t)) == t
    decreases |t|
  {
    if t != [] {
      var w := FirstWord(t);
      var rest := t[|w|..];
      if rest == [] {
        assert t == w;
        assert Words(t) == [w] + Words([]);
      } else {
        assert rest[0] == t[|w|];
        var u := rest[1..];
        assert rest[|rest| - 1] == t[|t| - 1];
        assert u[0] == t[|w| + 1];
        assert u[|u| - 1] == t[|t| - 1];
        SliceKeepsSpacing(t, |w| + 1, |t|);
        assert u == t[|w| + 1..];
        JoinWordsOfClean(u);
        assert Words(t) == [w] + Words(rest);
        assert Words(rest) == Words(u);
        assert t == w + " " + u by {
          assert rest == [' '] + u;
        }
      }
    }
  }

  /**
   * The cleaning is `" ".join(s.split())`: the words of the input, in order,
   * separated by single spaces.
   */
  lemma NormalizeIsSplitJoin(s: string)
    ensures Normalize(s) == JoinWords(Words(s))
  {
    JoinWordsOfClean(Normalize(s));
    WordsNormalize(s);
  }
}
