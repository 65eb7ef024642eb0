/** The URL slug an event derives from its title
    (`generateSlug`, src/database/event.model.js:117-124): lower-case the
    title, trim it, replace every run of separator characters by one hyphen,
    and remove the hyphens left at either end.

    The separator class of line 122, `[\s\W-]`, is exactly the non-word
    class `\W`: white space and the hyphen are non-word characters already.
    So a separator here is any character for which `IsWordChar` is false. */
module Slugify {
  import opened Text

  // ---------------------------------------------------------------------
  // The transformation as the source writes it

  /** `s` after its longest prefix of separator characters. */
  function SkipSeparators(s: string): (r: string)
    ensures |r| <= |s| && r == s[|s| - |r|..]
    ensures forall k :: 0 <= k < |s| - |r| ==> !IsWordChar(s[k])
    ensures r != [] ==> IsWordChar(r[0])
  {
    if s == [] || IsWordChar(s[0]) then s else SkipSeparators(s[1..])
  }

  /** `replace(/[\s\W-]+/g, '-')`: scanning left to right, every maximal run
      of separator characters becomes a single hyphen. */
  function CollapseSeparators(s: string): string
    decreases |s|
  {
    if s == [] then []
    else if IsWordChar(s[0]) then [s[0]] + CollapseSeparators(s[1..])
    else "-" + CollapseSeparators(SkipSeparators(s[1..]))
  }

  /** `s` after its leading hyphens (the `^-+` alternative). */
  function DropLeadingHyphens(s: string): (r: string)
    ensures |r| <= |s| && r == s[|s| - |r|..]
    ensures forall k :: 0 <= k < |s| - |r| ==> s[k] == '-'
    ensures r != [] ==> r[0] != '-'
  {
    if s != [] && s[0] == '-' then DropLeadingHyphens(s[1..]) else s
  }

  /** `s` without its trailing hyphens (the `-+$` alternative). */
  function DropTrailingHyphens(s: string): (r: string)
    ensures |r| <= |s| && r == s[..|r|]
    ensures forall k :: |r| <= k < |s| ==> s[k] == '-'
    ensures r != [] ==> r[|r| - 1] != '-'
  {
    if s != [] && s[|s| - 1] == '-' then DropTrailingHyphens(s[..|s| - 1]) else s
  }

  /** `replace(/^-+|-+$/g, '')`. */
  function StripHyphens(s: string): string {
    DropTrailingHyphens(DropLeadingHyphens(s))
  }

  /** `generateSlug(title)`; `toString()` of a string is the string itself. */
  function GenerateSlug(title: string): string {
    StripHyphens(CollapseSeparators(Trim(LowerAscii(title))))
  }

  // ---------------------------------------------------------------------
  // An independent description: the title's words joined by hyphens

  /** A non-empty run of word characters. */
  predicate IsWord(w: string) {
    |w| > 0 && forall k :: 0 <= k < |w| ==> IsWordChar(w[k])
  }

  predicate AllWordChars(s: string) {
    forall k :: 0 <= k < |s| ==> IsWordChar(s[k])
  }

  /** The longest prefix of `s` made of word characters. */
  function WordPrefix(s: string): (w: string)
    ensures |w| <= |s| && w == s[..|w|] && AllWordChars(w)
    ensures |w| < |s| ==> !IsWordChar(s[|w|])
  {
    if s != [] && IsWordChar(s[0]) then [s[0]] + WordPrefix(s[1..]) else []
  }

  /** The maximal runs of word characters of `s`, in order. */
  function Words(s: string): (ws: seq<string>)
    ensures forall i :: 0 <= i < |ws| ==> IsWord(ws[i])
    ensures NoUpperAscii(s) ==> forall i :: 0 <= i < |ws| ==> NoUpperAscii(ws[i])
    decreases |s|
  {
    if s == [] then []
    else if !IsWordChar(s[0]) then Words(s[1..])
    else
      var w := WordPrefix(s);
      assert NoUpperAscii(s) ==> NoUpperAscii(w) && NoUpperAscii(s[|w|..]);
      [w] + Words(s[|w|..])
  }

  /** The strings of `ws` with one hyphen between neighbours. */
  function JoinHyphen(ws: seq<string>): string {
    if |ws| == 0 then []
    else if |ws| == 1 then ws[0]
    else ws[0] + "-" + JoinHyphen(ws[1..])
  }

  /** The characters a slug may hold. */
  predicate IsSlugChar(c: char) {
    var n := c as int;
    (0x61 <= n <= 0x7A) || (0x30 <= n <= 0x39) || c == '_' || c == '-'
  }

  /** What every slug looks like: only `a`-`z`, `0`-`9`, `_` and `-`, no
      hyphen at either end, and never two hyphens in a row. */
  predicate IsSlugShaped(s: string) {
    && (forall i :: 0 <= i < |s| ==> IsSlugChar(s[i]))
    && (s != [] ==> s[0] != '-' && s[|s| - 1] != '-')
    && (forall i :: 0 <= i < |s| - 1 ==> s[i] == '-' ==> s[i + 1] != '-')
  }

  // ---------------------------------------------------------------------
  // Collapsing, word by word

  /** One hyphen when `s` ends with a separator, nothing otherwise. */
  function EndHyphen(s: string): (e: string)
    ensures e == "" || e == "-"
  {
    if s != [] && !IsWordChar(s[|s| - 1]) then "-" else ""
  }

  predicate AllSeparators(s: string) {
    forall k :: 0 <= k < |s| ==> !IsWordChar(s[k])
  }

  lemma {:induction false} CollapseOverWordChars(u: string, v: string)
    requires AllWordChars(u)
    ensures CollapseSeparators(u + v) == u + CollapseSeparators(v)
    decreases |u|
  {
    if u != [] {
      assert (u + v)[1..] == u[1..] + v;
      CollapseOverWordChars(u[1..], v);
    } else {
      assert u + v == v;
    }
  }

  lemma {:induction false} WordPrefixOfWord(u: string, v: string)
    requires AllWordChars(u)
    requires v == [] || !IsWordChar(v[0])
    ensures WordPrefix(u + v) == u
    decreases |u|
  {
    if u != [] {
      assert (u + v)[1..] == u[1..] + v;
      WordPrefixOfWord(u[1..], v);
    } else {
      assert u + v == v;
    }
  }

  /** A string that starts with a word character splits after its first word. */
  lemma SplitFirstWord(s: string)
    requires s != [] && IsWordChar(s[0])
    ensures WordPrefix(s) != []
    ensures Words(s) == [WordPrefix(s)] + Words(s[|WordPrefix(s)|..])
    ensures CollapseSeparators(s) == WordPrefix(s) + CollapseSeparators(s[|WordPrefix(s)|..])
  {
    var w := WordPrefix(s);
    assert s == w + s[|w|..];
    CollapseOverWordChars(w, s[|w|..]);
  }

  lemma {:induction false} WordsOfSkipped(s: string)
    ensures Words(SkipSeparators(s)) == Words(s)
    decreases |s|
  {
    if s != [] && !IsWordChar(s[0]) {
      WordsOfSkipped(s[1..]);
    }
  }

  /** A run of separators collapses to one hyphen and holds no word. */
  lemma SeparatorRun(r: string)
    requires r != [] && !IsWordChar(r[0])
    ensures CollapseSeparators(r) == "-" + CollapseSeparators(SkipSeparators(r))
    ensures Words(r) == Words(SkipSeparators(r))
  {
    assert SkipSeparators(r) == SkipSeparators(r[1..]);
    WordsOfSkipped(r);
  }

  /** What follows a run of separators decides whether the string ends with one. */
  lemma SeparatorRunEnd(r: string)
    requires r != [] && !IsWordChar(r[0])
    ensures SkipSeparators(r) == [] ==> EndHyphen(r) == "-"
    ensures SkipSeparators(r) != [] ==> EndHyphen(r) == EndHyphen(SkipSeparators(r))
  {
    var t := SkipSeparators(r);
    if t != [] {
      EndHyphenOfSuffix(r, t);
    } else {
      assert !IsWordChar(r[|r| - 1]);
    }
  }

  lemma JoinCons(w: string, ws: seq<string>)
    requires ws != []
    ensures JoinHyphen([w] + ws) == w + "-" + JoinHyphen(ws)
  {
    assert ([w] + ws)[1..] == ws;
  }

  lemma EndHyphenOfSuffix(s: string, t: string)
    requires t != [] && |t| <= |s| && t == s[|s| - |t|..]
    ensures EndHyphen(s) == EndHyphen(t)
  {
    assert s[|s| - 1] == t[|t| - 1];
  }

  /** The last step of `CollapseFromWord`, on values alone. */
  lemma AssembleCollapse(w: string, cs: string, ct: string, ws: seq<string>, wt: seq<string>, e: string)
    requires wt != [] && ws == [w] + wt
    requires cs == w + ("-" + ct) && ct == JoinHyphen(wt) + e
    ensures cs == JoinHyphen(ws) + e
  {
    JoinCons(w, wt);
    var j := JoinHyphen(wt);
    assert w + ("-" + (j + e)) == (w + "-" + j) + e;
  }

  /** A string that starts with a word character collapses to its words
      joined by hyphens, plus one hyphen when it ends with a separator. */
  lemma {:induction false} CollapseFromWord(s: string)
    requires s != [] && IsWordChar(s[0])
    ensures Words(s) != []
    ensures CollapseSeparators(s) == JoinHyphen(Words(s)) + EndHyphen(s)
    decreases |s|
  {
    var w := WordPrefix(s);
    var rest := s[|w|..];
    SplitFirstWord(s);
    if rest == [] {
      assert s == w;
      assert CollapseSeparators(s) == w + [];
      assert Words(s) == [w];
    } else {
      var t := SkipSeparators(rest);
      SeparatorRun(rest);
      SeparatorRunEnd(rest);
      EndHyphenOfSuffix(s, rest);
      if t == [] {
        assert Words(s) == [w];
        assert CollapseSeparators(s) == w + "-";
      } else {
        CollapseFromWord(t);
        EndHyphenOfSuffix(rest, t);
        AssembleCollapse(w, CollapseSeparators(s), CollapseSeparators(t), Words(s), Words(t), EndHyphen(s));
      }
    }
  }

  /** The words of `ws` joined by hyphens start and end with a word character. */
  lemma {:induction false} JoinEnds(ws: seq<string>)
    requires ws != [] && forall i :: 0 <= i < |ws| ==> IsWord(ws[i])
    ensures JoinHyphen(ws) != []
    ensures IsWordChar(JoinHyphen(ws)[0])
    ensures IsWordChar(JoinHyphen(ws)[|JoinHyphen(ws)| - 1])
  {
    if |ws| > 1 {
      JoinEnds(ws[1..]);
    }
  }

  lemma StripAroundWordChars(j: string, e: string)
    requires j != [] && IsWordChar(j[0]) && IsWordChar(j[|j| - 1])
    requires e == "" || e == "-"
    ensures StripHyphens(j + e) == j
  {
    assert DropLeadingHyphens(j + e) == j + e;
    if e == "-" {
      assert (j + e)[..|j + e| - 1] == j;
    } else {
      assert j + e == j;
    }
  }

  lemma StripFromWord(s: string)
    requires s != [] && IsWordChar(s[0])
    ensures StripHyphens(CollapseSeparators(s)) == JoinHyphen(Words(s))
  {
    CollapseFromWord(s);
    JoinEnds(Words(s));
    StripAroundWordChars(JoinHyphen(Words(s)), EndHyphen(s));
  }

  /** Removing the end hyphens after collapsing leaves exactly the words of
      the input joined by hyphens. */
  lemma StripCollapse(s: string)
    ensures StripHyphens(CollapseSeparators(s)) == JoinHyphen(Words(s))
  {
    if s != [] {
      if IsWordChar(s[0]) {
        StripFromWord(s);
      } else {
        StripFromSeparator(s);
      }
    }
  }

  /** The hyphen a leading run of separators collapses to is stripped. */
  lemma StripFromSeparator(s: string)
    requires s != [] && !IsWordChar(s[0])
    ensures StripHyphens(CollapseSeparators(s)) == JoinHyphen(Words(s))
  {
    SeparatorRun(s);
    var t := SkipSeparators(s);
    var c := CollapseSeparators(t);
    assert DropLeadingHyphens("-" + c) == DropLeadingHyphens(c) by {
      assert ("-" + c)[1..] == c;
    }
    if t != [] {
      StripFromWord(t);
    } else {
      assert c == [];
    }
  }

  // ---------------------------------------------------------------------
  // Trimming keeps the words

  lemma {:induction false} WordsAfterSeparators(p: string, y: string)
    requires AllSeparators(p)
    ensures Words(p + y) == Words(y)
    decreases |p|
  {
    if p != [] {
      assert (p + y)[1..] == p[1..] + y;
      WordsAfterSeparators(p[1..], y);
    } else {
      assert p + y == y;
    }
  }

  lemma {:induction false} WordsBeforeSeparators(y: string, q: string)
    requires AllSeparators(q)
    ensures Words(y + q) == Words(y)
    decreases |y|
  {
    if y == [] {
      assert y + q == q + [];
      WordsAfterSeparators(q, []);
    } else if !IsWordChar(y[0]) {
      assert (y + q)[1..] == y[1..] + q;
      WordsBeforeSeparators(y[1..], q);
    } else {
      var w := WordPrefix(y);
      var rest := y[|w|..];
      assert y == w + rest;
      assert y + q == w + (rest + q);
      WordPrefixOfWord(w, rest + q);
      assert (y + q)[|w|..] == rest + q;
      WordsBeforeSeparators(rest, q);
    }
  }

  lemma WhitespaceIsSeparator(s: string)
    requires forall k :: 0 <= k < |s| ==> IsJsWhitespace(s[k])
    ensures AllSeparators(s)
  {
  }

  /** White space holds no word character, so trimming keeps every word. */
  lemma WordsOfTrim(s: string)
    ensures Words(Trim(s)) == Words(s)
  {
    var r := Trim(s);
    TrimSpec(s);
    var i :| WhitespaceAround(s, i, r);
    var p, q := s[..i], s[i + |r|..];
    assert s == p + (r + q);
    WhitespaceIsSeparator(p);
    WhitespaceIsSeparator(q);
    WordsAfterSeparators(p, r + q);
    WordsBeforeSeparators(r, q);
  }

  // ---------------------------------------------------------------------
  // The properties of generateSlug

  /** The slug of a title is the title's lower-cased runs of word characters
      joined by single hyphens. */
  lemma SlugIsJoinedWords(title: string)
    ensures GenerateSlug(title) == JoinHyphen(Words(LowerAscii(title)))
  {
    StripCollapse(Trim(LowerAscii(title)));
    WordsOfTrim(LowerAscii(title));
  }

  lemma WordCharsAreSlugChars(w: string)
    requires IsWord(w) && NoUpperAscii(w)
    ensures forall k :: 0 <= k < |w| ==> IsSlugChar(w[k]) && w[k] != '-'
  {
  }

  /** Lower-case words joined by hyphens have the shape of a slug. */
  lemma {:induction false} JoinIsSlugShaped(ws: seq<string>)
    requires forall i :: 0 <= i < |ws| ==> IsWord(ws[i]) && NoUpperAscii(ws[i])
    ensures IsSlugShaped(JoinHyphen(ws))
  {
    if |ws| == 1 {
      WordCharsAreSlugChars(ws[0]);
    } else if |ws| > 1 {
      JoinIsSlugShaped(ws[1..]);
      JoinEnds(ws[1..]);
      var w, j := ws[0], JoinHyphen(ws[1..]);
      WordCharsAreSlugChars(w);
      JoinShapedCons(w, j);
    }
  }

  lemma JoinShapedCons(w: string, j: string)
    requires IsWord(w)
    requires forall k :: 0 <= k < |w| ==> IsSlugChar(w[k]) && w[k] != '-'
    requires IsSlugShaped(j) && j != [] && j[0] != '-'
    ensures IsSlugShaped(w + "-" + j)
  {
    var s := w + "-" + j;
    forall i | 0 <= i < |s| ensures IsSlugChar(s[i]) {
      if i < |w| { assert s[i] == w[i]; }
      else if i > |w| { assert s[i] == j[i - |w| - 1]; }
    }
    forall i | 0 <= i < |s| - 1 ensures s[i] == '-' ==> s[i + 1] != '-' {
      if i < |w| { assert s[i] == w[i]; }
      else if i > |w| { assert s[i] == j[i - |w| - 1] && s[i + 1] == j[i - |w|]; }
    }
  }

  /** Every slug contains only `a`-`z`, `0`-`9`, `_` and `-`, never starts
      or ends with a hyphen, and never holds two hyphens in a row. */
  lemma SlugShape(title: string)
    ensures IsSlugShaped(GenerateSlug(title))
  {
    SlugIsJoinedWords(title);
    LowerAsciiNormalises(title);
    JoinIsSlugShaped(Words(LowerAscii(title)));
  }

  /** What follows the first word of a slug-shaped string is a hyphen and
      another slug-shaped string. */
  lemma SlugShapedTail(s: string, w: string, t: string)
    requires IsSlugShaped(s)
    requires 0 < |w| < |s| && w == s[..|w|] && !IsWordChar(s[|w|])
    requires t == s[|w| + 1..]
    ensures s[|w|] == '-' && t != [] && IsWordChar(t[0]) && IsSlugShaped(t)
    ensures s == w + "-" + t
  {
    assert s[|w|] == '-';
    assert t != [] by { assert s[|s| - 1] != '-'; }
    assert forall i :: 0 <= i < |t| ==> t[i] == s[|w| + 1 + i];
  }

  /** A string of slug shape is its own words joined by hyphens. */
  lemma {:induction false} SlugShapedIsJoinedWords(s: string)
    requires IsSlugShaped(s)
    ensures JoinHyphen(Words(s)) == s
    decreases |s|
  {
    if s != [] {
      assert IsWordChar(s[0]);
      SplitFirstWord(s);
      var w := WordPrefix(s);
      var rest := s[|w|..];
      if rest == [] {
        assert s == w;
        assert Words(s) == [w] + [];
      } else {
        var t := rest[1..];
        SlugShapedTail(s, w, t);
        assert Words(rest) == Words(t);
        SlugShapedIsJoinedWords(t);
        SplitFirstWord(t);
        JoinCons(w, Words(t));
      }
    }
  }

  /** A slug-shaped string has no upper-case letter and no white space at
      either end, so lower-casing and trimming leave it alone. */
  lemma SlugShapedIsLowerTrimmed(s: string)
    requires IsSlugShaped(s)
    ensures NoUpperAscii(s) && LowerAscii(s) == s
    ensures IsTrimmed(s)
  {
    LowerAsciiNormalises(s);
    if s != [] {
      assert IsSlugChar(s[0]) && IsSlugChar(s[|s| - 1]);
    }
  }

  /** A string is a fixed point of `GenerateSlug` exactly when it has the
      shape of a slug; so the slugs are precisely the slug-shaped strings. */
  lemma SlugFixpoint(s: string)
    ensures GenerateSlug(s) == s <==> IsSlugShaped(s)
  {
    SlugShape(s);
    if IsSlugShaped(s) {
      SlugShapedIsLowerTrimmed(s);
      SlugIsJoinedWords(s);
      SlugShapedIsJoinedWords(s);
    }
  }

  /** Deriving a slug from a slug changes nothing. */
  lemma SlugIdempotent(title: string)
    ensures GenerateSlug(GenerateSlug(title)) == GenerateSlug(title)
  {
    SlugShape(title);
    SlugFixpoint(GenerateSlug(title));
  }

  // ---------------------------------------------------------------------
  // Worked examples

  lemma WordsOfWord(w: string)
    requires IsWord(w)
    ensures Words(w) == [w]
  {
    WordPrefixOfWord(w, []);
    assert w + [] == w;
  }

  lemma WordsOfWordThenSeparators(w: string, p: string, y: string)
    requires IsWord(w) && p != [] && AllSeparators(p)
    ensures Words(w + (p + y)) == [w] + Words(y)
  {
    WordPrefixOfWord(w, p + y);
    assert (w + (p + y))[|w|..] == p + y;
    WordsAfterSeparators(p, y);
  }

  /** Three words separated by separator runs, with separators after them. */
  lemma WordsOfThree(a: string, b: string, c: string, p: string, q: string, r: string)
    requires IsWord(a) && IsWord(b) && IsWord(c)
    requires p != [] && AllSeparators(p) && q != [] && AllSeparators(q) && AllSeparators(r)
    ensures Words(a + (p + (b + (q + (c + r))))) == [a, b, c]
  {
    if r == [] {
      assert c + r == c;
      WordsOfWord(c);
    } else {
      WordsOfWordThenSeparators(c, r, []);
      assert c + (r + []) == c + r;
      assert Words([]) == [];
    }
    WordsOfWordThenSeparators(b, q, c + r);
    WordsOfWordThenSeparators(a, p, b + (q + (c + r)));
  }

  lemma JoinThree(a: string, b: string, c: string)
    ensures JoinHyphen([a, b, c]) == a + "-" + b + "-" + c
  {
    assert [a, b, c][1..] == [b, c];
    assert [b, c][1..] == [c];
    assert JoinHyphen([b, c]) == b + "-" + c;
    assert JoinHyphen([a, b, c]) == a + "-" + (b + "-" + c);
  }

  /** A title whose lower-case form is three words with separators between
      and after them gives those words joined by hyphens. */
  lemma SlugOfThreeWords(title: string, a: string, b: string, c: string, p: string, q: string, r: string)
    requires IsWord(a) && IsWord(b) && IsWord(c)
    requires p != [] && AllSeparators(p) && q != [] && AllSeparators(q) && AllSeparators(r)
    requires LowerAscii(title) == a + (p + (b + (q + (c + r))))
    ensures GenerateSlug(title) == a + "-" + b + "-" + c
  {
    SlugIsJoinedWords(title);
    WordsOfThree(a, b, c, p, q, r);
    JoinThree(a, b, c);
  }

  lemma LowerMyCoolEvent()
    ensures LowerAscii("My Cool Event!!") == "my" + (" " + ("cool" + (" " + ("event" + "!!"))))
    ensures LowerAscii("My Cool Event") == "my" + (" " + ("cool" + (" " + ("event" + []))))
  {
  }

  lemma MyCoolEventJoined()
    ensures "my" + "-" + "cool" + "-" + "event" == "my-cool-event"
  {
  }

  /** "My Cool Event!!" and "My Cool Event" both give "my-cool-event": the
      trailing punctuation leaves no hyphen behind. */
  lemma SlugOfMyCoolEvent()
    ensures GenerateSlug("My Cool Event!!") == "my-cool-event"
    ensures GenerateSlug("My Cool Event") == "my-cool-event"
  {
    LowerMyCoolEvent();
    MyCoolEventJoined();
    SlugOfThreeWords("My Cool Event!!", "my", "cool", "event", " ", " ", "!!");
    SlugOfThreeWords("My Cool Event", "my", "cool", "event", " ", " ", []);
  }

  /** A title made of symbols alone gives the empty slug. */
  lemma SlugOfSymbols()
    ensures GenerateSlug("???") == ""
  {
    assert LowerAscii("???") == "???" + [];
    WordsAfterSeparators("???", []);
    SlugIsJoinedWords("???");
  }
}
