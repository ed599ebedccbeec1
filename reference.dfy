/** A second description of the slug, written as one split-and-join instead of
    five successive rewrites: lower-case the text, delete the characters outside
    `[\w\s-]`, cut it at every separator, drop the empty pieces and join the
    remaining words with single hyphens. SanitizeSlugMatchesReference proves the
    two descriptions agree on every input. */
module SlugReference {
  import opened CharClass
  import opened Slugify

  /** The pieces of `s` between its separator characters: `n` separators give
      `n + 1` pieces, none of which contains a separator. */
  function Split(s: string): (r: seq<string>)
    ensures |r| >= 1
    ensures forall i, j :: 0 <= i < |r| && 0 <= j < |r[i]| ==> !IsSeparator(r[i][j])
  {
    if |s| == 0 then [[]]
    else if IsSeparator(s[0]) then [[]] + Split(s[1..])
    else var p := Split(s[1..]); [[s[0]] + p[0]] + p[1..]
  }

  /** The non-empty strings of `ws`, in order. */
  function NonEmpty(ws: seq<string>): (r: seq<string>)
    ensures |r| <= |ws|
    ensures forall i :: 0 <= i < |r| ==> r[i] != [] && r[i] in ws
  {
    if |ws| == 0 then []
    else if ws[0] == [] then NonEmpty(ws[1..])
    else [ws[0]] + NonEmpty(ws[1..])
  }

  /** The words of `s`: its maximal non-empty runs of non-separators. */
  function Words(s: string): (r: seq<string>)
    ensures forall i :: 0 <= i < |r| ==> r[i] != []
    ensures forall i, j :: 0 <= i < |r| && 0 <= j < |r[i]| ==> !IsSeparator(r[i][j])
  {
    NonEmpty(Split(s))
  }

  /** The strings of `ws` separated by single hyphens. */
  function Join(ws: seq<string>): string {
    if |ws| == 0 then []
    else if |ws| == 1 then ws[0]
    else ws[0] + "-" + Join(ws[1..])
  }

  /** The reference slug of `text`. */
  function Reference(text: string): string {
    Join(Words(RemoveNonWordChars(LowerCase(text))))
  }

  /** Cutting at a separator splits the pieces of the two sides apart. */
  lemma {:induction false} SplitAtSeparator(a: string, x: char, b: string)
    requires IsSeparator(x)
    ensures Split(a + [x] + b) == Split(a) + Split(b)
  {
    if |a| == 0 {
      assert a + [x] + b == [x] + b;
      assert ([x] + b)[1..] == b;
    } else {
      assert (a + [x] + b)[1..] == a[1..] + [x] + b;
      SplitAtSeparator(a[1..], x, b);
      if !IsSeparator(a[0]) {
        var p, q := Split(a[1..] + [x] + b), Split(a[1..]);
        assert p == q + Split(b);
        assert p[0] == q[0] && p[1..] == q[1..] + Split(b);
      }
    }
  }

  lemma {:induction false} NonEmptyAppend(u: seq<string>, v: seq<string>)
    ensures NonEmpty(u + v) == NonEmpty(u) + NonEmpty(v)
  {
    if |u| == 0 {
      assert u + v == v;
    } else {
      assert (u + v)[1..] == u[1..] + v;
      NonEmptyAppend(u[1..], v);
    }
  }

  /** The words on the two sides of a separator are the words of the whole. */
  lemma WordsAtSeparator(a: string, x: char, b: string)
    requires IsSeparator(x)
    ensures Words(a + [x] + b) == Words(a) + Words(b)
  {
    SplitAtSeparator(a, x, b);
    NonEmptyAppend(Split(a), Split(b));
  }

  /** A leading separator contributes no word. */
  lemma WordsSkipLeading(x: char, s: string)
    requires IsSeparator(x)
    ensures Words([x] + s) == Words(s)
  {
    assert ([x] + s)[1..] == s;
    assert Split([x] + s) == [[]] + Split(s);
  }

  /** A trailing separator contributes no word. */
  lemma WordsSkipTrailing(s: string, x: char)
    requires IsSeparator(x)
    ensures Words(s + [x]) == Words(s)
  {
    WordsAtSeparator(s, x, []);
    assert s + [x] + [] == s + [x];
    assert Words([]) == [];
  }

  lemma {:induction false} WordsSkipSeparators(s: string)
    ensures Words(SkipSeparators(s)) == Words(s)
  {
    if |s| > 0 && IsSeparator(s[0]) {
      assert s == [s[0]] + s[1..];
      WordsSkipLeading(s[0], s[1..]);
      WordsSkipSeparators(s[1..]);
    }
  }

  /** Joining non-empty words gives the empty string only for no words. */
  lemma JoinEmpty(ws: seq<string>)
    requires forall i :: 0 <= i < |ws| ==> ws[i] != []
    ensures Join(ws) == [] <==> ws == []
  {
    if |ws| >= 2 {
      assert |Join(ws)| >= |ws[0]| > 0;
    }
  }

  lemma JoinConsHead(c: char, w: string, ws: seq<string>)
    ensures Join([[c] + w] + ws) == [c] + Join([w] + ws)
  {
    assert ([[c] + w] + ws)[1..] == ws;
    assert ([w] + ws)[1..] == ws;
  }

  lemma JoinSingleHead(c: char, ws: seq<string>)
    ensures Join([[c]] + ws) == [c] + (if ws == [] then [] else "-" + Join(ws))
  {
    assert ([[c]] + ws)[1..] == ws;
    assert [c] + "-" + Join(ws) == [c] + ("-" + Join(ws));
  }

  lemma {:induction false} DropTrailingHyphensCons(c: char, x: string)
    requires c != '-'
    ensures DropTrailingHyphens([c] + x) == [c] + DropTrailingHyphens(x)
    decreases |x|
  {
    if |x| > 0 && x[|x| - 1] == '-' {
      assert ([c] + x)[..|x|] == [c] + x[..|x| - 1];
      DropTrailingHyphensCons(c, x[..|x| - 1]);
    }
  }

  lemma {:induction false} DropTrailingHyphensAfterHyphen(x: string)
    ensures DropTrailingHyphens("-" + x)
            == if DropTrailingHyphens(x) == [] then [] else "-" + DropTrailingHyphens(x)
    decreases |x|
  {
    if |x| > 0 && x[|x| - 1] == '-' {
      assert ("-" + x)[..|x|] == "-" + x[..|x| - 1];
      DropTrailingHyphensAfterHyphen(x[..|x| - 1]);
    } else if |x| == 0 {
      assert ("-" + x)[..0] == [];
    }
  }

  /** The words of a text that starts with the non-separator `c`: `c` opens the first piece. */
  lemma WordsAfterNonSeparator(c: char, v: string)
    requires !IsSeparator(c)
    ensures Words([c] + v) == [[c] + Split(v)[0]] + NonEmpty(Split(v)[1..])
  {
    var p := Split(v);
    assert ([c] + v)[1..] == v;
    assert Split([c] + v) == [[c] + p[0]] + p[1..];
    NonEmptyAppend([[c] + p[0]], p[1..]);
  }

  /** Stage 4 copies a non-separator. */
  lemma CollapseSeparatorsCons(c: char, v: string)
    requires !IsSeparator(c)
    ensures CollapseSeparators([c] + v) == [c] + CollapseSeparators(v)
  {
    assert ([c] + v)[1..] == v;
  }

  /** Stage 4 keeps a lone hyphen. */
  lemma CollapseSeparatorsAfterHyphen(v: string)
    requires |v| == 0 || !IsSeparator(v[0])
    ensures CollapseSeparators("-" + v) == "-" + CollapseSeparators(v)
  {
    assert ("-" + v)[1..] == v;
    assert SkipSeparators(v) == v;
  }

  /** Collapsing a non-separator keeps it in front. */
  lemma TrailingStripOfCollapseCons(c: char, v: string)
    requires !IsSeparator(c)
    ensures DropTrailingHyphens(CollapseSeparators([c] + v)) == [c] + DropTrailingHyphens(CollapseSeparators(v))
  {
    CollapseSeparatorsCons(c, v);
    DropTrailingHyphensCons(c, CollapseSeparators(v));
  }

  /** A non-separator followed by a non-separator extends the first word. */
  lemma JoinWordsContinues(c: char, v: string)
    requires !IsSeparator(c) && |v| > 0 && !IsSeparator(v[0])
    ensures Join(Words([c] + v)) == [c] + Join(Words(v))
  {
    WordsAfterNonSeparator(c, v);
    var p := Split(v);
    assert p[0] != [];
    assert p == [p[0]] + p[1..];
    NonEmptyAppend([p[0]], p[1..]);
    JoinConsHead(c, p[0], NonEmpty(p[1..]));
  }

  /** Collapsing `c` followed by a word character continues the same word. */
  lemma TrailingStripWordContinues(c: char, v: string)
    requires !IsSeparator(c) && |v| > 0 && !IsSeparator(v[0])
    requires DropTrailingHyphens(CollapseSeparators(v)) == Join(Words(v))
    ensures DropTrailingHyphens(CollapseSeparators([c] + v)) == Join(Words([c] + v))
  {
    TrailingStripOfCollapseCons(c, v);
    JoinWordsContinues(c, v);
  }

  /** The words of `c` followed by a separator: the word `[c]`, then the words after the run. */
  lemma WordsAfterWordEnd(c: char, v: string)
    requires !IsSeparator(c) && |v| > 0 && IsSeparator(v[0])
    ensures Words([c] + v) == [[c]] + Words(SkipSeparators(v))
  {
    WordsAfterNonSeparator(c, v);
    var q := Split(v[1..]);
    assert Split(v) == [[]] + q;
    assert ([[]] + q)[1..] == q;
    assert [c] + [] == [c];
    assert v == [v[0]] + v[1..];
    WordsSkipLeading(v[0], v[1..]);
    WordsSkipSeparators(v);
  }

  /** Collapsing `c` followed by a separator run gives `c`, a hyphen and the rest. */
  lemma CollapseAfterWordEnd(c: char, v: string)
    requires !IsSeparator(c) && |v| > 0 && IsSeparator(v[0])
    ensures var x := DropTrailingHyphens(CollapseSeparators(SkipSeparators(v)));
            DropTrailingHyphens(CollapseSeparators([c] + v)) == [c] + (if x == [] then [] else "-" + x)
  {
    TrailingStripOfCollapseCons(c, v);
    DropTrailingHyphensAfterHyphen(CollapseSeparators(SkipSeparators(v)));
  }

  /** Collapsing `c` followed by a separator ends the word `[c]`. */
  lemma TrailingStripWordEnds(c: char, v: string)
    requires !IsSeparator(c) && |v| > 0 && IsSeparator(v[0])
    requires DropTrailingHyphens(CollapseSeparators(SkipSeparators(v))) == Join(Words(SkipSeparators(v)))
    ensures DropTrailingHyphens(CollapseSeparators([c] + v)) == Join(Words([c] + v))
  {
    var w := SkipSeparators(v);
    var ws := Words(w);
    var x := DropTrailingHyphens(CollapseSeparators(w));
    var lhs := DropTrailingHyphens(CollapseSeparators([c] + v));
    var rhs := Join(Words([c] + v));
    CollapseAfterWordEnd(c, v);
    WordsAfterWordEnd(c, v);
    JoinSingleHead(c, ws);
    JoinEmpty(ws);
    var tail := if ws == [] then [] else "-" + x;
    assert lhs == [c] + tail;
    assert rhs == [c] + tail;
  }

  /** For a text that does not start with a separator, collapsing and then
      dropping the trailing hyphen joins its words. */
  lemma {:induction false} TrailingStripOfCollapse(u: string)
    requires |u| == 0 || !IsSeparator(u[0])
    ensures DropTrailingHyphens(CollapseSeparators(u)) == Join(Words(u))
    decreases |u|
  {
    if |u| > 0 {
      var c, v := u[0], u[1..];
      assert u == [c] + v;
      if |v| == 0 {
        assert Split(v) == [[]];
        WordsAfterNonSeparator(c, v);
      } else if !IsSeparator(v[0]) {
        TrailingStripOfCollapse(v);
        TrailingStripWordContinues(c, v);
      } else {
        TrailingStripOfCollapse(SkipSeparators(v));
        TrailingStripWordEnds(c, v);
      }
    }
  }

  /** Stages 4 and 5 together join the words of their input with hyphens. */
  lemma StripOfCollapseIsJoinedWords(t: string)
    ensures StripHyphens(CollapseSeparators(t)) == Join(Words(t))
  {
    if |t| == 0 {
      assert Words(t) == [];
    } else if !IsSeparator(t[0]) {
      TrailingStripOfCollapse(t);
    } else {
      var w := SkipSeparators(t);
      var x := CollapseSeparators(w);
      assert CollapseSeparators(t) == "-" + x;
      assert ("-" + x)[1..] == x;
      assert DropLeadingHyphens(CollapseSeparators(t)) == x;
      TrailingStripOfCollapse(w);
      WordsSkipSeparators(t);
    }
  }

  lemma {:induction false} RemoveNonWordCharsAppend(a: string, b: string)
    ensures RemoveNonWordChars(a + b) == RemoveNonWordChars(a) + RemoveNonWordChars(b)
  {
    if |a| == 0 {
      assert a + b == b;
    } else {
      assert (a + b)[1..] == a[1..] + b;
      RemoveNonWordCharsAppend(a[1..], b);
    }
  }

  lemma {:induction false} WordsIgnoreTrimStart(s: string)
    ensures Words(RemoveNonWordChars(TrimStart(s))) == Words(RemoveNonWordChars(s))
  {
    if |s| > 0 && IsSpace(s[0]) {
      assert RemoveNonWordChars(s) == [s[0]] + RemoveNonWordChars(s[1..]);
      WordsSkipLeading(s[0], RemoveNonWordChars(s[1..]));
      WordsIgnoreTrimStart(s[1..]);
    }
  }

  lemma {:induction false} WordsIgnoreTrimEnd(s: string)
    ensures Words(RemoveNonWordChars(TrimEnd(s))) == Words(RemoveNonWordChars(s))
  {
    if |s| > 0 && IsSpace(s[|s| - 1]) {
      var init, x := s[..|s| - 1], s[|s| - 1];
      assert s == init + [x];
      RemoveNonWordCharsAppend(init, [x]);
      assert RemoveNonWordChars([x]) == [x];
      WordsSkipTrailing(RemoveNonWordChars(init), x);
      WordsIgnoreTrimEnd(init);
    }
  }

  /** Stage 2 never changes the words that stage 3 leaves: `trim()` only
      removes separators at the ends, and separators at the ends make no word. */
  lemma WordsIgnoreTrim(s: string)
    ensures Words(RemoveNonWordChars(Trim(s))) == Words(RemoveNonWordChars(s))
  {
    WordsIgnoreTrimEnd(TrimStart(s));
    WordsIgnoreTrimStart(s);
  }

  /** The five-stage pipeline computes the reference slug. */
  lemma SanitizeSlugMatchesReference(text: string)
    ensures SanitizeSlug(text) == Reference(text)
  {
    var lowered := LowerCase(text);
    StripOfCollapseIsJoinedWords(RemoveNonWordChars(Trim(lowered)));
    WordsIgnoreTrim(lowered);
  }
}
