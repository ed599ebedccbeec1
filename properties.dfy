/** What sanitizeSlug promises its callers, proved of the five-stage model
    (mostly through its agreement with the split-and-join reference). */
module SlugProperties {
  import opened CharClass
  import opened Slugify
  import opened SlugReference

  /** `s` with every hyphen removed. */
  function DropHyphens(s: string): (r: string)
    ensures |r| <= |s|
    ensures forall i :: 0 <= i < |r| ==> r[i] != '-'
  {
    if |s| == 0 then []
    else if s[0] == '-' then DropHyphens(s[1..])
    else [s[0]] + DropHyphens(s[1..])
  }

  /** The ASCII letters and digits of `s`, in order. */
  function AlnumsOf(s: string): (r: string)
    ensures |r| <= |s|
    ensures forall i :: 0 <= i < |r| ==> IsAlnum(r[i])
  {
    if |s| == 0 then []
    else if IsAlnum(s[0]) then [s[0]] + AlnumsOf(s[1..])
    else AlnumsOf(s[1..])
  }

  /** The characters of `s` that are not separators, in order. */
  function NonSeparators(s: string): (r: string)
    ensures forall i :: 0 <= i < |r| ==> !IsSeparator(r[i])
  {
    if |s| == 0 then []
    else if IsSeparator(s[0]) then NonSeparators(s[1..])
    else [s[0]] + NonSeparators(s[1..])
  }

  /** The strings of `ws` run together. */
  function Concat(ws: seq<string>): string {
    if |ws| == 0 then [] else ws[0] + Concat(ws[1..])
  }

  // ---- Letters and digits survive, in order ----

  lemma {:induction false} DropHyphensAppend(a: string, b: string)
    ensures DropHyphens(a + b) == DropHyphens(a) + DropHyphens(b)
  {
    if |a| == 0 {
      assert a + b == b;
    } else {
      assert (a + b)[1..] == a[1..] + b;
      assert (a + b)[0] == a[0];
      DropHyphensAppend(a[1..], b);
    }
  }

  lemma {:induction false} DropHyphensOfHyphenFree(w: string)
    requires forall j :: 0 <= j < |w| ==> w[j] != '-'
    ensures DropHyphens(w) == w
  {
    if |w| > 0 {
      DropHyphensOfHyphenFree(w[1..]);
    }
  }

  /** Removing the hyphens of joined hyphen-free words runs the words together. */
  lemma {:induction false} DropHyphensOfJoin(ws: seq<string>)
    requires forall i, j :: 0 <= i < |ws| && 0 <= j < |ws[i]| ==> ws[i][j] != '-'
    ensures DropHyphens(Join(ws)) == Concat(ws)
  {
    if |ws| == 1 {
      DropHyphensOfHyphenFree(ws[0]);
      assert Concat(ws) == ws[0] + Concat([]);
    } else if |ws| > 1 {
      DropHyphensOfJoin(ws[1..]);
      DropHyphensOfHyphenFree(ws[0]);
      DropHyphensAppend(ws[0] + "-", Join(ws[1..]));
      DropHyphensAppend(ws[0], "-");
      assert DropHyphens("-") == [];
    }
  }

  lemma {:induction false} ConcatOfNonEmpty(ws: seq<string>)
    ensures Concat(NonEmpty(ws)) == Concat(ws)
  {
    if |ws| > 0 {
      ConcatOfNonEmpty(ws[1..]);
      if ws[0] != [] {
        assert ([ws[0]] + NonEmpty(ws[1..]))[1..] == NonEmpty(ws[1..]);
      }
    }
  }

  /** The pieces of a split run together are the non-separators. */
  lemma {:induction false} ConcatOfSplit(s: string)
    ensures Concat(Split(s)) == NonSeparators(s)
  {
    if |s| > 0 {
      ConcatOfSplit(s[1..]);
      var p := Split(s[1..]);
      if IsSeparator(s[0]) {
        assert ([[]] + p)[1..] == p;
      } else {
        assert p == [p[0]] + p[1..];
        assert Concat(p) == p[0] + Concat(p[1..]);
        assert ([[s[0]] + p[0]] + p[1..])[1..] == p[1..];
      }
    }
  }

  /** A character that survives stage 3 and is no separator is a letter or a digit. */
  lemma {:induction false} NonSeparatorsOfKept(s: string)
    ensures NonSeparators(RemoveNonWordChars(s)) == AlnumsOf(s)
  {
    if |s| > 0 {
      NonSeparatorsOfKept(s[1..]);
    }
  }

  lemma {:induction false} AlnumsOfLowerCase(s: string)
    ensures AlnumsOf(LowerCase(s)) == LowerCase(AlnumsOf(s))
  {
    if |s| > 0 {
      AlnumsOfLowerCase(s[1..]);
      assert LowerCase(s)[1..] == LowerCase(s[1..]);
    }
  }

  /** Removing every hyphen from the slug leaves exactly the lower-cased
      letters and digits of the input, in their original order. */
  lemma LettersAndDigitsPreserved(text: string)
    ensures DropHyphens(SanitizeSlug(text)) == LowerCase(AlnumsOf(text))
  {
    var kept := RemoveNonWordChars(LowerCase(text));
    SanitizeSlugMatchesReference(text);
    DropHyphensOfJoin(Words(kept));
    ConcatOfNonEmpty(Split(kept));
    ConcatOfSplit(kept);
    NonSeparatorsOfKept(LowerCase(text));
    AlnumsOfLowerCase(text);
  }

  /** The slug is empty exactly when the input has no ASCII letter or digit
      (an input made only of symbols, spaces or hyphens gives ''). */
  lemma EmptyIffNoLettersOrDigits(text: string)
    ensures SanitizeSlug(text) == [] <==> AlnumsOf(text) == []
  {
    var r := SanitizeSlug(text);
    LettersAndDigitsPreserved(text);
    if r != [] {
      assert r[0] != '-';
      assert r[0] in DropHyphens(r) by {
        assert DropHyphens(r) == [r[0]] + DropHyphens(r[1..]);
      }
    }
    assert |LowerCase(AlnumsOf(text))| == |AlnumsOf(text)|;
  }

  // ---- Characters that are neither word characters, whitespace nor '-' ----

  lemma {:induction false} LowerCaseAppend(a: string, b: string)
    ensures LowerCase(a + b) == LowerCase(a) + LowerCase(b)
  {
    if |a| == 0 {
      assert a + b == b;
    } else {
      assert (a + b)[1..] == a[1..] + b;
      LowerCaseAppend(a[1..], b);
    }
  }

  /** Stages 1 and 3 distribute over concatenation. */
  lemma KeptAppend(a: string, b: string)
    ensures RemoveNonWordChars(LowerCase(a + b))
            == RemoveNonWordChars(LowerCase(a)) + RemoveNonWordChars(LowerCase(b))
  {
    LowerCaseAppend(a, b);
    RemoveNonWordCharsAppend(LowerCase(a), LowerCase(b));
  }

  /** Deleting a character outside `[\w\s-]` anywhere in the input leaves the
      slug unchanged: punctuation is dropped without becoming a separator. */
  lemma PunctuationIgnored(a: string, c: char, b: string)
    requires !IsKept(c)
    ensures SanitizeSlug(a + [c] + b) == SanitizeSlug(a + b)
  {
    var ka, kb := RemoveNonWordChars(LowerCase(a)), RemoveNonWordChars(LowerCase(b));
    KeptAppend(a + [c], b);
    KeptAppend(a, [c]);
    KeptAppend(a, b);
    assert LowerCase([c]) == [c];
    assert RemoveNonWordChars(LowerCase([c])) == [];
    assert RemoveNonWordChars(LowerCase(a + [c])) == ka;
    assert RemoveNonWordChars(LowerCase(a + [c] + b)) == ka + kb;
    assert Reference(a + [c] + b) == Reference(a + b);
    SanitizeSlugMatchesReference(a + [c] + b);
    SanitizeSlugMatchesReference(a + b);
  }

  // ---- Separators ----

  predicate AllSeparators(s: string) {
    forall i :: 0 <= i < |s| ==> IsSeparator(s[i])
  }

  /** Stages 1 and 3 leave separators alone. */
  lemma SeparatorsSurvive(s: string)
    requires AllSeparators(s)
    ensures RemoveNonWordChars(LowerCase(s)) == s
  {
    assert LowerCase(s) == s;
  }

  lemma {:induction false} WordsSkipLeadingRun(lead: string, t: string)
    requires AllSeparators(lead)
    ensures Words(lead + t) == Words(t)
  {
    if |lead| == 0 {
      assert lead + t == t;
    } else {
      assert lead + t == [lead[0]] + (lead[1..] + t);
      WordsSkipLeading(lead[0], lead[1..] + t);
      WordsSkipLeadingRun(lead[1..], t);
    }
  }

  lemma {:induction false} WordsSkipTrailingRun(t: string, trail: string)
    requires AllSeparators(trail)
    ensures Words(t + trail) == Words(t)
    decreases |trail|
  {
    if |trail| == 0 {
      assert t + trail == t;
    } else {
      var init := trail[..|trail| - 1];
      assert t + trail == (t + init) + [trail[|trail| - 1]];
      WordsSkipTrailing(t + init, trail[|trail| - 1]);
      WordsSkipTrailingRun(t, init);
    }
  }

  /** Whitespace, underscores and hyphens before and after the text do not
      change the slug (`'  Hello World  '` and `'Hello World'` agree). */
  lemma OuterSeparatorsIgnored(lead: string, s: string, trail: string)
    requires AllSeparators(lead) && AllSeparators(trail)
    ensures SanitizeSlug(lead + s + trail) == SanitizeSlug(s)
  {
    KeptAppend(lead + s, trail);
    KeptAppend(lead, s);
    SeparatorsSurvive(lead);
    SeparatorsSurvive(trail);
    var k := RemoveNonWordChars(LowerCase(s));
    WordsSkipTrailingRun(lead + k, trail);
    WordsSkipLeadingRun(lead, k);
    SanitizeSlugMatchesReference(lead + s + trail);
    SanitizeSlugMatchesReference(s);
  }

  /** Words on the two sides of a non-empty separator run. */
  lemma {:induction false} WordsAtSeparatorRun(a: string, run: string, b: string)
    requires |run| > 0 && AllSeparators(run)
    ensures Words(a + run + b) == Words(a) + Words(b)
  {
    assert a + run + b == a + [run[0]] + (run[1..] + b);
    WordsAtSeparator(a, run[0], run[1..] + b);
    WordsSkipLeadingRun(run[1..], b);
  }

  /** Any non-empty run of whitespace, underscores and hyphens inside the text
      gives the same slug as a single hyphen there. */
  lemma SeparatorRunIsOneHyphen(a: string, run: string, b: string)
    requires |run| > 0 && AllSeparators(run)
    ensures SanitizeSlug(a + run + b) == SanitizeSlug(a + "-" + b)
  {
    KeptAppend(a + run, b);
    KeptAppend(a, run);
    SeparatorsSurvive(run);
    KeptAppend(a + "-", b);
    KeptAppend(a, "-");
    SeparatorsSurvive("-");
    var ka, kb := RemoveNonWordChars(LowerCase(a)), RemoveNonWordChars(LowerCase(b));
    WordsAtSeparatorRun(ka, run, kb);
    WordsAtSeparatorRun(ka, "-", kb);
    SanitizeSlugMatchesReference(a + run + b);
    SanitizeSlugMatchesReference(a + "-" + b);
  }

  // ---- Case ----

  lemma LowerCaseIdempotent(s: string)
    ensures LowerCase(LowerCase(s)) == LowerCase(s)
  {
  }

  /** Lower-casing the text first does not change the slug. */
  lemma CaseIgnored(s: string)
    ensures SanitizeSlug(LowerCase(s)) == SanitizeSlug(s)
  {
    LowerCaseIdempotent(s);
  }

  // ---- Idempotence ----

  /** Slug characters without adjacent hyphens: what stages 1 to 4 leave alone. */
  predicate Hyphenated(x: string) {
    && (forall i :: 0 <= i < |x| ==> IsSlugChar(x[i]))
    && (forall i :: 0 <= i < |x| - 1 ==> !(x[i] == '-' && x[i + 1] == '-'))
  }

  lemma HyphenatedTail(x: string)
    requires Hyphenated(x) && |x| > 0
    ensures Hyphenated(x[1..])
    ensures x[0] == '-' ==> |x| == 1 || !IsSeparator(x[1])
    ensures x[0] != '-' ==> !IsSeparator(x[0])
  {
    if x[0] == '-' && |x| > 1 {
      assert x[1] != '-' && IsSlugChar(x[1]);
    }
  }

  /** Stage 4 leaves a text of slug characters without adjacent hyphens unchanged. */
  lemma {:induction false} CollapseOfHyphenated(x: string)
    requires Hyphenated(x)
    ensures CollapseSeparators(x) == x
  {
    if |x| > 0 {
      HyphenatedTail(x);
      CollapseOfHyphenated(x[1..]);
      assert x == [x[0]] + x[1..];
      if x[0] == '-' {
        CollapseSeparatorsAfterHyphen(x[1..]);
      } else {
        CollapseSeparatorsCons(x[0], x[1..]);
      }
    }
  }

  lemma LowerCaseOfSlug(x: string)
    requires IsSlug(x)
    ensures LowerCase(x) == x
  {
  }

  lemma TrimOfSlug(x: string)
    requires IsSlug(x)
    ensures Trim(x) == x
  {
    assert TrimStart(x) == x;
    assert TrimEnd(x) == x;
  }

  lemma RemoveNonWordCharsOfSlug(x: string)
    requires IsSlug(x)
    ensures RemoveNonWordChars(x) == x
  {
  }

  lemma StripHyphensOfSlug(x: string)
    requires IsSlug(x)
    ensures StripHyphens(x) == x
  {
    assert DropLeadingHyphens(x) == x;
    assert DropTrailingHyphens(x) == x;
  }

  /** A canonical slug passes through every stage unchanged. */
  lemma SlugIsFixedPoint(x: string)
    requires IsSlug(x)
    ensures SanitizeSlug(x) == x
  {
    LowerCaseOfSlug(x);
    TrimOfSlug(x);
    RemoveNonWordCharsOfSlug(x);
    CollapseOfHyphenated(x);
    StripHyphensOfSlug(x);
    assert SanitizeSlug(x) == StripHyphens(CollapseSeparators(RemoveNonWordChars(Trim(LowerCase(x)))));
  }

  /** A text whose lower-case form is already a canonical slug gives that slug. */
  lemma SlugOfLowerCaseSlug(t: string, x: string)
    requires LowerCase(t) == x && IsSlug(x)
    ensures SanitizeSlug(t) == x
  {
    CaseIgnored(t);
    SlugIsFixedPoint(x);
  }

  /** Sanitizing a slug again changes nothing. */
  lemma SanitizeSlugIdempotent(text: string)
    ensures SanitizeSlug(SanitizeSlug(text)) == SanitizeSlug(text)
  {
    SlugIsFixedPoint(SanitizeSlug(text));
  }
}
