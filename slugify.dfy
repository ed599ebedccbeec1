/** sanitizeSlug: free text to a URL-safe slug through five chained string
    transforms, one function per transform, composed by SanitizeSlug. */
module Slugify {
  import opened CharClass

  /** A canonical slug: lower-case letters, digits and single hyphens between
      groups, with no hyphen at either end. */
  predicate IsSlug(s: string) {
    && (forall i :: 0 <= i < |s| ==> IsSlugChar(s[i]))
    && (|s| > 0 ==> s[0] != '-' && s[|s| - 1] != '-')
    && (forall i :: 0 <= i < |s| - 1 ==> !(s[i] == '-' && s[i + 1] == '-'))
  }

  /** Stage 1, `toLowerCase()`: every character mapped to its lower-case form. */
  function LowerCase(s: string): (r: string)
    ensures |r| == |s|
    ensures forall i :: 0 <= i < |s| ==> r[i] == ToLowerChar(s[i])
    ensures forall i :: 0 <= i < |r| ==> !IsUpper(r[i])
  {
    if |s| == 0 then [] else [ToLowerChar(s[0])] + LowerCase(s[1..])
  }

  /** `s` without its leading whitespace. */
  function TrimStart(s: string): (r: string)
    ensures |r| <= |s| && r == s[|s| - |r|..]
    ensures forall i :: 0 <= i < |s| - |r| ==> IsSpace(s[i])
    ensures |r| > 0 ==> !IsSpace(r[0])
  {
    if |s| > 0 && IsSpace(s[0]) then TrimStart(s[1..]) else s
  }

  /** `s` without its trailing whitespace. */
  function TrimEnd(s: string): (r: string)
    ensures |r| <= |s| && r == s[..|r|]
    ensures forall i :: |r| <= i < |s| ==> IsSpace(s[i])
    ensures |r| > 0 ==> !IsSpace(r[|r| - 1])
  {
    if |s| > 0 && IsSpace(s[|s| - 1]) then TrimEnd(s[..|s| - 1]) else s
  }

  /** Stage 2, `trim()`: the longest infix of `s` that neither starts nor ends
      with whitespace, everything outside it being whitespace. */
  function Trim(s: string): (r: string)
    ensures forall i :: 0 <= i < |r| ==> r[i] in s
    ensures |r| > 0 ==> !IsSpace(r[0]) && !IsSpace(r[|r| - 1])
    ensures exists i, j :: 0 <= i <= j <= |s| && r == s[i..j]
                           && (forall k :: 0 <= k < i ==> IsSpace(s[k]))
                           && (forall k :: j <= k < |s| ==> IsSpace(s[k]))
  {
    var t := TrimStart(s);
    var r := TrimEnd(t);
    assert r == s[|s| - |t|..|s| - |t| + |r|];
    r
  }

  /** Stage 3, `replace(/[^\w\s-]/g, '')`: every character outside `[\w\s-]`
      deleted, the others kept in order. The ensures below say only that what
      remains is in the class and that a text already in it is unchanged;
      that the result is the input filtered in order follows from them together
      with RemoveNonWordCharsFrom (nothing new appears) and
      RemoveNonWordCharsAppend (the filter distributes over concatenation). */
  function RemoveNonWordChars(s: string): (r: string)
    ensures |r| <= |s|
    ensures forall i :: 0 <= i < |r| ==> IsKept(r[i])
    ensures (forall i :: 0 <= i < |s| ==> IsKept(s[i])) ==> r == s
  {
    if |s| == 0 then []
    else if IsKept(s[0]) then [s[0]] + RemoveNonWordChars(s[1..])
    else RemoveNonWordChars(s[1..])
  }

  /** `s` without its leading run of separators. */
  function SkipSeparators(s: string): (r: string)
    ensures |r| <= |s| && r == s[|s| - |r|..]
    ensures forall i :: 0 <= i < |s| - |r| ==> IsSeparator(s[i])
    ensures |r| > 0 ==> !IsSeparator(r[0])
  {
    if |s| > 0 && IsSeparator(s[0]) then SkipSeparators(s[1..]) else s
  }

  /** Stage 4, `replace(/[\s_-]+/g, '-')`: each maximal run of separators,
      found left to right, replaced by a single hyphen. Every character of the
      result is a hyphen or a non-separator, no two hyphens are adjacent,
      and the result starts (ends) with a hyphen exactly when `s` starts (ends)
      with a separator. */
  function CollapseSeparators(s: string): (r: string)
    ensures |r| > 0 <==> |s| > 0
    ensures forall i :: 0 <= i < |r| ==> r[i] == '-' || !IsSeparator(r[i])
    ensures forall i :: 0 <= i < |r| - 1 ==> !(r[i] == '-' && r[i + 1] == '-')
    ensures |s| > 0 ==> (r[0] == '-' <==> IsSeparator(s[0]))
    ensures |s| > 0 ==> (r[|r| - 1] == '-' <==> IsSeparator(s[|s| - 1]))
    decreases |s|
  {
    if |s| == 0 then []
    else if IsSeparator(s[0]) then "-" + CollapseSeparators(SkipSeparators(s))
    else [s[0]] + CollapseSeparators(s[1..])
  }

  /** `s` without its leading run of hyphens (the `^-+` alternative). */
  function DropLeadingHyphens(s: string): (r: string)
    ensures |r| <= |s| && r == s[|s| - |r|..]
    ensures forall i :: 0 <= i < |s| - |r| ==> s[i] == '-'
    ensures |r| > 0 ==> r[0] != '-'
  {
    if |s| > 0 && s[0] == '-' then DropLeadingHyphens(s[1..]) else s
  }

  /** `s` without its trailing run of hyphens (the `-+$` alternative). */
  function DropTrailingHyphens(s: string): (r: string)
    ensures |r| <= |s| && r == s[..|r|]
    ensures forall i :: |r| <= i < |s| ==> s[i] == '-'
    ensures |r| > 0 ==> r[|r| - 1] != '-'
  {
    if |s| > 0 && s[|s| - 1] == '-' then DropTrailingHyphens(s[..|s| - 1]) else s
  }

  /** Stage 5, `replace(/^-+|-+$/g, '')`: the longest infix of `s` that neither
      starts nor ends with a hyphen, everything outside it being hyphens. */
  function StripHyphens(s: string): (r: string)
    ensures |r| > 0 ==> r[0] != '-' && r[|r| - 1] != '-'
    ensures exists i, j :: 0 <= i <= j <= |s| && r == s[i..j]
                           && (forall k :: 0 <= k < i ==> s[k] == '-')
                           && (forall k :: j <= k < |s| ==> s[k] == '-')
  {
    var t := DropLeadingHyphens(s);
    var r := DropTrailingHyphens(t);
    assert r == s[|s| - |t|..|s| - |t| + |r|];
    r
  }

  /** sanitizeSlug: the five stages in the order the source chains them. The
      result is always a canonical slug. */
  function SanitizeSlug(text: string): (r: string)
    ensures IsSlug(r)
  {
    var lowered := LowerCase(text);
    var trimmed := Trim(lowered);
    var kept := RemoveNonWordChars(trimmed);
    var collapsed := CollapseSeparators(kept);
    var stripped := StripHyphens(collapsed);
    RemoveNonWordCharsFrom(trimmed);
    CollapseSeparatorsFrom(kept);
    CollapsedCharsAreSlugChars(lowered, trimmed, kept, collapsed);
    InfixOfHyphenatedIsSlug(collapsed, stripped);
    stripped
  }

  /** Every character stage 3 keeps comes from its input. */
  lemma {:induction false} RemoveNonWordCharsFrom(s: string)
    ensures forall i :: 0 <= i < |RemoveNonWordChars(s)| ==> RemoveNonWordChars(s)[i] in s
  {
    if |s| > 0 {
      RemoveNonWordCharsFrom(s[1..]);
    }
  }

  /** Every character stage 4 writes is a hyphen or comes from its input. */
  lemma {:induction false} CollapseSeparatorsFrom(s: string)
    ensures forall i :: 0 <= i < |CollapseSeparators(s)| ==>
              CollapseSeparators(s)[i] == '-' || CollapseSeparators(s)[i] in s
    decreases |s|
  {
    if |s| > 0 {
      if IsSeparator(s[0]) {
        CollapseSeparatorsFrom(SkipSeparators(s));
      } else {
        CollapseSeparatorsFrom(s[1..]);
      }
    }
  }

  /** Tracks a character of the collapsed text back through stages 3, 2 and 1. */
  lemma CollapsedCharsAreSlugChars(lowered: string, trimmed: string, kept: string, collapsed: string)
    requires forall i :: 0 <= i < |lowered| ==> !IsUpper(lowered[i])
    requires forall i :: 0 <= i < |trimmed| ==> trimmed[i] in lowered
    requires forall i :: 0 <= i < |kept| ==> IsKept(kept[i]) && kept[i] in trimmed
    requires forall i :: 0 <= i < |collapsed| ==> collapsed[i] == '-' || (!IsSeparator(collapsed[i]) && collapsed[i] in kept)
    ensures forall i :: 0 <= i < |collapsed| ==> IsSlugChar(collapsed[i])
  {
    forall i | 0 <= i < |collapsed| ensures IsSlugChar(collapsed[i]) {
      var c := collapsed[i];
      if c != '-' {
        var k1 :| 0 <= k1 < |kept| && kept[k1] == c;
        var k2 :| 0 <= k2 < |trimmed| && trimmed[k2] == c;
        var k3 :| 0 <= k3 < |lowered| && lowered[k3] == c;
      }
    }
  }

  /** An infix of slug characters with no adjacent hyphens, bounded by non-hyphens, is a slug. */
  lemma InfixOfHyphenatedIsSlug(s: string, r: string)
    requires forall i :: 0 <= i < |s| ==> IsSlugChar(s[i])
    requires forall i :: 0 <= i < |s| - 1 ==> !(s[i] == '-' && s[i + 1] == '-')
    requires |r| > 0 ==> r[0] != '-' && r[|r| - 1] != '-'
    requires exists i, j :: 0 <= i <= j <= |s| && r == s[i..j]
    ensures IsSlug(r)
  {
    var i, j :| 0 <= i <= j <= |s| && r == s[i..j];
    assert forall k :: 0 <= k < |r| ==> r[k] == s[i + k];
  }
}
