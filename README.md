# sanitizeSlug, modelled and proved in Dafny

The client of this blogging application turns free text, such as a post
title, into a URL-safe slug with `sanitizeSlug` (`client/utils/slugify.js`).
The function is one chained expression of five string transforms. This
project models each transform as a Dafny function over `string`
(`seq<char>`, one character per Unicode scalar value), in module `Slugify`:

| stage | source | Dafny |
|---|---|---|
| `toLowerCase()` | line 5 | `LowerCase` |
| `trim()` | line 6 | `Trim` (`TrimStart`, then `TrimEnd`) |
| `replace(/[^\w\s-]/g, '')` | line 7 | `RemoveNonWordChars` |
| `replace(/[\s_-]+/g, '-')` | line 8 | `CollapseSeparators` (`SkipSeparators` finds the end of a run) |
| `replace(/^-+\|-+$/g, '')` | line 9 | `StripHyphens` (`DropLeadingHyphens`, then `DropTrailingHyphens`) |

`SanitizeSlug` composes them in the source's order. The character classes
are in module `CharClass`:

- `\w` is `[A-Za-z0-9_]`. Without the `u` flag, JavaScript's `\w` is ASCII only.
- `\s` is the full ECMAScript WhiteSpace and LineTerminator set. This is the
  set both `\s` and `trim()` use: tab, line feed, vertical tab, form feed,
  carriage return, space, U+00A0, U+1680, U+2000 to U+200A, U+2028, U+2029,
  U+202F, U+205F, U+3000 and U+FEFF.

Module `SlugReference` gives a second, independent description of the slug:
lower-case the text, drop the characters outside `[\w\s-]`, cut it at every
separator, keep the non-empty pieces and join them with single hyphens. It
proves that the five-stage pipeline computes this on every input.

Module `SlugProperties` proves what callers rely on, mostly through that
agreement:

- the output is a canonical slug;
- letters and digits are kept in order;
- punctuation and outer separators are ignored;
- separator runs become one hyphen;
- the function is idempotent.

Module `SlugExamples` derives each of the seven input/output pairs of the
unit tests (`client/src/tests/unit/slugify.test.js`) from those properties.

## Model

| member | source | states |
|---|---|---|
| CharClass.IsWordChar | client/utils/slugify.js:7 | `\w` is `[A-Za-z0-9_]`, and only ASCII characters are word characters (no `u` flag) |
| CharClass.IsSpace | client/utils/slugify.js:6-8 | `\s` and `trim()`'s whitespace: the 25 ECMAScript WhiteSpace and LineTerminator code points; none is a word character or `-`, and all lie in the Basic Multilingual Plane |
| CharClass.IsSeparator | client/utils/slugify.js:8 | the class `[\s_-]`; a separator is never a letter or digit |
| CharClass.IsKept | client/utils/slugify.js:7 | the class `[\w\s-]`; it holds exactly the ASCII letters, digits and separators |
| CharClass.ToLowerChar | client/utils/slugify.js:5 | the lower-case form is never an ASCII capital; only `A`–`Z` change, each to the letter 32 code points on; letter/digit, `[\w\s-]` and separator membership are unchanged |
| Slugify.LowerCase | client/utils/slugify.js:5 | same length, every character replaced by its lower-case form, no ASCII capital left |
| Slugify.TrimStart | client/utils/slugify.js:6 | a suffix of the input, everything removed being whitespace and the first remaining character not |
| Slugify.TrimEnd | client/utils/slugify.js:6 | a prefix of the input, everything removed being whitespace and the last remaining character not |
| Slugify.Trim | client/utils/slugify.js:6 | an infix of the input with only whitespace outside it, neither starting nor ending with whitespace, every character taken from the input |
| Slugify.RemoveNonWordChars | client/utils/slugify.js:7 | every remaining character is in `[\w\s-]`; an input made only of such characters is unchanged |
| Slugify.RemoveNonWordCharsFrom | client/utils/slugify.js:7 | every character stage 3 keeps occurs in its input |
| Slugify.SkipSeparators | client/utils/slugify.js:8 | the suffix after the leading maximal run of `[\s_-]` |
| Slugify.CollapseSeparators | client/utils/slugify.js:8 | result empty iff input empty; every character a hyphen or a non-separator; no two adjacent hyphens; starts (ends) with a hyphen exactly when the input starts (ends) with a separator |
| Slugify.CollapseSeparatorsFrom | client/utils/slugify.js:8 | every character stage 4 writes is a hyphen or occurs in its input |
| Slugify.DropLeadingHyphens | client/utils/slugify.js:9 | a suffix, everything removed being `-`, not starting with `-` |
| Slugify.DropTrailingHyphens | client/utils/slugify.js:9 | a prefix, everything removed being `-`, not ending with `-` |
| Slugify.StripHyphens | client/utils/slugify.js:9 | an infix of the input with only hyphens outside it, neither starting nor ending with `-` |
| Slugify.SanitizeSlug | client/utils/slugify.js:3-10 | the result is a canonical slug: only `a`–`z`, `0`–`9` and `-`, no hyphen at either end, no two adjacent hyphens |
| Slugify.CollapsedCharsAreSlugChars | client/utils/slugify.js:5-8 | a character of stage 4's output that is not a hyphen is a lower-case letter or a digit |
| Slugify.InfixOfHyphenatedIsSlug | client/utils/slugify.js:9 | stage 5 turns hyphen-separated slug characters into a canonical slug |
| SlugReference.SanitizeSlugMatchesReference | client/utils/slugify.js:3-10 | for every input, the pipeline equals the split-at-separators, drop-empty, join-with-hyphen reference |
| SlugReference.StripOfCollapseIsJoinedWords | client/utils/slugify.js:8-9 | stages 4 then 5 join the words (maximal non-separator runs) of their input with single hyphens |
| SlugReference.TrailingStripOfCollapse | client/utils/slugify.js:8-9 | for an input not starting with a separator, stage 4 then the `-+$` alternative join its words |
| SlugReference.WordsIgnoreTrim | client/utils/slugify.js:6-7 | the trimmed and the untrimmed text have the same words after stage 3, so `trim()` never changes the slug |
| SlugReference.WordsAtSeparator | client/utils/slugify.js:8 | the words of `a + [sep] + b` are the words of `a` followed by those of `b` |
| SlugReference.SplitAtSeparator | client/utils/slugify.js:8 | the pieces of `a + [sep] + b` are the pieces of `a` followed by those of `b` |
| SlugReference.WordsSkipSeparators | client/utils/slugify.js:8 | a leading separator run contributes no word |
| SlugReference.RemoveNonWordCharsAppend | client/utils/slugify.js:7 | stage 3 distributes over concatenation |
| SlugProperties.LowerCaseAppend | client/utils/slugify.js:5 | stage 1 distributes over concatenation |
| SlugProperties.LettersAndDigitsPreserved | client/utils/slugify.js:5-9 | removing every hyphen from the slug gives exactly the ASCII letters and digits of the input, lower-cased, in their original order |
| SlugProperties.EmptyIffNoLettersOrDigits | client/utils/slugify.js:7-9 | the slug is empty if and only if the input has no ASCII letter or digit (`'!!!'` gives `''`) |
| SlugProperties.PunctuationIgnored | client/utils/slugify.js:7 | deleting any character outside `[\w\s-]` anywhere in the input leaves the slug unchanged, so punctuation never becomes a separator (`'Version 2.0.1'` gives `'version-201'`) |
| SlugProperties.OuterSeparatorsIgnored | client/utils/slugify.js:6-9 | any whitespace, `_` or `-` before and after the text leaves the slug unchanged (`'  Hello World  '`, `'--Sluggy Slug--'`) |
| SlugProperties.SeparatorRunIsOneHyphen | client/utils/slugify.js:8 | any non-empty run of whitespace, `_` and `-` inside the text gives the same slug as one `-` there (`'This__is    a_test'` gives `'this-is-a-test'`) |
| SlugProperties.CollapseOfHyphenated | client/utils/slugify.js:8 | stage 4 leaves slug characters without adjacent hyphens unchanged |
| SlugProperties.TrimOfSlug | client/utils/slugify.js:6 | stage 2 leaves a canonical slug unchanged |
| SlugProperties.StripHyphensOfSlug | client/utils/slugify.js:9 | stage 5 leaves a canonical slug unchanged |
| SlugProperties.SlugIsFixedPoint | client/utils/slugify.js:5-9 | a canonical slug passes through all five stages unchanged |
| SlugProperties.SanitizeSlugIdempotent | client/utils/slugify.js:3-10 | sanitizing a slug a second time changes nothing |
| SlugProperties.CaseIgnored | client/utils/slugify.js:5 | lower-casing the text first never changes the slug |
| SlugProperties.SlugOfLowerCaseSlug | client/utils/slugify.js:3-10 | a text whose lower-case form is a canonical slug gives exactly that slug |
| SlugExamples.HelloWorld | client/src/tests/unit/slugify.test.js:7 | `'  Hello World  '` gives `'hello-world'` |
| SlugExamples.ReactRocks | client/src/tests/unit/slugify.test.js:11 | `'React! Rocks? JS'` gives `'react-rocks-js'` |
| SlugExamples.ThisIsATest | client/src/tests/unit/slugify.test.js:15 | `'This__is    a_test'` gives `'this-is-a-test'` |
| SlugExamples.SluggySlug | client/src/tests/unit/slugify.test.js:19 | `'--Sluggy Slug--'` gives `'sluggy-slug'` |
| SlugExamples.OnlySymbols | client/src/tests/unit/slugify.test.js:23 | `'!!!'` gives `''` |
| SlugExamples.VersionNumber | client/src/tests/unit/slugify.test.js:27 | `'  Version 2.0.1 '` gives `'version-201'` |
| SlugExamples.MixedCase | client/src/tests/unit/slugify.test.js:31 | `'HeLLo--WORLD!!__Test'` gives `'hello-world-test'` |

## Left out

- LowerCase: maps only ASCII `A`–`Z`. JavaScript's `toLowerCase` applies full Unicode case mapping. That mapping never turns a character into whitespace, `_` or `-`, and every non-ASCII character that is not whitespace is deleted by line 7. So the model's final slug equals the source's for every input except those containing U+0130 (lower-cased to `i` plus U+0307) or U+212A (Kelvin sign, lower-cased to `k`). For those two, the source keeps an ASCII letter that the model deletes.
- JavaScript strings are UTF-16 code units; the model's characters are Unicode scalar values. A character outside the Basic Multilingual Plane is never a word character or whitespace, so both delete it, as one unit or as two.
- Non-string arguments: `sanitizeSlug(undefined)`, `sanitizeSlug(null)` or a number throws a `TypeError` at line 5, because the value has no `toLowerCase` method. The model's parameter is a `string`, so that error path is not modelled.
- `client/utils/auth.js`: it signs a token through the external `jsonwebtoken` library with a one-hour expiry read from the clock. There is no logic of its own to model.
- `server/src/app.js`: Express set-up with one JSON middleware and one constant route.
- `client/src/components/Button.jsx`: user-interface rendering.
- `server/tests/integration/post.test.js` expects a post API: create, list, get, update and delete, answering 401, 403 and 404. The route handlers and the `Post` and `User` models it exercises are not part of this model: no source for them exists in the repository's files.
