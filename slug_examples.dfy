/** The seven input/output pairs of sanitizeSlug's unit tests. Each input is
    rewritten, one general property at a time, into a text whose lower-case
    form is its expected slug; that slug then passes through unchanged. */
module SlugExamples {
  import opened CharClass
  import opened Slugify
  import opened SlugProperties

  // The general properties, restated with every text they relate named as a
  // parameter, so that a step between two literals never asks the solver to
  // evaluate the pipeline on a literal.

  lemma OuterAt(t: string, lead: string, s: string, trail: string)
    requires t == lead + s + trail && AllSeparators(lead) && AllSeparators(trail)
    ensures SanitizeSlug(t) == SanitizeSlug(s)
  {
    OuterSeparatorsIgnored(lead, s, trail);
  }

  lemma PunctuationAt(t: string, a: string, c: char, b: string, u: string)
    requires t == a + [c] + b && u == a + b && !IsKept(c)
    ensures SanitizeSlug(t) == SanitizeSlug(u)
  {
    PunctuationIgnored(a, c, b);
  }

  lemma RunAt(t: string, a: string, run: string, b: string, u: string)
    requires t == a + run + b && u == a + "-" + b && |run| > 0 && AllSeparators(run)
    ensures SanitizeSlug(t) == SanitizeSlug(u)
  {
    SeparatorRunIsOneHyphen(a, run, b);
  }

  /** A text whose characters lower-case one by one to a canonical slug gives that slug. */
  lemma LowerCaseSlugAt(t: string, x: string)
    requires |t| == |x| && forall i :: 0 <= i < |t| ==> ToLowerChar(t[i]) == x[i]
    requires IsSlug(x)
    ensures SanitizeSlug(t) == x
  {
    assert LowerCase(t) == x;
    SlugOfLowerCaseSlug(t, x);
  }

  /** `  Hello World  ` to `Hello World`: the outer separators are ignored. */
  lemma HelloWorld1(t: string, u: string)
    requires t == "  Hello World  " && u == "Hello World"
    ensures SanitizeSlug(t) == SanitizeSlug(u)
  {
    OuterAt(t, "  ", u, "  ");
  }

  /** `Hello World` to `Hello-World`: the space becomes a hyphen. */
  lemma HelloWorld2(t: string, u: string)
    requires t == "Hello World" && u == "Hello-World"
    ensures SanitizeSlug(t) == SanitizeSlug(u)
  {
    RunAt(t, "Hello", " ", "World", u);
  }

  /** `Hello-World` lower-cased is the slug `hello-world`. */
  lemma HelloWorld3(t: string, x: string)
    requires t == "Hello-World" && x == "hello-world"
    ensures SanitizeSlug(t) == x
  {
    LowerCaseSlugAt(t, x);
  }

  /** client/src/tests/unit/slugify.test.js, "converts text to lowercase and trims whitespace". */
  lemma HelloWorld()
    ensures SanitizeSlug("  Hello World  ") == "hello-world"
  {
    HelloWorld1("  Hello World  ", "Hello World");
    HelloWorld2("Hello World", "Hello-World");
    HelloWorld3("Hello-World", "hello-world");
  }

  /** `React! Rocks? JS` to `React Rocks? JS`: the `!` is deleted. */
  lemma ReactRocks1(t: string, u: string)
    requires t == "React! Rocks? JS" && u == "React Rocks? JS"
    ensures SanitizeSlug(t) == SanitizeSlug(u)
  {
    PunctuationAt(t, "React", '!', " Rocks? JS", u);
  }

  /** `React Rocks? JS` to `React Rocks JS`: the `?` is deleted. */
  lemma ReactRocks2(t: string, u: string)
    requires t == "React Rocks? JS" && u == "React Rocks JS"
    ensures SanitizeSlug(t) == SanitizeSlug(u)
  {
    PunctuationAt(t, "React Rocks", '?', " JS", u);
  }

  /** `React Rocks JS` to `React-Rocks JS`: the space becomes a hyphen. */
  lemma ReactRocks3(t: string, u: string)
    requires t == "React Rocks JS" && u == "React-Rocks JS"
    ensures SanitizeSlug(t) == SanitizeSlug(u)
  {
    RunAt(t, "React", " ", "Rocks JS", u);
  }

  /** `React-Rocks JS` to `React-Rocks-JS`: the space becomes a hyphen. */
  lemma ReactRocks4(t: string, u: string)
    requires t == "React-Rocks JS" && u == "React-Rocks-JS"
    ensures SanitizeSlug(t) == SanitizeSlug(u)
  {
    RunAt(t, "React-Rocks", " ", "JS", u);
  }

  /** `React-Rocks-JS` lower-cased is the slug `react-rocks-js`. */
  lemma ReactRocks5(t: string, x: string)
    requires t == "React-Rocks-JS" && x == "react-rocks-js"
    ensures SanitizeSlug(t) == x
  {
    LowerCaseSlugAt(t, x);
  }

  /** client/src/tests/unit/slugify.test.js, "removes special characters and replaces spaces with hyphens". */
  lemma ReactRocks()
    ensures SanitizeSlug("React! Rocks? JS") == "react-rocks-js"
  {
    ReactRocks1("React! Rocks? JS", "React Rocks? JS");
    ReactRocks2("React Rocks? JS", "React Rocks JS");
    ReactRocks3("React Rocks JS", "React-Rocks JS");
    ReactRocks4("React-Rocks JS", "React-Rocks-JS");
    ReactRocks5("React-Rocks-JS", "react-rocks-js");
  }

  /** `This__is    a_test` to `This-is    a_test`: the run `__` becomes one hyphen. */
  lemma ThisIsATest1(t: string, u: string)
    requires t == "This__is    a_test" && u == "This-is    a_test"
    ensures SanitizeSlug(t) == SanitizeSlug(u)
  {
    RunAt(t, "This", "__", "is    a_test", u);
  }

  /** `This-is    a_test` to `This-is-a_test`: the run `    ` becomes one hyphen. */
  lemma ThisIsATest2(t: string, u: string)
    requires t == "This-is    a_test" && u == "This-is-a_test"
    ensures SanitizeSlug(t) == SanitizeSlug(u)
  {
    RunAt(t, "This-is", "    ", "a_test", u);
  }

  /** `This-is-a_test` to `This-is-a-test`: the run `_` becomes one hyphen. */
  lemma ThisIsATest3(t: string, u: string)
    requires t == "This-is-a_test" && u == "This-is-a-test"
    ensures SanitizeSlug(t) == SanitizeSlug(u)
  {
    RunAt(t, "This-is-a", "_", "test", u);
  }

  /** `This-is-a-test` lower-cased is the slug `this-is-a-test`. */
  lemma ThisIsATest4(t: string, x: string)
    requires t == "This-is-a-test" && x == "this-is-a-test"
    ensures SanitizeSlug(t) == x
  {
    LowerCaseSlugAt(t, x);
  }

  /** client/src/tests/unit/slugify.test.js, "handles multiple spaces and underscores properly". */
  lemma ThisIsATest()
    ensures SanitizeSlug("This__is    a_test") == "this-is-a-test"
  {
    ThisIsATest1("This__is    a_test", "This-is    a_test");
    ThisIsATest2("This-is    a_test", "This-is-a_test");
    ThisIsATest3("This-is-a_test", "This-is-a-test");
    ThisIsATest4("This-is-a-test", "this-is-a-test");
  }

  /** `--Sluggy Slug--` to `Sluggy Slug`: the outer separators are ignored. */
  lemma SluggySlug1(t: string, u: string)
    requires t == "--Sluggy Slug--" && u == "Sluggy Slug"
    ensures SanitizeSlug(t) == SanitizeSlug(u)
  {
    OuterAt(t, "--", u, "--");
  }

  /** `Sluggy Slug` to `Sluggy-Slug`: the space becomes a hyphen. */
  lemma SluggySlug2(t: string, u: string)
    requires t == "Sluggy Slug" && u == "Sluggy-Slug"
    ensures SanitizeSlug(t) == SanitizeSlug(u)
  {
    RunAt(t, "Sluggy", " ", "Slug", u);
  }

  /** `Sluggy-Slug` lower-cased is the slug `sluggy-slug`. */
  lemma SluggySlug3(t: string, x: string)
    requires t == "Sluggy-Slug" && x == "sluggy-slug"
    ensures SanitizeSlug(t) == x
  {
    LowerCaseSlugAt(t, x);
  }

  /** client/src/tests/unit/slugify.test.js, "removes leading/trailing hyphens". */
  lemma SluggySlug()
    ensures SanitizeSlug("--Sluggy Slug--") == "sluggy-slug"
  {
    SluggySlug1("--Sluggy Slug--", "Sluggy Slug");
    SluggySlug2("Sluggy Slug", "Sluggy-Slug");
    SluggySlug3("Sluggy-Slug", "sluggy-slug");
  }

  /** `!!!` to `!!`: the `!` is deleted. */
  lemma OnlySymbols1(t: string, u: string)
    requires t == "!!!" && u == "!!"
    ensures SanitizeSlug(t) == SanitizeSlug(u)
  {
    PunctuationAt(t, "", '!', "!!", u);
  }

  /** `!!` to `!`: the `!` is deleted. */
  lemma OnlySymbols2(t: string, u: string)
    requires t == "!!" && u == "!"
    ensures SanitizeSlug(t) == SanitizeSlug(u)
  {
    PunctuationAt(t, "", '!', "!", u);
  }

  /** `!` to ``: the `!` is deleted. */
  lemma OnlySymbols3(t: string, u: string)
    requires t == "!" && u == ""
    ensures SanitizeSlug(t) == SanitizeSlug(u)
  {
    PunctuationAt(t, "", '!', "", u);
  }

  /** `` lower-cased is the slug ``. */
  lemma OnlySymbols4(t: string, x: string)
    requires t == "" && x == ""
    ensures SanitizeSlug(t) == x
  {
    LowerCaseSlugAt(t, x);
  }

  /** client/src/tests/unit/slugify.test.js, "returns an empty string if input is only symbols". */
  lemma OnlySymbols()
    ensures SanitizeSlug("!!!") == ""
  {
    OnlySymbols1("!!!", "!!");
    OnlySymbols2("!!", "!");
    OnlySymbols3("!", "");
    OnlySymbols4("", "");
  }

  /** `  Version 2.0.1 ` to `Version 2.0.1`: the outer separators are ignored. */
  lemma VersionNumber1(t: string, u: string)
    requires t == "  Version 2.0.1 " && u == "Version 2.0.1"
    ensures SanitizeSlug(t) == SanitizeSlug(u)
  {
    OuterAt(t, "  ", u, " ");
  }

  /** `Version 2.0.1` to `Version 20.1`: the `.` is deleted. */
  lemma VersionNumber2(t: string, u: string)
    requires t == "Version 2.0.1" && u == "Version 20.1"
    ensures SanitizeSlug(t) == SanitizeSlug(u)
  {
    PunctuationAt(t, "Version 2", '.', "0.1", u);
  }

  /** `Version 20.1` to `Version 201`: the `.` is deleted. */
  lemma VersionNumber3(t: string, u: string)
    requires t == "Version 20.1" && u == "Version 201"
    ensures SanitizeSlug(t) == SanitizeSlug(u)
  {
    PunctuationAt(t, "Version 20", '.', "1", u);
  }

  /** `Version 201` to `Version-201`: the space becomes a hyphen. */
  lemma VersionNumber4(t: string, u: string)
    requires t == "Version 201" && u == "Version-201"
    ensures SanitizeSlug(t) == SanitizeSlug(u)
  {
    RunAt(t, "Version", " ", "201", u);
  }

  /** `Version-201` lower-cased is the slug `version-201`. */
  lemma VersionNumber5(t: string, x: string)
    requires t == "Version-201" && x == "version-201"
    ensures SanitizeSlug(t) == x
  {
    LowerCaseSlugAt(t, x);
  }

  /** client/src/tests/unit/slugify.test.js, "handles numeric input correctly". */
  lemma VersionNumber()
    ensures SanitizeSlug("  Version 2.0.1 ") == "version-201"
  {
    VersionNumber1("  Version 2.0.1 ", "Version 2.0.1");
    VersionNumber2("Version 2.0.1", "Version 20.1");
    VersionNumber3("Version 20.1", "Version 201");
    VersionNumber4("Version 201", "Version-201");
    VersionNumber5("Version-201", "version-201");
  }

  /** `HeLLo--WORLD!!__Test` to `HeLLo--WORLD!__Test`: the `!` is deleted. */
  lemma MixedCase1(t: string, u: string)
    requires t == "HeLLo--WORLD!!__Test" && u == "HeLLo--WORLD!__Test"
    ensures SanitizeSlug(t) == SanitizeSlug(u)
  {
    PunctuationAt(t, "HeLLo--WORLD", '!', "!__Test", u);
  }

  /** `HeLLo--WORLD!__Test` to `HeLLo--WORLD__Test`: the `!` is deleted. */
  lemma MixedCase2(t: string, u: string)
    requires t == "HeLLo--WORLD!__Test" && u == "HeLLo--WORLD__Test"
    ensures SanitizeSlug(t) == SanitizeSlug(u)
  {
    PunctuationAt(t, "HeLLo--WORLD", '!', "__Test", u);
  }

  /** `HeLLo--WORLD__Test` to `HeLLo-WORLD__Test`: the run `--` becomes one hyphen. */
  lemma MixedCase3(t: string, u: string)
    requires t == "HeLLo--WORLD__Test" && u == "HeLLo-WORLD__Test"
    ensures SanitizeSlug(t) == SanitizeSlug(u)
  {
    RunAt(t, "HeLLo", "--", "WORLD__Test", u);
  }

  /** `HeLLo-WORLD__Test` to `HeLLo-WORLD-Test`: the run `__` becomes one hyphen. */
  lemma MixedCase4(t: string, u: string)
    requires t == "HeLLo-WORLD__Test" && u == "HeLLo-WORLD-Test"
    ensures SanitizeSlug(t) == SanitizeSlug(u)
  {
    RunAt(t, "HeLLo-WORLD", "__", "Test", u);
  }

  /** `HeLLo-WORLD-Test` lower-cased is the slug `hello-world-test`. */
  lemma MixedCase5(t: string, x: string)
    requires t == "HeLLo-WORLD-Test" && x == "hello-world-test"
    ensures SanitizeSlug(t) == x
  {
    LowerCaseSlugAt(t, x);
  }

  /** client/src/tests/unit/slugify.test.js, "handles mixed casing and special chars". */
  lemma MixedCase()
    ensures SanitizeSlug("HeLLo--WORLD!!__Test") == "hello-world-test"
  {
    MixedCase1("HeLLo--WORLD!!__Test", "HeLLo--WORLD!__Test");
    MixedCase2("HeLLo--WORLD!__Test", "HeLLo--WORLD__Test");
    MixedCase3("HeLLo--WORLD__Test", "HeLLo-WORLD__Test");
    MixedCase4("HeLLo-WORLD__Test", "HeLLo-WORLD-Test");
    MixedCase5("HeLLo-WORLD-Test", "hello-world-test");
  }
}
