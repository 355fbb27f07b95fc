/** Worked sentences: what the censor makes of a few concrete inputs. */
module CensorExamples {
  import opened GoStrings
  import opened Censor

  /** A clean piece followed by one punctuation rune strips to the piece. */
  lemma StripDrop(a: string, b: string)
    requires NoPunctuation(a) && |b| == 1 && IsPunctuation(b[0])
    ensures StripPunctuation(a + b) == a
  {
    StripPunctuationOfClean(a);
    assert b[1..] == [];
    assert StripPunctuation(b) == [];
    StripPunctuationAppend(a, b);
    assert a + [] == a;
  }

  lemma StripPieces(a: string, b: string, c: string, d: string)
    requires NoPunctuation(a) && NoPunctuation(c)
    requires |b| == 1 && IsPunctuation(b[0]) && |d| == 1 && IsPunctuation(d[0])
    ensures StripPunctuation(a + b + c + d) == a + c
  {
    var x, y := a + b, c + d;
    StripDrop(a, b);
    StripDrop(c, d);
    StripPunctuationAppend(x, y);
    assert a + b + c + d == x + y;
  }

  lemma JoinTwo(a: string, b: string)
    ensures JoinSpace([a, b]) == a + " " + b
  {
    assert [a, b][1..] == [b];
  }

  lemma JoinThree(a: string, b: string, c: string)
    ensures JoinSpace([a, b, c]) == a + " " + (b + " " + c)
  {
    assert [a, b, c][1..] == [b, c];
    JoinTwo(b, c);
  }

  lemma HelloWorldStrip(s: string, hello: string, world: string)
    requires s == "Hello, world." && hello == "Hello" && world == "world"
    ensures StripPunctuation(s) == JoinSpace([hello, world])
  {
    var gap := " " + world;
    assert NoPunctuation(hello) && NoPunctuation(gap);
    StripPieces(hello, ",", gap, ".");
    assert hello + "," + gap + "." == s;
    JoinTwo(hello, world);
    assert hello + gap == hello + " " + world;
  }

  /** Punctuation is deleted before splitting, so it never reaches a word. */
  lemma HelloWorldTokens(s: string, hello: string, world: string)
    requires s == "Hello, world." && hello == "Hello" && world == "world"
    ensures Tokens(s) == [hello, world]
  {
    HelloWorldStrip(s, hello, world);
    assert NoSpace(hello) && NoSpace(world);
    FieldsOfJoin([hello, world]);
  }

  /** A word whose sanitized form is not taboo leaves the sentence alone. */
  lemma AllowedStep(s: string, t: string, words: set<string>)
    requires Sanitize(t) !in words
    ensures CensorStep(s, t, words) == s
  {
  }

  /** Lower-case ASCII letters only. */
  predicate Plain(t: string) {
    forall i :: 0 <= i < |t| ==> 'a' <= t[i] <= 'z'
  }

  lemma PlainIsCanonical(t: string)
    requires Plain(t)
    ensures Sanitize(t) == t
  {
    SanitizeOfCanonical(t);
  }

  /** A lower-case taboo word censors to one `*` per letter. */
  lemma PlainTabooStars(t: string, words: set<string>, stars: string)
    requires Plain(t) && t in words
    requires |stars| == |t| && forall i :: 0 <= i < |stars| ==> stars[i] == '*'
    ensures CensorWord(t, words) == stars
  {
    PlainIsCanonical(t);
  }

  lemma WorldReplaced(s: string, t: string, stars: string)
    requires s == "Hello, world." && t == "world" && stars == "*****"
    ensures ReplaceLeftmost(s, t, stars) == "Hello, *****."
  {
    var dot, lead := ".", "Hello, ";
    ReplaceLeftmostHit(dot, t, stars);
    assert ReplaceLeftmost(dot, t, stars) == dot;
    assert s == lead + (t + dot);
    ReplaceLeftmostSkipAll(lead, t + dot, t, stars);
  }

  lemma WorldStep(s: string, t: string, words: set<string>)
    requires s == "Hello, world." && t == "world" && words == {"world"}
    ensures CensorStep(s, t, words) == "Hello, *****."
  {
    assert Plain(t);
    PlainTabooStars(t, words, "*****");
    WorldReplaced(s, t, "*****");
  }

  /** A word without white space whose first rune lowers to something else
      than the entry's first rune does not match that entry. */
  lemma FirstRuneDiffers(t: string, entry: string)
    requires NoSpace(t) && |t| > 0 && |entry| > 0 && LowerRune(t[0]) != entry[0]
    ensures Sanitize(t) != entry
  {
    SanitizeKeepsWord(t);
    assert ToLower(t)[0] == LowerRune(t[0]);
  }

  lemma HelloAllowed(t: string, words: set<string>)
    requires t == "Hello" && words == {"world"}
    ensures Sanitize(t) !in words
  {
    assert NoSpace(t);
    FirstRuneDiffers(t, "world");
  }

  lemma CensorTwo(s: string, a: string, b: string, words: set<string>)
    ensures CensorAll(s, [a, b], words) == CensorStep(CensorStep(s, a, words), b, words)
  {
    var s1 := CensorStep(s, a, words);
    assert [a, b][0] == a && [a, b][1..] == [b] && [b][0] == b && [b][1..] == [];
    assert CensorAll(s, [a, b], words) == CensorAll(s1, [b], words);
    assert CensorAll(s1, [b], words) == CensorAll(CensorStep(s1, b, words), [], words);
  }

  /** The words are found in a stripped copy, but the replacing is done on
      the sentence as typed, so its punctuation survives. */
  lemma HelloWorldCensored()
    ensures CensorAll("Hello, world.", Tokens("Hello, world."), {"world"}) == "Hello, *****."
  {
    var s, words := "Hello, world.", {"world"};
    var hello, world := "Hello", "world";
    HelloWorldTokens(s, hello, world);
    CensorTwo(s, hello, world, words);
    HelloAllowed(hello, words);
    AllowedStep(s, hello, words);
    WorldStep(s, world, words);
  }

  lemma EndEndStrip(s: string, t: string)
    requires s == "end.End" && t == "endEnd"
    ensures StripPunctuation(s) == t
  {
    var a, dot, b := "end", ".", "End";
    assert s == (a + dot) + b;
    assert NoPunctuation(a) && NoPunctuation(b);
    StripDrop(a, dot);
    StripPunctuationOfClean(b);
    StripPunctuationAppend(a + dot, b);
    assert a + b == t;
  }

  lemma EndEndTokens(s: string, t: string)
    requires s == "end.End" && t == "endEnd"
    ensures Tokens(s) == [t]
  {
    EndEndStrip(s, t);
    assert NoSpace(t);
    FieldsOfWord(t);
  }

  lemma EndEndLowered(t: string)
    requires t == "endEnd"
    ensures ToLower(t) == "endend"
  {
    var r := ToLower(t);
    forall i | 0 <= i < 6 ensures r[i] == "endend"[i] {
      assert r[i] == LowerRune(t[i]);
    }
  }

  lemma EndEndTaboo(t: string)
    requires t == "endEnd"
    ensures Sanitize(t) == "endend"
  {
    assert NoSpace(t);
    SanitizeKeepsWord(t);
    EndEndLowered(t);
  }

  lemma EndEndAbsent(s: string, t: string)
    requires s == "end.End" && t == "endEnd"
    ensures !Occurs(s, t)
  {
    forall i | 0 <= i <= |s| - |t| ensures !OccursAt(s, t, i) {
      assert s[i..i + |t|][3 - i] != t[3 - i];
    }
  }

  /** Punctuation inside a word: the word visited is `endEnd`, which is
      taboo, but it does not occur in `end.End`, so nothing is censored. */
  lemma EndEndUncensored()
    ensures Tokens("end.End") == ["endEnd"] && Sanitize("endEnd") in {"endend"}
    ensures CensorAll("end.End", Tokens("end.End"), {"endend"}) == "end.End"
  {
    var s, t, words := "end.End", "endEnd", {"endend"};
    EndEndTokens(s, t);
    EndEndTaboo(t);
    EndEndAbsent(s, t);
    ReplaceAllAbsent(s, t, CensorWord(t, words));
    CensorAllAllowed(CensorStep(s, t, words), [], words);
    CensorAllAppend(s, [t], [], words);
    assert [t][0] == t && [t][1..] == [];
  }

  /** A word whose sanitized form has another length than every taboo
      entry is allowed. */
  lemma AllowedByLength(t: string, words: set<string>)
    requires NoSpace(t) && forall w :: w in words ==> |w| != |t|
    ensures Sanitize(t) !in words
  {
    SanitizeKeepsWord(t);
  }

  /** A text in which `pat` cannot start is left alone. */
  lemma NeverStarts(a: string, pat: string, rep: string)
    requires |pat| > 0 && pat[0] !in a
    ensures ReplaceLeftmost(a, pat, rep) == a
  {
    ReplaceLeftmostSkipAll(a, [], pat, rep);
    assert a + [] == a;
  }

  lemma CensorThree(s: string, a: string, b: string, c: string, words: set<string>)
    ensures CensorAll(s, [a, b, c], words)
         == CensorStep(CensorStep(CensorStep(s, a, words), b, words), c, words)
  {
    assert [a, b, c][0] == a && [a, b, c][1..] == [b, c];
    CensorTwo(CensorStep(s, a, words), b, c, words);
  }

  /** A sentence without punctuation that is its words joined by single
      spaces visits exactly those words. */
  lemma CleanTokens(s: string, ts: seq<string>)
    requires NoPunctuation(s) && JoinSpace(ts) == s
    requires forall i :: 0 <= i < |ts| ==> |ts[i]| > 0 && NoSpace(ts[i])
    ensures Tokens(s) == ts
  {
    StripPunctuationOfClean(s);
    FieldsOfJoin(ts);
  }

  lemma FoolJoin(s: string, lower: string, and: string, upper: string)
    requires s == "fool and FOOL" && lower == "fool" && and == "and" && upper == "FOOL"
    ensures JoinSpace([lower, and, upper]) == s
  {
    JoinThree(lower, and, upper);
    assert lower + " " + (and + " " + upper) == s;
  }

  lemma FoolTokens(s: string, tokens: seq<string>)
    requires s == "fool and FOOL" && tokens == ["fool", "and", "FOOL"]
    ensures Tokens(s) == tokens
  {
    var lower, and, upper := "fool", "and", "FOOL";
    FoolJoin(s, lower, and, upper);
    assert NoSpace(lower) && NoSpace(and) && NoSpace(upper);
    assert NoPunctuation(s);
    CleanTokens(s, [lower, and, upper]);
  }

  /** A step for a taboo word is a leftmost replacement by its stars. */
  lemma TabooStep(s: string, t: string, words: set<string>, stars: string)
    requires |t| > 0 && CensorWord(t, words) == stars && stars != t
    ensures CensorStep(s, t, words) == ReplaceLeftmost(s, t, stars)
  {
  }

  /** An occurrence at the start, and none in the rest. */
  lemma HitOnce(t: string, rest: string, stars: string)
    requires |t| > 0 && t[0] !in rest
    ensures ReplaceLeftmost(t + rest, t, stars) == stars + rest
  {
    ReplaceLeftmostHit(rest, t, stars);
    NeverStarts(rest, t, stars);
  }

  lemma FoolLower(s: string, t: string, rest: string, stars: string)
    requires s == "fool and FOOL" && t == "fool" && rest == " and FOOL" && stars == "****"
    ensures ReplaceLeftmost(s, t, stars) == "**** and FOOL"
  {
    assert s == t + rest;
    assert t[0] !in rest;
    HitOnce(t, rest, stars);
    assert stars + rest == "**** and FOOL";
  }

  lemma FoolUpper(s: string, t: string, stars: string)
    requires s == "**** and FOOL" && t == "FOOL" && stars == "****"
    ensures ReplaceLeftmost(s, t, stars) == "**** and ****"
  {
    var lead := "**** and ";
    assert s == lead + (t + []);
    ReplaceLeftmostSkipAll(lead, t + [], t, stars);
    ReplaceLeftmostHit([], t, stars);
  }

  lemma FoolUpperLowered(t: string)
    requires t == "FOOL"
    ensures ToLower(t) == "fool"
  {
    var r := ToLower(t);
    forall i | 0 <= i < 4 ensures r[i] == "fool"[i] {
      assert r[i] == LowerRune(t[i]);
    }
  }

  lemma FoolUpperTaboo(t: string, words: set<string>)
    requires t == "FOOL" && words == {"fool"}
    ensures CensorWord(t, words) == "****"
  {
    assert NoSpace(t);
    SanitizeKeepsWord(t);
    FoolUpperLowered(t);
  }


  lemma FoolFirstStep(s: string, lower: string, words: set<string>)
    requires s == "fool and FOOL" && lower == "fool" && words == {"fool"}
    ensures CensorStep(s, lower, words) == "**** and FOOL"
  {
    assert Plain(lower);
    PlainTabooStars(lower, words, "****");
    TabooStep(s, lower, words, "****");
    FoolLower(s, lower, " and FOOL", "****");
  }

  lemma AndAllowed(and: string, words: set<string>)
    requires and == "and" && words == {"fool"}
    ensures Sanitize(and) !in words
  {
    assert NoSpace(and);
    AllowedByLength(and, words);
  }

  lemma FoolLastStep(s1: string, upper: string, words: set<string>)
    requires s1 == "**** and FOOL" && upper == "FOOL" && words == {"fool"}
    ensures CensorStep(s1, upper, words) == "**** and ****"
  {
    FoolUpperTaboo(upper, words);
    TabooStep(s1, upper, words, "****");
    FoolUpper(s1, upper, "****");
  }

  /** Matching ignores case, replacing does not: `fool` and `FOOL` are both
      taboo, and each step stars the occurrences spelled as its own word. */
  lemma FoolCensored()
    ensures CensorAll("fool and FOOL", Tokens("fool and FOOL"), {"fool"}) == "**** and ****"
  {
    var s, words := "fool and FOOL", {"fool"};
    var lower, and, upper := "fool", "and", "FOOL";
    FoolTokens(s, [lower, and, upper]);
    CensorThree(s, lower, and, upper, words);
    var s1 := "**** and FOOL";
    FoolFirstStep(s, lower, words);
    AndAllowed(and, words);
    AllowedStep(s1, and, words);
    FoolLastStep(s1, upper, words);
  }

  lemma FoolishReplaced(s: string, t: string, stars: string)
    requires s == "fool foolish" && t == "fool" && stars == "****"
    ensures ReplaceLeftmost(s, t, stars) == "**** ****ish"
  {
    var gap, tail := " ", "ish";
    assert t[0] !in tail && t[0] !in gap;
    HitOnce(t, tail, stars);
    ReplaceLeftmostSkipAll(gap, t + tail, t, stars);
    ReplaceLeftmostHit(gap + (t + tail), t, stars);
    assert s == t + (gap + (t + tail));
  }

  lemma FoolishJoin(s: string, lower: string, longer: string)
    requires s == "fool foolish" && lower == "fool" && longer == "foolish"
    ensures JoinSpace([lower, longer]) == s
  {
    JoinTwo(lower, longer);
    assert lower + " " + longer == s;
  }

  lemma FoolishTokens(s: string, tokens: seq<string>)
    requires s == "fool foolish" && tokens == ["fool", "foolish"]
    ensures Tokens(s) == tokens
  {
    var lower, longer := "fool", "foolish";
    FoolishJoin(s, lower, longer);
    assert NoSpace(lower) && NoSpace(longer);
    assert NoPunctuation(s);
    CleanTokens(s, [lower, longer]);
  }

  lemma FoolishFirstStep(s: string, lower: string, words: set<string>)
    requires s == "fool foolish" && lower == "fool" && words == {"fool"}
    ensures CensorStep(s, lower, words) == "**** ****ish"
  {
    assert Plain(lower);
    PlainTabooStars(lower, words, "****");
    TabooStep(s, lower, words, "****");
    FoolishReplaced(s, lower, "****");
  }

  lemma FoolishAllowed(longer: string, words: set<string>)
    requires longer == "foolish" && words == {"fool"}
    ensures Sanitize(longer) !in words
  {
    assert NoSpace(longer);
    AllowedByLength(longer, words);
  }

  /** Replacing is by text, not by word: the taboo `fool` is starred inside
      `foolish` too, though `foolish` itself is allowed. */
  lemma FoolishCensored()
    ensures CensorAll("fool foolish", Tokens("fool foolish"), {"fool"}) == "**** ****ish"
  {
    var s, words := "fool foolish", {"fool"};
    var lower, longer := "fool", "foolish";
    FoolishTokens(s, [lower, longer]);
    CensorTwo(s, lower, longer, words);
    FoolishFirstStep(s, lower, words);
    FoolishAllowed(longer, words);
    AllowedStep("**** ****ish", longer, words);
  }
}
