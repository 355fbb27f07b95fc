/** The censoring logic of main.go: normalising words, loading the taboo
    set, censoring one word, splitting a sentence into words, and rewriting
    the sentence word by word. */
module Censor {
  import opened GoStrings

  /** sanitize: lower-case the word, then trim the white space around it. */
  function Sanitize(word: string): (r: string)
    ensures r == [] || (!IsSpace(r[0]) && !IsSpace(r[|r| - 1]))
  {
    TrimSpace(ToLower(word))
  }

  /** Sanitizing twice is sanitizing once: a taboo entry and a word that
      both went through sanitize are compared on the same footing. */
  lemma SanitizeIdempotent(word: string)
    ensures Sanitize(Sanitize(word)) == Sanitize(word)
  {
    var lower := ToLower(word);
    var r := TrimSpace(lower);
    TrimSpaceRunes(lower);
    ToLowerRunes(word);
    ToLowerOfLower(r);
    TrimSpaceOfTrimmed(r);
  }

  /** Case and surrounding white space do not matter to sanitize. */
  lemma SanitizeIgnoresCase(a: string, b: string)
    requires ToLower(a) == ToLower(b)
    ensures Sanitize(a) == Sanitize(b)
  {
  }

  /** A word without white space keeps its rune count through sanitize, so
      a non-empty one never sanitizes to the empty string. */
  lemma SanitizeKeepsWord(word: string)
    requires NoSpace(word)
    ensures Sanitize(word) == ToLower(word)
    ensures |Sanitize(word)| == |word|
  {
    TrimSpaceOfNoSpace(ToLower(word));
  }

  /** A word that is already lower case and free of white space is its own
      sanitized form. */
  lemma SanitizeOfCanonical(word: string)
    requires NoSpace(word) && forall i :: 0 <= i < |word| ==> !IsUpper(word[i])
    ensures Sanitize(word) == word
  {
    SanitizeKeepsWord(word);
    ToLowerOfLower(word);
  }

  /** getWords, over the lines the file scanner would deliver: inserts the
      sanitized form of every line into the set. */
  method GetWords(lines: seq<string>) returns (words: set<string>)
    ensures words == set l | l in lines :: Sanitize(l)
  {
    words := {};
    for i := 0 to |lines|
      invariant words == set l | l in lines[..i] :: Sanitize(l)
    {
      assert lines[..i + 1] == lines[..i] + [lines[i]];
      words := words + {Sanitize(lines[i])};
    }
    assert lines[..|lines|] == lines;
  }

  /** censorWord: a word whose sanitized form is taboo becomes as many `*`
      as it has runes; any other word is returned as it is. */
  function CensorWord(word: string, words: set<string>): (r: string)
    ensures |r| == |word|
    ensures Sanitize(word) !in words ==> r == word
    ensures Sanitize(word) in words ==> forall i :: 0 <= i < |r| ==> r[i] == '*'
  {
    if Sanitize(word) !in words then word else Repeat("*", |word|)
  }

  /** Two words with the same sanitized form are both censored or both
      left alone, and censored ones read the same when equally long. */
  lemma CensoredAlike(a: string, b: string, words: set<string>)
    requires Sanitize(a) == Sanitize(b)
    ensures Sanitize(a) !in words ==> CensorWord(a, words) == a && CensorWord(b, words) == b
    ensures Sanitize(a) in words ==>
      && (forall i :: 0 <= i < |a| ==> CensorWord(a, words)[i] == '*')
      && (forall i :: 0 <= i < |b| ==> CensorWord(b, words)[i] == '*')
    ensures Sanitize(a) in words && |a| == |b| ==> CensorWord(a, words) == CensorWord(b, words)
  {
  }

  /** The punctuation that iterSentence deletes before splitting. */
  predicate IsPunctuation(c: char) {
    c == ',' || c == '.' || c == ';'
  }

  predicate NoPunctuation(s: string) {
    forall i :: 0 <= i < |s| ==> !IsPunctuation(s[i])
  }

  /** The replacer of iterSentence: deletes every `,`, `.` and `;`. */
  function StripPunctuation(s: string): (r: string)
    ensures |r| <= |s| && NoPunctuation(r)
  {
    if s == [] then []
    else if IsPunctuation(s[0]) then StripPunctuation(s[1..])
    else [s[0]] + StripPunctuation(s[1..])
  }

  /** Only runes of the sentence are kept. */
  lemma {:induction false} StripPunctuationRunes(s: string)
    ensures forall c :: c in StripPunctuation(s) ==> c in s
    decreases |s|
  {
    if s != [] {
      StripPunctuationRunes(s[1..]);
    }
  }

  /** A sentence without `,` `.` `;` is kept as it is. */
  lemma {:induction false} StripPunctuationOfClean(s: string)
    requires NoPunctuation(s)
    ensures StripPunctuation(s) == s
    decreases |s|
  {
    if s != [] {
      StripPunctuationOfClean(s[1..]);
    }
  }

  /** Deleting punctuation from a string that starts with `c`. */
  lemma StripPunctuationCons(c: char, x: string)
    ensures StripPunctuation([c] + x) == (if IsPunctuation(c) then [] else [c]) + StripPunctuation(x)
  {
    assert ([c] + x)[0] == c && ([c] + x)[1..] == x;
  }

  /** Deleting punctuation works piece by piece. */
  lemma {:induction false} StripPunctuationAppend(a: string, b: string)
    ensures StripPunctuation(a + b) == StripPunctuation(a) + StripPunctuation(b)
    decreases |a|
  {
    if a == [] {
      assert a + b == b;
    } else {
      var c, rest := a[0], a[1..];
      assert a == [c] + rest && a + b == [c] + (rest + b);
      StripPunctuationCons(c, rest + b);
      StripPunctuationCons(c, rest);
      StripPunctuationAppend(rest, b);
    }
  }

  /** A token as iterSentence hands it over: non-empty, with neither white
      space nor the deleted punctuation in it. */
  predicate IsToken(t: string) {
    |t| > 0 && NoSpace(t) && NoPunctuation(t)
  }

  /** iterSentence: the words it visits, in order. */
  function Tokens(sentence: string): (ts: seq<string>)
    ensures forall t :: t in ts ==> IsToken(t)
  {
    var ts := Fields(StripPunctuation(sentence));
    FieldsRunes(StripPunctuation(sentence));
    StripPunctuationRunes(sentence);
    assert forall t :: t in ts ==> NoPunctuation(t) by {
      forall t, i | t in ts && 0 <= i < |t| ensures !IsPunctuation(t[i]) {
        assert t[i] in t;
      }
    }
    ts
  }

  /** Every rune of a word of a sentence is a rune of the sentence. */
  lemma TokensRunes(sentence: string, t: string)
    requires t in Tokens(sentence)
    ensures forall c :: c in t ==> c in sentence
  {
    FieldsRunes(StripPunctuation(sentence));
    StripPunctuationRunes(sentence);
  }

  /** The words of a sentence, glued together, are the sentence without its
      punctuation and white space. */
  lemma TokensConcat(sentence: string)
    ensures Concat(Tokens(sentence)) == RemoveSpace(StripPunctuation(sentence))
  {
    FieldsConcat(StripPunctuation(sentence));
  }

  /** The empty string that a blank taboo line puts in the set never matches
      a word of a sentence. */
  lemma EmptyEntryNeverMatches(sentence: string)
    ensures forall t :: t in Tokens(sentence) ==> Sanitize(t) != []
  {
    forall t | t in Tokens(sentence) ensures Sanitize(t) != [] {
      SanitizeKeepsWord(t);
    }
  }

  /** One step of the driver: every occurrence of the word in the sentence
      replaced by its censored form. */
  function CensorStep(sentence: string, word: string, words: set<string>): string {
    ReplaceAll(sentence, word, CensorWord(word, words))
  }

  /** What one step does to the sentence, for a token: the length is kept,
      a rune either stays or becomes `*` where the original rune is one of
      the token's, a rune changes only inside an occurrence of a taboo token,
      a step for an allowed word changes nothing, and a step for a taboo word
      without `*` in it leaves no occurrence of that word. */
  lemma CensorStepEffect(s: string, t: string, words: set<string>)
    requires IsToken(t)
    ensures |CensorStep(s, t, words)| == |s|
    ensures forall i :: 0 <= i < |s| ==>
      CensorStep(s, t, words)[i] == s[i] || (CensorStep(s, t, words)[i] == '*' && s[i] in t)
    ensures Sanitize(t) !in words ==> CensorStep(s, t, words) == s
    ensures Sanitize(t) in words && '*' !in t ==> !Occurs(CensorStep(s, t, words), t)
    ensures forall i :: 0 <= i < |s| && CensorStep(s, t, words)[i] != s[i] ==>
      Sanitize(t) in words && exists j :: j <= i < j + |t| && OccursAt(s, t, j)
  {
    var c := CensorWord(t, words);
    if c != t {
      ReplaceWithinOccurrences(s, t, c);
      ReplaceMasks(s, t, c, '*');
      if '*' !in t {
        ReplaceLeavesNone(s, t, c, '*');
      }
    }
  }

  /** `cur` is `orig` with some runes overwritten by `*`, and none of them
      white space or punctuation. */
  predicate Masked(orig: string, cur: string) {
    && |cur| == |orig|
    && (forall k :: 0 <= k < |orig| ==> cur[k] == orig[k] || cur[k] == '*')
    && (forall k :: 0 <= k < |orig| && (IsSpace(orig[k]) || IsPunctuation(orig[k])) ==> cur[k] == orig[k])
  }

  /** A step for a token keeps a sentence masked. */
  lemma StepKeepsMasked(orig: string, cur: string, t: string, words: set<string>)
    requires Masked(orig, cur) && IsToken(t)
    ensures Masked(orig, CensorStep(cur, t, words))
  {
    CensorStepEffect(cur, t, words);
    assert forall c :: c in t ==> !IsSpace(c) && !IsPunctuation(c);
  }

  /** The driver as a fold: the sentence after visiting `tokens` in order. */
  function CensorAll(sentence: string, tokens: seq<string>, words: set<string>): string
    decreases |tokens|
  {
    if tokens == [] then sentence
    else CensorAll(CensorStep(sentence, tokens[0], words), tokens[1..], words)
  }

  /** Visiting two lists of words one after the other is visiting their
      concatenation. */
  lemma {:induction false} CensorAllAppend(s: string, xs: seq<string>, ys: seq<string>, words: set<string>)
    ensures CensorAll(s, xs + ys, words) == CensorAll(CensorAll(s, xs, words), ys, words)
    decreases |xs|
  {
    if xs == [] {
      assert xs + ys == ys;
    } else {
      assert (xs + ys)[0] == xs[0] && (xs + ys)[1..] == xs[1..] + ys;
      CensorAllAppend(CensorStep(s, xs[0], words), xs[1..], ys, words);
    }
  }

  /** Words none of which is taboo leave the sentence as it is. */
  lemma {:induction false} CensorAllAllowed(s: string, tokens: seq<string>, words: set<string>)
    requires forall t :: t in tokens ==> Sanitize(t) !in words
    ensures CensorAll(s, tokens, words) == s
    decreases |tokens|
  {
    if tokens != [] {
      assert tokens[0] in tokens;
      CensorAllAllowed(s, tokens[1..], words);
    }
  }

  /** No taboo word among the first `n` of `ts`, unless it has `*` in it,
      occurs in `s` any more. */
  predicate Cleared(s: string, ts: seq<string>, n: nat, words: set<string>)
    requires n <= |ts|
  {
    forall j :: 0 <= j < n && Sanitize(ts[j]) in words && '*' !in ts[j] ==> !Occurs(s, ts[j])
  }

  /** A step for the next token clears that token, if taboo, and keeps every
      word cleared before it cleared: `*` written over a sentence cannot make
      a word without `*` appear. */
  lemma StepKeepsCleared(cur: string, ts: seq<string>, n: nat, words: set<string>)
    requires n < |ts| && Cleared(cur, ts, n, words) && IsToken(ts[n])
    ensures Cleared(CensorStep(cur, ts[n], words), ts, n + 1, words)
  {
    var next := CensorStep(cur, ts[n], words);
    CensorStepEffect(cur, ts[n], words);
    MaskKeepsCleared(cur, next, ts, n, words);
  }

  /** Writing `*` over some runes keeps the words cleared. */
  lemma MaskKeepsCleared(cur: string, next: string, ts: seq<string>, n: nat, words: set<string>)
    requires n < |ts| && Cleared(cur, ts, n, words)
    requires |next| == |cur|
    requires forall i :: 0 <= i < |cur| ==> next[i] == cur[i] || next[i] == '*'
    requires Sanitize(ts[n]) in words && '*' !in ts[n] ==> !Occurs(next, ts[n])
    ensures Cleared(next, ts, n + 1, words)
  {
    forall j | 0 <= j < n && Sanitize(ts[j]) in words && '*' !in ts[j]
      ensures !Occurs(next, ts[j])
    {
      MaskKeepsAbsent(cur, next, ts[j], '*');
    }
  }

  /** Cleared, stated over the words themselves rather than positions. */
  lemma ClearedMembers(s: string, ts: seq<string>, words: set<string>)
    requires Cleared(s, ts, |ts|, words)
    ensures forall t :: t in ts && Sanitize(t) in words && '*' !in t ==> !Occurs(s, t)
  {
    forall t | t in ts && Sanitize(t) in words && '*' !in t ensures !Occurs(s, t) {
      var j :| 0 <= j < |ts| && ts[j] == t;
    }
  }

  /** Every rune at which `cur` differs from `orig` lies inside an occurrence,
      in `orig`, of one of the first `n` of `ts` that is taboo. */
  predicate Explained(orig: string, cur: string, ts: seq<string>, n: nat, words: set<string>)
    requires n <= |ts|
  {
    forall p :: 0 <= p < |orig| && p < |cur| && cur[p] != orig[p] ==>
      exists k, j :: 0 <= k < n && Sanitize(ts[k]) in words && j <= p < j + |ts[k]| && OccursAt(orig, ts[k], j)
  }

  /** A step for the next token, when that token has no `*` in it, changes
      only runes inside an occurrence of it in the original sentence: `*`
      written over the sentence so far cannot make the token appear. */
  lemma StepKeepsExplained(orig: string, cur: string, ts: seq<string>, n: nat, words: set<string>)
    requires n < |ts| && IsToken(ts[n]) && '*' !in ts[n]
    requires Masked(orig, cur) && Explained(orig, cur, ts, n, words)
    ensures Explained(orig, CensorStep(cur, ts[n], words), ts, n + 1, words)
  {
    var next := CensorStep(cur, ts[n], words);
    CensorStepEffect(cur, ts[n], words);
    forall p | 0 <= p < |orig| && p < |next| && next[p] != orig[p]
      ensures exists k, j :: 0 <= k < n + 1 && Sanitize(ts[k]) in words && j <= p < j + |ts[k]| && OccursAt(orig, ts[k], j)
    {
      if cur[p] == orig[p] {
        var j :| j <= p < j + |ts[n]| && OccursAt(cur, ts[n], j);
        MaskedOccurrence(orig, cur, ts[n], '*', j);
      }
    }
  }

  /** Explained for every word of a sentence, stated over the words
      themselves rather than positions. */
  lemma ExplainedMembers(orig: string, cur: string, words: set<string>)
    requires |cur| == |orig| && Explained(orig, cur, Tokens(orig), |Tokens(orig)|, words)
    ensures forall i :: 0 <= i < |orig| && cur[i] != orig[i] ==>
      exists t, j :: t in Tokens(orig) && Sanitize(t) in words && j <= i < j + |t| && OccursAt(orig, t, j)
  {
    var ts := Tokens(orig);
    forall i | 0 <= i < |orig| && cur[i] != orig[i]
      ensures exists t, j :: t in ts && Sanitize(t) in words && j <= i < j + |t| && OccursAt(orig, t, j)
    {
      var k, j :| 0 <= k < |ts| && Sanitize(ts[k]) in words && j <= i < j + |ts[k]| && OccursAt(orig, ts[k], j);
      assert ts[k] in ts;
    }
  }

  /** One more step of the driver keeps what the loop of CensorSentence
      knows about the sentence: masked, the visited taboo words cleared, no
      change while no word was taboo, and every change explained. */
  lemma DriverStep(orig: string, cur: string, ts: seq<string>, n: nat, words: set<string>)
    requires ts == Tokens(orig) && n < |ts|
    requires Masked(orig, cur) && Cleared(cur, ts, n, words)
    requires (forall j :: 0 <= j < n ==> Sanitize(ts[j]) !in words) ==> cur == orig
    requires '*' !in orig ==> Explained(orig, cur, ts, n, words)
    ensures Masked(orig, CensorStep(cur, ts[n], words))
    ensures Cleared(CensorStep(cur, ts[n], words), ts, n + 1, words)
    ensures (forall j :: 0 <= j < n + 1 ==> Sanitize(ts[j]) !in words) ==> CensorStep(cur, ts[n], words) == orig
    ensures '*' !in orig ==> Explained(orig, CensorStep(cur, ts[n], words), ts, n + 1, words)
  {
    var t := ts[n];
    assert IsToken(t);
    if '*' !in orig {
      TokensRunes(orig, t);
      StepKeepsExplained(orig, cur, ts, n, words);
    }
    StepKeepsMasked(orig, cur, t, words);
    StepKeepsCleared(cur, ts, n, words);
    CensorStepEffect(cur, t, words);
  }

  /** A condition on every word of a list, by position. */
  lemma AllowedIndices(ts: seq<string>, words: set<string>)
    requires forall t :: t in ts ==> Sanitize(t) !in words
    ensures forall j :: 0 <= j < |ts| ==> Sanitize(ts[j]) !in words
  {
    forall j | 0 <= j < |ts| ensures Sanitize(ts[j]) !in words {
      assert ts[j] in ts;
    }
  }

  /** The driver loop of main: the words are taken once from the sentence as
      read, and each one rewrites the sentence as it now stands. */
  method CensorSentence(sentence: string, words: set<string>) returns (censored: string)
    ensures censored == CensorAll(sentence, Tokens(sentence), words)
    ensures |censored| == |sentence|
    ensures forall i :: 0 <= i < |sentence| ==> censored[i] == sentence[i] || censored[i] == '*'
    ensures forall i :: 0 <= i < |sentence| && (IsSpace(sentence[i]) || IsPunctuation(sentence[i])) ==>
                          censored[i] == sentence[i]
    ensures forall t :: t in Tokens(sentence) && Sanitize(t) in words && '*' !in t ==>
                          !Occurs(censored, t)
    ensures (forall t :: t in Tokens(sentence) ==> Sanitize(t) !in words) ==> censored == sentence
    ensures '*' !in sentence ==> forall i :: 0 <= i < |sentence| && censored[i] != sentence[i] ==>
      exists t, j :: t in Tokens(sentence) && Sanitize(t) in words && j <= i < j + |t| && OccursAt(sentence, t, j)
  {
    var tokens := Tokens(sentence);
    censored := sentence;
    for i := 0 to |tokens|
      invariant CensorAll(censored, tokens[i..], words) == CensorAll(sentence, tokens, words)
      invariant Masked(sentence, censored)
      invariant Cleared(censored, tokens, i, words)
      invariant (forall j :: 0 <= j < i ==> Sanitize(tokens[j]) !in words) ==> censored == sentence
      invariant '*' !in sentence ==> Explained(sentence, censored, tokens, i, words)
    {
      var word := tokens[i];
      assert tokens[i..][0] == word && tokens[i..][1..] == tokens[i + 1..];
      DriverStep(sentence, censored, tokens, i, words);
      censored := CensorStep(censored, word, words);
    }
    ClearedMembers(censored, tokens, words);
    if '*' !in sentence {
      ExplainedMembers(sentence, censored, words);
    }
    if forall t :: t in tokens ==> Sanitize(t) !in words {
      AllowedIndices(tokens, words);
    }
  }
}
