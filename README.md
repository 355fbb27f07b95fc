# Obscene-vocabulary checker: the censoring core

This project models, in Dafny, the word-censoring logic of a small Go
command-line filter (`main.go`). The program loads a list of taboo words.
It then reads sentences and prints each one back with every taboo word
replaced by as many `*` as the word has runes.

The model covers these parts of `main.go`:

- `sanitize` becomes `Censor.Sanitize`. It lower-cases a word, then trims
  the white space around it.
- `getWords` becomes the method `Censor.GetWords`. It runs over the lines
  that the file scanner would deliver and builds the taboo set, with a
  loop and its invariant.
- `censorWord` becomes `Censor.CensorWord`.
- `iterSentence` becomes `Censor.Tokens`. It deletes `,` `.` `;` from a
  copy of the sentence, then splits that copy into fields.
- The driver loop of `main` (main.go:78-81) becomes the method
  `Censor.CensorSentence`. It takes the word list once, from the sentence
  as read. Then, for each word in order, it rewrites the sentence as it
  now stands with `strings.ReplaceAll`. The function `Censor.CensorAll`
  states the same fold, so that lemmas can use it.

The Go library calls the core relies on are modelled in module `GoStrings`.
These are `unicode.IsSpace`, `strings.ToLower`, `strings.TrimSpace`,
`strings.Fields`, `strings.Repeat` and `strings.ReplaceAll`. Strings are
sequences of runes (`seq<char>`), so `utf8.RuneCountInString` is the
sequence length. The taboo `map[string]bool` only ever holds `true`, so it
is a `set<string>`.

Behaviours of the code that the model keeps, each shown by a worked
example in `censor_examples.dfy`:

- Punctuation is deleted only from the copy used to find the words.
  With the taboo word `world`, the driver rewrites the sentence
  `Hello, world.` to `Hello, *****.`, punctuation included.
- Deletion happens before splitting. So `end.End` yields the single word
  `endEnd`. That word is taboo under `endend`, but it does not occur in
  the sentence, so nothing is censored.
- Matching ignores case, but replacing is by literal text. `fool and FOOL`
  is censored in two steps, one per spelling.
- Replacing is by text, not by word. With `fool` taboo, `fool foolish`
  becomes `**** ****ish`.

## Model

| member | source | states |
|---|---|---|
| GoStrings.IsSpace | main.go:32 | the white space that TrimSpace and Fields drop: the runes with Unicode's White_Space property; its Latin-1 part is stated by GoStrings.IsSpaceLatin1 |
| GoStrings.IsSpaceLatin1 | main.go:32 | among the Latin-1 runes, white space is exactly tab, line feed, vertical tab, form feed, carriage return, space, next line and no-break space |
| GoStrings.LowerRune | main.go:32 | the lowered rune is never an upper-case letter, is white space exactly when the input is, and is the input itself when that is not upper case |
| GoStrings.ToLower | main.go:32 | lower-casing keeps the rune count, leaves no upper-case letter, and keeps every white-space position as white space |
| GoStrings.ToLowerRunes | main.go:32 | no rune of a lower-cased string is an upper-case letter |
| GoStrings.ToLowerOfLower | main.go:32 | a string without upper-case letters is its own lower-case form |
| GoStrings.LeadingSpace | main.go:32 | the count of leading runes that TrimSpace drops: all of them are white space, and a non-space rune or the end of the string follows them |
| GoStrings.TrailingSpace | main.go:32 | the count of trailing runes that TrimSpace drops: all of them are white space, and a non-space rune or the start of the string precedes them |
| GoStrings.TrimLeft | main.go:32 | what is left is a suffix of the input with only white space before it, and it is empty or starts with a non-space rune |
| GoStrings.TrimRight | main.go:32 | what is left is a prefix of the input with only white space after it, and it is empty or ends with a non-space rune |
| GoStrings.TrimSpace | main.go:32 | the trimmed string is empty or has non-space runes at both ends |
| GoStrings.TrimSpaceInfix | main.go:32 | the input is white space, then what TrimSpace keeps, then white space: nothing but white space is dropped, and the order is kept |
| GoStrings.TrimSpaceRunes | main.go:32 | every rune that TrimSpace keeps is a rune of its input |
| GoStrings.TrimSpaceOfNoSpace | main.go:32 | a string with no white space is not changed by trimming |
| GoStrings.TrimSpaceOfTrimmed | main.go:32 | trimming a string that already has non-space runes at both ends changes nothing |
| GoStrings.RunLength | main.go:60 | the leading run of non-space runes: no white space inside, and white space or the end right after it |
| GoStrings.Fields | main.go:60 | every field is non-empty and holds no white space |
| GoStrings.FieldsRunes | main.go:60 | every rune of every field comes from the input |
| GoStrings.FieldsConcat | main.go:60 | the fields, glued together in order, are the input with its white space deleted |
| GoStrings.FieldsOfWord | main.go:60 | a non-empty word without white space is its own only field |
| GoStrings.FieldsOfWordThenSpace | main.go:60 | a word followed by white space is the first field, and splitting goes on after that white-space rune |
| GoStrings.FieldsOfJoin | main.go:60 | Fields is the inverse of joining non-empty, space-free words with single spaces |
| GoStrings.Repeat | main.go:53 | repeating a one-rune string `count` times gives `count` copies of that rune |
| GoStrings.ReplaceAll | main.go:80 | strings.ReplaceAll with its early return when old equals new: the result equals that of the replacement without the shortcut, inserting around every rune for an empty old text and scanning leftmost-first otherwise |
| GoStrings.ReplaceLeftmost | main.go:80 | the leftmost-first, non-overlapping scan for a non-empty old text; its behaviour is stated by ReplaceLeftmostSkip, ReplaceLeftmostHit, ReplaceMasks, ReplaceWithinOccurrences and ReplaceLeavesNone |
| GoStrings.InsertAround | main.go:80 | ReplaceAll with an empty old text; its length and layout are stated by InsertAroundLength and InsertAroundLayout |
| GoStrings.InsertAroundNothing | main.go:80 | inserting the empty text around every rune changes nothing, so the early return is only a shortcut when both texts are empty |
| GoStrings.ReplaceLeftmostSelf | main.go:80 | replacing a non-empty text by itself changes nothing, so the early return of strings.ReplaceAll when old equals new is only a shortcut |
| GoStrings.ReplaceAllAbsent | main.go:80 | a sentence in which the word does not occur comes back unchanged |
| GoStrings.ReplaceMasks | main.go:80 | replacing a word by a same-length run of one rune keeps the length; each rune either stays or becomes that rune, and only where the original rune occurs in the word |
| GoStrings.ReplaceWithinOccurrences | main.go:80 | replacing a word by a text of the same length keeps the length, and every rune that changes lies inside an occurrence of the word in the input |
| GoStrings.MaskedOccurrence | main.go:78-81 | an occurrence of a word without `*` in a copy of the sentence with some runes overwritten by `*` is an occurrence in the sentence itself |
| GoStrings.ReplaceLeavesNone | main.go:80 | when the replacement rune is not in the word, no occurrence of the word is left afterwards |
| GoStrings.MaskKeepsAbsent | main.go:78-81 | overwriting runes with `*` cannot create an occurrence of a word without `*` |
| GoStrings.ReplaceLeftmostSkip | main.go:80 | the replacement scan moves past a rune that cannot start the word |
| GoStrings.ReplaceLeftmostSkipAll | main.go:80 | the replacement scan moves past a stretch in which the word cannot start |
| GoStrings.ReplaceLeftmostHit | main.go:80 | the replacement scan replaces an occurrence at its current position and goes on after it |
| GoStrings.InsertAroundLength | main.go:80 | with an empty old text the result has the input's runes plus one copy of the new text per rune and one more |
| GoStrings.InsertAroundLayout | main.go:80 | with an empty old text, cutting the result into blocks one rune longer than the new text, each block is the new text followed by the next rune of the input, and the last block is the new text alone |
| Censor.Sanitize | main.go:31-33 | the sanitized word has no white space at either end |
| Censor.SanitizeIdempotent | main.go:31-33 | sanitizing twice is sanitizing once, so taboo entries and words are compared in the same normal form |
| Censor.SanitizeIgnoresCase | main.go:31-33 | two words with the same lower-case form have the same sanitized form |
| Censor.SanitizeKeepsWord | main.go:31-33 | a word without white space sanitizes to its lower-case form and keeps its rune count |
| Censor.SanitizeOfCanonical | main.go:31-33 | a lower-case word without white space is its own sanitized form |
| Censor.GetWords | main.go:36-44 | the taboo set is exactly the set of sanitized lines; a blank line puts in the empty string |
| Censor.CensorWord | main.go:48-54 | the result has the rune count of the original word; a word whose sanitized form is not taboo comes back unchanged; a taboo one comes back as `*` only |
| Censor.CensoredAlike | main.go:48-49 | two words with the same sanitized form are both left alone or both taboo, and equally long taboo ones censor to the same stars |
| Censor.IsPunctuation | main.go:59 | the three runes the replacer deletes, `,` `.` `;`; what the deletion does is stated by Censor.StripPunctuationCons |
| Censor.StripPunctuation | main.go:59-60 | the copy has no `,` `.` `;` and is no longer than the sentence |
| Censor.StripPunctuationRunes | main.go:59-60 | every rune of the copy is a rune of the sentence |
| Censor.StripPunctuationOfClean | main.go:59-60 | a sentence without `,` `.` `;` is copied unchanged |
| Censor.StripPunctuationCons | main.go:59-60 | a leading `,` `.` `;` is deleted and any other leading rune is kept, in front of the copy of the rest |
| Censor.StripPunctuationAppend | main.go:59-60 | deleting punctuation works piece by piece, so order is kept |
| Censor.Tokens | main.go:58-63 | every word visited is non-empty and holds neither white space nor `,` `.` `;` |
| Censor.TokensRunes | main.go:58-63 | every rune of a visited word is a rune of the sentence |
| Censor.TokensConcat | main.go:58-63 | the visited words, glued together in order, are the sentence with its punctuation and white space deleted |
| Censor.EmptyEntryNeverMatches | main.go:40 | the empty string that a blank taboo line inserts never equals the sanitized form of a visited word |
| Censor.CensorStep | main.go:79-80 | one call of the visitor: the sentence with every occurrence of the word replaced by the word's censored form; stated by Censor.CensorStepEffect |
| Censor.CensorStepEffect | main.go:79-80 | one step keeps the sentence's length; each rune stays or becomes `*` where the original rune occurs in the word; a rune changes only inside an occurrence of a taboo word; a step for an allowed word is a no-op; a step for a taboo word without `*` leaves no occurrence of it |
| Censor.StepKeepsMasked | main.go:79-80 | a step keeps the sentence equal to the original except for `*`, and never touches white space or punctuation |
| Censor.StepKeepsCleared | main.go:78-81 | after the step for the next word, no taboo word without `*` that has been visited, this one included, occurs in the sentence |
| Censor.MaskKeepsCleared | main.go:78-81 | writing `*` over some runes of the sentence keeps every visited taboo word without `*` absent |
| Censor.StepKeepsExplained | main.go:78-81 | after the step for the next word, when that word has no `*`, every rune that differs from the sentence as read still lies inside an occurrence, in that sentence, of a visited taboo word |
| Censor.CensorAll | main.go:78-81 | the driver as a fold over the visited words, each step applied to the sentence as it now stands; stated by Censor.CensorAllAppend, Censor.CensorAllAllowed and Censor.CensorSentence |
| Censor.CensorAllAppend | main.go:78-81 | visiting two word lists one after the other is visiting their concatenation |
| Censor.CensorAllAllowed | main.go:78-81 | visiting only allowed words leaves the sentence as it is |
| Censor.CensorSentence | main.go:78-81 | the words are taken once from the sentence as read; the output has the sentence's length; each rune is the original or `*`; white space and `,` `.` `;` are never changed; no taboo word without `*` is left in the output; a sentence with no taboo word comes back unchanged; when the sentence has no `*`, every changed rune lies inside an occurrence, in the sentence as read, of a visited taboo word |
| CensorExamples.HelloWorldTokens | main.go:58-63 | `Hello, world.` visits the words `Hello` and `world` |
| CensorExamples.HelloWorldCensored | main.go:78-81 | `Hello, world.` with taboo `world` becomes `Hello, *****.`, punctuation kept |
| CensorExamples.EndEndUncensored | main.go:59-60 | `end.End` visits the single word `endEnd`; it is taboo under `endend` but is not found in the sentence, so the sentence is unchanged |
| CensorExamples.FoolCensored | main.go:78-81 | `fool and FOOL` with taboo `fool` becomes `**** and ****` |
| CensorExamples.FoolishCensored | main.go:78-81 | `fool foolish` with taboo `fool` becomes `**** ****ish`: the taboo text inside a longer allowed word is starred too |

## Left out

- `getFilename` and `iterFileLines` (main.go:12-27) read a file name from
  standard input and scan the file line by line. This is I/O, so
  `Censor.GetWords` takes the lines as a sequence. The source ignores the
  error from `os.Open`. A file that cannot be opened therefore gives no
  lines, which is `GetWords([])`, the empty set.
- The interactive loop of `main` is left out because it is I/O: reading
  with `fmt.Scanln`, the raw `exit` check, `fmt.Println` and the `Bye!`
  farewell. `Censor.CensorSentence` takes the sentence as a parameter and
  accepts any string. `fmt.Scanln` into a single string stores one
  space-delimited word, so in the running program the sentence usually has
  no white space. The model does not rely on that.
- GoStrings.LowerRune: models `unicode.ToLower` only for the Basic Latin
  and Latin-1 upper-case letters. Other runes, such as Greek or Cyrillic
  capitals, are left unchanged, because the full Unicode case tables are
  library data. Every property proved here holds for any idempotent
  rune-to-rune lowering that keeps white space as white space; the worked
  examples use the ASCII mapping.
- UTF-8 encoding is not modelled. Strings are sequences of Unicode scalar
  values, so byte strings that are not valid UTF-8 are outside the model.
- GoStrings.Repeat: does not model the panic of `strings.Repeat` when the
  result length would overflow an `int`. Here the count is a rune count
  of an existing string, so it cannot overflow.
- Censor.CensorSentence: the promise that no taboo word is left covers
  only words without `*`. A taboo word made of `*`, such as `**`, is
  replaced by itself and stays in the output.
  The promise that every changed rune lies inside an occurrence of a taboo
  word in the sentence as read covers only sentences without `*`. A `*`
  already in the sentence can join the stars of an earlier step into a new
  occurrence of a later word: with `ab` and `*b` taboo, `ab abb *b` becomes
  `** *** **`, and the last `b` of `abb` lies in no occurrence of either
  word in the sentence as read.
