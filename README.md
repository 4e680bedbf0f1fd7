# Unique words per speaker, modelled in Dafny

The system is a two-stage MapReduce job over a movie script. Each input
line has the form `CHARACTER: dialogue`.

- **Mapper.** `UniqueWordsMapper.map` trims a line. It skips the line when
  it is empty or has no colon. Otherwise it cuts the line at the first
  colon, trims the left part to get the speaker key, and trims and
  lower-cases the right part. It then splits that part into
  whitespace-delimited tokens, strips every non-letter from each token,
  drops the tokens that come out empty, and writes one `(speaker, word)`
  pair for each distinct word of the line.
- **Reducer.** `UniqueWordsReducer.reduce` receives a speaker and all the
  words written for that speaker. It collects them into a set and writes
  the speaker with the set rendered as `[w1, w2, ..., wn]`.

The model has four modules:

- `JavaText`: the Java library behaviour the mapper relies on.
  - `String.trim`, which removes characters up to U+0020 from both ends.
  - ASCII lower-casing.
  - The `[^a-zA-Z]` filter.
  - The default `StringTokenizer`, which splits on space, tab, newline,
    carriage return and form feed.
  - `split(":", 2)`, which cuts at the first colon and keeps empty parts.
- `UniqueWordsMapper`: the mapper.
  - `ParseLine` and `LineWords` specify what a line yields.
  - The class `Mapper` keeps the two reused holders `character` and `word`
    as fields.
  - Its method `Map` runs the source's two loops: `CollectWords` holds the
    tokenizer loop and `WriteWords` holds the write loop.
  - The order in which a `HashSet` hands out its elements is unspecified.
    It is modelled by picking an arbitrary remaining element.
- `UniqueWordsReducer`: the reducer.
  - `Reduce` has the same two loops as the source: the set is built
    first, then the appended list.
  - It then applies the same truncation and the closing bracket.
  - The result is specified as `Render(order)` for some duplicate-free
    listing `order` of the value set.
- `ScriptJob`: a sequential in-memory run of the whole job.
  - One mapper instance handles all the lines.
  - The pairs are grouped by key, as a stand-in for the framework's
    shuffle.
  - There is one reduce per key.
  - It also proves that words are merged across lines of the same speaker.

## Model

Paths are relative to the repository root.

| member | source | states |
|---|---|---|
| JavaText.Trim | src/main/java/com/movie/script/analysis/UniqueWordsMapper.java:17 | the trimmed text is no longer than the input, and is empty or starts and ends with a character above U+0020 |
| JavaText.TrimSplit | src/main/java/com/movie/script/analysis/UniqueWordsMapper.java:17 | a text is its blank prefix, then its trimmed core, then its blank suffix; nothing but characters up to U+0020 is removed |
| JavaText.TrimOf | src/main/java/com/movie/script/analysis/UniqueWordsMapper.java:22-23 | trimming blank padding around an already trimmed text gives exactly that text |
| JavaText.TrimIdempotent | src/main/java/com/movie/script/analysis/UniqueWordsMapper.java:17-23 | trimming twice is the same as trimming once |
| JavaText.TrimCharsFromText | src/main/java/com/movie/script/analysis/UniqueWordsMapper.java:17-19 | trimming adds no character, so a colon in the trimmed line was in the raw line |
| JavaText.LowerChar | src/main/java/com/movie/script/analysis/UniqueWordsMapper.java:23 | an upper-case ASCII letter becomes its lower-case letter, 32 code points up; every other character is unchanged; the result is never upper case |
| JavaText.ToLower | src/main/java/com/movie/script/analysis/UniqueWordsMapper.java:23 | lower-casing keeps the length and maps every character on its own |
| JavaText.ToLowerIdempotent | src/main/java/com/movie/script/analysis/UniqueWordsMapper.java:23 | lower-casing twice is the same as once |
| JavaText.TrimToLower | src/main/java/com/movie/script/analysis/UniqueWordsMapper.java:23 | trimming and lower-casing commute |
| JavaText.LettersOnly | src/main/java/com/movie/script/analysis/UniqueWordsMapper.java:28 | the cleaned token holds exactly the ASCII letters of the token and is no longer than it |
| JavaText.LettersOnlyEmpty | src/main/java/com/movie/script/analysis/UniqueWordsMapper.java:28-29 | the cleaned token is empty exactly when the token holds no ASCII letter |
| JavaText.LettersOnlyIdentity | src/main/java/com/movie/script/analysis/UniqueWordsMapper.java:28 | a token made only of letters is kept unchanged |
| JavaText.LettersOnlyAppend | src/main/java/com/movie/script/analysis/UniqueWordsMapper.java:28 | the filter works character by character: cleaning a concatenation concatenates the cleaned parts |
| JavaText.LeadingToken | src/main/java/com/movie/script/analysis/UniqueWordsMapper.java:26-28 | the first token is the longest delimiter-free prefix: it is followed by a delimiter or by the end of the text |
| JavaText.Tokens | src/main/java/com/movie/script/analysis/UniqueWordsMapper.java:26-28 | every token is non-empty and free of the five delimiters, and there are at most as many tokens as characters; `TokensOfDelimited` and `TokensOfBlank` pin where the splits fall |
| JavaText.TokensOfDelimited | src/main/java/com/movie/script/analysis/UniqueWordsMapper.java:26-28 | tokens are the maximal delimiter-free runs: any run of delimiters before a token is skipped, and the token ends exactly at the next delimiter or at the end |
| JavaText.TokensOfBlank | src/main/java/com/movie/script/analysis/UniqueWordsMapper.java:26-27 | a text made only of delimiters, the empty text included, has no token |
| JavaText.TokensAtEveryDelimiter | src/main/java/com/movie/script/analysis/UniqueWordsMapper.java:26-28 | a tab, or two spaces, separate `a` from `b` just as one space does |
| JavaText.TokensOfJoinSpaced | src/main/java/com/movie/script/analysis/UniqueWordsMapper.java:26-28 | round trip: tokenising non-empty delimiter-free words joined by single spaces gives the words back |
| JavaText.TokensLoseOnlyDelimiters | src/main/java/com/movie/script/analysis/UniqueWordsMapper.java:26-28 | the tokens together hold exactly the text's non-delimiter characters, in order; nothing else is lost |
| JavaText.TokenCharsFromText | src/main/java/com/movie/script/analysis/UniqueWordsMapper.java:26-28 | every character of a token occurs in the tokenised text |
| JavaText.IndexOf | src/main/java/com/movie/script/analysis/UniqueWordsMapper.java:19-20 | the result is -1 exactly when the character is absent; otherwise it is the position of the first occurrence |
| JavaText.SplitFirst | src/main/java/com/movie/script/analysis/UniqueWordsMapper.java:20-21 | with a colon present there are always two parts, joined back by that colon, and the first part has no colon; without one, a single part, the whole text |
| JavaText.SplitFirstOf | src/main/java/com/movie/script/analysis/UniqueWordsMapper.java:20 | the cut is at the first colon: later colons stay in the second part, and either part may be empty |
| UniqueWordsMapper.ParseLine | src/main/java/com/movie/script/analysis/UniqueWordsMapper.java:17-23 | trim the line, skip it when empty or colon-free, cut at the first colon, trim the key, and trim then lower-case the dialogue; it has no ensures of its own and is pinned down by `ParseLineOf` (the kept case) and `SkippedIffNoColon` (the skipped case) |
| UniqueWordsMapper.WordsOf | src/main/java/com/movie/script/analysis/UniqueWordsMapper.java:25-32 | the per-line `HashSet` filled by the tokenizer loop; it has no ensures of its own and is pinned down by `WordsOfExactly` (a word is in it exactly when it is the non-empty cleaned form of a token) and computed by `CollectWords` |
| UniqueWordsMapper.LineWords | src/main/java/com/movie/script/analysis/UniqueWordsMapper.java:25-32 | the words of a line: none for a skipped line, otherwise the words of the dialogue's tokens; it has no ensures of its own and is pinned down by `WordsOfExactly`, `SkippedIffNoColon` and `LineWordsAreLowerWords` |
| UniqueWordsMapper.SkippedIffNoColon | src/main/java/com/movie/script/analysis/UniqueWordsMapper.java:17-19 | a line is skipped exactly when it has no colon, which covers empty and blank lines, and then it yields no word |
| UniqueWordsMapper.ParseLineOf | src/main/java/com/movie/script/analysis/UniqueWordsMapper.java:17-23 | for a line `before:after` with a colon-free `before`, the key is `before` trimmed with its case kept, and the dialogue is `after` trimmed and lower-cased |
| UniqueWordsMapper.TrimColonLine | src/main/java/com/movie/script/analysis/UniqueWordsMapper.java:17-20 | trimming the whole line trims only the outer ends of the two sides |
| UniqueWordsMapper.CollectWords | src/main/java/com/movie/script/analysis/UniqueWordsMapper.java:25-32 | the tokenizer loop ends with exactly the set of non-empty cleaned tokens |
| UniqueWordsMapper.WordsOfExactly | src/main/java/com/movie/script/analysis/UniqueWordsMapper.java:26-32 | a word is collected exactly when it is non-empty and is the cleaned form of some token; nothing added, nothing lost |
| UniqueWordsMapper.WordsOfBound | src/main/java/com/movie/script/analysis/UniqueWordsMapper.java:26-32 | there are no more words than tokens |
| UniqueWordsMapper.WordsOfNoLetterToken | src/main/java/com/movie/script/analysis/UniqueWordsMapper.java:28-29 | a token without letters, such as `123` or `!!`, adds no word |
| UniqueWordsMapper.WordOfText | src/main/java/com/movie/script/analysis/UniqueWordsMapper.java:26-30 | every collected word is a non-empty run of ASCII letters, each taken from the dialogue |
| UniqueWordsMapper.DialogueIsLowerCase | src/main/java/com/movie/script/analysis/UniqueWordsMapper.java:23 | the dialogue of a kept line has no upper-case letter |
| UniqueWordsMapper.LineWordsAreLowerWords | src/main/java/com/movie/script/analysis/UniqueWordsMapper.java:23-30 | every word a line yields is non-empty and all lower-case ASCII letters |
| UniqueWordsMapper.LineWordsBound | src/main/java/com/movie/script/analysis/UniqueWordsMapper.java:26-34 | a line yields at most as many words as its dialogue has tokens |
| UniqueWordsMapper.EmittedCount | src/main/java/com/movie/script/analysis/UniqueWordsMapper.java:34-36 | pairs whose words are pairwise distinct carry exactly as many words as there are pairs |
| UniqueWordsMapper.EmittedBound | src/main/java/com/movie/script/analysis/UniqueWordsMapper.java:26-36 | a valid output writes exactly one pair per word of the line: none for a skipped line, and at most one per token of the dialogue for a kept line |
| UniqueWordsMapper.NoLetterNoWord | src/main/java/com/movie/script/analysis/UniqueWordsMapper.java:26-30 | a text without letters yields no word |
| UniqueWordsMapper.NoLetterDialogue | src/main/java/com/movie/script/analysis/UniqueWordsMapper.java:20-30 | a line whose text after the colon holds no letter yields no word; this covers an empty or blank dialogue such as `Alice:` |
| UniqueWordsMapper.CaseInsensitiveWords | src/main/java/com/movie/script/analysis/UniqueWordsMapper.java:23 | lower-casing the dialogue beforehand changes neither the key nor the words, so `Hi`, `HI` and `hi` are one word |
| UniqueWordsMapper.LineOfWords | src/main/java/com/movie/script/analysis/UniqueWordsMapper.java:17-32 | for `c: w1 ... wn` with a trimmed colon-free key and clean lower-case words, the key is `c` and the words are exactly `w1 ... wn` |
| UniqueWordsMapper.Mapper.constructor | src/main/java/com/movie/script/analysis/UniqueWordsMapper.java:12-13 | both reusable holders start empty |
| UniqueWordsMapper.Mapper.Map | src/main/java/com/movie/script/analysis/UniqueWordsMapper.java:16-40 | a skipped line writes nothing and leaves `character` alone; a kept line sets `character` to its key; every written pair carries that key; the written words are exactly the line's words, none twice; `word` holds the last word written |
| UniqueWordsMapper.Mapper.WriteWords | src/main/java/com/movie/script/analysis/UniqueWordsMapper.java:34-37 | one pair per word of the set, in some order, none twice, all with the current key; `word` ends on the last one |
| UniqueWordsReducer.ValueSet | src/main/java/com/movie/script/analysis/UniqueWordsReducer.java:14-18 | the accumulated set holds exactly the input values and is no larger than their number |
| UniqueWordsReducer.ValueSetIgnoresOrderAndRepeats | src/main/java/com/movie/script/analysis/UniqueWordsReducer.java:14-18 | value sequences with the same elements, in any order and with any repeats, give the same set |
| UniqueWordsReducer.Render | src/main/java/com/movie/script/analysis/UniqueWordsReducer.java:21-30 | the output starts with `[` and ends with `]`, holds the joined words between them, and is exactly `[]` for no words |
| UniqueWordsReducer.Reduce | src/main/java/com/movie/script/analysis/UniqueWordsReducer.java:12-33 | the key goes out unchanged; the value is the rendering of a listing of the input's distinct values that holds each of them exactly once |
| UniqueWordsReducer.Join | src/main/java/com/movie/script/analysis/UniqueWordsReducer.java:21-28 | the builder's final contents between the brackets: the words with `, ` between neighbours; it has no ensures of its own and is pinned down by `SplitJoin` (it reads back as the words) and `SeparatorCount` (n-1 separators) |
| UniqueWordsReducer.Appended | src/main/java/com/movie/script/analysis/UniqueWordsReducer.java:21-24 | the builder's contents after `[` once the append loop is done: every word followed by `, `; it has no ensures of its own and is pinned down by `AppendedIsJoined` |
| UniqueWordsReducer.AppendedIsJoined | src/main/java/com/movie/script/analysis/UniqueWordsReducer.java:22-28 | after at least one append the builder holds the joined words plus one trailing `, `, which is what the truncation removes |
| UniqueWordsReducer.RenderOfBuilder | src/main/java/com/movie/script/analysis/UniqueWordsReducer.java:27-30 | the length guard, the truncation and the final `]` give the rendering; with no words only `[` is there, nothing is cut, and the result is `[]` |
| UniqueWordsReducer.RenderEndsWithLastWord | src/main/java/com/movie/script/analysis/UniqueWordsReducer.java:22-30 | a non-empty rendering ends with the last word and `]`, with no separator trailing before the bracket |
| UniqueWordsReducer.SeparatorCount | src/main/java/com/movie/script/analysis/UniqueWordsReducer.java:22-30 | for comma-free words, n words carry exactly n-1 separators |
| UniqueWordsReducer.SplitJoin | src/main/java/com/movie/script/analysis/UniqueWordsReducer.java:22-29 | round trip: splitting the joined list at `, ` gives back the non-empty comma-free words |
| UniqueWordsReducer.ElementsOfRender | src/main/java/com/movie/script/analysis/UniqueWordsReducer.java:21-30 | for non-empty, comma-free values (every word the mapper writes is one), reading the elements back from a rendering gives the listing it was made from |
| UniqueWordsReducer.NoDuplicatesCount | src/main/java/com/movie/script/analysis/UniqueWordsReducer.java:14-23 | a word in a listing without repeats occurs exactly once in it |
| UniqueWordsReducer.ReduceListsEachValueOnce | src/main/java/com/movie/script/analysis/UniqueWordsReducer.java:14-23 | for non-empty, comma-free values (every word the mapper writes is one), each distinct input value occurs exactly once among the rendered elements, and nothing else occurs |
| ScriptJob.EmittedPairs | src/main/java/com/movie/script/analysis/UniqueWordsMapper.java:34-37 | a valid mapper output for a line holds exactly that line's (key, word) pairs |
| ScriptJob.ValuesForExactly | src/main/java/com/movie/script/analysis/UniqueWordsReducer.java:12-17 | the values handed to the reducer for a key are exactly the words written with that key |
| ScriptJob.RunJob | src/main/java/com/movie/script/analysis/UniqueWordsReducer.java:12-33 | the output has an entry exactly for each speaker with at least one word; each entry renders all of that speaker's words across the script, each once |
| ScriptJob.ReduceAll | src/main/java/com/movie/script/analysis/UniqueWordsReducer.java:12-33 | one reduce per written key gives an entry exactly for each key with words, holding each of the key's words once |
| ScriptJob.CharacterWordsStep | src/main/java/com/movie/script/analysis/UniqueWordsMapper.java:22-36 | a further line adds its words to its own speaker and to nobody else |
| ScriptJob.SameSpeakerTwice | src/main/java/com/movie/script/analysis/UniqueWordsReducer.java:14-18 | two lines of one speaker give that speaker the union of their words |
| ScriptJob.AliceSaysHelloTwice | src/main/java/com/movie/script/analysis/UniqueWordsReducer.java:14-18 | `Alice: hello world` and `Alice: hello there` give Alice exactly `hello`, `world` and `there`, with `hello` once |

## Left out

- Hadoop types and plumbing are not modelled.
  - `Mapper`, `Reducer`, `Context`, `Text`, `IOException` and
    `InterruptedException` are left out.
  - Each `context.write` becomes an element of a returned sequence.
  - The reused `Text` holders are string fields.
- The mapper's input key (the line's byte offset) is unused by the source
  and is not a parameter.
- The distributed shuffle, sort and grouping, and all parallelism, are not
  modelled. `ScriptJob` stands in for them with a sequential grouping in
  which a key's values come in the order they were written.
- `HashSet` hashing and iteration order are not modelled. Every loop over
  a set picks an arbitrary remaining element, and contracts hold for every
  such order.
- `toLowerCase` is ASCII only. Non-ASCII letters, locale rules and
  characters whose lower case has a different length are not modelled.
  The visible effect: Java turns U+212A KELVIN SIGN into ASCII `k`, and
  U+0130 into `i` followed by U+0307, whose `i` survives the letter
  filter. On such input the source writes words the model does not.
  In the other direction, `toLowerCase()` follows the default locale:
  under a Turkish or Azerbaijani locale ASCII `I` becomes U+0131, which
  the letter filter then strips. So `I` yields no word and `IT` yields
  `t`, where the model yields `i` and `it`: on such a machine the source
  loses words the model keeps.
- The `[^a-zA-Z]` regular expression is modelled as a per-character
  filter. The regex engine itself is not modelled.
- Text encoding is not modelled.
  - Java strings are UTF-16 code units; a Dafny `char` is a Unicode
    scalar value.
  - The UTF-8 decoding of `Text`, including its handling of malformed
    bytes, is left out.
  - `StringBuilder.length` counts UTF-16 units. The model counts
    characters. The truncation always removes the two ASCII characters
    of `, `, so the two agree.
- `StringTokenizer` is modelled as the pure function `JavaText.Tokens`.
  The `hasMoreTokens`/`nextToken` loop becomes a loop over its result, and
  the tokenizer object's own state is not modelled.
- The `StringBuilder` is a local string that the method reassigns, not a
  mutable buffer.
- The job driver, its configuration and file input and output are not
  part of this model.
