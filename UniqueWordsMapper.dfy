/** Stage 1 of the job: one raw script line of the form
    `CHARACTER: dialogue text` becomes one (character, word) pair per distinct
    cleaned word of the dialogue.  Modelled on UniqueWordsMapper.map. */
module UniqueWordsMapper {
  import opened JavaText

  /** What the mapper makes of a raw line before tokenising: either the line
      is skipped, or it yields the character key (trimmed, case kept) and the
      dialogue (trimmed, then lower-cased). */
  datatype Parsed = Skipped | Dialogue(character: string, dialogue: string)

  /** Trim the line, reject it when empty or colon-free, cut it at the first
      colon, trim the key, trim and lower-case the dialogue. */
  function ParseLine(value: string): Parsed
  {
    var line := Trim(value);
    if line == [] || ':' !in line then Skipped
    else
      var parts := SplitFirst(line, ':');
      if |parts| != 2 then Skipped
      else Dialogue(Trim(parts[0]), ToLower(Trim(parts[1])))
  }

  /** The cleaned, non-empty forms of `tokens`, gathered into a set one token
      at a time, as the tokenizer loop fills its `HashSet`. */
  function WordsOf(tokens: seq<string>): set<string>
  {
    if tokens == [] then {}
    else
      var cleaned := LettersOnly(tokens[|tokens| - 1]);
      WordsOf(tokens[..|tokens| - 1]) + (if cleaned == [] then {} else {cleaned})
  }

  /** The set of words the mapper emits for `value`. */
  function LineWords(value: string): set<string>
  {
    match ParseLine(value)
    case Skipped => {}
    case Dialogue(_, dialogue) => WordsOf(Tokens(dialogue))
  }

  /** The words carried by a sequence of emitted pairs. */
  function EmittedWords(emitted: seq<(string, string)>): set<string>
  {
    set p | p in emitted :: p.1
  }

  /** The word of the last pair written, or `otherwise` when none was. */
  function LastWord(emitted: seq<(string, string)>, otherwise: string): string
  {
    if emitted == [] then otherwise else emitted[|emitted| - 1].1
  }

  predicate NoWordTwice(emitted: seq<(string, string)>) {
    forall i, j :: 0 <= i < j < |emitted| ==> emitted[i].1 != emitted[j].1
  }

  /** `emitted` is a valid output of the mapper for `value`: all pairs carry
      the line's key, every word of the line appears, nothing else does, and
      no word appears twice (in whatever order the set hands them out). */
  predicate Emits(value: string, emitted: seq<(string, string)>) {
    && (ParseLine(value).Skipped? ==> emitted == [])
    && (ParseLine(value).Dialogue? ==>
          forall k :: 0 <= k < |emitted| ==> emitted[k].0 == ParseLine(value).character)
    && EmittedWords(emitted) == LineWords(value)
    && NoWordTwice(emitted)
  }

  /** The tokenizer loop: cleans every token and keeps the non-empty results
      in a set. */
  method CollectWords(tokens: seq<string>) returns (uniqueWords: set<string>)
    ensures uniqueWords == WordsOf(tokens)
  {
    uniqueWords := {};
    var i := 0;
    while i < |tokens|
      invariant 0 <= i <= |tokens|
      invariant uniqueWords == WordsOf(tokens[..i])
    {
      var cleanedWord := LettersOnly(tokens[i]);
      if cleanedWord != [] {
        uniqueWords := uniqueWords + {cleanedWord};
      }
      assert tokens[..i + 1][..i] == tokens[..i];
      i := i + 1;
    }
    assert tokens[..i] == tokens;
  }

  /** The mapper object.  Like the source, it keeps one `character` and one
      `word` holder and overwrites them before every write. */
  class Mapper {
    var character: string
    var word: string

    constructor ()
      ensures character == [] && word == []
    {
      character := [];
      word := [];
    }

    /** Processes one line and returns the pairs it writes, in write order. */
    method Map(value: string) returns (emitted: seq<(string, string)>)
      modifies this
      ensures Emits(value, emitted)
      ensures ParseLine(value).Skipped? ==> character == old(character)
      ensures ParseLine(value).Dialogue? ==> character == ParseLine(value).character
      ensures word == LastWord(emitted, old(word))
    {
      emitted := [];
      var line := Trim(value);
      if line != [] && ':' in line {
        var parts := SplitFirst(line, ':');
        if |parts| == 2 {
          character := Trim(parts[0]);
          var dialogue := ToLower(Trim(parts[1]));
          var uniqueWords := CollectWords(Tokens(dialogue));
          emitted := WriteWords(uniqueWords);
        }
      }
    }

    /** The write loop: one (character, word) pair per word of the set, the
        `word` holder overwritten before each write.  The set is handed out
        in no particular order. */
    method WriteWords(uniqueWords: set<string>) returns (emitted: seq<(string, string)>)
      modifies this`word
      ensures EmittedWords(emitted) == uniqueWords && NoWordTwice(emitted)
      ensures forall k :: 0 <= k < |emitted| ==> emitted[k].0 == character
      ensures word == LastWord(emitted, old(word))
    {
      emitted := [];
      var remaining := uniqueWords;
      var key, previous := character, word;
      while remaining != {}
        invariant EmittedWords(emitted) + remaining == uniqueWords
        invariant EmittedWords(emitted) !! remaining
        invariant forall k :: 0 <= k < |emitted| ==> emitted[k].0 == key
        invariant NoWordTwice(emitted)
        invariant word == LastWord(emitted, previous)
        decreases |remaining|
      {
        var uniqueWord :| uniqueWord in remaining;
        EmitStep(emitted, key, uniqueWord);
        SetStep(EmittedWords(emitted), remaining, uniqueWords, uniqueWord);
        KeyStep(emitted, key, uniqueWord);
        word := uniqueWord;
        emitted := emitted + [(key, uniqueWord)];
        remaining := remaining - {uniqueWord};
      }
    }
  }

  lemma KeyStep(emitted: seq<(string, string)>, c: string, w: string)
    requires forall k :: 0 <= k < |emitted| ==> emitted[k].0 == c
    ensures forall k :: 0 <= k < |emitted + [(c, w)]| ==> (emitted + [(c, w)])[k].0 == c
  {
  }

  /** Writing one more pair adds its word. */
  lemma EmitStep(emitted: seq<(string, string)>, c: string, w: string)
    requires NoWordTwice(emitted) && w !in EmittedWords(emitted)
    ensures EmittedWords(emitted + [(c, w)]) == EmittedWords(emitted) + {w}
    ensures NoWordTwice(emitted + [(c, w)])
  {
    forall k | 0 <= k < |emitted| ensures emitted[k].1 != w {
      assert emitted[k] in emitted;
    }
  }

  // ---------------------------------------------------------------------
  // Parsing a line
  // ---------------------------------------------------------------------

  lemma TrimOfTrimStart(s: string)
    ensures Trim(TrimStart(s)) == Trim(s)
  {
    TrimStartOf([], TrimStart(s));
  }

  lemma TrimOfTrimEnd(s: string)
    ensures Trim(TrimEnd(s)) == Trim(s)
  {
    TrimSplit(s);
    var p, m, q := Leading(s), Trim(s), Trailing(s);
    if m == [] {
      assert s == p + q;
      assert AllTrimmable(s);
      assert s + [] == s;
      TrimEndOf([], s);
    } else {
      assert s == (p + m) + q;
      TrimEndOf(p + m, q);
      assert p + m + [] == p + m;
      TrimOf(p, m, []);
    }
  }

  /** A line with a colon is cut at its first colon: the key is the trimmed
      text before it, case kept, and the dialogue is the trimmed and
      lower-cased text after it, later colons included. */
  lemma ParseLineOf(before: string, after: string)
    requires ':' !in before
    ensures ParseLine(before + ":" + after) == Dialogue(Trim(before), ToLower(Trim(after)))
  {
    var b, a := TrimStart(before), TrimEnd(after);
    TrimStartIsSuffix(before);
    assert ':' !in b by {
      assert b == before[|before| - |b|..];
      assert forall c :: c in b ==> c in before;
    }
    TrimColonLine(before, after);
    SplitFirstOf(b, ':', a);
    assert ':' in b + ":" + a by {
      assert (b + ":" + a)[|b|] == ':';
    }
    TrimOfTrimStart(before);
    TrimOfTrimEnd(after);
  }

  /** The outer trim of a line reaches no further than the colon. */
  lemma TrimColonLine(before: string, after: string)
    ensures Trim(before + ":" + after) == TrimStart(before) + ":" + TrimEnd(after)
  {
    TrimStartIsSuffix(before);
    TrimEndIsPrefix(after);
    TrimColonParts(before, after, TrimStart(before), TrimEnd(after));
  }

  lemma TrimColonParts(before: string, after: string, b: string, a: string)
    requires |b| <= |before| && b == before[|before| - |b|..]
    requires AllTrimmable(before[..|before| - |b|])
    requires b == [] || !IsTrimmable(b[0])
    requires |a| <= |after| && a == after[..|a|]
    requires AllTrimmable(after[|a|..])
    requires a == [] || !IsTrimmable(a[|a| - 1])
    ensures Trim(before + ":" + after) == b + ":" + a
  {
    var p, q := before[..|before| - |b|], after[|a|..];
    SplitAt(before, |before| - |b|);
    SplitAt(after, |a|);
    TrimAroundColon(p, b, a, q);
  }

  lemma SplitAt(s: string, k: nat)
    requires k <= |s|
    ensures s == s[..k] + s[k..]
  {
  }

  lemma TrimAroundColon(p: string, b: string, a: string, q: string)
    requires AllTrimmable(p) && AllTrimmable(q)
    requires b == [] || !IsTrimmable(b[0])
    requires a == [] || !IsTrimmable(a[|a| - 1])
    ensures Trim((p + b) + ":" + (a + q)) == b + ":" + a
  {
    var m := b + ":" + a;
    Regroup(p, b, ":", a, q);
    assert IsTrimmed(m);
    TrimOf(p, m, q);
  }

  /** A line is skipped exactly when it has no colon (an empty or blank line
      has none). */
  lemma SkippedIffNoColon(value: string)
    ensures ParseLine(value).Skipped? <==> ':' !in value
    ensures ':' !in value ==> LineWords(value) == {}
  {
    if ':' in value {
      var i := IndexOf(value, ':');
      assert value == value[..i] + ":" + value[i + 1..];
      ParseLineOf(value[..i], value[i + 1..]);
    } else if ':' in Trim(value) {
      TrimCharsFromText(value, ':');
    }
  }

  // ---------------------------------------------------------------------
  // The words of a line
  // ---------------------------------------------------------------------

  /** Nothing added, nothing lost: the words are exactly the non-empty
      letter-only forms of the tokens. */
  lemma {:induction false} WordsOfExactly(tokens: seq<string>, w: string)
    ensures w in WordsOf(tokens) <==>
              w != [] && exists i :: 0 <= i < |tokens| && LettersOnly(tokens[i]) == w
  {
    if tokens != [] {
      var n := |tokens| - 1;
      var init := tokens[..n];
      WordsOfExactly(init, w);
      if w in WordsOf(init) {
        var i :| 0 <= i < |init| && LettersOnly(init[i]) == w;
        assert tokens[i] == init[i];
      }
      if w != [] && exists i :: 0 <= i < |tokens| && LettersOnly(tokens[i]) == w {
        var i :| 0 <= i < |tokens| && LettersOnly(tokens[i]) == w;
        if i < n {
          assert init[i] == tokens[i];
        }
      }
    }
  }

  /** At most one word per token. */
  lemma {:induction false} WordsOfBound(tokens: seq<string>)
    ensures |WordsOf(tokens)| <= |tokens|
  {
    if tokens != [] {
      WordsOfBound(tokens[..|tokens| - 1]);
    }
  }

  /** A token with no letter adds no word. */
  lemma WordsOfNoLetterToken(tokens: seq<string>, t: string)
    requires HasNoLetter(t)
    ensures WordsOf(tokens + [t]) == WordsOf(tokens)
  {
    LettersOnlyEmpty(t);
    assert (tokens + [t])[..|tokens|] == tokens;
  }

  /** A word found in a text is a non-empty run of letters of that text. */
  lemma WordOfText(s: string, w: string)
    requires w in WordsOf(Tokens(s))
    ensures w != [] && forall k :: 0 <= k < |w| ==> IsAsciiLetter(w[k]) && w[k] in s
  {
    var tokens := Tokens(s);
    WordsOfExactly(tokens, w);
    var i :| 0 <= i < |tokens| && LettersOnly(tokens[i]) == w;
    forall k | 0 <= k < |w| ensures IsAsciiLetter(w[k]) && w[k] in s {
      assert w[k] in LettersOnly(tokens[i]);
      TokenCharsFromText(s, i, w[k]);
    }
  }

  /** Every word emitted is non-empty and made of lower-case ASCII letters. */
  lemma LineWordsAreLowerWords(value: string, w: string)
    requires w in LineWords(value)
    ensures w != [] && forall k :: 0 <= k < |w| ==> IsLower(w[k])
  {
    var dialogue := ParseLine(value).dialogue;
    WordOfText(dialogue, w);
    DialogueIsLowerCase(value);
    forall k | 0 <= k < |w| ensures IsLower(w[k]) {
      var j :| 0 <= j < |dialogue| && dialogue[j] == w[k];
    }
  }

  /** The dialogue carries no upper-case letter. */
  lemma DialogueIsLowerCase(value: string)
    requires ParseLine(value).Dialogue?
    ensures forall j :: 0 <= j < |ParseLine(value).dialogue| ==> !IsUpper(ParseLine(value).dialogue[j])
  {
    var line := Trim(value);
    var parts := SplitFirst(line, ':');
    assert ParseLine(value).dialogue == ToLower(Trim(parts[1]));
  }

  /** Pairs with pairwise distinct words carry as many words as pairs. */
  lemma {:induction false} EmittedCount(emitted: seq<(string, string)>)
    requires NoWordTwice(emitted)
    ensures |EmittedWords(emitted)| == |emitted|
  {
    if emitted != [] {
      var init, last := emitted[..|emitted| - 1], emitted[|emitted| - 1];
      assert emitted == init + [last];
      assert NoWordTwice(init);
      EmittedCount(init);
      assert last.1 !in EmittedWords(init) by {
        forall p | p in init ensures p.1 != last.1 {
          var k :| 0 <= k < |init| && init[k] == p;
          assert emitted[k] == p;
        }
      }
      assert EmittedWords(emitted) == EmittedWords(init) + {last.1};
    }
  }

  /** The mapper writes one pair per word of the line, so a skipped line
      writes none and a kept line at most one per token of its dialogue. */
  lemma EmittedBound(value: string, emitted: seq<(string, string)>)
    requires Emits(value, emitted)
    ensures |emitted| == |LineWords(value)|
    ensures ParseLine(value).Skipped? ==> |emitted| == 0
    ensures ParseLine(value).Dialogue? ==> |emitted| <= |Tokens(ParseLine(value).dialogue)|
  {
    EmittedCount(emitted);
    if ParseLine(value).Dialogue? {
      LineWordsBound(value);
    }
  }

  /** A line does not emit more words than its dialogue has tokens. */
  lemma LineWordsBound(value: string)
    requires ParseLine(value).Dialogue?
    ensures |LineWords(value)| <= |Tokens(ParseLine(value).dialogue)|
  {
    WordsOfBound(Tokens(ParseLine(value).dialogue));
  }

  /** A text without letters holds no word. */
  lemma NoLetterNoWord(s: string)
    requires HasNoLetter(s)
    ensures WordsOf(Tokens(s)) == {}
  {
    var tokens := Tokens(s);
    forall i | 0 <= i < |tokens| ensures HasNoLetter(tokens[i]) {
      forall k | 0 <= k < |tokens[i]| ensures !IsAsciiLetter(tokens[i][k]) {
        TokenCharsFromText(s, i, tokens[i][k]);
        var j :| 0 <= j < |s| && s[j] == tokens[i][k];
      }
    }
    NoLetterTokens(tokens);
  }

  lemma {:induction false} NoLetterTokens(tokens: seq<string>)
    requires forall i :: 0 <= i < |tokens| ==> HasNoLetter(tokens[i])
    ensures WordsOf(tokens) == {}
  {
    if tokens != [] {
      LettersOnlyEmpty(tokens[|tokens| - 1]);
      NoLetterTokens(tokens[..|tokens| - 1]);
    }
  }

  /** A line whose dialogue holds no letter at all (nothing after the colon,
      blanks, digits, punctuation) emits nothing. */
  lemma NoLetterDialogue(before: string, after: string)
    requires ':' !in before
    requires HasNoLetter(after)
    ensures LineWords(before + ":" + after) == {}
  {
    ParseLineOf(before, after);
    TrimNoLetter(after);
    ToLowerNoLetter(Trim(after));
    NoLetterNoWord(ToLower(Trim(after)));
  }

  /** Word case does not matter: lower-casing the dialogue first changes
      neither the key nor the words. */
  lemma CaseInsensitiveWords(before: string, after: string)
    requires ':' !in before
    ensures ParseLine(before + ":" + ToLower(after)) == ParseLine(before + ":" + after)
    ensures LineWords(before + ":" + ToLower(after)) == LineWords(before + ":" + after)
  {
    ParseLineOf(before, after);
    ParseLineOf(before, ToLower(after));
    TrimToLower(after);
    ToLowerIdempotent(Trim(after));
  }

  // ---------------------------------------------------------------------
  // Lines of a known shape
  // ---------------------------------------------------------------------

  predicate IsLowerWord(w: string) {
    w != [] && forall k :: 0 <= k < |w| ==> IsLower(w[k])
  }

  /** The words of tokens that are already clean lower-case words are the
      tokens themselves. */
  lemma {:induction false} WordsOfLowerWords(ws: seq<string>)
    requires forall i :: 0 <= i < |ws| ==> IsLowerWord(ws[i])
    ensures WordsOf(ws) == set w | w in ws
  {
    if ws != [] {
      var init, last := ws[..|ws| - 1], ws[|ws| - 1];
      WordsOfLowerWords(init);
      LettersOnlyIdentity(last);
      assert ws == init + [last];
    }
  }

  /** A line `c: text` with a trimmed, colon-free key and a trimmed
      lower-case text is kept as it stands. */
  lemma LineOfText(c: string, text: string)
    requires ':' !in c && IsTrimmed(c)
    requires IsTrimmed(text) && ToLower(text) == text
    ensures ParseLine(c + ": " + text) == Dialogue(c, text)
  {
    ColonSpace(c, text);
    ParseLineOf(c, " " + text);
    TrimOfTrimmed(c);
    TrimOfSpaced(text);
  }

  lemma ColonSpace(c: string, text: string)
    ensures c + ": " + text == c + ":" + (" " + text)
  {
    assert ": " == ":" + " ";
    Reassociate(c, ":", " ", text);
  }

  lemma Reassociate(x: string, y: string, z: string, w: string)
    ensures x + (y + z) + w == x + y + (z + w)
  {
  }

  lemma TrimOfTrimmed(m: string)
    requires IsTrimmed(m)
    ensures Trim(m) == m
  {
    assert [] + m + [] == m;
    TrimOf([], m, []);
  }

  lemma TrimOfSpaced(m: string)
    requires IsTrimmed(m)
    ensures Trim(" " + m) == m
  {
    assert " " + m + [] == " " + m;
    TrimOf(" ", m, []);
  }

  /** Clean lower-case words joined by spaces form a trimmed, lower-case
      text that tokenises back into the words. */
  lemma JoinedLowerWords(ws: seq<string>)
    requires ws != [] && forall i :: 0 <= i < |ws| ==> IsLowerWord(ws[i])
    ensures IsTrimmed(JoinSpaced(ws)) && ToLower(JoinSpaced(ws)) == JoinSpaced(ws)
    ensures Tokens(JoinSpaced(ws)) == ws
  {
    JoinSpacedEnds(ws);
    JoinedHasNoUpper(ws);
    ToLowerIdentity(JoinSpaced(ws));
    forall i | 0 <= i < |ws| ensures ws[i] != [] && NoDelimiter(ws[i]) {
      assert IsLowerWord(ws[i]);
    }
    TokensOfJoinSpaced(ws);
  }

  lemma JoinedHasNoUpper(ws: seq<string>)
    requires forall i :: 0 <= i < |ws| ==> IsLowerWord(ws[i])
    ensures forall k :: 0 <= k < |JoinSpaced(ws)| ==> !IsUpper(JoinSpaced(ws)[k])
  {
    var text := JoinSpaced(ws);
    forall k | 0 <= k < |text| ensures !IsUpper(text[k]) {
      JoinSpacedChar(ws, k);
      if text[k] != ' ' {
        var i, j :| 0 <= i < |ws| && 0 <= j < |ws[i]| && text[k] == ws[i][j];
        assert IsLowerWord(ws[i]);
      }
    }
  }

  /** A line `c: w1 w2 ... wn` with a trimmed, colon-free key and clean
      lower-case words is kept with key `c` and emits exactly those words. */
  lemma LineOfWords(c: string, ws: seq<string>)
    requires ':' !in c && IsTrimmed(c)
    requires ws != [] && forall i :: 0 <= i < |ws| ==> IsLowerWord(ws[i])
    ensures ParseLine(c + ": " + JoinSpaced(ws)) == Dialogue(c, JoinSpaced(ws))
    ensures LineWords(c + ": " + JoinSpaced(ws)) == set w | w in ws
  {
    JoinedLowerWords(ws);
    LineOfText(c, JoinSpaced(ws));
    WordsOfLowerWords(ws);
  }
}
