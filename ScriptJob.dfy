/** The two stages put together in memory: every line of a script goes
    through one mapper instance, the written pairs are grouped by key (a
    sequential stand-in for the shuffle between the stages), and every key
    with its values goes through the reducer. */
module ScriptJob {
  import opened JavaText
  import opened UniqueWordsMapper
  import R = UniqueWordsReducer

  /** The pairs the mapper writes for one line, as a set. */
  function LinePairs(line: string): set<(string, string)>
  {
    match ParseLine(line)
    case Skipped => {}
    case Dialogue(c, _) => set w | w in LineWords(line) :: (c, w)
  }

  /** The pairs written for all the lines. */
  function CorpusPairs(lines: seq<string>): set<(string, string)>
  {
    if lines == [] then {}
    else CorpusPairs(lines[..|lines| - 1]) + LinePairs(lines[|lines| - 1])
  }

  /** The pairs of a written sequence, as a set. */
  function PairSet(pairs: seq<(string, string)>): set<(string, string)>
  {
    set p | p in pairs
  }

  /** The words of `pairs` whose key is `c`. */
  function WordsFor(pairs: set<(string, string)>, c: string): set<string>
  {
    set p | p in pairs && p.0 == c :: p.1
  }

  /** Everything character `c` says anywhere in the script. */
  function CharacterWords(lines: seq<string>, c: string): set<string>
  {
    WordsFor(CorpusPairs(lines), c)
  }

  /** The value list the shuffle hands the reducer for key `c`. */
  function ValuesFor(pairs: seq<(string, string)>, c: string): seq<string>
  {
    if pairs == [] then []
    else
      var last := pairs[|pairs| - 1];
      ValuesFor(pairs[..|pairs| - 1], c) + (if last.0 == c then [last.1] else [])
  }

  /** The shuffle loses and invents nothing: `w` is a value for key `c`
      exactly when the pair `(c, w)` was written. */
  lemma {:induction false} ValuesForExactly(pairs: seq<(string, string)>, c: string, w: string)
    ensures w in ValuesFor(pairs, c) <==> (c, w) in pairs
  {
    if pairs != [] {
      var init, last := pairs[..|pairs| - 1], pairs[|pairs| - 1];
      ValuesForExactly(init, c, w);
      assert pairs == init + [last];
    }
  }

  /** A valid mapper output for a line holds exactly that line's pairs. */
  lemma EmittedPairs(line: string, emitted: seq<(string, string)>)
    requires Emits(line, emitted)
    ensures forall p :: p in emitted <==> p in LinePairs(line)
  {
    forall p | p in emitted ensures p in LinePairs(line) {
      var k :| 0 <= k < |emitted| && emitted[k] == p;
      assert p.1 in EmittedWords(emitted);
    }
    forall p | p in LinePairs(line) ensures p in emitted {
      var c := ParseLine(line).character;
      assert p.1 in EmittedWords(emitted);
      var q :| q in emitted && q.1 == p.1;
      var k :| 0 <= k < |emitted| && emitted[k] == q;
    }
  }

  lemma CorpusStep(lines: seq<string>, i: nat)
    requires i < |lines|
    ensures CorpusPairs(lines[..i + 1]) == CorpusPairs(lines[..i]) + LinePairs(lines[i])
  {
    assert lines[..i + 1][..i] == lines[..i];
  }

  lemma PairsStep(pairs: seq<(string, string)>, emitted: seq<(string, string)>,
                  before: set<(string, string)>, here: set<(string, string)>)
    requires forall p :: p in pairs <==> p in before
    requires forall p :: p in emitted <==> p in here
    ensures forall p :: p in pairs + emitted <==> p in before + here
  {
  }

  /** One whole run over the lines of a script: the output has one entry per
      character who says at least one word, holding all of that
      character's distinct words across the script, each once. */
  method RunJob(lines: seq<string>) returns (output: map<string, string>)
    ensures forall c :: c in output <==> CharacterWords(lines, c) != {}
    ensures forall c :: c in output ==>
              exists order :: R.IsEnumeration(order, CharacterWords(lines, c)) && output[c] == R.Render(order)
  {
    var mapper := new Mapper();
    var pairs: seq<(string, string)> := [];
    for i := 0 to |lines|
      invariant forall p :: p in pairs <==> p in CorpusPairs(lines[..i])
    {
      var emitted := mapper.Map(lines[i]);
      EmittedPairs(lines[i], emitted);
      CorpusStep(lines, i);
      PairsStep(pairs, emitted, CorpusPairs(lines[..i]), LinePairs(lines[i]));
      pairs := pairs + emitted;
    }
    assert lines[..|lines|] == lines;
    output := ReduceAll(pairs);
    forall c ensures WordsFor(PairSet(pairs), c) == CharacterWords(lines, c) {
      assert PairSet(pairs) == CorpusPairs(lines);
    }
  }

  /** Reduces every key that occurs in `pairs`. */
  method ReduceAll(pairs: seq<(string, string)>) returns (output: map<string, string>)
    ensures forall c :: c in output <==> WordsFor(PairSet(pairs), c) != {}
    ensures forall c :: c in output ==>
              exists order :: R.IsEnumeration(order, WordsFor(PairSet(pairs), c)) && output[c] == R.Render(order)
  {
    var keys := set p | p in pairs :: p.0;
    var remaining := keys;
    output := map[];
    while remaining != {}
      invariant remaining <= keys
      invariant forall c :: c in output <==> c in keys && c !in remaining
      invariant forall c :: c in output ==>
                  exists order :: R.IsEnumeration(order, WordsFor(PairSet(pairs), c)) && output[c] == R.Render(order)
      decreases |remaining|
    {
      var c :| c in remaining;
      var key, value := R.Reduce(c, ValuesFor(pairs, c));
      ValuesOfKey(pairs, c);
      output := output[key := value];
      remaining := remaining - {c};
    }
    forall c ensures c in keys <==> WordsFor(PairSet(pairs), c) != {} {
      KeyHasWords(pairs, c);
    }
  }

  lemma ValuesOfKey(pairs: seq<(string, string)>, c: string)
    ensures R.ValueSet(ValuesFor(pairs, c)) == WordsFor(PairSet(pairs), c)
  {
    forall w ensures w in R.ValueSet(ValuesFor(pairs, c)) <==> w in WordsFor(PairSet(pairs), c) {
      ValuesForExactly(pairs, c, w);
      if (c, w) in pairs {
        assert (c, w).1 == w;
      }
    }
  }

  lemma KeyHasWords(pairs: seq<(string, string)>, c: string)
    ensures c in (set p | p in pairs :: p.0) <==> WordsFor(PairSet(pairs), c) != {}
  {
    if c in (set p | p in pairs :: p.0) {
      var p :| p in pairs && p.0 == c;
      assert p.1 in WordsFor(PairSet(pairs), c);
    }
  }

  // ---------------------------------------------------------------------
  // Across lines
  // ---------------------------------------------------------------------

  /** A further line adds its words to its own speaker and to nobody else. */
  lemma CharacterWordsStep(lines: seq<string>, line: string, c: string)
    ensures CharacterWords(lines + [line], c) ==
              CharacterWords(lines, c) +
              (if ParseLine(line).Dialogue? && ParseLine(line).character == c then LineWords(line) else {})
  {
    assert (lines + [line])[..|lines|] == lines;
    var before, here := CorpusPairs(lines), LinePairs(line);
    assert CorpusPairs(lines + [line]) == before + here;
    WordsForUnion(before, here, c);
    LinePairsWords(line, c);
  }

  lemma WordsForUnion(a: set<(string, string)>, b: set<(string, string)>, c: string)
    ensures WordsFor(a + b, c) == WordsFor(a, c) + WordsFor(b, c)
  {
    forall w | w in WordsFor(a + b, c) ensures w in WordsFor(a, c) + WordsFor(b, c) {
      var p :| p in a + b && p.0 == c && p.1 == w;
    }
  }

  lemma LinePairsWords(line: string, c: string)
    ensures WordsFor(LinePairs(line), c) ==
              (if ParseLine(line).Dialogue? && ParseLine(line).character == c then LineWords(line) else {})
  {
    if ParseLine(line).Dialogue? && ParseLine(line).character == c {
      forall w | w in LineWords(line) ensures w in WordsFor(LinePairs(line), c) {
        assert (c, w) in LinePairs(line);
      }
    }
  }

  /** The same speaker on two lines: the words are merged, and a word said
      on both lines is kept once. */
  lemma AliceSaysHelloTwice()
    ensures CharacterWords(["Alice: hello world", "Alice: hello there"], "Alice") ==
              {"hello", "world", "there"}
  {
    HelloWorld();
    HelloThere();
    SameSpeakerTwice("Alice: hello world", "Alice: hello there", "Alice");
  }

  /** Two lines of the same speaker give that speaker the union of their
      words. */
  lemma SameSpeakerTwice(l1: string, l2: string, c: string)
    requires ParseLine(l1).Dialogue? && ParseLine(l1).character == c
    requires ParseLine(l2).Dialogue? && ParseLine(l2).character == c
    ensures CharacterWords([l1, l2], c) == LineWords(l1) + LineWords(l2)
  {
    CharacterWordsStep([], l1, c);
    assert [] + [l1] == [l1];
    CharacterWordsStep([l1], l2, c);
    assert [l1] + [l2] == [l1, l2];
  }

  lemma HelloWorld()
    ensures ParseLine("Alice: hello world").Dialogue?
    ensures ParseLine("Alice: hello world").character == "Alice"
    ensures LineWords("Alice: hello world") == {"hello", "world"}
  {
    AliceLine("Alice: hello world", "hello", "world");
  }

  lemma HelloThere()
    ensures ParseLine("Alice: hello there").Dialogue?
    ensures ParseLine("Alice: hello there").character == "Alice"
    ensures LineWords("Alice: hello there") == {"hello", "there"}
  {
    AliceLine("Alice: hello there", "hello", "there");
  }

  lemma AliceLine(line: string, w1: string, w2: string)
    requires IsLowerWord(w1) && IsLowerWord(w2)
    requires line == "Alice: " + w1 + " " + w2
    ensures ParseLine(line).Dialogue? && ParseLine(line).character == "Alice"
    ensures LineWords(line) == {w1, w2}
  {
    var ws := [w1, w2];
    assert JoinSpaced(ws) == w1 + " " + w2;
    assert line == "Alice" + ": " + JoinSpaced(ws);
    assert IsTrimmed("Alice");
    LineOfWords("Alice", ws);
  }
}
