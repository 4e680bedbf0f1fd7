/** Stage 2 of the job: all the words written for one character are merged
    into one set and rendered as `[w1, w2, ..., wn]`.  Modelled on
    UniqueWordsReducer.reduce. */
module UniqueWordsReducer {
  import opened JavaText

  /** The set the first loop builds: the values added one at a time. */
  function ValueSet(values: seq<string>): (r: set<string>)
    ensures forall v :: v in r <==> v in values
    ensures |r| <= |values|
  {
    if values == [] then {}
    else ValueSet(values[..|values| - 1]) + {values[|values| - 1]}
  }

  predicate NoDuplicates(order: seq<string>) {
    forall i, j :: 0 <= i < j < |order| ==> order[i] != order[j]
  }

  /** `order` lists every element of `s` exactly once: one of the orders in
      which a `HashSet` holding `s` may hand out its elements. */
  predicate IsEnumeration(order: seq<string>, s: set<string>) {
    NoDuplicates(order) &&
    (forall w :: w in order ==> w in s) && (forall w :: w in s ==> w in order)
  }

  /** `w1, w2, ..., wn`: the elements with `", "` between neighbours. */
  function Join(order: seq<string>): string
  {
    if order == [] then []
    else if |order| == 1 then order[0]
    else order[0] + ", " + Join(order[1..])
  }

  /** The output format: the joined elements in square brackets. */
  function Render(order: seq<string>): (r: string)
    ensures |r| >= 2 && r[0] == '[' && r[|r| - 1] == ']'
    ensures order == [] ==> r == "[]"
    ensures r[1..|r| - 1] == Join(order)
  {
    "[" + Join(order) + "]"
  }

  /** What the builder holds after `[` once the append loop has run over
      `order`: every word followed by `", "`. */
  function Appended(order: seq<string>): string
  {
    if order == [] then []
    else Appended(order[..|order| - 1]) + order[|order| - 1] + ", "
  }

  lemma {:induction false} JoinSnoc(order: seq<string>, w: string)
    requires order != []
    ensures Join(order + [w]) == Join(order) + ", " + w
    decreases |order|
  {
    if |order| == 1 {
      assert order + [w] == [order[0], w];
      assert [order[0], w][1..] == [w];
    } else {
      assert (order + [w])[1..] == order[1..] + [w];
      JoinSnoc(order[1..], w);
    }
  }

  /** A non-empty list ends with its last word and the closing bracket:
      there is no separator left before `]`. */
  lemma RenderEndsWithLastWord(order: seq<string>)
    requires order != []
    ensures var init, last := order[..|order| - 1], order[|order| - 1];
            Render(order) == "[" + Join(init) + (if init == [] then "" else ", ") + last + "]"
  {
    var init, last := order[..|order| - 1], order[|order| - 1];
    assert order == init + [last];
    if init == [] {
      assert order == [last];
    } else {
      JoinSnoc(init, last);
    }
  }

  /** Appending `word + ", "` per word and then cutting the last two
      characters gives the joined list: the trailing separator is exactly
      the one the truncation removes. */
  lemma {:induction false} AppendedIsJoined(order: seq<string>)
    requires order != []
    ensures Appended(order) == Join(order) + ", "
    decreases |order|
  {
    var init, w := order[..|order| - 1], order[|order| - 1];
    if init == [] {
      assert order == [w];
    } else {
      AppendedIsJoined(init);
      JoinSnoc(init, w);
      assert init + [w] == order;
    }
  }

  lemma AppendStep(order: seq<string>, w: string)
    requires NoDuplicates(order) && w !in order
    ensures NoDuplicates(order + [w])
    ensures ValueSet(order + [w]) == ValueSet(order) + {w}
    ensures "[" + Appended(order + [w]) == "[" + Appended(order) + w + ", "
  {
    assert (order + [w])[..|order|] == order;
    RegroupAppend("[", Appended(order), w, ", ");
  }

  lemma RegroupAppend(p: string, a: string, w: string, q: string)
    ensures p + (a + w + q) == p + a + w + q
  {
  }

  /** One reduce call: the key goes out unchanged together with the rendered
      set of its values, listed in some order, each once. */
  method Reduce(key: string, values: seq<string>) returns (outKey: string, outValue: string)
    ensures outKey == key
    ensures exists order :: IsEnumeration(order, ValueSet(values)) && outValue == Render(order)
  {
    var uniqueWords: set<string> := {};
    for i := 0 to |values|
      invariant uniqueWords == ValueSet(values[..i])
    {
      assert values[..i + 1][..i] == values[..i];
      uniqueWords := uniqueWords + {values[i]};
    }
    assert values[..|values|] == values;

    var uniqueWordsList := "[";
    var remaining := uniqueWords;
    ghost var order: seq<string> := [];
    while remaining != {}
      invariant uniqueWordsList == "[" + Appended(order)
      invariant NoDuplicates(order)
      invariant ValueSet(order) + remaining == uniqueWords
      invariant ValueSet(order) !! remaining
      decreases |remaining|
    {
      var word :| word in remaining;
      AppendStep(order, word);
      SetStep(ValueSet(order), remaining, uniqueWords, word);
      uniqueWordsList := uniqueWordsList + word + ", ";
      order := order + [word];
      remaining := remaining - {word};
    }

    if |uniqueWordsList| > 1 {
      uniqueWordsList := uniqueWordsList[..|uniqueWordsList| - 2];
    }
    uniqueWordsList := uniqueWordsList + "]";
    RenderOfBuilder(order, uniqueWordsList);
    outKey, outValue := key, uniqueWordsList;
  }

  /** The builder steps after the loop produce `Render(order)`, the empty
      case included: then only `[` was there, nothing is cut, and the
      result is `[]`. */
  lemma RenderOfBuilder(order: seq<string>, result: string)
    requires var built := "[" + Appended(order);
             result == (if |built| > 1 then built[..|built| - 2] else built) + "]"
    ensures result == Render(order)
  {
    if order != [] {
      AppendedIsJoined(order);
      var built := "[" + Appended(order);
      assert built == "[" + Join(order) + ", ";
      assert built[..|built| - 2] == "[" + Join(order);
    }
  }

  // ---------------------------------------------------------------------
  // Reading the rendered list back
  // ---------------------------------------------------------------------

  /** Splits `w1, w2, ..., wn` back into its elements. */
  function SplitItems(s: string): seq<string>
    decreases |s|
  {
    if s == [] then []
    else
      var i := IndexOf(s, ',');
      if i < 0 then [s]
      else if i + 2 <= |s| then [s[..i]] + SplitItems(s[i + 2..])
      else [s[..i]]
  }

  /** The elements of a rendered list. */
  function Elements(r: string): seq<string>
  {
    if |r| < 2 then [] else SplitItems(r[1..|r| - 1])
  }

  predicate IsItem(w: string) {
    w != [] && ',' !in w
  }

  lemma IndexOfJoined(w: string, rest: string)
    requires ',' !in w
    ensures IndexOf(w + ", " + rest, ',') == |w|
  {
    var s := w + ", " + rest;
    assert s[|w|] == ',';
    assert s[..|w|] == w;
  }

  /** Round trip: the rendered list reads back as the words it was made of,
      provided the words are non-empty and carry no comma (which holds of
      every word the mapper writes). */
  lemma {:induction false} SplitJoin(order: seq<string>)
    requires forall i :: 0 <= i < |order| ==> IsItem(order[i])
    ensures SplitItems(Join(order)) == order
    decreases |order|
  {
    if |order| == 1 {
      assert Join(order) == order[0];
    } else if |order| > 1 {
      var w, rest := order[0], Join(order[1..]);
      IndexOfJoined(w, rest);
      var s := w + ", " + rest;
      assert s[..|w|] == w && s[|w| + 2..] == rest;
      SplitJoin(order[1..]);
    }
  }

  /** Reading a rendering back gives its listing, for non-empty,
      comma-free elements. */
  lemma ElementsOfRender(order: seq<string>)
    requires forall i :: 0 <= i < |order| ==> IsItem(order[i])
    ensures Elements(Render(order)) == order
  {
    SplitJoin(order);
  }

  lemma {:induction false} NoDuplicatesCount(order: seq<string>, w: string)
    requires NoDuplicates(order) && w in order
    ensures multiset(order)[w] == 1
    decreases |order|
  {
    var init, last := order[..|order| - 1], order[|order| - 1];
    assert order == init + [last];
    if w == last {
      assert w !in init by {
        forall i | 0 <= i < |init| ensures init[i] != w {
          assert order[i] == init[i];
        }
      }
    } else {
      NoDuplicatesCount(init, w);
    }
  }

  /** For non-empty, comma-free values (every word the mapper writes is
      one), every value given to the reducer shows up exactly once among
      the elements of its output, and nothing else shows up.  Other values
      do not read back: `""` vanishes and `a, b` reads as two elements. */
  lemma ReduceListsEachValueOnce(values: seq<string>, order: seq<string>)
    requires forall i :: 0 <= i < |values| ==> IsItem(values[i])
    requires IsEnumeration(order, ValueSet(values))
    ensures forall v :: v in values ==> multiset(Elements(Render(order)))[v] == 1
    ensures forall e :: e in Elements(Render(order)) ==> e in values
  {
    forall i | 0 <= i < |order| ensures IsItem(order[i]) {
      assert order[i] in values;
    }
    ElementsOfRender(order);
    forall v | v in values ensures multiset(order)[v] == 1 {
      NoDuplicatesCount(order, v);
    }
  }

  /** Number of occurrences of `c` in `s`. */
  function Count(s: string, c: char): nat
  {
    if s == [] then 0 else (if s[0] == c then 1 else 0) + Count(s[1..], c)
  }

  lemma {:induction false} CountAppend(a: string, b: string, c: char)
    ensures Count(a + b, c) == Count(a, c) + Count(b, c)
  {
    if a == [] {
      assert a + b == b;
    } else {
      assert (a + b)[0] == a[0] && (a + b)[1..] == a[1..] + b;
      CountAppend(a[1..], b, c);
    }
  }

  lemma {:induction false} CountAbsent(s: string, c: char)
    requires c !in s
    ensures Count(s, c) == 0
  {
    if s != [] {
      CountAbsent(s[1..], c);
    }
  }

  /** For comma-free words, the joined list holds exactly one separator
      between each pair of neighbours, none after the last. */
  lemma {:induction false} SeparatorCount(order: seq<string>)
    requires forall i :: 0 <= i < |order| ==> ',' !in order[i]
    ensures Count(Join(order), ',') == if order == [] then 0 else |order| - 1
    decreases |order|
  {
    if |order| == 1 {
      CountAbsent(order[0], ',');
    } else if |order| > 1 {
      SeparatorCount(order[1..]);
      CountAbsent(order[0], ',');
      CountAppend(order[0], ", ", ',');
      CountAppend(order[0] + ", ", Join(order[1..]), ',');
    }
  }

  /** Duplicates collapse and input order does not matter: two value
      sequences with the same elements have the same set, hence the same
      possible outputs. */
  lemma ValueSetIgnoresOrderAndRepeats(a: seq<string>, b: seq<string>)
    requires forall v :: v in a <==> v in b
    ensures ValueSet(a) == ValueSet(b)
  {
  }
}
