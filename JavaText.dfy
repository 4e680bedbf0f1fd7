/** The few java.lang.String / java.util operations the two processing stages
    rely on, stated on `string` (a sequence of `char`):
    - `String.trim`, which strips every character whose code is at most U+0020
      from both ends;
    - `String.toLowerCase`, restricted to the ASCII letters;
    - `replaceAll("[^a-zA-Z]", "")`, which keeps the ASCII letters only;
    - the default `StringTokenizer`, which splits on space, tab, newline,
      carriage return and form feed;
    - `split(":", 2)`, which cuts at the first separator. */
module JavaText {

  // ---------------------------------------------------------------------
  // String.trim
  // ---------------------------------------------------------------------

  /** A character `String.trim` removes from either end. */
  predicate IsTrimmable(c: char) {
    c <= ' '
  }

  predicate AllTrimmable(s: string) {
    forall i :: 0 <= i < |s| ==> IsTrimmable(s[i])
  }

  /** Neither end of `s` is a trimmable character. */
  predicate IsTrimmed(s: string) {
    s == [] || (!IsTrimmable(s[0]) && !IsTrimmable(s[|s| - 1]))
  }

  /** Drops the trimmable characters at the front. */
  function TrimStart(s: string): (r: string)
    ensures |r| <= |s|
    ensures AllTrimmable(s[..|s| - |r|])
    ensures r == [] || !IsTrimmable(r[0])
  {
    if s == [] || !IsTrimmable(s[0]) then s else TrimStart(s[1..])
  }

  /** What `TrimStart` keeps is the rest of the text after what it drops. */
  lemma {:induction false} TrimStartIsSuffix(s: string)
    ensures TrimStart(s) == s[|s| - |TrimStart(s)|..]
  {
    if s != [] && IsTrimmable(s[0]) {
      TrimStartIsSuffix(s[1..]);
    }
  }

  /** Drops the trimmable characters at the back. */
  function TrimEnd(s: string): (r: string)
    ensures |r| <= |s|
    ensures AllTrimmable(s[|r|..])
    ensures r == [] || !IsTrimmable(r[|r| - 1])
  {
    if s == [] || !IsTrimmable(s[|s| - 1]) then s else TrimEnd(s[..|s| - 1])
  }

  /** What `TrimEnd` keeps is the text before what it drops. */
  lemma {:induction false} TrimEndIsPrefix(s: string)
    ensures TrimEnd(s) == s[..|TrimEnd(s)|]
  {
    if s != [] && IsTrimmable(s[|s| - 1]) {
      TrimEndIsPrefix(s[..|s| - 1]);
    }
  }

  /** `String.trim`: the longest infix of `s` both of whose ends are not
      trimmable, with only trimmable characters around it. */
  function Trim(s: string): (r: string)
    ensures |r| <= |s| && IsTrimmed(r)
  {
    TrimEndIsPrefix(TrimStart(s));
    TrimEnd(TrimStart(s))
  }

  /** The characters `Trim` removes at the front. */
  function Leading(s: string): string
  {
    s[..|s| - |TrimStart(s)|]
  }

  /** The characters `Trim` removes at the back. */
  function Trailing(s: string): string
  {
    TrimStart(s)[|Trim(s)|..]
  }

  /** `s` is `Trim(s)` wrapped in the trimmable characters it removes. */
  lemma TrimSplit(s: string)
    ensures s == Leading(s) + Trim(s) + Trailing(s)
    ensures AllTrimmable(Leading(s)) && AllTrimmable(Trailing(s))
  {
    var ts := TrimStart(s);
    TrimStartIsSuffix(s);
    var te := TrimEnd(ts);
    TrimEndIsPrefix(ts);
    Glue(s, |s| - |ts|, ts, |te|);
  }

  lemma Glue(s: string, k: nat, t: string, n: nat)
    requires k <= |s| && t == s[k..] && n <= |t|
    ensures s == s[..k] + t[..n] + t[n..]
  {
    assert t == t[..n] + t[n..];
    assert s == s[..k] + s[k..];
  }

  lemma {:induction false} TrimStartOf(p: string, m: string)
    requires AllTrimmable(p)
    requires m == [] || !IsTrimmable(m[0])
    ensures TrimStart(p + m) == m
    decreases |p|
  {
    if p == [] {
      assert p + m == m;
    } else {
      assert (p + m)[1..] == p[1..] + m;
      TrimStartOf(p[1..], m);
    }
  }

  lemma {:induction false} TrimEndOf(m: string, q: string)
    requires AllTrimmable(q)
    requires m == [] || !IsTrimmable(m[|m| - 1])
    ensures TrimEnd(m + q) == m
    decreases |q|
  {
    if q == [] {
      assert m + q == m;
    } else {
      assert (m + q)[..|m + q| - 1] == m + q[..|q| - 1];
      TrimEndOf(m, q[..|q| - 1]);
    }
  }

  /** `Trim` is determined by its characterisation: whatever is wrapped in
      trimmable characters and has non-trimmable ends is what it returns. */
  lemma TrimOf(p: string, m: string, q: string)
    requires AllTrimmable(p) && AllTrimmable(q) && IsTrimmed(m)
    ensures Trim(p + m + q) == m
  {
    if m == [] {
      assert p + m + q == p + q;
      TrimStartOf(p + q, []);
      assert p + q + [] == p + q;
      assert TrimEnd([]) == [];
    } else {
      assert p + m + q == p + (m + q);
      TrimStartOf(p, m + q);
      TrimEndOf(m, q);
    }
  }

  lemma Regroup(p: string, b: string, x: string, a: string, q: string)
    ensures (p + b) + x + (a + q) == p + (b + x + a) + q
  {
  }

  /** Trimming keeps only characters of the text. */
  lemma TrimCharsFromText(s: string, c: char)
    requires c in Trim(s)
    ensures c in s
  {
    TrimSplit(s);
  }

  /** Trimming twice is trimming once. */
  lemma TrimIdempotent(s: string)
    ensures Trim(Trim(s)) == Trim(s)
  {
    var r := Trim(s);
    assert [] + r + [] == r;
    TrimOf([], r, []);
  }

  // ---------------------------------------------------------------------
  // String.toLowerCase, ASCII letters only
  // ---------------------------------------------------------------------

  predicate IsUpper(c: char) {
    'A' <= c <= 'Z'
  }

  predicate IsLower(c: char) {
    'a' <= c <= 'z'
  }

  /** The characters `[a-zA-Z]` matches. */
  predicate IsAsciiLetter(c: char) {
    IsLower(c) || IsUpper(c)
  }

  /** Lower-cases `c` if it is an ASCII upper-case letter. */
  function LowerChar(c: char): (d: char)
    ensures IsUpper(c) ==> IsLower(d) && d as int == c as int + 32
    ensures !IsUpper(c) ==> d == c
    ensures !IsUpper(d)
  {
    if IsUpper(c) then (c as int + 32) as char else c
  }

  function ToLower(s: string): (r: string)
    ensures |r| == |s|
    ensures forall i :: 0 <= i < |s| ==> r[i] == LowerChar(s[i])
  {
    if s == [] then [] else [LowerChar(s[0])] + ToLower(s[1..])
  }

  /** A string with no upper-case letter is its own lower-case form. */
  lemma ToLowerIdentity(s: string)
    requires forall i :: 0 <= i < |s| ==> !IsUpper(s[i])
    ensures ToLower(s) == s
  {
  }

  lemma ToLowerIdempotent(s: string)
    ensures ToLower(ToLower(s)) == ToLower(s)
  {
  }

  lemma {:induction false} ToLowerAppend(a: string, b: string)
    ensures ToLower(a + b) == ToLower(a) + ToLower(b)
  {
    if a == [] {
      assert a + b == b;
    } else {
      assert (a + b)[0] == a[0] && (a + b)[1..] == a[1..] + b;
      ToLowerAppend(a[1..], b);
    }
  }

  lemma ToLowerTrimmable(p: string)
    requires AllTrimmable(p)
    ensures AllTrimmable(ToLower(p))
  {
  }

  lemma ToLowerTrimmed(m: string)
    requires IsTrimmed(m)
    ensures IsTrimmed(ToLower(m))
  {
  }

  /** Lower-casing changes no trimmable character, so it commutes with trim. */
  lemma TrimToLower(s: string)
    ensures Trim(ToLower(s)) == ToLower(Trim(s))
  {
    var p, m, q := Leading(s), Trim(s), Trailing(s);
    TrimSplit(s);
    ToLowerAppend(p, m);
    ToLowerAppend(p + m, q);
    var lp, lm, lq := ToLower(p), ToLower(m), ToLower(q);
    assert ToLower(s) == lp + lm + lq;
    ToLowerTrimmable(p);
    ToLowerTrimmable(q);
    ToLowerTrimmed(m);
    TrimOf(lp, lm, lq);
  }

  // ---------------------------------------------------------------------
  // replaceAll("[^a-zA-Z]", "")
  // ---------------------------------------------------------------------

  /** Keeps the ASCII letters of `t`, in order. */
  function LettersOnly(t: string): (r: string)
    ensures |r| <= |t|
    ensures forall c :: c in r <==> c in t && IsAsciiLetter(c)
  {
    if t == [] then []
    else if IsAsciiLetter(t[0]) then [t[0]] + LettersOnly(t[1..])
    else LettersOnly(t[1..])
  }

  predicate HasNoLetter(s: string) {
    forall i :: 0 <= i < |s| ==> !IsAsciiLetter(s[i])
  }

  /** Lower-casing neither creates nor removes letters. */
  lemma ToLowerNoLetter(s: string)
    requires HasNoLetter(s)
    ensures HasNoLetter(ToLower(s))
  {
  }

  lemma TrimNoLetter(s: string)
    requires HasNoLetter(s)
    ensures HasNoLetter(Trim(s))
  {
    var t := Trim(s);
    forall i | 0 <= i < |t| ensures !IsAsciiLetter(t[i]) {
      TrimCharsFromText(s, t[i]);
    }
  }

  /** A token without any letter is wiped out completely. */
  lemma LettersOnlyEmpty(t: string)
    ensures LettersOnly(t) == [] <==> HasNoLetter(t)
  {
    if LettersOnly(t) == [] {
      forall i | 0 <= i < |t| ensures !IsAsciiLetter(t[i]) {
        assert t[i] in t;
      }
    } else {
      assert LettersOnly(t)[0] in LettersOnly(t);
    }
  }

  /** A token made of letters only is left as it is. */
  lemma {:induction false} LettersOnlyIdentity(t: string)
    requires forall i :: 0 <= i < |t| ==> IsAsciiLetter(t[i])
    ensures LettersOnly(t) == t
  {
    if t != [] {
      LettersOnlyIdentity(t[1..]);
    }
  }

  lemma {:induction false} LettersOnlyAppend(a: string, b: string)
    ensures LettersOnly(a + b) == LettersOnly(a) + LettersOnly(b)
  {
    if a == [] {
      assert a + b == b;
    } else {
      assert (a + b)[0] == a[0] && (a + b)[1..] == a[1..] + b;
      LettersOnlyAppend(a[1..], b);
    }
  }

  // ---------------------------------------------------------------------
  // java.util.StringTokenizer with its default delimiters " \t\n\r\f"
  // ---------------------------------------------------------------------

  predicate IsDelimiter(c: char) {
    c == ' ' || c == '\t' || c == '\n' || c == '\r' || c == '\U{C}'
  }

  predicate NoDelimiter(t: string) {
    forall i :: 0 <= i < |t| ==> !IsDelimiter(t[i])
  }

  /** The token that starts at the front of `s`: the longest prefix with
      no delimiter in it. */
  function LeadingToken(s: string): (t: string)
    ensures |t| <= |s| && t == s[..|t|] && NoDelimiter(t)
    ensures |t| == |s| || IsDelimiter(s[|t|])
  {
    if s == [] || IsDelimiter(s[0]) then [] else [s[0]] + LeadingToken(s[1..])
  }

  /** The tokens `StringTokenizer` hands out for `s`, in order. */
  function Tokens(s: string): (ts: seq<string>)
    ensures |ts| <= |s|
    ensures forall i :: 0 <= i < |ts| ==> ts[i] != [] && NoDelimiter(ts[i])
    decreases |s|
  {
    if s == [] then []
    else if IsDelimiter(s[0]) then Tokens(s[1..])
    else
      var t := LeadingToken(s);
      [t] + Tokens(s[|t|..])
  }

  predicate AllDelimiters(d: string) {
    forall i :: 0 <= i < |d| ==> IsDelimiter(d[i])
  }

  /** A text of delimiters only has no token. */
  lemma {:induction false} TokensOfBlank(d: string)
    requires AllDelimiters(d)
    ensures Tokens(d) == []
    decreases |d|
  {
    if d != [] {
      TokensOfBlank(d[1..]);
    }
  }

  /** Tokens are the maximal delimiter-free runs: any run of delimiters is
      skipped, and a token ends exactly at the next delimiter. */
  lemma {:induction false} TokensOfDelimited(d: string, t: string, rest: string)
    requires AllDelimiters(d) && t != [] && NoDelimiter(t)
    requires rest == [] || IsDelimiter(rest[0])
    ensures Tokens(d + t + rest) == [t] + Tokens(rest)
    decreases |d|
  {
    var s := d + t + rest;
    if d == [] {
      assert s == t + rest;
      assert s[0] == t[0];
      LeadingTokenOf(t, rest);
      assert s[|t|..] == rest;
    } else {
      assert s[0] == d[0];
      assert s[1..] == d[1..] + t + rest;
      TokensOfDelimited(d[1..], t, rest);
    }
  }

  /** Tabs and runs of spaces separate tokens just as a single space does. */
  lemma TokensAtEveryDelimiter()
    ensures Tokens("a\tb") == ["a", "b"]
    ensures Tokens("a  b") == ["a", "b"]
  {
    TokensOfDelimited("", "b", "");
    assert "\tb" == "\t" + "b" + "";
    TokensOfDelimited("\t", "b", "");
    assert "a\tb" == "" + "a" + "\tb";
    TokensOfDelimited("", "a", "\tb");
    assert "  b" == "  " + "b" + "";
    TokensOfDelimited("  ", "b", "");
    assert "a  b" == "" + "a" + "  b";
    TokensOfDelimited("", "a", "  b");
  }

  /** A loop helper shared by the mapper and the reducer, not a Java
      operation: moving one element from the remaining set to the done set
      keeps the two a partition of the whole. */
  lemma SetStep<X>(done: set<X>, remaining: set<X>, all: set<X>, w: X)
    requires done + remaining == all && done !! remaining && w in remaining
    ensures (done + {w}) + (remaining - {w}) == all && (done + {w}) !! (remaining - {w})
  {
  }

  /** Every character of a token comes from the text. */
  lemma {:induction false} TokenCharsFromText(s: string, i: nat, c: char)
    requires i < |Tokens(s)| && c in Tokens(s)[i]
    ensures c in s
    decreases |s|
  {
    if IsDelimiter(s[0]) {
      TokenCharsFromText(s[1..], i, c);
    } else {
      var t := LeadingToken(s);
      if i > 0 {
        TokenCharsFromText(s[|t|..], i - 1, c);
      }
    }
  }

  /** Joins tokens with one space between neighbours. */
  function JoinSpaced(ts: seq<string>): string
  {
    if ts == [] then []
    else if |ts| == 1 then ts[0]
    else ts[0] + " " + JoinSpaced(ts[1..])
  }

  /** The joined text starts with the first token's first character and ends
      with the last token's last character. */
  lemma {:induction false} JoinSpacedEnds(ts: seq<string>)
    requires ts != [] && forall i :: 0 <= i < |ts| ==> ts[i] != []
    ensures var s := JoinSpaced(ts);
            s != [] && s[0] == ts[0][0] && s[|s| - 1] == ts[|ts| - 1][|ts[|ts| - 1]| - 1]
  {
    if |ts| > 1 {
      JoinSpacedEnds(ts[1..]);
    }
  }

  /** Every character of the joined text is a space or comes from a token. */
  lemma {:induction false} JoinSpacedChar(ts: seq<string>, k: nat)
    requires k < |JoinSpaced(ts)|
    ensures JoinSpaced(ts)[k] == ' ' ||
            exists i, j :: 0 <= i < |ts| && 0 <= j < |ts[i]| && JoinSpaced(ts)[k] == ts[i][j]
  {
    if |ts| == 1 {
      assert JoinSpaced(ts)[k] == ts[0][k];
    } else if |ts| > 1 {
      var t, rest := ts[0], JoinSpaced(ts[1..]);
      if k < |t| {
        assert JoinSpaced(ts)[k] == t[k];
      } else if k > |t| {
        assert JoinSpaced(ts)[k] == rest[k - |t| - 1];
        JoinSpacedChar(ts[1..], k - |t| - 1);
        if rest[k - |t| - 1] != ' ' {
          var i, j :| 0 <= i < |ts[1..]| && 0 <= j < |ts[1..][i]| && rest[k - |t| - 1] == ts[1..][i][j];
          assert ts[1..][i] == ts[i + 1];
        }
      }
    }
  }

  lemma {:induction false} LeadingTokenOf(t: string, rest: string)
    requires NoDelimiter(t)
    requires rest == [] || IsDelimiter(rest[0])
    ensures LeadingToken(t + rest) == t
    decreases |t|
  {
    if t == [] {
      assert t + rest == rest;
    } else {
      assert (t + rest)[0] == t[0] && (t + rest)[1..] == t[1..] + rest;
      LeadingTokenOf(t[1..], rest);
    }
  }

  /** Round trip: tokenising the space-joined tokens gives them back. */
  lemma {:induction false} TokensOfJoinSpaced(ts: seq<string>)
    requires forall i :: 0 <= i < |ts| ==> ts[i] != [] && NoDelimiter(ts[i])
    ensures Tokens(JoinSpaced(ts)) == ts
  {
    if ts == [] {
    } else if |ts| == 1 {
      var t := ts[0];
      assert t + [] == t;
      LeadingTokenOf(t, []);
      assert t[|t|..] == [];
    } else {
      var t, rest := ts[0], " " + JoinSpaced(ts[1..]);
      var s := t + rest;
      assert JoinSpaced(ts) == s;
      LeadingTokenOf(t, rest);
      assert s[|t|..] == rest;
      assert rest[1..] == JoinSpaced(ts[1..]);
      TokensOfJoinSpaced(ts[1..]);
    }
  }

  /** The text without its delimiters. */
  function NonDelimiters(s: string): string
  {
    if s == [] then []
    else if IsDelimiter(s[0]) then NonDelimiters(s[1..])
    else [s[0]] + NonDelimiters(s[1..])
  }

  function Concat(ts: seq<string>): string
  {
    if ts == [] then [] else ts[0] + Concat(ts[1..])
  }

  lemma {:induction false} NonDelimitersAppend(a: string, b: string)
    ensures NonDelimiters(a + b) == NonDelimiters(a) + NonDelimiters(b)
  {
    if a == [] {
      assert a + b == b;
    } else {
      assert (a + b)[0] == a[0] && (a + b)[1..] == a[1..] + b;
      NonDelimitersAppend(a[1..], b);
    }
  }

  lemma {:induction false} NonDelimitersOfToken(t: string)
    requires NoDelimiter(t)
    ensures NonDelimiters(t) == t
  {
    if t != [] {
      NonDelimitersOfToken(t[1..]);
    }
  }

  /** Tokenising loses nothing but delimiters: the tokens, put together,
      are the text with its delimiters taken out. */
  lemma {:induction false} TokensLoseOnlyDelimiters(s: string)
    ensures Concat(Tokens(s)) == NonDelimiters(s)
    decreases |s|
  {
    if s == [] {
    } else if IsDelimiter(s[0]) {
      TokensLoseOnlyDelimiters(s[1..]);
    } else {
      var t := LeadingToken(s);
      var rest := s[|t|..];
      assert s == t + rest;
      TokensLoseOnlyDelimiters(rest);
      NonDelimitersAppend(t, rest);
      NonDelimitersOfToken(t);
      assert Tokens(s) == [t] + Tokens(rest);
    }
  }

  // ---------------------------------------------------------------------
  // String.split(sep, 2) for a one-character, non-special separator
  // ---------------------------------------------------------------------

  /** Index of the first `c` in `s`, or -1 (`String.indexOf`). */
  function IndexOf(s: string, c: char): (i: int)
    ensures -1 <= i < |s|
    ensures i == -1 <==> c !in s
    ensures 0 <= i ==> s[i] == c && c !in s[..i]
  {
    if s == [] then -1
    else if s[0] == c then 0
    else
      var j := IndexOf(s[1..], c);
      assert s[1..][..j + 1] == s[1..j + 2] || j == -1;
      if j == -1 then -1 else j + 1
  }

  /** `s.split(c, 2)`: the text before the first `c` and everything after it,
      kept even when empty; the whole text when there is no `c`. */
  function SplitFirst(s: string, c: char): (parts: seq<string>)
    ensures |parts| == if c in s then 2 else 1
    ensures |parts| == 1 ==> parts[0] == s
    ensures |parts| == 2 ==> s == parts[0] + [c] + parts[1] && c !in parts[0]
  {
    var i := IndexOf(s, c);
    if i < 0 then [s]
    else
      assert s == s[..i] + [c] + s[i + 1..];
      [s[..i], s[i + 1..]]
  }

  /** The two parts of `split(c, 2)` are unique: any way of writing `s` as a
      colon-free prefix, `c` and a rest is the one `SplitFirst` finds. */
  lemma SplitFirstOf(before: string, c: char, after: string)
    requires c !in before
    ensures SplitFirst(before + [c] + after, c) == [before, after]
  {
    var s := before + [c] + after;
    assert s[|before|] == c;
    assert s[..|before|] == before;
    var i := IndexOf(s, c);
    assert i <= |before|;
    assert i == |before|;
    assert s[|before| + 1..] == after;
  }
}
