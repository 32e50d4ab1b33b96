/** lib/string.c: strtok_r() finds exactly the words of a string, between whatever delimiters. */
module CommandLine {
  import opened UserStack

  /** Characters of which none is a delimiter, or all are. */
  ghost predicate IsWord(w: seq<int>, ds: seq<int>) {
    w != [] && forall i :: 0 <= i < |w| ==> w[i] != 0 && w[i] !in ds
  }

  ghost predicate IsGap(g: seq<int>, ds: seq<int>) {
    forall i :: 0 <= i < |g| ==> g[i] != 0 && g[i] in ds
  }

  /** A gap before each word and one at the end; only the first and the last may be empty. */
  ghost predicate WellSpaced(words: seq<seq<int>>, gaps: seq<seq<int>>, ds: seq<int>) {
    && |gaps| == |words| + 1
    && (forall i :: 0 <= i < |words| ==> IsWord(words[i], ds))
    && (forall i :: 0 <= i < |gaps| ==> IsGap(gaps[i], ds))
    && (forall i :: 0 < i < |words| ==> gaps[i] != [])
  }

  /** The gaps and the words by turns, and then `end`. */
  ghost function Line(words: seq<seq<int>>, gaps: seq<seq<int>>, end: seq<int>): seq<int>
    requires |gaps| == |words| + 1
  {
    gaps[0] + if words == [] then end else words[0] + Line(words[1..], gaps[1..], end)
  }

  // ---- The words of a line -------------------------------------------------------------------

  lemma {:induction false} SkipIs(s: seq<int>, ds: seq<int>, p: nat, q: nat)
    requires Terminated(s) && p <= q < |s| && (forall i :: p <= i < q ==> s[i] != 0 && s[i] in ds)
    requires s[q] == 0 || s[q] !in ds
    ensures Skip(s, ds, p) == q
    decreases q - p
  {
    if p < q {
      SkipIs(s, ds, p + 1, q);
    }
  }

  lemma {:induction false} EndIs(s: seq<int>, ds: seq<int>, p: nat, q: nat)
    requires Terminated(s) && p <= q < |s| && (forall i :: p <= i < q ==> s[i] != 0 && s[i] !in ds)
    requires s[q] == 0 || s[q] in ds
    ensures End(s, ds, p) == q
    decreases q - p
  {
    if p < q {
      EndIs(s, ds, p + 1, q);
    }
  }

  /** Only a gap is left. */
  lemma NoMoreWords(s: seq<int>, ds: seq<int>, p: nat, q: nat)
    requires Terminated(s) && p <= q < |s| && IsGap(s[p..q], ds) && s[q] == 0
    ensures Tokens(s, ds, p) == []
  {
    forall i | p <= i < q
      ensures s[i] != 0 && s[i] in ds
    {
      assert s[i] == s[p..q][i - p];
    }
    SkipIs(s, ds, p, q);
  }

  /** A gap, a word, and then null or a delimiter. */
  lemma FirstWord(s: seq<int>, ds: seq<int>, p: nat, q: nat, e: nat)
    requires Terminated(s) && p <= q < e < |s| && IsGap(s[p..q], ds) && IsWord(s[q..e], ds)
    requires s[e] == 0 || s[e] in ds
    ensures Tokens(s, ds, p) == [s[q..e]] + MoreTokens(s, ds, e)
  {
    forall i | p <= i < q
      ensures s[i] != 0 && s[i] in ds
    {
      assert s[i] == s[p..q][i - p];
    }
    forall i | q <= i < e
      ensures s[i] != 0 && s[i] !in ds
    {
      assert s[i] == s[q..e][i - q];
    }
    SkipIs(s, ds, p, q);
    EndIs(s, ds, q, e);
  }

  /** The string from `p` on is `a` and then `rest`. */
  lemma Cut(s: seq<int>, p: nat, a: seq<int>, rest: seq<int>)
    requires p <= |s| && s[p..] == a + rest
    ensures p + |a| <= |s| && s[p..p + |a|] == a && s[p + |a|..] == rest
    ensures rest != [] ==> p + |a| < |s| && s[p + |a|] == rest[0]
  {
    assert |s| - p == |a| + |rest|;
    assert s[p..p + |a|] == s[p..][..|a|] && s[p + |a|..] == s[p..][|a|..];
    assert rest != [] ==> s[p + |a|..][0] == rest[0];
  }

  /** The words that strtok_r() finds in a line from `p` on are its words, whatever comes before and after. */
  lemma {:induction false} TokensAreWords(s: seq<int>, ds: seq<int>, p: nat, words: seq<seq<int>>, gaps: seq<seq<int>>,
                                          end: seq<int>)
    requires Terminated(s) && p < |s| && WellSpaced(words, gaps, ds) && s[p..] == Line(words, gaps, end)
    requires end != [] && end[0] == 0
    ensures Tokens(s, ds, p) == words
    decreases |words|, 1
  {
    if words == [] {
      Cut(s, p, gaps[0], end);
      NoMoreWords(s, ds, p, p + |gaps[0]|);
    } else {
      LineStarts(words, gaps, ds, end);
      var e := OneWord(s, ds, p, gaps[0], words[0], Line(words[1..], gaps[1..], end));
      MoreTokensAreWords(s, ds, e, words, gaps, end);
      FrontAndRest(words);
    }
  }

  lemma FrontAndRest(words: seq<seq<int>>)
    requires words != []
    ensures words == [words[0]] + words[1..]
  {
  }

  lemma OneWord(s: seq<int>, ds: seq<int>, p: nat, gap: seq<int>, word: seq<int>, line: seq<int>) returns (e: nat)
    requires Terminated(s) && p < |s| && s[p..] == gap + (word + line) && IsGap(gap, ds) && IsWord(word, ds)
    requires line != [] && (line[0] == 0 || line[0] in ds)
    ensures e < |s| && Tokens(s, ds, p) == [word] + MoreTokens(s, ds, e) && s[e..] == line
  {
    var q;
    q, e := CutTwo(s, p, gap, word, line);
    FirstWord(s, ds, p, q, e);
  }

  lemma CutTwo(s: seq<int>, p: nat, gap: seq<int>, word: seq<int>, line: seq<int>) returns (q: nat, e: nat)
    requires p <= |s| && s[p..] == gap + (word + line) && line != [] && word != []
    ensures p <= q < e < |s| && s[p..q] == gap && s[q..e] == word && s[e..] == line && s[e] == line[0]
  {
    Cut(s, p, gap, word + line);
    q := p + |gap|;
    Cut(s, q, word, line);
    e := q + |word|;
  }

  lemma {:induction false} MoreTokensAreWords(s: seq<int>, ds: seq<int>, e: nat, words: seq<seq<int>>,
                                              gaps: seq<seq<int>>, end: seq<int>)
    requires Terminated(s) && e < |s| && WellSpaced(words, gaps, ds) && words != []
    requires s[e..] == Line(words[1..], gaps[1..], end) && end != [] && end[0] == 0
    ensures MoreTokens(s, ds, e) == words[1..]
    decreases |words|, 0
  {
    assert s[e] == s[e..][0];
    if gaps[1] == [] {
      assert words[1..] == [] && gaps[1..][0] + end == end;
    } else {
      var gaps' := [gaps[1][1..]] + gaps[2..];
      ShorterGap(words, gaps, ds, gaps');
      ShorterLine(words[1..], gaps, gaps', end);
      assert IsGap(gaps[1], ds) && s[e] == gaps[1][0] && s[e + 1..] == s[e..][1..];
      TokensAreWords(s, ds, e + 1, words[1..], gaps', end);
    }
  }

  /** What comes after a word starts with a delimiter or the null. */
  lemma LineStarts(words: seq<seq<int>>, gaps: seq<seq<int>>, ds: seq<int>, end: seq<int>)
    requires WellSpaced(words, gaps, ds) && words != [] && end != [] && end[0] == 0
    ensures var line := Line(words[1..], gaps[1..], end); line != [] && (line[0] == 0 || line[0] in ds)
  {
    var line := Line(words[1..], gaps[1..], end);
    if gaps[1] != [] {
      assert line[0] == gaps[1][0] && IsGap(gaps[1], ds);
    } else {
      assert words[1..] == [];
    }
  }

  lemma ShorterGap(words: seq<seq<int>>, gaps: seq<seq<int>>, ds: seq<int>, gaps': seq<seq<int>>)
    requires WellSpaced(words, gaps, ds) && words != [] && gaps[1] != [] && gaps' == [gaps[1][1..]] + gaps[2..]
    ensures WellSpaced(words[1..], gaps', ds)
  {
    var rest := words[1..];
    forall i | 0 <= i < |gaps'|
      ensures IsGap(gaps'[i], ds)
    {
      assert gaps'[i] == if i == 0 then gaps[1][1..] else gaps[i + 1];
      assert IsGap(gaps[i + 1], ds);
    }
    forall i | 0 <= i < |rest|
      ensures IsWord(rest[i], ds) && (i > 0 ==> gaps'[i] != [])
    {
      assert rest[i] == words[i + 1];
    }
  }

  lemma ShorterLine(rest: seq<seq<int>>, gaps: seq<seq<int>>, gaps': seq<seq<int>>, end: seq<int>)
    requires |gaps| == |rest| + 2 && gaps[1] != [] && gaps' == [gaps[1][1..]] + gaps[2..] && end != []
    ensures var line := Line(rest, gaps[1..], end);
            |line| > 1 && line[0] == gaps[1][0] && Line(rest, gaps', end) == line[1..]
  {
    var more := if rest == [] then end else rest[0] + Line(rest[1..], gaps[2..], end);
    assert gaps'[1..] == gaps[2..] == gaps[1..][1..];
    assert Line(rest, gaps[1..], end) == gaps[1] + more && Line(rest, gaps', end) == gaps[1][1..] + more;
    NotEmpty(rest, gaps', end);
  }

  lemma {:induction false} NotEmpty(words: seq<seq<int>>, gaps: seq<seq<int>>, end: seq<int>)
    requires |gaps| == |words| + 1 && end != []
    ensures Line(words, gaps, end) != []
  {
    if words != [] {
      NotEmpty(words[1..], gaps[1..], end);
    }
  }

  /** The words of a command line: any words without blanks and nulls, with any blanks around them and at least one
      between two. */
  lemma WordsOfLine(words: seq<seq<int>>, gaps: seq<seq<int>>, line: seq<int>)
    requires WellSpaced(words, gaps, [32]) && line == Line(words, gaps, [0])
    ensures Terminated(line) && Words(line, 0) == words
  {
    LineEnds(words, gaps);
    TokensAreWords(line, [32], 0, words, gaps, [0]);
  }

  lemma {:induction false} LineEnds(words: seq<seq<int>>, gaps: seq<seq<int>>)
    requires |gaps| == |words| + 1
    ensures Terminated(Line(words, gaps, [0]))
  {
    if words != [] {
      LineEnds(words[1..], gaps[1..]);
    }
  }

  /** For instance "echo x" has the words "echo" and "x". */
  lemma EchoX(line: seq<int>)
    requires line == [101, 99, 104, 111, 32, 120, 0]
    ensures Terminated(line) && Words(line, 0) == [[101, 99, 104, 111], [120]]
  {
    var none: seq<int> := [];
    var words: seq<seq<int>>, gaps: seq<seq<int>> := [[101, 99, 104, 111], [120]], [none, [32], none];
    assert words[1..] == [[120]] && gaps[1..] == [[32], none] && gaps[1..][1..] == [none] && |words[1..][1..]| == 0;
    assert Line(words[1..][1..], [none], [0]) == [0];
    assert Line(words[1..], gaps[1..], [0]) == [32] + ([120] + [0]);
    WordsOfLine(words, gaps, line);
  }

  // ---- Every line has words ------------------------------------------------------------------

  /** Every string without a null is such gaps and words. */
  lemma {:induction false} EveryLine(s: seq<int>, ds: seq<int>) returns (words: seq<seq<int>>, gaps: seq<seq<int>>)
    requires 0 !in s
    ensures WellSpaced(words, gaps, ds) && Line(words, gaps, [0]) == s + [0]
  {
    if s == [] {
      words, gaps := [], [[]];
    } else {
      words, gaps := EveryLine(s[1..], ds);
      assert s + [0] == [s[0]] + (s[1..] + [0]) && s[0] in s;
      words, gaps := OneMore(s[0], words, gaps, ds);
    }
  }

  /** With one more character in front. */
  lemma OneMore(c: int, words: seq<seq<int>>, gaps: seq<seq<int>>, ds: seq<int>)
    returns (words': seq<seq<int>>, gaps': seq<seq<int>>)
    requires c != 0 && WellSpaced(words, gaps, ds)
    ensures WellSpaced(words', gaps', ds) && Line(words', gaps', [0]) == [c] + Line(words, gaps, [0])
  {
    if c in ds {
      words', gaps' := words, [[c] + gaps[0]] + gaps[1..];
      LongerGap(c, words, gaps, gaps', ds);
    } else if words != [] && gaps[0] == [] {
      words', gaps' := [[c] + words[0]] + words[1..], gaps;
      LongerWord(c, words, words', gaps, ds);
    } else {
      words', gaps' := [[c]] + words, [[]] + gaps;
      assert words'[1..] == words && gaps'[1..] == gaps;
      assert [] + ([c] + Line(words, gaps, [0])) == [c] + Line(words, gaps, [0]);
    }
  }

  lemma LongerGap(c: int, words: seq<seq<int>>, gaps: seq<seq<int>>, gaps': seq<seq<int>>, ds: seq<int>)
    requires c != 0 && c in ds && WellSpaced(words, gaps, ds) && gaps' == [[c] + gaps[0]] + gaps[1..]
    ensures WellSpaced(words, gaps', ds) && Line(words, gaps', [0]) == [c] + Line(words, gaps, [0])
  {
    assert IsGap(gaps[0], ds) && IsGap([c] + gaps[0], ds);
    forall i | 0 <= i < |gaps'|
      ensures IsGap(gaps'[i], ds)
    {
      assert i > 0 ==> gaps'[i] == gaps[i];
    }
    LongerGapLine(c, words, gaps, gaps');
  }

  lemma LongerGapLine(c: int, words: seq<seq<int>>, gaps: seq<seq<int>>, gaps': seq<seq<int>>)
    requires |gaps| == |words| + 1 && gaps' == [[c] + gaps[0]] + gaps[1..]
    ensures Line(words, gaps', [0]) == [c] + Line(words, gaps, [0])
  {
    assert gaps'[1..] == gaps[1..];
  }

  lemma LongerWord(c: int, words: seq<seq<int>>, words': seq<seq<int>>, gaps: seq<seq<int>>, ds: seq<int>)
    requires c != 0 && c !in ds && WellSpaced(words, gaps, ds) && words != [] && gaps[0] == []
    requires words' == [[c] + words[0]] + words[1..]
    ensures WellSpaced(words', gaps, ds) && Line(words', gaps, [0]) == [c] + Line(words, gaps, [0])
  {
    assert words'[1..] == words[1..] && IsWord(words[0], ds);
    forall i | 0 <= i < |words'|
      ensures IsWord(words'[i], ds)
    {
      assert i > 0 ==> words'[i] == words[i];
    }
    var rest := Line(words[1..], gaps[1..], [0]);
    assert [] + ([c] + words[0] + rest) == [c] + ([] + (words[0] + rest));
  }
}
