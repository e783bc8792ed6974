/** The keyword scorer of the CV-intake handler: a fixed table of phrases
    with points, and `evaluate_cv`, which adds up the points of every phrase
    that appears, case-insensitively, somewhere in the CV text. */
module App {
  import opened Strings

  /** One item of the keyword table: a phrase and the points it is worth. */
  datatype Entry = Entry(keyword: string, points: int)

  /** `KEYWORDS`, in the dictionary's insertion order, which is the order
      `KEYWORDS.items()` visits it. */
  const KEYWORDS: seq<Entry> := [
    Entry("trabajo en equipo", 5),
    Entry("aws", 10),
    Entry("bases de datos", 5),
    Entry("python", 8),
    Entry("java", 5)
  ]

  predicate NonNegativeWeights(table: seq<Entry>) {
    forall e :: e in table ==> e.points >= 0
  }

  predicate PositiveWeights(table: seq<Entry>) {
    forall e :: e in table ==> e.points > 0
  }

  /** The sum of the table's points, the largest score a table can give. */
  function TotalPoints(table: seq<Entry>): int {
    if table == [] then 0 else table[0].points + TotalPoints(table[1..])
  }

  /** `keyword.lower() in text.lower()`: entry `e` earns its points on `text`. */
  predicate Matches(e: Entry, text: string): (r: bool)
    ensures r <==> exists i :: OccursAt(Lower(e.keyword), Lower(text), i)
  {
    IsSubstringIff(Lower(e.keyword), Lower(text));
    IsSubstring(Lower(e.keyword), Lower(text))
  }

  /** The score of `text` against `table`: each entry adds its points once
      when it matches, and nothing otherwise. */
  function Score(table: seq<Entry>, text: string): (r: int)
    ensures NonNegativeWeights(table) ==> 0 <= r <= TotalPoints(table)
  {
    if table == [] then 0
    else
      assert table[0] in table;
      assert forall e :: e in table[1..] ==> e in table;
      (if Matches(table[0], text) then table[0].points else 0) + Score(table[1..], text)
  }

  /** The entries of `table` that match `text`, in table order. */
  function Matched(table: seq<Entry>, text: string): (r: seq<Entry>)
    ensures forall e :: e in r <==> e in table && Matches(e, text)
    ensures forall e :: multiset(r)[e] == if Matches(e, text) then multiset(table)[e] else 0
    ensures |r| <= |table|
  {
    assert table != [] ==> table == [table[0]] + table[1..];
    if table == [] then []
    else (if Matches(table[0], text) then [table[0]] else []) + Matched(table[1..], text)
  }

  /** `evaluate_cv(text)`: walks the table once, accumulating into `total`. */
  method EvaluateCv(text: string) returns (total: int)
    ensures total == Score(KEYWORDS, text)
    ensures 0 <= total <= TotalPoints(KEYWORDS) == 33
  {
    total := 0;
    for i := 0 to |KEYWORDS|
      invariant total == Score(KEYWORDS[..i], text)
    {
      var (keyword, points) := (KEYWORDS[i].keyword, KEYWORDS[i].points);
      if IsSubstring(Lower(keyword), Lower(text)) {
        total := total + points;
      }
      assert KEYWORDS[..i + 1] == KEYWORDS[..i] + [KEYWORDS[i]];
      ScoreAppend(KEYWORDS[..i], [KEYWORDS[i]], text);
    }
    assert KEYWORDS[..|KEYWORDS|] == KEYWORDS;
    KeywordsPositive();
    KeywordsTotalPoints();
  }

  /** The points of the literal table add up to 33. */
  lemma KeywordsTotalPoints()
    ensures TotalPoints(KEYWORDS) == 33
  {
    var t := KEYWORDS;
    assert t[1..] == [t[1], t[2], t[3], t[4]];
    assert t[1..][1..] == [t[2], t[3], t[4]];
    assert t[1..][1..][1..] == [t[3], t[4]];
    assert t[1..][1..][1..][1..] == [t[4]];
  }

  lemma KeywordsPositive()
    ensures PositiveWeights(KEYWORDS)
  {
    var t := KEYWORDS;
    assert forall e :: e in t ==> e == t[0] || e == t[1] || e == t[2] || e == t[3] || e == t[4];
  }

  lemma KeywordsLowerCase()
    ensures forall e :: e in KEYWORDS ==> e.keyword != [] && IsLowerCase(e.keyword)
  {
    var t := KEYWORDS;
    assert forall e :: e in t ==> e == t[0] || e == t[1] || e == t[2] || e == t[3] || e == t[4];
    assert IsLowerCase(t[0].keyword) && IsLowerCase(t[1].keyword) by {}
    assert IsLowerCase(t[2].keyword) by {}
    assert IsLowerCase(t[3].keyword) && IsLowerCase(t[4].keyword) by {}
  }

  /** No keyword appears twice, as the table's keys are those of a dictionary. */
  lemma KeywordsDistinct()
    ensures forall i, j :: 0 <= i < j < |KEYWORDS| ==> KEYWORDS[i].keyword != KEYWORDS[j].keyword
  {
    var t := KEYWORDS;
    assert t[0].keyword[0] == 't' && t[1].keyword[0] == 'a' && t[2].keyword[0] == 'b';
    assert t[3].keyword[0] == 'p' && t[4].keyword[0] == 'j';
  }

  /** Scoring against a table split in two is the sum of the two scores; this
      is what lets the loop add one entry at a time. */
  lemma {:induction false} ScoreAppend(a: seq<Entry>, b: seq<Entry>, text: string)
    ensures Score(a + b, text) == Score(a, text) + Score(b, text)
  {
    if a == [] {
      assert a + b == b;
    } else {
      assert (a + b)[1..] == a[1..] + b;
      ScoreAppend(a[1..], b, text);
    }
  }

  lemma {:induction false} TotalPointsAppend(a: seq<Entry>, b: seq<Entry>)
    ensures TotalPoints(a + b) == TotalPoints(a) + TotalPoints(b)
  {
    if a == [] {
      assert a + b == b;
    } else {
      assert (a + b)[1..] == a[1..] + b;
      TotalPointsAppend(a[1..], b);
    }
  }

  /** The score is the sum of the points of exactly the matching entries. */
  lemma {:induction false} ScoreIsSumOfMatched(table: seq<Entry>, text: string)
    ensures Score(table, text) == TotalPoints(Matched(table, text))
  {
    if table != [] {
      var head := if Matches(table[0], text) then [table[0]] else [];
      TotalPointsAppend(head, Matched(table[1..], text));
      ScoreIsSumOfMatched(table[1..], text);
    }
  }

  /** With positive weights the score is 0 exactly when no entry matches. */
  lemma {:induction false} ScoreZeroIff(table: seq<Entry>, text: string)
    requires PositiveWeights(table)
    ensures Score(table, text) == 0 <==> forall e :: e in table ==> !Matches(e, text)
  {
    if table != [] {
      assert table[0] in table;
      assert forall e :: e in table[1..] ==> e in table;
      ScoreZeroIff(table[1..], text);
      assert forall e :: e in table ==> e == table[0] || e in table[1..];
    }
  }

  /** With positive weights the score is the table's total exactly when every
      entry matches. */
  lemma {:induction false} ScoreFullIff(table: seq<Entry>, text: string)
    requires PositiveWeights(table)
    ensures Score(table, text) == TotalPoints(table) <==> forall e :: e in table ==> Matches(e, text)
  {
    if table != [] {
      assert table[0] in table;
      assert forall e :: e in table[1..] ==> e in table;
      ScoreFullIff(table[1..], text);
      assert forall e :: e in table ==> e == table[0] || e in table[1..];
    }
  }

  /** Each entry is counted at most once: the score depends only on which
      entries match, not on how often or where their keywords occur. */
  lemma {:induction false} ScoreDependsOnlyOnMatches(table: seq<Entry>, t1: string, t2: string)
    requires forall e :: e in table ==> (Matches(e, t1) <==> Matches(e, t2))
    ensures Score(table, t1) == Score(table, t2)
  {
    if table != [] {
      assert table[0] in table;
      assert forall e :: e in table[1..] ==> e in table;
      ScoreDependsOnlyOnMatches(table[1..], t1, t2);
    }
  }

  /** Changing letter case never changes the score. */
  lemma ScoreIgnoresCase(table: seq<Entry>, t1: string, t2: string)
    requires Lower(t1) == Lower(t2)
    ensures Score(table, t1) == Score(table, t2)
  {
    ScoreDependsOnlyOnMatches(table, t1, t2);
  }

  /** A text scores the same as its lower-cased form. */
  lemma ScoreOfLower(table: seq<Entry>, text: string)
    ensures Score(table, Lower(text)) == Score(table, text)
  {
    LowerIdempotent(text);
    ScoreIgnoresCase(table, Lower(text), text);
  }

  /** Every entry matching `t` matches any text that contains `t`. */
  lemma MatchesInLarger(e: Entry, t: string, t': string)
    requires IsSubstring(Lower(t), Lower(t'))
    requires Matches(e, t)
    ensures Matches(e, t')
  {
    IsSubstringTransitive(Lower(e.keyword), Lower(t), Lower(t'));
  }

  /** With non-negative weights, a text that contains `t` (ignoring case)
      scores at least as much as `t`; if it also matches an entry that `t`
      does not, it scores at least that entry's points more. */
  lemma {:induction false} ScoreMonotone(table: seq<Entry>, t: string, t': string)
    requires NonNegativeWeights(table)
    requires IsSubstring(Lower(t), Lower(t'))
    ensures Score(table, t) <= Score(table, t')
    ensures forall e :: e in table && !Matches(e, t) && Matches(e, t') ==>
      Score(table, t) + e.points <= Score(table, t')
  {
    if table != [] {
      assert table[0] in table;
      assert forall e :: e in table[1..] ==> e in table;
      if Matches(table[0], t) {
        MatchesInLarger(table[0], t, t');
      }
      ScoreMonotone(table[1..], t, t');
      assert forall e :: e in table ==> e == table[0] || e in table[1..];
    }
  }

  /** Extending a text on either side never lowers its score. */
  lemma ScoreOfExtension(table: seq<Entry>, t: string, u: string)
    requires NonNegativeWeights(table)
    ensures Score(table, t) <= Score(table, t + u)
    ensures Score(table, t) <= Score(table, u + t)
  {
    IsSubstringOfConcat(t, u);
    LowerKeepsSubstring(t, t + u);
    LowerKeepsSubstring(t, u + t);
    ScoreMonotone(table, t, t + u);
    ScoreMonotone(table, t, u + t);
  }

  /** The empty text scores 0 when no keyword is empty. */
  lemma {:induction false} EmptyTextScoresZero(table: seq<Entry>)
    requires forall e :: e in table ==> e.keyword != []
    ensures Score(table, "") == 0
  {
    if table != [] {
      assert table[0] in table;
      assert forall e :: e in table[1..] ==> e in table;
      LongerIsNotSubstring(Lower(table[0].keyword), Lower(""));
      EmptyTextScoresZero(table[1..]);
    }
  }

  /** `evaluate_cv("")` is 0. */
  lemma EmptyCvScoresZero()
    ensures Score(KEYWORDS, "") == 0
  {
    KeywordsLowerCase();
    EmptyTextScoresZero(KEYWORDS);
  }

  /** The fixed table unrolled: one term per keyword, each tested against the
      lower-cased text. */
  lemma KeywordsScore(text: string)
    ensures Score(KEYWORDS, text) ==
      (if IsSubstring("trabajo en equipo", Lower(text)) then 5 else 0) +
      (if IsSubstring("aws", Lower(text)) then 10 else 0) +
      (if IsSubstring("bases de datos", Lower(text)) then 5 else 0) +
      (if IsSubstring("python", Lower(text)) then 8 else 0) +
      (if IsSubstring("java", Lower(text)) then 5 else 0)
  {
    KeywordsLowerCase();
    var t := KEYWORDS;
    forall k | 0 <= k < |t|
      ensures Lower(t[k].keyword) == t[k].keyword
    {
      assert t[k] in t;
      LowerOfLowerCase(t[k].keyword);
    }
    var t1, t2, t3, t4 := t[1..], t[2..], t[3..], t[4..];
    assert t1[1..] == t2 && t2[1..] == t3 && t3[1..] == t4 && t4[1..] == [];
    assert t1[0] == t[1] && t2[0] == t[2] && t3[0] == t[3] && t4[0] == t[4];
    assert Score(t4, text) == if Matches(t[4], text) then 5 else 0;
    assert Score(t3, text) == (if Matches(t[3], text) then 8 else 0) + Score(t4, text);
    assert Score(t2, text) == (if Matches(t[2], text) then 5 else 0) + Score(t3, text);
    assert Score(t1, text) == (if Matches(t[1], text) then 10 else 0) + Score(t2, text);
  }

  /** There is no word-boundary check: any text containing "python" and "aws",
      in any letter case, scores at least 18. */
  lemma PythonAndAwsScoreAtLeast18(text: string)
    requires IsSubstring("python", Lower(text)) && IsSubstring("aws", Lower(text))
    ensures Score(KEYWORDS, text) >= 18
  {
    KeywordsScore(text);
  }

  /** Any text containing "java", even as part of a longer word, earns its 5 points. */
  lemma JavaInsideWordScores(text: string)
    requires IsSubstring("java", Lower(text))
    ensures Score(KEYWORDS, text) >= 5
  {
    KeywordsScore(text);
  }

  /** "javascript", in any letter case, earns exactly the points of "java". */
  lemma JavaScriptScoresFive(text: string)
    requires Lower(text) == "javascript"
    ensures Score(KEYWORDS, text) == 5
  {
    var l := Lower(text);
    assert !IsSubstring("trabajo en equipo", l) by { LongerIsNotSubstring("trabajo en equipo", l); }
    assert !IsSubstring("aws", l) by { MissingCharIsNotSubstring("aws", l, 'w'); }
    assert !IsSubstring("bases de datos", l) by { LongerIsNotSubstring("bases de datos", l); }
    assert !IsSubstring("python", l) by { MissingCharIsNotSubstring("python", l, 'y'); }
    assert IsSubstring("java", l) by { assert IsPrefix("java", l); }
    KeywordsScore(text);
  }

  /** A keyword repeated in the text, in any letter case, is counted once:
      "python python python" scores 8, not 24. */
  lemma RepeatedKeywordCountsOnce(text: string)
    requires Lower(text) == "python python python"
    ensures Score(KEYWORDS, text) == 8
  {
    var l := Lower(text);
    assert !IsSubstring("trabajo en equipo", l) by { MissingCharIsNotSubstring("trabajo en equipo", l, 'a'); }
    assert !IsSubstring("aws", l) by { MissingCharIsNotSubstring("aws", l, 'a'); }
    assert !IsSubstring("bases de datos", l) by { MissingCharIsNotSubstring("bases de datos", l, 'a'); }
    assert IsSubstring("python", l) by { assert IsPrefix("python", l); }
    assert !IsSubstring("java", l) by { MissingCharIsNotSubstring("java", l, 'a'); }
    KeywordsScore(text);
  }

  /** "Python y AWS", in any letter case, earns the points of both keywords
      and nothing else. */
  lemma PythonAndAwsExample(text: string)
    requires Lower(text) == "python y aws"
    ensures Score(KEYWORDS, text) == 18
  {
    var l := Lower(text);
    assert !IsSubstring("trabajo en equipo", l) by { LongerIsNotSubstring("trabajo en equipo", l); }
    assert IsSubstring("aws", l) by {
      IsSubstringOfConcat("aws", "python y ");
      assert "python y " + "aws" == l;
    }
    assert !IsSubstring("bases de datos", l) by { LongerIsNotSubstring("bases de datos", l); }
    assert IsSubstring("python", l) by { assert IsPrefix("python", l); }
    assert !IsSubstring("java", l) by { MissingCharIsNotSubstring("java", l, 'j'); }
    KeywordsScore(text);
  }
}
