/** A worked example of the suggestion builder on the program's own condition
    table: runny nose, congestion and sneezing make a partial "Common Cold"
    match, because that condition also asks for a sore throat. */
module SuggestionExamples {
  import opened Text
  import opened KnowledgeBase
  import opened Clauses
  import opened Scoring
  import opened SuggestionBuilder

  /** A separator with a character that `s` lacks never occurs in `s`. */
  lemma AbsentCharNoSep(s: string, sep: string, c: char)
    requires c in sep && c !in s
    ensures !Contains(s, sep)
  {
    var j :| 0 <= j < |sep| && sep[j] == c;
    forall i | 0 <= i <= |s|
      ensures !OccursAt(s, sep, i)
    {
      if i + |sep| <= |s| {
        assert s[i..i + |sep|][j] == s[i + j];
        assert s[i + j] in s;
      }
    }
  }

  /** In `a + " " + b`, with no space in `a` or `b`, the only space is at
      index `|a|`. */
  lemma OnlySpace(a: string, b: string, j: int)
    requires ' ' !in a && ' ' !in b
    requires 0 <= j < |a + " " + b| && j != |a|
    ensures (a + " " + b)[j] != ' '
  {
    var s := a + " " + b;
    if j < |a| {
      assert s[j] == a[j];
      assert a[j] in a;
    } else {
      assert s[j] == b[j - |a| - 1];
      assert b[j - |a| - 1] in b;
    }
  }

  /** Two words joined by one space never hold a separator that begins and
      ends with a space, such as " or " or " and ". */
  lemma OneSpaceNoSep(a: string, b: string, sep: string)
    requires ' ' !in a && ' ' !in b
    requires |sep| >= 2 && sep[0] == ' ' && sep[|sep| - 1] == ' '
    ensures !Contains(a + " " + b, sep)
  {
    var s := a + " " + b;
    forall i | 0 <= i <= |s|
      ensures !OccursAt(s, sep, i)
    {
      if i + |sep| <= |s| {
        var w := s[i..i + |sep|];
        assert w[0] == s[i];
        assert w[|sep| - 1] == s[i + |sep| - 1];
        if i != |a| {
          OnlySpace(a, b, i);
        } else {
          OnlySpace(a, b, i + |sep| - 1);
        }
      }
    }
  }

  /** A trimmed text with neither separator is a single-token clause. */
  lemma SingleClause(t: string)
    requires Trimmed(t) && !Contains(t, OrSep) && !Contains(t, AndSep)
    ensures Classify(t) == Single(t)
  {
    TrimTrimmed(t);
  }

  /** "runny nose" is a single-token clause. */
  lemma RunnyNoseClause()
    ensures Classify("runny nose") == Single("runny nose")
  {
    assert "runny" + " " + "nose" == "runny nose";
    OneSpaceNoSep("runny", "nose", OrSep);
    AbsentCharNoSep("runny nose", AndSep, 'd');
    SingleClause("runny nose");
  }

  /** "congestion" is a single-token clause. */
  lemma CongestionClause()
    ensures Classify("congestion") == Single("congestion")
  {
    AbsentCharNoSep("congestion", OrSep, ' ');
    AbsentCharNoSep("congestion", AndSep, ' ');
    SingleClause("congestion");
  }

  /** "sneezing" is a single-token clause. */
  lemma SneezingClause()
    ensures Classify("sneezing") == Single("sneezing")
  {
    AbsentCharNoSep("sneezing", OrSep, ' ');
    AbsentCharNoSep("sneezing", AndSep, ' ');
    SingleClause("sneezing");
  }

  /** "sore throat" is a single-token clause. */
  lemma SoreThroatClause()
    ensures Classify("sore throat") == Single("sore throat")
  {
    assert "sore" + " " + "throat" == "sore throat";
    OneSpaceNoSep("sore", "throat", OrSep);
    AbsentCharNoSep("sore throat", AndSep, 'd');
    SingleClause("sore throat");
  }

  /** The symptoms of the example. */
  const ColdSymptoms: set<string> := {"runny nose", "congestion", "sneezing"}

  /** The first entry of the condition table is "Common Cold". */
  lemma ColdEntry()
    ensures Conditions[0] == ("Common Cold", ["runny nose", "congestion", "sneezing", "sore throat"])
  {
  }

  /** Four requirement texts that each read as a single token classify to
      four single-token clauses. */
  lemma FourSingles(a: string, b: string, c: string, d: string)
    requires Classify(a) == Single(a) && Classify(b) == Single(b)
    requires Classify(c) == Single(c) && Classify(d) == Single(d)
    ensures ClassifyAll([a, b, c, d]) == [Single(a), Single(b), Single(c), Single(d)]
  {
    var reqs := [a, b, c, d];
    var cs := ClassifyAll(reqs);
    assert cs[0] == Classify(reqs[0]) && reqs[0] == a;
    assert cs[1] == Classify(reqs[1]) && reqs[1] == b;
    assert cs[2] == Classify(reqs[2]) && reqs[2] == c;
    assert cs[3] == Classify(reqs[3]) && reqs[3] == d;
    ListOfFour(cs, Single(a), Single(b), Single(c), Single(d));
  }

  /** A four-element list is the display of its elements. */
  lemma ListOfFour(x: seq<Clause>, p: Clause, q: Clause, r: Clause, u: Clause)
    requires |x| == 4 && x[0] == p && x[1] == q && x[2] == r && x[3] == u
    ensures x == [p, q, r, u]
  {
  }

  /** The requirements of "Common Cold" are four single-token clauses. */
  lemma ColdClauses()
    ensures ClassifyAll(Conditions[0].1) ==
      [Single("runny nose"), Single("congestion"), Single("sneezing"), Single("sore throat")]
  {
    ColdEntry();
    RunnyNoseClause();
    CongestionClause();
    SneezingClause();
    SoreThroatClause();
    FourSingles("runny nose", "congestion", "sneezing", "sore throat");
  }

  /** Four single-token clauses of which only the last is absent score three,
      with that token missing. */
  lemma LastOfFourMissing(s: set<string>, t0: string, t1: string, t2: string, t3: string)
    requires t0 in s && t1 in s && t2 in s && t3 !in s
    ensures var cs := [Single(t0), Single(t1), Single(t2), Single(t3)];
      MatchedCount(s, cs) == 3 && MissingList(s, cs) == [t3]
  {
    var cs := [Single(t0), Single(t1), Single(t2), Single(t3)];
    assert cs[..0] == [];
    ScoreStep(s, cs, 0);
    ScoreStep(s, cs, 1);
    ScoreStep(s, cs, 2);
    ScoreStep(s, cs, 3);
    assert cs[..4] == cs;
  }

  /** Three of the four requirements are met, and "sore throat" is reported
      missing. */
  lemma ColdScore()
    ensures Score(ColdSymptoms, Conditions[0].1) == MatchResult(3, 4, ["sore throat"])
  {
    ColdClauses();
    LastOfFourMissing(ColdSymptoms, "runny nose", "congestion", "sneezing", "sore throat");
  }

  /** One scored condition contributes its own line, if any. */
  lemma LinesOne(x: Scored)
    ensures Lines([x]) == LineFor(x)
  {
    assert [x][..0] == [];
  }

  /** Scored conditions whose first one earns line `l` have lines that start
      with `l`. */
  lemma FirstLine(sc: seq<Scored>, l: string)
    requires |sc| > 0 && Lines([sc[0]]) == [l]
    ensures Lines(sc) == [l] + Lines(sc[1..])
  {
    HeadTail(sc);
    LinesAppend([sc[0]], sc[1..]);
  }

  /** A non-empty list is its head followed by its tail. */
  lemma HeadTail(sc: seq<Scored>)
    requires |sc| > 0
    ensures sc == [sc[0]] + sc[1..]
  {
  }

  /** A table whose first condition earns line `l` gives suggestions that
      start with `l`. */
  lemma FirstLineOver(s: set<string>, table: seq<Condition>, l: string)
    requires |table| > 0 && LineFor((table[0].0, Score(s, table[0].1))) == [l]
    ensures SuggestionsOver(s, table)[0] == l
  {
    var sc := ScoreAll(s, table);
    assert sc[0] == (table[0].0, Score(s, table[0].1));
    LinesOne(sc[0]);
    FirstLine(sc, l);
    var lines := Lines(sc);
    assert lines == [l] + Lines(sc[1..]);
    assert SuggestionsOver(s, table) == lines;
  }

  /** The suggestions for these symptoms open with the partial "Common Cold"
      line naming the sore throat as missing, not with an exact match. */
  lemma ColdIsPartial()
    ensures Suggestions(ColdSymptoms)[0] == PartialLine("Common Cold", ["sore throat"])
  {
    ColdScore();
    ColdEntry();
    var r := MatchResult(3, 4, ["sore throat"]);
    assert LineFor(("Common Cold", r)) == [PartialLine("Common Cold", ["sore throat"])];
    FirstLineOver(ColdSymptoms, Conditions, PartialLine("Common Cold", ["sore throat"]));
  }
}
