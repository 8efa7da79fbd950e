/** `_compute_suggestions`: one line per condition that matches exactly or
    partially, in the declaration order of the condition table, or a single
    fallback line when none does. */
module SuggestionBuilder {
  import opened Text
  import opened KnowledgeBase
  import opened Clauses
  import opened Scoring

  const FallbackMessage: string :=
    "No strong rule-based matches." + " Consider rest, fluids, and monitoring.\n"
    + "Seek care if symptoms worsen, high fever lasts >3 days, breathing trouble, or red flags appear."

  /** The line for a condition whose clauses are all satisfied. */
  function ExactLine(name: string): string {
    "You may have: " + name + "! (All key features matched)\nAdvice: " + AdviceFor(name)
  }

  /** The line for a partially matched condition, listing what is missing. */
  function PartialLine(name: string, missing: seq<string>): string {
    "You are showing many features of: " + name + ". Missing: " + Join(missing, ", ")
    + ".\nAdvice: " + AdviceFor(name)
  }

  /** Every clause matched, over a non-empty requirement list. */
  predicate IsExact(r: MatchResult) {
    r.total > 0 && r.matched == r.total
  }

  /** Not exact, but `matched / total >= 0.70`, stated without division as
      `10 * matched >= 7 * total`. (A score has `matched <= total`, so "not
      exact" is `matched < total`; see PartialIsFewer.) */
  predicate IsPartial(r: MatchResult) {
    r.total > 0 && r.matched != r.total && 10 * r.matched >= 7 * r.total
  }

  /** A scored condition earns a line. */
  predicate Qualifies(r: MatchResult) {
    IsExact(r) || IsPartial(r)
  }

  /** A condition's name with its score. */
  type Scored = (string, MatchResult)

  /** Every condition of `conds` scored against the set, in order. */
  function ScoreAll(s: set<string>, conds: seq<Condition>): (sc: seq<Scored>)
    ensures |sc| == |conds|
    ensures forall i :: 0 <= i < |conds| ==> sc[i] == (conds[i].0, Score(s, conds[i].1))
  {
    seq(|conds|, i requires 0 <= i < |conds| => (conds[i].0, Score(s, conds[i].1)))
  }

  /** The lines one scored condition contributes: the exact line, the
      partial line, or none; a condition with no requirements contributes
      none. */
  function LineFor(c: Scored): (r: seq<string>)
    ensures |r| <= 1
    ensures r != [] <==> Qualifies(c.1)
    ensures IsExact(c.1) ==> r == [ExactLine(c.0)]
    ensures IsPartial(c.1) ==> r == [PartialLine(c.0, c.1.missing)]
    ensures c.1.total == 0 ==> r == []
  {
    var (name, sc) := c;
    if sc.total == 0 then []
    else if sc.matched == sc.total then [ExactLine(name)]
    else if 10 * sc.matched >= 7 * sc.total then [PartialLine(name, sc.missing)]
    else []
  }

  /** The lines of the scored conditions `sc`, in their order. */
  function Lines(sc: seq<Scored>): seq<string>
    decreases |sc|
  {
    if sc == [] then []
    else
      var n := |sc| - 1;
      Lines(sc[..n]) + LineFor(sc[n])
  }

  /** What `_compute_suggestions` returns when it walks the condition table
      `table`: the condition lines, or the fallback line when there are none. */
  function SuggestionsOver(s: set<string>, table: seq<Condition>): seq<string> {
    var lines := Lines(ScoreAll(s, table));
    if lines == [] then [FallbackMessage] else lines
  }

  /** The specification of `_compute_suggestions(user_set)`, over the
      program's condition table. */
  function Suggestions(s: set<string>): seq<string> {
    SuggestionsOver(s, Conditions)
  }

  /** Extending a prefix of the scored list by one condition. */
  lemma LinesStep(sc: seq<Scored>, i: nat)
    requires i < |sc|
    ensures Lines(sc[..i + 1]) == Lines(sc[..i]) + LineFor(sc[i])
  {
    assert sc[..i + 1][..i] == sc[..i];
  }

  /** The loop of `_compute_suggestions`: scores every condition of `table`
      in order and keeps the exact and partial lines. */
  method SuggestionsFor(s: set<string>, table: seq<Condition>) returns (outputs: seq<string>)
    ensures outputs == SuggestionsOver(s, table)
  {
    ghost var scored := ScoreAll(s, table);
    outputs := [];
    for i := 0 to |table|
      invariant outputs == Lines(scored[..i])
    {
      LinesStep(scored, i);
      var name, reqs := table[i].0, table[i].1;
      var matched, total, missing := ConditionMatchScore(s, reqs);
      assert scored[i] == (name, MatchResult(matched, total, missing));
      if total == 0 {
        continue;
      }
      if matched == total {
        outputs := outputs + [ExactLine(name)];
      } else {
        if 10 * matched >= 7 * total {
          outputs := outputs + [PartialLine(name, missing)];
        }
      }
    }
    assert scored[..|table|] == scored;
    if outputs == [] {
      outputs := [FallbackMessage];
    }
  }

  /** `_compute_suggestions(user_set)`: the loop over the program's condition
      table. */
  method ComputeSuggestions(s: set<string>) returns (outputs: seq<string>)
    ensures outputs == Suggestions(s)
  {
    outputs := SuggestionsFor(s, Conditions);
  }

  /** The lines of `a + b` are those of `a` followed by those of `b`: output
      follows the declaration order of the table. */
  lemma {:induction false} LinesAppend(a: seq<Scored>, b: seq<Scored>)
    ensures Lines(a + b) == Lines(a) + Lines(b)
    decreases |b|
  {
    if b == [] {
      assert a + b == a;
    } else {
      var n := |b| - 1;
      assert (a + b)[..|a + b| - 1] == a + b[..n];
      assert (a + b)[|a + b| - 1] == b[n];
      LinesAppend(a, b[..n]);
    }
  }

  /** No line at all exactly when no condition qualifies. */
  lemma {:induction false} LinesEmpty(sc: seq<Scored>)
    ensures Lines(sc) == [] <==> forall i :: 0 <= i < |sc| ==> !Qualifies(sc[i].1)
    decreases |sc|
  {
    if sc != [] {
      var n := |sc| - 1;
      var prefix := sc[..n];
      var last := LineFor(sc[n]);
      LinesEmpty(prefix);
      assert Lines(sc) == Lines(prefix) + last;
      if Lines(sc) == [] {
        assert Lines(prefix) == [] && last == [];
        forall i | 0 <= i < |sc| ensures !Qualifies(sc[i].1) {
          if i < n {
            assert sc[i] == prefix[i];
          }
        }
      }
      if forall i :: 0 <= i < |sc| ==> !Qualifies(sc[i].1) {
        forall i | 0 <= i < n ensures !Qualifies(prefix[i].1) {
          assert prefix[i] == sc[i];
        }
        assert last == [];
      }
    }
  }

  /** Condition lines begin with "You", so none of them is the fallback line. */
  lemma {:induction false} LinesAreNotFallback(sc: seq<Scored>)
    ensures FallbackMessage !in Lines(sc)
    decreases |sc|
  {
    if sc != [] {
      var n := |sc| - 1;
      LinesAreNotFallback(sc[..n]);
      assert ExactLine(sc[n].0)[0] == 'Y';
      assert PartialLine(sc[n].0, sc[n].1.missing)[0] == 'Y';
      assert FallbackMessage[0] == 'N';
    }
  }

  /** The result is never empty, and it is the single fallback line exactly
      when no condition of the table qualifies. */
  lemma FallbackOver(s: set<string>, table: seq<Condition>)
    ensures SuggestionsOver(s, table) != []
    ensures SuggestionsOver(s, table) == [FallbackMessage] <==>
      forall i :: 0 <= i < |table| ==> !Qualifies(Score(s, table[i].1))
  {
    var sc := ScoreAll(s, table);
    var lines := Lines(sc);
    LinesEmpty(sc);
    LinesAreNotFallback(sc);
    assert SuggestionsOver(s, table) == if lines == [] then [FallbackMessage] else lines;
    if lines == [] {
      forall i | 0 <= i < |table| ensures !Qualifies(Score(s, table[i].1)) {
        assert sc[i].1 == Score(s, table[i].1);
      }
    }
    if forall i :: 0 <= i < |table| ==> !Qualifies(Score(s, table[i].1)) {
      forall i | 0 <= i < |sc| ensures !Qualifies(sc[i].1) {
        assert sc[i].1 == Score(s, table[i].1);
      }
    }
  }

  /** The same for the program's condition table. */
  lemma SuggestionsFallback(s: set<string>)
    ensures Suggestions(s) != []
    ensures Suggestions(s) == [FallbackMessage] <==>
      forall i :: 0 <= i < |Conditions| ==> !Qualifies(Score(s, Conditions[i].1))
  {
    FallbackOver(s, Conditions);
  }

  /** At ten requirements, seven matched reaches the 0.70 threshold and six
      does not. */
  lemma ThresholdBoundary(name: string, missing: seq<string>)
    ensures LineFor((name, MatchResult(7, 10, missing))) == [PartialLine(name, missing)]
    ensures LineFor((name, MatchResult(6, 10, missing))) == []
  {
  }

  /** A partial match of a real score has fewer matched clauses than
      requirements, and reaches the threshold. */
  lemma PartialIsFewer(s: set<string>, reqs: seq<string>)
    ensures var r := Score(s, reqs);
      IsPartial(r) <==> 0 < r.total && r.matched < r.total && 10 * r.matched >= 7 * r.total
  {
  }

  /** An exact match stays exact when more symptoms are reported. */
  lemma ExactStaysExact(s: set<string>, t: set<string>, reqs: seq<string>)
    requires s <= t && IsExact(Score(s, reqs))
    ensures IsExact(Score(t, reqs))
  {
    MatchedMonotone(s, t, ClassifyAll(reqs));
  }
}
