/** `condition_match_score`: scores one condition's requirement list against
    the user's set. */
module Scoring {
  import opened Text
  import opened SymptomSets
  import opened Clauses

  datatype MatchResult = MatchResult(matched: nat, total: nat, missing: seq<string>)

  /** Every requirement text of a condition, classified. */
  function ClassifyAll(reqs: seq<string>): (cs: seq<Clause>)
    ensures |cs| == |reqs|
    ensures forall i :: 0 <= i < |reqs| ==> cs[i] == Classify(reqs[i])
  {
    seq(|reqs|, i requires 0 <= i < |reqs| => Classify(reqs[i]))
  }

  /** The number of clauses of `cs` the set satisfies. */
  function MatchedCount(s: set<string>, cs: seq<Clause>): nat
    decreases |cs|
  {
    if cs == [] then 0
    else
      var n := |cs| - 1;
      MatchedCount(s, cs[..n]) + (if Satisfied(cs[n], s) then 1 else 0)
  }

  /** The missing descriptions of the unsatisfied clauses of `cs`, in
      clause order. */
  function MissingList(s: set<string>, cs: seq<Clause>): seq<string>
    decreases |cs|
  {
    if cs == [] then []
    else
      var n := |cs| - 1;
      MissingList(s, cs[..n]) + (if Satisfied(cs[n], s) then [] else [MissingText(cs[n], s)])
  }

  /** Each clause adds exactly one to the matched count or exactly one entry
      to the missing list. */
  lemma {:induction false} Balance(s: set<string>, cs: seq<Clause>)
    ensures MatchedCount(s, cs) + |MissingList(s, cs)| == |cs|
    decreases |cs|
  {
    if cs != [] {
      Balance(s, cs[..|cs| - 1]);
    }
  }

  /** The specification of `condition_match_score`: the matched count, the
      number of requirements, and the missing descriptions. */
  function Score(s: set<string>, reqs: seq<string>): (r: MatchResult)
    ensures r.total == |reqs|
    ensures r.matched <= r.total
    ensures r.matched + |r.missing| == r.total
  {
    var cs := ClassifyAll(reqs);
    Balance(s, cs);
    MatchResult(MatchedCount(s, cs), |reqs|, MissingList(s, cs))
  }

  /** Extending a prefix of the clause list by one clause. */
  lemma ScoreStep(s: set<string>, cs: seq<Clause>, i: nat)
    requires i < |cs|
    ensures MatchedCount(s, cs[..i + 1]) == MatchedCount(s, cs[..i]) + (if Satisfied(cs[i], s) then 1 else 0)
    ensures MissingList(s, cs[..i + 1]) ==
      MissingList(s, cs[..i]) + (if Satisfied(cs[i], s) then [] else [MissingText(cs[i], s)])
  {
    assert cs[..i + 1][..i] == cs[..i];
  }

  /** `condition_match_score(user_set, req_list)`: one pass over the
      requirement texts that counts satisfied clauses and collects the
      missing descriptions. */
  method ConditionMatchScore(s: set<string>, reqs: seq<string>)
    returns (matched: nat, total: nat, missing: seq<string>)
    ensures MatchResult(matched, total, missing) == Score(s, reqs)
  {
    ghost var cs := ClassifyAll(reqs);
    matched := 0;
    missing := [];
    for i := 0 to |reqs|
      invariant matched == MatchedCount(s, cs[..i])
      invariant missing == MissingList(s, cs[..i])
    {
      ScoreStep(s, cs, i);
      ghost var c := cs[i];
      assert c == Classify(reqs[i]);
      var text := Trim(reqs[i]);
      if Contains(text, OrSep) {
        var options := TrimAll(Split(text, OrSep));
        assert c == AnyOf(options);
        var anyPresent := HasAny(s, options);
        assert Satisfied(c, s) == anyPresent;
        if anyPresent {
          matched := matched + 1;
        } else {
          assert MissingText(c, s) == OneOfText(options);
          missing := missing + [OneOfText(options)];
        }
      } else if Contains(text, AndSep) {
        var parts := TrimAll(Split(text, AndSep));
        assert c == AllOf(parts);
        var haveAll := AllIn(s, parts);
        assert Satisfied(c, s) == haveAll;
        if haveAll {
          matched := matched + 1;
        } else {
          assert MissingText(c, s) == AllOfText(AbsentParts(s, parts));
          missing := missing + [AllOfText(AbsentParts(s, parts))];
        }
      } else {
        assert c == Single(text);
        assert Satisfied(c, s) == (text in s);
        if text in s {
          matched := matched + 1;
        } else {
          missing := missing + [text];
        }
      }
    }
    assert cs[..|reqs|] == cs;
    total := |reqs|;
  }

  /** Scoring distributes over concatenation: the missing list of `a + b` is
      that of `a` followed by that of `b`. */
  lemma {:induction false} ScoreAppend(s: set<string>, a: seq<Clause>, b: seq<Clause>)
    ensures MatchedCount(s, a + b) == MatchedCount(s, a) + MatchedCount(s, b)
    ensures MissingList(s, a + b) == MissingList(s, a) + MissingList(s, b)
    decreases |b|
  {
    if b == [] {
      assert a + b == a;
    } else {
      var n := |b| - 1;
      assert (a + b)[..|a + b| - 1] == a + b[..n];
      assert (a + b)[|a + b| - 1] == b[n];
      ScoreAppend(s, a, b[..n]);
    }
  }

  /** A single clause scores one matched and nothing missing, or nothing
      matched and its own missing description. */
  lemma ScoreSingle(s: set<string>, req: string)
    ensures var c := Classify(req);
      Score(s, [req]) ==
        if Satisfied(c, s) then MatchResult(1, 1, []) else MatchResult(0, 1, [MissingText(c, s)])
  {
    var cs := ClassifyAll([req]);
    assert cs[..0] == [];
  }

  /** All clauses are satisfied exactly when the matched count is the total. */
  lemma {:induction false} FullMatch(s: set<string>, cs: seq<Clause>)
    ensures MatchedCount(s, cs) == |cs| <==> forall i :: 0 <= i < |cs| ==> Satisfied(cs[i], s)
    decreases |cs|
  {
    if cs != [] {
      var n := |cs| - 1;
      var prefix := cs[..n];
      FullMatch(s, prefix);
      Balance(s, prefix);
      assert forall i :: 0 <= i < n ==> prefix[i] == cs[i];
    }
  }

  /** A requirement list is fully matched exactly when every requirement
      text, classified, is satisfied, and exactly when nothing is missing. */
  lemma ScoreFull(s: set<string>, reqs: seq<string>)
    ensures var r := Score(s, reqs);
      r.matched == r.total <==> forall i :: 0 <= i < |reqs| ==> Satisfied(Classify(reqs[i]), s)
    ensures var r := Score(s, reqs); r.matched == r.total <==> r.missing == []
  {
    var cs := ClassifyAll(reqs);
    FullMatch(s, cs);
    Balance(s, cs);
  }

  /** Reporting more symptoms never lowers the matched count. */
  lemma {:induction false} MatchedMonotone(s: set<string>, t: set<string>, cs: seq<Clause>)
    requires s <= t
    ensures MatchedCount(s, cs) <= MatchedCount(t, cs)
    decreases |cs|
  {
    if cs != [] {
      var n := |cs| - 1;
      MatchedMonotone(s, t, cs[..n]);
      if Satisfied(cs[n], s) {
        SatisfiedMonotone(cs[n], s, t);
      }
    }
  }
}
