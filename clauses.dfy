/** The requirement-clause grammar: a clause text containing " or " is a
    disjunction, else one containing " and " is a conjunction, else it is a
    single token. */
module Clauses {
  import opened Text
  import opened SymptomSets

  datatype Clause = Single(token: string) | AnyOf(options: seq<string>) | AllOf(parts: seq<string>)

  const OrSep: string := " or "
  const AndSep: string := " and "

  /** Reads a requirement text the way the scorer does: trim it, test for
      " or " first and for " and " second, and trim every piece. */
  function Classify(req: string): (c: Clause)
    ensures c.AnyOf? <==> Contains(Trim(req), OrSep)
    ensures c.AllOf? <==> !Contains(Trim(req), OrSep) && Contains(Trim(req), AndSep)
    ensures c.AnyOf? ==> |c.options| >= 2 && c.options == TrimAll(Split(Trim(req), OrSep))
    ensures c.AllOf? ==> |c.parts| >= 2 && c.parts == TrimAll(Split(Trim(req), AndSep))
    ensures c.Single? ==> c.token == Trim(req)
  {
    var text := Trim(req);
    if Contains(text, OrSep) then AnyOf(TrimAll(Split(text, OrSep)))
    else if Contains(text, AndSep) then AllOf(TrimAll(Split(text, AndSep)))
    else Single(text)
  }

  /** `[p for p in parts if p not in user_set]`, in order. */
  function AbsentParts(s: set<string>, parts: seq<string>): (r: seq<string>)
    ensures |r| <= |parts|
    ensures forall p :: p in r <==> p in parts && p !in s
    ensures r == [] <==> AllIn(s, parts)
    decreases |parts|
  {
    if parts == [] then []
    else
      var rest := AbsentParts(s, parts[1..]);
      assert forall i :: 1 <= i < |parts| ==> parts[i] == parts[1..][i - 1];
      (if parts[0] in s then [] else [parts[0]]) + rest
  }

  /** The first part is reported, if absent, before those of the rest. */
  lemma AbsentPartsCons(s: set<string>, x: seq<string>)
    requires x != []
    ensures AbsentParts(s, x) == (if x[0] in s then [] else [x[0]]) + AbsentParts(s, x[1..])
  {
  }

  /** The head and the tail of a concatenation with a non-empty front. */
  lemma ConsAppend(a: seq<string>, b: seq<string>)
    requires a != []
    ensures (a + b)[0] == a[0] && (a + b)[1..] == a[1..] + b
  {
  }

  /** Gluing a head onto both sides of a split list keeps the split. */
  lemma PrependSplit(h: seq<string>, x: seq<string>, y: seq<string>, whole: seq<string>, front: seq<string>)
    requires whole == h + (x + y) && front == h + x
    ensures whole == front + y
  {
  }

  /** The absent parts of `a + b` are those of `a` followed by those of `b`:
      the parts keep their order. */
  lemma {:induction false} AbsentPartsAppend(s: set<string>, a: seq<string>, b: seq<string>)
    ensures AbsentParts(s, a + b) == AbsentParts(s, a) + AbsentParts(s, b)
    decreases |a|
  {
    if a == [] {
      assert a + b == b;
    } else {
      ConsAppend(a, b);
      AbsentPartsCons(s, a + b);
      AbsentPartsCons(s, a);
      AbsentPartsAppend(s, a[1..], b);
      PrependSplit(if a[0] in s then [] else [a[0]], AbsentParts(s, a[1..]), AbsentParts(s, b),
        AbsentParts(s, a + b), AbsentParts(s, a));
    }
  }

  /** One part is reported exactly when it is absent. */
  lemma AbsentPartsSingle(s: set<string>, p: string)
    ensures AbsentParts(s, [p]) == if p in s then [] else [p]
  {
    assert [p][1..] == [];
  }

  /** The missing description of an unsatisfied disjunction. */
  function OneOfText(options: seq<string>): string {
    "one of (" + Join(options, " / ") + ")"
  }

  /** The missing description of an unsatisfied conjunction. */
  function AllOfText(absent: seq<string>): string {
    Join(absent, " + ")
  }

  /** Whether the user's set satisfies a clause. */
  predicate Satisfied(c: Clause, s: set<string>) {
    match c
    case Single(t) => t in s
    case AnyOf(options) => AnyIn(s, options)
    case AllOf(parts) => AllIn(s, parts)
  }

  /** What an unsatisfied clause reports as missing: the token, every option
      of a disjunction, or only the absent parts of a conjunction. */
  function MissingText(c: Clause, s: set<string>): string {
    match c
    case Single(t) => t
    case AnyOf(options) => OneOfText(options)
    case AllOf(parts) => AllOfText(AbsentParts(s, parts))
  }

  /** A larger symptom set satisfies every clause a smaller one does. */
  lemma SatisfiedMonotone(c: Clause, s: set<string>, t: set<string>)
    requires s <= t && Satisfied(c, s)
    ensures Satisfied(c, t)
  {
  }

  /** An unsatisfied conjunction reports a non-empty list of absent parts,
      each of them one of its parts and none of them present. */
  lemma AllOfReportsAbsent(parts: seq<string>, s: set<string>)
    requires !Satisfied(AllOf(parts), s)
    ensures var absent := AbsentParts(s, parts);
      absent != [] && forall p :: p in absent ==> p in parts && p !in s
  {
  }
}
