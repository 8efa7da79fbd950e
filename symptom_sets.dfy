/** Membership tests of a list of tokens against the user's symptom set. */
module SymptomSets {

  /** Some token of `options` is in `s`. */
  predicate AnyIn(s: set<string>, options: seq<string>) {
    exists i :: 0 <= i < |options| && options[i] in s
  }

  /** Every token of `parts` is in `s`. */
  predicate AllIn(s: set<string>, parts: seq<string>) {
    forall i :: 0 <= i < |parts| ==> parts[i] in s
  }

  /** `has_any(user_set, options)`: scans `options` in order and stops at the
      first token that is in the set. */
  method HasAny(s: set<string>, options: seq<string>) returns (found: bool)
    ensures found <==> AnyIn(s, options)
  {
    for i := 0 to |options|
      invariant forall j :: 0 <= j < i ==> options[j] !in s
    {
      if options[i] in s {
        return true;
      }
    }
    return false;
  }
}
