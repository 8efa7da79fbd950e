/** `recommend_diagnoses`: normalise the phrases, apply the low-symptom rule,
    triage, and assemble the output lines. */
module Recommender {
  import opened Text
  import opened KnowledgeBase
  import opened Normalizer
  import opened Triage
  import opened SuggestionBuilder

  const MoreSymptomsMessage: string := "Please add more symptoms (at least three) for better suggestions."

  /** `"-" * n`. */
  function Dashes(n: nat): (r: string)
    ensures |r| == n && forall i :: 0 <= i < n ==> r[i] == '-'
  {
    if n == 0 then "" else Dashes(n - 1) + "-"
  }

  /** The separator line `"-" * 50`. */
  const Separator: string := Dashes(50)

  /** `[f(s) for s in phrases if keep(s)]`. */
  function FilterMap(phrases: seq<string>, keep: string -> bool, f: string -> string): (r: seq<string>)
    ensures |r| <= |phrases|
    decreases |phrases|
  {
    if phrases == [] then []
    else (if keep(phrases[0]) then [f(phrases[0])] else []) + FilterMap(phrases[1..], keep, f)
  }

  /** `s.strip() != ""`. */
  predicate NonBlank(s: string) {
    Trim(s) != ""
  }

  /** `[normalize(s) for s in user_symptoms if s.strip() != ""]`. */
  function NormalizedInputs(raw: seq<string>): (r: seq<string>)
    ensures |r| <= |raw|
  {
    FilterMap(raw, NonBlank, Normalize)
  }

  /** The comprehension distributes over concatenation of the phrase lists. */
  lemma {:induction false} FilterMapAppend(a: seq<string>, b: seq<string>, keep: string -> bool, f: string -> string)
    ensures FilterMap(a + b, keep, f) == FilterMap(a, keep, f) + FilterMap(b, keep, f)
    decreases |a|
  {
    if a == [] {
      assert a + b == b;
    } else {
      var head := if keep(a[0]) then [f(a[0])] else [];
      var ab := a + b;
      assert ab[0] == a[0];
      assert ab[1..] == a[1..] + b;
      FilterMapAppend(a[1..], b, keep, f);
      calc {
        FilterMap(ab, keep, f);
        head + FilterMap(a[1..] + b, keep, f);
        head + (FilterMap(a[1..], keep, f) + FilterMap(b, keep, f));
        (head + FilterMap(a[1..], keep, f)) + FilterMap(b, keep, f);
      }
    }
  }

  /** A one-phrase list keeps its phrase, mapped, exactly when `keep` holds. */
  lemma FilterMapSingle(p: string, keep: string -> bool, f: string -> string)
    ensures FilterMap([p], keep, f) == if keep(p) then [f(p)] else []
  {
    assert [p][1..] == [];
    assert FilterMap([p], keep, f) == (if keep(p) then [f(p)] else []) + FilterMap([], keep, f);
  }

  /** An element of the comprehension is the image of a kept phrase. */
  lemma {:induction false} FilterMapMembers(phrases: seq<string>, keep: string -> bool, f: string -> string, x: string)
    ensures x in FilterMap(phrases, keep, f) <==>
      exists j :: 0 <= j < |phrases| && keep(phrases[j]) && x == f(phrases[j])
    decreases |phrases|
  {
    if phrases != [] {
      var tail := phrases[1..];
      FilterMapMembers(tail, keep, f, x);
      var head := if keep(phrases[0]) then [f(phrases[0])] else [];
      assert FilterMap(phrases, keep, f) == head + FilterMap(tail, keep, f);
      assert x in FilterMap(phrases, keep, f) <==>
        (keep(phrases[0]) && x == f(phrases[0])) || x in FilterMap(tail, keep, f);
      if x in FilterMap(tail, keep, f) {
        var j :| 0 <= j < |tail| && keep(tail[j]) && x == f(tail[j]);
        assert phrases[j + 1] == tail[j];
      }
      if j :| 0 <= j < |phrases| && keep(phrases[j]) && x == f(phrases[j]) {
        if j > 0 {
          assert tail[j - 1] == phrases[j];
        }
      }
    }
  }

  /** `set(r)`: the distinct elements of a list. */
  function Distinct(r: seq<string>): (s: set<string>)
    ensures |s| <= |r|
  {
    DistinctBound(r);
    set x | x in r
  }

  /** A sequence has at most as many distinct elements as entries. */
  lemma {:induction false} DistinctBound(r: seq<string>)
    ensures |set x | x in r| <= |r|
    decreases |r|
  {
    if r != [] {
      DistinctBound(r[1..]);
      assert (set x | x in r) == {r[0]} + (set x | x in r[1..]);
    }
  }

  /** The distinct elements of `a + b` are those of `a` and those of `b`. */
  lemma DistinctAppend(a: seq<string>, b: seq<string>)
    ensures Distinct(a + b) == Distinct(a) + Distinct(b)
  {
    assert forall x :: x in a + b <==> x in a || x in b;
  }

  /** `set(normalized)`: the distinct canonical tokens of the non-blank
      phrases. */
  function UserSet(raw: seq<string>): (s: set<string>)
    ensures |s| <= |raw|
  {
    Distinct(NormalizedInputs(raw))
  }

  /** The tokens of `UserSet(raw)` are exactly the normalised non-blank
      phrases. */
  lemma UserSetMembers(raw: seq<string>, x: string)
    ensures x in UserSet(raw) <==> exists j :: 0 <= j < |raw| && Kept(raw[j], x)
  {
    FilterMapMembers(raw, NonBlank, Normalize, x);
  }

  /** The set of a single phrase. */
  lemma UserSetSingle(phrase: string)
    ensures UserSet([phrase]) == if Trim(phrase) != "" then {Normalize(phrase)} else {}
  {
    NormalizedSingle(phrase);
  }

  /** The normalised list of a single phrase. */
  lemma NormalizedSingle(phrase: string)
    ensures NormalizedInputs([phrase]) == if Trim(phrase) != "" then [Normalize(phrase)] else []
  {
    FilterMapSingle(phrase, NonBlank, Normalize);
  }

  /** The phrase is not blank and normalises to `x`. */
  predicate Kept(phrase: string, x: string) {
    Trim(phrase) != "" && x == Normalize(phrase)
  }

  /** The empty string is never a token of the user's set. */
  lemma EmptyNeverToken(raw: seq<string>)
    ensures "" !in UserSet(raw)
  {
    UserSetMembers(raw, "");
  }

  /** What `recommend_diagnoses` returns once the set of tokens is built:
      the low-symptom rule, then triage, then the suggestions. */
  function RecommendFor(s: set<string>): (lines: seq<string>)
    ensures lines != []
  {
    if |s| < 3 then [MoreSymptomsMessage]
    else
      var triage := TriageCheck(s);
      SuggestionsFallback(s);
      if triage.0 == Emergency then [triage.1]
      else if triage.0 == Urgent then [triage.1, Separator] + Suggestions(s)
      else Suggestions(s)
  }

  /** The specification of `recommend_diagnoses(user_symptoms)`. */
  function Recommend(raw: seq<string>): (lines: seq<string>)
    ensures lines != []
  {
    RecommendFor(UserSet(raw))
  }

  /** Fewer than three distinct tokens: only the request for more symptoms,
      however many phrases were entered. */
  lemma TooFewSymptoms(raw: seq<string>)
    requires |UserSet(raw)| < 3
    ensures Recommend(raw) == [MoreSymptomsMessage]
  {
  }

  /** With enough symptoms, any emergency flag overrides everything else. */
  lemma EmergencyOverrides(raw: seq<string>)
    requires |UserSet(raw)| >= 3 && Meets(UserSet(raw), EmergencyFlags)
    ensures Recommend(raw) == [EmergencyMessage]
  {
  }

  /** The full meningitis bundle without an emergency flag gives only the
      meningitis message; the bundle alone already makes three tokens. */
  lemma MeningitisOnly(raw: seq<string>)
    requires !Meets(UserSet(raw), EmergencyFlags) && MeningitisBundle <= UserSet(raw)
    ensures Recommend(raw) == [MeningitisMessage]
  {
    var s := UserSet(raw);
    BundleSize();
    SubsetCard(MeningitisBundle, s);
    assert TriageCheck(s) == (Emergency, MeningitisMessage);
  }

  /** The meningitis bundle has three distinct tokens. */
  lemma BundleSize()
    ensures |MeningitisBundle| == 3
  {
    assert "stiff neck" != "fever" && "fever" != "severe headache" && "stiff neck" != "severe headache";
  }

  /** An urgent flag, with no emergency, puts the urgent message and the
      separator before the suggestions. */
  lemma UrgentPrefix(raw: seq<string>)
    requires |UserSet(raw)| >= 3
    requires !Meets(UserSet(raw), EmergencyFlags) && !(MeningitisBundle <= UserSet(raw))
    requires Meets(UserSet(raw), UrgentFlags)
    ensures Recommend(raw) == [UrgentMessage, Separator] + Suggestions(UserSet(raw))
  {
  }

  /** With no red flag the output is the suggestions alone. */
  lemma NoRedFlags(raw: seq<string>)
    requires |UserSet(raw)| >= 3
    requires !Meets(UserSet(raw), EmergencyFlags) && !(MeningitisBundle <= UserSet(raw))
    requires !Meets(UserSet(raw), UrgentFlags)
    ensures Recommend(raw) == Suggestions(UserSet(raw))
  {
  }

  /** Two inputs with the same set of tokens get the same output. */
  lemma SameSetSameOutput(a: seq<string>, b: seq<string>)
    requires UserSet(a) == UserSet(b)
    ensures Recommend(a) == Recommend(b)
  {
  }

  /** A subset is no larger than its superset. */
  lemma SubsetCard(a: set<string>, b: set<string>)
    requires a <= b
    ensures |a| <= |b|
  {
    assert b == a + (b - a);
  }

  /** Normalising distributes over concatenation of the input lists. */
  lemma NormalizedAppend(a: seq<string>, b: seq<string>)
    ensures NormalizedInputs(a + b) == NormalizedInputs(a) + NormalizedInputs(b)
  {
    FilterMapAppend(a, b, NonBlank, Normalize);
  }

  /** The set of a concatenation is the union of the sets. */
  lemma UserSetAppend(a: seq<string>, b: seq<string>)
    ensures UserSet(a + b) == UserSet(a) + UserSet(b)
  {
    NormalizedAppend(a, b);
    DistinctAppend(NormalizedInputs(a), NormalizedInputs(b));
  }

  /** The order in which the phrases are entered does not matter. */
  lemma InputOrderIrrelevant(a: seq<string>, b: seq<string>)
    ensures Recommend(a + b) == Recommend(b + a)
  {
    UserSetAppend(a, b);
    UserSetAppend(b, a);
    SameSetSameOutput(a + b, b + a);
  }

  /** A blank phrase changes nothing. */
  lemma BlankIgnored(p: seq<string>, blank: string, q: seq<string>)
    requires Trim(blank) == ""
    ensures Recommend(p + [blank] + q) == Recommend(p + q)
  {
    UserSetAppend(p + [blank], q);
    UserSetAppend(p, [blank]);
    UserSetAppend(p, q);
    UserSetSingle(blank);
    SameSetSameOutput(p + [blank] + q, p + q);
  }

  /** Replacing a phrase by a synonym (one that normalises to the same token)
      changes nothing. */
  lemma SynonymSubstitution(p: seq<string>, a: string, b: string, q: seq<string>)
    requires Trim(a) != "" && Trim(b) != "" && Normalize(a) == Normalize(b)
    ensures Recommend(p + [a] + q) == Recommend(p + [b] + q)
  {
    UserSetAppend(p + [a], q);
    UserSetAppend(p, [a]);
    UserSetAppend(p + [b], q);
    UserSetAppend(p, [b]);
    UserSetSingle(a);
    UserSetSingle(b);
    SameSetSameOutput(p + [a] + q, p + [b] + q);
  }
}

/** Worked examples of the recommender on concrete phrases. Each literal's
    key is computed in a lemma of its own, its token in another, and the
    output follows from the general lemmas of the recommender. */
module RecommenderExamples {
  import opened Text
  import opened KnowledgeBase
  import opened Normalizer
  import opened Triage
  import opened Recommender

  /** A three-phrase list whose phrases are all kept maps to their three
      images. */
  lemma FilterMapThree(a: string, b: string, c: string, keep: string -> bool, f: string -> string)
    requires keep(a) && keep(b) && keep(c)
    ensures FilterMap([a, b, c], keep, f) == [f(a), f(b), f(c)]
  {
    assert [a, b, c] == [a] + [b] + [c];
    FilterMapAppend([a] + [b], [c], keep, f);
    FilterMapAppend([a], [b], keep, f);
    FilterMapSingle(a, keep, f);
    FilterMapSingle(b, keep, f);
    FilterMapSingle(c, keep, f);
  }

  /** The distinct elements of a three-element list. */
  lemma DistinctThree(x: string, y: string, z: string)
    ensures Distinct([x, y, z]) == {x, y, z}
  {
  }

  /** Three non-blank phrases give the set of their three tokens. */
  lemma UserSetOfThree(a: string, b: string, c: string)
    requires Normalize(a) != "" && Normalize(b) != "" && Normalize(c) != ""
    ensures UserSet([a, b, c]) == {Normalize(a), Normalize(b), Normalize(c)}
  {
    FilterMapThree(a, b, c, NonBlank, Normalize);
    DistinctThree(Normalize(a), Normalize(b), Normalize(c));
  }

  /** Three phrases with one common token give a one-token set. */
  lemma UserSetOfSynonyms(a: string, b: string, c: string, x: string)
    requires x != "" && Normalize(a) == x && Normalize(b) == x && Normalize(c) == x
    ensures UserSet([a, b, c]) == {x}
  {
    FilterMapThree(a, b, c, NonBlank, Normalize);
    DistinctRepeated(x);
  }

  /** A list that repeats one element three times has one distinct element. */
  lemma DistinctRepeated(x: string)
    ensures Distinct([x, x, x]) == {x}
  {
  }

  /** The key of "fever" is itself. */
  lemma FeverKey()
    ensures Key("fever") == "fever"
  {
    TrimTrimmed("fever");
    assert Lower("fever") == "fever";
  }

  /** The key of "stiff neck" is itself. */
  lemma StiffNeckKey()
    ensures Key("stiff neck") == "stiff neck"
  {
    TrimTrimmed("stiff neck");
    assert Lower("stiff neck") == "stiff neck";
  }

  /** The key of "severe headache" is itself. */
  lemma SevereHeadacheKey()
    ensures Key("severe headache") == "severe headache"
  {
    TrimTrimmed("severe headache");
    assert Lower("severe headache") == "severe headache";
  }

  /** The key of "blocked nose" is itself. */
  lemma BlockedNoseKey()
    ensures Key("blocked nose") == "blocked nose"
  {
    TrimTrimmed("blocked nose");
    assert Lower("blocked nose") == "blocked nose";
  }

  /** The key of "chest pain" is itself. */
  lemma ChestPainKey()
    ensures Key("chest pain") == "chest pain"
  {
    TrimTrimmed("chest pain");
    assert Lower("chest pain") == "chest pain";
  }

  /** "fever" is a canonical token and no synonym key. */
  lemma FeverToken()
    ensures Normalize("fever") == "fever"
  {
    FeverKey();
  }

  /** "stiff neck" is a canonical token and no synonym key. */
  lemma StiffNeckToken()
    ensures Normalize("stiff neck") == "stiff neck"
  {
    StiffNeckKey();
  }

  /** "severe headache" is a canonical token and no synonym key. */
  lemma SevereHeadacheToken()
    ensures Normalize("severe headache") == "severe headache"
  {
    SevereHeadacheKey();
  }

  /** "blocked nose" is a synonym of "congestion". */
  lemma BlockedNoseToken()
    ensures Normalize("blocked nose") == "congestion"
  {
    BlockedNoseKey();
  }

  /** "chest pain" is a canonical token and no synonym key. */
  lemma ChestPainToken()
    ensures Normalize("chest pain") == "chest pain"
  {
    ChestPainKey();
  }

  /** The tokens of the three meningitis phrases. */
  lemma MeningitisSet()
    ensures UserSet(["fever", "stiff neck", "severe headache"]) == {"fever", "stiff neck", "severe headache"}
  {
    FeverToken();
    StiffNeckToken();
    SevereHeadacheToken();
    UserSetOfThree("fever", "stiff neck", "severe headache");
  }

  /** Those tokens are the meningitis bundle, which holds no emergency flag. */
  lemma BundleNotEmergency()
    ensures {"fever", "stiff neck", "severe headache"} == MeningitisBundle
    ensures !Meets(MeningitisBundle, EmergencyFlags)
  {
  }

  /** The three meningitis signs, without an emergency flag, give the
      meningitis message alone and not the other emergency message too. */
  lemma MeningitisExample()
    ensures Recommend(["fever", "stiff neck", "severe headache"]) == [MeningitisMessage]
  {
    MeningitisSet();
    BundleNotEmergency();
    MeningitisOnly(["fever", "stiff neck", "severe headache"]);
  }

  /** " Stuffy Nose", "blocked nose" and "congestion" are one token. */
  lemma CongestionSet()
    ensures UserSet([" Stuffy Nose", "blocked nose", "congestion"]) == {"congestion"}
  {
    StuffyNoseNormal();
    BlockedNoseToken();
    CongestionNormal();
    UserSetOfSynonyms(" Stuffy Nose", "blocked nose", "congestion", "congestion");
  }

  /** Three phrases that all mean "congestion" make one token, so the
      low-symptom rule answers although three phrases were entered. */
  lemma SynonymsCollapse()
    ensures Recommend([" Stuffy Nose", "blocked nose", "congestion"]) == [MoreSymptomsMessage]
  {
    CongestionSet();
    TooFewSymptoms([" Stuffy Nose", "blocked nose", "congestion"]);
  }

  /** "chest pain" alone is the single token "chest pain". */
  lemma ChestPainSet()
    ensures UserSet(["chest pain"]) == {"chest pain"}
  {
    ChestPainToken();
    UserSetSingle("chest pain");
  }

  /** The low-symptom rule runs before triage: an emergency sign entered on
      its own only asks for more symptoms. */
  lemma LoneEmergencySignAsksForMore()
    ensures Meets(UserSet(["chest pain"]), EmergencyFlags)
    ensures Recommend(["chest pain"]) == [MoreSymptomsMessage]
  {
    ChestPainSet();
    TooFewSymptoms(["chest pain"]);
  }
}
