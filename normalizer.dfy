/** Ingress normalisation of one user phrase: trim, lowercase, then replace a
    known synonym by its canonical token. */
module Normalizer {
  import opened Text
  import opened KnowledgeBase

  /** A canonical token: trimmed and free of ASCII capitals. */
  predicate Canonical(t: string) {
    Trimmed(t) && forall i :: 0 <= i < |t| ==> !('A' <= t[i] <= 'Z')
  }

  /** The synonym-table key of a phrase: `symptom.strip().lower()`. */
  function Key(s: string): (t: string)
    ensures Canonical(t)
    ensures |t| == |Trim(s)|
  {
    LowerKeepsTrimmed(Trim(s));
    Lower(Trim(s))
  }

  /** A literal that lowercasing and trimming leave alone is canonical. */
  lemma FixedIsCanonical(v: string)
    requires Trimmed(v) && Lower(v) == v
    ensures Canonical(v)
  {
  }

  /** The canonical values of the synonym table. */
  lemma SynonymValuesListed()
    ensures forall k | k in Synonyms ::
      Synonyms[k] in {"congestion", "loss of smell", "shortness of breath", "bluish lips", "after meal", "no cough", "no fever"}
  {
  }

  /** The targets for nose and smell phrases are canonical. */
  lemma NoseTargetsCanonical()
    ensures Canonical("congestion") && Canonical("loss of smell")
  {
    FixedIsCanonical("congestion");
    FixedIsCanonical("loss of smell");
  }

  /** The targets for breathing and lip phrases are canonical. */
  lemma BreathTargetsCanonical()
    ensures Canonical("shortness of breath") && Canonical("bluish lips")
  {
    FixedIsCanonical("shortness of breath");
    FixedIsCanonical("bluish lips");
  }

  /** The targets for meal and negated phrases are canonical. */
  lemma OtherTargetsCanonical()
    ensures Canonical("after meal") && Canonical("no cough") && Canonical("no fever")
  {
    FixedIsCanonical("after meal");
    FixedIsCanonical("no cough");
    FixedIsCanonical("no fever");
  }

  /** Every canonical value of the synonym table is non-empty and canonical. */
  lemma SynonymValuesCanonical()
    ensures forall k | k in Synonyms :: Synonyms[k] != "" && Canonical(Synonyms[k])
  {
    SynonymValuesListed();
    NoseTargetsCanonical();
    BreathTargetsCanonical();
    OtherTargetsCanonical();
  }

  /** A canonical value of the synonym table is either no key at all or a key
      that maps to itself. */
  lemma SynonymValuesFixed()
    ensures forall k | k in Synonyms :: Synonyms[k] in Synonyms ==> Synonyms[Synonyms[k]] == Synonyms[k]
  {
    SynonymValuesListed();
  }

  /** `normalize(symptom)`: the tabled canonical token when the key is in the
      synonym table, the key itself otherwise. Total, and the result is
      canonical and is empty exactly when the phrase is blank. */
  function Normalize(s: string): (r: string)
    ensures Key(s) in Synonyms ==> r == Synonyms[Key(s)]
    ensures Key(s) !in Synonyms ==> r == Key(s)
    ensures Canonical(r)
    ensures r == "" <==> Trim(s) == ""
  {
    var t := Key(s);
    if t in Synonyms then
      SynonymValuesCanonical();
      EmptyIsNoKey();
      Synonyms[t]
    else t
  }

  /** The empty text is not a key of the synonym table. */
  lemma EmptyIsNoKey()
    ensures "" !in Synonyms
  {
  }

  /** A canonical token is its own key. */
  lemma CanonicalKey(t: string)
    requires Canonical(t)
    ensures Key(t) == t
  {
    TrimTrimmed(t);
    LowerLower(t);
  }

  /** Normalising twice is the same as normalising once. */
  lemma NormalizeIdempotent(s: string)
    ensures Normalize(Normalize(s)) == Normalize(s)
  {
    var r := Normalize(s);
    CanonicalKey(r);
    SynonymValuesFixed();
  }

  /** `normalize` depends on the phrase only through its key. */
  lemma NormalizeByKey(a: string, b: string)
    requires Key(a) == Key(b)
    ensures Normalize(a) == Normalize(b)
  {
  }

  /** Phrases that are equal once lowercased have the same key. */
  lemma KeyIgnoresCase(a: string, b: string)
    requires Lower(a) == Lower(b)
    ensures Key(a) == Key(b)
  {
    TrimLower(a);
    TrimLower(b);
  }

  /** Whitespace padding on either side does not change the key. */
  lemma KeyIgnoresPadding(p: string, s: string, q: string)
    requires AllSpace(p) && AllSpace(q)
    ensures Key(p + s + q) == Key(s)
  {
    TrimPadding(p, s, q);
  }

  /** Phrases that differ only in ASCII case and in surrounding whitespace
      normalise to the same token. */
  lemma NormalizeIgnoresSurface(p: string, a: string, q: string, b: string)
    requires AllSpace(p) && AllSpace(q) && Lower(a) == Lower(b)
    ensures Normalize(p + a + q) == Normalize(b)
  {
    KeyIgnoresPadding(p, a, q);
    KeyIgnoresCase(a, b);
    NormalizeByKey(p + a + q, b);
  }

  /** The key of " Stuffy Nose" is "stuffy nose". */
  lemma StuffyNoseKey()
    ensures Key(" Stuffy Nose") == "stuffy nose"
  {
    assert TrimLeft(" Stuffy Nose") == "Stuffy Nose";
    assert TrimRight("Stuffy Nose") == "Stuffy Nose";
    assert Lower("Stuffy Nose") == "stuffy nose";
  }

  /** " Stuffy Nose" is a synonym of "congestion". */
  lemma StuffyNoseNormal()
    ensures Normalize(" Stuffy Nose") == "congestion"
  {
    StuffyNoseKey();
  }

  /** The key of "congestion" is itself. */
  lemma CongestionKey()
    ensures Key("congestion") == "congestion"
  {
    TrimTrimmed("congestion");
    assert Lower("congestion") == "congestion";
  }

  /** "congestion" is a canonical token and no synonym key. */
  lemma CongestionNormal()
    ensures Normalize("congestion") == "congestion"
  {
    CongestionKey();
  }

  /** "stuffy nose" and "congestion" feed the same token downstream. */
  lemma StuffyNoseIsCongestion()
    ensures Normalize(" Stuffy Nose") == Normalize("congestion") == "congestion"
  {
    StuffyNoseNormal();
    CongestionNormal();
  }
}
