/** The static configuration of the recommender: the condition table with its
    requirement clauses, the advice table, the triage flag sets and the
    synonym table. All of it is immutable. */
module KnowledgeBase {

  /** A condition's name and its requirement clauses, in declaration order. */
  type Condition = (string, seq<string>)

  /** The condition table, in the order the source declares it (Python keeps
      dictionary insertion order, and the output follows it). */
  const Conditions: seq<Condition> := [
    ("Common Cold", ["runny nose", "congestion", "sneezing", "sore throat"]),
    ("Influenza (Flu)", ["sudden onset", "high fever", "body aches", "headache", "cough"]),
    ("COVID-like Illness", ["loss of smell", "fever", "cough or sore throat", "recent exposure"]),
    ("Strep Throat", ["sore throat", "fever", "no cough"]),
    ("Gastroenteritis", ["nausea or vomiting", "diarrhea", "abdominal pain"]),
    ("Food Poisoning", ["after meal", "others sick", "abdominal pain"]),
    ("Seasonal Allergies", ["sneezing", "itchy eyes or itchy nose", "runny nose", "no fever"]),
    ("Urinary Tract Infection (UTI)", ["painful urination", "urinary frequency or urgency", "lower abdominal pain"]),
    ("Dehydration", ["very low urine or dark urine", "dizziness or dry mouth", "vomiting or diarrhea"])
  ]

  /** Advice text per condition name. */
  const Advice: map<string, string> := map[
    "Common Cold" := "Rest, fluids, OTC symptom relief as labeled.",
    "Influenza (Flu)" := "Rest, fluids, fever control as labeled. Consider early care if high risk.",
    "COVID-like Illness" := "Consider testing and isolation; rest and fluids.",
    "Strep Throat" := "Testing recommended; if confirmed, antibiotics per clinician.",
    "Gastroenteritis" := "Small sips of fluids; advance diet slowly. Seek care if severe.",
    "Food Poisoning" := "Hydration and rest. Seek care if high fever or persistent vomiting.",
    "Seasonal Allergies" := "Avoid triggers; saline rinse; OTC antihistamines as labeled.",
    "Urinary Tract Infection (UTI)" := "Seek testing/clinical care; increase fluids.",
    "Dehydration" := "Increase fluids (oral rehydration if available). Seek care if unable to keep fluids."
  ]

  /** `advice.get(name, '')`. */
  function AdviceFor(name: string): (r: string)
    ensures name !in Advice ==> r == ""
    ensures name in Advice ==> r == Advice[name]
  {
    if name in Advice then Advice[name] else ""
  }

  /** Every condition of the table has advice and at least three
      requirements, so no condition of this table is ever skipped for having
      none. */
  lemma TableWellFormed()
    ensures forall i :: 0 <= i < |Conditions| ==> Conditions[i].0 in Advice && |Conditions[i].1| >= 3
  {
  }

  /** Any one of these is an emergency. */
  const EmergencyFlags: set<string> := {"chest pain", "bluish lips", "confusion"}

  /** All three together are an emergency. */
  const MeningitisBundle: set<string> := {"stiff neck", "fever", "severe headache"}

  /** Any one of these is urgent. */
  const UrgentFlags: set<string> := {"persistent high fever", "severe dehydration", "blood in stool"}

  /** Raw phrase (already trimmed and lowercased) to canonical token. */
  const Synonyms: map<string, string> := map[
    "stuffy nose" := "congestion",
    "blocked nose" := "congestion",
    "loss of taste" := "loss of smell",
    "short of breath" := "shortness of breath",
    "breathless" := "shortness of breath",
    "blue lips" := "bluish lips",
    "after eating" := "after meal",
    "no cough" := "no cough",
    "no fever" := "no fever"
  ]
}
