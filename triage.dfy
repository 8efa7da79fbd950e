/** The red-flag triage policy that runs before any condition is scored. */
module Triage {
  import opened KnowledgeBase
  import opened SymptomSets

  datatype Level = Emergency | Urgent | Ok

  const EmergencyMessage: string := "Emergency signs (chest pain / bluish lips / confusion). Seek immediate care."
  const MeningitisMessage: string := "Fever + stiff neck + severe headache — seek immediate care."
  const UrgentMessage: string := "Concerning signs (persistent high fever / severe dehydration / blood in stool). See a clinician soon."

  /** `has_any(user_set, list(flags))`: the set meets the flag set. */
  predicate Meets(s: set<string>, flags: set<string>) {
    s * flags != {}
  }

  /** `list(flags)` may list the set in any order; whatever the order,
      `has_any` over it answers whether the set meets the flags. */
  lemma AnyListingMeets(s: set<string>, flags: set<string>, listing: seq<string>)
    requires forall x :: x in flags <==> x in listing
    ensures AnyIn(s, listing) <==> Meets(s, flags)
  {
    if AnyIn(s, listing) {
      var i :| 0 <= i < |listing| && listing[i] in s;
      assert listing[i] in s * flags;
    }
    if Meets(s, flags) {
      var f :| f in s * flags;
      var i :| 0 <= i < |listing| && listing[i] == f;
    }
  }

  /** `triage_check(user_set)`: the first of the three checks that fires
      decides the level and the message. */
  function TriageCheck(s: set<string>): (r: (Level, string))
    ensures Meets(s, EmergencyFlags) ==> r == (Emergency, EmergencyMessage)
    ensures r == (Emergency, MeningitisMessage) <==> !Meets(s, EmergencyFlags) && MeningitisBundle <= s
    ensures r.0 == Emergency <==> Meets(s, EmergencyFlags) || MeningitisBundle <= s
    ensures r.0 == Urgent <==>
      !Meets(s, EmergencyFlags) && !(MeningitisBundle <= s) && Meets(s, UrgentFlags)
    ensures r.0 == Urgent ==> r.1 == UrgentMessage
    ensures r.0 == Ok ==> r.1 == ""
  {
    assert |EmergencyMessage| != |MeningitisMessage|;
    if Meets(s, EmergencyFlags) then (Emergency, EmergencyMessage)
    else if MeningitisBundle <= s then (Emergency, MeningitisMessage)
    else if Meets(s, UrgentFlags) then (Urgent, UrgentMessage)
    else (Ok, "")
  }

  /** The rank of a level: higher is more severe. */
  function Severity(l: Level): nat {
    match l
    case Ok => 0
    case Urgent => 1
    case Emergency => 2
  }

  /** Exactly one of the four outcomes is produced. */
  lemma OneOfFourOutcomes(s: set<string>)
    ensures var r := TriageCheck(s);
      (r == (Emergency, EmergencyMessage) && Meets(s, EmergencyFlags)) ||
      (r == (Emergency, MeningitisMessage) && !Meets(s, EmergencyFlags) && MeningitisBundle <= s) ||
      (r == (Urgent, UrgentMessage) && !Meets(s, EmergencyFlags) && !(MeningitisBundle <= s) && Meets(s, UrgentFlags)) ||
      (r == (Ok, "") && !Meets(s, EmergencyFlags) && !(MeningitisBundle <= s) && !Meets(s, UrgentFlags))
  {
  }

  /** Reporting more symptoms never lowers the triage level. */
  lemma TriageMonotone(s: set<string>, t: set<string>)
    requires s <= t
    ensures Severity(TriageCheck(s).0) <= Severity(TriageCheck(t).0)
  {
    if Meets(s, EmergencyFlags) {
      var f :| f in s * EmergencyFlags;
      assert f in t * EmergencyFlags;
    } else if Meets(s, UrgentFlags) {
      var f :| f in s * UrgentFlags;
      assert f in t * UrgentFlags;
    }
  }
}
