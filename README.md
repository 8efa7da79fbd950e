# Rule-based symptom recommender, modelled in Dafny

This project models the rule-based medical symptom recommender in
`Rule_Based_AI_System_Example/simple_med_diag_recipe_style.py`. It is an
educational demo: the user gives a list of symptom phrases, and the program
answers with a list of output lines. `recommend_diagnoses` works in five
layers:

1. **Normaliser.** `normalize` trims and lowercases each phrase, then maps
   known synonyms to a canonical token ("stuffy nose" becomes "congestion").
   Blank phrases are dropped, and the remaining tokens form a set.
2. **Low-symptom rule.** Fewer than three distinct tokens give only the
   request for more symptoms.
3. **Triage.** `triage_check` is an ordered chain:
   - any emergency flag gives an emergency;
   - else the full meningitis bundle gives an emergency;
   - else any urgent flag gives an urgent level;
   - else the level is OK.
   An emergency returns its message alone.
4. **Scoring.** `condition_match_score` reads each requirement of a
   condition as a clause in a small grammar. A text containing " or " needs
   one option. Otherwise, a text containing " and " needs every part.
   Anything else is a single token. The scorer counts the satisfied clauses
   and lists the missing ones.
5. **Suggestions.** `_compute_suggestions` walks the condition table in
   declaration order. It emits one line per exact match (every clause
   satisfied) and one per partial match (at least 70% satisfied). If no
   condition qualifies, it emits a single fallback line. An urgent level puts
   its message and a 50-dash separator before these lines.

Modules, in dependency order:

- `Text` (`text.dfy`): the Python string operations used, on ASCII. These
  are `strip`, `lower`, the `in` substring test, `split` and `join`.
- `KnowledgeBase` (`knowledge_base.dfy`): the static tables as constants.
  The condition table is an ordered sequence, because the output follows
  its declaration order.
- `Normalizer` (`normalizer.dfy`): `normalize`.
- `SymptomSets` (`symptom_sets.dfy`): `has_any`, an imperative early-return
  loop.
- `Triage` (`triage.dfy`): `triage_check`.
- `Clauses` (`clauses.dfy`): the requirement grammar, as a datatype
  `Single | AnyOf | AllOf`, and a classifier. The classifier tests " or "
  before " and ", as the source does.
- `Scoring` (`scoring.dfy`): `condition_match_score`. The loop is a method,
  proved against the specification function `Score`.
- `SuggestionBuilder` (`suggestions.dfy`): `_compute_suggestions`. The loop
  is a method, proved against the specification function `Suggestions`.
- `Recommender` and `RecommenderExamples` (`recommender.dfy`):
  `recommend_diagnoses`, with worked examples on concrete phrases.
- `SuggestionExamples` (`suggestion_examples.dfy`): a worked example of the
  suggestion builder on the program's own condition table.

Three consequences of the code that are easy to miss:

- The low-symptom rule runs before triage. So "chest pain" entered alone
  asks for more symptoms rather than giving the emergency line. See
  `RecommenderExamples.LoneEmergencySignAsksForMore`.
- "Common Cold" has four requirements. So runny nose, congestion and
  sneezing together match 3 of 4 and give a partial line, with sore throat
  missing, not an exact match. See `SuggestionExamples.ColdIsPartial`.
- A requirement text that contains both " or " and " and " is read as a
  disjunction.

## Model

| member | source | states |
|---|---|---|
| Text.TrimLeft | Rule_Based_AI_System_Example/simple_med_diag_recipe_style.py:56 | the result is the suffix of the input starting at the first non-whitespace character; everything dropped is whitespace |
| Text.TrimRight | Rule_Based_AI_System_Example/simple_med_diag_recipe_style.py:56 | the result is the prefix ending at the last non-whitespace character; everything dropped is whitespace |
| Text.Trim | Rule_Based_AI_System_Example/simple_med_diag_recipe_style.py:56 | `strip()`: the result has no leading or trailing whitespace and is no longer than the input (the slice and whitespace properties are `Text.TrimIsSlice` and `Text.TrimDropsSpace`) |
| Text.Lower | Rule_Based_AI_System_Example/simple_med_diag_recipe_style.py:56 | `lower()`: same length, no ASCII capital left, whitespace positions unchanged (the character-by-character mapping is `Text.LowerPointwise`) |
| Text.FirstIndex | Rule_Based_AI_System_Example/simple_med_diag_recipe_style.py:93 | the separator is absent exactly when there is no index; otherwise it occurs at the returned index and at no earlier one |
| Text.Split | Rule_Based_AI_System_Example/simple_med_diag_recipe_style.py:94 | `split(sep)` gives at least one piece, and at least two exactly when the separator occurs (the pieces themselves are fixed by `Text.SplitPieces` and `Text.SplitUnique`) |
| Text.TrimAll | Rule_Based_AI_System_Example/simple_med_diag_recipe_style.py:94 | `[t.strip() for t in ...]`: piece i of the result is piece i of the input, trimmed |
| Text.JoinSplit | Rule_Based_AI_System_Example/simple_med_diag_recipe_style.py:93-101 | joining the pieces of a split with the same separator gives back the text |
| Text.FirstPieceFree | Rule_Based_AI_System_Example/simple_med_diag_recipe_style.py:94 | the first piece is the text up to the leftmost occurrence of the separator, or the whole text when there is none; it holds no separator |
| Text.CutBeforeFirst | Rule_Based_AI_System_Example/simple_med_diag_recipe_style.py:94 | a piece is cut off before the separator exactly when the leftmost occurrence of the separator in the piece followed by the separator is right after the piece |
| Text.SplitPieces | Rule_Based_AI_System_Example/simple_med_diag_recipe_style.py:94 | the split cuts left to right: each piece but the last, followed by the separator, has its leftmost occurrence of the separator right after the piece, and the last piece holds no separator |
| Text.SplitUnique | Rule_Based_AI_System_Example/simple_med_diag_recipe_style.py:94 | splitting the join of such cut pieces gives them back, so with `Text.JoinSplit` the pieces of a split are the only cut pieces that join to the text |
| Text.PieceThenSep | Rule_Based_AI_System_Example/simple_med_diag_recipe_style.py:94 | the text up to the leftmost occurrence of the separator is a piece cut off before it |
| Text.FirstIndexIs | Rule_Based_AI_System_Example/simple_med_diag_recipe_style.py:93 | an occurrence with none before it is the one `FirstIndex` finds |
| Text.OverlappingSplit | Rule_Based_AI_System_Example/simple_med_diag_recipe_style.py:93-94 | `"x or or y".split(" or ")` is `["x", "or y"]`; the other list that joins to the text, `["x or", "y"]`, is ruled out because " or " already occurs inside "x or or " |
| Text.TrimTrimmed | Rule_Based_AI_System_Example/simple_med_diag_recipe_style.py:56 | stripping text that has no surrounding whitespace changes nothing |
| Text.LowerLower | Rule_Based_AI_System_Example/simple_med_diag_recipe_style.py:56 | lowercasing text with no capitals changes nothing |
| Text.LowerKeepsTrimmed | Rule_Based_AI_System_Example/simple_med_diag_recipe_style.py:56 | lowercasing keeps stripped text stripped |
| Text.IsSpace | Rule_Based_AI_System_Example/simple_med_diag_recipe_style.py:56 | the characters `strip()` removes: Python's `str.isspace()` restricted to ASCII, codes 9-13 and 28-32 |
| Text.TrimIsSlice | Rule_Based_AI_System_Example/simple_med_diag_recipe_style.py:56 | `strip()` returns a contiguous slice of the input, starting where the leading whitespace ends |
| Text.TrimDropsSpace | Rule_Based_AI_System_Example/simple_med_diag_recipe_style.py:56 | every character `strip()` drops, before or after that slice, is whitespace |
| Text.LowerPointwise | Rule_Based_AI_System_Example/simple_med_diag_recipe_style.py:56 | `lower()` leaves every character that is not an ASCII capital unchanged and moves each capital up by 32 code points, to its lowercase letter |
| Text.LowerTwice | Rule_Based_AI_System_Example/simple_med_diag_recipe_style.py:56 | lowercasing twice is the same as lowercasing once |
| Text.TrimLeftLower | Rule_Based_AI_System_Example/simple_med_diag_recipe_style.py:56 | dropping leading whitespace commutes with lowercasing |
| Text.TrimRightLower | Rule_Based_AI_System_Example/simple_med_diag_recipe_style.py:56 | dropping trailing whitespace commutes with lowercasing |
| Text.TrimLower | Rule_Based_AI_System_Example/simple_med_diag_recipe_style.py:56 | `s.strip().lower() == s.lower().strip()`: the two steps of the key may be taken in either order |
| Text.TrimStages | Rule_Based_AI_System_Example/simple_med_diag_recipe_style.py:56 | `strip()` drops the leading whitespace and then the trailing whitespace |
| Text.TrimLeftSpaces | Rule_Based_AI_System_Example/simple_med_diag_recipe_style.py:56 | whitespace put in front of a text is dropped with its own leading whitespace |
| Text.TrimRightSpaces | Rule_Based_AI_System_Example/simple_med_diag_recipe_style.py:56 | whitespace put after a text is dropped with its own trailing whitespace |
| Text.TrimLeftAppend | Rule_Based_AI_System_Example/simple_med_diag_recipe_style.py:56 | text after a part that is not all whitespace survives the left strip unchanged |
| Text.TrimPadding | Rule_Based_AI_System_Example/simple_med_diag_recipe_style.py:56 | adding whitespace on either side of a text does not change what `strip()` returns |
| Text.Contains | Rule_Based_AI_System_Example/simple_med_diag_recipe_style.py:93 | the `in` substring test: the separator occurs at some position of the text |
| Text.Join | Rule_Based_AI_System_Example/simple_med_diag_recipe_style.py:98 | `sep.join(parts)`: the parts in order with the separator between neighbours (joining the pieces of a split gives the text back: `Text.JoinSplit`; splitting a join gives the pieces back only when they are cut pieces: `Text.SplitUnique`) |
| KnowledgeBase.AdviceFor | Rule_Based_AI_System_Example/simple_med_diag_recipe_style.py:21-31 | `advice.get(name, '')`: the tabled advice for a listed name, the empty text otherwise |
| KnowledgeBase.TableWellFormed | Rule_Based_AI_System_Example/simple_med_diag_recipe_style.py:8-31 | every condition has an advice entry and at least three requirements |
| Normalizer.Key | Rule_Based_AI_System_Example/simple_med_diag_recipe_style.py:56 | `symptom.strip().lower()` is canonical (stripped, no capitals) and as long as the stripped phrase |
| Normalizer.FixedIsCanonical | Rule_Based_AI_System_Example/simple_med_diag_recipe_style.py:41-52 | a literal that stripping and lowercasing leave alone is canonical |
| Normalizer.SynonymValuesListed | Rule_Based_AI_System_Example/simple_med_diag_recipe_style.py:41-52 | every synonym maps to one of the seven canonical tokens the table names |
| Normalizer.NoseTargetsCanonical | Rule_Based_AI_System_Example/simple_med_diag_recipe_style.py:42-44 | "congestion" and "loss of smell" are canonical |
| Normalizer.BreathTargetsCanonical | Rule_Based_AI_System_Example/simple_med_diag_recipe_style.py:45-47 | "shortness of breath" and "bluish lips" are canonical |
| Normalizer.OtherTargetsCanonical | Rule_Based_AI_System_Example/simple_med_diag_recipe_style.py:48-51 | "after meal", "no cough" and "no fever" are canonical |
| Normalizer.SynonymValuesCanonical | Rule_Based_AI_System_Example/simple_med_diag_recipe_style.py:41-52 | every target of the synonym table is non-empty and canonical |
| Normalizer.SynonymValuesFixed | Rule_Based_AI_System_Example/simple_med_diag_recipe_style.py:49-51 | a target that is also a key maps to itself ("no cough", "no fever") |
| Normalizer.Normalize | Rule_Based_AI_System_Example/simple_med_diag_recipe_style.py:54-57 | total; gives the tabled token when the stripped, lowercased phrase is a key and that phrase itself otherwise; canonical; empty exactly for a blank phrase |
| Normalizer.EmptyIsNoKey | Rule_Based_AI_System_Example/simple_med_diag_recipe_style.py:41-52 | the empty text is not a key of the synonym table |
| Normalizer.CanonicalKey | Rule_Based_AI_System_Example/simple_med_diag_recipe_style.py:56 | a canonical token is its own key |
| Normalizer.NormalizeIdempotent | Rule_Based_AI_System_Example/simple_med_diag_recipe_style.py:54-57 | normalising a normalised token changes nothing |
| Normalizer.NormalizeByKey | Rule_Based_AI_System_Example/simple_med_diag_recipe_style.py:54-57 | `normalize` depends on a phrase only through its stripped, lowercased key |
| Normalizer.KeyIgnoresCase | Rule_Based_AI_System_Example/simple_med_diag_recipe_style.py:56 | phrases that are equal once lowercased have the same key |
| Normalizer.KeyIgnoresPadding | Rule_Based_AI_System_Example/simple_med_diag_recipe_style.py:56 | whitespace on either side of a phrase does not change its key |
| Normalizer.NormalizeIgnoresSurface | Rule_Based_AI_System_Example/simple_med_diag_recipe_style.py:54-57 | phrases that differ only in ASCII case and in surrounding whitespace normalise to the same token |
| Normalizer.StuffyNoseKey | Rule_Based_AI_System_Example/simple_med_diag_recipe_style.py:56 | stripping and lowercasing " Stuffy Nose" gives "stuffy nose" |
| Normalizer.StuffyNoseNormal | Rule_Based_AI_System_Example/simple_med_diag_recipe_style.py:42 | " Stuffy Nose" normalises to "congestion" |
| Normalizer.CongestionKey | Rule_Based_AI_System_Example/simple_med_diag_recipe_style.py:56 | stripping and lowercasing "congestion" leaves it unchanged |
| Normalizer.CongestionNormal | Rule_Based_AI_System_Example/simple_med_diag_recipe_style.py:54-57 | "congestion" normalises to itself |
| Normalizer.StuffyNoseIsCongestion | Rule_Based_AI_System_Example/simple_med_diag_recipe_style.py:41-57 | " Stuffy Nose" and "congestion" both normalise to "congestion" |
| SymptomSets.HasAny | Rule_Based_AI_System_Example/simple_med_diag_recipe_style.py:61-66 | the early-return scan answers true exactly when some option is in the set |
| SymptomSets.AnyIn | Rule_Based_AI_System_Example/simple_med_diag_recipe_style.py:61-66 | what `has_any` answers: some option is in the set (`SymptomSets.HasAny` computes it) |
| SymptomSets.AllIn | Rule_Based_AI_System_Example/simple_med_diag_recipe_style.py:102 | `all(p in user_set for p in parts)`: every part is in the set |
| Triage.AnyListingMeets | Rule_Based_AI_System_Example/simple_med_diag_recipe_style.py:70-74 | `has_any(user_set, list(flags))` gives the same answer in whatever order the set is listed: true exactly when the user's set meets the flag set |
| Triage.Meets | Rule_Based_AI_System_Example/simple_med_diag_recipe_style.py:70-74 | `has_any(user_set, list(flags))` as a set test: the user's set meets the flag set (`Triage.AnyListingMeets` proves the two agree) |
| Triage.TriageCheck | Rule_Based_AI_System_Example/simple_med_diag_recipe_style.py:68-76 | any emergency flag gives the emergency message whatever else is present; the meningitis message exactly when there is no emergency flag and the whole bundle is present; urgent exactly when neither emergency check fires and an urgent flag is present, with the urgent message; OK has the empty message |
| Triage.OneOfFourOutcomes | Rule_Based_AI_System_Example/simple_med_diag_recipe_style.py:68-76 | exactly one of the four outcomes is produced, each under its own condition |
| Triage.TriageMonotone | Rule_Based_AI_System_Example/simple_med_diag_recipe_style.py:68-76 | adding symptoms never lowers the triage level |
| Clauses.Classify | Rule_Based_AI_System_Example/simple_med_diag_recipe_style.py:91-109 | a disjunction exactly when the stripped text contains " or "; a conjunction exactly when it has no " or " but has " and "; the options or parts (at least two) are the stripped pieces of the split; otherwise the single token is the stripped text |
| Clauses.AbsentParts | Rule_Based_AI_System_Example/simple_med_diag_recipe_style.py:106 | the absent parts are exactly the parts not in the set, and there are none exactly when every part is present (their order is `Clauses.AbsentPartsAppend`) |
| Clauses.AbsentPartsCons | Rule_Based_AI_System_Example/simple_med_diag_recipe_style.py:106 | the first part is reported, if absent, before the absent parts of the rest |
| Clauses.AbsentPartsAppend | Rule_Based_AI_System_Example/simple_med_diag_recipe_style.py:106 | the absent parts of `a + b` are those of `a` followed by those of `b`: the comprehension keeps the order of the parts |
| Clauses.AbsentPartsSingle | Rule_Based_AI_System_Example/simple_med_diag_recipe_style.py:106 | one part is reported exactly when it is not in the set |
| Clauses.Satisfied | Rule_Based_AI_System_Example/simple_med_diag_recipe_style.py:93-111 | whether a set satisfies a clause: a single token is in it, some option of a disjunction is in it, every part of a conjunction is in it (monotone in the set: `Clauses.SatisfiedMonotone`) |
| Clauses.MissingText | Rule_Based_AI_System_Example/simple_med_diag_recipe_style.py:97-113 | what an unsatisfied clause reports: the token itself, "one of (...)" with every option, or only the absent parts of a conjunction (their properties: `Clauses.AllOfReportsAbsent`) |
| Clauses.OneOfText | Rule_Based_AI_System_Example/simple_med_diag_recipe_style.py:98 | the options joined by " / " inside "one of (...)" |
| Clauses.AllOfText | Rule_Based_AI_System_Example/simple_med_diag_recipe_style.py:107 | the absent parts joined by " + " |
| Clauses.SatisfiedMonotone | Rule_Based_AI_System_Example/simple_med_diag_recipe_style.py:93-113 | a clause satisfied by a set stays satisfied by a larger one |
| Clauses.AllOfReportsAbsent | Rule_Based_AI_System_Example/simple_med_diag_recipe_style.py:100-107 | an unsatisfied conjunction reports a non-empty list; each entry is one of its parts and is absent from the set |
| Scoring.ClassifyAll | Rule_Based_AI_System_Example/simple_med_diag_recipe_style.py:90-91 | requirement i, classified, is clause i |
| Scoring.MatchedCount | Rule_Based_AI_System_Example/simple_med_diag_recipe_style.py:90-111 | the number of satisfied clauses (with the missing list it accounts for every clause: `Scoring.Balance`) |
| Scoring.MissingList | Rule_Based_AI_System_Example/simple_med_diag_recipe_style.py:90-113 | the missing descriptions of the unsatisfied clauses, in requirement order (it distributes over concatenation: `Scoring.ScoreAppend`) |
| Scoring.Balance | Rule_Based_AI_System_Example/simple_med_diag_recipe_style.py:87-113 | each clause adds one to the matched count or one entry to the missing list: both together equal the number of clauses |
| Scoring.Score | Rule_Based_AI_System_Example/simple_med_diag_recipe_style.py:78-116 | `total` is the number of requirements, `matched <= total`, and `matched + |missing| == total` |
| Scoring.ScoreStep | Rule_Based_AI_System_Example/simple_med_diag_recipe_style.py:90-113 | one more clause adds one to the count if satisfied and appends its missing description otherwise |
| Scoring.ConditionMatchScore | Rule_Based_AI_System_Example/simple_med_diag_recipe_style.py:87-116 | the loop returns exactly `Score`: the count of satisfied clauses, the number of requirements, and the missing descriptions of the unsatisfied clauses in requirement order |
| Scoring.ScoreAppend | Rule_Based_AI_System_Example/simple_med_diag_recipe_style.py:90-113 | scoring distributes over concatenation: the missing list of `a + b` is that of `a` followed by that of `b` |
| Scoring.ScoreSingle | Rule_Based_AI_System_Example/simple_med_diag_recipe_style.py:90-113 | one requirement scores (1, 1, []) when its clause is satisfied and (0, 1, [its missing text]) otherwise |
| Scoring.FullMatch | Rule_Based_AI_System_Example/simple_med_diag_recipe_style.py:87-116 | the matched count equals the number of clauses exactly when every clause is satisfied |
| Scoring.ScoreFull | Rule_Based_AI_System_Example/simple_med_diag_recipe_style.py:87-116 | a requirement list is fully matched exactly when every classified requirement is satisfied, and exactly when nothing is missing |
| Scoring.MatchedMonotone | Rule_Based_AI_System_Example/simple_med_diag_recipe_style.py:90-113 | more symptoms never lower the matched count |
| SuggestionBuilder.ScoreAll | Rule_Based_AI_System_Example/simple_med_diag_recipe_style.py:125-126 | entry i is condition i's name with its score |
| SuggestionBuilder.ExactLine | Rule_Based_AI_System_Example/simple_med_diag_recipe_style.py:132 | the "You may have" line of an exact match, with the tabled advice |
| SuggestionBuilder.PartialLine | Rule_Based_AI_System_Example/simple_med_diag_recipe_style.py:136-139 | the partial line, with the missing list joined by ", " and the tabled advice |
| SuggestionBuilder.IsExact | Rule_Based_AI_System_Example/simple_med_diag_recipe_style.py:128-131 | a condition with requirements whose every clause is matched |
| SuggestionBuilder.IsPartial | Rule_Based_AI_System_Example/simple_med_diag_recipe_style.py:133-135 | a condition with requirements, not exact, whose ratio reaches 0.70 (characterised by `SuggestionBuilder.PartialIsFewer`) |
| SuggestionBuilder.Qualifies | Rule_Based_AI_System_Example/simple_med_diag_recipe_style.py:128-139 | a condition earns a line exactly when it is exact or partial |
| SuggestionBuilder.Lines | Rule_Based_AI_System_Example/simple_med_diag_recipe_style.py:124-139 | the lines of the qualifying conditions, in table order (order: `SuggestionBuilder.LinesAppend`) |
| SuggestionBuilder.SuggestionsOver | Rule_Based_AI_System_Example/simple_med_diag_recipe_style.py:124-144 | those lines, or the single fallback line when there are none (`SuggestionBuilder.FallbackOver`) |
| SuggestionBuilder.Suggestions | Rule_Based_AI_System_Example/simple_med_diag_recipe_style.py:118-144 | the same over the program's own condition table (`SuggestionBuilder.ComputeSuggestions` computes it) |
| SuggestionBuilder.LineFor | Rule_Based_AI_System_Example/simple_med_diag_recipe_style.py:128-139 | at most one line; a line exactly when the score is exact or partial; the "You may have" line for an exact match, the partial line with the missing list for a partial match; nothing for a condition without requirements |
| SuggestionBuilder.LinesStep | Rule_Based_AI_System_Example/simple_med_diag_recipe_style.py:125-139 | one more condition appends its own line, if any |
| SuggestionBuilder.SuggestionsFor | Rule_Based_AI_System_Example/simple_med_diag_recipe_style.py:118-144 | the loop over a condition table returns exactly `SuggestionsOver`: the exact and partial lines in table order, or the fallback line when there are none |
| SuggestionBuilder.ComputeSuggestions | Rule_Based_AI_System_Example/simple_med_diag_recipe_style.py:118-144 | `_compute_suggestions` over the program's condition table returns exactly `Suggestions` |
| SuggestionBuilder.LinesAppend | Rule_Based_AI_System_Example/simple_med_diag_recipe_style.py:125-139 | the lines of `a + b` are those of `a` followed by those of `b`: the output follows the declaration order |
| SuggestionBuilder.LinesEmpty | Rule_Based_AI_System_Example/simple_med_diag_recipe_style.py:125-141 | there are no condition lines exactly when no condition qualifies |
| SuggestionBuilder.LinesAreNotFallback | Rule_Based_AI_System_Example/simple_med_diag_recipe_style.py:131-143 | no condition line is the fallback line |
| SuggestionBuilder.FallbackOver | Rule_Based_AI_System_Example/simple_med_diag_recipe_style.py:141-144 | for any condition table, the result is never empty, and it is the single fallback line exactly when no condition qualifies |
| SuggestionBuilder.SuggestionsFallback | Rule_Based_AI_System_Example/simple_med_diag_recipe_style.py:141-144 | the result is never empty, and it is the single fallback line exactly when no condition of the table qualifies |
| SuggestionBuilder.ThresholdBoundary | Rule_Based_AI_System_Example/simple_med_diag_recipe_style.py:133-135 | 7 of 10 reaches the 0.70 threshold and gives the partial line; 6 of 10 gives nothing |
| SuggestionBuilder.PartialIsFewer | Rule_Based_AI_System_Example/simple_med_diag_recipe_style.py:131-135 | a score is partial exactly when `0 < matched < total` and `10 * matched >= 7 * total` |
| SuggestionBuilder.ExactStaysExact | Rule_Based_AI_System_Example/simple_med_diag_recipe_style.py:131-132 | an exact match stays exact when more symptoms are reported |
| Recommender.Dashes | Rule_Based_AI_System_Example/simple_med_diag_recipe_style.py:167 | `"-" * n` has length n and consists of dashes only |
| Recommender.NonBlank | Rule_Based_AI_System_Example/simple_med_diag_recipe_style.py:153 | the filter of the comprehension: the phrase is not blank once stripped |
| Recommender.FilterMap | Rule_Based_AI_System_Example/simple_med_diag_recipe_style.py:153 | a filtered and mapped comprehension is no longer than its input list |
| Recommender.NormalizedInputs | Rule_Based_AI_System_Example/simple_med_diag_recipe_style.py:153 | the normalised list is no longer than the input list |
| Recommender.FilterMapAppend | Rule_Based_AI_System_Example/simple_med_diag_recipe_style.py:153 | the comprehension over a concatenation is the concatenation of the comprehensions |
| Recommender.FilterMapSingle | Rule_Based_AI_System_Example/simple_med_diag_recipe_style.py:153 | a one-phrase list keeps its mapped phrase exactly when the filter holds |
| Recommender.FilterMapMembers | Rule_Based_AI_System_Example/simple_med_diag_recipe_style.py:153 | an element is in the comprehension exactly when it is the image of some kept phrase |
| Recommender.Distinct | Rule_Based_AI_System_Example/simple_med_diag_recipe_style.py:154 | `set(r)` has no more elements than the list has entries |
| Recommender.UserSet | Rule_Based_AI_System_Example/simple_med_diag_recipe_style.py:153-154 | the set has no more tokens than there are phrases |
| Recommender.DistinctBound | Rule_Based_AI_System_Example/simple_med_diag_recipe_style.py:154 | a list has no more distinct elements than entries |
| Recommender.DistinctAppend | Rule_Based_AI_System_Example/simple_med_diag_recipe_style.py:154 | the distinct elements of a concatenation are the union of those of the parts |
| Recommender.UserSetMembers | Rule_Based_AI_System_Example/simple_med_diag_recipe_style.py:153-154 | a token is in the user's set exactly when some non-blank phrase normalises to it |
| Recommender.UserSetSingle | Rule_Based_AI_System_Example/simple_med_diag_recipe_style.py:153-154 | one phrase gives its token, or nothing when it is blank |
| Recommender.NormalizedSingle | Rule_Based_AI_System_Example/simple_med_diag_recipe_style.py:153 | one phrase gives the list of its token, or the empty list when it is blank |
| Recommender.EmptyNeverToken | Rule_Based_AI_System_Example/simple_med_diag_recipe_style.py:153-154 | the empty text is never a token of the user's set |
| Recommender.RecommendFor | Rule_Based_AI_System_Example/simple_med_diag_recipe_style.py:156-170 | the output for a token set is never empty |
| Recommender.Recommend | Rule_Based_AI_System_Example/simple_med_diag_recipe_style.py:146-170 | `recommend_diagnoses` always returns at least one line |
| Recommender.TooFewSymptoms | Rule_Based_AI_System_Example/simple_med_diag_recipe_style.py:153-158 | fewer than three distinct tokens give exactly the request for more symptoms, however many phrases were entered |
| Recommender.EmergencyOverrides | Rule_Based_AI_System_Example/simple_med_diag_recipe_style.py:157-163 | with three or more tokens, any emergency flag gives exactly the emergency message |
| Recommender.MeningitisOnly | Rule_Based_AI_System_Example/simple_med_diag_recipe_style.py:157-163 | the whole meningitis bundle, without an emergency flag, gives exactly the meningitis message (the bundle alone already makes three tokens) |
| Recommender.BundleSize | Rule_Based_AI_System_Example/simple_med_diag_recipe_style.py:36 | the meningitis bundle has three distinct tokens |
| Recommender.UrgentPrefix | Rule_Based_AI_System_Example/simple_med_diag_recipe_style.py:161-167 | on the urgent level the output is the urgent message, the separator, then the suggestions |
| Recommender.NoRedFlags | Rule_Based_AI_System_Example/simple_med_diag_recipe_style.py:161-170 | on the OK level the output is the suggestions alone |
| Recommender.SameSetSameOutput | Rule_Based_AI_System_Example/simple_med_diag_recipe_style.py:153-170 | inputs with the same token set get the same output |
| Recommender.NormalizedAppend | Rule_Based_AI_System_Example/simple_med_diag_recipe_style.py:153 | normalising a concatenation of phrase lists concatenates the results |
| Recommender.UserSetAppend | Rule_Based_AI_System_Example/simple_med_diag_recipe_style.py:153-154 | the set of a concatenation is the union of the sets |
| Recommender.InputOrderIrrelevant | Rule_Based_AI_System_Example/simple_med_diag_recipe_style.py:153-170 | swapping two blocks of phrases does not change the output |
| Recommender.BlankIgnored | Rule_Based_AI_System_Example/simple_med_diag_recipe_style.py:153 | inserting a blank phrase does not change the output |
| Recommender.SynonymSubstitution | Rule_Based_AI_System_Example/simple_med_diag_recipe_style.py:153-170 | replacing a phrase by one that normalises to the same token does not change the output |
| RecommenderExamples.UserSetOfThree | Rule_Based_AI_System_Example/simple_med_diag_recipe_style.py:153-154 | three non-blank phrases give the set of their three tokens |
| RecommenderExamples.FilterMapThree | Rule_Based_AI_System_Example/simple_med_diag_recipe_style.py:153 | a three-phrase list whose phrases are all kept maps to their three images, in order |
| RecommenderExamples.DistinctThree | Rule_Based_AI_System_Example/simple_med_diag_recipe_style.py:154 | a three-element list has exactly those three distinct elements |
| RecommenderExamples.UserSetOfSynonyms | Rule_Based_AI_System_Example/simple_med_diag_recipe_style.py:153-154 | three phrases with one common non-empty token give a one-token set |
| RecommenderExamples.DistinctRepeated | Rule_Based_AI_System_Example/simple_med_diag_recipe_style.py:154 | one element repeated three times has one distinct element |
| RecommenderExamples.FeverKey | Rule_Based_AI_System_Example/simple_med_diag_recipe_style.py:56 | stripping and lowercasing "fever" leaves it unchanged |
| RecommenderExamples.StiffNeckKey | Rule_Based_AI_System_Example/simple_med_diag_recipe_style.py:56 | stripping and lowercasing "stiff neck" leaves it unchanged |
| RecommenderExamples.SevereHeadacheKey | Rule_Based_AI_System_Example/simple_med_diag_recipe_style.py:56 | stripping and lowercasing "severe headache" leaves it unchanged |
| RecommenderExamples.BlockedNoseKey | Rule_Based_AI_System_Example/simple_med_diag_recipe_style.py:56 | stripping and lowercasing "blocked nose" leaves it unchanged |
| RecommenderExamples.ChestPainKey | Rule_Based_AI_System_Example/simple_med_diag_recipe_style.py:56 | stripping and lowercasing "chest pain" leaves it unchanged |
| RecommenderExamples.FeverToken | Rule_Based_AI_System_Example/simple_med_diag_recipe_style.py:54-57 | "fever" normalises to itself |
| RecommenderExamples.StiffNeckToken | Rule_Based_AI_System_Example/simple_med_diag_recipe_style.py:54-57 | "stiff neck" normalises to itself |
| RecommenderExamples.SevereHeadacheToken | Rule_Based_AI_System_Example/simple_med_diag_recipe_style.py:54-57 | "severe headache" normalises to itself |
| RecommenderExamples.BlockedNoseToken | Rule_Based_AI_System_Example/simple_med_diag_recipe_style.py:43 | "blocked nose" normalises to "congestion" |
| RecommenderExamples.ChestPainToken | Rule_Based_AI_System_Example/simple_med_diag_recipe_style.py:54-57 | "chest pain" normalises to itself |
| RecommenderExamples.MeningitisSet | Rule_Based_AI_System_Example/simple_med_diag_recipe_style.py:153-154 | "fever", "stiff neck" and "severe headache" give exactly those three tokens |
| RecommenderExamples.BundleNotEmergency | Rule_Based_AI_System_Example/simple_med_diag_recipe_style.py:35-36 | those tokens are the meningitis bundle, and the bundle holds no emergency flag |
| RecommenderExamples.MeningitisExample | Rule_Based_AI_System_Example/simple_med_diag_recipe_style.py:146-163 | the three meningitis signs give exactly the meningitis message |
| RecommenderExamples.CongestionSet | Rule_Based_AI_System_Example/simple_med_diag_recipe_style.py:41-57 | " Stuffy Nose", "blocked nose" and "congestion" give the single token "congestion" |
| RecommenderExamples.SynonymsCollapse | Rule_Based_AI_System_Example/simple_med_diag_recipe_style.py:146-158 | " Stuffy Nose", "blocked nose" and "congestion" ask for more symptoms, because they make only one distinct token |
| RecommenderExamples.ChestPainSet | Rule_Based_AI_System_Example/simple_med_diag_recipe_style.py:153-154 | "chest pain" alone gives the one-token set {"chest pain"} |
| RecommenderExamples.LoneEmergencySignAsksForMore | Rule_Based_AI_System_Example/simple_med_diag_recipe_style.py:146-163 | "chest pain" alone meets the emergency flags, yet asks for more symptoms: the low-symptom rule runs before triage |
| SuggestionExamples.AbsentCharNoSep | Rule_Based_AI_System_Example/simple_med_diag_recipe_style.py:93 | a separator with a character the text lacks does not occur in it |
| SuggestionExamples.OneSpaceNoSep | Rule_Based_AI_System_Example/simple_med_diag_recipe_style.py:93 | two words joined by one space contain neither " or " nor " and " |
| SuggestionExamples.SingleClause | Rule_Based_AI_System_Example/simple_med_diag_recipe_style.py:91-113 | a stripped text with neither separator reads as a single token |
| SuggestionExamples.RunnyNoseClause | Rule_Based_AI_System_Example/simple_med_diag_recipe_style.py:9 | "runny nose" reads as a single token |
| SuggestionExamples.CongestionClause | Rule_Based_AI_System_Example/simple_med_diag_recipe_style.py:9 | "congestion" reads as a single token |
| SuggestionExamples.SneezingClause | Rule_Based_AI_System_Example/simple_med_diag_recipe_style.py:9 | "sneezing" reads as a single token |
| SuggestionExamples.SoreThroatClause | Rule_Based_AI_System_Example/simple_med_diag_recipe_style.py:9 | "sore throat" reads as a single token |
| SuggestionExamples.ColdEntry | Rule_Based_AI_System_Example/simple_med_diag_recipe_style.py:9 | the first entry of the condition table is "Common Cold" with its four requirements |
| SuggestionExamples.FourSingles | Rule_Based_AI_System_Example/simple_med_diag_recipe_style.py:90-91 | four requirements that each read as a single token classify to four single-token clauses, in order |
| SuggestionExamples.ColdClauses | Rule_Based_AI_System_Example/simple_med_diag_recipe_style.py:9 | the requirements of "Common Cold" are four single-token clauses |
| SuggestionExamples.LastOfFourMissing | Rule_Based_AI_System_Example/simple_med_diag_recipe_style.py:90-113 | four single tokens of which only the last is absent score three, with that token as the only missing entry |
| SuggestionExamples.ColdScore | Rule_Based_AI_System_Example/simple_med_diag_recipe_style.py:78-116 | runny nose, congestion and sneezing score "Common Cold" at 3 of 4, with "sore throat" missing |
| SuggestionExamples.FirstLine | Rule_Based_AI_System_Example/simple_med_diag_recipe_style.py:124-139 | when the first scored condition earns a line, the lines start with it |
| SuggestionExamples.FirstLineOver | Rule_Based_AI_System_Example/simple_med_diag_recipe_style.py:124-144 | when the first condition of a table earns a line, the suggestions start with it |
| SuggestionExamples.ColdIsPartial | Rule_Based_AI_System_Example/simple_med_diag_recipe_style.py:118-144 | for runny nose, congestion and sneezing the suggestions open with the partial "Common Cold" line naming sore throat as missing |

## Left out

- The interactive console loop (lines 174-188) is left out. It is `print`/`input` I/O, including the comma split of the typed line. The model starts from the list `recommend_diagnoses` receives.
- `Image_Classification/base_classifier.py` and `Image_Classification/new_filter.py` are not part of this model. They are neural-network inference, image I/O and floating-point pixel arithmetic in foreign libraries.
- SuggestionBuilder.IsPartial: the float test `matched / total >= 0.70` is stated as `10 * matched >= 7 * total`. For the small counts involved, the two give the same decisions.
- SuggestionBuilder.ComputeSuggestions: the `partial_threshold` parameter is fixed at its default 0.70, the only value the program uses.
- SuggestionBuilder.SuggestionsFor: the condition table, a module-level global in the source, is passed as a parameter. `ComputeSuggestions` passes the program's own table.
- Text.Trim: only ASCII whitespace (codes 9-13 and 28-32) is stripped. Python's `strip()` also strips other Unicode whitespace, such as the no-break space.
- Text.Lower: only ASCII capitals are lowercased. Python's `lower()` also lowercases other Unicode letters.
- The output lines are built by concatenation, in place of the source's f-strings. The text is the same.
- Triage.TriageCheck: the level is a datatype `Emergency | Urgent | Ok` in place of the strings "EMERGENCY", "URGENT" and "OK".
- Triage.TriageCheck: the two "any flag" tests are stated as set intersection in place of calls to `has_any`. `Triage.AnyListingMeets` proves that `has_any` over any listing of a flag set gives the same answer.
