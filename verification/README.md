# Survey question model

A Dafny model of the question entity of a small survey application
(`src/classes/Question.ts`). A question carries an identifier, a text, a type
name and an ordered list of answer choices. Validators guard it:

- the text is 3 to 500 characters long;
- the type is one of `dropdown`, `radio`, `checkbox`, `text`, `rating`;
- the three choice-based types (`dropdown`, `radio`, `checkbox`) need at least
  two choices, none repeated.

Mutators edit the choice list in place (append, remove at an index, replace
at an index, reorder by an index list), replace the text, or switch the type,
which installs two placeholder choices or empties the list when the question
moves between choice-based and non-choice types. An answer is checked against
the question's type.

Layout:

- `question_rules.dfy`, module `QuestionRules`: the error reasons, the
  `Outcome`/`Result` types that replace thrown errors, the dynamically typed
  `Answer`, the ECMAScript `trim` used for the blank-choice test, the three
  validators as functions of the fields they read, and the sequence lemmas
  (distinctness against the set-size test, permutations).
- `question.dfy`, module `Questions`: class `Question` with the four fields;
  `Valid()` is "passes the full validation". Every mutator states the whole
  new state and its error cases, in the order the source checks them, and
  that it keeps a valid question valid. The one exception is `ReorderChoices`,
  which keeps validity only when the index list is a true permutation.
- `scenarios.dfy`, module `QuestionScenarios`: client runs proved from the
  contracts alone.

Three behaviours of the code are easy to misread; the model keeps them as
written:

- Nothing requires a non-choice type to have an empty choice list, so a
  `text` question built with choices keeps them.
- Removal is refused whenever two or fewer choices remain, so on a radio
  question with choices `["A","B"]` even the first removal fails
  (`QuestionScenarios.RemoveFromTwoChoices`).
- The reorder is lax: repeated indices are accepted and can repeat a choice.
  The model keeps this behaviour (`QuestionRules.ReorderCanDuplicate`) and
  proves that a true permutation is harmless
  (`QuestionRules.PermuteByPermutation`).

## Model

| member | source | states |
|---|---|---|
| `QuestionRules.ValidateText` | src/classes/Question.ts:27-37 | passes iff 3 <= length <= 500; a text under 3 reports "too short", one over 500 "too long" |
| `QuestionRules.ValidateQuestionType` | src/classes/Question.ts:39-53 | passes iff the name is one of the five type names, otherwise reports an invalid type |
| `QuestionRules.ValidateChoices` | src/classes/Question.ts:55-72 | passes iff the type is not choice-based or there are at least 2 pairwise distinct choices; reports no choices, a single choice, or duplicates, in that order |
| `QuestionRules.DistinctIffElemsCount` | src/classes/Question.ts:65-67 | the source's test "set size equals list length" holds exactly when no entry is repeated |
| `QuestionRules.ValidateQuestion` | src/classes/Question.ts:74-79 | passes iff text, type and choices all pass; the first failing validator (text, then type, then choices) is the one reported |
| `QuestionRules.IsChoiceBased` | src/classes/Question.ts:193-195 | true exactly for dropdown, radio and checkbox, each of which is a valid type name |
| `QuestionRules.TrimEmptyIffBlank` | src/classes/Question.ts:87-89 | trimming leaves an empty string exactly when every character is ECMAScript white space or a line terminator |
| `QuestionRules.AppendKeepsDistinct` | src/classes/Question.ts:91-95 | appending a text not in the list keeps the list free of repeats |
| `QuestionRules.RemoveKeepsDistinct` | src/classes/Question.ts:108-112 | removing one entry of a repeat-free list keeps it repeat-free, and the removed text is gone |
| `QuestionRules.ReplaceKeepsDistinct` | src/classes/Question.ts:129-135 | replacing one entry by a text held at no other position keeps the list repeat-free |
| `QuestionRules.Permute` | src/classes/Question.ts:144-151 | the reordered list is as long as the index list and holds at each position the choice at the given index |
| `QuestionRules.PermutationCovers` | src/classes/Question.ts:144-151 | an index list of length n with distinct indices in 0..n-1 mentions every index |
| `QuestionRules.PermuteByPermutation` | src/classes/Question.ts:144-151 | reordering by a true permutation keeps distinct choices distinct, keeps exactly the same set of choices, and keeps each choice as often as it occurred (equal multisets) |
| `QuestionRules.PermuteKeepsMultiset` | src/classes/Question.ts:144-151 | reordering by a true permutation yields the same multiset of choices, so repeat counts survive too |
| `QuestionRules.ReorderCanDuplicate` | src/classes/Question.ts:144-149 | on the valid radio choices ["A","B"] the index list [0,0] passes the reorder checks and yields ["A","A"], which fails for duplicates |
| `QuestionRules.DefaultChoicesValid` | src/classes/Question.ts:170-172 | the placeholders "Option 1" and "Option 2" pass the choice rules of every type |
| `QuestionRules.DefaultDataRejected` | src/classes/Question.ts:10-23 | construction from the default data (empty text, type text, no choices) always fails for too short a text |
| `Questions.Question.constructor` | src/classes/Question.ts:10-21 | copies the fields; an empty id is replaced by the generated one |
| `Questions.Question.Create` | src/classes/Question.ts:10-24 | construction succeeds iff the data passes validation, reports the first failure otherwise, and a built question is valid and fresh |
| `Questions.Question.Clone` | src/classes/Question.ts:183-191 | succeeds iff this question is valid; the copy is a different object with the new id and equal text, type and choices |
| `Questions.Question.AddChoice` | src/classes/Question.ts:82-97 | refuses a non-choice type, a blank text, a text already present, in that order; otherwise the list becomes old + [choice], holds the new choice and has one more entry; keeps a valid question valid |
| `Questions.Question.RemoveChoice` | src/classes/Question.ts:99-114 | refuses a non-choice type, an index outside the list, a list of 2 or fewer, in that order; otherwise closes the gap at the index, leaving at least 2 choices; on a valid question the removed text is no longer a choice; keeps validity |
| `Questions.Question.UpdateChoice` | src/classes/Question.ts:116-137 | refuses a non-choice type, a bad index, a blank text, a text held at another index, in that order; otherwise only the entry at the index changes and the new text is a choice; keeps validity |
| `Questions.Question.ReorderChoices` | src/classes/Question.ts:139-153 | refuses a length mismatch, then an out-of-range index; otherwise the list is the old list picked by the index list; keeps validity, the same set and the same multiset of choices when the list is a permutation; does not look at the type |
| `Questions.Question.UpdateText` | src/classes/Question.ts:156-160 | replaces the text iff it is 3..500 characters long, otherwise reports the text validator's reason and changes nothing; keeps validity |
| `Questions.Question.ChangeQuestionType` | src/classes/Question.ts:163-180 | refuses an unknown type name and changes nothing; otherwise sets the type and installs ["Option 1","Option 2"] on entering the choice-based types, empties the choices on leaving them, and keeps them otherwise; keeps validity |
| `Questions.Question.ChoiceCount` | src/classes/Question.ts:197-199 | a valid choice-based question has at least 2 choices |
| `Questions.Question.HasChoice` | src/classes/Question.ts:201-203 | true iff some position of the list holds the text; it is the membership test in the contracts of AddChoice (duplicate refusal, new choice present), UpdateChoice, RemoveChoice and ValidateAnswer |
| `Questions.Question.ValidateAnswer` | src/classes/Question.ts:215-260 | text: passes iff a string; radio/dropdown: iff a string for which HasChoice holds; checkbox: iff an array of strings among the choices, otherwise names the first element that is not; rating: iff a number in [1,5]; unknown type: fails, which a valid question never reaches |
| `QuestionScenarios.RemoveFromTwoChoices` | src/classes/Question.ts:99-114 | a radio question with choices ["A","B"] refuses removal at index 0 on the first and on the second call |
| `QuestionScenarios.CheckboxNamesBadSelection` | src/classes/Question.ts:233-244 | a checkbox question with choices ["A","B"] refuses the answer ["A","C"] naming "C" |
| `QuestionScenarios.TypeRoundTrip` | src/classes/Question.ts:163-180 | text to dropdown installs ["Option 1","Option 2"]; dropdown back to text empties the choices |

## Left out

- `src/classes/Survey.ts` is not part of this model: its constructor only copies fields, and its name check only chooses between two console messages (the rejecting branch does not throw).
- Identifier generation (clock and random number): the generated id is a parameter of `Create` and `Clone`; ids are not proved unique.
- The JSON projection (`toJSON`): it returns the four fields, the choice list being the live array (see aliasing below), and has no behaviour of its own.
- Thrown errors become `Outcome`/`Result` values naming the reason; the message texts themselves are not modelled.
- Aliasing of the choice array: the source shares one array between the question and its callers in three places: the constructor keeps the array it was given, `toJSON` hands out the live array, and every choice mutator returns it. So `new Question(q.toJSON())` shares a list with `q`, and a caller editing such an array changes the question without any check (it can put a duplicate into a valid choice-based question). The model holds the choices as a value (`seq<string>`), so none of this sharing is modelled, and the `old(Valid()) ==> Valid()` results cover only changes made through the methods.
- Numbers: ratings are exact reals and indices are integers. NaN (which passes the source's range test because both comparisons are false), infinities and fractional indices are not modelled.
- String length is the number of characters, not of UTF-16 code units.
- Missing or non-string inputs to the constructor (an absent choice list defaulting to empty, a null text) are not modelled; `QuestionData` always carries a text and a list.
