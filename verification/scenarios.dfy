/** Short client runs over the question entity, each proved from the
    contracts of `Questions.Question` alone. */
module QuestionScenarios {
  import opened QuestionRules
  import opened Questions

  /** A radio question with exactly two choices refuses every removal: the
      first call already fails for the two-choice minimum, and so does the
      second. */
  method RemoveFromTwoChoices() returns (first: Result<seq<string>>, second: Result<seq<string>>)
    ensures first == Err(MinimumChoices) && second == Err(MinimumChoices)
  {
    var created := Question.Create(QuestionData("q1", "Pick one", "radio", ["A", "B"]), "generated");
    assert ["A", "B"][0] != ["A", "B"][1];
    var q := created.value;
    first := q.RemoveChoice(0);
    second := q.RemoveChoice(0);
  }

  /** A checkbox answer holding a choice that is not offered is refused,
      naming that selection. */
  method CheckboxNamesBadSelection() returns (r: Outcome)
    ensures r == Fail(SelectionNotAChoice(Str("C")))
  {
    var created := Question.Create(QuestionData("q2", "Pick some", "checkbox", ["A", "B"]), "generated");
    assert ["A", "B"][0] != ["A", "B"][1];
    var q := created.value;
    var items := [Str("A"), Str("C")];
    assert q.Offers(items[0]);
    assert !q.Offers(items[1]);
    r := q.ValidateAnswer(Arr(items));
  }

  /** Turning a text question into a dropdown installs the placeholder
      choices, which the new choice-based question accepts as valid; turning
      it back empties them. */
  method TypeRoundTrip() returns (choicesAsDropdown: seq<string>, choicesAsText: seq<string>)
    ensures choicesAsDropdown == ["Option 1", "Option 2"] && choicesAsText == []
  {
    var created := Question.Create(QuestionData("q3", "Your name?", "text", []), "generated");
    var q := created.value;
    var _ := q.ChangeQuestionType("dropdown");
    choicesAsDropdown := q.choices;
    var _ := q.ChangeQuestionType("text");
    choicesAsText := q.choices;
  }
}
