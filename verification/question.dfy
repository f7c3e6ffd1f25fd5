/** The question entity: an object whose text, type name and choice list are
    fields that its methods check and then update in place. Every refusal is a
    `Result`/`Outcome` carrying the reason instead of a thrown error, and a
    refused call leaves the fields as they were. */
module Questions {
  import opened QuestionRules

  class Question {
    var id: string
    var text: string
    var questionType: string
    var choices: seq<string>

    /** The object passes the full validation that construction runs. */
    predicate Valid()
      reads this
    {
      ValidateQuestion(text, questionType, choices).Pass?
    }

    /** Copies the fields from `data`; an empty id is replaced by
        `generatedId`, the identifier the caller generated. Validation is
        `Create`'s business. */
    constructor (data: QuestionData, generatedId: string)
      ensures id == (if data.id == "" then generatedId else data.id)
      ensures text == data.text && questionType == data.questionType && choices == data.choices
    {
      id := if data.id == "" then generatedId else data.id;
      text := data.text;
      questionType := data.questionType;
      choices := data.choices;
    }

    /** Builds a question and validates it at once: construction succeeds
        exactly when the data passes the validators, and a refused
        construction yields no object. */
    static method Create(data: QuestionData, generatedId: string) returns (r: Result<Question>)
      ensures r.Ok? <==> ValidateQuestion(data.text, data.questionType, data.choices).Pass?
      ensures r.Err? ==> r.error == ValidateQuestion(data.text, data.questionType, data.choices).error
      ensures r.Ok? ==> fresh(r.value) && r.value.Valid()
      ensures r.Ok? ==> r.value.id == (if data.id == "" then generatedId else data.id)
      ensures r.Ok? ==> (r.value.text == data.text && r.value.questionType == data.questionType &&
                         r.value.choices == data.choices)
    {
      var q := new Question(data, generatedId);
      var check := ValidateQuestion(q.text, q.questionType, q.choices);
      if check.Fail? {
        return Err(check.error);
      }
      r := Ok(q);
    }

    /** A new, separately allocated question with the same text, type and
        choices under the identifier `generatedId`. It is validated like any
        construction, so a question whose choices were broken by a lax
        reorder cannot be cloned. */
    method Clone(generatedId: string) returns (r: Result<Question>)
      ensures r.Ok? <==> Valid()
      ensures r.Err? ==> r.error == ValidateQuestion(text, questionType, choices).error
      ensures r.Ok? ==> fresh(r.value) && r.value != this && r.value.Valid()
      ensures r.Ok? ==> (r.value.id == generatedId && r.value.text == text &&
                         r.value.questionType == questionType && r.value.choices == choices)
    {
      r := Create(QuestionData(generatedId, text, questionType, choices), generatedId);
    }

    /** Appends a new choice. Refused, in this order, on a non-choice type,
        on a blank text, and on a text already in the list. */
    method AddChoice(choice: string) returns (r: Result<seq<string>>)
      modifies this`choices
      ensures !IsChoiceBased(questionType) ==> r == Err(ChoicesNotApplicable)
      ensures IsChoiceBased(questionType) && IsBlank(choice) ==> r == Err(EmptyChoice)
      ensures IsChoiceBased(questionType) && !IsBlank(choice) && old(HasChoice(choice)) ==> r == Err(DuplicateChoice)
      ensures r.Ok? <==> IsChoiceBased(questionType) && !IsBlank(choice) && !old(HasChoice(choice))
      ensures r.Ok? ==> choices == old(choices) + [choice] && r.value == choices
      ensures r.Ok? ==> HasChoice(choice) && ChoiceCount() == old(ChoiceCount()) + 1
      ensures r.Err? ==> choices == old(choices)
      ensures old(Valid()) ==> Valid()
    {
      if !IsChoiceBased(questionType) {
        return Err(ChoicesNotApplicable);
      }
      TrimEmptyIffBlank(choice);
      if |Trim(choice)| == 0 {
        return Err(EmptyChoice);
      }
      if HasChoice(choice) {
        return Err(DuplicateChoice);
      }
      if Valid() {
        AppendKeepsDistinct(choices, choice);
      }
      choices := choices + [choice];
      r := Ok(choices);
    }

    /** Removes the choice at `index`, closing the gap. Refused, in this
        order, on a non-choice type, on an index outside the list, and when
        only two choices are left. */
    method RemoveChoice(index: int) returns (r: Result<seq<string>>)
      modifies this`choices
      ensures !IsChoiceBased(questionType) ==> r == Err(ChoicesNotApplicable)
      ensures IsChoiceBased(questionType) && !(0 <= index < |old(choices)|) ==> r == Err(InvalidChoiceIndex)
      ensures IsChoiceBased(questionType) && 0 <= index < |old(choices)| <= 2 ==> r == Err(MinimumChoices)
      ensures r.Ok? <==> IsChoiceBased(questionType) && 0 <= index < |old(choices)| && |old(choices)| > 2
      ensures r.Ok? ==> |choices| == |old(choices)| - 1 >= 2 && r.value == choices
      ensures r.Ok? ==> forall k :: 0 <= k < index ==> choices[k] == old(choices)[k]
      ensures r.Ok? ==> forall k :: index <= k < |choices| ==> choices[k] == old(choices)[k + 1]
      ensures r.Err? ==> choices == old(choices)
      ensures old(Valid()) ==> Valid()
      ensures old(Valid()) && r.Ok? ==> !HasChoice(old(choices)[index])
    {
      if !IsChoiceBased(questionType) {
        return Err(ChoicesNotApplicable);
      }
      if index < 0 || index >= |choices| {
        return Err(InvalidChoiceIndex);
      }
      if |choices| <= 2 {
        return Err(MinimumChoices);
      }
      if Valid() {
        RemoveKeepsDistinct(choices, index);
      }
      choices := choices[..index] + choices[index + 1..];
      r := Ok(choices);
    }

    /** Replaces the choice at `index` by `newText`. Refused, in this order,
        on a non-choice type, on an index outside the list, on a blank text,
        and on a text held by another position. */
    method UpdateChoice(index: int, newText: string) returns (r: Result<seq<string>>)
      modifies this`choices
      ensures !IsChoiceBased(questionType) ==> r == Err(ChoicesNotApplicable)
      ensures IsChoiceBased(questionType) && !(0 <= index < |old(choices)|) ==> r == Err(InvalidChoiceIndex)
      ensures IsChoiceBased(questionType) && 0 <= index < |old(choices)| && IsBlank(newText) ==> r == Err(EmptyChoice)
      ensures IsChoiceBased(questionType) && 0 <= index < |old(choices)| && !IsBlank(newText)
              && (exists j :: 0 <= j < |old(choices)| && j != index && old(choices)[j] == newText)
              ==> r == Err(DuplicateChoice)
      ensures r.Ok? <==> (IsChoiceBased(questionType) && 0 <= index < |old(choices)| && !IsBlank(newText) &&
                          forall j :: 0 <= j < |old(choices)| && j != index ==> old(choices)[j] != newText)
      ensures r.Ok? ==> |choices| == |old(choices)| && choices[index] == newText && r.value == choices
      ensures r.Ok? ==> HasChoice(newText)
      ensures r.Ok? ==> forall k :: 0 <= k < |choices| && k != index ==> choices[k] == old(choices)[k]
      ensures r.Err? ==> choices == old(choices)
      ensures old(Valid()) ==> Valid()
    {
      if !IsChoiceBased(questionType) {
        return Err(ChoicesNotApplicable);
      }
      if index < 0 || index >= |choices| {
        return Err(InvalidChoiceIndex);
      }
      TrimEmptyIffBlank(newText);
      if |Trim(newText)| == 0 {
        return Err(EmptyChoice);
      }
      if exists j :: 0 <= j < |choices| && j != index && choices[j] == newText {
        return Err(DuplicateChoice);
      }
      if Valid() {
        ReplaceKeepsDistinct(choices, index, newText);
      }
      choices := choices[index := newText];
      r := Ok(choices);
    }

    /** Rebuilds the choice list by picking, for each entry of `order`, the
        choice at that position. Refused when `order` is not as long as the
        list or holds a position outside it. The type is not checked and
        `order` need not be a permutation: a repeated position repeats a
        choice (see `ReorderCanDuplicate`); a true permutation keeps a valid
        question valid and keeps the same choices. */
    method ReorderChoices(order: seq<int>) returns (r: Result<seq<string>>)
      modifies this`choices
      ensures |order| != |old(choices)| ==> r == Err(InvalidReorderArray)
      ensures |order| == |old(choices)| && (exists k :: 0 <= k < |order| && !(0 <= order[k] < |old(choices)|))
              ==> r == Err(InvalidReorderIndex)
      ensures r.Ok? <==> |order| == |old(choices)| && forall k :: 0 <= k < |order| ==> 0 <= order[k] < |old(choices)|
      ensures r.Ok? ==> choices == Permute(old(choices), order) && r.value == choices
      ensures r.Err? ==> choices == old(choices)
      ensures old(Valid()) && IsPermutation(order, |old(choices)|) ==> Valid()
      ensures IsPermutation(order, |old(choices)|) ==> Elems(choices) == Elems(old(choices))
      ensures IsPermutation(order, |old(choices)|) ==> multiset(choices) == multiset(old(choices))
    {
      if |order| != |choices| {
        return Err(InvalidReorderArray);
      }
      var reordered: seq<string> := [];
      var i := 0;
      while i < |order|
        invariant 0 <= i <= |order|
        invariant |reordered| == i
        invariant forall k :: 0 <= k < i ==> 0 <= order[k] < |choices| && reordered[k] == choices[order[k]]
      {
        if order[i] < 0 || order[i] >= |choices| {
          return Err(InvalidReorderIndex);
        }
        reordered := reordered + [choices[order[i]]];
        i := i + 1;
      }
      if IsPermutation(order, |choices|) {
        PermuteByPermutation(choices, order);
      }
      choices := reordered;
      r := Ok(choices);
    }

    /** Replaces the text when it passes `ValidateText`; otherwise reports
        that validator's reason and keeps the old text. */
    method UpdateText(newText: string) returns (r: Result<string>)
      modifies this`text
      ensures r.Ok? <==> MinTextLength <= |newText| <= MaxTextLength
      ensures r.Ok? ==> text == newText && r.value == newText
      ensures r.Err? ==> text == old(text) && r.error == ValidateText(newText).error
      ensures old(Valid()) ==> Valid()
    {
      var check := ValidateText(newText);
      if check.Fail? {
        return Err(check.error);
      }
      text := newText;
      r := Ok(text);
    }

    /** Switches the type name. An unknown name is refused and changes
        nothing. Becoming choice-based from a non-choice type installs the
        two placeholder choices; leaving the choice-based types empties the
        list; any other switch keeps the list as it is. */
    method ChangeQuestionType(newType: string) returns (r: Result<string>)
      modifies this`questionType, this`choices
      ensures ValidateQuestionType(newType).Fail? ==>
                r == Err(InvalidQuestionType) && questionType == old(questionType) && choices == old(choices)
      ensures ValidateQuestionType(newType).Pass? ==> r == Ok(newType) && questionType == newType
      ensures r.Ok? && IsChoiceBased(newType) && !IsChoiceBased(old(questionType)) ==>
                choices == DefaultChoices && HasChoice("Option 1") && HasChoice("Option 2")
      ensures r.Ok? && !IsChoiceBased(newType) && IsChoiceBased(old(questionType)) ==> choices == []
      ensures r.Ok? && IsChoiceBased(newType) == IsChoiceBased(old(questionType)) ==> choices == old(choices)
      ensures old(Valid()) ==> Valid()
    {
      var check := ValidateQuestionType(newType);
      if check.Fail? {
        return Err(check.error);
      }
      var wasChoiceBased := IsChoiceBased(questionType);
      var willBeChoiceBased := newType == "dropdown" || newType == "radio" || newType == "checkbox";
      if willBeChoiceBased && !wasChoiceBased {
        DefaultChoicesValid(newType);
        choices := DefaultChoices;
      } else if !willBeChoiceBased && wasChoiceBased {
        choices := [];
      }
      questionType := newType;
      r := Ok(questionType);
    }

    /** The number of choices; a valid choice-based question has at least two. */
    function ChoiceCount(): (n: nat)
      reads this
      ensures Valid() && IsChoiceBased(questionType) ==> n >= 2
    {
      |choices|
    }

    /** Whether `choice` is one of the choices: the membership test behind
        the duplicate check of `AddChoice` and the radio/dropdown answer
        check. */
    function HasChoice(choice: string): (b: bool)
      reads this
      ensures b <==> exists i :: 0 <= i < |choices| && choices[i] == choice
    {
      choice in choices
    }

    /** The answer is a string that is one of the choices. */
    predicate Offers(a: Answer)
      reads this
    {
      a.Str? && HasChoice(a.s)
    }

    /** Checks an answer against the question's type: a text question takes
        any string; radio and dropdown take a string among the choices;
        checkbox takes an array whose every element is a string among the
        choices, and otherwise names the first element that is not; rating
        takes a number from 1 to 5; an unknown type takes nothing. */
    method ValidateAnswer(answer: Answer) returns (r: Outcome)
      ensures questionType == "text" ==> (r.Pass? <==> answer.Str?)
      ensures questionType == "text" && r.Fail? ==> r.error == AnswerNotString
      ensures questionType in ["radio", "dropdown"] ==> (r.Pass? <==> answer.Str? && HasChoice(answer.s))
      ensures questionType in ["radio", "dropdown"] && !answer.Str? ==> r == Fail(AnswerNotString)
      ensures questionType in ["radio", "dropdown"] && answer.Str? && r.Fail? ==> r.error == AnswerNotAChoice
      ensures questionType == "checkbox" ==>
                (r.Pass? <==> answer.Arr? && forall k :: 0 <= k < |answer.items| ==> Offers(answer.items[k]))
      ensures questionType == "checkbox" && !answer.Arr? ==> r == Fail(AnswerNotArray)
      ensures questionType == "checkbox" && answer.Arr? && r.Fail? ==>
                exists k :: 0 <= k < |answer.items| && r.error == SelectionNotAChoice(answer.items[k])
                  && !Offers(answer.items[k])
                  && forall j :: 0 <= j < k ==> Offers(answer.items[j])
      ensures questionType == "rating" ==> (r.Pass? <==> answer.Num? && 1.0 <= answer.n <= 5.0)
      ensures questionType == "rating" && !answer.Num? ==> r == Fail(AnswerNotNumber)
      ensures questionType == "rating" && answer.Num? && r.Fail? ==> r.error == RatingOutOfRange
      ensures ValidateQuestionType(questionType).Fail? ==> r == Fail(UnknownQuestionType)
      ensures Valid() ==> r != Fail(UnknownQuestionType)
    {
      if questionType == "text" {
        if !answer.Str? {
          return Fail(AnswerNotString);
        }
      } else if questionType == "radio" || questionType == "dropdown" {
        if !answer.Str? {
          return Fail(AnswerNotString);
        }
        if !HasChoice(answer.s) {
          return Fail(AnswerNotAChoice);
        }
      } else if questionType == "checkbox" {
        if !answer.Arr? {
          return Fail(AnswerNotArray);
        }
        var i := 0;
        while i < |answer.items|
          invariant 0 <= i <= |answer.items|
          invariant forall k :: 0 <= k < i ==> Offers(answer.items[k])
        {
          var selected := answer.items[i];
          if !Offers(selected) {
            return Fail(SelectionNotAChoice(selected));
          }
          i := i + 1;
        }
      } else if questionType == "rating" {
        if !answer.Num? {
          return Fail(AnswerNotNumber);
        }
        if answer.n < 1.0 || answer.n > 5.0 {
          return Fail(RatingOutOfRange);
        }
      } else {
        return Fail(UnknownQuestionType);
      }
      r := Pass;
    }
  }
}
