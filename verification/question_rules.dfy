/** The value-level rules of a survey question: the error reasons, the shape of
    an answer, the blank test used for choice texts, the three validators and the
    sequence facts that the choice mutators of `Questions.Question` rely on.

    The validators read nothing but their arguments: where the source reads the
    object's own `text`, `questionType` and `choices`, these functions take them
    as parameters. */
module QuestionRules {

  /** One constructor per distinct reason a question operation refuses. */
  datatype QuestionError =
    | TextTooShort                       // text shorter than 3 characters
    | TextTooLong                        // text longer than 500 characters
    | InvalidQuestionType                // type name outside the five known ones
    | ChoicesRequired                    // choice-based type with no choices
    | TooFewChoices                      // choice-based type with a single choice
    | DuplicateChoices                   // choice list holds a repeated entry
    | ChoicesNotApplicable               // choice edit on a non-choice type
    | EmptyChoice                        // new choice text is blank
    | DuplicateChoice                    // new choice text already present
    | InvalidChoiceIndex                 // index outside the choice list
    | MinimumChoices                     // removal would leave fewer than 2
    | InvalidReorderArray                // reorder list of the wrong length
    | InvalidReorderIndex                // reorder list holds a bad index
    | AnswerNotString                    // text/radio/dropdown answer not a string
    | AnswerNotAChoice                   // radio/dropdown answer not offered
    | AnswerNotArray                     // checkbox answer not an array
    | SelectionNotAChoice(selected: Answer) // first checkbox selection not offered
    | AnswerNotNumber                    // rating answer not a number
    | RatingOutOfRange                   // rating outside 1..5
    | UnknownQuestionType                // answer checked against an unknown type

  /** A validator either passes or names why it failed. */
  datatype Outcome = Pass | Fail(error: QuestionError)

  /** An operation either yields a value or names why it refused. */
  datatype Result<T> = Ok(value: T) | Err(error: QuestionError)

  /** The dynamically typed answer a respondent gives: a string, a number, an
      array of further answers, or anything else (a boolean, an object, null). */
  datatype Answer = Str(s: string) | Num(n: real) | Arr(items: seq<Answer>) | Other

  /** The fields a question is built from. */
  datatype QuestionData = QuestionData(id: string, text: string, questionType: string, choices: seq<string>)

  const MinTextLength: nat := 3
  const MaxTextLength: nat := 500

  /** The five type names a question may carry, and the three among them whose
      answers are picked from the choice list. */
  const QuestionTypes: seq<string> := ["dropdown", "radio", "checkbox", "text", "rating"]
  const ChoiceTypes: seq<string> := ["dropdown", "radio", "checkbox"]

  /** The two placeholder choices a question gets on becoming choice-based. */
  const DefaultChoices: seq<string> := ["Option 1", "Option 2"]

  // ---------------------------------------------------------------------------
  // Blank text: ECMAScript `trim` and the characters it strips
  // ---------------------------------------------------------------------------

  /** The ECMAScript WhiteSpace and LineTerminator code points. */
  predicate IsWhitespace(c: char) {
    c == '\t' || c == '\n' || c == '\U{000B}' || c == '\U{000C}' || c == '\r' ||
    c == ' ' || c == '\U{00A0}' || c == '\U{1680}' ||
    ('\U{2000}' <= c <= '\U{200A}') ||
    c == '\U{2028}' || c == '\U{2029}' || c == '\U{202F}' || c == '\U{205F}' ||
    c == '\U{3000}' || c == '\U{FEFF}'
  }

  /** Every character is white space (the empty string included). */
  predicate IsBlank(s: string) {
    forall i :: 0 <= i < |s| ==> IsWhitespace(s[i])
  }

  /** `s` without its leading white space: a suffix of `s`. */
  function TrimStart(s: string): (r: string)
    ensures |r| <= |s| && r == s[|s| - |r|..]
    ensures r != [] ==> !IsWhitespace(r[0])
  {
    if s != [] && IsWhitespace(s[0]) then TrimStart(s[1..]) else s
  }

  /** `s` without its trailing white space: a prefix of `s`. */
  function TrimEnd(s: string): (r: string)
    ensures |r| <= |s| && r == s[..|r|]
    ensures r != [] ==> !IsWhitespace(r[|r| - 1])
  {
    if s != [] && IsWhitespace(s[|s| - 1]) then TrimEnd(s[..|s| - 1]) else s
  }

  /** `s` without leading or trailing white space. */
  function Trim(s: string): string {
    TrimEnd(TrimStart(s))
  }

  /** Trimming leaves nothing exactly when the text is blank. */
  lemma {:induction false} TrimEmptyIffBlank(s: string)
    ensures |Trim(s)| == 0 <==> IsBlank(s)
  {
    var t := TrimStart(s);
    if t == [] {
      // everything TrimStart dropped was white space
      TrimStartDropsWhitespace(s);
    } else {
      assert !IsWhitespace(t[0]);
      assert t[0] == s[|s| - |t|];
      assert TrimEnd(t) != [] by {
        if TrimEnd(t) == [] { TrimEndEmptyOnlyIfBlank(t); }
      }
    }
  }

  lemma {:induction false} TrimStartDropsWhitespace(s: string)
    requires TrimStart(s) == []
    ensures IsBlank(s)
  {
    if s != [] {
      assert IsWhitespace(s[0]);
      var rest := s[1..];
      assert TrimStart(rest) == [];
      TrimStartDropsWhitespace(rest);
      forall i | 0 <= i < |s| ensures IsWhitespace(s[i]) {
        if i > 0 {
          assert s[i] == rest[i - 1];
        }
      }
    }
  }

  lemma {:induction false} TrimEndEmptyOnlyIfBlank(s: string)
    requires TrimEnd(s) == []
    ensures IsBlank(s)
  {
    if s != [] {
      assert IsWhitespace(s[|s| - 1]) && TrimEnd(s) == TrimEnd(s[..|s| - 1]);
      var init := s[..|s| - 1];
      TrimEndEmptyOnlyIfBlank(init);
      forall i | 0 <= i < |s| ensures IsWhitespace(s[i]) {
        if i < |s| - 1 {
          assert s[i] == init[i];
        }
      }
    }
  }

  // ---------------------------------------------------------------------------
  // Distinct entries and the set-size test
  // ---------------------------------------------------------------------------

  /** No entry occurs twice. */
  predicate Distinct<T(==)>(s: seq<T>) {
    forall i, j :: 0 <= i < j < |s| ==> s[i] != s[j]
  }

  /** The set of entries of `s`. */
  function Elems<T(==)>(s: seq<T>): set<T> {
    set x | x in s
  }

  /** A sequence is free of repeats exactly when its set of entries is as
      large as the sequence itself. */
  lemma {:induction false} DistinctIffElemsCount<T>(s: seq<T>)
    ensures |Elems(s)| <= |s|
    ensures Distinct(s) <==> |Elems(s)| == |s|
  {
    if s != [] {
      var t := s[1..];
      DistinctIffElemsCount(t);
      assert Elems(s) == {s[0]} + Elems(t) by {
        forall x ensures x in Elems(s) <==> x == s[0] || x in Elems(t) {
          if x in Elems(s) && x != s[0] {
            var i :| 0 <= i < |s| && s[i] == x;
            assert t[i - 1] == x;
          }
        }
      }
      if s[0] in t {
        assert Elems(s) == Elems(t);
        var j :| 0 <= j < |t| && t[j] == s[0];
        assert s[0] == s[j + 1];
      } else {
        assert s[0] !in Elems(t);
        assert |Elems(s)| == |Elems(t)| + 1;
        if Distinct(t) {
          forall i, j | 0 <= i < j < |s| ensures s[i] != s[j] {
            if i == 0 {
              assert s[j] == t[j - 1];
            } else {
              assert s[i] == t[i - 1] && s[j] == t[j - 1];
            }
          }
        } else {
          var i, j :| 0 <= i < j < |t| && t[i] == t[j];
          assert s[i + 1] == s[j + 1];
        }
      }
    }
  }

  /** Appending an entry not yet present keeps the entries distinct. */
  lemma AppendKeepsDistinct<T>(s: seq<T>, x: T)
    requires Distinct(s) && x !in s
    ensures Distinct(s + [x])
  {
  }

  /** Removing one entry keeps the entries distinct. */
  lemma RemoveKeepsDistinct<T>(s: seq<T>, i: nat)
    requires Distinct(s) && i < |s|
    ensures Distinct(s[..i] + s[i + 1..])
    ensures s[i] !in s[..i] + s[i + 1..]
  {
  }

  /** Replacing one entry by a text found at no other position keeps the
      entries distinct. */
  lemma ReplaceKeepsDistinct<T>(s: seq<T>, i: nat, x: T)
    requires Distinct(s) && i < |s|
    requires forall j :: 0 <= j < |s| && j != i ==> s[j] != x
    ensures Distinct(s[i := x])
  {
  }

  /** The integers 0 .. n-1. */
  function Range(n: nat): (r: set<int>)
    ensures forall i :: i in r <==> 0 <= i < n
  {
    if n == 0 then {} else Range(n - 1) + {n - 1}
  }

  lemma {:induction false} RangeCount(n: nat)
    ensures |Range(n)| == n
  {
    if n > 0 {
      RangeCount(n - 1);
      assert Range(n) == Range(n - 1) + {n - 1};
    }
  }

  /** `order` lists every position 0 .. n-1 exactly once. */
  predicate IsPermutation(order: seq<int>, n: nat) {
    |order| == n && (forall k :: 0 <= k < |order| ==> 0 <= order[k] < n) && Distinct(order)
  }

  /** A permutation of 0 .. n-1 mentions every position (pigeonhole). */
  lemma PermutationCovers(order: seq<int>, n: nat)
    requires IsPermutation(order, n)
    ensures forall j :: 0 <= j < n ==> j in order
  {
    DistinctIffElemsCount(order);
    RangeCount(n);
    var used, all := Elems(order), Range(n);
    assert used <= all;
    forall j | 0 <= j < n ensures j in order {
      if j !in order {
        assert used <= all - {j};
        assert |all - {j}| == n - 1;
        SubsetCount(used, all - {j});
        assert false;
      }
    }
  }

  lemma SubsetCount<T>(a: set<T>, b: set<T>)
    requires a <= b
    ensures |a| <= |b|
  {
    assert b == a + (b - a);
  }

  /** The entries of `s` picked in the order the index list gives. */
  function Permute<T>(s: seq<T>, order: seq<int>): (r: seq<T>)
    requires forall k :: 0 <= k < |order| ==> 0 <= order[k] < |s|
    ensures |r| == |order|
    ensures forall k :: 0 <= k < |order| ==> r[k] == s[order[k]]
  {
    seq(|order|, k requires 0 <= k < |order| => s[order[k]])
  }

  /** Reordering by a true permutation keeps every entry as often as it
      occurred: the last entry is picked at exactly one position, and the
      remaining positions reorder the rest. */
  lemma {:induction false} PermuteKeepsMultiset<T>(s: seq<T>, order: seq<int>)
    requires IsPermutation(order, |s|)
    ensures multiset(Permute(s, order)) == multiset(s)
  {
    var n := |s|;
    if n > 0 {
      var p := PositionOf(order, n - 1, n);
      var rest := order[..p] + order[p + 1..];
      var init, last := s[..n - 1], s[n - 1];
      PermuteSplit(s, order, p);
      PermuteKeepsMultiset(init, rest);
      var r' := Permute(init, rest);
      var front, back := r'[..p], r'[p..];
      assert r' == front + back;
      assert Permute(s, order) == front + [last] + back;
      assert s == init + [last];
      assert multiset(Permute(s, order)) == multiset(front) + multiset([last]) + multiset(back);
      assert multiset(s) == multiset(init) + multiset([last]);
    }
  }

  /** The position at which a permutation of 0 .. n-1 holds `j`. */
  lemma PositionOf(order: seq<int>, j: int, n: nat) returns (p: nat)
    requires IsPermutation(order, n) && 0 <= j < n
    ensures p < |order| && order[p] == j
  {
    PermutationCovers(order, n);
    assert j in order;
    p :| 0 <= p < |order| && order[p] == j;
  }

  /** Removing the position that holds the largest index from a permutation
      of 0 .. n-1 leaves a permutation of 0 .. n-2. */
  lemma DropLastIndex(order: seq<int>, p: nat, n: nat)
    requires IsPermutation(order, n) && p < |order| && order[p] == n - 1
    ensures IsPermutation(order[..p] + order[p + 1..], n - 1)
  {
    var rest := order[..p] + order[p + 1..];
    RemoveKeepsDistinct(order, p);
    forall k | 0 <= k < |rest| ensures 0 <= rest[k] < n - 1 {
      var k' := if k < p then k else k + 1;
      assert rest[k] == order[k'] && k' != p;
    }
  }

  /** Picking by `order` is picking by `order` without position `p` from all
      but the last entry, with the last entry put back at `p`. */
  lemma PermuteSplit<T>(s: seq<T>, order: seq<int>, p: nat)
    requires IsPermutation(order, |s|) && p < |order| && order[p] == |s| - 1
    ensures IsPermutation(order[..p] + order[p + 1..], |s| - 1)
    ensures var r' := Permute(s[..|s| - 1], order[..p] + order[p + 1..]);
            Permute(s, order) == r'[..p] + [s[|s| - 1]] + r'[p..]
  {
    var n := |s|;
    var rest := order[..p] + order[p + 1..];
    DropLastIndex(order, p, n);
    var r, r' := Permute(s, order), Permute(s[..n - 1], rest);
    var joined := r'[..p] + [s[n - 1]] + r'[p..];
    forall k | 0 <= k < |r| ensures r[k] == joined[k] {
      if k < p {
        assert rest[k] == order[k];
      } else if k > p {
        assert rest[k - 1] == order[k];
      }
    }
  }

  /** Reordering by a true permutation keeps the entries distinct and keeps
      exactly the same entries, each as often as before. */
  lemma PermuteByPermutation<T>(s: seq<T>, order: seq<int>)
    requires IsPermutation(order, |s|)
    ensures Distinct(s) ==> Distinct(Permute(s, order))
    ensures Elems(Permute(s, order)) == Elems(s)
    ensures multiset(Permute(s, order)) == multiset(s)
  {
    PermuteKeepsMultiset(s, order);
    var r := Permute(s, order);
    PermutationCovers(order, |s|);
    forall x | x in Elems(s) ensures x in Elems(r) {
      var j :| 0 <= j < |s| && s[j] == x;
      assert j in order;
      var k :| 0 <= k < |order| && order[k] == j;
      assert r[k] == x;
    }
    if Distinct(s) {
      forall a, b | 0 <= a < b < |r| ensures r[a] != r[b] {
        assert order[a] != order[b];
      }
    }
  }

  // ---------------------------------------------------------------------------
  // Validators
  // ---------------------------------------------------------------------------

  /** Whether answers of type `t` are picked from a choice list. */
  function IsChoiceBased(t: string): (b: bool)
    ensures b <==> t == "dropdown" || t == "radio" || t == "checkbox"
    ensures b ==> ValidateQuestionType(t).Pass?
  {
    t in ChoiceTypes
  }

  /** Text length must lie in 3..500; a too-short text is reported before a
      too-long one. */
  function ValidateText(text: string): (r: Outcome)
    ensures r.Pass? <==> MinTextLength <= |text| <= MaxTextLength
    ensures |text| < MinTextLength ==> r == Fail(TextTooShort)
    ensures |text| > MaxTextLength ==> r == Fail(TextTooLong)
  {
    if |text| < MinTextLength then Fail(TextTooShort)
    else if |text| > MaxTextLength then Fail(TextTooLong)
    else Pass
  }

  /** The type name must be one of the five known ones. */
  function ValidateQuestionType(t: string): (r: Outcome)
    ensures r.Pass? <==> t == "dropdown" || t == "radio" || t == "checkbox" || t == "text" || t == "rating"
    ensures r.Fail? ==> r.error == InvalidQuestionType
  {
    if t in QuestionTypes then Pass else Fail(InvalidQuestionType)
  }

  /** A choice-based type needs at least two choices, none repeated; the
      repeat test compares the size of the set of choices with their number.
      Other types accept any choice list. */
  function ValidateChoices(t: string, choices: seq<string>): (r: Outcome)
    ensures r.Pass? <==> !IsChoiceBased(t) || (|choices| >= 2 && Distinct(choices))
    ensures IsChoiceBased(t) && |choices| == 0 ==> r == Fail(ChoicesRequired)
    ensures IsChoiceBased(t) && |choices| == 1 ==> r == Fail(TooFewChoices)
    ensures IsChoiceBased(t) && |choices| >= 2 && !Distinct(choices) ==> r == Fail(DuplicateChoices)
  {
    DistinctIffElemsCount(choices);
    if !IsChoiceBased(t) then Pass
    else if |choices| == 0 then Fail(ChoicesRequired)
    else if |choices| < 2 then Fail(TooFewChoices)
    else if |Elems(choices)| != |choices| then Fail(DuplicateChoices)
    else Pass
  }

  /** Text, then type, then choices; the first failure is the one reported. */
  function ValidateQuestion(text: string, t: string, choices: seq<string>): (r: Outcome)
    ensures r.Pass? <==>
      MinTextLength <= |text| <= MaxTextLength &&
      t in QuestionTypes &&
      (!IsChoiceBased(t) || (|choices| >= 2 && Distinct(choices)))
    ensures ValidateText(text).Fail? ==> r == ValidateText(text)
    ensures ValidateText(text).Pass? && ValidateQuestionType(t).Fail? ==> r == Fail(InvalidQuestionType)
    ensures ValidateText(text).Pass? && ValidateQuestionType(t).Pass? ==> r == ValidateChoices(t, choices)
  {
    if ValidateText(text).Fail? then ValidateText(text)
    else if ValidateQuestionType(t).Fail? then ValidateQuestionType(t)
    else ValidateChoices(t, choices)
  }

  /** The placeholder choices satisfy the choice rules of every type. */
  lemma DefaultChoicesValid(t: string)
    ensures ValidateChoices(t, DefaultChoices).Pass?
  {
  }

  /** The source's parameterless construction (empty text, type "text", no
      choices) is always refused, for its text. */
  lemma DefaultDataRejected()
    ensures ValidateQuestion("", "text", []) == Fail(TextTooShort)
  {
  }

  /** Reordering with a repeated index passes the reorder checks on a valid
      choice list yet produces a repeated choice. */
  lemma ReorderCanDuplicate()
    ensures ValidateChoices("radio", ["A", "B"]).Pass?
    ensures Permute(["A", "B"], [0, 0]) == ["A", "A"]
    ensures ValidateChoices("radio", ["A", "A"]) == Fail(DuplicateChoices)
  {
    assert ["A", "A"][0] == ["A", "A"][1];
    assert Permute(["A", "B"], [0, 0])[1] == "A";
  }

}
