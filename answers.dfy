/**
 * The answer history of Controllers/QuestionController.cs: a list of
 * UserAnswer records keyed by question text, searched with FirstOrDefault
 * and updated by an upsert.
 */
module Answers {
  import opened Wrappers
  import opened ViewModels

  /** Index of the first record whose text is `text`, or null when no record has it. */
  function FirstAnswerIndex(answers: seq<UserAnswer>, text: string): (r: Nullable<nat>)
    ensures r.Null? <==> forall j | 0 <= j < |answers| :: answers[j].QuestionText != text
    ensures r.Some? ==> r.value < |answers| && answers[r.value].QuestionText == text
    ensures r.Some? ==> forall j | 0 <= j < r.value :: answers[j].QuestionText != text
  {
    if answers == [] then Null
    else if answers[0].QuestionText == text then Some(0)
    else
      match FirstAnswerIndex(answers[1..], text)
      case Null => Null
      case Some(i) => Some(i + 1)
  }

  /**
   * `answers.FirstOrDefault(a => a.QuestionText == text)?.Answer`: the answer of the
   * first record for `text`, or null when there is none.
   */
  function ExistingAnswer(answers: seq<UserAnswer>, text: string): (r: Nullable<string>)
    ensures r.Null? <==> forall j | 0 <= j < |answers| :: answers[j].QuestionText != text
    ensures r.Some? ==> exists i | 0 <= i < |answers| ::
      answers[i] == UserAnswer(text, r.value) && forall j | 0 <= j < i :: answers[j].QuestionText != text
  {
    match FirstAnswerIndex(answers, text)
    case Null => Null
    case Some(i) => assert answers[i] == UserAnswer(text, answers[i].Answer); Some(answers[i].Answer)
  }

  /** No two records share a question text. */
  predicate UniqueTexts(answers: seq<UserAnswer>) {
    forall i, j | 0 <= i < j < |answers| :: answers[i].QuestionText != answers[j].QuestionText
  }

  /** Both the input and the text of the answered question were posted. */
  predicate Posted(userInput: Nullable<string>, questionText: Nullable<string>) {
    !IsNullOrEmpty(userInput) && !IsNullOrEmpty(questionText)
  }

  /**
   * Records `userInput` as the answer for `questionText`: the first record with
   * that text gets its answer replaced, or a new record is appended when none
   * has it. Nothing changes unless both were posted.
   */
  function Upsert(answers: seq<UserAnswer>, userInput: Nullable<string>, questionText: Nullable<string>)
    : (r: seq<UserAnswer>)
    ensures !Posted(userInput, questionText) ==> r == answers
    ensures (Posted(userInput, questionText) &&
             forall j | 0 <= j < |answers| :: answers[j].QuestionText != questionText.value) ==>
      r == answers + [UserAnswer(questionText.value, userInput.value)]
    ensures Posted(userInput, questionText) && FirstAnswerIndex(answers, questionText.value).Some? ==>
      var i := FirstAnswerIndex(answers, questionText.value).value;
      && |r| == |answers|
      && r[i] == UserAnswer(questionText.value, userInput.value)
      && forall j | 0 <= j < |answers| && j != i :: r[j] == answers[j]
  {
    if !Posted(userInput, questionText) then answers
    else
      match FirstAnswerIndex(answers, questionText.value)
      case Some(i) => answers[i := answers[i].(Answer := userInput.value)]
      case Null => answers + [UserAnswer(questionText.value, userInput.value)]
  }

  /** An upsert grows the history by at most one record, and by one exactly when the text was new. */
  lemma UpsertLength(answers: seq<UserAnswer>, userInput: Nullable<string>, questionText: Nullable<string>)
    ensures var r := Upsert(answers, userInput, questionText);
      && |answers| <= |r| <= |answers| + 1
      && (|r| == |answers| + 1 <==>
            Posted(userInput, questionText) &&
            forall j | 0 <= j < |answers| :: answers[j].QuestionText != questionText.value)
  {
  }

  /** Keys stay unique, the posted text maps to the posted input, and every other text keeps its answer. */
  lemma UpsertKeepsUniqueTexts(answers: seq<UserAnswer>, userInput: Nullable<string>, questionText: Nullable<string>)
    requires UniqueTexts(answers)
    ensures var r := Upsert(answers, userInput, questionText);
      && UniqueTexts(r)
      && (Posted(userInput, questionText) ==> ExistingAnswer(r, questionText.value) == Some(userInput.value))
  {
    var r := Upsert(answers, userInput, questionText);
    if Posted(userInput, questionText) {
      var t := questionText.value;
      match FirstAnswerIndex(answers, t)
      case Some(i) =>
        forall a, b | 0 <= a < b < |r| ensures r[a].QuestionText != r[b].QuestionText {
          assert r[a].QuestionText == answers[a].QuestionText;
          assert r[b].QuestionText == answers[b].QuestionText;
        }
        assert FirstAnswerIndex(r, t) == Some(i);
      case Null =>
        assert r[|answers|].QuestionText == t;
        assert FirstAnswerIndex(r, t) == Some(|answers|);
    }
  }

  /** Any text other than the posted one keeps the answer it had. */
  lemma UpsertOtherTexts(answers: seq<UserAnswer>, userInput: Nullable<string>, questionText: Nullable<string>, other: string)
    requires questionText != Some(other)
    ensures ExistingAnswer(Upsert(answers, userInput, questionText), other) == ExistingAnswer(answers, other)
  {
    var r := Upsert(answers, userInput, questionText);
    if Posted(userInput, questionText) {
      assert forall j | 0 <= j < |answers| :: r[j].QuestionText == answers[j].QuestionText;
      match FirstAnswerIndex(answers, other)
      case Null =>
        assert forall j | 0 <= j < |r| :: r[j].QuestionText != other;
      case Some(k) =>
        assert FirstAnswerIndex(r, other) == Some(k);
    }
  }

  /** Last write wins: a second upsert for the same text overrides the first completely. */
  lemma UpsertLastWriteWins(answers: seq<UserAnswer>, first: Nullable<string>, second: Nullable<string>, questionText: Nullable<string>)
    requires Posted(second, questionText)
    ensures Upsert(Upsert(answers, first, questionText), second, questionText) == Upsert(answers, second, questionText)
  {
    var t := questionText.value;
    var once := Upsert(answers, first, questionText);
    if Posted(first, questionText) {
      match FirstAnswerIndex(answers, t)
      case Some(i) =>
        assert FirstAnswerIndex(once, t) == Some(i);
      case Null =>
        assert once[|answers|].QuestionText == t;
        assert FirstAnswerIndex(once, t) == Some(|answers|);
    }
  }

  /** Posting the same answer twice leaves the history as posting it once. */
  lemma UpsertIdempotent(answers: seq<UserAnswer>, userInput: Nullable<string>, questionText: Nullable<string>)
    ensures Upsert(Upsert(answers, userInput, questionText), userInput, questionText) == Upsert(answers, userInput, questionText)
  {
    if Posted(userInput, questionText) {
      UpsertLastWriteWins(answers, userInput, userInput, questionText);
    }
  }

  /** With unique texts, the existing answer for a text is exactly the answer of its record. */
  lemma ExistingAnswerOfUnique(answers: seq<UserAnswer>, text: string, answer: string)
    requires UniqueTexts(answers)
    ensures ExistingAnswer(answers, text) == Some(answer) <==> UserAnswer(text, answer) in answers
  {
    if UserAnswer(text, answer) in answers {
      var k :| 0 <= k < |answers| && answers[k] == UserAnswer(text, answer);
      assert FirstAnswerIndex(answers, text) == Some(k);
    }
  }
}
