/**
 * Controllers/QuestionController.cs: the actions, each working step by step
 * on its own copies of the stored lists and proved to produce what the
 * matching Flow function describes.
 */
module Controllers {
  import opened Wrappers
  import opened Models
  import opened ViewModels
  import opened Services
  import opened Answers
  import opened VisitOrder
  import opened Flow

  class QuestionController {
    const questionService: QuestionService

    constructor (questionService: QuestionService)
      ensures this.questionService == questionService
    {
      this.questionService := questionService;
    }

    /** Starts the form at question 0. */
    method Index() returns (result: Outcome)
      ensures result == IndexResult(questionService.questions.Items)
      ensures result.IndexView? ==> SavedTempData(result) == Some(Store([], [0]))
    {
      var firstQuestion := questionService.GetQuestionById(0);
      if firstQuestion.Null? {
        return ErrorView;
      }
      var viewModel := NewQuestionViewModel().(CurrentQuestion := firstQuestion.value, QuestionOrder := [0]);
      return IndexView(viewModel);
    }

    /** Records the posted answer, then shows question `questionId`. */
    method DisplayQuestion(tempData: TempData, questionId: int,
                           userInput: Nullable<string>, questionText: Nullable<string>)
      returns (result: Outcome)
      ensures result == DisplayQuestionResult(questionService.questions.Items, tempData, questionId, userInput, questionText)
    {
      if !tempData.UserAnswers.Json? || !tempData.QuestionOrder.Json? {
        return RedirectToIndex;
      }
      // The lists deserialised for this request: nothing else refers to them, so
      // updating them in place (the record's Answer, Add) is reassigning these locals.
      var userAnswers := tempData.UserAnswers.Decoded();
      var questionOrder := tempData.QuestionOrder.Decoded();

      if !IsNullOrEmpty(userInput) && !IsNullOrEmpty(questionText) {
        var answer := UserAnswer(questionText.value, userInput.value);
        var firstOrDefault := FirstAnswerIndex(userAnswers, questionText.value);
        if firstOrDefault.Some? {
          var i := firstOrDefault.value;
          userAnswers := userAnswers[i := userAnswers[i].(Answer := userInput.value)];
        } else {
          userAnswers := userAnswers + [answer];
        }
      }

      var question := questionService.GetQuestionById(questionId);

      if questionId !in questionOrder {
        questionOrder := questionOrder + [questionId];
      }

      // A null question is dereferenced by FirstOrDefault's predicate when some
      // answer is recorded, and otherwise by the `Type` test after TempData is written.
      if question.Null? {
        return Unhandled;
      }
      var existingAnswer := ExistingAnswer(userAnswers, question.value.QuestionText);
      var viewModel := NewQuestionViewModel().(CurrentQuestion := question.value,
                                               UserAnswers := userAnswers,
                                               QuestionOrder := questionOrder,
                                               PreviousAnswer := existingAnswer);
      if question.value.Type == "end" {
        return EndView(viewModel);
      }
      return IndexView(viewModel);
    }

    /** Returns to the previously visited question. */
    method GoBack(tempData: TempData) returns (result: Outcome)
      ensures result == GoBackResult(questionService.questions.Items, tempData)
    {
      if !tempData.UserAnswers.Json? || !tempData.QuestionOrder.Json? {
        return RedirectToIndex;
      }
      // Freshly deserialised, as in DisplayQuestion: RemoveAt is a reassignment.
      var userAnswers := tempData.UserAnswers.Decoded();
      var questionOrder := tempData.QuestionOrder.Decoded();

      if |questionOrder| > 1 {
        questionOrder := questionOrder[..|questionOrder| - 1];
        var previousQuestionId := questionOrder[|questionOrder| - 1];
        var previousQuestion := questionService.GetQuestionById(previousQuestionId);
        if previousQuestion.Null? {
          // FirstOrDefault's predicate reads the null question's text for the first record.
          if |userAnswers| > 0 {
            return Unhandled;
          }
          return NullQuestionView(userAnswers, questionOrder);
        }
        var previousAnswer := ExistingAnswer(userAnswers, previousQuestion.value.QuestionText);
        var viewModel := NewQuestionViewModel().(CurrentQuestion := previousQuestion.value,
                                                 UserAnswers := userAnswers,
                                                 QuestionOrder := questionOrder,
                                                 PreviousAnswer := previousAnswer);
        return IndexView(viewModel);
      }
      return RedirectToIndex;
    }

    /** Clears all stored state and starts over. */
    method Restart(tempData: TempData) returns (result: Outcome, tempData': TempData)
      ensures (result, tempData') == RestartResult(tempData)
      ensures result == RedirectToIndex && !tempData'.UserAnswers.Json? && !tempData'.QuestionOrder.Json?
    {
      tempData' := Cleared;
      result := RedirectToIndex;
    }
  }
}
