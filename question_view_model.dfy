/** What the flow engine hands to its views: Models/QuestionViewModel.cs, and the answer record it keeps. */
module ViewModels {
  import opened Wrappers
  import opened Models

  /** One recorded answer, keyed by the literal text of the question it answers. */
  datatype UserAnswer = UserAnswer(QuestionText: string, Answer: string)

  datatype QuestionViewModel = QuestionViewModel(
    CurrentQuestion: Question,
    UserAnswers: seq<UserAnswer>,
    UserInput: Nullable<string>,
    QuestionOrder: seq<int>,
    PreviousAnswer: Nullable<string>)

  /** `new QuestionViewModel()`: a fresh default question (never null), no answers, no order, no input. */
  function NewQuestionViewModel(): (vm: QuestionViewModel)
    ensures vm.CurrentQuestion == NewQuestion()
    ensures vm.UserAnswers == [] && vm.QuestionOrder == []
    ensures vm.UserInput == Null && vm.PreviousAnswer == Null
  {
    QuestionViewModel(NewQuestion(), [], Null, [], Null)
  }
}
