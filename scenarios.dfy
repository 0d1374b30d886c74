/** Worked runs of the flow on a three-question linear form. */
module Scenarios {
  import opened Wrappers
  import opened Models
  import opened ViewModels
  import opened Flow

  const Name := Question(0, "Name?", "text", [Option("", 1)], Null, true)
  const Age := Question(1, "Age?", "text", [Option("", 2)], Null, true)
  const Done := Question(2, "Done", "end", [], Null, false)
  const Form := [Name, Age, Done]

  /** Question lookups on the form. */
  lemma FormLookups()
    ensures Services.FindQuestion(Form, 0) == Some(Name)
    ensures Services.FindQuestion(Form, 1) == Some(Age)
    ensures Services.FindQuestion(Form, 2) == Some(Done)
    ensures Services.FindQuestion(Form, 99) == Null
  {
    assert Form[1..] == [Age, Done];
    assert Form[1..][1..] == [Done];
    assert Services.FindQuestion(Form[1..][1..], 2) == Some(Done);
    assert Services.FindQuestion(Form[1..], 2) == Some(Done);
  }

  /** Starting shows "Name?" with the order [0] and no answers. */
  lemma StartRun()
    ensures var start := IndexResult(Form);
      && start.IndexView? && start.model.CurrentQuestion == Name
      && SavedTempData(start) == Some(Store([], [0]))
  {
    FormLookups();
  }

  /** Answering "Alice" and advancing to 1 records the answer and extends the order to [0, 1]. */
  lemma FirstAdvance()
    ensures var first := DisplayQuestionResult(Form, Store([], [0]), 1, Some("Alice"), Some("Name?"));
      && first.IndexView?
      && first.model.QuestionOrder == [0, 1]
      && first.model.UserAnswers == [UserAnswer("Name?", "Alice")]
      && first.model.CurrentQuestion == Age && first.model.PreviousAnswer == Null
  {
    FormLookups();
    var answers := [UserAnswer("Name?", "Alice")];
    assert Answers.Upsert([], Some("Alice"), Some("Name?")) == answers;
    assert VisitOrder.AppendOnce([0], 1) == [0, 1];
    assert Answers.ExistingAnswer(answers, "Age?") == Null;
    assert DisplayQuestionResult(Form, Store([], [0]), 1, Some("Alice"), Some("Name?"))
        == IndexView(ViewModelFor(Age, answers, [0, 1]));
  }

  /** Answering "30" and advancing to 2 ends the run on the terminal question with the order [0, 1, 2]. */
  lemma SecondAdvance()
    ensures var second := DisplayQuestionResult(Form, Store([UserAnswer("Name?", "Alice")], [0, 1]), 2, Some("30"), Some("Age?"));
      && second.EndView?
      && second.model.QuestionOrder == [0, 1, 2]
      && second.model.UserAnswers == [UserAnswer("Name?", "Alice"), UserAnswer("Age?", "30")]
      && second.model.CurrentQuestion == Done
  {
    FormLookups();
    var answers := [UserAnswer("Name?", "Alice"), UserAnswer("Age?", "30")];
    assert Answers.FirstAnswerIndex([UserAnswer("Name?", "Alice")], "Age?") == Null;
    assert Answers.Upsert([UserAnswer("Name?", "Alice")], Some("30"), Some("Age?")) == answers;
    assert VisitOrder.AppendOnce([0, 1], 2) == [0, 1, 2];
    assert DisplayQuestionResult(Form, Store([UserAnswer("Name?", "Alice")], [0, 1]), 2, Some("30"), Some("Age?"))
        == EndView(ViewModelFor(Done, answers, [0, 1, 2]));
  }

  /** Going back from the terminal question shows question 1 again, pre-filled with its recorded answer. */
  lemma BackFromEnd()
    ensures var answers := [UserAnswer("Name?", "Alice"), UserAnswer("Age?", "30")];
      var back := GoBackResult(Form, Store(answers, [0, 1, 2]));
      && back.IndexView?
      && back.model.QuestionOrder == [0, 1]
      && back.model.CurrentQuestion == Age
      && back.model.PreviousAnswer == Some("30")
      && back.model.UserAnswers == answers
  {
    var answers := [UserAnswer("Name?", "Alice"), UserAnswer("Age?", "30")];
    FormLookups();
    assert Services.FindQuestion(Form, 1) == Some(Age);
    assert [0, 1, 2][..2] == [0, 1];
    assert VisitOrder.DropLast([0, 1, 2]) == [0, 1];
    assert Answers.FirstAnswerIndex(answers, "Age?") == Some(1);
    assert Answers.ExistingAnswer(answers, "Age?") == Some("30");
    assert GoBackResult(Form, Store(answers, [0, 1, 2])) == IndexView(ViewModelFor(Age, answers, [0, 1]));
  }

  /** Advancing to an id the form does not have fails, even though the answer was recorded first. */
  lemma UnknownQuestion()
    ensures DisplayQuestionResult(Form, Store([], [0]), 99, Some("x"), Some("Unknown?")) == Unhandled
  {
    FormLookups();
  }

  /**
   * Going back to an id the form does not have fails once an answer is
   * recorded, but with no answers renders a null question and stores the
   * shortened order.
   */
  lemma BackToUnknownQuestion()
    ensures GoBackResult(Form, Store([], [99, 1])) == NullQuestionView([], [99])
    ensures SavedTempData(GoBackResult(Form, Store([], [99, 1]))) == Some(Store([], [99]))
    ensures GoBackResult(Form, Store([UserAnswer("Name?", "Alice")], [99, 1])) == Unhandled
  {
    FormLookups();
    assert VisitOrder.DropLast([99, 1]) == [99];
  }
}
