/** The runtime form graph: the data classes of Models/Question.cs. */
module Models {
  import opened Wrappers

  /** A selectable answer; `Destination` is a plain, always present question id. */
  datatype Option = Option(Text: string, Destination: int)

  /** A node of the form graph. */
  datatype Question = Question(
    Id: int,
    QuestionText: string,
    Type: string,
    Options: seq<Option>,
    HelpText: Nullable<string>,
    Required: bool)

  /** The document a form file deserialises to; JSON may set `questions` to null. */
  datatype QuestionData = QuestionData(Questions: Nullable<seq<Question>>)

  /** The type tag of a terminal question. */
  const EndType := "end"

  predicate IsEnd(q: Question) {
    q.Type == EndType
  }

  /** `new Option()`: empty text, destination 0. */
  function NewOption(): (o: Option)
    ensures o.Text == "" && o.Destination == 0
  {
    Option("", 0)
  }

  /** `new Question()`: empty text and type, an empty (non-null) option list, no help text, not required. */
  function NewQuestion(): (q: Question)
    ensures q.Id == 0 && q.QuestionText == "" && q.Type == ""
    ensures q.Options == [] && q.HelpText == Null && !q.Required
    ensures !IsEnd(q)
  {
    Question(0, "", "", [], Null, false)
  }

  /** `new QuestionData()`: an empty, non-null question list. */
  function NewQuestionData(): (d: QuestionData)
    ensures d.Questions == Some([])
  {
    QuestionData(Some([]))
  }
}
