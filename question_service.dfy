/** The process-wide question store of Services/QuestionService.cs. */
module Services {
  import opened Wrappers
  import opened Models

  /**
   * `questions.FirstOrDefault(q => q.Id == id)`: the first question in list
   * order with that id, or null when none has it.
   */
  function FindQuestion(questions: seq<Question>, id: int): (r: Nullable<Question>)
    ensures r.Null? <==> forall i | 0 <= i < |questions| :: questions[i].Id != id
    ensures r.Some? ==> r.value.Id == id && r.value in questions
    ensures r.Some? ==> exists i | 0 <= i < |questions| ::
      questions[i] == r.value && forall j | 0 <= j < i :: questions[j].Id != id
  {
    if questions == [] then Null
    else if questions[0].Id == id then Some(questions[0])
    else
      var r := FindQuestion(questions[1..], id);
      assert r.Some? ==> exists i | 0 <= i < |questions[1..]| ::
        questions[1..][i] == r.value && forall j | 0 <= j < i :: questions[1..][j].Id != id;
      assert r.Some? ==> exists i | 1 <= i < |questions| ::
        questions[i] == r.value && forall j | 0 <= j < i :: questions[j].Id != id;
      r
  }

  /**
   * What reading and deserialising a form file gives, with the file system and
   * the JSON library abstracted away: the file is absent, reading or
   * deserialising it throws, or it deserialises (possibly to null).
   */
  datatype LoadInput = FileMissing | Unreadable | Parsed(data: Nullable<QuestionData>)

  /** `questionData?.Questions ?? new List<Question>()` */
  function ParsedQuestions(data: Nullable<QuestionData>): (qs: seq<Question>)
    ensures data.Null? ==> qs == []
    ensures data.Some? && data.value.Questions.Null? ==> qs == []
    ensures data.Some? && data.value.Questions.Some? ==> qs == data.value.Questions.value
  {
    match data
    case Null => []
    case Some(d) => d.Questions.GetOr([])
  }

  /** A mutable `List<Question>`. */
  class QuestionList {
    var Items: seq<Question>

    constructor (items: seq<Question>)
      ensures Items == items
    {
      Items := items;
    }

    method Clear()
      modifies this
      ensures Items == []
    {
      Items := [];
    }

    method AddRange(qs: seq<Question>)
      modifies this
      ensures Items == old(Items) + qs
    {
      Items := Items + qs;
    }
  }

  class QuestionService {
    /** `_questions`: a readonly reference to the one list every request reads. */
    const questions: QuestionList

    /** Loads the default form, reportItFormFlow.json; `defaultFile` stands for its contents. */
    constructor (defaultFile: LoadInput)
      ensures fresh(questions)
      ensures !defaultFile.Parsed? ==> questions.Items == []
      ensures defaultFile.Parsed? ==> questions.Items == ParsedQuestions(defaultFile.data)
    {
      var loaded := LoadQuestions(defaultFile);
      questions := loaded;
    }

    /** The first question with that id, or null exactly when there is none. */
    function GetQuestionById(id: int): (r: Nullable<Question>)
      reads questions
      ensures r.Null? <==> forall i | 0 <= i < |questions.Items| :: questions.Items[i].Id != id
      ensures r.Some? ==> r.value.Id == id && exists i | 0 <= i < |questions.Items| ::
        questions.Items[i] == r.value && forall j | 0 <= j < i :: questions.Items[j].Id != id
    {
      FindQuestion(questions.Items, id)
    }

    /** The stored list itself, not a copy of it. */
    function GetAllQuestions(): (r: QuestionList)
      ensures r == questions
    {
      questions
    }

    /**
     * Replaces the list's contents with the questions of the file `fileName`
     * (under the data directory), whose contents `file` stands for. The list
     * is cleared only after deserialising succeeded, so a missing file or one
     * that throws leaves it as it was.
     */
    method LoadFormFromFile(fileName: string, file: LoadInput)
      modifies questions
      ensures file.Parsed? ==> questions.Items == ParsedQuestions(file.data)
      ensures file == Parsed(Null) ==> questions.Items == []
      ensures !file.Parsed? ==> questions.Items == old(questions.Items)
    {
      match file
      case FileMissing =>
      case Unreadable =>
      case Parsed(data) =>
        questions.Clear();
        questions.AddRange(ParsedQuestions(data));
    }

    /** Reads the default form; a missing file or one that throws yields an empty list. */
    static method LoadQuestions(file: LoadInput) returns (list: QuestionList)
      ensures fresh(list)
      ensures !file.Parsed? ==> list.Items == []
      ensures file.Parsed? ==> list.Items == ParsedQuestions(file.data)
    {
      match file
      case FileMissing =>
        list := new QuestionList([]);
      case Unreadable =>
        list := new QuestionList([]);
      case Parsed(data) =>
        list := new QuestionList(ParsedQuestions(data));
    }
  }

  /**
   * `GetAllQuestions` hands out the store's own list: a caller that obtained
   * it before a reload sees the reloaded questions through it.
   */
  method ReloadSeenThroughGetAllQuestions(service: QuestionService, fileName: string, file: LoadInput)
    returns (all: QuestionList)
    modifies service.questions
    ensures all == service.questions
    ensures file.Parsed? ==> all.Items == ParsedQuestions(file.data)
    ensures !file.Parsed? ==> all.Items == old(service.questions.Items)
  {
    all := service.GetAllQuestions();
    service.LoadFormFromFile(fileName, file);
  }
}
