/**
 * The form-taking flow of Controllers/QuestionController.cs as functions of
 * the question graph and of the history the previous request stored: one
 * function per action, and the properties the flow keeps.
 */
module Flow {
  import opened Wrappers
  import opened Models
  import opened ViewModels
  import opened Services
  import opened Answers
  import opened VisitOrder

  /**
   * One TempData slot holding a serialised list, as the controller reads it:
   * absent (not a string), or deserialised, possibly to null.
   */
  datatype Stored<T> = Missing | Json(parsed: Nullable<seq<T>>) {
    /** `JsonConvert.DeserializeObject<List<T>>(json) ?? new List<T>()` */
    function Decoded(): (s: seq<T>)
      requires Json?
      ensures parsed.Null? ==> s == []
      ensures parsed.Some? ==> s == parsed.value
    {
      match parsed
      case Some(s) => s
      case Null => []
    }
  }

  /** The two TempData entries the flow keeps between requests. */
  datatype TempData = TempData(UserAnswers: Stored<UserAnswer>, QuestionOrder: Stored<int>) {
    predicate HasHistory() {
      UserAnswers.Json? && QuestionOrder.Json?
    }
  }

  /** What an action stores: both lists, serialised. */
  function Store(answers: seq<UserAnswer>, order: seq<int>): (td: TempData)
    ensures td.HasHistory()
    ensures td.UserAnswers.Decoded() == answers && td.QuestionOrder.Decoded() == order
  {
    TempData(Json(Some(answers)), Json(Some(order)))
  }

  /** `TempData.Clear()` */
  const Cleared := TempData(Missing, Missing)

  /** The result of an action. */
  datatype Outcome =
    | ErrorView                        // View("Error")
    | RedirectToIndex                  // RedirectToAction("Index")
    | IndexView(model: QuestionViewModel)
    | EndView(model: QuestionViewModel)
    | NullQuestionView(answers: seq<UserAnswer>, order: seq<int>)
                                       // View("Index") whose model's CurrentQuestion is null
    | Unhandled                        // a null question is dereferenced
  {
    predicate IsView() {
      IndexView? || EndView?
    }
  }

  /**
   * What a view outcome leaves in TempData for the next request: the lists
   * its view model carries (every action that renders a view stores exactly those).
   */
  function SavedTempData(o: Outcome): (td: Nullable<TempData>)
    ensures td.Some? <==> o.IsView() || o.NullQuestionView?
    ensures o.IsView() ==> td == Some(Store(o.model.UserAnswers, o.model.QuestionOrder))
    ensures o.NullQuestionView? ==> td == Some(Store(o.answers, o.order))
  {
    match o
    case IndexView(vm) => Some(Store(vm.UserAnswers, vm.QuestionOrder))
    case EndView(vm) => Some(Store(vm.UserAnswers, vm.QuestionOrder))
    case NullQuestionView(answers, order) => Some(Store(answers, order))
    case _ => Null
  }

  /** The view model the flow renders for `q`. */
  function ViewModelFor(q: Question, answers: seq<UserAnswer>, order: seq<int>): (vm: QuestionViewModel)
    ensures vm.CurrentQuestion == q && vm.UserAnswers == answers && vm.QuestionOrder == order
    ensures vm.UserInput == Null
    ensures vm.PreviousAnswer == ExistingAnswer(answers, q.QuestionText)
  {
    NewQuestionViewModel().(CurrentQuestion := q,
                            UserAnswers := answers,
                            QuestionOrder := order,
                            PreviousAnswer := ExistingAnswer(answers, q.QuestionText))
  }

  /** `Index`: start at question 0 with an empty history, or show the error view. */
  function IndexResult(graph: seq<Question>): (o: Outcome)
    ensures o.ErrorView? <==> forall i | 0 <= i < |graph| :: graph[i].Id != 0
    ensures !o.ErrorView? ==> o.IndexView?
    ensures o.IndexView? ==>
      && o.model.CurrentQuestion == FindQuestion(graph, 0).value
      && o.model.CurrentQuestion in graph && o.model.CurrentQuestion.Id == 0
      && o.model.QuestionOrder == [0] && o.model.UserAnswers == []
      && o.model.PreviousAnswer == Null && o.model.UserInput == Null
  {
    match FindQuestion(graph, 0)
    case Null => ErrorView
    case Some(q) => IndexView(NewQuestionViewModel().(CurrentQuestion := q, QuestionOrder := [0]))
  }

  /**
   * `DisplayQuestion`: record the posted answer, append the shown id once,
   * then render the question (the End view for a terminal one).
   */
  function DisplayQuestionResult(graph: seq<Question>, tempData: TempData, questionId: int,
                                 userInput: Nullable<string>, questionText: Nullable<string>): (o: Outcome)
    ensures o.RedirectToIndex? <==> !tempData.HasHistory()
    ensures o.Unhandled? <==> tempData.HasHistory() && forall i | 0 <= i < |graph| :: graph[i].Id != questionId
    ensures !o.ErrorView? && !o.NullQuestionView?
  {
    if !tempData.HasHistory() then RedirectToIndex
    else
      var userAnswers := Upsert(tempData.UserAnswers.Decoded(), userInput, questionText);
      var questionOrder := AppendOnce(tempData.QuestionOrder.Decoded(), questionId);
      match FindQuestion(graph, questionId)
      case Null => Unhandled
      case Some(q) =>
        var vm := ViewModelFor(q, userAnswers, questionOrder);
        if IsEnd(q) then EndView(vm) else IndexView(vm)
  }

  /**
   * `GoBack`: drop the last visited id and show the one before it, or restart
   * at the first question. A previous id with no question is dereferenced only
   * when some answer is recorded; with none, the Index view gets a null question.
   */
  function GoBackResult(graph: seq<Question>, tempData: TempData): (o: Outcome)
    ensures o.RedirectToIndex? <==> !tempData.HasHistory() || |tempData.QuestionOrder.Decoded()| <= 1
    ensures o.Unhandled? <==> (
      && tempData.HasHistory()
      && var order := tempData.QuestionOrder.Decoded();
        && |order| > 1 && (forall i | 0 <= i < |graph| :: graph[i].Id != order[|order| - 2])
        && tempData.UserAnswers.Decoded() != [])
    ensures o.NullQuestionView? <==> (
      && tempData.HasHistory()
      && var order := tempData.QuestionOrder.Decoded();
        && |order| > 1 && (forall i | 0 <= i < |graph| :: graph[i].Id != order[|order| - 2])
        && tempData.UserAnswers.Decoded() == [])
    ensures o.NullQuestionView? ==> (
      && tempData.HasHistory()
      && var order := tempData.QuestionOrder.Decoded();
        && |order| > 1
        && o.answers == [] && o.order == order[..|order| - 1])
    ensures !o.ErrorView? && !o.EndView?
  {
    if !tempData.HasHistory() then RedirectToIndex
    else
      var userAnswers := tempData.UserAnswers.Decoded();
      var questionOrder := tempData.QuestionOrder.Decoded();
      if |questionOrder| > 1 then
        var order := DropLast(questionOrder);
        match FindQuestion(graph, order[|order| - 1])
        case Null => if userAnswers == [] then NullQuestionView(userAnswers, order) else Unhandled
        case Some(q) => IndexView(ViewModelFor(q, userAnswers, order))
      else RedirectToIndex
  }

  /** `Restart`: clear TempData and go back to the start. */
  function RestartResult(tempData: TempData): (r: (Outcome, TempData))
    ensures r.0 == RedirectToIndex
    ensures !r.1.UserAnswers.Json? && !r.1.QuestionOrder.Json?
  {
    (RedirectToIndex, Cleared)
  }

  // ---------------------------------------------------------------------
  // DisplayQuestion

  /** Without both stored lists, DisplayQuestion and GoBack redirect to the start and apply nothing. */
  lemma MissingHistoryRedirects(graph: seq<Question>, tempData: TempData, questionId: int,
                                userInput: Nullable<string>, questionText: Nullable<string>)
    requires !tempData.UserAnswers.Json? || !tempData.QuestionOrder.Json?
    ensures DisplayQuestionResult(graph, tempData, questionId, userInput, questionText) == RedirectToIndex
    ensures GoBackResult(graph, tempData) == RedirectToIndex
  {
  }

  /** An id that is not in the graph makes DisplayQuestion fail once it dereferences the missing question. */
  lemma DisplayUnknownQuestionFails(graph: seq<Question>, tempData: TempData, questionId: int,
                                    userInput: Nullable<string>, questionText: Nullable<string>)
    requires tempData.HasHistory()
    requires forall i | 0 <= i < |graph| :: graph[i].Id != questionId
    ensures DisplayQuestionResult(graph, tempData, questionId, userInput, questionText) == Unhandled
  {
  }

  /**
   * Shown question, terminal detection and answers: a known id is rendered
   * with the End view exactly when its type is "end"; the recorded answers
   * are the stored ones with the posted answer upserted; the pre-filled
   * answer is the first record for the shown question's text.
   */
  lemma DisplayKnownQuestion(graph: seq<Question>, tempData: TempData, questionId: int,
                             userInput: Nullable<string>, questionText: Nullable<string>)
    requires tempData.HasHistory()
    requires exists i | 0 <= i < |graph| :: graph[i].Id == questionId
    ensures var o := DisplayQuestionResult(graph, tempData, questionId, userInput, questionText);
      && o.IsView()
      && o.model.CurrentQuestion == FindQuestion(graph, questionId).value
      && o.model.CurrentQuestion.Id == questionId && o.model.CurrentQuestion in graph
      && (o.EndView? <==> o.model.CurrentQuestion.Type == "end")
      && o.model.UserAnswers == Upsert(tempData.UserAnswers.Decoded(), userInput, questionText)
      && o.model.PreviousAnswer == ExistingAnswer(o.model.UserAnswers, o.model.CurrentQuestion.QuestionText)
      && o.model.UserInput == Null
  {
  }

  /**
   * The order a view of DisplayQuestion stores is the previous order with
   * `questionId` appended exactly when it was not yet present.
   */
  lemma DisplayQuestionOrder(graph: seq<Question>, tempData: TempData, questionId: int,
                             userInput: Nullable<string>, questionText: Nullable<string>)
    requires tempData.HasHistory()
    ensures var o := DisplayQuestionResult(graph, tempData, questionId, userInput, questionText);
      var order := tempData.QuestionOrder.Decoded();
      o.IsView() ==>
        && (questionId !in order ==> o.model.QuestionOrder == order + [questionId])
        && (questionId in order ==> o.model.QuestionOrder == order)
        && (NoDuplicates(order) ==> NoDuplicates(o.model.QuestionOrder))
  {
  }

  /**
   * The End and Index views of DisplayQuestion carry the same state: the only
   * difference a terminal question makes is the view.
   */
  lemma TerminalChangesOnlyTheView(graph: seq<Question>, tempData: TempData, questionId: int,
                                   userInput: Nullable<string>, questionText: Nullable<string>, q: Question)
    requires tempData.HasHistory()
    requires FindQuestion(graph, questionId) == Some(q)
    ensures var other := q.(Type := if IsEnd(q) then "" else EndType);
      var o := DisplayQuestionResult(graph, tempData, questionId, userInput, questionText);
      var o' := DisplayQuestionResult(ReplaceQuestion(graph, q, other), tempData, questionId, userInput, questionText);
      && o.IsView() && o'.IsView() && o.EndView? != o'.EndView?
      && o'.model == o.model.(CurrentQuestion := other)
  {
    var other := q.(Type := if IsEnd(q) then "" else EndType);
    ReplaceQuestionFinds(graph, q, other, questionId);
  }

  /** `graph` with every occurrence of `q` replaced by `other`. */
  function ReplaceQuestion(graph: seq<Question>, q: Question, other: Question): (r: seq<Question>)
    ensures |r| == |graph|
    ensures forall i | 0 <= i < |graph| :: r[i] == (if graph[i] == q then other else graph[i])
  {
    if graph == [] then []
    else [if graph[0] == q then other else graph[0]] + ReplaceQuestion(graph[1..], q, other)
  }

  /** Replacing the found question by one with the same id makes the lookup find the replacement. */
  lemma {:induction false} ReplaceQuestionFinds(graph: seq<Question>, q: Question, other: Question, id: int)
    requires FindQuestion(graph, id) == Some(q) && other.Id == q.Id
    ensures FindQuestion(ReplaceQuestion(graph, q, other), id) == Some(other)
  {
    if graph[0].Id != id {
      assert graph[0] != q;
      ReplaceQuestionFinds(graph[1..], q, other, id);
      assert ReplaceQuestion(graph, q, other)[1..] == ReplaceQuestion(graph[1..], q, other);
    }
  }

  // ---------------------------------------------------------------------
  // GoBack

  /**
   * With more than one visited id, GoBack removes exactly the last one and
   * shows the first question of the new last id, keeping every answer. When
   * that id has no question, GoBack fails if an answer is recorded, and
   * otherwise renders a null question and stores the shortened order.
   */
  lemma GoBackPops(graph: seq<Question>, tempData: TempData)
    requires tempData.HasHistory() && |tempData.QuestionOrder.Decoded()| > 1
    ensures var order := tempData.QuestionOrder.Decoded();
      var answers := tempData.UserAnswers.Decoded();
      var o := GoBackResult(graph, tempData);
      var missing := forall i | 0 <= i < |graph| :: graph[i].Id != order[|order| - 2];
      && (o.Unhandled? <==> missing && answers != [])
      && (o.NullQuestionView? <==> missing && answers == [])
      && (o.NullQuestionView? ==> SavedTempData(o) == Some(Store([], order[..|order| - 1])))
      && (!missing ==>
            && o.IndexView?
            && o.model.QuestionOrder + [order[|order| - 1]] == order
            && o.model.CurrentQuestion == FindQuestion(graph, order[|order| - 2]).value
            && o.model.CurrentQuestion.Id == o.model.QuestionOrder[|o.model.QuestionOrder| - 1]
            && o.model.CurrentQuestion in graph
            && o.model.UserAnswers == tempData.UserAnswers.Decoded()
            && o.model.PreviousAnswer == ExistingAnswer(o.model.UserAnswers, o.model.CurrentQuestion.QuestionText))
  {
  }

  /** At the first question (or with an empty order) GoBack restarts, and that start discards every answer. */
  lemma GoBackAtStart(graph: seq<Question>, tempData: TempData)
    requires tempData.HasHistory() && |tempData.QuestionOrder.Decoded()| <= 1
    ensures GoBackResult(graph, tempData) == RedirectToIndex
    ensures var start := IndexResult(graph);
      start.IndexView? ==> SavedTempData(start) == Some(Store([], [0]))
  {
  }

  /**
   * Back/forward symmetry: when DisplayQuestion appended a new id, a GoBack on
   * what it stored restores the order from before the advance, keeps the
   * answers, and pre-fills the restored question's recorded answer.
   */
  lemma BackAfterAdvance(graph: seq<Question>, tempData: TempData, questionId: int,
                         userInput: Nullable<string>, questionText: Nullable<string>)
    requires tempData.HasHistory()
    requires var order := tempData.QuestionOrder.Decoded(); order != [] && questionId !in order
    requires FindQuestion(graph, questionId).Some?
    requires FindQuestion(graph, tempData.QuestionOrder.Decoded()[|tempData.QuestionOrder.Decoded()| - 1]).Some?
    ensures var advanced := DisplayQuestionResult(graph, tempData, questionId, userInput, questionText);
      var back := GoBackResult(graph, SavedTempData(advanced).value);
      && back.IndexView?
      && back.model.CurrentQuestion == FindQuestion(graph, tempData.QuestionOrder.Decoded()[|tempData.QuestionOrder.Decoded()| - 1]).value
      && back.model.QuestionOrder == tempData.QuestionOrder.Decoded()
      && back.model.UserAnswers == advanced.model.UserAnswers
      && back.model.PreviousAnswer == ExistingAnswer(advanced.model.UserAnswers, back.model.CurrentQuestion.QuestionText)
  {
    var order := tempData.QuestionOrder.Decoded();
    var answers := Upsert(tempData.UserAnswers.Decoded(), userInput, questionText);
    AdvanceStores(graph, tempData, questionId, userInput, questionText);
    BackAfterStore(graph, answers, order, questionId);
    var advanced := DisplayQuestionResult(graph, tempData, questionId, userInput, questionText);
    var previous := FindQuestion(graph, order[|order| - 1]).value;
    var vm := ViewModelFor(previous, answers, order);
    assert GoBackResult(graph, SavedTempData(advanced).value) == IndexView(vm);
    assert vm.CurrentQuestion == previous;
  }

  /** A DisplayQuestion view for a new id stores the upserted answers and the order with the id appended. */
  lemma AdvanceStores(graph: seq<Question>, tempData: TempData, questionId: int,
                      userInput: Nullable<string>, questionText: Nullable<string>)
    requires tempData.HasHistory() && questionId !in tempData.QuestionOrder.Decoded()
    requires DisplayQuestionResult(graph, tempData, questionId, userInput, questionText).IsView()
    ensures var advanced := DisplayQuestionResult(graph, tempData, questionId, userInput, questionText);
      var answers := Upsert(tempData.UserAnswers.Decoded(), userInput, questionText);
      && advanced.model.UserAnswers == answers
      && SavedTempData(advanced) == Some(Store(answers, tempData.QuestionOrder.Decoded() + [questionId]))
  {
    var order := tempData.QuestionOrder.Decoded();
    var answers := Upsert(tempData.UserAnswers.Decoded(), userInput, questionText);
    var shown := FindQuestion(graph, questionId);
    assert shown.Some?;
    assert AppendOnce(order, questionId) == order + [questionId];
    assert DisplayQuestionResult(graph, tempData, questionId, userInput, questionText).model
        == ViewModelFor(shown.value, answers, order + [questionId]);
  }

  /** GoBack on a stored order that ends in a new id shows the question of the id before it. */
  lemma BackAfterStore(graph: seq<Question>, answers: seq<UserAnswer>, order: seq<int>, questionId: int)
    requires order != [] && questionId !in order
    requires exists i | 0 <= i < |graph| :: graph[i].Id == order[|order| - 1]
    ensures GoBackResult(graph, Store(answers, order + [questionId]))
         == IndexView(ViewModelFor(FindQuestion(graph, order[|order| - 1]).value, answers, order))
  {
    var stored := Store(answers, order + [questionId]);
    assert stored.UserAnswers.Decoded() == answers;
    assert stored.QuestionOrder.Decoded() == order + [questionId];
    DropLastUndoesAppendOnce(order, questionId);
    assert DropLast(order + [questionId]) == order;
    var previous := FindQuestion(graph, order[|order| - 1]);
    assert previous.Some?;
  }

  // ---------------------------------------------------------------------
  // Restart

  /** After a restart no stored history is left: DisplayQuestion and GoBack both restart, and Index starts afresh. */
  lemma RestartClearsEverything(graph: seq<Question>, tempData: TempData, questionId: int,
                                userInput: Nullable<string>, questionText: Nullable<string>)
    ensures var (o, td) := RestartResult(tempData);
      && o == RedirectToIndex
      && DisplayQuestionResult(graph, td, questionId, userInput, questionText) == RedirectToIndex
      && GoBackResult(graph, td) == RedirectToIndex
  {
  }

  // ---------------------------------------------------------------------
  // The history invariant over whole sessions

  /** Whatever history is stored has no repeated id and no repeated question text. */
  predicate WellFormed(td: TempData) {
    && (td.QuestionOrder.Json? ==> NoDuplicates(td.QuestionOrder.Decoded()))
    && (td.UserAnswers.Json? ==> UniqueTexts(td.UserAnswers.Decoded()))
  }

  /** One request a browser can send. */
  datatype Request =
    | Start
    | Display(questionId: int, userInput: Nullable<string>, questionText: Nullable<string>)
    | Back
    | Reset

  /**
   * One request of a session: the graph the store holds while it is served,
   * the graph it holds while the Index request a redirect leads to is served
   * (a request of its own, so a reload may come in between), and the request.
   */
  datatype Turn = Turn(graph: seq<Question>, startGraph: seq<Question>, request: Request)

  /**
   * The TempData the next request finds after `turn`, following a redirect
   * to the start. An error view leaves TempData as the action left it; null
   * when the request dereferenced a missing question.
   */
  function Serve(turn: Turn, tempData: TempData): (r: Nullable<TempData>)
    ensures r.Null? ==> (turn.request.Display? || turn.request.Back?) && tempData.HasHistory()
    ensures turn.request.Start? ==>
      r == if IndexResult(turn.graph).IndexView? then Some(Store([], [0])) else Some(tempData)
    ensures turn.request.Reset? ==>
      r == if IndexResult(turn.startGraph).IndexView? then Some(Store([], [0])) else Some(Cleared)
  {
    var (o, left) := match turn.request
      case Start => (IndexResult(turn.graph), tempData)
      case Display(id, input, text) => (DisplayQuestionResult(turn.graph, tempData, id, input, text), tempData)
      case Back => (GoBackResult(turn.graph, tempData), tempData)
      case Reset => RestartResult(tempData);
    var shown := if o == RedirectToIndex then IndexResult(turn.startGraph) else o;
    if shown == ErrorView then Some(left) else SavedTempData(shown)
  }

  /**
   * Serves the turns in order; null once a request dereferences a missing
   * question. Sessions of starts and restarts alone never end that way.
   */
  function Session(tempData: TempData, turns: seq<Turn>): (r: Nullable<TempData>)
    ensures (forall k | 0 <= k < |turns| :: turns[k].request.Start? || turns[k].request.Reset?) ==> r.Some?
    ensures turns == [] ==> r == Some(tempData)
    decreases |turns|
  {
    if turns == [] then Some(tempData)
    else
      assert forall k | 0 <= k < |turns[1..]| :: turns[1..][k] == turns[k + 1];
      match Serve(turns[0], tempData)
      case Null => Null
      case Some(next) => Session(next, turns[1..])
  }

  /** The history a view stores is well formed when its view model's lists are. */
  predicate KeepsHistory(o: Outcome) {
    && (o.IsView() ==> NoDuplicates(o.model.QuestionOrder) && UniqueTexts(o.model.UserAnswers))
    && (o.NullQuestionView? ==> NoDuplicates(o.order) && UniqueTexts(o.answers))
  }

  /** DisplayQuestion keeps the order free of repeats and the answers free of repeated texts. */
  lemma DisplayKeepsWellFormed(graph: seq<Question>, tempData: TempData, questionId: int,
                               userInput: Nullable<string>, questionText: Nullable<string>)
    requires WellFormed(tempData)
    ensures KeepsHistory(DisplayQuestionResult(graph, tempData, questionId, userInput, questionText))
  {
    if tempData.HasHistory() {
      UpsertKeepsUniqueTexts(tempData.UserAnswers.Decoded(), userInput, questionText);
      AppendOnceKeepsNoDuplicates(tempData.QuestionOrder.Decoded(), questionId);
    }
  }

  /** GoBack keeps the order free of repeats and leaves the answers as they were. */
  lemma BackKeepsWellFormed(graph: seq<Question>, tempData: TempData)
    requires WellFormed(tempData)
    ensures KeepsHistory(GoBackResult(graph, tempData))
  {
    if tempData.HasHistory() && |tempData.QuestionOrder.Decoded()| > 1 {
      DropLastKeepsNoDuplicates(tempData.QuestionOrder.Decoded());
    }
  }

  /** Every request keeps the stored history well formed. */
  lemma ServeKeepsWellFormed(turn: Turn, tempData: TempData)
    requires WellFormed(tempData)
    ensures Serve(turn, tempData).Some? ==> WellFormed(Serve(turn, tempData).value)
  {
    var (o, left) := match turn.request
      case Start => (IndexResult(turn.graph), tempData)
      case Display(id, input, text) => (DisplayQuestionResult(turn.graph, tempData, id, input, text), tempData)
      case Back => (GoBackResult(turn.graph, tempData), tempData)
      case Reset => RestartResult(tempData);
    match turn.request {
      case Display(id, input, text) => DisplayKeepsWellFormed(turn.graph, tempData, id, input, text);
      case Back => BackKeepsWellFormed(turn.graph, tempData);
      case Start =>
      case Reset =>
    }
    assert WellFormed(left);
    assert KeepsHistory(o);
    assert KeepsHistory(IndexResult(turn.startGraph));
    var shown := if o == RedirectToIndex then IndexResult(turn.startGraph) else o;
    assert Serve(turn, tempData) == if shown == ErrorView then Some(left) else SavedTempData(shown);
  }

  /**
   * Over any session, however the graph is reloaded in between, the stored
   * order never holds an id twice and the answers never hold a text twice.
   */
  lemma {:induction false} SessionKeepsWellFormed(tempData: TempData, turns: seq<Turn>)
    requires WellFormed(tempData)
    ensures Session(tempData, turns).Some? ==> WellFormed(Session(tempData, turns).value)
    decreases |turns|
  {
    if turns != [] {
      ServeKeepsWellFormed(turns[0], tempData);
      match Serve(turns[0], tempData)
      case Null =>
      case Some(next) => SessionKeepsWellFormed(next, turns[1..]);
    }
  }
}
