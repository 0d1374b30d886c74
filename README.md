# FormFlow in Dafny

A model of the form-taking engine of CSharpFormPackage, an ASP.NET Core application.

- A form is a graph of questions loaded from a JSON file.
- A user walks through the form one question at a time.
- The controller keeps the text answers and the order of visited ids between requests.
- A companion form editor saves forms under a name derived from their title and lists the saved forms.

The model covers:

- the runtime data shapes and their defaults (`Models`, `ViewModels`);
- the process-wide question store, with its first-match lookup and its in-place reload (`Services`);
- the answer history with its upsert (`Answers`) and the visit order with append-once and pop (`VisitOrder`);
- the four controller actions, as functions over the question graph and the stored history, with the properties they keep across whole sessions (`Flow`);
- the same actions as imperative methods of a `QuestionController` class, each proved to produce what the matching `Flow` function describes (`Controllers`);
- worked runs on a three-question form (`Scenarios`);
- the editor's file naming, save validation, form listing and question count (`FormEditor`).

## Modelling decisions

- **C# null.** A value that may be null is a `Nullable<T>`. `string.IsNullOrEmpty` and `??` are written out over it.
- **Action results.** An action's result is an `Outcome`:
  - `ErrorView` for `View("Error")`;
  - `RedirectToIndex`;
  - `IndexView(model)` and `EndView(model)` for the two views;
  - `NullQuestionView(answers, order)` for `View("Index")` with a null current question, which only GoBack returns;
  - `Unhandled` for a null question that the controller dereferences.
  Nothing is claimed about the state after `Unhandled`.
- **TempData.** Each of the two TempData entries is a `Stored<T>`: either `Missing` (the entry is not a string) or `Json(parsed)`, where `parsed` may be null. A null list reads as the empty list, as `?? new List<T>()` does. A view outcome stores exactly the two lists of its view model (`SavedTempData`). The null-question view stores the two lists it holds. `TempData.Clear()` leaves both entries `Missing`.
- **The question graph.** Every action reads the graph that the store holds at that moment. A `Flow.Turn` gives each request its own graph, and a separate one to the `Index` request that a redirect leads to, so a reload may happen between any two requests.
- **Sessions.** `Flow.Serve` gives the TempData that the next request finds. An error view leaves TempData as the action left it, and later requests are still served. A request that dereferences a missing question ends the session.
- **File I/O.** Reading and deserialising a form file is abstracted to a `LoadInput`: `FileMissing`, `Unreadable` (reading or deserialising throws) or `Parsed(data)`. `data` may be null.
- **Saving and listing forms.** Saving is abstracted to an `IoResult`. The data directory is abstracted to a `Listing`: no directory, a list of file names, or an exception.
- **UserAnswer.** The file that declares `UserAnswer` is not part of this model. Its shape comes from its uses at `Controllers/QuestionController.cs:62-66`. Setting `Answer` on the found record is modelled as replacing that element of the list.
- **Paths.** Paths use `/` as the only directory separator.

Behaviour of the code that a reader might not expect, all of it modelled as the code has it:

- **Unknown question id.** `GetQuestionById` returns null for an id missing from the graph. `FirstOrDefault` evaluates its predicate, which reads the question's text, only on a record of the list.
  - DisplayQuestion dereferences the null question at `Controllers/QuestionController.cs:90` when some answer is recorded. With no answers it dereferences it at line 104, after storing both lists at lines 101-102. Either way the result is `Unhandled`.
  - GoBack dereferences the null question at line 135 only when some answer is recorded; then the result is `Unhandled`. With no answers nothing is dereferenced: it renders the Index view with a null question and stores the empty answers and the shortened order (lines 146-149). That is `NullQuestionView`.
- **Missing question 0.** `Index` shows the error view and stores nothing when the graph has no question 0 (`Controllers/QuestionController.cs:24-27`, `Flow.IndexResult`).
- **GoBack at the first question.** GoBack redirects to `Index` (`Controllers/QuestionController.cs:153`). `Index` stores an empty answer list, so every recorded answer is lost (`Flow.GoBackAtStart`).
- **Option destination.** The runtime `Option.Destination` is a plain `int` (`Models/Question.cs:18`). Only the editor's option has an `int?` destination (`Controllers/FormEditorController.cs:131`). Both shapes are modelled.

## Model

| member | source | states |
|---|---|---|
| Wrappers.IsNullOrEmpty | Controllers/QuestionController.cs:60 | `string.IsNullOrEmpty`: null or the empty string; Answers.Upsert and FormEditor.SaveForm state their no-op and rejection cases with it |
| Wrappers.Nullable.GetOr | Services/QuestionService.cs:59 | `x ?? fallback` is the value when there is one and the fallback exactly when it is null |
| Models.IsEnd | Controllers/QuestionController.cs:104 | a question is terminal exactly when its type is "end"; Flow.DisplayKnownQuestion ties the End view to it |
| Models.NewOption | Models/Question.cs:15-19 | a new option has empty text and destination 0 |
| Models.NewQuestion | Models/Question.cs:5-13 | a new question has empty text and type, an empty non-null option list, null help text, is not required, and is not terminal |
| Models.NewQuestionData | Models/Question.cs:21-24 | a new question document holds an empty, non-null question list |
| ViewModels.NewQuestionViewModel | Models/QuestionViewModel.cs:5-12 | a new view model holds a fresh default question (not null), no answers, an empty order, and null input and previous answer |
| Services.FindQuestion | Services/QuestionService.cs:34 | the result is null exactly when no question has the id; otherwise it has the id and is the first such question in list order |
| Services.ParsedQuestions | Services/QuestionService.cs:59 | a null document or a null question list gives the empty list; otherwise the document's questions, in order |
| Services.QuestionList.constructor | Services/QuestionService.cs:79-96 | a new list holds the given questions |
| Services.QuestionList.Clear | Services/QuestionService.cs:58 | the list becomes empty |
| Services.QuestionList.AddRange | Services/QuestionService.cs:59 | the given questions are appended in order |
| Services.QuestionService.constructor | Services/QuestionService.cs:25-30 | the store holds a fresh list: the default file's questions when it parses, and nothing when it is missing or loading it throws |
| Services.QuestionService.GetQuestionById | Services/QuestionService.cs:32-35 | null exactly when no stored question has the id; otherwise the first stored question with the id |
| Services.QuestionService.GetAllQuestions | Services/QuestionService.cs:37-40 | the result is the store's own list object, not a copy |
| Services.QuestionService.LoadFormFromFile | Services/QuestionService.cs:42-66 | a parsed file replaces the contents with its questions in order, or with nothing for a null document; a missing file or one that throws leaves the contents unchanged |
| Services.QuestionService.LoadQuestions | Services/QuestionService.cs:68-98 | a fresh list holding the parsed questions, or an empty one when the file is missing or throws |
| Services.ReloadSeenThroughGetAllQuestions | Services/QuestionService.cs:37-66 | a list obtained from GetAllQuestions before a reload shows the reloaded contents, because it is the same object |
| Answers.FirstAnswerIndex | Controllers/QuestionController.cs:69 | null exactly when no record has the text; otherwise the index of the first record with it |
| Answers.ExistingAnswer | Controllers/QuestionController.cs:90 | null exactly when no record has the text; otherwise the answer of the first record with it |
| Answers.Posted | Controllers/QuestionController.cs:60 | both the input and the question text are non-empty; Answers.Upsert leaves the history unchanged unless it holds |
| Answers.Upsert | Controllers/QuestionController.cs:60-78 | unchanged unless both input and text are non-empty; a new text appends exactly one record at the end; a known text replaces the answer of its first record only, keeping the length and every other record |
| Answers.UpsertLength | Controllers/QuestionController.cs:60-78 | an upsert grows the history by at most one record, and by one exactly when both were posted and the text was new |
| Answers.UpsertKeepsUniqueTexts | Controllers/QuestionController.cs:69-77 | unique texts stay unique, and the posted text then maps to the posted input |
| Answers.UpsertOtherTexts | Controllers/QuestionController.cs:69-77 | every text other than the posted one keeps its previous answer |
| Answers.UpsertLastWriteWins | Controllers/QuestionController.cs:69-77 | a second posted upsert for a text gives the same history as that upsert alone |
| Answers.UpsertIdempotent | Controllers/QuestionController.cs:69-77 | upserting the same answer twice gives the same history as once |
| Answers.ExistingAnswerOfUnique | Controllers/QuestionController.cs:90 | with unique texts, the existing answer for a text is a given answer exactly when that record is in the history |
| VisitOrder.AppendOnce | Controllers/QuestionController.cs:84-87 | the id is appended exactly when it is absent; earlier entries are unchanged; the length grows by at most one; the id is then present |
| VisitOrder.DropLast | Controllers/QuestionController.cs:128 | exactly the last entry is removed |
| VisitOrder.AppendOnceKeepsNoDuplicates | Controllers/QuestionController.cs:84-87 | an order without duplicates keeps none after an append |
| VisitOrder.DropLastKeepsNoDuplicates | Controllers/QuestionController.cs:128 | an order without duplicates keeps none after a pop |
| VisitOrder.DropLastUndoesAppendOnce | Controllers/QuestionController.cs:84-128 | popping after appending a new id gives back the order as it was |
| Flow.Stored.Decoded | Controllers/QuestionController.cs:56-57 | a stored list reads back as itself, and a null one as the empty list |
| Flow.TempData.HasHistory | Controllers/QuestionController.cs:51 | both entries hold strings; Flow.MissingHistoryRedirects shows that DisplayQuestion and GoBack redirect otherwise |
| Flow.Store | Controllers/QuestionController.cs:101-102 | the stored entries read back as exactly the written answers and order |
| Flow.SavedTempData | Controllers/QuestionController.cs:101-147 | only a view outcome stores history: an Index or End view stores exactly its view model's answers and order, and the null-question view stores the lists it holds |
| Flow.ViewModelFor | Controllers/QuestionController.cs:92-98 | the rendered model carries the question, the answers and the order, no input, and the first recorded answer for the question's text |
| Flow.IndexResult | Controllers/QuestionController.cs:19-45 | the error view exactly when no question has id 0; otherwise the first question with id 0, with order [0], no answers and no pre-fill |
| Flow.DisplayQuestionResult | Controllers/QuestionController.cs:47-110 | a redirect exactly when an entry is missing; Unhandled exactly when no question has the id; never the error view or the null-question view; the Flow lemmas below state the views |
| Flow.GoBackResult | Controllers/QuestionController.cs:112-154 | a redirect exactly when an entry is missing or the order has at most one id; when the id before the last is unknown, Unhandled exactly when an answer is recorded and otherwise the null-question view with no answers and the order without its last id; never the error or End view |
| Flow.RestartResult | Controllers/QuestionController.cs:156-162 | always redirects to the start and leaves neither entry stored |
| Flow.MissingHistoryRedirects | Controllers/QuestionController.cs:51-54 | with either entry missing, DisplayQuestion and GoBack (lines 116-119) redirect to the start and apply nothing |
| Flow.DisplayUnknownQuestionFails | Controllers/QuestionController.cs:81-104 | an id no question has makes DisplayQuestion dereference null, at line 90 or at line 104 |
| Flow.DisplayKnownQuestion | Controllers/QuestionController.cs:60-109 | the first question with the id is shown; the End view exactly when its type is "end"; answers are the upserted history; the pre-fill is the first record for the shown question's text |
| Flow.DisplayQuestionOrder | Controllers/QuestionController.cs:84-87 | the stored order gains the id exactly when it was absent and otherwise stays as it was; no duplicates are introduced |
| Flow.TerminalChangesOnlyTheView | Controllers/QuestionController.cs:101-109 | changing only the shown question's terminal status switches the End and Index views and changes no stored state |
| Flow.GoBackPops | Controllers/QuestionController.cs:125-150 | with more than one entry, exactly the last is removed; the shown question is the first one with the new last id; the answers stay; the pre-fill is its first recorded answer; when that id is unknown, Unhandled exactly when an answer is recorded, and otherwise the null-question view, which stores no answers and the shortened order |
| Flow.GoBackAtStart | Controllers/QuestionController.cs:152-153 | with one entry or fewer, GoBack redirects to the start, which stores no answers |
| Flow.BackAfterAdvance | Controllers/QuestionController.cs:84-150 | GoBack after advancing to a new id shows the question of the previous last id, restores the previous order, keeps the advanced answers, and pre-fills that question's recorded answer |
| Flow.AdvanceStores | Controllers/QuestionController.cs:84-102 | a DisplayQuestion view for a new id stores the upserted answers and the order with the id appended |
| Flow.BackAfterStore | Controllers/QuestionController.cs:125-149 | GoBack on a stored order ending in a new id shows the question of the id before it, with that order and the stored answers |
| Flow.RestartClearsEverything | Controllers/QuestionController.cs:156-162 | after a restart, DisplayQuestion and GoBack both redirect to the start |
| Flow.DisplayKeepsWellFormed | Controllers/QuestionController.cs:60-87 | DisplayQuestion keeps the order free of duplicates and the answer texts unique |
| Flow.BackKeepsWellFormed | Controllers/QuestionController.cs:125-128 | GoBack keeps the order free of duplicates and the answer texts unique |
| Flow.Serve | Controllers/QuestionController.cs:19-162 | only DisplayQuestion or GoBack with stored history can end in a null dereference; Start stores no answers and [0], or leaves TempData as it was on the error view; Reset followed by Index stores no answers and [0], or leaves TempData cleared |
| Flow.Session | Controllers/QuestionController.cs:19-162 | a session of starts and restarts alone never ends in a null dereference; an empty session leaves TempData as it was |
| Flow.ServeKeepsWellFormed | Controllers/QuestionController.cs:19-162 | every request, including a redirect to the start and an error view, leaves a history with no repeated id and no repeated answer text |
| Flow.SessionKeepsWellFormed | Controllers/QuestionController.cs:19-162 | over any sequence of requests, with any reload of the graph in between and error views included, the stored history never holds a repeated id or answer text, until a request dereferences a missing question |
| Controllers.QuestionController.constructor | Controllers/QuestionController.cs:14-17 | the controller uses the given question service |
| Controllers.QuestionController.Index | Controllers/QuestionController.cs:19-45 | the outcome is IndexResult on the store's current questions, and a started form stores no answers and the order [0] |
| Controllers.QuestionController.DisplayQuestion | Controllers/QuestionController.cs:47-110 | the step-by-step action produces exactly DisplayQuestionResult on the store's current questions |
| Controllers.QuestionController.GoBack | Controllers/QuestionController.cs:112-154 | the step-by-step action produces exactly GoBackResult on the store's current questions |
| Controllers.QuestionController.Restart | Controllers/QuestionController.cs:156-162 | redirects to the start with both entries cleared |
| Scenarios.FormLookups | Services/QuestionService.cs:34 | on the form Name?/Age?/Done, ids 0, 1 and 2 find their questions and id 99 finds nothing |
| Scenarios.StartRun | Controllers/QuestionController.cs:19-45 | starting the form shows "Name?" and stores no answers and the order [0] |
| Scenarios.FirstAdvance | Controllers/QuestionController.cs:47-110 | answering "Alice" and advancing to 1 shows "Age?" with order [0, 1] and one record |
| Scenarios.SecondAdvance | Controllers/QuestionController.cs:104-106 | answering "30" and advancing to 2 reaches the End view with order [0, 1, 2] |
| Scenarios.BackFromEnd | Controllers/QuestionController.cs:125-150 | going back from the end shows "Age?" pre-filled with "30", with order [0, 1] |
| Scenarios.UnknownQuestion | Controllers/QuestionController.cs:81-90 | advancing to id 99 records the posted answer and then dereferences null |
| Scenarios.BackToUnknownQuestion | Controllers/QuestionController.cs:125-150 | going back to id 99, which the form lacks, renders a null question and stores the order [99] when no answer is recorded, and dereferences null when one is |
| FormEditor.Remove | Controllers/FormEditorController.cs:22 | `Replace(pattern, "")` never lengthens the string and adds no character |
| FormEditor.WithoutSpaces | Controllers/FormEditorController.cs:22 | the result has no space and only characters of the input |
| FormEditor.RemoveSpaceIsWithoutSpaces | Controllers/FormEditorController.cs:22 | `Replace(" ", "")` drops exactly the spaces, keeping every other character in order |
| FormEditor.FileNameFor | Controllers/FormEditorController.cs:22 | the file name has no space, ends with "FormFlow.json" and begins with the title without its spaces |
| FormEditor.FileNameForIsStrippedTitle | Controllers/FormEditorController.cs:22 | the file name is the title without spaces followed by "FormFlow.json" |
| FormEditor.SaveForm | Controllers/FormEditorController.cs:13-40 | a null form or a null or empty title is rejected with the missing-title error and nothing is written; otherwise the form is written to its derived file name; success exactly when the write succeeds, with that name; a failed write reports its message |
| FormEditor.LastIndexOf | Controllers/FormEditorController.cs:51 | null exactly when the character is absent; otherwise an index holding it with none after it |
| FormEditor.FileName | Controllers/FormEditorController.cs:80 | `Path.GetFileName`: the part after the last '/', the whole path when there is none |
| FormEditor.ListedName | Controllers/FormEditorController.cs:51 | the listed name is no longer than the file name without extension and holds no '/'; FormEditor.ListedNameOfFormFile gives its value for every form file whose stem holds no "FormFlow" |
| FormEditor.ListedNames | Controllers/FormEditorController.cs:50-52 | one listed name per matching file, in directory order |
| FormEditor.FileNameWithoutExtension | Controllers/FormEditorController.cs:51 | `Path.GetFileNameWithoutExtension`: the file name up to its last '.', the whole name when it has none |
| FormEditor.FormFileExtension | Controllers/FormEditorController.cs:51 | a saved form's path loses only ".json", whatever dots the title holds |
| FormEditor.RemoveMarkerSuffix | Controllers/FormEditorController.cs:51 | removing "FormFlow" from a name that ends in it and holds it nowhere else leaves the name without it |
| FormEditor.Matching | Controllers/FormEditorController.cs:50 | a name is kept exactly when it is in the directory and ends with "FormFlow.json" |
| FormEditor.GetFormList | Controllers/FormEditorController.cs:42-61 | no directory lists nothing successfully; an exception fails with its message; otherwise every matching file is listed, in order, under its listed name |
| FormEditor.MatchingFileIsListed | Controllers/FormEditorController.cs:50-53 | every file matching the pattern is listed under its listed name |
| FormEditor.ListedNameOfFormFile | Controllers/FormEditorController.cs:50-51 | the listed name of a form file is exactly its stem (the part before "FormFlow.json") when that stem holds no "FormFlow" and no '/' |
| FormEditor.ListedNameOfSavedTitle | Controllers/FormEditorController.cs:22-51 | round trip: the listed name of a saved title's file is the title without spaces, provided the stripped title holds no "FormFlow" and no '/' |
| FormEditor.SavedFormIsListed | Controllers/FormEditorController.cs:13-61 | a successfully saved form whose file is in the data directory is listed under its title without spaces, with the same provisos |
| FormEditor.QuestionCount | Controllers/FormEditorController.cs:81 | the number of questions, or 0 when the list is null |
| FormEditor.FormInfoFor | Controllers/FormEditorController.cs:75-84 | a file that deserialises to null gives no row; otherwise the row has the form's title, the file name of the path and the question count |

## Left out

- MVC plumbing: view rendering, `RedirectToAction` and the `Json` replies are outcome values. The redirect target is followed only in `Flow.Serve`.
- Flow.GoBackResult: for `NullQuestionView`, what the Index view renders with a null question is not modelled. Only the lists it stores are modelled, and the session goes on from them.
- Flow.DisplayQuestionResult: with no answers recorded and an unknown id, both lists are stored before the exception at line 104. Whether a store made before an unhandled exception survives depends on the framework. The model makes the result `Unhandled` and ends the session there.
- Flow.SessionKeepsWellFormed: a session ends at a request that dereferences a missing question (`Unhandled`). What the next request finds after that crash is not modelled.
- TempData storage: serialisation and TempData's read-once retention are not modelled. Malformed JSON is not modelled, because it throws in the source. Null elements in a list and null strings inside a record are not modelled either.
- The exceptions caught by `Index`: `GetQuestionById` cannot throw in the model.
- Concurrency: a reload that runs while other requests are in flight is not modelled. Requests are sequential, and each one sees the graph the store holds when it runs.
- In-place mutation of a `UserAnswer`: the record that `FirstOrDefault` finds is modelled as replaced in the list. Aliasing between the deserialised list and other references is not modelled, because every decoded list is fresh.
- File-system and JSON calls are inputs to the model: `File.Exists`, `ReadAllText`, `WriteAllTextAsync`, `Directory.CreateDirectory`, `Directory.GetFiles`, and the deserialisation itself. `Path.Combine` with `WebRootPath` or the current directory is abstracted too. The file name passed to `LoadFormFromFile` is not resolved to a path.
- Logging (`_logger.LogError`).
- `Directory.GetFiles` pattern matching: it is modelled as a case-sensitive suffix test. Windows separators, short names and rooted file names are not modelled.
- `FormEditorController.Index`, `DeleteForm` and the directory loop of `List`: these are I/O. Only the row that `List` builds for one file is modelled (`FormEditor.FormInfoFor`).
- Program.cs (dependency registration, sessions, routing) and wwwroot/js/site.js (a scroll handler) are not modelled.
- Routing by `Option.Destination`: the source does not do it. The caller chooses the next id.
- FormEditor.ListedName: its value is stated for form files whose stem holds no "FormFlow" (`FormEditor.ListedNameOfFormFile`). For a stem that holds "FormFlow" itself, the listed name rests on the left-to-right definition of `FormEditor.Remove`.
- FormEditor.Remove: its contract states only that the result is no longer than the input and holds only characters of it. The left-to-right removal is its definition. It is proved to drop exactly the spaces (`FormEditor.RemoveSpaceIsWithoutSpaces`) and to drop a trailing "FormFlow" that occurs nowhere else (`FormEditor.RemoveMarkerSuffix`).
