/**
 * Controllers/FormEditorController.cs: the editor's form shapes, how a form
 * title becomes a file name, how a stored file name becomes the name the
 * editor lists, save-time validation and the question count.
 */
module FormEditor {
  import opened Wrappers

  /** The editor's option: unlike the runtime option, its destination may be null. */
  datatype Option = Option(Text: Nullable<string>, Destination: Nullable<int>)

  /** The editor's question, with layout coordinates; its strings and option list may be null. */
  datatype Question = Question(
    Id: int,
    QuestionText: Nullable<string>,
    Type: Nullable<string>,
    Required: bool,
    Options: Nullable<seq<Option>>,
    HelpText: Nullable<string>,
    X: int,
    Y: int)

  /** A posted or stored form. */
  datatype FormData = FormData(title: Nullable<string>, questions: Nullable<seq<Question>>)

  /** One row of the form list page. */
  datatype FormInfo = FormInfo(Title: Nullable<string>, FileName: string, QuestionCount: nat)

  const Marker := "FormFlow"
  const FileSuffix := "FormFlow.json"
  /** `Path.Combine("wwwroot", "data")` */
  const DataPath := "wwwroot/data"
  const MissingTitleError := "Form data or title is missing"

  // ---------------------------------------------------------------------
  // Strings

  predicate EndsWith(s: string, suffix: string) {
    |suffix| <= |s| && s[|s| - |suffix|..] == suffix
  }

  /** `pattern` occurs in `s` starting at position `i`. */
  predicate OccursAt(pattern: string, s: string, i: int) {
    0 <= i && i + |pattern| <= |s| && s[i..i + |pattern|] == pattern
  }

  /** `pattern` occurs somewhere in `s`. */
  predicate Occurs(pattern: string, s: string) {
    exists i | 0 <= i <= |s| :: OccursAt(pattern, s, i)
  }

  /**
   * `s.Replace(pattern, "")`: scanning from the left, every occurrence of
   * `pattern` that does not overlap an earlier removed one is dropped.
   */
  function Remove(s: string, pattern: string): (r: string)
    requires pattern != ""
    ensures |r| <= |s|
    ensures forall c | c in r :: c in s
    decreases |s|
  {
    if |s| < |pattern| then s
    else if s[..|pattern|] == pattern then Remove(s[|pattern|..], pattern)
    else [s[0]] + Remove(s[1..], pattern)
  }

  /** Reference definition: the characters of `s` that are not spaces, in order. */
  function WithoutSpaces(s: string): (r: string)
    ensures ' ' !in r
    ensures forall c | c in r :: c in s
  {
    if s == [] then []
    else (if s[0] == ' ' then [] else [s[0]]) + WithoutSpaces(s[1..])
  }

  /** Removing the one-character pattern " " is dropping every space. */
  lemma {:induction false} RemoveSpaceIsWithoutSpaces(s: string)
    ensures Remove(s, " ") == WithoutSpaces(s)
  {
    if s != [] {
      RemoveSpaceIsWithoutSpaces(s[1..]);
      assert s[..1] == [s[0]];
    }
  }

  // ---------------------------------------------------------------------
  // Saving

  /**
   * `title.Replace(" ", "") + "FormFlow.json"`: the title with every space
   * removed, followed by the suffix every form file carries.
   */
  function FileNameFor(title: string): (r: string)
    ensures ' ' !in r
    ensures EndsWith(r, FileSuffix)
    ensures r[..|r| - |FileSuffix|] == WithoutSpaces(title)
  {
    RemoveSpaceIsWithoutSpaces(title);
    Remove(title, " ") + FileSuffix
  }

  /** What writing the form file does; the directory creation and the write are abstracted away. */
  datatype IoResult = IoOk | IoThrows(message: string)

  /** The JSON reply of SaveForm. */
  datatype SaveResponse = SaveResponse(success: bool, fileName: Nullable<string>, error: Nullable<string>)

  /** The file SaveForm writes (or tries to write), under the data directory, and the form it serialises there. */
  datatype FileWrite = FileWrite(fileName: string, form: FormData)

  datatype SaveResult = SaveResult(response: SaveResponse, write: Nullable<FileWrite>)

  /**
   * `SaveForm`: a null form or a null or empty title is rejected before any
   * file is touched; otherwise the form is written to the file named after
   * its title, and the reply reports that name or the exception's message.
   */
  function SaveForm(formData: Nullable<FormData>, io: IoResult): (r: SaveResult)
    ensures r.write.Null? <==> formData.Null? || IsNullOrEmpty(formData.value.title)
    ensures r.write.Null? ==> r.response == SaveResponse(false, Null, Some(MissingTitleError))
    ensures r.write.Some? ==> r.write.value == FileWrite(FileNameFor(formData.value.title.value), formData.value)
    ensures r.response.success <==> r.write.Some? && io.IoOk?
    ensures r.response.success ==> r.response.fileName == Some(r.write.value.fileName) && r.response.error == Null
    ensures r.write.Some? && io.IoThrows? ==> r.response == SaveResponse(false, Null, Some(io.message))
  {
    if formData.Null? || IsNullOrEmpty(formData.value.title) then
      SaveResult(SaveResponse(false, Null, Some(MissingTitleError)), Null)
    else
      var fileName := FileNameFor(formData.value.title.value);
      var write := Some(FileWrite(fileName, formData.value));
      match io
      case IoOk => SaveResult(SaveResponse(true, Some(fileName), Null), write)
      case IoThrows(message) => SaveResult(SaveResponse(false, Null, Some(message)), write)
  }

  // ---------------------------------------------------------------------
  // Listing

  /** The index of the last `c` in `s`, or null when `s` has none. */
  function LastIndexOf(s: string, c: char): (r: Nullable<nat>)
    ensures r.Null? <==> c !in s
    ensures r.Some? ==> r.value < |s| && s[r.value] == c && c !in s[r.value + 1..]
  {
    if s == [] then Null
    else if s[|s| - 1] == c then Some(|s| - 1)
    else
      var r := LastIndexOf(s[..|s| - 1], c);
      assert r.Some? ==> s[r.value + 1..] == s[..|s| - 1][r.value + 1..] + [s[|s| - 1]];
      r
  }

  /** A position holding `c` with no `c` after it is the last index of `c`. */
  lemma LastIndexOfIs(s: string, c: char, k: nat)
    requires k < |s| && s[k] == c && c !in s[k + 1..]
    ensures LastIndexOf(s, c) == Some(k)
  {
  }

  /** `Path.GetFileName(path)` with '/' as the directory separator. */
  function FileName(path: string): (r: string)
    ensures '/' !in r
    ensures EndsWith(path, r)
    ensures '/' in path ==> path[|path| - |r| - 1] == '/'
    ensures '/' !in path ==> r == path
  {
    match LastIndexOf(path, '/')
    case Null => path
    case Some(k) => path[k + 1..]
  }

  /** `Path.GetFileNameWithoutExtension(path)`: the file name up to its last '.'. */
  function FileNameWithoutExtension(path: string): (r: string)
    ensures var name := FileName(path);
      && r <= name
      && ('.' in name ==> |r| < |name| && name[|r|] == '.' && '.' !in name[|r| + 1..])
      && ('.' !in name ==> r == name)
  {
    var name := FileName(path);
    match LastIndexOf(name, '.')
    case Null => name
    case Some(k) => name[..k]
  }

  /** `Path.GetFileNameWithoutExtension(f).Replace("FormFlow", "")`: the name the editor lists for file `f`. */
  function ListedName(path: string): (r: string)
    ensures |r| <= |FileNameWithoutExtension(path)|
    ensures '/' !in r
  {
    Remove(FileNameWithoutExtension(path), Marker)
  }

  /** What the data directory holds, with the file-system calls abstracted away. */
  datatype Listing = NoDirectory | Files(names: seq<string>) | ListingThrows(message: string)

  /** The JSON reply of GetFormList. */
  datatype FormList = FormList(success: bool, files: seq<string>, error: Nullable<string>)

  /** The names matching the pattern "*FormFlow.json", in directory order. */
  function Matching(names: seq<string>): (r: seq<string>)
    ensures |r| <= |names|
    ensures forall n :: n in r <==> n in names && EndsWith(n, FileSuffix)
  {
    if names == [] then []
    else
      var rest := Matching(names[1..]);
      assert forall n :: n in names <==> n == names[0] || n in names[1..];
      if EndsWith(names[0], FileSuffix) then [names[0]] + rest else rest
  }

  /** The listed names of the files matching "*FormFlow.json", in directory order. */
  function ListedNames(names: seq<string>): (r: seq<string>)
    ensures |r| == |Matching(names)|
    ensures forall i | 0 <= i < |r| :: r[i] == ListedName(DataPath + "/" + Matching(names)[i])
  {
    var files := Matching(names);
    seq(|files|, i requires 0 <= i < |files| => ListedName(DataPath + "/" + files[i]))
  }

  /** `GetFormList`: no directory lists nothing; an exception is reported with its message. */
  function GetFormList(listing: Listing): (r: FormList)
    ensures listing.NoDirectory? ==> r == FormList(true, [], Null)
    ensures listing.ListingThrows? ==> r == FormList(false, [], Some(listing.message))
    ensures listing.Files? ==> r.success && r.error == Null
    ensures listing.Files? ==> |r.files| == |Matching(listing.names)|
    ensures listing.Files? ==> forall i | 0 <= i < |r.files| :: r.files[i] == ListedName(DataPath + "/" + Matching(listing.names)[i])
  {
    match listing
    case NoDirectory => FormList(true, [], Null)
    case Files(names) => FormList(true, ListedNames(names), Null)
    case ListingThrows(message) => FormList(false, [], Some(message))
  }

  /** The file name of a path joined under a directory is the joined name. */
  lemma FileNameOfJoined(dir: string, name: string)
    requires '/' !in name
    ensures FileName(dir + "/" + name) == name
  {
    var path := dir + "/" + name;
    assert path[|dir| + 1..] == name;
    LastIndexOfIs(path, '/', |dir|);
  }

  /** The extension of a form file name is ".json", whatever dots the title holds. */
  lemma FormFileExtension(s: string)
    requires '/' !in s
    ensures FileNameWithoutExtension(DataPath + "/" + (s + FileSuffix)) == s + Marker
  {
    var name := s + FileSuffix;
    assert '/' !in FileSuffix;
    FileNameOfJoined(DataPath, name);
    LastDotOfFormFile(s);
    assert name[..|s| + 8] == s + Marker;
  }

  /** The last '.' of a form file name is the one before "json". */
  lemma LastDotOfFormFile(s: string)
    ensures LastIndexOf(s + FileSuffix, '.') == Some(|s| + 8)
  {
    SuffixDot();
    LastIndexInSuffix(s, FileSuffix, 8, '.');
  }

  /** A last occurrence inside the suffix stays the last occurrence after a prefix is added. */
  lemma LastIndexInSuffix(s: string, suffix: string, k: nat, c: char)
    requires k < |suffix| && suffix[k] == c && c !in suffix[k + 1..]
    ensures LastIndexOf(s + suffix, c) == Some(|s| + k)
  {
    var name := s + suffix;
    assert name[|s| + k] == c;
    assert name[|s| + k + 1..] == suffix[k + 1..];
    LastIndexOfIs(name, c, |s| + k);
  }

  /** The suffix has its only '.' at position 8. */
  lemma SuffixDot()
    ensures |FileSuffix| == 13 && FileSuffix[8] == '.' && '.' !in FileSuffix[9..]
  {
    assert FileSuffix[9..] == "json";
  }

  /** "FormFlow" overlaps no shifted copy of itself, so removing it from `s + "FormFlow"` gives `s` back. */
  lemma {:induction false} RemoveMarkerSuffix(s: string)
    requires !Occurs(Marker, s)
    ensures Remove(s + Marker, Marker) == s
    decreases |s|
  {
    var t := s + Marker;
    if s == [] {
      assert t[..8] == Marker && t[8..] == [];
    } else {
      assert t[..8] != Marker by {
        if |s| >= 8 {
          assert !OccursAt(Marker, s, 0);
          assert t[..8] == s[0..8];
        } else {
          MarkerStartsNowhereInside(s);
        }
      }
      assert !Occurs(Marker, s[1..]) by {
        forall i | OccursAt(Marker, s[1..], i) ensures false {
          assert s[i + 1..i + 9] == s[1..][i..i + 8];
          assert OccursAt(Marker, s, i + 1);
        }
      }
      RemoveMarkerSuffix(s[1..]);
      assert t[1..] == s[1..] + Marker;
      assert [s[0]] + s[1..] == s;
    }
  }

  /** No proper prefix of `s + "FormFlow"` shorter than eight characters lets "FormFlow" start inside `s`. */
  lemma MarkerStartsNowhereInside(s: string)
    requires 0 < |s| < 8
    ensures (s + Marker)[..8] != Marker
  {
    var t := s + Marker;
    var k := |s|;
    assert t[k] == 'F';
    assert k == 4 ==> t[5] == 'o';
    assert Marker[k] == 'F' ==> k == 4 by {
      assert Marker == ['F', 'o', 'r', 'm', 'F', 'l', 'o', 'w'];
    }
    assert t[..8][k] == t[k];
    assert k == 4 ==> t[..8][5] == t[5] && Marker[5] == 'l';
  }

  /** The file name of a title is the stripped title followed by the suffix. */
  lemma FileNameForIsStrippedTitle(title: string)
    ensures FileNameFor(title) == WithoutSpaces(title) + FileSuffix
  {
    var r := FileNameFor(title);
    assert r == r[..|r| - |FileSuffix|] + r[|r| - |FileSuffix|..];
  }

  /**
   * The listed name of a form file is its stem, the part before
   * "FormFlow.json", when that stem holds no "FormFlow" and no '/'.
   */
  lemma ListedNameOfFormFile(s: string)
    requires '/' !in s && !Occurs(Marker, s)
    ensures ListedName(DataPath + "/" + (s + FileSuffix)) == s
  {
    FormFileExtension(s);
    RemoveMarkerSuffix(s);
  }

  /**
   * Round trip: the editor lists a saved form under its title with the spaces
   * removed, provided that stripped title neither holds "FormFlow" nor names
   * a subdirectory.
   */
  lemma ListedNameOfSavedTitle(title: string)
    requires !Occurs(Marker, WithoutSpaces(title)) && '/' !in title
    ensures ListedName(DataPath + "/" + FileNameFor(title)) == WithoutSpaces(title)
  {
    var s := WithoutSpaces(title);
    FileNameForIsStrippedTitle(title);
    assert '/' !in s;
    FormFileExtension(s);
    RemoveMarkerSuffix(s);
  }

  /** A form saved successfully shows up in the list once its file is in the data directory. */
  lemma SavedFormIsListed(formData: FormData, names: seq<string>)
    requires var r := SaveForm(Some(formData), IoOk); r.response.success && r.write.value.fileName in names
    requires !Occurs(Marker, WithoutSpaces(formData.title.value)) && '/' !in formData.title.value
    ensures WithoutSpaces(formData.title.value) in GetFormList(Files(names)).files
  {
    var title := formData.title.value;
    ListedNameOfSavedTitle(title);
    MatchingFileIsListed(names, FileNameFor(title));
  }

  /** Every file matching the pattern is listed under its listed name. */
  lemma MatchingFileIsListed(names: seq<string>, name: string)
    requires name in names && EndsWith(name, FileSuffix)
    ensures ListedName(DataPath + "/" + name) in GetFormList(Files(names)).files
  {
    var files := Matching(names);
    var i :| 0 <= i < |files| && files[i] == name;
    assert GetFormList(Files(names)).files[i] == ListedName(DataPath + "/" + name);
  }

  // ---------------------------------------------------------------------
  // The list page

  /** `formData.questions?.Count ?? 0` */
  function QuestionCount(formData: FormData): (n: nat)
    ensures formData.questions.Null? ==> n == 0
    ensures formData.questions.Some? ==> n == |formData.questions.value|
  {
    match formData.questions
    case Null => 0
    case Some(qs) => |qs|
  }

  /**
   * The row `List` builds for the file at `path` whose contents deserialised
   * to `formData`; a file that deserialises to null is skipped (its
   * dereference throws and the exception is swallowed).
   */
  function FormInfoFor(path: string, formData: Nullable<FormData>): (r: Nullable<FormInfo>)
    ensures r.Null? <==> formData.Null?
    ensures r.Some? ==> r.value.Title == formData.value.title && r.value.FileName == FileName(path)
    ensures r.Some? ==> r.value.QuestionCount == QuestionCount(formData.value)
  {
    match formData
    case Null => Null
    case Some(fd) => Some(FormInfo(fd.title, FileName(path), QuestionCount(fd)))
  }
}
