/** The list transformations and input guards of the file dashboard
    (src/file-upload/FileUploadPage.tsx). React state setters are replaced by functions from the
    previous list to the next one; the outcome of the awaited server call is a parameter, since a
    thrown error skips the state update. */
module FileUploadPage {
  import opened Wrappers
  import opened Seqs
  import opened Text

  /** A JavaScript optional property: absent (`undefined`), `null`, or a value. */
  datatype Nullable<T> = Undefined | Null | Defined(value: T)

  datatype Project = Project(id: string, name: string, createdAt: string)

  /** The page's `File` type; sizes are integral byte counts. */
  datatype ClientFile = ClientFile(
    id: string,
    key: string,
    name: string,
    createdAt: string,
    fileType: string,
    size: int,
    projectId: Nullable<string>,
    userId: string)

  /** The arguments `handleUploadConfirm` passes to `createFile`. */
  datatype CreateFileArgs = CreateFileArgs(fileType: string, name: string, size: int, projectId: string)

  // ---------------------------------------------------------------------------------------------
  // `filteredFiles`

  /** `selectedProject?.id`. */
  function SelectedId(selected: Option<Project>): Nullable<string>
  {
    match selected
    case None => Undefined
    case Some(p) => Defined(p.id)
  }

  /** The filter callback: same project (by `===`) and a case-insensitive name match. */
  predicate IsShown(file: ClientFile, selected: Option<Project>, searchTerm: string)
  {
    file.projectId == SelectedId(selected) && Includes(ToLower(file.name), ToLower(searchTerm))
  }

  /** `filesData?.map(...).filter(...) || []`: no data yet gives the empty list; otherwise the
      files of the selected project whose name matches, in the order of `filesData`. */
  function FilteredFiles(filesData: Option<seq<ClientFile>>, selected: Option<Project>, searchTerm: string)
    : (r: seq<ClientFile>)
    ensures filesData.None? ==> r == []
    ensures filesData.Some? ==>
      && (forall i :: 0 <= i < |r| ==> r[i] in filesData.value && IsShown(r[i], selected, searchTerm))
      && (forall i :: 0 <= i < |filesData.value| && IsShown(filesData.value[i], selected, searchTerm)
            ==> filesData.value[i] in r)
  {
    match filesData
    case None => []
    case Some(files) => Filter(files, (f: ClientFile) => IsShown(f, selected, searchTerm))
  }

  /** A file is shown exactly when it is in the data, its project is the selected one, and the
      lower-cased search term occurs somewhere in its lower-cased name. */
  lemma FilteredFilesShows(files: seq<ClientFile>, selected: Option<Project>, searchTerm: string, f: ClientFile)
    ensures f in FilteredFiles(Some(files), selected, searchTerm) <==>
      && f in files
      && f.projectId == SelectedId(selected)
      && exists k :: OccursAt(ToLower(f.name), ToLower(searchTerm), k)
  {
    IncludesIffOccurs(ToLower(f.name), ToLower(searchTerm));
  }

  /** The filter keeps the relative order of `filesData`: it distributes over concatenation. */
  lemma FilteredFilesKeepsOrder(a: seq<ClientFile>, b: seq<ClientFile>, selected: Option<Project>, searchTerm: string)
    ensures FilteredFiles(Some(a + b), selected, searchTerm)
         == FilteredFiles(Some(a), selected, searchTerm) + FilteredFiles(Some(b), selected, searchTerm)
  {
    FilterConcat(a, b, (f: ClientFile) => IsShown(f, selected, searchTerm));
  }

  /** With an empty search term every file of the selected project is shown. */
  lemma FilteredFilesEmptySearch(files: seq<ClientFile>, selected: Option<Project>)
    requires forall i :: 0 <= i < |files| ==> files[i].projectId == SelectedId(selected)
    ensures FilteredFiles(Some(files), selected, "") == files
  {
    forall i | 0 <= i < |files|
      ensures IsShown(files[i], selected, "")
    {
      IncludesEmpty(ToLower(files[i].name));
    }
    FilterKeepsAll(files, (f: ClientFile) => IsShown(f, selected, ""));
  }

  /** The search ignores the case of the term. */
  lemma FilteredFilesIgnoresCase(filesData: Option<seq<ClientFile>>, selected: Option<Project>, searchTerm: string)
    ensures FilteredFiles(filesData, selected, ToLower(searchTerm)) == FilteredFiles(filesData, selected, searchTerm)
  {
    ToLowerIdempotent(searchTerm);
    if filesData.Some? {
      FilterSamePredicate(filesData.value, (f: ClientFile) => IsShown(f, selected, ToLower(searchTerm)),
                          (f: ClientFile) => IsShown(f, selected, searchTerm));
    }
  }

  /** Without a selected project only files whose project is absent are shown; a file whose
      project is `null` never is. */
  lemma NoSelectionShowsUnassignedOnly(files: seq<ClientFile>, searchTerm: string, f: ClientFile)
    requires f in FilteredFiles(Some(files), None, searchTerm)
    ensures f.projectId == Undefined
  {
  }

  // ---------------------------------------------------------------------------------------------
  // Renaming a project

  /** `prev.map((proj) => proj.id === projectId ? { ...proj, name: newName } : proj)`. */
  function RenameProjects(projects: seq<Project>, projectId: string, newName: string): (r: seq<Project>)
    ensures |r| == |projects|
    ensures forall i :: 0 <= i < |r| ==> r[i].id == projects[i].id && r[i].createdAt == projects[i].createdAt
    ensures forall i :: 0 <= i < |r| && projects[i].id != projectId ==> r[i] == projects[i]
    ensures forall i :: 0 <= i < |r| && projects[i].id == projectId ==> r[i].name == newName
  {
    seq(|projects|, i requires 0 <= i < |projects| =>
      if projects[i].id == projectId then projects[i].(name := newName) else projects[i])
  }

  /** Renaming an id no project has changes nothing. */
  lemma RenameUnknownIdIsIdentity(projects: seq<Project>, projectId: string, newName: string)
    requires forall i :: 0 <= i < |projects| ==> projects[i].id != projectId
    ensures RenameProjects(projects, projectId, newName) == projects
  {
  }

  /** A second rename of the same id overrides the first. */
  lemma RenameTwiceIsLastRename(projects: seq<Project>, projectId: string, first: string, second: string)
    ensures RenameProjects(RenameProjects(projects, projectId, first), projectId, second)
         == RenameProjects(projects, projectId, second)
  {
  }

  /** `handleRenameProject`: nothing happens when no project is being edited or the new name is
      blank; a failed server call leaves the list as it was; otherwise the list is renamed with
      the untrimmed name. */
  function HandleRenameProject(projects: seq<Project>, editingProject: Option<Project>,
                               newProjectName: string, projectId: string, serverSucceeded: bool)
    : (r: seq<Project>)
    ensures (editingProject.None? || forall i :: 0 <= i < |newProjectName| ==> IsWhiteSpace(newProjectName[i]))
      ==> r == projects
    ensures editingProject.Some? && (exists i :: 0 <= i < |newProjectName| && !IsWhiteSpace(newProjectName[i]))
      ==> r == if serverSucceeded then RenameProjects(projects, projectId, newProjectName) else projects
  {
    TrimEmptyIffBlank(newProjectName);
    if editingProject.None? || Trim(newProjectName) == "" then projects
    else if !serverSucceeded then projects
    else RenameProjects(projects, projectId, newProjectName)
  }

  // ---------------------------------------------------------------------------------------------
  // Deleting a project

  /** `prev.filter((proj) => proj.id !== projectId)`. */
  function RemoveProject(projects: seq<Project>, projectId: string): (r: seq<Project>)
    ensures forall i :: 0 <= i < |r| ==> r[i].id != projectId && r[i] in projects
    ensures forall i :: 0 <= i < |projects| && projects[i].id != projectId ==> projects[i] in r
  {
    Filter(projects, (p: Project) => p.id != projectId)
  }

  /** The projects that remain keep their order and every occurrence. */
  lemma RemoveProjectKeepsOthers(a: seq<Project>, b: seq<Project>, projectId: string, p: Project)
    ensures RemoveProject(a + b, projectId) == RemoveProject(a, projectId) + RemoveProject(b, projectId)
    ensures multiset(RemoveProject(a, projectId))[p] == if p.id == projectId then 0 else multiset(a)[p]
  {
    FilterConcat(a, b, (q: Project) => q.id != projectId);
    FilterMultiplicity(a, (q: Project) => q.id != projectId, p);
  }

  /** `handleDeleteProject`: without a project to delete, or when the server call fails, the list
      is unchanged; otherwise it is the list without the projects with that id, the others kept in
      order (`RemoveProject`, `RemoveProjectKeepsOthers`). */
  function HandleDeleteProject(projects: seq<Project>, projectToDelete: Option<Project>, serverSucceeded: bool)
    : (r: seq<Project>)
    ensures projectToDelete.None? || !serverSucceeded ==> r == projects
    ensures projectToDelete.Some? && serverSucceeded ==> r == RemoveProject(projects, projectToDelete.value.id)
  {
    match projectToDelete
    case None => projects
    case Some(p) => if serverSucceeded then RemoveProject(projects, p.id) else projects
  }

  // ---------------------------------------------------------------------------------------------
  // Deleting a file

  /** `prevSelected.filter(id => id !== fileId)`. */
  function DeselectFile(selectedFiles: seq<string>, fileId: string): (r: seq<string>)
    ensures fileId !in r
    ensures forall i :: 0 <= i < |selectedFiles| && selectedFiles[i] != fileId ==> selectedFiles[i] in r
    ensures forall i :: 0 <= i < |r| ==> r[i] in selectedFiles
  {
    Filter(selectedFiles, (id: string) => id != fileId)
  }

  /** The other selected ids keep their order and every occurrence. */
  lemma DeselectFileKeepsOthers(a: seq<string>, b: seq<string>, fileId: string, id: string)
    ensures DeselectFile(a + b, fileId) == DeselectFile(a, fileId) + DeselectFile(b, fileId)
    ensures multiset(DeselectFile(a, fileId))[id] == if id == fileId then 0 else multiset(a)[id]
  {
    FilterConcat(a, b, (x: string) => x != fileId);
    FilterMultiplicity(a, (x: string) => x != fileId, id);
  }

  /** `confirmDeleteFile`: the selection changes only when there is a file to delete and the
      server call succeeds, and then loses exactly that file's id, the other ids kept in order
      (`DeselectFile`, `DeselectFileKeepsOthers`). */
  function ConfirmDeleteFile(selectedFiles: seq<string>, fileToDelete: Option<ClientFile>, serverSucceeded: bool)
    : (r: seq<string>)
    ensures fileToDelete.None? || !serverSucceeded ==> r == selectedFiles
    ensures fileToDelete.Some? && serverSucceeded ==> r == DeselectFile(selectedFiles, fileToDelete.value.id)
  {
    match fileToDelete
    case None => selectedFiles
    case Some(f) => if serverSucceeded then DeselectFile(selectedFiles, f.id) else selectedFiles
  }

  // ---------------------------------------------------------------------------------------------
  // Uploading

  /** `handleUploadConfirm`'s guard and the `createFile` call it makes: no call unless both a
      file and a project are selected; the call carries the file's type, name and size and the
      selected project's id. */
  function UploadRequest(uploadFile: Option<ClientFile>, selectedProject: Option<Project>): (r: Option<CreateFileArgs>)
    ensures r.Some? <==> uploadFile.Some? && selectedProject.Some?
    ensures r.Some? ==>
      && r.value.fileType == uploadFile.value.fileType
      && r.value.name == uploadFile.value.name
      && r.value.size == uploadFile.value.size
      && r.value.projectId == selectedProject.value.id
  {
    if uploadFile.None? || selectedProject.None? then None
    else
      var f := uploadFile.value;
      Some(CreateFileArgs(f.fileType, f.name, f.size, selectedProject.value.id))
  }

  // ---------------------------------------------------------------------------------------------
  // `formatFileSize`

  /** 2^53: every integer of at most this magnitude is a JavaScript number that `String` renders
      with its exact digits; beyond it the nearest double's shortest digits are printed instead. */
  const SAFE_INTEGER_BOUND: int := 9_007_199_254_740_992

  /** `formatFileSize` below 1024: the number in decimal, then " bytes". Negative numbers down to
      -2^53 render with a leading '-'. */
  function FormatSmallFileSize(sizeInBytes: int): (s: string)
    requires -SAFE_INTEGER_BOUND <= sizeInBytes < 1024
    ensures |s| > 6 && s[|s| - 6..] == " bytes"
    ensures var digits := if sizeInBytes < 0 then s[1..|s| - 6] else s[..|s| - 6];
      && (sizeInBytes < 0 <==> s[0] == '-')
      && (forall i :: 0 <= i < |digits| ==> IsDigit(digits[i]))
      && |digits| >= 1 && (|digits| > 1 ==> digits[0] != '0')
      && ParseNat(digits) == if sizeInBytes < 0 then -sizeInBytes else sizeInBytes
  {
    var negative := sizeInBytes < 0;
    var magnitude: nat := if negative then -sizeInBytes else sizeInBytes;
    var digits := NatToString(magnitude);
    ParseNatToString(magnitude);
    var text := IntToString(sizeInBytes);
    assert text == if negative then "-" + digits else digits;
    var s := text + " bytes";
    assert s[|s| - 6..] == " bytes";
    assert (if negative then s[1..|s| - 6] else s[..|s| - 6]) == digits;
    assert !negative ==> s[0] == digits[0] && IsDigit(digits[0]);
    s
  }
}
