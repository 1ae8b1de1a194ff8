/** The two request handlers of the course file browser page: GET shows the
    working path (a listing or a file), POST starts a delete, rename or
    upload edit. Rendering, the editors themselves and the responses after
    an edit are outside the model; a handler ends in the decision it
    makes. */
module Handlers {
  import opened Wrappers
  import opened PosixPath
  import opened CoursePaths
  import opened Listing
  import opened RenamePattern

  /** What `getPaths` reads from the request and its locals. */
  datatype PageRequest = PageRequest(
    coursePath: AbsPath,
    navPage: string,
    ids: NavIds,
    urlPrefix: string,
    requestPath: string,
    decode: string -> Option<string>)

  /** The course directory is an absolute, normalised path without a
      trailing separator, as stored for every course. */
  predicate WellFormed(req: PageRequest)
  {
    Canonical(req.coursePath) && !req.coursePath.trailingSep
  }

  function ResolvePaths(req: PageRequest): Result<Paths, PathError>
    requires WellFormed(req)
  {
    GetPaths(req.coursePath, req.navPage, req.ids, req.urlPrefix, req.requestPath, req.decode)
  }

  /** The viewer's course permissions and the course's example flag. */
  datatype Authz = Authz(
    hasCoursePermissionView: bool,
    hasCoursePermissionEdit: bool,
    exampleCourse: bool)

  function AccessOf(authz: Authz): Access
  {
    Access(authz.hasCoursePermissionEdit, authz.exampleCourse)
  }

  /* ---------------- GET ---------------- */

  /** Why a GET could not show the page. */
  datatype Fault =
    | PathFault(error: PathError)
    | FsFault(code: string)
    | NeitherFileNorDirectory(path: AbsPath)

  datatype Page =
    | DirectoryPage(paths: Paths, listing: DirListing)
    | FilePage(paths: Paths, view: FileView)

  datatype GetResponse =
    | AskForViewPermission
    | Show(page: Page)
    | RedirectTo(coursePath: string)
    | GetFailed(fault: Fault)

  /** The error code with which a missing file or directory is reported. */
  const NotFound := "ENOENT"

  /** `lstat` the working path, then list it or show it; a failure of
      `lstat`, of the listing or of the view keeps its error code. */
  function Browse(fs: Fs, paths: Paths, access: Access): (r: Result<Page, Fault>)
    ensures r.Success? ==> r.value.paths == paths
    ensures r.Failure? ==> !r.error.PathFault?
    ensures r.Failure? && r.error.NeitherFileNorDirectory? ==> fs.lstat(paths.workingPath) == Success(OtherKind)
    ensures fs.lstat(paths.workingPath) == Success(OtherKind) ==> r == Failure(NeitherFileNorDirectory(paths.workingPath))
    ensures fs.lstat(paths.workingPath).Failure? ==>
      r == Failure(FsFault(fs.lstat(paths.workingPath).error))
    ensures fs.lstat(paths.workingPath) == Success(Directory) ==>
      && (r.Success? <==> BrowseDirectory(fs, paths, access).Success?)
      && (r.Success? ==> r.value == DirectoryPage(paths, BrowseDirectory(fs, paths, access).value))
      && (r.Failure? ==> r.error == FsFault(BrowseDirectory(fs, paths, access).error))
    ensures fs.lstat(paths.workingPath) == Success(RegularFile) ==>
      && (r.Success? <==> BrowseFile(fs, paths, access).Success?)
      && (r.Success? ==> r.value == FilePage(paths, BrowseFile(fs, paths, access).value))
      && (r.Failure? ==> r.error == FsFault(BrowseFile(fs, paths, access).error))
  {
    match fs.lstat(paths.workingPath)
    case Failure(code) => Failure(FsFault(code))
    case Success(Directory) =>
      (match BrowseDirectory(fs, paths, access)
       case Failure(code) => Failure(FsFault(code))
       case Success(l) => Success(DirectoryPage(paths, l)))
    case Success(RegularFile) =>
      (match BrowseFile(fs, paths, access)
       case Failure(code) => Failure(FsFault(code))
       case Success(v) => Success(FilePage(paths, v)))
    case Success(OtherKind) => Failure(NeitherFileNorDirectory(paths.workingPath))
  }

  /** What GET answers once the paths are resolved, given the step that
      shows a resolved working path: a resolution error is reported as it
      is; otherwise the working path is shown, and a missing file or
      directory sends the viewer one breadcrumb up. */
  function Respond(resolved: Result<Paths, PathError>, browse: Paths -> Result<Page, Fault>): (r: GetResponse)
    ensures !r.AskForViewPermission?
    ensures r.Show? ==> resolved.Success? && browse(resolved.value) == Success(r.page)
    ensures r.GetFailed? ==>
      || (r.fault.PathFault? && resolved == Failure(r.fault.error))
      || (resolved.Success? && browse(resolved.value) == Failure(r.fault))
    ensures resolved.Failure? ==> r == GetFailed(PathFault(resolved.error))
  {
    match resolved
    case Failure(e) => GetFailed(PathFault(e))
    case Success(paths) =>
      match browse(paths)
      case Success(page) => Show(page)
      case Failure(fault) =>
        if fault.FsFault? && fault.code == NotFound && |paths.branch| > 1 then
          RedirectTo(paths.branch[|paths.branch| - 2].path)
        else GetFailed(fault)
  }

  /** `router.get`: without view permission the viewer is asked to obtain
      it; otherwise the paths are resolved and the response follows from
      them. A page that is shown is confined to the scope's root and kept
      out of its excluded zones. */
  function HandleGet(authz: Authz, req: PageRequest, fs: Fs): (r: GetResponse)
    requires WellFormed(req)
    ensures r.AskForViewPermission? <==> !authz.hasCoursePermissionView
    ensures r.Show? ==>
      && ResolvePaths(req) == Success(r.page.paths)
      && Contains(r.page.paths.layout.rootPath, r.page.paths.workingPath)
      && OutsideAllZones(r.page.paths.layout.invalidRootPaths, r.page.paths.workingPath)
    ensures r.GetFailed? && r.fault.PathFault? ==> ResolvePaths(req) == Failure(r.fault.error)
  {
    if !authz.hasCoursePermissionView then AskForViewPermission
    else Respond(ResolvePaths(req), p => Browse(fs, p, AccessOf(authz)))
  }

  /** A GET redirects exactly when the paths resolve, showing the working
      path fails with "ENOENT" and the breadcrumb has more than one node;
      the target is the next-to-last breadcrumb, which is the working
      path's parent directory (`CoursePaths.ParentCrumb`). */
  lemma RedirectOnlyWhenMissing(resolved: Result<Paths, PathError>, browse: Paths -> Result<Page, Fault>)
    ensures var r := Respond(resolved, browse);
      r.RedirectTo? <==>
        && resolved.Success?
        && browse(resolved.value) == Failure(FsFault(NotFound))
        && |resolved.value.branch| > 1
    ensures var r := Respond(resolved, browse);
      r.RedirectTo? ==>
        var b := resolved.value.branch;
        r.coursePath == b[|b| - 2].path
  {
  }

  /** End to end: a GET by a viewer whose working path has vanished is sent
      to the next-to-last breadcrumb, the working path's parent. */
  lemma MissingWorkingPathRedirects(authz: Authz, req: PageRequest, fs: Fs)
    requires WellFormed(req) && authz.hasCoursePermissionView
    requires ResolvePaths(req).Success?
    requires fs.lstat(ResolvePaths(req).value.workingPath) == Failure(NotFound)
    requires |ResolvePaths(req).value.branch| > 1
    ensures var b := ResolvePaths(req).value.branch;
      HandleGet(authz, req, fs) == RedirectTo(b[|b| - 2].path)
  {
  }

  /** On the example course nothing shown may be changed: no listed file
      and no viewed file may be edited, uploaded over, renamed or
      deleted. */
  lemma ExampleCourseReadOnly(fs: Fs, paths: Paths, access: Access)
    requires access.exampleCourse
    ensures var r := Browse(fs, paths, access);
      && (r.Success? && r.value.DirectoryPage? ==>
            forall f :: f in r.value.listing.files ==>
              f.FileItem? && !f.caps.canEdit && !f.caps.canUpload && !f.caps.canRename && !f.caps.canDelete)
      && (r.Success? && r.value.FilePage? ==>
            var c := r.value.view.file.caps;
            !c.canEdit && !c.canUpload && !c.canRename && !c.canDelete)
  {
    var r := Browse(fs, paths, access);
    if r.Success? && r.value.DirectoryPage? {
      assert BrowseDirectory(fs, paths, access) == Success(r.value.listing);
      forall f | f in r.value.listing.files
        ensures f.FileItem? && !f.caps.canEdit && !f.caps.canUpload && !f.caps.canRename && !f.caps.canDelete
      {
        ListedFileCapabilities(fs, paths, access, f);
      }
    }
  }

  /* ---------------- POST ---------------- */

  /** The form fields a POST may carry; a field the form leaves out is
      `None`. */
  datatype PostBody = PostBody(
    action: Option<string>,
    filePath: Option<string>,
    workingPath: Option<string>,
    oldFileName: Option<string>,
    newFileName: Option<string>)

  /** A file sent with an upload. */
  datatype UploadedFile = UploadedFile(originalName: string, contents: string)

  /** What every editor is told confines it: the scope's root and excluded
      zones. */
  datatype Container = Container(rootPath: AbsPath, invalidRootPaths: seq<AbsPath>)

  datatype Edit =
    | DeleteFile(deletePath: string)
    | RenameFile(oldPath: string, newPath: string)
    | UploadFile(filePath: string, fileContents: string)

  /** Why a POST starts no edit. */
  datatype PostFault =
    | NotAnEditor
    | PathsFailed(error: PathError)
    | InvalidFilePath
    | InvalidOldFilePath
    | NewNameMissing
    | NewNameMismatch(newName: string)
    | InvalidNewFilePath
    | NoUploadedFile
    | UnknownAction(action: Option<string>)

  /** A POST fails, sends the viewer back to the same page with nothing
      changed, or hands an edit to an editor. */
  datatype PostResponse =
    | PostFailed(fault: PostFault)
    | RedirectBack
    | StartEdit(container: Container, edit: Edit)

  const DeleteAction := "delete_file"
  const RenameAction := "rename_file"
  const UploadAction := "upload_file"

  /** `path.join(a, b)` on two form values: it throws unless both are
      strings. */
  function BodyJoin(a: Option<string>, b: Option<string>): (r: Option<string>)
    ensures r.Some? <==> a.Some? && b.Some?
  {
    if a.Some? && b.Some? then Some(PathJoin([a.value, b.value])) else None
  }

  /** A form value JavaScript treats as true: a string other than "". */
  predicate Truthy(v: Option<string>)
  {
    v.Some? && v.value != ""
  }

  /** The rename branch: build the old path, check the new name, build
      the new path; renaming to the same path changes nothing. */
  function Rename(body: PostBody, container: Container): PostResponse
  {
    match BodyJoin(body.workingPath, body.oldFileName)
    case None => PostFailed(InvalidOldFilePath)
    case Some(oldPath) =>
      if !Truthy(body.newFileName) then PostFailed(NewNameMissing)
      else if !Matches(body.newFileName.value) then PostFailed(NewNameMismatch(body.newFileName.value))
      else match BodyJoin(body.workingPath, body.newFileName)
        case None => PostFailed(InvalidNewFilePath)
        case Some(newPath) =>
          if oldPath == newPath then RedirectBack
          else StartEdit(container, RenameFile(oldPath, newPath))
  }

  /** The upload branch. Without an uploaded file the handler fails
      whichever way the target is named: reading the missing file's name or
      contents throws outside any `catch`. */
  function Upload(course: AbsPath, body: PostBody, file: Option<UploadedFile>, container: Container): PostResponse
  {
    if file.None? then PostFailed(NoUploadedFile)
    else
      var target :=
        if Truthy(body.filePath) then BodyJoin(Some(Render(course)), body.filePath)
        else BodyJoin(body.workingPath, Some(file.value.originalName));
      match target
      case None => PostFailed(InvalidFilePath)
      case Some(filePath) => StartEdit(container, UploadFile(filePath, file.value.contents))
  }

  /** What POST does once the paths are resolved: a resolution error is
      reported before the action is looked at; then the action decides the
      edit, and every edit is handed the scope's root and excluded zones as
      the container the editor must keep it in. */
  function Act(resolved: Result<Paths, PathError>, course: AbsPath, body: PostBody,
               file: Option<UploadedFile>): (r: PostResponse)
    ensures r != PostFailed(NotAnEditor)
    ensures resolved.Failure? <==> r.PostFailed? && r.fault.PathsFailed?
    ensures resolved.Failure? ==> r == PostFailed(PathsFailed(resolved.error))
    ensures r.StartEdit? ==>
      && resolved.Success?
      && r.container.rootPath == resolved.value.layout.rootPath
      && r.container.invalidRootPaths == resolved.value.layout.invalidRootPaths
  {
    match resolved
    case Failure(e) => PostFailed(PathsFailed(e))
    case Success(paths) =>
      var container := Container(paths.layout.rootPath, paths.layout.invalidRootPaths);
      if body.action == Some(DeleteAction) then
        match BodyJoin(Some(Render(course)), body.filePath)
        case None => PostFailed(InvalidFilePath)
        case Some(deletePath) => StartEdit(container, DeleteFile(deletePath))
      else if body.action == Some(RenameAction) then Rename(body, container)
      else if body.action == Some(UploadAction) then Upload(course, body, file, container)
      else PostFailed(UnknownAction(body.action))
  }

  /** `router.post`: only an editor may post; the paths are resolved
      next, and the response follows from them. */
  function HandlePost(authz: Authz, req: PageRequest, body: PostBody, file: Option<UploadedFile>): (r: PostResponse)
    requires WellFormed(req)
    ensures !authz.hasCoursePermissionEdit <==> r == PostFailed(NotAnEditor)
    ensures authz.hasCoursePermissionEdit && ResolvePaths(req).Failure? ==>
      r == PostFailed(PathsFailed(ResolvePaths(req).error))
    ensures r.StartEdit? ==>
      && authz.hasCoursePermissionEdit
      && ResolvePaths(req).Success?
      && Contains(r.container.rootPath, ResolvePaths(req).value.workingPath)
  {
    if !authz.hasCoursePermissionEdit then PostFailed(NotAnEditor)
    else Act(ResolvePaths(req), req.coursePath, body, file)
  }

  /** Any action other than the three is refused, and nothing is edited;
      it is reported only once the paths are settled. */
  lemma UnknownActionRefused(resolved: Result<Paths, PathError>, course: AbsPath, body: PostBody,
                             file: Option<UploadedFile>)
    ensures var r := Act(resolved, course, body, file);
      r.PostFailed? && r.fault.UnknownAction? <==>
        && resolved.Success?
        && body.action !in {Some(DeleteAction), Some(RenameAction), Some(UploadAction)}
  {
  }

  /** A rename checks, in this order: the old path can be built, a new
      name is given, the new name matches the pattern; a rename that is
      started names a new path different from the old one, and a new name
      that matches. */
  lemma RenameChecks(paths: Paths, course: AbsPath, body: PostBody, file: Option<UploadedFile>)
    requires body.action == Some(RenameAction)
    ensures var r := Act(Success(paths), course, body, file);
      && (body.workingPath.None? || body.oldFileName.None? ==> r == PostFailed(InvalidOldFilePath))
      && (body.workingPath.Some? && body.oldFileName.Some? && !Truthy(body.newFileName) ==>
            r == PostFailed(NewNameMissing))
      && (body.workingPath.Some? && body.oldFileName.Some? && Truthy(body.newFileName)
            && !Matches(body.newFileName.value) ==>
            r == PostFailed(NewNameMismatch(body.newFileName.value)))
      && (r.StartEdit? ==>
            && r.edit == RenameFile(PathJoin([body.workingPath.value, body.oldFileName.value]),
                                    PathJoin([body.workingPath.value, body.newFileName.value]))
            && r.edit.oldPath != r.edit.newPath
            && Matches(body.newFileName.value))
  {
  }

  /** Renaming a file to the name it has starts no edit. */
  lemma SameNameNoEdit(paths: Paths, course: AbsPath, body: PostBody, file: Option<UploadedFile>)
    requires body.action == Some(RenameAction)
    requires body.workingPath.Some? && body.oldFileName.Some?
    requires Truthy(body.newFileName) && Matches(body.newFileName.value)
    requires PathJoin([body.workingPath.value, body.oldFileName.value])
      == PathJoin([body.workingPath.value, body.newFileName.value])
    ensures Act(Success(paths), course, body, file) == RedirectBack
  {
  }

  /** Once the old path has been built, the new one always can be: the
      "invalid new file path" error is never reported. */
  lemma NewPathAlwaysBuilt(resolved: Result<Paths, PathError>, course: AbsPath, body: PostBody,
                           file: Option<UploadedFile>)
    ensures Act(resolved, course, body, file) != PostFailed(InvalidNewFilePath)
  {
  }

  /** A new name that the pattern accepts is relative and made only of
      word characters, dots and separators. */
  lemma RenamedNameShape(resolved: Result<Paths, PathError>, course: AbsPath, body: PostBody,
                         file: Option<UploadedFile>)
    requires Act(resolved, course, body, file).StartEdit?
    requires Act(resolved, course, body, file).edit.RenameFile?
    ensures body.newFileName.Some?
    ensures var n := body.newFileName.value;
      && |n| > 0 && n[0] != '/'
      && forall k :: 0 <= k < |n| ==> WordChar(n[k]) || n[k] == '.' || n[k] == '/'
  {
    AcceptedShape(body.newFileName.value);
  }

  /** An upload replaces the file the form names, inside the course, when
      it names one, and otherwise adds the uploaded file to the form's
      working directory. */
  lemma UploadTarget(paths: Paths, course: AbsPath, body: PostBody, file: Option<UploadedFile>)
    requires body.action == Some(UploadAction)
    ensures var r := Act(Success(paths), course, body, file);
      && (Truthy(body.filePath) && file.Some? ==>
            r.StartEdit? && r.edit == UploadFile(PathJoin([Render(course), body.filePath.value]), file.value.contents))
      && (!Truthy(body.filePath) && body.workingPath.Some? && file.Some? ==>
            r.StartEdit? && r.edit == UploadFile(PathJoin([body.workingPath.value, file.value.originalName]), file.value.contents))
      && (!Truthy(body.filePath) && body.workingPath.None? && file.Some? ==> r == PostFailed(InvalidFilePath))
      && (file.None? ==> r == PostFailed(NoUploadedFile))
  {
  }

  /** A delete names its file relative to the course directory, whatever the
      working directory; without a file path nothing is deleted. */
  lemma DeleteTarget(paths: Paths, course: AbsPath, body: PostBody, file: Option<UploadedFile>)
    requires body.action == Some(DeleteAction)
    ensures var r := Act(Success(paths), course, body, file);
      && (body.filePath.None? <==> r == PostFailed(InvalidFilePath))
      && (body.filePath.Some? ==>
            r.StartEdit? && r.edit == DeleteFile(PathJoin([Render(course), body.filePath.value])))
  {
  }
}
