# Course file browser: path confinement and capabilities

This project models the core of the instructor file browser page of a
learning-management system: the page that lets course staff browse, view,
rename, delete and upload the files of a course repository. The model
covers the parts that decide *where* a request may look and *what* it may
do there:

- `getPaths`: the scope table (course, course instance, assessment,
  question) with each scope's root, excluded zones, unmovable manifest
  and special upload directories; the working path built from the request;
  the check that it lies in the root, then the check that it lies in no
  excluded zone; and the breadcrumb from the course directory down to it.
- `contains`, the confinement test built on `path.relative`, with Node's
  POSIX `path.join`, `path.normalize` and `path.relative` modelled on
  segments (`PosixPath`), and string-level `path.join` for form values.
- `browseDirectory`: sorted, numbered, dot-names dropped, each entry
  `lstat`ed and turned into a file row (with its capabilities) or a
  directory row, other kinds dropped.
- `browseFile`: binary / image / PDF / text classification and the 1 MiB
  text limit.
- The GET handler (view permission, the page, the redirect one breadcrumb
  up when the working path is missing) and the POST handler (edit
  permission, delete / rename / upload, the rename name pattern, the
  same-name short-circuit, the unknown-action error).

The file system, the MIME sniffer, `isBinaryFile` and the request path
decoder are parameters (`Listing.Fs`, `decode`); each handler ends in the
decision it makes (`Handlers.GetResponse`, `Handlers.PostResponse`).

Modules: `Wrappers` (Option/Result), `PosixPath`, `CoursePaths`
(`getPaths`), `NameOrder` (`Array.prototype.sort` on names), `Listing`
(`browseDirectory`, `browseFile`, capabilities), `RenamePattern` (the new
file name pattern), `Handlers` (GET and POST).

## Model

| member | source | states |
|---|---|---|
| PosixPath.JoinSplit | pages/instructorFileBrowser/instructorFileBrowser.js:22 | joining the pieces of `split('/')` back with '/' gives the text split |
| PosixPath.SplitJoin | pages/instructorFileBrowser/instructorFileBrowser.js:157-159 | splitting the join of pieces that hold no '/' gives back exactly those pieces |
| PosixPath.JoinCanonical | pages/instructorFileBrowser/instructorFileBrowser.js:83 | `path.join` onto an absolute normalised directory gives an absolute normalised path, whatever the relative text |
| PosixPath.JoinAgreesWithPathJoin | pages/instructorFileBrowser/instructorFileBrowser.js:83 | the segment model of joining agrees with string-level `path.join` of the directory's text and the relative text |
| PosixPath.RenderInjective | pages/instructorFileBrowser/instructorFileBrowser.js:92 | two canonical paths with the same text are the same path, so `===` on path strings is equality of paths |
| PosixPath.ContainsIsPrefix | pages/instructorFileBrowser/instructorFileBrowser.js:20-23 | on normalised paths `contains(parent, child)` holds exactly when the parent's segments are a prefix of the child's |
| PosixPath.ContainsReflexive | pages/instructorFileBrowser/instructorFileBrowser.js:20-23 | every normalised path contains itself |
| PosixPath.SiblingNotContained | pages/instructorFileBrowser/instructorFileBrowser.js:20-23 | "/course2" is not inside "/course", although its text starts with it |
| PosixPath.ResolveRelativeSegs | pages/instructorFileBrowser/instructorFileBrowser.js:21 | resolving the segments of `path.relative(from, to)` from `from` arrives at `to` |
| PosixPath.JoinRelative | pages/instructorFileBrowser/instructorFileBrowser.js:90 | joining `path.relative(from, to)` onto `from` gives back the segments of `to` |
| PosixPath.SplitRelative | pages/instructorFileBrowser/instructorFileBrowser.js:157-159 | splitting the relative text gives its segments, or `[""]` when it is empty |
| CoursePaths.ParseNavPage | pages/instructorFileBrowser/instructorFileBrowser.js:35-79 | a `navPage` selects a scope only if it is that scope's name |
| CoursePaths.ParseNavPageName | pages/instructorFileBrowser/instructorFileBrowser.js:35-79 | each of the four scope names selects its own scope |
| CoursePaths.ScopeLayout | pages/instructorFileBrowser/instructorFileBrowser.js:35-76 | a scope's layout is canonical; its root is the scope's directory; each excluded zone is the named child of the root; the one unmovable file is the scope's manifest in the root; a tests directory exists exactly for questions |
| CoursePaths.RootInsideCourse | pages/instructorFileBrowser/instructorFileBrowser.js:36-70 | with ids whose '/'-separated pieces are all plain directory names (so nested question ids such as "topic/q1" too), every scope's root lies strictly below the course directory, except the course scope, whose root is the course |
| CoursePaths.ScopeZonesBelowRoot | pages/instructorFileBrowser/instructorFileBrowser.js:37-71 | every excluded zone lies strictly below its scope's root |
| CoursePaths.SpecialDirs | pages/instructorFileBrowser/instructorFileBrowser.js:92-121 | the special directories are Client and Server, then Test when there is a tests directory |
| CoursePaths.SpecialDirsOfScope | pages/instructorFileBrowser/instructorFileBrowser.js:37-121 | questions get three special directories, the last being Test in `tests`; the other scopes get Client and Server only; Client and Server are the scope's own `clientFiles…` and `serverFiles…` directories directly inside its root |
| CoursePaths.FirstContaining | pages/instructorFileBrowser/instructorFileBrowser.js:134-136 | `find` reports no zone exactly when the path lies in none, and a zone it reports contains the path |
| CoursePaths.FirstContainingIs | pages/instructorFileBrowser/instructorFileBrowser.js:134-136 | `find` reports the first zone, in order, that contains the path |
| CoursePaths.WorkingPath | pages/instructorFileBrowser/instructorFileBrowser.js:81-89 | the working path is canonical, and is the root when the request names no path; otherwise it is missing exactly when the request path cannot be decoded, and its text is `path.join` of the course directory and the decoded path |
| CoursePaths.ResolveIn | pages/instructorFileBrowser/instructorFileBrowser.js:81-172 | the invalid-path error is reported exactly when a non-empty request path cannot be decoded; a resolution that succeeds is inside the root and outside every zone, with the working path relative to the course as `path.relative(course, working)`; an outside-root error names the root and a path outside it; a zone error names a listed zone containing the path; special directories are offered exactly on the root |
| CoursePaths.GetPaths | pages/instructorFileBrowser/instructorFileBrowser.js:29-173 | an unknown `navPage` is refused exactly then, and before anything else; success is confined to the root and outside every zone |
| CoursePaths.GetPathsInScope | pages/instructorFileBrowser/instructorFileBrowser.js:35-79 | on a known page the path is resolved in that page's layout |
| CoursePaths.ResolvedPathConfined | pages/instructorFileBrowser/instructorFileBrowser.js:123-146 | after success, the root's segments are a prefix of the working path's and no zone's are |
| CoursePaths.OutsideRootChecked | pages/instructorFileBrowser/instructorFileBrowser.js:123-132 | the outside-root error is reported exactly when the working path is not below the root, whatever the zones |
| CoursePaths.ExcludedZoneChecked | pages/instructorFileBrowser/instructorFileBrowser.js:134-146 | a path inside the root and inside zones is refused naming the first such zone |
| CoursePaths.ConfinedPathAccepted | pages/instructorFileBrowser/instructorFileBrowser.js:123-172 | a path inside the root and outside every zone is accepted as the working path |
| CoursePaths.DefaultWorkingPathIsRoot | pages/instructorFileBrowser/instructorFileBrowser.js:87-121 | with the zones below the root, no request path resolves to the root and offers the special directories |
| CoursePaths.NoRequestPathLandsOnRoot | pages/instructorFileBrowser/instructorFileBrowser.js:81-121 | on every page, a request without a path lands on the scope's root with its special directories |
| CoursePaths.ResolvedBreadcrumb | pages/instructorFileBrowser/instructorFileBrowser.js:148-172 | resolved paths keep the course directory, a canonical working path, and the breadcrumb from the course to it |
| CoursePaths.TrailWalk | pages/instructorFileBrowser/instructorFileBrowser.js:157-170 | the breadcrumb loop visits one directory per non-empty piece, each the start resolved through the pieces so far |
| CoursePaths.BranchShape | pages/instructorFileBrowser/instructorFileBrowser.js:148-170 | the breadcrumb starts at the course directory with path "", has one more node per relative segment, and ends at the working path's course-relative path |
| CoursePaths.TrailWithinCourse | pages/instructorFileBrowser/instructorFileBrowser.js:157-170 | below the course directory the loop passes through the working path cut at each depth |
| CoursePaths.BranchWithinCourse | pages/instructorFileBrowser/instructorFileBrowser.js:148-170 | below the course directory the breadcrumb is the crumbs of the working path's cuts |
| CoursePaths.BranchCanView | pages/instructorFileBrowser/instructorFileBrowser.js:153-166 | a breadcrumb node may be viewed exactly when it is at or below the root |
| CoursePaths.BranchPathAt | pages/instructorFileBrowser/instructorFileBrowser.js:152-165 | node i of the breadcrumb names the working path cut i levels below the course, relative to the course |
| CoursePaths.ParentCrumb | pages/instructorFileBrowser/instructorFileBrowser.js:148-170 | for a working path below the course, the next-to-last breadcrumb names its parent directory |
| NameOrder.NameLeTotal | pages/instructorFileBrowser/instructorFileBrowser.js:188 | any two names are ordered one way or the other |
| NameOrder.NameLeTransitive | pages/instructorFileBrowser/instructorFileBrowser.js:188 | the name order is transitive |
| NameOrder.NameLeAntisymmetric | pages/instructorFileBrowser/instructorFileBrowser.js:188 | names ordered both ways are equal |
| NameOrder.SortSortsAndPermutes | pages/instructorFileBrowser/instructorFileBrowser.js:188 | `sort()` returns the same names, as a multiset, in order |
| NameOrder.SortedPermutationUnique | pages/instructorFileBrowser/instructorFileBrowser.js:188 | two sorted arrangements of the same names are equal, so the sorted list is fully determined |
| Listing.FileCaps | pages/instructorFileBrowser/instructorFileBrowser.js:211-227 | download is always allowed; upload exactly when the viewer may edit a course that is not the example course; edit exactly when, further, the file is editable; rename and delete agree, and hold exactly when, further, the file is movable; view follows the path's view test alone |
| Listing.UnhiddenExactly | pages/instructorFileBrowser/instructorFileBrowser.js:25-190 | `isHidden` (lines 25-27) holds exactly for names starting with '.', and the filter at line 190 keeps exactly the entries whose name does not start with '.' |
| Listing.NumberedIncreasing | pages/instructorFileBrowser/instructorFileBrowser.js:189 | numbering gives increasing ids |
| Listing.RowOf | pages/instructorFileBrowser/instructorFileBrowser.js:192-247 | inspecting an entry fails exactly when its `lstat` fails or, for a regular file, the binary sniffer or the sync data lookup fails; a row carries the entry's id, name and course-relative path; it is a file row exactly for a regular file, a directory row exactly for a directory, and nothing for other kinds; a directory row may be viewed exactly when no excluded zone contains it |
| Listing.InspectAll | pages/instructorFileBrowser/instructorFileBrowser.js:186-249 | inspecting the entries succeeds exactly when every entry's inspection does, and then gives each entry's own slot in order; a failure is some entry's error |
| Listing.ListingRowsAreVisibleEntries | pages/instructorFileBrowser/instructorFileBrowser.js:175-259 | every listed row is a non-hidden name of the directory at its sorted position, of the kind its list says, with its course-relative path; a listed directory may be viewed exactly when no excluded zone contains it |
| Listing.ListingComplete | pages/instructorFileBrowser/instructorFileBrowser.js:175-259 | every non-hidden regular file and directory is listed under its sorted index; other kinds are not listed |
| Listing.NotListed | pages/instructorFileBrowser/instructorFileBrowser.js:245-251 | an entry that is neither file nor directory appears in neither list |
| Listing.ListingFails | pages/instructorFileBrowser/instructorFileBrowser.js:179-201 | listing fails exactly when `readdir` fails or inspecting some non-hidden entry fails (its `lstat`, or for a regular file the binary sniffer or the sync data lookup) |
| Listing.ListingOrderedAndDisjoint | pages/instructorFileBrowser/instructorFileBrowser.js:250-251 | files and directories are each in increasing id order, and no id is in both |
| Listing.ListedFileCapabilities | pages/instructorFileBrowser/instructorFileBrowser.js:193-227 | each listed file's capabilities follow from its binary test, the unmovable list, the zones, the edit permission and the example flag |
| Listing.EntryTestsAreStructural | pages/instructorFileBrowser/instructorFileBrowser.js:193-227 | for a plain name, the entry path is one segment below the directory, the `includes` test is membership, and `canView` is "no zone is a prefix" |
| Listing.BrowseFile | pages/instructorFileBrowser/instructorFileBrowser.js:261-345 | a viewed file is binary or text, never both; image and PDF exclude each other and are binary; contents exist exactly for text; the file row has id 0, the file's name and course-relative path; it may be uploaded over exactly when the viewer may edit a course that is not the example course, edited exactly when further it is text, renamed and deleted exactly when further it is not the scope's manifest, and viewed exactly when no excluded zone contains it |
| Listing.LargeFileNotRead | pages/instructorFileBrowser/instructorFileBrowser.js:277-283 | a non-binary file over 1 MiB is not read, is shown as binary without contents, and is not editable |
| Listing.TextShownExactly | pages/instructorFileBrowser/instructorFileBrowser.js:276-288 | a file is shown as text exactly when it is not binary, at most 1 MiB and readable, and then its contents are what was read |
| Listing.BinaryClassified | pages/instructorFileBrowser/instructorFileBrowser.js:265-275 | showing a binary file fails exactly when detecting its type fails; otherwise it is an image exactly when its MIME type starts with "image", and a PDF exactly when it is "application/pdf" |
| Listing.FileFails | pages/instructorFileBrowser/instructorFileBrowser.js:263-290 | showing a file fails exactly when the binary sniffer fails, when detecting a binary file's type fails, or, for any other file, when its size cannot be read or, being within 1 MiB, its contents cannot |
| RenamePattern.MatchesExactly | pages/instructorFileBrowser/instructorFileBrowser.js:471 | the piece-by-piece test accepts exactly the names spelled by the pattern: words or ".." joined by '/', with an optional extension |
| RenamePattern.AcceptedShape | pages/instructorFileBrowser/instructorFileBrowser.js:471 | an accepted name is non-empty, does not start with '/', and uses only `[-A-Za-z0-9_./]` |
| RenamePattern.RejectsEmpty | pages/instructorFileBrowser/instructorFileBrowser.js:471 | the empty name does not match |
| RenamePattern.AdmitsParentEscape | pages/instructorFileBrowser/instructorFileBrowser.js:471 | the pattern accepts "../../etc/passwd": it does not by itself keep a rename inside the working directory |
| RenamePattern.RejectsInnerExtension | pages/instructorFileBrowser/instructorFileBrowser.js:471 | a dot inside a piece other than the last is refused |
| Handlers.Browse | pages/instructorFileBrowser/instructorFileBrowser.js:376-400 | an `lstat` failure is passed on with its code; a directory is shown exactly when `browseDirectory` succeeds, as that listing, and its failure keeps its code; a regular file likewise with `browseFile`; "neither file nor directory" is reported exactly for other kinds; a page shown is for the resolved paths |
| Handlers.Respond | pages/instructorFileBrowser/instructorFileBrowser.js:364-411 | a path error is reported as it is; a page is shown only as the browse step produced it; other failures are the browse step's |
| Handlers.HandleGet | pages/instructorFileBrowser/instructorFileBrowser.js:347-416 | the viewer is asked for permission exactly when they lack view permission; a shown page is for the resolved paths, inside the root and outside every zone |
| Handlers.RedirectOnlyWhenMissing | pages/instructorFileBrowser/instructorFileBrowser.js:403-410 | GET redirects exactly when showing the working path fails with ENOENT and the breadcrumb has more than one node, and then to the next-to-last breadcrumb |
| Handlers.MissingWorkingPathRedirects | pages/instructorFileBrowser/instructorFileBrowser.js:376-410 | end to end: a viewer's GET whose resolved working path `lstat` reports missing, with more than one breadcrumb, is redirected to the next-to-last breadcrumb |
| Handlers.ExampleCourseReadOnly | pages/instructorFileBrowser/instructorFileBrowser.js:211-224 | on the example course no listed or viewed file may be edited, uploaded over, renamed or deleted |
| Handlers.BodyJoin | pages/instructorFileBrowser/instructorFileBrowser.js:460-466 | joining form values succeeds exactly when both are present |
| Handlers.Act | pages/instructorFileBrowser/instructorFileBrowser.js:424-561 | a path error is reported exactly when resolution fails, before the action is read; every edit carries the scope's root and zones as its container |
| Handlers.HandlePost | pages/instructorFileBrowser/instructorFileBrowser.js:418-562 | only an editor may post, and a non-editor gets exactly that refusal; path errors come next; an edit starts only for resolved, confined paths |
| Handlers.UnknownActionRefused | pages/instructorFileBrowser/instructorFileBrowser.js:558-560 | an action is refused as unknown exactly when the paths resolve and it is none of delete, rename, upload |
| Handlers.RenameChecks | pages/instructorFileBrowser/instructorFileBrowser.js:457-517 | rename checks the old path, then a missing name, then the pattern; a started rename joins both names onto the working path, they differ, and the new name matches |
| Handlers.SameNameNoEdit | pages/instructorFileBrowser/instructorFileBrowser.js:489-491 | renaming to the same joined path starts no edit and sends the viewer back |
| Handlers.NewPathAlwaysBuilt | pages/instructorFileBrowser/instructorFileBrowser.js:481-488 | the "invalid new file path" error can never be reported |
| Handlers.RenamedNameShape | pages/instructorFileBrowser/instructorFileBrowser.js:467-480 | a rename that starts has a non-empty, relative new name of word characters, dots and separators |
| Handlers.DeleteTarget | pages/instructorFileBrowser/instructorFileBrowser.js:434-441 | a delete names its file relative to the course directory, not the working directory; it is refused exactly when no file path is given |
| Handlers.UploadTarget | pages/instructorFileBrowser/instructorFileBrowser.js:518-543 | an upload replaces the course file named by `file_path` when given, otherwise adds the uploaded file to `working_path`; without a working path it is refused; without a file it fails |

## Left out

- Express routing, rendering of the page, the 403 page with the course owners, and the HTML `info` text of the errors: the handlers end in the decision they make.
- The file system, `isBinaryFile`, `FileType.fromFile`, the sync data lookup and reading a file are parameters (`Listing.Fs`). Each may fail, and its failure fails the listing or the file view as it does in the program; nothing is read or written.
- Syntax highlighting (`highlight.js`, the language guess), `AnsiUp`, and the text of the sync errors and warnings from `editorUtil`: they only decorate rows and contents. Only whether the sync data lookup fails is modelled.
- `encodePath` and `decodePath`: decoding the request path is a parameter that may fail; the `encoded*` fields, the rows' `dir` field and `path.dirname` are not modelled.
- The editors (`FileDeleteEditor`, `FileRenameEditor`, `FileUploadEditor`): their `shouldEdit`, `canEdit` and `doEdit` checks, the job sequence, and the redirects after an edit, including the `was_viewing_file` one. A POST ends in the edit it hands over, with its container.
- `async.mapLimit` inspects three entries at a time. When several entries fail, the model reports the first failure in sorted order; the program reports whichever finishes first.
- NameOrder.Sort: orders names by character code point; JavaScript's `sort()` compares UTF-16 code units, which differ only for characters outside the Basic Multilingual Plane.
- Handlers.WellFormed: the course directory is taken to be an absolute, normalised path without a trailing separator, as course paths are stored; the program does not check this.
- Form values other than strings (arrays from repeated fields) are not modelled; a form value is a string or absent.
- CoursePaths.NoRequestPathLandsOnRoot: stated for the four known pages; an unknown page is refused by `CoursePaths.GetPaths` before any path is read.
- The course owners lookup, the logger and the debug output.
- The listing's `canEdit` uses only `isBinaryFile`, so a text file over 1 MiB is listed as editable although viewing it treats it as binary; the model keeps this as the program has it.
