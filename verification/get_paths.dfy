/** `getPaths` of the course file browser: the table from the browsing scope
    to its root, excluded sub-trees, unmovable manifest and special
    directories; the working path built from the request; the two
    confinement checks; and the breadcrumb `branch`. */
module CoursePaths {
  import opened Wrappers
  import opened PosixPath

  /* ---------------- scopes ---------------- */

  /** The four pages that embed the file browser. */
  datatype Scope = CourseAdmin | InstanceAdmin | AssessmentPage | QuestionPage

  /** The `navPage` value that selects each scope. */
  function NavPageName(scope: Scope): string
  {
    match scope
    case CourseAdmin => "course_admin"
    case InstanceAdmin => "instance_admin"
    case AssessmentPage => "assessment"
    case QuestionPage => "question"
  }

  /** The scope a `navPage` value selects, if any. */
  function ParseNavPage(navPage: string): (r: Option<Scope>)
    ensures r.Some? ==> NavPageName(r.value) == navPage
  {
    if navPage == "course_admin" then Some(CourseAdmin)
    else if navPage == "instance_admin" then Some(InstanceAdmin)
    else if navPage == "assessment" then Some(AssessmentPage)
    else if navPage == "question" then Some(QuestionPage)
    else None
  }

  /** Every scope is selected by its own name, so the four names are the
      only accepted `navPage` values. */
  lemma ParseNavPageName(scope: Scope)
    ensures ParseNavPage(NavPageName(scope)) == Some(scope)
  {
  }

  /** Names and ids of the course instance, assessment and question the page
      is about (only those the scope needs are read). */
  datatype NavIds = NavIds(
    courseInstanceShortName: string,
    assessmentTid: string,
    assessmentId: string,
    questionQid: string,
    questionId: string)

  /** What a scope fixes before the request path is looked at. */
  datatype Layout = Layout(
    rootPath: AbsPath,
    invalidRootPaths: seq<AbsPath>,
    cannotMove: seq<AbsPath>,
    clientDir: AbsPath,
    serverDir: AbsPath,
    testsDir: Option<AbsPath>,
    urlPrefix: string)

  predicate LayoutCanonical(l: Layout)
  {
    && Canonical(l.rootPath)
    && (forall j :: 0 <= j < |l.invalidRootPaths| ==> Canonical(l.invalidRootPaths[j]))
    && (forall j :: 0 <= j < |l.cannotMove| ==> Canonical(l.cannotMove[j]))
  }

  /** `p` is the sub-directory or file `name` directly inside `dir`. */
  predicate ChildOf(p: AbsPath, dir: AbsPath, name: string)
  {
    p == AbsPath(dir.segs + [name], false)
  }

  /** `names.map(n => path.join(dir, n))` for plain directory names. */
  function Children(dir: AbsPath, names: seq<string>): (r: seq<AbsPath>)
    requires forall k :: 0 <= k < |names| ==> ValidSegment(names[k])
    ensures |r| == |names|
    ensures forall k :: 0 <= k < |names| ==> r[k] == Join(dir, names[k]) && ChildOf(r[k], dir, names[k])
    decreases |names|
  {
    if |names| == 0 then []
    else
      JoinSegment(dir, names[0]);
      [Join(dir, names[0])] + Children(dir, names[1..])
  }

  /** The layout of a scope rooted at `root`: excluded sub-trees, manifest,
      Client and Server directories and, for questions, the Test directory,
      each a plain name joined onto the root. */
  function LayoutAt(root: AbsPath, zoneNames: seq<string>, manifest: string,
                    clientName: string, serverName: string, testsName: Option<string>,
                    urlPrefix: string): (l: Layout)
    requires Canonical(root)
    requires forall k :: 0 <= k < |zoneNames| ==> ValidSegment(zoneNames[k])
    requires ValidSegment(manifest)
    requires testsName.Some? ==> ValidSegment(testsName.value)
    ensures LayoutCanonical(l) && l.rootPath == root
    ensures |l.invalidRootPaths| == |zoneNames|
    ensures forall k :: 0 <= k < |zoneNames| ==> ChildOf(l.invalidRootPaths[k], root, zoneNames[k])
    ensures |l.cannotMove| == 1 && ChildOf(l.cannotMove[0], root, manifest)
    ensures l.testsDir.Some? <==> testsName.Some?
    ensures l.testsDir.Some? ==> ChildOf(l.testsDir.value, root, testsName.value)
  {
    JoinSegment(root, manifest);
    var tests := if testsName.None? then None else Some(Join(root, testsName.value));
    OptionalChild(root, testsName);
    Layout(root, Children(root, zoneNames), [Join(root, manifest)],
      Join(root, clientName), Join(root, serverName), tests, urlPrefix)
  }

  lemma OptionalChild(dir: AbsPath, name: Option<string>)
    requires name.Some? ==> ValidSegment(name.value)
    ensures name.Some? ==> ChildOf(Join(dir, name.value), dir, name.value)
  {
    if name.Some? {
      JoinSegment(dir, name.value);
    }
  }

  /** The scope table: where each scope is rooted and what it protects. */
  function ScopeLayout(scope: Scope, course: AbsPath, ids: NavIds, urlPrefix: string): (l: Layout)
    requires Canonical(course)
    ensures LayoutCanonical(l)
    ensures l.rootPath == ScopeRoot(scope, course, ids)
    ensures |l.invalidRootPaths| == |ExcludedNames(scope)|
    ensures forall k :: 0 <= k < |l.invalidRootPaths| ==>
      ChildOf(l.invalidRootPaths[k], l.rootPath, ExcludedNames(scope)[k])
    ensures |l.cannotMove| == 1 && ChildOf(l.cannotMove[0], l.rootPath, ManifestName(scope))
    ensures l.testsDir.Some? <==> scope == QuestionPage
    ensures l.testsDir.Some? ==> ChildOf(l.testsDir.value, l.rootPath, "tests")
  {
    LayoutAt(ScopeRoot(scope, course, ids), ExcludedNames(scope), ManifestName(scope),
      ClientDirName(scope), ServerDirName(scope), TestsDirName(scope),
      urlPrefix + ScopeUrlSuffix(scope, ids))
  }

  /** The names of each scope's Client and Server files directories. */
  function ClientDirName(scope: Scope): string
  {
    match scope
    case CourseAdmin => "clientFilesCourse"
    case InstanceAdmin => "clientFilesCourseInstance"
    case AssessmentPage => "clientFilesAssessment"
    case QuestionPage => "clientFilesQuestion"
  }

  function ServerDirName(scope: Scope): string
  {
    match scope
    case CourseAdmin => "serverFilesCourse"
    case InstanceAdmin => "serverFilesCourseInstance"
    case AssessmentPage => "serverFilesAssessment"
    case QuestionPage => "serverFilesQuestion"
  }

  /** Only a question has a Test directory. */
  function TestsDirName(scope: Scope): Option<string>
  {
    if scope == QuestionPage then Some("tests") else None
  }

  /** The page's URL below the course's URL prefix. */
  function ScopeUrlSuffix(scope: Scope, ids: NavIds): string
  {
    match scope
    case CourseAdmin => "/course_admin"
    case InstanceAdmin => "/instance_admin"
    case AssessmentPage => "/assessment/" + ids.assessmentId
    case QuestionPage => "/question/" + ids.questionId
  }

  /** The course's directories of questions and of course instances, and a
      course instance's directory of assessments. */
  const QuestionsDir := "questions"
  const InstancesDir := "courseInstances"
  const AssessmentsDir := "assessments"

  /** The names joined onto the course directory to reach each scope's root. */
  function RootNames(scope: Scope, ids: NavIds): seq<string>
  {
    match scope
    case CourseAdmin => []
    case InstanceAdmin => [InstancesDir, ids.courseInstanceShortName]
    case AssessmentPage => [InstancesDir, ids.courseInstanceShortName, AssessmentsDir, ids.assessmentTid]
    case QuestionPage => [QuestionsDir, ids.questionQid]
  }

  /** Where each scope is rooted: the course directory itself, or the
      instance, assessment or question directory joined onto it. */
  function ScopeRoot(scope: Scope, course: AbsPath, ids: NavIds): (root: AbsPath)
    requires Canonical(course)
    ensures Canonical(root)
  {
    JoinAllCanonical(course, RootNames(scope, ids));
    JoinAll(course, RootNames(scope, ids))
  }

  /** The sub-trees of each scope's root that must not be entered. */
  function ExcludedNames(scope: Scope): (names: seq<string>)
    ensures forall k :: 0 <= k < |names| ==> ValidSegment(names[k])
  {
    match scope
    case CourseAdmin => [QuestionsDir, InstancesDir]
    case InstanceAdmin => [AssessmentsDir]
    case AssessmentPage => []
    case QuestionPage => []
  }

  /** The manifest file of each scope, which may be neither renamed nor
      deleted. */
  function ManifestName(scope: Scope): (name: string)
    ensures ValidSegment(name)
  {
    match scope
    case CourseAdmin => "infoCourse.json"
    case InstanceAdmin => "infoCourseInstance.json"
    case AssessmentPage => "infoAssessment.json"
    case QuestionPage => "info.json"
  }

  /** An id naming a directory one or more levels down, such as "q1" or
      "topic/q1": every '/'-separated piece is a plain directory name. */
  predicate NestedId(id: string)
  {
    Normal(Split(id))
  }

  /** When every id names a directory below its parent directory, however
      deeply nested, each scope's root lies inside the course directory. */
  lemma RootInsideCourse(scope: Scope, course: AbsPath, ids: NavIds)
    requires Canonical(course)
    requires NestedId(ids.courseInstanceShortName)
    requires NestedId(ids.assessmentTid)
    requires NestedId(ids.questionQid)
    ensures course.segs < ScopeRoot(scope, course, ids).segs || scope == CourseAdmin
  {
    RootNamesNested(scope, ids);
    if scope != CourseAdmin {
      JoinAllBelow(course, RootNames(scope, ids));
    }
  }

  lemma RootNamesNested(scope: Scope, ids: NavIds)
    requires NestedId(ids.courseInstanceShortName)
    requires NestedId(ids.assessmentTid)
    requires NestedId(ids.questionQid)
    ensures forall i :: 0 <= i < |RootNames(scope, ids)| ==>
      ValidSegment(RootNames(scope, ids)[i]) || NestedId(RootNames(scope, ids)[i])
  {
    match scope
    case CourseAdmin =>
    case InstanceAdmin => InstancesDirValid();
    case AssessmentPage => InstancesDirValid(); AssessmentsDirValid();
    case QuestionPage => QuestionsDirValid();
  }

  lemma InstancesDirValid()
    ensures ValidSegment(InstancesDir)
  {
  }

  lemma AssessmentsDirValid()
    ensures ValidSegment(AssessmentsDir)
  {
  }

  lemma QuestionsDirValid()
    ensures ValidSegment(QuestionsDir)
  {
  }

  /** Joining nested ids only ever goes further down. */
  lemma {:induction false} JoinAllBelow(base: AbsPath, names: seq<string>)
    requires |names| > 0
    requires forall i :: 0 <= i < |names| ==> ValidSegment(names[i]) || NestedId(names[i])
    ensures base.segs < JoinAll(base, names).segs
    decreases |names|
  {
    JoinNestedBelow(base, names[0]);
    var next := Join(base, names[0]);
    if |names| > 1 {
      JoinAllBelow(next, names[1..]);
    }
  }

  /** A plain name or a nested id adds its pieces as segments. */
  lemma JoinNestedBelow(base: AbsPath, rel: string)
    requires ValidSegment(rel) || NestedId(rel)
    ensures base.segs < Join(base, rel).segs
  {
    if ValidSegment(rel) {
      SplitSlashFree(rel);
    }
    assert ValidSegment(Split(rel)[0]);
    assert Split("") == [""];
    NormalizeNormal(base.segs, Split(rel), false);
    assert (base.segs + Split(rel))[..|base.segs|] == base.segs;
  }

  /* ---------------- the resolved paths ---------------- */

  /** An upload destination offered at the root of the scope. */
  datatype SpecialDir = SpecialDir(labelText: string, path: AbsPath)

  /** One breadcrumb: a directory from the course root down to the working
      path, its course-relative path, and whether it is inside the root. */
  datatype BranchNode = BranchNode(name: string, path: string, canView: bool)

  datatype Paths = Paths(
    coursePath: AbsPath,
    layout: Layout,
    workingPath: AbsPath,
    workingPathRelativeToCourse: string,
    specialDirs: Option<seq<SpecialDir>>,
    branch: seq<BranchNode>)

  datatype PathError =
    | InvalidNavPage(navPage: string)
    | InvalidPath(requestPath: string)
    | OutsideRoot(workingPath: AbsPath, rootPath: AbsPath)
    | InsideExcludedZone(workingPath: AbsPath, excludedRoot: AbsPath)

  /** The Client, Server and (for questions) Test upload targets. */
  function SpecialDirs(l: Layout): (ds: seq<SpecialDir>)
    ensures |ds| == 2 + (if l.testsDir.Some? then 1 else 0)
    ensures ds[0] == SpecialDir("Client", l.clientDir)
    ensures ds[1] == SpecialDir("Server", l.serverDir)
    ensures l.testsDir.Some? ==> ds[2] == SpecialDir("Test", l.testsDir.value)
  {
    [SpecialDir("Client", l.clientDir), SpecialDir("Server", l.serverDir)]
    + (match l.testsDir case Some(t) => [SpecialDir("Test", t)] case None => [])
  }

  /** `p` lies in none of the excluded sub-trees. */
  predicate OutsideAllZones(zones: seq<AbsPath>, p: AbsPath)
  {
    forall j :: 0 <= j < |zones| ==> !Contains(zones[j], p)
  }

  /** `zones.find(z => contains(z, p))`, as an index. */
  function FirstContaining(zones: seq<AbsPath>, p: AbsPath): (r: Option<nat>)
    ensures r.None? <==> OutsideAllZones(zones, p)
    ensures r.Some? ==> r.value < |zones| && Contains(zones[r.value], p)
    decreases |zones|
  {
    if |zones| == 0 then None
    else if Contains(zones[0], p) then Some(0)
    else
      OutsideAllZonesCons(zones, p);
      match FirstContaining(zones[1..], p)
      case None => None
      case Some(j) => Some(j + 1)
  }

  /** A path is outside a non-empty list of zones when it is outside the
      first and outside the rest. */
  lemma OutsideAllZonesCons(zones: seq<AbsPath>, p: AbsPath)
    requires |zones| > 0
    ensures OutsideAllZones(zones, p) <==> !Contains(zones[0], p) && OutsideAllZones(zones[1..], p)
  {
    assert forall k :: 0 < k < |zones| ==> zones[k] == zones[1..][k - 1];
  }

  /** The working path: the root when the request names no path, otherwise
      the decoded request path joined onto the course directory. */
  function WorkingPath(course: AbsPath, root: AbsPath, requestPath: string,
                       decode: string -> Option<string>): (r: Option<AbsPath>)
    requires Canonical(course) && Canonical(root)
    ensures r.Some? ==> Canonical(r.value)
    ensures requestPath == "" ==> r == Some(root)
    ensures requestPath != "" ==> (r.None? <==> decode(requestPath).None?)
    ensures r.Some? && requestPath != "" ==>
      Render(r.value) == PathJoin([Render(course), decode(requestPath).value])
  {
    if requestPath == "" then Some(root)
    else match decode(requestPath)
      case None => None
      case Some(rel) =>
        JoinCanonical(course, rel);
        JoinAgreesWithPathJoin(course, rel);
        Some(Join(course, rel))
  }

  /** The directories the breadcrumb walks through after `cur`: one per
      non-empty piece, each a `join` step further down (or up, for ".."). */
  function Trail(cur: AbsPath, dirs: seq<string>): seq<AbsPath>
    decreases |dirs|
  {
    if |dirs| == 0 then []
    else if dirs[0] == "" then Trail(cur, dirs[1..])
    else
      var next := Join(cur, dirs[0]);
      [next] + Trail(next, dirs[1..])
  }

  /** The breadcrumb for directory `cur`. */
  function Crumb(course: AbsPath, root: AbsPath, cur: AbsPath): BranchNode
  {
    BranchNode(Basename(cur), Relative(course, cur), Contains(root, cur))
  }

  /** `ps.map(p => crumb(p))`. */
  function Crumbs(course: AbsPath, root: AbsPath, ps: seq<AbsPath>): (b: seq<BranchNode>)
    ensures |b| == |ps|
  {
    seq(|ps|, i requires 0 <= i < |ps| => Crumb(course, root, ps[i]))
  }

  /** The breadcrumb trail from the course directory to the working path. */
  function Branch(course: AbsPath, root: AbsPath, working: AbsPath): seq<BranchNode>
  {
    Crumbs(course, root, [course] + Trail(course, Split(Relative(course, working))))
  }

  /** The part of `getPaths` after the scope table: the working path, the
      check that it lies in the root, then the check against the excluded
      zones, the first of which to contain it is reported. */
  function ResolveIn(course: AbsPath, layout: Layout, requestPath: string,
                     decode: string -> Option<string>): (r: Result<Paths, PathError>)
    requires Canonical(course) && !course.trailingSep && LayoutCanonical(layout)
    ensures r.Success? ==>
      && r.value.coursePath == course
      && r.value.layout == layout
      && Contains(layout.rootPath, r.value.workingPath)
      && OutsideAllZones(layout.invalidRootPaths, r.value.workingPath)
      && Canonical(r.value.workingPath)
    ensures r.Failure? ==> !r.error.InvalidNavPage?
    ensures (r.Failure? && r.error.InvalidPath?) <==> (requestPath != "" && decode(requestPath).None?)
    ensures r.Success? ==> r.value.workingPathRelativeToCourse == Relative(course, r.value.workingPath)
    ensures r.Failure? && r.error.OutsideRoot? ==>
      r.error.rootPath == layout.rootPath && !Contains(layout.rootPath, r.error.workingPath)
    ensures r.Failure? && r.error.InsideExcludedZone? ==>
      r.error.excludedRoot in layout.invalidRootPaths && Contains(r.error.excludedRoot, r.error.workingPath)
    ensures r.Success? ==>
      (r.value.specialDirs.Some? <==> Render(r.value.workingPath) == Render(layout.rootPath))
    ensures r.Success? && r.value.specialDirs.Some? ==> r.value.specialDirs.value == SpecialDirs(layout)
  {
    var root := layout.rootPath;
    match WorkingPath(course, root, requestPath, decode)
    case None => Failure(InvalidPath(requestPath))
    case Some(working) =>
      if !Contains(root, working) then Failure(OutsideRoot(working, root))
      else match FirstContaining(layout.invalidRootPaths, working)
        case Some(j) => Failure(InsideExcludedZone(working, layout.invalidRootPaths[j]))
        case None =>
          Success(Paths(course, layout, working, Relative(course, working),
            if Render(working) == Render(root) then Some(SpecialDirs(layout)) else None,
            Branch(course, root, working)))
  }

  /** `getPaths`: an unknown page is refused before anything else; otherwise
      the page's scope fixes the layout and the request path is resolved in
      it. */
  function GetPaths(course: AbsPath, navPage: string, ids: NavIds, urlPrefix: string,
                    requestPath: string, decode: string -> Option<string>): (r: Result<Paths, PathError>)
    requires Canonical(course) && !course.trailingSep
    ensures ParseNavPage(navPage).None? <==> r == Failure(InvalidNavPage(navPage))
    ensures r.Success? ==>
      && LayoutCanonical(r.value.layout)
      && Contains(r.value.layout.rootPath, r.value.workingPath)
      && OutsideAllZones(r.value.layout.invalidRootPaths, r.value.workingPath)
  {
    match ParseNavPage(navPage)
    case None => Failure(InvalidNavPage(navPage))
    case Some(scope) => ResolveIn(course, ScopeLayout(scope, course, ids, urlPrefix), requestPath, decode)
  }

  /* ---------------- properties of getPaths ---------------- */

  /** A successful resolution is confined: the root's segments are a prefix
      of the working path's, and no excluded sub-tree's are. */
  lemma ResolvedPathConfined(course: AbsPath, layout: Layout, requestPath: string,
                             decode: string -> Option<string>)
    requires Canonical(course) && !course.trailingSep && LayoutCanonical(layout)
    ensures var r := ResolveIn(course, layout, requestPath, decode);
      r.Success? ==>
        && layout.rootPath.segs <= r.value.workingPath.segs
        && forall j :: 0 <= j < |layout.invalidRootPaths| ==>
             !(layout.invalidRootPaths[j].segs <= r.value.workingPath.segs)
  {
    var r := ResolveIn(course, layout, requestPath, decode);
    if r.Success? {
      var w := r.value.workingPath;
      ContainsIsPrefix(layout.rootPath, w);
      forall j | 0 <= j < |layout.invalidRootPaths|
        ensures !(layout.invalidRootPaths[j].segs <= w.segs)
      {
        ContainsIsPrefix(layout.invalidRootPaths[j], w);
      }
    }
  }

  /** Once the request path is understood, the request fails with
      `OutsideRoot` exactly when the working path leaves the root — however
      many ".." pieces the request used — whatever the excluded zones say. */
  lemma OutsideRootChecked(course: AbsPath, layout: Layout, requestPath: string,
                           decode: string -> Option<string>, w: AbsPath)
    requires Canonical(course) && !course.trailingSep && LayoutCanonical(layout)
    requires WorkingPath(course, layout.rootPath, requestPath, decode) == Some(w)
    ensures !(layout.rootPath.segs <= w.segs) <==>
      ResolveIn(course, layout, requestPath, decode) == Failure(OutsideRoot(w, layout.rootPath))
  {
    ContainsIsPrefix(layout.rootPath, w);
  }

  /** Inside the root, the request fails with `InsideExcludedZone` naming the
      first excluded sub-tree that holds the working path, and succeeds when
      there is none. */
  lemma ExcludedZoneChecked(course: AbsPath, layout: Layout, requestPath: string,
                            decode: string -> Option<string>, w: AbsPath, j: nat)
    requires Canonical(course) && !course.trailingSep && LayoutCanonical(layout)
    requires WorkingPath(course, layout.rootPath, requestPath, decode) == Some(w)
    requires layout.rootPath.segs <= w.segs
    requires j < |layout.invalidRootPaths| && layout.invalidRootPaths[j].segs <= w.segs
    requires forall i :: 0 <= i < j ==> !(layout.invalidRootPaths[i].segs <= w.segs)
    ensures ResolveIn(course, layout, requestPath, decode) == Failure(InsideExcludedZone(w, layout.invalidRootPaths[j]))
  {
    var zones := layout.invalidRootPaths;
    ContainsIsPrefix(layout.rootPath, w);
    ContainsIsPrefix(zones[j], w);
    forall i | 0 <= i < j
      ensures !Contains(zones[i], w)
    {
      ContainsIsPrefix(zones[i], w);
    }
    FirstContainingIs(zones, w, j);
  }

  lemma {:induction false} FirstContainingIs(zones: seq<AbsPath>, p: AbsPath, j: nat)
    requires j < |zones| && Contains(zones[j], p)
    requires forall i :: 0 <= i < j ==> !Contains(zones[i], p)
    ensures FirstContaining(zones, p) == Some(j)
    decreases j
  {
    if j > 0 {
      FirstContainingIs(zones[1..], p, j - 1);
    }
  }

  /** Inside the root and outside every excluded sub-tree, the request
      succeeds. */
  lemma ConfinedPathAccepted(course: AbsPath, layout: Layout, requestPath: string,
                             decode: string -> Option<string>, w: AbsPath)
    requires Canonical(course) && !course.trailingSep && LayoutCanonical(layout)
    requires WorkingPath(course, layout.rootPath, requestPath, decode) == Some(w)
    requires layout.rootPath.segs <= w.segs
    requires forall j :: 0 <= j < |layout.invalidRootPaths| ==> !(layout.invalidRootPaths[j].segs <= w.segs)
    ensures var r := ResolveIn(course, layout, requestPath, decode);
      r.Success? && r.value.workingPath == w
  {
    ContainsIsPrefix(layout.rootPath, w);
    forall j | 0 <= j < |layout.invalidRootPaths|
      ensures !Contains(layout.invalidRootPaths[j], w)
    {
      ContainsIsPrefix(layout.invalidRootPaths[j], w);
    }
  }

  /** Without a request path the working path is the root, resolution
      succeeds, and the special upload directories are offered — provided
      every excluded zone lies strictly below the root, as in every scope. */
  lemma DefaultWorkingPathIsRoot(course: AbsPath, layout: Layout, decode: string -> Option<string>)
    requires Canonical(course) && !course.trailingSep && LayoutCanonical(layout)
    requires forall j :: 0 <= j < |layout.invalidRootPaths| ==>
      |layout.rootPath.segs| < |layout.invalidRootPaths[j].segs|
    ensures var r := ResolveIn(course, layout, "", decode);
      && r.Success?
      && r.value.workingPath == layout.rootPath
      && r.value.specialDirs == Some(SpecialDirs(layout))
  {
    ConfinedPathAccepted(course, layout, "", decode, layout.rootPath);
  }

  /** In every scope the excluded zones lie strictly below the root. */
  lemma ScopeZonesBelowRoot(scope: Scope, course: AbsPath, ids: NavIds, urlPrefix: string)
    requires Canonical(course)
    ensures var l := ScopeLayout(scope, course, ids, urlPrefix);
      forall j :: 0 <= j < |l.invalidRootPaths| ==> l.rootPath.segs < l.invalidRootPaths[j].segs
  {
  }

  /** For every page, a request without a path lands on the scope's root
      and is offered the special upload directories. */
  lemma NoRequestPathLandsOnRoot(course: AbsPath, scope: Scope, ids: NavIds, urlPrefix: string,
                                 decode: string -> Option<string>)
    requires Canonical(course) && !course.trailingSep
    ensures var r := GetPaths(course, NavPageName(scope), ids, urlPrefix, "", decode);
      && r.Success?
      && r.value.workingPath == ScopeRoot(scope, course, ids)
      && r.value.specialDirs == Some(SpecialDirs(ScopeLayout(scope, course, ids, urlPrefix)))
  {
    var l := ScopeLayout(scope, course, ids, urlPrefix);
    var r := GetPaths(course, NavPageName(scope), ids, urlPrefix, "", decode);
    GetPathsInScope(course, scope, ids, urlPrefix, "", decode);
    assert r == ResolveIn(course, l, "", decode);
    ZonesLongerThanRoot(scope, course, ids, urlPrefix);
    DefaultWorkingPathIsRoot(course, l, decode);
  }

  lemma ZonesLongerThanRoot(scope: Scope, course: AbsPath, ids: NavIds, urlPrefix: string)
    requires Canonical(course)
    ensures var l := ScopeLayout(scope, course, ids, urlPrefix);
      forall j :: 0 <= j < |l.invalidRootPaths| ==> |l.rootPath.segs| < |l.invalidRootPaths[j].segs|
  {
    ScopeZonesBelowRoot(scope, course, ids, urlPrefix);
  }


  /** On a known page, `getPaths` resolves against that page's layout. */
  lemma GetPathsInScope(course: AbsPath, scope: Scope, ids: NavIds, urlPrefix: string,
                        requestPath: string, decode: string -> Option<string>)
    requires Canonical(course) && !course.trailingSep
    ensures GetPaths(course, NavPageName(scope), ids, urlPrefix, requestPath, decode)
      == ResolveIn(course, ScopeLayout(scope, course, ids, urlPrefix), requestPath, decode)
  {
    ParseNavPageName(scope);
  }

  /** The resolved paths belong to the course, and their breadcrumb runs
      from the course directory to the working path. */
  lemma ResolvedBreadcrumb(course: AbsPath, navPage: string, ids: NavIds, urlPrefix: string,
                           requestPath: string, decode: string -> Option<string>)
    requires Canonical(course) && !course.trailingSep
    ensures var r := GetPaths(course, navPage, ids, urlPrefix, requestPath, decode);
      r.Success? ==>
        && r.value.coursePath == course
        && Canonical(r.value.workingPath)
        && r.value.branch == Branch(course, r.value.layout.rootPath, r.value.workingPath)
  {
    match ParseNavPage(navPage)
    case None =>
    case Some(scope) =>
      GetPathsInScope(course, scope, ids, urlPrefix, requestPath, decode);
      ResolvedInBreadcrumb(course, ScopeLayout(scope, course, ids, urlPrefix), requestPath, decode);
  }

  lemma ResolvedInBreadcrumb(course: AbsPath, layout: Layout, requestPath: string,
                             decode: string -> Option<string>)
    requires Canonical(course) && !course.trailingSep && LayoutCanonical(layout)
    ensures var r := ResolveIn(course, layout, requestPath, decode);
      r.Success? ==> r.value.branch == Branch(course, layout.rootPath, r.value.workingPath)
  {
  }

  /** The special directories: Client and Server always, Test only for a
      question, each directly inside the root. */
  lemma SpecialDirsOfScope(scope: Scope, course: AbsPath, ids: NavIds, urlPrefix: string)
    requires Canonical(course)
    ensures var l := ScopeLayout(scope, course, ids, urlPrefix);
      var ds := SpecialDirs(l);
      && |ds| == (if scope == QuestionPage then 3 else 2)
      && ds[0].labelText == "Client" && ChildOf(ds[0].path, l.rootPath, ClientDirName(scope))
      && ds[1].labelText == "Server" && ChildOf(ds[1].path, l.rootPath, ServerDirName(scope))
      && (scope == QuestionPage ==> ds[2].labelText == "Test" && ChildOf(ds[2].path, l.rootPath, "tests"))
  {
    var root := ScopeRoot(scope, course, ids);
    DirNamesValid(scope);
    JoinSegment(root, ClientDirName(scope));
    JoinSegment(root, ServerDirName(scope));
  }

  /** Each scope's Client and Server directory names are plain names. */
  lemma DirNamesValid(scope: Scope)
    ensures ValidSegment(ClientDirName(scope)) && ValidSegment(ServerDirName(scope))
  {
    match scope
    case CourseAdmin => DirNamesValidInCourseAdmin();
    case InstanceAdmin => DirNamesValidInInstanceAdmin();
    case AssessmentPage => DirNamesValidInAssessmentPage();
    case QuestionPage => DirNamesValidInQuestionPage();
  }

  lemma DirNamesValidInCourseAdmin()
    ensures ValidSegment(ClientDirName(CourseAdmin)) && ValidSegment(ServerDirName(CourseAdmin))
  {
  }

  lemma DirNamesValidInInstanceAdmin()
    ensures ValidSegment(ClientDirName(InstanceAdmin)) && ValidSegment(ServerDirName(InstanceAdmin))
  {
  }

  lemma DirNamesValidInAssessmentPage()
    ensures ValidSegment(ClientDirName(AssessmentPage)) && ValidSegment(ServerDirName(AssessmentPage))
  {
  }

  lemma DirNamesValidInQuestionPage()
    ensures ValidSegment(ClientDirName(QuestionPage)) && ValidSegment(ServerDirName(QuestionPage))
  {
  }

  /* ---------------- properties of the breadcrumb ---------------- */

  /** Each directory of the trail after `cur` is `cur` joined with the
      pieces so far. */
  lemma {:induction false} TrailWalk(cur: AbsPath, dirs: seq<string>)
    requires forall i :: 0 <= i < |dirs| ==> dirs[i] != "" && SlashFree(dirs[i])
    ensures |Trail(cur, dirs)| == |dirs|
    ensures forall i :: 0 <= i < |dirs| ==> Trail(cur, dirs)[i] == AbsPath(Resolve(cur.segs, dirs[..i + 1]), false)
    decreases |dirs|
  {
    if |dirs| > 0 {
      var d := dirs[0];
      SplitSlashFree(d);
      assert d[|d| - 1] in d;
      var next := Join(cur, d);
      assert next == AbsPath(Resolve(cur.segs, [d]), false);
      TrailWalk(next, dirs[1..]);
      var t := Trail(cur, dirs);
      assert t == [next] + Trail(next, dirs[1..]);
      forall i | 0 <= i < |dirs|
        ensures t[i] == AbsPath(Resolve(cur.segs, dirs[..i + 1]), false)
      {
        if i == 0 {
          assert dirs[..1] == [d];
        } else {
          NormalizeConcat(cur.segs, [d], dirs[1..][..i], false);
          assert [d] + dirs[1..][..i] == dirs[..i + 1];
        }
      }
    }
  }

  /** The pieces the breadcrumb loop walks: splitting the relative text
      gives back its segments, and an empty relative text gives no step. */
  lemma TrailOfRelative(course: AbsPath, working: AbsPath)
    requires Normal(working.segs)
    ensures Trail(course, Split(Relative(course, working))) == Trail(course, RelativeSegs(course.segs, working.segs))
  {
    SplitRelative(course, working);
    if |RelativeSegs(course.segs, working.segs)| == 0 {
      assert Trail(course, [""]) == Trail(course, []);
    }
  }

  /** The breadcrumb starts at the course directory (relative path "") and
      has one more node per piece of the course-relative working path; the
      last node's path is that relative path. */
  lemma BranchShape(course: AbsPath, root: AbsPath, working: AbsPath)
    requires Canonical(course) && !course.trailingSep && Normal(working.segs)
    ensures var b := Branch(course, root, working);
      && |b| == 1 + |RelativeSegs(course.segs, working.segs)|
      && b[0] == BranchNode(Basename(course), "", Contains(root, course))
      && b[|b| - 1].path == Relative(course, working)
  {
    var rs := RelativeSegs(course.segs, working.segs);
    var ps := [course] + Trail(course, rs);
    BranchOfRelative(course, root, working);
    WalkLength(course, working);
    CourseCrumb(course, root);
    CrumbPath(course, root, ps, |ps| - 1);
    if |rs| > 0 {
      WalkEndsAtWorking(course, working);
      assert ps[|ps| - 1] == Trail(course, rs)[|rs| - 1];
    } else {
      assert Relative(course, working) == JoinStr([]);
      assert Relative(course, course) == JoinStr(RelativeSegs(course.segs, course.segs));
      PrefixCommonLength(course.segs, course.segs);
    }
  }

  /** The breadcrumb is the crumbs of the course directory followed by the
      walk along the course-relative segments of the working path. */
  lemma BranchOfRelative(course: AbsPath, root: AbsPath, working: AbsPath)
    requires Normal(working.segs)
    ensures Branch(course, root, working)
      == Crumbs(course, root, [course] + Trail(course, RelativeSegs(course.segs, working.segs)))
  {
    TrailOfRelative(course, working);
  }

  /** The course directory's own crumb has the empty relative path. */
  lemma CourseCrumb(course: AbsPath, root: AbsPath)
    requires Canonical(course)
    ensures Crumb(course, root, course) == BranchNode(Basename(course), "", Contains(root, course))
  {
    PrefixCommonLength(course.segs, course.segs);
    assert RelativeSegs(course.segs, course.segs) == [];
  }

  /** The walk along the relative segments takes one step per segment. */
  lemma WalkLength(course: AbsPath, working: AbsPath)
    requires Normal(working.segs)
    ensures |Trail(course, RelativeSegs(course.segs, working.segs))| == |RelativeSegs(course.segs, working.segs)|
  {
    RelativeSegsSlashFree(course.segs, working.segs);
    TrailWalk(course, RelativeSegs(course.segs, working.segs));
  }

  /** The walk along the relative segments ends at the working path. */
  lemma WalkEndsAtWorking(course: AbsPath, working: AbsPath)
    requires Canonical(course) && !course.trailingSep && Normal(working.segs)
    requires |RelativeSegs(course.segs, working.segs)| > 0
    ensures var rs := RelativeSegs(course.segs, working.segs);
      && |Trail(course, rs)| == |rs|
      && Trail(course, rs)[|rs| - 1].segs == working.segs
  {
    var rs := RelativeSegs(course.segs, working.segs);
    RelativeSegsSlashFree(course.segs, working.segs);
    TrailWalk(course, rs);
    assert rs[..|rs|] == rs;
    ResolveRelativeSegs(course.segs, working.segs);
  }

  /** Down a normalised path, each directory of the trail after `cur` is
      one segment deeper. */
  lemma {:induction false} TrailDescends(cur: AbsPath, dirs: seq<string>)
    requires Normal(cur.segs + dirs)
    ensures |Trail(cur, dirs)| == |dirs|
    ensures forall i :: 0 <= i < |dirs| ==>
      Trail(cur, dirs)[i] == AbsPath((cur.segs + dirs)[..|cur.segs| + i + 1], false)
    decreases |dirs|
  {
    if |dirs| > 0 {
      var d := dirs[0];
      assert d == (cur.segs + dirs)[|cur.segs|];
      JoinSegment(cur, d);
      var next := Join(cur, d);
      assert next.segs + dirs[1..] == cur.segs + dirs;
      TrailDescends(next, dirs[1..]);
      var t := Trail(cur, dirs);
      assert t == [next] + Trail(next, dirs[1..]);
      assert next.segs == (cur.segs + dirs)[..|cur.segs| + 1];
      forall i | 0 < i < |dirs|
        ensures t[i] == AbsPath((cur.segs + dirs)[..|cur.segs| + i + 1], false)
      {
        assert t[i] == Trail(next, dirs[1..])[i - 1];
      }
    }
  }

  /** Inside the course, the trail from the course directory passes through
      the working path cut to every depth from the course's down. */
  lemma TrailWithinCourse(course: AbsPath, working: AbsPath)
    requires Canonical(course) && !course.trailingSep && Normal(working.segs)
    requires course.segs <= working.segs
    ensures var ps := [course] + Trail(course, working.segs[|course.segs|..]);
      && |ps| == |working.segs| - |course.segs| + 1
      && forall i :: 0 <= i < |ps| ==> ps[i] == AbsPath(working.segs[..|course.segs| + i], false)
  {
    var c := |course.segs|;
    var rs := working.segs[c..];
    assert course.segs + rs == working.segs;
    TrailDescends(course, rs);
    assert course.segs == working.segs[..c];
  }

  /** Inside the course, the breadcrumb loop walks the working path's
      segments below the course directory. */
  lemma BranchDirsWithinCourse(course: AbsPath, root: AbsPath, working: AbsPath)
    requires Normal(working.segs) && course.segs <= working.segs
    ensures Branch(course, root, working) == Crumbs(course, root, [course] + Trail(course, working.segs[|course.segs|..]))
  {
    TrailOfRelative(course, working);
    PrefixCommonLength(course.segs, working.segs);
    assert RelativeSegs(course.segs, working.segs) == working.segs[|course.segs|..];
  }

  /** The path `p` cut to each depth from `depth` down to its full length. */
  function Cuts(p: AbsPath, depth: nat): (ps: seq<AbsPath>)
    requires depth <= |p.segs|
    ensures |ps| == |p.segs| - depth + 1
    ensures forall i :: 0 <= i < |ps| ==> ps[i] == AbsPath(p.segs[..depth + i], false)
  {
    seq(|p.segs| - depth + 1, i requires 0 <= i < |p.segs| - depth + 1 => AbsPath(p.segs[..depth + i], false))
  }

  /** Inside the course, node `i` of the breadcrumb is the crumb of the
      working path cut to the course's depth plus `i` segments. */
  lemma BranchWithinCourse(course: AbsPath, root: AbsPath, working: AbsPath)
    requires Canonical(course) && !course.trailingSep && Normal(working.segs)
    requires course.segs <= working.segs
    ensures Branch(course, root, working) == Crumbs(course, root, Cuts(working, |course.segs|))
  {
    BranchDirsWithinCourse(course, root, working);
    TrailWithinCourse(course, working);
    assert [course] + Trail(course, working.segs[|course.segs|..]) == Cuts(working, |course.segs|);
  }

  /** `canView` is false on the breadcrumbs strictly above the root and true
      from the root down. */
  lemma BranchCanView(course: AbsPath, root: AbsPath, working: AbsPath, i: nat)
    requires Canonical(course) && !course.trailingSep && Normal(root.segs) && Normal(working.segs)
    requires course.segs <= root.segs <= working.segs
    requires i <= |working.segs| - |course.segs|
    ensures var b := Branch(course, root, working);
      i < |b| && (b[i].canView <==> i >= |root.segs| - |course.segs|)
  {
    BranchWithinCourse(course, root, working);
    var ps := Cuts(working, |course.segs|);
    CrumbCanView(course, root, ps, i);
    CutInsideRoot(root, working, |course.segs|, i);
  }

  lemma CrumbPath(course: AbsPath, root: AbsPath, ps: seq<AbsPath>, i: nat)
    requires i < |ps|
    ensures Crumbs(course, root, ps)[i].path == Relative(course, ps[i])
  {
  }

  lemma CrumbCanView(course: AbsPath, root: AbsPath, ps: seq<AbsPath>, i: nat)
    requires i < |ps|
    ensures Crumbs(course, root, ps)[i].canView == Contains(root, ps[i])
  {
  }

  /** A cut of a path inside `root` is inside `root` exactly when it is at
      least as deep. */
  lemma CutInsideRoot(root: AbsPath, working: AbsPath, depth: nat, i: nat)
    requires Normal(root.segs) && Normal(working.segs)
    requires root.segs <= working.segs && depth + i <= |working.segs|
    ensures Contains(root, Cuts(working, depth)[i]) <==> depth + i >= |root.segs|
  {
    var p := AbsPath(working.segs[..depth + i], false);
    assert Cuts(working, depth)[i] == p;
    assert Normal(p.segs);
    ContainsIsPrefix(root, p);
    PrefixOfCut(root.segs, working.segs, depth + i);
  }

  /** A prefix of `s` is a prefix of `s` cut at `n` exactly when it is no
      longer than `n`. */
  lemma PrefixOfCut(r: seq<string>, s: seq<string>, n: nat)
    requires r <= s && n <= |s|
    ensures r <= s[..n] <==> n >= |r|
  {
    if n >= |r| {
      assert r == s[..|r|] == s[..n][..|r|];
    }
  }


  /** Node `i` of the breadcrumb names the working path cut to the course's
      depth plus `i` segments, relative to the course directory. */
  lemma BranchPathAt(course: AbsPath, root: AbsPath, working: AbsPath, i: nat)
    requires Canonical(course) && !course.trailingSep && Normal(working.segs)
    requires course.segs <= working.segs && i <= |working.segs| - |course.segs|
    ensures var b := Branch(course, root, working);
      && |b| == |working.segs| - |course.segs| + 1
      && b[i].path == Relative(course, Cuts(working, |course.segs|)[i])
  {
    BranchWithinCourse(course, root, working);
    CrumbPath(course, root, Cuts(working, |course.segs|), i);
  }

  /** The next-to-last breadcrumb of a working path below the course
      directory names its parent directory, relative to the course. */
  lemma ParentCrumb(course: AbsPath, root: AbsPath, working: AbsPath)
    requires Canonical(course) && !course.trailingSep && Normal(working.segs)
    requires course.segs < working.segs
    ensures var b := Branch(course, root, working);
      && |b| > 1
      && b[|b| - 2].path == Relative(course, AbsPath(working.segs[..|working.segs| - 1], false))
  {
    var i := |working.segs| - |course.segs| - 1;
    assert |course.segs| + i == |working.segs| - 1;
    BranchPathAt(course, root, working, i);
    assert Cuts(working, |course.segs|)[i] == AbsPath(working.segs[..|working.segs| - 1], false);
  }
}
