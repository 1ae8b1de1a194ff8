/** `browseDirectory` and `browseFile` of the course file browser: what a
    directory listing shows and what each entry may be used for, and how a
    single file is classified for display. */
module Listing {
  import opened Wrappers
  import opened PosixPath
  import opened CoursePaths
  import opened NameOrder

  /* ---------------- the file system and the viewer ---------------- */

  /** What `lstat` reports an entry to be; symbolic links, sockets and the
      like are `OtherKind`. */
  datatype EntryKind = RegularFile | Directory | OtherKind

  /** The file system as one request sees it. Every query can fail, with a
      Node error code such as "ENOENT". `isBinary` is the binary-content
      sniffer, `fileType` the MIME type detected from a file's contents (none
      when unrecognised), and `syncData` the lookup of a file's sync errors
      and warnings by its course-relative path, of which only failure
      matters here. */
  datatype Fs = Fs(
    lstat: AbsPath -> Result<EntryKind, string>,
    readdir: AbsPath -> Result<seq<string>, string>,
    isBinary: AbsPath -> Result<bool, string>,
    fileType: AbsPath -> Result<Option<string>, string>,
    size: AbsPath -> Result<nat, string>,
    readText: AbsPath -> Result<string, string>,
    syncData: string -> Result<(), string>)

  /** The viewer's right to edit the course, and whether the course is the
      read-only example course. */
  datatype Access = Access(hasCoursePermissionEdit: bool, exampleCourse: bool)

  /** What the page offers to do with a file. */
  datatype Caps = Caps(
    canEdit: bool,
    canUpload: bool,
    canDownload: bool,
    canRename: bool,
    canDelete: bool,
    canView: bool)

  /** The capabilities of a file that is `editable` (text), `movable` (not
      a scope's manifest) and `viewable` (outside every excluded zone). */
  function FileCaps(editable: bool, movable: bool, viewable: bool, access: Access): (c: Caps)
    ensures c.canDownload
    ensures c.canUpload <==> access.hasCoursePermissionEdit && !access.exampleCourse
    ensures c.canEdit <==> editable && c.canUpload
    ensures c.canRename == c.canDelete
    ensures c.canRename <==> movable && c.canUpload
    ensures access.exampleCourse || !access.hasCoursePermissionEdit ==>
      !c.canEdit && !c.canUpload && !c.canRename && !c.canDelete
    ensures c.canView == viewable
  {
    var mutable := access.hasCoursePermissionEdit && !access.exampleCourse;
    Caps(editable && mutable, mutable, true, movable && mutable, movable && mutable, viewable)
  }

  /** `!cannotMove.includes(filepath)`: compared as text. */
  predicate Movable(l: Layout, p: AbsPath)
  {
    forall k :: 0 <= k < |l.cannotMove| ==> Render(l.cannotMove[k]) != Render(p)
  }

  /** `!invalidRootPaths.some(z => contains(z, filepath))`. */
  predicate Viewable(l: Layout, p: AbsPath)
  {
    OutsideAllZones(l.invalidRootPaths, p)
  }

  /* ---------------- browseDirectory ---------------- */

  /** One row of a listing. `id` is the entry's position in the sorted
      directory, hidden entries included. */
  datatype Item =
    | FileItem(id: nat, name: string, path: string, caps: Caps)
    | DirItem(id: nat, name: string, path: string, canView: bool)

  datatype DirListing = DirListing(files: seq<Item>, dirs: seq<Item>)

  /** A directory entry with its position in the sorted directory. */
  datatype Named = Named(index: nat, name: string)

  /** `isHidden`: the name starts with a dot. */
  predicate IsHidden(name: string)
  {
    |name| > 0 && name[0] == '.'
  }

  /** `names.map((name, index) => ({ name, index }))`. */
  function Numbered(names: seq<string>): (r: seq<Named>)
    ensures |r| == |names|
  {
    seq(|names|, i requires 0 <= i < |names| => Named(i, names[i]))
  }

  /** `.filter(f => !isHidden(f.name))`. */
  function Unhidden(s: seq<Named>): seq<Named>
    decreases |s|
  {
    if |s| == 0 then []
    else (if IsHidden(s[0].name) then [] else [s[0]]) + Unhidden(s[1..])
  }

  /** The step applied to each visible entry: `lstat` it; a regular file
      is then sniffed for binary content and its sync data looked up, and
      becomes a file row; a directory becomes a directory row; an entry of
      any other kind gives nothing. The first query that fails fails the
      step. */
  function Inspect(fs: Fs, p: Paths, access: Access, e: Named): Result<Option<Item>, string>
  {
    var fp := Join(p.workingPath, e.name);
    var rel := Relative(p.coursePath, fp);
    match fs.lstat(fp)
    case Failure(code) => Failure(code)
    case Success(RegularFile) =>
      (match fs.isBinary(fp)
       case Failure(code) => Failure(code)
       case Success(binary) =>
         match fs.syncData(rel)
         case Failure(code) => Failure(code)
         case Success(_) =>
           Success(Some(FileItem(e.index, e.name, rel,
             FileCaps(!binary, Movable(p.layout, fp), Viewable(p.layout, fp), access)))))
    case Success(Directory) =>
      Success(Some(DirItem(e.index, e.name, rel, Viewable(p.layout, fp))))
    case Success(OtherKind) => Success(None)
  }

  /** When inspecting the entry named `name` fails: its `lstat` fails, or it
      is a regular file and the binary sniffer or the sync data lookup
      fails. */
  predicate InspectionFails(fs: Fs, p: Paths, name: string)
  {
    var fp := Join(p.workingPath, name);
    || fs.lstat(fp).Failure?
    || (&& fs.lstat(fp) == Success(RegularFile)
        && (fs.isBinary(fp).Failure? || fs.syncData(Relative(p.coursePath, fp)).Failure?))
  }

  /** The `mapLimit` over the visible entries: one slot per entry when every
      inspection succeeds, otherwise the first failure in directory
      order. */
  function InspectAll(fs: Fs, p: Paths, access: Access, es: seq<Named>): (r: Result<seq<Option<Item>>, string>)
    ensures r.Success? <==> forall k :: 0 <= k < |es| ==> Inspect(fs, p, access, es[k]).Success?
    ensures r.Success? ==> |r.value| == |es|
    ensures r.Success? ==> forall k :: 0 <= k < |es| ==> Inspect(fs, p, access, es[k]) == Success(r.value[k])
    ensures r.Failure? ==> exists k :: 0 <= k < |es| && Inspect(fs, p, access, es[k]) == Failure(r.error)
    decreases |es|
  {
    if |es| == 0 then Success([])
    else
      assert forall k :: 1 <= k < |es| ==> es[k] == es[1..][k - 1];
      match Inspect(fs, p, access, es[0])
      case Failure(code) => Failure(code)
      case Success(slot) =>
        match InspectAll(fs, p, access, es[1..])
        case Failure(code) => Failure(code)
        case Success(rest) => Success([slot] + rest)
  }

  /** `all.filter(f => f?.isFile)` (or `f?.isDirectory` when `files` is
      false). */
  function Keep(all: seq<Option<Item>>, files: bool): seq<Item>
    decreases |all|
  {
    if |all| == 0 then []
    else
      (if all[0].Some? && all[0].value.FileItem? == files then [all[0].value] else [])
      + Keep(all[1..], files)
  }

  /** `browseDirectory`: read the working directory, sort it, number it,
      drop hidden names, inspect the rest and split files from
      directories. */
  function BrowseDirectory(fs: Fs, p: Paths, access: Access): Result<DirListing, string>
  {
    match fs.readdir(p.workingPath)
    case Failure(code) => Failure(code)
    case Success(names) =>
      match InspectAll(fs, p, access, Unhidden(Numbered(Sort(names))))
      case Failure(code) => Failure(code)
      case Success(all) => Success(DirListing(Keep(all, true), Keep(all, false)))
  }

  /* ---------------- properties of the pipeline stages ---------------- */

  /** Positions strictly increase along the list. */
  predicate IndicesIncrease(s: seq<Named>)
  {
    forall i, j :: 0 <= i < j < |s| ==> s[i].index < s[j].index
  }

  predicate IdsIncrease(items: seq<Item>)
  {
    forall i, j :: 0 <= i < j < |items| ==> items[i].id < items[j].id
  }

  /** Exactly the entries of `names` whose names are not hidden survive
      the filter, each with its position in `names`, in order. */
  lemma {:induction false} UnhiddenExactly(s: seq<Named>, x: Named)
    ensures x in Unhidden(s) <==> x in s && !IsHidden(x.name)
    decreases |s|
  {
    if |s| > 0 {
      UnhiddenExactly(s[1..], x);
      assert s == [s[0]] + s[1..];
    }
  }

  lemma {:induction false} UnhiddenIncreasing(s: seq<Named>)
    requires IndicesIncrease(s)
    ensures IndicesIncrease(Unhidden(s))
    decreases |s|
  {
    if |s| > 0 {
      UnhiddenIncreasing(s[1..]);
      var rest := Unhidden(s[1..]);
      forall y | y in rest
        ensures s[0].index < y.index
      {
        UnhiddenExactly(s[1..], y);
      }
    }
  }

  lemma NumberedIncreasing(names: seq<string>)
    ensures IndicesIncrease(Numbered(names))
  {
  }

  /** Inspecting an entry fails exactly as `InspectionFails` says. A row
      carries its entry's position, its name and its course-relative path;
      it is a file row or a directory row exactly as `lstat` says, and a
      directory row may be viewed exactly when no excluded zone contains
      the directory. */
  lemma RowOf(fs: Fs, p: Paths, access: Access, e: Named)
    ensures Inspect(fs, p, access, e).Failure? <==> InspectionFails(fs, p, e.name)
    ensures var r := Inspect(fs, p, access, e);
      var fp := Join(p.workingPath, e.name);
      var kind := fs.lstat(fp);
      && (r.Success? && r.value.Some? ==>
            && r.value.value.id == e.index && r.value.value.name == e.name
            && r.value.value.path == Relative(p.coursePath, fp))
      && (r.Success? && r.value.Some? && r.value.value.FileItem? <==> r.Success? && kind == Success(RegularFile))
      && (r.Success? && r.value.Some? && r.value.value.DirItem? <==> kind == Success(Directory))
      && (r.Success? && r.value.Some? && r.value.value.DirItem? ==> r.value.value.canView == Viewable(p.layout, fp))
      && (r.Success? && r.value.None? <==> kind == Success(OtherKind))
  {
  }

  /** A row the filter keeps sits in some slot, with the kind asked for. */
  lemma {:induction false} KeepFrom(all: seq<Option<Item>>, files: bool, it: Item)
    requires it in Keep(all, files)
    ensures it.FileItem? == files
    ensures exists k :: 0 <= k < |all| && all[k] == Some(it)
    decreases |all|
  {
    if all[0].Some? && all[0].value.FileItem? == files && it == all[0].value {
    } else {
      KeepFrom(all[1..], files, it);
      var k :| 0 <= k < |all[1..]| && all[1..][k] == Some(it);
      assert all[k + 1] == Some(it);
    }
  }

  /** Every slot holding a row of the kind asked for is kept. */
  lemma {:induction false} KeepAll(all: seq<Option<Item>>, files: bool, k: nat)
    requires k < |all| && all[k].Some? && all[k].value.FileItem? == files
    ensures all[k].value in Keep(all, files)
    decreases |all|
  {
    if k > 0 {
      KeepAll(all[1..], files, k - 1);
    }
  }

  /** The rows of `all` carry strictly increasing ids. */
  predicate SlotIdsIncrease(all: seq<Option<Item>>)
  {
    forall i, j :: 0 <= i < j < |all| && all[i].Some? && all[j].Some? ==> all[i].value.id < all[j].value.id
  }

  lemma {:induction false} KeepIncreasing(all: seq<Option<Item>>, files: bool)
    requires SlotIdsIncrease(all)
    ensures IdsIncrease(Keep(all, files))
    decreases |all|
  {
    if |all| > 0 {
      KeepIncreasing(all[1..], files);
      var rest := Keep(all[1..], files);
      forall y | y in rest
        ensures all[0].Some? ==> all[0].value.id < y.id
      {
        KeepFrom(all[1..], files, y);
        var k :| 0 <= k < |all[1..]| && all[1..][k] == Some(y);
        assert all[k + 1] == Some(y);
      }
    }
  }

  /* ---------------- properties of browseDirectory ---------------- */

  /** The slots of a successful inspection of the visible entries carry
      strictly increasing ids. */
  lemma VisibleSlotsIncrease(fs: Fs, p: Paths, access: Access, names: seq<string>)
    requires InspectAll(fs, p, access, Unhidden(Numbered(Sort(names)))).Success?
    ensures SlotIdsIncrease(InspectAll(fs, p, access, Unhidden(Numbered(Sort(names)))).value)
  {
    var es := Unhidden(Numbered(Sort(names)));
    NumberedIncreasing(Sort(names));
    UnhiddenIncreasing(Numbered(Sort(names)));
    var all := InspectAll(fs, p, access, es).value;
    forall i, j | 0 <= i < j < |all| && all[i].Some? && all[j].Some?
      ensures all[i].value.id < all[j].value.id
    {
      RowOf(fs, p, access, es[i]);
      RowOf(fs, p, access, es[j]);
    }
  }

  /** A visible entry of the sorted directory is the entry at its own
      position. */
  lemma VisibleEntry(names: seq<string>, e: Named)
    requires e in Unhidden(Numbered(Sort(names)))
    ensures e.index < |Sort(names)| && Sort(names)[e.index] == e.name && !IsHidden(e.name)
  {
    UnhiddenExactly(Numbered(Sort(names)), e);
  }

  /** Every row of a listing is a visible entry of the sorted directory,
      identified by its position there, and of the kind `lstat` reports. */
  lemma ListingRowsAreVisibleEntries(fs: Fs, p: Paths, access: Access, it: Item)
    requires BrowseDirectory(fs, p, access).Success?
    requires var l := BrowseDirectory(fs, p, access).value; it in l.files || it in l.dirs
    ensures fs.readdir(p.workingPath).Success?
    ensures var sorted := Sort(fs.readdir(p.workingPath).value);
      && it.id < |sorted|
      && sorted[it.id] == it.name
      && !IsHidden(it.name)
      && fs.lstat(Join(p.workingPath, it.name)) == Success(if it.FileItem? then RegularFile else Directory)
    ensures it.path == Relative(p.coursePath, Join(p.workingPath, it.name))
    ensures it.DirItem? ==> it.canView == Viewable(p.layout, Join(p.workingPath, it.name))
    ensures var l := BrowseDirectory(fs, p, access).value;
      (it in l.files <==> it.FileItem?) && (it in l.dirs <==> it.DirItem?)
  {
    var names := fs.readdir(p.workingPath).value;
    var es := Unhidden(Numbered(Sort(names)));
    var all := InspectAll(fs, p, access, es).value;
    var files := it in Keep(all, true);
    KeepFrom(all, files, it);
    var k :| 0 <= k < |all| && all[k] == Some(it);
    RowOf(fs, p, access, es[k]);
    VisibleEntry(names, es[k]);
    if it in Keep(all, !files) {
      KeepFrom(all, !files, it);
    }
  }

  /** Every visible entry that `lstat` calls a file or a directory is
      listed under its position, among the files or the directories
      accordingly; an entry of any other kind is listed nowhere. */
  lemma ListingComplete(fs: Fs, p: Paths, access: Access, i: nat)
    requires BrowseDirectory(fs, p, access).Success?
    requires fs.readdir(p.workingPath).Success?
    requires var sorted := Sort(fs.readdir(p.workingPath).value);
      i < |sorted| && !IsHidden(sorted[i])
    ensures var sorted := Sort(fs.readdir(p.workingPath).value);
      var l := BrowseDirectory(fs, p, access).value;
      var kind := fs.lstat(Join(p.workingPath, sorted[i]));
      && kind.Success?
      && (kind.value == RegularFile ==> exists it :: it in l.files && it.id == i && it.name == sorted[i])
      && (kind.value == Directory ==> exists it :: it in l.dirs && it.id == i && it.name == sorted[i])
      && (kind.value == OtherKind ==> forall it :: it in l.files + l.dirs ==> it.id != i)
  {
    var names := fs.readdir(p.workingPath).value;
    var sorted := Sort(names);
    var es := Unhidden(Numbered(sorted));
    var all := InspectAll(fs, p, access, es).value;
    assert Numbered(sorted)[i] == Named(i, sorted[i]);
    UnhiddenExactly(Numbered(sorted), Named(i, sorted[i]));
    var k :| 0 <= k < |es| && es[k] == Named(i, sorted[i]);
    RowOf(fs, p, access, es[k]);
    var kind := fs.lstat(Join(p.workingPath, sorted[i]));
    if kind.value == RegularFile {
      KeepAll(all, true, k);
    } else if kind.value == Directory {
      KeepAll(all, false, k);
    } else {
      NotListed(fs, p, access, names, k, true);
      NotListed(fs, p, access, names, k, false);
    }
  }

  /** A row with the id of an entry that has no row is not listed. */
  lemma NotListed(fs: Fs, p: Paths, access: Access, names: seq<string>, k: nat, files: bool)
    requires InspectAll(fs, p, access, Unhidden(Numbered(Sort(names)))).Success?
    requires var es := Unhidden(Numbered(Sort(names)));
      k < |es| && Inspect(fs, p, access, es[k]) == Success(None)
    ensures var es := Unhidden(Numbered(Sort(names)));
      var all := InspectAll(fs, p, access, es).value;
      forall it :: it in Keep(all, files) ==> it.id != es[k].index
  {
    var es := Unhidden(Numbered(Sort(names)));
    var all := InspectAll(fs, p, access, es).value;
    NumberedIncreasing(Sort(names));
    UnhiddenIncreasing(Numbered(Sort(names)));
    forall it | it in Keep(all, files)
      ensures it.id != es[k].index
    {
      KeepFrom(all, files, it);
      var m :| 0 <= m < |all| && all[m] == Some(it);
      RowOf(fs, p, access, es[m]);
      assert m != k;
    }
  }

  /** A listing fails exactly when reading the directory fails or
      inspecting some visible entry fails. */
  lemma ListingFails(fs: Fs, p: Paths, access: Access)
    ensures BrowseDirectory(fs, p, access).Failure? <==>
      || fs.readdir(p.workingPath).Failure?
      || exists i :: 0 <= i < |Sort(fs.readdir(p.workingPath).value)|
           && !IsHidden(Sort(fs.readdir(p.workingPath).value)[i])
           && InspectionFails(fs, p, Sort(fs.readdir(p.workingPath).value)[i])
  {
    if fs.readdir(p.workingPath).Success? {
      var sorted := Sort(fs.readdir(p.workingPath).value);
      var es := Unhidden(Numbered(sorted));
      if InspectAll(fs, p, access, es).Failure? {
        var k :| 0 <= k < |es| && Inspect(fs, p, access, es[k]).Failure?;
        RowOf(fs, p, access, es[k]);
        VisibleEntry(fs.readdir(p.workingPath).value, es[k]);
      } else {
        forall i | 0 <= i < |sorted| && !IsHidden(sorted[i])
          ensures !InspectionFails(fs, p, sorted[i])
        {
          assert Numbered(sorted)[i] == Named(i, sorted[i]);
          UnhiddenExactly(Numbered(sorted), Named(i, sorted[i]));
          var k :| 0 <= k < |es| && es[k] == Named(i, sorted[i]);
          RowOf(fs, p, access, es[k]);
        }
      }
    }
  }

  /** Within the files, and within the directories, ids strictly increase
      (directory order is kept); no id is both a file's and a
      directory's. */
  lemma ListingOrderedAndDisjoint(fs: Fs, p: Paths, access: Access)
    requires BrowseDirectory(fs, p, access).Success?
    ensures var l := BrowseDirectory(fs, p, access).value;
      && IdsIncrease(l.files)
      && IdsIncrease(l.dirs)
      && forall f, d :: f in l.files && d in l.dirs ==> f.id != d.id
  {
    var names := fs.readdir(p.workingPath).value;
    var es := Unhidden(Numbered(Sort(names)));
    var all := InspectAll(fs, p, access, es).value;
    VisibleSlotsIncrease(fs, p, access, names);
    KeepIncreasing(all, true);
    KeepIncreasing(all, false);
    forall f, d | f in Keep(all, true) && d in Keep(all, false)
      ensures f.id != d.id
    {
      KeepFrom(all, true, f);
      KeepFrom(all, false, d);
      var m :| 0 <= m < |all| && all[m] == Some(f);
      var n :| 0 <= n < |all| && all[n] == Some(d);
      assert m != n;
    }
  }

  /** A listed file may be renamed and deleted exactly when it is not the
      scope's manifest and the viewer may edit a course that is not the
      example course; it may be edited exactly when, further, it is not
      binary; it may be viewed exactly when no excluded zone contains it. */
  lemma ListedFileCapabilities(fs: Fs, p: Paths, access: Access, it: Item)
    requires BrowseDirectory(fs, p, access).Success?
    requires it in BrowseDirectory(fs, p, access).value.files
    ensures it.FileItem?
    ensures var fp := Join(p.workingPath, it.name);
      var mutable := access.hasCoursePermissionEdit && !access.exampleCourse;
      && it.caps.canDownload
      && it.caps.canUpload == mutable
      && it.caps.canRename == it.caps.canDelete == (Movable(p.layout, fp) && mutable)
      && it.caps.canEdit == (fs.isBinary(fp) == Success(false) && mutable)
      && it.caps.canView == Viewable(p.layout, fp)
  {
    var names := fs.readdir(p.workingPath).value;
    var es := Unhidden(Numbered(Sort(names)));
    var all := InspectAll(fs, p, access, es).value;
    KeepFrom(all, true, it);
    var k :| 0 <= k < |all| && all[k] == Some(it);
    RowOf(fs, p, access, es[k]);
  }

  /** For an entry directly inside a canonical working path, the two text
      tests are structural: it is movable exactly when it is none of the
      scope's unmovable paths, and viewable exactly when no excluded zone's
      segments are a prefix of its own. */
  lemma EntryTestsAreStructural(p: Paths, name: string)
    requires Canonical(p.workingPath) && LayoutCanonical(p.layout) && ValidSegment(name)
    ensures var fp := AbsPath(p.workingPath.segs + [name], false);
      && Join(p.workingPath, name) == fp
      && (Movable(p.layout, fp) <==> fp !in p.layout.cannotMove)
      && (Viewable(p.layout, fp) <==>
            forall j :: 0 <= j < |p.layout.invalidRootPaths| ==> !(p.layout.invalidRootPaths[j].segs <= fp.segs))
  {
    var fp := AbsPath(p.workingPath.segs + [name], false);
    JoinSegment(p.workingPath, name);
    assert Canonical(fp);
    if fp in p.layout.cannotMove {
      var k :| 0 <= k < |p.layout.cannotMove| && p.layout.cannotMove[k] == fp;
    } else {
      forall k | 0 <= k < |p.layout.cannotMove|
        ensures Render(p.layout.cannotMove[k]) != Render(fp)
      {
        if Render(p.layout.cannotMove[k]) == Render(fp) {
          RenderInjective(p.layout.cannotMove[k], fp);
        }
      }
    }
    forall j | 0 <= j < |p.layout.invalidRootPaths|
      ensures Contains(p.layout.invalidRootPaths[j], fp) <==> p.layout.invalidRootPaths[j].segs <= fp.segs
    {
      ContainsIsPrefix(p.layout.invalidRootPaths[j], fp);
    }
  }

  /* ---------------- browseFile ---------------- */

  /** Text files larger than this many bytes are shown as binary. */
  const TextSizeLimit: nat := 1024 * 1024

  /** How a file is shown: as a picture, a PDF, highlighted text, or an
      opaque binary file. */
  datatype FileView = FileView(
    isBinary: bool,
    isImage: bool,
    isPDF: bool,
    isText: bool,
    contents: Option<string>,
    file: Item)

  /** The `file` row of `browseFile`: always id 0. */
  function FileRow(p: Paths, access: Access, isText: bool): Item
  {
    var w := p.workingPath;
    FileItem(0, Basename(w), Relative(p.coursePath, w),
      FileCaps(isText, Movable(p.layout, w), Viewable(p.layout, w), access))
  }

  /** `browseFile`: a binary file is classified by its detected type; any
      other file is read as text unless it is larger than `TextSizeLimit`,
      in which case it is shown as binary without being read. */
  function BrowseFile(fs: Fs, p: Paths, access: Access): (r: Result<FileView, string>)
    ensures r.Success? ==> r.value.isBinary != r.value.isText
    ensures r.Success? ==> !(r.value.isImage && r.value.isPDF)
    ensures r.Success? && (r.value.isImage || r.value.isPDF) ==> r.value.isBinary
    ensures r.Success? ==> (r.value.contents.Some? <==> r.value.isText)
    ensures r.Success? ==> r.value.file.FileItem? && r.value.file.id == 0
    ensures r.Success? ==>
      var w := p.workingPath;
      var c := r.value.file.caps;
      && r.value.file.name == Basename(w)
      && r.value.file.path == Relative(p.coursePath, w)
      && c.canDownload
      && (c.canUpload <==> access.hasCoursePermissionEdit && !access.exampleCourse)
      && (c.canEdit <==> r.value.isText && c.canUpload)
      && c.canRename == c.canDelete
      && (c.canRename <==> Movable(p.layout, w) && c.canUpload)
      && c.canView == Viewable(p.layout, w)
  {
    var w := p.workingPath;
    match fs.isBinary(w)
    case Failure(code) => Failure(code)
    case Success(true) =>
      (match fs.fileType(w)
       case Failure(code) => Failure(code)
       case Success(mime) =>
         var image := mime.Some? && "image" <= mime.value;
         var pdf := !image && mime == Some("application/pdf");
         Success(FileView(true, image, pdf, false, None, FileRow(p, access, false))))
    case Success(false) =>
      match fs.size(w)
      case Failure(code) => Failure(code)
      case Success(size) =>
        if size > TextSizeLimit then
          Success(FileView(true, false, false, false, None, FileRow(p, access, false)))
        else match fs.readText(w)
          case Failure(code) => Failure(code)
          case Success(text) =>
            Success(FileView(false, false, false, true, Some(text), FileRow(p, access, true)))
  }

  /** A non-binary file over the size limit is not read: whatever reading
      it would give, the page is the same, shown as binary, not editable. */
  lemma LargeFileNotRead(fs: Fs, p: Paths, access: Access, otherRead: AbsPath -> Result<string, string>)
    requires fs.isBinary(p.workingPath) == Success(false)
    requires fs.size(p.workingPath).Success? && fs.size(p.workingPath).value > TextSizeLimit
    ensures BrowseFile(fs, p, access) == BrowseFile(fs.(readText := otherRead), p, access)
    ensures var r := BrowseFile(fs, p, access);
      && r.Success? && r.value.isBinary && !r.value.isText
      && r.value.contents.None? && !r.value.file.caps.canEdit
  {
  }

  /** A file is shown as text exactly when it is not binary, its size is
      at most the limit, and reading it succeeds; the text shown is then
      what was read. */
  lemma TextShownExactly(fs: Fs, p: Paths, access: Access)
    ensures var r := BrowseFile(fs, p, access);
      var w := p.workingPath;
      (r.Success? && r.value.isText) <==>
        && fs.isBinary(w) == Success(false)
        && fs.size(w).Success? && fs.size(w).value <= TextSizeLimit
        && fs.readText(w).Success?
    ensures var r := BrowseFile(fs, p, access);
      r.Success? && r.value.isText ==> r.value.contents == Some(fs.readText(p.workingPath).value)
  {
  }

  /** Showing a binary file fails exactly when detecting its type fails;
      otherwise it is a picture when its detected type starts with "image",
      a PDF when it is exactly "application/pdf". */
  lemma BinaryClassified(fs: Fs, p: Paths, access: Access)
    requires fs.isBinary(p.workingPath) == Success(true)
    ensures BrowseFile(fs, p, access).Success? <==> fs.fileType(p.workingPath).Success?
    ensures var r := BrowseFile(fs, p, access);
      r.Success? ==>
        var mime := fs.fileType(p.workingPath).value;
        && (r.value.isImage <==> mime.Some? && "image" <= mime.value)
        && (r.value.isPDF <==> mime == Some("application/pdf"))
  {
    assert "application/pdf"[0] != "image"[0];
  }

  /** Showing a file fails exactly when the binary sniffer fails, when
      detecting a binary file's type fails, or, for any other file, when
      its size cannot be read or, being within the limit, its contents
      cannot. */
  lemma FileFails(fs: Fs, p: Paths, access: Access)
    ensures var w := p.workingPath;
      BrowseFile(fs, p, access).Failure? <==>
        || fs.isBinary(w).Failure?
        || (fs.isBinary(w) == Success(true) && fs.fileType(w).Failure?)
        || (&& fs.isBinary(w) == Success(false)
            && (fs.size(w).Failure? || (fs.size(w).value <= TextSizeLimit && fs.readText(w).Failure?)))
  {
  }
}
