/**
  `create_folders` and `create_templatetags`: scaffolding of the conventional
  folders, the project-root gate, and the settings step, as transitions on a
  file system plus a trace of what the tool reports and calls.
 */
module Scaffold {
  import opened Common
  import opened Filesystem
  import opened DirsPattern
  import opened DirsPatch

  /** What the tool reports, and the calls it makes into code outside this model. */
  datatype Event =
    | Created(folder: string)        // "Folder '...' created successfully."
    | AlreadyExists(folder: string)  // "Folder '...' already exists."
    | NotAtProjectRoot               // the diagnostic asking to move to `manage.py`
    | SettingsWritten(path: string)  // the patched settings text is written back
    | SettingsEdited(path: string)   // call to `base_edit_settings_file`
    | UrlsEdited(path: string)       // call to `edit_urls_file`

  /** The file system together with everything reported so far. */
  datatype State = State(fs: Fs, trace: seq<Event>)

  /** The state after a step, and the exception it let escape, if any. */
  datatype Run = Run(state: State, raised: Option<FsError>)

  /** The folders `create_folders` makes, in the order it makes them. */
  const BaseFolders: seq<string> := ["templates", "static"]

  /** The folder `create_templatetags` is about. */
  const TagFolder: string := "templatetags"

  function SettingsPath(root: string): string {
    Join(root, "settings.py")
  }

  function UrlsPath(root: string): string {
    Join(root, "urls.py")
  }

  /** The events a step appended to the trace. */
  function NewEvents(before: State, after: State): seq<Event>
    requires |before.trace| <= |after.trace|
  {
    after.trace[|before.trace|..]
  }

  /** One turn of the folder loop: create `name` unless it already exists. */
  function EnsureFolder(st: State, name: string): (r: State)
    ensures name in r.fs.paths
    ensures st.fs.paths <= r.fs.paths && r.fs.files == st.fs.files
    ensures st.fs.Valid() ==> r.fs.Valid()
    ensures name in st.fs.paths ==> r.fs == st.fs && r.trace == st.trace + [AlreadyExists(name)]
    ensures name !in st.fs.paths ==> r.trace == st.trace + [Created(name)]
  {
    if name in st.fs.paths then State(st.fs, st.trace + [AlreadyExists(name)])
    else State(MakeDirs(st.fs, name).value, st.trace + [Created(name)])
  }

  /** The loop over the folder names: each one exists afterwards and nothing is removed. */
  function EnsureFolders(st: State, names: seq<string>): (r: State)
    ensures forall n :: n in names ==> n in r.fs.paths
    ensures st.fs.paths <= r.fs.paths && r.fs.files == st.fs.files
    ensures st.fs.Valid() ==> r.fs.Valid()
    ensures |r.trace| == |st.trace| + |names| && r.trace[..|st.trace|] == st.trace
    ensures forall e :: e in NewEvents(st, r) ==> e.Created? || e.AlreadyExists?
    decreases |names|
  {
    if |names| == 0 then st
    else
      var r := EnsureFolders(EnsureFolder(st, names[0]), names[1..]);
      assert forall n :: n in names[1..] ==> n in r.fs.paths;
      r
  }

  /** One turn of the loop, then the rest of the names. */
  lemma EnsureFoldersStep(st: State, names: seq<string>)
    requires |names| > 0
    ensures EnsureFolders(st, names) == EnsureFolders(EnsureFolder(st, names[0]), names[1..])
  {
  }

  /** The reports of a run in which every folder already exists. */
  function AllExisting(names: seq<string>): (r: seq<Event>)
    ensures |r| == |names|
    decreases |names|
  {
    if |names| == 0 then [] else [AlreadyExists(names[0])] + AllExisting(names[1..])
  }

  /**
    When every folder already exists the loop creates nothing and reports
    "already exists" for each one, in order.
   */
  lemma {:induction false} EnsureFoldersOnExisting(st: State, names: seq<string>)
    requires forall n :: n in names ==> n in st.fs.paths
    ensures EnsureFolders(st, names).fs == st.fs
    ensures EnsureFolders(st, names).trace == st.trace + AllExisting(names)
    decreases |names|
  {
    if |names| > 0 {
      var st1 := EnsureFolder(st, names[0]);
      EnsureFoldersStep(st, names);
      assert st1 == State(st.fs, st.trace + [AlreadyExists(names[0])]);
      EnsureFoldersOnExisting(st1, names[1..]);
      var x := [AlreadyExists(names[0])];
      assert AllExisting(names) == x + AllExisting(names[1..]);
      assert (st.trace + x) + AllExisting(names[1..]) == st.trace + (x + AllExisting(names[1..]));
    }
  }

  /** The named folders together with every folder above them. */
  function Reach(names: seq<string>): set<string>
    decreases |names|
  {
    if |names| == 0 then {} else {names[0]} + Ancestors(names[0]) + Reach(names[1..])
  }

  /** The loop creates only the named folders and the folders above them. */
  lemma {:induction false} EnsureFoldersOnlyNamed(st: State, names: seq<string>)
    ensures EnsureFolders(st, names).fs.paths <= st.fs.paths + Reach(names)
    decreases |names|
  {
    if |names| > 0 {
      EnsureFoldersOnlyNamed(EnsureFolder(st, names[0]), names[1..]);
    }
  }

  /** Running the folder loop a second time changes nothing on disk and creates nothing. */
  lemma EnsureFoldersIdempotent(st: State, names: seq<string>)
    ensures var once := EnsureFolders(st, names);
      && EnsureFolders(once, names).fs == once.fs
      && EnsureFolders(once, names).trace == once.trace + AllExisting(names)
  {
    EnsureFoldersOnExisting(EnsureFolders(st, names), names);
  }

  /** Neither base folder name contains a separator, so no intermediate folder is made. */
  lemma BaseFoldersHaveNoAncestors()
    ensures forall n :: n in BaseFolders ==> Ancestors(n) == {}
  {
    assert forall i :: 0 <= i < |BaseFolders[0]| ==> BaseFolders[0][i] != Sep;
    assert forall i :: 0 <= i < |BaseFolders[1]| ==> BaseFolders[1][i] != Sep;
  }

  /** The base folder loop adds exactly `templates` and `static` to what existed. */
  lemma BaseFoldersExact(st: State)
    ensures EnsureFolders(st, BaseFolders).fs.paths == st.fs.paths + {"templates", "static"}
  {
    BaseFoldersHaveNoAncestors();
    assert Reach(BaseFolders) == {"templates", "static"};
    EnsureFoldersOnlyNamed(st, BaseFolders);
  }

  /**
    The settings step after the folder loop. `app` is the result of
    `get_app_name()`, `None` when the lookup raised. The gate then only prints
    the diagnostic. Otherwise the settings file is read (raising when it cannot
    be), rewritten in full when the pattern occurs, and the two follow-on edits
    are called whether or not it occurred. The edits themselves are not
    modelled, so the settings text in the resulting state is the text that
    `base_edit_settings_file` receives.
   */
  function PatchSettings(st: State, app: Option<string>): (r: Run)
    ensures app.None? ==> r.raised.None? && r.state.fs == st.fs && r.state.trace == st.trace + [NotAtProjectRoot]
    ensures app.Some? ==> (r.raised.None? <==> SettingsPath(app.value) in st.fs.files)
    ensures st.fs.Valid() && app.Some? && r.raised.None? ==> SettingsPath(app.value) in st.fs.paths
    ensures app.Some? && r.raised.Some? ==> r.state == st && r.raised == Some(NotReadable(SettingsPath(app.value)))
    ensures app.Some? && r.raised.None? ==>
              var sp := SettingsPath(app.value);
              && r.state.fs.paths == st.fs.paths
              && r.state.fs.files == st.fs.files[sp := PatchDirs(st.fs.files[sp])]
    ensures st.fs.Valid() ==> r.state.fs.Valid()
  {
    match app
    case None => Run(State(st.fs, st.trace + [NotAtProjectRoot]), None)
    case Some(root) =>
      var sp := SettingsPath(root);
      if sp !in st.fs.files then Run(st, Some(NotReadable(sp)))
      else
        var data := st.fs.files[sp];
        PatchIdentityIffNoMatch(data);
        var read :=
          if HasMatch(data) then
            State(st.fs.(files := st.fs.files[sp := PatchDirs(data)]), st.trace + [SettingsWritten(sp)])
          else
            st;
        Run(State(read.fs, read.trace + [SettingsEdited(sp), UrlsEdited(UrlsPath(root))]), None)
  }

  /**
    Past the gate, the step reports exactly this: one write of the settings
    text when the rewrite changes it, then both follow-on edits, in order.
   */
  lemma PatchSettingsEvents(st: State, root: string)
    requires SettingsPath(root) in st.fs.files
    ensures var r := PatchSettings(st, Some(root)).state;
      var sp := SettingsPath(root);
      var d := st.fs.files[sp];
      && |st.trace| <= |r.trace|
      && NewEvents(st, r) ==
           (if PatchDirs(d) != d then [SettingsWritten(sp)] else []) + [SettingsEdited(sp), UrlsEdited(UrlsPath(root))]
  {
    var sp := SettingsPath(root);
    var data := st.fs.files[sp];
    PatchIdentityIffNoMatch(data);
    var r := PatchSettings(st, Some(root)).state;
    var tail := [SettingsEdited(sp), UrlsEdited(UrlsPath(root))];
    if HasMatch(data) {
      assert NewEvents(st, r) == [SettingsWritten(sp)] + tail;
    } else {
      assert NewEvents(st, r) == tail;
    }
  }

  /** `create_folders`: the base folders, then the gate and the settings step. */
  function CreateFolders(st: State, app: Option<string>): (r: Run)
    ensures forall n :: n in BaseFolders ==> n in r.state.fs.paths
    ensures st.fs.paths <= r.state.fs.paths
    ensures st.fs.Valid() ==> r.state.fs.Valid()
  {
    PatchSettings(EnsureFolders(st, BaseFolders), app)
  }

  /**
    When the project-root lookup fails, the folders are still made but no file
    is read or written and neither follow-on edit is called.
   */
  lemma CreateFoldersGateClosed(st: State)
    ensures var r := CreateFolders(st, None);
      && r.raised.None?
      && r.state.fs.files == st.fs.files
      && r.state.fs.paths == st.fs.paths + {"templates", "static"}
      && r.state.trace == EnsureFolders(st, BaseFolders).trace + [NotAtProjectRoot]
      && forall e :: e in NewEvents(st, r.state) ==> !e.SettingsWritten? && !e.SettingsEdited? && !e.UrlsEdited?
  {
    BaseFoldersExact(st);
    var f := EnsureFolders(st, BaseFolders);
    var r := CreateFolders(st, None);
    assert NewEvents(st, r.state) == NewEvents(st, f) + [NotAtProjectRoot];
  }

  /**
    When the lookup succeeds and the settings file is readable, the folders
    exist, the settings text is the patched text, and the run ends with the two
    follow-on edits.
   */
  lemma CreateFoldersGateOpen(st: State, root: string)
    requires SettingsPath(root) in st.fs.files
    ensures var r := CreateFolders(st, Some(root));
      var sp := SettingsPath(root);
      && r.raised.None?
      && r.state.fs.paths == st.fs.paths + {"templates", "static"}
      && r.state.fs.files == st.fs.files[sp := PatchDirs(st.fs.files[sp])]
      && |r.state.trace| >= 2
      && r.state.trace[|r.state.trace| - 2..] == [SettingsEdited(sp), UrlsEdited(UrlsPath(root))]
  {
    BaseFoldersExact(st);
    PatchSettingsEvents(EnsureFolders(st, BaseFolders), root);
  }

  /**
    A project on which `create_folders` has nothing left to do: both base
    folders exist and, past the gate, the settings text (if readable) has no
    empty `'DIRS'` entry.
   */
  predicate Scaffolded(st: State, app: Option<string>) {
    && (forall n :: n in BaseFolders ==> n in st.fs.paths)
    && (app.Some? && SettingsPath(app.value) in st.fs.files ==>
          !HasMatch(st.fs.files[SettingsPath(app.value)]))
  }

  /**
    What `create_folders`'s own statements leave behind: the base folders
    exist, and the settings text handed to `base_edit_settings_file` has no
    empty `'DIRS'` entry left.
   */
  lemma CreateFoldersLeavesScaffolded(st: State, app: Option<string>)
    requires CreateFolders(st, app).raised.None?
    ensures Scaffolded(CreateFolders(st, app).state, app)
  {
    if app.Some? {
      var sp := SettingsPath(app.value);
      PatchIdempotent(EnsureFolders(st, BaseFolders).fs.files[sp]);
    }
  }

  /**
    On a project that is already scaffolded, `create_folders` creates no
    folder, writes no settings text, and changes neither paths nor contents;
    it reports "already exists" for each folder.
   */
  lemma CreateFoldersTwice(st: State, app: Option<string>)
    requires Scaffolded(st, app)
    ensures var r := CreateFolders(st, app);
      && r.state.fs == st.fs
      && EnsureFolders(st, BaseFolders).trace == st.trace + AllExisting(BaseFolders)
      && forall e :: e in NewEvents(st, r.state) ==> !e.Created? && !e.SettingsWritten?
  {
    var f := EnsureFolders(st, BaseFolders);
    EnsureFoldersOnExisting(st, BaseFolders);
    if app.Some? && SettingsPath(app.value) in st.fs.files {
      PatchIdentityOnMiss(st.fs.files[SettingsPath(app.value)]);
    }
    assert NewEvents(st, f) == AllExisting(BaseFolders);
  }

  /**
    `create_templatetags` as written: the existence test is on `templatetags`
    in the working directory, but the folder it makes is `<views>/templatetags`,
    with `os.makedirs`, which raises when that folder is already there.
    `views` is the result of `find_views_folder()`.
   */
  function CreateTemplateTags(st: State, views: string): (r: Run)
    ensures |st.trace| <= |r.state.trace|
    ensures r.state.fs.files == st.fs.files
    ensures TagFolder in st.fs.paths ==>
              r.raised.None? && r.state.fs == st.fs && NewEvents(st, r.state) == [AlreadyExists(TagFolder)]
    ensures TagFolder !in st.fs.paths ==> (r.raised.Some? <==> Join(views, TagFolder) in st.fs.paths)
    ensures r.raised.Some? ==> r.state == st && r.raised == Some(FileExists(Join(views, TagFolder)))
    ensures TagFolder !in st.fs.paths && r.raised.None? ==>
              && r.state.fs.paths == st.fs.paths + {Join(views, TagFolder)} + Ancestors(Join(views, TagFolder))
              && NewEvents(st, r.state) == [Created(TagFolder)]
    ensures st.fs.Valid() ==> r.state.fs.Valid()
  {
    var tagPath := Join(views, TagFolder);
    if TagFolder !in st.fs.paths then
      match MakeDirs(st.fs, tagPath)
      case Ok(fs) => Run(State(fs, st.trace + [Created(TagFolder)]), None)
      case Err(e) => Run(st, Some(e))
    else
      Run(State(st.fs, st.trace + [AlreadyExists(TagFolder)]), None)
  }

  /** The folders `os.makedirs` makes for `<views>/templatetags` when `views` is one plain name. */
  lemma TagPathAncestors(views: string)
    requires views != "" && Sep !in views
    ensures Ancestors(Join(views, TagFolder)) == {views}
  {
    var p := Join(views, TagFolder);
    assert p[..|views|] == views;
    assert forall i :: 0 <= i < |TagFolder| ==> TagFolder[i] != Sep;
    forall q | q in Ancestors(p)
      ensures q == views
    {
      var i :| 0 < i < |p| && p[i] == Sep && q == p[..i];
    }
  }

  /**
    With the views folder below the working directory, a first run makes
    `<views>/templatetags` but not `templatetags`, so a second run passes the
    existence test again and `os.makedirs` raises.
   */
  lemma CreateTemplateTagsSecondRunRaises(st: State, views: string)
    requires views != "" && Sep !in views && views != TagFolder
    requires TagFolder !in st.fs.paths && Join(views, TagFolder) !in st.fs.paths
    ensures var once := CreateTemplateTags(st, views);
      && once.raised.None?
      && TagFolder !in once.state.fs.paths
      && CreateTemplateTags(once.state, views).raised == Some(FileExists(Join(views, TagFolder)))
  {
    TagPathAncestors(views);
    assert Join(views, TagFolder) != TagFolder;
  }

  /**
    `create_templatetags` with the existence test on the path it creates:
    it never raises, the folder exists afterwards, and nothing is removed.
   */
  function CreateTemplateTagsChecked(st: State, views: string): (r: State)
    ensures Join(views, TagFolder) in r.fs.paths
    ensures st.fs.paths <= r.fs.paths && r.fs.files == st.fs.files
    ensures Join(views, TagFolder) in st.fs.paths ==> r.fs == st.fs
    ensures r.fs.paths <= st.fs.paths + {Join(views, TagFolder)} + Ancestors(Join(views, TagFolder))
    ensures st.fs.Valid() ==> r.fs.Valid()
  {
    var tagPath := Join(views, TagFolder);
    if tagPath !in st.fs.paths then
      State(MakeDirs(st.fs, tagPath).value, st.trace + [Created(TagFolder)])
    else
      State(st.fs, st.trace + [AlreadyExists(TagFolder)])
  }

  /** The corrected step can be repeated: a second run changes nothing on disk. */
  lemma CreateTemplateTagsCheckedIdempotent(st: State, views: string)
    ensures var once := CreateTemplateTagsChecked(st, views);
      && CreateTemplateTagsChecked(once, views).fs == once.fs
      && NewEvents(once, CreateTemplateTagsChecked(once, views)) == [AlreadyExists(TagFolder)]
  {
  }
}
