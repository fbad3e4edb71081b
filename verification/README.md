# DJOptima scaffolding core in Dafny

DJOptima is a command-line helper for Django projects. Its `--base` command runs
`create_folders` in `Base.py`. That function does three things in order:

1. It makes the `templates` and `static` folders in the working directory, or
   reports that they already exist.
2. It asks for the Django project package (`get_app_name`). When that lookup
   raises, it prints a diagnostic asking the user to move to the folder that
   holds `manage.py`, and stops.
3. Otherwise it reads the project's `settings.py`. If the text has an empty
   template-directories entry (`'DIRS': [` + white space + `]`), it replaces every
   such entry with `'DIRS': ['templates']` and writes the file back in full.
   Whether or not the entry was found, it then calls two further edits: one on
   the settings file and one on `urls.py`.

`create_templatetags` makes a `templatetags` folder inside the views folder.

The model has five modules:

- `Common`: `Option` and `Result`.
- `DirsPattern`: the pattern `'DIRS': \[\s*\]`. `MatchFrom`/`MatchAt` is the
  matcher's attempt at one position. `IsMatch` is an independent description of
  a whole occurrence. `Search` is `re.search`.
- `DirsPatch`: `PatchDirs`, which is `re.sub` with this pattern and replacement,
  as a pure function on text, plus its properties:
  - it is the identity exactly when the pattern does not occur;
  - it keeps the text before the first occurrence and splices the replacement
    in at that position;
  - no occurrence is left in its output;
  - it is idempotent.
- `Filesystem`: the working directory as a set of existing paths plus the
  contents of files, with `os.path.join`. `MakeDirs` is the model's definition of
  `os.makedirs`, not a property proved about it: it raises `FileExistsError` when
  the target exists, and otherwise adds the target and every folder above it.
- `Scaffold`: the folder loop, the project-root gate, the settings step,
  `create_folders` as a whole, and `create_templatetags`. The last one is
  modelled as written and also in a corrected form (see Findings). Console
  reports and the calls into foreign code are recorded as `Event`s in a trace.

Code outside `Base.py` is not part of this model, so its results become parameters:
- `get_app_name()` becomes `app: Option<string>`, which is `None` when the
  lookup raises;
- `find_views_folder()` becomes `views: string`;
- `base_edit_settings_file` and `edit_urls_file` are recorded in the trace as
  `SettingsEdited` and `UrlsEdited`.

Two behaviours of the code that a reader might not expect:
- The settings rewrite replaces every non-overlapping occurrence, not just one:
  `re.sub` is called without a count.
- `create_templatetags` is not idempotent: it can raise on a repeated run.

## Model

| member | source | states |
|---|---|---|
| DirsPattern.MatchAtSound | Base.py:30 | What the matcher reports at a position is a whole occurrence: `'DIRS': [`, then only white space, then `]`. |
| DirsPattern.MatchAtExact | Base.py:30 | Any occurrence that starts at a position is the one the matcher reports there, so at most one occurrence starts at any position. |
| DirsPattern.MatchFromSound | Base.py:30 | Each step of the matcher keeps what it has consumed consistent with the pattern, so whatever it accepts is an occurrence. |
| DirsPattern.MatchFromComplete | Base.py:30 | From any consistent state, the matcher reaches the end of an occurrence that lies ahead. |
| DirsPattern.Search | Base.py:43 | `re.search` returns the first position where an occurrence starts, and no occurrence starts before it. It returns nothing exactly when no position has one. |
| DirsPatch.PatchIdentityOnMiss | Base.py:43-49 | A settings text in which the pattern does not occur is left unchanged. |
| DirsPatch.PatchIdentityIffNoMatch | Base.py:43-49 | The rewrite changes the text if and only if `re.search` finds the pattern. So "written back" and "changed" coincide. |
| DirsPatch.PatchCopiesPrefix | Base.py:45 | Characters before any occurrence are copied to the output unchanged and in order. |
| DirsPatch.PatchLeftmost | Base.py:45 | The first occurrence is replaced by `'DIRS': ['templates']`, the text before it is kept, and the scan resumes just after the occurrence. |
| DirsPatch.PatchOnHit | Base.py:43-47 | When the pattern occurs, the output keeps the text before the first occurrence and has `'DIRS': ['templates']` where it began, and the output differs from the input. |
| DirsPatch.PatchLeavesNoMatch | Base.py:45 | No occurrence of the pattern remains anywhere in the output. This includes positions inside or across an inserted replacement. |
| DirsPatch.PatchIdempotent | Base.py:45 | Applying the rewrite to its own output changes nothing, and `re.search` finds nothing in that output. |
| DirsPatch.PatchExample | Base.py:45 | `'DIRS': [` followed by a newline, four spaces and `]` becomes `'DIRS': ['templates']`. |
| Scaffold.EnsureFolder | Base.py:21-26 | After one turn of the loop the folder exists and nothing is removed. An existing folder is reported as already there and the file system is untouched. A missing one is reported as created. |
| Scaffold.EnsureFolders | Base.py:19-26 | After the loop every named folder exists, no path is removed, no file changes, and exactly one report per folder is appended. |
| Scaffold.EnsureFoldersOnExisting | Base.py:19-26 | When every folder already exists, the loop creates nothing and reports "already exists" for each folder, in order. |
| Scaffold.EnsureFoldersOnlyNamed | Base.py:19-23 | The loop creates no path other than the named folders and the folders above them. |
| Scaffold.EnsureFoldersIdempotent | Base.py:19-26 | A second run of the loop leaves the file system as the first left it, and only reports "already exists". |
| Scaffold.BaseFoldersExact | Base.py:19-23 | The base loop adds exactly `templates` and `static` to the paths that existed. |
| Scaffold.PatchSettings | Base.py:29-51 | If the app lookup raised: no file is read or written and only the diagnostic is reported. Otherwise: the step raises exactly when `settings.py` cannot be read, and a successful read means the settings file is an existing path. Paths are unchanged, and the settings text handed to `base_edit_settings_file` is the rewritten text, whether or not a write happened. The effect of that edit is not modelled. |
| Scaffold.PatchSettingsEvents | Base.py:43-51 | Past the gate, the step's reports are exactly: one write of the settings file when the rewrite changes its text (none otherwise), then the settings edit and the urls edit, in that order. |
| Scaffold.CreateFolders | Base.py:16-51 | After `create_folders`, `templates` and `static` exist and every earlier path is still present, even when a later step raises. |
| Scaffold.CreateFoldersGateClosed | Base.py:31-38 | When the app lookup raises, the folders are still made, but no settings write happens and neither follow-on edit is called. File contents are untouched. |
| Scaffold.CreateFoldersGateOpen | Base.py:38-51 | When the lookup succeeds and the settings file is readable, the folders exist, the settings text handed to `base_edit_settings_file` is the rewritten text, and the run ends with the settings edit and then the urls edit. |
| Scaffold.CreateFoldersLeavesScaffolded | Base.py:16-47 | After a run that does not raise, both base folders exist and the settings text handed to `base_edit_settings_file` has no empty `'DIRS'` entry left. |
| Scaffold.CreateFoldersTwice | Base.py:16-51 | On a project where both base folders exist and the settings text has no empty `'DIRS'` entry, `create_folders` creates no folder, does not write the settings file, reports "already exists" for each folder, and its own statements change no path or content. |
| Scaffold.CreateTemplateTags | Base.py:6-14 | If `templatetags` exists in the working directory, nothing is created, even when `<views>/templatetags` is missing. Otherwise `os.makedirs` raises exactly when `<views>/templatetags` already exists. On success the paths gain exactly that folder and the folders above it. File contents never change. |
| Scaffold.CreateTemplateTagsSecondRunRaises | Base.py:7-11 | With a plain views-folder name, a first run creates `<views>/templatetags` but not `templatetags`, so a second run raises `FileExistsError`. |
| Scaffold.CreateTemplateTagsChecked | Base.py:6-14 | The corrected step tests the path it creates: it never raises, the folder exists afterwards, nothing is removed, file contents are unchanged, and no path other than that folder and the folders above it is added. |
| Scaffold.CreateTemplateTagsCheckedIdempotent | Base.py:6-14 | A second run of the corrected step leaves the file system unchanged and only reports "already exists". |

## Left out

- `\s` is read as the ASCII white-space characters: space, tab, newline, carriage return, vertical tab and form feed. Python's `\s` on `str` patterns also matches other Unicode white space.
- Only the one pattern `'DIRS': \[\s*\]` is modelled, not Python regular expressions in general.
- Console output, the colour helpers (`blue`, `red`, `brown`, `green`, `green1`) and `t_size`: presentation only. The reports are recorded as trace events, and the header and footer lines are not.
- `base_edit_settings_file` and `edit_urls_file`: their source is not part of this model. The model records that they are called and with which path, but not what they do to the files.
- `get_app_name` and `find_views_folder`: their source is not part of this model, so their results are parameters. A `find_views_folder` that raises is not modelled.
- `os.getcwd` and path normalisation: paths are relative to the working directory. `Join` does not model trailing separators, absolute second components or `..`.
- The file system does not tell folders from files. `os.makedirs` failures other than an existing target (permissions, a file in the way of an intermediate folder) are not modelled, nor are I/O errors on the write.
- The settings step models a failed read as a raised error. It does not tell a missing file from a directory.
- File contents are the decoded text that `f.read()` returns. The file is opened in text mode, and text-mode newline translation (`\r\n` and `\r` read as `\n`, `os.linesep` on write) and the locale encoding are not modelled. So a CRLF settings file that contains a match can be rewritten with different line endings outside the matched span; the model does not show this.
- `Scaffold.CreateFoldersTwice`: states only what `Base.py`'s own statements do on a rerun. Whether the whole command is idempotent also depends on `base_edit_settings_file` and `edit_urls_file`, which edit the files between runs and are not part of this model. `Scaffold.CreateFoldersLeavesScaffolded` therefore speaks of the text handed to the settings edit, not of the file after that edit.
- `Scaffold.EnsureFolders`: states each report's kind (created or already exists) and that there is one report per folder, but does not tie the report at each position to that folder's name. `Scaffold.EnsureFoldersOnExisting` states the exact reports for the all-existing case.
- `VercelKit.py`: a flag dispatcher into functions outside this model. `setup.py`: package metadata.

## Findings

| source | as written | input that shows it | evidently intended | confidence | as-written member | corrected member |
|---|---|---|---|---|---|---|
| Base.py:7-11 | The existence test is `os.path.exists('templatetags')`, relative to the working directory. The folder created is `<views>/templatetags`, with `os.makedirs`, which raises when the target exists. | Views folder `app`, and neither `templatetags` nor `app/templatetags` exists. The first run creates `app/templatetags`. The second run finds no `templatetags`, calls `os.makedirs('app/templatetags')` again, and raises `FileExistsError`. | Test the path that is created (`tag_path`), so that a repeated run reports "already exists". | medium; not executed | Scaffold.CreateTemplateTagsSecondRunRaises | Scaffold.CreateTemplateTagsChecked |
