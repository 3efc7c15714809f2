# rwaq-dl in Dafny

`rwaq-dl.py` downloads a whole course from rwaq.org into a folder tree. This project
models the part of the script that decides what gets created where:

- **Course URL.** `validate_course` accepts a URL only when its host is `www.rwaq.org` and
  its first path segment is `courses`. It then joins the reference `sections` onto the
  URL with `urljoin`, which replaces the URL's last path segment with `sections`. A URL of
  the form the command-line help shows (`…/courses/<slug>/sections`) comes back unchanged,
  while a course URL without a trailing `/` (`…/courses/<slug>`) loses its slug and becomes
  `…/courses/sections`. Reference resolution is modelled after section 5.2 of RFC 3986
  (merge, section 5.2.3; remove_dot_segments, section 5.2.4) on URLs split into scheme,
  authority and path segments.
- **Download folder.** `check_folder` reuses an existing directory and refuses an existing
  non-directory. It creates a missing path with `os.makedirs` and then changes the working
  directory into the folder.
- **Course walk.** The main block walks the sections in order, numbered from 1, and each
  section's item rows in order, numbered from 1 again. Folders are named
  `'{n:02}- ' + title` (title stripped), and each is created only when missing. The walk
  calls `get_item_contents` once per row, with the row's `href` resolved against the
  course URL and the first class of its icon as type tag.
- **Item dispatch.** `get_item_contents` classifies the tag by substring tests in the
  order `play`, `file`, `list`:
  - a video is one download of the stream pytube picks for the watch URL of the player's id;
  - a document is the lecture body written to `<title>.txt`, then one download per attachment;
  - a listing is the raw page written to `<title>.html`;
  - anything else only warns.
  Every failure inside an item becomes a warning.

**Errors.** `print_error` exits with status 1. `SystemExit` is not caught by
`except Exception`, so every `print_error` ends the run, including one inside a `try`.
The model gives these a `Fatal` value:
- a bad course URL;
- a rejected folder;
- a failed sections request;
- a missing course title;
- unreadable row markup;
- a failed `os.mkdir`.

**What the model takes as given.** HTML is not parsed: the model takes the facts the CSS
selectors would extract (`CoursePage`, `SectionFacts`, `ItemFacts`, `Page`). The network is
a parameter (`Network`): what each request returns, and the stream pytube picks for a
watch URL. The filesystem is a set of directory paths plus a set of other paths (`Disk`).

**Structure.** The walk is defined step by step as functions in `Walker`. The
`Runner.Machine` class performs it in place, with loops over sections and rows, and every
method is proved to end in the state those functions give. `WalkItemsProps`,
`WalkSectionsProps` and `RunProps` prove what the walk and the whole run do.

**Working directory.** The model follows `os.chdir`, because where the walk looks for the
course folder depends on it (see Findings).

**Attachment links.** The code passes an attachment's `href` to `download_file` as it
stands, without resolving it against any URL (rwaq-dl.py:165).

## Model

| member | source | states |
|---|---|---|
| Text.Contains | rwaq-dl.py:151-167 | Python's `sub in s` on strings; `Text.ContainsAt` states that it holds exactly when `sub` occurs at some index |
| Text.ContainsAt | rwaq-dl.py:151-167 | `sub in s` holds exactly when `sub` occurs at some index of `s` |
| Text.StripLeftSpec | rwaq-dl.py:112 | stripping the left end leaves a suffix; what it removes is all whitespace, and the rest does not start with whitespace |
| Text.StripRightSpec | rwaq-dl.py:216 | stripping the right end leaves a prefix; what it removes is all whitespace, and the rest does not end with whitespace |
| Text.Strip | rwaq-dl.py:216 | `s.strip()` is never longer than `s`; `Text.StripSpec` and `Text.StripIdempotent` state the rest |
| Text.StripSpec | rwaq-dl.py:224 | `s.strip()` is a run of `s` surrounded only by whitespace, and neither starts nor ends with whitespace |
| Text.StripIdempotent | rwaq-dl.py:216 | stripping twice is stripping once |
| Naming.Digits | rwaq-dl.py:218 | decimal notation is at least one digit, exactly one for numbers below 10, and has no leading zero for a positive number |
| Naming.ValueOfDigits | rwaq-dl.py:218 | the decimal notation of `n` reads back as `n` |
| Naming.ValueLeadingZero | rwaq-dl.py:218 | a leading zero does not change the value of a digit string |
| Naming.Pad2 | rwaq-dl.py:218 | the `02` format is all digits, denotes `n`, is exactly two characters below 10, and is the plain notation from 10 up |
| Naming.FolderName | rwaq-dl.py:218 | a folder name is `n` zero-padded to two digits (`Pad2(n)`), a run of digits that reads back as `n`, then `- `, then the title |
| Naming.FolderNameExample | rwaq-dl.py:218 | entry 3 titled `Intro` is named `03- Intro` |
| Naming.FolderNameInjective | rwaq-dl.py:227 | equal folder names mean equal numbers and equal titles |
| Urls.SplitPath | rwaq-dl.py:74 | `split('/')` gives at least one segment, and no segment holds a `/` |
| Urls.JoinSplit | rwaq-dl.py:74 | joining the pieces of a split with `/` gives the text back |
| Urls.SplitAppend | rwaq-dl.py:74 | splitting `a/b`, for `b` without `/`, adds `b` as one more segment |
| Urls.SplitJoin | rwaq-dl.py:74 | splitting a `/`-join of segments without `/` gives the segments back |
| Urls.SegmentSplit | rwaq-dl.py:74 | text without `/` splits into itself |
| Urls.Consume | rwaq-dl.py:225 | consuming segments leaves no dot segment, is never longer, and leaves dot-free input unchanged |
| Urls.ConsumeAll | rwaq-dl.py:225 | the same; a non-empty input gives a non-empty output, and one ending in a dot segment gives an output ending in `""` (the trailing `/` that segment stands for) |
| Urls.ConsumeThrough | rwaq-dl.py:225 | consuming `a + b` is consuming `b` after the already consumed `a` |
| Urls.ConsumePops | rwaq-dl.py:225 | `x/..` cancels out wherever it stands, for `x` not a dot segment |
| Urls.ConsumeDropsDot | rwaq-dl.py:225 | a `.` segment is dropped wherever it stands |
| Urls.ConsumeAboveRoot | rwaq-dl.py:225 | a leading `..` has nothing to remove and is dropped |
| Urls.RemoveDotSegmentsPops | rwaq-dl.py:225 | on an absolute path `/a/x/../b` (with `b` non-empty) is `/a/b` |
| Urls.RemoveDotSegmentsPopsLast | rwaq-dl.py:225 | on an absolute path `/a/x/..` is `/a/` |
| Urls.RemoveDotSegmentsDropsDot | rwaq-dl.py:225 | on an absolute path `/a/./b` (with `b` non-empty) is `/a/b` |
| Urls.RemoveDotSegmentsDropsDotLast | rwaq-dl.py:225 | on an absolute path `/a/.` is `/a/` |
| Urls.RemoveDotSegmentsAboveRoot | rwaq-dl.py:225 | on an absolute path `/../b` (with `b` non-empty) is `/b`, and `/..` is `/` |
| Urls.RemoveDotSegments | rwaq-dl.py:225 | remove_dot_segments leaves no dot segment, keeps absolute paths absolute, leaves dot-free paths unchanged |
| Urls.RemoveDotSegmentsIdempotent | rwaq-dl.py:225 | removing dot segments twice is removing them once |
| Urls.Merge | rwaq-dl.py:76 | the merged path ends with the reference's segments |
| Urls.MergeText | rwaq-dl.py:76 | merge on path text: `/` then the reference for an authority with an empty path; the reference alone when the base path holds no `/`; otherwise the base path up to and including its last `/`, then the reference |
| Urls.Resolve | rwaq-dl.py:225 | which components of the base and of the reference the resolved URL takes, per kind of reference; the path is the reference path with dot segments removed when the reference has a scheme or authority or an absolute path, the base path when the reference is empty, and otherwise the merge of base and reference with dot segments removed; the result holds no dot segment unless the reference is empty |
| Urls.ResolveRelative | rwaq-dl.py:225 | a relative dot-free reference lands in the base's directory |
| Urls.ResolveExample | rwaq-dl.py:225 | `../lecture/5` against `/courses/econometrics/sections` is `/courses/lecture/5` |
| Urls.ConsumeExample | rwaq-dl.py:225 | in that example `..` removes `econometrics` |
| Urls.ValidateCourse | rwaq-dl.py:70-85 | accepted exactly for host `www.rwaq.org` with first segment `courses`; otherwise the host error, the missing-segment error or the not-a-course error, checked in that order; scheme and host kept |
| Urls.ValidatedIsSectionsPage | rwaq-dl.py:76 | an accepted dot-free URL becomes the URL with its last segment replaced by `sections` |
| Urls.ValidateSectionsUnchanged | rwaq-dl.py:76 | a URL already ending in `/sections` comes back unchanged |
| Urls.ValidateCourseIdempotent | rwaq-dl.py:70-85 | validating a validated course URL (one level below `/courses/`) changes nothing |
| Urls.VideoId | rwaq-dl.py:152 | the last segment of the player source's path; `Urls.VideoIdIsLastSegment` states it on path text |
| Urls.WatchUrl | rwaq-dl.py:152 | the watch page of an id, the fixed `https://www.youtube.com/watch?v=` prefix followed by the id |
| Urls.VideoIdIsLastSegment | rwaq-dl.py:152 | the video id has no `/` and is what follows the last `/` of the path text (the whole text when it has none) |
| Dispatch.Classify | rwaq-dl.py:151-173 | the kind of a type tag by the substring tests `play`, `file`, `list` in that order; `Dispatch.ClassifyPrecedence` and the example lemmas below state it |
| Dispatch.ClassifyPrecedence | rwaq-dl.py:151-173 | `play` wins over everything, `file` over `list`; unrecognized exactly when none of the three occurs |
| Dispatch.ClassifyPlaylist | rwaq-dl.py:151 | `playlist` is a video |
| Dispatch.ClassifyPlayIcon | rwaq-dl.py:151 | `play-icon` is a video |
| Dispatch.ClassifyFileIcon | rwaq-dl.py:158 | `file-icon` is a document |
| Dispatch.ClassifyListIcon | rwaq-dl.py:167 | `list-icon` is a listing |
| Dispatch.ClassifySiteIcons | rwaq-dl.py:172-173 | `site-icons` is unrecognized |
| Dispatch.AttachmentDownloads | rwaq-dl.py:162-165 | one download per anchor from its `href` and `title`, in anchor order, stopping at the first anchor missing either; the flag says whether all were usable |
| Dispatch.EmitAttachments | rwaq-dl.py:163-165 | the loop emits exactly those downloads and that flag |
| Dispatch.ItemContents | rwaq-dl.py:147-178 | all actions stay in the item folder; a failed request or unrecognized tag only warns; a recognized tag on a fetched page warns only that the item cannot be downloaded; a video succeeds exactly when the page has a player and a stream is offered for its watch URL, and is then that one download; a listing succeeds exactly when the page has a title and is then one `<title>.html` save; a document missing its body or title only warns, and otherwise is `<title>.txt` then the attachment downloads, warning exactly when an anchor is unusable |
| Fs.MkDirIfMissing | rwaq-dl.py:219-220 | an existing entry is left alone; a missing one is created when its parent is a directory and fails otherwise; nothing else changes |
| Fs.MkDirIfMissingIdempotent | rwaq-dl.py:230-231 | a second creation changes nothing, and the path exists after the first |
| Fs.MkDirIfMissingValid | rwaq-dl.py:219-220 | creation keeps the tree well formed |
| Fs.MakeDirs | rwaq-dl.py:100 | `os.makedirs` without `exist_ok` fails exactly when the path already exists or some ancestor is a non-directory, and otherwise adds the path and its ancestors |
| Fs.CheckFolder | rwaq-dl.py:90-104 | `check_folder` as a function of the disk and working directory; `Fs.CheckFolderOutcome`, `Fs.CheckFolderIdempotent` and `Fs.CheckFolderValid` state it |
| Fs.CheckFolderOutcome | rwaq-dl.py:90-104 | the three-way decision: reuse a directory unchanged, refuse a non-directory unchanged, create a missing path unless blocked; on success the working directory is the folder; files never change and directories are only added |
| Fs.CheckFolderIdempotent | rwaq-dl.py:90-104 | checking the same absolute folder again changes nothing |
| Fs.CheckFolderValid | rwaq-dl.py:90-104 | a successful check keeps the tree well formed |
| Walker.Entry | rwaq-dl.py:218 | an entry folder is one component below its parent |
| Walker.Visit | rwaq-dl.py:224-232 | the call for a row: its `href` resolved against the course URL, the first icon class as tag; `WalkItemsProps.ItemEventsAt` and `WalkItemsProps.ItemStepReadsFirstClassOnly` state it |
| Walker.ItemStep | rwaq-dl.py:222-232 | one row; `WalkItemsProps.ItemStepFacts` states what it changes and when it stops |
| Walker.WalkItems | rwaq-dl.py:221-233 | the rows of a section in order; the `WalkItemsProps` lemmas state its frame, folders, log and stopping |
| Walker.SectionStep | rwaq-dl.py:214-233 | one section; `WalkSectionsProps.SectionStepFacts`, `SectionStepDone` and `SectionStepLog` state it |
| Walker.WalkSections | rwaq-dl.py:213-234 | the sections of a course in order; the `WalkSectionsProps` lemmas state its frame, folders, log and stopping |
| Walker.Run | rwaq-dl.py:205-240 | the main block after login; the `RunProps` lemmas state it |
| Walker.RunFromAbsolute | rwaq-dl.py:205-214 | the main block with the folder made absolute first; `RunProps.RunFromAbsoluteLayout` and `RunProps.RunFromAbsoluteCompletes` state it |
| WalkItemsProps.ItemEvents | rwaq-dl.py:222-232 | one call per row |
| WalkItemsProps.ItemEventsAt | rwaq-dl.py:222-232 | the `j`-th call is the visit of row `j`, in the folder numbered `j + 1` and named after that row's title |
| WalkItemsProps.WalkItemsStops | rwaq-dl.py:239-240 | once a row ends the run, later rows change nothing |
| WalkItemsProps.ItemStepFacts | rwaq-dl.py:223-232 | a row keeps the working directory and the non-directory entries of the disk, adds at most its own folder, appends to the log, stops only on markup or mkdir; when it does not stop, its folder exists and its one call is logged |
| WalkItemsProps.WalkItemsFrame | rwaq-dl.py:222-233 | the row walk keeps the working directory and the non-directory entries of the disk, never removes a directory, only appends to the log, stops only on markup or mkdir |
| WalkItemsProps.WalkItemsCreatesOnlyItemFolders | rwaq-dl.py:227-231 | the only directories created are the section's item folders |
| WalkItemsProps.WalkItemsComplete | rwaq-dl.py:221-231 | after a walk that did not stop, every row is readable and its folder, numbered from 1, exists |
| WalkItemsProps.WalkItemsFolderAt | rwaq-dl.py:221-231 | the same for one row `j`: it is readable and its folder, numbered `j + 1`, exists at the end |
| WalkItemsProps.WalkItemsLog | rwaq-dl.py:232 | the log grows by exactly one call per row, in row order |
| WalkItemsProps.Calls | rwaq-dl.py:232 | one `(url, tag, folder)` record per log entry, in log order, taken from that entry |
| WalkItemsProps.WalkItemsIgnoresOutcomes | rwaq-dl.py:175-178 | what the item pages and streams are does not change which folders are made, which calls are made or where the walk stops |
| WalkItemsProps.WalkItemsNoFilesCompletes | rwaq-dl.py:230-231 | with no non-directory on the disk, readable rows under an existing section folder never stop the walk |
| WalkItemsProps.ItemStepReadsFirstClassOnly | rwaq-dl.py:226 | only the first class of the row icon matters |
| WalkItemsProps.ItemFoldersDistinct | rwaq-dl.py:227 | different rows of a section get different folders |
| WalkSectionsProps.WalkSectionsStops | rwaq-dl.py:239-240 | once a section ends the run, later sections change nothing |
| WalkSectionsProps.SectionStepFacts | rwaq-dl.py:214-233 | a section keeps the working directory and the non-directory entries of the disk, creates only its folder and its item folders, appends to the log, stops only on markup or mkdir |
| WalkSectionsProps.SectionStepDone | rwaq-dl.py:216-231 | a section that did not stop has its folder and all its item folders |
| WalkSectionsProps.SectionStepLog | rwaq-dl.py:222-232 | a readable section appends exactly its rows' calls |
| WalkSectionsProps.WalkSectionsFrame | rwaq-dl.py:213-234 | the course walk keeps the working directory and the non-directory entries of the disk, never removes a directory, only appends to the log, stops only on markup or mkdir |
| WalkSectionsProps.WalkSectionsCreatesOnlyCourseFolders | rwaq-dl.py:218-231 | the only directories created are section and item folders of the course |
| WalkSectionsProps.WalkSectionsLast | rwaq-dl.py:214-215 | a completed walk is the walk of all sections but the last, then the last one as section `n` |
| WalkSectionsProps.WalkSectionsComplete | rwaq-dl.py:213-231 | after a walk that did not stop, section `i` has folder number `i` and every row in it has its folder, numbering restarting at 1 |
| WalkSectionsProps.CourseEventsLast | rwaq-dl.py:214-232 | the calls of a course are those of its leading sections, then the last section's |
| WalkSectionsProps.WalkSectionsLog | rwaq-dl.py:213-233 | the log grows by exactly one call per row, sections in order and rows in order within each |
| WalkSectionsProps.WalkSectionsIgnoresOutcomes | rwaq-dl.py:175-178 | over the whole course, item pages and streams do not change folders, calls or where the walk stops |
| WalkSectionsProps.WalkSectionsNoFilesCompletes | rwaq-dl.py:218-231 | with no non-directory on the disk, a readable course under an existing course folder never stops |
| WalkSectionsProps.SectionStepNoFilesCompletes | rwaq-dl.py:216-231 | with no non-directory on the disk, a readable section under an existing course folder never stops the walk |
| WalkSectionsProps.ItemFoldersUnique | rwaq-dl.py:215-227 | no two rows of a course share a folder, across sections too |
| RunProps.RunFrame | rwaq-dl.py:205-240 | a run never changes the non-directory entries of the disk (writes and downloads are recorded as actions), never removes directories, only appends to the log; a bad URL stops it first; errors before the walk leave the log as it was |
| RunProps.RunReachesWalk | rwaq-dl.py:207-214 | past both checks, the run is the walk from the course folder as the script names it, located from the working directory after the second check |
| RunProps.RunRelativeWalkDir | rwaq-dl.py:137-140 | with relative folder `ps`, the checks move into `cwd/ps` then `cwd/ps/ps/title`, and the walk uses `cwd/ps/ps/title/ps/title` |
| RunProps.FirstSectionFails | rwaq-dl.py:218-220 | when the course folder is not a directory, the walk stops at the first titled section with `MkdirFailed`, changing nothing |
| RunProps.RunRelativeFails | rwaq-dl.py:90-104 | with a relative folder, whenever both checks pass and the doubled folder is missing, the run ends with `MkdirFailed` and no call is made |
| RunProps.RunRelativeFailsOnFreshFolder | rwaq-dl.py:205-220 | with a relative folder that does not exist yet, on a disk without files, every run that reaches a titled first section ends with `MkdirFailed` |
| RunProps.RunFromAbsoluteWalk | rwaq-dl.py:205-214 | with the folder made absolute, a completed run created the download and course folders, changed no non-directory entry of the disk, and walked from `folder/title` |
| RunProps.RunFromAbsoluteLayout | rwaq-dl.py:205-234 | with the folder made absolute, a completed run ends in the course folder, creates only its ancestors, sections and items, lays out every section and row, and logs one call per row in order |
| RunProps.RunFromAbsoluteReachesWalk | rwaq-dl.py:208-212 | with the folder made absolute and no file on the disk, both checks succeed and the walk starts in `folder/title` |
| RunProps.RunFromAbsoluteCompletes | rwaq-dl.py:205-234 | with the folder made absolute and no file on the disk, a readable course always completes |
| Runner.Machine.constructor | rwaq-dl.py:205 | the machine starts in the given state |
| Runner.Machine.MakeDirIfMissing | rwaq-dl.py:219-220 | leaves exactly the disk `Fs.MkDirIfMissing` gives, and reports whether it succeeded |
| Runner.Machine.CheckFolder | rwaq-dl.py:90-104 | leaves exactly the disk, working directory and error `Fs.CheckFolder` gives |
| Runner.Machine.ItemStep | rwaq-dl.py:223-233 | leaves exactly the state and error of `Walker.ItemStep` |
| Runner.Machine.SectionStep | rwaq-dl.py:214-234 | the row loop leaves exactly the state and error of `Walker.SectionStep` |
| Runner.Machine.Walk | rwaq-dl.py:213-234 | the section loop leaves exactly the state and error of `Walker.WalkSections` |
| Runner.Machine.Run | rwaq-dl.py:205-240 | the main block leaves exactly the state and error of `Walker.Run` |
| Runner.Machine.RunFromAbsolute | rwaq-dl.py:205-240 | the corrected main block leaves exactly the state and error of `Walker.RunFromAbsolute` |

## Left out

- Login (rwaq-dl.py:52-65) is network I/O: the model starts after a successful login.
- Streamed transfers in `download_file` are network and file I/O. The function catches
  all of its own errors, so a download is recorded as an attempted `Download` action.
- The progress bar's float total is presentation.
- pytube's stream choice is a foreign library. It is the `stream` parameter of `Network`.
- BeautifulSoup parsing and the CSS selectors are left out: the model takes the extracted
  facts, with `None` for a missing element or attribute.
- Colour printing and argparse are presentation and CLI. Warnings and info messages are
  not modelled; `print_error` is a `Fatal` value.
- The contents of written files are I/O: writes are recorded as actions with their
  file names only.
- The files that `get_item_contents` and `download_file` write into item folders
  (rwaq-dl.py:160, 168, 189) are recorded as `Action`s only and are not entered into
  `Disk`. Statements that a run keeps the disk's non-directory entries speak of `Disk`
  alone.
- URL parsing (`urlsplit` of text) is left out: URLs are taken already split. Query and
  fragment are not modelled, so resolution ignores them.
- `Urls.Resolve`: modelled after section 5.2 of RFC 3986, not after CPython's `urljoin`.
  CPython's own corner cases (references with a different scheme, schemes outside its
  `uses_relative` list, empty segments) are not modelled. CPython returns a reference
  with an authority unchanged, dot segments included, where `Resolve` removes them.
  CPython resolves a same-scheme reference without an authority (`https:x`) against the
  base, where `Resolve` keeps the reference alone.
- `os.path.join` is modelled for a title that is one relative path component. A title
  holding `/`, starting with `/`, or equal to `.` or `..` is joined as one component.
  A course title that strips to the empty string (rwaq-dl.py:112) makes
  `os.path.join(folder, '')` the download folder itself, while `Fs.Child` adds an empty
  component. The mapping from the `--folder` text to a `PathArg` is not modelled either:
  `--folder ""` makes `os.makedirs('')` raise, while `Rel([])` is the working directory.
- `Dispatch.ItemContents`: does not model a write that fails. The model records every
  write as done; in the script a failing `open` is a warning that skips the item's
  remaining actions.
- `Fs.MkDirIfMissing`: `os.mkdir` fails only under a missing or non-directory parent.
  Permissions, races and other OS errors are not modelled.
- `Fs.MakeDirs`: `os.makedirs` fails only for a path that already exists or under a
  non-directory ancestor. Permissions, races and other OS errors are not modelled.
- A non-2xx response to the sections request is not a `RequestException`. It reaches the
  model as whatever page facts the response carries, typically `NoCourseTitle`.
- The `return course` after `print_error` (rwaq-dl.py:79, 85) cannot be reached, because
  `print_error` exits.

## Findings

| source | as written | input that shows it | evidently intended | confidence | as-written member | corrected member |
|---|---|---|---|---|---|---|
| rwaq-dl.py:137-140 | `check_folder` changes into the download folder, then `course_folder` checks `os.path.join(folder, title)` relative to it (creating `folder/folder/title`) and changes there, and the walk joins `folder/title` once more relative to that; with a relative `--folder` the first section folder is made under a missing parent | run from `/home` with `--folder dl` on a disk holding only `/home`, a course titled `T` whose first section is `S`: the walk tries `/home/dl/dl/T/dl/T/01- S`, `os.mkdir` raises, and the run ends with `Error (...)`, exit status 1, before any item is downloaded | the course laid out in `/home/dl/T`, as it is for an absolute `--folder`: make the folder absolute first | high (not executed) | RunProps.RunRelativeFailsOnFreshFolder | RunProps.RunFromAbsoluteCompletes |
