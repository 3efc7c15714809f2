/** What a whole run of the script does: errors before the walk change nothing but the
    folders `check_folder` creates, a relative download folder sends the walk to a folder
    that was never created, and the run with the download folder made absolute lays out
    the whole course under `folder/title` and dispatches every item in order. */
module RunProps {
  import opened Common
  import opened Text
  import opened Urls
  import opened Fs
  import opened Dispatch
  import opened Walker
  import opened WalkItemsProps
  import opened WalkSectionsProps

  /** A run leaves the non-directory entries of the disk as they were (the files items
      write are actions in the log), never removes a directory and only appends to the
      log; a bad course URL ends it before anything else, and every error raised before
      the walk leaves the log as it was. */
  lemma RunFrame(w: World, course: Uri, folder: PathArg, net: Network)
    ensures var r := Run(w, course, folder, net);
      && r.world.disk.files == w.disk.files
      && w.disk.dirs <= r.world.disk.dirs
      && |w.log| <= |r.world.log| && r.world.log[..|w.log|] == w.log
      && (ValidateCourse(course).Err? ==> r == Walked(w, Some(BadCourseUrl(ValidateCourse(course).error))))
      && (r.fatal.Some? && !(r.fatal.value == MissingMarkup || r.fatal.value == MkdirFailed) ==> r.world.log == w.log)
  {
    if ValidateCourse(course).Ok? {
      var c1 := CheckFolder(w.disk, w.cwd, folder);
      CheckFolderOutcome(w.disk, w.cwd, folder);
      if c1.error.None? && net.course(ValidateCourse(course).value).Some? {
        var page := net.course(ValidateCourse(course).value).value;
        if page.title.Some? {
          var courseFolder := Child(folder, Strip(page.title.value));
          CheckFolderOutcome(c1.disk, c1.cwd, courseFolder);
          var c2 := CheckFolder(c1.disk, c1.cwd, courseFolder);
          if c2.error.None? {
            WalkSectionsFrame(World(c2.disk, c2.cwd, w.log), ValidateCourse(course).value,
                              Locate(c2.cwd, courseFolder), page.sections, net);
          }
        }
      }
    }
  }

  /** The folder a run walks the sections in when the download folder is given as the
      relative path `ps`: `check_folder` has already moved into `ps` and then into
      `ps/title` below it, and the walk names the course folder `ps/title` once more,
      relative to that. */
  lemma RunRelativeWalkDir(w: World, course: Uri, ps: seq<string>, net: Network)
    requires ValidateCourse(course).Ok?
    requires CheckFolder(w.disk, w.cwd, Rel(ps)).error.None?
    requires net.course(ValidateCourse(course).value).Some?
    requires net.course(ValidateCourse(course).value).value.title.Some?
    ensures var url := ValidateCourse(course).value;
      var page := net.course(url).value;
      var t := Strip(page.title.value);
      var c1 := CheckFolder(w.disk, w.cwd, Rel(ps));
      var c2 := CheckFolder(c1.disk, c1.cwd, Rel(ps + [t]));
      && c1.cwd == w.cwd + ps
      && Locate(c1.cwd, Rel(ps + [t])) == w.cwd + ps + ps + [t]
      && (c2.error.None? ==>
            Run(w, course, Rel(ps), net)
            == WalkSections(World(c2.disk, c2.cwd, w.log), url, w.cwd + ps + ps + [t] + ps + [t], page.sections, net))
  {
    var url := ValidateCourse(course).value;
    var page := net.course(url).value;
    var t := Strip(page.title.value);
    CheckFolderOutcome(w.disk, w.cwd, Rel(ps));
    var c1 := CheckFolder(w.disk, w.cwd, Rel(ps));
    CheckFolderOutcome(c1.disk, c1.cwd, Rel(ps + [t]));
    var c2 := CheckFolder(c1.disk, c1.cwd, Rel(ps + [t]));
    assert (w.cwd + ps) + (ps + [t]) == w.cwd + ps + ps + [t];
    if c2.error.None? {
      RunReachesWalk(w, course, Rel(ps), net);
      assert Locate(c2.cwd, Rel(ps + [t])) == w.cwd + ps + ps + [t] + ps + [t];
    }
  }

  /** A run that gets past both checks walks the sections from the course folder as the
      script names it, located from where the second check left the working directory. */
  lemma RunReachesWalk(w: World, course: Uri, folder: PathArg, net: Network)
    requires ValidateCourse(course).Ok?
    requires CheckFolder(w.disk, w.cwd, folder).error.None?
    requires net.course(ValidateCourse(course).value).Some?
    requires net.course(ValidateCourse(course).value).value.title.Some?
    requires var c1 := CheckFolder(w.disk, w.cwd, folder);
      var page := net.course(ValidateCourse(course).value).value;
      CheckFolder(c1.disk, c1.cwd, Child(folder, Strip(page.title.value))).error.None?
    ensures var url := ValidateCourse(course).value;
      var page := net.course(url).value;
      var courseFolder := Child(folder, Strip(page.title.value));
      var c1 := CheckFolder(w.disk, w.cwd, folder);
      var c2 := CheckFolder(c1.disk, c1.cwd, courseFolder);
      Run(w, course, folder, net)
      == WalkSections(World(c2.disk, c2.cwd, w.log), url, Locate(c2.cwd, courseFolder), page.sections, net)
  {
  }

  /** A path longer than `p` is none of `p`'s prefixes. */
  lemma NotAPrefix(p: Path, q: Path)
    requires |q| > |p|
    ensures q !in Prefixes(p)
  {
  }

  /** When the course folder the walk uses is not a directory, the walk stops at the first
      titled section: its folder cannot be created below a missing parent. */
  lemma FirstSectionFails(w: World, base: Uri, courseDir: Path, sections: seq<SectionFacts>, net: Network)
    requires Valid(w.disk) && courseDir !in w.disk.dirs
    requires sections != [] && sections[0].title.Some?
    ensures WalkSections(w, base, courseDir, sections, net) == Walked(w, Some(MkdirFailed))
  {
    var first := Entry(courseDir, 1, sections[0].title.value);
    assert first[..|first| - 1] == courseDir;
    assert sections[..1][..0] == [];
    assert WalkSections(w, base, courseDir, sections[..1], net) == Walked(w, Some(MkdirFailed));
    WalkSectionsStops(w, base, courseDir, sections, 1, net);
  }

  /** The situation of a run with the relative download folder `ps`: a well-formed disk,
      an accepted course URL, a download folder that `check_folder` accepts, a sections page
      with a title and a titled first section, nothing on the way to `ps/ps/title` that is
      not a directory, and no folder `ps/ps/title/ps/title` below the working directory. */
  ghost predicate RelativeSetup(w: World, course: Uri, ps: seq<string>, net: Network)
  {
    && Valid(w.disk)
    && ValidateCourse(course).Ok?
    && CheckFolder(w.disk, w.cwd, Rel(ps)).error.None?
    && net.course(ValidateCourse(course).value).Some?
    && net.course(ValidateCourse(course).value).value.title.Some?
    && net.course(ValidateCourse(course).value).value.sections != []
    && net.course(ValidateCourse(course).value).value.sections[0].title.Some?
    && var t := Strip(net.course(ValidateCourse(course).value).value.title.value);
       && !BlockedByFile(w.disk, w.cwd + ps + ps + [t])
       && w.cwd + ps + ps + [t] + ps + [t] !in w.disk.dirs
  }

  /** With a relative download folder the run always dies at the first section: the walk
      looks for the course folder at `ps/title/ps/title` below the download folder, which
      neither existed before nor was created by `check_folder`, so `os.mkdir` of the first
      section folder fails and the run ends with exit status 1 before anything is
      downloaded. */
  lemma RunRelativeFails(w: World, course: Uri, ps: seq<string>, net: Network)
    requires RelativeSetup(w, course, ps, net)
    ensures var r := Run(w, course, Rel(ps), net);
      r.fatal == Some(MkdirFailed) && r.world.log == w.log
  {
    var url := ValidateCourse(course).value;
    var page := net.course(url).value;
    var t := Strip(page.title.value);
    var c1 := CheckFolder(w.disk, w.cwd, Rel(ps));
    var c2 := CheckFolder(c1.disk, c1.cwd, Rel(ps + [t]));
    RunRelativeWalkDir(w, course, ps, net);
    CheckFolderOutcome(w.disk, w.cwd, Rel(ps));
    CheckFolderValid(w.disk, w.cwd, Rel(ps));
    CheckFolderOutcome(c1.disk, c1.cwd, Rel(ps + [t]));
    var q := w.cwd + ps + ps + [t];
    assert !BlockedByFile(c1.disk, q);
    assert q !in c1.disk.files by {
      assert q[..|q|] == q;
    }
    assert c2.error.None?;
    CheckFolderValid(c1.disk, c1.cwd, Rel(ps + [t]));
    var dir := w.cwd + ps + ps + [t] + ps + [t];
    NotAPrefix(w.cwd + ps, dir);
    NotAPrefix(w.cwd + ps + ps + [t], dir);
    assert dir !in c2.disk.dirs;
    FirstSectionFails(World(c2.disk, c2.cwd, w.log), url, dir, page.sections, net);
  }

  /** The run with the download folder made absolute, when it completes: the course folder
      `folder/title` is the working directory, every section folder and every item folder
      exists below it, every item of the course was dispatched in document order with its
      own folder, the non-directory entries of the disk are unchanged, and the only directories created are
      the course folder, its ancestors and the course's section and item folders. */
  lemma RunFromAbsoluteLayout(w: World, course: Uri, folder: PathArg, net: Network)
    requires RunFromAbsolute(w, course, folder, net).fatal.None?
    ensures ValidateCourse(course).Ok?
    ensures net.course(ValidateCourse(course).value).Some?
    ensures net.course(ValidateCourse(course).value).value.title.Some?
    ensures var url := ValidateCourse(course).value;
      var page := net.course(url).value;
      var courseDir := Locate(w.cwd, folder) + [Strip(page.title.value)];
      var r := RunFromAbsolute(w, course, folder, net).world;
      && r.cwd == courseDir
      && courseDir in r.disk.dirs
      && r.disk.files == w.disk.files
      && r.disk.dirs <= w.disk.dirs + Prefixes(courseDir) + CourseFolders(courseDir, page.sections)
      && (forall i :: 0 <= i < |page.sections| ==> SectionDone(r.disk, courseDir, i + 1, page.sections[i]))
      && CourseReadable(page.sections)
      && r.log == w.log + CourseEvents(url, courseDir, page.sections, net)
  {
    var url := ValidateCourse(course).value;
    var page := net.course(url).value;
    var courseDir := Locate(w.cwd, folder) + [Strip(page.title.value)];
    RunFromAbsoluteWalk(w, course, folder, net);
    var c1 := CheckFolder(w.disk, w.cwd, Abs(Locate(w.cwd, folder)));
    var c2 := CheckFolder(c1.disk, c1.cwd, Abs(courseDir));
    var w2 := World(c2.disk, courseDir, w.log);
    WalkSectionsFrame(w2, url, courseDir, page.sections, net);
    WalkSectionsCreatesOnlyCourseFolders(w2, url, courseDir, page.sections, net);
    WalkSectionsComplete(w2, url, courseDir, page.sections, net);
    var d := WalkSections(w2, url, courseDir, page.sections, net).world.disk;
    forall i | 0 <= i < |page.sections| ensures SectionReadable(page.sections[i]) {
      assert SectionDone(d, courseDir, i + 1, page.sections[i]);
    }
    WalkSectionsLog(w2, url, courseDir, page.sections, net);
  }

  /** A run made absolute first that did not stop before the walk made its download and
      course folders, left the disk's non-directory entries unchanged, and walks from the course folder. */
  lemma RunFromAbsoluteWalk(w: World, course: Uri, folder: PathArg, net: Network)
    requires RunFromAbsolute(w, course, folder, net).fatal.None?
    ensures ValidateCourse(course).Ok?
    ensures net.course(ValidateCourse(course).value).Some?
    ensures net.course(ValidateCourse(course).value).value.title.Some?
    ensures var url := ValidateCourse(course).value;
      var page := net.course(url).value;
      var courseDir := Locate(w.cwd, folder) + [Strip(page.title.value)];
      var c1 := CheckFolder(w.disk, w.cwd, Abs(Locate(w.cwd, folder)));
      var c2 := CheckFolder(c1.disk, c1.cwd, Abs(courseDir));
      && c2.error.None? && c2.cwd == courseDir && courseDir in c2.disk.dirs
      && c2.disk.files == w.disk.files
      && w.disk.dirs <= c2.disk.dirs <= w.disk.dirs + Prefixes(courseDir)
      && RunFromAbsolute(w, course, folder, net) == WalkSections(World(c2.disk, courseDir, w.log), url, courseDir, page.sections, net)
  {
    var q := Locate(w.cwd, folder);
    var url := ValidateCourse(course).value;
    var page := net.course(url).value;
    var courseDir := q + [Strip(page.title.value)];
    var c1 := CheckFolder(w.disk, w.cwd, Abs(q));
    CheckFolderOutcome(w.disk, w.cwd, Abs(q));
    var c2 := CheckFolder(c1.disk, c1.cwd, Abs(courseDir));
    CheckFolderOutcome(c1.disk, c1.cwd, Abs(courseDir));
    PrefixesOfParent(q, Strip(page.title.value));
  }

  /** The ancestors of a folder are ancestors of its children. */
  lemma PrefixesOfParent(q: Path, name: string)
    ensures Prefixes(q) <= Prefixes(q + [name])
  {
    forall p | p in Prefixes(q) ensures p in Prefixes(q + [name]) {
      var k :| 0 <= k <= |q| && p == q[..k];
      assert p == (q + [name])[..k];
    }
  }

  /** On a disk without non-directory files, the run with the download folder made
      absolute reaches the walk once the sections page and its title are there: both
      checks create their folders, and the walk starts in `folder/title`. */
  lemma RunFromAbsoluteReachesWalk(w: World, course: Uri, folder: PathArg, net: Network)
    requires w.disk.files == {}
    requires ValidateCourse(course).Ok?
    requires net.course(ValidateCourse(course).value).Some?
    requires net.course(ValidateCourse(course).value).value.title.Some?
    ensures var url := ValidateCourse(course).value;
      var page := net.course(url).value;
      var q := Locate(w.cwd, folder);
      var courseDir := q + [Strip(page.title.value)];
      var c1 := CheckFolder(w.disk, w.cwd, Abs(q));
      var c2 := CheckFolder(c1.disk, c1.cwd, Abs(courseDir));
      && c2.error.None? && c2.disk.files == {} && courseDir in c2.disk.dirs
      && RunFromAbsolute(w, course, folder, net) == WalkSections(World(c2.disk, courseDir, w.log), url, courseDir, page.sections, net)
  {
    var url := ValidateCourse(course).value;
    var page := net.course(url).value;
    var q := Locate(w.cwd, folder);
    var courseDir := q + [Strip(page.title.value)];
    CheckFolderOutcome(w.disk, w.cwd, Abs(q));
    var c1 := CheckFolder(w.disk, w.cwd, Abs(q));
    assert !BlockedByFile(w.disk, q);
    CheckFolderOutcome(c1.disk, c1.cwd, Abs(courseDir));
    assert !BlockedByFile(c1.disk, courseDir);
  }

  /** As written, the run fails for every fresh relative download folder: when the disk
      holds no non-directory file and nothing exists at or below `cwd/ps`, a run that gets
      as far as a first section with a title ends with `MkdirFailed`. From `/home`, with
      `--folder dl`, a course titled `T` and a first section `S` is one such run. */
  lemma RunRelativeFailsOnFreshFolder(w: World, course: Uri, ps: seq<string>, net: Network)
    requires Valid(w.disk) && w.disk.files == {}
    requires forall p :: p in w.disk.dirs ==> !(w.cwd + ps <= p)
    requires ValidateCourse(course).Ok?
    requires net.course(ValidateCourse(course).value).Some?
    requires net.course(ValidateCourse(course).value).value.title.Some?
    requires net.course(ValidateCourse(course).value).value.sections != []
    requires net.course(ValidateCourse(course).value).value.sections[0].title.Some?
    ensures Run(w, course, Rel(ps), net).fatal == Some(MkdirFailed)
  {
    var page := net.course(ValidateCourse(course).value).value;
    FreshFolderDisk(w, ps, Strip(page.title.value));
    RunRelativeFails(w, course, ps, net);
  }

  /** On a fresh relative download folder, the first check succeeds, nothing blocks the
      second, and the folder the walk uses does not exist. */
  lemma FreshFolderDisk(w: World, ps: seq<string>, t: string)
    requires w.disk.files == {}
    requires forall p :: p in w.disk.dirs ==> !(w.cwd + ps <= p)
    ensures CheckFolder(w.disk, w.cwd, Rel(ps)).error.None?
    ensures !BlockedByFile(w.disk, w.cwd + ps + ps + [t])
    ensures w.cwd + ps + ps + [t] + ps + [t] !in w.disk.dirs
  {
    var q := w.cwd + ps;
    CheckFolderOutcome(w.disk, w.cwd, Rel(ps));
    assert q !in w.disk.dirs by {
      assert q <= q;
    }
    var dir := w.cwd + ps + ps + [t] + ps + [t];
    assert dir !in w.disk.dirs by {
      assert dir[..|q|] == q;
      assert q <= dir;
    }
  }

  /** Made absolute first, the run completes on every disk without non-directory files
      once the sections page, its title and every row's markup are readable. */
  lemma RunFromAbsoluteCompletes(w: World, course: Uri, folder: PathArg, net: Network)
    requires w.disk.files == {}
    requires ValidateCourse(course).Ok?
    requires net.course(ValidateCourse(course).value).Some?
    requires net.course(ValidateCourse(course).value).value.title.Some?
    requires CourseReadable(net.course(ValidateCourse(course).value).value.sections)
    ensures RunFromAbsolute(w, course, folder, net).fatal.None?
  {
    var url := ValidateCourse(course).value;
    var page := net.course(url).value;
    var courseDir := Locate(w.cwd, folder) + [Strip(page.title.value)];
    RunFromAbsoluteReachesWalk(w, course, folder, net);
    var c1 := CheckFolder(w.disk, w.cwd, Abs(Locate(w.cwd, folder)));
    var c2 := CheckFolder(c1.disk, c1.cwd, Abs(courseDir));
    WalkSectionsNoFilesCompletes(World(c2.disk, courseDir, w.log), url, courseDir, page.sections, net);
  }
}
