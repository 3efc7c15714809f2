/** The script's main block as it runs: one object holding the disk, the working directory
    and the log of `get_item_contents` calls, changed in place step by step. Every method is
    proved to leave exactly the state that the matching function of `Walker` describes, so
    everything proved about those functions holds of the run. */
module Runner {
  import opened Common
  import opened Text
  import opened Urls
  import opened Fs
  import opened Dispatch
  import opened Walker
  import opened WalkItemsProps
  import opened WalkSectionsProps

  class Machine {
    var disk: Disk
    var cwd: Path
    var log: seq<Event>

    /** The state as a value. */
    function State(): World
      reads this
    {
      World(disk, cwd, log)
    }

    constructor (w: World)
      ensures State() == w
    {
      disk, cwd, log := w.disk, w.cwd, w.log;
    }

    /** `if not os.path.exists(p): os.mkdir(p)`; false when `os.mkdir` raises. */
    method MakeDirIfMissing(p: Path) returns (ok: bool)
      modifies this
      ensures ok == Fs.MkDirIfMissing(old(disk), p).Some?
      ensures disk == (if ok then Fs.MkDirIfMissing(old(disk), p).value else old(disk))
      ensures cwd == old(cwd) && log == old(log)
    {
      if p in disk.dirs || p in disk.files {
        return true;
      }
      if p != [] && p[..|p| - 1] in disk.dirs {
        disk := Disk(disk.dirs + {p}, disk.files);
        return true;
      }
      return false;
    }

    /** `check_folder(p)`: reuse a directory, refuse a non-directory, otherwise
        `os.makedirs`; then `os.chdir` into the folder. */
    method CheckFolder(p: PathArg) returns (error: Option<FolderError>)
      modifies this
      ensures Checked(disk, cwd, error) == Fs.CheckFolder(old(disk), old(cwd), p)
      ensures log == old(log)
    {
      var q := Locate(cwd, p);
      if q !in disk.dirs {
        if q in disk.files {
          return Some(InvalidDownloadFolder);
        }
        if BlockedByFile(disk, q) {
          return Some(CannotCreateFolder);
        }
        disk := Disk(disk.dirs + Prefixes(q), disk.files);
      }
      cwd := q;
      error := None;
    }

    /** One item row: read it, create its folder, call `get_item_contents`. */
    method ItemStep(base: Uri, dir: Path, n: nat, it: ItemFacts, net: Network) returns (fatal: Option<Fatal>)
      modifies this
      ensures Walked(State(), fatal) == Walker.ItemStep(old(State()), base, dir, n, it, net)
    {
      if it.title.None? || it.href.None? || it.iconClasses.None? || it.iconClasses.value == [] {
        return Some(MissingMarkup);
      }
      var folder := Entry(dir, n, it.title.value);
      var ok := MakeDirIfMissing(folder);
      if !ok {
        return Some(MkdirFailed);
      }
      log := log + [Visit(base, net, it, folder)];
      fatal := None;
    }

    /** One section: read its title, create its folder, then walk its item rows in order,
        numbered from 1, stopping at the first fatal error. */
    method SectionStep(base: Uri, courseDir: Path, n: nat, s: SectionFacts, net: Network) returns (fatal: Option<Fatal>)
      modifies this
      ensures Walked(State(), fatal) == Walker.SectionStep(old(State()), base, courseDir, n, s, net)
    {
      if s.title.None? {
        return Some(MissingMarkup);
      }
      var dir := Entry(courseDir, n, s.title.value);
      var ok := MakeDirIfMissing(dir);
      if !ok {
        return Some(MkdirFailed);
      }
      ghost var start := State();
      var i := 0;
      while i < |s.items|
        invariant 0 <= i <= |s.items|
        invariant Walked(State(), None) == WalkItems(start, base, dir, s.items[..i], net)
      {
        WalkItemsNext(start, base, dir, s.items, i, net);
        fatal := ItemStep(base, dir, i + 1, s.items[i], net);
        if fatal.Some? {
          WalkItemsStops(start, base, dir, s.items, i + 1, net);
          return;
        }
        i := i + 1;
      }
      assert s.items[..i] == s.items;
      fatal := None;
    }

    /** The sections of the course in order, numbered from 1, stopping at the first fatal
        error. */
    method Walk(base: Uri, courseDir: Path, sections: seq<SectionFacts>, net: Network) returns (fatal: Option<Fatal>)
      modifies this
      ensures Walked(State(), fatal) == WalkSections(old(State()), base, courseDir, sections, net)
    {
      ghost var start := State();
      var i := 0;
      while i < |sections|
        invariant 0 <= i <= |sections|
        invariant Walked(State(), None) == WalkSections(start, base, courseDir, sections[..i], net)
      {
        WalkSectionsNext(start, base, courseDir, sections, i, net);
        fatal := SectionStep(base, courseDir, i + 1, sections[i], net);
        if fatal.Some? {
          WalkSectionsStops(start, base, courseDir, sections, i + 1, net);
          return;
        }
        i := i + 1;
      }
      assert sections[..i] == sections;
      fatal := None;
    }

    /** The main block after login, with the download folder as given on the command line. */
    method Run(course: Uri, folder: PathArg, net: Network) returns (fatal: Option<Fatal>)
      modifies this
      ensures Walked(State(), fatal) == Walker.Run(old(State()), course, folder, net)
    {
      var v := ValidateCourse(course);
      if v.Err? {
        return Some(BadCourseUrl(v.error));
      }
      var url := v.value;
      var error := CheckFolder(folder);
      if error.Some? {
        return Some(BadFolder(error.value));
      }
      var page := net.course(url);
      if page.None? {
        return Some(CannotAccessCourse);
      }
      if page.value.title.None? {
        return Some(NoCourseTitle);
      }
      var courseFolder := Child(folder, Strip(page.value.title.value));
      error := CheckFolder(courseFolder);
      if error.Some? {
        return Some(BadFolder(error.value));
      }
      fatal := Walk(url, Locate(cwd, courseFolder), page.value.sections, net);
    }

    /** The main block with the download folder made absolute before anything else. */
    method RunFromAbsolute(course: Uri, folder: PathArg, net: Network) returns (fatal: Option<Fatal>)
      modifies this
      ensures Walked(State(), fatal) == Walker.RunFromAbsolute(old(State()), course, folder, net)
    {
      fatal := Run(course, Abs(Locate(cwd, folder)), net);
    }
  }
}
