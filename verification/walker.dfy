/** The course walk of the script's main block: validate the course URL, check the download
    folder, fetch the sections page, create the course folder, then for every section and
    every item create a numbered folder and dispatch the item. These functions define the
    run one step at a time; the `Machine` class performs it in place. */
module Walker {
  import opened Common
  import opened Text
  import opened Naming
  import opened Urls
  import opened Fs
  import opened Dispatch

  /** An item row as extracted: the row title text, the anchor's `href` (parsed as a
      reference) and the class list of the row icon; None where the element or attribute
      is missing. */
  datatype ItemFacts = ItemFacts(title: Option<string>, href: Option<Uri>, iconClasses: Option<seq<string>>)

  /** A curriculum section as extracted: its title text and its item rows in document order. */
  datatype SectionFacts = SectionFacts(title: Option<string>, items: seq<ItemFacts>)

  /** The sections page as extracted: the course title text and the sections in document order. */
  datatype CoursePage = CoursePage(title: Option<string>, sections: seq<SectionFacts>)

  /** What the network answers: the sections page and item pages (None when the request
      fails) and the stream pytube picks for a watch URL. */
  datatype Network = Network(course: Uri -> Option<CoursePage>, item: Uri -> Option<Page>,
                             stream: string -> Option<Stream>)

  /** One call of `get_item_contents`: the item URL, its type tag, its folder, and what it did. */
  datatype Event = Dispatched(url: Uri, tag: string, folder: Path, outcome: Outcome)

  /** The state the run changes: the disk, the working directory and the dispatch log. */
  datatype World = World(disk: Disk, cwd: Path, log: seq<Event>)

  /** The errors that end the run with exit status 1. */
  datatype Fatal =
    | BadCourseUrl(cause: CourseError)  // `validate_course`
    | BadFolder(reason: FolderError)    // `check_folder`, for the download or the course folder
    | CannotAccessCourse                // the request for the sections page failed
    | NoCourseTitle                     // `get_title`
    | MissingMarkup                     // a section or item row lacks an element the walk reads
    | MkdirFailed                       // `os.mkdir` of a section or item folder failed

  /** The state after a step and the fatal error that stopped the run there, if any. */
  datatype Walked = Walked(world: World, fatal: Option<Fatal>)

  predicate ItemReadable(it: ItemFacts)
  {
    it.title.Some? && it.href.Some? && it.iconClasses.Some? && it.iconClasses.value != []
  }

  predicate SectionReadable(s: SectionFacts)
  {
    s.title.Some? && forall j :: 0 <= j < |s.items| ==> ItemReadable(s.items[j])
  }

  predicate CourseReadable(sections: seq<SectionFacts>)
  {
    forall i :: 0 <= i < |sections| ==> SectionReadable(sections[i])
  }

  /** The folder of the `n`-th entry titled `title` (before stripping) under `dir`. */
  function Entry(dir: Path, n: nat, title: string): (p: Path)
    ensures |p| == |dir| + 1 && p[..|dir|] == dir
  {
    dir + [FolderName(n, Strip(title))]
  }

  /** The call `get_item_contents(session, item_url, item_type, item_folder)`: the item's
      `href` resolved against the course URL, the first class of its icon as the tag. */
  function Visit(base: Uri, net: Network, it: ItemFacts, folder: Path): Event
    requires ItemReadable(it)
  {
    var url := Urls.Resolve(base, it.href.value);
    var tag := it.iconClasses.value[0];
    Dispatched(url, tag, folder, ItemContents(tag, net.item(url), folder, net.stream))
  }

  /** One item row, the `n`-th of its section: read title, href and tag (a missing one ends
      the run), create the item folder if missing (a failure ends the run), dispatch. */
  function ItemStep(w: World, base: Uri, dir: Path, n: nat, it: ItemFacts, net: Network): Walked
  {
    if !ItemReadable(it) then Walked(w, Some(MissingMarkup))
    else
      var folder := Entry(dir, n, it.title.value);
      match MkDirIfMissing(w.disk, folder)
      case None => Walked(w, Some(MkdirFailed))
      case Some(d) => Walked(World(d, w.cwd, w.log + [Visit(base, net, it, folder)]), None)
  }

  /** The item rows of one section in order, numbered from 1, stopping at a fatal error. */
  function WalkItems(w: World, base: Uri, dir: Path, items: seq<ItemFacts>, net: Network): Walked
    decreases |items|
  {
    if items == [] then Walked(w, None)
    else
      var before := WalkItems(w, base, dir, items[..|items| - 1], net);
      if before.fatal.Some? then before
      else ItemStep(before.world, base, dir, |items|, items[|items| - 1], net)
  }

  /** One section, the `n`-th of the course: read its title, create its folder if missing,
      walk its items. */
  function SectionStep(w: World, base: Uri, courseDir: Path, n: nat, s: SectionFacts, net: Network): Walked
  {
    if s.title.None? then Walked(w, Some(MissingMarkup))
    else
      var dir := Entry(courseDir, n, s.title.value);
      match MkDirIfMissing(w.disk, dir)
      case None => Walked(w, Some(MkdirFailed))
      case Some(d) => WalkItems(World(d, w.cwd, w.log), base, dir, s.items, net)
  }

  /** The sections of the course in order, numbered from 1, stopping at a fatal error. */
  function WalkSections(w: World, base: Uri, courseDir: Path, sections: seq<SectionFacts>, net: Network): Walked
    decreases |sections|
  {
    if sections == [] then Walked(w, None)
    else
      var before := WalkSections(w, base, courseDir, sections[..|sections| - 1], net);
      if before.fatal.Some? then before
      else SectionStep(before.world, base, courseDir, |sections|, sections[|sections| - 1], net)
  }

  /** The main block after login: validate the course URL, check the download folder
      (which changes the working directory), fetch the sections page, check the course
      folder `os.path.join(folder, title)` (changing the working directory again), then
      walk the sections with the course folder as the script names it. */
  function Run(w: World, course: Uri, folder: PathArg, net: Network): Walked
  {
    match ValidateCourse(course)
    case Err(e) => Walked(w, Some(BadCourseUrl(e)))
    case Ok(sections) =>
      var c1 := CheckFolder(w.disk, w.cwd, folder);
      var w1 := World(c1.disk, c1.cwd, w.log);
      if c1.error.Some? then Walked(w1, Some(BadFolder(c1.error.value)))
      else match net.course(sections)
        case None => Walked(w1, Some(CannotAccessCourse))
        case Some(page) =>
          if page.title.None? then Walked(w1, Some(NoCourseTitle))
          else
            var courseFolder := Child(folder, Strip(page.title.value));
            var c2 := CheckFolder(w1.disk, w1.cwd, courseFolder);
            var w2 := World(c2.disk, c2.cwd, w.log);
            if c2.error.Some? then Walked(w2, Some(BadFolder(c2.error.value)))
            else WalkSections(w2, sections, Locate(w2.cwd, courseFolder), page.sections, net)
  }

  /** The run with the download folder made absolute before anything else: every folder is
      then found where it was created, whatever `check_folder` does to the working directory. */
  function RunFromAbsolute(w: World, course: Uri, folder: PathArg, net: Network): Walked
  {
    Run(w, course, Abs(Locate(w.cwd, folder)), net)
  }
}
