/** What walking the sections of a course does: the folders it may create, that it creates
    every section and item folder and dispatches every item of every section in document
    order when it completes, that it stops at the first fatal error, that what a dispatch
    did never changes the course of the walk, and that no two entries share a folder. */
module WalkSectionsProps {
  import opened Common
  import opened Text
  import opened Naming
  import opened Urls
  import opened Fs
  import opened Dispatch
  import opened Walker
  import opened WalkItemsProps

  /** The section folders and item folders the sections of a course are given, by position. */
  function CourseFolders(courseDir: Path, sections: seq<SectionFacts>): set<Path>
    decreases |sections|
  {
    if sections == [] then {}
    else
      var n := |sections|;
      var s := sections[n - 1];
      CourseFolders(courseDir, sections[..n - 1])
        + (if s.title.Some? then {Entry(courseDir, n, s.title.value)} + ItemFolders(Entry(courseDir, n, s.title.value), s.items)
           else {})
  }

  /** The dispatch calls of a whole course: those of each section in turn, each section's
      items under its own numbered folder. */
  function CourseEvents(base: Uri, courseDir: Path, sections: seq<SectionFacts>, net: Network): (r: seq<Event>)
    requires CourseReadable(sections)
    decreases |sections|
  {
    if sections == [] then []
    else
      var n := |sections|;
      assert SectionReadable(sections[n - 1]);
      CourseEvents(base, courseDir, sections[..n - 1], net)
        + ItemEvents(base, Entry(courseDir, n, sections[n - 1].title.value), sections[n - 1].items, net)
  }

  /** Once a fatal error has stopped the walk after the first `k` sections, the remaining
      sections are not looked at. */
  lemma {:induction false} WalkSectionsStops(w: World, base: Uri, courseDir: Path, sections: seq<SectionFacts>, k: nat, net: Network)
    requires k <= |sections| && WalkSections(w, base, courseDir, sections[..k], net).fatal.Some?
    ensures WalkSections(w, base, courseDir, sections, net) == WalkSections(w, base, courseDir, sections[..k], net)
    decreases |sections|
  {
    if k < |sections| {
      var init := sections[..|sections| - 1];
      assert init[..k] == sections[..k];
      WalkSectionsStops(w, base, courseDir, init, k, net);
    } else {
      assert sections[..k] == sections;
    }
  }

  /** The walk of one more section is the walk so far followed by that section. */
  lemma WalkSectionsNext(w: World, base: Uri, courseDir: Path, sections: seq<SectionFacts>, i: nat, net: Network)
    requires i < |sections| && WalkSections(w, base, courseDir, sections[..i], net).fatal.None?
    ensures WalkSections(w, base, courseDir, sections[..i + 1], net)
         == SectionStep(WalkSections(w, base, courseDir, sections[..i], net).world, base, courseDir, i + 1, sections[i], net)
  {
    assert sections[..i + 1][..i] == sections[..i];
  }

  /** One section: what it may change, and what it has done when it did not end the run. */
  lemma SectionStepFacts(w: World, base: Uri, courseDir: Path, n: nat, s: SectionFacts, net: Network)
    ensures var r := SectionStep(w, base, courseDir, n, s, net);
      && r.world.cwd == w.cwd
      && r.world.disk.files == w.disk.files
      && w.disk.dirs <= r.world.disk.dirs
      && (r.world.disk.dirs <= w.disk.dirs
          || (s.title.Some? && r.world.disk.dirs <= w.disk.dirs + {Entry(courseDir, n, s.title.value)}
                                                   + ItemFolders(Entry(courseDir, n, s.title.value), s.items)))
      && |w.log| <= |r.world.log| && r.world.log[..|w.log|] == w.log
      && (r.fatal.Some? ==> r.fatal.value == MissingMarkup || r.fatal.value == MkdirFailed)
  {
    var r := SectionStep(w, base, courseDir, n, s, net);
    if s.title.Some? {
      var dir := Entry(courseDir, n, s.title.value);
      var m := MkDirIfMissing(w.disk, dir);
      if m.Some? {
        var start := World(m.value, w.cwd, w.log);
        WalkItemsFrame(start, base, dir, s.items, net);
        WalkItemsCreatesOnlyItemFolders(start, base, dir, s.items, net);
      }
    }
  }

  /** The `n`-th section `s` has been fully laid out on `d`: it was readable, and its
      folder and every one of its item folders exist. */
  predicate SectionDone(d: Disk, courseDir: Path, n: nat, s: SectionFacts)
  {
    && SectionReadable(s)
    && Exists(d, Entry(courseDir, n, s.title.value))
    && forall j :: 0 <= j < |s.items| ==> Exists(d, Entry(Entry(courseDir, n, s.title.value), j + 1, s.items[j].title.value))
  }

  /** A laid-out section stays laid out while directories are only added. */
  lemma SectionDoneKept(d: Disk, e: Disk, courseDir: Path, n: nat, s: SectionFacts)
    requires SectionDone(d, courseDir, n, s) && d.dirs <= e.dirs && d.files == e.files
    ensures SectionDone(e, courseDir, n, s)
  {
    var dir := Entry(courseDir, n, s.title.value);
    forall j | 0 <= j < |s.items| ensures Exists(e, Entry(dir, j + 1, s.items[j].title.value)) {
      ExistsKept(d, e, Entry(dir, j + 1, s.items[j].title.value));
    }
  }

  /** A section that did not end the run has been fully laid out. */
  lemma SectionStepDone(w: World, base: Uri, courseDir: Path, n: nat, s: SectionFacts, net: Network)
    requires SectionStep(w, base, courseDir, n, s, net).fatal.None?
    ensures SectionDone(SectionStep(w, base, courseDir, n, s, net).world.disk, courseDir, n, s)
  {
    var dir := Entry(courseDir, n, s.title.value);
    var m := MkDirIfMissing(w.disk, dir);
    var start := World(m.value, w.cwd, w.log);
    WalkItemsFrame(start, base, dir, s.items, net);
    WalkItemsComplete(start, base, dir, s.items, net);
    ExistsKept(m.value, WalkItems(start, base, dir, s.items, net).world.disk, dir);
  }

  /** A section that did not end the run dispatched exactly its items. */
  lemma SectionStepLog(w: World, base: Uri, courseDir: Path, n: nat, s: SectionFacts, net: Network)
    requires SectionReadable(s)
    requires SectionStep(w, base, courseDir, n, s, net).fatal.None?
    ensures SectionStep(w, base, courseDir, n, s, net).world.log
         == w.log + ItemEvents(base, Entry(courseDir, n, s.title.value), s.items, net)
  {
    var dir := Entry(courseDir, n, s.title.value);
    var m := MkDirIfMissing(w.disk, dir);
    WalkItemsLog(World(m.value, w.cwd, w.log), base, dir, s.items, net);
  }

  /** The walk of the sections keeps the working directory and the non-directory files,
      never removes a directory, only appends to the log, and can only stop on unreadable
      markup or a failed `os.mkdir`. */
  lemma {:induction false} WalkSectionsFrame(w: World, base: Uri, courseDir: Path, sections: seq<SectionFacts>, net: Network)
    ensures var r := WalkSections(w, base, courseDir, sections, net);
      && r.world.cwd == w.cwd
      && r.world.disk.files == w.disk.files
      && w.disk.dirs <= r.world.disk.dirs
      && |w.log| <= |r.world.log| && r.world.log[..|w.log|] == w.log
      && (r.fatal.Some? ==> r.fatal.value == MissingMarkup || r.fatal.value == MkdirFailed)
    decreases |sections|
  {
    if sections != [] {
      var n := |sections|;
      var init := sections[..n - 1];
      WalkSectionsFrame(w, base, courseDir, init, net);
      var before := WalkSections(w, base, courseDir, init, net);
      if before.fatal.None? {
        SectionStepFacts(before.world, base, courseDir, n, sections[n - 1], net);
        var r := SectionStep(before.world, base, courseDir, n, sections[n - 1], net);
        assert r.world.log[..|w.log|] == before.world.log[..|w.log|];
      }
    }
  }

  /** The only directories the walk of the sections creates are the section and item
      folders of the course. */
  lemma {:induction false} WalkSectionsCreatesOnlyCourseFolders(w: World, base: Uri, courseDir: Path,
                                                                sections: seq<SectionFacts>, net: Network)
    ensures WalkSections(w, base, courseDir, sections, net).world.disk.dirs <= w.disk.dirs + CourseFolders(courseDir, sections)
    decreases |sections|
  {
    if sections != [] {
      var n := |sections|;
      var init := sections[..n - 1];
      WalkSectionsCreatesOnlyCourseFolders(w, base, courseDir, init, net);
      var before := WalkSections(w, base, courseDir, init, net);
      if before.fatal.None? {
        SectionStepFacts(before.world, base, courseDir, n, sections[n - 1], net);
      }
    }
  }

  /** A walk of the sections that completes has completed on all sections but the last,
      and then walked the last one. */
  lemma WalkSectionsLast(w: World, base: Uri, courseDir: Path, sections: seq<SectionFacts>, net: Network)
    requires sections != [] && WalkSections(w, base, courseDir, sections, net).fatal.None?
    ensures var n := |sections|; var before := WalkSections(w, base, courseDir, sections[..n - 1], net);
      && before.fatal.None?
      && WalkSections(w, base, courseDir, sections, net) == SectionStep(before.world, base, courseDir, n, sections[n - 1], net)
  {
  }

  /** Every section of a readable course is readable, and so is every section of a prefix. */
  lemma CourseReadablePrefix(sections: seq<SectionFacts>, k: nat)
    requires CourseReadable(sections) && k <= |sections|
    ensures CourseReadable(sections[..k])
  {
    forall i | 0 <= i < k ensures SectionReadable(sections[..k][i]) {
      assert sections[..k][i] == sections[i];
    }
  }

  /** A walk of the sections that completes has read every section and every item row,
      and left every section folder and every item folder existing. */
  lemma {:induction false} WalkSectionsComplete(w: World, base: Uri, courseDir: Path, sections: seq<SectionFacts>, net: Network)
    requires WalkSections(w, base, courseDir, sections, net).fatal.None?
    ensures var d := WalkSections(w, base, courseDir, sections, net).world.disk;
      forall i :: 0 <= i < |sections| ==> SectionDone(d, courseDir, i + 1, sections[i])
    decreases |sections|
  {
    if sections != [] {
      var n := |sections|;
      var init := sections[..n - 1];
      WalkSectionsLast(w, base, courseDir, sections, net);
      var before := WalkSections(w, base, courseDir, init, net);
      WalkSectionsComplete(w, base, courseDir, init, net);
      SectionStepFacts(before.world, base, courseDir, n, sections[n - 1], net);
      SectionStepDone(before.world, base, courseDir, n, sections[n - 1], net);
      var d := WalkSections(w, base, courseDir, sections, net).world.disk;
      assert d == SectionStep(before.world, base, courseDir, n, sections[n - 1], net).world.disk;
      SectionsDoneExtend(before.world.disk, d, courseDir, sections, init);
    }
  }

  /** Laid-out sections stay laid out when a further one is laid out and directories are
      only added. */
  lemma SectionsDoneExtend(d: Disk, e: Disk, courseDir: Path, sections: seq<SectionFacts>, init: seq<SectionFacts>)
    requires sections != [] && init == sections[..|sections| - 1] && d.dirs <= e.dirs && d.files == e.files
    requires forall i :: 0 <= i < |init| ==> SectionDone(d, courseDir, i + 1, init[i])
    requires SectionDone(e, courseDir, |sections|, sections[|sections| - 1])
    ensures forall i :: 0 <= i < |sections| ==> SectionDone(e, courseDir, i + 1, sections[i])
  {
    var n := |sections|;
    forall i | 0 <= i < n ensures SectionDone(e, courseDir, i + 1, sections[i]) {
      if i < n - 1 {
        assert sections[i] == init[i];
        SectionDoneKept(d, e, courseDir, i + 1, sections[i]);
      }
    }
  }

  /** The calls of a course are those of all sections but the last, then the last one's. */
  lemma CourseEventsLast(base: Uri, courseDir: Path, sections: seq<SectionFacts>, net: Network)
    requires sections != [] && CourseReadable(sections)
    ensures var n := |sections|;
      && CourseReadable(sections[..n - 1]) && SectionReadable(sections[n - 1])
      && CourseEvents(base, courseDir, sections, net)
         == CourseEvents(base, courseDir, sections[..n - 1], net)
            + ItemEvents(base, Entry(courseDir, n, sections[n - 1].title.value), sections[n - 1].items, net)
  {
    CourseReadablePrefix(sections, |sections| - 1);
  }

  /** A walk of the sections that completes has dispatched exactly the course's items,
      section by section and in document order, each with its own numbered folder. */
  lemma {:induction false} WalkSectionsLog(w: World, base: Uri, courseDir: Path, sections: seq<SectionFacts>, net: Network)
    requires CourseReadable(sections)
    requires WalkSections(w, base, courseDir, sections, net).fatal.None?
    ensures WalkSections(w, base, courseDir, sections, net).world.log == w.log + CourseEvents(base, courseDir, sections, net)
    decreases |sections|
  {
    if sections != [] {
      var n := |sections|;
      var init := sections[..n - 1];
      WalkSectionsLast(w, base, courseDir, sections, net);
      CourseEventsLast(base, courseDir, sections, net);
      WalkSectionsLog(w, base, courseDir, init, net);
      var before := WalkSections(w, base, courseDir, init, net);
      SectionStepLog(before.world, base, courseDir, n, sections[n - 1], net);
      var e := CourseEvents(base, courseDir, init, net);
      var f := ItemEvents(base, Entry(courseDir, n, sections[n - 1].title.value), sections[n - 1].items, net);
      AppendAssoc(w.log, e, f);
    }
  }

  /** Errors inside `get_item_contents` are contained at the level of the whole course:
      whatever the item pages and streams are, the walk creates the same folders, makes the
      same calls and stops (or not) at the same place. */
  lemma {:induction false} WalkSectionsIgnoresOutcomes(a: World, b: World, base: Uri, courseDir: Path,
                                                       sections: seq<SectionFacts>, netA: Network, netB: Network)
    requires AgreeButOutcomes(a, b)
    ensures var ra, rb := WalkSections(a, base, courseDir, sections, netA), WalkSections(b, base, courseDir, sections, netB);
      AgreeButOutcomes(ra.world, rb.world) && ra.fatal == rb.fatal
    decreases |sections|
  {
    if sections != [] {
      var n := |sections|;
      var init := sections[..n - 1];
      WalkSectionsIgnoresOutcomes(a, b, base, courseDir, init, netA, netB);
      var ba, bb := WalkSections(a, base, courseDir, init, netA), WalkSections(b, base, courseDir, init, netB);
      var s := sections[n - 1];
      if ba.fatal.None? && s.title.Some? {
        var dir := Entry(courseDir, n, s.title.value);
        var m := MkDirIfMissing(ba.world.disk, dir);
        if m.Some? {
          WalkItemsIgnoresOutcomes(World(m.value, ba.world.cwd, ba.world.log), World(m.value, bb.world.cwd, bb.world.log),
                                   base, dir, s.items, netA, netB);
        }
      }
    }
  }

  /** On a disk without non-directory files, the walk of a readable course whose folder
      exists never ends the run: every section and item folder can be made. */
  lemma {:induction false} WalkSectionsNoFilesCompletes(w: World, base: Uri, courseDir: Path,
                                                        sections: seq<SectionFacts>, net: Network)
    requires w.disk.files == {} && courseDir in w.disk.dirs
    requires CourseReadable(sections)
    ensures WalkSections(w, base, courseDir, sections, net).fatal.None?
    decreases |sections|
  {
    if sections != [] {
      var n := |sections|;
      var init := sections[..n - 1];
      CourseReadablePrefix(sections, n - 1);
      WalkSectionsNoFilesCompletes(w, base, courseDir, init, net);
      var before := WalkSections(w, base, courseDir, init, net);
      WalkSectionsKeepsNoFiles(w, base, courseDir, init, net);
      assert SectionReadable(sections[n - 1]);
      SectionStepNoFilesCompletes(before.world, base, courseDir, n, sections[n - 1], net);
      assert WalkSections(w, base, courseDir, sections, net)
          == SectionStep(before.world, base, courseDir, n, sections[n - 1], net);
    }
  }

  /** A walk that starts on a disk without non-directory files, below an existing course
      folder, leaves it so. */
  lemma WalkSectionsKeepsNoFiles(w: World, base: Uri, courseDir: Path, sections: seq<SectionFacts>, net: Network)
    requires w.disk.files == {} && courseDir in w.disk.dirs
    ensures var r := WalkSections(w, base, courseDir, sections, net);
      r.world.disk.files == {} && courseDir in r.world.disk.dirs
  {
    WalkSectionsFrame(w, base, courseDir, sections, net);
  }

  /** One readable section on a disk without non-directory files, below an existing course
      folder, never ends the run. */
  lemma SectionStepNoFilesCompletes(w: World, base: Uri, courseDir: Path, n: nat, s: SectionFacts, net: Network)
    requires w.disk.files == {} && courseDir in w.disk.dirs
    requires SectionReadable(s)
    ensures SectionStep(w, base, courseDir, n, s, net).fatal.None?
  {
    var dir := Entry(courseDir, n, s.title.value);
    assert dir[..|dir| - 1] == courseDir;
    var d := MkDirIfMissing(w.disk, dir).value;
    assert dir in d.dirs;
    WalkItemsNoFilesCompletes(World(d, w.cwd, w.log), base, dir, s.items, net);
  }

  /** No two entries of a course share a folder: different sections get different
      folders, and item rows in different positions or different sections do too. */
  lemma ItemFoldersUnique(courseDir: Path, sections: seq<SectionFacts>, i: nat, j: nat, k: nat, l: nat)
    requires i < |sections| && k < |sections| && sections[i].title.Some? && sections[k].title.Some?
    requires j < |sections[i].items| && l < |sections[k].items|
    requires sections[i].items[j].title.Some? && sections[k].items[l].title.Some?
    requires (i, j) != (k, l)
    ensures Entry(Entry(courseDir, i + 1, sections[i].title.value), j + 1, sections[i].items[j].title.value)
         != Entry(Entry(courseDir, k + 1, sections[k].title.value), l + 1, sections[k].items[l].title.value)
  {
    var si, sk := Entry(courseDir, i + 1, sections[i].title.value), Entry(courseDir, k + 1, sections[k].title.value);
    var a := Entry(si, j + 1, sections[i].items[j].title.value);
    var b := Entry(sk, l + 1, sections[k].items[l].title.value);
    if a == b {
      assert si == a[..|si|] == sk;
      assert si[|courseDir|] == sk[|courseDir|];
      FolderNameInjective(i + 1, Strip(sections[i].title.value), k + 1, Strip(sections[k].title.value));
      assert a[|si|] == b[|si|];
      FolderNameInjective(j + 1, Strip(sections[i].items[j].title.value), l + 1, Strip(sections[k].items[l].title.value));
    }
  }
}
