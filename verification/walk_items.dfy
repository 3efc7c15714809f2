/** What walking the item rows of one section does: which folders it may create, that it
    creates every item folder and dispatches every item in order when it completes, that it
    stops at the first fatal error, and that what an item's dispatch did never changes the
    course of the walk. */
module WalkItemsProps {
  import opened Common
  import opened Text
  import opened Naming
  import opened Urls
  import opened Fs
  import opened Dispatch
  import opened Walker

  /** The folders the item rows of a section are given, by position. */
  function ItemFolders(dir: Path, items: seq<ItemFacts>): set<Path>
  {
    set j | 0 <= j < |items| && items[j].title.Some? :: Entry(dir, j + 1, items[j].title.value)
  }

  /** The dispatch calls of a section, one per item in document order, each with the item
      folder its position and title give. */
  function ItemEvents(base: Uri, dir: Path, items: seq<ItemFacts>, net: Network): (r: seq<Event>)
    requires forall j :: 0 <= j < |items| ==> ItemReadable(items[j])
    ensures |r| == |items|
  {
    if items == [] then []
    else
      var n := |items|;
      assert ItemReadable(items[n - 1]);
      ItemEvents(base, dir, items[..n - 1], net) + [Visit(base, net, items[n - 1], Entry(dir, n, items[n - 1].title.value))]
  }

  /** The `j`-th call of a section is the visit of its `j`-th row, in the folder numbered
      `j + 1` and named after that row's title. */
  lemma {:induction false} ItemEventsAt(base: Uri, dir: Path, items: seq<ItemFacts>, net: Network, j: nat)
    requires forall i :: 0 <= i < |items| ==> ItemReadable(items[i])
    requires j < |items|
    ensures items[j].title.Some?
    ensures ItemEvents(base, dir, items, net)[j] == Visit(base, net, items[j], Entry(dir, j + 1, items[j].title.value))
    decreases |items|
  {
    var n, init := |items|, items[..|items| - 1];
    assert ItemReadable(items[j]);
    if j < n - 1 {
      assert init[j] == items[j];
      ItemEventsAt(base, dir, init, net, j);
      ItemEventsInit(base, dir, items, net, j);
    } else {
      var v := Visit(base, net, items[n - 1], Entry(dir, n, items[n - 1].title.value));
      var e := ItemEvents(base, dir, init, net);
      assert ItemEvents(base, dir, items, net) == e + [v];
      assert (e + [v])[|e|] == v;
    }
  }

  /** Appending a row leaves the earlier calls as they were. */
  lemma ItemEventsInit(base: Uri, dir: Path, items: seq<ItemFacts>, net: Network, j: nat)
    requires forall i :: 0 <= i < |items| ==> ItemReadable(items[i])
    requires j < |items| - 1
    ensures ItemEvents(base, dir, items, net)[j] == ItemEvents(base, dir, items[..|items| - 1], net)[j]
  {
  }

  /** Once a fatal error has stopped the walk after the first `k` rows, the remaining rows
      are not looked at. */
  lemma {:induction false} WalkItemsStops(w: World, base: Uri, dir: Path, items: seq<ItemFacts>, k: nat, net: Network)
    requires k <= |items| && WalkItems(w, base, dir, items[..k], net).fatal.Some?
    ensures WalkItems(w, base, dir, items, net) == WalkItems(w, base, dir, items[..k], net)
    decreases |items|
  {
    if k < |items| {
      var init := items[..|items| - 1];
      assert init[..k] == items[..k];
      WalkItemsStops(w, base, dir, init, k, net);
    } else {
      assert items[..k] == items;
    }
  }

  /** The walk of one more row is the walk so far followed by that row. */
  lemma WalkItemsNext(w: World, base: Uri, dir: Path, items: seq<ItemFacts>, i: nat, net: Network)
    requires i < |items| && WalkItems(w, base, dir, items[..i], net).fatal.None?
    ensures WalkItems(w, base, dir, items[..i + 1], net)
         == ItemStep(WalkItems(w, base, dir, items[..i], net).world, base, dir, i + 1, items[i], net)
  {
    assert items[..i + 1][..i] == items[..i];
  }

  /** One row: what it may change, and what it has done when it did not end the run. */
  lemma ItemStepFacts(w: World, base: Uri, dir: Path, n: nat, it: ItemFacts, net: Network)
    ensures var r := ItemStep(w, base, dir, n, it, net);
      && r.world.cwd == w.cwd
      && r.world.disk.files == w.disk.files
      && w.disk.dirs <= r.world.disk.dirs
      && (r.world.disk.dirs <= w.disk.dirs || (it.title.Some? && r.world.disk.dirs == w.disk.dirs + {Entry(dir, n, it.title.value)}))
      && |w.log| <= |r.world.log| && r.world.log[..|w.log|] == w.log
      && (r.fatal.Some? ==> r.fatal.value == MissingMarkup || r.fatal.value == MkdirFailed)
      && (r.fatal.None? ==> ItemReadable(it) && Exists(r.world.disk, Entry(dir, n, it.title.value))
                            && r.world.log == w.log + [Visit(base, net, it, Entry(dir, n, it.title.value))])
  {
  }

  /** The walk of a section's rows keeps the working directory and the non-directory
      files, never removes a directory, only appends to the log, and can only stop on
      unreadable markup or a failed `os.mkdir`. */
  lemma {:induction false} WalkItemsFrame(w: World, base: Uri, dir: Path, items: seq<ItemFacts>, net: Network)
    ensures var r := WalkItems(w, base, dir, items, net);
      && r.world.cwd == w.cwd
      && r.world.disk.files == w.disk.files
      && w.disk.dirs <= r.world.disk.dirs
      && |w.log| <= |r.world.log| && r.world.log[..|w.log|] == w.log
      && (r.fatal.Some? ==> r.fatal.value == MissingMarkup || r.fatal.value == MkdirFailed)
    decreases |items|
  {
    if items != [] {
      var n := |items|;
      var init := items[..n - 1];
      WalkItemsFrame(w, base, dir, init, net);
      var before := WalkItems(w, base, dir, init, net);
      if before.fatal.None? {
        ItemStepFacts(before.world, base, dir, n, items[n - 1], net);
        var r := ItemStep(before.world, base, dir, n, items[n - 1], net);
        assert r.world.log[..|w.log|] == before.world.log[..|w.log|];
      }
    }
  }

  /** The only directories the walk of a section's rows creates are its item folders. */
  lemma {:induction false} WalkItemsCreatesOnlyItemFolders(w: World, base: Uri, dir: Path, items: seq<ItemFacts>, net: Network)
    ensures WalkItems(w, base, dir, items, net).world.disk.dirs <= w.disk.dirs + ItemFolders(dir, items)
    decreases |items|
  {
    if items != [] {
      var n := |items|;
      var init, last := items[..n - 1], items[n - 1];
      WalkItemsCreatesOnlyItemFolders(w, base, dir, init, net);
      ItemFoldersGrow(dir, items);
      var before := WalkItems(w, base, dir, init, net);
      if before.fatal.None? {
        ItemStepFacts(before.world, base, dir, n, last, net);
        assert WalkItems(w, base, dir, items, net) == ItemStep(before.world, base, dir, n, last, net);
      }
    }
  }

  /** The folders of a section's rows grow with each row: the folders of the rows but the
      last are among them, and so is the last row's own folder. */
  lemma ItemFoldersGrow(dir: Path, items: seq<ItemFacts>)
    requires items != []
    ensures ItemFolders(dir, items[..|items| - 1]) <= ItemFolders(dir, items)
    ensures items[|items| - 1].title.Some? ==>
      Entry(dir, |items|, items[|items| - 1].title.value) in ItemFolders(dir, items)
  {
    var n := |items|;
    var init := items[..n - 1];
    forall p | p in ItemFolders(dir, init) ensures p in ItemFolders(dir, items) {
      var j :| 0 <= j < |init| && init[j].title.Some? && p == Entry(dir, j + 1, init[j].title.value);
      assert items[j] == init[j];
    }
    if items[n - 1].title.Some? {
      assert Entry(dir, (n - 1) + 1, items[n - 1].title.value) in ItemFolders(dir, items);
    }
  }

  /** A walk of a section's rows that completes has read every row and left every item
      folder existing under the section folder. */
  lemma WalkItemsComplete(w: World, base: Uri, dir: Path, items: seq<ItemFacts>, net: Network)
    requires WalkItems(w, base, dir, items, net).fatal.None?
    ensures forall j :: 0 <= j < |items| ==>
      ItemReadable(items[j]) && Exists(WalkItems(w, base, dir, items, net).world.disk, Entry(dir, j + 1, items[j].title.value))
  {
    forall j | 0 <= j < |items|
      ensures ItemReadable(items[j]) && Exists(WalkItems(w, base, dir, items, net).world.disk, Entry(dir, j + 1, items[j].title.value))
    {
      WalkItemsFolderAt(w, base, dir, items, net, j);
    }
  }

  /** The same for one row: row `j` of a walk that completes is readable and its folder,
      numbered `j + 1`, exists at the end. */
  lemma {:induction false} WalkItemsFolderAt(w: World, base: Uri, dir: Path, items: seq<ItemFacts>, net: Network, j: nat)
    requires WalkItems(w, base, dir, items, net).fatal.None? && j < |items|
    ensures ItemReadable(items[j]) && Exists(WalkItems(w, base, dir, items, net).world.disk, Entry(dir, j + 1, items[j].title.value))
    decreases |items|
  {
    var init := items[..|items| - 1];
    ItemStepExists(w, base, dir, items, net);
    if j < |items| - 1 {
      assert init[j] == items[j];
      WalkItemsFolderAt(w, base, dir, init, net, j);
      ExistsKept(WalkItems(w, base, dir, init, net).world.disk, WalkItems(w, base, dir, items, net).world.disk,
                 Entry(dir, j + 1, items[j].title.value));
    }
  }

  /** The last row of a walk that completes is readable and its folder exists; the rows
      before it left a disk that the last one only added directories to. */
  lemma ItemStepExists(w: World, base: Uri, dir: Path, items: seq<ItemFacts>, net: Network)
    requires items != [] && WalkItems(w, base, dir, items, net).fatal.None?
    ensures WalkItems(w, base, dir, items[..|items| - 1], net).fatal.None?
    ensures var d0 := WalkItems(w, base, dir, items[..|items| - 1], net).world.disk;
      var d := WalkItems(w, base, dir, items, net).world.disk;
      var it := items[|items| - 1];
      && ItemReadable(it) && Exists(d, Entry(dir, |items|, it.title.value))
      && d0.dirs <= d.dirs && d0.files == d.files
  {
    var before := WalkItems(w, base, dir, items[..|items| - 1], net);
    ItemStepFacts(before.world, base, dir, |items|, items[|items| - 1], net);
  }

  /** A walk of a section's rows that completes has dispatched exactly the section's
      items, in document order, each with its own numbered folder. */
  lemma {:induction false} WalkItemsLog(w: World, base: Uri, dir: Path, items: seq<ItemFacts>, net: Network)
    requires forall j :: 0 <= j < |items| ==> ItemReadable(items[j])
    requires WalkItems(w, base, dir, items, net).fatal.None?
    ensures WalkItems(w, base, dir, items, net).world.log == w.log + ItemEvents(base, dir, items, net)
    decreases |items|
  {
    WalkItemsComplete(w, base, dir, items, net);
    if items != [] {
      var n := |items|;
      var init := items[..n - 1];
      var before := WalkItems(w, base, dir, init, net);
      WalkItemsLog(w, base, dir, init, net);
      var last := items[n - 1];
      ItemStepFacts(before.world, base, dir, n, last, net);
      var v := Visit(base, net, last, Entry(dir, n, last.title.value));
      var e := ItemEvents(base, dir, init, net);
      assert WalkItems(w, base, dir, items, net).world.log == before.world.log + [v];
      assert before.world.log == w.log + e;
      assert ItemEvents(base, dir, items, net) == e + [v];
      assert before.world.log + [v] == w.log + (e + [v]);
    }
  }

  /** The dispatch calls a log records, without what each call did. */
  function Calls(log: seq<Event>): (r: seq<(Uri, string, Path)>)
    ensures |r| == |log|
    ensures forall i :: 0 <= i < |log| ==> r[i] == (log[i].url, log[i].tag, log[i].folder)
  {
    if log == [] then [] else Calls(log[..|log| - 1]) + [(log[|log| - 1].url, log[|log| - 1].tag, log[|log| - 1].folder)]
  }


  /** Two states that agree on everything but what earlier dispatches did. */
  predicate AgreeButOutcomes(a: World, b: World)
  {
    a.disk == b.disk && a.cwd == b.cwd && Calls(a.log) == Calls(b.log)
  }

  /** Errors inside `get_item_contents` are contained: whatever the item pages and streams
      are, and whatever the dispatches therefore did, the walk of a section creates the same
      folders, makes the same calls and stops (or not) at the same place. */
  lemma {:induction false} WalkItemsIgnoresOutcomes(a: World, b: World, base: Uri, dir: Path, items: seq<ItemFacts>,
                                                    netA: Network, netB: Network)
    requires AgreeButOutcomes(a, b)
    ensures var ra, rb := WalkItems(a, base, dir, items, netA), WalkItems(b, base, dir, items, netB);
      AgreeButOutcomes(ra.world, rb.world) && ra.fatal == rb.fatal
    decreases |items|
  {
    if items != [] {
      var init := items[..|items| - 1];
      WalkItemsIgnoresOutcomes(a, b, base, dir, init, netA, netB);
      var ba, bb := WalkItems(a, base, dir, init, netA), WalkItems(b, base, dir, init, netB);
      var last := items[|items| - 1];
      if ba.fatal.None? && ItemReadable(last) {
        var folder := Entry(dir, |items|, last.title.value);
        if MkDirIfMissing(ba.world.disk, folder).Some? {
          var ea, eb := Visit(base, netA, last, folder), Visit(base, netB, last, folder);
          assert (ba.world.log + [ea])[..|ba.world.log|] == ba.world.log;
          assert (bb.world.log + [eb])[..|bb.world.log|] == bb.world.log;
        }
      }
    }
  }

  /** On a disk without non-directory files, the rows of a section whose folder exists
      never end the run when their markup is readable: every item folder can be made. */
  lemma {:induction false} WalkItemsNoFilesCompletes(w: World, base: Uri, dir: Path, items: seq<ItemFacts>, net: Network)
    requires w.disk.files == {} && dir in w.disk.dirs
    requires forall j :: 0 <= j < |items| ==> ItemReadable(items[j])
    ensures WalkItems(w, base, dir, items, net).fatal.None?
    decreases |items|
  {
    if items != [] {
      var n := |items|;
      var init := items[..n - 1];
      assert forall j :: 0 <= j < |init| ==> init[j] == items[j];
      WalkItemsNoFilesCompletes(w, base, dir, init, net);
      WalkItemsFrame(w, base, dir, init, net);
      var before := WalkItems(w, base, dir, init, net);
      assert before.world.disk.files == {} && dir in before.world.disk.dirs;
      var it := items[n - 1];
      assert ItemReadable(it);
      var folder := Entry(dir, n, it.title.value);
      assert folder[..|folder| - 1] == dir;
      assert MkDirIfMissing(before.world.disk, folder).Some?;
      assert WalkItems(w, base, dir, items, net) == ItemStep(before.world, base, dir, n, it, net);
    }
  }

  /** Only the first class of the row icon is examined: two rows that agree on title,
      `href` and first class are handled alike, whatever classes follow. */
  lemma ItemStepReadsFirstClassOnly(w: World, base: Uri, dir: Path, n: nat, a: ItemFacts, b: ItemFacts, net: Network)
    requires ItemReadable(a) && ItemReadable(b)
    requires a.title == b.title && a.href == b.href && a.iconClasses.value[0] == b.iconClasses.value[0]
    ensures ItemStep(w, base, dir, n, a, net) == ItemStep(w, base, dir, n, b, net)
  {
  }

  /** Different rows of a section get different folders. */
  lemma ItemFoldersDistinct(dir: Path, items: seq<ItemFacts>, j: nat, k: nat)
    requires j < k < |items| && items[j].title.Some? && items[k].title.Some?
    ensures Entry(dir, j + 1, items[j].title.value) != Entry(dir, k + 1, items[k].title.value)
  {
    var s, t := Strip(items[j].title.value), Strip(items[k].title.value);
    if FolderName(j + 1, s) == FolderName(k + 1, t) {
      FolderNameInjective(j + 1, s, k + 1, t);
    }
    assert Entry(dir, j + 1, items[j].title.value)[|dir|] == FolderName(j + 1, s);
    assert Entry(dir, k + 1, items[k].title.value)[|dir|] == FolderName(k + 1, t);
  }
}
