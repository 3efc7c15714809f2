/** `get_item_contents`: the kind of an item comes from its type tag, and each kind emits a
    fixed shape of writes and downloads into the item's folder. Every failure inside is
    turned into a warning; nothing here can end the run. */
module Dispatch {
  import opened Common
  import opened Text
  import opened Urls
  import opened Fs

  /** The content kinds an item can have. */
  datatype Kind = Video | Document | Listing | Unrecognized

  /** The kind of a type tag, by substring tests in a fixed order: `play`, then `file`,
      then `list`. */
  function Classify(tag: string): Kind
  {
    if Contains(tag, "play") then Video
    else if Contains(tag, "file") then Document
    else if Contains(tag, "list") then Listing
    else Unrecognized
  }

  /** The precedence of the tests: a tag holding `play` is a video whatever else it holds;
      `file` wins over `list`; a tag holding none of the three is unrecognized. */
  lemma ClassifyPrecedence(tag: string)
    ensures Contains(tag, "play") ==> Classify(tag) == Video
    ensures !Contains(tag, "play") && Contains(tag, "file") ==> Classify(tag) == Document
    ensures !Contains(tag, "play") && !Contains(tag, "file") && Contains(tag, "list") ==> Classify(tag) == Listing
    ensures Classify(tag) == Unrecognized <==> !Contains(tag, "play") && !Contains(tag, "file") && !Contains(tag, "list")
  {
  }

  // Example tags: `playlist`, then the tags of the course example, which give one item of
  // each kind, and the class the icon element itself carries.

  /** A tag holding both `play` and `list` is a video. */
  lemma ClassifyPlaylist()
    ensures Classify("playlist") == Video
  {
    assert "playlist"[..4] == "play";
  }

  lemma ClassifyPlayIcon()
    ensures Classify("play-icon") == Video
  {
    assert "play-icon"[..4] == "play";
  }

  lemma {:induction false} ClassifyFileIcon()
    ensures Classify("file-icon") == Document
  {
    IconLetters();
    Absent("file-icon", "play");
    assert "file-icon"[..4] == "file";
  }

  lemma {:induction false} ClassifyListIcon()
    ensures Classify("list-icon") == Listing
  {
    IconLetters();
    Absent("list-icon", "play");
    Absent("list-icon", "file");
    assert "list-icon"[..4] == "list";
  }

  /** The first class of `<i class="site-icons ...">` matches no kind. */
  lemma {:induction false} ClassifySiteIcons()
    ensures Classify("site-icons") == Unrecognized
  {
    IconLetters();
    Absent("site-icons", "play");
    Absent("site-icons", "file");
    Absent("site-icons", "list");
  }

  /** The letters the example tags lack, checked apart from the tests that use them. */
  lemma IconLetters()
    ensures 'p' !in "file-icon"
    ensures 'p' !in "list-icon" && 'f' !in "list-icon"
    ensures 'p' !in "site-icons" && 'f' !in "site-icons" && 'l' !in "site-icons"
  {
  }

  /** A text that lacks the first character of `sub` does not contain `sub`. */
  lemma {:induction false} Absent(s: string, sub: string)
    requires sub != [] && sub[0] !in s
    ensures !Contains(s, sub)
  {
    if |sub| <= |s| {
      assert s[..|sub|][0] != sub[0];
      if 0 < |s| {
        Absent(s[1..], sub);
      }
    }
  }

  /** An anchor of the attached-files list: its `href` and `title` attributes, if present. */
  datatype Anchor = Anchor(href: Option<string>, title: Option<string>)

  /** What the item page offers: the text of its `<title>`, the `src` of the embedded
      player, the text of the lecture body, and the attachment anchors in document order.
      A missing element or attribute is None. */
  datatype Page = Page(title: Option<string>, playerSrc: Option<Uri>, lectureBody: Option<string>,
                       attachments: seq<Anchor>)

  /** The stream pytube picks for a watch URL: its URL and default file name. */
  datatype Stream = Stream(url: string, filename: string)

  /** An effect `get_item_contents` has on the item folder. */
  datatype Action =
    | Download(url: string, folder: Path, name: string)    // `download_file(session, url, folder, name)`
    | WriteText(folder: Path, name: string, body: string)  // the lecture body, written as text
    | SaveResponse(folder: Path, name: string)             // the raw response, written as bytes

  /** The warnings `get_item_contents` prints instead of raising. */
  datatype Warning =
    | InvalidItemUrl        // the request for the item page failed
    | CannotDownloadItem    // any other exception inside
    | UnrecognizedItemType  // the tag matched no kind

  /** The actions taken, in order, and the warning that ended the item, if any. */
  datatype Outcome = Outcome(actions: seq<Action>, warning: Option<Warning>)

  predicate Usable(a: Anchor)
  {
    a.href.Some? && a.title.Some?
  }

  /** The download of an attachment, by its `href` and `title`. */
  function AttachmentDownload(a: Anchor, folder: Path): Action
    requires Usable(a)
  {
    Download(a.href.value, folder, a.title.value)
  }

  /** The attachment loop: one download per anchor in anchor order, stopping at the first
      anchor without `href` or `title` (the KeyError). The flag says whether every anchor
      was usable. */
  function AttachmentDownloads(anchors: seq<Anchor>, folder: Path): (r: (seq<Action>, bool))
    ensures |r.0| <= |anchors|
    ensures forall i :: 0 <= i < |r.0| ==> Usable(anchors[i]) && r.0[i] == AttachmentDownload(anchors[i], folder)
    ensures r.1 <==> |r.0| == |anchors|
    ensures !r.1 ==> !Usable(anchors[|r.0|])
  {
    if anchors == [] then ([], true)
    else if !Usable(anchors[0]) then ([], false)
    else
      var rest := AttachmentDownloads(anchors[1..], folder);
      ([AttachmentDownload(anchors[0], folder)] + rest.0, rest.1)
  }

  /** The attachment loop run step by step, emitting the downloads it makes. */
  method EmitAttachments(anchors: seq<Anchor>, folder: Path) returns (actions: seq<Action>, complete: bool)
    ensures actions == AttachmentDownloads(anchors, folder).0
    ensures complete == AttachmentDownloads(anchors, folder).1
  {
    actions := [];
    var i := 0;
    assert anchors[i..] == anchors;
    while i < |anchors|
      invariant 0 <= i <= |anchors|
      invariant AttachmentDownloads(anchors, folder).0 == actions + AttachmentDownloads(anchors[i..], folder).0
      invariant AttachmentDownloads(anchors, folder).1 == AttachmentDownloads(anchors[i..], folder).1
    {
      var a := anchors[i];
      if a.href.None? || a.title.None? {
        assert !Usable(anchors[i..][0]);
        assert AttachmentDownloads(anchors[i..], folder) == ([], false);
        return actions, false;
      }
      assert anchors[i..][1..] == anchors[i + 1..];
      actions := actions + [Download(a.href.value, folder, a.title.value)];
      i := i + 1;
    }
    complete := true;
  }

  /** `get_item_contents` once the page has been requested (`page` is None when the request
      failed) and with the video stream pytube would pick for a watch URL given by
      `streams`. */
  function ItemContents(tag: string, page: Option<Page>, folder: Path,
                        streams: string -> Option<Stream>): (r: Outcome)
    // nothing is written outside the item folder
    ensures forall i :: 0 <= i < |r.actions| ==> r.actions[i].folder == folder
    // a failed request or an unrecognized tag does nothing but warn
    ensures page.None? ==> r == Outcome([], Some(InvalidItemUrl))
    ensures page.Some? && Classify(tag) == Unrecognized ==> r == Outcome([], Some(UnrecognizedItemType))
    // a video is at most one download, exactly one when nothing went wrong
    ensures Classify(tag) == Video ==>
      |r.actions| == (if r.warning.None? then 1 else 0) && (forall a :: a in r.actions ==> a.Download?)
    // it succeeds exactly when the page embeds a player and pytube offers a stream for the
    // watch URL of the player's id, and then downloads that stream
    ensures page.Some? && Classify(tag) == Video ==>
      (r.warning.None? <==> page.value.playerSrc.Some? && streams(WatchUrl(VideoId(page.value.playerSrc.value))).Some?)
    ensures page.Some? && Classify(tag) == Video && r.warning.None? ==>
      var s := streams(WatchUrl(VideoId(page.value.playerSrc.value))).value;
      r.actions == [Download(s.url, folder, s.filename)]
    // a listing is at most one save of the raw page, named after the page title
    ensures Classify(tag) == Listing ==>
      |r.actions| == (if r.warning.None? then 1 else 0) &&
      (forall a :: a in r.actions ==>
         page.Some? && page.value.title.Some? && a == SaveResponse(folder, page.value.title.value + ".html"))
    // and it succeeds exactly when the page has a title
    ensures page.Some? && Classify(tag) == Listing ==> (r.warning.None? <==> page.value.title.Some?)
    // a document without a lecture body or a title writes nothing and warns
    ensures page.Some? && Classify(tag) == Document && (page.value.lectureBody.None? || page.value.title.None?) ==>
      r == Outcome([], Some(CannotDownloadItem))
    // a document is the body written to `<title>.txt`, then one download per attachment
    ensures Classify(tag) == Document && r.actions != [] ==>
      && page.Some? && page.value.title.Some? && page.value.lectureBody.Some?
      && r.actions[0] == WriteText(folder, page.value.title.value + ".txt", page.value.lectureBody.value)
      && r.actions[1..] == AttachmentDownloads(page.value.attachments, folder).0
      && (r.warning.None? <==> forall i :: 0 <= i < |page.value.attachments| ==> Usable(page.value.attachments[i]))
    ensures Classify(tag) == Document && page.Some? && page.value.title.Some? && page.value.lectureBody.Some? ==>
      r.actions != []
    // a recognized item on a page that was fetched only ever warns that it could not be downloaded
    ensures page.Some? && Classify(tag) != Unrecognized && r.warning.Some? ==> r.warning == Some(CannotDownloadItem)
  {
    match page
    case None => Outcome([], Some(InvalidItemUrl))
    case Some(p) =>
      match Classify(tag)
      case Video =>
        if p.playerSrc.None? then Outcome([], Some(CannotDownloadItem))
        else (
          match streams(WatchUrl(VideoId(p.playerSrc.value)))
          case None => Outcome([], Some(CannotDownloadItem))
          case Some(s) => Outcome([Download(s.url, folder, s.filename)], None))
      case Document =>
        if p.lectureBody.None? || p.title.None? then Outcome([], Some(CannotDownloadItem))
        else
          var downloads := AttachmentDownloads(p.attachments, folder);
          Outcome([WriteText(folder, p.title.value + ".txt", p.lectureBody.value)] + downloads.0,
                  if downloads.1 then None else Some(CannotDownloadItem))
      case Listing =>
        if p.title.None? then Outcome([], Some(CannotDownloadItem))
        else Outcome([SaveResponse(folder, p.title.value + ".html")], None)
      case Unrecognized => Outcome([], Some(UnrecognizedItemType))
  }
}
