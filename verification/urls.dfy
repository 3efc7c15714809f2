/** URLs as the script uses them: `urlsplit` components, the `path.split('/')` segments,
    reference resolution (`urljoin`, following section 5.2 of RFC 3986), `validate_course`
    and the YouTube id taken from a player's source URL. */
module Urls {
  import opened Common

  /** A URL or URL reference. `host` is the whole authority (`netloc`), absent when the
      reference has none; `path` is the path text split at every `/`, so `""` is `[""]`,
      `"/"` is `["", ""]` and `"../lecture/5"` is `["..", "lecture", "5"]`. Query and
      fragment are not part of the model. */
  datatype Uri = Uri(scheme: Option<string>, host: Option<string>, path: seq<string>)

  // ---------------------------------------------------------------------------------
  // Path text and path segments

  /** Python's `s.split('/')`. */
  function SplitPath(s: string): (r: seq<string>)
    ensures Segmented(r)
  {
    if s == [] then [""]
    else
      var t := SplitPath(s[..|s| - 1]);
      if s[|s| - 1] == '/' then t + [""]
      else t[..|t| - 1] + [t[|t| - 1] + [s[|s| - 1]]]
  }

  /** The shape every result of `SplitPath` has: at least one segment, none holding a `/`. */
  predicate Segmented(segs: seq<string>)
  {
    |segs| >= 1 && forall i :: 0 <= i < |segs| ==> '/' !in segs[i]
  }

  /** Python's `'/'.join(segs)`. */
  function JoinPath(segs: seq<string>): string
    requires |segs| >= 1
  {
    if |segs| == 1 then segs[0] else JoinPath(segs[..|segs| - 1]) + "/" + segs[|segs| - 1]
  }

  /** Joining the pieces of a split gives the text back. */
  lemma {:induction false} JoinSplit(s: string)
    ensures JoinPath(SplitPath(s)) == s
  {
    if s != [] {
      var p, c := s[..|s| - 1], s[|s| - 1];
      var t := SplitPath(p);
      JoinSplit(p);
      assert p + [c] == s;
      if c == '/' {
        JoinAppend(t, "");
      } else {
        JoinExtendLast(t, [c]);
      }
    }
  }

  /** One more segment adds a `/` and the segment to the joined text. */
  lemma JoinAppend(segs: seq<string>, x: string)
    requires |segs| >= 1
    ensures JoinPath(segs + [x]) == JoinPath(segs) + "/" + x
  {
    assert (segs + [x])[..|segs|] == segs;
  }

  /** Extending the last segment extends the joined text. */
  lemma JoinExtendLast(segs: seq<string>, x: string)
    requires |segs| >= 1
    ensures JoinPath(segs[..|segs| - 1] + [segs[|segs| - 1] + x]) == JoinPath(segs) + x
  {
    var u := segs[..|segs| - 1] + [segs[|segs| - 1] + x];
    if |segs| > 1 {
      assert u[..|u| - 1] == segs[..|segs| - 1];
    }
  }

  /** Joining two runs of segments puts one `/` between their joins. */
  lemma {:induction false} JoinConcat(xs: seq<string>, ys: seq<string>)
    requires |xs| >= 1 && |ys| >= 1
    ensures JoinPath(xs + ys) == JoinPath(xs) + "/" + JoinPath(ys)
    decreases |ys|
  {
    if |ys| == 1 {
      JoinAppend(xs, ys[0]);
      assert xs + ys == xs + [ys[0]];
    } else {
      var init, last := ys[..|ys| - 1], ys[|ys| - 1];
      JoinConcat(xs, init);
      JoinAppend(xs + init, last);
      assert xs + ys == (xs + init) + [last];
      assert JoinPath(ys) == JoinPath(init) + "/" + last;
    }
  }

  /** Splitting `a + "/" + b` adds `b` as one more segment when `b` holds no `/`. */
  lemma {:induction false} SplitAppend(a: string, b: string)
    requires '/' !in b
    ensures SplitPath(a + "/" + b) == SplitPath(a) + [b]
  {
    if b == [] {
      assert a + "/" + b == a + "/";
      assert (a + "/")[..|a|] == a;
    } else {
      var b' := b[..|b| - 1];
      assert (a + "/" + b)[..|a + "/" + b| - 1] == a + "/" + b';
      SplitAppend(a, b');
      assert b' + [b[|b| - 1]] == b;
    }
  }

  /** Splitting a join gives the segments back, as long as no segment holds a `/`. */
  lemma {:induction false} SplitJoin(segs: seq<string>)
    requires Segmented(segs)
    ensures SplitPath(JoinPath(segs)) == segs
  {
    if |segs| == 1 {
      SegmentSplit(segs[0]);
    } else {
      var init, last := segs[..|segs| - 1], segs[|segs| - 1];
      assert Segmented(init);
      SplitJoin(init);
      assert '/' !in last;
      SplitAppend(JoinPath(init), last);
      assert JoinPath(segs) == JoinPath(init) + "/" + last;
      assert init + [last] == segs;
    }
  }

  /** Text without a `/` splits into itself. */
  lemma {:induction false} SegmentSplit(s: string)
    requires '/' !in s
    ensures SplitPath(s) == [s]
  {
    if s != [] {
      SegmentSplit(s[..|s| - 1]);
      assert s[..|s| - 1] + [s[|s| - 1]] == s;
    }
  }

  // ---------------------------------------------------------------------------------
  // remove_dot_segments (section 5.2.4 of RFC 3986), on segments

  predicate IsDot(seg: string)
  {
    seg == "." || seg == ".."
  }

  predicate DotFree(segs: seq<string>)
  {
    forall i :: 0 <= i < |segs| ==> !IsDot(segs[i])
  }

  /** A path that starts with `/`. */
  predicate IsAbsolute(segs: seq<string>)
  {
    |segs| >= 2 && segs[0] == ""
  }

  /** The empty path. */
  predicate IsEmpty(segs: seq<string>)
  {
    segs == [] || segs == [""]
  }

  /** The output buffer after consuming `segs` one at a time: `.` is dropped, `..` removes
      the last output segment (if any), anything else is appended. */
  function Consume(segs: seq<string>): (out: seq<string>)
    ensures DotFree(out) && |out| <= |segs|
    ensures DotFree(segs) ==> out == segs
  {
    if segs == [] then []
    else
      var out := Consume(segs[..|segs| - 1]);
      var seg := segs[|segs| - 1];
      if seg == ".." then (if out == [] then [] else out[..|out| - 1])
      else if seg == "." then out
      else out + [seg]
  }

  /** Consuming one more segment. */
  lemma ConsumeSnoc(s: seq<string>, x: string)
    ensures var c := Consume(s);
      Consume(s + [x]) == if x == ".." then (if c == [] then [] else c[..|c| - 1]) else if x == "." then c else c + [x]
  {
    assert (s + [x])[..|s|] == s;
  }

  /** Consuming a path in two pieces: the first piece can be consumed on its own first. */
  lemma {:induction false} ConsumeThrough(a: seq<string>, b: seq<string>)
    ensures Consume(a + b) == Consume(Consume(a) + b)
    decreases |b|
  {
    if b == [] {
      assert a + b == a && Consume(a) + b == Consume(a);
    } else {
      var init, last := b[..|b| - 1], b[|b| - 1];
      ConsumeThrough(a, init);
      FrontLast(b);
      AppendAssoc(a, init, [last]);
      AppendAssoc(Consume(a), init, [last]);
      ConsumeSnoc(a + init, last);
      ConsumeSnoc(Consume(a) + init, last);
    }
  }

  /** `x/..` cancels out wherever it stands, when `x` is not itself a dot segment. */
  lemma ConsumePops(a: seq<string>, x: string, b: seq<string>)
    requires !IsDot(x)
    ensures Consume(a + [x, ".."] + b) == Consume(a + b)
  {
    var ax := a + [x];
    assert (a + [x, ".."])[..|a| + 1] == ax && ax[..|a|] == a;
    assert Consume(ax) == Consume(a) + [x];
    assert Consume(a + [x, ".."]) == Consume(a);
    ConsumeThrough(a + [x, ".."], b);
    ConsumeThrough(a, b);
  }

  /** A `.` segment is dropped wherever it stands. */
  lemma ConsumeDropsDot(a: seq<string>, b: seq<string>)
    ensures Consume(a + ["."] + b) == Consume(a + b)
  {
    assert (a + ["."])[..|a|] == a;
    ConsumeThrough(a + ["."], b);
    ConsumeThrough(a, b);
  }

  /** A leading `..` has nothing to remove and is dropped. */
  lemma ConsumeAboveRoot(b: seq<string>)
    ensures Consume([".."] + b) == Consume(b)
  {
    assert [".."][..0] == [];
    ConsumeThrough([".."], b);
    assert [] + b == b;
  }

  /** `Consume`, keeping the trailing `/` that a final `.` or `..` stands for. */
  function ConsumeAll(segs: seq<string>): (out: seq<string>)
    ensures DotFree(out)
    ensures segs != [] ==> out != []
    ensures DotFree(segs) ==> out == segs
    ensures segs != [] && IsDot(segs[|segs| - 1]) ==> out[|out| - 1] == ""
  {
    if segs != [] && IsDot(segs[|segs| - 1]) then Consume(segs) + [""] else Consume(segs)
  }

  /** remove_dot_segments: the result holds no `.` or `..` segment, an absolute path stays
      absolute, and a path that holds no dot segment comes back unchanged. A rootless path
      stays rootless (`a/../b` gives `b`, where section 5.2.4 of RFC 3986 gives `/b`); only
      a reference or base with a scheme and no authority reaches this case. */
  function RemoveDotSegments(p: seq<string>): (r: seq<string>)
    ensures DotFree(r) && |r| >= 1
    ensures IsAbsolute(p) ==> IsAbsolute(r)
    ensures DotFree(p) && |p| >= 1 ==> r == p
  {
    if IsAbsolute(p) then [""] + ConsumeAll(p[1..])
    else if p == [] then [""]
    else ConsumeAll(p)
  }

  /** An absolute path is its root followed by the consumed rest. */
  lemma RemoveDotSegmentsRooted(s: seq<string>)
    requires s != []
    ensures RemoveDotSegments([""] + s) == [""] + ConsumeAll(s)
  {
    assert ([""] + s)[1..] == s;
  }

  /** Two runs of segments that consume alike and end alike are consumed alike. */
  lemma ConsumeAllAlike(s: seq<string>, t: seq<string>)
    requires s != [] && t != [] && s[|s| - 1] == t[|t| - 1] && Consume(s) == Consume(t)
    ensures ConsumeAll(s) == ConsumeAll(t)
  {
  }

  /** On an absolute path, `x/..` cancels out (`/a/x/../b` is `/a/b`). */
  lemma RemoveDotSegmentsPops(a: seq<string>, x: string, b: seq<string>)
    requires !IsDot(x)
    ensures b != [] ==> RemoveDotSegments([""] + a + [x, ".."] + b) == RemoveDotSegments([""] + a + b)
  {
    if b != [] {
      ConsumePops(a, x, b);
      ConsumeAllAlike(a + [x, ".."] + b, a + b);
      RemoveDotSegmentsRooted(a + [x, ".."] + b);
      RemoveDotSegmentsRooted(a + b);
      AppendAssoc([""], a, [x, ".."]);
      AppendAssoc([""], a + [x, ".."], b);
      AppendAssoc([""], a, b);
    }
  }

  /** When `x/..` ends an absolute path, the path ends in `/` where `x` stood (`/a/x/..`
      is `/a/`). */
  lemma RemoveDotSegmentsPopsLast(a: seq<string>, x: string)
    requires !IsDot(x)
    ensures RemoveDotSegments([""] + a + [x, ".."]) == RemoveDotSegments([""] + a + [""])
  {
    ConsumePops(a, x, []);
    assert a + [x, ".."] + [] == a + [x, ".."] && a + [] == a;
    var c := Consume(a);
    assert ConsumeAll(a + [x, ".."]) == c + [""];
    ConsumeSnoc(a, "");
    assert Consume(a + [""]) == c + [""];
    assert ConsumeAll(a + [""]) == c + [""];
    RemoveDotSegmentsRooted(a + [x, ".."]);
    RemoveDotSegmentsRooted(a + [""]);
    AppendAssoc([""], a, [x, ".."]);
    AppendAssoc([""], a, [""]);
  }

  /** On an absolute path, a `.` segment is dropped (`/a/./b` is `/a/b`). */
  lemma RemoveDotSegmentsDropsDot(a: seq<string>, b: seq<string>)
    ensures b != [] ==> RemoveDotSegments([""] + a + ["."] + b) == RemoveDotSegments([""] + a + b)
  {
    if b != [] {
      ConsumeDropsDot(a, b);
      ConsumeAllAlike(a + ["."] + b, a + b);
      RemoveDotSegmentsRooted(a + ["."] + b);
      RemoveDotSegmentsRooted(a + b);
      AppendAssoc([""], a, ["."]);
      AppendAssoc([""], a + ["."], b);
      AppendAssoc([""], a, b);
    }
  }

  /** When `.` ends an absolute path, the path ends in `/` (`/a/.` is `/a/`). */
  lemma RemoveDotSegmentsDropsDotLast(a: seq<string>)
    ensures RemoveDotSegments([""] + a + ["."]) == RemoveDotSegments([""] + a + [""])
  {
    ConsumeDropsDot(a, []);
    assert a + ["."] + [] == a + ["."] && a + [] == a;
    var c := Consume(a);
    assert ConsumeAll(a + ["."]) == c + [""];
    ConsumeSnoc(a, "");
    assert Consume(a + [""]) == c + [""];
    assert ConsumeAll(a + [""]) == c + [""];
    RemoveDotSegmentsRooted(a + ["."]);
    RemoveDotSegmentsRooted(a + [""]);
    AppendAssoc([""], a, ["."]);
    AppendAssoc([""], a, [""]);
  }

  /** On an absolute path, a `..` right after the root is dropped (`/../b` is `/b`, and
      `/..` is `/`). */
  lemma RemoveDotSegmentsAboveRoot(b: seq<string>)
    ensures b != [] ==> RemoveDotSegments(["", ".."] + b) == RemoveDotSegments([""] + b)
    ensures RemoveDotSegments(["", ".."]) == ["", ""]
  {
    if b != [] {
      ConsumeAboveRoot(b);
      ConsumeAllAlike([".."] + b, b);
      RemoveDotSegmentsRooted([".."] + b);
      RemoveDotSegmentsRooted(b);
      AppendAssoc([""], [".."], b);
      assert [""] + [".."] == ["", ".."];
    }
    assert [".."][..0] == [];
    assert Consume([".."]) == [];
    assert ConsumeAll([".."]) == [""];
    RemoveDotSegmentsRooted([".."]);
    assert [""] + [".."] == ["", ".."];
  }

  /** Removing dot segments twice is removing them once. */
  lemma RemoveDotSegmentsIdempotent(p: seq<string>)
    ensures RemoveDotSegments(RemoveDotSegments(p)) == RemoveDotSegments(p)
  {
  }

  // ---------------------------------------------------------------------------------
  // Reference resolution (sections 5.2.2 and 5.2.3 of RFC 3986)

  /** All of `p` but its last segment: the path up to and including its last `/`. */
  function Directory(p: seq<string>): seq<string>
  {
    if p == [] then [] else p[..|p| - 1]
  }

  /** merge (section 5.2.3): a relative path is appended to the base path with the base's
      last segment removed; a base with an authority and an empty path counts as `/`. */
  function Merge(base: Uri, ref: seq<string>): (r: seq<string>)
    ensures |r| >= |ref| && r[|r| - |ref|..] == ref
  {
    if base.host.Some? && IsEmpty(base.path) then [""] + ref else Directory(base.path) + ref
  }

  /** merge as section 5.2.3 words it, on path text: for a base path `b` and a reference
      path `r`, the merged path is `/` followed by `r` when the base has an authority and
      an empty path, `r` alone when `b` holds no `/`, and otherwise `b` up to and including
      its last `/`, followed by `r`. */
  lemma MergeText(base: Uri, b: string, r: string)
    requires base.path == SplitPath(b)
    ensures base.host.Some? && b == [] ==> JoinPath(Merge(base, SplitPath(r))) == "/" + r
    ensures !(base.host.Some? && b == []) && '/' !in b ==> JoinPath(Merge(base, SplitPath(r))) == r
    ensures !(base.host.Some? && b == []) && '/' in b ==>
      exists k :: 0 <= k < |b| && b[k] == '/' && '/' !in b[k + 1..] && JoinPath(Merge(base, SplitPath(r))) == b[..k + 1] + r
  {
    var segs, refs := SplitPath(b), SplitPath(r);
    JoinSplit(b);
    JoinSplit(r);
    assert IsEmpty(segs) <==> b == [] by {
      if b == [] { assert segs == [""]; }
      if segs == [""] { assert JoinPath(segs) == ""; }
    }
    if base.host.Some? && b == [] {
      JoinConcat([""], refs);
      assert Merge(base, refs) == [""] + refs;
    } else if |segs| == 1 {
      assert b == segs[0];
      assert Merge(base, refs) == refs;
    } else {
      var dir := segs[..|segs| - 1];
      var k := |JoinPath(dir)|;
      assert b == JoinPath(dir) + "/" + segs[|segs| - 1];
      assert b[k] == '/' && b[k + 1..] == segs[|segs| - 1];
      assert b[..k + 1] == JoinPath(dir) + "/";
      JoinConcat(dir, refs);
      assert Merge(base, refs) == dir + refs;
      assert JoinPath(Merge(base, refs)) == b[..k + 1] + r;
    }
  }

  /** `urljoin(base, ref)` as section 5.2.2 of RFC 3986 resolves a reference: a reference
      with a scheme stands alone, one with an authority keeps only the base's scheme, and
      one with neither keeps the base's scheme and authority; its path replaces, or is
      merged into, the base path, and dot segments are removed. */
  function Resolve(base: Uri, ref: Uri): (t: Uri)
    ensures ref.scheme.Some? ==> t.scheme == ref.scheme && t.host == ref.host
    ensures ref.scheme.None? ==> t.scheme == base.scheme
    ensures ref.scheme.None? && ref.host.Some? ==> t.host == ref.host
    ensures ref.scheme.None? && ref.host.None? ==> t.host == base.host
    ensures ref.scheme.None? && ref.host.None? && IsEmpty(ref.path) ==> t.path == base.path
    ensures !(ref.scheme.None? && ref.host.None? && IsEmpty(ref.path)) ==> DotFree(t.path)
    ensures ref.scheme.Some? || ref.host.Some? ==> t.path == RemoveDotSegments(ref.path)
    ensures ref.scheme.None? && ref.host.None? && IsAbsolute(ref.path) ==> t.path == RemoveDotSegments(ref.path)
    ensures ref.scheme.None? && ref.host.None? && !IsEmpty(ref.path) && !IsAbsolute(ref.path) ==>
      t.path == RemoveDotSegments(Merge(base, ref.path))
  {
    if ref.scheme.Some? then Uri(ref.scheme, ref.host, RemoveDotSegments(ref.path))
    else if ref.host.Some? then Uri(base.scheme, ref.host, RemoveDotSegments(ref.path))
    else if IsEmpty(ref.path) then base
    else if IsAbsolute(ref.path) then Uri(base.scheme, base.host, RemoveDotSegments(ref.path))
    else Uri(base.scheme, base.host, RemoveDotSegments(Merge(base, ref.path)))
  }

  /** A relative reference without dot segments lands in the base's directory: its path is
      the base path up to its last `/` followed by the reference's segments. */
  lemma ResolveRelative(base: Uri, ref: Uri)
    requires ref.scheme.None? && ref.host.None? && !IsEmpty(ref.path) && ref.path[0] != ""
    requires !IsEmpty(base.path) && DotFree(base.path) && DotFree(ref.path)
    ensures Resolve(base, ref) == Uri(base.scheme, base.host, base.path[..|base.path| - 1] + ref.path)
  {
    assert DotFree(Merge(base, ref.path));
  }

  /** The example of a lecture link next to a course's sections page:
      `../lecture/5` against `https://www.rwaq.org/courses/econometrics/sections`. */
  lemma ResolveExample()
    ensures Resolve(Uri(Some("https"), Some("www.rwaq.org"), ["", "courses", "econometrics", "sections"]),
                    Uri(None, None, ["..", "lecture", "5"]))
         == Uri(Some("https"), Some("www.rwaq.org"), ["", "courses", "lecture", "5"])
  {
    var segs: seq<string> := ["courses", "econometrics", "..", "lecture", "5"];
    assert Merge(Uri(Some("https"), Some("www.rwaq.org"), ["", "courses", "econometrics", "sections"]),
                 ["..", "lecture", "5"])[1..] == segs;
    ConsumeExample();
  }

  /** The dot segments of the example above: `..` drops `econometrics`. */
  lemma ConsumeExample()
    ensures Consume(["courses", "econometrics", "..", "lecture", "5"]) == ["courses", "lecture", "5"]
  {
    var segs: seq<string> := ["courses", "econometrics", "..", "lecture", "5"];
    assert segs[..1] == ["courses"];
    assert Consume(segs[..1]) == ["courses"];
    assert segs[..2][..1] == segs[..1];
    assert Consume(segs[..2]) == ["courses", "econometrics"];
    assert segs[..3][..2] == segs[..2];
    assert Consume(segs[..3]) == ["courses"];
    assert segs[..4][..3] == segs[..3];
    assert Consume(segs[..4]) == ["courses", "lecture"];
    assert segs[..4] == segs[..|segs| - 1];
  }

  // ---------------------------------------------------------------------------------
  // validate_course

  const RwaqHost: string := "www.rwaq.org"

  /** The reference `'sections'` that `validate_course` joins onto the course URL. */
  const SectionsRef: Uri := Uri(None, None, ["sections"])

  /** Why `validate_course` rejected a URL; each ends the run. */
  datatype CourseError =
    | NotRwaqCourse  // the host is not www.rwaq.org
    | NotCourseUrl   // the first path segment is not `courses`
    | InvalidUrl     // the path has no first segment (`split('/')[1]` fails)

  /** `validate_course`: the URL is accepted exactly when its authority is www.rwaq.org
      and its first path segment is `courses`; the host is checked first, then whether the
      path has a first segment at all. An accepted URL is turned into its `sections` page. */
  function ValidateCourse(course: Uri): (r: Result<Uri, CourseError>)
    ensures r.Ok? <==> course.host == Some(RwaqHost) && |course.path| >= 2 && course.path[1] == "courses"
    ensures course.host != Some(RwaqHost) ==> r == Err(NotRwaqCourse)
    ensures course.host == Some(RwaqHost) && |course.path| < 2 ==> r == Err(InvalidUrl)
    ensures course.host == Some(RwaqHost) && |course.path| >= 2 && course.path[1] != "courses" ==> r == Err(NotCourseUrl)
    ensures r.Ok? ==> r.value.scheme == course.scheme && r.value.host == course.host
  {
    if course.host != Some(RwaqHost) then Err(NotRwaqCourse)
    else if |course.path| < 2 then Err(InvalidUrl)
    else if course.path[1] != "courses" then Err(NotCourseUrl)
    else Ok(Resolve(course, SectionsRef))
  }

  /** An accepted course URL without dot segments becomes the same URL with its last
      segment replaced by `sections`. */
  lemma ValidatedIsSectionsPage(course: Uri)
    requires ValidateCourse(course).Ok? && DotFree(course.path)
    ensures ValidateCourse(course).value
         == Uri(course.scheme, course.host, course.path[..|course.path| - 1] + ["sections"])
  {
    ResolveRelative(course, SectionsRef);
  }

  /** A course URL that already ends in `/sections` comes back unchanged. */
  lemma ValidateSectionsUnchanged(course: Uri)
    requires ValidateCourse(course).Ok? && DotFree(course.path)
    requires course.path[|course.path| - 1] == "sections"
    ensures ValidateCourse(course) == Ok(course)
  {
    var r := ValidateCourse(course);
    ValidatedIsSectionsPage(course);
    FrontLast(course.path);
    assert r.value == course;
  }

  /** The result of validating a course URL one level below `/courses/` validates to itself. */
  lemma ValidateCourseIdempotent(course: Uri)
    requires ValidateCourse(course).Ok? && DotFree(course.path) && |course.path| >= 3
    ensures ValidateCourse(ValidateCourse(course).value) == ValidateCourse(course)
  {
    ValidatedIsSectionsPage(course);
    var v := ValidateCourse(course).value;
    assert v.path[1] == "courses";
    assert DotFree(v.path);
    ValidateSectionsUnchanged(v);
  }

  // ---------------------------------------------------------------------------------
  // The YouTube id of an embedded player

  /** The last `/`-separated segment of the player source's path. */
  function VideoId(src: Uri): string
  {
    if src.path == [] then "" else src.path[|src.path| - 1]
  }

  /** The watch page of a video id. */
  function WatchUrl(id: string): string
  {
    "https://www.youtube.com/watch?v=" + id
  }

  /** For a source whose path text is `text`, the id holds no `/` and is what follows the
      last `/` of `text` (all of `text` when it has none). */
  lemma VideoIdIsLastSegment(src: Uri, text: string)
    requires src.path == SplitPath(text)
    ensures '/' !in VideoId(src)
    ensures text == VideoId(src) || (exists k :: 0 <= k < |text| && text[k] == '/' && text[k + 1..] == VideoId(src))
  {
    var p := src.path;
    var id := VideoId(src);
    JoinSplit(text);
    if |p| > 1 {
      var head := JoinPath(p[..|p| - 1]);
      assert text == head + "/" + id;
      assert text[|head|] == '/' && text[|head| + 1..] == id;
    }
  }
}
