/** The command-line script: it finds the GPX tracks and the raw (`.NEF`)
    images, reads each track's span and each image's time, sorts both,
    assigns every image to each track whose span holds its time, and then
    adds one waypoint per image to each track, writing the annotated track
    beside the original.

    Parsing a GPX file and reading an image's EXIF tag are inputs (`parse`,
    `exifOf`), the clock is the `now` parameter, and writing a file is
    modelled by returning its path. */
module Script {
  import opened Wrappers
  import opened Text
  import opened Seqs
  import opened DateTimes
  import opened Collection
  import opened Lib
  import Photos

  /** The file an annotated track is written to: beside the track, named
      after its stem. */
  function OutputName(track: Path): Path
  {
    Path(track.parent, Stem(track.name) + "_with_imgs.gpx")
  }

  /** The annotated track goes beside the original, under a name ending in
      `_with_imgs.gpx`, and never overwrites the original. */
  lemma OutputNameBeside(track: Path)
    ensures OutputName(track).parent == track.parent && OutputName(track) != track
    ensures EndsWith(OutputName(track).name, "_with_imgs.gpx")
  {
    var stem := Stem(track.name);
    var out := OutputName(track);
    StemShape(track.name);
    assert out.name[|stem|] == '_';
    assert out.name[|out.name| - 14..] == "_with_imgs.gpx";
  }

  lemma OutputNameExample()
    ensures OutputName(Path("tracks", "ride.gpx")) == Path("tracks", "ride_with_imgs.gpx")
  {
    assert "ride.gpx" == "ride" + "." + "gpx";
    StemOfSuffixed("ride", "gpx");
    assert Stem("ride.gpx") == "ride";
    assert "ride" + "_with_imgs.gpx" == "ride_with_imgs.gpx";
  }

  // ----- reading the tracks -----

  /** The span of a track file. */
  function SpanOf(parse: Path -> GpxFile): Path -> Result<(Instant, Instant)>
  {
    p => SegmentSpan(parse(p))
  }

  /** The error of the first track file whose span cannot be taken. */
  function FirstSpanError(paths: seq<Path>, parse: Path -> GpxFile): Option<Error>
  {
    FirstError(paths, SpanOf(parse))
  }

  function TrackPaths(tracks: seq<TrackData>): (ps: seq<Path>)
    ensures |ps| == |tracks| && forall i :: 0 <= i < |tracks| ==> ps[i] == tracks[i].path
  {
    seq(|tracks|, i requires 0 <= i < |tracks| => tracks[i].path)
  }

  /** The record holds the span of the file. */
  predicate Spanned(t: TrackData, file: GpxFile)
  {
    SegmentSpan(file).Ok? && (t.start, t.end) == SegmentSpan(file).value
  }

  /** The record holds the file's span and a document with the file's
      content, as it was read. */
  predicate ReadAs(t: TrackData, file: GpxFile)
    reads t.gpx, TrackPoints(t.gpx), t.gpx.waypoints
  {
    Spanned(t, file) && Content(t.gpx) == file && Unshared(t.gpx)
  }

  function Documents(tracks: seq<TrackData>): set<Gpx>
  {
    set t | t in tracks :: t.gpx
  }

  /** Different records hold different documents, with no point object in common. */
  predicate Separate(tracks: seq<TrackData>)
    reads Documents(tracks)
  {
    forall t, u :: t in tracks && u in tracks && t != u ==> t.gpx != u.gpx && Objects(t.gpx) !! Objects(u.gpx)
  }

  /** Different records hold different documents, whose point objects are
      the given disjoint sets. */
  predicate Apart(tracks: seq<TrackData>, objs: seq<set<GpxPoint>>)
    requires |objs| == |tracks|
  {
    forall i, j :: 0 <= i < |tracks| && 0 <= j < |tracks| && i != j ==>
      tracks[i].gpx != tracks[j].gpx && objs[i] !! objs[j]
  }

  lemma ApartSnoc(tracks: seq<TrackData>, objs: seq<set<GpxPoint>>, t: TrackData, points: set<GpxPoint>)
    requires |objs| == |tracks| && Apart(tracks, objs)
    requires forall j :: 0 <= j < |tracks| ==> tracks[j].gpx != t.gpx && objs[j] !! points
    ensures Apart(tracks + [t], objs + [points])
  {
    var ts, os := tracks + [t], objs + [points];
    forall i, j | 0 <= i < |ts| && 0 <= j < |ts| && i != j
      ensures ts[i].gpx != ts[j].gpx && os[i] !! os[j]
    {
      if i < |tracks| && j < |tracks| {
        assert ts[i] == tracks[i] && ts[j] == tracks[j] && os[i] == objs[i] && os[j] == objs[j];
      }
    }
  }

  /** The records of the first `i` files, in file order: each holds the
      file's span and a new document with the file's content, and different
      records share no document and no point object. */
  ghost predicate ReadUpTo(tracks: seq<TrackData>, objs: seq<set<GpxPoint>>, paths: seq<Path>, i: nat, parse: Path -> GpxFile)
    reads *
  {
    var holds :=
      && |tracks| == |objs| == i <= |paths| && Distinct(tracks) && Apart(tracks, objs)
      && forall j :: 0 <= j < i ==>
           && tracks[j].path == paths[j] && ReadAs(tracks[j], parse(paths[j])) && tracks[j].images == []
           && objs[j] == Objects(tracks[j].gpx);
    holds
  }

  /** One step of `list(map(process_track, track_files))`: the next file is
      processed, the records read before keep what they hold, and a new
      record shares nothing with them. */
  method ProcessNext(paths: seq<Path>, i: nat, parse: Path -> GpxFile, ghost tracks: seq<TrackData>, ghost objs: seq<set<GpxPoint>>)
    returns (r: Result<TrackData>)
    requires i < |paths| && ReadUpTo(tracks, objs, paths, i, parse)
    ensures r.Err? <==> SegmentSpan(parse(paths[i])).Err?
    ensures r.Err? ==> r.error == SegmentSpan(parse(paths[i])).error
    ensures r.Ok? ==> && fresh(r.value) && fresh(r.value.gpx) && fresh(Objects(r.value.gpx))
                      && ReadUpTo(tracks + [r.value], objs + [Objects(r.value.gpx)], paths, i + 1, parse)
    ensures r.Err? ==> ReadUpTo(tracks, objs, paths, i, parse)
  {
    r := ProcessTrack(paths[i], parse(paths[i]));
    forall j | 0 <= j < i
      ensures ReadAs(tracks[j], parse(paths[j])) && objs[j] == Objects(tracks[j].gpx)
    {
      assert old(ReadAs(tracks[j], parse(paths[j])) && objs[j] == Objects(tracks[j].gpx));
    }
    if r.Ok? {
      var t := r.value;
      ApartSnoc(tracks, objs, t, Objects(t.gpx));
      DistinctSnoc(tracks, t);
    }
  }

  /** `list(map(process_track, track_files))`: the first failure aborts the
      run; otherwise one fresh record per file, in file order, each with a
      new document, and no point object shared between two documents. */
  method ProcessTracks(paths: seq<Path>, parse: Path -> GpxFile) returns (r: Result<seq<TrackData>>, ghost objs: seq<set<GpxPoint>>)
    ensures r.Err? <==> FirstSpanError(paths, parse).Some?
    ensures r.Err? ==> r.error == FirstSpanError(paths, parse).value
    ensures r.Ok? ==> ReadUpTo(r.value, objs, paths, |paths|, parse) && TrackPaths(r.value) == paths
    ensures r.Ok? ==> forall i :: 0 <= i < |paths| ==> fresh(r.value[i]) && fresh(r.value[i].gpx) && fresh(objs[i])
    ensures r.Ok? ==> fresh(Documents(r.value)) && fresh(DocumentPoints(r.value))
  {
    var tracks: seq<TrackData> := [];
    objs := [];
    r := Ok([]);
    var i := 0;
    while i < |paths|
      invariant i <= |paths| && FirstSpanError(paths[..i], parse).None?
      invariant ReadUpTo(tracks, objs, paths, i, parse)
      invariant forall j :: 0 <= j < i ==> fresh(tracks[j]) && fresh(tracks[j].gpx) && fresh(objs[j])
    {
      var t := ProcessNext(paths, i, parse, tracks, objs);
      FirstErrorStep(paths, i, SpanOf(parse));
      if t.Err? {
        FirstErrorPrefix(paths, i + 1, SpanOf(parse));
        r := Err(t.error);
        break;
      }
      var ts, os := tracks + [t.value], objs + [Objects(t.value.gpx)];
      forall j | 0 <= j < i + 1 ensures fresh(ts[j]) && fresh(ts[j].gpx) && fresh(os[j]) {
        if j < i {
          assert ts[j] == tracks[j] && os[j] == objs[j];
        }
      }
      tracks, objs := ts, os;
      i := i + 1;
    }
    if r.Ok? {
      assert paths[..i] == paths;
      assert TrackPaths(tracks) == paths;
      forall d | d in Documents(tracks) ensures fresh(d) {
        var j :| 0 <= j < |tracks| && tracks[j].gpx == d;
      }
      forall p | p in DocumentPoints(tracks) ensures fresh(p) {
        var t :| t in tracks && p in TrackPoints(t.gpx);
        var j :| 0 <= j < |tracks| && tracks[j] == t;
        assert p in objs[j];
      }
      r := Ok(tracks);
    }
  }

  // ----- reading the images -----

  /** `list(map(get_image_date, image_files))`. */
  function ImageDates(paths: seq<Path>, exifOf: Path -> Photos.ExifTag, now: DateTime): (images: seq<ImageData>)
    requires Valid(now)
    ensures |images| == |paths|
    ensures forall i :: 0 <= i < |paths| ==> images[i] == GetImageDate(paths[i], exifOf(paths[i]), now)
  {
    seq(|paths|, i requires 0 <= i < |paths| => GetImageDate(paths[i], exifOf(paths[i]), now))
  }

  // ----- assigning images to tracks -----

  function StartOf(t: TrackData): int
  {
    t.start
  }

  /** The image's time lies in the track's span, both ends included. */
  function InSpan(t: TrackData): ImageData -> bool
  {
    image => t.start <= ImageInstant(image) <= t.end
  }

  lemma FilterSnoc<T>(s: seq<T>, x: T, p: T -> bool)
    ensures Filter(s + [x], p) == Filter(s, p) + if p(x) then [x] else []
  {
    FilterConcat(s, [x], p);
    assert [x][1..] == [];
  }

  /** The images assigned to a track are, in order, those of the list whose
      time lies in its span. */
  ghost predicate Assigned(tracks: seq<TrackData>, images: seq<ImageData>, before: seq<seq<ImageData>>)
    requires |before| == |tracks|
    reads tracks
  {
    forall i :: 0 <= i < |tracks| ==> tracks[i].images == before[i] + Filter(images, InSpan(tracks[i]))
  }

  /** The inner loop of the assignment: `image` is appended to each track
      whose span holds its time. */
  method AssignImage(image: ImageData, tracks: seq<TrackData>)
    requires Distinct(tracks)
    modifies tracks`images
    ensures forall i :: 0 <= i < |tracks| ==>
              tracks[i].images == old(tracks[i].images) + if InSpan(tracks[i])(image) then [image] else []
  {
    var m := 0;
    while m < |tracks|
      invariant 0 <= m <= |tracks|
      invariant forall i :: 0 <= i < m ==>
                  tracks[i].images == old(tracks[i].images) + if InSpan(tracks[i])(image) then [image] else []
      invariant forall i :: m <= i < |tracks| ==> tracks[i].images == old(tracks[i].images)
    {
      var t := tracks[m];
      if t.start <= ImageInstant(image) <= t.end {
        t.images := t.images + [image];
      }
      m := m + 1;
    }
  }

  /** The double loop of `main`: every image, in list order, is appended to
      each track whose span holds its time, so an image can go to several
      tracks or to none. */
  method AssignImages(images: seq<ImageData>, tracks: seq<TrackData>)
    requires Distinct(tracks)
    modifies tracks`images
    ensures |old(TrackImages(tracks))| == |tracks| && Assigned(tracks, images, old(TrackImages(tracks)))
  {
    ghost var before := TrackImages(tracks);
    var k := 0;
    while k < |images|
      invariant 0 <= k <= |images|
      invariant Assigned(tracks, images[..k], before)
    {
      AssignImage(images[k], tracks);
      assert images[..k + 1] == images[..k] + [images[k]];
      forall i | 0 <= i < |tracks|
        ensures tracks[i].images == before[i] + Filter(images[..k + 1], InSpan(tracks[i]))
      {
        FilterSnoc(images[..k], images[k], InSpan(tracks[i]));
      }
      k := k + 1;
    }
    assert images[..k] == images;
  }

  function TrackImages(tracks: seq<TrackData>): (r: seq<seq<ImageData>>)
    reads tracks
    ensures |r| == |tracks| && forall i :: 0 <= i < |tracks| ==> r[i] == tracks[i].images
  {
    seq(|tracks|, i requires 0 <= i < |tracks| reads tracks => tracks[i].images)
  }

  /** A track's images keep the order of the sorted image list, so its
      waypoints are added in time order. */
  lemma AssignedInTimeOrder(images: seq<ImageData>, t: TrackData)
    requires SortedBy(images, ImageInstant)
    ensures SortedBy(Filter(images, InSpan(t)), ImageInstant)
  {
    FilterSorted(images, InSpan(t), ImageInstant);
  }

  /** An image goes to a track exactly when its time lies in the track's
      span, as often as it occurs in the list. */
  lemma AssignedExactly(images: seq<ImageData>, t: TrackData, image: ImageData)
    ensures multiset(Filter(images, InSpan(t)))[image]
            == if t.start <= ImageInstant(image) <= t.end then multiset(images)[image] else 0
  {
    FilterMultiset(images, InSpan(t));
  }

  // ----- annotating the tracks -----

  /** A file the script writes: its path and its content. */
  datatype OutputFile = OutputFile(path: Path, content: GpxFile)

  /** The files written for tracks with these paths, contents and images:
      one per track with images, in track order, each holding the track's
      annotated content beside the track. */
  function Outputs(paths: seq<Path>, files: seq<GpxFile>, images: seq<seq<ImageData>>): seq<OutputFile>
    requires |paths| == |files| == |images|
  {
    if paths == [] then []
    else
      var n := |paths| - 1;
      Outputs(paths[..n], files[..n], images[..n])
      + if |images[n]| > 0 then [OutputFile(OutputName(paths[n]), Annotated(files[n], images[n]))] else []
  }

  lemma OutputsStep(paths: seq<Path>, files: seq<GpxFile>, images: seq<seq<ImageData>>, k: nat)
    requires k < |paths| == |files| == |images|
    ensures Outputs(paths[..k + 1], files[..k + 1], images[..k + 1])
            == Outputs(paths[..k], files[..k], images[..k])
               + if |images[k]| > 0 then [OutputFile(OutputName(paths[k]), Annotated(files[k], images[k]))] else []
  {
    assert paths[..k + 1][..k] == paths[..k] && files[..k + 1][..k] == files[..k] && images[..k + 1][..k] == images[..k];
  }

  /** Every output is written beside a track that has images, under that
      track's output name, with the track's annotated content. */
  lemma OutputsOfTracks(paths: seq<Path>, files: seq<GpxFile>, images: seq<seq<ImageData>>, o: OutputFile)
    requires |paths| == |files| == |images|
    ensures o in Outputs(paths, files, images) <==>
            exists i :: 0 <= i < |paths| && |images[i]| > 0 && o == OutputFile(OutputName(paths[i]), Annotated(files[i], images[i]))
  {
    if o in Outputs(paths, files, images) {
      OutputsFrom(paths, files, images, o);
    }
    if exists i :: 0 <= i < |paths| && |images[i]| > 0 && o == OutputFile(OutputName(paths[i]), Annotated(files[i], images[i])) {
      var i :| 0 <= i < |paths| && |images[i]| > 0 && o == OutputFile(OutputName(paths[i]), Annotated(files[i], images[i]));
      OutputsHas(paths, files, images, i);
    }
  }

  lemma {:induction false} OutputsFrom(paths: seq<Path>, files: seq<GpxFile>, images: seq<seq<ImageData>>, o: OutputFile)
    requires |paths| == |files| == |images| && o in Outputs(paths, files, images)
    ensures exists i :: 0 <= i < |paths| && |images[i]| > 0 && o == OutputFile(OutputName(paths[i]), Annotated(files[i], images[i]))
  {
    var n := |paths| - 1;
    if o in Outputs(paths[..n], files[..n], images[..n]) {
      OutputsFrom(paths[..n], files[..n], images[..n], o);
      var i :| 0 <= i < n && |images[..n][i]| > 0
               && o == OutputFile(OutputName(paths[..n][i]), Annotated(files[..n][i], images[..n][i]));
      assert paths[..n][i] == paths[i] && files[..n][i] == files[i] && images[..n][i] == images[i];
    } else {
      assert |images[n]| > 0 && o == OutputFile(OutputName(paths[n]), Annotated(files[n], images[n]));
    }
  }

  lemma {:induction false} OutputsHas(paths: seq<Path>, files: seq<GpxFile>, images: seq<seq<ImageData>>, i: nat)
    requires |paths| == |files| == |images| && i < |paths| && |images[i]| > 0
    ensures OutputFile(OutputName(paths[i]), Annotated(files[i], images[i])) in Outputs(paths, files, images)
  {
    var n := |paths| - 1;
    if i < n {
      OutputsHas(paths[..n], files[..n], images[..n], i);
      assert paths[..n][i] == paths[i] && files[..n][i] == files[i] && images[..n][i] == images[i];
    }
  }

  /** The index of the first track whose annotation raises, or the number of tracks. */
  function Stop(files: seq<GpxFile>, images: seq<seq<ImageData>>): (m: nat)
    requires |files| == |images|
    ensures m <= |files|
    ensures forall i :: 0 <= i < m ==> WaypointsError(files[i], images[i]).None?
    ensures m < |files| ==> WaypointsError(files[m], images[m]).Some?
  {
    if files == [] then 0
    else if WaypointsError(files[0], images[0]).Some? then 0
    else
      var m := Stop(files[1..], images[1..]);
      assert forall i :: 1 <= i <= m ==> files[1..][i - 1] == files[i] && images[1..][i - 1] == images[i];
      1 + m
  }

  function DocumentPoints(tracks: seq<TrackData>): set<GpxPoint>
  {
    set t, p | t in tracks && p in TrackPoints(t.gpx) :: p
  }

  /** The contents of the records' documents, in record order. */
  ghost function Contents(tracks: seq<TrackData>): (fs: seq<GpxFile>)
    reads *
    ensures |fs| == |tracks| && forall i :: 0 <= i < |tracks| ==> fs[i] == Content(tracks[i].gpx)
  {
    seq(|tracks|, i requires 0 <= i < |tracks| reads * => Content(tracks[i].gpx))
  }

  /** The script's `add_track_waypoints`: the waypoints are added as the
      library function does, and a track with images is then written, with
      `to_file`, beside the original. */
  method SaveWaypoints(t: TrackData) returns (r: Result<Option<OutputFile>>)
    requires Unshared(t.gpx)
    modifies t.gpx, TrackPoints(t.gpx)
    ensures r.Err? <==> WaypointsError(old(Content(t.gpx)), t.images).Some?
    ensures r.Err? ==> r.error == WaypointsError(old(Content(t.gpx)), t.images).value
    ensures Content(t.gpx) == Annotated(old(Content(t.gpx)), t.images)
    ensures r.Ok? ==> r.value == if |t.images| > 0
                                 then Some(OutputFile(OutputName(t.path), Annotated(old(Content(t.gpx)), t.images)))
                                 else None
    ensures Objects(t.gpx) == old(Objects(t.gpx))
  {
    var added := AddTrackWaypoints(t);
    if added.Err? {
      return Err(added.error);
    }
    if |t.images| > 0 {
      r := Ok(Some(OutputFile(OutputName(t.path), Content(t.gpx))));
    } else {
      r := Ok(None);
    }
  }

  /** With the sets being the documents' point objects, the records are
      apart exactly when they are separate. */
  lemma SeparateApart(tracks: seq<TrackData>, objs: seq<set<GpxPoint>>)
    requires |objs| == |tracks| && Distinct(tracks)
    requires forall i :: 0 <= i < |tracks| ==> Objects(tracks[i].gpx) == objs[i]
    ensures Separate(tracks) <==> Apart(tracks, objs)
  {
    if Apart(tracks, objs) {
      forall t, u | t in tracks && u in tracks && t != u
        ensures t.gpx != u.gpx && Objects(t.gpx) !! Objects(u.gpx)
      {
        var i :| 0 <= i < |tracks| && tracks[i] == t;
        var j :| 0 <= j < |tracks| && tracks[j] == u;
      }
    }
    if Separate(tracks) {
      forall i, j | 0 <= i < |tracks| && 0 <= j < |tracks| && i != j
        ensures tracks[i].gpx != tracks[j].gpx && objs[i] !! objs[j]
      {
        assert tracks[i] in tracks && tracks[j] in tracks;
      }
    }
  }

  lemma DocumentPointsOf(tracks: seq<TrackData>, k: nat)
    requires k < |tracks|
    ensures tracks[k].gpx in Documents(tracks) && TrackPoints(tracks[k].gpx) <= DocumentPoints(tracks)
  {
    assert tracks[k] in tracks;
  }

  /** The documents of the records have these contents, in record order. */
  ghost predicate HoldContents(tracks: seq<TrackData>, cs: seq<GpxFile>)
    reads *
  {
    |cs| == |tracks| && forall i :: 0 <= i < |tracks| ==> Content(tracks[i].gpx) == cs[i]
  }

  /** Saving the `k`th track, `t`, changes its document only: the
      documents of the other tracks keep their contents and their fields. */
  method SaveApart(tracks: seq<TrackData>, k: nat, t: TrackData, ghost objs: seq<set<GpxPoint>>, ghost cs: seq<GpxFile>)
    returns (r: Result<Option<OutputFile>>)
    requires k < |tracks| == |objs| && tracks[k] == t && Apart(tracks, objs) && Unshared(t.gpx)
    requires forall i :: 0 <= i < |tracks| ==> Objects(tracks[i].gpx) == objs[i]
    requires HoldContents(tracks, cs)
    modifies t.gpx, TrackPoints(t.gpx)
    ensures r.Err? <==> WaypointsError(cs[k], t.images).Some?
    ensures r.Err? ==> r.error == WaypointsError(cs[k], t.images).value
    ensures r.Ok? ==> r.value == if |t.images| > 0 then Some(OutputFile(OutputName(t.path), Annotated(cs[k], t.images))) else None
    ensures Content(t.gpx) == Annotated(cs[k], t.images) && Objects(t.gpx) == objs[k]
    ensures forall i :: 0 <= i < |tracks| && i != k ==> Content(tracks[i].gpx) == cs[i] && unchanged(tracks[i].gpx)
  {
    r := SaveWaypoints(t);
    forall i | 0 <= i < |tracks| && i != k
      ensures Content(tracks[i].gpx) == cs[i] && unchanged(tracks[i].gpx)
    {
      var g := tracks[i].gpx;
      assert g != t.gpx && objs[i] !! objs[k];
      assert unchanged(g);
      assert unchanged(TrackPoints(g)) && unchanged(g.waypoints);
    }
  }

  /** One step of the last loop of `main`: the `k`th track, `t`, is saved,
      and the documents of the other tracks are left as they were. */
  method SaveTrackAt(tracks: seq<TrackData>, k: nat, t: TrackData, ghost objs: seq<set<GpxPoint>>, ghost cs: seq<GpxFile>)
    returns (r: Result<Option<OutputFile>>)
    requires k < |tracks| == |objs| && tracks[k] == t && Apart(tracks, objs) && Unshared(t.gpx)
    requires forall i :: 0 <= i < |tracks| ==> Objects(tracks[i].gpx) == objs[i]
    requires HoldContents(tracks, cs)
    modifies t.gpx, TrackPoints(t.gpx)
    ensures r.Err? <==> WaypointsError(cs[k], t.images).Some?
    ensures r.Err? ==> r.error == WaypointsError(cs[k], t.images).value
    ensures r.Ok? ==> r.value == if |t.images| > 0 then Some(OutputFile(OutputName(t.path), Annotated(cs[k], t.images))) else None
    ensures HoldContents(tracks, cs[k := Annotated(cs[k], t.images)])
    ensures forall i :: 0 <= i < |tracks| ==> Objects(tracks[i].gpx) == objs[i]
    ensures TrackImages(tracks) == old(TrackImages(tracks))
    ensures forall i :: 0 <= i < |tracks| && i != k ==> Unshared(tracks[i].gpx) == old(Unshared(tracks[i].gpx))
  {
    r := SaveApart(tracks, k, t, objs, cs);
    forall i | 0 <= i < |tracks| && i != k
      ensures Objects(tracks[i].gpx) == objs[i] && Unshared(tracks[i].gpx) == old(Unshared(tracks[i].gpx))
    {
      assert unchanged(tracks[i].gpx);
    }
  }

  /** The contents of the documents once the tracks before `k` are annotated. */
  function Progress(files: seq<GpxFile>, images: seq<seq<ImageData>>, k: nat): (cs: seq<GpxFile>)
    requires |files| == |images|
    ensures |cs| == |files|
    ensures forall i :: 0 <= i < |files| ==> cs[i] == if i < k then Annotated(files[i], images[i]) else files[i]
  {
    seq(|files|, i requires 0 <= i < |files| => if i < k then Annotated(files[i], images[i]) else files[i])
  }

  /** Annotating the `k`th document takes the contents one track further. */
  lemma ProgressStep(files: seq<GpxFile>, images: seq<seq<ImageData>>, k: nat)
    requires k < |files| == |images|
    ensures Progress(files, images, k)[k := Annotated(files[k], images[k])] == Progress(files, images, k + 1)
    ensures WaypointsError(files[k], images[k]).Some? ==>
              Progress(files, images, k)[k := Annotated(files[k], images[k])] == Progress(files, images, k)
  {
    assert Progress(files, images, k)[k := Annotated(files[k], images[k])] == Progress(files, images, k + 1);
  }

  /** The state of the last loop of `main` before the `k`th track: the
      records and the documents' point objects are as they were, the tracks
      before `k` hold their annotated content and were written when they
      had images, and the later ones are as they were read. */
  ghost predicate Annotating(tracks: seq<TrackData>, objs: seq<set<GpxPoint>>,
                             files: seq<GpxFile>, images: seq<seq<ImageData>>, k: nat, written: seq<OutputFile>)
    reads *
  {
    var holds :=
      && |objs| == |files| == |images| == |tracks| && k <= Stop(files, images)
      && TrackImages(tracks) == images && Apart(tracks, objs)
      && (forall i :: 0 <= i < |tracks| ==> Objects(tracks[i].gpx) == objs[i])
      && HoldContents(tracks, Progress(files, images, k))
      && (forall i :: k <= i < |tracks| ==> Unshared(tracks[i].gpx))
      && written == Outputs(TrackPaths(tracks)[..k], files[..k], images[..k]);
    holds
  }

  /** The state once the last loop of `main` has stopped at `m`: the records
      are as they were, the tracks before `m` hold their annotated content
      and were written when they had images, and the others are as they
      were read. */
  ghost predicate Finished(tracks: seq<TrackData>, files: seq<GpxFile>, images: seq<seq<ImageData>>,
                           m: nat, written: seq<OutputFile>)
    reads *
  {
    var holds :=
      && |files| == |images| == |tracks| && m == Stop(files, images) && TrackImages(tracks) == images
      && written == Outputs(TrackPaths(tracks)[..m], files[..m], images[..m])
      && HoldContents(tracks, Progress(files, images, m));
    holds
  }

  /** Before the last loop of `main`, nothing is annotated and nothing written. */
  lemma AnnotatingStart(tracks: seq<TrackData>, objs: seq<set<GpxPoint>>, files: seq<GpxFile>, images: seq<seq<ImageData>>)
    requires Distinct(tracks) && Separate(tracks) && |objs| == |tracks|
    requires forall i :: 0 <= i < |tracks| ==> Objects(tracks[i].gpx) == objs[i] && Unshared(tracks[i].gpx)
    requires files == Contents(tracks) && images == TrackImages(tracks)
    ensures Annotating(tracks, objs, files, images, 0, [])
  {
    SeparateApart(tracks, objs);
    assert TrackPaths(tracks)[..0] == [] && files[..0] == [] && images[..0] == [];
    assert HoldContents(tracks, Progress(files, images, 0));
  }

  /** When the last loop of `main` has gone through every track, no track raised. */
  lemma AnnotatingDone(tracks: seq<TrackData>, objs: seq<set<GpxPoint>>, files: seq<GpxFile>,
                       images: seq<seq<ImageData>>, written: seq<OutputFile>)
    requires Annotating(tracks, objs, files, images, |tracks|, written)
    ensures Finished(tracks, files, images, |tracks|, written)
  {
  }

  /** The loop stops at `k`, once it got there, exactly when the `k`th track raises. */
  lemma StopAt(files: seq<GpxFile>, images: seq<seq<ImageData>>, k: nat)
    requires k < |files| == |images| && k <= Stop(files, images)
    ensures Stop(files, images) == k <==> WaypointsError(files[k], images[k]).Some?
  {
  }

  /** One step of the last loop of `main`: the `k`th track is saved; when
      it raises, the run stops there with the documents as they were. */
  method AnnotateStep(tracks: seq<TrackData>, k: nat, ghost objs: seq<set<GpxPoint>>,
                      ghost files: seq<GpxFile>, ghost images: seq<seq<ImageData>>, ghost written: seq<OutputFile>)
    returns (r: Result<Option<OutputFile>>)
    requires k < |tracks| && Annotating(tracks, objs, files, images, k, written)
    modifies tracks[k].gpx, TrackPoints(tracks[k].gpx)
    ensures r.Err? <==> Stop(files, images) == k
    ensures r.Err? ==> r.error == WaypointsError(files[k], images[k]).value && Finished(tracks, files, images, k, written)
    ensures r.Ok? ==> Annotating(tracks, objs, files, images, k + 1, written + if r.value.Some? then [r.value.value] else [])
  {
    StopAt(files, images, k);
    OutputsStep(TrackPaths(tracks), files, images, k);
    ProgressStep(files, images, k);
    r := SaveTrackAt(tracks, k, tracks[k], objs, Progress(files, images, k));
  }

  /** The last loop of `main`: each track in turn gets its waypoints and is
      written when it has images; the first track that raises ends the run,
      after the tracks before it were written, and leaves the later ones as
      they were read. */
  method AnnotateAll(tracks: seq<TrackData>, ghost files: seq<GpxFile>) returns (r: Result<()>, written: seq<OutputFile>)
    requires Distinct(tracks) && Separate(tracks) && forall i :: 0 <= i < |tracks| ==> Unshared(tracks[i].gpx)
    requires files == Contents(tracks)
    modifies Documents(tracks), DocumentPoints(tracks)
    ensures TrackImages(tracks) == old(TrackImages(tracks))
    ensures var images := TrackImages(tracks); var m := Stop(files, images);
            && (r.Ok? <==> m == |tracks|)
            && (r.Err? ==> r.error == WaypointsError(files[m], images[m]).value)
            && written == Outputs(TrackPaths(tracks)[..m], files[..m], images[..m])
            && forall i :: 0 <= i < |tracks| ==> Content(tracks[i].gpx) == if i < m then Annotated(files[i], images[i]) else files[i]
  {
    ghost var images := TrackImages(tracks);
    ghost var objs := seq(|tracks|, i requires 0 <= i < |tracks| reads Documents(tracks) => Objects(tracks[i].gpx));
    AnnotatingStart(tracks, objs, files, images);
    written := [];
    r := Ok(());
    var k := 0;
    while k < |tracks|
      invariant Annotating(tracks, objs, files, images, k, written)
    {
      DocumentPointsOf(tracks, k);
      var saved := AnnotateStep(tracks, k, objs, files, images, written);
      if saved.Err? {
        r := Err(saved.error);
        break;
      }
      if saved.value.Some? {
        written := written + [saved.value.value];
      }
      k := k + 1;
    }
    if r.Ok? {
      AnnotatingDone(tracks, objs, files, images, written);
    }
    assert Finished(tracks, files, images, k, written) && (r.Ok? <==> k == |tracks|);
  }

  // ----- main -----

  /** Each record comes from one of the files and holds that file's span. */
  predicate SpannedAll(tracks: seq<TrackData>, paths: seq<Path>, parse: Path -> GpxFile)
  {
    forall i :: 0 <= i < |tracks| ==> tracks[i].path in paths && Spanned(tracks[i], parse(tracks[i].path))
  }

  /** Each track holds, in time order, exactly the images whose time lies in its span. */
  ghost predicate Prepared(tracks: seq<TrackData>, images: seq<ImageData>)
    reads tracks
  {
    PreparedAs(tracks, TrackImages(tracks), images)
  }

  /** Track `i` holds `ims[i]`, which is, in time order, exactly the images whose time lies in its span. */
  ghost predicate PreparedAs(tracks: seq<TrackData>, ims: seq<seq<ImageData>>, images: seq<ImageData>)
  {
    |ims| == |tracks| &&
    forall i :: 0 <= i < |tracks| ==>
      ims[i] == Filter(images, InSpan(tracks[i])) && SortedBy(ims[i], ImageInstant)
  }

  /** The files' contents, in path order. */
  function Files(paths: seq<Path>, parse: Path -> GpxFile): (fs: seq<GpxFile>)
    ensures |fs| == |paths| && forall i :: 0 <= i < |paths| ==> fs[i] == parse(paths[i])
  {
    seq(|paths|, i requires 0 <= i < |paths| => parse(paths[i]))
  }

  /** Sorting the records keeps, for each, the file it was read from, and
      keeps different records apart. */
  lemma ReadReordered(processed: seq<TrackData>, tracks: seq<TrackData>, paths: seq<Path>, parse: Path -> GpxFile)
    requires multiset(tracks) == multiset(processed) && Distinct(processed) && Separate(processed)
    requires forall t :: t in processed ==> t.path in paths && ReadAs(t, parse(t.path))
    ensures Distinct(tracks) && SpannedAll(tracks, paths, parse) && Separate(tracks)
    ensures forall i :: 0 <= i < |tracks| ==> ReadAs(tracks[i], parse(tracks[i].path))
    ensures Documents(tracks) == Documents(processed) && DocumentPoints(tracks) == DocumentPoints(processed)
  {
    DistinctPermutation(processed, tracks);
    assert forall t :: t in tracks <==> t in multiset(tracks);
    assert forall t :: t in processed <==> t in multiset(processed);
  }

  /** Sorting distinct records gives distinct records, the same ones. */
  lemma SortedRecords(processed: seq<TrackData>, tracks: seq<TrackData>)
    requires Distinct(processed) && multiset(tracks) == multiset(processed)
    ensures Distinct(tracks)
    ensures forall i :: 0 <= i < |tracks| ==> tracks[i] in processed
  {
    DistinctPermutation(processed, tracks);
    forall i | 0 <= i < |tracks| ensures tracks[i] in processed {
      assert tracks[i] in multiset(tracks);
    }
  }

  /** Records that hold, each, the images of a sorted list in their span
      are prepared. */
  lemma PreparedByFilter(tracks: seq<TrackData>, images: seq<ImageData>)
    requires SortedBy(images, ImageInstant)
    requires forall i :: 0 <= i < |tracks| ==> tracks[i].images == Filter(images, InSpan(tracks[i]))
    ensures Prepared(tracks, images)
  {
    forall i | 0 <= i < |tracks|
      ensures SortedBy(tracks[i].images, ImageInstant)
    {
      AssignedInTimeOrder(images, tracks[i]);
    }
  }

  /** The assignment of the sorted images to the sorted records; the
      documents are left untouched. */
  method AssignSorted(images: seq<ImageData>, tracks: seq<TrackData>, processed: seq<TrackData>)
    requires Distinct(tracks) && SortedBy(images, ImageInstant)
    requires forall i :: 0 <= i < |tracks| ==> tracks[i] in processed && tracks[i].images == []
    modifies processed`images
    ensures Prepared(tracks, images)
    ensures forall t :: t in processed ==>
              && Content(t.gpx) == old(Content(t.gpx)) && Unshared(t.gpx) == old(Unshared(t.gpx))
              && Objects(t.gpx) == old(Objects(t.gpx))
  {
    ghost var before := TrackImages(tracks);
    AssignImages(images, tracks);
    forall i | 0 <= i < |tracks| ensures tracks[i].images == Filter(images, InSpan(tracks[i])) {
      assert tracks[i].images == before[i] + Filter(images, InSpan(tracks[i]));
    }
    PreparedByFilter(tracks, images);
    forall t | t in processed
      ensures Content(t.gpx) == old(Content(t.gpx)) && Unshared(t.gpx) == old(Unshared(t.gpx))
      ensures Objects(t.gpx) == old(Objects(t.gpx))
    {
      assert unchanged(t.gpx);
      assert unchanged(TrackPoints(t.gpx)) && unchanged(t.gpx.waypoints);
    }
  }

  /** The sort of the tracks by start and the assignment of the sorted
      images; the documents are left untouched. */
  method SortAndAssign(processed: seq<TrackData>, images: seq<ImageData>) returns (tracks: seq<TrackData>)
    requires Distinct(processed) && SortedBy(images, ImageInstant)
    requires forall t :: t in processed ==> t.images == []
    modifies processed`images
    ensures tracks == SortBy(processed, StartOf)
    ensures Prepared(tracks, images)
    ensures forall t :: t in processed ==>
              && Content(t.gpx) == old(Content(t.gpx)) && Unshared(t.gpx) == old(Unshared(t.gpx))
              && Objects(t.gpx) == old(Objects(t.gpx))
  {
    tracks := SortBy(processed, StartOf);
    SortedRecords(processed, tracks);
    AssignSorted(images, tracks, processed);
  }

  /** What the records of all the files hold, stated per record. */
  lemma ReadFacts(processed: seq<TrackData>, objs: seq<set<GpxPoint>>, paths: seq<Path>, parse: Path -> GpxFile)
    requires ReadUpTo(processed, objs, paths, |paths|, parse)
    ensures Distinct(processed) && Separate(processed)
    ensures forall t :: t in processed ==> t.images == [] && t.path in paths && ReadAs(t, parse(t.path))
  {
    SeparateApart(processed, objs);
    forall t | t in processed ensures t.images == [] && t.path in paths && ReadAs(t, parse(t.path)) {
      var i :| 0 <= i < |processed| && processed[i] == t;
    }
  }

  /** The read records, sorted by start time and given their images: the
      records are the same ones, each still read from its own file. */
  method PrepareTracks(processed: seq<TrackData>, ghost objs: seq<set<GpxPoint>>, ghost paths: seq<Path>,
                       ghost parse: Path -> GpxFile, images: seq<ImageData>)
    returns (tracks: seq<TrackData>)
    requires ReadUpTo(processed, objs, paths, |paths|, parse) && SortedBy(images, ImageInstant)
    modifies processed`images
    ensures tracks == SortBy(processed, StartOf)
    ensures SpannedAll(tracks, paths, parse) && Prepared(tracks, images) && Distinct(tracks) && Separate(tracks)
    ensures forall i :: 0 <= i < |tracks| ==> ReadAs(tracks[i], parse(tracks[i].path))
    ensures Documents(tracks) == Documents(processed) && DocumentPoints(tracks) == DocumentPoints(processed)
  {
    ReadFacts(processed, objs, paths, parse);
    label Read:
    tracks := SortAndAssign(processed, images);
    forall t | t in processed ensures ReadAs(t, parse(t.path)) {
      assert old@Read(ReadAs(t, parse(t.path)));
    }
    ReadReordered(processed, tracks, paths, parse);
  }

  /** The first part of `main`: the tracks are read (any failure ends the
      run before an image is looked at), the images dated, both sorted by
      time (stably), and the images assigned to the tracks. */
  method ReadInputs(trackWalk: seq<WalkEntry>, imageWalk: seq<WalkEntry>, parse: Path -> GpxFile,
                    exifOf: Path -> Photos.ExifTag, now: DateTime)
    returns (r: Result<seq<TrackData>>, images: seq<ImageData>, ghost processed: seq<TrackData>)
    requires Valid(now)
    ensures var paths := LeafFiles(trackWalk, ".gpx");
            && (r.Err? <==> FirstSpanError(paths, parse).Some?)
            && (r.Err? ==> r.error == FirstSpanError(paths, parse).value && images == [])
    ensures var paths := LeafFiles(trackWalk, ".gpx");
            r.Ok? ==>
              && images == SortBy(ImageDates(LeafFiles(imageWalk, ".NEF"), exifOf, now), ImageInstant)
              && TrackPaths(processed) == paths && r.value == SortBy(processed, StartOf)
              && SpannedAll(r.value, paths, parse) && Prepared(r.value, images)
              && Distinct(r.value) && Separate(r.value)
              && (forall i :: 0 <= i < |r.value| ==> ReadAs(r.value[i], parse(r.value[i].path)))
              && fresh(Documents(r.value)) && fresh(DocumentPoints(r.value))
  {
    var paths := GetFilesWithExtension(trackWalk, ".gpx");
    var imagePaths := GetFilesWithExtension(imageWalk, ".NEF");
    var processedTracks, objs := ProcessTracks(paths, parse);
    if processedTracks.Err? {
      return Err(processedTracks.error), [], [];
    }
    processed := processedTracks.value;
    images := SortBy(ImageDates(imagePaths, exifOf, now), ImageInstant);
    var tracks := PrepareTracks(processedTracks.value, objs, paths, parse, images);
    r := Ok(tracks);
  }

  /** `main`: the inputs are read, and the tracks annotated and written in
      start order until one raises. */
  method Run(trackWalk: seq<WalkEntry>, imageWalk: seq<WalkEntry>, parse: Path -> GpxFile,
             exifOf: Path -> Photos.ExifTag, now: DateTime)
    returns (r: Result<()>, written: seq<OutputFile>, tracks: seq<TrackData>, images: seq<ImageData>,
             ghost processed: seq<TrackData>)
    requires Valid(now)
    ensures var paths := LeafFiles(trackWalk, ".gpx");
            FirstSpanError(paths, parse).Some? ==>
              r == Err(FirstSpanError(paths, parse).value) && written == [] && tracks == [] && images == []
    ensures var paths := LeafFiles(trackWalk, ".gpx");
            FirstSpanError(paths, parse).None? ==>
              && images == SortBy(ImageDates(LeafFiles(imageWalk, ".NEF"), exifOf, now), ImageInstant)
              && TrackPaths(processed) == paths && tracks == SortBy(processed, StartOf)
              && SpannedAll(tracks, paths, parse) && Prepared(tracks, images)
              && var files := Files(TrackPaths(tracks), parse); var m := Stop(files, TrackImages(tracks));
                 && (r.Ok? <==> m == |tracks|)
                 && (r.Err? ==> r.error == WaypointsError(files[m], tracks[m].images).value)
                 && written == Outputs(TrackPaths(tracks)[..m], files[..m], TrackImages(tracks)[..m])
                 && forall i :: 0 <= i < |tracks| ==>
                      Content(tracks[i].gpx) == if i < m then Annotated(files[i], tracks[i].images) else files[i]
  {
    var read;
    read, images, processed := ReadInputs(trackWalk, imageWalk, parse, exifOf, now);
    if read.Err? {
      return Err(read.error), [], [], images, processed;
    }
    tracks := read.value;
    ghost var ims := TrackImages(tracks);
    assert PreparedAs(tracks, ims, images);
    r, written := AnnotateAll(tracks, Files(TrackPaths(tracks), parse));
    assert TrackImages(tracks) == ims;
  }

}
