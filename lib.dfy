/** The script helpers: the leaf-directory file walk, an image's date (file
    name first, then EXIF, then "now"), a GPX track's time span, and the
    waypoints added to a track for its images.

    Parsing a GPX file is an input: the model receives the parsed `Gpx`
    object, whose points are objects with a mutable name and comment. */
module Lib {
  import opened Wrappers
  import opened Text
  import opened Seqs
  import opened DateTimes
  import opened Collection
  import Photos
  import Tracks

  // ----- get_files_with_extension -----

  /** The files of one directory whose name ends with `ext` (case-sensitive). */
  function Matching(root: string, files: seq<string>, ext: string): seq<Path>
  {
    if files == [] then []
    else
      Matching(root, files[..|files| - 1], ext)
      + (if EndsWith(files[|files| - 1], ext) then [Path(root, files[|files| - 1])] else [])
  }

  /** The matching files of the directories that have no subdirectory, in walk order. */
  function LeafFiles(walk: seq<WalkEntry>, ext: string): seq<Path>
  {
    if walk == [] then []
    else
      var e := walk[|walk| - 1];
      LeafFiles(walk[..|walk| - 1], ext) + (if |e.subdirs| == 0 then Matching(e.root, e.files, ext) else [])
  }

  /** `get_files_with_extension`: the generator, collected into a list. */
  method GetFilesWithExtension(walk: seq<WalkEntry>, ext: string) returns (files: seq<Path>)
    ensures files == LeafFiles(walk, ext)
  {
    files := [];
    var i := 0;
    while i < |walk|
      invariant 0 <= i <= |walk|
      invariant files == LeafFiles(walk[..i], ext)
    {
      var e := walk[i];
      assert walk[..i + 1][..i] == walk[..i];
      if |e.subdirs| == 0 {
        var j := 0;
        while j < |e.files|
          invariant 0 <= j <= |e.files|
          invariant files == LeafFiles(walk[..i], ext) + Matching(e.root, e.files[..j], ext)
        {
          assert e.files[..j + 1][..j] == e.files[..j];
          if EndsWith(e.files[j], ext) {
            files := files + [Path(e.root, e.files[j])];
          }
          j := j + 1;
        }
        assert e.files[..j] == e.files;
      }
      i := i + 1;
    }
    assert walk[..i] == walk;
  }

  /** `p` is a matching file of the directory `e`, which has no subdirectory. */
  ghost predicate ListedIn(e: WalkEntry, ext: string, p: Path)
  {
    |e.subdirs| == 0 && exists j :: 0 <= j < |e.files| && EndsWith(e.files[j], ext) && p == Path(e.root, e.files[j])
  }

  /** A path is listed exactly when it is a file of a directory without
      subdirectories and its name ends with the extension, letter case included. */
  lemma {:induction false} LeafFilesMembers(walk: seq<WalkEntry>, ext: string, p: Path)
    ensures p in LeafFiles(walk, ext) <==> exists i :: 0 <= i < |walk| && ListedIn(walk[i], ext, p)
  {
    if walk != [] {
      var init := walk[..|walk| - 1];
      var e := walk[|walk| - 1];
      LeafFilesMembers(init, ext, p);
      var last := if |e.subdirs| == 0 then Matching(e.root, e.files, ext) else [];
      assert LeafFiles(walk, ext) == LeafFiles(init, ext) + last;
      assert p in last <==> ListedIn(e, ext, p) by {
        if |e.subdirs| == 0 {
          MatchingMembers(e.root, e.files, ext, p);
        }
      }
      if p in LeafFiles(walk, ext) {
        if p in LeafFiles(init, ext) {
          var i :| 0 <= i < |init| && ListedIn(init[i], ext, p);
          assert walk[i] == init[i];
        } else {
          assert ListedIn(walk[|walk| - 1], ext, p);
        }
      }
      if exists i :: 0 <= i < |walk| && ListedIn(walk[i], ext, p) {
        var i :| 0 <= i < |walk| && ListedIn(walk[i], ext, p);
        if i < |init| {
          assert ListedIn(init[i], ext, p);
        }
      }
    }
  }

  lemma {:induction false} MatchingMembers(root: string, files: seq<string>, ext: string, p: Path)
    ensures p in Matching(root, files, ext) <==>
            exists j :: 0 <= j < |files| && EndsWith(files[j], ext) && p == Path(root, files[j])
  {
    if files != [] {
      var init := files[..|files| - 1];
      MatchingMembers(root, init, ext, p);
      if exists j :: 0 <= j < |files| && EndsWith(files[j], ext) && p == Path(root, files[j]) {
        var j :| 0 <= j < |files| && EndsWith(files[j], ext) && p == Path(root, files[j]);
        if j < |init| {
          assert init[j] == files[j];
        }
      }
      if p in Matching(root, init, ext) {
        var j :| 0 <= j < |init| && EndsWith(init[j], ext) && p == Path(root, init[j]);
        assert files[j] == init[j];
      }
    }
  }

  /** Unlike the collection's filter, the walk is case-sensitive: `.nef` is not `.NEF`. */
  lemma CaseSensitiveExample()
    ensures LeafFiles([WalkEntry("images", [], ["a.nef", "b.NEF"])], ".NEF") == [Path("images", "b.NEF")]
  {
    var w := [WalkEntry("images", [], ["a.nef", "b.NEF"])];
    assert w[..0] == [];
    var files := ["a.nef", "b.NEF"];
    assert files[..1] == ["a.nef"] && files[..1][..0] == [];
    assert "a.nef"[1..][1] != ".NEF"[1];
    assert !EndsWith("a.nef", ".NEF");
    assert "b.NEF"[1..] == ".NEF";
    assert Matching("images", files[..1], ".NEF") == [];
    assert Matching("images", files, ".NEF") == [Path("images", "b.NEF")];
  }

  // ----- get_image_date -----

  /** `ImageData`: an image path and its time. */
  datatype ImageData = ImageData(path: Path, time: Photos.LocalTime)

  /** `get_image_date`: the file name is tried first; when its two pieces do
      not parse, the EXIF time is tried; whatever fails, the `finally`
      clause returns, with `now` when neither gave a time. A stem without
      `_` raises IndexError, which skips the EXIF attempt altogether. */
  function GetImageDate(path: Path, exif: Photos.ExifTag, now: DateTime): (r: ImageData)
    requires Valid(now)
    ensures r.path == path && r.time.zone == Photos.LocalZone && Valid(r.time.wall)
    ensures Photos.StemTime(Stem(path.name)).Parsed? ==> r.time.wall == Photos.StemTime(Stem(path.name)).dt
    ensures Photos.StemTime(Stem(path.name)).Unparsable? && exif.Tag? && ParseExif(exif.raw).Some?
            ==> FormatExif(r.time.wall) == exif.raw
    ensures r.time.wall != now ==>
              Photos.StemTime(Stem(path.name)).Parsed?
              || (Photos.StemTime(Stem(path.name)).Unparsable? && exif.Tag? && ParseExif(exif.raw).Some?)
  {
    var dt :=
      match Photos.StemTime(Stem(path.name))
      case NoSecondToken => now
      case Parsed(d) => d
      case Unparsable =>
        match exif
        case NoTag => now
        case Tag(raw) => (match ParseExif(raw) case Some(d) => d case None => now);
    ImageData(path, Photos.LocalTime(dt, Photos.LocalZone))
  }

  /** A well-formed file name wins over a well-formed EXIF time. */
  lemma FileNameFirst(parent: string, dt: DateTime, rest: string, ext: string, exif: Photos.ExifTag, now: DateTime)
    requires StemExpressible(dt) && (rest == [] || rest[0] == '_')
    requires |ext| > 0 && '.' !in ext && Valid(now)
    ensures GetImageDate(Path(parent, FormatStem(dt) + rest + "." + ext), exif, now).time.wall == dt
  {
    FormatStemShape(dt);
    StemOfSuffixed(FormatStem(dt) + rest, ext);
    Photos.StemTimeOfFormat(dt, rest);
  }

  /** The two resolvers disagree: for a file whose EXIF and file name give
      different times, `Photo.time` takes the EXIF one and `get_image_date`
      the file name's. */
  lemma ResolversDisagree(exifTime: DateTime, nameTime: DateTime, now: DateTime)
    requires Valid(exifTime) && StemExpressible(nameTime) && Valid(now)
    ensures var path := Path("", FormatStem(nameTime) + ".NEF");
      var exif := Photos.Tag(FormatExif(exifTime));
      && Photos.PhotoTime(Photos.PhotoFile(path, exif)) == Ok(Some(Photos.LocalTime(exifTime, Photos.LocalZone)))
      && GetImageDate(path, exif, now).time.wall == nameTime
  {
    Photos.ExifTimeFirst(Path("", FormatStem(nameTime) + ".NEF"), exifTime);
    assert FormatStem(nameTime) + ".NEF" == FormatStem(nameTime) + [] + "." + "NEF";
    FileNameFirst("", nameTime, [], "NEF", Photos.Tag(FormatExif(exifTime)), now);
  }

  /** A name like `DSC_0001.NEF` does not parse, so the EXIF time is used. */
  lemma ExifFallback(dt: DateTime, now: DateTime)
    requires Valid(dt) && Valid(now)
    ensures GetImageDate(Path("", "DSC_0001.NEF"), Photos.Tag(FormatExif(dt)), now).time.wall == dt
  {
    StemOfSuffixed("DSC_0001", "NEF");
    assert "DSC_0001.NEF" == "DSC_0001" + "." + "NEF";
    FirstTwoTokensOf("DSC", "0001", "");
    assert "DSC_0001" == "DSC" + "_" + "0001" + "";
    ParseFormatExif(dt);
  }

  /** A name without `_` gives `now` even when the EXIF time is well formed:
      the IndexError is not handled by the `except ValueError` clause. */
  lemma NoSeparatorIgnoresExif(dt: DateTime, now: DateTime)
    requires Valid(dt) && Valid(now)
    ensures GetImageDate(Path("", "IMG0001.NEF"), Photos.Tag(FormatExif(dt)), now).time.wall == now
  {
    assert "IMG0001.NEF" == "IMG0001" + "." + "NEF";
    StemOfSuffixed("IMG0001", "NEF");
    assert forall i :: 0 <= i < |"IMG0001"| ==> "IMG0001"[i] != '_';
    assert Photos.StemTime("IMG0001").NoSecondToken?;
  }

  // ----- GPX documents -----

  /** A point's name and comment. */
  datatype Labels = Labels(name: Option<string>, cmt: Option<string>)

  /** A GPX point as a file holds it: its time, position, name and comment. */
  datatype PointData = PointData(time: Option<Instant>, position: Tracks.Position, labels: Labels)

  /** The content of a GPX file: its tracks, each a list of segments of
      points, and its waypoints. `GPX.from_file` reads one and `to_file`
      writes one. */
  datatype GpxFile = GpxFile(tracks: seq<seq<seq<PointData>>>, waypoints: seq<PointData>)

  /** A GPX point object: its time and position are read, its name and
      comment are overwritten when it becomes a waypoint. */
  class GpxPoint {
    const time: Option<Instant>
    const position: Tracks.Position
    var name: Option<string>
    var cmt: Option<string>

    constructor (data: PointData)
      ensures time == data.time && position == data.position && name == data.labels.name && cmt == data.labels.cmt
    {
      time := data.time;
      position := data.position;
      name := data.labels.name;
      cmt := data.labels.cmt;
    }
  }

  /** A parsed GPX document: its tracks, each a list of segments of point
      objects, and its waypoint list. */
  class Gpx {
    const tracks: seq<seq<seq<GpxPoint>>>
    var waypoints: seq<GpxPoint>

    constructor (tracks: seq<seq<seq<GpxPoint>>>, waypoints: seq<GpxPoint>)
      ensures this.tracks == tracks && this.waypoints == waypoints
    {
      this.tracks := tracks;
      this.waypoints := waypoints;
    }
  }

  function LabelsOf(p: GpxPoint): Labels
    reads p
  {
    Labels(p.name, p.cmt)
  }

  function DataOf(p: GpxPoint): PointData
    reads p
  {
    PointData(p.time, p.position, LabelsOf(p))
  }

  /** The content of a list of point objects, with their current labels. */
  function PointsData(ps: seq<GpxPoint>): (ds: seq<PointData>)
    reads ps
    ensures |ds| == |ps| && forall i :: 0 <= i < |ps| ==> ds[i] == DataOf(ps[i])
  {
    seq(|ps|, i requires 0 <= i < |ps| reads ps => DataOf(ps[i]))
  }

  /** Every point object of every segment of every track. */
  function TrackPoints(g: Gpx): set<GpxPoint>
  {
    set t, s, p | 0 <= t < |g.tracks| && 0 <= s < |g.tracks[t]| && 0 <= p < |g.tracks[t][s]| :: g.tracks[t][s][p]
  }

  /** The point objects of a document: those of its tracks and its waypoints. */
  function Objects(g: Gpx): set<GpxPoint>
    reads g
  {
    TrackPoints(g) + set w | w in g.waypoints
  }

  /** What `to_file` writes: the document, with its points' current names and comments. */
  function Content(g: Gpx): GpxFile
    reads g, TrackPoints(g), g.waypoints
  {
    GpxFile(
      seq(|g.tracks|, t requires 0 <= t < |g.tracks| reads TrackPoints(g) =>
        seq(|g.tracks[t]|, s requires 0 <= s < |g.tracks[t]| reads TrackPoints(g) => PointsData(g.tracks[t][s]))),
      PointsData(g.waypoints))
  }

  /** The content has the document's shape, and each segment and the
      waypoints hold the data of their point objects, in order. */
  lemma ContentShape(g: Gpx)
    ensures |Content(g).tracks| == |g.tracks| && Content(g).waypoints == PointsData(g.waypoints)
    ensures forall t :: 0 <= t < |g.tracks| ==> |Content(g).tracks[t]| == |g.tracks[t]|
    ensures forall t, s :: 0 <= t < |g.tracks| && 0 <= s < |g.tracks[t]| ==>
              Content(g).tracks[t][s] == PointsData(g.tracks[t][s])
  {
  }

  /** No point object occurs twice in a segment, and no waypoint is a track
      point: what a freshly read document satisfies. */
  predicate Unshared(g: Gpx)
    reads g
  {
    && (forall t, s :: 0 <= t < |g.tracks| && 0 <= s < |g.tracks[t]| ==> Distinct(g.tracks[t][s]))
    && (forall w :: w in g.waypoints ==> w !in TrackPoints(g))
  }

  // ----- reading a GPX file -----

  /** One new point object per point of the list. */
  method ReadPoints(data: seq<PointData>) returns (ps: seq<GpxPoint>)
    ensures fresh(ps) && Distinct(ps) && PointsData(ps) == data
  {
    ps := [];
    var i := 0;
    while i < |data|
      invariant 0 <= i <= |data| && |ps| == i
      invariant fresh(ps) && Distinct(ps)
      invariant forall j :: 0 <= j < i ==> DataOf(ps[j]) == data[j]
    {
      var p := new GpxPoint(data[i]);
      DistinctSnoc(ps, p);
      ps := ps + [p];
      i := i + 1;
    }
  }

  /** New point objects for each segment of a track. */
  method ReadSegments(segments: seq<seq<PointData>>) returns (ss: seq<seq<GpxPoint>>)
    ensures |ss| == |segments|
    ensures forall s :: 0 <= s < |ss| ==> fresh(ss[s]) && Distinct(ss[s]) && PointsData(ss[s]) == segments[s]
  {
    ss := [];
    var s := 0;
    while s < |segments|
      invariant 0 <= s <= |segments| && |ss| == s
      invariant forall j :: 0 <= j < s ==> fresh(ss[j]) && Distinct(ss[j]) && PointsData(ss[j]) == segments[j]
    {
      var ps := ReadPoints(segments[s]);
      ss := ss + [ps];
      s := s + 1;
    }
  }

  /** New point objects for each segment of each track. */
  method ReadTracks(tracks: seq<seq<seq<PointData>>>) returns (ts: seq<seq<seq<GpxPoint>>>)
    ensures |ts| == |tracks|
    ensures forall t :: 0 <= t < |ts| ==> |ts[t]| == |tracks[t]|
    ensures forall t, s :: 0 <= t < |ts| && 0 <= s < |ts[t]| ==>
              fresh(ts[t][s]) && Distinct(ts[t][s]) && PointsData(ts[t][s]) == tracks[t][s]
  {
    ts := [];
    var t := 0;
    while t < |tracks|
      invariant 0 <= t <= |tracks| && |ts| == t
      invariant forall j :: 0 <= j < t ==> |ts[j]| == |tracks[j]|
      invariant forall j, s :: 0 <= j < t && 0 <= s < |ts[j]| ==>
                  fresh(ts[j][s]) && Distinct(ts[j][s]) && PointsData(ts[j][s]) == tracks[j][s]
    {
      var ss := ReadSegments(tracks[t]);
      ts := ts + [ss];
      t := t + 1;
    }
  }

  /** `GPX.from_file`: a new document whose content is the file's, made of
      new point objects. */
  method ReadGpx(file: GpxFile) returns (g: Gpx)
    ensures fresh(g) && fresh(Objects(g))
    ensures Content(g) == file && Unshared(g)
  {
    var ts := ReadTracks(file.tracks);
    label Tracked:
    var ws := ReadPoints(file.waypoints);
    g := new Gpx(ts, ws);
    forall t | 0 <= t < |ts| ensures Content(g).tracks[t] == file.tracks[t] {
      assert forall s :: 0 <= s < |ts[t]| ==> Content(g).tracks[t][s] == file.tracks[t][s];
    }
    forall p | p in TrackPoints(g) ensures fresh(p) && p !in ws {
      var t, s, i :| 0 <= t < |ts| && 0 <= s < |ts[t]| && 0 <= i < |ts[t][s]| && p == ts[t][s][i];
      assert p in ts[t][s];
    }
  }

  /** The document has exactly one track with exactly one segment. */
  predicate SingleSegment<P>(tracks: seq<seq<seq<P>>>)
  {
    |tracks| == 1 && |tracks[0]| == 1
  }

  /** The two assertions of `process_track` and `add_track_waypoints`. */
  function CheckShape<P>(tracks: seq<seq<seq<P>>>): (r: Option<Error>)
    ensures r.None? <==> SingleSegment(tracks)
  {
    if |tracks| != 1 then Some(AssertionError("File with more than one track"))
    else if |tracks[0]| != 1 then Some(AssertionError("Track with more than one segment"))
    else None
  }

  function PointTimes(points: seq<GpxPoint>): (ts: seq<Option<Instant>>)
    ensures |ts| == |points|
    ensures forall i :: 0 <= i < |points| ==> ts[i] == points[i].time
  {
    seq(|points|, i requires 0 <= i < |points| => points[i].time)
  }

  function Times(points: seq<PointData>): (ts: seq<Option<Instant>>)
    ensures |ts| == |points|
    ensures forall i :: 0 <= i < |points| ==> ts[i] == points[i].time
  {
    seq(|points|, i requires 0 <= i < |points| => points[i].time)
  }

  /** The content of a segment has the times of its point objects, whatever their labels. */
  lemma ContentTimes(g: Gpx)
    requires SingleSegment(g.tracks)
    ensures SingleSegment(Content(g).tracks)
    ensures Times(Content(g).tracks[0][0]) == PointTimes(g.tracks[0][0])
  {
  }

  /** The start and end `process_track` computes: the earliest and latest
      point time of the single segment, whatever the order of the points. */
  function SegmentSpan(f: GpxFile): Result<(Instant, Instant)>
  {
    match CheckShape(f.tracks)
    case Some(e) => Err(e)
    case None =>
      var ts := Times(f.tracks[0][0]);
      match Span(ts)
      case None => Err(ValueError("min() arg is an empty sequence"))
      case Some(span) => Ok(span)
  }

  /** The span exists exactly when the document has a single segment with a
      timed point; it then runs from the earliest to the latest time of that
      segment, both of which occur in it. A document of another shape fails
      with the assertion `process_track` makes; a segment without times fails
      with the error of `min` on an empty sequence. */
  lemma SegmentSpanSound(f: GpxFile)
    ensures SegmentSpan(f).Ok? <==> SingleSegment(f.tracks) && exists i :: 0 <= i < |f.tracks[0][0]| && f.tracks[0][0][i].time.Some?
    ensures SegmentSpan(f).Err? && !SingleSegment(f.tracks) ==> Some(SegmentSpan(f).error) == CheckShape(f.tracks)
    ensures SegmentSpan(f).Err? && SingleSegment(f.tracks) ==> SegmentSpan(f).error == ValueError("min() arg is an empty sequence")
    ensures SegmentSpan(f).Ok? ==> var (start, end) := SegmentSpan(f).value;
              && start <= end
              && (forall i :: 0 <= i < |f.tracks[0][0]| && f.tracks[0][0][i].time.Some? ==>
                    start <= f.tracks[0][0][i].time.value <= end)
              && Some(start) in Times(f.tracks[0][0]) && Some(end) in Times(f.tracks[0][0])
  {
  }

  /** `TrackData`: a track file, its GPX document, its span and the images assigned to it. */
  class TrackData {
    const path: Path
    const gpx: Gpx
    const start: Instant
    const end: Instant
    var images: seq<ImageData>

    constructor (path: Path, gpx: Gpx, start: Instant, end: Instant)
      ensures this.path == path && this.gpx == gpx && this.start == start && this.end == end && images == []
    {
      this.path := path;
      this.gpx := gpx;
      this.start := start;
      this.end := end;
      images := [];
    }
  }

  /** `process_track`: reads the file into a new document, checks its
      shape, takes its span, and starts with no images. */
  method ProcessTrack(path: Path, file: GpxFile) returns (r: Result<TrackData>)
    ensures r.Err? <==> SegmentSpan(file).Err?
    ensures r.Err? ==> r.error == SegmentSpan(file).error
    ensures r.Ok? ==> && fresh(r.value) && fresh(r.value.gpx) && fresh(Objects(r.value.gpx))
                      && r.value.path == path && Content(r.value.gpx) == file && Unshared(r.value.gpx)
                      && (r.value.start, r.value.end) == SegmentSpan(file).value && r.value.images == []
  {
    var gpx := ReadGpx(file);
    var span := SegmentSpan(Content(gpx));
    if span.Err? {
      return Err(span.error);
    }
    var t := new TrackData(path, gpx, span.value.0, span.value.1);
    r := Ok(t);
  }

  // ----- add_track_waypoints -----

  /** The instant of an image's time. */
  function ImageInstant(image: ImageData): Instant
  {
    if Valid(image.time.wall) then WallInstant(image.time.wall) else 0
  }

  predicate Timed(t: Option<Instant>)
  {
    t.Some?
  }

  function Keys(times: seq<Option<Instant>>): (keys: seq<int>)
    requires forall i :: 0 <= i < |times| ==> times[i].Some?
    ensures |keys| == |times|
    ensures forall i :: 0 <= i < |times| ==> keys[i] == times[i].value
  {
    seq(|times|, i requires 0 <= i < |times| && times[i].Some? => times[i].value)
  }

  /** `min(points, key=...)` with the key `abs(point.time - t)` for a timed
      point and the integer 999999 for an untimed one: an empty segment
      raises ValueError; comparing a duration with the integer raises
      TypeError, which happens as soon as a point's kind differs from the
      first point's; otherwise the first point with the smallest key wins,
      so a segment without times gives its first point. */
  function MinByKey(times: seq<Option<Instant>>, t: Instant): (r: Result<nat>)
    ensures |times| == 0 ==> r == Err(ValueError("min() arg is an empty sequence"))
    ensures |times| > 0 ==> (r == Err(TypeError) <==> exists j :: 0 <= j < |times| && times[j].Some? != times[0].Some?)
    ensures r.Ok? ==> r.value < |times|
  {
    if |times| == 0 then Err(ValueError("min() arg is an empty sequence"))
    else if exists j :: 0 <= j < |times| && times[j].Some? != times[0].Some? then Err(TypeError)
    else if times[0].None? then Ok(0)
    else Ok(FirstNearest(Keys(times), t))
  }

  /** When `min` succeeds on timed points it gives the first point nearest
      in time; on untimed points, the first point. */
  lemma MinByKeyIsNearest(times: seq<Option<Instant>>, t: Instant)
    requires MinByKey(times, t).Ok?
    ensures var k := MinByKey(times, t).value;
      && (times[0].None? ==> k == 0)
      && (times[0].Some? ==>
            && (forall j :: 0 <= j < |times| ==> times[j].Some? && Dist(times[k].value, t) <= Dist(times[j].value, t))
            && (forall j :: 0 <= j < k ==> Dist(times[k].value, t) < Dist(times[j].value, t)))
  {
  }

  /** Whether `min` raises does not depend on the time searched for. */
  lemma MinByKeyErrorIndependent(times: seq<Option<Instant>>, t1: Instant, t2: Instant)
    ensures MinByKey(times, t1).Err? <==> MinByKey(times, t2).Err?
    ensures MinByKey(times, t1).Err? ==> MinByKey(times, t1) == MinByKey(times, t2)
  {
  }

  /** The scan `min` performs, replacing its candidate only on a strictly smaller key. */
  method ChooseNearest(points: seq<GpxPoint>, t: Instant) returns (r: Result<nat>)
    ensures r == MinByKey(PointTimes(points), t)
  {
    if |points| == 0 {
      return Err(ValueError("min() arg is an empty sequence"));
    }
    var best := 0;
    var i := 1;
    while i < |points|
      invariant 1 <= i <= |points| && best < i
      invariant forall j :: 0 <= j < i ==> points[j].time.Some? == points[0].time.Some?
      invariant points[0].time.None? ==> best == 0
      invariant points[0].time.Some? ==>
                  && (forall j :: 0 <= j < i ==> Dist(points[best].time.value, t) <= Dist(points[j].time.value, t))
                  && (forall j :: 0 <= j < best ==> Dist(points[best].time.value, t) < Dist(points[j].time.value, t))
    {
      if points[i].time.Some? != points[0].time.Some? {
        assert PointTimes(points)[i].Some? != PointTimes(points)[0].Some?;
        return Err(TypeError);
      }
      if points[i].time.Some? && Dist(points[i].time.value, t) < Dist(points[best].time.value, t) {
        best := i;
      }
      i := i + 1;
    }
    r := Ok(best);
    var times := PointTimes(points);
    if points[0].time.Some? {
      FirstNearestUnique(Keys(times), t, best);
    }
  }

  /** The point chosen for each image, in image order. */
  function Choices(times: seq<Option<Instant>>, images: seq<ImageData>): (c: seq<nat>)
    requires |images| > 0 ==> MinByKey(times, ImageInstant(images[0])).Ok?
    ensures |c| == |images|
    ensures forall i :: 0 <= i < |images| ==> MinByKey(times, ImageInstant(images[i])) == Ok(c[i]) && c[i] < |times|
  {
    if images == [] then []
    else
      forall i | 0 <= i < |images| ensures MinByKey(times, ImageInstant(images[i])).Ok? {
        MinByKeyErrorIndependent(times, ImageInstant(images[0]), ImageInstant(images[i]));
      }
      seq(|images|, i requires 0 <= i < |images| => MinByKey(times, ImageInstant(images[i])).value)
  }

  /** The last image (index) whose chosen point is `j`, or -1. */
  function LastChooser(choices: seq<nat>, j: nat): (k: int)
    ensures -1 <= k < |choices|
  {
    if choices == [] then -1
    else if choices[|choices| - 1] == j then |choices| - 1
    else LastChooser(choices[..|choices| - 1], j)
  }

  /** The last chooser chose `j`, and no image after it did. */
  lemma {:induction false} LastChooserSound(choices: seq<nat>, j: nat)
    ensures var k := LastChooser(choices, j);
      && (k >= 0 ==> choices[k] == j)
      && forall i :: k < i < |choices| ==> choices[i] != j
  {
    if choices != [] && choices[|choices| - 1] != j {
      var n := |choices| - 1;
      LastChooserSound(choices[..n], j);
      assert forall i :: 0 <= i < n ==> choices[..n][i] == choices[i];
    }
  }

  /** The labels an image gives the point it chooses: its stem and its path. */
  function ImageLabels(image: ImageData): Labels
  {
    Labels(Some(Stem(image.path.name)), Some(PathString(image.path)))
  }

  /** The labels point `j` carries after the images with these choices were
      processed: those of the last image that chose it, or its earlier ones. */
  function LabelsAfter(images: seq<ImageData>, choices: seq<nat>, j: nat, before: Labels): Labels
    requires |choices| <= |images|
  {
    var c := LastChooser(choices, j);
    if c >= 0 then ImageLabels(images[c]) else before
  }

  /** Every choice is an index of the segment. */
  predicate InSegment(choices: seq<nat>, n: nat)
  {
    forall i :: 0 <= i < |choices| ==> choices[i] < n
  }

  /** The points chosen, in choice order. */
  function Chosen<P>(seg: seq<P>, choices: seq<nat>): (ps: seq<P>)
    requires InSegment(choices, |seg|)
    ensures |ps| == |choices|
    ensures forall i :: 0 <= i < |choices| ==> ps[i] == seg[choices[i]]
  {
    seq(|choices|, i requires 0 <= i < |choices| => seg[choices[i]])
  }

  lemma ChosenStep<P>(seg: seq<P>, choices: seq<nat>, k: nat)
    requires InSegment(choices, |seg|) && k < |choices|
    ensures InSegment(choices[..k], |seg|) && InSegment(choices[..k + 1], |seg|)
    ensures Chosen(seg, choices[..k + 1]) == Chosen(seg, choices[..k]) + [seg[choices[k]]]
  {
  }

  lemma LabelsAfterStep(images: seq<ImageData>, choices: seq<nat>, k: nat, j: nat, before: Labels)
    requires k < |choices| <= |images|
    ensures LabelsAfter(images, choices[..k + 1], j, before)
            == if choices[k] == j then ImageLabels(images[k]) else LabelsAfter(images, choices[..k], j, before)
  {
    assert choices[..k + 1][..k] == choices[..k];
  }

  /** The loop of `add_track_waypoints`: each image labels its nearest point
      and appends that point object to the waypoints. */
  method LabelNearest(gpx: Gpx, seg: seq<GpxPoint>, images: seq<ImageData>) returns (ghost choices: seq<nat>)
    requires Distinct(seg)
    requires |images| > 0 && MinByKey(PointTimes(seg), ImageInstant(images[0])).Ok?
    modifies gpx, seg
    ensures choices == Choices(PointTimes(seg), images) && InSegment(choices, |seg|)
    ensures gpx.waypoints == old(gpx.waypoints) + Chosen(seg, choices)
    ensures forall j :: 0 <= j < |seg| ==> LabelsOf(seg[j]) == LabelsAfter(images, choices, j, old(LabelsOf(seg[j])))
  {
    choices := Choices(PointTimes(seg), images);
    assert InSegment(choices, |seg|);
    ghost var before := seq(|seg|, j requires 0 <= j < |seg| reads seg => LabelsOf(seg[j]));
    var k := 0;
    while k < |images|
      invariant 0 <= k <= |images|
      invariant InSegment(choices[..k], |seg|)
      invariant gpx.waypoints == old(gpx.waypoints) + Chosen(seg, choices[..k])
      invariant forall j :: 0 <= j < |seg| ==> LabelsOf(seg[j]) == LabelsAfter(images, choices[..k], j, before[j])
    {
      var c := ChooseNearest(seg, ImageInstant(images[k]));
      assert c == Ok(choices[k]) by {
        assert MinByKey(PointTimes(seg), ImageInstant(images[k])) == Ok(choices[k]);
      }
      var wp := seg[c.value];
      label L:
      wp.name, wp.cmt := Some(Stem(images[k].path.name)), Some(PathString(images[k].path));
      gpx.waypoints := gpx.waypoints + [wp];
      ChosenStep(seg, choices, k);
      forall j | 0 <= j < |seg|
        ensures LabelsOf(seg[j]) == LabelsAfter(images, choices[..k + 1], j, before[j])
      {
        LabelsAfterStep(images, choices, k, j, before[j]);
        if j == choices[k] {
          assert LabelsOf(seg[j]) == ImageLabels(images[k]);
        } else {
          assert seg[j] != wp;
          assert LabelsOf(seg[j]) == old@L(LabelsOf(seg[j]));
        }
      }
      k := k + 1;
    }
    assert choices[..k] == choices;
  }

  /** The error `add_track_waypoints` raises on a document with this
      content and these images: a failed shape assertion first, then a
      `min` that raises, which it does on the first image if at all. */
  function WaypointsError(f: GpxFile, images: seq<ImageData>): Option<Error>
  {
    if CheckShape(f.tracks).Some? then CheckShape(f.tracks)
    else if |images| > 0 && MinByKey(Times(f.tracks[0][0]), ImageInstant(images[0])).Err? then
      Some(MinByKey(Times(f.tracks[0][0]), ImageInstant(images[0])).error)
    else None
  }

  /** A segment's points with the labels they carry once these choices were made. */
  function Relabelled(seg: seq<PointData>, images: seq<ImageData>, choices: seq<nat>): (r: seq<PointData>)
    requires |choices| <= |images|
    ensures |r| == |seg|
    ensures forall j :: 0 <= j < |seg| ==> r[j] == seg[j].(labels := LabelsAfter(images, choices, j, seg[j].labels))
  {
    seq(|seg|, j requires 0 <= j < |seg| => seg[j].(labels := LabelsAfter(images, choices, j, seg[j].labels)))
  }

  /** The content of the document `add_track_waypoints` leaves, which the
      script then writes: each image in turn labels the segment point nearest
      in time and appends that point to the waypoints, so a point chosen
      twice appears twice with the labels of the last image that chose it.
      A document it raises on keeps its content. */
  function Annotated(f: GpxFile, images: seq<ImageData>): GpxFile
  {
    if WaypointsError(f, images).Some? then f
    else
      var seg := f.tracks[0][0];
      var choices := Choices(Times(seg), images);
      var labelled := Relabelled(seg, images, choices);
      GpxFile([[labelled]], f.waypoints + Chosen(labelled, choices))
  }

  /** Without images the content is kept. */
  lemma AnnotatedNoImages(f: GpxFile)
    ensures Annotated(f, []) == f
  {
    if WaypointsError(f, []).None? {
      var seg := f.tracks[0][0];
      assert Relabelled(seg, [], []) == seg;
      assert f.tracks == [[seg]] by {
        assert f.tracks[0] == [seg];
      }
    }
  }

  /** Annotating keeps the single segment, its points' times and positions,
      and the labels of every point that no image chose. */
  lemma AnnotatedKeepsPoints(f: GpxFile, images: seq<ImageData>)
    requires WaypointsError(f, images).None?
    ensures SingleSegment(Annotated(f, images).tracks)
    ensures var seg := f.tracks[0][0]; var after := Annotated(f, images).tracks[0][0];
      && |after| == |seg|
      && (forall j :: 0 <= j < |seg| ==> after[j].time == seg[j].time && after[j].position == seg[j].position)
      && (forall j :: 0 <= j < |seg| && (forall i :: 0 <= i < |images| ==> MinByKey(Times(seg), ImageInstant(images[i])) != Ok(j))
            ==> after[j] == seg[j])
  {
    var seg := f.tracks[0][0];
    var choices := Choices(Times(seg), images);
    forall j | 0 <= j < |seg| && (forall i :: 0 <= i < |images| ==> MinByKey(Times(seg), ImageInstant(images[i])) != Ok(j))
      ensures LastChooser(choices, j) == -1
    {
      LastChooserSound(choices, j);
    }
  }

  /** Annotating appends one waypoint per image, in image order, after the
      old ones: the segment point nearest in time to the image, carrying the
      labels of the last image that chose the same point. */
  lemma AnnotatedWaypoints(f: GpxFile, images: seq<ImageData>, i: nat)
    requires WaypointsError(f, images).None? && i < |images|
    ensures var seg := f.tracks[0][0]; var r := Annotated(f, images); var n := |f.waypoints|;
      && |r.waypoints| == n + |images| && r.waypoints[..n] == f.waypoints
      && exists j, k ::
           && 0 <= j < |seg| && MinByKey(Times(seg), ImageInstant(images[i])) == Ok(j)
           && i <= k < |images| && MinByKey(Times(seg), ImageInstant(images[k])) == Ok(j)
           && (forall l :: k < l < |images| ==> MinByKey(Times(seg), ImageInstant(images[l])) != Ok(j))
           && r.waypoints[n + i] == seg[j].(labels := ImageLabels(images[k]))
  {
    var seg := f.tracks[0][0];
    var choices := Choices(Times(seg), images);
    var r := Annotated(f, images);
    var n := |f.waypoints|;
    var j := choices[i];
    var k := LastChooser(choices, j);
    LastChooserSound(choices, j);
    assert r.waypoints[n + i] == Relabelled(seg, images, choices)[j];
  }

  /** After the images were chosen: a document whose segment points now
      carry the labels the choices give them, and whose waypoints gained
      the chosen points after old ones that kept their labels, has the
      annotated content. */
  lemma LabelledContent(g: Gpx, images: seq<ImageData>, choices: seq<nat>, before: GpxFile, waypoints: seq<GpxPoint>)
    requires SingleSegment(g.tracks) && SingleSegment(before.tracks)
    requires WaypointsError(before, images).None? && choices == Choices(Times(before.tracks[0][0]), images)
    requires |g.tracks[0][0]| == |before.tracks[0][0]|
    requires forall j :: 0 <= j < |g.tracks[0][0]| ==>
               DataOf(g.tracks[0][0][j]) == before.tracks[0][0][j].(labels := LabelsAfter(images, choices, j, before.tracks[0][0][j].labels))
    requires PointsData(waypoints) == before.waypoints
    requires g.waypoints == waypoints + Chosen(g.tracks[0][0], choices)
    ensures Content(g) == Annotated(before, images)
  {
    var seg := g.tracks[0][0];
    var labelled := Relabelled(before.tracks[0][0], images, choices);
    assert PointsData(seg) == labelled;
    assert Content(g).tracks == [[labelled]] by {
      assert Content(g).tracks[0] == [labelled];
    }
    ChosenData(waypoints, seg, choices, labelled);
  }

  /** The data of old waypoints followed by chosen points are the old data
      followed by the chosen points' data. */
  lemma ChosenData(waypoints: seq<GpxPoint>, seg: seq<GpxPoint>, choices: seq<nat>, labelled: seq<PointData>)
    requires InSegment(choices, |seg|) && PointsData(seg) == labelled
    ensures PointsData(waypoints + Chosen(seg, choices)) == PointsData(waypoints) + Chosen(labelled, choices)
  {
    var n := |waypoints|;
    var all := waypoints + Chosen(seg, choices);
    forall i | 0 <= i < |all|
      ensures PointsData(all)[i] == (PointsData(waypoints) + Chosen(labelled, choices))[i]
    {
      if i < n {
        assert all[i] == waypoints[i];
      } else {
        assert all[i] == seg[choices[i - n]];
      }
    }
  }

  /** The loop of `add_track_waypoints` on a document whose shape passed
      and whose first image has a nearest point: the content becomes the
      annotated content, and the document keeps its point objects. */
  method LabelDocument(gpx: Gpx, images: seq<ImageData>) returns (ghost choices: seq<nat>)
    requires SingleSegment(gpx.tracks) && Distinct(gpx.tracks[0][0])
    requires |images| > 0 && MinByKey(PointTimes(gpx.tracks[0][0]), ImageInstant(images[0])).Ok?
    modifies gpx, TrackPoints(gpx)
    ensures var seg := gpx.tracks[0][0];
            && choices == Choices(PointTimes(seg), images) && InSegment(choices, |seg|)
            && gpx.waypoints == old(gpx.waypoints) + Chosen(seg, choices)
            && forall j :: 0 <= j < |seg| ==> LabelsOf(seg[j]) == LabelsAfter(images, choices, j, old(LabelsOf(seg[j])))
    ensures old(Unshared(gpx)) ==> Content(gpx) == Annotated(old(Content(gpx)), images)
    ensures Objects(gpx) == old(Objects(gpx))
  {
    ghost var unshared := Unshared(gpx);
    ghost var waypoints := gpx.waypoints;
    ghost var before := Content(gpx);
    var seg := gpx.tracks[0][0];
    assert Times(before.tracks[0][0]) == PointTimes(seg);
    assert forall j :: 0 <= j < |seg| ==> seg[j] in TrackPoints(gpx);
    choices := LabelNearest(gpx, seg, images);
    if unshared {
      forall j | 0 <= j < |seg|
        ensures DataOf(seg[j]) == before.tracks[0][0][j].(labels := LabelsAfter(images, choices, j, before.tracks[0][0][j].labels))
      {
        assert before.tracks[0][0][j] == old(DataOf(seg[j]));
      }
      forall i | 0 <= i < |waypoints| ensures DataOf(waypoints[i]) == before.waypoints[i] {
        assert waypoints[i] !in seg;
      }
      LabelledContent(gpx, images, choices, before, waypoints);
    }
    assert forall w :: w in Chosen(seg, choices) ==> w in TrackPoints(gpx);
  }

  /** `add_track_waypoints`: for each assigned image, the segment point
      nearest in time is labelled with the image (name: its stem, comment:
      its path) and appended to the waypoints. The very same point object is
      appended, so a point chosen by several images appears several times and
      carries the label of the last of them. The shape is checked first; an
      empty image list then changes nothing; a `min` that raises does so on
      the first image, before anything changed. */
  method AddTrackWaypoints(track: TrackData) returns (r: Result<()>)
    requires SingleSegment(track.gpx.tracks) ==> Distinct(track.gpx.tracks[0][0])
    modifies track.gpx, TrackPoints(track.gpx)
    ensures r.Err? <==> WaypointsError(old(Content(track.gpx)), track.images).Some?
    ensures r.Err? ==> r.error == WaypointsError(old(Content(track.gpx)), track.images).value
    ensures old(Unshared(track.gpx)) ==> Content(track.gpx) == Annotated(old(Content(track.gpx)), track.images)
    ensures Objects(track.gpx) == old(Objects(track.gpx))
    ensures r.Err? || |track.images| == 0 ==>
              track.gpx.waypoints == old(track.gpx.waypoints)
              && forall p :: p in TrackPoints(track.gpx) ==> LabelsOf(p) == old(LabelsOf(p))
    ensures r.Ok? ==> && SingleSegment(track.gpx.tracks)
                      && (|track.images| > 0 ==> MinByKey(PointTimes(track.gpx.tracks[0][0]), ImageInstant(track.images[0])).Ok?)
    ensures r.Ok? && |track.images| > 0 ==>
              var seg := track.gpx.tracks[0][0];
              var choices := Choices(PointTimes(seg), track.images);
              && track.gpx.waypoints == old(track.gpx.waypoints) + Chosen(seg, choices)
              && (forall j :: 0 <= j < |seg| ==> LabelsOf(seg[j]) == LabelsAfter(track.images, choices, j, old(LabelsOf(seg[j]))))
  {
    ghost var before := Content(track.gpx);
    ContentShape(track.gpx);
    assert CheckShape(before.tracks) == CheckShape(track.gpx.tracks);
    var shape := CheckShape(track.gpx.tracks);
    if shape.Some? {
      return Err(shape.value);
    }
    ContentTimes(track.gpx);
    if |track.images| == 0 {
      AnnotatedNoImages(before);
      return Ok(());
    }
    var seg := track.gpx.tracks[0][0];
    var first := ChooseNearest(seg, ImageInstant(track.images[0]));
    if first.Err? {
      return Err(first.error);
    }
    ghost var choices := LabelDocument(track.gpx, track.images);
    r := Ok(());
  }
}
