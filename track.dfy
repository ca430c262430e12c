/** Tracks: reading a track's points, its time range, and the track
    collection's combined point table (`gdf`, `gdf_with_time`).

    Reading the `track_points` layer of a GPX file is an input: a track file
    is either unreadable or a list of samples, each with an optional time
    (an instant) and an opaque position. */
module Tracks {
  import opened Wrappers
  import opened Text
  import opened Seqs
  import opened DateTimes
  import opened Collection

  /** A point geometry; coordinates are carried along, never computed with. */
  datatype Position = Position(x: real, y: real)

  /** One track point: its time (None for a null time) and its geometry. */
  datatype Sample = Sample(time: Option<Instant>, geometry: Position)

  /** What the layer reader gives for a file: a reader failure, or the
      points and whether the layer has a `time` column at all. */
  datatype TrackFile = Unreadable | TrackPoints(hasTimeColumn: bool, points: seq<Sample>)

  /** A track: its path and its point table, restricted to time and geometry. */
  datatype TrackRecord = TrackRecord(path: Path, gdf: seq<Sample>)

  /** `Track(path)`: a file whose layer cannot be read, has no points or has
      no time column is refused, always with the same ValueError. */
  function ReadTrack(path: Path, file: TrackFile): (r: Result<TrackRecord>)
    ensures r.Ok? <==> file.TrackPoints? && |file.points| > 0 && file.hasTimeColumn
    ensures r.Ok? ==> r.value.path == path && r.value.gdf == file.points
    ensures r.Err? ==> r.error == ValueError("Cannot read gpx data from " + PathString(path))
  {
    match file
    case Unreadable => Err(ValueError("Cannot read gpx data from " + PathString(path)))
    case TrackPoints(hasTimeColumn, points) =>
      if |points| == 0 || !hasTimeColumn then Err(ValueError("Cannot read gpx data from " + PathString(path)))
      else Ok(TrackRecord(path, points))
  }

  /** The record constructor the track collection uses; None is the
      ValueError it catches. */
  function TrackBuild(fileOf: Path -> TrackFile): Path -> Option<TrackRecord>
  {
    p => match ReadTrack(p, fileOf(p)) case Ok(t) => Some(t) case Err(_) => None
  }

  /** A file is skipped by the collection exactly when it is refused, and a
      kept track is never empty. */
  lemma TrackBuildRefuses(fileOf: Path -> TrackFile, p: Path)
    ensures TrackBuild(fileOf)(p).None? <==> ReadTrack(p, fileOf(p)).Err?
    ensures TrackBuild(fileOf)(p).Some? ==> |TrackBuild(fileOf)(p).value.gdf| > 0
  {
  }

  /** `TrackCollection(path)`: the files under the root ending in `.gpx`, in any letter case. */
  method NewTrackCollection(root: string, walk: seq<WalkEntry>, fileOf: Path -> TrackFile)
    returns (c: FileCollection<TrackRecord>)
    ensures fresh(c) && c.Valid()
    ensures c.filterExtensions == Some([".gpx"]) && !c.followLinks
    ensures c.paths == WalkPaths(walk, Some([".gpx"]))
    ensures forall p :: c.build(p) == TrackBuild(fileOf)(p)
    ensures c.cache == map[]
  {
    c := new FileCollection(root, walk, OneExtension(".gpx"), false, TrackBuild(fileOf));
  }

  /** Every path the track collection holds names a `.gpx` file. */
  lemma TrackPathsAreGpx(walk: seq<WalkEntry>, p: Path)
    requires p in WalkPaths(walk, Some([".gpx"]))
    ensures EndsWith(Lower(p.name), ".gpx")
  {
    var i, j :| 0 <= i < |walk| && 0 <= j < |walk[i].files| && Keeps(Some([".gpx"]), walk[i].files[j])
                && p == Path(walk[i].root, walk[i].files[j]);
    assert Lower(".gpx") == ".gpx";
  }

  function Times(samples: seq<Sample>): (ts: seq<Option<Instant>>)
    ensures |ts| == |samples|
    ensures forall i :: 0 <= i < |samples| ==> ts[i] == samples[i].time
  {
    if samples == [] then [] else [samples[0].time] + Times(samples[1..])
  }

  /** `time_range`: the earliest and latest of the non-null sample times. */
  function TimeRangeOf(t: TrackRecord): (r: Result<(Instant, Instant)>)
    ensures r.Err? <==> forall i :: 0 <= i < |t.gdf| ==> t.gdf[i].time.None?
    ensures r.Err? ==> r.error == ValueError("No valid time data found in track points")
    ensures r.Ok? ==> r.value.0 <= r.value.1
    ensures r.Ok? ==> forall i :: 0 <= i < |t.gdf| && t.gdf[i].time.Some? ==>
                        r.value.0 <= t.gdf[i].time.value <= r.value.1
    ensures r.Ok? ==> exists i :: 0 <= i < |t.gdf| && t.gdf[i].time == Some(r.value.0)
    ensures r.Ok? ==> exists i :: 0 <= i < |t.gdf| && t.gdf[i].time == Some(r.value.1)
  {
    var ts := Times(t.gdf);
    match Span(ts)
    case None => Err(ValueError("No valid time data found in track points"))
    case Some(span) =>
      var a :| 0 <= a < |ts| && ts[a] == Some(span.0);
      var b :| 0 <= b < |ts| && ts[b] == Some(span.1);
      Ok(span)
  }

  ghost predicate HasTimeAt(s: seq<Sample>, t: Instant)
  {
    exists i :: 0 <= i < |s| && s[i].time == Some(t)
  }

  lemma WithinRange(s: seq<Sample>, t: Instant, r: (Instant, Instant))
    requires HasTimeAt(s, t)
    requires forall i :: 0 <= i < |s| && s[i].time.Some? ==> r.0 <= s[i].time.value <= r.1
    ensures r.0 <= t <= r.1
  {
    var i :| 0 <= i < |s| && s[i].time == Some(t);
  }

  /** The range depends only on which times are present: not on the order
      of the points, their repetitions, or the points without a time. */
  lemma TimeRangeSameTimes(a: TrackRecord, b: TrackRecord)
    requires forall t :: HasTimeAt(a.gdf, t) <==> HasTimeAt(b.gdf, t)
    ensures TimeRangeOf(a) == TimeRangeOf(b)
  {
    var ra := TimeRangeOf(a);
    var rb := TimeRangeOf(b);
    assert ra.Err? <==> rb.Err? by {
      if ra.Ok? {
        assert HasTimeAt(a.gdf, ra.value.0);
        var j :| 0 <= j < |b.gdf| && b.gdf[j].time == Some(ra.value.0);
      }
      if rb.Ok? {
        assert HasTimeAt(b.gdf, rb.value.0);
        var j :| 0 <= j < |a.gdf| && a.gdf[j].time == Some(rb.value.0);
      }
    }
    if ra.Ok? {
      var (p, q) := (ra.value, rb.value);
      assert HasTimeAt(a.gdf, p.0) && HasTimeAt(a.gdf, p.1);
      assert HasTimeAt(b.gdf, q.0) && HasTimeAt(b.gdf, q.1);
      WithinRange(b.gdf, p.0, q);
      WithinRange(b.gdf, p.1, q);
      WithinRange(a.gdf, q.0, p);
      WithinRange(a.gdf, q.1, p);
      assert p.0 == q.0 && p.1 == q.1;
      assert ra == Ok(p) && rb == Ok(q);
    } else {
      assert ra.error == rb.error;
    }
  }

  /** Appending a point without a time leaves the range as it was. */
  lemma TimeRangeIgnoresUntimed(path: Path, samples: seq<Sample>, g: Position)
    ensures TimeRangeOf(TrackRecord(path, samples + [Sample(None, g)])) == TimeRangeOf(TrackRecord(path, samples))
  {
    var s := samples + [Sample(None, g)];
    assert forall i :: 0 <= i < |samples| ==> s[i] == samples[i];
    forall t ensures HasTimeAt(s, t) <==> HasTimeAt(samples, t) {
      if HasTimeAt(s, t) {
        var i :| 0 <= i < |s| && s[i].time == Some(t);
        assert i < |samples|;
      }
      if HasTimeAt(samples, t) {
        var i :| 0 <= i < |samples| && samples[i].time == Some(t);
        assert s[i] == samples[i];
      }
    }
    TimeRangeSameTimes(TrackRecord(path, s), TrackRecord(path, samples));
  }

  /** The `cached_property` slot of one track's time range. */
  class Track {
    const record: TrackRecord
    var timeRange: Option<(Instant, Instant)>

    ghost predicate Valid()
      reads this
    {
      timeRange.Some? ==> TimeRangeOf(record) == Ok(timeRange.value)
    }

    constructor (record: TrackRecord)
      ensures this.record == record && timeRange == None && Valid()
    {
      this.record := record;
      timeRange := None;
    }

    /** `track.time_range`: every access gives what the first computation gives. */
    method TimeRange() returns (r: Result<(Instant, Instant)>)
      requires Valid()
      modifies this`timeRange
      ensures Valid()
      ensures r == TimeRangeOf(record)
      ensures r.Ok? ==> timeRange == Some(r.value)
      ensures r.Err? ==> timeRange == old(timeRange)
      ensures old(timeRange).Some? ==> timeRange == old(timeRange)
    {
      if timeRange.Some? {
        r := Ok(timeRange.value);
      } else {
        r := TimeRangeOf(record);
        if r.Ok? {
          timeRange := Some(r.value);
        }
      }
    }
  }

  // ----- the combined table -----

  /** One row of `gdf`: a sample tagged with `str(track)` in `track_path`. */
  datatype TrackRow = TrackRow(time: Option<Instant>, geometry: Position, trackPath: string)

  function RowTime(row: TrackRow): Option<Instant>
  {
    row.time
  }

  function Label(t: TrackRecord, s: Sample): TrackRow
  {
    TrackRow(s.time, s.geometry, PathString(t.path))
  }

  /** The rows of one track, in point order. */
  function TrackRows(t: TrackRecord): (rows: seq<TrackRow>)
    ensures |rows| == |t.gdf|
    ensures forall i :: 0 <= i < |rows| ==> rows[i] == Label(t, t.gdf[i])
  {
    seq(|t.gdf|, i requires 0 <= i < |t.gdf| => Label(t, t.gdf[i]))
  }

  /** `pd.concat` of the per-track tables, in iteration order. */
  function Concat(tracks: seq<TrackRecord>): seq<TrackRow>
  {
    if tracks == [] then [] else TrackRows(tracks[0]) + Concat(tracks[1..])
  }

  function SampleCount(tracks: seq<TrackRecord>): nat
  {
    if tracks == [] then 0 else |tracks[0].gdf| + SampleCount(tracks[1..])
  }

  /** The concatenation has one row per sample of every track, each tagged
      with the track it came from, and nothing else. */
  lemma {:induction false} ConcatRows(tracks: seq<TrackRecord>, row: TrackRow)
    ensures |Concat(tracks)| == SampleCount(tracks)
    ensures row in Concat(tracks) <==>
            exists k, i :: 0 <= k < |tracks| && 0 <= i < |tracks[k].gdf| && row == Label(tracks[k], tracks[k].gdf[i])
  {
    if tracks != [] {
      ConcatRows(tracks[1..], row);
      var head := TrackRows(tracks[0]);
      if row in head {
        var i :| 0 <= i < |head| && head[i] == row;
        assert row == Label(tracks[0], tracks[0].gdf[i]);
      }
      if row in Concat(tracks[1..]) {
        var k, i :| 0 <= k < |tracks[1..]| && 0 <= i < |tracks[1..][k].gdf| && row == Label(tracks[1..][k], tracks[1..][k].gdf[i]);
        assert tracks[k + 1] == tracks[1..][k];
      }
      if exists k, i :: 0 <= k < |tracks| && 0 <= i < |tracks[k].gdf| && row == Label(tracks[k], tracks[k].gdf[i]) {
        var k, i :| 0 <= k < |tracks| && 0 <= i < |tracks[k].gdf| && row == Label(tracks[k], tracks[k].gdf[i]);
        if k == 0 {
          assert head[i] == row;
        } else {
          assert tracks[1..][k - 1] == tracks[k];
        }
      }
    }
  }

  /** `TrackCollection.gdf`: all samples of all tracks, tagged with their
      track, sorted by time with the rows without a time last. With no track
      at all, `pd.concat` has nothing to concatenate and raises. */
  function Gdf(tracks: seq<TrackRecord>): (r: Result<seq<TrackRow>>)
    ensures r.Err? <==> tracks == []
    ensures r.Ok? ==> |r.value| == SampleCount(tracks)
    ensures r.Ok? ==> NaLastSorted(r.value, RowTime)
    ensures r.Ok? ==> multiset(r.value) == multiset(Concat(tracks))
  {
    if tracks == [] then Err(ValueError("No objects to concatenate"))
    else
      ConcatRows(tracks, TrackRow(None, Position(0.0, 0.0), ""));
      Ok(SortValues(Concat(tracks), RowTime))
  }

  /** A row is in `gdf` exactly when it is a tagged sample of one of the tracks. */
  lemma GdfRows(tracks: seq<TrackRecord>, row: TrackRow)
    requires tracks != []
    ensures row in Gdf(tracks).value <==>
            exists k, i :: 0 <= k < |tracks| && 0 <= i < |tracks[k].gdf| && row == Label(tracks[k], tracks[k].gdf[i])
  {
    ConcatRows(tracks, row);
    assert row in Gdf(tracks).value <==> row in multiset(Gdf(tracks).value);
  }

  /** `gdf_with_time`: the rows of `gdf` that have a time, in time order. */
  function GdfWithTime(tracks: seq<TrackRecord>): (r: Result<seq<TrackRow>>)
    ensures r.Err? <==> tracks == []
    ensures r.Ok? ==> forall i :: 0 <= i < |r.value| ==> r.value[i].time.Some?
    ensures r.Ok? ==> SortedBy(r.value, TimeKey(RowTime))
    ensures r.Ok? ==> multiset(r.value) == multiset(Filter(Concat(tracks), Timed(RowTime)))
  {
    match Gdf(tracks)
    case Err(e) => Err(e)
    case Ok(gdf) =>
      TimedRows(gdf, RowTime);
      SortValuesSplit(Concat(tracks), RowTime);
      Ok(Filter(gdf, Timed(RowTime)))
  }

  /** A row is in `gdf_with_time` exactly when it is a tagged timed sample of one of the tracks. */
  lemma GdfWithTimeRows(tracks: seq<TrackRecord>, row: TrackRow)
    requires tracks != []
    ensures row in GdfWithTime(tracks).value <==>
            row.time.Some? &&
            exists k, i :: 0 <= k < |tracks| && 0 <= i < |tracks[k].gdf| && row == Label(tracks[k], tracks[k].gdf[i])
  {
    var all := Concat(tracks);
    var timed := GdfWithTime(tracks).value;
    ConcatRows(tracks, row);
    FilterMultiset(all, Timed(RowTime));
    assert multiset(timed)[row] == multiset(Filter(all, Timed(RowTime)))[row];
    assert row in timed <==> multiset(timed)[row] > 0;
    assert row in all <==> multiset(all)[row] > 0;
  }
}
