/** `locate_photos`: every photo with a time is placed at the track sample
    nearest to it in time, over all timed samples of all tracks. Both tables
    are truncated to whole milliseconds first, and the join is pandas'
    `merge_asof(direction="nearest")` on the `time` column. */
module App {
  import opened Wrappers
  import opened Seqs
  import opened DateTimes
  import opened Text
  import Photos
  import Tracks

  const NanosPerMilli: int := 1_000_000

  /** `astype("datetime64[ms, UTC]")`: an instant cut down to its whole millisecond. */
  function ToMillis(t: Instant): (ms: int)
    ensures ms * NanosPerMilli <= t < (ms + 1) * NanosPerMilli
  {
    t / NanosPerMilli
  }

  /** Truncation keeps the order of instants (it may merge distinct ones). */
  lemma ToMillisMonotone(a: Instant, b: Instant)
    requires a <= b
    ensures ToMillis(a) <= ToMillis(b)
  {
  }

  ghost predicate Ascending(keys: seq<int>)
  {
    forall i, j :: 0 <= i < j < |keys| ==> keys[i] <= keys[j]
  }

  /** The backward search of `merge_asof`: the last key at or before `t`, or -1. */
  function LastAtOrBefore(keys: seq<int>, t: int): (b: int)
    ensures -1 <= b < |keys|
    ensures b >= 0 ==> keys[b] <= t
    ensures forall j :: b < j < |keys| ==> keys[j] > t
  {
    if keys == [] then -1
    else if keys[|keys| - 1] <= t then |keys| - 1
    else LastAtOrBefore(keys[..|keys| - 1], t)
  }

  /** The forward search of `merge_asof`: the first key at or after `t`, or |keys|. */
  function FirstAtOrAfter(keys: seq<int>, t: int): (f: int)
    ensures 0 <= f <= |keys|
    ensures f < |keys| ==> keys[f] >= t
    ensures forall j :: 0 <= j < f ==> keys[j] < t
  {
    if keys == [] then 0
    else if keys[0] >= t then 0
    else 1 + FirstAtOrAfter(keys[1..], t)
  }

  /** The `direction="nearest"` match: the backward and the forward candidate,
      whichever is closer, the backward one on a tie; -1 when there are no keys. */
  function AsofNearest(keys: seq<int>, t: int): (k: int)
    ensures -1 <= k < |keys|
    ensures k == -1 <==> |keys| == 0
  {
    var b := LastAtOrBefore(keys, t);
    var f := FirstAtOrAfter(keys, t);
    if b >= 0 && (f == |keys| || t - keys[b] <= keys[f] - t) then b
    else if f < |keys| then f
    else -1
  }

  /** On sorted keys the match is a key nearest to `t`; on a tie between an
      earlier and a later key, the earlier one is taken. */
  lemma AsofNearestIsNearest(keys: seq<int>, t: int)
    requires Ascending(keys) && |keys| > 0
    ensures var k := AsofNearest(keys, t);
      && (forall j :: 0 <= j < |keys| ==> Dist(keys[k], t) <= Dist(keys[j], t))
      && (forall j :: 0 <= j < |keys| && keys[j] <= t && Dist(keys[j], t) == Dist(keys[k], t) ==> keys[k] <= t)
  {
    var k := AsofNearest(keys, t);
    var b := LastAtOrBefore(keys, t);
    var f := FirstAtOrAfter(keys, t);
    forall j | 0 <= j < |keys| ensures Dist(keys[k], t) <= Dist(keys[j], t) {
      if j <= b {
        assert keys[j] <= keys[b];
      } else if j >= f {
        assert keys[f] <= keys[j];
      }
    }
    if b >= 0 {
      assert forall j :: 0 <= j < |keys| && keys[j] <= t ==> j <= b;
    }
  }

  /** A time at or after every sorted key is matched to the last key. */
  lemma LastKeyWins(keys: seq<int>, t: int)
    requires Ascending(keys) && |keys| > 0
    requires forall j :: 0 <= j < |keys| ==> keys[j] <= t
    ensures AsofNearest(keys, t) == |keys| - 1
  {
    var f := FirstAtOrAfter(keys, t);
    if f < |keys| {
      assert keys[f] <= keys[|keys| - 1];
    }
  }

  // ----- the join -----

  /** The right-hand columns a match brings: the sample's geometry and track. */
  datatype Location = Location(geometry: Tracks.Position, trackPath: string)

  /** One output row: the photo, its (truncated) time, and its location;
      None when there was no sample to match (NaN columns). */
  datatype Located = Located(photoSrc: string, time: int, location: Option<Location>)

  /** A time column truncated to milliseconds, for rows that all have a time. */
  function Millis<T>(rows: seq<T>, time: T -> Option<Instant>): (ms: seq<int>)
    requires forall i :: 0 <= i < |rows| ==> time(rows[i]).Some?
    ensures |ms| == |rows|
    ensures forall i :: 0 <= i < |rows| ==> ms[i] == ToMillis(time(rows[i]).value)
  {
    seq(|rows|, i requires 0 <= i < |rows| && time(rows[i]).Some? => ToMillis(time(rows[i]).value))
  }

  function LocationOf(row: Tracks.TrackRow): Location
  {
    Location(row.geometry, row.trackPath)
  }

  /** The rows of a left nearest join: one per photo, in photo order, with
      the photo's truncated time; a location exactly when there is a sample,
      and then the location of a sample whose truncated time is nearest. */
  ghost predicate NearestJoin(r: seq<Located>, photos: seq<Photos.PhotoRow>, samples: seq<Tracks.TrackRow>)
    requires forall i :: 0 <= i < |photos| ==> photos[i].time.Some?
    requires forall i :: 0 <= i < |samples| ==> samples[i].time.Some?
  {
    && |r| == |photos|
    && (forall i :: 0 <= i < |r| ==> r[i].photoSrc == photos[i].src && r[i].time == ToMillis(photos[i].time.value))
    && (forall i :: 0 <= i < |r| ==> (r[i].location.Some? <==> |samples| > 0))
    && (forall i :: 0 <= i < |r| && r[i].location.Some? ==>
          exists k :: 0 <= k < |samples| && r[i].location.value == LocationOf(samples[k])
                      && forall j :: 0 <= j < |samples| ==>
                           Dist(ToMillis(samples[k].time.value), r[i].time) <= Dist(ToMillis(samples[j].time.value), r[i].time))
  }

  /** `pd.merge_asof(df_photos, df_tracks, on="time", direction="nearest")`
      on the truncated tables. Both tables must be ordered on the key. */
  function MergeAsofNearest(photos: seq<Photos.PhotoRow>, samples: seq<Tracks.TrackRow>): (r: seq<Located>)
    requires forall i :: 0 <= i < |photos| ==> photos[i].time.Some?
    requires forall i :: 0 <= i < |samples| ==> samples[i].time.Some?
    requires Ascending(Millis(photos, Photos.RowTime)) && Ascending(Millis(samples, Tracks.RowTime))
    ensures NearestJoin(r, photos, samples)
  {
    var keys := Millis(samples, Tracks.RowTime);
    var r := seq(|photos|, i requires 0 <= i < |photos| && photos[i].time.Some? =>
      var t := ToMillis(photos[i].time.value);
      var k := AsofNearest(keys, t);
      Located(photos[i].src, t, if k >= 0 then Some(LocationOf(samples[k])) else None));
    forall i | 0 <= i < |r| && r[i].location.Some?
      ensures exists k :: 0 <= k < |samples| && r[i].location.value == LocationOf(samples[k])
                          && forall j :: 0 <= j < |samples| ==>
                               Dist(ToMillis(samples[k].time.value), r[i].time) <= Dist(ToMillis(samples[j].time.value), r[i].time)
    {
      NearestSample(samples, keys, r[i].time);
      var k := AsofNearest(keys, r[i].time);
      assert r[i].location.value == LocationOf(samples[k]);
    }
    r
  }

  /** The key matched to `t` is that of a sample whose truncated time is nearest to `t`. */
  lemma NearestSample(samples: seq<Tracks.TrackRow>, keys: seq<int>, t: int)
    requires forall i :: 0 <= i < |samples| ==> samples[i].time.Some?
    requires keys == Millis(samples, Tracks.RowTime) && Ascending(keys) && |samples| > 0
    ensures var k := AsofNearest(keys, t);
      0 <= k < |samples| &&
      forall j :: 0 <= j < |samples| ==>
        Dist(ToMillis(samples[k].time.value), t) <= Dist(ToMillis(samples[j].time.value), t)
  {
    AsofNearestIsNearest(keys, t);
  }

  /** A photo taken after every sample is still located, at the last sample
      in time order: the join has no distance limit. */
  lemma LatePhotoStillLocated(photos: seq<Photos.PhotoRow>, samples: seq<Tracks.TrackRow>, i: nat)
    requires forall i :: 0 <= i < |photos| ==> photos[i].time.Some?
    requires forall i :: 0 <= i < |samples| ==> samples[i].time.Some?
    requires Ascending(Millis(photos, Photos.RowTime)) && Ascending(Millis(samples, Tracks.RowTime))
    requires i < |photos| && |samples| > 0
    requires forall j :: 0 <= j < |samples| ==> samples[j].time.value < photos[i].time.value
    ensures MergeAsofNearest(photos, samples)[i].location == Some(LocationOf(samples[|samples| - 1]))
  {
    var t := ToMillis(photos[i].time.value);
    var keys := Millis(samples, Tracks.RowTime);
    assert MergeAsofNearest(photos, samples)[i].time == t;
    forall j | 0 <= j < |keys| ensures keys[j] <= t {
      ToMillisMonotone(samples[j].time.value, photos[i].time.value);
    }
    LastKeyWins(keys, t);
  }

  /** A time-sorted table whose rows all have a time is still sorted once
      its times are truncated to milliseconds. */
  lemma TruncatedAscending<T>(rows: seq<T>, time: T -> Option<Instant>)
    requires forall i :: 0 <= i < |rows| ==> time(rows[i]).Some?
    requires SortedBy(rows, TimeKey(time))
    ensures Ascending(Millis(rows, time))
  {
    forall i, j | 0 <= i < j < |rows| ensures Millis(rows, time)[i] <= Millis(rows, time)[j] {
      assert TimeKey(time)(rows[i]) <= TimeKey(time)(rows[j]);
      TimeKeyOf(time, rows[i]);
      TimeKeyOf(time, rows[j]);
      ToMillisMonotone(time(rows[i]).value, time(rows[j]).value);
    }
  }

  /** `locate_photos`: the photos with a time, each placed at a timed sample
      of some track nearest to it after truncation to milliseconds. The
      photo table is built first, so an error in a photo's time wins; a
      collection without tracks raises when the point table is built. */
  function LocatePhotos(photos: seq<Photos.PhotoFile>, tracks: seq<Tracks.TrackRecord>,
                        relative: bool, resolve: Path -> string): (r: Result<seq<Located>>)
    ensures r.Err? <==> Photos.DfWithTime(photos, relative, resolve).Err? || tracks == []
    ensures r.Ok? ==> NearestJoin(r.value, Photos.DfWithTime(photos, relative, resolve).value, Tracks.GdfWithTime(tracks).value)
  {
    match Photos.DfWithTime(photos, relative, resolve)
    case Err(e) => Err(e)
    case Ok(df) =>
      match Tracks.GdfWithTime(tracks)
      case Err(e) => Err(e)
      case Ok(gdf) =>
        TruncatedAscending(df, Photos.RowTime);
        TruncatedAscending(gdf, Tracks.RowTime);
        Ok(MergeAsofNearest(df, gdf))
  }

  /** Without any photo there is nothing to locate. */
  lemma NoPhotosNoRows(tracks: seq<Tracks.TrackRecord>, relative: bool, resolve: Path -> string)
    requires tracks != []
    ensures LocatePhotos([], tracks, relative, resolve) == Ok([])
  {
    assert Photos.Rows([], relative, resolve) == [];
    assert Filter([], Timed(Photos.RowTime)) == [];
  }
}
