# phototracks, modelled in Dafny

phototracks places photographs on GPS tracks by time. It has two halves.

**The package** (`src/phototracks`):
- It keeps a cached, extension-filtered collection of files (`FileCollection`).
- It works out when each photo was taken (`Photo.time`): the EXIF `Image DateTime` tag first, then a `YYMMDD_HHMM` prefix of the file name.
- It reads each GPX track's point table and time range (`Track`, `TrackCollection.gdf`).
- It joins every timed photo to the track sample nearest in time (`locate_photos`, a pandas `merge_asof` with `direction="nearest"`).

**The script** (`phototracks.py` and its copy of the helpers in `lib.py`):
- It finds the `.gpx` tracks and the `.NEF` images, reads each track's start and end, and dates each image (file name first, then EXIF).
- It sorts both lists and assigns each image to every track whose span holds its time.
- For each image it turns the nearest point of its track into a waypoint, then writes the annotated track beside the original.

The model has one module per source file, plus three shared modules:

| module | file | models |
|---|---|---|
| `Collection` | collection.dfy | `FileCollection`: a class holding the path set and the cache map, with the walk and the lazy iteration as methods with loop invariants |
| `Photos` | photo.dfy | `Photo.time` as a function plus a memo class, `compressed_filename`'s fallback, `PhotoCollection` and its tables |
| `Tracks` | track.dfy | `Track` construction, `time_range` (a function plus a memo class), `gdf`, `gdf_with_time` |
| `App` | app.dfy | `locate_photos`: millisecond truncation and the nearest as-of join |
| `Lib` | lib.dfy | `lib.py`: the leaf-directory walk, `get_image_date`, `process_track`, and `add_track_waypoints`, which mutates shared point objects |
| `Script` | script.dfy | `main` in `phototracks.py`: reading, sorting, range assignment, annotation, output names |
| `Text` | text.dfy | shared: `str.lower`, `str.split`, `Path.stem` |
| `Seqs` | seqs.dfy | shared: filtering, the stable sort, `sort_values` with NaT last, min/max, first nearest |
| `DateTimes` | datetimes.dfy | shared: the two `strptime` formats as exact inverses of formatters, and the calendar |

How inputs are represented:
- **Reading files.** Every file read becomes an input value:
  - the directory walk is a sequence of `(root, subdirs, files)` entries;
  - a photo file carries its EXIF tag (or its absence);
  - a track file is either unreadable or a list of samples;
  - a GPX file is its content (tracks of segments of points, and waypoints), given by a function from paths; `GPX.from_file` builds from it a new document of new point objects (`Lib.ReadGpx`).
- **The clock.** `datetime.now()` is the `now` parameter: one reading, to the whole second, shared by every image (see "Left out").
- **Writing a file.** This is modelled as returning the written file: its path and its content. `to_file` writes a document's content, with its points' current names and comments (`Lib.Content`).
- **Times.** A date-time is its calendar fields. An instant is an integer number of nanoseconds in one fixed frame (see "Left out").

Where the source and its docstrings or tests disagree, the model follows the code:
- A malformed EXIF tag raises; there is no fallback to the file name. The docstring of `Photo.time` (src/phototracks/photo.py:27-29) promises the fallback, but the ValueError of `strptime` (photo.py:37) is not among the exceptions caught at photo.py:38.
- `locate_photos` keeps photos outside every track's span, which tests/test_app.py:56-59 expects to be dropped.

Where the program's two halves differ, each is modelled as written:
- `Photo.time` tries EXIF before the file name (src/phototracks/photo.py:34-43); `get_image_date` tries the file name first (src/phototracks/lib.py:88-99). `Lib.ResolversDisagree` exhibits a file on which they differ.
- A multi-track GPX file aborts the script's run (phototracks.py:38, 98), whereas `FileCollection` skips a file whose record cannot be built (src/phototracks/collection.py:62-69).

## Model

| member | source | states |
|---|---|---|
| Text.LowerFolds | src/phototracks/collection.py:39 | after lower-casing no ASCII capital is left, every other character is kept, and lower-casing again changes nothing |
| Text.LowerExample | src/phototracks/collection.py:39 | `.JPG` and `.Gpx` lower-case to `.jpg` and `.gpx` |
| Text.Split | src/phototracks/photo.py:41 | a split has at least one piece; no piece contains the separator; there is exactly one piece iff the separator does not occur |
| Text.JoinSplit | src/phototracks/photo.py:41-42 | joining the pieces of a split with the separator gives back the string |
| Text.SplitJoin | src/phototracks/photo.py:41-42 | splitting a join of separator-free pieces gives back the pieces |
| Text.FirstTwoTokens | src/phototracks/photo.py:41-42 | there are two leading tokens iff the stem contains `_`, and they are the first two pieces of the split |
| Text.FirstTwoTokensOf | src/phototracks/photo.py:41-42 | for `a_b` followed by nothing or by further `_` pieces, the tokens are `a` and `b` |
| Text.StemShape | src/phototracks/photo.py:41 | `Path.stem` is a prefix of the name; when shorter, it is followed by a dot that is neither the first nor the last character, and no later dot |
| Text.StemOfSuffixed | src/phototracks/photo.py:41 | the stem of `base.ext`, for a dot-free non-empty extension, is `base` |
| Seqs.Filter | src/phototracks/photo.py:172 | a filter keeps only elements that pass and that come from the input |
| Seqs.FilterMultiset | src/phototracks/photo.py:172 | a filter keeps every passing element exactly as often as it occurs, and no other |
| Seqs.FilterPartition | src/phototracks/photo.py:185-189 | the rows that pass and the rows that fail make up the whole table |
| Seqs.FilterSorted | phototracks.py:102-107 | a filtered subsequence of a sorted list is sorted |
| Seqs.SortBy | src/phototracks/photo.py:171-174 | the stable sort is ordered by the key and is a permutation of its input |
| Seqs.SortValues | src/phototracks/photo.py:181 | `sort_values("time")` is a permutation of its input, ordered by time, with the NaT rows last |
| Seqs.SortValuesSplit | src/phototracks/photo.py:183-189 | after `sort_values`, the timed rows are the sorted timed rows and the untimed rows keep their order; together they are the whole table |
| Seqs.TimedRows | src/phototracks/track.py:99 | the timed rows of a table sorted with NaT last all have a time and are in time order |
| Seqs.FirstErrorIsFirst | phototracks.py:98 | there is no error iff every element succeeds; otherwise the error is that of an element whose predecessors all succeed |
| Seqs.Span | src/phototracks/track.py:43-51 | (min, max) of the present values: absent iff no value is present; min <= every present value <= max; both are attained |
| Seqs.FirstNearest | src/phototracks/lib.py:67-70 | the index found is nearest to the target, and strictly nearer than every earlier index |
| Seqs.FirstNearestUnique | src/phototracks/lib.py:67-70 | those two properties determine the index |
| DateTimes.ParseExif | src/phototracks/photo.py:37 | a successful parse of `%Y:%m:%d %H:%M:%S` is a valid date-time that formats back to the input |
| DateTimes.ParseFormatExif | src/phototracks/photo.py:37 | every valid date-time, formatted in the EXIF format, parses back to itself |
| DateTimes.ParseStem | src/phototracks/photo.py:43 | a successful parse of `%y%m%d_%H%M` is an expressible date-time that formats back to the input |
| DateTimes.ParseFormatStem | src/phototracks/photo.py:43 | every date-time the file-name format can express parses back to itself |
| DateTimes.FormatStemShape | src/phototracks/photo.py:42-43 | a file-name time is 11 characters with its only `_` at position 6 |
| DateTimes.DigitsValueOfDigits | src/phototracks/photo.py:37 | reading back the zero-padded digits of a number gives the number |
| DateTimes.DigitsOfDigitsValue | src/phototracks/photo.py:37 | writing back the value of a digit string, at its width, gives the string |
| DateTimes.WallInstantMonotone | src/phototracks/photo.py:173 | a date-time earlier field by field has an earlier instant, so sorting by instant is sorting by `datetime` comparison |
| Collection.FileCollection.constructor | src/phototracks/collection.py:12-30 | the filter is normalised (None stays None, a string becomes a one-element list, a list is kept); the paths are exactly the kept files of the walk; the cache starts empty |
| Collection.FileCollection.PopulatePaths | src/phototracks/collection.py:32-41 | adds exactly the kept files of every directory of the walk, subdirectories included |
| Collection.FileCollection.Visit | src/phototracks/collection.py:61-70 | builds the path's record only when the path is not cached; the cached value is the build result (None for a failure); only that key changes |
| Collection.FileCollection.Iterate | src/phototracks/collection.py:54-72 | visits every path once; cached entries keep their values; the constructor runs once for each path not cached before; the items are the non-None cache values in visit order; a pass over a full cache changes nothing |
| Collection.YieldMembers | src/phototracks/collection.py:70-72 | a record is yielded iff some visited path caches it |
| Collection.YieldOrderIrrelevant | src/phototracks/collection.py:60 | any two visit orders of the path set yield the same records, the same number of times |
| Photos.StemTime | src/phototracks/photo.py:40-46 | IndexError iff the stem has no `_`; a parsed time is expressible, and the stem starts with its formatting followed by the end or by `_` |
| Photos.StemTokensPrefix | src/phototracks/photo.py:41-42 | the two tokens joined by `_` are a prefix of the stem, followed by the end or by `_` |
| Photos.StemTimeOfFormat | src/phototracks/photo.py:41-43 | a stem made of a formatted time and further `_` pieces parses to that time |
| Photos.PhotoTime | src/phototracks/photo.py:34-47 | EXIF first: with a tag, success iff it parses, and then it is the tag's time; without a tag, never an error, a time iff the stem parses, and then the stem starts with that time written `%y%m%d_%H%M`, followed by nothing or by `_`; every time carries the local zone |
| Photos.ExifTimeFirst | src/phototracks/photo.py:34-37 | a well-formed EXIF time is the photo's time, whatever the file name |
| Photos.MalformedExifRaises | src/phototracks/photo.py:35-38 | a malformed EXIF tag raises, even when the file name carries a time |
| Photos.StemTimeFallback | src/phototracks/photo.py:38-43 | without EXIF, `YYMMDD_HHMM[_more].ext` gives that time |
| Photos.NoSeparatorNoTime | src/phototracks/photo.py:41-46 | without EXIF, a stem without `_` gives None |
| Photos.UnparsableStemNoTime | src/phototracks/photo.py:43-46 | without EXIF, a name whose first two pieces do not parse gives None |
| Photos.NoExifExample | src/phototracks/photo.py:38-43 | `250126_1317_DSC_2312_no_exif.jpg` without EXIF was taken on 2025-01-26 at 13:17 |
| Photos.NoDateExample | src/phototracks/photo.py:44-46 | `no_date.png` without EXIF has no time |
| Photos.Photo.Time | src/phototracks/photo.py:24-47 | every access returns the resolver's result; the first success is stored; a raising access stores nothing; a stored value never changes |
| Photos.CompressedFilename | src/phototracks/photo.py:49-61 | raises iff the time raises; the stem exactly when the time is None; otherwise the encoded time and path |
| Photos.CompressedNameFallbackExample | src/phototracks/photo.py:54-56 | `no_time_file.txt` gets the name `no_time_file` |
| Photos.NewPhotoCollection | src/phototracks/photo.py:136-158 | the photo collection filters on `IMG_EXTENSIONS`, holds the matching files of the walk, and building a photo never fails |
| Photos.UpperCaseExtensionKept | src/phototracks/collection.py:38-41 | `DSC_0001.JPG` is kept by the image filter |
| Photos.SortedPhotos | src/phototracks/photo.py:166-174 | raises iff some photo's time raises; otherwise sorted by time, only timed photos, and a permutation of the timed photos |
| Photos.SortedPhotosMembers | src/phototracks/photo.py:171-174 | a photo occurs as often as it is yielded if it has a time, and never otherwise |
| Photos.RowOf | src/phototracks/photo.py:178 | a row has a time iff its photo does, and it is the photo's instant |
| Photos.Rows | src/phototracks/photo.py:178-180 | one row per yielded photo, in iteration order |
| Photos.Df | src/phototracks/photo.py:176-181 | raises iff some photo's time raises; one row per photo, ordered by time with NaT last |
| Photos.DfWithTime | src/phototracks/photo.py:183-185 | raises iff `df` does; only timed rows, in time order |
| Photos.DfWithoutTime | src/phototracks/photo.py:187-189 | raises iff `df` does; only untimed rows |
| Photos.DfIsPermutation | src/phototracks/photo.py:180-181 | `df` is a permutation of the unsorted rows |
| Photos.DfPartition | src/phototracks/photo.py:183-189 | `df_with_time` followed by `df_without_time` is `df`; there is one timed row per timed photo |
| Photos.TimedRowsCount | src/phototracks/photo.py:178-185 | the number of timed rows is the number of timed photos |
| Tracks.ReadTrack | src/phototracks/track.py:17-31 | a track is built iff the layer can be read, has points and has a time column; otherwise the one ValueError is raised |
| Tracks.TrackBuildRefuses | src/phototracks/track.py:19-31 | the collection skips a file exactly when it is refused, and a kept track is never empty |
| Tracks.NewTrackCollection | src/phototracks/track.py:66-71 | the track collection filters on `.gpx` and builds records with `Track` |
| Tracks.TrackPathsAreGpx | src/phototracks/track.py:67 | every path of the track collection names a file ending in `.gpx`, in any letter case |
| Tracks.TimeRangeOf | src/phototracks/track.py:33-61 | raises iff no point has a time; otherwise start <= end, every timed point lies between them, and both are attained |
| Tracks.TimeRangeSameTimes | src/phototracks/track.py:43-51 | the range depends only on the set of times present |
| Tracks.TimeRangeIgnoresUntimed | src/phototracks/track.py:43-44 | a point without a time does not change the range |
| Tracks.Track.TimeRange | src/phototracks/track.py:33-34 | every access returns the computed range; the first success is stored and never changes |
| Tracks.ConcatRows | src/phototracks/track.py:80-90 | the concatenation has as many rows as there are samples, and a row is in it iff it is a tagged sample of some track |
| Tracks.Gdf | src/phototracks/track.py:73-94 | raises iff there is no track; otherwise one row per sample, a permutation of the concatenation, ordered by time with NaT last |
| Tracks.GdfRows | src/phototracks/track.py:78-94 | a row is in `gdf` iff it is a tagged sample of some track |
| Tracks.GdfWithTime | src/phototracks/track.py:96-100 | raises iff there is no track; only timed rows, in time order, a permutation of the timed tagged samples |
| Tracks.GdfWithTimeRows | src/phototracks/track.py:96-100 | a row is in `gdf_with_time` iff it has a time and is a tagged sample of some track |
| App.ToMillis | src/phototracks/app.py:29-34 | truncation gives the millisecond that contains the instant |
| App.ToMillisMonotone | src/phototracks/app.py:29-34 | truncation keeps the order of instants |
| App.LastAtOrBefore | src/phototracks/app.py:36-41 | the backward candidate is the last key at or before the time |
| App.FirstAtOrAfter | src/phototracks/app.py:36-41 | the forward candidate is the first key at or after the time |
| App.AsofNearest | src/phototracks/app.py:36-41 | a match exists iff there is a key |
| App.AsofNearestIsNearest | src/phototracks/app.py:36-41 | on sorted keys the match is nearest to the time; on a tie the earlier key is taken |
| App.LastKeyWins | src/phototracks/app.py:36-41 | a time at or after every key matches the last key |
| App.MergeAsofNearest | src/phototracks/app.py:36-41 | one row per photo, in photo order, carrying the photo's truncated time; a location iff there is a sample, and then that of a sample nearest in time |
| App.LatePhotoStillLocated | src/phototracks/app.py:36-41 | a photo after every sample is located at the last sample: the join has no tolerance |
| App.TruncatedAscending | src/phototracks/app.py:29-34 | a time-sorted table (photos or samples) is still sorted after its times are truncated to milliseconds |
| App.LocatePhotos | src/phototracks/app.py:13-43 | raises iff the photo table raises or there is no track; otherwise a nearest join of the timed photos with the timed samples of all tracks |
| App.NoPhotosNoRows | src/phototracks/app.py:26-43 | without photos the result is empty |
| Lib.GetFilesWithExtension | src/phototracks/lib.py:19-24 | the loop collects the leaf-directory files with the suffix, in walk order |
| Lib.LeafFilesMembers | src/phototracks/lib.py:20-24 | a path is listed iff it is a file of a directory without subdirectories whose name ends with the suffix |
| Lib.MatchingMembers | src/phototracks/lib.py:22-24 | a path is matched iff it is a file of the directory ending with the suffix |
| Lib.CaseSensitiveExample | src/phototracks/lib.py:23 | `.NEF` matches `b.NEF` but not `a.nef` |
| Lib.GetImageDate | src/phototracks/lib.py:85-101 | always returns, with the local zone; a parsed file name wins; otherwise a parsable EXIF tag when the name had `_`; otherwise `now` |
| Lib.FileNameFirst | src/phototracks/lib.py:88-91 | a name carrying a time gives that time, whatever the EXIF tag |
| Lib.ResolversDisagree | src/phototracks/lib.py:88-99 | for a file whose EXIF and name give different times, `Photo.time` takes the EXIF one and `get_image_date` the name's |
| Lib.ExifFallback | src/phototracks/lib.py:92-99 | `DSC_0001.NEF` does not parse, so the EXIF time is used |
| Lib.NoSeparatorIgnoresExif | src/phototracks/lib.py:87-101 | a name without `_` raises IndexError, which skips EXIF, so the result is `now` |
| Lib.TrackData.constructor | src/phototracks/lib.py:32-39 | a record holds the path, document and span, and no images |
| Lib.CheckShape | src/phototracks/lib.py:44-45 | the assertions pass iff there is one track with one segment |
| Lib.SegmentSpanSound | src/phototracks/lib.py:43-56 | succeeds iff the shape holds and some point has a time; the error is the assertion's or `min`'s; start <= end, every timed point between them, both attained |
| Lib.ReadGpx | src/phototracks/lib.py:43 | `GPX.from_file` gives a new document made of new point objects, whose content is the file's; no object repeats within a segment, and no waypoint is a track point |
| Lib.ProcessTrack | src/phototracks/lib.py:42-57 | fails iff the span fails, with its error; otherwise a fresh record with the path, a new document holding the file's content, the span, and no images |
| Lib.MinByKey | src/phototracks/lib.py:67-70 | an empty segment raises ValueError; TypeError iff some point's kind (timed or untimed) differs from the first point's; otherwise an index of the segment |
| Lib.MinByKeyIsNearest | src/phototracks/lib.py:67-70 | on timed points, the first point nearest in time; on untimed points, the first point |
| Lib.MinByKeyErrorIndependent | src/phototracks/lib.py:67-70 | whether `min` raises does not depend on the image's time |
| Lib.ChooseNearest | src/phototracks/lib.py:67-70 | the scan that replaces its candidate only on a strictly smaller key computes `min` |
| Lib.Choices | src/phototracks/lib.py:66-70 | one choice per image, each `min`'s result for that image |
| Lib.LastChooserSound | src/phototracks/lib.py:66-72 | the last image to choose a point did choose it, and no later image did |
| Lib.LabelNearest | src/phototracks/lib.py:66-73 | the waypoints grow by the chosen point objects, in image order; each point carries the labels of the last image that chose it, or keeps its own |
| Lib.AnnotatedNoImages | src/phototracks/lib.py:63-64 | with no images the document's content is kept |
| Lib.AnnotatedKeepsPoints | src/phototracks/lib.py:65-72 | annotating keeps the single segment, every point's time and position, and the labels of each point no image chose |
| Lib.AnnotatedWaypoints | src/phototracks/lib.py:66-73 | the old waypoints stay first, and one waypoint per image follows, in image order: the segment point nearest to that image, carrying the labels of the last image that chose the same point |
| Lib.LabelledContent | src/phototracks/lib.py:66-73 | a document whose points carry the labels the choices give and whose waypoints gained the chosen objects has the annotated content |
| Lib.LabelDocument | src/phototracks/lib.py:65-73 | the loop's new waypoints and labels as in LabelNearest; on a freshly read document the content becomes the annotated content; the document keeps its point objects |
| Lib.AddTrackWaypoints | src/phototracks/lib.py:60-73 | raises iff the shape check fails or `min` raises on the first image, with that error; then, and with no images, nothing changes; otherwise the waypoints and labels as in LabelNearest, and on a freshly read document the content becomes the annotated content |
| Script.OutputNameBeside | phototracks.py:56 | the output is in the track's directory, ends in `_with_imgs.gpx`, and is not the track itself |
| Script.OutputNameExample | phototracks.py:56 | `tracks/ride.gpx` is written to `tracks/ride_with_imgs.gpx` |
| Script.ProcessTracks | phototracks.py:98 | fails iff some file's span fails, with the first failure; otherwise one fresh, distinct record per file, in file order, each with the file's span and a new document holding its content, no point object shared between documents |
| Script.AssignImage | phototracks.py:105-107 | the image is appended to exactly the tracks whose span holds its time, bounds included |
| Script.AssignImages | phototracks.py:104-107 | each track's images become its old images followed by the images in its span, in list order |
| Script.AssignedInTimeOrder | phototracks.py:102-107 | a track's images from a sorted list are sorted |
| Script.AssignedExactly | phototracks.py:104-107 | an image goes to a track iff its time is in the span, as often as it occurs; one outside every span goes nowhere |
| Script.SaveWaypoints | phototracks.py:45-57 | raises iff `add_track_waypoints` raises, with its error; the document's content becomes the annotated content (kept when it raises); on success the file written is that content beside the track, exactly when the track has images |
| Script.OutputsOfTracks | phototracks.py:56-57 | a file is among the outputs iff it is, for some track with images, the track's annotated content under its output name |
| Script.Stop | phototracks.py:109-110 | the index of the first track whose annotation raises: every earlier track passes, and the track at that index raises |
| Script.StopAt | phototracks.py:109-110 | a loop that got to track `k` stops there iff that track raises |
| Script.ProgressStep | phototracks.py:109-110 | annotating track `k` takes the contents one track further, and a raising track leaves them as they were |
| Script.SaveApart | phototracks.py:109-110 | saving the `k`th track annotates its own document, with SaveWaypoints' result and error, and leaves every other document, contents and fields, as it was |
| Script.SaveTrackAt | phototracks.py:109-110 | the same step stated over all documents: their contents with the `k`th one annotated, their point objects and the tracks' images unchanged |
| Script.AnnotatingStart | phototracks.py:109 | before the loop nothing is annotated or written, and the documents are apart |
| Script.AnnotatingDone | phototracks.py:109-110 | a loop that went through every track stopped at the end |
| Script.AnnotateStep | phototracks.py:109-110 | one iteration: raises iff this is the first raising track, and then the run ends with the earlier tracks annotated and written; otherwise the loop state moves one track on, with this track's output appended |
| Script.AnnotateAll | phototracks.py:109-110 | succeeds iff no track raises; otherwise the error of the first raising track; the outputs are those of the tracks before it, in order; each track before it holds its annotated content, the others their content as read; the images are unchanged |
| Script.ProcessNext | phototracks.py:98 | one step of the map: fails iff this file's span fails, with its error; otherwise a fresh record with the file's span and a new document, sharing no point object with the earlier ones |
| Script.ReadReordered | phototracks.py:98-101 | after sorting, every record still comes from one of the files and holds that file's document and span; the records stay distinct and share no document or point object |
| Script.SortedRecords | phototracks.py:101 | sorting distinct records gives distinct records, each one of the originals |
| Script.PreparedByFilter | phototracks.py:102-107 | tracks holding the in-span images of a time-sorted list hold them in time order |
| Script.AssignSorted | phototracks.py:104-107 | each sorted track holds exactly its in-span images, in time order; the documents are untouched |
| Script.SortAndAssign | phototracks.py:101-107 | the tracks are stably sorted by start, and each holds exactly its in-span images, in time order |
| Script.ReadFacts | phototracks.py:98 | the records of all files are distinct, share no point object, start with no images, and each holds its file's span and content |
| Script.PrepareTracks | phototracks.py:101-107 | the records sorted by start, each holding its in-span images in time order and still its own file's content and span |
| Script.ReadInputs | phototracks.py:95-107 | a failing track file ends the run before any image is read, with the first failure; otherwise images sorted by time, tracks sorted by start, each read from its file, holding its in-span images, with new documents |
| Script.Run | phototracks.py:94-110 | as ReadInputs, then as AnnotateAll: success iff no track raises, otherwise the first raising track's error; the outputs are the annotated contents of the tracks with images before that track; each track before it holds its annotated content and the rest their content as read |

## Left out

- Reading files is not modelled: `os.walk`, `open`, `exifread.process_file`, `gpd.read_file` and the parsing in `GPX.from_file`. Their results are inputs; only the building of a document's objects from the parsed content is modelled.
- Writing files is not modelled: `gpx.to_file` (phototracks.py:57) and `save_waypoints` (src/phototracks/app.py:46-55). A write is represented by the file it would write: its path and content.
- The encoding in `compressed_filename` and `from_compressed_filename` (src/phototracks/photo.py:58-87) is left out. It is gzip, base64 and JSON library code; only the stem fallback is modelled.
- Thumbnails are left out: `thumbnail_exists`, `create_thumbnail` (src/phototracks/photo.py:89-131) and `create_thumbnail` in src/phototracks/lib.py:76-82. They are image resizing and filesystem checks.
- Time zones are not modelled. All instants share one frame, so the Europe/Madrid offset and its daylight-saving rules are ignored. That covers:
  - `replace(tzinfo)` versus `astimezone`;
  - naive EXIF times compared with UTC GPX times;
  - the UTC conversion in `locate_photos`.
- Track.TimeRange: the `datetime.fromtimestamp` round trip in src/phototracks/track.py:54-59 is taken as exact. Any sub-microsecond loss through the float timestamp is not modelled.
- Geometry and CRS are not modelled. Positions are carried as opaque pairs, and `set_crs` is not modelled.
- DateTimes.ParseExif and DateTimes.ParseStem accept only the fixed-width, zero-padded ASCII form. `strptime` also accepts one-digit fields, a day of month padded with a space (`2501 5_1200` reads as 5 January 2025, 12:00), and any run of whitespace where the format has a space (`2025:01:26  13:17:00` with two spaces); the model refuses all of these, so for such names and tags it answers None or an error where the program finds a time.
- Text.Lower folds ASCII letters only; `str.lower` also folds other Unicode letters.
- Seqs.SortValues keeps the input order of rows with equal times (stable) and puts NaT last. pandas' default sort does not promise stability.
- App.AsofNearest takes the earlier sample when two are equally near. That is the tie-break of the pandas version the model assumes; the repository does not fix it.
- App.ToMillis floors to the millisecond, which differs from truncation toward zero only for instants before 1970.
- App.MergeAsofNearest requires both key columns in ascending order. pandas raises on unsorted keys, and the tables `locate_photos` builds are sorted.
- Lib.AddTrackWaypoints and Lib.LabelNearest require the segment's point objects to be pairwise distinct, as a parsed file gives. A segment that lists one object twice is not modelled.
- Photos.PhotoTime: when the EXIF tag is absent, `datetime.now` is called but its value is discarded, so the clock does not appear there.
- Lib.GetImageDate: `now` is a whole-second date-time. The program's `datetime.now()` carries microseconds, so an image dated by the clock can fall inside or outside a track span, or choose a nearest point, differently by less than a second.
- Script.ImageDates: one clock reading serves every image. The program calls `datetime.now()` afresh in each `get_image_date` call (phototracks.py:61, 99), so the images it dates by the clock get slightly increasing times, where the model gives them all the same time.
- Lib.GetImageDate: a missing EXIF tag (KeyError) and an unreadable file are swallowed by the `finally` clause. Both are modelled as an absent tag, which yields `now`.
- Exceptions other than those the code raises or catches on purpose are not modelled (for example `OSError` while reading a file). Neither is logging.
- phototracks.py:16-72 repeats `get_files_with_extension`, `ImageData`, `TrackData`, `process_track`, `add_track_waypoints` and `get_image_date` from src/phototracks/lib.py. The model defines them once in `Lib`; `Script` adds only the script's output write (phototracks.py:56-57) and `main`.
- The pydantic field validation of `ImageData` and `TrackData` is not modelled.
- The click command-line options of phototracks.py are not part of this model. Neither are src/phototracks/server.py, src/phototracks/__main__.py or src/phototracks/__init__.py.
- tests/test_app.py:56-59 expects no row for a photo outside every track. The code keeps every photo (see App.LatePhotoStillLocated); the model follows the code.
