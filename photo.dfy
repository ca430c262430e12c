/** Photos: when a photo was taken, and the photo collection's views
    (`sorted_photos`, `df`, `df_with_time`, `df_without_time`).

    Reading the file is an input: a photo file is its path and what the EXIF
    reader found under `Image DateTime`. Every time is a wall-clock
    date-time stamped with the one local zone, and its instant is taken in
    a single frame. */
module Photos {
  import opened Wrappers
  import opened Text
  import opened Seqs
  import opened DateTimes
  import opened Collection

  /** `local_timezone`. */
  const LocalZone: string := "Europe/Madrid"

  /** What looking up `Image DateTime` in the EXIF block gives: the tag's
      text, or NoTag for a missing key, `ExifNotFound` or `InvalidExif`. */
  datatype ExifTag = Tag(raw: string) | NoTag

  datatype PhotoFile = PhotoFile(path: Path, exif: ExifTag)

  /** An aware datetime: wall-clock fields and the zone attached to them. */
  datatype LocalTime = LocalTime(wall: DateTime, zone: string)

  /** Reading `YYMMDD_HHMM` from the first two `_`-pieces of a stem: the
      stem has no `_` (indexing the second piece raises IndexError), the
      pieces do not parse (ValueError), or the date-time they spell. */
  datatype StemOutcome = NoSecondToken | Unparsable | Parsed(dt: DateTime)

  function StemTime(stem: string): (r: StemOutcome)
    ensures r.NoSecondToken? <==> '_' !in stem
    ensures r.Parsed? ==> StemExpressible(r.dt)
    ensures r.Parsed? ==> exists rest :: stem == FormatStem(r.dt) + rest && (rest == [] || rest[0] == '_')
  {
    match FirstTwoTokens(stem)
    case Fewer => NoSecondToken
    case Two(a, b) =>
      match ParseStem(a + "_" + b)
      case None => Unparsable
      case Some(dt) =>
        StemTokensPrefix(stem);
        var n := |a| + 1 + |b|;
        assert stem == FormatStem(dt) + stem[n..];
        Parsed(dt)
  }

  /** The first two pieces, joined back with `_`, are a prefix of the stem
      followed by the end of the stem or by the next `_`. */
  lemma StemTokensPrefix(stem: string)
    requires '_' in stem
    ensures var t := FirstTwoTokens(stem);
      var n := |t.first| + 1 + |t.second|;
      && t.Two? && n <= |stem| && stem == t.first + "_" + t.second + stem[n..]
      && (n == |stem| || stem[n] == '_')
  {
    var pieces := Split(stem, '_');
    JoinSplit(stem, '_');
    var a := pieces[0];
    var b := pieces[1];
    var tail := Join(pieces[1..], '_');
    assert stem == a + ['_'] + tail;
    assert pieces[1..][0] == b;
    var n := |a| + 1 + |b|;
    if |pieces| == 2 {
      assert tail == b;
    } else {
      var rest := ['_'] + Join(pieces[2..], '_');
      assert pieces[1..][1..] == pieces[2..];
      assert tail == b + rest;
      assert stem[n..] == rest;
    }
  }

  /** Any date-time the convention can express is read back from a stem that
      starts with it, whatever further `_`-pieces follow. */
  lemma StemTimeOfFormat(dt: DateTime, rest: string)
    requires StemExpressible(dt)
    requires rest == [] || rest[0] == '_'
    ensures StemTime(FormatStem(dt) + rest) == Parsed(dt)
  {
    var s := FormatStem(dt);
    FormatStemShape(dt);
    assert s == s[..6] + "_" + s[7..];
    FirstTwoTokensOf(s[..6], s[7..], rest);
    assert s + rest == s[..6] + "_" + s[7..] + rest;
    ParseFormatStem(dt);
  }

  /** `Photo.time`: the EXIF tag is tried first; a malformed tag raises, a
      missing one falls back to the file name, and a file name that does
      not carry a date-time gives None. */
  function PhotoTime(f: PhotoFile): (r: Result<Option<LocalTime>>)
    ensures r.Ok? && r.value.Some? ==> r.value.value.zone == LocalZone && Valid(r.value.value.wall)
    ensures f.exif.Tag? ==> (r.Ok? <==> ParseExif(f.exif.raw).Some?)
    ensures f.exif.Tag? && r.Ok? ==> r.value.Some? && FormatExif(r.value.value.wall) == f.exif.raw
    ensures f.exif.NoTag? ==> r.Ok?
    ensures f.exif.NoTag? ==> (r.value.Some? <==> StemTime(Stem(f.path.name)).Parsed?)
    ensures f.exif.NoTag? && r.value.Some? ==> StemExpressible(r.value.value.wall)
    ensures f.exif.NoTag? && r.value.Some? ==>
              exists rest :: Stem(f.path.name) == FormatStem(r.value.value.wall) + rest && (rest == [] || rest[0] == '_')
  {
    match f.exif
    case Tag(raw) =>
      (match ParseExif(raw)
       case Some(dt) => Ok(Some(LocalTime(dt, LocalZone)))
       case None => Err(ValueError("time data does not match format '%Y:%m:%d %H:%M:%S'")))
    case NoTag =>
      (match StemTime(Stem(f.path.name))
       case Parsed(dt) => Ok(Some(LocalTime(dt, LocalZone)))
       case _ => Ok(None))
  }

  /** A well-formed EXIF time wins over whatever the file name says. */
  lemma ExifTimeFirst(path: Path, dt: DateTime)
    requires Valid(dt)
    ensures PhotoTime(PhotoFile(path, Tag(FormatExif(dt)))) == Ok(Some(LocalTime(dt, LocalZone)))
  {
    ParseFormatExif(dt);
  }

  /** A malformed EXIF time is an error, even when the file name carries a
      date-time: there is no fallback to the name. */
  lemma MalformedExifRaises(raw: string, dt: DateTime, rest: string, ext: string)
    requires ParseExif(raw).None?
    requires StemExpressible(dt) && (rest == [] || rest[0] == '_')
    requires |ext| > 0 && '.' !in ext
    ensures PhotoTime(PhotoFile(Path("", FormatStem(dt) + rest + "." + ext), Tag(raw))).Err?
  {
  }

  /** Without EXIF, a name `YYMMDD_HHMM[_anything].ext` gives that date-time. */
  lemma StemTimeFallback(parent: string, dt: DateTime, rest: string, ext: string)
    requires StemExpressible(dt) && (rest == [] || rest[0] == '_')
    requires |ext| > 0 && '.' !in ext
    ensures PhotoTime(PhotoFile(Path(parent, FormatStem(dt) + rest + "." + ext), NoTag))
            == Ok(Some(LocalTime(dt, LocalZone)))
  {
    FormatStemShape(dt);
    StemOfSuffixed(FormatStem(dt) + rest, ext);
    StemTimeOfFormat(dt, rest);
  }

  /** Without EXIF, a stem with no `_` gives None. */
  lemma NoSeparatorNoTime(path: Path)
    requires '_' !in Stem(path.name)
    ensures PhotoTime(PhotoFile(path, NoTag)) == Ok(None)
  {
  }

  /** The file `250126_1317_DSC_2312_no_exif.jpg` without EXIF was taken on
      2025-01-26 at 13:17 local time. */
  lemma NoExifExample()
    ensures PhotoTime(PhotoFile(Path("assets", "250126_1317_DSC_2312_no_exif.jpg"), NoTag))
            == Ok(Some(LocalTime(DateTime(2025, 1, 26, 13, 17, 0), LocalZone)))
  {
    var dt := DateTime(2025, 1, 26, 13, 17, 0);
    FormatStemExample();
    assert "250126_1317_DSC_2312_no_exif.jpg" == "250126_1317" + "_DSC_2312_no_exif" + "." + "jpg";
    StemTimeFallback("assets", dt, "_DSC_2312_no_exif", "jpg");
  }

  lemma FormatStemExample()
    ensures StemExpressible(DateTime(2025, 1, 26, 13, 17, 0))
    ensures FormatStem(DateTime(2025, 1, 26, 13, 17, 0)) == "250126_1317"
  {
    DigitsTwo(25);
    DigitsTwo(1);
    DigitsTwo(26);
    DigitsTwo(13);
    DigitsTwo(17);
  }

  /** Without EXIF, a name whose first two `_`-pieces do not spell a
      date-time has no time, whatever follows them. */
  lemma UnparsableStemNoTime(parent: string, a: string, b: string, rest: string, ext: string)
    requires '_' !in a && '_' !in b && (rest == [] || rest[0] == '_')
    requires ParseStem(a + "_" + b).None?
    requires |ext| > 0 && '.' !in ext
    ensures Stem(a + "_" + b + rest + "." + ext) == a + "_" + b + rest
    ensures PhotoTime(PhotoFile(Path(parent, a + "_" + b + rest + "." + ext), NoTag)) == Ok(None)
  {
    StemOfSuffixed(a + "_" + b + rest, ext);
    FirstTwoTokensOf(a, b, rest);
  }

  /** `no_date.png` without EXIF has no time. */
  lemma NoDateExample()
    ensures PhotoTime(PhotoFile(Path("assets", "no_date.png"), NoTag)) == Ok(None)
  {
    assert "no_date.png" == "no" + "_" + "date" + "" + "." + "png";
    UnparsableStemNoTime("assets", "no", "date", "", "png");
  }

  /** The instant of a photo time, in the single frame. */
  function InstantOf(t: LocalTime): Instant
    requires Valid(t.wall)
  {
    WallInstant(t.wall)
  }

  /** The `cached_property` slot of one photo: empty until the first access
      that returns, then the value returned. A raising access stores nothing. */
  class Photo {
    const file: PhotoFile
    var time: Option<Option<LocalTime>>

    ghost predicate Valid()
      reads this
    {
      time.Some? ==> PhotoTime(file) == Ok(time.value)
    }

    constructor (file: PhotoFile)
      ensures this.file == file && time == None && Valid()
    {
      this.file := file;
      time := None;
    }

    /** `photo.time`: every access gives what the first computation gives. */
    method Time() returns (r: Result<Option<LocalTime>>)
      requires Valid()
      modifies this`time
      ensures Valid()
      ensures r == PhotoTime(file)
      ensures r.Ok? ==> time == Some(r.value)
      ensures r.Err? ==> time == old(time)
      ensures old(time).Some? ==> time == old(time)
    {
      if time.Some? {
        r := Ok(time.value);
      } else {
        r := PhotoTime(file);
        if r.Ok? {
          time := Some(r.value);
        }
      }
    }
  }

  /** What `compressed_filename` gives: the stem when the photo has no time,
      otherwise the encoding of the time and the path. */
  datatype CompressedName = StemName(stem: string) | Encoded(time: LocalTime, path: string)

  function CompressedFilename(f: PhotoFile): (r: Result<CompressedName>)
    ensures r.Err? <==> PhotoTime(f).Err?
    ensures r.Ok? ==> (r.value.StemName? <==> PhotoTime(f).value.None?)
    ensures r.Ok? && r.value.StemName? ==> r.value.stem == Stem(f.path.name)
    ensures r.Ok? && r.value.Encoded? ==> Some(r.value.time) == PhotoTime(f).value && r.value.path == PathString(f.path)
  {
    match PhotoTime(f)
    case Err(e) => Err(e)
    case Ok(None) => Ok(StemName(Stem(f.path.name)))
    case Ok(Some(t)) => Ok(Encoded(t, PathString(f.path)))
  }

  /** A text file `no_time_file.txt` has no EXIF and no date in its name, so
      its compressed name is its stem. */
  lemma CompressedNameFallbackExample(parent: string)
    ensures CompressedFilename(PhotoFile(Path(parent, "no_time_file.txt"), NoTag)) == Ok(StemName("no_time_file"))
  {
    assert "no_time_file.txt" == "no" + "_" + "time" + "_file" + "." + "txt";
    assert "no_time_file" == "no" + "_" + "time" + "_file";
    UnparsableStemNoTime(parent, "no", "time", "_file", "txt");
  }

  // ----- the collection -----

  /** `PhotoCollection.IMG_EXTENSIONS`. */
  const ImgExtensions: seq<string> :=
    [".bmp", ".gif", ".heic", ".heif", ".jpeg", ".jpg", ".nef", ".png", ".raw", ".tiff", ".webp"]

  /** `PhotoCollection(path)`: the image files under the root, matched on
      their extension in any letter case. Making a Photo from a path never
      fails. */
  method NewPhotoCollection(root: string, walk: seq<WalkEntry>, followLinks: bool, exifOf: Path -> ExifTag)
    returns (c: FileCollection<PhotoFile>)
    ensures fresh(c) && c.Valid()
    ensures c.filterExtensions == Some(ImgExtensions)
    ensures c.paths == WalkPaths(walk, Some(ImgExtensions))
    ensures forall p :: c.build(p) == Some(PhotoFile(p, exifOf(p)))
    ensures c.cache == map[]
  {
    c := new FileCollection(root, walk, Extensions(ImgExtensions), followLinks, p => Some(PhotoFile(p, exifOf(p))));
  }

  /** A photo named with an upper-case extension is still an image file. */
  lemma UpperCaseExtensionKept()
    ensures Keeps(Some(ImgExtensions), "DSC_0001.JPG")
  {
    assert ImgExtensions[5] == ".jpg";
    assert Lower("DSC_0001.JPG") == "dsc_0001.jpg";
    assert Lower(".jpg") == ".jpg";
  }

  // ----- views -----

  predicate HasTime(f: PhotoFile)
  {
    PhotoTime(f).Ok? && PhotoTime(f).value.Some?
  }

  /** The instant a timed photo was taken; the sort key of `sorted_photos`. */
  function PhotoKey(f: PhotoFile): Instant
  {
    if HasTime(f) then InstantOf(PhotoTime(f).value.value) else 0
  }

  /** `sorted_photos`: the photos that have a time, ordered by it. */
  function SortedPhotos(items: seq<PhotoFile>): (r: Result<seq<PhotoFile>>)
    ensures r.Err? <==> exists i :: 0 <= i < |items| && PhotoTime(items[i]).Err?
    ensures r.Ok? ==> SortedBy(r.value, PhotoKey)
    ensures r.Ok? ==> multiset(r.value) == multiset(Filter(items, HasTime))
    ensures r.Ok? ==> forall i :: 0 <= i < |r.value| ==> HasTime(r.value[i])
  {
    FirstErrorIsFirst(items, PhotoTime);
    match FirstError(items, PhotoTime)
    case Some(e) => Err(e)
    case None =>
      var sorted := SortBy(Filter(items, HasTime), PhotoKey);
      SortByKeeps(Filter(items, HasTime), PhotoKey, HasTime);
      assert forall i :: 0 <= i < |sorted| ==> sorted[i] in sorted;
      Ok(sorted)
  }

  /** A photo is in `sorted_photos` exactly as often as it is yielded with a time. */
  lemma SortedPhotosMembers(items: seq<PhotoFile>, f: PhotoFile)
    requires SortedPhotos(items).Ok?
    ensures multiset(SortedPhotos(items).value)[f] == if HasTime(f) then multiset(items)[f] else 0
  {
    FilterMultiset(items, HasTime);
  }

  /** One row of `df`: the photo's source and its time (NaT for None). */
  datatype PhotoRow = PhotoRow(src: string, time: Option<Instant>)

  /** The `photo_src` column: the path as yielded, or the resolved path. */
  function Source(f: PhotoFile, relative: bool, resolve: Path -> string): string
  {
    if relative then PathString(f.path) else resolve(f.path)
  }

  function RowOf(f: PhotoFile, relative: bool, resolve: Path -> string): (row: PhotoRow)
    requires PhotoTime(f).Ok?
    ensures row.time.Some? <==> HasTime(f)
    ensures row.time.Some? ==> row.time.value == PhotoKey(f)
  {
    PhotoRow(Source(f, relative, resolve),
             match PhotoTime(f).value
             case Some(t) => Some(InstantOf(t))
             case None => None)
  }

  /** The table's rows before sorting, one per photo in iteration order. */
  function Rows(items: seq<PhotoFile>, relative: bool, resolve: Path -> string): (rows: seq<PhotoRow>)
    requires forall i :: 0 <= i < |items| ==> PhotoTime(items[i]).Ok?
    ensures |rows| == |items|
    ensures forall i :: 0 <= i < |items| ==> rows[i] == RowOf(items[i], relative, resolve)
  {
    if items == [] then []
    else [RowOf(items[0], relative, resolve)] + Rows(items[1..], relative, resolve)
  }

  function RowTime(row: PhotoRow): Option<Instant>
  {
    row.time
  }

  /** `df`: one row per yielded photo, sorted by time with the rows without
      a time last. Any photo whose time raises makes the whole table raise. */
  function Df(items: seq<PhotoFile>, relative: bool, resolve: Path -> string): (r: Result<seq<PhotoRow>>)
    ensures r.Err? <==> exists i :: 0 <= i < |items| && PhotoTime(items[i]).Err?
    ensures r.Ok? ==> |r.value| == |items| && NaLastSorted(r.value, RowTime)
  {
    FirstErrorIsFirst(items, PhotoTime);
    match FirstError(items, PhotoTime)
    case Some(e) => Err(e)
    case None => Ok(SortValues(Rows(items, relative, resolve), RowTime))
  }

  /** `df_with_time`: the rows of `df` that have a time. */
  function DfWithTime(items: seq<PhotoFile>, relative: bool, resolve: Path -> string): (r: Result<seq<PhotoRow>>)
    ensures r.Err? <==> Df(items, relative, resolve).Err?
    ensures r.Ok? ==> forall i :: 0 <= i < |r.value| ==> r.value[i].time.Some?
    ensures r.Ok? ==> SortedBy(r.value, TimeKey(RowTime))
  {
    match Df(items, relative, resolve)
    case Err(e) => Err(e)
    case Ok(df) =>
      TimedRows(df, RowTime);
      Ok(Filter(df, Timed(RowTime)))
  }

  /** `df_without_time`: the rows of `df` without a time. */
  function DfWithoutTime(items: seq<PhotoFile>, relative: bool, resolve: Path -> string): (r: Result<seq<PhotoRow>>)
    ensures r.Err? <==> Df(items, relative, resolve).Err?
    ensures r.Ok? ==> forall i :: 0 <= i < |r.value| ==> r.value[i].time.None?
  {
    match Df(items, relative, resolve)
    case Err(e) => Err(e)
    case Ok(df) => Ok(Filter(df, Not(Timed(RowTime))))
  }

  /** `df` holds exactly one row per yielded photo: sorting neither drops nor duplicates rows. */
  lemma DfIsPermutation(items: seq<PhotoFile>, relative: bool, resolve: Path -> string)
    requires Df(items, relative, resolve).Ok?
    ensures multiset(Df(items, relative, resolve).value) == multiset(Rows(items, relative, resolve))
  {
  }

  /** The rows with a time, followed by the rows without one, are exactly
      `df`, and there is one row with a time per photo with a time. */
  lemma DfPartition(items: seq<PhotoFile>, relative: bool, resolve: Path -> string)
    requires Df(items, relative, resolve).Ok?
    ensures DfWithTime(items, relative, resolve).value + DfWithoutTime(items, relative, resolve).value
            == Df(items, relative, resolve).value
    ensures |DfWithTime(items, relative, resolve).value| == |Filter(items, HasTime)|
  {
    SortValuesSplit(Rows(items, relative, resolve), RowTime);
    TimedRowsCount(items, relative, resolve);
  }

  lemma {:induction false} TimedRowsCount(items: seq<PhotoFile>, relative: bool, resolve: Path -> string)
    requires forall i :: 0 <= i < |items| ==> PhotoTime(items[i]).Ok?
    ensures |Filter(Rows(items, relative, resolve), Timed(RowTime))| == |Filter(items, HasTime)|
  {
    if items != [] {
      var rows := Rows(items, relative, resolve);
      TimedRowsCount(items[1..], relative, resolve);
      assert rows[1..] == Rows(items[1..], relative, resolve);
      assert rows[0] == RowOf(items[0], relative, resolve);
      assert Timed(RowTime)(rows[0]) == HasTime(items[0]);
      assert Filter(rows, Timed(RowTime))
             == (if Timed(RowTime)(rows[0]) then [rows[0]] else []) + Filter(rows[1..], Timed(RowTime));
      assert Filter(items, HasTime) == (if HasTime(items[0]) then [items[0]] else []) + Filter(items[1..], HasTime);
    }
  }
}
