/**
 * The metadata extractor `get_comments_info`: it reads the GPS directory and
 * the original capture time from an image's EXIF dictionary, answers "not
 * available" when either is missing, and otherwise returns the two decimal
 * coordinates, the capture date and time of day, and a bearing.
 *
 * Opening the image, the DMS-to-decimal conversion and the bearing formula are
 * outside the model: the EXIF read is an input and the two numeric routines are
 * the functions of a `Numerics` record.
 */
module Metadata {
  import opened Wrappers
  import opened Strings

  /** EXIF tag of the GPS directory (GPSInfo). */
  const GpsInfoTag := 34853
  /** EXIF tag of the capture time (DateTimeOriginal). */
  const DateTimeOriginalTag := 36867
  /** Tags of the latitude and longitude inside the GPS directory. */
  const GpsLatitudeTag := 2
  const GpsLongitudeTag := 4

  /** A value of the EXIF dictionary as PIL decodes it. */
  datatype ExifValue =
    | Directory(entries: map<int, ExifValue>)
    | Text(text: string)
    | Number(n: int)
    | Rationals(items: seq<(int, int)>)

  type ExifDict = map<int, ExifValue>

  /** What opening an image and calling `_getexif()` on it gives. */
  datatype ExifRead =
    | Unreadable                    // the image could not be opened: the call raises
    | Exif(info: Option<ExifDict>)  // `_getexif()` returned a dictionary or `None`

  /**
   * The numeric routines the extractor calls: `ToDecimal` stands for
   * `get_decimal_from_dms` (`None` when it raises, e.g. on a zero denominator),
   * `BearingToOrigin(lat, lon)` for `calculate_initial_compass_bearing(lat, lon, 0.0, 0.0)`.
   */
  datatype Numerics = Numerics(
    ToDecimal: ExifValue -> Option<real>,
    BearingToOrigin: (real, real) -> real)

  /** The tuple `(cord1, cord2, date_month_year, hour_min_second, angle)`. */
  datatype CommentsInfo = CommentsInfo(lat: real, lon: real, date: string, time: string, bearing: real)

  /** The three outcomes of `get_comments_info`: a tuple, `None`, or an exception. */
  datatype Extraction = Info(info: CommentsInfo) | Unavailable | Raised

  /**
   * Splits a `DateTimeOriginal` text such as `2025:11:24 10:23:45` as
   * `s.split(" ")` does: the date is the first field with every `:` turned
   * into `-`, the time of day is the second field, or empty when there is none.
   */
  function SplitDateTime(s: string): (r: (string, string))
    ensures ':' !in r.0 && ' ' !in r.0
    ensures ' ' !in r.1
    ensures ' ' !in s ==> r.1 == ""
  {
    var parts := SplitOn(s, ' ');
    ReplaceCharSpaceFree(parts[0]);
    (ReplaceChar(parts[0], ':', '-'), if |parts| > 1 then parts[1] else "")
  }

  lemma ReplaceCharSpaceFree(s: string)
    requires ' ' !in s
    ensures ' ' !in ReplaceChar(s, ':', '-')
  {
    var r := ReplaceChar(s, ':', '-');
    forall i | 0 <= i < |r| ensures r[i] != ' ' {
      assert s[i] != ' ';
    }
  }

  /**
   * For space-free fields, a text made of a date, a time and any further
   * fields splits into the date with `-` for `:` and the time; a text made of
   * the date alone gives an empty time.
   */
  lemma SplitDateTimeFields(date: string, time: string, more: seq<string>)
    requires ' ' !in date && ' ' !in time
    requires forall i :: 0 <= i < |more| ==> ' ' !in more[i]
    ensures SplitDateTime(JoinWith([date, time] + more, ' ')) == (ReplaceChar(date, ':', '-'), time)
    ensures SplitDateTime(date) == (ReplaceChar(date, ':', '-'), "")
  {
    var parts := [date, time] + more;
    forall i | 0 <= i < |parts| ensures ' ' !in parts[i] {
      if i >= 2 { assert parts[i] == more[i - 2]; }
    }
    SplitJoin(parts, ' ');
    SplitJoin([date], ' ');
  }

  /** The example from the source's comment. */
  lemma SplitDateTimeExample()
    ensures SplitDateTime("2025:11:24 10:23:45") == ("2025-11-24", "10:23:45")
  {
    var date, time := "2025:11:24", "10:23:45";
    assert ' ' !in date && ' ' !in time by {}
    assert JoinWith([date, time] + [], ' ') == "2025:11:24 10:23:45" by {
      assert [date, time] + [] == [date, time];
    }
    assert ReplaceChar(date, ':', '-') == "2025-11-24" by {}
    SplitDateTimeFields(date, time, []);
  }

  /** `img._getexif() or {}`: a missing dictionary reads as an empty one. */
  function InfoOrEmpty(e: Option<ExifDict>): (info: ExifDict)
    ensures forall tag :: tag in info <==> e.Some? && tag in e.value
    ensures forall tag :: tag in info ==> info[tag] == e.value[tag]
  {
    if e.Some? then e.value else map[]
  }

  /** `get_comments_info` applied to the EXIF read of one image. */
  function GetCommentsInfo(read: ExifRead, env: Numerics): (r: Extraction)
    ensures r.Unavailable? <==>
      read.Exif? && (GpsInfoTag !in InfoOrEmpty(read.info) || DateTimeOriginalTag !in InfoOrEmpty(read.info))
    ensures r.Info? ==> ':' !in r.info.date && ' ' !in r.info.time
    ensures r.Info? ==> r.info.bearing == env.BearingToOrigin(r.info.lat, r.info.lon)
  {
    match read
    case Unreadable => Raised
    case Exif(e) =>
      var info := InfoOrEmpty(e);
      if GpsInfoTag !in info || DateTimeOriginalTag !in info then Unavailable
      else if !info[GpsInfoTag].Directory? then Raised
      else
        var gps := info[GpsInfoTag].entries;
        if GpsLatitudeTag !in gps || GpsLongitudeTag !in gps then Raised
        else
          var lat, lon := env.ToDecimal(gps[GpsLatitudeTag]), env.ToDecimal(gps[GpsLongitudeTag]);
          if lat.None? || lon.None? || !info[DateTimeOriginalTag].Text? then Raised
          else
            var dt := SplitDateTime(info[DateTimeOriginalTag].text);
            Info(CommentsInfo(lat.value, lon.value, dt.0, dt.1, env.BearingToOrigin(lat.value, lon.value)))
  }

  /**
   * With both tags present and well formed, the extractor returns the decoded
   * coordinates and the split capture time.
   */
  lemma GetCommentsInfoPresent(info: ExifDict, env: Numerics, gps: map<int, ExifValue>, stamp: string)
    requires GpsInfoTag in info && info[GpsInfoTag] == Directory(gps)
    requires DateTimeOriginalTag in info && info[DateTimeOriginalTag] == Text(stamp)
    requires GpsLatitudeTag in gps && GpsLongitudeTag in gps
    requires env.ToDecimal(gps[GpsLatitudeTag]).Some? && env.ToDecimal(gps[GpsLongitudeTag]).Some?
    ensures
      var lat, lon := env.ToDecimal(gps[GpsLatitudeTag]).value, env.ToDecimal(gps[GpsLongitudeTag]).value;
      GetCommentsInfo(Exif(Some(info)), env) ==
        Info(CommentsInfo(lat, lon, SplitDateTime(stamp).0, SplitDateTime(stamp).1, env.BearingToOrigin(lat, lon)))
  {
  }
}
