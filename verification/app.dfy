/**
 * The batch driver of `app.py`: reading the rotation hint from EXIF, the
 * HEIC-to-JPEG file name, the directory scan that lists images in a sheet,
 * and the loops that render one overlay per sheet row.
 *
 * The disk is an input (`Disk`): what opening a path and reading its EXIF
 * gives, and whether a HEIC conversion manages to write its JPEG. The
 * spreadsheet library is reduced to the rows it holds.
 */
module App {
  import opened Wrappers
  import opened Strings
  import opened OsPath
  import opened Metadata
  import opened Overlay

  /** The EXIF tag PIL names `Orientation` (0x0112). */
  const OrientationTag := 274

  /** What `get_image_rotation` returns: an angle, or the text `"No EXIF data found"`. */
  datatype Rotation = Degrees(angle: int) | NoExifData

  const NoExifText := "No EXIF data found"

  /** What the program sees of the file system. */
  datatype Disk = Disk(ExifOf: string -> ExifRead, HeicSaves: string -> bool)

  /** `rotation_map.get(orientation, 0)` with the map {1: 0, 3: 180, 6: 270, 8: 90}. */
  function OrientationAngle(orientation: Option<ExifValue>): (angle: int)
    ensures angle in {0, 90, 180, 270}
  {
    match orientation
    case Some(Number(1)) => 0
    case Some(Number(3)) => 180
    case Some(Number(6)) => 270
    case Some(Number(8)) => 90
    case _ => 0
  }

  /**
   * `get_image_rotation` on the EXIF dictionary of an opened image: the
   * sentinel when there is no dictionary or it is empty, otherwise the angle
   * of its orientation tag, 0 when the tag is missing or not one of 1, 3, 6, 8.
   */
  function GetImageRotation(exif: Option<ExifDict>): (r: Rotation)
    ensures r == NoExifData <==> exif.None? || |exif.value| == 0
    ensures r.Degrees? ==> r.angle in {0, 90, 180, 270}
  {
    if exif.None? || |exif.value| == 0 then NoExifData
    else Degrees(OrientationAngle(if OrientationTag in exif.value then Some(exif.value[OrientationTag]) else None))
  }

  /** The four recognised orientations, and 0 for any other value of the tag. */
  lemma OrientationTable(exif: ExifDict)
    requires |exif| > 0
    ensures OrientationTag in exif && exif[OrientationTag] == Number(1) ==> GetImageRotation(Some(exif)) == Degrees(0)
    ensures OrientationTag in exif && exif[OrientationTag] == Number(3) ==> GetImageRotation(Some(exif)) == Degrees(180)
    ensures OrientationTag in exif && exif[OrientationTag] == Number(6) ==> GetImageRotation(Some(exif)) == Degrees(270)
    ensures OrientationTag in exif && exif[OrientationTag] == Number(8) ==> GetImageRotation(Some(exif)) == Degrees(90)
    ensures (OrientationTag !in exif || exif[OrientationTag] !in {Number(1), Number(3), Number(6), Number(8)})
              ==> GetImageRotation(Some(exif)) == Degrees(0)
  {
  }

  /**
   * `os.path.splitext(image_path)[0] + '.jpg'`: the extension, if the path
   * has one, is replaced by `.jpg`; otherwise `.jpg` is appended.
   */
  function HeicToJpgPath(path: string): (r: string)
    ensures Ext(path) != "" ==> r == path[..|path| - |Ext(path)|] + ".jpg"
    ensures Ext(path) == "" ==> r == path + ".jpg"
  {
    assert Root(path) == path[..|path| - |Ext(path)|];
    Root(path) + ".jpg"
  }

  /**
   * `convert_heic_to_jpg`: the JPEG path when the image could be opened and
   * saved, `None` when the conversion raised (the exception is caught and the
   * function falls off its end).
   */
  function ConvertHeicToJpg(path: string, saved: bool): (r: Option<string>)
    ensures r.Some? <==> saved
    ensures r.Some? ==> r.value == HeicToJpgPath(path) && EndsWith(Lower(r.value), ".jpg")
  {
    if saved then
      LowerAppend(Root(path), ".jpg");
      Some(HeicToJpgPath(path))
    else None
  }

  /**
   * For a path ending in `.heic` in any case, the JPEG path replaces those
   * five characters by `.jpg` when a character other than a dot or separator
   * precedes them in the last component (`photo.HEIC` becomes `photo.jpg`);
   * otherwise (`.heic`, `dir\..heic`) the name has no extension and `.jpg`
   * is appended.
   */
  lemma HeicToJpgReplacesSuffix(path: string)
    requires EndsWith(Lower(path), ".heic")
    ensures StemBefore(path, |path| - 5) ==>
      Ext(path) == path[|path| - 5..] && HeicToJpgPath(path) == path[..|path| - 5] + ".jpg"
    ensures !StemBefore(path, |path| - 5) ==> Ext(path) == "" && HeicToJpgPath(path) == path + ".jpg"
  {
    var n := |path|;
    var tail := path[n - 5..];
    assert Lower(tail) == ".heic" by {
      assert Lower(path)[n - 5..] == ".heic";
      forall i | 0 <= i < 5 ensures Lower(tail)[i] == Lower(path)[n - 5 + i] { }
    }
    forall i | 0 <= i < 5 ensures LowerChar(tail[i]) == ".heic"[i] {
      assert Lower(tail)[i] == LowerChar(tail[i]);
    }
    assert IsDot(tail[0]);
    forall i | 1 <= i < 5 ensures !IsDot(tail[i]) && !IsSep(tail[i]) {
      assert LowerChar(tail[i]) != '.';
    }
    assert LastIndexWhere(tail, IsDot) == 0;
    assert LastIndexWhere(tail, IsSep) == -1;
    assert path == path[..n - 5] + tail;
    LastIndexAppend(path[..n - 5], tail, IsDot);
    LastIndexAppend(path[..n - 5], tail, IsSep);
    assert Ext(path) == tail || Ext(path) == "";
    assert path[n - 4..] == tail[1..];
    assert NoDotNoSep(tail[1..]) by {
      forall i | 0 <= i < 4 ensures tail[1..][i] == tail[i + 1] { }
    }
    assert IsDot(path[n - 5]);
  }

  /** A spreadsheet cell. */
  datatype Cell = Str(s: string) | Int(i: int)

  type SheetLine = seq<Cell>

  /** The header row `ws.append(columns)` writes first. */
  const Header: SheetLine := [Str("image_path"), Str("glocation"), Str("component"), Str("defect_line1"),
                              Str("defect_line2"), Str("idd"), Str("rotation")]

  function RotationCell(r: Rotation): Cell
  {
    match r
    case Degrees(a) => Int(a)
    case NoExifData => Str(NoExifText)
  }

  /** A data row: seven cells, the five annotation cells empty. */
  predicate IsDataLine(r: SheetLine)
  {
    |r| == |Header| && r[1..6] == [Str(""), Str(""), Str(""), Str(""), Str("")]
  }

  /** `[image_path, '', '', '', '', '', rotation]`: the path first, the rotation last. */
  function DataRow(path: string, r: Rotation): (row: SheetLine)
    ensures IsDataLine(row) && row[0] == Str(path) && row[|row| - 1] == RotationCell(r)
  {
    [Str(path), Str(""), Str(""), Str(""), Str(""), Str(""), RotationCell(r)]
  }

  predicate IsBareName(name: string)
  {
    forall k :: 0 <= k < |name| ==> !IsSep(name[k]) && name[k] != ':'
  }

  /**
   * One `if image_path.lower().endswith(suffix)` block of the scan: no row when
   * the suffix does not match, else a row with the image's rotation; `None`
   * when the image cannot be opened to read it.
   */
  function RowIf(selected: bool, path: string, disk: Disk): Option<seq<SheetLine>>
  {
    if !selected then Some([])
    else
      match disk.ExifOf(path)
      case Unreadable => None
      case Exif(e) => Some([DataRow(path, GetImageRotation(e))])
  }

  /**
   * The path a directory entry is processed under: the joined path, or for a
   * name ending in `.heic` the result of its conversion, `None` when that
   * conversion failed.
   */
  function ListedPath(directory: string, file: string, disk: Disk): Option<string>
    requires IsBareName(file)
  {
    var path := Join(directory, file);
    if EndsWith(Lower(file), ".heic") then ConvertHeicToJpg(path, disk.HeicSaves(path)) else Some(path)
  }

  /**
   * The `.jpg` block and the `.jpeg` block of the scan loop for one path:
   * the rows they append, `None` when reading the rotation raises.
   */
  function ImageRows(p: string, disk: Disk): Option<seq<SheetLine>>
  {
    var jpg := RowIf(EndsWith(Lower(p), ".jpg"), p, disk);
    if jpg.None? then None
    else
      var jpeg := RowIf(EndsWith(Lower(p), ".jpeg"), p, disk);
      if jpeg.None? then None else Some(jpg.value + jpeg.value)
  }

  /**
   * The body of the scan loop for one directory entry: the rows of its listed
   * path, `None` when the step raises, which includes a failed conversion,
   * whose `None` result has no `lower()`.
   */
  function FileRows(directory: string, file: string, disk: Disk): Option<seq<SheetLine>>
    requires IsBareName(file)
  {
    var converted := ListedPath(directory, file, disk);
    if converted.None? then None else ImageRows(converted.value, disk)
  }

  /** No text ends in both `.jpg` and `.jpeg`. */
  lemma JpgJpegExclusive(s: string)
    ensures !(EndsWith(s, ".jpg") && EndsWith(s, ".jpeg"))
  {
    assert EndsWith(s, ".jpg") ==> s[|s| - 3] == ".jpg"[1];
    assert EndsWith(s, ".jpeg") ==> s[|s| - 3] == ".jpeg"[2];
  }

  /**
   * One `endswith` block: nothing when the suffix does not match; otherwise
   * it raises exactly when the image cannot be opened, and else appends the
   * path's data row with the image's rotation.
   */
  lemma RowIfShape(selected: bool, p: string, disk: Disk)
    ensures !selected ==> RowIf(selected, p, disk) == Some([])
    ensures selected ==> (RowIf(selected, p, disk).None? <==> disk.ExifOf(p).Unreadable?)
    ensures selected && RowIf(selected, p, disk).Some? ==>
      RowIf(selected, p, disk).value == [DataRow(p, GetImageRotation(disk.ExifOf(p).info))]
  {
  }

  /**
   * The path an entry is processed under: the joined path for a name not
   * ending in `.heic`; for a HEIC name, the JPEG path exactly when the
   * conversion saved it, and that path ends in `.jpg`.
   */
  lemma ListedPathCases(directory: string, file: string, disk: Disk)
    requires IsBareName(file)
    ensures !EndsWith(Lower(file), ".heic") ==> ListedPath(directory, file, disk) == Some(Join(directory, file))
    ensures EndsWith(Lower(file), ".heic") ==>
      (ListedPath(directory, file, disk).Some? <==> disk.HeicSaves(Join(directory, file)))
    ensures EndsWith(Lower(file), ".heic") && ListedPath(directory, file, disk).Some? ==>
      var p := ListedPath(directory, file, disk).value;
      p == HeicToJpgPath(Join(directory, file)) && EndsWith(Lower(p), ".jpg")
  {
  }

  /** The two `endswith` blocks raise exactly for a JPEG name whose image cannot be opened. */
  lemma ImageRowsRaises(p: string, disk: Disk)
    ensures ImageRows(p, disk).None? <==>
      (EndsWith(Lower(p), ".jpg") || EndsWith(Lower(p), ".jpeg")) && disk.ExifOf(p).Unreadable?
  {
    RowIfShape(EndsWith(Lower(p), ".jpg"), p, disk);
    RowIfShape(EndsWith(Lower(p), ".jpeg"), p, disk);
  }

  /**
   * An entry not ending in `.heic` is processed under its joined path; a HEIC
   * entry raises exactly when its conversion fails or the converted JPEG
   * cannot be opened.
   */
  lemma FileRowsRaises(directory: string, file: string, disk: Disk)
    requires IsBareName(file)
    ensures !EndsWith(Lower(file), ".heic") ==> FileRows(directory, file, disk) == ImageRows(Join(directory, file), disk)
    ensures EndsWith(Lower(file), ".heic") ==>
      (FileRows(directory, file, disk).None? <==>
         !disk.HeicSaves(Join(directory, file)) || disk.ExifOf(HeicToJpgPath(Join(directory, file))).Unreadable?)
  {
    ListedPathCases(directory, file, disk);
    if EndsWith(Lower(file), ".heic") && disk.HeicSaves(Join(directory, file)) {
      ImageRowsRaises(HeicToJpgPath(Join(directory, file)), disk);
    }
  }

  /**
   * A path gives at most one row; it gives one exactly when it ends in `.jpg`
   * or `.jpeg` in any case, and that row is `[path, '', '', '', '', '', rotation]`.
   */
  lemma ImageRowsAtMostOne(p: string, disk: Disk)
    requires ImageRows(p, disk).Some?
    ensures var rows := ImageRows(p, disk).value;
      |rows| <= 1 &&
      (|rows| == 1 <==> EndsWith(Lower(p), ".jpg") || EndsWith(Lower(p), ".jpeg")) &&
      (|rows| == 1 ==> disk.ExifOf(p).Exif? && rows[0] == DataRow(p, GetImageRotation(disk.ExifOf(p).info)))
    ensures forall r :: r in ImageRows(p, disk).value ==> IsDataLine(r)
  {
    var jpg, jpeg := EndsWith(Lower(p), ".jpg"), EndsWith(Lower(p), ".jpeg");
    JpgJpegExclusive(Lower(p));
    RowIfShape(jpg, p, disk);
    RowIfShape(jpeg, p, disk);
    assert ImageRows(p, disk).value == RowIf(jpg, p, disk).value + RowIf(jpeg, p, disk).value;
  }

  /**
   * Each directory entry that does not raise is listed under a path and gives
   * at most one row, of that path; a HEIC file that converts always gives one.
   */
  lemma FileRowsAtMostOne(directory: string, file: string, disk: Disk)
    requires IsBareName(file)
    requires FileRows(directory, file, disk).Some?
    ensures ListedPath(directory, file, disk).Some?
    ensures var p := ListedPath(directory, file, disk).value;
      FileRows(directory, file, disk) == ImageRows(p, disk) && |ImageRows(p, disk).value| <= 1
    ensures forall r :: r in FileRows(directory, file, disk).value ==> IsDataLine(r)
    ensures EndsWith(Lower(file), ".heic") ==> |FileRows(directory, file, disk).value| == 1
  {
    var p := ListedPath(directory, file, disk).value;
    ImageRowsAtMostOne(p, disk);
  }

  /** The rows the scan appends for `files`, in order, or `None` if a step raises. */
  function ScanRows(directory: string, files: seq<string>, disk: Disk): Option<seq<SheetLine>>
    requires forall k :: 0 <= k < |files| ==> IsBareName(files[k])
  {
    if files == [] then Some([])
    else
      var first := FileRows(directory, files[0], disk);
      var rest := ScanRows(directory, files[1..], disk);
      if first.None? || rest.None? then None else Some(first.value + rest.value)
  }

  /**
   * One step of the scan: a first entry that completes leaves the outcome to
   * the rest, whose rows follow its own.
   */
  lemma ScanStep(directory: string, files: seq<string>, disk: Disk, before: seq<SheetLine>)
    requires forall j :: 0 <= j < |files| ==> IsBareName(files[j])
    requires |files| > 0
    ensures FileRows(directory, files[0], disk).None? ==> ScanRows(directory, files, disk).None?
    ensures FileRows(directory, files[0], disk).Some? ==>
      (ScanRows(directory, files, disk).Some? <==> ScanRows(directory, files[1..], disk).Some?) &&
      (ScanRows(directory, files, disk).Some? ==>
         before + ScanRows(directory, files, disk).value
         == (before + FileRows(directory, files[0], disk).value) + ScanRows(directory, files[1..], disk).value)
  {
    var first, rest := FileRows(directory, files[0], disk), ScanRows(directory, files[1..], disk);
    if first.Some? && rest.Some? {
      var a, b := first.value, rest.value;
      assert ScanRows(directory, files, disk) == Some(a + b);
      assert before + (a + b) == (before + a) + b;
    }
  }

  /** Every step of a completed scan completes. */
  lemma {:induction false} ScanCompletesEachStep(directory: string, files: seq<string>, disk: Disk, k: int)
    requires forall j :: 0 <= j < |files| ==> IsBareName(files[j])
    requires ScanRows(directory, files, disk).Some? && 0 <= k < |files|
    ensures FileRows(directory, files[k], disk).Some?
  {
    if k > 0 {
      ScanCompletesEachStep(directory, files[1..], disk, k - 1);
      assert files[1..][k - 1] == files[k];
    }
  }

  /** A scan whose every step completes completes. */
  lemma {:induction false} ScanCompletesWhenStepsDo(directory: string, files: seq<string>, disk: Disk)
    requires forall j :: 0 <= j < |files| ==> IsBareName(files[j])
    requires forall j :: 0 <= j < |files| ==> FileRows(directory, files[j], disk).Some?
    ensures ScanRows(directory, files, disk).Some?
  {
    if files != [] {
      var rest := files[1..];
      assert forall j :: 0 <= j < |rest| ==> rest[j] == files[j + 1];
      ScanCompletesWhenStepsDo(directory, rest, disk);
      assert FileRows(directory, files[0], disk).Some?;
    }
  }

  /** The scan completes exactly when no entry's step raises. */
  lemma ScanCompletes(directory: string, files: seq<string>, disk: Disk)
    requires forall k :: 0 <= k < |files| ==> IsBareName(files[k])
    ensures ScanRows(directory, files, disk).Some? <==> forall k :: 0 <= k < |files| ==> FileRows(directory, files[k], disk).Some?
  {
    if ScanRows(directory, files, disk).Some? {
      forall k | 0 <= k < |files| ensures FileRows(directory, files[k], disk).Some? {
        ScanCompletesEachStep(directory, files, disk, k);
      }
    } else if forall k :: 0 <= k < |files| ==> FileRows(directory, files[k], disk).Some? {
      ScanCompletesWhenStepsDo(directory, files, disk);
    }
  }

  /** A completed scan has at most one row per entry, each a data row. */
  lemma {:induction false} ScanRowsShape(directory: string, files: seq<string>, disk: Disk)
    requires forall k :: 0 <= k < |files| ==> IsBareName(files[k])
    requires ScanRows(directory, files, disk).Some?
    ensures |ScanRows(directory, files, disk).value| <= |files|
    ensures forall r :: r in ScanRows(directory, files, disk).value ==> IsDataLine(r)
  {
    if files != [] {
      ScanRowsShape(directory, files[1..], disk);
      FileRowsAtMostOne(directory, files[0], disk);
    }
  }

  /**
   * One `if image_path.lower().endswith(suffix)` block, given whether the
   * suffix matched: the rows it appends, `None` when opening the image raises.
   */
  method ReadRowIf(selected: bool, imagePath: string, disk: Disk) returns (rows: Option<seq<SheetLine>>)
    ensures rows == RowIf(selected, imagePath, disk)
  {
    rows := Some([]);
    if selected {
      var read := disk.ExifOf(imagePath);
      if read.Unreadable? {
        return None;
      }
      var rotation := GetImageRotation(read.info);
      rows := Some([DataRow(imagePath, rotation)]);
    }
  }

  /** The `.jpg` block and then the `.jpeg` block of the scan loop for one path. */
  method ReadImageRows(imagePath: string, disk: Disk) returns (rows: Option<seq<SheetLine>>)
    ensures rows == ImageRows(imagePath, disk)
  {
    var jpgRows := ReadRowIf(EndsWith(Lower(imagePath), ".jpg"), imagePath, disk);
    if jpgRows.None? {
      return None;
    }
    var jpegRows := ReadRowIf(EndsWith(Lower(imagePath), ".jpeg"), imagePath, disk);
    if jpegRows.None? {
      return None;
    }
    rows := Some(jpgRows.value + jpegRows.value);
  }

  /**
   * The body of the scan loop for one directory entry: the rows it appends to
   * the sheet, `None` when it raises.
   */
  method ScanFile(directory: string, file: string, disk: Disk) returns (rows: Option<seq<SheetLine>>)
    requires IsBareName(file)
    ensures rows == FileRows(directory, file, disk)
  {
    var fileLower := Lower(file);
    var imagePath := Join(directory, file);
    if EndsWith(fileLower, ".heic") {
      var converted := ConvertHeicToJpg(imagePath, disk.HeicSaves(imagePath));
      if converted.None? {
        return None;
      }
      imagePath := converted.value;
    }
    assert ListedPath(directory, file, disk) == Some(imagePath);
    rows := ReadImageRows(imagePath, disk);
  }

  /** The scan loop's invariant carried over one entry of the listing. */
  lemma ScanAdvance(directory: string, listing: seq<string>, disk: Disk, i: int, done: seq<SheetLine>,
                    rows: Option<seq<SheetLine>>)
    requires forall k :: 0 <= k < |listing| ==> IsBareName(listing[k])
    requires 0 <= i < |listing| && rows == FileRows(directory, listing[i], disk)
    requires ScanRows(directory, listing, disk).Some? <==> ScanRows(directory, listing[i..], disk).Some?
    requires ScanRows(directory, listing, disk).Some? ==>
      ScanRows(directory, listing, disk).value == done + ScanRows(directory, listing[i..], disk).value
    ensures rows.None? ==> ScanRows(directory, listing, disk).None?
    ensures rows.Some? ==>
      (ScanRows(directory, listing, disk).Some? <==> ScanRows(directory, listing[i + 1..], disk).Some?) &&
      (ScanRows(directory, listing, disk).Some? ==>
         ScanRows(directory, listing, disk).value == (done + rows.value) + ScanRows(directory, listing[i + 1..], disk).value)
  {
    assert listing[i..][1..] == listing[i + 1..];
    assert listing[i..][0] == listing[i];
    ScanStep(directory, listing[i..], disk, done);
  }

  /**
   * `scan_and_write_excel`: the header row, then the rows of each directory
   * entry in listing order; `None` when a step raised, in which case the
   * workbook is never saved.
   */
  method ScanAndWriteExcel(directory: string, listing: seq<string>, disk: Disk) returns (sheet: Option<seq<SheetLine>>)
    requires forall k :: 0 <= k < |listing| ==> IsBareName(listing[k])
    ensures sheet.Some? <==> ScanRows(directory, listing, disk).Some?
    ensures sheet.Some? ==> sheet.value == [Header] + ScanRows(directory, listing, disk).value
  {
    var ws := [Header];
    assert listing[0..] == listing && ws[1..] == [];
    for i := 0 to |listing|
      invariant |ws| >= 1 && ws[0] == Header
      invariant ScanRows(directory, listing, disk).Some? <==> ScanRows(directory, listing[i..], disk).Some?
      invariant ScanRows(directory, listing, disk).Some? ==>
        ScanRows(directory, listing, disk).value == ws[1..] + ScanRows(directory, listing[i..], disk).value
    {
      var rows := ScanFile(directory, listing[i], disk);
      ScanAdvance(directory, listing, disk, i, ws[1..], rows);
      if rows.None? {
        return None;
      }
      assert (ws + rows.value)[1..] == ws[1..] + rows.value;
      ws := ws + rows.value;
    }
    sheet := Some(ws);
  }

  /** A data row as pandas reads it back. */
  datatype SheetRow = SheetRow(imagePath: string, annotation: Annotation, rotation: Rotation)

  datatype Variant = Standardized | Partial

  /** One call of a renderer: the variant, the image it opens, the metadata, the annotation and the output name. */
  datatype RenderCall = RenderCall(variant: Variant, imagePath: string, info: CommentsInfo, annotation: Annotation, outputName: string)

  /** The hard-coded tuple used when extraction fails. */
  const Fallback := CommentsInfo(32.25315, 115.76708, "2024:06:12", "2024:06:12", -75.0)

  /**
   * `if row['rotation'] != 0: image_path = copy_and_rotate(...)`: the image
   * path the rest of the row uses; `None` when the copy raises, which it does
   * for an unreadable image and for the sentinel text, a string PIL cannot
   * rotate by.
   */
  function PathAfterRotation(row: SheetRow, disk: Disk): Option<string>
  {
    match row.rotation
    case Degrees(a) =>
      if a == 0 then Some(row.imagePath)
      else if disk.ExifOf(row.imagePath).Unreadable? then None
      else Some(RotatedCopyName(row.imagePath))
    case NoExifData => None
  }

  /**
   * One iteration of `process_images_from_excel_with_rotation` (or of the
   * partial variant): rotate if asked, extract, fall back on any failure of
   * the extraction, then render. `None` when the iteration raises, which ends
   * the batch.
   */
  function RowCall(row: SheetRow, variant: Variant, disk: Disk, numerics: Numerics): Option<RenderCall>
  {
    var path := PathAfterRotation(row, disk);
    if path.None? then None
    else
      var p := path.value;
      var info := match GetCommentsInfo(disk.ExifOf(p), numerics)
                  case Info(i) => i
                  case _ => Fallback;
      if disk.ExifOf(p).Unreadable? then None
      else Some(RenderCall(variant, p, info, row.annotation, OutputImageName(row.annotation)))
  }

  /**
   * The rotation step: a row whose rotation cell holds the no-EXIF text
   * raises; an angle of 0 keeps the image path; any other angle gives the
   * rotated copy's name, and raises exactly when the image cannot be opened.
   */
  lemma PathAfterRotationCases(row: SheetRow, disk: Disk)
    ensures row.rotation == NoExifData ==> PathAfterRotation(row, disk).None?
    ensures row.rotation == Degrees(0) ==> PathAfterRotation(row, disk) == Some(row.imagePath)
    ensures row.rotation.Degrees? && row.rotation.angle != 0 ==>
      (PathAfterRotation(row, disk).None? <==> disk.ExifOf(row.imagePath).Unreadable?) &&
      (PathAfterRotation(row, disk).Some? ==> PathAfterRotation(row, disk).value == RotatedCopyName(row.imagePath))
  {
  }

  /**
   * One guarded iteration raises exactly when the rotation step raises or
   * the image it leads to cannot be opened; otherwise it renders that image
   * in the requested variant with the row's annotation and output name, and
   * with the extracted metadata whenever there is any.
   */
  lemma RowCallCases(row: SheetRow, variant: Variant, disk: Disk, numerics: Numerics)
    ensures var path := PathAfterRotation(row, disk);
      RowCall(row, variant, disk, numerics).None? <==> path.None? || disk.ExifOf(path.value).Unreadable?
    ensures RowCall(row, variant, disk, numerics).Some? ==>
      var c := RowCall(row, variant, disk, numerics).value;
      var extracted := GetCommentsInfo(disk.ExifOf(c.imagePath), numerics);
      PathAfterRotation(row, disk) == Some(c.imagePath) && c.variant == variant &&
      c.annotation == row.annotation && c.outputName == OutputImageName(row.annotation) &&
      (extracted.Info? ==> c.info == extracted.info)
  {
  }

  /**
   * A batch loop over sheet rows in which each row either renders one call or
   * raises, which ends the batch: the calls of the rows before the first that
   * raises, and whether every row rendered.
   */
  function RunBatch(rows: seq<SheetRow>, step: SheetRow -> Option<RenderCall>): (r: (seq<RenderCall>, bool))
    ensures |r.0| <= |rows|
    ensures r.1 <==> |r.0| == |rows|
  {
    if rows == [] then ([], true)
    else
      match step(rows[0])
      case None => ([], false)
      case Some(c) =>
        var rest := RunBatch(rows[1..], step);
        ([c] + rest.0, rest.1)
  }

  /**
   * A batch renders its rows in order and stops at the first row that raises:
   * call `i` is row `i`'s, and the batch is incomplete exactly when some row
   * raised, namely the row after the last call.
   */
  lemma {:induction false} RunBatchStopsAtFirstRaise(rows: seq<SheetRow>, step: SheetRow -> Option<RenderCall>)
    ensures var (calls, completed) := RunBatch(rows, step);
      (forall i :: 0 <= i < |calls| ==> step(rows[i]) == Some(calls[i])) &&
      (!completed ==> step(rows[|calls|]).None?)
  {
    if rows != [] && step(rows[0]).Some? {
      var rest := rows[1..];
      RunBatchStopsAtFirstRaise(rest, step);
      var calls := RunBatch(rows, step).0;
      assert calls == [step(rows[0]).value] + RunBatch(rest, step).0;
      forall i | 0 < i < |calls| ensures step(rows[i]) == Some(calls[i]) {
        assert rows[i] == rest[i - 1];
      }
      if |calls| < |rows| {
        assert rows[|calls|] == rest[|calls| - 1];
      }
    }
  }

  /** One iteration of a batch, seen from the calls made before it. */
  lemma RunBatchStep(rows: seq<SheetRow>, step: SheetRow -> Option<RenderCall>, before: seq<RenderCall>)
    requires |rows| > 0
    ensures step(rows[0]).None? ==> RunBatch(rows, step) == ([], false)
    ensures step(rows[0]).Some? ==>
      before + RunBatch(rows, step).0 == (before + [step(rows[0]).value]) + RunBatch(rows[1..], step).0 &&
      RunBatch(rows, step).1 == RunBatch(rows[1..], step).1
  {
    if step(rows[0]).Some? {
      var c, rest := step(rows[0]).value, RunBatch(rows[1..], step).0;
      assert RunBatch(rows, step).0 == [c] + rest;
      assert before + ([c] + rest) == (before + [c]) + rest;
    }
  }

  /**
   * The renderer receives the fallback tuple exactly when the extraction did
   * not produce one: every extracted date has `-` where the fallback date has `:`.
   */
  lemma FallbackExactlyOnFailure(row: SheetRow, variant: Variant, disk: Disk, numerics: Numerics)
    requires RowCall(row, variant, disk, numerics).Some?
    ensures var c := RowCall(row, variant, disk, numerics).value;
      c.info == Fallback <==> !GetCommentsInfo(disk.ExifOf(c.imagePath), numerics).Info?
  {
    assert Fallback.date[4] == ':';
  }

  /**
   * A row goes through only with an angle for a rotation hint; the rendered
   * image is the original exactly when the angle is 0, else the rotated copy,
   * which keeps the original's extension.
   */
  lemma RotationChoice(row: SheetRow, variant: Variant, disk: Disk, numerics: Numerics)
    ensures row.rotation == NoExifData ==> RowCall(row, variant, disk, numerics).None?
    ensures RowCall(row, variant, disk, numerics).Some? ==>
      var c := RowCall(row, variant, disk, numerics).value;
      row.rotation.Degrees? &&
      (c.imagePath == row.imagePath <==> row.rotation.angle == 0) &&
      (row.rotation.angle != 0 ==> c.imagePath == RotatedCopyName(row.imagePath) && Ext(c.imagePath) == Ext(row.imagePath))
  {
    var r := RotatedCopyName(row.imagePath);
    assert |r| != |row.imagePath|;
  }

  /** `RowCall` as the step of a batch. */
  function RotatingStep(variant: Variant, disk: Disk, numerics: Numerics): SheetRow -> Option<RenderCall>
  {
    row => RowCall(row, variant, disk, numerics)
  }

  /**
   * `process_images_from_excel_with_rotation` (`Standardized`) and
   * `process_partial_images_from_excel_with_rotation` (`Partial`): render each
   * row in order until an iteration raises.
   */
  method ProcessImagesWithRotation(rows: seq<SheetRow>, variant: Variant, disk: Disk, numerics: Numerics)
    returns (calls: seq<RenderCall>, completed: bool)
    ensures (calls, completed) == RunBatch(rows, RotatingStep(variant, disk, numerics))
  {
    ghost var step := RotatingStep(variant, disk, numerics);
    calls := [];
    assert rows[0..] == rows && [] + RunBatch(rows, step).0 == RunBatch(rows, step).0;
    for i := 0 to |rows|
      invariant RunBatch(rows, step) == (calls + RunBatch(rows[i..], step).0, RunBatch(rows[i..], step).1)
    {
      assert rows[i..][1..] == rows[i + 1..];
      RunBatchStep(rows[i..], step, calls);
      var row := rows[i];
      var imagePath := row.imagePath;
      if row.rotation != Degrees(0) {
        if row.rotation.NoExifData? || disk.ExifOf(imagePath).Unreadable? {
          assert step(row).None? && calls + [] == calls;
          return calls, false;
        }
        imagePath := RotatedCopyName(imagePath);
      }
      assert PathAfterRotation(row, disk) == Some(imagePath);
      var info;
      match GetCommentsInfo(disk.ExifOf(imagePath), numerics) {
        case Info(extracted) => info := extracted;
        case _ => info := Fallback;
      }
      if disk.ExifOf(imagePath).Unreadable? {
        assert step(row).None? && calls + [] == calls;
        return calls, false;
      }
      var call := RenderCall(variant, imagePath, info, row.annotation, OutputImageName(row.annotation));
      assert step(row) == Some(call);
      calls := calls + [call];
    }
    assert rows[|rows|..] == [] && calls + [] == calls;
    completed := true;
  }

  /**
   * One iteration of `process_images_from_excel`: no rotation and no guard, so
   * both a `None` from the extractor (whose unpacking raises) and an exception
   * end the batch.
   */
  function UnguardedRowCall(row: SheetRow, disk: Disk, numerics: Numerics): Option<RenderCall>
  {
    match GetCommentsInfo(disk.ExifOf(row.imagePath), numerics)
    case Info(i) => Some(RenderCall(Standardized, row.imagePath, i, row.annotation, OutputImageName(row.annotation)))
    case _ => None
  }

  /**
   * For a readable image with rotation 0, the guarded loop always renders the
   * row, and the unguarded loop stops at it exactly when the guarded one falls
   * back; otherwise both render the same call.
   */
  lemma GuardedVersusUnguarded(row: SheetRow, disk: Disk, numerics: Numerics)
    requires row.rotation == Degrees(0) && disk.ExifOf(row.imagePath).Exif?
    ensures RowCall(row, Standardized, disk, numerics).Some?
    ensures UnguardedRowCall(row, disk, numerics).None? <==> RowCall(row, Standardized, disk, numerics).value.info == Fallback
    ensures UnguardedRowCall(row, disk, numerics).Some? ==>
      UnguardedRowCall(row, disk, numerics) == RowCall(row, Standardized, disk, numerics)
  {
    FallbackExactlyOnFailure(row, Standardized, disk, numerics);
  }

  /**
   * One unguarded iteration renders exactly when extraction returns a tuple,
   * and then renders the row's own image with that tuple.
   */
  lemma UnguardedRowCallCases(row: SheetRow, disk: Disk, numerics: Numerics)
    ensures var extracted := GetCommentsInfo(disk.ExifOf(row.imagePath), numerics);
      (UnguardedRowCall(row, disk, numerics).Some? <==> extracted.Info?) &&
      (extracted.Info? ==>
         UnguardedRowCall(row, disk, numerics).value ==
         RenderCall(Standardized, row.imagePath, extracted.info, row.annotation, OutputImageName(row.annotation)))
  {
  }

  /** `UnguardedRowCall` as the step of a batch. */
  function UnguardedStep(disk: Disk, numerics: Numerics): SheetRow -> Option<RenderCall>
  {
    row => UnguardedRowCall(row, disk, numerics)
  }

  /** `process_images_from_excel`: render rows in order until one raises. */
  method ProcessImagesFromExcel(rows: seq<SheetRow>, disk: Disk, numerics: Numerics)
    returns (calls: seq<RenderCall>, completed: bool)
    ensures (calls, completed) == RunBatch(rows, UnguardedStep(disk, numerics))
  {
    ghost var step := UnguardedStep(disk, numerics);
    calls := [];
    assert rows[0..] == rows && [] + RunBatch(rows, step).0 == RunBatch(rows, step).0;
    for i := 0 to |rows|
      invariant RunBatch(rows, step) == (calls + RunBatch(rows[i..], step).0, RunBatch(rows[i..], step).1)
    {
      assert rows[i..][1..] == rows[i + 1..];
      RunBatchStep(rows[i..], step, calls);
      var row := rows[i];
      var extraction := GetCommentsInfo(disk.ExifOf(row.imagePath), numerics);
      if !extraction.Info? {
        assert step(row).None? && calls + [] == calls;
        return calls, false;
      }
      var call := RenderCall(Standardized, row.imagePath, extraction.info, row.annotation, OutputImageName(row.annotation));
      assert step(row) == Some(call);
      calls := calls + [call];
    }
    assert rows[|rows|..] == [] && calls + [] == calls;
    completed := true;
  }
}
