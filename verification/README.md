# Contextcam overlay tool, modelled in Dafny

Contextcam stamps inspection photographs with their context. The Python code
is in `app.py` and `_testing_image_overlay.py`. It reads the GPS position and
the capture time from a photo's EXIF data. It draws semi-transparent black
boxes with text over the photo and saves the result under a name made from
the defect annotation.

A batch driver scans a folder and converts HEIC photos to JPEG. It lists each
JPEG in a spreadsheet with the rotation its EXIF orientation asks for. A
person fills in the annotation columns. The driver then renders one overlay
per spreadsheet row. The rendered variant is either the standardized one
(three boxes along the top, three along the bottom) or the partial one (one
shaded box in the bottom-left corner).

The model has these modules:

- `Strings` and `OsPath` cover the Python string and Windows `os.path`
  operations the tool relies on: `split`, `join`, `replace`, `lower`,
  `endswith`, `str(int)`, `splitext` and `join`.
- `Metadata` covers the metadata extractor `get_comments_info`.
- `Layout` covers the integer geometry of the box strips and of text centring.
- `ShadeBox` covers the bottom-left box. Its alpha mask and shade image are
  two-dimensional arrays filled by nested loops, as the source fills PIL
  pixel buffers.
- `Overlay` covers the two renderers, as the boxes and texts they draw and
  the file name they save under, and the name of a rotated copy.
- `App` covers the batch driver.
  - The scan and the three render loops are methods with loop invariants.
  - Each is proved equal to a recursive specification function: `ScanRows`
    for the scan, `RunBatch` for the render loops.
  - Lemmas about those functions state what the loops promise. A scan
    completes exactly when no entry raises and yields at most one row per
    entry. A batch renders rows in order, stops at the first row that raises,
    and uses the fallback metadata exactly when extraction failed.

Everything outside the program is an input:

- `Disk` says what reading an image's EXIF gives (or that the image cannot be
  opened) and whether a HEIC conversion manages to save its JPEG.
- `Numerics` holds the DMS-to-decimal conversion and the compass-bearing
  formula.
- Text measuring by the font (`measure`) and float formatting (`format`) are
  parameters.

Three behaviours of the code that the model keeps as written:

- The bearing is computed from the photo's position to the point (0, 0),
  not from the position to itself.
- In the rotating render loops, only the metadata extraction is guarded by
  the `except`. A failing rotation, an unreadable image, or the rotation cell
  holding the text `No EXIF data found` ends the batch rather than skipping
  the row. That text is what the scan writes for a photo without EXIF data.
- The rotation passed to `copy_and_rotate` is whatever the spreadsheet holds,
  not only 0, 90, 180 or 270.

## Model

| member | source | states |
|---|---|---|
| Strings.SplitOn | _testing_image_overlay.py:111 | `split(" ")` yields at least one field and no field contains the separator |
| Strings.JoinSplit | _testing_image_overlay.py:111 | joining the fields of a split on the same separator gives the text back |
| Strings.SplitJoin | _testing_image_overlay.py:111-113 | splitting the join of separator-free fields gives the fields back, so `parts[0]` and `parts[1]` are the first two fields |
| Strings.ReplaceChar | _testing_image_overlay.py:112 | `replace(":", "-")` keeps the length, turns every `:` into `-`, keeps every other character, and leaves no `:` |
| Strings.IntRoundTrip | _testing_image_overlay.py:220 | `str(idd)` is a decimal text that reads back as `idd`, so distinct ids print differently |
| Strings.FirstIndexOf | _testing_image_overlay.py:111 | the index of the first occurrence of the separator, or -1 when there is none |
| Strings.LastIndexWhere | _testing_image_overlay.py:303 | the index of the last character with the property (a dot, a separator), or -1 when there is none |
| Strings.JoinWithStarts | _testing_image_overlay.py:220 | a join of no parts is empty; a join starts with its first part, followed by the separator when there is a second |
| Strings.JoinWithEndsWithLast | _testing_image_overlay.py:220 | a join of one or more parts ends with its last part |
| Strings.LowerCases | app.py:91 | `lower()` keeps the length, leaves no capital, turns each capital into its small letter, keeps every other character, and is idempotent |
| Strings.EndsWithConcat | app.py:95 | `endswith(suffix)` holds exactly when the text is some text followed by `suffix`, and always holds for a text followed by `suffix` |
| Strings.IntToDecimal | _testing_image_overlay.py:220 | `str(n)` is non-empty and made of digits, with a leading `-` allowed |
| Strings.DecimalRoundTrip | _testing_image_overlay.py:220 | the digits `str` writes for a natural number read back as that number |
| OsPath.SplitExt | _testing_image_overlay.py:303 | `splitext` splits a path into root + extension, the extension empty or one dot followed by no dot or separator, preceded by a non-dot in the last component; conversely, whenever the path has such a dot, the extension starts at it, so the split is decided in both directions |
| OsPath.SplitExtInsert | _testing_image_overlay.py:303-304 | inserting dot-free, separator-free text between root and extension leaves the extension and extends the root |
| OsPath.Join | app.py:92 | `os.path.join(directory, file)` ends with the file name and puts at most one backslash in front of it: exactly one after a directory not ending in a separator or colon, none after an empty directory, one ending in a separator, or a bare drive `X:` |
| Metadata.InfoOrEmpty | _testing_image_overlay.py:99 | `img._getexif() or {}`: the tags and values of the EXIF dictionary, or no tags when there is none |
| Metadata.SplitDateTime | _testing_image_overlay.py:110-113 | the date has no `:` and no space, the time has no space, and the time is empty when the stamp has no space |
| Metadata.SplitDateTimeFields | _testing_image_overlay.py:110-113 | for space-free fields `date time ...` the split gives the date with `-` for `:` and the second field; a stamp with the date alone gives an empty time |
| Metadata.SplitDateTimeExample | _testing_image_overlay.py:110 | `2025:11:24 10:23:45` splits into `2025-11-24` and `10:23:45` |
| Metadata.GetCommentsInfo | _testing_image_overlay.py:90-119 | the result is "unavailable" exactly when the image opens and the GPS or the capture-time tag is missing (a missing dictionary counts as empty); a returned date has no `:`, a returned time no space, and the bearing is the one from the returned position to (0, 0) |
| Metadata.GetCommentsInfoPresent | _testing_image_overlay.py:104-119 | with both tags well formed, the result holds the converted latitude and longitude, the split stamp, and the bearing from that position |
| Layout.TextX | _testing_image_overlay.py:177 | a line starts where the room on its left equals the room on its right, or one pixel less |
| Layout.TextY | _testing_image_overlay.py:183-190 | the block of lines is centred vertically in the same sense |
| Layout.BoxWidth | _testing_image_overlay.py:160-161 | `base_width // num_boxes` is the widest box width for which `num_boxes` boxes fit in the image |
| Layout.DrawBoxesWithText | _testing_image_overlay.py:151-193 | one box per text group, each starting where the previous one ends, the first at x = 0, the last ending fewer than `n` pixels short of the right edge, all at the given height band; every line is drawn with its own text and centred horizontally; line 1 is shifted down by 20 |
| ShadeBox.MaxAlpha | _testing_image_overlay.py:415 | the transparency clamped to 0..255 |
| ShadeBox.FullShadeEnd | _testing_image_overlay.py:434 | `int(box_width * 0.75)` is the floor of three quarters of the width, and is less than a non-zero width |
| ShadeBox.GradientWidth | _testing_image_overlay.py:435 | the fade is at least one column wide and, for a non-zero width, makes up the rest of the box |
| ShadeBox.ColumnAlpha | _testing_image_overlay.py:437-442 | every column's alpha lies between 0 and `max_alpha`, and the solid columns have exactly `max_alpha` |
| ShadeBox.ColumnAlphaMonotone | _testing_image_overlay.py:437-442 | the shade never gets darker from left to right |
| ShadeBox.FirstFadeColumn | _testing_image_overlay.py:440-442 | the first fading column still has the full alpha |
| ShadeBox.LastColumn | _testing_image_overlay.py:440-442 | the last column has alpha `max_alpha // gradient_width`, which is 0 exactly when the fade is wider than `max_alpha`, so the fade need not reach full transparency |
| ShadeBox.FillMask | _testing_image_overlay.py:437-445 | after the loop, every pixel of column `i` holds that column's alpha |
| ShadeBox.FillShade | _testing_image_overlay.py:448-454 | after the loop, every shade pixel is black with the mask pixel's alpha |
| ShadeBox.DrawBottomLeftBox | _testing_image_overlay.py:391-473 | the box spans x from 0 to `base_width // 3` and stands on the bottom edge; the fresh mask and shade have the box's size and hold the column alphas, bounded by the clamped transparency; the two lines `glocation` and `component` are centred in the box |
| Overlay.OutputImageName | _testing_image_overlay.py:220 | the output name is the five annotation fields joined by `_`, then `.png` |
| Overlay.OutputNameInjective | _testing_image_overlay.py:220 | when no text field contains `_`, two rows get the same output name only if all five fields agree |
| Overlay.OutputNameCollision | _testing_image_overlay.py:220 | with `_` inside a field, two different annotations get the same output name, so one overwrites the other |
| Overlay.RotatedCopyName | _testing_image_overlay.py:303-304 | the rotated copy's name is 8 characters longer than the original's and `splitext` gives the original root plus `_rotated`, with the original extension |
| Overlay.TopBoxesText | _testing_image_overlay.py:196-200 | three top boxes of two lines each |
| Overlay.BottomBoxesText | _testing_image_overlay.py:202-206 | three bottom boxes of two lines each |
| Overlay.CreateStandardizedOverlay | _testing_image_overlay.py:122-225 | three boxes `base_height // 12` high along the top edge and three along the bottom edge, each a third of the width, at alpha 128, with the texts above; the last box ends at most 2 pixels short of the right edge; the file name is `OutputImageName` |
| Overlay.RoundHalfEven240 | _testing_image_overlay.py:410 | Python's `round` of a multiple of 1/240: the nearest integer, the even one on a tie |
| Overlay.PartialBoxHeight | _testing_image_overlay.py:253 | the partial box height is `base_height // 12 - base_height / 240` rounded, and lies between 0 and `base_height // 12` |
| Overlay.CreatePartialOverlay | _testing_image_overlay.py:227-287 | only the bottom-left box, of height `PartialBoxHeight`, at transparency 200, with `glocation` and `component`; saved under the same name as the standardized variant |
| App.OrientationAngle | app.py:65-72 | the angle is always 0, 90, 180 or 270 |
| App.GetImageRotation | app.py:48-75 | the text `No EXIF data found` exactly when there is no EXIF dictionary or it is empty; otherwise an angle in {0, 90, 180, 270} |
| App.OrientationTable | app.py:65-72 | orientations 1, 3, 6 and 8 give 0, 180, 270 and 90; a missing or other orientation gives 0 |
| App.HeicToJpgPath | app.py:31 | `splitext(path)[0] + '.jpg'`: the path without its extension followed by `.jpg`, or the whole path followed by `.jpg` when there is no extension |
| App.ConvertHeicToJpg | app.py:16-44 | a path exactly when the save succeeds; that path is `HeicToJpgPath` of the input and ends in `.jpg` in any case |
| App.HeicToJpgReplacesSuffix | app.py:31 | for a name ending in `.heic` in any case, the JPEG path replaces those five characters by `.jpg` exactly when a non-dot, non-separator character precedes them in the last component, and otherwise appends `.jpg` |
| App.DataRow | app.py:101 | a data row has seven cells, the path first, five empty annotation cells, the rotation last |
| App.RowIfShape | app.py:99-106 | an unselected block appends nothing; a selected one raises exactly when the image cannot be opened and otherwise appends the path's data row with its rotation |
| App.ImageRowsRaises | app.py:99-106 | the two blocks raise exactly when the path ends in `.jpg` or `.jpeg` in any case and the image cannot be opened |
| App.ListedPathCases | app.py:91-96 | a non-HEIC entry keeps its joined path; a HEIC entry yields a path exactly when the conversion saves, and it is `HeicToJpgPath` of the joined path, ending in `.jpg` |
| App.FileRowsRaises | app.py:91-106 | a non-HEIC entry gives the rows of its joined path; a HEIC entry raises exactly when the conversion fails or the converted JPEG cannot be opened |
| App.ImageRowsAtMostOne | app.py:99-106 | a path gives at most one row, exactly one when it ends in `.jpg` or `.jpeg` in any case, and that row is the path's data row with its rotation |
| App.FileRowsAtMostOne | app.py:89-106 | a directory entry that does not raise gives at most one data row, of its listed path; a HEIC entry that converts gives exactly one |
| App.ScanCompletes | app.py:89-108 | the scan completes (and the workbook is saved) exactly when no entry raises |
| App.ScanRowsShape | app.py:89-106 | a completed scan has at most one row per directory entry, each a data row |
| App.ReadRowIf | app.py:99-106 | one `endswith` block appends the row `RowIf` specifies, or raises when the image cannot be opened |
| App.ReadImageRows | app.py:99-106 | the `.jpg` block then the `.jpeg` block append the rows `ImageRows` specifies |
| App.ScanFile | app.py:90-106 | one loop iteration appends the rows `FileRows` specifies; a failed HEIC conversion raises |
| App.ScanStep | app.py:89-106 | an entry that raises ends the scan; otherwise the scan's outcome is that of the remaining entries and their rows follow the entry's own |
| App.ScanAndWriteExcel | app.py:78-108 | the sheet is the header row followed by each entry's rows in listing order, and exists exactly when `ScanRows` completes |
| App.RunBatch | app.py:117-168 | a batch makes at most one call per row and completes exactly when it made a call for every row |
| App.RunBatchStopsAtFirstRaise | app.py:117-168 | a batch makes at most one call per row, call `i` is row `i`'s, it completes exactly when every row rendered, and otherwise stops at the row after the last call, which raised |
| App.PathAfterRotationCases | app.py:148-149 | the no-EXIF text raises; angle 0 keeps the image path; any other angle gives the rotated copy's name and raises exactly when the image cannot be opened |
| App.RowCallCases | app.py:145-168 | a guarded iteration raises exactly when the rotation step raises or its image cannot be opened; otherwise it renders that image in the requested variant with the row's annotation and output name, and with the extracted tuple whenever there is one |
| App.UnguardedRowCallCases | app.py:117-134 | an unguarded iteration renders exactly when extraction returns a tuple, and then renders the row's own image with it |
| App.FallbackExactlyOnFailure | app.py:151-154 | a rendered row gets the hard-coded fallback tuple exactly when extraction did not return one |
| App.RotationChoice | app.py:148-150 | a row whose rotation is the no-EXIF text raises; a rendered row uses the original image exactly when the angle is 0, else the rotated copy with the same extension |
| App.GuardedVersusUnguarded | app.py:117-154 | for a readable, unrotated image the guarded loop always renders; the unguarded loop stops exactly where the guarded one falls back, and otherwise makes the same call |
| App.ProcessImagesWithRotation | app.py:138-201 | both rotating loops (standardized and partial) make exactly the calls `RunBatch` specifies for `RowCall` |
| App.ProcessImagesFromExcel | app.py:110-134 | the unguarded loop makes exactly the calls `RunBatch` specifies for `UnguardedRowCall` |

## Left out

- `calculate_initial_compass_bearing`, `_rational_to_float` and `get_decimal_from_dms`: floating-point trigonometry and rounding, passed in through `Numerics`. The model only states that the result is the bearing of the extracted position.
- `save_image_with_metadata` and `draw_bottom_left_box2`: neither is called by the modelled drivers.
- Opening, blurring, compositing, rotating and saving images, fonts, and the text-size computation are not modelled. Only the geometry, the alpha values and the file names are.
- Spreadsheet reading and writing (openpyxl, pandas) are not modelled. The sheet is a sequence of rows, and a read-back row is a `SheetRow`.
- Pandas cell typing is not modelled: an empty cell read back as NaN (printed `nan`), and an `idd` column read as float (printed `7.0`).
- `Strings.Lower`: covers ASCII letters only. Python's `lower()` also folds other scripts; no other case changes whether a name ends in `.jpg`, `.jpeg` or `.heic`.
- `OsPath.Join`: covers a bare file name, as `os.listdir` yields on Windows. A file name that is itself absolute or carries a drive, which `os.path.join` would let replace the directory, is excluded by its precondition.
- `os.path.join(output_folder, name)` and `os.makedirs` in both renderers are not modelled: the model returns the bare name.
- `ShadeBox.ColumnAlpha`: the fade `int(max_alpha * (1 - t))` is computed exactly in integers. The float result can differ by one where floating-point rounding crosses an integer.
- `Metadata.GetCommentsInfo`: a GPS entry that is not a dictionary is treated as raising. The exact exception of each malformed-EXIF case is not distinguished.
- `App.RowCall`: the EXIF of the rotated copy is read from `Disk` like any other file. Its relation to the original's EXIF is not modelled.
- `print` calls and the exception messages are not modelled.
- The `line is None` branches of the text loops are not modelled: texts are strings.
- `Overlay.TopBoxesText`: the coordinates and bearing are formatted by the `format` parameter standing for Python's `.5f` and `.1f`.
