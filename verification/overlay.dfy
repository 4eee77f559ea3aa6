/**
 * The two renderers `create_standardized_overlay_image` and
 * `create_partial_overlay_image`, as the geometry they draw and the file name
 * they save under, and the file name `copy_and_rotate` writes.
 *
 * Number formatting (`f"{x:.5f}"`) and text measuring belong to Python and the
 * font renderer and are parameters; compositing and saving are outside the model.
 */
module Overlay {
  import opened Strings
  import opened OsPath
  import opened Layout
  import opened ShadeBox
  import Metadata

  /** The annotation fields of one spreadsheet row. */
  datatype Annotation = Annotation(glocation: string, component: string, defectLine1: string, defectLine2: string, idd: int)

  /** Fill alpha of the standardized boxes and of the partial variant's shade. */
  const StandardizedTransparency := 128
  const PartialTransparency := 200

  /**
   * `f"{glocation}_{component}_{defect_line1}_{defect_line2}_{idd}.png"`, the
   * name both renderers save under: the five fields joined by `_`, then `.png`.
   */
  function OutputImageName(a: Annotation): (name: string)
    ensures name == JoinWith(NameFields(a), '_') + ".png"
  {
    var name := a.glocation + "_" + a.component + "_" + a.defectLine1 + "_" + a.defectLine2 + "_" + IntToDecimal(a.idd) + ".png";
    JoinFive(a.glocation, a.component, a.defectLine1, a.defectLine2, IntToDecimal(a.idd));
    name
  }

  lemma JoinFive(s1: string, s2: string, s3: string, s4: string, s5: string)
    ensures JoinWith([s1, s2, s3, s4, s5], '_') == s1 + "_" + s2 + "_" + s3 + "_" + s4 + "_" + s5
  {
    assert [s1, s2, s3, s4, s5][1..] == [s2, s3, s4, s5];
    assert [s2, s3, s4, s5][1..] == [s3, s4, s5];
    assert [s3, s4, s5][1..] == [s4, s5];
    assert [s4, s5][1..] == [s5];
    assert JoinWith([s4, s5], '_') == s4 + "_" + s5;
    assert JoinWith([s3, s4, s5], '_') == s3 + "_" + (s4 + "_" + s5);
    assert JoinWith([s2, s3, s4, s5], '_') == s2 + "_" + (s3 + "_" + (s4 + "_" + s5));
    assert JoinWith([s1, s2, s3, s4, s5], '_') == s1 + "_" + (s2 + "_" + (s3 + "_" + (s4 + "_" + s5)));
  }

  predicate NoUnderscore(a: Annotation)
  {
    '_' !in a.glocation && '_' !in a.component && '_' !in a.defectLine1 && '_' !in a.defectLine2
  }

  /** Two names that agree agree without their common `.png` ending. */
  lemma DropPngSuffix(x: string, y: string)
    requires x + ".png" == y + ".png"
    ensures x == y
  {
    assert |x| == |y|;
    assert x == (x + ".png")[..|x|];
    assert y == (y + ".png")[..|y|];
  }

  /** The five name fields of an annotation, as they appear in its output name. */
  function NameFields(a: Annotation): (fields: seq<string>)
    ensures |fields| == 5
  {
    [a.glocation, a.component, a.defectLine1, a.defectLine2, IntToDecimal(a.idd)]
  }

  /** The name fields determine the annotation, since `str(idd)` is read back as `idd`. */
  lemma NameFieldsInjective(a: Annotation, b: Annotation)
    requires NameFields(a) == NameFields(b)
    ensures a == b
  {
    assert NameFields(a)[4] == NameFields(b)[4];
    IntRoundTrip(a.idd);
    IntRoundTrip(b.idd);
  }

  /**
   * When no text field contains `_`, the name determines the annotation:
   * two rows save to the same file only if all five fields agree.
   */
  lemma OutputNameInjective(a: Annotation, b: Annotation)
    requires NoUnderscore(a) && NoUnderscore(b)
    ensures OutputImageName(a) == OutputImageName(b) ==> a == b
  {
    if OutputImageName(a) == OutputImageName(b) {
      var fa, fb := NameFields(a), NameFields(b);
      DecimalHasNoUnderscore(a.idd);
      DecimalHasNoUnderscore(b.idd);
      DropPngSuffix(JoinWith(fa, '_'), JoinWith(fb, '_'));
      SplitJoin(fa, '_');
      SplitJoin(fb, '_');
      NameFieldsInjective(a, b);
    }
  }

  lemma DecimalHasNoUnderscore(n: int)
    ensures '_' !in IntToDecimal(n)
  {
    var s := IntToDecimal(n);
    forall i | 0 <= i < |s| ensures s[i] != '_' { }
  }

  /** With an underscore in a field, two different rows overwrite each other's output. */
  lemma OutputNameCollision()
    ensures OutputImageName(Annotation("Belt_A", "Idler", "Worn", "", 7))
         == OutputImageName(Annotation("Belt", "A_Idler", "Worn", "", 7))
  {
    assert "Belt_A" == "Belt" + "_" + "A";
    assert "A_Idler" == "A" + "_" + "Idler";
    assert ("Belt" + "_" + "A") + "_" + "Idler" == "Belt" + "_" + ("A" + "_" + "Idler");
  }

  /** `f"{base}_rotated{ext}"` with `base, ext = os.path.splitext(image_path)`. */
  function RotatedCopyName(path: string): (r: string)
    ensures |r| == |path| + |"_rotated"|
    ensures SplitExt(r) == (Root(path) + "_rotated", Ext(path))
  {
    SplitExtInsert(path, "_rotated");
    Root(path) + "_rotated" + Ext(path)
  }

  /** The text of the three top boxes; `format(x, d)` is `f"{x:.{d}f}"`. */
  function TopBoxesText(info: Metadata.CommentsInfo, format: (real, nat) -> string): (boxes: seq<seq<string>>)
    ensures |boxes| == 3 && forall i :: 0 <= i < 3 ==> |boxes[i]| == 2
  {
    [["DIRECTION", format(info.bearing, 1) + " deg(T)"],
     [format(info.lat, 5) + "\U{B0}S", format(info.lon, 5) + "\U{B0}E"],
     ["ACCURACY 10 m", "DATUM WGS84"]]
  }

  /** The text of the three bottom boxes of the standardized variant. */
  function BottomBoxesText(info: Metadata.CommentsInfo, a: Annotation): (boxes: seq<seq<string>>)
    ensures |boxes| == 3 && forall i :: 0 <= i < 3 ==> |boxes[i]| == 2
  {
    [[a.glocation, a.component],
     [a.defectLine1, a.defectLine2],
     [info.date, info.time + "+10:00"]]
  }

  /**
   * `create_standardized_overlay_image`: a strip of three boxes `base_height // 12`
   * high along the top edge and one along the bottom edge, each box a third of
   * the width, filled black at alpha 128; saved under `OutputImageName`.
   */
  method CreateStandardizedOverlay(baseWidth: nat, baseHeight: nat, info: Metadata.CommentsInfo, a: Annotation,
                                   format: (real, nat) -> string, measure: string -> Extent)
    returns (top: seq<BoxDraw>, bottom: seq<BoxDraw>, name: string)
    ensures |top| == 3 && |bottom| == 3
    ensures forall i :: 0 <= i < 3 ==>
      top[i].rect.top == 0 && top[i].rect.bottom == baseHeight / 12 &&
      bottom[i].rect.top == baseHeight - baseHeight / 12 && bottom[i].rect.bottom == baseHeight &&
      top[i].rect.left == bottom[i].rect.left == i * (baseWidth / 3) &&
      top[i].rect.right == bottom[i].rect.right == (i + 1) * (baseWidth / 3) &&
      top[i].alpha == bottom[i].alpha == StandardizedTransparency
    ensures top[2].rect.right <= baseWidth < top[2].rect.right + 3
    ensures forall i :: 0 <= i < 3 ==>
      top[i] == StripBox(baseWidth, baseHeight / 12, 0, StandardizedTransparency, TopBoxesText(info, format), measure, i) &&
      bottom[i] == StripBox(baseWidth, baseHeight / 12, baseHeight - baseHeight / 12, StandardizedTransparency,
                            BottomBoxesText(info, a), measure, i)
    ensures name == OutputImageName(a)
  {
    var boxHeight := baseHeight / 12;
    var transparency := 128;
    top := DrawBoxesWithText(baseWidth, boxHeight, 0, transparency, TopBoxesText(info, format), measure);
    bottom := DrawBoxesWithText(baseWidth, boxHeight, baseHeight - boxHeight, transparency, BottomBoxesText(info, a), measure);
    name := a.glocation + "_" + a.component + "_" + a.defectLine1 + "_" + a.defectLine2 + "_" + IntToDecimal(a.idd) + ".png";
  }

  /**
   * Python's `round` of `scaled / 240` to an integer: to the nearest one, and
   * to the even one of two equally near.
   */
  function RoundHalfEven240(scaled: int): (b: int)
    ensures 240 * b - 120 <= scaled <= 240 * b + 120
    ensures scaled in {240 * b - 120, 240 * b + 120} ==> b % 2 == 0
  {
    var whole, rest := scaled / 240, scaled % 240;
    if rest < 120 then whole
    else if rest > 120 then whole + 1
    else if whole % 2 == 0 then whole else whole + 1
  }

  /**
   * `int(round(base_height // 12 - base_height / 240))`, the height of the
   * partial variant's box: `240` times the rounded value is the integer
   * `240 * (h // 12) - h`. The float result is exact: a tie needs `h / 240` to
   * end in `.5`, which is representable, and any other value lies at least
   * 1/240 from a tie, far more than the rounding error for any image height.
   * The box is never taller than the standardized variant's boxes.
   */
  function PartialBoxHeight(baseHeight: nat): (b: int)
    ensures b == RoundHalfEven240(240 * (baseHeight / 12) - baseHeight)
    ensures 0 <= b <= baseHeight / 12
  {
    var q := baseHeight / 12;
    var b := RoundHalfEven240(240 * q - baseHeight);
    RoundingBounds(q, baseHeight - 12 * q, 240 * q - baseHeight, b);
    b
  }

  /** The rounded height lies between 0 and `h // 12`. */
  lemma RoundingBounds(q: nat, r: int, scaled: int, b: int)
    requires 0 <= r < 12 && scaled == 228 * q - r
    requires 240 * b - 120 <= scaled <= 240 * b + 120
    ensures 0 <= b <= q
  {
  }

  /**
   * `create_partial_overlay_image`: only the bottom-left shaded box, of height
   * `PartialBoxHeight`, at transparency 200, with `glocation` and `component`
   * in it; saved under the same name formula as the standardized variant, so
   * both variants of a row write the same file name.
   */
  method CreatePartialOverlay(baseWidth: nat, baseHeight: nat, a: Annotation, measure: string -> Extent)
    returns (box: Rect, mask: array2<int>, shade: array2<Rgba>, texts: seq<TextDraw>, name: string)
    ensures box == Rect(0, baseHeight - PartialBoxHeight(baseHeight), baseWidth / 3, baseHeight)
    ensures 0 <= box.top <= box.bottom
    ensures fresh(mask) && fresh(shade)
    ensures mask.Length0 == shade.Length0 == baseWidth / 3 && mask.Length1 == shade.Length1 == PartialBoxHeight(baseHeight)
    ensures forall i, j :: 0 <= i < mask.Length0 && 0 <= j < mask.Length1 ==>
      mask[i, j] == ColumnAlpha(PartialTransparency, mask.Length0, i) &&
      shade[i, j] == Rgba(0, 0, 0, mask[i, j])
    ensures texts == [BoxLine(box, 0, a.glocation, measure(a.glocation)), BoxLine(box, 1, a.component, measure(a.component))]
    ensures name == OutputImageName(a)
  {
    var boxHeight := PartialBoxHeight(baseHeight);
    var transparency := 200;
    box, mask, shade, texts := DrawBottomLeftBox(baseWidth, baseHeight, boxHeight, transparency, a.glocation, a.component, measure);
    name := a.glocation + "_" + a.component + "_" + a.defectLine1 + "_" + a.defectLine2 + "_" + IntToDecimal(a.idd) + ".png";
  }
}
