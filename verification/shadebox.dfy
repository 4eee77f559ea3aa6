/**
 * The bottom-left box of the partial overlay (`draw_bottom_left_box`): a box a
 * third of the image wide standing on the bottom edge, darkened by a black
 * shade whose alpha is the clamped transparency over the left 75% of the box
 * and fades linearly towards the right edge over the remaining columns, with
 * two centred text lines on top.
 *
 * The alpha mask (`Image.new("L", (box_width, box_height))`) and the shade
 * (`Image.new("RGBA", ...)`) are two-dimensional arrays indexed `[x, y]` as
 * PIL's pixel access objects are. The blur of the underlying image region, the
 * paste of the shade and the text rendering are outside the model.
 */
module ShadeBox {
  import opened Layout

  /** A pixel of the RGBA shade image. */
  datatype Rgba = Rgba(r: int, g: int, b: int, a: int)

  /** `max(0, min(int(transparency), 255))`: the transparency clamped to a byte. */
  function MaxAlpha(transparency: int): (a: nat)
    ensures a <= 255
    ensures 0 <= transparency <= 255 ==> a == transparency
    ensures transparency < 0 ==> a == 0
    ensures transparency > 255 ==> a == 255
  {
    var capped := if transparency < 255 then transparency else 255;
    if 0 < capped then capped else 0
  }

  /**
   * `int(box_width * 0.75)`: the number of fully shaded columns, the floor of
   * three quarters of the width (0.75 is exact in binary floating point, so
   * the product is exact for any image width).
   */
  function FullShadeEnd(boxWidth: nat): (e: nat)
    ensures 4 * e <= 3 * boxWidth < 4 * e + 4
    ensures boxWidth >= 1 ==> e < boxWidth
  {
    boxWidth * 3 / 4
  }

  /**
   * `max(1, box_width - full_shade_end)`: the number of fading columns, never
   * zero, so the fade never divides by zero.
   */
  function GradientWidth(boxWidth: nat): (g: nat)
    ensures g >= 1
    ensures boxWidth >= 1 ==> FullShadeEnd(boxWidth) + g == boxWidth
    ensures boxWidth == 0 ==> g == 1
  {
    var rest := boxWidth - FullShadeEnd(boxWidth);
    if 1 < rest then rest else 1
  }

  /**
   * The alpha of column `i`: `max_alpha` in the solid part; in the fade,
   * `int(max_alpha * (1 - k / gradient_width))` for the offset `k` into the
   * fade, computed exactly as `max_alpha * (gradient_width - k) // gradient_width`
   * (the exact value is non-negative, so truncation and floor agree).
   */
  function ColumnAlpha(maxAlpha: nat, boxWidth: nat, i: int): (a: int)
    requires 0 <= i < boxWidth
    ensures 0 <= a <= maxAlpha
    ensures i < FullShadeEnd(boxWidth) ==> a == maxAlpha
  {
    var fullShadeEnd, gradientWidth := FullShadeEnd(boxWidth), GradientWidth(boxWidth);
    if i < fullShadeEnd then maxAlpha
    else
      var k := i - fullShadeEnd;
      ScaleBounds(maxAlpha, gradientWidth - k, gradientWidth);
      maxAlpha * (gradientWidth - k) / gradientWidth
  }

  /** `a * m // g` lies between 0 and `a` when `0 <= m <= g`. */
  lemma ScaleBounds(a: nat, m: int, g: int)
    requires 0 <= m <= g && g > 0
    ensures 0 <= a * m / g <= a
  {
    MulMono(a, 0, m);
    MulMono(a, m, g);
    DivMonotone(0, a * m, g);
    DivMonotone(a * m, a * g, g);
    MulDivCancel(a, g);
  }

  lemma {:induction false} MulMono(c: nat, a: int, b: int)
    ensures a <= b ==> c * a <= c * b
  {
    if c > 0 {
      MulMono(c - 1, a, b);
      assert c * a == (c - 1) * a + a;
      assert c * b == (c - 1) * b + b;
    }
  }

  /** Floor division by a positive number is monotone. */
  lemma DivMonotone(x: int, y: int, g: int)
    requires g > 0
    ensures x <= y ==> x / g <= y / g
  {
    var qx, qy := x / g, y / g;
    assert g * qx <= x;
    assert y < g * qy + g;
    MulMono(g, qy + 1, qx);
    assert g * (qy + 1) == g * qy + g;
  }

  lemma MulDivCancel(a: int, g: int)
    requires g > 0
    ensures a * g / g == a
  {
    var q := a * g / g;
    assert a * g == g * q + (a * g) % g;
    MulMono(g, q + 1, a);
    MulMono(g, a + 1, q);
    assert g * (q + 1) == g * q + g;
    assert g * (a + 1) == g * a + g;
    assert a * g == g * a;
  }

  /** The shade never gets darker from left to right. */
  lemma ColumnAlphaMonotone(maxAlpha: nat, boxWidth: nat, i1: int, i2: int)
    requires 0 <= i1 <= i2 < boxWidth
    ensures ColumnAlpha(maxAlpha, boxWidth, i2) <= ColumnAlpha(maxAlpha, boxWidth, i1)
  {
    var e, g := FullShadeEnd(boxWidth), GradientWidth(boxWidth);
    if e <= i1 {
      var m1, m2 := g - (i1 - e), g - (i2 - e);
      MulMono(maxAlpha, m2, m1);
      DivMonotone(maxAlpha * m2, maxAlpha * m1, g);
    }
  }

  /** The first fading column still has the full alpha. */
  lemma FirstFadeColumn(maxAlpha: nat, boxWidth: nat)
    requires FullShadeEnd(boxWidth) < boxWidth
    ensures ColumnAlpha(maxAlpha, boxWidth, FullShadeEnd(boxWidth)) == maxAlpha
  {
    MulDivCancel(maxAlpha, GradientWidth(boxWidth));
  }

  /**
   * The rightmost column has alpha `max_alpha // gradient_width`, which is 0
   * exactly when there are more fading columns than alpha levels: the fade
   * need not reach full transparency.
   */
  lemma LastColumn(maxAlpha: nat, boxWidth: nat)
    requires boxWidth >= 1
    ensures ColumnAlpha(maxAlpha, boxWidth, boxWidth - 1) == maxAlpha / GradientWidth(boxWidth)
    ensures ColumnAlpha(maxAlpha, boxWidth, boxWidth - 1) == 0 <==> GradientWidth(boxWidth) > maxAlpha
  {
    var e, g := FullShadeEnd(boxWidth), GradientWidth(boxWidth);
    assert boxWidth - 1 - e == g - 1;
    assert maxAlpha * (g - (g - 1)) == maxAlpha;
    DivMonotone(g, maxAlpha, g);
    MulDivCancel(1, g);
  }

  /**
   * Loop over the columns of the mask (`_testing_image_overlay.py` lines
   * 437-445): every pixel of column `i` gets that column's alpha.
   */
  method FillMask(mask: array2<int>, maxAlpha: nat)
    modifies mask
    ensures forall i, j :: 0 <= i < mask.Length0 && 0 <= j < mask.Length1 ==>
      mask[i, j] == ColumnAlpha(maxAlpha, mask.Length0, i)
  {
    var boxWidth, boxHeight := mask.Length0, mask.Length1;
    var fullShadeEnd := boxWidth * 3 / 4;
    var gradientWidth := if 1 < boxWidth - fullShadeEnd then boxWidth - fullShadeEnd else 1;
    for i := 0 to boxWidth
      invariant forall i', j :: 0 <= i' < i && 0 <= j < boxHeight ==>
        mask[i', j] == ColumnAlpha(maxAlpha, boxWidth, i')
    {
      var alpha;
      if i < fullShadeEnd {
        alpha := maxAlpha;
      } else {
        alpha := maxAlpha * (gradientWidth - (i - fullShadeEnd)) / gradientWidth;
      }
      for j := 0 to boxHeight
        invariant forall i', j' :: 0 <= i' < i && 0 <= j' < boxHeight ==>
          mask[i', j'] == ColumnAlpha(maxAlpha, boxWidth, i')
        invariant forall j' :: 0 <= j' < j ==> mask[i, j'] == alpha
      {
        mask[i, j] := alpha;
      }
    }
  }

  /**
   * Loop of `_testing_image_overlay.py` lines 451-454: every shade pixel is
   * black with the mask's alpha.
   */
  method FillShade(mask: array2<int>, shade: array2<Rgba>)
    requires shade.Length0 == mask.Length0 && shade.Length1 == mask.Length1
    modifies shade
    ensures forall i, j :: 0 <= i < shade.Length0 && 0 <= j < shade.Length1 ==>
      shade[i, j] == Rgba(0, 0, 0, mask[i, j])
  {
    for i := 0 to shade.Length0
      invariant forall i', j :: 0 <= i' < i && 0 <= j < shade.Length1 ==>
        shade[i', j] == Rgba(0, 0, 0, mask[i', j])
    {
      for j := 0 to shade.Length1
        invariant forall i', j' :: 0 <= i' < i && 0 <= j' < shade.Length1 ==>
          shade[i', j'] == Rgba(0, 0, 0, mask[i', j'])
        invariant forall j' :: 0 <= j' < j ==> shade[i, j'] == Rgba(0, 0, 0, mask[i, j'])
      {
        var a := mask[i, j];
        shade[i, j] := Rgba(0, 0, 0, a);
      }
    }
  }

  /** Where line `j` of the two lines (`glocation`, `component`) is drawn: centred, without bias. */
  function BoxLine(box: Rect, j: int, line: string, size: Extent): TextDraw
  {
    var boxWidth, boxHeight := box.right - box.left, box.bottom - box.top;
    TextDraw(TextX(box.left, boxWidth, size.width), TextY(box.top, boxHeight, size.height, 2, j), line)
  }

  /**
   * `draw_bottom_left_box` with an integer box height: the box spans
   * x in [0, base_width // 3] and ends at the bottom edge; the mask holds
   * each column's alpha in every row, the shade is black with the mask as
   * alpha, and the two lines are centred in the box.
   */
  method DrawBottomLeftBox(baseWidth: nat, baseHeight: int, boxHeight: nat, transparency: int,
                           glocation: string, component: string, measure: string -> Extent)
    returns (box: Rect, mask: array2<int>, shade: array2<Rgba>, texts: seq<TextDraw>)
    ensures box == Rect(0, baseHeight - boxHeight, baseWidth / 3, baseHeight)
    ensures fresh(mask) && fresh(shade)
    ensures mask.Length0 == shade.Length0 == baseWidth / 3
    ensures mask.Length1 == shade.Length1 == boxHeight
    ensures forall i, j :: 0 <= i < mask.Length0 && 0 <= j < mask.Length1 ==>
      mask[i, j] == ColumnAlpha(MaxAlpha(transparency), mask.Length0, i) &&
      shade[i, j] == Rgba(0, 0, 0, mask[i, j]) &&
      0 <= shade[i, j].a <= MaxAlpha(transparency)
    ensures texts == [BoxLine(box, 0, glocation, measure(glocation)), BoxLine(box, 1, component, measure(component))]
  {
    var xPosition := 0;
    var boxWidth := baseWidth / 3;
    var yPosition := baseHeight - boxHeight;
    box := Rect(xPosition, yPosition, xPosition + boxWidth, yPosition + boxHeight);
    var maxAlpha := MaxAlpha(transparency);

    mask := new int[boxWidth, boxHeight];
    FillMask(mask, maxAlpha);

    shade := new Rgba[boxWidth, boxHeight]((i, j) => Rgba(0, 0, 0, 0));
    FillShade(mask, shade);

    var lines := [glocation, component];
    texts := [];
    for j := 0 to 2
      invariant |texts| == j
      invariant forall k :: 0 <= k < j ==> texts[k] == BoxLine(box, k, lines[k], measure(lines[k]))
    {
      var size := measure(lines[j]);
      var textX := xPosition + (boxWidth - size.width) / 2;
      var textY := yPosition + (boxHeight - size.height * |lines|) / 2 + j * size.height;
      texts := texts + [TextDraw(textX, textY, lines[j])];
    }
  }
}
