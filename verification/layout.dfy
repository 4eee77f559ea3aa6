/**
 * Integer layout of the overlay boxes: the strip of equal boxes drawn by
 * `draw_boxes_with_text`, and the centring of text lines inside a box shared
 * by that routine and the bottom-left box. All divisions are Python floor
 * divisions by a positive number, which Dafny's `/` on `int` agrees with, also
 * when a text is wider or taller than its box.
 *
 * Text sizes come from the font renderer and are inputs (`Extent`).
 */
module Layout {

  /** Width and height of one text line as `draw.textbbox` measures it. */
  datatype Extent = Extent(width: int, height: int)

  /** A rectangle `(x0, y0, x1, y1)` as passed to `draw.rectangle`. */
  datatype Rect = Rect(left: int, top: int, right: int, bottom: int)

  /** One `draw.text((x, y), line)` call. */
  datatype TextDraw = TextDraw(x: int, y: int, line: string)

  /** One box of a strip: its rectangle, its fill alpha and its text lines in drawing order. */
  datatype BoxDraw = BoxDraw(rect: Rect, alpha: int, texts: seq<TextDraw>)

  /** Extra downward shift of the second line in the boxes of the standardized strips. */
  const SecondLineBias := 20

  /**
   * `x + (box_width - text_width) // 2`: the text starts where the room left
   * of it equals the room right of it, or is one pixel less.
   */
  function TextX(left: int, boxWidth: int, textWidth: int): (x: int)
    ensures (x - left) <= (left + boxWidth) - (x + textWidth) <= (x - left) + 1
  {
    left + (boxWidth - textWidth) / 2
  }

  /**
   * `y + (box_height - text_height * count) // 2 + j * text_height`: line `j`
   * of `count` lines of this height, the block of lines centred vertically as
   * `TextX` centres horizontally.
   */
  function TextY(top: int, boxHeight: int, textHeight: int, count: int, j: int): (y: int)
    ensures var blockTop := y - j * textHeight;
      (blockTop - top) <= (top + boxHeight) - (blockTop + textHeight * count) <= (blockTop - top) + 1
  {
    top + (boxHeight - textHeight * count) / 2 + j * textHeight
  }

  /** `base_width // num_boxes`: the widest equal boxes that fit side by side. */
  function BoxWidth(baseWidth: int, count: int): (w: int)
    requires count > 0
    ensures count * w <= baseWidth < count * w + count
  {
    baseWidth / count
  }

  /** Where `draw_boxes_with_text` draws line `j` of a box: shifted down by 20 px when `j == 1`. */
  function StripLine(left: int, top: int, boxWidth: int, boxHeight: int, count: int, j: int, line: string, size: Extent): TextDraw
  {
    var bias := if j == 1 then SecondLineBias else 0;
    TextDraw(TextX(left, boxWidth, size.width), bias + TextY(top, boxHeight, size.height, count, j), line)
  }

  /** Box `i` of a strip at height `y` with the given text lines. */
  function StripBox(baseWidth: int, boxHeight: int, y: int, alpha: int, textLines: seq<seq<string>>,
                    measure: string -> Extent, i: int): BoxDraw
    requires 0 <= i < |textLines|
  {
    var w := BoxWidth(baseWidth, |textLines|);
    var lines := textLines[i];
    BoxDraw(Rect(i * w, y, i * w + w, y + boxHeight), alpha,
            seq(|lines|, j requires 0 <= j < |lines| =>
              StripLine(i * w, y, w, boxHeight, |lines|, j, lines[j], measure(lines[j]))))
  }

  /**
   * `draw_boxes_with_text(y_position, text_lines)`: one box per entry of
   * `textLines`, all `base_width // n` wide, the first at x = 0, each starting
   * where the previous one ends, the last ending at most `n - 1` pixels short
   * of the image's right edge; each line horizontally centred in its box.
   * With no boxes at all the source divides by zero, hence the precondition.
   */
  method DrawBoxesWithText(baseWidth: int, boxHeight: int, y: int, alpha: int,
                           textLines: seq<seq<string>>, measure: string -> Extent)
    returns (boxes: seq<BoxDraw>)
    requires |textLines| > 0
    ensures |boxes| == |textLines|
    ensures forall i :: 0 <= i < |boxes| ==> boxes[i] == StripBox(baseWidth, boxHeight, y, alpha, textLines, measure, i)
    ensures boxes[0].rect.left == 0
    ensures forall i :: 0 <= i < |boxes| - 1 ==> boxes[i].rect.right == boxes[i + 1].rect.left
    ensures boxes[|boxes| - 1].rect.right <= baseWidth < boxes[|boxes| - 1].rect.right + |boxes|
    ensures forall i :: 0 <= i < |boxes| ==> boxes[i].rect.top == y && boxes[i].rect.bottom == y + boxHeight
    ensures forall i :: 0 <= i < |boxes| ==> |boxes[i].texts| == |textLines[i]|
    ensures forall i, j :: 0 <= i < |boxes| && 0 <= j < |textLines[i]| ==>
      var r, t, m := boxes[i].rect, boxes[i].texts[j], measure(textLines[i][j]);
      t.line == textLines[i][j] && t.x - r.left <= r.right - (t.x + m.width) <= t.x - r.left + 1
  {
    var n := |textLines|;
    var boxWidth := baseWidth / n;
    boxes := [];
    for i := 0 to n
      invariant |boxes| == i
      invariant forall k :: 0 <= k < i ==> boxes[k] == StripBox(baseWidth, boxHeight, y, alpha, textLines, measure, k)
    {
      var xPosition := i * boxWidth;
      var box := Rect(xPosition, y, xPosition + boxWidth, y + boxHeight);
      var lines := textLines[i];
      var texts: seq<TextDraw> := [];
      for j := 0 to |lines|
        invariant |texts| == j
        invariant forall k :: 0 <= k < j ==>
          texts[k] == StripLine(xPosition, y, boxWidth, boxHeight, |lines|, k, lines[k], measure(lines[k]))
      {
        var size := measure(lines[j]);
        var textX := xPosition + (boxWidth - size.width) / 2;
        var textY;
        if j == 1 {
          textY := y + 20 + (boxHeight - size.height * |lines|) / 2 + size.height * j;
        } else {
          textY := y + (boxHeight - size.height * |lines|) / 2 + size.height * j;
        }
        texts := texts + [TextDraw(textX, textY, lines[j])];
      }
      boxes := boxes + [BoxDraw(box, alpha, texts)];
    }
    assert (n - 1) * boxWidth + boxWidth == n * boxWidth;
  }
}
