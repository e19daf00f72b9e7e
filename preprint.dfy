/** The geometry and reporting of the print checks in
    `toolkit/src/preprint.cpp`: the safe-margin plan, the pad-to-size plan,
    the output paths and the tab-separated report line. Every call into the
    image library is reduced to the sizes and rectangles it is given. */
module Preprint {
  import opened Geometry
  import opened SmartCropping

  // ---------------------------------------------------------------------
  // Colours
  // ---------------------------------------------------------------------

  /** An image's colorspace; only CMYK is told apart from the others. */
  datatype Colorspace = CMYKColorspace | OtherColorspace(name: string)

  /** A fill colour, with the arguments the toolkit passes to the library. */
  datatype Color =
    | ColorCMYK(cyan: nat, magenta: nat, yellow: nat, black: nat)
    | ColorRGB(red: nat, green: nat, blue: nat)
    | ColorNamed(name: string)

  // ---------------------------------------------------------------------
  // Safe-margin plan
  // ---------------------------------------------------------------------

  /** How much clearance is missing at one edge whose gap to the image
      border is `gap`; nothing when the gap already reaches `border`. */
  function Deficit(gap: int, border: int): nat
  {
    if gap < border then border - gap else 0
  }

  /** The frame's offsets are at least `border`, and so are the gaps between
      its far edges `XEnd`/`YEnd` and the image extents. For an object frame,
      whose far edges are the last significant column and row themselves,
      this leaves `border` free pixels before the content but only
      `border - 1` after it (`ClearMargins`). */
  predicate Clear(frame: Rect, width: int, height: int, border: int)
  {
    frame.xOff >= border && width - XEnd(frame) >= border &&
    frame.yOff >= border && height - YEnd(frame) >= border
  }

  /** The correction `CheckBorder` asks for: shrink the image to `rescale`
      (content-aware), then lay it onto a blank `canvas` at
      (`xOffset`, `yOffset`). */
  datatype BorderPlan = BorderPlan(
    rescale: Size,
    canvas: Size,
    canvasFill: Color,
    canvasColorspace: Colorspace,
    xOffset: int,
    yOffset: int)

  /** `CheckBorder`: detects the object frame and, per axis, adds up the
      clearance missing at the near edge and at the far edge; the near-edge
      deficit also becomes the offset that moves the content back in. No
      plan is made, and nothing is saved, when nothing is missing; otherwise
      the corrected image is saved under the suffix `border_lq_scale`. */
  method CheckBorder(edges: array2<int>, colorspace: Colorspace, borderWidth: nat, outmask: string)
    returns (oframe: Rect, plan: Option<BorderPlan>, saved: Option<Output>)
    ensures IsObjectsFrame(edges, oframe)
    ensures plan.None? <==> Clear(oframe, edges.Length0, edges.Length1, borderWidth)
    ensures saved.Some? <==> plan.Some?
    ensures plan.Some? ==>
      saved == Some(SaveCorrectedImage(outmask, "border_lq_scale", "Enclose objects into safe zone"))
    ensures plan.Some? ==>
      var w, h := edges.Length0, edges.Length1;
      var xOverflow := Deficit(oframe.xOff, borderWidth) + Deficit(w - XEnd(oframe), borderWidth);
      var yOverflow := Deficit(oframe.yOff, borderWidth) + Deficit(h - YEnd(oframe), borderWidth);
      plan.value.rescale == Size(w - xOverflow, h - yOverflow) &&
      plan.value.canvas == Size(w, h) &&
      plan.value.canvasFill == ColorNamed("white") &&
      plan.value.canvasColorspace == colorspace &&
      plan.value.xOffset == Deficit(oframe.xOff, borderWidth) &&
      plan.value.yOffset == Deficit(oframe.yOff, borderWidth)
    ensures plan.Some? ==>
      plan.value.rescale.width <= plan.value.canvas.width &&
      plan.value.rescale.height <= plan.value.canvas.height &&
      (plan.value.rescale.width < plan.value.canvas.width || plan.value.rescale.height < plan.value.canvas.height)
    ensures plan.Some? ==>
      oframe.xOff + plan.value.xOffset >= borderWidth && oframe.yOff + plan.value.yOffset >= borderWidth
  {
    oframe := GetObjectsFrame(edges);
    var width, height := edges.Length0, edges.Length1;

    var xOverflow := 0;
    var xOffset := 0;
    if oframe.xOff < borderWidth {
      xOverflow := xOverflow + (borderWidth - oframe.xOff);
      xOffset := borderWidth - oframe.xOff;
    }
    if width - (oframe.xOff + oframe.width) < borderWidth {
      xOverflow := xOverflow + ((oframe.xOff + oframe.width) - (width - borderWidth));
    }
    assert xOverflow == Deficit(oframe.xOff, borderWidth) + Deficit(width - XEnd(oframe), borderWidth);
    assert xOffset == Deficit(oframe.xOff, borderWidth);

    var yOverflow := 0;
    var yOffset := 0;
    if oframe.yOff < borderWidth {
      yOverflow := yOverflow + (borderWidth - oframe.yOff);
      yOffset := borderWidth - oframe.yOff;
    }
    if height - (oframe.yOff + oframe.height) < borderWidth {
      yOverflow := yOverflow + ((oframe.yOff + oframe.height) - (height - borderWidth));
    }
    assert yOverflow == Deficit(oframe.yOff, borderWidth) + Deficit(height - YEnd(oframe), borderWidth);
    assert yOffset == Deficit(oframe.yOff, borderWidth);

    if xOverflow <= 0 && yOverflow <= 0 {
      return oframe, None, None;
    }

    plan := Some(BorderPlan(
      Size(width - xOverflow, height - yOverflow),
      Size(width, height),
      ColorNamed("white"),
      colorspace,
      xOffset,
      yOffset));
    saved := Some(SaveCorrectedImage(outmask, "border_lq_scale", "Enclose objects into safe zone"));
  }

  /** In terms of the pixels: an object frame with content is `Clear`
      exactly when every significant pixel lies in columns `border` to
      `width - border` and rows `border` to `height - border`, both ends
      included. */
  lemma ClearMargins(edges: array2<int>, r: Rect, border: int)
    requires IsObjectsFrame(edges, r)
    requires exists x, y :: Significant(edges, x, y)
    ensures Clear(r, edges.Length0, edges.Length1, border) <==>
      forall x, y :: Significant(edges, x, y) ==>
        border <= x <= edges.Length0 - border && border <= y <= edges.Length1 - border
  {
    var y1 :| Significant(edges, r.xOff, y1);
    var y3 :| Significant(edges, XEnd(r), y3);
    var x1 :| Significant(edges, x1, r.yOff);
    var x3 :| Significant(edges, x3, YEnd(r));
  }

  /** An image without a significant pixel has the zero frame, which touches
      two image edges: with a positive margin it is never clear, and the
      plan's offsets are the whole margin on both axes. */
  lemma BlankImagePlans(edges: array2<int>, r: Rect, borderWidth: nat)
    requires !exists x, y :: Significant(edges, x, y)
    requires IsObjectsFrame(edges, r)
    requires borderWidth > 0
    ensures !Clear(r, edges.Length0, edges.Length1, borderWidth)
    ensures Deficit(r.xOff, borderWidth) == borderWidth && Deficit(r.yOff, borderWidth) == borderWidth
  {
  }

  // ---------------------------------------------------------------------
  // Pad-to-size plan
  // ---------------------------------------------------------------------

  /** An image of size `inner` framed by `borderWidth` columns on the left
      and on the right and `borderHeight` rows on the top and on the bottom,
      all painted `fill`. */
  datatype BorderedImage = BorderedImage(inner: Size, borderWidth: nat, borderHeight: nat, fill: Color)

  /** Size of a bordered image. */
  function Outer(b: BorderedImage): Size
  {
    Size(b.inner.width + 2 * b.borderWidth, b.inner.height + 2 * b.borderHeight)
  }

  /** The border colour: blank CMYK for a CMYK image, white otherwise. */
  function FillFor(colorspace: Colorspace): (c: Color)
    ensures c.ColorCMYK? <==> colorspace == CMYKColorspace
    ensures c.ColorCMYK? ==> c == ColorCMYK(0, 0, 0, 0)
    ensures c.ColorRGB? ==> c == ColorRGB(65535, 65535, 65535)
    ensures colorspace != CMYKColorspace ==> c == ColorRGB(65535, 65535, 65535)
  {
    if colorspace == CMYKColorspace then ColorCMYK(0, 0, 0, 0) else ColorRGB(65535, 65535, 65535)
  }

  /** `AddBorder`: pads each axis shorter than its target with an equal
      border on both sides; an odd shortfall first loses one pixel of the
      image, so that the two halves of the border are equal. */
  method AddBorder(image: Size, colorspace: Colorspace, width: int, height: int) returns (res: BorderedImage)
    requires image.width >= 1 && image.height >= 1
    requires width >= 0 && height >= 0
    ensures Outer(res) == Size(Max(image.width, width), Max(image.height, height))
    ensures image.width < width ==>
      res.borderWidth == (width - image.width + 1) / 2 &&
      res.inner.width == image.width - (width - image.width) % 2
    ensures image.width >= width ==> res.borderWidth == 0 && res.inner.width == image.width
    ensures image.height < height ==>
      res.borderHeight == (height - image.height + 1) / 2 &&
      res.inner.height == image.height - (height - image.height) % 2
    ensures image.height >= height ==> res.borderHeight == 0 && res.inner.height == image.height
    ensures res.fill == FillFor(colorspace)
  {
    var size := image;
    var borderWidth: nat := 0;
    var borderHeight: nat := 0;

    if size.width < width {
      var d := width - size.width;
      if d % 2 == 1 {
        size := Size(size.width - 1, size.height);
      }
      borderWidth := (d + 1) / 2;
    }

    if size.height < height {
      var d := height - size.height;
      if d % 2 == 1 {
        size := Size(size.width, size.height - 1);
      }
      borderHeight := (d + 1) / 2;
    }

    res := BorderedImage(size, borderWidth, borderHeight, FillFor(colorspace));
  }

  // ---------------------------------------------------------------------
  // Output files and the report line
  // ---------------------------------------------------------------------

  /** What one step leaves behind: the files it writes, in order, and the
      line it prints (without the line terminator). */
  datatype Output = Output(written: seq<string>, line: string)

  /** The report record `<path> TAB <preview-path> TAB <description>`. */
  function ReportLine(outfile: string, preview: string, descr: string): string
  {
    outfile + "\t" + preview + "\t" + descr
  }

  /** Splits a line at every tab character. */
  function Fields(s: string): (fs: seq<string>)
    ensures |fs| >= 1
  {
    if s == [] then [""]
    else
      var rest := Fields(s[1..]);
      if s[0] == '\t' then [""] + rest
      else [[s[0]] + rest[0]] + rest[1..]
  }

  lemma {:induction false} FieldsWithoutTab(s: string)
    requires '\t' !in s
    ensures Fields(s) == [s]
  {
    if s != [] {
      FieldsWithoutTab(s[1..]);
      assert [s[0]] + s[1..] == s;
    }
  }

  lemma {:induction false} FieldsAfterTab(a: string, b: string)
    requires '\t' !in a
    ensures Fields(a + "\t" + b) == [a] + Fields(b)
  {
    if a == [] {
      assert a + "\t" + b == "\t" + b;
      assert ("\t" + b)[1..] == b;
    } else {
      assert (a + "\t" + b)[0] == a[0] && (a + "\t" + b)[1..] == a[1..] + "\t" + b;
      FieldsAfterTab(a[1..], b);
      assert [a[0]] + a[1..] == a;
    }
  }

  /** A report line splits back into its three fields when none of them
      holds a tab. */
  lemma FieldsOfReportLine(outfile: string, preview: string, descr: string)
    requires '\t' !in outfile && '\t' !in preview && '\t' !in descr
    ensures Fields(ReportLine(outfile, preview, descr)) == [outfile, preview, descr]
  {
    assert ReportLine(outfile, preview, descr) == outfile + "\t" + (preview + "\t" + descr);
    FieldsAfterTab(outfile, preview + "\t" + descr);
    FieldsAfterTab(preview, descr);
    FieldsWithoutTab(descr);
  }

  /** `SaveCorrectedImage`: writes the image to `<outmask>_<suffix>` and a
      preview beside it with `.jpg` appended, and reports both. */
  function SaveCorrectedImage(outmask: string, suffix: string, descr: string): (o: Output)
    ensures |o.written| == 2
    ensures o.written[1] == o.written[0] + ".jpg"
    ensures |o.written[0]| == |outmask| + 1 + |suffix|
    ensures o.written[0][..|outmask|] == outmask && o.written[0][|outmask|] == '_'
    ensures o.written[0][|outmask| + 1..] == suffix
    ensures o.line == ReportLine(o.written[0], o.written[1], descr)
  {
    var outfile := outmask + "_" + suffix;
    var preview := outfile + ".jpg";
    Output([outfile, preview], ReportLine(outfile, preview, descr))
  }

  /** The line `SaveCorrectedImage` prints names exactly the two files it
      wrote, then the description. */
  lemma SaveCorrectedImageReport(outmask: string, suffix: string, descr: string)
    requires '\t' !in outmask && '\t' !in suffix && '\t' !in descr
    ensures var o := SaveCorrectedImage(outmask, suffix, descr);
      Fields(o.line) == [o.written[0], o.written[1], descr]
  {
    var outfile := outmask + "_" + suffix;
    assert '\t' !in outfile by {
      assert forall i :: 0 <= i < |outfile| ==> outfile[i] == (if i < |outmask| then outmask[i] else if i == |outmask| then '_' else suffix[i - |outmask| - 1]);
    }
    var preview := outfile + ".jpg";
    assert '\t' !in preview by {
      assert forall i :: 0 <= i < |preview| ==> preview[i] == (if i < |outfile| then outfile[i] else ".jpg"[i - |outfile|]);
    }
    FieldsOfReportLine(outfile, preview, descr);
  }

  /** `ConvertToPDF`: writes `<outmask>.pdf` and reports it with an empty
      preview field. */
  function ConvertToPDF(outmask: string): (o: Output)
    ensures o.written == [outmask + ".pdf"]
    ensures o.line == ReportLine(o.written[0], "", "Converted to pdf")
  {
    var outfile := outmask + ".pdf";
    Output([outfile], outfile + "\t\t" + "Converted to pdf")
  }

  /** The PDF report line splits into the path, an empty preview and the
      description. */
  lemma ConvertToPDFReport(outmask: string)
    requires '\t' !in outmask
    ensures Fields(ConvertToPDF(outmask).line) == [outmask + ".pdf", "", "Converted to pdf"]
  {
    var outfile := outmask + ".pdf";
    assert '\t' !in outfile by {
      assert forall i :: 0 <= i < |outfile| ==> outfile[i] == (if i < |outmask| then outmask[i] else ".pdf"[i - |outmask|]);
    }
    FieldsOfReportLine(outfile, "", "Converted to pdf");
  }

  /** Largest width and height `MakeBase` saves. */
  const BaseSizeLimit := 2000

  /** `MakeBase`: saves the image unchanged, unless it is wider or taller
      than the limit, in which case nothing happens. */
  function MakeBase(image: Size, outmask: string): (r: Option<Output>)
    ensures r.Some? <==> image.width <= BaseSizeLimit && image.height <= BaseSizeLimit
    ensures r.Some? ==> r.value == SaveCorrectedImage(outmask, "base", "Save as is")
  {
    if image.width > BaseSizeLimit || image.height > BaseSizeLimit then None
    else Some(SaveCorrectedImage(outmask, "base", "Save as is"))
  }
}
