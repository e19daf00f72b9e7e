/** The crop planner of `toolkit/src/smart_crop.hpp`: the per-axis trim
    solver, the object-frame detector over an edge-filtered image, and the
    crop rectangle built from both. */
module SmartCropping {
  import opened Geometry

  // ---------------------------------------------------------------------
  // Per-axis trim solver
  // ---------------------------------------------------------------------

  /** What to cut from the leading (left or top) and trailing (right or
      bottom) end of one axis. */
  datatype Trims = Trims(dl: int, dr: int) {
    function Plus(other: Trims): Trims
    {
      Trims(dl + other.dl, dr + other.dr)
    }
  }

  /** Shares `n` between both ends; the leading end gets the truncated half,
      the trailing end the remainder. */
  function EvenSplit(n: int): (t: Trims)
    ensures t.dl + t.dr == n
    ensures n >= 0 ==> 0 <= t.dl <= t.dr <= t.dl + 1
  {
    Trims(Half(n), n - Half(n))
  }

  /** Slack before the protected range `[frameOff, frameOff + frameWidth)`. */
  function LeadSlack(frameOff: int): int { frameOff }

  /** Slack after the protected range. */
  function TrailSlack(orig: int, frameOff: int, frameWidth: int): int
  {
    orig - frameWidth - frameOff
  }

  /** The trims the solver chooses, written as the sum of its three phases:
      an even split of the smaller slack, a one-sided cut of at most the
      difference of the slacks on the side with more slack, and an even
      split of whatever is still left. */
  function CropTrims(orig: int, dest: int, frameOff: int, frameWidth: int): (t: Trims)
    ensures t.dl + t.dr == orig - dest
  {
    var dd := orig - dest;
    var lead := LeadSlack(frameOff);
    var trail := TrailSlack(orig, frameOff, frameWidth);
    var a := Min(lead, trail);
    if dd <= a then EvenSplit(dd)
    else
      var b := if lead > trail then lead - trail else trail - lead;
      var oneSided := Min(dd - a, b);
      var firstTwo := EvenSplit(a).Plus(if lead > trail then Trims(oneSided, 0) else Trims(0, oneSided));
      if dd - a <= b then firstTwo else firstTwo.Plus(EvenSplit(dd - a - b))
  }

  /** `GetCrop`: accumulates the trims into `dl` and `dr` phase by phase,
      returning as soon as the remaining cut `dd` fits the current phase. */
  method GetCrop(orig: int, dest: int, frameOff: int, frameWidth: int) returns (dl: int, dr: int)
    ensures Trims(dl, dr) == CropTrims(orig, dest, frameOff, frameWidth)
  {
    dl, dr := 0, 0;
    var dd := orig - dest;
    var a := Min(frameOff, orig - frameWidth - frameOff);
    if dd <= a {
      dl := dl + Half(dd);
      dr := dr + (dd - Half(dd));
      return;
    }
    dl := dl + Half(a);
    dr := dr + (a - Half(a));
    dd := dd - a;

    if frameOff > orig - frameWidth - frameOff {
      var b := frameOff - (orig - frameWidth - frameOff);
      if dd <= b {
        dl := dl + dd;
        return;
      }
      dl := dl + b;
      dd := dd - b;
    } else {
      var b := (orig - frameWidth - frameOff) - frameOff;
      if dd <= b {
        dr := dr + dd;
        return;
      }
      dr := dr + b;
      dd := dd - b;
    }

    dl := dl + Half(dd);
    dr := dr + (dd - Half(dd));
  }

  /** Neither end is trimmed by a negative amount when the target fits the
      axis and the protected range lies inside it. */
  lemma CropTrimsNonNegative(orig: int, dest: int, frameOff: int, frameWidth: int)
    requires 0 <= dest <= orig
    requires 0 <= frameOff && frameOff + frameWidth <= orig
    ensures CropTrims(orig, dest, frameOff, frameWidth).dl >= 0
    ensures CropTrims(orig, dest, frameOff, frameWidth).dr >= 0
  {
  }

  /** When both slacks cover the whole cut, it is shared evenly: the
      trailing end takes the same as the leading end or one pixel more, so
      the leading end gets the cut's half rounded down. */
  lemma CropTrimsSymmetric(orig: int, dest: int, frameOff: int, frameWidth: int)
    requires 0 <= orig - dest <= Min(LeadSlack(frameOff), TrailSlack(orig, frameOff, frameWidth))
    ensures var t := CropTrims(orig, dest, frameOff, frameWidth);
      t.dl + t.dr == orig - dest && 0 <= t.dl <= t.dr <= t.dl + 1
  {
  }

  /** When the larger slack covers the whole cut, neither end reaches into
      the protected range. */
  lemma CropTrimsKeepFrame(orig: int, dest: int, frameOff: int, frameWidth: int)
    requires 0 <= frameOff && 0 <= TrailSlack(orig, frameOff, frameWidth)
    requires 0 <= orig - dest <= Max(LeadSlack(frameOff), TrailSlack(orig, frameOff, frameWidth))
    ensures var t := CropTrims(orig, dest, frameOff, frameWidth);
      0 <= t.dl <= LeadSlack(frameOff) && 0 <= t.dr <= TrailSlack(orig, frameOff, frameWidth)
  {
  }

  /** The exact condition under which the protected range survives: the cut
      may use the larger slack and an even part of the smaller one. When the
      smaller slack is odd, one pixel of it stays unused and the trailing end
      cuts into the range one pixel early. */
  lemma CropTrimsKeepFrameExactly(orig: int, dest: int, frameOff: int, frameWidth: int)
    requires 0 <= frameOff && 0 <= TrailSlack(orig, frameOff, frameWidth)
    requires 0 <= orig - dest
    ensures var t := CropTrims(orig, dest, frameOff, frameWidth);
      var lead := LeadSlack(frameOff);
      var trail := TrailSlack(orig, frameOff, frameWidth);
      (t.dl <= lead && t.dr <= trail) <==>
      orig - dest <= Max(lead, trail) + 2 * Half(Min(lead, trail))
  {
  }

  /** Once the cut exceeds the larger slack, the amounts by which the two
      ends reach past their slack differ by at most two pixels, the trailing
      end reaching further. */
  lemma CropTrimsIntrusionBalanced(orig: int, dest: int, frameOff: int, frameWidth: int)
    requires 0 <= frameOff && 0 <= TrailSlack(orig, frameOff, frameWidth)
    requires orig - dest > Max(LeadSlack(frameOff), TrailSlack(orig, frameOff, frameWidth))
    ensures var t := CropTrims(orig, dest, frameOff, frameWidth);
      var excess := (t.dr - TrailSlack(orig, frameOff, frameWidth)) - (t.dl - LeadSlack(frameOff));
      0 <= excess <= 2
  {
  }

  /** A 1000-pixel axis cut to 800 around a protected range at 100 of width
      300: 50 pixels go from the leading end, 150 from the trailing one. */
  lemma CropTrimsExample()
    ensures CropTrims(1000, 800, 100, 300) == Trims(50, 150)
  {
  }

  // ---------------------------------------------------------------------
  // Object-frame detector
  // ---------------------------------------------------------------------

  /** Blue-channel level above which a pixel of the edge-filtered image
      counts as part of an object. */
  const Threshold := 1000

  /** Pixel (`x`, `y`) of the edge-filtered image is significant; `edges[x, y]`
      is its blue channel, `x` running over the width and `y` over the height. */
  predicate Significant(edges: array2<int>, x: int, y: int)
    reads edges
  {
    0 <= x < edges.Length0 && 0 <= y < edges.Length1 && edges[x, y] > Threshold
  }

  /** `r` is the object frame of `edges`: the smallest rectangle, with
      inclusive far edges, around every significant pixel, or the zero
      rectangle when there is none. */
  ghost predicate IsObjectsFrame(edges: array2<int>, r: Rect)
    reads edges
  {
    if exists x, y :: Significant(edges, x, y) then
      (forall x, y :: Significant(edges, x, y) ==>
         r.xOff <= x <= XEnd(r) && r.yOff <= y <= YEnd(r)) &&
      (exists y :: Significant(edges, r.xOff, y)) &&
      (exists y :: Significant(edges, XEnd(r), y)) &&
      (exists x :: Significant(edges, x, r.yOff)) &&
      (exists x :: Significant(edges, x, YEnd(r)))
    else
      r == Rect(0, 0, 0, 0)
  }

  /** An image has only one object frame. */
  lemma ObjectsFrameUnique(edges: array2<int>, r1: Rect, r2: Rect)
    requires IsObjectsFrame(edges, r1) && IsObjectsFrame(edges, r2)
    ensures r1 == r2
  {
    if exists x, y :: Significant(edges, x, y) {
      var y1 :| Significant(edges, r1.xOff, y1);
      var y2 :| Significant(edges, r2.xOff, y2);
      var y3 :| Significant(edges, XEnd(r1), y3);
      var y4 :| Significant(edges, XEnd(r2), y4);
      var x1 :| Significant(edges, x1, r1.yOff);
      var x2 :| Significant(edges, x2, r2.yOff);
      var x3 :| Significant(edges, x3, YEnd(r1));
      var x4 :| Significant(edges, x4, YEnd(r2));
    }
  }

  /** An object frame lies inside the image; when there are significant
      pixels, even its inclusive far edges do. */
  lemma ObjectsFrameInside(edges: array2<int>, r: Rect)
    requires IsObjectsFrame(edges, r)
    ensures Inside(r, edges.Length0, edges.Length1)
    ensures (exists x, y :: Significant(edges, x, y)) ==>
      XEnd(r) < edges.Length0 && YEnd(r) < edges.Length1
  {
    if exists x, y :: Significant(edges, x, y) {
      var y1 :| Significant(edges, r.xOff, y1);
      var y3 :| Significant(edges, XEnd(r), y3);
      var x1 :| Significant(edges, x1, r.yOff);
      var x3 :| Significant(edges, x3, YEnd(r));
      assert 0 <= r.xOff && XEnd(r) < edges.Length0;
      assert 0 <= r.yOff && YEnd(r) < edges.Length1;
    } else {
      assert r == Rect(0, 0, 0, 0);
    }
  }

  /** A 10 x 10 block of significant pixels with its corner at (5, 5) has the
      frame at (5, 5) of width and height 9: the extent is the distance
      between the outermost pixels, not their count. */
  lemma ObjectsFrameOfBlock(edges: array2<int>, r: Rect)
    requires edges.Length0 >= 15 && edges.Length1 >= 15
    requires forall x, y :: Significant(edges, x, y) <==> 5 <= x < 15 && 5 <= y < 15
    requires IsObjectsFrame(edges, r)
    ensures r == Rect(9, 9, 5, 5)
  {
    assert Significant(edges, 5, 5) && Significant(edges, 14, 14);
    var y1 :| Significant(edges, r.xOff, y1);
    var y3 :| Significant(edges, XEnd(r), y3);
    var x1 :| Significant(edges, x1, r.yOff);
    var x3 :| Significant(edges, x3, YEnd(r));
  }

  /** Pixel (`x`, `y`) is visited before pixel (`i`, `j`) by a scan that
      goes column by column and, inside a column, row by row. */
  predicate ScannedBefore(x: int, y: int, i: int, j: int)
  {
    x < i || (x == i && y < j)
  }

  /** No significant pixel is visited before (`i`, `j`). */
  ghost predicate NoneBefore(edges: array2<int>, i: int, j: int)
    reads edges
  {
    forall x, y :: Significant(edges, x, y) ==> !ScannedBefore(x, y, i, j)
  }

  /** Every significant pixel visited before (`i`, `j`) lies within the
      running extremes. */
  ghost predicate BoxedBefore(edges: array2<int>, i: int, j: int, left: int, right: int, bottom: int, top: int)
    reads edges
  {
    forall x, y :: Significant(edges, x, y) && ScannedBefore(x, y, i, j) ==>
      left <= x <= right && bottom <= y <= top
  }

  /** One more pixel visited: the extremes, widened so as to take it in
      when it is significant, still bound everything seen. */
  lemma BoxedStep(edges: array2<int>, i: int, j: int,
                  left: int, right: int, bottom: int, top: int,
                  left': int, right': int, bottom': int, top': int)
    requires BoxedBefore(edges, i, j, left, right, bottom, top)
    requires left' <= left && right <= right' && bottom' <= bottom && top <= top'
    requires Significant(edges, i, j) ==> left' <= i <= right' && bottom' <= j <= top'
    ensures BoxedBefore(edges, i, j + 1, left', right', bottom', top')
  {
    forall x, y | Significant(edges, x, y) && ScannedBefore(x, y, i, j + 1)
      ensures left' <= x <= right' && bottom' <= y <= top'
    {
      if ScannedBefore(x, y, i, j) {
      } else {
        assert x == i && y == j;
      }
    }
  }

  /** One more insignificant pixel visited: still none seen. */
  lemma NoneStep(edges: array2<int>, i: int, j: int)
    requires NoneBefore(edges, i, j) && !Significant(edges, i, j)
    ensures NoneBefore(edges, i, j + 1)
  {
    forall x, y | Significant(edges, x, y)
      ensures !ScannedBefore(x, y, i, j + 1)
    {
      assert !ScannedBefore(x, y, i, j);
    }
  }

  /** A whole column visited is the same as the start of the next one. */
  lemma NextColumn(edges: array2<int>, i: int, left: int, right: int, bottom: int, top: int)
    ensures BoxedBefore(edges, i, edges.Length1, left, right, bottom, top) ==>
      BoxedBefore(edges, i + 1, 0, left, right, bottom, top)
    ensures NoneBefore(edges, i, edges.Length1) ==> NoneBefore(edges, i + 1, 0)
  {
    forall x, y | Significant(edges, x, y)
      ensures ScannedBefore(x, y, i + 1, 0) == ScannedBefore(x, y, i, edges.Length1)
    {
    }
  }

  /** The running extremes of the scan: the least and greatest column
      (`left`, `right`) and row (`bottom`, `top`) of the significant pixels
      seen so far. */
  datatype Extremes = Extremes(left: int, right: int, bottom: int, top: int)

  /** The sentinels the scan starts from: `left` at the width, `bottom` at
      the height and both maxima at 0, so that `left > right` or
      `bottom > top` until a significant pixel is met (in a non-empty
      image). */
  function Start(edges: array2<int>): (e: Extremes)
    ensures edges.Length0 > 0 ==> e.left > e.right
    ensures edges.Length1 > 0 ==> e.bottom > e.top
  {
    Extremes(edges.Length0, 0, edges.Length1, 0)
  }

  /** The extremes after visiting pixel (`x`, `y`): each one moves to take
      the pixel in when it is significant and lies beyond it. */
  function Visit(edges: array2<int>, e: Extremes, x: int, y: int): (e': Extremes)
    reads edges
    ensures Significant(edges, x, y) ==>
      e'.left == Min(e.left, x) && e'.right == Max(e.right, x) &&
      e'.bottom == Min(e.bottom, y) && e'.top == Max(e.top, y)
    ensures !Significant(edges, x, y) ==> e' == e
  {
    if !Significant(edges, x, y) then e
    else
      Extremes(if x < e.left then x else e.left, if x > e.right then x else e.right,
               if y < e.bottom then y else e.bottom, if y > e.top then y else e.top)
  }

  /** The extremes once the scan has visited every pixel before (`i`, `j`):
      whole columns `0 .. i - 1`, then rows `0 .. j - 1` of column `i`. */
  function Scanned(edges: array2<int>, i: nat, j: nat): Extremes
    requires i <= edges.Length0 && j <= edges.Length1
    reads edges
    decreases i, j
  {
    if j > 0 then Visit(edges, Scanned(edges, i, j - 1), i, j - 1)
    else if i > 0 then Scanned(edges, i - 1, edges.Length1)
    else Start(edges)
  }

  /** Each of the four extremes of `e` is attained by a significant pixel. */
  ghost predicate Attained(edges: array2<int>, e: Extremes)
    reads edges
  {
    (exists y :: Significant(edges, e.left, y)) &&
    (exists y :: Significant(edges, e.right, y)) &&
    (exists x :: Significant(edges, x, e.bottom)) &&
    (exists x :: Significant(edges, x, e.top))
  }

  /** What the extremes mean part-way through the scan: they bound every
      significant pixel visited; they are still the sentinels when none was
      visited, and otherwise are ordered and each attained. */
  ghost predicate ScanInvariant(edges: array2<int>, i: int, j: int, e: Extremes)
    reads edges
  {
    BoxedBefore(edges, i, j, e.left, e.right, e.bottom, e.top) &&
    (NoneBefore(edges, i, j) ==> e == Start(edges)) &&
    (!NoneBefore(edges, i, j) ==>
      e.left <= e.right && e.bottom <= e.top && Attained(edges, e))
  }

  /** Visiting one more pixel keeps the meaning of the extremes. */
  lemma VisitStep(edges: array2<int>, i: int, j: int, e: Extremes)
    requires 0 <= i < edges.Length0 && 0 <= j < edges.Length1
    requires ScanInvariant(edges, i, j, e)
    ensures ScanInvariant(edges, i, j + 1, Visit(edges, e, i, j))
  {
    var e' := Visit(edges, e, i, j);
    if Significant(edges, i, j) {
      BoxedStep(edges, i, j, e.left, e.right, e.bottom, e.top, e'.left, e'.right, e'.bottom, e'.top);
      assert !NoneBefore(edges, i, j + 1) by {
        assert ScannedBefore(i, j, i, j + 1);
      }
      if NoneBefore(edges, i, j) {
        assert e' == Extremes(i, i, j, j);
      } else {
        var yl :| Significant(edges, e.left, yl);
        var yr :| Significant(edges, e.right, yr);
        var xb :| Significant(edges, xb, e.bottom);
        var xt :| Significant(edges, xt, e.top);
        assert Significant(edges, e'.left, if i < e.left then j else yl);
        assert Significant(edges, e'.right, if i > e.right then j else yr);
        assert Significant(edges, if j < e.bottom then i else xb, e'.bottom);
        assert Significant(edges, if j > e.top then i else xt, e'.top);
      }
    } else {
      BoxedStep(edges, i, j, e.left, e.right, e.bottom, e.top, e.left, e.right, e.bottom, e.top);
      if NoneBefore(edges, i, j) {
        NoneStep(edges, i, j);
      } else {
        assert !NoneBefore(edges, i, j + 1) by {
          var x, y :| Significant(edges, x, y) && ScannedBefore(x, y, i, j);
          assert ScannedBefore(x, y, i, j + 1);
        }
      }
    }
  }

  /** Finishing a column keeps the meaning of the extremes at the start of
      the next one. */
  lemma NextColumnMeaning(edges: array2<int>, i: int, e: Extremes)
    requires ScanInvariant(edges, i, edges.Length1, e)
    ensures ScanInvariant(edges, i + 1, 0, e)
  {
    NextColumn(edges, i, e.left, e.right, e.bottom, e.top);
    if !NoneBefore(edges, i, edges.Length1) {
      var x, y :| Significant(edges, x, y) && ScannedBefore(x, y, i, edges.Length1);
      assert ScannedBefore(x, y, i + 1, 0);
    }
  }

  /** Before the first pixel, nothing has been visited and the extremes are
      the sentinels. */
  lemma StartMeaning(edges: array2<int>)
    ensures ScanInvariant(edges, 0, 0, Start(edges))
  {
    forall x, y | Significant(edges, x, y)
      ensures !ScannedBefore(x, y, 0, 0)
    {
    }
  }

  /** The extremes after any prefix of the scan have that meaning. */
  lemma {:induction false} ScannedMeaning(edges: array2<int>, i: nat, j: nat)
    requires i <= edges.Length0 && j <= edges.Length1
    requires i == edges.Length0 ==> j == 0
    ensures ScanInvariant(edges, i, j, Scanned(edges, i, j))
    decreases i, j
  {
    if j > 0 {
      ScannedMeaning(edges, i, j - 1);
      VisitStep(edges, i, j - 1, Scanned(edges, i, j - 1));
    } else if i > 0 {
      ScannedMeaning(edges, i - 1, edges.Length1);
      NextColumnMeaning(edges, i - 1, Scanned(edges, i - 1, edges.Length1));
    } else {
      StartMeaning(edges);
    }
  }

  /** The rectangle the scan reports from its final extremes: the zero
      rectangle while the sentinels are still apart, otherwise the box from
      the least to the greatest coordinate, its extent the difference. */
  lemma ScanFrame(edges: array2<int>, e: Extremes)
    requires e == Scanned(edges, edges.Length0, 0)
    ensures e.left > e.right || e.bottom > e.top ==> IsObjectsFrame(edges, Rect(0, 0, 0, 0))
    ensures e.left <= e.right && e.bottom <= e.top ==>
      IsObjectsFrame(edges, Rect(e.right - e.left, e.top - e.bottom, e.left, e.bottom))
  {
    ScannedMeaning(edges, edges.Length0, 0);
    if NoneBefore(edges, edges.Length0, 0) {
      assert !exists x, y :: Significant(edges, x, y);
    } else {
      var x, y :| Significant(edges, x, y) && ScannedBefore(x, y, edges.Length0, 0);
      var r := Rect(e.right - e.left, e.top - e.bottom, e.left, e.bottom);
      assert XEnd(r) == e.right && YEnd(r) == e.top;
    }
  }

  /** `GetObjectsFrame`: scans every column `i` and, inside it, every row `j`,
      keeping the running extremes of the significant pixels' coordinates.
      The extremes start at sentinels (`left` = width, `right` = 0, `bottom`
      = height, `top` = 0) that leave `left > right` or `bottom > top` unless
      a significant pixel is found; that is how an image without one is
      recognised. */
  method GetObjectsFrame(edges: array2<int>) returns (frame: Rect)
    ensures IsObjectsFrame(edges, frame)
    ensures Inside(frame, edges.Length0, edges.Length1)
  {
    var width, height := edges.Length0, edges.Length1;
    var bottom, top, left, right := height, 0, width, 0;
    for i := 0 to width
      invariant Extremes(left, right, bottom, top) == Scanned(edges, i, 0)
    {
      for j := 0 to height
        invariant Extremes(left, right, bottom, top) == Scanned(edges, i, j)
      {
        if edges[i, j] > Threshold {
          if j < bottom { bottom := j; }
          if j > top { top := j; }
          if i < left { left := i; }
          if i > right { right := i; }
        }
      }
    }
    ScanFrame(edges, Extremes(left, right, bottom, top));
    if left > right || bottom > top {
      return Rect(0, 0, 0, 0);
    }
    frame := Rect(right - left, top - bottom, left, bottom);
    ObjectsFrameInside(edges, frame);
  }

  // ---------------------------------------------------------------------
  // Crop rectangle
  // ---------------------------------------------------------------------

  /** The test `base > target` between a `size_t` extent and an `int`
      target: a negative target converts to a huge unsigned value and never
      passes it. */
  predicate Exceeds(base: int, target: int)
  {
    0 <= target < base
  }

  /** The rectangle `SmartCrop` keeps of a `baseWidth` x `baseHeight` image
      around the frame `oframe`: on an axis longer than its target, offset
      `dl` of that axis's trims and extent exactly the target; on any other
      axis, offset 0 and the full extent. */
  function CropFrame(baseWidth: nat, baseHeight: nat, width: int, height: int, oframe: Rect): (r: Rect)
  {
    Rect(if Exceeds(baseWidth, width) then width else baseWidth,
         if Exceeds(baseHeight, height) then height else baseHeight,
         if Exceeds(baseWidth, width) then CropTrims(baseWidth, width, oframe.xOff, oframe.width).dl else 0,
         if Exceeds(baseHeight, height) then CropTrims(baseHeight, height, oframe.yOff, oframe.height).dl else 0)
  }

  /** The crop rectangle of a frame inside the image lies inside the image,
      and on every trimmed axis whose larger slack covers the cut it spans
      the frame's offset up to its far edge `XEnd`/`YEnd`, that edge itself
      excluded: the trims treat the frame as the half-open range
      `[off, off + extent)`. */
  lemma CropFrameInside(baseWidth: nat, baseHeight: nat, width: int, height: int, oframe: Rect)
    requires Inside(oframe, baseWidth, baseHeight)
    ensures Inside(CropFrame(baseWidth, baseHeight, width, height, oframe), baseWidth, baseHeight)
    ensures (Exceeds(baseWidth, width) &&
             baseWidth - width <= Max(LeadSlack(oframe.xOff), TrailSlack(baseWidth, oframe.xOff, oframe.width))) ==>
      CropFrame(baseWidth, baseHeight, width, height, oframe).xOff <= oframe.xOff &&
      XEnd(oframe) <= XEnd(CropFrame(baseWidth, baseHeight, width, height, oframe))
    ensures (Exceeds(baseHeight, height) &&
             baseHeight - height <= Max(LeadSlack(oframe.yOff), TrailSlack(baseHeight, oframe.yOff, oframe.height))) ==>
      CropFrame(baseWidth, baseHeight, width, height, oframe).yOff <= oframe.yOff &&
      YEnd(oframe) <= YEnd(CropFrame(baseWidth, baseHeight, width, height, oframe))
  {
    if Exceeds(baseWidth, width) {
      CropTrimsNonNegative(baseWidth, width, oframe.xOff, oframe.width);
      if baseWidth - width <= Max(LeadSlack(oframe.xOff), TrailSlack(baseWidth, oframe.xOff, oframe.width)) {
        CropTrimsKeepFrame(baseWidth, width, oframe.xOff, oframe.width);
      }
    }
    if Exceeds(baseHeight, height) {
      CropTrimsNonNegative(baseHeight, height, oframe.yOff, oframe.height);
      if baseHeight - height <= Max(LeadSlack(oframe.yOff), TrailSlack(baseHeight, oframe.yOff, oframe.height)) {
        CropTrimsKeepFrame(baseHeight, height, oframe.yOff, oframe.height);
      }
    }
  }

  /** What the crop keeps of the detected content along the width: on a
      trimmed axis whose larger slack covers the cut, every significant
      pixel left of the frame's far edge is kept, while the last significant
      column, at `XEnd(oframe)`, is kept exactly when the trailing trim is
      smaller than the trailing slack, since the object frame's far edge is
      inclusive but the trims count it as slack. */
  lemma CropFrameColumns(edges: array2<int>, width: int, height: int, oframe: Rect)
    requires IsObjectsFrame(edges, oframe)
    requires Exceeds(edges.Length0, width)
    requires edges.Length0 - width <= Max(LeadSlack(oframe.xOff), TrailSlack(edges.Length0, oframe.xOff, oframe.width))
    ensures var c := CropFrame(edges.Length0, edges.Length1, width, height, oframe);
      forall x, y :: Significant(edges, x, y) && x < XEnd(oframe) ==> c.xOff <= x < XEnd(c)
    ensures var c := CropFrame(edges.Length0, edges.Length1, width, height, oframe);
      var t := CropTrims(edges.Length0, width, oframe.xOff, oframe.width);
      forall y :: Significant(edges, XEnd(oframe), y) ==>
        (c.xOff <= XEnd(oframe) < XEnd(c) <==> t.dr < TrailSlack(edges.Length0, oframe.xOff, oframe.width))
  {
    ObjectsFrameInside(edges, oframe);
    CropTrimsNonNegative(edges.Length0, width, oframe.xOff, oframe.width);
    CropTrimsKeepFrame(edges.Length0, width, oframe.xOff, oframe.width);
  }

  /** The same along the height: the last significant row, at
      `YEnd(oframe)`, is kept exactly when the trailing trim is smaller than
      the trailing slack. */
  lemma CropFrameRows(edges: array2<int>, width: int, height: int, oframe: Rect)
    requires IsObjectsFrame(edges, oframe)
    requires Exceeds(edges.Length1, height)
    requires edges.Length1 - height <= Max(LeadSlack(oframe.yOff), TrailSlack(edges.Length1, oframe.yOff, oframe.height))
    ensures var c := CropFrame(edges.Length0, edges.Length1, width, height, oframe);
      forall x, y :: Significant(edges, x, y) && y < YEnd(oframe) ==> c.yOff <= y < YEnd(c)
    ensures var c := CropFrame(edges.Length0, edges.Length1, width, height, oframe);
      var t := CropTrims(edges.Length1, height, oframe.yOff, oframe.height);
      forall x :: Significant(edges, x, YEnd(oframe)) ==>
        (c.yOff <= YEnd(oframe) < YEnd(c) <==> t.dr < TrailSlack(edges.Length1, oframe.yOff, oframe.height))
  {
    ObjectsFrameInside(edges, oframe);
    CropTrimsNonNegative(edges.Length1, height, oframe.yOff, oframe.height);
    CropTrimsKeepFrame(edges.Length1, height, oframe.yOff, oframe.height);
  }

  /** `SmartCrop`: detects the object frame once and, on each axis longer
      than its target, trims it with `GetCrop` around that same frame. The
      frame is returned beside the crop rectangle so that the contract can
      speak of it; the pixel crop itself is left to the image library. */
  method SmartCrop(edges: array2<int>, width: int, height: int) returns (oframe: Rect, cropframe: Rect)
    ensures IsObjectsFrame(edges, oframe)
    ensures cropframe == CropFrame(edges.Length0, edges.Length1, width, height, oframe)
    ensures Inside(cropframe, edges.Length0, edges.Length1)
    ensures (Exceeds(edges.Length0, width) &&
             edges.Length0 - width <= Max(LeadSlack(oframe.xOff), TrailSlack(edges.Length0, oframe.xOff, oframe.width))) ==>
      cropframe.xOff <= oframe.xOff && XEnd(oframe) <= XEnd(cropframe)
    ensures (Exceeds(edges.Length1, height) &&
             edges.Length1 - height <= Max(LeadSlack(oframe.yOff), TrailSlack(edges.Length1, oframe.yOff, oframe.height))) ==>
      cropframe.yOff <= oframe.yOff && YEnd(oframe) <= YEnd(cropframe)
  {
    oframe := GetObjectsFrame(edges);
    cropframe := Rect(edges.Length0, edges.Length1, 0, 0);

    var baseWidth := edges.Length0;
    if Exceeds(baseWidth, width) {
      var dl, dr := GetCrop(baseWidth, width, oframe.xOff, oframe.width);
      assert IsObjectsFrame(edges, oframe);
      cropframe := cropframe.(xOff := dl);
      cropframe := cropframe.(width := baseWidth - dl - dr);
    }

    var baseHeight := edges.Length1;
    if Exceeds(baseHeight, height) {
      var dl, dr := GetCrop(baseHeight, height, oframe.yOff, oframe.height);
      assert IsObjectsFrame(edges, oframe);
      cropframe := cropframe.(yOff := dl);
      cropframe := cropframe.(height := baseHeight - dl - dr);
    }
    CropFrameInside(baseWidth, baseHeight, width, height, oframe);
  }
}
