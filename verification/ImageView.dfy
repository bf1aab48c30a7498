/** Planning which part of an image a model sees, and at what size (src/image_input.rs), over the reals. */
module ImageView {
  import opened Wrappers

  const U32_MAX: nat := 0xFFFF_FFFF

  type u32 = n: nat | n <= U32_MAX

  const MAX_EDGE: nat := 1568
  const MAX_PIXELS: nat := 1_150_000
  const MAX_SOURCE_PIXELS: nat := 64_000_000
  const GUI_SHORT_EDGE: nat := 768

  datatype Region = Region(x: u32, y: u32, width: u32, height: u32)

  datatype Resolution = Resolution(width: u32, height: u32, maxPixels: u32)

  datatype View = View(sourceWidth: u32, sourceHeight: u32, region: Region, width: nat, height: nat)

  datatype ViewError = BadResolution | BadSource | BadRegion | BadView | OutsideView

  const DEFAULT := Resolution(1024, 1024, 786_432)

  predicate GoodResolution(width: nat, height: nat, maxPixels: nat) {
    0 < width <= MAX_EDGE && 0 < height <= MAX_EDGE && 0 < maxPixels <= MAX_PIXELS
  }

  predicate GoodSource(width: u32, height: u32) {
    0 < width && 0 < height && width * height <= MAX_SOURCE_PIXELS
  }

  /** None when the sum does not fit 32 bits. */
  function CheckedAdd(a: u32, b: u32): Option<u32> {
    if a + b > U32_MAX then None else Some(a + b)
  }

  predicate GoodRegion(region: Region, width: u32, height: u32) {
    var right, bottom := CheckedAdd(region.x, region.width), CheckedAdd(region.y, region.height);
    && region.width > 0 && region.height > 0
    && right.Some? && right.value <= width && bottom.Some? && bottom.value <= height
  }

  function MinReal(a: real, b: real): real {
    if b < a then b else a
  }

  function Ratio(a: nat, b: nat): real
    requires b > 0
  {
    a as real / b as real
  }

  function Short(region: Region): nat {
    if region.height < region.width then region.height else region.width
  }

  /** The number whose square root bounds the scale. */
  function PixelRatio(region: Region, resolution: Resolution): real
    requires region.width > 0 && region.height > 0
  {
    resolution.maxPixels as real / (region.width as real * region.height as real)
  }

  predicate IsRoot(root: real, square: real) {
    root >= 0.0 && root * root == square
  }

  /** The scale of the view; `root` is the square root of the pixel ratio. */
  function Scale(region: Region, resolution: Resolution, gui: bool, root: real): real
    requires region.width > 0 && region.height > 0
  {
    var scale := MinReal(MinReal(MinReal(1.0, Ratio(resolution.width, region.width)),
                                 Ratio(resolution.height, region.height)), root);
    if gui then MinReal(scale, Ratio(GUI_SHORT_EDGE, Short(region))) else scale
  }

  /** A side of the view before the pixel budget is enforced: rounded down, and at least one pixel. */
  function Side(length: nat, scale: real): nat {
    var n := (length as real * scale).Floor;
    if n < 1 then 1 else n
  }

  function Trim(longer: nat, shorter: nat, maxPixels: nat): nat
    requires shorter > 0
  {
    var most := if maxPixels / shorter < longer then maxPixels / shorter else longer;
    if most < 1 then 1 else most
  }

  function Plan(width: u32, height: u32, wanted: Option<Region>, asked: Option<Resolution>, gui: bool, root: real)
    : Result<View, ViewError>
  {
    var resolution := if asked.Some? then asked.value else DEFAULT;
    var region := if wanted.Some? then wanted.value else Region(0, 0, width, height);
    if !GoodResolution(resolution.width, resolution.height, resolution.maxPixels) then Err(BadResolution)
    else if !GoodSource(width, height) then Err(BadSource)
    else if !GoodRegion(region, width, height) then Err(BadRegion)
    else
      var scale := Scale(region, resolution, gui, root);
      var w, h := Side(region.width, scale), Side(region.height, scale);
      Ok(if w >= h then View(width, height, region, Trim(w, h, resolution.maxPixels), h)
         else View(width, height, region, w, Trim(h, w, resolution.maxPixels)))
  }

  function Validate(view: View): Result<(), ViewError> {
    if !GoodResolution(view.width, view.height, MAX_PIXELS) then Err(BadResolution)
    else if view.width * view.height > MAX_PIXELS || view.width > view.region.width || view.height > view.region.height
    then Err(BadView)
    else
      match Plan(view.sourceWidth, view.sourceHeight, Some(view.region), None, false, 0.0)
      case Err(e) => Err(e)
      case Ok(_) => Ok(())
  }

  function SourcePoint(view: View, x: real, y: real): Result<(real, real), ViewError> {
    if Validate(view).Err? then Err(Validate(view).error)
    else if x < 0.0 || y < 0.0 || x >= view.width as real || y >= view.height as real then Err(OutsideView)
    else Ok((Along(view.region.x, view.region.width, view.width, x),
             Along(view.region.y, view.region.height, view.height, y)))
  }

  /** A coordinate of the view carried to the source. */
  function Along(start: nat, length: nat, side: nat, x: real): real
    requires side > 0
  {
    start as real + x * length as real / side as real
  }

  // The scale is the greatest one within every limit.

  predicate SideWithin(length: nat, scale: real, limit: nat) {
    length as real * scale <= limit as real
  }

  predicate AreaWithin(region: Region, scale: real, limit: nat) {
    (region.width as real * scale) * (region.height as real * scale) <= limit as real
  }

  predicate WithinLimits(region: Region, resolution: Resolution, gui: bool, scale: real) {
    && 0.0 <= scale <= 1.0
    && SideWithin(region.width, scale, resolution.width) && SideWithin(region.height, scale, resolution.height)
    && AreaWithin(region, scale, resolution.maxPixels)
    && (gui ==> SideWithin(Short(region), scale, GUI_SHORT_EDGE))
  }

  lemma RatioBound(limit: nat, length: nat, scale: real)
    requires length > 0
    ensures SideWithin(length, scale, limit) <==> scale <= Ratio(limit, length)
  {
    var l := length as real;
    assert Ratio(limit, length) * l == limit as real;
    if scale <= Ratio(limit, length) {
      MulMonotone(scale, Ratio(limit, length), l);
    } else {
      MulStrict(Ratio(limit, length), scale, l);
    }
  }

  lemma MulMonotone(a: real, b: real, c: real)
    requires a <= b && c >= 0.0
    ensures a * c <= b * c
  {
  }

  lemma MulStrict(a: real, b: real, c: real)
    requires a < b && c > 0.0
    ensures a * c < b * c
  {
  }

  lemma SquareOrder(a: real, b: real)
    requires a >= 0.0 && b >= 0.0
    ensures a * a <= b * b <==> a <= b
  {
    assert b * b - a * a == (b - a) * (b + a);
    if a < b {
      AreaPositive(b - a, b + a);
    } else if b < a {
      AreaPositive(a - b, a + b);
      assert (b - a) * (b + a) == -((a - b) * (a + b));
    }
  }

  lemma RootBound(region: Region, resolution: Resolution, root: real, scale: real)
    requires region.width > 0 && region.height > 0 && scale >= 0.0
    requires IsRoot(root, PixelRatio(region, resolution))
    ensures AreaWithin(region, scale, resolution.maxPixels) <==> scale <= root
  {
    var area := region.width as real * region.height as real;
    AreaPositive(region.width as real, region.height as real);
    ScaledArea(region.width as real, region.height as real, scale);
    var p := resolution.maxPixels as real;
    assert p == (p / area) * area;
    if scale * scale <= root * root {
      MulMonotone(scale * scale, root * root, area);
    } else {
      MulStrict(root * root, scale * scale, area);
    }
    SquareOrder(scale, root);
  }

  lemma AreaPositive(w: real, h: real)
    requires w > 0.0 && h > 0.0
    ensures w * h > 0.0
  {
  }

  lemma ScaledArea(w: real, h: real, s: real)
    ensures (w * s) * (h * s) == (s * s) * (w * h)
  {
    assert (w * s) * (h * s) == w * (s * (h * s));
    assert s * (h * s) == h * (s * s);
  }

  lemma ScaleIsGreatest(region: Region, resolution: Resolution, gui: bool, root: real, other: real)
    requires region.width > 0 && region.height > 0 && IsRoot(root, PixelRatio(region, resolution))
    ensures WithinLimits(region, resolution, gui, Scale(region, resolution, gui, root))
    ensures WithinLimits(region, resolution, gui, other) ==> other <= Scale(region, resolution, gui, root)
  {
    var scale := Scale(region, resolution, gui, root);
    RatioPositive(resolution.width, region.width);
    RatioPositive(resolution.height, region.height);
    RatioPositive(GUI_SHORT_EDGE, Short(region));
    assert scale >= 0.0;
    LimitsAreBounds(region, resolution, gui, root, scale);
    if other >= 0.0 {
      LimitsAreBounds(region, resolution, gui, root, other);
    }
  }

  lemma RatioPositive(a: nat, b: nat)
    requires b > 0
    ensures Ratio(a, b) >= 0.0
  {
  }

  lemma LimitsAreBounds(region: Region, resolution: Resolution, gui: bool, root: real, scale: real)
    requires region.width > 0 && region.height > 0 && scale >= 0.0
    requires IsRoot(root, PixelRatio(region, resolution))
    ensures WithinLimits(region, resolution, gui, scale)
            <==> && scale <= 1.0 && scale <= Ratio(resolution.width, region.width)
                 && scale <= Ratio(resolution.height, region.height) && scale <= root
                 && (gui ==> scale <= Ratio(GUI_SHORT_EDGE, Short(region)))
  {
    RatioBound(resolution.width, region.width, scale);
    RatioBound(resolution.height, region.height, scale);
    RatioBound(GUI_SHORT_EDGE, Short(region), scale);
    RootBound(region, resolution, root, scale);
  }

  // Bounds of the planned view.

  function ResolutionOf(asked: Option<Resolution>): Resolution {
    if asked.Some? then asked.value else DEFAULT
  }

  lemma SideBounds(length: nat, scale: real, limit: nat)
    requires 0 < length && 0 < limit && 0.0 <= scale <= 1.0 && SideWithin(length, scale, limit)
    ensures 1 <= Side(length, scale) <= limit && Side(length, scale) <= length
    ensures Side(length, scale) as real <= length as real * scale || Side(length, scale) == 1
    ensures Side(length, scale) as real > length as real * scale - 1.0
  {
    MulMonotone(scale, 1.0, length as real);
  }

  /** Sides that are not clamped keep within the pixel budget. */
  lemma UnclampedArea(w: nat, h: nat, a: real, b: real, limit: nat)
    requires w as real <= a && h as real <= b && a * b <= limit as real
    ensures w * h <= limit
  {
    MulMonotone(w as real, a, h as real);
    MulMonotone(h as real, b, a);
    assert (w * h) as real == w as real * h as real;
  }

  /** The pixel budget is kept, also when the shorter side was clamped to one pixel. */
  lemma TrimmedArea(longer: nat, shorter: nat, a: real, b: real, maxPixels: nat)
    requires 1 <= shorter <= longer && 1 <= maxPixels && a * b <= maxPixels as real
    requires longer as real <= a || longer == 1
    requires shorter as real <= b || shorter == 1
    ensures 1 <= Trim(longer, shorter, maxPixels) <= longer
    ensures Trim(longer, shorter, maxPixels) * shorter <= maxPixels
    ensures longer * shorter <= maxPixels ==> Trim(longer, shorter, maxPixels) == longer
  {
    DivisionBound(maxPixels, shorter, longer);
    if shorter > 1 {
      UnclampedArea(longer, shorter, a, b, maxPixels);
    }
  }

  lemma DivisionBound(n: nat, d: nat, q: nat)
    requires d > 0
    ensures n / d * d <= n && (q * d <= n ==> q <= n / d)
  {
    var k := n / d;
    assert k * d == n - n % d;
    if q > k {
      MulMonotoneInt(k + 1, q, d);
      assert (k + 1) * d == k * d + d;
    }
  }

  lemma MulMonotoneInt(a: nat, b: nat, c: nat)
    requires a <= b
    ensures a * c <= b * c
  {
  }

  ghost predicate Bounded(view: View, region: Region, resolution: Resolution, gui: bool) {
    && view.region == region
    && 1 <= view.width <= resolution.width && 1 <= view.height <= resolution.height
    && view.width <= region.width && view.height <= region.height
    && view.width * view.height <= resolution.maxPixels
    && (gui ==> view.width <= GUI_SHORT_EDGE || view.height <= GUI_SHORT_EDGE)
  }

  lemma SidesWithin(region: Region, resolution: Resolution, gui: bool, scale: real)
    requires region.width > 0 && region.height > 0 && WithinLimits(region, resolution, gui, scale)
    requires GoodResolution(resolution.width, resolution.height, resolution.maxPixels)
    ensures var w, h := Side(region.width, scale), Side(region.height, scale);
            && 1 <= w <= resolution.width && 1 <= h <= resolution.height && w <= region.width && h <= region.height
            && (gui ==> w <= GUI_SHORT_EDGE || h <= GUI_SHORT_EDGE)
  {
    SideBounds(region.width, scale, resolution.width);
    SideBounds(region.height, scale, resolution.height);
    if gui {
      SideBounds(Short(region), scale, GUI_SHORT_EDGE);
    }
  }

  lemma AreaOfSides(region: Region, resolution: Resolution, gui: bool, scale: real)
    requires region.width > 0 && region.height > 0 && WithinLimits(region, resolution, gui, scale)
    requires GoodResolution(resolution.width, resolution.height, resolution.maxPixels)
    ensures var w, h, most := Side(region.width, scale), Side(region.height, scale), resolution.maxPixels;
            && (w >= h ==> 1 <= Trim(w, h, most) <= w && Trim(w, h, most) * h <= most)
            && (w < h ==> 1 <= Trim(h, w, most) <= h && w * Trim(h, w, most) <= most)
            && (w * h <= most ==> w >= h ==> Trim(w, h, most) == w)
            && (w * h <= most ==> w < h ==> Trim(h, w, most) == h)
  {
    hide Side, Trim;
    var a, b := region.width as real * scale, region.height as real * scale;
    var w, h, most := Side(region.width, scale), Side(region.height, scale), resolution.maxPixels;
    SideBounds(region.width, scale, resolution.width);
    SideBounds(region.height, scale, resolution.height);
    if w >= h {
      TrimmedArea(w, h, a, b, most);
    } else {
      assert b * a == a * b;
      TrimmedArea(h, w, b, a, most);
    }
  }

  /** Every planned view keeps within the resolution, the region, the pixel budget and the short edge. */
  lemma PlanIsBounded(width: u32, height: u32, wanted: Option<Region>, asked: Option<Resolution>, gui: bool, root: real)
    requires Plan(width, height, wanted, asked, gui, root).Ok?
    requires var view := Plan(width, height, wanted, asked, gui, root).value;
             IsRoot(root, PixelRatio(view.region, ResolutionOf(asked)))
    ensures var view := Plan(width, height, wanted, asked, gui, root).value;
            && Bounded(view, view.region, ResolutionOf(asked), gui)
            && GoodRegion(view.region, width, height) && (wanted.Some? ==> view.region == wanted.value)
            && view.sourceWidth == width && view.sourceHeight == height
  {
    var region, resolution := Plan(width, height, wanted, asked, gui, root).value.region, ResolutionOf(asked);
    var scale := Scale(region, resolution, gui, root);
    ScaleIsGreatest(region, resolution, gui, root, scale);
    SidesWithin(region, resolution, gui, scale);
    AreaOfSides(region, resolution, gui, scale);
  }

  /** The steps of the code, which narrow the scale and then the sides, and what they end with. */
  method PlanView(width: u32, height: u32, wanted: Option<Region>, asked: Option<Resolution>, gui: bool, root: real)
    returns (r: Result<View, ViewError>)
    ensures r == Plan(width, height, wanted, asked, gui, root)
    ensures r.Ok? && IsRoot(root, PixelRatio(r.value.region, ResolutionOf(asked))) ==>
              Bounded(r.value, r.value.region, ResolutionOf(asked), gui)
  {
    var resolution := match asked case Some(value) => value case None => DEFAULT;
    if !GoodResolution(resolution.width, resolution.height, resolution.maxPixels) {
      return Err(BadResolution);
    }
    if width == 0 || height == 0 || width * height > MAX_SOURCE_PIXELS {
      return Err(BadSource);
    }
    var region := match wanted case Some(value) => value case None => Region(0, 0, width, height);
    if !GoodRegion(region, width, height) {
      return Err(BadRegion);
    }
    var scale := MinReal(1.0, Ratio(resolution.width, region.width));
    scale := MinReal(scale, Ratio(resolution.height, region.height));
    scale := MinReal(scale, root);
    if gui {
      scale := MinReal(scale, Ratio(GUI_SHORT_EDGE, Short(region)));
    }
    var outputWidth, outputHeight := Side(region.width, scale), Side(region.height, scale);
    if outputWidth >= outputHeight {
      outputWidth := Trim(outputWidth, outputHeight, resolution.maxPixels);
    } else {
      outputHeight := Trim(outputHeight, outputWidth, resolution.maxPixels);
    }
    r := Ok(View(width, height, region, outputWidth, outputHeight));
    if IsRoot(root, PixelRatio(region, resolution)) {
      PlanIsBounded(width, height, wanted, asked, gui, root);
    }
  }

  predicate Unclamped(length: nat, scale: real) {
    length as real * scale >= 1.0
  }

  predicate RoundedDown(side: nat, length: nat, scale: real) {
    side == (length as real * scale).Floor
  }

  lemma UnclampedSide(length: nat, scale: real)
    requires Unclamped(length, scale)
    ensures RoundedDown(Side(length, scale), length, scale)
    ensures Side(length, scale) as real <= length as real * scale
  {
  }

  lemma UnclampedSides(region: Region, scale: real, most: nat)
    requires Unclamped(region.width, scale) && Unclamped(region.height, scale) && AreaWithin(region, scale, most)
    ensures Side(region.width, scale) * Side(region.height, scale) <= most
  {
    UnclampedSide(region.width, scale);
    UnclampedSide(region.height, scale);
    UnclampedArea(Side(region.width, scale), Side(region.height, scale),
                  region.width as real * scale, region.height as real * scale, most);
  }

  /** While no side is clamped the view is the region at the greatest scale within the limits, rounded down. */
  lemma UnclampedPlanIsExact(width: u32, height: u32, wanted: Option<Region>, asked: Option<Resolution>, gui: bool,
                             root: real)
    requires Plan(width, height, wanted, asked, gui, root).Ok?
    requires var view := Plan(width, height, wanted, asked, gui, root).value;
             && IsRoot(root, PixelRatio(view.region, ResolutionOf(asked)))
             && var scale := Scale(view.region, ResolutionOf(asked), gui, root);
                Unclamped(view.region.width, scale) && Unclamped(view.region.height, scale)
    ensures var view := Plan(width, height, wanted, asked, gui, root).value;
            var scale := Scale(view.region, ResolutionOf(asked), gui, root);
            && RoundedDown(view.width, view.region.width, scale) && RoundedDown(view.height, view.region.height, scale)
  {
    var region, resolution := Plan(width, height, wanted, asked, gui, root).value.region, ResolutionOf(asked);
    var scale := Scale(region, resolution, gui, root);
    ScaleIsGreatest(region, resolution, gui, root, scale);
    ExactSides(region, resolution, gui, scale);
  }

  lemma ExactSides(region: Region, resolution: Resolution, gui: bool, scale: real)
    requires region.width > 0 && region.height > 0 && WithinLimits(region, resolution, gui, scale)
    requires GoodResolution(resolution.width, resolution.height, resolution.maxPixels)
    requires Unclamped(region.width, scale) && Unclamped(region.height, scale)
    ensures var w, h, most := Side(region.width, scale), Side(region.height, scale), resolution.maxPixels;
            && RoundedDown(w, region.width, scale) && RoundedDown(h, region.height, scale)
            && (w >= h ==> Trim(w, h, most) == w) && (w < h ==> Trim(h, w, most) == h)
  {
    AreaOfSides(region, resolution, gui, scale);
    UnclampedSides(region, scale, resolution.maxPixels);
    UnclampedSide(region.width, scale);
    UnclampedSide(region.height, scale);
  }

  /** A planned view passes its own check. */
  lemma PlannedViewIsValid(width: u32, height: u32, wanted: Option<Region>, asked: Option<Resolution>, gui: bool,
                           root: real)
    requires Plan(width, height, wanted, asked, gui, root).Ok?
    requires var view := Plan(width, height, wanted, asked, gui, root).value;
             IsRoot(root, PixelRatio(view.region, ResolutionOf(asked)))
    ensures Validate(Plan(width, height, wanted, asked, gui, root).value) == Ok(())
  {
    PlanIsBounded(width, height, wanted, asked, gui, root);
  }

  // From the view to the source.

  predicate InsideView(view: View, x: real, y: real) {
    0.0 <= x < view.width as real && 0.0 <= y < view.height as real
  }

  lemma AlongStaysInside(start: nat, length: nat, side: nat, x: real)
    requires 0 < side <= length && 0.0 <= x < side as real
    ensures start as real <= Along(start, length, side, x) < (start + length) as real
  {
    AlongScales(length as real, side as real, x);
    var factor := length as real / side as real;
    MulStrict(x, side as real, factor);
    MulMonotone(0.0, x, factor);
    assert side as real * factor == length as real;
    assert Along(start, length, side, x) == start as real + x * factor;
    assert x * factor < length as real;
  }

  lemma AlongScales(length: real, side: real, x: real)
    requires side > 0.0 && length > 0.0
    ensures x * length / side == x * (length / side) && side * (length / side) == length && length / side > 0.0
  {
    var factor := length / side;
    assert factor * side == length;
    assert x * length == (x * factor) * side;
    DivideBack(x * factor, side);
    if factor <= 0.0 {
      MulMonotone(factor, 0.0, side);
    }
  }

  lemma DivideBack(a: real, b: real)
    requires b != 0.0
    ensures a * b / b == a
  {
  }

  /** The map stretches every distance alike. */
  lemma AlongIsEven(start: nat, length: nat, side: nat, x: real, y: real)
    requires 0 < side
    ensures (Along(start, length, side, y) - Along(start, length, side, x)) * side as real == (y - x) * length as real
    ensures Along(start, length, side, 0.0) == start as real
  {
    var a, b, l := x * length as real, y * length as real, side as real;
    assert a / l * l == a && b / l * l == b;
    assert (b / l - a / l) * l == b - a;
    assert b - a == (y - x) * length as real;
  }

  /** Points a view pixel apart are at least a source pixel apart, in the same order. */
  lemma AlongSpreads(start: nat, length: nat, side: nat, x: real, y: real)
    requires 0 < side <= length && x <= y
    ensures Along(start, length, side, y) - Along(start, length, side, x) >= y - x
    ensures (Along(start, length, side, y) - Along(start, length, side, x)) * side as real == (y - x) * length as real
    ensures Along(start, length, side, 0.0) == start as real
  {
    AlongIsEven(start, length, side, x, y);
    var factor := length as real / side as real;
    AlongScales(length as real, side as real, x);
    AlongScales(length as real, side as real, y);
    assert factor >= 1.0 by {
      RatioBound(length, side, 1.0);
    }
    MulMonotone(1.0, factor, y - x);
  }

  /** Every point of a valid view is carried into the region, and so into the source; other points are refused. */
  lemma SourcePointIsInside(view: View, x: real, y: real)
    requires Validate(view).Ok?
    ensures SourcePoint(view, x, y).Ok? <==> InsideView(view, x, y)
    ensures SourcePoint(view, x, y).Ok? ==>
              var (sx, sy) := SourcePoint(view, x, y).value;
              var region := view.region;
              && region.x as real <= sx < (region.x + region.width) as real <= view.sourceWidth as real
              && region.y as real <= sy < (region.y + region.height) as real <= view.sourceHeight as real
  {
    if InsideView(view, x, y) {
      AlongStaysInside(view.region.x, view.region.width, view.width, x);
      AlongStaysInside(view.region.y, view.region.height, view.height, y);
    }
  }

  /** Every point of the region is the image of a point of the view. */
  lemma EveryRegionPointIsSeen(view: View, sx: real, sy: real)
    requires Validate(view).Ok?
    requires view.region.x as real <= sx < (view.region.x + view.region.width) as real
    requires view.region.y as real <= sy < (view.region.y + view.region.height) as real
    ensures exists x, y :: SourcePoint(view, x, y) == Ok((sx, sy))
  {
    var x, y := Back(view.region.x, view.region.width, view.width, sx),
                Back(view.region.y, view.region.height, view.height, sy);
    AlongInverse(view.region.x, view.region.width, view.width, sx);
    AlongInverse(view.region.y, view.region.height, view.height, sy);
    assert SourcePoint(view, x, y) == Ok((sx, sy));
  }

  /** The coordinate of the view that is carried to `s`. */
  function Back(start: nat, length: nat, side: nat, s: real): real
    requires length > 0
  {
    (s - start as real) * side as real / length as real
  }

  lemma AlongInverse(start: nat, length: nat, side: nat, s: real)
    requires 0 < side && 0 < length && start as real <= s < (start + length) as real
    ensures 0.0 <= Back(start, length, side, s) < side as real
    ensures Along(start, length, side, Back(start, length, side, s)) == s
  {
    var d := s - start as real;
    AlongScales(side as real, length as real, d);
    var factor := side as real / length as real;
    MulStrict(d, length as real, factor);
    MulMonotone(0.0, d, factor);
    var x := d * factor;
    assert x * length as real == d * (length as real * factor);
    DivideBack(d, side as real);
  }

  // Which requests are refused, and what the others look at.

  predicate Fits(region: Region, width: u32, height: u32) {
    0 < region.width && region.x + region.width <= width && 0 < region.height && region.y + region.height <= height
  }

  /** Each complaint has its reason; without a region the view is of the whole image. */
  lemma PlanIsDecided(width: u32, height: u32, wanted: Option<Region>, asked: Option<Resolution>, gui: bool, root: real)
    ensures var r, plan := ResolutionOf(asked), Plan(width, height, wanted, asked, gui, root);
            var goodResolution := asked.Some? ==>
                                    0 < r.width <= 1568 && 0 < r.height <= 1568 && 0 < r.maxPixels <= 1_150_000;
            var goodSource := 0 < width && 0 < height && width * height <= 64_000_000;
            && (plan == Err(BadResolution) <==> !goodResolution)
            && (plan == Err(BadSource) <==> goodResolution && !goodSource)
            && (plan == Err(BadRegion)
                <==> goodResolution && goodSource && wanted.Some? && !Fits(wanted.value, width, height))
            && (plan.Ok? <==> goodResolution && goodSource && (wanted.Some? ==> Fits(wanted.value, width, height)))
            && (plan.Ok? ==> plan.value.region == if wanted.Some? then wanted.value else Region(0, 0, width, height))
            && (plan.Ok? ==> plan.value.sourceWidth == width && plan.value.sourceHeight == height)
  {
    hide Side, Trim, Scale;
  }

  /** A view is valid just when its sides, its region and its source keep all the limits. */
  lemma ValidViews(view: View)
    ensures Validate(view).Ok?
            <==> && 0 < view.width <= 1568 && 0 < view.height <= 1568 && view.width * view.height <= 1_150_000
                 && view.width <= view.region.width && view.height <= view.region.height
                 && 0 < view.sourceWidth && 0 < view.sourceHeight && view.sourceWidth * view.sourceHeight <= 64_000_000
                 && Fits(view.region, view.sourceWidth, view.sourceHeight)
  {
    hide Side, Trim, Scale;
  }

  /** Sizes that need no scaling by default, and the ones at which it starts. */
  lemma DefaultViews()
    ensures Plan(1024, 768, None, None, true, 1.0) == Ok(View(1024, 768, Region(0, 0, 1024, 768), 1024, 768))
    ensures Plan(2048, 1536, None, None, false, 0.5) == Ok(View(2048, 1536, Region(0, 0, 2048, 1536), 1024, 768))
  {
  }

  /** A large square is scaled to a short edge of 768 for a screen, and only then. */
  lemma ScreenViews(root: real)
    requires IsRoot(root, PixelRatio(Region(0, 0, 800, 800), Resolution(1568, 1568, 1_150_000)))
    ensures var wide := Some(Resolution(1568, 1568, 1_150_000));
            && Plan(800, 800, None, wide, true, root) == Ok(View(800, 800, Region(0, 0, 800, 800), 768, 768))
            && Plan(800, 800, None, wide, false, root) == Ok(View(800, 800, Region(0, 0, 800, 800), 800, 800))
  {
    assert root >= 1.0 by {
      if root < 1.0 {
        MulMonotone(root, 1.0, root);
      }
    }
  }
}
