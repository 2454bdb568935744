/** `scanImage` of the batch processor: the ordered strategy ladder that
    tries to read a QR payload off one image, and the 800 px resampling
    arithmetic of its second and third rungs. The decoders themselves (the
    platform `BarcodeDetector` and jsQR on a canvas) are oracles. */
module QrLadder {
  import opened Common

  /** Longest side, in pixels, of the resampled canvas. */
  const MaxSize: real := 800.0
  /** Both sides must be below this for the full-resolution attempt. */
  const FullResCap: real := 3000.0

  datatype Dims = Dims(width: real, height: real)

  /** What the native detector did: absent from the platform, threw, or
      returned the (possibly empty) list of barcodes' raw values. */
  datatype NativeOutcome = Unavailable | Threw | Detected(rawValues: seq<string>)

  /** The canvas filter applied before jsQR runs. */
  datatype Filter = Plain | ContrastGray

  /** jsQR over a canvas of the given size and filter: the decoded text, or
      null when no code is found or no 2D context is available. */
  type CanvasScan = (real, real, Filter) -> Option<string>

  datatype Strategy = Native | Resampled | Enhanced | FullRes

  /** The payload found, if any, and the strategies attempted, in order. */
  datatype ScanResult = ScanResult(payload: Option<string>, tried: seq<Strategy>)

  function Min(a: real, b: real): real {
    if a <= b then a else b
  }

  /** `Math.min(800 / width, 800 / height)`, where a zero side makes its
      quotient `Infinity` and so leaves the other one. */
  function Ratio(w: real, h: real): (ratio: real)
    requires w >= 0.0 && h >= 0.0 && (w > MaxSize || h > MaxSize)
    ensures 0.0 < ratio < 1.0
    ensures w * ratio <= MaxSize && h * ratio <= MaxSize
    ensures w * ratio == MaxSize || h * ratio == MaxSize
  {
    if w == 0.0 then MaxSize / h
    else if h == 0.0 then MaxSize / w
    else
      var rw := MaxSize / w;
      var rh := MaxSize / h;
      assert w * rw == MaxSize && h * rh == MaxSize;
      if rw <= rh then
        assert h * rw <= h * rh;
        rw
      else
        assert w * rh <= w * rw;
        rh
  }

  /** The size the resampled and contrast attempts draw at: scaled so that
      both sides fit in 800 px with the aspect ratio kept, and the longer
      side exactly 800; unchanged when both sides already fit. */
  function Resample(w: real, h: real): (d: Dims)
    requires w >= 0.0 && h >= 0.0
    ensures (w > MaxSize || h > MaxSize) ==>
              && d.width <= MaxSize && d.height <= MaxSize
              && (d.width == MaxSize || d.height == MaxSize)
              && d.width * h == d.height * w
              && (d.width < w || d.height < h)
    ensures !(w > MaxSize || h > MaxSize) ==> d == Dims(w, h)
    ensures d.width <= w && d.height <= h
  {
    if w > MaxSize || h > MaxSize then
      var ratio := Ratio(w, h);
      assert (w * ratio) * h == (h * ratio) * w;
      ScaleDown(w, ratio);
      ScaleDown(h, ratio);
      Dims(w * ratio, h * ratio)
    else
      Dims(w, h)
  }

  lemma ScaleDown(x: real, ratio: real)
    requires x >= 0.0 && 0.0 < ratio < 1.0
    ensures x * ratio <= x
  {
  }

  /** A rung succeeds when it yields a payload: any raw value for the native
      detector, a truthy string for jsQR. */
  predicate Success(s: Strategy, found: Option<string>) {
    if s == Native then found.Some? else PresentText(found)
  }

  /** The detector found at least one barcode. */
  predicate NativeHit(native: NativeOutcome) {
    native.Detected? && |native.rawValues| > 0
  }

  /** The size a jsQR rung draws and reads at: the resampled size for the
      800 px passes, the natural size for the full-resolution one. */
  function CanvasSize(s: Strategy, w: real, h: real): (d: Dims)
    requires s != Native && w >= 0.0 && h >= 0.0
    ensures s != FullRes ==> d.width <= MaxSize && d.height <= MaxSize
    ensures s == FullRes ==> d == Dims(w, h)
    ensures d.width <= w && d.height <= h
  {
    if s == FullRes then Dims(w, h) else Resample(w, h)
  }

  /** The canvas filter each jsQR rung applies. */
  function FilterOf(s: Strategy): Filter {
    if s == Enhanced then ContrastGray else Plain
  }

  /** What one rung yields on an image of natural size `w` by `h`. */
  function Attempt(s: Strategy, w: real, h: real, native: NativeOutcome, canvas: CanvasScan): (found: Option<string>)
    requires w >= 0.0 && h >= 0.0
    ensures s == Native ==> (found.Some? <==> NativeHit(native))
    ensures s == Native && found.Some? ==> found.value == native.rawValues[0]
    ensures s != Native ==>
              var d := CanvasSize(s, w, h);
              found == canvas(d.width, d.height, FilterOf(s))
  {
    match s
    case Native =>
      if native.Detected? && |native.rawValues| > 0 then Some(native.rawValues[0]) else None
    case Resampled =>
      var d := Resample(w, h);
      canvas(d.width, d.height, Plain)
    case Enhanced =>
      var d := Resample(w, h);
      canvas(d.width, d.height, ContrastGray)
    case FullRes =>
      canvas(w, h, Plain)
  }

  /** A canvas side below one pixel truncates to zero, and `getImageData`
      over a zero-sized area throws an `IndexSizeError`. */
  predicate Degenerate(d: Dims) {
    d.width < 1.0 || d.height < 1.0
  }

  /** The longer side of an image. */
  function Longer(w: real, h: real): real {
    if w >= h then w else h
  }

  /** The image is so thin that its resampled canvas has a side below one
      pixel: a side of an oversized image is below 1/800 of the longer
      side, or a side of a small one is below one pixel. */
  predicate TooThin(w: real, h: real) {
    if w > MaxSize || h > MaxSize then 800.0 * w < Longer(w, h) || 800.0 * h < Longer(w, h)
    else w < 1.0 || h < 1.0
  }

  /** `TooThin` is the closed form of a degenerate resampled canvas. */
  lemma TooThinIsDegenerate(w: real, h: real)
    requires w >= 0.0 && h >= 0.0
    ensures TooThin(w, h) <==> Degenerate(Resample(w, h))
  {
    if w > MaxSize || h > MaxSize {
      var m := Longer(w, h);
      var r := Ratio(w, h);
      RatioOfLonger(w, h);
      assert Resample(w, h) == Dims(w * r, h * r);
      ScaledSide(w, m);
      ScaledSide(h, m);
    }
  }

  /** `Math.min(800 / w, 800 / h)` is 800 over the longer side. */
  lemma RatioOfLonger(w: real, h: real)
    requires w >= 0.0 && h >= 0.0 && (w > MaxSize || h > MaxSize)
    ensures Ratio(w, h) == MaxSize / Longer(w, h)
  {
    if w != 0.0 && h != 0.0 {
      var rw, rh := MaxSize / w, MaxSize / h;
      if w >= h {
        DivideAntitone(h, w);
      } else {
        DivideAntitone(w, h);
      }
    }
  }

  lemma DivideAntitone(small: real, large: real)
    requires 0.0 < small <= large
    ensures MaxSize / large <= MaxSize / small
    ensures small < large ==> MaxSize / large < MaxSize / small
  {
    var a, b := MaxSize / large, MaxSize / small;
    assert a * large == MaxSize && b * small == MaxSize;
    assert a > 0.0;
    assert a * small <= a * large;
    assert (b - a) * small >= 0.0;
    if small < large {
      assert a * small < a * large;
      assert (b - a) * small > 0.0;
    }
  }

  /** A side `x` scaled by 800 over the longer side `m` lands below one
      pixel exactly when 800 x is below m. */
  lemma ScaledSide(x: real, m: real)
    requires m > MaxSize && 0.0 <= x <= m
    ensures x * (MaxSize / m) < 1.0 <==> 800.0 * x < m
  {
    var scaled := x * (MaxSize / m);
    assert scaled * m == MaxSize * x;
    if scaled < 1.0 {
      assert scaled * m < 1.0 * m;
    } else {
      assert scaled * m >= 1.0 * m;
    }
  }

  /** `scanImage` throws: a 2D context exists, the detector found nothing,
      and the first jsQR rung reads a degenerate canvas. Nothing in the
      ladder catches this. */
  predicate Throws(w: real, h: real, native: NativeOutcome, context2d: bool) {
    context2d && !NativeHit(native) && TooThin(w, h)
  }

  /** Once the detector has missed, the ladder throws exactly when one of
      the jsQR rungs it can reach is degenerate: the resampled pass comes
      first and no later rung draws smaller. */
  lemma ThrowsAtFirstCanvasRung(w: real, h: real, native: NativeOutcome)
    requires w >= 0.0 && h >= 0.0 && !NativeHit(native)
    ensures Throws(w, h, native, true) <==>
              exists k :: 0 <= k < |SoftwareRungs(w, h)| && Degenerate(CanvasSize(SoftwareRungs(w, h)[k], w, h))
  {
    TooThinIsDegenerate(w, h);
    var rungs := SoftwareRungs(w, h);
    assert rungs[0] == Resampled;
    if Throws(w, h, native, true) {
      assert Degenerate(CanvasSize(rungs[0], w, h));
    }
  }

  /** The rungs available for an image: native only when the platform has
      a detector, full resolution only when both sides are below 3000 px. */
  function Allowed(w: real, h: real, native: NativeOutcome): (order: seq<Strategy>)
    ensures FullRes in order <==> w < FullResCap && h < FullResCap
    ensures Native in order <==> !native.Unavailable?
    ensures Resampled in order && Enhanced in order
  {
    (if native.Unavailable? then [] else [Native])
    + [Resampled, Enhanced]
    + (if w < FullResCap && h < FullResCap then [FullRes] else [])
  }

  /** Reference semantics of a ladder: try the rungs in order and stop at the
      first success. */
  function FirstSuccess(order: seq<Strategy>, w: real, h: real, native: NativeOutcome, canvas: CanvasScan): (r: ScanResult)
    requires w >= 0.0 && h >= 0.0
    ensures r.tried <= order
    ensures r.payload.None? ==> r.tried == order
    ensures r.payload.Some? ==>
              |r.tried| > 0
              && var last := r.tried[|r.tried| - 1];
                 Success(last, Attempt(last, w, h, native, canvas))
                 && r.payload == Attempt(last, w, h, native, canvas)
    ensures forall k :: 0 <= k < |r.tried| - 1 ==> !Success(r.tried[k], Attempt(r.tried[k], w, h, native, canvas))
    ensures r.payload.None? ==>
              forall k :: 0 <= k < |order| ==> !Success(order[k], Attempt(order[k], w, h, native, canvas))
  {
    if order == [] then ScanResult(None, [])
    else
      var found := Attempt(order[0], w, h, native, canvas);
      if Success(order[0], found) then ScanResult(found, [order[0]])
      else
        var rest := FirstSuccess(order[1..], w, h, native, canvas);
        assert forall k :: 1 <= k < |order| ==> order[k] == order[1..][k - 1];
        ScanResult(rest.payload, [order[0]] + rest.tried)
  }

  /** The jsQR rungs as `scanImage` runs them after the native detector:
      resampled, contrast-enhanced, then full resolution under the cap. */
  function SoftwareScan(w: real, h: real, canvas: CanvasScan): (r: ScanResult)
    requires w >= 0.0 && h >= 0.0
    ensures r.tried == [Resampled] || r.tried == [Resampled, Enhanced] || r.tried == [Resampled, Enhanced, FullRes]
    ensures FullRes in r.tried ==> w < FullResCap && h < FullResCap
    ensures r.payload.Some? ==> PresentText(r.payload)
  {
    var d := Resample(w, h);
    var fast := canvas(d.width, d.height, Plain);
    if PresentText(fast) then ScanResult(fast, [Resampled])
    else
      var enhanced := canvas(d.width, d.height, ContrastGray);
      if PresentText(enhanced) then ScanResult(enhanced, [Resampled, Enhanced])
      else if w < FullResCap && h < FullResCap then
        var full := canvas(w, h, Plain);
        if PresentText(full) then ScanResult(full, [Resampled, Enhanced, FullRes])
        else ScanResult(None, [Resampled, Enhanced, FullRes])
      else
        ScanResult(None, [Resampled, Enhanced])
  }

  /** The ladder as `scanImage` runs it, rung by rung. */
  function ScanImage(w: real, h: real, native: NativeOutcome, canvas: CanvasScan): (r: ScanResult)
    requires w >= 0.0 && h >= 0.0
    ensures r.tried <= Allowed(w, h, native)
    ensures FullRes in r.tried ==> w < FullResCap && h < FullResCap
    ensures |r.tried| > 0
    ensures r.payload.Some? && r.tried[|r.tried| - 1] != Native ==> PresentText(r.payload)
  {
    if native.Detected? && |native.rawValues| > 0 then
      ScanResult(Some(native.rawValues[0]), [Native])
    else
      var soft := SoftwareScan(w, h, canvas);
      var pre: seq<Strategy> := if native.Unavailable? then [] else [Native];
      assert soft.tried[|soft.tried| - 1] != Native;
      ScanResult(soft.payload, pre + soft.tried)
  }

  /** `scanImage` returns the first success over the allowed rungs, in the
      order native, resampled, contrast-enhanced, full resolution. */
  lemma ScanImageIsFirstSuccess(w: real, h: real, native: NativeOutcome, canvas: CanvasScan)
    requires w >= 0.0 && h >= 0.0
    ensures ScanImage(w, h, native, canvas) == FirstSuccess(Allowed(w, h, native), w, h, native, canvas)
  {
    var soft := SoftwareRungs(w, h);
    SoftwareRungsFirstSuccess(w, h, native, canvas);
    if native.Unavailable? {
      assert Allowed(w, h, native) == soft;
    } else {
      DetectorLadder(w, h, native, canvas);
    }
  }

  /** With a detector on the platform, the ladder is the native rung in
      front of the jsQR rungs. */
  lemma DetectorLadder(w: real, h: real, native: NativeOutcome, canvas: CanvasScan)
    requires w >= 0.0 && h >= 0.0 && !native.Unavailable?
    requires FirstSuccess(SoftwareRungs(w, h), w, h, native, canvas) == SoftwareScan(w, h, canvas)
    ensures ScanImage(w, h, native, canvas) == FirstSuccess(Allowed(w, h, native), w, h, native, canvas)
  {
    var soft := SoftwareRungs(w, h);
    assert Allowed(w, h, native) == [Native] + soft;
    NativeFirst(soft, w, h, native, canvas);
  }

  /** The ladder with the native rung in front: the detector's first raw
      value when it found one, the software rungs otherwise. */
  lemma NativeFirst(soft: seq<Strategy>, w: real, h: real, native: NativeOutcome, canvas: CanvasScan)
    requires w >= 0.0 && h >= 0.0
    ensures var rest := FirstSuccess(soft, w, h, native, canvas);
            FirstSuccess([Native] + soft, w, h, native, canvas)
            == if native.Detected? && |native.rawValues| > 0 then ScanResult(Some(native.rawValues[0]), [Native])
               else ScanResult(rest.payload, [Native] + rest.tried)
  {
    assert ([Native] + soft)[0] == Native;
    assert ([Native] + soft)[1..] == soft;
  }

  /** The jsQR rungs: resampled, enhanced and, under the size cap, full. */
  function SoftwareRungs(w: real, h: real): seq<Strategy> {
    [Resampled, Enhanced] + (if w < FullResCap && h < FullResCap then [FullRes] else [])
  }

  lemma SoftwareRungsFirstSuccess(w: real, h: real, native: NativeOutcome, canvas: CanvasScan)
    requires w >= 0.0 && h >= 0.0
    ensures FirstSuccess(SoftwareRungs(w, h), w, h, native, canvas) == SoftwareScan(w, h, canvas)
  {
    if w < FullResCap && h < FullResCap {
      assert SoftwareRungs(w, h) == [Resampled, Enhanced, FullRes];
      FirstStep([Resampled, Enhanced, FullRes], w, h, native, canvas);
      TwoRungs([Enhanced, FullRes], w, h, native, canvas);
    } else {
      SoftwareRungsCapped(w, h, native, canvas);
    }
  }

  /** At 3000 px or more only the two 800 px passes run. */
  lemma SoftwareRungsCapped(w: real, h: real, native: NativeOutcome, canvas: CanvasScan)
    requires w >= 0.0 && h >= 0.0
    requires !(w < FullResCap && h < FullResCap)
    ensures FirstSuccess(SoftwareRungs(w, h), w, h, native, canvas) == SoftwareScan(w, h, canvas)
  {
    assert SoftwareRungs(w, h) == [Resampled, Enhanced];
    FirstStep([Resampled, Enhanced], w, h, native, canvas);
    TwoRungs([Enhanced], w, h, native, canvas);
  }

  /** The last one or two rungs of the jsQR ladder, after the fast pass. */
  lemma TwoRungs(order: seq<Strategy>, w: real, h: real, native: NativeOutcome, canvas: CanvasScan)
    requires w >= 0.0 && h >= 0.0
    requires order == [Enhanced, FullRes] || order == [Enhanced]
    ensures var enhanced := Attempt(Enhanced, w, h, native, canvas);
            var full := Attempt(FullRes, w, h, native, canvas);
            FirstSuccess(order, w, h, native, canvas)
            == if PresentText(enhanced) then ScanResult(enhanced, [Enhanced])
               else if order == [Enhanced] then ScanResult(None, [Enhanced])
               else if PresentText(full) then ScanResult(full, [Enhanced, FullRes])
               else ScanResult(None, [Enhanced, FullRes])
  {
    FirstStep(order, w, h, native, canvas);
    if order == [Enhanced, FullRes] {
      FirstStep([FullRes], w, h, native, canvas);
    }
  }

  /** One rung of the reference ladder. */
  lemma FirstStep(order: seq<Strategy>, w: real, h: real, native: NativeOutcome, canvas: CanvasScan)
    requires w >= 0.0 && h >= 0.0
    requires order != []
    ensures var found := Attempt(order[0], w, h, native, canvas);
            var rest := FirstSuccess(order[1..], w, h, native, canvas);
            FirstSuccess(order, w, h, native, canvas)
            == if Success(order[0], found) then ScanResult(found, [order[0]])
               else ScanResult(rest.payload, [order[0]] + rest.tried)
  {
  }

  /** A 4000 x 4000 image with no native detector whose resampled and
      enhanced attempts find nothing is reported "not found" without a
      full-resolution attempt. */
  lemma OversizedImageNotFound(canvas: CanvasScan)
    requires !PresentText(canvas(800.0, 800.0, Plain))
    requires !PresentText(canvas(800.0, 800.0, ContrastGray))
    ensures ScanImage(4000.0, 4000.0, Unavailable, canvas) == ScanResult(None, [Resampled, Enhanced])
  {
    assert Resample(4000.0, 4000.0) == Dims(800.0, 800.0);
  }
}
