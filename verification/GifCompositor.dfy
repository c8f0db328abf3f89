/** Compositing GIF frames onto a running canvas under the disposal methods of GIF89a section 23. */
module GifCompositor {

  /** A palette entry of a GIF is fully transparent or fully opaque. */
  datatype Pixel = Clear | Solid(red: nat, green: nat, blue: nat)

  const DISPOSAL_BACKGROUND := 2
  const DISPOSAL_PREVIOUS := 3

  /** A frame covers the rectangle of its rows, placed at (left, top). */
  datatype Frame = Frame(left: nat, top: nat, width: nat, rows: seq<seq<Pixel>>)
  {
    predicate WellFormed() {
      forall k :: 0 <= k < |rows| ==> |rows[k]| == width
    }

    predicate Covers(x: int, y: int) {
      left <= x < left + width && top <= y < top + |rows|
    }

    /** The colour at a point, transparent outside the frame. */
    function At(x: int, y: int): Pixel
      requires WellFormed()
    {
      if Covers(x, y) then rows[y - top][x - left] else Clear
    }
  }

  /** disposal may be shorter than images, or absent altogether: then it is empty here. */
  datatype Gif = Gif(width: nat, height: nat, images: seq<Frame>, disposal: seq<int>)
  {
    predicate WellFormed() {
      forall i :: 0 <= i < |images| ==> images[i].WellFormed()
    }
  }

  datatype Layer = Layer(frame: Frame, disposal: int)

  predicate AllWellFormed(layers: seq<Layer>) {
    forall i :: 0 <= i < |layers| ==> layers[i].frame.WellFormed()
  }

  function LayerOf(g: Gif, i: nat): (l: Layer)
    requires i < |g.images|
  {
    Layer(g.images[i], if i < |g.disposal| then g.disposal[i] else 0)
  }

  function Layers(g: Gif): (layers: seq<Layer>)
    requires g.WellFormed()
    ensures |layers| == |g.images| && AllWellFormed(layers)
  {
    seq(|g.images|, i requires 0 <= i < |g.images| => LayerOf(g, i))
  }

  // ---- One pixel ----

  /** A frame drawn over a pixel: transparent entries leave what is below. */
  function Over(below: Pixel, f: Frame, x: int, y: int): Pixel
    requires f.WellFormed()
  {
    if f.At(x, y).Solid? then f.At(x, y) else below
  }

  /** The pixel once the layer has been shown and disposed of. */
  function Disposed(before: Pixel, l: Layer, x: int, y: int): Pixel
    requires l.frame.WellFormed()
  {
    if l.disposal == DISPOSAL_PREVIOUS then before
    else if l.disposal == DISPOSAL_BACKGROUND && l.frame.Covers(x, y) then Clear
    else Over(before, l.frame, x, y)
  }

  /** The canvas at a point after all layers have been shown and disposed of. */
  function Canvas(layers: seq<Layer>, x: int, y: int): Pixel
    requires AllWellFormed(layers)
  {
    if layers == [] then Clear
    else Disposed(Canvas(layers[..|layers| - 1], x, y), layers[|layers| - 1], x, y)
  }

  /** What the viewer sees at a point while layer i is shown. */
  function Shown(layers: seq<Layer>, i: nat, x: int, y: int): Pixel
    requires AllWellFormed(layers) && i < |layers|
  {
    Over(Canvas(layers[..i], x, y), layers[i].frame, x, y)
  }

  // ---- A reading without the fold ----

  /** The layer decides the pixel for its successors: it stays, and it paints or clears there. By section 23 method 2
      clears and method 3 does not stay. */
  predicate Settles(l: Layer, x: int, y: int)
    requires l.frame.WellFormed()
  {
    l.disposal != 3 && (l.frame.At(x, y).Solid? || (l.disposal == 2 && l.frame.Covers(x, y)))
  }

  /** What a settled pixel holds. */
  function Settled(l: Layer, x: int, y: int): Pixel
    requires l.frame.WellFormed()
  {
    if l.disposal == 2 then Clear else l.frame.At(x, y)
  }

  /** Layer j is the last to settle the pixel. */
  ghost predicate LastSettles(layers: seq<Layer>, j: nat, x: int, y: int)
    requires AllWellFormed(layers)
  {
    && j < |layers|
    && Settles(layers[j], x, y)
    && forall k :: j < k < |layers| ==> !Settles(layers[k], x, y)
  }

  /**
   * The canvas holds the colour of the last layer that settles the pixel, transparent if that layer clears its
   * rectangle, and transparent if no layer settles it.
   */
  lemma {:induction false} CanvasIsLastSettled(layers: seq<Layer>, x: int, y: int)
    requires AllWellFormed(layers)
    ensures (forall k :: 0 <= k < |layers| ==> !Settles(layers[k], x, y)) ==> Canvas(layers, x, y) == Clear
    ensures forall j: nat :: LastSettles(layers, j, x, y) ==>
              Canvas(layers, x, y) == Settled(layers[j], x, y)
  {
    if layers != [] {
      var n := |layers| - 1;
      var earlier := layers[..n];
      CanvasIsLastSettled(earlier, x, y);
      forall j: nat | LastSettles(layers, j, x, y)
        ensures Canvas(layers, x, y) == Settled(layers[j], x, y)
      {
        assert j < n ==> LastSettles(earlier, j, x, y);
      }
    }
  }

  /** The pixel that the viewer sees while layer i is shown, whatever its disposal: where the frame is solid its colour,
      elsewhere what the last earlier layer that settles the pixel has left, and nothing if there is none. */
  ghost predicate IsSeen(layers: seq<Layer>, i: nat, x: int, y: int, p: Pixel)
    requires AllWellFormed(layers) && i < |layers|
  {
    var here := layers[i].frame.At(x, y);
    if here.Solid? then p == here
    else
      && (forall j: nat :: LastSettles(layers[..i], j, x, y) ==> p == Settled(layers[j], x, y))
      && ((forall k :: 0 <= k < i ==> !Settles(layers[k], x, y)) ==> p == Clear)
  }

  lemma ShownIsSeen(layers: seq<Layer>, i: nat, x: int, y: int)
    requires AllWellFormed(layers) && i < |layers|
    ensures IsSeen(layers, i, x, y, Shown(layers, i, x, y))
  {
    CanvasIsLastSettled(layers[..i], x, y);
    forall j: nat | LastSettles(layers[..i], j, x, y)
      ensures Canvas(layers[..i], x, y) == Settled(layers[j], x, y)
    {
    }
    if forall k :: 0 <= k < i ==> !Settles(layers[k], x, y) {
      assert forall k :: 0 <= k < i ==> !Settles(layers[..i][k], x, y);
    }
  }

  lemma {:induction false} SomeLayerSettlesLast(layers: seq<Layer>, x: int, y: int) returns (j: nat)
    requires AllWellFormed(layers) && exists k :: 0 <= k < |layers| && Settles(layers[k], x, y)
    ensures LastSettles(layers, j, x, y)
  {
    var n := |layers| - 1;
    if Settles(layers[n], x, y) {
      j := n;
    } else {
      var k :| 0 <= k < |layers| && Settles(layers[k], x, y);
      assert Settles(layers[..n][k], x, y);
      j := SomeLayerSettlesLast(layers[..n], x, y);
    }
  }

  /** That description fits one pixel only. */
  lemma SeenIsUnique(layers: seq<Layer>, i: nat, x: int, y: int, p: Pixel, q: Pixel)
    requires AllWellFormed(layers) && i < |layers| && IsSeen(layers, i, x, y, p) && IsSeen(layers, i, x, y, q)
    ensures p == q
  {
    if k :| 0 <= k < i && Settles(layers[k], x, y) {
      assert Settles(layers[..i][k], x, y);
      var j := SomeLayerSettlesLast(layers[..i], x, y);
    }
  }

  /** Only the layers whose frame covers a point decide its pixel. */
  function Covering(layers: seq<Layer>, x: int, y: int): (some: seq<Layer>)
    requires AllWellFormed(layers)
    ensures AllWellFormed(some)
  {
    if layers == [] then []
    else
      var n := |layers| - 1;
      Covering(layers[..n], x, y) + (if layers[n].frame.Covers(x, y) then [layers[n]] else [])
  }

  lemma {:induction false} OnlyCoveringLayersMatter(layers: seq<Layer>, x: int, y: int)
    requires AllWellFormed(layers)
    ensures Canvas(layers, x, y) == Canvas(Covering(layers, x, y), x, y)
  {
    if layers != [] {
      var n := |layers| - 1;
      OnlyCoveringLayersMatter(layers[..n], x, y);
      var some := Covering(layers[..n], x, y);
      assert (some + [layers[n]])[..|some|] == some;
      assert some + [] == some;
    }
  }

  // ---- Dropping a frame that restores what was before it ----

  function Without<T>(s: seq<T>, k: nat): seq<T>
    requires k < |s|
  {
    s[..k] + s[k + 1..]
  }

  lemma {:induction false} DroppedLayerLeavesCanvas(layers: seq<Layer>, k: nat, x: int, y: int)
    requires AllWellFormed(layers) && k < |layers| && layers[k].disposal == DISPOSAL_PREVIOUS
    ensures AllWellFormed(Without(layers, k))
    ensures Canvas(Without(layers, k), x, y) == Canvas(layers, x, y)
    decreases |layers|
  {
    var n := |layers| - 1;
    if k == n {
      assert Without(layers, k) == layers[..n];
    } else {
      DroppedLayerLeavesCanvas(layers[..n], k, x, y);
      assert Without(layers, k)[..n - 1] == Without(layers[..n], k);
      assert Without(layers, k)[n - 1] == layers[n];
    }
  }

  /** Removing a frame that is disposed of to the previous canvas changes no other snapshot. */
  lemma DroppingPreviousFrame(layers: seq<Layer>, k: nat, i: nat, x: int, y: int)
    requires AllWellFormed(layers) && k < |layers| && layers[k].disposal == DISPOSAL_PREVIOUS
    requires i < |layers| && i != k
    ensures AllWellFormed(Without(layers, k))
    ensures Shown(Without(layers, k), if i < k then i else i - 1, x, y) == Shown(layers, i, x, y)
  {
    if i < k {
      assert Without(layers, k)[..i] == layers[..i];
    } else {
      DroppedLayerLeavesCanvas(layers[..i], k, x, y);
      assert Without(layers, k)[..i - 1] == Without(layers[..i], k);
    }
  }

  // ---- The canvas in place ----

  type Image = array2<Pixel>

  ghost predicate HoldsCanvas(image: Image, layers: seq<Layer>)
    requires AllWellFormed(layers)
    reads image
  {
    forall y, x :: 0 <= y < image.Length0 && 0 <= x < image.Length1 ==> image[y, x] == Canvas(layers, x, y)
  }

  ghost predicate HoldsShown(image: Image, layers: seq<Layer>, i: nat)
    requires AllWellFormed(layers) && i < |layers|
    reads image
  {
    forall y, x :: 0 <= y < image.Length0 && 0 <= x < image.Length1 ==> image[y, x] == Shown(layers, i, x, y)
  }

  ghost predicate SameSize(a: Image, b: Image) {
    a.Length0 == b.Length0 && a.Length1 == b.Length1
  }

  method NewImage(width: nat, height: nat) returns (image: Image)
    ensures fresh(image) && image.Length0 == height && image.Length1 == width
    ensures forall y, x :: 0 <= y < height && 0 <= x < width ==> image[y, x] == Clear
  {
    image := new Pixel[height, width]((y, x) => Clear);
  }

  method Copy(source: Image) returns (image: Image)
    ensures fresh(image) && SameSize(image, source)
    ensures forall y, x :: 0 <= y < image.Length0 && 0 <= x < image.Length1 ==> image[y, x] == source[y, x]
  {
    image := NewImage(source.Length1, source.Length0);
    CopyInto(source, image);
  }

  method CopyInto(source: Image, target: Image)
    requires SameSize(source, target)
    modifies target
    ensures forall y, x :: 0 <= y < target.Length0 && 0 <= x < target.Length1 ==> target[y, x] == old(source[y, x])
  {
    forall y, x | 0 <= y < target.Length0 && 0 <= x < target.Length1 {
      target[y, x] := source[y, x];
    }
  }

  method DrawOver(canvas: Image, f: Frame)
    requires f.WellFormed()
    modifies canvas
    ensures forall y, x :: 0 <= y < canvas.Length0 && 0 <= x < canvas.Length1 ==>
              canvas[y, x] == Over(old(canvas[y, x]), f, x, y)
  {
    forall y, x | 0 <= y < canvas.Length0 && 0 <= x < canvas.Length1 && f.Covers(x, y) && f.At(x, y).Solid? {
      canvas[y, x] := f.At(x, y);
    }
  }

  method ClearRectangle(canvas: Image, f: Frame)
    modifies canvas
    ensures forall y, x :: 0 <= y < canvas.Length0 && 0 <= x < canvas.Length1 ==>
              canvas[y, x] == if f.Covers(x, y) then Clear else old(canvas[y, x])
  {
    forall y, x | 0 <= y < canvas.Length0 && 0 <= x < canvas.Length1 && f.Covers(x, y) {
      canvas[y, x] := Clear;
    }
  }

  /** Every pixel is what the viewer sees while layer i is shown. */
  ghost predicate Shows(image: Image, layers: seq<Layer>, i: nat)
    requires AllWellFormed(layers) && i < |layers|
    reads image
  {
    forall y, x :: 0 <= y < image.Length0 && 0 <= x < image.Length1 ==> IsSeen(layers, i, x, y, image[y, x])
  }

  lemma HoldsWhatIsSeen(image: Image, layers: seq<Layer>, i: nat)
    requires AllWellFormed(layers) && i < |layers| && HoldsShown(image, layers, i)
    ensures Shows(image, layers, i)
  {
    hide IsSeen, Shown;
    forall y, x | 0 <= y < image.Length0 && 0 <= x < image.Length1 ensures IsSeen(layers, i, x, y, image[y, x]) {
      ShownIsSeen(layers, i, x, y);
    }
  }

  function CanvasWidth(g: Gif): nat
    requires g.images != []
  {
    if g.width == 0 || g.height == 0 then g.images[0].left + g.images[0].width else g.width
  }

  function CanvasHeight(g: Gif): nat
    requires g.images != []
  {
    if g.width == 0 || g.height == 0 then g.images[0].top + |g.images[0].rows| else g.height
  }

  /** The canvas has the screen's size; if that lacks a dimension, it is the smallest that holds the first frame. */
  lemma CanvasHoldsFirstFrame(g: Gif)
    requires g.images != []
    ensures g.width > 0 && g.height > 0 ==> CanvasWidth(g) == g.width && CanvasHeight(g) == g.height
    ensures (g.width == 0 || g.height == 0) && g.images[0].width > 0 && |g.images[0].rows| > 0 ==>
              && (forall x, y :: g.images[0].Covers(x, y) ==> 0 <= x < CanvasWidth(g) && 0 <= y < CanvasHeight(g))
              && g.images[0].Covers(CanvasWidth(g) - 1, CanvasHeight(g) - 1)
  {
  }

  /** A frame beyond the end of the disposal list is treated like one with disposal 0: it stays. */
  lemma MissingDisposalStays(g: Gif, i: nat)
    requires g.WellFormed() && |g.disposal| <= i < |g.images|
    ensures Layers(g) == Layers(g.(disposal := g.disposal + [0]))
    ensures forall x, y :: Settles(Layers(g)[i], x, y) <==> g.images[i].At(x, y).Solid?
  {
  }

  /** The others are shown and disposed of as the two lists say; a longer list makes no difference. */
  lemma ListedDisposals(g: Gif, i: nat)
    requires g.WellFormed() && i < |g.images| && i < |g.disposal|
    ensures Layers(g)[i] == Layer(g.images[i], g.disposal[i])
    ensures |g.disposal| >= |g.images| ==> Layers(g) == Layers(g.(disposal := g.disposal[..|g.images|]))
  {
  }

  /** Shows layer i on the canvas, returns its snapshot and disposes of it. */
  method ShowFrame(canvas: Image, layers: seq<Layer>, i: nat) returns (snapshot: Image)
    requires AllWellFormed(layers) && i < |layers| && HoldsCanvas(canvas, layers[..i])
    modifies canvas
    ensures fresh(snapshot) && SameSize(snapshot, canvas)
    ensures HoldsShown(snapshot, layers, i) && Shows(snapshot, layers, i)
    ensures HoldsCanvas(canvas, layers[..i + 1])
  {
    var Layer(frame, disposal) := layers[i];
    assert layers[..i + 1][..i] == layers[..i];
    var previous: array2?<Pixel> := null;
    if disposal == DISPOSAL_PREVIOUS {
      previous := Copy(canvas);
    }
    DrawOver(canvas, frame);
    snapshot := Copy(canvas);
    HoldsWhatIsSeen(snapshot, layers, i);
    if disposal == DISPOSAL_BACKGROUND {
      ClearRectangle(canvas, frame);
    } else if disposal == DISPOSAL_PREVIOUS && previous != null {
      CopyInto(previous, canvas);
    }
  }

  /** One fresh snapshot for each frame, no two of them the same object, each showing the reading above. */
  method CompositeGIFFrames(g: Gif) returns (result: seq<Image>)
    requires g.WellFormed() && g.images != []
    ensures |result| == |g.images|
    ensures forall i :: 0 <= i < |result| ==> fresh(result[i])
    ensures forall i, j :: 0 <= i < j < |result| ==> result[i] != result[j]
    ensures forall i :: 0 <= i < |result| ==>
              && result[i].Length0 == CanvasHeight(g) && result[i].Length1 == CanvasWidth(g)
              && HoldsShown(result[i], Layers(g), i) && Shows(result[i], Layers(g), i)
  {
    var canvas := NewImage(CanvasWidth(g), CanvasHeight(g));
    ghost var layers := Layers(g);
    result := [];
    for i := 0 to |g.images|
      invariant |result| == i
      invariant fresh(canvas) && canvas.Length0 == CanvasHeight(g) && canvas.Length1 == CanvasWidth(g)
      invariant HoldsCanvas(canvas, layers[..i])
      invariant forall k :: 0 <= k < i ==> fresh(result[k]) && result[k] != canvas
      invariant forall k, l :: 0 <= k < l < i ==> result[k] != result[l]
      invariant forall k :: 0 <= k < i ==> SameSize(result[k], canvas)
      invariant forall k :: 0 <= k < i ==> HoldsShown(result[k], layers, k) && Shows(result[k], layers, k)
    {
      var snapshot := ShowFrame(canvas, Layers(g), i);
      result := result + [snapshot];
    }
  }
}
