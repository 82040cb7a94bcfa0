/**
 Shelf packing of glyph images into a 256 pixel wide atlas, and the atlas as packed bits, most significant first.
 */
module FontAtlas {
  import opened Basics

  const WIDTH := 256
  const STRIDE := 32

  datatype Image = Image(width: nat, height: nat, pixel: (nat, nat) -> nat)

  /** A glyph record: its cropped image, if any, and where packing puts it. */
  class Glyph {
    const image: Option<Image>
    var x: nat
    var y: nat

    constructor (image: Option<Image>)
      ensures this.image == image
    {
      this.image := image;
      x, y := 0, 0;
    }
  }

  // The shelf layout.

  datatype Cursor = Cursor(x: nat, y: nat, rowHeight: nat)

  /** Where an image goes: at the cursor, or on a new shelf when it does not fit there. */
  function Fit(at: Cursor, image: Image): Cursor {
    if at.x + image.width + 1 > WIDTH then Cursor(0, at.y + at.rowHeight + 1, 0) else at
  }

  function Step(at: Cursor, image: Option<Image>): Cursor {
    match image
    case None => at
    case Some(i) =>
      var p := Fit(at, i);
      Cursor(p.x + i.width + 1, p.y, if p.rowHeight >= i.height then p.rowHeight else i.height)
  }

  /** The cursor before glyph n. */
  function CursorAt(images: seq<Option<Image>>, n: nat): Cursor
    requires n <= |images|
  {
    if n == 0 then Cursor(0, 0, 0) else Step(CursorAt(images, n - 1), images[n - 1])
  }

  ghost predicate Placed(images: seq<Option<Image>>, n: nat) {
    n < |images| && images[n].Some?
  }

  function Spot(images: seq<Option<Image>>, n: nat): Cursor
    requires n < |images|
  {
    match images[n]
    case None => Cursor(0, 0, 0)
    case Some(i) => Fit(CursorAt(images, n), i)
  }

  /** Pixel (x, y) of the atlas lies in the rectangle of glyph n. */
  ghost predicate Inside(images: seq<Option<Image>>, n: nat, x: nat, y: nat)
    requires Placed(images, n)
  {
    var p, i := Spot(images, n), images[n].value;
    p.x <= x < p.x + i.width && p.y <= y < p.y + i.height
  }

  /** The cursor is to the right of glyph n on its shelf, which is at least as high, or on a later shelf. */
  ghost predicate Behind(images: seq<Option<Image>>, n: nat, at: Cursor)
    requires Placed(images, n)
  {
    var p, i := Spot(images, n), images[n].value;
    || (at.y == p.y && at.x >= p.x + i.width + 1 && at.rowHeight >= i.height)
    || at.y >= p.y + i.height + 1
  }

  lemma {:induction false} CursorIsBehind(images: seq<Option<Image>>, n: nat, m: nat)
    requires Placed(images, n) && n < m <= |images|
    ensures Behind(images, n, CursorAt(images, m))
  {
    if m > n + 1 {
      CursorIsBehind(images, n, m - 1);
    }
  }

  /** Some glyph before m with an image ends this low. */
  ghost predicate ReachesDown(images: seq<Option<Image>>, m: nat, bottom: nat)
    requires m <= |images|
  {
    exists n: nat :: n < m && Placed(images, n) && Spot(images, n).y + images[n].value.height == bottom
  }

  /** The cursor's shelf is exactly as high as needed: it starts at the top, or some glyph reaches down to its end. */
  lemma {:induction false} ShelfIsTight(images: seq<Option<Image>>, m: nat)
    requires m <= |images|
    ensures var at := CursorAt(images, m);
      (at == Cursor(0, 0, 0) && forall n :: 0 <= n < m ==> images[n].None?)
      || (ReachesDown(images, m, at.y + at.rowHeight) && exists n: nat :: n < m && Placed(images, n) && at.y == Spot(images, n).y)
    decreases m
  {
    if m > 0 {
      ShelfIsTight(images, m - 1);
      var before, at := CursorAt(images, m - 1), CursorAt(images, m);
      if images[m - 1].Some? {
        assert Placed(images, m - 1);
        if at.rowHeight != images[m - 1].value.height {
          var n: nat :| n < m - 1 && Placed(images, n) && Spot(images, n).y + images[n].value.height == before.y + before.rowHeight;
          assert Placed(images, n);
        }
      }
    }
  }

  /**
   Consecutive glyphs: the next one stands one pixel to the right on the same shelf if it fits the width there,
   and else at the left edge, one pixel below the lowest glyph so far.
   */
  lemma NextSpot(images: seq<Option<Image>>, n: nat, m: nat)
    requires Placed(images, n) && Placed(images, m) && n < m && forall k :: n < k < m ==> images[k].None?
    ensures var p, q, right := Spot(images, n), Spot(images, m), Spot(images, n).x + images[n].value.width + 1;
      if right + images[m].value.width + 1 <= WIDTH then q.x == right && q.y == p.y
      else q.x == 0 && q.y > 0 && ReachesDown(images, m, q.y - 1)
           && forall k: nat :: k < m && Placed(images, k) ==> Spot(images, k).y + images[k].value.height <= q.y - 1
  {
    CursorStays(images, n + 1, m);
    ShelfIsTight(images, m);
    assert !(forall k :: 0 <= k < m ==> images[k].None?);
    forall k: nat | k < m && Placed(images, k)
      ensures Spot(images, k).y + images[k].value.height <= CursorAt(images, m).y + CursorAt(images, m).rowHeight
    {
      CursorIsBehind(images, k, m);
    }
  }

  lemma {:induction false} CursorStays(images: seq<Option<Image>>, n: nat, m: nat)
    requires n <= m <= |images| && forall k :: n <= k < m ==> images[k].None?
    ensures CursorAt(images, m) == CursorAt(images, n)
    decreases m
  {
    if n < m {
      CursorStays(images, n, m - 1);
    }
  }

  /** The first glyph stands in the corner. */
  lemma FirstSpot(images: seq<Option<Image>>, m: nat)
    requires Placed(images, m) && images[m].value.width < WIDTH && forall k :: 0 <= k < m ==> images[k].None?
    ensures Spot(images, m).x == 0 && Spot(images, m).y == 0
  {
    CursorStays(images, 0, m);
  }

  /** No pixel lies in two rectangles, and rectangles leave a pixel between them. */
  lemma RectanglesDisjoint(images: seq<Option<Image>>, i: nat, j: nat, x: nat, y: nat)
    requires Placed(images, i) && Placed(images, j) && i != j
    ensures !(Inside(images, i, x, y) && Inside(images, j, x, y))
    ensures !(Inside(images, i, x, y) && Inside(images, j, x + 1, y))
    ensures !(Inside(images, i, x, y) && Inside(images, j, x, y + 1))
  {
    if i < j {
      CursorIsBehind(images, i, j);
    } else {
      CursorIsBehind(images, j, i);
    }
  }

  /** Rows needed, rounded up to whole multiples of eight. */
  function Height(images: seq<Option<Image>>): nat {
    var at := CursorAt(images, |images|);
    (at.y + at.rowHeight + 1 + 7) / 8 * 8
  }

  /** Every rectangle ends above the last row; it fits the width exactly when the image does. */
  lemma RectangleInBounds(images: seq<Option<Image>>, n: nat)
    requires Placed(images, n)
    ensures Spot(images, n).y + images[n].value.height < Height(images)
    ensures Spot(images, n).x + images[n].value.width <= WIDTH <==> images[n].value.width <= WIDTH
    ensures images[n].value.width < WIDTH ==> Spot(images, n).x + images[n].value.width < WIDTH
  {
    hide Inside;
    CursorIsBehind(images, n, |images|);
  }

  /** The height is the least multiple of eight that leaves a row below the lowest glyph. */
  lemma HeightIsLeast(images: seq<Option<Image>>)
    ensures Height(images) % 8 == 0
    ensures (forall n :: 0 <= n < |images| ==> images[n].None?) ==> Height(images) == 8
    ensures (exists n :: 0 <= n < |images| && images[n].Some?) ==>
      exists bottom: nat :: ReachesDown(images, |images|, bottom) && bottom < Height(images) <= bottom + 8
  {
    hide ReachesDown;
    ShelfIsTight(images, |images|);
    CursorStays(images, 0, 0);
    if forall n :: 0 <= n < |images| ==> images[n].None? {
      CursorStays(images, 0, |images|);
    }
  }

  /** The atlas pixel after pasting the first n glyphs over a black image. */
  ghost function Pasted(images: seq<Option<Image>>, n: nat, x: nat, y: nat): nat
    requires n <= |images|
  {
    if n == 0 then 0
    else if Placed(images, n - 1) && Inside(images, n - 1, x, y) then
      images[n - 1].value.pixel(x - Spot(images, n - 1).x, y - Spot(images, n - 1).y)
    else Pasted(images, n - 1, x, y)
  }

  /** Whatever is pasted later, a glyph's rectangle keeps its pixels. */
  lemma {:induction false} PastedKeeps(images: seq<Option<Image>>, n: nat, m: nat, dx: nat, dy: nat)
    requires Placed(images, n) && n < m <= |images| && dx < images[n].value.width && dy < images[n].value.height
    ensures Pasted(images, m, Spot(images, n).x + dx, Spot(images, n).y + dy) == images[n].value.pixel(dx, dy)
  {
    hide Spot, CursorAt;
    if m > n + 1 {
      PastedKeeps(images, n, m - 1, dx, dy);
      var x, y := Spot(images, n).x + dx, Spot(images, n).y + dy;
      assert Inside(images, n, x, y);
      if Placed(images, m - 1) {
        RectanglesDisjoint(images, n, m - 1, x, y);
      }
    }
  }

  /** Outside all rectangles the atlas stays black. */
  lemma {:induction false} PastedBlack(images: seq<Option<Image>>, m: nat, x: nat, y: nat)
    requires m <= |images| && forall n: nat :: n < m && Placed(images, n) ==> !Inside(images, n, x, y)
    ensures Pasted(images, m, x, y) == 0
  {
    hide Spot, CursorAt;
    if m > 0 {
      PastedBlack(images, m - 1, x, y);
    }
  }

  // `pack`.

  function ImagesOf(glyphs: seq<Glyph>): (images: seq<Option<Image>>)
    ensures |images| == |glyphs| && forall n :: 0 <= n < |glyphs| ==> images[n] == glyphs[n].image
  {
    seq(|glyphs|, n requires 0 <= n < |glyphs| => glyphs[n].image)
  }

  ghost predicate PlacedAt(g: Glyph, spot: Cursor)
    reads g
  {
    g.x == spot.x && g.y == spot.y
  }

  /** The first loop: coordinates for every glyph; the result is the final height. */
  method Place(glyphs: seq<Glyph>) returns (height: nat)
    requires Distinct(glyphs)
    modifies glyphs
    ensures forall n :: 0 <= n < |glyphs| ==> PlacedAt(glyphs[n], Spot(ImagesOf(glyphs), n))
    ensures height == Height(ImagesOf(glyphs))
  {
    hide Fit, Spot;
    ghost var images := ImagesOf(glyphs);
    var x: nat, y: nat, rowHeight: nat := 0, 0, 0;
    for n := 0 to |glyphs|
      invariant Cursor(x, y, rowHeight) == CursorAt(images, n)
      invariant forall k :: 0 <= k < n ==> PlacedAt(glyphs[k], Spot(images, k))
    {
      var g := glyphs[n];
      assert forall k :: 0 <= k < n ==> glyphs[k] != g;
      SpotSplits(images, n);
      match g.image
      case None =>
        g.x, g.y := 0, 0;
      case Some(image) =>
        FitSplits(Cursor(x, y, rowHeight), image);
        if x + image.width + 1 > WIDTH {
          x, y, rowHeight := 0, y + rowHeight + 1, 0;
        }
        g.x, g.y := x, y;
        x := x + image.width + 1;
        rowHeight := if rowHeight >= image.height then rowHeight else image.height;
    }
    height := y + rowHeight + 1;
    height := (height + 7) / 8 * 8;
  }

  lemma SpotSplits(images: seq<Option<Image>>, n: nat)
    requires n < |images|
    ensures images[n].None? ==> Spot(images, n) == Cursor(0, 0, 0)
    ensures images[n].Some? ==> Spot(images, n) == Fit(CursorAt(images, n), images[n].value)
  {
  }

  lemma FitSplits(at: Cursor, image: Image)
    ensures at.x + image.width + 1 > WIDTH ==> Fit(at, image) == Cursor(0, at.y + at.rowHeight + 1, 0)
    ensures at.x + image.width + 1 <= WIDTH ==> Fit(at, image) == at
  {
  }

  /** The library's paste of an image, clipped to the atlas. */
  method Paste(atlas: array2<nat>, image: Image, left: nat, top: nat)
    modifies atlas
    ensures forall x, y :: 0 <= y < atlas.Length0 && 0 <= x < atlas.Length1 ==>
      atlas[y, x] == if left <= x < left + image.width && top <= y < top + image.height
                     then image.pixel(x - left, y - top) else old(atlas[y, x])
  {
    forall y, x | 0 <= y < atlas.Length0 && 0 <= x < atlas.Length1
                  && left <= x < left + image.width && top <= y < top + image.height
    {
      atlas[y, x] := image.pixel(x - left, y - top);
    }
  }

  ghost predicate Holds(atlas: array2<nat>, images: seq<Option<Image>>, n: nat)
    requires n <= |images|
    reads atlas
  {
    forall x: nat, y: nat :: y < atlas.Length0 && x < atlas.Length1 ==> atlas[y, x] == Pasted(images, n, x, y)
  }

  /** `pack`: coordinates written into the glyph records and the pasted atlas. */
  method Pack(glyphs: seq<Glyph>) returns (atlas: array2<nat>)
    requires Distinct(glyphs)
    modifies glyphs
    ensures forall n :: 0 <= n < |glyphs| ==> PlacedAt(glyphs[n], Spot(ImagesOf(glyphs), n))
    ensures fresh(atlas) && atlas.Length0 == Height(ImagesOf(glyphs)) && atlas.Length1 == WIDTH
    ensures Holds(atlas, ImagesOf(glyphs), |glyphs|)
  {
    hide Height, Spot, CursorAt;
    var height := Place(glyphs);
    ghost var images := ImagesOf(glyphs);
    atlas := new nat[height, WIDTH]((_, _) => 0);
    for n := 0 to |glyphs|
      invariant Holds(atlas, images, n)
      invariant forall k :: 0 <= k < |glyphs| ==> PlacedAt(glyphs[k], Spot(images, k))
    {
      var g := glyphs[n];
      assert PlacedAt(glyphs[n], Spot(ImagesOf(glyphs), n));
      if g.image.Some? {
        Paste(atlas, g.image.value, g.x, g.y);
      }
    }
  }

  // Bits.

  function Digit(b: bool): nat {
    if b then 1 else 0
  }

  /** The number whose binary digits are the list, first digit most significant. */
  function Number(digits: seq<bool>): nat {
    if digits == [] then 0 else 2 * Number(digits[..|digits| - 1]) + Digit(digits[|digits| - 1])
  }

  lemma {:induction false} DigitOfNumber(digits: seq<bool>, k: nat)
    requires k < |digits|
    ensures Number(digits) / Pow2(|digits| - 1 - k) % 2 == Digit(digits[k])
  {
    var n := |digits| - 1;
    if k < n {
      DigitOfNumber(digits[..n], k);
      DivideTwice(Number(digits), Pow2(n - 1 - k));
    }
  }

  /** Reading the packed bits, most significant bit first, 32 bytes to a row. */
  function BitAt(bits: seq<nat>, x: nat, y: nat): bool
    requires x < WIDTH && (y + 1) * STRIDE <= |bits|
  {
    bits[y * STRIDE + x / 8] / Pow2(7 - x % 8) % 2 == 1
  }

  ghost function Strip(atlas: array2<nat>, y: nat, from: nat): (s: seq<bool>)
    requires y < atlas.Length0 && from + 8 <= atlas.Length1
    reads atlas
    ensures |s| == 8 && forall k :: 0 <= k < 8 ==> (s[k] <==> atlas[y, from + k] >= 128)
  {
    seq(8, k requires 0 <= k < 8 reads atlas => atlas[y, from + k] >= 128)
  }

  method PackByte(atlas: array2<nat>, y: nat, from: nat) returns (byte: nat)
    requires y < atlas.Length0 && from + 8 <= atlas.Length1
    ensures byte == Number(Strip(atlas, y, from))
  {
    byte := 0;
    ghost var strip := Strip(atlas, y, from);
    for k := 0 to 8
      invariant byte == Number(strip[..k])
    {
      assert strip[..k + 1][..k] == strip[..k];
      byte := 2 * byte + if atlas[y, from + k] >= 128 then 1 else 0;
    }
    assert strip[..8] == strip;
  }

  /** The first bytes are the strips of the atlas in reading order. */
  ghost predicate PackedUpTo(atlas: array2<nat>, bits: seq<nat>)
    requires atlas.Length1 == WIDTH && |bits| <= atlas.Length0 * STRIDE
    reads atlas
  {
    forall m :: 0 <= m < |bits| ==> bits[m] == Number(Strip(atlas, m / STRIDE, 8 * (m % STRIDE)))
  }

  method PackBits(atlas: array2<nat>) returns (bits: seq<nat>)
    requires atlas.Length1 == WIDTH
    ensures |bits| == atlas.Length0 * STRIDE && PackedUpTo(atlas, bits)
  {
    hide Number, Strip;
    bits := [];
    for y := 0 to atlas.Length0
      invariant |bits| == y * STRIDE && PackedUpTo(atlas, bits)
    {
      var bx := 0;
      while bx < WIDTH
        invariant 0 <= bx <= WIDTH && bx % 8 == 0
        invariant |bits| == y * STRIDE + bx / 8 && PackedUpTo(atlas, bits)
      {
        var byte := PackByte(atlas, y, bx);
        var m := |bits|;
        assert m / STRIDE == y && 8 * (m % STRIDE) == bx;
        bits := bits + [byte];
        bx := bx + 8;
      }
    }
  }

  lemma BitIsPixel(atlas: array2<nat>, bits: seq<nat>, x: nat, y: nat)
    requires atlas.Length1 == WIDTH && |bits| == atlas.Length0 * STRIDE && PackedUpTo(atlas, bits)
    requires x < WIDTH && y < atlas.Length0
    ensures (y + 1) * STRIDE <= |bits| && (BitAt(bits, x, y) <==> atlas[y, x] >= 128)
  {
    hide Number;
    var m := y * STRIDE + x / 8;
    assert m / STRIDE == y && m % STRIDE == x / 8;
    var strip := Strip(atlas, y, 8 * (x / 8));
    assert bits[m] == Number(strip);
    DigitOfNumber(strip, x % 8);
    assert 8 * (x / 8) + x % 8 == x;
  }

  /** What the viewer reads at a glyph's recorded place is the glyph's thresholded image, if it is not wider than the atlas. */
  ghost predicate Readable(bits: seq<nat>, g: Glyph)
    reads g
  {
    match g.image
    case None => g.x == g.y == 0
    case Some(i) =>
      i.width <= WIDTH ==>
        forall dx: nat, dy: nat :: dx < i.width && dy < i.height ==> ReadsAs(bits, g.x + dx, g.y + dy, i.pixel(dx, dy))
  }

  /** The packed bit at (x, y) exists and is the thresholded pixel. */
  ghost predicate ReadsAs(bits: seq<nat>, x: nat, y: nat, pixel: nat) {
    x < WIDTH && (y + 1) * STRIDE <= |bits| && (BitAt(bits, x, y) <==> pixel >= 128)
  }

  ghost predicate OnGlyph(images: seq<Option<Image>>, x: nat, y: nat) {
    exists n: nat :: Placed(images, n) && Inside(images, n, x, y)
  }

  /** Packing and bit packing together: every glyph reads back, and all other pixels are off. */
  method MakeAtlas(glyphs: seq<Glyph>) returns (bits: seq<nat>)
    requires Distinct(glyphs)
    modifies glyphs
    ensures forall n :: 0 <= n < |glyphs| ==> PlacedAt(glyphs[n], Spot(ImagesOf(glyphs), n)) && Readable(bits, glyphs[n])
    ensures |bits| == Height(ImagesOf(glyphs)) * STRIDE
    ensures forall x: nat, y: nat :: x < WIDTH && y < Height(ImagesOf(glyphs)) && !OnGlyph(ImagesOf(glyphs), x, y) ==>
      !BitAt(bits, x, y)
  {
    hide PackedUpTo, Height, Holds, Readable, BitAt, PlacedAt;
    var atlas := Pack(glyphs);
    bits := PackBits(atlas);
    forall n | 0 <= n < |glyphs| ensures Readable(bits, glyphs[n]) {
      GlyphReadsBack(glyphs, atlas, bits, n);
    }
    forall x: nat, y: nat | x < WIDTH && y < Height(ImagesOf(glyphs)) && !OnGlyph(ImagesOf(glyphs), x, y)
      ensures !BitAt(bits, x, y)
    {
      BackgroundIsOff(glyphs, atlas, bits, x, y);
    }
  }

  ghost predicate Atlas(glyphs: seq<Glyph>, atlas: array2<nat>, bits: seq<nat>)
    reads atlas
  {
    && atlas.Length0 == Height(ImagesOf(glyphs)) && atlas.Length1 == WIDTH
    && Holds(atlas, ImagesOf(glyphs), |glyphs|)
    && |bits| == atlas.Length0 * STRIDE && PackedUpTo(atlas, bits)
  }

  lemma GlyphReadsBack(glyphs: seq<Glyph>, atlas: array2<nat>, bits: seq<nat>, n: nat)
    requires Atlas(glyphs, atlas, bits) && n < |glyphs| && PlacedAt(glyphs[n], Spot(ImagesOf(glyphs), n))
    ensures Readable(bits, glyphs[n])
  {
    hide PackedUpTo, BitAt, Pasted, Height, Inside, CursorAt, Fit, Spot;
    var images := ImagesOf(glyphs);
    SpotSplits(images, n);
    match glyphs[n].image
    case None =>
    case Some(i) =>
      if i.width <= WIDTH {
        forall dx: nat, dy: nat | dx < i.width && dy < i.height
          ensures ReadsAs(bits, glyphs[n].x + dx, glyphs[n].y + dy, i.pixel(dx, dy))
        {
          RectangleInBounds(images, n);
          BitIsPixel(atlas, bits, glyphs[n].x + dx, glyphs[n].y + dy);
          PastedKeeps(images, n, |images|, dx, dy);
        }
      }
  }

  lemma BackgroundIsOff(glyphs: seq<Glyph>, atlas: array2<nat>, bits: seq<nat>, x: nat, y: nat)
    requires Atlas(glyphs, atlas, bits) && x < WIDTH && y < atlas.Length0
    requires !OnGlyph(ImagesOf(glyphs), x, y)
    ensures (y + 1) * STRIDE <= |bits| && !BitAt(bits, x, y)
  {
    hide PackedUpTo, BitAt, Pasted, Height, Inside, Placed;
    BitIsPixel(atlas, bits, x, y);
    PastedBlack(ImagesOf(glyphs), |glyphs|, x, y);
  }
}
