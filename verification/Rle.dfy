/**
 Run-length encoding of palette indices, and the C loop that paints a run list back into an RGB buffer.
 */
module Rle {

  datatype Colour = Colour(red: nat, green: nat, blue: nat)
  datatype Scene = Scene(width: nat, height: nat, data: seq<nat>)

  function Repeat(count: nat, value: nat): (r: seq<nat>)
    ensures |r| == count && forall p :: 0 <= p < count ==> r[p] == value
  {
    if count == 0 then [] else Repeat(count - 1, value) + [value]
  }

  /** The pixels a (length, value) list stands for; an odd byte at the end is ignored. */
  function Expand(data: seq<nat>): seq<nat> {
    if |data| < 2 then [] else Repeat(data[0], data[1]) + Expand(data[2..])
  }

  lemma {:induction false} ExpandJoins(left: seq<nat>, right: seq<nat>)
    requires |left| % 2 == 0
    ensures Expand(left + right) == Expand(left) + Expand(right)
  {
    if left == [] {
      assert left + right == right;
    } else {
      assert (left + right)[2..] == left[2..] + right;
      ExpandJoins(left[2..], right);
    }
  }

  lemma ExpandOne(count: nat, value: nat)
    ensures Expand([count, value]) == Repeat(count, value)
  {
  }

  /** Whole (length, value) pairs with lengths from `least` to 255. */
  ghost predicate RunList(data: seq<nat>, least: nat) {
    data == [] || (|data| >= 2 && least <= data[0] <= 255 && RunList(data[2..], least))
  }

  /** The length `j - i` the encoder's inner loop stops at for a list starting at pixel i. */
  function RunLength(flat: seq<nat>, n: nat): (r: nat)
    requires n <= |flat| && n <= 255 && forall p :: 0 <= p < n ==> flat[p] == flat[0]
    ensures n <= r <= |flat| && r <= 255
    ensures forall p :: 0 <= p < r ==> flat[p] == flat[0]
    ensures r < |flat| && r < 255 ==> flat[r] != flat[0]
    decreases 255 - n
  {
    if n < |flat| && flat[n] == flat[0] && n < 255 then RunLength(flat, n + 1) else n
  }

  function Encoded(flat: seq<nat>): seq<nat>
    decreases |flat|
  {
    if flat == [] then [] else
      var n := RunLength(flat, 1);
      [n, flat[0]] + Encoded(flat[n..])
  }

  /** The encoder's first run is at least as long as any uniform start of up to 255 pixels. */
  lemma FirstRunReaches(flat: seq<nat>, m: nat)
    requires 1 <= m <= |flat| && m <= 255 && forall p :: 0 <= p < m ==> flat[p] == flat[0]
    ensures m <= RunLength(flat, 1)
  {
  }

  lemma EncodedSplits(flat: seq<nat>, n: nat)
    requires flat != [] && n == RunLength(flat, 1)
    ensures Encoded(flat) == [n, flat[0]] + Encoded(flat[n..])
    ensures Encoded(flat)[2..] == Encoded(flat[n..]) && Encoded(flat)[0] == n
    ensures Repeat(n, flat[0]) == flat[..n] && flat == flat[..n] + flat[n..]
  {
    hide Encoded, RunLength, Repeat;
    EncodedStep(flat);
  }

  lemma EncodedStep(flat: seq<nat>)
    requires flat != []
    ensures Encoded(flat) == [RunLength(flat, 1), flat[0]] + Encoded(flat[RunLength(flat, 1)..])
  {
  }

  /** Round trip, and every run has 1 to 255 pixels. */
  lemma {:induction false} EncodedExpands(flat: seq<nat>)
    ensures Expand(Encoded(flat)) == flat && RunList(Encoded(flat), 1)
    decreases |flat|
  {
    if flat != [] {
      hide Encoded, RunLength, Repeat;
      var n := RunLength(flat, 1);
      EncodedExpands(flat[n..]);
      EncodedSplits(flat, n);
    }
  }

  /** Encoding fewer pixels never takes more runs. */
  lemma {:induction false} SuffixNotLonger(flat: seq<nat>, k: nat)
    requires k <= |flat|
    ensures |Encoded(flat[k..])| <= |Encoded(flat)|
    decreases |flat|
  {
    hide Encoded, RunLength;
    if k == 0 {
      assert flat[k..] == flat;
    } else {
      var n := RunLength(flat, 1);
      EncodedSplits(flat, n);
      if k >= n {
        SuffixNotLonger(flat[n..], k - n);
        assert flat[n..][k - n..] == flat[k..];
      } else {
        var m := RunLength(flat[k..], 1);
        FirstRunReaches(flat[k..], n - k);
        EncodedSplits(flat[k..], m);
        SuffixNotLonger(flat[n..], k + m - n);
        assert flat[n..][k + m - n..] == flat[k..][m..];
      }
    }
  }

  /** No run list with lengths of at most 255 stands for the same pixels with fewer runs. */
  lemma {:induction false} EncodedIsShortest(flat: seq<nat>, other: seq<nat>)
    requires RunList(other, 0) && Expand(other) == flat
    ensures |Encoded(flat)| <= |other|
    decreases |other|
  {
    if other == [] {
      assert flat == [];
    } else {
      hide Encoded, RunLength;
      var m, rest := other[0], other[2..];
      assert flat == Repeat(m, other[1]) + Expand(rest);
      assert flat[m..] == Expand(rest);
      EncodedIsShortest(flat[m..], rest);
      if m == 0 {
        assert flat[m..] == flat;
      } else {
        LongerFirstRun(flat, m, other[1]);
      }
    }
  }

  /** A uniform start of up to 255 pixels costs the encoder at most one run more than what follows it. */
  lemma LongerFirstRun(flat: seq<nat>, m: nat, value: nat)
    requires 1 <= m <= |flat| && m <= 255 && forall p :: 0 <= p < m ==> flat[p] == value
    ensures |Encoded(flat)| <= |Encoded(flat[m..])| + 2
  {
    hide Encoded, RunLength;
    var n := RunLength(flat, 1);
    FirstRunReaches(flat, m);
    EncodedSplits(flat, n);
    SuffixNotLonger(flat[m..], n - m);
    assert flat[m..][n - m..] == flat[n..];
  }

  /** `rle`: the shortest run list for the pixels. */
  method Rle(flat: seq<nat>) returns (out: seq<nat>)
    ensures out == Encoded(flat)
    ensures Expand(out) == flat && RunList(out, 1)
    ensures forall other :: RunList(other, 0) && Expand(other) == flat ==> |out| <= |other|
  {
    hide Encoded, RunLength, Expand, RunList, Repeat;
    out := [];
    var i := 0;
    assert flat[0..] == flat;
    while i < |flat|
      invariant 0 <= i <= |flat|
      invariant out + Encoded(flat[i..]) == Encoded(flat)
    {
      var j := i;
      while j < |flat| && flat[j] == flat[i] && j - i < 255
        invariant i <= j <= |flat| && j - i <= 255
        invariant forall p :: i <= p < j ==> flat[p] == flat[i]
      {
        j := j + 1;
      }
      StopsAtRunLength(flat, i, j);
      out := out + [j - i, flat[i]];
      i := j;
    }
    EncodedEmpty(flat[i..]);
    EncodedExpands(flat);
    forall other | RunList(other, 0) && Expand(other) == flat ensures |out| <= |other| {
      EncodedIsShortest(flat, other);
    }
  }

  lemma EncodedEmpty(flat: seq<nat>)
    requires |flat| == 0
    ensures Encoded(flat) == []
  {
  }

  lemma {:induction false} RunLengthIs(flat: seq<nat>, m: nat, n: nat)
    requires m <= n <= |flat| && n <= 255 && forall p :: 0 <= p < n ==> flat[p] == flat[0]
    requires n < |flat| && n < 255 ==> flat[n] != flat[0]
    ensures RunLength(flat, m) == n
    decreases n - m
  {
    if m < n {
      RunLengthIs(flat, m + 1, n);
    }
  }

  lemma StopsAtRunLength(flat: seq<nat>, i: nat, j: nat)
    requires i < j <= |flat| && j - i <= 255
    requires forall p :: i <= p < j ==> flat[p] == flat[i]
    requires j < |flat| && j - i < 255 ==> flat[j] != flat[i]
    ensures Encoded(flat[i..]) == [j - i, flat[i]] + Encoded(flat[j..])
  {
    hide Encoded, RunLength;
    RunLengthIs(flat[i..], 1, j - i);
    EncodedStep(flat[i..]);
    assert flat[i..][j - i..] == flat[j..];
  }

  // Painting.

  function Component(colour: Colour, c: nat): nat {
    if c == 0 then colour.red else if c == 1 then colour.green else colour.blue
  }

  ghost predicate Drawable(pixels: seq<nat>, palette: seq<Colour>) {
    forall p :: 0 <= p < |pixels| ==> pixels[p] < |palette|
  }

  /** The buffer with its first pixels replaced by the palette colours of `pixels`. */
  ghost function Painted(before: seq<nat>, pixels: seq<nat>, palette: seq<Colour>): (r: seq<nat>)
    requires Drawable(pixels, palette)
    ensures |r| == |before|
    ensures forall b :: 0 <= b < |before| ==>
      r[b] == if b / 3 < |pixels| then Component(palette[pixels[b / 3]], b % 3) else before[b]
  {
    seq(|before|, b requires 0 <= b < |before| =>
      if b / 3 < |pixels| then Component(palette[pixels[b / 3]], b % 3) else before[b])
  }

  function Clip(pixels: seq<nat>, size: nat): seq<nat> {
    if |pixels| <= size then pixels else pixels[..size]
  }

  /** Storing the three components of one more pixel paints it. */
  lemma PaintOne(before: seq<nat>, pixels: seq<nat>, value: nat, palette: seq<Colour>)
    requires Drawable(pixels, palette) && value < |palette| && 3 * |pixels| + 2 < |before|
    ensures var b := 3 * |pixels|;
      Painted(before, pixels + [value], palette)
        == Painted(before, pixels, palette)[b := palette[value].red][b + 1 := palette[value].green][b + 2 := palette[value].blue]
  {
  }

  /** The decoder's inner loop: one run, stopping at the end of the picture. */
  method PaintRun(rgb: array<nat>, ghost before: seq<nat>, ghost pixels: seq<nat>, start: nat, count: nat, value: nat, size: nat, palette: seq<Colour>)
    returns (pos: nat)
    requires 3 * size <= rgb.Length == |before| && Drawable(pixels, palette) && (count > 0 ==> value < |palette|)
    requires rgb[..] == Painted(before, Clip(pixels, size), palette) && start == |Clip(pixels, size)|
    modifies rgb
    ensures Drawable(pixels + Repeat(count, value), palette)
    ensures rgb[..] == Painted(before, Clip(pixels + Repeat(count, value), size), palette)
    ensures pos == |Clip(pixels + Repeat(count, value), size)|
  {
    hide Drawable, Painted, Clip;
    pos := start;
    var k := 0;
    RunDrawable(pixels, count, value, palette);
    ClipDrawable(pixels, size, palette);
    assert pixels + Repeat(0, value) == pixels;
    while k < count && pos < size
      invariant 0 <= k <= count && Drawable(pixels + Repeat(k, value), palette)
      invariant Drawable(Clip(pixels + Repeat(k, value), size), palette)
      invariant rgb[..] == Painted(before, Clip(pixels + Repeat(k, value), size), palette)
      invariant pos == |Clip(pixels + Repeat(k, value), size)|
    {
      ClipGrows(pixels, k, value, size, palette);
      PaintOne(before, pixels + Repeat(k, value), value, palette);
      rgb[pos * 3 + 0] := palette[value].red;
      rgb[pos * 3 + 1] := palette[value].green;
      rgb[pos * 3 + 2] := palette[value].blue;
      k, pos := k + 1, pos + 1;
    }
    ClipStays(pixels, k, count, value, size);
  }

  lemma RunDrawable(pixels: seq<nat>, count: nat, value: nat, palette: seq<Colour>)
    requires Drawable(pixels, palette) && (count > 0 ==> value < |palette|)
    ensures Drawable(pixels + Repeat(count, value), palette)
  {
  }

  lemma ClipGrows(pixels: seq<nat>, k: nat, value: nat, size: nat, palette: seq<Colour>)
    requires |Clip(pixels + Repeat(k, value), size)| < size
    requires Drawable(pixels + Repeat(k, value), palette) && value < |palette|
    ensures Clip(pixels + Repeat(k, value), size) == pixels + Repeat(k, value)
    ensures Clip(pixels + Repeat(k + 1, value), size) == pixels + Repeat(k, value) + [value] == pixels + Repeat(k + 1, value)
    ensures Drawable(pixels + Repeat(k + 1, value), palette)
  {
  }

  /** A picture that is full stays as it is. */
  lemma ClipStays(pixels: seq<nat>, k: nat, count: nat, value: nat, size: nat)
    requires k <= count && (k == count || |Clip(pixels + Repeat(k, value), size)| >= size)
    ensures Clip(pixels + Repeat(k, value), size) == Clip(pixels + Repeat(count, value), size)
  {
  }

  lemma NextRun(data: seq<nat>, i: nat, palette: seq<Colour>)
    requires i + 1 < |data| && i % 2 == 0 && Drawable(Expand(data), palette)
    ensures Expand(data[..i + 2]) == Expand(data[..i]) + Repeat(data[i], data[i + 1])
    ensures data[i] > 0 ==> data[i + 1] < |palette|
  {
    hide Expand, Drawable;
    assert data[..i + 2] == data[..i] + [data[i], data[i + 1]];
    ExpandJoins(data[..i], [data[i], data[i + 1]]);
    ExpandOne(data[i], data[i + 1]);
    assert data == data[..i + 2] + data[i + 2..];
    ExpandJoins(data[..i + 2], data[i + 2..]);
    InRange(Expand(data[..i]), data[i], data[i + 1], Expand(data[i + 2..]), palette);
  }

  lemma InRange(left: seq<nat>, count: nat, value: nat, right: seq<nat>, palette: seq<Colour>)
    requires Drawable(left + Repeat(count, value) + right, palette)
    ensures count > 0 ==> value < |palette|
  {
    var all := left + Repeat(count, value) + right;
    assert count > 0 ==> all[|left|] == value;
  }

  /** The end of the data holds no further pixels. */
  lemma LastRun(data: seq<nat>, i: nat)
    requires i <= |data| <= i + 1 && i % 2 == 0
    ensures Expand(data) == Expand(data[..i])
  {
    assert data == data[..i] + data[i..];
    ExpandJoins(data[..i], data[i..]);
  }

  lemma NothingPainted(before: seq<nat>, palette: seq<Colour>)
    ensures Painted(before, [], palette) == before
  {
  }

  /**
   The emitted decoder loop: it paints the pixels the data stands for, clipped to the picture, touches nothing
   else, and succeeds exactly when they fill the picture.
   */
  method Decode(rgb: array<nat>, width: nat, height: nat, data: seq<nat>, palette: seq<Colour>) returns (ok: bool)
    requires 3 * (width * height) <= rgb.Length && Drawable(Expand(data), palette)
    modifies rgb
    ensures Drawable(Clip(Expand(data), width * height), palette)
    ensures rgb[..] == Painted(old(rgb[..]), Clip(Expand(data), width * height), palette)
    ensures ok <==> |Expand(data)| >= width * height
  {
    hide Painted, Drawable, Expand, Clip, Repeat;
    ghost var before := rgb[..];
    var pos := 0;
    var i := 0;
    EmptyDrawable(palette);
    NothingExpanded(data[..0], width * height);
    NothingPainted(before, palette);
    ghost var size := width * height;
    while i + 1 < |data|
      invariant 0 <= i <= |data| && i % 2 == 0
      invariant Drawable(Expand(data[..i]), palette) && Drawable(Clip(Expand(data[..i]), size), palette)
      invariant rgb[..] == Painted(before, Clip(Expand(data[..i]), size), palette)
      invariant pos == |Clip(Expand(data[..i]), size)|
    {
      NextRun(data, i, palette);
      pos := PaintRun(rgb, before, Expand(data[..i]), pos, data[i], data[i + 1], width * height, palette);
      ClipDrawable(Expand(data[..i + 2]), size, palette);
      i := i + 2;
    }
    LastRun(data, i);
    ClipFills(Expand(data), size);
    ok := pos == width * height;
  }

  lemma NothingExpanded(data: seq<nat>, size: nat)
    requires data == []
    ensures Expand(data) == [] && Clip([], size) == []
  {
  }

  lemma ClipFills(pixels: seq<nat>, size: nat)
    ensures |Clip(pixels, size)| == size <==> |pixels| >= size
  {
  }

  lemma EmptyDrawable(palette: seq<Colour>)
    ensures Drawable([], palette)
  {
  }

  lemma ClipDrawable(pixels: seq<nat>, size: nat, palette: seq<Colour>)
    requires Drawable(pixels, palette)
    ensures Drawable(Clip(pixels, size), palette)
  {
  }

  /** The colours of the pixels, in buffer order. */
  ghost function Picture(flat: seq<nat>, palette: seq<Colour>): (r: seq<nat>)
    requires Drawable(flat, palette)
    ensures |r| == 3 * |flat|
    ensures forall b :: 0 <= b < |r| ==> r[b] == Component(palette[flat[b / 3]], b % 3)
  {
    seq(3 * |flat|, b requires 0 <= b < 3 * |flat| => Component(palette[flat[b / 3]], b % 3))
  }

  /** Three bytes a pixel: red, green, blue of its palette entry. */
  lemma PictureBytes(flat: seq<nat>, palette: seq<Colour>, p: nat)
    requires Drawable(flat, palette) && p < |flat|
    ensures var picture, colour := Picture(flat, palette), palette[flat[p]];
      picture[3 * p] == colour.red && picture[3 * p + 1] == colour.green && picture[3 * p + 2] == colour.blue
  {
  }

  /** The table entry the chain of size tests ends with: the last one of that size. */
  ghost predicate Selected(table: seq<Scene>, width: nat, height: nat, index: nat) {
    && index < |table| && table[index].width == width && table[index].height == height
    && forall k :: index < k < |table| ==> !(table[k].width == width && table[k].height == height)
  }

  /**
   `sv_gallery_scene` over tables written by the encoder: an unknown size leaves the buffer alone and fails,
   a known one succeeds and leaves exactly the rendered picture at the start of the buffer.
   */
  method GalleryScene(rgb: array<nat>, width: nat, height: nat, table: seq<Scene>, flats: seq<seq<nat>>, palette: seq<Colour>)
    returns (ok: bool)
    requires |flats| == |table|
    requires forall k :: 0 <= k < |table| && table[k].width == width && table[k].height == height ==>
      3 * (width * height) <= rgb.Length
    requires forall k :: 0 <= k < |table| ==>
      && Drawable(flats[k], palette) && |flats[k]| == table[k].width * table[k].height
      && table[k].data == Encoded(flats[k])
    modifies rgb
    ensures ok <==> exists k: nat :: Selected(table, width, height, k)
    ensures !ok ==> rgb[..] == old(rgb[..])
    ensures forall k: nat :: Selected(table, width, height, k) ==>
      rgb[..] == Picture(flats[k], palette) + old(rgb[3 * (width * height)..])
  {
    hide Painted, Picture, Selected, Drawable, Encoded, Expand, RunList;
    var data;
    ghost var chosen;
    ok, data, chosen := FindScene(table, width, height);
    if ok {
      SelectedIs(table, width, height, chosen);
      EncodedExpands(flats[chosen]);
      ghost var before := rgb[..];
      ok := Decode(rgb, width, height, data, palette);
      WholePicture(before, flats[chosen], palette);
      assert before[3 * (width * height)..] == old(rgb[3 * (width * height)..]);
    }
  }

  /** The chain of size tests. */
  method FindScene(table: seq<Scene>, width: nat, height: nat) returns (found: bool, data: seq<nat>, ghost chosen: nat)
    ensures found ==> Selected(table, width, height, chosen) && data == table[chosen].data
    ensures !found ==> forall k: nat :: !Selected(table, width, height, k)
  {
    found, data, chosen := false, [], 0;
    for t := 0 to |table|
      invariant !found ==> forall k :: 0 <= k < t ==> !(table[k].width == width && table[k].height == height)
      invariant found ==> Selected(table[..t], width, height, chosen) && data == table[chosen].data
    {
      if table[t].width == width && table[t].height == height {
        found, data, chosen := true, table[t].data, t;
      }
    }
    assert table[..|table|] == table;
  }

  lemma SelectedIs(table: seq<Scene>, width: nat, height: nat, index: nat)
    requires Selected(table, width, height, index)
    ensures index < |table| && table[index].width == width && table[index].height == height
    ensures forall k: nat :: Selected(table, width, height, k) ==> k == index
  {
  }

  lemma WholePicture(before: seq<nat>, flat: seq<nat>, palette: seq<Colour>)
    requires Drawable(flat, palette) && |before| >= 3 * |flat|
    ensures Painted(before, flat, palette) == Picture(flat, palette) + before[3 * |flat|..]
  {
  }
}
