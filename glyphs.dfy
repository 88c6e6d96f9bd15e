/** `render_glyph_to_bitmap` and `convToDataAndBitmap` of font.py: every record of the code
    list gets its glyph rendered, packed into a bit plane and appended to the plane list,
    and the record's width, height and byte offset into the concatenated planes filled in. */
module Glyphs {
  import opened Bits
  import opened Packing
  import opened CodeTable

  /** The rasterizer: the gray value (0 black .. 255 white) of the pixel at row `r`, column
      `col` of the `size` by `size` white image on which the character has been drawn in
      black at offset (`x`, `y`). */
  type Font = (string, nat, int, int, nat, nat) -> Byte

  /** `render_glyph_to_bitmap`: a square image of `fontSize` by `fontSize` pixels. */
  function RenderGlyphToBitmap(font: Font, ch: string, fontSize: nat, xOffset: int, yOffset: int): (img: Image)
    ensures img.Valid() && img.width == fontSize && img.height == fontSize
  {
    Image(fontSize, fontSize, seq(fontSize, r requires 0 <= r < fontSize => GlyphRow(font, ch, fontSize, xOffset, yOffset, r)))
  }

  /** Row `r` of the rendered image. */
  function GlyphRow(font: Font, ch: string, fontSize: nat, xOffset: int, yOffset: int, r: nat): (row: seq<Byte>)
    ensures |row| == fontSize
  {
    seq(fontSize, col requires 0 <= col < fontSize => font(ch, fontSize, xOffset, yOffset, r, col))
  }

  /** The plane of one record's glyph. */
  function GlyphPlane(font: Font, ch: string, n: nat, xOffset: int, yOffset: int): (p: Plane)
    requires StoreFits(n, n)
    ensures p.Valid() && p.Size() == n * RoundHalfEven8(n)
  {
    PackImage(RenderGlyphToBitmap(font, ch, n, xOffset, yOffset))
  }

  /** The planes of all records, in list order. */
  function Planes(font: Font, entries: seq<CodeEntry>, n: nat, xOffset: int, yOffset: int): (ps: seq<Plane>)
    requires StoreFits(n, n)
    ensures |ps| == |entries|
  {
    if entries == [] then []
    else (Planes(font, entries[..|entries| - 1], n, xOffset, yOffset)
          + [GlyphPlane(font, entries[|entries| - 1].ch, n, xOffset, yOffset)])
  }

  /** Plane `i` is the glyph of record `i`. */
  lemma {:induction false} PlanesAt(font: Font, entries: seq<CodeEntry>, n: nat, xOffset: int, yOffset: int, i: nat)
    requires StoreFits(n, n) && i < |entries|
    ensures Planes(font, entries, n, xOffset, yOffset)[i] == GlyphPlane(font, entries[i].ch, n, xOffset, yOffset)
  {
    if i < |entries| - 1 {
      var init := entries[..|entries| - 1];
      PlanesAt(font, init, n, xOffset, yOffset, i);
      assert init[i] == entries[i];
    }
  }

  /** The planes of a prefix of the list are a prefix of the planes. */
  lemma {:induction false} PlanesPrefix(font: Font, entries: seq<CodeEntry>, n: nat, xOffset: int, yOffset: int, k: nat)
    requires StoreFits(n, n) && k <= |entries|
    ensures Planes(font, entries, n, xOffset, yOffset)[..k] == Planes(font, entries[..k], n, xOffset, yOffset)
  {
    if k < |entries| {
      var init := entries[..|entries| - 1];
      PlanesPrefix(font, init, n, xOffset, yOffset, k);
      assert init[..k] == entries[..k];
      assert Planes(font, entries, n, xOffset, yOffset)[..k] == Planes(font, init, n, xOffset, yOffset)[..k];
    } else {
      assert entries[..k] == entries;
    }
  }

  /** The number of bytes of all planes together. */
  function TotalSize(planes: seq<Plane>): nat
  {
    if planes == [] then 0 else TotalSize(planes[..|planes| - 1]) + planes[|planes| - 1].Size()
  }

  lemma AppendAssoc<T>(a: seq<T>, b: seq<T>, x: T)
    ensures (a + b) + [x] == a + (b + [x])
  {
  }

  /** Record `k` adds its glyph's plane, whose size moves the running offset, and is placed
      at the offset before it. */
  lemma PlanesStep(font: Font, entries: seq<CodeEntry>, n: nat, xOffset: int, yOffset: int, k: nat)
    requires StoreFits(n, n) && k < |entries|
    ensures var done, plane := Planes(font, entries[..k], n, xOffset, yOffset), GlyphPlane(font, entries[k].ch, n, xOffset, yOffset);
      && Planes(font, entries[..k + 1], n, xOffset, yOffset) == done + [plane]
      && TotalSize(Planes(font, entries[..k + 1], n, xOffset, yOffset)) == TotalSize(done) + plane.Size()
      && Placed(entries, Planes(font, entries, n, xOffset, yOffset), n)[k]
         == entries[k].(width := n, height := n, offset := TotalSize(done))
  {
    var done, plane := Planes(font, entries[..k], n, xOffset, yOffset), GlyphPlane(font, entries[k].ch, n, xOffset, yOffset);
    assert entries[..k + 1][..k] == entries[..k];
    assert Planes(font, entries[..k + 1], n, xOffset, yOffset) == done + [plane];
    TotalSizeSnoc(done + [plane], k);
    assert (done + [plane])[..k] == done;
    PlanesPrefix(font, entries, n, xOffset, yOffset, k);
  }

  lemma TotalSizeSnoc(planes: seq<Plane>, k: nat)
    requires k < |planes|
    ensures TotalSize(planes[..k + 1]) == TotalSize(planes[..k]) + planes[k].Size()
  {
    assert planes[..k + 1][..k] == planes[..k];
  }

  /** The records after placement: width and height `n`, offset the size of all planes
      before the record's own. */
  function Placed(entries: seq<CodeEntry>, planes: seq<Plane>, n: nat): (r: seq<CodeEntry>)
    requires |planes| == |entries|
    ensures |r| == |entries|
  {
    seq(|entries|, i requires 0 <= i < |entries| =>
      entries[i].(width := n, height := n, offset := TotalSize(planes[..i])))
  }

  /** The state `convToDataAndBitmap` works on: the module-level `font` and `bmpList`. */
  class Converter {
    const font: Font
    var bmpList: seq<Plane>

    constructor(font: Font)
      ensures this.font == font && bmpList == []
    {
      this.font := font;
      bmpList := [];
    }

    /** `convToDataAndBitmap`: walks the code list, setting each record's offset to the
        running byte count before adding the size of its plane, setting width and height
        from the rendered image and appending the plane to `bmpList`. */
    method ConvToDataAndBitmap(codeList: array<CodeEntry>, fntSize: nat, xOffset: int, yOffset: int)
      requires StoreFits(fntSize, fntSize)
      modifies this, codeList
      ensures bmpList == old(bmpList) + Planes(font, old(codeList[..]), fntSize, xOffset, yOffset)
      ensures codeList[..] == Placed(old(codeList[..]), Planes(font, old(codeList[..]), fntSize, xOffset, yOffset), fntSize)
    {
      ghost var entries := codeList[..];
      ghost var planes := Planes(font, entries, fntSize, xOffset, yOffset);
      ghost var placed := Placed(entries, planes, fntSize);
      var byteOffset := 0;
      assert bmpList == old(bmpList) + Planes(font, entries[..0], fntSize, xOffset, yOffset) by {
        assert entries[..0] == [];
        EmptyRight(old(bmpList));
      }
      for k := 0 to codeList.Length
        invariant bmpList == old(bmpList) + Planes(font, entries[..k], fntSize, xOffset, yOffset)
        invariant byteOffset == TotalSize(Planes(font, entries[..k], fntSize, xOffset, yOffset))
        invariant forall j | 0 <= j < k :: codeList[j] == placed[j]
        invariant forall j | k <= j < codeList.Length :: codeList[j] == entries[j]
      {
        ghost var done := Planes(font, entries[..k], fntSize, xOffset, yOffset);
        ghost var plane := GlyphPlane(font, entries[k].ch, fntSize, xOffset, yOffset);
        PlanesStep(font, entries, fntSize, xOffset, yOffset, k);
        var size := PlaceRecord(codeList, k, byteOffset, fntSize, xOffset, yOffset, plane);
        assert bmpList == old(bmpList) + Planes(font, entries[..k + 1], fntSize, xOffset, yOffset) by {
          AppendAssoc(old(bmpList), done, plane);
        }
        byteOffset := byteOffset + size;
      }
      assert codeList[..] == placed;
      assert entries[..codeList.Length] == entries;
    }

    /** The loop body of `convToDataAndBitmap` for record `k`: its offset becomes
        `byteOffset`, its glyph is rendered and packed, width and height come from the
        image, the plane is appended to `bmpList`, and the plane's size is returned. */
    method PlaceRecord(codeList: array<CodeEntry>, k: nat, byteOffset: nat, fntSize: nat, xOffset: int, yOffset: int,
                       ghost plane: Plane)
      returns (size: nat)
      requires k < codeList.Length && StoreFits(fntSize, fntSize)
      requires plane == GlyphPlane(font, codeList[k].ch, fntSize, xOffset, yOffset)
      modifies this, codeList
      ensures codeList[k] == old(codeList[k]).(width := fntSize, height := fntSize, offset := byteOffset)
      ensures forall j | 0 <= j < codeList.Length && j != k :: codeList[j] == old(codeList[j])
      ensures bmpList == old(bmpList) + [plane]
      ensures size == plane.Size()
    {
      codeList[k] := codeList[k].(offset := byteOffset);
      var bitmapImage := RenderGlyphToBitmap(font, codeList[k].ch, fntSize, xOffset, yOffset);
      codeList[k] := codeList[k].(width := bitmapImage.width, height := bitmapImage.height);
      var bmpData := DisplayBitmapData(bitmapImage);
      bmpList := bmpList + [Snapshot(bmpData)];
      size := bmpData.Length0 * bmpData.Length1;
    }
  }

  /** The first record starts at offset 0, and each next offset is the previous one plus
      the size of the previous record's plane. */
  lemma PlacedOffsets(entries: seq<CodeEntry>, planes: seq<Plane>, n: nat)
    requires |planes| == |entries|
    ensures |entries| > 0 ==> Placed(entries, planes, n)[0].offset == 0
    ensures forall i | 0 <= i < |entries| - 1 ::
      Placed(entries, planes, n)[i + 1].offset == Placed(entries, planes, n)[i].offset + planes[i].Size()
  {
    forall i | 0 <= i < |entries| - 1 ensures TotalSize(planes[..i + 1]) == TotalSize(planes[..i]) + planes[i].Size() {
      assert planes[..i + 1][..i] == planes[..i];
    }
  }

  /** Offsets never decrease along the list. */
  lemma PlacedMonotone(entries: seq<CodeEntry>, planes: seq<Plane>, n: nat)
    requires |planes| == |entries|
    ensures forall i, j | 0 <= i <= j < |entries| ::
      Placed(entries, planes, n)[i].offset <= Placed(entries, planes, n)[j].offset
  {
    forall i, j | 0 <= i <= j < |entries|
      ensures TotalSize(planes[..i]) <= TotalSize(planes[..j])
    {
      TotalSizeMonotone(planes, i, j);
    }
  }

  lemma {:induction false} TotalSizeMonotone(planes: seq<Plane>, i: nat, j: nat)
    requires i <= j <= |planes|
    ensures TotalSize(planes[..i]) <= TotalSize(planes[..j])
  {
    if i < j {
      TotalSizeMonotone(planes, i, j - 1);
      assert planes[..j][..j - 1] == planes[..j - 1];
    }
  }

  /** Placement keeps the UTF-8, Shift_JIS and JIS values and the character of every record
      and sets width and height to the glyph size. */
  lemma PlacedKeepsCodes(entries: seq<CodeEntry>, planes: seq<Plane>, n: nat)
    requires |planes| == |entries|
    ensures forall i | 0 <= i < |entries| ::
      var p := Placed(entries, planes, n)[i];
      p.utf8 == entries[i].utf8 && p.sjis == entries[i].sjis && p.jis == entries[i].jis
      && p.ch == entries[i].ch && p.width == n && p.height == n
  {
  }

  lemma MulSucc(a: nat, m: nat)
    ensures a * m + m == (a + 1) * m
  {
  }

  /** With `n` by `n` glyphs every plane has `n * round(n / 8)` bytes, so the record at
      position `i` starts at byte `i * n * round(n / 8)`. */
  lemma {:induction false} UniformOffsets(font: Font, entries: seq<CodeEntry>, n: nat, xOffset: int, yOffset: int, i: nat)
    requires StoreFits(n, n) && i <= |entries|
    ensures TotalSize(Planes(font, entries, n, xOffset, yOffset)[..i]) == i * (n * RoundHalfEven8(n))
  {
    if i > 0 {
      var planes := Planes(font, entries, n, xOffset, yOffset);
      var m := n * RoundHalfEven8(n);
      UniformOffsets(font, entries, n, xOffset, yOffset, i - 1);
      assert planes[..i][..i - 1] == planes[..i - 1];
      PlanesAt(font, entries, n, xOffset, yOffset, i - 1);
      assert planes[i - 1].Size() == m;
      assert TotalSize(planes[..i]) == (i - 1) * m + m;
      MulSucc(i - 1, m);
    }
  }
}
