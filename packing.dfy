/** The bit-plane packer of font.py (`display_bitmap_data`): a grayscale glyph image is
    thresholded to one bit per pixel and each row is packed, most significant bit first,
    into bytes, as `np.packbits` does. */
module Packing {
  import opened Bits

  /** A grayscale image as `np.array(image)` sees it: `height` rows of `width` gray values. */
  datatype Image = Image(width: nat, height: nat, pixels: seq<seq<Byte>>)
  {
    predicate Valid()
    {
      |pixels| == height && forall r | 0 <= r < height :: |pixels[r]| == width
    }
  }

  /** A two-dimensional byte array, row by row, each row `cols` bytes long. */
  datatype Plane = Plane(cols: nat, rows: seq<seq<Byte>>)
  {
    predicate Valid()
    {
      forall r | 0 <= r < |rows| :: |rows[r]| == cols
    }

    /** numpy's `.size`: the number of elements. */
    function Size(): nat
    {
      |rows| * cols
    }
  }

  /** `(pixel < 128).astype(int)`: dark pixels are set bits. */
  function Threshold(g: Byte): (b: Bit)
    ensures b == 1 <==> g < 128
  {
    if g < 128 then 1 else 0
  }

  function ThresholdRow(row: seq<Byte>): (bits: seq<Bit>)
    ensures |bits| == |row|
    ensures forall j | 0 <= j < |row| :: bits[j] == 1 <==> row[j] < 128
  {
    seq(|row|, j requires 0 <= j < |row| => Threshold(row[j]))
  }

  /** The thresholded image, row by row. */
  function ThresholdImage(img: Image): (bits: seq<seq<Bit>>)
    requires img.Valid()
    ensures |bits| == img.height
    ensures forall r | 0 <= r < img.height :: bits[r] == ThresholdRow(img.pixels[r])
  {
    seq(img.height, r requires 0 <= r < img.height => ThresholdRow(img.pixels[r]))
  }

  function CeilDiv8(w: nat): nat
  {
    (w + 7) / 8
  }

  /** The number of zero bits that pad a row of `w` bits to whole bytes. */
  function PaddingLength(w: nat): nat
  {
    (8 - w % 8) % 8
  }

  /** Padding a row gives the least multiple of 8 that is at least its length. */
  lemma PaddedWidth(w: nat)
    ensures w + PaddingLength(w) == 8 * CeilDiv8(w)
    ensures w <= 8 * CeilDiv8(w) < w + 8
  {
  }

  /** `np.pad(row, (0, padding_length), constant_values=0)`. */
  function PadRow(bits: seq<Bit>): (padded: seq<Bit>)
    ensures |padded| == 8 * CeilDiv8(|bits|)
    ensures padded[..|bits|] == bits
    ensures forall j | |bits| <= j < |padded| :: padded[j] == 0
  {
    PaddedWidth(|bits|);
    bits + seq(PaddingLength(|bits|), _ => 0)
  }

  /** Eight bits read as a byte, most significant first. */
  lemma ByteOfBits(chunk: seq<Bit>)
    requires |chunk| == 8
    ensures 0 <= ValueBE(chunk, 2) < 256
  {
    ValueBound(chunk, 2);
    PowOfTwo8();
  }

  /** `np.packbits`: each group of eight bits becomes one byte, most significant bit first. */
  function PackBits(bits: seq<Bit>): (bytes: seq<Byte>)
    requires |bits| % 8 == 0
    ensures 8 * |bytes| == |bits|
  {
    if bits == [] then []
    else
      ByteOfBits(bits[..8]);
      [ValueBE(bits[..8], 2)] + PackBits(bits[8..])
  }

  /** The eight bits of a byte, most significant first (`np.unpackbits`). */
  function UnpackByte(b: Byte): (bits: seq<Bit>)
    ensures |bits| == 8
  {
    var ds := DigitsBE(b, 2, 8);
    assert forall j | 0 <= j < 8 :: 0 <= ds[j] < 2;
    ds
  }

  function UnpackBits(bytes: seq<Byte>): (bits: seq<Bit>)
    ensures |bits| == 8 * |bytes|
  {
    if bytes == [] then [] else UnpackByte(bytes[0]) + UnpackBits(bytes[1..])
  }

  /** Unpacking what was packed gives the bits back. */
  lemma {:induction false} UnpackPack(bits: seq<Bit>)
    requires |bits| % 8 == 0
    ensures UnpackBits(PackBits(bits)) == bits
  {
    if bits != [] {
      var chunk, rest := bits[..8], bits[8..];
      ByteOfBits(chunk);
      DigitsOfValue(chunk, 2);
      var b: Byte := ValueBE(chunk, 2);
      assert PackBits(bits) == [b] + PackBits(rest);
      UnpackPack(rest);
      assert UnpackBits([b] + PackBits(rest)) == UnpackByte(b) + UnpackBits(PackBits(rest));
      assert bits == chunk + rest;
    }
  }

  /** Packing what was unpacked gives the bytes back. */
  lemma {:induction false} PackUnpack(bytes: seq<Byte>)
    ensures PackBits(UnpackBits(bytes)) == bytes
  {
    if bytes != [] {
      var bits := UnpackBits(bytes);
      assert bits[..8] == UnpackByte(bytes[0]);
      assert bits[8..] == UnpackBits(bytes[1..]);
      PowOfTwo8();
      ValueOfDigits(bytes[0], 2, 8);
      PackUnpack(bytes[1..]);
      assert bytes == [bytes[0]] + bytes[1..];
    }
  }

  /** Bit `j` of an unpacked byte string is bit `j % 8` of byte `j / 8`. */
  lemma {:induction false} UnpackBitsAt(bytes: seq<Byte>, j: nat)
    requires j < 8 * |bytes|
    ensures UnpackBits(bytes)[j] == UnpackByte(bytes[j / 8])[j % 8]
  {
    if j >= 8 {
      UnpackBitsAt(bytes[1..], j - 8);
      assert UnpackBits(bytes)[j] == UnpackBits(bytes[1..])[j - 8];
    }
  }

  /** One image row as `display_bitmap_data` packs it: thresholded, padded, packed, one
      byte for every eight pixels. */
  function PackRow(row: seq<Byte>): (bytes: seq<Byte>)
    ensures |bytes| == CeilDiv8(|row|)
  {
    PackBits(PadRow(ThresholdRow(row)))
  }

  /** A packed row holds `ceil(w / 8)` bytes; its first `w` bits are the thresholded pixels
      and the padding bits after them are 0. */
  lemma PackRowSpec(row: seq<Byte>)
    ensures |PackRow(row)| == CeilDiv8(|row|)
    ensures UnpackBits(PackRow(row))[..|row|] == ThresholdRow(row)
    ensures forall j | |row| <= j < |UnpackBits(PackRow(row))| :: UnpackBits(PackRow(row))[j] == 0
  {
    UnpackPack(PadRow(ThresholdRow(row)));
  }

  /** Pixel `j` of a row is set in bit `j % 8` (counted from the most significant end) of
      byte `j / 8` exactly when its gray value is below 128. */
  lemma PixelBit(row: seq<Byte>, j: nat)
    requires j < |row|
    ensures j / 8 < |PackRow(row)|
    ensures UnpackByte(PackRow(row)[j / 8])[j % 8] == 1 <==> row[j] < 128
  {
    PackRowSpec(row);
    UnpackBitsAt(PackRow(row), j);
    assert UnpackBits(PackRow(row))[j] == UnpackBits(PackRow(row))[..|row|][j];
  }

  /** Python's `round(n / 8)`: the nearest integer, ties to the even one. */
  function RoundHalfEven8(n: nat): (k: nat)
    ensures 8 * k - 4 <= n <= 8 * k + 4
    ensures n % 8 == 4 ==> k % 2 == 0
  {
    var q, r := n / 8, n % 8;
    if r < 4 then q else if r > 4 then q + 1 else if q % 2 == 0 then q else q + 1
  }

  /** numpy's row assignment `a[i] = bytes` into a row of `k` elements: equal lengths copy,
      a single byte is repeated along the row. */
  function Broadcast(bytes: seq<Byte>, k: nat): (row: seq<Byte>)
    requires |bytes| == k || |bytes| == 1
    ensures |row| == k
    ensures forall c | 0 <= c < k :: row[c] == if |bytes| == k then bytes[c] else bytes[0]
  {
    if |bytes| == k then bytes else seq(k, _ => bytes[0])
  }

  /** When `display_bitmap_data` runs to completion on an image of `height` rows of
      `width` pixels. It allocates `width` rows of `round(height / 8)` bytes, because it reads
      the image shape (rows, columns) into names meaning (columns, rows). Every nonempty
      packed row must then have a row of the array to go to, and must either fit that row
      exactly or be a single byte, which numpy repeats along the row. */
  predicate StoreFits(height: nat, width: nat)
  {
    var k, b := RoundHalfEven8(height), CeilDiv8(width);
    height == 0 || width == 0 || (height <= width && (b == k || b == 1))
  }

  /** The array `display_bitmap_data` returns: one row per image column index; row `r`
      holds image row `r` packed when the image has such a row, and zeros otherwise. */
  function PackImage(img: Image): (p: Plane)
    requires img.Valid() && StoreFits(img.height, img.width)
    ensures p.Valid() && |p.rows| == img.width && p.cols == RoundHalfEven8(img.height)
  {
    var k := RoundHalfEven8(img.height);
    Plane(k, seq(img.width, r requires 0 <= r < img.width =>
      if r < img.height then Broadcast(PackRow(img.pixels[r]), k) else seq(k, _ => 0)))
  }

  /** A glyph image of `n` by `n` pixels can be stored exactly when it is at most one byte
      wide or when `round(n / 8)` equals `ceil(n / 8)`. */
  lemma SquareFits(n: nat)
    ensures StoreFits(n, n) <==> n <= 8 || RoundHalfEven8(n) == CeilDiv8(n)
  {
  }

  /** `round(n / 8)` equals `ceil(n / 8)` exactly when `n` is a multiple of 8, its remainder
      is at least 5, or its remainder is 4 and `n / 8` is odd (so 8, 12 and 16 qualify, 4 and
      20 do not). */
  lemma RoundIsCeil(n: nat)
    ensures RoundHalfEven8(n) == CeilDiv8(n) <==>
      n % 8 == 0 || n % 8 >= 5 || (n % 8 == 4 && (n / 8) % 2 == 1)
  {
  }

  /** For a square `n` by `n` glyph with `round(n / 8) == ceil(n / 8)`, the plane is `n` rows of
      `ceil(n / 8)` bytes, row `i` being image row `i` packed, and its size is
      `n * ceil(n / 8)`. */
  lemma PackImageSquare(img: Image, n: nat)
    requires img.Valid() && img.width == n && img.height == n
    requires RoundHalfEven8(n) == CeilDiv8(n)
    ensures StoreFits(n, n)
    ensures |PackImage(img).rows| == n && PackImage(img).cols == CeilDiv8(n)
    ensures forall r | 0 <= r < n :: PackImage(img).rows[r] == PackRow(img.pixels[r])
    ensures PackImage(img).Size() == n * CeilDiv8(n)
  {
  }

  /** Image row `i` packs to a nonempty row exactly when the array has a row `i`; row `i`
      of the packed image is then that packed row broadcast along the array row. */
  lemma PackImageRow(img: Image, i: nat)
    requires img.Valid() && StoreFits(img.height, img.width) && i < img.height
    ensures var bytes, k := PackRow(img.pixels[i]), RoundHalfEven8(img.height);
      && (bytes != [] <==> i < img.width)
      && (bytes != [] ==> (|bytes| == k || |bytes| == 1) && PackImage(img).rows[i] == Broadcast(bytes, k))
  {
  }

  /** The contents of a two-dimensional byte array. */
  function Snapshot(a: array2<Byte>): (p: Plane)
    reads a
    ensures p.Valid() && |p.rows| == a.Length0 && p.cols == a.Length1
  {
    Plane(a.Length1, seq(a.Length0, r requires 0 <= r < a.Length0 reads a =>
      seq(a.Length1, c requires 0 <= c < a.Length1 reads a => a[r, c])))
  }

  /** The inner loop of `display_bitmap_data`: once for every byte of the packed row, the
      whole row `i` is assigned (`a[i] = bytes`, broadcast along the row). Repeating the
      assignment leaves what a single one would, and an empty packed row changes nothing. */
  method StoreRow(a: array2<Byte>, i: nat, bytes: seq<Byte>)
    requires bytes != [] ==> i < a.Length0 && (|bytes| == a.Length1 || |bytes| == 1)
    modifies a
    ensures forall r, c | 0 <= r < a.Length0 && 0 <= c < a.Length1 ::
      a[r, c] == if r == i && bytes != [] then Broadcast(bytes, a.Length1)[c] else old(a[r, c])
  {
    for v := 0 to |bytes|
      invariant forall r, c | 0 <= r < a.Length0 && 0 <= c < a.Length1 ::
        a[r, c] == if r == i && v > 0 then Broadcast(bytes, a.Length1)[c] else old(a[r, c])
    {
      forall c | 0 <= c < a.Length1 {
        a[i, c] := if |bytes| == a.Length1 then bytes[c] else bytes[0];
      }
    }
  }

  /** `display_bitmap_data`: threshold the image, then pack each row into a freshly
      allocated zero array, writing the whole row once per byte of the packed row. */
  method DisplayBitmapData(image: Image) returns (bitArray: array2<Byte>)
    requires image.Valid() && StoreFits(image.height, image.width)
    ensures fresh(bitArray)
    ensures Snapshot(bitArray) == PackImage(image)
  {
    ghost var expected := PackImage(image);
    var binaryBitmap := ThresholdImage(image);
    var arraySizeX, arraySizeY := image.height, image.width;
    arraySizeX := RoundHalfEven8(arraySizeX);
    bitArray := new Byte[arraySizeY, arraySizeX]((_, _) => 0);
    for i := 0 to |binaryBitmap|
      invariant forall r, c | 0 <= r < arraySizeY && 0 <= c < arraySizeX ::
        bitArray[r, c] == if r < i then expected.rows[r][c] else 0
    {
      var row := binaryBitmap[i];
      var paddingLength := (8 - |row| % 8) % 8;
      var paddedRow := row + seq(paddingLength, _ => 0);
      PaddedWidth(|row|);
      var byteArray := PackBits(paddedRow);
      assert byteArray == PackRow(image.pixels[i]);
      PackImageRow(image, i);
      StoreRow(bitArray, i, byteArray);
      forall r, c | 0 <= r < arraySizeY && 0 <= c < arraySizeX
        ensures bitArray[r, c] == if r < i + 1 then expected.rows[r][c] else 0
      {
        if r == i {
          assert byteArray != [];
        }
      }
    }
    forall r | 0 <= r < arraySizeY
      ensures Snapshot(bitArray).rows[r] == expected.rows[r]
    {
      assert forall c | 0 <= c < arraySizeX :: Snapshot(bitArray).rows[r][c] == bitArray[r, c];
    }
  }
}
