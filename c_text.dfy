/** The C source font.py prints from its `__main__` block: the `KanjiData` struct
    declaration, the `fontNameData` table with one line per record, and the
    `fontNameBitmap` array with one commented block per glyph. The text is built the way
    the program builds it, by growing strings in loops; what it prints is returned. */
module CText {
  import opened Bits
  import opened Numerals
  import opened Packing
  import opened CodeTable

  /** The struct declaration, each `print` line ended by a newline, then an empty line. */
  const StructDecl: string :=
    "struct KanjiData {\n" + "\tuint32_t Unidoe;\n" + "\tuint16_t SJIS;\n" + "\tuint16_t JIS;\n"
    + "\tuint8_t width;\n" + "\tuint8_t height;\n" + "\tuint32_t offsetBMP;\n" + "};\n" + "\n"

  const TableHeader: string := "static const KanjiData fontNameData[] = {\n"
  const BitmapHeader: string := "static const uint8_t fontNameBitmap[] = {\n"
  /** `print("};")` followed by `print()`. */
  const Closing: string := "};\n" + "\n"

  /** Python prints `0x%08x` fields: for values below 16^8 the eight characters after `0x`
      are lowercase hexadecimal digits that read back as the value. */
  predicate ShowsHex8(s: string, v: nat)
  {
    |s| == 8 && (forall i | 0 <= i < 8 :: IsLowerHexDigit(s[i])) && ParseDigits(s, 16) == v
  }

  /** The fields of a record in braces, the f-string of the table loop; its `}}}}` prints
      two closing braces. */
  function RecordFields(e: CodeEntry): string
  {
    "\t{ 0x" + HexField(e.utf8, 8) + " , " + CodesAndSize(e) + " , 0x" + HexField(e.offset, 8) + " }}"
  }

  /** The Shift_JIS and JIS values in Python's `hex` form, then width and height in decimal. */
  function CodesAndSize(e: CodeEntry): string
  {
    Hex(e.sjis) + " , " + Hex(e.jis) + " , " + Decimal(e.width) + " ," + Decimal(e.height)
  }

  /** A comma after every line but the last, which gets a space. */
  function Separator(last: bool): string
  {
    if last then " " else ","
  }

  /** The character as a comment, ending the line. */
  function RecordTail(e: CodeEntry): string
  {
    "\t// " + e.ch + "\r\n"
  }

  /** One line of the table: the fields, a comma or, on the last line, a space, and the
      comment with the character. */
  function RecordLine(e: CodeEntry, last: bool): (line: string)
    ensures var f := RecordFields(e);
      && |line| == |f| + 1 + |RecordTail(e)| && line[..|f|] == f
      && line[|f|] == (if last then ' ' else ',') && line[|f| + 1..] == RecordTail(e)
  {
    Parts3(RecordFields(e), Separator(last), RecordTail(e));
    RecordFields(e) + Separator(last) + RecordTail(e)
  }

  /** The first `k` lines of the table. */
  function RecordLines(list: seq<CodeEntry>, k: nat): string
    requires k <= |list|
  {
    if k == 0 then "" else RecordLines(list, k - 1) + RecordLine(list[k - 1], k - 1 == |list| - 1)
  }

  function TableText(list: seq<CodeEntry>): string
  {
    TableHeader + RecordLines(list, |list|) + Closing
  }

  /** The table printing loop of the `__main__` block. */
  method EmitCodeTable(codeList: seq<CodeEntry>) returns (text: string)
    ensures text == TableText(codeList)
  {
    text := TableHeader;
    assert text == TableHeader + RecordLines(codeList, 0) by { EmptyRight(TableHeader); }
    for i := 0 to |codeList|
      invariant text == TableHeader + RecordLines(codeList, i)
    {
      var code := codeList[i];
      var strWkLine := "";
      strWkLine := RecordFields(code);
      if i < |codeList| - 1 {
        strWkLine := strWkLine + ",";
      } else {
        strWkLine := strWkLine + " ";
      }
      strWkLine := strWkLine + RecordTail(code);
      LineStep(text, codeList, i);
      text := text + strWkLine;
    }
    ClosingStep(text, TableHeader, RecordLines(codeList, |codeList|));
    text := text + "};\n";
    text := text + "\n";
  }

  /** Printing line `i` extends the table by that record's line. */
  lemma LineStep(text: string, list: seq<CodeEntry>, i: nat)
    requires i < |list| && text == TableHeader + RecordLines(list, i)
    ensures var sep := if i < |list| - 1 then "," else " ";
      text + (RecordFields(list[i]) + sep + RecordTail(list[i])) == TableHeader + RecordLines(list, i + 1)
  {
    var sep := if i < |list| - 1 then "," else " ";
    assert sep == Separator(i == |list| - 1);
    Regroup1(TableHeader, RecordLines(list, i), RecordLine(list[i], i == |list| - 1));
  }

  /** The two closing prints end the text with `Closing`. */
  lemma ClosingStep(text: string, header: string, body: string)
    requires text == header + body
    ensures text + "};\n" + "\n" == header + body + Closing
  {
    Regroup1(header + body, "};\n", "\n");
  }

  lemma EmptyLeft<T>(a: seq<T>)
    ensures [] + a == a
  {
  }

  lemma Regroup1<T>(a: seq<T>, b: seq<T>, c: seq<T>)
    ensures a + b + c == a + (b + c)
  {
  }

  /** Every byte of a row as `0x` and two hex digits, each followed by a comma. */
  function Cells(bytes: seq<Byte>): string
  {
    if bytes == [] then "" else Cells(bytes[..|bytes| - 1]) + CellText(bytes[|bytes| - 1]) + ","
  }

  /** One byte as `0x` and two hex digits. */
  function CellText(b: Byte): string
  {
    "0x" + HexField(b, 2)
  }

  /** The comment closing a row, showing its bits. */
  function RowComment(bitsInfo: string): string
  {
    "\t\t// " + bitsInfo + " \r\n"
  }

  /** The bytes of a row as 8-character binary strings (the `printBitArray` format). */
  function BitsText(bytes: seq<Byte>): string
  {
    if bytes == [] then "" else BitsText(bytes[..|bytes| - 1]) + Bin8(bytes[|bytes| - 1])
  }

  /** One row of a glyph: its cells, then after the last one a comment with its bits. An
      empty row prints nothing. */
  function RowText(bytes: seq<Byte>): string
  {
    if bytes == [] then "" else Cells(bytes) + RowComment(BitsText(bytes))
  }

  function RowsText(rows: seq<seq<Byte>>): string
  {
    if rows == [] then "" else RowsText(rows[..|rows| - 1]) + RowText(rows[|rows| - 1])
  }

  /** The comment that opens the block of one glyph: the UTF-8 value and the offset in
      eight hex digits each, after `UNICODE:0x` and `Offset:0x`. */
  function BlockHeader(e: CodeEntry): (h: string)
    ensures e.utf8 < Pow(16, 8) && e.offset < Pow(16, 8) ==>
      && |h| >= 42 && h[..13] == "// UNICODE:0x" && ShowsHex8(h[13..21], e.utf8)
      && h[21..34] == " -  Offset:0x" && ShowsHex8(h[34..42], e.offset)
  {
    var h := "// UNICODE:0x" + HexField(e.utf8, 8) + " -  Offset:0x" + HexField(e.offset, 8)
      + "   -- CHAR:\"" + e.ch + "\" \r\n";
    assert e.utf8 < Pow(16, 8) && e.offset < Pow(16, 8) ==>
      && h[..13] == "// UNICODE:0x" && ShowsHex8(h[13..21], e.utf8)
      && h[21..34] == " -  Offset:0x" && ShowsHex8(h[34..42], e.offset) by {
      if e.utf8 < Pow(16, 8) && e.offset < Pow(16, 8) {
        assert ShowsHex8(HexField(e.utf8, 8), e.utf8) && ShowsHex8(HexField(e.offset, 8), e.offset);
        var a := "// UNICODE:0x" + HexField(e.utf8, 8) + " -  Offset:0x" + HexField(e.offset, 8);
        assert |a| == 42;
        assert h[..42] == a;
        assert h[..13] == a[..13];
        assert h[13..21] == a[13..21] == HexField(e.utf8, 8);
        assert h[21..34] == a[21..34];
        assert h[34..42] == a[34..42] == HexField(e.offset, 8);
      }
    }
    h
  }

  function BlockText(e: CodeEntry, p: Plane): string
  {
    BlockHeader(e) + RowsText(p.rows) + "\r\n"
  }

  /** The blocks of the first `k` planes, each headed by the record at the same position. */
  function Blocks(codeList: seq<CodeEntry>, bmpList: seq<Plane>, k: nat): string
    requires k <= |bmpList| <= |codeList|
  {
    if k == 0 then "" else Blocks(codeList, bmpList, k - 1) + BlockText(codeList[k - 1], bmpList[k - 1])
  }

  function BitmapText(codeList: seq<CodeEntry>, bmpList: seq<Plane>): string
    requires |bmpList| <= |codeList|
  {
    BitmapHeader + Blocks(codeList, bmpList, |bmpList|) + Closing
  }

  /** The bitmap printing loops of the `__main__` block. The record list must be at least as
      long as the plane list, since block `i` is headed by record `i`. */
  method EmitBitmap(codeList: seq<CodeEntry>, bmpList: seq<Plane>) returns (text: string)
    requires |bmpList| <= |codeList|
    ensures text == BitmapText(codeList, bmpList)
  {
    text := BitmapHeader;
    assert text == BitmapHeader + Blocks(codeList, bmpList, 0) by { EmptyRight(BitmapHeader); }
    for charNo := 0 to |bmpList|
      invariant text == BitmapHeader + Blocks(codeList, bmpList, charNo)
    {
      var oneBlock := EmitBlock(codeList[charNo], bmpList[charNo]);
      BlockStep(text, codeList, bmpList, charNo);
      text := text + oneBlock;
    }
    ClosingStep(text, BitmapHeader, Blocks(codeList, bmpList, |bmpList|));
    text := text + "};\n";
    text := text + "\n";
  }

  /** Printing row `r` extends the block by that row's text. */
  lemma RowsStep(header: string, oneBlock: string, rows: seq<seq<Byte>>, r: nat)
    requires r < |rows| && oneBlock == header + RowsText(rows[..r])
    ensures oneBlock + RowText(rows[r]) == header + RowsText(rows[..r + 1])
  {
    assert rows[..r + 1][..r] == rows[..r];
    Regroup1(header, RowsText(rows[..r]), RowText(rows[r]));
  }

  /** Printing a finished block extends the bitmap text by that glyph's block. */
  lemma BlockStep(text: string, codeList: seq<CodeEntry>, bmpList: seq<Plane>, k: nat)
    requires k < |bmpList| <= |codeList|
    requires text == BitmapHeader + Blocks(codeList, bmpList, k)
    ensures text + BlockText(codeList[k], bmpList[k]) == BitmapHeader + Blocks(codeList, bmpList, k + 1)
  {
    Regroup1(BitmapHeader, Blocks(codeList, bmpList, k), BlockText(codeList[k], bmpList[k]));
  }

  /** The text of one glyph of the bitmap loop: the header comment, every row of the plane,
      and an empty line. */
  method EmitBlock(code: CodeEntry, plane: Plane) returns (oneBlock: string)
    ensures oneBlock == BlockText(code, plane)
  {
    oneBlock := "";
    oneBlock := oneBlock + BlockHeader(code);
    assert oneBlock == BlockHeader(code) + RowsText(plane.rows[..0]) by {
      EmptyLeft(BlockHeader(code));
      EmptyRight(BlockHeader(code));
      assert plane.rows[..0] == [];
    }
    for r := 0 to |plane.rows|
      invariant oneBlock == BlockHeader(code) + RowsText(plane.rows[..r])
    {
      var value := plane.rows[r];
      RowsStep(BlockHeader(code), oneBlock, plane.rows, r);
      oneBlock := EmitRow(oneBlock, value);
    }
    assert plane.rows[..|plane.rows|] == plane.rows;
    oneBlock := oneBlock + "\r\n";
  }

  /** The innermost loop: appends the cells of one row to `oneBlock`, and after the last
      cell the comment with the row's bits, collected in `bitsInfo` along the way. */
  method EmitRow(oneBlock: string, value: seq<Byte>) returns (block: string)
    ensures block == oneBlock + RowText(value)
  {
    block := oneBlock;
    var bitsInfo := "";
    assert 0 < |value| ==> block == oneBlock + Cells(value[..0]) by {
      EmptyRight(oneBlock);
      assert value[..0] == [];
    }
    assert 0 == |value| ==> block == oneBlock + RowText(value) by {
      EmptyRight(oneBlock);
    }
    for x := 0 to |value|
      invariant bitsInfo == BitsText(value[..x])
      invariant x < |value| ==> block == oneBlock + Cells(value[..x])
      invariant x == |value| ==> block == oneBlock + RowText(value)
    {
      ghost var before := block;
      bitsInfo := bitsInfo + Bin8(value[x]);
      block := block + CellText(value[x]);
      if x < |value| - 1 {
        block := block + ",";
        CellStep(oneBlock, before, value, x);
      } else {
        block := block + ",";
        block := block + RowComment(bitsInfo);
        LastCellStep(oneBlock, before, value, bitsInfo);
      }
      BitsStep(value, x);
    }
  }

  /** A cell other than the last extends the cells printed so far. */
  lemma CellStep(oneBlock: string, block: string, value: seq<Byte>, x: nat)
    requires x < |value| && block == oneBlock + Cells(value[..x])
    ensures block + CellText(value[x]) + "," == oneBlock + Cells(value[..x + 1])
  {
    assert value[..x + 1][..x] == value[..x];
    Regroup3(oneBlock, Cells(value[..x]), CellText(value[x]), ",");
  }

  /** The last cell is followed by the comment, completing the row. */
  lemma LastCellStep(oneBlock: string, block: string, value: seq<Byte>, bitsInfo: string)
    requires value != [] && block == oneBlock + Cells(value[..|value| - 1])
    requires bitsInfo == BitsText(value)
    ensures block + CellText(value[|value| - 1]) + "," + RowComment(bitsInfo) == oneBlock + RowText(value)
  {
    var init, last := value[..|value| - 1], value[|value| - 1];
    assert RowText(value) == Cells(init) + CellText(last) + "," + RowComment(bitsInfo);
    Regroup4(oneBlock, Cells(init), CellText(last), ",", RowComment(bitsInfo));
  }

  lemma Regroup3<T>(a: seq<T>, b: seq<T>, c: seq<T>, d: seq<T>)
    ensures a + b + c + d == a + (b + c + d)
  {
  }

  lemma Regroup4<T>(a: seq<T>, b: seq<T>, c: seq<T>, d: seq<T>, e: seq<T>)
    ensures a + b + c + d + e == a + (b + c + d + e)
  {
  }

  /** One more byte adds its bits. */
  lemma BitsStep(value: seq<Byte>, x: nat)
    requires x < |value|
    ensures BitsText(value[..x + 1]) == BitsText(value[..x]) + Bin8(value[x])
  {
    assert value[..x + 1][..x] == value[..x];
  }

  /** A field of `hex(v)[2:].zfill(8)` for a value below 16^8 is a `0x%08x` field. */
  lemma HexField8(v: nat)
    requires v < Pow(16, 8)
    ensures ShowsHex8(HexField(v, 8), v)
  {
  }

  /** The fields of a record start with `{ 0x` and the UTF-8 value in eight hex digits, and
      end with the offset in eight hex digits after `0x` and two closing braces. */
  lemma RecordFieldsLayout(e: CodeEntry)
    requires e.utf8 < Pow(16, 8) && e.offset < Pow(16, 8)
    ensures var f := RecordFields(e);
      && 32 <= |f| && f[..5] == "\t{ 0x" && ShowsHex8(f[5..13], e.utf8) && f[13..16] == " , "
      && f[|f| - 16..|f| - 11] == " , 0x" && ShowsHex8(f[|f| - 11..|f| - 3], e.offset)
      && f[|f| - 3..] == " }}"
  {
    var u, m, o := HexField(e.utf8, 8), CodesAndSize(e), HexField(e.offset, 8);
    HexField8(e.utf8);
    HexField8(e.offset);
    FieldsHead("\t{ 0x", u, " , ", m, " , 0x", o, " }}");
    FieldsTail("\t{ 0x", u, " , ", m, " , 0x", o, " }}");
  }

  /** The first three pieces of the record fields, when the first hex field is eight long. */
  lemma FieldsHead<T>(a: seq<T>, u: seq<T>, b: seq<T>, m: seq<T>, c: seq<T>, o: seq<T>, t: seq<T>)
    requires |a| == 5 && |u| == 8 && |b| == 3 && |c| == 5 && |o| >= 8 && |t| == 3
    ensures var s := a + u + b + m + c + o + t;
      && 32 <= |s| && s[..5] == a && s[5..13] == u && s[13..16] == b
  {
    Parts7(a, u, b, m, c, o, t);
  }

  /** The last three pieces of the record fields, when the second hex field is eight long. */
  lemma FieldsTail<T>(a: seq<T>, u: seq<T>, b: seq<T>, m: seq<T>, c: seq<T>, o: seq<T>, t: seq<T>)
    requires |c| == 5 && |o| == 8 && |t| == 3
    ensures var s := a + u + b + m + c + o + t;
      && 16 <= |s| && s[|s| - 16..|s| - 11] == c && s[|s| - 11..|s| - 3] == o && s[|s| - 3..] == t
  {
    Parts7(a, u, b, m, c, o, t);
  }

  /** The pieces of a concatenation of seven, read back by position. */
  lemma Parts7<T>(a: seq<T>, b: seq<T>, c: seq<T>, m: seq<T>, d: seq<T>, h: seq<T>, t: seq<T>)
    ensures var s := a + b + c + m + d + h + t;
      && s[..|a|] == a && s[|a|..|a| + |b|] == b && s[|a| + |b|..|a| + |b| + |c|] == c
      && s[|s| - |t|..] == t && s[|s| - |t| - |h|..|s| - |t|] == h
      && s[|s| - |t| - |h| - |d|..|s| - |t| - |h|] == d
  {
    var s := a + b + c + m + d + h + t;
    assert s == a + (b + (c + (m + (d + (h + t)))));
    assert s == (a + b + c + m + d) + (h + t);
  }

  lemma Parts3<T>(a: seq<T>, b: seq<T>, c: seq<T>)
    requires |b| == 1
    ensures var s := a + b + c; s[..|a|] == a && s[|a|] == b[0] && s[|a| + 1..] == c
  {
  }

  /** Each byte takes five characters: `0x`, two lowercase hex digits that read back as the
      byte, and a comma. */
  lemma CellAt(bytes: seq<Byte>, k: nat)
    requires k < |bytes|
    ensures |Cells(bytes)| == 5 * |bytes|
    ensures var cell := Cells(bytes)[5 * k..5 * k + 5];
      && cell[..2] == "0x" && cell[4] == ','
      && IsLowerHexDigit(cell[2]) && IsLowerHexDigit(cell[3]) && ParseDigits(cell[2..4], 16) == bytes[k]
  {
    CellsLength(bytes);
    CellsAt(bytes, k);
    CellShape(bytes[k]);
  }

  /** The five characters of byte `k` are its cell and a comma. */
  lemma {:induction false} CellsAt(bytes: seq<Byte>, k: nat)
    requires k < |bytes|
    ensures 5 * k + 5 <= |Cells(bytes)| && Cells(bytes)[5 * k..5 * k + 5] == CellText(bytes[k]) + ","
  {
    var n := |bytes| - 1;
    var init, cell := bytes[..n], CellText(bytes[n]) + ",";
    assert Cells(bytes) == Cells(init) + cell by {
      Regroup1(Cells(init), CellText(bytes[n]), ",");
    }
    assert |Cells(init)| == 5 * n && |cell| == 5 by {
      CellsLength(init);
      CellShape(bytes[n]);
    }
    if k < n {
      assert Cells(init)[5 * k..5 * k + 5] == CellText(bytes[k]) + "," by {
        CellsAt(init, k);
        assert bytes[k] == init[k];
      }
    }
    FiveAt(Cells(bytes), Cells(init), cell, n, k, CellText(bytes[k]) + ",");
  }

  /** Piece `k` of a string of five-character pieces, found in the prefix or as the last
      piece. */
  lemma FiveAt<T>(whole: seq<T>, prefix: seq<T>, last: seq<T>, n: nat, k: nat, piece: seq<T>)
    requires whole == prefix + last && |prefix| == 5 * n && |last| == 5 && k <= n
    requires k < n ==> prefix[5 * k..5 * k + 5] == piece
    requires k == n ==> last == piece
    ensures 5 * k + 5 <= |whole| && whole[5 * k..5 * k + 5] == piece
  {
    if k < n {
      PrefixSlice(prefix, last, 5 * k, 5 * k + 5);
    } else {
      PlainSuffix(prefix, last);
    }
  }

  lemma PlainSuffix<T>(a: seq<T>, b: seq<T>)
    ensures (a + b)[|a|..|a| + |b|] == b
  {
  }

  lemma PrefixSlice<T>(a: seq<T>, b: seq<T>, i: nat, j: nat)
    requires i <= j <= |a|
    ensures (a + b)[i..j] == a[i..j]
  {
  }

  /** A byte's cell and its comma. */
  lemma CellShape(b: Byte)
    ensures var cell := CellText(b) + ",";
      && |cell| == 5 && cell[..2] == "0x" && cell[4] == ','
      && IsLowerHexDigit(cell[2]) && IsLowerHexDigit(cell[3]) && ParseDigits(cell[2..4], 16) == b
  {
    ByteHexField(b);
    var cell := CellText(b) + ",";
    assert cell[2..4] == HexField(b, 2);
  }

  lemma {:induction false} CellsLength(bytes: seq<Byte>)
    ensures |Cells(bytes)| == 5 * |bytes|
  {
    if bytes != [] {
      CellsLength(bytes[..|bytes| - 1]);
      CellShape(bytes[|bytes| - 1]);
    }
  }

  /** A byte's two-digit hex field. */
  lemma ByteHexField(b: Byte)
    ensures |HexField(b, 2)| == 2
    ensures IsLowerHexDigit(HexField(b, 2)[0]) && IsLowerHexDigit(HexField(b, 2)[1])
    ensures ParseDigits(HexField(b, 2), 16) == b
  {
    assert Pow(16, 2) == 256;
  }

  /** The bits comment of a row is the row's bytes unpacked, most significant bit first. */
  lemma {:induction false} BitsTextIsUnpacked(bytes: seq<Byte>)
    ensures IsDigits(UnpackBits(bytes), 16)
    ensures BitsText(bytes) == DigitString(UnpackBits(bytes))
  {
    UnpackBitsAreDigits(bytes);
    if bytes != [] {
      var n := |bytes| - 1;
      var init, b := bytes[..n], bytes[n];
      BitsTextIsUnpacked(init);
      assert UnpackBits(bytes) == UnpackBits(init) + UnpackByte(b) by {
        UnpackBitsSnoc(init, b);
        assert init + [b] == bytes;
      }
      assert Bin8(b) == DigitString(UnpackByte(b));
      assert DigitString(UnpackBits(bytes)) == DigitString(UnpackBits(init)) + DigitString(UnpackByte(b)) by {
        DigitStringAppend(UnpackBits(init), UnpackByte(b));
      }
    }
  }

  lemma UnpackBitsAreDigits(bytes: seq<Byte>)
    ensures IsDigits(UnpackBits(bytes), 16)
  {
  }

  lemma {:induction false} UnpackBitsSnoc(bytes: seq<Byte>, b: Byte)
    ensures UnpackBits(bytes + [b]) == UnpackBits(bytes) + UnpackByte(b)
  {
    if bytes != [] {
      UnpackBitsSnoc(bytes[1..], b);
      assert (bytes + [b])[1..] == bytes[1..] + [b];
    }
  }

  /** Character `j` of the bits comment is `1` exactly when bit `j` of the unpacked row is set. */
  lemma BitsTextShowsBits(bytes: seq<Byte>)
    ensures |BitsText(bytes)| == |UnpackBits(bytes)|
    ensures forall j | 0 <= j < |BitsText(bytes)| ::
      BitsText(bytes)[j] == if UnpackBits(bytes)[j] == 1 then '1' else '0'
  {
    BitsTextIsUnpacked(bytes);
    BinaryDigitString(UnpackBits(bytes));
  }

  /** The comment after a packed image row shows its pixels: the first `w` characters are
      `1` for dark pixels and `0` for light ones, and the padding after them is `0`. */
  lemma RowCommentShowsPixels(row: seq<Byte>)
    ensures |BitsText(PackRow(row))| == 8 * CeilDiv8(|row|) >= |row|
    ensures forall j | 0 <= j < |row| :: BitsText(PackRow(row))[j] == if row[j] < 128 then '1' else '0'
    ensures forall j | |row| <= j < |BitsText(PackRow(row))| :: BitsText(PackRow(row))[j] == '0'
  {
    var bits := UnpackBits(PackRow(row));
    BitsTextShowsBits(PackRow(row));
    PackRowSpec(row);
    PaddedWidth(|row|);
    forall j | 0 <= j < |row| ensures bits[j] == ThresholdRow(row)[j] {
      assert bits[..|row|][j] == bits[j];
    }
  }
}
