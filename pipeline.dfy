/** The `__main__` block of font.py: build the code table of a JIS range, sort it by UTF-8
    value, render and pack every glyph, and print the C source for the struct, the table and
    the bitmap. The exceptions `getCodeTbl` lets through end the program; the model returns
    them as a `Failure`. The rasterizer and the codecs are parameters. */
module Pipeline {
  import opened Wrappers
  import opened Packing
  import opened Transcode
  import opened CodeTable
  import opened Sorting
  import opened Glyphs
  import opened CText

  /** The glyph size the program is run with. */
  const FontSize: nat := 12

  /** The program's glyph size fits the bitmap store: `round(12 / 8)` is 2, one byte per
      started eight pixels. */
  lemma FontSizeFits()
    ensures StoreFits(FontSize, FontSize) && RoundHalfEven8(FontSize) == CeilDiv8(FontSize) == 2
  {
  }

  /** The records and planes after conversion: the code table sorted by UTF-8 value, placed
      with the planes of its glyphs drawn at offset (0, -1). */
  function Converted(c: Codecs, font: Font, codeRange: seq<int>, n: nat): Result<(seq<CodeEntry>, seq<Plane>), Error>
    requires StoreFits(n, n)
  {
    match CodeTbl(c, codeRange)
    case Failure(err) => Failure(err)
    case Success(list) =>
      var sorted := SortByUtf8(list);
      var planes := Planes(font, sorted, n, 0, -1);
      Success((Placed(sorted, planes, n), planes))
  }

  /** The printed program text, or the exception that stopped the program. */
  function CSource(c: Codecs, font: Font, codeRange: seq<int>, n: nat): Result<string, Error>
    requires StoreFits(n, n)
  {
    match Converted(c, font, codeRange, n)
    case Failure(err) => Failure(err)
    case Success((records, planes)) => Success(StructDecl + TableText(records) + BitmapText(records, planes))
  }

  /** The `__main__` block. */
  method GenerateCSource(c: Codecs, font: Font, codeRange: seq<int>, fontSize: nat) returns (r: Result<string, Error>)
    requires StoreFits(fontSize, fontSize)
    ensures r == CSource(c, font, codeRange, fontSize)
  {
    var codeList: seq<CodeEntry> := [];
    var tbl := GetCodeTbl(c, codeRange);
    if tbl.Failure? {
      return Failure(tbl.error);
    }
    codeList := codeList + tbl.value;
    assert codeList == tbl.value;
    codeList := SortByUtf8(codeList);
    var records := new CodeEntry[|codeList|](i requires 0 <= i < |codeList| => codeList[i]);
    assert records[..] == codeList;
    ghost var planes := Planes(font, codeList, fontSize, 0, -1);
    var converter := new Converter(font);
    converter.ConvToDataAndBitmap(records, fontSize, 0, -1);
    var placed, bmpList := records[..], converter.bmpList;
    assert bmpList == planes by {
      assert [] + planes == planes;
    }
    assert placed == Placed(codeList, planes, fontSize);
    assert Converted(c, font, codeRange, fontSize) == Success((placed, bmpList));
    var text := StructDecl;
    var table := EmitCodeTable(placed);
    var bitmap := EmitBitmap(placed, bmpList);
    text := text + table + bitmap;
    r := Success(text);
  }

  /** The program fails exactly when some code of the range raises, and then with the
      exception of the first such code. */
  lemma ConvertedFails(c: Codecs, font: Font, codeRange: seq<int>, n: nat)
    requires StoreFits(n, n)
    ensures Converted(c, font, codeRange, n).Failure? <==>
      exists k | 0 <= k < |codeRange| :: EntryFor(c, codeRange[k]).Abort?
    ensures Converted(c, font, codeRange, n).Failure? ==>
      exists k | 0 <= k < |codeRange| ::
        EntryFor(c, codeRange[k]) == Abort(Converted(c, font, codeRange, n).error)
        && forall j | 0 <= j < k :: !EntryFor(c, codeRange[j]).Abort?
  {
    CodeTblFails(c, codeRange);
    if CodeTbl(c, codeRange).Failure? {
      var k := FailureWitness(c, codeRange);
    }
  }

  /** The records with width, height and offset cleared, as `getCodeTbl` made them. */
  function Unplaced(records: seq<CodeEntry>): (r: seq<CodeEntry>)
    ensures |r| == |records|
  {
    seq(|records|, i requires 0 <= i < |records| => records[i].(width := 0, height := 0, offset := 0))
  }

  /** After conversion the records are the code table's records, no more than there are
      codes, in ascending UTF-8 order. */
  lemma ConvertedOrder(c: Codecs, font: Font, codeRange: seq<int>, n: nat)
    requires StoreFits(n, n) && Converted(c, font, codeRange, n).Success?
    ensures var (records, planes) := Converted(c, font, codeRange, n).value;
      && |planes| == |records| <= |codeRange|
      && multiset(Unplaced(records)) == multiset(CodeTbl(c, codeRange).value)
      && SortedByUtf8(records)
  {
    var list := CodeTbl(c, codeRange).value;
    var sorted := SortByUtf8(list);
    var planes := Planes(font, sorted, n, 0, -1);
    var records := Placed(sorted, planes, n);
    CodeTblEntries(c, codeRange);
    PlacedKeepsCodes(sorted, planes, n);
    ClearedPlaced(list, sorted, planes, n);
    assert multiset(Unplaced(records)) == multiset(list);
    assert SortedByUtf8(records) by {
      forall i, j | 0 <= i < j < |records| ensures records[i].utf8 <= records[j].utf8 {
        assert records[i].utf8 == sorted[i].utf8 && records[j].utf8 == sorted[j].utf8;
      }
    }
  }

  /** Clearing a placement gives back records that had width, height and offset 0, which
      all records of a permutation of the code table have. */
  lemma ClearedPlaced(list: seq<CodeEntry>, sorted: seq<CodeEntry>, planes: seq<Plane>, n: nat)
    requires |planes| == |sorted| && multiset(sorted) == multiset(list)
    requires forall j | 0 <= j < |list| :: list[j].width == 0 && list[j].height == 0 && list[j].offset == 0
    ensures Unplaced(Placed(sorted, planes, n)) == sorted
  {
    forall i | 0 <= i < |sorted| ensures Unplaced(Placed(sorted, planes, n))[i] == sorted[i] {
      assert sorted[i] in multiset(list);
      var j :| 0 <= j < |list| && list[j] == sorted[i];
    }
  }

  /** Each record has a plane of its own glyph, width and height the glyph size, and the
      `i`-th record starts at byte `i * n * round(n / 8)`. */
  lemma ConvertedLayout(c: Codecs, font: Font, codeRange: seq<int>, n: nat)
    requires StoreFits(n, n) && Converted(c, font, codeRange, n).Success?
    ensures var (records, planes) := Converted(c, font, codeRange, n).value;
      && |planes| == |records|
      && (forall i | 0 <= i < |records| :: records[i].width == n && records[i].height == n)
      && (forall i | 0 <= i < |records| :: records[i].offset == i * (n * RoundHalfEven8(n)))
      && (forall i | 0 <= i < |records| :: planes[i] == GlyphPlane(font, records[i].ch, n, 0, -1))
  {
    var sorted := SortByUtf8(CodeTbl(c, codeRange).value);
    var planes := Planes(font, sorted, n, 0, -1);
    var records := Placed(sorted, planes, n);
    forall i | 0 <= i < |records| ensures records[i].offset == i * (n * RoundHalfEven8(n)) {
      UniformOffsets(font, sorted, n, 0, -1, i);
    }
    forall i | 0 <= i < |records| ensures planes[i] == GlyphPlane(font, records[i].ch, n, 0, -1) {
      PlanesAt(font, sorted, n, 0, -1, i);
    }
  }
}
