# PyFontConverter font.py in Dafny

This project models `font.py` of PyFontConverter. The program turns a range of JIS X 0208 codes into C source for an embedded font. It works in four stages:

- **Code table.** It transcodes every JIS code of the range to Shift_JIS and UTF-8 and keeps the codes that transcode, as seven-field records `[utf8, sjis, jis, char, width, height, offset]` (`getCodeTbl`, `jis_to_encodings`).
- **Sort.** It sorts the records by their UTF-8 value.
- **Render and pack.** It renders each character and packs the picture into a bit plane: one bit per pixel, most significant bit first, rows padded to whole bytes (`render_glyph_to_bitmap`, `display_bitmap_data`). Each record gets its width and height and its byte offset into the concatenated planes (`convToDataAndBitmap`).
- **Emit.** It prints a `KanjiData` struct declaration, the `fontNameData` table with one line per record, and the `fontNameBitmap` array with one commented block per glyph.

The modules follow those stages:

| module | file | models |
|---|---|---|
| `Bits` | bits.dfy | big-endian digit strings: values, digits, powers |
| `Numerals` | numerals.dfy | Python's `hex`, `bin` and `str` without prefix, and `str.zfill` |
| `Packing` | packing.dfy | `display_bitmap_data`: threshold, pad, `np.packbits`, store into a 2-D `array2` |
| `Transcode` | transcode.dfy | `jis_to_encodings`, `int.to_bytes` and `int.from_bytes` |
| `CodeTable` | code_table.dfy | `getCodeTbl`: a loop over the range that appends records, and the function it is proved against |
| `Sorting` | sorting.dfy | `codeList.sort(key=lambda x: x[0])`, a stable sort |
| `Glyphs` | glyphs.dfy | `render_glyph_to_bitmap`, and `convToDataAndBitmap` as a method of a class holding `font` and `bmpList` |
| `CText` | c_text.dfy | the printing loops of the `__main__` block, as methods that grow strings |
| `Pipeline` | pipeline.dfy | the `__main__` block, from code range to C text |

Each imperative part of the program is a method proved against a specification function:

- `GetCodeTbl` against `CodeTbl`;
- `DisplayBitmapData` against `PackImage`;
- `ConvToDataAndBitmap` against `Planes` and `Placed`;
- the emitters against `TableText`, `BitmapText`, `BlockText` and `RowText`;
- `GenerateCSource` against `CSource`.

The properties of the program are lemmas about those functions.

The library codecs (`iso2022_jp`, `shift_jis` and `utf-8`) are the function fields of a `Codecs` value. The rasterizer is a `Font` function from character, size, offset and pixel position to a gray value.

A row of w pixels packs into `ceil(w/8)` bytes (`Packing.PackRow`). The array that `display_bitmap_data` stores those rows into is not shaped after them. It allocates:

- `width` rows, because it reads the image shape `(rows, columns)` into names meaning `(columns, rows)`;
- `round(height/8)` bytes per row, where Python's `round` rounds half to even.

The model keeps this arithmetic. `Packing.StoreFits` states when the store succeeds. `Packing.SquareFits`, `Packing.RoundIsCeil` and `Packing.PackImageSquare` show that for the square n×n glyphs the program renders, the plane has n rows of `ceil(n/8)` bytes exactly when `round(n/8) == ceil(n/8)`. That holds for n = 8, 12 and 16, and for the program's size 12.

## Model

| member | source | states |
|---|---|---|
| Packing.Threshold | font.py:32 | a pixel becomes bit 1 exactly when its gray value is below 128, and 0 otherwise |
| Packing.ThresholdRow | font.py:32 | a thresholded row has the row's length, and bit j is 1 exactly when pixel j is below 128 |
| Packing.ThresholdImage | font.py:27-32 | the binary bitmap has one thresholded row per image row |
| Packing.PaddedWidth | font.py:43 | padding by `(8 - w % 8) % 8` bits gives the least multiple of 8 that is at least w |
| Packing.PadRow | font.py:43-45 | the padded row is `8 * ceil(w/8)` long, starts with the row, and its padding bits are 0 |
| Packing.PackBits | font.py:47 | `np.packbits` makes one byte of every eight bits |
| Packing.UnpackPack | font.py:47 | unpacking the packed bits gives the bits back |
| Packing.PackUnpack | font.py:47 | packing the unpacked bits of bytes gives the bytes back |
| Packing.UnpackBitsAt | font.py:47 | bit j of a packed row is bit `j % 8` of byte `j / 8`, counted from the most significant end |
| Packing.PackRow | font.py:42-47 | a packed row of w pixels is `ceil(w/8)` bytes long |
| Packing.PackRowSpec | font.py:42-47 | a packed row holds `ceil(w/8)` bytes; its first w bits are the thresholded pixels and the padding bits are 0 |
| Packing.PixelBit | font.py:32-47 | pixel j is set in bit `j % 8` of byte `j / 8` exactly when its gray value is below 128 |
| Packing.RoundHalfEven8 | font.py:37 | `round(n / 8)` is within half of `n / 8`, and a tie goes to the even neighbour |
| Packing.Broadcast | font.py:51 | numpy row assignment fills the whole row of k bytes: with the assigned bytes in order when there are k of them, and with the single byte repeated otherwise |
| Packing.PackImageRow | font.py:36-51 | image row i packs to a nonempty row exactly when the array has a row i, and that array row is the packed row broadcast |
| Packing.PackImage | font.py:36-39 | the returned array has as many rows as the image is wide, each `round(height/8)` bytes long |
| Packing.SquareFits | font.py:36-39 | an n×n glyph can be stored exactly when n ≤ 8 or `round(n/8) == ceil(n/8)` |
| Packing.RoundIsCeil | font.py:37 | `round(n/8) == ceil(n/8)` exactly when n is a multiple of 8, has remainder at least 5, or has remainder 4 with `n / 8` odd |
| Packing.PackImageSquare | font.py:36-51 | for an n×n glyph with `round(n/8) == ceil(n/8)`, the plane is n rows of `ceil(n/8)` bytes, row i is image row i packed, and the size is `n * ceil(n/8)` |
| Packing.StoreRow | font.py:49-51 | assigning the row once per byte leaves the same array as one assignment; an empty packed row changes nothing; other rows are unchanged |
| Packing.DisplayBitmapData | font.py:25-62 | the returned array is freshly allocated, and its contents are the plane of the image |
| Transcode.FromBytesBE | font.py:83-85 | `int.from_bytes` of n bytes is below 256^n |
| Transcode.ToBytesBE | font.py:103 | `to_bytes(length)` succeeds exactly when 0 ≤ v < 256^length; then it gives `length` bytes whose big-endian value is v |
| Transcode.ToBytesFromBytes | font.py:83-85 | writing back the value of a byte string at its own length gives the bytes |
| Transcode.ToBytesPadded | font.py:103 | writing back at a greater length puts zero bytes in front (UTF-8 bytes read, then written as 3 bytes) |
| Transcode.JisRequest | font.py:75-76 | a code can be written as 2 bytes exactly when it is below 65536; the decoder gets `ESC $ B`, the high byte and the low byte |
| Transcode.Transcoded | font.py:75-84 | the transcoding succeeds exactly when the code is below 65536 and the JIS decoder, the Shift_JIS encoder and the UTF-8 encoder all succeed; it then gives the decoded character and its two encodings |
| Transcode.JisToEncodings | font.py:69-90 | any failure gives `(0, 0, 0)`; success gives the input code first and the big-endian values of its Shift_JIS and UTF-8 encodings |
| Transcode.NonzeroMeansSuccess | font.py:73-90 | a nonzero first component means the transcoding of that very code succeeded |
| CodeTable.EntryFor | font.py:97-107 | a code is skipped exactly when a component is zero; `OverflowError` exactly when the UTF-8 value needs more than 3 bytes; otherwise it is kept exactly when the UTF-8 decoder accepts the 3 bytes, and `UnicodeDecodeError` is raised exactly when it rejects them; a kept record has the code as its JIS field, nonzero values, zero width, height and offset, and the decoded character |
| CodeTable.GetCodeTbl | font.py:94-108 | the loop returns the code table of the range, or the first exception raised |
| CodeTable.FailureSticks | font.py:103-104 | once an exception is raised, the rest of the range does not matter |
| CodeTable.FailureWitness | font.py:96-104 | a failure comes from the first code whose loop body raised, and carries what that code raised |
| CodeTable.NoAbortInSuccess | font.py:96-107 | no code of a successful code table raised |
| CodeTable.CodeTblFails | font.py:94-108 | `getCodeTbl` raises exactly when some code raises, and then with the first such code's exception |
| CodeTable.CodeTblIsFilterMap | font.py:94-108 | the table is the range's kept codes, in range order, each mapped to its record; every kept code has a record |
| CodeTable.CodeTblEntries | font.py:96-107 | there are no more records than codes; every record has nonzero UTF-8, Shift_JIS and JIS values and zero width, height and offset |
| CodeTable.CodeTblOrderedByJis | font.py:96-107 | over an increasing range the records have strictly increasing JIS values |
| Sorting.SortByUtf8 | font.py:170 | the sorted list is a permutation of the list and is non-decreasing on the UTF-8 field |
| Sorting.SortIsStable | font.py:170 | for each key, the records with that key keep their relative order |
| Glyphs.RenderGlyphToBitmap | font.py:8-22 | the rendered image is `font_size` by `font_size` pixels |
| Glyphs.GlyphPlane | font.py:116-119 | a glyph's plane is well formed and has `n * round(n/8)` bytes |
| Glyphs.PlanesAt | font.py:113-120 | plane i is the plane of record i's character |
| Glyphs.PlanesPrefix | font.py:113-120 | the planes of a prefix of the list are a prefix of the planes |
| Glyphs.Converter.constructor | font.py:174 | the converter holds the loaded font and an empty `bmpList` |
| Glyphs.Converter.PlaceRecord | font.py:114-121 | record k gets offset `byteOffset` and width and height n; the other records are unchanged; the plane is appended; its size is returned |
| Glyphs.Converter.ConvToDataAndBitmap | font.py:111-122 | one plane per record is appended in list order, and every record is placed at the running offset |
| Glyphs.PlacedOffsets | font.py:112-121 | the first offset is 0, and each next offset is the previous one plus the previous plane's size |
| Glyphs.PlacedMonotone | font.py:112-121 | offsets never decrease along the list |
| Glyphs.PlacedKeepsCodes | font.py:114-118 | placement keeps fields 0-3 of every record and sets width and height to the glyph size |
| Glyphs.UniformOffsets | font.py:112-121 | with n×n glyphs, record i starts at byte `i * n * round(n/8)` |
| Numerals.Numeral | font.py:202 | `hex(v)[2:]` uses only lowercase hexadecimal digits |
| Numerals.DigitStringIsLowerHex | font.py:202 | a string of digits below 16 is lowercase hexadecimal |
| Numerals.NumeralFits | font.py:202 | v fits in as many digits as Python prints for it |
| Numerals.NumeralIsShortest | font.py:202 | the printed digits of a nonzero v have no leading zero |
| Numerals.ParseNumeral | font.py:202 | reading back the digits printed for v gives v |
| Numerals.ZFill | font.py:202 | `zfill(width)` is `width` long, or the string's own length when that is longer |
| Numerals.ZFillAt | font.py:202 | `zfill` puts only `0` characters in front of the string, and the string after them |
| Numerals.ZFillLowerHex | font.py:202 | zero-filling a lowercase hex string gives a lowercase hex string |
| Numerals.ZFillIsFixedWidth | font.py:221 | zero-filling to a width v fits in writes exactly that many digits of v |
| Numerals.ParseZFill | font.py:202 | a zero-filled numeral reads back as v, whatever the width |
| Numerals.ZFillLength | font.py:202 | `zfill(width)` is exactly `width` long when v fits and longer otherwise: it never truncates |
| Numerals.HexField | font.py:222 | `hex(v)[2:].zfill(w)` is lowercase hex that reads back as v, is at least w long, and is exactly w long iff v < 16^w |
| Numerals.Bin8 | font.py:221 | `bin(b)[2:].zfill(8)` of a byte is its eight bits, most significant first |
| Numerals.BinaryDigitString | font.py:221 | a string of binary digits shows `1` for each set digit and `0` for each clear one |
| CText.EmitCodeTable | font.py:198-210 | the table loop prints the header, one line per record and the closing brace |
| CText.RecordLine | font.py:202-207 | a record line is the record's fields, then a comma (a space on the last line), then the character comment |
| CText.RecordFieldsLayout | font.py:202-203 | a record's fields are `{ 0x` and 8 hex digits of the UTF-8 value, ` , ` and the middle fields, then ` , 0x` and 8 hex digits of the offset and ` }}` |
| CText.HexField8 | font.py:202 | a value below 16^8 is printed as 8 lowercase hex digits that read back as the value |
| CText.EmitBitmap | font.py:213-235 | the bitmap loop prints the header, one block per plane and the closing brace |
| CText.EmitBlock | font.py:215-232 | a block is the header comment, its rows, and a blank line |
| CText.EmitRow | font.py:218-229 | a row is its cells and, after the last one, the comment with its bits; an empty row prints nothing |
| CText.CellAt | font.py:222-228 | every byte is printed as `0x`, two lowercase hex digits that read back as the byte, and a comma |
| CText.CellsLength | font.py:222-228 | each byte takes five characters |
| CText.BitsTextShowsBits | font.py:219-221 | character j of the bits comment is `1` exactly when bit j of the unpacked row is set |
| CText.BitsTextIsUnpacked | font.py:219-221 | the bits comment of a row is the row's bytes unpacked, most significant bit first |
| CText.RowCommentShowsPixels | font.py:219-229 | a packed image row's comment shows `1` for each dark pixel and `0` for each light one, then `0` for the padding |
| CText.BlockHeader | font.py:217 | when both values are below 16^8, a block header starts with `// UNICODE:0x` and 8 hex digits that read back as the UTF-8 value, then ` -  Offset:0x` and 8 hex digits that read back as the offset |
| Pipeline.FontSizeFits | font.py:153 | the program's glyph size 12 can be stored, and `round(12/8) == ceil(12/8) == 2` |
| Pipeline.GenerateCSource | font.py:165-235 | the main block prints the struct, table and bitmap of the sorted, placed code table, or ends with `getCodeTbl`'s exception |
| Pipeline.ConvertedFails | font.py:169 | the program fails exactly when some code raises, with the first such code's exception |
| Pipeline.ConvertedOrder | font.py:169-179 | the printed records are the code table's records in ascending UTF-8 order, no more than there are codes |
| Pipeline.ConvertedLayout | font.py:179 | each record has its own glyph's plane, the glyph size as width and height, and offset `i * n * round(n/8)` |

## Left out

- `render_glyph_to_bitmap` draws with PIL, which is not modelled. The rasterizer is the `Font` parameter, and the image it returns is `font_size` pixels square, as the image the code creates is.
- The calls to the `iso2022_jp`, `shift_jis` and `utf-8` codecs are the `Codecs` parameter; the JIS X 0208 tables are not modelled. Any exception inside `jis_to_encodings` gives `(0, 0, 0)`. A codec that fails is `None`; a code that `to_bytes(2)` rejects takes the same path.
- Loading the font file, its path and the `JISL1`, `JISL2` and `JISKIGOU` range constants are configuration and file I/O. `Pipeline.GenerateCSource` takes the code range, the font and the glyph size as parameters.
- The diagnostic `print` calls at font.py:115 and font.py:175 are left out. The printed C text is returned as a string instead of written to the console.
- `printBitArray` (font.py:124-129) is never called by the program. Only its `bin(value)[2:].zfill(8)` formatting is modelled, as `Numerals.Bin8`.
- The triple-quoted dead code (font.py:55-61, 131-148, 181-186, 237-338) is not modelled.
- Packing.DisplayBitmapData: requires `StoreFits`, so it does not model two exceptions of the row assignment `bitArray[i] = byte_array` (font.py:51): the numpy `ValueError` when a packed row neither fits the allocated row nor is a single byte, and the `IndexError` when the image has more rows than columns (height > width), so that row i does not exist. No square glyph of at most 8 pixels, or with `round(n/8) == ceil(n/8)`, raises it.
- Packing.PackRow: its own contract states only the length of the packed row. The bits it holds are stated by the lemma `Packing.PackRowSpec`, so that the many proofs that mention packed rows do not carry them.
- Numerals.ZFill: its own contract states only the length. Where the characters go is stated by the lemma `Numerals.ZFillAt`, for the same reason.
- Packing.RoundHalfEven8: models Python's `round(n / 8)` on exact rationals. The float division is exact for every glyph size the program can use.
- Glyphs.Converter.ConvToDataAndBitmap: `bmpList` holds the contents of the numpy arrays as values, not references to them. Nothing changes those arrays after they are appended, so no alias is observable.
- The record lists are Python lists mutated in place. The model holds them as datatype values in an `array`, updated element by element.
- `codeList.sort` is modelled as a function: a stable insertion sort whose result is specified. Python's in-place Timsort procedure is not modelled.
- When `getCodeTbl` raises, the program ends with a traceback. The model returns the exception as a `Failure` and prints nothing.
