/** `jis_to_encodings` of font.py: a JIS X 0208 code is written as two big-endian bytes
    behind the ISO-2022-JP escape sequence that designates JIS X 0208-1983 (RFC 1468,
    section 2), decoded, and the character re-encoded in Shift_JIS and UTF-8; each of those
    byte strings is then read as one big-endian integer. The codecs themselves are
    parameters of the model. */
module Transcode {
  import opened Wrappers
  import opened Bits

  /** The library codecs the transcoder calls, each of which may fail (raise). */
  datatype Codecs = Codecs(
    decodeIso2022Jp: seq<Byte> -> Option<string>,
    encodeShiftJis: string -> Option<seq<Byte>>,
    encodeUtf8: string -> Option<seq<Byte>>,
    decodeUtf8: seq<Byte> -> Option<string>)

  /** `int.from_bytes(bs, byteorder='big')`. */
  function FromBytesBE(bs: seq<Byte>): (v: nat)
    ensures v < Pow(256, |bs|)
  {
    ValueBound(bs, 256);
    ValueBE(bs, 256)
  }

  /** `v.to_bytes(length, byteorder='big')`, which raises `OverflowError` for a negative
      `v` or one that needs more than `length` bytes. */
  function ToBytesBE(v: int, length: nat): (r: Option<seq<Byte>>)
    ensures r.Some? <==> 0 <= v < Pow(256, length)
    ensures r.Some? ==> |r.value| == length && FromBytesBE(r.value) == v
  {
    if 0 <= v < Pow(256, length) then
      var ds := DigitsBE(v, 256, length);
      assert forall j | 0 <= j < length :: 0 <= ds[j] < 256;
      ValueOfDigits(v, 256, length);
      Some(ds)
    else None
  }

  /** Reading bytes as a number and writing it back at the same length gives the bytes. */
  lemma ToBytesFromBytes(bs: seq<Byte>)
    ensures ToBytesBE(FromBytesBE(bs), |bs|) == Some(bs)
  {
    DigitsOfValue(bs, 256);
  }

  /** Writing the number back at a greater length puts zero bytes in front. */
  lemma ToBytesPadded(bs: seq<Byte>, length: nat)
    requires |bs| <= length
    ensures ToBytesBE(FromBytesBE(bs), length).Some?
    ensures ToBytesBE(FromBytesBE(bs), length).value == Zeros(length - |bs|) + bs
  {
    var v := FromBytesBE(bs);
    PowMonotone(256, |bs|, length);
    DigitsOfValue(bs, 256);
    DigitsWiden(v, 256, |bs|, length - |bs|);
    assert |bs| + (length - |bs|) == length;
  }

  /** `ESC $ B`: designates JIS X 0208-1983 in ISO-2022-JP. */
  const DesignateJisX0208: seq<Byte> := [0x1B, 0x24, 0x42]

  /** The byte string handed to the ISO-2022-JP decoder for a JIS code. */
  function JisRequest(jisCode: int): (r: Option<seq<Byte>>)
    ensures r.Some? <==> 0 <= jisCode < 65536
    ensures r.Some? ==> r.value == [0x1B, 0x24, 0x42, jisCode / 256, jisCode % 256]
  {
    match ToBytesBE(jisCode, 2)
    case None => None
    case Some(jisBytes) =>
      assert jisBytes == DigitsBE(jisCode, 256, 2);
      Some(DesignateJisX0208 + jisBytes)
  }

  /** The `(jis, sjis, utf8)` triple `jis_to_encodings` returns. */
  datatype Encodings = Encodings(jis: int, sjis: nat, utf8: nat)

  /** The character a JIS code decodes to and its Shift_JIS and UTF-8 encodings, when
      every step succeeds. */
  function Transcoded(c: Codecs, jisCode: int): (r: Option<(string, seq<Byte>, seq<Byte>)>)
    ensures r.Some? <==>
      && 0 <= jisCode < 65536
      && var ch := c.decodeIso2022Jp([0x1B, 0x24, 0x42, jisCode / 256, jisCode % 256]);
      && ch.Some? && c.encodeShiftJis(ch.value).Some? && c.encodeUtf8(ch.value).Some?
    ensures r.Some? ==>
      && c.decodeIso2022Jp([0x1B, 0x24, 0x42, jisCode / 256, jisCode % 256]) == Some(r.value.0)
      && c.encodeShiftJis(r.value.0) == Some(r.value.1) && c.encodeUtf8(r.value.0) == Some(r.value.2)
  {
    match JisRequest(jisCode)
    case None => None
    case Some(jisBytes) =>
      match c.decodeIso2022Jp(jisBytes)
      case None => None
      case Some(ch) =>
        match c.encodeShiftJis(ch)
        case None => None
        case Some(sjisBytes) =>
          match c.encodeUtf8(ch)
          case None => None
          case Some(utf8Bytes) => Some((ch, sjisBytes, utf8Bytes))
  }

  /** `jis_to_encodings`: on success the input code comes back first, followed by the
      big-endian values of the two encodings; any failure gives `(0, 0, 0)`. */
  function JisToEncodings(c: Codecs, jisCode: int): (e: Encodings)
    ensures Transcoded(c, jisCode).None? ==> e == Encodings(0, 0, 0)
    ensures Transcoded(c, jisCode).Some? ==>
      var (_, sjisBytes, utf8Bytes) := Transcoded(c, jisCode).value;
      e.jis == jisCode && ToBytesBE(e.sjis, |sjisBytes|) == Some(sjisBytes)
      && ToBytesBE(e.utf8, |utf8Bytes|) == Some(utf8Bytes)
    ensures e.jis == 0 || 0 <= e.jis < 65536
  {
    match Transcoded(c, jisCode)
    case None => Encodings(0, 0, 0)
    case Some((_, sjisBytes, utf8Bytes)) =>
      ToBytesFromBytes(sjisBytes);
      ToBytesFromBytes(utf8Bytes);
      Encodings(jisCode, FromBytesBE(sjisBytes), FromBytesBE(utf8Bytes))
  }

  /** A nonzero first component means the transcoding succeeded for that very code. */
  lemma NonzeroMeansSuccess(c: Codecs, jisCode: int)
    requires JisToEncodings(c, jisCode).jis != 0
    ensures Transcoded(c, jisCode).Some? && JisToEncodings(c, jisCode).jis == jisCode
    ensures JisRequest(jisCode).Some?
  {
  }
}
