/** The canonical 44-byte RIFF/WAVE header the converter writes: a `RIFF`
    chunk of form type `WAVE` holding a 16-byte `fmt ` chunk (PCM, 2
    channels, 44100 Hz, 16 bits) and the header of a `data` chunk, laid out
    as in the "WAVE Form Definition" of the Multimedia Programming Interface
    and Data Specifications 1.0. Only the two size fields vary. */
module WaveHeader {
  import opened Bytes

  const HEADER_SIZE: nat := 44
  /** Offset of the RIFF chunk size ("file size") field. */
  const FILE_SIZE_OFFSET: nat := 4
  /** Offset of the data chunk size field. */
  const DATA_SIZE_OFFSET: nat := 40

  /** The header with both size fields zero, byte for byte. */
  const Template: seq<byte> :=
    [0x52, 0x49, 0x46, 0x46,   // "RIFF"
     0x00, 0x00, 0x00, 0x00,   // file size
     0x57, 0x41, 0x56, 0x45,   // "WAVE"
     0x66, 0x6D, 0x74, 0x20,   // "fmt "
     0x10, 0x00, 0x00, 0x00,   // length of the format data (16)
     0x01, 0x00,               // format (PCM)
     0x02, 0x00,               // channels (2)
     0x44, 0xAC, 0x00, 0x00,   // sample rate (44100)
     0x10, 0xB1, 0x02, 0x00,   // average bytes per second (176400)
     0x04, 0x00,               // bytes per sample frame (4)
     0x10, 0x00,               // bits per sample (16)
     0x64, 0x61, 0x74, 0x61,   // "data"
     0x00, 0x00, 0x00, 0x00]   // data chunk size

  /** Whether byte `i` of the header belongs to one of the two size fields. */
  predicate InSizeField(i: int) {
    FILE_SIZE_OFFSET <= i < FILE_SIZE_OFFSET + 4 || DATA_SIZE_OFFSET <= i < DATA_SIZE_OFFSET + 4
  }

  /** `memcpy(b + offset, v, |v|)`: overwrites `|v|` bytes of `b` from `offset` on. */
  function Patch(b: seq<byte>, offset: nat, v: seq<byte>): (r: seq<byte>)
    requires offset + |v| <= |b|
    ensures |r| == |b|
    ensures forall i | offset <= i < offset + |v| :: r[i] == v[i - offset]
    ensures forall i | 0 <= i < |b| && !(offset <= i < offset + |v|) :: r[i] == b[i]
  {
    b[..offset] + v + b[offset + |v|..]
  }

  /** `file_size_in_header`: `filesize + sizeof(wave_header) - 8`, computed
      in `size_t` and stored back into an `int`. Its low 32 bits are
      `filesize + 36`, whatever the sign of `filesize`. */
  function FileSizeInHeader(filesize: int32): (r: int32)
    ensures (r - (filesize + HEADER_SIZE - 8)) % TWO_32 == 0
    ensures 0 <= filesize <= INT_MAX - 36 ==> r == filesize + 36
    ensures 0 <= filesize ==> Bits(r) == filesize + 36
  {
    var diff := SizeT(SizeT(SizeT(filesize) + HEADER_SIZE) - 8);
    SizeTOfHeaderArithmetic(filesize);
    IntOfSizeT(diff)
  }

  /** The `size_t` value of `filesize + 44 - 8`: `filesize + 36`, or that plus
      2^64 when it is negative. */
  lemma SizeTOfHeaderArithmetic(filesize: int32)
    ensures SizeT(SizeT(SizeT(filesize) + HEADER_SIZE) - 8)
         == if filesize + 36 < 0 then filesize + 36 + TWO_64 else filesize + 36
  {
    var a := if filesize < 0 then filesize + TWO_64 else filesize;
    assert SizeT(filesize) == a;
    var b := if filesize < -44 then filesize + 44 + TWO_64 else filesize + 44;
    assert SizeT(a + HEADER_SIZE) == b;
    var c := if filesize < -36 then filesize + 36 + TWO_64 else filesize + 36;
    assert SizeT(b - 8) == c;
  }

  /** The header `raw2wav` writes for a declared body length of `filesize`
      bytes: the template with the two `int`s memcpy'd in on a
      little-endian host. */
  function Header(filesize: int32): (h: seq<byte>)
    ensures |h| == HEADER_SIZE
    ensures forall i | 0 <= i < HEADER_SIZE && !InSizeField(i) :: h[i] == Template[i]
    ensures LE32At(h, FILE_SIZE_OFFSET) == Bits(FileSizeInHeader(filesize))
    ensures LE32At(h, DATA_SIZE_OFFSET) == Bits(filesize)
    ensures 0 <= filesize ==>
              LE32At(h, FILE_SIZE_OFFSET) == filesize + 36 && LE32At(h, DATA_SIZE_OFFSET) == filesize
  {
    var fileSizeBytes, dataSizeBytes := StoreInt(FileSizeInHeader(filesize)), StoreInt(filesize);
    var withFileSize := Patch(Template, FILE_SIZE_OFFSET, fileSizeBytes);
    var h := Patch(withFileSize, DATA_SIZE_OFFSET, dataSizeBytes);
    assert LE32At(h, FILE_SIZE_OFFSET) == LE32At(fileSizeBytes, 0);
    assert LE32At(h, DATA_SIZE_OFFSET) == LE32At(dataSizeBytes, 0);
    h
  }

  /** For every `int` argument, negative ones included, the two size fields
      hold `filesize + 36` and `filesize` reduced modulo 2^32. */
  lemma HeaderSizeFieldsWrap(filesize: int32)
    ensures LE32At(Header(filesize), FILE_SIZE_OFFSET) == (filesize + 36) % TWO_32
    ensures LE32At(Header(filesize), DATA_SIZE_OFFSET) == filesize % TWO_32
  {
    var r := FileSizeInHeader(filesize);
    assert (Bits(r) - (filesize + 36)) % TWO_32 == 0;
    CongruentResidue(Bits(r), filesize + 36);
    CongruentResidue(Bits(filesize), filesize);
  }

  /** A four-character chunk identifier, one byte per character. */
  function FourCC(c0: char, c1: char, c2: char, c3: char): (b: seq<byte>)
    requires c0 as int < 0x100 && c1 as int < 0x100 && c2 as int < 0x100 && c3 as int < 0x100
    ensures |b| == 4
  {
    [c0 as int as byte, c1 as int as byte, c2 as int as byte, c3 as int as byte]
  }

  /** The chunk identifier at `h[off..off + 4]`. */
  function FourCCAt(h: seq<byte>, off: nat): seq<byte>
    requires off + 4 <= |h|
  {
    [h[off], h[off + 1], h[off + 2], h[off + 3]]
  }

  /** The fields of a 44-byte canonical header, as the WAVE Form Definition names them. */
  datatype WaveFields = WaveFields(
    riffId: seq<byte>, riffSize: u32, formType: seq<byte>,
    fmtId: seq<byte>, fmtSize: u32, formatTag: u16, channels: u16,
    samplesPerSec: u32, avgBytesPerSec: u32, blockAlign: u16, bitsPerSample: u16,
    dataId: seq<byte>, dataSize: u32)

  /** Reads a 44-byte header field by field. */
  function Layout(h: seq<byte>): WaveFields
    requires |h| == HEADER_SIZE
  {
    WaveFields(
      FourCCAt(h, 0), LE32At(h, 4), FourCCAt(h, 8),
      FourCCAt(h, 12), LE32At(h, 16), LE16At(h, 20), LE16At(h, 22),
      LE32At(h, 24), LE32At(h, 28), LE16At(h, 32), LE16At(h, 34),
      FourCCAt(h, 36), LE32At(h, 40))
  }

  const WAVE_FORMAT_PCM: u16 := 1

  /** The fields of the canonical header for a body of `dataLength` bytes:
      16-bit stereo PCM at 44100 Hz. */
  function Canonical(dataLength: nat): (f: WaveFields)
    requires dataLength <= INT_MAX
    ensures f.riffSize == dataLength + HEADER_SIZE - 8 && f.dataSize == dataLength
    ensures f.blockAlign * 8 == f.channels * f.bitsPerSample
    ensures f.avgBytesPerSec == f.samplesPerSec * f.blockAlign
    ensures f.fmtSize == 16 && f.formatTag == WAVE_FORMAT_PCM
  {
    WaveFields(
      FourCC('R', 'I', 'F', 'F'), dataLength + 36, FourCC('W', 'A', 'V', 'E'),
      FourCC('f', 'm', 't', ' '), 16, WAVE_FORMAT_PCM, 2,
      44100, 176400, 4, 16,
      FourCC('d', 'a', 't', 'a'), dataLength)
  }

  /** Whether `h` agrees with the template outside the two size fields. */
  predicate MatchesTemplate(h: seq<byte>) {
    |h| == HEADER_SIZE && forall i | 0 <= i < HEADER_SIZE && !InSizeField(i) :: h[i] == Template[i]
  }

  /** Any 44 bytes that agree with the template outside the size fields
      carry its chunk identifiers and its format description. */
  lemma FixedFieldsOf(h: seq<byte>)
    requires MatchesTemplate(h)
    ensures var f := Layout(h);
      && f.riffId == FourCC('R', 'I', 'F', 'F') && f.formType == FourCC('W', 'A', 'V', 'E')
      && f.fmtId == FourCC('f', 'm', 't', ' ') && f.dataId == FourCC('d', 'a', 't', 'a')
      && f.fmtSize == 16 && f.formatTag == WAVE_FORMAT_PCM && f.channels == 2
      && f.samplesPerSec == 44100 && f.avgBytesPerSec == 176400
      && f.blockAlign == 4 && f.bitsPerSample == 16
  {
    var f := Layout(h);
    assert f.riffId == FourCC('R', 'I', 'F', 'F') by { assert !InSizeField(0) && !InSizeField(1) && !InSizeField(2) && !InSizeField(3); }
    assert f.formType == FourCC('W', 'A', 'V', 'E') by { assert !InSizeField(8) && !InSizeField(9) && !InSizeField(10) && !InSizeField(11); }
    assert f.fmtId == FourCC('f', 'm', 't', ' ') by { assert !InSizeField(12) && !InSizeField(13) && !InSizeField(14) && !InSizeField(15); }
    assert f.dataId == FourCC('d', 'a', 't', 'a') by { assert !InSizeField(36) && !InSizeField(37) && !InSizeField(38) && !InSizeField(39); }
    assert f.fmtSize == 16 by { assert !InSizeField(16) && !InSizeField(17) && !InSizeField(18) && !InSizeField(19); }
    assert f.formatTag == WAVE_FORMAT_PCM by { assert !InSizeField(20) && !InSizeField(21); }
    assert f.channels == 2 by { assert !InSizeField(22) && !InSizeField(23); }
    assert f.samplesPerSec == 44100 by { assert !InSizeField(24) && !InSizeField(25) && !InSizeField(26) && !InSizeField(27); }
    assert f.avgBytesPerSec == 176400 by { assert !InSizeField(28) && !InSizeField(29) && !InSizeField(30) && !InSizeField(31); }
    assert f.blockAlign == 4 by { assert !InSizeField(32) && !InSizeField(33); }
    assert f.bitsPerSample == 16 by { assert !InSizeField(34) && !InSizeField(35); }
  }

  /** Every header `raw2wav` can emit (its `filesize` is never negative)
      carries exactly the canonical fields for its declared length. */
  lemma HeaderLayout(filesize: int32)
    requires 0 <= filesize
    ensures Layout(Header(filesize)) == Canonical(filesize)
  {
    var h := Header(filesize);
    FixedFieldsOf(h);
  }

  /** A header is determined by its fields: `Layout` is injective. */
  lemma LayoutInjective(h: seq<byte>, g: seq<byte>)
    requires |h| == HEADER_SIZE && |g| == HEADER_SIZE && Layout(h) == Layout(g)
    ensures h == g
  {
    var fh, fg := Layout(h), Layout(g);
    assert fh.riffId == fg.riffId && fh.formType == fg.formType;
    assert fh.fmtId == fg.fmtId && fh.dataId == fg.dataId;
    assert h[0] == g[0] && h[1] == g[1] && h[2] == g[2] && h[3] == g[3];
    assert h[8] == g[8] && h[9] == g[9] && h[10] == g[10] && h[11] == g[11];
    assert h[12] == g[12] && h[13] == g[13] && h[14] == g[14] && h[15] == g[15];
    assert h[36] == g[36] && h[37] == g[37] && h[38] == g[38] && h[39] == g[39];
    LE32Injective(h, 4, g, 4);
    LE32Injective(h, 16, g, 16);
    LE16Injective(h, 20, g, 20);
    LE16Injective(h, 22, g, 22);
    LE32Injective(h, 24, g, 24);
    LE32Injective(h, 28, g, 28);
    LE16Injective(h, 32, g, 32);
    LE16Injective(h, 34, g, 34);
    LE32Injective(h, 40, g, 40);
  }

  /** Conversely, a 44-byte sequence with the canonical fields for a length
      is the header `raw2wav` emits for that length. */
  lemma LayoutDeterminesHeader(h: seq<byte>, filesize: int32)
    requires 0 <= filesize
    requires |h| == HEADER_SIZE && Layout(h) == Canonical(filesize)
    ensures h == Header(filesize)
  {
    HeaderLayout(filesize);
    LayoutInjective(h, Header(filesize));
  }
}
