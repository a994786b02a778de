/** The two packed BMP header structs of Convert00.cpp, the test that
    accepts a file, and the sizes written back before saving. The structs
    are read from and written to the file as their raw bytes, so each is
    modelled together with its little-endian byte image. */
module BmpHeader {
  import opened Raster

  type Uint16 = x: int | 0 <= x < 0x1_0000
  type Uint32 = x: int | 0 <= x < 0x1_0000_0000
  type Int32 = x: int | -0x8000_0000 <= x < 0x8000_0000

  /** BITMAPFILEHEADER (Convert00.cpp:11-17). */
  datatype FileHeader = FileHeader(
    bfType: Uint16, bfSize: Uint32, bfReserved1: Uint16, bfReserved2: Uint16, bfOffBits: Uint32)

  /** BITMAPINFOHEADER (Convert00.cpp:19-31). */
  datatype InfoHeader = InfoHeader(
    biSize: Uint32, biWidth: Int32, biHeight: Int32, biPlanes: Uint16, biBitCount: Uint16,
    biCompression: Uint32, biSizeImage: Uint32, biXPelsPerMeter: Int32, biYPelsPerMeter: Int32,
    biClrUsed: Uint32, biClrImportant: Uint32)

  /** sizeof of each struct under #pragma pack(1): the sum of its field
      widths, with no padding between them. */
  const FileHeaderSize: nat := 2 + 4 + 2 + 2 + 4
  const InfoHeaderSize: nat := 4 + 4 + 4 + 2 + 2 + 4 + 4 + 4 + 4 + 4 + 4

  /** The file signature "BM" as the uint16_t it reads as on a
      little-endian machine. */
  const Signature: Uint16 := 0x4D42

  // ---------------------------------------------------------------------
  // Little-endian fields

  function Le16(b: seq<Uint8>, at: nat): Uint16
    requires at + 2 <= |b|
  {
    b[at] as int + 0x100 * b[at + 1] as int
  }

  function Le32(b: seq<Uint8>, at: nat): Uint32
    requires at + 4 <= |b|
  {
    b[at] as int + 0x100 * b[at + 1] as int + 0x1_0000 * b[at + 2] as int + 0x100_0000 * b[at + 3] as int
  }

  /** The int32_t whose two's-complement bit pattern is u. */
  function ToInt32(u: Uint32): Int32 {
    if u < 0x8000_0000 then u else u - 0x1_0000_0000
  }

  /** The two's-complement bit pattern of i as an unsigned value. */
  function FromInt32(i: Int32): Uint32 {
    if i >= 0 then i else i + 0x1_0000_0000
  }

  function Bytes16(v: Uint16): (b: seq<Uint8>)
    ensures |b| == 2 && Le16(b, 0) == v
  {
    [v % 0x100, v / 0x100]
  }

  function Bytes32(v: Uint32): (b: seq<Uint8>)
    ensures |b| == 4 && Le32(b, 0) == v
  {
    Digits32(v);
    [v % 0x100, (v / 0x100) % 0x100, (v / 0x1_0000) % 0x100, v / 0x100_0000]
  }

  /** The four base-256 digits of v, lowest first, make up v. */
  lemma Digits32(v: Uint32)
    ensures v / 0x100_0000 < 0x100
    ensures v == v % 0x100 + 0x100 * ((v / 0x100) % 0x100) + 0x1_0000 * ((v / 0x1_0000) % 0x100)
      + 0x100_0000 * (v / 0x100_0000)
  {
    var a := v / 0x100;
    var c := a / 0x100;
    var d := c / 0x100;
    assert v == v % 0x100 + 0x100 * a;
    assert a == a % 0x100 + 0x100 * c;
    assert c == c % 0x100 + 0x100 * d;
    assert c == v / 0x1_0000 && d == v / 0x100_0000;
  }

  lemma Int32RoundTrip(i: Int32, u: Uint32)
    ensures ToInt32(FromInt32(i)) == i
    ensures FromInt32(ToInt32(u)) == u
  {
  }

  lemma Bytes16OfLe16(b: seq<Uint8>, at: nat)
    requires at + 2 <= |b|
    ensures Bytes16(Le16(b, at)) == b[at..at + 2]
  {
    var v := Le16(b, at);
    assert v % 0x100 == b[at] && v / 0x100 == b[at + 1];
  }

  lemma Bytes32OfLe32(b: seq<Uint8>, at: nat)
    requires at + 4 <= |b|
    ensures Bytes32(Le32(b, at)) == b[at..at + 4]
  {
    DigitsOf(b[at], b[at + 1], b[at + 2], b[at + 3]);
  }

  /** The base-256 digits of d0 + 256 d1 + 256^2 d2 + 256^3 d3 are d0 .. d3. */
  lemma DigitsOf(d0: Uint8, d1: Uint8, d2: Uint8, d3: Uint8)
    ensures var v := d0 + 0x100 * d1 + 0x1_0000 * d2 + 0x100_0000 * d3;
      v % 0x100 == d0 && (v / 0x100) % 0x100 == d1 && (v / 0x1_0000) % 0x100 == d2 && v / 0x100_0000 == d3
  {
    var v := d0 + 0x100 * d1 + 0x1_0000 * d2 + 0x100_0000 * d3;
    var hi := d1 + 0x100 * d2 + 0x1_0000 * d3;
    var hi2 := d2 + 0x100 * d3;
    assert v == d0 + 0x100 * hi;
    assert v % 0x100 == d0 && v / 0x100 == hi;
    assert hi % 0x100 == d1 && hi / 0x100 == hi2;
    assert hi2 % 0x100 == d2 && hi2 / 0x100 == d3;
    assert v / 0x1_0000 == hi2 by {
      assert v == d0 + 0x100 * d1 + 0x1_0000 * hi2;
    }
    assert v / 0x100_0000 == d3 by {
      assert v == d0 + 0x100 * d1 + 0x1_0000 * d2 + 0x100_0000 * d3;
    }
  }

  // ---------------------------------------------------------------------
  // The structs and their byte images

  /** The file header as read from its 14 bytes (Convert00.cpp:130). */
  function DecodeFileHeader(b: seq<Uint8>): FileHeader
    requires |b| == FileHeaderSize
  {
    FileHeader(Le16(b, 0), Le32(b, 2), Le16(b, 6), Le16(b, 8), Le32(b, 10))
  }

  /** The bytes of the file header as written out (Convert00.cpp:198). */
  function EncodeFileHeader(h: FileHeader): (b: seq<Uint8>)
    ensures |b| == FileHeaderSize
  {
    Bytes16(h.bfType) + Bytes32(h.bfSize) + Bytes16(h.bfReserved1) + Bytes16(h.bfReserved2) + Bytes32(h.bfOffBits)
  }

  /** The info header as read from its 40 bytes (Convert00.cpp:131). */
  function DecodeInfoHeader(b: seq<Uint8>): InfoHeader
    requires |b| == InfoHeaderSize
  {
    InfoHeader(Le32(b, 0), ToInt32(Le32(b, 4)), ToInt32(Le32(b, 8)), Le16(b, 12), Le16(b, 14),
               Le32(b, 16), Le32(b, 20), ToInt32(Le32(b, 24)), ToInt32(Le32(b, 28)),
               Le32(b, 32), Le32(b, 36))
  }

  /** The bytes of the info header as written out (Convert00.cpp:199):
      the 16 bytes up to the bit count, then the 24 bytes from the
      compression field on. */
  function EncodeInfoHeader(h: InfoHeader): (b: seq<Uint8>)
    ensures |b| == InfoHeaderSize
  {
    InfoFront(h) + InfoBack(h)
  }

  function InfoFront(h: InfoHeader): (b: seq<Uint8>)
    ensures |b| == 16
  {
    Bytes32(h.biSize) + Bytes32(FromInt32(h.biWidth)) + Bytes32(FromInt32(h.biHeight)) +
    Bytes16(h.biPlanes) + Bytes16(h.biBitCount)
  }

  function InfoBack(h: InfoHeader): (b: seq<Uint8>)
    ensures |b| == 24
  {
    Bytes32(h.biCompression) + Bytes32(h.biSizeImage) +
    Bytes32(FromInt32(h.biXPelsPerMeter)) + Bytes32(FromInt32(h.biYPelsPerMeter)) +
    Bytes32(h.biClrUsed) + Bytes32(h.biClrImportant)
  }

  /** Writing a header and reading it back gives the same header. */
  lemma FileHeaderRoundTrip(h: FileHeader)
    ensures DecodeFileHeader(EncodeFileHeader(h)) == h
  {
    var b := EncodeFileHeader(h);
    assert b[0..2] == Bytes16(h.bfType);
    assert b[2..6] == Bytes32(h.bfSize);
    assert b[6..8] == Bytes16(h.bfReserved1);
    assert b[8..10] == Bytes16(h.bfReserved2);
    assert b[10..14] == Bytes32(h.bfOffBits);
  }

  /** Reading 14 bytes as a header and writing it gives the same bytes. */
  lemma FileHeaderBytesRoundTrip(b: seq<Uint8>)
    requires |b| == FileHeaderSize
    ensures EncodeFileHeader(DecodeFileHeader(b)) == b
  {
    Bytes16OfLe16(b, 0);
    Bytes32OfLe32(b, 2);
    Bytes16OfLe16(b, 6);
    Bytes16OfLe16(b, 8);
    Bytes32OfLe32(b, 10);
    assert b == b[0..2] + b[2..6] + b[6..8] + b[8..10] + b[10..14];
  }

  lemma InfoHeaderRoundTrip(h: InfoHeader)
    ensures DecodeInfoHeader(EncodeInfoHeader(h)) == h
  {
    var f, k := InfoFront(h), InfoBack(h);
    ReadInfoFront(h);
    ReadInfoBack(h);
    Le32Prefix(f, k, 0);
    Le32Prefix(f, k, 4);
    Le32Prefix(f, k, 8);
    Le16Prefix(f, k, 12);
    Le16Prefix(f, k, 14);
    Le32Skip(f, k, 0);
    Le32Skip(f, k, 4);
    Le32Skip(f, k, 8);
    Le32Skip(f, k, 12);
    Le32Skip(f, k, 16);
    Le32Skip(f, k, 20);
    Int32RoundTrip(h.biWidth, 0);
    Int32RoundTrip(h.biHeight, 0);
    Int32RoundTrip(h.biXPelsPerMeter, 0);
    Int32RoundTrip(h.biYPelsPerMeter, 0);
  }

  lemma ReadInfoFront(h: InfoHeader)
    ensures var f := InfoFront(h);
      Le32(f, 0) == h.biSize && Le32(f, 4) == FromInt32(h.biWidth) && Le32(f, 8) == FromInt32(h.biHeight) &&
      Le16(f, 12) == h.biPlanes && Le16(f, 14) == h.biBitCount
  {
    var f := InfoFront(h);
    assert f[0..4] == Bytes32(h.biSize);
    assert f[4..8] == Bytes32(FromInt32(h.biWidth));
    assert f[8..12] == Bytes32(FromInt32(h.biHeight));
    assert f[12..14] == Bytes16(h.biPlanes);
    assert f[14..16] == Bytes16(h.biBitCount);
    Le32Slice(f, 0, h.biSize);
    Le32Slice(f, 4, FromInt32(h.biWidth));
    Le32Slice(f, 8, FromInt32(h.biHeight));
    Le16Slice(f, 12, h.biPlanes);
    Le16Slice(f, 14, h.biBitCount);
  }

  lemma ReadInfoBack(h: InfoHeader)
    ensures var k := InfoBack(h);
      Le32(k, 0) == h.biCompression && Le32(k, 4) == h.biSizeImage &&
      Le32(k, 8) == FromInt32(h.biXPelsPerMeter) && Le32(k, 12) == FromInt32(h.biYPelsPerMeter) &&
      Le32(k, 16) == h.biClrUsed && Le32(k, 20) == h.biClrImportant
  {
    var k := InfoBack(h);
    assert k[0..4] == Bytes32(h.biCompression);
    assert k[4..8] == Bytes32(h.biSizeImage);
    assert k[8..12] == Bytes32(FromInt32(h.biXPelsPerMeter));
    assert k[12..16] == Bytes32(FromInt32(h.biYPelsPerMeter));
    assert k[16..20] == Bytes32(h.biClrUsed);
    assert k[20..24] == Bytes32(h.biClrImportant);
    Le32Slice(k, 0, h.biCompression);
    Le32Slice(k, 4, h.biSizeImage);
    Le32Slice(k, 8, FromInt32(h.biXPelsPerMeter));
    Le32Slice(k, 12, FromInt32(h.biYPelsPerMeter));
    Le32Slice(k, 16, h.biClrUsed);
    Le32Slice(k, 20, h.biClrImportant);
  }

  /** A field whose bytes are those of v reads back as v. */
  lemma Le32Slice(b: seq<Uint8>, at: nat, v: Uint32)
    requires at + 4 <= |b| && b[at..at + 4] == Bytes32(v)
    ensures Le32(b, at) == v
  {
    var c := b[at..at + 4];
    assert b[at] == c[0] && b[at + 1] == c[1] && b[at + 2] == c[2] && b[at + 3] == c[3];
  }

  lemma Le16Slice(b: seq<Uint8>, at: nat, v: Uint16)
    requires at + 2 <= |b| && b[at..at + 2] == Bytes16(v)
    ensures Le16(b, at) == v
  {
    var c := b[at..at + 2];
    assert b[at] == c[0] && b[at + 1] == c[1];
  }

  /** A field inside q reads the same in q + r. */
  lemma Le32Prefix(q: seq<Uint8>, r: seq<Uint8>, at: nat)
    requires at + 4 <= |q|
    ensures Le32(q + r, at) == Le32(q, at)
  {
    var c := q + r;
    assert c[at] == q[at] && c[at + 1] == q[at + 1] && c[at + 2] == q[at + 2] && c[at + 3] == q[at + 3];
  }

  lemma Le16Prefix(q: seq<Uint8>, r: seq<Uint8>, at: nat)
    requires at + 2 <= |q|
    ensures Le16(q + r, at) == Le16(q, at)
  {
    var c := q + r;
    assert c[at] == q[at] && c[at + 1] == q[at + 1];
  }

  /** A field after q is read |q| bytes further on. */
  lemma Le32Skip(q: seq<Uint8>, r: seq<Uint8>, at: nat)
    requires at + 4 <= |r|
    ensures Le32(q + r, |q| + at) == Le32(r, at)
  {
    var c := q + r;
    assert c[|q| + at] == r[at] && c[|q| + at + 1] == r[at + 1];
    assert c[|q| + at + 2] == r[at + 2] && c[|q| + at + 3] == r[at + 3];
  }

  lemma InfoHeaderBytesRoundTrip(b: seq<Uint8>)
    requires |b| == InfoHeaderSize
    ensures EncodeInfoHeader(DecodeInfoHeader(b)) == b
  {
    var h := DecodeInfoHeader(b);
    Int32RoundTrip(0, Le32(b, 4));
    Int32RoundTrip(0, Le32(b, 8));
    Int32RoundTrip(0, Le32(b, 24));
    Int32RoundTrip(0, Le32(b, 28));
    var front := Bytes32(h.biSize) + Bytes32(FromInt32(h.biWidth)) + Bytes32(FromInt32(h.biHeight)) +
                 Bytes16(h.biPlanes) + Bytes16(h.biBitCount);
    var back := Bytes32(h.biCompression) + Bytes32(h.biSizeImage) +
                Bytes32(FromInt32(h.biXPelsPerMeter)) + Bytes32(FromInt32(h.biYPelsPerMeter)) +
                Bytes32(h.biClrUsed) + Bytes32(h.biClrImportant);
    assert EncodeInfoHeader(h) == front + back;
    InfoHeaderFront(b);
    InfoHeaderBack(b);
    assert b == b[..16] + b[16..];
  }

  lemma InfoHeaderFront(b: seq<Uint8>)
    requires |b| == InfoHeaderSize
    ensures Bytes32(Le32(b, 0)) + Bytes32(Le32(b, 4)) + Bytes32(Le32(b, 8)) +
            Bytes16(Le16(b, 12)) + Bytes16(Le16(b, 14)) == b[..16]
  {
    Bytes32OfLe32(b, 0);
    Bytes32OfLe32(b, 4);
    Bytes32OfLe32(b, 8);
    Bytes16OfLe16(b, 12);
    Bytes16OfLe16(b, 14);
    assert b[..16] == b[0..4] + b[4..8] + b[8..12] + b[12..14] + b[14..16];
  }

  lemma InfoHeaderBack(b: seq<Uint8>)
    requires |b| == InfoHeaderSize
    ensures Bytes32(Le32(b, 16)) + Bytes32(Le32(b, 20)) + Bytes32(Le32(b, 24)) +
            Bytes32(Le32(b, 28)) + Bytes32(Le32(b, 32)) + Bytes32(Le32(b, 36)) == b[16..]
  {
    Bytes32OfLe32(b, 16);
    Bytes32OfLe32(b, 20);
    Bytes32OfLe32(b, 24);
    Bytes32OfLe32(b, 28);
    Bytes32OfLe32(b, 32);
    Bytes32OfLe32(b, 36);
    assert b[16..] == b[16..20] + b[20..24] + b[24..28] + b[28..32] + b[32..36] + b[36..40];
  }

  // ---------------------------------------------------------------------
  // Acceptance (Convert00.cpp:134)

  /** Only uncompressed 24-bit bitmaps are processed. */
  predicate Supported(fh: FileHeader, ih: InfoHeader) {
    fh.bfType == Signature && ih.biBitCount == 24 && ih.biCompression == 0
  }

  /** The same test on the raw bytes of the two headers: the file starts
      with "BM", the bit count field holds 24 and the compression field is
      zero. */
  lemma SupportedBytes(fb: seq<Uint8>, ib: seq<Uint8>)
    requires |fb| == FileHeaderSize && |ib| == InfoHeaderSize
    ensures Supported(DecodeFileHeader(fb), DecodeInfoHeader(ib)) <==>
      fb[0] == 'B' as int && fb[1] == 'M' as int &&
      ib[14] == 24 && ib[15] == 0 && ib[16] == 0 && ib[17] == 0 && ib[18] == 0 && ib[19] == 0
  {
  }

  // ---------------------------------------------------------------------
  // Size update before writing (Convert00.cpp:187-189)

  predicate IsInt32(x: int) {
    -0x8000_0000 <= x < 0x8000_0000
  }

  function Abs(x: int): nat {
    if x < 0 then -x else x
  }

  /** The int arithmetic of the size computation stays defined: width * 3 + 3
      and the product do not overflow, and std::abs is not applied to
      INT_MIN. */
  predicate SizeDefined(ih: InfoHeader) {
    IsInt32(ih.biWidth * 3) && IsInt32(ih.biWidth * 3 + 3) &&
    ih.biHeight != -0x8000_0000 && IsInt32(RowSize(ih.biWidth) * Abs(ih.biHeight))
  }

  /** int newImageSize = rowSize * |biHeight|. */
  function ImageSize(ih: InfoHeader): int {
    RowSize(ih.biWidth) * Abs(ih.biHeight)
  }

  lemma ImageSizeNonNegative(ih: InfoHeader)
    ensures ih.biWidth >= 0 ==> ImageSize(ih) >= 0
    ensures ih.biWidth < 0 ==> ImageSize(ih) <= 0
    ensures ToUint32(ToUint32(ImageSize(ih)) + FileHeaderSize + InfoHeaderSize)
         == ToUint32(FileHeaderSize + InfoHeaderSize + ImageSize(ih))
  {
    var m, s := 0x1_0000_0000, ImageSize(ih);
    assert s == m * (s / m) + s % m;
    assert FileHeaderSize + InfoHeaderSize + s == m * (s / m) + (s % m + FileHeaderSize + InfoHeaderSize);
    ModShift(s % m + FileHeaderSize + InfoHeaderSize, s / m);
    if ih.biWidth >= 0 {
      RowSizePadding(ih.biWidth);
      if RowSize(ih.biWidth) > 0 {
        MulAtLeast(Abs(ih.biHeight), RowSize(ih.biWidth));
      }
    } else {
      RowSizeNegative(ih.biWidth);
      if Abs(ih.biHeight) > 0 {
        MulAtLeast(RowSize(ih.biWidth), Abs(ih.biHeight));
      }
    }
  }

  lemma ModShift(x: int, k: int)
    ensures (0x1_0000_0000 * k + x) % 0x1_0000_0000 == x % 0x1_0000_0000
  {
  }

  /** An integer converted to uint32_t: reduced modulo 2^32. */
  function ToUint32(x: int): Uint32 {
    x % 0x1_0000_0000
  }

  /** A negative int converted to uint32_t wraps around once. */
  lemma WrapNegative(x: int)
    ensures -0x1_0000_0000 < x < 0 ==> ToUint32(x) == x + 0x1_0000_0000
  {
  }

  /** The headers after the size fields are updated: biSizeImage becomes
      the image size and bfSize the two header sizes plus it, both
      converted to uint32_t; every other field is kept. */
  function UpdateSizes(fh: FileHeader, ih: InfoHeader): (r: (FileHeader, InfoHeader))
    requires SizeDefined(ih)
    ensures r.1 == ih.(biSizeImage := r.1.biSizeImage) && r.0 == fh.(bfSize := r.0.bfSize)
    ensures ih.biWidth >= 0 ==>
      r.1.biSizeImage == RowSize(ih.biWidth) * Abs(ih.biHeight) &&
      r.0.bfSize == FileHeaderSize + InfoHeaderSize + r.1.biSizeImage
    ensures ih.biWidth < 0 ==>
      RowSize(ih.biWidth) * Abs(ih.biHeight) <= 0 &&
      r.1.biSizeImage == if RowSize(ih.biWidth) * Abs(ih.biHeight) == 0 then 0
                         else 0x1_0000_0000 + RowSize(ih.biWidth) * Abs(ih.biHeight)
    ensures r.0.bfSize == (r.1.biSizeImage + FileHeaderSize + InfoHeaderSize) % 0x1_0000_0000
  {
    var size := ImageSize(ih);
    ImageSizeNonNegative(ih);
    WrapNegative(size);
    (fh.(bfSize := ToUint32(FileHeaderSize + InfoHeaderSize + size)), ih.(biSizeImage := ToUint32(size)))
  }

  /** For a non-negative width, the stored image size is exactly the bytes
      of |biHeight| rows, each the least multiple of four that holds the row's
      pixels, and it is these bytes that follow the headers in the file. */
  lemma UpdatedImageSize(fh: FileHeader, ih: InfoHeader)
    requires SizeDefined(ih) && ih.biWidth >= 0
    ensures var r := UpdateSizes(fh, ih);
      var rs := RowSize(ih.biWidth);
      rs % 4 == 0 && 3 * ih.biWidth <= rs < 3 * ih.biWidth + 4 &&
      r.1.biSizeImage == rs * Abs(ih.biHeight) &&
      r.0.bfSize == |EncodeFileHeader(r.0)| + |EncodeInfoHeader(r.1)| + r.1.biSizeImage
  {
    RowSizePadding(ih.biWidth);
  }
}
