/** The DIB geometry layer: what a packed DIB's header says about the size and
    position of its colour masks, colour table, optional ICC profile and pixel
    bits, together with the header-variant tests and the small arithmetic
    helpers of the DIB API (WIDTHBYTES, Mul8Bit, GetColorValue).

    A packed DIB is a byte sequence starting with a little-endian DWORD that
    holds the header size: 12 for an OS/2 1.x BITMAPCOREHEADER, 40 for a
    BITMAPINFOHEADER, 52/56 for the V2/V3 info headers, 64 for an OS/2 2.x
    header, 108 for BITMAPV4HEADER and 124 for BITMAPV5HEADER. */
module DibGeometry {
  import opened Bytes

  // Header sizes
  const CORE_HEADER: int := 12
  const INFO_HEADER: int := 40
  const V2_HEADER: int := 52
  const V3_HEADER: int := 56
  const OS2_V2_HEADER: int := 64
  const V4_HEADER: int := 108
  const V5_HEADER: int := 124

  // Compression values
  const BI_RGB: int := 0
  const BI_RLE8: int := 1
  const BI_RLE4: int := 2
  const BI_BITFIELDS: int := 3
  const BI_JPEG: int := 4
  const BI_PNG: int := 5
  const BI_ALPHABITFIELDS: int := 6

  // Colour space types and intents
  const LCS_CALIBRATED_RGB: int := 0
  const LCS_DEVICE_CMYK: int := 2
  const LCS_sRGB: int := 0x7352_4742       // 'sRGB'
  const PROFILE_LINKED: int := 0x4C49_4E4B   // 'LINK'
  const PROFILE_EMBEDDED: int := 0x4D42_4544 // 'MBED'
  const LCS_GM_IMAGES: int := 4

  /** File type of a Windows bitmap file: the bytes 'B','M' read as a little-endian WORD. */
  const BFT_BITMAP: int := 0x4d42

  // Field offsets of BITMAPINFOHEADER and its V4/V5 extensions
  const OFF_WIDTH: nat := 4
  const OFF_HEIGHT: nat := 8
  const OFF_PLANES: nat := 12
  const OFF_BITCOUNT: nat := 14
  const OFF_COMPRESSION: nat := 16
  const OFF_SIZEIMAGE: nat := 20
  const OFF_CLRUSED: nat := 32
  const OFF_CLRIMPORTANT: nat := 36
  const OFF_CSTYPE: nat := 56
  const OFF_INTENT: nat := 108
  const OFF_PROFILEDATA: nat := 112
  const OFF_PROFILESIZE: nat := 116

  // Field offsets of BITMAPCOREHEADER (all WORDs)
  const OFF_CORE_WIDTH: nat := 4
  const OFF_CORE_HEIGHT: nat := 6
  const OFF_CORE_PLANES: nat := 8
  const OFF_CORE_BITCOUNT: nat := 10

  function HeaderSize(b: seq<byte>): u32
    requires |b| >= 4
  {
    LE32(b, 0)
  }

  /** The header-size tests of the DIB API: the first DWORD is 12, 40, 108 or 124. */
  predicate IsOs2PmDib(b: seq<byte>) requires |b| >= 4 { HeaderSize(b) == CORE_HEADER }
  predicate IsWin30Dib(b: seq<byte>) requires |b| >= 4 { HeaderSize(b) == INFO_HEADER }
  predicate IsWin40Dib(b: seq<byte>) requires |b| >= 4 { HeaderSize(b) == V4_HEADER }
  predicate IsWin50Dib(b: seq<byte>) requires |b| >= 4 { HeaderSize(b) == V5_HEADER }

  /** The header tests depend on the first four bytes only, and exactly. */
  lemma HeaderTestsAreByteTests(b: seq<byte>)
    requires |b| >= 4
    ensures IsOs2PmDib(b) <==> b[..4] == [12, 0, 0, 0]
    ensures IsWin30Dib(b) <==> b[..4] == [40, 0, 0, 0]
    ensures IsWin40Dib(b) <==> b[..4] == [108, 0, 0, 0]
    ensures IsWin50Dib(b) <==> b[..4] == [124, 0, 0, 0]
  {
    LE32Injective(b[..4], [12, 0, 0, 0]);
    LE32Injective(b[..4], [40, 0, 0, 0]);
    LE32Injective(b[..4], [108, 0, 0, 0]);
    LE32Injective(b[..4], [124, 0, 0, 0]);
  }

  /** BFT_BITMAP is what the two bytes "BM" at the start of a file read as. */
  lemma BftBitmapIsBM(b: seq<byte>)
    requires |b| >= 2
    ensures LE16(b, 0) == BFT_BITMAP <==> b[0] == 'B' as int && b[1] == 'M' as int
  {
  }

  /** A header the geometry functions can read: its size is within the
      buffer and it is either the core header or at least an info header. */
  predicate Headed(b: seq<byte>)
  {
    |b| >= 4 && HeaderSize(b) <= |b| && (HeaderSize(b) == CORE_HEADER || HeaderSize(b) >= INFO_HEADER)
  }

  // Header fields of the info family (BITMAPINFOHEADER and larger)
  function Width(b: seq<byte>): int requires |b| >= 8 { AsInt32(LE32(b, OFF_WIDTH)) }
  function Height(b: seq<byte>): int requires |b| >= 12 { AsInt32(LE32(b, OFF_HEIGHT)) }
  function Planes(b: seq<byte>): u16 requires |b| >= 14 { LE16(b, OFF_PLANES) }
  function BitCount(b: seq<byte>): u16 requires |b| >= 16 { LE16(b, OFF_BITCOUNT) }
  function Compression(b: seq<byte>): u32 requires |b| >= 20 { LE32(b, OFF_COMPRESSION) }
  function SizeImage(b: seq<byte>): u32 requires |b| >= 24 { LE32(b, OFF_SIZEIMAGE) }
  function ClrUsed(b: seq<byte>): u32 requires |b| >= 36 { LE32(b, OFF_CLRUSED) }
  function ClrImportant(b: seq<byte>): u32 requires |b| >= 40 { LE32(b, OFF_CLRIMPORTANT) }
  function CSType(b: seq<byte>): u32 requires |b| >= 60 { LE32(b, OFF_CSTYPE) }
  function Intent(b: seq<byte>): u32 requires |b| >= 112 { LE32(b, OFF_INTENT) }
  function ProfileData(b: seq<byte>): u32 requires |b| >= 116 { LE32(b, OFF_PROFILEDATA) }
  function ProfileSize(b: seq<byte>): u32 requires |b| >= 120 { LE32(b, OFF_PROFILESIZE) }

  // Header fields of BITMAPCOREHEADER
  function CoreWidth(b: seq<byte>): u16 requires |b| >= 6 { LE16(b, OFF_CORE_WIDTH) }
  function CoreHeight(b: seq<byte>): u16 requires |b| >= 8 { LE16(b, OFF_CORE_HEIGHT) }
  function CorePlanes(b: seq<byte>): u16 requires |b| >= 10 { LE16(b, OFF_CORE_PLANES) }
  function CoreBitCount(b: seq<byte>): u16 requires |b| >= 12 { LE16(b, OFF_CORE_BITCOUNT) }

  function Pow2(n: nat): (r: nat)
    ensures r >= 1
  {
    if n == 0 then 1 else 2 * Pow2(n - 1)
  }

  lemma {:induction false} Pow2Monotonic(m: nat, n: nat)
    requires m <= n
    ensures Pow2(m) <= Pow2(n)
  {
    if m < n {
      Pow2Monotonic(m, n - 1);
    }
  }

  /** Colour-table entries implied by a bit count alone: 2^bits for 1..12 bits. */
  function EntriesForBitCount(bits: int): (r: nat)
    ensures r <= 4096
    ensures r > 0 <==> 1 <= bits <= 12
  {
    if 0 < bits <= 12 then
      Pow2Monotonic(bits, 12);
      Pow2(bits)
    else 0
  }

  /** DibNumColors: number of colour-table entries. */
  function DibNumColors(b: seq<byte>): (r: nat)
    requires Headed(b)
    ensures r <= 4096
    ensures r == 0 <==> (if IsOs2PmDib(b) then !(1 <= CoreBitCount(b) <= 12)
                          else !(0 < ClrUsed(b) <= 4096) && !(1 <= BitCount(b) <= 12))
  {
    if IsOs2PmDib(b) then EntriesForBitCount(CoreBitCount(b))
    else if 0 < ClrUsed(b) <= 4096 then ClrUsed(b)
    else EntriesForBitCount(BitCount(b))
  }

  /** The colour table never has more than 4096 entries; a core header takes
      its count from the bit count alone, and any other header takes ClrUsed
      whenever it is a plausible count. */
  lemma DibNumColorsBounds(b: seq<byte>)
    requires Headed(b)
    ensures DibNumColors(b) <= 4096
    ensures IsOs2PmDib(b) ==> DibNumColors(b) == EntriesForBitCount(CoreBitCount(b))
    ensures !IsOs2PmDib(b) && 0 < ClrUsed(b) <= 4096 ==> DibNumColors(b) == ClrUsed(b)
    ensures DibNumColors(b) == 0 <==>
              (if IsOs2PmDib(b) then !(1 <= CoreBitCount(b) <= 12)
               else !(0 < ClrUsed(b) <= 4096) && !(1 <= BitCount(b) <= 12))
  {
  }

  /** ColorMasksSize: bytes of colour masks stored between a 40-byte header and the colour table. */
  function ColorMasksSize(b: seq<byte>): (r: nat)
    requires Headed(b)
    ensures r == 0 || r == 12 || r == 16
    ensures r != 0 ==> IsWin30Dib(b)
  {
    if !IsWin30Dib(b) then 0
    else if Compression(b) == BI_BITFIELDS then 12
    else if Compression(b) == BI_ALPHABITFIELDS then 16
    else 0
  }

  /** Bytes per colour-table entry: RGBTRIPLE for core DIBs, RGBQUAD otherwise. */
  function EntrySize(b: seq<byte>): (r: nat)
    requires |b| >= 4
  {
    if IsOs2PmDib(b) then 3 else 4
  }

  /** PaletteSize: bytes of the colour table. */
  function PaletteSize(b: seq<byte>): (r: nat)
    requires Headed(b)
    ensures r % EntrySize(b) == 0 && r / EntrySize(b) == DibNumColors(b)
    ensures r <= 4096 * 4
  {
    DibNumColorsBounds(b);
    DibNumColors(b) * EntrySize(b)
  }

  /** WIDTHBYTES in exact arithmetic: the bytes of one DWORD-aligned scan line. */
  function WidthBytes(bits: nat): nat
  {
    (bits + 31) / 32 * 4
  }

  /** A scan line is the smallest multiple of four bytes that holds `bits` bits. */
  lemma WidthBytesIsAlignedCeiling(bits: nat)
    ensures WidthBytes(bits) % 4 == 0
    ensures 8 * WidthBytes(bits) >= bits
    ensures WidthBytes(bits) == 0 || 8 * (WidthBytes(bits) - 4) < bits
  {
  }

  /** WIDTHBYTES evaluated in C int arithmetic (wrapping, truncating division). */
  function WidthBytesC(bits: int): int
  {
    I32(CDiv(I32(bits + 31), 32) * 4)
  }

  lemma WidthBytesCAgrees(bits: int)
    requires 0 <= bits < TWO31 - 31
    ensures WidthBytesC(bits) == WidthBytes(bits)
  {
  }

  function Abs(x: int): nat
  {
    if x < 0 then -x else x
  }

  /** abs() of a LONG in C: abs(INT_MIN) stays INT_MIN. */
  function AbsI32(x: int): int
  {
    I32(if x < 0 then -x else x)
  }

  /** DibIsCompressed: any compression other than none or bit fields; never for core DIBs. */
  predicate DibIsCompressed(b: seq<byte>)
    requires Headed(b)
    ensures DibIsCompressed(b) ==> !IsOs2PmDib(b) && ColorMasksSize(b) == 0
  {
    !IsOs2PmDib(b) && Compression(b) != BI_RGB && Compression(b) != BI_BITFIELDS
    && Compression(b) != BI_ALPHABITFIELDS
  }

  /** Bits of one scan line of a core DIB, as the C int product of WORD fields. */
  function CoreLineBits(b: seq<byte>): int
    requires |b| >= 12
  {
    I32(CoreWidth(b) * CorePlanes(b) * CoreBitCount(b))
  }

  /** Bits of one scan line of an info-family DIB: abs(width) times planes times bit count, in C int. */
  function InfoLineBits(b: seq<byte>): int
    requires |b| >= 16
  {
    I32(AbsI32(Width(b)) * Planes(b) * BitCount(b))
  }

  /** DibImageSize: bytes of pixel data. The core formula and the computed
      formula are evaluated in C int arithmetic and returned as UINT. */
  function DibImageSize(b: seq<byte>, calculate: bool): (r: u32)
    requires Headed(b)
    ensures !IsOs2PmDib(b) && SizeImage(b) != 0 && DibIsCompressed(b) ==> r == SizeImage(b)
    ensures !IsOs2PmDib(b) && SizeImage(b) != 0 && !calculate ==> r == SizeImage(b)
  {
    if IsOs2PmDib(b) then
      U32(WidthBytesC(CoreLineBits(b)) * CoreHeight(b))
    else if SizeImage(b) != 0 && (!calculate || DibIsCompressed(b)) then
      SizeImage(b)
    else
      U32(WidthBytesC(InfoLineBits(b)) * AbsI32(Height(b)))
  }

  /** A core DIB's image size is its height times the aligned scan line, when nothing overflows. */
  lemma CoreImageSizeExact(b: seq<byte>, calculate: bool)
    requires Headed(b) && IsOs2PmDib(b)
    requires 0 <= CoreLineBits(b) < TWO31 - 31
    requires WidthBytes(CoreLineBits(b)) * CoreHeight(b) < TWO31
    ensures DibImageSize(b, calculate) == WidthBytes(CoreLineBits(b)) * CoreHeight(b)
  {
    WidthBytesCAgrees(CoreLineBits(b));
    var x := WidthBytes(CoreLineBits(b)) * CoreHeight(b);
    assert 0 <= x by { NonNegativeProduct(WidthBytes(CoreLineBits(b)), CoreHeight(b)); }
  }

  /** Any other DIB reports its stored SizeImage unless it is zero or
      recalculation is asked for on an uncompressed DIB; in that case the size
      is |height| times the aligned scan line, when nothing overflows. */
  lemma InfoImageSizeExact(b: seq<byte>, calculate: bool)
    requires Headed(b) && !IsOs2PmDib(b)
    ensures SizeImage(b) != 0 && (!calculate || DibIsCompressed(b)) ==>
              DibImageSize(b, calculate) == SizeImage(b)
    ensures (SizeImage(b) == 0 || (calculate && !DibIsCompressed(b)))
            && -TWO31 < Height(b) && 0 <= InfoLineBits(b) < TWO31 - 31
            && WidthBytes(InfoLineBits(b)) * Abs(Height(b)) < TWO31
            ==> DibImageSize(b, calculate) == WidthBytes(InfoLineBits(b)) * Abs(Height(b))
  {
    if (SizeImage(b) == 0 || (calculate && !DibIsCompressed(b)))
       && -TWO31 < Height(b) && 0 <= InfoLineBits(b) < TWO31 - 31 {
      WidthBytesCAgrees(InfoLineBits(b));
      assert AbsI32(Height(b)) == Abs(Height(b));
      NonNegativeProduct(WidthBytes(InfoLineBits(b)), Abs(Height(b)));
    }
  }

  lemma NonNegativeProduct(x: nat, y: nat)
    ensures x * y >= 0
  {
  }

  /** The scan-line width used for info-family DIBs is abs(width): with no
      overflow, it is the exact product. */
  lemma InfoLineBitsExact(b: seq<byte>)
    requires |b| >= 16 && -TWO31 < Width(b)
    requires Abs(Width(b)) * Planes(b) * BitCount(b) < TWO31
    ensures InfoLineBits(b) == Abs(Width(b)) * Planes(b) * BitCount(b)
  {
    assert AbsI32(Width(b)) == Abs(Width(b));
    var p := Abs(Width(b)) * Planes(b);
    NonNegativeProduct(Abs(Width(b)), Planes(b));
    NonNegativeProduct(p, BitCount(b));
  }

  /** FindDibPalette: offset of the colour table, after the header and any masks. */
  function PaletteOffset(b: seq<byte>): (r: u32)
    requires Headed(b)
  {
    U32(HeaderSize(b) + ColorMasksSize(b))
  }

  /** Offset the pixel bits would have if header, masks and palette were packed. */
  function PackedBitsOffset(b: seq<byte>): u32
    requires Headed(b)
  {
    U32(HeaderSize(b) + ColorMasksSize(b) + PaletteSize(b))
  }

  /** A V5 DIB whose embedded or linked profile data sits directly after the colour table. */
  predicate ProfileBeforeBits(b: seq<byte>)
    requires Headed(b)
  {
    IsWin50Dib(b) && ProfileData(b) == PackedBitsOffset(b)
  }

  /** DibBitsOffset / FindDibBits: offset of the pixel bits. */
  function DibBitsOffset(b: seq<byte>): (r: u32)
    requires Headed(b)
    ensures !IsWin50Dib(b) ==> r == PackedBitsOffset(b)
    ensures ProfileBeforeBits(b) && PackedBitsOffset(b) + ProfileSize(b) < TWO32 ==>
              r == PackedBitsOffset(b) + ProfileSize(b)
  {
    if !ProfileBeforeBits(b) then PackedBitsOffset(b)
    else U32(PackedBitsOffset(b) + ProfileSize(b))
  }

  /** The offset equations: the palette follows the header and masks, the bits
      follow the palette, and the bits lie further only when a V5 profile
      sits between palette and bits, by exactly the profile size. */
  lemma OffsetEquations(b: seq<byte>)
    requires Headed(b) && |b| + 16 + 4 * 4096 < TWO32
    ensures PaletteOffset(b) == HeaderSize(b) + ColorMasksSize(b)
    ensures PackedBitsOffset(b) == PaletteOffset(b) + PaletteSize(b)
    ensures !IsWin50Dib(b) ==> DibBitsOffset(b) == PackedBitsOffset(b)
    ensures IsWin50Dib(b) && PackedBitsOffset(b) + ProfileSize(b) < TWO32 ==>
              (DibBitsOffset(b) > PackedBitsOffset(b) <==> ProfileBeforeBits(b) && ProfileSize(b) > 0)
    ensures ProfileBeforeBits(b) && PackedBitsOffset(b) + ProfileSize(b) < TWO32 ==>
              DibBitsOffset(b) == PackedBitsOffset(b) + ProfileSize(b)
  {
    assert PaletteSize(b) <= 4 * 4096;
  }

  /** Bytes of header a DIB's geometry is read from: the core header, or the
      BITMAPINFOHEADER part of any larger header. */
  function GeometryBytes(b: seq<byte>): nat
    requires |b| >= 4
  {
    if IsOs2PmDib(b) then CORE_HEADER else INFO_HEADER
  }

  /** The header fields a DIB's geometry is read from agree between two
      blocks that share its GeometryBytes leading bytes. */
  lemma GeometryFieldsFrame(a: seq<byte>, b: seq<byte>)
    requires Headed(a) && |b| >= HeaderSize(a)
    requires a[..GeometryBytes(a)] == b[..GeometryBytes(a)]
    ensures Headed(b) && HeaderSize(b) == HeaderSize(a)
    ensures IsOs2PmDib(a) ==> CoreWidth(b) == CoreWidth(a) && CoreHeight(b) == CoreHeight(a)
                              && CorePlanes(b) == CorePlanes(a) && CoreBitCount(b) == CoreBitCount(a)
    ensures !IsOs2PmDib(a) ==> Width(b) == Width(a) && Height(b) == Height(a)
                               && Planes(b) == Planes(a) && BitCount(b) == BitCount(a)
                               && Compression(b) == Compression(a) && SizeImage(b) == SizeImage(a)
                               && ClrUsed(b) == ClrUsed(a)
  {
    var n := GeometryBytes(a);
    assert forall k | 0 <= k < n :: a[k] == b[k] by {
      forall k | 0 <= k < n ensures a[k] == b[k] {
        assert a[k] == a[..n][k];
      }
    }
    LE32Local(a, b, 0);
    if IsOs2PmDib(a) {
      LE16Local(a, b, OFF_CORE_WIDTH);
      LE16Local(a, b, OFF_CORE_HEIGHT);
      LE16Local(a, b, OFF_CORE_PLANES);
      LE16Local(a, b, OFF_CORE_BITCOUNT);
    } else {
      LE32Local(a, b, OFF_WIDTH);
      LE32Local(a, b, OFF_HEIGHT);
      LE16Local(a, b, OFF_PLANES);
      LE16Local(a, b, OFF_BITCOUNT);
      LE32Local(a, b, OFF_COMPRESSION);
      LE32Local(a, b, OFF_SIZEIMAGE);
      LE32Local(a, b, OFF_CLRUSED);
    }
  }

  /** The colour count, masks, palette, packed offset, compression and image
      size of a DIB are functions of its GeometryBytes leading bytes. */
  lemma GeometryFrame(a: seq<byte>, b: seq<byte>)
    requires Headed(a) && |b| >= HeaderSize(a)
    requires a[..GeometryBytes(a)] == b[..GeometryBytes(a)]
    ensures Headed(b) && HeaderSize(b) == HeaderSize(a)
    ensures DibNumColors(b) == DibNumColors(a) && ColorMasksSize(b) == ColorMasksSize(a)
    ensures PaletteSize(b) == PaletteSize(a) && PackedBitsOffset(b) == PackedBitsOffset(a)
    ensures DibIsCompressed(b) == DibIsCompressed(a)
    ensures DibImageSize(b, false) == DibImageSize(a, false)
    ensures DibImageSize(b, true) == DibImageSize(a, true)
  {
    GeometryFieldsFrame(a, b);
  }

  /** Two headers of the info family that agree on bytes 4..40 have the same
      colour count, image size and compression; headers larger than 40 bytes
      carry no separate colour masks. */
  lemma InfoFieldsFrame(a: seq<byte>, b: seq<byte>)
    requires Headed(a) && Headed(b) && !IsOs2PmDib(a) && !IsOs2PmDib(b)
    requires a[4..INFO_HEADER] == b[4..INFO_HEADER]
    ensures DibNumColors(b) == DibNumColors(a) && PaletteSize(b) == PaletteSize(a)
    ensures DibIsCompressed(b) == DibIsCompressed(a)
    ensures DibImageSize(b, false) == DibImageSize(a, false)
    ensures DibImageSize(b, true) == DibImageSize(a, true)
    ensures Width(b) == Width(a) && Height(b) == Height(a) && Planes(b) == Planes(a)
    ensures BitCount(b) == BitCount(a) && Compression(b) == Compression(a)
    ensures SizeImage(b) == SizeImage(a) && ClrUsed(b) == ClrUsed(a) && ClrImportant(b) == ClrImportant(a)
    ensures HeaderSize(a) != INFO_HEADER && HeaderSize(b) != INFO_HEADER ==>
              ColorMasksSize(a) == 0 && ColorMasksSize(b) == 0
  {
    assert forall k | 4 <= k < INFO_HEADER :: a[k] == b[k] by {
      forall k | 4 <= k < INFO_HEADER ensures a[k] == b[k] {
        assert a[k] == a[4..INFO_HEADER][k - 4];
      }
    }
    LE32Local(a, b, OFF_WIDTH);
    LE32Local(a, b, OFF_HEIGHT);
    LE16Local(a, b, OFF_PLANES);
    LE16Local(a, b, OFF_BITCOUNT);
    LE32Local(a, b, OFF_COMPRESSION);
    LE32Local(a, b, OFF_SIZEIMAGE);
    LE32Local(a, b, OFF_CLRUSED);
    LE32Local(a, b, OFF_CLRIMPORTANT);
  }

  /** DibHasColorProfile: a V5 header naming a linked or embedded profile of non-zero size. */
  predicate DibHasColorProfile(b: seq<byte>)
    requires Headed(b)
    ensures DibHasColorProfile(b) ==> IsWin50Dib(b) && !DibIsCMYK(b)
  {
    IsWin50Dib(b) && ProfileData(b) != 0 && ProfileSize(b) != 0
    && (CSType(b) == PROFILE_LINKED || CSType(b) == PROFILE_EMBEDDED)
  }

  /** DibHasColorSpaceData: calibrated RGB endpoints (V4 and later) or an embedded profile (V5). */
  predicate DibHasColorSpaceData(b: seq<byte>)
    requires Headed(b)
  {
    (HeaderSize(b) >= V4_HEADER && CSType(b) == LCS_CALIBRATED_RGB)
    || (HeaderSize(b) >= V5_HEADER && CSType(b) == PROFILE_EMBEDDED)
  }

  /** Byte `k` (0 = least significant) of a DWORD. */
  function DwordByte(v: u32, k: nat): byte
    requires k < 4
  {
    if k == 0 then v % 0x100
    else if k == 1 then (v / 0x100) % 0x100
    else if k == 2 then (v / 0x1_0000) % 0x100
    else v / 0x100_0000
  }

  /** DibIsCustomFormat: a 40-byte header whose compression DWORD is a FourCC
      code, all four of its bytes printable. */
  predicate DibIsCustomFormat(b: seq<byte>)
    requires Headed(b)
    ensures DibIsCustomFormat(b) ==> DibIsCompressed(b)
  {
    IsWin30Dib(b) && IsFourCC(Compression(b))
  }

  /** A DWORD all four of whose bytes are printable characters. */
  predicate IsFourCC(v: u32)
    ensures IsFourCC(v) ==> 0x2000_0000 <= v < 0x7F00_0000
  {
    IsPrint(DwordByte(v, 0)) && IsPrint(DwordByte(v, 1)) && IsPrint(DwordByte(v, 2)) && IsPrint(DwordByte(v, 3))
  }

  /** The FourCC test reads exactly the four stored compression bytes, and a
      FourCC code always counts as compressed. */
  lemma CustomFormatProperties(b: seq<byte>)
    requires Headed(b)
    ensures DibIsCustomFormat(b) <==>
              IsWin30Dib(b) && IsPrint(b[16]) && IsPrint(b[17]) && IsPrint(b[18]) && IsPrint(b[19])
    ensures DibIsCustomFormat(b) ==> DibIsCompressed(b)
  {
    if IsWin30Dib(b) {
      var c := Compression(b);
      assert b[16..20][..4] == b[16..20];
      LE32Decompose(b[16..20]);
      assert LE32(b[16..20], 0) == c;
      LEBytesFour(c);
      assert (c / 0x100_0000) % 0x100 == c / 0x100_0000;
    }
  }

  /** DibIsCMYK: a V4 or V5 header whose colour space is device CMYK. */
  predicate DibIsCMYK(b: seq<byte>)
    requires Headed(b)
    ensures DibIsCMYK(b) ==> HeaderSize(b) >= V4_HEADER && !DibHasColorSpaceData(b)
  {
    HeaderSize(b) >= V4_HEADER && CSType(b) == LCS_DEVICE_CMYK
  }

  /** A DIB carrying a profile is a V5 DIB that reports colour-space data
      exactly when the profile is embedded, and it is never CMYK. */
  lemma ProfilePredicates(b: seq<byte>)
    requires Headed(b)
    ensures DibHasColorProfile(b) ==> IsWin50Dib(b) && !DibIsCMYK(b)
    ensures DibHasColorProfile(b) ==> (DibHasColorSpaceData(b) <==> CSType(b) == PROFILE_EMBEDDED)
    ensures DibHasColorSpaceData(b) ==> HeaderSize(b) >= V4_HEADER && !DibIsCMYK(b)
  {
  }

  /** Mul8Bit: a * b / 255 with rounding, in C int arithmetic (`>>` on a signed
      int is an arithmetic shift, i.e. floor division by 256). */
  function Mul8Bit(a: int, b: int): int
  {
    var t := I32(a * b + 128);
    I32(t + t / 256) / 256
  }

  /** Mul8Bit on colour components, in exact arithmetic (nothing wraps). */
  lemma Mul8BitExact(a: byte, b: byte)
    ensures 0 <= a * b <= 255 * 255
    ensures Mul8Bit(a, b) == (a * b + 128 + (a * b + 128) / 256) / 256
  {
    assert a * b <= 255 * b <= 255 * 255;
  }

  /** For colour components, Mul8Bit stays a component, is symmetric and is
      zero when either factor is zero. */
  lemma {:induction false} Mul8BitRange(a: byte, b: byte)
    ensures 0 <= Mul8Bit(a, b) <= 255
    ensures Mul8Bit(a, b) == Mul8Bit(b, a)
    ensures a == 0 || b == 0 ==> Mul8Bit(a, b) == 0
  {
    Mul8BitExact(a, b);
    Mul8BitExact(b, a);
    var t := a * b + 128;
    assert t / 256 <= 254;
    assert t + t / 256 <= 65153 + 254;
  }

  /** 255 is the unit of Mul8Bit, as befits a * b / 255. */
  lemma {:induction false} Mul8BitUnit(a: byte)
    ensures Mul8Bit(a, 255) == a
  {
    Mul8BitExact(a, 255);
    var u := 255 * a + 128;
    if a <= 128 {
      assert u == 256 * a + (128 - a);
      assert u / 256 == a;
      assert u + u / 256 == 256 * a + 128;
    } else {
      assert u == 256 * (a - 1) + (384 - a);
      assert u / 256 == a - 1;
      assert u + u / 256 == 256 * a + 127;
    }
  }

  /** The masked colour shifted left, together with its mask, until the
      mask's highest set bit reaches bit 31. */
  function Normalize(color: bv32, mask: bv32): bv32
    requires mask != 0
    decreases 0xFFFF_FFFF - mask
  {
    if mask & 0x8000_0000 != 0 then color else Normalize(color << 1, mask << 1)
  }

  /** The colour component a bit-field mask selects, scaled so that the mask's
      highest bit becomes bit 7 of the result. */
  function ColorValue(pixel: bv32, mask: bv32): (r: bv32)
    ensures r < 0x100
  {
    if mask == 0 then 0 else Normalize(pixel & mask, mask) >> 24
  }

  /** GetColorValue: shift the masked pixel left until the mask's top bit is set. */
  method GetColorValue(pixel: bv32, mask: bv32) returns (value: bv32)
    ensures value == ColorValue(pixel, mask)
  {
    if mask == 0 {
      return 0;
    }
    var color := pixel & mask;
    var m := mask;
    while m & 0x8000_0000 == 0
      invariant m != 0
      invariant Normalize(color, m) == Normalize(pixel & mask, mask)
      decreases 0xFFFF_FFFF - m
    {
      color := color << 1;
      m := m << 1;
    }
    value := color >> 24;
  }

  /** Eight shifts at once, for a mask whose top byte is clear. */
  lemma NormalizeByte(c: bv32, m: bv32)
    requires m != 0 && m & 0xFF00_0000 == 0
    ensures Normalize(c, m) == Normalize(c << 8, m << 8)
  {
    assert Normalize(c, m) == Normalize(c << 1, m << 1);
    assert Normalize(c << 1, m << 1) == Normalize(c << 2, m << 2);
    assert Normalize(c << 2, m << 2) == Normalize(c << 3, m << 3);
    assert Normalize(c << 3, m << 3) == Normalize(c << 4, m << 4);
    assert Normalize(c << 4, m << 4) == Normalize(c << 5, m << 5);
    assert Normalize(c << 5, m << 5) == Normalize(c << 6, m << 6);
    assert Normalize(c << 6, m << 6) == Normalize(c << 7, m << 7);
    assert Normalize(c << 7, m << 7) == Normalize(c << 8, m << 8);
  }

  /** The blue mask of a 32-bit pixel selects its low byte. */
  lemma ColorValueOfBlueMask(pixel: bv32)
    ensures ColorValue(pixel, 0xFF) == pixel & 0xFF
  {
    NormalizeByte(pixel & 0xFF, 0xFF);
    NormalizeByte((pixel & 0xFF) << 8, 0xFF00);
    NormalizeByte(((pixel & 0xFF) << 8) << 8, 0xFF_0000);
  }

  /** The green mask of a 32-bit pixel selects its second byte. */
  lemma ColorValueOfGreenMask(pixel: bv32)
    ensures ColorValue(pixel, 0xFF00) == (pixel >> 8) & 0xFF
  {
    NormalizeByte(pixel & 0xFF00, 0xFF00);
    NormalizeByte((pixel & 0xFF00) << 8, 0xFF_0000);
  }

  /** For the usual 8-bit channel masks, the colour value is the channel's
      byte of the pixel: blue, green, red and alpha of a 32-bit pixel. */
  lemma {:induction false} ColorValueOfByteMask(pixel: bv32)
    ensures ColorValue(pixel, 0xFF) == pixel & 0xFF
    ensures ColorValue(pixel, 0xFF00) == (pixel >> 8) & 0xFF
    ensures ColorValue(pixel, 0xFF_0000) == (pixel >> 16) & 0xFF
    ensures ColorValue(pixel, 0xFF00_0000) == pixel >> 24
  {
    ColorValueOfBlueMask(pixel);
    ColorValueOfGreenMask(pixel);
    NormalizeByte(pixel & 0xFF_0000, 0xFF_0000);
  }
}
