/** Structural validation of a DIB and its in-place repair (ParseDIBitmap),
    and the file wrapper that strips the BITMAPFILEHEADER (ParseBitmap).

    The validation runs in stages, each a function here: the header-size
    checkpoint, sanitising of width and SizeImage, the colour-mask and
    colour-table checkpoints, the repair of a gap or an overlap between the
    colour table and the bits, and the checkpoints on the bits and on an
    embedded profile. ParseDIBitmap composes them; the method of the same
    name performs them on an array. */
module ParseDib {
  import opened Bytes
  import opened DibGeometry
  import opened IccProfile
  import opened DibLayouts
  import opened DibSave

  datatype Failure =
    | Corrupted              // IDS_CORRUPTED: the block is smaller than its structure
    | UnsupportedHeaderSize  // IDS_HEADERSIZE: a header size of 16 or more that is not supported
    | NotDisplayable         // the DIB can be neither displayed nor passed through
    | BitmapArray            // IDS_BITMAPARRAY: an OS/2 bitmap array with more than one bitmap
    | IconOrPointer          // IDS_ICON_POINTER: an OS/2 array entry that is not a bitmap
    | NoData                 // an empty block, rejected without a message
    | TooLarge               // growing the colour table would take the block past 4 GiB

  datatype Parse = Failed(why: Failure) | Parsed(dib: seq<byte>)

  /** The seven header sizes ParseDIBitmap accepts. */
  predicate KnownHeaderSize(hs: int)
  {
    hs == CORE_HEADER || hs == INFO_HEADER || hs == V2_HEADER || hs == V3_HEADER
    || hs == OS2_V2_HEADER || hs == V4_HEADER || hs == V5_HEADER
  }

  // ---------------------------------------------------------------------------
  // Header size

  /** The first checkpoint: the header must fit the block and have a known
      size; a size below 16 cannot be any header and counts as corruption.
      A header that passes is one the geometry can read. */
  function HeaderCheck(b: seq<byte>): (r: Option<Failure>)
    requires |b| >= 4
    ensures var hs := HeaderSize(b);
            r == Some(Corrupted) <==> hs > |b| || (!KnownHeaderSize(hs) && hs < 16)
    ensures var hs := HeaderSize(b);
            r == Some(UnsupportedHeaderSize) <==> hs <= |b| && !KnownHeaderSize(hs) && hs >= 16
    ensures r.None? <==> HeaderSize(b) <= |b| && KnownHeaderSize(HeaderSize(b))
    ensures r.None? ==> Headed(b)
  {
    var hs := HeaderSize(b);
    if hs > |b| then Some(Corrupted)
    else if !KnownHeaderSize(hs) then
      if hs < 16 then Some(Corrupted) else Some(UnsupportedHeaderSize)
    else None
  }

  // ---------------------------------------------------------------------------
  // Sanitising

  /** Above this many bytes of pixels a DIB is not displayed. */
  const BITS_SIZE_LIMIT: int := 0x8000_0000

  /** The 64-bit pixel size computed for a core DIB. Its WORD fields cannot
      overflow 64 bits, so this is exact. */
  function CoreBitsSize64(b: seq<byte>): nat
    requires |b| >= 12
  {
    var wp := CoreWidth(b) * CorePlanes(b);
    NonNegativeProduct(CoreWidth(b), CorePlanes(b));
    NonNegativeProduct(wp, CoreBitCount(b));
    var wb := WidthBytes(wp * CoreBitCount(b));
    NonNegativeProduct(wb, CoreHeight(b));
    wb * CoreHeight(b)
  }

  /** The 64-bit pixel size computed for an info-family DIB: the LONG width
      sign-extended to UINT64 and multiplied by planes and bit count,
      WIDTHBYTES in UINT64, then times abs(height) sign-extended; everything
      modulo 2^64. */
  function InfoBitsSize64(b: seq<byte>): (r: nat)
    requires |b| >= 16
    ensures r < TWO64
  {
    var line := U64(U64(Width(b)) * Planes(b) * BitCount(b));
    var wb := U64(line + 31) / 32 * 4;
    U64(wb * U64(AbsI32(Height(b))))
  }

  /** The block after sanitising, and the display verdicts. */
  datatype Sanitized = Sanitized(dib: seq<byte>, displayable: bool, passthrough: bool)

  /** A negative width made positive in place. */
  function FixWidth(b: seq<byte>): (r: seq<byte>)
    requires |b| >= INFO_HEADER
    ensures |r| == |b| && Compression(r) == Compression(b)
    ensures Width(b) >= 0 ==> r == b
    ensures Width(r) == (if Width(b) == -TWO31 then -TWO31 else Abs(Width(b)))
  {
    if Width(b) < 0 then
      PutLE32Elsewhere(b, OFF_WIDTH, U32(-Width(b)), OFF_COMPRESSION);
      PutLE32(b, OFF_WIDTH, U32(-Width(b)))
    else b
  }

  /** Whether SizeImage is replaced by the computed size: it is non-zero and
      differs from a computed size that is non-zero and fits a DWORD, and the
      DIB is not compressed. */
  predicate SizeImageFixed(b: seq<byte>)
    requires Headed(b) && HeaderSize(b) >= INFO_HEADER
  {
    var size := InfoBitsSize64(b);
    SizeImage(b) != 0 && size != 0 && size < TWO32 && SizeImage(b) != size && !DibIsCompressed(b)
  }

  function FixSizeImage(b: seq<byte>): (r: seq<byte>)
    requires Headed(b) && HeaderSize(b) >= INFO_HEADER
    ensures |r| == |b|
    ensures !SizeImageFixed(b) ==> r == b
    ensures SizeImageFixed(b) ==> SizeImage(r) == InfoBitsSize64(b) != SizeImage(b)
  {
    if SizeImageFixed(b) then PutLE32(b, OFF_SIZEIMAGE, InfoBitsSize64(b)) else b
  }

  /** Sanitising. A core DIB is left alone and is displayable unless its
      computed size is 0 or above 2 GiB or its bit count exceeds 32. Any
      other DIB gets a non-negative width and a corrected SizeImage; it takes
      the display driver's verdict, is not displayable when the computed size
      is 0 with a non-zero bit count or is above 2 GiB, and is displayable
      again when its compression is a FourCC code. JPEG and PNG compression
      mark a pass-through image, except in an OS/2 2.x header. */
  function Sanitize(b: seq<byte>, supported: bool): (r: Sanitized)
    requires Headed(b)
    ensures |r.dib| == |b|
    ensures IsOs2PmDib(b) ==> r.dib == b && !r.passthrough
    ensures !IsOs2PmDib(b) && IsFourCC(Compression(b)) ==> r.displayable && !r.passthrough
  {
    if IsOs2PmDib(b) then
      var size := CoreBitsSize64(b);
      Sanitized(b, !(size == 0 || size > BITS_SIZE_LIMIT || CoreBitCount(b) > 32), false)
    else
      var b1 := FixWidth(b);
      LE32Local(b1, b, 0);
      var size := InfoBitsSize64(b1);
      var c := Compression(b1);
      var shown := if IsFourCC(c) then true
                   else if (BitCount(b1) != 0 && size == 0) || size > BITS_SIZE_LIMIT then false
                   else supported;
      var passthrough := !IsFourCC(c) && HeaderSize(b) != OS2_V2_HEADER && (c == BI_JPEG || c == BI_PNG);
      Sanitized(FixSizeImage(b1), shown, passthrough)
  }

  /** Writing one DWORD of an info-family header leaves the header size and
      every other field the pixel-size computation reads untouched. */
  lemma PutHeaderDwordFrame(b: seq<byte>, off: nat, v: u32)
    requires |b| >= INFO_HEADER
    requires off == OFF_WIDTH || off == OFF_SIZEIMAGE || off == OFF_CLRUSED || off == OFF_CLRIMPORTANT
    ensures var c := PutLE32(b, off, v);
            HeaderSize(c) == HeaderSize(b)
            && (off != OFF_WIDTH ==> Width(c) == Width(b))
            && Height(c) == Height(b) && Planes(c) == Planes(b) && BitCount(c) == BitCount(b)
            && Compression(c) == Compression(b)
            && (off != OFF_SIZEIMAGE ==> SizeImage(c) == SizeImage(b))
            && (off != OFF_CLRUSED ==> ClrUsed(c) == ClrUsed(b))
            && (off != OFF_CLRIMPORTANT ==> ClrImportant(c) == ClrImportant(b))
  {
    PutLE32Elsewhere(b, off, v, 0);
    if off != OFF_WIDTH { PutLE32Elsewhere(b, off, v, OFF_WIDTH); }
    PutLE32Elsewhere(b, off, v, OFF_HEIGHT);
    PutLE32ElsewhereWord(b, off, v, OFF_PLANES);
    PutLE32ElsewhereWord(b, off, v, OFF_BITCOUNT);
    PutLE32Elsewhere(b, off, v, OFF_COMPRESSION);
    if off != OFF_SIZEIMAGE { PutLE32Elsewhere(b, off, v, OFF_SIZEIMAGE); }
    if off != OFF_CLRUSED { PutLE32Elsewhere(b, off, v, OFF_CLRUSED); }
    if off != OFF_CLRIMPORTANT { PutLE32Elsewhere(b, off, v, OFF_CLRIMPORTANT); }
  }

  /** After FixWidth the width is non-negative, except for the LONG minimum,
      whose negation in C is itself; nothing else the sanitiser reads
      changes. */
  lemma FixWidthEffect(b: seq<byte>)
    requires Headed(b) && !IsOs2PmDib(b)
    ensures var c := FixWidth(b);
            Headed(c) && |c| == |b| && !IsOs2PmDib(c)
            && Width(c) == (if Width(b) == -TWO31 then -TWO31 else Abs(Width(b)))
            && Height(c) == Height(b) && Planes(c) == Planes(b) && BitCount(c) == BitCount(b)
            && Compression(c) == Compression(b) && SizeImage(c) == SizeImage(b)
            && ClrUsed(c) == ClrUsed(b) && ClrImportant(c) == ClrImportant(b)
    ensures FixWidth(FixWidth(b)) == FixWidth(b)
  {
    var c := FixWidth(b);
    if Width(b) < 0 {
      PutHeaderDwordFrame(b, OFF_WIDTH, U32(-Width(b)));
      PutLE32Same(c, OFF_WIDTH);
    }
  }

  /** After FixSizeImage a replaced SizeImage holds the computed size, an
      untouched one is as it was, and nothing else the sanitiser reads has
      changed; a second application changes nothing. */
  lemma FixSizeImageEffect(b: seq<byte>)
    requires Headed(b) && !IsOs2PmDib(b)
    ensures var c := FixSizeImage(b);
            Headed(c) && |c| == |b| && !IsOs2PmDib(c)
            && SizeImage(c) == (if SizeImageFixed(b) then InfoBitsSize64(b) else SizeImage(b))
            && Width(c) == Width(b) && Height(c) == Height(b) && Planes(c) == Planes(b)
            && BitCount(c) == BitCount(b) && Compression(c) == Compression(b)
            && ClrUsed(c) == ClrUsed(b) && ClrImportant(c) == ClrImportant(b)
            && InfoBitsSize64(c) == InfoBitsSize64(b) && DibIsCompressed(c) == DibIsCompressed(b)
    ensures !SizeImageFixed(FixSizeImage(b))
    ensures SizeImageFixed(b) ==> DibImageSize(FixSizeImage(b), false) == InfoBitsSize64(b)
  {
    if SizeImageFixed(b) {
      PutHeaderDwordFrame(b, OFF_SIZEIMAGE, InfoBitsSize64(b));
    }
  }

  /** Sanitising keeps the block's length and header size and leaves a core
      DIB untouched. Otherwise the width becomes non-negative (the LONG
      minimum excepted), SizeImage takes the computed size exactly when it
      is non-zero, differs from it, the DIB is uncompressed and the size is
      non-zero and fits a DWORD, and in that case the image size read later
      is the computed one; no other field changes. A bad size never stops
      the parse: it only clears the display verdict. */
  lemma SanitizeEffect(b: seq<byte>, supported: bool)
    requires Headed(b)
    ensures var r := Sanitize(b, supported);
            Headed(r.dib) && |r.dib| == |b| && HeaderSize(r.dib) == HeaderSize(b)
    ensures IsOs2PmDib(b) ==> Sanitize(b, supported).dib == b && !Sanitize(b, supported).passthrough
    ensures IsOs2PmDib(b) && CoreBitCount(b) > 32 ==> !Sanitize(b, supported).displayable
    ensures !IsOs2PmDib(b) ==>
              var r := Sanitize(b, supported).dib;
              var size := InfoBitsSize64(FixWidth(b));
              Width(r) == (if Width(b) == -TWO31 then -TWO31 else Abs(Width(b)))
              && Height(r) == Height(b) && Planes(r) == Planes(b) && BitCount(r) == BitCount(b)
              && Compression(r) == Compression(b)
              && ClrUsed(r) == ClrUsed(b) && ClrImportant(r) == ClrImportant(b)
              && (SizeImage(r) != SizeImage(b) <==>
                    SizeImage(b) != 0 && size != 0 && size < TWO32 && SizeImage(b) != size
                    && !DibIsCompressed(b))
              && (SizeImage(r) != SizeImage(b) ==> SizeImage(r) == size && DibImageSize(r, false) == size)
    ensures !IsOs2PmDib(b) && !IsFourCC(Compression(b)) ==>
              var size := InfoBitsSize64(FixWidth(b));
              ((BitCount(b) != 0 && size == 0) || size > BITS_SIZE_LIMIT ==> !Sanitize(b, supported).displayable)
  {
    if !IsOs2PmDib(b) {
      FixWidthEffect(b);
      FixSizeImageEffect(FixWidth(b));
    }
  }

  /** Sanitising twice is sanitising once: the block and both verdicts. */
  lemma SanitizeIdempotent(b: seq<byte>, supported: bool)
    requires Headed(b)
    ensures var r := Sanitize(b, supported);
            Headed(r.dib) && Sanitize(r.dib, supported) == r
  {
    SanitizeEffect(b, supported);
    if !IsOs2PmDib(b) {
      var b1 := FixWidth(b);
      var s := FixSizeImage(b1);
      FixWidthEffect(b);
      FixSizeImageEffect(b1);
      FixWidthEffect(s);
      if Width(s) < 0 {
        PutLE32Same(s, OFF_WIDTH);
      }
      assert FixWidth(s) == s;
    }
  }

  // ---------------------------------------------------------------------------
  // Checkpoints before the repair

  /** A 40-byte header with BI_BITFIELDS or BI_ALPHABITFIELDS whose masks
      run past the block. */
  predicate MasksMissing(d: seq<byte>)
    requires Headed(d)
    ensures MasksMissing(d) ==> |d| < INFO_HEADER + 16
    ensures !MasksMissing(d) ==> PaletteOffset(d) <= |d|
  {
    IsWin30Dib(d) && (Compression(d) == BI_BITFIELDS || Compression(d) == BI_ALPHABITFIELDS)
    && HeaderSize(d) + ColorMasksSize(d) > |d|
  }

  /** A colour table that runs past the block. */
  predicate PaletteMissing(d: seq<byte>)
    requires Headed(d)
    ensures !PaletteMissing(d) && DibNumColors(d) > 0 && !IsWin50Dib(d) && |d| + 16 + 4 * 4096 < TWO32
            ==> PaletteOffset(d) + PaletteSize(d) <= |d|
  {
    DibNumColors(d) > 0 && DibBitsOffset(d) > |d|
  }

  /** The offset of the bits as ParseDIBitmap uses it: the declared one, or
      the packed one when none was declared. */
  function EffectiveOffset(off: u32, packed: u32): (r: u32)
    ensures off != 0 ==> r == off
    ensures r == 0 ==> off == 0 && packed == 0
  {
    if off != 0 then off else packed
  }

  // ---------------------------------------------------------------------------
  // Repair of a gap or an overlap between colour table and bits

  /** The block after the repair, and the bits offset it now declares. */
  datatype Repaired = Repaired(dib: seq<byte>, off: u32)

  /** Level of entry i of a k-entry grayscale ramp: i * 256 / k in UINT
      arithmetic, stored as a BYTE. */
  function GrayLevel(i: nat, k: nat): byte
    requires k > 0
  {
    U32(i * 256) / k % 256
  }

  /** The `len` bytes inserted in front of the bits when the colour table is
      completed: k entries of `entry` bytes with blue, green and red set to
      the ramp level and any reserved byte zero, then zeros. */
  function GrayEntries(k: nat, entry: nat, len: nat): (r: seq<byte>)
    requires entry == 3 || entry == 4
    ensures |r| == len
  {
    seq(len, j requires 0 <= j < len =>
              if 0 < k && j < k * entry && j % entry < 3 then GrayLevel(j / entry, k) else 0)
  }

  /** The overlap branch that completes the colour table: the entries the
      bits overlap cannot be dropped by lowering ClrUsed, either because the
      header is a core header or because they are all the entries there are. */
  predicate GrowsTable(d: seq<byte>, off: u32)
    requires Headed(d)
  {
    var packed := DibBitsOffset(d);
    off != 0 && packed > off && DibNumColors(d) > 0
    && !(HeaderSize(d) >= INFO_HEADER && DibNumColors(d) > (packed - off) / EntrySize(d))
  }

  /** ClrUsed set to `used`, and ClrImportant capped to it. */
  function ShrunkTable(d: seq<byte>, used: u32): (r: seq<byte>)
    requires |d| >= INFO_HEADER
    ensures |r| == |d|
  {
    var d1 := PutLE32(d, OFF_CLRUSED, used);
    if ClrImportant(d) > used then PutLE32(d1, OFF_CLRIMPORTANT, used) else d1
  }

  /** The repair. A declared offset beyond the packed one is a gap: the bits
      move down to the packed offset and the block shrinks by the gap. A
      declared offset below it is an overlap, and with a colour table either
      ClrUsed drops by the overlapped entries (ClrImportant capped to it), or
      the block grows by the overlap, the bits move up to the packed offset
      and the freed bytes become a grayscale table. Anything else is left
      alone. */
  function Repair(d: seq<byte>, off: u32): (r: Repaired)
    requires Headed(d) && off <= |d|
    ensures off == 0 || off == DibBitsOffset(d) || (off < DibBitsOffset(d) && DibNumColors(d) == 0)
            ==> r == Repaired(d, off)
    ensures off > DibBitsOffset(d) || GrowsTable(d, off) ==> r.off == DibBitsOffset(d)
    ensures off <= DibBitsOffset(d) && !GrowsTable(d, off) ==> r.off == off && |r.dib| == |d|
  {
    var packed := DibBitsOffset(d);
    if off > packed then
      Repaired(d[..packed] + d[off..], packed)
    else if off != 0 && packed > off && DibNumColors(d) > 0 then
      var overlap := packed - off;
      var entry := EntrySize(d);
      var k := overlap / entry;
      var n := DibNumColors(d);
      if HeaderSize(d) >= INFO_HEADER && n > k then
        Repaired(ShrunkTable(d, n - k), off)
      else
        Repaired(d[..off] + GrayEntries(k, entry, overlap) + d[off..], packed)
    else
      Repaired(d, off)
  }

  // ---------------------------------------------------------------------------
  // Checkpoints after the repair

  /** The bits, from the effective offset on, run past the block. */
  predicate BitsCropped(d: seq<byte>, eff: u32)
    requires Headed(d)
    ensures !BitsCropped(d, eff) ==> eff <= |d| && DibImageSize(d, false) <= |d| - eff
  {
    eff + DibImageSize(d, false) > |d|
  }

  /** The same check with the DWORD sum of ParseBitmap.cpp, which wraps: it
      agrees with the real one while the sum fits a DWORD, and misses a
      crop exactly when it does not. */
  function BitsCroppedAsWritten(d: seq<byte>, eff: u32): (r: bool)
    requires Headed(d) && |d| < TWO32
    ensures eff + DibImageSize(d, false) < TWO32 ==> (r <==> BitsCropped(d, eff))
    ensures eff + DibImageSize(d, false) >= TWO32 ==> BitsCropped(d, eff) && (r <==> U32(eff + DibImageSize(d, false)) > |d|)
  {
    U32(eff + DibImageSize(d, false)) > |d|
  }

  /** A linked or embedded profile that runs past the block. */
  predicate ProfileOutside(d: seq<byte>)
    requires Headed(d)
    ensures !ProfileOutside(d) && DibHasColorProfile(d) ==> ProfileData(d) < |d|
  {
    DibHasColorProfile(d) && ProfileData(d) + ProfileSize(d) > |d|
  }

  /** The same check with the DWORD sum of ParseBitmap.cpp, which wraps: it
      agrees with the real one while the sum fits a DWORD. */
  function ProfileOutsideAsWritten(d: seq<byte>): (r: bool)
    requires Headed(d) && |d| < TWO32
    ensures !DibHasColorProfile(d) ==> !r
    ensures DibHasColorProfile(d) && ProfileData(d) + ProfileSize(d) < TWO32 ==> (r <==> ProfileOutside(d))
    ensures r ==> ProfileOutside(d)
  {
    DibHasColorProfile(d) && U32(ProfileData(d) + ProfileSize(d)) > |d|
  }

  /** The bytes of the profile a DIB declares, when they lie in the block. */
  function ProfileBytes(d: seq<byte>): (p: seq<byte>)
    requires Headed(d) && DibHasColorProfile(d) && !ProfileOutside(d)
    ensures |p| == ProfileSize(d)
  {
    d[ProfileData(d)..ProfileData(d) + ProfileSize(d)]
  }

  /** An embedded profile too short for its header, or whose header states
      another length. */
  predicate EmbeddedProfileBad(d: seq<byte>)
    requires Headed(d) && !ProfileOutside(d)
    ensures !EmbeddedProfileBad(d) && DibHasColorProfile(d) && CSType(d) == PROFILE_EMBEDDED ==>
              ProfileSize(d) >= PROFILE_HEADER_SIZE
              && (ProfileHeaderShown(ProfileBytes(d)) ==> BE32(ProfileBytes(d), 0) == ProfileSize(d))
  {
    DibHasColorProfile(d) && CSType(d) == PROFILE_EMBEDDED && EmbeddedProfileCorrupt(ProfileBytes(d))
  }

  // ---------------------------------------------------------------------------
  // ParseDIBitmap

  /** The checkpoints after the repair and the final verdict. A repaired
      block whose header no longer reads as one is reported as corrupted. */
  function Finish(d: seq<byte>, eff: u32, shown: bool): (r: Parse)
    ensures r.Parsed? <==> shown && Headed(d) && !BitsCropped(d, eff) && !ProfileOutside(d) && !EmbeddedProfileBad(d)
    ensures r.Parsed? ==> r.dib == d
    ensures r.Failed? ==> r.why == Corrupted || (r.why == NotDisplayable && !shown)
  {
    if !Headed(d) || BitsCropped(d, eff) || ProfileOutside(d) || EmbeddedProfileBad(d) then Failed(Corrupted)
    else if shown then Parsed(d)
    else Failed(NotDisplayable)
  }

  /** The checkpoints on a sanitised block, the repair and what follows it. */
  function CheckAndRepair(d: seq<byte>, off: u32, shown: bool): (r: Parse)
    requires Headed(d) && |d| < TWO32
    ensures MasksMissing(d) || PaletteMissing(d) ==> r == Failed(Corrupted)
    ensures r.Parsed? ==> shown && Headed(r.dib) && !ProfileOutside(r.dib) && !EmbeddedProfileBad(r.dib)
    ensures r.Failed? ==> r.why in {Corrupted, TooLarge, NotDisplayable}
  {
    var packed := DibBitsOffset(d);
    if MasksMissing(d) || PaletteMissing(d) || EffectiveOffset(off, packed) > |d| then Failed(Corrupted)
    else if GrowsTable(d, off) && |d| + (packed - off) >= TWO32 then Failed(TooLarge)
    else
      var rp := Repair(d, off);
      Finish(rp.dib, EffectiveOffset(rp.off, packed), shown)
  }

  /** What ParseDIBitmap makes of a DIB block and the bits offset its file
      declared (0 for none): a failure, or the repaired block, which is then
      shown. `supported` is the display driver's verdict on the block. */
  function Examine(b: seq<byte>, off: u32, supported: bool): (r: Parse)
    requires |b| == 0 || |b| >= 4
    requires |b| < TWO32
    ensures r == Failed(NoData) <==> |b| == 0
    ensures r.Parsed? ==>
              HeaderCheck(b).None? && Headed(r.dib) && !ProfileOutside(r.dib) && !EmbeddedProfileBad(r.dib)
              && (Sanitize(b, supported).displayable || Sanitize(b, supported).passthrough)
  {
    if |b| == 0 then Failed(NoData)
    else if HeaderCheck(b).Some? then Failed(HeaderCheck(b).value)
    else
      var s := Sanitize(b, supported);
      SanitizeEffect(b, supported);
      CheckAndRepair(s.dib, off, s.displayable || s.passthrough)
  }

  /** Without a declared offset nothing is repaired: a DIB that is shown is
      the sanitised block, and its whole image lies after the packed
      header, masks and colour table. */
  lemma ExamineNoOffset(b: seq<byte>, supported: bool)
    requires |b| == 0 || |b| >= 4
    requires |b| < TWO32
    ensures var r := Examine(b, 0, supported);
            r.Parsed? ==>
              r.dib == Sanitize(b, supported).dib && |r.dib| == |b|
              && DibBitsOffset(r.dib) + DibImageSize(r.dib, false) <= |r.dib|
  {
    if |b| > 0 && HeaderCheck(b).None? {
      SanitizeEffect(b, supported);
    }
  }

  /** A DIB shown without a declared offset is shown again, unchanged, when
      it is parsed once more with the same display driver verdict. */
  lemma ExamineSettles(b: seq<byte>, supported: bool)
    requires |b| == 0 || |b| >= 4
    requires |b| < TWO32
    ensures var r := Examine(b, 0, supported);
            r.Parsed? ==> |r.dib| >= 4 && Examine(r.dib, 0, supported) == r
  {
    var r := Examine(b, 0, supported);
    if r.Parsed? {
      ExamineNoOffset(b, supported);
      SanitizeEffect(b, supported);
      SanitizeIdempotent(b, supported);
      var d := r.dib;
      assert HeaderCheck(d).None?;
    }
  }

  // ---------------------------------------------------------------------------
  // What the repair does

  /** The bits offset of a DIB is read from its header alone. */
  lemma BitsOffsetFrame(a: seq<byte>, b: seq<byte>)
    requires Headed(a) && |b| >= HeaderSize(a) && a[..HeaderSize(a)] == b[..HeaderSize(a)]
    ensures Headed(b) && HeaderSize(b) == HeaderSize(a)
    ensures DibBitsOffset(b) == DibBitsOffset(a) && DibNumColors(b) == DibNumColors(a)
    ensures DibImageSize(b, false) == DibImageSize(a, false)
    ensures DibHasColorProfile(b) == DibHasColorProfile(a)
    ensures IsWin50Dib(a) ==> ProfileData(b) == ProfileData(a) && ProfileSize(b) == ProfileSize(a)
                              && CSType(b) == CSType(a)
  {
    var hs := HeaderSize(a);
    var g := GeometryBytes(a);
    assert a[..g] == a[..hs][..g] && b[..g] == b[..hs][..g];
    GeometryFrame(a, b);
    if IsWin50Dib(a) {
      V5FieldsFrame(a, b, hs);
    }
    BitsOffsetFromParts(a, b);
  }

  /** The V5 fields of two blocks that share their first `hs` bytes agree. */
  lemma V5FieldsFrame(a: seq<byte>, b: seq<byte>, hs: nat)
    requires V5_HEADER <= hs <= |a| && hs <= |b| && a[..hs] == b[..hs]
    ensures CSType(a) == CSType(b) && ProfileData(a) == ProfileData(b) && ProfileSize(a) == ProfileSize(b)
  {
    forall k | OFF_CSTYPE <= k < OFF_PROFILESIZE + 4
      ensures a[k] == b[k]
    {
      assert a[k] == a[..hs][k] && b[k] == b[..hs][k];
    }
  }

  /** The bits offset is determined by the packed offset and, in a V5
      header, the profile fields. */
  lemma BitsOffsetFromParts(a: seq<byte>, b: seq<byte>)
    requires Headed(a) && Headed(b) && HeaderSize(a) == HeaderSize(b)
    requires PackedBitsOffset(a) == PackedBitsOffset(b)
    requires IsWin50Dib(a) ==> ProfileData(a) == ProfileData(b) && ProfileSize(a) == ProfileSize(b)
    ensures DibBitsOffset(a) == DibBitsOffset(b)
  {
  }

  /** Gap: the bytes from the declared offset to the end move to the packed
      offset, everything before the packed offset stays, the block shrinks
      by exactly the gap, and the block now declares the packed offset. */
  lemma RepairGap(d: seq<byte>, off: u32)
    requires Headed(d) && off <= |d| && off > DibBitsOffset(d)
    ensures var r := Repair(d, off);
            var packed := DibBitsOffset(d);
            r.off == packed && |r.dib| == |d| - (off - packed)
            && r.dib[..packed] == d[..packed] && r.dib[packed..] == d[off..]
  {
    var packed := DibBitsOffset(d);
    var r := d[..packed] + d[off..];
    assert r[..packed] == d[..packed];
    assert r[packed..] == d[off..];
  }

  /** After a gap repair the header is intact when the packed offset lies
      beyond it, and the block's own bits offset is the one it declares. */
  lemma RepairGapSettles(d: seq<byte>, off: u32)
    requires Headed(d) && off <= |d| && off > DibBitsOffset(d) >= HeaderSize(d)
    ensures var r := Repair(d, off);
            Headed(r.dib) && HeaderSize(r.dib) == HeaderSize(d) && DibBitsOffset(r.dib) == r.off
  {
    RepairGap(d, off);
    var r := Repair(d, off);
    var hs := HeaderSize(d);
    var packed := DibBitsOffset(d);
    assert r.dib[..hs] == r.dib[..packed][..hs];
    assert d[..hs] == d[..packed][..hs];
    BitsOffsetFrame(d, r.dib);
  }

  /** Overlap with more entries than the bits overlap, in a header of 40
      bytes or more: ClrUsed drops by the overlapped entries, ClrImportant is
      capped to the new ClrUsed, no other byte changes and the block keeps
      its length and declared offset. */
  lemma RepairShrinkTable(d: seq<byte>, off: u32)
    requires Headed(d) && off <= |d|
    requires off != 0 && DibBitsOffset(d) > off && HeaderSize(d) >= INFO_HEADER
    requires DibNumColors(d) > (DibBitsOffset(d) - off) / EntrySize(d)
    ensures var r := Repair(d, off);
            var k := (DibBitsOffset(d) - off) / EntrySize(d);
            var n := DibNumColors(d);
            r.off == off && |r.dib| == |d| && Headed(r.dib) && HeaderSize(r.dib) == HeaderSize(d)
            && ClrUsed(r.dib) == n - k
            && ClrImportant(r.dib) == (if ClrImportant(d) > n - k then n - k else ClrImportant(d))
            && DibNumColors(r.dib) == n - k
            && (forall i | 0 <= i < |d| && !(OFF_CLRUSED <= i < OFF_CLRIMPORTANT + 4) :: r.dib[i] == d[i])
  {
    var k := (DibBitsOffset(d) - off) / EntrySize(d);
    var n := DibNumColors(d);
    assert Repair(d, off) == Repaired(ShrunkTable(d, n - k), off);
    var d1 := PutLE32(d, OFF_CLRUSED, n - k);
    PutHeaderDwordFrame(d, OFF_CLRUSED, n - k);
    PutLE32Keeps(d, OFF_CLRUSED, n - k);
    if ClrImportant(d) > n - k {
      PutHeaderDwordFrame(d1, OFF_CLRIMPORTANT, n - k);
      PutLE32Keeps(d1, OFF_CLRIMPORTANT, n - k);
    }
  }

  /** A ramp level is i * 256 / k while that product fits a DWORD; the
      ramp starts at black. */
  lemma GrayLevelRamp(i: nat, k: nat)
    requires i < k && k * 256 <= TWO32
    ensures GrayLevel(i, k) == i * 256 / k
    ensures GrayLevel(0, k) == 0
  {
    RampStep(i, k);
    assert GrayLevel(i, k) == (i * 256 / k) % 256;
  }

  lemma RampStep(i: nat, k: nat)
    requires i < k && k * 256 <= TWO32
    ensures i * 256 < TWO32 && i * 256 / k < 256
  {
    DivBelow(i * 256, k, 256);
  }

  /** A quotient by k stays below m when the dividend is below k * m. */
  lemma DivBelow(x: nat, k: nat, m: nat)
    requires k > 0 && x < k * m
    ensures x / k < m
  {
    var q := x / k;
    assert q * k <= x;
    if q >= m {
      assert false by {
        NonNegativeProduct(q - m, k);
      }
    }
  }

  /** Entry i of a grayscale table starting at `base`: blue, green and red
      at the ramp level of i, and a zero reserved byte in an RGBQUAD. */
  predicate GrayEntryAt(r: seq<byte>, base: nat, entry: nat, i: nat, k: nat)
  {
    0 < k && base + i * entry + entry <= |r| && 3 <= entry
    && r[base + i * entry] == GrayLevel(i, k)
    && r[base + i * entry + 1] == GrayLevel(i, k)
    && r[base + i * entry + 2] == GrayLevel(i, k)
    && (entry == 4 ==> r[base + i * entry + 3] == 0)
  }

  /** Entry i of a grayscale table holds the ramp level of i. */
  lemma GrayTableEntry(k: nat, entry: nat, len: nat, i: nat)
    requires entry == 3 || entry == 4
    requires i < k && k * entry <= len
    ensures GrayEntryAt(GrayEntries(k, entry, len), 0, entry, i, k)
  {
    if entry == 3 {
      assert i * entry == 3 * i && k * entry == 3 * k;
      DivUnique(3 * i, 3, i, 0);
      DivUnique(3 * i + 1, 3, i, 1);
      DivUnique(3 * i + 2, 3, i, 2);
    } else {
      assert i * entry == 4 * i && k * entry == 4 * k;
      DivUnique(4 * i, 4, i, 0);
      DivUnique(4 * i + 1, 4, i, 1);
      DivUnique(4 * i + 2, 4, i, 2);
      DivUnique(4 * i + 3, 4, i, 3);
    }
  }

  /** An entry keeps its contents when its table is embedded at `n`. */
  lemma GrayEntryShift(g: seq<byte>, r: seq<byte>, n: nat, entry: nat, i: nat, k: nat)
    requires n + |g| <= |r| && r[n..n + |g|] == g && GrayEntryAt(g, 0, entry, i, k)
    ensures GrayEntryAt(r, n, entry, i, k)
  {
    var j := i * entry;
    assert r[n + j] == g[j] && r[n + j + 1] == g[j + 1] && r[n + j + 2] == g[j + 2];
    if entry == 4 {
      assert r[n + j + 3] == g[j + 3];
    }
  }

  /** Inserting a grayscale table between two blocks: both blocks survive on
      either side, entry i holds the ramp level of i, and the bytes after the
      last whole entry are zero. */
  lemma GrayInsertion(pre: seq<byte>, k: nat, entry: nat, len: nat, post: seq<byte>)
    requires entry == 3 || entry == 4
    requires k * entry <= len
    ensures var r := pre + GrayEntries(k, entry, len) + post;
            |r| == |pre| + len + |post| && r[..|pre|] == pre && r[|pre| + len..] == post
            && (forall i | 0 <= i < k :: GrayEntryAt(r, |pre|, entry, i, k))
            && (forall j | |pre| + k * entry <= j < |pre| + len :: r[j] == 0)
  {
    var g := GrayEntries(k, entry, len);
    var r := pre + g + post;
    var n := |pre|;
    assert r[..n] == pre;
    assert r[n + len..] == post;
    assert r[n..n + len] == g;
    forall i | 0 <= i < k
      ensures GrayEntryAt(r, n, entry, i, k)
    {
      GrayTableEntry(k, entry, len, i);
      GrayEntryShift(g, r, n, entry, i, k);
    }
    forall j | n + k * entry <= j < n + len
      ensures r[j] == 0
    {
      assert r[j] == g[j - n];
    }
  }

  /** Overlap that completes the colour table: the block grows by the
      overlap, the bytes before the declared offset stay, the bits move up to
      the packed offset, entry i of the freed bytes is gray at the ramp level
      of i, the bytes after the last whole entry are zero, and the block now
      declares the packed offset. */
  lemma RepairGrow(d: seq<byte>, off: u32)
    requires Headed(d) && off <= |d| && GrowsTable(d, off)
    ensures var r := Repair(d, off);
            var packed := DibBitsOffset(d);
            var entry := EntrySize(d);
            var k := (packed - off) / entry;
            r.off == packed && |r.dib| == |d| + (packed - off)
            && r.dib[..off] == d[..off] && r.dib[packed..] == d[off..]
            && (forall i | 0 <= i < k :: GrayEntryAt(r.dib, off, entry, i, k))
            && (forall j | off <= j < packed && off + k * entry <= j :: r.dib[j] == 0)
  {
    var packed := DibBitsOffset(d);
    var entry := EntrySize(d);
    var k := (packed - off) / entry;
    GrayInsertion(d[..off], k, entry, packed - off, d[off..]);
    assert d[..off] + d[off..] == d;
  }

  // ---------------------------------------------------------------------------
  // The grayscale table, filled in place

  /** One byte of a table whose entries are in place at `base`. */
  lemma GrayByte(a: seq<byte>, base: nat, entry: nat, k: nat, len: nat, t: nat)
    requires entry == 3 || entry == 4
    requires t < len && t < k * entry && t / entry < k
    requires GrayEntryAt(a, base, entry, t / entry, k)
    ensures a[base + t] == GrayEntries(k, entry, len)[t]
  {
    if entry == 3 {
      assert t == 3 * (t / 3) + t % 3;
    } else {
      assert t == 4 * (t / 4) + t % 4;
    }
  }

  /** A block with the grayscale entries below k in place, zeros after them
      and everything else as in `s`, is `s` with the table inserted. */
  lemma GrayFilled(s: seq<byte>, a: seq<byte>, base: nat, entry: nat, k: nat, len: nat)
    requires entry == 3 || entry == 4
    requires |s| == |a| && base + len <= |s| && k * entry <= len
    requires forall j | base <= j < base + len :: s[j] == 0
    requires forall j | 0 <= j < |a| && !(base <= j < base + k * entry) :: a[j] == s[j]
    requires forall e | 0 <= e < k :: GrayEntryAt(a, base, entry, e, k)
    ensures a == s[..base] + GrayEntries(k, entry, len) + s[base + len..]
  {
    var g := GrayEntries(k, entry, len);
    var z := s[..base] + g + s[base + len..];
    forall j | 0 <= j < |a|
      ensures a[j] == z[j]
    {
      if j < base {
        assert z[j] == s[j];
      } else if j < base + len {
        var t := j - base;
        assert z[j] == g[t];
        if t < k * entry {
          DivBelow(t, entry, k);
          GrayByte(a, base, entry, k, len, t);
        }
      } else {
        assert z[j] == s[base + len..][j - base - len];
      }
    }
  }

  /** Entries before `i` survive writes at or past entry `i`. */
  lemma GrayEntriesKept(before: seq<byte>, after: seq<byte>, base: nat, entry: nat, i: nat, k: nat)
    requires entry == 3 || entry == 4
    requires |before| == |after| && base + i * entry <= |before|
    requires forall j | 0 <= j < base + i * entry :: after[j] == before[j]
    requires forall e | 0 <= e < i :: GrayEntryAt(before, base, entry, e, k)
    ensures forall e | 0 <= e < i :: GrayEntryAt(after, base, entry, e, k)
  {
    forall e | 0 <= e < i
      ensures GrayEntryAt(after, base, entry, e, k)
    {
      MulLe(e + 1, i, entry);
      assert GrayEntryAt(before, base, entry, e, k);
    }
  }

  /** Writes one gray level into the three colour bytes at `at`. */
  method PutGray(a: array<byte>, at: nat, level: byte)
    requires at + 3 <= a.Length
    modifies a
    ensures forall j | 0 <= j < a.Length :: a[j] == if at <= j < at + 3 then level else old(a[j])
  {
    a[at] := level;
    a[at + 1] := level;
    a[at + 2] := level;
  }

  /** The loop that writes the grayscale entries into zeroed bytes at `base`. */
  method FillGray(a: array<byte>, base: nat, entry: nat, k: nat, len: nat)
    requires entry == 3 || entry == 4
    requires k * entry <= len && base + len <= a.Length
    requires forall j | base <= j < base + len :: a[j] == 0
    modifies a
    ensures a[..] == old(a[..])[..base] + GrayEntries(k, entry, len) + old(a[..])[base + len..]
  {
    var i := 0;
    while i < k
      invariant 0 <= i <= k
      invariant forall j | 0 <= j < a.Length && !(base <= j < base + i * entry) :: a[j] == old(a[j])
      invariant forall e | 0 <= e < i :: GrayEntryAt(a[..], base, entry, e, k)
    {
      MulLe(i + 1, k, entry);
      var at := base + i * entry;
      ghost var before := a[..];
      PutGray(a, at, GrayLevel(i, k));
      GrayEntriesKept(before, a[..], base, entry, i, k);
      assert GrayEntryAt(a[..], base, entry, i, k);
      i := i + 1;
    }
    GrayFilled(old(a[..]), a[..], base, entry, k, len);
  }

  // ---------------------------------------------------------------------------
  // ParseDIBitmap on a memory block

  /** Closing the gap: the bits move down to the packed offset, the freed
      tail is zeroed and the block is reallocated to its new size. */
  method CloseGap(a: array<byte>, packed: nat, off: nat) returns (c: array<byte>)
    requires packed < off <= a.Length
    modifies a
    ensures fresh(c) && c[..] == old(a[..])[..packed] + old(a[..])[off..]
  {
    var size := a.Length - (off - packed);
    ghost var s := a[..];
    MoveBytes(a, packed, off, size - packed);
    ghost var moved := a[..];
    ZeroBytes(a, size, off - packed);
    assert a[..size] == moved[..size];
    c := Resize(a, size);
    MovedDown(s, moved, packed, off);
  }

  /** Moving the bytes from `off` on down to `packed` leaves the block with
      the gap closed in front. */
  lemma MovedDown(s: seq<byte>, moved: seq<byte>, packed: nat, off: nat)
    requires packed < off <= |s|
    requires moved == s[..packed] + s[off..off + (|s| - off)] + s[packed + (|s| - off)..]
    ensures moved[..|s| - (off - packed)] == s[..packed] + s[off..]
  {
    assert s[off..off + (|s| - off)] == s[off..];
    var closed := s[..packed] + s[off..];
    assert moved == closed + s[packed + (|s| - off)..];
    assert moved[..|closed|] == closed;
  }

  /** Lowering ClrUsed by the overlapped entries, and ClrImportant with it. */
  method ShrinkTable(a: array<byte>, used: u32)
    requires a.Length >= INFO_HEADER
    modifies a
    ensures a[..] == ShrunkTable(old(a[..]), used)
  {
    ghost var s := a[..];
    WriteLE32(a, OFF_CLRUSED, used);
    PutHeaderDwordFrame(s, OFF_CLRUSED, used);
    if LE32(a[..], OFF_CLRIMPORTANT) > used {
      WriteLE32(a, OFF_CLRIMPORTANT, used);
    }
  }

  /** A copy of `a` with `n` zero bytes opened at `off`. */
  method OpenGap(a: array<byte>, off: nat, n: nat) returns (c: array<byte>)
    requires off <= a.Length
    ensures fresh(c)
    ensures c[..] == a[..off] + Zeros(n) + a[off..]
  {
    c := Resize(a, a.Length + n);
    ghost var s := c[..];
    assert s[..off] == a[..off] && s[off..a.Length] == a[off..];
    MoveBytes(c, off + n, off, a.Length - off);
    ghost var moved := c[..];
    assert moved[..off] == a[..off] && moved[off + n..] == a[off..];
    ZeroBytes(c, off, n);
  }

  /** Completing the colour table: the block grows by the overlap (the new
      bytes zeroed), the bits move up to the packed offset, the freed bytes
      are zeroed and take a grayscale table of k entries. */
  method GrowTable(a: array<byte>, off: nat, packed: nat, entry: nat, k: nat) returns (c: array<byte>)
    requires entry == 3 || entry == 4
    requires off < packed && off <= a.Length && k * entry <= packed - off
    ensures fresh(c)
    ensures c[..] == a[..off] + GrayEntries(k, entry, packed - off) + a[off..]
  {
    var overlap := packed - off;
    c := OpenGap(a, off, overlap);
    ghost var zeroed := c[..];
    FillGray(c, off, entry, k, overlap);
    assert c[..] == zeroed[..off] + GrayEntries(k, entry, overlap) + zeroed[off + overlap..];
    assert zeroed[..off] == a[..off];
    assert zeroed[off + overlap..] == a[off..];
  }

  /** Sanitising in place: the width and SizeImage fields are rewritten and
      the verdicts returned. */
  method SanitizeInPlace(a: array<byte>, supported: bool) returns (displayable: bool, passthrough: bool)
    requires Headed(a[..])
    modifies a
    ensures Sanitize(old(a[..]), supported) == Sanitized(a[..], displayable, passthrough)
  {
    ghost var b := a[..];
    if IsOs2PmDib(a[..]) {
      var size := CoreBitsSize64(a[..]);
      displayable := !(size == 0 || size > BITS_SIZE_LIMIT || CoreBitCount(a[..]) > 32);
      passthrough := false;
      return;
    }
    displayable := supported;
    var width := Width(a[..]);
    if width < 0 {
      WriteLE32(a, OFF_WIDTH, U32(-width));
    }
    assert a[..] == FixWidth(b);
    FixWidthEffect(b);
    var size := InfoBitsSize64(a[..]);
    if (BitCount(a[..]) != 0 && size == 0) || size > BITS_SIZE_LIMIT {
      displayable := false;
    }
    var compression := Compression(a[..]);
    passthrough := false;
    if IsFourCC(compression) {
      displayable := true;
    } else if HeaderSize(a[..]) != OS2_V2_HEADER && (compression == BI_JPEG || compression == BI_PNG) {
      passthrough := true;
    }
    if SizeImageFixed(a[..]) {
      WriteLE32(a, OFF_SIZEIMAGE, size);
    }
  }

  /** The repair in place; the block it returns is `a` itself, changed, or a
      new block. */
  method RepairInPlace(a: array<byte>, off: u32) returns (block: array<byte>, newOff: u32)
    requires Headed(a[..]) && off <= a.Length
    requires GrowsTable(a[..], off) ==> a.Length + (DibBitsOffset(a[..]) - off) < TWO32
    modifies a
    ensures block == a || fresh(block)
    ensures Repair(old(a[..]), off) == Repaired(block[..], newOff)
  {
    var packed := DibBitsOffset(a[..]);
    block, newOff := a, off;
    if off > packed {
      block := CloseGap(a, packed, off);
      newOff := packed;
    } else if off != 0 && packed > off && DibNumColors(a[..]) > 0 {
      block, newOff := RepairOverlap(a, off);
    }
  }

  lemma QuotientTimesBelow(x: nat, d: nat)
    requires d > 0
    ensures (x / d) * d <= x
  {
    assert x == d * (x / d) + x % d;
  }

  lemma RepairShrinks(d: seq<byte>, off: u32)
    requires Headed(d) && 0 < off < DibBitsOffset(d) && off <= |d| && DibNumColors(d) > 0
    requires HeaderSize(d) >= INFO_HEADER && DibNumColors(d) > (DibBitsOffset(d) - off) / EntrySize(d)
    ensures Repair(d, off) == Repaired(ShrunkTable(d, DibNumColors(d) - (DibBitsOffset(d) - off) / EntrySize(d)), off)
  {
  }

  lemma RepairGrows(d: seq<byte>, off: u32)
    requires Headed(d) && off <= |d| && GrowsTable(d, off)
    ensures var packed := DibBitsOffset(d);
            Repair(d, off)
            == Repaired(d[..off] + GrayEntries((packed - off) / EntrySize(d), EntrySize(d), packed - off) + d[off..], packed)
    ensures off < DibBitsOffset(d)
            && ((DibBitsOffset(d) - off) / EntrySize(d)) * EntrySize(d) <= DibBitsOffset(d) - off
  {
    QuotientTimesBelow(DibBitsOffset(d) - off, EntrySize(d));
  }

  /** The repair when the bits overlap a colour table that has entries:
      ClrUsed is lowered, or the table is completed with grayscale entries. */
  method RepairOverlap(a: array<byte>, off: u32) returns (block: array<byte>, newOff: u32)
    requires Headed(a[..]) && 0 < off < DibBitsOffset(a[..]) && off <= a.Length && DibNumColors(a[..]) > 0
    requires GrowsTable(a[..], off) ==> a.Length + (DibBitsOffset(a[..]) - off) < TWO32
    modifies a
    ensures block == a || fresh(block)
    ensures Repair(old(a[..]), off) == Repaired(block[..], newOff)
  {
    if GrowsTable(a[..], off) {
      block, newOff := GrowOverlap(a, off);
    } else {
      ShrinkOverlap(a, off);
      block, newOff := a, off;
    }
  }

  /** Lowering ClrUsed by the overlapped entries, in place. */
  method ShrinkOverlap(a: array<byte>, off: u32)
    requires Headed(a[..]) && 0 < off < DibBitsOffset(a[..]) && off <= a.Length && DibNumColors(a[..]) > 0
    requires !GrowsTable(a[..], off)
    modifies a
    ensures Repair(old(a[..]), off) == Repaired(a[..], off)
  {
    var d := a[..];
    var k := (DibBitsOffset(d) - off) / EntrySize(d);
    RepairShrinks(d, off);
    ShrinkTable(a, DibNumColors(d) - k);
  }

  /** Completing the colour table in a new block. */
  method GrowOverlap(a: array<byte>, off: u32) returns (block: array<byte>, newOff: u32)
    requires Headed(a[..]) && off <= a.Length && GrowsTable(a[..], off)
    ensures fresh(block)
    ensures Repair(a[..], off) == Repaired(block[..], newOff)
  {
    var d := a[..];
    var packed := DibBitsOffset(d);
    var entry := EntrySize(d);
    var k := (packed - off) / entry;
    RepairGrows(d, off);
    block := GrowTable(a, off, packed, entry, k);
    newOff := packed;
  }

  /** The checkpoints after sanitising, the repair and the final checks, on
      a memory block. */
  method CheckAndRepairInPlace(a: array<byte>, off: u32, shown: bool)
    returns (failure: Option<Failure>, block: array<byte>)
    requires Headed(a[..]) && a.Length < TWO32
    modifies a
    ensures block == a || fresh(block)
    ensures var r := CheckAndRepair(old(a[..]), off, shown);
            match r
            case Failed(why) => failure == Some(why)
            case Parsed(dib) => failure.None? && block[..] == dib
  {
    block := a;
    var packed := DibBitsOffset(a[..]);
    if MasksMissing(a[..]) || PaletteMissing(a[..]) || EffectiveOffset(off, packed) > a.Length {
      return Some(Corrupted), a;
    }
    if GrowsTable(a[..], off) && a.Length + (packed - off) >= TWO32 {
      return Some(TooLarge), a;
    }
    var newOff;
    block, newOff := RepairInPlace(a, off);
    var eff := EffectiveOffset(newOff, packed);
    if !Headed(block[..]) || BitsCropped(block[..], eff) || ProfileOutside(block[..]) {
      failure := Some(Corrupted);
    } else if EmbeddedProfileBad(block[..]) {
      failure := Some(Corrupted);
    } else if shown {
      failure := None;
    } else {
      failure := Some(NotDisplayable);
    }
  }

  /** ParseDIBitmap: the checks, the sanitising and the repair of a DIB block
      in memory, with the bits offset its file declared (0 for none). It
      fails as `Examine` does, and otherwise leaves in `block` the repaired
      DIB that is shown. */
  method ParseDIBitmap(dib: array<byte>, offBits: u32, supported: bool)
    returns (failure: Option<Failure>, block: array<byte>)
    requires dib.Length == 0 || dib.Length >= 4
    requires dib.Length < TWO32
    modifies dib
    ensures block == dib || fresh(block)
    ensures var r := Examine(old(dib[..]), offBits, supported);
            match r
            case Failed(why) => failure == Some(why)
            case Parsed(d) => failure.None? && block[..] == d
  {
    block := dib;
    if dib.Length == 0 {
      return Some(NoData), dib;
    }
    var hs := HeaderSize(dib[..]);
    if hs > dib.Length {
      return Some(Corrupted), dib;
    }
    if !KnownHeaderSize(hs) {
      failure := if hs < 16 then Some(Corrupted) else Some(UnsupportedHeaderSize);
      return;
    }
    ghost var b := dib[..];
    var displayable, passthrough := SanitizeInPlace(dib, supported);
    SanitizeEffect(b, supported);
    failure, block := CheckAndRepairInPlace(dib, offBits, displayable || passthrough);
  }

  // ---------------------------------------------------------------------------
  // The DWORD sums of the final checks

  /** A 40-byte info header with a compressed image whose SizeImage is
      0xFFFFFFF0: the sum with the bits offset 40 wraps to 24. */
  function CropExample(): (d: seq<byte>)
    ensures |d| == 40
  {
    [40, 0, 0, 0, 1, 0, 0, 0, 1, 0, 0, 0, 1, 0, 16, 0, 1, 0, 0, 0, 0xF0, 0xFF, 0xFF, 0xFF] + Zeros(16)
  }

  lemma CropExampleFields()
    ensures Headed(CropExample()) && HeaderSize(CropExample()) == INFO_HEADER
    ensures Width(CropExample()) == 1 && Height(CropExample()) == 1 && Planes(CropExample()) == 1
    ensures BitCount(CropExample()) == 16 && Compression(CropExample()) == 1
    ensures SizeImage(CropExample()) == 0xFFFF_FFF0 && ClrUsed(CropExample()) == 0
  {
    var d := CropExample();
    assert d[..24] == [40, 0, 0, 0, 1, 0, 0, 0, 1, 0, 0, 0, 1, 0, 16, 0, 1, 0, 0, 0, 0xF0, 0xFF, 0xFF, 0xFF];
    assert d[32..40] == Zeros(8);
  }

  /** The crop check as written lets this block through, although its bits
      run four gigabytes past its end; the model reports it corrupted. */
  lemma CropCheckWraps()
    ensures Headed(CropExample())
    ensures !BitsCroppedAsWritten(CropExample(), 40) && BitsCropped(CropExample(), 40)
    ensures Examine(CropExample(), 0, true) == Failed(Corrupted)
  {
    var d := CropExample();
    CropExampleFields();
    assert DibImageSize(d, false) == 0xFFFF_FFF0;
    assert DibNumColors(d) == 0 && DibBitsOffset(d) == 40;
    assert U32(40 + 0xFFFF_FFF0) == 0x18 by {
      DivUnique(40 + 0xFFFF_FFF0, TWO32, 1, 0x18);
    }
    assert Sanitize(d, true).dib == d by {
      assert FixWidth(d) == d;
      assert !SizeImageFixed(d);
    }
  }

  /** A V5 header with a linked profile at 0xFFFFFFF0 of 0x20 bytes, followed
      by four bytes of pixels: the profile sum wraps to 16. */
  function ProfileExample(): (d: seq<byte>)
    ensures |d| == 128
  {
    [124, 0, 0, 0, 1, 0, 0, 0, 1, 0, 0, 0, 1, 0, 24, 0] + Zeros(40)
    + [0x4B, 0x4E, 0x49, 0x4C] + Zeros(52)
    + [0xF0, 0xFF, 0xFF, 0xFF, 0x20, 0, 0, 0] + Zeros(8)
  }

  lemma ProfileExampleFields()
    ensures Headed(ProfileExample()) && HeaderSize(ProfileExample()) == V5_HEADER
    ensures Width(ProfileExample()) == 1 && Height(ProfileExample()) == 1 && Planes(ProfileExample()) == 1
    ensures BitCount(ProfileExample()) == 24 && Compression(ProfileExample()) == 0
    ensures SizeImage(ProfileExample()) == 0 && ClrUsed(ProfileExample()) == 0
    ensures CSType(ProfileExample()) == PROFILE_LINKED
    ensures ProfileData(ProfileExample()) == 0xFFFF_FFF0 && ProfileSize(ProfileExample()) == 0x20
  {
    var d := ProfileExample();
    assert d[..16] == [124, 0, 0, 0, 1, 0, 0, 0, 1, 0, 0, 0, 1, 0, 24, 0];
    assert d[16..56] == Zeros(40);
    assert d[56..60] == [0x4B, 0x4E, 0x49, 0x4C];
    assert d[112..120] == [0xF0, 0xFF, 0xFF, 0xFF, 0x20, 0, 0, 0];
  }

  /** The profile check as written lets this block through, and the file
      name of the linked profile would then be read four gigabytes past the
      block; the model reports it corrupted. */
  lemma ProfileCheckWraps()
    ensures Headed(ProfileExample())
    ensures !ProfileOutsideAsWritten(ProfileExample()) && ProfileOutside(ProfileExample())
    ensures Examine(ProfileExample(), 0, true) == Failed(Corrupted)
  {
    var d := ProfileExample();
    ProfileExampleFields();
    assert DibHasColorProfile(d);
    assert U32(ProfileData(d) + ProfileSize(d)) == 0x10;
    ProfileExampleExamined();
  }

  lemma ProfileExampleExamined()
    requires Headed(ProfileExample()) && ProfileOutside(ProfileExample())
    ensures Examine(ProfileExample(), 0, true) == Failed(Corrupted)
  {
    var d := ProfileExample();
    ProfileExampleFields();
    assert DibNumColors(d) == 0 && !ProfileBeforeBits(d) && DibBitsOffset(d) == 124;
    assert InfoBitsSize64(d) == 4;
    assert Sanitize(d, true).displayable;
    assert CheckAndRepair(d, 0, true) == Failed(Corrupted) by {
      assert !MasksMissing(d) && !PaletteMissing(d);
      assert Repair(d, 0).dib == d;
    }
    assert Sanitize(d, true).dib == d by {
      assert FixWidth(d) == d;
      assert !SizeImageFixed(d);
    }
  }

  // ---------------------------------------------------------------------------
  // ParseBitmap: the file wrapper

  /** 'BA' read as a little-endian WORD: an OS/2 bitmap array. */
  const BFT_BITMAPARRAY: u16 := 0x4142
  /** Offset of offNext in BITMAPARRAYFILEHEADER. */
  const OFF_OFFNEXT: nat := 6

  /** What ParseBitmap makes of a whole file. A bitmap array is accepted only
      when it holds a single bitmap; its own 14-byte header is then followed
      by the file header of that bitmap. The DIB is the rest of the file, and
      the declared bits offset, when it lies beyond the headers, is passed on
      relative to the DIB. */
  function ParseBitmapFile(f: seq<byte>, supported: bool): (r: Parse)
    requires |f| < TWO32
    ensures |f| < FILE_HEADER_SIZE ==> r == Failed(Corrupted)
    ensures r == Failed(BitmapArray) <==>
              |f| >= FILE_HEADER_SIZE && LE16(f, 0) == BFT_BITMAPARRAY && LE32(f, OFF_OFFNEXT) != 0
    ensures r != Failed(NoData)
    ensures r.Parsed? ==>
              var hdr := if LE16(f, 0) == BFT_BITMAPARRAY then 2 * FILE_HEADER_SIZE else FILE_HEADER_SIZE;
              |f| >= hdr + CORE_HEADER
              && (hdr == 2 * FILE_HEADER_SIZE ==> LE32(f, OFF_OFFNEXT) == 0 && LE16(f, FILE_HEADER_SIZE) == BFT_BITMAP)
  {
    if |f| < FILE_HEADER_SIZE then Failed(Corrupted)
    else if LE16(f, 0) == BFT_BITMAPARRAY && LE32(f, OFF_OFFNEXT) != 0 then Failed(BitmapArray)
    else if LE16(f, 0) == BFT_BITMAPARRAY && |f| < 2 * FILE_HEADER_SIZE then Failed(Corrupted)
    else if LE16(f, 0) == BFT_BITMAPARRAY && LE16(f, FILE_HEADER_SIZE) != BFT_BITMAP then Failed(IconOrPointer)
    else
      var hdr := if LE16(f, 0) == BFT_BITMAPARRAY then 2 * FILE_HEADER_SIZE else FILE_HEADER_SIZE;
      if |f| - hdr < CORE_HEADER then Failed(Corrupted)
      else FileDib(f, hdr, supported)
  }

  /** The DIB behind `hdr` bytes of file headers, examined with the bits
      offset the last file header declares, made relative to the DIB when it
      lies beyond the headers. */
  function FileDib(f: seq<byte>, hdr: nat, supported: bool): Parse
    requires 4 <= hdr && hdr + CORE_HEADER <= |f| < TWO32
  {
    var offBits := LE32(f, hdr - 4);
    Examine(f[hdr..], if offBits > hdr then offBits - hdr else 0, supported)
  }

  /** Sanitising leaves the bits offset alone: it writes only the width and
      SizeImage, and neither enters the offset. */
  lemma SanitizeKeepsBitsOffset(b: seq<byte>, supported: bool)
    requires Headed(b)
    ensures Headed(Sanitize(b, supported).dib)
    ensures DibBitsOffset(Sanitize(b, supported).dib) == DibBitsOffset(b)
  {
    SanitizeEffect(b, supported);
    if !IsOs2PmDib(b) {
      var b1 := FixWidth(b);
      var r := FixSizeImage(b1);
      FixWidthEffect(b);
      FixSizeImageEffect(b1);
      if Width(b) < 0 {
        PutV5Frame(b, OFF_WIDTH, U32(-Width(b)));
      }
      if SizeImageFixed(b1) {
        PutV5Frame(b1, OFF_SIZEIMAGE, InfoBitsSize64(b1));
      }
      OffsetFromFields(b, b1);
      OffsetFromFields(b1, r);
    }
  }

  /** Two info-family headers of one size that agree on the fields the
      colour table and masks depend on, and on the profile fields, put the
      bits at the same offset. */
  lemma OffsetFromFields(a: seq<byte>, b: seq<byte>)
    requires Headed(a) && Headed(b) && HeaderSize(a) == HeaderSize(b) && !IsOs2PmDib(a)
    requires BitCount(a) == BitCount(b) && ClrUsed(a) == ClrUsed(b) && Compression(a) == Compression(b)
    requires IsWin50Dib(a) ==> ProfileData(a) == ProfileData(b) && ProfileSize(a) == ProfileSize(b)
    ensures DibBitsOffset(a) == DibBitsOffset(b)
  {
    assert DibNumColors(a) == DibNumColors(b);
    assert ColorMasksSize(a) == ColorMasksSize(b);
    assert PackedBitsOffset(a) == PackedBitsOffset(b);
    BitsOffsetFromParts(a, b);
  }

  /** Writing a DWORD inside the first 40 bytes keeps the V5 profile fields. */
  lemma PutV5Frame(b: seq<byte>, off: nat, v: u32)
    requires off + 4 <= INFO_HEADER && |b| >= INFO_HEADER
    ensures var c := PutLE32(b, off, v);
            |c| >= V5_HEADER ==> CSType(c) == CSType(b) && ProfileData(c) == ProfileData(b)
                                 && ProfileSize(c) == ProfileSize(b)
  {
    if |b| >= V5_HEADER {
      PutLE32Elsewhere(b, off, v, OFF_CSTYPE);
      PutLE32Elsewhere(b, off, v, OFF_PROFILEDATA);
      PutLE32Elsewhere(b, off, v, OFF_PROFILESIZE);
    }
  }

  /** Declaring the packed offset is the same as declaring none. */
  lemma ExamineAtPackedOffset(b: seq<byte>, supported: bool)
    requires Headed(b) && |b| < TWO32
    ensures Examine(b, DibBitsOffset(b), supported) == Examine(b, 0, supported)
  {
    if HeaderCheck(b).None? {
      SanitizeKeepsBitsOffset(b, supported);
    }
  }

  /** A DIB saved whole by SaveBitmap reads back from its file exactly as the
      DIB block itself would, without a declared offset. */
  lemma SavedFileParses(d: seq<byte>, supported: bool)
    requires Headed(d) && SavedDibSize(d) == |d|
    requires |d| + FILE_HEADER_SIZE < TWO32 && DibBitsOffset(d) + FILE_HEADER_SIZE < TWO32
    ensures SavedFile(d) == Some(FileHeader(d) + d)
    ensures ParseBitmapFile(FileHeader(d) + d, supported) == Examine(d, 0, supported)
  {
    assert d[..|d|] == d;
    var f := FileHeader(d) + d;
    SavedFileHeader(d);
    SingleBitmapFile(f, supported);
    assert FileDib(f, FILE_HEADER_SIZE, supported) == Examine(d, DibBitsOffset(d), supported);
    ExamineAtPackedOffset(d, supported);
  }

  /** The saved file starts with a single bitmap's header that declares the
      bits at the packed offset behind it, and the DIB follows it. */
  lemma SavedFileHeader(d: seq<byte>)
    requires Headed(d) && DibBitsOffset(d) + FILE_HEADER_SIZE < TWO32
    ensures var f := FileHeader(d) + d;
            LE16(f, 0) == BFT_BITMAP && LE32(f, OFF_BFOFFBITS) == DibBitsOffset(d) + FILE_HEADER_SIZE
            && f[FILE_HEADER_SIZE..] == d
  {
    var h := FileHeader(d);
    var f := h + d;
    FileHeaderFields(d);
    assert f[..FILE_HEADER_SIZE] == h;
    LE16Local(f, h, 0);
    LE32Local(f, h, 10);
  }

  /** A file with a single bitmap's header is parsed as the DIB behind the
      header, with the declared offset made relative to it. */
  lemma SingleBitmapFile(f: seq<byte>, supported: bool)
    requires FILE_HEADER_SIZE + CORE_HEADER <= |f| < TWO32 && LE16(f, 0) == BFT_BITMAP
    ensures ParseBitmapFile(f, supported) == FileDib(f, FILE_HEADER_SIZE, supported)
  {
    assert LE16(f, 0) != BFT_BITMAPARRAY;
    assert |f| - FILE_HEADER_SIZE >= CORE_HEADER;
  }
}
