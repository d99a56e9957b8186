/** SaveBitmap: the BITMAPFILEHEADER written in front of a packed DIB, and how
    many bytes of the DIB follow it in the file. All sizes are DWORDs, so the
    sums wrap modulo 2^32 as they do in the source. */
module DibSave {
  import opened Bytes
  import opened DibGeometry
  import opened DibLayouts

  // Field offsets of BITMAPFILEHEADER
  const OFF_BFTYPE: nat := 0
  const OFF_BFSIZE: nat := 2
  const OFF_BFRESERVED1: nat := 6
  const OFF_BFRESERVED2: nat := 8
  const OFF_BFOFFBITS: nat := 10

  /** The number of DIB bytes SaveBitmap writes: the bits offset plus the
      image size, stretched up to ProfileData when a profile starts beyond
      that, plus the profile size unless the profile ends exactly where the
      bits start (that is, unless it lies between colour table and bits). */
  function SavedDibSize(b: seq<byte>): (r: u32)
    requires Headed(b)
    ensures !DibHasColorProfile(b) ==> r == U32(DibBitsOffset(b) + DibImageSize(b, false))
    ensures DibHasColorProfile(b) && U32(ProfileData(b) + ProfileSize(b)) == DibBitsOffset(b) ==>
              r >= U32(DibBitsOffset(b) + DibImageSize(b, false))
    ensures DibHasColorProfile(b) && DibBitsOffset(b) + DibImageSize(b, false) < ProfileData(b)
              && ProfileData(b) + ProfileSize(b) < TWO32
            ==> r == ProfileData(b) + ProfileSize(b)
  {
    var off := DibBitsOffset(b);
    var size := U32(off + DibImageSize(b, false));
    if !DibHasColorProfile(b) then size
    else
      var stretched := if ProfileData(b) > size then ProfileData(b) else size;
      if U32(ProfileData(b) + ProfileSize(b)) != off then U32(stretched + ProfileSize(b)) else stretched
  }

  /** The 14-byte BITMAPFILEHEADER: 'BM', the file size, two zero reserved
      WORDs and the offset of the bits in the file. */
  function FileHeader(b: seq<byte>): (r: seq<byte>)
    requires Headed(b)
    ensures |r| == FILE_HEADER_SIZE
  {
    var h1 := PutLE16(Zeros(FILE_HEADER_SIZE), OFF_BFTYPE, BFT_BITMAP);
    var h2 := PutLE32(h1, OFF_BFSIZE, U32(SavedDibSize(b) + FILE_HEADER_SIZE));
    PutLE32(h2, OFF_BFOFFBITS, U32(DibBitsOffset(b) + FILE_HEADER_SIZE))
  }

  /** The bytes of the saved file, or None when the DIB block is shorter than
      the size to be written (WriteFile would fail on the unreadable rest and
      SaveBitmap deletes the file). */
  function SavedFile(b: seq<byte>): (r: Option<seq<byte>>)
    requires Headed(b)
    ensures r.Some? <==> SavedDibSize(b) <= |b|
    ensures r.Some? ==> |r.value| == FILE_HEADER_SIZE + SavedDibSize(b)
                        && r.value[FILE_HEADER_SIZE..] == b[..SavedDibSize(b)]
  {
    if SavedDibSize(b) <= |b| then Some(FileHeader(b) + b[..SavedDibSize(b)]) else None
  }

  /** The file header reads back as 'B','M', the saved size plus 14, zero
      reserved words and the bits offset plus 14. */
  lemma FileHeaderFields(b: seq<byte>)
    requires Headed(b)
    ensures var h := FileHeader(b);
            h[0] == 'B' as int && h[1] == 'M' as int && LE16(h, OFF_BFTYPE) == BFT_BITMAP
            && LE32(h, OFF_BFSIZE) == U32(SavedDibSize(b) + FILE_HEADER_SIZE)
            && LE16(h, OFF_BFRESERVED1) == 0 && LE16(h, OFF_BFRESERVED2) == 0
            && LE32(h, OFF_BFOFFBITS) == U32(DibBitsOffset(b) + FILE_HEADER_SIZE)
  {
    var z := Zeros(FILE_HEADER_SIZE);
    var h1 := PutLE16(z, OFF_BFTYPE, BFT_BITMAP);
    var h2 := PutLE32(h1, OFF_BFSIZE, U32(SavedDibSize(b) + FILE_HEADER_SIZE));
    var h := FileHeader(b);
    PutLE16Keeps(z, OFF_BFTYPE, BFT_BITMAP);
    PutLE32Keeps(h1, OFF_BFSIZE, U32(SavedDibSize(b) + FILE_HEADER_SIZE));
    PutLE32Keeps(h2, OFF_BFOFFBITS, U32(DibBitsOffset(b) + FILE_HEADER_SIZE));
    assert h[0] == h1[0] && h[1] == h1[1];
    assert h[6] == 0 && h[7] == 0 && h[8] == 0 && h[9] == 0;
    PutLE32Elsewhere(h2, OFF_BFOFFBITS, U32(DibBitsOffset(b) + FILE_HEADER_SIZE), OFF_BFSIZE);
  }

  /** Without a profile the whole of header, colour table and bits is saved;
      with one, the size covers the profile too, wherever it lies, unless it
      sits between the colour table and the bits (then it is already inside
      the bits offset). Stated where no DWORD sum wraps. */
  lemma SavedDibSizeCovers(b: seq<byte>)
    requires Headed(b) && DibBitsOffset(b) + DibImageSize(b, false) < TWO32
    requires DibHasColorProfile(b) ==>
               DibBitsOffset(b) + DibImageSize(b, false) + ProfileData(b) + ProfileSize(b) < TWO32
    ensures var end := DibBitsOffset(b) + DibImageSize(b, false);
            !DibHasColorProfile(b) ==> SavedDibSize(b) == end
    ensures var end := DibBitsOffset(b) + DibImageSize(b, false);
            DibHasColorProfile(b) && ProfileData(b) + ProfileSize(b) != DibBitsOffset(b) ==>
              SavedDibSize(b) == (if ProfileData(b) > end then ProfileData(b) else end) + ProfileSize(b)
    ensures DibHasColorProfile(b) && ProfileData(b) + ProfileSize(b) == DibBitsOffset(b) ==>
              SavedDibSize(b) == DibBitsOffset(b) + DibImageSize(b, false)
    ensures DibHasColorProfile(b) ==> SavedDibSize(b) >= ProfileData(b) + ProfileSize(b)
  {
  }

  /** A DIB in the file layout (profile behind the bits) is saved whole. */
  lemma SaveFileLayoutWhole(d: seq<byte>)
    requires Headed(d) && ProfileAfterBitsLayout(d) && |d| < TWO32
    ensures SavedDibSize(d) == |d|
    ensures SavedFile(d) == Some(FileHeader(d) + d)
  {
    FileLayoutFits(d);
    assert d[..|d|] == d;
  }

  /** A DIB in the clipboard layout (profile between colour table and bits)
      is saved whole too. */
  lemma SaveClipboardLayoutWhole(c: seq<byte>)
    requires Headed(c) && ProfileBeforeBitsLayout(c) && |c| < TWO32
    ensures SavedDibSize(c) == |c|
    ensures SavedFile(c) == Some(FileHeader(c) + c)
  {
    ClipLayoutFits(c);
    assert c[..|c|] == c;
  }

  /** The size computation of SaveBitmap, step by step in DWORDs. */
  method ComputeSavedDibSize(dib: seq<byte>) returns (dibSize: u32)
    requires Headed(dib)
    ensures dibSize == SavedDibSize(dib)
  {
    var offBits := DibBitsOffset(dib);
    dibSize := U32(offBits + DibImageSize(dib, false));
    if DibHasColorProfile(dib) {
      var pd := ProfileData(dib);
      if pd > dibSize {
        dibSize := U32(dibSize + (pd - dibSize));
      }
      if U32(pd + ProfileSize(dib)) != offBits {
        dibSize := U32(dibSize + ProfileSize(dib));
      }
    }
  }

  /** Fills a zeroed BITMAPFILEHEADER buffer. */
  method FillFileHeader(hdr: array<byte>, dibSize: u32, offBits: u32)
    requires hdr.Length == FILE_HEADER_SIZE && hdr[..] == Zeros(FILE_HEADER_SIZE)
    modifies hdr
    ensures hdr[..] == PutLE32(PutLE32(PutLE16(Zeros(FILE_HEADER_SIZE), OFF_BFTYPE, BFT_BITMAP),
                                       OFF_BFSIZE, U32(dibSize + FILE_HEADER_SIZE)),
                               OFF_BFOFFBITS, U32(offBits + FILE_HEADER_SIZE))
  {
    WriteLE16(hdr, OFF_BFTYPE, BFT_BITMAP);
    WriteLE32(hdr, OFF_BFSIZE, U32(dibSize + FILE_HEADER_SIZE));
    WriteLE32(hdr, OFF_BFOFFBITS, U32(offBits + FILE_HEADER_SIZE));
  }

  /** SaveBitmap: the bytes written to the file, header first, or None where
      the write fails. */
  method SaveBitmap(dib: seq<byte>) returns (file: Option<seq<byte>>)
    requires Headed(dib)
    ensures file == SavedFile(dib)
  {
    var dibSize := ComputeSavedDibSize(dib);
    var hdr := new byte[FILE_HEADER_SIZE](_ => 0);
    assert hdr[..] == Zeros(FILE_HEADER_SIZE);
    FillFileHeader(hdr, dibSize, DibBitsOffset(dib));
    if dibSize > |dib| {
      return None;
    }
    file := Some(hdr[..] + dib[..dibSize]);
  }
}
