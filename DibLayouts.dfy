/** Buffer re-layouts of the DIB API: copying a DIB, moving an ICC profile
    between the clipboard layout (profile right after the colour table) and
    the file layout (profile after the pixel bits), upgrading or downgrading
    header variants for the clipboard, and the BITMAPFILEHEADER written in
    front of a DIB when it is saved.

    Each operation is a function on the source bytes that gives the new block
    (None where the source gives up, or where a copy would read beyond the
    source block), and a method that builds that block in a new array the way
    the source does: allocate, copy blocks, patch header fields. */
module DibLayouts {
  import opened Bytes
  import opened DibGeometry

  // Clipboard formats
  const CF_DIB: int := 8
  const CF_DIBV5: int := 17

  const FILE_HEADER_SIZE: nat := 14

  /** Header plus colour table: the profile or the bits of a clipboard DIB start here. */
  function InfoSize(b: seq<byte>): nat
    requires Headed(b)
  {
    HeaderSize(b) + PaletteSize(b)
  }

  // ---------------------------------------------------------------------------
  // CreateDibFromClipboardDib: profile moved behind the pixel bits

  /** The parts a profile re-layout copies lie inside the block: the total
      size check of the source, plus the two reads that the source leaves to
      its fault barrier (the bits and the profile data themselves). */
  predicate ProfilePartsFit(src: seq<byte>)
    requires Headed(src) && DibHasColorProfile(src)
  {
    DibImageSize(src, false) + InfoSize(src) + ProfileSize(src) <= |src|
    && DibBitsOffset(src) + DibImageSize(src, false) <= |src|
    && ProfileData(src) + ProfileSize(src) <= |src|
  }

  /** The header and colour table of a block, followed by two of its parts,
      with the DWORD at ProfileData set to v: the shape of both profile
      re-layouts (allocate, copy three blocks, patch one header field). */
  function Relayout(src: seq<byte>, info: nat, p: nat, np: nat, q: nat, nq: nat, v: u32): (r: seq<byte>)
    requires OFF_PROFILESIZE <= info <= |src| && p + np <= |src| && q + nq <= |src|
    ensures |r| == info + np + nq
  {
    var steps := [Copy(0, OFF_PROFILEDATA), Put(LE32Bytes(v)), Copy(OFF_PROFILESIZE, info - OFF_PROFILESIZE), Copy(p, np), Copy(q, nq)];
    GatherFive(src, steps);
    Gather(src, steps)
  }

  /** One step of building a block: copy len bytes of the source from
      offset at, or put the given bytes. */
  datatype Step = Copy(at: nat, len: nat) | Put(bytes: seq<byte>)

  predicate StepFits(src: seq<byte>, s: Step)
  {
    s.Copy? ==> s.at + s.len <= |src|
  }

  function Piece(src: seq<byte>, s: Step): (r: seq<byte>)
    requires StepFits(src, s)
  {
    match s
    case Copy(at, len) => src[at..at + len]
    case Put(bytes) => bytes
  }

  /** The block the steps build, in order. */
  function Gather(src: seq<byte>, steps: seq<Step>): (r: seq<byte>)
    requires forall i :: 0 <= i < |steps| ==> StepFits(src, steps[i])
  {
    if steps == [] then [] else Piece(src, steps[0]) + Gather(src, steps[1..])
  }

  lemma GatherFive(src: seq<byte>, steps: seq<Step>)
    requires |steps| == 5 && forall i :: 0 <= i < |steps| ==> StepFits(src, steps[i])
    ensures Gather(src, steps) == Piece(src, steps[0]) + Piece(src, steps[1]) + Piece(src, steps[2])
                                  + Piece(src, steps[3]) + Piece(src, steps[4])
  {
    assert Gather(src, steps[4..]) == Piece(src, steps[4]) by { assert steps[4..][1..] == []; }
    assert Gather(src, steps[3..]) == Piece(src, steps[3]) + Piece(src, steps[4]) by { assert steps[3..][1..] == steps[4..]; }
    assert Gather(src, steps[2..]) == Piece(src, steps[2]) + Piece(src, steps[3]) + Piece(src, steps[4]) by { assert steps[2..][1..] == steps[3..]; }
    assert Gather(src, steps[1..]) == Piece(src, steps[1]) + Piece(src, steps[2]) + Piece(src, steps[3]) + Piece(src, steps[4]) by { assert steps[1..][1..] == steps[2..]; }
  }

  /** Header and colour table, pixel bits, then the profile, with ProfileData
      pointing behind the bits. */
  function ProfileLast(src: seq<byte>): (r: seq<byte>)
    requires Headed(src) && DibHasColorProfile(src) && ProfilePartsFit(src)
    ensures |r| == InfoSize(src) + DibImageSize(src, false) + ProfileSize(src) <= |src|
  {
    var info := InfoSize(src);
    var img := DibImageSize(src, false);
    Relayout(src, info, DibBitsOffset(src), img, ProfileData(src), ProfileSize(src), U32(info + img))
  }

  /** The DIB with its profile placed after the pixel bits, or the unchanged
      DIB when it has no profile; None when the parts exceed the block. */
  function DibFromClipboard(src: seq<byte>): (r: Option<seq<byte>>)
    requires Headed(src)
    ensures r.None? <==> DibHasColorProfile(src) && !ProfilePartsFit(src)
    ensures !DibHasColorProfile(src) ==> r == Some(src)
    ensures r.Some? && DibHasColorProfile(src) ==>
              |r.value| == InfoSize(src) + DibImageSize(src, false) + ProfileSize(src) <= |src|
  {
    if !DibHasColorProfile(src) then Some(src)
    else if !ProfilePartsFit(src) then None
    else Some(ProfileLast(src))
  }

  // ---------------------------------------------------------------------------
  // CreateClipboardDib

  datatype Clip = Clip(bytes: seq<byte>, format: int)

  /** CF_DIBV5 for headers beyond BITMAPINFOHEADER, except the OS/2 2.x one. */
  function ClipboardFormat(headerSize: int): (r: int)
    ensures r == CF_DIBV5 <==> headerSize > INFO_HEADER && headerSize != OS2_V2_HEADER
    ensures r == CF_DIB || r == CF_DIBV5
  {
    if headerSize > INFO_HEADER && headerSize != OS2_V2_HEADER then CF_DIBV5 else CF_DIB
  }

  /** RGBTRIPLEs widened to RGBQUADs with a zero reserved byte. */
  function WidenTriples(t: seq<byte>): (r: seq<byte>)
    requires |t| % 3 == 0
    ensures |r| == |t| / 3 * 4
  {
    seq(|t| / 3 * 4, k requires 0 <= k < |t| / 3 * 4 => if k % 4 == 3 then 0 else t[3 * (k / 4) + k % 4])
  }

  /** RGBQUADs narrowed to RGBTRIPLEs, dropping the reserved byte. */
  function NarrowQuads(q: seq<byte>): (r: seq<byte>)
    requires |q| % 4 == 0
    ensures |r| == |q| / 4 * 3
  {
    seq(|q| / 4 * 3, k requires 0 <= k < |q| / 4 * 3 => q[4 * (k / 3) + k % 3])
  }

  /** Widening keeps every colour and only adds the reserved byte. */
  lemma WidenThenNarrow(t: seq<byte>)
    requires |t| % 3 == 0
    ensures NarrowQuads(WidenTriples(t)) == t
    ensures forall i | 0 <= i < |t| / 3 :: WidenTriples(t)[4 * i + 3] == 0
  {
    var w := WidenTriples(t);
    var r := NarrowQuads(w);
    assert |r| == |t|;
    forall k | 0 <= k < |t|
      ensures r[k] == t[k]
    {
      var i := k / 3;
      var j := k % 3;
      assert k == 3 * i + j;
      assert (4 * i + j) / 4 == i && (4 * i + j) % 4 == j;
    }
    forall i | 0 <= i < |t| / 3
      ensures w[4 * i + 3] == 0
    {
      assert (4 * i + 3) % 4 == 3;
    }
  }

  /** A zeroed BITMAPINFOHEADER with its size, width, height, planes, bit
      count, image size and colour count filled in, in the order the source
      stores them. */
  function InfoHeaderBytes(w: u32, h: u32, planes: u16, bits: u16, img: u32, colors: u32): (r: seq<byte>)
    ensures |r| == INFO_HEADER
  {
    var h1 := PutLE32(Zeros(INFO_HEADER), 0, INFO_HEADER);
    var h2 := PutLE32(h1, OFF_WIDTH, w);
    var h3 := PutLE32(h2, OFF_HEIGHT, h);
    var h4 := PutLE16(h3, OFF_PLANES, planes);
    var h5 := PutLE16(h4, OFF_BITCOUNT, bits);
    var h6 := PutLE32(h5, OFF_SIZEIMAGE, img);
    PutLE32(h6, OFF_CLRUSED, colors)
  }

  /** Every field of the built header reads back as written, and the fields
      left alone (compression, resolution, ClrImportant) are zero. */
  lemma InfoHeaderFields(w: u32, h: u32, planes: u16, bits: u16, img: u32, colors: u32)
    ensures var r := InfoHeaderBytes(w, h, planes, bits, img, colors);
            LE32(r, 0) == INFO_HEADER && LE32(r, OFF_WIDTH) == w && LE32(r, OFF_HEIGHT) == h
            && LE16(r, OFF_PLANES) == planes && LE16(r, OFF_BITCOUNT) == bits
            && LE32(r, OFF_COMPRESSION) == BI_RGB && LE32(r, OFF_SIZEIMAGE) == img
            && LE32(r, OFF_CLRUSED) == colors && LE32(r, OFF_CLRIMPORTANT) == 0
  {
    var z := Zeros(INFO_HEADER);
    var h1 := PutLE32(z, 0, INFO_HEADER);
    var h2 := PutLE32(h1, OFF_WIDTH, w);
    var h3 := PutLE32(h2, OFF_HEIGHT, h);
    var h4 := PutLE16(h3, OFF_PLANES, planes);
    var h5 := PutLE16(h4, OFF_BITCOUNT, bits);
    var h6 := PutLE32(h5, OFF_SIZEIMAGE, img);
    var r := PutLE32(h6, OFF_CLRUSED, colors);
    // the size
    PutLE32Elsewhere(h1, OFF_WIDTH, w, 0);
    PutLE32Elsewhere(h2, OFF_HEIGHT, h, 0);
    PutLE16Elsewhere(h3, OFF_PLANES, planes, 0);
    PutLE16Elsewhere(h4, OFF_BITCOUNT, bits, 0);
    PutLE32Elsewhere(h5, OFF_SIZEIMAGE, img, 0);
    PutLE32Elsewhere(h6, OFF_CLRUSED, colors, 0);
    // width and height
    PutLE32Elsewhere(h2, OFF_HEIGHT, h, OFF_WIDTH);
    PutLE16Elsewhere(h3, OFF_PLANES, planes, OFF_WIDTH);
    PutLE16Elsewhere(h3, OFF_PLANES, planes, OFF_HEIGHT);
    PutLE16Elsewhere(h4, OFF_BITCOUNT, bits, OFF_WIDTH);
    PutLE16Elsewhere(h4, OFF_BITCOUNT, bits, OFF_HEIGHT);
    PutLE32Elsewhere(h5, OFF_SIZEIMAGE, img, OFF_WIDTH);
    PutLE32Elsewhere(h5, OFF_SIZEIMAGE, img, OFF_HEIGHT);
    PutLE32Elsewhere(h6, OFF_CLRUSED, colors, OFF_WIDTH);
    PutLE32Elsewhere(h6, OFF_CLRUSED, colors, OFF_HEIGHT);
    // planes and bit count
    PutLE16ElsewhereWord(h4, OFF_BITCOUNT, bits, OFF_PLANES);
    PutLE32ElsewhereWord(h5, OFF_SIZEIMAGE, img, OFF_PLANES);
    PutLE32ElsewhereWord(h5, OFF_SIZEIMAGE, img, OFF_BITCOUNT);
    PutLE32ElsewhereWord(h6, OFF_CLRUSED, colors, OFF_PLANES);
    PutLE32ElsewhereWord(h6, OFF_CLRUSED, colors, OFF_BITCOUNT);
    // image size
    PutLE32Elsewhere(h6, OFF_CLRUSED, colors, OFF_SIZEIMAGE);
    // the zero fields
    forall off | off in {OFF_COMPRESSION, OFF_CLRIMPORTANT}
      ensures LE32(r, off) == 0
    {
      assert LE32(z, off) == 0;
      PutLE32Elsewhere(z, 0, INFO_HEADER, off);
      PutLE32Elsewhere(h1, OFF_WIDTH, w, off);
      PutLE32Elsewhere(h2, OFF_HEIGHT, h, off);
      PutLE16Elsewhere(h3, OFF_PLANES, planes, off);
      PutLE16Elsewhere(h4, OFF_BITCOUNT, bits, off);
      PutLE32Elsewhere(h5, OFF_SIZEIMAGE, img, off);
      PutLE32Elsewhere(h6, OFF_CLRUSED, colors, off);
    }
  }

  /** The built header is a 40-byte uncompressed header without colour masks
      whose colour count is the one a core header with the same bit count
      implies, and whose image size is the one stored or, when that is zero,
      the one the core formula gives. */
  lemma InfoHeaderGeometry(w: u16, h: u16, planes: u16, bits: u16, img: u32)
    ensures var n := EntriesForBitCount(bits);
            var r := InfoHeaderBytes(w, h, planes, bits, img, n);
            Headed(r) && IsWin30Dib(r)
            && Width(r) == w && Height(r) == h && Planes(r) == planes && BitCount(r) == bits
            && Compression(r) == BI_RGB && SizeImage(r) == img && ClrUsed(r) == n && ClrImportant(r) == 0
            && DibNumColors(r) == n && ColorMasksSize(r) == 0 && PaletteSize(r) == 4 * n
            && PackedBitsOffset(r) == DibBitsOffset(r) == INFO_HEADER + 4 * n
            && !DibIsCompressed(r)
            && DibImageSize(r, false)
               == if img != 0 then img else U32(WidthBytesC(I32(w * planes * bits)) * h)
  {
    var n := EntriesForBitCount(bits);
    InfoHeaderFields(w, h, planes, bits, img, n);
  }

  /** The BITMAPINFOHEADER CreateClipboardDib makes from a BITMAPCOREHEADER. */
  function CoreUpgradeHeader(src: seq<byte>): (h: seq<byte>)
    requires Headed(src) && IsOs2PmDib(src)
    ensures |h| == INFO_HEADER
  {
    DibNumColorsBounds(src);
    InfoHeaderBytes(CoreWidth(src), CoreHeight(src), CorePlanes(src), CoreBitCount(src),
                    DibImageSize(src, false), DibNumColors(src))
  }

  /** A core DIB's RGBTRIPLE colour table runs from the header to the bits. */
  lemma CoreTable(src: seq<byte>)
    requires Headed(src) && IsOs2PmDib(src)
    ensures DibBitsOffset(src) == CORE_HEADER + 3 * DibNumColors(src)
    ensures (3 * DibNumColors(src)) % 3 == 0 && (3 * DibNumColors(src)) / 3 * 4 == 4 * DibNumColors(src)
  {
    var n := DibNumColors(src);
    DivUnique(3 * n, 3, n, 0);
    assert PaletteSize(src) == 3 * n;
  }

  /** A core DIB rebuilt with an info header and RGBQUAD colour table. */
  function CoreToInfo(src: seq<byte>): (r: Option<seq<byte>>)
    requires Headed(src) && IsOs2PmDib(src)
    ensures r.None? <==> DibBitsOffset(src) + DibImageSize(src, false) > |src|
    ensures r.Some? ==> DibBitsOffset(src) == CORE_HEADER + 3 * DibNumColors(src)
                        && |r.value| == INFO_HEADER + 4 * DibNumColors(src) + DibImageSize(src, false)
  {
    var n := DibNumColors(src);
    var img := DibImageSize(src, false);
    var bits := DibBitsOffset(src);
    CoreTable(src);
    if bits + img > |src| then None
    else
      var t := src[CORE_HEADER..bits];
      assert |t| == 3 * n;
      Some(CoreUpgradeHeader(src) + WidenTriples(t) + src[bits..bits + img])
  }

  /** Upgrading a core DIB fails exactly when its bits run past the block;
      otherwise it yields a 40-byte header DIB with the same dimensions,
      planes, bit count, colour count and image size, with ClrUsed set to the
      colour count and the bits right behind an RGBQUAD colour table. */
  lemma CoreToInfoHeader(src: seq<byte>)
    requires Headed(src) && IsOs2PmDib(src)
    ensures CoreToInfo(src).Some? ==>
              var r := CoreToInfo(src).value;
              Headed(r) && IsWin30Dib(r)
              && Width(r) == CoreWidth(src) && Height(r) == CoreHeight(src)
              && Planes(r) == CorePlanes(src) && BitCount(r) == CoreBitCount(src)
              && Compression(r) == BI_RGB && ClrUsed(r) == DibNumColors(src)
              && DibNumColors(r) == DibNumColors(src)
              && DibBitsOffset(r) == INFO_HEADER + 4 * DibNumColors(src)
              && DibImageSize(r, false) == DibImageSize(src, false)
              && |r| == DibBitsOffset(r) + DibImageSize(r, false)
  {
    if CoreToInfo(src).Some? {
      var r := CoreToInfo(src).value;
      var hd := CoreUpgradeHeader(src);
      InfoHeaderGeometry(CoreWidth(src), CoreHeight(src), CorePlanes(src), CoreBitCount(src), DibImageSize(src, false));
      assert r[..INFO_HEADER] == hd;
      GeometryFrame(hd, r);
    }
  }

  /** The upgraded colour table holds each RGBTRIPLE widened to an RGBQUAD
      (WidenThenNarrow: narrowing it gives the triples back), and the pixel
      bits follow unchanged. */
  lemma CoreToInfoPayload(src: seq<byte>, n: nat, bits: nat, img: nat)
    requires Headed(src) && IsOs2PmDib(src) && CoreToInfo(src).Some?
    requires n == DibNumColors(src) && bits == DibBitsOffset(src) && img == DibImageSize(src, false)
    ensures bits == CORE_HEADER + 3 * n && bits + img <= |src|
    ensures var r := CoreToInfo(src).value;
            |r| == INFO_HEADER + 4 * n + img
            && r[INFO_HEADER..INFO_HEADER + 4 * n] == WidenTriples(src[CORE_HEADER..bits])
            && r[INFO_HEADER + 4 * n..] == src[bits..bits + img]
  {
    var r := CoreToInfo(src).value;
    var t := src[CORE_HEADER..bits];
    assert |WidenTriples(t)| == 4 * n;
    assert r[INFO_HEADER..INFO_HEADER + 4 * n] == WidenTriples(t);
  }

  /** An OS/2 2.x DIB cut down to its leading 40 bytes of header. */
  function Os2ToInfo(src: seq<byte>): (r: seq<byte>)
    requires Headed(src) && HeaderSize(src) == OS2_V2_HEADER
    ensures |r| == |src| - (OS2_V2_HEADER - INFO_HEADER)
    ensures r[INFO_HEADER..] == src[OS2_V2_HEADER..]
  {
    PutLE32(src[..INFO_HEADER], 0, INFO_HEADER) + src[OS2_V2_HEADER..]
  }

  /** The OS/2 2.x DIB becomes a 40-byte header DIB 24 bytes shorter: the
      first 40 header bytes are kept apart from the size, and the colour
      table and bits move up behind them, so colour count, palette size,
      image size and compression keep their values; without colour masks
      the bits start 24 bytes earlier. */
  lemma Os2ToInfoShape(src: seq<byte>)
    requires Headed(src) && HeaderSize(src) == OS2_V2_HEADER
    ensures var r := Os2ToInfo(src);
            |r| == |src| - 24 && Headed(r) && IsWin30Dib(r)
            && r[4..INFO_HEADER] == src[4..INFO_HEADER] && r[INFO_HEADER..] == src[OS2_V2_HEADER..]
            && DibNumColors(r) == DibNumColors(src) && PaletteSize(r) == PaletteSize(src)
            && DibImageSize(r, false) == DibImageSize(src, false)
            && DibIsCompressed(r) == DibIsCompressed(src)
            && (ColorMasksSize(r) == 0 ==> DibBitsOffset(r) + 24 == DibBitsOffset(src))
  {
    var h := PutLE32(src[..INFO_HEADER], 0, INFO_HEADER);
    var r := Os2ToInfo(src);
    PutLE32Keeps(src[..INFO_HEADER], 0, INFO_HEADER);
    assert r[..INFO_HEADER] == h;
    LE32Local(r, h, 0);
    assert r[4..INFO_HEADER] == src[4..INFO_HEADER] by {
      assert forall k | 4 <= k < INFO_HEADER :: r[k] == h[k] == src[k];
    }
    InfoFieldsFrame(src, r);
  }

  /** A V2, V3 or V4 DIB with its header zero-extended to 124 bytes, marked
      as a V5 header for image rendering, and as sRGB when it had no colour
      space of its own. */
  function ToV5(src: seq<byte>): (r: seq<byte>)
    requires Headed(src) && HeaderSize(src) in {V2_HEADER, V3_HEADER, V4_HEADER}
    ensures |r| == |src| + V5_HEADER - HeaderSize(src)
    ensures LE32(r, 0) == V5_HEADER && Intent(r) == LCS_GM_IMAGES
  {
    var hs := HeaderSize(src);
    var d0 := src[..hs] + Zeros(V5_HEADER - hs) + src[hs..];
    var d1 := PutLE32(d0, 0, V5_HEADER);
    var d2 := PutLE32(d1, OFF_INTENT, LCS_GM_IMAGES);
    PutLE32Elsewhere(d1, OFF_INTENT, LCS_GM_IMAGES, 0);
    if hs < V4_HEADER then
      PutLE32Elsewhere(d2, OFF_CSTYPE, LCS_sRGB, 0);
      PutLE32Elsewhere(d2, OFF_CSTYPE, LCS_sRGB, OFF_INTENT);
      PutLE32(d2, OFF_CSTYPE, LCS_sRGB)
    else d2
  }

  /** A block with n zero bytes spliced in at offset at. */
  lemma ZeroSplice(src: seq<byte>, at: nat, n: nat)
    requires at <= |src|
    ensures var d := src[..at] + Zeros(n) + src[at..];
            |d| == |src| + n && d[..at] == src[..at] && d[at + n..] == src[at..]
            && forall k | at <= k < at + n :: d[k] == 0
  {
    var d := src[..at] + Zeros(n) + src[at..];
    forall k | at <= k < at + n
      ensures d[k] == 0
    {
      assert d[k] == Zeros(n)[k - at];
    }
  }

  /** ToV5 keeps header bytes 4..40, and the colour table and bits follow
      the 124-byte header unchanged. */
  lemma ToV5Bytes(src: seq<byte>)
    requires Headed(src) && HeaderSize(src) in {V2_HEADER, V3_HEADER, V4_HEADER}
    ensures var r := ToV5(src);
            |r| == |src| + V5_HEADER - HeaderSize(src)
            && r[4..INFO_HEADER] == src[4..INFO_HEADER] && r[V5_HEADER..] == src[HeaderSize(src)..]
  {
    var hs := HeaderSize(src);
    var d0 := src[..hs] + Zeros(V5_HEADER - hs) + src[hs..];
    var d1 := PutLE32(d0, 0, V5_HEADER);
    var d2 := PutLE32(d1, OFF_INTENT, LCS_GM_IMAGES);
    var r := ToV5(src);
    ZeroSplice(src, hs, V5_HEADER - hs);
    PutLE32Keeps(d0, 0, V5_HEADER);
    PutLE32Keeps(d1, OFF_INTENT, LCS_GM_IMAGES);
    if hs < V4_HEADER {
      PutLE32Keeps(d2, OFF_CSTYPE, LCS_sRGB);
    }
    assert r[4..INFO_HEADER] == src[4..INFO_HEADER];
    assert r[V5_HEADER..] == src[hs..];
  }

  /** The V5 header ToV5 builds: size 124, intent LCS_GM_IMAGES, colour space
      sRGB for the V2 and V3 headers and the V4 one's own otherwise, no
      profile, and bytes 4..40 as they were; the colour table and bits follow
      the longer header unchanged. */
  lemma ToV5Fields(src: seq<byte>)
    requires Headed(src) && HeaderSize(src) in {V2_HEADER, V3_HEADER, V4_HEADER}
    ensures var r := ToV5(src);
            var hs := HeaderSize(src);
            |r| == |src| + V5_HEADER - hs && LE32(r, 0) == V5_HEADER
            && Intent(r) == LCS_GM_IMAGES
            && CSType(r) == (if hs < V4_HEADER then LCS_sRGB else CSType(src))
            && ProfileData(r) == 0 && ProfileSize(r) == 0
            && r[4..INFO_HEADER] == src[4..INFO_HEADER] && r[V5_HEADER..] == src[hs..]
  {
    var hs := HeaderSize(src);
    var d0 := src[..hs] + Zeros(V5_HEADER - hs) + src[hs..];
    var d1 := PutLE32(d0, 0, V5_HEADER);
    var d2 := PutLE32(d1, OFF_INTENT, LCS_GM_IMAGES);
    var r := ToV5(src);
    ZeroSplice(src, hs, V5_HEADER - hs);
    assert LE32(d0, OFF_PROFILEDATA) == 0 && LE32(d0, OFF_PROFILESIZE) == 0;
    PutLE32Keeps(d0, 0, V5_HEADER);
    PutLE32Keeps(d1, OFF_INTENT, LCS_GM_IMAGES);
    PutLE32Elsewhere(d1, OFF_INTENT, LCS_GM_IMAGES, 0);
    PutLE32Elsewhere(d0, 0, V5_HEADER, OFF_PROFILEDATA);
    PutLE32Elsewhere(d0, 0, V5_HEADER, OFF_PROFILESIZE);
    PutLE32Elsewhere(d1, OFF_INTENT, LCS_GM_IMAGES, OFF_PROFILEDATA);
    PutLE32Elsewhere(d1, OFF_INTENT, LCS_GM_IMAGES, OFF_PROFILESIZE);
    if hs < V4_HEADER {
      PutLE32Keeps(d2, OFF_CSTYPE, LCS_sRGB);
      PutLE32Elsewhere(d2, OFF_CSTYPE, LCS_sRGB, 0);
      PutLE32Elsewhere(d2, OFF_CSTYPE, LCS_sRGB, OFF_INTENT);
      PutLE32Elsewhere(d2, OFF_CSTYPE, LCS_sRGB, OFF_PROFILEDATA);
      PutLE32Elsewhere(d2, OFF_CSTYPE, LCS_sRGB, OFF_PROFILESIZE);
    } else {
      assert d0[OFF_CSTYPE..OFF_CSTYPE + 4] == src[OFF_CSTYPE..OFF_CSTYPE + 4];
      LE32Local(d0, src, OFF_CSTYPE);
      PutLE32Elsewhere(d0, 0, V5_HEADER, OFF_CSTYPE);
      PutLE32Elsewhere(d1, OFF_INTENT, LCS_GM_IMAGES, OFF_CSTYPE);
    }
    ToV5Bytes(src);
  }

  /** ToV5 keeps the geometry: colour count, palette and image size and
      compression are the source's, no profile is attached, and the bits
      start as much later as the header grew. */
  lemma ToV5Geometry(src: seq<byte>)
    requires Headed(src) && HeaderSize(src) in {V2_HEADER, V3_HEADER, V4_HEADER}
    ensures var r := ToV5(src);
            Headed(r) && IsWin50Dib(r) && !DibHasColorProfile(r)
            && DibNumColors(r) == DibNumColors(src) && PaletteSize(r) == PaletteSize(src)
            && DibImageSize(r, false) == DibImageSize(src, false)
            && DibIsCompressed(r) == DibIsCompressed(src)
            && DibBitsOffset(r) == DibBitsOffset(src) + V5_HEADER - HeaderSize(src)
  {
    ToV5Counts(src);
    ToV5Offsets(src);
  }

  /** Converting to V5 keeps the colour count, palette, image size and compression. */
  lemma ToV5Counts(src: seq<byte>)
    requires Headed(src) && HeaderSize(src) in {V2_HEADER, V3_HEADER, V4_HEADER}
    ensures var r := ToV5(src);
            Headed(r) && IsWin50Dib(r) && !DibHasColorProfile(r)
            && DibNumColors(r) == DibNumColors(src) && PaletteSize(r) == PaletteSize(src)
            && DibImageSize(r, false) == DibImageSize(src, false)
            && DibIsCompressed(r) == DibIsCompressed(src)
  {
    ToV5Fields(src);
    InfoFieldsFrame(src, ToV5(src));
  }

  /** Converting to V5 moves the pixel bits down by the header growth. */
  lemma ToV5Offsets(src: seq<byte>)
    requires Headed(src) && HeaderSize(src) in {V2_HEADER, V3_HEADER, V4_HEADER}
    ensures var r := ToV5(src);
            Headed(r) && DibBitsOffset(r) == DibBitsOffset(src) + V5_HEADER - HeaderSize(src)
  {
    var r := ToV5(src);
    ToV5Fields(src);
    ToV5Counts(src);
    assert PackedBitsOffset(src) == HeaderSize(src) + PaletteSize(src);
    assert PackedBitsOffset(r) == V5_HEADER + PaletteSize(r);
    assert !ProfileBeforeBits(r);
  }

  /** Header and colour table, the profile, then the pixel bits, with
      ProfileData pointing right behind the colour table. */
  function ProfileFirst(src: seq<byte>): (r: seq<byte>)
    requires Headed(src) && DibHasColorProfile(src) && ProfilePartsFit(src)
    ensures |r| == InfoSize(src) + ProfileSize(src) + DibImageSize(src, false) <= |src|
  {
    var info := InfoSize(src);
    Relayout(src, info, ProfileData(src), ProfileSize(src), DibBitsOffset(src), DibImageSize(src, false), info)
  }

  /** The block CreateClipboardDib hands to the clipboard, and its format. */
  function ClipboardDib(src: seq<byte>): (r: Option<Clip>)
    requires Headed(src)
    ensures r.None? <==> (HeaderSize(src) == CORE_HEADER && DibBitsOffset(src) + DibImageSize(src, false) > |src|)
                         || (DibHasColorProfile(src) && !ProfilePartsFit(src))
    ensures r.Some? ==> (r.value.format == CF_DIBV5 <==> HeaderSize(src) > INFO_HEADER && HeaderSize(src) != OS2_V2_HEADER)
  {
    var hs := HeaderSize(src);
    var format := ClipboardFormat(hs);
    if hs == CORE_HEADER then
      match CoreToInfo(src)
      case None => None
      case Some(d) => Some(Clip(d, format))
    else if hs == OS2_V2_HEADER then Some(Clip(Os2ToInfo(src), format))
    else if hs in {V2_HEADER, V3_HEADER, V4_HEADER} then Some(Clip(ToV5(src), format))
    else if DibHasColorProfile(src) then
      if ProfilePartsFit(src) then Some(Clip(ProfileFirst(src), format)) else None
    else Some(Clip(src, format))
  }

  // ---------------------------------------------------------------------------
  // What the re-layouts produce

  /** The file layout of a DIB with a profile: header, colour table, pixel
      bits, then the profile, and nothing else. */
  predicate ProfileAfterBitsLayout(d: seq<byte>)
    requires Headed(d)
  {
    DibHasColorProfile(d)
    && DibImageSize(d, false) > 0
    && ProfileData(d) == InfoSize(d) + DibImageSize(d, false)
    && |d| == InfoSize(d) + DibImageSize(d, false) + ProfileSize(d)
  }

  /** The clipboard layout of a DIB with a profile: header, colour table,
      profile, then the pixel bits, and nothing else. */
  predicate ProfileBeforeBitsLayout(c: seq<byte>)
    requires Headed(c)
  {
    DibHasColorProfile(c)
    && ProfileData(c) == InfoSize(c)
    && |c| == InfoSize(c) + ProfileSize(c) + DibImageSize(c, false)
  }

  /** In a V5 DIB the colour table ends where the packed bits would start. */
  lemma InfoSizeIsPacked(b: seq<byte>)
    requires Headed(b) && IsWin50Dib(b) && |b| < TWO32
    ensures InfoSize(b) == PackedBitsOffset(b) <= 124 + 4 * 4096
  {
  }

  /** Rewriting ProfileData keeps a V5 header's geometry, colour space and profile size. */
  lemma ProfileDataRewrite(src: seq<byte>, c: seq<byte>)
    requires Headed(src) && IsWin50Dib(src) && |c| >= V5_HEADER
    requires c[..OFF_PROFILEDATA] == src[..OFF_PROFILEDATA]
    requires c[OFF_PROFILESIZE..V5_HEADER] == src[OFF_PROFILESIZE..V5_HEADER]
    ensures Headed(c) && IsWin50Dib(c)
    ensures PaletteSize(c) == PaletteSize(src) && PackedBitsOffset(c) == PackedBitsOffset(src)
    ensures InfoSize(c) == InfoSize(src)
    ensures DibImageSize(c, false) == DibImageSize(src, false)
    ensures CSType(c) == CSType(src) && ProfileSize(c) == ProfileSize(src)
  {
    assert c[..OFF_PROFILEDATA][..INFO_HEADER] == c[..INFO_HEADER];
    assert src[..OFF_PROFILEDATA][..INFO_HEADER] == src[..INFO_HEADER];
    assert c[..INFO_HEADER] == src[..INFO_HEADER];
    GeometryFrame(src, c);
    assert c[OFF_CSTYPE..OFF_CSTYPE + 4] == src[OFF_CSTYPE..OFF_CSTYPE + 4] by {
      assert c[..OFF_PROFILEDATA][OFF_CSTYPE..OFF_CSTYPE + 4] == c[OFF_CSTYPE..OFF_CSTYPE + 4];
      assert src[..OFF_PROFILEDATA][OFF_CSTYPE..OFF_CSTYPE + 4] == src[OFF_CSTYPE..OFF_CSTYPE + 4];
    }
    LE32Local(c, src, OFF_CSTYPE);
    assert c[OFF_PROFILESIZE..OFF_PROFILESIZE + 4] == src[OFF_PROFILESIZE..OFF_PROFILESIZE + 4] by {
      assert c[OFF_PROFILESIZE..V5_HEADER][..4] == c[OFF_PROFILESIZE..OFF_PROFILESIZE + 4];
      assert src[OFF_PROFILESIZE..V5_HEADER][..4] == src[OFF_PROFILESIZE..OFF_PROFILESIZE + 4];
    }
    LE32Local(c, src, OFF_PROFILESIZE);
  }

  /** Relayout as the concatenation of what it copies and puts. */
  lemma RelayoutFlat(src: seq<byte>, info: nat, p: nat, np: nat, q: nat, nq: nat, v: u32)
    requires OFF_PROFILESIZE <= info <= |src| && p + np <= |src| && q + nq <= |src|
    ensures Relayout(src, info, p, np, q, nq, v)
            == src[..OFF_PROFILEDATA] + LE32Bytes(v) + src[OFF_PROFILESIZE..info] + src[p..p + np] + src[q..q + nq]
  {
    var steps := [Copy(0, OFF_PROFILEDATA), Put(LE32Bytes(v)), Copy(OFF_PROFILESIZE, info - OFF_PROFILESIZE), Copy(p, np), Copy(q, nq)];
    GatherFive(src, steps);
    assert Piece(src, steps[0]) == src[..OFF_PROFILEDATA];
    assert Piece(src, steps[2]) == src[OFF_PROFILESIZE..info];
  }

  /** What Relayout keeps and what it moves: the header outside the patched
      DWORD, the DWORD's new value, and the two parts in their new places. */
  lemma RelayoutParts(src: seq<byte>, info: nat, p: nat, np: nat, q: nat, nq: nat, v: u32)
    requires OFF_PROFILESIZE <= info <= |src| && p + np <= |src| && q + nq <= |src|
    ensures var r := Relayout(src, info, p, np, q, nq, v);
            r[..OFF_PROFILEDATA] == src[..OFF_PROFILEDATA]
            && r[OFF_PROFILESIZE..info] == src[OFF_PROFILESIZE..info]
            && LE32(r, OFF_PROFILEDATA) == v
            && r[info..info + np] == src[p..p + np]
            && r[info + np..] == src[q..q + nq]
  {
    var r := Relayout(src, info, p, np, q, nq, v);
    var k := LE32Bytes(v);
    RelayoutFlat(src, info, p, np, q, nq, v);
    assert r[OFF_PROFILEDATA..OFF_PROFILESIZE] == k;
    LE32Slice(r, OFF_PROFILEDATA);
  }

  /** Relayout applied twice, swapping two adjacent parts behind the header
      and back, with the DWORD at ProfileData restored to its first value,
      gives back the block. */
  lemma RelayoutSwapBack(b: seq<byte>, info: nat, n1: nat, n2: nat, v: u32, w: u32)
    requires OFF_PROFILESIZE <= info && |b| == info + n1 + n2 && LE32(b, OFF_PROFILEDATA) == v
    ensures var c := Relayout(b, info, info + n1, n2, info, n1, w);
            Relayout(c, info, info + n2, n1, info, n2, v) == b
  {
    var c := Relayout(b, info, info + n1, n2, info, n1, w);
    RelayoutParts(b, info, info + n1, n2, info, n1, w);
    var e := Relayout(c, info, info + n2, n1, info, n2, v);
    RelayoutParts(c, info, info + n2, n1, info, n2, v);
    assert e[info..] == e[info..info + n1] + e[info + n1..];
    assert b[info..] == b[info..info + n1] + b[info + n1..];
    SameAroundDword(e, b, OFF_PROFILEDATA, info);
  }

  /** RelayoutSwapBack with both intermediate blocks named. */
  lemma RelayoutInverse(b: seq<byte>, c: seq<byte>, e: seq<byte>, info: nat, n1: nat, n2: nat, v: u32, w: u32)
    requires OFF_PROFILESIZE <= info
    requires |b| == info + n1 + n2
    requires LE32(b, OFF_PROFILEDATA) == v
    requires c == Relayout(b, info, info + n1, n2, info, n1, w)
    requires e == Relayout(c, info, info + n2, n1, info, n2, v)
    ensures e == b
  {
    RelayoutSwapBack(b, info, n1, n2, v, w);
  }

  /** A block that keeps a V5 DIB's header and colour table apart from a
      new non-zero ProfileData keeps the DIB's geometry and profile size. */
  lemma RelayoutHeader(src: seq<byte>, r: seq<byte>, v: u32)
    requires Headed(src) && DibHasColorProfile(src) && InfoSize(src) <= |r| && InfoSize(src) <= |src|
    requires r[..OFF_PROFILEDATA] == src[..OFF_PROFILEDATA]
    requires r[OFF_PROFILESIZE..InfoSize(src)] == src[OFF_PROFILESIZE..InfoSize(src)]
    requires LE32(r, OFF_PROFILEDATA) == v && v != 0
    ensures Headed(r) && DibHasColorProfile(r) && ProfileData(r) == v
            && InfoSize(r) == InfoSize(src) && PackedBitsOffset(r) == PackedBitsOffset(src)
            && ProfileSize(r) == ProfileSize(src)
            && DibImageSize(r, false) == DibImageSize(src, false)
  {
    var info := InfoSize(src);
    assert r[OFF_PROFILESIZE..V5_HEADER] == r[OFF_PROFILESIZE..info][..V5_HEADER - OFF_PROFILESIZE];
    assert src[OFF_PROFILESIZE..V5_HEADER] == src[OFF_PROFILESIZE..info][..V5_HEADER - OFF_PROFILESIZE];
    ProfileDataRewrite(src, r);
  }

  /** The sizes and offsets of a DIB with a profile, passed in by name. */
  predicate ProfileParts(src: seq<byte>, info: nat, img: nat, prof: nat, bits: nat, pd: nat)
    requires Headed(src)
  {
    DibHasColorProfile(src) && ProfilePartsFit(src) && |src| < TWO32
    && info == InfoSize(src) && img == DibImageSize(src, false) && prof == ProfileSize(src)
    && bits == DibBitsOffset(src) && pd == ProfileData(src)
  }

  /** ProfileFirst with the sizes and offsets named. */
  lemma ProfileFirstIs(src: seq<byte>, info: nat, img: nat, prof: nat, bits: nat, pd: nat)
    requires Headed(src) && ProfileParts(src, info, img, prof, bits, pd)
    ensures OFF_PROFILESIZE <= info <= |src| && info < TWO32 && pd + prof <= |src| && bits + img <= |src|
    ensures ProfileFirst(src) == Relayout(src, info, pd, prof, bits, img, info)
  {
    InfoSizeIsPacked(src);
  }

  /** ProfileLast with the sizes and offsets named. */
  lemma ProfileLastIs(src: seq<byte>, info: nat, img: nat, prof: nat, bits: nat, pd: nat)
    requires Headed(src) && ProfileParts(src, info, img, prof, bits, pd)
    ensures OFF_PROFILESIZE <= info <= |src| && info + img < TWO32 && pd + prof <= |src| && bits + img <= |src|
    ensures ProfileLast(src) == Relayout(src, info, bits, img, pd, prof, info + img)
  {
    assert U32(info + img) == info + img;
  }

  /** CreateClipboardDib on a DIB with a profile yields the clipboard
      layout, with the same header apart from ProfileData, which points right
      behind the colour table, and the same geometry. */
  lemma ProfileFirstHeader(src: seq<byte>, info: nat, img: nat, prof: nat, bits: nat, pd: nat)
    requires Headed(src) && ProfileParts(src, info, img, prof, bits, pd)
    ensures var c := ProfileFirst(src);
            Headed(c) && ProfileBeforeBitsLayout(c)
            && InfoSize(c) == info && ProfileSize(c) == prof && DibImageSize(c, false) == img
            && DibBitsOffset(c) == info + prof && ProfileData(c) == info
  {
    ProfileFirstIs(src, info, img, prof, bits, pd);
    var c := ProfileFirst(src);
    RelayoutParts(src, info, pd, prof, bits, img, info);
    RelayoutHeader(src, c, info);
    InfoSizeIsPacked(src);
  }

  /** In the clipboard layout the header and colour table are kept apart
      from ProfileData, and the profile bytes and then the pixel bits follow
      them unchanged. */
  lemma ProfileFirstLayout(src: seq<byte>, info: nat, img: nat, prof: nat, bits: nat, pd: nat)
    requires Headed(src) && ProfileParts(src, info, img, prof, bits, pd)
    ensures var c := ProfileFirst(src);
            c[..OFF_PROFILEDATA] == src[..OFF_PROFILEDATA]
            && c[OFF_PROFILESIZE..info] == src[OFF_PROFILESIZE..info]
            && c[info..info + prof] == src[pd..pd + prof]
            && c[info + prof..] == src[bits..bits + img]
  {
    ProfileFirstIs(src, info, img, prof, bits, pd);
    RelayoutParts(src, info, pd, prof, bits, img, info);
  }

  /** CreateDibFromClipboardDib on a DIB with a profile and pixel bits yields
      the file layout, with the same header apart from ProfileData, which
      points behind the bits, and the same geometry. */
  lemma ProfileLastHeader(src: seq<byte>, info: nat, img: nat, prof: nat, bits: nat, pd: nat)
    requires Headed(src) && ProfileParts(src, info, img, prof, bits, pd) && img > 0
    ensures var d := ProfileLast(src);
            Headed(d) && ProfileAfterBitsLayout(d)
            && InfoSize(d) == info && ProfileSize(d) == prof && DibImageSize(d, false) == img
            && DibBitsOffset(d) == info && ProfileData(d) == info + img
  {
    var d := ProfileLast(src);
    assert d[..OFF_PROFILEDATA] == src[..OFF_PROFILEDATA] && d[OFF_PROFILESIZE..info] == src[OFF_PROFILESIZE..info]
           && LE32(d, OFF_PROFILEDATA) == info + img && |d| == info + img + prof by {
      ProfileLastIs(src, info, img, prof, bits, pd);
      RelayoutParts(src, info, bits, img, pd, prof, info + img);
    }
    RelayoutHeader(src, d, info + img);
    InfoSizeIsPacked(src);
  }

  /** In the file layout the header and colour table are kept apart from
      ProfileData, and the pixel bits and then the profile bytes follow them
      unchanged. */
  lemma ProfileLastLayout(src: seq<byte>, info: nat, img: nat, prof: nat, bits: nat, pd: nat)
    requires Headed(src) && ProfileParts(src, info, img, prof, bits, pd) && img > 0
    ensures var d := ProfileLast(src);
            d[..OFF_PROFILEDATA] == src[..OFF_PROFILEDATA]
            && d[OFF_PROFILESIZE..info] == src[OFF_PROFILESIZE..info]
            && d[info..info + img] == src[bits..bits + img]
            && d[info + img..] == src[pd..pd + prof]
  {
    ProfileLastIs(src, info, img, prof, bits, pd);
    RelayoutParts(src, info, bits, img, pd, prof, info + img);
  }

  // ---------------------------------------------------------------------------
  // Round trips between the file and the clipboard layouts

  /** A DIB in the file layout passes the size checks of both re-layouts. */
  lemma FileLayoutFits(d: seq<byte>)
    requires Headed(d) && ProfileAfterBitsLayout(d) && |d| < TWO32
    ensures ProfileParts(d, InfoSize(d), DibImageSize(d, false), ProfileSize(d),
                         InfoSize(d), InfoSize(d) + DibImageSize(d, false))
  {
    InfoSizeIsPacked(d);
  }

  /** A DIB in the clipboard layout passes the size checks of both re-layouts. */
  lemma ClipLayoutFits(c: seq<byte>)
    requires Headed(c) && ProfileBeforeBitsLayout(c) && |c| < TWO32
    ensures ProfileParts(c, InfoSize(c), DibImageSize(c, false), ProfileSize(c),
                         InfoSize(c) + ProfileSize(c), InfoSize(c))
  {
    InfoSizeIsPacked(c);
  }

  /** CreateClipboardDib on a V5 DIB: a profile moves in front of the bits,
      and a V5 DIB without one is copied; the format is CF_DIBV5. */
  lemma ClipboardDibOfV5(d: seq<byte>)
    requires Headed(d) && IsWin50Dib(d)
    ensures DibHasColorProfile(d) && ProfilePartsFit(d) ==> ClipboardDib(d) == Some(Clip(ProfileFirst(d), CF_DIBV5))
    ensures DibHasColorProfile(d) && !ProfilePartsFit(d) ==> ClipboardDib(d).None?
    ensures !DibHasColorProfile(d) ==> ClipboardDib(d) == Some(Clip(d, CF_DIBV5))
  {
  }

  /** Moving the profile of a file-layout DIB in front of the bits and back
      again restores the DIB. */
  lemma FileClipboardBytes(d: seq<byte>)
    requires Headed(d) && ProfileAfterBitsLayout(d) && |d| < TWO32
    ensures ProfilePartsFit(d)
    ensures Headed(ProfileFirst(d)) && ProfileBeforeBitsLayout(ProfileFirst(d))
    ensures DibImageSize(ProfileFirst(d), false) > 0
    ensures ProfilePartsFit(ProfileFirst(d))
    ensures ProfileLast(ProfileFirst(d)) == d
  {
    var info, img, prof := InfoSize(d), DibImageSize(d, false), ProfileSize(d);
    FileLayoutFits(d);
    ProfileFirstHeader(d, info, img, prof, info, info + img);
    ProfileFirstIs(d, info, img, prof, info, info + img);
    var c := ProfileFirst(d);
    ClipLayoutFits(c);
    ProfileLastIs(c, info, img, prof, info + prof, info);
    RelayoutInverse(d, c, ProfileLast(c), info, img, prof, info + img, info);
  }

  /** Moving the profile of a clipboard-layout DIB with pixel bits behind the
      bits and back again restores the DIB. */
  lemma ClipboardFileBytes(c: seq<byte>)
    requires Headed(c) && ProfileBeforeBitsLayout(c) && DibImageSize(c, false) > 0 && |c| < TWO32
    ensures ProfilePartsFit(c)
    ensures Headed(ProfileLast(c)) && ProfileAfterBitsLayout(ProfileLast(c))
    ensures ProfilePartsFit(ProfileLast(c))
    ensures ProfileFirst(ProfileLast(c)) == c
  {
    var info, img, prof := InfoSize(c), DibImageSize(c, false), ProfileSize(c);
    ClipLayoutFits(c);
    ClipboardFileShape(c);
    ProfileLastIs(c, info, img, prof, info + prof, info);
    RelayoutSwapBack(c, info, prof, img, info, info + img);
    ProfileFirstIs(ProfileLast(c), info, img, prof, info, info + img);
  }

  /** Moving the profile of a clipboard-layout DIB with pixel bits behind the
      bits gives the file layout, with the same sizes. */
  lemma ClipboardFileShape(c: seq<byte>)
    requires Headed(c) && ProfileBeforeBitsLayout(c) && DibImageSize(c, false) > 0 && |c| < TWO32
    ensures ProfilePartsFit(c)
    ensures var d := ProfileLast(c);
            var info, img := InfoSize(c), DibImageSize(c, false);
            Headed(d) && ProfileAfterBitsLayout(d)
            && ProfileParts(d, info, img, ProfileSize(c), info, info + img)
  {
    var info, img, prof := InfoSize(c), DibImageSize(c, false), ProfileSize(c);
    ClipLayoutFits(c);
    ProfileLastHeader(c, info, img, prof, info + prof, info);
    FileLayoutFits(ProfileLast(c));
  }

  /** Putting a file-layout DIB with a profile on the clipboard (as CF_DIBV5)
      and taking it back gives the same bytes. */
  lemma FileClipboardRoundTrip(d: seq<byte>)
    requires Headed(d) && ProfileAfterBitsLayout(d) && |d| < TWO32
    ensures ProfilePartsFit(d)
    ensures ClipboardDib(d) == Some(Clip(ProfileFirst(d), CF_DIBV5))
    ensures Headed(ProfileFirst(d)) && DibFromClipboard(ProfileFirst(d)) == Some(d)
  {
    FileClipboardBytes(d);
    ClipboardDibOfV5(d);
  }

  /** Taking a clipboard-layout DIB with a profile and pixel bits off the
      clipboard and putting it back gives the same bytes, as CF_DIBV5. */
  lemma ClipboardFileRoundTrip(c: seq<byte>)
    requires Headed(c) && ProfileBeforeBitsLayout(c) && DibImageSize(c, false) > 0 && |c| < TWO32
    ensures ProfilePartsFit(c)
    ensures DibFromClipboard(c) == Some(ProfileLast(c))
    ensures Headed(ProfileLast(c)) && ClipboardDib(ProfileLast(c)) == Some(Clip(c, CF_DIBV5))
  {
    ClipboardFileBytes(c);
    ClipboardDibOfV5(ProfileLast(c));
  }
}
