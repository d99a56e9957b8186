/** The DIB API's block builders: each allocates a new block, copies the
    parts of the source into it and patches header fields, and is proved to
    build exactly the block the matching DibLayouts function describes. */
module DibBuild {
  import opened Bytes
  import opened DibGeometry
  import opened DibLayouts

  /** CopyDib: a new block holding the same bytes; an empty block is not
      copied. */
  method CopyDib(src: array<byte>) returns (r: Option<array<byte>>)
    ensures r.None? <==> src.Length == 0
    ensures r.Some? ==> r.value[..] == src[..]
  {
    if src.Length == 0 {
      return None;
    }
    var s := src[..];
    var dst := new byte[src.Length](_ => 0);
    CopyBytes(dst, 0, s, 0, |s|);
    assert dst[..] == s;
    return Some(dst);
  }

  /** A new block of three parts copied one after the other. */
  method CopyThree(x: seq<byte>, y: seq<byte>, z: seq<byte>) returns (dst: array<byte>)
    ensures fresh(dst) && dst[..] == x + y + z
  {
    dst := new byte[|x| + |y| + |z|](_ => 0);
    CopyBytes(dst, 0, x, 0, |x|);
    assert dst[..] == x + Zeros(|y| + |z|) by { assert x[0..|x|] == x; }
    CopyBytes(dst, |x|, y, 0, |y|);
    assert dst[..] == x + y + Zeros(|z|) by { assert y[0..|y|] == y; }
    CopyBytes(dst, |x| + |y|, z, 0, |z|);
    assert z[0..|z|] == z;
  }

  /** A new zeroed block with x at its start and z after a gap of zeros. */
  method CopyTwoApart(x: seq<byte>, gap: nat, z: seq<byte>) returns (dst: array<byte>)
    ensures fresh(dst) && dst[..] == x + Zeros(gap) + z
  {
    dst := new byte[|x| + gap + |z|](_ => 0);
    CopyBytes(dst, 0, x, 0, |x|);
    assert dst[..] == x + Zeros(gap + |z|) by { assert x[0..|x|] == x; }
    CopyBytes(dst, |x| + gap, z, 0, |z|);
    assert z[0..|z|] == z;
    assert dst[..] == x + Zeros(gap) + z;
  }

  /** Header and colour table, then two parts of the source, then the
      ProfileData field patched: the block both profile re-layouts build. */
  method RelayoutInto(s: seq<byte>, info: nat, p: nat, np: nat, q: nat, nq: nat, v: u32)
    returns (dst: array<byte>)
    requires OFF_PROFILESIZE <= info <= |s| && p + np <= |s| && q + nq <= |s|
    ensures dst[..] == Relayout(s, info, p, np, q, nq, v)
  {
    ghost var head := s[..info];
    ghost var rest := s[p..p + np] + s[q..q + nq];
    dst := CopyThree(s[..info], s[p..p + np], s[q..q + nq]);
    WriteLE32(dst, OFF_PROFILEDATA, v);
    RelayoutPut(s, head, rest, info, p, np, q, nq, v);
  }

  /** Patching ProfileData of the three copied parts gives the re-layout. */
  lemma RelayoutPut(s: seq<byte>, head: seq<byte>, rest: seq<byte>, info: nat, p: nat, np: nat, q: nat, nq: nat, v: u32)
    requires OFF_PROFILESIZE <= info <= |s| && p + np <= |s| && q + nq <= |s|
    requires head == s[..info] && rest == s[p..p + np] + s[q..q + nq]
    ensures PutLE32(head + rest, OFF_PROFILEDATA, v) == Relayout(s, info, p, np, q, nq, v)
  {
    PutLE32Prefix(head, rest, OFF_PROFILEDATA, v);
    RelayoutFlat(s, info, p, np, q, nq, v);
    assert head[..OFF_PROFILEDATA] == s[..OFF_PROFILEDATA];
    assert head[OFF_PROFILESIZE..] == s[OFF_PROFILESIZE..info];
  }

  /** CreateDibFromClipboardDib: a DIB without a profile is copied; one with
      a profile is rebuilt with the profile behind the bits; None where the
      parts do not fit the block. */
  method CreateDibFromClipboardDib(src: array<byte>) returns (r: Option<array<byte>>)
    requires Headed(src[..])
    ensures r.None? <==> DibFromClipboard(src[..]).None?
    ensures r.Some? ==> r.value[..] == DibFromClipboard(src[..]).value
  {
    var s := src[..];
    if !DibHasColorProfile(s) {
      r := CopyDib(src);
      return;
    }
    if !ProfilePartsFit(s) {
      return None;
    }
    var info := InfoSize(s);
    var img := DibImageSize(s, false);
    var dst := RelayoutInto(s, info, DibBitsOffset(s), img, ProfileData(s), ProfileSize(s), U32(info + img));
    return Some(dst);
  }

  // ---------------------------------------------------------------------------
  // CreateClipboardDib

  /** The core header's fields written into a zeroed block in the order the
      source stores them. */
  method WriteInfoHeader(dst: array<byte>, w: u32, h: u32, planes: u16, bits: u16, img: u32, colors: u32)
    requires INFO_HEADER <= dst.Length && dst[..] == Zeros(dst.Length)
    modifies dst
    ensures dst[..] == InfoHeaderBytes(w, h, planes, bits, img, colors) + Zeros(dst.Length - INFO_HEADER)
  {
    ghost var tail := Zeros(dst.Length - INFO_HEADER);
    ghost var h0 := Zeros(INFO_HEADER);
    assert dst[..] == h0 + tail;
    WriteLE32(dst, 0, INFO_HEADER);
    PutLE32Prefix(h0, tail, 0, INFO_HEADER);
    ghost var h1 := PutLE32(h0, 0, INFO_HEADER);
    WriteLE32(dst, OFF_WIDTH, w);
    PutLE32Prefix(h1, tail, OFF_WIDTH, w);
    ghost var h2 := PutLE32(h1, OFF_WIDTH, w);
    WriteLE32(dst, OFF_HEIGHT, h);
    PutLE32Prefix(h2, tail, OFF_HEIGHT, h);
    ghost var h3 := PutLE32(h2, OFF_HEIGHT, h);
    WriteLE16(dst, OFF_PLANES, planes);
    PutLE16Prefix(h3, tail, OFF_PLANES, planes);
    ghost var h4 := PutLE16(h3, OFF_PLANES, planes);
    WriteLE16(dst, OFF_BITCOUNT, bits);
    PutLE16Prefix(h4, tail, OFF_BITCOUNT, bits);
    ghost var h5 := PutLE16(h4, OFF_BITCOUNT, bits);
    WriteLE32(dst, OFF_SIZEIMAGE, img);
    PutLE32Prefix(h5, tail, OFF_SIZEIMAGE, img);
    ghost var h6 := PutLE32(h5, OFF_SIZEIMAGE, img);
    WriteLE32(dst, OFF_CLRUSED, colors);
    PutLE32Prefix(h6, tail, OFF_CLRUSED, colors);
  }

  /** Entry j of a widened colour table: the triple's three bytes, then the
      zero reserved byte. */
  lemma WidenTriplesAt(t: seq<byte>, j: nat, i: nat)
    requires |t| % 3 == 0 && j < |t| / 3 && i < 4
    ensures WidenTriples(t)[4 * j + i] == if i == 3 then 0 else t[3 * j + i]
  {
    assert (4 * j + i) / 4 == j && (4 * j + i) % 4 == i;
  }

  /** Entry j of the colour table at offset 40 is triple j widened. */
  predicate QuadAt(a: seq<byte>, t: seq<byte>, j: nat)
    requires INFO_HEADER + 4 * j + 4 <= |a| && 3 * j + 3 <= |t|
  {
    a[INFO_HEADER + 4 * j] == t[3 * j] && a[INFO_HEADER + 4 * j + 1] == t[3 * j + 1]
    && a[INFO_HEADER + 4 * j + 2] == t[3 * j + 2] && a[INFO_HEADER + 4 * j + 3] == 0
  }

  /** A block whose first n entries behind the header are the widened
      triples, and which agrees with a base block everywhere else. */
  lemma QuadsAreWidened(a: seq<byte>, base: seq<byte>, t: seq<byte>, n: nat)
    requires |t| == 3 * n && INFO_HEADER + 4 * n <= |a| == |base|
    requires forall k | 0 <= k < |a| && !(INFO_HEADER <= k < INFO_HEADER + 4 * n) :: a[k] == base[k]
    requires forall j | 0 <= j < n :: QuadAt(a, t, j)
    ensures a == base[..INFO_HEADER] + WidenTriples(t) + base[INFO_HEADER + 4 * n..]
  {
    forall k | INFO_HEADER <= k < INFO_HEADER + 4 * n
      ensures a[k] == WidenTriples(t)[k - INFO_HEADER]
    {
      var j := (k - INFO_HEADER) / 4;
      var i := (k - INFO_HEADER) % 4;
      assert k == INFO_HEADER + 4 * j + i;
      assert QuadAt(a, t, j);
      WidenTriplesAt(t, j, i);
    }
  }

  /** The palette-widening loop: each RGBTRIPLE becomes an RGBQUAD with a
      zero reserved byte, behind the 40-byte header. */
  method WidenPalette(dst: array<byte>, t: seq<byte>, n: nat)
    requires |t| == 3 * n && INFO_HEADER + 4 * n <= dst.Length
    modifies dst
    ensures dst[..] == old(dst[..])[..INFO_HEADER] + WidenTriples(t) + old(dst[..])[INFO_HEADER + 4 * n..]
  {
    var u := 0;
    while u < n
      invariant 0 <= u <= n
      invariant forall k | 0 <= k < dst.Length && !(INFO_HEADER <= k < INFO_HEADER + 4 * u) :: dst[k] == old(dst[k])
      invariant forall j | 0 <= j < u :: QuadAt(dst[..], t, j)
    {
      ghost var before := dst[..];
      dst[INFO_HEADER + 4 * u] := t[3 * u];
      dst[INFO_HEADER + 4 * u + 1] := t[3 * u + 1];
      dst[INFO_HEADER + 4 * u + 2] := t[3 * u + 2];
      dst[INFO_HEADER + 4 * u + 3] := 0;
      forall j | 0 <= j < u
        ensures QuadAt(dst[..], t, j)
      {
        assert QuadAt(before, t, j);
      }
      assert QuadAt(dst[..], t, u);
      u := u + 1;
    }
    QuadsAreWidened(dst[..], old(dst[..]), t, n);
  }

  /** The core-to-info branch: a zeroed block of the new size, the info
      header, the widened colour table, then the bits. */
  method CoreToInfoInto(s: seq<byte>) returns (dst: array<byte>)
    requires Headed(s) && IsOs2PmDib(s) && CoreToInfo(s).Some?
    ensures dst[..] == CoreToInfo(s).value
  {
    var n := DibNumColors(s);
    var img := DibImageSize(s, false);
    var bits: nat := DibBitsOffset(s);
    DibNumColorsBounds(s);
    dst := BuildWidened(CoreWidth(s), CoreHeight(s), CorePlanes(s), CoreBitCount(s), img, n,
                        s[CORE_HEADER..bits], s[bits..bits + img]);
  }

  /** A zeroed block holding an info header with the given fields, the
      widened triples, then the pixel bytes. */
  method BuildWidened(w: u32, h: u32, planes: u16, bits: u16, img: u32, n: nat, t: seq<byte>, pix: seq<byte>)
    returns (dst: array<byte>)
    requires n < TWO32 && |t| == 3 * n && |pix| == img
    ensures dst[..] == InfoHeaderBytes(w, h, planes, bits, img, n) + WidenTriples(t) + pix
  {
    dst := new byte[INFO_HEADER + 4 * n + img](_ => 0);
    assert dst[..] == Zeros(dst.Length);
    WriteInfoHeader(dst, w, h, planes, bits, img, n);
    ghost var hd := InfoHeaderBytes(w, h, planes, bits, img, n);
    WidenPalette(dst, t, n);
    assert dst[..INFO_HEADER + 4 * n] == hd + WidenTriples(t);
    CopyBytes(dst, INFO_HEADER + 4 * n, pix, 0, img);
    assert pix[0..img] == pix;
  }

  /** The OS/2 2.x branch: the first 40 header bytes, then everything behind
      the 64-byte header, with the size field set to 40. */
  method Os2ToInfoInto(s: seq<byte>) returns (dst: array<byte>)
    requires Headed(s) && HeaderSize(s) == OS2_V2_HEADER
    ensures dst[..] == Os2ToInfo(s)
  {
    var tail := s[OS2_V2_HEADER..];
    dst := CopyTwoApart(s[..INFO_HEADER], 0, tail);
    assert Zeros(0) + tail == tail;
    WriteLE32(dst, 0, INFO_HEADER);
    PutLE32Prefix(s[..INFO_HEADER], tail, 0, INFO_HEADER);
  }

  /** The V2/V3/V4 branch: the header, zeros up to 124 bytes, the rest of the
      block, then size, intent and (for V2 and V3) the colour space set. */
  method ToV5Into(s: seq<byte>) returns (dst: array<byte>)
    requires Headed(s) && HeaderSize(s) in {V2_HEADER, V3_HEADER, V4_HEADER}
    ensures dst[..] == ToV5(s)
  {
    var hs: nat := HeaderSize(s);
    dst := CopyTwoApart(s[..hs], V5_HEADER - hs, s[hs..]);
    WriteLE32(dst, 0, V5_HEADER);
    WriteLE32(dst, OFF_INTENT, LCS_GM_IMAGES);
    if hs == V2_HEADER || hs == V3_HEADER {
      WriteLE32(dst, OFF_CSTYPE, LCS_sRGB);
    }
  }

  /** CreateClipboardDib: the block handed to the clipboard and its format,
      or None where the source gives up. */
  method CreateClipboardDib(src: array<byte>) returns (r: Option<array<byte>>, format: int)
    requires Headed(src[..])
    ensures r.None? <==> ClipboardDib(src[..]).None?
    ensures r.Some? ==> r.value[..] == ClipboardDib(src[..]).value.bytes
                        && format == ClipboardDib(src[..]).value.format
  {
    var s := src[..];
    var hs := HeaderSize(s);
    format := ClipboardFormat(hs);
    if hs == CORE_HEADER {
      if DibBitsOffset(s) + DibImageSize(s, false) > |s| {
        return None, format;
      }
      var dst := CoreToInfoInto(s);
      r := Some(dst);
    } else if hs == OS2_V2_HEADER {
      var dst := Os2ToInfoInto(s);
      r := Some(dst);
    } else if hs == V2_HEADER || hs == V3_HEADER || hs == V4_HEADER {
      var dst := ToV5Into(s);
      r := Some(dst);
    } else if DibHasColorProfile(s) {
      if !ProfilePartsFit(s) {
        return None, format;
      }
      var info := InfoSize(s);
      var dst := RelayoutInto(s, info, ProfileData(s), ProfileSize(s), DibBitsOffset(s), DibImageSize(s, false), info);
      r := Some(dst);
    } else {
      r := CopyDib(src);
    }
  }
}
