/** ICC profiles embedded in a V5 DIB: the 128-byte profile header of
    section 7.2 of ICC.1 (ISO 15076-1), with the spectral and multiplex
    fields of ICC.2, and the tag table of section 7.3. Every field of a
    profile is big-endian, although the DIB around it is little-endian. */
module IccProfile {
  import opened Bytes

  // Member offsets of PROFILEV5HEADER, each the offset of the member before
  // it plus that member's size, in declaration order
  const OFF_PH_SIZE: nat := 0
  const OFF_PH_CMMTYPE: nat := OFF_PH_SIZE + 4
  const OFF_PH_VERSION: nat := OFF_PH_CMMTYPE + 4
  const OFF_PH_CLASS: nat := OFF_PH_VERSION + 4
  const OFF_PH_DATACOLORSPACE: nat := OFF_PH_CLASS + 4
  const OFF_PH_CONNECTIONSPACE: nat := OFF_PH_DATACOLORSPACE + 4
  const OFF_PH_DATETIME: nat := OFF_PH_CONNECTIONSPACE + 4
  const OFF_PH_SIGNATURE: nat := OFF_PH_DATETIME + 3 * 4
  const OFF_PH_PLATFORM: nat := OFF_PH_SIGNATURE + 4
  const OFF_PH_PROFILEFLAGS: nat := OFF_PH_PLATFORM + 4
  const OFF_PH_MANUFACTURER: nat := OFF_PH_PROFILEFLAGS + 4
  const OFF_PH_MODEL: nat := OFF_PH_MANUFACTURER + 4
  const OFF_PH_ATTRIBUTES: nat := OFF_PH_MODEL + 4
  const OFF_PH_RENDERINGINTENT: nat := OFF_PH_ATTRIBUTES + 2 * 4
  const OFF_PH_ILLUMINANT: nat := OFF_PH_RENDERINGINTENT + 4
  const OFF_PH_CREATOR: nat := OFF_PH_ILLUMINANT + 3 * 4
  const OFF_PH_PROFILEID: nat := OFF_PH_CREATOR + 4
  const OFF_PH_SPECTRALPCS: nat := OFF_PH_PROFILEID + 16
  const OFF_PH_SPECTRALRANGE: nat := OFF_PH_SPECTRALPCS + 4
  const OFF_PH_BISPECTRALRANGE: nat := OFF_PH_SPECTRALRANGE + 3 * 2
  const OFF_PH_MCS: nat := OFF_PH_BISPECTRALRANGE + 3 * 2
  const OFF_PH_SUBCLASS: nat := OFF_PH_MCS + 4
  const OFF_PH_RESERVED: nat := OFF_PH_SUBCLASS + 4
  const PROFILE_HEADER_SIZE: nat := OFF_PH_RESERVED + 4

  /** 'acsp', the profile file signature, as a big-endian DWORD. */
  const ACSP: u32 := 0x6163_7370
  /** The version field of an Apple ColorSync 1.0 profile. */
  const VERSION_1_0: u32 := 0x0000_0100

  /** Whether ParseDIBitmap examines an embedded profile's header at all: it
      is skipped only when the signature is not 'acsp' and the version is
      not 1.0 either. */
  predicate ProfileHeaderShown(p: seq<byte>)
    requires |p| >= PROFILE_HEADER_SIZE
    ensures BE32(p, OFF_PH_SIGNATURE) == ACSP ==> ProfileHeaderShown(p)
    ensures BE32(p, OFF_PH_VERSION) == VERSION_1_0 ==> ProfileHeaderShown(p)
  {
    BE32(p, OFF_PH_SIGNATURE) == ACSP || BE32(p, OFF_PH_VERSION) == VERSION_1_0
  }

  /** The checkpoints on an embedded profile of the declared length |p|: it
      must hold the whole header, and an examined header must state that
      same length. */
  predicate EmbeddedProfileCorrupt(p: seq<byte>)
    ensures !EmbeddedProfileCorrupt(p) ==>
              |p| >= PROFILE_HEADER_SIZE && (ProfileHeaderShown(p) ==> BE32(p, OFF_PH_SIZE) == |p|)
  {
    |p| < PROFILE_HEADER_SIZE || (ProfileHeaderShown(p) && BE32(p, OFF_PH_SIZE) != |p|)
  }

  // ---------------------------------------------------------------------------
  // PrintProfileSignature

  /** How a four-byte signature is shown, given its bytes in memory order:
      "0" for zero; the four characters when all are printable; the first
      two characters and two hex bytes when only those two are printable;
      otherwise the eight hex digits of the big-endian value. */
  function SignatureText(s: seq<byte>): (r: string)
    requires |s| == 4
    ensures |r| == 1 || |r| == 4 || |r| == 6 || |r| == 8
    ensures |r| == 1 <==> s == [0, 0, 0, 0]
    ensures |r| == 4 <==> IsPrint(s[0]) && IsPrint(s[1]) && IsPrint(s[2]) && IsPrint(s[3])
  {
    LE32Zero(s);
    if LE32(s, 0) == 0 then "0"
    else if IsPrint(s[0]) && IsPrint(s[1]) && IsPrint(s[2]) && IsPrint(s[3]) then
      [s[0] as char, s[1] as char, s[2] as char, s[3] as char]
    else if IsPrint(s[0]) && IsPrint(s[1]) then
      [s[0] as char, s[1] as char] + Hex2(s[2]) + Hex2(s[3])
    else
      HexN(BE32(s, 0), 8)
  }

  lemma LE32Zero(s: seq<byte>)
    requires |s| == 4
    ensures LE32(s, 0) == 0 <==> s == [0, 0, 0, 0]
  {
  }

  /** Reading a shown signature back: its length tells which form it has. */
  function SignatureOfText(t: string): (r: seq<byte>)
    requires |t| == 1 || |t| == 4 || |t| == 6 || |t| == 8
  {
    if |t| == 1 then [0, 0, 0, 0]
    else if |t| == 4 then [CharByte(t[0]), CharByte(t[1]), CharByte(t[2]), CharByte(t[3])]
    else if |t| == 6 then [CharByte(t[0]), CharByte(t[1]), HexByte(t[2..4]), HexByte(t[4..6])]
    else BE32Bytes(U32(ReadHex(t)))
  }

  function CharByte(c: char): byte
  {
    if c as int < 0x100 then c as int else 0
  }

  function HexByte(t: string): byte
    requires |t| == 2
  {
    var v := ReadHex2(t);
    if 0 <= v < 0x100 then v else 0
  }

  /** The shown signature determines the signature: reading it back gives
      the four bytes. */
  lemma SignatureTextRoundTrip(s: seq<byte>)
    requires |s| == 4
    ensures SignatureOfText(SignatureText(s)) == s
  {
    if s == [0, 0, 0, 0] {
    } else if IsPrint(s[0]) && IsPrint(s[1]) && IsPrint(s[2]) && IsPrint(s[3]) {
    } else if IsPrint(s[0]) && IsPrint(s[1]) {
      MixedSignatureRoundTrip(s);
    } else {
      HexSignatureRoundTrip(s);
    }
  }

  /** Two printable bytes and two in hex read back as the four bytes. */
  lemma MixedSignatureRoundTrip(s: seq<byte>)
    requires |s| == 4 && IsPrint(s[0]) && IsPrint(s[1])
    ensures var t := [s[0] as char, s[1] as char] + Hex2(s[2]) + Hex2(s[3]);
            |t| == 6 && SignatureOfText(t) == s
  {
    var t := [s[0] as char, s[1] as char] + Hex2(s[2]) + Hex2(s[3]);
    assert t[2..4] == Hex2(s[2]) && t[4..6] == Hex2(s[3]);
    Hex2RoundTrip(s[2]);
    Hex2RoundTrip(s[3]);
  }

  /** Eight hex digits read back as the four bytes, most significant first. */
  lemma HexSignatureRoundTrip(s: seq<byte>)
    requires |s| == 4
    ensures |HexN(BE32(s, 0), 8)| == 8 && SignatureOfText(HexN(BE32(s, 0), 8)) == s
  {
    HexNRoundTrip(BE32(s, 0), 8);
    BE32Decompose(s);
  }

  /** Two signatures are shown alike only when they are the same. */
  lemma SignatureTextInjective(a: seq<byte>, b: seq<byte>)
    requires |a| == 4 && |b| == 4 && SignatureText(a) == SignatureText(b)
    ensures a == b
  {
    SignatureTextRoundTrip(a);
    SignatureTextRoundTrip(b);
  }

  // ---------------------------------------------------------------------------
  // The tag table

  /** The tag count follows the header; each entry is a signature in memory
      order, then the big-endian offset and size of the tag's element
      relative to the start of the profile. */
  const OFF_TAG_COUNT: nat := PROFILE_HEADER_SIZE
  const OFF_TAG_ENTRIES: nat := OFF_TAG_COUNT + 4
  const TAG_ENTRY_SIZE: nat := 12

  datatype TagEntry = TagEntry(sig: seq<byte>, offset: u32, size: u32)

  function TagEntryAt(p: seq<byte>, i: nat): (e: TagEntry)
    requires OFF_TAG_ENTRIES + TAG_ENTRY_SIZE * (i + 1) <= |p|
    ensures |e.sig| == 4
  {
    var at := OFF_TAG_ENTRIES + TAG_ENTRY_SIZE * i;
    TagEntry(p[at..at + 4], BE32(p, at + 4), BE32(p, at + 8))
  }

  /** How many entries the walk reads: the declared count, stopping early at
      the first entry that would run past the profile. */
  function TagsRead(p: seq<byte>): (n: nat)
    ensures n > 0 ==> |p| >= OFF_TAG_ENTRIES && n <= BE32(p, OFF_TAG_COUNT)
    ensures OFF_TAG_ENTRIES + TAG_ENTRY_SIZE * n <= |p| || n == 0
    ensures |p| >= OFF_TAG_ENTRIES && |p| >= OFF_TAG_ENTRIES + TAG_ENTRY_SIZE * BE32(p, OFF_TAG_COUNT)
            ==> n == BE32(p, OFF_TAG_COUNT)
  {
    if |p| < OFF_TAG_ENTRIES then 0
    else
      var room := (|p| - OFF_TAG_ENTRIES) / TAG_ENTRY_SIZE;
      var count := BE32(p, OFF_TAG_COUNT);
      if count <= room then count else room
  }

  /** The tag table of a profile. */
  function TagTable(p: seq<byte>): (r: seq<TagEntry>)
    ensures |r| == TagsRead(p)
  {
    var n := TagsRead(p);
    seq(n, i requires 0 <= i < n => TagEntryAt(p, i))
  }

  /** The walk over the tag table, one 12-byte entry at a time, with a cursor
      into the profile. */
  method WalkTagTable(p: seq<byte>) returns (tags: seq<TagEntry>)
    ensures tags == TagTable(p)
  {
    tags := [];
    if |p| < OFF_TAG_ENTRIES {
      return;
    }
    var count := BE32(p, OFF_TAG_COUNT);
    var cursor := OFF_TAG_ENTRIES;
    while count > 0 && cursor + TAG_ENTRY_SIZE <= |p|
      invariant cursor == OFF_TAG_ENTRIES + TAG_ENTRY_SIZE * |tags|
      invariant |tags| + count == BE32(p, OFF_TAG_COUNT)
      invariant cursor <= |p|
      invariant forall i | 0 <= i < |tags| :: tags[i] == TagEntryAt(p, i)
      decreases count
    {
      var e := TagEntry(p[cursor..cursor + 4], BE32(p, cursor + 4), BE32(p, cursor + 8));
      tags := tags + [e];
      cursor := cursor + TAG_ENTRY_SIZE;
      count := count - 1;
    }
    assert |tags| == TagsRead(p) by {
      if count > 0 {
        assert (|p| - OFF_TAG_ENTRIES) / TAG_ENTRY_SIZE == |tags|;
      }
    }
  }

  /** Where the reads of the tag walk in ParseBitmap.cpp end for a declared
      count: the count DWORD at offset 128, then 12 bytes per entry. Nothing
      there bounds the walk by the profile's length. */
  function TagWalkEndAsWritten(count: u32): (end: nat)
    ensures end >= OFF_TAG_ENTRIES && (count > 0 ==> end > OFF_TAG_ENTRIES)
  {
    OFF_TAG_ENTRIES + TAG_ENTRY_SIZE * count
  }

  /** A 128-byte profile holding only its header, which states its own
      length and carries the 'acsp' signature. */
  function HeaderOnlyProfile(): (p: seq<byte>)
    ensures |p| == PROFILE_HEADER_SIZE
  {
    BE32Bytes(PROFILE_HEADER_SIZE) + Zeros(OFF_PH_SIGNATURE - 4) + BE32Bytes(ACSP)
      + Zeros(PROFILE_HEADER_SIZE - OFF_PH_SIGNATURE - 4)
  }

  /** The header-only profile passes every check on an embedded profile and
      its header is examined, so the tag walk runs on it: as written, even
      its first read, the tag count, lies past the profile, whatever the
      count; the model reads no tag at all. */
  lemma TagWalkOverrun()
    ensures var p := HeaderOnlyProfile();
            !EmbeddedProfileCorrupt(p) && ProfileHeaderShown(p)
            && forall count: u32 :: TagWalkEndAsWritten(count) > |p|
    ensures TagTable(HeaderOnlyProfile()) == []
  {
    var p := HeaderOnlyProfile();
    BE32At(p, OFF_PH_SIZE, PROFILE_HEADER_SIZE);
    BE32At(p, OFF_PH_SIGNATURE, ACSP);
  }

  /** On any profile the model reads exactly the declared entries when the
      table fits, and otherwise only the entries inside the profile, where
      the walk as written runs on past its end. */
  lemma TagWalkBounded(p: seq<byte>)
    requires |p| >= OFF_TAG_ENTRIES
    ensures TagWalkEndAsWritten(BE32(p, OFF_TAG_COUNT)) <= |p| ==> |TagTable(p)| == BE32(p, OFF_TAG_COUNT)
    ensures TagWalkEndAsWritten(BE32(p, OFF_TAG_COUNT)) > |p| ==>
              |TagTable(p)| < BE32(p, OFF_TAG_COUNT) && OFF_TAG_ENTRIES + TAG_ENTRY_SIZE * |TagTable(p)| <= |p|
  {
  }

  /** The bytes of a tag table: the big-endian count, then each entry. */
  function EncodeTagTable(tags: seq<TagEntry>): (r: seq<byte>)
    requires |tags| < TWO32 && forall i | 0 <= i < |tags| :: |tags[i].sig| == 4
    ensures |r| == 4 + TAG_ENTRY_SIZE * |tags|
  {
    BE32Bytes(|tags|) + EncodeTagEntries(tags)
  }

  /** The twelve bytes of one entry: signature, offset, size. */
  function EncodeTagEntry(t: TagEntry): (r: seq<byte>)
    requires |t.sig| == 4
    ensures |r| == TAG_ENTRY_SIZE
  {
    t.sig + BE32Bytes(t.offset) + BE32Bytes(t.size)
  }

  function EncodeTagEntries(tags: seq<TagEntry>): (r: seq<byte>)
    requires forall i | 0 <= i < |tags| :: |tags[i].sig| == 4
    ensures |r| == TAG_ENTRY_SIZE * |tags|
  {
    if tags == [] then [] else EncodeTagEntry(tags[0]) + EncodeTagEntries(tags[1..])
  }

  /** One encoded entry reads back as the tag it encodes. */
  lemma EncodedEntryFields(p: seq<byte>, at: nat, t: TagEntry)
    requires |t.sig| == 4 && at + TAG_ENTRY_SIZE <= |p| && p[at..at + TAG_ENTRY_SIZE] == EncodeTagEntry(t)
    ensures p[at..at + 4] == t.sig && BE32(p, at + 4) == t.offset && BE32(p, at + 8) == t.size
  {
    var e := p[at..at + TAG_ENTRY_SIZE];
    var off, size := BE32Bytes(t.offset), BE32Bytes(t.size);
    assert e == t.sig + off + size;
    assert e[..4] == t.sig && e[4..8] == off && e[8..12] == size;
    SliceOfSlice(p, at, at + TAG_ENTRY_SIZE, 0, 4);
    SliceOfSlice(p, at, at + TAG_ENTRY_SIZE, 4, 8);
    SliceOfSlice(p, at, at + TAG_ENTRY_SIZE, 8, 12);
    BE32At(p, at + 4, t.offset);
    BE32At(p, at + 8, t.size);
  }

  /** Entry i of the encoded entries sits twelve bytes times i in. */
  lemma {:induction false} EncodedEntryAt(tags: seq<TagEntry>, i: nat, base: nat, p: seq<byte>)
    requires forall j | 0 <= j < |tags| :: |tags[j].sig| == 4
    requires i < |tags| && base + TAG_ENTRY_SIZE * |tags| <= |p|
    requires p[base..base + TAG_ENTRY_SIZE * |tags|] == EncodeTagEntries(tags)
    ensures p[base + TAG_ENTRY_SIZE * i..base + TAG_ENTRY_SIZE * i + TAG_ENTRY_SIZE] == EncodeTagEntry(tags[i])
  {
    var end := base + TAG_ENTRY_SIZE * |tags|;
    var head := EncodeTagEntry(tags[0]);
    assert p[base..end] == head + EncodeTagEntries(tags[1..]);
    if i == 0 {
      SliceOfSlice(p, base, end, 0, TAG_ENTRY_SIZE);
    } else {
      var rest := tags[1..];
      SliceOfSlice(p, base, end, TAG_ENTRY_SIZE, end - base);
      assert p[base + TAG_ENTRY_SIZE..end] == EncodeTagEntries(rest);
      assert forall j | 0 <= j < |rest| :: rest[j] == tags[j + 1];
      EncodedEntryAt(rest, i - 1, base + TAG_ENTRY_SIZE, p);
      assert rest[i - 1] == tags[i];
    }
  }

  /** The walk reads back every entry of a table written after a header. */
  lemma TagTableRoundTrip(header: seq<byte>, tags: seq<TagEntry>)
    requires |header| == PROFILE_HEADER_SIZE && |tags| < TWO32
    requires forall i | 0 <= i < |tags| :: |tags[i].sig| == 4
    ensures TagTable(header + EncodeTagTable(tags)) == tags
  {
    var p := header + EncodeTagTable(tags);
    assert p[OFF_TAG_COUNT..OFF_TAG_ENTRIES] == BE32Bytes(|tags|);
    assert BE32(p, OFF_TAG_COUNT) == |tags|;
    assert p[OFF_TAG_ENTRIES..OFF_TAG_ENTRIES + TAG_ENTRY_SIZE * |tags|] == EncodeTagEntries(tags);
    var r := TagTable(p);
    forall i | 0 <= i < |tags|
      ensures r[i] == tags[i]
    {
      EncodedEntryAt(tags, i, OFF_TAG_ENTRIES, p);
      EncodedEntryFields(p, OFF_TAG_ENTRIES + TAG_ENTRY_SIZE * i, tags[i]);
    }
  }

  // ---------------------------------------------------------------------------
  // PrintProfileTagData

  /** Characters in one line of the report. */
  const OUTPUT_LEN: nat := 1024

  // Tag type signatures, as big-endian DWORDs
  const TYPE_SIGNATURE: u32 := 0x7369_6720  // 'sig '
  const TYPE_TEXT: u32 := 0x7465_7874       // 'text'
  const TYPE_DESC: u32 := 0x6465_7363       // 'desc'
  const TYPE_UTF8: u32 := 0x7574_6638       // 'utf8'
  const TYPE_MLUC: u32 := 0x6D6C_7563       // 'mluc'
  const TYPE_CURV: u32 := 0x6375_7276       // 'curv'
  const TYPE_XYZ: u32 := 0x5859_5A20        // 'XYZ '
  const TYPE_ICCP: u32 := 0x4943_4370       // 'ICCp'
  const TYPE_MS10: u32 := 0x4D53_3130       // 'MS10'

  const CR: int := 0x0D
  const LF: int := 0x0A

  /** What is shown of a tag's element, if anything. Strings are shown as
      the characters they hold up to their first NUL; floating-point values
      are kept as the fixed-point numbers they are printed from. */
  datatype TagView =
    | NoView
    | SignatureView(sigText: string)
    | TextView(text: seq<byte>)          // 'text' and 'desc': single-byte characters
    | Utf8View(bytes: seq<byte>)         // 'utf8': UTF-8 bytes, converted for display
    | UnicodeView(units: seq<u16>)       // 'mluc': UTF-16 code units of the first record, NULs dropped
    | CurveIdentity                      // 'curv' with no entries: Y = X
    | CurveGamma(gamma: u16)             // 'curv' with one entry: a u8Fixed8 gamma
    | XyzView(x: int, y: int, z: int)    // 'XYZ ' with one s15Fixed16 triple
    | EmbeddedIccView
    | EmbeddedWcsView

  /** The longest string shown after a label of the given length. */
  function MaxTextLen(labelLen: nat): (r: nat)
    ensures r <= OUTPUT_LEN - 39 && (labelLen <= OUTPUT_LEN - 39 ==> r == OUTPUT_LEN - 39 - labelLen)
  {
    var limit := OUTPUT_LEN - 39;
    limit - (if labelLen < limit then labelLen else limit)
  }

  /** A string that no line break interrupts. */
  predicate OneLine(s: seq<int>)
  {
    CR !in s && LF !in s
  }

  /** The C string at `from`, read at most `max` characters far; None when the
      read would leave the profile before it ends. */
  function BoundedCString(p: seq<byte>, from: nat, max: nat): (r: Option<seq<byte>>)
    ensures r.Some? ==> |r.value| <= max && 0 !in r.value
  {
    var end := if from + max <= |p| then from + max else |p|;
    if from > |p| then None
    else
      var t := CString(p[from..end], 0);
      if |t| < end - from || end == from + max then Some(t) else None
  }

  /** The element of a tag: `p` is the profile, `at` the element's offset and
      `size` its declared size; `labelLen` is the length of the label printed
      in front of it. Every read stays inside the profile; a read that would
      leave it shows nothing. */
  function TagDataView(p: seq<byte>, at: nat, size: u32, labelLen: nat): (r: TagView)
    ensures size < 4 ==> r == NoView
    ensures r.SignatureView? ==> size == 12
    ensures r.XyzView? ==> size == 20
    ensures r.CurveIdentity? || r.CurveGamma? ==> size >= 12
    ensures r.EmbeddedIccView? || r.EmbeddedWcsView? ==> size > 8
    ensures r.TextView? ==> 0 < size - 8 && |r.text| <= MaxTextLen(labelLen) && OneLine(r.text)
    ensures r.Utf8View? ==> |r.bytes| <= size - 8 <= MaxTextLen(labelLen) && OneLine(r.bytes)
    ensures r.UnicodeView? ==> |r.units| <= MaxTextLen(labelLen) && OneLine(r.units)
  {
    var max := MaxTextLen(labelLen);
    if size < 4 || at + 4 > |p| then NoView
    else
      var tagType := BE32(p, at);
      if tagType == TYPE_SIGNATURE then
        if size == 12 && at + 12 <= |p| then SignatureView(SignatureText(p[at + 8..at + 12])) else NoView
      else if tagType == TYPE_TEXT then
        if size > 8 && size - 8 <= max && at + size <= |p| then
          var t := CString(p[at + 8..at + size], 0);
          if OneLine(t) then TextView(t) else NoView
        else NoView
      else if tagType == TYPE_DESC then
        if size > 12 && at + 12 <= |p| then
          var len := BE32(p, at + 8);
          if 0 < len <= max then
            match BoundedCString(p, at + 12, len)
            case Some(t) => if OneLine(t) then TextView(t) else NoView
            case None => NoView
          else NoView
        else NoView
      else if tagType == TYPE_UTF8 then
        if size > 8 && size - 8 <= max && at + size <= |p| then
          var t := CString(p[at + 8..at + size], 0);
          if OneLine(t) then Utf8View(t) else NoView
        else NoView
      else if tagType == TYPE_MLUC then
        if size > 28 && at + 28 <= |p| && BE32(p, at + 8) > 0 then
          var len := BE32(p, at + 20);
          var from := at + BE32(p, at + 24);
          if 0 < len && len / 2 <= max && from + len / 2 * 2 <= |p| then
            var u := DropNuls(Utf16BE(p, from, len / 2));
            if OneLine(u) then UnicodeView(u) else NoView
          else NoView
        else NoView
      else if tagType == TYPE_CURV then
        if size >= 12 && at + 12 <= |p| then
          var count := BE32(p, at + 8);
          if count == 0 then CurveIdentity
          else if count == 1 && at + 14 <= |p| then CurveGamma(BE16(p, at + 12))
          else NoView
        else NoView
      else if tagType == TYPE_XYZ then
        if size == 20 && at + 20 <= |p| then
          XyzView(AsInt32(BE32(p, at + 8)), AsInt32(BE32(p, at + 12)), AsInt32(BE32(p, at + 16)))
        else NoView
      else if tagType == TYPE_ICCP then
        if size > 8 then EmbeddedIccView else NoView
      else if tagType == TYPE_MS10 then
        if size > 8 then EmbeddedWcsView else NoView
      else NoView
  }

  const WCHAR_SIZE: nat := 2

  /** The bytes the 'utf8' case of PrintProfileTagData allocates for the
      UTF-16 form of a string of `units` code units: the count of units
      plus the size of one WCHAR, a count of units where bytes are meant. */
  function Utf16AllocAsWritten(units: nat): (r: nat)
    ensures r < Utf16Bytes(units) <==> units > 0
  {
    units + WCHAR_SIZE
  }

  /** The bytes the UTF-16 form of `units` code units takes with its NUL. */
  function Utf16Bytes(units: nat): (r: nat)
    ensures r % WCHAR_SIZE == 0 && r / WCHAR_SIZE == units + 1
  {
    WCHAR_SIZE * (units + 1)
  }

  /** As written, the conversion stores 2 bytes per code unit into the
      buffer, so a string of more than two code units runs past its end,
      and the NUL that ends any non-empty string lies outside it; a buffer
      of Utf16Bytes holds every unit and the NUL. */
  lemma Utf8AllocOverrun(units: nat)
    requires units > 0
    ensures WCHAR_SIZE * units + WCHAR_SIZE > Utf16AllocAsWritten(units)
    ensures units > 2 ==> WCHAR_SIZE * units > Utf16AllocAsWritten(units)
    ensures forall i | 0 <= i <= units :: WCHAR_SIZE * i + WCHAR_SIZE <= Utf16Bytes(units)
  {
  }

  /** `n` big-endian UTF-16 code units from `from`, in host order. */
  function Utf16BE(p: seq<byte>, from: nat, n: nat): (r: seq<u16>)
    requires from + 2 * n <= |p|
    ensures |r| == n && forall i | 0 <= i < n :: r[i] == BE16(p, from + 2 * i)
  {
    seq(n, i requires 0 <= i < n => BE16(p, from + 2 * i))
  }

  /** The units with every NUL left out. */
  function DropNuls(s: seq<u16>): (r: seq<u16>)
    ensures |r| <= |s| && 0 !in r
  {
    if s == [] then []
    else DropNuls(s[..|s| - 1]) + (if s[|s| - 1] == 0 then [] else [s[|s| - 1]])
  }

  /** Dropping NULs keeps every other unit, in order: nothing else is lost. */
  lemma {:induction false} DropNulsKeeps(s: seq<u16>)
    ensures forall x :: x in DropNuls(s) <==> x in s && x != 0
    ensures 0 !in s ==> DropNuls(s) == s
  {
    if s != [] {
      var front := s[..|s| - 1];
      DropNulsKeeps(front);
      assert s == front + [s[|s| - 1]];
    }
  }

  lemma DropNulsStep(s: seq<u16>, i: nat)
    requires i < |s|
    ensures DropNuls(s[..i + 1]) == DropNuls(s[..i]) + (if s[i] == 0 then [] else [s[i]])
  {
    assert s[..i + 1][..i] == s[..i];
  }

  /** The loop that converts the code units of an 'mluc' record from big-
      to little-endian into a zeroed buffer of n + 1 units. Each unit is
      appended with a "%s%c" format that reads the buffer back as a string,
      so the string always ends at the first NUL: a NUL unit is written
      where the next unit then lands, and drops out. `len` is the length of
      the string the buffer holds. */
  method SwapUnits(p: seq<byte>, from: nat, n: nat) returns (dest: array<u16>, len: nat)
    requires from + 2 * n <= |p|
    ensures fresh(dest) && dest.Length == n + 1 && len <= n
    ensures dest[..len] == DropNuls(Utf16BE(p, from, n))
    ensures forall j | len <= j <= n :: dest[j] == 0
  {
    dest := new u16[n + 1](_ => 0);
    len := 0;
    var i := 0;
    ghost var units := Utf16BE(p, from, n);
    while i < n
      invariant 0 <= len <= i <= n
      invariant dest[..len] == DropNuls(units[..i])
      invariant forall j | len <= j < dest.Length :: dest[j] == 0
    {
      len := KeepUnit(dest, len, units, i, BE16(p, from + 2 * i));
      i := i + 1;
    }
    assert units[..n] == units;
  }

  /** One step of the loop: unit i joins the kept units unless it is 0. */
  method KeepUnit(dest: array<u16>, len: nat, ghost units: seq<u16>, i: nat, unit: u16) returns (newLen: nat)
    requires i < |units| && unit == units[i] && len <= i < dest.Length
    requires dest[..len] == DropNuls(units[..i])
    requires forall j | len <= j < dest.Length :: dest[j] == 0
    modifies dest
    ensures newLen <= i + 1
    ensures dest[..newLen] == DropNuls(units[..i + 1])
    ensures forall j | newLen <= j < dest.Length :: dest[j] == 0
  {
    DropNulsStep(units, i);
    newLen := PutUnit(dest, len, unit);
  }

  /** Stores a unit behind the `len` kept ones and keeps it unless it is 0. */
  method PutUnit(dest: array<u16>, len: nat, unit: u16) returns (newLen: nat)
    requires len < dest.Length && forall j | len <= j < dest.Length :: dest[j] == 0
    modifies dest
    ensures newLen == if unit != 0 then len + 1 else len
    ensures dest[..newLen] == if unit != 0 then old(dest[..len]) + [unit] else old(dest[..len])
    ensures forall j | newLen <= j < dest.Length :: dest[j] == 0
  {
    ghost var shown := dest[..len];
    dest[len] := unit;
    assert dest[..len] == shown;
    newLen := len;
    if unit != 0 {
      assert dest[..len + 1] == shown + [unit];
      newLen := len + 1;
    }
  }

  // ---------------------------------------------------------------------------
  // Tags written the way a profile writer lays them out, and what is shown of them

  /** A 'text' element: type, reserved DWORD, the characters and a NUL. */
  function TextTag(t: seq<byte>): (r: seq<byte>)
    ensures |r| == |t| + 9
  {
    BE32Bytes(TYPE_TEXT) + Zeros(4) + t + [0]
  }

  /** Where a 'text' tag lies, its type and its NUL-terminated payload read back. */
  lemma CStringOfTextTag(p: seq<byte>, at: nat, t: seq<byte>)
    requires at + |t| + 9 <= |p| && p[at..at + |t| + 9] == TextTag(t)
    ensures BE32(p, at) == TYPE_TEXT && p[at + 8..at + |t| + 9] == t + [0]
  {
    var tag := TextTag(t);
    assert tag[..4] == BE32Bytes(TYPE_TEXT) && tag[8..] == t + [0];
    SliceOfSlice(p, at, at + |t| + 9, 0, 4);
    SliceOfSlice(p, at, at + |t| + 9, 8, |t| + 9);
    BE32At(p, at, TYPE_TEXT);
  }

  /** A 'text' tag shows its whole string, and nothing at all when the string
      is too long for the line or breaks it. */
  lemma TextTagShows(p: seq<byte>, at: nat, t: seq<byte>, labelLen: nat)
    requires 0 !in t && |t| + 9 < TWO32
    requires at + |t| + 9 <= |p| && p[at..at + |t| + 9] == TextTag(t)
    ensures OneLine(t) && |t| + 1 <= MaxTextLen(labelLen) ==> TagDataView(p, at, |t| + 9, labelLen) == TextView(t)
    ensures !OneLine(t) || |t| + 1 > MaxTextLen(labelLen) ==> TagDataView(p, at, |t| + 9, labelLen) == NoView
  {
    CStringOfTextTag(p, at, t);
    CStringOfTerminated(t, 0, []);
    assert t + [0] + [] == t + [0];
  }

  /** A 'desc' element, ASCII part only: type, reserved DWORD, the count of
      characters including the NUL, the characters and the NUL. */
  function DescTag(t: seq<byte>): (r: seq<byte>)
    requires |t| + 1 < TWO32
    ensures |r| == |t| + 13
  {
    BE32Bytes(TYPE_DESC) + Zeros(4) + BE32Bytes(|t| + 1) + t + [0]
  }

  lemma DescTagParts(t: seq<byte>)
    requires |t| + 1 < TWO32
    ensures var tag := DescTag(t);
            tag[..4] == BE32Bytes(TYPE_DESC) && tag[8..12] == BE32Bytes(|t| + 1) && tag[12..] == t + [0]
  {
  }

  /** The fields of a 'desc' tag read back: its type, the string's length
      with its NUL, and the string. */
  lemma DescTagRead(p: seq<byte>, at: nat, t: seq<byte>)
    requires 0 !in t && |t| + 13 < TWO32
    requires at + |t| + 13 <= |p| && p[at..at + |t| + 13] == DescTag(t)
    ensures BE32(p, at) == TYPE_DESC && BE32(p, at + 8) == |t| + 1
    ensures BoundedCString(p, at + 12, |t| + 1) == Some(t)
  {
    var tag := DescTag(t);
    DescTagParts(t);
    BE32Within(p, at, tag, 0, TYPE_DESC);
    BE32Within(p, at, tag, 8, |t| + 1);
    PartAt(p, at, tag, 12, |tag|);
    CStringOfTerminated(t, 0, []);
    assert t + [0] + [] == t + [0];
  }

  /** A 'desc' tag shows its whole string or nothing, like a 'text' tag. */
  lemma DescTagShows(p: seq<byte>, at: nat, t: seq<byte>, labelLen: nat)
    requires 0 !in t && |t| + 13 < TWO32
    requires at + |t| + 13 <= |p| && p[at..at + |t| + 13] == DescTag(t)
    ensures OneLine(t) && |t| + 1 <= MaxTextLen(labelLen) ==> TagDataView(p, at, |t| + 13, labelLen) == TextView(t)
    ensures !OneLine(t) || |t| + 1 > MaxTextLen(labelLen) ==> TagDataView(p, at, |t| + 13, labelLen) == NoView
  {
    DescTagRead(p, at, t);
  }

  /** An 'XYZ ' element with one s15Fixed16 triple. */
  function XyzTag(x: int, y: int, z: int): (r: seq<byte>)
    ensures |r| == 20
  {
    BE32Bytes(TYPE_XYZ) + Zeros(4) + BE32Bytes(U32(x)) + BE32Bytes(U32(y)) + BE32Bytes(U32(z))
  }

  lemma XyzTagParts(x: int, y: int, z: int)
    ensures var tag := XyzTag(x, y, z);
            tag[..4] == BE32Bytes(TYPE_XYZ) && tag[8..12] == BE32Bytes(U32(x))
            && tag[12..16] == BE32Bytes(U32(y)) && tag[16..20] == BE32Bytes(U32(z))
  {
    var tag := XyzTag(x, y, z);
    var head, xs, ys, zs := BE32Bytes(TYPE_XYZ) + Zeros(4), BE32Bytes(U32(x)), BE32Bytes(U32(y)), BE32Bytes(U32(z));
    assert tag == head + xs + ys + zs;
    assert tag[..4] == BE32Bytes(TYPE_XYZ);
    assert tag[8..12] == xs;
    assert tag[12..16] == ys;
    assert tag[16..20] == zs;
  }

  /** An 'XYZ ' tag shows the signed values it was written with. */
  lemma XyzTagShows(p: seq<byte>, at: nat, x: int, y: int, z: int, labelLen: nat)
    requires -TWO31 <= x < TWO31 && -TWO31 <= y < TWO31 && -TWO31 <= z < TWO31
    requires at + 20 <= |p| && p[at..at + 20] == XyzTag(x, y, z)
    ensures TagDataView(p, at, 20, labelLen) == XyzView(x, y, z)
  {
    var tag := XyzTag(x, y, z);
    XyzTagParts(x, y, z);
    BE32Within(p, at, tag, 0, TYPE_XYZ);
    BE32Within(p, at, tag, 8, U32(x));
    BE32Within(p, at, tag, 12, U32(y));
    BE32Within(p, at, tag, 16, U32(z));
    assert I32(x) == x && I32(y) == y && I32(z) == z;
  }

  /** A 'curv' element: no entries for the identity, or one u8Fixed8 gamma. */
  function CurveTag(gamma: Option<u16>): (r: seq<byte>)
    ensures |r| == if gamma.Some? then 14 else 12
  {
    match gamma
    case None => BE32Bytes(TYPE_CURV) + Zeros(4) + BE32Bytes(0)
    case Some(g) => BE32Bytes(TYPE_CURV) + Zeros(4) + BE32Bytes(1) + BE16Bytes(g)
  }

  /** A 'curv' tag shows the identity or the gamma it was written with. */
  lemma CurveTagShows(p: seq<byte>, at: nat, gamma: Option<u16>, labelLen: nat)
    requires at + |CurveTag(gamma)| <= |p| && p[at..at + |CurveTag(gamma)|] == CurveTag(gamma)
    ensures TagDataView(p, at, |CurveTag(gamma)|, labelLen) == if gamma.Some? then CurveGamma(gamma.value) else CurveIdentity
  {
    var tag := CurveTag(gamma);
    assert tag[..4] == BE32Bytes(TYPE_CURV);
    BE32Within(p, at, tag, 0, TYPE_CURV);
    if gamma.Some? {
      assert tag[8..12] == BE32Bytes(1) && tag[12..14] == BE16Bytes(gamma.value);
      BE32Within(p, at, tag, 8, 1);
      PartAt(p, at, tag, 12, 14);
      BE16At(p, at + 12, gamma.value);
    } else {
      assert tag[8..12] == BE32Bytes(0);
      BE32Within(p, at, tag, 8, 0);
    }
  }

  /** A 'sig ' element. */
  function SignatureTag(sig: seq<byte>): (r: seq<byte>)
    requires |sig| == 4
    ensures |r| == 12
  {
    BE32Bytes(TYPE_SIGNATURE) + Zeros(4) + sig
  }

  /** A 'sig ' tag shows text from which its signature reads back. */
  lemma SignatureTagShows(p: seq<byte>, at: nat, sig: seq<byte>, labelLen: nat)
    requires |sig| == 4 && at + 12 <= |p| && p[at..at + 12] == SignatureTag(sig)
    ensures TagDataView(p, at, 12, labelLen) == SignatureView(SignatureText(sig))
    ensures SignatureOfText(TagDataView(p, at, 12, labelLen).sigText) == sig
  {
    var tag := SignatureTag(sig);
    assert tag[..4] == BE32Bytes(TYPE_SIGNATURE) && tag[8..] == sig;
    BE32Within(p, at, tag, 0, TYPE_SIGNATURE);
    PartAt(p, at, tag, 8, 12);
    SignatureTextRoundTrip(sig);
  }

  /** Code units stored big-endian, two bytes each. */
  function EncodeUnits(us: seq<u16>): (r: seq<byte>)
    ensures |r| == 2 * |us|
  {
    if us == [] then [] else BE16Bytes(us[0]) + EncodeUnits(us[1..])
  }

  /** Unit i of stored units sits two bytes times i in. */
  lemma {:induction false} EncodedUnitAt(p: seq<byte>, from: nat, us: seq<u16>, i: nat)
    requires i < |us| && from + 2 * |us| <= |p| && p[from..from + 2 * |us|] == EncodeUnits(us)
    ensures BE16(p, from + 2 * i) == us[i]
    decreases i
  {
    var block := EncodeUnits(us);
    assert block == BE16Bytes(us[0]) + EncodeUnits(us[1..]);
    if i == 0 {
      PartAt(p, from, block, 0, 2);
      BE16At(p, from, us[0]);
    } else {
      PartAt(p, from, block, 2, |block|);
      EncodedUnitAt(p, from + 2, us[1..], i - 1);
    }
  }

  /** Stored units read back in order. */
  lemma EncodedUnitsRead(p: seq<byte>, from: nat, us: seq<u16>)
    requires from + 2 * |us| <= |p| && p[from..from + 2 * |us|] == EncodeUnits(us)
    ensures Utf16BE(p, from, |us|) == us
  {
    forall i | 0 <= i < |us|
      ensures Utf16BE(p, from, |us|)[i] == us[i]
    {
      EncodedUnitAt(p, from, us, i);
    }
  }

  /** An 'mluc' element with one record: type, reserved DWORD, record count,
      record size 12, language and country, the record's byte length and
      offset, then its units. */
  function MlucTag(lang: seq<byte>, us: seq<u16>): (r: seq<byte>)
    requires |lang| == 4 && 2 * |us| < TWO32
    ensures |r| == 28 + 2 * |us|
  {
    BE32Bytes(TYPE_MLUC) + Zeros(4) + BE32Bytes(1) + BE32Bytes(12) + lang
      + BE32Bytes(2 * |us|) + BE32Bytes(28) + EncodeUnits(us)
  }

  /** Where an 'mluc' tag lies, its header fields and units read back. */
  lemma MlucTagFields(p: seq<byte>, at: nat, lang: seq<byte>, us: seq<u16>)
    requires |lang| == 4 && 28 + 2 * |us| < TWO32
    requires at + 28 + 2 * |us| <= |p| && p[at..at + 28 + 2 * |us|] == MlucTag(lang, us)
    ensures BE32(p, at) == TYPE_MLUC && BE32(p, at + 8) == 1
    ensures BE32(p, at + 20) == 2 * |us| && BE32(p, at + 24) == 28
    ensures Utf16BE(p, at + 28, |us|) == us
  {
    var tag := MlucTag(lang, us);
    assert tag[..4] == BE32Bytes(TYPE_MLUC) && tag[8..12] == BE32Bytes(1);
    assert tag[20..24] == BE32Bytes(2 * |us|) && tag[24..28] == BE32Bytes(28);
    assert tag[28..] == EncodeUnits(us);
    BE32Within(p, at, tag, 0, TYPE_MLUC);
    BE32Within(p, at, tag, 8, 1);
    BE32Within(p, at, tag, 20, 2 * |us|);
    BE32Within(p, at, tag, 24, 28);
    PartAt(p, at, tag, 28, |tag|);
    EncodedUnitsRead(p, at + 28, us);
  }

  /** An 'mluc' tag shows its whole first record or nothing. */
  lemma MlucTagShows(p: seq<byte>, at: nat, lang: seq<byte>, us: seq<u16>, labelLen: nat)
    requires |lang| == 4 && 0 < |us| && 28 + 2 * |us| < TWO32 && 0 !in us
    requires at + 28 + 2 * |us| <= |p| && p[at..at + 28 + 2 * |us|] == MlucTag(lang, us)
    ensures OneLine(us) && |us| <= MaxTextLen(labelLen) ==> TagDataView(p, at, 28 + 2 * |us|, labelLen) == UnicodeView(us)
    ensures !OneLine(us) || |us| > MaxTextLen(labelLen) ==> TagDataView(p, at, 28 + 2 * |us|, labelLen) == NoView
  {
    MlucTagFields(p, at, lang, us);
    assert 2 * |us| / 2 == |us|;
    DropNulsKeeps(us);
  }

  // ---------------------------------------------------------------------------
  // The profile header as ParseDIBitmap reports it

  /** The version as shown: ColorSync 1.0, or major.minor.bugfix from the
      high word, with the subclass version from the low word when there is
      one to show. */
  datatype ProfileVersion =
    | ColorSync10
    | Version(major: nat, minor: nat, bugfix: nat, sub: Option<(nat, nat)>)

  function VersionOf(v: u32, subClass: u32): (r: ProfileVersion)
    ensures r.ColorSync10? <==> v == VERSION_1_0
    ensures r.Version? ==> r.major < 0x100 && r.minor < 0x10 && r.bugfix < 0x10
    ensures r.Version? ==> (r.sub.Some? <==> v / 0x1_0000 >= 0x0500 && subClass != 0)
  {
    if v == VERSION_1_0 then ColorSync10
    else
      var profileVersion := v / 0x1_0000;
      var subClassVersion := v % 0x1_0000;
      Version(profileVersion / 0x100, (profileVersion % 0x100) / 0x10, profileVersion % 0x10,
              if profileVersion >= 0x0500 && subClass != 0
              then Some((subClassVersion / 0x100, subClassVersion % 0x100)) else None)
  }

  /** The shown version gives back the version field it came from. */
  lemma VersionRoundTrip(v: u32, subClass: u32)
    requires v != VERSION_1_0 && v / 0x1_0000 >= 0x0500 && subClass != 0
    ensures var r := VersionOf(v, subClass);
            0x100_0000 * r.major + 0x10_0000 * r.minor + 0x1_0000 * r.bugfix
              + 0x100 * r.sub.value.0 + r.sub.value.1 == v
  {
    var hi, lo := v / 0x1_0000, v % 0x1_0000;
    assert v == 0x1_0000 * hi + lo;
    assert hi == 0x100 * (hi / 0x100) + 0x10 * ((hi % 0x100) / 0x10) + hi % 0x10;
    assert lo == 0x100 * (lo / 0x100) + lo % 0x100;
  }

  // Profile flags and device attributes (ParseBitmap.h): single bits
  const FLAG_EMBEDDEDPROFILE: nat := 0x1
  const FLAG_DEPENDENTONDATA: nat := 0x2
  const FLAG_MCSNEEDSSUBSET: nat := 0x4
  const FLAG_EXTENDEDRANGEPCS: nat := 0x8

  const ATTRIB_TRANSPARENCY: nat := 0x1
  const ATTRIB_MATTE: nat := 0x2
  const ATTRIB_MEDIANEGATIVE: nat := 0x4
  const ATTRIB_MEDIABLACKANDWHITE: nat := 0x8
  const ATTRIB_NONPAPERBASED: nat := 0x10
  const ATTRIB_TEXTURED: nat := 0x20
  const ATTRIB_NONISOTROPIC: nat := 0x40
  const ATTRIB_SELFLUMINOUS: nat := 0x80

  /** Whether the single bit `bit` (a power of two) is set in `v`. */
  predicate BitSet(v: int, bit: nat)
    requires bit > 0
  {
    (v / bit) % 2 == 1
  }

  /** `x ^ bit` for a single bit. */
  function XorBit(x: int, bit: nat): int
    requires bit > 0
  {
    if BitSet(x, bit) then x - bit else x + bit
  }

  /** One step of the clearing: the remainder is XORed with the bit when
      the original value has it set. */
  function ClearBit(v: nat, rest: int, bit: nat): int
    requires bit > 0
  {
    if BitSet(v, bit) then XorBit(rest, bit) else rest
  }

  /** Once the bits below `b` are cleared, clearing bit `b` leaves the
      value with every bit below 2b cleared. */
  lemma ClearStep(v: nat, rest: int, b: nat)
    requires b > 0 && rest == v - v % b
    ensures ClearBit(v, rest, b) == v - v % (2 * b)
  {
    assert rest == b * (v / b);
    DivUnique(rest, b, v / b, 0);
    SplitLow(v, b);
  }

  /** The flags left once each recognised flag that is set has been XORed
      away: the value with its four low bits cleared, the unrecognised
      flags. */
  function UnknownFlags(v: nat): (r: nat)
    ensures r == v - v % 0x10
  {
    ModBelow(v, 0x10);
    var r1 := ClearBit(v, v, FLAG_EMBEDDEDPROFILE);
    ClearStep(v, v, 1);
    var r2 := ClearBit(v, r1, FLAG_DEPENDENTONDATA);
    ClearStep(v, r1, 2);
    var r3 := ClearBit(v, r2, FLAG_MCSNEEDSSUBSET);
    ClearStep(v, r2, 4);
    ClearStep(v, r3, 8);
    ClearBit(v, r3, FLAG_EXTENDEDRANGEPCS)
  }

  /** The attributes left once each recognised attribute that is set has
      been XORed away: the value with its eight low bits cleared. */
  function UnknownAttributes(v: nat): (r: nat)
    ensures r == v - v % 0x100
  {
    ModBelow(v, 0x100);
    var r1 := ClearBit(v, v, ATTRIB_TRANSPARENCY);
    ClearStep(v, v, 1);
    var r2 := ClearBit(v, r1, ATTRIB_MATTE);
    ClearStep(v, r1, 2);
    var r3 := ClearBit(v, r2, ATTRIB_MEDIANEGATIVE);
    ClearStep(v, r2, 4);
    var r4 := ClearBit(v, r3, ATTRIB_MEDIABLACKANDWHITE);
    ClearStep(v, r3, 8);
    var r5 := ClearBit(v, r4, ATTRIB_NONPAPERBASED);
    ClearStep(v, r4, 0x10);
    var r6 := ClearBit(v, r5, ATTRIB_TEXTURED);
    ClearStep(v, r5, 0x20);
    var r7 := ClearBit(v, r6, ATTRIB_NONISOTROPIC);
    ClearStep(v, r6, 0x40);
    ClearStep(v, r7, 0x80);
    ClearBit(v, r7, ATTRIB_SELFLUMINOUS)
  }

  function NameIf(v: nat, bit: nat, name: string): seq<string>
    requires bit > 0
  {
    if BitSet(v, bit) then [name] else []
  }

  /** The names listed after the profile flags: one per recognised flag that
      is set, then the hex digits of the unrecognised remainder when there
      is one and it is not the whole value. */
  function FlagNames(v: u32): (r: seq<string>)
    ensures r == [] <==> v % 0x10 == 0
  {
    LowNibbleBits(v);
    var rest := UnknownFlags(v);
    FlagBitNames(v) + (if rest != 0 && rest != v then [HexN(rest, 8)] else [])
  }

  /** The names of the recognised profile flags that are set. */
  function FlagBitNames(v: nat): seq<string>
  {
    NameIf(v, FLAG_EMBEDDEDPROFILE, "EMBEDDEDPROFILE")
      + NameIf(v, FLAG_DEPENDENTONDATA, "DEPENDENTONDATA")
      + NameIf(v, FLAG_MCSNEEDSSUBSET, "MCSNEEDSSUBSET")
      + NameIf(v, FLAG_EXTENDEDRANGEPCS, "EXTENDEDRANGEPCS")
  }

  /** The names listed after the device attributes, in the same way. */
  function AttributeNames(v: nat): (r: seq<string>)
    requires v < TWO64
    ensures r == [] <==> v % 0x100 == 0
  {
    AttributeBitsNamed(v);
    var rest := UnknownAttributes(v);
    AttributeBitNames(v) + (if rest != 0 && rest != v then [HexN(rest, 16)] else [])
  }

  /** The names of the recognised device attributes that are set. */
  function AttributeBitNames(v: nat): seq<string>
  {
    NameIf(v, ATTRIB_TRANSPARENCY, "TRANSPARENCY")
      + NameIf(v, ATTRIB_MATTE, "MATTE")
      + NameIf(v, ATTRIB_MEDIANEGATIVE, "MEDIANEGATIVE")
      + NameIf(v, ATTRIB_MEDIABLACKANDWHITE, "MEDIABLACKANDWHITE")
      + NameIf(v, ATTRIB_NONPAPERBASED, "NONPAPERBASED")
      + NameIf(v, ATTRIB_TEXTURED, "TEXTURED")
      + NameIf(v, ATTRIB_NONISOTROPIC, "NONISOTROPIC")
      + NameIf(v, ATTRIB_SELFLUMINOUS, "SELFLUMINOUS")
  }

  /** The low four bits are the four flag bits. */
  lemma LowNibbleBits(v: nat)
    ensures v % 0x10 == v % 2 + 2 * ((v / 2) % 2) + 4 * ((v / 4) % 2) + 8 * ((v / 8) % 2)
  {
    SplitLow(v, 1);
    SplitLow(v, 2);
    SplitLow(v, 4);
    SplitLow(v, 8);
    assert v / 1 == v;
  }

  /** The profile flags list nothing exactly when no recognised flag is
      set; the remainder is listed exactly when the value holds both
      recognised and unrecognised flags, and it reads back as the
      unrecognised flags. */
  lemma FlagNamesListed(v: u32)
    ensures FlagNames(v) == [] <==> v % 0x10 == 0
    ensures var rest := v - v % 0x10;
            (FlagNames(v) != [] && ReadHex(FlagNames(v)[|FlagNames(v)| - 1]) == rest) <== rest != 0 && v % 0x10 != 0
    ensures |FlagNames(v)| <= 5
  {
    LowNibbleBits(v);
    var rest := v - v % 0x10;
    if rest != 0 && v % 0x10 != 0 {
      Pow16Is(8);
      HexNRoundTrip(rest, 8);
    }
  }

  /** Some recognised device attribute is named exactly when one of the
      eight low bits is set. */
  lemma AttributeBitsNamed(v: nat)
    ensures AttributeBitNames(v) == [] <==> v % 0x100 == 0
    ensures |AttributeBitNames(v)| <= 8
  {
    LowNibbleBits(v);
    SplitLow(v, 0x10);
    SplitLow(v, 0x20);
    SplitLow(v, 0x40);
    SplitLow(v, 0x80);
  }

  /** The same for the device attributes and their eight low bits. */
  lemma AttributeNamesListed(v: nat)
    requires v < TWO64
    ensures AttributeNames(v) == [] <==> v % 0x100 == 0
    ensures var rest := v - v % 0x100;
            (AttributeNames(v) != [] && ReadHex(AttributeNames(v)[|AttributeNames(v)| - 1]) == rest) <== rest != 0 && v % 0x100 != 0
    ensures |AttributeNames(v)| <= 9
  {
    AttributeBitsNamed(v);
    var rest := v - v % 0x100;
    if rest != 0 && v % 0x100 != 0 {
      Pow16Is(16);
      HexNRoundTrip(rest, 16);
    }
  }

  /** The device attributes: the two big-endian DWORDs, low one first. */
  function Attributes(p: seq<byte>): (r: nat)
    requires |p| >= PROFILE_HEADER_SIZE
    ensures r < TWO64 && r % TWO32 == BE32(p, OFF_PH_ATTRIBUTES) && r / TWO32 == BE32(p, OFF_PH_ATTRIBUTES + 4)
  {
    var lo, hi := BE32(p, OFF_PH_ATTRIBUTES), BE32(p, OFF_PH_ATTRIBUTES + 4);
    DivUnique(lo + TWO32 * hi, TWO32, hi, lo);
    lo + TWO32 * hi
  }

  /** The rendering intents of ICC.1 section 7.2.15. */
  datatype RenderingIntent =
    | Perceptual
    | RelativeColorimetric
    | Saturation
    | AbsoluteColorimetric
    | OtherIntent(value: u32)

  function IntentOf(v: u32): (r: RenderingIntent)
    ensures r.OtherIntent? <==> v > 3
    ensures IntentValue(r) == v
  {
    match v
    case 0 => Perceptual
    case 1 => RelativeColorimetric
    case 2 => Saturation
    case 3 => AbsoluteColorimetric
    case _ => OtherIntent(v)
  }

  /** The value each shown intent stands for. */
  function IntentValue(i: RenderingIntent): u32
  {
    match i
    case Perceptual => 0
    case RelativeColorimetric => 1
    case Saturation => 2
    case AbsoluteColorimetric => 3
    case OtherIntent(v) => v
  }

  /** The report on an embedded profile's header and tag table. Floating-
      point fields (illuminant, spectral ranges) are kept as the raw values
      they are printed from. */
  datatype ProfileReport =
    | HeaderSkipped
    | ColorSyncReport(cmmType: string)
    | FullReport(cmmType: string, version: ProfileVersion,
                 profileClass: string, colorSpace: string, pcs: string, dateTime: seq<u16>,
                 signature: string, platform: string,
                 flags: u32, flagNames: seq<string>,
                 manufacturer: string, model: string,
                 attributes: nat, attributeNames: seq<string>,
                 intent: RenderingIntent, illuminant: seq<int>, creator: string,
                 profileId: Option<seq<byte>>, spectral: Option<SpectralReport>,
                 tags: seq<(TagEntry, TagView)>)

  /** The ICC.2 fields shown from version 5 on. */
  datatype SpectralReport = SpectralReport(pcs: string, range: seq<u16>, biRange: seq<u16>, mcs: string, subClass: string)

  function SigAt(p: seq<byte>, at: nat): string
    requires at + 4 <= |p|
  {
    SignatureText(p[at..at + 4])
  }

  /** What is shown of each tag: its entry, then its element with the label
      " " in front of it. */
  function TagViews(p: seq<byte>, tags: seq<TagEntry>): (r: seq<(TagEntry, TagView)>)
    ensures |r| == |tags| && forall i | 0 <= i < |r| :: r[i].0 == tags[i]
  {
    seq(|tags|, i requires 0 <= i < |tags| => (tags[i], TagDataView(p, tags[i].offset, tags[i].size, 1)))
  }

  /** The date and time: six big-endian WORDs. */
  function DateTime(p: seq<byte>): (r: seq<u16>)
    requires |p| >= PROFILE_HEADER_SIZE
    ensures |r| == 6
  {
    seq(6, k requires 0 <= k < 6 => BE16(p, OFF_PH_DATETIME + 2 * k))
  }

  /** The illuminant's s15Fixed16 X, Y and Z. */
  function Illuminant(p: seq<byte>): (r: seq<int>)
    requires |p| >= PROFILE_HEADER_SIZE
    ensures |r| == 3
  {
    seq(3, k requires 0 <= k < 3 => AsInt32(BE32(p, OFF_PH_ILLUMINANT + 4 * k)))
  }

  /** Three big-endian WORDs from `at`. */
  function Words3(p: seq<byte>, at: nat): (r: seq<u16>)
    requires at + 6 <= |p|
    ensures |r| == 3
  {
    seq(3, k requires 0 <= k < 3 => BE16(p, at + 2 * k))
  }

  function Spectral(p: seq<byte>): SpectralReport
    requires |p| >= PROFILE_HEADER_SIZE
  {
    SpectralReport(SigAt(p, OFF_PH_SPECTRALPCS), Words3(p, OFF_PH_SPECTRALRANGE),
                   Words3(p, OFF_PH_BISPECTRALRANGE), SigAt(p, OFF_PH_MCS), SigAt(p, OFF_PH_SUBCLASS))
  }

  /** Every header field and the tags, for a version other than 1.0. */
  function FullHeader(p: seq<byte>): (r: ProfileReport)
    requires |p| >= PROFILE_HEADER_SIZE
    ensures r.FullReport?
  {
    var version := BE32(p, OFF_PH_VERSION);
    var profileVersion := version / 0x1_0000;
    var flags := BE32(p, OFF_PH_PROFILEFLAGS);
    var attributes := Attributes(p);
    FullReport(
      SigAt(p, OFF_PH_CMMTYPE), VersionOf(version, BE32(p, OFF_PH_SUBCLASS)),
      SigAt(p, OFF_PH_CLASS), SigAt(p, OFF_PH_DATACOLORSPACE), SigAt(p, OFF_PH_CONNECTIONSPACE),
      DateTime(p), SigAt(p, OFF_PH_SIGNATURE), SigAt(p, OFF_PH_PLATFORM),
      flags, FlagNames(flags),
      SigAt(p, OFF_PH_MANUFACTURER), SigAt(p, OFF_PH_MODEL),
      attributes, AttributeNames(attributes),
      IntentOf(BE32(p, OFF_PH_RENDERINGINTENT)), Illuminant(p), SigAt(p, OFF_PH_CREATOR),
      if profileVersion >= 0x0400 then Some(p[OFF_PH_PROFILEID..OFF_PH_PROFILEID + 16]) else None,
      if profileVersion >= 0x0500 then Some(Spectral(p)) else None,
      TagViews(p, TagTable(p)))
  }

  /** The report on a profile that passed the checkpoints: nothing when
      neither its signature nor its version is recognised; the CMM type
      only for ColorSync 1.0; otherwise every header field and the tags. */
  function Report(p: seq<byte>): (r: ProfileReport)
    requires |p| >= PROFILE_HEADER_SIZE
    ensures r.HeaderSkipped? <==> !ProfileHeaderShown(p)
    ensures r.ColorSyncReport? <==> ProfileHeaderShown(p) && BE32(p, OFF_PH_VERSION) == VERSION_1_0
    ensures r.FullReport? ==> r.version.Version? && r.tags == TagViews(p, TagTable(p))
    ensures r.FullReport? ==> r.flags == BE32(p, OFF_PH_PROFILEFLAGS) && r.flagNames == FlagNames(r.flags)
    ensures r.FullReport? ==> (r.profileId.Some? <==> BE32(p, OFF_PH_VERSION) / 0x1_0000 >= 0x0400)
    ensures r.FullReport? ==> (r.spectral.Some? <==> BE32(p, OFF_PH_VERSION) / 0x1_0000 >= 0x0500)
  {
    if !ProfileHeaderShown(p) then HeaderSkipped
    else if BE32(p, OFF_PH_VERSION) == VERSION_1_0 then ColorSyncReport(SigAt(p, OFF_PH_CMMTYPE))
    else FullHeader(p)
  }

  // ---------------------------------------------------------------------------
  // GetColorName

  /** A COLORREF: red in the low byte, then green, then blue. */
  function Rgb(r: byte, g: byte, b: byte): nat
  {
    r + 0x100 * g + 0x1_0000 * b
  }

  datatype ColorName = ColorName(color: nat, name: string)

  /** The names of the 20 static colours of the system palette, as
      COLORREF values. */
  const COLOR_NAMES: seq<ColorName> :=
    [ ColorName(0x00_0000, "black"),
      ColorName(0x00_0080, "dark red"),
      ColorName(0x00_8000, "dark green"),
      ColorName(0x00_8080, "dark yellow"),
      ColorName(0x80_0000, "dark blue"),
      ColorName(0x80_0080, "dark magenta"),
      ColorName(0x80_8000, "dark cyan"),
      ColorName(0xC0_C0C0, "light gray"),
      ColorName(0xC0_DCC0, "money green"),
      ColorName(0xF0_CAA6, "sky blue"),
      ColorName(0xF0_FBFF, "cream"),
      ColorName(0xA4_A0A0, "light gray"),
      ColorName(0x80_8080, "medium gray"),
      ColorName(0x00_00FF, "red"),
      ColorName(0x00_FF00, "green"),
      ColorName(0x00_FFFF, "yellow"),
      ColorName(0xFF_0000, "blue"),
      ColorName(0xFF_00FF, "magenta"),
      ColorName(0xFF_FF00, "cyan"),
      ColorName(0xFF_FFFF, "white") ]

  /** The name of the first entry from index i on with the colour, if any. */
  function FirstName(table: seq<ColorName>, i: nat, color: nat): (r: Option<string>)
    ensures r.None? <==> forall k | i <= k < |table| :: table[k].color != color
    decreases |table| - i
  {
    if i >= |table| then None
    else if table[i].color == color then Some(table[i].name)
    else FirstName(table, i + 1, color)
  }

  /** A name is found exactly when some entry from i on has the colour, and
      it is the name of the first such entry. */
  lemma {:induction false} FirstNameFinds(table: seq<ColorName>, i: nat, color: nat)
    ensures FirstName(table, i, color).Some? <==> exists k | i <= k < |table| :: table[k].color == color
    ensures FirstName(table, i, color).Some? ==>
              exists k | i <= k < |table| :: table[k].color == color && table[k].name == FirstName(table, i, color).value
                && forall j | i <= j < k :: table[j].color != color
    decreases |table| - i
  {
    if i < |table| && table[i].color != color {
      FirstNameFinds(table, i + 1, color);
    }
  }

  /** The lookup loop over the table: the name of the first entry with the
      colour and true, or "" and false. */
  method GetColorName(table: seq<ColorName>, color: nat) returns (found: bool, name: string)
    ensures found <==> FirstName(table, 0, color).Some?
    ensures found ==> name == FirstName(table, 0, color).value
    ensures !found ==> name == ""
  {
    name := "";
    var i := 0;
    while i < |table|
      invariant 0 <= i <= |table|
      invariant FirstName(table, 0, color) == FirstName(table, i, color)
    {
      if table[i].color == color {
        name := table[i].name;
        return true, name;
      }
      i := i + 1;
    }
    return false, name;
  }

  /** Two different colours are both called "light gray", so a name does not
      tell which colour was shown. */
  lemma LightGrayTwice()
    ensures FirstName(COLOR_NAMES, 0, Rgb(0xC0, 0xC0, 0xC0)) == Some("light gray")
    ensures FirstName(COLOR_NAMES, 0, Rgb(0xA0, 0xA0, 0xA4)) == Some("light gray")
    ensures Rgb(0xC0, 0xC0, 0xC0) != Rgb(0xA0, 0xA0, 0xA4)
  {
    FirstNameAt(COLOR_NAMES, 0, Rgb(0xC0, 0xC0, 0xC0), 7);
    FirstNameAt(COLOR_NAMES, 0, Rgb(0xA0, 0xA0, 0xA4), 11);
  }

  /** The name found is that of the first entry from i on with the colour. */
  lemma {:induction false} FirstNameAt(table: seq<ColorName>, i: nat, color: nat, k: nat)
    requires i <= k < |table| && table[k].color == color
    requires forall j | i <= j < k :: table[j].color != color
    ensures FirstName(table, i, color) == Some(table[k].name)
    decreases k - i
  {
    if i < k {
      FirstNameAt(table, i + 1, color, k);
    }
  }
}
